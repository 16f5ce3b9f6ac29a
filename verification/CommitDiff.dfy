/** One commit's changed files: how each is resolved, how results are flattened, and the sidebar's counts. */
module CommitDiff {
  import opened GoStrings
  import opened DiffView

  datatype ChangeAction = ActionKeep | ActionAdd | ActionDelete | ActionMove | ActionCopy

  datatype Change = Change(path: string, pathFrom: string, action: ChangeAction)

  /** What fetching and diffing the two versions of a file came to. */
  datatype Fetched = Fetched(binary: bool, truncated: bool, identical: bool, parsed: Option<seq<File>>)

  /** Counts are uint64. */
  datatype DiffResult = DiffResult(index: nat, files: seq<File>, added: nat, deleted: nat)

  const U64 := 0x1_0000_0000_0000_0000

  function ChangePath(c: Change): string {
    if c.path != "" then c.path else c.pathFrom
  }

  function Stamp(f: File, action: ChangeAction): File {
    f.(isNew := action.ActionAdd?, isDelete := action.ActionDelete?)
  }

  function Blank(name: string, binary: bool): File {
    File(name, "", false, false, binary, [])
  }

  /** A file that is listed without a diff. */
  function Synthetic(index: nat, c: Change): DiffResult {
    DiffResult(index, [Stamp(Blank(ChangePath(c), false), c.action)], 0, 0)
  }

  function Named(f: File, c: Change): File {
    Stamp(if f.newName == "" && f.oldName == "" then f.(newName := c.path) else f, c.action)
  }

  function ResolveFileDiff(index: nat, c: Change, x: Fetched): DiffResult {
    if x.binary then DiffResult(index, [Stamp(Blank(c.path, true), c.action)], 0, 0)
    else if x.truncated || x.identical || x.parsed.None? || x.parsed.value == [] then Synthetic(index, c)
    else
      var parsed := x.parsed.value;
      DiffResult(index, seq(|parsed|, i requires 0 <= i < |parsed| => Named(parsed[i], c)),
                 CountFiles(parsed, OpAdd), CountFiles(parsed, OpDelete))
  }

  function Declared(f: Fragment, kind: LineOp): int {
    if kind.OpAdd? then f.linesAdded else f.linesDeleted
  }

  /** The declared counts of a file's fragments, summed in uint64. */
  function CountFragments(fragments: seq<Option<Fragment>>, kind: LineOp, start: nat): (r: nat)
    requires start < U64
    ensures r < U64
  {
    if fragments == [] then start
    else
      var n := |fragments| - 1;
      var before := CountFragments(fragments[..n], kind, start);
      match fragments[n] case None => before case Some(f) => (before + Declared(f, kind)) % U64
  }

  function CountFiles(files: seq<File>, kind: LineOp): (r: nat)
    ensures r < U64
  {
    if files == [] then 0
    else CountFragments(files[|files| - 1].fragments, kind, CountFiles(files[..|files| - 1], kind))
  }

  // ---------- flattening ----------

  function Flatten(results: seq<DiffResult>): seq<File> {
    if results == [] then [] else Flatten(results[..|results| - 1]) + results[|results| - 1].files
  }

  function CountOf(r: DiffResult, kind: LineOp): nat {
    if kind.OpAdd? then r.added else r.deleted
  }

  /** A commit's total of one kind, accumulated in uint64. */
  function Total(results: seq<DiffResult>, kind: LineOp): (r: nat)
    ensures r < U64
  {
    if results == [] then 0
    else (Total(results[..|results| - 1], kind) + CountOf(results[|results| - 1], kind)) % U64
  }

  method FlattenResults(results: seq<DiffResult>) returns (files: seq<File>, added: nat, deleted: nat)
    ensures files == Flatten(results) && added == Total(results, OpAdd) && deleted == Total(results, OpDelete)
  {
    files, added, deleted := [], 0, 0;
    for i := 0 to |results|
      invariant files == Flatten(results[..i])
      invariant added == Total(results[..i], OpAdd) && deleted == Total(results[..i], OpDelete)
    {
      assert results[..i + 1][..|results[..i + 1]| - 1] == results[..i];
      files := files + results[i].files;
      added := (added + results[i].added) % U64;
      deleted := (deleted + results[i].deleted) % U64;
    }
    assert results[..|results|] == results;
  }

  // ---------- the sidebar ----------

  datatype CommitFileView = CommitFileView(path: string, adds: int, dels: int)

  /** The declared counts of a file's fragments, summed without the binary ones. */
  function SumFragments(fragments: seq<Option<Fragment>>, kind: LineOp): int {
    if fragments == [] then 0
    else
      var n := |fragments| - 1;
      SumFragments(fragments[..n], kind) + match fragments[n] case None => 0 case Some(f) => Declared(f, kind)
  }

  function SidebarOf(f: File): CommitFileView {
    if f.isBinary then CommitFileView(DiffPath(f), 0, 0)
    else CommitFileView(DiffPath(f), SumFragments(f.fragments, OpAdd), SumFragments(f.fragments, OpDelete))
  }

  function Sidebar(files: seq<Option<File>>): seq<CommitFileView> {
    if files == [] then []
    else
      var n := |files| - 1;
      Sidebar(files[..n]) + match files[n] case None => [] case Some(f) => [SidebarOf(f)]
  }

  method BuildCommitFiles(files: seq<Option<File>>) returns (out: seq<CommitFileView>)
    ensures out == Sidebar(files)
  {
    out := [];
    for i := 0 to |files|
      invariant out == Sidebar(files[..i])
    {
      assert files[..i + 1][..|files[..i + 1]| - 1] == files[..i];
      if files[i].None? { continue; }
      var f := files[i].value;
      var path := if f.newName != "" then f.newName else f.oldName;
      var adds, dels := 0, 0;
      if !f.isBinary {
        for k := 0 to |f.fragments|
          invariant adds == SumFragments(f.fragments[..k], OpAdd) && dels == SumFragments(f.fragments[..k], OpDelete)
        {
          assert f.fragments[..k + 1][..|f.fragments[..k + 1]| - 1] == f.fragments[..k];
          if f.fragments[k].None? { continue; }
          adds := adds + f.fragments[k].value.linesAdded;
          dels := dels + f.fragments[k].value.linesDeleted;
        }
        assert f.fragments[..|f.fragments|] == f.fragments;
      }
      out := out + [CommitFileView(path, adds, dels)];
    }
    assert files[..|files|] == files;
  }

  /** The sidebar lists each file once, in order, under its new or else its old name; a binary file counts nothing. */
  lemma {:induction false} SidebarLists(files: seq<File>, i: nat)
    requires i < |files|
    ensures |Sidebar(Present(files))| == |files|
    ensures var view, f := Sidebar(Present(files))[i], files[i];
            && (f.newName != "" ==> view.path == f.newName) && (f.newName == "" ==> view.path == f.oldName)
            && (f.isBinary ==> view.adds == 0 && view.dels == 0)
            && (!f.isBinary ==> view.adds == SumFragments(f.fragments, OpAdd)
                                && view.dels == SumFragments(f.fragments, OpDelete))
  {
    var n := |files| - 1;
    assert Present(files)[..n] == Present(files[..n]);
    if i < n {
      SidebarLists(files[..n], i);
    } else if n > 0 {
      SidebarLists(files[..n], 0);
    }
  }

  // ---------- the counts agree ----------

  /** What the parser promises: each fragment declares the number of its added and deleted lines. */
  predicate WellCounted(fragments: seq<Option<Fragment>>) {
    forall i | 0 <= i < |fragments| && fragments[i].Some? ::
      var f := fragments[i].value;
      f.linesAdded == LinesOf(f.lines, OpAdd) && f.linesDeleted == LinesOf(f.lines, OpDelete)
  }

  lemma {:induction false} DeclaredIsCounted(fragments: seq<Option<Fragment>>, kind: LineOp)
    requires WellCounted(fragments) && !kind.OpContext?
    ensures SumFragments(fragments, kind) == TotalOf(fragments, kind)
  {
    if fragments != [] {
      DeclaredIsCounted(fragments[..|fragments| - 1], kind);
    }
  }

  /** The rendered counts of a file are its sidebar counts, exactly when it is not a binary file with changed lines. */
  lemma ViewAgreesWithSidebarIff(f: File)
    requires NoNil(f.fragments) && WellCounted(f.fragments)
    ensures (ViewOf(f).added == SidebarOf(f).adds && ViewOf(f).deleted == SidebarOf(f).dels
             && ViewOf(f).path == SidebarOf(f).path)
            <==> !f.isBinary || (TotalOf(f.fragments, OpAdd) == 0 && TotalOf(f.fragments, OpDelete) == 0)
  {
    DeclaredIsCounted(f.fragments, OpAdd);
    DeclaredIsCounted(f.fragments, OpDelete);
  }

  /** The lines of one kind in all of a commit's files. */
  function LinesInFiles(files: seq<File>, kind: LineOp): nat {
    if files == [] then 0
    else LinesInFiles(files[..|files| - 1], kind) + TotalOf(files[|files| - 1].fragments, kind)
  }

  predicate FilesWellCounted(files: seq<File>) {
    forall i | 0 <= i < |files| :: WellCounted(files[i].fragments) && (files[i].isBinary ==> files[i].fragments == [])
  }

  lemma ModSum(a: int, b: int)
    ensures (a % U64 + b) % U64 == (a + b) % U64
  {
  }

  lemma {:induction false} FragmentsCountModulo(fragments: seq<Option<Fragment>>, kind: LineOp, start: nat)
    requires start < U64
    ensures CountFragments(fragments, kind, start) == (start + SumFragments(fragments, kind)) % U64
  {
    if fragments != [] {
      var n := |fragments| - 1;
      FragmentsCountModulo(fragments[..n], kind, start);
      if fragments[n].Some? {
        ModSum(start + SumFragments(fragments[..n], kind), Declared(fragments[n].value, kind));
      }
    }
  }

  lemma {:induction false} FilesCountModulo(files: seq<File>, kind: LineOp)
    requires FilesWellCounted(files) && !kind.OpContext?
    ensures CountFiles(files, kind) == LinesInFiles(files, kind) % U64
  {
    if files != [] {
      var n := |files| - 1;
      FilesCountModulo(files[..n], kind);
      FragmentsCountModulo(files[n].fragments, kind, CountFiles(files[..n], kind));
      DeclaredIsCounted(files[n].fragments, kind);
      ModSum(LinesInFiles(files[..n], kind), TotalOf(files[n].fragments, kind));
    }
  }

  lemma {:induction false} NamingKeepsLines(parsed: seq<File>, c: Change, kind: LineOp)
    ensures LinesInFiles(seq(|parsed|, i requires 0 <= i < |parsed| => Named(parsed[i], c)), kind)
         == LinesInFiles(parsed, kind)
  {
    if parsed != [] {
      var n := |parsed| - 1;
      var named := seq(|parsed|, i requires 0 <= i < |parsed| => Named(parsed[i], c));
      NamingKeepsLines(parsed[..n], c, kind);
      assert named[..n] == seq(n, i requires 0 <= i < n => Named(parsed[..n][i], c));
    }
  }

  /** A result's totals count the lines of its own files, and its files are as well counted as the parsed ones. */
  lemma ResolvedCountsItsFiles(index: nat, c: Change, x: Fetched)
    requires x.parsed.Some? ==> FilesWellCounted(x.parsed.value)
    ensures var r := ResolveFileDiff(index, c, x);
            && FilesWellCounted(r.files) && r.index == index && r.files != []
            && r.added == LinesInFiles(r.files, OpAdd) % U64
            && r.deleted == LinesInFiles(r.files, OpDelete) % U64
  {
    var r := ResolveFileDiff(index, c, x);
    if |r.files| == 1 && r.files[0].fragments == [] {
      assert r.files[..0] == [];
      assert LinesInFiles(r.files[..0], OpAdd) == 0 && LinesInFiles(r.files[..0], OpDelete) == 0;
    }
    if !x.binary && x.parsed.Some? && !x.truncated && !x.identical {
      FilesCountModulo(x.parsed.value, OpAdd);
      FilesCountModulo(x.parsed.value, OpDelete);
      NamingKeepsLines(x.parsed.value, c, OpAdd);
      NamingKeepsLines(x.parsed.value, c, OpDelete);
    }
  }

  predicate CountsItsFiles(r: DiffResult) {
    && FilesWellCounted(r.files)
    && r.added == LinesInFiles(r.files, OpAdd) % U64 && r.deleted == LinesInFiles(r.files, OpDelete) % U64
  }

  lemma {:induction false} LinesInFilesAdd(a: seq<File>, b: seq<File>, kind: LineOp)
    ensures LinesInFiles(a + b, kind) == LinesInFiles(a, kind) + LinesInFiles(b, kind)
    decreases |b|
  {
    if b == [] {
      assert a + b == a;
    } else {
      var n := |b| - 1;
      assert (a + b)[..|a + b| - 1] == a + b[..n];
      LinesInFilesAdd(a, b[..n], kind);
    }
  }

  function SidebarSum(views: seq<CommitFileView>, kind: LineOp): int {
    if views == [] then 0
    else SidebarSum(views[..|views| - 1], kind) + (var v := views[|views| - 1]; if kind.OpAdd? then v.adds else v.dels)
  }

  function Present(files: seq<File>): seq<Option<File>> {
    seq(|files|, i requires 0 <= i < |files| => Some(files[i]))
  }

  lemma {:induction false} SidebarSumsLines(files: seq<File>, kind: LineOp)
    requires FilesWellCounted(files) && !kind.OpContext?
    ensures SidebarSum(Sidebar(Present(files)), kind) == LinesInFiles(files, kind)
  {
    if files != [] {
      var n := |files| - 1;
      SidebarSumsLines(files[..n], kind);
      assert Present(files)[..n] == Present(files[..n]);
      var views := Sidebar(Present(files));
      assert views[..|views| - 1] == Sidebar(Present(files[..n]));
      DeclaredIsCounted(files[n].fragments, OpAdd);
      DeclaredIsCounted(files[n].fragments, OpDelete);
    }
  }

  /** The sidebar's counts sum to the commit's totals, in uint64. */
  lemma SidebarSumsToTotals(results: seq<DiffResult>, kind: LineOp)
    requires !kind.OpContext? && forall i | 0 <= i < |results| :: CountsItsFiles(results[i])
    ensures Total(results, kind) == SidebarSum(Sidebar(Present(Flatten(results))), kind) % U64
  {
    TotalsCountLines(results, kind);
    FlattenKeepsCounted(results);
    SidebarSumsLines(Flatten(results), kind);
  }

  lemma {:induction false} FlattenKeepsCounted(results: seq<DiffResult>)
    requires forall i | 0 <= i < |results| :: CountsItsFiles(results[i])
    ensures FilesWellCounted(Flatten(results))
  {
    if results != [] {
      FlattenKeepsCounted(results[..|results| - 1]);
    }
  }

  /** One more result: its files' lines join the lines before it, in uint64. */
  lemma TotalStep(before: nat, files: seq<File>, more: DiffResult, kind: LineOp)
    requires !kind.OpContext? && CountsItsFiles(more) && before == LinesInFiles(files, kind) % U64
    ensures (before + CountOf(more, kind)) % U64 == LinesInFiles(files + more.files, kind) % U64
  {
    LinesInFilesAdd(files, more.files, kind);
    SumOfMods(LinesInFiles(files, kind), LinesInFiles(more.files, kind));
  }

  lemma {:induction false} TotalsCountLines(results: seq<DiffResult>, kind: LineOp)
    requires !kind.OpContext? && forall i | 0 <= i < |results| :: CountsItsFiles(results[i])
    ensures Total(results, kind) == LinesInFiles(Flatten(results), kind) % U64
  {
    if results != [] {
      var n := |results| - 1;
      assert forall i | 0 <= i < n :: results[..n][i] == results[i];
      TotalsCountLines(results[..n], kind);
      LastResultJoins(results, kind);
    }
  }

  lemma LastResultJoins(results: seq<DiffResult>, kind: LineOp)
    requires !kind.OpContext? && results != [] && CountsItsFiles(results[|results| - 1])
    requires Total(results[..|results| - 1], kind) == LinesInFiles(Flatten(results[..|results| - 1]), kind) % U64
    ensures Total(results, kind) == LinesInFiles(Flatten(results), kind) % U64
  {
    var n := |results| - 1;
    TotalStep(Total(results[..n], kind), Flatten(results[..n]), results[n], kind);
  }

  lemma SumOfMods(a: nat, b: nat)
    ensures (a % U64 + b % U64) % U64 == (a + b) % U64
  {
    ModSum(a, b % U64);
    ModSum(b, a);
  }
}

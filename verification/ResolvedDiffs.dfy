/** What a commit's file list shows for each change: the parsed diff of a text file, or a listing and why. */
module ResolvedDiffs {
  import opened GoStrings
  import opened DiffView
  import opened CommitDiff
  import opened WorkerPool

  /** Both sides are text, fetched whole and different, and their diff parses into something. */
  predicate HasDiff(x: Fetched) {
    !x.binary && !x.truncated && !x.identical && x.parsed.Some? && x.parsed.value != []
  }

  predicate Stamped(f: File, c: Change) {
    (f.isNew <==> c.action == ActionAdd) && (f.isDelete <==> c.action == ActionDelete)
  }

  /** The parsed file with its fragments, named after the change if it has no name of its own. */
  predicate IsParsed(f: File, parsed: File, c: Change) {
    && f.fragments == parsed.fragments && f.isBinary == parsed.isBinary && f.oldName == parsed.oldName
    && (parsed.newName == "" && parsed.oldName == "" ==> f.newName == c.path)
    && (parsed.newName != "" || parsed.oldName != "" ==> f.newName == parsed.newName)
    && Stamped(f, c)
  }

  /** A listing: no fragments, under the path, or where the file came from if that is all there is and it is text. */
  predicate IsListed(f: File, c: Change, binary: bool) {
    && f.fragments == [] && f.oldName == "" && (f.isBinary <==> binary)
    && (c.path != "" || binary ==> f.newName == c.path) && (c.path == "" && !binary ==> f.newName == c.pathFrom)
    && Stamped(f, c)
  }

  /** What the files of one change show; past the cap nothing is fetched. */
  predicate Shows(files: seq<File>, c: Change, x: Fetched, capped: bool) {
    if HasDiff(x) && !capped then
      |files| == |x.parsed.value| && forall k | 0 <= k < |files| :: IsParsed(files[k], x.parsed.value[k], c)
    else
      |files| == 1 && IsListed(files[0], c, x.binary && !capped)
  }

  lemma ResolvedShows(index: nat, c: Change, x: Fetched)
    ensures Shows(ResolveFileDiff(index, c, x).files, c, x, false)
    ensures Shows(Synthetic(index, c).files, c, x, true)
  {
  }

  // ---------- counts ----------

  /** The counts that the fragments of these files declare, as plain integers. */
  function DeclaredIn(files: seq<File>, kind: LineOp): int {
    if files == [] then 0
    else DeclaredIn(files[..|files| - 1], kind) + SumFragments(files[|files| - 1].fragments, kind)
  }

  lemma {:induction false} FragmentsWrap(fragments: seq<Option<Fragment>>, kind: LineOp, start: nat)
    requires start < U64
    ensures CountFragments(fragments, kind, start) == (start + SumFragments(fragments, kind)) % U64
  {
    if fragments != [] {
      var n := |fragments| - 1;
      FragmentsWrap(fragments[..n], kind, start);
      if fragments[n].Some? {
        ModSum(start + SumFragments(fragments[..n], kind), Declared(fragments[n].value, kind));
      }
    }
  }

  lemma {:induction false} FilesWrap(files: seq<File>, kind: LineOp)
    ensures CountFiles(files, kind) == DeclaredIn(files, kind) % U64
  {
    if files != [] {
      var n := |files| - 1;
      FilesWrap(files[..n], kind);
      FragmentsWrap(files[n].fragments, kind, CountFiles(files[..n], kind));
      ModSum(DeclaredIn(files[..n], kind), SumFragments(files[n].fragments, kind));
    }
  }

  /** A shown diff counts what its parse declares, in uint64; a listing counts nothing. */
  lemma ResolvedCounts(index: nat, c: Change, x: Fetched, kind: LineOp)
    requires !kind.OpContext?
    ensures CountOf(ResolveFileDiff(index, c, x), kind)
         == if HasDiff(x) then DeclaredIn(x.parsed.value, kind) % U64 else 0
    ensures CountOf(Synthetic(index, c), kind) == 0
  {
    if HasDiff(x) { FilesWrap(x.parsed.value, kind); }
  }

  // ---------- the flattened list ----------

  function Width(job: Job, i: nat): nat
    requires i < |job.changes| && JobOk(job)
  {
    if i < 200 && HasDiff(job.fetched[i]) then |job.fetched[i].parsed.value| else 1
  }

  /** How many files come before those of change `n`. */
  function Offset(job: Job, n: nat): nat
    requires n <= |job.changes| && JobOk(job)
  {
    if n == 0 then 0 else Offset(job, n - 1) + Width(job, n - 1)
  }

  lemma {:induction false} FlattenPlaces(results: seq<DiffResult>, offsets: seq<nat>, i: nat)
    requires |offsets| == |results| + 1 && offsets[0] == 0 && i < |results|
    requires forall j | 0 <= j < |results| :: offsets[j + 1] == offsets[j] + |results[j].files|
    ensures |Flatten(results)| == offsets[|results|] && offsets[i + 1] <= |Flatten(results)|
    ensures Flatten(results)[offsets[i]..offsets[i + 1]] == results[i].files
  {
    var n := |results| - 1;
    if n > 0 {
      FlattenPlaces(results[..n], offsets[..n + 1], if i < n then i else 0);
    } else {
      assert results[..0] == [];
    }
  }

  lemma ShownByIndex(job: Job, i: nat)
    requires JobOk(job) && i < |job.changes|
    ensures Shows(Sequential(job)[i].files, job.changes[i], job.fetched[i], i >= 200)
    ensures |Sequential(job)[i].files| == Width(job, i)
  {
    ResolvedShows(i, job.changes[i], job.fetched[i]);
  }

  lemma OffsetsOfFiles(job: Job) returns (offsets: seq<nat>)
    requires JobOk(job)
    ensures |offsets| == |job.changes| + 1 && forall n | 0 <= n <= |job.changes| :: offsets[n] == Offset(job, n)
    ensures forall j | 0 <= j < |job.changes| :: offsets[j + 1] == offsets[j] + |Sequential(job)[j].files|
  {
    offsets := seq(|job.changes| + 1, n requires 0 <= n <= |job.changes| => Offset(job, n));
    forall j | 0 <= j < |job.changes| ensures offsets[j + 1] == offsets[j] + |Sequential(job)[j].files| {
      ShownByIndex(job, j);
    }
  }

  /**
   Under every schedule the list has the files of each change in its place, in order: its parsed diff if it has one
   and is among the first two hundred, else its listing.
   */
  lemma EveryScheduleShowsTheDiffs(job: Job, schedule: seq<Action>, i: nat)
    requires JobOk(job) && Possible(job, Start(job), schedule) && i < |job.changes|
    requires Run(job, Start(job), schedule).main.Finished?
    ensures forall k | 0 <= k < |Run(job, Start(job), schedule).slots| ::
              Run(job, Start(job), schedule).slots[k].Some?
    ensures var files := Flatten(SortByIndex(Collected(Run(job, Start(job), schedule))));
            && |files| == Offset(job, |job.changes|) && Offset(job, i + 1) <= |files|
            && Shows(files[Offset(job, i)..Offset(job, i + 1)], job.changes[i], job.fetched[i], i >= 200)
  {
    EveryScheduleGivesTheSequentialAnswer(job, schedule);
    var offsets := OffsetsOfFiles(job);
    FlattenPlaces(Sequential(job), offsets, i);
    ShownByIndex(job, i);
  }

  /** The counts that the diff shown for change `i` declares. */
  function ShownAt(job: Job, i: nat, kind: LineOp): int
    requires i < |job.changes| && JobOk(job)
  {
    if i < 200 && HasDiff(job.fetched[i]) then DeclaredIn(job.fetched[i].parsed.value, kind) else 0
  }

  function Shown(job: Job, n: nat, kind: LineOp): int
    requires n <= |job.changes| && JobOk(job)
  {
    if n == 0 then 0 else Shown(job, n - 1, kind) + ShownAt(job, n - 1, kind)
  }

  lemma CountAt(job: Job, i: nat, kind: LineOp)
    requires JobOk(job) && i < |job.changes| && !kind.OpContext?
    ensures CountOf(Sequential(job)[i], kind) == ShownAt(job, i, kind) % U64
  {
    ResolvedCounts(i, job.changes[i], job.fetched[i], kind);
  }

  lemma TotalSnoc(results: seq<DiffResult>, n: nat, kind: LineOp)
    requires n < |results|
    ensures Total(results[..n + 1], kind) == (Total(results[..n], kind) + CountOf(results[n], kind)) % U64
  {
    assert results[..n + 1][..n] == results[..n];
  }

  lemma {:induction false} TotalIsShown(job: Job, n: nat, kind: LineOp)
    requires JobOk(job) && n <= |job.changes| && !kind.OpContext?
    ensures Total(Sequential(job)[..n], kind) == Shown(job, n, kind) % U64
  {
    if n > 0 {
      TotalIsShown(job, n - 1, kind);
      TotalSnoc(Sequential(job), n - 1, kind);
      CountAt(job, n - 1, kind);
      WrapSum(Shown(job, n - 1, kind), ShownAt(job, n - 1, kind));
    }
  }

  lemma WrapSum(a: int, b: int)
    ensures (a % U64 + b % U64) % U64 == (a + b) % U64
  {
    ModSum(a, b % U64);
    ModSum(b, a);
  }

  /** And the totals count what the shown diffs declare, in uint64. */
  lemma EveryScheduleCountsTheDiffs(job: Job, schedule: seq<Action>, kind: LineOp)
    requires JobOk(job) && Possible(job, Start(job), schedule) && !kind.OpContext?
    requires Run(job, Start(job), schedule).main.Finished?
    ensures forall k | 0 <= k < |Run(job, Start(job), schedule).slots| ::
              Run(job, Start(job), schedule).slots[k].Some?
    ensures Total(SortByIndex(Collected(Run(job, Start(job), schedule))), kind)
         == Shown(job, |job.changes|, kind) % U64
  {
    EveryScheduleGivesTheSequentialAnswer(job, schedule);
    TotalIsShown(job, |job.changes|, kind);
    assert Sequential(job)[..|job.changes|] == Sequential(job);
  }
}

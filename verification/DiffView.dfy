/** Rendering a parsed diff: the numbered rows of each hunk, the counts of each file, and decimal numbers. */
module DiffView {
  import opened GoStrings

  // ---------- parsed diffs ----------

  datatype LineOp = OpContext | OpDelete | OpAdd

  datatype Line = Line(op: LineOp, text: string)

  datatype Fragment = Fragment(
    header: string, oldPosition: int, newPosition: int, linesAdded: int, linesDeleted: int, lines: seq<Line>)

  /** A nil fragment is None. */
  datatype File = File(
    newName: string, oldName: string, isNew: bool, isDelete: bool, isBinary: bool, fragments: seq<Option<Fragment>>)

  // ---------- the view ----------

  /** Zero is "no number on this side". */
  datatype Row = Row(kind: LineOp, oldLine: int, newLine: int, content: string)

  datatype Hunk = Hunk(header: string, rows: seq<Row>)

  datatype FileView = FileView(
    path: string, isBinary: bool, isNew: bool, isDeleted: bool, added: nat, deleted: nat, hunks: seq<Hunk>)

  function TrimNewline(s: string): string {
    if s != "" && s[|s| - 1] == '\n' then s[..|s| - 1] else s
  }

  function DiffPath(f: File): string {
    if f.newName != "" then f.newName else f.oldName
  }

  /** The lines on one side: all but those of the kind that side lacks. */
  function LinesWithout(lines: seq<Line>, op: LineOp): nat {
    if lines == [] then 0
    else LinesWithout(lines[..|lines| - 1], op) + if lines[|lines| - 1].op == op then 0 else 1
  }

  function LinesOf(lines: seq<Line>, op: LineOp): nat {
    if lines == [] then 0
    else LinesOf(lines[..|lines| - 1], op) + if lines[|lines| - 1].op == op then 1 else 0
  }

  function RowFor(line: Line, oldLine: int, newLine: int): Row {
    Row(line.op, if line.op.OpAdd? then 0 else oldLine, if line.op.OpDelete? then 0 else newLine,
        TrimNewline(line.text))
  }

  function RowsOf(lines: seq<Line>, oldPosition: int, newPosition: int): (rows: seq<Row>)
    ensures |rows| == |lines|
  {
    if lines == [] then []
    else
      var front := lines[..|lines| - 1];
      RowsOf(front, oldPosition, newPosition)
      + [RowFor(lines[|lines| - 1], oldPosition + LinesWithout(front, OpAdd),
                newPosition + LinesWithout(front, OpDelete))]
  }

  lemma RowsSnoc(lines: seq<Line>, j: nat, oldPosition: int, newPosition: int)
    requires j < |lines|
    ensures RowsOf(lines[..j + 1], oldPosition, newPosition)
         == RowsOf(lines[..j], oldPosition, newPosition)
            + [RowFor(lines[j], oldPosition + LinesWithout(lines[..j], OpAdd),
                      newPosition + LinesWithout(lines[..j], OpDelete))]
  {
    assert lines[..j + 1][..|lines[..j + 1]| - 1] == lines[..j];
  }

  lemma CountsSnoc(lines: seq<Line>, j: nat, op: LineOp)
    requires j < |lines|
    ensures LinesOf(lines[..j + 1], op) == LinesOf(lines[..j], op) + if lines[j].op == op then 1 else 0
    ensures LinesWithout(lines[..j + 1], op) == LinesWithout(lines[..j], op) + if lines[j].op == op then 0 else 1
  {
    assert lines[..j + 1][..|lines[..j + 1]| - 1] == lines[..j];
  }

  function HunkOf(f: Fragment): Hunk {
    Hunk(f.header, RowsOf(f.lines, f.oldPosition, f.newPosition))
  }

  predicate NoNil(fragments: seq<Option<Fragment>>) {
    forall i | 0 <= i < |fragments| :: fragments[i].Some?
  }

  function HunksOf(fragments: seq<Option<Fragment>>): seq<Hunk>
    requires NoNil(fragments)
  {
    seq(|fragments|, i requires 0 <= i < |fragments| => HunkOf(fragments[i].value))
  }

  /** The lines of one kind in all fragments together. */
  function TotalOf(fragments: seq<Option<Fragment>>, op: LineOp): nat {
    if fragments == [] then 0
    else
      var n := |fragments| - 1;
      TotalOf(fragments[..n], op) + match fragments[n] case Some(f) => LinesOf(f.lines, op) case None => 0
  }

  lemma FragmentsSnoc(fragments: seq<Option<Fragment>>, i: nat)
    requires NoNil(fragments) && i < |fragments|
    ensures HunksOf(fragments[..i + 1]) == HunksOf(fragments[..i]) + [HunkOf(fragments[i].value)]
    ensures TotalOf(fragments[..i + 1], OpAdd)
         == TotalOf(fragments[..i], OpAdd) + LinesOf(fragments[i].value.lines, OpAdd)
    ensures TotalOf(fragments[..i + 1], OpDelete)
         == TotalOf(fragments[..i], OpDelete) + LinesOf(fragments[i].value.lines, OpDelete)
  {
    assert fragments[..i + 1][..i] == fragments[..i];
  }

  function ViewOf(f: File): FileView
    requires NoNil(f.fragments)
  {
    FileView(DiffPath(f), f.isBinary, f.isNew, f.isDelete,
             TotalOf(f.fragments, OpAdd), TotalOf(f.fragments, OpDelete), HunksOf(f.fragments))
  }

  /** The inner loop's state after `j` lines. */
  predicate Rendered(f: Fragment, j: nat, rows: seq<Row>, oldLine: int, newLine: int, added: int, deleted: int) {
    && j <= |f.lines| && rows == RowsOf(f.lines[..j], f.oldPosition, f.newPosition)
    && oldLine == f.oldPosition + LinesWithout(f.lines[..j], OpAdd)
    && newLine == f.newPosition + LinesWithout(f.lines[..j], OpDelete)
    && added == LinesOf(f.lines[..j], OpAdd) && deleted == LinesOf(f.lines[..j], OpDelete)
  }

  /** One more line: its row carries the running numbers, which move on the sides it is on. */
  lemma LineRendered(f: Fragment, j: nat, rows: seq<Row>, oldLine: int, newLine: int, added: int, deleted: int)
    requires j < |f.lines| && Rendered(f, j, rows, oldLine, newLine, added, deleted)
    ensures var op := f.lines[j].op;
            Rendered(f, j + 1, rows + [RowFor(f.lines[j], oldLine, newLine)],
                     oldLine + (if op.OpAdd? then 0 else 1), newLine + (if op.OpDelete? then 0 else 1),
                     added + (if op.OpAdd? then 1 else 0), deleted + (if op.OpDelete? then 1 else 0))
  {
    RowsSnoc(f.lines, j, f.oldPosition, f.newPosition);
    CountsSnoc(f.lines, j, OpAdd);
    CountsSnoc(f.lines, j, OpDelete);
  }

  /** The inner loop: one fragment's rows, and what it adds to the file's counts. */
  method BuildHunk(fragment: Fragment) returns (hunk: Hunk, added: nat, deleted: nat)
    ensures hunk == HunkOf(fragment)
    ensures added == LinesOf(fragment.lines, OpAdd) && deleted == LinesOf(fragment.lines, OpDelete)
  {
    added, deleted := 0, 0;
    var lines := fragment.lines;
    var oldLine, newLine, rows := fragment.oldPosition, fragment.newPosition, [];
    for j := 0 to |lines|
      invariant Rendered(fragment, j, rows, oldLine, newLine, added, deleted)
    {
      var line := lines[j];
      LineRendered(fragment, j, rows, oldLine, newLine, added, deleted);
      var row := Row(OpContext, 0, 0, TrimNewline(line.text));
      match line.op {
        case OpAdd =>
          row := row.(kind := OpAdd, newLine := newLine);
          newLine := newLine + 1;
          added := added + 1;
        case OpDelete =>
          row := row.(kind := OpDelete, oldLine := oldLine);
          oldLine := oldLine + 1;
          deleted := deleted + 1;
        case OpContext =>
          row := row.(oldLine := oldLine, newLine := newLine);
          oldLine := oldLine + 1;
          newLine := newLine + 1;
      }
      rows := rows + [row];
    }
    assert lines[..|lines|] == lines;
    hunk := Hunk(fragment.header, rows);
  }

  /** A nil fragment would stop the program here. */
  method BuildDiffFileView(f: File) returns (view: FileView)
    requires NoNil(f.fragments)
    ensures view == ViewOf(f)
  {
    var added, deleted, hunks := 0, 0, [];
    for i := 0 to |f.fragments|
      invariant added == TotalOf(f.fragments[..i], OpAdd) && deleted == TotalOf(f.fragments[..i], OpDelete)
      invariant hunks == HunksOf(f.fragments[..i])
    {
      var hunk, more, fewer := BuildHunk(f.fragments[i].value);
      FragmentsSnoc(f.fragments, i);
      added, deleted, hunks := added + more, deleted + fewer, hunks + [hunk];
    }
    assert f.fragments[..|f.fragments|] == f.fragments;
    view := FileView(DiffPath(f), f.isBinary, f.isNew, f.isDelete, added, deleted, hunks);
  }

  // ---------- numbering ----------

  function Erase(rows: seq<Row>, kind: LineOp): seq<Row> {
    if rows == [] then []
    else
      var n := |rows| - 1;
      Erase(rows[..n], kind) + if rows[n].kind == kind then [] else [rows[n]]
  }

  function RowsOfKind(rows: seq<Row>, kind: LineOp): nat {
    if rows == [] then 0
    else RowsOfKind(rows[..|rows| - 1], kind) + if rows[|rows| - 1].kind == kind then 1 else 0
  }

  /**
   In every hunk, the rows other than additions count up from the old position, the rows other than deletions from
   the new position, and a row has no number on the side it is missing from.
   */
  lemma {:induction false} HunkNumbering(lines: seq<Line>, oldPosition: int, newPosition: int)
    ensures var rows := RowsOf(lines, oldPosition, newPosition);
            var olds, news := Erase(rows, OpAdd), Erase(rows, OpDelete);
            && |olds| == LinesWithout(lines, OpAdd) && |news| == LinesWithout(lines, OpDelete)
            && (forall i | 0 <= i < |olds| :: olds[i].oldLine == oldPosition + i)
            && (forall i | 0 <= i < |news| :: news[i].newLine == newPosition + i)
  {
    if lines != [] {
      var n := |lines| - 1;
      HunkNumbering(lines[..n], oldPosition, newPosition);
      var rows := RowsOf(lines, oldPosition, newPosition);
      assert rows[..n] == RowsOf(lines[..n], oldPosition, newPosition);
    }
  }

  lemma {:induction false} RowsMirrorLines(lines: seq<Line>, oldPosition: int, newPosition: int, i: nat)
    requires i < |lines|
    ensures var row := RowsOf(lines, oldPosition, newPosition)[i];
            && row.kind == lines[i].op && row.content == TrimNewline(lines[i].text)
            && (row.kind.OpAdd? ==> row.oldLine == 0) && (row.kind.OpDelete? ==> row.newLine == 0)
  {
    var n := |lines| - 1;
    if i < n {
      RowsMirrorLines(lines[..n], oldPosition, newPosition, i);
    }
  }

  lemma {:induction false} KindsAreCounted(lines: seq<Line>, oldPosition: int, newPosition: int, kind: LineOp)
    ensures RowsOfKind(RowsOf(lines, oldPosition, newPosition), kind) == LinesOf(lines, kind)
  {
    if lines != [] {
      var n := |lines| - 1;
      KindsAreCounted(lines[..n], oldPosition, newPosition, kind);
      assert RowsOf(lines, oldPosition, newPosition)[..n] == RowsOf(lines[..n], oldPosition, newPosition);
    }
  }

  function RowsInHunks(hunks: seq<Hunk>, kind: LineOp): nat {
    if hunks == [] then 0
    else RowsInHunks(hunks[..|hunks| - 1], kind) + RowsOfKind(hunks[|hunks| - 1].rows, kind)
  }

  /** A file's counts are the numbers of its added and deleted rows. */
  lemma FileCountsAreRowCounts(f: File)
    requires NoNil(f.fragments)
    ensures ViewOf(f).added == RowsInHunks(ViewOf(f).hunks, OpAdd)
    ensures ViewOf(f).deleted == RowsInHunks(ViewOf(f).hunks, OpDelete)
  {
    HunkRowsAddUp(f.fragments, OpAdd);
    HunkRowsAddUp(f.fragments, OpDelete);
  }

  lemma {:induction false} HunkRowsAddUp(fragments: seq<Option<Fragment>>, kind: LineOp)
    requires NoNil(fragments)
    ensures RowsInHunks(HunksOf(fragments), kind) == TotalOf(fragments, kind)
  {
    if fragments != [] {
      var n := |fragments| - 1;
      HunkRowsAddUp(fragments[..n], kind);
      assert HunksOf(fragments)[..n] == HunksOf(fragments[..n]);
      var f := fragments[n].value;
      KindsAreCounted(f.lines, f.oldPosition, f.newPosition, kind);
    }
  }

  /** A view has its file's new path, or the old one of a file without, its flags, and a hunk for each fragment. */
  lemma ViewDescribesTheFile(f: File, i: nat)
    requires NoNil(f.fragments) && i < |f.fragments|
    ensures var view := ViewOf(f);
            && (f.newName != "" ==> view.path == f.newName) && (f.newName == "" ==> view.path == f.oldName)
            && view.isBinary == f.isBinary && view.isNew == f.isNew && view.isDeleted == f.isDelete
            && |view.hunks| == |f.fragments| && view.hunks[i].header == f.fragments[i].value.header
            && |view.hunks[i].rows| == |f.fragments[i].value.lines|
  {
  }

  /** A row's text is its line without the one newline at its end, if it has one. */
  lemma TrimNewlineCuts(s: string)
    ensures s == TrimNewline(s) + "\n" || s == TrimNewline(s)
    ensures s == TrimNewline(s) <==> s == "" || s[|s| - 1] != '\n'
  {
  }

  // ---------- decimal ----------

  function Pow10(n: nat): nat {
    if n == 0 then 1 else 10 * Pow10(n - 1)
  }

  function Digit(d: int): char
    requires 0 <= d < 10
  {
    ('0' as int + d) as char
  }

  predicate IsDigit(c: char) {
    '0' <= c <= '9'
  }

  /** Reads a string of digits, most significant first. */
  function ReadDecimal(s: string): nat
    requires forall c | c in s :: IsDigit(c)
  {
    if s == "" then 0
    else
      assert s[0] in s && IsDigit(s[0]);
      var d: nat := s[0] as int - '0' as int;
      d * Pow10(|s| - 1) + ReadDecimal(s[1..])
  }

  const BUFFER := 20

  /** Every non-negative int64 is written in decimal without leading zeros; a negative one as nothing. */
  method Decimal(n: int) returns (s: string)
    requires -0x8000_0000_0000_0000 <= n < 0x8000_0000_0000_0000
    ensures forall c | c in s :: IsDigit(c)
    ensures n >= 0 ==> s != "" && ReadDecimal(s) == n && (s[0] == '0' ==> s == "0")
    ensures n < 0 ==> s == ""
  {
    if n == 0 { return "0"; }
    var buf := new char[BUFFER](_ => '0');
    var pos, rest := BUFFER, n;
    Pow10Twenty();
    assert buf[pos..] == "";
    while rest > 0
      invariant 0 <= pos <= BUFFER && (n > 0 ==> 0 <= rest < Pow10(pos)) && (n <= 0 ==> rest == n && pos == BUFFER)
      invariant forall c | c in buf[pos..] :: IsDigit(c)
      invariant n > 0 ==> rest * Pow10(BUFFER - pos) + ReadDecimal(buf[pos..]) == n
      invariant pos < BUFFER && rest == 0 ==> buf[pos] != '0'
      invariant rest == 0 ==> pos < BUFFER
      decreases rest
    {
      pos := pos - 1;
      ghost var written := buf[pos + 1..];
      buf[pos] := Digit(rest % 10);
      assert buf[pos + 1..] == written;
      assert buf[pos..] == [buf[pos]] + buf[pos + 1..];
      DigitWritten(rest, written);
      rest := rest / 10;
    }
    s := buf[pos..];
  }

  /** Writing the last digit of `rest` in front moves it from the number still to write to the text. */
  lemma DigitWritten(rest: nat, written: string)
    requires forall c | c in written :: IsDigit(c)
    ensures var text := [Digit(rest % 10)] + written;
            && (forall c | c in text :: IsDigit(c))
            && rest * Pow10(|written|) + ReadDecimal(written) == (rest / 10) * Pow10(|text|) + ReadDecimal(text)
  {
    var text := [Digit(rest % 10)] + written;
    assert text[1..] == written;
    DigitShifts(rest, |written|);
  }

  lemma DigitShifts(rest: nat, k: nat)
    ensures rest * Pow10(k) == (rest / 10) * Pow10(k + 1) + (rest % 10) * Pow10(k)
  {
    assert rest == 10 * (rest / 10) + rest % 10;
    assert Pow10(k + 1) == 10 * Pow10(k);
    calc {
      rest * Pow10(k);
      (10 * (rest / 10) + rest % 10) * Pow10(k);
      (rest / 10) * (10 * Pow10(k)) + (rest % 10) * Pow10(k);
    }
  }

  lemma Pow10Twenty()
    ensures Pow10(20) == 100_000_000_000_000_000_000
  {
    assert Pow10(5) == 100_000;
    assert Pow10(10) == 10_000_000_000;
    assert Pow10(15) == 1_000_000_000_000_000;
  }
}

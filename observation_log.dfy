/** An observation log (`<project>.observations.md`): the recognisers that
    stand for the test module's regular expressions, the typed rows and
    details blocks they yield, and the per-log checks of
    `TestObservationsFormat`. */
module ObservationLog {
  import opened Text

  /** The lines `^` can start under `re.MULTILINE`: the text split at '\n'. */
  function Lines(content: string): seq<string> {
    Split(content, '\n')
  }

  // ---------------------------------------------------------------------------
  // Index rows

  /** The date and type cells of a row that matches the longer pattern. */
  datatype Cells = Cells(date: string, kind: string)

  /** A row of the Index table: its number cell as written and, when the row
      also matches the type pattern, its date and type cells. */
  datatype IndexRow = IndexRow(num: string, cells: Option<Cells>)

  predicate ValidRow(r: IndexRow) {
    |r.num| > 0 && AllDigits(r.num)
  }

  /** One table cell as the patterns read it: a greedy run of class `k`, at
      least one character long, that `sep` follows. Gives the run and the text
      after `sep`. Each `sep` the patterns use starts with a space, outside the
      run's class, so the greedy run never has to give characters back. */
  function Cell(s: string, k: CharClass, sep: string): Option<(string, string)> {
    var n := Span(s, k);
    if n > 0 && StartsWith(s[n..], sep) then Some((s[..n], s[n + |sep|..])) else None
  }

  lemma CellSound(s: string, k: CharClass, sep: string)
    ensures Cell(s, k, sep).Some? ==>
      var (c, rest) := Cell(s, k, sep).value;
      |c| > 0 && AllIn(c, k) && s == c + sep + rest
  {
    var n := Span(s, k);
    if n > 0 && StartsWith(s[n..], sep) {
      assert s == s[..n] + s[n..][..|sep|] + s[n + |sep|..];
    }
  }

  lemma CellComplete(c: string, sep: string, rest: string, k: CharClass)
    requires |c| > 0 && AllIn(c, k) && |sep| > 0 && !InClass(sep[0], k)
    ensures Cell(c + sep + rest, k, sep) == Some((c, rest))
  {
    var s := c + sep + rest;
    assert s[..|c|] == c;
    SpanExact(s, k, |c|);
    assert s[|c|..] == sep + rest;
    assert s[|c| + |sep|..] == rest;
  }

  /** `^\| (\d+) \|` on one line. */
  function RowNumber(line: string): Option<string> {
    if !StartsWith(line, "| ") then None
    else
      match Cell(line[2..], Digit, " |")
      case None => None
      case Some((d, _)) => Some(d)
  }

  /** What the number recogniser accepts matches the pattern. */
  lemma RowNumberSound(line: string)
    ensures RowNumber(line).Some? ==>
      var d := RowNumber(line).value;
      |d| > 0 && AllDigits(d) && StartsWith(line, "| " + d + " |")
  {
    if RowNumber(line).Some? {
      CellSound(line[2..], Digit, " |");
      var (d, rest) := Cell(line[2..], Digit, " |").value;
      assert line == "| " + d + " |" + rest by {
        assert line == line[..2] + line[2..];
      }
    }
  }

  /** Every line the pattern matches is recognised, with the same capture. */
  lemma RowNumberComplete(line: string, d: string)
    requires |d| > 0 && AllDigits(d) && StartsWith(line, "| " + d + " |")
    ensures RowNumber(line) == Some(d)
  {
    var p := "| " + d + " |";
    var rest := line[|p|..];
    assert line == p + rest;
    assert line[2..] == d + " |" + rest;
    CellComplete(d, " |", rest, Digit);
  }

  /** `^\| \d+ \| [\d-]+ \| (\w+) \|` on one line. */
  function RowCells(line: string): Option<Cells> {
    if !StartsWith(line, "| ") then None
    else
      match Cell(line[2..], Digit, " | ")
      case None => None
      case Some((_, afterNum)) =>
        match Cell(afterNum, DateChar, " | ")
        case None => None
        case Some((date, afterDate)) =>
          match Cell(afterDate, Word, " |")
          case None => None
          case Some((kind, _)) => Some(Cells(date, kind))
  }

  /** The type pattern's prefix, written out. */
  function TypedRowPrefix(d: string, date: string, kind: string): string {
    "| " + d + " | " + date + " | " + kind + " |"
  }

  /** Regrouping the type pattern's prefix cell by cell. */
  lemma TypedRowRegroup(d: string, date: string, kind: string, rest: string)
    ensures TypedRowPrefix(d, date, kind) + rest == "| " + (d + " | " + (date + " | " + (kind + " |" + rest)))
  {
    var e := "| " + d;
    var c := e + " | " + date;
    var a := c + " | " + kind;
    Assoc(a, " |", rest);
    Assoc(c + " | ", kind, " |" + rest);
    Assoc(c, " | ", kind + " |" + rest);
    Assoc(e + " | ", date, " | " + (kind + " |" + rest));
    Assoc(e, " | ", date + " | " + (kind + " |" + rest));
    Assoc("| ", d, " | " + (date + " | " + (kind + " |" + rest)));
  }

  /** A line that starts with a number cell is a numbered row. */
  lemma NumberCellIsRowNumber(line: string, d: string, r1: string)
    requires |d| > 0 && AllDigits(d) && line == "| " + (d + " | " + r1)
    ensures RowNumber(line) == Some(d)
  {
    assert line[2..] == d + (" | " + r1);
    assert " | " + r1 == " |" + (" " + r1);
    Assoc(d, " |", " " + r1);
    assert line[2..] == d + " |" + (" " + r1);
    CellComplete(d, " |", " " + r1, Digit);
  }

  /** What the type recogniser accepts matches the pattern, and such a line is
      also a numbered row. */
  lemma RowCellsSound(line: string)
    ensures RowCells(line).Some? ==> RowNumber(line).Some?
    ensures RowCells(line).Some? ==>
      var d := RowNumber(line).value;
      var cells := RowCells(line).value;
      && |cells.date| > 0 && AllIn(cells.date, DateChar)
      && |cells.kind| > 0 && AllIn(cells.kind, Word)
      && StartsWith(line, TypedRowPrefix(d, cells.date, cells.kind))
  {
    if RowCells(line).Some? {
      CellSound(line[2..], Digit, " | ");
      var (d, r1) := Cell(line[2..], Digit, " | ").value;
      CellSound(r1, DateChar, " | ");
      var (date, r2) := Cell(r1, DateChar, " | ").value;
      CellSound(r2, Word, " |");
      var (kind, r3) := Cell(r2, Word, " |").value;
      assert RowCells(line).value == Cells(date, kind);
      assert line == "| " + line[2..];
      assert line == "| " + (d + " | " + (date + " | " + (kind + " |" + r3)));
      NumberCellIsRowNumber(line, d, r1);
      TypedRowRegroup(d, date, kind, r3);
      var p := TypedRowPrefix(d, date, kind);
      assert line[..|p|] == p;
    }
  }

  /** Every line the type pattern matches is recognised, with the same
      captures. */
  lemma RowCellsComplete(line: string, d: string, date: string, kind: string)
    requires |d| > 0 && AllDigits(d)
    requires |date| > 0 && AllIn(date, DateChar)
    requires |kind| > 0 && AllIn(kind, Word)
    requires StartsWith(line, TypedRowPrefix(d, date, kind))
    ensures RowCells(line) == Some(Cells(date, kind))
  {
    var p := TypedRowPrefix(d, date, kind);
    var r3 := line[|p|..];
    assert line == p + r3;
    TypedRowRegroup(d, date, kind, r3);
    var r2 := kind + " |" + r3;
    var r1 := date + " | " + r2;
    assert line[2..] == d + " | " + r1;
    CellComplete(d, " | ", r1, Digit);
    CellComplete(date, " | ", r2, DateChar);
    CellComplete(kind, " |", r3, Word);
  }

  /** One line as the Index recognisers see it. */
  function ParseRow(line: string): (r: Option<IndexRow>)
    ensures r.Some? ==> ValidRow(r.value)
  {
    RowNumberSound(line);
    match RowNumber(line)
    case None => None
    case Some(d) => Some(IndexRow(d, RowCells(line)))
  }

  /** The rows of a sequence of lines, in line order. */
  function RowsOf(lines: seq<string>): (rows: seq<IndexRow>)
    ensures forall k | 0 <= k < |rows| :: ValidRow(rows[k])
    ensures |rows| <= |lines|
  {
    if |lines| == 0 then []
    else
      var rest := RowsOf(lines[1..]);
      match ParseRow(lines[0])
      case None => rest
      case Some(r) => [r] + rest
  }

  /** The recogniser works line by line: the rows of two consecutive stretches
      of lines are the rows of the first followed by the rows of the second. */
  lemma {:induction false} RowsOfAppend(a: seq<string>, b: seq<string>)
    ensures RowsOf(a + b) == RowsOf(a) + RowsOf(b)
    decreases |a|
  {
    if |a| > 0 {
      assert (a + b)[0] == a[0] && (a + b)[1..] == a[1..] + b;
      RowsOfAppend(a[1..], b);
    } else {
      assert a + b == b;
    }
  }

  /** The Index rows of a log, in document order. */
  function Rows(content: string): seq<IndexRow> {
    RowsOf(Lines(content))
  }

  /** `re.findall(r"^\| (\d+) \|", content, re.MULTILINE)`: the number cells as
      written. */
  function IndexNums(content: string): (nums: seq<string>)
    ensures forall k | 0 <= k < |nums| :: |nums[k]| > 0 && AllDigits(nums[k])
  {
    var rows := Rows(content);
    seq(|rows|, k requires 0 <= k < |rows| => rows[k].num)
  }

  /** The same list read by `int`. */
  function Numbers(content: string): seq<int> {
    var nums := IndexNums(content);
    seq(|nums|, k requires 0 <= k < |nums| => DigitsValue(nums[k]))
  }

  /** The type cells of the rows that have one, in order. */
  function KindsOf(rows: seq<IndexRow>): seq<string> {
    if |rows| == 0 then []
    else if rows[0].cells.Some? then [rows[0].cells.value.kind] + KindsOf(rows[1..])
    else KindsOf(rows[1..])
  }

  /** `re.findall(r"^\| \d+ \| [\d-]+ \| (\w+) \|", content, re.MULTILINE)` */
  function Types(content: string): seq<string> {
    KindsOf(Rows(content))
  }

  /** `^\| \d+` on one line: the looser pattern of the count check. */
  predicate CountsAsRow(line: string) {
    StartsWith(line, "| ") && |line| > 2 && IsDigit(line[2])
  }

  function CountRows(lines: seq<string>): nat {
    if |lines| == 0 then 0
    else (if CountsAsRow(lines[0]) then 1 else 0) + CountRows(lines[1..])
  }

  /** `len(re.findall(r"^\| \d+", content, re.MULTILINE))` */
  function RowCount(content: string): nat {
    CountRows(Lines(content))
  }

  /** The looser count pattern accepts every row the numbering pattern accepts,
      so the count is never below the number of rows. */
  lemma {:induction false} RowsWithinCount(lines: seq<string>)
    ensures |RowsOf(lines)| <= CountRows(lines)
  {
    if |lines| > 0 {
      RowsWithinCount(lines[1..]);
      var line := lines[0];
      if RowNumber(line).Some? {
        RowNumberSound(line);
        var d := RowNumber(line).value;
        var p := "| " + d + " |";
        assert line[..|p|] == p;
        assert line[2] == p[2] == d[0];
        assert InClass(d[0], Digit);
      }
    }
  }

  /** It can count more: a line such as `| 7a` is counted but is no row. */
  lemma CountExceedsRowsExample()
    ensures CountsAsRow("| 7a") && RowNumber("| 7a").None?
  {
    assert "| 7a"[2..] == "7a";
    SpanExact("7a", Digit, 1);
    assert "| 7a"[3..] == "a";
  }

  // ---------------------------------------------------------------------------
  // Numbering

  /** `list(range(1, n + 1))` */
  function Iota(n: nat): (r: seq<int>)
    ensures |r| == n
    ensures forall i | 0 <= i < n :: r[i] == i + 1
  {
    if n == 0 then [] else Iota(n - 1) + [n]
  }

  /** `test_sequential_numbers` on one log's numbers: none at all, or exactly
      the list 1, 2, ..., n. */
  predicate SequentialOk(nums: seq<int>) {
    |nums| == 0 || nums == Iota(|nums|)
  }

  /** The numbering check passes exactly when the k-th number is k + 1. */
  lemma SequentialOkIff(nums: seq<int>)
    ensures SequentialOk(nums) <==> forall i | 0 <= i < |nums| :: nums[i] == i + 1
  {
    if forall i | 0 <= i < |nums| :: nums[i] == i + 1 {
      assert nums == Iota(|nums|);
    }
  }

  /** A gap or a swap fails; an empty log passes. */
  lemma SequentialOkExamples()
    ensures !SequentialOk([1, 2, 4]) && !SequentialOk([2, 1])
    ensures SequentialOk([]) && SequentialOk([1, 2, 3])
  {
    assert Iota(3)[2] == 3;
    assert Iota(2)[0] == 1;
    SequentialOkIff([1, 2, 3]);
  }

  // ---------------------------------------------------------------------------
  // Details headings and blocks

  /** The heading a details block starts with. */
  function HeadingText(num: string): string {
    "### [" + num + "]"
  }

  /** One match of `### \[(\d+)\][^\n]+` at index `i`: the digits and the end
      of the match, the end of the line. The digit run must be followed by
      ']' and the heading line must go on after it. */
  function HeadingAt(t: string, i: nat): (r: Option<(string, nat)>)
    requires i <= |t|
    ensures r.Some? ==> i < r.value.1 <= |t|
    ensures r.Some? ==> |r.value.0| > 0 && AllDigits(r.value.0) && OccursAt(t, HeadingText(r.value.0), i)
    ensures r.Some? ==>
      && i + |HeadingText(r.value.0)| < r.value.1
      && (r.value.1 == |t| || t[r.value.1] == '\n')
      && forall p | i + |HeadingText(r.value.0)| <= p < r.value.1 :: t[p] != '\n'
  {
    if !StartsWith(t[i..], "### [") then None
    else
      var j := i + 5;
      var n := Span(t[j..], Digit);
      if n == 0 || j + n >= |t| || t[j + n] != ']' then None
      else
        var k := j + n + 1;
        if k >= |t| || t[k] == '\n' then None
        else
          HeadingPieces(t, i, n);
          SpanInText(t, k, NotNewline);
          Some((t[j..j + n], k + Span(t[k..], NotNewline)))
  }

  /** The text at `i` reads `### [`, the run of digits after it, and `]`. */
  lemma HeadingPieces(t: string, i: nat, n: nat)
    requires i + 5 + n < |t| && StartsWith(t[i..], "### [")
    requires n == Span(t[i + 5..], Digit) && t[i + 5 + n] == ']'
    ensures AllDigits(t[i + 5..i + 5 + n]) && OccursAt(t, HeadingText(t[i + 5..i + 5 + n]), i)
  {
    var j := i + 5;
    var d := t[j..j + n];
    assert t[j..][..n] == d && t[j + n..][..1] == "]";
    StartsWithConcat(t[i..], "### [", d);
    assert t[i..][|"### [" + d|..] == t[j + n..];
    StartsWithConcat(t[i..], "### [" + d, "]");
    OccursAtStartsWith(t, HeadingText(d), i);
  }

  /** Every heading line the pattern matches is recognised: `### [d]` with a
      digit run `d`, followed by anything but a line break. */
  lemma HeadingAtComplete(t: string, i: nat, d: string)
    requires |d| > 0 && AllDigits(d) && OccursAt(t, HeadingText(d), i)
    requires i + |HeadingText(d)| < |t| && t[i + |HeadingText(d)|] != '\n'
    ensures HeadingAt(t, i).Some? && HeadingAt(t, i).value.0 == d
  {
    var h := HeadingText(d);
    OccurrenceSlice(t, h, i, 0, 5);
    assert h[0..5] == "### [";
    assert t[i..][..5] == t[i..i + 5];
    OccurrenceSlice(t, h, i, 5, 5 + |d|);
    assert h[5..5 + |d|] == d;
    var j := i + 5;
    assert t[j + |d|] == h[5 + |d|] == ']';
    assert t[j..][..|d|] == t[j..j + |d|];
    SpanExact(t[j..], Digit, |d|);
  }

  /** A heading with nothing after `]` on its line is not matched: `[^\n]+`
      needs at least one character. */
  lemma HeadingAtBare(t: string, i: nat, d: string)
    requires AllDigits(d) && OccursAt(t, HeadingText(d), i)
    requires i + |HeadingText(d)| == |t| || t[i + |HeadingText(d)|] == '\n'
    ensures HeadingAt(t, i).None?
  {
    var h := HeadingText(d);
    var j := i + 5;
    if |d| > 0 {
      OccurrenceSlice(t, h, i, 5, 5 + |d|);
      assert h[5..5 + |d|] == d;
      assert t[j + |d|] == h[5 + |d|] == ']';
      assert t[j..][..|d|] == t[j..j + |d|];
      SpanExact(t[j..], Digit, |d|);
    } else {
      assert t[j] == h[5] == ']';
      SpanExact(t[j..], Digit, 0);
    }
  }

  /** `re.findall(r"### \[(\d+)\][^\n]+", t)` from index `i`: the search
      resumes where the previous match ended. */
  function HeadingsFrom(t: string, i: nat): (r: seq<string>)
    requires i <= |t|
    ensures forall k | 0 <= k < |r| :: |r[k]| > 0 && AllDigits(r[k]) && Contains(t, HeadingText(r[k]))
    decreases |t| - i
  {
    if i == |t| then []
    else
      match HeadingAt(t, i)
      case Some((d, e)) =>
        assert OccursAt(t, HeadingText(d), i);
        [d] + HeadingsFrom(t, e)
      case None => HeadingsFrom(t, i + 1)
  }

  function Headings(t: string): seq<string> {
    HeadingsFrom(t, 0)
  }

  /** The first index at or after `i` where `pat` occurs. */
  function FirstOccurrence(t: string, pat: string, i: nat): (r: Option<nat>)
    requires i <= |t|
    ensures r.Some? ==> i <= r.value && OccursAt(t, pat, r.value)
    ensures r.Some? ==> forall p | i <= p < r.value :: !OccursAt(t, pat, p)
    ensures r.None? ==> forall p | i <= p <= |t| :: !OccursAt(t, pat, p)
    decreases |t| - i
  {
    if OccursAt(t, pat, i) then Some(i)
    else if i == |t| then None
    else FirstOccurrence(t, pat, i + 1)
  }

  /** Where the lookahead `(?=### \[|$)` holds: before a `### [`, at the end of
      the text, or before a final newline (`$` without `re.MULTILINE`). */
  predicate BlockStop(t: string, j: nat)
    requires j <= |t|
  {
    StartsWith(t[j..], "### [") || j == |t| || (j == |t| - 1 && t[j] == '\n')
  }

  /** Where the lazy `.*?` stops: the first index from `j` on at which the
      lookahead holds. */
  function BlockEnd(t: string, j: nat): (e: nat)
    requires j <= |t|
    ensures j <= e <= |t| && BlockStop(t, e)
    ensures forall p | j <= p < e :: !BlockStop(t, p)
    decreases |t| - j
  {
    if BlockStop(t, j) then j else BlockEnd(t, j + 1)
  }

  /** No `### [` starts in a stretch where the lookahead never held. */
  lemma NoHeadingBeforeStop(t: string, s: nat, h: nat, e: nat)
    requires s + h <= e <= |t|
    requires forall p | s + h <= p < e :: !BlockStop(t, p)
    ensures forall p | h <= p <= e - s - 5 :: !OccursAt(t[s..e], "### [", p)
  {
    var b := t[s..e];
    forall p | h <= p <= |b| - 5 ensures !OccursAt(b, "### [", p) {
      assert !BlockStop(t, s + p);
      SliceOfSlice(t, s, e, p, p + 5);
      OccursAtStartsWith(t, "### [", s + p);
    }
  }

  /** `t[s..e]` is the block of `heading`: `s` is the first occurrence of the
      heading and `e` the first index after it at which the lookahead holds. */
  predicate BlockAt(t: string, heading: string, s: nat, e: nat) {
    && OccursAt(t, heading, s)
    && (forall p | 0 <= p < s :: !OccursAt(t, heading, p))
    && s + |heading| <= e <= |t| && BlockStop(t, e)
    && (forall p | s + |heading| <= p < e :: !BlockStop(t, p))
  }

  /** `re.search(heading + r".*?(?=### \[|$)", t, re.DOTALL)`: from the first
      occurrence of the heading up to the next `### [` or the end. */
  function Block(t: string, heading: string): (r: Option<string>)
    ensures r.Some? ==> exists s: nat, e: nat :: BlockAt(t, heading, s, e) && r.value == t[s..e]
    ensures r.Some? ==> StartsWith(r.value, heading)
    ensures r.Some? ==> forall p | |heading| <= p <= |r.value| - 5 :: !OccursAt(r.value, "### [", p)
    ensures r.None? <==> !Contains(t, heading)
  {
    match FirstOccurrence(t, heading, 0)
    case None => None
    case Some(s) =>
      var e := BlockEnd(t, s + |heading|);
      SlicePrefix(t, s, s + |heading|, e);
      NoHeadingBeforeStop(t, s, |heading|, e);
      assert BlockAt(t, heading, s, e);
      Some(t[s..e])
  }

  const Markers: seq<string> := ["**Before:**", "**After:**", "**Context:**", "**Symptoms:**", "**What:**", "**Signal:**"]

  predicate HasMarker(block: string) {
    exists m | m in Markers :: Contains(block, m)
  }

  // ---------------------------------------------------------------------------
  // The per-log checks

  /** `test_has_index_table` on one log. */
  predicate HasIndexTable(content: string) {
    Contains(content, "## Index") && Contains(content, "| # | Date | Type | Summary | Files |")
  }

  /** `test_has_details_section` on one log. */
  predicate HasDetailsSection(content: string) {
    Contains(content, "## Details")
  }

  /** `test_valid_types` on one log. */
  predicate TypesValid(content: string, valid: set<string>) {
    forall t | t in Types(content) :: t in valid
  }

  /** `test_sequential_numbers` on one log. */
  predicate NumberingOk(content: string) {
    SequentialOk(Numbers(content))
  }

  /** `test_index_details_match` on one log: the heading text of every number
      cell, as written, occurs somewhere. */
  predicate DetailsForEveryRow(content: string) {
    forall d | d in IndexNums(content) :: Contains(content, HeadingText(d))
  }

  /** `test_details_have_context` on one log; a heading whose block is not
      found would be passed over. */
  predicate DetailsHaveContext(content: string) {
    forall d | d in Headings(content) ::
      match Block(content, HeadingText(d))
      case None => true
      case Some(b) => HasMarker(b)
  }

  /** The block of every heading the search finds exists, so the context check
      passes exactly when every such block holds a marker. */
  lemma DetailsHaveContextIff(content: string)
    ensures DetailsHaveContext(content) <==>
      forall d | d in Headings(content) ::
        Block(content, HeadingText(d)).Some? && HasMarker(Block(content, HeadingText(d)).value)
  {
  }

  // ---------------------------------------------------------------------------
  // A log with a single details entry

  /** The heading scan passes over a stretch in which no `### [` starts. */
  lemma {:induction false} HeadingsFromSkips(t: string, i: nat, m: nat)
    requires i <= m <= |t|
    requires forall x | i <= x < m :: !OccursAt(t, "### [", x)
    ensures HeadingsFrom(t, i) == HeadingsFrom(t, m)
    decreases m - i
  {
    if i < m {
      OccursAtStartsWith(t, "### [", i);
      HeadingsFromSkips(t, i + 1, m);
    }
  }

  /** No `### [` starts inside the text before a heading that holds none
      itself: one that began there and ran into the heading would need a ' '
      or '[' where the heading has '#'. */
  lemma NoHeadStartBefore(pre: string, d: string, body: string, x: nat)
    requires !Contains(pre, "### [") && x < |pre|
    ensures !OccursAt(pre + HeadingText(d) + body, "### [", x)
  {
    var t := pre + HeadingText(d) + body;
    var n := |pre|;
    if x + 5 <= n {
      assert t[x..x + 5] == pre[x..x + 5];
      assert !OccursAt(pre, "### [", x);
    } else if x + 5 <= |t| {
      var w := t[x..x + 5];
      assert t[n] == '#' && t[n + 1] == '#' && t[n + 2] == '#';
      if x + 4 == n {
        assert w[4] == t[n];
      } else {
        assert w[3] == t[x + 3];
      }
    }
  }

  /** No `### [` starts inside the text after a heading that holds none
      itself. */
  lemma NoHeadStartAfter(pre: string, d: string, body: string, x: nat)
    requires !Contains(body, "### [") && |pre| + |HeadingText(d)| <= x
    ensures !OccursAt(pre + HeadingText(d) + body, "### [", x)
  {
    var t := pre + HeadingText(d) + body;
    var n := |pre| + |HeadingText(d)|;
    if x + 5 <= |t| {
      assert t[x..x + 5] == body[x - n..x - n + 5];
      assert !OccursAt(body, "### [", x - n);
    }
  }

  /** In a log in which `### [` starts only at one heading line, the scan
      finds that heading and nothing else. */
  lemma OneEntryHeadings(pre: string, d: string, body: string)
    requires !Contains(pre, "### [") && !Contains(body, "### [")
    requires |d| > 0 && AllDigits(d) && |body| > 0 && body[0] != '\n'
    ensures Headings(pre + HeadingText(d) + body) == [d]
  {
    var h := HeadingText(d);
    var t := pre + h + body;
    var n := |pre| + |h|;
    forall x | 0 <= x < |pre| ensures !OccursAt(t, "### [", x) {
      NoHeadStartBefore(pre, d, body, x);
    }
    HeadingsFromSkips(t, 0, |pre|);
    assert t[|pre|..n] == h;
    assert t[n] == body[0];
    HeadingAtComplete(t, |pre|, d);
    var e := HeadingAt(t, |pre|).value.1;
    assert e > n;
    forall x | e <= x < |t| ensures !OccursAt(t, "### [", x) {
      NoHeadStartAfter(pre, d, body, x);
    }
    HeadingsFromSkips(t, e, |t|);
  }

  /** In such a log the block of the heading is the heading and the rest of
      the text, less a final line break. */
  lemma OneEntryBlock(pre: string, d: string, body: string)
    requires !Contains(pre, "### [") && !Contains(body, "### [")
    ensures Block(pre + HeadingText(d) + body, HeadingText(d)).Some?
    ensures var b := Block(pre + HeadingText(d) + body, HeadingText(d)).value;
      || b == HeadingText(d) + body
      || (|body| > 0 && body[|body| - 1] == '\n' && b == HeadingText(d) + body[..|body| - 1])
  {
    var h := HeadingText(d);
    var t := pre + h + body;
    assert OccursAt(t, h, |pre|);
    assert Contains(t, h);
    assert Block(t, h).Some?;
    var s: nat, e: nat :| BlockAt(t, h, s, e) && Block(t, h).value == t[s..e];
    OneEntryBlockBounds(pre, d, body, s, e);
    TextAfterPreamble(pre, h, body, e);
  }

  /** The text from the end of `pre` to the end, or to a final line break. */
  lemma TextAfterPreamble(pre: string, h: string, body: string, e: nat)
    requires |pre| + |h| <= e
    requires var t := pre + h + body; e == |t| || (e == |t| - 1 && t[e] == '\n')
    ensures var t := pre + h + body;
      || t[|pre|..e] == h + body
      || (|body| > 0 && body[|body| - 1] == '\n' && t[|pre|..e] == h + body[..|body| - 1])
  {
    var t := pre + h + body;
    var w := h + body;
    Assoc(pre, h, body);
    SuffixOfConcat(pre, w, 0);
    if e < |t| {
      assert body[|body| - 1] == t[e];
      assert t[|pre|..e] == w[..|w| - 1];
      assert w[..|w| - 1] == h + body[..|body| - 1];
    }
  }

  /** Where that block starts and ends. */
  lemma OneEntryBlockBounds(pre: string, d: string, body: string, s: nat, e: nat)
    requires !Contains(pre, "### [") && !Contains(body, "### [")
    requires BlockAt(pre + HeadingText(d) + body, HeadingText(d), s, e)
    ensures s == |pre|
    ensures var t := pre + HeadingText(d) + body; e == |t| || (e == |t| - 1 && t[e] == '\n')
  {
    var h := HeadingText(d);
    var t := pre + h + body;
    assert OccursAt(t, h, |pre|);
    if s < |pre| {
      OccurrenceSlice(t, h, s, 0, 5);
      assert h[0..5] == "### [";
      NoHeadStartBefore(pre, d, body, s);
    }
    if e < |t| && !(e == |t| - 1 && t[e] == '\n') {
      OccursAtStartsWith(t, "### [", e);
      NoHeadStartAfter(pre, d, body, e);
    }
  }

  /** No heading holds a '*'. */
  lemma HeadingHasNoStar(d: string)
    requires AllDigits(d)
    ensures forall q | 0 <= q < |HeadingText(d)| :: HeadingText(d)[q] != '*'
  {
    var h := HeadingText(d);
    forall q | 0 <= q < |h| ensures h[q] != '*' {
      if 5 <= q < 5 + |d| {
        assert h[q] == d[q - 5];
      }
    }
  }

  /** Every marker starts and ends with '*'. */
  lemma MarkerShape(m: string)
    requires m in Markers
    ensures |m| > 0 && m[0] == '*' && m[|m| - 1] == '*'
  {
  }

  /** A marker starts with '*', which no heading holds, so a marker after a
      heading is a marker of the text after it. */
  lemma MarkerPastHeading(d: string, x: string, m: string)
    requires AllDigits(d) && m in Markers
    ensures Contains(HeadingText(d) + x, m) <==> Contains(x, m)
  {
    var h := HeadingText(d);
    HeadingHasNoStar(d);
    MarkerShape(m);
    if Contains(h + x, m) {
      var p :| 0 <= p <= |h + x| - |m| && OccursAt(h + x, m, p);
      assert (h + x)[p] == m[0];
      assert p >= |h|;
      SuffixOfConcat(h, x, p - |h|);
      assert x[p - |h|..][..|m|] == (h + x)[p..][..|m|];
      assert OccursAt(x, m, p - |h|);
    }
    if Contains(x, m) {
      ContainsExtended(x, m, h, "");
      assert h + x + "" == h + x;
    }
  }

  /** A marker ends with '*', so dropping a final line break keeps every
      marker. */
  lemma MarkerBeforeLineBreak(body: string, m: string)
    requires |body| > 0 && body[|body| - 1] == '\n' && m in Markers
    ensures Contains(body[..|body| - 1], m) <==> Contains(body, m)
  {
    var x := body[..|body| - 1];
    MarkerShape(m);
    if Contains(x, m) {
      ContainsInSlice(body, 0, |body| - 1, m);
    }
    if Contains(body, m) {
      var p :| 0 <= p <= |body| - |m| && OccursAt(body, m, p);
      assert body[p + |m| - 1] == m[|m| - 1];
      assert p + |m| < |body|;
      assert x[p..p + |m|] == body[p..p + |m|];
      assert OccursAt(x, m, p);
    }
  }

  /** Whether a log with one details entry passes the context check: exactly
      when the text after its heading holds a marker. A heading followed only
      by free text fails it. */
  lemma OneEntryContextIff(pre: string, d: string, body: string)
    requires !Contains(pre, "### [") && !Contains(body, "### [")
    requires |d| > 0 && AllDigits(d) && |body| > 0 && body[0] != '\n'
    ensures DetailsHaveContext(pre + HeadingText(d) + body) <==> HasMarker(body)
  {
    var h := HeadingText(d);
    var t := pre + h + body;
    OneEntryHeadings(pre, d, body);
    OneEntryBlock(pre, d, body);
    var b := Block(t, h).value;
    var x := if b == h + body then body else body[..|body| - 1];
    assert b == h + x;
    forall m | m in Markers ensures Contains(b, m) <==> Contains(body, m) {
      MarkerPastHeading(d, x, m);
      if x != body {
        MarkerBeforeLineBreak(body, m);
      }
    }
    assert d in Headings(t);
  }

  /** The numbering check passes exactly when the rows are numbered 1, 2, ...,
      n in document order. */
  lemma NumberingOkIff(content: string)
    ensures NumberingOk(content) <==>
      forall i | 0 <= i < |Numbers(content)| :: Numbers(content)[i] == i + 1
  {
    SequentialOkIff(Numbers(content));
  }

  /** In a log that passes both the numbering and the details check, the
      number cell of the j-th row reads j + 1 and its heading occurs. */
  lemma HeadingsForNumberedRows(content: string)
    requires NumberingOk(content) && DetailsForEveryRow(content)
    ensures forall j | 0 <= j < |IndexNums(content)| ::
      DigitsValue(IndexNums(content)[j]) == j + 1 && Contains(content, HeadingText(IndexNums(content)[j]))
  {
    var nums := IndexNums(content);
    NumberingOkIff(content);
    forall j | 0 <= j < |nums|
      ensures DigitsValue(nums[j]) == j + 1 && Contains(content, HeadingText(nums[j]))
    {
      assert Numbers(content)[j] == j + 1;
      assert nums[j] in nums;
    }
  }
}

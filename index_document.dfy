/** The index document (`MEMORY.md`): the recognisers for its project table
    and the checks that tie it to the dossiers and observation logs
    (`TestMemoryMdStructure`, `TestProjectTableConsistency`,
    `TestObservationCounts`). */
module IndexDocument {
  import opened Text
  import ObservationLog

  /** `test_has_project_table` */
  predicate HasProjectTable(content: string) {
    Contains(content, "| Project") || Contains(content, "|Project")
  }

  // ---------------------------------------------------------------------------
  // Dossier names

  /** `dossier.replace(".md", "")`: every occurrence is removed, not only the
      suffix. */
  function ProjectName(dossier: string): string {
    ReplaceAll(dossier, ".md", "")
  }

  /** For a name without dots, the project name is the name without `.md`. */
  lemma ProjectNameOfPlainName(p: string)
    requires '.' !in p
    ensures ProjectName(p + ".md") == p
  {
    ReplaceAllSkips(p, ".md", ".md", "");
    ReplaceAllHit("", ".md", "");
    assert ".md" + "" == ".md";
  }

  /** Every occurrence goes: `notes.md.md` names the project `notes`. */
  lemma ProjectNameRemovesEveryOccurrence()
    ensures ProjectName("notes.md.md") == "notes"
  {
    assert "notes.md.md" == "notes" + ".md.md";
    ReplaceAllSkips("notes", ".md.md", ".md", "");
    assert ".md.md" == ".md" + ".md";
    ReplaceAllHit(".md", ".md", "");
    assert ".md" == ".md" + "";
    ReplaceAllHit("", ".md", "");
  }

  // ---------------------------------------------------------------------------
  // References to dossiers: "`projects/([^`]+)\.md`"

  /** The text a reference to the dossier of project `p` is written as. */
  function QuotedPath(p: string): string {
    "`projects/" + p + ".md`"
  }

  /** One match at index `i`: the project and the end of the match. The group
      cannot hold a backtick, so the closing backtick is the first one after
      the opening `projects/`, and `.md` must stand just before it. */
  function RefAt(t: string, i: nat): (r: Option<(string, nat)>)
    requires i <= |t|
    ensures r.Some? ==> i < r.value.1 <= |t|
  {
    if !StartsWith(t[i..], "`projects/") then None
    else
      var j := i + 10;
      var k := j + Span(t[j..], NotBacktick);
      if k == |t| || k < j + 4 || t[k - 3..k] != ".md" then None
      else Some((t[j..k - 3], k + 1))
  }

  /** What the reference recogniser accepts is a quoted path at `i`. */
  lemma RefAtSound(t: string, i: nat)
    requires i <= |t|
    ensures RefAt(t, i).Some? ==>
      var (p, e) := RefAt(t, i).value;
      && |p| > 0 && AllIn(p, NotBacktick)
      && OccursAt(t, QuotedPath(p), i) && e == i + |QuotedPath(p)|
  {
    if RefAt(t, i).Some? {
      var (p, e) := RefAt(t, i).value;
      var j := i + 10;
      var s := t[j..];
      var n := Span(s, NotBacktick);
      var k := j + n;
      assert s[..n] == t[j..k];
      forall m | 0 <= m < |p| ensures InClass(p[m], NotBacktick) {
        assert p[m] == s[..n][m];
      }
      assert t[i..j] == "`projects/" by {
        assert t[i..][..10] == t[i..j];
      }
      assert t[k - 3..e] == ".md`" by {
        assert s[n] == t[k];
        SliceSplit(t, k - 3, k, e);
      }
      SliceSplit(t, i, j, e);
      SliceSplit(t, j, k - 3, e);
      Assoc(t[i..j], p, t[k - 3..e]);
    }
  }

  /** Where the parts of a quoted path stand. */
  lemma QuotedPathPieces(p: string)
    ensures var q := QuotedPath(p); var n := |p|;
      && |q| == 14 + n && q[..10] == "`projects/" && q[10..10 + n] == p
      && q[10 + n..13 + n] == ".md" && q[13 + n] == '`'
  {
  }

  /** Where the parts of a quoted path at `i` stand in the text. */
  lemma RefPieces(t: string, i: nat, p: string)
    requires OccursAt(t, QuotedPath(p), i)
    ensures var n := |p|;
      && i + 14 + n <= |t| && StartsWith(t[i..], "`projects/")
      && t[i + 10..i + 10 + n] == p && t[i + 10 + n..i + 13 + n] == ".md" && t[i + 13 + n] == '`'
  {
    var q := QuotedPath(p);
    var n := |p|;
    QuotedPathPieces(p);
    OccurrenceSlice(t, q, i, 0, 10);
    assert t[i..][..10] == t[i..i + 10];
    OccurrenceSlice(t, q, i, 10, 10 + n);
    OccurrenceSlice(t, q, i, 10 + n, 13 + n);
    OccurrenceSlice(t, q, i, 13 + n, 14 + n);
    assert t[i + 13 + n] == t[i + 13 + n..i + 14 + n][0] == q[13 + n..14 + n][0];
  }

  /** A quoted path with a non-empty, backtick-free project is recognised at
      the index where it starts. */
  lemma RefAtComplete(t: string, i: nat, p: string)
    requires i <= |t| && |p| > 0 && AllIn(p, NotBacktick)
    requires OccursAt(t, QuotedPath(p), i)
    ensures RefAt(t, i) == Some((p, i + |QuotedPath(p)|))
  {
    var n := |p|;
    QuotedPathPieces(p);
    RefPieces(t, i, p);
    var j := i + 10;
    var k := j + n + 3;
    var s := t[j..];
    assert s[..n + 3] == p + ".md" by {
      assert s[..n + 3] == t[j..k];
      SliceSplit(t, j, k - 3, k);
    }
    assert s[n + 3] == t[k];
    SpanExact(s, NotBacktick, n + 3);
  }

  /** `re.finditer` of the reference pattern from index `i`. */
  function RefsFrom(t: string, i: nat): (r: seq<string>)
    requires i <= |t|
    ensures forall k | 0 <= k < |r| :: |r[k]| > 0 && AllIn(r[k], NotBacktick) && Contains(t, QuotedPath(r[k]))
    decreases |t| - i
  {
    if i == |t| then []
    else
      RefAtSound(t, i);
      match RefAt(t, i)
      case Some((p, e)) => [p] + RefsFrom(t, e)
      case None => RefsFrom(t, i + 1)
  }

  /** The projects the index refers to, in order of appearance. */
  function TableReferences(content: string): seq<string> {
    RefsFrom(content, 0)
  }

  // ---------------------------------------------------------------------------
  // Declared counts: "`projects/([^`]+)\.md`[^|]*\|\s*[^|]*\((\d+)\s*entr"

  /** `\((\d+)\s*entr` at the start of `s`: the digits and the length of the
      match. The digit and space runs are maximal because what must follow
      each is outside its class. */
  function CountAt(s: string): Option<(string, nat)> {
    if |s| == 0 || s[0] != '(' then None
    else
      var n := Span(s[1..], Digit);
      if n == 0 then None
      else
        var w := Span(s[1 + n..], Space);
        var k := 1 + n + w;
        if k + 4 <= |s| && s[k] == 'e' && s[k + 1] == 'n' && s[k + 2] == 't' && s[k + 3] == 'r'
        then Some((s[1..1 + n], k + 4))
        else None
  }

  lemma CountAtSound(s: string)
    ensures CountAt(s).Some? ==>
      var (d, n) := CountAt(s).value;
      && |d| > 0 && AllDigits(d) && 0 < n <= |s| && StartsWith(s, "(" + d)
      && 1 + |d| + 4 <= n && AllIn(s[1 + |d|..n - 4], Space) && s[n - 4..n] == "entr"
  {
    if CountAt(s).Some? {
      var n := Span(s[1..], Digit);
      var d := s[1..1 + n];
      assert s[1..][..n] == d;
      assert s[..1 + n] == s[..1] + d;
      var w := Span(s[1 + n..], Space);
      assert s[1 + n..1 + n + w] == s[1 + n..][..w];
      assert s[1 + n + w..1 + n + w + 4] == s[1 + n + w..][..4];
    }
  }

  /** The count pattern read at every index of `s`: the match that starts
      there, and nothing past the end of `s`. */
  function Reading(s: string): nat -> Option<(string, nat)> {
    (x: nat) => ReadAt(s, x)
  }

  /** The match of the count pattern that starts at index `x` of `s`. */
  function ReadAt(s: string, x: nat): Option<(string, nat)>
    decreases x
  {
    if x == 0 then CountAt(s)
    else if |s| == 0 then None
    else ReadAt(s[1..], x - 1)
  }

  lemma {:induction false} ReadAtDrop(s: string, x: nat)
    requires x <= |s|
    ensures ReadAt(s, x) == CountAt(s[x..])
    decreases x
  {
    if x > 0 {
      ReadAtDrop(s[1..], x - 1);
      assert s[1..][x - 1..] == s[x..];
    }
  }

  /** A backtracking search over a reading `h` of indices: the match at the
      last index from `q` down to `lo` at which `h` gives one, with the end of
      that match. */
  function LastHit(h: nat -> Option<(string, nat)>, lo: nat, q: nat): Option<(string, nat)>
    requires lo <= q
    decreases q - lo
  {
    match h(q)
    case Some((d, n)) => Some((d, q + n))
    case None => if q == lo then None else LastHit(h, lo, q - 1)
  }

  /** The greedy `[^|]*` before `\(`: the last index from `q` down to `lo` at
      which the count pattern matches, with the end of that match. */
  function LastCount(s: string, lo: nat, q: nat): Option<(string, nat)>
    requires lo <= q <= |s|
    decreases q - lo
  {
    match CountAt(s[q..])
    case Some((d, n)) => Some((d, q + n))
    case None => if q == lo then None else LastCount(s, lo, q - 1)
  }

  /** The greedy search is the backtracking search over the readings of `s`. */
  lemma {:induction false} LastCountIsSearch(s: string, lo: nat, q: nat)
    requires lo <= q <= |s|
    ensures LastCount(s, lo, q) == LastHit(Reading(s), lo, q)
    decreases q - lo
  {
    ReadAtDrop(s, q);
    if q > lo {
      LastCountIsSearch(s, lo, q - 1);
    }
  }

  lemma {:induction false} LastCountSound(s: string, lo: nat, q: nat)
    requires lo <= q <= |s|
    ensures LastCount(s, lo, q).Some? ==>
      var (d, end) := LastCount(s, lo, q).value;
      |d| > 0 && AllDigits(d) && lo < end <= |s| && Contains(s, "(" + d)
    decreases q - lo
  {
    CountAtSound(s[q..]);
    match CountAt(s[q..])
    case Some((d, n)) =>
      OccursAtStartsWith(s, "(" + d, q);
      assert OccursAt(s, "(" + d, q);
    case None =>
      if q > lo {
        LastCountSound(s, lo, q - 1);
      }
  }

  /** What follows a reference: everything up to the first '|', then within
      the next cell (up to the following '|' or the end) the last `(N entr`.
      Gives the digits and the length consumed. */
  function CountIn(s: string): Option<(string, nat)> {
    var bar := Span(s, NotBar);
    if bar == |s| then None
    else
      var stop := bar + 1 + Span(s[bar + 1..], NotBar);
      LastCount(s, bar + 1, stop)
  }

  lemma CountInSound(s: string)
    ensures CountIn(s).Some? ==>
      var (d, n) := CountIn(s).value;
      |d| > 0 && AllDigits(d) && 0 < n <= |s| && Contains(s, "(" + d)
  {
    var bar := Span(s, NotBar);
    if bar < |s| {
      var stop := bar + 1 + Span(s[bar + 1..], NotBar);
      LastCountSound(s, bar + 1, stop);
    }
  }

  /** One match of the count pattern at index `i`: the project, the digits and
      the end of the match. */
  function ClaimAt(t: string, i: nat): Option<(string, string, nat)>
    requires i <= |t|
  {
    match RefAt(t, i)
    case None => None
    case Some((p, e)) =>
      match CountIn(t[e..])
      case None => None
      case Some((d, n)) => Some((p, d, e + n))
  }

  /** The count recogniser at a reference: the count found after it. */
  lemma ClaimAtRefFound(t: string, i: nat, p: string, e: nat)
    requires i <= e <= |t| && RefAt(t, i) == Some((p, e))
    ensures ClaimAt(t, i).None? <==> CountIn(t[e..]).None?
    ensures ClaimAt(t, i).Some? ==>
      ClaimAt(t, i).value == (p, CountIn(t[e..]).value.0, e + CountIn(t[e..]).value.1)
  {
  }

  /** What the count recogniser accepts: a reference at `i` whose project it
      gives, and a count `(N` after it. */
  lemma ClaimAtSound(t: string, i: nat)
    requires i <= |t|
    ensures ClaimAt(t, i).Some? ==>
      var (p, d, end) := ClaimAt(t, i).value;
      && RefAt(t, i).Some? && RefAt(t, i).value.0 == p && OccursAt(t, QuotedPath(p), i)
      && |d| > 0 && AllDigits(d) && Contains(t, "(" + d) && i < end <= |t|
  {
    RefAtSound(t, i);
    if RefAt(t, i).Some? {
      var e := RefAt(t, i).value.1;
      CountInSound(t[e..]);
      if CountIn(t[e..]).Some? {
        CountInContained(t, e, CountIn(t[e..]).value.0);
      }
    }
  }

  /** A count found after index `e` is found in the whole text. */
  lemma CountInContained(t: string, e: nat, d: string)
    requires e <= |t| && Contains(t[e..], "(" + d)
    ensures Contains(t, "(" + d)
  {
    ContainsExtended(t[e..], "(" + d, t[..e], "");
    assert t[..e] + t[e..] + "" == t;
  }

  /** `re.finditer` of the count pattern from index `i`: each project with its
      declared count, as written. */
  function ClaimsFrom(t: string, i: nat): (r: seq<(string, string)>)
    requires i <= |t|
    ensures forall k | 0 <= k < |r| ::
      && |r[k].1| > 0 && AllDigits(r[k].1)
      && Contains(t, QuotedPath(r[k].0)) && Contains(t, "(" + r[k].1)
    decreases |t| - i
  {
    if i == |t| then []
    else
      ClaimAtSound(t, i);
      match ClaimAt(t, i)
      case Some((p, d, end)) => [(p, d)] + ClaimsFrom(t, end)
      case None => ClaimsFrom(t, i + 1)
  }

  /** The declared counts of the index, in order of appearance. */
  function Claims(content: string): seq<(string, string)> {
    ClaimsFrom(content, 0)
  }

  // ---------------------------------------------------------------------------
  // Recognising a table row of the documented shape

  /** The reference and count cells of a row of the project table, as the
      store's conventions write them. */
  function TableRow(p: string, title: string, d: string): string {
    QuotedPath(p) + (" | " + (title + ("(" + (d + " entries) |"))))
  }

  /** The text after the reference of a table row. */
  function RowTail(title: string, d: string, rest: string): string {
    " | " + (title + ("(" + (d + (" entries) |" + rest))))
  }

  lemma TableRowRegroup(p: string, title: string, d: string, rest: string)
    ensures TableRow(p, title, d) + rest == QuotedPath(p) + RowTail(title, d, rest)
  {
    Assoc(d, " entries) |", rest);
    Assoc("(", d + " entries) |", rest);
    Assoc(title, "(" + (d + " entries) |"), rest);
    Assoc(" | ", title + ("(" + (d + " entries) |")), rest);
    Assoc(QuotedPath(p), " | " + (title + ("(" + (d + " entries) |"))), rest);
  }

  /** `(N entries)` is recognised with exactly the digits N. */
  lemma CountAtEntries(d: string, rest: string)
    requires |d| > 0 && AllDigits(d)
    ensures CountAt("(" + (d + (" entries) |" + rest))) == Some((d, |d| + 6))
  {
    var v := " entries) |" + rest;
    var u := d + v;
    var s := "(" + u;
    EntriesCell(rest);
    DigitsThen(d, v);
    assert s[..1] == "(";
    assert s[1..] == u;
    assert s[1 + |d|..] == u[|d|..];
    assert s[2 + |d|..] == v[1..];
    assert s[1..1 + |d|] == u[..|d|];
    CountAtParts(s, |d|, 1);
  }

  /** The text after the digits of a table row's count. */
  lemma EntriesCell(rest: string)
    ensures var v := " entries) |" + rest;
      |v| > 0 && !InClass(v[0], Digit) && Span(v, Space) == 1 && StartsWith(v[1..], "entr")
  {
    var v := " entries) |" + rest;
    assert v[..1] == " ";
    SpanExact(v, Space, 1);
    assert v[1..][..4] == "entr";
  }

  /** A digit run followed by a non-digit is exactly the run. */
  lemma DigitsThen(d: string, v: string)
    requires AllDigits(d) && |v| > 0 && !InClass(v[0], Digit)
    ensures Span(d + v, Digit) == |d| && (d + v)[..|d|] == d && (d + v)[|d|..] == v
  {
    var u := d + v;
    assert u[..|d|] == d;
    assert u[|d|..] == v;
    SpanExact(u, Digit, |d|);
  }

  /** The count recogniser on a text whose digit run has length `n` and whose
      following space run has length `w`. */
  lemma CountAtParts(s: string, n: nat, w: nat)
    requires StartsWith(s, "(") && n > 0
    requires n == Span(s[1..], Digit) && w == Span(s[1 + n..], Space)
    requires StartsWith(s[1 + n + w..], "entr")
    ensures CountAt(s) == Some((s[1..1 + n], n + w + 5))
  {
  }

  lemma NoCountWithoutParen(s: string)
    requires |s| > 0 && s[0] != '('
    ensures CountAt(s).None?
  {
    assert s[..1] != "(" by {
      assert s[..1][0] == s[0];
    }
  }

  lemma LastCountAt(s: string, lo: nat, q: nat, d: string, n: nat)
    requires lo <= q <= |s| && CountAt(s[q..]) == Some((d, n))
    ensures LastCount(s, lo, q) == Some((d, q + n))
  {
  }

  /** Where no '(' stands the search moves one index down. */
  lemma LastCountStep(s: string, lo: nat, q: nat)
    requires lo < q < |s| && s[q] != '('
    ensures LastCount(s, lo, q) == LastCount(s, lo, q - 1)
  {
    NoCountWithoutParen(s[q..]);
  }

  /** No `(N entr` match starts at an index from `m + 1` to `q` when no '('
      stands there. */
  lemma {:induction false} LastCountSkips(s: string, lo: nat, m: nat, q: nat)
    requires lo <= m <= q < |s|
    requires forall x | m < x <= q :: s[x] != '('
    ensures LastCount(s, lo, q) == LastCount(s, lo, m)
    decreases q - m
  {
    if q > m {
      LastCountStep(s, lo, q);
      LastCountSkips(s, lo, m, q - 1);
    }
  }

  // ---------------------------------------------------------------------------
  // What the greedy search decides

  /** `x` is the last index from `lo` to `q` at which the reading `h` gives a
      match. */
  predicate LastHitIs(h: nat -> Option<(string, nat)>, lo: nat, q: nat, x: nat) {
    lo <= x <= q && h(x).Some? && forall y | x < y <= q :: h(y).None?
  }

  /** The search finds nothing exactly when `h` gives no match at any index
      from `lo` to `q`. */
  lemma {:induction false} LastHitNone(h: nat -> Option<(string, nat)>, lo: nat, q: nat)
    requires lo <= q
    ensures LastHit(h, lo, q).None? <==> forall x | lo <= x <= q :: h(x).None?
    decreases q - lo
  {
    if q > lo {
      LastHitNone(h, lo, q - 1);
    }
  }

  /** The search reports the match at the last index at which `h` gives one. */
  lemma {:induction false} LastHitFinds(h: nat -> Option<(string, nat)>, lo: nat, q: nat, x: nat)
    requires LastHitIs(h, lo, q, x)
    ensures LastHit(h, lo, q) == Some((h(x).value.0, x + h(x).value.1))
    decreases q - x
  {
    if q > x {
      assert LastHitIs(h, lo, q - 1, x);
      LastHitFinds(h, lo, q - 1, x);
    }
  }

  /** Where `h` gives a match at some index from `lo` to `q`, one of them is
      the last. */
  lemma {:induction false} LastHitExists(h: nat -> Option<(string, nat)>, lo: nat, q: nat, x0: nat)
    requires lo <= x0 <= q && h(x0).Some?
    ensures exists x: nat :: LastHitIs(h, lo, q, x)
    decreases q - x0
  {
    if h(q).Some? {
      assert LastHitIs(h, lo, q, q);
    } else {
      LastHitExists(h, lo, q - 1, x0);
      var x: nat :| LastHitIs(h, lo, q - 1, x);
      assert LastHitIs(h, lo, q, x);
    }
  }

  /** Whatever the search finds is the match at a last index at which `h`
      gives one. */
  lemma LastHitLast(h: nat -> Option<(string, nat)>, lo: nat, q: nat)
    requires lo <= q
    ensures LastHit(h, lo, q).Some? ==>
      exists x: nat :: LastHitIs(h, lo, q, x) && LastHit(h, lo, q).value == (h(x).value.0, x + h(x).value.1)
  {
    LastHitNone(h, lo, q);
    if LastHit(h, lo, q).Some? {
      var x0: nat :| lo <= x0 <= q && h(x0).Some?;
      LastHitExists(h, lo, q, x0);
      var x: nat :| LastHitIs(h, lo, q, x);
      LastHitFinds(h, lo, q, x);
    }
  }

  /** The digits of the match that starts at `x`, and the index where it ends. */
  function MatchAt(s: string, x: nat): (string, nat)
    requires Reading(s)(x).Some?
  {
    (Reading(s)(x).value.0, x + Reading(s)(x).value.1)
  }

  /** The cell the count pattern reads after a reference: `b` is the first
      '|', and `c` the next '|' after it or the end of the text. */
  predicate CellBounds(s: string, b: nat, c: nat) {
    && b < c <= |s| && s[b] == '|'
    && (forall y | 0 <= y < b :: s[y] != '|')
    && (c == |s| || s[c] == '|')
    && (forall y | b < y < c :: s[y] != '|')
  }

  /** After a reference, `[^|]*\|\s*[^|]*` stays inside the cell that follows
      the first '|', so the count is searched for from its start to its end. */
  lemma CountInCell(s: string, b: nat, c: nat)
    requires CellBounds(s, b, c)
    ensures CountIn(s) == LastCount(s, b + 1, c)
  {
    assert AllIn(s[..b], NotBar) by {
      forall m | 0 <= m < b ensures InClass(s[..b][m], NotBar) {
        assert s[..b][m] == s[m];
      }
    }
    SpanExact(s, NotBar, b);
    var u := s[b + 1..];
    var k := c - b - 1;
    var w := u[..k];
    assert AllIn(w, NotBar) by {
      forall m | 0 <= m < k ensures InClass(w[m], NotBar) {
        assert w[m] == s[b + 1 + m];
      }
    }
    assert k < |u| ==> u[k] == s[c];
    SpanExact(u, NotBar, k);
  }

  /** Without a '|' after the reference there is no count. */
  lemma CountInWithoutBar(s: string)
    requires forall y | 0 <= y < |s| :: s[y] != '|'
    ensures CountIn(s).None?
  {
    assert s[..|s|] == s;
    SpanExact(s, NotBar, |s|);
  }

  /** What the count recogniser finds after a reference, in terms of the cell
      alone (from `lo`, the index after its '|' at `b`, to `c`): nothing when no
      match starts in it, and otherwise the match at the last index of the cell
      at which one starts. */
  lemma CountInExact(s: string, b: nat, lo: nat, c: nat)
    requires CellBounds(s, b, c) && lo == b + 1
    ensures CountIn(s).None? <==> forall x | lo <= x <= c :: Reading(s)(x).None?
    ensures CountIn(s).Some? ==> exists x: nat :: LastHitIs(Reading(s), lo, c, x)
    ensures forall x: nat | LastHitIs(Reading(s), lo, c, x) :: CountIn(s) == Some(MatchAt(s, x))
  {
    CountInCell(s, b, c);
    LastCountIsSearch(s, lo, c);
    LastHitNone(Reading(s), lo, c);
    LastHitLast(Reading(s), lo, c);
    forall x: nat | LastHitIs(Reading(s), lo, c, x) ensures CountIn(s) == Some(MatchAt(s, x)) {
      LastHitFinds(Reading(s), lo, c, x);
    }
  }

  /** The count pattern at a reference reads the cell after the first '|'
      that follows it: there is no claim exactly when no match starts in
      that cell, and otherwise the claim is the match at the last index of
      the cell at which one starts. */
  lemma ClaimAtCell(t: string, i: nat, p: string, e: nat, u: string, b: nat, lo: nat, c: nat)
    requires i <= e <= |t| && RefAt(t, i) == Some((p, e)) && u == t[e..]
    requires CellBounds(u, b, c) && lo == b + 1
    ensures ClaimAt(t, i).None? <==> forall x | lo <= x <= c :: Reading(u)(x).None?
    ensures ClaimAt(t, i).Some? ==> exists x: nat :: LastHitIs(Reading(u), lo, c, x)
    ensures forall x: nat | LastHitIs(Reading(u), lo, c, x) ::
      ClaimAt(t, i) == Some((p, MatchAt(u, x).0, e + MatchAt(u, x).1))
  {
    ClaimAtRefFound(t, i, p, e);
    CountInExact(u, b, lo, c);
  }

  /** A reference with no '|' after it starts no claim. */
  lemma ClaimAtWithoutBar(t: string, i: nat, p: string, e: nat)
    requires i <= e <= |t| && RefAt(t, i) == Some((p, e))
    requires forall y | e <= y < |t| :: t[y] != '|'
    ensures ClaimAt(t, i).None?
  {
    var u := t[e..];
    forall y | 0 <= y < |u| ensures u[y] != '|' {
      assert u[y] == t[e + y];
    }
    CountInWithoutBar(u);
    ClaimAtRefFound(t, i, p, e);
  }

  /** The cell after the reference runs to the '|' that closes the count. */
  lemma CellPiecesHaveNoBar(d: string)
    requires AllDigits(d)
    ensures AllIn(" ", NotBar) && AllIn("(", NotBar) && AllIn(" entries) ", NotBar)
    ensures AllIn(d, NotBar)
  {
  }

  lemma EntriesLength(rest: string)
    ensures Span(" entries) |" + rest, NotBar) == 10
  {
    CellPiecesHaveNoBar("");
    assert " entries) " + "|" == " entries) |";
    Assoc(" entries) ", "|", rest);
    assert Span("|" + rest, NotBar) == 0;
    SpanConcat(" entries) ", "|" + rest, NotBar);
  }

  lemma CountCellLength(title: string, d: string, rest: string)
    requires AllIn(title, NotBar) && AllDigits(d)
    ensures Span(" " + (title + ("(" + (d + (" entries) |" + rest)))), NotBar) == |title| + |d| + 12
  {
    CellPiecesHaveNoBar(d);
    EntriesLength(rest);
    var r2 := d + (" entries) |" + rest);
    SpanConcat(d, " entries) |" + rest, NotBar);
    var r3 := "(" + r2;
    SpanConcat("(", r2, NotBar);
    var r4 := title + r3;
    SpanConcat(title, r3, NotBar);
    SpanConcat(" ", r4, NotBar);
  }

  /** Where the parts of a row's tail stand. */
  lemma RowTailParts(title: string, d: string, rest: string)
    ensures var s := RowTail(title, d, rest);
      && Span(s, NotBar) == 1
      && s[2..] == " " + (title + ("(" + (d + (" entries) |" + rest))))
      && s[3 + |title|..] == "(" + (d + (" entries) |" + rest))
      && s[4 + |title|..15 + |title| + |d|] == d + " entries) |"
  {
    var w := "(" + (d + (" entries) |" + rest));
    var s := RowTail(title, d, rest);
    assert s == " " + ("|" + (" " + (title + w)));
    SpanConcat(" ", "|" + (" " + (title + w)), NotBar);
    assert s[3..] == title + w;
    assert s[3 + |title|..] == s[3..][|title|..];
    assert s[4 + |title|..] == s[3 + |title|..][1..];
    assert w[1..] == d + (" entries) |" + rest);
    assert s[4 + |title|..15 + |title| + |d|] == s[4 + |title|..][..|d| + 11];
  }

  /** The count recogniser on a text whose cell after the first '|' ends at
      `stop`, with the only '(' of the cell's last stretch at `openAt`. */
  lemma CountInFindsLast(s: string, openAt: nat, stop: nat, d: string, n: nat)
    requires Span(s, NotBar) == 1 && 2 <= |s| && stop == 2 + Span(s[2..], NotBar)
    requires 2 <= openAt <= stop < |s| && forall x | openAt < x <= stop :: s[x] != '('
    requires CountAt(s[openAt..]) == Some((d, n))
    ensures CountIn(s) == Some((d, openAt + n))
  {
    CountInSpans(s, 1, stop);
    LastCountSkips(s, 2, openAt, stop);
    LastCountAt(s, 2, openAt, d, n);
  }

  /** The recogniser once the two spans of `[^|]` are known. */
  lemma CountInSpans(s: string, b: nat, c: nat)
    requires b < |s| && Span(s, NotBar) == b && b + 1 + Span(s[b + 1..], NotBar) == c
    ensures CountIn(s) == LastCount(s, b + 1, c)
  {
  }

  /** No '(' stands from `o + 1` to `stop` when the slice between holds none. */
  lemma NoParenAfter(s: string, o: nat, stop: nat)
    requires o < stop < |s| && '(' !in s[o + 1..stop + 1]
    ensures forall x | o < x <= stop :: s[x] != '('
  {
    forall x | o < x <= stop ensures s[x] != '(' {
      assert s[x] == s[o + 1..stop + 1][x - o - 1];
    }
  }

  /** The digits and the rest of a count cell hold no '('. */
  lemma NoParenInCount(d: string)
    requires AllDigits(d)
    ensures '(' !in d + " entries) |"
  {
    assert forall k | 0 <= k < |d| :: d[k] != '(';
  }

  /** After the reference of a table row whose title holds no '|', the count
      recogniser finds exactly the declared digits: a title may hold `(N entr`
      itself, but the greedy search takes the last one in the cell. */
  lemma CountInRow(title: string, d: string, rest: string)
    requires AllIn(title, NotBar)
    requires |d| > 0 && AllDigits(d)
    ensures CountIn(RowTail(title, d, rest)).Some?
    ensures CountIn(RowTail(title, d, rest)).value.0 == d
    ensures CountIn(RowTail(title, d, rest)).value.1 == 9 + |title| + |d|
  {
    var s := RowTail(title, d, rest);
    var o := 3 + |title|;
    var stop := 14 + |title| + |d|;
    RowTailParts(title, d, rest);
    CountCellLength(title, d, rest);
    NoParenInCount(d);
    NoParenAfter(s, o, stop);
    CountAtEntries(d, rest);
    CountInFindsLast(s, o, stop, d, |d| + 6);
  }

  /** A title that itself holds a count pattern does not hide the row's own
      count: after `| Bugs (1 entry per fix) ` the declared `(3 entries)` is
      the one found. */
  lemma CountInTitleWithCount()
    ensures CountIn(RowTail("Bugs (1 entry per fix) ", "3", "")) == Some(("3", 33))
  {
    var title := "Bugs (1 entry per fix) ";
    assert AllIn(title, NotBar) by {
      forall k | 0 <= k < |title| ensures InClass(title[k], NotBar) {
      }
    }
    assert AllDigits("3") by {
      assert InClass("3"[0], Digit);
    }
    CountInRow(title, "3", "");
  }

  /** The count recogniser finds the project and count of a table row. */
  lemma ClaimAtTableRow(t: string, i: nat, p: string, title: string, d: string, rest: string)
    requires |p| > 0 && AllIn(p, NotBacktick)
    requires AllIn(title, NotBar)
    requires |d| > 0 && AllDigits(d)
    requires i <= |t| && t[i..] == TableRow(p, title, d) + rest
    ensures ClaimAt(t, i).Some? && ClaimAt(t, i).value.0 == p && ClaimAt(t, i).value.1 == d
    ensures ClaimAt(t, i).value.2 == i + |TableRow(p, title, d)| - 6
  {
    TableRowRegroup(p, title, d, rest);
    CountInRow(title, d, rest);
    ClaimAtRef(t, i, p, RowTail(title, d, rest), d, 9 + |title| + |d|);
    TableRowLength(p, title, d);
  }

  /** The count recogniser at a reference followed by a text in which the
      count is found. */
  lemma ClaimAtRef(t: string, i: nat, p: string, tail: string, d: string, n: nat)
    requires |p| > 0 && AllIn(p, NotBacktick)
    requires i <= |t| && t[i..] == QuotedPath(p) + tail && CountIn(tail) == Some((d, n))
    ensures ClaimAt(t, i) == Some((p, d, i + |QuotedPath(p)| + n))
  {
    SuffixSplit(t, i, QuotedPath(p), tail);
    RefAtComplete(t, i, p);
    ClaimAtParts(t, i, p, i + |QuotedPath(p)|, d, n);
  }

  lemma TableRowLength(p: string, title: string, d: string)
    ensures |TableRow(p, title, d)| == |QuotedPath(p)| + |title| + |d| + 15
  {
  }

  /** A text whose suffix at `i` is `a + b` holds `a` at `i` and `b` after it. */
  lemma SuffixSplit(t: string, i: nat, a: string, b: string)
    requires i <= |t| && t[i..] == a + b
    ensures OccursAt(t, a, i) && t[i + |a|..] == b
  {
    assert t[i..i + |a|] == t[i..][..|a|];
    assert t[i + |a|..] == t[i..][|a|..];
  }

  /** The count recogniser from its two parts: the reference and the count
      found after it. */
  lemma ClaimAtParts(t: string, i: nat, p: string, e: nat, d: string, n: nat)
    requires i <= e <= |t| && RefAt(t, i) == Some((p, e))
    requires CountIn(t[e..]) == Some((d, n))
    ensures ClaimAt(t, i) == Some((p, d, e + n))
  {
  }

  /** The scan passes over a stretch in which no reference starts. */
  lemma {:induction false} ClaimsFromSkips(t: string, i: nat, m: nat)
    requires i <= m <= |t|
    requires forall x | i <= x < m :: !StartsWith(t[x..], "`projects/")
    ensures ClaimsFrom(t, i) == ClaimsFrom(t, m)
    decreases m - i
  {
    if i < m {
      assert ClaimAt(t, i).None? by {
        assert !StartsWith(t[i..], "`projects/");
      }
      assert ClaimsFrom(t, i) == ClaimsFrom(t, i + 1);
      ClaimsFromSkips(t, i + 1, m);
    }
  }

  /** No reference starts inside a backtick-free preamble. */
  lemma NoRefInPreamble(pre: string, r: string)
    requires '`' !in pre
    ensures forall x | 0 <= x < |pre| :: !StartsWith((pre + r)[x..], "`projects/")
  {
    forall x | 0 <= x < |pre| ensures !StartsWith((pre + r)[x..], "`projects/") {
      assert (pre + r)[x..][0] == pre[x];
    }
  }

  /** A match at the scan position is the first thing the scan reports. */
  lemma ClaimsFromHead(t: string, i: nat)
    requires i < |t| && ClaimAt(t, i).Some?
    ensures |ClaimsFrom(t, i)| > 0
    ensures ClaimsFrom(t, i)[0] == (ClaimAt(t, i).value.0, ClaimAt(t, i).value.1)
  {
  }

  /** Scanning a text that starts with `pre` and then a table row, where `pre`
      holds no backtick, meets that row's project and count first. */
  lemma FirstClaimIsRow(pre: string, p: string, title: string, d: string, rest: string)
    requires '`' !in pre
    requires |p| > 0 && AllIn(p, NotBacktick)
    requires AllIn(title, NotBar)
    requires |d| > 0 && AllDigits(d)
    ensures |Claims(pre + TableRow(p, title, d) + rest)| > 0
    ensures Claims(pre + TableRow(p, title, d) + rest)[0] == (p, d)
  {
    var r := TableRow(p, title, d) + rest;
    var t := pre + r;
    assert t == pre + TableRow(p, title, d) + rest;
    NoRefInPreamble(pre, r);
    ClaimsFromSkips(t, 0, |pre|);
    assert t[|pre|..] == r;
    ClaimAtTableRow(t, |pre|, p, title, d, rest);
    ClaimsFromHead(t, |pre|);
  }

  // ---------------------------------------------------------------------------
  // A whole project table

  /** One row of the project table as the scans read it: text without
      backticks in front of the reference (the end of the previous row and the
      cells before the reference), then the reference and the count cell. */
  datatype TableEntry = TableEntry(lead: string, project: string, title: string, count: string)

  predicate WellFormedEntry(e: TableEntry) {
    && '`' !in e.lead
    && |e.project| > 0 && AllIn(e.project, NotBacktick)
    && AllIn(e.title, NotBar) && '`' !in e.title
    && |e.count| > 0 && AllDigits(e.count)
  }

  predicate WellFormedTable(rows: seq<TableEntry>) {
    forall e | e in rows :: WellFormedEntry(e)
  }

  /** The text of a table: its rows in order, then a backtick-free tail. */
  function TableText(rows: seq<TableEntry>, tail: string): string {
    if |rows| == 0 then tail
    else rows[0].lead + TableRow(rows[0].project, rows[0].title, rows[0].count) + TableText(rows[1..], tail)
  }

  /** The project and count each row declares, in order. */
  function RowClaims(rows: seq<TableEntry>): (r: seq<(string, string)>)
    ensures |r| == |rows|
    ensures forall k | 0 <= k < |rows| :: r[k] == (rows[k].project, rows[k].count)
  {
    if |rows| == 0 then [] else [(rows[0].project, rows[0].count)] + RowClaims(rows[1..])
  }

  /** The project each row refers to, in order. */
  function RowProjects(rows: seq<TableEntry>): (r: seq<string>)
    ensures |r| == |rows|
    ensures forall k | 0 <= k < |rows| :: r[k] == rows[k].project
  {
    if |rows| == 0 then [] else [rows[0].project] + RowProjects(rows[1..])
  }

  /** No reference starts in a stretch without backticks. */
  lemma NoRefWithoutBacktick(t: string, i: nat, m: nat)
    requires i <= m <= |t|
    requires forall x | i <= x < m :: t[x] != '`'
    ensures forall x | i <= x < m :: !StartsWith(t[x..], "`projects/")
  {
    forall x | i <= x < m ensures !StartsWith(t[x..], "`projects/") {
      NoOccurrenceAt(t, "`projects/", x);
    }
  }

  /** The reference scan passes over a stretch in which no reference starts. */
  lemma {:induction false} RefsFromSkips(t: string, i: nat, m: nat)
    requires i <= m <= |t|
    requires forall x | i <= x < m :: !StartsWith(t[x..], "`projects/")
    ensures RefsFrom(t, i) == RefsFrom(t, m)
    decreases m - i
  {
    if i < m {
      assert !StartsWith(t[i..], "`projects/");
      RefsFromSkips(t, i + 1, m);
    }
  }
  /** Neither scan reports anything from a stretch without backticks. */
  lemma ScansSkipPlainText(t: string, i: nat, m: nat)
    requires i <= m <= |t|
    requires forall x | i <= x < m :: t[x] != '`'
    ensures ClaimsFrom(t, i) == ClaimsFrom(t, m)
    ensures RefsFrom(t, i) == RefsFrom(t, m)
  {
    NoRefWithoutBacktick(t, i, m);
    ClaimsFromSkips(t, i, m);
    RefsFromSkips(t, i, m);
  }


  /** Where the parts of a row of the table stand in the text. */
  lemma EntryParts(t: string, i: nat, e: TableEntry, rest: string)
    requires WellFormedEntry(e)
    requires i <= |t| && t[i..] == e.lead + TableRow(e.project, e.title, e.count) + rest
    ensures var row := TableRow(e.project, e.title, e.count);
      && i + |e.lead| + |row| <= |t|
      && (forall x | i <= x < i + |e.lead| :: t[x] != '`')
      && StartsWith(t[i + |e.lead|..], row)
      && t[i + |e.lead| + |row|..] == rest
      && (forall x | i + |e.lead| + |QuotedPath(e.project)| <= x < i + |e.lead| + |row| :: t[x] != '`')
  {
    var row := TableRow(e.project, e.title, e.count);
    var q := QuotedPath(e.project);
    var tailCells := " | " + (e.title + ("(" + (e.count + " entries) |")));
    assert row == q + tailCells;
    Assoc(e.lead, row, rest);
    DropPrefix(t, i, e.lead, row + rest);
    Assoc(q, tailCells, rest);
    DropPrefix(t, i + |e.lead|, q, tailCells + rest);
    DropPrefix(t, i + |e.lead| + |q|, tailCells, rest);
    assert t[i + |e.lead|..][..|row|] == row;
    forall x | 0 <= x < |e.count| ensures e.count[x] != '`' {
      assert InClass(e.count[x], Digit);
    }
    assert '`' !in tailCells;
  }

  /** A match at the scan position is reported, and the scan resumes where the
      match ends. */
  lemma ClaimsFromStep(t: string, i: nat, p: string, d: string, end: nat)
    requires i < |t| && ClaimAt(t, i).Some?
    requires ClaimAt(t, i).value.0 == p && ClaimAt(t, i).value.1 == d && ClaimAt(t, i).value.2 == end
    ensures end <= |t|
    ensures ClaimsFrom(t, i) == [(p, d)] + ClaimsFrom(t, end)
  {
    ClaimAtSound(t, i);
  }

  /** At a table row the reference scan reports the row's project and resumes
      after its reference. */
  lemma RefsFromRow(t: string, i: nat, p: string, title: string, d: string, rest: string, c: nat)
    requires |p| > 0 && AllIn(p, NotBacktick)
    requires i <= |t| && t[i..] == TableRow(p, title, d) + rest
    requires c == i + |QuotedPath(p)|
    ensures c <= |t|
    ensures RefsFrom(t, i) == [p] + RefsFrom(t, c)
  {
    TableRowRegroup(p, title, d, rest);
    DropPrefix(t, i, QuotedPath(p), RowTail(title, d, rest));
    assert OccursAt(t, QuotedPath(p), i);
    RefAtComplete(t, i, p);
  }

  /** The count scan over the backtick-free tail of a table finds nothing. */
  lemma ClaimsFromTail(t: string, i: nat, tail: string)
    requires '`' !in tail && i <= |t| && t[i..] == tail
    ensures ClaimsFrom(t, i) == [] && RefsFrom(t, i) == []
  {
    forall x | i <= x < |t| ensures t[x] != '`' {
      assert t[x] == tail[x - i];
    }
    ScansSkipPlainText(t, i, |t|);
  }

  /** At a table row the count scan reports the row's claim and passes over
      the rest of the row; `n` is where the row ends. */
  lemma ClaimsFromRow(t: string, a: nat, e: TableEntry, n: nat)
    requires WellFormedEntry(e)
    requires a <= |t| && StartsWith(t[a..], TableRow(e.project, e.title, e.count))
    requires n == a + |TableRow(e.project, e.title, e.count)| && n <= |t|
    requires forall x | a + |QuotedPath(e.project)| <= x < n :: t[x] != '`'
    ensures ClaimsFrom(t, a) == [(e.project, e.count)] + ClaimsFrom(t, n)
  {
    var row := TableRow(e.project, e.title, e.count);
    var m: nat := n - 6;
    assert t[a..] == row + t[n..] by {
      assert t[a..][..|row|] == row;
      assert t[a..] == t[a..][..|row|] + t[a..][|row|..];
    }
    ClaimAtTableRow(t, a, e.project, e.title, e.count, t[n..]);
    ClaimsFromStep(t, a, e.project, e.count, m);
    ScansSkipPlainText(t, m, n);
  }

  /** At a table row the reference scan reports the row's project and passes
      over the rest of the row. */
  lemma RefsFromRowEnd(t: string, a: nat, e: TableEntry, n: nat)
    requires WellFormedEntry(e)
    requires a <= |t| && StartsWith(t[a..], TableRow(e.project, e.title, e.count))
    requires n == a + |TableRow(e.project, e.title, e.count)| && n <= |t|
    requires forall x | a + |QuotedPath(e.project)| <= x < n :: t[x] != '`'
    ensures RefsFrom(t, a) == [e.project] + RefsFrom(t, n)
  {
    var row := TableRow(e.project, e.title, e.count);
    var c: nat := a + |QuotedPath(e.project)|;
    assert t[a..] == row + t[n..] by {
      assert t[a..][..|row|] == row;
      assert t[a..] == t[a..][..|row|] + t[a..][|row|..];
    }
    RefsFromRow(t, a, e.project, e.title, e.count, t[n..], c);
    ScansSkipPlainText(t, c, n);
  }

  /** Over one row of a table the count scan reports the row's claim; `n` is
      where the row ends. */
  lemma ClaimsFromEntry(t: string, i: nat, e: TableEntry, rest: string, n: nat)
    requires WellFormedEntry(e)
    requires i <= |t| && t[i..] == e.lead + TableRow(e.project, e.title, e.count) + rest
    requires n == i + |e.lead| + |TableRow(e.project, e.title, e.count)|
    ensures n <= |t| && t[n..] == rest && ClaimsFrom(t, i) == [(e.project, e.count)] + ClaimsFrom(t, n)
  {
    var a := i + |e.lead|;
    EntryParts(t, i, e, rest);
    ScansSkipPlainText(t, i, a);
    ClaimsFromRow(t, a, e, n);
  }

  /** Over one row of a table the reference scan reports the row's project. */
  lemma RefsFromEntry(t: string, i: nat, e: TableEntry, rest: string, n: nat)
    requires WellFormedEntry(e)
    requires i <= |t| && t[i..] == e.lead + TableRow(e.project, e.title, e.count) + rest
    requires n == i + |e.lead| + |TableRow(e.project, e.title, e.count)|
    ensures n <= |t| && t[n..] == rest && RefsFrom(t, i) == [e.project] + RefsFrom(t, n)
  {
    var a := i + |e.lead|;
    EntryParts(t, i, e, rest);
    ScansSkipPlainText(t, i, a);
    RefsFromRowEnd(t, a, e, n);
  }

  /** The count scan over a table finds every row's claim, in order, and
      nothing else. */
  lemma {:induction false} ClaimsFromTable(t: string, i: nat, rows: seq<TableEntry>, tail: string)
    requires WellFormedTable(rows)
    requires '`' !in tail
    requires i <= |t| && t[i..] == TableText(rows, tail)
    ensures ClaimsFrom(t, i) == RowClaims(rows)
    decreases |rows|
  {
    if |rows| == 0 {
      ClaimsFromTail(t, i, tail);
    } else {
      var e := rows[0];
      var n := i + |e.lead| + |TableRow(e.project, e.title, e.count)|;
      ClaimsFromEntry(t, i, e, TableText(rows[1..], tail), n);
      ClaimsFromTable(t, n, rows[1..], tail);
      assert RowClaims(rows) == [(e.project, e.count)] + RowClaims(rows[1..]);
    }
  }

  /** The reference scan over a table finds every row's project, in order,
      and nothing else. */
  lemma {:induction false} RefsFromTable(t: string, i: nat, rows: seq<TableEntry>, tail: string)
    requires WellFormedTable(rows)
    requires '`' !in tail
    requires i <= |t| && t[i..] == TableText(rows, tail)
    ensures RefsFrom(t, i) == RowProjects(rows)
    decreases |rows|
  {
    if |rows| == 0 {
      ClaimsFromTail(t, i, tail);
    } else {
      var e := rows[0];
      var n := i + |e.lead| + |TableRow(e.project, e.title, e.count)|;
      RefsFromEntry(t, i, e, TableText(rows[1..], tail), n);
      RefsFromTable(t, n, rows[1..], tail);
      assert RowProjects(rows) == [e.project] + RowProjects(rows[1..]);
    }
  }

  /** The claims and references of a whole table are those of its rows. */
  lemma TableScans(rows: seq<TableEntry>, tail: string)
    requires WellFormedTable(rows)
    requires '`' !in tail
    ensures Claims(TableText(rows, tail)) == RowClaims(rows)
    ensures TableReferences(TableText(rows, tail)) == RowProjects(rows)
  {
    var t := TableText(rows, tail);
    ClaimsFromTable(t, 0, rows, tail);
    RefsFromTable(t, 0, rows, tail);
  }

  // ---------------------------------------------------------------------------
  // The cross-file checks

  /** `test_all_dossiers_in_table`: the project name of every dossier occurs in
      the index text. */
  predicate AllDossiersInTable(content: string, dossiers: seq<string>) {
    forall d | d in dossiers :: Contains(content, ProjectName(d))
  }

  /** `test_table_references_exist`: every referenced project has a dossier. */
  predicate TableReferencesExist(content: string, dossiers: seq<string>) {
    forall p | p in TableReferences(content) :: p + ".md" in dossiers
  }

  /** `test_counts_match`: each declared count names an observation log that
      exists and equals the number of lines that log starts with `| ` and a
      digit. */
  predicate CountsMatch(content: string, files: map<string, string>) {
    forall c | c in Claims(content) ::
      && c.0 + ".observations.md" in files
      && DigitsValue(c.1) == ObservationLog.RowCount(files[c.0 + ".observations.md"])
  }

  /** The count check demands of the first table row of an index (after a
      backtick-free preamble) that its log exists and holds exactly the
      declared number of rows: a row declaring another count, or naming a
      missing log, fails the check whatever follows. */
  lemma CountsMatchFirstRow(pre: string, p: string, title: string, d: string, rest: string, files: map<string, string>)
    requires '`' !in pre
    requires |p| > 0 && AllIn(p, NotBacktick)
    requires AllIn(title, NotBar)
    requires |d| > 0 && AllDigits(d)
    requires CountsMatch(pre + TableRow(p, title, d) + rest, files)
    ensures p + ".observations.md" in files
    ensures DigitsValue(d) == ObservationLog.RowCount(files[p + ".observations.md"])
  {
    FirstClaimIsRow(pre, p, title, d, rest);
    assert Claims(pre + TableRow(p, title, d) + rest)[0] == (p, d);
  }

  /** Over a whole table the count check passes exactly when every row names
      an existing log holding exactly the declared number of rows. */
  lemma CountsMatchTable(rows: seq<TableEntry>, tail: string, files: map<string, string>)
    requires WellFormedTable(rows)
    requires '`' !in tail
    ensures CountsMatch(TableText(rows, tail), files) <==>
      forall e | e in rows ::
        && e.project + ".observations.md" in files
        && DigitsValue(e.count) == ObservationLog.RowCount(files[e.project + ".observations.md"])
  {
    var t := TableText(rows, tail);
    TableScans(rows, tail);
    if CountsMatch(t, files) {
      forall e | e in rows
        ensures e.project + ".observations.md" in files
        ensures DigitsValue(e.count) == ObservationLog.RowCount(files[e.project + ".observations.md"])
      {
        var k :| 0 <= k < |rows| && rows[k] == e;
        assert RowClaims(rows)[k] in Claims(t);
      }
    }
  }

  /** Over a whole table the reference check passes exactly when every row's
      project has a dossier. */
  lemma TableReferencesTable(rows: seq<TableEntry>, tail: string, dossiers: seq<string>)
    requires WellFormedTable(rows)
    requires '`' !in tail
    ensures TableReferencesExist(TableText(rows, tail), dossiers) <==>
      forall k | 0 <= k < |rows| :: rows[k].project + ".md" in dossiers
  {
    var t := TableText(rows, tail);
    TableScans(rows, tail);
    if TableReferencesExist(t, dossiers) {
      forall k | 0 <= k < |rows| ensures rows[k].project + ".md" in dossiers {
        assert RowProjects(rows)[k] in TableReferences(t);
      }
    }
  }

  /** Every row's project name occurs in the text of the table. */
  lemma {:induction false} ProjectInTable(rows: seq<TableEntry>, tail: string, k: nat)
    requires k < |rows|
    ensures Contains(TableText(rows, tail), rows[k].project)
    decreases k
  {
    var e := rows[0];
    var q := QuotedPath(e.project);
    var cells := " | " + (e.title + ("(" + (e.count + " entries) |")));
    var rest := TableText(rows[1..], tail);
    assert TableText(rows, tail) == e.lead + q + (cells + rest) by {
      assert TableRow(e.project, e.title, e.count) == q + cells;
      Assoc(e.lead + q, cells, rest);
    }
    if k == 0 {
      assert q[10..10 + |e.project|] == e.project;
      assert OccursAt(q, e.project, 10);
      ContainsExtended(q, e.project, e.lead, cells + rest);
      assert e.lead + q + (cells + rest) == TableText(rows, tail);
    } else {
      ProjectInTable(rows[1..], tail, k - 1);
      assert rows[1..][k - 1] == rows[k];
      ContainsExtended(rest, rows[k].project, e.lead + q + cells, "");
      assert e.lead + q + cells + rest + "" == TableText(rows, tail) by {
        Assoc(e.lead + q, cells, rest);
      }
    }
  }

  /** A table of one row, after a lead holding the table header: the header
      check finds the header. */
  lemma OneRowHeader(row: TableEntry, tail: string)
    requires HasProjectTable(row.lead)
    ensures HasProjectTable(TableText([row], tail))
  {
    var cells := TableRow(row.project, row.title, row.count) + tail;
    assert TableText([row], tail) == "" + row.lead + cells by {
      assert TableText([row][1..], tail) == tail;
    }
    if Contains(row.lead, "| Project") {
      ContainsExtended(row.lead, "| Project", "", cells);
    } else {
      ContainsExtended(row.lead, "|Project", "", cells);
    }
  }

  /** A table of one row whose project has no dots lists that project's
      dossier, and refers to that dossier only. */
  lemma OneRowDossier(row: TableEntry, tail: string)
    requires WellFormedEntry(row) && '.' !in row.project && '`' !in tail
    ensures AllDossiersInTable(TableText([row], tail), [row.project + ".md"])
    ensures TableReferencesExist(TableText([row], tail), [row.project + ".md"])
  {
    ProjectNameOfPlainName(row.project);
    ProjectInTable([row], tail, 0);
    TableReferencesTable([row], tail, [row.project + ".md"]);
  }

  /** The count check on a table of one row passes exactly when the row's
      log holds the declared number of rows. */
  lemma OneRowCount(row: TableEntry, tail: string, files: map<string, string>, b: bool)
    requires WellFormedEntry(row) && '`' !in tail
    requires row.project + ".observations.md" in files
    requires b == (DigitsValue(row.count) == ObservationLog.RowCount(files[row.project + ".observations.md"]))
    ensures CountsMatch(TableText([row], tail), files) == b
  {
    CountsMatchTable([row], tail, files);
  }
}

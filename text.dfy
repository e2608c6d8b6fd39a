/** Python string primitives used by both parts of the model: substring tests,
    `split`, `join`, `strip`, `replace`, digit runs and decimal conversion.
    Strings are sequences of Unicode scalar values; a Python `str` may also
    hold lone surrogate code points, which this model leaves out. */
module Text {

  datatype Option<+T> = None | Some(value: T)

  /** `s.startswith(p)` */
  predicate StartsWith(s: string, p: string) {
    |p| <= |s| && s[..|p|] == p
  }

  /** `s.endswith(p)` */
  predicate EndsWith(s: string, p: string) {
    |p| <= |s| && s[|s| - |p|..] == p
  }

  /** `pat` occurs in `text` at index `i`. */
  predicate OccursAt(text: string, pat: string, i: int) {
    0 <= i && i + |pat| <= |text| && text[i..i + |pat|] == pat
  }

  lemma Assoc(a: string, b: string, c: string)
    ensures a + b + c == a + (b + c)
  {
  }

  /** A prefix test for `a + b` is a prefix test for `a` followed by one for
      `b` on the rest. */
  lemma StartsWithConcat(s: string, a: string, b: string)
    ensures StartsWith(s, a + b) <==> StartsWith(s, a) && StartsWith(s[|a|..], b)
  {
    if StartsWith(s, a) && StartsWith(s[|a|..], b) {
      assert s[..|a| + |b|] == s[..|a|] + s[|a|..][..|b|];
    }
    if StartsWith(s, a + b) {
      assert s[..|a|] == (a + b)[..|a|];
      assert s[|a|..][..|b|] == (a + b)[|a|..];
    }
  }

  /** An occurrence at `i` is a prefix of the text from `i` on. */
  lemma OccursAtStartsWith(text: string, pat: string, i: nat)
    requires i <= |text|
    ensures OccursAt(text, pat, i) <==> StartsWith(text[i..], pat)
  {
    if i + |pat| <= |text| {
      assert text[i..][..|pat|] == text[i..i + |pat|];
    }
  }

  lemma SliceSplit(s: string, a: nat, b: nat, c: nat)
    requires a <= b <= c <= |s|
    ensures s[a..c] == s[a..b] + s[b..c]
  {
  }

  /** A suffix of `a + b` that starts inside `b` is a suffix of `b`. */
  lemma SuffixOfConcat(a: string, b: string, k: nat)
    requires k <= |b|
    ensures (a + b)[|a| + k..] == b[k..]
  {
    forall m | 0 <= m < |b| - k ensures (a + b)[|a| + k..][m] == b[k..][m] {
      assert (a + b)[|a| + k + m] == b[k + m];
    }
  }

  /** A prefix of a slice is a slice. */
  lemma SlicePrefix(s: string, a: nat, b: nat, c: nat)
    requires a <= b <= c <= |s|
    ensures s[a..c][..b - a] == s[a..b]
  {
    forall m | 0 <= m < b - a ensures s[a..c][..b - a][m] == s[a..b][m] {
      assert s[a..c][m] == s[a + m];
    }
  }

  /** A slice of a slice is a slice. */
  lemma SliceOfSlice(s: string, a: nat, c: nat, p: nat, q: nat)
    requires a <= c <= |s| && p <= q <= c - a
    ensures s[a..c][p..q] == s[a + p..a + q]
  {
    forall m | 0 <= m < q - p ensures s[a..c][p..q][m] == s[a + p..a + q][m] {
      assert s[a..c][p + m] == s[a + p + m];
    }
  }

  /** The pieces of an occurrence are the pieces of the pattern. */
  lemma OccurrenceSlice(text: string, pat: string, i: nat, a: nat, b: nat)
    requires OccursAt(text, pat, i) && a <= b <= |pat|
    ensures text[i + a..i + b] == pat[a..b]
  {
    forall m | 0 <= m < b - a ensures text[i + a..i + b][m] == pat[a..b][m] {
      assert pat[a + m] == text[i..i + |pat|][a + m];
    }
  }

  /** `pat in text` */
  predicate Contains(text: string, pat: string) {
    exists i | 0 <= i <= |text| - |pat| :: OccursAt(text, pat, i)
  }

  /** A substring stays a substring of any text that extends it on either side. */
  lemma ContainsExtended(text: string, pat: string, before: string, after: string)
    requires Contains(text, pat)
    ensures Contains(before + text + after, pat)
  {
    var i :| 0 <= i <= |text| - |pat| && OccursAt(text, pat, i);
    var big := before + text + after;
    assert big[|before| + i..|before| + i + |pat|] == text[i..i + |pat|];
    assert OccursAt(big, pat, |before| + i);
  }

  /** A substring of a slice of a text is a substring of the text. */
  lemma ContainsInSlice(t: string, a: nat, b: nat, pat: string)
    requires a <= b <= |t| && Contains(t[a..b], pat)
    ensures Contains(t, pat)
  {
    var i :| 0 <= i <= b - a - |pat| && OccursAt(t[a..b], pat, i);
    SliceOfSlice(t, a, b, i, i + |pat|);
    assert OccursAt(t, pat, a + i);
  }

  /** Where a text that reads `a + b` from index `i` on has its parts. */
  lemma DropPrefix(t: string, i: nat, a: string, b: string)
    requires i <= |t| && t[i..] == a + b
    ensures i + |a| <= |t| && t[i + |a|..] == b
    ensures forall x | i <= x < i + |a| :: t[x] == a[x - i]
  {
    assert t[i + |a|..] == t[i..][|a|..];
    forall x | i <= x < i + |a| ensures t[x] == a[x - i] {
      assert t[x] == t[i..][x - i];
    }
  }

  /** No occurrence of `pat` starts at a character other than its first. */
  lemma NoOccurrenceAt(t: string, pat: string, x: nat)
    requires x < |t| && |pat| > 0 && t[x] != pat[0]
    ensures !OccursAt(t, pat, x) && !StartsWith(t[x..], pat)
  {
    assert |pat| <= |t[x..]| ==> t[x..][..|pat|][0] == t[x];
  }

  // ---------------------------------------------------------------------------
  // Counting, splitting and joining

  /** `sep.join(parts)` */
  function Join(parts: seq<string>, sep: string): (r: string)
    ensures |parts| == 1 ==> r == parts[0]
  {
    if |parts| == 0 then ""
    else if |parts| == 1 then parts[0]
    else parts[0] + sep + Join(parts[1..], sep)
  }

  /** `s.split(sep)` for a one-character separator: the pieces between the
      separators, in order; the empty string splits into one empty piece. */
  function Split(s: string, sep: char): (parts: seq<string>)
    ensures |parts| > 0
    decreases |s|
  {
    if |s| == 0 then [""]
    else
      var rest := Split(s[1..], sep);
      if s[0] == sep then [""] + rest
      else [[s[0]] + rest[0]] + rest[1..]
  }

  lemma JoinCons(a: string, rest: seq<string>, sep: string)
    requires |rest| > 0
    ensures Join([a] + rest, sep) == a + sep + Join(rest, sep)
  {
    assert ([a] + rest)[1..] == rest;
  }

  /** A separator in front: an empty first piece. */
  lemma JoinEmptyFirst(rest: seq<string>, sep: string)
    requires |rest| > 0
    ensures Join([""] + rest, sep) == sep + Join(rest, sep)
  {
    JoinCons("", rest, sep);
  }

  /** Any other character in front: it joins the first piece. */
  lemma JoinExtendFirst(c: char, rest: seq<string>, sep: string)
    requires |rest| > 0
    ensures Join([[c] + rest[0]] + rest[1..], sep) == [c] + Join(rest, sep)
  {
    if |rest| > 1 {
      JoinCons([c] + rest[0], rest[1..], sep);
      JoinCons(rest[0], rest[1..], sep);
      assert [rest[0]] + rest[1..] == rest;
    } else {
      assert [[c] + rest[0]] + rest[1..] == [[c] + rest[0]];
    }
  }

  /** One step of `split`: the first character either ends the first piece or
      joins it. */
  lemma SplitCons(s: string, sep: char)
    requires |s| > 0
    ensures s[0] == sep ==> Split(s, sep) == [""] + Split(s[1..], sep)
    ensures s[0] != sep ==>
      Split(s, sep) == [[s[0]] + Split(s[1..], sep)[0]] + Split(s[1..], sep)[1..]
  {
  }

  /** Joining the pieces with the separator gives back the text. */
  lemma {:induction false} JoinSplit(s: string, sep: char)
    ensures Join(Split(s, sep), [sep]) == s
    decreases |s|
  {
    if |s| > 0 {
      var rest := Split(s[1..], sep);
      JoinSplit(s[1..], sep);
      SplitCons(s, sep);
      if s[0] == sep {
        JoinEmptyFirst(rest, [sep]);
        assert Join(Split(s, sep), [sep]) == [sep] + s[1..];
      } else {
        JoinExtendFirst(s[0], rest, [sep]);
        assert Join(Split(s, sep), [sep]) == [s[0]] + s[1..];
      }
      assert [s[0]] + s[1..] == s;
    }
  }

  /** `split` gives one more piece than there are separators, and no piece
      holds a separator. */
  lemma {:induction false} SplitPieces(s: string, sep: char)
    ensures |Split(s, sep)| == multiset(s)[sep] + 1
    ensures forall k | 0 <= k < |Split(s, sep)| :: sep !in Split(s, sep)[k]
    decreases |s|
  {
    if |s| > 0 {
      var rest := Split(s[1..], sep);
      SplitPieces(s[1..], sep);
      SplitCons(s, sep);
      assert s == [s[0]] + s[1..];
      assert multiset(s) == multiset{s[0]} + multiset(s[1..]);
      if s[0] != sep {
        var parts := Split(s, sep);
        forall k | 0 <= k < |parts| ensures sep !in parts[k] {
          if k == 0 {
            assert parts[0] == [s[0]] + rest[0];
          } else {
            assert parts[k] == rest[k];
          }
        }
      } else {
        var parts := Split(s, sep);
        forall k | 0 <= k < |parts| ensures sep !in parts[k] {
          if k > 0 {
            assert parts[k] == rest[k - 1];
          }
        }
      }
    }
  }

  // ---------------------------------------------------------------------------
  // Whitespace and `strip`

  /** `c.isspace()`: the characters Python classes as whitespace. */
  predicate IsSpace(c: char) {
    ('\t' <= c <= '\r') || ('\U{1C}' <= c <= ' ') || c == '\U{85}' || c == '\U{A0}'
    || c == '\U{1680}' || ('\U{2000}' <= c <= '\U{200A}') || c == '\U{2028}' || c == '\U{2029}'
    || c == '\U{202F}' || c == '\U{205F}' || c == '\U{3000}'
  }

  predicate AllSpace(s: string) {
    forall k | 0 <= k < |s| :: IsSpace(s[k])
  }

  /** The number of whitespace characters at the start of `s`. */
  function LeadingSpaces(s: string): (n: nat)
    ensures n <= |s| && AllSpace(s[..n])
    ensures n < |s| ==> !IsSpace(s[n])
    decreases |s|
  {
    if |s| > 0 && IsSpace(s[0]) then 1 + LeadingSpaces(s[1..]) else 0
  }

  /** The index where the whitespace at the end of `s` begins. */
  function TrailingStart(s: string): (n: nat)
    ensures n <= |s| && AllSpace(s[n..])
    ensures n > 0 ==> !IsSpace(s[n - 1])
    decreases |s|
  {
    if |s| > 0 && IsSpace(s[|s| - 1]) then
      var n := TrailingStart(s[..|s| - 1]);
      assert s[n..] == s[..|s| - 1][n..] + [s[|s| - 1]];
      n
    else |s|
  }

  /** `s.strip()`: `s` without the whitespace at either end. */
  function Strip(s: string): (r: string)
    ensures exists i, j | 0 <= i <= j <= |s| :: r == s[i..j] && AllSpace(s[..i]) && AllSpace(s[j..])
    ensures |r| == 0 || (!IsSpace(r[0]) && !IsSpace(r[|r| - 1]))
  {
    var i := LeadingSpaces(s);
    var t := s[i..];
    var j := TrailingStart(t);
    assert s[i + j..] == t[j..];
    assert t[..j] == s[i..i + j];
    t[..j]
  }

  lemma {:induction false} LeadingSpacesPadded(w: string, s: string)
    requires AllSpace(w)
    ensures LeadingSpaces(w + s) == |w| + LeadingSpaces(s)
    decreases |w|
  {
    if |w| > 0 {
      assert (w + s)[1..] == w[1..] + s;
      LeadingSpacesPadded(w[1..], s);
    } else {
      assert w + s == s;
    }
  }

  lemma {:induction false} LeadingSpacesAppended(s: string, w: string)
    requires LeadingSpaces(s) < |s|
    ensures LeadingSpaces(s + w) == LeadingSpaces(s)
    decreases |s|
  {
    if IsSpace(s[0]) {
      assert (s + w)[1..] == s[1..] + w;
      LeadingSpacesAppended(s[1..], w);
    }
  }

  lemma {:induction false} TrailingStartAppended(s: string, w: string)
    requires AllSpace(w)
    ensures TrailingStart(s + w) == TrailingStart(s)
    decreases |w|
  {
    if |w| > 0 {
      var v := w[..|w| - 1];
      assert (s + w)[..|s + w| - 1] == s + v;
      TrailingStartAppended(s, v);
    } else {
      assert s + w == s;
    }
  }

  lemma StripSpacePrefix(before: string, x: string)
    requires AllSpace(before)
    ensures Strip(before + x) == Strip(x)
  {
    var y := before + x;
    var i := LeadingSpaces(x);
    LeadingSpacesPadded(before, x);
    SuffixOfConcat(before, x, i);
    StripSameRest(y, |before| + i, x, i);
  }

  /** Two texts whose parts after the leading whitespace agree strip alike. */
  lemma StripSameRest(y: string, j: nat, x: string, i: nat)
    requires j == LeadingSpaces(y) && i == LeadingSpaces(x) && y[j..] == x[i..]
    ensures Strip(y) == Strip(x)
  {
    StripFrom(y, j);
    StripFrom(x, i);
  }

  /** `strip` from the end of the leading whitespace. */
  lemma StripFrom(s: string, i: nat)
    requires i == LeadingSpaces(s)
    ensures Strip(s) == s[i..][..TrailingStart(s[i..])]
  {
  }

  lemma StripSpaceSuffix(x: string, after: string)
    requires AllSpace(after)
    ensures Strip(x + after) == Strip(x)
  {
    var i := LeadingSpaces(x);
    if i < |x| {
      LeadingSpacesAppended(x, after);
      assert (x + after)[i..] == x[i..] + after;
      TrailingStartAppended(x[i..], after);
    } else {
      LeadingSpacesPadded(x, after);
      LeadingSpacesPadded(after, "");
      assert after + "" == after;
    }
  }

  /** Whitespace around a text does not change what `strip` returns. */
  lemma StripPadded(before: string, s: string, after: string)
    requires AllSpace(before) && AllSpace(after)
    ensures Strip(before + s + after) == Strip(s)
  {
    StripSpaceSuffix(before + s, after);
    StripSpacePrefix(before, s);
  }

  // ---------------------------------------------------------------------------
  // `str.replace`

  /** `s.replace(pat, rep)`: every occurrence of `pat`, scanned from the left
      without overlap, becomes `rep`. Every call in the source uses a non-empty
      pattern. */
  function ReplaceAll(s: string, pat: string, rep: string): string
    requires |pat| > 0
    decreases |s|
  {
    if |s| == 0 then ""
    else if StartsWith(s, pat) then rep + ReplaceAll(s[|pat|..], pat, rep)
    else [s[0]] + ReplaceAll(s[1..], pat, rep)
  }

  /** A prefix without the pattern's first character passes through `replace`
      unchanged. */
  lemma {:induction false} ReplaceAllSkips(x: string, y: string, pat: string, rep: string)
    requires |pat| > 0 && pat[0] !in x
    ensures ReplaceAll(x + y, pat, rep) == x + ReplaceAll(y, pat, rep)
    decreases |x|
  {
    if |x| > 0 {
      assert (x + y)[0] == x[0] && (x + y)[1..] == x[1..] + y;
      ReplaceAllSkips(x[1..], y, pat, rep);
      assert x == [x[0]] + x[1..];
    } else {
      assert x + y == y;
    }
  }

  /** A text that does not start with the pattern, and holds no further copy
      of the pattern's first character, passes through untouched. */
  lemma ReplaceAllPassesPrefix(p: string, rest: string, pat: string, rep: string)
    requires |p| > 0 && |pat| > 0 && !StartsWith(p + rest, pat) && pat[0] !in p[1..]
    ensures ReplaceAll(p + rest, pat, rep) == p + ReplaceAll(rest, pat, rep)
  {
    var u := p + rest;
    var tail := ReplaceAll(rest, pat, rep);
    assert u[0] == p[0] && u[1..] == p[1..] + rest;
    assert ReplaceAll(u, pat, rep) == [p[0]] + ReplaceAll(p[1..] + rest, pat, rep);
    ReplaceAllSkips(p[1..], rest, pat, rep);
    assert [p[0]] + (p[1..] + tail) == ([p[0]] + p[1..]) + tail;
    assert [p[0]] + p[1..] == p;
  }

  /** An occurrence of the pattern at the front is replaced. */
  lemma ReplaceAllHit(y: string, pat: string, rep: string)
    requires |pat| > 0
    ensures ReplaceAll(pat + y, pat, rep) == rep + ReplaceAll(y, pat, rep)
  {
    assert (pat + y)[..|pat|] == pat;
    assert (pat + y)[|pat|..] == y;
  }

  // ---------------------------------------------------------------------------
  // Character classes, runs and decimal numbers

  /** The character classes the source's patterns use. `Digit` and `Word` are
      the ASCII parts of `\d` and `\w`. */
  datatype CharClass = Digit | DateChar | Word | NotBacktick | NotBar | NotNewline | Space

  predicate IsDigit(c: char) {
    '0' <= c <= '9'
  }

  predicate InClass(c: char, k: CharClass) {
    match k
    case Digit => IsDigit(c)
    case DateChar => IsDigit(c) || c == '-'
    case Word => IsDigit(c) || ('a' <= c <= 'z') || ('A' <= c <= 'Z') || c == '_'
    case NotBacktick => c != '`'
    case NotBar => c != '|'
    case NotNewline => c != '\n'
    case Space => IsSpace(c)
  }

  predicate AllIn(s: string, k: CharClass) {
    forall m | 0 <= m < |s| :: InClass(s[m], k)
  }

  /** The length of the longest prefix of `s` drawn from class `k`: what a
      greedy `[k]*` consumes. */
  function Span(s: string, k: CharClass): (n: nat)
    ensures n <= |s| && AllIn(s[..n], k)
    ensures n < |s| ==> !InClass(s[n], k)
    decreases |s|
  {
    if |s| > 0 && InClass(s[0], k) then 1 + Span(s[1..], k) else 0
  }

  /** A prefix of class `k` followed by a character outside it (or by the end)
      is the longest such prefix. */
  lemma SpanExact(s: string, k: CharClass, n: nat)
    requires n <= |s| && AllIn(s[..n], k)
    requires n < |s| ==> !InClass(s[n], k)
    ensures Span(s, k) == n
  {
  }

  /** The run of class `k` that starts at index `i` of `t`, in terms of `t`'s
      own indices. */
  lemma SpanInText(t: string, i: nat, k: CharClass)
    requires i <= |t|
    ensures i + Span(t[i..], k) <= |t|
    ensures forall p | i <= p < i + Span(t[i..], k) :: InClass(t[p], k)
    ensures i + Span(t[i..], k) < |t| ==> !InClass(t[i + Span(t[i..], k)], k)
  {
    var n := Span(t[i..], k);
    forall p | i <= p < i + n ensures InClass(t[p], k) {
      assert t[p] == t[i..][..n][p - i];
    }
  }

  /** A run of class `k` in front of `b` adds its length to the run. */
  lemma {:induction false} SpanConcat(a: string, b: string, k: CharClass)
    requires AllIn(a, k)
    ensures Span(a + b, k) == |a| + Span(b, k)
    decreases |a|
  {
    if |a| > 0 {
      assert (a + b)[0] == a[0];
      assert (a + b)[1..] == a[1..] + b;
      assert Span(a + b, k) == 1 + Span((a + b)[1..], k);
      assert AllIn(a[1..], k) by {
        forall m | 0 <= m < |a| - 1 ensures InClass(a[1..][m], k) {
          assert a[1..][m] == a[m + 1];
        }
      }
      SpanConcat(a[1..], b, k);
    } else {
      assert a + b == b;
    }
  }

  predicate AllDigits(s: string) {
    AllIn(s, Digit)
  }

  /** `int(d)` for a string of ASCII digits. */
  function DigitsValue(d: string): nat
    requires AllDigits(d)
    decreases |d|
  {
    if |d| == 0 then 0
    else
      10 * DigitsValue(d[..|d| - 1]) + (d[|d| - 1] as int - '0' as int)
  }

  /** `str(n)` for a natural number: decimal digits, no leading zero. */
  function NatToString(n: nat): (r: string)
    ensures |r| > 0 && AllDigits(r)
    ensures |r| > 1 ==> r[0] != '0'
    decreases n
  {
    var last := [(('0' as int) + n % 10) as char];
    if n < 10 then last
    else
      var front := NatToString(n / 10);
      assert (front + last)[0] == front[0];
      front + last
  }

  /** `str(n)` for an integer. */
  function IntToString(n: int): string {
    if n < 0 then "-" + NatToString(-n) else NatToString(n)
  }

  /** Reading back a printed number gives the number. */
  lemma {:induction false} NatToStringValue(n: nat)
    ensures DigitsValue(NatToString(n)) == n
    decreases n
  {
    if n >= 10 {
      NatToStringValue(n / 10);
      var r := NatToString(n);
      assert r[..|r| - 1] == NatToString(n / 10);
    }
  }
}

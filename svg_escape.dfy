/** `esc` of the SVG generator: the escape of XML character data and
    double-quoted attribute values (section 2.4 and the AttValue production of
    section 2.3 of XML 1.0, Fifth Edition), written as four `replace` calls. */
module SvgEscape {
  import opened Text

  /** `esc(s)` as written: `&` first, then `<`, `>` and `"`. */
  function Esc(s: string): string {
    ReplaceAll(ReplaceAll(ReplaceAll(ReplaceAll(s, "&", "&amp;"), "<", "&lt;"), ">", "&gt;"), "\"", "&quot;")
  }

  /** The characters `esc` replaces. */
  const Specials: set<char> := {'&', '<', '>', '"'}

  /** The entity that stands for a special character. */
  function Entity(c: char): string {
    if c == '&' then "&amp;"
    else if c == '<' then "&lt;"
    else if c == '>' then "&gt;"
    else if c == '"' then "&quot;"
    else [c]
  }

  /** One character of the input with the characters of `S` escaped. */
  function Piece(c: char, S: set<char>): string {
    if c in S then Entity(c) else [c]
  }

  /** The reference escape: each character of `S` replaced by its entity,
      the others kept, character by character. */
  function EscapeWith(s: string, S: set<char>): string
    decreases |s|
  {
    if |s| == 0 then "" else Piece(s[0], S) + EscapeWith(s[1..], S)
  }

  lemma {:induction false} EscapeNothing(s: string)
    ensures EscapeWith(s, {}) == s
    decreases |s|
  {
    if |s| > 0 {
      EscapeNothing(s[1..]);
      assert s == [s[0]] + s[1..];
    }
  }

  /** Replacing one more special character, which no entity emitted so far
      contains, escapes that character as well. */
  lemma {:induction false} EscapeStep(s: string, S: set<char>, c: char)
    requires S <= Specials && c in Specials && c !in S
    requires forall x | x in S :: c !in Entity(x)
    ensures ReplaceAll(EscapeWith(s, S), [c], Entity(c)) == EscapeWith(s, S + {c})
    decreases |s|
  {
    if |s| > 0 {
      var rest := EscapeWith(s[1..], S);
      EscapeStep(s[1..], S, c);
      if s[0] == c {
        ReplaceAllHit(rest, [c], Entity(c));
      } else {
        ReplaceAllSkips(Piece(s[0], S), rest, [c], Entity(c));
        assert Piece(s[0], S + {c}) == Piece(s[0], S);
      }
    }
  }

  lemma EscStageAmp(s: string)
    ensures ReplaceAll(s, "&", "&amp;") == EscapeWith(s, {'&'})
  {
    EscapeNothing(s);
    EscapeStep(s, {}, '&');
    assert {} + {'&'} == {'&'};
  }

  lemma EscStageLt(s: string)
    ensures ReplaceAll(EscapeWith(s, {'&'}), "<", "&lt;") == EscapeWith(s, {'&', '<'})
  {
    EscapeStep(s, {'&'}, '<');
    assert {'&'} + {'<'} == {'&', '<'};
  }

  lemma EscStageGt(s: string)
    ensures ReplaceAll(EscapeWith(s, {'&', '<'}), ">", "&gt;") == EscapeWith(s, {'&', '<', '>'})
  {
    EscapeStep(s, {'&', '<'}, '>');
    assert {'&', '<'} + {'>'} == {'&', '<', '>'};
  }

  lemma EscStageQuot(s: string)
    ensures ReplaceAll(EscapeWith(s, {'&', '<', '>'}), "\"", "&quot;") == EscapeWith(s, Specials)
  {
    EscapeStep(s, {'&', '<', '>'}, '"');
    assert {'&', '<', '>'} + {'"'} == Specials;
  }

  /** The chained `replace` escapes each special character on its own, because
      `&` is replaced before any entity that contains it is written. */
  lemma EscIsPerChar(s: string)
    ensures Esc(s) == EscapeWith(s, Specials)
  {
    EscStageAmp(s);
    EscStageLt(s);
    EscStageGt(s);
    EscStageQuot(s);
  }

  /** `&` first matters: replacing it last would escape the ampersand of
      every entity already written. */
  function EscAmpersandLast(s: string): string {
    ReplaceAll(ReplaceAll(ReplaceAll(ReplaceAll(s, "<", "&lt;"), ">", "&gt;"), "\"", "&quot;"), "&", "&amp;")
  }

  lemma EscapeOrderMatters()
    ensures Esc("<") == "&lt;"
    ensures EscAmpersandLast("<") == "&amp;lt;"
  {
    EscIsPerChar("<");
    assert EscapeWith("<", Specials) == Entity('<') + EscapeWith("", Specials);
    ReplaceAllHit("", "<", "&lt;");
    assert "<" == "<" + "";
    ReplaceAllSkips("&lt;", "", ">", "&gt;");
    ReplaceAllSkips("&lt;", "", "\"", "&quot;");
    assert "&lt;" + "" == "&lt;";
    assert "&lt;" == "&" + "lt;";
    ReplaceAllHit("lt;", "&", "&amp;");
    ReplaceAllSkips("lt;", "", "&", "&amp;");
    assert "lt;" + "" == "lt;";
  }

  // ---------------------------------------------------------------------------
  // Undoing the escape

  /** Undoing `&quot;`, `&gt;`, `&lt;` and then `&amp;`. */
  function Unescape(t: string): string {
    ReplaceAll(ReplaceAll(ReplaceAll(ReplaceAll(t, "&quot;", "\""), "&gt;", ">"), "&lt;", "<"), "&amp;", "&")
  }

  /** Every entity starts with its only `&`. */
  lemma EntityShape(x: char)
    requires x in Specials
    ensures |Entity(x)| >= 2 && Entity(x)[0] == '&' && '&' !in Entity(x)[1..]
  {
  }

  /** Two different entities differ in their second character. */
  lemma EntitiesDiffer(x: char, c: char)
    requires x in Specials && c in Specials && x != c
    ensures |Entity(x)| >= 2 && |Entity(c)| >= 2 && Entity(x)[1] != Entity(c)[1]
  {
  }

  /** An entity other than the one being undone passes through: the two
      differ in their second character. */
  lemma PassEntity(x: char, c: char, rest: string)
    requires x in Specials && c in Specials && x != c
    ensures ReplaceAll(Entity(x) + rest, Entity(c), [c]) == Entity(x) + ReplaceAll(rest, Entity(c), [c])
  {
    var p := Entity(x);
    var q := Entity(c);
    EntityShape(x);
    EntityShape(c);
    EntitiesDiffer(x, c);
    assert (p + rest)[1] == p[1] != q[1];
    ReplaceAllPassesPrefix(p, rest, q, [c]);
  }

  /** Undoing the entity of an escaped character, when `&` is escaped too and
      is undone last, unescapes that character. */
  lemma {:induction false} UnescapeStep(s: string, S: set<char>, c: char)
    requires S <= Specials && c in S && '&' in S
    requires c == '&' ==> S == {'&'}
    ensures ReplaceAll(EscapeWith(s, S), Entity(c), [c]) == EscapeWith(s, S - {c})
    decreases |s|
  {
    if |s| > 0 {
      var rest := EscapeWith(s[1..], S);
      UnescapeStep(s[1..], S, c);
      if s[0] == c {
        ReplaceAllHit(rest, Entity(c), [c]);
      } else if s[0] in S {
        PassEntity(s[0], c, rest);
      } else {
        ReplaceAllSkips([s[0]], rest, Entity(c), [c]);
      }
    }
  }

  /** The round trip: undoing the four entities in reverse order gives back the
      original text. */
  lemma EscRoundTrip(s: string)
    ensures Unescape(Esc(s)) == s
  {
    EscIsPerChar(s);
    UnescapeStep(s, Specials, '"');
    assert Specials - {'"'} == {'&', '<', '>'};
    UnescapeStep(s, {'&', '<', '>'}, '>');
    assert {'&', '<', '>'} - {'>'} == {'&', '<'};
    UnescapeStep(s, {'&', '<'}, '<');
    assert {'&', '<'} - {'<'} == {'&'};
    UnescapeStep(s, {'&'}, '&');
    assert {'&'} - {'&'} == {};
    EscapeNothing(s);
  }

  // ---------------------------------------------------------------------------
  // Length, identity and the shape of the output

  /** The weight of a text: its length plus what escaping adds. */
  function Weight(m: multiset<char>, n: nat): nat {
    n + 4 * m['&'] + 3 * m['<'] + 3 * m['>'] + 5 * m['"']
  }

  lemma PieceLength(c: char)
    ensures |Piece(c, Specials)| == Weight(multiset{c}, 1)
  {
  }

  lemma WeightAdd(m1: multiset<char>, n1: nat, m2: multiset<char>, n2: nat)
    ensures Weight(m1 + m2, n1 + n2) == Weight(m1, n1) + Weight(m2, n2)
  {
  }

  lemma {:induction false} EscapeLength(s: string)
    ensures |EscapeWith(s, Specials)| == Weight(multiset(s), |s|)
    decreases |s|
  {
    if |s| > 0 {
      EscapeLength(s[1..]);
      PieceLength(s[0]);
      assert s == [s[0]] + s[1..];
      assert multiset(s) == multiset{s[0]} + multiset(s[1..]);
      WeightAdd(multiset{s[0]}, 1, multiset(s[1..]), |s| - 1);
    }
  }

  /** Each `&` adds four characters, each `<` and `>` three, each `"` five. */
  lemma EscLength(s: string)
    ensures |Esc(s)| ==
      |s| + 4 * multiset(s)['&'] + 3 * multiset(s)['<'] + 3 * multiset(s)['>'] + 5 * multiset(s)['"']
  {
    EscIsPerChar(s);
    EscapeLength(s);
    assert Weight(multiset(s), |s|) ==
      |s| + 4 * multiset(s)['&'] + 3 * multiset(s)['<'] + 3 * multiset(s)['>'] + 5 * multiset(s)['"'];
  }

  lemma {:induction false} EscapeIdentity(s: string)
    requires forall i | 0 <= i < |s| :: s[i] !in Specials
    ensures EscapeWith(s, Specials) == s
    decreases |s|
  {
    if |s| > 0 {
      EscapeIdentity(s[1..]);
      assert s == [s[0]] + s[1..];
    }
  }

  /** A text without special characters is its own escape. */
  lemma EscIdentity(s: string)
    requires forall i | 0 <= i < |s| :: s[i] !in Specials
    ensures Esc(s) == s
  {
    EscIsPerChar(s);
    EscapeIdentity(s);
  }

  /** The text at `t` starts with one of the four entities. */
  predicate StartsWithEntity(t: string) {
    StartsWith(t, "&amp;") || StartsWith(t, "&lt;") || StartsWith(t, "&gt;") || StartsWith(t, "&quot;")
  }

  /** Escaped text: no `<`, `>` or `"`, and every `&` starts an entity. */
  predicate WellEscaped(r: string) {
    forall i | 0 <= i < |r| :: r[i] != '<' && r[i] != '>' && r[i] != '"' && (r[i] == '&' ==> StartsWithEntity(r[i..]))
  }

  lemma PieceWellEscaped(c: char, rest: string)
    ensures var p := Piece(c, Specials);
      forall i | 0 <= i < |p| :: (p + rest)[i] != '<' && (p + rest)[i] != '>' && (p + rest)[i] != '"'
        && ((p + rest)[i] == '&' ==> i == 0 && StartsWith(p + rest, p) && p == Entity(c))
  {
    var p := Piece(c, Specials);
    assert (p + rest)[..|p|] == p;
  }

  lemma {:induction false} EscapeWellEscaped(s: string)
    ensures WellEscaped(EscapeWith(s, Specials))
    decreases |s|
  {
    if |s| > 0 {
      var p := Piece(s[0], Specials);
      var rest := EscapeWith(s[1..], Specials);
      var r := p + rest;
      EscapeWellEscaped(s[1..]);
      PieceWellEscaped(s[0], rest);
      forall i | 0 <= i < |r|
        ensures r[i] != '<' && r[i] != '>' && r[i] != '"' && (r[i] == '&' ==> StartsWithEntity(r[i..]))
      {
        if i >= |p| {
          assert r[i] == rest[i - |p|];
          assert r[i..] == rest[i - |p|..];
        } else if r[i] == '&' {
          assert r[i..] == r;
        }
      }
    }
  }

  /** The output of `esc` holds no `<`, `>` or `"`, and each `&` in it begins
      `&amp;`, `&lt;`, `&gt;` or `&quot;`. */
  lemma EscWellEscaped(s: string)
    ensures WellEscaped(Esc(s))
  {
    EscIsPerChar(s);
    EscapeWellEscaped(s);
  }
}

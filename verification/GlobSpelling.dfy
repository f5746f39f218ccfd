/** How glob patterns are written: every list of tokens can be spelled, and is read back from its spelling. */
module GlobSpelling {
  import opened Bytes
  import opened Glob

  // ── Spelling ─────────────────────────────────────────────────────────

  /** `\lo-\hi`. */
  function SpellRange(r: Range): (s: Bytes)
    ensures |s| == 5
  {
    [92, r.lo, 45, 92, r.hi]
  }

  function SpellRanges(rs: seq<Range>): (s: Bytes)
    ensures |s| == 5 * |rs|
  {
    if rs == [] then [] else SpellRange(rs[0]) + SpellRanges(rs[1..])
  }

  /** `\b`, `?`, `*`, `[\a-\b\c-\d]` or `[^\a-\b]`; nothing is spelled for a token that stands for nothing. */
  function SpellToken(t: Token): Bytes {
    match t
    case Lit(b) => [92, b]
    case Any => [63]
    case Star => [42]
    case Class(negate, ranges) => (if negate then [91, 94] else [91]) + (SpellRanges(ranges) + [93])
    case Never => []
  }

  function Spell(ts: seq<Token>): Bytes {
    if ts == [] then [] else SpellToken(ts[0]) + Spell(ts[1..])
  }

  ghost predicate Spellable(ts: seq<Token>) {
    forall i :: 0 <= i < |ts| ==> !ts[i].Never?
  }

  // ── Reading back ─────────────────────────────────────────────────────

  lemma {:induction false} ItemBack(p: Bytes, i: nat, r: Range)
    requires At(p, i, SpellRange(r)) && i < |p|
    ensures ItemAt(p, i) == (r, i + 5)
  {
    AtSlice(p, i, SpellRange(r));
    var s := p[i..i + 5];
    assert s == SpellRange(r);
    assert s[0] == p[i] && s[1] == p[i + 1] && s[2] == p[i + 2] && s[3] == p[i + 3] && s[4] == p[i + 4];
  }

  lemma {:induction false} ItemsBack(p: Bytes, i: nat, rs: seq<Range>)
    requires At(p, i, SpellRanges(rs) + [93]) && i <= |p|
    ensures ClassItems(p, i) == (rs, i + 5 * |rs|)
    decreases |rs|
  {
    AtSplit(p, i, SpellRanges(rs), [93]);
    if rs == [] {
      assert p[i] == 93;
    } else {
      var one, rest := SpellRange(rs[0]), SpellRanges(rs[1..]);
      assert SpellRanges(rs) + [93] == one + (rest + [93]);
      AtSplit(p, i, one, rest + [93]);
      assert p[i] == one[0] && rs == [rs[0]] + rs[1..];
      ItemBack(p, i, rs[0]);
      ItemsBack(p, i + 5, rs[1..]);
    }
  }

  lemma {:induction false} AtFrom(p: Bytes, i: nat, s: Bytes)
    requires At(p, i, s) && i <= |p|
    ensures At(p[i..], 0, s)
  {
    AtSlice(p, i, s);
    AtSlice(p[i..], 0, s);
    assert p[i..][0..|s|] == p[i..i + |s|];
  }

  lemma {:induction false} ClassBack(p: Bytes, negate: bool, rs: seq<Range>)
    requires At(p, 0, SpellToken(Class(negate, rs))) && p != []
    ensures ClassAt(p) == (Class(negate, rs), |SpellToken(Class(negate, rs))|)
  {
    var open, items := if negate then [91, 94] else [91], SpellRanges(rs) + [93];
    AtSplit(p, 0, open, items);
    AtSlice(p, |open|, items);
    assert p[|open|] == items[0] && (items[0] == 92 || items[0] == 93);
    if negate { AtSlice(p, 0, open); assert p[0..2][1] == p[1]; }
    ItemsBack(p, |open|, rs);
    AtSplit(p, |open|, SpellRanges(rs), [93]);
  }

  lemma {:induction false} ClassTokenBack(p: Bytes, i: nat, negate: bool, rs: seq<Range>, s: Bytes)
    requires s == SpellToken(Class(negate, rs)) && At(p, i, s) && i < |p|
    ensures TokenAt(p, i) == (Class(negate, rs), i + |s|)
  {
    assert p[i] == s[0] == 91;
    AtFrom(p, i, s);
    ClassBack(p[i..], negate, rs);
  }

  lemma {:induction false} TokenBack(p: Bytes, i: nat, t: Token, s: Bytes)
    requires s == SpellToken(t) && At(p, i, s) && i < |p| && !t.Never?
    ensures TokenAt(p, i) == (t, i + |s|) && |s| > 0
  {
    if t.Class? {
      ClassTokenBack(p, i, t.negate, t.ranges, s);
    } else {
      assert p[i] == s[0];
      if t.Lit? {
        AtSlice(p, i, s);
        assert p[i..i + 2][1] == p[i + 1];
      }
    }
  }

  lemma {:induction false} TokensStep(p: Bytes, i: nat, t: Token, next: nat, ts: seq<Token>)
    requires i < |p| && TokenAt(p, i) == (t, next) && next <= |p| && ts != [] && ts[0] == t && Tokens(p, next) == ts[1..]
    ensures Tokens(p, i) == ts
  {
    assert ts == [t] + ts[1..];
  }

  lemma {:induction false} SpelledAt(p: Bytes, i: nat, ts: seq<Token>, first: Bytes, rest: Bytes)
    requires ts != [] && !ts[0].Never? && first == SpellToken(ts[0]) && rest == Spell(ts[1..]) && At(p, i, Spell(ts))
    ensures At(p, i, first) && At(p, i + |first|, rest) && |Spell(ts)| == |first| + |rest| && |first| > 0
  {
    SpellsFirst(ts[0]);
    AtSplit(p, i, first, rest);
  }

  lemma {:induction false} TokensBack(p: Bytes, i: nat, ts: seq<Token>)
    requires i <= |p| && At(p, i, Spell(ts)) && i + |Spell(ts)| == |p| && Spellable(ts)
    ensures Tokens(p, i) == ts
    decreases |ts|
  {
    if ts != [] {
      var first, rest, next := SpellToken(ts[0]), Spell(ts[1..]), i + |SpellToken(ts[0])|;
      SpelledAt(p, i, ts, first, rest);
      TokensBack(p, next, ts[1..]);
      TokenBack(p, i, ts[0], first);
      TokensStep(p, i, ts[0], next, ts);
    }
  }

  lemma {:induction false} SpellsFirst(t: Token)
    requires !t.Never?
    ensures |SpellToken(t)| > 0
  {}

  /** The round trip: every list of tokens is read back from its spelling, so the pattern means exactly that list. */
  lemma {:induction false} SpellingReadsBack(ts: seq<Token>, text: Bytes)
    requires Spellable(ts)
    ensures Tokens(Spell(ts), 0) == ts && (GlobMatches(Spell(ts), text) <==> Matches(ts, text))
  {
    var p := Spell(ts);
    AtSlice(p, 0, p);
    TokensBack(p, 0, ts);
  }

  // ── Patterns without escapes ─────────────────────────────────────────

  /** None of `*`, `?`, `[` and `\`. */
  predicate Ordinary(b: byte) {
    b != 42 && b != 63 && b != 91 && b != 92
  }

  lemma {:induction false} OrdinaryFrom(p: Bytes, i: nat, text: Bytes)
    requires i <= |p| && forall k :: 0 <= k < |p| ==> Ordinary(p[k])
    ensures Matches(Tokens(p, i), text) <==> text == p[i..]
    decreases |p| - i
  {
    if i < |p| {
      assert p[i..] == [p[i]] + p[i + 1..];
      if text != [] {
        assert text == [text[0]] + text[1..];
        OrdinaryFrom(p, i + 1, text[1..]);
      }
    }
  }

  /** A pattern of ordinary bytes matches itself and nothing else. */
  lemma {:induction false} OrdinaryMatchesItself(p: Bytes, text: Bytes)
    requires forall k :: 0 <= k < |p| ==> Ordinary(p[k])
    ensures GlobMatches(p, text) <==> text == p
  {
    OrdinaryFrom(p, 0, text);
    assert p[0..] == p;
  }

  /** A byte a class can list as it is: none of `]`, `\` and `-`. */
  predicate Listable(b: byte) {
    b != 93 && b != 92 && b != 45
  }

  lemma {:induction false} ListedItems(p: Bytes, i: nat, end: nat, ch: byte)
    requires i <= end <= |p| && (end == |p| || p[end] == 93) && forall k :: i <= k < end ==> Listable(p[k])
    ensures ClassItems(p, i).1 == end && (InRanges(ClassItems(p, i).0, ch) <==> ch in p[i..end])
    decreases end - i
  {
    if i < end {
      assert ItemAt(p, i) == (Range(p[i], p[i]), i + 1);
      ListedItems(p, i + 1, end, ch);
      InRangesCons(Range(p[i], p[i]), ClassItems(p, i + 1).0, ch);
      assert p[i..end] == [p[i]] + p[i + 1..end];
    }
  }

  /** `[abc]` matches one of the bytes listed, `[^abc]` one that is not; the bracket at the end may be missing. */
  lemma {:induction false} ClassOfBytes(listed: Bytes, negate: bool, closed: bool, p: Bytes, text: Bytes)
    requires (forall k :: 0 <= k < |listed| ==> Listable(listed[k])) && (!negate && listed != [] ==> listed[0] != 94)
    requires p == (if negate then [91, 94] else [91]) + listed + (if closed then [93] else [])
    ensures GlobMatches(p, text) <==> |text| == 1 && ((text[0] in listed) != negate)
  {
    var start := if negate then 2 else 1;
    var end := start + |listed|;
    assert p[start..end] == listed && p[0..] == p;
    assert forall k :: start <= k < end ==> p[k] == listed[k - start];
    assert Negated(p) == negate;
    ListedItems(p, start, end, 0);
    OneToken(p, ClassAt(p).0, text);
    if |text| > 0 { ListedItems(p, start, end, text[0]); }
  }

  /** A pattern that is one token. */
  lemma {:induction false} OneToken(p: Bytes, t: Token, text: Bytes)
    requires p != [] && TokenAt(p, 0) == (t, |p|) && !t.Star?
    ensures GlobMatches(p, text) <==> |text| == 1 && Accepts(t, text[0])
  {
    assert Tokens(p, 0) == [t] + Tokens(p, |p|);
    assert Tokens(p, 0)[1..] == [];
    if text != [] { assert Matches(Tokens(p, 0)[1..], text[1..]) <==> |text| == 1; }
  }

  /** `[a-b]` matches one byte from `a` to `b`, and `[^a-b]` one that is not. */
  lemma {:induction false} ClassOfRange(a: byte, b: byte, negate: bool, p: Bytes, text: Bytes)
    requires Listable(a) && a != 94 && b != 92 && p == (if negate then [91, 94] else [91]) + [a, 45, b, 93]
    ensures GlobMatches(p, text) <==> |text| == 1 && ((a <= text[0] <= b) != negate)
  {
    var i := if negate then 2 else 1;
    assert p[i] == a && p[i + 1] == 45 && p[i + 2] == b && p[i + 3] == 93 && |p| == i + 4;
    assert ItemAt(p, i) == (Range(a, b), i + 3);
    assert ClassItems(p, i + 3) == ([], i + 3);
    var rs := [Range(a, b)];
    assert rs + [] == rs && ClassItems(p, i) == (rs, i + 3);
    assert Negated(p) == negate && p[0..] == p;
    OneToken(p, Class(negate, rs), text);
    assert rs[1..] == [];
    if text != [] { assert InRanges(rs, text[0]) <==> a <= text[0] <= b; }
  }

  /** A pattern of ordinary bytes and one backslash at its end matches nothing. */
  lemma {:induction false} LoneBackslash(p: Bytes, i: nat, text: Bytes)
    requires |p| > 0 && p[|p| - 1] == 92 && i < |p| && forall k :: 0 <= k < |p| - 1 ==> Ordinary(p[k])
    ensures !Matches(Tokens(p, i), text)
    decreases |p| - i
  {
    if i < |p| - 1 && text != [] { LoneBackslash(p, i + 1, text[1..]); }
  }
}

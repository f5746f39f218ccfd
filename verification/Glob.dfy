/** Glob matching for KEYS, SCAN and PSUBSCRIBE: the single-backtrack loop against what a pattern means. */
module Glob {
  import opened Bytes

  // ── What a pattern means ─────────────────────────────────────────────

  datatype Range = Range(lo: byte, hi: byte)

  datatype Token = Lit(b: byte) | Any | Star | Class(negate: bool, ranges: seq<Range>) | Never

  predicate InRanges(ranges: seq<Range>, ch: byte) {
    ranges != [] && (ranges[0].lo <= ch <= ranges[0].hi || InRanges(ranges[1..], ch))
  }

  /** Whether a token other than `Star` stands for the byte `ch`. */
  predicate Accepts(t: Token, ch: byte) {
    match t
    case Lit(b) => b == ch
    case Any => true
    case Class(negate, ranges) => InRanges(ranges, ch) != negate
    case _ => false
  }

  /** A run of tokens covers a text: `Star` covers any stretch of it, every other token one byte. */
  ghost predicate Matches(ts: seq<Token>, text: Bytes) {
    if ts == [] then text == []
    else if ts[0].Star? then exists k :: 0 <= k <= |text| && Matches(ts[1..], text[k..])
    else text != [] && Accepts(ts[0], text[0]) && Matches(ts[1..], text[1..])
  }

  /** One item of a class: a byte or a range, escapes allowed on both ends, and the offset after it. */
  function ItemAt(p: Bytes, i: nat): (r: (Range, nat))
    requires i < |p|
    ensures i < r.1 <= |p|
  {
    var j := if p[i] == BACKSLASH && i + 1 < |p| then i + 1 else i;
    if j + 2 < |p| && p[j + 1] == DASH then
      if p[j + 2] == BACKSLASH && j + 3 < |p| then (Range(p[j], p[j + 3]), j + 4)
      else (Range(p[j], p[j + 2]), j + 3)
    else (Range(p[j], p[j]), j + 1)
  }

  /** The items of a class from offset `i` to its closing bracket or the end of `p`, and where they stop. */
  function ClassItems(p: Bytes, i: nat): (r: (seq<Range>, nat))
    requires i <= |p|
    ensures i <= r.1 <= |p| && (r.1 < |p| ==> p[r.1] == RBRACKET)
    decreases |p| - i
  {
    if i == |p| || p[i] == RBRACKET then ([], i)
    else
      var item := ItemAt(p, i);
      var rest := ClassItems(p, item.1);
      ([item.0] + rest.0, rest.1)
  }

  predicate Negated(p: Bytes) {
    |p| > 1 && p[1] == CARET
  }

  /** The class that opens `p`, and the number of bytes it takes. */
  function ClassAt(p: Bytes): (r: (Token, nat))
    requires p != []
    ensures 1 <= r.1 <= |p|
  {
    var items := ClassItems(p, if Negated(p) then 2 else 1);
    (Class(Negated(p), items.0), if items.1 < |p| then items.1 + 1 else items.1)
  }

  /** The token at offset `i` and the offset after it. A backslash at the very end stands for nothing. */
  function TokenAt(p: Bytes, i: nat): (r: (Token, nat))
    requires i < |p|
    ensures i < r.1 <= |p|
  {
    if p[i] == STAR then (Star, i + 1)
    else if p[i] == QUESTION then (Any, i + 1)
    else if p[i] == LBRACKET then
      var c := ClassAt(p[i..]);
      (c.0, i + c.1)
    else if p[i] == BACKSLASH then (if i + 1 < |p| then (Lit(p[i + 1]), i + 2) else (Never, i + 1))
    else (Lit(p[i]), i + 1)
  }

  function Tokens(p: Bytes, i: nat): seq<Token>
    requires i <= |p|
    decreases |p| - i
  {
    if i == |p| then [] else var t := TokenAt(p, i); [t.0] + Tokens(p, t.1)
  }

  /** Declarative meaning of a pattern. */
  ghost predicate GlobMatches(p: Bytes, text: Bytes) {
    Matches(Tokens(p, 0), text)
  }

  // ── The character class scan ─────────────────────────────────────────

  lemma {:induction false} InRangesCons(r: Range, rs: seq<Range>, ch: byte)
    ensures InRanges([r] + rs, ch) == (r.lo <= ch <= r.hi || InRanges(rs, ch))
  {
    assert ([r] + rs)[1..] == rs;
  }

  /** One turn of the scan: a byte or a range, with escapes. */
  method MatchItem(pat: Bytes, start: nat, ch: byte) returns (hit: bool, i: nat)
    requires start < |pat|
    ensures hit <==> ItemAt(pat, start).0.lo <= ch <= ItemAt(pat, start).0.hi
    ensures i == ItemAt(pat, start).1
  {
    i := start;
    var c := pat[i];
    if pat[i] == BACKSLASH && i + 1 < |pat| {
      i := i + 1;
      c := pat[i];
    }
    if i + 2 < |pat| && pat[i + 1] == DASH {
      var end := pat[i + 2];
      if pat[i + 2] == BACKSLASH && i + 3 < |pat| {
        i := i + 1;
        end := pat[i + 2];
      }
      return c <= ch <= end, i + 3;
    }
    return c == ch, i + 1;
  }

  /** `match_char_class`: the verdict is the class's, and the length never depends on the byte. */
  method MatchCharClass(pat: Bytes, ch: byte) returns (matched: bool, used: nat)
    ensures pat == [] || pat[0] != LBRACKET ==> !matched && used == 0
    ensures pat != [] && pat[0] == LBRACKET ==> matched == Accepts(ClassAt(pat).0, ch) && used == ClassAt(pat).1
  {
    if pat == [] || pat[0] != LBRACKET { return false, 0; }
    var i: nat := 1;
    var negate := false;
    if i < |pat| && pat[i] == CARET {
      i := i + 1;
      negate := true;
    }
    ghost var items := ClassItems(pat, i);
    matched := false;
    while i < |pat| && pat[i] != RBRACKET
      invariant i <= |pat|
      invariant ClassItems(pat, i).1 == items.1
      invariant InRanges(items.0, ch) == (matched || InRanges(ClassItems(pat, i).0, ch))
      decreases |pat| - i
    {
      ghost var item := ItemAt(pat, i);
      InRangesCons(item.0, ClassItems(pat, item.1).0, ch);
      var hit, next := MatchItem(pat, i, ch);
      if hit { matched := true; }
      i := next;
    }
    if i < |pat| && pat[i] == RBRACKET { i := i + 1; }
    if negate { matched := !matched; }
    used := i;
  }

  // ── The matcher loop ─────────────────────────────────────────────────

  /** The last `*` seen and the text offset it is being tried at. */
  datatype Mark = NoMark | Mark(pi: nat, ti: nat)

  ghost predicate LoopState(pat: Bytes, txt: Bytes, pi: nat, ti: nat, mark: Mark) {
    && pi <= |pat| && ti <= |txt|
    && (mark.Mark? ==> mark.pi < |pat| && mark.ti <= ti)
  }

  predicate OnlyStars(pat: Bytes, pi: nat)
    requires pi <= |pat|
    decreases |pat| - pi
  {
    pi == |pat| || (pat[pi] == STAR && OnlyStars(pat, pi + 1))
  }

  /** The value the loop returns from a state: its branches, in the source's order. */
  ghost function LoopResult(pat: Bytes, txt: Bytes, pi: nat, ti: nat, mark: Mark): bool
    requires LoopState(pat, txt, pi, ti, mark)
    decreases if mark.NoMark? then 1 else 0, if mark.Mark? then |txt| - mark.ti else 0, |txt| - ti, |pat| - pi
  {
    if ti == |txt| then OnlyStars(pat, pi)
    else if pi < |pat| && (pat[pi] == QUESTION || (pat[pi] == txt[ti] && pat[pi] != LBRACKET && pat[pi] != BACKSLASH)) then
      LoopResult(pat, txt, pi + 1, ti + 1, mark)
    else if pi < |pat| && pat[pi] == STAR then
      LoopResult(pat, txt, pi + 1, ti, Mark(pi, ti))
    else if pi < |pat| && pat[pi] == LBRACKET && Accepts(ClassAt(pat[pi..]).0, txt[ti]) then
      LoopResult(pat, txt, pi + ClassAt(pat[pi..]).1, ti + 1, mark)
    else if pi < |pat| && pat[pi] == BACKSLASH && pi + 1 < |pat| && pat[pi + 1] == txt[ti] then
      LoopResult(pat, txt, pi + 2, ti + 1, mark)
    else if mark.Mark? then
      LoopResult(pat, txt, mark.pi + 1, mark.ti + 1, Mark(mark.pi, mark.ti + 1))
    else false
  }

  /** `glob_match_inner`, loop for loop. */
  method GlobMatchInner(pat: Bytes, txt: Bytes) returns (r: bool)
    ensures r == LoopResult(pat, txt, 0, 0, NoMark)
    ensures STAR !in txt ==> r == GlobMatches(pat, txt)
  {
    if STAR !in txt { LoopIsGlob(pat, txt); }
    var pi: nat, ti: nat, mark := 0, 0, NoMark;
    while ti < |txt|
      invariant LoopState(pat, txt, pi, ti, mark)
      invariant LoopResult(pat, txt, pi, ti, mark) == LoopResult(pat, txt, 0, 0, NoMark)
      decreases if mark.NoMark? then 1 else 0, if mark.Mark? then |txt| - mark.ti else 0, |txt| - ti, |pat| - pi
    {
      if pi < |pat| && (pat[pi] == QUESTION || (pat[pi] == txt[ti] && pat[pi] != LBRACKET && pat[pi] != BACKSLASH)) {
        pi, ti := pi + 1, ti + 1;
      } else if pi < |pat| && pat[pi] == STAR {
        mark := Mark(pi, ti);
        pi := pi + 1;
      } else if pi < |pat| && pat[pi] == LBRACKET {
        var matched, used := MatchCharClass(pat[pi..], txt[ti]);
        if matched {
          pi, ti := pi + used, ti + 1;
        } else if mark.Mark? {
          mark := Mark(mark.pi, mark.ti + 1);
          pi, ti := mark.pi + 1, mark.ti;
        } else {
          return false;
        }
      } else if pi < |pat| && pat[pi] == BACKSLASH && pi + 1 < |pat| && pat[pi + 1] == txt[ti] {
        pi, ti := pi + 2, ti + 1;
      } else if mark.Mark? {
        mark := Mark(mark.pi, mark.ti + 1);
        pi, ti := mark.pi + 1, mark.ti;
      } else {
        return false;
      }
    }
    ghost var rest := pi;
    while pi < |pat| && pat[pi] == STAR
      invariant pi <= |pat| && OnlyStars(pat, pi) == OnlyStars(pat, rest)
    {
      pi := pi + 1;
    }
    r := pi == |pat|;
  }

  // ── The loop computes the meaning ────────────────────────────────────

  /** The meaning of the pattern from `i` on, for the text from `j` on. */
  ghost predicate MatchFrom(p: Bytes, i: nat, text: Bytes, j: nat)
    requires i <= |p|
  {
    j <= |text| && Matches(Tokens(p, i), text[j..])
  }

  /** Likewise, with the `*` at `star` giving way at `j`. */
  ghost predicate TryAt(p: Bytes, star: nat, text: Bytes, j: nat)
    requires star < |p|
  {
    MatchFrom(p, star + 1, text, j)
  }

  lemma {:induction false} MatchEnd(p: Bytes, text: Bytes, j: nat)
    ensures MatchFrom(p, |p|, text, j) == (j == |text|)
  {}

  /** A token other than `*` takes one byte. */
  lemma {:induction false} MatchToken(p: Bytes, i: nat, text: Bytes, j: nat)
    requires i < |p| && p[i] != STAR
    ensures MatchFrom(p, i, text, j) ==
            (j < |text| && Accepts(TokenAt(p, i).0, text[j]) && MatchFrom(p, TokenAt(p, i).1, text, j + 1))
  {
    var t := TokenAt(p, i);
    assert Tokens(p, i)[1..] == Tokens(p, t.1);
    if j < |text| {
      assert text[j..][1..] == text[j + 1..];
    }
  }

  /** A `*` takes any stretch. */
  lemma {:induction false} MatchStar(p: Bytes, i: nat, text: Bytes, j: nat)
    requires i < |p| && p[i] == STAR && j <= |text|
    ensures MatchFrom(p, i, text, j) == exists k :: j <= k <= |text| && TryAt(p, i, text, k)
  {
    assert Tokens(p, i)[1..] == Tokens(p, i + 1);
    if MatchFrom(p, i, text, j) {
      var k :| 0 <= k <= |text[j..]| && Matches(Tokens(p, i)[1..], text[j..][k..]);
      assert text[j..][k..] == text[j + k..];
      assert TryAt(p, i, text, j + k);
    }
    if k :| j <= k <= |text| && TryAt(p, i, text, k) {
      assert text[k..] == text[j..][k - j..];
    }
  }

  lemma {:induction false} MatchOnlyStars(p: Bytes, i: nat, text: Bytes)
    requires i <= |p|
    ensures MatchFrom(p, i, text, |text|) == OnlyStars(p, i)
    decreases |p| - i
  {
    if i == |p| {
      MatchEnd(p, text, |text|);
    } else if p[i] == STAR {
      MatchStar(p, i, text, |text|);
      MatchOnlyStars(p, i + 1, text);
      assert TryAt(p, i, text, |text|) == MatchFrom(p, i + 1, text, |text|);
    } else {
      MatchToken(p, i, text, |text|);
    }
  }

  /** Some later place for the marked `*` still leads to a match. */
  ghost predicate LaterTry(pat: Bytes, txt: Bytes, mark: Mark)
    requires mark.Mark? ==> mark.pi < |pat|
  {
    mark.Mark? && exists k :: mark.ti < k <= |txt| && TryAt(pat, mark.pi, txt, k)
  }

  /**
   * Why forgetting all but the latest `*` is safe: whatever matches after the mark at a later place
   * also matches from the current pattern offset, shifted by what has been consumed since the mark.
   */
  ghost predicate Shifts(pat: Bytes, txt: Bytes, pi: nat, ti: nat, mark: Mark)
    requires LoopState(pat, txt, pi, ti, mark)
  {
    mark.Mark? ==>
      forall k :: mark.ti < k <= |txt| && TryAt(pat, mark.pi, txt, k) ==>
        MatchFrom(pat, pi, txt, k + (ti - mark.ti))
  }

  /** One matched token keeps the shift. */
  lemma {:induction false} ShiftsToken(pat: Bytes, txt: Bytes, pi: nat, ti: nat, mark: Mark)
    requires LoopState(pat, txt, pi, ti, mark) && Shifts(pat, txt, pi, ti, mark)
    requires pi < |pat| && pat[pi] != STAR && ti < |txt|
    ensures Shifts(pat, txt, TokenAt(pat, pi).1, ti + 1, mark)
  {
    if mark.Mark? {
      forall k | mark.ti < k <= |txt| && TryAt(pat, mark.pi, txt, k)
        ensures MatchFrom(pat, TokenAt(pat, pi).1, txt, k + (ti + 1 - mark.ti))
      {
        MatchToken(pat, pi, txt, k + (ti - mark.ti));
      }
    }
  }

  /** Reaching a new `*`, the old mark has nothing more to offer. */
  lemma {:induction false} NewStarCovers(pat: Bytes, txt: Bytes, pi: nat, ti: nat, mark: Mark)
    requires LoopState(pat, txt, pi, ti, mark) && Shifts(pat, txt, pi, ti, mark)
    requires pi < |pat| && pat[pi] == STAR
    ensures LaterTry(pat, txt, mark) ==> MatchFrom(pat, pi, txt, ti)
  {
    if LaterTry(pat, txt, mark) {
      var k :| mark.ti < k <= |txt| && TryAt(pat, mark.pi, txt, k);
      var j := k + (ti - mark.ti);
      MatchStar(pat, pi, txt, j);
      var m :| j <= m <= |txt| && TryAt(pat, pi, txt, m);
      MatchStar(pat, pi, txt, ti);
    }
  }

  /** From any state the loop can reach, it returns whether the current try or a later one succeeds. */
  lemma {:induction false} LoopCorrect(pat: Bytes, txt: Bytes, pi: nat, ti: nat, mark: Mark)
    requires LoopState(pat, txt, pi, ti, mark) && Shifts(pat, txt, pi, ti, mark) && STAR !in txt
    ensures LoopResult(pat, txt, pi, ti, mark) == (MatchFrom(pat, pi, txt, ti) || LaterTry(pat, txt, mark))
    decreases if mark.NoMark? then 1 else 0, if mark.Mark? then |txt| - mark.ti else 0, |txt| - ti, |pat| - pi
  {
    if ti == |txt| {
      MatchOnlyStars(pat, pi, txt);
      NothingLater(pat, txt, pi, ti, mark);
    } else if pi == |pat| {
      MatchEnd(pat, txt, ti);
      Backtrack(pat, txt, ti, mark);
    } else if pat[pi] == STAR {
      NewStarCovers(pat, txt, pi, ti, mark);
      MatchStar(pat, pi, txt, ti);
      LoopCorrect(pat, txt, pi + 1, ti, Mark(pi, ti));
      StarTries(pat, txt, pi, ti);
    } else {
      MatchToken(pat, pi, txt, ti);
      LoopToken(pat, txt, pi, ti, mark);
      if Accepts(TokenAt(pat, pi).0, txt[ti]) {
        ShiftsToken(pat, txt, pi, ti, mark);
        LoopCorrect(pat, txt, TokenAt(pat, pi).1, ti + 1, mark);
      } else {
        Backtrack(pat, txt, ti, mark);
      }
    }
  }

  /** What the loop returns after a failed try. */
  ghost function BacktrackResult(pat: Bytes, txt: Bytes, ti: nat, mark: Mark): bool
    requires LoopState(pat, txt, 0, ti, mark) && ti < |txt|
  {
    mark.Mark? && LoopResult(pat, txt, mark.pi + 1, mark.ti + 1, Mark(mark.pi, mark.ti + 1))
  }

  /** The literal, class and escape branches all do what their token says. */
  lemma {:induction false} LoopToken(pat: Bytes, txt: Bytes, pi: nat, ti: nat, mark: Mark)
    requires LoopState(pat, txt, pi, ti, mark) && STAR !in txt
    requires pi < |pat| && pat[pi] != STAR && ti < |txt|
    ensures LoopResult(pat, txt, pi, ti, mark) ==
            if Accepts(TokenAt(pat, pi).0, txt[ti]) then LoopResult(pat, txt, TokenAt(pat, pi).1, ti + 1, mark)
            else BacktrackResult(pat, txt, ti, mark)
  {}

  /** At the end of the text no later place can help. */
  lemma {:induction false} NothingLater(pat: Bytes, txt: Bytes, pi: nat, ti: nat, mark: Mark)
    requires LoopState(pat, txt, pi, ti, mark) && Shifts(pat, txt, pi, ti, mark) && ti == |txt|
    ensures !LaterTry(pat, txt, mark)
  {}

  /** Trying a `*` at `ti` or later is trying it at `ti`, or later. */
  lemma {:induction false} StarTries(pat: Bytes, txt: Bytes, pi: nat, ti: nat)
    requires pi < |pat| && ti <= |txt|
    ensures (exists k :: ti <= k <= |txt| && TryAt(pat, pi, txt, k)) ==
            (MatchFrom(pat, pi + 1, txt, ti) || LaterTry(pat, txt, Mark(pi, ti)))
  {
    assert TryAt(pat, pi, txt, ti) == MatchFrom(pat, pi + 1, txt, ti);
  }

  /** When the current try fails, the loop moves the marked `*` one byte on. */
  lemma {:induction false} Backtrack(pat: Bytes, txt: Bytes, ti: nat, mark: Mark)
    requires LoopState(pat, txt, 0, ti, mark) && STAR !in txt && ti < |txt|
    ensures BacktrackResult(pat, txt, ti, mark) == LaterTry(pat, txt, mark)
    decreases if mark.NoMark? then 1 else 0, if mark.Mark? then |txt| - mark.ti else 0, 0, 0
  {
    if mark.Mark? {
      var next := Mark(mark.pi, mark.ti + 1);
      LoopCorrect(pat, txt, mark.pi + 1, mark.ti + 1, next);
      StarTries(pat, txt, mark.pi, mark.ti + 1);
    }
  }

  /** On texts without a `*` byte the loop decides exactly the meaning of the pattern. */
  lemma {:induction false} LoopIsGlob(pat: Bytes, txt: Bytes)
    requires STAR !in txt
    ensures LoopResult(pat, txt, 0, 0, NoMark) == GlobMatches(pat, txt)
  {
    LoopCorrect(pat, txt, 0, 0, NoMark);
    assert txt[0..] == txt;
  }

  // ── Exactly which texts are safe ─────────────────────────────────────

  function Marks(n: nat): (s: Bytes)
    ensures |s| == n && forall i :: 0 <= i < n ==> s[i] == QUESTION
  {
    seq(n, _ => QUESTION)
  }

  /** As many `?` as bytes before a `*` in the text, a `*`, and one `?` too many for the rest if `*` is taken literally. */
  function Trap(txt: Bytes, at: nat): (p: Bytes)
    requires at < |txt|
    ensures |p| == |txt| + 1 && p[at] == STAR && forall i :: 0 <= i < |p| && i != at ==> p[i] == QUESTION
  {
    Marks(at) + [STAR] + Marks(|txt| - at)
  }

  lemma {:induction false} TrapLoop(txt: Bytes, at: nat, i: nat)
    requires at < |txt| && txt[at] == STAR && i <= |txt|
    ensures !LoopResult(Trap(txt, at), txt, i, i, NoMark)
    decreases |txt| - i
  {
    if i < |txt| { TrapLoop(txt, at, i + 1); }
  }

  lemma {:induction false} TrapMatches(txt: Bytes, at: nat, i: nat, j: nat)
    requires at < |txt| && i <= |txt| + 1 && j == (if i <= at then i else i - 1)
    ensures MatchFrom(Trap(txt, at), i, txt, j)
    decreases |txt| + 1 - i
  {
    var p := Trap(txt, at);
    if i == |p| {
      MatchEnd(p, txt, j);
    } else if i == at {
      TrapMatches(txt, at, i + 1, j);
      assert TryAt(p, i, txt, j);
      MatchStar(p, i, txt, j);
    } else {
      TrapMatches(txt, at, i + 1, j + 1);
      MatchToken(p, i, txt, j);
    }
  }

  /** The loop agrees with the meaning of every pattern exactly when the text holds no `*` byte. */
  lemma {:induction false} AgreesExactlyWithoutStars(txt: Bytes)
    ensures (forall p :: LoopResult(p, txt, 0, 0, NoMark) == GlobMatches(p, txt)) <==> STAR !in txt
  {
    if STAR !in txt {
      forall p ensures LoopResult(p, txt, 0, 0, NoMark) == GlobMatches(p, txt) {
        LoopIsGlob(p, txt);
      }
    } else {
      var at :| 0 <= at < |txt| && txt[at] == STAR;
      TrapLoop(txt, at, 0);
      TrapMatches(txt, at, 0, 0);
      assert txt[0..] == txt;
      assert !LoopResult(Trap(txt, at), txt, 0, 0, NoMark) && GlobMatches(Trap(txt, at), txt);
    }
  }
}

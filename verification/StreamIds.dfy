/** Stream IDs: text of the form `ms-seq`, ordered as pairs of 64-bit numbers. */
module StreamIds {
  import opened Bytes
  import opened Decimal

  datatype Id = Id(ms: nat, sn: nat) {
    predicate Valid() {
      ms <= U64_MAX && sn <= U64_MAX
    }

    /** The position of an ID in the order of pairs. */
    function Rank(): nat {
      ms * TWO_64 + sn
    }
  }

  /** `parse_id`: splits at the first `-`; a missing sequence part is zero. */
  function ParseId(s: Bytes): (r: Option<Id>)
    ensures r.Some? ==> r.value.Valid()
  {
    match IndexByte(s, DASH)
    case None =>
      (match ParseU64(s)
       case None => None
       case Some(ms) => Some(Id(ms, 0)))
    case Some(i) =>
      var ms, q := ParseU64(s[..i]), ParseU64(s[i + 1..]);
      if ms.Some? && q.Some? then Some(Id(ms.value, q.value)) else None
  }

  /** What comparisons see: an ID that does not parse counts as `0-0`. */
  function IdOf(s: Bytes): (r: Id)
    ensures r.Valid()
  {
    if ParseId(s).Some? then ParseId(s).value else Id(0, 0)
  }

  function RankOf(s: Bytes): nat {
    IdOf(s).Rank()
  }

  /** `cmp_ids`: lexicographic on (ms, seq). */
  function CompareIds(a: Bytes, b: Bytes): int {
    var x, y := IdOf(a), IdOf(b);
    if x.ms < y.ms then -1
    else if x.ms > y.ms then 1
    else if x.sn < y.sn then -1
    else if x.sn > y.sn then 1
    else 0
  }

  /** Comparing IDs is comparing ranks. */
  lemma {:induction false} CompareIsRank(a: Bytes, b: Bytes)
    ensures CompareIds(a, b) < 0 <==> RankOf(a) < RankOf(b)
    ensures CompareIds(a, b) == 0 <==> RankOf(a) == RankOf(b)
    ensures CompareIds(a, b) > 0 <==> RankOf(a) > RankOf(b)
  {}

  function FormatId(ms: nat, q: nat): Bytes {
    Digits(ms) + [DASH] + Digits(q)
  }

  /** The text `0-0`. */
  function ZeroId(): Bytes {
    FormatId(0, 0)
  }

  function NormalizeId(s: Bytes): Bytes {
    if DASH in s then s else s + [DASH, DIGIT_0]
  }

  lemma {:induction false} IndexAfterDigits(s: Bytes, t: Bytes)
    requires DASH !in s
    ensures IndexByte(s + [DASH] + t, DASH) == Some(|s|)
  {
    var all := s + [DASH] + t;
    if s == [] {
      assert all[0] == DASH;
    } else {
      assert all[1..] == s[1..] + [DASH] + t;
      IndexAfterDigits(s[1..], t);
    }
  }

  lemma {:induction false} ParseJoined(s: Bytes, t: Bytes)
    requires DASH !in s
    ensures ParseId(s + [DASH] + t) ==
            (if ParseU64(s).Some? && ParseU64(t).Some? then Some(Id(ParseU64(s).value, ParseU64(t).value)) else None)
  {
    var all := s + [DASH] + t;
    IndexAfterDigits(s, t);
    assert all[..|s|] == s && all[|s| + 1..] == t;
  }

  /** Printing an ID and parsing it back gives the ID. */
  lemma {:induction false} ParseOfFormat(id: Id)
    requires id.Valid()
    ensures ParseId(FormatId(id.ms, id.sn)) == Some(id)
  {
    assert DASH !in Digits(id.ms);
    ParseJoined(Digits(id.ms), Digits(id.sn));
    UnsignedRoundTrip(id.ms, U64_MAX);
    UnsignedRoundTrip(id.sn, U64_MAX);
  }

  /** A partial ID stands for sequence zero, so completing it changes nothing. */
  lemma {:induction false} ParseOfNormalize(s: Bytes)
    ensures ParseId(NormalizeId(s)) == ParseId(s)
  {
    if DASH !in s {
      assert s + [DASH, DIGIT_0] == s + [DASH] + [DIGIT_0];
      ParseJoined(s, [DIGIT_0]);
      assert Digits(0) == [DIGIT_0];
      UnsignedRoundTrip(0, U64_MAX);
    }
  }

  // ── Range bounds ─────────────────────────────────────────────────────

  /** `Overflows` is the checked addition past the largest millisecond part. */
  datatype Bound = Bound(id: Bytes) | InvalidBound | Overflows

  /** A partial ID in a range bound: the whole millisecond, from its first or to its last sequence number. */
  function Complete(s: Bytes, isStart: bool): Bytes {
    if DASH in s then s else s + [DASH] + Digits(if isStart then 0 else U64_MAX)
  }

  /** An exclusive start: one up, with a carry into the millisecond part. */
  function After(x: Id): (r: Option<Id>)
    requires x.Valid()
    ensures r.None? <==> x == Id(U64_MAX, U64_MAX)
    ensures r.Some? ==> r.value.Valid() && r.value.Rank() == x.Rank() + 1
  {
    if x.sn == U64_MAX then (if x.ms == U64_MAX then None else Some(Id(x.ms + 1, 0)))
    else Some(Id(x.ms, x.sn + 1))
  }

  /** An exclusive end: one down, with a borrow from the millisecond part; nothing comes before `0-0`. */
  function Before(x: Id): (r: Id)
    requires x.Valid()
    ensures r.Valid() && r.Rank() == if x.Rank() == 0 then 0 else x.Rank() - 1
  {
    if x.sn == 0 then (if x.ms == 0 then x else Id(x.ms - 1, U64_MAX))
    else Id(x.ms, x.sn - 1)
  }

  function BoundAt(x: Id): Bound {
    Bound(FormatId(x.ms, x.sn))
  }

  function ExclusiveBound(x: Id, isStart: bool): Bound
    requires x.Valid()
  {
    if !isStart then BoundAt(Before(x))
    else match After(x)
         case None => Overflows
         case Some(y) => BoundAt(y)
  }

  /** `format_stream_range_bound`. */
  function FormatBound(s: Bytes, isStart: bool): Bound {
    if s == [DASH] then BoundAt(Id(0, 0))
    else if s == [PLUS] then BoundAt(Id(U64_MAX, U64_MAX))
    else if s != [] && s[0] == LPAREN then
      var rest := s[1..];
      if rest == [DASH] || rest == [PLUS] then InvalidBound
      else
        match ParseId(Complete(rest, isStart))
        case None => InvalidBound
        case Some(x) => ExclusiveBound(x, isStart)
    else if ParseId(Complete(s, isStart)).None? then InvalidBound
    else Bound(Complete(s, isStart))
  }

  lemma {:induction false} FormatRank(x: Id)
    requires x.Valid()
    ensures RankOf(FormatId(x.ms, x.sn)) == x.Rank()
  {
    ParseOfFormat(x);
  }

  /** What a bound means: an ID, with or without itself. */
  datatype Edge = Including(x: Id) | Excluding(x: Id) {
    predicate Admits(isStart: bool, rank: nat) {
      match this
      case Including(x) => if isStart then x.Rank() <= rank else rank <= x.Rank()
      case Excluding(x) => if isStart then x.Rank() < rank else rank < x.Rank()
    }
  }

  /** The edge a bound's text describes, if it describes one; the two signs take no parenthesis. */
  function EdgeOf(s: Bytes, isStart: bool): (r: Option<Edge>)
    ensures r.Some? ==> r.value.x.Valid()
  {
    if s == [DASH] then Some(Including(Id(0, 0)))
    else if s == [PLUS] then Some(Including(Id(U64_MAX, U64_MAX)))
    else
      var open := s != [] && s[0] == LPAREN;
      var text := if open then s[1..] else s;
      if text == [DASH] || text == [PLUS] then None
      else match ParseId(Complete(text, isStart))
           case None => None
           case Some(x) => Some(if open then Excluding(x) else Including(x))
  }

  /** With a parenthesis: everything hangs on the text behind it. */
  lemma {:induction false} OpenOutcome(s: Bytes, rest: Bytes, isStart: bool)
    requires s == [LPAREN] + rest
    ensures EdgeOf(s, isStart).None? <==> rest == [DASH] || rest == [PLUS] || ParseId(Complete(rest, isStart)).None?
    ensures EdgeOf(s, isStart).None? ==> FormatBound(s, isStart) == InvalidBound
    ensures EdgeOf(s, isStart).Some? ==>
              && EdgeOf(s, isStart) == Some(Excluding(ParseId(Complete(rest, isStart)).value))
              && FormatBound(s, isStart) == ExclusiveBound(ParseId(Complete(rest, isStart)).value, isStart)
  {
    assert s[0] == LPAREN && s[1..] == rest && s != [DASH] && s != [PLUS];
  }

  /** Without one: a sign, or an ID taken with itself. */
  lemma {:induction false} PlainOutcome(s: Bytes, isStart: bool)
    requires s == [] || s[0] != LPAREN
    ensures FormatBound(s, isStart).InvalidBound? <==> EdgeOf(s, isStart).None?
    ensures EdgeOf(s, isStart).Some? ==> EdgeOf(s, isStart).value.Including? && FormatBound(s, isStart).Bound?
  {}

  lemma {:induction false} ExclusiveOutcome(x: Id, isStart: bool)
    requires x.Valid()
    ensures ExclusiveBound(x, isStart).Overflows? <==> x == Id(U64_MAX, U64_MAX) && isStart
    ensures !ExclusiveBound(x, isStart).InvalidBound?
  {}

  /** A bound is refused exactly when its text describes no edge, and overflows exactly above the largest ID. */
  lemma {:induction false} BoundOutcome(s: Bytes, isStart: bool)
    ensures FormatBound(s, isStart).InvalidBound? <==> EdgeOf(s, isStart).None?
    ensures FormatBound(s, isStart).Overflows? <==>
            EdgeOf(s, isStart) == Some(Excluding(Id(U64_MAX, U64_MAX))) && isStart
  {
    if s == [] || s[0] != LPAREN {
      PlainOutcome(s, isStart);
    } else {
      var rest := s[1..];
      assert s == [LPAREN] + rest;
      OpenOutcome(s, rest, isStart);
      if EdgeOf(s, isStart).Some? { ExclusiveOutcome(ParseId(Complete(rest, isStart)).value, isStart); }
    }
  }

  /** Comparing with a formatted start bound selects exactly what the bound's text describes. */
  lemma {:induction false} StartBoundSelects(s: Bytes, id: Bytes)
    requires FormatBound(s, true).Bound?
    ensures EdgeOf(s, true).Some?
    ensures RankOf(FormatBound(s, true).id) <= RankOf(id) <==> EdgeOf(s, true).value.Admits(true, RankOf(id))
  {
    BoundOutcome(s, true);
    var edge := EdgeOf(s, true).value;
    BoundText(s, true, edge);
    if edge.Excluding? {
      FormatRank(After(edge.x).value);
    }
  }

  /**
   * Comparing with a formatted end bound selects exactly what its text describes,
   * but for one bound: before `0-0` there is nothing, and the code still admits `0-0` itself.
   */
  lemma {:induction false} EndBoundSelects(s: Bytes, id: Bytes)
    requires FormatBound(s, false).Bound?
    ensures EdgeOf(s, false).Some?
    ensures RankOf(id) <= RankOf(FormatBound(s, false).id) <==>
            EdgeOf(s, false).value.Admits(false, RankOf(id))
            || (EdgeOf(s, false) == Some(Excluding(Id(0, 0))) && RankOf(id) == 0)
  {
    BoundOutcome(s, false);
    var edge := EdgeOf(s, false).value;
    BoundText(s, false, edge);
    if edge.Excluding? {
      FormatRank(Before(edge.x));
    }
  }

  /** The formatted bound of an edge: its own ID, or its neighbour. */
  lemma {:induction false} BoundText(s: Bytes, isStart: bool, edge: Edge)
    requires EdgeOf(s, isStart) == Some(edge)
    ensures edge.Excluding? ==> FormatBound(s, isStart) == ExclusiveBound(edge.x, isStart)
    ensures edge.Including? ==>
            FormatBound(s, isStart).Bound? && RankOf(FormatBound(s, isStart).id) == edge.x.Rank()
  {
    if s == [DASH] || s == [PLUS] {
      FormatRank(edge.x);
    }
  }

  // ── The texts clients send ───────────────────────────────────────────

  /** A millisecond alone is its first ID. */
  lemma {:induction false} PartialId(ms: U64)
    ensures ParseId(Digits(ms)) == Some(Id(ms, 0))
  {
    assert DASH !in Digits(ms);
    UnsignedRoundTrip(ms, U64_MAX);
  }

  lemma {:induction false} DigitsOpen(n: nat)
    ensures var s := Digits(n); s[0] != LPAREN && s != [DASH] && s != [PLUS] && DASH !in s
  {
    assert IsDigit(Digits(n)[0]);
  }

  /** As a bound, a millisecond alone reaches from its first ID to its last. */
  lemma {:induction false} PartialBounds(ms: U64, id: Bytes)
    ensures var lo, hi := FormatBound(Digits(ms), true), FormatBound(Digits(ms), false);
            && lo.Bound? && hi.Bound?
            && (RankOf(lo.id) <= RankOf(id) <==> ms <= IdOf(id).ms)
            && (RankOf(id) <= RankOf(hi.id) <==> IdOf(id).ms <= ms)
  {
    DigitsOpen(ms);
    ParseOfFormat(Id(ms, 0));
    ParseOfFormat(Id(ms, U64_MAX));
  }

  lemma {:induction false} FormatOpen(x: Id)
    ensures var s := FormatId(x.ms, x.sn); s[0] != LPAREN && |s| >= 3 && DASH in s
  {
    assert IsDigit(Digits(x.ms)[0]);
    assert FormatId(x.ms, x.sn)[0] == Digits(x.ms)[0];
    assert FormatId(x.ms, x.sn)[|Digits(x.ms)|] == DASH;
  }

  /** A whole ID bounds with itself. */
  lemma {:induction false} PlainBounds(x: Id, text: Bytes)
    requires x.Valid() && text == FormatId(x.ms, x.sn)
    ensures FormatBound(text, true) == Bound(text) == FormatBound(text, false) && RankOf(text) == x.Rank()
  {
    FormatOpen(x);
    ParseOfFormat(x);
  }

  /** `-` and `+` bound with everything. */
  lemma {:induction false} SignBounds(id: Bytes)
    ensures FormatBound([DASH], true).Bound? && RankOf(FormatBound([DASH], true).id) <= RankOf(id)
    ensures FormatBound([PLUS], false).Bound? && RankOf(id) <= RankOf(FormatBound([PLUS], false).id)
  {
    FormatRank(Id(0, 0));
    FormatRank(Id(U64_MAX, U64_MAX));
  }

  lemma {:induction false} OpenText(x: Id, text: Bytes, isStart: bool)
    requires x.Valid() && text == [LPAREN] + FormatId(x.ms, x.sn)
    ensures FormatBound(text, isStart) == ExclusiveBound(x, isStart)
  {
    FormatOpen(x);
    ParseOfFormat(x);
    OpenOutcome(text, FormatId(x.ms, x.sn), isStart);
  }

  /** With a parenthesis an ID bounds without itself, where there is another one on that side. */
  lemma {:induction false} OpenBounds(x: Id, text: Bytes)
    requires x.Valid() && text == [LPAREN] + FormatId(x.ms, x.sn)
    ensures x != Id(U64_MAX, U64_MAX) ==>
              FormatBound(text, true).Bound? && RankOf(FormatBound(text, true).id) == x.Rank() + 1
    ensures x != Id(0, 0) ==> FormatBound(text, false).Bound? && RankOf(FormatBound(text, false).id) == x.Rank() - 1
  {
    OpenText(x, text, true);
    OpenText(x, text, false);
    if x != Id(U64_MAX, U64_MAX) { FormatRank(After(x).value); }
    FormatRank(Before(x));
  }
}

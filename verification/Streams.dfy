/** Streams: entries, ID generation, trims and deletes, and the order every operation keeps. */
module Streams {
  import opened Bytes
  import opened Decimal
  import opened Sorted
  import opened StreamIds

  datatype Entry = Entry(id: Bytes, values: seq<Bytes>)

  datatype Pending = Pending(id: Bytes, consumer: Bytes, deliveries: int, last: int)

  datatype Consumer = Consumer(numPending: int, lastSeen: int, lastSuccess: int)

  datatype Group = Group(lastId: Bytes, pending: seq<Pending>, consumers: map<Bytes, Consumer>, readKnown: bool)

  datatype Stream = Stream(entries: seq<Entry>, groups: map<Bytes, Group>, lastAllocated: Bytes)

  function EntryRank(e: Entry): nat {
    RankOf(e.id)
  }

  function LastEntry(s: Stream): Option<Entry> {
    if s.entries == [] then None else Some(s.entries[|s.entries| - 1])
  }

  ghost predicate Parses(e: Entry) {
    ParseId(e.id).Some?
  }

  /** Entries parse and increase, and the last allocated ID is not behind the last entry. */
  ghost predicate ValidStream(s: Stream) {
    && Increasing(s.entries, EntryRank)
    && (forall e :: e in s.entries ==> Parses(e))
    && (s.entries != [] ==>
          ParseId(s.lastAllocated).Some? && EntryRank(s.entries[|s.entries| - 1]) <= RankOf(s.lastAllocated))
  }

  // ── ID generation ────────────────────────────────────────────────────

  /** One up in the same millisecond; `None` is the overflow of the checked addition. */
  function Bump(x: Id): Option<Id> {
    if x.sn == U64_MAX then None else Some(Id(x.ms, x.sn + 1))
  }

  /** `generate_id`: past the last allocated ID, then past the last entry. */
  function Generate(s: Stream, ms: nat): Option<Id> {
    var alloc := if s.lastAllocated == [] then None else ParseId(s.lastAllocated);
    var first := if alloc.Some? && ms <= alloc.value.ms then Bump(alloc.value) else Some(Id(ms, 0));
    var last := if LastEntry(s).Some? then ParseId(LastEntry(s).value.id) else None;
    if first.Some? && last.Some?
       && (first.value.ms < last.value.ms || (first.value.ms == last.value.ms && first.value.sn <= last.value.sn))
    then Bump(last.value)
    else first
  }

  /**
   * A generated ID is the least one that is not before the given time and is past
   * both the last allocated ID and the last entry.
   */
  lemma {:induction false} GeneratedIsLeast(s: Stream, ms: nat, x: Id)
    requires ms <= U64_MAX && Generate(s, ms) == Some(x)
    ensures x.Valid() && Id(ms, 0).Rank() <= x.Rank()
    ensures ParseId(s.lastAllocated).Some? ==> RankOf(s.lastAllocated) < x.Rank()
    ensures s.entries != [] && ParseId(LastEntry(s).value.id).Some? ==> EntryRank(LastEntry(s).value) < x.Rank()
    ensures || x == Id(ms, 0)
            || (ParseId(s.lastAllocated).Some? && x.Rank() == RankOf(s.lastAllocated) + 1)
            || (s.entries != [] && x.Rank() == EntryRank(LastEntry(s).value) + 1)
  {
    assert ParseId([]).None?;
  }

  /** Generation overflows exactly when the last allocated ID ends a millisecond that is not over yet. */
  lemma {:induction false} GenerateOverflows(s: Stream, ms: nat)
    requires ms <= U64_MAX && ValidStream(s)
    ensures Generate(s, ms).None? <==>
            ParseId(s.lastAllocated).Some? && ms <= IdOf(s.lastAllocated).ms && IdOf(s.lastAllocated).sn == U64_MAX
  {
    assert ParseId([]).None?;
  }

  datatype AddError = InvalidId | NotAboveZero | NotAboveTop | SequenceOverflow

  datatype AddResult = Added(id: Bytes) | Refused(error: AddError)

  function Append(s: Stream, id: Bytes, values: seq<Bytes>): Stream {
    s.(entries := s.entries + [Entry(id, values)], lastAllocated := id)
  }

  function AddGenerated(s: Stream, ms: nat, values: seq<Bytes>): (Stream, AddResult) {
    match Generate(s, ms)
    case None => (s, Refused(SequenceOverflow))
    case Some(x) => (Append(s, FormatId(x.ms, x.sn), values), Added(FormatId(x.ms, x.sn)))
  }

  function AddExplicit(s: Stream, id: Bytes, values: seq<Bytes>): (Stream, AddResult) {
    match ParseId(id)
    case None => (s, Refused(InvalidId))
    case Some(x) =>
      if x.ms == 0 && x.sn == 0 then (s, Refused(NotAboveZero))
      else if LastEntry(s).Some? && CompareIds(id, LastEntry(s).value.id) <= 0 then (s, Refused(NotAboveTop))
      else (Append(s, id, values), Added(id))
  }

  /** `add`: `*` or nothing, `ms-*`, or an ID of the caller's. */
  function Add(s: Stream, id: Bytes, values: seq<Bytes>, now: nat): (Stream, AddResult) {
    if id == [] || id == [STAR] then AddGenerated(s, now, values)
    else if |id| >= 2 && id[|id| - 2..] == [DASH, STAR] then
      match ParseU64(id[..|id| - 2])
      case None => (s, Refused(InvalidId))
      case Some(ms) => AddGenerated(s, ms, values)
    else AddExplicit(s, NormalizeId(id), values)
  }

  /** What a successful add does: one entry at the end, past every entry so far, remembered as allocated. */
  ghost predicate AddedAtEnd(s: Stream, t: Stream, id: Bytes, values: seq<Bytes>) {
    && t == Append(s, id, values)
    && ParseId(id).Some?
    && (forall e :: e in s.entries ==> EntryRank(e) < RankOf(id))
  }

  lemma {:induction false} AppendKeeps(s: Stream, id: Bytes, values: seq<Bytes>)
    requires ValidStream(s) && ParseId(id).Some?
    requires s.entries != [] ==> EntryRank(LastEntry(s).value) < RankOf(id)
    ensures ValidStream(Append(s, id, values)) && AddedAtEnd(s, Append(s, id, values), id, values)
  {
    var e := Entry(id, values);
    PastAll(s, EntryRank(e));
    AppendOrdered(s.entries, e);
    assert Parses(e);
  }

  lemma {:induction false} PastAll(s: Stream, rank: nat)
    requires ValidStream(s) && (s.entries != [] ==> EntryRank(LastEntry(s).value) < rank)
    ensures forall e :: e in s.entries ==> EntryRank(e) < rank
  {
    LastIsTop(s.entries);
  }

  lemma {:induction false} AppendOrdered(es: seq<Entry>, e: Entry)
    requires Increasing(es, EntryRank) && forall d :: d in es ==> EntryRank(d) < EntryRank(e)
    ensures Increasing(es + [e], EntryRank)
  {
    IncreasingAppend(es, [e], EntryRank);
  }

  lemma {:induction false} LastIsTop(es: seq<Entry>)
    requires Increasing(es, EntryRank)
    ensures forall e :: e in es ==> EntryRank(e) <= EntryRank(es[|es| - 1])
  {
    forall e | e in es ensures EntryRank(e) <= EntryRank(es[|es| - 1]) {
      var i :| 0 <= i < |es| && es[i] == e;
      assert i < |es| - 1 ==> EntryRank(es[i]) < EntryRank(es[|es| - 1]);
    }
  }

  lemma {:induction false} AddGeneratedKeeps(s: Stream, ms: nat, values: seq<Bytes>)
    requires ValidStream(s) && ms <= U64_MAX
    ensures ValidStream(AddGenerated(s, ms, values).0)
    ensures AddGenerated(s, ms, values).1.Added? ==>
              var id := AddGenerated(s, ms, values).1.id;
              AddedAtEnd(s, AddGenerated(s, ms, values).0, id, values) && IdOf(id).ms >= ms
              && (ParseId(s.lastAllocated).Some? ==> RankOf(s.lastAllocated) < RankOf(id))
  {
    if Generate(s, ms).Some? {
      var x := Generate(s, ms).value;
      GeneratedIsLeast(s, ms, x);
      ParseOfFormat(x);
      if s.entries != [] {
        assert Parses(LastEntry(s).value);
      }
      AppendKeeps(s, FormatId(x.ms, x.sn), values);
    }
  }

  /** The caller's own ID is taken exactly when it parses, is not `0-0` and is past every entry. */
  lemma {:induction false} AddExplicitExactly(s: Stream, id: Bytes, values: seq<Bytes>)
    requires ValidStream(s)
    ensures AddExplicit(s, id, values).1.Added? <==>
            ParseId(id).Some? && RankOf(id) > 0 && forall e :: e in s.entries ==> EntryRank(e) < RankOf(id)
    ensures AddExplicit(s, id, values).1.Added? ==>
            AddExplicit(s, id, values).1.id == id && AddedAtEnd(s, AddExplicit(s, id, values).0, id, values)
    ensures ValidStream(AddExplicit(s, id, values).0)
  {
    if s.entries != [] {
      CompareIsRank(id, LastEntry(s).value.id);
      LastIsTop(s.entries);
    }
    if AddExplicit(s, id, values).1.Added? {
      AppendKeeps(s, id, values);
    }
  }

  /** Every add keeps the stream valid; it either appends past every entry or leaves the stream as it was. */
  lemma {:induction false} AddKeeps(s: Stream, id: Bytes, values: seq<Bytes>, now: nat)
    requires ValidStream(s) && now <= U64_MAX
    ensures ValidStream(Add(s, id, values, now).0)
    ensures match Add(s, id, values, now).1
            case Added(given) => AddedAtEnd(s, Add(s, id, values, now).0, given, values)
            case Refused(_) => Add(s, id, values, now).0 == s
  {
    if id == [] || id == [STAR] {
      AddGeneratedKeeps(s, now, values);
    } else if |id| >= 2 && id[|id| - 2..] == [DASH, STAR] {
      var ms := ParseU64(id[..|id| - 2]);
      if ms.Some? {
        AddGeneratedKeeps(s, ms.value, values);
      }
    } else {
      AddExplicitExactly(s, NormalizeId(id), values);
    }
  }

  // ── What an add answers ──────────────────────────────────────────────

  /** At or after the start of a millisecond, past every ID allocated and past every entry. */
  ghost predicate Admissible(s: Stream, ms: nat, x: Id) {
    && Id(ms, 0).Rank() <= x.Rank()
    && (ParseId(s.lastAllocated).Some? ==> RankOf(s.lastAllocated) < x.Rank())
    && (forall e :: e in s.entries ==> EntryRank(e) < x.Rank())
  }

  lemma {:induction false} GeneratedAdmissible(s: Stream, ms: nat, x: Id)
    requires ValidStream(s) && ms <= U64_MAX && Generate(s, ms) == Some(x)
    ensures x.Valid() && Admissible(s, ms, x)
    ensures forall y: Id :: Admissible(s, ms, y) ==> x.Rank() <= y.Rank()
  {
    GeneratedIsLeast(s, ms, x);
    LastIsTop(s.entries);
    if s.entries != [] {
      assert Parses(LastEntry(s).value) && LastEntry(s).value in s.entries;
    }
  }

  /** The ID asks for one to be made: `*` or nothing for the current time, `ms-*` for a millisecond of the caller's. */
  predicate Automatic(id: Bytes, now: nat, ms: nat) {
    if id == [] || id == [STAR] then ms == now
    else |id| >= 2 && id[|id| - 2..] == [DASH, STAR] && ParseU64(id[..|id| - 2]) == Some(ms)
  }

  /**
   * An automatic add takes the least ID there is from that time on, past every entry and every ID allocated, and is
   * refused exactly when the last one allocated ends a millisecond that is not over.
   */
  lemma {:induction false} AddAutomatic(s: Stream, id: Bytes, values: seq<Bytes>, now: nat, ms: nat)
    requires ValidStream(s) && ms <= U64_MAX && Automatic(id, now, ms)
    ensures Add(s, id, values, now).1.Refused? <==>
            ParseId(s.lastAllocated).Some? && ms <= IdOf(s.lastAllocated).ms && IdOf(s.lastAllocated).sn == U64_MAX
    ensures match Add(s, id, values, now).1
            case Added(given) =>
              && ParseId(given).Some? && Admissible(s, ms, IdOf(given)) && IdOf(given).ms >= ms
              && (forall y: Id :: Admissible(s, ms, y) ==> IdOf(given).Rank() <= y.Rank())
            case Refused(error) => error == SequenceOverflow
  {
    GenerateOverflows(s, ms);
    if Generate(s, ms).Some? {
      var x := Generate(s, ms).value;
      GeneratedAdmissible(s, ms, x);
      ParseOfFormat(x);
    }
  }

  /** A millisecond that cannot be read makes an ID that cannot be read. */
  lemma {:induction false} StarIsNoNumber(id: Bytes)
    requires |id| >= 2 && id[|id| - 2..] == [DASH, STAR]
    ensures ParseId(id).None?
  {
    assert id[|id| - 2] == id[|id| - 2..][0] && id[|id| - 1] == id[|id| - 2..][1];
    var i := IndexByte(id, DASH).value;
    var part := id[i + 1..];
    assert DASH in id && DASH !in id[..i];
    assert id[i] == DASH && i <= |id| - 2;
    assert part[|part| - 1] == STAR;
    assert |part| > 1 ==> part[1..][|part| - 2] == STAR;
  }

  /** Any other add is answered with the ID, completed, or with the first objection to it. */
  lemma {:induction false} AddExplicitAnswers(s: Stream, id: Bytes, values: seq<Bytes>, now: nat)
    requires ValidStream(s) && !exists ms :: Automatic(id, now, ms)
    ensures Add(s, id, values, now).1 ==
            if ParseId(id).None? then Refused(InvalidId)
            else if RankOf(id) == 0 then Refused(NotAboveZero)
            else if exists e :: e in s.entries && RankOf(id) <= EntryRank(e) then Refused(NotAboveTop)
            else Added(NormalizeId(id))
  {
    assert !Automatic(id, now, now);
    if |id| >= 2 && id[|id| - 2..] == [DASH, STAR] {
      StarIsNoNumber(id);
      var ms := ParseU64(id[..|id| - 2]);
      assert ms.Some? ==> Automatic(id, now, ms.value);
    } else {
      ParseOfNormalize(id);
      AddExplicitExactly(s, NormalizeId(id), values);
    }
  }

  // ── Trims, deletes, ranges ───────────────────────────────────────────

  /** `trim_maxlen`: drops from the front. */
  function TrimMaxLen(s: Stream, n: nat): Stream {
    if |s.entries| <= n then s else s.(entries := s.entries[|s.entries| - n..])
  }

  /** `trim_minid`. */
  function TrimMinId(s: Stream, threshold: Bytes): Stream {
    s.(entries := Keep(s.entries, (e: Entry) => CompareIds(e.id, threshold) >= 0))
  }

  function Without(s: Stream, id: Bytes): Stream {
    s.(entries := Keep(s.entries, (e: Entry) => e.id != id))
  }

  /** `del`: the stream, and how many of the IDs removed something. */
  function Del(s: Stream, ids: seq<Bytes>): (Stream, nat) {
    if ids == [] then (s, 0)
    else
      var (t, n) := Del(s, ids[..|ids| - 1]);
      var u := Without(t, ids[|ids| - 1]);
      (u, if |u.entries| < |t.entries| then n + 1 else n)
  }

  /** `after`. */
  function EntriesAfter(es: seq<Entry>, id: Bytes): seq<Entry> {
    Keep(es, (e: Entry) => CompareIds(e.id, id) > 0)
  }

  /** `range`, both ends included. */
  function Range(es: seq<Entry>, start: Bytes, end: Bytes, count: Option<nat>): seq<Entry> {
    Take(Keep(es, (e: Entry) => CompareIds(e.id, start) >= 0 && CompareIds(e.id, end) <= 0), count)
  }

  /** Dropping entries keeps a stream valid: order survives, and the allocated ID only gets further ahead. */
  lemma {:induction false} KeepKeeps(s: Stream, p: Entry -> bool)
    requires ValidStream(s)
    ensures ValidStream(s.(entries := Keep(s.entries, p)))
    ensures forall e :: e in Keep(s.entries, p) <==> e in s.entries && p(e)
  {
    var kept := Keep(s.entries, p);
    KeepIncreasing(s.entries, p, EntryRank);
    forall e ensures e in kept <==> e in s.entries && p(e) {
      KeepMembers(s.entries, p, e);
    }
    LastIsTop(s.entries);
  }

  /** `later` is what is left of a stream after dropping older entries; nothing else changes. */
  ghost predicate DropsOldest(s: Stream, later: Stream) {
    && |later.entries| <= |s.entries| && later == s.(entries := s.entries[|s.entries| - |later.entries|..])
    && (forall d, e :: d in s.entries && d !in later.entries && e in later.entries ==> EntryRank(d) < EntryRank(e))
  }

  lemma {:induction false} SuffixDropsOldest(s: Stream, later: Stream)
    requires ValidStream(s) && |later.entries| <= |s.entries|
    requires later == s.(entries := s.entries[|s.entries| - |later.entries|..])
    ensures DropsOldest(s, later) && ValidStream(later)
  {
    var k := |s.entries| - |later.entries|;
    IncreasingSlice(s.entries, k, |s.entries|, EntryRank);
    assert s.entries[..k] + later.entries == s.entries;
    IncreasingAppend(s.entries[..k], later.entries, EntryRank);
  }

  /** Trimming by length leaves the newest `n` entries, or all when there are no more than that. */
  lemma {:induction false} TrimMaxLenKeeps(s: Stream, n: nat)
    requires ValidStream(s)
    ensures ValidStream(TrimMaxLen(s, n)) && DropsOldest(s, TrimMaxLen(s, n))
    ensures |TrimMaxLen(s, n).entries| == if n < |s.entries| then n else |s.entries|
  {
    assert s.entries[0..] == s.entries;
    SuffixDropsOldest(s, TrimMaxLen(s, n));
  }

  /** Trimming by ID leaves exactly the entries at or above the threshold, in order. */
  lemma {:induction false} TrimMinIdKeeps(s: Stream, threshold: Bytes)
    requires ValidStream(s)
    ensures ValidStream(TrimMinId(s, threshold)) && DropsOldest(s, TrimMinId(s, threshold))
    ensures forall e :: e in TrimMinId(s, threshold).entries <==> e in s.entries && RankOf(threshold) <= EntryRank(e)
  {
    var p := (e: Entry) => CompareIds(e.id, threshold) >= 0;
    forall e ensures p(e) <==> RankOf(threshold) <= EntryRank(e) { CompareIsRank(e.id, threshold); }
    assert TrimMinId(s, threshold).entries == Keep(s.entries, p);
    forall e ensures e in Keep(s.entries, p) <==> e in s.entries && p(e) { KeepMembers(s.entries, p, e); }
    KeepFrom(s.entries, p, EntryRank, RankOf(threshold));
    SuffixDropsOldest(s, TrimMinId(s, threshold));
  }

  lemma {:induction false} DelKeeps(s: Stream, ids: seq<Bytes>)
    requires ValidStream(s)
    ensures ValidStream(Del(s, ids).0)
    ensures Del(s, ids).0.groups == s.groups
    ensures forall e :: e in Del(s, ids).0.entries <==> e in s.entries && e.id !in ids
    ensures |Del(s, ids).0.entries| + Del(s, ids).1 == |s.entries|
  {
    if ids != [] {
      var front, id := ids[..|ids| - 1], ids[|ids| - 1];
      assert ids == front + [id];
      DelKeeps(s, front);
      var t := Del(s, front).0;
      KeepKeeps(t, (e: Entry) => e.id != id);
      WithoutDropsOne(t, id);
    }
  }

  /** Deleting an ID removes the one entry that has it, or nothing. */
  lemma {:induction false} WithoutDropsOne(s: Stream, id: Bytes)
    requires ValidStream(s)
    ensures forall e :: e in Without(s, id).entries <==> e in s.entries && e.id != id
    ensures |Without(s, id).entries| == |s.entries| - if exists e :: e in s.entries && e.id == id then 1 else 0
  {
    var es, p := s.entries, (e: Entry) => e.id != id;
    forall e ensures e in Keep(es, p) <==> e in es && e.id != id {
      KeepMembers(es, p, e);
    }
    if i :| 0 <= i < |es| && es[i].id == id {
      assert es[i] in es;
      KeepAllBut(es, p, i);
    } else {
      KeepStretch(es, p, 0, |es|);
    }
  }

  /**
   * Ranging between two formatted bounds returns exactly the entries the bounds describe,
   * but for an excluded end of `0-0`, where an entry `0-0` is returned.
   */
  lemma {:induction false} RangeSelects(es: seq<Entry>, start: Bytes, end: Bytes, e: Entry)
    requires FormatBound(start, true).Bound? && FormatBound(end, false).Bound?
    ensures EdgeOf(start, true).Some? && EdgeOf(end, false).Some?
    ensures e in Range(es, FormatBound(start, true).id, FormatBound(end, false).id, None) <==>
            && e in es
            && EdgeOf(start, true).value.Admits(true, EntryRank(e))
            && (|| EdgeOf(end, false).value.Admits(false, EntryRank(e))
                || (EdgeOf(end, false) == Some(Excluding(Id(0, 0))) && EntryRank(e) == 0))
  {
    var lo, hi := FormatBound(start, true).id, FormatBound(end, false).id;
    StartBoundSelects(start, e.id);
    EndBoundSelects(end, e.id);
    CompareIsRank(e.id, lo);
    CompareIsRank(e.id, hi);
    KeepMembers(es, (x: Entry) => CompareIds(x.id, lo) >= 0 && CompareIds(x.id, hi) <= 0, e);
  }

  /** An entry `0-0` can exist: asking for the first ID of millisecond zero on a new stream stores one. */
  lemma {:induction false} ZeroIsStored(values: seq<Bytes>, now: nat, auto: Bytes, zero: Id)
    requires auto == [DIGIT_0, DASH, STAR] && zero == Id(0, 0)
    ensures var none := Stream([], map[], []);
            && Generate(none, 0) == Some(zero)
            && Add(none, auto, values, now) == (Append(none, ZeroId(), values), Added(ZeroId()))
  {
    assert auto[1..] == [DASH, STAR] && auto[..1] == [DIGIT_0];
    assert Digits(0) == [DIGIT_0];
    UnsignedRoundTrip(0, U64_MAX);
  }

  /** And the range up to but not including `0-0` returns it. */
  lemma {:induction false} ExcludedZeroIsReturned(values: seq<Bytes>, end: Bytes)
    requires end == [LPAREN] + ZeroId()
    ensures var es := [Entry(ZeroId(), values)];
            && FormatBound([DASH], true).Bound? && FormatBound(end, false).Bound?
            && EdgeOf(end, false) == Some(Excluding(Id(0, 0)))
            && es[0] in Range(es, FormatBound([DASH], true).id, FormatBound(end, false).id, None)
  {
    var e := Entry(ZeroId(), values);
    ParseOfFormat(Id(0, 0));
    assert end[1..] == ZeroId() && ZeroId()[1] == DASH;
    BoundOutcome([DASH], true);
    BoundOutcome(end, false);
    RangeSelects([e], [DASH], end, e);
  }

  /** A range is in order, and a count takes its first entries. */
  lemma {:induction false} RangeOrdered(es: seq<Entry>, start: Bytes, end: Bytes, count: Option<nat>)
    requires Increasing(es, EntryRank)
    ensures Increasing(Range(es, start, end, count), EntryRank)
    ensures Range(es, start, end, count) <= Range(es, start, end, None)
    ensures count.Some? ==> |Range(es, start, end, count)| <= count.value
  {
    KeepIncreasing(es, (e: Entry) => CompareIds(e.id, start) >= 0 && CompareIds(e.id, end) <= 0, EntryRank);
  }
}

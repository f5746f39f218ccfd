/** Consumer groups: delivery, redelivery and acknowledgement, and the pending-entries list they keep. */
module StreamGroups {
  import opened Bytes
  import opened Sorted
  import opened StreamIds
  import opened Streams

  function PendingRank(p: Pending): nat {
    RankOf(p.id)
  }

  /** The IDs of a pending list, in order. */
  function Ids(ps: seq<Pending>): (ids: seq<Bytes>)
    ensures |ids| == |ps| && forall i :: 0 <= i < |ps| ==> ids[i] == ps[i].id
  {
    seq(|ps|, i requires 0 <= i < |ps| => ps[i].id)
  }

  ghost predicate Distinct(ids: seq<Bytes>) {
    forall i, j :: 0 <= i < j < |ids| ==> ids[i] != ids[j]
  }

  /** How many pending entries a consumer owns. */
  function Owned(ps: seq<Pending>, consumer: Bytes): nat {
    if ps == [] then 0
    else Owned(ps[..|ps| - 1], consumer) + if ps[|ps| - 1].consumer == consumer then 1 else 0
  }

  ghost predicate Counted(g: Group) {
    forall c :: c in g.consumers ==> g.consumers[c].numPending == Owned(g.pending, c)
  }

  /** Pending IDs are distinct and in order, none past the cursor, owners are known and counters exact. */
  ghost predicate ValidGroup(g: Group) {
    && Increasing(g.pending, PendingRank)
    && (forall p :: p in g.pending ==> PendingRank(p) <= RankOf(g.lastId) && p.consumer in g.consumers)
    && Counted(g)
  }

  lemma {:induction false} OwnedAppend(ps: seq<Pending>, qs: seq<Pending>, consumer: Bytes)
    ensures Owned(ps + qs, consumer) == Owned(ps, consumer) + Owned(qs, consumer)
  {
    if qs == [] {
      assert ps + qs == ps;
    } else {
      OwnedAppend(ps, qs[..|qs| - 1], consumer);
      assert (ps + qs)[..|ps + qs| - 1] == ps + qs[..|qs| - 1];
    }
  }

  // ── Creating a group ─────────────────────────────────────────────────

  /** Where a new group starts: at the last entry, or at an ID of the caller's. */
  function StartOf(s: Stream, id: Bytes): Bytes {
    if id != [DOLLAR] then NormalizeId(id)
    else if LastEntry(s).Some? then LastEntry(s).value.id
    else ZeroId()
  }

  /** `create_group`: `None` when the name is taken. */
  function CreateGroup(s: Stream, name: Bytes, id: Bytes): Option<Stream> {
    if name in s.groups then None
    else
      var start := StartOf(s, id);
      Some(s.(groups := s.groups[name := Group(start, [], map[], start == ZeroId())]))
  }

  /** `$` is past every entry there is, and not past all that may come; any other text is the ID it names. */
  lemma {:induction false} StartMeans(s: Stream, id: Bytes)
    requires ValidStream(s)
    ensures id != [DOLLAR] ==> RankOf(StartOf(s, id)) == RankOf(id)
    ensures id == [DOLLAR] ==> BehindAll(s.entries, RankOf(StartOf(s, id)))
  {
    if id != [DOLLAR] {
      ParseOfNormalize(id);
    } else if s.entries == [] {
      FormatRank(Id(0, 0));
    } else {
      BehindLast(s.entries);
    }
  }

  /** No entry is past the position, and it is the last entry's, or zero without one. */
  ghost predicate BehindAll(es: seq<Entry>, rank: nat) {
    (forall e :: e in es ==> EntryRank(e) <= rank) && (rank == 0 || exists e :: e in es && EntryRank(e) == rank)
  }

  lemma {:induction false} BehindLast(es: seq<Entry>)
    requires Increasing(es, EntryRank) && es != []
    ensures BehindAll(es, EntryRank(es[|es| - 1]))
  {
    LastIsTop(es);
    assert es[|es| - 1] in es;
  }

  // ── Delivery ─────────────────────────────────────────────────────────

  function AddToCount(cs: map<Bytes, Consumer>, name: Bytes, d: int): map<Bytes, Consumer> {
    if name in cs then cs[name := cs[name].(numPending := cs[name].numPending + d)] else cs
  }

  /** One entry handed to a consumer: a new pending entry, or a change of owner for one already pending. */
  function DeliverOne(g: Group, e: Entry, consumer: Bytes, now: int): Group {
    match Find(g.pending, (p: Pending) => p.id == e.id)
    case Some(i) =>
      var p := g.pending[i];
      var moved := if p.consumer == consumer then g.consumers
                   else AddToCount(AddToCount(g.consumers, p.consumer, -1), consumer, 1);
      g.(pending := g.pending[i := Pending(p.id, consumer, p.deliveries + 1, now)], consumers := moved)
    case None =>
      var counted := if consumer !in g.consumers then g.consumers
                     else g.consumers[consumer := g.consumers[consumer].(
                                        numPending := g.consumers[consumer].numPending + 1, lastSuccess := now)];
      g.(pending := g.pending + [Pending(e.id, consumer, 1, now)], consumers := counted)
  }

  function Deliver(g: Group, es: seq<Entry>, consumer: Bytes, now: int): Group {
    if es == [] then g
    else DeliverOne(Deliver(g, es[..|es| - 1], consumer, now), es[|es| - 1], consumer, now)
  }

  /** The pending entries of a first delivery. */
  function Fresh(es: seq<Entry>, consumer: Bytes, now: int): seq<Pending> {
    if es == [] then [] else Fresh(es[..|es| - 1], consumer, now) + [Pending(es[|es| - 1].id, consumer, 1, now)]
  }

  /** The group after a first delivery of `es`. */
  function Delivered(g: Group, es: seq<Entry>, consumer: Bytes, now: int): Group
    requires consumer in g.consumers
  {
    if es == [] then g
    else
      var c := g.consumers[consumer];
      g.(pending := g.pending + Fresh(es, consumer, now),
         consumers := g.consumers[consumer := c.(numPending := c.numPending + |es|, lastSuccess := now)])
  }

  lemma {:induction false} DeliverNew(g: Group, e: Entry, consumer: Bytes, now: int)
    requires consumer in g.consumers && forall p :: p in g.pending ==> p.id != e.id
    ensures DeliverOne(g, e, consumer, now) ==
            g.(pending := g.pending + [Pending(e.id, consumer, 1, now)],
               consumers := g.consumers[consumer := g.consumers[consumer].(
                                          numPending := g.consumers[consumer].numPending + 1, lastSuccess := now)])
  {
    assert Find(g.pending, (p: Pending) => p.id == e.id).None?;
  }

  lemma {:induction false} FreshSnoc(ps: seq<Pending>, front: seq<Entry>, e: Entry, consumer: Bytes, now: int)
    ensures ps + Fresh(front + [e], consumer, now) == ps + Fresh(front, consumer, now) + [Pending(e.id, consumer, 1, now)]
  {
    assert (front + [e])[..|front|] == front;
  }

  lemma {:induction false} DeliverOneAppends(g: Group, front: seq<Entry>, e: Entry, consumer: Bytes, now: int)
    requires consumer in g.consumers
    requires forall p :: p in g.pending + Fresh(front, consumer, now) ==> p.id != e.id
    ensures DeliverOne(Delivered(g, front, consumer, now), e, consumer, now) ==
            Delivered(g, front + [e], consumer, now)
  {
    var h := Delivered(g, front, consumer, now);
    assert h.pending == g.pending + Fresh(front, consumer, now);
    DeliverNew(h, e, consumer, now);
    FreshSnoc(g.pending, front, e, consumer, now);
  }

  /** Entries past everything pending are all delivered for the first time, in order. */
  lemma {:induction false} DeliverAppends(g: Group, es: seq<Entry>, top: nat, consumer: Bytes, now: int)
    requires consumer in g.consumers && Increasing(es, EntryRank)
    requires forall p :: p in g.pending ==> PendingRank(p) <= top
    requires forall e :: e in es ==> top < EntryRank(e)
    ensures Deliver(g, es, consumer, now) == Delivered(g, es, consumer, now)
  {
    if es != [] {
      var front, e := es[..|es| - 1], es[|es| - 1];
      assert es == front + [e];
      DeliverAppends(g, front, top, consumer, now);
      NotPending(g.pending, front, consumer, now, e);
      DeliverOneAppends(g, front, e, consumer, now);
    }
  }

  lemma {:induction false} FreshRanks(es: seq<Entry>, consumer: Bytes, now: int)
    ensures |Fresh(es, consumer, now)| == |es|
    ensures forall i :: 0 <= i < |es| ==> Fresh(es, consumer, now)[i] == Pending(es[i].id, consumer, 1, now)
  {
    if es != [] {
      FreshRanks(es[..|es| - 1], consumer, now);
    }
  }

  lemma {:induction false} NotPending(ps: seq<Pending>, front: seq<Entry>, consumer: Bytes, now: int, e: Entry)
    requires Increasing(front + [e], EntryRank)
    requires forall p :: p in ps ==> PendingRank(p) < EntryRank(e)
    ensures forall p :: p in ps + Fresh(front, consumer, now) ==> p.id != e.id
  {
    FreshRanks(front, consumer, now);
    var all := front + [e];
    forall i | 0 <= i < |front| ensures Fresh(front, consumer, now)[i].id != e.id {
      assert EntryRank(all[i]) < EntryRank(all[|front|]);
    }
  }

  // ── Reading ──────────────────────────────────────────────────────────

  function EnsureConsumer(g: Group, name: Bytes, now: int): Group {
    if name in g.consumers then g else g.(consumers := g.consumers[name := Consumer(0, now, now)])
  }

  /** The entries past the cursor, at most `count` of them. */
  function Undelivered(es: seq<Entry>, cursor: Bytes, count: Option<nat>): seq<Entry> {
    Take(EntriesAfter(es, cursor), count)
  }

  /** A read of new entries: the cursor moves to the last one, and all become pending unless `noack`. */
  function ReadNew(g: Group, es: seq<Entry>, consumer: Bytes, noack: bool, now: int): Group {
    var moved := if es == [] then g else g.(lastId := es[|es| - 1].id, readKnown := true);
    if noack then moved else Deliver(moved, es, consumer, now)
  }

  /** What is read is the stretch of entries right after the cursor. */
  lemma {:induction false} UndeliveredIsStretch(es: seq<Entry>, cursor: Bytes, count: Option<nat>)
    requires Increasing(es, EntryRank)
    ensures var k, read := UpTo(es, EntryRank, RankOf(cursor)), Undelivered(es, cursor, count);
            && |read| == (if count.Some? && count.value < |es| - k then count.value else |es| - k)
            && read == es[k..k + |read|]
  {
    var k := UpTo(es, EntryRank, RankOf(cursor));
    var p := (e: Entry) => CompareIds(e.id, cursor) > 0;
    forall i | 0 <= i < |es| ensures p(es[i]) <==> k <= i < |es| {
      CompareIsRank(es[i].id, cursor);
      assert EntryRank(es[i]) <= RankOf(cursor) <==> i < k;
    }
    KeepStretch(es, p, k, |es|);
  }

  lemma {:induction false} EnsureConsumerKeeps(g: Group, name: Bytes, now: int)
    requires ValidGroup(g)
    ensures ValidGroup(EnsureConsumer(g, name, now))
  {
    if name !in g.consumers {
      OwnsNothing(g.pending, name);
    }
  }

  lemma {:induction false} OwnsNothing(ps: seq<Pending>, consumer: Bytes)
    requires forall p :: p in ps ==> p.consumer != consumer
    ensures Owned(ps, consumer) == 0
  {
    if ps != [] {
      OwnsNothing(ps[..|ps| - 1], consumer);
    }
  }

  lemma {:induction false} FreshOwned(es: seq<Entry>, consumer: Bytes, now: int, c: Bytes)
    ensures Owned(Fresh(es, consumer, now), c) == if c == consumer then |es| else 0
  {
    if es != [] {
      FreshOwned(es[..|es| - 1], consumer, now, c);
      var f := Fresh(es, consumer, now);
      assert f[..|f| - 1] == Fresh(es[..|es| - 1], consumer, now);
    }
  }

  /** A first delivery past the old cursor keeps the list ordered under the new one. */
  lemma {:induction false} DeliveredOrdered(g: Group, es: seq<Entry>, top: nat, consumer: Bytes, now: int)
    requires Increasing(g.pending, PendingRank) && Increasing(es, EntryRank)
    requires forall p :: p in g.pending ==> PendingRank(p) <= top
    requires forall e :: e in es ==> top < EntryRank(e)
    ensures Increasing(g.pending + Fresh(es, consumer, now), PendingRank)
    ensures forall p :: p in Fresh(es, consumer, now) ==>
              p.consumer == consumer && top < PendingRank(p) <= EntryRank(es[|es| - 1])
  {
    var f := Fresh(es, consumer, now);
    FreshRanks(es, consumer, now);
    LastIsTop(es);
    forall p | p in f ensures p.consumer == consumer && top < PendingRank(p) <= EntryRank(es[|es| - 1]) {
      var i :| 0 <= i < |f| && f[i] == p;
      assert es[i] in es && EntryRank(es[i]) == PendingRank(p);
    }
    forall i, j | 0 <= i < j < |f| ensures PendingRank(f[i]) < PendingRank(f[j]) {
      assert EntryRank(es[i]) < EntryRank(es[j]);
    }
    IncreasingAppend(g.pending, f, PendingRank);
  }

  lemma {:induction false} ReadNewKeeps(g: Group, es: seq<Entry>, consumer: Bytes, noack: bool, now: int)
    requires ValidGroup(g) && consumer in g.consumers && Increasing(es, EntryRank)
    requires forall e :: e in es ==> RankOf(g.lastId) < EntryRank(e)
    ensures ValidGroup(ReadNew(g, es, consumer, noack, now))
    ensures ReadNew(g, es, consumer, noack, now).lastId == if es == [] then g.lastId else es[|es| - 1].id
    ensures |ReadNew(g, es, consumer, noack, now).pending| == |g.pending| + if noack then 0 else |es|
  {
    if es != [] {
      var top := RankOf(g.lastId);
      var moved := g.(lastId := es[|es| - 1].id, readKnown := true);
      assert top < EntryRank(es[|es| - 1]);
      if !noack {
        DeliverAppends(moved, es, top, consumer, now);
        DeliveredOrdered(moved, es, top, consumer, now);
        FreshRanks(es, consumer, now);
        DeliveredCounts(moved, es, consumer, now);
      }
    }
  }

  lemma {:induction false} DeliveredCounts(g: Group, es: seq<Entry>, consumer: Bytes, now: int)
    requires consumer in g.consumers && Counted(g)
    ensures Counted(Delivered(g, es, consumer, now))
  {
    var h := Delivered(g, es, consumer, now);
    forall c | c in h.consumers ensures h.consumers[c].numPending == Owned(h.pending, c) {
      OwnedAppend(g.pending, Fresh(es, consumer, now), c);
      FreshOwned(es, consumer, now, c);
    }
  }

  // ── Redelivery ───────────────────────────────────────────────────────

  datatype Redelivery = Redelivery(pending: seq<Pending>, entries: seq<Entry>)

  function EntryWithId(es: seq<Entry>, id: Bytes): Option<Entry> {
    match Find(es, (e: Entry) => e.id == id)
    case None => None
    case Some(i) => Some(es[i])
  }

  function Listed(hit: Option<Entry>): seq<Entry> {
    if hit.None? then [] else [hit.value]
  }

  function Redelivered(p: Pending, hit: Option<Entry>, now: int): Pending {
    if hit.None? then p else p.(deliveries := p.deliveries + 1, last := now)
  }

  /** The loop over the pending list, with `got` entries so far: it stops once `count` is reached. */
  function Redeliver(ps: seq<Pending>, wanted: Pending -> bool, entry: Bytes -> Option<Entry>,
                     count: Option<nat>, now: int, got: nat): Redelivery
  {
    if ps == [] then Redelivery([], [])
    else if !wanted(ps[0]) then
      var rest := Redeliver(ps[1..], wanted, entry, count, now, got);
      Redelivery([ps[0]] + rest.pending, rest.entries)
    else
      var hit := entry(ps[0].id);
      var sofar := got + |Listed(hit)|;
      var rest := if count.Some? && sofar >= count.value then Redelivery(ps[1..], [])
                  else Redeliver(ps[1..], wanted, entry, count, now, sofar);
      Redelivery([Redelivered(ps[0], hit, now)] + rest.pending, Listed(hit) + rest.entries)
  }

  function Joined(pending: seq<Pending>, entries: seq<Entry>, rest: Redelivery): Redelivery {
    Redelivery(pending + rest.pending, entries + rest.entries)
  }

  /** One turn of the loop, for a pending entry that is not wanted. */
  lemma {:induction false} RedeliverPasses(pending: seq<Pending>, read: seq<Entry>, ps: seq<Pending>, wanted: Pending -> bool,
                                           entry: Bytes -> Option<Entry>, count: Option<nat>, now: int)
    requires ps != [] && !wanted(ps[0])
    ensures Joined(pending, read, Redeliver(ps, wanted, entry, count, now, |read|)) ==
            Joined(pending + [ps[0]], read, Redeliver(ps[1..], wanted, entry, count, now, |read|))
  {
    var rest := Redeliver(ps[1..], wanted, entry, count, now, |read|);
    assert pending + ([ps[0]] + rest.pending) == pending + [ps[0]] + rest.pending;
  }

  /** One turn of the loop, for a wanted one: the loop goes on. */
  lemma {:induction false} RedeliverTakes(pending: seq<Pending>, read: seq<Entry>, ps: seq<Pending>, wanted: Pending -> bool,
                                          entry: Bytes -> Option<Entry>, count: Option<nat>, now: int,
                                          again: Pending, more: seq<Entry>)
    requires ps != [] && wanted(ps[0]) && more == read + Listed(entry(ps[0].id))
    requires again == Redelivered(ps[0], entry(ps[0].id), now) && !(count.Some? && |more| >= count.value)
    ensures Joined(pending, read, Redeliver(ps, wanted, entry, count, now, |read|)) ==
            Joined(pending + [again], more, Redeliver(ps[1..], wanted, entry, count, now, |more|))
  {
    var hit, rest := Listed(entry(ps[0].id)), Redeliver(ps[1..], wanted, entry, count, now, |more|);
    assert Redeliver(ps, wanted, entry, count, now, |read|) == Redelivery([again] + rest.pending, hit + rest.entries);
    assert pending + ([again] + rest.pending) == pending + [again] + rest.pending;
    assert read + (hit + rest.entries) == more + rest.entries;
  }

  /** The last turn: enough entries are there. */
  lemma {:induction false} RedeliverStops(pending: seq<Pending>, read: seq<Entry>, ps: seq<Pending>, wanted: Pending -> bool,
                                          entry: Bytes -> Option<Entry>, count: Option<nat>, now: int,
                                          again: Pending, more: seq<Entry>)
    requires ps != [] && wanted(ps[0]) && more == read + Listed(entry(ps[0].id))
    requires again == Redelivered(ps[0], entry(ps[0].id), now) && count.Some? && |more| >= count.value
    ensures Joined(pending, read, Redeliver(ps, wanted, entry, count, now, |read|)) ==
            Redelivery(pending + [again] + ps[1..], more)
  {
    assert pending + ([again] + ps[1..]) == pending + [again] + ps[1..];
  }

  /** The entries that are still there among the wanted pending ones. */
  function StillThere(ps: seq<Pending>, wanted: Pending -> bool, entry: Bytes -> Option<Entry>): seq<Entry> {
    if ps == [] then []
    else (if wanted(ps[0]) then Listed(entry(ps[0].id)) else []) + StillThere(ps[1..], wanted, entry)
  }

  lemma {:induction false} TakeAfter(hit: seq<Entry>, rest: seq<Entry>, count: Option<nat>)
    requires |hit| <= 1 && (count.Some? ==> count.value > 0)
    ensures Take(hit + rest, count) ==
            if count.Some? && |hit| >= count.value then hit
            else hit + Take(rest, if count.Some? then Some(count.value - |hit|) else None)
  {
    if count.Some? && count.value < |hit + rest| {
      assert (hit + rest)[..count.value] == hit + rest[..count.value - |hit|];
      assert hit + [] == hit;
    }
  }

  /** Redelivery returns the first `count` of those entries. */
  lemma {:induction false} RedeliverReturns(ps: seq<Pending>, wanted: Pending -> bool, entry: Bytes -> Option<Entry>,
                                            count: Option<nat>, now: int, got: nat)
    requires count.Some? ==> got < count.value
    ensures Redeliver(ps, wanted, entry, count, now, got).entries ==
            Take(StillThere(ps, wanted, entry), if count.Some? then Some(count.value - got) else None)
  {
    if ps != [] {
      if !wanted(ps[0]) {
        RedeliverReturns(ps[1..], wanted, entry, count, now, got);
      } else {
        var hit := Listed(entry(ps[0].id));
        TakeAfter(hit, StillThere(ps[1..], wanted, entry), if count.Some? then Some(count.value - got) else None);
        if !(count.Some? && got + |hit| >= count.value) {
          RedeliverReturns(ps[1..], wanted, entry, count, now, got + |hit|);
        }
      }
    }
  }

  /** With a count of zero the loop still handles the first wanted entry. */
  lemma {:induction false} RedeliverAtZero(ps: seq<Pending>, wanted: Pending -> bool, entry: Bytes -> Option<Entry>, now: int)
    ensures Redeliver(ps, wanted, entry, Some(0), now, 0).entries ==
            match Find(ps, wanted)
            case None => []
            case Some(i) => Listed(entry(ps[i].id))
  {
    if ps != [] && !wanted(ps[0]) {
      RedeliverAtZero(ps[1..], wanted, entry, now);
    }
  }

  lemma {:induction false} StillThereExists(ps: seq<Pending>, wanted: Pending -> bool, entry: Bytes -> Option<Entry>)
    ensures StillThere(ps, wanted, entry) != [] <==> exists p :: p in ps && wanted(p) && entry(p.id).Some?
  {
    if ps != [] {
      StillThereExists(ps[1..], wanted, entry);
      assert forall p :: p in ps <==> p == ps[0] || p in ps[1..];
    }
  }

  /** Where nothing wanted exists any more, redelivery changes nothing. */
  lemma {:induction false} RedeliverNothing(ps: seq<Pending>, wanted: Pending -> bool, entry: Bytes -> Option<Entry>,
                                            count: Option<nat>, now: int, got: nat)
    requires StillThere(ps, wanted, entry) == []
    ensures Redeliver(ps, wanted, entry, count, now, got) == Redelivery(ps, [])
  {
    if ps != [] {
      assert ps == [ps[0]] + ps[1..];
      if !(wanted(ps[0]) && count.Some? && got >= count.value) {
        RedeliverNothing(ps[1..], wanted, entry, count, now, got);
      }
    }
  }

  lemma {:induction false} DeliverKeepsCursor(g: Group, es: seq<Entry>, consumer: Bytes, now: int)
    ensures Deliver(g, es, consumer, now).lastId == g.lastId
  {
    if es != [] {
      DeliverKeepsCursor(g, es[..|es| - 1], consumer, now);
    }
  }

  /** Same IDs, same owners. */
  ghost predicate SameList(ps: seq<Pending>, qs: seq<Pending>) {
    |ps| == |qs| && forall i :: 0 <= i < |ps| ==> ps[i].id == qs[i].id && ps[i].consumer == qs[i].consumer
  }

  function Deliveries(ps: seq<Pending>): int {
    if ps == [] then 0 else ps[0].deliveries + Deliveries(ps[1..])
  }

  lemma {:induction false} SameListCons(p: Pending, q: Pending, ps: seq<Pending>, qs: seq<Pending>)
    requires p.id == q.id && p.consumer == q.consumer && SameList(ps, qs)
    ensures SameList([p] + ps, [q] + qs)
    ensures Deliveries([q] + qs) == q.deliveries + Deliveries(qs)
  {
    assert ([q] + qs)[1..] == qs;
  }

  /** Redelivery leaves IDs and owners alone, and counts one delivery for each entry it returns. */
  lemma {:induction false} RedeliverKeepsList(ps: seq<Pending>, wanted: Pending -> bool, entry: Bytes -> Option<Entry>,
                                              count: Option<nat>, now: int, got: nat, r: Redelivery)
    requires r == Redeliver(ps, wanted, entry, count, now, got)
    ensures SameList(ps, r.pending) && Deliveries(r.pending) == Deliveries(ps) + |r.entries|
  {
    if ps != [] {
      assert ps == [ps[0]] + ps[1..];
      if !wanted(ps[0]) {
        var rest := Redeliver(ps[1..], wanted, entry, count, now, got);
        RedeliverKeepsList(ps[1..], wanted, entry, count, now, got, rest);
        SameListCons(ps[0], ps[0], ps[1..], rest.pending);
      } else {
        var hit := entry(ps[0].id);
        var sofar := got + |Listed(hit)|;
        if count.Some? && sofar >= count.value {
          SameListCons(ps[0], Redelivered(ps[0], hit, now), ps[1..], ps[1..]);
        } else {
          var rest := Redeliver(ps[1..], wanted, entry, count, now, sofar);
          RedeliverKeepsList(ps[1..], wanted, entry, count, now, sofar, rest);
          SameListCons(ps[0], Redelivered(ps[0], hit, now), ps[1..], rest.pending);
        }
      }
    }
  }

  lemma {:induction false} SameListOwned(ps: seq<Pending>, qs: seq<Pending>, c: Bytes)
    requires SameList(ps, qs)
    ensures Owned(ps, c) == Owned(qs, c)
  {
    if ps != [] {
      SameListOwned(ps[..|ps| - 1], qs[..|qs| - 1], c);
    }
  }

  lemma {:induction false} SameListOrdered(ps: seq<Pending>, qs: seq<Pending>)
    requires SameList(ps, qs) && Increasing(ps, PendingRank)
    ensures Increasing(qs, PendingRank)
  {
    forall i, j | 0 <= i < j < |qs| ensures PendingRank(qs[i]) < PendingRank(qs[j]) {
      assert PendingRank(ps[i]) < PendingRank(ps[j]);
    }
  }

  lemma {:induction false} SameListMember(ps: seq<Pending>, qs: seq<Pending>, q: Pending)
    requires SameList(ps, qs) && q in qs
    ensures exists p :: p in ps && p.id == q.id && p.consumer == q.consumer
  {
    var i :| 0 <= i < |qs| && qs[i] == q;
    assert ps[i] in ps;
  }

  lemma {:induction false} SameListKeeps(g: Group, qs: seq<Pending>)
    requires ValidGroup(g) && SameList(g.pending, qs)
    ensures ValidGroup(g.(pending := qs))
  {
    SameListOrdered(g.pending, qs);
    forall q | q in qs ensures PendingRank(q) <= RankOf(g.lastId) && q.consumer in g.consumers {
      SameListMember(g.pending, qs, q);
    }
    forall c | c in g.consumers ensures g.consumers[c].numPending == Owned(qs, c) {
      SameListOwned(g.pending, qs, c);
    }
  }

  // ── The whole read ───────────────────────────────────────────────────

  /** `read_group` on a group that exists. */
  function ReadFrom(es: seq<Entry>, g: Group, consumer: Bytes, id: Bytes, count: Option<nat>, noack: bool, now: int):
    (Group, seq<Entry>)
  {
    var h := EnsureConsumer(g, consumer, now);
    if id == [GREATER] then
      var news := Undelivered(es, h.lastId, count);
      (ReadNew(h, news, consumer, noack, now), news)
    else
      var from := NormalizeId(id);
      var r := Redeliver(h.pending, (p: Pending) => p.consumer == consumer && CompareIds(p.id, from) >= 0,
                         (i: Bytes) => EntryWithId(es, i), count, now, 0);
      (h.(pending := r.pending), r.entries)
  }

  /** `read_group`: `None` when there is no such group. */
  function ReadGroup(s: Stream, name: Bytes, consumer: Bytes, id: Bytes, count: Option<nat>, noack: bool, now: int):
    Option<(Stream, seq<Entry>)>
  {
    if name !in s.groups then None
    else
      var (g, es) := ReadFrom(s.entries, s.groups[name], consumer, id, count, noack, now);
      Some((s.(groups := s.groups[name := g]), es))
  }

  /** A read keeps the group valid; only a read of new entries moves the cursor or lengthens the list. */
  lemma {:induction false} ReadFromKeeps(es: seq<Entry>, g: Group, consumer: Bytes, id: Bytes, count: Option<nat>,
                                         noack: bool, now: int, h: Group, read: seq<Entry>)
    requires Increasing(es, EntryRank) && ValidGroup(g)
    requires (h, read) == ReadFrom(es, g, consumer, id, count, noack, now)
    ensures ValidGroup(h)
    ensures id == [GREATER] ==>
            && read == Undelivered(es, g.lastId, count)
            && h.lastId == (if read == [] then g.lastId else read[|read| - 1].id)
            && |h.pending| == |g.pending| + (if noack then 0 else |read|)
    ensures id != [GREATER] ==> h.lastId == g.lastId && |h.pending| == |g.pending|
  {
    EnsureConsumerKeeps(g, consumer, now);
    var g' := EnsureConsumer(g, consumer, now);
    if id == [GREATER] {
      UndeliveredPast(es, g.lastId, count);
      ReadNewKeeps(g', read, consumer, noack, now);
    } else {
      var from := NormalizeId(id);
      var wanted := (p: Pending) => p.consumer == consumer && CompareIds(p.id, from) >= 0;
      var entry := (i: Bytes) => EntryWithId(es, i);
      var r := Redeliver(g'.pending, wanted, entry, count, now, 0);
      RedeliverKeepsList(g'.pending, wanted, entry, count, now, 0, r);
      SameListKeeps(g', r.pending);
    }
  }

  /** A read changes the group exactly when the consumer is new or there is something to hand out. */
  lemma {:induction false} ReadNewChangesExactly(es: seq<Entry>, g: Group, consumer: Bytes, count: Option<nat>, noack: bool, now: int)
    requires count != Some(0)
    ensures ReadFrom(es, g, consumer, [GREATER], count, noack, now).0 != g <==>
            consumer !in g.consumers || exists e :: e in es && RankOf(g.lastId) < EntryRank(e)
  {
    var h, after := EnsureConsumer(g, consumer, now), (e: Entry) => CompareIds(e.id, g.lastId) > 0;
    var news := Undelivered(es, g.lastId, count);
    forall e ensures e in Keep(es, after) <==> e in es && RankOf(g.lastId) < EntryRank(e) {
      KeepMembers(es, after, e);
      CompareIsRank(e.id, g.lastId);
    }
    if news != [] {
      var last := news[|news| - 1];
      assert last in Keep(es, after) && last.id != g.lastId;
      DeliverKeepsCursor(h.(lastId := last.id, readKnown := true), news, consumer, now);
    } else {
      assert Keep(es, after) == [];
    }
  }

  lemma {:induction false} RedeliverChangesExactly(ps: seq<Pending>, wanted: Pending -> bool, entry: Bytes -> Option<Entry>,
                                                   count: Option<nat>, now: int)
    requires count != Some(0)
    ensures Redeliver(ps, wanted, entry, count, now, 0).pending != ps <==>
            exists p :: p in ps && wanted(p) && entry(p.id).Some?
  {
    StillThereExists(ps, wanted, entry);
    if StillThere(ps, wanted, entry) == [] {
      RedeliverNothing(ps, wanted, entry, count, now, 0);
    } else {
      RedeliverReturns(ps, wanted, entry, count, now, 0);
      RedeliverKeepsList(ps, wanted, entry, count, now, 0, Redeliver(ps, wanted, entry, count, now, 0));
    }
  }

  lemma {:induction false} RereadChangesExactly(es: seq<Entry>, g: Group, consumer: Bytes, id: Bytes, count: Option<nat>,
                                                noack: bool, now: int)
    requires count != Some(0) && id != [GREATER]
    ensures ReadFrom(es, g, consumer, id, count, noack, now).0 != g <==>
            || consumer !in g.consumers
            || exists p :: p in g.pending && p.consumer == consumer
                           && RankOf(NormalizeId(id)) <= PendingRank(p) && EntryWithId(es, p.id).Some?
  {
    var ps, from := g.pending, NormalizeId(id);
    var wanted := (p: Pending) => p.consumer == consumer && CompareIds(p.id, from) >= 0;
    var entry := (i: Bytes) => EntryWithId(es, i);
    forall p | p in ps ensures wanted(p) <==> p.consumer == consumer && RankOf(from) <= PendingRank(p) {
      CompareIsRank(p.id, from);
    }
    RedeliverChangesExactly(ps, wanted, entry, count, now);
  }

  ghost predicate IsPending(ps: seq<Pending>, id: Bytes) {
    exists p :: p in ps && p.id == id
  }
  ghost predicate IsEntry(es: seq<Entry>, id: Bytes) {
    exists e :: e in es && e.id == id
  }

  lemma {:induction false} DeliveredSource(g: Group, es: seq<Entry>, consumer: Bytes, now: int, p: Pending)
    requires consumer in g.consumers && p in Delivered(g, es, consumer, now).pending
    ensures IsPending(g.pending, p.id) || IsEntry(es, p.id)
  {
    var f := Fresh(es, consumer, now);
    if p in f {
      FreshRanks(es, consumer, now);
      var i :| 0 <= i < |f| && f[i] == p;
      assert es[i] in es;
    }
  }

  /** What is pending after a read was pending before it or is one of the new entries. */
  lemma {:induction false} ReadFromSource(es: seq<Entry>, g: Group, consumer: Bytes, id: Bytes, count: Option<nat>,
                                          noack: bool, now: int, h: Group, read: seq<Entry>, p: Pending)
    requires Increasing(es, EntryRank) && ValidGroup(g) && p in h.pending
    requires (h, read) == ReadFrom(es, g, consumer, id, count, noack, now)
    ensures IsPending(g.pending, p.id) || (id == [GREATER] && IsEntry(read, p.id))
  {
    EnsureConsumerKeeps(g, consumer, now);
    var g' := EnsureConsumer(g, consumer, now);
    if id == [GREATER] {
      UndeliveredPast(es, g.lastId, count);
      if !noack {
        var moved := if read == [] then g' else g'.(lastId := read[|read| - 1].id, readKnown := true);
        DeliverAppends(moved, read, RankOf(g.lastId), consumer, now);
        DeliveredSource(moved, read, consumer, now, p);
      }
    } else {
      var from := NormalizeId(id);
      var wanted := (q: Pending) => q.consumer == consumer && CompareIds(q.id, from) >= 0;
      var entry := (i: Bytes) => EntryWithId(es, i);
      var r := Redeliver(g'.pending, wanted, entry, count, now, 0);
      RedeliverKeepsList(g'.pending, wanted, entry, count, now, 0, r);
      SameListMember(g'.pending, r.pending, p);
    }
  }

  lemma {:induction false} UndeliveredPast(es: seq<Entry>, cursor: Bytes, count: Option<nat>)
    requires Increasing(es, EntryRank)
    ensures Increasing(Undelivered(es, cursor, count), EntryRank)
    ensures forall e :: e in Undelivered(es, cursor, count) ==> RankOf(cursor) < EntryRank(e)
  {
    var p := (e: Entry) => CompareIds(e.id, cursor) > 0;
    KeepIncreasing(es, p, EntryRank);
    forall e | e in Undelivered(es, cursor, count) ensures RankOf(cursor) < EntryRank(e) {
      KeepMembers(es, p, e);
      CompareIsRank(e.id, cursor);
    }
  }

  // ── Acknowledgement ──────────────────────────────────────────────────

  function AckOne(g: Group, id: Bytes): (Group, nat) {
    var left := Keep(g.pending, (p: Pending) => p.id != id);
    if |left| == |g.pending| then (g.(pending := left), 0)
    else
      var owner := Find(g.pending, (p: Pending) => p.id == id);
      var cs := if owner.None? then g.consumers else AddToCount(g.consumers, g.pending[owner.value].consumer, -1);
      (g.(pending := left, consumers := cs), 1)
  }

  function AckEach(g: Group, ids: seq<Bytes>): (Group, nat) {
    if ids == [] then (g, 0)
    else
      var (h, n) := AckEach(g, ids[..|ids| - 1]);
      var (k, m) := AckOne(h, ids[|ids| - 1]);
      (k, n + m)
  }

  /** `ack`: the stream, and how many IDs were pending; without the group there is nothing to do. */
  function Ack(s: Stream, name: Bytes, ids: seq<Bytes>): (Stream, nat) {
    if name !in s.groups then (s, 0)
    else
      var (g, n) := AckEach(s.groups[name], ids);
      (s.(groups := s.groups[name := g]), n)
  }

  lemma {:induction false} OrderedDistinct(ps: seq<Pending>)
    requires Increasing(ps, PendingRank)
    ensures Distinct(Ids(ps))
  {
    var ids := Ids(ps);
    forall i, j | 0 <= i < j < |ids| ensures ids[i] != ids[j] { assert PendingRank(ps[i]) < PendingRank(ps[j]); }
  }

  /** An ID is pending at most once, so acknowledging it removes just that. */
  lemma {:induction false} AckLeaves(ps: seq<Pending>, id: Bytes, i: nat)
    requires Distinct(Ids(ps)) && i < |ps| && ps[i].id == id
    ensures Keep(ps, (p: Pending) => p.id != id) == ps[..i] + ps[i + 1..]
    ensures Find(ps, (p: Pending) => p.id == id) == Some(i)
  {
    forall j | 0 <= j < |ps| && j != i ensures ps[j].id != id { assert Ids(ps)[j] != Ids(ps)[i]; }
    KeepAllBut(ps, (p: Pending) => p.id != id, i);
  }

  lemma {:induction false} OwnedWithout(ps: seq<Pending>, i: nat, c: Bytes)
    requires i < |ps|
    ensures Owned(ps[..i] + ps[i + 1..], c) == Owned(ps, c) - if ps[i].consumer == c then 1 else 0
  {
    OwnedAppend(ps[..i], ps[i + 1..], c);
    assert ps == ps[..i + 1] + ps[i + 1..];
    OwnedAppend(ps[..i + 1], ps[i + 1..], c);
    assert ps[..i + 1][..i] == ps[..i];
  }

  /** Acknowledging a pending ID takes it off the list and off its owner's count. */
  lemma {:induction false} AckOneRemoves(g: Group, id: Bytes, i: nat)
    requires Distinct(Ids(g.pending)) && i < |g.pending| && g.pending[i].id == id
    ensures AckOne(g, id) == (g.(pending := g.pending[..i] + g.pending[i + 1..],
                                 consumers := AddToCount(g.consumers, g.pending[i].consumer, -1)), 1)
  {
    AckLeaves(g.pending, id, i);
  }

  lemma {:induction false} AckOneMisses(g: Group, id: Bytes)
    requires forall p :: p in g.pending ==> p.id != id
    ensures AckOne(g, id) == (g, 0)
  {
    KeepStretch(g.pending, (p: Pending) => p.id != id, 0, |g.pending|);
    assert g.pending[0..|g.pending|] == g.pending;
  }

  lemma {:induction false} RemovalOrdered(ps: seq<Pending>, i: nat)
    requires Increasing(ps, PendingRank) && i < |ps|
    ensures Increasing(ps[..i] + ps[i + 1..], PendingRank)
    ensures forall p :: p in ps[..i] + ps[i + 1..] ==> p in ps
  {
    OrderedDistinct(ps);
    AckLeaves(ps, ps[i].id, i);
    KeepIncreasing(ps, (p: Pending) => p.id != ps[i].id, PendingRank);
  }

  lemma {:induction false} RemovalCounted(g: Group, i: nat)
    requires Counted(g) && i < |g.pending| && g.pending[i].consumer in g.consumers
    ensures Counted(g.(pending := g.pending[..i] + g.pending[i + 1..],
                       consumers := AddToCount(g.consumers, g.pending[i].consumer, -1)))
  {
    var left := g.pending[..i] + g.pending[i + 1..];
    var cs := AddToCount(g.consumers, g.pending[i].consumer, -1);
    forall c | c in cs ensures cs[c].numPending == Owned(left, c) {
      OwnedWithout(g.pending, i, c);
    }
  }

  lemma {:induction false} RemovalKeeps(g: Group, i: nat)
    requires ValidGroup(g) && i < |g.pending|
    ensures ValidGroup(g.(pending := g.pending[..i] + g.pending[i + 1..],
                          consumers := AddToCount(g.consumers, g.pending[i].consumer, -1)))
  {
    assert g.pending[i] in g.pending;
    RemovalOrdered(g.pending, i);
    RemovalCounted(g, i);
  }

  lemma {:induction false} AckOneKeeps(g: Group, id: Bytes)
    requires ValidGroup(g)
    ensures ValidGroup(AckOne(g, id).0) && AckOne(g, id).0.lastId == g.lastId
    ensures |AckOne(g, id).0.pending| + AckOne(g, id).1 == |g.pending|
  {
    OrderedDistinct(g.pending);
    if i :| 0 <= i < |g.pending| && g.pending[i].id == id {
      AckOneRemoves(g, id, i);
      RemovalKeeps(g, i);
    } else {
      AckOneMisses(g, id);
    }
  }

  lemma {:induction false} AckEachKeeps(g: Group, ids: seq<Bytes>)
    requires ValidGroup(g)
    ensures ValidGroup(AckEach(g, ids).0) && AckEach(g, ids).0.lastId == g.lastId
    ensures |AckEach(g, ids).0.pending| + AckEach(g, ids).1 == |g.pending|
  {
    if ids != [] {
      AckEachKeeps(g, ids[..|ids| - 1]);
      AckOneKeeps(AckEach(g, ids[..|ids| - 1]).0, ids[|ids| - 1]);
    }
  }

  lemma {:induction false} AckShrinks(g: Group, id: Bytes)
    requires IsPending(g.pending, id)
    ensures |AckOne(g, id).0.pending| < |g.pending|
  {
    var p :| p in g.pending && p.id == id;
    var i :| 0 <= i < |g.pending| && g.pending[i] == p;
    KeepDrops(g.pending, (q: Pending) => q.id != id, i);
  }

  /** Acknowledging shortens the list exactly when one of the IDs is pending, and otherwise changes nothing. */
  lemma {:induction false} AckChangesExactly(g: Group, ids: seq<Bytes>)
    ensures if exists id :: id in ids && IsPending(g.pending, id)
            then |AckEach(g, ids).0.pending| < |g.pending|
            else AckEach(g, ids).0 == g
  {
    if ids != [] {
      var front, last := ids[..|ids| - 1], ids[|ids| - 1];
      assert forall id :: id in ids <==> id == last || id in front;
      AckChangesExactly(g, front);
      var h := AckEach(g, front).0;
      if IsPending(h.pending, last) {
        AckShrinks(h, last);
      } else {
        AckOneMisses(h, last);
      }
    }
  }
}

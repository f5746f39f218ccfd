/** Which IDs a group's pending list holds, whatever was done to it, and when the list is still in order. */
module StreamLists {
  import opened Bytes
  import opened Sorted
  import opened StreamIds
  import opened Streams
  import opened StreamGroups
  import opened StreamClaims

  // ── The IDs of a list ────────────────────────────────────────────────

  function EntryIds(es: seq<Entry>): (ids: seq<Bytes>)
    ensures |ids| == |es| && forall i :: 0 <= i < |es| ==> ids[i] == es[i].id
  {
    seq(|es|, i requires 0 <= i < |es| => es[i].id)
  }

  /** The IDs on the list. */
  function Held(ps: seq<Pending>): set<Bytes> {
    Elements(Ids(ps))
  }

  /** A new ID goes to the end; one that is there already stays where it is. */
  function Extend(held: seq<Bytes>, id: Bytes): seq<Bytes> {
    if id in held then held else held + [id]
  }

  function Extended(held: seq<Bytes>, ids: seq<Bytes>): seq<Bytes> {
    if ids == [] then held else Extend(Extended(held, ids[..|ids| - 1]), ids[|ids| - 1])
  }

  lemma {:induction false} ExtendedFirst(held: seq<Bytes>, ids: seq<Bytes>)
    requires ids != []
    ensures Extended(held, ids) == Extended(Extend(held, ids[0]), ids[1..])
  {
    var n := |ids| - 1;
    if n == 0 {
      assert ids[..n] == [] && ids[1..] == [];
    } else {
      ExtendedFirst(held, ids[..n]);
      assert ids[..n][1..] == ids[1..][..n - 1];
    }
  }

  lemma {:induction false} ExtendedHolds(held: seq<Bytes>, ids: seq<Bytes>)
    ensures Elements(Extended(held, ids)) == Elements(held) + Elements(ids)
    ensures Distinct(held) ==> Distinct(Extended(held, ids))
  {
    if ids != [] {
      var front, last := ids[..|ids| - 1], ids[|ids| - 1];
      assert ids == front + [last];
      ExtendedHolds(held, front);
      var e := Extended(held, front);
      assert forall x :: x in Elements(e + [last]) <==> x in Elements(e) || x == last;
    }
  }

  /** A list without repetitions has as many elements as places. */
  lemma {:induction false} DistinctSize(ids: seq<Bytes>)
    requires Distinct(ids)
    ensures |Elements(ids)| == |ids|
  {
    if ids != [] {
      var front, last := ids[..|ids| - 1], ids[|ids| - 1];
      DistinctSize(front);
      assert ids == front + [last];
      assert Elements(ids) == Elements(front) + {last} && last !in Elements(front);
    }
  }

  lemma {:induction false} IncreasingDistinct(ids: seq<Bytes>)
    requires Increasing(ids, RankOf)
    ensures Distinct(ids)
  {
    forall i, j | 0 <= i < j < |ids| ensures ids[i] != ids[j] { assert RankOf(ids[i]) < RankOf(ids[j]); }
  }

  // ── What every command keeps, and what order needs besides ───────────

  /** IDs are distinct, owners known, counters exact. */
  ghost predicate SoundGroup(g: Group) {
    Distinct(Ids(g.pending)) && (forall p :: p in g.pending ==> p.consumer in g.consumers) && Counted(g)
  }

  /** The IDs increase and none is past the cursor. */
  ghost predicate InOrder(ids: seq<Bytes>, cursor: Bytes) {
    Increasing(ids, RankOf) && forall id :: id in ids ==> RankOf(id) <= RankOf(cursor)
  }

  lemma {:induction false} IdsIncrease(ps: seq<Pending>)
    ensures Increasing(Ids(ps), RankOf) <==> Increasing(ps, PendingRank)
  {
    var ids := Ids(ps);
    if Increasing(ps, PendingRank) {
      forall i, j | 0 <= i < j < |ids| ensures RankOf(ids[i]) < RankOf(ids[j]) {
        assert PendingRank(ps[i]) < PendingRank(ps[j]);
      }
    }
    if Increasing(ids, RankOf) {
      forall i, j | 0 <= i < j < |ps| ensures PendingRank(ps[i]) < PendingRank(ps[j]) {
        assert RankOf(ids[i]) < RankOf(ids[j]);
      }
    }
  }

  lemma {:induction false} IdsMember(ps: seq<Pending>, id: Bytes)
    ensures id in Ids(ps) <==> IsPending(ps, id)
    ensures id in Held(ps) <==> IsPending(ps, id)
  {
    if IsPending(ps, id) {
      var p :| p in ps && p.id == id;
      var i :| 0 <= i < |ps| && ps[i] == p;
      assert Ids(ps)[i] == id;
    }
    if id in Ids(ps) {
      var i :| 0 <= i < |ps| && Ids(ps)[i] == id;
      assert ps[i] in ps && ps[i].id == id;
    }
  }

  lemma {:induction false} IdsBounded(ps: seq<Pending>, key: Bytes -> nat, limit: nat)
    ensures (forall id :: id in Ids(ps) ==> key(id) <= limit) <==> (forall p :: p in ps ==> key(p.id) <= limit)
  {
    if forall id :: id in Ids(ps) ==> key(id) <= limit {
      forall p | p in ps ensures key(p.id) <= limit {
        var i :| 0 <= i < |ps| && ps[i] == p;
        assert Ids(ps)[i] in Ids(ps);
      }
    }
    if forall p :: p in ps ==> key(p.id) <= limit {
      forall id | id in Ids(ps) ensures key(id) <= limit {
        var i :| 0 <= i < |ps| && Ids(ps)[i] == id;
        assert ps[i] in ps;
      }
    }
  }

  /** A valid group is a sound one whose list is in order. */
  lemma {:induction false} ValidExactly(g: Group)
    ensures ValidGroup(g) <==> SoundGroup(g) && InOrder(Ids(g.pending), g.lastId)
  {
    IdsIncrease(g.pending);
    IdsBounded(g.pending, RankOf, RankOf(g.lastId));
    if Increasing(Ids(g.pending), RankOf) { IncreasingDistinct(Ids(g.pending)); }
    assert forall p :: PendingRank(p) == RankOf(p.id);
  }

  // ── Changing hands, going on and off the list ────────────────────────

  lemma {:induction false} EnsureSound(g: Group, name: Bytes, now: int)
    requires SoundGroup(g)
    ensures SoundGroup(EnsureConsumer(g, name, now))
  {
    if name !in g.consumers { OwnsNothing(g.pending, name); }
  }

  lemma {:induction false} TransferSound(g: Group, i: nat, consumer: Bytes, now: int)
    requires SoundGroup(g) && i < |g.pending| && consumer in g.consumers
    ensures var h := Transfer(g, i, consumer, now);
            SoundGroup(h) && consumer in h.consumers && Ids(h.pending) == Ids(g.pending) && h.lastId == g.lastId
  {
    var h := Transfer(g, i, consumer, now);
    assert g.pending[i] in g.pending;
    TransferCounts(g, i, consumer, now);
    assert Ids(h.pending) == Ids(g.pending);
    forall q | q in h.pending ensures q.consumer in h.consumers {
      var j :| 0 <= j < |h.pending| && h.pending[j] == q;
      assert g.pending[j] in g.pending;
    }
  }

  lemma {:induction false} PushSound(g: Group, id: Bytes, consumer: Bytes, now: int)
    requires SoundGroup(g) && consumer in g.consumers && id !in Ids(g.pending)
    ensures var h := Push(g, id, consumer, now);
            SoundGroup(h) && consumer in h.consumers && Ids(h.pending) == Ids(g.pending) + [id] && h.lastId == g.lastId
  {
    var h := Push(g, id, consumer, now);
    PushCounts(g, id, consumer, now);
    assert Ids(h.pending) == Ids(g.pending) + [id];
  }

  /** Where an ID stands on the list, if it does. */
  lemma {:induction false} FindId(ps: seq<Pending>, id: Bytes)
    ensures var at := Find(ps, (p: Pending) => p.id == id);
            && (at.Some? <==> id in Ids(ps)) && (at.Some? ==> ps[at.value].id == id)
  {
    var at := Find(ps, (p: Pending) => p.id == id);
    if at.Some? { assert Ids(ps)[at.value] == id; }
  }

  // ── Acknowledging ────────────────────────────────────────────────────

  lemma {:induction false} DistinctWithout(ids: seq<Bytes>, i: nat, left: seq<Bytes>)
    requires Distinct(ids) && i < |ids| && left == ids[..i] + ids[i + 1..]
    ensures Distinct(left) && Elements(left) == Elements(ids) - {ids[i]}
  {
    forall x ensures x in left <==> x in ids && x != ids[i] {
      assert ids == ids[..i] + [ids[i]] + ids[i + 1..];
      assert x in left <==> x in ids[..i] || x in ids[i + 1..];
    }
  }

  lemma {:induction false} IdsWithout(ps: seq<Pending>, i: nat)
    requires i < |ps|
    ensures Ids(ps[..i] + ps[i + 1..]) == Ids(ps)[..i] + Ids(ps)[i + 1..]
    ensures forall p :: p in ps[..i] + ps[i + 1..] ==> p in ps
  {}

  lemma {:induction false} RemovalSound(g: Group, i: nat, h: Group)
    requires SoundGroup(g) && i < |g.pending|
    requires h == g.(pending := g.pending[..i] + g.pending[i + 1..],
                     consumers := AddToCount(g.consumers, g.pending[i].consumer, -1))
    ensures SoundGroup(h) && Held(h.pending) == Held(g.pending) - {g.pending[i].id}
  {
    assert g.pending[i] in g.pending;
    RemovalCounted(g, i);
    IdsWithout(g.pending, i);
    DistinctWithout(Ids(g.pending), i, Ids(h.pending));
  }

  lemma {:induction false} AckOneSound(g: Group, id: Bytes)
    requires SoundGroup(g)
    ensures var (h, n) := AckOne(g, id);
            && SoundGroup(h) && h.lastId == g.lastId && h.consumers.Keys == g.consumers.Keys
            && Held(h.pending) == Held(g.pending) - {id} && n == |Held(g.pending) * {id}|
  {
    IdsMember(g.pending, id);
    if i :| 0 <= i < |g.pending| && g.pending[i].id == id {
      assert g.pending[i] in g.pending;
      AckOneRemoves(g, id, i);
      RemovalSound(g, i, AckOne(g, id).0);
      assert Held(g.pending) * {id} == {id};
    } else {
      AckOneMisses(g, id);
      assert Held(g.pending) * {id} == {};
    }
  }

  lemma {:induction false} TakenOff(held: set<Bytes>, front: set<Bytes>, last: Bytes, all: set<Bytes>)
    requires all == front + {last}
    ensures held - front - {last} == held - all
    ensures |held * all| == |held * front| + |(held - front) * {last}|
  {
    assert held * all == held * front + (held - front) * {last};
    assert (held * front) !! ((held - front) * {last});
  }

  /** Acknowledging takes exactly the listed IDs off, and the reply is how many were there. */
  lemma {:induction false} AckEachSound(g: Group, ids: seq<Bytes>)
    requires SoundGroup(g)
    ensures var (h, n) := AckEach(g, ids);
            && SoundGroup(h) && h.lastId == g.lastId
            && Held(h.pending) == Held(g.pending) - Elements(ids) && n == |Held(g.pending) * Elements(ids)|
  {
    if ids != [] {
      var front, last := ids[..|ids| - 1], ids[|ids| - 1];
      assert ids == front + [last];
      AckEachSound(g, front);
      AckOneSound(AckEach(g, front).0, last);
      TakenOff(Held(g.pending), Elements(front), last, Elements(ids));
    }
  }

  // ── Claims ───────────────────────────────────────────────────────────

  lemma {:induction false} ForceOneSound(es: seq<Entry>, g: Group, id: Bytes, consumer: Bytes, now: int)
    requires SoundGroup(g) && consumer in g.consumers
    ensures var h := ClaimOne(es, g, id, consumer, true, now);
            && SoundGroup(h) && consumer in h.consumers && h.lastId == g.lastId
            && Ids(h.pending) == Extend(Ids(g.pending), id)
  {
    FindId(g.pending, id);
    var at := Find(g.pending, (p: Pending) => p.id == id);
    if at.Some? {
      TransferSound(g, at.value, consumer, now);
    } else {
      PushSound(g, id, consumer, now);
    }
  }

  /** A forced claim adds the listed IDs that are not held, in the order they are listed. */
  lemma {:induction false} ForceExtends(es: seq<Entry>, g: Group, ids: seq<Bytes>, consumer: Bytes, now: int)
    requires SoundGroup(g) && consumer in g.consumers
    ensures var h := ClaimEach(es, g, ids, consumer, true, now);
            SoundGroup(h) && h.lastId == g.lastId && Ids(h.pending) == Extended(Ids(g.pending), ids)
    decreases |ids|
  {
    if ids != [] {
      ForceOneSound(es, g, ids[0], consumer, now);
      ForceExtends(es, ClaimOne(es, g, ids[0], consumer, true, now), ids[1..], consumer, now);
      ExtendedFirst(Ids(g.pending), ids);
    }
  }

  /** A forced claim keeps a valid group valid exactly when the list, so extended, is in order under the cursor. */
  lemma {:induction false} ForceKeepsExactly(es: seq<Entry>, g: Group, ids: seq<Bytes>, consumer: Bytes, now: int)
    requires ValidGroup(g) && consumer in g.consumers
    ensures ValidGroup(ClaimEach(es, g, ids, consumer, true, now)) <==> InOrder(Extended(Ids(g.pending), ids), g.lastId)
  {
    ValidExactly(g);
    ForceExtends(es, g, ids, consumer, now);
    ValidExactly(ClaimEach(es, g, ids, consumer, true, now));
  }

  /** The listed IDs whose entries are gone. */
  function Gone(es: seq<Entry>, ids: seq<Bytes>): set<Bytes> {
    set id | id in ids && EntryWithId(es, id).None?
  }

  lemma {:induction false} ClaimOneSound(es: seq<Entry>, g: Group, id: Bytes, consumer: Bytes, now: int)
    requires SoundGroup(g) && consumer in g.consumers
    ensures var h := ClaimOne(es, g, id, consumer, false, now);
            && SoundGroup(h) && consumer in h.consumers && h.lastId == g.lastId
            && Held(h.pending) == Held(g.pending) - (if EntryWithId(es, id).None? then {id} else {})
  {
    FindId(g.pending, id);
    AckOneSound(g, id);
    var at := Find(g.pending, (p: Pending) => p.id == id);
    if at.Some? { TransferSound(g, at.value, consumer, now); }
  }

  /** A claim without FORCE takes exactly those off the list whose entries are gone. */
  lemma {:induction false} ClaimSound(es: seq<Entry>, g: Group, ids: seq<Bytes>, consumer: Bytes, now: int)
    requires SoundGroup(g) && consumer in g.consumers
    ensures var h := ClaimEach(es, g, ids, consumer, false, now);
            SoundGroup(h) && h.lastId == g.lastId && Held(h.pending) == Held(g.pending) - Gone(es, ids)
    decreases |ids|
  {
    if ids != [] {
      ClaimOneSound(es, g, ids[0], consumer, now);
      ClaimSound(es, ClaimOne(es, g, ids[0], consumer, false, now), ids[1..], consumer, now);
      assert forall id :: id in ids <==> id == ids[0] || id in ids[1..];
      assert Gone(es, ids) == Gone(es, ids[1..]) + if EntryWithId(es, ids[0]).None? then {ids[0]} else {};
    }
  }

  lemma {:induction false} AutoClaimSound(g: Group, i: nat, ready: Pending -> bool, consumer: Bytes, count: nat,
                                          now: int, claimed: nat)
    requires SoundGroup(g) && consumer in g.consumers
    ensures var h := AutoClaimFrom(g, i, ready, consumer, count, now, claimed);
            SoundGroup(h) && h.lastId == g.lastId && Ids(h.pending) == Ids(g.pending)
    decreases |g.pending| - i
  {
    if i < |g.pending| {
      if !ready(g.pending[i]) {
        AutoClaimSound(g, i + 1, ready, consumer, count, now, claimed);
      } else {
        TransferSound(g, i, consumer, now);
        if claimed + 1 < count {
          AutoClaimSound(Transfer(g, i, consumer, now), i + 1, ready, consumer, count, now, claimed + 1);
        }
      }
    }
  }

  // ── Deleting a consumer ──────────────────────────────────────────────

  /** The IDs a consumer answers for. */
  ghost function OwnedBy(ps: seq<Pending>, consumer: Bytes): set<Bytes> {
    set p | p in ps && p.consumer == consumer :: p.id
  }

  lemma {:induction false} KeptDistinct(ps: seq<Pending>, keep: Pending -> bool)
    requires Distinct(Ids(ps))
    ensures Distinct(Ids(Keep(ps, keep))) && (forall p :: p in Keep(ps, keep) <==> p in ps && keep(p))
  {
    if ps != [] {
      var front, last := ps[..|ps| - 1], ps[|ps| - 1];
      assert Ids(front) == Ids(ps)[..|front|];
      KeptDistinct(front, keep);
      forall p ensures p in Keep(ps, keep) <==> p in ps && keep(p) { KeepMembers(ps, keep, p); }
      var kept := Ids(Keep(front, keep));
      forall i | 0 <= i < |kept| ensures kept[i] != last.id {
        assert Keep(front, keep)[i] in front;
        var j :| 0 <= j < |front| && front[j] == Keep(front, keep)[i];
        assert Ids(ps)[j] != Ids(ps)[|front|];
      }
    }
  }

  /** An ID names one place on a list. */
  lemma {:induction false} SamePlace(ps: seq<Pending>, p: Pending, q: Pending)
    requires Distinct(Ids(ps)) && p in ps && q in ps && p.id == q.id
    ensures p == q
  {
    var i :| 0 <= i < |ps| && ps[i] == p;
    var j :| 0 <= j < |ps| && ps[j] == q;
    assert Ids(ps)[i] == Ids(ps)[j];
  }

  /** Deleting a consumer takes exactly its own IDs off the list. */
  lemma {:induction false} DropConsumerSound(g: Group, consumer: Bytes)
    requires SoundGroup(g)
    ensures var h := DropConsumer(g, consumer);
            && SoundGroup(h) && h.lastId == g.lastId
            && Held(h.pending) == Held(g.pending) - OwnedBy(g.pending, consumer)
            && OwnedBy(g.pending, consumer) <= Held(g.pending)
  {
    var h, other := DropConsumer(g, consumer), (p: Pending) => p.consumer != consumer;
    KeptDistinct(g.pending, other);
    forall c | c in h.consumers ensures h.consumers[c].numPending == Owned(h.pending, c) {
      OwnedKept(g.pending, other, c);
    }
    forall id ensures id in Held(h.pending) <==> id in Held(g.pending) && id !in OwnedBy(g.pending, consumer) {
      IdsMember(g.pending, id);
      IdsMember(h.pending, id);
      forall p, q | p in g.pending && q in g.pending && p.id == id == q.id ensures p == q {
        SamePlace(g.pending, p, q);
      }
    }
    forall id | id in OwnedBy(g.pending, consumer) ensures id in Held(g.pending) { IdsMember(g.pending, id); }
  }

  // ── Delivery ─────────────────────────────────────────────────────────

  /** An entry that is pending already changes hands. */
  lemma {:induction false} DeliverTransfers(g: Group, e: Entry, consumer: Bytes, now: int)
    requires consumer in g.consumers && e.id in Ids(g.pending)
    ensures var at := Find(g.pending, (p: Pending) => p.id == e.id);
            at.Some? && DeliverOne(g, e, consumer, now) == Transfer(g, at.value, consumer, now)
  {
    FindId(g.pending, e.id);
    var cs, owner := g.consumers, g.pending[Find(g.pending, (p: Pending) => p.id == e.id).value].consumer;
    if owner == consumer { assert AddToCount(AddToCount(cs, owner, -1), consumer, 1) == cs; }
  }

  lemma {:induction false} DeliverNewSound(g: Group, e: Entry, consumer: Bytes, now: int)
    requires SoundGroup(g) && consumer in g.consumers && e.id !in Ids(g.pending)
    ensures var h := DeliverOne(g, e, consumer, now);
            SoundGroup(h) && consumer in h.consumers && Ids(h.pending) == Ids(g.pending) + [e.id] && h.lastId == g.lastId
  {
    FindId(g.pending, e.id);
    PushSound(g, e.id, consumer, now);
    var h, k := DeliverOne(g, e, consumer, now), Push(g, e.id, consumer, now);
    assert h.pending == k.pending && h.consumers.Keys == k.consumers.Keys;
    assert forall c :: c in h.consumers ==> h.consumers[c].numPending == k.consumers[c].numPending;
  }

  /** Delivering entries to a consumer puts the IDs that are not held on the list, in order. */
  lemma {:induction false} DeliverExtends(g: Group, es: seq<Entry>, consumer: Bytes, now: int)
    requires SoundGroup(g) && consumer in g.consumers
    ensures var h := Deliver(g, es, consumer, now);
            && SoundGroup(h) && consumer in h.consumers && h.lastId == g.lastId
            && Ids(h.pending) == Extended(Ids(g.pending), EntryIds(es))
  {
    if es != [] {
      var front, e := es[..|es| - 1], es[|es| - 1];
      DeliverExtends(g, front, consumer, now);
      var h := Deliver(g, front, consumer, now);
      var ids := EntryIds(es);
      assert ids[..|ids| - 1] == EntryIds(front) && ids[|ids| - 1] == e.id;
      if e.id in Ids(h.pending) {
        DeliverTransfers(h, e, consumer, now);
        TransferSound(h, Find(h.pending, (p: Pending) => p.id == e.id).value, consumer, now);
      } else {
        DeliverNewSound(h, e, consumer, now);
      }
    }
  }

  lemma {:induction false} SameListSound(g: Group, qs: seq<Pending>)
    requires SoundGroup(g) && SameList(g.pending, qs)
    ensures SoundGroup(g.(pending := qs)) && Ids(qs) == Ids(g.pending)
  {
    assert Ids(qs) == Ids(g.pending);
    forall q | q in qs ensures q.consumer in g.consumers { SameListMember(g.pending, qs, q); }
    forall c | c in g.consumers ensures g.consumers[c].numPending == Owned(qs, c) { SameListOwned(g.pending, qs, c); }
  }

  /** What a read puts on the list: the new entries, unless NOACK; a redelivery puts nothing there. */
  function PutOn(id: Bytes, read: seq<Entry>, noack: bool): seq<Bytes> {
    if id == [GREATER] && !noack then EntryIds(read) else []
  }

  /** Every read of every sound group leaves a sound group, with exactly the entries put on it added to its list. */
  lemma {:induction false} ReadExtends(es: seq<Entry>, g: Group, consumer: Bytes, id: Bytes, count: Option<nat>,
                                       noack: bool, now: int, h: Group, read: seq<Entry>)
    requires SoundGroup(g) && (h, read) == ReadFrom(es, g, consumer, id, count, noack, now)
    ensures SoundGroup(h) && Ids(h.pending) == Extended(Ids(g.pending), PutOn(id, read, noack))
    ensures id == [GREATER] ==> read == Undelivered(es, g.lastId, count)
    ensures h.lastId == if id == [GREATER] && read != [] then read[|read| - 1].id else g.lastId
  {
    EnsureSound(g, consumer, now);
    var e := EnsureConsumer(g, consumer, now);
    if id == [GREATER] {
      var moved := if read == [] then e else e.(lastId := read[|read| - 1].id, readKnown := true);
      assert SoundGroup(moved);
      DeliverExtends(moved, read, consumer, now);
    } else {
      var from := NormalizeId(id);
      var wanted := (p: Pending) => p.consumer == consumer && CompareIds(p.id, from) >= 0;
      var entry := (i: Bytes) => EntryWithId(es, i);
      var r := Redeliver(e.pending, wanted, entry, count, now, 0);
      RedeliverKeepsList(e.pending, wanted, entry, count, now, 0, r);
      SameListSound(e, r.pending);
    }
  }

  lemma {:induction false} ReadHeld(es: seq<Entry>, g: Group, consumer: Bytes, id: Bytes, count: Option<nat>,
                                    noack: bool, now: int, h: Group, read: seq<Entry>)
    requires SoundGroup(g) && (h, read) == ReadFrom(es, g, consumer, id, count, noack, now)
    ensures Held(h.pending) == Held(g.pending) + Elements(PutOn(id, read, noack))
  {
    ReadExtends(es, g, consumer, id, count, noack, now, h, read);
    ExtendedHolds(Ids(g.pending), PutOn(id, read, noack));
  }
}

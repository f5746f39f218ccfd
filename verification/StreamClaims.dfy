/** Consumers that come and go, and pending entries that change hands: XCLAIM, XAUTOCLAIM and the consumer commands. */
module StreamClaims {
  import opened Bytes
  import opened Sorted
  import opened StreamIds
  import opened Streams
  import opened StreamGroups

  // ── Changing hands ───────────────────────────────────────────────────

  /** A pending entry goes to another consumer, and counts as delivered once more. */
  function Transfer(g: Group, i: nat, consumer: Bytes, now: int): Group
    requires i < |g.pending|
  {
    var p := g.pending[i];
    g.(pending := g.pending[i := Pending(p.id, consumer, p.deliveries + 1, now)],
       consumers := AddToCount(AddToCount(g.consumers, p.consumer, -1), consumer, 1))
  }

  function Push(g: Group, id: Bytes, consumer: Bytes, now: int): Group {
    g.(pending := g.pending + [Pending(id, consumer, 1, now)], consumers := AddToCount(g.consumers, consumer, 1))
  }

  /** One ID of XCLAIM: a deleted entry leaves the list, a pending one changes hands, and FORCE adds any other. */
  function ClaimOne(es: seq<Entry>, g: Group, id: Bytes, consumer: Bytes, force: bool, now: int): Group {
    if !force && EntryWithId(es, id).None? then AckOne(g, id).0
    else
      match Find(g.pending, (p: Pending) => p.id == id)
      case Some(i) => Transfer(g, i, consumer, now)
      case None => if force then Push(g, id, consumer, now) else g
  }

  function ClaimEach(es: seq<Entry>, g: Group, ids: seq<Bytes>, consumer: Bytes, force: bool, now: int): Group
    decreases |ids|
  {
    if ids == [] then g
    else ClaimEach(es, ClaimOne(es, g, ids[0], consumer, force, now), ids[1..], consumer, force, now)
  }

  /** The loop of XAUTOCLAIM over the pending list, with `claimed` entries so far: it stops once `count` is reached. */
  function AutoClaimFrom(g: Group, i: nat, ready: Pending -> bool, consumer: Bytes, count: nat, now: int, claimed: nat): Group
    decreases |g.pending| - i
  {
    if i >= |g.pending| then g
    else if !ready(g.pending[i]) then AutoClaimFrom(g, i + 1, ready, consumer, count, now, claimed)
    else
      var h := Transfer(g, i, consumer, now);
      if claimed + 1 >= count then h else AutoClaimFrom(h, i + 1, ready, consumer, count, now, claimed + 1)
  }

  /** XGROUP DELCONSUMER: the consumer goes, and with it everything pending for it. */
  function DropConsumer(g: Group, consumer: Bytes): Group {
    g.(pending := Keep(g.pending, (p: Pending) => p.consumer != consumer), consumers := g.consumers - {consumer})
  }

  // ── The group stays valid ────────────────────────────────────────────

  lemma {:induction false} OwnedUpdate(ps: seq<Pending>, i: nat, p: Pending, c: Bytes)
    requires i < |ps|
    ensures Owned(ps[i := p], c) ==
            Owned(ps, c) - (if ps[i].consumer == c then 1 else 0) + (if p.consumer == c then 1 else 0)
  {
    var qs := ps[i := p];
    if i == |ps| - 1 {
      assert qs[..i] == ps[..i];
    } else {
      OwnedUpdate(ps[..|ps| - 1], i, p, c);
      assert qs[..|ps| - 1] == ps[..|ps| - 1][i := p];
    }
  }

  lemma {:induction false} TransferCounts(g: Group, i: nat, consumer: Bytes, now: int)
    requires Counted(g) && i < |g.pending| && g.pending[i].consumer in g.consumers && consumer in g.consumers
    ensures Counted(Transfer(g, i, consumer, now))
  {
    var h := Transfer(g, i, consumer, now);
    forall c | c in h.consumers ensures h.consumers[c].numPending == Owned(h.pending, c) {
      OwnedUpdate(g.pending, i, h.pending[i], c);
    }
  }

  lemma {:induction false} TransferOrder(g: Group, i: nat, consumer: Bytes, now: int)
    requires Increasing(g.pending, PendingRank) && i < |g.pending|
    ensures Increasing(Transfer(g, i, consumer, now).pending, PendingRank)
  {
    var qs := Transfer(g, i, consumer, now).pending;
    forall j, k | 0 <= j < k < |qs| ensures PendingRank(qs[j]) < PendingRank(qs[k]) {
      assert PendingRank(g.pending[j]) < PendingRank(g.pending[k]);
    }
  }

  lemma {:induction false} TransferKeeps(g: Group, i: nat, consumer: Bytes, now: int)
    requires ValidGroup(g) && i < |g.pending| && consumer in g.consumers
    ensures ValidGroup(Transfer(g, i, consumer, now)) && consumer in Transfer(g, i, consumer, now).consumers
  {
    var h := Transfer(g, i, consumer, now);
    assert g.pending[i] in g.pending;
    TransferCounts(g, i, consumer, now);
    TransferOrder(g, i, consumer, now);
    forall q | q in h.pending ensures PendingRank(q) <= RankOf(g.lastId) && q.consumer in h.consumers {
      var j :| 0 <= j < |h.pending| && h.pending[j] == q;
      assert g.pending[j] in g.pending;
    }
  }

  lemma {:induction false} ClaimKeeps(es: seq<Entry>, g: Group, ids: seq<Bytes>, consumer: Bytes, now: int)
    requires ValidGroup(g) && consumer in g.consumers
    ensures ValidGroup(ClaimEach(es, g, ids, consumer, false, now))
    decreases |ids|
  {
    if ids != [] {
      var id, h := ids[0], ClaimOne(es, g, ids[0], consumer, false, now);
      AckOneKeeps(g, id);
      var at := Find(g.pending, (p: Pending) => p.id == id);
      if EntryWithId(es, id).Some? && at.Some? {
        TransferKeeps(g, at.value, consumer, now);
      }
      ClaimKeeps(es, h, ids[1..], consumer, now);
    }
  }

  lemma {:induction false} AutoClaimKeeps(g: Group, i: nat, ready: Pending -> bool, consumer: Bytes, count: nat,
                                          now: int, claimed: nat)
    requires ValidGroup(g) && consumer in g.consumers
    ensures ValidGroup(AutoClaimFrom(g, i, ready, consumer, count, now, claimed))
    decreases |g.pending| - i
  {
    if i < |g.pending| {
      if !ready(g.pending[i]) {
        AutoClaimKeeps(g, i + 1, ready, consumer, count, now, claimed);
      } else {
        TransferKeeps(g, i, consumer, now);
        if claimed + 1 < count {
          AutoClaimKeeps(Transfer(g, i, consumer, now), i + 1, ready, consumer, count, now, claimed + 1);
        }
      }
    }
  }

  lemma {:induction false} PushCounts(g: Group, id: Bytes, consumer: Bytes, now: int)
    requires Counted(g) && consumer in g.consumers
    ensures Counted(Push(g, id, consumer, now))
  {
    var h, p := Push(g, id, consumer, now), Pending(id, consumer, 1, now);
    forall c | c in h.consumers ensures h.consumers[c].numPending == Owned(h.pending, c) {
      OwnedAppend(g.pending, [p], c);
      assert Owned([p][..0], c) == 0;
    }
  }

  lemma {:induction false} OwnedKept(ps: seq<Pending>, keep: Pending -> bool, c: Bytes)
    requires forall p: Pending :: p.consumer == c ==> keep(p)
    ensures Owned(Keep(ps, keep), c) == Owned(ps, c)
  {
    if ps != [] {
      var front, last := ps[..|ps| - 1], ps[|ps| - 1];
      OwnedKept(front, keep, c);
      var kept := Keep(front, keep);
      assert (kept + [last])[..|kept|] == kept && kept + [] == kept;
    }
  }

  lemma {:induction false} DropConsumerKeeps(g: Group, consumer: Bytes)
    requires ValidGroup(g)
    ensures ValidGroup(DropConsumer(g, consumer))
  {
    var h, other := DropConsumer(g, consumer), (p: Pending) => p.consumer != consumer;
    KeepIncreasing(g.pending, other, PendingRank);
    forall p | p in h.pending ensures PendingRank(p) <= RankOf(g.lastId) && p.consumer in h.consumers {
      KeepMembers(g.pending, other, p);
    }
    forall c | c in h.consumers ensures h.consumers[c].numPending == Owned(h.pending, c) {
      OwnedKept(g.pending, other, c);
    }
  }

  // ── What leaves a trace ──────────────────────────────────────────────

  lemma {:induction false} DeliveriesUpdate(ps: seq<Pending>, i: nat, p: Pending)
    requires i < |ps|
    ensures Deliveries(ps[i := p]) == Deliveries(ps) - ps[i].deliveries + p.deliveries
  {
    if i == 0 {
      assert ps[0 := p][1..] == ps[1..];
    } else {
      DeliveriesUpdate(ps[1..], i - 1, p);
      assert ps[i := p][1..] == ps[1..][i - 1 := p];
    }
  }

  lemma {:induction false} DeliveriesAppend(ps: seq<Pending>, p: Pending)
    ensures Deliveries(ps + [p]) == Deliveries(ps) + p.deliveries
  {
    if ps == [] {
      assert (ps + [p])[1..] == [];
    } else {
      DeliveriesAppend(ps[1..], p);
      assert (ps + [p])[1..] == ps[1..] + [p];
    }
  }

  /** Claims never come back to an earlier list: without FORCE it gets shorter or is delivered more, with it more. */
  ghost predicate Moved(g: Group, h: Group, force: bool) {
    if force then Deliveries(h.pending) > Deliveries(g.pending)
    else || |h.pending| < |g.pending|
         || (|h.pending| == |g.pending| && Deliveries(h.pending) > Deliveries(g.pending))
  }

  lemma {:induction false} ClaimOneMoves(es: seq<Entry>, g: Group, id: Bytes, consumer: Bytes, force: bool, now: int)
    ensures var h := ClaimOne(es, g, id, consumer, force, now);
            if force || IsPending(g.pending, id) then Moved(g, h, force) else h == g
  {
    var at := Find(g.pending, (p: Pending) => p.id == id);
    if at.Some? {
      assert g.pending[at.value] in g.pending && IsPending(g.pending, id);
      var p := g.pending[at.value];
      DeliveriesUpdate(g.pending, at.value, Pending(p.id, consumer, p.deliveries + 1, now));
      AckShrinks(g, id);
    } else {
      DeliveriesAppend(g.pending, Pending(id, consumer, 1, now));
      AckOneMisses(g, id);
    }
  }

  /** One of the IDs is pending, or FORCE makes it so. */
  ghost predicate ClaimHits(ps: seq<Pending>, ids: seq<Bytes>, force: bool) {
    exists id :: id in ids && (force || IsPending(ps, id))
  }

  lemma {:induction false} ClaimHitsFirst(ps: seq<Pending>, ids: seq<Bytes>, force: bool)
    requires ids != []
    ensures ClaimHits(ps, ids, force) <==> force || IsPending(ps, ids[0]) || ClaimHits(ps, ids[1..], force)
  {
    assert ids[0] in ids;
    assert forall id :: id in ids <==> id == ids[0] || id in ids[1..];
  }

  lemma {:induction false} ClaimMoves(es: seq<Entry>, g: Group, ids: seq<Bytes>, consumer: Bytes, force: bool, now: int)
    ensures var h := ClaimEach(es, g, ids, consumer, force, now);
            if ClaimHits(g.pending, ids, force) then Moved(g, h, force) else h == g
    decreases |ids|
  {
    if ids != [] {
      var h := ClaimOne(es, g, ids[0], consumer, force, now);
      ClaimHitsFirst(g.pending, ids, force);
      ClaimOneMoves(es, g, ids[0], consumer, force, now);
      ClaimMoves(es, h, ids[1..], consumer, force, now);
    }
  }

  /** XCLAIM changes the group exactly when the consumer is new, an ID is pending, or FORCE adds one. */
  lemma {:induction false} ClaimChangesExactly(es: seq<Entry>, g: Group, ids: seq<Bytes>, consumer: Bytes, force: bool, now: int)
    ensures ClaimEach(es, EnsureConsumer(g, consumer, now), ids, consumer, force, now) != g <==>
            consumer !in g.consumers || ClaimHits(g.pending, ids, force)
  {
    var e := EnsureConsumer(g, consumer, now);
    ClaimMoves(es, e, ids, consumer, force, now);
  }

  lemma {:induction false} AutoClaimMoves(g: Group, i: nat, ready: Pending -> bool, consumer: Bytes, count: nat,
                                          now: int, claimed: nat)
    ensures var h := AutoClaimFrom(g, i, ready, consumer, count, now, claimed);
            if exists j :: i <= j < |g.pending| && ready(g.pending[j])
            then Deliveries(h.pending) > Deliveries(g.pending) else h == g
    decreases |g.pending| - i
  {
    if i < |g.pending| {
      if !ready(g.pending[i]) {
        AutoClaimMoves(g, i + 1, ready, consumer, count, now, claimed);
      } else {
        var h := Transfer(g, i, consumer, now);
        DeliveriesUpdate(g.pending, i, h.pending[i]);
        if claimed + 1 < count {
          AutoClaimMoves(h, i + 1, ready, consumer, count, now, claimed + 1);
        }
      }
    }
  }

  /** XAUTOCLAIM changes the group exactly when the consumer is new or an entry is ready to be claimed. */
  lemma {:induction false} AutoClaimChangesExactly(g: Group, ready: Pending -> bool, consumer: Bytes, count: nat, now: int)
    ensures AutoClaimFrom(EnsureConsumer(g, consumer, now), 0, ready, consumer, count, now, 0) != g <==>
            consumer !in g.consumers || exists p :: p in g.pending && ready(p)
  {
    var e := EnsureConsumer(g, consumer, now);
    AutoClaimMoves(e, 0, ready, consumer, count, now, 0);
    if p :| p in g.pending && ready(p) {
      var j :| 0 <= j < |g.pending| && g.pending[j] == p;
      assert ready(e.pending[j]);
    }
  }
}

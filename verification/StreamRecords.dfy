/** The record a group keeps of each pending ID: whose it is, how often and when it was last delivered. */
module StreamRecords {
  import opened Bytes
  import opened Sorted
  import opened StreamIds
  import opened Streams
  import opened StreamGroups
  import opened StreamClaims
  import opened StreamLists
  import opened StreamOps

  // ── Handing listed IDs to a consumer ─────────────────────────────────

  /** A record after its ID went to `consumer` once for each time it is listed. */
  function HandedTo(p: Pending, ids: seq<Bytes>, consumer: Bytes, now: int): Pending {
    if p.id in ids then Pending(p.id, consumer, p.deliveries + multiset(ids)[p.id], now) else p
  }

  function AllHandedTo(ps: seq<Pending>, ids: seq<Bytes>, consumer: Bytes, now: int): (qs: seq<Pending>)
    ensures |qs| == |ps| && forall i :: 0 <= i < |ps| ==> qs[i] == HandedTo(ps[i], ids, consumer, now)
  {
    seq(|ps|, i requires 0 <= i < |ps| => HandedTo(ps[i], ids, consumer, now))
  }

  /** Records of IDs that were never delivered. */
  function Undelivereds(ids: seq<Bytes>, consumer: Bytes, now: int): (ps: seq<Pending>)
    ensures |ps| == |ids| && forall i :: 0 <= i < |ids| ==> ps[i] == Pending(ids[i], consumer, 0, now)
  {
    seq(|ids|, i requires 0 <= i < |ids| => Pending(ids[i], consumer, 0, now))
  }

  /** The list, and after it the listed IDs it does not hold, each once and in order. */
  function Joining(ps: seq<Pending>, ids: seq<Bytes>, consumer: Bytes, now: int): seq<Pending> {
    var all := Extended(Ids(ps), ids);
    if |ps| <= |all| then ps + Undelivereds(all[|ps|..], consumer, now) else ps
  }

  lemma {:induction false} ExtendedPrefix(held: seq<Bytes>, ids: seq<Bytes>)
    ensures |held| <= |Extended(held, ids)| && Extended(held, ids)[..|held|] == held
  {
    if ids != [] { ExtendedPrefix(held, ids[..|ids| - 1]); }
  }

  lemma {:induction false} ExtendedAppend(held: seq<Bytes>, a: seq<Bytes>, b: seq<Bytes>)
    ensures Extended(Extended(held, a), b) == Extended(held, a + b)
  {
    if b == [] {
      assert a + b == a;
    } else {
      ExtendedAppend(held, a, b[..|b| - 1]);
      assert (a + b)[..|a + b| - 1] == a + b[..|b| - 1];
    }
  }

  lemma {:induction false} JoiningIds(ps: seq<Pending>, ids: seq<Bytes>, consumer: Bytes, now: int)
    ensures Ids(Joining(ps, ids, consumer, now)) == Extended(Ids(ps), ids)
  {
    ExtendedPrefix(Ids(ps), ids);
    var all := Extended(Ids(ps), ids);
    assert all == Ids(ps) + all[|ps|..];
  }

  lemma {:induction false} HandedIds(ps: seq<Pending>, ids: seq<Bytes>, consumer: Bytes, now: int)
    ensures Ids(AllHandedTo(ps, ids, consumer, now)) == Ids(ps)
  {}

  /** Listed first in `a` and then in `b`. */
  lemma {:induction false} HandedTwice(p: Pending, a: seq<Bytes>, b: seq<Bytes>, consumer: Bytes, now: int)
    ensures HandedTo(HandedTo(p, a, consumer, now), b, consumer, now) == HandedTo(p, a + b, consumer, now)
  {
    assert multiset(a + b) == multiset(a) + multiset(b);
    assert p.id in a + b <==> p.id in a || p.id in b;
    assert p.id !in a ==> multiset(a)[p.id] == 0;
    assert p.id !in b ==> multiset(b)[p.id] == 0;
  }

  lemma {:induction false} AllHandedTwice(ps: seq<Pending>, a: seq<Bytes>, b: seq<Bytes>, consumer: Bytes, now: int)
    ensures AllHandedTo(AllHandedTo(ps, a, consumer, now), b, consumer, now) == AllHandedTo(ps, a + b, consumer, now)
  {
    var once, twice := AllHandedTo(ps, a, consumer, now), AllHandedTo(ps, a + b, consumer, now);
    forall i | 0 <= i < |ps| ensures HandedTo(once[i], b, consumer, now) == twice[i] {
      HandedTwice(ps[i], a, b, consumer, now);
    }
  }

  /** What joins the list for `b` after `a`, and none of it is listed in `a`. */
  lemma {:induction false} LateIds(held: seq<Bytes>, a: seq<Bytes>, b: seq<Bytes>, mid: seq<Bytes>, late: seq<Bytes>)
    requires Distinct(held) && mid == Extended(held, a) && |mid| <= |Extended(held, a + b)|
    requires late == Extended(held, a + b)[|mid|..]
    ensures Extended(mid, b) == Extended(held, a + b) == mid + late
    ensures forall i :: 0 <= i < |late| ==> late[i] !in a
  {
    ExtendedAppend(held, a, b);
    ExtendedPrefix(mid, b);
    ExtendedHolds(held, a);
    ExtendedHolds(held, a + b);
    var all := Extended(held, a + b);
    assert all == all[..|mid|] + all[|mid|..];
    forall i | 0 <= i < |late| ensures late[i] !in a {
      assert all[|mid| + i] == late[i];
      assert forall j :: 0 <= j < |mid| ==> mid[j] == all[j] && all[j] != all[|mid| + i];
      assert late[i] !in Elements(mid);
    }
  }

  lemma {:induction false} JoiningMore(qs: seq<Pending>, b: seq<Bytes>, late: seq<Bytes>, consumer: Bytes, now: int)
    requires Extended(Ids(qs), b) == Ids(qs) + late
    ensures Joining(qs, b, consumer, now) == qs + Undelivereds(late, consumer, now)
  {
    assert (Ids(qs) + late)[|qs|..] == late;
  }

  lemma {:induction false} UndeliveredsAppend(a: seq<Bytes>, b: seq<Bytes>, consumer: Bytes, now: int)
    ensures Undelivereds(a + b, consumer, now) == Undelivereds(a, consumer, now) + Undelivereds(b, consumer, now)
  {}

  lemma {:induction false} JoiningBoth(ps: seq<Pending>, more: seq<Bytes>, late: seq<Bytes>, a: seq<Bytes>, all: seq<Bytes>,
                                       consumer: Bytes, now: int)
    requires Extended(Ids(ps), a) == Ids(ps) + more && Extended(Ids(ps), all) == Ids(ps) + (more + late)
    ensures Joining(ps, all, consumer, now) == Joining(ps, a, consumer, now) + Undelivereds(late, consumer, now)
  {
    JoiningMore(ps, a, more, consumer, now);
    JoiningMore(ps, all, more + late, consumer, now);
    UndeliveredsAppend(more, late, consumer, now);
    Regroup(ps, Undelivereds(more, consumer, now), Undelivereds(late, consumer, now));
  }

  lemma {:induction false} Regroup<T>(a: seq<T>, b: seq<T>, c: seq<T>)
    ensures a + (b + c) == a + b + c
  {}

  lemma {:induction false} HandedAppend(ps: seq<Pending>, qs: seq<Pending>, a: seq<Bytes>, consumer: Bytes, now: int)
    requires forall i :: 0 <= i < |qs| ==> qs[i].id !in a
    ensures AllHandedTo(ps + qs, a, consumer, now) == AllHandedTo(ps, a, consumer, now) + qs
  {}

  lemma {:induction false} JoinsAt(ps: seq<Pending>, a: seq<Bytes>, b: seq<Bytes>, more: seq<Bytes>, late: seq<Bytes>,
                                   consumer: Bytes, now: int)
    requires Extended(Ids(ps), a) == Ids(ps) + more && Extended(Ids(ps) + more, b) == Ids(ps) + more + late
    ensures Joining(AllHandedTo(Joining(ps, a, consumer, now), a, consumer, now), b, consumer, now) ==
            AllHandedTo(Joining(ps, a, consumer, now), a, consumer, now) + Undelivereds(late, consumer, now)
  {
    var held := Joining(ps, a, consumer, now);
    JoiningIds(ps, a, consumer, now);
    HandedIds(held, a, consumer, now);
    JoiningMore(AllHandedTo(held, a, consumer, now), b, late, consumer, now);
  }

  lemma {:induction false} JoinsInTurn(ps: seq<Pending>, a: seq<Bytes>, b: seq<Bytes>) returns (more: seq<Bytes>, late: seq<Bytes>)
    requires Distinct(Ids(ps))
    ensures Extended(Ids(ps), a) == Ids(ps) + more && Extended(Ids(ps) + more, b) == Ids(ps) + more + late
    ensures Extended(Ids(ps), a + b) == Ids(ps) + (more + late)
    ensures forall i :: 0 <= i < |late| ==> late[i] !in a
  {
    var ids := Ids(ps);
    var mid := Extended(ids, a);
    ExtendedAppend(ids, a, b);
    ExtendedPrefix(mid, b);
    ExtendedPrefix(ids, a);
    more, late := mid[|ids|..], Extended(ids, a + b)[|mid|..];
    assert mid == ids + more;
    LateIds(ids, a, b, mid, late);
    Regroup(ids, more, late);
  }

  lemma {:induction false} JoinsLater(ps: seq<Pending>, a: seq<Bytes>, b: seq<Bytes>, consumer: Bytes, now: int)
    requires Distinct(Ids(ps))
    ensures Joining(AllHandedTo(Joining(ps, a, consumer, now), a, consumer, now), b, consumer, now) ==
            AllHandedTo(Joining(ps, a + b, consumer, now), a, consumer, now)
  {
    var more, late := JoinsInTurn(ps, a, b);
    JoinsAt(ps, a, b, more, late, consumer, now);
    JoiningBoth(ps, more, late, a, a + b, consumer, now);
    HandedAppend(Joining(ps, a, consumer, now), Undelivereds(late, consumer, now), a, consumer, now);
  }

  /** The list after every listed ID went to `consumer`: those it holds where they stand, the others after them. */
  function Handing(ps: seq<Pending>, ids: seq<Bytes>, consumer: Bytes, now: int): seq<Pending> {
    AllHandedTo(Joining(ps, ids, consumer, now), ids, consumer, now)
  }

  /** Handing out the IDs of `a` and then those of `b` is handing out all of them. */
  lemma {:induction false} HandedInTurn(ps: seq<Pending>, a: seq<Bytes>, b: seq<Bytes>, consumer: Bytes, now: int)
    requires Distinct(Ids(ps))
    ensures Handing(Handing(ps, a, consumer, now), b, consumer, now) == Handing(ps, a + b, consumer, now)
  {
    JoinsLater(ps, a, b, consumer, now);
    AllHandedTwice(Joining(ps, a + b, consumer, now), a, b, consumer, now);
  }

  // ── Deliveries and forced claims ─────────────────────────────────────

  /** One ID goes to a consumer: its record changes where it stands, or a new one is appended. */
  function PutOne(ps: seq<Pending>, id: Bytes, consumer: Bytes, now: int): seq<Pending> {
    match Find(ps, (p: Pending) => p.id == id)
    case Some(i) => ps[i := Pending(ps[i].id, consumer, ps[i].deliveries + 1, now)]
    case None => ps + [Pending(id, consumer, 1, now)]
  }

  lemma {:induction false} PutOneIs(ps: seq<Pending>, id: Bytes, consumer: Bytes, now: int)
    requires Distinct(Ids(ps))
    ensures PutOne(ps, id, consumer, now) == Handing(ps, [id], consumer, now)
  {
    var at := Find(ps, (p: Pending) => p.id == id);
    FindId(ps, id);
    assert [id][..0] == [] && Extended(Ids(ps), [id]) == Extend(Ids(ps), id);
    if at.Some? {
      JoiningMore(ps, [id], [], consumer, now);
      forall j | 0 <= j < |ps| && j != at.value ensures ps[j].id != id { assert Ids(ps)[j] != Ids(ps)[at.value]; }
    } else {
      JoiningMore(ps, [id], [id], consumer, now);
      forall j | 0 <= j < |ps| ensures ps[j].id != id { assert Ids(ps)[j] in Ids(ps); }
    }
  }

  lemma {:induction false} NoneHanded(ps: seq<Pending>, none: seq<Bytes>, consumer: Bytes, now: int)
    requires none == []
    ensures Handing(ps, none, consumer, now) == ps
  {}

  lemma {:induction false} ForceOneHands(es: seq<Entry>, g: Group, id: Bytes, consumer: Bytes, now: int)
    requires SoundGroup(g) && consumer in g.consumers
    ensures var h := ClaimOne(es, g, id, consumer, true, now);
            SoundGroup(h) && consumer in h.consumers && h.pending == Handing(g.pending, [id], consumer, now)
  {
    ForceOneSound(es, g, id, consumer, now);
    ForceOnePuts(es, g, id, consumer, now);
    PutOneIs(g.pending, id, consumer, now);
  }

  lemma {:induction false} ForceOnePuts(es: seq<Entry>, g: Group, id: Bytes, consumer: Bytes, now: int)
    ensures ClaimOne(es, g, id, consumer, true, now).pending == PutOne(g.pending, id, consumer, now)
  {}

  lemma {:induction false} HandedNext(ps: seq<Pending>, a: seq<Bytes>, b: seq<Bytes>, all: seq<Bytes>, consumer: Bytes,
                                      now: int, once: seq<Pending>, twice: seq<Pending>)
    requires Distinct(Ids(ps)) && all == a + b
    requires once == Handing(ps, a, consumer, now) && twice == Handing(once, b, consumer, now)
    ensures twice == Handing(ps, all, consumer, now)
  {
    HandedInTurn(ps, a, b, consumer, now);
  }

  /** A claim with FORCE hands every listed ID to the consumer, new ones after the others. */
  lemma {:induction false} ForceRecords(es: seq<Entry>, g: Group, ids: seq<Bytes>, consumer: Bytes, now: int)
    requires SoundGroup(g) && consumer in g.consumers
    ensures ClaimEach(es, g, ids, consumer, true, now).pending == Handing(g.pending, ids, consumer, now)
    decreases |ids|
  {
    if ids == [] {
      NoneHanded(g.pending, ids, consumer, now);
    } else {
      var id, rest, h := ids[0], ids[1..], ClaimOne(es, g, ids[0], consumer, true, now);
      ForceOneHands(es, g, id, consumer, now);
      ForceRecords(es, h, rest, consumer, now);
      HandedNext(g.pending, [id], rest, ids, consumer, now, h.pending, ClaimEach(es, h, rest, consumer, true, now).pending);
    }
  }

  lemma {:induction false} DeliverOneHands(g: Group, e: Entry, consumer: Bytes, now: int)
    requires Distinct(Ids(g.pending))
    ensures DeliverOne(g, e, consumer, now).pending == Handing(g.pending, [e.id], consumer, now)
  {
    PutOneIs(g.pending, e.id, consumer, now);
  }

  lemma {:induction false} EntryIdsSnoc(es: seq<Entry>, front: seq<Bytes>, last: seq<Bytes>)
    requires es != [] && front == EntryIds(es[..|es| - 1]) && last == [es[|es| - 1].id]
    ensures EntryIds(es) == front + last
  {}

  /** So does a delivery, with the IDs of the entries. */
  lemma {:induction false} DeliverRecords(g: Group, es: seq<Entry>, consumer: Bytes, now: int)
    requires SoundGroup(g) && consumer in g.consumers
    ensures Deliver(g, es, consumer, now).pending == Handing(g.pending, EntryIds(es), consumer, now)
  {
    if es == [] {
      NoneHanded(g.pending, EntryIds(es), consumer, now);
    } else {
      var front, e := es[..|es| - 1], es[|es| - 1];
      var h, last := Deliver(g, front, consumer, now), [e.id];
      DeliverExtends(g, front, consumer, now);
      DeliverRecords(g, front, consumer, now);
      DeliverOneHands(h, e, consumer, now);
      EntryIdsSnoc(es, EntryIds(front), last);
      HandedNext(g.pending, EntryIds(front), last, EntryIds(es), consumer, now, h.pending, DeliverOne(h, e, consumer, now).pending);
    }
  }

  // ── Claims without FORCE ─────────────────────────────────────────────

  lemma {:induction false} KeepSame<T>(s: seq<T>, p: T -> bool, q: T -> bool)
    requires forall x :: x in s ==> p(x) == q(x)
    ensures Keep(s, p) == Keep(s, q)
  {
    if s != [] { KeepSame(s[..|s| - 1], p, q); }
  }

  lemma {:induction false} KeepBoth<T>(s: seq<T>, p: T -> bool, q: T -> bool, r: T -> bool)
    requires forall x :: x in s ==> (r(x) <==> p(x) && q(x))
    ensures Keep(Keep(s, p), q) == Keep(s, r)
  {
    if s != [] {
      var front, last := s[..|s| - 1], s[|s| - 1];
      KeepBoth(front, p, q, r);
      var kept := Keep(front, p);
      assert (kept + [last])[..|kept|] == kept && kept + [] == kept;
    }
  }

  /** The records whose IDs are not among `out`. */
  function Unlisted(ps: seq<Pending>, out: set<Bytes>): seq<Pending> {
    Keep(ps, (p: Pending) => p.id !in out)
  }

  lemma {:induction false} UnlistedTwice(ps: seq<Pending>, a: set<Bytes>, b: set<Bytes>)
    ensures Unlisted(Unlisted(ps, a), b) == Unlisted(ps, a + b)
  {
    KeepBoth(ps, (p: Pending) => p.id !in a, (p: Pending) => p.id !in b, (p: Pending) => p.id !in a + b);
  }

  lemma {:induction false} UnlistedNone(ps: seq<Pending>, none: set<Bytes>)
    requires none == {}
    ensures Unlisted(ps, none) == ps
  {
    KeepStretch(ps, (p: Pending) => p.id !in none, 0, |ps|);
    assert ps[0..|ps|] == ps;
  }

  lemma {:induction false} HandedSnoc(ps: seq<Pending>, p: Pending, ids: seq<Bytes>, consumer: Bytes, now: int)
    ensures AllHandedTo(ps + [p], ids, consumer, now) == AllHandedTo(ps, ids, consumer, now) + [HandedTo(p, ids, consumer, now)]
  {}

  lemma {:induction false} UnlistedHanded(ps: seq<Pending>, out: set<Bytes>, ids: seq<Bytes>, consumer: Bytes, now: int)
    ensures Unlisted(AllHandedTo(ps, ids, consumer, now), out) == AllHandedTo(Unlisted(ps, out), ids, consumer, now)
  {
    if ps != [] {
      var front, last := ps[..|ps| - 1], ps[|ps| - 1];
      assert ps == front + [last];
      var qs := AllHandedTo(front, ids, consumer, now);
      UnlistedHanded(front, out, ids, consumer, now);
      HandedSnoc(front, last, ids, consumer, now);
      HandedSnoc(Unlisted(front, out), last, ids, consumer, now);
      assert (qs + [HandedTo(last, ids, consumer, now)])[..|qs|] == qs;
      assert AllHandedTo(front, ids, consumer, now) == qs;
    }
  }

  lemma {:induction false} TransferHands(ps: seq<Pending>, id: Bytes, i: nat, consumer: Bytes, now: int)
    requires Distinct(Ids(ps)) && i < |ps| && ps[i].id == id
    ensures ps[i := Pending(id, consumer, ps[i].deliveries + 1, now)] == AllHandedTo(ps, [id], consumer, now)
  {
    forall j | 0 <= j < |ps| && j != i ensures ps[j].id != id { assert Ids(ps)[j] != Ids(ps)[i]; }
  }

  lemma {:induction false} NotListedStays(ps: seq<Pending>, ids: seq<Bytes>, consumer: Bytes, now: int)
    requires forall p :: p in ps ==> p.id !in ids
    ensures AllHandedTo(ps, ids, consumer, now) == ps
  {}

  lemma {:induction false} GoneLeaves(g: Group, id: Bytes, out: set<Bytes>, consumer: Bytes, now: int)
    requires out == {id}
    ensures AckOne(g, id).0.pending == AllHandedTo(Unlisted(g.pending, out), [id], consumer, now)
  {
    var left := (p: Pending) => p.id !in out;
    KeepSame(g.pending, (p: Pending) => p.id != id, left);
    forall p | p in Keep(g.pending, left) ensures p.id !in [id] { KeepMembers(g.pending, left, p); }
    NotListedStays(Keep(g.pending, left), [id], consumer, now);
  }

  lemma {:induction false} ClaimOneHands(es: seq<Entry>, g: Group, id: Bytes, consumer: Bytes, now: int)
    requires Distinct(Ids(g.pending)) && EntryWithId(es, id).Some?
    ensures ClaimOne(es, g, id, consumer, false, now).pending == AllHandedTo(g.pending, [id], consumer, now)
  {
    var at := Find(g.pending, (p: Pending) => p.id == id);
    if at.Some? {
      TransferHands(g.pending, id, at.value, consumer, now);
    } else {
      NotListedStays(g.pending, [id], consumer, now);
    }
  }

  lemma {:induction false} ClaimOneRecords(es: seq<Entry>, g: Group, id: Bytes, consumer: Bytes, now: int)
    requires Distinct(Ids(g.pending))
    ensures ClaimOne(es, g, id, consumer, false, now).pending ==
            AllHandedTo(Unlisted(g.pending, Gone(es, [id])), [id], consumer, now)
  {
    var out := Gone(es, [id]);
    if EntryWithId(es, id).None? {
      assert id in [id] && out == {id};
      GoneLeaves(g, id, out, consumer, now);
    } else {
      assert out == {};
      UnlistedNone(g.pending, out);
      ClaimOneHands(es, g, id, consumer, now);
    }
  }

  /** A claim without FORCE takes off the IDs whose entries are gone, and hands the other listed ones to the consumer. */
  lemma {:induction false} ClaimRecords(es: seq<Entry>, g: Group, ids: seq<Bytes>, consumer: Bytes, now: int)
    requires SoundGroup(g) && consumer in g.consumers
    ensures ClaimEach(es, g, ids, consumer, false, now).pending ==
            AllHandedTo(Unlisted(g.pending, Gone(es, ids)), ids, consumer, now)
    decreases |ids|
  {
    var ps := g.pending;
    if ids == [] {
      UnlistedNone(ps, Gone(es, ids));
      NotListedStays(ps, ids, consumer, now);
    } else {
      var id, rest, h := ids[0], ids[1..], ClaimOne(es, g, ids[0], consumer, false, now);
      assert ids == [id] + rest;
      ClaimOneSound(es, g, id, consumer, now);
      ClaimRecords(es, h, rest, consumer, now);
      ClaimOneRecords(es, g, id, consumer, now);
      var one, more := Gone(es, [id]), Gone(es, rest);
      assert Gone(es, ids) == one + more;
      UnlistedHanded(Unlisted(ps, one), more, [id], consumer, now);
      UnlistedTwice(ps, one, more);
      AllHandedTwice(Unlisted(ps, one + more), [id], rest, consumer, now);
    }
  }

  // ── What every claim leaves of every record ──────────────────────────

  /** How often an ID was delivered so far. */
  function DeliveredSoFar(ps: seq<Pending>, id: Bytes): int {
    match Find(ps, (p: Pending) => p.id == id)
    case None => 0
    case Some(i) => ps[i].deliveries
  }

  /** On a list of distinct IDs, the record of an ID is the one that has it. */
  lemma {:induction false} SoFar(ps: seq<Pending>, p: Pending)
    requires Distinct(Ids(ps)) && p in ps
    ensures DeliveredSoFar(ps, p.id) == p.deliveries
  {
    FindId(ps, p.id);
    IdsMember(ps, p.id);
    SamePlace(ps, p, ps[Find(ps, (q: Pending) => q.id == p.id).value]);
  }

  /** Every record of a listed ID belongs to `consumer` since `now`, and every other record is as it was. */
  ghost predicate Owns(ps: seq<Pending>, qs: seq<Pending>, ids: seq<Bytes>, consumer: Bytes, now: int) {
    && (forall q :: q in qs && q.id in ids ==>
          q.consumer == consumer && q.last == now && q.deliveries == DeliveredSoFar(ps, q.id) + multiset(ids)[q.id])
    && (forall p: Pending :: p.id !in ids ==> (p in qs <==> p in ps))
  }

  lemma {:induction false} HandedMember(base: seq<Pending>, ids: seq<Bytes>, consumer: Bytes, now: int, q: Pending)
    returns (p: Pending)
    requires q in AllHandedTo(base, ids, consumer, now)
    ensures p in base && q == HandedTo(p, ids, consumer, now)
  {
    var qs := AllHandedTo(base, ids, consumer, now);
    var i :| 0 <= i < |qs| && qs[i] == q;
    p := base[i];
  }

  lemma {:induction false} HandedOwns(ps: seq<Pending>, base: seq<Pending>, ids: seq<Bytes>, consumer: Bytes, now: int)
    requires forall p :: p in base && p.id in ids ==> p.deliveries == DeliveredSoFar(ps, p.id)
    requires forall p: Pending :: p.id !in ids ==> (p in base <==> p in ps)
    ensures Owns(ps, AllHandedTo(base, ids, consumer, now), ids, consumer, now)
  {
    var qs := AllHandedTo(base, ids, consumer, now);
    forall q | q in qs && q.id in ids
      ensures q.consumer == consumer && q.last == now && q.deliveries == DeliveredSoFar(ps, q.id) + multiset(ids)[q.id]
    {
      var p := HandedMember(base, ids, consumer, now, q);
    }
    forall p: Pending | p.id !in ids ensures p in qs <==> p in ps {
      if p in qs { var b := HandedMember(base, ids, consumer, now, p); }
      if p in base {
        var i :| 0 <= i < |base| && base[i] == p;
        assert qs[i] == p;
      }
    }
  }

  lemma {:induction false} NotHeld(ps: seq<Pending>, id: Bytes)
    requires id !in Ids(ps)
    ensures DeliveredSoFar(ps, id) == 0
  {
    FindId(ps, id);
  }

  lemma {:induction false} HandingOwns(ps: seq<Pending>, ids: seq<Bytes>, consumer: Bytes, now: int)
    requires Distinct(Ids(ps))
    ensures Owns(ps, Handing(ps, ids, consumer, now), ids, consumer, now)
  {
    ExtendedPrefix(Ids(ps), ids);
    ExtendedHolds(Ids(ps), ids);
    var all := Extended(Ids(ps), ids);
    var added := all[|ps|..];
    assert all == Ids(ps) + added;
    forall i | 0 <= i < |added| ensures added[i] in ids && added[i] !in Ids(ps) {
      assert all[|ps| + i] == added[i] && added[i] in Elements(all);
      assert forall j :: 0 <= j < |ps| ==> all[j] == Ids(ps)[j] && all[j] != all[|ps| + i];
    }
    NewOwns(ps, added, ids, consumer, now);
    JoiningMore(ps, ids, added, consumer, now);
  }

  lemma {:induction false} NewOwns(ps: seq<Pending>, added: seq<Bytes>, ids: seq<Bytes>, consumer: Bytes, now: int)
    requires Distinct(Ids(ps)) && forall i :: 0 <= i < |added| ==> added[i] in ids && added[i] !in Ids(ps)
    ensures Owns(ps, AllHandedTo(ps + Undelivereds(added, consumer, now), ids, consumer, now), ids, consumer, now)
  {
    var more := Undelivereds(added, consumer, now);
    forall p | p in ps + more && p.id in ids ensures p.deliveries == DeliveredSoFar(ps, p.id) {
      if p in ps {
        SoFar(ps, p);
      } else {
        var i :| 0 <= i < |more| && more[i] == p;
        NotHeld(ps, added[i]);
      }
    }
    assert forall i :: 0 <= i < |more| ==> more[i].id in ids;
    HandedOwns(ps, ps + more, ids, consumer, now);
  }

  /**
   * XCLAIM, with FORCE or without: every listed ID that is on the list afterwards belongs to the claiming consumer,
   * delivered now and once more for each time it is listed; every other record is as it was.
   */
  lemma {:induction false} ClaimOwns(es: seq<Entry>, g: Group, ids: seq<Bytes>, consumer: Bytes, force: bool, now: int)
    requires SoundGroup(g) && consumer in g.consumers
    ensures Owns(g.pending, ClaimEach(es, g, ids, consumer, force, now).pending, ids, consumer, now)
  {
    var ps := g.pending;
    if force {
      ForceRecords(es, g, ids, consumer, now);
      HandingOwns(ps, ids, consumer, now);
    } else {
      ClaimRecords(es, g, ids, consumer, now);
      var out := Gone(es, ids);
      var left := Unlisted(ps, out);
      forall p ensures p in left <==> p in ps && p.id !in out { KeepMembers(ps, (q: Pending) => q.id !in out, p); }
      forall p | p in left && p.id in ids ensures p.deliveries == DeliveredSoFar(ps, p.id) { SoFar(ps, p); }
      HandedOwns(ps, left, ids, consumer, now);
    }
  }

  /** A read of new entries makes them the reader's in the same way, unless NOACK, which leaves every record alone. */
  lemma {:induction false} ReadOwns(es: seq<Entry>, g: Group, consumer: Bytes, count: Option<nat>, noack: bool, now: int,
                                    h: Group, read: seq<Entry>)
    requires SoundGroup(g) && (h, read) == ReadFrom(es, g, consumer, [GREATER], count, noack, now)
    ensures if noack then h.pending == g.pending else Owns(g.pending, h.pending, EntryIds(read), consumer, now)
  {
    EnsureSound(g, consumer, now);
    var e := EnsureConsumer(g, consumer, now);
    var moved := if read == [] then e else e.(lastId := read[|read| - 1].id, readKnown := true);
    assert SoundGroup(moved);
    DeliverRecords(moved, read, consumer, now);
    HandingOwns(g.pending, EntryIds(read), consumer, now);
  }

  // ── XAUTOCLAIM ───────────────────────────────────────────────────────

  function ReadyAmong(ps: seq<Pending>, ready: Pending -> bool): nat {
    |Keep(ps, ready)|
  }

  /** The records an automatic claim of up to `most` takes: the ready ones with fewer than `most` ready ones before them. */
  predicate Takes(ps: seq<Pending>, ready: Pending -> bool, most: nat, j: nat)
    requires j < |ps|
  {
    ready(ps[j]) && ReadyAmong(ps[..j], ready) < most
  }

  ghost predicate TookFirst(ps: seq<Pending>, qs: seq<Pending>, ready: Pending -> bool, consumer: Bytes, most: nat, now: int) {
    && |qs| == |ps|
    && forall j :: 0 <= j < |ps| ==>
         qs[j] == if Takes(ps, ready, most, j) then Pending(ps[j].id, consumer, ps[j].deliveries + 1, now) else ps[j]
  }

  lemma {:induction false} KeepCons<T>(s: seq<T>, p: T -> bool)
    requires s != []
    ensures Keep(s, p) == (if p(s[0]) then [s[0]] else []) + Keep(s[1..], p)
  {
    var n := |s| - 1;
    if n == 0 {
      assert s[..n] == [] && s[1..] == [];
    } else {
      KeepCons(s[..n], p);
      assert s[..n][1..] == s[1..][..n - 1] && s[1..][n - 1] == s[n];
    }
  }

  /** From place `i` on, with `most` still to take. */
  ghost predicate TookFrom(ps: seq<Pending>, qs: seq<Pending>, i: nat, ready: Pending -> bool, consumer: Bytes, most: nat, now: int) {
    && |qs| == |ps|
    && forall j :: 0 <= j < |ps| ==>
         qs[j] == if i <= j && ready(ps[j]) && ReadyAmong(ps[i..j], ready) < most
                  then Pending(ps[j].id, consumer, ps[j].deliveries + 1, now) else ps[j]
  }

  lemma {:induction false} ReadyFrom(ps: seq<Pending>, ready: Pending -> bool, i: nat, j: nat)
    requires i < j <= |ps|
    ensures ReadyAmong(ps[i..j], ready) == ReadyAmong(ps[i + 1..j], ready) + if ready(ps[i]) then 1 else 0
  {
    KeepCons(ps[i..j], ready);
    assert ps[i..j][1..] == ps[i + 1..j];
  }

  lemma {:induction false} TookNext(ps: seq<Pending>, hs: seq<Pending>, qs: seq<Pending>, i: nat, ready: Pending -> bool,
                                    consumer: Bytes, most: nat, left: nat, now: int)
    requires i < |ps| && TookFrom(hs, qs, i + 1, ready, consumer, left, now) && most > 0
    requires if ready(ps[i]) then left == most - 1 && hs == ps[i := Pending(ps[i].id, consumer, ps[i].deliveries + 1, now)]
             else left == most && hs == ps
    ensures TookFrom(ps, qs, i, ready, consumer, most, now)
  {
    forall j | 0 <= j < |ps|
      ensures qs[j] == if i <= j && ready(ps[j]) && ReadyAmong(ps[i..j], ready) < most
                       then Pending(ps[j].id, consumer, ps[j].deliveries + 1, now) else ps[j]
    {
      if i < j {
        ReadyFrom(ps, ready, i, j);
        assert hs[i + 1..j] == ps[i + 1..j];
      } else if i == j {
        assert ps[i..j] == [];
      }
    }
  }

  lemma {:induction false} TookOne(ps: seq<Pending>, i: nat, ready: Pending -> bool, consumer: Bytes, now: int, qs: seq<Pending>)
    requires i < |ps| && ready(ps[i]) && qs == ps[i := Pending(ps[i].id, consumer, ps[i].deliveries + 1, now)]
    ensures TookFrom(ps, qs, i, ready, consumer, 1, now)
  {
    forall j | i < j < |ps| ensures ReadyAmong(ps[i..j], ready) >= 1 { ReadyFrom(ps, ready, i, j); }
    assert ps[i..i] == [];
  }

  lemma {:induction false} AutoClaimTakes(g: Group, i: nat, ready: Pending -> bool, consumer: Bytes, count: nat, now: int,
                                          claimed: nat, most: nat)
    requires most == if claimed + 1 >= count then 1 else count - claimed
    ensures TookFrom(g.pending, AutoClaimFrom(g, i, ready, consumer, count, now, claimed).pending, i, ready, consumer, most, now)
    decreases |g.pending| - i
  {
    if i < |g.pending| {
      var qs := AutoClaimFrom(g, i, ready, consumer, count, now, claimed).pending;
      if !ready(g.pending[i]) {
        AutoClaimTakes(g, i + 1, ready, consumer, count, now, claimed, most);
        TookNext(g.pending, g.pending, qs, i, ready, consumer, most, most, now);
      } else if claimed + 1 >= count {
        TookOne(g.pending, i, ready, consumer, now, qs);
      } else {
        var h := Transfer(g, i, consumer, now);
        AutoClaimTakes(h, i + 1, ready, consumer, count, now, claimed + 1, most - 1);
        TookNext(g.pending, h.pending, qs, i, ready, consumer, most, most - 1, now);
      }
    }
  }

  /**
   * XAUTOCLAIM: exactly the first `count` records that are ready, or the first one for a count of zero, go to the
   * consumer, delivered now and once more; every other record is as it was.
   */
  lemma {:induction false} AutoClaimOwns(g: Group, ready: Pending -> bool, consumer: Bytes, count: nat, now: int)
    ensures TookFirst(g.pending, AutoClaimFrom(g, 0, ready, consumer, count, now, 0).pending, ready, consumer,
                      if count == 0 then 1 else count, now)
  {
    AutoClaimTakes(g, 0, ready, consumer, count, now, 0, if count == 0 then 1 else count);
    assert forall j :: 0 <= j < |g.pending| ==> g.pending[0..j] == g.pending[..j];
  }

  // ── Acknowledging and deleting a consumer ────────────────────────────

  lemma {:induction false} AckOneRecords(g: Group, id: Bytes, one: set<Bytes>)
    requires one == {id}
    ensures AckOne(g, id).0.pending == Unlisted(g.pending, one)
  {
    KeepSame(g.pending, (p: Pending) => p.id != id, (p: Pending) => p.id !in one);
  }

  lemma {:induction false} ElementsSnoc(ids: seq<Bytes>, front: seq<Bytes>, last: Bytes)
    requires ids == front + [last]
    ensures Elements(ids) == Elements(front) + {last}
  {}

  /** Acknowledging leaves the other records, in order. */
  lemma {:induction false} AckRecords(g: Group, ids: seq<Bytes>)
    ensures AckEach(g, ids).0.pending == Unlisted(g.pending, Elements(ids))
  {
    if ids == [] {
      UnlistedNone(g.pending, Elements(ids));
    } else {
      var front, last := ids[..|ids| - 1], ids[|ids| - 1];
      var one := {last};
      AckRecords(g, front);
      AckOneRecords(AckEach(g, front).0, last, one);
      UnlistedTwice(g.pending, Elements(front), one);
      ElementsSnoc(ids, front, last);
    }
  }

  // ── Reading one's own history ────────────────────────────────────────

  /** The entry with an ID, if there is one. */
  function Having(es: seq<Entry>, id: Bytes): seq<Entry> {
    Take(Keep(es, (e: Entry) => e.id == id), Some(1))
  }

  /** Pending for the consumer, from a position on. */
  predicate Mine(p: Pending, consumer: Bytes, from: nat) {
    p.consumer == consumer && from <= PendingRank(p)
  }

  /** The entries a consumer has pending from a position on, in the order of the list. */
  function Owed(es: seq<Entry>, ps: seq<Pending>, consumer: Bytes, from: nat): seq<Entry> {
    if ps == [] then []
    else (if Mine(ps[0], consumer, from) then Having(es, ps[0].id) else []) + Owed(es, ps[1..], consumer, from)
  }

  lemma {:induction false} FindIsFirstKept<T>(s: seq<T>, p: T -> bool)
    ensures var at := Find(s, p);
            Take(Keep(s, p), Some(1)) == if at.Some? then [s[at.value]] else []
  {
    if s != [] {
      KeepCons(s, p);
      if !p(s[0]) { FindIsFirstKept(s[1..], p); }
    }
  }

  lemma {:induction false} HavingIsListed(es: seq<Entry>, id: Bytes)
    ensures Having(es, id) == Listed(EntryWithId(es, id))
  {
    FindIsFirstKept(es, (e: Entry) => e.id == id);
  }

  /** What the redelivery loop wants, by position. */
  lemma {:induction false} WantedIsMine(p: Pending, consumer: Bytes, from: Bytes)
    ensures (p.consumer == consumer && CompareIds(p.id, from) >= 0) <==> Mine(p, consumer, RankOf(from))
  {
    CompareIsRank(p.id, from);
  }

  lemma {:induction false} OwedIsStillThere(es: seq<Entry>, ps: seq<Pending>, consumer: Bytes, from: nat,
                                            wanted: Pending -> bool, entry: Bytes -> Option<Entry>)
    requires forall p :: wanted(p) <==> Mine(p, consumer, from)
    requires forall id :: entry(id) == EntryWithId(es, id)
    ensures Owed(es, ps, consumer, from) == StillThere(ps, wanted, entry)
  {
    if ps != [] {
      HavingIsListed(es, ps[0].id);
      OwedIsStillThere(es, ps[1..], consumer, from, wanted, entry);
    }
  }

  /** A place of the list after redelivery: one more delivery if it is wanted, its entry exists and the count allows. */
  predicate Counts(ps: seq<Pending>, wanted: Pending -> bool, entry: Bytes -> Option<Entry>, count: Option<nat>, got: nat, i: nat)
    requires i < |ps|
  {
    && wanted(ps[i]) && entry(ps[i].id).Some?
    && (count.Some? ==> got + |StillThere(ps[..i], wanted, entry)| < count.value)
  }

  lemma {:induction false} CountsNext(ps: seq<Pending>, wanted: Pending -> bool, entry: Bytes -> Option<Entry>,
                                      count: Option<nat>, got: nat, sofar: nat, i: nat)
    requires 0 < i < |ps| && sofar == got + if wanted(ps[0]) then |Listed(entry(ps[0].id))| else 0
    ensures Counts(ps, wanted, entry, count, got, i) <==> Counts(ps[1..], wanted, entry, count, sofar, i - 1)
  {
    assert ps[..i][0] == ps[0] && ps[..i][1..] == ps[1..][..i - 1];
  }

  lemma {:induction false} CountReached(ps: seq<Pending>, wanted: Pending -> bool, entry: Bytes -> Option<Entry>,
                                        count: Option<nat>, got: nat, i: nat)
    requires 0 < i < |ps| && wanted(ps[0]) && count.Some? && got + |Listed(entry(ps[0].id))| >= count.value
    ensures !Counts(ps, wanted, entry, count, got, i)
  {
    assert ps[..i][0] == ps[0];
  }

  /** One turn of the loop: its first record, and the rest of the list. */
  lemma {:induction false} RedeliverTurn(ps: seq<Pending>, wanted: Pending -> bool, entry: Bytes -> Option<Entry>,
                                         count: Option<nat>, now: int, got: nat, sofar: nat)
    requires ps != [] && sofar == got + if wanted(ps[0]) then |Listed(entry(ps[0].id))| else 0
    ensures Redeliver(ps, wanted, entry, count, now, got).pending ==
            [if wanted(ps[0]) then Redelivered(ps[0], entry(ps[0].id), now) else ps[0]]
            + if wanted(ps[0]) && count.Some? && sofar >= count.value then ps[1..]
              else Redeliver(ps[1..], wanted, entry, count, now, sofar).pending
  {}

  lemma {:induction false} PlaceNext(ps: seq<Pending>, wanted: Pending -> bool, entry: Bytes -> Option<Entry>, count: Option<nat>,
                                     now: int, got: nat, sofar: nat, i: nat, r: seq<Pending>, rest: seq<Pending>)
    requires 0 < i < |ps| == |r| && r[1..] == rest && sofar == got + if wanted(ps[0]) then |Listed(entry(ps[0].id))| else 0
    requires var p := ps[1..][i - 1];
             rest[i - 1] == if Counts(ps[1..], wanted, entry, count, sofar, i - 1)
                            then p.(deliveries := p.deliveries + 1, last := now) else p
    ensures r[i] == if Counts(ps, wanted, entry, count, got, i)
                    then ps[i].(deliveries := ps[i].deliveries + 1, last := now) else ps[i]
  {
    CountsNext(ps, wanted, entry, count, got, sofar, i);
  }

  lemma {:induction false} RedeliverPlace(ps: seq<Pending>, wanted: Pending -> bool, entry: Bytes -> Option<Entry>,
                                          count: Option<nat>, now: int, got: nat, i: nat, r: seq<Pending>)
    requires (count.Some? ==> got < count.value) && i < |ps|
    requires r == Redeliver(ps, wanted, entry, count, now, got).pending && |r| == |ps|
    ensures r[i] == if Counts(ps, wanted, entry, count, got, i)
                    then ps[i].(deliveries := ps[i].deliveries + 1, last := now) else ps[i]
  {
    var sofar := got + if wanted(ps[0]) then |Listed(entry(ps[0].id))| else 0;
    RedeliverTurn(ps, wanted, entry, count, now, got, sofar);
    if i > 0 {
      if wanted(ps[0]) && count.Some? && sofar >= count.value {
        CountReached(ps, wanted, entry, count, got, i);
      } else {
        var later, rest := ps[1..], Redeliver(ps[1..], wanted, entry, count, now, sofar).pending;
        RedeliverPlace(later, wanted, entry, count, now, sofar, i - 1, rest);
        PlaceNext(ps, wanted, entry, count, now, got, sofar, i, r, rest);
      }
    }
  }

  /** The loop a read with an ID runs. */
  lemma {:induction false} RereadIs(es: seq<Entry>, g: Group, consumer: Bytes, id: Bytes, count: Option<nat>, noack: bool, now: int)
    returns (wanted: Pending -> bool, entry: Bytes -> Option<Entry>, r: Redelivery)
    requires id != [GREATER]
    ensures forall p :: wanted(p) <==> Mine(p, consumer, RankOf(NormalizeId(id)))
    ensures forall i :: entry(i) == EntryWithId(es, i)
    ensures r == Redeliver(g.pending, wanted, entry, count, now, 0)
    ensures ReadFrom(es, g, consumer, id, count, noack, now) == (EnsureConsumer(g, consumer, now).(pending := r.pending), r.entries)
  {
    var start := NormalizeId(id);
    wanted := (p: Pending) => p.consumer == consumer && CompareIds(p.id, start) >= 0;
    entry := (i: Bytes) => EntryWithId(es, i);
    r := Redeliver(g.pending, wanted, entry, count, now, 0);
    forall p ensures wanted(p) <==> Mine(p, consumer, RankOf(start)) { WantedIsMine(p, consumer, start); }
  }

  /** A record counts one more delivery: it is the consumer's, its entry exists, and fewer than `count` come before it. */
  predicate Redelivers(es: seq<Entry>, ps: seq<Pending>, consumer: Bytes, from: nat, count: Option<nat>, i: nat)
    requires i < |ps|
  {
    && Mine(ps[i], consumer, from) && Having(es, ps[i].id) != []
    && (count.Some? ==> |Owed(es, ps[..i], consumer, from)| < count.value)
  }

  lemma {:induction false} RedeliversPlace(es: seq<Entry>, ps: seq<Pending>, consumer: Bytes, from: nat, count: Option<nat>,
                                           now: int, wanted: Pending -> bool, entry: Bytes -> Option<Entry>, i: nat, r: seq<Pending>)
    requires forall p :: wanted(p) <==> Mine(p, consumer, from)
    requires forall id :: entry(id) == EntryWithId(es, id)
    requires count != Some(0) && i < |ps| && r == Redeliver(ps, wanted, entry, count, now, 0).pending && |r| == |ps|
    ensures r[i] == if Redelivers(es, ps, consumer, from, count, i)
                    then ps[i].(deliveries := ps[i].deliveries + 1, last := now) else ps[i]
  {
    OwedIsStillThere(es, ps[..i], consumer, from, wanted, entry);
    HavingIsListed(es, ps[i].id);
    RedeliverPlace(ps, wanted, entry, count, now, 0, i, r);
  }

  /**
   * XREADGROUP with an ID: the reply is the first `count` of the entries the consumer has pending from that ID on, in
   * the order of the list, and the records of exactly these count one more delivery.
   */
  lemma {:induction false} RereadReturns(es: seq<Entry>, g: Group, consumer: Bytes, id: Bytes, count: Option<nat>,
                                         noack: bool, now: int, h: Group, read: seq<Entry>, from: nat)
    requires id != [GREATER] && count != Some(0) && from == RankOf(NormalizeId(id))
    requires (h, read) == ReadFrom(es, g, consumer, id, count, noack, now)
    ensures read == Take(Owed(es, g.pending, consumer, from), count)
    ensures |h.pending| == |g.pending|
    ensures forall i :: 0 <= i < |g.pending| ==>
              var p := g.pending[i];
              h.pending[i] == if Redelivers(es, g.pending, consumer, from, count, i)
                              then p.(deliveries := p.deliveries + 1, last := now) else p
  {
    var ps := g.pending;
    var wanted, entry, r := RereadIs(es, g, consumer, id, count, noack, now);
    OwedIsStillThere(es, ps, consumer, from, wanted, entry);
    RedeliverReturns(ps, wanted, entry, count, now, 0);
    RedeliverKeepsList(ps, wanted, entry, count, now, 0, r);
    forall i | 0 <= i < |ps|
      ensures var p := ps[i];
              h.pending[i] == if Redelivers(es, ps, consumer, from, count, i)
                              then p.(deliveries := p.deliveries + 1, last := now) else p
    {
      RedeliversPlace(es, ps, consumer, from, count, now, wanted, entry, i, h.pending);
    }
  }

  /** With a count of zero, the reply is the entry of the consumer's first such record, if it still exists. */
  lemma {:induction false} RereadAtZero(es: seq<Entry>, g: Group, consumer: Bytes, id: Bytes, noack: bool, now: int, from: nat,
                                        mine: seq<Pending>)
    requires id != [GREATER] && from == RankOf(NormalizeId(id))
    requires mine == Keep(g.pending, (p: Pending) => Mine(p, consumer, from))
    ensures ReadFrom(es, g, consumer, id, Some(0), noack, now).1 == if mine == [] then [] else Having(es, mine[0].id)
  {
    var wanted, entry, r := RereadIs(es, g, consumer, id, Some(0), noack, now);
    KeepSame(g.pending, wanted, (p: Pending) => Mine(p, consumer, from));
    FirstWanted(es, g.pending, wanted, entry, now);
  }

  lemma {:induction false} FirstWanted(es: seq<Entry>, ps: seq<Pending>, wanted: Pending -> bool, entry: Bytes -> Option<Entry>, now: int)
    requires forall id :: entry(id) == EntryWithId(es, id)
    ensures var mine := Keep(ps, wanted);
            Redeliver(ps, wanted, entry, Some(0), now, 0).entries == if mine == [] then [] else Having(es, mine[0].id)
  {
    FindIsFirstKept(ps, wanted);
    RedeliverAtZero(ps, wanted, entry, now);
    var at := Find(ps, wanted);
    if at.Some? { HavingIsListed(es, ps[at.value].id); }
  }

  // ── Every command, every record ──────────────────────────────────────

  /** XAUTOCLAIM may take it: from the start position on, idle for long enough, and its entry exists. */
  function Claimable(es: seq<Entry>, op: StreamOp): Pending -> bool
    requires op.AutoClaim?
  {
    (p: Pending) => && RankOf(NormalizeId(op.start)) <= PendingRank(p) && (op.minIdle == 0 || p.last + op.minIdle <= op.at)
                    && Having(es, p.id) != []
  }

  ghost predicate RereadRecords(es: seq<Entry>, ps: seq<Pending>, op: StreamOp, qs: seq<Pending>)
    requires op.ReadAs?
  {
    && |qs| == |ps|
    && forall i :: 0 <= i < |ps| ==>
         qs[i] == if Redelivers(es, ps, op.consumer, RankOf(NormalizeId(op.id)), Limit(op.count), i)
                  then ps[i].(deliveries := ps[i].deliveries + 1, last := op.at) else ps[i]
  }

  /** The records after a command on a group, told from those before it. */
  ghost predicate RecordsAfter(es: seq<Entry>, g: Group, op: StreamOp, qs: seq<Pending>) {
    match op
    case RemoveConsumer(_, consumer) =>
      Increases(g.pending, qs) && forall p :: p in qs <==> p in g.pending && p.consumer != consumer
    case ReadAs(_, consumer, id, count, noack, at) =>
      if id == [GREATER] && !noack then
        Owns(g.pending, qs, EntryIds(Undelivered(es, g.lastId, Limit(count))), consumer, at)
      else if id != [GREATER] && (id == [DOLLAR] || IsId(id)) then RereadRecords(es, g.pending, op, qs)
      else qs == g.pending
    case Acknowledge(_, ids) =>
      Increases(g.pending, qs) && forall p :: p in qs <==> p in g.pending && !(AllIds(ids) && p.id in ids)
    case Claim(_, consumer, ids, _, at) => Owns(g.pending, qs, ids, consumer, at)
    case AutoClaim(_, _, _, start, _, _) => 
      if IsId(start) then TookFirst(g.pending, qs, Claimable(es, op), op.consumer, if op.most == 0 then 1 else op.most, op.at)
      else qs == g.pending
    case _ => qs == g.pending
  }

  /** What is left of a list is in the order it was in. */
  ghost predicate Increases(ps: seq<Pending>, qs: seq<Pending>) {
    forall i, j :: 0 <= i < j < |qs| ==> Precedes(ps, qs[i], qs[j])
  }

  ghost predicate Precedes(ps: seq<Pending>, p: Pending, q: Pending) {
    exists k, l :: 0 <= k < l < |ps| && ps[k] == p && ps[l] == q
  }

  lemma {:induction false} KeptPlace(ps: seq<Pending>, p: Pending -> bool, i: nat) returns (k: nat)
    requires i < |Keep(ps, p)|
    ensures k < |ps| && ps[k] == Keep(ps, p)[i] && |Keep(ps[..k], p)| == i
  {
    var front := ps[..|ps| - 1];
    if i < |Keep(front, p)| {
      k := KeptPlace(front, p, i);
      assert front[..k] == ps[..k];
    } else {
      k := |ps| - 1;
    }
  }

  lemma {:induction false} KeptShorter(ps: seq<Pending>, p: Pending -> bool, a: nat, b: nat)
    requires a <= b <= |ps|
    ensures |Keep(ps[..a], p)| <= |Keep(ps[..b], p)|
  {
    if a < b {
      KeptShorter(ps, p, a, b - 1);
      assert ps[..b][..b - 1] == ps[..b - 1];
    }
  }

  lemma {:induction false} KeepIncreases(ps: seq<Pending>, p: Pending -> bool)
    ensures Increases(ps, Keep(ps, p)) && forall x :: x in Keep(ps, p) <==> x in ps && p(x)
  {
    var qs := Keep(ps, p);
    forall i, j | 0 <= i < j < |qs| ensures Precedes(ps, qs[i], qs[j]) {
      var k := KeptPlace(ps, p, i);
      var l := KeptPlace(ps, p, j);
      if l <= k { KeptShorter(ps, p, l, k); }
    }
    forall x ensures x in qs <==> x in ps && p(x) { KeepMembers(ps, p, x); }
  }

  lemma {:induction false} ReadRecords(es: seq<Entry>, g: Group, op: StreamOp)
    requires SoundGroup(g) && op.ReadAs?
    ensures RecordsAfter(es, g, op, GroupAfter(es, g, op).pending)
  {
    var (h, read) := ReadFrom(es, g, op.consumer, op.id, Limit(op.count), op.noack, op.at);
    if op.id == [GREATER] {
      ReadOwns(es, g, op.consumer, Limit(op.count), op.noack, op.at, h, read);
    } else {
      RereadReturns(es, g, op.consumer, op.id, Limit(op.count), op.noack, op.at, h, read, RankOf(NormalizeId(op.id)));
    }
  }

  lemma {:induction false} ReadyIsClaimable(es: seq<Entry>, op: StreamOp, p: Pending)
    requires op.AutoClaim?
    ensures Ready(es, op.minIdle, NormalizeId(op.start), op.at, p) <==> Claimable(es, op)(p)
  {
    CompareIsRank(p.id, NormalizeId(op.start));
    HavingIsListed(es, p.id);
  }

  lemma {:induction false} TookSame(ps: seq<Pending>, qs: seq<Pending>, ready: Pending -> bool, same: Pending -> bool,
                                    consumer: Bytes, most: nat, now: int)
    requires TookFirst(ps, qs, ready, consumer, most, now) && forall p :: ready(p) == same(p)
    ensures TookFirst(ps, qs, same, consumer, most, now)
  {
    forall j | 0 <= j < |ps| ensures Takes(ps, ready, most, j) == Takes(ps, same, most, j) { KeepSame(ps[..j], ready, same); }
  }

  lemma {:induction false} AutoClaimRecords(es: seq<Entry>, g: Group, op: StreamOp)
    requires op.AutoClaim? && IsId(op.start)
    ensures TookFirst(g.pending, GroupAfter(es, g, op).pending, Claimable(es, op), op.consumer,
                      if op.most == 0 then 1 else op.most, op.at)
  {
    var start := NormalizeId(op.start);
    var ready := (p: Pending) => Ready(es, op.minIdle, start, op.at, p);
    forall p ensures ready(p) == Claimable(es, op)(p) { ReadyIsClaimable(es, op, p); }
    var qs := GroupAfter(es, g, op).pending;
    AutoClaimOwns(EnsureConsumer(g, op.consumer, op.at), ready, op.consumer, op.most, op.at);
    TookSame(g.pending, qs, ready, Claimable(es, op), op.consumer, if op.most == 0 then 1 else op.most, op.at);
  }

  lemma {:induction false} AckedRecords(es: seq<Entry>, g: Group, op: StreamOp)
    requires op.Acknowledge?
    ensures RecordsAfter(es, g, op, GroupAfter(es, g, op).pending)
  {
    AckRecords(g, op.ids);
    var out := Elements(op.ids);
    KeepIncreases(g.pending, (p: Pending) => p.id !in out);
    KeepIncreases(g.pending, (p: Pending) => true);
    KeepStretch(g.pending, (p: Pending) => true, 0, |g.pending|);
    assert g.pending[0..|g.pending|] == g.pending;
  }

  /** For every command on every sound group: what each record of the pending list is afterwards. */
  lemma {:induction false} GroupAfterRecords(es: seq<Entry>, g: Group, op: StreamOp)
    requires SoundGroup(g)
    ensures RecordsAfter(es, g, op, GroupAfter(es, g, op).pending)
  {
    match op
    case RemoveConsumer(_, consumer) => KeepIncreases(g.pending, (p: Pending) => p.consumer != consumer);
    case ReadAs(_, _, _, _, _, _) => ReadRecords(es, g, op);
    case Acknowledge(_, _) => AckedRecords(es, g, op);
    case Claim(_, consumer, ids, force, at) =>
      EnsureSound(g, consumer, at);
      ClaimOwns(es, EnsureConsumer(g, consumer, at), ids, consumer, force, at);
    case AutoClaim(_, _, _, start, _, _) => if IsId(start) { AutoClaimRecords(es, g, op); }
    case _ =>
  }
}

/** What XCLAIM and XAUTOCLAIM answer, and where a further XAUTOCLAIM takes up. */
module StreamReplies {
  import opened Bytes
  import opened Decimal
  import opened Sorted
  import opened StreamIds
  import opened Streams
  import opened StreamGroups
  import opened StreamClaims
  import opened StreamLists
  import opened StreamOps
  import opened StreamRecords

  // ── XCLAIM ───────────────────────────────────────────────────────────

  /** The IDs the loop of XCLAIM claims, in turn; each is looked for in the list as the earlier ones left it. */
  function ClaimedIds(es: seq<Entry>, g: Group, ids: seq<Bytes>, consumer: Bytes, force: bool, now: int): seq<Bytes>
    decreases |ids|
  {
    if ids == [] then []
    else
      var id := ids[0];
      var rest := ClaimedIds(es, ClaimOne(es, g, id, consumer, force, now), ids[1..], consumer, force, now);
      if !force && EntryWithId(es, id).None? then rest
      else if force || Find(g.pending, (p: Pending) => p.id == id).Some? then [id] + rest
      else rest
  }

  /** Claimed are, with FORCE, all; without it, those pending at the start whose entry exists. */
  function Claimed(es: seq<Entry>, held: seq<Bytes>, force: bool): Bytes -> bool {
    (id: Bytes) => force || (id in held && Having(es, id) != [])
  }

  lemma {:induction false} ClaimLeavesOthers(es: seq<Entry>, g: Group, id: Bytes, consumer: Bytes, force: bool, now: int, other: Bytes)
    requires SoundGroup(g) && consumer in g.consumers
    ensures var h := ClaimOne(es, g, id, consumer, force, now);
            && SoundGroup(h) && consumer in h.consumers
            && (Claimed(es, Ids(g.pending), force)(other) <==> Claimed(es, Ids(h.pending), force)(other))
  {
    if force {
      ForceOneSound(es, g, id, consumer, now);
    } else {
      ClaimOneSound(es, g, id, consumer, now);
      HavingIsListed(es, other);
      IdsMember(g.pending, other);
      IdsMember(ClaimOne(es, g, id, consumer, false, now).pending, other);
    }
  }

  lemma {:induction false} ClaimsFirst(es: seq<Entry>, g: Group, id: Bytes, force: bool)
    ensures Claimed(es, Ids(g.pending), force)(id) <==>
            force || (EntryWithId(es, id).Some? && Find(g.pending, (p: Pending) => p.id == id).Some?)
  {
    FindId(g.pending, id);
    HavingIsListed(es, id);
  }

  /** The loop claims exactly those, in the order listed and as often as listed. */
  lemma {:induction false} ClaimAnswers(es: seq<Entry>, g: Group, ids: seq<Bytes>, consumer: Bytes, force: bool, now: int)
    requires SoundGroup(g) && consumer in g.consumers
    ensures ClaimedIds(es, g, ids, consumer, force, now) == Keep(ids, Claimed(es, Ids(g.pending), force))
    decreases |ids|
  {
    if ids != [] {
      var h, claimed := ClaimOne(es, g, ids[0], consumer, force, now), Claimed(es, Ids(g.pending), force);
      forall other ensures claimed(other) == Claimed(es, Ids(h.pending), force)(other) {
        ClaimLeavesOthers(es, g, ids[0], consumer, force, now, other);
      }
      ClaimLeavesOthers(es, g, ids[0], consumer, force, now, ids[0]);
      ClaimAnswers(es, h, ids[1..], consumer, force, now);
      KeepSame(ids[1..], claimed, Claimed(es, Ids(h.pending), force));
      KeepCons(ids, claimed);
      ClaimsFirst(es, g, ids[0], force);
    }
  }

  // ── XAUTOCLAIM ───────────────────────────────────────────────────────

  /** The records the loop of XAUTOCLAIM claims, as they were. */
  function AutoClaimedFrom(g: Group, i: nat, ready: Pending -> bool, consumer: Bytes, count: nat, now: int, claimed: nat): seq<Pending>
    decreases |g.pending| - i
  {
    if i >= |g.pending| then []
    else if !ready(g.pending[i]) then AutoClaimedFrom(g, i + 1, ready, consumer, count, now, claimed)
    else
      [g.pending[i]]
      + if claimed + 1 >= count then []
        else AutoClaimedFrom(Transfer(g, i, consumer, now), i + 1, ready, consumer, count, now, claimed + 1)
  }

  lemma {:induction false} AutoClaimedIs(g: Group, i: nat, ready: Pending -> bool, consumer: Bytes, count: nat, now: int, claimed: nat,
                                         most: nat)
    requires i <= |g.pending| && most == if claimed + 1 >= count then 1 else count - claimed
    ensures AutoClaimedFrom(g, i, ready, consumer, count, now, claimed) == Take(Keep(g.pending[i..], ready), Some(most))
    decreases |g.pending| - i
  {
    if i < |g.pending| {
      var ps := g.pending[i..];
      KeepCons(ps, ready);
      assert ps[0] == g.pending[i] && ps[1..] == g.pending[i + 1..];
      if !ready(g.pending[i]) {
        AutoClaimedIs(g, i + 1, ready, consumer, count, now, claimed, most);
      } else if claimed + 1 < count {
        var h := Transfer(g, i, consumer, now);
        assert h.pending[i + 1..] == g.pending[i + 1..];
        AutoClaimedIs(h, i + 1, ready, consumer, count, now, claimed + 1, most - 1);
        TakeCons(ps[0], Keep(ps[1..], ready), most);
      } else {
        TakeCons(ps[0], Keep(ps[1..], ready), most);
      }
    }
  }

  lemma {:induction false} TakeCons(p: Pending, rest: seq<Pending>, most: nat)
    requires most > 0
    ensures Take([p] + rest, Some(most)) == [p] + Take(rest, Some(most - 1))
  {
    if most < 1 + |rest| { assert ([p] + rest)[..most] == [p] + rest[..most - 1]; }
  }

  /** XAUTOCLAIM claims the first `count` records that are ready, in order; the first one for a count of zero. */
  lemma {:induction false} AutoClaimAnswers(g: Group, ready: Pending -> bool, consumer: Bytes, count: nat, now: int)
    ensures AutoClaimedFrom(g, 0, ready, consumer, count, now, 0) ==
            Take(Keep(g.pending, ready), Some(if count == 0 then 1 else count))
  {
    AutoClaimedIs(g, 0, ready, consumer, count, now, 0, if count == 0 then 1 else count);
    assert g.pending[0..] == g.pending;
  }

  // ── Where to go on ───────────────────────────────────────────────────

  /** The cursor of the reply: past the last record claimed if the count was reached; `None` is the overflow of the addition. */
  function NextStart(claimed: seq<Pending>, count: nat): Option<Bytes> {
    if claimed == [] || |claimed| < count then Some(ZeroId())
    else
      match ParseId(claimed[|claimed| - 1].id)
      case None => Some(ZeroId())
      case Some(x) => if x.sn == U64_MAX then None else Some(FormatId(x.ms, x.sn + 1))
  }

  lemma {:induction false} NextRank(claimed: seq<Pending>, count: nat, last: Pending)
    requires claimed != [] && |claimed| >= count && last == claimed[|claimed| - 1] && ParseId(last.id).Some?
    ensures NextStart(claimed, count).None? <==> IdOf(last.id).sn == U64_MAX
    ensures NextStart(claimed, count).Some? ==> RankOf(NextStart(claimed, count).value) == PendingRank(last) + 1
  {
    var x := IdOf(last.id);
    if x.sn < U64_MAX { FormatRank(Id(x.ms, x.sn + 1)); }
  }

  lemma {:induction false} SplitAt(ready: seq<Pending>, k: nat, p: Pending)
    requires Increasing(ready, PendingRank) && 0 < k <= |ready| && p in ready
    ensures p in ready[..k] <==> PendingRank(p) <= PendingRank(ready[k - 1])
  {
    var i :| 0 <= i < |ready| && ready[i] == p;
    if i < k {
      assert ready[..k][i] == p;
      assert i < k - 1 ==> PendingRank(ready[i]) < PendingRank(ready[k - 1]);
    } else {
      assert forall j :: 0 <= j < k ==> PendingRank(ready[j]) < PendingRank(ready[i]);
      assert PendingRank(ready[k - 1]) < PendingRank(ready[i]);
    }
  }

  /** What XAUTOCLAIM may take has an entry, so on a valid stream its ID can be read. */
  lemma {:induction false} ClaimableParses(s: Stream, op: StreamOp, p: Pending)
    requires ValidStream(s) && op.AutoClaim? && Claimable(s.entries, op)(p)
    ensures ParseId(p.id).Some?
  {
    var e := Having(s.entries, p.id)[0];
    KeepMembers(s.entries, (x: Entry) => x.id == p.id, e);
    assert Parses(e);
  }

  /**
   * A scan can go on where it stopped. On a list in order, the records that were ready and not claimed are exactly those
   * from the cursor on; a cursor of `0-0` with fewer than `count` claimed means that there are none. The cursor overflows
   * exactly behind the last ID of a millisecond.
   */
  lemma {:induction false} ScanGoesOn(g: Group, ready: Pending -> bool, consumer: Bytes, count: nat, now: int, claimed: seq<Pending>,
                                      p: Pending)
    requires Increasing(g.pending, PendingRank) && p in g.pending && ready(p)
    requires forall q :: ready(q) ==> ParseId(q.id).Some?
    requires claimed == AutoClaimedFrom(g, 0, ready, consumer, count, now, 0)
    ensures |claimed| < count ==> NextStart(claimed, count) == Some(ZeroId()) && p in claimed
    ensures |claimed| >= count ==>
              && claimed != []
              && (NextStart(claimed, count).None? <==> IdOf(claimed[|claimed| - 1].id).sn == U64_MAX)
              && (NextStart(claimed, count).Some? ==>
                    (p in claimed <==> PendingRank(p) < RankOf(NextStart(claimed, count).value)))
  {
    var all, most := Keep(g.pending, ready), if count == 0 then 1 else count;
    AutoClaimAnswers(g, ready, consumer, count, now);
    KeepMembers(g.pending, ready, p);
    KeepIncreasing(g.pending, ready, PendingRank);
    if |claimed| >= count {
      assert claimed != [] && claimed == all[..|claimed|];
      var last := claimed[|claimed| - 1];
      SplitAt(all, |claimed|, p);
      KeepMembers(g.pending, ready, last);
      NextRank(claimed, count, last);
    }
  }
}

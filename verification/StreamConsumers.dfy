/** The consumers of a group: who is there after a command, and when each was seen and last got something new. */
module StreamConsumers {
  import opened Bytes
  import opened StreamIds
  import opened Streams
  import opened StreamGroups
  import opened StreamClaims
  import opened StreamLists
  import opened StreamOps

  /** The same consumers with the same times; counters are another matter. */
  ghost predicate SameTimes(cs: map<Bytes, Consumer>, ds: map<Bytes, Consumer>) {
    && cs.Keys == ds.Keys
    && forall c :: c in cs ==> cs[c].lastSeen == ds[c].lastSeen && cs[c].lastSuccess == ds[c].lastSuccess
  }

  /** Only the pending list and the counters may differ. */
  ghost predicate OnlyPending(g: Group, h: Group) {
    h.lastId == g.lastId && h.readKnown == g.readKnown && SameTimes(g.consumers, h.consumers)
  }

  lemma {:induction false} ClaimOnePending(es: seq<Entry>, g: Group, id: Bytes, consumer: Bytes, force: bool, now: int)
    ensures OnlyPending(g, ClaimOne(es, g, id, consumer, force, now))
  {}

  lemma {:induction false} ClaimPending(es: seq<Entry>, g: Group, ids: seq<Bytes>, consumer: Bytes, force: bool, now: int)
    ensures OnlyPending(g, ClaimEach(es, g, ids, consumer, force, now))
    decreases |ids|
  {
    if ids != [] {
      ClaimOnePending(es, g, ids[0], consumer, force, now);
      ClaimPending(es, ClaimOne(es, g, ids[0], consumer, force, now), ids[1..], consumer, force, now);
    }
  }

  lemma {:induction false} AutoClaimPending(g: Group, i: nat, ready: Pending -> bool, consumer: Bytes, count: nat, now: int,
                                            claimed: nat)
    ensures OnlyPending(g, AutoClaimFrom(g, i, ready, consumer, count, now, claimed))
    decreases |g.pending| - i
  {
    if i < |g.pending| {
      if !ready(g.pending[i]) {
        AutoClaimPending(g, i + 1, ready, consumer, count, now, claimed);
      } else if claimed + 1 < count {
        AutoClaimPending(Transfer(g, i, consumer, now), i + 1, ready, consumer, count, now, claimed + 1);
      }
    }
  }

  lemma {:induction false} AckPending(g: Group, ids: seq<Bytes>)
    ensures OnlyPending(g, AckEach(g, ids).0)
  {
    if ids != [] { AckPending(g, ids[..|ids| - 1]); }
  }

  // ── Deliveries ───────────────────────────────────────────────────────

  /** One of the entries is not pending yet. */
  ghost predicate SomeNew(held: seq<Bytes>, es: seq<Entry>) {
    exists i :: 0 <= i < |es| && es[i].id !in held
  }

  /** Only the reader's last success moves, and only when something new came on its list. */
  ghost predicate Succeeds(cs: map<Bytes, Consumer>, ds: map<Bytes, Consumer>, consumer: Bytes, brought: bool, now: int) {
    && cs.Keys == ds.Keys
    && forall c :: c in cs ==>
         ds[c].lastSeen == cs[c].lastSeen && ds[c].lastSuccess == if brought && c == consumer then now else cs[c].lastSuccess
  }

  lemma {:induction false} DeliverOneSucceeds(g: Group, e: Entry, consumer: Bytes, now: int)
    ensures var h := DeliverOne(g, e, consumer, now);
            h.readKnown == g.readKnown && Succeeds(g.consumers, h.consumers, consumer, e.id !in Ids(g.pending), now)
  {
    FindId(g.pending, e.id);
  }

  lemma {:induction false} NewSnoc(held: seq<Bytes>, es: seq<Entry>)
    requires es != []
    ensures SomeNew(held, es) <==> SomeNew(held, es[..|es| - 1]) || es[|es| - 1].id !in held
  {
    var front := es[..|es| - 1];
    if i :| 0 <= i < |front| && front[i].id !in held { assert es[i].id !in held; }
    if i :| 0 <= i < |es| && es[i].id !in held { assert i < |front| ==> front[i].id !in held; }
  }

  lemma {:induction false} HeldLater(held: seq<Bytes>, es: seq<Entry>, id: Bytes)
    requires id in Extended(held, EntryIds(es)) && id !in held
    ensures SomeNew(held, es)
  {
    ExtendedHolds(held, EntryIds(es));
    assert id in Elements(Extended(held, EntryIds(es))) && id in Elements(EntryIds(es));
    var i :| 0 <= i < |es| && EntryIds(es)[i] == id;
    assert es[i].id !in held;
  }

  lemma {:induction false} DeliverSucceeds(g: Group, es: seq<Entry>, consumer: Bytes, now: int)
    requires SoundGroup(g) && consumer in g.consumers
    ensures var h := Deliver(g, es, consumer, now);
            h.readKnown == g.readKnown && Succeeds(g.consumers, h.consumers, consumer, SomeNew(Ids(g.pending), es), now)
  {
    if es != [] {
      var front, e := es[..|es| - 1], es[|es| - 1];
      var held, h := Ids(g.pending), Deliver(g, front, consumer, now);
      DeliverSucceeds(g, front, consumer, now);
      DeliverExtends(g, front, consumer, now);
      DeliverOneSucceeds(h, e, consumer, now);
      NewSnoc(held, es);
      ExtendedHolds(held, EntryIds(front));
      assert e.id in held ==> e.id in Elements(Ids(h.pending));
      if e.id in Ids(h.pending) && e.id !in held { HeldLater(held, front, e.id); }
    }
  }

  // ── Every command ────────────────────────────────────────────────────

  /** A command that makes its consumer if it is not there. */
  predicate MakesConsumer(op: StreamOp) {
    || op.MakeConsumer? || op.Claim? || (op.AutoClaim? && IsId(op.start))
    || (op.ReadAs? && (op.id == [GREATER] || op.id == [DOLLAR] || IsId(op.id)))
  }

  /** It puts something new on a list. */
  ghost predicate Brings(es: seq<Entry>, g: Group, op: StreamOp) {
    op.ReadAs? && op.id == [GREATER] && !op.noack && SomeNew(Ids(g.pending), Undelivered(es, g.lastId, Limit(op.count)))
  }

  /** `consumer` is there, made at `at` if it was not; it got something new at `at`, or not; nobody else was touched. */
  ghost predicate TimesBecome(cs: map<Bytes, Consumer>, ds: map<Bytes, Consumer>, consumer: Bytes, at: int, brought: bool) {
    && ds.Keys == cs.Keys + {consumer}
    && (forall c :: c in cs ==>
          ds[c].lastSeen == cs[c].lastSeen && ds[c].lastSuccess == if brought && c == consumer then at else cs[c].lastSuccess)
    && (consumer !in cs ==> ds[consumer].lastSeen == at && ds[consumer].lastSuccess == at)
  }

  lemma {:induction false} EnsuredThen(g: Group, consumer: Bytes, at: int, h: Group, brought: bool)
    requires Succeeds(EnsureConsumer(g, consumer, at).consumers, h.consumers, consumer, brought, at)
    ensures TimesBecome(g.consumers, h.consumers, consumer, at, brought)
  {}

  lemma {:induction false} SameThen(g: Group, consumer: Bytes, at: int, h: Group)
    requires SameTimes(EnsureConsumer(g, consumer, at).consumers, h.consumers)
    ensures TimesBecome(g.consumers, h.consumers, consumer, at, false)
  {}

  ghost predicate ConsumersBecome(es: seq<Entry>, g: Group, op: StreamOp, h: Group) {
    && (if op.RemoveConsumer? then h.consumers == g.consumers - {op.consumer}
        else if MakesConsumer(op) then TimesBecome(g.consumers, h.consumers, op.consumer, op.at, Brings(es, g, op))
        else SameTimes(g.consumers, h.consumers))
    && h.readKnown == (g.readKnown || (op.ReadAs? && op.id == [GREATER] && Undelivered(es, g.lastId, Limit(op.count)) != []))
  }

  lemma {:induction false} NewConsumers(es: seq<Entry>, g: Group, op: StreamOp, read: seq<Entry>, e: Group)
    requires SoundGroup(g) && op.ReadAs? && op.id == [GREATER]
    requires read == Undelivered(es, g.lastId, Limit(op.count)) && e == EnsureConsumer(g, op.consumer, op.at)
    ensures var h := ReadNew(e, read, op.consumer, op.noack, op.at);
            && Succeeds(e.consumers, h.consumers, op.consumer, Brings(es, g, op), op.at)
            && h.readKnown == (g.readKnown || read != [])
  {
    EnsureSound(g, op.consumer, op.at);
    var moved := if read == [] then e else e.(lastId := read[|read| - 1].id, readKnown := true);
    assert SoundGroup(moved);
    DeliverSucceeds(moved, read, op.consumer, op.at);
  }

  lemma {:induction false} ReadConsumers(es: seq<Entry>, g: Group, op: StreamOp)
    requires SoundGroup(g) && op.ReadAs?
    ensures ConsumersBecome(es, g, op, GroupAfter(es, g, op))
  {
    var e := EnsureConsumer(g, op.consumer, op.at);
    if op.id == [GREATER] {
      var read := Undelivered(es, g.lastId, Limit(op.count));
      NewConsumers(es, g, op, read, e);
      EnsuredThen(g, op.consumer, op.at, ReadNew(e, read, op.consumer, op.noack, op.at), Brings(es, g, op));
    }
  }

  lemma {:induction false} ClaimConsumers(es: seq<Entry>, g: Group, op: StreamOp)
    requires op.Claim?
    ensures ConsumersBecome(es, g, op, GroupAfter(es, g, op))
  {
    ClaimPending(es, EnsureConsumer(g, op.consumer, op.at), op.ids, op.consumer, op.force, op.at);
    SameThen(g, op.consumer, op.at, GroupAfter(es, g, op));
  }

  lemma {:induction false} AutoClaimConsumers(es: seq<Entry>, g: Group, op: StreamOp)
    requires op.AutoClaim?
    ensures ConsumersBecome(es, g, op, GroupAfter(es, g, op))
  {
    if IsId(op.start) {
      var from := NormalizeId(op.start);
      AutoClaimPending(EnsureConsumer(g, op.consumer, op.at), 0, (p: Pending) => Ready(es, op.minIdle, from, op.at, p),
                       op.consumer, op.most, op.at, 0);
      SameThen(g, op.consumer, op.at, GroupAfter(es, g, op));
    }
  }

  /** For every command on every sound group: who its consumers are afterwards, and their times. */
  lemma {:induction false} ConsumersAfter(es: seq<Entry>, g: Group, op: StreamOp)
    requires SoundGroup(g)
    ensures ConsumersBecome(es, g, op, GroupAfter(es, g, op))
  {
    match op
    case ReadAs(_, _, _, _, _, _) => ReadConsumers(es, g, op);
    case Acknowledge(_, ids) => AckPending(g, ids);
    case Claim(_, _, _, _, _) => ClaimConsumers(es, g, op);
    case AutoClaim(_, _, _, _, _, _) => AutoClaimConsumers(es, g, op);
    case _ =>
  }
}

/** Whole runs of the stream commands, seen by one consumer group: what it hands out, and what became of it. */
module StreamRuns {
  import opened Bytes
  import opened Decimal
  import opened Sorted
  import opened StreamIds
  import opened Streams
  import opened StreamGroups
  import opened StreamLists
  import opened StreamOps

  // ── The ledger of a group ────────────────────────────────────────────

  /**
   * What happened to a group since it was made: the rank it started at; every entry handed out by `>`; how many of
   * those were delivered to be acknowledged, and how many of these were pending already; how many pending IDs were
   * acknowledged, and how many were dropped without that; how many were forced on the list, and which IDs ever were.
   */
  datatype Ledger = Ledger(
    start: nat, handed: seq<Entry>, delivered: nat, met: nat, acked: nat, dropped: nat, forced: nat, claimed: set<Bytes>)

  function NewLedger(start: nat): Ledger {
    Ledger(start, [], 0, 0, 0, 0, 0, {})
  }

  /** The entries a command hands out by `>`. */
  function HandedOut(es: seq<Entry>, g: Group, op: StreamOp): seq<Entry> {
    if op.ReadAs? && op.id == [GREATER] then
      ReadFrom(es, g, op.consumer, op.id, Limit(op.count), op.noack, op.at).1
    else []
  }

  /** The IDs of those that are to be acknowledged. */
  function ToAck(es: seq<Entry>, g: Group, op: StreamOp): seq<Bytes> {
    if op.ReadAs? && !op.noack then EntryIds(HandedOut(es, g, op)) else []
  }

  /** The reply to XACK. */
  function Acked(g: Group, op: StreamOp): nat {
    if op.Acknowledge? && AllIds(op.ids) then AckEach(g, op.ids).1 else 0
  }

  /** Pending IDs that go without an acknowledgement: those of a deleted consumer, and claimed ones whose entry is gone. */
  ghost function Dropped(es: seq<Entry>, g: Group, op: StreamOp): set<Bytes> {
    if op.RemoveConsumer? then OwnedBy(g.pending, op.consumer)
    else if op.Claim? && !op.force then Held(g.pending) * Gone(es, op.ids)
    else {}
  }

  /** IDs that become pending without a delivery. */
  ghost function Forced(g: Group, op: StreamOp): set<Bytes> {
    if op.Claim? && op.force then Elements(op.ids) - Held(g.pending) else {}
  }

  ghost function Entered(es: seq<Entry>, g: Group, l: Ledger, op: StreamOp): Ledger {
    var due := ToAck(es, g, op);
    Ledger(l.start, l.handed + HandedOut(es, g, op), l.delivered + |due|, l.met + |Held(g.pending) * Elements(due)|,
           l.acked + Acked(g, op), l.dropped + |Dropped(es, g, op)|, l.forced + |Forced(g, op)|,
           l.claimed + Forced(g, op))
  }

  // ── Runs ─────────────────────────────────────────────────────────────

  /** A key's stream, and the ledger of the group that is being followed. */
  datatype Tracked = Tracked(stream: Option<Stream>, ledger: Option<Ledger>)

  predicate Has(s: Option<Stream>, name: Bytes) {
    s.Some? && name in s.value.groups
  }

  /** A ledger is opened when the group appears, closed when it goes, and kept while commands on the group run. */
  ghost function Step(name: Bytes, t: Tracked, op: StreamOp): Tracked {
    var s := Perform(op, t.stream).0;
    Tracked(s,
            if !Has(s, name) then None
            else if !Has(t.stream, name) then Some(NewLedger(RankOf(s.value.groups[name].lastId)))
            else if OnGroup(op) && op.group == name && t.ledger.Some? then
              Some(Entered(t.stream.value.entries, t.stream.value.groups[name], t.ledger.value, op))
            else t.ledger)
  }

  ghost function Run(name: Bytes, ops: seq<StreamOp>): Tracked {
    if ops == [] then Tracked(None, None) else Step(name, Run(name, ops[..|ops| - 1]), ops[|ops| - 1])
  }

  lemma {:induction false} RunIsRunAll(name: Bytes, ops: seq<StreamOp>)
    ensures Run(name, ops).stream == RunAll(ops)
  {
    if ops != [] { RunIsRunAll(name, ops[..|ops| - 1]); }
  }

  // ── What a group owes ────────────────────────────────────────────────

  ghost predicate HandedUpTo(start: nat, handed: seq<Entry>, cursor: nat) {
    && Increasing(handed, EntryRank)
    && (forall e :: e in handed ==> start < EntryRank(e))
    && cursor == (if handed == [] then start else EntryRank(handed[|handed| - 1]))
  }

  lemma {:induction false} HandedExtends(start: nat, handed: seq<Entry>, cursor: nat, read: seq<Entry>)
    requires HandedUpTo(start, handed, cursor) && Increasing(read, EntryRank)
    requires forall e :: e in read ==> cursor < EntryRank(e)
    ensures HandedUpTo(start, handed + read, if read == [] then cursor else EntryRank(read[|read| - 1]))
  {
    if read == [] {
      assert handed + read == handed;
    } else {
      LastIsTop(handed);
      IncreasingAppend(handed, read, EntryRank);
    }
  }

  /** Everything that came on the list is still there, or was acknowledged or dropped. */
  ghost predicate Conserved(g: Group, l: Ledger) {
    |g.pending| + l.acked + l.dropped + l.met == l.delivered + l.forced
  }

  /** What is pending was handed out or forced. */
  ghost predicate Sourced(g: Group, l: Ledger) {
    forall id :: id in Held(g.pending) ==> IsEntry(l.handed, id) || id in l.claimed
  }

  /**
   * What a group owes its consumers: entries are handed out in strictly increasing order and past the start, the
   * cursor stands at the last of them, pending IDs are distinct, owners known, counters exact, and all is accounted for.
   */
  ghost predicate Accounted(g: Group, l: Ledger) {
    SoundGroup(g) && HandedUpTo(l.start, l.handed, RankOf(g.lastId)) && Conserved(g, l) && Sourced(g, l)
  }

  ghost predicate Inv(name: Bytes, t: Tracked) {
    && (t.stream.Some? ==> ValidStream(t.stream.value))
    && (t.ledger.Some? <==> Has(t.stream, name))
    && (t.ledger.Some? ==> Accounted(t.stream.value.groups[name], t.ledger.value))
  }

  // ── One command on the group ─────────────────────────────────────────

  lemma {:induction false} HeldSize(g: Group)
    requires SoundGroup(g)
    ensures |Held(g.pending)| == |g.pending|
  {
    DistinctSize(Ids(g.pending));
  }

  lemma {:induction false} EntryIdsDistinct(es: seq<Entry>)
    requires Increasing(es, EntryRank)
    ensures |Elements(EntryIds(es))| == |es|
  {
    var ids := EntryIds(es);
    forall i, j | 0 <= i < j < |ids| ensures ids[i] != ids[j] { assert EntryRank(es[i]) < EntryRank(es[j]); }
    DistinctSize(ids);
  }

  lemma {:induction false} HandsOutUndelivered(es: seq<Entry>, g: Group, op: StreamOp)
    requires op.ReadAs? && op.id == [GREATER]
    ensures HandedOut(es, g, op) == Undelivered(es, g.lastId, Limit(op.count))
  {}

  /** What a read hands out are the entries past the cursor. */
  lemma {:induction false} HandedOutPast(es: seq<Entry>, g: Group, op: StreamOp)
    requires Increasing(es, EntryRank)
    ensures var read := HandedOut(es, g, op);
            && Increasing(read, EntryRank) && (forall e :: e in read ==> RankOf(g.lastId) < EntryRank(e))
            && RankOf(CursorAfter(es, g, op)) == if read == [] then RankOf(g.lastId) else EntryRank(read[|read| - 1])
  {
    if op.ReadAs? && op.id == [GREATER] {
      HandsOutUndelivered(es, g, op);
      UndeliveredPast(es, g.lastId, Limit(op.count));
    }
  }

  /** `due` came on, `forced` was forced on and `off` many went off: what is left, in numbers. */
  ghost predicate Changed(held: set<Bytes>, after: set<Bytes>, due: set<Bytes>, off: nat, forced: set<Bytes>) {
    after <= held + due + forced && |after| + off + |held * due| == |held| + |due| + |forced|
  }

  lemma {:induction false} WentOff(held: set<Bytes>, out: set<Bytes>, off: nat)
    requires off == |held * out|
    ensures Changed(held, held - out, {}, off, {})
  {
    assert held * {} == {};
  }

  lemma {:induction false} CameOn(held: set<Bytes>, due: set<Bytes>)
    ensures Changed(held, held + due, due, 0, {})
  {}

  lemma {:induction false} WasForced(held: set<Bytes>, ids: set<Bytes>)
    ensures Changed(held, held + ids, {}, 0, ids - held)
  {
    assert held * {} == {} && held + ids == held + (ids - held);
  }

  ghost predicate ChangedBy(es: seq<Entry>, g: Group, op: StreamOp) {
    Changed(Held(g.pending), HeldAfter(es, g, op), Elements(ToAck(es, g, op)),
            Acked(g, op) + |Dropped(es, g, op)|, Forced(g, op))
  }

  lemma {:induction false} ReadShape(es: seq<Entry>, g: Group, op: StreamOp)
    requires op.ReadAs?
    ensures HeldAfter(es, g, op) == Held(g.pending) + Elements(ToAck(es, g, op))
    ensures Acked(g, op) == 0 && Dropped(es, g, op) == {} && Forced(g, op) == {}
  {
    assert Held(g.pending) + {} == Held(g.pending);
  }

  lemma {:induction false} ReadChange(es: seq<Entry>, g: Group, op: StreamOp)
    requires op.ReadAs?
    ensures ChangedBy(es, g, op)
  {
    ReadShape(es, g, op);
    CameOn(Held(g.pending), Elements(ToAck(es, g, op)));
  }

  /** A command that takes `out` off the list. */
  lemma {:induction false} OffShape(es: seq<Entry>, g: Group, op: StreamOp, out: set<Bytes>)
    requires op.RemoveConsumer? || op.Acknowledge?
    requires out == if op.RemoveConsumer? then OwnedBy(g.pending, op.consumer)
                    else if AllIds(op.ids) then Elements(op.ids) else {}
    ensures HeldAfter(es, g, op) == Held(g.pending) - out
    ensures Elements(ToAck(es, g, op)) == {} && Forced(g, op) == {}
  {
    assert Held(g.pending) - {} == Held(g.pending);
  }

  lemma {:induction false} OffCount(es: seq<Entry>, g: Group, op: StreamOp, out: set<Bytes>)
    requires SoundGroup(g) && (op.RemoveConsumer? || op.Acknowledge?)
    requires out == if op.RemoveConsumer? then OwnedBy(g.pending, op.consumer)
                    else if AllIds(op.ids) then Elements(op.ids) else {}
    ensures Acked(g, op) + |Dropped(es, g, op)| == |Held(g.pending) * out|
  {
    if op.RemoveConsumer? {
      DropConsumerSound(g, op.consumer);
      assert Held(g.pending) * out == out;
    } else {
      AckEachSound(g, op.ids);
      assert Held(g.pending) * {} == {};
    }
  }

  lemma {:induction false} OffChange(es: seq<Entry>, g: Group, op: StreamOp)
    requires SoundGroup(g) && (op.RemoveConsumer? || op.Acknowledge?)
    ensures ChangedBy(es, g, op)
  {
    var out := if op.RemoveConsumer? then OwnedBy(g.pending, op.consumer)
               else if AllIds(op.ids) then Elements(op.ids) else {};
    OffShape(es, g, op, out);
    OffCount(es, g, op, out);
    WentOff(Held(g.pending), out, Acked(g, op) + |Dropped(es, g, op)|);
  }

  lemma {:induction false} ClaimShape(es: seq<Entry>, g: Group, op: StreamOp)
    requires op.Claim?
    ensures Elements(ToAck(es, g, op)) == {} && Acked(g, op) == 0
    ensures op.force ==> HeldAfter(es, g, op) == Held(g.pending) + Elements(op.ids) && Dropped(es, g, op) == {}
    ensures !op.force ==> HeldAfter(es, g, op) == Held(g.pending) - Gone(es, op.ids) && Forced(g, op) == {}
  {}

  lemma {:induction false} ClaimChange(es: seq<Entry>, g: Group, op: StreamOp)
    requires op.Claim?
    ensures ChangedBy(es, g, op)
  {
    ClaimShape(es, g, op);
    if op.force {
      WasForced(Held(g.pending), Elements(op.ids));
    } else {
      WentOff(Held(g.pending), Gone(es, op.ids), |Dropped(es, g, op)|);
    }
  }

  lemma {:induction false} NoChange(es: seq<Entry>, g: Group, op: StreamOp)
    requires op.MakeConsumer? || op.AutoClaim?
    ensures ChangedBy(es, g, op)
  {
    CameOn(Held(g.pending), {});
  }

  /** How the list changes, in numbers. */
  lemma {:induction false} HeldChange(es: seq<Entry>, g: Group, op: StreamOp)
    requires SoundGroup(g) && OnGroup(op)
    ensures ChangedBy(es, g, op)
  {
    if op.ReadAs? {
      ReadChange(es, g, op);
    } else if op.RemoveConsumer? || op.Acknowledge? {
      OffChange(es, g, op);
    } else if op.Claim? {
      ClaimChange(es, g, op);
    } else {
      NoChange(es, g, op);
    }
  }

  lemma {:induction false} Conserves(es: seq<Entry>, g: Group, l: Ledger, op: StreamOp)
    requires Increasing(es, EntryRank) && SoundGroup(g) && Conserved(g, l) && OnGroup(op)
    ensures Conserved(GroupAfter(es, g, op), Entered(es, g, l, op))
  {
    GroupAfterHolds(es, g, op);
    HeldSize(g);
    HeldSize(GroupAfter(es, g, op));
    HeldChange(es, g, op);
    HandedOutPast(es, g, op);
    EntryIdsDistinct(HandedOut(es, g, op));
  }

  lemma {:induction false} DueIsHanded(es: seq<Entry>, g: Group, op: StreamOp, id: Bytes)
    requires id in Elements(ToAck(es, g, op))
    ensures IsEntry(HandedOut(es, g, op), id)
  {
    var read, due := HandedOut(es, g, op), ToAck(es, g, op);
    var i :| 0 <= i < |due| && due[i] == id;
    assert read[i] in read;
  }

  lemma {:induction false} HandedId(handed: seq<Entry>, read: seq<Entry>, id: Bytes)
    requires IsEntry(handed, id) || IsEntry(read, id)
    ensures IsEntry(handed + read, id)
  {
    if IsEntry(handed, id) {
      var e :| e in handed && e.id == id;
      assert e in handed + read;
    } else {
      var e :| e in read && e.id == id;
      assert e in handed + read;
    }
  }

  lemma {:induction false} KeepsSource(es: seq<Entry>, g: Group, l: Ledger, op: StreamOp)
    requires SoundGroup(g) && Sourced(g, l) && OnGroup(op)
    ensures Sourced(GroupAfter(es, g, op), Entered(es, g, l, op))
  {
    var h, m := GroupAfter(es, g, op), Entered(es, g, l, op);
    GroupAfterHolds(es, g, op);
    HeldChange(es, g, op);
    forall id | id in Held(h.pending) ensures IsEntry(m.handed, id) || id in m.claimed {
      if id in Elements(ToAck(es, g, op)) {
        DueIsHanded(es, g, op, id);
        HandedId(l.handed, HandedOut(es, g, op), id);
      } else if id !in Forced(g, op) && IsEntry(l.handed, id) {
        HandedId(l.handed, HandedOut(es, g, op), id);
      }
    }
  }

  /** Every command on a group keeps its account. */
  lemma {:induction false} AccountKept(es: seq<Entry>, g: Group, l: Ledger, op: StreamOp)
    requires Increasing(es, EntryRank) && Accounted(g, l) && OnGroup(op)
    ensures Accounted(GroupAfter(es, g, op), Entered(es, g, l, op))
  {
    GroupAfterHolds(es, g, op);
    HandedOutPast(es, g, op);
    HandedExtends(l.start, l.handed, RankOf(g.lastId), HandedOut(es, g, op));
    Conserves(es, g, l, op);
    KeepsSource(es, g, l, op);
  }

  // ── Every run of every command ───────────────────────────────────────

  lemma {:induction false} AddedGroups(s: Stream, id: Bytes, values: seq<Bytes>, now: U64, maxLen: Option<nat>, minId: Option<Bytes>)
    requires ValidStream(s)
    ensures var t := Trimmed(Add(s, id, values, now).0, maxLen, minId); ValidStream(t) && t.groups == s.groups
  {
    AddKeeps(s, id, values, now);
    TrimmedKeeps(Add(s, id, values, now).0, maxLen, minId);
  }

  lemma {:induction false} RemovedGroups(op: StreamOp, s: Stream)
    requires ValidStream(s) && (op.DeleteEntries? || op.TrimToLength? || op.TrimBelow?)
    ensures var t := Perform(op, Some(s)).0.value; ValidStream(t) && t.groups == s.groups
  {
    if op.DeleteEntries? {
      DelKeeps(s, op.ids);
    } else {
      var maxLen, minId := if op.TrimToLength? then Some(op.n) else None, if op.TrimBelow? then Some(op.threshold) else None;
      TrimPerforms(op, s);
      TrimmedKeeps(s, maxLen, minId);
    }
  }

  /** A command about entries. */
  predicate OnEntries(op: StreamOp) {
    op.AddEntry? || op.DeleteEntries? || op.TrimToLength? || op.TrimBelow?
  }

  lemma {:induction false} EntriesPerform(op: StreamOp, s: Option<Stream>, base: Stream)
    requires ValidStream(base) && OnEntries(op) && base == if s.Some? then s.value else EmptyStream()
    ensures Perform(op, s).0.Some? ==> ValidStream(Perform(op, s).0.value) && Perform(op, s).0.value.groups == base.groups
  {
    if op.AddEntry? {
      AddedGroups(base, op.id, op.values, op.now, op.maxLen, op.minId);
    } else if s.Some? {
      RemovedGroups(op, base);
    }
  }

  lemma {:induction false} GroupsPerform(op: StreamOp, s: Option<Stream>, base: Stream)
    requires !OnEntries(op) && base == if s.Some? then s.value else EmptyStream()
    ensures Perform(op, s).0.Some? ==>
              Perform(op, s).0.value.entries == base.entries && Perform(op, s).0.value.lastAllocated == base.lastAllocated
  {}

  /** Entries stay in order whatever is done to groups. */
  lemma {:induction false} PerformValid(op: StreamOp, s: Option<Stream>)
    requires s.Some? ==> ValidStream(s.value)
    ensures Perform(op, s).0.Some? ==> ValidStream(Perform(op, s).0.value)
  {
    EmptyWhole();
    var base := if s.Some? then s.value else EmptyStream();
    if OnEntries(op) {
      EntriesPerform(op, s, base);
    } else {
      GroupsPerform(op, s, base);
    }
  }

  /** A command leaves groups it does not name alone, and a group that appears has nothing pending. */
  lemma {:induction false} OtherGroups(op: StreamOp, s: Option<Stream>, name: Bytes)
    requires (s.Some? ==> ValidStream(s.value)) && Has(Perform(op, s).0, name)
    ensures var h := Perform(op, s).0.value.groups[name];
            if !Has(s, name) then h == Group(h.lastId, [], map[], h.readKnown)
            else if OnGroup(op) && op.group == name then h == GroupAfter(s.value.entries, s.value.groups[name], op)
            else h == s.value.groups[name]
  {
    EmptyWhole();
    if OnEntries(op) { EntriesPerform(op, s, if s.Some? then s.value else EmptyStream()); }
  }

  lemma {:induction false} NewAccount(h: Group)
    requires h == Group(h.lastId, [], map[], h.readKnown)
    ensures Accounted(h, NewLedger(RankOf(h.lastId)))
  {}

  /** Every stream command keeps entries in order and the followed group's account. */
  lemma {:induction false} StepKeeps(name: Bytes, t: Tracked, op: StreamOp)
    requires Inv(name, t)
    ensures Inv(name, Step(name, t, op))
  {
    var s := Perform(op, t.stream).0;
    PerformValid(op, t.stream);
    if Has(s, name) {
      OtherGroups(op, t.stream, name);
      if !Has(t.stream, name) {
        NewAccount(s.value.groups[name]);
      } else if OnGroup(op) && op.group == name {
        AccountKept(t.stream.value.entries, t.stream.value.groups[name], t.ledger.value, op);
      }
    }
  }

  /** So in every run of all stream commands, for every group: strictly increasing hand-outs, and nothing unaccounted for. */
  lemma {:induction false} AlwaysAccounted(name: Bytes, ops: seq<StreamOp>)
    ensures Inv(name, Run(name, ops))
  {
    if ops != [] {
      AlwaysAccounted(name, ops[..|ops| - 1]);
      StepKeeps(name, Run(name, ops[..|ops| - 1]), ops[|ops| - 1]);
    }
  }

  // ── Where forced claims find room ────────────────────────────────────

  lemma {:induction false} DuePastCursor(es: seq<Entry>, g: Group, op: StreamOp, id: Bytes)
    requires Increasing(es, EntryRank) && id in Elements(ToAck(es, g, op))
    ensures RankOf(g.lastId) < RankOf(id)
  {
    HandedOutPast(es, g, op);
    DueIsHanded(es, g, op, id);
    var e :| e in HandedOut(es, g, op) && e.id == id;
    assert EntryRank(e) == RankOf(id);
  }

  /** Within the cursor, nothing that is handed out is pending already. */
  lemma {:induction false} NothingMet(es: seq<Entry>, g: Group, op: StreamOp)
    requires Increasing(es, EntryRank) && ValidGroup(g)
    ensures Held(g.pending) * Elements(ToAck(es, g, op)) == {}
  {
    ValidExactly(g);
    forall id | id in Elements(ToAck(es, g, op)) ensures id !in Held(g.pending) { DuePastCursor(es, g, op, id); }
  }

  lemma {:induction false} NeverMet(name: Bytes, ops: seq<StreamOp>)
    requires EachFits(ops)
    ensures Run(name, ops).ledger.Some? ==> Run(name, ops).ledger.value.met == 0
  {
    if ops != [] {
      var front, op := ops[..|ops| - 1], ops[|ops| - 1];
      var t := Run(name, front);
      NeverMet(name, front);
      AlwaysWhole(front);
      RunIsRunAll(name, front);
      if Has(t.stream, name) { NothingMet(t.stream.value.entries, t.stream.value.groups[name], op); }
    }
  }

  /**
   * In every run whose forced claims find room, every group's pending list is in order and within its cursor, and
   * pending, acknowledged and dropped together are what was delivered or forced.
   */
  lemma {:induction false} AlwaysBalanced(name: Bytes, ops: seq<StreamOp>, t: Tracked)
    requires EachFits(ops) && t == Run(name, ops) && t.ledger.Some?
    ensures Has(t.stream, name) && ValidGroup(t.stream.value.groups[name])
    ensures var l := t.ledger.value;
            |t.stream.value.groups[name].pending| + l.acked + l.dropped == l.delivered + l.forced
  {
    AlwaysAccounted(name, ops);
    AlwaysWhole(ops);
    RunIsRunAll(name, ops);
    NeverMet(name, ops);
  }

  // ── The plain law, and what breaks it ────────────────────────────────

  /** Every delivery is either still pending or acknowledged. */
  ghost predicate PlainLaw(g: Group, l: Ledger) {
    |g.pending| + l.acked == l.delivered
  }

  /**
   * A command that loses nothing and adds nothing undelivered: it deletes no consumer with pending entries, claims no
   * pending ID whose entry is gone, forces no ID that is not pending, and hands out nothing that is pending already.
   */
  ghost predicate Lossless(es: seq<Entry>, g: Group, op: StreamOp) {
    match op
    case RemoveConsumer(_, consumer) => forall p :: p in g.pending ==> p.consumer != consumer
    case Claim(_, _, ids, force, _) =>
      if force then forall id :: id in ids ==> IsPending(g.pending, id)
      else forall id :: id in ids && IsPending(g.pending, id) ==> EntryWithId(es, id).Some?
    case ReadAs(_, _, _, _, _, _) => forall id :: id in ToAck(es, g, op) ==> !IsPending(g.pending, id)
    case _ => true
  }

  lemma {:induction false} LosslessExactly(es: seq<Entry>, g: Group, op: StreamOp)
    ensures Lossless(es, g, op) <==>
            Dropped(es, g, op) == {} && Forced(g, op) == {} && Held(g.pending) * Elements(ToAck(es, g, op)) == {}
  {
    forall id ensures id in Held(g.pending) <==> IsPending(g.pending, id) { IdsMember(g.pending, id); }
    match op
    case RemoveConsumer(_, consumer) =>
      if p :| p in g.pending && p.consumer == consumer { assert p.id in OwnedBy(g.pending, consumer); }
    case Claim(_, _, ids, force, _) =>
      if force {
        if id :| id in ids && !IsPending(g.pending, id) { assert id in Forced(g, op); }
      } else {
        if id :| id in ids && IsPending(g.pending, id) && EntryWithId(es, id).None? { assert id in Dropped(es, g, op); }
      }
    case ReadAs(_, _, _, _, _, _) =>
      if id :| id in ToAck(es, g, op) && IsPending(g.pending, id) {
        assert id in Held(g.pending) * Elements(ToAck(es, g, op));
      }
    case _ =>
  }

  /** Where every delivery was pending or acknowledged, a command on the group keeps it so exactly when it is lossless. */
  lemma {:induction false} PlainLawExactly(es: seq<Entry>, g: Group, l: Ledger, op: StreamOp)
    requires Increasing(es, EntryRank) && Accounted(g, l) && OnGroup(op) && PlainLaw(g, l)
    ensures PlainLaw(GroupAfter(es, g, op), Entered(es, g, l, op)) <==> Lossless(es, g, op)
  {
    Conserves(es, g, l, op);
    LosslessExactly(es, g, op);
    AtMostOne(es, g, op);
  }

  /** A command loses, forces or meets, not two of these. */
  lemma {:induction false} AtMostOne(es: seq<Entry>, g: Group, op: StreamOp)
    ensures Forced(g, op) == {} || (Dropped(es, g, op) == {} && ToAck(es, g, op) == [])
  {}

  // ── Nothing skipped, nothing twice ───────────────────────────────────

  /** A command that can take entries out of the stream. */
  predicate Removes(op: StreamOp) {
    op.DeleteEntries? || op.TrimToLength? || op.TrimBelow? || (op.AddEntry? && (op.maxLen.Some? || op.minId.Some?))
  }

  /** Exactly the entries past the start and up to the cursor were handed out. */
  ghost predicate HandedAll(es: seq<Entry>, start: nat, cursor: nat, handed: seq<Entry>) {
    Increasing(es, EntryRank) && start <= cursor && handed == Stretch(es, EntryRank, start, cursor)
  }

  ghost predicate Complete(name: Bytes, t: Tracked) {
    Has(t.stream, name) && t.ledger.Some? ==>
      HandedAll(t.stream.value.entries, t.ledger.value.start, RankOf(t.stream.value.groups[name].lastId),
                t.ledger.value.handed)
  }

  lemma {:induction false} AddHandsNothing(s: Stream, t: Stream, id: Bytes, values: seq<Bytes>,
                                           start: nat, cursor: nat, handed: seq<Entry>)
    requires ValidStream(t) && AddedAtEnd(s, t, id, values)
    requires HandedAll(s.entries, start, cursor, handed) && HandedUpTo(start, handed, cursor)
    ensures HandedAll(t.entries, start, cursor, handed)
  {
    var e := Entry(id, values);
    if handed != [] {
      var last := handed[|handed| - 1];
      var p := (x: Entry) => start < EntryRank(x) <= cursor;
      StretchIsKeep(s.entries, EntryRank, start, cursor, p);
      KeepMembers(s.entries, p, last);
      assert last in handed && last in s.entries && EntryRank(last) < EntryRank(e);
    }
    StretchAppend(s.entries, e, EntryRank, start, cursor);
  }

  lemma {:induction false} NextStretch(es: seq<Entry>, key: Entry -> nat, start: nat, mid: nat, handed: seq<Entry>, read: seq<Entry>)
    requires Increasing(es, key) && start <= mid && handed == Stretch(es, key, start, mid)
    requires var k := UpTo(es, key, mid); k + |read| <= |es| && read == es[k..k + |read|]
    ensures read == [] || (mid < key(read[|read| - 1]) && handed + read == Stretch(es, key, start, key(read[|read| - 1])))
  {
    if read != [] { StretchExtend(es, key, start, mid, read); }
  }

  lemma {:induction false} NextHanded(es: seq<Entry>, start: nat, mid: nat, handed: seq<Entry>, read: seq<Entry>)
    requires HandedAll(es, start, mid, handed)
    requires var k := UpTo(es, EntryRank, mid); k + |read| <= |es| && read == es[k..k + |read|]
    ensures HandedAll(es, start, if read == [] then mid else EntryRank(read[|read| - 1]), handed + read)
  {
    NextStretch(es, EntryRank, start, mid, handed, read);
    if read == [] { assert handed + read == handed; }
  }

  lemma {:induction false} ReadHandsNext(es: seq<Entry>, start: nat, cursor: Bytes, handed: seq<Entry>, count: Option<nat>)
    requires HandedAll(es, start, RankOf(cursor), handed)
    ensures var read := Undelivered(es, cursor, count);
            HandedAll(es, start, if read == [] then RankOf(cursor) else EntryRank(read[|read| - 1]), handed + read)
  {
    UndeliveredIsStretch(es, cursor, count);
    NextHanded(es, start, RankOf(cursor), handed, Undelivered(es, cursor, count));
  }

  lemma {:induction false} NothingHandedYet(es: seq<Entry>, start: nat)
    requires Increasing(es, EntryRank)
    ensures HandedAll(es, start, start, [])
  {}

  lemma {:induction false} CommandHandsNext(es: seq<Entry>, g: Group, l: Ledger, op: StreamOp)
    requires SoundGroup(g) && HandedAll(es, l.start, RankOf(g.lastId), l.handed)
    ensures HandedAll(es, l.start, RankOf(GroupAfter(es, g, op).lastId), Entered(es, g, l, op).handed)
  {
    GroupAfterHolds(es, g, op);
    var read := HandedOut(es, g, op);
    assert Entered(es, g, l, op).handed == l.handed + read;
    if op.ReadAs? && op.id == [GREATER] {
      assert read == Undelivered(es, g.lastId, Limit(op.count));
      ReadHandsNext(es, l.start, g.lastId, l.handed, Limit(op.count));
    } else {
      assert l.handed + read == l.handed;
    }
  }

  lemma {:induction false} AddLeavesHanded(s: Stream, op: StreamOp, start: nat, cursor: nat, handed: seq<Entry>)
    requires ValidStream(s) && op.AddEntry? && !Removes(op)
    requires HandedAll(s.entries, start, cursor, handed) && HandedUpTo(start, handed, cursor)
    ensures HandedAll(Perform(op, Some(s)).0.value.entries, start, cursor, handed)
  {
    var (u, r) := Add(s, op.id, op.values, op.now);
    AddPerforms(op, Some(s), s);
    if r.Added? {
      AddKeeps(s, op.id, op.values, op.now);
      AddHandsNothing(s, u, r.id, op.values, start, cursor, handed);
    }
  }

  lemma {:induction false} AddCompletes(name: Bytes, t: Tracked, op: StreamOp)
    requires Inv(name, t) && Complete(name, t) && op.AddEntry? && !Removes(op) && Has(t.stream, name)
    requires Has(Perform(op, t.stream).0, name)
    requires Perform(op, t.stream).0.value.groups[name] == t.stream.value.groups[name]
    ensures Complete(name, Step(name, t, op))
  {
    var s, l := t.stream.value, t.ledger.value;
    AddLeavesHanded(s, op, l.start, RankOf(s.groups[name].lastId), l.handed);
  }

  lemma {:induction false} StepCompletes(name: Bytes, t: Tracked, op: StreamOp)
    requires Inv(name, t) && Complete(name, t) && !Removes(op)
    ensures Complete(name, Step(name, t, op))
  {
    var s := Perform(op, t.stream).0;
    if Has(s, name) {
      PerformValid(op, t.stream);
      OtherGroups(op, t.stream, name);
      if !Has(t.stream, name) {
        NothingHandedYet(s.value.entries, RankOf(s.value.groups[name].lastId));
      } else if op.AddEntry? {
        AddCompletes(name, t, op);
      } else {
        GroupsPerform(op, t.stream, t.stream.value);
        if OnGroup(op) && op.group == name {
          CommandHandsNext(t.stream.value.entries, t.stream.value.groups[name], t.ledger.value, op);
        }
      }
    }
  }

  lemma {:induction false} AlwaysComplete(name: Bytes, ops: seq<StreamOp>)
    requires forall op :: op in ops ==> !Removes(op)
    ensures Complete(name, Run(name, ops))
  {
    if ops != [] {
      var before := ops[..|ops| - 1];
      AlwaysComplete(name, before);
      AlwaysAccounted(name, before);
      StepCompletes(name, Run(name, before), ops[|ops| - 1]);
    }
  }

  /** The entries past `lo` and up to `hi`, in order. */
  ghost function Between(es: seq<Entry>, lo: nat, hi: nat): seq<Entry> {
    Keep(es, (e: Entry) => lo < EntryRank(e) <= hi)
  }

  lemma {:induction false} StretchIsBetween(es: seq<Entry>, lo: nat, hi: nat)
    requires Increasing(es, EntryRank) && lo <= hi
    ensures Stretch(es, EntryRank, lo, hi) == Between(es, lo, hi)
  {
    StretchIsKeep(es, EntryRank, lo, hi, (e: Entry) => lo < EntryRank(e) <= hi);
  }

  /** Without trims and deletes, a group hands out every entry between its start and its cursor, once and in order. */
  lemma {:induction false} HandedExactly(name: Bytes, ops: seq<StreamOp>, t: Tracked, l: Ledger)
    requires forall op :: op in ops ==> !Removes(op)
    requires t == Run(name, ops) && t.ledger == Some(l)
    ensures Has(t.stream, name)
    ensures l.handed == Between(t.stream.value.entries, l.start, RankOf(t.stream.value.groups[name].lastId))
  {
    AlwaysAccounted(name, ops);
    AlwaysComplete(name, ops);
    StretchIsBetween(t.stream.value.entries, l.start, RankOf(t.stream.value.groups[name].lastId));
  }

  // ── Two runs that break laws ─────────────────────────────────────────

  lemma {:induction false} StartsIdle(name: Bytes, op: StreamOp)
    requires op == MakeGroup(name, ZeroId(), true)
    ensures Perform(op, None).0 == Some(IdleGroup(name))
  {
    assert DASH in ZeroId() by { assert ZeroId()[|Digits(0)|] == DASH; }
    assert Digits(0) == [DIGIT_0];
  }

  /** The text of an ID asks for that ID, and for no generated one. */
  lemma {:induction false} AsksForItself(s: Stream, x: Id, id: Bytes, values: seq<Bytes>, now: U64)
    requires x.Valid() && id == FormatId(x.ms, x.sn)
    ensures Add(s, id, values, now) == AddExplicit(s, id, values)
  {
    assert id[|id| - 1] == Digits(x.sn)[|Digits(x.sn)| - 1] && id[|Digits(x.ms)|] == DASH;
    assert |id| >= 2 ==> id[|id| - 2..][1] == id[|id| - 1];
  }

  lemma {:induction false} AddsOne(s: Stream, x: Id, id: Bytes, values: seq<Bytes>, op: StreamOp)
    requires x.Valid() && x.Rank() > 0 && id == FormatId(x.ms, x.sn) && s.entries == []
    requires op == AddEntry(id, values, 0, false, None, None)
    ensures Perform(op, Some(s)).0 == Some(s.(entries := [Entry(id, values)], lastAllocated := id))
  {
    AsksForItself(s, x, id, values, 0);
    ParseOfFormat(x);
    assert s.entries + [Entry(id, values)] == [Entry(id, values)];
  }

  lemma {:induction false} HandsOutOne(e: Entry, g: Group, op: StreamOp)
    requires RankOf(g.lastId) < EntryRank(e) && op.ReadAs? && op.id == [GREATER] && op.count == None
    ensures HandedOut([e], g, op) == [e]
  {
    CompareIsRank(e.id, g.lastId);
    var p := (x: Entry) => CompareIds(x.id, g.lastId) > 0;
    assert [e][..0] == [] && Keep([e][..0], p) == [];
    assert Keep([e], p) == [e];
  }

  lemma {:induction false} RunOne(name: Bytes, op: StreamOp)
    ensures Run(name, [op]) == Step(name, Tracked(None, None), op)
  {
    assert [op][..0] == [];
  }

  lemma {:induction false} RunNext(name: Bytes, ops: seq<StreamOp>, op: StreamOp)
    ensures Run(name, ops + [op]) == Step(name, Run(name, ops), op)
  {
    assert (ops + [op])[..|ops|] == ops;
  }

  /** A group that was just made, on a stream that then gets one entry past its cursor. */
  lemma {:induction false} MakeAndAdd(name: Bytes, x: Id, id: Bytes, values: seq<Bytes>, make: StreamOp, add: StreamOp)
    requires x.Valid() && x.Rank() > 0 && id == FormatId(x.ms, x.sn)
    requires make == MakeGroup(name, ZeroId(), true) && add == AddEntry(id, values, 0, false, None, None)
    ensures RankOf(ZeroId()) == 0 && RankOf(id) == x.Rank()
    ensures Run(name, [make] + [add]) ==
            Tracked(Some(IdleGroup(name).(entries := [Entry(id, values)], lastAllocated := id)), Some(NewLedger(0)))
  {
    FormatRank(x);
    FormatRank(Id(0, 0));
    StartsIdle(name, make);
    RunOne(name, make);
    RunNext(name, [make], add);
    AddsOne(IdleGroup(name), x, id, values, add);
  }

  lemma {:induction false} ReaderOwns(es: seq<Entry>, g: Group, e: Entry, op: StreamOp)
    requires g.pending == [] && op.ReadAs? && op.id == [GREATER] && !op.noack
    requires HandedOut(es, g, op) == [e]
    ensures GroupAfter(es, g, op).pending == [Pending(e.id, op.consumer, 1, op.at)]
  {
    var h := EnsureConsumer(g, op.consumer, op.at);
    var moved := h.(lastId := e.id, readKnown := true);
    assert Undelivered(es, h.lastId, Limit(op.count)) == [e];
    assert [e][..0] == [] && Deliver(moved, [e][..0], op.consumer, op.at) == moved;
    assert GroupAfter(es, g, op) == DeliverOne(moved, e, op.consumer, op.at);
    assert moved.pending + [Pending(e.id, op.consumer, 1, op.at)] == [Pending(e.id, op.consumer, 1, op.at)];
  }

  /** One entry, delivered and pending. */
  lemma {:induction false} ReadOne(
      name: Bytes, x: Id, id: Bytes, values: seq<Bytes>, make: StreamOp, add: StreamOp, read: StreamOp, t: Tracked)
    requires x.Valid() && x.Rank() > 0 && id == FormatId(x.ms, x.sn)
    requires make == MakeGroup(name, ZeroId(), true) && add == AddEntry(id, values, 0, false, None, None)
    requires read.ReadAs? && read == ReadAs(name, read.consumer, [GREATER], None, false, read.at)
    requires t == Run(name, [make] + [add] + [read])
    ensures t.ledger.Some? && t.ledger.value.delivered == 1 && t.ledger.value.acked == 0
    ensures Has(t.stream, name) && t.stream.value.groups[name].pending == [Pending(id, read.consumer, 1, read.at)]
  {
    MakeAndAdd(name, x, id, values, make, add);
    RunNext(name, [make] + [add], read);
    var s := Run(name, [make] + [add]).stream.value;
    HandsOutOne(Entry(id, values), s.groups[name], read);
    ReaderOwns(s.entries, s.groups[name], Entry(id, values), read);
  }

  /** Deleting a consumer with something pending breaks the plain law. */
  lemma {:induction false} LosesOwn(name: Bytes, t: Tracked, p: Pending, gone: StreamOp)
    requires Inv(name, t) && Has(t.stream, name) && PlainLaw(t.stream.value.groups[name], t.ledger.value)
    requires p in t.stream.value.groups[name].pending && gone == RemoveConsumer(name, p.consumer)
    ensures var u := Step(name, t, gone);
            u.ledger.Some? && Has(u.stream, name) && !PlainLaw(u.stream.value.groups[name], u.ledger.value)
  {
    var s := t.stream.value;
    PlainLawExactly(s.entries, s.groups[name], t.ledger.value, gone);
  }

  /** Entries delivered and then lost with their consumer: one delivery, nothing pending, nothing acknowledged. */
  lemma {:induction false} DeletedConsumerLoses(
      name: Bytes, x: Id, id: Bytes, values: seq<Bytes>, make: StreamOp, add: StreamOp, read: StreamOp, gone: StreamOp)
    requires x.Valid() && x.Rank() > 0 && id == FormatId(x.ms, x.sn)
    requires make == MakeGroup(name, ZeroId(), true) && add == AddEntry(id, values, 0, false, None, None)
    requires read.ReadAs? && read == ReadAs(name, read.consumer, [GREATER], None, false, read.at)
    requires gone == RemoveConsumer(name, read.consumer)
    ensures var t, u := Run(name, [make] + [add] + [read]), Run(name, [make] + [add] + [read] + [gone]);
            && t.ledger.Some? && Has(t.stream, name) && PlainLaw(t.stream.value.groups[name], t.ledger.value)
            && u.ledger.Some? && Has(u.stream, name) && !PlainLaw(u.stream.value.groups[name], u.ledger.value)
  {
    var ops := [make] + [add] + [read];
    ReadOne(name, x, id, values, make, add, read, Run(name, ops));
    RunNext(name, ops, gone);
    AlwaysAccounted(name, ops);
    LosesOwn(name, Run(name, ops), Pending(id, read.consumer, 1, read.at), gone);
  }

  lemma {:induction false} ForceHolds(g: Group, id: Bytes, claim: StreamOp)
    requires g.pending == [] && g.consumers == map[]
    requires claim.Claim? && claim.force && claim.ids == [id]
    ensures var h := GroupAfter([], g, claim); id in Held(h.pending) && h.lastId == g.lastId
  {
    assert SoundGroup(g);
    ClaimHolds([], g, claim);
    assert id in Elements([id]);
  }

  lemma {:induction false} MakeAndForce(name: Bytes, x: Id, id: Bytes, make: StreamOp, claim: StreamOp, t: Tracked)
    requires x.Valid() && x.Rank() > 0 && id == FormatId(x.ms, x.sn)
    requires make == MakeGroup(name, ZeroId(), true)
    requires claim.Claim? && claim == Claim(name, claim.consumer, [id], true, claim.at)
    requires t == Run(name, [make] + [claim])
    ensures t.ledger.Some? && t.ledger.value.met == 0 && Has(t.stream, name) && t.stream.value.entries == []
    ensures var g := t.stream.value.groups[name]; id in Held(g.pending) && RankOf(g.lastId) < RankOf(id)
  {
    FormatRank(x);
    FormatRank(Id(0, 0));
    StartsIdle(name, make);
    RunOne(name, make);
    RunNext(name, [make], claim);
    ForceHolds(IdleGroup(name).groups[name], id, claim);
  }

  /** Handing out what is pending already counts as met. */
  lemma {:induction false} ReadMeets(name: Bytes, t: Tracked, e: Entry, read: StreamOp)
    requires t.ledger.Some? && Has(t.stream, name) && t.stream.value.entries == [e]
    requires read.ReadAs? && read == ReadAs(name, read.consumer, [GREATER], None, false, read.at)
    requires var g := t.stream.value.groups[name]; e.id in Held(g.pending) && RankOf(g.lastId) < EntryRank(e)
    ensures var u := Step(name, t, read);
            u.ledger.Some? && Has(u.stream, name) && u.ledger.value.met == t.ledger.value.met + 1
  {
    var g := t.stream.value.groups[name];
    HandsOutOne(e, g, read);
    assert EntryIds([e]) == [e.id];
    assert Held(g.pending) * Elements([e.id]) == {e.id};
  }

  /** The first entry changes neither the group nor its ledger. */
  lemma {:induction false} FirstEntryStep(name: Bytes, t: Tracked, x: Id, id: Bytes, values: seq<Bytes>, add: StreamOp)
    requires x.Valid() && x.Rank() > 0 && id == FormatId(x.ms, x.sn) && Has(t.stream, name) && t.stream.value.entries == []
    requires add == AddEntry(id, values, 0, false, None, None)
    ensures var u := Step(name, t, add);
            && u.ledger == t.ledger && Has(u.stream, name) && u.stream.value.entries == [Entry(id, values)]
            && u.stream.value.groups[name] == t.stream.value.groups[name]
  {
    AddsOne(t.stream.value, x, id, values, add);
  }

  /** An ID forced on the list before its entry exists, and then delivered: one delivery and one forced ID, one pending. */
  lemma {:induction false} ForcedThenMet(
      name: Bytes, x: Id, id: Bytes, values: seq<Bytes>, make: StreamOp, claim: StreamOp, add: StreamOp, read: StreamOp,
      t: Tracked)
    requires x.Valid() && x.Rank() > 0 && id == FormatId(x.ms, x.sn)
    requires make == MakeGroup(name, ZeroId(), true) && add == AddEntry(id, values, 0, false, None, None)
    requires read.ReadAs? && read == ReadAs(name, read.consumer, [GREATER], None, false, read.at)
    requires claim == Claim(name, read.consumer, [id], true, read.at)
    requires t == Run(name, [make] + [claim] + [add] + [read])
    ensures t.ledger.Some? && Has(t.stream, name)
    ensures var l := t.ledger.value;
            |t.stream.value.groups[name].pending| + l.acked + l.dropped + 1 == l.delivered + l.forced
  {
    var ops := [make] + [claim];
    MakeAndForce(name, x, id, make, claim, Run(name, ops));
    FirstEntryStep(name, Run(name, ops), x, id, values, add);
    RunNext(name, ops, add);
    ReadMeets(name, Run(name, ops + [add]), Entry(id, values), read);
    RunNext(name, ops + [add], read);
    AlwaysAccounted(name, ops + [add] + [read]);
  }
}

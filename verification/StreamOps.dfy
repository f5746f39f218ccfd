/** The stream commands as their handlers run them: what each does to a key's stream, and whether it raises the version. */
module StreamOps {
  import opened Bytes
  import opened Decimal
  import opened Sorted
  import opened StreamIds
  import opened Streams
  import opened StreamGroups
  import opened StreamClaims
  import opened StreamLists

  datatype StreamOp =
    | AddEntry(id: Bytes, values: seq<Bytes>, now: U64, noMake: bool, maxLen: Option<nat>, minId: Option<Bytes>)
    | DeleteEntries(ids: seq<Bytes>)
    | TrimToLength(n: nat)
    | TrimBelow(threshold: Bytes)
    | MakeGroup(group: Bytes, id: Bytes, make: bool)
    | RemoveGroup(group: Bytes)
    | MakeConsumer(group: Bytes, consumer: Bytes, at: int)
    | RemoveConsumer(group: Bytes, consumer: Bytes)
    | ReadAs(group: Bytes, consumer: Bytes, id: Bytes, count: Option<nat>, noack: bool, at: int)
    | Acknowledge(group: Bytes, ids: seq<Bytes>)
    | Claim(group: Bytes, consumer: Bytes, ids: seq<Bytes>, force: bool, at: int)
    | AutoClaim(group: Bytes, consumer: Bytes, minIdle: nat, start: Bytes, most: nat, at: int)

  function EmptyStream(): Stream {
    Stream([], map[], [])
  }

  predicate IsId(id: Bytes) {
    ParseId(NormalizeId(id)).Some?
  }

  predicate AllIds(ids: seq<Bytes>) {
    forall id :: id in ids ==> IsId(id)
  }

  /** A count of zero, like a negative one, is no limit. */
  function Limit(count: Option<nat>): Option<nat> {
    if count == Some(0) then None else count
  }

  function Trimmed(s: Stream, maxLen: Option<nat>, minId: Option<Bytes>): Stream {
    var t := if maxLen.Some? then TrimMaxLen(s, maxLen.value) else s;
    if minId.Some? then TrimMinId(t, NormalizeId(minId.value)) else t
  }

  function SetGroup(s: Stream, name: Bytes, g: Group): Stream {
    s.(groups := s.groups[name := g])
  }

  /** Old enough, from the start ID on, and still in the stream. */
  predicate Ready(es: seq<Entry>, minIdle: nat, start: Bytes, at: int, p: Pending) {
    && CompareIds(p.id, start) >= 0
    && (if at < p.last then 0 else at - p.last) >= minIdle
    && EntryWithId(es, p.id).Some?
  }

  function AutoClaimed(es: seq<Entry>, g: Group, op: StreamOp): Group
    requires op.AutoClaim?
  {
    var start := NormalizeId(op.start);
    AutoClaimFrom(EnsureConsumer(g, op.consumer, op.at), 0, (p: Pending) => Ready(es, op.minIdle, start, op.at, p),
                  op.consumer, op.most, op.at, 0)
  }

  /** What a command on an existing group leaves of it. */
  function GroupAfter(es: seq<Entry>, g: Group, op: StreamOp): Group {
    match op
    case MakeConsumer(_, consumer, at) => EnsureConsumer(g, consumer, at)
    case RemoveConsumer(_, consumer) => DropConsumer(g, consumer)
    case ReadAs(_, consumer, id, count, noack, at) =>
      if id == [GREATER] || id == [DOLLAR] || IsId(id) then ReadFrom(es, g, consumer, id, Limit(count), noack, at).0 else g
    case Acknowledge(_, ids) => if AllIds(ids) then AckEach(g, ids).0 else g
    case Claim(_, consumer, ids, force, at) => ClaimEach(es, EnsureConsumer(g, consumer, at), ids, consumer, force, at)
    case AutoClaim(_, _, _, start, _, _) => if IsId(start) then AutoClaimed(es, g, op) else g
    case _ => g
  }

  predicate OnGroup(op: StreamOp) {
    op.MakeConsumer? || op.RemoveConsumer? || op.ReadAs? || op.Acknowledge? || op.Claim? || op.AutoClaim?
  }

  /** The stream a command leaves under the key, and whether its handler raises the key's version. */
  function Perform(op: StreamOp, s: Option<Stream>): (Option<Stream>, bool) {
    match op
    case AddEntry(id, values, now, noMake, maxLen, minId) =>
      if s.None? && noMake then (s, false)
      else
        var base := if s.Some? then s.value else EmptyStream();
        var (t, r) := Add(base, id, values, now);
        if r.Refused? then (Some(base), false) else (Some(Trimmed(t, maxLen, minId)), true)
    case DeleteEntries(ids) => if s.None? || !AllIds(ids) then (s, false) else (Some(Del(s.value, ids).0), true)
    case TrimToLength(n) => if s.None? then (s, false) else (Some(TrimMaxLen(s.value, n)), true)
    case TrimBelow(t) => if s.None? then (s, false) else (Some(TrimMinId(s.value, NormalizeId(t))), true)
    case MakeGroup(group, id, make) =>
      if s.None? && !make then (s, false)
      else
        var base := if s.Some? then s.value else EmptyStream();
        (match CreateGroup(base, group, id)
         case None => (Some(base), false)
         case Some(t) => (Some(t), true))
    case RemoveGroup(group) =>
      if s.None? || group !in s.value.groups then (s, false)
      else (Some(s.value.(groups := s.value.groups - {group})), true)
    case _ =>
      if s.None? || op.group !in s.value.groups then (s, false)
      else
        (Some(SetGroup(s.value, op.group, GroupAfter(s.value.entries, s.value.groups[op.group], op))), op.RemoveConsumer?)
  }

  lemma {:induction false} AddPerforms(op: StreamOp, s: Option<Stream>, base: Stream)
    requires base == (if s.Some? then s.value else EmptyStream()) && op.AddEntry? && (s.Some? || !op.noMake)
    ensures var (t, r) := Add(base, op.id, op.values, op.now);
            Perform(op, s) == if r.Refused? then (Some(base), false) else (Some(Trimmed(t, op.maxLen, op.minId)), true)
  {}

  lemma {:induction false} TrimPerforms(op: StreamOp, s: Stream)
    requires op.TrimToLength? || op.TrimBelow?
    ensures Perform(op, Some(s)).0 ==
            Some(Trimmed(s, if op.TrimToLength? then Some(op.n) else None, if op.TrimBelow? then Some(op.threshold) else None))
  {}

  /** No command removes the stream itself. */
  lemma {:induction false} NeverTakesAway(op: StreamOp, s: Option<Stream>)
    ensures s.Some? ==> Perform(op, s).0.Some?
    ensures Perform(op, s).0.None? ==> !Perform(op, s).1
  {}

  // ── Changes no version shows ─────────────────────────────────────────

  /** An ID that no stream takes, not even an empty one. */
  predicate NeverAdded(id: Bytes) {
    if id == [] || id == [STAR] then false
    else if |id| >= 2 && id[|id| - 2..] == [DASH, STAR] then ParseU64(id[..|id| - 2]).None?
    else ParseId(NormalizeId(id)).None? || RankOf(NormalizeId(id)) == 0
  }

  /** Something to hand out: new entries, or pending ones of the consumer that still exist. */
  ghost predicate HasWork(es: seq<Entry>, g: Group, consumer: Bytes, id: Bytes) {
    if id == [GREATER] then exists e :: e in es && RankOf(g.lastId) < EntryRank(e)
    else exists p :: p in g.pending && p.consumer == consumer
                     && RankOf(NormalizeId(id)) <= PendingRank(p) && EntryWithId(es, p.id).Some?
  }

  /** A command that will change the group, told from the group before it. */
  ghost predicate Stirs(es: seq<Entry>, g: Group, op: StreamOp) {
    match op
    case MakeConsumer(_, consumer, _) => consumer !in g.consumers
    case ReadAs(_, consumer, id, _, _, _) =>
      (id == [GREATER] || id == [DOLLAR] || IsId(id)) && (consumer !in g.consumers || HasWork(es, g, consumer, id))
    case Acknowledge(_, ids) => AllIds(ids) && exists id :: id in ids && IsPending(g.pending, id)
    case Claim(_, consumer, ids, force, _) =>
      consumer !in g.consumers || ClaimHits(g.pending, ids, force)
    case AutoClaim(_, consumer, minIdle, start, _, at) =>
      IsId(start) && (consumer !in g.consumers || exists p :: p in g.pending && Ready(es, minIdle, NormalizeId(start), at, p))
    case _ => false
  }

  /** The commands that change a key behind its version: a refused add to a free key, and changes inside a group. */
  ghost predicate Silent(op: StreamOp, s: Option<Stream>) {
    match op
    case AddEntry(id, _, _, noMake, _, _) => s.None? && !noMake && NeverAdded(id)
    case _ => OnGroup(op) && s.Some? && op.group in s.value.groups && Stirs(s.value.entries, s.value.groups[op.group], op)
  }

  lemma {:induction false} NeverAddedExactly(id: Bytes, values: seq<Bytes>, now: U64)
    ensures Add(EmptyStream(), id, values, now).1.Refused? <==> NeverAdded(id)
  {
    var s := EmptyStream();
    assert ParseId([]).None?;
    assert ValidStream(s);
    if !(id == [] || id == [STAR]) && !(|id| >= 2 && id[|id| - 2..] == [DASH, STAR]) {
      AddExplicitExactly(s, NormalizeId(id), values);
    }
  }

  /** `0-0` is such an ID. */
  lemma {:induction false} ZeroNeverAdded(zero: Id)
    requires zero == Id(0, 0)
    ensures NeverAdded(FormatId(zero.ms, zero.sn))
  {
    var id := FormatId(zero.ms, zero.sn);
    FormatRank(zero);
    assert |id| >= 3 && id[|id| - 1] != STAR && DASH in id by {
      assert id[|id| - 1] == Digits(zero.sn)[|Digits(zero.sn)| - 1];
      assert id[|Digits(zero.ms)|] == DASH;
    }
    assert |id| >= 2 ==> id[|id| - 2..][1] != STAR;
  }

  lemma {:induction false} StirsExactly(es: seq<Entry>, g: Group, op: StreamOp)
    requires OnGroup(op) && !op.RemoveConsumer?
    ensures GroupAfter(es, g, op) != g <==> Stirs(es, g, op)
  {
    match op
    case MakeConsumer(_, _, _) =>
    case ReadAs(_, consumer, id, count, noack, at) =>
      if id == [GREATER] {
        ReadNewChangesExactly(es, g, consumer, Limit(count), noack, at);
      } else {
        RereadChangesExactly(es, g, consumer, id, Limit(count), noack, at);
      }
    case Acknowledge(_, ids) => AckChangesExactly(g, ids);
    case Claim(_, consumer, ids, force, at) => ClaimChangesExactly(es, g, ids, consumer, force, at);
    case AutoClaim(_, consumer, minIdle, start, most, at) =>
      var from := NormalizeId(start);
      AutoClaimChangesExactly(g, (p: Pending) => Ready(es, minIdle, from, at, p), consumer, most, at);
  }

  lemma {:induction false} SetGroupChanges(s: Stream, name: Bytes, g: Group)
    requires name in s.groups
    ensures SetGroup(s, name, g) != s <==> g != s.groups[name]
  {
    assert s.groups[name := s.groups[name]] == s.groups;
    assert SetGroup(s, name, g).groups[name] == g;
  }

  /** A command changes the stream without raising the version exactly when it is one of the silent ones. */
  lemma {:induction false} SilentExactly(op: StreamOp, s: Option<Stream>)
    ensures Perform(op, s).0 != s && !Perform(op, s).1 <==> Silent(op, s)
  {
    if op.AddEntry? {
      if s.None? {
        NeverAddedExactly(op.id, op.values, op.now);
      }
    } else if OnGroup(op) && s.Some? && op.group in s.value.groups {
      var g := s.value.groups[op.group];
      SetGroupChanges(s.value, op.group, GroupAfter(s.value.entries, g, op));
      if !op.RemoveConsumer? {
        StirsExactly(s.value.entries, g, op);
      }
    }
  }

  // ── What the commands keep ───────────────────────────────────────────

  /** Entries in order, and every group's pending list in order, within its cursor and exactly counted. */
  ghost predicate WholeStream(s: Stream) {
    ValidStream(s) && forall n :: n in s.groups ==> ValidGroup(s.groups[n])
  }

  lemma {:induction false} TrimmedKeeps(s: Stream, maxLen: Option<nat>, minId: Option<Bytes>)
    requires ValidStream(s)
    ensures ValidStream(Trimmed(s, maxLen, minId)) && Trimmed(s, maxLen, minId).groups == s.groups
  {
    var t := if maxLen.Some? then TrimMaxLen(s, maxLen.value) else s;
    if maxLen.Some? {
      TrimMaxLenKeeps(s, maxLen.value);
    }
    if minId.Some? {
      KeepKeeps(t, (e: Entry) => CompareIds(e.id, NormalizeId(minId.value)) >= 0);
    }
  }

  /** A forced claim finds room: the list it leaves is in order under the cursor. */
  ghost predicate ForceFits(g: Group, op: StreamOp) {
    op.Claim? && op.force ==> InOrder(Extended(Ids(g.pending), op.ids), g.lastId)
  }

  lemma {:induction false} ClaimKeepsExactly(es: seq<Entry>, g: Group, op: StreamOp)
    requires ValidGroup(g) && op.Claim?
    ensures ValidGroup(GroupAfter(es, g, op)) <==> ForceFits(g, op)
  {
    var e := EnsureConsumer(g, op.consumer, op.at);
    EnsureConsumerKeeps(g, op.consumer, op.at);
    if op.force {
      ForceKeepsExactly(es, e, op.ids, op.consumer, op.at);
    } else {
      ClaimKeeps(es, e, op.ids, op.consumer, op.at);
    }
  }

  /** A command on a group keeps it valid exactly when it is no forced claim without room. */
  lemma {:induction false} GroupAfterKeepsExactly(es: seq<Entry>, g: Group, op: StreamOp)
    requires Increasing(es, EntryRank) && ValidGroup(g)
    ensures ValidGroup(GroupAfter(es, g, op)) <==> ForceFits(g, op)
  {
    match op
    case MakeConsumer(_, consumer, at) => EnsureConsumerKeeps(g, consumer, at);
    case RemoveConsumer(_, consumer) => DropConsumerKeeps(g, consumer);
    case ReadAs(_, consumer, id, count, noack, at) =>
      var (h, read) := ReadFrom(es, g, consumer, id, Limit(count), noack, at);
      ReadFromKeeps(es, g, consumer, id, Limit(count), noack, at, h, read);
    case Acknowledge(_, ids) => AckEachKeeps(g, ids);
    case Claim(_, _, _, _, _) => ClaimKeepsExactly(es, g, op);
    case AutoClaim(_, consumer, minIdle, start, most, at) =>
      var from := NormalizeId(start);
      EnsureConsumerKeeps(g, consumer, at);
      AutoClaimKeeps(EnsureConsumer(g, consumer, at), 0, (p: Pending) => Ready(es, minIdle, from, at, p), consumer, most, at, 0);
    case _ =>
  }

  lemma {:induction false} EmptyWhole()
    ensures WholeStream(EmptyStream())
  {}

  lemma {:induction false} SameGroupsWhole(s: Stream, t: Stream)
    requires WholeStream(s) && ValidStream(t) && t.groups == s.groups
    ensures WholeStream(t)
  {}

  lemma {:induction false} SetGroupWhole(s: Stream, name: Bytes, g: Group)
    requires WholeStream(s)
    ensures WholeStream(SetGroup(s, name, g)) <==> ValidGroup(g)
  {
    assert SetGroup(s, name, g).groups[name] == g;
  }

  lemma {:induction false} AddWhole(s: Stream, id: Bytes, values: seq<Bytes>, now: U64, maxLen: Option<nat>, minId: Option<Bytes>)
    requires WholeStream(s)
    ensures WholeStream(Trimmed(Add(s, id, values, now).0, maxLen, minId))
  {
    var t := Add(s, id, values, now).0;
    AddKeeps(s, id, values, now);
    TrimmedKeeps(t, maxLen, minId);
    SameGroupsWhole(s, Trimmed(t, maxLen, minId));
  }

  lemma {:induction false} MakeGroupWhole(s: Stream, group: Bytes, id: Bytes)
    requires WholeStream(s)
    ensures CreateGroup(s, group, id).Some? ==> WholeStream(CreateGroup(s, group, id).value)
  {
    var made := CreateGroup(s, group, id);
    if made.Some? {
      SetGroupWhole(s, group, made.value.groups[group]);
    }
  }

  lemma {:induction false} RemovalsWhole(op: StreamOp, s: Stream)
    requires WholeStream(s) && (op.DeleteEntries? || op.TrimToLength? || op.TrimBelow?)
    ensures WholeStream(Perform(op, Some(s)).0.value)
  {
    var t := Perform(op, Some(s)).0.value;
    match op
    case DeleteEntries(ids) => DelKeeps(s, ids);
    case TrimToLength(n) => TrimMaxLenKeeps(s, n);
    case TrimBelow(threshold) =>
      var from := NormalizeId(threshold);
      KeepKeeps(s, (e: Entry) => CompareIds(e.id, from) >= 0);
    SameGroupsWhole(s, t);
  }

  lemma {:induction false} GroupWhole(op: StreamOp, s: Stream)
    requires WholeStream(s) && OnGroup(op) && op.group in s.groups
    ensures WholeStream(Perform(op, Some(s)).0.value) <==> ForceFits(s.groups[op.group], op)
  {
    var g := s.groups[op.group];
    GroupAfterKeepsExactly(s.entries, g, op);
    SetGroupWhole(s, op.group, GroupAfter(s.entries, g, op));
  }

  /** The condition on a command: a forced claim on a group that is there must find room. */
  ghost predicate OpFits(op: StreamOp, s: Option<Stream>) {
    OnGroup(op) && s.Some? && op.group in s.value.groups ==> ForceFits(s.value.groups[op.group], op)
  }

  /** A stream command keeps the stream and all its groups in order exactly under that condition. */
  lemma {:induction false} PerformKeepsExactly(op: StreamOp, s: Option<Stream>)
    requires s.Some? ==> WholeStream(s.value)
    ensures (Perform(op, s).0.Some? ==> WholeStream(Perform(op, s).0.value)) <==> OpFits(op, s)
  {
    EmptyWhole();
    var base := if s.Some? then s.value else EmptyStream();
    match op
    case AddEntry(id, values, now, _, maxLen, minId) => AddWhole(base, id, values, now, maxLen, minId);
    case MakeGroup(group, id, _) => MakeGroupWhole(base, group, id);
    case RemoveGroup(_) =>
    case DeleteEntries(_) => RemovalsWhole(op, base);
    case TrimToLength(_) => RemovalsWhole(op, base);
    case TrimBelow(_) => RemovalsWhole(op, base);
    case _ =>
      if op.group in base.groups {
        GroupWhole(op, base);
      }
  }

  function RunAll(ops: seq<StreamOp>): Option<Stream> {
    if ops == [] then None else Perform(ops[|ops| - 1], RunAll(ops[..|ops| - 1])).0
  }

  /** Every forced claim of the run finds room when its turn comes. */
  ghost predicate EachFits(ops: seq<StreamOp>) {
    ops == [] || (EachFits(ops[..|ops| - 1]) && OpFits(ops[|ops| - 1], RunAll(ops[..|ops| - 1])))
  }

  lemma {:induction false} AlwaysWhole(ops: seq<StreamOp>)
    requires EachFits(ops)
    ensures RunAll(ops).Some? ==> WholeStream(RunAll(ops).value)
  {
    if ops != [] {
      AlwaysWhole(ops[..|ops| - 1]);
      PerformKeepsExactly(ops[|ops| - 1], RunAll(ops[..|ops| - 1]));
    }
  }

  /** A stream with one group that starts at `0-0` and has nothing pending. */
  function IdleGroup(group: Bytes): Stream {
    EmptyStream().(groups := map[group := Group(ZeroId(), [], map[], true)])
  }

  lemma {:induction false} NoRoomPastCursor(g: Group, id: Bytes)
    requires RankOf(g.lastId) < RankOf(id)
    ensures !InOrder(Extended(Ids(g.pending), [id]), g.lastId)
  {
    var held := Ids(g.pending);
    assert [id][..0] == [] && Extended(held, [id]) == Extend(held, id);
    assert id in Extend(held, id);
  }

  /** A forced claim of an ID past the cursor leaves that group out of order. */
  lemma {:induction false} ForcePastCursor(group: Bytes, consumer: Bytes, x: Id, at: int, op: StreamOp)
    requires x.Valid() && x.Rank() > 0 && op == Claim(group, consumer, [FormatId(x.ms, x.sn)], true, at)
    ensures WholeStream(IdleGroup(group)) && !WholeStream(Perform(op, Some(IdleGroup(group))).0.value)
  {
    var s := IdleGroup(group);
    FormatRank(x);
    FormatRank(Id(0, 0));
    NoRoomPastCursor(s.groups[group], FormatId(x.ms, x.sn));
    GroupWhole(op, s);
  }

  // ── What the list holds ──────────────────────────────────────────────

  /** The IDs on a group's list after a command, told from the group before it. */
  ghost function HeldAfter(es: seq<Entry>, g: Group, op: StreamOp): set<Bytes> {
    match op
    case RemoveConsumer(_, consumer) => Held(g.pending) - OwnedBy(g.pending, consumer)
    case ReadAs(_, _, id, count, noack, _) =>
      if id == [GREATER] && !noack then Held(g.pending) + Elements(EntryIds(Undelivered(es, g.lastId, Limit(count))))
      else Held(g.pending)
    case Acknowledge(_, ids) => if AllIds(ids) then Held(g.pending) - Elements(ids) else Held(g.pending)
    case Claim(_, _, ids, force, _) =>
      if force then Held(g.pending) + Elements(ids) else Held(g.pending) - Gone(es, ids)
    case _ => Held(g.pending)
  }

  /** Where the cursor stands after a command. */
  function CursorAfter(es: seq<Entry>, g: Group, op: StreamOp): Bytes {
    if op.ReadAs? && op.id == [GREATER] && Undelivered(es, g.lastId, Limit(op.count)) != [] then
      var read := Undelivered(es, g.lastId, Limit(op.count));
      read[|read| - 1].id
    else g.lastId
  }

  lemma {:induction false} ReadHolds(es: seq<Entry>, g: Group, op: StreamOp)
    requires SoundGroup(g) && op.ReadAs?
    ensures var h := GroupAfter(es, g, op);
            SoundGroup(h) && Held(h.pending) == HeldAfter(es, g, op) && h.lastId == CursorAfter(es, g, op)
  {
    var (h, read) := ReadFrom(es, g, op.consumer, op.id, Limit(op.count), op.noack, op.at);
    ReadExtends(es, g, op.consumer, op.id, Limit(op.count), op.noack, op.at, h, read);
    ReadHeld(es, g, op.consumer, op.id, Limit(op.count), op.noack, op.at, h, read);
  }

  lemma {:induction false} ClaimHolds(es: seq<Entry>, g: Group, op: StreamOp)
    requires SoundGroup(g) && op.Claim?
    ensures var h := GroupAfter(es, g, op);
            SoundGroup(h) && Held(h.pending) == HeldAfter(es, g, op) && h.lastId == g.lastId
  {
    var e := EnsureConsumer(g, op.consumer, op.at);
    EnsureSound(g, op.consumer, op.at);
    if op.force {
      ForceExtends(es, e, op.ids, op.consumer, op.at);
      ExtendedHolds(Ids(g.pending), op.ids);
    } else {
      ClaimSound(es, e, op.ids, op.consumer, op.at);
    }
  }

  /** Every command on every sound group leaves a sound one, with exactly those IDs on its list. */
  lemma {:induction false} GroupAfterHolds(es: seq<Entry>, g: Group, op: StreamOp)
    requires SoundGroup(g)
    ensures var h := GroupAfter(es, g, op);
            SoundGroup(h) && Held(h.pending) == HeldAfter(es, g, op) && h.lastId == CursorAfter(es, g, op)
  {
    match op
    case MakeConsumer(_, consumer, at) => EnsureSound(g, consumer, at);
    case RemoveConsumer(_, consumer) => DropConsumerSound(g, consumer);
    case ReadAs(_, _, _, _, _, _) => ReadHolds(es, g, op);
    case Acknowledge(_, ids) => AckEachSound(g, ids);
    case Claim(_, _, _, _, _) => ClaimHolds(es, g, op);
    case AutoClaim(_, _, _, _, _, _) => AutoClaimHolds(es, g, op);
    case _ =>
  }

  lemma {:induction false} AutoClaimHolds(es: seq<Entry>, g: Group, op: StreamOp)
    requires SoundGroup(g) && op.AutoClaim?
    ensures var h := GroupAfter(es, g, op); SoundGroup(h) && Ids(h.pending) == Ids(g.pending) && h.lastId == g.lastId
  {
    var from := NormalizeId(op.start);
    EnsureSound(g, op.consumer, op.at);
    AutoClaimSound(EnsureConsumer(g, op.consumer, op.at), 0, (p: Pending) => Ready(es, op.minIdle, from, op.at, p),
                   op.consumer, op.most, op.at, 0);
  }
}

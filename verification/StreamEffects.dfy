/** What a stream command leaves to be read: which entries, which groups, and where a new group begins. */
module StreamEffects {
  import opened Bytes
  import opened Decimal
  import opened Sorted
  import opened StreamIds
  import opened Streams
  import opened StreamGroups
  import opened StreamOps
  import opened StreamRuns

  // ── Groups ───────────────────────────────────────────────────────────

  function Names(s: Option<Stream>): set<Bytes> {
    if s.None? then {} else s.value.groups.Keys
  }

  /** The names of the groups after a command. */
  function NamesAfter(op: StreamOp, s: Option<Stream>): set<Bytes> {
    match op
    case MakeGroup(group, _, make) => if s.Some? || make then Names(s) + {group} else Names(s)
    case RemoveGroup(group) => Names(s) - {group}
    case _ => Names(s)
  }

  /** Groups come and go by name, and only those named. */
  lemma {:induction false} GroupsAfter(op: StreamOp, s: Option<Stream>)
    requires s.Some? ==> ValidStream(s.value)
    ensures Names(Perform(op, s).0) == NamesAfter(op, s)
  {
    EmptyWhole();
    var base := if s.Some? then s.value else EmptyStream();
    if OnEntries(op) { EntriesPerform(op, s, base); }
  }

  lemma {:induction false} MakePerforms(op: StreamOp, s: Option<Stream>, base: Stream, start: Bytes)
    requires base == (if s.Some? then s.value else EmptyStream()) && op.MakeGroup? && (s.Some? || op.make)
    requires op.group !in base.groups && start == StartOf(base, op.id)
    ensures Perform(op, s).0 == Some(SetGroup(base, op.group, Group(start, [], map[], start == [48, 45, 48])))
  {
    assert Digits(0) == [48] && ZeroId() == [48, 45, 48];
  }

  /**
   * A group that a command makes has nobody and nothing pending, and begins at the text given, or for `$` behind every
   * entry there is; it knows what it has read only from `0-0` on.
   */
  lemma {:induction false} MakeGroupStarts(op: StreamOp, s: Option<Stream>, base: Stream)
    requires ValidStream(base) && base == (if s.Some? then s.value else EmptyStream())
    requires op.MakeGroup? && (s.Some? || op.make) && op.group !in base.groups
    ensures var t := Perform(op, s).0;
            && Has(t, op.group) && t.value.entries == base.entries
            && (var g := t.value.groups[op.group];
                && g.pending == [] && g.consumers == map[] && (g.readKnown <==> g.lastId == [48, 45, 48])
                && (op.id != [DOLLAR] ==> RankOf(g.lastId) == RankOf(op.id))
                && (op.id == [DOLLAR] ==> BehindAll(base.entries, RankOf(g.lastId))))
  {
    StartMeans(base, op.id);
    MakePerforms(op, s, base, StartOf(base, op.id));
  }

  // ── Entries ──────────────────────────────────────────────────────────

  /** Entry `i` of a stream outlasts the trims of an XADD. */
  predicate Outlasts(es: seq<Entry>, i: nat, maxLen: Option<nat>, minId: Option<Bytes>)
    requires i < |es|
  {
    && (maxLen.Some? ==> |es| - i <= maxLen.value)
    && (minId.Some? ==> RankOf(minId.value) <= EntryRank(es[i]))
  }

  /** `left` are the newest entries of `es`, exactly those that outlast the trims, in order. */
  ghost predicate Leaves(es: seq<Entry>, left: seq<Entry>, maxLen: Option<nat>, minId: Option<Bytes>) {
    && |left| <= |es| && left == es[|es| - |left|..]
    && forall i :: 0 <= i < |es| ==> (|es| - |left| <= i <==> Outlasts(es, i, maxLen, minId))
  }

  lemma {:induction false} SuffixLeaves(es: seq<Entry>, left: seq<Entry>, minId: Bytes, k: nat)
    requires k == |es| - |left| && |left| <= |es| && left == es[k..]
    requires forall i :: 0 <= i < |es| ==> (k <= i <==> RankOf(minId) <= EntryRank(es[i]))
    ensures Leaves(es, left, None, Some(minId))
  {}

  lemma {:induction false} FromIs(minId: Bytes, from: Bytes, e: Entry)
    requires from == NormalizeId(minId)
    ensures CompareIds(e.id, from) >= 0 <==> RankOf(minId) <= EntryRank(e)
  {
    ParseOfNormalize(minId);
    CompareIsRank(e.id, from);
  }

  lemma {:induction false} MinIdLeaves(u: Stream, minId: Bytes)
    requires Increasing(u.entries, EntryRank)
    ensures Leaves(u.entries, TrimMinId(u, NormalizeId(minId)).entries, None, Some(minId))
  {
    var es, from := u.entries, NormalizeId(minId);
    var p := (e: Entry) => CompareIds(e.id, from) >= 0;
    forall e ensures p(e) <==> RankOf(minId) <= EntryRank(e) { FromIs(minId, from, e); }
    var k := |es| - |Keep(es, p)|;
    KeepFromExactly(es, p, EntryRank, RankOf(minId), k);
    SuffixLeaves(es, Keep(es, p), minId, k);
  }

  lemma {:induction false} LeavesInOrder(es: seq<Entry>, left: seq<Entry>, maxLen: Option<nat>, minId: Option<Bytes>)
    requires Leaves(es, left, maxLen, minId) && Increasing(es, EntryRank)
    ensures Increasing(left, EntryRank)
  {
    IncreasingSlice(es, |es| - |left|, |es|, EntryRank);
  }

  lemma {:induction false} LengthLeaves(es: seq<Entry>, maxLen: Option<nat>, left: seq<Entry>)
    requires left == if maxLen.Some? && maxLen.value < |es| then es[|es| - maxLen.value..] else es
    ensures Leaves(es, left, maxLen, None)
  {
    assert es[0..] == es;
  }

  lemma {:induction false} BothLeave(es: seq<Entry>, mid: seq<Entry>, left: seq<Entry>, maxLen: Option<nat>, minId: Option<Bytes>)
    requires Leaves(es, mid, maxLen, None) && Leaves(mid, left, None, minId)
    ensures Leaves(es, left, maxLen, minId)
  {
    var k, m := |es| - |mid|, |mid| - |left|;
    assert mid[m..] == es[k + m..];
    forall i | 0 <= i < |es| ensures k + m <= i <==> Outlasts(es, i, maxLen, minId) {
      assert Outlasts(es, i, maxLen, None) <==> k <= i;
      if k <= i {
        assert mid[i - k] == es[i] && (Outlasts(mid, i - k, None, minId) <==> m <= i - k);
      }
    }
  }

  /** The trims of XADD, and those of XTRIM, leave exactly the entries that outlast them. */
  lemma {:induction false} TrimmedLeaves(s: Stream, maxLen: Option<nat>, minId: Option<Bytes>, left: seq<Entry>)
    requires Increasing(s.entries, EntryRank) && left == Trimmed(s, maxLen, minId).entries
    ensures Leaves(s.entries, left, maxLen, minId)
  {
    var u := if maxLen.Some? then TrimMaxLen(s, maxLen.value) else s;
    LengthLeaves(s.entries, maxLen, u.entries);
    if minId.Some? {
      LeavesInOrder(s.entries, u.entries, maxLen, None);
      MinIdLeaves(u, minId.value);
      BothLeave(s.entries, u.entries, left, maxLen, minId);
    }
  }

  /**
   * XADD: not done where NOMKSTREAM finds no stream; refused, with the stream left alone; or its entry is the newest and
   * the trims leave what outlasts them.
   */
  lemma {:induction false} AddLeaves(op: StreamOp, s: Option<Stream>, base: Stream, r: AddResult)
    requires ValidStream(base) && base == (if s.Some? then s.value else EmptyStream())
    requires op.AddEntry? && r == Add(base, op.id, op.values, op.now).1
    ensures s.None? && op.noMake ==> Perform(op, s).0.None?
    ensures s.Some? || !op.noMake ==> Perform(op, s).0.Some? && (r.Refused? ==> Perform(op, s).0.value == base)
    ensures (s.Some? || !op.noMake) && r.Added? ==>
              Leaves(base.entries + [Entry(r.id, op.values)], Perform(op, s).0.value.entries, op.maxLen, op.minId)
  {
    if s.Some? || !op.noMake { AddPerforms(op, s, base); }
    if (s.Some? || !op.noMake) && r.Added? {
      AddKeeps(base, op.id, op.values, op.now);
      TrimmedLeaves(Add(base, op.id, op.values, op.now).0, op.maxLen, op.minId, Perform(op, s).0.value.entries);
    }
  }

  /** XDEL: exactly the entries that are not named are left, in order; one ID that cannot be read stops it. */
  lemma {:induction false} DeleteLeaves(ids: seq<Bytes>, s: Stream)
    requires ValidStream(s)
    ensures var t := Perform(DeleteEntries(ids), Some(s)).0.value;
            Increasing(t.entries, EntryRank) && forall e :: e in t.entries <==> e in s.entries && !(AllIds(ids) && e.id in ids)
  {
    DelKeeps(s, ids);
  }

  /** XTRIM: the newest `n` entries, or the entries from an ID on. */
  lemma {:induction false} TrimLeaves(op: StreamOp, s: Stream, t: Option<Stream>)
    requires ValidStream(s) && (op.TrimToLength? || op.TrimBelow?) && t == Perform(op, Some(s)).0
    ensures t.Some? && t.value == s.(entries := t.value.entries)
    ensures Leaves(s.entries, t.value.entries,
                   if op.TrimToLength? then Some(op.n) else None, if op.TrimBelow? then Some(op.threshold) else None)
  {
    TrimPerforms(op, s);
    TrimmedLeaves(s, if op.TrimToLength? then Some(op.n) else None, if op.TrimBelow? then Some(op.threshold) else None,
                  t.value.entries);
  }

  /** The version rises exactly with an accepted add, a delete or trim of a stream, a group made or removed, a consumer removed. */
  lemma {:induction false} RaisesExactly(op: StreamOp, s: Option<Stream>)
    ensures Perform(op, s).1 <==>
            match op
            case AddEntry(id, values, now, noMake, _, _) =>
              if s.None? then !noMake && !NeverAdded(id) else Add(s.value, id, values, now).1.Added?
            case DeleteEntries(ids) => s.Some? && AllIds(ids)
            case TrimToLength(_) => s.Some?
            case TrimBelow(_) => s.Some?
            case MakeGroup(group, _, make) => (s.Some? || make) && group !in Names(s)
            case RemoveGroup(group) => group in Names(s)
            case RemoveConsumer(group, _) => group in Names(s)
            case _ => false
  {
    if op.AddEntry? { NeverAddedExactly(op.id, op.values, op.now); }
  }

  // ── Where a group begins ─────────────────────────────────────────────

  predicate Removed(name: Bytes, ops: seq<StreamOp>) {
    RemoveGroup(name) in ops
  }

  lemma {:induction false} FollowedNext(name: Bytes, t: Tracked, op: StreamOp)
    requires Inv(name, t) && Has(t.stream, name) && op != RemoveGroup(name)
    ensures var u := Step(name, t, op); Has(u.stream, name) && u.ledger.Some? && u.ledger.value.start == t.ledger.value.start
  {
    GroupsAfter(op, t.stream);
    assert name in Names(t.stream) && name in NamesAfter(op, t.stream);
  }

  /** The group is followed, from this start. */
  ghost predicate FollowedFrom(name: Bytes, t: Tracked, start: nat) {
    Has(t.stream, name) && t.ledger.Some? && t.ledger.value.start == start
  }

  lemma {:induction false} FollowedStep(name: Bytes, before: seq<StreamOp>, op: StreamOp, start: nat)
    requires FollowedFrom(name, Run(name, before), start) && op != RemoveGroup(name)
    ensures FollowedFrom(name, Run(name, before + [op]), start)
  {
    AlwaysAccounted(name, before);
    RunNext(name, before, op);
    FollowedNext(name, Run(name, before), op);
  }

  /** What each command other than the removal keeps, a run without it keeps. */
  lemma {:induction false} RunKeeps(kept: seq<StreamOp> -> bool, name: Bytes, ops: seq<StreamOp>, more: seq<StreamOp>)
    requires kept(ops) && !Removed(name, more)
    requires forall before: seq<StreamOp>, op :: kept(before) && op != RemoveGroup(name) ==> kept(before + [op])
    ensures kept(ops + more)
    decreases |more|
  {
    if more == [] {
      assert ops + more == ops;
    } else {
      var front, op := more[..|more| - 1], more[|more| - 1];
      RunKeeps(kept, name, ops, front);
      assert ops + more == ops + front + [op];
    }
  }

  lemma {:induction false} StaysFollowed(name: Bytes, ops: seq<StreamOp>, more: seq<StreamOp>, start: nat)
    requires FollowedFrom(name, Run(name, ops), start) && !Removed(name, more)
    ensures FollowedFrom(name, Run(name, ops + more), start)
  {
    var kept := (os: seq<StreamOp>) => FollowedFrom(name, Run(name, os), start);
    forall before: seq<StreamOp>, op | kept(before) && op != RemoveGroup(name) ensures kept(before + [op]) {
      FollowedStep(name, before, op, start);
    }
    RunKeeps(kept, name, ops, more);
  }

  /**
   * A group made with `$` is never handed an entry that was there when it was made, and one made with an ID is never
   * handed an entry up to that ID; whatever commands run, as long as the group is not removed.
   */
  lemma {:induction false} HandsOutPastStart(name: Bytes, ops: seq<StreamOp>, make: StreamOp, more: seq<StreamOp>, t: Tracked)
    requires make.MakeGroup? && make.group == name && !Has(RunAll(ops), name) && (RunAll(ops).Some? || make.make)
    requires !Removed(name, more) && t == Run(name, ops + [make] + more)
    ensures t.ledger.Some?
    ensures forall e :: e in t.ledger.value.handed ==>
              && (make.id != [DOLLAR] ==> RankOf(make.id) < EntryRank(e))
              && (make.id == [DOLLAR] && RunAll(ops).Some? ==>
                    forall d :: d in RunAll(ops).value.entries ==> EntryRank(d) < EntryRank(e))
  {
    var before := Run(name, ops);
    RunIsRunAll(name, ops);
    AlwaysAccounted(name, ops);
    EmptyWhole();
    RunNext(name, ops, make);
    MakeGroupStarts(make, before.stream, if before.stream.Some? then before.stream.value else EmptyStream());
    AlwaysAccounted(name, ops + [make]);
    StaysFollowed(name, ops + [make], more, Run(name, ops + [make]).ledger.value.start);
    AlwaysAccounted(name, ops + [make] + more);
  }
}

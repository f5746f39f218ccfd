/** What a client reads back: the value each operation leaves under a key, and how long it stays. */
module CellValues {
  import opened Bytes
  import opened Cells
  import StreamOps

  function HashOf(c: Cell): Fields {
    OrElse(c.hash, map[])
  }

  function ListOf(c: Cell): seq<Bytes> {
    OrElse(c.list, [])
  }

  function MembersOf(c: Cell): set<Bytes> {
    OrElse(c.members, {})
  }

  function ScoreOf(c: Cell, m: Bytes): Option<real> {
    var all := OrElse(c.scores, map[]);
    if m in all then Some(all[m]) else None
  }

  // ── Pairs, and values pushed at the front ────────────────────────────

  /** No later pair names the field. */
  predicate LastFor(pairs: seq<(Bytes, Bytes)>, i: nat)
    requires i < |pairs|
  {
    forall j :: i < j < |pairs| ==> pairs[j].0 != pairs[i].0
  }

  predicate NamedBy(pairs: seq<(Bytes, Bytes)>, f: Bytes) {
    exists i :: 0 <= i < |pairs| && pairs[i].0 == f
  }

  /** Every named field has the value of the last pair that names it; every other field is as it was. */
  ghost predicate HoldsPairs(before: Fields, pairs: seq<(Bytes, Bytes)>, after: Fields) {
    && (forall i :: 0 <= i < |pairs| && LastFor(pairs, i) ==> pairs[i].0 in after && after[pairs[i].0] == pairs[i].1)
    && (forall f :: !NamedBy(pairs, f) ==> (f in after <==> f in before) && (f in before ==> after[f] == before[f]))
  }

  lemma {:induction false} PutAllHolds(h: Fields, pairs: seq<(Bytes, Bytes)>)
    ensures HoldsPairs(h, pairs, PutAll(h, pairs))
  {
    if pairs != [] {
      var n := |pairs| - 1;
      var front, f, v := pairs[..n], pairs[n].0, pairs[n].1;
      PutAllHolds(h, front);
      var before, after := PutAll(h, front), PutAll(h, pairs);
      forall i | 0 <= i < |pairs| && LastFor(pairs, i) ensures pairs[i].0 in after && after[pairs[i].0] == pairs[i].1 {
        if i < n {
          assert front[i] == pairs[i] && LastFor(front, i);
          assert pairs[n].0 != pairs[i].0;
        }
      }
      forall g | !NamedBy(pairs, g) ensures (g in after <==> g in h) && (g in h ==> after[g] == h[g]) {
        assert pairs[n].0 != g;
        assert !NamedBy(front, g);
      }
    }
  }

  lemma {:induction false} ReversedAt(s: seq<Bytes>, i: nat)
    requires i < |s|
    ensures |Reversed(s)| == |s| && Reversed(s)[i] == s[|s| - 1 - i]
  {
    ReversedLength(s);
    if i > 0 { ReversedAt(s[..|s| - 1], i - 1); }
  }

  /** The last value pushed comes first, and the list that was there comes after them all. */
  ghost predicate PushedInFront(before: seq<Bytes>, values: seq<Bytes>, after: seq<Bytes>) {
    && |after| == |values| + |before| && after[|values|..] == before
    && forall i :: 0 <= i < |values| ==> after[i] == values[|values| - 1 - i]
  }

  lemma {:induction false} ReversedInFront(before: seq<Bytes>, values: seq<Bytes>)
    ensures PushedInFront(before, values, Reversed(values) + before)
  {
    ReversedLength(values);
    forall i | 0 <= i < |values| ensures Reversed(values)[i] == values[|values| - 1 - i] { ReversedAt(values, i); }
  }

  // ── What each operation leaves ───────────────────────────────────────

  ghost predicate WriteLeaves(op: CellOp, c: Cell, d: Cell)
    requires Writes(op)
  {
    match op
    case PutFields(pairs) => d.tag == Some(HashKind) && HoldsPairs(HashOf(c), pairs, HashOf(d))
    case PushFront(values) => d.tag == Some(ListKind) && PushedInFront(ListOf(c), values, ListOf(d))
    case PushBack(values) =>
      && d.tag == Some(ListKind) && |ListOf(d)| == |ListOf(c)| + |values|
      && ListOf(d)[..|ListOf(c)|] == ListOf(c) && ListOf(d)[|ListOf(c)|..] == values
    case AddMembers(ms) => d.tag == Some(SetKind) && forall m :: m in MembersOf(d) <==> m in MembersOf(c) || m in ms
    case PutScore(m, score) =>
      d.tag == Some(SortedSetKind) && forall k :: ScoreOf(d, k) == if k == m then Some(score) else ScoreOf(c, k)
    case AddScore(m, delta) =>
      && d.tag == Some(SortedSetKind)
      && (forall k :: ScoreOf(d, k) == if k == m then Some(OrElse(ScoreOf(c, m), 0.0) + delta) else ScoreOf(c, k))
    case GrowSketch(grown) => d.tag == Some(SketchKind) && d.sketch == Some(grown)
  }

  /** A writer leaves its values where a reader finds them, keeps the key's time-to-lives, and makes one new version. */
  lemma {:induction false} WriteReads(op: CellOp, c: Cell, d: Cell)
    requires Coherent(c) && Writes(op) && Fits(op, c) && d == Apply(op, c)
    ensures WriteLeaves(op, c, d) && d.ttl == c.ttl && d.fieldTtl == c.fieldTtl && d.version == c.version + 1
  {
    match op
    case PutFields(pairs) => PutAllHolds(HashOf(c), pairs);
    case PushFront(values) => ReversedInFront(ListOf(c), values);
    case _ =>
  }

  ghost predicate RemoveLeaves(op: CellOp, c: Cell, d: Cell)
    requires Removes(op)
  {
    match op
    case RemoveFields(fields) =>
      && (forall f :: f in HashOf(d) <==> f in HashOf(c) && f !in fields)
      && (forall f :: f in HashOf(d) ==> HashOf(d)[f] == HashOf(c)[f])
    case PopFront => if ListOf(c) == [] then d == c else [ListOf(c)[0]] + ListOf(d) == ListOf(c)
    case PopBack => if ListOf(c) == [] then d == c else ListOf(d) + [ListOf(c)[|ListOf(c)| - 1]] == ListOf(c)
    case RewriteList(after) => ListOf(d) == if c.list.None? then [] else after
    case RemoveMembers(ms) => forall m :: m in MembersOf(d) <==> m in MembersOf(c) && m !in ms
    case RemoveScore(m) => forall k :: ScoreOf(d, k) == if k == m then None else ScoreOf(c, k)
  }

  /** The collection an operation takes something from. */
  predicate EmptyOf(op: CellOp, c: Cell)
    requires Removes(op)
  {
    match op
    case RemoveFields(_) => HashOf(c) == map[]
    case RemoveMembers(_) => MembersOf(c) == {}
    case RemoveScore(_) => OrElse(c.scores, map[]) == map[]
    case _ => ListOf(c) == []
  }

  /**
   * A removal leaves the rest, in order. On a key that holds such a collection it makes one new version; where nothing is
   * left the key is free, with its time-to-lives, and otherwise these stay. On any other key it does nothing.
   */
  lemma {:induction false} RemoveReads(op: CellOp, c: Cell, d: Cell)
    requires Coherent(c) && Removes(op) && d == Apply(op, c)
    ensures RemoveLeaves(op, c, d)
    ensures if EmptyOf(op, c) then d == c
            else if EmptyOf(op, d) then d == Blank().(version := c.version + 1)
            else d.tag == c.tag && d.ttl == c.ttl && d.fieldTtl == c.fieldTtl && d.version == c.version + 1
  {
    match op
    case RemoveFields(fields) => FieldsLeft(c, fields, d);
    case RemoveMembers(ms) => MembersLeft(c, ms, d);
    case RemoveScore(m) => ScoresLeft(c, m, d);
    case _ => ListLeft(op, c, d);
  }

  /** A coherent key whose collection is put aside for an empty one is erased to nothing. */
  lemma {:induction false} EmptiedIsFree(c: Cell, e: Cell)
    requires Coherent(c) && c.tag.Some? && Content(e).(hash := None, list := None, members := None, scores := None)
                                           == Content(c).(hash := None, list := None, members := None, scores := None)
    requires e.version == c.version
    requires c.tag == Some(HashKind) || e.hash == c.hash
    requires c.tag == Some(ListKind) || e.list == c.list
    requires c.tag == Some(SetKind) || e.members == c.members
    requires c.tag == Some(SortedSetKind) || e.scores == c.scores
    ensures Erase(e) == Blank().(version := c.version + 1)
  {
    assert e.tag == c.tag;
  }

  lemma {:induction false} FieldsLeft(c: Cell, fields: seq<Bytes>, d: Cell)
    requires Coherent(c) && d == Remove(RemoveFields(fields), c)
    ensures RemoveLeaves(RemoveFields(fields), c, d)
    ensures if HashOf(c) == map[] then d == c
            else if HashOf(d) == map[] then d == Blank().(version := c.version + 1)
            else d.tag == c.tag && d.ttl == c.ttl && d.fieldTtl == c.fieldTtl && d.version == c.version + 1
  {
    if c.hash.Some? {
      var left := c.hash.value - Elements(fields);
      EmptiedIsFree(c, c.(hash := Some(left)));
      assert forall f :: f in left <==> f in c.hash.value && f !in fields;
    }
  }

  lemma {:induction false} MembersLeft(c: Cell, ms: seq<Bytes>, d: Cell)
    requires Coherent(c) && d == Remove(RemoveMembers(ms), c)
    ensures RemoveLeaves(RemoveMembers(ms), c, d)
    ensures if MembersOf(c) == {} then d == c
            else if MembersOf(d) == {} then d == Blank().(version := c.version + 1)
            else d.tag == c.tag && d.ttl == c.ttl && d.fieldTtl == c.fieldTtl && d.version == c.version + 1
  {
    if c.members.Some? {
      EmptiedIsFree(c, c.(members := Some(c.members.value - Elements(ms))));
    }
  }

  lemma {:induction false} ScoresLeft(c: Cell, m: Bytes, d: Cell)
    requires Coherent(c) && d == Remove(RemoveScore(m), c)
    ensures RemoveLeaves(RemoveScore(m), c, d)
    ensures if OrElse(c.scores, map[]) == map[] then d == c
            else if OrElse(d.scores, map[]) == map[] then d == Blank().(version := c.version + 1)
            else d.tag == c.tag && d.ttl == c.ttl && d.fieldTtl == c.fieldTtl && d.version == c.version + 1
  {
    if c.scores.Some? {
      EmptiedIsFree(c, c.(scores := Some(c.scores.value - {m})));
    }
  }

  lemma {:induction false} ListLeft(op: CellOp, c: Cell, d: Cell)
    requires Coherent(c) && (op.PopFront? || op.PopBack? || op.RewriteList?) && d == Remove(op, c)
    ensures RemoveLeaves(op, c, d)
    ensures if ListOf(c) == [] then d == c
            else if ListOf(d) == [] then d == Blank().(version := c.version + 1)
            else d.tag == c.tag && d.ttl == c.ttl && d.fieldTtl == c.fieldTtl && d.version == c.version + 1
  {
    if c.list.Some? {
      var l := c.list.value;
      EmptiedIsFree(c, c.(list := Some([])));
      assert [l[0]] + l[1..] == l && l[..|l| - 1] + [l[|l| - 1]] == l;
    }
  }

  ghost predicate ReplaceLeaves(op: CellOp, c: Cell, d: Cell)
    requires Replaces(op)
  {
    match op
    case Delete => Content(d) == Blank() && d.ttl.None? && d.fieldTtl.None?
    case SetString(v) => Content(d) == Blank().(tag := Some(StringKind), str := Some(v)) && d.ttl == c.ttl
    case ReplaceMembers(all) =>
      if all == {} then d == c
      else Content(d) == Blank().(tag := Some(SetKind), members := Some(all)) && d.ttl.None? && d.fieldTtl.None?
    case ReplaceScores(all) =>
      && d.ttl.None? && d.fieldTtl.None?
      && Content(d) == if all == map[] then Blank() else Blank().(tag := Some(SortedSetKind), scores := Some(all))
    case MergeSketch(grown) =>
      if WrongType(c, SketchKind) then d == c
      else Content(d) == Blank().(tag := Some(SketchKind), sketch := Some(grown)) && d.ttl == c.ttl
  }

  /** A replacement leaves nothing of what was there; only SET and PFMERGE keep the time-to-live. */
  lemma {:induction false} ReplaceReads(op: CellOp, c: Cell, d: Cell)
    requires Coherent(c) && Replaces(op) && d == Apply(op, c)
    ensures ReplaceLeaves(op, c, d)
  {
    EraseCoherent(c);
  }

  /** A stream command leaves under a free key or a stream's key what it makes of the stream, and any other key alone. */
  lemma {:induction false} StreamReads(command: StreamOps.StreamOp, c: Cell, d: Cell)
    requires Coherent(c) && d == Apply(OnStream(command), c)
    ensures WrongType(c, StreamKind) ==> d == c
    ensures !WrongType(c, StreamKind) ==>
              && d.stream == StreamOps.Perform(command, c.stream).0 && d.ttl == c.ttl
              && Content(d) == (if d.stream.None? then Blank() else Blank().(tag := Some(StreamKind), stream := d.stream))
              && d.version == c.version + if StreamOps.Perform(command, c.stream).1 then 1 else 0
  {
    StreamOps.NeverTakesAway(command, c.stream);
  }

  /** A copy to a free key, or to a key of the same type, has the content of the original; so have its time-to-lives. */
  lemma {:induction false} CopyReads(from: Cell, to: Cell)
    requires Coherent(from) && Coherent(to) && from.tag.Some? && (to.tag.None? || to.tag == from.tag)
    ensures Content(CopyTo(from, to)) == Content(from) && CopyTo(from, to).version == to.version + 1
    ensures from.ttl.Some? || to.tag.None? ==> CopyTo(from, to).ttl == from.ttl
    ensures from.fieldTtl.Some? || to.tag.None? ==> CopyTo(from, to).fieldTtl == from.fieldTtl
    ensures CopySelf(from) == from.(version := from.version + 1)
  {
    HoldsItsTag(from, from.tag.value);
  }

  // ── Lists as queues and stacks ───────────────────────────────────────

  /** What `n` pops from one end reply, and what they leave. */
  function Pops(c: Cell, back: bool, n: nat): (seq<Bytes>, Cell)
    decreases n
  {
    var l := ListOf(c);
    if n == 0 || l == [] then ([], c)
    else
      var rest := Pops(Apply(if back then PopBack else PopFront, c), back, n - 1);
      ([if back then l[|l| - 1] else l[0]] + rest.0, rest.1)
  }

  lemma {:induction false} PopFrontsInOrder(c: Cell, n: nat)
    requires Coherent(c) && n <= |ListOf(c)|
    ensures Pops(c, false, n).0 == ListOf(c)[..n] && ListOf(Pops(c, false, n).1) == ListOf(c)[n..]
    ensures Coherent(Pops(c, false, n).1)
    decreases n
  {
    if n > 0 {
      var l, d := ListOf(c), Apply(PopFront, c);
      RemoveReads(PopFront, c, d);
      CoherentExactly(PopFront, c);
      assert ([l[0]] + ListOf(d))[1..] == ListOf(d);
      PopFrontsInOrder(d, n - 1);
      assert l[..n] == [l[0]] + l[1..][..n - 1];
    }
  }

  lemma {:induction false} PopBacksInOrder(c: Cell, n: nat)
    requires Coherent(c) && n <= |ListOf(c)|
    ensures var l, r := ListOf(c), Pops(c, true, n);
            && |r.0| == n && (forall i :: 0 <= i < n ==> r.0[i] == l[|l| - 1 - i])
            && ListOf(r.1) == l[..|l| - n] && Coherent(r.1)
    decreases n
  {
    if n > 0 {
      var l, d := ListOf(c), Apply(PopBack, c);
      RemoveReads(PopBack, c, d);
      CoherentExactly(PopBack, c);
      assert (ListOf(d) + [l[|l| - 1]])[..|ListOf(d)|] == ListOf(d);
      PopBacksInOrder(d, n - 1);
      assert l[..|l| - 1][..|l| - n] == l[..|l| - n];
    }
  }

  /** RPUSH and LPOP: first in, first out, after what was there; the last pop frees the key. */
  lemma {:induction false} Queue(c: Cell, values: seq<Bytes>, d: Cell)
    requires Coherent(c) && Fits(PushBack(values), c) && d == Apply(PushBack(values), c)
    ensures Pops(d, false, |ListOf(c)| + |values|).0 == ListOf(c) + values
    ensures Pops(d, false, |ListOf(c)| + |values|).1.tag.None?
  {
    var n := |ListOf(c)| + |values|;
    WriteReads(PushBack(values), c, d);
    CoherentExactly(PushBack(values), c);
    assert ListOf(d) == ListOf(d)[..|ListOf(c)|] + ListOf(d)[|ListOf(c)|..];
    PopFrontsInOrder(d, n);
    PopsKeepTag(d, false, n);
  }

  lemma {:induction false} FromTheBack(before: seq<Bytes>, values: seq<Bytes>, l: seq<Bytes>, replies: seq<Bytes>, left: seq<Bytes>)
    requires l == before + values && |replies| == |values| && left == l[..|l| - |values|]
    requires forall i :: 0 <= i < |values| ==> replies[i] == l[|l| - 1 - i]
    ensures left == before && forall i :: 0 <= i < |values| ==> replies[i] == values[|values| - 1 - i]
  {}

  lemma {:induction false} FrontStack(c: Cell, values: seq<Bytes>, d: Cell, r: (seq<Bytes>, Cell))
    requires Coherent(c) && Fits(PushFront(values), c) && d == Apply(PushFront(values), c) && r == Pops(d, false, |values|)
    ensures |r.0| == |values| && (forall i :: 0 <= i < |values| ==> r.0[i] == values[|values| - 1 - i])
    ensures ListOf(r.1) == ListOf(c)
  {
    WriteReads(PushFront(values), c, d);
    CoherentExactly(PushFront(values), c);
    PopFrontsInOrder(d, |values|);
  }

  lemma {:induction false} BackStack(c: Cell, values: seq<Bytes>, d: Cell, r: (seq<Bytes>, Cell))
    requires Coherent(c) && Fits(PushBack(values), c) && d == Apply(PushBack(values), c) && r == Pops(d, true, |values|)
    ensures |r.0| == |values| && (forall i :: 0 <= i < |values| ==> r.0[i] == values[|values| - 1 - i])
    ensures ListOf(r.1) == ListOf(c)
  {
    WriteReads(PushBack(values), c, d);
    CoherentExactly(PushBack(values), c);
    assert ListOf(d) == ListOf(d)[..|ListOf(c)|] + ListOf(d)[|ListOf(c)|..];
    PopBacksInOrder(d, |values|);
    FromTheBack(ListOf(c), values, ListOf(d), r.0, ListOf(r.1));
  }

  /** LPUSH and LPOP: last in, first out, down to what was there. RPUSH and RPOP do the same at the other end. */
  lemma {:induction false} Stack(c: Cell, values: seq<Bytes>, back: bool, d: Cell, r: (seq<Bytes>, Cell))
    requires Coherent(c) && Fits(PushFront(values), c)
    requires d == Apply(if back then PushBack(values) else PushFront(values), c) && r == Pops(d, back, |values|)
    ensures |r.0| == |values| && (forall i :: 0 <= i < |values| ==> r.0[i] == values[|values| - 1 - i])
    ensures ListOf(r.1) == ListOf(c)
  {
    if back { BackStack(c, values, d, r); } else { FrontStack(c, values, d, r); }
  }

  /** Pops leave a list, or a free key and nothing. */
  lemma {:induction false} PopsKeepTag(c: Cell, back: bool, n: nat)
    requires Coherent(c) && c.tag == Some(ListKind)
    ensures var d := Pops(c, back, n).1; if ListOf(d) == [] then d.tag.None? else d.tag == Some(ListKind)
    decreases n
  {
    if n > 0 {
      var op := if back then PopBack else PopFront;
      var d := Apply(op, c);
      RemoveReads(op, c, d);
      CoherentExactly(op, c);
      if d.tag == Some(ListKind) { PopsKeepTag(d, back, n - 1); }
    }
  }

  // ── How long it stays ────────────────────────────────────────────────

  /** The field's own time is over after `d`. */
  predicate FieldDue(c: Cell, f: Bytes, d: nat) {
    c.fieldTtl.Some? && f in c.fieldTtl.value && c.fieldTtl.value[f] <= d
  }

  /** A hash none of whose fields is left. */
  predicate AllDue(c: Cell, d: nat) {
    c.hash.Some? && forall f :: f in c.hash.value ==> FieldDue(c, f, d)
  }

  /** What is left of a time-to-live. */
  function Remaining(ttl: Option<nat>, d: nat): Option<nat> {
    if ttl.Some? && d < ttl.value then Some(ttl.value - d) else None
  }

  function TtlIn(m: Option<map<Bytes, nat>>, f: Bytes): Option<nat> {
    if m.Some? && f in m.value then Some(m.value[f]) else None
  }

  ghost predicate Lives(c: Cell, e: Cell, d: nat) {
    && Content(e) == Content(c).(hash := e.hash) && e.version == c.version && e.ttl == Remaining(c.ttl, d)
    && e.hash.Some? == c.hash.Some?
    && (forall f :: f in HashOf(e) <==> f in HashOf(c) && !FieldDue(c, f, d))
    && (forall f :: f in HashOf(e) ==> HashOf(e)[f] == HashOf(c)[f])
    && (forall f :: TtlIn(e.fieldTtl, f) == Remaining(TtlIn(c.fieldTtl, f), d))
  }

  /**
   * After a time `d` a key is gone exactly when its time-to-live, or that of each of its fields, is not more than `d`, and
   * that is one new version. Otherwise it holds what it held, but for the fields whose time is over; every time-to-live
   * is `d` less.
   */
  lemma {:induction false} ForwardReads(c: Cell, d: nat, e: Cell)
    requires Coherent(c) && c.tag.Some? && e == Forward(c, d)
    ensures if KeyExpires(c, d) || AllDue(c, d) then e == Blank().(version := c.version + 1) else Lives(c, e, d)
  {
    if KeyExpires(c, d) {
      ForwardExpires(c, d);
      EraseCoherent(c);
    } else {
      var k := ForwardKey(c, d);
      assert k == c.(ttl := Remaining(c.ttl, d));
      if c.fieldTtl.Some? {
        FieldsForward(k, d, e);
      } else if c.hash.Some? {
        var f :| f in c.hash.value;
        assert !FieldDue(c, f, d);
      }
    }
  }

  lemma {:induction false} AgedRemain(c: Cell, d: nat, e: Cell)
    requires c.fieldTtl.Some? && e.fieldTtl == (var aged := Aged(c.fieldTtl.value, d); if aged == map[] then None else Some(aged))
    ensures forall f :: TtlIn(e.fieldTtl, f) == Remaining(TtlIn(c.fieldTtl, f), d)
  {
    var aged := Aged(c.fieldTtl.value, d);
    assert forall f :: f in aged <==> f in c.fieldTtl.value && d < c.fieldTtl.value[f];
  }

  lemma {:induction false} FieldsForward(c: Cell, d: nat, e: Cell)
    requires Coherent(c) && c.fieldTtl.Some? && e == ForwardFields(c, d)
    ensures if AllDue(c, d) then e == Blank().(version := c.version + 1)
            else Lives(c.(ttl := None), e.(ttl := None), d) && e.ttl == c.ttl
  {
    var m := c.fieldTtl.value;
    if c.hash.Some? {
      var left := c.hash.value - Expired(m, d);
      assert forall f :: f in left <==> f in c.hash.value && !FieldDue(c, f, d);
      if AllDue(c, d) {
        assert left == map[];
      } else {
        var f :| f in c.hash.value && !FieldDue(c, f, d);
        assert f in left;
        AgedRemain(c, d, e);
      }
    } else {
      AgedRemain(c, d, e);
    }
  }

  ghost predicate ExpireLeaves(op: CellOp, c: Cell, d: Cell)
    requires Times(op)
  {
    match op
    case Persist => d == if c.ttl.Some? then c.(ttl := None, version := c.version + 1) else c
    case CheckTtl => d == if c.ttl == Some(0) then Blank().(version := c.version + 1) else c
    case ExpireIn(t) =>
      if c.tag.None? then d == c
      else if c.ttl == Some(0) || t == 0 then d == Blank().(version := d.version) && d.version > c.version
      else d == c.(ttl := Some(t), version := c.version + 1)
    case ExpireFields(fields, t) =>
      if c.ttl == Some(0) then d == Blank().(version := c.version + 1)
      else if c.tag != Some(HashKind) then d == c
      else
        && d == c.(fieldTtl := d.fieldTtl, version := c.version + 1)
        && (forall f :: TtlIn(d.fieldTtl, f) == if f in fields && f in HashOf(c) then Some(t) else TtlIn(c.fieldTtl, f))
  }

  /** Setting, clearing and meeting time-to-lives: what they leave of the key. */
  lemma {:induction false} ExpireReads(op: CellOp, c: Cell, d: Cell)
    requires Coherent(c) && Times(op) && d == Apply(op, c)
    ensures ExpireLeaves(op, c, d)
  {
    if op.ExpireFields? {
      ExpireFieldsReads(c, op.fields, op.ttl, d);
    } else if op.ExpireIn? {
      ExpireInReads(c, op.ttl, d);
    } else {
      ErasedIsFree(c);
    }
  }

  lemma {:induction false} ExpireInReads(c: Cell, t: nat, d: Cell)
    requires Coherent(c) && d == Expire(ExpireIn(t), c)
    ensures ExpireLeaves(ExpireIn(t), c, d)
  {
    ErasedIsFree(c);
    if c.tag.Some? { ErasedIsFree(Touch(c.(ttl := Some(t)))); }
  }

  lemma {:induction false} ErasedIsFree(c: Cell)
    requires Coherent(c)
    ensures Erase(c) == Blank().(version := c.version + if c.tag.Some? then 1 else 0)
  {
    EraseCoherent(c);
  }

  lemma {:induction false} ExpireFieldsReads(c: Cell, fields: seq<Bytes>, t: nat, d: Cell)
    requires Coherent(c) && d == Expire(ExpireFields(fields, t), c)
    ensures ExpireLeaves(ExpireFields(fields, t), c, d)
  {
    ErasedIsFree(c);
  }

  /** EXPIRE means what it says: the key is there for exactly that long. */
  lemma {:induction false} ExpiresExactly(c: Cell, t: nat, d: nat)
    requires Coherent(c) && c.tag.Some? && c.ttl != Some(0) && c.fieldTtl.None?
    ensures Forward(Apply(ExpireIn(t), c), d).tag.Some? <==> d < t
    ensures Forward(Apply(Persist, c), d).tag.Some?
  {
    var e, p := Apply(ExpireIn(t), c), Apply(Persist, c);
    ExpireReads(ExpireIn(t), c, e);
    ExpireReads(Persist, c, p);
    if t > 0 { ForwardReads(e, d, Forward(e, d)); } else { DeadStays(e, d); }
    ForwardReads(p, d, Forward(p, d));
    if c.hash.Some? {
      var f :| f in c.hash.value;
      assert !FieldDue(e, f, d) && !FieldDue(p, f, d);
    }
  }

  /** So does HEXPIRE, field by field: the named ones for exactly that long, the others as long as they had. */
  lemma {:induction false} FieldExpiresExactly(c: Cell, fields: seq<Bytes>, t: nat, d: nat, f: Bytes)
    requires Coherent(c) && c.hash.Some? && c.ttl.None? && f in c.hash.value
    ensures f in HashOf(Forward(Apply(ExpireFields(fields, t), c), d)) <==> if f in fields then d < t else !FieldDue(c, f, d)
  {
    var e := Apply(ExpireFields(fields, t), c);
    ExpireReads(ExpireFields(fields, t), c, e);
    assert Coherent(e);
    ForwardReads(e, d, Forward(e, d));
    assert FieldDue(e, f, d) <==> TtlIn(e.fieldTtl, f).Some? && TtlIn(e.fieldTtl, f).value <= d;
  }
}

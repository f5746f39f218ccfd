/** What a database holds for one key: type tag, data in each of the typed maps, time-to-lives and version. */
module Cells {
  import opened Bytes
  import Hll
  import Streams
  import StreamOps

  datatype Kind = StringKind | HashKind | ListKind | SetKind | SortedSetKind | StreamKind | SketchKind

  type Fields = map<Bytes, Bytes>

  /**
   * The rows of one key in the database's maps. Time-to-lives count down to zero;
   * a missing version counts as zero.
   */
  datatype Cell = Cell(
    tag: Option<Kind>,
    str: Option<Bytes>,
    hash: Option<Fields>,
    list: Option<seq<Bytes>>,
    members: Option<set<Bytes>>,
    scores: Option<map<Bytes, real>>,
    stream: Option<Streams.Stream>,
    sketch: Option<Hll.Sketch>,
    ttl: Option<nat>,
    fieldTtl: Option<map<Bytes, nat>>,
    version: nat)

  function Blank(): Cell {
    Cell(None, None, None, None, None, None, None, None, None, None, 0)
  }

  /** A key's data is in exactly the map its tag names, no collection is empty, and only live keys have time-to-lives. */
  predicate Coherent(c: Cell) {
    && (c.str.Some? <==> c.tag == Some(StringKind))
    && (c.hash.Some? <==> c.tag == Some(HashKind))
    && (c.list.Some? <==> c.tag == Some(ListKind))
    && (c.members.Some? <==> c.tag == Some(SetKind))
    && (c.scores.Some? <==> c.tag == Some(SortedSetKind))
    && (c.stream.Some? <==> c.tag == Some(StreamKind))
    && (c.sketch.Some? <==> c.tag == Some(SketchKind))
    && c.hash != Some(map[]) && c.list != Some([]) && c.members != Some({}) && c.scores != Some(map[])
    && (c.tag.None? ==> c.ttl.None? && c.fieldTtl.None?)
  }

  /** Tag and data: what a client can read of a key, apart from its time-to-lives. */
  function Content(c: Cell): Cell {
    c.(ttl := None, fieldTtl := None, version := 0)
  }

  // ── Operations of one key ────────────────────────────────────────────

  /** `incr_version`. */
  function Touch(c: Cell): Cell {
    c.(version := c.version + 1)
  }

  /** Removes the data of one type. */
  function Drop(c: Cell, k: Kind): Cell {
    match k
    case StringKind => c.(str := None)
    case HashKind => c.(hash := None)
    case ListKind => c.(list := None)
    case SetKind => c.(members := None)
    case SortedSetKind => c.(scores := None)
    case StreamKind => c.(stream := None)
    case SketchKind => c.(sketch := None)
  }

  /** `del`. */
  function Erase(c: Cell): Cell {
    if c.tag.None? then c
    else Drop(c.(tag := None, ttl := None, fieldTtl := None, version := c.version + 1), c.tag.value)
  }

  /** `del_keep_ttl`. */
  function EraseKeepTtl(c: Cell): Cell {
    if c.tag.None? then c else Drop(c.(tag := None), c.tag.value)
  }

  /** The tag a typed writer leaves: the one that is there, or its own. */
  function Tagged(c: Cell, k: Kind): Cell {
    if c.tag.Some? then c else c.(tag := Some(k))
  }

  function PutAll(h: Fields, pairs: seq<(Bytes, Bytes)>): Fields {
    if pairs == [] then h
    else PutAll(h, pairs[..|pairs| - 1])[pairs[|pairs| - 1].0 := pairs[|pairs| - 1].1]
  }

  function Reversed(s: seq<Bytes>): seq<Bytes> {
    if s == [] then [] else [s[|s| - 1]] + Reversed(s[..|s| - 1])
  }

  function OrElse<T>(o: Option<T>, d: T): T {
    if o.Some? then o.value else d
  }

  datatype CellOp =
    | Delete
    | SetString(value: Bytes)
    | PutFields(pairs: seq<(Bytes, Bytes)>)
    | RemoveFields(fields: seq<Bytes>)
    | PushFront(values: seq<Bytes>)
    | PushBack(values: seq<Bytes>)
    | PopFront
    | PopBack
    | RewriteList(values: seq<Bytes>)
    | AddMembers(ms: seq<Bytes>)
    | RemoveMembers(ms: seq<Bytes>)
    | ReplaceMembers(all: set<Bytes>)
    | PutScore(member: Bytes, score: real)
    | AddScore(member: Bytes, delta: real)
    | RemoveScore(member: Bytes)
    | ReplaceScores(scores: map<Bytes, real>)
    | GrowSketch(grown: Hll.Sketch)
    | MergeSketch(grown: Hll.Sketch)
    | OnStream(command: StreamOps.StreamOp)
    | CheckTtl
    | ExpireIn(ttl: nat)
    | Persist
    | ExpireFields(fields: seq<Bytes>, ttl: nat)

  /** An emptied collection takes its key with it; any other change is a new version. */
  function Settle(c: Cell, empty: bool): Cell {
    if empty then Erase(c) else Touch(c)
  }

  function CheckTtlOf(c: Cell): Cell {
    if c.ttl == Some(0) then Erase(c) else c
  }

  /** Time-to-lives for the named fields that exist. */
  function ExpireFieldsOf(c: Cell, fields: seq<Bytes>, ttl: nat): Cell {
    var there := map f | f in OrElse(c.hash, map[]) && f in fields :: ttl;
    Touch(c.(fieldTtl := Some(OrElse(c.fieldTtl, map[]) + there)))
  }

  /** A stream command on a key that is free or holds a stream. */
  function ApplyStream(command: StreamOps.StreamOp, c: Cell): Cell {
    var (s, raised) := StreamOps.Perform(command, c.stream);
    if s.None? then c
    else
      var d := c.(tag := Some(StreamKind), stream := s);
      if raised then Touch(d) else d
  }

  /** A handler refuses a key of another type. */
  predicate WrongType(c: Cell, k: Kind) {
    c.tag.Some? && c.tag != Some(k)
  }

  /** Writers that store into a collection, under a tag that may already be there. */
  predicate Writes(op: CellOp) {
    op.PutFields? || op.PushFront? || op.PushBack? || op.AddMembers? || op.PutScore? || op.AddScore? || op.GrowSketch?
  }

  function Write(op: CellOp, c: Cell): Cell
    requires Writes(op)
  {
    match op
    case PutFields(pairs) => Touch(Tagged(c, HashKind).(hash := Some(PutAll(OrElse(c.hash, map[]), pairs))))
    case PushFront(values) => Touch(Tagged(c, ListKind).(list := Some(Reversed(values) + OrElse(c.list, []))))
    case PushBack(values) => Touch(Tagged(c, ListKind).(list := Some(OrElse(c.list, []) + values)))
    case AddMembers(ms) => Touch(Tagged(c, SetKind).(members := Some(OrElse(c.members, {}) + Elements(ms))))
    case PutScore(m, score) => Touch(Tagged(c, SortedSetKind).(scores := Some(OrElse(c.scores, map[])[m := score])))
    case AddScore(m, delta) =>
      var all := OrElse(c.scores, map[]);
      Touch(Tagged(c, SortedSetKind).(scores := Some(all[m := (if m in all then all[m] else 0.0) + delta])))
    case GrowSketch(after) => Touch(Tagged(c, SketchKind).(sketch := Some(after)))
  }

  /** Operations that take something out of a collection. */
  predicate Removes(op: CellOp) {
    op.RemoveFields? || op.PopFront? || op.PopBack? || op.RewriteList? || op.RemoveMembers? || op.RemoveScore?
  }

  function Remove(op: CellOp, c: Cell): Cell
    requires Removes(op)
  {
    match op
    case RemoveFields(fields) =>
      if c.hash.None? then c
      else var left := c.hash.value - Elements(fields); Settle(c.(hash := Some(left)), left == map[])
    case PopFront =>
      if c.list.None? || c.list.value == [] then c
      else var left := c.list.value[1..]; Settle(c.(list := Some(left)), left == [])
    case PopBack =>
      if c.list.None? || c.list.value == [] then c
      else var left := c.list.value[..|c.list.value| - 1]; Settle(c.(list := Some(left)), left == [])
    case RewriteList(after) => if c.list.None? then c else Settle(c.(list := Some(after)), after == [])
    case RemoveMembers(ms) =>
      if c.members.None? then c
      else var left := c.members.value - Elements(ms); Settle(c.(members := Some(left)), left == {})
    case RemoveScore(m) =>
      if c.scores.None? then c
      else var left := c.scores.value - {m}; Settle(c.(scores := Some(left)), left == map[])
  }

  /** Operations on time-to-lives. */
  predicate Times(op: CellOp) {
    op.CheckTtl? || op.ExpireIn? || op.Persist? || op.ExpireFields?
  }

  function Expire(op: CellOp, c: Cell): Cell
    requires Times(op)
  {
    match op
    case CheckTtl => CheckTtlOf(c)
    case ExpireIn(ttl) =>
      var live := CheckTtlOf(c);
      if live.tag.None? then live else CheckTtlOf(Touch(live.(ttl := Some(ttl))))
    case Persist => if c.tag.Some? && c.ttl.Some? then Touch(c.(ttl := None)) else c
    case ExpireFields(fields, ttl) =>
      var live := CheckTtlOf(c);
      if live.tag != Some(HashKind) then live else ExpireFieldsOf(live, fields, ttl)
  }

  /** Operations that put a whole value in the place of whatever there was. */
  predicate Replaces(op: CellOp) {
    op.Delete? || op.SetString? || op.ReplaceMembers? || op.ReplaceScores? || op.MergeSketch?
  }

  function Replace(op: CellOp, c: Cell): Cell
    requires Replaces(op)
  {
    match op
    case Delete => Erase(c)
    case SetString(v) => Touch(EraseKeepTtl(c).(tag := Some(StringKind), str := Some(v)))
    case ReplaceMembers(all) =>
      if all == {} then c else Touch(Erase(c).(tag := Some(SetKind), members := Some(all)))
    case ReplaceScores(all) =>
      if all == map[] then Erase(c) else Touch(Erase(c).(tag := Some(SortedSetKind), scores := Some(all)))
    case MergeSketch(after) =>
      if WrongType(c, SketchKind) then c
      else Touch(c.(tag := Some(SketchKind), sketch := Some(after)))
  }

  function Apply(op: CellOp, c: Cell): Cell {
    if op.OnStream? then (if WrongType(c, StreamKind) then c else ApplyStream(op.command, c))
    else if Writes(op) then Write(op, c)
    else if Removes(op) then Remove(op, c)
    else if Times(op) then Expire(op, c)
    else Replace(op, c)
  }

  /** The type precondition of an operation: no key or a key of its type, and something to store. */
  predicate Fits(op: CellOp, c: Cell) {
    match op
    case PutFields(pairs) => c.tag == Some(HashKind) || (c.tag.None? && pairs != [])
    case PushFront(values) => c.tag == Some(ListKind) || (c.tag.None? && values != [])
    case PushBack(values) => c.tag == Some(ListKind) || (c.tag.None? && values != [])
    case AddMembers(ms) => c.tag == Some(SetKind) || (c.tag.None? && ms != [])
    case PutScore(_, _) => c.tag.None? || c.tag == Some(SortedSetKind)
    case AddScore(_, _) => c.tag.None? || c.tag == Some(SortedSetKind)
    case GrowSketch(_) => c.tag.None? || c.tag == Some(SketchKind)
    case _ => true
  }

  // ── Coherence ────────────────────────────────────────────────────────

  lemma {:induction false} EraseCoherent(c: Cell)
    requires Coherent(c)
    ensures Coherent(Erase(c)) && Erase(c).tag.None?
    ensures Erase(c).version == c.version + if c.tag.Some? then 1 else 0
    ensures Content(Erase(c)) == Blank()
  {}

  lemma {:induction false} PutAllEmpty(h: Fields, pairs: seq<(Bytes, Bytes)>)
    ensures PutAll(h, pairs) == map[] <==> h == map[] && pairs == []
  {
    if pairs != [] {
      assert pairs[|pairs| - 1].0 in PutAll(h, pairs);
    }
  }

  lemma {:induction false} ReversedLength(s: seq<Bytes>)
    ensures |Reversed(s)| == |s|
  {
    if s != [] {
      ReversedLength(s[..|s| - 1]);
    }
  }

  lemma {:induction false} UnionEmpty(s: set<Bytes>, ms: seq<Bytes>)
    ensures s + Elements(ms) == {} <==> s == {} && ms == []
  {
    if ms != [] {
      assert ms[0] in s + Elements(ms);
    }
    if s != {} {
      var x :| x in s;
      assert x in s + Elements(ms);
    }
  }

  lemma {:induction false} WriteCoherentExactly(op: CellOp, c: Cell)
    requires Coherent(c) && Writes(op)
    ensures Coherent(Write(op, c)) <==> Fits(op, c)
  {
    match op
    case PutFields(pairs) => PutAllEmpty(OrElse(c.hash, map[]), pairs);
    case PushFront(values) =>
      ReversedLength(values);
      assert |Reversed(values) + OrElse(c.list, [])| == |values| + |OrElse(c.list, [])|;
    case PushBack(values) =>
      assert |OrElse(c.list, []) + values| == |OrElse(c.list, [])| + |values|;
    case AddMembers(ms) => UnionEmpty(OrElse(c.members, {}), ms);
    case PutScore(m, score) =>
      assert m in Write(op, c).scores.value;
    case AddScore(m, delta) =>
      assert m in Write(op, c).scores.value;
    case GrowSketch(_) =>
  }

  lemma {:induction false} RemoveCoherent(op: CellOp, c: Cell)
    requires Coherent(c) && Removes(op)
    ensures Coherent(Remove(op, c))
  {}

  lemma {:induction false} ExpireCoherent(op: CellOp, c: Cell)
    requires Coherent(c) && Times(op)
    ensures Coherent(Expire(op, c))
  {
    EraseCoherent(c);
  }

  lemma {:induction false} ReplaceCoherent(op: CellOp, c: Cell)
    requires Coherent(c) && Replaces(op)
    ensures Coherent(Replace(op, c))
  {
    EraseCoherent(c);
  }

  lemma {:induction false} StreamCoherent(command: StreamOps.StreamOp, c: Cell)
    requires Coherent(c) && !WrongType(c, StreamKind)
    ensures Coherent(ApplyStream(command, c))
  {}

  /** On a coherent key, an operation leaves a coherent key exactly when its type precondition holds. */
  lemma {:induction false} CoherentExactly(op: CellOp, c: Cell)
    requires Coherent(c)
    ensures Coherent(Apply(op, c)) <==> Fits(op, c)
  {
    if op.OnStream? {
      if !WrongType(c, StreamKind) {
        StreamCoherent(op.command, c);
      }
    } else if Writes(op) {
      WriteCoherentExactly(op, c);
    } else if Removes(op) {
      RemoveCoherent(op, c);
    } else if Times(op) {
      ExpireCoherent(op, c);
    } else {
      ReplaceCoherent(op, c);
    }
  }

  // ── Versions ─────────────────────────────────────────────────────────

  /** No change of content goes unnoticed by the version. */
  predicate Noticed(before: Cell, after: Cell) {
    before.version <= after.version && (Content(before) != Content(after) ==> before.version < after.version)
  }

  lemma {:induction false} EraseNoticed(c: Cell)
    requires Coherent(c)
    ensures Noticed(c, Erase(c)) && Noticed(c, CheckTtlOf(c))
    ensures Coherent(CheckTtlOf(c))
  {
    EraseCoherent(c);
  }

  lemma {:induction false} WriteNoticed(op: CellOp, c: Cell)
    requires Writes(op)
    ensures Noticed(c, Write(op, c))
  {}

  lemma {:induction false} RemoveNoticed(op: CellOp, c: Cell)
    requires Coherent(c) && Removes(op)
    ensures Noticed(c, Remove(op, c))
  {}

  /** Setting, clearing or meeting a time-to-live never changes the content behind the version. */
  lemma {:induction false} ExpireNoticed(op: CellOp, c: Cell)
    requires Coherent(c) && Times(op)
    ensures Noticed(c, Expire(op, c))
  {
    EraseNoticed(c);
    var live := CheckTtlOf(c);
    if op.ExpireIn? && live.tag.Some? {
      EraseNoticed(Touch(live.(ttl := Some(op.ttl))));
    }
  }

  lemma {:induction false} ReplaceNoticed(op: CellOp, c: Cell)
    requires Coherent(c) && Replaces(op)
    ensures Noticed(c, Replace(op, c))
  {
    EraseCoherent(c);
  }

  /** A stream command that changes the key behind its version. */
  ghost predicate SilentOn(op: CellOp, c: Cell) {
    op.OnStream? && !WrongType(c, StreamKind) && StreamOps.Silent(op.command, c.stream)
  }

  lemma {:induction false} StreamNoticedExactly(command: StreamOps.StreamOp, c: Cell)
    requires Coherent(c) && !WrongType(c, StreamKind)
    ensures Noticed(c, ApplyStream(command, c)) <==> !StreamOps.Silent(command, c.stream)
  {
    var (s, raised) := StreamOps.Perform(command, c.stream);
    StreamOps.SilentExactly(command, c.stream);
    StreamOps.NeverTakesAway(command, c.stream);
    if s.Some? && !raised {
      var d := c.(tag := Some(StreamKind), stream := s);
      assert ApplyStream(command, c) == d;
      assert s == c.stream ==> d == c;
      assert s != c.stream ==> Content(d).stream != Content(c).stream;
    }
  }

  /**
   * No operation of a key lowers its version, and every one raises it when it changes the content,
   * exactly but for the silent stream commands.
   */
  lemma {:induction false} ApplyNoticedExactly(op: CellOp, c: Cell)
    requires Coherent(c)
    ensures Noticed(c, Apply(op, c)) <==> !SilentOn(op, c)
  {
    if op.OnStream? {
      if !WrongType(c, StreamKind) {
        StreamNoticedExactly(op.command, c);
      }
    } else if Writes(op) {
      WriteNoticed(op, c);
    } else if Removes(op) {
      RemoveNoticed(op, c);
    } else if Times(op) {
      ExpireNoticed(op, c);
    } else {
      ReplaceNoticed(op, c);
    }
  }

  // ── Moving the clock ─────────────────────────────────────────────────

  function Less(ttl: nat, d: nat): nat {
    if ttl <= d then 0 else ttl - d
  }

  /** The time-to-lives still running after `d`. */
  function Aged(m: map<Bytes, nat>, d: nat): map<Bytes, nat> {
    map f | f in m && d < m[f] :: m[f] - d
  }

  /** The fields whose time is over after `d`. */
  function Expired(m: map<Bytes, nat>, d: nat): set<Bytes> {
    set f | f in m && m[f] <= d
  }

  function ForwardKey(c: Cell, d: nat): Cell {
    if c.ttl.None? then c else CheckTtlOf(c.(ttl := Some(Less(c.ttl.value, d))))
  }

  /** `check_hash_field_ttls`. */
  function ForwardFields(c: Cell, d: nat): Cell {
    if c.fieldTtl.None? then c
    else
      var m := c.fieldTtl.value;
      var hash := if c.hash.None? then None else Some(c.hash.value - Expired(m, d));
      var aged := c.(fieldTtl := if Aged(m, d) == map[] then None else Some(Aged(m, d)), hash := hash);
      if hash == Some(map[]) then Erase(aged) else aged
  }

  /** `fast_forward`, on one key. */
  function Forward(c: Cell, d: nat): Cell {
    ForwardFields(ForwardKey(c, d), d)
  }

  lemma {:induction false} AgedTwice(m: map<Bytes, nat>, a: nat, b: nat)
    ensures Aged(Aged(m, a), b) == Aged(m, a + b)
    ensures Expired(m, a + b) == Expired(m, a) + Expired(Aged(m, a), b)
  {}

  lemma {:induction false} ForwardCoherent(c: Cell, d: nat)
    requires Coherent(c)
    ensures Coherent(ForwardKey(c, d)) && Coherent(Forward(c, d))
  {
    var k := ForwardKey(c, d);
    if c.ttl.Some? {
      EraseCoherent(c.(ttl := Some(Less(c.ttl.value, d))));
    }
    assert Coherent(k);
  }

  predicate KeyExpires(c: Cell, d: nat) {
    c.ttl.Some? && c.ttl.value <= d
  }

  /** A dead key has nothing left to expire. */
  lemma {:induction false} DeadStays(c: Cell, d: nat)
    requires Coherent(c) && c.tag.None?
    ensures Forward(c, d) == c
  {}

  /** What an erased key was like before does not matter, but for its version. */
  lemma {:induction false} EraseForgets(c: Cell, d: Cell)
    requires Coherent(c) && Coherent(d) && c.tag == d.tag && c.version == d.version
    ensures Erase(c) == Erase(d)
  {
    EraseCoherent(c);
    EraseCoherent(d);
    if c.tag.Some? {
      assert Content(Erase(c)) == Content(Erase(d));
    } else {
      assert Content(c) == Content(d);
    }
  }

  lemma {:induction false} ForwardExpires(c: Cell, d: nat)
    requires Coherent(c) && KeyExpires(c, d)
    ensures Forward(c, d) == Erase(c)
  {
    var late := c.(ttl := Some(0));
    EraseForgets(late, c);
    EraseCoherent(c);
    DeadStays(Erase(c), d);
  }

  /** Field expiry keeps tag and version, or erases the key. */
  lemma {:induction false} ForwardFieldsKeeps(c: Cell, d: nat)
    requires Coherent(c)
    ensures Coherent(ForwardFields(c, d))
    ensures || ForwardFields(c, d) == Erase(c)
            || (ForwardFields(c, d).tag == c.tag && ForwardFields(c, d).version == c.version && ForwardFields(c, d).ttl == c.ttl)
  {
  }

  lemma {:induction false} ForwardFieldsTwice(c: Cell, a: nat, b: nat)
    requires Coherent(c)
    ensures ForwardFields(ForwardFields(c, a), b) == ForwardFields(c, a + b)
  {
    if c.fieldTtl.Some? {
      var m := c.fieldTtl.value;
      AgedTwice(m, a, b);
      if c.hash.Some? {
        var left := c.hash.value - Expired(m, a);
        assert left - Expired(Aged(m, a), b) == c.hash.value - Expired(m, a + b);
        assert left == map[] ==> c.hash.value - Expired(m, a + b) == map[];
      }
    }
  }

  /** The key's own time-to-live plays no part in field expiry. */
  lemma {:induction false} ForwardFieldsIgnoresTtl(c: Cell, ttl: nat, d: nat)
    requires Coherent(c) && c.tag.Some?
    ensures var f, g := ForwardFields(c, d), ForwardFields(c.(ttl := Some(ttl)), d);
            g == if f.tag.None? then f else f.(ttl := Some(ttl))
  {}

  /** Two moves of the clock are one. */
  lemma {:induction false} ForwardTwice(c: Cell, a: nat, b: nat)
    requires Coherent(c)
    ensures Forward(Forward(c, a), b) == Forward(c, a + b)
  {
    if c.tag.None? {
      DeadStays(c, a);
      DeadStays(c, b);
      DeadStays(c, a + b);
    } else if KeyExpires(c, a + b) {
      ForwardExpiresTwice(c, a, b);
    } else {
      ForwardSurvivesTwice(c, a, b);
    }
  }

  lemma {:induction false} ForwardExpiresTwice(c: Cell, a: nat, b: nat)
    requires Coherent(c) && c.tag.Some? && KeyExpires(c, a + b)
    ensures Forward(Forward(c, a), b) == Forward(c, a + b)
  {
    ForwardExpires(c, a + b);
    EraseCoherent(c);
    DeadStays(Erase(c), b);
    if KeyExpires(c, a) {
      ForwardExpires(c, a);
    } else {
      var k := c.(ttl := Some(c.ttl.value - a));
      assert ForwardKey(c, a) == k;
      ForwardFieldsKeeps(k, a);
      EraseForgets(k, c);
      var f := ForwardFields(k, a);
      if f != Erase(k) {
        ForwardExpires(f, b);
        EraseForgets(f, c);
      }
    }
  }

  lemma {:induction false} ForwardSurvivesTwice(c: Cell, a: nat, b: nat)
    requires Coherent(c) && c.tag.Some? && !KeyExpires(c, a + b)
    ensures Forward(Forward(c, a), b) == Forward(c, a + b)
  {
    if c.ttl.None? {
      ForwardFieldsTwice(c, a, b);
      ForwardFieldsKeeps(c, a);
      EraseCoherent(c);
    } else {
      var k, x := c.(ttl := Some(c.ttl.value - a)), c.(ttl := Some(c.ttl.value - (a + b)));
      assert ForwardKey(c, a) == k && ForwardKey(c, a + b) == x;
      ForwardFieldsTwice(x, a, b);
      ForwardFieldsIgnoresTtl(k, c.ttl.value - (a + b), a);
      assert k.(ttl := Some(c.ttl.value - (a + b))) == x;
      ForwardFieldsKeeps(k, a);
      EraseCoherent(k);
    }
  }

  /** Some fields of a hash run out and some stay. */
  predicate LosesFields(c: Cell, d: nat) {
    && !KeyExpires(c, d) && c.hash.Some? && c.fieldTtl.Some?
    && c.hash.value.Keys * Expired(c.fieldTtl.value, d) != {}
    && !(c.hash.value.Keys <= Expired(c.fieldTtl.value, d))
  }

  lemma {:induction false} FieldsNoticedExactly(c: Cell, d: nat)
    requires Coherent(c) && c.hash.Some? && c.fieldTtl.Some?
    ensures var gone := Expired(c.fieldTtl.value, d);
            Noticed(c, ForwardFields(c, d)) <==> c.hash.value.Keys * gone == {} || c.hash.value.Keys <= gone
  {
    var h, gone := c.hash.value, Expired(c.fieldTtl.value, d);
    var left := h - gone;
    EraseCoherent(c);
    if h.Keys <= gone {
      assert left == map[];
    } else {
      var f :| f in h && f !in gone;
      assert f in left;
      if h.Keys * gone == {} {
        assert forall x :: x in h ==> (x in gone <==> x in h.Keys * gone);
        assert left == h;
      } else {
        var g :| g in h.Keys * gone;
        assert g in h && g !in left;
      }
    }
  }

  /** Moving the clock is noticed by a key's version, except exactly when a hash loses some of its fields. */
  lemma {:induction false} ForwardNoticedExactly(c: Cell, d: nat)
    requires Coherent(c)
    ensures Noticed(c, Forward(c, d)) <==> !LosesFields(c, d)
    ensures c.version <= Forward(c, d).version
  {
    if c.tag.None? {
      DeadStays(c, d);
    } else if KeyExpires(c, d) {
      ForwardExpires(c, d);
      EraseCoherent(c);
    } else {
      var k := ForwardKey(c, d);
      assert k == c.(ttl := k.ttl);
      ForwardFieldsKeeps(k, d);
      EraseCoherent(k);
      if c.hash.Some? && c.fieldTtl.Some? {
        FieldsNoticedExactly(k, d);
      }
    }
  }

  /** A hash of two fields, one of which has a second to live. */
  function FadingHash(f: Bytes, g: Bytes): Cell {
    Blank().(tag := Some(HashKind), hash := Some(map[f := f, g := g]), fieldTtl := Some(map[f := 1]))
  }

  /** After that second one field is gone, and the version has not moved. */
  lemma {:induction false} FieldExpiryUnnoticed(f: Bytes, g: Bytes)
    requires f != g
    ensures Coherent(FadingHash(f, g)) && !Noticed(FadingHash(f, g), Forward(FadingHash(f, g), 1))
  {
    var c := FadingHash(f, g);
    assert f in c.hash.value && f in Expired(c.fieldTtl.value, 1) && g in c.hash.value;
    assert f in c.hash.value.Keys * Expired(c.fieldTtl.value, 1);
    ForwardNoticedExactly(c, 1);
  }

  // ── Two keys ─────────────────────────────────────────────────────────

  /** Puts the data of one type from `c` into `d`, where `c` has any. */
  function CopyData(c: Cell, d: Cell, k: Kind): Cell {
    match k
    case StringKind => if c.str.Some? then d.(str := c.str) else d
    case HashKind => if c.hash.Some? then d.(hash := c.hash) else d
    case ListKind => if c.list.Some? then d.(list := c.list) else d
    case SetKind => if c.members.Some? then d.(members := c.members) else d
    case SortedSetKind => if c.scores.Some? then d.(scores := c.scores) else d
    case StreamKind => if c.stream.Some? then d.(stream := c.stream) else d
    case SketchKind => if c.sketch.Some? then d.(sketch := c.sketch) else d
  }

  function CopyTtls(c: Cell, d: Cell): Cell {
    d.(ttl := if c.ttl.Some? then c.ttl else d.ttl, fieldTtl := if c.fieldTtl.Some? then c.fieldTtl else d.fieldTtl)
  }

  /** `rename` to another key: what is left of the source, and the destination. */
  function RenameTo(from: Cell, to: Cell): (Cell, Cell) {
    if from.tag.None? then (from, to)
    else
      var k := from.tag.value;
      (Touch(Drop(from.(tag := None, ttl := None, fieldTtl := None), k)),
       Touch(CopyTtls(from, CopyData(from, Erase(to).(tag := Some(k)), k))))
  }

  /** `rename` of a key to itself. */
  function RenameSelf(c: Cell): Cell {
    if c.tag.None? then c else Touch(Touch(c))
  }

  /** `copy_key` to another key. */
  function CopyTo(from: Cell, to: Cell): Cell {
    if from.tag.None? then to
    else Touch(CopyTtls(from, CopyData(from, to.(tag := from.tag), from.tag.value)))
  }

  /** `copy_key` of a key onto itself. */
  function CopySelf(c: Cell): Cell {
    if c.tag.None? then c else Touch(c)
  }

  /** Renaming moves value and time-to-lives whole, and leaves nothing behind but a newer version. */
  lemma {:induction false} RenameMovesWhole(from: Cell, to: Cell)
    requires Coherent(from) && Coherent(to) && from.tag.Some?
    ensures RenameTo(from, to).0 == Blank().(version := from.version + 1)
    ensures RenameTo(from, to).1 == from.(version := RenameTo(from, to).1.version)
    ensures RenameTo(from, to).1.version > to.version
  {
    EraseCoherent(to);
    var e := Erase(to);
    assert e == Blank().(version := e.version);
  }

  /** The key has data of a type. */
  predicate Holds(c: Cell, k: Kind) {
    match k
    case StringKind => c.str.Some?
    case HashKind => c.hash.Some?
    case ListKind => c.list.Some?
    case SetKind => c.members.Some?
    case SortedSetKind => c.scores.Some?
    case StreamKind => c.stream.Some?
    case SketchKind => c.sketch.Some?
  }

  lemma {:induction false} HoldsItsTag(c: Cell, k: Kind)
    requires Coherent(c)
    ensures Holds(c, k) <==> c.tag == Some(k)
  {}

  lemma {:induction false} CopyLeavesOld(from: Cell, to: Cell, k: Kind)
    requires from.tag.Some? && Holds(to, k)
    ensures Holds(CopyTo(from, to), k)
  {
    CopyDataGrows(from, to.(tag := from.tag), from.tag.value);
  }

  lemma {:induction false} CopyDataGrows(c: Cell, d: Cell, k: Kind)
    ensures var e := CopyData(c, d, k);
            && (d.str.Some? ==> e.str.Some?) && (d.hash.Some? ==> e.hash.Some?) && (d.list.Some? ==> e.list.Some?)
            && (d.members.Some? ==> e.members.Some?) && (d.scores.Some? ==> e.scores.Some?)
            && (d.stream.Some? ==> e.stream.Some?) && (d.sketch.Some? ==> e.sketch.Some?)
  {}

  /** Copying leaves a coherent key exactly when the destination was free or of the same type. */
  lemma {:induction false} CopyCoherentExactly(from: Cell, to: Cell)
    requires Coherent(from) && Coherent(to) && from.tag.Some?
    ensures Coherent(CopyTo(from, to)) <==> to.tag.None? || to.tag == from.tag
  {
    var copy := CopyTo(from, to);
    if to.tag.Some? && to.tag != from.tag {
      var k := to.tag.value;
      HoldsItsTag(to, k);
      CopyLeavesOld(from, to, k);
      assert copy.tag == from.tag;
      if Coherent(copy) {
        HoldsItsTag(copy, k);
        assert false;
      }
    }
  }
}

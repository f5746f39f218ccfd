/** The database as it is updated in place: one map per concern, each method proved against its key's cell. */
module RedisDb {
  import opened Bytes
  import opened Cells
  import opened Hll
  import opened Keyspace
  import Streams

  function Look<V>(m: map<Bytes, V>, k: Bytes): Option<V> {
    if k in m then Some(m[k]) else None
  }

  /** One row changed, added or removed. */
  function Set<V>(m: map<Bytes, V>, k: Bytes, v: Option<V>): map<Bytes, V> {
    if v.Some? then m[k := v.value] else m - {k}
  }

  lemma {:induction false} RemoveOne(m: Fields, f: Bytes)
    ensures |m - {f}| == |m| - if f in m then 1 else 0
  {
    if f in m {
      assert m == (m - {f})[f := m[f]];
    } else {
      assert m - {f} == m;
    }
  }

  lemma {:induction false} RemoveNext(m: Fields, s: seq<Bytes>, i: nat)
    requires i < |s|
    ensures m - Elements(s[..i]) - {s[i]} == m - Elements(s[..i + 1])
  {
    ElementsSnoc(s, i);
  }

  lemma {:induction false} ElementsSnoc(s: seq<Bytes>, i: nat)
    requires i < |s|
    ensures Elements(s[..i + 1]) == Elements(s[..i]) + {s[i]}
  {
    assert s[..i + 1] == s[..i] + [s[i]];
  }

  /** Moving rows looks at the data and time-to-lives only, and onto itself changes nothing. */
  lemma {:induction false} RowsIgnoreTag(from: Cell, to: Cell, kind: Kind)
    ensures CopyTtls(from.(tag := None), CopyData(from.(tag := None), to, kind)) == CopyTtls(from, CopyData(from, to, kind))
    ensures CopyTtls(from, CopyData(from, from, kind)) == from
  {}

  /** One more key on the way to the merge of all. */
  lemma {:induction false} MergeNext(all: seq<Option<Sketch>>, i: nat)
    requires i < |all|
    ensures MergeAll(Present(all[..i + 1])) ==
              if all[i].None? then MergeAll(Present(all[..i])) else Merge(MergeAll(Present(all[..i])), all[i].value)
  {
    assert all[..i + 1][..i] == all[..i];
    var before := Present(all[..i]);
    if all[i].Some? {
      assert Present(all[..i + 1]) == before + [all[i].value];
      assert (before + [all[i].value])[..|before|] == before;
    } else {
      assert before + [] == before;
    }
  }

  class RedisDB {
    var keys: map<Bytes, Kind>
    var strings: map<Bytes, Bytes>
    var hashes: map<Bytes, Fields>
    var lists: map<Bytes, seq<Bytes>>
    var sets: map<Bytes, set<Bytes>>
    var sortedSets: map<Bytes, map<Bytes, real>>
    var streams: map<Bytes, Streams.Stream>
    var sketches: map<Bytes, Sketch>
    var ttls: map<Bytes, nat>
    var fieldTtls: map<Bytes, map<Bytes, nat>>
    var versions: map<Bytes, nat>

    function Version(k: Bytes): nat
      reads this
    {
      if k in versions then versions[k] else 0
    }

    /** The rows of one key. */
    function CellAt(k: Bytes): Cell
      reads this
    {
      Cell(Look(keys, k), Look(strings, k), Look(hashes, k), Look(lists, k), Look(sets, k), Look(sortedSets, k),
           Look(streams, k), Look(sketches, k), Look(ttls, k), Look(fieldTtls, k), Version(k))
    }

    /** Only `key` may differ from before. */
    twostate predicate OnlyKey(key: Bytes)
      reads this
    {
      forall k :: k != key ==> CellAt(k) == old(CellAt(k))
    }

    constructor ()
      ensures forall k :: CellAt(k) == Blank()
    {
      keys, strings, hashes, lists, sets := map[], map[], map[], map[], map[];
      sortedSets, streams, sketches, ttls, fieldTtls, versions := map[], map[], map[], map[], map[], map[];
    }

    /** `incr_version`. */
    method IncrVersion(key: Bytes)
      modifies this`versions
      ensures CellAt(key) == Touch(old(CellAt(key))) && OnlyKey(key)
    {
      versions := versions[key := Version(key) + 1];
    }

    // One row of one map.

    method PutTag(key: Bytes, v: Option<Kind>)
      modifies this`keys
      ensures CellAt(key) == old(CellAt(key)).(tag := v) && OnlyKey(key)
    {
      keys := Set(keys, key, v);
    }

    method PutString(key: Bytes, v: Option<Bytes>)
      modifies this`strings
      ensures CellAt(key) == old(CellAt(key)).(str := v) && OnlyKey(key)
    {
      strings := Set(strings, key, v);
    }

    method PutHash(key: Bytes, v: Option<Fields>)
      modifies this`hashes
      ensures CellAt(key) == old(CellAt(key)).(hash := v) && OnlyKey(key)
    {
      hashes := Set(hashes, key, v);
    }

    method PutList(key: Bytes, v: Option<seq<Bytes>>)
      modifies this`lists
      ensures CellAt(key) == old(CellAt(key)).(list := v) && OnlyKey(key)
    {
      lists := Set(lists, key, v);
    }

    method PutSet(key: Bytes, v: Option<set<Bytes>>)
      modifies this`sets
      ensures CellAt(key) == old(CellAt(key)).(members := v) && OnlyKey(key)
    {
      sets := Set(sets, key, v);
    }

    method PutScores(key: Bytes, v: Option<map<Bytes, real>>)
      modifies this`sortedSets
      ensures CellAt(key) == old(CellAt(key)).(scores := v) && OnlyKey(key)
    {
      sortedSets := Set(sortedSets, key, v);
    }

    method PutStream(key: Bytes, v: Option<Streams.Stream>)
      modifies this`streams
      ensures CellAt(key) == old(CellAt(key)).(stream := v) && OnlyKey(key)
    {
      streams := Set(streams, key, v);
    }

    method PutSketch(key: Bytes, v: Option<Sketch>)
      modifies this`sketches
      ensures CellAt(key) == old(CellAt(key)).(sketch := v) && OnlyKey(key)
    {
      sketches := Set(sketches, key, v);
    }

    method PutTtl(key: Bytes, v: Option<nat>)
      modifies this`ttls
      ensures CellAt(key) == old(CellAt(key)).(ttl := v) && OnlyKey(key)
    {
      ttls := Set(ttls, key, v);
    }

    method PutFieldTtl(key: Bytes, v: Option<map<Bytes, nat>>)
      modifies this`fieldTtls
      ensures CellAt(key) == old(CellAt(key)).(fieldTtl := v) && OnlyKey(key)
    {
      fieldTtls := Set(fieldTtls, key, v);
    }

    method TagIfNew(key: Bytes, kind: Kind)
      modifies this`keys
      ensures CellAt(key) == Tagged(old(CellAt(key)), kind) && OnlyKey(key)
    {
      if key !in keys {
        PutTag(key, Some(kind));
      }
    }

    /** The tail of a removal: an emptied collection takes its key with it. */
    method SettleKey(key: Bytes, empty: bool)
      modifies this
      ensures CellAt(key) == Settle(old(CellAt(key)), empty) && OnlyKey(key)
    {
      if empty {
        var _ := Del(key);
      } else {
        IncrVersion(key);
      }
    }

    method DropData(key: Bytes, kind: Kind)
      modifies this
      ensures CellAt(key) == Drop(old(CellAt(key)), kind) && OnlyKey(key)
    {
      match kind
      case StringKind => PutString(key, None);
      case HashKind => PutHash(key, None);
      case ListKind => PutList(key, None);
      case SetKind => PutSet(key, None);
      case SortedSetKind => PutScores(key, None);
      case StreamKind => PutStream(key, None);
      case SketchKind => PutSketch(key, None);
    }

    /** The rows every key may have besides its data. */
    method ClearMarks(key: Bytes)
      modifies this
      ensures CellAt(key) == Touch(old(CellAt(key)).(tag := None, ttl := None, fieldTtl := None)) && OnlyKey(key)
    {
      PutTag(key, None);
      PutTtl(key, None);
      PutFieldTtl(key, None);
      IncrVersion(key);
    }

    /** `del`. */
    method Del(key: Bytes) returns (existed: bool)
      modifies this
      ensures existed <==> old(CellAt(key)).tag.Some?
      ensures CellAt(key) == Erase(old(CellAt(key))) && OnlyKey(key)
    {
      if key !in keys {
        return false;
      }
      var kind := keys[key];
      ClearMarks(key);
      DropData(key, kind);
      return true;
    }

    /** `del_keep_ttl`. */
    method DelKeepTtl(key: Bytes)
      modifies this
      ensures CellAt(key) == EraseKeepTtl(old(CellAt(key))) && OnlyKey(key)
    {
      if key in keys {
        var kind := keys[key];
        PutTag(key, None);
        DropData(key, kind);
      }
    }

    /** `string_set`. */
    method StringSet(key: Bytes, value: Bytes)
      modifies this
      ensures CellAt(key) == Replace(SetString(value), old(CellAt(key))) && OnlyKey(key)
    {
      DelKeepTtl(key);
      PutTag(key, Some(StringKind));
      PutString(key, Some(value));
      IncrVersion(key);
    }

    /** `hash_set`: how many fields are new. */
    method HashSet(key: Bytes, pairs: seq<(Bytes, Bytes)>) returns (added: nat)
      modifies this
      ensures CellAt(key) == Write(PutFields(pairs), old(CellAt(key))) && OnlyKey(key)
      ensures added == |PutAll(OrElse(old(CellAt(key)).hash, map[]), pairs)| - |OrElse(old(CellAt(key)).hash, map[])|
    {
      TagIfNew(key, HashKind);
      var h;
      h, added := PutEach(if key in hashes then hashes[key] else map[], pairs);
      PutHash(key, Some(h));
      IncrVersion(key);
    }

    static method PutEach(before: Fields, pairs: seq<(Bytes, Bytes)>) returns (h: Fields, added: nat)
      ensures h == PutAll(before, pairs) && added == |h| - |before|
    {
      h, added := before, 0;
      assert pairs[..0] == [];
      for i := 0 to |pairs|
        invariant h == PutAll(before, pairs[..i]) && |h| == |before| + added
      {
        assert pairs[..i + 1][..i] == pairs[..i];
        if pairs[i].0 !in h {
          added := added + 1;
        }
        h := h[pairs[i].0 := pairs[i].1];
      }
      assert pairs[..|pairs|] == pairs;
    }

    /** `hash_del`: how many fields went. */
    method HashDel(key: Bytes, fields: seq<Bytes>) returns (removed: nat)
      modifies this
      ensures CellAt(key) == Remove(RemoveFields(fields), old(CellAt(key))) && OnlyKey(key)
      ensures var h := OrElse(old(CellAt(key)).hash, map[]); removed == |h| - |h - Elements(fields)|
    {
      if key !in hashes {
        return 0;
      }
      var h;
      h, removed := RemoveEach(hashes[key], fields);
      PutHash(key, Some(h));
      SettleKey(key, h == map[]);
    }

    static method RemoveEach(before: Fields, fields: seq<Bytes>) returns (h: Fields, removed: nat)
      ensures h == before - Elements(fields) && removed == |before| - |h|
    {
      h, removed := before, 0;
      for i := 0 to |fields|
        invariant h == before - Elements(fields[..i]) && |h| == |before| - removed
      {
        RemoveNext(before, fields, i);
        RemoveOne(h, fields[i]);
        if fields[i] in h {
          removed := removed + 1;
        }
        h := h - {fields[i]};
      }
      assert fields[..|fields|] == fields;
    }

    /** `list_lpush`: the new length. */
    method ListPushFront(key: Bytes, values: seq<Bytes>) returns (len: nat)
      modifies this
      ensures CellAt(key) == Write(PushFront(values), old(CellAt(key))) && OnlyKey(key)
      ensures len == |OrElse(old(CellAt(key)).list, [])| + |values|
    {
      TagIfNew(key, ListKind);
      var l := if key in lists then lists[key] else [];
      l := PushEach(l, values);
      len := |l|;
      PutList(key, Some(l));
      IncrVersion(key);
    }

    static method PushEach(before: seq<Bytes>, values: seq<Bytes>) returns (l: seq<Bytes>)
      ensures l == Reversed(values) + before && |l| == |before| + |values|
    {
      l := before;
      assert values[..0] == [];
      for i := 0 to |values|
        invariant l == Reversed(values[..i]) + before && |l| == |before| + i
      {
        assert values[..i + 1][..i] == values[..i];
        l := [values[i]] + l;
      }
      assert values[..|values|] == values;
    }

    /** `list_lpop`. */
    method ListPopFront(key: Bytes) returns (value: Option<Bytes>)
      modifies this
      ensures CellAt(key) == Remove(PopFront, old(CellAt(key))) && OnlyKey(key)
      ensures value == if OrElse(old(CellAt(key)).list, []) == [] then None else Some(old(CellAt(key)).list.value[0])
      ensures var l := OrElse(old(CellAt(key)).list, []);
              && (|l| > 1 ==> CellAt(key).list.Some? && [value.value] + CellAt(key).list.value == l)
              && (|l| == 1 && old(CellAt(key)).tag == Some(ListKind) ==> CellAt(key).tag.None? && CellAt(key).list.None?)
    {
      if key !in lists || lists[key] == [] {
        return None;
      }
      value := Some(lists[key][0]);
      var left := lists[key][1..];
      PutList(key, Some(left));
      SettleKey(key, left == []);
    }

    /** `list_rpush`: the new length. */
    method ListPushBack(key: Bytes, values: seq<Bytes>) returns (len: nat)
      modifies this
      ensures CellAt(key) == Write(PushBack(values), old(CellAt(key))) && OnlyKey(key)
      ensures len == |OrElse(old(CellAt(key)).list, [])| + |values|
    {
      TagIfNew(key, ListKind);
      var before := if key in lists then lists[key] else [];
      var l := before;
      for i := 0 to |values|
        invariant l == before + values[..i]
      {
        l := l + [values[i]];
      }
      assert values[..|values|] == values;
      len := |l|;
      PutList(key, Some(l));
      IncrVersion(key);
    }

    /** `list_rpop`. */
    method ListPopBack(key: Bytes) returns (value: Option<Bytes>)
      modifies this
      ensures CellAt(key) == Remove(PopBack, old(CellAt(key))) && OnlyKey(key)
      ensures var l := OrElse(old(CellAt(key)).list, []);
              && value == (if l == [] then None else Some(l[|l| - 1]))
              && (|l| > 1 ==> CellAt(key).list.Some? && CellAt(key).list.value + [value.value] == l)
              && (|l| == 1 && old(CellAt(key)).tag == Some(ListKind) ==> CellAt(key).tag.None? && CellAt(key).list.None?)
    {
      if key !in lists || lists[key] == [] {
        return None;
      }
      var n := |lists[key]| - 1;
      value := Some(lists[key][n]);
      var left := lists[key][..n];
      PutList(key, Some(left));
      SettleKey(key, left == []);
    }

    /** `set_add`: how many members are new. */
    method SetAdd(key: Bytes, ms: seq<Bytes>) returns (added: nat)
      modifies this
      ensures CellAt(key) == Write(AddMembers(ms), old(CellAt(key))) && OnlyKey(key)
      ensures var s := OrElse(old(CellAt(key)).members, {}); added == |s + Elements(ms)| - |s|
    {
      TagIfNew(key, SetKind);
      var s;
      s, added := InsertEach(if key in sets then sets[key] else {}, ms);
      PutSet(key, Some(s));
      IncrVersion(key);
    }

    static method InsertEach(before: set<Bytes>, ms: seq<Bytes>) returns (s: set<Bytes>, added: nat)
      ensures s == before + Elements(ms) && added == |s| - |before|
    {
      s, added := before, 0;
      for i := 0 to |ms|
        invariant s == before + Elements(ms[..i]) && |s| == |before| + added
      {
        ElementsSnoc(ms, i);
        if ms[i] !in s {
          added := added + 1;
        }
        s := s + {ms[i]};
      }
      assert ms[..|ms|] == ms;
    }

    /** `set_rem`: how many members went. */
    method SetRem(key: Bytes, ms: seq<Bytes>) returns (removed: nat)
      modifies this
      ensures CellAt(key) == Remove(RemoveMembers(ms), old(CellAt(key))) && OnlyKey(key)
      ensures var s := OrElse(old(CellAt(key)).members, {}); removed == |s| - |s - Elements(ms)|
    {
      if key !in sets {
        return 0;
      }
      var s;
      s, removed := TakeEach(sets[key], ms);
      PutSet(key, Some(s));
      SettleKey(key, s == {});
    }

    static method TakeEach(before: set<Bytes>, ms: seq<Bytes>) returns (s: set<Bytes>, removed: nat)
      ensures s == before - Elements(ms) && removed == |before| - |s|
    {
      s, removed := before, 0;
      for i := 0 to |ms|
        invariant s == before - Elements(ms[..i]) && |s| == |before| - removed
      {
        ElementsSnoc(ms, i);
        if ms[i] in s {
          removed := removed + 1;
        }
        s := s - {ms[i]};
      }
      assert ms[..|ms|] == ms;
    }

    /** `set_set`: an empty replacement is ignored. */
    method SetReplace(key: Bytes, all: set<Bytes>)
      modifies this
      ensures CellAt(key) == Replace(ReplaceMembers(all), old(CellAt(key))) && OnlyKey(key)
    {
      if all != {} {
        var _ := Del(key);
        PutTag(key, Some(SetKind));
        PutSet(key, Some(all));
        IncrVersion(key);
      }
    }

    /** `sset_add`: whether the member is new. */
    method ScoreAdd(key: Bytes, score: real, member: Bytes) returns (isNew: bool)
      modifies this
      ensures CellAt(key) == Write(PutScore(member, score), old(CellAt(key))) && OnlyKey(key)
      ensures isNew <==> member !in OrElse(old(CellAt(key)).scores, map[])
    {
      TagIfNew(key, SortedSetKind);
      var all := if key in sortedSets then sortedSets[key] else map[];
      isNew := member !in all;
      PutScores(key, Some(all[member := score]));
      IncrVersion(key);
    }

    /** `sset_incrby`: the new score. */
    method ScoreIncrBy(key: Bytes, member: Bytes, delta: real) returns (score: real)
      modifies this
      ensures CellAt(key) == Write(AddScore(member, delta), old(CellAt(key))) && OnlyKey(key)
      ensures CellAt(key).scores.Some? && Look(CellAt(key).scores.value, member) == Some(score)
    {
      TagIfNew(key, SortedSetKind);
      var all := if key in sortedSets then sortedSets[key] else map[];
      score := (if member in all then all[member] else 0.0) + delta;
      PutScores(key, Some(all[member := score]));
      IncrVersion(key);
    }

    /** `sset_rem`: whether the member was there. */
    method ScoreRem(key: Bytes, member: Bytes) returns (removed: bool)
      modifies this
      ensures CellAt(key) == Remove(RemoveScore(member), old(CellAt(key))) && OnlyKey(key)
      ensures removed <==> member in OrElse(old(CellAt(key)).scores, map[])
    {
      if key !in sortedSets {
        return false;
      }
      removed := member in sortedSets[key];
      var left := sortedSets[key] - {member};
      PutScores(key, Some(left));
      SettleKey(key, left == map[]);
    }

    /** `sset_set`: an empty replacement deletes the key. */
    method ScoresReplace(key: Bytes, all: map<Bytes, real>)
      modifies this
      ensures CellAt(key) == Replace(ReplaceScores(all), old(CellAt(key))) && OnlyKey(key)
    {
      var _ := Del(key);
      if all == map[] {
        return;
      }
      PutTag(key, Some(SortedSetKind));
      PutScores(key, Some(all));
      IncrVersion(key);
    }

    /** The sketches of the named keys, where there are any. */
    function SketchesAt(names: seq<Bytes>): seq<Option<Sketch>>
      reads this
    {
      seq(|names|, i requires 0 <= i < |names| reads this => Look(sketches, names[i]))
    }

    /** The named key holds something else. */
    predicate NotSketch(key: Bytes)
      reads this
    {
      WrongType(CellAt(key), SketchKind)
    }

    /** `hll_add`: whether any register grew. */
    method HllAdd(key: Bytes, items: seq<Bytes>, hash: Hash) returns (changed: bool)
      modifies this
      ensures var before := OrElse(old(CellAt(key)).sketch, Hll.Empty());
              && CellAt(key) == Write(GrowSketch(RaiseAll(before, items, hash)), old(CellAt(key))) && OnlyKey(key)
              && (changed <==> RaiseAll(before, items, hash) != before)
    {
      TagIfNew(key, SketchKind);
      var s;
      s, changed := RaiseEach(if key in sketches then sketches[key] else Hll.Empty(), items, hash);
      PutSketch(key, Some(s));
      IncrVersion(key);
    }

    static method RaiseEach(before: Sketch, items: seq<Bytes>, hash: Hash) returns (s: Sketch, changed: bool)
      ensures s == RaiseAll(before, items, hash) && (changed <==> s != before)
    {
      s, changed := before, false;
      assert items[..0] == [];
      for i := 0 to |items|
        invariant s == RaiseAll(before, items[..i], hash) && (changed <==> s != before) && AtLeast(before, s)
      {
        assert items[..i + 1][..i] == items[..i];
        RaiseGrows(before, s, items[i], hash);
        var next := Raise(s, items[i], hash);
        if next != s {
          changed := true;
        }
        s := next;
      }
      assert items[..|items|] == items;
    }

    /** Whether some named key holds something else; both commands look before they read or write. */
    method AnyNotSketch(names: seq<Bytes>) returns (wrong: bool)
      ensures wrong <==> exists k :: k in names && NotSketch(k)
    {
      wrong := false;
      for i := 0 to |names|
        invariant wrong <==> exists k :: k in names[..i] && NotSketch(k)
      {
        assert forall k :: k in names[..i + 1] <==> k in names[..i] || k == names[i];
        var other := names[i] in keys && keys[names[i]] != SketchKind;
        assert other <==> NotSketch(names[i]);
        if other {
          assert names[i] in names[..i + 1] && NotSketch(names[i]);
          wrong := true;
        }
      }
      assert names[..|names|] == names;
    }

    /** The loops that merge the sketches there are into one. */
    method MergeNamed(names: seq<Bytes>) returns (s: Sketch)
      ensures s == MergeAll(Present(SketchesAt(names)))
    {
      s := Hll.Empty();
      ghost var all := SketchesAt(names);
      assert all[..0] == [];
      for i := 0 to |names|
        invariant s == MergeAll(Present(all[..i]))
      {
        MergeNext(all, i);
        if names[i] in sketches {
          s := Merge(s, sketches[names[i]]);
        }
      }
      assert all[..|names|] == all;
    }

    /** `hll_count`: nothing when some key holds something else. */
    method HllCount(names: seq<Bytes>, count: Sketch -> nat) returns (n: Option<nat>)
      ensures n.None? <==> exists k :: k in names && NotSketch(k)
      ensures n.Some? ==> n.value == CountKeys(SketchesAt(names), count)
    {
      var wrong := AnyNotSketch(names);
      if wrong {
        return None;
      }
      if |names| == 1 {
        return Some(if names[0] in sketches then count(sketches[names[0]]) else 0);
      }
      var merged := MergeNamed(names);
      return Some(count(merged));
    }

    /** `hll_merge`: refused when any of the keys holds something else, the destination included. */
    method HllMerge(names: seq<Bytes>) returns (ok: bool)
      requires names != []
      modifies this
      ensures ok <==> !exists k :: k in names && old(NotSketch(k))
      ensures !ok ==> forall k :: CellAt(k) == old(CellAt(k))
      ensures ok ==> OnlyKey(names[0])
      ensures var merged := MergeAll(Present(old(SketchesAt(names))));
              ok ==> CellAt(names[0]) == Replace(MergeSketch(merged), old(CellAt(names[0])))
    {
      var wrong := AnyNotSketch(names);
      if wrong {
        return false;
      }
      assert !NotSketch(names[0]);
      var merged := MergeNamed(names);
      PutTag(names[0], Some(SketchKind));
      PutSketch(names[0], Some(merged));
      IncrVersion(names[0]);
      return true;
    }

    /** `check_ttl`: whether the key had run out. */
    method CheckTtl(key: Bytes) returns (expired: bool)
      modifies this
      ensures expired <==> old(CellAt(key)).ttl == Some(0)
      ensures CellAt(key) == CheckTtlOf(old(CellAt(key))) && OnlyKey(key)
    {
      if key in ttls && ttls[key] == 0 {
        var _ := Del(key);
        return true;
      }
      return false;
    }

    /** Moves the data of one type, which is the identity when both names are the same. */
    method MoveData(from: Bytes, to: Bytes, kind: Kind)
      modifies this
      ensures CellAt(to) == CopyData(old(CellAt(from)), old(CellAt(to)), kind)
      ensures from != to ==> CellAt(from) == Drop(old(CellAt(from)), kind)
      ensures forall k :: k != from && k != to ==> CellAt(k) == old(CellAt(k))
    {
      match kind
      case StringKind =>
        if from in strings { var v := strings[from]; PutString(from, None); PutString(to, Some(v)); }
      case HashKind =>
        if from in hashes { var v := hashes[from]; PutHash(from, None); PutHash(to, Some(v)); }
      case ListKind =>
        if from in lists { var v := lists[from]; PutList(from, None); PutList(to, Some(v)); }
      case SetKind =>
        if from in sets { var v := sets[from]; PutSet(from, None); PutSet(to, Some(v)); }
      case SortedSetKind =>
        if from in sortedSets { var v := sortedSets[from]; PutScores(from, None); PutScores(to, Some(v)); }
      case StreamKind =>
        if from in streams { var v := streams[from]; PutStream(from, None); PutStream(to, Some(v)); }
      case SketchKind =>
        if from in sketches { var v := sketches[from]; PutSketch(from, None); PutSketch(to, Some(v)); }
    }

    method MoveTtls(from: Bytes, to: Bytes)
      modifies this
      ensures CellAt(to) == CopyTtls(old(CellAt(from)), old(CellAt(to)))
      ensures from != to ==> CellAt(from) == old(CellAt(from)).(ttl := None, fieldTtl := None)
      ensures forall k :: k != from && k != to ==> CellAt(k) == old(CellAt(k))
    {
      if from in ttls {
        var v := ttls[from];
        PutTtl(from, None);
        PutTtl(to, Some(v));
      }
      if from in fieldTtls {
        var v := fieldTtls[from];
        PutFieldTtl(from, None);
        PutFieldTtl(to, Some(v));
      }
    }

    method MoveRows(from: Bytes, to: Bytes, kind: Kind)
      modifies this
      ensures CellAt(to) == CopyTtls(old(CellAt(from)), CopyData(old(CellAt(from)), old(CellAt(to)), kind))
      ensures from != to ==> CellAt(from) == Drop(old(CellAt(from)).(ttl := None, fieldTtl := None), kind)
      ensures forall k :: k != from && k != to ==> CellAt(k) == old(CellAt(k))
    {
      MoveTtls(from, to);
      MoveData(from, to, kind);
    }

    /** Takes the tag off one key and, with the old data there out of the way, puts it on another. */
    method MoveTag(from: Bytes, to: Bytes, kind: Kind)
      requires Look(keys, from) == Some(kind)
      modifies this
      ensures from == to ==> CellAt(to) == old(CellAt(to))
      ensures from != to ==> CellAt(to) == Erase(old(CellAt(to))).(tag := Some(kind))
      ensures from != to ==> CellAt(from) == old(CellAt(from)).(tag := None)
      ensures forall k :: k != from && k != to ==> CellAt(k) == old(CellAt(k))
    {
      PutTag(from, None);
      var _ := Del(to);
      PutTag(to, Some(kind));
    }

    /** `rename`: false when there is nothing to rename. */
    method Rename(from: Bytes, to: Bytes) returns (renamed: bool)
      modifies this
      ensures renamed <==> old(CellAt(from)).tag.Some?
      ensures from == to ==> CellAt(from) == RenameSelf(old(CellAt(from)))
      ensures from != to ==> (CellAt(from), CellAt(to)) == RenameTo(old(CellAt(from)), old(CellAt(to)))
      ensures forall k :: k != from && k != to ==> CellAt(k) == old(CellAt(k))
      ensures Did(old(View()), View(), DbOp.Rename(from, to))
    {
      if from !in keys {
        return false;
      }
      var kind := keys[from];
      ghost var f, t := CellAt(from), CellAt(to);
      RowsIgnoreTag(f, Erase(t).(tag := Some(kind)), kind);
      MoveTag(from, to, kind);
      MoveRows(from, to, kind);
      assert from == to ==> CellAt(from) == f;
      assert from != to ==> CellAt(to) == CopyTtls(f, CopyData(f, Erase(t).(tag := Some(kind)), kind));
      IncrVersion(from);
      IncrVersion(to);
      return true;
    }

    method CopyTtlRows(from: Bytes, to: Bytes)
      modifies this`ttls, this`fieldTtls
      ensures CellAt(to) == CopyTtls(old(CellAt(from)), old(CellAt(to))) && OnlyKey(to)
    {
      if from in ttls {
        PutTtl(to, Some(ttls[from]));
      }
      if from in fieldTtls {
        PutFieldTtl(to, Some(fieldTtls[from]));
      }
    }

    method CopyTypedData(from: Bytes, to: Bytes, kind: Kind)
      modifies this
      ensures CellAt(to) == CopyData(old(CellAt(from)), old(CellAt(to)), kind) && OnlyKey(to)
    {
      match kind
      case StringKind => if from in strings { PutString(to, Some(strings[from])); }
      case HashKind => if from in hashes { PutHash(to, Some(hashes[from])); }
      case ListKind => if from in lists { PutList(to, Some(lists[from])); }
      case SetKind => if from in sets { PutSet(to, Some(sets[from])); }
      case SortedSetKind => if from in sortedSets { PutScores(to, Some(sortedSets[from])); }
      case StreamKind => if from in streams { PutStream(to, Some(streams[from])); }
      case SketchKind => if from in sketches { PutSketch(to, Some(sketches[from])); }
    }

    /** `copy_key`: false when there is nothing to copy. */
    method CopyKey(from: Bytes, to: Bytes) returns (copied: bool)
      modifies this
      ensures copied <==> old(CellAt(from)).tag.Some?
      ensures CellAt(to) == (if from == to then CopySelf(old(CellAt(from))) else CopyTo(old(CellAt(from)), old(CellAt(to))))
      ensures OnlyKey(to)
      ensures Did(old(View()), View(), DbOp.Copy(from, to))
    {
      if from !in keys {
        return false;
      }
      var kind := keys[from];
      ghost var f := CellAt(from);
      RowsIgnoreTag(f, f, kind);
      PutTag(to, Some(kind));
      assert CellAt(from) == f;
      CopyTypedData(from, to, kind);
      CopyTtlRows(from, to);
      IncrVersion(to);
      return true;
    }

    // ── The clock ──────────────────────────────────────────────────────

    /** Takes `d` off every time-to-live, in any order, and collects the fields that have run out. */
    static method AgeEach(m: map<Bytes, nat>, d: nat) returns (aged: map<Bytes, nat>, over: set<Bytes>)
      ensures aged.Keys == m.Keys && (forall f :: f in m ==> aged[f] == Less(m[f], d))
      ensures over == Expired(m, d)
    {
      aged, over := m, {};
      var todo := m.Keys;
      while todo != {}
        invariant todo <= m.Keys && aged.Keys == m.Keys
        invariant forall f :: f in m ==> aged[f] == if f in todo then m[f] else Less(m[f], d)
        invariant forall f :: f in over <==> f in m && f !in todo && m[f] <= d
      {
        var f :| f in todo;
        todo := todo - {f};
        aged := aged[f := Less(aged[f], d)];
        if aged[f] == 0 {
          over := over + {f};
        }
      }
    }

    /** `check_hash_field_ttls`. */
    method CheckHashFieldTtls(key: Bytes, d: nat)
      modifies this
      ensures CellAt(key) == ForwardFields(old(CellAt(key)), d) && OnlyKey(key)
    {
      if key !in fieldTtls {
        return;
      }
      var m := fieldTtls[key];
      var aged, over := AgeEach(m, d);
      aged := aged - over;
      assert aged == Aged(m, d);
      PutFieldTtl(key, if aged == map[] then None else Some(aged));
      if key in hashes {
        var left := hashes[key] - over;
        PutHash(key, Some(left));
        if left == map[] {
          var _ := Del(key);
        }
      }
    }

    /** The key half of `fast_forward`. */
    method ForwardKeyOf(key: Bytes, d: nat)
      modifies this
      ensures CellAt(key) == ForwardKey(old(CellAt(key)), d) && OnlyKey(key)
    {
      if key in ttls {
        PutTtl(key, Some(Less(ttls[key], d)));
      }
      var _ := CheckTtl(key);
    }

    method ForwardKeys(d: nat)
      modifies this
      ensures forall k :: CellAt(k) == ForwardKey(old(CellAt(k)), d)
    {
      var todo := ttls.Keys;
      while todo != {}
        invariant forall k :: CellAt(k) == if k in todo then old(CellAt(k)) else ForwardKey(old(CellAt(k)), d)
      {
        var key :| key in todo;
        ForwardKeyOf(key, d);
        todo := todo - {key};
      }
    }

    method ForwardAllFields(d: nat)
      modifies this
      ensures forall k :: CellAt(k) == ForwardFields(old(CellAt(k)), d)
    {
      var todo := fieldTtls.Keys;
      while todo != {}
        invariant forall k :: CellAt(k) == if k in todo then old(CellAt(k)) else ForwardFields(old(CellAt(k)), d)
      {
        var key :| key in todo;
        CheckHashFieldTtls(key, d);
        todo := todo - {key};
      }
    }

    /** `fast_forward`: whatever order the maps are walked in, every key moves forward by `d`. */
    method FastForward(d: nat)
      modifies this
      ensures forall k :: CellAt(k) == Forward(old(CellAt(k)), d)
      ensures Did(old(View()), View(), DbOp.FastForward(d))
    {
      ForwardKeys(d);
      ForwardAllFields(d);
    }

    /** `flush`. */
    method Flush()
      modifies this
      ensures forall k :: CellAt(k) == Blank()
    {
      keys, strings, hashes, lists, sets := map[], map[], map[], map[], map[];
      sortedSets, streams, sketches, ttls, fieldTtls, versions := map[], map[], map[], map[], map[], map[];
    }

    // ── The database as a value ────────────────────────────────────────

    ghost function View(): (v: Bytes -> Cell)
      reads this
      ensures forall k :: v(k) == CellAt(k)
    {
      var a, b, c, d, e, f, g, h, i, j, n :=
        keys, strings, hashes, lists, sets, sortedSets, streams, sketches, ttls, fieldTtls, versions;
      (k: Bytes) => Cell(Look(a, k), Look(b, k), Look(c, k), Look(d, k), Look(e, k), Look(f, k), Look(g, k), Look(h, k),
                         Look(i, k), Look(j, k), if k in n then n[k] else 0)
    }

    /**
     * In place or on values is the same, so what is proved of whole runs of a store holds of the object; and a method
     * keeps all keys coherent exactly when its type precondition holds.
     */
    twostate lemma StepMeans(s: Store, op: DbOp)
      requires Shows(old(View()), s) && Did(old(View()), View(), op)
      ensures Shows(View(), Do(s, op))
      ensures CoherentStore(s) ==> ((forall k :: Coherent(CellAt(k))) <==> FitsIn(op, s))
    {
      DidShows(old(View()), View(), s, op);
      if CoherentStore(s) { DoCoherentExactly(s, op); }
    }
  }
}

/** The stream as it is updated in place, each method proved to make the step its value-level function makes. */
module StreamStore {
  import opened Bytes
  import opened Decimal
  import opened Sorted
  import opened StreamIds
  import Streams
  import opened StreamGroups
  import StreamRecords

  type Entry = Streams.Entry
  type Pending = Streams.Pending
  type Group = Streams.Group

  class StreamObject {
    var entries: seq<Entry>
    var groups: map<Bytes, Group>
    var lastAllocated: Bytes

    function Value(): Streams.Stream
      reads this
    {
      Streams.Stream(entries, groups, lastAllocated)
    }

    constructor ()
      ensures Value() == Streams.Stream([], map[], [])
    {
      entries, groups, lastAllocated := [], map[], [];
    }

    /** `generate_id`; `None` is the overflow of the checked addition, which leaves the stream alone. */
    method GenerateId(ms: U64) returns (id: Option<Bytes>)
      modifies this`lastAllocated
      ensures match Streams.Generate(old(Value()), ms)
              case None => id == None && lastAllocated == old(lastAllocated)
              case Some(x) => id == Some(FormatId(x.ms, x.sn)) && lastAllocated == FormatId(x.ms, x.sn)
    {
      var x := Id(ms, 0);
      if lastAllocated != [] {
        var alloc := ParseId(lastAllocated);
        if alloc.Some? && x.ms <= alloc.value.ms {
          if alloc.value.sn == U64_MAX {
            return None;
          }
          x := Id(alloc.value.ms, alloc.value.sn + 1);
        }
      }
      if entries != [] {
        var last := ParseId(entries[|entries| - 1].id);
        if last.Some? && (x.ms < last.value.ms || (x.ms == last.value.ms && x.sn <= last.value.sn)) {
          if last.value.sn == U64_MAX {
            return None;
          }
          x := Id(last.value.ms, last.value.sn + 1);
        }
      }
      assert Streams.Generate(old(Value()), ms) == Some(x);
      lastAllocated := FormatId(x.ms, x.sn);
      return Some(lastAllocated);
    }

    /** `add`. */
    method Add(id: Bytes, values: seq<Bytes>, now: U64) returns (r: Streams.AddResult)
      modifies this
      ensures (Value(), r) == Streams.Add(old(Value()), id, values, now)
    {
      var given;
      if id == [] || id == [STAR] {
        var made := GenerateId(now);
        if made.None? {
          return Streams.Refused(Streams.SequenceOverflow);
        }
        given := made.value;
      } else if |id| >= 2 && id[|id| - 2..] == [DASH, STAR] {
        var ms := ParseU64(id[..|id| - 2]);
        if ms.None? {
          return Streams.Refused(Streams.InvalidId);
        }
        var made := GenerateId(ms.value);
        if made.None? {
          return Streams.Refused(Streams.SequenceOverflow);
        }
        given := made.value;
      } else {
        given := NormalizeId(id);
        var x := ParseId(given);
        if x.None? {
          return Streams.Refused(Streams.InvalidId);
        }
        if x.value.ms == 0 && x.value.sn == 0 {
          return Streams.Refused(Streams.NotAboveZero);
        }
        if entries != [] && CompareIds(given, entries[|entries| - 1].id) <= 0 {
          return Streams.Refused(Streams.NotAboveTop);
        }
        lastAllocated := given;
      }
      entries := entries + [Streams.Entry(given, values)];
      return Streams.Added(given);
    }

    /** `trim_maxlen`: returns how many entries went. */
    method TrimMaxLen(n: nat) returns (removed: nat)
      modifies this`entries
      ensures Value() == Streams.TrimMaxLen(old(Value()), n)
      ensures removed == |old(entries)| - |entries|
    {
      if |entries| <= n {
        return 0;
      }
      removed := |entries| - n;
      entries := entries[removed..];
    }

    /** `trim_minid`. */
    method TrimMinId(threshold: Bytes) returns (removed: nat)
      modifies this`entries
      ensures Value() == Streams.TrimMinId(old(Value()), threshold)
      ensures removed == |old(entries)| - |entries|
    {
      var before := |entries|;
      entries := Keep(entries, (e: Entry) => CompareIds(e.id, threshold) >= 0);
      removed := before - |entries|;
    }

    /** `del`: one pass over the entries for each ID. */
    method Del(ids: seq<Bytes>) returns (count: nat)
      modifies this`entries
      ensures (Value(), count) == Streams.Del(old(Value()), ids)
    {
      count := 0;
      assert ids[..0] == [];
      for i := 0 to |ids|
        invariant groups == old(groups) && lastAllocated == old(lastAllocated)
        invariant (Value(), count) == Streams.Del(old(Value()), ids[..i])
      {
        var id, before := ids[i], |entries|;
        assert ids[..i + 1][..i] == ids[..i];
        entries := Keep(entries, (e: Entry) => e.id != id);
        if |entries| < before {
          count := count + 1;
        }
      }
      assert ids[..|ids|] == ids;
    }

    /** `create_group`: false when the name is taken. */
    method CreateGroup(name: Bytes, id: Bytes) returns (made: bool)
      modifies this`groups
      ensures made <==> name !in old(groups)
      ensures Value() == match StreamGroups.CreateGroup(old(Value()), name, id)
                         case None => old(Value())
                         case Some(s) => s
    {
      if name in groups {
        return false;
      }
      var start := NormalizeId(id);
      if id == [DOLLAR] {
        start := if entries == [] then ZeroId() else entries[|entries| - 1].id;
      }
      groups := groups[name := Streams.Group(start, [], map[], start == ZeroId())];
      return true;
    }

    /** `read_group`: `None` when there is no such group. */
    method ReadGroup(name: Bytes, consumer: Bytes, id: Bytes, count: Option<nat>, noack: bool, now: int)
      returns (r: Option<seq<Entry>>)
      modifies this`groups
      ensures match StreamGroups.ReadGroup(old(Value()), name, consumer, id, count, noack, now)
              case None => r == None && Value() == old(Value())
              case Some((s, es)) => r == Some(es) && Value() == s
      ensures r.Some? <==> name in old(groups)
      ensures r.Some? && id == [GREATER] ==> r.value == Take(Streams.EntriesAfter(entries, old(groups)[name].lastId), count)
      ensures r.Some? && id != [GREATER] && count != Some(0) ==>
                r.value == Take(StreamRecords.Owed(entries, old(groups)[name].pending, consumer, RankOf(NormalizeId(id))), count)
    {
      if name !in groups {
        return None;
      }
      var g := EnsureConsumer(groups[name], consumer, now);
      var read: seq<Entry>;
      if id == [GREATER] {
        read := Undelivered(entries, g.lastId, count);
        if read != [] {
          g := g.(lastId := read[|read| - 1].id, readKnown := true);
        }
        if !noack {
          g := DeliverEach(g, read, consumer, now);
        }
      } else {
        ghost var before := ReadFrom(entries, groups[name], consumer, id, count, noack, now);
        if count != Some(0) {
          StreamRecords.RereadReturns(entries, groups[name], consumer, id, count, noack, now, before.0, before.1,
                                      RankOf(NormalizeId(id)));
        }
        var pending, from, es := [], NormalizeId(id), entries;
        pending, read := RedeliverEach(g.pending, (p: Pending) => p.consumer == consumer && CompareIds(p.id, from) >= 0,
                                       (i: Bytes) => EntryWithId(es, i), count, now);
        g := g.(pending := pending);
      }
      groups := groups[name := g];
      return Some(read);
    }

    /** The loop that moves entries to the pending list. */
    static method DeliverEach(g: Group, es: seq<Entry>, consumer: Bytes, now: int) returns (h: Group)
      ensures h == Deliver(g, es, consumer, now)
    {
      h := g;
      assert es[..0] == [];
      for i := 0 to |es|
        invariant h == Deliver(g, es[..i], consumer, now)
      {
        assert es[..i + 1][..i] == es[..i];
        h := DeliverOne(h, es[i], consumer, now);
      }
      assert es[..|es|] == es;
    }

    /** The loop over the pending list, with its early exit. */
    static method RedeliverEach(ps: seq<Pending>, wanted: Pending -> bool, entry: Bytes -> Option<Entry>,
                                count: Option<nat>, now: int)
      returns (pending: seq<Pending>, read: seq<Entry>)
      ensures Redelivery(pending, read) == Redeliver(ps, wanted, entry, count, now, 0)
    {
      pending, read := [], [];
      ghost var all := Redeliver(ps, wanted, entry, count, now, 0);
      var i := 0;
      while i < |ps|
        invariant i <= |ps|
        invariant all == Joined(pending, read, Redeliver(ps[i..], wanted, entry, count, now, |read|))
      {
        var p, more := ps[i], read;
        ghost var todo := ps[i..];
        assert todo[0] == p && todo[1..] == ps[i + 1..];
        if wanted(p) {
          var hit := entry(p.id);
          if hit.Some? {
            p := p.(deliveries := p.deliveries + 1, last := now);
            more := more + [hit.value];
          }
          if count.Some? && |more| >= count.value {
            RedeliverStops(pending, read, todo, wanted, entry, count, now, p, more);
            return pending + [p] + ps[i + 1..], more;
          }
          RedeliverTakes(pending, read, todo, wanted, entry, count, now, p, more);
        } else {
          RedeliverPasses(pending, read, todo, wanted, entry, count, now);
        }
        pending, read, i := pending + [p], more, i + 1;
      }
    }

    /** One turn of the loop: the owner is looked up before the ID goes. */
    static method AckId(g: Group, id: Bytes) returns (h: Group, acked: nat)
      ensures (h, acked) == AckOne(g, id)
    {
      h, acked := g, 0;
      var owner := Find(g.pending, (p: Pending) => p.id == id);
      var left := Keep(g.pending, (p: Pending) => p.id != id);
      if |left| < |g.pending| {
        acked := 1;
        if owner.Some? {
          h := h.(consumers := AddToCount(g.consumers, g.pending[owner.value].consumer, -1));
        }
      }
      h := h.(pending := left);
    }

    /** `ack`. */
    method Ack(name: Bytes, ids: seq<Bytes>) returns (count: nat)
      modifies this`groups
      ensures (Value(), count) == StreamGroups.Ack(old(Value()), name, ids)
    {
      if name !in groups {
        return 0;
      }
      var g := groups[name];
      count := 0;
      assert ids[..0] == [];
      for i := 0 to |ids|
        invariant groups == old(groups) && (g, count) == AckEach(groups[name], ids[..i])
      {
        assert ids[..i + 1][..i] == ids[..i];
        var acked;
        g, acked := AckId(g, ids[i]);
        count := count + acked;
      }
      assert ids[..|ids|] == ids;
      groups := groups[name := g];
    }
  }
}

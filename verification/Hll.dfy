/** HyperLogLog sketches: registers hold maxima, so a sketch is a property of the set of elements added. */
module Hll {
  import opened Bytes
  import opened Decimal
  import opened Powers

  const M: nat := 16384
  const TWO_50: nat := 0x4_0000_0000_0000

  // ── Register index and rank ──────────────────────────────────────────

  /** Number of zero bits above the highest one among the `width` low bits of `w`. */
  function LeadingZeros(w: nat, width: nat): (z: nat)
    ensures z <= width
  {
    if width == 0 || w >= Pow2(width - 1) then 0 else 1 + LeadingZeros(w, width - 1)
  }

  /** Top 14 bits select the register; the rest, shifted up with a stop bit at position 13, give the rank. */
  function GetPosVal(hash: U64): (r: (nat, nat))
    ensures r.0 < M
  {
    var w := hash * 16384 % TWO_64 + 8192;
    (hash / TWO_50, LeadingZeros(w, 64) + 1)
  }

  /** What leading zeros mean: the highest one sits just below them. */
  lemma {:induction false} LeadingZerosBound(w: nat, width: nat)
    requires 0 < w < Pow2(width)
    ensures LeadingZeros(w, width) < width
    ensures Pow2(width - 1 - LeadingZeros(w, width)) <= w < Pow2(width - LeadingZeros(w, width))
  {
    if w < Pow2(width - 1) { LeadingZerosBound(w, width - 1); }
  }

  lemma {:induction false} Pow2Add14(n: nat)
    ensures Pow2(n + 14) == 16384 * Pow2(n)
  {
    Pow2Add4(n + 10);
    Pow2Add4(n + 6);
    Pow2Add4(n + 2);
    assert Pow2(n + 2) == 2 * Pow2(n + 1);
  }

  lemma {:induction false} TwoTo13()
    ensures Pow2(13) == 8192 && Pow2(14) == 16384
  {
    Pow2Add14(0);
  }

  lemma {:induction false} ShiftedWord(hash: U64)
    ensures hash * 16384 % TWO_64 == hash % TWO_50 * 16384
  {
    var q, r := hash / TWO_50, hash % TWO_50;
    assert hash * 16384 == TWO_64 * q + r * 16384;
  }

  /** Nothing but the stop bit: all 50 bits are zero. */
  lemma {:induction false} ZerosOfStop()
    ensures LeadingZeros(8192, 64) == 50
  {
    var z := LeadingZeros(8192, 64);
    TwoTo13();
    TwoTo64();
    LeadingZerosBound(8192, 64);
    if z < 50 {
      Pow2Monotone(14, 63 - z);
    } else if z > 50 {
      Pow2Monotone(64 - z, 13);
    }
  }

  lemma {:induction false} WordIsShort(r: nat)
    requires 0 < r < TWO_50
    ensures 8192 < r * 16384 + 8192 < Pow2(64)
  {
    TwoTo64();
  }

  /** A word above the stop bit has its highest one there. */
  lemma {:induction false} HighWordZeros(w: nat, z: nat)
    requires z < 64 && Pow2(63 - z) <= w < Pow2(64 - z) && w >= 16384
    ensures z < 50
  {
    TwoTo13();
    if z >= 50 { Pow2Monotone(64 - z, 14); }
  }

  /** Above the stop bit, the zeros are those of the 50-bit word. */
  lemma {:induction false} ZerosOfWord(r: nat)
    requires 0 < r < TWO_50
    ensures var z := LeadingZeros(r * 16384 + 8192, 64); z < 50 && Pow2(49 - z) <= r < Pow2(50 - z)
  {
    var w := r * 16384 + 8192;
    var z := LeadingZeros(w, 64);
    WordIsShort(r);
    LeadingZerosBound(w, 64);
    HighWordZeros(w, z);
    Pow2Add14(49 - z);
    Pow2Add14(50 - z);
  }

  /**
   * The index is the top 14 bits. The rank is between 1 and 51: one more than the leading zeros of the low 50 bits, all
   * 50 when they are all zero.
   */
  lemma {:induction false} RankMeaning(hash: U64)
    ensures var (idx, rho) := GetPosVal(hash);
            && idx == hash / TWO_50 < M && 1 <= rho <= 51
            && (rho == 51 <==> hash % TWO_50 == 0)
            && (rho < 51 ==> Pow2(50 - rho) <= hash % TWO_50 < Pow2(51 - rho))
  {
    var r := hash % TWO_50;
    ShiftedWord(hash);
    if r == 0 {
      ZerosOfStop();
    } else {
      ZerosOfWord(r);
    }
  }

  // ── Sketches ─────────────────────────────────────────────────────────

  /** The hash function is a parameter: nothing below depends on how it mixes. */
  type Hash = Bytes -> U64

  /** One register for each value of the top 14 bits. */
  type Sketch = s: seq<nat> | |s| == M witness seq(M, _ => 0)

  function Empty(): (s: Sketch)
    ensures forall i :: 0 <= i < M ==> s[i] == 0
  {
    seq(M, _ => 0)
  }

  function Raise(s: Sketch, e: Bytes, hash: Hash): Sketch {
    var (idx, rho) := GetPosVal(hash(e));
    if rho > s[idx] then s[idx := rho] else s
  }

  function RaiseAll(s: Sketch, es: seq<Bytes>, hash: Hash): Sketch {
    if es == [] then s else Raise(RaiseAll(s, es[..|es| - 1], hash), es[|es| - 1], hash)
  }

  /** The sketch of a sequence of additions. */
  function SketchOf(es: seq<Bytes>, hash: Hash): Sketch {
    RaiseAll(Empty(), es, hash)
  }

  /** Adding to a sketch of some elements gives the sketch of those and the new ones. */
  lemma {:induction false} RaiseAllExtends(before: seq<Bytes>, items: seq<Bytes>, hash: Hash)
    ensures RaiseAll(SketchOf(before, hash), items, hash) == SketchOf(before + items, hash)
  {
    if items == [] {
      assert before + items == before;
    } else {
      RaiseAllExtends(before, items[..|items| - 1], hash);
      assert (before + items)[..|before + items| - 1] == before + items[..|items| - 1];
    }
  }

  function Merge(s: Sketch, t: Sketch): (r: Sketch)
    ensures forall i :: 0 <= i < M ==> r[i] == if t[i] > s[i] then t[i] else s[i]
  {
    seq(M, i requires 0 <= i < M => if t[i] > s[i] then t[i] else s[i])
  }

  ghost predicate Contributes(e: Bytes, i: nat, rho: nat, hash: Hash) {
    GetPosVal(hash(e)) == (i, rho)
  }

  /** `v` is the largest rank any element of `es` gives register `i`, or zero. */
  ghost predicate IsMax(v: nat, i: nat, es: set<Bytes>, hash: Hash) {
    && (forall e :: e in es && GetPosVal(hash(e)).0 == i ==> GetPosVal(hash(e)).1 <= v)
    && (v == 0 || exists e :: e in es && Contributes(e, i, v, hash))
  }

  /** Register by register, a sketch is the maximum over the set of elements added. */
  lemma {:induction false} SketchIsMax(es: seq<Bytes>, hash: Hash, i: nat)
    requires i < M
    ensures IsMax(SketchOf(es, hash)[i], i, Elements(es), hash)
  {
    if es != [] {
      var front, e := es[..|es| - 1], es[|es| - 1];
      SketchIsMax(front, hash, i);
      assert es == front + [e];
      assert Elements(es) == Elements(front) + {e};
      var v := SketchOf(front, hash)[i];
      var (idx, rho) := GetPosVal(hash(e));
      if idx == i && rho > v {
        assert Contributes(e, i, rho, hash);
      } else if v != 0 {
        var e' :| e' in Elements(front) && Contributes(e', i, v, hash);
        assert e' in Elements(es);
      }
    }
  }

  lemma {:induction false} MaxIsUnique(v: nat, w: nat, i: nat, es: set<Bytes>, hash: Hash)
    requires IsMax(v, i, es, hash) && IsMax(w, i, es, hash)
    ensures v == w
  {}

  /** Adding the same elements in any order and any number of times gives the same registers. */
  lemma {:induction false} SketchDependsOnSet(es: seq<Bytes>, fs: seq<Bytes>, hash: Hash)
    requires Elements(es) == Elements(fs)
    ensures SketchOf(es, hash) == SketchOf(fs, hash)
  {
    forall i | 0 <= i < M ensures SketchOf(es, hash)[i] == SketchOf(fs, hash)[i] {
      SketchIsMax(es, hash, i);
      SketchIsMax(fs, hash, i);
      MaxIsUnique(SketchOf(es, hash)[i], SketchOf(fs, hash)[i], i, Elements(es), hash);
    }
  }

  lemma {:induction false} MaxOfUnion(v: nat, w: nat, i: nat, a: set<Bytes>, b: set<Bytes>, hash: Hash)
    requires IsMax(v, i, a, hash) && IsMax(w, i, b, hash)
    ensures IsMax(if w > v then w else v, i, a + b, hash)
  {
    if w > v {
      var e :| e in b && Contributes(e, i, w, hash);
      assert e in a + b;
    } else if v != 0 {
      var e :| e in a && Contributes(e, i, v, hash);
      assert e in a + b;
    }
  }

  /** Merging two sketches is sketching everything that went into either. */
  lemma {:induction false} MergeIsSketchOfBoth(es: seq<Bytes>, fs: seq<Bytes>, hash: Hash)
    ensures Merge(SketchOf(es, hash), SketchOf(fs, hash)) == SketchOf(es + fs, hash)
  {
    assert Elements(es + fs) == Elements(es) + Elements(fs);
    var m := Merge(SketchOf(es, hash), SketchOf(fs, hash));
    forall i | 0 <= i < M ensures m[i] == SketchOf(es + fs, hash)[i] {
      SketchIsMax(es, hash, i);
      SketchIsMax(fs, hash, i);
      SketchIsMax(es + fs, hash, i);
      MaxOfUnion(SketchOf(es, hash)[i], SketchOf(fs, hash)[i], i, Elements(es), Elements(fs), hash);
      MaxIsUnique(m[i], SketchOf(es + fs, hash)[i], i, Elements(es + fs), hash);
    }
  }

  /** Registers never exceed 51. */
  lemma {:induction false} RegistersBounded(es: seq<Bytes>, hash: Hash, i: nat)
    requires i < M
    ensures SketchOf(es, hash)[i] <= 51
  {
    SketchIsMax(es, hash, i);
    var v := SketchOf(es, hash)[i];
    if v != 0 {
      var e :| e in Elements(es) && Contributes(e, i, v, hash);
      RankMeaning(hash(e));
    }
  }

  ghost predicate AtLeast(s: Sketch, t: Sketch) {
    |s| == |t| && forall k :: 0 <= k < |s| ==> s[k] <= t[k]
  }

  /** Registers only grow, so a change is never undone. */
  lemma {:induction false} RaiseGrows(s: Sketch, t: Sketch, e: Bytes, hash: Hash)
    requires AtLeast(s, t)
    ensures AtLeast(s, Raise(t, e, hash))
    ensures Raise(t, e, hash) != s <==> t != s || Raise(t, e, hash) != t
  {
    var r := Raise(t, e, hash);
    if t != s {
      var k :| 0 <= k < M && t[k] != s[k];
      assert r[k] >= t[k] > s[k];
    }
  }

  lemma {:induction false} SketchSnoc(before: seq<Bytes>, items: seq<Bytes>, i: nat, hash: Hash)
    requires i < |items|
    ensures SketchOf(before + items[..i + 1], hash) == Raise(SketchOf(before + items[..i], hash), items[i], hash)
  {
    assert (before + items[..i + 1])[..|before| + i] == before + items[..i];
  }

  // ── The structure that is updated in place ───────────────────────────

  class HyperLogLog {
    const registers: array<nat>

    ghost predicate Valid() {
      registers.Length == M
    }

    constructor ()
      ensures Valid() && fresh(registers) && registers[..] == Empty()
    {
      registers := new nat[M](_ => 0);
      new;
      assert registers[..] == Empty();
    }

    /** Returns whether the sketch changed. */
    method Add(element: Bytes, hash: Hash) returns (changed: bool)
      requires Valid()
      modifies registers
      ensures registers[..] == Raise(old(registers[..]), element, hash)
      ensures changed <==> registers[..] != old(registers[..])
    {
      var (idx, rho) := GetPosVal(hash(element));
      if rho > registers[idx] {
        registers[idx] := rho;
        assert registers[..][idx] != old(registers[..])[idx];
        return true;
      }
      changed := false;
    }

    /** Element-wise maximum; the borrow checker keeps the two sketches apart. */
    method MergeFrom(other: HyperLogLog)
      requires Valid() && other.Valid() && other.registers != registers
      modifies registers
      ensures registers[..] == Merge(old(registers[..]), other.registers[..])
    {
      for i := 0 to M
        invariant forall k :: 0 <= k < i ==> registers[k] == Merge(old(registers[..]), other.registers[..])[k]
        invariant forall k :: i <= k < M ==> registers[k] == old(registers[k])
      {
        if other.registers[i] > registers[i] {
          registers[i] := other.registers[i];
        }
      }
    }

    /** Adding a run of elements extends the sketch by them; the result tells whether anything changed. */
    method AddAll(items: seq<Bytes>, ghost before: seq<Bytes>, hash: Hash) returns (changed: bool)
      requires Valid() && registers[..] == SketchOf(before, hash)
      modifies registers
      ensures registers[..] == SketchOf(before + items, hash)
      ensures changed <==> registers[..] != old(registers[..])
    {
      changed := false;
      ghost var was := registers[..];
      assert before + items[..0] == before;
      for i := 0 to |items|
        invariant registers[..] == SketchOf(before + items[..i], hash)
        invariant changed <==> registers[..] != was
        invariant AtLeast(was, registers[..])
      {
        RaiseGrows(was, registers[..], items[i], hash);
        SketchSnoc(before, items, i, hash);
        var c := Add(items[i], hash);
        if c { changed := true; }
      }
      assert before + items[..|items|] == before + items;
    }
  }

  // ── PFCOUNT over several keys ────────────────────────────────────────

  /** Merging several sketches in turn, as the multi-key count does. */
  function MergeAll(ss: seq<Sketch>): Sketch {
    if ss == [] then Empty() else Merge(MergeAll(ss[..|ss| - 1]), ss[|ss| - 1])
  }

  /** The sketches that are there. */
  function Present(stored: seq<Option<Sketch>>): seq<Sketch> {
    if stored == [] then []
    else
      var last := stored[|stored| - 1];
      Present(stored[..|stored| - 1]) + if last.None? then [] else [last.value]
  }

  /** PFCOUNT: one key is counted directly, several through their merge. */
  function CountKeys(stored: seq<Option<Sketch>>, count: Sketch -> nat): nat {
    if |stored| == 1 then (if stored[0].None? then 0 else count(stored[0].value))
    else count(MergeAll(Present(stored)))
  }

  /** The direct path for one key agrees with the merge path exactly when the key exists or an empty sketch counts zero. */
  lemma {:induction false} SingleKeyAgrees(stored: Option<Sketch>, count: Sketch -> nat)
    ensures CountKeys([stored], count) == count(MergeAll(Present([stored]))) <==> stored.Some? || count(Empty()) == 0
  {
    assert [stored][..0] == [] && Present([]) == [];
    if stored.Some? {
      assert Present([stored]) == [stored.value] && [stored.value][..0] == [];
      assert Merge(Empty(), stored.value) == stored.value;
    }
  }

  function Concat(ess: seq<seq<Bytes>>): seq<Bytes> {
    if ess == [] then [] else Concat(ess[..|ess| - 1]) + ess[|ess| - 1]
  }

  function Sketches(ess: seq<seq<Bytes>>, hash: Hash): (ss: seq<Sketch>)
    ensures |ss| == |ess| && forall i :: 0 <= i < |ss| ==> ss[i] == SketchOf(ess[i], hash)
  {
    seq(|ess|, i requires 0 <= i < |ess| => SketchOf(ess[i], hash))
  }

  /** What a multi-key count looks at is the sketch of all the elements of all the keys. */
  lemma {:induction false} MergeAllIsSketchOfAll(ess: seq<seq<Bytes>>, hash: Hash)
    ensures MergeAll(Sketches(ess, hash)) == SketchOf(Concat(ess), hash)
  {
    if ess != [] {
      var front := ess[..|ess| - 1];
      MergeAllIsSketchOfAll(front, hash);
      assert Sketches(ess, hash)[..|ess| - 1] == Sketches(front, hash);
      MergeIsSketchOfBoth(Concat(front), ess[|ess| - 1], hash);
    }
  }
}

/** The sorted environment index behind executable lookup: sort, drop duplicates in place, binary search. */
module Environ {
  import opened Bytes

  // ── Strings ──────────────────────────────────────────────────────────

  /** `strings.Compare`: byte-wise lexicographic order, as -1, 0 or 1. */
  function Compare(a: Bytes, b: Bytes): (c: int)
    ensures -1 <= c <= 1 && (c == 0 <==> a == b)
  {
    if a == [] then (if b == [] then 0 else -1)
    else if b == [] then 1
    else if a[0] < b[0] then -1
    else if a[0] > b[0] then 1
    else
      assert a == [a[0]] + a[1..] && b == [b[0]] + b[1..];
      Compare(a[1..], b[1..])
  }

  lemma {:induction false} CompareFlips(a: Bytes, b: Bytes)
    ensures Compare(a, b) == -Compare(b, a)
  {
    if a != [] && b != [] && a[0] == b[0] { CompareFlips(a[1..], b[1..]); }
  }

  lemma {:induction false} CompareTrans(a: Bytes, b: Bytes, c: Bytes)
    requires Compare(a, b) <= 0 && Compare(b, c) <= 0
    ensures Compare(a, c) <= 0
    ensures Compare(a, b) < 0 || Compare(b, c) < 0 ==> Compare(a, c) < 0
  {
    if a != [] && b != [] && c != [] && a[0] == b[0] && b[0] == c[0] { CompareTrans(a[1..], b[1..], c[1..]); }
  }

  /** `a` stops, or has the smaller byte, where the two first differ. */
  predicate SmallerAt(a: Bytes, b: Bytes, i: nat) {
    i <= |a| && i < |b| && a[..i] == b[..i] && (i == |a| || a[i] < b[i])
  }

  /** The order is that of a dictionary. */
  lemma {:induction false} CompareMeans(a: Bytes, b: Bytes)
    ensures Compare(a, b) < 0 <==> exists i: nat :: SmallerAt(a, b, i)
  {
    if a == [] || b == [] || a[0] != b[0] {
      assert SmallerAt(a, b, 0) <==> Compare(a, b) < 0;
      forall i: nat | i > 0 ensures !SmallerAt(a, b, i) {
        if i <= |a| && i <= |b| { assert a[..i][0] == a[0] && b[..i][0] == b[0]; }
      }
    } else {
      CompareMeans(a[1..], b[1..]);
      forall i: nat ensures SmallerAt(a[1..], b[1..], i) <==> SmallerAt(a, b, i + 1) { SmallerNext(a, b, i); }
      assert !SmallerAt(a, b, 0);
      assert forall i: nat :: SmallerAt(a, b, i) ==> SmallerAt(a[1..], b[1..], i - 1);
    }
  }

  lemma {:induction false} SmallerNext(a: Bytes, b: Bytes, i: nat)
    requires a != [] && b != [] && a[0] == b[0]
    ensures SmallerAt(a[1..], b[1..], i) <==> SmallerAt(a, b, i + 1)
  {
    if i < |a| && i < |b| {
      assert a[..i + 1] == [a[0]] + a[1..][..i] && b[..i + 1] == [b[0]] + b[1..][..i];
      assert a[1..][..i] == a[..i + 1][1..] && b[1..][..i] == b[..i + 1][1..];
    }
  }

  // ── Environment strings ──────────────────────────────────────────────

  /** A pair is valid when its first `=` is not its first byte. */
  predicate ValidPair(s: Bytes) {
    var sep := IndexByte(s, EQUALS);
    sep.Some? && sep.value > 0
  }

  function Name(s: Bytes): Bytes
    requires ValidPair(s)
  {
    s[..IndexByte(s, EQUALS).value]
  }

  /** The sort key: everything up to and including the first `=`, nothing if there is none. */
  function Key(s: Bytes): Bytes {
    match IndexByte(s, EQUALS)
    case None => []
    case Some(i) => s[..i + 1]
  }

  /** What the index is for: the value of the last valid pair with the given name, or nothing. */
  function LastValue(pairs: seq<Bytes>, name: Bytes): Bytes {
    if pairs == [] then []
    else
      var s := pairs[|pairs| - 1];
      if ValidPair(s) && Name(s) == name then s[|name| + 1..]
      else LastValue(pairs[..|pairs| - 1], name)
  }

  lemma {:induction false} KeyOfValid(s: Bytes)
    requires ValidPair(s)
    ensures Key(s) == Name(s) + [EQUALS] && EQUALS !in Name(s) && Name(s) != []
  {}

  /** A valid pair has the name `n` exactly when its key is `n=`. */
  lemma {:induction false} NameFromKey(s: Bytes, n: Bytes)
    ensures n != [] && EQUALS !in n ==> (Key(s) == n + [EQUALS] <==> ValidPair(s) && Name(s) == n)
  {
    if n != [] && EQUALS !in n && Key(s) == n + [EQUALS] {
      var i := IndexByte(s, EQUALS).value;
      assert s[..i] == Key(s)[..i] == n;
    }
  }

  // ── Stable sort ──────────────────────────────────────────────────────

  ghost predicate Sorted(s: seq<Bytes>) {
    forall i, j :: 0 <= i < j < |s| ==> Compare(Key(s[i]), Key(s[j])) <= 0
  }

  /** The elements with key `k`, in order. */
  function Only(s: seq<Bytes>, k: Bytes): seq<Bytes> {
    if s == [] then []
    else Only(s[..|s| - 1], k) + if Key(s[|s| - 1]) == k then [s[|s| - 1]] else []
  }

  ghost predicate SameRuns(r: seq<Bytes>, q: seq<Bytes>) {
    forall k :: Only(r, k) == Only(q, k)
  }

  /** The documented contract of a stable sort. */
  ghost predicate IsStableSort(r: seq<Bytes>, s: seq<Bytes>) {
    Sorted(r) && SameRuns(r, s)
  }

  function Insert(r: seq<Bytes>, x: Bytes): (q: seq<Bytes>)
    ensures |q| == |r| + 1
  {
    if r == [] || Compare(Key(r[|r| - 1]), Key(x)) <= 0 then r + [x]
    else Insert(r[..|r| - 1], x) + [r[|r| - 1]]
  }

  function StableSort(s: seq<Bytes>): (r: seq<Bytes>)
    ensures |r| == |s|
  {
    if s == [] then [] else Insert(StableSort(s[..|s| - 1]), s[|s| - 1])
  }

  lemma {:induction false} OnlySnoc(s: seq<Bytes>, x: Bytes, k: Bytes)
    ensures Only(s + [x], k) == Only(s, k) + if Key(x) == k then [x] else []
  {
    assert (s + [x])[..|s|] == s;
  }

  lemma {:induction false} InsertOnly(r: seq<Bytes>, x: Bytes, k: Bytes)
    requires Sorted(r)
    ensures Only(Insert(r, x), k) == Only(r, k) + if Key(x) == k then [x] else []
  {
    if r == [] || Compare(Key(r[|r| - 1]), Key(x)) <= 0 {
      OnlySnoc(r, x, k);
    } else {
      var front, last := r[..|r| - 1], r[|r| - 1];
      InsertOnly(front, x, k);
      OnlySnoc(Insert(front, x), last, k);
    }
  }

  lemma {:induction false} InsertBelow(r: seq<Bytes>, x: Bytes, k: Bytes)
    requires forall i :: 0 <= i < |r| ==> Compare(Key(r[i]), k) <= 0
    requires Compare(Key(x), k) <= 0
    ensures forall i :: 0 <= i < |r| + 1 ==> Compare(Key(Insert(r, x)[i]), k) <= 0
  {
    if !(r == [] || Compare(Key(r[|r| - 1]), Key(x)) <= 0) { InsertBelow(r[..|r| - 1], x, k); }
  }

  lemma {:induction false} SnocSorted(r: seq<Bytes>, x: Bytes)
    requires Sorted(r) && forall i :: 0 <= i < |r| ==> Compare(Key(r[i]), Key(x)) <= 0
    ensures Sorted(r + [x])
  {}

  lemma {:induction false} LastIsHighest(r: seq<Bytes>, x: Bytes, i: nat)
    requires Sorted(r) && i < |r| && Compare(Key(r[|r| - 1]), Key(x)) <= 0
    ensures Compare(Key(r[i]), Key(x)) <= 0
  {
    if i < |r| - 1 {
      CompareTrans(Key(r[i]), Key(r[|r| - 1]), Key(x));
    }
  }

  lemma {:induction false} InsertSorted(r: seq<Bytes>, x: Bytes)
    requires Sorted(r)
    ensures Sorted(Insert(r, x))
  {
    if r == [] {
    } else if Compare(Key(r[|r| - 1]), Key(x)) <= 0 {
      forall i | 0 <= i < |r| ensures Compare(Key(r[i]), Key(x)) <= 0 {
        LastIsHighest(r, x, i);
      }
      SnocSorted(r, x);
    } else {
      var front, last := r[..|r| - 1], r[|r| - 1];
      InsertSorted(front, x);
      CompareFlips(Key(last), Key(x));
      InsertBelow(front, x, Key(last));
      SnocSorted(Insert(front, x), last);
    }
  }

  lemma {:induction false} StableSortIsOne(s: seq<Bytes>)
    ensures IsStableSort(StableSort(s), s)
  {
    if s != [] {
      var front, x := s[..|s| - 1], s[|s| - 1];
      StableSortIsOne(front);
      InsertSorted(StableSort(front), x);
      forall k ensures Only(StableSort(s), k) == Only(s, k) {
        InsertOnly(StableSort(front), x, k);
      }
    }
  }

  lemma {:induction false} OnlyMember(s: seq<Bytes>, i: nat)
    requires i < |s|
    ensures Only(s, Key(s[i])) != []
  {
    if i < |s| - 1 { OnlyMember(s[..|s| - 1], i); }
  }

  lemma {:induction false} OnlyWitness(s: seq<Bytes>, k: Bytes) returns (i: nat)
    requires Only(s, k) != []
    ensures i < |s| && Key(s[i]) == k
  {
    if Key(s[|s| - 1]) == k { i := |s| - 1; } else { i := OnlyWitness(s[..|s| - 1], k); }
  }

  lemma {:induction false} SameLast(r: seq<Bytes>, q: seq<Bytes>)
    requires r != [] && q != [] && Sorted(r) && Sorted(q) && SameRuns(r, q)
    ensures r[|r| - 1] == q[|q| - 1]
  {
    var x, y := r[|r| - 1], q[|q| - 1];
    LargestKey(r, q);
    LargestKey(q, r);
    CompareFlips(Key(x), Key(y));
    var o := Only(r, Key(x));
    assert o == Only(q, Key(x));
    assert o[|o| - 1] == x && o[|o| - 1] == y;
  }

  lemma {:induction false} SameFronts(r: seq<Bytes>, q: seq<Bytes>)
    requires r != [] && q != [] && SameRuns(r, q) && r[|r| - 1] == q[|q| - 1]
    ensures SameRuns(r[..|r| - 1], q[..|q| - 1])
  {
    var r', q', x := r[..|r| - 1], q[..|q| - 1], r[|r| - 1];
    forall k ensures Only(r', k) == Only(q', k) {
      assert Only(r, k) == Only(q, k);
      var tail := if Key(x) == k then [x] else [];
      assert (Only(r', k) + tail)[..|Only(r', k)|] == Only(r', k);
      assert (Only(q', k) + tail)[..|Only(q', k)|] == Only(q', k);
    }
  }

  /** The contract leaves no freedom: every stable sort returns the same list. */
  lemma {:induction false} StableSortUnique(r: seq<Bytes>, q: seq<Bytes>)
    requires Sorted(r) && Sorted(q) && SameRuns(r, q)
    ensures r == q
  {
    if r == [] || q == [] {
      if r != [] { OnlyMember(r, 0); }
      if q != [] { OnlyMember(q, 0); }
    } else {
      SameLast(r, q);
      SameFronts(r, q);
      StableSortUnique(r[..|r| - 1], q[..|q| - 1]);
      assert r == r[..|r| - 1] + [r[|r| - 1]] && q == q[..|q| - 1] + [q[|q| - 1]];
    }
  }

  lemma {:induction false} LargestKey(r: seq<Bytes>, q: seq<Bytes>)
    requires r != [] && q != [] && Sorted(q) && SameRuns(r, q)
    ensures Compare(Key(r[|r| - 1]), Key(q[|q| - 1])) <= 0
  {
    OnlyMember(r, |r| - 1);
    var i := OnlyWitness(q, Key(r[|r| - 1]));
    if i < |q| - 1 { assert Compare(Key(q[i]), Key(q[|q| - 1])) <= 0; }
  }

  // ── Dropping invalid and superseded pairs ────────────────────────────

  /** One step of the clean-up: skip an invalid pair, let a pair of the same name replace the last one kept. */
  function Extend(d: seq<Bytes>, x: Bytes): (r: seq<Bytes>)
    requires forall i :: 0 <= i < |d| ==> ValidPair(d[i])
    ensures forall i :: 0 <= i < |r| ==> ValidPair(r[i])
  {
    if !ValidPair(x) then d
    else if d != [] && Name(d[|d| - 1]) == Name(x) then d[..|d| - 1] + [x]
    else d + [x]
  }

  /** What the clean-up keeps of a sorted list. */
  function Distinct(s: seq<Bytes>): (d: seq<Bytes>)
    ensures forall i :: 0 <= i < |d| ==> ValidPair(d[i])
  {
    if s == [] then [] else Extend(Distinct(s[..|s| - 1]), s[|s| - 1])
  }

  lemma {:induction false} DistinctStep(sorted: seq<Bytes>, done: nat)
    requires done < |sorted|
    ensures Distinct(sorted[..done + 1]) == Extend(Distinct(sorted[..done]), sorted[done])
    ensures sorted[done..] == [sorted[done]] + sorted[done + 1..]
  {
    assert sorted[..done + 1][..done] == sorted[..done];
  }

  /** Removing element `i`, or the one before it, or nothing: each case leaves the extended list in front of the rest. */
  lemma {:induction false} Splice(kept: seq<Bytes>, s: Bytes, rest: seq<Bytes>, list: seq<Bytes>, i: nat)
    requires forall j :: 0 <= j < |kept| ==> ValidPair(kept[j])
    requires list == kept + ([s] + rest) && i == |kept|
    ensures list[i] == s
    ensures !ValidPair(s) ==> list[..i] + list[i + 1..] == Extend(kept, s) + rest
    ensures ValidPair(s) && i > 0 && Name(kept[i - 1]) == Name(s) ==>
              list[..i - 1] + list[i..] == Extend(kept, s) + rest && |Extend(kept, s)| == i
    ensures ValidPair(s) && (i == 0 || Name(kept[i - 1]) != Name(s)) ==>
              list == Extend(kept, s) + rest && |Extend(kept, s)| == i + 1
    ensures ValidPair(s) ==> Name(Extend(kept, s)[|Extend(kept, s)| - 1]) == Name(s)
  {
    assert list[..i] == kept && list[i..] == [s] + rest && list[i + 1..] == rest;
    if i > 0 { assert list[..i - 1] == kept[..i - 1]; }
  }

  /** The in-place loop: `append(list[:i], list[i+1:]...)` and `append(list[:i-1], list[i:]...)`. */
  method DropSuperseded(sorted: seq<Bytes>) returns (list: seq<Bytes>)
    ensures list == Distinct(sorted)
  {
    list := sorted;
    var last: Bytes := [];
    var i: nat := 0;
    ghost var done: nat, kept: seq<Bytes> := 0, [];
    while i < |list|
      invariant done <= |sorted| && kept == Distinct(sorted[..done]) && |kept| == i
      invariant list == kept + sorted[done..]
      invariant last == if i == 0 then [] else Name(kept[i - 1])
      decreases |sorted| - done
    {
      var s := list[i];
      DistinctStep(sorted, done);
      Splice(kept, sorted[done], sorted[done + 1..], list, i);
      done, kept := done + 1, Extend(kept, s);
      var sep := IndexByte(s, EQUALS);
      if sep.None? || sep.value == 0 {
        list := list[..i] + list[i + 1..];
      } else {
        var name := s[..sep.value];
        if last == name {
          list := list[..i - 1] + list[i..];
        } else {
          last := name;
          i := i + 1;
        }
      }
    }
    assert sorted[..done] == sorted;
  }

  /** Strictly increasing keys. */
  ghost predicate Indexed(d: seq<Bytes>) {
    && (forall i :: 0 <= i < |d| ==> ValidPair(d[i]))
    && (forall i, j :: 0 <= i < j < |d| ==> Compare(Key(d[i]), Key(d[j])) < 0)
  }

  lemma {:induction false} DistinctFrom(s: seq<Bytes>, i: nat)
    requires i < |Distinct(s)|
    ensures Distinct(s)[i] in s
  {
    var d := Distinct(s[..|s| - 1]);
    if i < |d| && Distinct(s)[i] == d[i] { DistinctFrom(s[..|s| - 1], i); }
  }

  /** Pairs with the same key have the same name. */
  lemma {:induction false} SameKeySameName(x: Bytes, y: Bytes)
    requires ValidPair(x) && ValidPair(y)
    ensures Key(x) == Key(y) <==> Name(x) == Name(y)
  {
    KeyOfValid(x);
    KeyOfValid(y);
    assert (Name(y) + [EQUALS])[..|Name(y)|] == Name(y) && (Name(x) + [EQUALS])[..|Name(x)|] == Name(x);
  }

  lemma {:induction false} IndexedSnoc(d: seq<Bytes>, x: Bytes)
    requires Indexed(d) && ValidPair(x) && forall i :: 0 <= i < |d| ==> Compare(Key(d[i]), Key(x)) < 0
    ensures Indexed(d + [x])
  {
    var e := d + [x];
    forall i, j | 0 <= i < j < |e| ensures Compare(Key(e[i]), Key(e[j])) < 0 {
      assert e[i] == d[i];
      if j < |d| { assert e[j] == d[j]; }
    }
  }

  lemma {:induction false} BelowAll(d: seq<Bytes>, x: Bytes, i: nat)
    requires d != [] && Indexed(d) && Compare(Key(d[|d| - 1]), Key(x)) <= 0 && i < |d| - 1
    ensures Compare(Key(d[i]), Key(x)) < 0
  {
    CompareTrans(Key(d[i]), Key(d[|d| - 1]), Key(x));
  }

  lemma {:induction false} ExtendIndexed(d: seq<Bytes>, x: Bytes)
    requires Indexed(d)
    requires d != [] ==> Compare(Key(d[|d| - 1]), Key(x)) <= 0
    ensures Indexed(Extend(d, x))
  {
    if ValidPair(x) {
      if d == [] {
        IndexedSnoc(d, x);
      } else {
        var front := d[..|d| - 1];
        forall i | 0 <= i < |front| ensures Compare(Key(front[i]), Key(x)) < 0 {
          BelowAll(d, x, i);
        }
        SameKeySameName(x, d[|d| - 1]);
        if Name(d[|d| - 1]) == Name(x) {
          IndexedSnoc(front, x);
        } else {
          assert forall i :: 0 <= i < |d| - 1 ==> d[i] == front[i];
          IndexedSnoc(d, x);
        }
      }
    }
  }

  lemma {:induction false} SortedFront(s: seq<Bytes>, e: Bytes)
    requires s != [] && Sorted(s) && e in s[..|s| - 1]
    ensures Compare(Key(e), Key(s[|s| - 1])) <= 0
  {
    var i :| 0 <= i < |s| - 1 && s[i] == e;
  }

  ghost predicate LastBelow(d: seq<Bytes>, x: Bytes) {
    d != [] ==> Compare(Key(d[|d| - 1]), Key(x)) <= 0
  }

  lemma {:induction false} LastKeptBelow(s: seq<Bytes>)
    requires s != [] && Sorted(s)
    ensures LastBelow(Distinct(s[..|s| - 1]), s[|s| - 1])
  {
    var d := Distinct(s[..|s| - 1]);
    if d != [] {
      DistinctFrom(s[..|s| - 1], |d| - 1);
      SortedFront(s, d[|d| - 1]);
    }
  }

  lemma {:induction false} DistinctIndexed(s: seq<Bytes>)
    requires Sorted(s)
    ensures Indexed(Distinct(s))
  {
    if s != [] {
      DistinctIndexed(s[..|s| - 1]);
      LastKeptBelow(s);
      ExtendIndexed(Distinct(s[..|s| - 1]), s[|s| - 1]);
    }
  }

  /** The last element of a run, if the run is not empty. */
  function LastOf(s: seq<Bytes>): Option<Bytes> {
    if s == [] then None else Some(s[|s| - 1])
  }

  /** The value of a pair of the given name. */
  function ValueIn(e: Option<Bytes>, n: Bytes): Bytes {
    if e.Some? && |e.value| > |n| then e.value[|n| + 1..] else []
  }

  function AtMostOne(x: Option<Bytes>): seq<Bytes> {
    if x.None? then [] else [x.value]
  }

  /** In an indexed list a key that is not above the last one's occurs only there. */
  lemma {:induction false} OnlyAtTheEnd(d: seq<Bytes>, k: Bytes)
    requires d != [] && Indexed(d) && Compare(Key(d[|d| - 1]), k) <= 0
    ensures Key(d[|d| - 1]) != k ==> Only(d, k) == []
    ensures Only(d[..|d| - 1], k) == []
  {
    if Only(d[..|d| - 1], k) != [] {
      var i := OnlyWitness(d[..|d| - 1], k);
      CompareTrans(Key(d[i]), Key(d[|d| - 1]), k);
    }
  }

  lemma {:induction false} ExtendOnly(d: seq<Bytes>, x: Bytes, n: Bytes)
    requires Indexed(d) && n != [] && EQUALS !in n
    requires d != [] ==> Compare(Key(d[|d| - 1]), Key(x)) <= 0
    ensures Only(Extend(d, x), n + [EQUALS]) == if Key(x) == n + [EQUALS] then [x] else Only(d, n + [EQUALS])
  {
    var k := n + [EQUALS];
    NameFromKey(x, n);
    if ValidPair(x) {
      if d == [] {
        OnlySnoc(d, x, k);
      } else {
        var front, y := d[..|d| - 1], d[|d| - 1];
        SameKeySameName(x, y);
        assert d == front + [y];
        OnlySnoc(front, y, k);
        OnlySnoc(front, x, k);
        OnlySnoc(d, x, k);
        if Key(x) == k { OnlyAtTheEnd(d, k); }
      }
    }
  }

  /** Clean-up keeps, for every valid name, exactly the last pair with it. */
  lemma {:induction false} DistinctKeepsLast(s: seq<Bytes>, n: Bytes)
    requires Sorted(s) && n != [] && EQUALS !in n
    ensures Only(Distinct(s), n + [EQUALS]) == AtMostOne(LastOf(Only(s, n + [EQUALS])))
  {
    if s != [] {
      var front, x := s[..|s| - 1], s[|s| - 1];
      DistinctKeepsLast(front, n);
      DistinctIndexed(front);
      LastKeptBelow(s);
      ExtendOnly(Distinct(front), x, n);
    }
  }

  // ── Building the index ───────────────────────────────────────────────

  /** Upper-cases the name of a pair; `up` is the platform's case mapping. */
  function UpperName(s: Bytes, up: Bytes -> Bytes): Bytes {
    if ValidPair(s) then up(Name(s)) + s[|Name(s)|..] else s
  }

  function UpperNames(pairs: seq<Bytes>, up: Bytes -> Bytes): (r: seq<Bytes>)
    ensures |r| == |pairs| && forall i :: 0 <= i < |r| ==> r[i] == UpperName(pairs[i], up)
  {
    seq(|pairs|, i requires 0 <= i < |pairs| => UpperName(pairs[i], up))
  }

  function BuildIndex(pairs: seq<Bytes>): seq<Bytes> {
    Distinct(StableSort(pairs))
  }

  /** The library sort, by its contract. */
  method SortStable(s: seq<Bytes>) returns (r: seq<Bytes>)
    ensures r == StableSort(s) && IsStableSort(r, s)
  {
    r := [];
    for i := 0 to |s|
      invariant r == StableSort(s[..i])
    {
      assert s[..i + 1][..i] == s[..i];
      r := Insert(r, s[i]);
    }
    assert s[..|s|] == s;
    StableSortIsOne(s);
  }

  /** `listEnvironWithUpper`; `up` is `None` when names keep their case. */
  method ListEnviron(pairs: seq<Bytes>, up: Option<Bytes -> Bytes>) returns (list: seq<Bytes>)
    ensures list == BuildIndex(if up.None? then pairs else UpperNames(pairs, up.value))
    ensures Indexed(list)
  {
    list := pairs;
    if up.Some? {
      for i := 0 to |list|
        invariant |list| == |pairs|
        invariant forall k :: 0 <= k < i ==> list[k] == UpperName(pairs[k], up.value)
        invariant forall k :: i <= k < |list| ==> list[k] == pairs[k]
      {
        var s := list[i];
        var sep := IndexByte(s, EQUALS);
        if sep.Some? && sep.value > 0 {
          list := list[i := up.value(s[..sep.value]) + s[sep.value..]];
        }
      }
      assert list == UpperNames(pairs, up.value);
    }
    list := SortStable(list);
    DistinctIndexed(list);
    list := DropSuperseded(list);
  }

  // ── Looking a name up ────────────────────────────────────────────────

  /** The comparison `Get` hands to the binary search. */
  function CompareEntry(l: Bytes, name: Bytes): (c: int)
    ensures -1 <= c <= 1
  {
    if |l| < |name| + 1 then Compare(l, name)
    else
      var c := Compare(l[..|name|], name);
      if c == 0 then (if l[|name|] < EQUALS then -1 else if l[|name|] > EQUALS then 1 else 0) else c
  }

  /** Where a binary search ends that goes right while `below` holds in the middle. */
  function Search(below: nat -> bool, lo: nat, hi: nat): (i: nat)
    requires lo <= hi
    ensures lo <= i <= hi
    decreases hi - lo
  {
    if lo == hi then lo
    else
      var h := (lo + hi) / 2;
      if below(h) then Search(below, h + 1, hi) else Search(below, lo, h)
  }

  function BelowName(l: seq<Bytes>, name: Bytes): nat -> bool {
    (h: nat) => h < |l| && CompareEntry(l[h], name) < 0
  }

  /** `None` is the out-of-range slice `l[i][endpos:]` of an entry that is too short. */
  function GetResult(l: seq<Bytes>, name: Bytes): Option<Bytes> {
    var i := Search(BelowName(l, name), 0, |l|);
    if i < |l| && CompareEntry(l[i], name) == 0 then
      if |name| + 1 <= |l[i]| then Some(l[i][|name| + 1..]) else None
    else Some([])
  }

  method Get(l: seq<Bytes>, name: Bytes) returns (value: Option<Bytes>)
    ensures value == GetResult(l, name)
  {
    var i: nat, j: nat := 0, |l|;
    while i < j
      invariant i <= j <= |l|
      invariant Search(BelowName(l, name), i, j) == Search(BelowName(l, name), 0, |l|)
    {
      var h := (i + j) / 2;
      if CompareEntry(l[h], name) < 0 { i := h + 1; } else { j := h; }
    }
    if i < |l| && CompareEntry(l[i], name) == 0 {
      if |name| + 1 > |l[i]| { return None; }
      return Some(l[i][|name| + 1..]);
    }
    value := Some([]);
  }

  /** On a valid entry and a name without `=`, the comparison is that of the keys. */
  lemma {:induction false} EntryOrder(l: Bytes, name: Bytes)
    requires ValidPair(l) && EQUALS !in name
    ensures CompareEntry(l, name) == Compare(Key(l), name + [EQUALS])
  {
    KeyOfValid(l);
    EntryOrderFrom(l, Name(l), name);
  }

  /** `l` starts with the `=`-free `n` and a `=`; comparing it with `name=` is settled within its key. */
  lemma {:induction false} EntryOrderFrom(l: Bytes, n: Bytes, name: Bytes)
    requires |n| < |l| && l[..|n|] == n && l[|n|] == EQUALS && EQUALS !in n && EQUALS !in name
    ensures CompareEntry(l, name) == Compare(n + [EQUALS], name + [EQUALS])
  {
    var k, m := n + [EQUALS], name + [EQUALS];
    if n == [] || name == [] || n[0] != name[0] {
      if n != [] { assert l[0] == l[..|n|][0]; }
      if name != [] && |l| >= |name| + 1 { assert l[..|name|][0] == l[0]; }
    } else {
      assert l[0] == l[..|n|][0];
      var l', n', name' := l[1..], n[1..], name[1..];
      assert l'[..|n'|] == n' by { assert l'[..|n'|] == l[..|n|][1..]; }
      EntryOrderFrom(l', n', name');
      assert k[1..] == n' + [EQUALS] && m[1..] == name' + [EQUALS];
      if |l| >= |name| + 1 { assert l[..|name|][1..] == l'[..|name'|]; }
    }
  }

  /** Where the places below come first, the search finds the first of the others. */
  lemma {:induction false} SearchIsLowerBound(below: nat -> bool, j: nat, lo: nat, hi: nat)
    requires lo <= j <= hi
    requires forall i: nat :: lo <= i < j ==> below(i)
    requires forall i: nat :: j <= i < hi ==> !below(i)
    ensures Search(below, lo, hi) == j
    decreases hi - lo
  {
    if lo < hi {
      var h := (lo + hi) / 2;
      if below(h) {
        SearchIsLowerBound(below, j, h + 1, hi);
      } else {
        SearchIsLowerBound(below, j, lo, h);
      }
    }
  }

  /** An entry before one with the wanted key is below the name, and one after it is not. */
  lemma {:induction false} BelowExactlyBefore(l: seq<Bytes>, name: Bytes, i: nat, j: nat)
    requires Indexed(l) && EQUALS !in name && i < |l| && j < |l| && Key(l[j]) == name + [EQUALS]
    ensures BelowName(l, name)(i) <==> i < j
  {
    EntryOrder(l[i], name);
    if i < j {
      assert Compare(Key(l[i]), Key(l[j])) < 0;
    } else if j < i {
      CompareFlips(Key(l[i]), Key(l[j]));
    } else {
      }
  }

  /** An entry with the wanted key is where the search ends. */
  lemma {:induction false} FoundAt(l: seq<Bytes>, name: Bytes, j: nat)
    requires Indexed(l) && EQUALS !in name && j < |l| && Key(l[j]) == name + [EQUALS]
    ensures Search(BelowName(l, name), 0, |l|) == j && CompareEntry(l[j], name) == 0
  {
    var below := BelowName(l, name);
    forall i: nat | i < |l| ensures below(i) <==> i < j {
      BelowExactlyBefore(l, name, i, j);
    }
    SearchIsLowerBound(below, j, 0, |l|);
    EntryOrder(l[j], name);
  }

  /** The search ends at the entry with the wanted key whenever there is one. */
  lemma {:induction false} SearchHits(l: seq<Bytes>, name: Bytes)
    requires Indexed(l) && EQUALS !in name
    ensures var i := Search(BelowName(l, name), 0, |l|);
            Only(l, name + [EQUALS]) == if i < |l| && CompareEntry(l[i], name) == 0 then [l[i]] else []
  {
    var k, i := name + [EQUALS], Search(BelowName(l, name), 0, |l|);
    if Only(l, k) != [] {
      var j := OnlyWitness(l, k);
      OnlyOne(l, j);
      FoundAt(l, name, j);
    } else if i < |l| && CompareEntry(l[i], name) == 0 {
      EntryOrder(l[i], name);
      OnlyMember(l, i);
    }
  }

  /** `Get` on an index returns the value of the entry with that name, or nothing. */
  lemma {:induction false} GetFinds(l: seq<Bytes>, name: Bytes)
    requires Indexed(l) && EQUALS !in name
    ensures GetResult(l, name) == Some(ValueIn(LastOf(Only(l, name + [EQUALS])), name))
  {
    SearchHits(l, name);
    var i := Search(BelowName(l, name), 0, |l|);
    if i < |l| {
      EntryOrder(l[i], name);
      assert |l[i]| >= |Key(l[i])|;
    }
  }

  lemma {:induction false} OnlyOne(l: seq<Bytes>, i: nat)
    requires Indexed(l) && i < |l|
    ensures Only(l, Key(l[i])) == [l[i]]
  {
    var front, last := l[..|l| - 1], l[|l| - 1];
    if i == |l| - 1 {
      if Only(front, Key(last)) != [] {
        var j := OnlyWitness(front, Key(last));
      }
    } else {
      OnlyOne(front, i);
    }
  }

  /** Read off a list, the last value of a name is that of the last pair with its key. */
  lemma {:induction false} LastValueFromRun(s: seq<Bytes>, n: Bytes)
    requires n != [] && EQUALS !in n
    ensures LastValue(s, n) == ValueIn(LastOf(Only(s, n + [EQUALS])), n)
  {
    if s != [] {
      LastValueFromRun(s[..|s| - 1], n);
      NameFromKey(s[|s| - 1], n);
    }
  }

  /** Sorting, cleaning up and searching together: the last assignment of a name wins. */
  lemma {:induction false} LastAssignmentWins(pairs: seq<Bytes>, name: Bytes)
    requires name != [] && EQUALS !in name
    ensures GetResult(BuildIndex(pairs), name) == Some(LastValue(pairs, name))
  {
    var sorted := StableSort(pairs);
    StableSortIsOne(pairs);
    DistinctIndexed(sorted);
    DistinctKeepsLast(sorted, name);
    GetFinds(BuildIndex(pairs), name);
    assert Only(sorted, name + [EQUALS]) == Only(pairs, name + [EQUALS]);
    LastValueFromRun(pairs, name);
  }

  /** Names that differ only in case count as one: the value of the last valid pair whose name maps to the one given. */
  function LastFolded(pairs: seq<Bytes>, up: Bytes -> Bytes, name: Bytes): Bytes {
    if pairs == [] then []
    else
      var s := pairs[|pairs| - 1];
      if ValidPair(s) && up(Name(s)) == name then s[|Name(s)| + 1..]
      else LastFolded(pairs[..|pairs| - 1], up, name)
  }

  lemma {:induction false} UpperPair(s: Bytes, up: Bytes -> Bytes)
    requires ValidPair(s) ==> up(Name(s)) != [] && EQUALS !in up(Name(s))
    ensures ValidPair(UpperName(s, up)) <==> ValidPair(s)
    ensures ValidPair(s) ==>
              && Name(UpperName(s, up)) == up(Name(s))
              && UpperName(s, up)[|up(Name(s))| + 1..] == s[|Name(s)| + 1..]
  {
    if ValidPair(s) {
      var n, rest := up(Name(s)), s[|Name(s)| + 1..];
      assert s[|Name(s)|..] == [EQUALS] + rest && UpperName(s, up) == n + ([EQUALS] + rest);
      FirstEquals(n, [EQUALS] + rest);
      assert (n + ([EQUALS] + rest))[..|n|] == n && (n + ([EQUALS] + rest))[|n| + 1..] == rest;
    }
  }

  lemma {:induction false} FirstEquals(n: Bytes, rest: Bytes)
    requires EQUALS !in n && rest != [] && rest[0] == EQUALS
    ensures IndexByte(n + rest, EQUALS) == Some(|n|)
  {
    var all := n + rest;
    assert all[|n|] == EQUALS && EQUALS in all;
    var i := IndexByte(all, EQUALS).value;
    assert forall j :: 0 <= j < |n| ==> all[j] == n[j] && n[j] != EQUALS;
    assert forall j :: 0 <= j < i ==> all[..i][j] == all[j];
  }

  /** A case mapping neither empties a name nor puts an `=` into one. */
  ghost predicate MapsNames(up: Bytes -> Bytes) {
    forall n :: IsName(n) ==> IsName(up(n))
  }

  predicate IsName(n: Bytes) {
    n != [] && EQUALS !in n
  }

  lemma {:induction false} FoldedIsUpper(pairs: seq<Bytes>, up: Bytes -> Bytes, name: Bytes)
    requires MapsNames(up)
    ensures LastValue(UpperNames(pairs, up), name) == LastFolded(pairs, up, name)
  {
    if pairs != [] {
      var front, s := pairs[..|pairs| - 1], pairs[|pairs| - 1];
      FoldedIsUpper(front, up, name);
      assert UpperNames(pairs, up)[..|pairs| - 1] == UpperNames(front, up);
      if ValidPair(s) { KeyOfValid(s); assert IsName(Name(s)); }
      UpperPair(s, up);
    }
  }

  /** Upper-casing the names first: the last one wins. */
  lemma {:induction false} LastFoldedWins(pairs: seq<Bytes>, up: Bytes -> Bytes, name: Bytes)
    requires MapsNames(up) && IsName(name)
    ensures GetResult(BuildIndex(UpperNames(pairs, up)), name) == Some(LastFolded(pairs, up, name))
  {
    LastAssignmentWins(UpperNames(pairs, up), name);
    FoldedIsUpper(pairs, up, name);
  }

  // ── Exactly which names can be looked up ─────────────────────────────

  /** No `=` except possibly as the first byte. */
  predicate Plain(name: Bytes) {
    var sep := IndexByte(name, EQUALS);
    sep.None? || sep.value == 0
  }

  /** Nothing is ever stored under the empty name or one that starts with `=`. */
  lemma {:induction false} NothingStored(l: seq<Bytes>, name: Bytes)
    requires Indexed(l) && (name == [] || name[0] == EQUALS)
    ensures GetResult(l, name) == Some([])
  {
    var i := Search(BelowName(l, name), 0, |l|);
    if i < |l| {
      var e := l[i];
      KeyOfValid(e);
      assert e[0] == Name(e)[0] != EQUALS;
      if |e| >= |name| + 1 && name != [] { assert e[..|name|][0] == e[0]; }
    }
  }

  lemma {:induction false} NothingAssigned(pairs: seq<Bytes>, name: Bytes)
    requires name == [] || name[0] == EQUALS
    ensures LastValue(pairs, name) == []
  {
    if pairs != [] {
      NothingAssigned(pairs[..|pairs| - 1], name);
      var s := pairs[|pairs| - 1];
      if ValidPair(s) { KeyOfValid(s); }
    }
  }

  /** A single pair whose value itself is an assignment: found under a name it does not have. */
  lemma {:induction false} SplitNameMisread(name: Bytes)
    requires !Plain(name)
    ensures var pair := name + [EQUALS, EQUALS];
            GetResult(BuildIndex([pair]), name) == Some([EQUALS]) && LastValue([pair], name) == []
  {
    var pair := name + [EQUALS, EQUALS];
    var k := IndexByte(name, EQUALS).value;
    IndexOfPrefix(name, [EQUALS, EQUALS]);
    assert ValidPair(pair) && Name(pair) == name[..k];
    Singleton(pair);
    assert pair[..|name|] == name && pair[|name| + 1..] == [EQUALS];
    assert CompareEntry(pair, name) == 0;
    assert Search(BelowName([pair], name), 0, 0) == 0;
  }

  lemma {:induction false} Singleton(pair: Bytes)
    requires ValidPair(pair)
    ensures BuildIndex([pair]) == [pair]
  {
    var none: seq<Bytes> := [];
    assert [pair][..0] == none;
    assert StableSort([pair]) == Insert(none, pair) == [pair];
    assert Distinct([pair]) == Extend(none, pair) == [pair];
  }

  lemma {:induction false} IndexOfPrefix(s: Bytes, t: Bytes)
    requires IndexByte(s, EQUALS).Some?
    ensures IndexByte(s + t, EQUALS) == IndexByte(s, EQUALS)
  {
    if s[0] != EQUALS {
      assert (s + t)[1..] == s[1..] + t;
      IndexOfPrefix(s[1..], t);
    }
  }

  /** Lookup gives the last assignment in every environment exactly for the names without an inner `=`. */
  lemma {:induction false} LooksUpExactly(name: Bytes)
    ensures (forall pairs :: GetResult(BuildIndex(pairs), name) == Some(LastValue(pairs, name))) <==> Plain(name)
  {
    if Plain(name) {
      forall pairs ensures GetResult(BuildIndex(pairs), name) == Some(LastValue(pairs, name)) {
        if name == [] || name[0] == EQUALS {
          StableSortIsOne(pairs);
          DistinctIndexed(StableSort(pairs));
          NothingStored(BuildIndex(pairs), name);
          NothingAssigned(pairs, name);
        } else {
          LastAssignmentWins(pairs, name);
        }
      }
    } else {
      SplitNameMisread(name);
      var pairs := [name + [EQUALS, EQUALS]];
      assert GetResult(BuildIndex(pairs), name) != Some(LastValue(pairs, name));
    }
  }
}

/** Sequences in strictly increasing order of a key, and what filtering leaves of them. */
module Sorted {
  import opened Bytes

  ghost predicate Increasing<T>(s: seq<T>, key: T -> nat) {
    forall i, j :: 0 <= i < j < |s| ==> key(s[i]) < key(s[j])
  }

  /** The elements that satisfy `p`, in order: `retain` and `filter`. */
  function Keep<T>(s: seq<T>, p: T -> bool): (r: seq<T>)
    ensures |r| <= |s|
  {
    if s == [] then []
    else
      var last := s[|s| - 1];
      Keep(s[..|s| - 1], p) + if p(last) then [last] else []
  }

  function Take<T>(s: seq<T>, count: Option<nat>): seq<T> {
    if count.Some? && count.value < |s| then s[..count.value] else s
  }

  /** The first element that satisfies `p`. */
  function Find<T>(s: seq<T>, p: T -> bool): (r: Option<nat>)
    ensures r.Some? ==> r.value < |s| && p(s[r.value])
    ensures r.None? ==> forall i :: 0 <= i < |s| ==> !p(s[i])
  {
    if s == [] then None
    else if p(s[0]) then Some(0)
    else match Find(s[1..], p)
         case None => None
         case Some(i) => Some(i + 1)
  }

  lemma {:induction false} KeepMembers<T>(s: seq<T>, p: T -> bool, x: T)
    ensures x in Keep(s, p) <==> x in s && p(x)
  {
    if s != [] {
      KeepMembers(s[..|s| - 1], p, x);
      assert s == s[..|s| - 1] + [s[|s| - 1]];
    }
  }

  lemma {:induction false} KeepIncreasing<T>(s: seq<T>, p: T -> bool, key: T -> nat)
    requires Increasing(s, key)
    ensures Increasing(Keep(s, p), key)
  {
    if s != [] {
      var front, last := s[..|s| - 1], s[|s| - 1];
      KeepIncreasing(front, p, key);
      var kept := Keep(front, p);
      forall i | 0 <= i < |kept| ensures key(kept[i]) < key(last) {
        KeepMembers(front, p, kept[i]);
        var j :| 0 <= j < |front| && front[j] == kept[i];
        assert s[j] == kept[i];
      }
    }
  }

  /** A condition that holds exactly on a stretch keeps the stretch. */
  lemma {:induction false} KeepStretch<T>(s: seq<T>, p: T -> bool, lo: nat, hi: nat)
    requires lo <= hi <= |s|
    requires forall i :: 0 <= i < |s| ==> (p(s[i]) <==> lo <= i < hi)
    ensures Keep(s, p) == s[lo..hi]
  {
    if s != [] {
      var n := |s| - 1;
      var front := s[..n];
      assert forall i :: 0 <= i < n ==> front[i] == s[i];
      if hi == |s| && lo < hi {
        KeepStretch(front, p, lo, n);
        assert s[lo..hi] == front[lo..n] + [s[n]];
      } else {
        var h := if hi == |s| then n else hi;
        var l := if lo == |s| then n else lo;
        KeepStretch(front, p, l, h);
        assert s[lo..hi] == front[l..h];
      }
    }
  }

  /** A condition that fails on one element only removes that element. */
  lemma {:induction false} KeepAllBut<T>(s: seq<T>, p: T -> bool, i: nat)
    requires i < |s| && !p(s[i])
    requires forall j :: 0 <= j < |s| && j != i ==> p(s[j])
    ensures Keep(s, p) == s[..i] + s[i + 1..]
  {
    var n := |s| - 1;
    var front := s[..n];
    if i == n {
      KeepStretch(front, p, 0, n);
    } else {
      KeepAllBut(front, p, i);
      assert s[..i] + s[i + 1..] == front[..i] + front[i + 1..] + [s[n]];
    }
  }

  lemma {:induction false} KeepDrops<T>(s: seq<T>, p: T -> bool, i: nat)
    requires i < |s| && !p(s[i])
    ensures |Keep(s, p)| < |s|
  {
    if i < |s| - 1 {
      KeepDrops(s[..|s| - 1], p, i);
    }
  }

  /** How many elements have a key of at most `r`. */
  ghost function UpTo<T>(s: seq<T>, key: T -> nat, r: nat): (k: nat)
    requires Increasing(s, key)
    ensures k <= |s|
    ensures forall i :: 0 <= i < |s| ==> (key(s[i]) <= r <==> i < k)
  {
    if s == [] then 0
    else if key(s[|s| - 1]) <= r then |s|
    else UpTo(s[..|s| - 1], key, r)
  }

  lemma {:induction false} IncreasingAppend<T>(s: seq<T>, t: seq<T>, key: T -> nat)
    ensures Increasing(s + t, key) <==>
            Increasing(s, key) && Increasing(t, key) && forall x, y :: x in s && y in t ==> key(x) < key(y)
  {
    var u := s + t;
    assert forall i :: 0 <= i < |s| ==> u[i] == s[i];
    assert forall i :: 0 <= i < |t| ==> u[|s| + i] == t[i];
  }

  lemma {:induction false} IncreasingSlice<T>(s: seq<T>, lo: nat, hi: nat, key: T -> nat)
    requires Increasing(s, key) && lo <= hi <= |s|
    ensures Increasing(s[lo..hi], key)
  {}

  // ── Stretches between two keys ───────────────────────────────────────

  lemma {:induction false} UpToIs<T>(s: seq<T>, key: T -> nat, r: nat, k: nat)
    requires Increasing(s, key) && k <= |s|
    requires k > 0 ==> key(s[k - 1]) <= r
    requires k < |s| ==> r < key(s[k])
    ensures UpTo(s, key, r) == k
  {
    var u := UpTo(s, key, r);
    assert k > 0 ==> k - 1 < u;
    assert k < |s| ==> !(k < u);
  }

  /** A lower limit on the key keeps the elements at the end. */
  lemma {:induction false} KeepFrom<T>(s: seq<T>, p: T -> bool, key: T -> nat, r: nat)
    requires Increasing(s, key) && forall x :: x in s ==> (p(x) <==> r <= key(x))
    ensures |Keep(s, p)| <= |s| && Keep(s, p) == s[|s| - |Keep(s, p)|..]
  {
    KeepStretch(s, p, if r == 0 then 0 else UpTo(s, key, r - 1), |s|);
  }

  /** Exactly those from the limit on. */
  lemma {:induction false} KeepFromExactly<T>(s: seq<T>, p: T -> bool, key: T -> nat, r: nat, k: nat)
    requires Increasing(s, key) && (forall x :: x in s ==> (p(x) <==> r <= key(x))) && k == |s| - |Keep(s, p)|
    ensures Keep(s, p) == s[k..] && forall i :: 0 <= i < |s| ==> (k <= i <==> r <= key(s[i]))
  {
    var lo := if r == 0 then 0 else UpTo(s, key, r - 1);
    KeepStretch(s, p, lo, |s|);
  }

  lemma {:induction false} UpToMonotone<T>(s: seq<T>, key: T -> nat, lo: nat, hi: nat)
    requires Increasing(s, key) && lo <= hi
    ensures UpTo(s, key, lo) <= UpTo(s, key, hi)
  {
    if s != [] && key(s[|s| - 1]) > hi {
      UpToMonotone(s[..|s| - 1], key, lo, hi);
    }
  }

  /** The elements with a key past `lo` and up to `hi`. */
  ghost function Stretch<T>(s: seq<T>, key: T -> nat, lo: nat, hi: nat): seq<T>
    requires Increasing(s, key)
  {
    var i, j := UpTo(s, key, lo), UpTo(s, key, hi);
    if i <= j then s[i..j] else []
  }

  lemma {:induction false} StretchIsKeep<T>(s: seq<T>, key: T -> nat, lo: nat, hi: nat, p: T -> bool)
    requires Increasing(s, key) && lo <= hi
    requires forall x :: x in s ==> (p(x) <==> lo < key(x) <= hi)
    ensures Stretch(s, key, lo, hi) == Keep(s, p)
  {
    var i, j := UpTo(s, key, lo), UpTo(s, key, hi);
    UpToMonotone(s, key, lo, hi);
    KeepStretch(s, p, i, j);
  }

  lemma {:induction false} StretchAppend<T>(s: seq<T>, x: T, key: T -> nat, lo: nat, hi: nat)
    requires Increasing(s, key) && Increasing(s + [x], key) && lo <= hi
    requires lo == hi || hi < key(x)
    ensures Stretch(s + [x], key, lo, hi) == Stretch(s, key, lo, hi)
  {
    if hi < key(x) {
      assert (s + [x])[..|s|] == s;
    }
  }

  /** The next elements after a stretch extend it up to the last of them. */
  lemma {:induction false} StretchExtend<T>(s: seq<T>, key: T -> nat, lo: nat, mid: nat, more: seq<T>)
    requires Increasing(s, key) && lo <= mid && more != []
    requires UpTo(s, key, mid) + |more| <= |s|
    requires more == s[UpTo(s, key, mid)..UpTo(s, key, mid) + |more|]
    ensures mid < key(more[|more| - 1])
    ensures Stretch(s, key, lo, key(more[|more| - 1])) == Stretch(s, key, lo, mid) + more
  {
    var i, k := UpTo(s, key, lo), UpTo(s, key, mid);
    var n := k + |more|;
    assert more[|more| - 1] == s[n - 1];
    assert n < |s| ==> key(s[n - 1]) < key(s[n]);
    UpToIs(s, key, key(s[n - 1]), n);
    UpToMonotone(s, key, lo, mid);
    assert s[i..n] == s[i..k] + s[k..n];
  }
}

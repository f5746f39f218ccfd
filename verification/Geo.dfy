/** 52-bit geohashes: bit interleaving by shifts and masks, and the range encoding over exact reals. */
module Geo {
  import opened Powers

  const ENC_LAT: real := 85.05112878
  const ENC_LONG: real := 180.0
  const EXP2_32: real := 4294967296.0
  const EXP2_26: real := 67108864.0

  // ── 64-bit words ─────────────────────────────────────────────────────

  /** Bits, lowest first. A `u64` is 64 of them, a `u32` is 32. */
  type Bits = seq<bool>

  function Or(v: Bits, w: Bits): (r: Bits)
    requires |v| == 64 && |w| == 64
    ensures |r| == 64 && forall i :: 0 <= i < 64 ==> r[i] == (v[i] || w[i])
  {
    seq(64, i requires 0 <= i < 64 => v[i] || w[i])
  }

  function Shl(v: Bits, k: nat): (r: Bits)
    requires |v| == 64
    ensures |r| == 64 && forall i :: 0 <= i < 64 ==> r[i] == (i >= k && v[i - k])
  {
    seq(64, i requires 0 <= i < 64 => i >= k && v[i - k])
  }

  function Shr(v: Bits, k: nat): (r: Bits)
    requires |v| == 64
    ensures |r| == 64 && forall i :: 0 <= i < 64 ==> r[i] == (i + k < 64 && v[i + k])
  {
    seq(64, i requires 0 <= i < 64 => i + k < 64 && v[i + k])
  }

  /** The masks the code uses, by the length of their runs of ones. */
  datatype Mask = M1 | M2 | M4 | M8 | M16 | M32

  /** Bit `i` of 0x5555555555555555, 0x3333333333333333, 0x0f0f0f0f0f0f0f0f, 0x00ff00ff00ff00ff,
      0x0000ffff0000ffff and 0x00000000ffffffff: runs of ones and equally long runs of zeros in turn. */
  predicate MaskBit(m: Mask, i: nat)
    decreases i
  {
    if i < Length(m) then true
    else if i < 2 * Length(m) then false
    else MaskBit(m, i - 2 * Length(m))
  }

  /** `v & mask`. */
  function Keep(v: Bits, m: Mask): (r: Bits)
    requires |v| == 64
    ensures |r| == 64 && forall i :: 0 <= i < 64 ==> r[i] == (v[i] && MaskBit(m, i))
  {
    seq(64, i requires 0 <= i < 64 => v[i] && MaskBit(m, i))
  }

  /** `x as u64` for a `u32`. */
  function Widen(x: Bits): (r: Bits)
    requires |x| == 32
    ensures |r| == 64 && forall i :: 0 <= i < 64 ==> r[i] == (i < 32 && x[i])
  {
    seq(64, i requires 0 <= i < 64 => i < 32 && x[i])
  }

  function Spread(x: Bits): (r: Bits)
    requires |x| == 32
    ensures |r| == 64
  {
    var v := Widen(x);
    var v := Keep(Or(v, Shl(v, 16)), M16);
    var v := Keep(Or(v, Shl(v, 8)), M8);
    var v := Keep(Or(v, Shl(v, 4)), M4);
    var v := Keep(Or(v, Shl(v, 2)), M2);
    Keep(Or(v, Shl(v, 1)), M1)
  }

  function Squash(x: Bits): (r: Bits)
    requires |x| == 64
    ensures |r| == 32
  {
    var v := Keep(x, M1);
    var v := Keep(Or(v, Shr(v, 1)), M2);
    var v := Keep(Or(v, Shr(v, 2)), M4);
    var v := Keep(Or(v, Shr(v, 4)), M8);
    var v := Keep(Or(v, Shr(v, 8)), M16);
    Keep(Or(v, Shr(v, 16)), M32)[..32]
  }

  function Interleave(x: Bits, y: Bits): (r: Bits)
    requires |x| == 32 && |y| == 32
    ensures |r| == 64
  {
    Or(Spread(x), Shl(Spread(y), 1))
  }

  function Deinterleave(v: Bits): (r: (Bits, Bits))
    requires |v| == 64
    ensures |r.0| == 32 && |r.1| == 32
  {
    (Squash(v), Squash(Shr(v, 1)))
  }

  function Length(m: Mask): nat {
    match m case M1 => 1 case M2 => 2 case M4 => 4 case M8 => 8 case M16 => 16 case M32 => 32
  }

  function Twice(m: Mask): Mask {
    match m case M1 => M2 case M2 => M4 case M4 => M8 case M8 => M16 case M16 => M32 case M32 => M32
  }

  /** `s` starts a run: it is a multiple of the run length. */
  ghost predicate Start(s: nat, m: Mask) {
    exists a: nat :: s == Times(m, a)
  }

  function Times(m: Mask, a: nat): nat {
    match m case M1 => a case M2 => 2 * a case M4 => 4 * a case M8 => 8 * a case M16 => 16 * a case M32 => 32 * a
  }

  /** A run of the shorter length starts a longer run or ends one. */
  lemma {:induction false} StartTwice(s: nat, m: Mask)
    requires m != M32 && Start(s, m)
    ensures Start(s, Twice(m)) || (s >= Length(m) && Start(s - Length(m), Twice(m)))
  {
    var a: nat :| s == Times(m, a);
    if a % 2 == 0 {
      assert s == Times(Twice(m), a / 2);
    } else {
      assert s - Length(m) == Times(Twice(m), a / 2);
    }
  }

  lemma {:induction false} StartHalf(s: nat, m: Mask)
    requires m != M32 && Start(s, Twice(m))
    ensures Start(s, m) && Start(s + Length(m), m)
  {
    var a: nat :| s == Times(Twice(m), a);
    assert s == Times(m, 2 * a) && s + Length(m) == Times(m, 2 * a + 1);
  }

  lemma {:induction false} MaskOfTimes(a: nat, r: nat, m: Mask)
    requires r < Length(m)
    ensures MaskBit(m, 2 * Times(m, a) + r) && !MaskBit(m, 2 * Times(m, a) + Length(m) + r)
    decreases a
  {
    if a > 0 {
      MaskOfTimes(a - 1, r, m);
      assert Times(m, a) == Times(m, a - 1) + Length(m);
    }
  }

  /** The mask keeps the runs and clears the gaps between them. */
  lemma {:induction false} MaskOfRun(s: nat, r: nat, m: Mask)
    requires Start(s, m) && r < Length(m)
    ensures MaskBit(m, 2 * s + r) && !MaskBit(m, 2 * s + Length(m) + r)
  {
    var a: nat :| s == Times(m, a);
    MaskOfTimes(a, r, m);
  }

  /** Bit `r` of the run of `x` that starts at `s` stands at `2 * s + r`, and its gap is clear. */
  ghost predicate RunAt(v: Bits, x: Bits, m: Mask, s: nat, r: nat)
    requires |v| == 64 && |x| == 32 && s + Length(m) <= 32 && r < Length(m)
  {
    v[2 * s + r] == x[s + r] && !v[2 * s + Length(m) + r]
  }

  ghost predicate Runs(v: Bits, x: Bits, m: Mask)
    requires |v| == 64 && |x| == 32
  {
    forall s: nat, r: nat {:trigger RunAt(v, x, m, s, r)} ::
      Start(s, m) && s + Length(m) <= 32 && r < Length(m) ==> RunAt(v, x, m, s, r)
  }

  /** In runs of twice the length, bit `r` of the shorter run at `s` is found in place or one run length below. */
  lemma {:induction false} SpreadRun(v: Bits, x: Bits, m: Mask, s: nat, r: nat)
    requires |v| == 64 && |x| == 32 && m != M32 && Runs(v, x, Twice(m))
    requires Start(s, m) && s + Length(m) <= 32 && r < Length(m)
    ensures var i, d := 2 * s + r, Length(m); (v[i] || (i >= d && v[i - d])) == x[s + r]
  {
    var d := Length(m);
    StartTwice(s, m);
    if Start(s, Twice(m)) {
      RunFits(s, m);
      assert RunAt(v, x, Twice(m), s, r);
      if s > 0 {
        RunBefore(s, Twice(m));
        assert RunAt(v, x, Twice(m), s - 2 * d, d + r);
      }
    } else {
      assert RunAt(v, x, Twice(m), s - d, r);
      assert RunAt(v, x, Twice(m), s - d, d + r);
    }
  }

  /** A stage of `spread` halves the runs. */
  lemma {:induction false} SpreadStage(v: Bits, x: Bits, m: Mask)
    requires |v| == 64 && |x| == 32 && m != M32
    requires Runs(v, x, Twice(m))
    ensures Runs(Keep(Or(v, Shl(v, Length(m))), m), x, m)
  {
    var d := Length(m);
    var w := Keep(Or(v, Shl(v, d)), m);
    forall s: nat, r: nat | Start(s, m) && s + d <= 32 && r < d ensures RunAt(w, x, m, s, r) {
      MaskOfRun(s, r, m);
      SpreadRun(v, x, m, s, r);
    }
  }

  lemma {:induction false} RunFits(s: nat, m: Mask)
    requires m != M32 && Start(s, Twice(m)) && s + Length(m) <= 32
    ensures s + 2 * Length(m) <= 32
  {
    var a: nat :| s == Times(Twice(m), a);
  }

  lemma {:induction false} RunBefore(s: nat, m: Mask)
    requires Start(s, m) && s > 0
    ensures s >= Length(m) && Start(s - Length(m), m)
  {
    var a: nat :| s == Times(m, a);
    assert s - Length(m) == Times(m, a - 1);
  }

  /** `spread` puts bit `k` at position `2 * k`. */
  lemma {:induction false} SpreadBits(x: Bits)
    requires |x| == 32
    ensures Runs(Spread(x), x, M1)
  {
    var v32 := Widen(x);
    assert Runs(v32, x, M32);
    SpreadStage(v32, x, M16);
    var v16 := Keep(Or(v32, Shl(v32, 16)), M16);
    SpreadStage(v16, x, M8);
    var v8 := Keep(Or(v16, Shl(v16, 8)), M8);
    SpreadStage(v8, x, M4);
    var v4 := Keep(Or(v8, Shl(v8, 4)), M4);
    SpreadStage(v4, x, M2);
    var v2 := Keep(Or(v4, Shl(v4, 2)), M2);
    SpreadStage(v2, x, M1);
  }

  /** In runs of half the length, bit `r` of the longer run at `s` is found in place or one run length above. */
  lemma {:induction false} SquashRun(v: Bits, x: Bits, m: Mask, s: nat, r: nat)
    requires |v| == 64 && |x| == 32 && m != M32 && Runs(v, x, m)
    requires Start(s, Twice(m)) && s + 2 * Length(m) <= 32 && r < 2 * Length(m)
    ensures var i, d := 2 * s + r, Length(m); (v[i] || (i + d < 64 && v[i + d])) == x[s + r]
  {
    var d := Length(m);
    StartHalf(s, m);
    if r < d {
      assert RunAt(v, x, m, s, r);
    } else {
      assert RunAt(v, x, m, s, r - d);
      assert RunAt(v, x, m, s + d, r - d);
    }
  }

  /** A stage of `squash` doubles the runs. */
  lemma {:induction false} SquashStage(v: Bits, x: Bits, m: Mask)
    requires |v| == 64 && |x| == 32 && m != M32
    requires Runs(v, x, m)
    ensures Runs(Keep(Or(v, Shr(v, Length(m))), Twice(m)), x, Twice(m))
  {
    var d, t := Length(m), Twice(m);
    var w := Keep(Or(v, Shr(v, d)), t);
    forall s: nat, r: nat | Start(s, t) && s + 2 * d <= 32 && r < 2 * d ensures RunAt(w, x, t, s, r) {
      MaskOfRun(s, r, t);
      SquashRun(v, x, m, s, r);
    }
  }

  /** `squash` collects the even bits. */
  lemma {:induction false} SquashBits(v: Bits, x: Bits)
    requires |v| == 64 && |x| == 32 && Runs(Keep(v, M1), x, M1)
    ensures Squash(v) == x
  {
    var v1 := Keep(v, M1);
    SquashStage(v1, x, M1);
    var v2 := Keep(Or(v1, Shr(v1, 1)), M2);
    SquashStage(v2, x, M2);
    var v4 := Keep(Or(v2, Shr(v2, 2)), M4);
    SquashStage(v4, x, M4);
    var v8 := Keep(Or(v4, Shr(v4, 4)), M8);
    SquashStage(v8, x, M8);
    var v16 := Keep(Or(v8, Shr(v8, 8)), M16);
    SquashStage(v16, x, M16);
    var v32 := Keep(Or(v16, Shr(v16, 16)), M32);
    RunsOf32(v32, x);
  }

  lemma {:induction false} RunsOf32(v: Bits, x: Bits)
    requires |v| == 64 && |x| == 32 && Runs(v, x, M32)
    ensures v[..32] == x
  {
    assert 0 == Times(M32, 0);
    forall i: nat | i < 32 ensures v[i] == x[i] {
      assert RunAt(v, x, M32, 0, i);
    }
  }

  // ── Interleaving is a bijection ──────────────────────────────────────

  /** Every second bit of a word, from `at` on. */
  function Every2(v: Bits, at: nat): (r: Bits)
    requires |v| == 64 && at < 2
    ensures |r| == 32 && forall k :: 0 <= k < 32 ==> r[k] == v[2 * k + at]
  {
    seq(32, k requires 0 <= k < 32 => v[2 * k + at])
  }

  lemma {:induction false} SquashIsEvery2(v: Bits)
    requires |v| == 64
    ensures Squash(v) == Every2(v, 0)
  {
    var x := Every2(v, 0);
    var w := Keep(v, M1);
    forall s: nat, r: nat | Start(s, M1) && s + 1 <= 32 && r < 1 ensures RunAt(w, x, M1, s, r) {
      MaskOfRun(s, r, M1);
    }
    SquashBits(v, x);
  }

  lemma {:induction false} DeinterleaveBits(v: Bits)
    requires |v| == 64
    ensures Deinterleave(v) == (Every2(v, 0), Every2(v, 1))
  {
    SquashIsEvery2(v);
    SquashIsEvery2(Shr(v, 1));
    assert Every2(Shr(v, 1), 0) == Every2(v, 1);
  }

  lemma {:induction false} SpreadAt(x: Bits, k: nat)
    requires |x| == 32 && k < 32
    ensures Spread(x)[2 * k] == x[k] && !Spread(x)[2 * k + 1]
  {
    SpreadBits(x);
    assert k == Times(M1, k);
    assert RunAt(Spread(x), x, M1, k, 0);
  }

  /** `v` has the bits of `x` at its even places and none at its odd places. */
  ghost predicate Evens(v: Bits, x: Bits)
    requires |v| == 64 && |x| == 32
  {
    forall k :: 0 <= k < 32 ==> v[2 * k] == x[k] && !v[2 * k + 1]
  }

  lemma {:induction false} SpreadEvens(x: Bits)
    requires |x| == 32
    ensures Evens(Spread(x), x)
  {
    forall k | 0 <= k < 32 ensures Spread(x)[2 * k] == x[k] && !Spread(x)[2 * k + 1] {
      SpreadAt(x, k);
    }
  }

  lemma {:induction false} OrShiftedAt(a: Bits, b: Bits, k: nat)
    requires |a| == 64 && |b| == 64 && k < 32
    requires !a[2 * k + 1] && (k > 0 ==> !b[2 * (k - 1) + 1])
    ensures Or(a, Shl(b, 1))[2 * k] == a[2 * k] && Or(a, Shl(b, 1))[2 * k + 1] == b[2 * k]
  {}

  lemma {:induction false} OrOfEvens(a: Bits, b: Bits, x: Bits, y: Bits)
    requires |a| == 64 && |b| == 64 && |x| == 32 && |y| == 32 && Evens(a, x) && Evens(b, y)
    ensures Every2(Or(a, Shl(b, 1)), 0) == x && Every2(Or(a, Shl(b, 1)), 1) == y
  {
    var w := Or(a, Shl(b, 1));
    forall k | 0 <= k < 32 ensures w[2 * k] == x[k] && w[2 * k + 1] == y[k] {
      OrShiftedAt(a, b, k);
    }
  }

  /** Latitude takes the even bits and longitude the odd ones. */
  lemma {:induction false} InterleaveBits(x: Bits, y: Bits)
    requires |x| == 32 && |y| == 32
    ensures Every2(Interleave(x, y), 0) == x && Every2(Interleave(x, y), 1) == y
  {
    SpreadEvens(x);
    SpreadEvens(y);
    OrOfEvens(Spread(x), Spread(y), x, y);
  }

  lemma {:induction false} Every2Determines(v: Bits, w: Bits)
    requires |v| == 64 && |w| == 64 && Every2(v, 0) == Every2(w, 0) && Every2(v, 1) == Every2(w, 1)
    ensures v == w
  {
    forall i | 0 <= i < 64 ensures v[i] == w[i] {
      var k := i / 2;
      assert Every2(v, 0)[k] == Every2(w, 0)[k] && Every2(v, 1)[k] == Every2(w, 1)[k];
      assert i == 2 * k || i == 2 * k + 1;
    }
  }

  /** Deinterleaving undoes interleaving, and interleaving undoes deinterleaving. */
  lemma {:induction false} InterleaveRoundTrip(x: Bits, y: Bits, v: Bits)
    requires |x| == 32 && |y| == 32 && |v| == 64
    ensures Deinterleave(Interleave(x, y)) == (x, y)
    ensures Interleave(Deinterleave(v).0, Deinterleave(v).1) == v
  {
    InterleaveBits(x, y);
    DeinterleaveBits(Interleave(x, y));
    DeinterleaveBits(v);
    InterleaveBits(Every2(v, 0), Every2(v, 1));
    Every2Determines(Interleave(Every2(v, 0), Every2(v, 1)), v);
  }

  /** A `u32` without its six low bits. */
  function Cut(x: Bits): (r: Bits)
    requires |x| == 32
    ensures |r| == 32 && forall k :: 0 <= k < 32 ==> r[k] == (k >= 6 && x[k])
  {
    seq(32, k requires 0 <= k < 32 => k >= 6 && x[k])
  }

  /** Dropping the twelve low bits of the interleaved word drops the six low bits of each half. */
  lemma {:induction false} TruncateBoth(x: Bits, y: Bits)
    requires |x| == 32 && |y| == 32
    ensures Deinterleave(Shl(Shr(Interleave(x, y), 12), 12)) == (Cut(x), Cut(y))
  {
    var w := Interleave(x, y);
    InterleaveBits(x, y);
    DeinterleaveBits(Shl(Shr(w, 12), 12));
    CutOfEvery2(w, 0);
    CutOfEvery2(w, 1);
  }

  lemma {:induction false} CutOfEvery2(w: Bits, at: nat)
    requires |w| == 64 && at < 2
    ensures Every2(Shl(Shr(w, 12), 12), at) == Cut(Every2(w, at))
  {}

  /** Only the upper 26 bits of each half reach the 52-bit hash. */
  lemma {:induction false} HashOfCell(hash: Bits, x: Bits, y: Bits)
    requires |hash| == 64 && |x| == 32 && |y| == 32 && Is52(hash)
    requires (Cut(x), Cut(y)) == Deinterleave(Shl(hash, 12))
    ensures Shr(Interleave(x, y), 12) == hash
  {
    var w := Interleave(x, y);
    TruncateBoth(x, y);
    InterleaveRoundTrip(x, y, Shl(Shr(w, 12), 12));
    InterleaveRoundTrip(x, y, Shl(hash, 12));
    ShiftBack(Shr(w, 12), hash);
  }

  ghost predicate Is52(h: Bits)
    requires |h| == 64
  {
    forall i :: 52 <= i < 64 ==> !h[i]
  }

  lemma {:induction false} ShiftBack(g: Bits, h: Bits)
    requires |g| == 64 && |h| == 64 && Is52(g) && Is52(h) && Shl(g, 12) == Shl(h, 12)
    ensures g == h
  {
    forall i | 0 <= i < 52 ensures g[i] == h[i] {
      assert Shl(g, 12)[i + 12] == Shl(h, 12)[i + 12];
    }
  }

  // ── Bits as numbers ──────────────────────────────────────────────────

  function Num(b: Bits): nat {
    if b == [] then 0 else (if b[0] then 1 else 0) + 2 * Num(b[1..])
  }

  function BitsOfNum(n: nat, width: nat): (b: Bits)
    ensures |b| == width
  {
    if width == 0 then [] else [n % 2 == 1] + BitsOfNum(n / 2, width - 1)
  }

  lemma {:induction false} NumOfBits(n: nat, width: nat)
    requires n < Pow2(width)
    ensures Num(BitsOfNum(n, width)) == n
  {
    if width > 0 {
      var rest := BitsOfNum(n / 2, width - 1);
      NumOfBits(n / 2, width - 1);
      assert ([n % 2 == 1] + rest)[1..] == rest;
    }
  }

  lemma {:induction false} BitsOfNumOf(b: Bits)
    ensures BitsOfNum(Num(b), |b|) == b && Num(b) < Pow2(|b|)
  {
    if b != [] { BitsOfNumOf(b[1..]); }
  }

  /** The value of the low bits and of the bits above them. */
  lemma {:induction false} NumSplit(low: Bits, high: Bits)
    ensures Num(low + high) == Num(low) + Pow2(|low|) * Num(high)
  {
    if low == [] {
      assert low + high == high;
    } else {
      assert (low + high)[1..] == low[1..] + high && (low + high)[0] == low[0];
      NumSplit(low[1..], high);
      var p, n := Pow2(|low| - 1), Num(high);
      Distribute(p, n);
      assert Pow2(|low|) == 2 * p;
    }
  }

  lemma {:induction false} Distribute(p: nat, n: nat)
    ensures 2 * (p * n) == (2 * p) * n
  {}

  lemma {:induction false} NumOfZeros(b: Bits)
    requires forall i :: 0 <= i < |b| ==> !b[i]
    ensures Num(b) == 0
  {
    if b != [] { NumOfZeros(b[1..]); }
  }

  /** Clearing the six low bits rounds down to a multiple of 64. */
  lemma {:induction false} NumOfCut(x: Bits)
    requires |x| == 32
    ensures Num(Cut(x)) == Num(x) / 64 * 64
  {
    var zeros := Cut(x)[..6];
    assert x == x[..6] + x[6..] && Cut(x) == zeros + x[6..];
    NumSplit(x[..6], x[6..]);
    NumSplit(zeros, x[6..]);
    BitsOfNumOf(x[..6]);
    NumOfZeros(zeros);
    assert Pow2(6) == 64 by { assert Pow2(6) == 8 * Pow2(3) && Pow2(3) == 8; }
    Multiple64(Num(x), Num(x[..6]), Num(x[6..]));
  }

  lemma {:induction false} Multiple64(n: nat, low: nat, high: nat)
    requires n == low + 64 * high && low < 64
    ensures n / 64 * 64 == 64 * high
  {}

  // ── Range encoding ───────────────────────────────────────────────────

  /** `as u32`: truncation that saturates at both ends. */
  function ToU32(x: real): (n: nat)
    ensures n < 0x1_0000_0000
  {
    if x < 0.0 then 0 else if x >= EXP2_32 then 0xffff_ffff else x.Floor
  }

  function EncodeRange(x: real, r: real): (n: nat)
    requires r > 0.0
    ensures n < 0x1_0000_0000
  {
    ToU32((x + r) / (2.0 * r) * EXP2_32)
  }

  function DecodeRange(n: nat, r: real): real {
    2.0 * r * (n as real / EXP2_32) - r
  }

  function ToGeohash(longitude: real, latitude: real): (hash: Bits)
    ensures |hash| == 64
  {
    Shr(Interleave(BitsOfNum(EncodeRange(latitude, ENC_LAT), 32), BitsOfNum(EncodeRange(longitude, ENC_LONG), 32)), 12)
  }

  /** The centre of the cell: its corner plus half of the nominal cell size. */
  function FromGeohash(hash: Bits): (real, real)
    requires |hash| == 64
  {
    var (lat, lng) := Deinterleave(Shl(hash, 12));
    Centre(Num(lat), Num(lng))
  }

  /** Longitude and latitude of the centre of the cell with the given corner in the 32-bit grid. */
  function Centre(lat: nat, lng: nat): (real, real) {
    (DecodeRange(lng, ENC_LONG) + 360.0 / EXP2_26 / 2.0, DecodeRange(lat, ENC_LAT) + 180.0 / EXP2_26 / 2.0)
  }

  function Abs(x: real): real {
    if x < 0.0 then -x else x
  }

  function CellOf(n: nat): (c: nat)
    ensures c <= n
  {
    n / 64 * 64
  }

  /** The multiple of 64 below the encoding of `x`: the corner of its cell. */
  function Corner(x: real, r: real): (n: nat)
    requires r > 0.0
    ensures n < 0x1_0000_0000
  {
    CellOf(EncodeRange(x, r))
  }

  lemma {:induction false} DecodeOfEncode(longitude: real, latitude: real)
    ensures FromGeohash(ToGeohash(longitude, latitude)) ==
            Centre(Corner(latitude, ENC_LAT), Corner(longitude, ENC_LONG))
  {
    DecodeOfWords(EncodeRange(latitude, ENC_LAT), EncodeRange(longitude, ENC_LONG));
  }

  lemma {:induction false} DecodeOfWords(lat: nat, lng: nat)
    requires lat < 0x1_0000_0000 && lng < 0x1_0000_0000
    ensures FromGeohash(Shr(Interleave(BitsOfNum(lat, 32), BitsOfNum(lng, 32)), 12)) ==
            Centre(CellOf(lat), CellOf(lng))
  {
    var x, y := BitsOfNum(lat, 32), BitsOfNum(lng, 32);
    TwoTo32();
    NumOfBits(lat, 32);
    NumOfBits(lng, 32);
    NumOfCut(x);
    NumOfCut(y);
    TruncateBoth(x, y);
  }

  /** In units of the 32-bit grid: a position, its saturating truncation, and the corner below it. */
  lemma {:induction false} GridError(p: real)
    ensures var n := ToU32(p) / 64 * 64;
            && (0.0 <= p < EXP2_32 ==> n as real <= p < n as real + 64.0)
            && (p < 0.0 ==> n == 0) && (p >= EXP2_32 ==> n == 0xffff_ffc0)
  {}

  lemma {:induction false} LatitudeError(x: real)
    ensures Abs(DecodeRange(Corner(x, ENC_LAT), ENC_LAT) + 90.0 / EXP2_26 - x) <= 90.0 / EXP2_26
       <==> -ENC_LAT <= x <= ENC_LAT + (180.0 - 2.0 * ENC_LAT) / EXP2_26
  {
    var p := (x + ENC_LAT) / (2.0 * ENC_LAT) * EXP2_32;
    GridError(p);
    var n := Corner(x, ENC_LAT) as real;
    assert x == p * (2.0 * ENC_LAT) / EXP2_32 - ENC_LAT;
    assert DecodeRange(Corner(x, ENC_LAT), ENC_LAT) == n * (2.0 * ENC_LAT) / EXP2_32 - ENC_LAT;
  }

  lemma {:induction false} LongitudeError(x: real)
    ensures Abs(DecodeRange(Corner(x, ENC_LONG), ENC_LONG) + 180.0 / EXP2_26 - x) <= 180.0 / EXP2_26
       <==> -ENC_LONG <= x <= ENC_LONG
  {
    var p := (x + ENC_LONG) / (2.0 * ENC_LONG) * EXP2_32;
    GridError(p);
    var n := Corner(x, ENC_LONG) as real;
    assert x == p * (2.0 * ENC_LONG) / EXP2_32 - ENC_LONG;
    assert DecodeRange(Corner(x, ENC_LONG), ENC_LONG) == n * (2.0 * ENC_LONG) / EXP2_32 - ENC_LONG;
  }

  /** How far a decoded position is from the encoded one, and exactly for which inputs the bound holds. */
  lemma {:induction false} GeohashError(longitude: real, latitude: real)
    ensures var (lng, lat) := FromGeohash(ToGeohash(longitude, latitude));
            && (Abs(lng - longitude) <= 180.0 / EXP2_26 <==> -ENC_LONG <= longitude <= ENC_LONG)
            && (Abs(lat - latitude) <= 90.0 / EXP2_26 <==>
                -ENC_LAT <= latitude <= ENC_LAT + (180.0 - 2.0 * ENC_LAT) / EXP2_26)
  {
    DecodeOfEncode(longitude, latitude);
    LongitudeError(longitude);
    LatitudeError(latitude);
  }

  /** The decoded centre of a cell encodes into that cell. */
  lemma {:induction false} CornerOfCentre(n: nat)
    requires n < 0x1_0000_0000 && n % 64 == 0
    ensures Corner(DecodeRange(n, ENC_LAT) + 180.0 / EXP2_26 / 2.0, ENC_LAT) == n
    ensures Corner(DecodeRange(n, ENC_LONG) + 360.0 / EXP2_26 / 2.0, ENC_LONG) == n
  {
    var lat := DecodeRange(n, ENC_LAT) + 180.0 / EXP2_26 / 2.0;
    var p := (lat + ENC_LAT) / (2.0 * ENC_LAT) * EXP2_32;
    assert p == n as real + 5760.0 / (2.0 * ENC_LAT);
    var lng := DecodeRange(n, ENC_LONG) + 360.0 / EXP2_26 / 2.0;
    var q := (lng + ENC_LONG) / (2.0 * ENC_LONG) * EXP2_32;
    assert q == n as real + 32.0;
    FloorInCell(n, p);
    FloorInCell(n, q);
  }

  lemma {:induction false} FloorInCell(n: nat, p: real)
    requires n < 0x1_0000_0000 && n % 64 == 0 && n as real <= p < n as real + 64.0
    ensures ToU32(p) / 64 * 64 == n
  {
    assert n <= 0xffff_ffc0;
    assert n <= p.Floor < n + 64;
  }

  /** Re-encoding the decoded point of any 52-bit hash gives the hash back. */
  lemma {:induction false} GeohashRoundTrip(hash: Bits)
    requires |hash| == 64 && Is52(hash)
    ensures var (lng, lat) := FromGeohash(hash); ToGeohash(lng, lat) == hash
  {
    var (x, y) := Deinterleave(Shl(hash, 12));
    var (lng, lat) := FromGeohash(hash);
    DeinterleaveBits(Shl(hash, 12));
    CentreEncodes(x, y);
    HashOfCell(hash, BitsOfNum(EncodeRange(lat, ENC_LAT), 32), BitsOfNum(EncodeRange(lng, ENC_LONG), 32));
  }

  /** The centre of a cell encodes to words that agree with the cell on the upper 26 bits. */
  lemma {:induction false} CentreEncodes(x: Bits, y: Bits)
    requires |x| == 32 && |y| == 32
    requires forall k :: 0 <= k < 6 ==> !x[k]
    requires forall k :: 0 <= k < 6 ==> !y[k]
    ensures var (lng, lat) := Centre(Num(x), Num(y));
            && Cut(BitsOfNum(EncodeRange(lat, ENC_LAT), 32)) == x
            && Cut(BitsOfNum(EncodeRange(lng, ENC_LONG), 32)) == y
  {
    var (lng, lat) := Centre(Num(x), Num(y));
    AlignedNum(x);
    AlignedNum(y);
    CornerOfCentre(Num(x));
    CornerOfCentre(Num(y));
    SameCell(x, EncodeRange(lat, ENC_LAT));
    SameCell(y, EncodeRange(lng, ENC_LONG));
  }

  lemma {:induction false} AlignedNum(x: Bits)
    requires |x| == 32 && forall k :: 0 <= k < 6 ==> !x[k]
    ensures Num(x) % 64 == 0 && Num(x) < 0x1_0000_0000
  {
    TwoTo32();
    BitsOfNumOf(x);
    assert Cut(x) == x;
    NumOfCut(x);
  }

  lemma {:induction false} SameCell(x: Bits, n: nat)
    requires |x| == 32 && n < 0x1_0000_0000 && n / 64 * 64 == Num(x)
    ensures Cut(BitsOfNum(n, 32)) == x
  {
    var w := BitsOfNum(n, 32);
    TwoTo32();
    NumOfBits(n, 32);
    NumOfCut(w);
    BitsOfNumOf(Cut(w));
    BitsOfNumOf(x);
  }

  // ── Where the bits are ───────────────────────────────────────────────

  /** The hash has latitude in its even bits and longitude in its odd ones, each without its six lowest. */
  lemma {:induction false} GeohashBits(longitude: real, latitude: real, k: nat)
    requires k < 26
    ensures var hash := ToGeohash(longitude, latitude);
            && hash[2 * k] == BitsOfNum(EncodeRange(latitude, ENC_LAT), 32)[k + 6]
            && hash[2 * k + 1] == BitsOfNum(EncodeRange(longitude, ENC_LONG), 32)[k + 6]
  {
    var x, y := BitsOfNum(EncodeRange(latitude, ENC_LAT), 32), BitsOfNum(EncodeRange(longitude, ENC_LONG), 32);
    InterleaveBits(x, y);
    assert Every2(Interleave(x, y), 0)[k + 6] == x[k + 6] && Every2(Interleave(x, y), 1)[k + 6] == y[k + 6];
  }

  lemma {:induction false} TopBit(n: nat, width: nat)
    requires width > 0 && n < Pow2(width)
    ensures BitsOfNum(n, width)[width - 1] <==> n >= Pow2(width - 1)
  {
    if width > 1 {
      TopBit(n / 2, width - 1);
      assert Pow2(width - 1) == 2 * Pow2(width - 2);
    }
  }

  lemma {:induction false} UpperHalf(x: real, r: real)
    requires r == ENC_LAT || r == ENC_LONG
    ensures BitsOfNum(EncodeRange(x, r), 32)[31] <==> x >= 0.0
  {
    TwoTo32();
    assert Pow2(32) == 2 * Pow2(31);
    TopBit(EncodeRange(x, r), 32);
    assert x >= 0.0 <==> (x + r) / (2.0 * r) * EXP2_32 >= 2147483648.0;
  }

  /** The two highest bits are the quarter of the globe: east of Greenwich, north of the equator. */
  lemma {:induction false} GeohashQuarter(longitude: real, latitude: real)
    ensures var hash := ToGeohash(longitude, latitude); (hash[51] <==> longitude >= 0.0) && (hash[50] <==> latitude >= 0.0)
  {
    GeohashBits(longitude, latitude, 25);
    UpperHalf(longitude, ENC_LONG);
    UpperHalf(latitude, ENC_LAT);
  }
}

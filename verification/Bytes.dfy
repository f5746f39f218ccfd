/** Octets, the options the models return, and the decimal text both wire formats rely on. */
module Bytes {

  newtype byte = x: int | 0 <= x < 256

  type Bytes = seq<byte>

  datatype Option<+T> = None | Some(value: T)

  const LF: byte := 10
  const CR: byte := 13
  const DOLLAR: byte := 36
  const PERCENT: byte := 37
  const LPAREN: byte := 40
  const STAR: byte := 42
  const PLUS: byte := 43
  const COMMA: byte := 44
  const DASH: byte := 45
  const DIGIT_0: byte := 48
  const DIGIT_9: byte := 57
  const COLON: byte := 58
  const EQUALS: byte := 61
  const GREATER: byte := 62
  const QUESTION: byte := 63
  const LBRACKET: byte := 91
  const BACKSLASH: byte := 92
  const RBRACKET: byte := 93
  const CARET: byte := 94
  const UNDERSCORE: byte := 95
  const TILDE: byte := 126

  /** Offset of the first `b` in `s`. */
  function IndexByte(s: Bytes, b: byte): (r: Option<nat>)
    ensures r.Some? ==> r.value < |s| && s[r.value] == b && b !in s[..r.value]
    ensures r.None? ==> b !in s
  {
    if s == [] then None
    else if s[0] == b then Some(0)
    else match IndexByte(s[1..], b)
         case None => None
         case Some(i) =>
           assert s[..i + 1] == [s[0]] + s[1..][..i];
           Some(i + 1)
  }

  function Elements(s: seq<Bytes>): set<Bytes> {
    set x | x in s
  }

  /** `s` occurs in `buf` at offset `pos`. */
  ghost predicate At(buf: Bytes, pos: nat, s: Bytes)
    decreases |s|
  {
    pos + |s| <= |buf| && (s == [] || (buf[pos] == s[0] && At(buf, pos + 1, s[1..])))
  }

  lemma {:induction false} AtSplit(buf: Bytes, pos: nat, s: Bytes, t: Bytes)
    requires At(buf, pos, s + t)
    ensures At(buf, pos, s)
    ensures At(buf, pos + |s|, t)
    decreases |s|
  {
    if s == [] {
      assert s + t == t;
    } else {
      assert (s + t)[1..] == s[1..] + t;
      AtSplit(buf, pos + 1, s[1..], t);
    }
  }

  lemma {:induction false} AtSlice(buf: Bytes, pos: nat, s: Bytes)
    ensures At(buf, pos, s) <==> pos + |s| <= |buf| && buf[pos..pos + |s|] == s
    decreases |s|
  {
    if s != [] && pos + |s| <= |buf| {
      AtSlice(buf, pos + 1, s[1..]);
      var t := buf[pos..pos + |s|];
      assert t == [buf[pos]] + buf[pos + 1..pos + |s|];
      assert s == [s[0]] + s[1..];
    }
  }
}

/** Decimal printing and parsing of the machine integers, as Rust's `to_string` and `parse` do it. */
module Decimal {
  import opened Bytes

  const U64_MAX: nat := 0xffff_ffff_ffff_ffff
  const TWO_64: nat := 0x1_0000_0000_0000_0000
  type U64 = n: nat | n <= U64_MAX

  const I64_MAX: int := 0x7fff_ffff_ffff_ffff
  const I64_MIN: int := -0x8000_0000_0000_0000

  predicate IsDigit(b: byte) {
    DIGIT_0 <= b <= DIGIT_9
  }

  predicate AllDigits(s: Bytes) {
    forall i :: 0 <= i < |s| ==> IsDigit(s[i])
  }

  /** The number a run of digits denotes. */
  function Value(s: Bytes): nat
    requires AllDigits(s)
  {
    if s == [] then 0
    else Value(s[..|s| - 1]) * 10 + (s[|s| - 1] - DIGIT_0) as nat
  }

  /** The shortest decimal text of `n`. */
  function Digits(n: nat): (s: Bytes)
    ensures |s| > 0 && AllDigits(s)
    ensures Value(s) == n
  {
    var last := DIGIT_0 + (n % 10) as byte;
    if n < 10 then
      assert [last][..0] == [];
      [last]
    else
      var front := Digits(n / 10);
      assert (front + [last])[..|front|] == front;
      front + [last]
  }

  /** An unsigned literal: an optional `+`, then at least one digit, no more than `max`. */
  function ParseUnsigned(s: Bytes, max: nat): (r: Option<nat>)
    ensures r.Some? ==> r.value <= max
  {
    var body := if s != [] && s[0] == PLUS then s[1..] else s;
    if body == [] || !AllDigits(body) || Value(body) > max then None
    else Some(Value(body))
  }

  function ParseU64(s: Bytes): (r: Option<nat>)
    ensures r.Some? ==> r.value <= U64_MAX
  {
    ParseUnsigned(s, U64_MAX)
  }

  predicate FitsI64(n: int) {
    I64_MIN <= n <= I64_MAX
  }

  function ParseI64(s: Bytes): (r: Option<int>)
    ensures r.Some? ==> FitsI64(r.value)
  {
    if s != [] && s[0] == DASH then
      var body := s[1..];
      if body == [] || !AllDigits(body) || Value(body) > -I64_MIN then None
      else var v: int := Value(body); Some(-v)
    else
      match ParseUnsigned(s, I64_MAX)
      case None => None
      case Some(n) => Some(n)
  }

  function PrintI64(n: int): (s: Bytes)
    ensures |s| > 0
    ensures forall i :: 0 <= i < |s| ==> IsDigit(s[i]) || s[i] == DASH
  {
    if n < 0 then [DASH] + Digits(-n) else Digits(n)
  }

  /** Printing an unsigned number and reading it back gives the number. */
  lemma UnsignedRoundTrip(n: nat, max: nat)
    requires n <= max
    ensures ParseUnsigned(Digits(n), max) == Some(n)
  {
    assert IsDigit(Digits(n)[0]);
  }

  /** Printing an `i64` and reading it back gives the number. */
  lemma I64RoundTrip(n: int)
    requires FitsI64(n)
    ensures ParseI64(PrintI64(n)) == Some(n)
  {
    if n < 0 {
      assert ([DASH] + Digits(-n))[1..] == Digits(-n);
    } else {
      assert IsDigit(Digits(n)[0]);
      UnsignedRoundTrip(n, I64_MAX);
    }
  }

  // ── Exactly which texts are numbers ──────────────────────────────────

  function Zeros(k: nat): (s: Bytes)
    ensures |s| == k && AllDigits(s)
  {
    seq(k, _ => DIGIT_0)
  }

  lemma {:induction false} ValueOfZeros(k: nat)
    ensures Value(Zeros(k)) == 0
  {
    if k > 0 {
      assert Zeros(k)[..k - 1] == Zeros(k - 1);
      ValueOfZeros(k - 1);
    }
  }

  lemma {:induction false} ValuePadded(k: nat, s: Bytes)
    requires AllDigits(s)
    ensures AllDigits(Zeros(k) + s) && Value(Zeros(k) + s) == Value(s)
  {
    var all := Zeros(k) + s;
    if s == [] {
      assert all == Zeros(k);
      ValueOfZeros(k);
    } else {
      ValuePadded(k, s[..|s| - 1]);
      assert all[..|all| - 1] == Zeros(k) + s[..|s| - 1];
    }
  }

  /** A run of digits is the shortest text of its value, with zeros before it. */
  lemma {:induction false} DigitsPadded(s: Bytes) returns (k: nat)
    requires s != [] && AllDigits(s)
    ensures s == Zeros(k) + Digits(Value(s))
  {
    var n := |s| - 1;
    var front, last := s[..n], s[n];
    assert s == front + [last];
    if n == 0 {
      k := 0;
      assert front == [] && Digits(Value(s)) == [last];
    } else {
      k := DigitsPadded(front);
      if Value(front) == 0 {
        assert Digits(0) == [DIGIT_0] && Digits(Value(s)) == [last];
        assert Zeros(k) + [DIGIT_0] == Zeros(k + 1);
        k := k + 1;
      } else {
        assert Digits(Value(s)) == Digits(Value(front)) + [last];
      }
    }
  }

  /** The text is the number's shortest one, with an optional `+` and any zeros before it. */
  ghost predicate Denotes(s: Bytes, n: nat) {
    exists plus: bool, k: nat :: Padded(s, plus, k, n)
  }

  predicate Padded(s: Bytes, plus: bool, k: nat, n: nat) {
    s == (if plus then [PLUS] else []) + (Zeros(k) + Digits(n))
  }

  /** An unsigned number is read exactly from the texts that denote it, up to the bound. */
  lemma {:induction false} UnsignedExactly(s: Bytes, max: nat, n: nat)
    ensures ParseUnsigned(s, max) == Some(n) <==> n <= max && Denotes(s, n)
  {
    var plus := s != [] && s[0] == PLUS;
    var body := if plus then s[1..] else s;
    if body != [] && AllDigits(body) {
      var k := DigitsPadded(body);
      assert Padded(s, plus, k, Value(body));
    }
    forall p: bool, k: nat | Padded(s, p, k, n) ensures body != [] && AllDigits(body) && Value(body) == n {
      var text := Zeros(k) + Digits(n);
      ValuePadded(k, Digits(n));
      assert IsDigit(text[0]) && plus == p && body == text;
    }
  }

  /** A signed one likewise, with `-` before a negative one. */
  lemma {:induction false} SignedExactly(s: Bytes, n: int)
    ensures ParseI64(s) == Some(n) <==>
            FitsI64(n) && (if s != [] && s[0] == DASH then n <= 0 && Denotes(s[1..], -n) && (|s| > 1 ==> s[1] != PLUS)
                           else n >= 0 && Denotes(s, n))
  {
    if s != [] && s[0] == DASH {
      if n <= 0 { UnsignedExactly(s[1..], -I64_MIN, -n); }
    } else if n >= 0 {
      UnsignedExactly(s, I64_MAX, n);
    }
  }
}

/** Powers of two. */
module Powers {

  function Pow2(n: nat): (r: nat)
    ensures r > 0
  {
    if n == 0 then 1 else 2 * Pow2(n - 1)
  }

  lemma {:induction false} Pow2Monotone(a: nat, b: nat)
    requires a <= b
    ensures Pow2(a) <= Pow2(b)
  {
    if a < b { Pow2Monotone(a, b - 1); }
  }

  lemma {:induction false} Pow2Add4(n: nat)
    ensures Pow2(n + 4) == 16 * Pow2(n)
  {
    assert Pow2(n + 4) == 2 * Pow2(n + 3);
    assert Pow2(n + 3) == 2 * Pow2(n + 2);
    assert Pow2(n + 2) == 2 * Pow2(n + 1);
  }

  lemma {:induction false} Pow2Add16(n: nat)
    ensures Pow2(n + 16) == 65536 * Pow2(n)
  {
    Pow2Add4(n + 12);
    Pow2Add4(n + 8);
    Pow2Add4(n + 4);
    Pow2Add4(n);
  }

  lemma {:induction false} TwoTo32()
    ensures Pow2(16) == 0x1_0000 && Pow2(32) == 0x1_0000_0000
  {
    Pow2Add16(0);
    Pow2Add16(16);
  }

  lemma {:induction false} TwoTo64()
    ensures Pow2(64) == 0x1_0000_0000_0000_0000
  {
    TwoTo32();
    Pow2Add16(32);
    Pow2Add16(48);
  }
}

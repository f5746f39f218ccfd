/** Well-formed UTF-8, which simple and error strings must be: exactly the encodings of Unicode scalar values. */
module Utf8 {
  import opened Bytes
  import opened Resp

  /** A code point other than the surrogates. */
  predicate Scalar(c: nat) {
    c < 0xD800 || 0xE000 <= c <= 0x10FFFF
  }

  function Tail(c: nat): byte {
    (0x80 + c % 64) as byte
  }

  /** Section 3 of RFC 3629: one to four octets, six bits in each but the first. */
  function Encode(c: nat): (s: Bytes)
    requires Scalar(c)
    ensures 1 <= |s| <= 4
  {
    if c < 0x80 then [c as byte]
    else if c < 0x800 then [(0xC0 + c / 64) as byte, Tail(c)]
    else if c < 0x10000 then [(0xE0 + c / 64 / 64) as byte, Tail(c / 64), Tail(c)]
    else [(0xF0 + c / 64 / 64 / 64) as byte, Tail(c / 64 / 64), Tail(c / 64), Tail(c)]
  }

  function EncodeAll(cs: seq<nat>): Bytes
    requires forall i :: 0 <= i < |cs| ==> Scalar(cs[i])
  {
    if cs == [] then [] else Encode(cs[0]) + EncodeAll(cs[1..])
  }

  /** An encoded scalar is recognised as such, whatever follows. */
  lemma {:induction false} HeadOfEncoded(c: nat, rest: Bytes)
    requires Scalar(c)
    ensures Utf8Head(Encode(c) + rest) == |Encode(c)|
  {
    var s := Encode(c) + rest;
    assert forall i :: 0 <= i < |Encode(c)| ==> s[i] == Encode(c)[i];
  }

  function Six(b: byte): nat
    requires 0x80 <= b <= 0xBF
  {
    (b - 0x80) as nat
  }

  lemma {:induction false} Split(q: nat, r: nat)
    requires r < 64
    ensures (q * 64 + r) / 64 == q && (q * 64 + r) % 64 == r
  {}

  lemma {:induction false} DecodeTwo(s: Bytes) returns (c: nat)
    requires |s| == 2 && Utf8Head(s) == 2
    ensures Scalar(c) && Encode(c) == s
  {
    var q := (s[0] - 0xC0) as nat;
    c := q * 64 + Six(s[1]);
    Split(q, Six(s[1]));
  }

  lemma {:induction false} DecodeThree(s: Bytes) returns (c: nat)
    requires |s| == 3 && Utf8Head(s) == 3
    ensures Scalar(c) && Encode(c) == s
  {
    var q := (s[0] - 0xE0) as nat;
    var m := q * 64 + Six(s[1]);
    c := m * 64 + Six(s[2]);
    Split(q, Six(s[1]));
    Split(m, Six(s[2]));
  }

  lemma {:induction false} DecodeFour(s: Bytes) returns (c: nat)
    requires |s| == 4 && Utf8Head(s) == 4
    ensures Scalar(c) && Encode(c) == s
  {
    var q := (s[0] - 0xF0) as nat;
    var m := q * 64 + Six(s[1]);
    var l := m * 64 + Six(s[2]);
    c := l * 64 + Six(s[3]);
    Split(q, Six(s[1]));
    Split(m, Six(s[2]));
    Split(l, Six(s[3]));
  }

  lemma {:induction false} HeadIsLocal(s: Bytes, n: nat)
    requires s != [] && n == Utf8Head(s) && n > 0
    ensures n <= 4 && Utf8Head(s[..n]) == n
  {}

  /** What is recognised at the front is an encoded scalar. */
  lemma {:induction false} DecodeHead(s: Bytes, n: nat) returns (c: nat)
    requires s != [] && n == Utf8Head(s) && n > 0
    ensures Scalar(c) && Encode(c) == s[..n]
  {
    HeadIsLocal(s, n);
    if n == 1 {
      c := s[0] as nat;
      assert s[..1] == [s[0]];
    } else if n == 2 {
      c := DecodeTwo(s[..n]);
    } else if n == 3 {
      c := DecodeThree(s[..n]);
    } else {
      c := DecodeFour(s[..n]);
    }
  }

  lemma {:induction false} DecodeAll(s: Bytes) returns (cs: seq<nat>)
    requires ValidUtf8(s)
    ensures (forall i :: 0 <= i < |cs| ==> Scalar(cs[i])) && EncodeAll(cs) == s
  {
    if s == [] {
      cs := [];
    } else {
      var n := Utf8Head(s);
      var c := DecodeHead(s, n);
      var rest := DecodeAll(s[n..]);
      cs := [c] + rest;
      assert cs[1..] == rest && s == s[..n] + s[n..];
    }
  }

  lemma {:induction false} EncodedIsValid(cs: seq<nat>)
    requires forall i :: 0 <= i < |cs| ==> Scalar(cs[i])
    ensures ValidUtf8(EncodeAll(cs))
  {
    if cs != [] {
      var rest := EncodeAll(cs[1..]);
      HeadOfEncoded(cs[0], rest);
      EncodedIsValid(cs[1..]);
      assert (Encode(cs[0]) + rest)[|Encode(cs[0])|..] == rest;
    }
  }

  ghost predicate Encodes(s: Bytes, cs: seq<nat>) {
    (forall i :: 0 <= i < |cs| ==> Scalar(cs[i])) && EncodeAll(cs) == s
  }

  /** A byte string is accepted exactly when it encodes a sequence of Unicode scalar values. */
  lemma {:induction false} ValidExactly(s: Bytes)
    ensures ValidUtf8(s) <==> exists cs :: Encodes(s, cs)
  {
    if ValidUtf8(s) {
      var cs := DecodeAll(s);
      assert Encodes(s, cs);
    }
    forall cs | Encodes(s, cs) ensures ValidUtf8(s) { EncodedIsValid(cs); }
  }
}

/** RESP on the wire, octet by octet: what the type bytes, the nulls and the counts look like to any other client. */
module RespWire {
  import opened Bytes
  import opened Decimal
  import opened Resp
  import opened RespRoundTrip
  import Connection

  /** The first octet of a frame. */
  function TypeByte(f: Frame, resp3: bool): byte {
    match f
    case Simple(_) => 43
    case Error(_) => 45
    case Integer(_) => 58
    case Bulk(_) => 36
    case Null => if resp3 then 95 else 36
    case NullArray => if resp3 then 95 else 42
    case Array(_) => 42
    case Map(_) => if resp3 then 37 else 42
    case Set(_) => if resp3 then 126 else 42
    case Push(_) => if resp3 then 62 else 42
    case Double(_) => if resp3 then 44 else 36
  }

  /** How many frames the header of an aggregate announces, a map's keys and values apart in RESP2. */
  function Announced(f: Frame, resp3: bool): Option<nat> {
    match f
    case Array(items) => Some(|items|)
    case Map(pairs) => Some(if resp3 then |pairs| else 2 * |pairs|)
    case Set(items) => Some(|items|)
    case Push(items) => Some(|items|)
    case _ => None
  }

  /**
   * Every frame, in both modes: its type byte, its count line, and its line end. The nulls, whole: RESP2 tells them apart,
   * RESP3 does not.
   */
  lemma {:induction false} Wire(f: Frame, resp3: bool, ft: FloatText, s: Bytes)
    requires s == Serialize(f, resp3, ft)
    ensures |s| >= 3 && s[0] == TypeByte(f, resp3)
    ensures Announced(f, resp3).Some? ==>
              var head := [TypeByte(f, resp3)] + Digits(Announced(f, resp3).value) + [13, 10];
              |head| <= |s| && s[..|head|] == head
    ensures Announced(f, resp3).None? ==> s[|s| - 2..] == [13, 10]
    ensures f.Null? && !resp3 ==> s == [36, 45, 49, 13, 10]
    ensures f.NullArray? && !resp3 ==> s == [42, 45, 49, 13, 10]
    ensures (f.Null? || f.NullArray?) && resp3 ==> s == [95, 13, 10]
  {
    if Announced(f, resp3).Some? {
      HeaderFirst(TypeByte(f, resp3), Announced(f, resp3).value, s);
    } else if f.Bulk? {
      BulkWire(f.data, s);
    } else if f.Double? && !resp3 {
      BulkWire(ft.format(f.f), s);
    }
  }

  lemma {:induction false} HeaderFirst(b: byte, n: nat, s: Bytes)
    requires |s| >= |Header(b, n)| && s[..|Header(b, n)|] == Header(b, n)
    ensures var head := [b] + Digits(n) + [13, 10]; |head| <= |s| && s[..|head|] == head && |s| >= 3 && s[0] == b
  {
    assert Header(b, n) == [b] + Digits(n) + [13, 10];
    assert s[0] == s[..|Header(b, n)|][0];
  }

  lemma {:induction false} BulkWire(data: Bytes, s: Bytes)
    requires s == BulkBytes(data)
    ensures s == [36] + Digits(|data|) + [13, 10] + data + [13, 10]
  {}

  /** The lines, whole. */
  lemma {:induction false} LinesOnTheWire(t: Bytes, n: int, d: Float64, resp3: bool, ft: FloatText)
    ensures Serialize(Simple(t), resp3, ft) == [43] + t + [13, 10]
    ensures Serialize(Error(t), resp3, ft) == [45] + t + [13, 10]
    ensures Serialize(Integer(n), resp3, ft) == [58] + PrintI64(n) + [13, 10]
    ensures Serialize(Bulk(t), resp3, ft) == [36] + Digits(|t|) + [13, 10] + t + [13, 10]
    ensures Serialize(Double(d), true, ft) == [44] + ft.format(d) + [13, 10]
  {
    BulkWire(t, BulkBytes(t));
  }

  // ── What RESP2 keeps of a frame ──────────────────────────────────────

  lemma {:induction false} FlatAt(ps: seq<Pair>, resp3: bool, ft: FloatText, i: nat)
    requires i < |ps|
    ensures CanonFlat(ps, resp3, ft)[2 * i] == Canon(ps[i].key, resp3, ft)
    ensures CanonFlat(ps, resp3, ft)[2 * i + 1] == Canon(ps[i].val, resp3, ft)
  {
    if i > 0 { FlatAt(ps[1..], resp3, ft, i - 1); }
  }

  lemma {:induction false} AllAt(fs: seq<Frame>, resp3: bool, ft: FloatText, i: nat)
    requires i < |fs|
    ensures CanonAll(fs, resp3, ft)[i] == Canon(fs[i], resp3, ft)
  {
    if i > 0 { AllAt(fs[1..], resp3, ft, i - 1); }
  }

  /**
   * The canonical form of a map, set, push or double in RESP2: a map becomes the list of its keys and values in turn, a
   * set or push the list of its items, a double the text of it. (In RESP3 `PlainIsCanon` says what changes.)
   */
  lemma {:induction false} Resp2Keeps(pairs: seq<Pair>, items: seq<Frame>, d: Float64, ft: FloatText)
    ensures var m := Canon(Map(pairs), false, ft);
            && m.Array? && |m.items| == 2 * |pairs|
            && forall i :: 0 <= i < |pairs| ==>
                 m.items[2 * i] == Canon(pairs[i].key, false, ft) && m.items[2 * i + 1] == Canon(pairs[i].val, false, ft)
    ensures var a := Canon(Array(items), false, ft);
            && Canon(Set(items), false, ft) == a && Canon(Push(items), false, ft) == a
            && a.Array? && |a.items| == |items| && forall i :: 0 <= i < |items| ==> a.items[i] == Canon(items[i], false, ft)
    ensures Canon(Double(d), false, ft) == Bulk(ft.format(d))
    ensures Canon(NullArray, false, ft) == Null == Canon(Null, false, ft)
  {
    forall i | 0 <= i < |pairs|
      ensures CanonFlat(pairs, false, ft)[2 * i] == Canon(pairs[i].key, false, ft)
              && CanonFlat(pairs, false, ft)[2 * i + 1] == Canon(pairs[i].val, false, ft)
    {
      FlatAt(pairs, false, ft, i);
    }
    forall i | 0 <= i < |items| ensures CanonAll(items, false, ft)[i] == Canon(items[i], false, ft) {
      AllAt(items, false, ft, i);
    }
  }

  /** A bulk string or array with any negative count reads as null, whatever follows. */
  lemma {:induction false} NegativeCountIsNull(b: byte, n: int, more: Bytes, ft: FloatText)
    requires (b == 36 || b == 42) && I64_MIN <= n < 0
    ensures Connection.TakeFrame([b] + (PrintI64(n) + CRLF) + more, ft) == Connection.Got(Null, more)
  {
    var head := [b] + (PrintI64(n) + CRLF);
    var buf := head + more;
    AtSlice(buf, 0, head);
    IntAt(buf, 0, b, n);
    assert CheckFrame(buf, 0) == CheckBody(buf, 0, b) && CheckBody(buf, 0, b) == Done(|head|);
    assert ParseFrame(buf, 0, ft) == ParseBody(buf, 0, b, ft) && ParseBody(buf, 0, b, ft) == Ok(Null, |head|);
    assert buf[|head|..] == more;
  }
}

/** The codec as the source runs it: a cursor that advances, a buffer that grows, loops over children. */
module RespCodec {
  import opened Bytes
  import opened Decimal
  import opened Resp

  /** `Cursor<&[u8]>`: a fixed slice and a position in it. */
  class Cursor {
    const data: Bytes
    var pos: nat

    ghost predicate Valid()
      reads this
    {
      pos <= |data|
    }

    constructor (data: Bytes)
      ensures this.data == data && pos == 0 && Valid()
    {
      this.data := data;
      pos := 0;
    }
  }

  /** Consumes one byte; `None` when nothing is left. */
  method GetU8(src: Cursor) returns (r: Option<byte>)
    requires src.Valid()
    modifies src
    ensures src.Valid()
    ensures old(src.pos) == |src.data| ==> r == None && src.pos == old(src.pos)
    ensures old(src.pos) < |src.data| ==> r == Some(src.data[old(src.pos)]) && src.pos == old(src.pos) + 1
  {
    if src.pos == |src.data| { return None; }
    r := Some(src.data[src.pos]);
    src.pos := src.pos + 1;
  }

  /** Skips `n` bytes; `false`, and nothing skipped, when fewer are left. */
  method Skip(src: Cursor, n: nat) returns (ok: bool)
    requires src.Valid()
    modifies src
    ensures src.Valid()
    ensures ok <==> old(src.pos) + n <= |src.data|
    ensures src.pos == if ok then old(src.pos) + n else old(src.pos)
  {
    ok := |src.data| - src.pos >= n;
    if ok { src.pos := src.pos + n; }
  }

  /** Reads up to the next line end and moves past it. */
  method GetLine(src: Cursor) returns (r: Option<Bytes>)
    requires src.Valid()
    modifies src
    ensures src.Valid()
    ensures r.Some? <==> FindCrlf(src.data, old(src.pos)).Some?
    ensures r.Some? ==> var e := FindCrlf(src.data, old(src.pos)).value;
                        r.value == src.data[old(src.pos)..e] && src.pos == e + 2
    ensures r.None? ==> src.pos == old(src.pos)
  {
    var start, i := src.pos, src.pos;
    while i + 1 < |src.data|
      invariant start <= i <= |src.data|
      invariant FindCrlf(src.data, start) == FindCrlf(src.data, i)
      invariant src.pos == start
    {
      if src.data[i] == CR && src.data[i + 1] == LF {
        src.pos := i + 2;
        return Some(src.data[start..i]);
      }
      i := i + 1;
    }
    r := None;
  }

  method GetLineAsInt(src: Cursor) returns (r: IntLine)
    requires src.Valid()
    modifies src
    ensures src.Valid() && r == GetInt(src.data, old(src.pos))
    ensures r.IntOk? ==> src.pos == r.next
  {
    var line := GetLine(src);
    if line.None? { return IntIncomplete; }
    var n := ParseI64(line.value);
    if n.None? { return IntMalformed; }
    r := IntOk(n.value, src.pos);
  }

  // ── check ────────────────────────────────────────────────────────────

  /** `Frame::check` computes `CheckFrame` and leaves the cursor at the end of the frame. */
  method Check(src: Cursor) returns (r: Checked)
    requires src.Valid()
    modifies src
    ensures src.Valid() && r == CheckFrame(src.data, old(src.pos))
    ensures r.Done? ==> src.pos == r.end
    decreases |src.data| - src.pos, 1
  {
    var t := GetU8(src);
    if t.None? { return NeedMore; }
    var b := t.value;
    if IsLineType(b) {
      var line := GetLine(src);
      if line.None? { return NeedMore; }
      return Done(src.pos);
    } else if b == DOLLAR {
      var len := GetLineAsInt(src);
      if len.IntIncomplete? { return NeedMore; }
      if len.IntMalformed? { return Bad; }
      if len.n < 0 { return Done(src.pos); }
      var ok := Skip(src, len.n + 2);
      if !ok { return NeedMore; }
      return Done(src.pos);
    } else if b == STAR || IsAggregateType(b) {
      var count := GetLineAsInt(src);
      if count.IntIncomplete? { return NeedMore; }
      if count.IntMalformed? { return Bad; }
      if count.n < 0 { return Done(src.pos); }
      if b == PERCENT {
        r := CheckPairs(src, count.n);
      } else {
        r := CheckItems(src, count.n);
      }
    } else {
      r := Bad;
    }
  }

  method CheckItems(src: Cursor, n: nat) returns (r: Checked)
    requires src.Valid()
    modifies src
    ensures src.Valid() && r == CheckMany(src.data, old(src.pos), n)
    ensures r.Done? ==> src.pos == r.end
    decreases |src.data| - src.pos, 2
  {
    for i := 0 to n
      invariant src.Valid() && old(src.pos) <= src.pos
      invariant CheckMany(src.data, old(src.pos), n) == CheckMany(src.data, src.pos, n - i)
    {
      var c := Check(src);
      if !c.Done? { return c; }
    }
    r := Done(src.pos);
  }

  method CheckPairs(src: Cursor, n: nat) returns (r: Checked)
    requires src.Valid()
    modifies src
    ensures src.Valid() && r == CheckMany(src.data, old(src.pos), 2 * n)
    ensures r.Done? ==> src.pos == r.end
    decreases |src.data| - src.pos, 2
  {
    for i := 0 to n
      invariant src.Valid() && old(src.pos) <= src.pos
      invariant CheckMany(src.data, old(src.pos), 2 * n) == CheckMany(src.data, src.pos, 2 * (n - i))
    {
      var k := Check(src);
      if !k.Done? { return k; }
      var v := Check(src);
      if !v.Done? { return v; }
    }
    r := Done(src.pos);
  }

  // ── parse ────────────────────────────────────────────────────────────

  /** Frames already parsed, in front of an outcome for the rest. */
  function Prepend(fs: seq<Frame>, r: Parsed<seq<Frame>>): Parsed<seq<Frame>> {
    match r
    case Ok(gs, e) => Ok(fs + gs, e)
    case other => other
  }

  lemma {:induction false} PrependNil(r: Parsed<seq<Frame>>)
    ensures Prepend([], r) == r
  {
    if r.Ok? { assert [] + r.value == r.value; }
  }

  /** `Frame::parse` computes `ParseFrame` and leaves the cursor at the end of the frame. */
  method Parse(src: Cursor, ft: FloatText) returns (r: Parsed<Frame>)
    requires src.Valid()
    modifies src
    ensures src.Valid() && r == ParseFrame(src.data, old(src.pos), ft)
    ensures r.Ok? ==> src.pos == r.end
    decreases |src.data| - src.pos, 1
  {
    var t := GetU8(src);
    if t.None? { return Incomplete; }
    var b := t.value;
    if IsLineType(b) {
      r := ParseLineFrame(src, b, ft);
    } else if b == DOLLAR {
      var len := GetLineAsInt(src);
      if len.IntIncomplete? { return Incomplete; }
      if len.IntMalformed? { return Malformed; }
      if len.n < 0 { return Ok(Null, src.pos); }
      if |src.data| - src.pos < len.n + 2 { return Incomplete; }
      var data := src.data[src.pos..src.pos + len.n];
      var ok := Skip(src, len.n + 2);
      return Ok(Bulk(data), src.pos);
    } else if b == STAR || IsAggregateType(b) {
      var count := GetLineAsInt(src);
      if count.IntIncomplete? { return Incomplete; }
      if count.IntMalformed? { return Malformed; }
      if count.n < 0 {
        if b == STAR { return Ok(Null, src.pos); }
        return Panicked;
      }
      r := ParseAggregate(src, b, count.n, ft);
    } else {
      r := Malformed;
    }
  }

  /** The one-line frames, their type byte already read. */
  method ParseLineFrame(src: Cursor, b: byte, ft: FloatText) returns (r: Parsed<Frame>)
    requires src.Valid() && src.pos > 0 && IsLineType(b)
    modifies src
    ensures src.Valid() && r == ParseLine(src.data, old(src.pos) - 1, b, ft)
    ensures r.Ok? ==> src.pos == r.end
    decreases |src.data| - src.pos, 0
  {
    if b == COLON {
      var n := GetLineAsInt(src);
      if n.IntIncomplete? { return Incomplete; }
      if n.IntMalformed? { return Malformed; }
      return Ok(Integer(n.n), src.pos);
    }
    var line := GetLine(src);
    if line.None? { return Incomplete; }
    if b == UNDERSCORE { return Ok(Null, src.pos); }
    if b == COMMA {
      var d := ft.parse(line.value);
      if d.None? { return Malformed; }
      return Ok(Double(d.value), src.pos);
    }
    if !ValidUtf8(line.value) { return Malformed; }
    if b == PLUS { return Ok(Simple(line.value), src.pos); }
    r := Ok(Error(line.value), src.pos);
  }

  method ParseAggregate(src: Cursor, b: byte, n: nat, ft: FloatText) returns (r: Parsed<Frame>)
    requires src.Valid()
    modifies src
    ensures src.Valid()
    ensures var items := ParseMany(src.data, old(src.pos), ItemCount(b, n), ft);
            r == if items.Ok? then Ok(Wrap(b, items.value), items.end) else Fail(items)
    ensures r.Ok? ==> src.pos == r.end
    decreases |src.data| - src.pos, 3
  {
    if b == PERCENT {
      var p := ParsePairs(src, n, ft);
      if !p.Ok? { return Fail(p); }
      r := Ok(Map(p.value), src.pos);
    } else {
      var p := ParseItems(src, n, ft);
      if !p.Ok? { return Fail(p); }
      r := Ok(Wrap(b, p.value), src.pos);
    }
  }

  method ParseItems(src: Cursor, n: nat, ft: FloatText) returns (r: Parsed<seq<Frame>>)
    requires src.Valid()
    modifies src
    ensures src.Valid() && r == ParseMany(src.data, old(src.pos), n, ft)
    ensures r.Ok? ==> src.pos == r.end
    decreases |src.data| - src.pos, 2
  {
    var frames := [];
    PrependNil(ParseMany(src.data, src.pos, n, ft));
    for i := 0 to n
      invariant src.Valid() && old(src.pos) <= src.pos
      invariant ParseMany(src.data, old(src.pos), n, ft) == Prepend(frames, ParseMany(src.data, src.pos, n - i, ft))
    {
      ghost var here := src.pos;
      var f := Parse(src, ft);
      if !f.Ok? { return Fail(f); }
      PrependStep(src.data, here, n - i, frames, ft);
      frames := frames + [f.value];
    }
    assert frames + [] == frames;
    r := Ok(frames, src.pos);
  }

  lemma {:induction false} PrependStep(buf: Bytes, pos: nat, n: nat, fs: seq<Frame>, ft: FloatText)
    requires n > 0 && pos <= |buf| && ParseFrame(buf, pos, ft).Ok?
    ensures var f := ParseFrame(buf, pos, ft);
            Prepend(fs, ParseMany(buf, pos, n, ft)) == Prepend(fs + [f.value], ParseMany(buf, f.end, n - 1, ft))
  {
    var f := ParseFrame(buf, pos, ft);
    var rest := ParseMany(buf, f.end, n - 1, ft);
    if rest.Ok? {
      assert fs + ([f.value] + rest.value) == fs + [f.value] + rest.value;
    }
  }

  /** The frames of a list of pairs, key before value. */
  function Unpair(ps: seq<Pair>): (r: seq<Frame>)
    ensures |r| == 2 * |ps|
  {
    if ps == [] then [] else Unpair(ps[..|ps| - 1]) + [ps[|ps| - 1].key] + [ps[|ps| - 1].val]
  }

  lemma {:induction false} PairUpUnpair(ps: seq<Pair>, rest: seq<Frame>)
    requires |rest| % 2 == 0
    ensures PairUp(Unpair(ps) + rest) == ps + PairUp(rest)
  {
    if ps == [] {
      assert [] + rest == rest;
    } else {
      var front, p := ps[..|ps| - 1], ps[|ps| - 1];
      var tail := [p.key] + [p.val] + rest;
      assert Unpair(ps) + rest == Unpair(front) + tail;
      assert tail[2..] == rest;
      PairUpUnpair(front, tail);
      assert front + ([p] + PairUp(rest)) == ps + PairUp(rest);
    }
  }

  /** The map loop: keys and values in turn, pushed two by two. */
  method ParsePairs(src: Cursor, n: nat, ft: FloatText) returns (r: Parsed<seq<Pair>>)
    requires src.Valid()
    modifies src
    ensures src.Valid()
    ensures var items := ParseMany(src.data, old(src.pos), 2 * n, ft);
            r == if items.Ok? then Ok(PairUp(items.value), items.end) else Fail(items)
    ensures r.Ok? ==> src.pos == r.end
    decreases |src.data| - src.pos, 2
  {
    var pairs: seq<Pair> := [];
    ghost var all, todo := ParseMany(src.data, src.pos, 2 * n, ft), 2 * n;
    PrependNil(all);
    for i := 0 to n
      invariant src.Valid() && old(src.pos) <= src.pos && todo == 2 * (n - i)
      invariant all == Prepend(Unpair(pairs), ParseMany(src.data, src.pos, todo, ft))
    {
      ghost var here := src.pos;
      var k := Parse(src, ft);
      if !k.Ok? { return Fail(k); }
      var v := Parse(src, ft);
      if !v.Ok? { return Fail(v); }
      PrependPair(src.data, here, todo, pairs, k.value, k.end, v.value, v.end, ft);
      pairs := pairs + [Pair(k.value, v.value)];
      todo := todo - 2;
    }
    PairUpUnpair(pairs, []);
    assert Unpair(pairs) + [] == Unpair(pairs) && pairs + [] == pairs;
    r := Ok(pairs, src.pos);
  }

  lemma {:induction false} PrependPair(
      buf: Bytes, pos: nat, n: nat, ps: seq<Pair>, k: Frame, mid: nat, v: Frame, end: nat, ft: FloatText)
    requires n > 1 && pos <= |buf|
    requires ParseFrame(buf, pos, ft) == Ok(k, mid) && ParseFrame(buf, mid, ft) == Ok(v, end)
    ensures Prepend(Unpair(ps), ParseMany(buf, pos, n, ft))
         == Prepend(Unpair(ps + [Pair(k, v)]), ParseMany(buf, end, n - 2, ft))
  {
    var fs := Unpair(ps);
    UnpairSnoc(ps, k, v);
    PrependStep(buf, pos, n, fs, ft);
    PrependStep(buf, mid, n - 1, fs + [k], ft);
  }

  lemma {:induction false} UnpairSnoc(ps: seq<Pair>, k: Frame, v: Frame)
    ensures Unpair(ps + [Pair(k, v)]) == Unpair(ps) + [k] + [v]
  {
    var all := ps + [Pair(k, v)];
    assert all[..|all| - 1] == ps;
  }

  // ── serialize ────────────────────────────────────────────────────────

  /** A growable byte vector. */
  class Buffer {
    var data: Bytes

    constructor ()
      ensures data == []
    {
      data := [];
    }

    method Push(b: byte)
      modifies this
      ensures data == old(data) + [b]
    {
      data := data + [b];
    }

    method Extend(s: Bytes)
      modifies this
      ensures data == old(data) + s
    {
      data := data + s;
    }
  }

  method WriteHeader(buf: Buffer, b: byte, n: nat)
    modifies buf
    ensures buf.data == old(buf.data) + Header(b, n)
  {
    buf.Push(b);
    buf.Extend(Digits(n));
    buf.Extend(CRLF);
    assert buf.data == old(buf.data) + [b] + Digits(n) + CRLF;
  }

  method WriteLine(buf: Buffer, b: byte, line: Bytes)
    modifies buf
    ensures buf.data == old(buf.data) + ([b] + (line + CRLF))
  {
    buf.Push(b);
    buf.Extend(line);
    buf.Extend(CRLF);
  }

  method WriteBulk(buf: Buffer, data: Bytes)
    modifies buf
    ensures buf.data == old(buf.data) + BulkBytes(data)
  {
    WriteHeader(buf, DOLLAR, |data|);
    buf.Extend(data);
    buf.Extend(CRLF);
  }

  /** `write_to_buf` appends exactly the serialization. */
  method WriteToBuf(f: Frame, buf: Buffer, resp3: bool, ft: FloatText)
    modifies buf
    ensures buf.data == old(buf.data) + Serialize(f, resp3, ft)
    decreases f, 0
  {
    match f
    case Simple(t) => WriteLine(buf, PLUS, t);
    case Error(t) => WriteLine(buf, DASH, t);
    case Integer(n) => WriteLine(buf, COLON, PrintI64(n));
    case Bulk(data) => WriteBulk(buf, data);
    case Null => if resp3 { WriteLine(buf, UNDERSCORE, []); } else { WriteLine(buf, DOLLAR, [DASH, DIGIT_0 + 1]); }
    case NullArray => if resp3 { WriteLine(buf, UNDERSCORE, []); } else { WriteLine(buf, STAR, [DASH, DIGIT_0 + 1]); }
    case Array(items) =>
      WriteHeader(buf, STAR, |items|);
      WriteItems(items, buf, resp3, ft);
    case Map(pairs) =>
      if resp3 { WriteHeader(buf, PERCENT, |pairs|); } else { WriteHeader(buf, STAR, 2 * |pairs|); }
      WritePairs(pairs, buf, resp3, ft);
    case Set(items) =>
      WriteHeader(buf, if resp3 then TILDE else STAR, |items|);
      WriteItems(items, buf, resp3, ft);
    case Push(items) =>
      WriteHeader(buf, if resp3 then GREATER else STAR, |items|);
      WriteItems(items, buf, resp3, ft);
    case Double(d) => if resp3 { WriteLine(buf, COMMA, ft.format(d)); } else { WriteBulk(buf, ft.format(d)); }
  }

  method WriteItems(items: seq<Frame>, buf: Buffer, resp3: bool, ft: FloatText)
    modifies buf
    ensures buf.data == old(buf.data) + SerializeAll(items, resp3, ft)
    decreases items, 1
  {
    ghost var all := old(buf.data) + SerializeAll(items, resp3, ft);
    for i := 0 to |items|
      invariant buf.data + SerializeAll(items[i..], resp3, ft) == all
    {
      assert items[i..][0] == items[i] && items[i..][1..] == items[i + 1..];
      WriteToBuf(items[i], buf, resp3, ft);
    }
  }

  method WritePairs(pairs: seq<Pair>, buf: Buffer, resp3: bool, ft: FloatText)
    modifies buf
    ensures buf.data == old(buf.data) + SerializePairs(pairs, resp3, ft)
    decreases pairs, 1
  {
    ghost var all := old(buf.data) + SerializePairs(pairs, resp3, ft);
    for i := 0 to |pairs|
      invariant buf.data + SerializePairs(pairs[i..], resp3, ft) == all
    {
      assert pairs[i..][0] == pairs[i] && pairs[i..][1..] == pairs[i + 1..];
      var p := pairs[i];
      assert p.key < p && p.val < p;
      ghost var was := buf.data;
      WriteToBuf(p.key, buf, resp3, ft);
      WriteToBuf(p.val, buf, resp3, ft);
      Regroup(was, Serialize(p.key, resp3, ft), Serialize(p.val, resp3, ft), SerializePairs(pairs[i + 1..], resp3, ft));
    }
  }

  lemma {:induction false} Regroup(a: Bytes, b: Bytes, c: Bytes, d: Bytes)
    ensures a + b + c + d == a + (b + (c + d))
  {}

  method SerializeResp(f: Frame, resp3: bool, ft: FloatText) returns (s: Bytes)
    ensures s == Serialize(f, resp3, ft)
  {
    var buf := new Buffer();
    WriteToBuf(f, buf, resp3, ft);
    s := buf.data;
  }
}

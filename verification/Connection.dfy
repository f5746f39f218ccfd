/** The buffered reader: arbitrary network chunks in, frames out. */
module Connection {
  import opened Bytes
  import opened Decimal
  import opened Resp
  import opened RespLaws
  import opened RespRoundTrip
  import opened RespCodec

  // ── One frame from a buffer ──────────────────────────────────────────

  datatype Attempt = Got(frame: Frame, rest: Bytes) | Wait | Failed | Crashed

  /** Checks first, then parses from the start and drops the bytes the checker counted. */
  function TakeFrame(buf: Bytes, ft: FloatText): Attempt {
    match CheckFrame(buf, 0)
    case NeedMore => Wait
    case Bad => Failed
    case Done(len) =>
      match ParseFrame(buf, 0, ft)
      case Ok(f, _) => Got(f, buf[len..])
      case Panicked => Crashed
      case _ => Failed
  }

  /** Once an attempt is decided, more bytes only lengthen what is left over. */
  lemma {:induction false} TakeFrameStable(buf: Bytes, more: Bytes, ft: FloatText)
    requires !TakeFrame(buf, ft).Wait?
    ensures match TakeFrame(buf, ft)
            case Got(f, rest) => TakeFrame(buf + more, ft) == Got(f, rest + more)
            case other => TakeFrame(buf + more, ft) == other
  {
    CheckStable(buf, buf + more, 0);
    var c := CheckFrame(buf, 0);
    if c.Done? {
      CheckAgreesWithParse(buf, 0, ft);
      ParseStable(buf, buf + more, 0, ft);
      assert (buf + more)[c.end..] == buf[c.end..] + more;
    }
  }

  /** A map, set or push header with a negative count checks as a frame without items, and parsing it panics. */
  lemma {:induction false} NegativeCountCrashes(b: byte, n: int, more: Bytes, ft: FloatText)
    requires IsAggregateType(b) && I64_MIN <= n < 0
    ensures TakeFrame([b] + (PrintI64(n) + CRLF) + more, ft) == Crashed
  {
    var head := [b] + (PrintI64(n) + CRLF);
    var buf := head + more;
    AtSlice(buf, 0, head);
    IntAt(buf, 0, b, n);
    assert CheckFrame(buf, 0) == CheckBody(buf, 0, b) && CheckBody(buf, 0, b).Done?;
    assert ParseFrame(buf, 0, ft) == ParseBody(buf, 0, b, ft) && ParseBody(buf, 0, b, ft).Panicked?;
  }

  // ── The stream of results ────────────────────────────────────────────

  datatype ReadResult = Frame(frame: Frame) | Closed | Reset | ProtocolError | Panic

  /** What the next read returns, given every byte still to come. */
  function Next(bytes: Bytes, ft: FloatText): ReadResult {
    match TakeFrame(bytes, ft)
    case Got(f, _) => Frame(f)
    case Wait => if bytes == [] then Closed else Reset
    case Failed => ProtocolError
    case Crashed => Panic
  }

  /** What is unread after it. */
  function Rest(bytes: Bytes, ft: FloatText): (r: Bytes)
    ensures Next(bytes, ft).Frame? ==> |r| < |bytes|
  {
    match TakeFrame(bytes, ft)
    case Got(_, rest) => rest
    case _ => bytes
  }

  function ReadAll(bytes: Bytes, ft: FloatText): seq<ReadResult>
    decreases |bytes|
  {
    var r := Next(bytes, ft);
    if r.Frame? then [r] + ReadAll(Rest(bytes, ft), ft) else [r]
  }

  /** What a read returns, exactly: a frame, the two ways a stream can end, and the two ways bytes can be wrong. */
  lemma {:induction false} NextExactly(bytes: Bytes, ft: FloatText)
    ensures Next(bytes, ft) == Closed <==> bytes == []
    ensures Next(bytes, ft) == Reset <==> bytes != [] && CheckFrame(bytes, 0).NeedMore?
    ensures Next(bytes, ft) == Panic <==> ParseFrame(bytes, 0, ft).Panicked? && CheckFrame(bytes, 0).Done?
    ensures Next(bytes, ft) == ProtocolError <==>
            CheckFrame(bytes, 0).Bad? || (CheckFrame(bytes, 0).Done? && ParseFrame(bytes, 0, ft).Malformed?)
    ensures Next(bytes, ft).Frame? <==> ParseFrame(bytes, 0, ft).Ok?
    ensures Next(bytes, ft).Frame? ==>
              && Next(bytes, ft).frame == ParseFrame(bytes, 0, ft).value
              && Rest(bytes, ft) == bytes[ParseFrame(bytes, 0, ft).end..]
    ensures !Next(bytes, ft).Frame? ==> Rest(bytes, ft) == bytes
  {
    CheckAgreesWithParse(bytes, 0, ft);
  }

  /** Bytes that open no frame are a protocol error. */
  lemma {:induction false} UnknownTypeFails(b: byte, more: Bytes, ft: FloatText)
    requires b !in [43, 45, 58, 44, 95, 36, 42, 37, 126, 62]
    ensures Next([b] + more, ft) == ProtocolError
  {
    var buf := [b] + more;
    assert buf[0] == b && CheckFrame(buf, 0) == CheckBody(buf, 0, b);
  }

  lemma {:induction false} ReadAllStep(rs: seq<ReadResult>, bytes: Bytes, ft: FloatText)
    ensures var r := Next(bytes, ft);
            rs + ReadAll(bytes, ft) == if r.Frame? then rs + [r] + ReadAll(Rest(bytes, ft), ft) else rs + [r]
  {}

  function Flatten(chunks: seq<Bytes>): Bytes {
    if chunks == [] then [] else chunks[0] + Flatten(chunks[1..])
  }

  /** A connection: what it has buffered and the chunks the socket will still deliver. */
  class Connection {
    var buffer: Bytes
    var incoming: seq<Bytes>

    /** A read of zero bytes means end of stream, so no delivered chunk is empty. */
    ghost predicate Valid()
      reads this
    {
      forall i :: 0 <= i < |incoming| ==> incoming[i] != []
    }

    ghost function Unread(): Bytes
      reads this
    {
      buffer + Flatten(incoming)
    }

    constructor (incoming: seq<Bytes>)
      requires forall i :: 0 <= i < |incoming| ==> incoming[i] != []
      ensures Valid() && Unread() == Flatten(incoming)
    {
      this.buffer := [];
      this.incoming := incoming;
      new;
      assert [] + Flatten(incoming) == Flatten(incoming);
    }

    /** `parse_frame`: one attempt on the buffered bytes. */
    method ParseBuffered(ft: FloatText) returns (r: Attempt)
      modifies this
      ensures r == TakeFrame(old(buffer), ft) && incoming == old(incoming)
      ensures buffer == if r.Got? then r.rest else old(buffer)
    {
      var cursor := new Cursor(buffer);
      var c := Check(cursor);
      if c.NeedMore? { return Wait; }
      if c.Bad? { return Failed; }
      var len := cursor.pos;
      cursor.pos := 0;
      var p := Parse(cursor, ft);
      if p.Panicked? { return Crashed; }
      if !p.Ok? { return Failed; }
      buffer := buffer[len..];
      r := Got(p.value, buffer);
    }

    /** `read_frame`: the result and the bytes left over depend on the bytes alone, not on the chunks. */
    method ReadFrame(ft: FloatText) returns (r: ReadResult)
      requires Valid()
      modifies this
      ensures Valid()
      ensures r == Next(old(Unread()), ft)
      ensures Unread() == Rest(old(Unread()), ft)
    {
      while true
        invariant Valid() && Unread() == old(Unread())
        decreases |incoming|
      {
        ghost var before, more := buffer, Flatten(incoming);
        var a := ParseBuffered(ft);
        if !a.Wait? {
          TakeFrameStable(before, more, ft);
          match a
          case Got(f, _) => return Frame(f);
          case Failed => return ProtocolError;
          case Crashed => return Panic;
        }
        if incoming == [] {
          assert buffer + [] == buffer;
          return if buffer == [] then Closed else Reset;
        }
        assert buffer + (incoming[0] + Flatten(incoming[1..])) == buffer + incoming[0] + Flatten(incoming[1..]);
        buffer, incoming := buffer + incoming[0], incoming[1..];
      }
    }

    /** Reading until the stream ends or fails. */
    method ReadToEnd(ft: FloatText) returns (rs: seq<ReadResult>)
      requires Valid()
      modifies this
      ensures rs == ReadAll(old(Unread()), ft)
    {
      rs := [];
      ghost var all, left := ReadAll(Unread(), ft), Unread();
      while true
        invariant Valid() && left == Unread()
        invariant rs + ReadAll(left, ft) == all
        decreases |left|
      {
        var r := ReadFrame(ft);
        ReadAllStep(rs, left, ft);
        rs := rs + [r];
        if !r.Frame? { return; }
        left := Unread();
      }
    }
  }

  // ── What a well-behaved peer sends ───────────────────────────────────

  function Frames(fs: seq<Frame>): (r: seq<ReadResult>)
    ensures |r| == |fs|
  {
    if fs == [] then [] else [Frame(fs[0])] + Frames(fs[1..])
  }

  lemma {:induction false} FramesCons(c: Frame, cs: seq<Frame>, end: seq<ReadResult>)
    ensures Frames([c] + cs) + end == [Frame(c)] + (Frames(cs) + end)
  {
    assert ([c] + cs)[1..] == cs;
  }

  /** The checker accepts exactly the printed bytes of a frame, whatever follows. */
  lemma {:induction false} CheckPrinted(f: Frame, resp3: bool, ft: FloatText, rest: Bytes)
    requires Representable(f, resp3, ft) && CrlfFree(f)
    ensures var s := Serialize(f, resp3, ft);
            && CheckFrame(s + rest, 0) == Done(|s|)
            && ParseFrame(s + rest, 0, ft) == Ok(Canon(f, resp3, ft), |s|)
  {
    var s := Serialize(f, resp3, ft);
    RoundTripExactly(f, resp3, ft, rest);
    CheckAgreesWithParse(s + rest, 0, ft);
  }

  /** Every proper prefix of a printed frame is incomplete: the reader waits for more. */
  lemma {:induction false} ProperPrefixWaits(f: Frame, resp3: bool, ft: FloatText, k: nat)
    requires Representable(f, resp3, ft) && CrlfFree(f) && k < |Serialize(f, resp3, ft)|
    ensures TakeFrame(Serialize(f, resp3, ft)[..k], ft) == Wait
  {
    var s := Serialize(f, resp3, ft);
    CheckPrinted(f, resp3, ft, []);
    assert s + [] == s;
    if !CheckFrame(s[..k], 0).NeedMore? {
      CheckStable(s[..k], s, 0);
    }
  }

  /** After a printed frame was read, exactly the bytes behind it are unread. */
  lemma {:induction false} UnreadIsTheRest(f: Frame, rest: Bytes, resp3: bool, ft: FloatText)
    requires Representable(f, resp3, ft) && CrlfFree(f)
    ensures var bytes := Serialize(f, resp3, ft) + rest;
            Next(bytes, ft) == Frame(Canon(f, resp3, ft)) && Rest(bytes, ft) == rest
  {
    var s := Serialize(f, resp3, ft);
    CheckPrinted(f, resp3, ft, rest);
    assert (s + rest)[|s|..] == rest;
  }

  lemma {:induction false} ReadsOneMore(f: Frame, rest: Bytes, resp3: bool, ft: FloatText)
    requires Representable(f, resp3, ft) && CrlfFree(f)
    ensures ReadAll(Serialize(f, resp3, ft) + rest, ft) == [Frame(Canon(f, resp3, ft))] + ReadAll(rest, ft)
  {
    UnreadIsTheRest(f, rest, resp3, ft);
  }

  /** Printed frames in front of any bytes are read one by one before those. */
  lemma {:induction false} ReadsThenRest(fs: seq<Frame>, tail: Bytes, end: seq<ReadResult>, resp3: bool, ft: FloatText)
    requires AllRepresentable(fs, resp3, ft) && AllCrlfFree(fs) && ReadAll(tail, ft) == end
    ensures ReadAll(SerializeAll(fs, resp3, ft) + tail, ft) == Frames(CanonAll(fs, resp3, ft)) + end
    decreases |fs|
  {
    if fs == [] {
      assert [] + tail == tail && [] + end == end;
    } else {
      var s, rest := Serialize(fs[0], resp3, ft), SerializeAll(fs[1..], resp3, ft);
      assert s + rest + tail == s + (rest + tail);
      ReadsOneMore(fs[0], rest + tail, resp3, ft);
      ReadsThenRest(fs[1..], tail, end, resp3, ft);
      FramesCons(Canon(fs[0], resp3, ft), CanonAll(fs[1..], resp3, ft), end);
    }
  }

  /**
   * Frames printed one after another, followed by a part of one more frame, read back in order and in canonical form;
   * the part is what the reader still holds when the stream ends.
   */
  lemma {:induction false} ReadsBackInOrder(
      fs: seq<Frame>, last: Frame, k: nat, resp3: bool, ft: FloatText)
    requires AllRepresentable(fs, resp3, ft) && AllCrlfFree(fs)
    requires Representable(last, resp3, ft) && CrlfFree(last) && k < |Serialize(last, resp3, ft)|
    ensures ReadAll(SerializeAll(fs, resp3, ft) + Serialize(last, resp3, ft)[..k], ft)
         == Frames(CanonAll(fs, resp3, ft)) + [if k == 0 then Closed else Reset]
  {
    var tail := Serialize(last, resp3, ft)[..k];
    ProperPrefixWaits(last, resp3, ft, k);
    ReadsThenRest(fs, tail, [if k == 0 then Closed else Reset], resp3, ft);
  }
}

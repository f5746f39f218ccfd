/** Exactly when a frame that checks also parses, and exactly when a frame survives the wire. */
module RespFaults {
  import opened Bytes
  import opened Resp
  import opened RespLaws

  /** What the parser rejects and the checker does not look at. */
  datatype Fault = NoFault | TextFault | CountFault

  /** The fault in the head of the frame at `pos`, its items aside. */
  function HeadFault(buf: Bytes, pos: nat, ft: FloatText): Fault
    requires pos < |buf|
  {
    var b := buf[pos];
    if b == COLON then (if GetInt(buf, pos + 1).IntMalformed? then TextFault else NoFault)
    else if b == COMMA || b == PLUS || b == DASH then
      match FindCrlf(buf, pos + 1)
      case None => NoFault
      case Some(e) =>
        var line := buf[pos + 1..e];
        if b == COMMA then (if ft.parse(line).None? then TextFault else NoFault)
        else if ValidUtf8(line) then NoFault
        else TextFault
    else if IsAggregateType(b) then
      match GetInt(buf, pos + 1)
      case IntOk(n, _) => if n < 0 then CountFault else NoFault
      case _ => NoFault
    else NoFault
  }

  /** Offsets of a checked frame and of all the frames inside it, outermost first. */
  function Starts(buf: Bytes, pos: nat): (r: seq<nat>)
    requires CheckFrame(buf, pos).Done?
    ensures forall i :: 0 <= i < |r| ==> pos <= r[i] < |buf|
    decreases |buf| - pos, 0, 0
  {
    var b := buf[pos];
    var h := GetInt(buf, pos + 1);
    assert CheckBody(buf, pos, b).Done?;
    if (b == STAR || IsAggregateType(b)) && h.n >= 0 then [pos] + ManyStarts(buf, h.next, ItemCount(b, h.n))
    else [pos]
  }

  function ManyStarts(buf: Bytes, pos: nat, n: nat): (r: seq<nat>)
    requires pos <= |buf| && CheckMany(buf, pos, n).Done?
    ensures forall i :: 0 <= i < |r| ==> pos <= r[i] < |buf|
    decreases |buf| - pos, 1, n
  {
    if n == 0 then [] else Starts(buf, pos) + ManyStarts(buf, CheckFrame(buf, pos).end, n - 1)
  }

  function FirstFault(buf: Bytes, at: seq<nat>, ft: FloatText): Fault
    requires forall i :: 0 <= i < |at| ==> at[i] < |buf|
  {
    if at == [] then NoFault
    else if HeadFault(buf, at[0], ft) != NoFault then HeadFault(buf, at[0], ft)
    else FirstFault(buf, at[1..], ft)
  }

  lemma {:induction false} FirstFaultAppend(buf: Bytes, s: seq<nat>, t: seq<nat>, ft: FloatText)
    requires forall i :: 0 <= i < |s| ==> s[i] < |buf|
    requires forall i :: 0 <= i < |t| ==> t[i] < |buf|
    ensures FirstFault(buf, s + t, ft) ==
            if FirstFault(buf, s, ft) != NoFault then FirstFault(buf, s, ft) else FirstFault(buf, t, ft)
  {
    if s == [] {
      assert s + t == t;
    } else {
      assert (s + t)[1..] == s[1..] + t;
      FirstFaultAppend(buf, s[1..], t, ft);
    }
  }

  /** The outcome of the parser named by the first fault it meets. */
  ghost predicate Settles<T>(fault: Fault, p: Parsed<T>) {
    match fault
    case NoFault => p.Ok?
    case TextFault => p.Malformed?
    case CountFault => p.Panicked?
  }

  lemma {:induction false} FirstFaultCons(buf: Bytes, pos: nat, inner: seq<nat>, ft: FloatText)
    requires pos < |buf| && forall i :: 0 <= i < |inner| ==> inner[i] < |buf|
    ensures FirstFault(buf, [pos] + inner, ft) ==
            if HeadFault(buf, pos, ft) != NoFault then HeadFault(buf, pos, ft) else FirstFault(buf, inner, ft)
  {
    assert ([pos] + inner)[1..] == inner;
  }

  /** A checked frame parses exactly when no frame inside it has a fault; otherwise the first fault decides. */
  lemma {:induction false} CheckedFrameParses(buf: Bytes, pos: nat, ft: FloatText)
    requires CheckFrame(buf, pos).Done?
    ensures Settles(FirstFault(buf, Starts(buf, pos), ft), ParseFrame(buf, pos, ft))
    decreases |buf| - pos, 0, 0
  {
    var b := buf[pos];
    var h := GetInt(buf, pos + 1);
    assert CheckBody(buf, pos, b).Done?;
    assert ParseFrame(buf, pos, ft) == ParseBody(buf, pos, b, ft);
    if (b == STAR || IsAggregateType(b)) && h.n >= 0 {
      var inner := ManyStarts(buf, h.next, ItemCount(b, h.n));
      CheckedManyParses(buf, h.next, ItemCount(b, h.n), ft);
      FirstFaultCons(buf, pos, inner, ft);
      assert HeadFault(buf, pos, ft) == NoFault;
    } else {
      assert [pos] == [pos] + [];
      FirstFaultCons(buf, pos, [], ft);
      assert FirstFault(buf, Starts(buf, pos), ft) == HeadFault(buf, pos, ft);
    }
  }

  lemma {:induction false} CheckedManyParses(buf: Bytes, pos: nat, n: nat, ft: FloatText)
    requires pos <= |buf| && CheckMany(buf, pos, n).Done?
    ensures Settles(FirstFault(buf, ManyStarts(buf, pos, n), ft), ParseMany(buf, pos, n, ft))
    decreases |buf| - pos, 1, n
  {
    if n > 0 {
      var e := CheckFrame(buf, pos).end;
      CheckedFrameParses(buf, pos, ft);
      CheckAgreesWithParse(buf, pos, ft);
      CheckedManyParses(buf, e, n - 1, ft);
      FirstFaultAppend(buf, Starts(buf, pos), ManyStarts(buf, e, n - 1), ft);
    }
  }
}

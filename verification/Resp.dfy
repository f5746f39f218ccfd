/** RESP frames: the serializer, the allocation-free checker and the parser, as functions. */
module Resp {
  import opened Bytes
  import opened Decimal

  /** An IEEE double, by its bit pattern. */
  datatype Float64 = Float64(bits: nat)

  datatype Frame =
    | Simple(text: Bytes)
    | Error(text: Bytes)
    | Integer(n: int)
    | Bulk(data: Bytes)
    | Null
    | NullArray
    | Array(items: seq<Frame>)
    | Map(pairs: seq<Pair>)
    | Set(items: seq<Frame>)
    | Push(items: seq<Frame>)
    | Double(f: Float64)

  datatype Pair = Pair(key: Frame, val: Frame)

  /** The text codec of doubles (shortest printing and `f64` parsing), a parameter of the model. */
  datatype FloatText = FloatText(format: Float64 -> Bytes, parse: Bytes -> Option<Float64>) {
    /** What the text of a double reads back as: all NaN patterns print alike, so they read back as one. */
    function Reread(d: Float64): Float64 {
      var back := parse(format(d));
      if back.Some? then back.value else d
    }

    /** The text of the double is one line that reads as a double. */
    ghost predicate Reads(d: Float64) {
      NoCrlf(format(d)) && parse(format(d)).Some?
    }
  }

  ghost predicate NoCrlf(s: Bytes) {
    |s| < 2 || (!(s[0] == CR && s[1] == LF) && NoCrlf(s[1..]))
  }

  // ── Text ─────────────────────────────────────────────────────────────

  predicate Continuation(s: Bytes, i: nat) {
    i < |s| && 0x80 <= s[i] <= 0xBF
  }

  /** Length of the well-formed UTF-8 sequence that starts `s`, or 0 if there is none. */
  function Utf8Head(s: Bytes): (n: nat)
    requires s != []
    ensures n <= |s|
  {
    var b := s[0];
    if b < 0x80 then 1
    else if 0xC2 <= b <= 0xDF && Continuation(s, 1) then 2
    else if Continuation(s, 1) && Continuation(s, 2)
            && ((b == 0xE0 && 0xA0 <= s[1]) || 0xE1 <= b <= 0xEC || (b == 0xED && s[1] <= 0x9F) || 0xEE <= b <= 0xEF)
    then 3
    else if Continuation(s, 1) && Continuation(s, 2) && Continuation(s, 3)
            && ((b == 0xF0 && 0x90 <= s[1]) || 0xF1 <= b <= 0xF3 || (b == 0xF4 && s[1] <= 0x8F))
    then 4
    else 0
  }

  predicate ValidUtf8(s: Bytes) {
    s == [] || (var n := Utf8Head(s); n > 0 && ValidUtf8(s[n..]))
  }

  // ── Lines ────────────────────────────────────────────────────────────

  /** Offset of the first CRLF at or after `i`, if any. */
  function FindCrlf(buf: Bytes, i: nat): (r: Option<nat>)
    ensures r.Some? ==> i <= r.value && r.value + 2 <= |buf| && buf[r.value] == CR && buf[r.value + 1] == LF
    decreases |buf| - i
  {
    if i + 1 >= |buf| then None
    else if buf[i] == CR && buf[i + 1] == LF then Some(i)
    else FindCrlf(buf, i + 1)
  }

  datatype IntLine = IntOk(n: int, next: nat) | IntIncomplete | IntMalformed

  /** The line at `pos` read as an `i64`, and the offset after it. */
  function GetInt(buf: Bytes, pos: nat): (r: IntLine)
    ensures r.IntOk? ==> pos + 2 <= r.next <= |buf| && FitsI64(r.n)
  {
    match FindCrlf(buf, pos)
    case None => IntIncomplete
    case Some(e) =>
      match ParseI64(buf[pos..e])
      case None => IntMalformed
      case Some(n) => IntOk(n, e + 2)
  }

  // ── check ────────────────────────────────────────────────────────────

  datatype Checked = Done(end: nat) | NeedMore | Bad

  predicate IsLineType(b: byte) {
    b == PLUS || b == DASH || b == COLON || b == COMMA || b == UNDERSCORE
  }

  predicate IsAggregateType(b: byte) {
    b == PERCENT || b == TILDE || b == GREATER
  }

  /** A map of `n` pairs holds `2 * n` frames. */
  function ItemCount(b: byte, n: nat): nat {
    if b == PERCENT then 2 * n else n
  }

  function CheckFrame(buf: Bytes, pos: nat): (r: Checked)
    ensures r.Done? ==> pos < r.end <= |buf|
    decreases |buf| - pos, 1, 0
  {
    if pos >= |buf| then NeedMore else CheckBody(buf, pos, buf[pos])
  }

  /** The checker, once the type byte `b` at `pos` is known. */
  function CheckBody(buf: Bytes, pos: nat, b: byte): (r: Checked)
    requires pos < |buf|
    ensures r.Done? ==> pos < r.end <= |buf|
    decreases |buf| - pos, 0, 0
  {
    if IsLineType(b) then
      match FindCrlf(buf, pos + 1)
      case None => NeedMore
      case Some(e) => Done(e + 2)
    else if b == DOLLAR then
      match GetInt(buf, pos + 1)
      case IntIncomplete => NeedMore
      case IntMalformed => Bad
      case IntOk(n, next) =>
        if n < 0 then Done(next)
        else if |buf| - next < n + 2 then NeedMore
        else Done(next + n + 2)
    else if b == STAR || IsAggregateType(b) then
      match GetInt(buf, pos + 1)
      case IntIncomplete => NeedMore
      case IntMalformed => Bad
      case IntOk(n, next) =>
        if n < 0 then Done(next) else CheckMany(buf, next, ItemCount(b, n))
    else Bad
  }

  function CheckMany(buf: Bytes, pos: nat, n: nat): (r: Checked)
    requires pos <= |buf|
    ensures r.Done? ==> pos <= r.end <= |buf|
    decreases |buf| - pos, 2, n
  {
    if n == 0 then Done(pos)
    else
      match CheckFrame(buf, pos)
      case Done(e) => CheckMany(buf, e, n - 1)
      case other => other
  }

  // ── parse ────────────────────────────────────────────────────────────

  /** `Panicked` is the capacity overflow of `Vec::with_capacity` on a negative count. */
  datatype Parsed<+T> = Ok(value: T, end: nat) | Incomplete | Malformed | Panicked

  /** Carries a failure over to another result type. */
  function Fail<T, U>(r: Parsed<T>): (s: Parsed<U>)
    requires !r.Ok?
    ensures !s.Ok?
    ensures s.Incomplete? == r.Incomplete? && s.Malformed? == r.Malformed? && s.Panicked? == r.Panicked?
  {
    match r
    case Incomplete => Incomplete
    case Malformed => Malformed
    case Panicked => Panicked
  }

  function ParseLine(buf: Bytes, pos: nat, b: byte, ft: FloatText): (r: Parsed<Frame>)
    requires pos < |buf| && IsLineType(b)
    ensures r.Ok? ==> pos < r.end <= |buf|
  {
    if b == COLON then
      match GetInt(buf, pos + 1)
      case IntIncomplete => Incomplete
      case IntMalformed => Malformed
      case IntOk(n, next) => Ok(Integer(n), next)
    else
      match FindCrlf(buf, pos + 1)
      case None => Incomplete
      case Some(e) =>
        var line := buf[pos + 1..e];
        if b == UNDERSCORE then Ok(Null, e + 2)
        else if b == COMMA then
          match ft.parse(line)
          case None => Malformed
          case Some(d) => Ok(Double(d), e + 2)
        else if !ValidUtf8(line) then Malformed
        else if b == PLUS then Ok(Simple(line), e + 2)
        else Ok(Error(line), e + 2)
  }

  /** Consecutive items, two by two. */
  function PairUp(items: seq<Frame>): (ps: seq<Pair>)
    requires |items| % 2 == 0
    ensures 2 * |ps| == |items|
  {
    if items == [] then [] else [Pair(items[0], items[1])] + PairUp(items[2..])
  }

  /** The frame a type byte wraps its items in. */
  function Wrap(b: byte, items: seq<Frame>): Frame
    requires b == PERCENT ==> |items| % 2 == 0
  {
    if b == PERCENT then Map(PairUp(items))
    else if b == TILDE then Set(items)
    else if b == GREATER then Push(items)
    else Array(items)
  }

  function ParseFrame(buf: Bytes, pos: nat, ft: FloatText): (r: Parsed<Frame>)
    ensures r.Ok? ==> pos < r.end <= |buf|
    decreases |buf| - pos, 1, 0
  {
    if pos >= |buf| then Incomplete else ParseBody(buf, pos, buf[pos], ft)
  }

  /** The parser, once the type byte `b` at `pos` is known. */
  function ParseBody(buf: Bytes, pos: nat, b: byte, ft: FloatText): (r: Parsed<Frame>)
    requires pos < |buf|
    ensures r.Ok? ==> pos < r.end <= |buf|
    decreases |buf| - pos, 0, 0
  {
    if IsLineType(b) then ParseLine(buf, pos, b, ft)
    else if b == DOLLAR then
      match GetInt(buf, pos + 1)
      case IntIncomplete => Incomplete
      case IntMalformed => Malformed
      case IntOk(n, next) =>
        if n < 0 then Ok(Null, next)
        else if |buf| - next < n + 2 then Incomplete
        else Ok(Bulk(buf[next..next + n]), next + n + 2)
    else if b == STAR || IsAggregateType(b) then
      match GetInt(buf, pos + 1)
      case IntIncomplete => Incomplete
      case IntMalformed => Malformed
      case IntOk(n, next) =>
        if n < 0 then (if b == STAR then Ok(Null, next) else Panicked)
        else
          match ParseMany(buf, next, ItemCount(b, n), ft)
          case Ok(items, e) => Ok(Wrap(b, items), e)
          case other => Fail(other)
    else Malformed
  }

  function ParseMany(buf: Bytes, pos: nat, n: nat, ft: FloatText): (r: Parsed<seq<Frame>>)
    requires pos <= |buf|
    ensures r.Ok? ==> pos <= r.end <= |buf| && |r.value| == n
    decreases |buf| - pos, 2, n
  {
    if n == 0 then Ok([], pos)
    else
      match ParseFrame(buf, pos, ft)
      case Ok(f, e) =>
        (match ParseMany(buf, e, n - 1, ft)
         case Ok(fs, e') => Ok([f] + fs, e')
         case other => Fail(other))
      case other => Fail(other)
  }

  // ── serialize ────────────────────────────────────────────────────────

  const CRLF: Bytes := [CR, LF]

  /** A type byte, a decimal count and a line end. */
  function Header(b: byte, n: nat): Bytes {
    [b] + (Digits(n) + CRLF)
  }

  function BulkBytes(data: Bytes): Bytes {
    Header(DOLLAR, |data|) + (data + CRLF)
  }

  function NullBytes(b: byte, resp3: bool): Bytes {
    if resp3 then [UNDERSCORE] + ([] + CRLF) else [b] + ([DASH, DIGIT_0 + 1] + CRLF)
  }

  /** `serialize_resp`: the bytes `write_to_buf` appends. */
  function Serialize(f: Frame, resp3: bool, ft: FloatText): Bytes
    decreases f, 1
  {
    FrameBytes(f, resp3, ft)
  }

  function FrameBytes(f: Frame, resp3: bool, ft: FloatText): Bytes
    decreases f, 0
  {
    match f
    case Simple(t) => [PLUS] + (t + CRLF)
    case Error(t) => [DASH] + (t + CRLF)
    case Integer(n) => [COLON] + (PrintI64(n) + CRLF)
    case Bulk(data) => BulkBytes(data)
    case Null => NullBytes(DOLLAR, resp3)
    case NullArray => NullBytes(STAR, resp3)
    case Array(items) => Header(STAR, |items|) + SerializeAll(items, resp3, ft)
    case Map(pairs) =>
      (if resp3 then Header(PERCENT, |pairs|) else Header(STAR, 2 * |pairs|)) + SerializePairs(pairs, resp3, ft)
    case Set(items) => Header(if resp3 then TILDE else STAR, |items|) + SerializeAll(items, resp3, ft)
    case Push(items) => Header(if resp3 then GREATER else STAR, |items|) + SerializeAll(items, resp3, ft)
    case Double(d) => if resp3 then [COMMA] + (ft.format(d) + CRLF) else BulkBytes(ft.format(d))
  }

  function SerializeAll(fs: seq<Frame>, resp3: bool, ft: FloatText): Bytes
    decreases fs, 2
  {
    if fs == [] then [] else Serialize(fs[0], resp3, ft) + SerializeAll(fs[1..], resp3, ft)
  }

  function SerializePairs(ps: seq<Pair>, resp3: bool, ft: FloatText): Bytes
    decreases ps, 2
  {
    if ps == [] then []
    else
      var p := ps[0];
      assert p.key < p && p.val < p;
      Serialize(p.key, resp3, ft) + (Serialize(p.val, resp3, ft) + SerializePairs(ps[1..], resp3, ft))
  }

  // ── What a frame means on the wire ───────────────────────────────────

  /** The frame a reader sees: RESP2 has no maps, sets, pushes or doubles, and no mode tells the nulls apart. */
  function Canon(f: Frame, resp3: bool, ft: FloatText): Frame
    decreases f, 1
  {
    CanonBody(f, resp3, ft)
  }

  function CanonBody(f: Frame, resp3: bool, ft: FloatText): Frame
    decreases f, 0
  {
    match f
    case NullArray => Null
    case Array(items) => Array(CanonAll(items, resp3, ft))
    case Map(pairs) => Wrap(if resp3 then PERCENT else STAR, CanonFlat(pairs, resp3, ft))
    case Set(items) => Wrap(if resp3 then TILDE else STAR, CanonAll(items, resp3, ft))
    case Push(items) => Wrap(if resp3 then GREATER else STAR, CanonAll(items, resp3, ft))
    case Double(d) => if resp3 then Double(ft.Reread(d)) else Bulk(ft.format(d))
    case scalar => scalar
  }

  function CanonAll(fs: seq<Frame>, resp3: bool, ft: FloatText): (r: seq<Frame>)
    ensures |r| == |fs|
    decreases fs, 2
  {
    if fs == [] then [] else [Canon(fs[0], resp3, ft)] + CanonAll(fs[1..], resp3, ft)
  }

  /** Keys and values in turn, each in canonical form. */
  function CanonFlat(ps: seq<Pair>, resp3: bool, ft: FloatText): (r: seq<Frame>)
    ensures |r| == 2 * |ps|
    decreases ps, 2
  {
    if ps == [] then []
    else
      var p := ps[0];
      assert p.key < p && p.val < p;
      [Canon(p.key, resp3, ft)] + ([Canon(p.val, resp3, ft)] + CanonFlat(ps[1..], resp3, ft))
  }

  /**
   * What the Rust types already guarantee: strings are UTF-8, integers and lengths fit in an `i64`, and the text of a
   * double can be read.
   */
  ghost predicate Representable(f: Frame, resp3: bool, ft: FloatText)
    decreases f, 1
  {
    RepresentableBody(f, resp3, ft)
  }

  ghost predicate RepresentableBody(f: Frame, resp3: bool, ft: FloatText)
    decreases f, 0
  {
    match f
    case Simple(t) => ValidUtf8(t)
    case Error(t) => ValidUtf8(t)
    case Integer(n) => FitsI64(n)
    case Bulk(data) => |data| <= I64_MAX
    case Array(items) => |items| <= I64_MAX && AllRepresentable(items, resp3, ft)
    case Map(pairs) => 2 * |pairs| <= I64_MAX && PairsRepresentable(pairs, resp3, ft)
    case Set(items) => |items| <= I64_MAX && AllRepresentable(items, resp3, ft)
    case Push(items) => |items| <= I64_MAX && AllRepresentable(items, resp3, ft)
    case Double(d) => if resp3 then ft.Reads(d) else |ft.format(d)| <= I64_MAX
    case _ => true
  }

  ghost predicate AllRepresentable(fs: seq<Frame>, resp3: bool, ft: FloatText)
    decreases fs, 2
  {
    fs == [] || (Representable(fs[0], resp3, ft) && AllRepresentable(fs[1..], resp3, ft))
  }

  ghost predicate PairsRepresentable(ps: seq<Pair>, resp3: bool, ft: FloatText)
    decreases ps, 2
  {
    ps == [] || (var p := ps[0];
                 assert p.key < p && p.val < p;
                 Representable(p.key, resp3, ft) && Representable(p.val, resp3, ft) && PairsRepresentable(ps[1..], resp3, ft))
  }

  /** No simple or error string in the frame contains a line end. */
  ghost predicate CrlfFree(f: Frame)
    decreases f, 1
  {
    CrlfFreeBody(f)
  }

  ghost predicate CrlfFreeBody(f: Frame)
    decreases f, 0
  {
    match f
    case Simple(t) => NoCrlf(t)
    case Error(t) => NoCrlf(t)
    case Array(items) => AllCrlfFree(items)
    case Map(pairs) => PairsCrlfFree(pairs)
    case Set(items) => AllCrlfFree(items)
    case Push(items) => AllCrlfFree(items)
    case _ => true
  }

  ghost predicate AllCrlfFree(fs: seq<Frame>)
    decreases fs, 2
  {
    fs == [] || (CrlfFree(fs[0]) && AllCrlfFree(fs[1..]))
  }

  ghost predicate PairsCrlfFree(ps: seq<Pair>)
    decreases ps, 2
  {
    ps == [] || (var p := ps[0];
                 assert p.key < p && p.val < p;
                 CrlfFree(p.key) && CrlfFree(p.val) && PairsCrlfFree(ps[1..]))
  }
}

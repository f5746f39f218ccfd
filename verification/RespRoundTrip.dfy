/** Printing a frame and parsing it back. */
module RespRoundTrip {
  import opened Bytes
  import opened Decimal
  import opened Resp

  // ── Reading what the printer wrote ───────────────────────────────────

  lemma {:induction false} FindLineEnd(buf: Bytes, pos: nat, line: Bytes)
    requires At(buf, pos, line + CRLF) && NoCrlf(line)
    ensures FindCrlf(buf, pos) == Some(pos + |line|)
    decreases |line|
  {
    var s := line + CRLF;
    assert At(buf, pos + 1, s[1..]);
    assert buf[pos] == s[0] && buf[pos + 1] == s[1];
    if line != [] {
      assert s[1..] == line[1..] + CRLF;
      assert !(s[0] == CR && s[1] == LF);
      FindLineEnd(buf, pos + 1, line[1..]);
    }
  }

  lemma {:induction false} LineEndAt(buf: Bytes, pos: nat, b: byte, line: Bytes)
    requires At(buf, pos, [b] + (line + CRLF)) && NoCrlf(line)
    ensures pos < |buf| && buf[pos] == b && FindCrlf(buf, pos + 1) == Some(pos + 1 + |line|)
  {
    AtTail(buf, pos, b, line + CRLF);
    FindLineEnd(buf, pos + 1, line);
  }

  lemma {:induction false} LineTextAt(buf: Bytes, pos: nat, b: byte, line: Bytes)
    requires At(buf, pos, [b] + (line + CRLF))
    ensures pos + 1 + |line| <= |buf| && buf[pos + 1..pos + 1 + |line|] == line
  {
    AtTail(buf, pos, b, line + CRLF);
    AtSplit(buf, pos + 1, line, CRLF);
    AtSlice(buf, pos + 1, line);
  }

  /** A type byte and a line, read back. */
  lemma {:induction false} LineAt(buf: Bytes, pos: nat, b: byte, line: Bytes)
    requires At(buf, pos, [b] + (line + CRLF)) && NoCrlf(line)
    ensures pos < |buf| && buf[pos] == b && FindCrlf(buf, pos + 1) == Some(pos + 1 + |line|)
    ensures pos + 1 + |line| <= |buf| && buf[pos + 1..pos + 1 + |line|] == line
  {
    LineEndAt(buf, pos, b, line);
    LineTextAt(buf, pos, b, line);
  }

  lemma {:induction false} AtTail(buf: Bytes, pos: nat, b: byte, s: Bytes)
    requires At(buf, pos, [b] + s)
    ensures pos < |buf| && buf[pos] == b && At(buf, pos + 1, s)
  {
    assert ([b] + s)[1..] == s;
  }

  lemma {:induction false} NoCrlfText(s: Bytes)
    requires forall i :: 0 <= i < |s| ==> s[i] != CR
    ensures NoCrlf(s)
  {
    if |s| >= 2 { NoCrlfText(s[1..]); }
  }

  lemma {:induction false} PrintedIsOneLine(n: int)
    ensures NoCrlf(PrintI64(n))
  {
    NoCrlfText(PrintI64(n));
  }

  lemma {:induction false} IntText(buf: Bytes, i: nat, text: Bytes, n: int)
    requires FindCrlf(buf, i) == Some(i + |text|) && i + |text| <= |buf| && buf[i..i + |text|] == text
    requires ParseI64(text) == Some(n)
    ensures GetInt(buf, i) == IntOk(n, i + |text| + 2)
  {}

  lemma {:induction false} IntAt(buf: Bytes, pos: nat, b: byte, n: int)
    requires FitsI64(n) && At(buf, pos, [b] + (PrintI64(n) + CRLF))
    ensures pos < |buf| && buf[pos] == b
    ensures GetInt(buf, pos + 1) == IntOk(n, pos + 1 + |PrintI64(n)| + 2)
  {
    var text := PrintI64(n);
    PrintedIsOneLine(n);
    LineAt(buf, pos, b, text);
    I64RoundTrip(n);
    IntText(buf, pos + 1, text, n);
  }

  lemma {:induction false} HeaderAt(buf: Bytes, pos: nat, b: byte, n: nat)
    requires n <= I64_MAX && At(buf, pos, Header(b, n))
    ensures pos < |buf| && buf[pos] == b
    ensures GetInt(buf, pos + 1) == IntOk(n, pos + |Header(b, n)|)
  {
    IntAt(buf, pos, b, n);
  }

  lemma {:induction false} BulkLength(data: Bytes)
    ensures |BulkBytes(data)| == |Header(DOLLAR, |data|)| + |data| + 2
  {}

  lemma {:induction false} BulkBodyAt(buf: Bytes, pos: nat, next: nat, data: Bytes, ft: FloatText)
    requires pos < |buf| && buf[pos] == DOLLAR && GetInt(buf, pos + 1) == IntOk(|data|, next)
    requires At(buf, next, data + CRLF)
    ensures ParseFrame(buf, pos, ft) == Ok(Bulk(data), next + |data| + 2)
  {
    AtSplit(buf, next, data, CRLF);
    AtSlice(buf, next, data);
  }

  /** Where the data of a printed bulk string starts. */
  lemma {:induction false} BulkHeadAt(buf: Bytes, pos: nat, data: Bytes) returns (next: nat)
    requires |data| <= I64_MAX && At(buf, pos, BulkBytes(data))
    ensures pos < |buf| && buf[pos] == DOLLAR && GetInt(buf, pos + 1) == IntOk(|data|, next)
    ensures At(buf, next, data + CRLF) && pos + |BulkBytes(data)| == next + |data| + 2
  {
    var head := Header(DOLLAR, |data|);
    next := pos + |head|;
    BulkLength(data);
    AtSplit(buf, pos, head, data + CRLF);
    HeaderAt(buf, pos, DOLLAR, |data|);
  }

  lemma {:induction false} BulkAt(buf: Bytes, pos: nat, data: Bytes, ft: FloatText)
    requires |data| <= I64_MAX && At(buf, pos, BulkBytes(data))
    ensures ParseFrame(buf, pos, ft) == Ok(Bulk(data), pos + |BulkBytes(data)|)
  {
    var next := BulkHeadAt(buf, pos, data);
    BulkBodyAt(buf, pos, next, data, ft);
  }

  lemma {:induction false} NullAt(buf: Bytes, pos: nat, b: byte, resp3: bool, ft: FloatText)
    requires (b == DOLLAR || b == STAR) && At(buf, pos, NullBytes(b, resp3))
    ensures ParseFrame(buf, pos, ft) == Ok(Null, pos + |NullBytes(b, resp3)|)
  {
    if resp3 {
      LineAt(buf, pos, UNDERSCORE, []);
    } else {
      assert PrintI64(-1) == [DASH, DIGIT_0 + 1];
      IntAt(buf, pos, b, -1);
    }
  }

  lemma {:induction false} TextAt(buf: Bytes, pos: nat, b: byte, t: Bytes, ft: FloatText)
    requires (b == PLUS || b == DASH) && NoCrlf(t) && ValidUtf8(t)
    requires At(buf, pos, [b] + (t + CRLF))
    ensures ParseFrame(buf, pos, ft) == Ok(if b == PLUS then Simple(t) else Error(t), pos + |[b] + (t + CRLF)|)
  {
    LineAt(buf, pos, b, t);
  }

  lemma {:induction false} DoubleAt(buf: Bytes, pos: nat, d: Float64, ft: FloatText)
    requires ft.Reads(d) && At(buf, pos, [COMMA] + (ft.format(d) + CRLF))
    ensures ParseFrame(buf, pos, ft) == Ok(Double(ft.Reread(d)), pos + |[COMMA] + (ft.format(d) + CRLF)|)
  {
    LineAt(buf, pos, COMMA, ft.format(d));
  }

  lemma {:induction false} AggregateBody(
      buf: Bytes, pos: nat, b: byte, n: nat, next: nat, items: seq<Frame>, end: nat, ft: FloatText)
    requires (b == STAR || IsAggregateType(b)) && pos < |buf| && buf[pos] == b
    requires GetInt(buf, pos + 1) == IntOk(n, next) && ParseMany(buf, next, ItemCount(b, n), ft) == Ok(items, end)
    ensures ParseFrame(buf, pos, ft) == Ok(Wrap(b, items), end)
  {
    assert ParseBody(buf, pos, b, ft) == Ok(Wrap(b, items), end);
  }

  /** A header followed by its items is a frame around them. */
  lemma {:induction false} AggregateAt(buf: Bytes, pos: nat, b: byte, n: nat, items: seq<Frame>, end: nat, ft: FloatText)
    requires (b == STAR || IsAggregateType(b)) && n <= I64_MAX
    requires At(buf, pos, Header(b, n))
    requires ParseMany(buf, pos + |Header(b, n)|, ItemCount(b, n), ft) == Ok(items, end)
    ensures ParseFrame(buf, pos, ft) == Ok(Wrap(b, items), end)
  {
    HeaderAt(buf, pos, b, n);
    AggregateBody(buf, pos, b, n, pos + |Header(b, n)|, items, end, ft);
  }

  lemma {:induction false} ManyCons(buf: Bytes, pos: nat, n: nat, f: Frame, e: nat, fs: seq<Frame>, end: nat, ft: FloatText)
    requires pos <= |buf| && ParseFrame(buf, pos, ft) == Ok(f, e) && ParseMany(buf, e, n, ft) == Ok(fs, end)
    ensures ParseMany(buf, pos, n + 1, ft) == Ok([f] + fs, end)
  {}

  // ── Round trip ───────────────────────────────────────────────────────

  /** Wherever a frame was printed, parsing consumes exactly its bytes and gives its canonical form. */
  lemma {:induction false} RoundTrip(buf: Bytes, pos: nat, f: Frame, resp3: bool, ft: FloatText)
    requires Representable(f, resp3, ft) && CrlfFree(f)
    requires At(buf, pos, Serialize(f, resp3, ft))
    ensures ParseFrame(buf, pos, ft) == Ok(Canon(f, resp3, ft), pos + |Serialize(f, resp3, ft)|)
    decreases f, 1
  {
    BodyRoundTrip(buf, pos, f, resp3, ft);
  }

  lemma {:induction false} BodyRoundTrip(buf: Bytes, pos: nat, f: Frame, resp3: bool, ft: FloatText)
    requires RepresentableBody(f, resp3, ft) && CrlfFreeBody(f)
    requires At(buf, pos, FrameBytes(f, resp3, ft))
    ensures ParseFrame(buf, pos, ft) == Ok(CanonBody(f, resp3, ft), pos + |FrameBytes(f, resp3, ft)|)
    decreases f, 0
  {
    match f
    case Simple(t) => TextAt(buf, pos, PLUS, t, ft);
    case Error(t) => TextAt(buf, pos, DASH, t, ft);
    case Integer(n) => IntAt(buf, pos, COLON, n);
    case Bulk(data) => BulkAt(buf, pos, data, ft);
    case Null => NullAt(buf, pos, DOLLAR, resp3, ft);
    case NullArray => NullAt(buf, pos, STAR, resp3, ft);
    case Array(items) => ItemsRoundTrip(buf, pos, STAR, items, resp3, ft);
    case Map(pairs) => MapRoundTrip(buf, pos, pairs, resp3, ft);
    case Set(items) => ItemsRoundTrip(buf, pos, if resp3 then TILDE else STAR, items, resp3, ft);
    case Push(items) => ItemsRoundTrip(buf, pos, if resp3 then GREATER else STAR, items, resp3, ft);
    case Double(d) =>
      if resp3 {
        DoubleAt(buf, pos, d, ft);
      } else {
        BulkAt(buf, pos, ft.format(d), ft);
      }
  }

  lemma {:induction false} ItemsRoundTrip(buf: Bytes, pos: nat, b: byte, items: seq<Frame>, resp3: bool, ft: FloatText)
    requires b == STAR || b == TILDE || b == GREATER
    requires |items| <= I64_MAX && AllRepresentable(items, resp3, ft) && AllCrlfFree(items)
    requires At(buf, pos, Header(b, |items|) + SerializeAll(items, resp3, ft))
    ensures ParseFrame(buf, pos, ft) ==
            Ok(Wrap(b, CanonAll(items, resp3, ft)), pos + |Header(b, |items|) + SerializeAll(items, resp3, ft)|)
    decreases items, 4
  {
    var head, body := Header(b, |items|), SerializeAll(items, resp3, ft);
    AtSplit(buf, pos, head, body);
    ManyRoundTrip(buf, pos + |head|, items, resp3, ft);
    AggregateAt(buf, pos, b, |items|, CanonAll(items, resp3, ft), pos + |head| + |body|, ft);
  }

  /** A printed frame in front of parsed frames is one more frame. */
  lemma {:induction false} ConsRoundTrip(
      buf: Bytes, pos: nat, f: Frame, resp3: bool, ft: FloatText, mid: nat, n: nat, fs: seq<Frame>, end: nat)
    requires Representable(f, resp3, ft) && CrlfFree(f)
    requires At(buf, pos, Serialize(f, resp3, ft)) && mid == pos + |Serialize(f, resp3, ft)| <= |buf|
    requires ParseMany(buf, mid, n, ft) == Ok(fs, end)
    ensures ParseMany(buf, pos, n + 1, ft) == Ok([Canon(f, resp3, ft)] + fs, end)
    decreases f, 2
  {
    RoundTrip(buf, pos, f, resp3, ft);
    ManyCons(buf, pos, n, Canon(f, resp3, ft), mid, fs, end, ft);
  }

  lemma {:induction false} ManyRoundTrip(buf: Bytes, pos: nat, fs: seq<Frame>, resp3: bool, ft: FloatText)
    requires AllRepresentable(fs, resp3, ft) && AllCrlfFree(fs)
    requires At(buf, pos, SerializeAll(fs, resp3, ft))
    ensures ParseMany(buf, pos, |fs|, ft) == Ok(CanonAll(fs, resp3, ft), pos + |SerializeAll(fs, resp3, ft)|)
    decreases fs, 3
  {
    if fs != [] {
      var s, rest := Serialize(fs[0], resp3, ft), SerializeAll(fs[1..], resp3, ft);
      var mid, n := pos + |s|, |fs[1..]|;
      AtSplit(buf, pos, s, rest);
      ManyRoundTrip(buf, mid, fs[1..], resp3, ft);
      ConsRoundTrip(buf, pos, fs[0], resp3, ft, mid, n, CanonAll(fs[1..], resp3, ft), mid + |rest|);
    }
  }

  /** How a map is printed: in RESP2 as an array of twice as many items. */
  lemma {:induction false} MapBytes(ps: seq<Pair>, resp3: bool, ft: FloatText, b: byte, n: nat)
    requires b == (if resp3 then PERCENT else STAR) && n == if resp3 then |ps| else 2 * |ps|
    ensures FrameBytes(Map(ps), resp3, ft) == Header(b, n) + SerializePairs(ps, resp3, ft)
    ensures ItemCount(b, n) == 2 * |ps|
  {}

  lemma {:induction false} MapAt(
      buf: Bytes, pos: nat, ps: seq<Pair>, resp3: bool, ft: FloatText, b: byte, n: nat, next: nat)
    requires b == (if resp3 then PERCENT else STAR) && n == if resp3 then |ps| else 2 * |ps|
    requires At(buf, pos, FrameBytes(Map(ps), resp3, ft)) && next == pos + |Header(b, n)|
    ensures At(buf, pos, Header(b, n)) && At(buf, next, SerializePairs(ps, resp3, ft)) && ItemCount(b, n) == 2 * |ps|
    ensures pos + |FrameBytes(Map(ps), resp3, ft)| == next + |SerializePairs(ps, resp3, ft)|
  {
    MapBytes(ps, resp3, ft, b, n);
    AtSplit(buf, pos, Header(b, n), SerializePairs(ps, resp3, ft));
  }

  lemma {:induction false} MapRoundTrip(buf: Bytes, pos: nat, ps: seq<Pair>, resp3: bool, ft: FloatText)
    requires 2 * |ps| <= I64_MAX && PairsRepresentable(ps, resp3, ft) && PairsCrlfFree(ps)
    requires At(buf, pos, FrameBytes(Map(ps), resp3, ft))
    ensures ParseFrame(buf, pos, ft) ==
            Ok(Wrap(if resp3 then PERCENT else STAR, CanonFlat(ps, resp3, ft)), pos + |FrameBytes(Map(ps), resp3, ft)|)
    decreases ps, 4
  {
    var b, n := if resp3 then PERCENT else STAR, if resp3 then |ps| else 2 * |ps|;
    var next, end := pos + |Header(b, n)|, pos + |FrameBytes(Map(ps), resp3, ft)|;
    MapAt(buf, pos, ps, resp3, ft, b, n, next);
    FlatRoundTrip(buf, next, ps, resp3, ft, 2 * |ps|, end);
    AggregateAt(buf, pos, b, n, CanonFlat(ps, resp3, ft), end, ft);
  }

  lemma {:induction false} PairRoundTrip(
      buf: Bytes, pos: nat, p: Pair, resp3: bool, ft: FloatText, val: nat, mid: nat, n: nat, fs: seq<Frame>, end: nat)
    requires Representable(p.key, resp3, ft) && Representable(p.val, resp3, ft) && CrlfFree(p.key) && CrlfFree(p.val)
    requires At(buf, pos, Serialize(p.key, resp3, ft)) && val == pos + |Serialize(p.key, resp3, ft)|
    requires At(buf, val, Serialize(p.val, resp3, ft)) && mid == val + |Serialize(p.val, resp3, ft)| <= |buf|
    requires ParseMany(buf, mid, n, ft) == Ok(fs, end)
    ensures ParseMany(buf, pos, n + 2, ft) == Ok([Canon(p.key, resp3, ft)] + ([Canon(p.val, resp3, ft)] + fs), end)
    decreases p
  {
    ConsRoundTrip(buf, val, p.val, resp3, ft, mid, n, fs, end);
    ConsRoundTrip(buf, pos, p.key, resp3, ft, val, n + 1, [Canon(p.val, resp3, ft)] + fs, end);
  }

  /** Where the parts of the first pair of a list stand, and what the list means. */
  lemma {:induction false} PairsAt(
      buf: Bytes, pos: nat, ps: seq<Pair>, resp3: bool, ft: FloatText, val: nat, mid: nat)
    requires ps != [] && At(buf, pos, SerializePairs(ps, resp3, ft))
    requires val == pos + |Serialize(ps[0].key, resp3, ft)| && mid == val + |Serialize(ps[0].val, resp3, ft)|
    ensures At(buf, pos, Serialize(ps[0].key, resp3, ft)) && At(buf, val, Serialize(ps[0].val, resp3, ft))
    ensures mid <= |buf| && At(buf, mid, SerializePairs(ps[1..], resp3, ft))
    ensures pos + |SerializePairs(ps, resp3, ft)| == mid + |SerializePairs(ps[1..], resp3, ft)|
  {
    var k, v, rest := Serialize(ps[0].key, resp3, ft), Serialize(ps[0].val, resp3, ft), SerializePairs(ps[1..], resp3, ft);
    AtSplit(buf, pos, k, v + rest);
    AtSplit(buf, val, v, rest);
  }

  /** What is known of a list of pairs, for its first pair and for the others. */
  lemma {:induction false} FirstPair(ps: seq<Pair>, resp3: bool, ft: FloatText)
    requires ps != [] && PairsRepresentable(ps, resp3, ft) && PairsCrlfFree(ps)
    ensures Representable(ps[0].key, resp3, ft) && Representable(ps[0].val, resp3, ft)
    ensures CrlfFree(ps[0].key) && CrlfFree(ps[0].val)
    ensures PairsRepresentable(ps[1..], resp3, ft) && PairsCrlfFree(ps[1..])
    ensures CanonFlat(ps, resp3, ft) ==
            [Canon(ps[0].key, resp3, ft)] + ([Canon(ps[0].val, resp3, ft)] + CanonFlat(ps[1..], resp3, ft))
  {}

  lemma {:induction false} FlatRoundTrip(buf: Bytes, pos: nat, ps: seq<Pair>, resp3: bool, ft: FloatText, n: nat, end: nat)
    requires PairsRepresentable(ps, resp3, ft) && PairsCrlfFree(ps)
    requires At(buf, pos, SerializePairs(ps, resp3, ft)) && n == 2 * |ps| && end == pos + |SerializePairs(ps, resp3, ft)|
    ensures ParseMany(buf, pos, n, ft) == Ok(CanonFlat(ps, resp3, ft), end)
    decreases ps, 3
  {
    if ps != [] {
      var p := ps[0];
      var val := pos + |Serialize(p.key, resp3, ft)|;
      var mid := val + |Serialize(p.val, resp3, ft)|;
      PairsAt(buf, pos, ps, resp3, ft, val, mid);
      FirstPair(ps, resp3, ft);
      FlatRoundTrip(buf, mid, ps[1..], resp3, ft, n - 2, end);
      PairRoundTrip(buf, pos, p, resp3, ft, val, mid, n - 2, CanonFlat(ps[1..], resp3, ft), end);
    }
  }

  // ── Exactly the frames without line ends survive ─────────────────────

  /** The line `FindCrlf` finds holds no line end. */
  lemma {:induction false} FirstCrlf(buf: Bytes, i: nat)
    requires FindCrlf(buf, i).Some?
    ensures NoCrlf(buf[i..FindCrlf(buf, i).value])
    decreases |buf| - i
  {
    var e := FindCrlf(buf, i).value;
    if i < e {
      FirstCrlf(buf, i + 1);
      assert buf[i..e][1..] == buf[i + 1..e];
    }
  }

  lemma {:induction false} ParsedLineIsCrlfFree(buf: Bytes, pos: nat, b: byte, ft: FloatText)
    requires pos < |buf| && IsLineType(b) && ParseLine(buf, pos, b, ft).Ok?
    ensures CrlfFree(ParseLine(buf, pos, b, ft).value)
  {
    FirstCrlf(buf, pos + 1);
  }

  /** Whatever the parser returns has no line end in its simple and error strings. */
  lemma {:induction false} ParsedIsCrlfFree(buf: Bytes, pos: nat, ft: FloatText)
    requires ParseFrame(buf, pos, ft).Ok?
    ensures CrlfFree(ParseFrame(buf, pos, ft).value)
    decreases |buf| - pos, 0, 0
  {
    var b := buf[pos];
    assert ParseBody(buf, pos, b, ft).Ok?;
    if IsLineType(b) {
      ParsedLineIsCrlfFree(buf, pos, b, ft);
    } else if b != DOLLAR {
      var h := GetInt(buf, pos + 1);
      if h.n >= 0 {
        ParsedManyCrlfFree(buf, h.next, ItemCount(b, h.n), ft);
        var items := ParseMany(buf, h.next, ItemCount(b, h.n), ft).value;
        WrapCrlfFree(b, items);
      }
    }
  }

  lemma {:induction false} ParsedManyCrlfFree(buf: Bytes, pos: nat, n: nat, ft: FloatText)
    requires pos <= |buf| && ParseMany(buf, pos, n, ft).Ok?
    ensures AllCrlfFree(ParseMany(buf, pos, n, ft).value)
    decreases |buf| - pos, 1, n
  {
    if n > 0 {
      ParsedIsCrlfFree(buf, pos, ft);
      var f := ParseFrame(buf, pos, ft);
      ParsedManyCrlfFree(buf, f.end, n - 1, ft);
      var fs := ParseMany(buf, f.end, n - 1, ft).value;
      assert ([f.value] + fs)[1..] == fs;
    }
  }

  lemma {:induction false} PairUpCrlfFree(items: seq<Frame>)
    requires |items| % 2 == 0
    ensures PairsCrlfFree(PairUp(items)) == AllCrlfFree(items)
  {
    if items != [] {
      var rest := items[2..];
      assert items[1..][1..] == rest;
      var p := Pair(items[0], items[1]);
      assert ([p] + PairUp(rest))[1..] == PairUp(rest);
      PairUpCrlfFree(rest);
    }
  }

  lemma {:induction false} WrapCrlfFree(b: byte, items: seq<Frame>)
    requires b == PERCENT ==> |items| % 2 == 0
    ensures CrlfFree(Wrap(b, items)) == AllCrlfFree(items)
  {
    if b == PERCENT { PairUpCrlfFree(items); }
  }

  /** A frame has a line end in its strings exactly when its canonical form does. */
  lemma {:induction false} CanonCrlfFree(f: Frame, resp3: bool, ft: FloatText)
    ensures CrlfFree(Canon(f, resp3, ft)) == CrlfFree(f)
    decreases f, 0
  {
    assert Canon(f, resp3, ft) == CanonBody(f, resp3, ft);
    match f
    case Array(items) => CanonAllCrlfFree(items, resp3, ft);
    case Set(items) =>
      CanonAllCrlfFree(items, resp3, ft);
      WrapCrlfFree(if resp3 then TILDE else STAR, CanonAll(items, resp3, ft));
    case Push(items) =>
      CanonAllCrlfFree(items, resp3, ft);
      WrapCrlfFree(if resp3 then GREATER else STAR, CanonAll(items, resp3, ft));
    case Map(pairs) =>
      CanonFlatCrlfFree(pairs, resp3, ft);
      WrapCrlfFree(if resp3 then PERCENT else STAR, CanonFlat(pairs, resp3, ft));
    case _ =>
  }

  lemma {:induction false} CanonAllCrlfFree(fs: seq<Frame>, resp3: bool, ft: FloatText)
    ensures AllCrlfFree(CanonAll(fs, resp3, ft)) == AllCrlfFree(fs)
    decreases fs, 1
  {
    if fs != [] {
      var c, rest := Canon(fs[0], resp3, ft), CanonAll(fs[1..], resp3, ft);
      assert ([c] + rest)[1..] == rest;
      CanonCrlfFree(fs[0], resp3, ft);
      CanonAllCrlfFree(fs[1..], resp3, ft);
    }
  }

  lemma {:induction false} CanonFlatCrlfFree(ps: seq<Pair>, resp3: bool, ft: FloatText)
    ensures AllCrlfFree(CanonFlat(ps, resp3, ft)) == PairsCrlfFree(ps)
    decreases ps, 1
  {
    if ps != [] {
      var p := ps[0];
      assert p.key < p && p.val < p;
      var k, v, rest := Canon(p.key, resp3, ft), Canon(p.val, resp3, ft), CanonFlat(ps[1..], resp3, ft);
      assert ([v] + rest)[1..] == rest && ([k] + ([v] + rest))[1..] == [v] + rest;
      CanonCrlfFree(p.key, resp3, ft);
      CanonCrlfFree(p.val, resp3, ft);
      CanonFlatCrlfFree(ps[1..], resp3, ft);
    }
  }

  /** A frame reads back as its canonical form exactly when its simple and error strings have no line end. */
  lemma {:induction false} RoundTripExactly(f: Frame, resp3: bool, ft: FloatText, rest: Bytes)
    requires Representable(f, resp3, ft)
    ensures var s := Serialize(f, resp3, ft);
            ParseFrame(s + rest, 0, ft) == Ok(Canon(f, resp3, ft), |s|) <==> CrlfFree(f)
  {
    var s := Serialize(f, resp3, ft);
    if CrlfFree(f) {
      AtSlice(s + rest, 0, s);
      RoundTrip(s + rest, 0, f, resp3, ft);
    } else if ParseFrame(s + rest, 0, ft) == Ok(Canon(f, resp3, ft), |s|) {
      ParsedIsCrlfFree(s + rest, 0, ft);
      CanonCrlfFree(f, resp3, ft);
    }
  }

  // ── Exactly the frames that come back the same ───────────────────────

  /** In RESP3 only the second null and doubles whose text denotes another double are told apart no more. */
  ghost predicate Plain(f: Frame, ft: FloatText)
    decreases f, 0
  {
    match f
    case NullArray => false
    case Double(d) => ft.Reread(d) == d
    case Array(items) => AllPlain(items, ft)
    case Map(pairs) => PairsPlain(pairs, ft)
    case Set(items) => AllPlain(items, ft)
    case Push(items) => AllPlain(items, ft)
    case _ => true
  }

  ghost predicate AllPlain(fs: seq<Frame>, ft: FloatText)
    decreases fs, 1
  {
    fs == [] || (Plain(fs[0], ft) && AllPlain(fs[1..], ft))
  }

  ghost predicate PairsPlain(ps: seq<Pair>, ft: FloatText)
    decreases ps, 1
  {
    ps == [] || (var p := ps[0];
                 assert p.key < p && p.val < p;
                 Plain(p.key, ft) && Plain(p.val, ft) && PairsPlain(ps[1..], ft))
  }

  lemma {:induction false} PlainIsCanon(f: Frame, ft: FloatText)
    ensures Canon(f, true, ft) == f <==> Plain(f, ft)
    decreases f, 0
  {
    assert Canon(f, true, ft) == CanonBody(f, true, ft);
    match f
    case Array(items) => AllPlainAreCanon(items, ft);
    case Set(items) => AllPlainAreCanon(items, ft);
    case Push(items) => AllPlainAreCanon(items, ft);
    case Map(pairs) => PairsPlainAreCanon(pairs, ft);
    case _ =>
  }

  lemma {:induction false} ConsSame<T>(x: T, xs: seq<T>, all: seq<T>)
    requires all != []
    ensures [x] + xs == all <==> x == all[0] && xs == all[1..]
  {
    assert ([x] + xs)[1..] == xs;
    assert [all[0]] + all[1..] == all;
  }

  lemma {:induction false} AllPlainAreCanon(fs: seq<Frame>, ft: FloatText)
    ensures CanonAll(fs, true, ft) == fs <==> AllPlain(fs, ft)
    decreases fs, 1
  {
    if fs != [] {
      PlainIsCanon(fs[0], ft);
      AllPlainAreCanon(fs[1..], ft);
      ConsSame(Canon(fs[0], true, ft), CanonAll(fs[1..], true, ft), fs);
    }
  }

  lemma {:induction false} PairUpFirst(k: Frame, v: Frame, rest: seq<Frame>)
    requires |rest| % 2 == 0
    ensures PairUp([k] + ([v] + rest)) == [Pair(k, v)] + PairUp(rest)
  {
    var all := [k] + ([v] + rest);
    assert all[2..] == rest;
  }

  lemma {:induction false} PairsPlainAreCanon(ps: seq<Pair>, ft: FloatText)
    ensures PairUp(CanonFlat(ps, true, ft)) == ps <==> PairsPlain(ps, ft)
    decreases ps, 1
  {
    if ps != [] {
      var p := ps[0];
      assert p.key < p && p.val < p;
      var k, v, rest := Canon(p.key, true, ft), Canon(p.val, true, ft), CanonFlat(ps[1..], true, ft);
      PlainIsCanon(p.key, ft);
      PlainIsCanon(p.val, ft);
      PairsPlainAreCanon(ps[1..], ft);
      PairUpFirst(k, v, rest);
      ConsSame(Pair(k, v), PairUp(rest), ps);
    }
  }

  /** In RESP3 a frame comes back as it was exactly when it has no line end in its strings and is plain. */
  lemma {:induction false} SameFrameExactly(f: Frame, ft: FloatText, rest: Bytes)
    requires Representable(f, true, ft)
    ensures var s := Serialize(f, true, ft);
            ParseFrame(s + rest, 0, ft) == Ok(f, |s|) <==> CrlfFree(f) && Plain(f, ft)
  {
    var s := Serialize(f, true, ft);
    RoundTripExactly(f, true, ft, rest);
    PlainIsCanon(f, ft);
    if ParseFrame(s + rest, 0, ft) == Ok(f, |s|) { ParsedIsCrlfFree(s + rest, 0, ft); }
  }
}

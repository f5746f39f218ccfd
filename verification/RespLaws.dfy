/** Laws of the two RESP readers: more bytes never change a verdict, and the checker and the parser agree. */
module RespLaws {
  import opened Bytes
  import opened Resp

  // ── Reading more bytes never changes a verdict ───────────────────────

  lemma {:induction false} FindCrlfStable(buf: Bytes, big: Bytes, i: nat)
    requires buf <= big && FindCrlf(buf, i).Some?
    ensures FindCrlf(big, i) == FindCrlf(buf, i)
    decreases |buf| - i
  {
    if !(buf[i] == CR && buf[i + 1] == LF) {
      FindCrlfStable(buf, big, i + 1);
    }
  }

  lemma {:induction false} GetIntStable(buf: Bytes, big: Bytes, pos: nat)
    requires buf <= big && !GetInt(buf, pos).IntIncomplete?
    ensures GetInt(big, pos) == GetInt(buf, pos)
  {
    FindCrlfStable(buf, big, pos);
    var e := FindCrlf(buf, pos).value;
    assert buf[pos..e] == big[pos..e];
  }

  lemma {:induction false} CheckStable(buf: Bytes, big: Bytes, pos: nat)
    requires buf <= big && !CheckFrame(buf, pos).NeedMore?
    ensures CheckFrame(big, pos) == CheckFrame(buf, pos)
    decreases |buf| - pos, 0, 0
  {
    var b := buf[pos];
    if IsLineType(b) {
      FindCrlfStable(buf, big, pos + 1);
    } else if b == DOLLAR || b == STAR || IsAggregateType(b) {
      GetIntStable(buf, big, pos + 1);
      var h := GetInt(buf, pos + 1);
      if h.IntOk? && h.n >= 0 && b != DOLLAR {
        CheckManyStable(buf, big, h.next, ItemCount(b, h.n));
      }
    }
  }

  lemma {:induction false} CheckManyStable(buf: Bytes, big: Bytes, pos: nat, n: nat)
    requires buf <= big && pos <= |buf| && !CheckMany(buf, pos, n).NeedMore?
    ensures CheckMany(big, pos, n) == CheckMany(buf, pos, n)
    decreases |buf| - pos, 2, n
  {
    if n > 0 {
      CheckStable(buf, big, pos);
      var c := CheckFrame(buf, pos);
      if c.Done? { CheckManyStable(buf, big, c.end, n - 1); }
    }
  }

  lemma {:induction false} ParseLineStable(buf: Bytes, big: Bytes, pos: nat, b: byte, ft: FloatText)
    requires buf <= big && pos < |buf| && IsLineType(b) && !ParseLine(buf, pos, b, ft).Incomplete?
    ensures ParseLine(big, pos, b, ft) == ParseLine(buf, pos, b, ft)
  {
    FindCrlfStable(buf, big, pos + 1);
    var e := FindCrlf(buf, pos + 1).value;
    assert buf[pos + 1..e] == big[pos + 1..e];
  }

  lemma {:induction false} ParseStable(buf: Bytes, big: Bytes, pos: nat, ft: FloatText)
    requires buf <= big && !ParseFrame(buf, pos, ft).Incomplete?
    ensures ParseFrame(big, pos, ft) == ParseFrame(buf, pos, ft)
    decreases |buf| - pos, 0, 0
  {
    var b := buf[pos];
    if IsLineType(b) {
      ParseLineStable(buf, big, pos, b, ft);
    } else if b == DOLLAR || b == STAR || IsAggregateType(b) {
      GetIntStable(buf, big, pos + 1);
      var h := GetInt(buf, pos + 1);
      if h.IntOk? && h.n >= 0 {
        if b == DOLLAR {
          assert buf[h.next..h.next + h.n] == big[h.next..h.next + h.n];
        } else {
          ParseManyStable(buf, big, h.next, ItemCount(b, h.n), ft);
        }
      }
    }
  }

  lemma {:induction false} ParseManyStable(buf: Bytes, big: Bytes, pos: nat, n: nat, ft: FloatText)
    requires buf <= big && pos <= |buf| && !ParseMany(buf, pos, n, ft).Incomplete?
    ensures ParseMany(big, pos, n, ft) == ParseMany(buf, pos, n, ft)
    decreases |buf| - pos, 2, n
  {
    if n > 0 {
      ParseStable(buf, big, pos, ft);
      var c := ParseFrame(buf, pos, ft);
      if c.Ok? { ParseManyStable(buf, big, c.end, n - 1, ft); }
    }
  }

  // ── The checker and the parser agree ─────────────────────────────────

  /** How a verdict of the checker relates to the outcome of the parser at the same place. */
  ghost predicate Agree<T>(c: Checked, p: Parsed<T>) {
    && (p.Ok? ==> c == Done(p.end))
    && (p.Incomplete? ==> c == NeedMore)
    && (c.Done? ==> !p.Incomplete? && (p.Ok? ==> p.end == c.end))
    && (c.Bad? ==> p.Malformed? || p.Panicked?)
  }

  /** Both readers agree on every buffer and position. */
  lemma {:induction false} CheckAgreesWithParse(buf: Bytes, pos: nat, ft: FloatText)
    ensures Agree(CheckFrame(buf, pos), ParseFrame(buf, pos, ft))
    decreases |buf| - pos, 0, 0
  {
    if pos < |buf| {
      var b := buf[pos];
      var h := GetInt(buf, pos + 1);
      if (b == STAR || IsAggregateType(b)) && h.IntOk? && h.n >= 0 {
        CheckManyAgree(buf, h.next, ItemCount(b, h.n), ft);
      }
    }
  }

  lemma {:induction false} CheckManyAgree(buf: Bytes, pos: nat, n: nat, ft: FloatText)
    requires pos <= |buf|
    ensures Agree(CheckMany(buf, pos, n), ParseMany(buf, pos, n, ft))
    decreases |buf| - pos, 2, n
  {
    if n > 0 {
      CheckAgreesWithParse(buf, pos, ft);
      var c := CheckFrame(buf, pos);
      if c.Done? { CheckManyAgree(buf, c.end, n - 1, ft); }
    }
  }
}

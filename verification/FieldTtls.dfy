/** Time-to-lives of hash fields: which operations keep them to fields that exist, and which leave them behind. */
module FieldTtls {
  import opened Bytes
  import opened Cells
  import opened Keyspace

  function Timers(c: Cell): map<Bytes, nat> {
    OrElse(c.fieldTtl, map[])
  }

  function FieldsOf(c: Cell): Fields {
    OrElse(c.hash, map[])
  }

  /** Only fields that exist have time-to-lives. */
  ghost predicate Tidy(c: Cell) {
    Timers(c).Keys <= FieldsOf(c).Keys
  }

  /** Setting a string must not meet field timers, and removing fields must not remove one with a timer and leave others. */
  ghost predicate Tidies(op: CellOp, c: Cell) {
    match op
    case SetString(_) => Timers(c) == map[]
    case RemoveFields(fields) =>
      c.hash.None? || c.hash.value - Elements(fields) == map[] || forall f :: f in fields ==> f !in Timers(c)
    case _ => true
  }

  lemma {:induction false} SameFieldsTidy(c: Cell, d: Cell)
    requires c.hash == d.hash && c.fieldTtl == d.fieldTtl
    ensures Tidy(c) <==> Tidy(d)
  {}

  lemma {:induction false} EraseTidy(c: Cell)
    requires Coherent(c) && Tidy(c)
    ensures Tidy(Erase(c)) && Tidy(CheckTtlOf(c)) && Coherent(CheckTtlOf(c))
  {
    EraseCoherent(c);
  }

  lemma {:induction false} PutAllGrows(h: Fields, pairs: seq<(Bytes, Bytes)>)
    ensures forall f :: f in h ==> f in PutAll(h, pairs)
  {
    if pairs != [] { PutAllGrows(h, pairs[..|pairs| - 1]); }
  }

  lemma {:induction false} WriteTidy(op: CellOp, c: Cell)
    requires Tidy(c) && Writes(op)
    ensures Tidy(Write(op, c))
  {
    if op.PutFields? { PutAllGrows(FieldsOf(c), op.pairs); }
  }

  lemma {:induction false} RemoveFieldsTidyExactly(c: Cell, fields: seq<Bytes>)
    requires Coherent(c) && Tidy(c)
    ensures Tidy(Remove(RemoveFields(fields), c)) <==> Tidies(RemoveFields(fields), c)
  {
    if c.hash.Some? {
      var left := c.hash.value - Elements(fields);
      if left == map[] {
        EraseCoherent(c);
      } else {
        var r := Remove(RemoveFields(fields), c);
        assert Timers(r) == Timers(c) && FieldsOf(r) == left;
        assert forall f :: f in left <==> f in c.hash.value && f !in fields;
      }
    }
  }

  /** Removals from other collections leave the hash and its timers alone, or free the key. */
  lemma {:induction false} RemoveTidy(op: CellOp, c: Cell)
    requires Coherent(c) && Tidy(c) && Removes(op) && !op.RemoveFields?
    ensures Tidy(Remove(op, c))
  {}

  lemma {:induction false} ExpireTidy(op: CellOp, c: Cell)
    requires Coherent(c) && Tidy(c) && Times(op)
    ensures Tidy(Expire(op, c))
  {
    EraseTidy(c);
    var live := CheckTtlOf(c);
    if op.ExpireIn? && live.tag.Some? {
      EraseTidy(Touch(live.(ttl := Some(op.ttl))));
    }
  }

  lemma {:induction false} ReplaceTidyExactly(op: CellOp, c: Cell)
    requires Coherent(c) && Tidy(c) && Replaces(op)
    ensures Tidy(Replace(op, c)) <==> Tidies(op, c)
  {
    EraseCoherent(c);
    if op.SetString? {
      var r := Replace(op, c);
      assert FieldsOf(r) == map[] && Timers(r) == Timers(c);
      if Timers(c) != map[] { var f :| f in Timers(c); }
    }
  }

  /** An operation of a key leaves timers to existing fields alone exactly under that condition. */
  lemma {:induction false} TidyExactly(op: CellOp, c: Cell)
    requires Coherent(c) && Tidy(c)
    ensures Tidy(Apply(op, c)) <==> Tidies(op, c)
  {
    if op.OnStream? {
    } else if Writes(op) {
      WriteTidy(op, c);
    } else if Removes(op) {
      if op.RemoveFields? { RemoveFieldsTidyExactly(c, op.fields); } else { RemoveTidy(op, c); }
    } else if Times(op) {
      ExpireTidy(op, c);
    } else {
      ReplaceTidyExactly(op, c);
    }
  }

  /** Moving the clock removes a field and its timer together. */
  lemma {:induction false} ForwardTidy(c: Cell, d: nat)
    requires Coherent(c) && Tidy(c)
    ensures Tidy(Forward(c, d))
  {
    ForwardCoherent(c, d);
    var k := ForwardKey(c, d);
    if c.ttl.Some? { EraseTidy(c.(ttl := Some(Less(c.ttl.value, d)))); }
    assert Tidy(k);
    if k.fieldTtl.Some? { EraseCoherent(k); }
  }

  /** Renaming moves fields and timers together. */
  lemma {:induction false} RenameTidy(from: Cell, to: Cell)
    requires Coherent(from) && Coherent(to) && Tidy(from) && Tidy(to)
    ensures Tidy(RenameTo(from, to).0) && Tidy(RenameTo(from, to).1)
  {
    if from.tag.Some? { RenameMovesWhole(from, to); }
  }

  /** Copying onto a hash of its own timers keeps those when the source has none. */
  ghost predicate CopyTidies(from: Cell, to: Cell) {
    from.tag.None? || from.fieldTtl.Some? || forall f :: f in Timers(to) ==> f in FieldsOf(from)
  }

  lemma {:induction false} CopyTidyExactly(from: Cell, to: Cell)
    requires Coherent(from) && Coherent(to) && Tidy(from) && Tidy(to) && (to.tag.None? || to.tag == from.tag)
    ensures Tidy(CopyTo(from, to)) <==> CopyTidies(from, to)
  {
    if from.tag.Some? {
      var r := CopyTo(from, to);
      assert FieldsOf(r) == FieldsOf(from);
    }
  }

  // ── Whole databases ──────────────────────────────────────────────────

  ghost predicate TidyStore(s: Store) {
    forall k :: Tidy(CellIn(s, k))
  }

  ghost predicate TidiesIn(op: DbOp, s: Store) {
    match op
    case On(k, o) => Tidies(o, CellIn(s, k))
    case Copy(from, to) => from == to || CopyTidies(CellIn(s, from), CellIn(s, to))
    case _ => true
  }

  lemma {:induction false} OnTidyExactly(s: Store, key: Bytes, op: CellOp)
    requires CoherentStore(s) && TidyStore(s)
    ensures TidyStore(Do(s, On(key, op))) <==> Tidies(op, CellIn(s, key))
  {
    var t := Do(s, On(key, op));
    assert Coherent(CellIn(s, key)) && Tidy(CellIn(s, key));
    TidyExactly(op, CellIn(s, key));
    forall k ensures Tidy(CellIn(t, k)) <==> k == key ==> Tidies(op, CellIn(s, key)) {
      if k != key { assert CellIn(t, k) == CellIn(s, k); }
    }
    assert TidyStore(t) ==> Tidy(CellIn(t, key));
  }

  lemma {:induction false} RenameKeepsTidy(s: Store, from: Bytes, to: Bytes)
    requires CoherentStore(s) && TidyStore(s)
    ensures TidyStore(Do(s, Rename(from, to)))
  {
    var f, t := CellIn(s, from), CellIn(s, to);
    assert Coherent(f) && Tidy(f) && Coherent(t) && Tidy(t);
    RenameTidy(f, t);
    SameFieldsTidy(f, RenameSelf(f));
    forall k ensures Tidy(CellIn(Do(s, Rename(from, to)), k)) { assert Tidy(CellIn(s, k)); }
  }

  lemma {:induction false} CopyKeepsTidyExactly(s: Store, from: Bytes, to: Bytes)
    requires CoherentStore(s) && TidyStore(s) && FitsIn(Copy(from, to), s)
    ensures TidyStore(Do(s, Copy(from, to))) <==> TidiesIn(Copy(from, to), s)
  {
    var f, t, r := CellIn(s, from), CellIn(s, to), Do(s, Copy(from, to));
    assert Coherent(f) && Tidy(f) && Coherent(t) && Tidy(t);
    if f.tag.Some? && from != to { CopyTidyExactly(f, t); }
    SameFieldsTidy(f, CopySelf(f));
    forall k | k != to ensures Tidy(CellIn(r, k)) { assert CellIn(r, k) == CellIn(s, k); }
    assert TidyStore(r) <==> Tidy(CellIn(r, to));
  }

  /** An operation leaves every timer on an existing field exactly under its condition. */
  lemma {:induction false} DoTidyExactly(s: Store, op: DbOp)
    requires CoherentStore(s) && TidyStore(s) && FitsIn(op, s)
    ensures TidyStore(Do(s, op)) <==> TidiesIn(op, s)
  {
    match op
    case On(k, o) => OnTidyExactly(s, k, o);
    case Rename(from, to) => RenameKeepsTidy(s, from, to);
    case Copy(from, to) => CopyKeepsTidyExactly(s, from, to);
    case FastForward(d) =>
      forall k ensures Tidy(CellIn(Do(s, op), k)) {
        ForwardCell(s, d, k);
        assert Coherent(CellIn(s, k)) && Tidy(CellIn(s, k));
        ForwardTidy(CellIn(s, k), d);
      }
    case Flush =>
  }

  /** A field that is removed and set again still runs out at its old time, although its new value has no timer of its own. */
  lemma {:induction false} InheritedTimer(f: Bytes, g: Bytes, v: Bytes)
    requires f != g
    ensures var c := FadingHash(f, g);
            var again := Apply(PutFields([(f, v)]), Apply(RemoveFields([f]), c));
            && Coherent(c) && Tidy(c) && Coherent(again)
            && f in FieldsOf(again) && f !in FieldsOf(Forward(again, 1))
  {
    var c, left := FadingHash(f, g), map[g := g];
    var gone := Remove(RemoveFields([f]), c);
    assert c.hash.value - Elements([f]) == left && g in left;
    assert gone == Touch(c.(hash := Some(left)));
    var pairs := [(f, v)];
    assert pairs[..0] == [];
    assert PutAll(left, pairs) == left[f := v];
    var again := Write(PutFields(pairs), gone);
    assert f in Expired(again.fieldTtl.value, 1) && g !in Expired(again.fieldTtl.value, 1);
    assert ForwardKey(again, 1) == again;
    assert g in again.hash.value - Expired(again.fieldTtl.value, 1);
  }
}

/** One database: its keys, the operations that span keys, and what whole sequences of operations keep. */
module Keyspace {
  import opened Bytes
  import opened Cells

  type Store = map<Bytes, Cell>

  function CellIn(s: Store, k: Bytes): Cell {
    if k in s then s[k] else Blank()
  }

  datatype DbOp =
    | On(key: Bytes, op: CellOp)
    | Rename(from: Bytes, to: Bytes)
    | Copy(from: Bytes, to: Bytes)
    | FastForward(d: nat)
    | Flush

  function Do(s: Store, op: DbOp): Store {
    match op
    case On(k, o) => s[k := Apply(o, CellIn(s, k))]
    case Rename(from, to) =>
      if from == to then s[from := RenameSelf(CellIn(s, from))]
      else var (f, t) := RenameTo(CellIn(s, from), CellIn(s, to)); s[from := f][to := t]
    case Copy(from, to) =>
      s[to := if from == to then CopySelf(CellIn(s, from)) else CopyTo(CellIn(s, from), CellIn(s, to))]
    case FastForward(d) => ForwardAll(s, d)
    case Flush => map[]
  }

  function ForwardAll(s: Store, d: nat): Store {
    map k | k in s :: Forward(s[k], d)
  }

  ghost predicate CoherentStore(s: Store) {
    forall k :: Coherent(CellIn(s, k))
  }

  /** The type preconditions of the operations. */
  predicate FitsIn(op: DbOp, s: Store) {
    match op
    case On(k, o) => Fits(o, CellIn(s, k))
    case Copy(from, to) =>
      from == to || CellIn(s, from).tag.None? || CellIn(s, to).tag.None? || CellIn(s, to).tag == CellIn(s, from).tag
    case _ => true
  }

  lemma {:induction false} ForwardCell(s: Store, d: nat, k: Bytes)
    ensures CellIn(Do(s, FastForward(d)), k) == Forward(CellIn(s, k), d)
  {
    if k !in s {
      DeadStays(Blank(), d);
    }
  }

  /** Each key after an operation, told from the keys before it. */
  lemma {:induction false} DoMeans(s: Store, op: DbOp, k: Bytes)
    ensures CellIn(Do(s, op), k) ==
            match op
            case On(key, o) => if k == key then Apply(o, CellIn(s, k)) else CellIn(s, k)
            case Rename(from, to) =>
              if k != from && k != to then CellIn(s, k)
              else if from == to then RenameSelf(CellIn(s, k))
              else if k == from then RenameTo(CellIn(s, from), CellIn(s, to)).0
              else RenameTo(CellIn(s, from), CellIn(s, to)).1
            case Copy(from, to) =>
              if k != to then CellIn(s, k) else if from == to then CopySelf(CellIn(s, k)) else CopyTo(CellIn(s, from), CellIn(s, k))
            case FastForward(d) => Forward(CellIn(s, k), d)
            case Flush => Blank()
  {
    if op.FastForward? { ForwardCell(s, op.d, k); }
  }

  // ── Keys seen one by one ─────────────────────────────────────────────

  /** The rows are those of the store. */
  ghost predicate Shows(cells: Bytes -> Cell, s: Store) {
    forall k :: cells(k) == CellIn(s, k)
  }

  /** What an operation in place does to the rows of each key. */
  ghost predicate Did(before: Bytes -> Cell, after: Bytes -> Cell, op: DbOp) {
    match op
    case On(key, o) =>
      after(key) == Apply(o, before(key)) && forall k :: k != key ==> after(k) == before(k)
    case Rename(from, to) =>
      && (from == to ==> after(from) == RenameSelf(before(from)))
      && (from != to ==> (after(from), after(to)) == RenameTo(before(from), before(to)))
      && (forall k :: k != from && k != to ==> after(k) == before(k))
    case Copy(from, to) =>
      && after(to) == (if from == to then CopySelf(before(from)) else CopyTo(before(from), before(to)))
      && (forall k :: k != to ==> after(k) == before(k))
    case FastForward(d) => forall k :: after(k) == Forward(before(k), d)
    case Flush => forall k :: after(k) == Blank()
  }

  /** An operation done key by key in place is the operation on the store. */
  lemma {:induction false} DidShows(before: Bytes -> Cell, after: Bytes -> Cell, s: Store, op: DbOp)
    requires Shows(before, s) && Did(before, after, op)
    ensures Shows(after, Do(s, op))
  {
    forall k ensures after(k) == CellIn(Do(s, op), k) {
      assert before(k) == CellIn(s, k);
      if op.FastForward? { ForwardCell(s, op.d, k); }
    }
  }

  // ── Coherence over runs ──────────────────────────────────────────────

  lemma {:induction false} RenameCoherent(s: Store, from: Bytes, to: Bytes, k: Bytes)
    requires CoherentStore(s)
    ensures Coherent(CellIn(Do(s, Rename(from, to)), k))
  {
    var f, t := CellIn(s, from), CellIn(s, to);
    if f.tag.Some? && from != to {
      RenameMovesWhole(f, t);
    }
    assert Coherent(CellIn(s, k)) && Coherent(f) && Coherent(t);
  }

  /** Renaming gives the destination the source's content and time-to-lives, frees the source, and touches no other key. */
  lemma {:induction false} RenameMeans(s: Store, from: Bytes, to: Bytes, k: Bytes)
    requires CoherentStore(s) && CellIn(s, from).tag.Some?
    ensures var t := Do(s, Rename(from, to));
            && CellIn(t, to) == CellIn(s, from).(version := CellIn(t, to).version)
            && CellIn(t, to).version > CellIn(s, to).version
            && (from != to ==> CellIn(t, from) == Blank().(version := CellIn(s, from).version + 1))
            && (k != from && k != to ==> CellIn(t, k) == CellIn(s, k))
  {
    if from != to {
      RenameMovesWhole(CellIn(s, from), CellIn(s, to));
    }
  }

  lemma {:induction false} CopyCoherent(s: Store, from: Bytes, to: Bytes)
    requires CoherentStore(s)
    ensures Coherent(CellIn(Do(s, Copy(from, to)), to)) <==> FitsIn(Copy(from, to), s)
  {
    var f, t := CellIn(s, from), CellIn(s, to);
    assert Coherent(f) && Coherent(t);
    if f.tag.Some? && from != to {
      CopyCoherentExactly(f, t);
    }
  }

  /** An operation keeps the whole database coherent exactly when its type precondition holds. */
  lemma {:induction false} DoCoherentExactly(s: Store, op: DbOp)
    requires CoherentStore(s)
    ensures CoherentStore(Do(s, op)) <==> FitsIn(op, s)
  {
    match op
    case On(k, o) =>
      assert Coherent(CellIn(s, k));
      CoherentExactly(o, CellIn(s, k));
      assert CellIn(Do(s, op), k) == Apply(o, CellIn(s, k));
      assert forall j :: j != k ==> CellIn(Do(s, op), j) == CellIn(s, j);
    case Rename(from, to) =>
      forall k ensures Coherent(CellIn(Do(s, op), k)) {
        RenameCoherent(s, from, to, k);
      }
    case Copy(from, to) =>
      CopyCoherent(s, from, to);
      assert forall j :: j != to ==> CellIn(Do(s, op), j) == CellIn(s, j);
    case FastForward(d) =>
      forall k ensures Coherent(CellIn(Do(s, op), k)) {
        ForwardCell(s, d, k);
        ForwardCoherent(CellIn(s, k), d);
      }
    case Flush =>
  }

  function Run(s: Store, ops: seq<DbOp>): Store {
    if ops == [] then s else Do(Run(s, ops[..|ops| - 1]), ops[|ops| - 1])
  }

  /** Each operation's type precondition holds when its turn comes. */
  ghost predicate AllFit(s: Store, ops: seq<DbOp>) {
    forall i :: 0 <= i < |ops| ==> FitsIn(ops[i], Run(s, ops[..i]))
  }

  /** From the empty database, every such run ends coherent. */
  lemma {:induction false} RunCoherent(ops: seq<DbOp>)
    requires AllFit(map[], ops)
    ensures CoherentStore(Run(map[], ops))
  {
    if ops != [] {
      var before := ops[..|ops| - 1];
      forall i | 0 <= i < |before| ensures FitsIn(before[i], Run(map[], before[..i])) {
        assert before[..i] == ops[..i];
      }
      RunCoherent(before);
      DoCoherentExactly(Run(map[], before), ops[|ops| - 1]);
    }
  }

  // ── The clock ────────────────────────────────────────────────────────

  /** Fast-forwarding by `a` and then by `b` is fast-forwarding by their sum, for tags, values, time-to-lives and versions. */
  lemma {:induction false} FastForwardTwice(s: Store, a: nat, b: nat)
    requires CoherentStore(s)
    ensures Do(Do(s, FastForward(a)), FastForward(b)) == Do(s, FastForward(a + b))
  {
    var two, one := ForwardAll(ForwardAll(s, a), b), ForwardAll(s, a + b);
    forall k | k in s ensures two[k] == one[k] {
      assert Coherent(CellIn(s, k));
      ForwardTwice(s[k], a, b);
    }
    assert two == one;
  }

  // ── Versions ─────────────────────────────────────────────────────────

  /**
   * The ways to change a key behind its version: a flush, losing some fields of a hash,
   * and the stream commands that do not raise it.
   */
  ghost predicate Unseen(op: DbOp, k: Bytes, c: Cell) {
    match op
    case Flush => c != Blank()
    case FastForward(d) => LosesFields(c, d)
    case On(j, o) => k == j && SilentOn(o, c)
    case _ => false
  }

  /** A key's version notices every change of its content, except exactly in those ways. */
  lemma {:induction false} DoNoticedExactly(s: Store, op: DbOp, k: Bytes)
    requires CoherentStore(s)
    ensures Noticed(CellIn(s, k), CellIn(Do(s, op), k)) <==> !Unseen(op, k, CellIn(s, k))
  {
    var c := CellIn(s, k);
    assert Coherent(c);
    match op
    case On(j, o) =>
      if j == k {
        ApplyNoticedExactly(o, c);
      }
    case Rename(from, to) => RenameNoticed(s, from, to, k);
    case Copy(from, to) =>
    case FastForward(d) =>
      ForwardCell(s, d, k);
      ForwardNoticedExactly(c, d);
    case Flush =>
      FlushUnseen(c);
  }

  lemma {:induction false} FlushUnseen(c: Cell)
    requires Coherent(c)
    ensures Noticed(c, Blank()) <==> c == Blank()
  {
    if c.version == 0 && Content(c) == Blank() {
      assert c.tag.None?;
    }
  }

  lemma {:induction false} RenameNoticed(s: Store, from: Bytes, to: Bytes, k: Bytes)
    requires CoherentStore(s)
    ensures Noticed(CellIn(s, k), CellIn(Do(s, Rename(from, to)), k))
  {
    if CellIn(s, from).tag.Some? {
      RenameMeans(s, from, to, k);
    }
  }
}

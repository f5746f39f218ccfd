/** MULTI, EXEC and WATCH for any number of connections whose commands interleave. */
module Transactions {
  import opened Bytes
  import opened Cells
  import opened Keyspace
  import Decimal
  import StreamGroups
  import StreamIds
  import StreamOps
  import Streams

  const DATABASES: nat := 16

  /** A key of a numbered database. */
  type Place = (nat, Bytes)

  /** `Rejected` stands for unknown names, wrong arity and unknown subcommands; `Other` for commands that change nothing. */
  datatype Command =
    | Data(op: DbOp)
    | SelectDb(n: nat)
    | Swap(i: nat, j: nat)
    | FlushAll
    | Unwatch
    | Other
    | Rejected

  datatype Request = Multi | Exec | Discard | Watch(keys: seq<Bytes>) | Plain(c: Command)

  /** A connection; `running` is what EXEC took and has still to replay. */
  datatype Conn = Conn(selected: nat, queue: Option<seq<Command>>, dirty: bool, watch: map<Place, nat>, running: seq<Command>)
  {
    function Unwatched(): Conn {
      this.(watch := map[])
    }
  }

  type Dbs = seq<Store>

  function CellOf(dbs: Dbs, p: Place): Cell {
    if p.0 < |dbs| then CellIn(dbs[p.0], p.1) else Blank()
  }

  // ── What commands do to the data ─────────────────────────────────────

  datatype Effect = Nothing | OnDb(db: nat, op: DbOp) | SwapDbs(i: nat, j: nat) | FlushEvery

  /** A handler runs under the lock, and refuses an operation whose type precondition does not hold. */
  function EffectOn(dbs: Dbs, conn: Conn, c: Command): Effect {
    match c
    case Data(op) =>
      if conn.selected < |dbs| && FitsIn(op, dbs[conn.selected]) then OnDb(conn.selected, op) else Nothing
    case Swap(i, j) => if i < |dbs| && j < |dbs| then SwapDbs(i, j) else Nothing
    case FlushAll => FlushEvery
    case _ => Nothing
  }

  function Affect(dbs: Dbs, e: Effect): Dbs {
    match e
    case Nothing => dbs
    case OnDb(i, op) => if i < |dbs| then dbs[i := Do(dbs[i], op)] else dbs
    case SwapDbs(i, j) => if i < |dbs| && j < |dbs| then dbs[i := dbs[j]][j := dbs[i]] else dbs
    case FlushEvery => seq(|dbs|, _ => map[])
  }

  ghost predicate AllCoherent(dbs: Dbs) {
    forall i :: 0 <= i < |dbs| ==> CoherentStore(dbs[i])
  }

  /** The database an effect puts in the place of `db`. */
  function Swapped(i: nat, j: nat, db: nat): nat {
    if db == i then j else if db == j then i else db
  }

  /** The key that takes this one's place has an older version, or the same version and other content. */
  predicate Hides(c: Cell, d: Cell) {
    d.version < c.version || (d.version == c.version && Content(d) != Content(c))
  }

  /** The effect changes the key behind its version. */
  ghost predicate UnseenAt(dbs: Dbs, e: Effect, p: Place) {
    match e
    case Nothing => false
    case OnDb(i, op) => i < |dbs| && p.0 == i && Unseen(op, p.1, CellOf(dbs, p))
    case SwapDbs(i, j) => i < |dbs| && j < |dbs| && Hides(CellOf(dbs, p), CellOf(dbs, (Swapped(i, j, p.0), p.1)))
    case FlushEvery => p.0 < |dbs| && CellOf(dbs, p) != Blank()
  }

  lemma {:induction false} SwapCell(dbs: Dbs, i: nat, j: nat, p: Place)
    requires i < |dbs| && j < |dbs|
    ensures CellOf(Affect(dbs, SwapDbs(i, j)), p) == CellOf(dbs, (Swapped(i, j, p.0), p.1))
  {}

  /** Whatever a command does, a key's version notices it, except exactly for the unseen changes. */
  lemma {:induction false} EffectNoticedExactly(dbs: Dbs, e: Effect, p: Place)
    requires AllCoherent(dbs)
    ensures Noticed(CellOf(dbs, p), CellOf(Affect(dbs, e), p)) <==> !UnseenAt(dbs, e, p)
  {
    match e
    case Nothing =>
    case OnDb(i, op) =>
      if i < |dbs| && p.0 == i {
        DoNoticedExactly(dbs[i], op, p.1);
      }
    case SwapDbs(i, j) =>
      if i < |dbs| && j < |dbs| {
        SwapCell(dbs, i, j, p);
      }
    case FlushEvery =>
      if p.0 < |dbs| {
        assert CoherentStore(dbs[p.0]) && Coherent(CellIn(dbs[p.0], p.1));
        FlushUnseen(CellOf(dbs, p));
      }
  }

  /** An effect a handler lets through keeps every database coherent. */
  ghost predicate Proper(dbs: Dbs, e: Effect) {
    e.OnDb? && e.db < |dbs| ==> FitsIn(e.op, dbs[e.db])
  }

  lemma {:induction false} AffectCoherent(dbs: Dbs, e: Effect)
    requires AllCoherent(dbs) && Proper(dbs, e)
    ensures AllCoherent(Affect(dbs, e)) && |Affect(dbs, e)| == |dbs|
  {
    if e.OnDb? && e.db < |dbs| {
      DoCoherentExactly(dbs[e.db], e.op);
    }
  }

  // ── Requests ─────────────────────────────────────────────────────────

  function AfterCommand(dbs: Dbs, conn: Conn, c: Command): Conn {
    match c
    case SelectDb(n) => if n < |dbs| then conn.(selected := n) else conn
    case Unwatch => conn.Unwatched()
    case _ => conn
  }

  function WatchKeys(dbs: Dbs, conn: Conn, keys: seq<Bytes>): Conn {
    if keys == [] then conn
    else
      var before := WatchKeys(dbs, conn, keys[..|keys| - 1]);
      var p := (conn.selected, keys[|keys| - 1]);
      before.(watch := before.watch[p := CellOf(dbs, p).version])
  }

  /** No watched key has a newer version. */
  predicate WatchHolds(dbs: Dbs, conn: Conn) {
    forall p :: p in conn.watch ==> CellOf(dbs, p).version <= conn.watch[p]
  }

  /** EXEC goes ahead. */
  predicate Passes(dbs: Dbs, conn: Conn) {
    conn.queue.Some? && !conn.dirty && WatchHolds(dbs, conn)
  }

  /** The connection after a request, its data effect aside. */
  function AfterRequest(dbs: Dbs, conn: Conn, r: Request): Conn {
    match r
    case Plain(c) =>
      if conn.queue.None? then AfterCommand(dbs, conn, c)
      else if c.Rejected? then conn.(dirty := true)
      else conn.(queue := Some(conn.queue.value + [c]))
    case Multi => if conn.queue.Some? then conn else conn.(queue := Some([]), dirty := false)
    case Discard => if conn.queue.None? then conn else conn.(queue := None).Unwatched()
    case Watch(keys) => if conn.queue.Some? then conn else WatchKeys(dbs, conn, keys)
    case Exec =>
      if conn.queue.None? then conn
      else if Passes(dbs, conn) then conn.(queue := None, running := conn.queue.value).Unwatched()
      else conn.(queue := None).Unwatched()
  }

  // ── The server ───────────────────────────────────────────────────────

  datatype World = World(dbs: Dbs, conns: map<nat, Conn>)

  /** `Replays` runs the next command an EXEC took: each takes the lock for itself, so others may come between. */
  datatype Event =
    | Opens(id: nat)
    | Closes(id: nat)
    | Requests(id: nat, r: Request)
    | Replays(id: nat)
    | ClockMoves(db: nat, d: nat)

  predicate Enabled(w: World, e: Event) {
    match e
    case Opens(id) => id !in w.conns
    case Closes(id) => id in w.conns
    case Requests(id, _) => id in w.conns && w.conns[id].running == []
    case Replays(id) => id in w.conns && w.conns[id].running != []
    case ClockMoves(db, _) => db < |w.dbs|
  }

  /** What an event does to the data. */
  function EffectOf(w: World, e: Event): Effect
    requires Enabled(w, e)
  {
    match e
    case Requests(id, r) =>
      var conn := w.conns[id];
      if r.Plain? && conn.queue.None? then EffectOn(w.dbs, conn, r.c) else Nothing
    case Replays(id) => EffectOn(w.dbs, w.conns[id], w.conns[id].running[0])
    case ClockMoves(db, d) => OnDb(db, FastForward(d))
    case _ => Nothing
  }

  function ConnsAfter(w: World, e: Event): map<nat, Conn>
    requires Enabled(w, e)
  {
    match e
    case Opens(id) => w.conns[id := Conn(0, None, false, map[], [])]
    case Closes(id) => w.conns - {id}
    case Requests(id, r) => w.conns[id := AfterRequest(w.dbs, w.conns[id], r)]
    case Replays(id) =>
      var conn := w.conns[id];
      w.conns[id := AfterCommand(w.dbs, conn, conn.running[0]).(running := conn.running[1..])]
    case ClockMoves(_, _) => w.conns
  }

  /** One event; one that cannot happen changes nothing. */
  function Next(w: World, e: Event): World {
    if Enabled(w, e) then World(Affect(w.dbs, EffectOf(w, e)), ConnsAfter(w, e)) else w
  }

  function Run(w: World, es: seq<Event>): World {
    if es == [] then w else Next(Run(w, es[..|es| - 1]), es[|es| - 1])
  }

  function Start(): World {
    World(seq(DATABASES, _ => map[]), map[])
  }

  lemma {:induction false} StepCoherent(w: World, e: Event)
    requires AllCoherent(w.dbs)
    ensures AllCoherent(Next(w, e).dbs) && |Next(w, e).dbs| == |w.dbs|
  {
    if Enabled(w, e) {
      AffectCoherent(w.dbs, EffectOf(w, e));
    }
  }

  lemma {:induction false} RunCoherent(w: World, es: seq<Event>)
    requires AllCoherent(w.dbs)
    ensures AllCoherent(Run(w, es).dbs) && |Run(w, es).dbs| == |w.dbs|
  {
    if es != [] {
      RunCoherent(w, es[..|es| - 1]);
      StepCoherent(Run(w, es[..|es| - 1]), es[|es| - 1]);
    }
  }

  /** Every reachable server has 16 databases, all of them coherent. */
  lemma {:induction false} AlwaysCoherent(es: seq<Event>)
    ensures AllCoherent(Run(Start(), es).dbs) && |Run(Start(), es).dbs| == 16
  {
    forall i | 0 <= i < |Start().dbs| ensures CoherentStore(Start().dbs[i]) {
      assert Start().dbs[i] == map[];
    }
    RunCoherent(Start(), es);
  }

  // ── What versions tell ───────────────────────────────────────────────

  /** The event does not change the key behind its version. */
  ghost predicate SeenAt(w: World, e: Event, p: Place) {
    Enabled(w, e) ==> !UnseenAt(w.dbs, EffectOf(w, e), p)
  }

  /** No event of the run does; what happens to other keys does not matter. */
  ghost predicate QuietAt(w: World, es: seq<Event>, p: Place) {
    es == [] || (QuietAt(w, es[..|es| - 1], p) && SeenAt(Run(w, es[..|es| - 1]), es[|es| - 1], p))
  }

  lemma {:induction false} NoticedTwice(a: Cell, b: Cell, c: Cell)
    requires Noticed(a, b) && Noticed(b, c)
    ensures Noticed(a, c)
  {}

  /** Over a whole run, a key's version notices whether its content was ever changed. */
  lemma {:induction false} RunNoticed(w: World, es: seq<Event>, p: Place)
    requires AllCoherent(w.dbs) && QuietAt(w, es, p)
    ensures Noticed(CellOf(w.dbs, p), CellOf(Run(w, es).dbs, p))
  {
    if es != [] {
      var front, e := es[..|es| - 1], es[|es| - 1];
      var mid := Run(w, front);
      RunNoticed(w, front, p);
      RunCoherent(w, front);
      if Enabled(mid, e) {
        EffectNoticedExactly(mid.dbs, EffectOf(mid, e), p);
      }
      NoticedTwice(CellOf(w.dbs, p), CellOf(mid.dbs, p), CellOf(Run(w, es).dbs, p));
    }
  }

  // ── What WATCH records ───────────────────────────────────────────────

  predicate SameRecord(c: Conn, d: Conn, p: Place) {
    (p in c.watch <==> p in d.watch) && (p in c.watch && p in d.watch ==> c.watch[p] == d.watch[p])
  }

  /** WATCH records the version of each key as it is, and leaves other records alone. */
  lemma {:induction false} WatchRecords(dbs: Dbs, conn: Conn, keys: seq<Bytes>, p: Place, after: Conn)
    requires after == WatchKeys(dbs, conn, keys)
    ensures after == conn.(watch := after.watch)
    ensures if p.0 == conn.selected && p.1 in keys then p in after.watch && after.watch[p] == CellOf(dbs, p).version
            else SameRecord(conn, after, p)
  {
    if keys != [] {
      var front, last := keys[..|keys| - 1], keys[|keys| - 1];
      WatchRecords(dbs, conn, front, p, WatchKeys(dbs, conn, front));
      assert keys == front + [last];
    }
  }

  /** `e` is a WATCH of this key by this connection. */
  predicate Rewatches(w: World, e: Event, id: nat, p: Place) {
    e.Requests? && e.id == id && e.r.Watch? && p.1 in e.r.keys && id in w.conns && w.conns[id].selected == p.0
  }

  /** If the connection watches the key, then at this version. */
  predicate WatchedAt(w: World, id: nat, p: Place, v: nat) {
    id in w.conns && p in w.conns[id].watch ==> w.conns[id].watch[p] == v
  }

  lemma {:induction false} RequestLeavesRecord(dbs: Dbs, conn: Conn, r: Request, p: Place, after: Conn)
    requires after == AfterRequest(dbs, conn, r)
    requires !(r.Watch? && p.1 in r.keys && conn.selected == p.0)
    ensures SameRecord(conn, after, p) || after.watch == map[]
  {
    if r.Watch? && conn.queue.None? {
      WatchRecords(dbs, conn, r.keys, p, after);
    }
  }

  /** A record is only replaced by another WATCH of its key. */
  lemma {:induction false} RecordStays(w: World, e: Event, id: nat, p: Place, v: nat)
    requires WatchedAt(w, id, p, v) && !Rewatches(w, e, id, p)
    ensures WatchedAt(Next(w, e), id, p, v)
  {
    if Enabled(w, e) {
      if e.Requests? && e.id == id {
        RequestLeavesRecord(w.dbs, w.conns[id], e.r, p, AfterRequest(w.dbs, w.conns[id], e.r));
      } else if e.Replays? && e.id == id {
        var after := AfterCommand(w.dbs, w.conns[id], w.conns[id].running[0]);
        assert SameRecord(w.conns[id], after, p) || after.watch == map[];
      }
    }
  }

  ghost predicate NeverRewatched(w: World, es: seq<Event>, id: nat, p: Place) {
    es == [] || (NeverRewatched(w, es[..|es| - 1], id, p) && !Rewatches(Run(w, es[..|es| - 1]), es[|es| - 1], id, p))
  }

  lemma {:induction false} RecordStaysOverRun(w: World, es: seq<Event>, id: nat, p: Place, v: nat)
    requires WatchedAt(w, id, p, v) && NeverRewatched(w, es, id, p)
    ensures WatchedAt(Run(w, es), id, p, v)
  {
    if es != [] {
      RecordStaysOverRun(w, es[..|es| - 1], id, p, v);
      RecordStays(Run(w, es[..|es| - 1]), es[|es| - 1], id, p, v);
    }
  }

  // ── EXEC ─────────────────────────────────────────────────────────────

  /**
   * The promise of WATCH. Watch a key in any coherent server; let any events follow, of this connection and of
   * others, none of which watches the key anew or changes it behind its version. If the key is still watched when
   * EXEC passes its check, its tag and value are those of the moment it was watched.
   */
  lemma {:induction false} WatchToExec(w: World, id: nat, keys: seq<Bytes>, more: seq<Event>, p: Place,
                                       watched: World, later: World)
    requires AllCoherent(w.dbs) && Enabled(w, Requests(id, Watch(keys))) && w.conns[id].queue.None?
    requires p.1 in keys && p.0 == w.conns[id].selected
    requires watched == Next(w, Requests(id, Watch(keys))) && later == Run(watched, more)
    requires QuietAt(watched, more, p) && NeverRewatched(watched, more, id, p)
    requires id in later.conns && Passes(later.dbs, later.conns[id]) && p in later.conns[id].watch
    ensures Content(CellOf(later.dbs, p)) == Content(CellOf(w.dbs, p))
  {
    WatchRecords(w.dbs, w.conns[id], keys, p, WatchKeys(w.dbs, w.conns[id], keys));
    assert watched.dbs == w.dbs;
    RecordStaysOverRun(watched, more, id, p, CellOf(w.dbs, p).version);
    RunNoticed(watched, more, p);
  }

  /** After one change of a watched key, EXEC's check still holds exactly when the change is an unseen one. */
  lemma {:induction false} OneChangeExactly(dbs: Dbs, e: Effect, conn: Conn, p: Place)
    requires AllCoherent(dbs) && conn.watch == map[p := CellOf(dbs, p).version]
    requires Content(CellOf(Affect(dbs, e), p)) != Content(CellOf(dbs, p))
    ensures WatchHolds(Affect(dbs, e), conn) <==> UnseenAt(dbs, e, p)
  {
    EffectNoticedExactly(dbs, e, p);
    assert p in conn.watch;
  }

  /** A refused XADD to a free key leaves an empty stream there, and the version as it was. */
  lemma {:induction false} RefusedAddUnseen(dbs: Dbs, p: Place, zero: StreamIds.Id, values: seq<Bytes>, now: nat, e: Effect)
    requires AllCoherent(dbs) && p.0 < |dbs| && CellOf(dbs, p).tag.None? && zero == StreamIds.Id(0, 0) && now <= Decimal.U64_MAX
    requires e == OnDb(p.0, On(p.1, OnStream(
                       StreamOps.AddEntry(StreamIds.FormatId(zero.ms, zero.sn), values, now, false, None, None))))
    ensures UnseenAt(dbs, e, p)
    ensures CellOf(Affect(dbs, e), p) == CellOf(dbs, p).(tag := Some(StreamKind), stream := Some(StreamOps.EmptyStream()))
  {
    assert CoherentStore(dbs[p.0]) && Coherent(CellIn(dbs[p.0], p.1));
    StreamOps.ZeroNeverAdded(zero);
    StreamOps.NeverAddedExactly(StreamIds.FormatId(zero.ms, zero.sn), values, now);
  }

  /** XACK of a pending ID takes it off the list, and leaves the version as it was. */
  lemma {:induction false} AckUnseen(dbs: Dbs, p: Place, s: Streams.Stream, group: Bytes, id: Bytes, e: Effect)
    requires AllCoherent(dbs) && p.0 < |dbs| && CellOf(dbs, p).stream == Some(s) && group in s.groups
    requires StreamOps.IsId(id) && StreamGroups.IsPending(s.groups[group].pending, id)
    requires e == OnDb(p.0, On(p.1, OnStream(StreamOps.Acknowledge(group, [id]))))
    ensures UnseenAt(dbs, e, p)
    ensures Content(CellOf(Affect(dbs, e), p)) != Content(CellOf(dbs, p))
    ensures CellOf(Affect(dbs, e), p).version == CellOf(dbs, p).version
  {
    assert CoherentStore(dbs[p.0]) && Coherent(CellIn(dbs[p.0], p.1));
    assert id in [id];
    EffectNoticedExactly(dbs, e, p);
  }

  // ── Replay ───────────────────────────────────────────────────────────

  function ExecuteAll(dbs: Dbs, conn: Conn, cs: seq<Command>): (Dbs, Conn)
    decreases |cs|
  {
    if cs == [] then (dbs, conn)
    else ExecuteAll(Affect(dbs, EffectOn(dbs, conn, cs[0])), AfterCommand(dbs, conn, cs[0]), cs[1..])
  }

  function Replayings(id: nat, n: nat): seq<Event> {
    if n == 0 then [] else [Replays(id)] + Replayings(id, n - 1)
  }

  lemma {:induction false} RunAppend(w: World, es: seq<Event>, fs: seq<Event>)
    ensures Run(w, es + fs) == Run(Run(w, es), fs)
  {
    if fs == [] {
      assert es + fs == es;
    } else {
      assert (es + fs)[..|es + fs| - 1] == es + fs[..|fs| - 1];
      RunAppend(w, es, fs[..|fs| - 1]);
    }
  }

  lemma {:induction false} RunFirst(w: World, e: Event, es: seq<Event>)
    ensures Run(w, [e] + es) == Run(Next(w, e), es)
  {
    RunAppend(w, [e], es);
    assert [e][..0] == [];
  }

  lemma {:induction false} ReplayOne(w: World, id: nat, idle: Conn, cs: seq<Command>)
    requires id in w.conns && w.conns[id] == idle.(running := cs) && cs != [] && idle.running == []
    ensures Next(w, Replays(id)) ==
            World(Affect(w.dbs, EffectOn(w.dbs, idle, cs[0])),
                  w.conns[id := AfterCommand(w.dbs, idle, cs[0]).(running := cs[1..])])
    ensures AfterCommand(w.dbs, idle, cs[0]).running == []
  {}

  lemma {:induction false} UpdateTwice(m: map<nat, Conn>, id: nat, x: Conn, y: Conn)
    ensures m[id := x][id := y] == m[id := y]
  {}

  /** Left undisturbed, an EXEC that passed runs all its commands, in the order they were queued. */
  lemma {:induction false} ReplayInOrder(w: World, id: nat, idle: Conn, cs: seq<Command>)
    requires id in w.conns && w.conns[id] == idle.(running := cs) && idle.running == []
    ensures Run(w, Replayings(id, |cs|)) ==
            World(ExecuteAll(w.dbs, idle, cs).0, w.conns[id := ExecuteAll(w.dbs, idle, cs).1])
    decreases |cs|
  {
    if cs == [] {
      assert w.conns[id := idle] == w.conns;
    } else {
      var dbs, rest := Affect(w.dbs, EffectOn(w.dbs, idle, cs[0])), AfterCommand(w.dbs, idle, cs[0]);
      var next := World(dbs, w.conns[id := rest.(running := cs[1..])]);
      ReplayOne(w, id, idle, cs);
      RunFirst(w, Replays(id), Replayings(id, |cs| - 1));
      ReplayInOrder(next, id, rest, cs[1..]);
      UpdateTwice(w.conns, id, rest.(running := cs[1..]), ExecuteAll(dbs, rest, cs[1..]).1);
    }
  }

  // ── The connection as it is updated in place ─────────────────────────

  class ConnCtx {
    var selectedDb: nat
    var transaction: Option<seq<Command>>
    var dirtyTransaction: bool
    var watch: map<Place, nat>

    /** The idle connection this object stands for. */
    function Value(): Conn
      reads this
    {
      Conn(selectedDb, transaction, dirtyTransaction, watch, [])
    }

    constructor ()
      ensures Value() == Conn(0, None, false, map[], [])
    {
      selectedDb, transaction, dirtyTransaction, watch := 0, None, false, map[];
    }

    method ClearWatch()
      modifies this`watch
      ensures Value() == old(Value()).Unwatched()
    {
      watch := map[];
    }

    /** A command inside MULTI: queued, or marks the transaction. */
    method Queue(c: Command, ghost dbs: Dbs) returns (queued: bool)
      requires transaction.Some?
      modifies this`transaction, this`dirtyTransaction
      ensures queued <==> !c.Rejected?
      ensures transaction == if queued then Some(old(transaction).value + [c]) else old(transaction)
      ensures dirtyTransaction == (old(dirtyTransaction) || !queued)
      ensures Value() == AfterRequest(dbs, old(Value()), Plain(c))
    {
      if c.Rejected? {
        dirtyTransaction := true;
        return false;
      }
      transaction := Some(transaction.value + [c]);
      return true;
    }

    /** MULTI; false when nested. */
    method Begin(ghost dbs: Dbs) returns (ok: bool)
      modifies this`transaction, this`dirtyTransaction
      ensures ok <==> old(transaction).None?
      ensures Value() == AfterRequest(dbs, old(Value()), Multi)
    {
      if transaction.Some? {
        return false;
      }
      transaction, dirtyTransaction := Some([]), false;
      return true;
    }

    /** DISCARD; false outside MULTI. */
    method DiscardAll(ghost dbs: Dbs) returns (ok: bool)
      modifies this
      ensures ok <==> old(transaction).Some?
      ensures Value() == AfterRequest(dbs, old(Value()), Discard)
    {
      if transaction.None? {
        return false;
      }
      transaction := None;
      ClearWatch();
      return true;
    }

    /** WATCH; false inside MULTI. */
    method WatchAll(dbs: Dbs, keys: seq<Bytes>) returns (ok: bool)
      modifies this`watch
      ensures ok <==> transaction.None?
      ensures Value() == AfterRequest(dbs, old(Value()), Watch(keys))
    {
      if transaction.Some? {
        return false;
      }
      assert keys[..0] == [];
      for i := 0 to |keys|
        invariant Value() == WatchKeys(dbs, old(Value()), keys[..i])
      {
        assert keys[..i + 1][..i] == keys[..i];
        var p := (selectedDb, keys[i]);
        watch := watch[p := CellOf(dbs, p).version];
      }
      assert keys[..|keys|] == keys;
      return true;
    }

    /** The check of EXEC, with the watched keys in any order: the commands to replay, or none. */
    method Commit(dbs: Dbs) returns (commands: Option<seq<Command>>)
      modifies this
      ensures commands.Some? <==> Passes(dbs, old(Value()))
      ensures commands.Some? ==> commands == old(transaction)
      ensures transaction.None? && (old(transaction).Some? ==> watch == map[])
      ensures Value().(running := if commands.Some? then commands.value else []) == AfterRequest(dbs, old(Value()), Exec)
    {
      if transaction.None? {
        return None;
      }
      if dirtyTransaction {
        transaction := None;
        ClearWatch();
        return None;
      }
      var todo := watch.Keys;
      while todo != {}
        invariant todo <= watch.Keys && unchanged(this)
        invariant forall p :: p in watch && p !in todo ==> CellOf(dbs, p).version <= watch[p]
      {
        var p :| p in todo;
        if CellOf(dbs, p).version > watch[p] {
          transaction := None;
          ClearWatch();
          return None;
        }
        todo := todo - {p};
      }
      commands := transaction;
      transaction := None;
      ClearWatch();
    }
  }
}

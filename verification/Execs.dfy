/** What EXEC runs, what a transaction hides until then, and what WATCH guards, over any interleaving of connections. */
module Execs {
  import opened Bytes
  import opened Cells
  import Keyspace
  import opened Transactions

  // ── What a command does ──────────────────────────────────────────────

  /** Each key after a command: it acts on the database the connection has selected, if the key's type lets it. */
  lemma {:induction false} CommandMeans(dbs: Dbs, conn: Conn, c: Command, p: Place)
    ensures CellOf(Affect(dbs, EffectOn(dbs, conn, c)), p) ==
            match c
            case Data(op) =>
              if p.0 == conn.selected && p.0 < |dbs| && Keyspace.FitsIn(op, dbs[p.0])
              then Keyspace.CellIn(Keyspace.Do(dbs[p.0], op), p.1) else CellOf(dbs, p)
            case Swap(i, j) => if i < |dbs| && j < |dbs| then CellOf(dbs, (Swapped(i, j, p.0), p.1)) else CellOf(dbs, p)
            case FlushAll => Blank()
            case _ => CellOf(dbs, p)
  {
    if c.Swap? && c.i < |dbs| && c.j < |dbs| { SwapCell(dbs, c.i, c.j, p); }
  }

  /** What it does to its connection: SELECT of a database there is, and UNWATCH. */
  lemma {:induction false} CommandConn(dbs: Dbs, conn: Conn, c: Command)
    ensures AfterCommand(dbs, conn, c) ==
            conn.(selected := if c.SelectDb? && c.n < |dbs| then c.n else conn.selected,
                  watch := if c.Unwatch? then map[] else conn.watch)
  {}

  /** Outside MULTI a command runs at once, on the connection's own behalf. */
  lemma {:induction false} PlainRuns(w: World, id: nat, c: Command)
    requires id in w.conns && w.conns[id].queue.None? && w.conns[id].running == []
    ensures var conn := w.conns[id];
            Next(w, Requests(id, Plain(c))) ==
            World(Affect(w.dbs, EffectOn(w.dbs, conn, c)), w.conns[id := AfterCommand(w.dbs, conn, c)])
  {}

  /** The clock of one database moves every key of it, and nothing else. */
  lemma {:induction false} ClockRuns(w: World, db: nat, d: nat, p: Place)
    requires db < |w.dbs|
    ensures var v := Next(w, ClockMoves(db, d));
            && v.conns == w.conns
            && CellOf(v.dbs, p) == if p.0 == db then Forward(CellOf(w.dbs, p), d) else CellOf(w.dbs, p)
  {
    Keyspace.ForwardCell(w.dbs[db], d, p.1);
  }

  /** A new connection has selected database 0, and neither a queue nor watched keys. */
  lemma {:induction false} OpensFresh(w: World, id: nat)
    requires id !in w.conns
    ensures var v := Next(w, Opens(id)); v.dbs == w.dbs && id in v.conns && v.conns[id] == Conn(0, None, false, map[], [])
  {}

  // ── What a connection sends ──────────────────────────────────────────

  /** The requests of one connection, in the order it sends them. */
  function Sent(es: seq<Event>, id: nat): seq<Request> {
    if es == [] then []
    else
      var e := es[|es| - 1];
      Sent(es[..|es| - 1], id) + if e.Requests? && e.id == id then [e.r] else []
  }

  /** The commands among them that can be queued. */
  function Accepted(rs: seq<Request>): seq<Command> {
    if rs == [] then []
    else
      var r := rs[|rs| - 1];
      Accepted(rs[..|rs| - 1]) + if r.Plain? && !r.c.Rejected? then [r.c] else []
  }

  predicate AnyRejected(rs: seq<Request>) {
    Plain(Rejected) in rs
  }

  /** The connection neither ends its transaction nor closes. */
  predicate Open(es: seq<Event>, id: nat) {
    Closes(id) !in es && Requests(id, Exec) !in es && Requests(id, Discard) !in es
  }

  lemma {:induction false} OpenFront(es: seq<Event>, id: nat)
    requires es != [] && Open(es, id)
    ensures Open(es[..|es| - 1], id) && Open([es[|es| - 1]], id)
  {}

  lemma {:induction false} SentSnoc(es: seq<Event>, id: nat, rs: seq<Request>)
    requires es != [] && rs == Sent(es[..|es| - 1], id)
    ensures var e := es[|es| - 1];
            if e.Requests? && e.id == id
            then Sent(es, id) == rs + [e.r] && (AnyRejected(Sent(es, id)) <==> AnyRejected(rs) || e.r == Plain(Rejected))
                 && Accepted(Sent(es, id)) == Accepted(rs) + (if e.r.Plain? && !e.r.c.Rejected? then [e.r.c] else [])
            else Sent(es, id) == rs
  {
    var e := es[|es| - 1];
    if e.Requests? && e.id == id { assert (rs + [e.r])[..|rs|] == rs; }
  }

  // ── Inside MULTI ─────────────────────────────────────────────────────

  /** The connection is in a transaction with this queue, marked or not; all else is as in `conn`. */
  ghost predicate Queued(w: World, id: nat, conn: Conn, q: seq<Command>, dirty: bool) {
    id in w.conns && w.conns[id] == conn.(queue := Some(q), dirty := dirty)
  }

  lemma {:induction false} QueueStep(w: World, e: Event, id: nat, conn: Conn, q: seq<Command>, dirty: bool)
    requires Queued(w, id, conn, q, dirty) && conn.running == [] && Open([e], id)
    ensures if e.Requests? && e.id == id
            then Queued(Next(w, e), id, conn, q + (if e.r.Plain? && !e.r.c.Rejected? then [e.r.c] else []),
                        dirty || e.r == Plain(Rejected))
            else Queued(Next(w, e), id, conn, q, dirty)
  {
    assert e in [e];
    assert q + [] == q;
  }

  /** Whatever others do, the queue holds the commands sent since, in the order sent; one rejected marks the transaction. */
  lemma {:induction false} QueueGrows(w: World, es: seq<Event>, id: nat, conn: Conn, v: World)
    requires Queued(w, id, conn, [], false) && conn.running == [] && Open(es, id) && v == Run(w, es)
    ensures Queued(v, id, conn, Accepted(Sent(es, id)), AnyRejected(Sent(es, id)))
  {
    if es != [] {
      var front, e := es[..|es| - 1], es[|es| - 1];
      var rs := Sent(front, id);
      OpenFront(es, id);
      QueueGrows(w, front, id, conn, Run(w, front));
      QueueStep(Run(w, front), e, id, conn, Accepted(rs), AnyRejected(rs));
      SentSnoc(es, id, rs);
    }
  }

  lemma {:induction false} ExecStep(at: World, id: nat, conn: Conn, q: seq<Command>, dirty: bool, done: World)
    requires Queued(at, id, conn, q, dirty) && conn.queue.None? && conn.running == [] && done == Next(at, Requests(id, Exec))
    ensures done.dbs == at.dbs && id in done.conns
    ensures done.conns[id] ==
            conn.(dirty := dirty, watch := map[], running := if !dirty && WatchHolds(at.dbs, conn) then q else [])
  {
    assert WatchHolds(at.dbs, at.conns[id]) <==> WatchHolds(at.dbs, conn);
  }

  /**
   * From MULTI to EXEC, with any events of others between. EXEC takes the commands sent, in the order sent, exactly when
   * none was rejected and no watched key has a newer version; in any case the queue and the watches are gone.
   */
  lemma {:induction false} ExecTakes(w: World, id: nat, es: seq<Event>, at: World, done: World)
    requires id in w.conns && w.conns[id].queue.None? && w.conns[id].running == [] && Open(es, id)
    requires at == Run(Next(w, Requests(id, Multi)), es) && done == Next(at, Requests(id, Exec))
    ensures done.dbs == at.dbs && id in done.conns
    ensures var rs, conn := Sent(es, id), w.conns[id];
            done.conns[id] == conn.(dirty := AnyRejected(rs), watch := map[],
                                    running := if !AnyRejected(rs) && WatchHolds(at.dbs, conn) then Accepted(rs) else [])
  {
    var conn, rs := w.conns[id], Sent(es, id);
    QueueGrows(Next(w, Requests(id, Multi)), es, id, conn, at);
    ExecStep(at, id, conn, Accepted(rs), AnyRejected(rs), done);
  }

  /** DISCARD runs nothing and forgets the queue and the watches. */
  lemma {:induction false} DiscardDrops(w: World, id: nat, es: seq<Event>, at: World, done: World)
    requires id in w.conns && w.conns[id].queue.None? && w.conns[id].running == [] && Open(es, id)
    requires at == Run(Next(w, Requests(id, Multi)), es) && done == Next(at, Requests(id, Discard))
    ensures done.dbs == at.dbs && id in done.conns
    ensures done.conns[id] == w.conns[id].(dirty := AnyRejected(Sent(es, id)), watch := map[])
  {
    QueueGrows(Next(w, Requests(id, Multi)), es, id, w.conns[id], at);
  }

  /** And, left undisturbed from there, it runs exactly these, in that order. */
  lemma {:induction false} ExecRuns(w: World, id: nat, es: seq<Event>, at: World, done: World, idle: Conn, cs: seq<Command>)
    requires id in w.conns && w.conns[id].queue.None? && w.conns[id].running == [] && Open(es, id)
    requires at == Run(Next(w, Requests(id, Multi)), es) && done == Next(at, Requests(id, Exec))
    requires !AnyRejected(Sent(es, id)) && WatchHolds(at.dbs, w.conns[id])
    requires cs == Accepted(Sent(es, id)) && idle == w.conns[id].(dirty := false, watch := map[])
    ensures Run(done, Replayings(id, |cs|)) ==
            World(ExecuteAll(at.dbs, idle, cs).0, done.conns[id := ExecuteAll(at.dbs, idle, cs).1])
  {
    ExecTakes(w, id, es, at, done);
    ReplayInOrder(done, id, idle, cs);
  }

  // ── Replaying among others ───────────────────────────────────────────

  function Replayed(es: seq<Event>, id: nat): nat {
    if es == [] then 0 else Replayed(es[..|es| - 1], id) + if es[|es| - 1] == Replays(id) then 1 else 0
  }

  /** The connection waits for its EXEC to finish. */
  predicate Waits(es: seq<Event>, id: nat) {
    Closes(id) !in es && Sent(es, id) == []
  }

  lemma {:induction false} WaitsFront(es: seq<Event>, id: nat)
    requires es != [] && Waits(es, id)
    ensures Waits(es[..|es| - 1], id) && es[|es| - 1] != Closes(id) && !(es[|es| - 1].Requests? && es[|es| - 1].id == id)
  {
    assert es[|es| - 1] in es;
  }

  /** Whatever others do between, each replay takes the next command, until none is left. */
  lemma {:induction false} ReplaysInTurn(w: World, es: seq<Event>, id: nat, cs: seq<Command>, v: World)
    requires id in w.conns && w.conns[id].running == cs && Waits(es, id) && v == Run(w, es)
    ensures id in v.conns && v.conns[id].running == if Replayed(es, id) <= |cs| then cs[Replayed(es, id)..] else []
  {
    if es != [] {
      var front := es[..|es| - 1];
      WaitsFront(es, id);
      ReplaysInTurn(w, front, id, cs, Run(w, front));
    }
  }

  // ── What others can see of it ────────────────────────────────────────

  predicate ByConn(e: Event, id: nat) {
    !e.ClockMoves? && e.id == id
  }

  function Without(es: seq<Event>, id: nat): seq<Event> {
    if es == [] then []
    else Without(es[..|es| - 1], id) + if ByConn(es[|es| - 1], id) then [] else [es[|es| - 1]]
  }

  /** The same but for one connection, which both have. */
  ghost predicate Alike(w: World, v: World, id: nat) {
    && w.dbs == v.dbs && w.conns.Keys == v.conns.Keys && id in w.conns
    && forall j :: j in w.conns && j != id ==> w.conns[j] == v.conns[j]
  }

  lemma {:induction false} AlikeNext(w: World, v: World, id: nat, e: Event)
    requires Alike(w, v, id) && !ByConn(e, id)
    ensures Alike(Next(w, e), Next(v, e), id)
  {}

  lemma {:induction false} HiddenStep(w: World, v: World, id: nat, e: Event, conn: Conn, q: seq<Command>, dirty: bool)
    requires Alike(w, v, id) && ByConn(e, id) && Open([e], id) && Queued(w, id, conn, q, dirty) && conn.running == []
    ensures Alike(Next(w, e), v, id)
  {
    assert e in [e];
  }

  /** Until EXEC, nothing a connection sends inside MULTI shows: data and other connections are as if it had not been sent. */
  lemma {:induction false} HiddenUntilExec(w: World, es: seq<Event>, id: nat, conn: Conn)
    requires Queued(w, id, conn, [], false) && conn.running == [] && Open(es, id)
    ensures Alike(Run(w, es), Run(w, Without(es, id)), id)
  {
    if es != [] {
      var front, e := es[..|es| - 1], es[|es| - 1];
      OpenFront(es, id);
      HiddenUntilExec(w, front, id, conn);
      QueueGrows(w, front, id, conn, Run(w, front));
      var v := Run(w, Without(front, id));
      if ByConn(e, id) {
        HiddenStep(Run(w, front), v, id, e, conn, Accepted(Sent(front, id)), AnyRejected(Sent(front, id)));
        assert Without(es, id) == Without(front, id);
      } else {
        AlikeNext(Run(w, front), v, id, e);
        var some := Without(front, id);
        assert (some + [e])[..|some|] == some;
      }
    }
  }

  // ── WATCH ────────────────────────────────────────────────────────────

  /** The connection neither ends a transaction, nor unwatches, nor closes, nor has commands to replay. */
  predicate Watching(es: seq<Event>, id: nat) {
    Open(es, id) && Requests(id, Plain(Unwatch)) !in es && Replays(id) !in es
  }

  lemma {:induction false} WatchingFront(es: seq<Event>, id: nat)
    requires es != [] && Watching(es, id)
    ensures Watching(es[..|es| - 1], id) && Watching([es[|es| - 1]], id)
  {}

  lemma {:induction false} WatchStep(w: World, e: Event, id: nat, p: Place)
    requires id in w.conns && p in w.conns[id].watch && w.conns[id].running == [] && Watching([e], id)
    ensures id in Next(w, e).conns && p in Next(w, e).conns[id].watch && Next(w, e).conns[id].running == []
  {
    assert e in [e];
    if e.Requests? && e.id == id && e.r.Watch? && Enabled(w, e) && w.conns[id].queue.None? {
      WatchRecords(w.dbs, w.conns[id], e.r.keys, p, WatchKeys(w.dbs, w.conns[id], e.r.keys));
    }
  }

  /** A watched key stays watched until its connection ends a transaction, unwatches or closes; nothing runs on the way. */
  lemma {:induction false} StaysWatched(w: World, es: seq<Event>, id: nat, p: Place)
    requires id in w.conns && p in w.conns[id].watch && w.conns[id].running == [] && Watching(es, id)
    ensures id in Run(w, es).conns && p in Run(w, es).conns[id].watch && Run(w, es).conns[id].running == []
  {
    if es != [] {
      WatchingFront(es, id);
      StaysWatched(w, es[..|es| - 1], id, p);
      WatchStep(Run(w, es[..|es| - 1]), es[|es| - 1], id, p);
    }
  }

  /**
   * WATCH to EXEC, whole. Watch keys; let any events follow, of this connection and of others, that change a watched key
   * only where its version shows. If its content is then another one, EXEC runs nothing.
   */
  lemma {:induction false} ExecGuarded(w: World, id: nat, keys: seq<Bytes>, more: seq<Event>, p: Place, watched: World, later: World)
    requires AllCoherent(w.dbs) && Enabled(w, Requests(id, Watch(keys))) && w.conns[id].queue.None?
    requires p.1 in keys && p.0 == w.conns[id].selected
    requires watched == Next(w, Requests(id, Watch(keys))) && later == Run(watched, more)
    requires Watching(more, id) && QuietAt(watched, more, p) && NeverRewatched(watched, more, id, p)
    requires Content(CellOf(later.dbs, p)) != Content(CellOf(w.dbs, p))
    ensures id in later.conns && !Passes(later.dbs, later.conns[id])
    ensures var done := Next(later, Requests(id, Exec)); id in done.conns && done.conns[id].running == []
  {
    WatchRecords(w.dbs, w.conns[id], keys, p, WatchKeys(w.dbs, w.conns[id], keys));
    StaysWatched(watched, more, id, p);
    if Passes(later.dbs, later.conns[id]) {
      WatchToExec(w, id, keys, more, p, watched, later);
    }
  }
}

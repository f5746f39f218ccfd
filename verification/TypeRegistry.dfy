/** The registry of visible type declarations: the depth-first visit as the client generators run it, in place. */
module TypeRegistry {
  import opened Bytes
  import opened TypeWalk
  import opened TypeRefs

  /** Every mentioned number indexes the declaration list. */
  ghost predicate InRange(g: Graph, ids: seq<nat>) {
    forall i :: i in ids ==> i < |g|
  }

  ghost predicate WellFormed(g: Graph) {
    forall n :: InRange(g, Edges(g, n))
  }

  lemma {:induction false} InRangeParts(g: Graph, a: seq<nat>, b: seq<nat>)
    ensures InRange(g, a + b) <==> InRange(g, a) && InRange(g, b)
  {
    assert forall i :: i in a + b <==> i in a || i in b;
  }

  class Registry {
    const g: Graph
    var seen: set<nat>
    var namespaces: map<string, seq<nat>>
    var refs: map<nat, set<nat>>
    var curr: Option<nat>

    ghost var clock: Clock
    ghost var steps: seq<Step>

    ghost function Now(): Trail
      reads this
    {
      Trail(clock, refs, namespaces, steps)
    }

    ghost predicate Valid()
      reads this
    {
      WellFormed(g) && seen == clock.when.Keys
    }

    constructor (g: Graph)
      requires WellFormed(g)
      ensures Valid() && this.g == g && curr == None && Now() == START
    {
      this.g := g;
      seen, namespaces, refs, curr := {}, map[], map[], None;
      clock, steps := Clock(map[], map[]), [];
    }

    /** `Visit`: follows what the type mentions, in order. */
    method Visit(t: Type)
      requires Valid() && InRange(g, Targets(t))
      modifies this
      ensures Valid() && curr == old(curr) && Now() == Walk(g, old(Now()), curr, Targets(t))
      decreases Unseen(g, Now()), 1, t, 1
    {
      match t
      case Named(_, _) => VisitNamed(t);
      case List(e) => Visit(e);
      case MapType(k, v) =>
        WalkTwice(g, Now(), curr, Targets(k), Targets(v));
        InRangeParts(g, Targets(k), Targets(v));
        Visit(k);
        assert Unseen(g, Now()) <= Unseen(g, old(Now()));
        Visit(v);
      case Struct(fs) => VisitAll(fs);
      case Pointer(b) => Visit(b);
      case OptionType(i) => Visit(i);
      case Config(c) => Visit(c);
      case Union(ts) => VisitAll(ts);
      case NilType =>
      case Builtin =>
      case TypeParameter =>
      case Literal =>
    }

    /** The loops over struct fields, union members and type arguments. */
    method VisitAll(ts: seq<Type>)
      requires Valid() && InRange(g, TargetsAll(ts))
      modifies this
      ensures Valid() && curr == old(curr) && Now() == Walk(g, old(Now()), curr, TargetsAll(ts))
      decreases Unseen(g, Now()), 1, ts, 2
    {
      for i := 0 to |ts|
        invariant Valid() && curr == old(curr) && InRange(g, TargetsAll(ts[i..]))
        invariant Unseen(g, Now()) <= Unseen(g, old(Now()))
        invariant Walk(g, Now(), curr, TargetsAll(ts[i..])) == Walk(g, old(Now()), curr, TargetsAll(ts))
      {
        assert ts[i..][0] == ts[i] && ts[i..][1..] == ts[i + 1..];
        WalkTwice(g, Now(), curr, Targets(ts[i]), TargetsAll(ts[i + 1..]));
        InRangeParts(g, Targets(ts[i]), TargetsAll(ts[i + 1..]));
        Visit(ts[i]);
      }
    }

    /** `visitDecl`: a declaration is entered once, listed under its package, and finished before the call returns. */
    method VisitDecl(d: nat)
      requires Valid() && d < |g|
      modifies this
      ensures Valid() && curr == old(curr) && Now() == WalkDecl(g, old(Now()), d)
      decreases Unseen(g, Now()), 0, 0
    {
      if g[d].Some? && d !in seen {
        ghost var s := Now();
        var prev := curr;
        seen := seen + {d};
        namespaces := AddTo(namespaces, g[d].value.pkg, d);
        clock := Tick(clock, d);
        curr := Some(d);
        assert Now() == Enter(g, s, d);
        assert d in Unseen(g, s) && d !in Unseen(g, Now()) && Unseen(g, Now()) <= Unseen(g, s);
        assert InRange(g, Edges(g, d));
        Visit(g[d].value.typ);
        curr := prev;
        clock := Stop(clock, d);
      }
    }

    /** `visitNamed`: a reference is met, visited and left, and then come the type arguments. */
    method VisitNamed(t: Type)
      requires t.Named?
      requires Valid() && InRange(g, Targets(t))
      modifies this
      ensures Valid() && curr == old(curr) && Now() == Walk(g, old(Now()), curr, Targets(t))
      decreases Unseen(g, Now()), 1, t, 0
    {
      var to := t.id;
      assert Targets(t) == [to] + TargetsAll(t.args);
      InRangeParts(g, [to], TargetsAll(t.args));
      assert to in [to];
      ghost var s := Now();
      if curr.Some? {
        refs := refs[curr.value := (if curr.value in refs then refs[curr.value] else {}) + {to}];
        steps := steps + [Met(curr.value, to)];
      }
      assert Now() == Meet(s, curr, to) && Unseen(g, Now()) == Unseen(g, s);
      VisitDecl(to);
      ghost var back := Now();
      if curr.Some? {
        refs := refs[curr.value := (if curr.value in refs then refs[curr.value] else {})
                                   + (if to in refs then refs[to] else {})];
        steps := steps + [Left(curr.value, to)];
      }
      assert Now() == Leave(back, curr, to);
      assert Now() == Follow(g, s, curr, to) && Unseen(g, Now()) <= Unseen(g, s);
      VisitAll(t.args);
    }

    /**
     * `IsRecursiveRef`: only declarations that reach each other; among mentions, exactly those from which a path back
     * was read backwards in time; among mentions of declarations entered no later, exactly those that lead back through
     * declarations entered no earlier than the one mentioned.
     */
    method IsRecursiveRef(from: nat, to: nat) returns (r: bool)
      requires Valid() && Walked(g, Now())
      ensures r <==> Recursive(Now(), from, to)
      ensures r ==> Reaches(g, from, to) && Reaches(g, to, from)
      ensures from in seen && to in seen && to in Edges(g, from) && from in Edges(g, to) ==> r
      ensures from in seen && to in seen && to in Edges(g, from) && clock.when[to] <= clock.when[from] ==>
                (r <==> ReachesIn(g, Since(clock, to), to, from))
      ensures from in seen && to in Edges(g, from) ==> (r <==> Timely(steps, |steps|, to, from))
    {
      r := from in refs && to in refs[from] && to in refs && from in refs[to];
      WalkedOver(g, Now());
      if r { RecursiveIsMutual(g, Now(), from, to); }
      WalkedExactly(g, Now(), to, from);
      if from in seen && to in Edges(g, from) { SeenIsDone(g, Now(), from, to); }
      if from in seen && to in seen && to in Edges(g, from) {
        if from in Edges(g, to) {
          SeenIsDone(g, Now(), from, to);
          SeenIsDone(g, Now(), to, from);
        }
        if clock.when[to] <= clock.when[from] { BackReferenceExactly(g, Now(), from, to); }
      }
    }
  }

  // ── The visible declarations of an application ───────────────────────

  datatype Rpc = Rpc(isPrivate: bool, handshake: Type, request: Type, response: Type)

  datatype Service = Service(name: string, rpcs: seq<Rpc>)

  /** The declarations the endpoint's schemas mention; private endpoints show nothing. */
  function RpcTargets(r: Rpc): seq<nat> {
    if r.isPrivate then [] else Targets(r.handshake) + Targets(r.request) + Targets(r.response)
  }

  function RpcsTargets(rs: seq<Rpc>): seq<nat> {
    if rs == [] then [] else RpcTargets(rs[0]) + RpcsTargets(rs[1..])
  }

  function ServicesTargets(svcs: seq<Service>, chosen: set<string>): seq<nat> {
    if svcs == [] then []
    else (if svcs[0].name in chosen then RpcsTargets(svcs[0].rpcs) else []) + ServicesTargets(svcs[1..], chosen)
  }

  /** The roots of the visit: the chosen services' endpoints and the parameters of the auth handler. */
  function Roots(svcs: seq<Service>, chosen: set<string>, auth: Option<Type>): seq<nat> {
    ServicesTargets(svcs, chosen) + (if auth.Some? then Targets(auth.value) else [])
  }

  method VisitRpc(r: Registry, rpc: Rpc)
    requires r.Valid() && r.curr.None? && InRange(r.g, RpcTargets(rpc))
    modifies r
    ensures r.Valid() && r.curr.None? && r.Now() == Walk(r.g, old(r.Now()), None, RpcTargets(rpc))
  {
    if !rpc.isPrivate {
      var a, b, c := Targets(rpc.handshake), Targets(rpc.request), Targets(rpc.response);
      WalkTwice(r.g, r.Now(), None, a + b, c);
      WalkTwice(r.g, r.Now(), None, a, b);
      InRangeParts(r.g, a + b, c);
      InRangeParts(r.g, a, b);
      r.Visit(rpc.handshake);
      r.Visit(rpc.request);
      r.Visit(rpc.response);
    }
  }

  method VisitRpcs(r: Registry, rpcs: seq<Rpc>)
    requires r.Valid() && r.curr.None? && InRange(r.g, RpcsTargets(rpcs))
    modifies r
    ensures r.Valid() && r.curr.None? && r.Now() == Walk(r.g, old(r.Now()), None, RpcsTargets(rpcs))
  {
    for i := 0 to |rpcs|
      invariant r.Valid() && r.curr.None? && InRange(r.g, RpcsTargets(rpcs[i..]))
      invariant Walk(r.g, r.Now(), None, RpcsTargets(rpcs[i..])) == Walk(r.g, old(r.Now()), None, RpcsTargets(rpcs))
    {
      assert rpcs[i..][0] == rpcs[i] && rpcs[i..][1..] == rpcs[i + 1..];
      WalkTwice(r.g, r.Now(), None, RpcTargets(rpcs[i]), RpcsTargets(rpcs[i + 1..]));
      InRangeParts(r.g, RpcTargets(rpcs[i]), RpcsTargets(rpcs[i + 1..]));
      VisitRpc(r, rpcs[i]);
    }
  }

  method VisitServices(r: Registry, svcs: seq<Service>, chosen: set<string>)
    requires r.Valid() && r.curr.None? && InRange(r.g, ServicesTargets(svcs, chosen))
    modifies r
    ensures r.Valid() && r.curr.None? && r.Now() == Walk(r.g, old(r.Now()), None, ServicesTargets(svcs, chosen))
  {
    for i := 0 to |svcs|
      invariant r.Valid() && r.curr.None? && InRange(r.g, ServicesTargets(svcs[i..], chosen))
      invariant Walk(r.g, r.Now(), None, ServicesTargets(svcs[i..], chosen))
             == Walk(r.g, old(r.Now()), None, ServicesTargets(svcs, chosen))
    {
      assert svcs[i..][0] == svcs[i] && svcs[i..][1..] == svcs[i + 1..];
      if svcs[i].name in chosen {
        WalkTwice(r.g, r.Now(), None, RpcsTargets(svcs[i].rpcs), ServicesTargets(svcs[i + 1..], chosen));
        InRangeParts(r.g, RpcsTargets(svcs[i].rpcs), ServicesTargets(svcs[i + 1..], chosen));
        VisitRpcs(r, svcs[i].rpcs);
      } else {
        assert ServicesTargets(svcs[i..], chosen) == ServicesTargets(svcs[i + 1..], chosen);
      }
    }
  }

  /**
   * `getNamedTypes`: the registry holds exactly the declarations reachable from the roots, each listed once under its
   * own package; references are real paths, and all of them for declarations that lead to no cycle.
   */
  method GetNamedTypes(g: Graph, svcs: seq<Service>, chosen: set<string>, auth: Option<Type>) returns (r: Registry)
    requires WellFormed(g) && InRange(g, Roots(svcs, chosen, auth))
    ensures fresh(r) && r.Valid() && r.g == g && r.curr.None?
    ensures r.Now() == Walk(g, START, None, Roots(svcs, chosen, auth))
    ensures forall n :: n in r.seen <==> Live(g, n) && From(g, Anywhere(), Roots(svcs, chosen, auth), n)
    ensures Spaces(g, r.seen, r.namespaces)
    ensures forall n, m :: m in RefsOf(r.Now(), n) ==> Reaches(g, n, m)
    ensures forall n, m :: n in r.seen && OffCycles(g, n) ==> (m in RefsOf(r.Now(), n) <==> Reaches(g, n, m))
  {
    r := new Registry(g);
    ghost var a, b := ServicesTargets(svcs, chosen), if auth.Some? then Targets(auth.value) else [];
    WalkTwice(g, r.Now(), None, a, b);
    InRangeParts(g, a, b);
    VisitServices(r, svcs, chosen);
    if auth.Some? { r.Visit(auth.value); }
    Conclude(g, a + b);
  }

  lemma {:induction false} Conclude(g: Graph, ids: seq<nat>)
    ensures var s := Walk(g, START, None, ids);
            && Spaces(g, s.clock.when.Keys, s.ns)
            && (forall n :: n in s.clock.when <==> Live(g, n) && From(g, Anywhere(), ids, n))
            && (forall n, m :: m in RefsOf(s, n) ==> Reaches(g, n, m))
            && (forall n, m :: n in s.clock.when && OffCycles(g, n) ==> (m in RefsOf(s, n) <==> Reaches(g, n, m)))
  {
    var s := Walk(g, START, None, ids);
    WalkOver(g, ids);
    WalkBooked(g, START, None, ids);
    forall n ensures n in s.clock.when <==> Live(g, n) && From(g, Anywhere(), ids, n) {
      SeesExactlyReachable(g, ids, n);
    }
    forall n, m | n in s.clock.when && OffCycles(g, n) ensures m in RefsOf(s, n) <==> Reaches(g, n, m) {
      RefsAreClosure(g, s, n, m);
    }
  }
}

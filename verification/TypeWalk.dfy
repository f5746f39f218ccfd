/** Schemas, the graph of declarations they mention, and the depth-first walk of it as a function of values. */
module TypeWalk {
  import opened Bytes

  // ── Schemas ──────────────────────────────────────────────────────────

  datatype Type =
    | NilType
    | Named(id: nat, args: seq<Type>)
    | List(elem: Type)
    | MapType(key: Type, value: Type)
    | Struct(fields: seq<Type>)
    | Builtin
    | TypeParameter
    | Literal
    | Pointer(base: Type)
    | OptionType(inner: Type)
    | Config(conf: Type)
    | Union(types: seq<Type>)

  datatype Decl = Decl(pkg: string, typ: Type)

  /** Declarations by number; a hole is a nil declaration. */
  type Graph = seq<Option<Decl>>

  /** The declarations a type mentions, type arguments included, in the order they are met. */
  function Targets(t: Type): seq<nat>
    decreases t, 0
  {
    match t
    case Named(id, args) => [id] + TargetsAll(args)
    case List(e) => Targets(e)
    case MapType(k, v) => Targets(k) + Targets(v)
    case Struct(fs) => TargetsAll(fs)
    case Pointer(b) => Targets(b)
    case OptionType(i) => Targets(i)
    case Config(c) => Targets(c)
    case Union(ts) => TargetsAll(ts)
    case _ => []
  }

  function TargetsAll(ts: seq<Type>): seq<nat>
    decreases ts, 1
  {
    if ts == [] then [] else Targets(ts[0]) + TargetsAll(ts[1..])
  }

  /** The types a type is made of, from left to right. */
  function Parts(t: Type): (ts: seq<Type>)
    ensures forall i :: 0 <= i < |ts| ==> ts[i] < t
  {
    match t
    case Named(_, args) => args
    case List(e) => [e]
    case MapType(k, v) => [k, v]
    case Struct(fs) => fs
    case Pointer(b) => [b]
    case OptionType(i) => [i]
    case Config(c) => [c]
    case Union(ts) => ts
    case _ => []
  }

  /** A reference to the declaration occurs in the type, at any depth. */
  ghost predicate OccursIn(n: nat, t: Type)
    decreases t
  {
    (t.Named? && t.id == n) || exists i :: 0 <= i < |Parts(t)| && OccursIn(n, Parts(t)[i])
  }

  /** A type mentions itself first, if it is a reference, and then what its parts mention, from left to right. */
  lemma {:induction false} TargetsInOrder(t: Type)
    ensures Targets(t) == (if t.Named? then [t.id] else []) + TargetsAll(Parts(t))
  {
    match t
    case List(e) => TargetsOfOne(e);
    case Pointer(b) => TargetsOfOne(b);
    case OptionType(i) => TargetsOfOne(i);
    case Config(c) => TargetsOfOne(c);
    case MapType(k, v) =>
      TargetsOfOne(v);
      assert [k, v][1..] == [v] && TargetsAll([k, v]) == Targets(k) + TargetsAll([v]);
    case _ =>
  }

  lemma {:induction false} TargetsOfOne(t: Type)
    ensures TargetsAll([t]) == Targets(t)
  {
    assert [t][1..] == [];
  }

  lemma {:induction false} TargetsOfSome(ts: seq<Type>, n: nat)
    ensures n in TargetsAll(ts) <==> exists i :: 0 <= i < |ts| && n in Targets(ts[i])
  {
    if ts != [] {
      TargetsOfSome(ts[1..], n);
      if n in TargetsAll(ts[1..]) {
        var i :| 0 <= i < |ts[1..]| && n in Targets(ts[1..][i]);
        assert ts[i + 1] == ts[1..][i];
      }
      if i :| 0 < i < |ts| && n in Targets(ts[i]) {
        assert ts[1..][i - 1] == ts[i];
      }
    }
  }

  /** The declarations a type mentions are exactly those a reference to which occurs in it. */
  lemma {:induction false} TargetsExactly(t: Type, n: nat)
    ensures n in Targets(t) <==> OccursIn(n, t)
    decreases t
  {
    TargetsInOrder(t);
    TargetsOfSome(Parts(t), n);
    forall i | 0 <= i < |Parts(t)| ensures n in Targets(Parts(t)[i]) <==> OccursIn(n, Parts(t)[i]) {
      TargetsExactly(Parts(t)[i], n);
    }
  }

  predicate Live(g: Graph, n: nat) {
    n < |g| && g[n].Some?
  }

  /** What a declaration mentions, in order. */
  function Edges(g: Graph, n: nat): seq<nat> {
    if Live(g, n) then Targets(g[n].value.typ) else []
  }

  // ── The walk ─────────────────────────────────────────────────────────

  /** Reading a reference: it is met, its declaration is visited, and then it is left. */
  datatype Step = Met(from: nat, to: nat) | Left(from: nat, to: nat)

  /** When each declaration was entered, and how many had been entered when it was finished. */
  datatype Clock = Clock(when: map<nat, nat>, until: map<nat, nat>)

  /** How far a walk has come: the references recorded, the lists by package, and the steps taken for declarations. */
  datatype Trail = Trail(clock: Clock, refs: map<nat, set<nat>>, ns: map<string, seq<nat>>, steps: seq<Step>)

  const START := Trail(Clock(map[], map[]), map[], map[], [])

  function RefsOf(s: Trail, n: nat): set<nat> {
    if n in s.refs then s.refs[n] else {}
  }

  function AddRefs(s: Trail, n: nat, more: set<nat>): map<nat, set<nat>> {
    s.refs[n := RefsOf(s, n) + more]
  }

  function AddTo(ns: map<string, seq<nat>>, p: string, d: nat): map<string, seq<nat>> {
    ns[p := (if p in ns then ns[p] else []) + [d]]
  }

  function Meet(s: Trail, curr: Option<nat>, to: nat): Trail {
    if curr.None? then s
    else s.(refs := AddRefs(s, curr.value, {to}), steps := s.steps + [Met(curr.value, to)])
  }

  function Leave(s: Trail, curr: Option<nat>, to: nat): Trail {
    if curr.None? then s
    else s.(refs := AddRefs(s, curr.value, RefsOf(s, to)), steps := s.steps + [Left(curr.value, to)])
  }

  function Tick(c: Clock, d: nat): Clock {
    c.(when := c.when[d := |c.when|])
  }

  function Stop(c: Clock, d: nat): Clock {
    c.(until := c.until[d := |c.when|])
  }

  function Enter(g: Graph, s: Trail, d: nat): Trail
    requires Live(g, d)
  {
    s.(clock := Tick(s.clock, d), ns := AddTo(s.ns, g[d].value.pkg, d))
  }

  function Finish(s: Trail, d: nat): Trail {
    s.(clock := Stop(s.clock, d))
  }

  /** Declarations not entered yet: what bounds the depth of the walk. */
  function Unseen(g: Graph, s: Trail): set<nat> {
    set n: nat | n < |g| && n !in s.clock.when
  }

  /** Follows references in order on behalf of `curr`. */
  function Walk(g: Graph, s: Trail, curr: Option<nat>, ids: seq<nat>): (t: Trail)
    ensures s.clock.when.Keys <= t.clock.when.Keys
    decreases Unseen(g, s), 2, |ids|
  {
    if ids == [] then s
    else
      var t := Follow(g, s, curr, ids[0]);
      assert Unseen(g, t) <= Unseen(g, s);
      Walk(g, t, curr, ids[1..])
  }

  function Follow(g: Graph, s: Trail, curr: Option<nat>, to: nat): (t: Trail)
    ensures s.clock.when.Keys <= t.clock.when.Keys
    decreases Unseen(g, s), 1, 0
  {
    var met := Meet(s, curr, to);
    assert Unseen(g, met) == Unseen(g, s);
    Leave(WalkDecl(g, met, to), curr, to)
  }

  function WalkDecl(g: Graph, s: Trail, d: nat): (t: Trail)
    ensures s.clock.when.Keys <= t.clock.when.Keys
    decreases Unseen(g, s), 0, 0
  {
    if !Live(g, d) || d in s.clock.when then s
    else
      var e := Enter(g, s, d);
      assert d in Unseen(g, s) && d !in Unseen(g, e) && Unseen(g, e) <= Unseen(g, s);
      Finish(Walk(g, e, Some(d), Edges(g, d)), d)
  }

  lemma {:induction false} WalkTwice(g: Graph, s: Trail, curr: Option<nat>, a: seq<nat>, b: seq<nat>)
    ensures Walk(g, s, curr, a + b) == Walk(g, Walk(g, s, curr, a), curr, b)
    decreases |a|
  {
    if a == [] {
      assert a + b == b;
    } else {
      assert (a + b)[1..] == a[1..] + b;
      WalkTwice(g, Follow(g, s, curr, a[0]), curr, a[1..], b);
    }
  }

  // ── Paths ────────────────────────────────────────────────────────────

  /** One edge or more, each from one element of the sequence to the next; all elements but the last lie in `within`. */
  ghost predicate IsPath(g: Graph, within: iset<nat>, p: seq<nat>) {
    |p| >= 2 && p[0] in within && p[1] in Edges(g, p[0]) && (|p| == 2 || IsPath(g, within, p[1..]))
  }

  ghost predicate ReachesIn(g: Graph, within: iset<nat>, a: nat, b: nat) {
    exists p :: IsPath(g, within, p) && p[0] == a && p[|p| - 1] == b
  }

  ghost predicate Any(n: nat) {
    true
  }

  ghost function Anywhere(): iset<nat> {
    iset n: nat | Any(n)
  }

  ghost predicate Reaches(g: Graph, a: nat, b: nat) {
    ReachesIn(g, Anywhere(), a, b)
  }

  lemma {:induction false} EdgeReaches(g: Graph, within: iset<nat>, a: nat, b: nat)
    requires b in Edges(g, a) && a in within
    ensures ReachesIn(g, within, a, b)
  {
    assert IsPath(g, within, [a, b]);
  }

  lemma {:induction false} JoinPaths(g: Graph, within: iset<nat>, p: seq<nat>, q: seq<nat>)
    requires IsPath(g, within, p) && IsPath(g, within, q) && p[|p| - 1] == q[0]
    ensures IsPath(g, within, p + q[1..])
  {
    var r := p + q[1..];
    if |p| == 2 {
      assert r[1..] == q;
    } else {
      JoinPaths(g, within, p[1..], q);
      assert r[1..] == p[1..] + q[1..];
    }
  }

  lemma {:induction false} ReachesTrans(g: Graph, within: iset<nat>, a: nat, b: nat, c: nat)
    requires ReachesIn(g, within, a, b) && ReachesIn(g, within, b, c)
    ensures ReachesIn(g, within, a, c)
  {
    var p :| IsPath(g, within, p) && p[0] == a && p[|p| - 1] == b;
    var q :| IsPath(g, within, q) && q[0] == b && q[|q| - 1] == c;
    JoinPaths(g, within, p, q);
    var r := p + q[1..];
    assert r[0] == a && r[|r| - 1] == c;
  }

  lemma {:induction false} PathWidens(g: Graph, within: iset<nat>, more: iset<nat>, p: seq<nat>)
    requires within <= more && IsPath(g, within, p)
    ensures IsPath(g, more, p)
  {
    if |p| > 2 { PathWidens(g, within, more, p[1..]); }
  }

  lemma {:induction false} ReachesWidens(g: Graph, within: iset<nat>, more: iset<nat>, a: nat, b: nat)
    requires within <= more && ReachesIn(g, within, a, b)
    ensures ReachesIn(g, more, a, b)
  {
    var p :| IsPath(g, within, p) && p[0] == a && p[|p| - 1] == b;
    PathWidens(g, within, more, p);
  }

  /** `n` is one of the targets or reached from one. */
  ghost predicate From(g: Graph, within: iset<nat>, targets: seq<nat>, n: nat) {
    n in targets || exists r :: r in targets && ReachesIn(g, within, r, n)
  }

  lemma {:induction false} FromWidens(
      g: Graph, within: iset<nat>, more: iset<nat>, targets: seq<nat>, others: seq<nat>, n: nat)
    requires within <= more && (forall r :: r in targets ==> r in others) && From(g, within, targets, n)
    ensures From(g, more, others, n)
  {
    if n !in targets {
      var r :| r in targets && ReachesIn(g, within, r, n);
      ReachesWidens(g, within, more, r, n);
    }
  }

  // ── The clock ────────────────────────────────────────────────────────

  /** It counts entered declarations. */
  ghost predicate Runs(c: Clock) {
    && (forall n :: n in c.when ==> c.when[n] < |c.when|)
    && (forall n, m :: n in c.when && m in c.when && c.when[n] == c.when[m] ==> n == m)
    && (forall n :: n in c.until ==> n in c.when && c.when[n] < c.until[n] <= |c.when|)
  }

  /** The declarations entered while `a` was visited, `a` included. */
  ghost function Span(c: Clock, a: nat): iset<nat> {
    iset n: nat | a in c.until && a in c.when && n in c.when && c.when[a] <= c.when[n] < c.until[a]
  }

  /** Entered between the two. */
  ghost function Fresh(c: Clock, e: Clock): iset<nat> {
    iset n: nat | n in e.when && n !in c.when
  }

  /** Time passes: old entries stand and new ones come later. */
  ghost predicate Later(c: Clock, e: Clock) {
    && (forall n :: n in c.when ==> n in e.when && e.when[n] == c.when[n])
    && (forall n :: n in Fresh(c, e) ==> |c.when| <= e.when[n])
    && (forall n :: n in c.until ==> n in e.until && e.until[n] == c.until[n])
    && |c.when| <= |e.when|
  }

  /** Just the new ones were finished meanwhile. */
  ghost predicate Grew(c: Clock, e: Clock) {
    Later(c, e) && forall n :: n in Fresh(c, e) <==> n in e.until && n !in c.until
  }

  lemma {:induction false} GrewNot(c: Clock)
    ensures Grew(c, c) && Fresh(c, c) == iset{}
  {
    assert Fresh(c, c) == iset{};
  }

  lemma {:induction false} LaterTwice(c: Clock, d: Clock, e: Clock)
    requires Later(c, d) && Later(d, e)
    ensures Later(c, e) && Fresh(c, e) == Fresh(c, d) + Fresh(d, e)
  {
    assert Fresh(c, e) == Fresh(c, d) + Fresh(d, e);
  }

  lemma {:induction false} GrewTwice(c: Clock, d: Clock, e: Clock)
    requires Grew(c, d) && Grew(d, e)
    ensures Grew(c, e) && Fresh(c, e) == Fresh(c, d) + Fresh(d, e)
  {
    LaterTwice(c, d, e);
  }

  lemma {:induction false} SpanStays(c: Clock, e: Clock, a: nat)
    requires Runs(c) && Later(c, e) && a in c.until
    ensures Span(e, a) == Span(c, a)
  {
    assert forall n :: n in Span(e, a) <==> n in Span(c, a);
  }

  lemma {:induction false} TickRuns(c: Clock, d: nat)
    requires Runs(c) && d !in c.when
    ensures Runs(Tick(c, d)) && Later(c, Tick(c, d)) && Fresh(c, Tick(c, d)) == iset{d}
  {
    var e := Tick(c, d);
    assert |e.when| == |c.when| + 1;
    assert Fresh(c, e) == iset{d};
  }

  lemma {:induction false} StopRuns(c: Clock, d: nat)
    requires Runs(c) && d in c.when && d !in c.until
    ensures Runs(Stop(c, d)) && Later(c, Stop(c, d))
  {
    assert Fresh(c, Stop(c, d)) == iset{};
  }

  /** All that was entered since `d` was entered inside its visit. */
  lemma {:induction false} StopSpan(c: Clock, e: Clock, d: nat)
    requires Runs(c) && Later(c, e) && Runs(e) && d in e.when && e.when[d] == |c.when|
    ensures Span(Stop(e, d), d) == Fresh(c, Stop(e, d)) == Fresh(c, e)
  {
    var u := Stop(e, d);
    assert forall n :: n in Span(u, d) <==> n in Fresh(c, u);
    assert Fresh(c, u) == Fresh(c, e);
  }

  /** From before `d` is entered until it is finished. */
  lemma {:induction false} StopGrew(c: Clock, k: Clock, e: Clock, d: nat)
    requires Later(c, k) && Fresh(c, k) == iset{d} && k.until == c.until && d !in c.until && Grew(k, e)
    ensures Fresh(c, e) == Fresh(k, e) + iset{d} && Later(c, e) && Grew(c, Stop(e, d))
  {
    var u := Stop(e, d);
    LaterTwice(c, k, e);
    assert Fresh(c, u) == Fresh(c, e);
    forall n ensures n in Fresh(c, u) <==> n in u.until && n !in c.until {
      assert n in Fresh(k, e) <==> n in e.until && n !in k.until;
    }
  }

  // ── What the walk keeps ──────────────────────────────────────────────

  /** What is mentioned inside the visit of `a` was entered before it ended, and whatever was entered inside has ended. */
  ghost predicate Closed(g: Graph, c: Clock, a: nat) {
    && (forall n :: n in Span(c, a) ==> n in c.until && c.until[n] <= c.until[a])
    && (forall n, m :: n in Span(c, a) && m in Edges(g, n) && Live(g, m) ==> m in c.when && c.when[m] < c.until[a])
  }

  /** What was entered inside the visit of `a` is reached from `a` inside it. */
  ghost predicate Rooted(g: Graph, c: Clock, a: nat) {
    forall n :: n in Span(c, a) && n != a ==> ReachesIn(g, Span(c, a), a, n)
  }

  /** What was entered inside the visit of `a` is recorded for `a` with all its references. */
  ghost predicate Absorbs(s: Trail, a: nat) {
    forall n :: n in Span(s.clock, a) && n != a ==> n in RefsOf(s, a) && RefsOf(s, n) <= RefsOf(s, a)
  }

  /** What `a` mentions is recorded; nothing recorded was entered after the visit of `a` ended. */
  ghost predicate Direct(g: Graph, s: Trail, a: nat) {
    && (forall m :: m in Edges(g, a) ==> m in RefsOf(s, a))
    && (forall m :: m in RefsOf(s, a) && Live(g, m) ==>
          m in s.clock.when && a in s.clock.until && s.clock.when[m] < s.clock.until[a])
  }

  /** A mention carries all its references over, unless it leads back. */
  ghost predicate Carries(g: Graph, s: Trail, a: nat, m: nat) {
    Reaches(g, m, a) || (m in s.clock.until && RefsOf(s, m) <= RefsOf(s, a))
  }

  ghost predicate CarriesAll(g: Graph, s: Trail, a: nat) {
    forall m :: m in Edges(g, a) && Live(g, m) ==> Carries(g, s, a, m)
  }

  ghost predicate Ended(g: Graph, s: Trail, a: nat) {
    Closed(g, s.clock, a) && Rooted(g, s.clock, a) && Absorbs(s, a) && Direct(g, s, a) && CarriesAll(g, s, a)
  }

  ghost predicate AllEnded(g: Graph, s: Trail) {
    forall a :: a in s.clock.until ==> Ended(g, s, a)
  }

  /** What was entered is finished or still being visited, and what is being visited leads to the current declaration. */
  ghost predicate Nested(g: Graph, c: Clock, curr: Option<nat>, active: set<nat>) {
    && (forall n :: n in c.when <==> n in c.until || n in active)
    && (forall n :: n in active ==> n !in c.until && curr.Some? && (n == curr.value || Reaches(g, n, curr.value)))
    && (curr.Some? ==> curr.value in active)
  }

  ghost predicate Timed(g: Graph, c: Clock, curr: Option<nat>, active: set<nat>) {
    Runs(c) && Nested(g, c, curr, active) && forall n :: n in c.when ==> Live(g, n)
  }

  /** Every recorded reference is a real path to a declaration that was entered, or is about to be. */
  ghost predicate Sound(g: Graph, s: Trail, next: set<nat>) {
    && (forall n, m :: m in RefsOf(s, n) ==> Reaches(g, n, m))
    && (forall n, m :: m in RefsOf(s, n) && Live(g, m) ==> m in s.clock.when || m in next)
    && (forall n :: n in s.refs ==> n in s.clock.when)
  }

  ghost predicate Kept(g: Graph, s: Trail, curr: Option<nat>, active: set<nat>, next: set<nat>) {
    Timed(g, s.clock, curr, active) && Sound(g, s, next) && AllEnded(g, s)
  }

  // ── What one stretch of the walk does ────────────────────────────────

  /** Only the current declaration and new ones gain references. */
  ghost predicate Others(s: Trail, t: Trail, curr: Option<nat>) {
    forall n :: n in s.clock.when && curr != Some(n) ==> RefsOf(t, n) == RefsOf(s, n)
  }

  /** On behalf of `c`: the targets, and whatever was newly entered with all its references, are recorded. */
  ghost predicate Gathered(g: Graph, s: Trail, t: Trail, c: nat, ids: seq<nat>) {
    && RefsOf(s, c) <= RefsOf(t, c)
    && (forall m :: m in ids ==> m in RefsOf(t, c))
    && (forall n :: n in Fresh(s.clock, t.clock) ==> n in RefsOf(t, c) && RefsOf(t, n) <= RefsOf(t, c))
    && (forall m :: m in ids && Live(g, m) ==> Carries(g, t, c, m))
  }

  /** What was newly entered is reached from the targets through what was newly entered, and holds the live targets. */
  ghost predicate Covers(g: Graph, c: Clock, e: Clock, ids: seq<nat>) {
    && (forall m :: m in ids && Live(g, m) ==> m in e.when)
    && (forall n :: n in Fresh(c, e) ==> From(g, Fresh(c, e), ids, n))
  }

  ghost predicate Did(g: Graph, s: Trail, t: Trail, curr: Option<nat>, ids: seq<nat>) {
    && Grew(s.clock, t.clock) && Covers(g, s.clock, t.clock, ids) && Others(s, t, curr)
    && (curr.Some? ==> Gathered(g, s, t, curr.value, ids))
  }

  lemma {:induction false} CoversTwice(g: Graph, c: Clock, d: Clock, e: Clock, a: seq<nat>, b: seq<nat>)
    requires Grew(c, d) && Grew(d, e) && Covers(g, c, d, a) && Covers(g, d, e, b)
    ensures Covers(g, c, e, a + b)
  {
    GrewTwice(c, d, e);
    forall n | n in Fresh(c, e) ensures From(g, Fresh(c, e), a + b, n) {
      if n in Fresh(c, d) {
        FromWidens(g, Fresh(c, d), Fresh(c, e), a, a + b, n);
      } else {
        FromWidens(g, Fresh(d, e), Fresh(c, e), b, a + b, n);
      }
    }
  }

  lemma {:induction false} GatheredTwice(
      g: Graph, s: Trail, t: Trail, u: Trail, c: nat, a: seq<nat>, b: seq<nat>)
    requires Grew(s.clock, t.clock) && Grew(t.clock, u.clock) && Others(t, u, Some(c))
    requires c !in t.clock.until && forall n :: n in t.clock.until ==> n in t.clock.when
    requires Gathered(g, s, t, c, a) && Gathered(g, t, u, c, b)
    ensures Gathered(g, s, u, c, a + b)
  {
    GrewTwice(s.clock, t.clock, u.clock);
    assert forall n :: n in t.clock.until ==> n in u.clock.until && RefsOf(u, n) == RefsOf(t, n);
    forall m | m in a && Live(g, m) ensures Carries(g, u, c, m) { assert Carries(g, t, c, m); }
  }

  /** Two stretches in a row. */
  lemma {:induction false} DidTwice(
      g: Graph, s: Trail, t: Trail, u: Trail, curr: Option<nat>, a: seq<nat>, b: seq<nat>)
    requires Did(g, s, t, curr, a) && Did(g, t, u, curr, b) && Runs(t.clock)
    requires curr.Some? ==> curr.value !in t.clock.until
    ensures Did(g, s, u, curr, a + b)
  {
    GrewTwice(s.clock, t.clock, u.clock);
    CoversTwice(g, s.clock, t.clock, u.clock, a, b);
    if curr.Some? { GatheredTwice(g, s, t, u, curr.value, a, b); }
  }

  // ── Finished declarations do not change ──────────────────────────────

  lemma {:induction false} StaysClosed(g: Graph, c: Clock, e: Clock, a: nat)
    requires Later(c, e) && a in c.until && Span(e, a) == Span(c, a) && Closed(g, c, a)
    ensures Closed(g, e, a)
  {}

  lemma {:induction false} StaysEnded(g: Graph, s: Trail, t: Trail, a: nat)
    requires Later(s.clock, t.clock) && a in s.clock.until && Ended(g, s, a) && Span(t.clock, a) == Span(s.clock, a)
    requires forall n :: n in s.clock.until ==> RefsOf(t, n) == RefsOf(s, n)
    ensures Ended(g, t, a)
  {
    StaysClosed(g, s.clock, t.clock, a);
    assert Absorbs(t, a) && Direct(g, t, a);
    forall m | m in Edges(g, a) && Live(g, m) ensures Carries(g, t, a, m) { assert Carries(g, s, a, m); }
  }

  lemma {:induction false} StayEnded(g: Graph, s: Trail, t: Trail)
    requires Runs(s.clock) && Later(s.clock, t.clock) && AllEnded(g, s)
    requires forall n :: n in s.clock.until ==> RefsOf(t, n) == RefsOf(s, n)
    ensures forall a :: a in s.clock.until ==> Ended(g, t, a)
  {
    forall a | a in s.clock.until ensures Ended(g, t, a) {
      SpanStays(s.clock, t.clock, a);
      StaysEnded(g, s, t, a);
    }
  }

  // ── One reference ────────────────────────────────────────────────────

  lemma {:induction false} RecordSound(g: Graph, s: Trail, t: Trail, c: nat, more: set<nat>, next: set<nat>)
    requires Sound(g, s, {}) && t.clock == s.clock && t.refs == AddRefs(s, c, more) && c in s.clock.when
    requires forall m :: m in more ==> Reaches(g, c, m)
    requires forall m :: m in more && Live(g, m) ==> m in s.clock.when || m in next
    ensures Sound(g, t, next)
  {
    forall n, m | m in RefsOf(t, n) ensures Reaches(g, n, m) && (Live(g, m) ==> m in t.clock.when || m in next) {
      if m !in RefsOf(s, n) { assert n == c && m in more; }
    }
  }

  /** Recording references of the current declaration. */
  lemma {:induction false} RecordKeeps(
      g: Graph, s: Trail, t: Trail, c: nat, active: set<nat>, more: set<nat>, next: set<nat>)
    requires Kept(g, s, Some(c), active, {}) && t.clock == s.clock && t.refs == AddRefs(s, c, more)
    requires forall m :: m in more ==> Reaches(g, c, m)
    requires forall m :: m in more && Live(g, m) ==> m in s.clock.when || m in next
    ensures Kept(g, t, Some(c), active, next)
  {
    assert c in s.clock.when && c !in s.clock.until;
    RecordSound(g, s, t, c, more, next);
    RecordEnded(g, s, t, c, more);
  }

  lemma {:induction false} RecordEnded(g: Graph, s: Trail, t: Trail, c: nat, more: set<nat>)
    requires Runs(s.clock) && AllEnded(g, s) && t.clock == s.clock && t.refs == AddRefs(s, c, more)
    requires c !in s.clock.until
    ensures AllEnded(g, t)
  {
    GrewNot(s.clock);
    StayEnded(g, s, t);
  }

  lemma {:induction false} MeetKeeps(g: Graph, s: Trail, c: nat, active: set<nat>, to: nat)
    requires Kept(g, s, Some(c), active, {}) && to in Edges(g, c)
    ensures Kept(g, Meet(s, Some(c), to), Some(c), active, {to})
  {
    EdgeReaches(g, Anywhere(), c, to);
    RecordKeeps(g, s, Meet(s, Some(c), to), c, active, {to}, {to});
  }

  lemma {:induction false} LeaveKeeps(g: Graph, s: Trail, c: nat, active: set<nat>, to: nat)
    requires Kept(g, s, Some(c), active, {}) && to in Edges(g, c)
    ensures Kept(g, Leave(s, Some(c), to), Some(c), active, {})
  {
    EdgeReaches(g, Anywhere(), c, to);
    forall m | m in RefsOf(s, to) ensures Reaches(g, c, m) { ReachesTrans(g, Anywhere(), c, to, m); }
    RecordKeeps(g, s, Leave(s, Some(c), to), c, active, RefsOf(s, to), {});
  }

  /** On behalf of `c`, one reference is recorded with all that its visit entered. */
  lemma {:induction false} FollowGathered(
      g: Graph, s: Trail, met: Trail, back: Trail, t: Trail, c: nat, active: set<nat>, to: nat)
    requires met == Meet(s, Some(c), to) && t == Leave(back, Some(c), to) && to in Edges(g, c)
    requires RefsOf(back, c) == RefsOf(met, c) && Nested(g, back.clock, Some(c), active)
    requires Live(g, to) ==> to in back.clock.when
    requires forall n :: n in Fresh(s.clock, t.clock) ==> n == to || (n in RefsOf(back, to) && RefsOf(back, n) <= RefsOf(back, to))
    requires c in s.clock.when
    ensures Gathered(g, s, t, c, [to])
  {
    assert RefsOf(t, c) == RefsOf(back, c) + RefsOf(back, to);
    assert forall n :: n != c ==> RefsOf(t, n) == RefsOf(back, n);
    if to == c { EdgeReaches(g, Anywhere(), c, c); }
    if Live(g, to) { assert Carries(g, t, c, to); }
  }

  /** Meeting, visiting and leaving one reference. */
  lemma {:induction false} FollowDid(g: Graph, s: Trail, met: Trail, back: Trail, c: nat, active: set<nat>, to: nat)
    requires met == Meet(s, Some(c), to) && Did(g, met, back, None, [to]) && to in Edges(g, c)
    requires c in s.clock.when && Nested(g, back.clock, Some(c), active)
    requires Fresh(met.clock, back.clock) == iset{}
             || (Fresh(met.clock, back.clock) == Span(back.clock, to) && Absorbs(back, to))
    ensures Did(g, s, Leave(back, Some(c), to), Some(c), [to])
  {
    var t := Leave(back, Some(c), to);
    assert Others(s, t, Some(c));
    FollowGathered(g, s, met, back, t, c, active, to);
  }

  // ── One declaration ──────────────────────────────────────────────────

  lemma {:induction false} EnterNested(g: Graph, c: Clock, curr: Option<nat>, active: set<nat>, d: nat)
    requires Timed(g, c, curr, active) && Live(g, d) && d !in c.when && (curr.Some? ==> d in Edges(g, curr.value))
    ensures Timed(g, Tick(c, d), Some(d), active + {d})
  {
    TickRuns(c, d);
    forall n | n in active ensures Reaches(g, n, d) {
      EdgeReaches(g, Anywhere(), curr.value, d);
      if n != curr.value { ReachesTrans(g, Anywhere(), n, curr.value, d); }
    }
  }

  lemma {:induction false} EnterSound(g: Graph, s: Trail, e: Trail, d: nat)
    requires Sound(g, s, {d}) && e.refs == s.refs && (forall n :: n in e.clock.when <==> n in s.clock.when || n == d)
    ensures Sound(g, e, {})
  {
    assert forall n :: RefsOf(e, n) == RefsOf(s, n);
    assert forall n, m :: m in RefsOf(s, n) && Live(g, m) ==> m in s.clock.when || m == d;
  }

  lemma {:induction false} EnterEnded(g: Graph, s: Trail, e: Trail, d: nat)
    requires Runs(s.clock) && AllEnded(g, s) && e.refs == s.refs && e.clock == Tick(s.clock, d) && d !in s.clock.when
    ensures AllEnded(g, e)
  {
    TickRuns(s.clock, d);
    assert forall n :: RefsOf(e, n) == RefsOf(s, n);
    StayEnded(g, s, e);
  }

  lemma {:induction false} EnterKeeps(g: Graph, s: Trail, curr: Option<nat>, active: set<nat>, d: nat)
    requires Kept(g, s, curr, active, {d}) && Live(g, d) && d !in s.clock.when
    requires curr.Some? ==> d in Edges(g, curr.value)
    ensures Kept(g, Enter(g, s, d), Some(d), active + {d}, {})
  {
    var e := Enter(g, s, d);
    EnterNested(g, s.clock, curr, active, d);
    EnterSound(g, s, e, d);
    EnterEnded(g, s, e, d);
  }

  lemma {:induction false} FinishClosed(g: Graph, t: Trail, u: Trail, d: nat)
    requires u == Finish(t, d) && Runs(t.clock) && AllEnded(g, t)
    requires forall n :: n in Span(u.clock, d) && n != d ==> n in t.clock.until
    requires forall m :: m in Edges(g, d) && Live(g, m) ==> m in t.clock.when
    ensures Closed(g, u.clock, d)
  {
    forall n, m | n in Span(u.clock, d) && m in Edges(g, n) && Live(g, m)
      ensures m in u.clock.when && u.clock.when[m] < u.clock.until[d]
    {
      if n != d { assert Ended(g, t, n) && n in Span(t.clock, n); }
    }
  }

  /** What is reached from what `d` mentions is reached from `d`. */
  lemma {:induction false} ReachesFrom(g: Graph, within: iset<nat>, more: iset<nat>, d: nat, n: nat)
    requires From(g, within, Edges(g, d), n) && within <= more && d in more
    ensures ReachesIn(g, more, d, n)
  {
    if n in Edges(g, d) {
      EdgeReaches(g, more, d, n);
    } else {
      var r :| r in Edges(g, d) && ReachesIn(g, within, r, n);
      ReachesWidens(g, within, more, r, n);
      EdgeReaches(g, more, d, r);
      ReachesTrans(g, more, d, r, n);
    }
  }

  lemma {:induction false} FinishRooted(g: Graph, e: Clock, t: Clock, u: Clock, d: nat)
    requires Covers(g, e, t, Edges(g, d)) && Span(u, d) == Fresh(e, t) + iset{d}
    ensures Rooted(g, u, d)
  {
    forall n | n in Span(u, d) && n != d ensures ReachesIn(g, Span(u, d), d, n) {
      ReachesFrom(g, Fresh(e, t), Span(u, d), d, n);
    }
  }

  lemma {:induction false} FinishDirect(g: Graph, e: Trail, t: Trail, u: Trail, d: nat)
    requires u == Finish(t, d) && Gathered(g, e, t, d, Edges(g, d)) && Sound(g, t, {}) && Runs(t.clock)
    ensures Direct(g, u, d)
  {
    assert RefsOf(u, d) == RefsOf(t, d);
    forall m | m in RefsOf(u, d) && Live(g, m) ensures m in u.clock.when {}
  }

  lemma {:induction false} FinishAbsorbs(g: Graph, e: Trail, t: Trail, u: Trail, d: nat)
    requires u == Finish(t, d) && Gathered(g, e, t, d, Edges(g, d))
    requires Span(u.clock, d) == Fresh(e.clock, t.clock) + iset{d}
    ensures Absorbs(u, d)
  {
    assert forall n :: RefsOf(u, n) == RefsOf(t, n);
  }

  lemma {:induction false} FinishCarries(g: Graph, e: Trail, t: Trail, u: Trail, d: nat)
    requires u == Finish(t, d) && Gathered(g, e, t, d, Edges(g, d))
    ensures CarriesAll(g, u, d)
  {
    assert forall n :: RefsOf(u, n) == RefsOf(t, n);
    forall m | m in Edges(g, d) && Live(g, m) ensures Carries(g, u, d, m) { assert Carries(g, t, d, m); }
  }

  /** When all that `d` mentions was followed on its behalf, `d` is finished. */
  lemma {:induction false} FinishEnds(g: Graph, e: Trail, t: Trail, d: nat)
    requires Did(g, e, t, Some(d), Edges(g, d)) && Sound(g, t, {}) && Runs(t.clock) && AllEnded(g, t)
    requires Span(Stop(t.clock, d), d) == Fresh(e.clock, t.clock) + iset{d}
    ensures Ended(g, Finish(t, d), d)
  {
    var u := Finish(t, d);
    FinishClosed(g, t, u, d);
    FinishRooted(g, e.clock, t.clock, u.clock, d);
    FinishDirect(g, e, t, u, d);
    FinishAbsorbs(g, e, t, u, d);
    FinishCarries(g, e, t, u, d);
  }

  lemma {:induction false} FinishSound(g: Graph, t: Trail, u: Trail, d: nat)
    requires u == Finish(t, d) && Sound(g, t, {})
    ensures Sound(g, u, {})
  {
    assert forall n :: RefsOf(u, n) == RefsOf(t, n);
  }

  lemma {:induction false} FinishAllEnded(g: Graph, t: Trail, u: Trail, d: nat)
    requires u == Finish(t, d) && Runs(t.clock) && AllEnded(g, t) && d in t.clock.when && d !in t.clock.until
    requires Ended(g, u, d)
    ensures AllEnded(g, u)
  {
    StopRuns(t.clock, d);
    assert forall n :: RefsOf(u, n) == RefsOf(t, n);
    StayEnded(g, t, u);
  }

  lemma {:induction false} FinishTimed(g: Graph, c: Clock, e: Clock, curr: Option<nat>, active: set<nat>, d: nat)
    requires Timed(g, c, curr, active) && Timed(g, e, Some(d), active + {d}) && d !in c.when
    ensures Timed(g, Stop(e, d), curr, active)
  {
    StopRuns(e, d);
  }

  /** A whole visit of a declaration. */
  lemma {:induction false} FinishKeeps(
      g: Graph, s: Trail, e: Trail, t: Trail, curr: Option<nat>, active: set<nat>, d: nat)
    requires Timed(g, s.clock, curr, active) && Live(g, d) && d !in s.clock.when && e == Enter(g, s, d)
    requires Did(g, e, t, Some(d), Edges(g, d)) && Kept(g, t, Some(d), active + {d}, {})
    ensures Kept(g, Finish(t, d), curr, active, {})
    ensures Grew(s.clock, Finish(t, d).clock) && Fresh(s.clock, Finish(t, d).clock) == Span(Finish(t, d).clock, d)
  {
    var u := Finish(t, d);
    TickRuns(s.clock, d);
    StopGrew(s.clock, e.clock, t.clock, d);
    StopSpan(s.clock, t.clock, d);
    FinishEnds(g, e, t, d);
    FinishSound(g, t, u, d);
    FinishAllEnded(g, t, u, d);
    FinishTimed(g, s.clock, t.clock, curr, active, d);
  }

  lemma {:induction false} FinishOthers(g: Graph, s: Trail, e: Trail, t: Trail, d: nat)
    requires Live(g, d) && d !in s.clock.when && e == Enter(g, s, d) && Others(e, t, Some(d))
    ensures Others(s, Finish(t, d), None)
  {
    forall n | n in s.clock.when ensures RefsOf(Finish(t, d), n) == RefsOf(s, n) {
      assert n in e.clock.when && n != d;
      assert RefsOf(t, n) == RefsOf(e, n);
    }
  }

  lemma {:induction false} FinishDid(g: Graph, s: Trail, e: Trail, t: Trail, d: nat)
    requires Live(g, d) && d !in s.clock.when && e == Enter(g, s, d)
    requires Did(g, e, t, Some(d), Edges(g, d)) && Rooted(g, Finish(t, d).clock, d)
    requires Grew(s.clock, Finish(t, d).clock) && Fresh(s.clock, Finish(t, d).clock) == Span(Finish(t, d).clock, d)
    ensures Did(g, s, Finish(t, d), None, [d])
  {
    FinishOthers(g, s, e, t, d);
    FinishCovers(g, s.clock, Finish(t, d).clock, d);
  }

  lemma {:induction false} FinishCovers(g: Graph, c: Clock, u: Clock, d: nat)
    requires Rooted(g, u, d) && d in u.when && Fresh(c, u) == Span(u, d)
    ensures Covers(g, c, u, [d])
  {
    forall n | n in Fresh(c, u) ensures From(g, Fresh(c, u), [d], n) {
      if n != d { assert ReachesIn(g, Fresh(c, u), d, n); }
    }
  }

  // ── The whole walk ───────────────────────────────────────────────────

  lemma {:induction false} SoundNext(g: Graph, s: Trail, d: nat)
    requires !Live(g, d) || d in s.clock.when
    ensures Sound(g, s, {d}) <==> Sound(g, s, {})
  {}

  lemma {:induction false} DidNothing(g: Graph, s: Trail, d: nat)
    requires !Live(g, d) || d in s.clock.when
    ensures Did(g, s, s, None, [d]) && Fresh(s.clock, s.clock) == iset{}
  {
    GrewNot(s.clock);
  }

  lemma {:induction false} DidEmpty(g: Graph, s: Trail, curr: Option<nat>)
    ensures Did(g, s, s, curr, [])
  {
    GrewNot(s.clock);
  }

  /** Visiting a declaration keeps everything, and finishes what it enters. */
  lemma {:induction false} DeclKeeps(g: Graph, s: Trail, curr: Option<nat>, active: set<nat>, d: nat)
    requires Kept(g, s, curr, active, {d}) && (curr.Some? ==> d in Edges(g, curr.value))
    ensures var t := WalkDecl(g, s, d);
            && Kept(g, t, curr, active, {}) && Did(g, s, t, None, [d])
            && (Fresh(s.clock, t.clock) == iset{} || (Fresh(s.clock, t.clock) == Span(t.clock, d) && Absorbs(t, d)))
    decreases Unseen(g, s), 0, 0
  {
    if !Live(g, d) || d in s.clock.when {
      SoundNext(g, s, d);
      DidNothing(g, s, d);
    } else {
      var e := Enter(g, s, d);
      assert d in Unseen(g, s) && d !in Unseen(g, e) && Unseen(g, e) <= Unseen(g, s);
      EnterKeeps(g, s, curr, active, d);
      WalkKeeps(g, e, Some(d), active + {d}, Edges(g, d));
      var t := Walk(g, e, Some(d), Edges(g, d));
      FinishKeeps(g, s, e, t, curr, active, d);
      assert d in Finish(t, d).clock.until && Ended(g, Finish(t, d), d);
      FinishDid(g, s, e, t, d);
    }
  }

  lemma {:induction false} FollowKeeps(g: Graph, s: Trail, curr: Option<nat>, active: set<nat>, to: nat)
    requires Kept(g, s, curr, active, {}) && (curr.Some? ==> to in Edges(g, curr.value))
    ensures Kept(g, Follow(g, s, curr, to), curr, active, {}) && Did(g, s, Follow(g, s, curr, to), curr, [to])
    decreases Unseen(g, s), 1, 0
  {
    var met := Meet(s, curr, to);
    assert Unseen(g, met) == Unseen(g, s);
    if curr.None? {
      assert Sound(g, s, {to});
      DeclKeeps(g, s, curr, active, to);
    } else {
      MeetKeeps(g, s, curr.value, active, to);
      DeclKeeps(g, met, curr, active, to);
      var back := WalkDecl(g, met, to);
      LeaveKeeps(g, back, curr.value, active, to);
      FollowDid(g, s, met, back, curr.value, active, to);
    }
  }

  lemma {:induction false} FirstAndRest(ids: seq<nat>)
    requires ids != []
    ensures [ids[0]] + ids[1..] == ids
  {}

  /** One reference and then the rest. */
  lemma {:induction false} WalkStep(
      g: Graph, s: Trail, t: Trail, u: Trail, curr: Option<nat>, active: set<nat>, ids: seq<nat>)
    requires ids != [] && Timed(g, t.clock, curr, active)
    requires Did(g, s, t, curr, [ids[0]]) && Did(g, t, u, curr, ids[1..])
    ensures Did(g, s, u, curr, ids)
  {
    FirstAndRest(ids);
    DidTwice(g, s, t, u, curr, [ids[0]], ids[1..]);
  }

  /** Every walk keeps the clock and the records, and does what it was sent for. */
  lemma {:induction false} WalkKeeps(g: Graph, s: Trail, curr: Option<nat>, active: set<nat>, ids: seq<nat>)
    requires Kept(g, s, curr, active, {}) && (curr.Some? ==> forall m :: m in ids ==> m in Edges(g, curr.value))
    ensures Kept(g, Walk(g, s, curr, ids), curr, active, {})
    ensures Did(g, s, Walk(g, s, curr, ids), curr, ids)
    decreases Unseen(g, s), 2, |ids|
  {
    if ids == [] {
      DidEmpty(g, s, curr);
    } else {
      var t := Follow(g, s, curr, ids[0]);
      assert Unseen(g, t) <= Unseen(g, s);
      FollowKeeps(g, s, curr, active, ids[0]);
      WalkKeeps(g, t, curr, active, ids[1..]);
      WalkStep(g, s, t, Walk(g, t, curr, ids[1..]), curr, active, ids);
    }
  }
}

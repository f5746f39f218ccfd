/** What the references recorded by a walk mean, on graphs with and without cycles. */
module TypeRefs {
  import opened Bytes
  import opened TypeWalk

  /** The walk is over: nothing is being visited. */
  ghost predicate Over(g: Graph, s: Trail) {
    Kept(g, s, None, {}, {})
  }

  /** What a whole walk leaves. */
  ghost predicate Walked(g: Graph, s: Trail) {
    exists ids :: s == Walk(g, START, None, ids)
  }

  lemma {:induction false} WalkedOver(g: Graph, s: Trail)
    requires Walked(g, s)
    ensures Over(g, s)
  {
    var ids :| s == Walk(g, START, None, ids);
    WalkOver(g, ids);
  }

  lemma {:induction false} WalkOver(g: Graph, ids: seq<nat>)
    ensures Over(g, Walk(g, START, None, ids)) && Did(g, START, Walk(g, START, None, ids), None, ids)
  {
    WalkKeeps(g, START, None, {}, ids);
  }

  /** A path through `within` never leaves a set that no edge into `within` leaves. */
  lemma {:induction false} PathStays(g: Graph, within: iset<nat>, inside: iset<nat>, p: seq<nat>)
    requires IsPath(g, within, p) && p[0] in inside
    requires forall n, m :: n in inside && m in Edges(g, n) && m in within ==> m in inside
    ensures p[|p| - 2] in inside && p[|p| - 1] in Edges(g, p[|p| - 2])
  {
    if |p| > 2 {
      assert p[1..][0] == p[1];
      PathStays(g, within, inside, p[1..]);
    }
  }

  // ── What is seen ─────────────────────────────────────────────────────

  /** A seen declaration is finished: its live mentions are seen, all its mentions are recorded. */
  lemma {:induction false} SeenIsDone(g: Graph, s: Trail, n: nat, m: nat)
    requires Over(g, s) && n in s.clock.when && m in Edges(g, n)
    ensures Live(g, m) ==> m in s.clock.when
    ensures m in RefsOf(s, n)
  {
    assert n in s.clock.until && Ended(g, s, n) && n in Span(s.clock, n);
  }

  ghost function LiveSet(g: Graph): iset<nat> {
    iset n: nat | Live(g, n)
  }

  lemma {:induction false} PathIsLive(g: Graph, p: seq<nat>)
    requires IsPath(g, Anywhere(), p)
    ensures IsPath(g, LiveSet(g), p)
  {
    if |p| > 2 { PathIsLive(g, p[1..]); }
  }

  /** From a seen declaration, everything live that it reaches is seen. */
  lemma {:induction false} PathSeen(g: Graph, s: Trail, a: nat, b: nat)
    requires Over(g, s) && a in s.clock.when && Reaches(g, a, b) && Live(g, b)
    ensures b in s.clock.when
  {
    var p :| IsPath(g, Anywhere(), p) && p[0] == a && p[|p| - 1] == b;
    var inside := iset n: nat | n in s.clock.when;
    forall n, m | n in inside && m in Edges(g, n) && m in LiveSet(g) ensures m in inside { SeenIsDone(g, s, n, m); }
    PathIsLive(g, p);
    PathStays(g, LiveSet(g), inside, p);
    SeenIsDone(g, s, p[|p| - 2], b);
  }

  /** A walk from nothing sees exactly the live declarations reachable from its targets. */
  lemma {:induction false} SeesExactlyReachable(g: Graph, ids: seq<nat>, n: nat)
    ensures n in Walk(g, START, None, ids).clock.when <==> Live(g, n) && From(g, Anywhere(), ids, n)
  {
    var t := Walk(g, START, None, ids);
    WalkOver(g, ids);
    if n in t.clock.when {
      var entered := Fresh(START.clock, t.clock);
      assert n in entered;
      FromWidens(g, entered, Anywhere(), ids, ids, n);
    } else if Live(g, n) && From(g, Anywhere(), ids, n) {
      var r :| r in ids && ReachesIn(g, Anywhere(), r, n);
      assert Live(g, r) by { var p :| IsPath(g, Anywhere(), p) && p[0] == r && p[|p| - 1] == n; }
      PathSeen(g, t, r, n);
    }
  }

  // ── References and the order of entering ─────────────────────────────

  /** The declarations entered no earlier than `a`. */
  ghost function Since(c: Clock, a: nat): iset<nat> {
    iset n: nat | n in c.when && a in c.when && c.when[a] <= c.when[n]
  }

  /** Inside the visit of `a`, mentions are recorded for `a`, and lead outside only to older declarations. */
  lemma {:induction false} SpanStep(g: Graph, s: Trail, a: nat, n: nat, m: nat)
    requires Over(g, s) && a in s.clock.when && n in Span(s.clock, a) && m in Edges(g, n)
    ensures m in RefsOf(s, a) && (m in Since(s.clock, a) ==> m in Span(s.clock, a))
  {
    SeenIsDone(g, s, n, m);
    assert Ended(g, s, a);
  }

  /** Whatever `a` reaches through declarations entered no earlier than `a` is recorded for `a`. */
  lemma {:induction false} ReachedSinceIsRecorded(g: Graph, s: Trail, a: nat, b: nat)
    requires Over(g, s) && a in s.clock.when && ReachesIn(g, Since(s.clock, a), a, b)
    ensures b in RefsOf(s, a)
  {
    var within, inside := Since(s.clock, a), Span(s.clock, a);
    var p :| IsPath(g, within, p) && p[0] == a && p[|p| - 1] == b;
    assert a in s.clock.until && a in inside;
    forall n, m | n in inside && m in Edges(g, n) && m in within ensures m in inside { SpanStep(g, s, a, n, m); }
    PathStays(g, within, inside, p);
    SpanStep(g, s, a, p[|p| - 2], b);
  }

  /**
   * For a declaration entered after `a`, three things are the same: it is recorded for `a`, it was entered before the
   * visit of `a` ended, and `a` reaches it through declarations entered no earlier than `a`.
   */
  lemma {:induction false} LaterExactly(g: Graph, s: Trail, a: nat, b: nat)
    requires Walked(g, s) && a in s.clock.when && b in s.clock.when && s.clock.when[a] < s.clock.when[b]
    ensures a in s.clock.until
    ensures b in RefsOf(s, a) <==> ReachesIn(g, Since(s.clock, a), a, b)
    ensures b in RefsOf(s, a) <==> s.clock.when[b] < s.clock.until[a]
  {
    WalkedOver(g, s);
    assert a in s.clock.until && Ended(g, s, a) && Live(g, b);
    if s.clock.when[b] < s.clock.until[a] {
      assert b in Span(s.clock, a);
      ReachesWidens(g, Span(s.clock, a), Since(s.clock, a), a, b);
    }
    if ReachesIn(g, Since(s.clock, a), a, b) { ReachedSinceIsRecorded(g, s, a, b); }
  }

  /** What was entered while `a` was visited is recorded for `a`, with everything recorded for it. */
  lemma {:induction false} EnteredInsideIsRecorded(g: Graph, s: Trail, a: nat, n: nat)
    requires Walked(g, s) && a in s.clock.until && n in s.clock.when && a in s.clock.when
    requires s.clock.when[a] < s.clock.when[n] < s.clock.until[a]
    ensures n in RefsOf(s, a) && RefsOf(s, n) <= RefsOf(s, a)
  {
    WalkedOver(g, s);
    assert Ended(g, s, a) && n in Span(s.clock, a);
  }

  // ── Recursive references ─────────────────────────────────────────────

  predicate Recursive(s: Trail, a: nat, b: nat) {
    b in RefsOf(s, a) && a in RefsOf(s, b)
  }

  /** A recursive reference is always a cycle. */
  lemma {:induction false} RecursiveIsMutual(g: Graph, s: Trail, a: nat, b: nat)
    requires Walked(g, s) && Recursive(s, a, b)
    ensures Reaches(g, a, b) && Reaches(g, b, a)
  {
    WalkedOver(g, s);
  }

  /**
   * A mention of a declaration entered no later is recursive exactly when that declaration leads back through
   * declarations entered no earlier than itself; so it agrees with reachability exactly when it either does not lead
   * back, or does so without an older declaration.
   */
  lemma {:induction false} BackReferenceExactly(g: Graph, s: Trail, from: nat, to: nat)
    requires Walked(g, s) && from in s.clock.when && to in s.clock.when && to in Edges(g, from)
    requires s.clock.when[to] <= s.clock.when[from]
    ensures Recursive(s, from, to) <==> ReachesIn(g, Since(s.clock, to), to, from)
    ensures (Recursive(s, from, to) <==> Reaches(g, from, to) && Reaches(g, to, from))
            <==> (Reaches(g, to, from) ==> ReachesIn(g, Since(s.clock, to), to, from))
  {
    WalkedOver(g, s);
    assert from in s.clock.until && Ended(g, s, from);
    EdgeReaches(g, Anywhere(), from, to);
    if from == to {
      EdgeReaches(g, Since(s.clock, to), to, from);
    } else {
      assert s.clock.when[to] != s.clock.when[from];
      LaterExactly(g, s, to, from);
    }
    if ReachesIn(g, Since(s.clock, to), to, from) { ReachesWidens(g, Since(s.clock, to), Anywhere(), to, from); }
  }

  // ── Every cycle is caught ────────────────────────────────────────────

  ghost predicate Link(g: Graph, within: iset<nat>, p: seq<nat>, i: nat) {
    i + 1 < |p| && p[i] in within && p[i + 1] in Edges(g, p[i])
  }

  lemma {:induction false} PathLink(g: Graph, within: iset<nat>, p: seq<nat>, i: nat)
    requires IsPath(g, within, p) && i + 1 < |p|
    ensures Link(g, within, p, i)
  {
    if i > 0 {
      PathLink(g, within, p[1..], i - 1);
      assert p[1..][i - 1] == p[i] && p[1..][i] == p[i + 1];
    }
  }

  lemma {:induction false} LinksPath(g: Graph, within: iset<nat>, p: seq<nat>)
    requires |p| >= 2 && forall i: nat :: i + 1 < |p| ==> Link(g, within, p, i)
    ensures IsPath(g, within, p)
  {
    assert Link(g, within, p, 0);
    if |p| > 2 {
      forall i: nat | i + 1 < |p[1..]| ensures Link(g, within, p[1..], i) { assert Link(g, within, p, i + 1); }
      LinksPath(g, within, p[1..]);
    }
  }

  /** One of the declarations at positions from 1 on was entered first. */
  lemma {:induction false} Earliest(c: Clock, p: seq<nat>) returns (k: nat)
    requires |p| >= 2 && forall i :: 1 <= i < |p| ==> p[i] in c.when
    ensures 1 <= k < |p| && forall i :: 1 <= i < |p| ==> c.when[p[k]] <= c.when[p[i]]
  {
    k := 1;
    for n := 2 to |p|
      invariant 1 <= k < n && forall i :: 1 <= i < n ==> c.when[p[k]] <= c.when[p[i]]
    {
      if c.when[p[n]] < c.when[p[k]] { k := n; }
    }
  }

  /** Once around a cycle, from its element at `k` to the one before it. */
  function Around(p: seq<nat>, k: nat): seq<nat>
    requires 1 <= k < |p|
  {
    p[k..] + p[1..k]
  }

  lemma {:induction false} AroundIsPath(g: Graph, within: iset<nat>, p: seq<nat>, k: nat)
    requires IsPath(g, Anywhere(), p) && p[0] == p[|p| - 1] && 1 <= k < |p| && |p| > 2
    requires forall i :: 1 <= i < |p| ==> p[i] in within
    ensures var q := Around(p, k); IsPath(g, within, q) && q[0] == p[k] && q[|q| - 1] == p[k - 1]
  {
    var q := Around(p, k);
    forall i: nat | i + 1 < |q| ensures Link(g, within, q, i) {
      var m := |p| - k;
      if i < m - 1 {
        PathLink(g, Anywhere(), p, k + i);
      } else {
        PathLink(g, Anywhere(), p, i + 1 - m);
      }
    }
    LinksPath(g, within, q);
  }

  lemma {:induction false} CycleStays(g: Graph, inside: iset<nat>, p: seq<nat>)
    requires IsPath(g, Anywhere(), p) && p[0] in inside && p[|p| - 1] in inside
    requires forall n, m :: n in inside && m in Edges(g, n) && Live(g, m) ==> m in inside
    ensures forall i :: 0 <= i < |p| ==> p[i] in inside
  {
    for i := 1 to |p|
      invariant forall j :: 0 <= j < i ==> p[j] in inside
    {
      if i < |p| - 1 {
        PathLink(g, Anywhere(), p, i - 1);
        PathLink(g, Anywhere(), p, i);
      }
    }
  }

  /** Everything on a cycle through a seen declaration is seen. */
  lemma {:induction false} CycleSeen(g: Graph, s: Trail, p: seq<nat>)
    requires Over(g, s) && IsPath(g, Anywhere(), p) && p[0] in s.clock.when && p[0] == p[|p| - 1]
    ensures forall i :: 0 <= i < |p| ==> p[i] in s.clock.when
  {
    var inside := iset n: nat | n in s.clock.when;
    forall n, m | n in inside && m in Edges(g, n) && Live(g, m) ensures m in inside { SeenIsDone(g, s, n, m); }
    CycleStays(g, inside, p);
    assert forall i :: 0 <= i < |p| ==> p[i] in inside;
  }

  /** A mention of the first entered declaration of a cycle leads back through the cycle. */
  lemma {:induction false} LeadsBack(g: Graph, c: Clock, p: seq<nat>, k: nat)
    requires IsPath(g, Anywhere(), p) && p[0] == p[|p| - 1] && 1 <= k < |p|
    requires forall i :: 1 <= i < |p| ==> p[i] in c.when && p[k] in c.when && c.when[p[k]] <= c.when[p[i]]
    ensures p[k] in Edges(g, p[k - 1]) && ReachesIn(g, Since(c, p[k]), p[k], p[k - 1])
  {
    PathLink(g, Anywhere(), p, k - 1);
    if |p| == 2 {
      EdgeReaches(g, Since(c, p[k]), p[k], p[k]);
    } else {
      AroundIsPath(g, Since(c, p[k]), p, k);
    }
  }

  /** Every cycle of mentions through a seen declaration has a mention that is recognised as recursive. */
  lemma {:induction false} EveryCycleIsCaught(g: Graph, s: Trail, p: seq<nat>) returns (k: nat)
    requires Walked(g, s) && IsPath(g, Anywhere(), p) && p[0] == p[|p| - 1] && p[0] in s.clock.when
    ensures 1 <= k < |p| && p[k] in Edges(g, p[k - 1]) && Recursive(s, p[k - 1], p[k])
  {
    WalkedOver(g, s);
    CycleSeen(g, s, p);
    k := Earliest(s.clock, p);
    LeadsBack(g, s.clock, p, k);
    ReachedSinceIsRecorded(g, s, p[k], p[k - 1]);
    SeenIsDone(g, s, p[k - 1], p[k]);
  }

  // ── Off the cycles the record is complete ────────────────────────────

  /** A path on which no mention but the last leads back. */
  ghost predicate Onward(g: Graph, p: seq<nat>) {
    |p| <= 2 || (!Reaches(g, p[1], p[0]) && Onward(g, p[1..]))
  }

  lemma {:induction false} CarriesOver(g: Graph, s: Trail, a: nat, m: nat)
    requires Over(g, s) && a in s.clock.when && m in Edges(g, a) && Live(g, m) && !Reaches(g, m, a)
    ensures m in s.clock.when && RefsOf(s, m) <= RefsOf(s, a)
  {
    assert a in s.clock.until && Ended(g, s, a) && Carries(g, s, a, m);
  }

  /** Mentions are recorded, and those that do not lead back carry their references over. */
  ghost predicate Passes(g: Graph, s: Trail, n: nat, m: nat) {
    && m in RefsOf(s, n)
    && (Live(g, m) && !Reaches(g, m, n) ==> m in s.clock.when && RefsOf(s, m) <= RefsOf(s, n))
  }

  lemma {:induction false} EachPasses(g: Graph, s: Trail, n: nat, m: nat)
    requires Over(g, s) && n in s.clock.when && m in Edges(g, n)
    ensures Passes(g, s, n, m)
  {
    SeenIsDone(g, s, n, m);
    if Live(g, m) && !Reaches(g, m, n) { CarriesOver(g, s, n, m); }
  }

  lemma {:induction false} OnwardCarries(g: Graph, s: Trail, p: seq<nat>)
    requires p != [] && p[0] in s.clock.when && IsPath(g, Anywhere(), p) && Onward(g, p)
    requires forall n, m :: n in s.clock.when && m in Edges(g, n) ==> Passes(g, s, n, m)
    ensures p[|p| - 1] in RefsOf(s, p[0])
  {
    assert Passes(g, s, p[0], p[1]);
    if |p| > 2 {
      assert Live(g, p[1]) by { assert p[1..][1] in Edges(g, p[1..][0]); }
      OnwardCarries(g, s, p[1..]);
    }
  }

  /** The end of such a path is recorded. */
  lemma {:induction false} OnwardIsRecorded(g: Graph, s: Trail, p: seq<nat>)
    requires Walked(g, s) && p != [] && p[0] in s.clock.when && IsPath(g, Anywhere(), p) && Onward(g, p)
    ensures p[|p| - 1] in RefsOf(s, p[0])
  {
    WalkedOver(g, s);
    forall n, m | n in s.clock.when && m in Edges(g, n) ensures Passes(g, s, n, m) { EachPasses(g, s, n, m); }
    OnwardCarries(g, s, p);
  }

  /** Neither `a` nor anything it reaches lies on a cycle. */
  ghost predicate OffCycles(g: Graph, a: nat) {
    !Reaches(g, a, a) && forall n :: Reaches(g, a, n) ==> !Reaches(g, n, n)
  }

  lemma {:induction false} OffCyclesOnward(g: Graph, p: seq<nat>)
    requires p != [] && OffCycles(g, p[0]) && IsPath(g, Anywhere(), p)
    ensures Onward(g, p)
  {
    var a, b := p[0], p[1];
    EdgeReaches(g, Anywhere(), a, b);
    if Reaches(g, b, a) { ReachesTrans(g, Anywhere(), a, b, a); }
    if |p| > 2 {
      forall n | Reaches(g, b, n) ensures !Reaches(g, n, n) { ReachesTrans(g, Anywhere(), a, b, n); }
      OffCyclesOnward(g, p[1..]);
    }
  }

  /** For a declaration that leads to no cycle, what is recorded is exactly what it reaches. */
  lemma {:induction false} RefsAreClosure(g: Graph, s: Trail, a: nat, m: nat)
    requires Walked(g, s) && a in s.clock.when && OffCycles(g, a)
    ensures m in RefsOf(s, a) <==> Reaches(g, a, m)
  {
    WalkedOver(g, s);
    if Reaches(g, a, m) {
      var p :| IsPath(g, Anywhere(), p) && p[0] == a && p[|p| - 1] == m;
      OffCyclesOnward(g, p);
      OnwardIsRecorded(g, s, p);
    }
  }

  // ── References and the order of reading ──────────────────────────────

  /** The references of `n` after the given steps. */
  ghost function RefsAfter(steps: seq<Step>, n: nat): set<nat> {
    if steps == [] then {}
    else
      var front, last := steps[..|steps| - 1], steps[|steps| - 1];
      RefsAfter(front, n) + (if last.from != n then {} else if last.Met? then {last.to} else RefsAfter(front, last.to))
  }

  /**
   * Positions of steps going back in time from `end` along a path from `n` to `m`: every mention on the path was left,
   * each after the one that follows it on the path, and the last one was met.
   */
  ghost predicate Traced(steps: seq<Step>, end: nat, ks: seq<nat>, n: nat, m: nat)
    requires end <= |steps|
    decreases ks
  {
    && ks != [] && ks[0] < end && steps[ks[0]].from == n
    && (if |ks| == 1 then steps[ks[0]] == Met(n, m)
        else steps[ks[0]].Left? && Traced(steps, ks[0], ks[1..], steps[ks[0]].to, m))
  }

  ghost predicate Timely(steps: seq<Step>, end: nat, n: nat, m: nat)
    requires end <= |steps|
  {
    exists ks :: Traced(steps, end, ks, n, m)
  }

  lemma {:induction false} TracedLonger(steps: seq<Step>, early: nat, end: nat, ks: seq<nat>, n: nat, m: nat)
    requires early <= end <= |steps| && Traced(steps, early, ks, n, m)
    ensures Traced(steps, end, ks, n, m)
  {}

  /** A trace either starts before the last step or with it. */
  lemma {:induction false} TimelyStep(steps: seq<Step>, k: nat, n: nat, m: nat)
    requires k < |steps|
    ensures Timely(steps, k + 1, n, m) <==>
              Timely(steps, k, n, m) || steps[k] == Met(n, m) ||
              (steps[k].Left? && steps[k].from == n && Timely(steps, k, steps[k].to, m))
  {
    if Timely(steps, k + 1, n, m) {
      var ks :| Traced(steps, k + 1, ks, n, m);
      if ks[0] < k {
        assert Traced(steps, k, ks, n, m);
      } else if |ks| > 1 {
        assert Traced(steps, k, ks[1..], steps[k].to, m);
      }
    }
    if Timely(steps, k, n, m) {
      var ks :| Traced(steps, k, ks, n, m);
      TracedLonger(steps, k, k + 1, ks, n, m);
    }
    if steps[k] == Met(n, m) { assert Traced(steps, k + 1, [k], n, m); }
    if steps[k].Left? && steps[k].from == n && Timely(steps, k, steps[k].to, m) {
      var ks :| Traced(steps, k, ks, steps[k].to, m);
      assert ([k] + ks)[1..] == ks;
      assert Traced(steps, k + 1, [k] + ks, n, m);
    }
  }

  lemma {:induction false} RefsAfterExactly(steps: seq<Step>, k: nat, n: nat, m: nat)
    requires k <= |steps|
    ensures m in RefsAfter(steps[..k], n) <==> Timely(steps, k, n, m)
  {
    if k > 0 {
      var front, last := steps[..k - 1], steps[k - 1];
      assert steps[..k][..k - 1] == front;
      RefsAfterExactly(steps, k - 1, n, m);
      RefsAfterExactly(steps, k - 1, last.to, m);
      TimelyStep(steps, k - 1, n, m);
    }
  }

  // ── Lists and steps ──────────────────────────────────────────────────

  /** The declarations seen that belong to package `p`. */
  function InPackage(g: Graph, seen: set<nat>, p: string): set<nat> {
    set n | n in seen && Live(g, n) && g[n].value.pkg == p
  }

  /** Each namespace lists the declarations seen of its package, every one once, and nothing else. */
  ghost predicate Spaces(g: Graph, seen: set<nat>, ns: map<string, seq<nat>>) {
    && (forall p :: p in ns ==> multiset(ns[p]) == multiset(InPackage(g, seen, p)))
    && (forall n :: n in seen ==> Live(g, n) && g[n].value.pkg in ns)
  }

  lemma {:induction false} SpacesAdd(g: Graph, seen: set<nat>, ns: map<string, seq<nat>>, d: nat)
    requires Spaces(g, seen, ns) && Live(g, d) && d !in seen
    ensures Spaces(g, seen + {d}, AddTo(ns, g[d].value.pkg, d))
  {
    var p := g[d].value.pkg;
    var ns' := AddTo(ns, p, d);
    forall q | q in ns' ensures multiset(ns'[q]) == multiset(InPackage(g, seen + {d}, q)) {
      if q == p {
        assert InPackage(g, seen + {d}, p) == InPackage(g, seen, p) + {d};
        if p !in ns { assert InPackage(g, seen, p) == {}; }
      } else {
        assert InPackage(g, seen + {d}, q) == InPackage(g, seen, q);
      }
    }
  }

  ghost predicate Replays(s: Trail) {
    forall n :: RefsOf(s, n) == RefsAfter(s.steps, n)
  }

  /** The lists match what was seen, and the references match the steps. */
  ghost predicate Booked(g: Graph, s: Trail) {
    Spaces(g, s.clock.when.Keys, s.ns) && Replays(s)
  }

  lemma {:induction false} SameReplay(s: Trail, t: Trail)
    requires t.refs == s.refs && t.steps == s.steps && Replays(s)
    ensures Replays(t)
  {
    assert forall n :: RefsOf(t, n) == RefsOf(s, n);
  }

  lemma {:induction false} BookStep(s: Trail, t: Trail, c: nat, more: set<nat>, step: Step)
    requires t.refs == AddRefs(s, c, more) && t.steps == s.steps + [step] && step.from == c
    requires more == if step.Met? then {step.to} else RefsOf(s, step.to)
    requires Replays(s)
    ensures Replays(t)
  {
    assert t.steps[..|s.steps|] == s.steps;
    forall n ensures RefsOf(t, n) == RefsAfter(t.steps, n) {
      assert RefsOf(t, n) == RefsOf(s, n) + (if n == c then more else {});
    }
  }

  lemma {:induction false} TickKeys(c: Clock, d: nat)
    ensures Tick(c, d).when.Keys == c.when.Keys + {d}
  {}

  lemma {:induction false} EnterBooked(g: Graph, s: Trail, e: Trail, d: nat)
    requires Booked(g, s) && Live(g, d) && d !in s.clock.when && e == Enter(g, s, d)
    ensures Booked(g, e)
  {
    TickKeys(s.clock, d);
    SpacesAdd(g, s.clock.when.Keys, s.ns, d);
    SameReplay(s, e);
  }

  lemma {:induction false} FinishBooked(g: Graph, s: Trail, d: nat)
    requires Booked(g, s)
    ensures Booked(g, Finish(s, d))
  {
    SameReplay(s, Finish(s, d));
  }

  lemma {:induction false} DeclBooked(g: Graph, s: Trail, d: nat)
    requires Booked(g, s)
    ensures Booked(g, WalkDecl(g, s, d))
    decreases Unseen(g, s), 0, 0
  {
    if Live(g, d) && d !in s.clock.when {
      var e := Enter(g, s, d);
      assert d in Unseen(g, s) && d !in Unseen(g, e) && Unseen(g, e) <= Unseen(g, s);
      EnterBooked(g, s, e, d);
      WalkBooked(g, e, Some(d), Edges(g, d));
      FinishBooked(g, Walk(g, e, Some(d), Edges(g, d)), d);
    }
  }

  lemma {:induction false} FollowBooked(g: Graph, s: Trail, curr: Option<nat>, to: nat)
    requires Booked(g, s)
    ensures Booked(g, Follow(g, s, curr, to))
    decreases Unseen(g, s), 1, 0
  {
    var met := Meet(s, curr, to);
    assert Unseen(g, met) == Unseen(g, s);
    if curr.Some? { BookStep(s, met, curr.value, {to}, Met(curr.value, to)); }
    DeclBooked(g, met, to);
    var back := WalkDecl(g, met, to);
    if curr.Some? {
      BookStep(back, Leave(back, curr, to), curr.value, RefsOf(back, to), Left(curr.value, to));
    }
  }

  lemma {:induction false} WalkBooked(g: Graph, s: Trail, curr: Option<nat>, ids: seq<nat>)
    requires Booked(g, s)
    ensures Booked(g, Walk(g, s, curr, ids))
    decreases Unseen(g, s), 2, |ids|
  {
    if ids != [] {
      var t := Follow(g, s, curr, ids[0]);
      assert Unseen(g, t) <= Unseen(g, s);
      FollowBooked(g, s, curr, ids[0]);
      WalkBooked(g, t, curr, ids[1..]);
    }
  }

  /**
   * On every graph, `m` is recorded for `n` exactly when some path from `n` to `m` was read backwards in time: no
   * mention on it was left before the next one on the path was, or, for the last one, was met.
   */
  lemma {:induction false} RecordedExactly(g: Graph, ids: seq<nat>, n: nat, m: nat)
    ensures var s := Walk(g, START, None, ids); m in RefsOf(s, n) <==> Timely(s.steps, |s.steps|, n, m)
  {
    var s := Walk(g, START, None, ids);
    WalkBooked(g, START, None, ids);
    assert s.steps[..|s.steps|] == s.steps;
    RefsAfterExactly(s.steps, |s.steps|, n, m);
  }

  lemma {:induction false} WalkedExactly(g: Graph, s: Trail, n: nat, m: nat)
    requires Walked(g, s)
    ensures m in RefsOf(s, n) <==> Timely(s.steps, |s.steps|, n, m)
  {
    var ids :| s == Walk(g, START, None, ids);
    RecordedExactly(g, ids, n, m);
  }

  // ── Mentions that are missed ─────────────────────────────────────────

  /** Three declarations: the first mentions both others, the second the first, the third the second. */
  const SAMPLE: Graph := [
    Some(Decl("a", Struct([Named(1, []), Named(2, [])]))),
    Some(Decl("a", Named(0, []))),
    Some(Decl("a", Named(1, [])))]

  lemma {:induction false} SampleEdges()
    ensures Live(SAMPLE, 0) && Live(SAMPLE, 1) && Live(SAMPLE, 2)
    ensures Edges(SAMPLE, 0) == [1, 2] && Edges(SAMPLE, 1) == [0] && Edges(SAMPLE, 2) == [1]
  {
    assert TargetsAll([]) == [];
    var fs: seq<Type> := [Named(1, []), Named(2, [])];
    assert fs[1..] == [Named(2, [])] && fs[1..][1..] == [];
    assert TargetsAll(fs[1..]) == [2];
    assert TargetsAll(fs) == [1, 2];
  }

  lemma {:induction false} SecondWithin(g: Graph, within: iset<nat>, p: seq<nat>)
    requires IsPath(g, within, p)
    ensures |p| == 2 || p[1] in within
  {
    if |p| > 2 { assert IsPath(g, within, p[1..]); }
  }

  /** A declaration with one mention, outside the set, reaches nothing else through the set. */
  lemma {:induction false} StuckAt(g: Graph, within: iset<nat>, a: nat, b: nat, n: nat)
    requires Edges(g, a) == [b] && b !in within && ReachesIn(g, within, a, n)
    ensures n == b
  {
    var p :| IsPath(g, within, p) && p[0] == a && p[|p| - 1] == n;
    SecondWithin(g, within, p);
  }

  /** What is entered on the way to the second alone does not hold the third. */
  lemma {:induction false} ThirdWaits(g: Graph, s: Trail, t: Trail)
    requires Edges(g, 1) == [0] && 0 in s.clock.when && 2 !in s.clock.when && Covers(g, s.clock, t.clock, [1])
    ensures 2 !in t.clock.when
  {
    if 2 in t.clock.when {
      var entered := Fresh(s.clock, t.clock);
      assert 2 in entered && From(g, entered, [1], 2);
      StuckAt(g, entered, 1, 0, 2);
    }
  }

  /** While the first declaration is being visited, the second is entered before the third. */
  lemma {:induction false} SecondThenThird(g: Graph, s: Trail, active: set<nat>, x: seq<nat>, y: seq<nat>)
    requires Kept(g, s, Some(0), active, {}) && x == [1] && y == [2] && Edges(g, 0) == x + y && Edges(g, 1) == [0]
    requires Live(g, 1) && Live(g, 2) && 1 !in s.clock.when && 2 !in s.clock.when
    ensures var c := Walk(g, s, Some(0), x + y).clock;
            1 in c.when && 2 in c.when && |s.clock.when| <= c.when[1] < c.when[2] && Later(s.clock, c)
  {
    WalkTwice(g, s, Some(0), x, y);
    WalkKeeps(g, s, Some(0), active, x);
    var t := Walk(g, s, Some(0), x);
    WalkKeeps(g, t, Some(0), active, y);
    var u := Walk(g, t, Some(0), y);
    ThirdWaits(g, s, t);
    LaterTwice(s.clock, t.clock, u.clock);
    assert 1 in Fresh(s.clock, t.clock) && 2 in Fresh(t.clock, u.clock);
  }

  /** A walk to one new declaration visits it. */
  lemma {:induction false} WalkToOne(g: Graph, s: Trail, a: nat)
    requires Live(g, a) && a !in s.clock.when
    ensures Walk(g, s, None, [a]) == Finish(Walk(g, Enter(g, s, a), Some(a), Edges(g, a)), a)
  {
    assert [a][1..] == [];
    assert Follow(g, s, None, a) == WalkDecl(g, s, a);
  }

  lemma {:induction false} StartKept(g: Graph, next: set<nat>)
    ensures Kept(g, START, None, {}, next)
  {}

  /** Visited from the first declaration, they are entered in order. */
  lemma {:induction false} SampleOrder(g: Graph, a: nat, x: seq<nat>, y: seq<nat>)
    requires Live(g, a) && Live(g, 1) && Live(g, 2) && a == 0 && x == [1] && y == [2]
    requires Edges(g, a) == x + y && Edges(g, 1) == [a]
    ensures var c := Walk(g, START, None, [a]).clock;
            a in c.when && 1 in c.when && 2 in c.when && c.when[a] < c.when[1] < c.when[2]
  {
    var e := Enter(g, START, a);
    StartKept(g, {a});
    EnterKeeps(g, START, None, {}, a);
    assert a in e.clock.when && e.clock.when[a] == 0 && |e.clock.when| == 1;
    SecondThenThird(g, e, {} + {a}, x, y);
    WalkToOne(g, START, a);
  }

  /** The third mentions the second, and the second leads back to it, but only through the first: it is missed. */
  lemma {:induction false} MissedReference()
    ensures var s := Walk(SAMPLE, START, None, [0]);
            && 1 in s.clock.when && 2 in s.clock.when && 1 in Edges(SAMPLE, 2)
            && Reaches(SAMPLE, 2, 1) && Reaches(SAMPLE, 1, 2) && !Recursive(s, 2, 1)
  {
    var g, s := SAMPLE, Walk(SAMPLE, START, None, [0]);
    SampleEdges();
    SampleOrder(g, 0, [1], [2]);
    WalkOver(g, [0]);
    EdgeReaches(g, Anywhere(), 2, 1);
    EdgeReaches(g, Anywhere(), 1, 0);
    EdgeReaches(g, Anywhere(), 0, 2);
    ReachesTrans(g, Anywhere(), 1, 0, 2);
    BackReferenceExactly(g, s, 2, 1);
    if ReachesIn(g, Since(s.clock, 1), 1, 2) { StuckAt(g, Since(s.clock, 1), 1, 0, 2); }
  }

  /** The first mentions both others, the second the third and then the first, the third the second. */
  const SECOND_SAMPLE: Graph := [
    Some(Decl("a", Struct([Named(1, []), Named(2, [])]))),
    Some(Decl("a", Struct([Named(2, []), Named(0, [])]))),
    Some(Decl("a", Named(1, [])))]

  lemma {:induction false} PairTargets(x: nat, y: nat)
    ensures Targets(Struct([Named(x, []), Named(y, [])])) == [x] + [y]
  {
    assert TargetsAll([]) == [];
    var fs: seq<Type> := [Named(x, []), Named(y, [])];
    assert fs[1..] == [Named(y, [])] && fs[1..][1..] == [];
    assert Targets(fs[0]) == [x] && Targets(fs[1]) == [y];
    assert TargetsAll(fs[1..]) == [y] + [];
    assert TargetsAll(fs) == [x] + [y];
  }

  lemma {:induction false} SecondSampleEdges()
    ensures var g := SECOND_SAMPLE;
            && Live(g, 0) && Live(g, 1) && Live(g, 2)
            && Edges(g, 0) == [1] + [2] && Edges(g, 1) == [2] + [0] && Edges(g, 2) == [1]
  {
    PairTargets(1, 2);
    PairTargets(2, 0);
    assert TargetsAll([]) == [];
  }

  lemma {:induction false} WalkSingle(g: Graph, s: Trail, curr: Option<nat>, x: nat)
    ensures Walk(g, s, curr, [x]) == Follow(g, s, curr, x)
  {
    assert [x][1..] == [];
  }

  /** While other declarations are walked, what is recorded for one stays. */
  lemma {:induction false} RefsStay(g: Graph, s: Trail, c: nat, active: set<nat>, ids: seq<nat>, n: nat)
    requires Kept(g, s, Some(c), active, {}) && (forall m :: m in ids ==> m in Edges(g, c)) && n in s.clock.when && n != c
    ensures RefsOf(Walk(g, s, Some(c), ids), n) == RefsOf(s, n) && n in Walk(g, s, Some(c), ids).clock.when
  {
    WalkKeeps(g, s, Some(c), active, ids);
  }

  /** The innermost visit: the third meets the second, which is still being visited and has the third alone recorded. */
  lemma {:induction false} InnerVisit(g: Graph, s: Trail)
    requires Edges(g, 2) == [1] && Live(g, 2) && 2 !in s.clock.when && 1 in s.clock.when
    requires RefsOf(s, 1) == {2} && RefsOf(s, 2) == {}
    ensures 0 !in RefsOf(WalkDecl(g, s, 2), 2) && 2 in WalkDecl(g, s, 2).clock.when
  {
    var e := Enter(g, s, 2);
    WalkSingle(g, e, Some(2), 1);
    var met := Meet(e, Some(2), 1);
    assert WalkDecl(g, met, 1) == met;
    assert RefsOf(met, 1) == {2} && RefsOf(met, 2) == {1};
    var t := Leave(met, Some(2), 1);
    assert RefsOf(t, 2) == {1} + {2};
    assert WalkDecl(g, s, 2) == Finish(t, 2);
  }

  lemma {:induction false} FollowInner(g: Graph, s: Trail)
    requires Edges(g, 2) == [1] && Live(g, 2) && 2 !in s.clock.when && 1 in s.clock.when
    requires RefsOf(s, 1) == {} && RefsOf(s, 2) == {}
    ensures var t := Follow(g, s, Some(1), 2); 0 !in RefsOf(t, 2) && 2 in t.clock.when
  {
    var met := Meet(s, Some(1), 2);
    assert RefsOf(met, 1) == {2} && RefsOf(met, 2) == {};
    InnerVisit(g, met);
  }

  lemma {:induction false} UnseenHasNoRefs(g: Graph, s: Trail, next: set<nat>, n: nat)
    requires Sound(g, s, next) && n !in s.clock.when
    ensures RefsOf(s, n) == {}
  {}

  /** Inside the visit of the second: the third is finished before the second meets the first. */
  lemma {:induction false} MiddleWalk(g: Graph, e: Trail, active: set<nat>, x: seq<nat>, y: seq<nat>)
    requires Kept(g, e, Some(1), active, {}) && x == [2] && y == [0] && Edges(g, 1) == x + y && Edges(g, 2) == [1]
    requires Live(g, 2) && 1 in e.clock.when && 2 !in e.clock.when && RefsOf(e, 1) == {}
    ensures var t := Walk(g, e, Some(1), x + y); 0 !in RefsOf(t, 2) && 2 in t.clock.when
  {
    UnseenHasNoRefs(g, e, {}, 2);
    FollowInner(g, e);
    WalkSingle(g, e, Some(1), 2);
    WalkTwice(g, e, Some(1), x, y);
    WalkKeeps(g, e, Some(1), active, x);
    RefsStay(g, Walk(g, e, Some(1), x), 1, active, y, 2);
  }

  /** A visit records what the walk inside it records. */
  lemma {:induction false} VisitRecords(g: Graph, s: Trail, e: Trail, d: nat, n: nat)
    requires Live(g, d) && d !in s.clock.when && e == Enter(g, s, d)
    ensures var t := Walk(g, e, Some(d), Edges(g, d));
            RefsOf(WalkDecl(g, s, d), n) == RefsOf(t, n) && (n in WalkDecl(g, s, d).clock.when <==> n in t.clock.when)
    ensures RefsOf(e, n) == RefsOf(s, n)
  {
    var t := Walk(g, e, Some(d), Edges(g, d));
    assert WalkDecl(g, s, d) == Finish(t, d);
  }

  /** The visit of the second. */
  lemma {:induction false} MiddleVisit(g: Graph, s: Trail, active: set<nat>, x: seq<nat>, y: seq<nat>)
    requires Kept(g, s, Some(0), active, {1}) && x == [2] && y == [0] && 1 in Edges(g, 0) && Edges(g, 1) == x + y
    requires Edges(g, 2) == [1] && Live(g, 1) && Live(g, 2) && 1 !in s.clock.when && 2 !in s.clock.when
    ensures 0 !in RefsOf(WalkDecl(g, s, 1), 2) && 2 in WalkDecl(g, s, 1).clock.when
  {
    var e := Enter(g, s, 1);
    UnseenHasNoRefs(g, s, {1}, 1);
    VisitRecords(g, s, e, 1, 1);
    VisitRecords(g, s, e, 1, 2);
    EnterKeeps(g, s, Some(0), active, 1);
    MiddleWalk(g, e, active + {1}, x, y);
  }

  /** The first reference of the first: the third is finished before it is left. */
  lemma {:induction false} OuterFirst(g: Graph, e: Trail, active: set<nat>)
    requires Kept(g, e, Some(0), active, {}) && 1 in Edges(g, 0) && Edges(g, 1) == [2] + [0] && Edges(g, 2) == [1]
    requires Live(g, 1) && Live(g, 2) && 1 !in e.clock.when && 2 !in e.clock.when
    ensures var t := Follow(g, e, Some(0), 1); 0 !in RefsOf(t, 2) && 2 in t.clock.when
  {
    var met := Meet(e, Some(0), 1);
    MeetKeeps(g, e, 0, active, 1);
    MiddleVisit(g, met, active, [2], [0]);
  }

  /** Inside the visit of the first. */
  lemma {:induction false} OuterWalk(g: Graph, e: Trail, active: set<nat>, x: seq<nat>, y: seq<nat>)
    requires Kept(g, e, Some(0), active, {}) && x == [1] && y == [2] && Edges(g, 0) == x + y
    requires Edges(g, 1) == [2] + [0] && Edges(g, 2) == [1]
    requires Live(g, 1) && Live(g, 2) && 1 !in e.clock.when && 2 !in e.clock.when
    ensures var t := Walk(g, e, Some(0), x + y); 0 !in RefsOf(t, 2) && 2 in t.clock.when
  {
    assert 1 in x + y;
    OuterFirst(g, e, active);
    WalkSingle(g, e, Some(0), 1);
    WalkTwice(g, e, Some(0), x, y);
    WalkKeeps(g, e, Some(0), active, x);
    RefsStay(g, Walk(g, e, Some(0), x), 0, active, y, 2);
  }

  lemma {:induction false} SecondSampleReaches(g: Graph)
    requires 2 in Edges(g, 0) && 1 in Edges(g, 2) && 0 in Edges(g, 1)
    ensures Reaches(g, 0, 2) && Reaches(g, 2, 0)
  {
    EdgeReaches(g, Anywhere(), 0, 2);
    EdgeReaches(g, Anywhere(), 2, 1);
    EdgeReaches(g, Anywhere(), 1, 0);
    ReachesTrans(g, Anywhere(), 2, 1, 0);
  }

  /** The first mentions the third, entered later, and the third leads back to it, but the record of the third misses it. */
  lemma {:induction false} MissedLater()
    ensures var g, s := SECOND_SAMPLE, Walk(SECOND_SAMPLE, START, None, [0]);
            && 2 in Edges(g, 0) && Reaches(g, 0, 2) && Reaches(g, 2, 0)
            && 2 in s.clock.when && 0 !in RefsOf(s, 2) && !Recursive(s, 0, 2)
  {
    var g, zero := SECOND_SAMPLE, 0;
    SecondSampleEdges();
    SecondSampleReaches(g);
    OuterVisit(g, zero);
    WalkToOne(g, START, zero);
    VisitRecords(g, START, Enter(g, START, zero), zero, 2);
  }

  lemma {:induction false} OuterVisit(g: Graph, zero: nat)
    requires zero == 0 && Edges(g, zero) == [1] + [2] && Edges(g, 1) == [2] + [zero] && Edges(g, 2) == [1]
    requires Live(g, zero) && Live(g, 1) && Live(g, 2)
    ensures var t := Walk(g, Enter(g, START, zero), Some(zero), Edges(g, zero)); zero !in RefsOf(t, 2) && 2 in t.clock.when
  {
    StartKept(g, {zero});
    EnterKeeps(g, START, None, {}, zero);
    OuterWalk(g, Enter(g, START, zero), {} + {zero}, [1], [2]);
  }
}

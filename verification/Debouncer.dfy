/** The code-regeneration debouncer: any number of change callbacks over one mutex and two flags. */
module Debouncer {
  import opened Bytes

  /** Where a callback stands. Only `Entered` and `Looping` hold the mutex; `Running` is inside `doRun`. */
  datatype Pc = Waiting | Entered | Looping | Running | Relocking | Finished

  datatype Thread = Thread(arrival: nat, pc: Pc)

  /** `starts` records the moments at which `doRun` was started. */
  datatype State = State(
    threads: seq<Thread>, lock: Option<nat>, running: bool, runAfter: bool, clock: nat, starts: seq<nat>)

  datatype Action = Arrive | Move(t: nat)

  const INIT := State([], None, false, false, 0, [])

  ghost predicate Enabled(s: State, a: Action) {
    match a
    case Arrive => true
    case Move(t) =>
      && t < |s.threads|
      && match s.threads[t].pc
         case Waiting => s.lock.None?
         case Relocking => s.lock.None?
         case Finished => false
         case _ => true
  }

  function SetPc(s: State, t: nat, pc: Pc): State
    requires t < |s.threads|
  {
    s.(threads := s.threads[t := s.threads[t].(pc := pc)])
  }

  /** One atomic step; every step takes a tick of the clock. */
  ghost function Step(s: State, a: Action): State
    requires Enabled(s, a)
  {
    var s := s.(clock := s.clock + 1);
    match a
    case Arrive => s.(threads := s.threads + [Thread(s.clock, Waiting)])
    case Move(t) =>
      match s.threads[t].pc
      case Waiting => SetPc(s, t, Entered).(lock := Some(t))
      case Entered =>
        if s.running then SetPc(s, t, Finished).(lock := None, runAfter := true)
        else SetPc(s, t, Looping).(running := true, runAfter := true)
      case Looping =>
        if s.runAfter then SetPc(s, t, Running).(lock := None, runAfter := false, starts := s.starts + [s.clock])
        else SetPc(s, t, Finished).(lock := None, running := false)
      case Running => SetPc(s, t, Relocking)
      case Relocking => SetPc(s, t, Looping).(lock := Some(t))
      case Finished => s
  }

  /** The state a schedule leads to from no callbacks at all; `None` if some step of it is not enabled. */
  ghost function After(acts: seq<Action>): Option<State> {
    if acts == [] then Some(INIT)
    else
      var p, a := After(acts[..|acts| - 1]), acts[|acts| - 1];
      if p.Some? && Enabled(p.value, a) then Some(Step(p.value, a)) else None
  }

  // ── Safety ───────────────────────────────────────────────────────────

  /** Inside the loop: between setting `running` and clearing it. */
  predicate IsWorker(pc: Pc) {
    pc == Looping || pc == Running || pc == Relocking
  }

  predicate HoldsLock(pc: Pc) {
    pc == Entered || pc == Looping
  }

  /** The event was handed over: its callback is past the first critical section. */
  predicate HandedOver(pc: Pc) {
    IsWorker(pc) || pc == Finished
  }

  ghost predicate RunSince(starts: seq<nat>, time: nat) {
    exists i :: 0 <= i < |starts| && starts[i] >= time
  }

  ghost predicate LockInv(s: State) {
    && (forall t :: 0 <= t < |s.threads| ==> (HoldsLock(s.threads[t].pc) <==> s.lock == Some(t)))
    && (s.lock.Some? ==> s.lock.value < |s.threads|)
  }

  ghost predicate OneWorker(s: State) {
    forall t, u :: 0 <= t < u < |s.threads| ==> !(IsWorker(s.threads[t].pc) && IsWorker(s.threads[u].pc))
  }

  ghost predicate FlagInv(s: State) {
    && (s.running <==> exists t :: 0 <= t < |s.threads| && IsWorker(s.threads[t].pc))
    && (s.runAfter ==> s.running)
  }

  ghost predicate ServedInv(s: State) {
    && (forall t :: 0 <= t < |s.threads| ==> s.threads[t].arrival <= s.clock)
    && (forall t :: 0 <= t < |s.threads| && HandedOver(s.threads[t].pc) && !s.runAfter ==>
          RunSince(s.starts, s.threads[t].arrival))
  }

  ghost predicate Inv(s: State) {
    LockInv(s) && OneWorker(s) && FlagInv(s) && ServedInv(s)
  }

  lemma {:induction false} RunSinceKept(starts: seq<nat>, more: nat, time: nat)
    ensures RunSince(starts, time) ==> RunSince(starts + [more], time)
    ensures more >= time ==> RunSince(starts + [more], time)
  {
    if RunSince(starts, time) {
      var i :| 0 <= i < |starts| && starts[i] >= time;
      assert (starts + [more])[i] == starts[i];
    }
    assert (starts + [more])[|starts|] == more;
  }

  /** A new callback changes nothing for the others. */
  lemma {:induction false} ArriveKeepsInv(s: State)
    requires Inv(s)
    ensures Inv(Step(s, Arrive))
  {
    var s' := Step(s, Arrive);
    assert forall t :: 0 <= t < |s.threads| ==> s'.threads[t] == s.threads[t];
    if s.running {
      var t :| 0 <= t < |s.threads| && IsWorker(s.threads[t].pc);
      assert IsWorker(s'.threads[t].pc);
    }
  }

  lemma {:induction false} MoveKeepsLock(s: State, t: nat)
    requires Inv(s) && Enabled(s, Move(t))
    ensures LockInv(Step(s, Move(t)))
  {
    var s' := Step(s, Move(t));
    assert forall u :: 0 <= u < |s.threads| && u != t ==> s'.threads[u] == s.threads[u];
  }

  lemma {:induction false} MoveKeepsOneWorker(s: State, t: nat)
    requires Inv(s) && Enabled(s, Move(t))
    ensures OneWorker(Step(s, Move(t)))
  {
    var s' := Step(s, Move(t));
    assert forall u :: 0 <= u < |s.threads| && u != t ==> s'.threads[u] == s.threads[u];
  }

  lemma {:induction false} MoveKeepsFlags(s: State, t: nat)
    requires Inv(s) && Enabled(s, Move(t))
    ensures FlagInv(Step(s, Move(t)))
  {
    var s' := Step(s, Move(t));
    assert forall u :: 0 <= u < |s.threads| && u != t ==> s'.threads[u] == s.threads[u];
    if !IsWorker(s'.threads[t].pc) && s.running {
      var u :| 0 <= u < |s.threads| && IsWorker(s.threads[u].pc);
      if u != t { assert IsWorker(s'.threads[u].pc); }
    }
  }

  lemma {:induction false} MoveKeepsServed(s: State, t: nat)
    requires Inv(s) && Enabled(s, Move(t))
    ensures ServedInv(Step(s, Move(t)))
  {
    var s' := Step(s, Move(t));
    forall u | 0 <= u < |s'.threads| && HandedOver(s'.threads[u].pc) && !s'.runAfter
      ensures RunSince(s'.starts, s'.threads[u].arrival)
    {
      assert s'.threads[u].arrival == s.threads[u].arrival;
      if s.threads[t].pc == Looping && s.runAfter {
        RunSinceKept(s.starts, s'.clock, s.threads[u].arrival);
      }
    }
  }

  lemma {:induction false} StepKeepsInv(s: State, a: Action)
    requires Inv(s) && Enabled(s, a)
    ensures Inv(Step(s, a))
  {
    match a
    case Arrive => ArriveKeepsInv(s);
    case Move(t) =>
      MoveKeepsLock(s, t);
      MoveKeepsOneWorker(s, t);
      MoveKeepsFlags(s, t);
      MoveKeepsServed(s, t);
  }

  /** Every state of every schedule satisfies the invariant. */
  lemma {:induction false} AlwaysInv(acts: seq<Action>, s: State)
    requires After(acts) == Some(s)
    ensures Inv(s)
  {
    if acts != [] {
      var front, a := acts[..|acts| - 1], acts[|acts| - 1];
      var p := After(front).value;
      AlwaysInv(front, p);
      StepKeepsInv(p, a);
    }
  }

  /** At most one `doRun` is active at any time. */
  lemma {:induction false} OneRunAtATime(acts: seq<Action>, s: State, t: nat, u: nat)
    requires After(acts) == Some(s) && t < |s.threads| && u < |s.threads|
    requires s.threads[t].pc == Running && s.threads[u].pc == Running
    ensures t == u
  {
    AlwaysInv(acts, s);
  }

  /**
   * No event is lost: one that was handed over is pending with a worker there to pick it up,
   * or a `doRun` started after it arrived. When idle, nothing is pending.
   */
  lemma {:induction false} NoEventLost(acts: seq<Action>, s: State, t: nat)
    requires After(acts) == Some(s) && t < |s.threads| && HandedOver(s.threads[t].pc)
    ensures (s.runAfter && s.running) || RunSince(s.starts, s.threads[t].arrival)
    ensures !s.running ==> !s.runAfter && RunSince(s.starts, s.threads[t].arrival)
  {
    AlwaysInv(acts, s);
  }

  /** How many events were handed over. */
  function HandedOverOf(ts: seq<Thread>): nat {
    if ts == [] then 0 else (if HandedOver(ts[0].pc) then 1 else 0) + HandedOverOf(ts[1..])
  }

  lemma {:induction false} HandedOverUpdate(ts: seq<Thread>, t: nat, x: Thread)
    requires t < |ts|
    ensures HandedOverOf(ts[t := x]) + (if HandedOver(ts[t].pc) then 1 else 0) ==
            HandedOverOf(ts) + if HandedOver(x.pc) then 1 else 0
  {
    if t == 0 {
      assert ts[0 := x][1..] == ts[1..];
    } else {
      assert ts[t := x][1..] == ts[1..][t - 1 := x];
      HandedOverUpdate(ts[1..], t - 1, x);
    }
  }

  lemma {:induction false} HandedOverAppend(ts: seq<Thread>, x: Thread)
    requires !HandedOver(x.pc)
    ensures HandedOverOf(ts + [x]) == HandedOverOf(ts)
  {
    if ts != [] {
      assert (ts + [x])[1..] == ts[1..] + [x];
      HandedOverAppend(ts[1..], x);
    }
  }

  /** Runs, and the one that is due, never outnumber the events: a burst of events is one run, and none runs for nothing. */
  lemma {:induction false} NoRunForNothing(acts: seq<Action>, s: State)
    requires After(acts) == Some(s)
    ensures |s.starts| + (if s.runAfter then 1 else 0) <= HandedOverOf(s.threads)
  {
    if acts != [] {
      var front, a := acts[..|acts| - 1], acts[|acts| - 1];
      var p := After(front).value;
      NoRunForNothing(front, p);
      AlwaysInv(front, p);
      match a
      case Arrive => HandedOverAppend(p.threads, s.threads[|p.threads|]);
      case Move(t) => HandedOverUpdate(p.threads, t, s.threads[t]);
    }
  }

  // ── Progress ─────────────────────────────────────────────────────────

  /** As long as a callback is unfinished, some callback can move: the mutex never deadlocks. */
  lemma {:induction false} NeverStuck(acts: seq<Action>, s: State, t: nat)
    requires After(acts) == Some(s) && t < |s.threads| && s.threads[t].pc != Finished
    ensures exists u: nat :: Enabled(s, Move(u))
  {
    AlwaysInv(acts, s);
    if s.lock.Some? {
      assert Enabled(s, Move(s.lock.value));
    } else {
      assert Enabled(s, Move(t));
    }
  }

  function Weight(pc: Pc): nat {
    match pc
    case Waiting => 6
    case Entered => 5
    case Running => 3
    case Relocking => 2
    case Looping => 1
    case Finished => 0
  }

  function Total(ts: seq<Thread>): nat {
    if ts == [] then 0 else Weight(ts[0].pc) + Total(ts[1..])
  }

  /** Work left: bounds the number of moves until quiet if no further event arrives. */
  function WorkLeft(s: State): nat {
    Total(s.threads) + if s.runAfter then 3 else 0
  }

  lemma {:induction false} TotalUpdate(ts: seq<Thread>, t: nat, x: Thread)
    requires t < |ts|
    ensures Total(ts[t := x]) + Weight(ts[t].pc) == Total(ts) + Weight(x.pc)
  {
    if t == 0 {
      assert ts[0 := x][1..] == ts[1..];
    } else {
      assert ts[t := x][1..] == ts[1..][t - 1 := x];
      TotalUpdate(ts[1..], t - 1, x);
    }
  }

  /** Every move, whoever makes it, uses up work: with no further events all callbacks finish. */
  lemma {:induction false} MovesUseUpWork(s: State, t: nat)
    requires Inv(s) && Enabled(s, Move(t))
    ensures WorkLeft(Step(s, Move(t))) < WorkLeft(s)
  {
    TotalUpdate(s.threads, t, Step(s, Move(t)).threads[t]);
  }

  ghost predicate Quiet(s: State) {
    forall t :: 0 <= t < |s.threads| ==> s.threads[t].pc == Finished
  }

  /** Once quiet, every event that ever arrived was followed by a run. */
  lemma {:induction false} QuietMeansServed(acts: seq<Action>, s: State, t: nat)
    requires After(acts) == Some(s) && Quiet(s) && t < |s.threads|
    ensures !s.running && !s.runAfter && s.lock == None && RunSince(s.starts, s.threads[t].arrival)
  {
    AlwaysInv(acts, s);
  }

  /**
   * If no further event arrives, every schedule ends within the work left,
   * and where it can go no further every callback has finished.
   */
  lemma {:induction false} EveryScheduleEnds(acts: seq<Action>, s: State, moves: seq<Action>, q: State)
    requires After(acts) == Some(s) && After(acts + moves) == Some(q)
    requires forall i :: 0 <= i < |moves| ==> moves[i].Move?
    ensures |moves| + WorkLeft(q) <= WorkLeft(s)
    ensures (forall u: nat :: !Enabled(q, Move(u))) ==> Quiet(q)
    decreases |moves|
  {
    if moves == [] {
      assert acts + moves == acts;
    } else {
      var front, a := moves[..|moves| - 1], moves[|moves| - 1];
      assert (acts + moves)[..|acts + moves| - 1] == acts + front;
      var p := After(acts + front).value;
      EveryScheduleEnds(acts, s, front, p);
      AlwaysInv(acts + front, p);
      MovesUseUpWork(p, a.t);
    }
    StuckMeansQuiet(acts + moves, q);
  }

  lemma {:induction false} StuckMeansQuiet(acts: seq<Action>, q: State)
    requires After(acts) == Some(q)
    ensures (forall u: nat :: !Enabled(q, Move(u))) ==> Quiet(q)
  {
    if !Quiet(q) {
      var t :| 0 <= t < |q.threads| && q.threads[t].pc != Finished;
      NeverStuck(acts, q, t);
    }
  }
}

/**
  The destructor of the interrupt forwarder (src/ggsql_bridge.cpp): it takes the mutex, sets `stopped`,
  notifies and joins.  How long that lasts depends on one thing only: how often the forwarder takes the
  mutex while the destructor waits for it.
 */
module Shutdown {
  import opened Interrupts

  predicate Ending(c: Caller) {
    InDestructor(c) || c.Closing? || c.Done?
  }

  // ---------- What is left to do ----------

  /** How many more forwarder steps the destructor can have to wait for, if it gets the mutex when it is free. */
  function Wait(v: Invocation): nat {
    if v.caller.Locking? then
      3 + (match v.worker
           case Testing => 5
           case Looking => 4
           case Forwarding => 3
           case Pausing => 2
           case Sleeping => 1
           case _ => 0)
    else if InDestructor(v.caller) then
      match v.worker
      case Exited => 0
      case Absent => 0
      case Testing => 1
      case Sleeping => 3
      case _ => 2
    else 0
  }

  /** How many steps of its own the destructor has left. */
  function Rest(c: Caller): nat {
    match c
    case Locking(_) => 6
    case Stopping(_) => 5
    case Unlocking(_) => 4
    case Notifying(_) => 3
    case Joining(_) => 2
    case Closing(_) => 1
    case _ => 0
  }

  /** The forwarder would take a mutex that the destructor is waiting for. */
  predicate Barges(v: Invocation) {
    v.caller.Locking? && (v.worker.Starting? || v.worker.Waking?)
  }

  const BARGE: nat := 6

  lemma CallerLowersRest(v: Invocation, outer: bool, id: nat, choice: Choice)
    requires Good(v) && CallerEnabled(v, choice) && Ending(v.caller)
    ensures var v' := CallerNext(v, outer, id, choice);
      Ending(v'.caller) && Wait(v') <= Wait(v) && Rest(v'.caller) < Rest(v.caller)
  {
  }

  lemma WorkerLowersWait(v: Invocation, outer: bool, timedOut: bool)
    requires Good(v) && WorkerEnabled(v) && Ending(v.caller)
    ensures var v' := WorkerNext(v, outer, timedOut);
      && Ending(v'.caller) && Rest(v'.caller) == Rest(v.caller)
      && Wait(v') + 1 <= Wait(v) + (if Barges(v) then BARGE else 0)
  {
  }

  /** Until it is done, the caller can move, or else the forwarder can, and not by barging. */
  lemma DestructorIsNeverStuck(v: Invocation)
    requires Good(v) && Ending(v.caller)
    ensures v.caller.Done? <==> !CallerEnabled(v, Go(true)) && !(WorkerEnabled(v) && !Barges(v))
  {
  }

  // ---------- Counting steps ----------

  predicate IsCallerStepOf(l: Label, i: nat) {
    l.CallerStep? && l.i == i
  }

  /** The steps of either thread of invocation `i` among the labels from `a` to `b`. */
  function OwnSteps(labels: seq<Label>, a: nat, b: nat, i: nat): nat
    requires a <= b <= |labels|
  {
    if a == b then 0
    else OwnSteps(labels, a, b - 1, i) + (if IsWorkerStepOf(labels[b - 1], i) || IsCallerStepOf(labels[b - 1], i) then 1 else 0)
  }

  function WorkerSteps(labels: seq<Label>, a: nat, b: nat, i: nat): nat
    requires a <= b <= |labels|
  {
    if a == b then 0 else WorkerSteps(labels, a, b - 1, i) + (if IsWorkerStepOf(labels[b - 1], i) then 1 else 0)
  }

  predicate BargesAt(states: seq<System>, labels: seq<Label>, k: nat, i: nat)
    requires |states| == |labels| + 1 && k < |labels|
  {
    IsWorkerStepOf(labels[k], i) && i < |states[k].invocations| && Barges(states[k].invocations[i])
  }

  /** How many races for the mutex the destructor has lost. */
  function Barged(states: seq<System>, labels: seq<Label>, a: nat, b: nat, i: nat): nat
    requires |states| == |labels| + 1 && a <= b <= |labels|
  {
    if a == b then 0 else Barged(states, labels, a, b - 1, i) + (if BargesAt(states, labels, b - 1, i) then 1 else 0)
  }

  // ---------- The bound ----------

  function Potential(v: Invocation): nat {
    Wait(v) + Rest(v.caller)
  }

  lemma StepLowersPotential(s: System, l: Label, i: nat)
    requires AllGood(s) && Enabled(s, l) && i < |s.invocations| && Ending(s.invocations[i].caller)
    ensures |Next(s, l).invocations| == |s.invocations|
    ensures var v, v' := s.invocations[i], Next(s, l).invocations[i];
      var races := if IsWorkerStepOf(l, i) && Barges(v) then BARGE else 0;
      && Ending(v'.caller)
      && Wait(v') + (if IsWorkerStepOf(l, i) then 1 else 0) <= Wait(v) + races
      && Potential(v') + (if IsWorkerStepOf(l, i) || IsCallerStepOf(l, i) then 1 else 0) <= Potential(v) + races
  {
    hide Good, Wait, Rest, Barges, CallerNext, WorkerNext;
    assert Good(s.invocations[i]);
    StepOf(s, l, i);
    if IsWorkerStepOf(l, i) {
      WorkerLowersWait(s.invocations[i], OuterOf(s, i), l.timedOut);
    } else if IsCallerStepOf(l, i) {
      CallerLowersRest(s.invocations[i], OuterOf(s, i), s.nextConnection, l.choice);
    }
  }

  /** Part of a run during which invocation `i` is in its destructor, or past it. */
  ghost predicate Shuts(states: seq<System>, labels: seq<Label>, a: nat, b: nat, i: nat) {
    && IsRun(states, labels) && AllGood(states[0]) && a <= b <= |labels|
    && i < |states[0].invocations| && |states[a].invocations| == |states[0].invocations|
    && InDestructor(states[a].invocations[i].caller)
  }

  /** Steps are paid for by what was left to do at the start, and by lost races. */
  lemma {:induction false} StepsArePaid(states: seq<System>, labels: seq<Label>, a: nat, b: nat, i: nat)
    requires Shuts(states, labels, a, b, i)
    ensures |states[b].invocations| == |states[0].invocations| && Ending(states[b].invocations[i].caller)
    ensures var v, v', races := states[a].invocations[i], states[b].invocations[i], Barged(states, labels, a, b, i);
      && WorkerSteps(labels, a, b, i) + Wait(v') <= Wait(v) + BARGE * races
      && OwnSteps(labels, a, b, i) + Potential(v') <= Potential(v) + BARGE * races
    decreases b
  {
    hide Potential, Wait, AllGood, Enabled, Next, Barges, InDestructor;
    RunIsGood(states, labels, a);
    if a < b {
      StepsArePaid(states, labels, a, b - 1, i);
      RunIsGood(states, labels, b - 1);
      assert states[b] == Next(states[b - 1], labels[b - 1]);
      StepLowersPotential(states[b - 1], labels[b - 1], i);
    }
  }

  lemma AtMostFourteen(v: Invocation)
    ensures Wait(v) <= 8 && Rest(v.caller) <= 6
    ensures v.caller.Done? ==> Rest(v.caller) == 0
    ensures Ending(v.caller) && Rest(v.caller) == 0 ==> v.caller.Done?
  {
  }

  /**
    Under every schedule the destructor waits for at most eight forwarder steps, and six more for each race
    it lost; and after at most fourteen steps of its invocation, and six more for each such race, it is
    done.  The forwarder may have been anywhere: not yet started, in the middle of an iteration, or waiting.
   */
  lemma ShutdownIsBounded(states: seq<System>, labels: seq<Label>, a: nat, b: nat, i: nat)
    requires Shuts(states, labels, a, b, i)
    ensures |states[b].invocations| == |states[0].invocations|
    ensures var steps, races := OwnSteps(labels, a, b, i), Barged(states, labels, a, b, i);
      && WorkerSteps(labels, a, b, i) <= 8 + BARGE * races
      && steps <= 14 + BARGE * races
      && (steps == 14 + BARGE * races ==> states[b].invocations[i].caller.Done?)
  {
    StepsArePaid(states, labels, a, b, i);
    AtMostFourteen(states[a].invocations[i]);
    AtMostFourteen(states[b].invocations[i]);
    hide Wait, Rest;
  }

  /** In every state on the way, either the destructor is done or a step that is no lost race brings it on. */
  lemma ShutdownGoesOn(states: seq<System>, labels: seq<Label>, a: nat, b: nat, i: nat)
    requires Shuts(states, labels, a, b, i)
    ensures i < |states[b].invocations|
    ensures var v := states[b].invocations[i];
      v.caller.Done? <==> !CallerEnabled(v, Go(true)) && !(WorkerEnabled(v) && !Barges(v))
  {
    StepsArePaid(states, labels, a, b, i);
    RunIsGood(states, labels, b);
    assert Good(states[b].invocations[i]);
    DestructorIsNeverStuck(states[b].invocations[i]);
  }

  // ---------- Lost races are all that can delay it ----------

  /** Where the destructor waits, the mutex is free and the forwarder is about to take it. */
  predicate Contested(s: System, i: nat) {
    && i < |s.invocations| && s.invocations[i].caller.Locking? && s.invocations[i].worker == Waking(true)
    && s.invocations[i].mutex.Free? && !s.invocations[i].stopped
    && (OuterOf(s, i) ==> s.invocations[i].flag)
  }

  /** Forwarder steps from one race to the next: one more if there is an interrupt to forward. */
  function Lap(s: System, i: nat): nat
    requires i < |s.invocations|
  {
    if OuterOf(s, i) then 6 else 5
  }

  /** The protocol itself excludes no lost race: the forwarder can win any number of them. */
  lemma {:induction false} BargingCanStarve(s: System, i: nat, n: nat) returns (states: seq<System>, labels: seq<Label>)
    requires Contested(s, i)
    ensures IsRun(states, labels) && states[0] == s && states[|labels|] == s
    ensures |labels| == Lap(s, i) * n == OwnSteps(labels, 0, |labels|, i)
    ensures Barged(states, labels, 0, |labels|, i) == n
  {
    states, labels := [s], [];
    if n > 0 {
      hide IsRun, Contested, OwnSteps, Barged, Lap;
      states, labels := BargingCanStarve(s, i, n - 1);
      states, labels := OneLap(states, labels, s, i);
      OneMoreLap(Lap(s, i), n);
    }
  }

  lemma OneMoreLap(lap: nat, n: nat)
    requires n > 0
    ensures lap * (n - 1) + lap == lap * n
  {
  }

  /** The forwarder of `s` elsewhere in its iteration. */
  function Placed(s: System, i: nat, w: Worker): System
    requires i < |s.invocations|
  {
    s.(invocations := s.invocations[i := s.invocations[i].(worker := w, mutex := if w.Sleeping? || w.Waking? then Free else ByWorker)])
  }

  /** Where the forwarder goes next while the destructor waits. */
  function Turn(w: Worker, outer: bool): Worker {
    match w
    case Waking(_) => Testing
    case Testing => Looking
    case Looking => if outer then Forwarding else Pausing
    case Forwarding => Pausing
    case Pausing => Sleeping
    case Sleeping => Waking(true)
    case _ => w
  }

  lemma OneLap(states: seq<System>, labels: seq<Label>, s: System, i: nat) returns (states': seq<System>, labels': seq<Label>)
    requires Contested(s, i) && IsRun(states, labels) && states[|labels|] == s
    ensures IsRun(states', labels') && states'[0] == states[0] && states'[|labels'|] == s
    ensures |labels'| == |labels| + Lap(s, i)
    ensures OwnSteps(labels', 0, |labels'|, i) == OwnSteps(labels, 0, |labels|, i) + Lap(s, i)
    ensures Barged(states', labels', 0, |labels'|, i) == Barged(states, labels, 0, |labels|, i) + 1
  {
    assert s == Placed(s, i, Waking(true));
    hide Placed, IsRun, OwnSteps, Barged;
    states', labels' := TurnOnce(states, labels, s, i, Waking(true));
    states', labels' := TurnOnce(states', labels', s, i, Testing);
    states', labels' := TurnOnce(states', labels', s, i, Looking);
    if OuterOf(s, i) {
      states', labels' := TurnOnce(states', labels', s, i, Forwarding);
    }
    states', labels' := TurnOnce(states', labels', s, i, Pausing);
    states', labels' := TurnOnce(states', labels', s, i, Sleeping);
  }

  lemma TurnOnce(states: seq<System>, labels: seq<Label>, s: System, i: nat, w: Worker) returns (states': seq<System>, labels': seq<Label>)
    requires IsRun(states, labels) && Contested(s, i) && states[|labels|] == Placed(s, i, w)
    requires !w.Absent? && !w.Starting? && !w.Exited? && (w.Waking? ==> w.timedOut) && (w.Forwarding? ==> OuterOf(s, i))
    ensures IsRun(states', labels') && states'[0] == states[0] && |labels'| == |labels| + 1
    ensures states'[|labels'|] == Placed(s, i, Turn(w, OuterOf(s, i)))
    ensures OwnSteps(labels', 0, |labels'|, i) == OwnSteps(labels, 0, |labels|, i) + 1
    ensures Barged(states', labels', 0, |labels'|, i) == Barged(states, labels, 0, |labels|, i) + (if w.Waking? then 1 else 0)
  {
    var l := WorkerStep(i, true);
    states', labels' := Extend(states, labels, l);
    CountsOfPrefix(states, labels, states', labels', |labels|, i);
    assert Next(Placed(s, i, w), l).invocations == Placed(s, i, Turn(w, OuterOf(s, i))).invocations;
  }

  lemma {:induction false} CountsOfPrefix(states: seq<System>, labels: seq<Label>, states': seq<System>, labels': seq<Label>, n: nat, i: nat)
    requires |states| == |labels| + 1 && |states'| == |labels'| + 1 && n <= |labels|
    requires states <= states' && labels <= labels'
    ensures OwnSteps(labels', 0, n, i) == OwnSteps(labels, 0, n, i)
    ensures Barged(states', labels', 0, n, i) == Barged(states, labels, 0, n, i)
    decreases n
  {
    if n > 0 {
      CountsOfPrefix(states, labels, states', labels', n - 1, i);
    }
  }

  /** And such races are reachable, also with an interrupt to forward. */
  lemma ContestedIsReachable(interrupted: bool) returns (states: seq<System>, labels: seq<Label>)
    ensures IsRun(states, labels) && Initial(states[0])
    ensures Contested(states[|labels|], 0) && OuterOf(states[|labels|], 0) == interrupted
  {
    states, labels := ForwarderWakes();
    states, labels := QueryEnds(states, labels);
    if interrupted {
      states, labels := InterruptIsForwarded(states, labels);
    }
    var go := CallerStep(0, Go(true));
    states, labels := Extend(states, labels, CallerStep(0, Return(0)));
    states, labels := Extend(states, labels, go);
  }

  /** One invocation whose forwarder's wait is over. */
  function Awoken(outer: bool, caller: Caller, flag: bool, next: nat): System {
    System([outer], [FRESH.(caller := caller, worker := Waking(true), flag := flag, link := Open(3),
                            used := if caller.Beginning? then {} else {3})], next)
  }

  lemma ForwarderWakes() returns (states: seq<System>, labels: seq<Label>)
    ensures IsRun(states, labels) && Initial(states[0]) && states[|labels|] == Awoken(false, Beginning, false, 5)
  {
    states, labels := FirstCallback(true);
    var l := WorkerStep(0, true);
    states, labels := Extend(states, labels, l);
    states, labels := Extend(states, labels, l);
    states, labels := Extend(states, labels, l);
    states, labels := Extend(states, labels, l);
    states, labels := Extend(states, labels, l);
  }

  lemma QueryEnds(states: seq<System>, labels: seq<Label>) returns (states': seq<System>, labels': seq<Label>)
    requires IsRun(states, labels) && states[|labels|] == Awoken(false, Beginning, false, 5)
    ensures IsRun(states', labels') && states'[0] == states[0] && states'[|labels'|] == Awoken(false, Engine, false, 8)
  {
    var go := CallerStep(0, Go(true));
    states', labels' := Extend(states, labels, go);
    assert states'[|labels'|].invocations[0].used == {3};
    states', labels' := Extend(states', labels', go);
    states', labels' := Extend(states', labels', go);
  }

  lemma InterruptIsForwarded(states: seq<System>, labels: seq<Label>) returns (states': seq<System>, labels': seq<Label>)
    requires IsRun(states, labels) && states[|labels|] == Awoken(false, Engine, false, 8)
    ensures IsRun(states', labels') && states'[0] == states[0] && states'[|labels'|] == Awoken(true, Engine, true, 8)
  {
    var l := WorkerStep(0, true);
    states', labels' := Extend(states, labels, Interrupt(0));
    states', labels' := Extend(states', labels', l);
    states', labels' := Extend(states', labels', l);
    states', labels' := Extend(states', labels', l);
    states', labels' := Extend(states', labels', l);
    states', labels' := Extend(states', labels', l);
    states', labels' := Extend(states', labels', l);
  }

  // ---------- Exactly when there is a bound ----------

  datatype Part = Part(states: seq<System>, labels: seq<Label>, a: nat, b: nat, i: nat)

  ghost predicate AllShut(parts: iset<Part>) {
    forall p :: p in parts ==> Shuts(p.states, p.labels, p.a, p.b, p.i)
  }

  ghost predicate StepsWithin(parts: iset<Part>, bound: nat)
    requires AllShut(parts)
  {
    forall p :: p in parts ==> OwnSteps(p.labels, p.a, p.b, p.i) <= bound
  }

  ghost predicate RacesWithin(parts: iset<Part>, bound: nat)
    requires AllShut(parts)
  {
    forall p :: p in parts ==> Barged(p.states, p.labels, p.a, p.b, p.i) <= bound
  }

  lemma {:induction false} RacesAreSteps(states: seq<System>, labels: seq<Label>, a: nat, b: nat, i: nat)
    requires |states| == |labels| + 1 && a <= b <= |labels|
    ensures Barged(states, labels, a, b, i) <= OwnSteps(labels, a, b, i)
    decreases b
  {
    if a < b {
      RacesAreSteps(states, labels, a, b - 1, i);
    }
  }

  /** Over any family of shutdowns, their length is bounded exactly when the number of lost races is. */
  lemma BoundedExactlyWhenRacesAre(parts: iset<Part>)
    requires AllShut(parts)
    ensures (exists n: nat :: StepsWithin(parts, n)) <==> (exists n: nat :: RacesWithin(parts, n))
  {
    if n: nat :| StepsWithin(parts, n) {
      forall p | p in parts
        ensures Barged(p.states, p.labels, p.a, p.b, p.i) <= n
      {
        RacesAreSteps(p.states, p.labels, p.a, p.b, p.i);
      }
      assert RacesWithin(parts, n);
    }
    if n: nat :| RacesWithin(parts, n) {
      forall p | p in parts
        ensures OwnSteps(p.labels, p.a, p.b, p.i) <= 14 + BARGE * n
      {
        ShutdownIsBounded(p.states, p.labels, p.a, p.b, p.i);
      }
      assert StepsWithin(parts, 14 + BARGE * n);
    }
  }
}

/**
  What the forwarder and the checks around it guarantee: no interrupt is lost, none comes from nowhere, and
  a cancelled run reports nothing but its cancellation.
 */
module Cancellation {
  import opened Interrupts

  // ---------- No interrupt is lost ----------

  /** Between `a` and `b` the outer context of invocation `i` is interrupted in every state. */
  ghost predicate OuterStaysSet(states: seq<System>, a: nat, b: nat, i: nat)
    requires b < |states|
  {
    forall k :: a <= k <= b ==> i < |states[k].invocations| && OuterOf(states[k], i)
  }

  /** No step from `a` to `b` starts an inner query of invocation `i`. */
  ghost predicate NoQueryStarts(states: seq<System>, labels: seq<Label>, a: nat, b: nat, i: nat)
    requires IsRun(states, labels) && b < |states|
  {
    forall k :: a <= k < b && labels[k].CallerStep? && labels[k].i == i && i < |states[k].invocations|
                ==> !states[k].invocations[i].caller.Beginning?
  }

  /** On its way from the loop test to having forwarded. */
  predicate OnItsWay(w: Worker) {
    w.Testing? || w.Looking? || w.Forwarding?
  }

  lemma StepCarriesInterrupt(s: System, l: Label, i: nat)
    requires AllGood(s) && Enabled(s, l) && i < |s.invocations| && OuterOf(s, i)
    requires l.CallerStep? && l.i == i ==> !s.invocations[i].caller.Beginning?
    requires s.invocations[i].flag || (OnItsWay(s.invocations[i].worker) && !s.invocations[i].stopped)
    ensures var v := Next(s, l).invocations[i]; v.flag || (OnItsWay(v.worker) && !v.stopped)
  {
    var v := s.invocations[i];
    assert Good(v);
    StepOf(s, l, i);
  }

  /**
    An iteration that begins once the outer flag is set, with no query start since, leaves the inner
    flag set from the moment it is complete.
   */
  lemma {:induction false} NoInterruptIsLost(states: seq<System>, labels: seq<Label>, a: nat, b: nat, i: nat)
    requires IsRun(states, labels) && AllGood(states[0]) && a <= b < |states|
    requires OuterStaysSet(states, a, b, i) && NoQueryStarts(states, labels, a, b, i)
    requires states[a].invocations[i].worker.Testing? && !states[a].invocations[i].stopped
    ensures states[b].invocations[i].flag || (OnItsWay(states[b].invocations[i].worker) && !states[b].invocations[i].stopped)
    ensures forall c :: a <= c <= b && !OnItsWay(states[c].invocations[i].worker) ==> states[b].invocations[i].flag
    decreases b
  {
    if a < b {
      NoInterruptIsLost(states, labels, a, b - 1, i);
      RunIsGood(states, labels, b - 1);
      StepCarriesInterrupt(states[b - 1], labels[b - 1], i);
      var v, v' := states[b - 1].invocations[i], states[b].invocations[i];
      assert v.flag ==> v'.flag by { StepOf(states[b - 1], labels[b - 1], i); }
    }
  }

  // ---------- Every running query sees it ----------

  /** The forwarder's 10 ms are over: the tick that starts a new iteration. */
  predicate IsTick(states: seq<System>, labels: seq<Label>, k: nat, i: nat)
    requires |states| == |labels| + 1 && k < |labels|
  {
    && labels[k].WorkerStep? && labels[k].i == i && labels[k].timedOut
    && i < |states[k].invocations| && states[k].invocations[i].worker.Sleeping?
  }

  ghost predicate Runs(states: seq<System>, a: nat, b: nat, i: nat)
    requires b < |states|
  {
    forall k :: a <= k <= b ==> i < |states[k].invocations| && states[k].invocations[i].caller.Running?
  }

  /** On its way from the tick to having forwarded. */
  predicate Awake(w: Worker) {
    OnItsWay(w) || w == Waking(true)
  }

  /** While one inner query runs, a second tick finds the flag set by the iteration that the first one started. */
  lemma {:induction false} SecondTickFindsFlag(states: seq<System>, labels: seq<Label>, a: nat, b: nat, i: nat)
    requires IsRun(states, labels) && AllGood(states[0]) && a < b < |states|
    requires OuterStaysSet(states, a, b, i) && Runs(states, a, b, i)
    requires IsTick(states, labels, a, i)
    ensures states[b].invocations[i].flag || Awake(states[b].invocations[i].worker)
    ensures forall c :: a < c < b && IsTick(states, labels, c, i) ==> states[b].invocations[i].flag
    decreases b
  {
    StepOf(states[b - 1], labels[b - 1], i);
    if a + 1 < b {
      SecondTickFindsFlag(states, labels, a, b - 1, i);
      RunIsGood(states, labels, b - 1);
      assert Good(states[b - 1].invocations[i]);
      assert states[b - 1].invocations[i].flag ==> states[b].invocations[i].flag;
    }
  }

  /** Some tick falls into every `period` consecutive steps from `a` to `b`. */
  ghost predicate TicksEvery(states: seq<System>, labels: seq<Label>, a: nat, b: nat, i: nat, period: nat)
    requires |states| == |labels| + 1 && b <= |labels|
  {
    forall k :: a <= k && k + period <= b ==> TickWithin(states, labels, k, period, i)
  }

  ghost predicate TickWithin(states: seq<System>, labels: seq<Label>, k: nat, period: nat, i: nat)
    requires |states| == |labels| + 1 && k + period <= |labels|
  {
    exists t :: k <= t < k + period && IsTick(states, labels, t, i)
  }

  lemma {:induction false} FlagStaysWhileRunning(states: seq<System>, labels: seq<Label>, a: nat, b: nat, i: nat)
    requires IsRun(states, labels) && AllGood(states[0]) && a <= b < |states|
    requires Runs(states, a, b, i) && states[a].invocations[i].flag
    ensures states[b].invocations[i].flag
    decreases b
  {
    if a < b {
      FlagStaysWhileRunning(states, labels, a, b - 1, i);
      RunIsGood(states, labels, b - 1);
      assert Good(states[b - 1].invocations[i]);
      StepOf(states[b - 1], labels[b - 1], i);
    }
  }

  lemma TwoTicks(states: seq<System>, labels: seq<Label>, a: nat, i: nat, period: nat) returns (t: nat, u: nat)
    requires |states| == |labels| + 1 && a + 2 * period <= |labels|
    requires TicksEvery(states, labels, a, a + 2 * period, i, period)
    ensures a <= t < a + period <= u < a + 2 * period
    ensures IsTick(states, labels, t, i) && IsTick(states, labels, u, i)
  {
    assert TickWithin(states, labels, a, period, i) && TickWithin(states, labels, a + period, period, i);
    t :| a <= t < a + period && IsTick(states, labels, t, i);
    u :| a + period <= u < a + period + period && IsTick(states, labels, u, i);
  }

  lemma PartsOfWindow(states: seq<System>, a: nat, b: nat, a': nat, b': nat, i: nat)
    requires a <= a' && b' <= b < |states|
    ensures Runs(states, a, b, i) ==> Runs(states, a', b', i)
    ensures OuterStaysSet(states, a, b, i) ==> OuterStaysSet(states, a', b', i)
  {
  }

  /** What the first tick started was forwarded at least one step before the second. */
  lemma FlagBeforeSecondTick(states: seq<System>, labels: seq<Label>, t: nat, u: nat, i: nat)
    requires IsRun(states, labels) && AllGood(states[0]) && t < u < |labels|
    requires OuterStaysSet(states, t, u, i) && Runs(states, t, u, i)
    requires IsTick(states, labels, t, i) && IsTick(states, labels, u, i)
    ensures states[u - 1].invocations[i].flag
  {
    hide AllGood;
    StepOf(states[t], labels[t], i);
    StepOf(states[u - 1], labels[u - 1], i);
    assert t + 1 < u;
    SecondTickFindsFlag(states, labels, t, u - 1, i);
  }

  /** With a tick in every `period` steps, a running query has its flag set two steps before two periods are over. */
  lemma RunningQuerySeesInterrupt(states: seq<System>, labels: seq<Label>, a: nat, i: nat, period: nat)
    requires IsRun(states, labels) && AllGood(states[0])
    requires period > 0 && a + 2 * period < |states|
    requires OuterStaysSet(states, a, a + 2 * period - 1, i) && Runs(states, a, a + 2 * period - 1, i)
    requires TicksEvery(states, labels, a, a + 2 * period, i, period)
    ensures states[a + 2 * period - 2].invocations[i].flag
  {
    var t, u := TwoTicks(states, labels, a, i, period);
    hide IsRun, AllGood, Runs, OuterStaysSet, TicksEvery, TickWithin, IsTick;
    PartsOfWindow(states, a, a + 2 * period - 1, t, u, i);
    FlagBeforeSecondTick(states, labels, t, u, i);
    PartsOfWindow(states, a, a + 2 * period - 1, u - 1, a + 2 * period - 2, i);
    FlagStaysWhileRunning(states, labels, u - 1, a + 2 * period - 2, i);
  }

  // ---------- Exactly when an interrupt can be forwarded ----------

  /** A schedule of forwarder steps alone. */
  ghost predicate ForwarderRun(states: seq<System>, labels: seq<Label>, i: nat) {
    IsRun(states, labels) && forall k :: 0 <= k < |labels| ==> IsWorkerStepOf(labels[k], i)
  }

  /** Forwarder steps until the flag is set, for a forwarder that is not stopped. */
  function Distance(w: Worker): nat {
    match w
    case Forwarding => 1
    case Looking => 2
    case Testing => 3
    case Waking(timedOut) => if timedOut then 4 else 6
    case Starting => 4
    case Sleeping => 5
    case Pausing => 6
    case _ => 0
  }

  lemma {:induction false} ForwarderReachesFlag(s: System, i: nat) returns (states: seq<System>, labels: seq<Label>)
    requires AllGood(s) && i < |s.invocations| && OuterOf(s, i)
    requires s.invocations[i].caller.Running? && !s.invocations[i].worker.Absent?
    ensures ForwarderRun(states, labels, i) && states[0] == s
    ensures i < |states[|labels|].invocations| && states[|labels|].invocations[i].flag
    decreases if s.invocations[i].flag then 0 else Distance(s.invocations[i].worker)
  {
    var v := s.invocations[i];
    assert Good(v);
    if v.flag {
      return [s], [];
    }
    var l := WorkerStep(i, true);
    var s' := Next(s, l);
    StepKeepsGood(s, l);
    StepOf(s, l, i);
    var states', labels' := ForwarderReachesFlag(s', i);
    states, labels := [s] + states', [l] + labels';
    forall k | 0 <= k < |labels|
      ensures Enabled(states[k], labels[k]) && states[k + 1] == Next(states[k], labels[k])
    {
      if k > 0 {
        assert states[k] == states'[k - 1] && labels[k] == labels'[k - 1] && states[k + 1] == states'[k];
      }
    }
    assert states[|labels|] == states'[|labels'|];
  }

  lemma {:induction false} NoForwarderNoFlag(states: seq<System>, labels: seq<Label>, k: nat, i: nat)
    requires IsRun(states, labels) && k < |states|
    requires AllGood(states[0]) && i < |states[0].invocations|
    requires states[0].invocations[i].worker.Absent? && !states[0].invocations[i].link.Unmade?
    requires !states[0].invocations[i].caller.Spawning?
    ensures i < |states[k].invocations| && !states[k].invocations[i].flag && states[k].invocations[i].worker.Absent?
    ensures !states[k].invocations[i].link.Unmade? && !states[k].invocations[i].caller.Spawning?
    decreases k
  {
    if k > 0 {
      hide Good, CallerNext, WorkerNext;
      var s, l := states[k - 1], labels[k - 1];
      NoForwarderNoFlag(states, labels, k - 1, i);
      RunIsGood(states, labels, k - 1);
      assert Good(s.invocations[i]);
      StepOf(s, l, i);
      if l.CallerStep? && l.i == i {
        CallerMakesNoForwarder(s.invocations[i], OuterOf(s, i), s.nextConnection, l.choice);
      }
    } else {
      assert Good(states[0].invocations[i]);
    }
  }

  lemma CallerMakesNoForwarder(v: Invocation, outer: bool, id: nat, choice: Choice)
    requires Good(v) && CallerEnabled(v, choice)
    requires v.worker.Absent? && !v.link.Unmade? && !v.caller.Spawning?
    ensures var v' := CallerNext(v, outer, id, choice);
      v'.worker.Absent? && !v'.link.Unmade? && !v'.caller.Spawning? && !v'.flag
  {
  }

  ghost predicate CanSetFlag(s: System, i: nat) {
    exists states, labels, k: nat :: FlagAt(states, labels, s, k, i)
  }

  ghost predicate FlagAt(states: seq<System>, labels: seq<Label>, s: System, k: nat, i: nat) {
    && IsRun(states, labels) && states[0] == s && k < |states|
    && i < |states[k].invocations| && states[k].invocations[i].flag
  }

  /**
    An interrupt of a running query can still reach its connection exactly when the forwarder exists.
    It does not if making its thread failed at the first callback: the connection is kept, and later
    callbacks use it without making a forwarder.
   */
  lemma InterruptArrivesExactlyWhenForwarderExists(s: System, i: nat)
    requires AllGood(s) && i < |s.invocations| && OuterOf(s, i) && s.invocations[i].caller.Running?
    ensures CanSetFlag(s, i) <==> !s.invocations[i].worker.Absent?
  {
    assert Good(s.invocations[i]);
    if s.invocations[i].worker.Absent? {
      forall states, labels, k: nat | IsRun(states, labels) && states[0] == s && k < |states|
        ensures !FlagAt(states, labels, s, k, i)
      {
        NoForwarderNoFlag(states, labels, k, i);
      }
    } else {
      var states, labels := ForwarderReachesFlag(s, i);
      assert FlagAt(states, labels, s, |labels|, i);
    }
  }

  /** Some step before `k` tried to make the forwarder of invocation `i` and failed. */
  ghost predicate SpawnFailed(states: seq<System>, labels: seq<Label>, k: nat, i: nat)
    requires |states| == |labels| + 1 && k <= |labels|
  {
    exists j :: 0 <= j < k && FailsToSpawn(states[j], labels[j], i)
  }

  predicate FailsToSpawn(s: System, l: Label, i: nat) {
    l == CallerStep(i, Go(false)) && i < |s.invocations| && s.invocations[i].caller.Spawning?
  }

  /** A connection without a forwarder, and none to come. */
  predicate Deserted(v: Invocation) {
    v.worker.Absent? && !v.link.Unmade? && !v.caller.Spawning?
  }

  lemma StepDeserts(s: System, l: Label, i: nat)
    requires AllGood(s) && Enabled(s, l) && i < |s.invocations|
    ensures i < |Next(s, l).invocations|
    ensures Deserted(Next(s, l).invocations[i]) <==> Deserted(s.invocations[i]) || FailsToSpawn(s, l, i)
  {
    assert Good(s.invocations[i]);
    StepOf(s, l, i);
  }

  lemma {:induction false} DesertedExactlyWhenSpawnFailed(states: seq<System>, labels: seq<Label>, k: nat, i: nat)
    requires IsRun(states, labels) && Initial(states[0]) && k < |states| && i < |states[0].invocations|
    ensures i < |states[k].invocations|
    ensures Deserted(states[k].invocations[i]) <==> SpawnFailed(states, labels, k, i)
    decreases k
  {
    InitialIsGood(states[0]);
    if k > 0 {
      hide Deserted, SpawnFailed, FailsToSpawn, AllGood, Enabled, Next, Initial;
      DesertedExactlyWhenSpawnFailed(states, labels, k - 1, i);
      RunIsGood(states, labels, k - 1);
      assert states[k] == Next(states[k - 1], labels[k - 1]) && Enabled(states[k - 1], labels[k - 1]);
      StepDeserts(states[k - 1], labels[k - 1], i);
      OneMoreStep(states, labels, k - 1, i);
    }
  }

  lemma OneMoreStep(states: seq<System>, labels: seq<Label>, k: nat, i: nat)
    requires |states| == |labels| + 1 && k < |labels|
    ensures SpawnFailed(states, labels, k + 1, i) <==> SpawnFailed(states, labels, k, i) || FailsToSpawn(states[k], labels[k], i)
  {
    hide FailsToSpawn;
  }

  /** Over whole runs: an interrupt of a running query can still arrive exactly when no step failed to make its forwarder. */
  lemma InterruptArrivesExactlyWhenForwarderWasMade(states: seq<System>, labels: seq<Label>, k: nat, i: nat)
    requires IsRun(states, labels) && Initial(states[0]) && k < |states| && i < |states[0].invocations|
    requires i < |states[k].invocations| && states[k].invocations[i].caller.Running? && OuterOf(states[k], i)
    ensures states[k].invocations[i].worker.Absent? <==> SpawnFailed(states, labels, k, i)
    ensures CanSetFlag(states[k], i) <==> !SpawnFailed(states, labels, k, i)
  {
    InitialIsGood(states[0]);
    RunIsGood(states, labels, k);
    assert Good(states[k].invocations[i]);
    DesertedExactlyWhenSpawnFailed(states, labels, k, i);
    InterruptArrivesExactlyWhenForwarderExists(states[k], i);
  }

  /** How such a query comes to run: making the thread fails once, and the engine calls back again. */
  lemma QueryCanRunWithoutForwarder()
    ensures exists states, labels :: IsRun(states, labels) && Initial(states[0]) && ForwarderlessQuery(states[|labels|])
  {
    var states, labels := FirstCallback(false);
    states, labels := Extend(states, labels, CallerStep(0, Call));
    states, labels := Extend(states, labels, CallerStep(0, Go(true)));
    states, labels := Extend(states, labels, CallerStep(0, Go(true)));
    assert ForwarderlessQuery(states[|labels|]);
  }

  predicate ForwarderlessQuery(s: System) {
    s.invocations != [] && s.invocations[0].caller.Running? && s.invocations[0].worker.Absent?
  }

  // ---------- No interrupt comes from nowhere ----------

  /** An inner flag is set only if the invocation's own outer context was interrupted at some earlier moment. */
  lemma {:induction false} FlagHasItsOwnCause(states: seq<System>, labels: seq<Label>, k: nat, i: nat)
    requires IsRun(states, labels) && Initial(states[0]) && k < |states| && i < |states[k].invocations|
    requires states[k].invocations[i].flag || states[k].invocations[i].worker.Forwarding?
    ensures exists j :: 0 <= j < k && i < |states[j].invocations| && OuterOf(states[j], i)
                        && states[j].invocations[i].context == states[k].invocations[i].context
    decreases k
  {
    if k > 0 {
      var s, l := states[k - 1], labels[k - 1];
      assert i < |s.invocations|;
      StepOf(s, l, i);
      if s.invocations[i].flag || s.invocations[i].worker.Forwarding? {
        FlagHasItsOwnCause(states, labels, k - 1, i);
      } else {
        assert OuterOf(s, i);
      }
    }
  }

  // ---------- The verdict ----------

  predicate Undecided(c: Caller) {
    !(c.Done? || c.Closing? || InDestructor(c))
  }

  function OutcomeOf(c: Caller): Outcome
    requires !Undecided(c)
  {
    c.outcome
  }

  predicate NothingButInterrupt(c: Caller) {
    Undecided(c) || OutcomeOf(c) == Interrupted
  }

  /** If the outer flag is set from some moment before the final check on, the run ends as interrupted. */
  lemma {:induction false} CancelledRunReportsInterrupt(states: seq<System>, labels: seq<Label>, a: nat, b: nat, i: nat)
    requires IsRun(states, labels) && a <= b < |states|
    requires OuterStaysSet(states, a, b, i) && Undecided(states[a].invocations[i].caller)
    ensures NothingButInterrupt(states[b].invocations[i].caller)
    decreases b
  {
    if a < b {
      CancelledRunReportsInterrupt(states, labels, a, b - 1, i);
      assert states[b] == Next(states[b - 1], labels[b - 1]);
      CancelledStep(states[b - 1], labels[b - 1], i);
    }
  }

  lemma CancelledStep(s: System, l: Label, i: nat)
    requires Enabled(s, l) && i < |s.invocations| && OuterOf(s, i)
    requires NothingButInterrupt(s.invocations[i].caller)
    ensures NothingButInterrupt(Next(s, l).invocations[i].caller)
  {
    StepOf(s, l, i);
    if l.CallerStep? && l.i == i {
      CheckSeesInterrupt(s.invocations[i], s.nextConnection, l.choice);
    } else if IsWorkerStepOf(l, i) {
      WorkerLeavesCaller(s.invocations[i], OuterOf(s, i), l.timedOut);
    }
  }

  lemma CheckSeesInterrupt(v: Invocation, id: nat, choice: Choice)
    requires CallerEnabled(v, choice) && NothingButInterrupt(v.caller)
    ensures NothingButInterrupt(CallerNext(v, true, id, choice).caller)
  {
  }

  lemma WorkerLeavesCaller(v: Invocation, outer: bool, timedOut: bool)
    requires WorkerEnabled(v)
    ensures WorkerNext(v, outer, timedOut).caller == v.caller
  {
  }

  predicate IsOwnStep(l: Label, i: nat) {
    l.CallerStep? && l.i == i
  }

  /**
    Every outcome was decided by a step of the invocation's own that looked at the flag: `Interrupted` only by
    one that saw it set, a payload or a plain error only by one that saw it clear, by the return code.
   */
  lemma {:induction false} VerdictHasItsReason(states: seq<System>, labels: seq<Label>, b: nat, i: nat) returns (k: nat)
    requires IsRun(states, labels) && Initial(states[0]) && b < |states| && i < |states[0].invocations|
    requires i < |states[b].invocations| && !Undecided(states[b].invocations[i].caller)
    ensures k < b && IsOwnStep(labels[k], i) && i < |states[k].invocations|
    ensures var o, c := OutcomeOf(states[b].invocations[i].caller), states[k].invocations[i].caller;
      if OuterOf(states[k], i) then o == Interrupted && (c.Entry? || c.Deciding?)
      else c.Deciding? && o == if c.rc != 0 then PlainError else Payload
    decreases b
  {
    if b == 0 {
      assert false;
    } else {
      hide Next, AllGood, OuterOf, Undecided, CallerNext;
      InitialIsGood(states[0]);
      RunIsGood(states, labels, b - 1);
      assert states[b] == Next(states[b - 1], labels[b - 1]);
      StepDecides(states[b - 1], labels[b - 1], i);
      if Undecided(states[b - 1].invocations[i].caller) {
        k := b - 1;
      } else {
        k := VerdictHasItsReason(states, labels, b - 1, i);
      }
    }
  }

  lemma StepDecides(s: System, l: Label, i: nat)
    requires Enabled(s, l) && i < |s.invocations|
    ensures i < |Next(s, l).invocations|
    ensures var c, c' := s.invocations[i].caller, Next(s, l).invocations[i].caller;
      && (!Undecided(c) ==> !Undecided(c') && OutcomeOf(c') == OutcomeOf(c))
      && (Undecided(c) && !Undecided(c') ==>
            && IsOwnStep(l, i)
            && if OuterOf(s, i) then OutcomeOf(c') == Interrupted && (c.Entry? || c.Deciding?)
               else c.Deciding? && OutcomeOf(c') == if c.rc != 0 then PlainError else Payload)
  {
    StepOf(s, l, i);
  }

  /** The return code that is looked at is the one that the engine gave, and nothing of this caller came in between. */
  lemma {:induction false} ReturnCodeIsTheEngines(states: seq<System>, labels: seq<Label>, b: nat, i: nat)
    requires IsRun(states, labels) && Initial(states[0]) && b < |states| && i < |states[b].invocations|
    requires states[b].invocations[i].caller.Deciding?
    ensures exists k :: 0 <= k < b && labels[k] == CallerStep(i, Return(states[b].invocations[i].caller.rc))
                        && forall m :: k < m < b ==> !IsOwnStep(labels[m], i)
    decreases b
  {
    if b > 0 {
      StepOf(states[b - 1], labels[b - 1], i);
      if states[b - 1].invocations[i].caller.Deciding? {
        ReturnCodeIsTheEngines(states, labels, b - 1, i);
      } else {
        assert labels[b - 1] == CallerStep(i, Return(states[b].invocations[i].caller.rc));
      }
    }
  }

  /** A run whose first check sees the flag ends there: no connection, no query. */
  lemma {:induction false} RefusedAtEntry(states: seq<System>, labels: seq<Label>, a: nat, b: nat, i: nat)
    requires IsRun(states, labels) && Initial(states[0]) && a < b < |states| && i < |states[a].invocations|
    requires IsOwnStep(labels[a], i) && states[a].invocations[i].caller.Entry? && OuterOf(states[a], i)
    ensures i < |states[b].invocations|
    ensures var v := states[b].invocations[i]; v.caller == Done(Interrupted) && v.link.Unmade? && v.used == {}
    decreases b
  {
    InitialIsGood(states[0]);
    RunIsGood(states, labels, a);
    RunIsGood(states, labels, b - 1);
    assert Good(states[a].invocations[i]);
    if a + 1 < b {
      RefusedAtEntry(states, labels, a, b - 1, i);
    }
    StepOf(states[b - 1], labels[b - 1], i);
  }

  predicate Starts(c: Caller) {
    c.Connecting? || c.Spawning? || c.Beginning?
  }

  predicate ClearCheck(s: System, l: Label, i: nat) {
    IsOwnStep(l, i) && i < |s.invocations| && s.invocations[i].caller.Checking? && !OuterOf(s, i)
  }

  lemma StepStarts(s: System, l: Label, i: nat)
    requires Enabled(s, l) && i < |s.invocations|
    ensures i < |Next(s, l).invocations|
    ensures Starts(Next(s, l).invocations[i].caller) ==> ClearCheck(s, l, i) || Starts(s.invocations[i].caller)
  {
    StepOf(s, l, i);
  }

  /** Every step of the caller behind the `k`-th and before the `b`-th is taken on the way to a query. */
  ghost predicate OnlyStarts(states: seq<System>, labels: seq<Label>, k: nat, b: nat, i: nat)
    requires |states| == |labels| + 1 && b <= |labels|
  {
    forall m :: k < m < b && IsOwnStep(labels[m], i) ==> i < |states[m].invocations| && Starts(states[m].invocations[i].caller)
  }

  /** No callback makes a connection or starts a query unless its own check saw the flag clear. */
  lemma {:induction false} QueryFollowsClearCheck(states: seq<System>, labels: seq<Label>, b: nat, i: nat) returns (k: nat)
    requires IsRun(states, labels) && Initial(states[0]) && b < |states| && i < |states[0].invocations|
    requires i < |states[b].invocations| && Starts(states[b].invocations[i].caller)
    ensures k < b && ClearCheck(states[k], labels[k], i) && OnlyStarts(states, labels, k, b, i)
    decreases b
  {
    hide Starts, ClearCheck, Next, AllGood;
    if b == 0 {
      NotYetStarted(states[0], i);
      assert false;
    } else {
      InitialIsGood(states[0]);
      RunIsGood(states, labels, b - 1);
      assert states[b] == Next(states[b - 1], labels[b - 1]);
      StepStarts(states[b - 1], labels[b - 1], i);
      if ClearCheck(states[b - 1], labels[b - 1], i) {
        k := b - 1;
      } else {
        k := QueryFollowsClearCheck(states, labels, b - 1, i);
      }
    }
  }

  lemma NotYetStarted(s: System, i: nat)
    requires Initial(s) && i < |s.invocations|
    ensures !Starts(s.invocations[i].caller) && !s.invocations[i].flag
  {
  }

  predicate Forwards(s: System, l: Label, i: nat) {
    IsWorkerStepOf(l, i) && i < |s.invocations| && s.invocations[i].worker.Forwarding?
  }

  predicate StartsQuery(s: System, l: Label, i: nat) {
    IsOwnStep(l, i) && i < |s.invocations| && s.invocations[i].caller.Beginning?
  }

  lemma StepFlags(s: System, l: Label, i: nat)
    requires Enabled(s, l) && i < |s.invocations|
    ensures i < |Next(s, l).invocations|
    ensures Next(s, l).invocations[i].flag <==> Forwards(s, l, i) || (s.invocations[i].flag && !StartsQuery(s, l, i))
  {
    StepOf(s, l, i);
  }

  ghost predicate NoStart(states: seq<System>, labels: seq<Label>, k: nat, b: nat, i: nat)
    requires |states| == |labels| + 1 && b <= |labels|
  {
    forall m :: k < m < b ==> !StartsQuery(states[m], labels[m], i)
  }

  ghost predicate ForwardedSinceStart(states: seq<System>, labels: seq<Label>, b: nat, i: nat)
    requires |states| == |labels| + 1 && b <= |labels|
  {
    exists k :: 0 <= k < b && Forwards(states[k], labels[k], i) && NoStart(states, labels, k, b, i)
  }

  /** The flag is set exactly when it was forwarded to and no query has started since: each start clears it. */
  lemma {:induction false} FlagIsOfThisQuery(states: seq<System>, labels: seq<Label>, b: nat, i: nat)
    requires IsRun(states, labels) && Initial(states[0]) && b < |states| && i < |states[0].invocations|
    ensures i < |states[b].invocations|
    ensures states[b].invocations[i].flag <==> ForwardedSinceStart(states, labels, b, i)
    decreases b
  {
    if b == 0 {
      NotYetStarted(states[0], i);
    } else {
      hide Forwards, StartsQuery, Next, AllGood, ForwardedSinceStart, Initial;
      InitialIsGood(states[0]);
      RunIsGood(states, labels, b - 1);
      assert states[b] == Next(states[b - 1], labels[b - 1]);
      FlagIsOfThisQuery(states, labels, b - 1, i);
      StepFlags(states[b - 1], labels[b - 1], i);
      OneMoreForward(states, labels, b - 1, i);
    }
  }

  lemma OneMoreForward(states: seq<System>, labels: seq<Label>, b: nat, i: nat)
    requires |states| == |labels| + 1 && b < |labels|
    ensures ForwardedSinceStart(states, labels, b + 1, i) <==>
              || Forwards(states[b], labels[b], i)
              || (ForwardedSinceStart(states, labels, b, i) && !StartsQuery(states[b], labels[b], i))
  {
    hide Forwards, StartsQuery;
    if Forwards(states[b], labels[b], i) {
      assert NoStart(states, labels, b, b + 1, i);
    }
    forall k | 0 <= k < b
      ensures NoStart(states, labels, k, b + 1, i) <==> NoStart(states, labels, k, b, i) && !StartsQuery(states[b], labels[b], i)
    {
    }
  }

  // ---------- What an iteration needs ----------

  predicate InIteration(v: Invocation) {
    !v.stopped && (OnItsWay(v.worker) || v.worker.Pausing?)
  }

  /** The forwarder begins: for the first time, or because its wait has timed out. */
  predicate BeginsIteration(s: System, l: Label, i: nat) {
    && IsWorkerStepOf(l, i) && i < |s.invocations|
    && (s.invocations[i].worker.Starting? || s.invocations[i].worker == Waking(true))
  }

  lemma StepIterates(s: System, l: Label, i: nat)
    requires AllGood(s) && Enabled(s, l) && i < |s.invocations|
    ensures i < |Next(s, l).invocations|
    ensures InIteration(Next(s, l).invocations[i]) ==> BeginsIteration(s, l, i) || InIteration(s.invocations[i])
  {
    assert Good(s.invocations[i]);
    StepOf(s, l, i);
  }

  /** No notification or spurious wake makes the forwarder look at the flag: before it is stopped, each look follows a timeout or the start. */
  lemma {:induction false} IterationNeedsTimeout(states: seq<System>, labels: seq<Label>, b: nat, i: nat) returns (k: nat)
    requires IsRun(states, labels) && Initial(states[0]) && b < |states| && i < |states[0].invocations|
    requires i < |states[b].invocations| && InIteration(states[b].invocations[i])
    ensures k < b && BeginsIteration(states[k], labels[k], i)
    ensures forall m :: k < m <= b ==> i < |states[m].invocations| && InIteration(states[m].invocations[i])
    decreases b
  {
    if b == 0 {
      assert false;
    } else {
      hide InIteration, BeginsIteration, Next, AllGood;
      InitialIsGood(states[0]);
      RunIsGood(states, labels, b - 1);
      assert states[b] == Next(states[b - 1], labels[b - 1]);
      StepIterates(states[b - 1], labels[b - 1], i);
      if BeginsIteration(states[b - 1], labels[b - 1], i) {
        k := b - 1;
      } else {
        k := IterationNeedsTimeout(states, labels, b - 1, i);
      }
    }
  }
}

/**
  How long a running query may have to wait for an interrupt, when the forwarder of src/ggsql_bridge.cpp
  ends a wait in every so many steps: the bound of two periods less two steps is the best there is.
 */
module Ticks {
  import opened Interrupts
  import opened Shutdown
  import opened Cancellation

  /** A running, interrupted query; the forwarder is anywhere in its iteration. */
  function At(w: Worker, flag: bool): System {
    System([true], [FRESH.(caller := Running, worker := w, mutex := if w.Sleeping? || w.Waking? then Free else ByWorker,
                           flag := flag, link := Open(3), used := {3})], 6)
  }

  /** From `a` to `b` the interrupted query runs. */
  ghost predicate Live(states: seq<System>, a: nat, b: nat)
    requires b < |states|
  {
    forall k :: a <= k <= b ==> states[k].outer == [true] && |states[k].invocations| == 1
                                && states[k].invocations[0].caller.Running? && states[k].invocations[0].context == 0
  }

  ghost predicate Silent(states: seq<System>, a: nat, b: nat)
    requires b < |states|
  {
    forall k :: a <= k <= b ==> |states[k].invocations| == 1 && !states[k].invocations[0].flag
  }

  /** A run that has come to `At(w, flag)`, live since `a` and without the flag up to `quiet`. */
  ghost predicate Reached(states: seq<System>, labels: seq<Label>, a: nat, quiet: nat, w: Worker, flag: bool) {
    && IsRun(states, labels) && Initial(states[0]) && a <= |labels| && quiet <= |labels|
    && states[|labels|] == At(w, flag) && Live(states, a, |labels|) && Silent(states, a, quiet)
  }

  lemma Begin() returns (states: seq<System>, labels: seq<Label>)
    ensures Reached(states, labels, |labels|, |labels|, Sleeping, false)
  {
    var l := WorkerStep(0, true);
    states, labels := FirstCallback(true);
    states, labels := Extend(states, labels, l);
    states, labels := Extend(states, labels, l);
    states, labels := Extend(states, labels, l);
    states, labels := Extend(states, labels, l);
    states, labels := Extend(states, labels, CallerStep(0, Go(true)));
    assert states[|labels|].invocations[0].used == {3};
    states, labels := Extend(states, labels, Interrupt(0));
  }

  lemma Turned(states: seq<System>, labels: seq<Label>, a: nat, quiet: nat, w: Worker, flag: bool)
    returns (states': seq<System>, labels': seq<Label>)
    requires Reached(states, labels, a, quiet, w, flag)
    requires !w.Absent? && !w.Starting? && !w.Exited? && (w.Waking? ==> w.timedOut)
    ensures Reached(states', labels', a, quiet, Turn(w, true), flag || w.Forwarding?)
    ensures states <= states' && labels' == labels + [WorkerStep(0, true)]
    ensures w.Sleeping? ==> IsTick(states', labels', |labels|, 0)
  {
    states', labels' := Extend(states, labels, WorkerStep(0, true));
    assert Next(At(w, flag), WorkerStep(0, true)).invocations == At(Turn(w, true), flag || w.Forwarding?).invocations;
  }

  /** Other threads may go on for as long as they like. */
  lemma {:induction false} Idle(states: seq<System>, labels: seq<Label>, a: nat, quiet: nat, w: Worker, flag: bool, n: nat)
    returns (states': seq<System>, labels': seq<Label>)
    requires Reached(states, labels, a, quiet, w, flag)
    ensures Reached(states', labels', a, quiet, w, flag)
    ensures states <= states' && labels <= labels' && |labels'| == |labels| + n
  {
    states', labels' := states, labels;
    if n > 0 {
      states', labels' := Idle(states, labels, a, quiet, w, flag, n - 1);
      states', labels' := Extend(states', labels', Interrupt(0));
    }
  }

  /** Without the flag in the state that was reached there is none on the way. */
  lemma StillSilent(states: seq<System>, labels: seq<Label>, a: nat, quiet: nat, w: Worker)
    requires Reached(states, labels, a, quiet, w, false)
    ensures Reached(states, labels, a, |labels|, w, false)
  {
    forall k | a <= k <= |labels|
      ensures |states[k].invocations| == 1 && !states[k].invocations[0].flag
    {
      if states[k].invocations[0].flag {
        InitialIsGood(states[0]);
        FlagStaysWhileRunning(states, labels, k, |labels|, 0);
      }
    }
  }

  lemma SameTick(states: seq<System>, labels: seq<Label>, states': seq<System>, labels': seq<Label>, k: nat)
    requires |states| == |labels| + 1 && |states'| == |labels'| + 1 && states <= states' && labels <= labels'
    requires k < |labels| && IsTick(states, labels, k, 0)
    ensures IsTick(states', labels', k, 0)
  {
  }

  /** One period without a tick, and then a tick whose iteration is slow to reach its second step. */
  lemma FirstPeriod(period: nat) returns (states: seq<System>, labels: seq<Label>, a: nat)
    requires 6 <= period
    ensures |labels| == a + period && Reached(states, labels, a, |labels|, Waking(true), false)
    ensures IsTick(states, labels, a + period - 1, 0)
  {
    states, labels := Begin();
    a := |labels|;
    states, labels := Idle(states, labels, a, a, Sleeping, false, period - 1);
    states, labels := Turned(states, labels, a, a, Sleeping, false);
    StillSilent(states, labels, a, a, Waking(true));
  }

  lemma SecondPeriod(states: seq<System>, labels: seq<Label>, a: nat, period: nat) returns (states': seq<System>, labels': seq<Label>)
    requires 6 <= period && |labels| == a + period && Reached(states, labels, a, |labels|, Waking(true), false)
    ensures |labels'| == a + 2 * period && Reached(states', labels', a, a + 2 * period - 3, Waking(true), true)
    ensures states <= states' && labels <= labels' && IsTick(states', labels', a + 2 * period - 1, 0)
  {
    hide Reached, IsTick;
    states', labels' := Turned(states, labels, a, |labels|, Waking(true), false);
    states', labels' := Turned(states', labels', a, |labels|, Testing, false);
    states', labels' := Turned(states', labels', a, |labels|, Looking, false);
    states', labels' := Idle(states', labels', a, |labels|, Forwarding, false, period - 6);
    StillSilent(states', labels', a, |labels|, Forwarding);
    var quiet := |labels'|;
    states', labels' := Turned(states', labels', a, quiet, Forwarding, false);
    states', labels' := Turned(states', labels', a, quiet, Pausing, true);
    states', labels' := Turned(states', labels', a, quiet, Sleeping, true);
  }

  /**
    Whatever the period, in some run that ticks in every period the query runs interrupted, and its flag is
    still clear three steps before two periods are over; one period is never enough.
   */
  lemma TwoPeriodsAreNeeded(period: nat) returns (states: seq<System>, labels: seq<Label>, a: nat)
    requires 6 <= period
    ensures IsRun(states, labels) && Initial(states[0]) && |labels| == a + 2 * period
    ensures OuterStaysSet(states, a, a + 2 * period - 1, 0) && Runs(states, a, a + 2 * period - 1, 0)
    ensures TicksEvery(states, labels, a, a + 2 * period, 0, period)
    ensures forall j :: a <= j <= a + 2 * period - 3 ==> |states[j].invocations| == 1 && !states[j].invocations[0].flag
  {
    var first, some;
    first, some, a := FirstPeriod(period);
    states, labels := SecondPeriod(first, some, a, period);
    SameTick(first, some, states, labels, a + period - 1);
    forall k | a <= k && k + period <= a + 2 * period
      ensures TickWithin(states, labels, k, period, 0)
    {
      var t := if k < a + period then a + period - 1 else a + 2 * period - 1;
      assert k <= t < k + period && IsTick(states, labels, t, 0);
    }
  }

  /** Steps until a forwarder that has just ended its wait can wait again, with an interrupt to forward. */
  function Away(w: Worker): nat {
    match w
    case Waking(timedOut) => if timedOut then 5 else 0
    case Testing => 4
    case Looking => 3
    case Forwarding => 2
    case Pausing => 1
    case _ => 0
  }

  lemma {:induction false} IterationTakesTime(states: seq<System>, labels: seq<Label>, t: nat, k: nat, i: nat)
    requires IsRun(states, labels) && AllGood(states[0]) && t < k < |states|
    requires OuterStaysSet(states, t, k, i) && Runs(states, t, k, i) && IsTick(states, labels, t, i)
    ensures Away(states[k].invocations[i].worker) + k >= t + 6
    decreases k
  {
    StepOf(states[k - 1], labels[k - 1], i);
    if t + 1 < k {
      IterationTakesTime(states, labels, t, k - 1, i);
      RunIsGood(states, labels, k - 1);
      assert Good(states[k - 1].invocations[i]);
    }
  }

  /** A running, interrupted query sees no ticks in every period of less than six steps, so the two bounds meet. */
  lemma PeriodsAreLong(states: seq<System>, labels: seq<Label>, a: nat, i: nat, period: nat)
    requires IsRun(states, labels) && AllGood(states[0])
    requires period > 0 && a + 2 * period < |states|
    requires OuterStaysSet(states, a, a + 2 * period - 1, i) && Runs(states, a, a + 2 * period - 1, i)
    requires TicksEvery(states, labels, a, a + 2 * period, i, period)
    ensures 6 <= period
  {
    var t, _ := TwoTicks(states, labels, a, i, period);
    assert TickWithin(states, labels, t + 1, period, i);
    var u :| t + 1 <= u < t + 1 + period && IsTick(states, labels, u, i);
    PartsOfWindow(states, a, a + 2 * period - 1, t, u, i);
    IterationTakesTime(states, labels, t, u, i);
  }
}

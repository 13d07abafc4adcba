/**
  The interrupt forwarder of src/ggsql_bridge.cpp around one or many runs of `RunGgsqlQuery`
  (src/ggsql_exec.cpp), as a step relation over every interleaving.

  Each invocation has a caller thread and, once it has an inner connection, a forwarder thread.  They
  share a mutex, a condition variable, `stopped` and the inner connection's interrupt flag.  Starting an
  inner query clears that flag.
 */
module Interrupts {

  // ---------- One invocation ----------

  datatype Outcome = Payload | PlainError | Interrupted

  /** Where the caller thread is.  The destructor of the bridge starts at `Locking`. */
  datatype Caller =
    | Entry                       // first check of RunGgsqlQuery
    | Engine                      // inside ggsql_execute, between callbacks
    | Checking                    // GetInnerConnection, first check
    | Connecting                  // about to make the inner connection
    | Spawning                    // about to make the forwarder
    | Beginning                   // about to start an inner query
    | Running                     // the inner query runs
    | Finished                    // check behind the inner query
    | Deciding(rc: int)           // final check of RunGgsqlQuery
    | Locking(outcome: Outcome)   // ~InterruptForwarder: waiting for the mutex
    | Stopping(outcome: Outcome)  // holds the mutex, `stopped` not yet set
    | Unlocking(outcome: Outcome)
    | Notifying(outcome: Outcome)
    | Joining(outcome: Outcome)
    | Closing(outcome: Outcome)   // about to destroy the inner connection
    | Done(outcome: Outcome)

  /** Where the forwarder thread is. */
  datatype Worker =
    | Absent
    | Starting                    // made, waiting for the mutex
    | Testing                     // holds the mutex, at `while (!stopped)`
    | Looking                     // holds it, about to read the outer flag
    | Forwarding                  // holds it, about to interrupt the inner connection
    | Pausing                     // holds it, at the predicate of wait_for
    | Sleeping                    // released it
    | Waking(timedOut: bool)      // waiting for the mutex again
    | Exited

  datatype Holder = Free | ByCaller | ByWorker

  datatype Link = Unmade | Open(id: nat) | Closed(id: nat)

  datatype Invocation = Invocation(
    context: nat,        // the outer client context
    caller: Caller,
    worker: Worker,
    mutex: Holder,
    stopped: bool,
    flag: bool,          // the inner connection's interrupt flag
    link: Link,
    used: set<nat>)      // connections that callbacks ran a query on

  /** What the environment decides at a caller step: the engine's next move, or whether an operation succeeds. */
  datatype Choice = Go(ok: bool) | Call | Return(rc: int)

  predicate CallerEnabled(v: Invocation, choice: Choice) {
    match v.caller
    case Engine => !choice.Go?
    case Locking(_) => choice.Go? && v.mutex.Free?
    case Joining(_) => choice.Go? && v.worker.Exited?
    case Done(_) => false
    case _ => choice.Go?
  }

  function CallerNext(v: Invocation, outer: bool, id: nat, choice: Choice): Invocation
    requires CallerEnabled(v, choice)
  {
    match v.caller
    case Entry => v.(caller := if outer then Done(Interrupted) else Engine)
    case Engine => v.(caller := if choice.Call? then Checking else Deciding(choice.rc))
    case Checking => v.(caller := if outer then Engine else if v.link.Unmade? then Connecting else Beginning)
    case Connecting => if choice.ok then v.(caller := Spawning, link := Open(id)) else v.(caller := Engine)
    case Spawning => if choice.ok then v.(caller := Beginning, worker := Starting) else v.(caller := Engine)
    case Beginning => v.(caller := Running, flag := false, used := v.used + Ids(v.link))
    case Running => v.(caller := Finished)
    case Finished => v.(caller := Engine)
    case Deciding(rc) => Leave(v, if outer then Interrupted else if rc != 0 then PlainError else Payload)
    case Locking(o) => v.(caller := Stopping(o), mutex := ByCaller)
    case Stopping(o) => v.(caller := Unlocking(o), stopped := true)
    case Unlocking(o) => v.(caller := Notifying(o), mutex := Free)
    case Notifying(o) => v.(caller := Joining(o))
    case Joining(o) => v.(caller := Closing(o))
    case Closing(o) => v.(caller := Done(o), link := if v.link.Open? then Closed(v.link.id) else v.link)
    case Done(_) => v
  }

  /** The members of the bridge are destroyed in reverse order: the forwarder, if any, before the connection. */
  function Leave(v: Invocation, outcome: Outcome): Invocation {
    v.(caller := if v.worker.Absent? then Closing(outcome) else Locking(outcome))
  }

  function Ids(link: Link): set<nat> {
    if link.Unmade? then {} else {link.id}
  }

  predicate WorkerEnabled(v: Invocation) {
    match v.worker
    case Absent => false
    case Exited => false
    case Starting => v.mutex.Free?
    case Waking(_) => v.mutex.Free?
    case _ => true
  }

  function WorkerNext(v: Invocation, outer: bool, timedOut: bool): Invocation
    requires WorkerEnabled(v)
  {
    match v.worker
    case Starting => v.(worker := Testing, mutex := ByWorker)
    case Testing => if v.stopped then v.(worker := Exited, mutex := Free) else v.(worker := Looking)
    case Looking => v.(worker := if outer then Forwarding else Pausing)
    case Forwarding => v.(worker := Pausing, flag := true)
    case Pausing => if v.stopped then v.(worker := Testing) else v.(worker := Sleeping, mutex := Free)
    case Sleeping => v.(worker := Waking(timedOut))
    case Waking(t) => if v.stopped || t then v.(worker := Testing, mutex := ByWorker) else v.(worker := Sleeping)
    case _ => v
  }

  // ---------- Many invocations ----------

  /** Contexts may be shared between invocations: `outer` holds the interrupt flag of each. */
  datatype System = System(outer: seq<bool>, invocations: seq<Invocation>, nextConnection: nat)

  datatype Label =
    | Interrupt(context: nat)                    // somebody interrupts an outer context
    | Rearm(context: nat)                        // a new outer query clears its flag
    | CallerStep(i: nat, choice: Choice)
    | WorkerStep(i: nat, timedOut: bool)

  function OuterOf(s: System, i: nat): bool
    requires i < |s.invocations|
  {
    var c := s.invocations[i].context;
    c < |s.outer| && s.outer[c]
  }

  predicate Enabled(s: System, l: Label) {
    match l
    case Interrupt(c) => c < |s.outer|
    case Rearm(c) => c < |s.outer|
    case CallerStep(i, choice) => i < |s.invocations| && CallerEnabled(s.invocations[i], choice)
    case WorkerStep(i, _) => i < |s.invocations| && WorkerEnabled(s.invocations[i])
  }

  function Next(s: System, l: Label): System
    requires Enabled(s, l)
  {
    match l
    case Interrupt(c) => s.(outer := s.outer[c := true])
    case Rearm(c) => s.(outer := s.outer[c := false])
    case CallerStep(i, choice) =>
      s.(invocations := s.invocations[i := CallerNext(s.invocations[i], OuterOf(s, i), s.nextConnection, choice)],
         nextConnection := s.nextConnection + 1)
    case WorkerStep(i, timedOut) =>
      s.(invocations := s.invocations[i := WorkerNext(s.invocations[i], OuterOf(s, i), timedOut)])
  }

  const FRESH: Invocation := Invocation(0, Entry, Absent, Free, false, false, Unmade, {})

  predicate Initial(s: System) {
    forall i :: 0 <= i < |s.invocations| ==> s.invocations[i] == FRESH.(context := s.invocations[i].context)
  }

  /** A run: each label is enabled where it is taken and leads to the next state. */
  ghost predicate IsRun(states: seq<System>, labels: seq<Label>) {
    && |states| == |labels| + 1
    && forall k {:trigger labels[k]} :: 0 <= k < |labels| ==> Enabled(states[k], labels[k]) && states[k + 1] == Next(states[k], labels[k])
  }

  // ---------- The invariant ----------

  predicate InDestructor(c: Caller) {
    c.Locking? || c.Stopping? || c.Unlocking? || c.Notifying? || c.Joining?
  }

  predicate Good(v: Invocation) {
    && (v.mutex.ByWorker? <==> v.worker.Testing? || v.worker.Looking? || v.worker.Forwarding? || v.worker.Pausing?)
    && (v.mutex.ByCaller? <==> v.caller.Stopping? || v.caller.Unlocking?)
    && (v.stopped <==> v.caller.Unlocking? || v.caller.Notifying? || v.caller.Joining?
                       || ((v.caller.Closing? || v.caller.Done?) && !v.worker.Absent?))
    && (v.worker.Looking? || v.worker.Forwarding? ==> !v.stopped)
    && (v.worker.Exited? ==> v.stopped)
    && (!v.worker.Absent? && !v.worker.Exited? ==> v.link.Open?)
    && (v.caller.Closing? || v.caller.Done? ==> v.worker.Absent? || v.worker.Exited?)
    && (InDestructor(v.caller) ==> !v.worker.Absent?)
    && (v.caller.Entry? || v.caller.Connecting? ==> v.link.Unmade?)
    && (v.caller.Spawning? ==> v.link.Open? && v.worker.Absent?)
    && (v.caller.Beginning? || v.caller.Running? || v.caller.Finished? ==> v.link.Open?)
    && (v.link.Closed? ==> v.caller.Done?)
    && (v.link.Unmade? ==> v.worker.Absent?)
    && v.used <= Ids(v.link)
    && (v.caller.Running? || v.caller.Finished? ==> v.used == Ids(v.link))
    && (v.caller.Done? ==> !v.link.Open?)
    && (v.flag ==> !v.worker.Absent?)
  }

  lemma CallerKeepsGood(v: Invocation, outer: bool, id: nat, choice: Choice)
    requires Good(v) && CallerEnabled(v, choice)
    ensures Good(CallerNext(v, outer, id, choice))
  {
  }

  lemma WorkerKeepsGood(v: Invocation, outer: bool, timedOut: bool)
    requires Good(v) && WorkerEnabled(v)
    ensures Good(WorkerNext(v, outer, timedOut))
  {
  }

  ghost predicate AllGood(s: System) {
    && (forall i :: 0 <= i < |s.invocations| ==> Good(s.invocations[i]))
    && (forall i, id :: 0 <= i < |s.invocations| && id in Ids(s.invocations[i].link) ==> id < s.nextConnection)
    && (forall i, j, id :: 0 <= i < j < |s.invocations| && id in Ids(s.invocations[i].link)
                           ==> id !in Ids(s.invocations[j].link))
  }

  /** A step of one invocation that makes at most one connection, a new one, keeps the connections apart. */
  lemma ReplaceKeepsGood(s: System, i: nat, v: Invocation, next: nat)
    requires AllGood(s) && i < |s.invocations| && Good(v) && s.nextConnection <= next
    requires Ids(v.link) == Ids(s.invocations[i].link) || (Ids(v.link) == {s.nextConnection} && s.nextConnection < next)
    ensures AllGood(s.(invocations := s.invocations[i := v], nextConnection := next))
  {
  }

  lemma StepKeepsGood(s: System, l: Label)
    requires AllGood(s) && Enabled(s, l)
    ensures AllGood(Next(s, l))
  {
    hide Good;
    match l
    case CallerStep(i, choice) =>
      var v := CallerNext(s.invocations[i], OuterOf(s, i), s.nextConnection, choice);
      CallerKeepsGood(s.invocations[i], OuterOf(s, i), s.nextConnection, choice);
      CallerKeepsLink(s.invocations[i], OuterOf(s, i), s.nextConnection, choice);
      ReplaceKeepsGood(s, i, v, s.nextConnection + 1);
    case WorkerStep(i, timedOut) =>
      var v := WorkerNext(s.invocations[i], OuterOf(s, i), timedOut);
      WorkerKeepsGood(s.invocations[i], OuterOf(s, i), timedOut);
      ReplaceKeepsGood(s, i, v, s.nextConnection);
    case _ =>
  }

  lemma CallerKeepsLink(v: Invocation, outer: bool, id: nat, choice: Choice)
    requires Good(v) && CallerEnabled(v, choice)
    ensures var v' := CallerNext(v, outer, id, choice); Ids(v'.link) == Ids(v.link) || Ids(v'.link) == {id}
  {
  }

  /** Every state of every run satisfies the invariant. */
  lemma {:induction false} RunIsGood(states: seq<System>, labels: seq<Label>, k: nat)
    requires IsRun(states, labels) && AllGood(states[0]) && k < |states|
    ensures AllGood(states[k]) && |states[k].invocations| == |states[0].invocations|
    decreases k
  {
    if k > 0 {
      RunIsGood(states, labels, k - 1);
      StepKeepsGood(states[k - 1], labels[k - 1]);
    }
  }

  lemma InitialIsGood(s: System)
    requires Initial(s)
    ensures AllGood(s)
  {
  }

  // ---------- The connection of an invocation ----------

  /** All queries of one invocation run on its one connection, and no other invocation ever has it. */
  lemma OneConnectionEach(states: seq<System>, labels: seq<Label>, k: nat, i: nat, j: nat)
    requires IsRun(states, labels) && Initial(states[0]) && k < |states|
    requires i < |states[k].invocations| && j < |states[k].invocations|
    ensures forall a, b :: a in states[k].invocations[i].used && b in states[k].invocations[i].used ==> a == b
    ensures i != j ==> states[k].invocations[i].used !! states[k].invocations[j].used
    ensures states[k].invocations[i].caller.Running? ==>
              states[k].invocations[i].link.Open? && states[k].invocations[i].used == {states[k].invocations[i].link.id}
  {
    InitialIsGood(states[0]);
    RunIsGood(states, labels, k);
    var s := states[k];
    assert Good(s.invocations[i]) && Good(s.invocations[j]);
    assert s.invocations[i].used <= Ids(s.invocations[i].link);
    assert s.invocations[j].used <= Ids(s.invocations[j].link);
    if i != j {
      assert Ids(s.invocations[i].link) !! Ids(s.invocations[j].link);
    }
  }

  // ---------- Shutdown ----------

  /** `Interrupt()` is called only on a living connection and never once `stopped` is set. */
  lemma ForwardingIsSafe(states: seq<System>, labels: seq<Label>, k: nat, i: nat)
    requires IsRun(states, labels) && Initial(states[0]) && k < |labels|
    requires i < |states[k].invocations|
    requires labels[k].WorkerStep? && labels[k].i == i && states[k].invocations[i].worker.Forwarding?
    ensures states[k].invocations[i].link.Open? && !states[k].invocations[i].stopped
    ensures forall j :: 0 <= j <= k && i < |states[j].invocations| ==> !states[j].invocations[i].stopped
  {
    InitialIsGood(states[0]);
    RunIsGood(states, labels, k);
    assert Good(states[k].invocations[i]);
    forall j | 0 <= j <= k && i < |states[j].invocations|
      ensures !states[j].invocations[i].stopped
    {
      if states[j].invocations[i].stopped {
        StoppedForever(states, labels, j, k, i);
      }
    }
  }

  lemma {:induction false} StoppedForever(states: seq<System>, labels: seq<Label>, j: nat, k: nat, i: nat)
    requires IsRun(states, labels) && j <= k < |states|
    requires i < |states[j].invocations| && states[j].invocations[i].stopped
    ensures i < |states[k].invocations| && states[k].invocations[i].stopped
    decreases k
  {
    if j < k {
      StoppedForever(states, labels, j, k - 1, i);
      StepOf(states[k - 1], labels[k - 1], i);
    }
  }

  /** The connection is destroyed only when the forwarder has ended, or never existed; and at the end it is. */
  lemma ConnectionOutlivesForwarder(states: seq<System>, labels: seq<Label>, k: nat, i: nat)
    requires IsRun(states, labels) && Initial(states[0]) && k < |states| && i < |states[k].invocations|
    ensures states[k].invocations[i].link.Closed?
            ==> states[k].invocations[i].worker.Absent? || states[k].invocations[i].worker.Exited?
    ensures states[k].invocations[i].caller.Done? ==> !states[k].invocations[i].link.Open?
  {
    InitialIsGood(states[0]);
    RunIsGood(states, labels, k);
    assert Good(states[k].invocations[i]);
  }

  predicate IsWorkerStepOf(l: Label, i: nat) {
    l.WorkerStep? && l.i == i
  }

  /** A run up to where the first callback has made its connection, and a forwarder or not. */
  lemma FirstCallback(forwarder: bool) returns (states: seq<System>, labels: seq<Label>)
    ensures IsRun(states, labels) && Initial(states[0])
    ensures states[|labels|] == System([false],
      [FRESH.(caller := if forwarder then Beginning else Engine, worker := if forwarder then Starting else Absent, link := Open(3))], 5)
  {
    var go := CallerStep(0, Go(true));
    states, labels := [System([false], [FRESH], 0)], [];
    states, labels := Extend(states, labels, go);
    states, labels := Extend(states, labels, CallerStep(0, Call));
    states, labels := Extend(states, labels, go);
    states, labels := Extend(states, labels, go);
    states, labels := Extend(states, labels, CallerStep(0, Go(forwarder)));
  }

  /** A run goes on by any enabled step. */
  lemma Extend(states: seq<System>, labels: seq<Label>, l: Label) returns (states': seq<System>, labels': seq<Label>)
    requires IsRun(states, labels) && Enabled(states[|labels|], l)
    ensures IsRun(states', labels') && states <= states' && labels' == labels + [l]
    ensures states'[|labels'|] == Next(states[|labels|], l)
  {
    states', labels' := states + [Next(states[|labels|], l)], labels + [l];
  }

  /** What one step does to one invocation. */
  lemma StepOf(s: System, l: Label, i: nat)
    requires Enabled(s, l) && i < |s.invocations|
    ensures i < |Next(s, l).invocations|
    ensures var v, v' := s.invocations[i], Next(s, l).invocations[i];
      && v'.context == v.context
      && (IsWorkerStepOf(l, i) ==> WorkerEnabled(v) && v' == WorkerNext(v, OuterOf(s, i), l.timedOut))
      && (l.CallerStep? && l.i == i ==> CallerEnabled(v, l.choice) && v' == CallerNext(v, OuterOf(s, i), s.nextConnection, l.choice))
      && (!IsWorkerStepOf(l, i) && !(l.CallerStep? && l.i == i) ==> v' == v)
  {
  }

  // ---------- The outer flags ----------

  /** What last happened to an outer context before step `k`, or what it was at first. */
  function LastWord(labels: seq<Label>, k: nat, context: nat, initially: bool): bool
    requires k <= |labels|
  {
    if k == 0 then initially
    else if labels[k - 1] == Interrupt(context) then true
    else if labels[k - 1] == Rearm(context) then false
    else LastWord(labels, k - 1, context, initially)
  }

  /** An outer flag changes only when somebody interrupts its context or a new outer query clears it: no invocation does. */
  lemma {:induction false} OuterFollowsItsContext(states: seq<System>, labels: seq<Label>, k: nat, context: nat)
    requires IsRun(states, labels) && k < |states| && context < |states[0].outer|
    ensures |states[k].outer| == |states[0].outer|
    ensures states[k].outer[context] == LastWord(labels, k, context, states[0].outer[context])
    decreases k
  {
    if k > 0 {
      OuterFollowsItsContext(states, labels, k - 1, context);
      assert states[k] == Next(states[k - 1], labels[k - 1]);
    }
  }
}

/** What becomes of a stop request: when it is lost, and when the worker leaves. */
module WorkerStop {
  import opened WorkerQueue

  /** There is a run from one state to another in which the worker does not wake up for no reason. */
  ghost predicate Leads(s: State, r: State) {
    exists states: seq<State>, steps: seq<Step> ::
      Run(states, steps) && states[0] == s && states[|states| - 1] == r && SpuriousWake !in steps
  }

  lemma LeadsByStep(s: State, step: Step, r: State)
    requires Enabled(s, step) && step != SpuriousWake && Leads(Next(s, step), r)
    ensures Leads(s, r)
  {
    var states, steps :| Run(states, steps) && states[0] == Next(s, step) && states[|states| - 1] == r
                      && SpuriousWake !in steps;
    RunCons(s, step, states, steps);
    assert ([s] + states)[|states|] == r;
  }

  lemma LeadsItself(s: State)
    ensures Leads(s, s)
  {
    assert Run([s], []);
  }

  lemma {:induction false} RunConcat(states: seq<State>, steps: seq<Step>, states': seq<State>, steps': seq<Step>)
    requires Run(states, steps) && Run(states', steps') && states[|states| - 1] == states'[0]
    ensures Run(states[..|states| - 1] + states', steps + steps')
  {
    var all, more := states[..|states| - 1] + states', steps + steps';
    forall i: nat | i < |more|
      ensures Enabled(all[i], more[i]) && Next(all[i], more[i]) == all[i + 1]
    {
      if i < |steps| {
        assert all[i] == states[i] && all[i + 1] == states[i + 1] && more[i] == steps[i];
      } else {
        var j := i - |steps|;
        assert all[i] == states'[j] && all[i + 1] == states'[j + 1] && more[i] == steps'[j];
      }
    }
  }

  lemma LeadsTrans(s: State, q: State, r: State)
    requires Leads(s, q) && Leads(q, r)
    ensures Leads(s, r)
  {
    var states, steps :| Run(states, steps) && states[0] == s && states[|states| - 1] == q && SpuriousWake !in steps;
    var states', steps' :| Run(states', steps') && states'[0] == q && states'[|states'| - 1] == r
                        && SpuriousWake !in steps';
    RunConcat(states, steps, states', steps');
    var all := states[..|states| - 1] + states';
    assert all[|all| - 1] == r && all[0] == s;
    assert SpuriousWake !in steps + steps';
  }

  /** Steps, at most, before the lock is free. */
  function LockedFor(s: State): nat {
    if s.mutex != ByWorker then Holding(s.mutex)
    else if s.worker == Popping then if s.queue == [] then 2 else 1
    else if s.worker == Looping then 3
    else if s.queue == [] then 1 else 4
  }

  /** The lock comes free without a stop and before the worker is gone. */
  lemma {:induction false} LockComesFree(s: State) returns (r: State)
    requires Inv(s) && !s.stop && s.worker != Gone
    ensures Leads(s, r) && Inv(r) && r.mutex == Free && !r.stop && r.worker != Gone
    decreases LockedFor(s)
  {
    if s.mutex == Free {
      LeadsItself(s);
      r := s;
    } else {
      var step := if s.mutex == ByWorker then WorkerStep else Release(s.mutex);
      StepKeepsInv(s, step);
      r := LockComesFree(Next(s, step));
      LeadsByStep(s, step, r);
    }
  }

  /** Steps of a worker that finds no task and no stop, before it sleeps. */
  function AwakeFor(w: Worker): nat {
    match w
    case Running => 3
    case Returning => 2
    case Woken => 2
    case Entering => 3
    case Popping => 2
    case Looping => 3
    case Checking => 1
    case _ => 0
  }

  lemma {:induction false} FallsAsleep(s: State) returns (r: State)
    requires Inv(s) && !s.stop && s.worker != Gone && s.mutex in {Free, ByWorker} && s.queue == []
    ensures Leads(s, r) && r == s.(worker := Asleep, mutex := Free)
    decreases AwakeFor(s.worker)
  {
    if s.worker == Asleep {
      LeadsItself(s);
      r := s;
    } else {
      StepKeepsInv(s, WorkerStep);
      r := FallsAsleep(WorkerNext(s));
      LeadsByStep(s, WorkerStep, r);
    }
  }

  /** The steps of a stopper under the lock. */
  lemma StopperClears(s: State)
    requires Inv(s) && s.mutex == Free
    ensures var r := Cleared(s).(notifying := s.notifying + 1);
            Inv(r) && Leads(s, r)
  {
    var s1, s2 := s.(mutex := ByStopper(false)), Cleared(s).(mutex := ByStopper(true));
    StepKeepsInv(s, StopLock);
    StepKeepsInv(s1, Step.Clear);
    StepKeepsInv(s2, StopUnlock);
    LeadsItself(Cleared(s).(notifying := s.notifying + 1));
    LeadsByStep(s2, StopUnlock, Cleared(s).(notifying := s.notifying + 1));
    LeadsByStep(s1, Step.Clear, Cleared(s).(notifying := s.notifying + 1));
    LeadsByStep(s, StopLock, Cleared(s).(notifying := s.notifying + 1));
  }

  /** The steps of a stopper from the free lock up to its notification. */
  lemma StopperNotifies(s: State)
    requires Inv(s) && s.mutex == Free
    ensures var r := Cleared(s).(worker := Notify(s.worker), requesting := s.requesting + 1);
            Inv(r) && Leads(s, r)
  {
    var q := Cleared(s).(notifying := s.notifying + 1);
    var r := Cleared(s).(worker := Notify(s.worker), requesting := s.requesting + 1);
    StopperClears(s);
    StepKeepsInv(q, NotifyStop);
    LeadsItself(r);
    LeadsByStep(q, NotifyStop, r);
    LeadsTrans(s, q, r);
  }

  function Cleared(s: State): State {
    s.(queue := [], dropped := s.dropped + Range(Retired(s), |s.pushed|))
  }

  /** Stoppers that have yet to notify do so. */
  lemma {:induction false} NotifiersFinish(s: State) returns (r: State)
    requires Inv(s)
    ensures Leads(s, r) && Inv(r)
    ensures r == s.(worker := r.worker, notifying := 0, requesting := s.requesting + s.notifying)
    ensures r.worker == s.worker || (s.worker == Asleep && r.worker == Woken)
    decreases s.notifying
  {
    if s.notifying == 0 {
      LeadsItself(s);
      r := s;
    } else {
      StepKeepsInv(s, NotifyStop);
      r := NotifiersFinish(Next(s, NotifyStop));
      LeadsByStep(s, NotifyStop, r);
    }
  }

  /** Stoppers that have yet to set the flag do so. */
  lemma {:induction false} RequestersFinish(s: State) returns (r: State)
    ensures Leads(s, r) && r == s.(stop := s.stop || s.requesting > 0, requesting := 0)
    decreases s.requesting
  {
    if s.requesting == 0 {
      LeadsItself(s);
      r := s;
    } else {
      r := RequestersFinish(Next(s, RequestStop));
      LeadsByStep(s, RequestStop, r);
    }
  }

  /** From every state in which no stop has been requested and the worker has not left, a stop request may be lost:
      the flag is set, the worker sleeps, the queue is empty, nobody holds the lock and no stopper has anything left to
      do. The worker need not even have slept when the request came. */
  lemma StopLost(s: State) returns (r: State)
    requires Inv(s) && !s.stop && s.worker != Gone
    ensures Leads(s, r) && r.stop && r.worker == Asleep && r.queue == []
    ensures r.mutex == Free && r.notifying == 0 && r.requesting == 0
  {
    var free := LockComesFree(s);
    StopperNotifies(free);
    var notified := Cleared(free).(worker := Notify(free.worker), requesting := free.requesting + 1);
    var all := NotifiersFinish(notified);
    var asleep := FallsAsleep(all);
    r := RequestersFinish(asleep);
    LeadsTrans(all, asleep, r);
    LeadsTrans(notified, all, r);
    LeadsTrans(free, notified, r);
    LeadsTrans(s, free, r);
  }

  lemma {:induction false} GoneStays(states: seq<State>, steps: seq<Step>, i: nat)
    requires Run(states, steps) && i <= |steps| && states[0].worker == Gone
    ensures states[i].worker == Gone
  {
    if i > 0 {
      GoneStays(states, steps, i - 1);
      assert Next(states[i - 1], steps[i - 1]) == states[i];
    }
  }

  /** The worker is awake, or a notification is on its way: from a stopper, or from an enqueuer under the lock. */
  predicate Coming(s: State) {
    || s.worker != Asleep
    || s.notifying > 0
    || s.mutex.ByStopper?
    || (s.mutex.ByEnqueuer? && s.mutex.stage != Notified)
  }

  /** The stop is lost: the flag is set, the worker sleeps, and no notification is on its way. */
  predicate Lost(s: State) {
    s.stop && !Coming(s)
  }

  /** The steps by which threads that are already under way go on, stoppers included: no new enqueue, no new stop and
      no spurious wake-up. */
  predicate UnderWay(step: Step) {
    !step.Lock? && step != StopLock && step != SpuriousWake
  }

  /** With the flag set, what is coming stays so in every step. */
  lemma ComingStays(s: State, step: Step)
    requires s.stop && Coming(s) && Enabled(s, step)
    ensures Next(s, step).stop && Coming(Next(s, step))
  {
  }

  lemma {:induction false} ComingRun(states: seq<State>, steps: seq<Step>, i: nat)
    requires Run(states, steps) && i <= |steps| && states[0].stop && Coming(states[0])
    ensures states[i].stop && Coming(states[i])
  {
    if i > 0 {
      ComingRun(states, steps, i - 1);
      assert Next(states[i - 1], steps[i - 1]) == states[i];
      ComingStays(states[i - 1], steps[i - 1]);
    }
  }

  /** A lost stop stays lost, and the worker asleep, until there is a new enqueue, a new stop or a spurious wake-up. */
  lemma {:induction false} LostRun(states: seq<State>, steps: seq<Step>, i: nat)
    requires Run(states, steps) && i <= |steps| && Lost(states[0])
    requires forall j: nat :: j < |steps| ==> UnderWay(steps[j])
    ensures Lost(states[i]) && states[i].worker == Asleep
  {
    if i > 0 {
      LostRun(states, steps, i - 1);
      assert Next(states[i - 1], steps[i - 1]) == states[i] && UnderWay(steps[i - 1]);
    }
  }

  ghost predicate UnderWayRun(s: State, states: seq<State>, steps: seq<Step>) {
    Run(states, steps) && states[0] == s && forall i: nat :: i < |steps| ==> UnderWay(steps[i])
  }

  /** A worker that is awake, or will be notified, can leave if only those go on that are under way. */
  lemma {:induction false} ComingLeaves(s: State) returns (states: seq<State>, steps: seq<Step>)
    requires Inv(s) && s.stop && Coming(s)
    ensures UnderWayRun(s, states, steps) && states[|states| - 1].worker == Gone
    decreases if s.worker == Asleep then 1 else 0, if s.notifying > 0 then 0 else 1, Holding(s.mutex)
  {
    if s.worker != Asleep {
      states, steps := CanLeave(s);
    } else {
      var step := if s.notifying > 0 then NotifyStop else Release(s.mutex);
      StepKeepsInv(s, step);
      ComingStays(s, step);
      states, steps := ComingLeaves(Next(s, step));
      RunCons(s, step, states, steps);
      states, steps := [s] + states, [step] + steps;
    }
  }

  /** Once the flag is set, the worker can leave without a new enqueue, a new stop or a spurious wake-up if and only if
      it is awake or a notification is on its way. */
  lemma LeavesIff(s: State)
    requires Inv(s) && s.stop
    ensures Coming(s) <==>
            exists states: seq<State>, steps: seq<Step> ::
              UnderWayRun(s, states, steps) && states[|steps|].worker == Gone
  {
    if Coming(s) {
      var states, steps := ComingLeaves(s);
      assert UnderWayRun(s, states, steps) && states[|steps|].worker == Gone;
    } else {
      forall states: seq<State>, steps: seq<Step> | UnderWayRun(s, states, steps)
        ensures states[|steps|].worker != Gone
      {
        LostRun(states, steps, |steps|);
      }
    }
  }

  /** A stop can still be lost if and only if the worker has not left and, if the flag is set, it sleeps with no
      notification on its way. In the other states no run at all leads to the loss, in these one does without any
      spurious wake-up. */
  lemma StopTakesIff(s: State)
    requires Inv(s)
    ensures (exists r :: Leads(s, r) && Lost(r)) <==> s.worker != Gone && (s.stop ==> !Coming(s))
    ensures s.worker == Gone || (s.stop && Coming(s)) ==>
              forall states: seq<State>, steps: seq<Step> :: Run(states, steps) && states[0] == s ==>
                !Lost(states[|steps|])
  {
    if s.worker != Gone && (s.stop ==> !Coming(s)) {
      if s.stop {
        LeadsItself(s);
      } else {
        var r := StopLost(s);
        assert Lost(r);
      }
    } else {
      forall states: seq<State>, steps: seq<Step> | Run(states, steps) && states[0] == s
        ensures !Lost(states[|steps|])
      {
        if s.worker == Gone {
          GoneStays(states, steps, |steps|);
        } else {
          ComingRun(states, steps, |steps|);
        }
      }
    }
  }
}

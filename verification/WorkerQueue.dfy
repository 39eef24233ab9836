/** The worker queue: one worker, any number of enqueuers and stoppers, one mutex, one condition variable and a
    stop flag, as interleaved steps. */
module WorkerQueue {

  type Task = nat

  /** Where the worker stands in `after_execution_protected`. */
  datatype Worker =
    | Entering          // about to take the lock for the first time
    | Popping           // holds the lock, at the head of the loop
    | Running           // has let go of the lock to run a task
    | Returning         // the task is done, about to take the lock again
    | Checking          // holds the lock, about to test the predicate of the wait
    | Asleep            // waits on the condition variable, without the lock
    | Woken             // notified, or awake for no reason, about to take the lock
    | Looping           // holds the lock, about to test the loop condition
    | Gone              // has left the loop

  /** How far the enqueuer that holds the lock has come. */
  datatype Stage = Entered | Pushed | Notified

  /** Who holds the mutex; a stopper has cleared the queue or not. */
  datatype Mutex = Free | ByWorker | ByEnqueuer(task: Task, stage: Stage) | ByStopper(cleared: bool)

  /** The shared state, and the history: all tasks that were pushed, in order, and what became of those that have
      left the queue, by their numbers. `notifying` and `requesting` count the stoppers that have released the lock
      but have yet to notify, and to set the flag. */
  datatype State = State(
    queue: seq<Task>, mutex: Mutex, worker: Worker, stop: bool, notifying: nat, requesting: nat,
    pushed: seq<Task>, started: seq<int>, dropped: set<int>)

  const START := State([], Free, Entering, false, 0, 0, [], [], {})

  datatype Step =
    | WorkerStep
    | SpuriousWake
    | Lock(task: Task)
    | Push
    | NotifyPushed
    | Unlock
    | StopLock
    | Clear
    | StopUnlock
    | NotifyStop
    | RequestStop

  /** How many tasks have left the queue. */
  function Retired(s: State): int {
    |s.pushed| - |s.queue|
  }

  function Range(low: int, high: int): (r: set<int>)
    ensures forall n: int :: n in r <==> low <= n < high
    decreases high - low
  {
    if low >= high then {} else {low} + Range(low + 1, high)
  }

  function Notify(w: Worker): Worker {
    if w == Asleep then Woken else w
  }

  predicate Enabled(s: State, step: Step) {
    match step
    case WorkerStep => WorkerEnabled(s)
    case SpuriousWake => s.worker == Asleep
    case Lock(_) => s.mutex == Free
    case Push => s.mutex.ByEnqueuer? && s.mutex.stage == Entered
    case NotifyPushed => s.mutex.ByEnqueuer? && s.mutex.stage == Pushed
    case Unlock => s.mutex.ByEnqueuer? && s.mutex.stage == Notified
    case StopLock => s.mutex == Free
    case Clear => s.mutex == ByStopper(false)
    case StopUnlock => s.mutex == ByStopper(true)
    case NotifyStop => s.notifying > 0
    case RequestStop => s.requesting > 0
  }

  predicate WorkerEnabled(s: State) {
    match s.worker
    case Entering | Returning | Woken => s.mutex == Free
    case Popping | Checking | Looping => s.mutex == ByWorker
    case Running => true
    case Asleep | Gone => false
  }

  /** One step of the worker. The history gains the number of the task that starts. */
  function WorkerNext(s: State): State
    requires WorkerEnabled(s)
  {
    match s.worker
    case Entering => s.(worker := Popping, mutex := ByWorker)
    case Popping =>
      if s.queue != []
      then s.(worker := Running, mutex := Free, queue := s.queue[1..], started := s.started + [Retired(s)])
      else s.(worker := Checking)
    case Running => s.(worker := Returning)
    case Returning => s.(worker := Checking, mutex := ByWorker)
    case Checking =>
      if s.queue != [] || s.stop then s.(worker := Looping) else s.(worker := Asleep, mutex := Free)
    case Woken => s.(worker := Checking, mutex := ByWorker)
    case Looping => if s.stop then s.(worker := Gone, mutex := Free) else s.(worker := Popping)
    case _ => s
  }

  function Next(s: State, step: Step): State
    requires Enabled(s, step)
  {
    match step
    case WorkerStep => WorkerNext(s)
    case SpuriousWake => s.(worker := Woken)
    case Lock(task) => s.(mutex := ByEnqueuer(task, Entered))
    case Push =>
      s.(queue := s.queue + [s.mutex.task], pushed := s.pushed + [s.mutex.task], mutex := s.mutex.(stage := Pushed))
    case NotifyPushed => s.(worker := Notify(s.worker), mutex := s.mutex.(stage := Notified))
    case Unlock => s.(mutex := Free)
    case StopLock => s.(mutex := ByStopper(false))
    case Clear =>
      s.(queue := [], mutex := ByStopper(true), dropped := s.dropped + Range(Retired(s), |s.pushed|))
    case StopUnlock => s.(mutex := Free, notifying := s.notifying + 1)
    case NotifyStop => s.(worker := Notify(s.worker), notifying := s.notifying - 1, requesting := s.requesting + 1)
    case RequestStop => s.(stop := true, requesting := s.requesting - 1)
  }

  ghost predicate Rising(ns: seq<int>) {
    forall i: nat, j: nat :: i < j < |ns| ==> ns[i] < ns[j]
  }

  /** The queue is the end of what was pushed, and each task before it has either started or been dropped. Tasks
      start in the order in which they were pushed. */
  ghost predicate Conserved(s: State) {
    && |s.queue| <= |s.pushed| && s.queue == s.pushed[Retired(s)..]
    && Rising(s.started)
    && (forall n: int :: n in s.started || n in s.dropped <==> 0 <= n < Retired(s))
    && (forall n: int :: !(n in s.started && n in s.dropped))
  }

  /** The worker holds the lock exactly where it should. */
  ghost predicate Locked(s: State) {
    s.worker in {Popping, Checking, Looping} <==> s.mutex == ByWorker
  }

  /** A worker that sleeps with a task in the queue has a notification coming from the enqueuer under the lock. */
  ghost predicate NoLostWake(s: State) {
    s.worker == Asleep && s.queue != [] ==> s.mutex.ByEnqueuer? && s.mutex.stage == Pushed
  }

  ghost predicate Inv(s: State) {
    Conserved(s) && Locked(s) && NoLostWake(s)
  }

  lemma StepConserves(s: State, step: Step)
    requires Conserved(s) && Enabled(s, step)
    ensures Conserved(Next(s, step))
  {
    match step
    case Push =>
      PushKeeps(s, s.mutex.task);
      SameHistory(s.(queue := s.queue + [s.mutex.task], pushed := s.pushed + [s.mutex.task]), Next(s, step));
    case Clear =>
      ClearKeeps(s);
      SameHistory(s.(queue := [], dropped := s.dropped + Range(Retired(s), |s.pushed|)), Next(s, step));
    case WorkerStep =>
      if s.worker == Popping && s.queue != [] {
        StartKeeps(s);
        SameHistory(s.(queue := s.queue[1..], started := s.started + [Retired(s)]), Next(s, step));
      } else {
        SameHistory(s, Next(s, step));
      }
    case _ => SameHistory(s, Next(s, step));
  }

  lemma StepKeepsInv(s: State, step: Step)
    requires Inv(s) && Enabled(s, step)
    ensures Inv(Next(s, step))
  {
    StepConserves(s, step);
  }

  /** A run: each state comes from the one before it by an enabled step. */
  ghost predicate Run(states: seq<State>, steps: seq<Step>) {
    |states| == |steps| + 1 &&
    forall i: nat :: i < |steps| ==> Enabled(states[i], steps[i]) && Next(states[i], steps[i]) == states[i + 1]
  }

  /** In every run, from its beginning to its end: each pushed task is pending, started or dropped, and only one of
      them; tasks start in order; and no wake-up is lost. */
  lemma {:induction false} RunKeepsInv(states: seq<State>, steps: seq<Step>, i: nat)
    requires Run(states, steps) && Inv(states[0]) && i < |states|
    ensures Inv(states[i])
  {
    if i > 0 {
      RunKeepsInv(states, steps, i - 1);
      assert Next(states[i - 1], steps[i - 1]) == states[i];
      StepKeepsInv(states[i - 1], steps[i - 1]);
    }
  }

  /** Each pushed task has exactly one fate. */
  lemma ExactlyOneFate(s: State, n: nat)
    requires Inv(s) && n < |s.pushed|
    ensures var pending, started, dropped := n >= Retired(s), n in s.started, n in s.dropped;
            && (pending || started || dropped)
            && !(pending && started) && !(pending && dropped) && !(started && dropped)
    ensures n >= Retired(s) ==> s.queue[n - Retired(s)] == s.pushed[n]
  {
  }

  /** Tasks the worker may still start once the stop flag is set. */
  function MayStart(w: Worker): nat {
    if w == Entering || w == Popping then 1 else 0
  }

  /** Steps the worker is at most away from leaving the loop, once the stop flag is set. */
  function Rank(w: Worker): nat {
    match w
    case Entering => 7
    case Popping => 6
    case Running => 5
    case Returning => 4
    case Woken => 3
    case Asleep => 3
    case Checking => 2
    case Looping => 1
    case Gone => 0
  }

  /** In every run, at most one more task starts once the flag is set. */
  lemma {:induction false} AtMostOneMore(states: seq<State>, steps: seq<Step>, i: nat)
    requires Run(states, steps) && i <= |steps| && states[0].stop
    ensures states[i].stop
    ensures |states[i].started| + MayStart(states[i].worker) <= |states[0].started| + MayStart(states[0].worker)
    ensures |states[i].started| <= |states[0].started| + 1
  {
    if i > 0 {
      AtMostOneMore(states, steps, i - 1);
      assert Next(states[i - 1], steps[i - 1]) == states[i];
      StoppedStarts(states[i - 1], steps[i - 1]);
    }
  }

  function WorkerSteps(steps: seq<Step>): (n: nat) {
    if steps == [] then 0
    else WorkerSteps(steps[..|steps| - 1]) + if steps[|steps| - 1] == WorkerStep then 1 else 0
  }

  /** A worker that is awake when the flag is set never sleeps again, and every one of its steps brings it nearer to
      the exit. */
  lemma {:induction false} StoppedRun(states: seq<State>, steps: seq<Step>, i: nat)
    requires Run(states, steps) && i <= |steps| && states[0].stop && states[0].worker != Asleep
    ensures states[i].stop && states[i].worker != Asleep
    ensures Rank(states[i].worker) + WorkerSteps(steps[..i]) <= Rank(states[0].worker)
  {
    if i > 0 {
      StoppedRun(states, steps, i - 1);
      assert Next(states[i - 1], steps[i - 1]) == states[i];
      StoppedStep(states[i - 1], steps[i - 1]);
      assert steps[..i][..i - 1] == steps[..i - 1];
    }
  }

  /** Steps the holder of the lock is away from releasing it, if it is not the worker. */
  function Holding(m: Mutex): nat {
    match m
    case ByEnqueuer(_, Entered) => 3
    case ByEnqueuer(_, Pushed) => 2
    case ByEnqueuer(_, Notified) => 1
    case ByStopper(cleared) => if cleared then 1 else 2
    case _ => 0
  }

  function Release(m: Mutex): Step {
    match m
    case ByEnqueuer(_, Entered) => Push
    case ByEnqueuer(_, Pushed) => NotifyPushed
    case ByEnqueuer(_, Notified) => Unlock
    case ByStopper(false) => Clear
    case _ => StopUnlock
  }

  /** Nobody is stuck: an awake worker can take its step, or somebody else is on the way to releasing the lock. */
  lemma AwakeProgress(s: State)
    requires Inv(s) && s.worker != Asleep && s.worker != Gone && !WorkerEnabled(s)
    ensures Enabled(s, Release(s.mutex))
    ensures Next(s, Release(s.mutex)).worker == s.worker
    ensures Holding(Next(s, Release(s.mutex)).mutex) < Holding(s.mutex)
  {
  }

  /** The steps by which threads that are already under way go on, without a new enqueue or stop. */
  predicate Own(step: Step) {
    step in {WorkerStep, Push, NotifyPushed, Unlock, Clear, StopUnlock}
  }

  ghost predicate OwnRun(s: State, states: seq<State>, steps: seq<Step>) {
    Run(states, steps) && states[0] == s && forall i: nat :: i < |steps| ==> Own(steps[i])
  }

  /** The step that is due: the worker's if it can move, and otherwise that of the thread which holds the lock. */
  function DueStep(s: State): Step {
    if WorkerEnabled(s) then WorkerStep else Release(s.mutex)
  }

  /** No deadlock: from every state in which the flag is set and the worker awake it can still leave, if only those
      go on that are under way. */
  lemma {:induction false} CanLeave(s: State) returns (states: seq<State>, steps: seq<Step>)
    requires Inv(s) && s.stop && s.worker != Asleep
    ensures OwnRun(s, states, steps) && states[|states| - 1].worker == Gone
    decreases Rank(s.worker), Holding(s.mutex)
  {
    if s.worker == Gone {
      states, steps := [s], [];
    } else {
      var step := DueStep(s);
      StepKeepsInv(s, step);
      StoppedStep(s, step);
      states, steps := CanLeave(Next(s, step));
      RunCons(s, step, states, steps);
      states, steps := [s] + states, [step] + steps;
    }
  }

  /** Steps of the worker, at most, before it takes the next task out of the queue. */
  function Distance(w: Worker): nat {
    match w
    case Asleep => 6
    case Running => 5
    case Returning => 4
    case Woken => 4
    case Checking => 3
    case Looping => 2
    case Entering => 2
    case Popping => 1
    case Gone => 0
  }

  /** No enqueue is lost: from every state with a task in the queue, its first task can still be started if only those
      go on that are under way, or is dropped if one of them is a stopper that has yet to clear the queue. */
  lemma {:induction false} HeadIsTaken(s: State) returns (states: seq<State>, steps: seq<Step>)
    requires Inv(s) && !s.stop && s.worker != Gone && s.queue != []
    ensures OwnRun(s, states, steps)
    ensures var r := states[|states| - 1];
            Retired(s) in r.started || (s.mutex == ByStopper(false) && Retired(s) in r.dropped)
    decreases Distance(s.worker), Holding(s.mutex)
  {
    var step := DueStep(s);
    CloserToHead(s);
    StepKeepsInv(s, step);
    var r := Next(s, step);
    states, steps := [r], [];
    if Retired(r) == Retired(s) {
      states, steps := HeadIsTaken(r);
    }
    RunCons(s, step, states, steps);
    states, steps := [s] + states, [step] + steps;
  }

  lemma {:induction false} RetiredRun(states: seq<State>, steps: seq<Step>, i: nat)
    requires Run(states, steps) && Inv(states[0]) && i <= |steps|
    ensures Inv(states[i]) && Retired(states[0]) <= Retired(states[i])
  {
    RunKeepsInv(states, steps, i);
    if i > 0 {
      RetiredRun(states, steps, i - 1);
      NotFurther(states[i - 1], steps[i - 1], states[i]);
    }
  }

  /** In every run, as long as there is no stop and the first task has not been taken, the worker takes fewer steps than
      its distance from the head, which is six at most. */
  lemma {:induction false} HeadIsNear(states: seq<State>, steps: seq<Step>, i: nat)
    requires Run(states, steps) && Inv(states[0]) && i <= |steps|
    requires states[0].worker != Gone && states[0].queue != []
    requires !states[i].stop && Retired(states[i]) == Retired(states[0])
    ensures states[i].worker != Gone && states[i].queue != []
    ensures 0 < Distance(states[i].worker)
    ensures Distance(states[i].worker) + WorkerSteps(steps[..i]) <= Distance(states[0].worker) <= 6
  {
    if i > 0 {
      RetiredRun(states, steps, i - 1);
      NotFurther(states[i - 1], steps[i - 1], states[i]);
      HeadIsNear(states, steps, i - 1);
      StepsOneMore(steps, i);
    }
  }

  lemma StepsOneMore(steps: seq<Step>, i: nat)
    ensures 0 < i <= |steps| ==>
              WorkerSteps(steps[..i]) == WorkerSteps(steps[..i - 1]) + if steps[i - 1] == WorkerStep then 1 else 0
  {
    if 0 < i <= |steps| {
      assert steps[..i][..i - 1] == steps[..i - 1];
    }
  }

  /** What can be reached from the start in a number of steps. */
  ghost predicate ReachedIn(s: State, n: nat)
    decreases n
  {
    if n == 0 then s == START
    else exists q: State, step: Step :: ReachedIn(q, n - 1) && Enabled(q, step) && s == Next(q, step)
  }

  ghost predicate Reached(s: State) {
    exists n: nat :: ReachedIn(s, n)
  }

  lemma {:induction false} RunReaches(states: seq<State>, steps: seq<Step>, i: nat)
    requires Run(states, steps) && states[0] == START && i < |states|
    ensures ReachedIn(states[i], i)
  {
    if i > 0 {
      RunReaches(states, steps, i - 1);
      assert Enabled(states[i - 1], steps[i - 1]) && Next(states[i - 1], steps[i - 1]) == states[i];
    }
  }

  lemma {:induction false} ReachedInKeepsInv(s: State, n: nat)
    requires ReachedIn(s, n)
    ensures Inv(s)
    decreases n
  {
    if n == 0 {
      assert Inv(START);
    } else {
      var q, step :| ReachedIn(q, n - 1) && Enabled(q, step) && s == Next(q, step);
      ReachedInKeepsInv(q, n - 1);
      InvAfter(q, step, s);
    }
  }

  /** The invariant holds in every reachable state, and so in every state of every run from the start. */
  lemma ReachedKeepsInv(s: State)
    requires Reached(s)
    ensures Inv(s)
  {
    var n: nat :| ReachedIn(s, n);
    ReachedInKeepsInv(s, n);
  }

  // single steps, on which the proofs above rest

  lemma StartKeeps(s: State)
    requires Conserved(s) && s.queue != []
    ensures Conserved(s.(queue := s.queue[1..], started := s.started + [Retired(s)]))
  {
    var r := s.(queue := s.queue[1..], started := s.started + [Retired(s)]);
    forall n: int
      ensures n in r.started || n in r.dropped <==> 0 <= n < Retired(r)
      ensures !(n in r.started && n in r.dropped)
    {
      assert n in r.started <==> n in s.started || n == Retired(s);
    }
    forall i: nat, j: nat | i < j < |r.started|
      ensures r.started[i] < r.started[j]
    {
      if j == |s.started| {
        assert s.started[i] in s.started;
      }
    }
  }

  lemma ClearKeeps(s: State)
    ensures Conserved(s) ==> Conserved(s.(queue := [], dropped := s.dropped + Range(Retired(s), |s.pushed|)))
  {
  }

  lemma PushKeeps(s: State, task: Task)
    ensures Conserved(s) ==> Conserved(s.(queue := s.queue + [task], pushed := s.pushed + [task]))
  {
  }

  /** What the other steps leave alone. */
  lemma SameHistory(s: State, r: State)
    requires Conserved(s) && r.queue == s.queue && r.pushed == s.pushed
    requires r.started == s.started && r.dropped == s.dropped
    ensures Conserved(r)
  {
  }

  /** With the flag set, no step raises the number of tasks that have started or may start. */
  lemma StoppedStarts(s: State, step: Step)
    requires s.stop && Enabled(s, step)
    ensures var r := Next(s, step);
            r.stop && |r.started| + MayStart(r.worker) <= |s.started| + MayStart(s.worker)
  {
  }

  lemma StoppedStep(s: State, step: Step)
    requires s.stop && s.worker != Asleep && Enabled(s, step)
    ensures var r := Next(s, step);
            && r.stop && r.worker != Asleep && Rank(r.worker) <= Rank(s.worker)
            && (step == WorkerStep ==> Rank(r.worker) < Rank(s.worker))
  {
  }

  lemma RunCons(s: State, step: Step, states: seq<State>, steps: seq<Step>)
    requires Run(states, steps) && Enabled(s, step) && states[0] == Next(s, step)
    ensures Run([s] + states, [step] + steps)
  {
    var states', steps' := [s] + states, [step] + steps;
    forall i: nat | i < |steps'|
      ensures Enabled(states'[i], steps'[i]) && Next(states'[i], steps'[i]) == states'[i + 1]
    {
      if i > 0 {
        assert states'[i] == states[i - 1] && steps'[i] == steps[i - 1] && states'[i + 1] == states[i];
      }
    }
  }

  lemma CloserToHead(s: State)
    requires Inv(s) && !s.stop && s.worker != Gone && s.queue != []
    ensures var step := DueStep(s);
            && Enabled(s, step) && Own(step)
            && var r := Next(s, step);
               && !r.stop && r.worker != Gone && Retired(r) >= Retired(s)
               && (r.mutex == ByStopper(false) ==> s.mutex == ByStopper(false))
               && (Retired(r) == Retired(s) ==>
                     && r.queue != []
                     && (Distance(r.worker) < Distance(s.worker)
                         || (Distance(r.worker) == Distance(s.worker) && Holding(r.mutex) < Holding(s.mutex))))
               && (Retired(r) > Retired(s) ==>
                     if s.mutex == ByStopper(false) then Retired(s) in r.dropped else Retired(s) in r.started)
  {
  }

  /** Whoever moves, the worker gets no further away from the head of the queue, and nearer with its own steps. */
  lemma NotFurther(s: State, step: Step, r: State)
    requires Inv(s) && Enabled(s, step) && r == Next(s, step)
    ensures Retired(s) <= Retired(r) && (s.stop ==> r.stop)
    ensures s.worker != Gone && s.queue != [] && !r.stop && Retired(r) == Retired(s) ==>
              && r.worker != Gone && r.queue != []
              && Distance(r.worker) + (if step == WorkerStep then 1 else 0) <= Distance(s.worker)
  {
  }

  lemma InvAfter(q: State, step: Step, s: State)
    ensures Inv(q) && Enabled(q, step) && s == Next(q, step) ==> Inv(s)
  {
    if Inv(q) && Enabled(q, step) {
      StepKeepsInv(q, step);
    }
  }
}

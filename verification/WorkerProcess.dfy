/** The procedures of the worker queue, as its threads run them while others go on. */
module WorkerProcess {
  import opened WorkerQueue

  /** What never goes back: the log only grows, and the flag stays. */
  ghost predicate Later(s: State, r: State) {
    && s.pushed <= r.pushed
    && s.started <= r.started
    && s.dropped <= r.dropped
    && Retired(s) <= Retired(r)
    && (s.stop ==> r.stop)
  }

  /** What the threads use of the invariant. */
  ghost predicate Orderly(s: State) {
    Locked(s) && NoLostWake(s) && |s.queue| <= |s.pushed|
  }

  lemma StepReached(s: State, step: Step, r: State)
    requires Reached(s) && Enabled(s, step) && r == Next(s, step)
    ensures Reached(r) && Orderly(r) && Later(s, r)
  {
    var n: nat :| ReachedIn(s, n);
    assert ReachedIn(r, n + 1);
    ReachedInKeepsInv(s, n);
    StepKeepsInv(s, step);
  }

  /** What a thread is in the middle of while others go on: waiting for the lock, holding it, having yet to notify or
      to set the flag, or being the worker. */
  datatype Me = Waiting | Holds | Notifying | Requesting | TheWorker

  /** Steps that another thread can take then. */
  predicate Foreign(s: State, me: Me, step: Step) {
    match me
    case Waiting => true
    case Holds => step !in {Push, NotifyPushed, Unlock, Clear, StopUnlock}
    case Notifying => step == NotifyStop ==> s.notifying > 1
    case Requesting => step == RequestStop ==> s.requesting > 1
    case TheWorker => step != WorkerStep
  }

  /** What a thread can rely on while others go on. */
  ghost predicate Kept(me: Me, s: State, r: State) {
    Later(s, r) &&
    match me
    case Waiting => true
    case Holds =>
      s.mutex.ByEnqueuer? || s.mutex.ByStopper? ==>
        && r.mutex == s.mutex && r.queue == s.queue && r.pushed == s.pushed && r.started == s.started
        && r.dropped == s.dropped && (s.worker != Asleep ==> r.worker != Asleep)
    case Notifying => s.notifying > 0 ==> r.notifying > 0
    case Requesting => s.requesting > 0 ==> r.requesting > 0
    case TheWorker =>
      && (r.worker == s.worker || (s.worker == Asleep && r.worker == Woken)) && r.started == s.started
      && (s.mutex == ByWorker ==> r.mutex == s.mutex && r.queue == s.queue && r.pushed == s.pushed)
  }

  lemma ForeignKeeps(me: Me, s: State, step: Step)
    requires Reached(s) && Enabled(s, step) && Foreign(s, me, step)
    ensures Kept(me, s, Next(s, step))
  {
    ReachedKeepsInv(s);
    StepReached(s, step, Next(s, step));
  }

  /** The tasks with the given numbers. */
  function TasksAt(pushed: seq<Task>, numbers: seq<int>): (tasks: seq<Task>)
    requires forall i: nat :: i < |numbers| ==> 0 <= numbers[i] < |pushed|
  {
    seq(|numbers|, i requires 0 <= i < |numbers| => pushed[numbers[i]])
  }

  /** The tasks that have started since the first `n`. */
  ghost function StartedSince(s: State, n: nat): (tasks: seq<Task>)
    requires Reached(s) && n <= |s.started|
  {
    LogIsComplete(s);
    TasksAt(s.pushed, s.started[n..])
  }

  /** What has started was pushed, and what has left the queue has started or been dropped. */
  lemma LogIsComplete(s: State)
    ensures Reached(s) ==> forall n: int :: 0 <= n < Retired(s) ==> n in s.started || n in s.dropped
    ensures Reached(s) ==> forall i: nat :: i < |s.started| ==> 0 <= s.started[i] < |s.pushed|
  {
    if Reached(s) {
      ReachedKeepsInv(s);
      forall i: nat | i < |s.started|
        ensures 0 <= s.started[i] < |s.pushed|
      {
        assert s.started[i] in s.started;
      }
    }
  }

  lemma SinceGrows(s: State, r: State, n: nat)
    requires Reached(s) && Reached(r) && n <= |s.started| && s.pushed <= r.pushed
    ensures r.started == s.started ==> StartedSince(r, n) == StartedSince(s, n)
    ensures s.queue != [] && r.started == s.started + [Retired(s)] ==>
              StartedSince(r, n) == StartedSince(s, n) + [s.queue[0]]
  {
    LogIsComplete(s);
    LogIsComplete(r);
    ReachedKeepsInv(s);
    if s.queue != [] && r.started == s.started + [Retired(s)] {
      assert r.started[n..] == s.started[n..] + [Retired(s)];
    }
  }

  /** `AbstractQueuableProcess`. Its procedures are written out as the threads run them, and between any two of their
      steps other threads may go on: `ahead` lists what the others are going to do, and how much of it comes in
      between is open. */
  class QueuableProcess {
    var queue: seq<Task>
    var mutex: Mutex
    var worker: Worker
    var stop: bool
    var notifying: nat
    var requesting: nat

    // the log: what was pushed, and the numbers of the tasks that have started and of those that were dropped
    var pushed: seq<Task>
    var started: seq<int>
    var dropped: set<int>

    var ahead: seq<Step>

    constructor (ahead: seq<Step>)
      ensures Valid() && Now() == START
    {
      queue, mutex, worker, stop := [], Free, Entering, false;
      notifying, requesting := 0, 0;
      pushed, started, dropped := [], [], {};
      this.ahead := ahead;
      new;
      assert ReachedIn(START, 0);
    }

    function Now(): State
      reads this
    {
      State(queue, mutex, worker, stop, notifying, requesting, pushed, started, dropped)
    }

    ghost predicate Valid()
      reads this
    {
      Reached(Now()) && Orderly(Now())
    }

    method Become(r: State)
      modifies this
      ensures Now() == r && ahead == old(ahead)
    {
      queue, mutex, worker, stop := r.queue, r.mutex, r.worker, r.stop;
      notifying, requesting := r.notifying, r.requesting;
      pushed, started, dropped := r.pushed, r.started, r.dropped;
    }

    /** One step of another thread, unless it cannot be taken now. */
    method Other(me: Me)
      requires Valid() && ahead != []
      modifies this
      ensures Valid() && Kept(me, old(Now()), Now()) && |ahead| == |old(ahead)| - 1
    {
      var step := ahead[0];
      ahead := ahead[1..];
      if Enabled(Now(), step) && Foreign(Now(), me, step) {
        ForeignKeeps(me, Now(), step);
        StepReached(Now(), step, Next(Now(), step));
        Become(Next(Now(), step));
      }
    }

    /** Others go on for a while. */
    method Others(me: Me)
      requires Valid()
      modifies this
      ensures Valid() && Kept(me, old(Now()), Now())
      ensures |ahead| < |old(ahead)| || (ahead == old(ahead) && Now() == old(Now()))
    {
      var n: nat :| n <= |ahead|;
      for i := 0 to n
        invariant Valid() && Kept(me, old(Now()), Now()) && |ahead| == |old(ahead)| - i
        invariant i == 0 ==> ahead == old(ahead) && Now() == old(Now())
      {
        Other(me);
      }
    }

    /** Waits for the lock, and in vain if it is held when the others have come to their end. */
    method AwaitFree(me: Me) returns (free: bool)
      requires Valid()
      modifies this
      ensures Valid() && Kept(me, old(Now()), Now())
      ensures |ahead| < |old(ahead)| || (ahead == old(ahead) && Now() == old(Now()))
      ensures free <==> mutex == Free
      ensures !free ==> ahead == []
    {
      Others(me);
      while mutex != Free && ahead != []
        invariant Valid() && Kept(me, old(Now()), Now())
        invariant |ahead| < |old(ahead)| || (ahead == old(ahead) && Now() == old(Now()))
        decreases |ahead|
      {
        Other(me);
      }
      free := mutex == Free;
    }

    /** `enqueue`, once it has the lock: the task is the last in the queue. */
    method PushBack(task: Task)
      requires Valid() && mutex == Free
      modifies this
      ensures Valid() && Later(old(Now()), Now())
      ensures mutex == ByEnqueuer(task, Pushed)
      ensures queue != [] && queue[|queue| - 1] == task && pushed == old(pushed) + [task]
    {
      ghost var s := Now();
      mutex := ByEnqueuer(task, Entered);
      StepReached(s, Lock(task), Now());
      Others(Holds);
      s := Now();
      queue := queue + [task];
      pushed := pushed + [task];
      mutex := ByEnqueuer(task, Pushed);
      StepReached(s, Push, Now());
    }

    /** The notification of `enqueue` comes under the lock. */
    method NotifyUnderLock()
      requires Valid() && mutex.ByEnqueuer? && mutex.stage == Pushed
      modifies this
      ensures Valid() && Later(old(Now()), Now())
      ensures mutex == old(mutex).(stage := Notified) && worker != Asleep
      ensures queue == old(queue) && pushed == old(pushed)
    {
      Others(Holds);
      ghost var s := Now();
      worker := Notify(worker);
      mutex := mutex.(stage := Notified);
      StepReached(s, NotifyPushed, Now());
    }

    method Release()
      requires Valid() && mutex.ByEnqueuer? && mutex.stage == Notified && worker != Asleep
      modifies this
      ensures Valid() && Later(old(Now()), Now())
      ensures mutex == Free && worker != Asleep && queue == old(queue) && pushed == old(pushed)
    {
      Others(Holds);
      ghost var s := Now();
      mutex := Free;
      StepReached(s, Unlock, Now());
    }

    /** `enqueue`: when it returns, the task is the last in the queue, and the worker is not asleep. */
    method Enqueue(task: Task) returns (done: bool)
      requires Valid()
      modifies this
      ensures Valid() && Later(old(Now()), Now())
      ensures done ==> mutex == Free && queue != [] && queue[|queue| - 1] == task
      ensures done ==> |pushed| > |old(pushed)| && pushed[|pushed| - 1] == task && worker != Asleep
      ensures !done ==> mutex != Free && ahead == []
    {
      done := AwaitFree(Waiting);
      if done {
        PushBack(task);
        NotifyUnderLock();
        Release();
      }
    }

    method LockForStop()
      requires Valid() && mutex == Free
      modifies this
      ensures Valid() && Later(old(Now()), Now()) && mutex == ByStopper(false)
    {
      ghost var s := Now();
      mutex := ByStopper(false);
      StepReached(s, StopLock, Now());
    }

    /** Nothing that was pushed before is left in the queue. */
    method Clear()
      requires Valid() && mutex == ByStopper(false)
      modifies this
      ensures Valid() && Later(old(Now()), Now())
      ensures mutex == ByStopper(true) && Retired(Now()) >= |old(pushed)|
    {
      Others(Holds);
      ghost var s := Now();
      dropped := dropped + Range(|pushed| - |queue|, |pushed|);
      queue := [];
      mutex := ByStopper(true);
      StepReached(s, Step.Clear, Now());
    }

    /** The lock is released before the notification. */
    method ReleaseCleared()
      requires Valid() && mutex == ByStopper(true)
      modifies this
      ensures Valid() && Later(old(Now()), Now()) && notifying > 0
    {
      Others(Holds);
      ghost var s := Now();
      mutex, notifying := Free, notifying + 1;
      StepReached(s, StopUnlock, Now());
    }

    /** The notification comes before the flag is set. */
    method NotifyForStop()
      requires Valid() && notifying > 0
      modifies this
      ensures Valid() && Later(old(Now()), Now()) && requesting > 0
    {
      Others(Notifying);
      WakeForStop();
    }

    method WakeForStop()
      requires Valid() && notifying > 0
      modifies this`worker, this`notifying, this`requesting
      ensures Valid() && requesting > 0
    {
      ghost var s := Now();
      worker := Notify(worker);
      notifying, requesting := notifying - 1, requesting + 1;
      StepReached(s, NotifyStop, Now());
    }

    method SetStop()
      requires Valid() && requesting > 0
      modifies this
      ensures Valid() && Later(old(Now()), Now()) && stop
    {
      Others(Requesting);
      ghost var s := Now();
      stop, requesting := true, requesting - 1;
      StepReached(s, RequestStop, Now());
    }

    /** `request_stop_protected(false)`: when it returns, the flag is set and every task that was pushed before the
        call has started or been dropped. */
    method RequestStopProtected() returns (done: bool)
      requires Valid()
      modifies this
      ensures Valid() && Later(old(Now()), Now())
      ensures done ==> stop && forall n: nat :: n < |old(pushed)| ==> n in started || n in dropped
      ensures !done ==> mutex != Free && ahead == []
    {
      done := AwaitFree(Waiting);
      if done {
        LockForStop();
        Clear();
        ReleaseCleared();
        NotifyForStop();
        SetStop();
        LogIsComplete(Now());
      }
    }

    /** The worker takes the lock. */
    method TakeLock() returns (taken: bool)
      requires Valid() && worker in {Entering, Returning, Woken}
      modifies this
      ensures Valid() && Later(old(Now()), Now()) && started == old(started)
      ensures |ahead| < |old(ahead)| || (ahead == old(ahead) && queue == old(queue))
      ensures taken ==> worker == if old(worker) == Entering then Popping else Checking
      ensures !taken ==> ahead == [] && worker == old(worker) && mutex != Free
    {
      taken := AwaitFree(TheWorker);
      if taken {
        ghost var s := Now();
        mutex := ByWorker;
        worker := if worker == Entering then Popping else Checking;
        StepReached(s, WorkerStep, Now());
        Others(TheWorker);
      }
    }

    /** The first task is taken out, and the lock released to run it. */
    method PopFront() returns (task: Task)
      requires Valid() && worker == Popping && queue != []
      modifies this
      ensures Valid() && Later(old(Now()), Now()) && worker == Running && |ahead| <= |old(ahead)|
      ensures task == old(queue[0]) && queue == old(queue)[1..]
      ensures started == old(started) + [Retired(old(Now()))]
      ensures |ahead| < |old(ahead)| || ahead == old(ahead)
    {
      Others(TheWorker);
      ghost var s := Now();
      task := queue[0];
      started := started + [|pushed| - |queue|];
      queue := queue[1..];
      mutex, worker := Free, Running;
      StepReached(s, WorkerStep, Now());
    }

    /** The task is over. */
    method Return()
      requires Valid() && worker == Running
      modifies this
      ensures Valid() && Later(old(Now()), Now()) && worker == Returning && started == old(started)
      ensures |ahead| < |old(ahead)| || (ahead == old(ahead) && queue == old(queue))
    {
      Others(TheWorker);
      ghost var s := Now();
      worker := Returning;
      StepReached(s, WorkerStep, Now());
    }

    /** The first task is taken out and run, without the lock; then the lock is taken again. */
    method RunFirst() returns (task: Task, taken: bool)
      requires Valid() && worker == Popping && queue != []
      modifies this
      ensures Valid() && Later(old(Now()), Now())
      ensures task == old(queue[0]) && started == old(started) + [Retired(old(Now()))]
      ensures |ahead| < |old(ahead)| || (ahead == old(ahead) && queue == old(queue)[1..])
      ensures taken ==> worker == Checking
      ensures !taken ==> ahead == [] && worker == Returning && mutex != Free
    {
      task := PopFront();
      Return();
      taken := TakeLock();
    }

    /** `cv.wait`: goes on at once if there is a task or a stop, and sleeps otherwise. */
    method Wait() returns (awake: bool)
      requires Valid() && worker == Checking
      modifies this
      ensures Valid() && Later(old(Now()), Now()) && started == old(started)
      ensures |ahead| < |old(ahead)| || (ahead == old(ahead) && queue == old(queue))
      ensures awake ==> worker == Looping && (queue != [] || stop)
      ensures !awake ==> ahead == [] && (worker == Asleep || (worker == Woken && mutex != Free))
    {
      Others(TheWorker);
      while !(queue != [] || stop)
        invariant Valid() && Later(old(Now()), Now()) && started == old(started) && worker == Checking
        invariant |ahead| < |old(ahead)| || (ahead == old(ahead) && queue == old(queue))
        decreases |ahead|
      {
        awake := Sleep();
        if !awake {
          return;
        }
      }
      ghost var s := Now();
      worker := Looping;
      StepReached(s, WorkerStep, Now());
      awake := true;
    }

    /** Sleeps until it is woken, and takes the lock again. */
    method Sleep() returns (awake: bool)
      requires Valid() && worker == Checking && queue == [] && !stop
      modifies this
      ensures Valid() && Later(old(Now()), Now()) && started == old(started)
      ensures |ahead| < |old(ahead)| || (ahead == old(ahead) && !awake && queue == old(queue))
      ensures awake ==> worker == Checking
      ensures !awake ==> ahead == [] && (worker == Asleep || (worker == Woken && mutex != Free))
    {
      ghost var s := Now();
      mutex, worker := Free, Asleep;
      StepReached(s, WorkerStep, Now());
      while worker == Asleep && ahead != []
        invariant Valid() && Later(old(Now()), Now()) && started == old(started) && worker in {Asleep, Woken}
        invariant |ahead| < |old(ahead)| || (ahead == old(ahead) && worker == Asleep && queue == old(queue))
        decreases |ahead|
      {
        Other(TheWorker);
      }
      if worker == Asleep {
        return false;
      }
      awake := TakeLock();
    }

    /** There was no task to run. */
    method FindNone()
      requires Valid() && worker == Popping && queue == []
      modifies this
      ensures Valid() && Later(old(Now()), Now()) && worker == Checking && started == old(started)
      ensures |ahead| < |old(ahead)| || ahead == old(ahead)
      ensures queue == []
    {
      Others(TheWorker);
      ghost var s := Now();
      worker := Checking;
      StepReached(s, WorkerStep, Now());
    }

    /** The head of the loop: if there is a task, it is run. */
    method RunIfAny(ran0: seq<Task>, ghost n: nat) returns (ran: seq<Task>, going: bool)
      requires Valid() && worker == Popping && n <= |started| && ran0 == StartedSince(Now(), n)
      modifies this
      ensures Valid() && Later(old(Now()), Now())
      ensures ran == StartedSince(Now(), n)
      ensures |ahead| < |old(ahead)| || (ahead == old(ahead) && (queue == [] || |queue| < |old(queue)|))
      ensures going ==> worker == Checking
      ensures !going ==> ahead == [] && worker == Returning && mutex != Free
    {
      ghost var s := Now();
      Others(TheWorker);
      if queue != [] {
        var task;
        task, going := RunFirst();
        ran := ran0 + [task];
      } else {
        FindNone();
        ran, going := ran0, true;
      }
      SinceGrows(s, Now(), n);
    }

    /** The condition of the loop. */
    method TestStop() returns (going: bool)
      requires Valid() && worker == Looping
      modifies this
      ensures Valid() && Later(old(Now()), Now()) && started == old(started)
      ensures |ahead| < |old(ahead)| || (ahead == old(ahead) && queue == old(queue) && stop == old(stop))
      ensures going <==> !stop
      ensures worker == if going then Popping else Gone
      ensures going ==> queue == old(queue) && mutex == ByWorker
    {
      Others(TheWorker);
      ghost var s := Now();
      going := !stop;
      if going {
        worker := Popping;
      } else {
        mutex, worker := Free, Gone;
      }
      StepReached(s, WorkerStep, Now());
    }

    /** The rest of the loop: waits for a task or a stop, and goes on unless it is a stop. */
    method WaitAndTest(ran: seq<Task>, ghost n: nat) returns (going: bool)
      requires Valid() && worker == Checking && n <= |started| && ran == StartedSince(Now(), n)
      modifies this
      ensures Valid() && Later(old(Now()), Now())
      ensures ran == StartedSince(Now(), n)
      ensures |ahead| < |old(ahead)| || (ahead == old(ahead) && queue == old(queue))
      ensures going ==> worker == Popping && (queue != [] || |ahead| < |old(ahead)|)
      ensures !going ==> (worker == Gone && stop) || StuckOrAsleep()
    {
      ghost var s := Now();
      going := Wait();
      if going {
        going := TestStop();
      }
      SinceGrows(s, Now(), n);
    }

    /** The others have come to their end, and the worker waits for a lock that is held, or sleeps. */
    predicate StuckOrAsleep()
      reads this
    {
      ahead == [] && worker != Gone && (mutex == Free ==> worker == Asleep)
    }

    /** `after_execution_protected`: runs exactly the tasks that are marked as started, in the order in which they
        were pushed. It leaves only with the flag set. It is stuck, with nobody else going on, only if somebody has
        kept the lock or it sleeps; and if it sleeps while the lock is free, every task that was ever pushed has
        started or been dropped. */
    method AfterExecution() returns (ran: seq<Task>, left: bool)
      requires Valid() && worker == Entering
      modifies this
      ensures Valid() && Later(old(Now()), Now())
      ensures ran == StartedSince(Now(), |old(started)|)
      ensures left ==> worker == Gone && stop
      ensures !left ==> StuckOrAsleep()
      ensures !left && mutex == Free ==> forall n: nat :: n < |pushed| ==> n in started || n in dropped
    {
      ghost var n := |started|;
      ran := [];
      var going := TakeLock();
      while going
        invariant Valid() && Later(old(Now()), Now()) && ran == StartedSince(Now(), n)
        invariant if going then worker == Popping else (worker == Gone && stop) || StuckOrAsleep()
        decreases |ahead|, |queue|, if going then 1 else 0
      {
        ran, going := RunIfAny(ran, n);
        if going {
          going := WaitAndTest(ran, n);
        }
      }
      LogIsComplete(Now());
      left := worker == Gone;
    }
  }
}

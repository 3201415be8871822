/** What wait() of the thread pool means, and when a waiter is woken. */
module PoolWaiting {
  import opened ThreadPooling
  import opened PoolLaws

  // ---- What wait() means ------------------------------------------------------------------------

  lemma {:induction false} GapTasks(ws: seq<Worker>)
    requires Sum(InActive, ws) == 0
    ensures |Held(ws)| == Sum(InGap, ws) <= |ws|
  {
    if ws != [] {
      GapTasks(ws[1..]);
    }
  }

  /**
    * When wait() finds its condition true, the unfinished tasks are exactly those workers have taken and not counted yet:
    * at most one per worker. All tasks are finished if and only if no worker stands between its pop and its count.
    */
  lemma WaitMeaning(s: State, i: nat)
    requires Inv(s) && Enabled(s, WaitCheck(i))
    ensures Apply(s, WaitCheck(i)).waiters[i] == Returned <==> Idle(s)
    ensures Idle(s) ==>
              && multiset(s.accepted) == multiset(s.finished) + Held(s.workers)
              && |Held(s.workers)| == Sum(InGap, s.workers) <= |s.workers|
              && (multiset(s.accepted) == multiset(s.finished) <==> forall w :: 0 <= w < |s.workers| ==> !s.workers[w].Popped?)
  {
    hide Sum, Held;
    if Idle(s) {
      assert s.accepted == s.popped;
      GapTasks(s.workers);
      SumZero(InGap, s.workers);
      forall w | 0 <= w < |s.workers|
        ensures Weight(InGap, s.workers[w]) == 0 <==> !s.workers[w].Popped?
      {
      }
      if Held(s.workers) == multiset{} {
        assert Sum(InGap, s.workers) == 0;
      }
    }
  }

  lemma ReturnsByCheck(s: State, step: Step, i: nat)
    requires Enabled(s, step) && i < |s.waiters| && s.waiters[i] != Returned
    ensures i < |Apply(s, step).waiters|
    ensures Apply(s, step).waiters[i] == Returned ==> step == WaitCheck(i) && Idle(s)
  {
  }

  /** In any run, a call of wait() that returns has tested its condition in a state of the run, and found it true. */
  lemma {:induction false} ReturnsOnlyWhenIdle(s: State, steps: seq<Step>, t: State, i: nat) returns (j: nat, u: State)
    requires Leads(s, steps, t) && i < |s.waiters| && s.waiters[i] != Returned
    requires i < |t.waiters| && t.waiters[i] == Returned
    ensures j < |steps| && steps[j] == WaitCheck(i) && Leads(s, steps[..j], u) && Idle(u)
    decreases |steps|
  {
    hide Apply, Enabled;
    assert steps != [];
    var next := Apply(s, steps[0]);
    ReturnsByCheck(s, steps[0], i);
    if next.waiters[i] == Returned {
      j, u := 0, s;
      assert steps[..0] == [];
    } else {
      j, u := ReturnsOnlyWhenIdle(next, steps[1..], t, i);
      j := j + 1;
      assert steps[..j][1..] == steps[1..][..j - 1];
    }
  }

  /** wait() can return with an accepted task not even begun. */
  lemma WaitCanReturnEarly() returns (steps: seq<Step>, t: State)
    ensures Leads(Start(1, 1), steps, t) && t.waiters == [Returned]
    ensures t.accepted == [7] && t.workers == [Popped(7)] && t.finished == []
  {
    steps := [Enqueue(7), Check(0), WaitCheck(0)];
    var s0 := Start(1, 1);
    var s1 := Apply(s0, Enqueue(7));
    var s2 := Apply(s1, Check(0));
    t := Apply(s2, WaitCheck(0));
    assert Leads(t, [], t);
    assert [WaitCheck(0)][1..] == [];
    assert Leads(s2, [WaitCheck(0)], t);
    assert steps[1..] == [Check(0), WaitCheck(0)] && steps[1..][1..] == [WaitCheck(0)];
  }

  /** Steps that a further caller, the destructor or a spurious wakeup would have to supply. */
  predicate FromOutside(step: Step) {
    step.Enqueue? || step.SetStop? || step.Spurious? || step.WaitSpurious?
  }

  /**
    * wait() can block for good although its condition holds: the count and its notification are not under the mutex, so
    * both can fall between the test and the block. The workers' own condition is changed under the mutex only.
    */
  lemma WaitCanMissItsWakeup() returns (steps: seq<Step>, t: State)
    ensures Leads(Start(1, 1), steps, t) && Idle(t) && t.waiters == [Blocked] && t.finished == t.accepted == [7]
    ensures forall step :: Enabled(t, step) ==> FromOutside(step)
  {
    hide Apply, Enabled, Leads;
    t := Pose(Asleep, Blocked, [], 0, 0, [7], [7]);
    steps := BothSleep(t);
    steps := TaskEnds(steps, t);
    steps := WaiterTests(steps, t);
    steps := TaskBegins(steps, t);
    steps := TaskArrives(steps, t);
    StuckPose(t);
  }

  /** One worker, one waiter, task 7 accepted. */
  function Pose(worker: Worker, waiter: Waiter, queue: seq<Task>, active: nat, notifyOnes: nat,
                popped: seq<Task>, finished: seq<Task>): State {
    State(queue, [worker], [waiter], false, active, notifyOnes, false, 0, [7], popped, finished)
  }

  lemma OneWorker(a: Worker, b: Worker)
    ensures [a][0 := b] == [b]
  {
  }

  lemma OneWaiter(a: Waiter, b: Waiter)
    ensures [a][0 := b] == [b]
    ensures Called([a]) == [if a == Blocked then Calling else a]
  {
  }

  /** The task is taken, and counted. */
  lemma TaskBegins(rest: seq<Step>, t: State) returns (steps: seq<Step>)
    requires Leads(Pose(Running(7), Calling, [], 1, 0, [7], []), rest, t)
    ensures Leads(Pose(Checking, Calling, [7], 0, 0, [], []), steps, t)
  {
    hide Leads;
    OneWorker(Checking, Popped(7));
    OneWorker(Popped(7), Running(7));
    assert [7][1..] == [] && [] + [7] == [7];
    var s3 := Pose(Popped(7), Calling, [], 0, 0, [7], []);
    steps := Before(s3, CountUp(0), Pose(Running(7), Calling, [], 1, 0, [7], []), rest, t);
    steps := Before(Pose(Checking, Calling, [7], 0, 0, [], []), Check(0), s3, steps, t);
  }

  /** The task is accepted, and its notification finds nobody asleep. */
  lemma TaskArrives(rest: seq<Step>, t: State) returns (steps: seq<Step>)
    requires Leads(Pose(Checking, Calling, [7], 0, 0, [], []), rest, t)
    ensures Leads(Start(1, 1), steps, t)
  {
    hide Leads, Apply, Enabled;
    var s1 := Pose(Checking, Calling, [7], 0, 1, [], []);
    FirstTask(s1);
    NobodyToNotify(s1);
    steps := Before(s1, NotifyOne(0), Pose(Checking, Calling, [7], 0, 0, [], []), rest, t);
    steps := Before(Start(1, 1), Enqueue(7), s1, steps, t);
  }

  lemma FirstTask(s1: State)
    requires s1 == Pose(Checking, Calling, [7], 0, 1, [], [])
    ensures Enabled(Start(1, 1), Enqueue(7)) && Apply(Start(1, 1), Enqueue(7)) == s1
  {
    assert Start(1, 1) == State([], [Checking], [Calling], false, 0, 0, false, 0, [], [], []);
    assert [] + [7] == [7];
  }

  lemma NobodyToNotify(s1: State)
    requires s1 == Pose(Checking, Calling, [7], 0, 1, [], [])
    ensures Enabled(s1, NotifyOne(0)) && Apply(s1, NotifyOne(0)) == Pose(Checking, Calling, [7], 0, 0, [], [])
  {
  }

  /** The task ends and announces itself while the waiter, having found it active, is still about to block. */
  lemma TaskEnds(rest: seq<Step>, t: State) returns (steps: seq<Step>)
    requires Leads(Pose(Checking, Deciding, [], 0, 0, [7], [7]), rest, t)
    ensures Leads(Pose(Running(7), Deciding, [], 1, 0, [7], []), steps, t)
  {
    hide Leads;
    OneWorker(Running(7), Ran);
    OneWorker(Ran, CountedDown);
    OneWorker(CountedDown, Checking);
    OneWaiter(Deciding, Deciding);
    var s6 := Pose(Ran, Deciding, [], 1, 0, [7], [7]);
    var s7 := Pose(CountedDown, Deciding, [], 0, 0, [7], [7]);
    steps := Before(s7, Announce(0), Pose(Checking, Deciding, [], 0, 0, [7], [7]), rest, t);
    steps := Before(s6, CountDown(0), s7, steps, t);
    steps := Before(Pose(Running(7), Deciding, [], 1, 0, [7], []), Finish(0), s6, steps, t);
  }

  lemma WaiterTests(rest: seq<Step>, t: State) returns (steps: seq<Step>)
    requires Leads(Pose(Running(7), Deciding, [], 1, 0, [7], []), rest, t)
    ensures Leads(Pose(Running(7), Calling, [], 1, 0, [7], []), steps, t)
  {
    hide Leads;
    OneWaiter(Calling, Deciding);
    steps := Before(Pose(Running(7), Calling, [], 1, 0, [7], []), WaitCheck(0),
                    Pose(Running(7), Deciding, [], 1, 0, [7], []), rest, t);
  }

  /** The waiter blocks, and the worker goes to sleep. */
  lemma BothSleep(t: State) returns (steps: seq<Step>)
    requires t == Pose(Asleep, Blocked, [], 0, 0, [7], [7])
    ensures Leads(Pose(Checking, Deciding, [], 0, 0, [7], [7]), steps, t)
  {
    hide Leads;
    OneWaiter(Deciding, Blocked);
    OneWorker(Checking, Asleep);
    LeadsNowhere(t);
    var s9 := Pose(Checking, Blocked, [], 0, 0, [7], [7]);
    steps := Before(s9, Check(0), t, [], t);
    steps := Before(Pose(Checking, Deciding, [], 0, 0, [7], [7]), WaitBlock(0), s9, steps, t);
  }

  lemma LeadsNowhere(t: State)
    ensures Leads(t, [], t)
  {
  }

  lemma StuckPose(t: State)
    requires t == Pose(Asleep, Blocked, [], 0, 0, [7], [7])
    ensures forall step :: Enabled(t, step) ==> FromOutside(step)
  {
  }

  lemma Before(s: State, step: Step, next: State, rest: seq<Step>, t: State) returns (steps: seq<Step>)
    requires Enabled(s, step) && Apply(s, step) == next && Leads(next, rest, t)
    ensures steps == [step] + rest && Leads(s, steps, t)
  {
    steps := [step] + rest;
    assert steps[1..] == rest;
  }

  // ---- When a blocked waiter is woken --------------------------------------------------------------

  /** A worker that will announce a finished task without anyone's help. */
  predicate Busy(w: Worker) {
    w.Popped? || w.Running? || w.Ran? || w.CountedDown?
  }

  /** Something is left to be announced. */
  ghost predicate WorkLeft(s: State) {
    s.queue != [] || exists w :: 0 <= w < |s.workers| && Busy(s.workers[w])
  }

  ghost predicate Inside(steps: seq<Step>) {
    forall j :: 0 <= j < |steps| ==> !FromOutside(steps[j])
  }

  ghost predicate Unblocks(s: State, i: nat, steps: seq<Step>, t: State) {
    Inside(steps) && Leads(s, steps, t) && i < |t.waiters| && t.waiters[i] != Blocked
  }

  /** The pool can wake waiter i by its own steps. */
  ghost predicate CanWake(s: State, i: nat) {
    exists steps, t :: Unblocks(s, i, steps, t)
  }

  /** With no work left, every step but an enqueue or a spurious wakeup leaves it so, and the waiter blocked. */
  lemma NoWorkStep(s: State, i: nat, step: Step)
    requires Enabled(s, step) && !WorkLeft(s) && i < |s.waiters| && s.waiters[i] == Blocked
    requires !step.Enqueue? && !step.WaitSpurious?
    ensures var t := Apply(s, step);
            !WorkLeft(t) && i < |t.waiters| && t.waiters[i] == Blocked
  {
    assert step.Announce? ==> Busy(s.workers[step.w]);
    assert step.CountUp? || step.Finish? || step.CountDown? ==> Busy(s.workers[step.w]);
  }

  /** Then no run without an enqueue or a spurious wakeup of a waiter, however long, unblocks the waiter. */
  lemma {:induction false} NoWorkNoWakeup(s: State, i: nat, steps: seq<Step>, t: State)
    requires Leads(s, steps, t) && !WorkLeft(s) && i < |s.waiters| && s.waiters[i] == Blocked
    requires forall j :: 0 <= j < |steps| ==> !steps[j].Enqueue? && !steps[j].WaitSpurious?
    ensures !WorkLeft(t) && i < |t.waiters| && t.waiters[i] == Blocked
    decreases |steps|
  {
    hide Apply, Enabled, WorkLeft;
    if steps != [] {
      NoWorkStep(s, i, steps[0]);
      NoWorkNoWakeup(Apply(s, steps[0]), i, steps[1..], t);
    }
  }

  /** One step of the pool, after which it can wake the waiter. */
  lemma WakeAfter(s: State, i: nat, step: Step)
    requires Enabled(s, step) && !FromOutside(step) && CanWake(Apply(s, step), i)
    ensures CanWake(s, i)
  {
    hide Apply, Enabled, FromOutside;
    var rest, t :| Unblocks(Apply(s, step), i, rest, t);
    var steps := Before(s, step, Apply(s, step), rest, t);
    assert Unblocks(s, i, steps, t);
  }

  lemma AnnounceWakes(s: State, i: nat, w: nat)
    requires At(s, w, CountedDown) && i < |s.waiters|
    ensures CanWake(s, i)
  {
    hide Leads;
    var t := Apply(s, Announce(w));
    LeadsNowhere(t);
    assert Unblocks(t, i, [], t);
    WakeAfter(s, i, Announce(w));
  }

  /** A busy worker gets to its announcement on its own. */
  lemma BusyWakes(s: State, i: nat, w: nat)
    requires Inv(s) && w < |s.workers| && Busy(s.workers[w]) && i < |s.waiters|
    ensures CanWake(s, i)
    decreases Weight(InRank, s.workers[w])
  {
    hide CanWake, Inv;
    match s.workers[w] {
      case Popped(_) => BusyStep(s, i, w, CountUp(w));
      case Running(_) => BusyStep(s, i, w, Finish(w));
      case Ran =>
        ActiveCounts(s, w);
        BusyStep(s, i, w, CountDown(w));
      case CountedDown => AnnounceWakes(s, i, w);
    }
  }

  lemma BusyStep(s: State, i: nat, w: nat, step: Step)
    requires Inv(s) && w < |s.workers| && Busy(s.workers[w]) && i < |s.waiters|
    requires step == CountUp(w) || step == Finish(w) || step == CountDown(w)
    requires Enabled(s, step)
    ensures CanWake(s, i)
    decreases Weight(InRank, s.workers[w]), 0
  {
    hide CanWake, Inv;
    StepKeepsInv(s, step);
    BusyWakes(Apply(s, step), i, w);
    WakeAfter(s, i, step);
  }

  lemma ActiveCounts(s: State, w: nat)
    requires Inv(s) && At(s, w, Ran)
    ensures s.active > 0
  {
    SumZero(InActive, s.workers);
    assert Weight(InActive, s.workers[w]) == 1;
  }

  /** With a task queued, the mutex free and a worker about to look, it is taken, and its end announced. */
  lemma CheckWakes(s: State, i: nat, w: nat)
    requires Inv(s) && s.queue != [] && !Locked(s) && At(s, w, Checking) && i < |s.waiters|
    ensures CanWake(s, i)
  {
    hide CanWake, Inv;
    StepKeepsInv(s, Check(w));
    BusyWakes(Apply(s, Check(w)), i, w);
    WakeAfter(s, i, Check(w));
  }

  /** With a task queued and the mutex free: a worker is busy, or about to look, or a notification gets one there. */
  lemma QueueWakes(s: State, i: nat)
    requires Inv(s) && s.queue != [] && !Locked(s) && |s.workers| > 0 && i < |s.waiters|
    ensures CanWake(s, i)
  {
    hide CanWake, Apply;
    if w :| 0 <= w < |s.workers| && Busy(s.workers[w]) {
      BusyWakes(s, i, w);
    } else if w :| 0 <= w < |s.workers| && s.workers[w] == Checking {
      CheckWakes(s, i, w);
    } else {
      NotificationPending(s);
      var step := NotifyOne(0);
      StepKeepsInv(s, step);
      Notified(s);
      CheckWakes(Apply(s, step), i, 0);
      WakeAfter(s, i, step);
    }
  }

  lemma NotificationPending(s: State)
    requires Inv(s) && s.queue != [] && |s.workers| > 0
    requires forall w :: 0 <= w < |s.workers| ==> !Busy(s.workers[w]) && s.workers[w] != Checking
    ensures s.notifyOnes > 0 && s.workers[0] == Asleep
  {
    hide Sum, Held;
    QueuedTaskIsSeen(s);
    SumZero(InExit, s.workers);
    assert Weight(InExit, s.workers[0]) == 0;
  }

  lemma Notified(s: State)
    requires s.notifyOnes > 0 && At(s, 0, Asleep)
    ensures Enabled(s, NotifyOne(0))
    ensures var t := Apply(s, NotifyOne(0));
            At(t, 0, Checking) && t.queue == s.queue && t.waiters == s.waiters
  {
    assert s.workers[0] in s.workers;
  }

  /** A waiter that holds the mutex gives it back by blocking. */
  lemma Unlock(s: State) returns (k: nat)
    requires Inv(s) && Locked(s)
    ensures Enabled(s, WaitBlock(k))
    ensures var t := Apply(s, WaitBlock(k));
            !Locked(t) && t == s.(waiters := t.waiters) && |t.waiters| == |s.waiters|
  {
    hide TasksKept, WakeupsKept, ExitsKept;
    k :| 0 <= k < |s.waiters| && s.waiters[k] == Deciding;
    var ws := Apply(s, WaitBlock(k)).waiters;
    forall j | 0 <= j < |ws|
      ensures ws[j] != Deciding
    {
    }
  }

  lemma WorkWakes(s: State, i: nat)
    requires Inv(s) && |s.workers| > 0 && i < |s.waiters| && WorkLeft(s)
    ensures CanWake(s, i)
  {
    hide CanWake, Inv, Apply, Enabled;
    if s.queue == [] {
      var w :| 0 <= w < |s.workers| && Busy(s.workers[w]);
      BusyWakes(s, i, w);
    } else if Locked(s) {
      var k := Unlock(s);
      StepKeepsInv(s, WaitBlock(k));
      QueueWakes(Apply(s, WaitBlock(k)), i);
      WakeAfter(s, i, WaitBlock(k));
    } else {
      QueueWakes(s, i);
    }
  }

  /** In every reachable state, the pool can wake a blocked waiter by its own steps if and only if work is left. */
  lemma WakeupIff(s: State, i: nat)
    requires Inv(s) && |s.workers| > 0 && i < |s.waiters| && s.waiters[i] == Blocked
    ensures CanWake(s, i) <==> WorkLeft(s)
  {
    hide WorkLeft, Inv, Leads;
    if WorkLeft(s) {
      WorkWakes(s, i);
    }
    if CanWake(s, i) && !WorkLeft(s) {
      var steps, t :| Unblocks(s, i, steps, t);
      NoWorkNoWakeup(s, i, steps, t);
    }
  }

  /**
    * A waiter that has found tasks outstanding misses its wakeup exactly when the last of them has been announced before it
    * blocks. Its condition is true by then.
    */
  lemma WakeupMissedIff(workers: nat, waiters: nat, steps: seq<Step>, s: State, i: nat)
    requires workers > 0 && Leads(Start(workers, waiters), steps, s) && Enabled(s, WaitBlock(i))
    ensures CanWake(Apply(s, WaitBlock(i)), i) <==> WorkLeft(s)
    ensures !WorkLeft(s) ==> Idle(s)
  {
    hide Sum, Held, CanWake, Leads, Inv;
    StartInv(workers, waiters);
    RunKeepsInv(Start(workers, waiters), steps, s);
    SameWorkers(Start(workers, waiters), steps, s);
    StepKeepsInv(s, WaitBlock(i));
    WakeupIff(Apply(s, WaitBlock(i)), i);
    if !WorkLeft(s) {
      NoWorkIsIdle(s);
    }
  }

  lemma NoWorkIsIdle(s: State)
    requires Inv(s) && !WorkLeft(s)
    ensures Idle(s)
  {
    hide Sum, Held;
    SumZero(InActive, s.workers);
    forall w | 0 <= w < |s.workers|
      ensures Weight(InActive, s.workers[w]) == 0
    {
      assert !Busy(s.workers[w]);
    }
  }
}

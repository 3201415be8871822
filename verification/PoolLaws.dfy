/** What every interleaving of the thread pool keeps: tasks, wakeups, waiting and shutdown. */
module PoolLaws {
  import opened ThreadPooling

  // ---- Counting workers ---------------------------------------------------------------

  datatype Kind = InCheck | InSleep | InGap | InActive | InExit | InRank

  function Weight(kind: Kind, w: Worker): nat {
    match kind
    case InCheck => if w.Checking? then 1 else 0
    case InSleep => if w.Asleep? then 1 else 0
    case InGap => if w.Popped? then 1 else 0
    case InActive => if w.Running? || w.Ran? then 1 else 0
    case InExit => if w.Exited? then 1 else 0
    case InRank =>
      match w
      case Exited => 0
      case Checking => 1
      case Asleep => 2
      case CountedDown => 2
      case Ran => 3
      case Running(_) => 4
      case Popped(_) => 5
  }

  function Sum(kind: Kind, ws: seq<Worker>): nat {
    if ws == [] then 0 else Weight(kind, ws[0]) + Sum(kind, ws[1..])
  }

  function HeldBy(w: Worker): multiset<Task> {
    match w
    case Popped(t) => multiset{t}
    case Running(t) => multiset{t}
    case _ => multiset{}
  }

  /** The tasks taken and not finished. */
  function Held(ws: seq<Worker>): multiset<Task> {
    if ws == [] then multiset{} else HeldBy(ws[0]) + Held(ws[1..])
  }

  lemma {:induction false} SumUpdate(kind: Kind, ws: seq<Worker>, i: nat, w: Worker)
    requires i < |ws|
    ensures Sum(kind, ws[i := w]) + Weight(kind, ws[i]) == Sum(kind, ws) + Weight(kind, w)
  {
    hide Weight;
    if i == 0 {
      assert ws[0 := w][1..] == ws[1..];
    } else {
      SumUpdate(kind, ws[1..], i - 1, w);
      assert ws[i := w][1..] == ws[1..][i - 1 := w];
    }
  }

  lemma Regroup(h: multiset<Task>, x: multiset<Task>, y: multiset<Task>, p: multiset<Task>, q: multiset<Task>)
    requires x + p == y + q
    ensures (h + x) + p == (h + y) + q
  {
    assert (h + x) + p == h + (x + p);
    assert (h + y) + q == h + (y + q);
  }

  lemma {:induction false} HeldUpdate(ws: seq<Worker>, i: nat, w: Worker)
    requires i < |ws|
    ensures Held(ws[i := w]) + HeldBy(ws[i]) == Held(ws) + HeldBy(w)
  {
    hide HeldBy;
    if i == 0 {
      assert ws[0 := w][1..] == ws[1..];
    } else {
      HeldUpdate(ws[1..], i - 1, w);
      assert ws[i := w][1..] == ws[1..][i - 1 := w];
      Regroup(HeldBy(ws[0]), Held(ws[1..][i - 1 := w]), Held(ws[1..]), HeldBy(ws[i]), HeldBy(w));
    }
  }

  lemma {:induction false} SumZero(kind: Kind, ws: seq<Worker>)
    ensures Sum(kind, ws) == 0 <==> forall i :: 0 <= i < |ws| ==> Weight(kind, ws[i]) == 0
  {
    hide Weight;
    if ws != [] {
      SumZero(kind, ws[1..]);
      if Sum(kind, ws) == 0 {
        forall i | 0 <= i < |ws|
          ensures Weight(kind, ws[i]) == 0
        {
          assert i > 0 ==> ws[i] == ws[1..][i - 1];
        }
      } else if Sum(kind, ws[1..]) > 0 {
        var i :| 0 <= i < |ws[1..]| && Weight(kind, ws[1..][i]) != 0;
        assert ws[i + 1] == ws[1..][i];
      }
    }
  }

  lemma {:induction false} WakeAll(ws: seq<Worker>)
    ensures Sum(InSleep, Woken(ws)) == 0
    ensures Sum(InCheck, Woken(ws)) == Sum(InCheck, ws) + Sum(InSleep, ws)
    ensures Sum(InRank, Woken(ws)) <= Sum(InRank, ws)
    ensures Sum(InActive, Woken(ws)) == Sum(InActive, ws) && Sum(InExit, Woken(ws)) == Sum(InExit, ws)
    ensures Held(Woken(ws)) == Held(ws)
  {
    if ws != [] {
      hide Woken;
      WakeAll(ws[1..]);
      WokenTail(ws);
    }
  }

  lemma WokenTail(ws: seq<Worker>)
    requires ws != []
    ensures Woken(ws)[1..] == Woken(ws[1..])
  {
  }

  lemma {:induction false} StartSums(n: nat)
    ensures var ws := seq(n, i => Checking);
            && Sum(InSleep, ws) == 0 && Sum(InActive, ws) == 0 && Sum(InExit, ws) == 0
            && Held(ws) == multiset{}
  {
    if n > 0 {
      StartSums(n - 1);
      var ws := seq(n, i => Checking);
      assert ws[1..] == seq(n - 1, i => Checking);
    }
  }

  // ---- The invariant --------------------------------------------------------------------

  /** Tasks leave the queue in push order, and each one taken is held by one worker or finished. */
  ghost predicate TasksKept(s: State) {
    && s.accepted == s.popped + s.queue
    && multiset(s.popped) == Held(s.workers) + multiset(s.finished)
    && s.active == Sum(InActive, s.workers)
  }

  /**
    * No wakeup is lost. While some worker sleeps, each queued task has a notification of its own on the way or a worker
    * of its own about to look; and nobody sleeps after stop_ but for the notification on its way.
    */
  ghost predicate WakeupsKept(s: State) {
    && (Sum(InSleep, s.workers) > 0 ==> |s.queue| <= s.notifyOnes + Sum(InCheck, s.workers))
    && (s.stop && Sum(InSleep, s.workers) > 0 ==> s.notifyAll)
    && (s.notifyAll ==> s.stop)
  }

  /** Workers leave only once there is nothing left, and are joined only once they left. */
  ghost predicate ExitsKept(s: State) {
    && (Sum(InExit, s.workers) > 0 ==> s.stop && s.queue == [])
    && s.joined <= |s.workers|
    && (forall w :: 0 <= w < s.joined ==> s.workers[w] == Exited)
    && (s.joined > 0 ==> s.stop)
  }

  /** One thread at a time holds the mutex. */
  ghost predicate OneHolder(s: State) {
    forall i, j :: 0 <= i < |s.waiters| && 0 <= j < |s.waiters| && s.waiters[i] == Deciding && s.waiters[j] == Deciding ==> i == j
  }

  ghost predicate Inv(s: State) {
    TasksKept(s) && WakeupsKept(s) && ExitsKept(s) && OneHolder(s)
  }

  lemma StartInv(workers: nat, waiters: nat)
    ensures Inv(Start(workers, waiters))
  {
    StartSums(workers);
  }

  lemma MovesTask(s: State, w: nat, loc: Worker)
    requires w < |s.workers|
    ensures Sum(InActive, s.workers[w := loc]) + Weight(InActive, s.workers[w]) == Sum(InActive, s.workers) + Weight(InActive, loc)
    ensures Held(s.workers[w := loc]) + HeldBy(s.workers[w]) == Held(s.workers) + HeldBy(loc)
    ensures HeldBy(s.workers[w]) == HeldBy(loc) ==> Held(s.workers[w := loc]) == Held(s.workers)
  {
    SumUpdate(InActive, s.workers, w, loc);
    HeldUpdate(s.workers, w, loc);
    Cancel(Held(s.workers[w := loc]), Held(s.workers), HeldBy(s.workers[w]), HeldBy(loc));
  }

  lemma Cancel(x: multiset<Task>, y: multiset<Task>, p: multiset<Task>, q: multiset<Task>)
    requires x + p == y + q
    ensures p == q ==> x == y
  {
    if p == q {
      forall t
        ensures x[t] == y[t]
      {
        assert (x + p)[t] == (y + q)[t];
      }
    }
  }

  lemma OneMore(tasks: seq<Task>, t: Task)
    ensures multiset(tasks + [t]) == multiset(tasks) + multiset{t}
  {
  }

  /** A pop moves the oldest task from the queue to the worker. */
  lemma PopKeepsTasks(s: State, w: nat)
    requires TasksKept(s) && At(s, w, Checking) && s.queue != []
    ensures TasksKept(AfterCheck(s, w))
  {
    hide Sum, Held;
    var t, held := s.queue[0], Held(s.workers);
    MovesTask(s, w, Popped(t));
    assert Held(s.workers[w := Popped(t)]) == held + multiset{t} by {
      assert Held(s.workers[w := Popped(t)]) + multiset{} == held + multiset{t};
    }
    OneMore(s.popped, t);
    assert (s.popped + [t]) + s.queue[1..] == s.popped + s.queue;
    assert (held + multiset(s.finished)) + multiset{t} == (held + multiset{t}) + multiset(s.finished);
  }

  /** Finishing moves the task from the worker to the finished ones. */
  lemma FinishKeepsTasks(s: State, w: nat)
    requires TasksKept(s) && Enabled(s, Finish(w))
    ensures TasksKept(Apply(s, Finish(w)))
  {
    hide Sum, Held;
    var t, now := s.workers[w].task, Held(s.workers[w := Ran]);
    MovesTask(s, w, Ran);
    assert Held(s.workers) == now + multiset{t} by {
      assert now + multiset{t} == Held(s.workers) + multiset{};
    }
    OneMore(s.finished, t);
    assert (now + multiset{t}) + multiset(s.finished) == now + (multiset(s.finished) + multiset{t});
  }

  /** A worker that neither takes nor finishes a task changes the count alone. */
  lemma MoveKeepsTasks(s: State, w: nat, loc: Worker, t: State)
    requires TasksKept(s) && w < |s.workers| && HeldBy(s.workers[w]) == HeldBy(loc)
    requires t == s.(workers := s.workers[w := loc], active := t.active, notifyOnes := t.notifyOnes, waiters := t.waiters)
    requires t.active + Weight(InActive, s.workers[w]) == s.active + Weight(InActive, loc)
    ensures TasksKept(t)
  {
    hide Sum, Held, HeldBy, Weight;
    MovesTask(s, w, loc);
  }

  lemma EnqueueKeepsTasks(s: State, task: Task)
    requires TasksKept(s) && Enabled(s, Enqueue(task))
    ensures TasksKept(Apply(s, Enqueue(task)))
  {
    hide Sum, Held;
    assert s.popped + (s.queue + [task]) == (s.popped + s.queue) + [task];
  }

  lemma WakeAllKeepsTasks(s: State)
    requires TasksKept(s)
    ensures TasksKept(s.(notifyAll := false, workers := Woken(s.workers)))
  {
    hide Sum, Held;
    WakeAll(s.workers);
  }

  lemma SameTasks(s: State, t: State)
    requires TasksKept(s)
    requires t == s.(stop := t.stop, notifyOnes := t.notifyOnes, notifyAll := t.notifyAll, joined := t.joined, waiters := t.waiters)
    ensures TasksKept(t)
  {
  }

  lemma CheckKeepsTasks(s: State, w: nat)
    requires TasksKept(s) && Enabled(s, Check(w))
    ensures TasksKept(AfterCheck(s, w))
  {
    hide TasksKept;
    if s.queue == [] {
      MoveKeepsTasks(s, w, if s.stop then Exited else Asleep, AfterCheck(s, w));
    } else {
      PopKeepsTasks(s, w);
    }
  }

  lemma CheckStep(s: State, w: nat)
    requires Enabled(s, Check(w))
    ensures Apply(s, Check(w)) == AfterCheck(s, w)
  {
  }

  lemma CountUpKeepsTasks(s: State, w: nat)
    requires TasksKept(s) && Enabled(s, CountUp(w))
    ensures TasksKept(Apply(s, CountUp(w)))
  {
    hide TasksKept;
    MoveKeepsTasks(s, w, Running(s.workers[w].task), Apply(s, CountUp(w)));
  }

  lemma CountDownKeepsTasks(s: State, w: nat)
    requires TasksKept(s) && Enabled(s, CountDown(w))
    ensures TasksKept(Apply(s, CountDown(w)))
  {
    hide TasksKept;
    MoveKeepsTasks(s, w, CountedDown, Apply(s, CountDown(w)));
  }

  lemma AnnounceKeepsTasks(s: State, w: nat)
    requires TasksKept(s) && Enabled(s, Announce(w))
    ensures TasksKept(Apply(s, Announce(w)))
  {
    hide TasksKept;
    MoveKeepsTasks(s, w, Checking, Apply(s, Announce(w)));
  }

  lemma WakeKeepsTasks(s: State, w: nat, step: Step)
    requires TasksKept(s) && Enabled(s, step) && step in {NotifyOne(w), Spurious(w)}
    ensures TasksKept(Apply(s, step))
  {
    hide TasksKept;
    if Asleep in s.workers {
      MoveKeepsTasks(s, w, Checking, Apply(s, step));
    } else {
      SameTasks(s, Apply(s, step));
    }
  }

  lemma OtherKeepsTasks(s: State, step: Step)
    requires TasksKept(s) && Enabled(s, step)
    requires step.SetStop? || step.NotifyAll? || step.Join? || step.WaitCheck? || step.WaitBlock? || step.WaitSpurious?
    ensures TasksKept(Apply(s, step))
  {
    hide TasksKept;
    if step == NotifyAll {
      WakeAllKeepsTasks(s);
    } else {
      SameTasks(s, Apply(s, step));
    }
  }

  lemma StepKeepsTasks(s: State, step: Step)
    requires TasksKept(s) && Enabled(s, step)
    ensures TasksKept(Apply(s, step))
    ensures Apply(s, step).accepted == s.accepted + (if step.Enqueue? && !s.stop then [step.task] else [])
  {
    hide TasksKept, Apply, Enabled;
    AcceptedByStep(s, step);
    match step {
      case Enqueue(task) => EnqueueKeepsTasks(s, task);
      case NotifyOne(w) => WakeKeepsTasks(s, w, step);
      case Spurious(w) => WakeKeepsTasks(s, w, step);
      case Check(w) =>
        CheckKeepsTasks(s, w);
        CheckStep(s, w);
      case CountUp(w) => CountUpKeepsTasks(s, w);
      case Finish(w) => FinishKeepsTasks(s, w);
      case CountDown(w) => CountDownKeepsTasks(s, w);
      case Announce(w) => AnnounceKeepsTasks(s, w);
      case _ => OtherKeepsTasks(s, step);
    }
  }

  lemma MovesWaker(s: State, w: nat, loc: Worker)
    requires w < |s.workers|
    ensures Sum(InSleep, s.workers[w := loc]) + Weight(InSleep, s.workers[w]) == Sum(InSleep, s.workers) + Weight(InSleep, loc)
    ensures Sum(InCheck, s.workers[w := loc]) + Weight(InCheck, s.workers[w]) == Sum(InCheck, s.workers) + Weight(InCheck, loc)
  {
    SumUpdate(InSleep, s.workers, w, loc);
    SumUpdate(InCheck, s.workers, w, loc);
  }

  lemma NobodySleeps(s: State)
    ensures Sum(InSleep, s.workers) == 0 <==> Asleep !in s.workers
  {
    SumZero(InSleep, s.workers);
    if Sum(InSleep, s.workers) == 0 {
      forall i | 0 <= i < |s.workers|
        ensures s.workers[i] != Asleep
      {
        assert Weight(InSleep, s.workers[i]) == 0;
      }
    }
  }

  lemma StepKeepsWakeups(s: State, step: Step)
    requires WakeupsKept(s) && Enabled(s, step)
    ensures WakeupsKept(Apply(s, step))
  {
    hide Sum;
    NobodySleeps(s);
    match step {
      case NotifyOne(w) =>
        if Asleep in s.workers {
          MovesWaker(s, w, Checking);
        }
      case NotifyAll => WakeAll(s.workers);
      case Spurious(w) => MovesWaker(s, w, Checking);
      case Check(w) =>
        if !s.stop && s.queue == [] {
          MovesWaker(s, w, Asleep);
        } else if s.queue == [] {
          MovesWaker(s, w, Exited);
        } else {
          MovesWaker(s, w, Popped(s.queue[0]));
        }
      case CountUp(w) => MovesWaker(s, w, Running(s.workers[w].task));
      case Finish(w) => MovesWaker(s, w, Ran);
      case CountDown(w) => MovesWaker(s, w, CountedDown);
      case Announce(w) => MovesWaker(s, w, Checking);
      case _ =>
    }
  }

  /** A worker that has not left goes on, or leaves when it may. */
  lemma MoveKeepsExits(s: State, w: nat, loc: Worker, t: State)
    requires ExitsKept(s) && w < |s.workers| && s.workers[w] != Exited
    requires t.workers == s.workers[w := loc] && t.stop == s.stop && t.joined == s.joined
    requires s.queue == [] ==> t.queue == []
    requires loc == Exited ==> s.stop && t.queue == []
    ensures ExitsKept(t)
  {
    hide Sum;
    SumUpdate(InExit, s.workers, w, loc);
  }

  lemma CheckKeepsExits(s: State, w: nat)
    requires ExitsKept(s) && At(s, w, Checking)
    ensures ExitsKept(AfterCheck(s, w))
  {
    hide ExitsKept;
    var t := AfterCheck(s, w);
    MoveKeepsExits(s, w, t.workers[w], t);
  }

  lemma WorkerKeepsExits(s: State, w: nat, step: Step)
    requires ExitsKept(s) && Enabled(s, step)
    requires step == CountUp(w) || step == Finish(w) || step == CountDown(w) || step == Announce(w) || step == Spurious(w)
    ensures ExitsKept(Apply(s, step))
  {
    hide ExitsKept;
    var t := Apply(s, step);
    MoveKeepsExits(s, w, t.workers[w], t);
  }

  lemma NotifyKeepsExits(s: State, step: Step)
    requires ExitsKept(s) && Enabled(s, step) && (step.NotifyOne? || step.NotifyAll?)
    ensures ExitsKept(Apply(s, step))
  {
    hide Sum;
    if step.NotifyAll? {
      WakeAll(s.workers);
    } else if Asleep in s.workers {
      MoveKeepsExits(s, step.w, Checking, Apply(s, step));
    }
  }

  lemma OtherKeepsExits(s: State, step: Step)
    requires ExitsKept(s) && Enabled(s, step)
    requires step.Enqueue? || step.SetStop? || step.Join? || step.WaitCheck? || step.WaitBlock? || step.WaitSpurious?
    ensures ExitsKept(Apply(s, step))
  {
    hide Sum;
  }

  lemma StepKeepsExits(s: State, step: Step)
    requires ExitsKept(s) && Enabled(s, step)
    ensures ExitsKept(Apply(s, step))
  {
    hide ExitsKept, Apply;
    match step {
      case NotifyOne(_) => NotifyKeepsExits(s, step);
      case NotifyAll => NotifyKeepsExits(s, step);
      case Check(w) =>
        CheckKeepsExits(s, w);
        CheckStep(s, w);
      case CountUp(w) => WorkerKeepsExits(s, w, step);
      case Finish(w) => WorkerKeepsExits(s, w, step);
      case CountDown(w) => WorkerKeepsExits(s, w, step);
      case Announce(w) => WorkerKeepsExits(s, w, step);
      case Spurious(w) => WorkerKeepsExits(s, w, step);
      case _ => OtherKeepsExits(s, step);
    }
  }

  lemma StepKeepsHolder(s: State, step: Step)
    requires OneHolder(s) && Enabled(s, step)
    ensures OneHolder(Apply(s, step))
  {
  }

  lemma StepKeepsInv(s: State, step: Step)
    requires Inv(s) && Enabled(s, step)
    ensures Inv(Apply(s, step))
  {
    hide TasksKept, WakeupsKept, ExitsKept, OneHolder, Apply, Enabled;
    StepKeepsTasks(s, step);
    StepKeepsWakeups(s, step);
    StepKeepsExits(s, step);
    StepKeepsHolder(s, step);
  }

  /** The invariant holds in every state any interleaving reaches. */
  lemma {:induction false} RunKeepsInv(s: State, steps: seq<Step>, t: State)
    requires Inv(s) && Leads(s, steps, t)
    ensures Inv(t)
    decreases |steps|
  {
    hide Inv, Apply, Enabled;
    if steps != [] {
      StepKeepsInv(s, steps[0]);
      RunKeepsInv(Apply(s, steps[0]), steps[1..], t);
    }
  }

  // ---- Conservation ------------------------------------------------------------------------

  /** The tasks of the enqueue calls of a run before its first stop, in order: those enqueue does not refuse. */
  function Pushed(steps: seq<Step>): seq<Task> {
    if steps == [] || steps[0].SetStop? then []
    else (if steps[0].Enqueue? then [steps[0].task] else []) + Pushed(steps[1..])
  }

  /** Each enqueue call is accepted, unless stop_ is set, and nothing else is. */
  lemma AcceptedByStep(s: State, step: Step)
    requires Enabled(s, step)
    ensures Apply(s, step).accepted == s.accepted + (if step.Enqueue? && !s.stop then [step.task] else [])
    ensures Apply(s, step).stop <==> s.stop || step.SetStop?
  {
    hide Woken, Called;
    assert s.accepted + [] == s.accepted;
  }

  lemma {:induction false} AcceptedInRun(s: State, steps: seq<Step>, t: State)
    requires Leads(s, steps, t)
    ensures t.accepted == s.accepted + (if s.stop then [] else Pushed(steps))
    ensures t.stop <==> s.stop || SetStop in steps
    decreases |steps|
  {
    hide Apply, Enabled;
    if steps == [] {
      assert s.accepted + [] == s.accepted;
    } else {
      var step, rest := steps[0], steps[1..];
      assert steps == [step] + rest;
      AcceptedByStep(s, step);
      AcceptedInRun(Apply(s, step), rest, t);
      PushedNext(s.accepted, step, rest);
    }
  }

  lemma PushedNext(before: seq<Task>, step: Step, rest: seq<Step>)
    ensures Pushed([step] + rest) ==
            if step.SetStop? then [] else (if step.Enqueue? then [step.task] else []) + Pushed(rest)
    ensures (before + (if step.Enqueue? then [step.task] else [])) + Pushed(rest) ==
            before + ((if step.Enqueue? then [step.task] else []) + Pushed(rest))
    ensures before + [] == before
  {
    assert ([step] + rest)[1..] == rest;
  }

  /**
    * In every reachable state the tasks pushed are those taken, in push order, followed by the queue; each is queued, held
    * by one worker, or finished, as often as it was pushed.
    */
  lemma TasksConserved(workers: nat, waiters: nat, steps: seq<Step>, t: State)
    requires Leads(Start(workers, waiters), steps, t)
    ensures Pushed(steps) == t.accepted == t.popped + t.queue
    ensures multiset(Pushed(steps)) == multiset(t.queue) + Held(t.workers) + multiset(t.finished)
    ensures t.active == Sum(InActive, t.workers)
  {
    hide Leads, Apply, Enabled, Sum, Held, Pushed;
    StartInv(workers, waiters);
    RunKeepsInv(Start(workers, waiters), steps, t);
    AcceptedInRun(Start(workers, waiters), steps, t);
    assert [] + Pushed(steps) == Pushed(steps);
  }

  function Enqueues(tasks: seq<Task>): (steps: seq<Step>)
    ensures |steps| == |tasks| && forall i :: 0 <= i < |tasks| ==> steps[i] == Enqueue(tasks[i])
  {
    seq(|tasks|, i requires 0 <= i < |tasks| => Enqueue(tasks[i]))
  }

  lemma EnqueueOne(s: State, task: Task)
    requires !Locked(s) && !s.stop
    ensures Enabled(s, Enqueue(task))
    ensures Apply(s, Enqueue(task)) == s.(queue := s.queue + [task], accepted := s.accepted + [task], notifyOnes := s.notifyOnes + 1)
  {
  }

  lemma ConsFirst(before: seq<Task>, tasks: seq<Task>)
    requires tasks != []
    ensures (before + [tasks[0]]) + tasks[1..] == before + tasks
  {
  }

  /** While the mutex is free and stop_ is not set, any tasks can be enqueued, one after the other. */
  lemma {:induction false} AnyTasksAccepted(s: State, tasks: seq<Task>) returns (t: State)
    requires !Locked(s) && !s.stop
    ensures Leads(s, Enqueues(tasks), t)
    ensures t == s.(queue := s.queue + tasks, accepted := s.accepted + tasks, notifyOnes := s.notifyOnes + |tasks|)
    decreases |tasks|
  {
    hide Apply, Enabled;
    if tasks == [] {
      t := s;
      assert s.queue + [] == s.queue && s.accepted + [] == s.accepted;
    } else {
      EnqueueOne(s, tasks[0]);
      assert Enqueues(tasks)[1..] == Enqueues(tasks[1..]);
      t := AnyTasksAccepted(Apply(s, Enqueue(tasks[0])), tasks[1..]);
      ConsFirst(s.queue, tasks);
      ConsFirst(s.accepted, tasks);
    }
  }

  // ---- Wakeups --------------------------------------------------------------------------------

  predicate Awake(w: Worker) {
    !w.Asleep? && !w.Exited?
  }

  /** While a task is queued, some worker is awake or a notification is on its way. */
  lemma QueuedTaskIsSeen(s: State)
    requires Inv(s) && s.queue != [] && |s.workers| > 0
    ensures s.notifyOnes > 0 || exists w :: 0 <= w < |s.workers| && Awake(s.workers[w])
  {
    hide Sum, Held;
    SumZero(InExit, s.workers);
    SumZero(InSleep, s.workers);
    SumZero(InCheck, s.workers);
    assert Weight(InExit, s.workers[0]) == 0;
    if Sum(InSleep, s.workers) == 0 {
      assert Weight(InSleep, s.workers[0]) == 0;
      assert Awake(s.workers[0]);
    } else if s.notifyOnes == 0 {
      var w :| 0 <= w < |s.workers| && Weight(InCheck, s.workers[w]) != 0;
      assert Awake(s.workers[w]);
    }
  }

  // ---- Runs ---------------------------------------------------------------------------------------

  lemma StepKeepsWorkers(s: State, step: Step)
    requires Enabled(s, step)
    ensures |Apply(s, step).workers| == |s.workers|
  {
  }

  lemma {:induction false} SameWorkers(s: State, steps: seq<Step>, t: State)
    requires Leads(s, steps, t)
    ensures |t.workers| == |s.workers|
    decreases |steps|
  {
    hide Apply, Enabled;
    if steps != [] {
      StepKeepsWorkers(s, steps[0]);
      SameWorkers(Apply(s, steps[0]), steps[1..], t);
    }
  }
}

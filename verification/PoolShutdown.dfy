/** Shutting the thread pool down: it takes boundedly many steps, cannot get stuck, and leaves no task behind. */
module PoolShutdown {
  import opened ThreadPooling
  import opened PoolLaws
  import opened PoolWaiting

  // ---- Shutdown -----------------------------------------------------------------------------------

  /** Steps of the workers, of the destructor, and of enqueuers finishing their call. */
  predicate Progress(step: Step) {
    !(step.Enqueue? || step.SetStop? || step.WaitCheck? || step.WaitBlock? || step.WaitSpurious?)
  }

  function Remaining(s: State): int {
    5 * |s.queue| + Sum(InRank, s.workers) + s.notifyOnes + (if s.notifyAll then 1 else 0) + |s.workers| - s.joined
  }

  /** After stop_, progress steps use up what remains and no step adds to it. */
  lemma StopStepShrinks(s: State, step: Step)
    requires Inv(s) && s.stop && Enabled(s, step)
    ensures Apply(s, step).stop
    ensures Remaining(Apply(s, step)) <= Remaining(s) - (if Progress(step) then 1 else 0)
  {
    hide Sum, Held;
    match step {
      case NotifyOne(w) =>
        if Asleep in s.workers {
          SumUpdate(InRank, s.workers, w, Checking);
        }
      case NotifyAll => WakeAll(s.workers);
      case Spurious(w) => SumUpdate(InRank, s.workers, w, Checking);
      case Check(w) =>
        if s.queue == [] {
          SumUpdate(InRank, s.workers, w, Exited);
        } else {
          SumUpdate(InRank, s.workers, w, Popped(s.queue[0]));
        }
      case CountUp(w) => SumUpdate(InRank, s.workers, w, Running(s.workers[w].task));
      case Finish(w) => SumUpdate(InRank, s.workers, w, Ran);
      case CountDown(w) => SumUpdate(InRank, s.workers, w, CountedDown);
      case Announce(w) => SumUpdate(InRank, s.workers, w, Checking);
      case _ =>
    }
  }

  function ProgressCount(steps: seq<Step>): nat {
    if steps == [] then 0 else (if Progress(steps[0]) then 1 else 0) + ProgressCount(steps[1..])
  }

  /** Any run after stop_ has at most as many progress steps as remained at its start. */
  lemma {:induction false} ShutdownIsBounded(s: State, steps: seq<Step>, t: State)
    requires Inv(s) && s.stop && Leads(s, steps, t)
    ensures t.stop && ProgressCount(steps) <= Remaining(s) - Remaining(t) && Remaining(t) >= 0
    decreases |steps|
  {
    hide Apply, Enabled, Remaining, Progress;
    if steps != [] {
      StopStepShrinks(s, steps[0]);
      StepKeepsInv(s, steps[0]);
      ShutdownIsBounded(Apply(s, steps[0]), steps[1..], t);
    } else {
      RemainingNonNegative(s);
    }
  }

  lemma RemainingNonNegative(s: State)
    requires Inv(s)
    ensures Remaining(s) >= 0 && s.joined <= |s.workers|
  {
  }

  /** After stop_, until all workers are joined, a step of the pool can be taken: a progress step, or a waiter giving the mutex back. */
  lemma ShutdownGoesOn(s: State) returns (step: Step)
    requires Inv(s) && s.stop && s.joined < |s.workers|
    ensures Enabled(s, step) && !FromOutside(step)
    ensures if Locked(s) then step.WaitBlock? && !Locked(Apply(s, step)) else Progress(step)
  {
    if Locked(s) {
      var i := Unlock(s);
      step := WaitBlock(i);
    } else if s.notifyAll {
      step := NotifyAll;
    } else {
      var w := s.joined;
      NobodySleeps(s);
      assert s.workers[w] != Asleep;
      SumZero(InActive, s.workers);
      match s.workers[w] {
        case Checking => step := Check(w);
        case Asleep => assert false;
        case Popped(_) => step := CountUp(w);
        case Running(_) => step := Finish(w);
        case Ran =>
          assert Weight(InActive, s.workers[w]) == 1;
          step := CountDown(w);
        case CountedDown => step := Announce(w);
        case Exited => step := Join;
      }
    }
  }

  /** The destructor can always finish: from any state after stop_, some run of the pool's own steps joins all workers. */
  lemma {:induction false} ShutdownCompletes(s: State) returns (steps: seq<Step>, t: State)
    requires Inv(s) && s.stop
    ensures Inside(steps) && Leads(s, steps, t) && t.joined == |t.workers| == |s.workers|
    decreases Remaining(s), if Locked(s) then 1 else 0
  {
    hide Inv, Apply, Enabled, Remaining, Leads, Locked, Progress, FromOutside;
    RemainingNonNegative(s);
    if s.joined == |s.workers| {
      steps, t := [], s;
      LeadsNowhere(s);
    } else {
      var step := ShutdownGoesOn(s);
      StepKeepsInv(s, step);
      StopStepShrinks(s, step);
      StepKeepsWorkers(s, step);
      RemainingNonNegative(Apply(s, step));
      var rest;
      rest, t := ShutdownCompletes(Apply(s, step));
      steps := Before(s, step, Apply(s, step), rest, t);
    }
  }

  lemma {:induction false} AllExitedHoldNothing(ws: seq<Worker>)
    requires forall i :: 0 <= i < |ws| ==> ws[i] == Exited
    ensures Held(ws) == multiset{} && Sum(InExit, ws) == |ws|
  {
    if ws != [] {
      AllExitedHoldNothing(ws[1..]);
    }
  }

  /** Once the destructor has joined its workers, every task pushed before stop_ has run exactly as often as it was pushed. */
  lemma JoinedMeansDone(workers: nat, waiters: nat, steps: seq<Step>, t: State)
    requires workers > 0 && Leads(Start(workers, waiters), steps, t)
    requires t.joined == |t.workers|
    ensures |t.workers| == workers
    ensures t.queue == [] && multiset(t.finished) == multiset(Pushed(steps))
  {
    hide Leads, Apply, Enabled, Pushed;
    StartInv(workers, waiters);
    RunKeepsInv(Start(workers, waiters), steps, t);
    SameWorkers(Start(workers, waiters), steps, t);
    TasksConserved(workers, waiters, steps, t);
    AllExitedHoldNothing(t.workers);
  }
}

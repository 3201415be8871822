/**
  * The thread pool of src/common/thread_pool.cpp and include/common/thread_pool.h as an interleaving of atomic steps.
  * A step is what one thread does under the mutex, or one access outside it.
  */
module ThreadPooling {
  type Task = nat

  /** Where a worker stands in its loop. */
  datatype Worker =
    | Checking              // about to take the lock and test its condition
    | Asleep                // blocked on condition_
    | Popped(task: Task)    // has taken a task, has not counted itself active yet
    | Running(task: Task)   // counted active, task not finished
    | Ran                   // task finished, still counted active
    | CountedDown           // no longer counted, has not notified the waiters yet
    | Exited

  /** Where a caller of wait() stands. */
  datatype Waiter =
    | Calling    // about to take the lock and test its condition
    | Deciding   // found the condition false, holds the lock, is about to block
    | Blocked    // blocked on wait_condition_
    | Returned

  /**
    * `notifyOnes` counts enqueuers between their push and their notify_one; `notifyAll` says that the destructor has
    * set stop_ and not yet notified. `accepted`, `popped` and `finished` record the run.
    */
  datatype State = State(
    queue: seq<Task>, workers: seq<Worker>, waiters: seq<Waiter>, stop: bool, active: nat,
    notifyOnes: nat, notifyAll: bool, joined: nat,
    accepted: seq<Task>, popped: seq<Task>, finished: seq<Task>)

  function Start(workers: nat, waiters: nat): State {
    State([], seq(workers, i => Checking), seq(waiters, i => Calling), false, 0, 0, false, 0, [], [], [])
  }

  datatype Step =
    | Enqueue(task: Task)
    | NotifyOne(w: nat)
    | SetStop
    | NotifyAll
    | Join
    | Spurious(w: nat)
    | Check(w: nat)
    | CountUp(w: nat)
    | Finish(w: nat)
    | CountDown(w: nat)
    | Announce(w: nat)
    | WaitCheck(i: nat)
    | WaitBlock(i: nat)
    | WaitSpurious(i: nat)

  /** The mutex is held across steps only by a waiter about to block. */
  predicate Locked(s: State) {
    Deciding in s.waiters
  }

  predicate At(s: State, w: nat, loc: Worker) {
    w < |s.workers| && s.workers[w] == loc
  }

  predicate Enabled(s: State, step: Step) {
    match step
    case Enqueue(_) => !Locked(s)
    case NotifyOne(w) => s.notifyOnes > 0 && (Asleep !in s.workers || At(s, w, Asleep))
    case SetStop => !Locked(s) && !s.stop
    case NotifyAll => s.notifyAll
    case Join => s.stop && !s.notifyAll && At(s, s.joined, Exited)
    case Spurious(w) => At(s, w, Asleep)
    case Check(w) => !Locked(s) && At(s, w, Checking)
    case CountUp(w) => w < |s.workers| && s.workers[w].Popped?
    case Finish(w) => w < |s.workers| && s.workers[w].Running?
    case CountDown(w) => At(s, w, Ran) && s.active > 0
    case Announce(w) => At(s, w, CountedDown)
    case WaitCheck(i) => !Locked(s) && i < |s.waiters| && s.waiters[i] == Calling
    case WaitBlock(i) => i < |s.waiters| && s.waiters[i] == Deciding
    case WaitSpurious(i) => i < |s.waiters| && s.waiters[i] == Blocked
  }

  /** All workers blocked on condition_ go back to testing it. */
  function Woken(ws: seq<Worker>): (r: seq<Worker>)
    ensures |r| == |ws|
    ensures forall i :: 0 <= i < |ws| ==> r[i] == if ws[i] == Asleep then Checking else ws[i]
  {
    seq(|ws|, i requires 0 <= i < |ws| => if ws[i] == Asleep then Checking else ws[i])
  }

  function Called(ws: seq<Waiter>): (r: seq<Waiter>)
    ensures |r| == |ws|
    ensures forall i :: 0 <= i < |ws| ==> r[i] == if ws[i] == Blocked then Calling else ws[i]
  {
    seq(|ws|, i requires 0 <= i < |ws| => if ws[i] == Blocked then Calling else ws[i])
  }

  /** The whole critical section of a worker: sleep, leave, or take the oldest task. */
  function AfterCheck(s: State, w: nat): State
    requires w < |s.workers|
  {
    if !s.stop && s.queue == [] then s.(workers := s.workers[w := Asleep])
    else if s.queue == [] then s.(workers := s.workers[w := Exited])
    else s.(workers := s.workers[w := Popped(s.queue[0])], queue := s.queue[1..], popped := s.popped + [s.queue[0]])
  }

  /** What wait() waits for. */
  predicate Idle(s: State) {
    s.queue == [] && s.active == 0
  }

  function Apply(s: State, step: Step): State
    requires Enabled(s, step)
  {
    match step
    case Enqueue(task) =>
      if s.stop then s
      else s.(queue := s.queue + [task], accepted := s.accepted + [task], notifyOnes := s.notifyOnes + 1)
    case NotifyOne(w) =>
      if Asleep in s.workers then s.(notifyOnes := s.notifyOnes - 1, workers := s.workers[w := Checking])
      else s.(notifyOnes := s.notifyOnes - 1)
    case SetStop => s.(stop := true, notifyAll := true)
    case NotifyAll => s.(notifyAll := false, workers := Woken(s.workers))
    case Join => s.(joined := s.joined + 1)
    case Spurious(w) => s.(workers := s.workers[w := Checking])
    case Check(w) => AfterCheck(s, w)
    case CountUp(w) => s.(workers := s.workers[w := Running(s.workers[w].task)], active := s.active + 1)
    case Finish(w) => s.(workers := s.workers[w := Ran], finished := s.finished + [s.workers[w].task])
    case CountDown(w) => s.(workers := s.workers[w := CountedDown], active := s.active - 1)
    case Announce(w) => s.(workers := s.workers[w := Checking], waiters := Called(s.waiters))
    case WaitCheck(i) => s.(waiters := s.waiters[i := if Idle(s) then Returned else Deciding])
    case WaitBlock(i) => s.(waiters := s.waiters[i := Blocked])
    case WaitSpurious(i) => s.(waiters := s.waiters[i := Calling])
  }

  /** `steps` leads from `s` to `t`. */
  predicate Leads(s: State, steps: seq<Step>, t: State)
    decreases |steps|
  {
    if steps == [] then s == t
    else Enabled(s, steps[0]) && Leads(Apply(s, steps[0]), steps[1..], t)
  }
}

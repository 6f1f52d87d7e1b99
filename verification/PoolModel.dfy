/** The thread pool as interleaved atomic steps of workers, clients and the destructor. */
module PoolModel {
  import opened Basics

  /** Where a worker thread stands. It holds the mutex while Testing, Blocking and Deciding. */
  datatype Worker =
    | Locking               // about to acquire the mutex, at first or after being woken
    | Testing               // about to evaluate the wait predicate
    | Blocking              // found it false, about to release the mutex and wait in one step
    | Waiting               // in the wait set of the condition variable
    | Deciding              // found it true, about to exit or to take a task
    | Running(task: int)    // outside the lock, inside the task
    | Exited

  /** Where a thread that uses the pool stands. It holds the mutex while Checking, Pushing and Clearing. */
  datatype Client =
    | Idle
    | Enqueuing(task: int)
    | Checking(task: int)
    | Pushing(task: int)    // saw stop unset, the lock still held
    | Notifying             // pushed and unlocked, notify_one still to come
    | Flushing
    | Clearing

  datatype Destructor = Alive | StopStored | NotifiedAll

  datatype Holder = Free | ByWorker(w: nat) | ByClient(c: nat)

  datatype Fate = TakenBy(w: nat) | Dropped

  /** The pool, and three logs: tasks pushed, what became of each removed one, and what each worker finished. */
  datatype State = State(
    tasks: seq<int>,
    stop: bool,
    holder: Holder,
    workers: seq<Worker>,
    clients: seq<Client>,
    destructor: Destructor,
    enqueued: seq<int>,
    fates: seq<Fate>,
    finished: seq<seq<int>>)

  datatype Action =
    | WLock(w: nat)
    | WTest(w: nat)
    | WBlock(w: nat)
    | WWake(w: nat)                         // spurious wake-up
    | WDecide(w: nat)
    | WFinish(w: nat)
    | CSubmit(c: nat, task: int)
    | CLock(c: nat)
    | CCheck(c: nat)
    | CPush(c: nat)
    | CNotify(c: nat, woken: Option<nat>)   // notify_one picks any waiting worker
    | CFlush(c: nat)
    | CClear(c: nat)
    | DStop
    | DNotifyAll

  function Init(workers: nat, clients: nat): State {
    State([], false, Free, seq(workers, i => Locking), seq(clients, i => Idle), Alive, [], [], seq(workers, i => []))
  }

  predicate NoneWaiting(s: State) {
    forall w :: 0 <= w < |s.workers| ==> s.workers[w] != Waiting
  }

  predicate Enabled(s: State, a: Action) {
    match a
    case WLock(w) => w < |s.workers| && s.workers[w].Locking? && s.holder.Free?
    case WTest(w) => w < |s.workers| && s.workers[w].Testing?
    case WBlock(w) => w < |s.workers| && s.workers[w].Blocking?
    case WWake(w) => w < |s.workers| && s.workers[w].Waiting?
    case WDecide(w) => w < |s.workers| && s.workers[w].Deciding?
    case WFinish(w) => w < |s.workers| && w < |s.finished| && s.workers[w].Running?
    case CSubmit(c, task) => c < |s.clients| && s.clients[c].Idle?
    case CLock(c) => c < |s.clients| && (s.clients[c].Enqueuing? || s.clients[c].Flushing?) && s.holder.Free?
    case CCheck(c) => c < |s.clients| && s.clients[c].Checking?
    case CPush(c) => c < |s.clients| && s.clients[c].Pushing?
    case CNotify(c, woken) =>
      && c < |s.clients| && s.clients[c].Notifying?
      && (if woken.Some? then woken.value < |s.workers| && s.workers[woken.value].Waiting? else NoneWaiting(s))
    case CFlush(c) => c < |s.clients| && s.clients[c].Idle?
    case CClear(c) => c < |s.clients| && s.clients[c].Clearing?
    case DStop => s.destructor.Alive?
    case DNotifyAll => s.destructor.StopStored?
  }

  function Next(s: State, a: Action): State
    requires Enabled(s, a)
  {
    match a
    case WLock(w) => s.(workers := s.workers[w := Testing], holder := ByWorker(w))
    case WTest(w) => s.(workers := s.workers[w := if s.stop || s.tasks != [] then Deciding else Blocking])
    case WBlock(w) => s.(workers := s.workers[w := Waiting], holder := Free)
    case WWake(w) => s.(workers := s.workers[w := Locking])
    case WDecide(w) =>
      if s.stop && s.tasks == [] then s.(workers := s.workers[w := Exited], holder := Free)
      else if s.tasks == [] then s // front() of an empty queue: never reached, see NeverPopsEmpty
      else s.(workers := s.workers[w := Running(s.tasks[0])], holder := Free,
              tasks := s.tasks[1..], fates := s.fates + [TakenBy(w)])
    case WFinish(w) =>
      s.(workers := s.workers[w := Locking], finished := s.finished[w := s.finished[w] + [s.workers[w].task]])
    case CSubmit(c, task) => s.(clients := s.clients[c := Enqueuing(task)])
    case CLock(c) =>
      s.(clients := s.clients[c := if s.clients[c].Enqueuing? then Checking(s.clients[c].task) else Clearing],
         holder := ByClient(c))
    case CCheck(c) =>
      if s.stop then s.(clients := s.clients[c := Idle], holder := Free)
      else s.(clients := s.clients[c := Pushing(s.clients[c].task)])
    case CPush(c) =>
      s.(clients := s.clients[c := Notifying], holder := Free,
         tasks := s.tasks + [s.clients[c].task], enqueued := s.enqueued + [s.clients[c].task])
    case CNotify(c, woken) =>
      s.(clients := s.clients[c := Idle],
         workers := if woken.Some? then s.workers[woken.value := Locking] else s.workers)
    case CFlush(c) => s.(clients := s.clients[c := Flushing])
    case CClear(c) =>
      s.(clients := s.clients[c := Idle], holder := Free,
         tasks := [], fates := s.fates + seq(|s.tasks|, i => Dropped))
    case DStop => s.(stop := true, destructor := StopStored)
    case DNotifyAll => s.(workers := WakeAll(s.workers), destructor := NotifiedAll)
  }

  function WakeAll(workers: seq<Worker>): (woken: seq<Worker>)
    ensures |woken| == |workers|
    ensures forall w :: 0 <= w < |workers| ==> woken[w] == if workers[w].Waiting? then Locking else workers[w]
  {
    seq(|workers|, w requires 0 <= w < |workers| => if workers[w].Waiting? then Locking else workers[w])
  }

  /** `run` is a sequence of steps leading from `s` to `t`. */
  ghost predicate Run(s: State, run: seq<Action>, t: State)
    decreases |run|
  {
    if run == [] then s == t
    else Enabled(s, run[0]) && Run(Next(s, run[0]), run[1..], t)
  }

  lemma {:induction false} RunConcat(s: State, first: seq<Action>, t: State, second: seq<Action>, u: State)
    requires Run(s, first, t) && Run(t, second, u)
    ensures Run(s, first + second, u)
    decreases |first|
  {
    if first == [] {
      assert first + second == second;
    } else {
      RunConcat(Next(s, first[0]), first[1..], t, second, u);
      assert (first + second)[1..] == first[1..] + second;
    }
  }

  /** Every state some interleaving of some number of clients can bring a pool of `workers` threads to. */
  ghost predicate Reachable(s: State) {
    exists workers: nat, clients: nat, run :: Run(Init(workers, clients), run, s)
  }
}

/** Safety of the pool over every run, and what its destructor does and does not guarantee. */
module PoolSafety {
  import opened PoolModel
  import opened PoolInvariants

  // ---------------------------------------------------------------- reachable states

  lemma ReachableRun(s: State, run: seq<Action>, t: State)
    requires Reachable(s) && Run(s, run, t)
    ensures Reachable(t)
  {
    var workers: nat, clients: nat, first :| Run(Init(workers, clients), first, s);
    RunConcat(Init(workers, clients), first, s, run, t);
  }

  lemma ReachableStep(s: State, a: Action)
    requires Reachable(s) && Enabled(s, a)
    ensures Reachable(Next(s, a))
  {
    assert Run(Next(s, a), [], Next(s, a));
    assert [a][1..] == [];
    assert Run(s, [a], Next(s, a));
    ReachableRun(s, [a], Next(s, a));
  }

  lemma InitIsReachable(workers: nat, clients: nat)
    ensures Reachable(Init(workers, clients))
  {
    assert Run(Init(workers, clients), [], Init(workers, clients));
  }

  // ---------------------------------------------------------------- the queue

  /** The code never takes the front of an empty queue. */
  lemma NeverPopsEmpty(s: State, w: nat)
    requires Reachable(s) && w < |s.workers| && s.workers[w].Deciding?
    ensures s.stop || s.tasks != []
  {
    ReachableInv(s);
    assert WorkerOk(s, w);
  }

  /** While some worker sleeps, no queued task depends on a wake-up that has already been spent. */
  lemma NoLostWakeup(s: State)
    requires Reachable(s)
    requires exists w :: 0 <= w < |s.workers| && s.workers[w].Waiting?
    ensures |s.tasks| <= Count(s.clients, IsNotifying) + Count(s.workers, IsSearching)
  {
    ReachableInv(s);
    var w :| 0 <= w < |s.workers| && s.workers[w].Waiting?;
    assert IsWaiting(s.workers[w]);
    CountPositive(s.workers, IsWaiting);
  }

  /** A queued task is never stranded: a notify is on its way, or a worker is awake and will come back to the queue. */
  lemma NoStrandedTask(s: State)
    requires Reachable(s) && |s.workers| >= 1 && s.tasks != []
    ensures || (exists c :: 0 <= c < |s.clients| && s.clients[c].Notifying?)
            || (exists w :: 0 <= w < |s.workers| && (IsSearching(s.workers[w]) || s.workers[w].Running?))
  {
    ReachableInv(s);
    assert WorkerOk(s, 0);
    if IsWaiting(s.workers[0]) {
      NoLostWakeup(s);
      CountPositive(s.clients, IsNotifying);
      CountPositive(s.workers, IsSearching);
      if Count(s.clients, IsNotifying) > 0 {
        var c :| 0 <= c < |s.clients| && IsNotifying(s.clients[c]);
        assert s.clients[c].Notifying?;
      }
    } else {
      assert IsSearching(s.workers[0]) || s.workers[0].Running?;
    }
  }

  // ---------------------------------------------------------------- conservation and order

  /** Pushed tasks are the removed ones, then the queue, in push order; each worker finishes what it took, in order. */
  lemma TasksAreConserved(s: State)
    requires Reachable(s)
    ensures |s.fates| <= |s.enqueued| && s.enqueued == s.enqueued[..|s.fates|] + s.tasks
    ensures |s.finished| == |s.workers|
    ensures forall w :: 0 <= w < |s.workers| ==>
              s.finished[w] + InHand(s.workers[w]) == TakenTasks(s.enqueued, s.fates, w)
    ensures TotalTaken(s.enqueued, s.fates, |s.workers|) + Count(s.fates, IsDropped) + |s.tasks| == |s.enqueued|
  {
    ReachableInv(s);
    QueueIsSuffix(s.enqueued, |s.fates|, s.tasks);
    TakenOnce(s.enqueued, s.fates, |s.workers|);
  }

  lemma QueueIsSuffix(enqueued: seq<int>, n: nat, tasks: seq<int>)
    requires n <= |enqueued| && tasks == enqueued[n..]
    ensures enqueued == enqueued[..n] + tasks && n + |tasks| == |enqueued|
  {
  }

  /** Counted over all workers, every removed task was either dropped by a flush or taken once. */
  lemma {:induction false} TakenOnce(enqueued: seq<int>, fates: seq<Fate>, workers: nat)
    requires |fates| <= |enqueued|
    requires forall i :: 0 <= i < |fates| && fates[i].TakenBy? ==> fates[i].w < workers
    ensures TotalTaken(enqueued, fates, workers) + Count(fates, IsDropped) == |fates|
    decreases |fates|
  {
    if fates == [] {
      NothingTaken(enqueued, workers);
    } else {
      var n := |fates| - 1;
      TakenOnce(enqueued, fates[..n], workers);
      OneMoreTaken(enqueued, fates, workers);
    }
  }

  predicate IsDropped(f: Fate) { f.Dropped? }

  /** How many tasks the first `workers` workers took together. */
  function TotalTaken(enqueued: seq<int>, fates: seq<Fate>, workers: nat): nat
    requires |fates| <= |enqueued|
  {
    if workers == 0 then 0
    else TotalTaken(enqueued, fates, workers - 1) + |TakenTasks(enqueued, fates, workers - 1)|
  }

  lemma {:induction false} NothingTaken(enqueued: seq<int>, workers: nat)
    ensures TotalTaken(enqueued, [], workers) == 0
  {
    if workers > 0 {
      NothingTaken(enqueued, workers - 1);
    }
  }

  lemma {:induction false} OneMoreTaken(enqueued: seq<int>, fates: seq<Fate>, workers: nat)
    requires 0 < |fates| <= |enqueued|
    ensures var n := |fates| - 1;
            TotalTaken(enqueued, fates, workers) ==
            TotalTaken(enqueued, fates[..n], workers) + (if fates[n].TakenBy? && fates[n].w < workers then 1 else 0)
  {
    if workers > 0 {
      OneMoreTaken(enqueued, fates, workers - 1);
    }
  }

  // ---------------------------------------------------------------- shutdown

  /** Some worker thread has returned. */
  ghost predicate SomeExited(s: State) {
    exists w :: 0 <= w < |s.workers| && s.workers[w].Exited?
  }

  /** From the first exit on, the pool is stopped, empty, and accepts nothing, whatever the other threads do. */
  lemma {:induction false} ExitIsFinal(s: State, run: seq<Action>, t: State)
    requires Reachable(s) && SomeExited(s) && Run(s, run, t)
    ensures t.stop && t.tasks == [] && t.enqueued == s.enqueued && |t.fates| == |t.enqueued|
    ensures SomeExited(t)
  {
    ReachableInv(s);
    ExitedRun(s, run, t);
  }

  lemma {:induction false} ExitedRun(s: State, run: seq<Action>, t: State)
    requires Inv(s) && SomeExited(s) && Run(s, run, t)
    ensures Inv(t) && SomeExited(t)
    ensures t.stop && t.tasks == [] && t.enqueued == s.enqueued && |t.fates| == |t.enqueued|
    decreases |run|
  {
    var w :| 0 <= w < |s.workers| && s.workers[w].Exited?;
    assert WorkerOk(s, w);
    if run != [] {
      StepInv(s, run[0]);
      ExitedStep(s, run[0], w);
      ExitedRun(Next(s, run[0]), run[1..], t);
    }
  }

  lemma ExitedStep(s: State, a: Action, w: nat)
    requires WorkersOk(s) && Enabled(s, a) && w < |s.workers| && s.workers[w].Exited?
    ensures w < |Next(s, a).workers| && Next(s, a).workers[w].Exited? && Next(s, a).enqueued == s.enqueued
  {
    assert WorkerOk(s, w);
  }

  /** No thread is asleep or about to sleep. */
  ghost predicate AllAwake(s: State) {
    forall w :: 0 <= w < |s.workers| ==> !s.workers[w].Waiting? && !s.workers[w].Blocking?
  }

  lemma {:induction false} AwakeForever(s: State, run: seq<Action>, t: State)
    requires s.stop && AllAwake(s) && Run(s, run, t)
    ensures AllAwake(t)
    decreases |run|
  {
    if run != [] {
      AwakeForever(Next(s, run[0]), run[1..], t);
    }
  }

  // ---------------------------------------------------------------- a push is certain

  /** A client that saw stop unset logs and queues its task, also if stop has been stored since. */
  lemma PushIsCertain(s: State, c: nat)
    requires Reachable(s) && c < |s.clients| && s.clients[c].Pushing?
    ensures s.holder == ByClient(c) && Enabled(s, CPush(c))
    ensures var t := Next(s, CPush(c));
            && t.tasks == s.tasks + [s.clients[c].task] && t.enqueued == s.enqueued + [s.clients[c].task]
            && t.clients == s.clients[c := Notifying] && t.workers == s.workers && t.holder == Free
  {
    ReachableInv(s);
    assert ClientHolds(s.clients[c]);
  }

  /** No step of another thread takes the task from it. */
  lemma OnlyItsOwnStep(s: State, c: nat, a: Action)
    requires Reachable(s) && c < |s.clients| && s.clients[c].Pushing? && Enabled(s, a) && a != CPush(c)
    ensures c < |Next(s, a).clients| && Next(s, a).clients[c] == s.clients[c]
  {
    ReachableInv(s);
    assert ClientHolds(s.clients[c]);
  }

  /** Stop can be stored between the check and the push. */
  lemma StopAfterTheCheck(workers: nat, task: int) returns (s: State)
    ensures Reachable(s) && |s.workers| == workers && s.stop && s.clients == [Pushing(task)]
  {
    var s0 := Init(workers, 1);
    InitIsReachable(workers, 1);
    var s1 := Next(s0, CSubmit(0, task));
    ReachableStep(s0, CSubmit(0, task));
    var s2 := Next(s1, CLock(0));
    ReachableStep(s1, CLock(0));
    var s3 := Next(s2, CCheck(0));
    ReachableStep(s2, CCheck(0));
    s := Next(s3, DStop);
    ReachableStep(s3, DStop);
  }
}

/**
 * The pool object: one method per atomic step of its threads, and the worker loop, enqueue, flush and the start of the
 * destructor as the source writes them, put together from these steps.
 */
module BuiltinThreadPool {
  import opened Basics
  import opened PoolModel
  import opened PoolSafety
  import opened PoolProgress

  class ThreadPool {
    var tasks: seq<int>
    var stop: bool
    var holder: Holder
    var workers: seq<Worker>
    var clients: seq<Client>
    var destructor: Destructor
    ghost var enqueued: seq<int>
    ghost var fates: seq<Fate>
    ghost var finished: seq<seq<int>>

    ghost function View(): State
      reads this
    {
      State(tasks, stop, holder, workers, clients, destructor, enqueued, fates, finished)
    }

    /** The threads have brought the pool to this state. */
    ghost predicate Valid()
      reads this
    {
      Reachable(View())
    }

    constructor (threads: nat, users: nat)
      ensures Valid() && View() == Init(threads, users)
    {
      tasks, stop, holder, destructor := [], false, Free, Alive;
      workers := seq(threads, i => Locking);
      clients := seq(users, i => Idle);
      enqueued, fates, finished := [], [], seq(threads, i => []);
      new;
      InitIsReachable(threads, users);
    }

    // ---------------------------------------------------------------- the worker loop

    method AcquireLock(w: nat)
      requires Valid() && Enabled(View(), WLock(w))
      modifies this
      ensures Valid() && View() == Next(old(View()), WLock(w))
    {
      ReachableStep(View(), WLock(w));
      holder := ByWorker(w);
      workers := workers[w := Testing];
    }

    method TestPredicate(w: nat)
      requires Valid() && Enabled(View(), WTest(w))
      modifies this
      ensures Valid() && View() == Next(old(View()), WTest(w))
    {
      ReachableStep(View(), WTest(w));
      if stop || |tasks| != 0 {
        workers := workers[w := Deciding];
      } else {
        workers := workers[w := Blocking];
      }
    }

    method ReleaseAndWait(w: nat)
      requires Valid() && Enabled(View(), WBlock(w))
      modifies this
      ensures Valid() && View() == Next(old(View()), WBlock(w))
    {
      ReachableStep(View(), WBlock(w));
      holder := Free;
      workers := workers[w := Waiting];
    }

    /** Returns the task to run, or none if the thread returns. The queue is not empty when its front is taken. */
    method ExitOrTake(w: nat) returns (task: Option<int>)
      requires Valid() && Enabled(View(), WDecide(w))
      modifies this
      ensures Valid() && View() == Next(old(View()), WDecide(w))
      ensures task == if old(tasks) == [] then None else Some(old(tasks)[0])
    {
      ReachableStep(View(), WDecide(w));
      NeverPopsEmpty(View(), w);
      if stop && |tasks| == 0 {
        workers := workers[w := Exited];
        holder := Free;
        return None;
      }
      task := Some(tasks[0]);
      tasks := tasks[1..];
      workers := workers[w := Running(task.value)];
      holder := Free;
      fates := fates + [TakenBy(w)];
    }

    method FinishTask(w: nat)
      requires Valid() && Enabled(View(), WFinish(w))
      modifies this
      ensures Valid() && View() == Next(old(View()), WFinish(w))
    {
      ReachableStep(View(), WFinish(w));
      finished := finished[w := finished[w] + [workers[w].task]];
      workers := workers[w := Locking];
    }

    // ---------------------------------------------------------------- enqueue and flush

    method Submit(c: nat, task: int)
      requires Valid() && Enabled(View(), CSubmit(c, task))
      modifies this
      ensures Valid() && View() == Next(old(View()), CSubmit(c, task))
    {
      ReachableStep(View(), CSubmit(c, task));
      clients := clients[c := Enqueuing(task)];
    }

    method AcquireForClient(c: nat)
      requires Valid() && Enabled(View(), CLock(c))
      modifies this
      ensures Valid() && View() == Next(old(View()), CLock(c))
    {
      ReachableStep(View(), CLock(c));
      holder := ByClient(c);
      if clients[c].Enqueuing? {
        clients := clients[c := Checking(clients[c].task)];
      } else {
        clients := clients[c := Clearing];
      }
    }

    /** False when enqueue throws because the pool is stopped. */
    method CheckStop(c: nat) returns (accepted: bool)
      requires Valid() && Enabled(View(), CCheck(c))
      modifies this
      ensures Valid() && View() == Next(old(View()), CCheck(c))
      ensures accepted == !stop
    {
      ReachableStep(View(), CCheck(c));
      if stop {
        clients := clients[c := Idle];
        holder := Free;
        return false;
      }
      clients := clients[c := Pushing(clients[c].task)];
      accepted := true;
    }

    method PushAndUnlock(c: nat)
      requires Valid() && Enabled(View(), CPush(c))
      modifies this
      ensures Valid() && View() == Next(old(View()), CPush(c))
    {
      ReachableStep(View(), CPush(c));
      var task := clients[c].task;
      tasks := tasks + [task];
      enqueued := enqueued + [task];
      holder := Free;
      clients := clients[c := Notifying];
    }

    /** Wakes some waiting worker, if there is one. */
    method NotifyOne(c: nat) returns (woken: Option<nat>)
      requires Valid() && c < |clients| && clients[c].Notifying?
      modifies this
      ensures Valid() && Enabled(old(View()), CNotify(c, woken)) && View() == Next(old(View()), CNotify(c, woken))
    {
      ghost var before := View();
      clients := clients[c := Idle];
      woken := None;
      for w := 0 to |workers|
        invariant workers == old(workers)
        invariant View() == old(View()).(clients := old(clients)[c := Idle])
        invariant forall v :: 0 <= v < w ==> !workers[v].Waiting?
      {
        if workers[w].Waiting? {
          ReachableStep(before, CNotify(c, Some(w)));
          workers := workers[w := Locking];
          return Some(w);
        }
      }
      ReachableStep(before, CNotify(c, None));
    }

    method StartFlush(c: nat)
      requires Valid() && Enabled(View(), CFlush(c))
      modifies this
      ensures Valid() && View() == Next(old(View()), CFlush(c))
    {
      ReachableStep(View(), CFlush(c));
      clients := clients[c := Flushing];
    }

    method ReplaceQueue(c: nat)
      requires Valid() && Enabled(View(), CClear(c))
      modifies this
      ensures Valid() && View() == Next(old(View()), CClear(c))
    {
      ReachableStep(View(), CClear(c));
      fates := fates + seq(|tasks|, i => Dropped);
      tasks := [];
      clients := clients[c := Idle];
      holder := Free;
    }

    // ---------------------------------------------------------------- the destructor

    method StoreStop()
      requires Valid() && Enabled(View(), DStop)
      modifies this
      ensures Valid() && View() == Next(old(View()), DStop)
    {
      ReachableStep(View(), DStop);
      stop := true;
      destructor := StopStored;
    }

    method NotifyAll()
      requires Valid() && Enabled(View(), DNotifyAll)
      modifies this
      ensures Valid() && View() == Next(old(View()), DNotifyAll)
    {
      ReachableStep(View(), DNotifyAll);
      for w := 0 to |workers|
        invariant |workers| == |old(workers)|
        invariant View() == old(View()).(workers := workers)
        invariant forall v :: 0 <= v < |workers| ==>
                    workers[v] == if v < w && old(workers)[v].Waiting? then Locking else old(workers)[v]
      {
        if workers[w].Waiting? {
          workers := workers[w := Locking];
        }
      }
      assert workers == WakeAll(old(workers));
      destructor := NotifiedAll;
    }

    // ---------------------------------------------------------------- what one call does, when no other thread runs

    /** One turn of the worker loop: the front task is taken and finished, or the thread sleeps, or it returns. */
    method WorkerTurn(w: nat) returns (task: Option<int>)
      requires Valid() && holder.Free? && w < |workers| && workers[w].Locking?
      modifies this
      ensures Valid() && holder.Free? && stop == old(stop) && destructor == old(destructor)
      ensures clients == old(clients) && enqueued == old(enqueued) && |finished| == |workers|
      ensures old(tasks) == [] ==>
                && task == None && tasks == [] && fates == old(fates) && finished == old(finished)
                && workers == old(workers)[w := if stop then Exited else Waiting]
      ensures old(tasks) != [] ==>
                && task == Some(old(tasks)[0]) && tasks == old(tasks)[1..] && workers == old(workers)
                && fates == old(fates) + [TakenBy(w)]
                && w < |old(finished)| && finished == old(finished)[w := old(finished)[w] + [old(tasks)[0]]]
    {
      SameLogs(View());
      AcquireLock(w);
      TestPredicate(w);
      task := None;
      if workers[w].Blocking? {
        ReleaseAndWait(w);
      } else {
        task := ExitOrTake(w);
        if task.Some? {
          SameLogs(View());
          FinishTask(w);
        }
      }
    }

    /** The worker loop: everything in the queue is finished, in order, before the thread sleeps or returns. */
    method WorkerLoop(w: nat)
      requires Valid() && holder.Free? && w < |workers| && workers[w].Locking?
      modifies this
      ensures Valid() && holder.Free? && stop == old(stop) && destructor == old(destructor)
      ensures clients == old(clients) && enqueued == old(enqueued) && tasks == []
      ensures workers == old(workers)[w := if stop then Exited else Waiting]
      ensures fates == old(fates) + seq(|old(tasks)|, i => TakenBy(w))
      ensures w < |old(finished)| && finished == old(finished)[w := old(finished)[w] + old(tasks)]
    {
      SameLogs(View());
      ghost var n := 0;
      while workers[w].Locking?
        invariant Valid() && holder.Free? && stop == old(stop) && destructor == old(destructor)
        invariant clients == old(clients) && enqueued == old(enqueued) && |finished| == |workers|
        invariant w < |workers| && n <= |old(tasks)| && tasks == old(tasks)[n..]
        invariant workers == old(workers) || (workers == old(workers)[w := if stop then Exited else Waiting] && tasks == [])
        invariant fates == old(fates) + seq(n, i => TakenBy(w))
        invariant |finished| == |old(finished)| && finished[w] == old(finished)[w] + old(tasks)[..n]
        invariant forall v :: 0 <= v < |finished| && v != w ==> finished[v] == old(finished)[v]
        decreases workers[w].Locking?, |tasks|
      {
        var task := WorkerTurn(w);
        if task.Some? {
          OneMoreFate(old(fates), w, n);
          TakeOneMore(old(finished)[w], old(tasks), n);
          n := n + 1;
        }
      }
      assert n == |old(tasks)| && old(tasks)[..n] == old(tasks);
      assert finished == old(finished)[w := old(finished)[w] + old(tasks)];
    }

    /** A running pool queues the task and wakes one sleeper, if there is one; a stopped one changes nothing. */
    method Enqueue(c: nat, task: int) returns (accepted: bool, woken: Option<nat>)
      requires Valid() && holder.Free? && c < |clients| && clients[c].Idle?
      modifies this
      ensures Valid() && accepted == !old(stop)
      ensures !accepted ==> View() == old(View())
      ensures accepted ==>
                && tasks == old(tasks) + [task] && enqueued == old(enqueued) + [task]
                && View() == old(View()).(tasks := tasks, enqueued := enqueued, workers := workers)
      ensures accepted ==>
                match woken
                case Some(w) => w < |old(workers)| && old(workers)[w].Waiting? && workers == old(workers)[w := Locking]
                case None => workers == old(workers) && forall w :: 0 <= w < |workers| ==> !workers[w].Waiting?
    {
      woken := None;
      Submit(c, task);
      AcquireForClient(c);
      accepted := CheckStop(c);
      if accepted {
        PushAndUnlock(c);
        woken := NotifyOne(c);
      }
      assert clients == old(clients);
    }

    /** Every queued task is dropped, and nothing else changes. */
    method Flush(c: nat)
      requires Valid() && holder.Free? && c < |clients| && clients[c].Idle?
      modifies this
      ensures Valid() && tasks == []
      ensures fates == old(fates) + seq(|old(tasks)|, i => Dropped)
      ensures View() == old(View()).(tasks := [], fates := fates)
    {
      StartFlush(c);
      AcquireForClient(c);
      ReplaceQueue(c);
      assert clients == old(clients);
    }

    /** The destructor up to its join, which returns under every schedule exactly when no worker was about to wait. */
    method StopAndAnnounce()
      requires Valid() && destructor.Alive?
      modifies this
      ensures Valid() && stop && destructor.NotifiedAll? && tasks == old(tasks) && workers == WakeAll(old(workers))
      ensures (forall run, t, w ::
                 Run(View(), run, t) && Quiet(run) && Stuck(t) && 0 <= w < |t.workers| ==> t.workers[w].Exited?) <==>
              (forall w :: 0 <= w < |old(workers)| ==> !old(workers)[w].Blocking?)
    {
      StoreStop();
      NotifyAllSuffices(View());
      NotifyAll();
    }
  }

  lemma SameLogs(s: State)
    requires Reachable(s)
    ensures |s.finished| == |s.workers|
  {
    TasksAreConserved(s);
  }

  lemma TakeOneMore(done: seq<int>, tasks: seq<int>, n: nat)
    requires n < |tasks|
    ensures done + tasks[..n] + [tasks[n]] == done + tasks[..n + 1] && tasks[n..][1..] == tasks[n + 1..]
  {
  }

  lemma OneMoreFate(fates: seq<Fate>, w: nat, n: nat)
    ensures fates + seq(n, i => TakenBy(w)) + [TakenBy(w)] == fates + seq(n + 1, i => TakenBy(w))
  {
  }
}

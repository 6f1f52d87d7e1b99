/** What the pool comes to when it is left to itself, and exactly when its destructor's join returns. */
module PoolProgress {
  import opened Basics
  import opened PoolModel
  import opened PoolInvariants
  import opened PoolSafety

  /** Steps that the pool takes on its own: no new request, no spurious wake-up, no shutdown. */
  predicate Internal(a: Action) {
    !a.CSubmit? && !a.CFlush? && !a.WWake? && !a.DStop?
  }

  ghost predicate Quiet(run: seq<Action>) {
    forall i :: 0 <= i < |run| ==> Internal(run[i])
  }

  /** The pool has nothing left to do on its own. */
  ghost predicate Stuck(s: State) {
    forall a :: Internal(a) ==> !Enabled(s, a)
  }

  // ---------------------------------------------------------------- a measure

  function Sum<T>(xs: seq<T>, f: T -> nat): nat
  {
    if xs == [] then 0 else Sum(xs[..|xs| - 1], f) + f(xs[|xs| - 1])
  }

  lemma {:induction false} SumUpdate<T>(xs: seq<T>, i: nat, x: T, f: T -> nat)
    requires i < |xs|
    ensures Sum(xs[i := x], f) + f(xs[i]) == Sum(xs, f) + f(x)
  {
    var n := |xs| - 1;
    if i == n {
      assert xs[i := x][..n] == xs[..n];
    } else {
      assert xs[i := x][..n] == xs[..n][i := x];
      SumUpdate(xs[..n], i, x, f);
    }
  }

  /** How many steps a worker can still take before it sleeps or exits, when it finds no task. */
  function WorkerWeight(w: Worker): nat {
    match w
    case Running(_) => 5
    case Locking => 4
    case Testing => 3
    case Deciding => 2
    case Blocking => 1
    case Waiting | Exited => 0
  }

  /** How many steps a request can still cause, waking a worker included. */
  function ClientWeight(c: Client): nat {
    match c
    case Enqueuing(_) => 12
    case Checking(_) => 11
    case Pushing(_) => 10
    case Notifying => 5
    case Flushing => 2
    case Clearing => 1
    case Idle => 0
  }

  function Measure(s: State): nat {
    Sum(s.workers, WorkerWeight) + Sum(s.clients, ClientWeight) + 4 * |s.tasks|
    + (if s.destructor.StopStored? then 4 * |s.workers| + 1 else 0)
  }

  lemma {:induction false} WokenWeight(workers: seq<Worker>)
    ensures Sum(WakeAll(workers), WorkerWeight) <= Sum(workers, WorkerWeight) + 4 * |workers|
  {
    if workers != [] {
      var n := |workers| - 1;
      assert WakeAll(workers)[..n] == WakeAll(workers[..n]);
      WokenWeight(workers[..n]);
    }
  }

  /** Every step the pool takes on its own uses up some of the measure. */
  lemma StepUsesMeasure(s: State, a: Action)
    requires Inv(s) && Enabled(s, a) && Internal(a)
    ensures Measure(Next(s, a)) < Measure(s)
  {
    if a.DNotifyAll? {
      WokenWeight(s.workers);
    } else if ByUser(a) {
      UserStepUsesMeasure(s, a);
    } else {
      WorkerStepUsesMeasure(s, a);
    }
  }

  lemma UserStepUsesMeasure(s: State, a: Action)
    requires Enabled(s, a) && Internal(a) && ByUser(a)
    ensures Measure(Next(s, a)) < Measure(s)
  {
    SumUpdate(s.clients, a.c, Next(s, a).clients[a.c], ClientWeight);
    if a.CNotify? && a.woken.Some? {
      SumUpdate(s.workers, a.woken.value, Locking, WorkerWeight);
    }
  }

  lemma WorkerStepUsesMeasure(s: State, a: Action)
    requires WorkersOk(s) && Enabled(s, a) && Internal(a) && !ByUser(a) && !a.DNotifyAll?
    ensures Measure(Next(s, a)) < Measure(s)
  {
    assert WorkerOk(s, a.w);
    SumUpdate(s.workers, a.w, Next(s, a).workers[a.w], WorkerWeight);
  }

  /** Left to itself, the pool comes to rest within a number of steps that its state determines. */
  lemma {:induction false} QuietRunsAreBounded(s: State, run: seq<Action>, t: State)
    requires Inv(s) && Run(s, run, t) && Quiet(run)
    ensures |run| + Measure(t) <= Measure(s)
    decreases |run|
  {
    if run != [] {
      assert Internal(run[0]);
      StepUsesMeasure(s, run[0]);
      StepInv(s, run[0]);
      QuietRunsAreBounded(Next(s, run[0]), run[1..], t);
    }
  }

  /** From every state that keeps the invariant, some quiet run comes to rest. */
  lemma {:induction false} ComesToRest(s: State) returns (run: seq<Action>, t: State)
    requires Inv(s)
    ensures Run(s, run, t) && Quiet(run) && Stuck(t)
    decreases Measure(s)
  {
    if Stuck(s) {
      run, t := [], s;
    } else {
      var a :| Internal(a) && Enabled(s, a);
      StepUsesMeasure(s, a);
      StepInv(s, a);
      var rest;
      rest, t := ComesToRest(Next(s, a));
      run := [a] + rest;
      assert run[1..] == rest;
    }
  }

  // ---------------------------------------------------------------- the pool at rest

  lemma NobodyHolds(s: State)
    requires Inv(s) && Stuck(s)
    ensures s.holder.Free?
  {
    if s.holder.ByWorker? {
      var w := s.holder.w;
      assert WorkerHolds(s.workers[w]);
      assert Internal(WTest(w)) && Internal(WBlock(w)) && Internal(WDecide(w));
    } else if s.holder.ByClient? {
      var c := s.holder.c;
      assert ClientHolds(s.clients[c]);
      assert Internal(CCheck(c)) && Internal(CPush(c)) && Internal(CClear(c));
    }
  }

  lemma WorkerAtRest(s: State, w: nat)
    requires Inv(s) && Stuck(s) && w < |s.workers|
    ensures s.workers[w].Waiting? || s.workers[w].Exited?
  {
    NobodyHolds(s);
    assert WorkerHolds(s.workers[w]) <==> s.holder == ByWorker(w);
    assert Internal(WLock(w)) && Internal(WFinish(w));
  }

  lemma ClientAtRest(s: State, c: nat)
    requires Inv(s) && Stuck(s) && c < |s.clients|
    ensures s.clients[c].Idle?
  {
    NobodyHolds(s);
    assert ClientHolds(s.clients[c]) <==> s.holder == ByClient(c);
    assert Internal(CLock(c));
    if w: nat :| w < |s.workers| && s.workers[w].Waiting? {
      assert Internal(CNotify(c, Some(w)));
    } else {
      assert NoneWaiting(s);
      assert Internal(CNotify(c, None));
    }
  }

  /** At rest every worker sleeps or has exited and every user is done; with a worker, no task is left or in hand. */
  lemma AtRest(s: State)
    requires Reachable(s) && Stuck(s)
    ensures forall w :: 0 <= w < |s.workers| ==> s.workers[w].Waiting? || s.workers[w].Exited?
    ensures forall c :: 0 <= c < |s.clients| ==> s.clients[c].Idle?
    ensures |s.workers| >= 1 ==> s.tasks == [] && |s.fates| == |s.enqueued|
    ensures |s.fates| <= |s.enqueued| && |s.finished| == |s.workers|
    ensures forall w :: 0 <= w < |s.workers| ==> s.finished[w] == TakenTasks(s.enqueued, s.fates, w)
  {
    ReachableInv(s);
    forall w | 0 <= w < |s.workers|
      ensures s.workers[w].Waiting? || s.workers[w].Exited?
      ensures s.finished[w] == TakenTasks(s.enqueued, s.fates, w)
    {
      WorkerAtRest(s, w);
      assert s.finished[w] + InHand(s.workers[w]) == TakenTasks(s.enqueued, s.fates, w);
    }
    forall c | 0 <= c < |s.clients| ensures s.clients[c].Idle? {
      ClientAtRest(s, c);
    }
    if |s.workers| >= 1 && s.tasks != [] {
      NoStrandedTask(s);
    }
  }

  /** The pool never deadlocks on a non-empty queue, and gets closer to rest with every step it takes. */
  lemma NoDeadlock(s: State)
    requires Reachable(s) && |s.workers| >= 1 && s.tasks != []
    ensures exists a :: Internal(a) && Enabled(s, a)
    ensures forall a :: Internal(a) && Enabled(s, a) ==> Measure(Next(s, a)) < Measure(s)
  {
    ReachableInv(s);
    if Stuck(s) {
      AtRest(s);
    }
    forall a | Internal(a) && Enabled(s, a) ensures Measure(Next(s, a)) < Measure(s) {
      StepUsesMeasure(s, a);
    }
  }

  /** However the threads are scheduled, the queue drains: each worker has then finished all it took, in order. */
  lemma QueueDrains(s: State, run: seq<Action>, t: State)
    requires Reachable(s) && |s.workers| >= 1 && Run(s, run, t) && Quiet(run)
    ensures |run| <= Measure(s)
    ensures Stuck(t) ==>
              && t.tasks == [] && |t.fates| == |t.enqueued| && |t.finished| == |t.workers|
              && forall w :: 0 <= w < |t.workers| ==> t.finished[w] == TakenTasks(t.enqueued, t.fates, w)
  {
    ReachableInv(s);
    QuietRunsAreBounded(s, run, t);
    if Stuck(t) {
      ReachableRun(s, run, t);
      SameThreads(s, run, t);
      AtRest(t);
    }
  }

  lemma {:induction false} SameThreads(s: State, run: seq<Action>, t: State)
    requires Run(s, run, t)
    ensures |t.workers| == |s.workers| && |t.clients| == |s.clients|
    decreases |run|
  {
    if run != [] {
      SameThreads(Next(s, run[0]), run[1..], t);
    }
  }

  // ---------------------------------------------------------------- the destructor's join

  /** However the threads are scheduled after notify_all, every worker has exited when the pool is at rest. */
  ghost predicate JoinReturns(s: State)
    requires Enabled(s, DNotifyAll)
  {
    forall run, t, w ::
      Run(Next(s, DNotifyAll), run, t) && Quiet(run) && Stuck(t) && 0 <= w < |t.workers| ==> t.workers[w].Exited?
  }

  /** After the destructor's notify_all, no worker can fall asleep again, whatever else happens. */
  ghost predicate NeverSleepsAgain(s: State)
    requires Enabled(s, DNotifyAll)
  {
    forall run, t, w :: Run(Next(s, DNotifyAll), run, t) && 0 <= w < |t.workers| ==> !t.workers[w].Waiting?
  }

  /** A worker has found the wait predicate false and not yet begun to wait. */
  ghost predicate SomeBlocking(s: State) {
    exists v :: 0 <= v < |s.workers| && s.workers[v].Blocking?
  }

  lemma Announced(s: State)
    requires Reachable(s) && s.destructor.StopStored?
    ensures Reachable(Next(s, DNotifyAll)) && Next(s, DNotifyAll).stop && NoneWaiting(Next(s, DNotifyAll))
  {
    ReachableInv(s);
    ReachableStep(s, DNotifyAll);
  }

  /**
   * The destructor stores `stop` without holding the mutex. Its join returns, and no worker sleeps again, exactly when
   * no worker stands between testing the predicate and waiting as notify_all is called.
   */
  lemma NotifyAllSuffices(s: State)
    requires Reachable(s) && s.destructor.StopStored?
    ensures JoinReturns(s) <==> !SomeBlocking(s)
    ensures NeverSleepsAgain(s) <==> !SomeBlocking(s)
  {
    if SomeBlocking(s) {
      var v: nat :| v < |s.workers| && s.workers[v].Blocking?;
      SomeoneSleeps(s, v);
    } else {
      Announced(s);
      forall run, t, w | Run(Next(s, DNotifyAll), run, t) && 0 <= w < |t.workers|
        ensures !t.workers[w].Waiting?
        ensures Stuck(t) ==> t.workers[w].Exited?
      {
        NobodySleeps(Next(s, DNotifyAll), run, t, w);
      }
    }
  }

  lemma SomeoneSleeps(s: State, v: nat)
    requires Reachable(s) && s.destructor.StopStored? && v < |s.workers| && s.workers[v].Blocking?
    ensures !JoinReturns(s) && !NeverSleepsAgain(s)
  {
    var run, t := FallsAsleep(s, v);
    var more, end := SleepsToTheEnd(t, v);
    RunConcat(Next(s, DNotifyAll), run, t, more, end);
    assert Quiet(run + more);
    assert end.workers[v].Waiting?;
  }

  lemma NobodySleeps(s: State, run: seq<Action>, t: State, w: nat)
    requires Reachable(s) && s.stop && AllAwake(s) && Run(s, run, t) && w < |t.workers|
    ensures !t.workers[w].Waiting?
    ensures Stuck(t) ==> t.workers[w].Exited?
  {
    AwakeForever(s, run, t);
    if Stuck(t) {
      ReachableRun(s, run, t);
      AtRest(t);
    }
  }

  ghost predicate NoneSpurious(run: seq<Action>) {
    forall i :: 0 <= i < |run| ==> !run[i].WWake?
  }

  /** Without a spurious wake-up, worker `v` sleeps for ever, whatever the users do. */
  ghost predicate Hangs(s: State, v: nat) {
    && s.destructor.NotifiedAll? && v < |s.workers|
    && forall run, t :: Run(s, run, t) && NoneSpurious(run) ==> v < |t.workers| && t.workers[v].Waiting?
  }

  /** What makes a sleeping worker sleep for ever: the announcement is over and no notify is to come. */
  ghost predicate Forgotten(s: State, v: nat) {
    && s.stop && s.destructor.NotifiedAll? && v < |s.workers| && s.workers[v].Waiting?
    && forall c :: 0 <= c < |s.clients| ==> !s.clients[c].Pushing? && !s.clients[c].Notifying?
  }

  lemma {:induction false} SleepsOn(s: State, v: nat, run: seq<Action>, t: State)
    requires Forgotten(s, v) && Run(s, run, t) && NoneSpurious(run)
    ensures v < |t.workers| && t.workers[v].Waiting?
    decreases |run|
  {
    if run != [] {
      assert !run[0].WWake?;
      SleepsOn(Next(s, run[0]), v, run[1..], t);
    }
  }

  lemma ForgottenHangs(s: State, v: nat)
    requires Forgotten(s, v)
    ensures Hangs(s, v)
  {
    forall run, t | Run(s, run, t) && NoneSpurious(run) ensures v < |t.workers| && t.workers[v].Waiting? {
      SleepsOn(s, v, run, t);
    }
  }

  /** The notifies still pending reach nobody while nobody waits. */
  lemma {:induction false} NotifyNobody(s: State) returns (run: seq<Action>, t: State)
    requires Inv(s) && NoneWaiting(s)
    ensures Run(s, run, t) && Quiet(run) && t.workers == s.workers && t.stop == s.stop && t.destructor == s.destructor
    ensures |t.clients| == |s.clients|
    ensures forall c :: 0 <= c < |t.clients| ==>
              !t.clients[c].Notifying? && (t.clients[c].Pushing? ==> s.clients[c].Pushing?)
    decreases Measure(s)
  {
    if c: nat :| c < |s.clients| && s.clients[c].Notifying? {
      var a := CNotify(c, None);
      StepUsesMeasure(s, a);
      StepInv(s, a);
      var rest;
      rest, t := NotifyNobody(Next(s, a));
      run := [a] + rest;
      assert run[1..] == rest;
    } else {
      run, t := [], s;
    }
  }

  /** A worker that blocks as notify_all is called can fall asleep when every notify has gone by. */
  lemma FallsAsleep(s: State, v: nat) returns (run: seq<Action>, t: State)
    requires Reachable(s) && s.destructor.StopStored? && v < |s.workers| && s.workers[v].Blocking?
    ensures Run(Next(s, DNotifyAll), run, t) && Quiet(run) && Forgotten(t, v) && Reachable(t)
  {
    Announced(s);
    var next := Next(s, DNotifyAll);
    ReachableInv(next);
    var first, u := NotifyNobody(next);
    assert WorkerHolds(next.workers[v]) && next.holder == ByWorker(v);
    assert forall c :: 0 <= c < |next.clients| ==> !ClientHolds(next.clients[c]);
    var a := WBlock(v);
    t := Next(u, a);
    assert Run(t, [], t);
    assert [a][1..] == [];
    assert Run(u, [a], t);
    RunConcat(next, first, u, [a], t);
    run := first + [a];
    ReachableRun(next, run, t);
  }

  lemma SleepsToTheEnd(s: State, v: nat) returns (run: seq<Action>, t: State)
    requires Reachable(s) && Forgotten(s, v)
    ensures Run(s, run, t) && Quiet(run) && Stuck(t) && v < |t.workers| && t.workers[v].Waiting?
  {
    ReachableInv(s);
    run, t := ComesToRest(s);
    assert forall i :: 0 <= i < |run| ==> Internal(run[i]);
    SleepsOn(s, v, run, t);
  }

  /** The pool can come to hang, on its own and in any one worker, exactly when some worker is blocking at notify_all. */
  lemma DestructorCanHang(s: State)
    requires Reachable(s) && s.destructor.StopStored?
    ensures (exists run, t, v :: Run(Next(s, DNotifyAll), run, t) && Quiet(run) && Hangs(t, v)) <==> SomeBlocking(s)
  {
    NotifyAllSuffices(s);
    var next := Next(s, DNotifyAll);
    if v: nat :| v < |s.workers| && s.workers[v].Blocking? {
      var run, t := FallsAsleep(s, v);
      ForgottenHangs(t, v);
      assert Run(next, run, t) && Quiet(run) && Hangs(t, v);
    } else {
      forall run, t, v | Run(next, run, t) && Quiet(run) ensures !Hangs(t, v) {
        AwakeNeverHangs(s, run, t, v);
      }
    }
  }

  lemma AwakeNeverHangs(s: State, run: seq<Action>, t: State, v: nat)
    requires Enabled(s, DNotifyAll) && NeverSleepsAgain(s) && Run(Next(s, DNotifyAll), run, t)
    ensures !Hangs(t, v)
  {
    assert Run(t, [], t) && NoneSpurious([]);
  }

  /** Every pool with a worker has such a state: `v` tests the predicate of the new pool, then `stop` is stored. */
  lemma SomePoolsHang(workers: nat, users: nat, v: nat)
    requires v < workers
    ensures exists s :: Reachable(s) && |s.workers| == workers && |s.clients| == users && Hangs(s, v)
  {
    var s0 := Init(workers, users);
    var s1 := Next(s0, WLock(v));
    var s2 := Next(s1, WTest(v));
    var s3 := Next(s2, DStop);
    var run := [WLock(v), WTest(v), DStop];
    assert Run(s3, [], s3);
    assert Run(s2, run[2..], s3) by { assert run[2..][1..] == []; }
    assert Run(s1, run[1..], s3) by { assert run[1..][1..] == run[2..]; }
    assert Run(s0, run, s3);
    var last, t := FallsAsleep(s3, v);
    SameThreads(Next(s3, DNotifyAll), last, t);
    ForgottenHangs(t, v);
  }
}

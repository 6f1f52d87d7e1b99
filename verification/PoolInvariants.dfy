/** What every step of the pool keeps. */
module PoolInvariants {
  import opened PoolModel

  // ---------------------------------------------------------------- counting threads

  function Count<T>(xs: seq<T>, p: T -> bool): nat
  {
    if xs == [] then 0 else Count(xs[..|xs| - 1], p) + (if p(xs[|xs| - 1]) then 1 else 0)
  }

  lemma {:induction false} CountUpdate<T>(xs: seq<T>, i: nat, x: T, p: T -> bool)
    requires i < |xs|
    ensures Count(xs[i := x], p) == Count(xs, p) - (if p(xs[i]) then 1 else 0) + (if p(x) then 1 else 0)
  {
    var n := |xs| - 1;
    if i == n {
      assert xs[i := x][..n] == xs[..n];
    } else {
      assert xs[i := x][..n] == xs[..n][i := x];
      CountUpdate(xs[..n], i, x, p);
    }
  }

  lemma {:induction false} CountPositive<T>(xs: seq<T>, p: T -> bool)
    ensures Count(xs, p) > 0 <==> exists i :: 0 <= i < |xs| && p(xs[i])
  {
    if xs != [] {
      var n := |xs| - 1;
      CountPositive(xs[..n], p);
      if Count(xs[..n], p) > 0 {
        var i :| 0 <= i < n && p(xs[..n][i]);
        assert p(xs[i]);
      } else if p(xs[n]) {
      } else {
        forall i | 0 <= i < |xs| ensures !p(xs[i]) {
          if i < n { assert !p(xs[..n][i]); }
        }
      }
    }
  }

  predicate IsWaiting(w: Worker) { w.Waiting? }

  /** Awake and on the way to looking at the queue. */
  predicate IsSearching(w: Worker) { w.Locking? || w.Testing? || w.Deciding? }

  predicate IsNotifying(c: Client) { c.Notifying? }

  // ---------------------------------------------------------------- the invariant

  predicate WorkerHolds(w: Worker) { w.Testing? || w.Blocking? || w.Deciding? }

  predicate ClientHolds(c: Client) { c.Checking? || c.Pushing? || c.Clearing? }

  /** The mutex is held by the one thread that is inside a critical section, if any. */
  ghost predicate Exclusive(s: State) {
    && |s.finished| == |s.workers|
    && (forall w :: 0 <= w < |s.workers| ==> (WorkerHolds(s.workers[w]) <==> s.holder == ByWorker(w)))
    && (forall c :: 0 <= c < |s.clients| ==> (ClientHolds(s.clients[c]) <==> s.holder == ByClient(c)))
    && (s.holder.ByWorker? ==> s.holder.w < |s.workers|)
    && (s.holder.ByClient? ==> s.holder.c < |s.clients|)
  }

  ghost predicate WorkerOk(s: State, w: nat)
    requires w < |s.workers|
  {
    match s.workers[w]
    case Blocking => s.tasks == []
    case Deciding => s.stop || s.tasks != []
    case Exited => s.stop && s.tasks == [] && forall c :: 0 <= c < |s.clients| ==> !s.clients[c].Pushing?
    case _ => true
  }

  ghost predicate WorkersOk(s: State) {
    && (s.stop <==> !s.destructor.Alive?)
    && forall w :: 0 <= w < |s.workers| ==> WorkerOk(s, w)
  }

  /** While a worker sleeps, every queued task has its own pending notify or its own awake worker. */
  ghost predicate Covered(s: State) {
    Count(s.workers, IsWaiting) > 0 ==>
      |s.tasks| <= Count(s.clients, IsNotifying) + Count(s.workers, IsSearching)
  }

  /** The tasks a worker took, in order. */
  function TakenTasks(enqueued: seq<int>, fates: seq<Fate>, w: nat): seq<int>
    requires |fates| <= |enqueued|
  {
    if fates == [] then []
    else
      var n := |fates| - 1;
      TakenTasks(enqueued, fates[..n], w) + (if fates[n] == TakenBy(w) then [enqueued[n]] else [])
  }

  function InHand(w: Worker): seq<int> {
    if w.Running? then [w.task] else []
  }

  /** Nothing is lost, duplicated or reordered. */
  ghost predicate Conserved(s: State) {
    && |s.fates| <= |s.enqueued|
    && s.tasks == s.enqueued[|s.fates|..]
    && |s.finished| == |s.workers|
    && (forall i :: 0 <= i < |s.fates| && s.fates[i].TakenBy? ==> s.fates[i].w < |s.workers|)
    && forall w :: 0 <= w < |s.workers| ==>
         s.finished[w] + InHand(s.workers[w]) == TakenTasks(s.enqueued, s.fates, w)
  }

  ghost predicate Inv(s: State) {
    Exclusive(s) && WorkersOk(s) && Covered(s) && Conserved(s)
  }

  // ---------------------------------------------------------------- it holds at the start and at every step

  lemma {:induction false} CountNone<T>(xs: seq<T>, p: T -> bool)
    requires forall i :: 0 <= i < |xs| ==> !p(xs[i])
    ensures Count(xs, p) == 0
  {
    CountPositive(xs, p);
  }

  lemma InitInv(workers: nat, clients: nat)
    ensures Inv(Init(workers, clients))
  {
    CountNone(Init(workers, clients).workers, IsWaiting);
  }

  lemma StepExclusive(s: State, a: Action)
    requires Exclusive(s) && Enabled(s, a)
    ensures Exclusive(Next(s, a))
  {
    var t := Next(s, a);
    forall w | 0 <= w < |t.workers|
      ensures WorkerHolds(t.workers[w]) <==> t.holder == ByWorker(w)
    {
      OneWorkerHolds(s, a, w);
    }
    forall c | 0 <= c < |t.clients|
      ensures ClientHolds(t.clients[c]) <==> t.holder == ByClient(c)
    {
      OneClientHolds(s, a, c);
    }
  }

  lemma OneWorkerHolds(s: State, a: Action, w: nat)
    requires Exclusive(s) && Enabled(s, a) && w < |s.workers|
    ensures WorkerHolds(Next(s, a).workers[w]) <==> Next(s, a).holder == ByWorker(w)
  {
    assert WorkerHolds(s.workers[w]) <==> s.holder == ByWorker(w);
  }

  lemma OneClientHolds(s: State, a: Action, c: nat)
    requires Exclusive(s) && Enabled(s, a) && c < |s.clients|
    ensures ClientHolds(Next(s, a).clients[c]) <==> Next(s, a).holder == ByClient(c)
  {
    assert ClientHolds(s.clients[c]) <==> s.holder == ByClient(c);
  }

  lemma StepWorkersOk(s: State, a: Action)
    requires Exclusive(s) && WorkersOk(s) && Enabled(s, a)
    ensures WorkersOk(Next(s, a))
  {
    var t := Next(s, a);
    forall w | 0 <= w < |t.workers|
      ensures WorkerOk(t, w)
    {
      assert WorkerOk(s, w);
      assert WorkerHolds(s.workers[w]) <==> s.holder == ByWorker(w);
      forall c | 0 <= c < |t.clients| && t.workers[w].Exited?
        ensures !t.clients[c].Pushing?
      {
        assert ClientHolds(s.clients[c]) <==> s.holder == ByClient(c);
      }
    }
  }

  predicate ByUser(a: Action) {
    a.CSubmit? || a.CLock? || a.CCheck? || a.CPush? || a.CNotify? || a.CFlush? || a.CClear?
  }

  lemma StepCovered(s: State, a: Action)
    requires WorkersOk(s) && Covered(s) && Enabled(s, a)
    ensures Covered(Next(s, a))
  {
    if a.DNotifyAll? {
      CountNone(Next(s, a).workers, IsWaiting);
    } else if ByUser(a) {
      UserStepCovered(s, a);
    } else if !a.DStop? {
      WorkerStepCovered(s, a);
    }
  }

  lemma UserStepCovered(s: State, a: Action)
    requires Covered(s) && Enabled(s, a) && ByUser(a)
    ensures Covered(Next(s, a))
  {
    var t := Next(s, a);
    CountUpdate(s.clients, a.c, t.clients[a.c], IsNotifying);
    if a.CNotify? && a.woken.Some? {
      CountUpdate(s.workers, a.woken.value, Locking, IsWaiting);
      CountUpdate(s.workers, a.woken.value, Locking, IsSearching);
    } else if a.CNotify? {
      CountNone(s.workers, IsWaiting);
    }
  }

  lemma WorkerStepCovered(s: State, a: Action)
    requires WorkersOk(s) && Covered(s) && Enabled(s, a) && !ByUser(a) && !a.DStop? && !a.DNotifyAll?
    ensures Covered(Next(s, a))
  {
    var t := Next(s, a);
    assert WorkerOk(s, a.w);
    CountUpdate(s.workers, a.w, t.workers[a.w], IsWaiting);
    CountUpdate(s.workers, a.w, t.workers[a.w], IsSearching);
  }

  lemma {:induction false} TakenOfLonger(enqueued: seq<int>, more: seq<int>, fates: seq<Fate>, w: nat)
    requires |fates| <= |enqueued|
    ensures TakenTasks(enqueued + more, fates, w) == TakenTasks(enqueued, fates, w)
  {
    if fates != [] {
      TakenOfLonger(enqueued, more, fates[..|fates| - 1], w);
    }
  }

  lemma TakenOfOneMore(enqueued: seq<int>, fates: seq<Fate>, f: Fate, w: nat)
    requires |fates| < |enqueued|
    ensures TakenTasks(enqueued, fates + [f], w) ==
            TakenTasks(enqueued, fates, w) + (if f == TakenBy(w) then [enqueued[|fates|]] else [])
  {
    assert (fates + [f])[..|fates|] == fates;
  }

  lemma {:induction false} TakenOfDropped(enqueued: seq<int>, fates: seq<Fate>, n: nat, w: nat)
    requires |fates| + n <= |enqueued|
    ensures TakenTasks(enqueued, fates + seq(n, i => Dropped), w) == TakenTasks(enqueued, fates, w)
  {
    if n == 0 {
      assert fates + seq(0, i => Dropped) == fates;
    } else {
      assert fates + seq(n, i => Dropped) == fates + seq(n - 1, i => Dropped) + [Dropped];
      TakenOfOneMore(enqueued, fates + seq(n - 1, i => Dropped), Dropped, w);
      TakenOfDropped(enqueued, fates, n - 1, w);
    }
  }

  lemma StepConserved(s: State, a: Action)
    requires Conserved(s) && Enabled(s, a)
    ensures Conserved(Next(s, a))
  {
    var t := Next(s, a);
    QueueIsRest(s, a);
    forall w | 0 <= w < |t.workers|
      ensures t.finished[w] + InHand(t.workers[w]) == TakenTasks(t.enqueued, t.fates, w)
    {
      OneWorkerConserves(s, a, w);
    }
  }

  lemma QueueIsRest(s: State, a: Action)
    requires Conserved(s) && Enabled(s, a)
    ensures var t := Next(s, a); |t.fates| <= |t.enqueued| && t.tasks == t.enqueued[|t.fates|..]
  {
  }

  lemma OneWorkerConserves(s: State, a: Action, w: nat)
    requires Conserved(s) && Enabled(s, a) && w < |s.workers|
    ensures var t := Next(s, a);
            && |t.fates| <= |t.enqueued|
            && t.finished[w] + InHand(t.workers[w]) == TakenTasks(t.enqueued, t.fates, w)
  {
    QueueIsRest(s, a);
    assert s.finished[w] + InHand(s.workers[w]) == TakenTasks(s.enqueued, s.fates, w);
    if a.CPush? {
      TakenOfLonger(s.enqueued, [s.clients[a.c].task], s.fates, w);
    } else if a.CClear? {
      TakenOfDropped(s.enqueued, s.fates, |s.tasks|, w);
    } else if a.WDecide? {
      DecisionConserves(s, a.w, w);
    }
  }

  lemma DecisionConserves(s: State, decider: nat, w: nat)
    requires Conserved(s) && Enabled(s, WDecide(decider)) && w < |s.workers|
    ensures var t := Next(s, WDecide(decider));
            && |t.fates| <= |t.enqueued|
            && t.finished[w] + InHand(t.workers[w]) == TakenTasks(t.enqueued, t.fates, w)
  {
    assert s.finished[w] + InHand(s.workers[w]) == TakenTasks(s.enqueued, s.fates, w);
    if s.tasks != [] {
      TakenOfOneMore(s.enqueued, s.fates, TakenBy(decider), w);
    }
  }

  /** The invariant is inductive. */
  lemma StepInv(s: State, a: Action)
    requires Inv(s) && Enabled(s, a)
    ensures Inv(Next(s, a))
  {
    StepExclusive(s, a);
    StepWorkersOk(s, a);
    StepCovered(s, a);
    StepConserved(s, a);
  }

  lemma {:induction false} RunInv(s: State, run: seq<Action>, t: State)
    requires Inv(s) && Run(s, run, t)
    ensures Inv(t)
    decreases |run|
  {
    if run != [] {
      StepInv(s, run[0]);
      RunInv(Next(s, run[0]), run[1..], t);
    }
  }

  lemma ReachableInv(s: State)
    requires Reachable(s)
    ensures Inv(s)
  {
    var workers: nat, clients: nat, run :| Run(Init(workers, clients), run, s);
    InitInv(workers, clients);
    RunInv(Init(workers, clients), run, s);
  }
}

/**
 * The thread pool under every interleaving: workers, concurrent `enqueue` calls and one `shutdown` call, at the level of
 * its mutex and condition variable.
 */
module ThreadPool {

  import opened Bytes

  type Job = nat

  /** Where a worker is. `Holding`, `Popped` and `Exiting` workers own the mutex. */
  datatype Worker = Ready | Holding | Sleeping | Popped(job: Job) | Running(job: Job) | Exiting | Exited

  /** Where a call of `enqueue` is. `Inside` and `Pushed` calls own the mutex. */
  datatype Enqueue = Waiting(job: Job) | Inside(job: Job) | Pushed | Notifying | Returned

  /** Where the call of `shutdown` is. `Closing` and `Flagged` own the mutex. */
  datatype Shutdown = NotCalled | Called | Closing | Flagged | NotifyingAll | Joining | Joined

  datatype Owner = Free | ByWorker(w: nat) | ByEnqueue(k: nat) | ByShutdown

  /**
   * The pool's fields, the control state of every thread, and three histories: the jobs pushed, taken and finished so far.
   * `before` is the number of jobs pushed before the shutdown flag was set.
   */
  datatype State = State(
    workers: seq<Worker>, calls: seq<Enqueue>, closer: Shutdown, owner: Owner,
    jobs: seq<Job>, shutdown: bool,
    pushed: seq<Job>, taken: seq<Job>, finished: seq<Job>, before: nat)

  function Start(n: nat): State {
    State(seq(n, _ => Ready), [], NotCalled, Free, [], false, [], [], [], 0)
  }

  /** The atomic steps. The first three come from outside; `wakes` is the sleeper that `notify_one` picks. */
  datatype Action =
    | CallEnqueue(job: Job) | CallShutdown | Spurious(w: nat)
    | Lock(w: nat) | Test(w: nat) | Unlock(w: nat) | Finish(w: nat)
    | EnqLock(k: nat) | Push(k: nat) | EnqUnlock(k: nat) | Notify(k: nat, wakes: Option<nat>)
    | CloseLock | SetFlag | CloseUnlock | NotifyAll | Join

  predicate FromOutside(a: Action) { a.CallEnqueue? || a.CallShutdown? || a.Spurious? }

  predicate NoSleeper(ws: seq<Worker>) { forall i :: 0 <= i < |ws| ==> !ws[i].Sleeping? }
  predicate AllExited(ws: seq<Worker>) { forall i :: 0 <= i < |ws| ==> ws[i].Exited? }
  function WakeAll(ws: seq<Worker>): seq<Worker> {
    seq(|ws|, i requires 0 <= i < |ws| => if ws[i].Sleeping? then Ready else ws[i])
  }

  predicate Enabled(s: State, a: Action) {
    match a
    case CallEnqueue(_) => true
    case CallShutdown => s.closer.NotCalled?
    case Spurious(w) => w < |s.workers| && s.workers[w].Sleeping?
    case Lock(w) => w < |s.workers| && s.workers[w].Ready? && s.owner.Free?
    case Test(w) => w < |s.workers| && s.workers[w].Holding?
    case Unlock(w) => w < |s.workers| && (s.workers[w].Popped? || s.workers[w].Exiting?)
    case Finish(w) => w < |s.workers| && s.workers[w].Running?
    case EnqLock(k) => k < |s.calls| && s.calls[k].Waiting? && s.owner.Free?
    case Push(k) => k < |s.calls| && s.calls[k].Inside?
    case EnqUnlock(k) => k < |s.calls| && s.calls[k].Pushed?
    case Notify(k, wakes) =>
      && k < |s.calls| && s.calls[k].Notifying?
      && (if wakes.None? then NoSleeper(s.workers)
          else wakes.value < |s.workers| && s.workers[wakes.value].Sleeping?)
    case CloseLock => s.closer.Called? && s.owner.Free?
    case SetFlag => s.closer.Closing?
    case CloseUnlock => s.closer.Flagged?
    case NotifyAll => s.closer.NotifyingAll?
    case Join => s.closer.Joining? && AllExited(s.workers)
  }

  function Apply(s: State, a: Action): State
    requires Enabled(s, a)
  {
    match a
    case CallEnqueue(job) => s.(calls := s.calls + [Waiting(job)])
    case CallShutdown => s.(closer := Called)
    case Spurious(w) => s.(workers := s.workers[w := Ready])
    case Lock(w) => s.(workers := s.workers[w := Holding], owner := ByWorker(w))
    case Test(w) =>
      // the wait's predicate, then the test after it; waiting releases the mutex in the same step
      if s.jobs == [] && !s.shutdown then s.(workers := s.workers[w := Sleeping], owner := Free)
      else if s.jobs == [] then s.(workers := s.workers[w := Exiting])
      else s.(workers := s.workers[w := Popped(s.jobs[0])], jobs := s.jobs[1..], taken := s.taken + [s.jobs[0]])
    case Unlock(w) =>
      var after := if s.workers[w].Popped? then Running(s.workers[w].job) else Exited;
      s.(workers := s.workers[w := after], owner := Free)
    case Finish(w) => s.(workers := s.workers[w := Ready], finished := s.finished + [s.workers[w].job])
    case EnqLock(k) => s.(calls := s.calls[k := Inside(s.calls[k].job)], owner := ByEnqueue(k))
    case Push(k) =>
      s.(calls := s.calls[k := Pushed], jobs := s.jobs + [s.calls[k].job], pushed := s.pushed + [s.calls[k].job])
    case EnqUnlock(k) => s.(calls := s.calls[k := Notifying], owner := Free)
    case Notify(k, wakes) =>
      var t := s.(calls := s.calls[k := Returned]);
      if wakes.None? then t else t.(workers := t.workers[wakes.value := Ready])
    case CloseLock => s.(closer := Closing, owner := ByShutdown)
    case SetFlag => s.(closer := Flagged, shutdown := true, before := |s.pushed|)
    case CloseUnlock => s.(closer := NotifyingAll, owner := Free)
    case NotifyAll => s.(closer := Joining, workers := WakeAll(s.workers))
    case Join => s.(closer := Joined)
  }

  /** The states a run of the pool can reach. */
  predicate Runs(s: State, actions: seq<Action>, t: State)
    decreases |actions|
  {
    if actions == [] then s == t
    else Enabled(s, actions[0]) && Runs(Apply(s, actions[0]), actions[1..], t)
  }

  // ----- Totals over threads -----

  function Total<T>(xs: seq<T>, weight: T -> nat): nat
  {
    if xs == [] then 0 else weight(xs[0]) + Total(xs[1..], weight)
  }

  lemma {:induction false} TotalUpdate<T>(xs: seq<T>, weight: T -> nat, i: nat, x: T)
    requires i < |xs|
    ensures Total(xs[i := x], weight) + weight(xs[i]) == Total(xs, weight) + weight(x)
  {
    if i > 0 {
      assert xs[i := x][1..] == xs[1..][i - 1 := x];
      TotalUpdate(xs[1..], weight, i - 1, x);
    } else {
      assert xs[i := x][1..] == xs[1..];
    }
  }

  lemma {:induction false} TotalSnoc<T>(xs: seq<T>, weight: T -> nat, x: T)
    ensures Total(xs + [x], weight) == Total(xs, weight) + weight(x)
  {
    if xs == [] {
      assert xs + [x] == [x] && [x][1..] == [];
    } else {
      assert (xs + [x])[1..] == xs[1..] + [x];
      TotalSnoc(xs[1..], weight, x);
    }
  }

  lemma {:induction false} TotalZero<T>(xs: seq<T>, weight: T -> nat)
    ensures Total(xs, weight) == 0 <==> forall i :: 0 <= i < |xs| ==> weight(xs[i]) == 0
  {
    if xs != [] {
      TotalZero(xs[1..], weight);
      assert forall i :: 0 <= i < |xs[1..]| ==> xs[1..][i] == xs[i + 1];
      assert forall i :: 0 < i < |xs| ==> xs[i] == xs[1..][i - 1];
    }
  }

  /** 1 for a worker that is awake and on its way to the queue. */
  function Awake(w: Worker): nat { if w.Ready? || w.Holding? then 1 else 0 }

  /** 1 for a call that has pushed its job and has still to notify. */
  function Pending(e: Enqueue): nat { if e.Pushed? || e.Notifying? then 1 else 0 }

  /** The jobs in the workers' hands. */
  function InHand(ws: seq<Worker>): multiset<Job>
  {
    if ws == [] then multiset{} else HandOf(ws[0]) + InHand(ws[1..])
  }

  function HandOf(w: Worker): multiset<Job> { if w.Popped? || w.Running? then multiset{w.job} else multiset{} }

  lemma {:induction false} InHandUpdate(ws: seq<Worker>, i: nat, x: Worker)
    requires i < |ws|
    ensures InHand(ws[i := x]) + HandOf(ws[i]) == InHand(ws) + HandOf(x)
  {
    hide HandOf;
    var us := ws[i := x];
    assert InHand(us) == HandOf(us[0]) + InHand(us[1..]);
    assert InHand(ws) == HandOf(ws[0]) + InHand(ws[1..]);
    if i > 0 {
      assert us[1..] == ws[1..][i - 1 := x];
      InHandUpdate(ws[1..], i - 1, x);
      assert us[0] == ws[0] && ws[1..][i - 1] == ws[i];
      assert InHand(us) + HandOf(ws[i]) == HandOf(ws[0]) + (InHand(us[1..]) + HandOf(ws[i]));
      assert InHand(ws) + HandOf(x) == HandOf(ws[0]) + (InHand(ws[1..]) + HandOf(x));
    } else {
      assert us[1..] == ws[1..] && us[0] == x;
      assert HandOf(x) + InHand(ws[1..]) + HandOf(ws[0]) == HandOf(ws[0]) + InHand(ws[1..]) + HandOf(x);
    }
  }

  lemma {:induction false} InHandSame(ws: seq<Worker>, us: seq<Worker>)
    requires |ws| == |us| && forall i :: 0 <= i < |ws| ==> HandOf(ws[i]) == HandOf(us[i])
    ensures InHand(ws) == InHand(us)
  {
    if ws != [] {
      InHandSame(ws[1..], us[1..]);
    }
  }

  // ----- What every reachable state satisfies -----

  predicate WorkerOwns(w: Worker) { w.Holding? || w.Popped? || w.Exiting? }
  predicate CallOwns(e: Enqueue) { e.Inside? || e.Pushed? }
  predicate CloserOwns(c: Shutdown) { c.Closing? || c.Flagged? }

  /** Whoever is in a critical section owns the mutex. */
  predicate MutexInv(s: State) {
    && (forall i :: 0 <= i < |s.workers| ==> (WorkerOwns(s.workers[i]) <==> s.owner == ByWorker(i)))
    && (forall k :: 0 <= k < |s.calls| ==> (CallOwns(s.calls[k]) <==> s.owner == ByEnqueue(k)))
    && (CloserOwns(s.closer) <==> s.owner == ByShutdown)
    && (s.owner.ByWorker? ==> s.owner.w < |s.workers|) && (s.owner.ByEnqueue? ==> s.owner.k < |s.calls|)
  }

  /** Jobs leave in the order they came, and each is taken and finished once. */
  predicate QueueInv(s: State) {
    && s.pushed == s.taken + s.jobs
    && multiset(s.taken) == multiset(s.finished) + InHand(s.workers)
  }

  /** While a worker sleeps, every queued job is matched by an awake worker or a notification to come. */
  predicate WakeInv(s: State) {
    !NoSleeper(s.workers) ==> |s.jobs| <= Total(s.workers, Awake) + Total(s.calls, Pending)
  }

  predicate ShutdownInv(s: State) {
    && (s.shutdown <==> s.closer.Flagged? || s.closer.NotifyingAll? || s.closer.Joining? || s.closer.Joined?)
    && (s.closer.Joining? || s.closer.Joined? ==> NoSleeper(s.workers))
    && (forall i :: 0 <= i < |s.workers| && (s.workers[i].Exiting? || s.workers[i].Exited?) ==>
          s.shutdown && s.before <= |s.taken|)
    && (s.shutdown ==> s.before <= |s.pushed|)
    && (s.closer.Joined? ==> AllExited(s.workers))
  }

  predicate Inv(s: State) { MutexInv(s) && QueueInv(s) && WakeInv(s) && ShutdownInv(s) }

  lemma StartInv(n: nat)
    ensures Inv(Start(n))
  {
    InHandNothing(n);
  }

  lemma {:induction false} InHandNothing(n: nat)
    ensures InHand(seq(n, _ => Ready)) == multiset{}
  {
    if n > 0 {
      assert seq<Worker>(n, _ => Ready)[1..] == seq<Worker>(n - 1, _ => Ready);
      InHandNothing(n - 1);
    }
  }

  // ----- Every step keeps the invariant -----

  /** Worker `w` moves from outside its critical sections to inside or the other way, with the mutex. */
  lemma MutexWorker(s: State, w: nat, x: Worker, owner: Owner)
    requires MutexInv(s) && w < |s.workers|
    requires if WorkerOwns(x) then owner == ByWorker(w) && (s.owner.Free? || s.owner == ByWorker(w))
             else owner == (if WorkerOwns(s.workers[w]) then Free else s.owner)
    ensures MutexInv(s.(workers := s.workers[w := x], owner := owner))
  {
  }

  lemma MutexCall(s: State, k: nat, x: Enqueue, owner: Owner)
    requires MutexInv(s) && k < |s.calls|
    requires if CallOwns(x) then owner == ByEnqueue(k) && (s.owner.Free? || s.owner == ByEnqueue(k))
             else owner == (if CallOwns(s.calls[k]) then Free else s.owner)
    ensures MutexInv(s.(calls := s.calls[k := x], owner := owner))
  {
  }

  lemma MutexWorkers(s: State, a: Action)
    requires MutexInv(s) && Enabled(s, a) && (a.Spurious? || a.Lock? || a.Test? || a.Unlock? || a.Finish?)
    ensures MutexInv(Apply(s, a))
  {
    var t := Apply(s, a);
    match a
    case Spurious(w) => MutexWorker(s, w, Ready, s.owner);
    case Lock(w) => MutexWorker(s, w, Holding, t.owner);
    case Test(w) => MutexWorker(s, w, t.workers[w], t.owner);
    case Unlock(w) => MutexWorker(s, w, t.workers[w], t.owner);
    case Finish(w) => MutexWorker(s, w, Ready, s.owner);
  }

  lemma MutexCalls(s: State, a: Action)
    requires MutexInv(s) && Enabled(s, a) && (a.EnqLock? || a.Push? || a.EnqUnlock? || a.Notify?)
    ensures MutexInv(Apply(s, a))
  {
    var t := Apply(s, a);
    match a
    case EnqLock(k) => MutexCall(s, k, t.calls[k], t.owner);
    case Push(k) => MutexCall(s, k, Pushed, s.owner);
    case EnqUnlock(k) => MutexCall(s, k, Notifying, t.owner);
    case Notify(k, wakes) =>
      MutexCall(s, k, Returned, s.owner);
      if wakes.Some? {
        MutexWorker(s.(calls := t.calls), wakes.value, Ready, s.owner);
      }
  }

  lemma StepMutex(s: State, a: Action)
    requires MutexInv(s) && Enabled(s, a)
    ensures MutexInv(Apply(s, a))
  {
    hide InHand, Total, AllExited;
    if a.Spurious? || a.Lock? || a.Test? || a.Unlock? || a.Finish? {
      MutexWorkers(s, a);
    } else if a.EnqLock? || a.Push? || a.EnqUnlock? || a.Notify? {
      MutexCalls(s, a);
    }
  }

  /** Bookkeeping when a worker's hand changes from `h` to `x`. */
  lemma HandChanges(taken: multiset<Job>, finished: multiset<Job>, a: multiset<Job>, b: multiset<Job>, h: multiset<Job>, x: multiset<Job>)
    requires b + h == a + x && taken == finished + a
    ensures taken + x == finished + b + h
    ensures h == x ==> taken == finished + b
  {
    assert taken + x == finished + (a + x) == finished + (b + h);
    if h == x {
      forall j: Job ensures taken[j] == (finished + b)[j] {
        assert (taken + x)[j] == (finished + b + h)[j];
      }
    }
  }

  lemma HistoryTest(s: State, w: nat)
    requires QueueInv(s) && Enabled(s, Test(w))
    ensures QueueInv(Apply(s, Test(w)))
  {
    hide InHand;
    var t := Apply(s, Test(w));
    InHandUpdate(s.workers, w, t.workers[w]);
    if s.jobs != [] {
      assert s.jobs == [s.jobs[0]] + s.jobs[1..];
      assert s.taken + s.jobs == (s.taken + [s.jobs[0]]) + s.jobs[1..];
      assert multiset(t.taken) == multiset(s.taken) + multiset{s.jobs[0]};
    }
    HandChanges(multiset(s.taken), multiset(s.finished), InHand(s.workers), InHand(t.workers), multiset{}, HandOf(t.workers[w]));
  }

  lemma HistoryFinish(s: State, w: nat)
    requires QueueInv(s) && Enabled(s, Finish(w))
    ensures QueueInv(Apply(s, Finish(w)))
  {
    hide InHand;
    var t := Apply(s, Finish(w));
    var h := multiset{s.workers[w].job};
    InHandUpdate(s.workers, w, Ready);
    assert multiset(t.finished) == multiset(s.finished) + h;
    HandChanges(multiset(s.taken), multiset(s.finished), InHand(s.workers), InHand(t.workers), h, multiset{});
    assert multiset(s.finished) + InHand(t.workers) + h == multiset(t.finished) + InHand(t.workers);
  }

  lemma HistoryWorker(s: State, w: nat, x: Worker)
    requires QueueInv(s) && w < |s.workers| && HandOf(s.workers[w]) == HandOf(x)
    ensures QueueInv(s.(workers := s.workers[w := x]))
  {
    hide InHand, HandOf;
    InHandUpdate(s.workers, w, x);
    HandChanges(multiset(s.taken), multiset(s.finished), InHand(s.workers), InHand(s.workers[w := x]), HandOf(x), HandOf(x));
  }

  lemma StepQueue(s: State, a: Action)
    requires QueueInv(s) && Enabled(s, a)
    ensures QueueInv(Apply(s, a))
  {
    hide NoSleeper, AllExited, Total, InHand, HandOf, WakeAll;
    HandsEmpty();
    match a
    case Spurious(w) => HistoryWorker(s, w, Ready);
    case Lock(w) => HistoryWorker(s, w, Holding);
    case Test(w) => HistoryTest(s, w);
    case Unlock(w) => HistoryWorker(s, w, Apply(s, a).workers[w]);
    case Finish(w) => HistoryFinish(s, w);
    case Push(k) => Assoc(s.taken, s.jobs, [s.calls[k].job]);
    case Notify(k, wakes) => if wakes.Some? { HistoryWorker(s, wakes.value, Ready); }
    case NotifyAll => SameHands(s.workers);
    case _ =>
  }

  lemma HandsEmpty()
    ensures HandOf(Ready) == HandOf(Holding) == HandOf(Sleeping) == HandOf(Exiting) == HandOf(Exited) == multiset{}
    ensures forall job {:trigger HandOf(Popped(job))} :: HandOf(Popped(job)) == HandOf(Running(job))
  {
  }

  lemma SameHands(ws: seq<Worker>)
    ensures InHand(WakeAll(ws)) == InHand(ws)
  {
    InHandSame(ws, WakeAll(ws));
  }

  /** The heart of the matter: no step loses a wake-up. */
  lemma StepWake(s: State, a: Action)
    requires WakeInv(s) && ShutdownInv(s) && Enabled(s, a)
    ensures WakeInv(Apply(s, a))
  {
    hide InHand, Total, QueueInv;
    var t := Apply(s, a);
    match a
    case CallEnqueue(job) => TotalSnoc(s.calls, Pending, Waiting(job));
    case Spurious(w) => TotalUpdate(s.workers, Awake, w, Ready);
    case Lock(w) => TotalUpdate(s.workers, Awake, w, Holding);
    case Test(w) => TotalUpdate(s.workers, Awake, w, t.workers[w]);
    case Unlock(w) => TotalUpdate(s.workers, Awake, w, t.workers[w]);
    case Finish(w) => TotalUpdate(s.workers, Awake, w, Ready);
    case EnqLock(k) => TotalUpdate(s.calls, Pending, k, t.calls[k]);
    case Push(k) => TotalUpdate(s.calls, Pending, k, Pushed);
    case EnqUnlock(k) => TotalUpdate(s.calls, Pending, k, Notifying);
    case Notify(k, wakes) =>
      TotalUpdate(s.calls, Pending, k, Returned);
      if wakes.Some? {
        TotalUpdate(s.workers, Awake, wakes.value, Ready);
      }
    case _ => StillAsleep(s, a);
  }

  /** A worker asleep after a step of the closer was asleep before it. */
  lemma StillAsleep(s: State, a: Action)
    requires Enabled(s, a) && (a.CallShutdown? || a.CloseLock? || a.SetFlag? || a.CloseUnlock? || a.NotifyAll? || a.Join?)
    ensures var t := Apply(s, a);
            NoSleeper(t.workers) || (!NoSleeper(s.workers) && t.workers == s.workers && t.calls == s.calls && t.jobs == s.jobs)
  {
  }

  lemma StepShutdown(s: State, a: Action)
    requires ShutdownInv(s) && QueueInv(s) && MutexInv(s) && Enabled(s, a)
    ensures ShutdownInv(Apply(s, a))
  {
    hide InHand, Total;
  }

  lemma StepInv(s: State, a: Action)
    requires Inv(s) && Enabled(s, a)
    ensures Inv(Apply(s, a))
  {
    hide MutexInv, QueueInv, WakeInv, ShutdownInv, Apply;
    StepMutex(s, a);
    StepQueue(s, a);
    StepWake(s, a);
    StepShutdown(s, a);
  }

  lemma {:induction false} RunInv(s: State, actions: seq<Action>, t: State)
    requires Inv(s) && Runs(s, actions, t)
    ensures Inv(t)
    decreases |actions|
  {
    if actions != [] {
      hide Inv, Apply;
      StepInv(s, actions[0]);
      RunInv(Apply(s, actions[0]), actions[1..], t);
    }
  }

  // ----- What follows for every run -----

  /** A run of a pool of `n` workers. */
  predicate Reaches(n: nat, actions: seq<Action>, s: State) { Runs(Start(n), actions, s) }

  lemma Reachable(n: nat, actions: seq<Action>, s: State)
    requires Reaches(n, actions, s)
    ensures Inv(s)
  {
    hide Inv;
    StartInv(n);
    RunInv(Start(n), actions, s);
  }

  /**
   * No lost wake-up: while a worker sleeps, every queued job has an awake worker on its way or a notification to come.
   * So if none is on its way and none is to come, a sleeping worker means an empty queue.
   */
  lemma NoLostWakeUp(n: nat, actions: seq<Action>, s: State)
    requires Reaches(n, actions, s) && !NoSleeper(s.workers)
    ensures |s.jobs| <= Total(s.workers, Awake) + Total(s.calls, Pending)
    ensures ( && (forall i :: 0 <= i < |s.workers| ==> !s.workers[i].Ready? && !s.workers[i].Holding?)
              && (forall k :: 0 <= k < |s.calls| ==> !s.calls[k].Pushed? && !s.calls[k].Notifying?))
            ==> s.jobs == []
  {
    Reachable(n, actions, s);
    TotalZero(s.workers, Awake);
    TotalZero(s.calls, Pending);
  }

  /** Jobs are taken in the order they were pushed, each once; what has been taken is finished or in a worker's hand. */
  lemma FirstInFirstOut(n: nat, actions: seq<Action>, s: State)
    requires Reaches(n, actions, s)
    ensures s.taken <= s.pushed && s.jobs == s.pushed[|s.taken|..]
    ensures multiset(s.taken) == multiset(s.finished) + InHand(s.workers)
  {
    hide InHand;
    Reachable(n, actions, s);
  }

  lemma {:induction false} NothingInHand(ws: seq<Worker>)
    requires AllExited(ws)
    ensures InHand(ws) == multiset{}
  {
    if ws != [] {
      NothingInHand(ws[1..]);
    }
  }

  /** Once every worker has exited, each job pushed before the shutdown has been finished exactly once. */
  lemma Drains(n: nat, actions: seq<Action>, s: State)
    requires n > 0 && Reaches(n, actions, s) && AllExited(s.workers)
    ensures s.before <= |s.pushed| && s.pushed[..s.before] <= s.taken && multiset(s.finished) == multiset(s.taken)
  {
    hide InHand;
    Reachable(n, actions, s);
    WorkerCount(Start(n), actions, s);
    NothingInHand(s.workers);
    assert s.workers[0].Exited?;
  }

  lemma {:induction false} WorkerCount(s: State, actions: seq<Action>, t: State)
    requires Runs(s, actions, t)
    ensures |t.workers| == |s.workers|
    decreases |actions|
  {
    if actions != [] {
      WorkerCount(Apply(s, actions[0]), actions[1..], t);
    }
  }

  // ----- Progress -----

  function WorkerRank(w: Worker): nat {
    match w
    case Ready => 3 case Holding => 2 case Sleeping => 0 case Popped(_) => 5 case Running(_) => 4
    case Exiting => 1 case Exited => 0
  }

  function CallRank(e: Enqueue): nat {
    match e case Waiting(_) => 11 case Inside(_) => 10 case Pushed => 5 case Notifying => 4 case Returned => 0
  }

  function CloserRank(c: Shutdown, n: nat): nat {
    match c
    case NotCalled => 3 * n + 6 case Called => 3 * n + 5 case Closing => 3 * n + 4 case Flagged => 3 * n + 3
    case NotifyingAll => 3 * n + 2 case Joining => 1 case Joined => 0
  }

  /** A bound on the steps the pool's own threads can still make. */
  function Rank(s: State): nat {
    Total(s.workers, WorkerRank) + Total(s.calls, CallRank) + 4 * |s.jobs| + CloserRank(s.closer, |s.workers|)
  }

  lemma {:induction false} WakeRank(ws: seq<Worker>)
    ensures Total(WakeAll(ws), WorkerRank) <= Total(ws, WorkerRank) + 3 * |ws|
  {
    if ws != [] {
      assert WakeAll(ws)[1..] == WakeAll(ws[1..]);
      WakeRank(ws[1..]);
    }
  }

  /** Every step of the pool's own threads uses up some of the bound. */
  lemma StepRank(s: State, a: Action)
    requires Enabled(s, a) && !FromOutside(a)
    ensures Rank(Apply(s, a)) < Rank(s)
  {
    hide Total, NoSleeper, AllExited, WakeAll;
    var t := Apply(s, a);
    match a
    case Lock(w) => TotalUpdate(s.workers, WorkerRank, w, Holding);
    case Test(w) => TotalUpdate(s.workers, WorkerRank, w, t.workers[w]);
    case Unlock(w) => TotalUpdate(s.workers, WorkerRank, w, t.workers[w]);
    case Finish(w) => TotalUpdate(s.workers, WorkerRank, w, Ready);
    case EnqLock(k) => TotalUpdate(s.calls, CallRank, k, t.calls[k]);
    case Push(k) => TotalUpdate(s.calls, CallRank, k, Pushed);
    case EnqUnlock(k) => TotalUpdate(s.calls, CallRank, k, Notifying);
    case Notify(k, wakes) =>
      TotalUpdate(s.calls, CallRank, k, Returned);
      if wakes.Some? {
        TotalUpdate(s.workers, WorkerRank, wakes.value, Ready);
      }
    case NotifyAll =>
      WakeRank(s.workers);
      WakeLength(s.workers);
    case _ =>
  }

  lemma WakeLength(ws: seq<Worker>)
    ensures |WakeAll(ws)| == |ws|
  {
  }

  predicate Internal(actions: seq<Action>) { forall i :: 0 <= i < |actions| ==> !FromOutside(actions[i]) }

  /** Without new calls and spurious wake-ups the pool stops after a bounded number of steps. */
  lemma {:induction false} Bounded(s: State, actions: seq<Action>, t: State)
    requires Runs(s, actions, t) && Internal(actions)
    ensures |actions| + Rank(t) <= Rank(s)
    decreases |actions|
  {
    if actions != [] {
      hide Rank, Apply;
      StepRank(s, actions[0]);
      assert forall i :: 0 <= i < |actions[1..]| ==> actions[1..][i] == actions[i + 1];
      Bounded(Apply(s, actions[0]), actions[1..], t);
    }
  }

  ghost predicate Stuck(s: State) { forall a :: Enabled(s, a) ==> FromOutside(a) }

  /** In a state where no thread of the pool can move, nobody is between two steps. */
  lemma StuckMeans(s: State)
    requires Inv(s) && Stuck(s)
    ensures forall i :: 0 <= i < |s.workers| ==> s.workers[i].Sleeping? || s.workers[i].Exited?
    ensures forall k :: 0 <= k < |s.calls| ==> s.calls[k].Returned?
    ensures s.closer.NotCalled? || s.closer.Joining? || s.closer.Joined?
  {
    hide QueueInv, WakeInv, ShutdownInv, Total;
    OwnerMoves(s);
    forall i | 0 <= i < |s.workers| ensures s.workers[i].Sleeping? || s.workers[i].Exited? {
      assert !Enabled(s, Lock(i)) && !Enabled(s, Test(i)) && !Enabled(s, Unlock(i)) && !Enabled(s, Finish(i));
    }
    forall k | 0 <= k < |s.calls| ensures s.calls[k].Returned? {
      assert !Enabled(s, EnqLock(k)) && !Enabled(s, Push(k)) && !Enabled(s, EnqUnlock(k)) && !Enabled(s, Notify(k, None));
      if !NoSleeper(s.workers) {
        var w :| 0 <= w < |s.workers| && s.workers[w].Sleeping?;
        assert !Enabled(s, Notify(k, Some(w)));
      }
    }
    assert !Enabled(s, CloseLock) && !Enabled(s, SetFlag) && !Enabled(s, CloseUnlock) && !Enabled(s, NotifyAll);
  }

  lemma OwnerMove(s: State) returns (a: Action)
    requires MutexInv(s) && !s.owner.Free?
    ensures Enabled(s, a) && !FromOutside(a)
  {
    match s.owner
    case ByWorker(w) => a := if s.workers[w].Holding? then Test(w) else Unlock(w);
    case ByEnqueue(k) => a := if s.calls[k].Inside? then Push(k) else EnqUnlock(k);
    case ByShutdown => a := if s.closer.Closing? then SetFlag else CloseUnlock;
  }

  lemma OwnerMoves(s: State)
    requires MutexInv(s) && Stuck(s)
    ensures s.owner.Free?
  {
    if !s.owner.Free? {
      var a := OwnerMove(s);
    }
  }

  /**
   * The pool never deadlocks. When none of its threads can move, either it was not shut down and the queue is empty, or the
   * shutdown has joined every worker and each job pushed before it has been finished.
   */
  lemma NoDeadlock(n: nat, actions: seq<Action>, s: State)
    requires n > 0 && Reaches(n, actions, s) && Stuck(s)
    ensures if s.closer.NotCalled? then s.jobs == [] && multiset(s.finished) == multiset(s.pushed)
            else s.closer.Joined? && AllExited(s.workers) && s.before <= |s.pushed| && s.pushed[..s.before] <= s.taken
                 && multiset(s.finished) == multiset(s.taken)
  {
    hide InHand;
    Reachable(n, actions, s);
    StuckMeans(s);
    WorkerCount(Start(n), actions, s);
    if s.closer.NotCalled? {
      assert s.workers[0].Sleeping?;
      NoLostWakeUp(n, actions, s);
      InHandAsleep(s.workers);
      assert s.taken + [] == s.taken;
    } else {
      if s.closer.Joining? {
        assert !Enabled(s, Join);
      }
      Drains(n, actions, s);
    }
  }

  lemma {:induction false} InHandAsleep(ws: seq<Worker>)
    requires forall i :: 0 <= i < |ws| ==> ws[i].Sleeping? || ws[i].Exited?
    ensures InHand(ws) == multiset{}
  {
    if ws != [] {
      InHandAsleep(ws[1..]);
    }
  }

  // ----- The jobs that were asked for -----

  /** The jobs of the calls of `enqueue`, in the order they were made. */
  function Asked(actions: seq<Action>): seq<Job> {
    if actions == [] then []
    else (if actions[0].CallEnqueue? then [actions[0].job] else []) + Asked(actions[1..])
  }

  function JobOf(e: Enqueue): multiset<Job> { if e.Waiting? || e.Inside? then multiset{e.job} else multiset{} }

  /** The jobs of the calls that have not pushed yet. */
  function Unpushed(calls: seq<Enqueue>): multiset<Job> {
    if calls == [] then multiset{} else JobOf(calls[0]) + Unpushed(calls[1..])
  }

  lemma {:induction false} UnpushedSnoc(calls: seq<Enqueue>, e: Enqueue)
    ensures Unpushed(calls + [e]) == Unpushed(calls) + JobOf(e)
  {
    hide JobOf;
    if calls == [] {
      assert calls + [e] == [e] && [e][1..] == [];
      assert Unpushed([e]) == JobOf(e) + multiset{} == JobOf(e);
    } else {
      assert (calls + [e])[1..] == calls[1..] + [e];
      UnpushedSnoc(calls[1..], e);
    }
  }

  lemma {:induction false} UnpushedUpdate(calls: seq<Enqueue>, k: nat, e: Enqueue)
    requires k < |calls|
    ensures Unpushed(calls[k := e]) + JobOf(calls[k]) == Unpushed(calls) + JobOf(e)
  {
    hide JobOf;
    var us := calls[k := e];
    assert Unpushed(us) == JobOf(us[0]) + Unpushed(us[1..]);
    assert Unpushed(calls) == JobOf(calls[0]) + Unpushed(calls[1..]);
    if k > 0 {
      assert us[1..] == calls[1..][k - 1 := e];
      UnpushedUpdate(calls[1..], k - 1, e);
      assert us[0] == calls[0] && calls[1..][k - 1] == calls[k];
      assert Unpushed(us) + JobOf(calls[k]) == JobOf(calls[0]) + (Unpushed(us[1..]) + JobOf(calls[k]));
      assert Unpushed(calls) + JobOf(e) == JobOf(calls[0]) + (Unpushed(calls[1..]) + JobOf(e));
    } else {
      assert us[1..] == calls[1..] && us[0] == e;
      assert JobOf(e) + Unpushed(calls[1..]) + JobOf(calls[0]) == JobOf(calls[0]) + Unpushed(calls[1..]) + JobOf(e);
    }
  }

  /** The jobs that have been asked for so far. */
  function JobsSeen(s: State): multiset<Job> { multiset(s.pushed) + Unpushed(s.calls) }

  lemma CallJobs(s: State, job: Job)
    ensures JobsSeen(Apply(s, CallEnqueue(job))) == JobsSeen(s) + multiset{job}
  {
    hide Unpushed;
    UnpushedSnoc(s.calls, Waiting(job));
    var p, u, m := multiset(s.pushed), Unpushed(s.calls), multiset{job};
    assert p + (u + m) == (p + u) + m;
  }

  lemma PushJobs(s: State, k: nat)
    requires Enabled(s, Push(k))
    ensures JobsSeen(Apply(s, Push(k))) == JobsSeen(s)
  {
    hide Unpushed;
    var t := Apply(s, Push(k));
    UnpushedUpdate(s.calls, k, Pushed);
    var p, u, m := multiset(s.pushed), Unpushed(t.calls), multiset{s.calls[k].job};
    assert multiset(t.pushed) == p + m;
    assert u + m == Unpushed(s.calls) by {
      assert u + m == Unpushed(s.calls) + multiset{};
    }
    assert (p + m) + u == p + (u + m);
  }

  /** A call goes on without pushing. */
  lemma CallGoesOn(s: State, a: Action)
    requires Enabled(s, a) && (a.EnqLock? || a.EnqUnlock? || a.Notify?)
    ensures JobsSeen(Apply(s, a)) == JobsSeen(s)
  {
    hide Unpushed, NoSleeper, JobOf, JobsSeen;
    var e := Apply(s, a).calls[a.k];
    NextCall(s, a);
    SameJob(s.calls, a.k, e);
    SameSeen(s, Apply(s, a));
  }

  lemma NextCall(s: State, a: Action)
    requires Enabled(s, a) && (a.EnqLock? || a.EnqUnlock? || a.Notify?)
    ensures var t := Apply(s, a);
            && t.pushed == s.pushed && a.k < |s.calls| == |t.calls|
            && t.calls == s.calls[a.k := t.calls[a.k]] && JobOf(t.calls[a.k]) == JobOf(s.calls[a.k])
  {
    hide NoSleeper;
  }

  lemma SameSeen(s: State, t: State)
    requires t.pushed == s.pushed && Unpushed(t.calls) == Unpushed(s.calls)
    ensures JobsSeen(t) == JobsSeen(s)
  {
    hide Unpushed;
  }

  /** Every step moves jobs from the calls to the queue and loses none. */
  lemma StepJobs(s: State, a: Action)
    requires Enabled(s, a)
    ensures JobsSeen(Apply(s, a)) == if a.CallEnqueue? then JobsSeen(s) + multiset{a.job} else JobsSeen(s)
  {
    hide Unpushed, WakeAll, AllExited, NoSleeper;
    if a.CallEnqueue? {
      CallJobs(s, a.job);
    } else if a.Push? {
      PushJobs(s, a.k);
    } else if a.EnqLock? || a.EnqUnlock? || a.Notify? {
      CallGoesOn(s, a);
    } else {
      assert Apply(s, a).pushed == s.pushed && Apply(s, a).calls == s.calls;
    }
  }

  lemma SameJob(calls: seq<Enqueue>, k: nat, e: Enqueue)
    requires k < |calls| && JobOf(e) == JobOf(calls[k])
    ensures Unpushed(calls[k := e]) == Unpushed(calls)
  {
    hide JobOf, Unpushed;
    UnpushedUpdate(calls, k, e);
    var a, b, j := Unpushed(calls[k := e]), Unpushed(calls), JobOf(e);
    assert a == (a + j) - j == (b + j) - j == b;
  }

  lemma {:induction false} RunJobs(s: State, actions: seq<Action>, t: State)
    requires Runs(s, actions, t)
    ensures JobsSeen(t) == JobsSeen(s) + multiset(Asked(actions))
    decreases |actions|
  {
    hide Apply, Enabled, JobsSeen;
    if actions != [] {
      var a, rest := actions[0], actions[1..];
      StepJobs(s, a);
      RunJobs(Apply(s, a), rest, t);
      if a.CallEnqueue? {
        assert multiset(Asked(actions)) == multiset{a.job} + multiset(Asked(rest));
        assert (JobsSeen(s) + multiset{a.job}) + multiset(Asked(rest)) == JobsSeen(s) + (multiset{a.job} + multiset(Asked(rest)));
      } else {
        assert [] + Asked(rest) == Asked(rest);
      }
    }
  }

  lemma {:induction false} AllPushed(calls: seq<Enqueue>)
    requires forall k :: 0 <= k < |calls| ==> calls[k].Returned?
    ensures Unpushed(calls) == multiset{}
  {
    if calls != [] {
      AllPushed(calls[1..]);
    }
  }

  /** In a pool that has come to rest without a shutdown, every job that was asked for has been run exactly once. */
  lemma EachJobOnce(n: nat, actions: seq<Action>, s: State)
    requires n > 0 && Reaches(n, actions, s) && Stuck(s) && s.closer.NotCalled?
    ensures multiset(s.finished) == multiset(Asked(actions))
  {
    hide Inv, Stuck;
    NoDeadlock(n, actions, s);
    Reachable(n, actions, s);
    StuckMeans(s);
    RunJobs(Start(n), actions, s);
    AllPushed(s.calls);
    assert JobsSeen(Start(n)) == multiset{};
    assert JobsSeen(s) == multiset(s.pushed);
  }

  lemma {:induction false} PushedGrows(s: State, actions: seq<Action>, t: State)
    requires Runs(s, actions, t)
    ensures s.pushed <= t.pushed
    ensures s.closer.Flagged? || s.closer.NotifyingAll? || s.closer.Joining? || s.closer.Joined? ==> t.before == s.before
    decreases |actions|
  {
    if actions != [] {
      PushedGrows(Apply(s, actions[0]), actions[1..], t);
    }
  }

  /** However the run goes on after the shutdown flag is set: once all workers have exited, what was queued by then has been run once. */
  lemma ShutdownDrains(n: nat, earlier: seq<Action>, s: State, later: seq<Action>, t: State)
    requires n > 0 && Reaches(n, earlier, s) && Enabled(s, SetFlag)
    requires Runs(Apply(s, SetFlag), later, t) && AllExited(t.workers)
    ensures s.pushed <= t.taken <= t.pushed && multiset(t.finished) == multiset(t.taken)
  {
    hide Inv;
    RunsThen(Start(n), earlier, s, SetFlag, later, t);
    PushedGrows(Apply(s, SetFlag), later, t);
    Drains(n, earlier + ([SetFlag] + later), t);
    FirstInFirstOut(n, earlier + ([SetFlag] + later), t);
    assert t.pushed[..t.before] == s.pushed;
  }

  lemma {:induction false} RunsThen(s: State, xs: seq<Action>, t: State, a: Action, ys: seq<Action>, u: State)
    requires Runs(s, xs, t) && Enabled(t, a) && Runs(Apply(t, a), ys, u)
    ensures Runs(s, xs + ([a] + ys), u)
    decreases |xs|
  {
    hide Apply, Enabled;
    if xs == [] {
      assert xs + ([a] + ys) == [a] + ys && ([a] + ys)[1..] == ys;
    } else {
      assert (xs + ([a] + ys))[1..] == xs[1..] + ([a] + ys);
      RunsThen(Apply(s, xs[0]), xs[1..], t, a, ys, u);
    }
  }
}

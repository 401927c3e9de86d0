/** The thread pool of the HTTP server. */
module ThreadPool {
  // Workers, a job queue under a mutex, a condition variable, and a shutdown that joins the workers.
  // Every interleaving is a sequence of events on its state; a critical section is entered by taking
  // the mutex and left by giving it back. Jobs are numbered in the order in which they are enqueued.

  import opened Options
  import opened Seqs

  datatype WorkerState =
    | Ready  // about to lock the mutex: at the start, after a job, or after being woken
    | Holding  // has the mutex and looks at the queue
    | Sleeping  // waits for the condition variable
    | Running(job: nat)
    | Exited

  datatype Pool = Pool(
    workers: seq<WorkerState>, holder: Option<nat>, jobs: seq<nat>, shutdown: bool,
    enqueued: nat,  // number of jobs enqueued so far
    started: seq<nat>,  // jobs in the order in which workers took them
    finished: set<nat>,
    closing: nat,  // number of jobs enqueued when the shutdown flag was set
    notified: bool,  // the shutdown has called notify_all
    joined: nat)  // number of threads the shutdown has joined

  function Init(n: nat): Pool
  {
    Pool(Repeat(Ready, n), None, [], false, 0, [], {}, 0, false, 0)
  }

  datatype Event =
    | Lock(w: nat)
    | Wait(w: nat)  // the predicate is false: sleep and give the mutex back
    | Take(w: nat)  // take the first job and give the mutex back
    | Exit(w: nat)
    | Finish(w: nat)
    | Wake(w: nat)  // spurious
    | Enqueue(woken: Option<nat>)  // with notify_one
    | SetShutdown
    | NotifyAll
    | Join

  predicate IsIn(p: Pool, w: nat, s: WorkerState) { w < |p.workers| && p.workers[w] == s }

  predicate SomeSleeping(ws: seq<WorkerState>) { exists i | 0 <= i < |ws| :: ws[i].Sleeping? }

  predicate Enabled(p: Pool, e: Event)
  {
    match e
    case Lock(w) => IsIn(p, w, Ready) && p.holder.None?
    case Wait(w) => IsIn(p, w, Holding) && p.jobs == [] && !p.shutdown
    case Take(w) => IsIn(p, w, Holding) && p.jobs != []
    case Exit(w) => IsIn(p, w, Holding) && p.jobs == [] && p.shutdown
    case Finish(w) => w < |p.workers| && p.workers[w].Running?
    case Wake(w) => IsIn(p, w, Sleeping)
    case Enqueue(woken) =>
      && p.holder.None?
      && (if woken.Some? then IsIn(p, woken.value, Sleeping) else !SomeSleeping(p.workers))
    case SetShutdown => p.holder.None? && !p.shutdown
    case NotifyAll => p.shutdown && !p.notified
    case Join => p.notified && IsIn(p, p.joined, Exited)
  }

  function WakeAll(ws: seq<WorkerState>): (r: seq<WorkerState>)
    ensures |r| == |ws|
    ensures forall i | 0 <= i < |ws| :: r[i] == if ws[i].Sleeping? then Ready else ws[i]
  {
    if ws == [] then [] else [if ws[0].Sleeping? then Ready else ws[0]] + WakeAll(ws[1..])
  }

  function Apply(p: Pool, e: Event): Pool
    requires Enabled(p, e)
  {
    match e
    case Lock(w) => p.(workers := p.workers[w := Holding], holder := Some(w))
    case Wait(w) => p.(workers := p.workers[w := Sleeping], holder := None)
    case Take(w) =>
      p.(workers := p.workers[w := Running(p.jobs[0])], holder := None,
         jobs := p.jobs[1..], started := p.started + [p.jobs[0]])
    case Exit(w) => p.(workers := p.workers[w := Exited], holder := None)
    case Finish(w) => p.(workers := p.workers[w := Ready], finished := p.finished + {p.workers[w].job})
    case Wake(w) => p.(workers := p.workers[w := Ready])
    case Enqueue(woken) =>
      p.(workers := if woken.Some? then p.workers[woken.value := Ready] else p.workers,
         jobs := p.jobs + [p.enqueued], enqueued := p.enqueued + 1)
    case SetShutdown => p.(shutdown := true, closing := p.enqueued)
    case NotifyAll => p.(workers := WakeAll(p.workers), notified := true)
    case Join => p.(joined := p.joined + 1)
  }

  /** Each event of the run is enabled when its turn comes. */
  predicate Possible(p: Pool, run: seq<Event>)
    decreases |run|
  {
    run == [] || (Enabled(p, run[0]) && Possible(Apply(p, run[0]), run[1..]))
  }

  function After(p: Pool, run: seq<Event>): Pool
    requires Possible(p, run)
    decreases |run|
  {
    if run == [] then p else After(Apply(p, run[0]), run[1..])
  }

  // ----- what every step keeps -----

  function Upto(n: nat): (s: seq<nat>)
    ensures |s| == n && forall i | 0 <= i < n :: s[i] == i
  {
    if n == 0 then [] else Upto(n - 1) + [n - 1]
  }

  function Weight(s: WorkerState): nat
  {
    match s
    case Ready => 2
    case Holding => 1
    case Sleeping => 0
    case Running(_) => 3
    case Exited => 0
  }

  function Idle(s: WorkerState): nat { if s.Ready? || s.Holding? then 1 else 0 }

  function Total(ws: seq<WorkerState>, f: WorkerState -> nat): nat
  {
    if ws == [] then 0 else f(ws[0]) + Total(ws[1..], f)
  }

  lemma {:induction false} TotalUpdate(ws: seq<WorkerState>, f: WorkerState -> nat, i: nat, s: WorkerState)
    requires i < |ws|
    ensures Total(ws[i := s], f) == Total(ws, f) - f(ws[i]) + f(s)
  {
    if i > 0 {
      TotalUpdate(ws[1..], f, i - 1, s);
      assert ws[i := s][1..] == ws[1..][i - 1 := s];
    } else {
      assert ws[0 := s][1..] == ws[1..];
    }
  }

  lemma {:induction false} TotalPositive(ws: seq<WorkerState>, f: WorkerState -> nat)
    requires Total(ws, f) > 0
    ensures exists i | 0 <= i < |ws| :: f(ws[i]) > 0
  {
    if f(ws[0]) == 0 {
      TotalPositive(ws[1..], f);
      var i :| 0 <= i < |ws| - 1 && f(ws[1..][i]) > 0;
      assert ws[i + 1] == ws[1..][i];
    }
  }

  /** The mutex is held by the one worker that is inside. */
  predicate MutexKept(p: Pool)
  {
    forall w | 0 <= w < |p.workers| :: p.workers[w].Holding? <==> p.holder == Some(w)
  }

  predicate HolderInside(p: Pool)
  {
    p.holder.Some? ==> p.holder.value < |p.workers|
  }

  /** Jobs are taken in the order in which they were enqueued, each at most once. */
  predicate InOrder(p: Pool)
  {
    p.started + p.jobs == Upto(p.enqueued)
  }

  /** The running jobs have been taken, are not finished, and run on one worker each. */
  predicate RunsOnce(p: Pool)
  {
    && (forall j | j in p.finished :: j < |p.started|)
    && (forall w | 0 <= w < |p.workers| && p.workers[w].Running? ::
          p.workers[w].job < |p.started| && p.workers[w].job !in p.finished)
    && (forall v, w | 0 <= v < w < |p.workers| && p.workers[v].Running? && p.workers[w].Running? ::
          p.workers[v].job != p.workers[w].job)
  }

  /** A job that has been taken is running or finished. */
  predicate NoneForgotten(p: Pool)
  {
    forall j: nat | j < |p.started| && j !in p.finished :: IsRunning(p, j)
  }

  predicate IsRunning(p: Pool, j: nat)
  {
    exists w | 0 <= w < |p.workers| :: p.workers[w] == Running(j)
  }

  /** No wake-up is lost: while some worker sleeps, at least as many others are about to look at
      the queue as there are jobs in it. */
  predicate NoLostWakeup(p: Pool)
  {
    SomeSleeping(p.workers) ==> |p.jobs| <= Total(p.workers, Idle)
  }

  /** Workers leave only after the shutdown, when every earlier job has been taken. */
  predicate LeftInTime(p: Pool)
  {
    && (p.notified ==> p.shutdown && !SomeSleeping(p.workers))
    && (p.shutdown ==> p.closing <= p.enqueued)
    && (forall w | 0 <= w < |p.workers| && p.workers[w].Exited? :: p.shutdown && p.closing <= |p.started|)
    && p.joined <= |p.workers|
    && (forall w | 0 <= w < p.joined :: p.workers[w].Exited?)
  }

  predicate Inv(p: Pool)
  {
    MutexKept(p) && HolderInside(p) && InOrder(p) && RunsOnce(p) && NoneForgotten(p) && NoLostWakeup(p) && LeftInTime(p)
  }

  lemma InitInv(n: nat)
    ensures Inv(Init(n))
  {}

  lemma KeepsMutex(p: Pool, e: Event)
    requires MutexKept(p) && HolderInside(p) && Enabled(p, e)
    ensures MutexKept(Apply(p, e)) && HolderInside(Apply(p, e))
  {}

  lemma KeepsOrder(p: Pool, e: Event)
    requires InOrder(p) && Enabled(p, e)
    ensures InOrder(Apply(p, e))
  {
    if e.Take? {
      assert p.started + [p.jobs[0]] + p.jobs[1..] == p.started + p.jobs;
    } else if e.Enqueue? {
      assert p.started + (p.jobs + [p.enqueued]) == p.started + p.jobs + [p.enqueued];
    }
  }

  /** The next job is the one after those taken so far. */
  lemma NextJob(p: Pool)
    requires InOrder(p) && p.jobs != []
    ensures p.jobs[0] == |p.started|
  {
    assert (p.started + p.jobs)[|p.started|] == p.jobs[0];
  }

  lemma KeepsRunning(p: Pool, e: Event)
    requires RunsOnce(p) && InOrder(p) && Enabled(p, e)
    ensures RunsOnce(Apply(p, e))
  {
    if e.Take? {
      NextJob(p);
    }
    hide InOrder, WakeAll;
  }

  lemma KeepsTrack(p: Pool, e: Event)
    requires NoneForgotten(p) && InOrder(p) && Enabled(p, e)
    ensures NoneForgotten(Apply(p, e))
  {
    var p' := Apply(p, e);
    if e.Take? {
      NextJob(p);
    }
    hide InOrder;
    forall j: nat | j < |p'.started| && j !in p'.finished ensures IsRunning(p', j) {
      if e.Take? && j == p.jobs[0] {
        assert p'.workers[e.w] == Running(j);
      } else {
        assert IsRunning(p, j);
        var w :| 0 <= w < |p.workers| && p.workers[w] == Running(j);
        assert p'.workers[w] == Running(j);
      }
    }
  }

  lemma KeepsWakeups(p: Pool, e: Event)
    requires NoLostWakeup(p) && Enabled(p, e)
    ensures NoLostWakeup(Apply(p, e))
  {
    var p' := Apply(p, e);
    match e {
      case Lock(w) => TotalUpdate(p.workers, Idle, w, Holding); OnlyThat(p.workers, w, Holding);
      case Wait(w) =>
      case Take(w) => TotalUpdate(p.workers, Idle, w, Running(p.jobs[0])); OnlyThat(p.workers, w, Running(p.jobs[0]));
      case Exit(w) =>
      case Finish(w) => TotalUpdate(p.workers, Idle, w, Ready); OnlyThat(p.workers, w, Ready);
      case Wake(w) => TotalUpdate(p.workers, Idle, w, Ready);
      case Enqueue(woken) =>
        if woken.Some? {
          TotalUpdate(p.workers, Idle, woken.value, Ready);
        }
      case SetShutdown =>
      case NotifyAll =>
      case Join =>
    }
  }

  /** A worker that does not go to sleep adds no sleeper. */
  lemma OnlyThat(ws: seq<WorkerState>, i: nat, s: WorkerState)
    requires i < |ws| && !s.Sleeping?
    ensures SomeSleeping(ws[i := s]) ==> SomeSleeping(ws)
  {
    if SomeSleeping(ws[i := s]) {
      var k :| 0 <= k < |ws| && ws[i := s][k].Sleeping?;
      assert ws[k].Sleeping?;
    }
  }

  lemma KeepsLeaving(p: Pool, e: Event)
    requires LeftInTime(p) && InOrder(p) && Enabled(p, e)
    ensures LeftInTime(Apply(p, e))
  {
    assert |p.started| + |p.jobs| == p.enqueued;
    match e {
      case Lock(w) => OnlyThat(p.workers, w, Holding);
      case Take(w) => OnlyThat(p.workers, w, Running(p.jobs[0]));
      case Exit(w) => OnlyThat(p.workers, w, Exited);
      case Finish(w) => OnlyThat(p.workers, w, Ready);
      case Wake(w) => OnlyThat(p.workers, w, Ready);
      case _ =>
    }
  }

  lemma StepKeepsInv(p: Pool, e: Event)
    requires Inv(p) && Enabled(p, e)
    ensures Inv(Apply(p, e))
  {
    hide MutexKept, HolderInside, InOrder, RunsOnce, NoneForgotten, NoLostWakeup, LeftInTime, Apply, Enabled;
    KeepsMutex(p, e);
    KeepsOrder(p, e);
    KeepsRunning(p, e);
    KeepsTrack(p, e);
    KeepsWakeups(p, e);
    KeepsLeaving(p, e);
  }

  lemma {:induction false} RunKeepsInv(p: Pool, run: seq<Event>)
    requires Inv(p) && Possible(p, run)
    ensures Inv(After(p, run)) && |After(p, run).workers| == |p.workers|
    decreases |run|
  {
    hide Inv;
    if run != [] {
      StepKeepsInv(p, run[0]);
      RunKeepsInv(Apply(p, run[0]), run[1..]);
    }
  }

  // ----- the promises -----

  /** On every run: jobs are taken in the order of their enqueuing, none is taken twice, and
      a queued job never waits while all workers sleep. */
  lemma JobsRunInOrder(n: nat, run: seq<Event>)
    requires Possible(Init(n), run)
    ensures
      var p := After(Init(n), run);
      && (forall i | 0 <= i < |p.started| :: p.started[i] == i)
      && (p.jobs != [] ==> !(n > 0 && forall w | 0 <= w < |p.workers| :: p.workers[w].Sleeping?))
      && (SomeSleeping(p.workers) ==> |p.jobs| <= Total(p.workers, Idle))
  {
    InitInv(n);
    RunKeepsInv(Init(n), run);
    var p := After(Init(n), run);
    forall i | 0 <= i < |p.started| ensures p.started[i] == i {
      assert (p.started + p.jobs)[i] == p.started[i];
    }
    if p.jobs != [] && n > 0 && forall w | 0 <= w < |p.workers| :: p.workers[w].Sleeping? {
      assert p.workers[0].Sleeping?;
      TotalPositive(p.workers, Idle);
      assert false;
    }
  }

  /** When the shutdown of a pool with workers returns, every job enqueued before it has
      finished. */
  lemma ShutdownFinishesJobs(n: nat, run: seq<Event>)
    requires n > 0 && Possible(Init(n), run)
    ensures
      var p := After(Init(n), run);
      p.notified && p.joined == n ==> forall j: nat | j < p.closing :: j in p.finished
  {
    InitInv(n);
    RunKeepsInv(Init(n), run);
    var p := After(Init(n), run);
    if p.notified && p.joined == n {
      assert p.workers[0].Exited?;
      forall j: nat | j < p.closing ensures j in p.finished {
        assert j in p.finished || IsRunning(p, j);
      }
    }
  }

  /** A pool without workers: the shutdown returns and the job is never run. */
  lemma NoWorkersNoJobs()
    ensures
      var run := [Enqueue(None), SetShutdown, NotifyAll];
      && Possible(Init(0), run)
      && var p := After(Init(0), run);
         p.notified && p.joined == 0 && p.closing == 1 && p.finished == {}
  {
    var p0 := Init(0);
    var p1 := Apply(p0, Enqueue(None));
    var p2 := Apply(p1, SetShutdown);
    var p3 := Apply(p2, NotifyAll);
    var run := [Enqueue(None), SetShutdown, NotifyAll];
    assert run[1..] == [SetShutdown, NotifyAll] && run[1..][1..] == [NotifyAll] && run[1..][1..][1..] == [];
    assert After(p3, []) == p3;
    assert After(p2, [NotifyAll]) == p3;
    assert After(p1, [SetShutdown, NotifyAll]) == p3;
  }

  // ----- progress -----

  /** A queued job is never stuck: some worker can move, unless all have left. */
  lemma QueueMoves(p: Pool)
    requires Inv(p) && p.jobs != [] && exists w | 0 <= w < |p.workers| :: !p.workers[w].Exited?
    ensures exists e: Event :: Enabled(p, e) && (e.Lock? || e.Take? || e.Finish?)
  {
    if p.holder.Some? {
      assert Enabled(p, Take(p.holder.value));
    } else {
      var w :| 0 <= w < |p.workers| && !p.workers[w].Exited?;
      if p.workers[w].Sleeping? {
        TotalPositive(p.workers, Idle);
        var v :| 0 <= v < |p.workers| && Idle(p.workers[v]) > 0;
        assert Enabled(p, Lock(v));
      } else if p.workers[w].Ready? {
        assert Enabled(p, Lock(w));
      } else {
        assert p.workers[w].Running?;
        assert Enabled(p, Finish(w));
      }
    }
  }

  /** The steps of the workers and of the joining thread. */
  predicate Winding(e: Event) { e.Lock? || e.Take? || e.Exit? || e.Finish? || e.Join? }

  /** After notify_all the shutdown is never stuck before it returns. */
  lemma ShutdownMoves(p: Pool)
    requires Inv(p) && p.notified && p.joined < |p.workers|
    ensures exists e: Event :: Enabled(p, e) && Winding(e)
  {
    var w := p.joined;
    match p.workers[w] {
      case Exited => assert Enabled(p, Join);
      case Running(_) => assert Enabled(p, Finish(w));
      case Holding => assert Enabled(p, if p.jobs != [] then Take(w) else Exit(w));
      case Ready =>
        if p.holder.None? {
          assert Enabled(p, Lock(w));
        } else {
          var h := p.holder.value;
          assert p.workers[h].Holding?;
          assert Enabled(p, if p.jobs != [] then Take(h) else Exit(h));
        }
      case Sleeping =>
        assert false;
    }
  }

  /** What is left to do; every winding step lowers it. */
  function Work(p: Pool): int
  {
    4 * |p.jobs| + Total(p.workers, Weight) + (|p.workers| - p.joined)
  }

  lemma WorkDecreases(p: Pool, e: Event)
    requires Enabled(p, e) && Winding(e)
    ensures Work(Apply(p, e)) < Work(p)
  {
    match e {
      case Lock(w) => TotalUpdate(p.workers, Weight, w, Holding);
      case Take(w) => TotalUpdate(p.workers, Weight, w, Running(p.jobs[0]));
      case Exit(w) => TotalUpdate(p.workers, Weight, w, Exited);
      case Finish(w) => TotalUpdate(p.workers, Weight, w, Ready);
      case Join =>
    }
  }

  /** After notify_all, when nothing more is enqueued, the shutdown takes a bounded number of
      steps: with `ShutdownMoves`, it returns. */
  lemma {:induction false} ShutdownIsBounded(p: Pool, run: seq<Event>)
    requires Inv(p) && p.notified && Possible(p, run) && forall e | e in run :: Winding(e)
    ensures |run| <= Work(p)
    decreases |run|
  {
    if run == [] {
    } else {
      assert run[0] in run && forall e | e in run[1..] :: e in run;
      hide Inv, Total;
      StepKeepsInv(p, run[0]);
      WorkDecreases(p, run[0]);
      ShutdownIsBounded(Apply(p, run[0]), run[1..]);
    }
  }
}

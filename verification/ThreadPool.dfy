/**
  The thread pool as a system of atomic steps.  A step is one critical section under the pool's mutex, a
  notification, or the start or end of a job; every interleaving of the threads' steps is a run.
*/
module ThreadPool {

  // A worker is about to evaluate the wait predicate, asleep on the condition variable, running a job, or gone.
  datatype Worker = Awake | Asleep | Running(job: nat) | Exited

  // What shutdown() has done so far: nothing, set the flag, or also notified every worker.
  datatype Shutdown = Open | Flagged | Announced

  // A job is named by the order in which it was accepted.  `jobs` is the queue, `taken` the jobs in the
  // order in which workers took them, `announcements` the pushes not followed by their notify_one yet.
  datatype Pool = Pool(
    workers: seq<Worker>,
    jobs: seq<nat>,
    maxQueued: nat,
    shutdown: Shutdown,
    announcements: nat,
    accepted: nat,
    taken: seq<nat>,
    finished: set<nat>)

  datatype Step =
    | Enqueue            // critical section of enqueue(): push, or refuse when the queue is full
    | NotifyOne(w: nat)  // cond_.notify_one() wakes w, or nobody if nobody sleeps
    | SetShutdown        // critical section of shutdown()
    | NotifyAll          // cond_.notify_all()
    | Wait(w: nat)       // a worker's critical section: sleep, exit, or take the front job
    | Finish(w: nat)     // a worker's job returns
    | Spurious(w: nat)   // a spurious wakeup

  predicate IsFull(p: Pool) {
    p.maxQueued > 0 && |p.jobs| >= p.maxQueued
  }

  predicate Sleeps(p: Pool, w: nat) {
    w < |p.workers| && p.workers[w] == Asleep
  }

  predicate Enabled(p: Pool, step: Step) {
    match step
    case Enqueue => true
    case NotifyOne(w) =>
      p.announcements > 0 && (Sleeps(p, w) || forall v: nat | v < |p.workers| :: p.workers[v] != Asleep)
    case SetShutdown => p.shutdown == Open
    case NotifyAll => p.shutdown == Flagged
    case Wait(w) => w < |p.workers| && p.workers[w] == Awake
    case Finish(w) => w < |p.workers| && p.workers[w].Running?
    case Spurious(w) => Sleeps(p, w)
  }

  function Woken(workers: seq<Worker>): (r: seq<Worker>)
    ensures |r| == |workers|
    ensures forall w :: 0 <= w < |workers| ==> r[w] == if workers[w] == Asleep then Awake else workers[w]
  {
    seq(|workers|, w requires 0 <= w < |workers| => if workers[w] == Asleep then Awake else workers[w])
  }

  function After(p: Pool, step: Step): Pool
    requires Enabled(p, step)
  {
    match step
    case Enqueue =>
      if IsFull(p) then p
      else p.(jobs := p.jobs + [p.accepted], accepted := p.accepted + 1, announcements := p.announcements + 1)
    case NotifyOne(w) =>
      var p' := p.(announcements := p.announcements - 1);
      if Sleeps(p, w) then p'.(workers := p.workers[w := Awake]) else p'
    case SetShutdown => p.(shutdown := Flagged)
    case NotifyAll => p.(shutdown := Announced, workers := Woken(p.workers))
    case Wait(w) =>
      if p.jobs == [] then p.(workers := p.workers[w := if p.shutdown == Open then Asleep else Exited])
      else p.(workers := p.workers[w := Running(p.jobs[0])], jobs := p.jobs[1..], taken := p.taken + [p.jobs[0]])
    case Finish(w) => p.(workers := p.workers[w := Awake], finished := p.finished + {p.workers[w].job})
    case Spurious(w) => p.(workers := p.workers[w := Awake])
  }

  function Start(n: nat, maxQueued: nat): Pool {
    Pool(seq(n, _ => Awake), [], maxQueued, Open, 0, 0, [], {})
  }

  ghost predicate IsRun(p: Pool, steps: seq<Step>)
    decreases |steps|
  {
    steps == [] || (Enabled(p, steps[0]) && IsRun(After(p, steps[0]), steps[1..]))
  }

  ghost function RunTo(p: Pool, steps: seq<Step>): Pool
    requires IsRun(p, steps)
    decreases |steps|
  {
    if steps == [] then p else RunTo(After(p, steps[0]), steps[1..])
  }

  // No push is accepted once the shutdown flag is set.
  ghost predicate NoLatePush(p: Pool, steps: seq<Step>)
    requires IsRun(p, steps)
    decreases |steps|
  {
    steps == [] ||
    (&& (steps[0] == Enqueue ==> p.shutdown == Open || IsFull(p))
     && NoLatePush(After(p, steps[0]), steps[1..]))
  }

  function Upto(n: nat): seq<nat> {
    seq(n, i => i)
  }

  // ---- safety ----

  // First in, first out: what was taken, then what is queued, is what was accepted, in order.
  ghost predicate Fifo(p: Pool) {
    p.taken + p.jobs == Upto(p.accepted)
  }

  ghost predicate Bounded(p: Pool) {
    p.maxQueued > 0 ==> |p.jobs| <= p.maxQueued
  }

  // A taken job is being run by exactly one worker or has been run, never both.
  ghost predicate RunsOnce(p: Pool) {
    && (forall w: nat :: w < |p.workers| && p.workers[w].Running? ==>
        p.workers[w].job in p.taken && p.workers[w].job !in p.finished)
    && (forall v: nat, w: nat ::
          v < |p.workers| && w < |p.workers| && p.workers[v].Running? && p.workers[v] == p.workers[w] ==> v == w)
    && (forall j :: j in p.finished ==> j in p.taken)
    && (forall j :: j in p.taken && j !in p.finished ==> BeingRun(p, j))
  }

  ghost predicate BeingRun(p: Pool, j: nat) {
    exists w: nat :: w < |p.workers| && p.workers[w] == Running(j)
  }

  ghost predicate Safe(p: Pool) {
    Fifo(p) && Bounded(p) && RunsOnce(p)
  }

  lemma UptoSnoc(n: nat)
    ensures Upto(n + 1) == Upto(n) + [n]
  {
  }

  // The front of the queue has never been taken.
  lemma FrontIsNew(p: Pool)
    requires Fifo(p) && p.jobs != []
    ensures p.jobs[0] == |p.taken| && forall j :: j in p.taken ==> j < |p.taken|
  {
    var all := p.taken + p.jobs;
    assert all[|p.taken|] == p.jobs[0];
    forall i | 0 <= i < |p.taken| ensures p.taken[i] == i { assert all[i] == p.taken[i]; }
  }

  // A worker's step ends at most its own job.
  lemma StillBeingRun(p: Pool, step: Step, j: nat)
    requires Enabled(p, step) && BeingRun(p, j)
    requires !(step.Finish? && p.workers[step.w] == Running(j))
    ensures BeingRun(After(p, step), j)
  {
    var w: nat :| w < |p.workers| && p.workers[w] == Running(j);
    assert After(p, step).workers[w] == Running(j);
  }

  lemma SafeStep(p: Pool, step: Step)
    requires Safe(p) && Enabled(p, step)
    ensures Safe(After(p, step))
  {
    match step {
      case Enqueue =>
        if !IsFull(p) {
          UptoSnoc(p.accepted);
          assert p.taken + (p.jobs + [p.accepted]) == p.taken + p.jobs + [p.accepted];
        }
      case Wait(w) =>
        if p.jobs != [] {
          FrontIsNew(p);
          assert p.taken + [p.jobs[0]] + p.jobs[1..] == p.taken + p.jobs;
        }
      case _ =>
    }
    var p' := After(p, step);
    forall j | j in p'.taken && j !in p'.finished ensures BeingRun(p', j) {
      if j in p.taken {
        StillBeingRun(p, step, j);
      } else {
        assert p'.workers[step.w] == Running(j);
      }
    }
  }

  // ---- no lost wakeup ----

  ghost predicate SomeoneUp(p: Pool) {
    exists w: nat :: w < |p.workers| && p.workers[w] != Asleep && p.workers[w] != Exited
  }

  // As long as a job waits, a notification is pending or a worker is up who will look at the queue.
  ghost predicate NoLostWakeup(p: Pool) {
    p.jobs != [] ==> p.announcements > 0 || SomeoneUp(p)
  }

  // Workers leave only after shutdown and with nothing left to do; nobody sleeps once it is announced.
  ghost predicate OrderlyExit(p: Pool) {
    && (forall w: nat :: w < |p.workers| && p.workers[w] == Exited ==> p.shutdown != Open && p.jobs == [])
    && (p.shutdown == Announced ==> forall w: nat :: w < |p.workers| ==> p.workers[w] != Asleep)
  }

  ghost predicate Live(p: Pool) {
    |p.workers| > 0 && NoLostWakeup(p) && OrderlyExit(p)
  }

  lemma LiveStep(p: Pool, step: Step)
    requires Live(p) && Enabled(p, step)
    requires step == Enqueue ==> p.shutdown == Open || IsFull(p)
    ensures Live(After(p, step))
  {
    var p' := After(p, step);
    if p'.jobs != [] {
      match step {
        case NotifyOne(w) =>
          var v := if Sleeps(p, w) then w else 0;
          assert p'.workers[v] != Asleep && p'.workers[v] != Exited;
        case Wait(w) => assert p'.workers[w].Running?;
        case Finish(w) => assert p'.workers[w] == Awake;
        case Spurious(w) => assert p'.workers[w] == Awake;
        case NotifyAll =>
          if p.announcements == 0 {
            var w: nat :| w < |p.workers| && p.workers[w] != Asleep && p.workers[w] != Exited;
            assert p'.workers[w] == p.workers[w];
          }
        case _ =>
      }
    }
  }

  lemma {:induction false} SafeRun(p: Pool, steps: seq<Step>)
    requires Safe(p) && IsRun(p, steps)
    ensures Safe(RunTo(p, steps))
    decreases |steps|
  {
    if steps != [] {
      SafeStep(p, steps[0]);
      SafeRun(After(p, steps[0]), steps[1..]);
    }
  }

  lemma {:induction false} LiveRun(p: Pool, steps: seq<Step>)
    requires Live(p) && IsRun(p, steps) && NoLatePush(p, steps)
    ensures Live(RunTo(p, steps))
    decreases |steps|
  {
    if steps != [] {
      LiveStep(p, steps[0]);
      LiveRun(After(p, steps[0]), steps[1..]);
    }
  }

  // Over every interleaving: jobs are taken in the order they were accepted, each at most once and by one
  // worker, and the queue keeps to its limit.
  lemma JobsRunOnceInOrder(n: nat, maxQueued: nat, steps: seq<Step>)
    requires IsRun(Start(n, maxQueued), steps)
    ensures Safe(RunTo(Start(n, maxQueued), steps))
  {
    assert Start(n, maxQueued).taken + Start(n, maxQueued).jobs == Upto(0);
    SafeRun(Start(n, maxQueued), steps);
  }

  ghost predicate AllGone(p: Pool) {
    forall w: nat :: w < |p.workers| ==> p.workers[w] == Exited
  }

  // With a worker and no push accepted after shutdown: no wakeup is lost, and once every worker is gone
  // nothing is left in the queue.
  lemma WakeupsAreNotLost(n: nat, maxQueued: nat, steps: seq<Step>)
    requires n > 0 && IsRun(Start(n, maxQueued), steps) && NoLatePush(Start(n, maxQueued), steps)
    ensures var p := RunTo(Start(n, maxQueued), steps);
      |p.workers| == n && NoLostWakeup(p) && (AllGone(p) ==> p.jobs == [])
  {
    var p := Start(n, maxQueued);
    LiveRun(p, steps);
    WorkersStay(p, steps);
    var p' := RunTo(p, steps);
    if AllGone(p') { assert p'.workers[0] == Exited; }
  }

  lemma {:induction false} WorkersStay(p: Pool, steps: seq<Step>)
    requires IsRun(p, steps)
    ensures |RunTo(p, steps).workers| == |p.workers|
    decreases |steps|
  {
    if steps != [] { WorkersStay(After(p, steps[0]), steps[1..]); }
  }

  // enqueue() itself does not look at the shutdown flag.  When the last worker leaves, the queue is
  // empty; from then on it is empty exactly until the next push is accepted, and what is pushed stays.
  lemma LastExitLeavesNothing(p: Pool, step: Step)
    requires Enabled(p, step) && !AllGone(p) && AllGone(After(p, step))
    ensures After(p, step).jobs == []
  {
    var w: nat :| w < |p.workers| && p.workers[w] != Exited;
    assert After(p, step).workers[w] == Exited;
  }

  lemma {:induction false} AbandonedIffPushedLate(p: Pool, steps: seq<Step>)
    requires Safe(p) && AllGone(p) && IsRun(p, steps)
    ensures var p' := RunTo(p, steps);
      && AllGone(p') && p'.taken == p.taken
      && (p.jobs == [] ==> (p'.jobs == [] <==> p'.accepted == p.accepted))
      && |p'.jobs| - |p.jobs| == p'.accepted - p.accepted >= 0
    decreases |steps|
  {
    if steps != [] {
      SafeStep(p, steps[0]);
      AbandonedIffPushedLate(After(p, steps[0]), steps[1..]);
    }
  }

  lemma LatePushIsAbandoned()
    ensures var p, steps := Start(1, 0), [SetShutdown, Wait(0), Enqueue];
      IsRun(p, steps) && AllGone(RunTo(p, steps)) && RunTo(p, steps).jobs == [0]
  {
    var p0, s0 := Start(1, 0), [SetShutdown, Wait(0), Enqueue];
    var s1, s2 := [Wait(0), Enqueue], [Enqueue];
    assert s0[1..] == s1 && s1[1..] == s2 && s2[1..] == [];
    var p1 := After(p0, SetShutdown);
    var p2 := After(p1, Wait(0));
    var p3 := After(p2, Enqueue);
    assert p2.workers == [Exited] && p3.jobs == [0];
    assert IsRun(p3, s2[1..]) && RunTo(p3, s2[1..]) == p3;
    assert IsRun(p2, s2) && RunTo(p2, s2) == p3;
    assert IsRun(p1, s1) && RunTo(p1, s1) == p3;
  }

  // ---- shutdown drains the queue ----

  predicate IsWorkerStep(step: Step) {
    step.Wait? || step.Finish?
  }

  function Effort(w: Worker): nat {
    match w
    case Awake => 1
    case Running(_) => 2
    case Asleep => 0
    case Exited => 0
  }

  function Efforts(workers: seq<Worker>): nat {
    if workers == [] then 0 else Effort(workers[0]) + Efforts(workers[1..])
  }

  // What is left to do: taking and running each queued job, ending each running one, and leaving.
  function Work(p: Pool): nat {
    3 * |p.jobs| + Efforts(p.workers)
  }

  lemma {:induction false} EffortsUpdate(workers: seq<Worker>, w: nat, x: Worker)
    requires w < |workers|
    ensures Efforts(workers[w := x]) == Efforts(workers) - Effort(workers[w]) + Effort(x)
    decreases |workers|
  {
    if w == 0 {
      assert workers[w := x][1..] == workers[1..];
    } else {
      assert workers[w := x][1..] == workers[1..][w - 1 := x];
      EffortsUpdate(workers[1..], w - 1, x);
    }
  }

  lemma WorkFalls(p: Pool, step: Step)
    requires Enabled(p, step) && IsWorkerStep(step) && p.shutdown == Announced
    ensures Work(After(p, step)) < Work(p)
  {
    EffortsUpdate(p.workers, step.w, After(p, step).workers[step.w]);
  }

  lemma {:induction false} WorkBoundsRun(p: Pool, steps: seq<Step>)
    requires IsRun(p, steps) && p.shutdown == Announced && forall i :: 0 <= i < |steps| ==> IsWorkerStep(steps[i])
    ensures |steps| <= Work(p) && RunTo(p, steps).shutdown == Announced
    ensures RunTo(p, steps).accepted == p.accepted && NoLatePush(p, steps)
    decreases |steps|
  {
    if steps != [] {
      WorkFalls(p, steps[0]);
      WorkBoundsRun(After(p, steps[0]), steps[1..]);
    }
  }

  // Once shutdown is announced the workers, left to themselves, stop after finitely many steps whatever
  // their schedule, and when they can take no further step all have left and every accepted job has run.
  lemma ShutdownDrains(p: Pool, steps: seq<Step>)
    requires Safe(p) && Live(p) && p.shutdown == Announced && IsRun(p, steps)
    requires forall i :: 0 <= i < |steps| ==> IsWorkerStep(steps[i])
    ensures |steps| <= Work(p)
    ensures var p' := RunTo(p, steps);
      (forall step :: IsWorkerStep(step) ==> !Enabled(p', step)) ==>
        AllGone(p') && p'.jobs == [] && p'.taken == Upto(p.accepted) &&
        forall j: nat :: j < p.accepted ==> j in p'.finished
  {
    WorkBoundsRun(p, steps);
    SafeRun(p, steps);
    LiveRun(p, steps);
    WorkersStay(p, steps);
    var p' := RunTo(p, steps);
    if forall step :: IsWorkerStep(step) ==> !Enabled(p', step) {
      forall w: nat | w < |p'.workers| ensures p'.workers[w] == Exited {
        assert !Enabled(p', Wait(w)) && !Enabled(p', Finish(w));
      }
      assert p'.workers[0] == Exited;
      assert p'.taken + [] == p'.taken;
      forall j: nat | j < p.accepted ensures j in p'.finished {
        assert Upto(p.accepted)[j] == j;
        assert !BeingRun(p', j);
      }
    }
  }

  // ---- what the queue admits ----

  function Pushes(steps: seq<Step>): nat {
    if steps == [] then 0 else (if steps[0] == Enqueue then 1 else 0) + Pushes(steps[1..])
  }

  lemma {:induction false} TakenGrows(p: Pool, steps: seq<Step>)
    requires IsRun(p, steps)
    ensures |RunTo(p, steps).taken| >= |p.taken|
    decreases |steps|
  {
    if steps != [] { TakenGrows(After(p, steps[0]), steps[1..]); }
  }

  // As long as no worker takes a job, exactly the first pushes that there is room for are accepted, and all
  // of them without a limit.
  lemma {:induction false} PushesAreAccepted(p: Pool, steps: seq<Step>)
    requires IsRun(p, steps) && Bounded(p) && |RunTo(p, steps).taken| == |p.taken|
    ensures RunTo(p, steps).accepted
         == p.accepted + if p.maxQueued == 0 || Pushes(steps) <= p.maxQueued - |p.jobs| then Pushes(steps)
                         else p.maxQueued - |p.jobs|
    decreases |steps|
  {
    if steps != [] {
      TakenGrows(After(p, steps[0]), steps[1..]);
      PushesAreAccepted(After(p, steps[0]), steps[1..]);
    }
  }

  lemma NewPoolAccepts(n: nat, limit: nat, steps: seq<Step>)
    requires IsRun(Start(n, limit), steps) && RunTo(Start(n, limit), steps).taken == []
    ensures RunTo(Start(n, limit), steps).accepted
         == if limit == 0 || Pushes(steps) <= limit then Pushes(steps) else limit
  {
    PushesAreAccepted(Start(n, limit), steps);
  }

  // The pool's critical sections as they stand in enqueue(), shutdown() and the worker's loop.  Each
  // is one step of the system above.
  class PoolObject {
    const max_queued_requests_: nat
    var jobs_: seq<nat>
    var shutdown_: bool
    // Threads and notifications, which the source leaves to the condition variable.
    var announced: bool
    var workers: seq<Worker>
    var announcements: nat
    var accepted: nat
    var taken: seq<nat>
    var finished: set<nat>

    ghost predicate Valid()
      reads this
    {
      announced ==> shutdown_
    }

    ghost function View(): Pool
      reads this
    {
      Pool(workers, jobs_, max_queued_requests_, if announced then Announced else if shutdown_ then Flagged else Open,
           announcements, accepted, taken, finished)
    }

    constructor (n: nat, mqr: nat)
      ensures Valid() && View() == Start(n, mqr)
    {
      max_queued_requests_ := mqr;
      jobs_, shutdown_, announced := [], false, false;
      workers := seq(n, _ => Awake);
      announcements, accepted, taken, finished := 0, 0, [], {};
    }

    method Enqueue() returns (queued: bool)
      requires Valid()
      modifies this
      ensures Valid() && View() == After(old(View()), Step.Enqueue)
      ensures queued <==> max_queued_requests_ == 0 || |old(jobs_)| < max_queued_requests_
      ensures jobs_ == (if queued then old(jobs_) + [old(accepted)] else old(jobs_))
      ensures accepted == (if queued then old(accepted) + 1 else old(accepted))
    {
      if max_queued_requests_ > 0 && |jobs_| >= max_queued_requests_ {
        return false;
      }
      jobs_ := jobs_ + [accepted];
      accepted := accepted + 1;
      announcements := announcements + 1;
      return true;
    }

    method ShutdownSection()
      requires Valid() && !shutdown_
      modifies this
      ensures Valid() && View() == After(old(View()), SetShutdown)
    {
      shutdown_ := true;
    }

    // cond_.wait with its predicate, the exit test, and taking the front job.
    method WorkerSection(w: nat)
      requires Valid() && w < |workers| && workers[w] == Awake
      modifies this
      ensures Valid() && View() == After(old(View()), Wait(w))
      ensures workers[w] ==
        (if old(jobs_) != [] then Running(old(jobs_)[0]) else if shutdown_ then Exited else Asleep)
      ensures old(jobs_) == (if workers[w].Running? then [workers[w].job] + jobs_ else jobs_)
    {
      if !(jobs_ != [] || shutdown_) {
        workers := workers[w := Asleep];
        return;
      }
      if shutdown_ && jobs_ == [] {
        workers := workers[w := Exited];
        return;
      }
      var fn := jobs_[0];
      jobs_ := jobs_[1..];
      taken := taken + [fn];
      workers := workers[w := Running(fn)];
    }
  }
}

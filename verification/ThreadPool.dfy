/** The thread pool as a protocol (src/base/support/thread_pool.cpp, thread_pool.hpp). Each critical
    section under the mutex is one atomic step, and so is each notification; between steps any other
    thread may act. Tasks are numbered in the order in which they are submitted. */
module ThreadPool {

  datatype Worker =
    | AtLock            // about to take the mutex and test the wait condition
    | Waiting           // blocked on the condition variable
    | Running(task: nat)
    | Exited

  datatype Shutdown = NotCalled | FlagSet | Notified | Joined

  datatype State = State(
    workers: seq<Worker>,
    tasks: seq<nat>,            // the shared queue
    stopped: bool,
    pendingNotifies: nat,       // submits that have pushed but not yet notified
    shutdown: Shutdown,         // where the call that set the flag is
    submitted: nat,             // history: how many tasks were ever submitted
    dequeued: seq<nat>,         // history: the tasks taken, in order
    finished: set<nat>,         // history: the tasks run to the end
    stopMark: nat)              // history: how many were submitted when the flag was set

  datatype Step =
    | Submit
    | NotifyOne(woken: int)     // -1 when nobody waits
    | SpuriousWakeup(w: nat)
    | Wait(w: nat)
    | Take(w: nat)
    | Finish(w: nat)
    | Exit(w: nat)
    | SetStopped
    | NotifyAll
    | Join

  /** A pool of zero requested threads gets as many as the hardware has, and at least one. */
  function ThreadCount(requested: nat, hardware: nat): nat {
    if requested == 0 then (if hardware < 1 then 1 else hardware) else requested
  }

  function Start(requested: nat, hardware: nat): State {
    State(seq(ThreadCount(requested, hardware), _ => AtLock), [], false, 0, NotCalled, 0, [], {}, 0)
  }

  predicate IsAt(s: State, w: nat, pc: Worker) {
    w < |s.workers| && s.workers[w] == pc
  }

  function WaitCondition(s: State): bool {
    s.stopped || s.tasks != []
  }

  predicate Enabled(s: State, step: Step) {
    match step
    case Submit => true
    case NotifyOne(w) =>
      && s.pendingNotifies > 0
      && if w >= 0 then IsAt(s, w, Waiting) else w == -1 && Waiting !in s.workers
    case SpuriousWakeup(w) => IsAt(s, w, Waiting)
    case Wait(w) => IsAt(s, w, AtLock) && !WaitCondition(s)
    case Take(w) => IsAt(s, w, AtLock) && WaitCondition(s) && s.tasks != []
    case Finish(w) => w < |s.workers| && s.workers[w].Running?
    case Exit(w) => IsAt(s, w, AtLock) && WaitCondition(s) && s.tasks == []
    case SetStopped => !s.stopped
    case NotifyAll => s.shutdown == FlagSet
    case Join => s.shutdown == Notified && forall i :: 0 <= i < |s.workers| ==> s.workers[i].Exited?
  }

  function Wake(workers: seq<Worker>): (r: seq<Worker>)
    ensures |r| == |workers|
    ensures forall i :: 0 <= i < |r| ==> r[i] == if workers[i].Waiting? then AtLock else workers[i]
  {
    seq(|workers|, i requires 0 <= i < |workers| => if workers[i].Waiting? then AtLock else workers[i])
  }

  function Apply(s: State, step: Step): State
    requires Enabled(s, step)
  {
    match step
    case Submit =>
      s.(tasks := s.tasks + [s.submitted], submitted := s.submitted + 1, pendingNotifies := s.pendingNotifies + 1)
    case NotifyOne(w) =>
      s.(pendingNotifies := s.pendingNotifies - 1,
         workers := if w >= 0 then s.workers[w := AtLock] else s.workers)
    case SpuriousWakeup(w) => s.(workers := s.workers[w := AtLock])
    case Wait(w) => s.(workers := s.workers[w := Waiting])
    case Take(w) =>
      s.(workers := s.workers[w := Running(s.tasks[0])], tasks := s.tasks[1..], dequeued := s.dequeued + [s.tasks[0]])
    case Finish(w) => s.(workers := s.workers[w := AtLock], finished := s.finished + {s.workers[w].task})
    case Exit(w) => s.(workers := s.workers[w := Exited])
    case SetStopped => s.(stopped := true, shutdown := FlagSet, stopMark := s.submitted)
    case NotifyAll => s.(shutdown := Notified, workers := Wake(s.workers))
    case Join => s.(shutdown := Joined)
  }

  /** A run: the states after each of a sequence of enabled steps. */
  ghost predicate IsRun(start: State, steps: seq<Step>)
    decreases |steps|, 0
  {
    steps == [] || (IsRun(start, steps[..|steps| - 1])
                    && Enabled(After(start, steps[..|steps| - 1]), steps[|steps| - 1]))
  }

  ghost function After(start: State, steps: seq<Step>): State
    requires IsRun(start, steps)
    decreases |steps|, 1
  {
    if steps == [] then start else Apply(After(start, steps[..|steps| - 1]), steps[|steps| - 1])
  }

  /** As many workers as requested, or as the hardware runs, or one. */
  lemma StartsWith(requested: nat, hardware: nat)
    ensures |Start(requested, hardware).workers|
      == if requested > 0 then requested else if hardware > 0 then hardware else 1
    ensures forall w :: 0 <= w < |Start(requested, hardware).workers| ==> Start(requested, hardware).workers[w].AtLock?
  {
  }

  /** When a worker may move: waiting is given up at any time, and what a worker at the lock does depends on the
      flag and the queue alone. */
  lemma WorkersMove(s: State, w: nat)
    requires w < |s.workers|
    ensures Enabled(s, SpuriousWakeup(w)) <==> s.workers[w].Waiting?
    ensures Enabled(s, Wait(w)) <==> s.workers[w].AtLock? && !s.stopped && s.tasks == []
    ensures Enabled(s, Take(w)) <==> s.workers[w].AtLock? && s.tasks != []
    ensures Enabled(s, Exit(w)) <==> s.workers[w].AtLock? && s.stopped && s.tasks == []
    ensures Enabled(s, Finish(w)) <==> s.workers[w].Running?
    ensures Enabled(s, NotifyOne(w)) <==> s.workers[w].Waiting? && s.pendingNotifies > 0
    ensures Enabled(s, NotifyOne(-1)) <==>
      s.pendingNotifies > 0 && forall v :: 0 <= v < |s.workers| ==> !s.workers[v].Waiting?
  {
  }

  /** One worker moves at a step, and the one that a notification wakes is one worker; only the notification of
      the shutdown wakes them all. */
  lemma OneWorkerMoves(s: State, w: nat)
    requires w < |s.workers|
    ensures Enabled(s, SpuriousWakeup(w)) ==> Apply(s, SpuriousWakeup(w)) == s.(workers := s.workers[w := AtLock])
    ensures Enabled(s, Wait(w)) ==> Apply(s, Wait(w)) == s.(workers := s.workers[w := Waiting])
    ensures Enabled(s, Exit(w)) ==> Apply(s, Exit(w)) == s.(workers := s.workers[w := Exited])
    ensures Enabled(s, Take(w)) ==>
      var r := Apply(s, Take(w));
      r.workers == s.workers[w := Running(s.tasks[0])] && [s.tasks[0]] + r.tasks == s.tasks
    ensures Enabled(s, Finish(w)) ==> Apply(s, Finish(w)).workers == s.workers[w := AtLock]
    ensures Enabled(s, NotifyOne(w)) ==> Apply(s, NotifyOne(w)).workers == s.workers[w := AtLock]
    ensures Enabled(s, NotifyOne(-1)) ==> Apply(s, NotifyOne(-1)).workers == s.workers
    ensures Apply(s, Submit).workers == s.workers && Apply(s, Submit).tasks == s.tasks + [s.submitted]
    ensures Enabled(s, SetStopped) ==> Apply(s, SetStopped).workers == s.workers
    ensures Enabled(s, NotifyAll) ==>
      Apply(s, NotifyAll).workers[w] == if s.workers[w].Waiting? then AtLock else s.workers[w]
  {
  }

  // ------------------------------------------------------------- the invariant

  ghost function CountAtLock(workers: seq<Worker>): nat {
    if workers == [] then 0
    else CountAtLock(workers[..|workers| - 1]) + (if workers[|workers| - 1].AtLock? then 1 else 0)
  }

  lemma {:induction false} CountUpdate(workers: seq<Worker>, w: nat, pc: Worker)
    requires w < |workers|
    ensures CountAtLock(workers[w := pc])
      == CountAtLock(workers) - (if workers[w].AtLock? then 1 else 0) + (if pc.AtLock? then 1 else 0)
  {
    var init := workers[..|workers| - 1];
    if w < |workers| - 1 {
      CountUpdate(init, w, pc);
      assert workers[w := pc][..|workers| - 1] == init[w := pc];
    } else {
      assert workers[w := pc][..|workers| - 1] == init;
    }
  }

  /** The tasks taken, then the tasks queued, are all the tasks in the order of their submission. */
  ghost predicate Fifo(s: State) {
    && |s.dequeued| + |s.tasks| == s.submitted
    && (forall i :: 0 <= i < |s.dequeued| ==> s.dequeued[i] == i)
    && (forall i :: 0 <= i < |s.tasks| ==> s.tasks[i] == |s.dequeued| + i)
  }

  /** Every task taken is finished or in the hands of exactly one worker. */
  ghost predicate OneOwner(s: State) {
    && (forall t :: t in s.finished ==> t < |s.dequeued|)
    && (forall w :: 0 <= w < |s.workers| && s.workers[w].Running? ==>
          s.workers[w].task < |s.dequeued| && s.workers[w].task !in s.finished)
    && (forall v, w :: 0 <= v < w < |s.workers| && s.workers[v].Running? ==> s.workers[v] != s.workers[w])
    && (forall t :: 0 <= t < |s.dequeued| ==> t in s.finished || Running(t) in s.workers)
  }

  /** While a worker sleeps, each queued task has a worker on its way to the queue or a
      notification still to come. */
  ghost predicate NoLostWakeup(s: State) {
    Waiting in s.workers ==> |s.tasks| <= CountAtLock(s.workers) + s.pendingNotifies
  }

  ghost predicate Draining(s: State) {
    && (s.stopped <==> s.shutdown != NotCalled)
    && (s.stopped ==> s.stopMark <= s.submitted)
    && (Exited in s.workers ==> s.stopped && |s.dequeued| >= s.stopMark)
    && (s.shutdown == Notified || s.shutdown == Joined ==> Waiting !in s.workers)
    && (s.shutdown == Joined ==> forall w :: 0 <= w < |s.workers| ==> s.workers[w].Exited?)
  }

  ghost predicate Inv(s: State) {
    s.workers != [] && Fifo(s) && OneOwner(s) && NoLostWakeup(s) && Draining(s)
  }

  lemma StartOk(requested: nat, hardware: nat)
    ensures Inv(Start(requested, hardware))
  {
  }

  lemma TakeKeepsOwners(s: State, w: nat)
    requires Fifo(s) && OneOwner(s) && Enabled(s, Take(w))
    ensures OneOwner(Apply(s, Take(w)))
  {
    var r := Apply(s, Take(w));
    assert s.tasks[0] == |s.dequeued|;
    forall t | 0 <= t < |r.dequeued|
      ensures t in r.finished || Running(t) in r.workers
    {
      if t == |s.dequeued| {
        assert r.workers[w] == Running(t);
      } else if t !in s.finished {
        StillRunning(s, r, t, w);
      }
    }
  }

  lemma FinishKeepsOwners(s: State, w: nat)
    requires OneOwner(s) && Enabled(s, Finish(w))
    ensures OneOwner(Apply(s, Finish(w)))
  {
    var r := Apply(s, Finish(w));
    forall t | 0 <= t < |r.dequeued|
      ensures t in r.finished || Running(t) in r.workers
    {
      if t !in r.finished {
        StillRunning(s, r, t, w);
      }
    }
  }

  /** The other steps take and finish nothing and leave running workers alone. */
  lemma OwnersUntouched(s: State, r: State)
    requires OneOwner(s) && |r.workers| == |s.workers| && r.dequeued == s.dequeued && r.finished == s.finished
    requires forall w :: 0 <= w < |s.workers| ==>
      if s.workers[w].Running? then r.workers[w] == s.workers[w] else !r.workers[w].Running?
    ensures OneOwner(r)
  {
    forall t | 0 <= t < |s.dequeued| && t !in s.finished
      ensures Running(t) in r.workers
    {
      var w :| 0 <= w < |s.workers| && s.workers[w] == Running(t);
      assert r.workers[w] == Running(t);
    }
  }

  lemma OneOwnerKept(s: State, step: Step)
    requires Inv(s) && Enabled(s, step)
    ensures OneOwner(Apply(s, step))
  {
    hide OneOwner, NoLostWakeup, Draining;
    match step {
      case Take(w) => TakeKeepsOwners(s, w);
      case Finish(w) => FinishKeepsOwners(s, w);
      case _ => OwnersUntouched(s, Apply(s, step));
    }
  }

  lemma StillRunning(s: State, r: State, t: nat, w: nat)
    requires w < |s.workers| == |r.workers| && Running(t) in s.workers && s.workers[w] != Running(t)
    requires forall v :: 0 <= v < |s.workers| && v != w ==> r.workers[v] == s.workers[v]
    ensures Running(t) in r.workers
  {
    var v :| 0 <= v < |s.workers| && s.workers[v] == Running(t);
    assert r.workers[v] == Running(t);
  }

  lemma NoLostWakeupKept(s: State, step: Step)
    requires Inv(s) && Enabled(s, step)
    ensures NoLostWakeup(Apply(s, step))
  {
    var r := Apply(s, step);
    match step {
      case NotifyOne(w) =>
        if w >= 0 {
          CountUpdate(s.workers, w, AtLock);
          OtherWaiters(s.workers, w, AtLock);
        }
      case SpuriousWakeup(w) =>
        CountUpdate(s.workers, w, AtLock);
        OtherWaiters(s.workers, w, AtLock);
      case Wait(w) => CountUpdate(s.workers, w, Waiting);
      case Take(w) =>
        CountUpdate(s.workers, w, Running(s.tasks[0]));
        OtherWaiters(s.workers, w, Running(s.tasks[0]));
      case Finish(w) =>
        CountUpdate(s.workers, w, AtLock);
        OtherWaiters(s.workers, w, AtLock);
      case Exit(w) =>
        CountUpdate(s.workers, w, Exited);
        OtherWaiters(s.workers, w, Exited);
      case _ =>
    }
  }

  lemma OtherWaiters(workers: seq<Worker>, w: nat, pc: Worker)
    requires w < |workers| && !pc.Waiting?
    ensures Waiting in workers[w := pc] ==> Waiting in workers
  {
    if Waiting in workers[w := pc] {
      var v :| 0 <= v < |workers| && workers[w := pc][v] == Waiting;
      assert workers[v] == Waiting;
    }
  }

  lemma DrainingKept(s: State, step: Step)
    requires Inv(s) && Enabled(s, step)
    ensures Draining(Apply(s, step))
  {
    var r := Apply(s, step);
    if Exited in r.workers && !step.Exit? {
      var v :| 0 <= v < |r.workers| && r.workers[v] == Exited;
      assert s.workers[v] == Exited;
    }
    if Waiting in r.workers && !step.Wait? {
      var v :| 0 <= v < |r.workers| && r.workers[v] == Waiting;
      assert s.workers[v] == Waiting;
    }
  }

  lemma StepOk(s: State, step: Step)
    requires Inv(s) && Enabled(s, step)
    ensures Inv(Apply(s, step))
  {
    OneOwnerKept(s, step);
    NoLostWakeupKept(s, step);
    DrainingKept(s, step);
  }

  /** Main result: the invariant holds in every state of every interleaving. */
  lemma {:induction false} EveryRunOk(start: State, steps: seq<Step>)
    requires Inv(start) && IsRun(start, steps)
    ensures Inv(After(start, steps))
    decreases |steps|
  {
    if steps != [] {
      EveryRunOk(start, steps[..|steps| - 1]);
      StepOk(After(start, steps[..|steps| - 1]), steps[|steps| - 1]);
    }
  }

  // --------------------------------------------------- what follows for every run

  lemma ReachableOk(requested: nat, hardware: nat, steps: seq<Step>)
    requires IsRun(Start(requested, hardware), steps)
    ensures Inv(After(Start(requested, hardware), steps))
  {
    StartOk(requested, hardware);
    EveryRunOk(Start(requested, hardware), steps);
  }

  /** Main result: tasks are taken in the order of submission, and none twice. */
  lemma TakenInOrderAndOnce(requested: nat, hardware: nat, steps: seq<Step>)
    requires IsRun(Start(requested, hardware), steps)
    ensures var s := After(Start(requested, hardware), steps);
      && |s.dequeued| <= s.submitted
      && s.dequeued == seq(|s.dequeued|, i => i)
      && forall v, w :: 0 <= v < w < |s.workers| && s.workers[v].Running? ==> s.workers[v] != s.workers[w]
  {
    ReachableOk(requested, hardware, steps);
  }

  /** Main result: with work queued and no stop, some worker is awake or a notification is coming,
      and as long as a worker sleeps there are enough of those for every queued task. */
  lemma WorkIsNeverForgotten(requested: nat, hardware: nat, steps: seq<Step>)
    requires IsRun(Start(requested, hardware), steps)
    ensures var s := After(Start(requested, hardware), steps);
      !s.stopped && s.tasks != [] ==>
        || s.pendingNotifies > 0
        || exists w :: 0 <= w < |s.workers| && (s.workers[w].AtLock? || s.workers[w].Running?)
    ensures var s := After(Start(requested, hardware), steps);
      Waiting in s.workers ==> |s.tasks| <= CountAtLock(s.workers) + s.pendingNotifies
  {
    ReachableOk(requested, hardware, steps);
    var s := After(Start(requested, hardware), steps);
    if !s.stopped && s.tasks != [] && s.pendingNotifies == 0 {
      if Waiting in s.workers {
        SomeAtLock(s.workers);
      } else {
        assert s.workers[0] in s.workers;
      }
    }
  }

  lemma {:induction false} SomeAtLock(workers: seq<Worker>)
    requires CountAtLock(workers) > 0
    ensures exists w :: 0 <= w < |workers| && workers[w].AtLock?
  {
    if !workers[|workers| - 1].AtLock? {
      SomeAtLock(workers[..|workers| - 1]);
      var w :| 0 <= w < |workers| - 1 && workers[..|workers| - 1][w].AtLock?;
      assert workers[w].AtLock?;
    }
  }

  /** Main result: once the joining shutdown has returned, every task submitted before the flag was
      set has been run to the end. */
  lemma ShutdownRunsEverythingSubmittedBefore(requested: nat, hardware: nat, steps: seq<Step>, t: nat)
    requires IsRun(Start(requested, hardware), steps)
    ensures var s := After(Start(requested, hardware), steps);
      s.shutdown == Joined && t < s.stopMark ==> t in s.finished
  {
    ReachableOk(requested, hardware, steps);
    var s := After(Start(requested, hardware), steps);
    if s.shutdown == Joined {
      assert s.workers[0] == Exited;
      assert Exited in s.workers;
      assert Running(t) !in s.workers;
    }
  }

  /** The mark means what it says: it is the number submitted when the flag was set, and never moves. */
  lemma {:induction false} StopMarkIsFixed(start: State, before: seq<Step>, later: seq<Step>)
    requires IsRun(start, before + [SetStopped] + later) && !start.stopped && Inv(start)
    ensures IsRun(start, before)
    ensures After(start, before + [SetStopped] + later).stopMark == After(start, before).submitted
    ensures After(start, before + [SetStopped] + later).stopped
    decreases |later|
  {
    var steps := before + [SetStopped] + later;
    var init := steps[..|steps| - 1];
    if later == [] {
      assert init == before;
    } else {
      assert init == before + [SetStopped] + later[..|later| - 1];
      StopMarkIsFixed(start, before, later[..|later| - 1]);
    }
  }

  /** How much the workers still have to do. */
  ghost function Remaining(s: State): nat {
    3 * |s.tasks| + WorkerLoad(s.workers)
  }

  ghost function WorkerLoad(workers: seq<Worker>): nat {
    if workers == [] then 0
    else WorkerLoad(workers[..|workers| - 1]) + Load(workers[|workers| - 1])
  }

  ghost function Load(w: Worker): nat {
    match w
    case Running(_) => 2
    case AtLock => 1
    case _ => 0
  }

  lemma {:induction false} LoadUpdate(workers: seq<Worker>, w: nat, pc: Worker)
    requires w < |workers|
    ensures WorkerLoad(workers[w := pc]) == WorkerLoad(workers) - Load(workers[w]) + Load(pc)
  {
    var init := workers[..|workers| - 1];
    if w < |workers| - 1 {
      LoadUpdate(init, w, pc);
      assert workers[w := pc][..|workers| - 1] == init[w := pc];
    } else {
      assert workers[w := pc][..|workers| - 1] == init;
    }
  }

  /** Main result: after the shutdown has notified everyone, no worker is ever stuck, and each
      worker step leaves less to do; so without new submits all workers exit. */
  lemma ShutdownMakesProgress(s: State)
    requires Inv(s) && s.shutdown == Notified
    ensures (forall w :: 0 <= w < |s.workers| ==> s.workers[w].Exited?) ==> Enabled(s, Join)
    ensures forall w :: 0 <= w < |s.workers| && !s.workers[w].Exited? ==>
      exists step :: Enabled(s, step) && (step == Take(w) || step == Finish(w) || step == Exit(w))
    ensures forall step :: Enabled(s, step) && !step.Submit? && !step.NotifyOne? && !step.Join? ==>
      Remaining(Apply(s, step)) < Remaining(s)
    ensures forall w :: Enabled(s, NotifyOne(w)) ==> Remaining(Apply(s, NotifyOne(w))) == Remaining(s)
  {
    forall w | 0 <= w < |s.workers| && !s.workers[w].Exited?
      ensures exists step :: Enabled(s, step) && (step == Take(w) || step == Finish(w) || step == Exit(w))
    {
      assert s.workers[w] in s.workers && s.workers[w] != Waiting;
      assert Enabled(s, Take(w)) || Enabled(s, Finish(w)) || Enabled(s, Exit(w));
    }
    forall step | Enabled(s, step) && !step.Submit? && !step.NotifyOne? && !step.Join?
      ensures Remaining(Apply(s, step)) < Remaining(s)
    {
      WorkerStepDoesWork(s, step);
    }
  }

  lemma WorkerStepDoesWork(s: State, step: Step)
    requires Inv(s) && s.shutdown == Notified && Enabled(s, step)
    requires !step.Submit? && !step.NotifyOne? && !step.Join?
    ensures Remaining(Apply(s, step)) < Remaining(s)
  {
    match step {
      case Take(w) => LoadUpdate(s.workers, w, Running(s.tasks[0]));
      case Finish(w) => LoadUpdate(s.workers, w, AtLock);
      case Exit(w) => LoadUpdate(s.workers, w, Exited);
      case _ =>
    }
  }

  lemma {:induction false} NoLoadMeansIdle(workers: seq<Worker>)
    requires WorkerLoad(workers) == 0
    ensures forall w :: 0 <= w < |workers| ==> workers[w].Waiting? || workers[w].Exited?
  {
    if workers != [] {
      NoLoadMeansIdle(workers[..|workers| - 1]);
    }
  }

  ghost predicate AllExited(s: State) {
    forall w :: 0 <= w < |s.workers| ==> s.workers[w].Exited?
  }

  /** Main result: after the notification the shutdown comes to its end. Without new submits only so
      many steps are left before the join, and once they are made every worker has exited. */
  lemma {:induction false} ShutdownEnds(s: State, steps: seq<Step>)
    requires Inv(s) && s.shutdown == Notified && IsRun(s, steps)
    requires Submit !in steps && Join !in steps
    ensures var r := After(s, steps);
      && Inv(r) && r.shutdown == Notified
      && |steps| + Remaining(r) + r.pendingNotifies <= Remaining(s) + s.pendingNotifies
      && (|steps| == Remaining(s) + s.pendingNotifies ==> AllExited(r))
    decreases |steps|
  {
    if steps != [] {
      var init, last := steps[..|steps| - 1], steps[|steps| - 1];
      assert last in steps && forall x :: x in init ==> x in steps;
      ShutdownEnds(s, init);
      var before := After(s, init);
      StepOk(before, last);
      ShutdownMakesProgress(before);
    }
    var r := After(s, steps);
    if Remaining(r) == 0 {
      NoLoadMeansIdle(r.workers);
      assert forall w :: 0 <= w < |r.workers| ==> r.workers[w] in r.workers;
    }
  }

  // -------------------------------------------------------- which tasks are run at all

  lemma StayGone(s: State, step: Step)
    requires AllExited(s) && Enabled(s, step)
    ensures AllExited(Apply(s, step)) && Apply(s, step).finished == s.finished && s.tasks <= Apply(s, step).tasks
  {
  }

  /** A task submitted after the workers are gone is accepted and never run, whatever happens next. */
  lemma {:induction false} LateTaskIsNeverRun(s: State, steps: seq<Step>)
    requires Inv(s) && AllExited(s) && IsRun(s, [Submit] + steps)
    ensures var r := After(s, [Submit] + steps);
      && s.submitted !in r.finished && s.submitted in r.tasks
      && AllExited(r) && r.finished == s.finished
    decreases |steps|
  {
    hide Inv, AllExited;
    var all := [Submit] + steps;
    var init := all[..|all| - 1];
    if steps == [] {
      assert init == [];
      NextTask(s);
      StayGone(s, Submit);
    } else {
      assert init == [Submit] + steps[..|steps| - 1];
      LateTaskIsNeverRun(s, steps[..|steps| - 1]);
      StayGone(After(s, init), all[|all| - 1]);
    }
  }

  lemma NextTask(s: State)
    requires Inv(s)
    ensures s.submitted !in s.finished && s.submitted in Apply(s, Submit).tasks
  {
    assert Apply(s, Submit).tasks[|s.tasks|] == s.submitted;
  }

  /** As long as a worker is left the task is taken or will be: nobody exits over a queue that holds it. */
  lemma {:induction false} TakenBeforeTheLastExit(s: State, steps: seq<Step>)
    requires Inv(s) && !AllExited(s) && IsRun(s, [Submit] + steps)
    ensures var r := After(s, [Submit] + steps);
      Inv(r) && r.submitted > s.submitted && (!AllExited(r) || |r.dequeued| > s.submitted)
    decreases |steps|
  {
    var all := [Submit] + steps;
    var init := all[..|all| - 1];
    if steps == [] {
      assert init == [];
      assert After(s, all) == Apply(s, Submit);
      StepOk(s, Submit);
    } else {
      assert init == [Submit] + steps[..|steps| - 1];
      TakenBeforeTheLastExit(s, steps[..|steps| - 1]);
      var before, last := After(s, init), all[|all| - 1];
      StepOk(before, last);
      if !AllExited(before) && !last.Exit? {
        StaysAlive(before, last);
      }
    }
  }

  lemma StaysAlive(s: State, step: Step)
    requires Enabled(s, step) && !AllExited(s) && !step.Exit?
    ensures !AllExited(Apply(s, step))
  {
    var w :| 0 <= w < |s.workers| && !s.workers[w].Exited?;
    assert !Apply(s, step).workers[w].Exited?;
  }

  lemma {:induction false} RunSplits(start: State, before: seq<Step>, later: seq<Step>)
    requires IsRun(start, before + later)
    ensures IsRun(start, before) && IsRun(After(start, before), later)
    ensures After(start, before + later) == After(After(start, before), later)
    decreases |later|
  {
    var steps := before + later;
    if later == [] {
      assert steps == before;
    } else {
      assert steps[..|steps| - 1] == before + later[..|later| - 1];
      RunSplits(start, before, later[..|later| - 1]);
    }
  }

  /** Main result: when the joining shutdown has returned, a task has been run to the end exactly when
      some worker had not exited at the time it was submitted, before or after the stop flag. */
  lemma RunExactlyWhenAWorkerWasLeft(requested: nat, hardware: nat, before: seq<Step>, later: seq<Step>)
    requires IsRun(Start(requested, hardware), before + ([Submit] + later))
    requires After(Start(requested, hardware), before + ([Submit] + later)).shutdown == Joined
    ensures IsRun(Start(requested, hardware), before)
    ensures var s := After(Start(requested, hardware), before);
      s.submitted in After(Start(requested, hardware), before + ([Submit] + later)).finished <==> !AllExited(s)
  {
    var start := Start(requested, hardware);
    RunSplits(start, before, [Submit] + later);
    ReachableOk(requested, hardware, before);
    var s, r := After(start, before), After(start, before + ([Submit] + later));
    if AllExited(s) {
      LateTaskIsNeverRun(s, later);
    } else {
      TakenBeforeTheLastExit(s, later);
      assert Running(s.submitted) !in r.workers;
    }
  }
}

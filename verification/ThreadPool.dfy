/**
  The daemon's thread pool (native/src/core/thread.rs) as an interleaving step system.

  Everything between taking the lock and releasing it (or waiting on a condition variable)
  is one step.  A worker is a numbered thread, a submitter is one call of `exec_task`, and the
  number of a submitter is also the name of its task.
 */
module ThreadPool {
  import opened Wrappers
  import opened Sums

  const CORE_POOL_SIZE: int := 3

  /** Where a worker is in `pool_loop`. */
  datatype Phase =
    | Starting                  // at the top of the loop, not holding the lock
    | Sleeping                  // inside task_is_some.wait or wait_timeout
    | Woken                     // notified (or spuriously woken), waiting for the lock
    | TimedOut                  // wait_timeout gave up, waiting for the lock
    | Running(job: Option<nat>) // outside the lock, executing what it took
    | Exited                    // returned from pool_loop

  datatype Worker = Worker(core: bool, phase: Phase)

  /** Where a submitter is in `exec_task_impl`. */
  datatype Submitter =
    | Ready    // about to take the lock (first time, or after a wake-up)
    | Blocked  // inside task_is_none.wait
    | Returned

  datatype Pool = Pool(
    idleThreads: int,
    totalThreads: int,
    task: Option<nat>,
    workers: seq<Worker>,
    submitters: seq<Submitter>,
    finished: multiset<nat>)

  const EmptyPool := Pool(0, 0, None, [], [], multiset{})

  /** `waker` and `woken` are the choices the scheduler makes for notify_one. */
  datatype Action =
    | Submit                            // a new exec_task call begins
    | Put(k: nat, waker: Option<nat>)   // submitter k takes the lock
    | Enter(w: nat, woken: Option<nat>) // worker w takes the lock at the top of the loop
    | Resume(w: nat, woken: Option<nat>)// worker w takes the lock after a wake-up
    | Expire(w: nat)                    // the 60 second wait of worker w runs out
    | Quit(w: nat)                      // worker w takes the lock after a time-out
    | Finish(w: nat)                    // worker w is done executing
    | SpuriousWorker(w: nat)            // a condition variable may wake anybody, any time
    | SpuriousSubmitter(k: nat)

  // ---- notify_one ----

  predicate IsWorker(s: Pool, w: nat, p: Phase) {
    w < |s.workers| && s.workers[w].phase == p
  }

  predicate IsSubmitter(s: Pool, k: nat, p: Submitter) {
    k < |s.submitters| && s.submitters[k] == p
  }

  /** notify_one reaches one sleeping worker if there is one, and nobody else.
      A worker whose wait already timed out is not reached. */
  predicate MayWakeWorker(s: Pool, n: Option<nat>) {
    match n
    case Some(w) => IsWorker(s, w, Sleeping)
    case None => forall w | 0 <= w < |s.workers| :: s.workers[w].phase != Sleeping
  }

  predicate MayWakeSubmitter(s: Pool, n: Option<nat>) {
    match n
    case Some(k) => IsSubmitter(s, k, Blocked)
    case None => forall k | 0 <= k < |s.submitters| :: s.submitters[k] != Blocked
  }

  function SetPhase(s: Pool, w: nat, p: Phase): Pool
    requires w < |s.workers|
  {
    s.(workers := s.workers[w := s.workers[w].(phase := p)])
  }

  function NotifyWorker(s: Pool, n: Option<nat>): Pool
    requires MayWakeWorker(s, n)
  {
    match n
    case Some(w) => SetPhase(s, w, Woken)
    case None => s
  }

  function NotifySubmitter(s: Pool, n: Option<nat>): Pool
    requires MayWakeSubmitter(s, n)
  {
    match n
    case Some(k) => s.(submitters := s.submitters[k := Ready])
    case None => s
  }

  // ---- the steps ----

  predicate Enabled(s: Pool, a: Action) {
    match a
    case Submit => true
    case Put(k, n) => IsSubmitter(s, k, Ready) && MayWakeWorker(s, n)
    case Enter(w, n) => IsWorker(s, w, Starting) && MayWakeSubmitter(s, n)
    case Resume(w, n) => IsWorker(s, w, Woken) && MayWakeSubmitter(s, n)
    case Expire(w) => IsWorker(s, w, Sleeping) && !s.workers[w].core
    case Quit(w) => IsWorker(s, w, TimedOut)
    case Finish(w) => w < |s.workers| && s.workers[w].phase.Running?
    case SpuriousWorker(w) => IsWorker(s, w, Sleeping)
    case SpuriousSubmitter(k) => IsSubmitter(s, k, Blocked)
  }

  /** The critical section of exec_task_impl. */
  function PutTask(s: Pool, k: nat, n: Option<nat>): Pool
    requires IsSubmitter(s, k, Ready) && MayWakeWorker(s, n)
  {
    if s.task.Some? then
      s.(submitters := s.submitters[k := Blocked])
    else
      var s1 := s.(task := Some(k), submitters := s.submitters[k := Returned]);
      if s.idleThreads == 0 then
        var t := s.totalThreads + 1;
        s1.(totalThreads := t, workers := s.workers + [Worker(t <= CORE_POOL_SIZE, Starting)])
      else
        NotifyWorker(s1, n)
  }

  /** The end of the critical section of pool_loop, with idle_threads already counting w. */
  function TakeTask(s: Pool, w: nat, n: Option<nat>): Pool
    requires w < |s.workers| && MayWakeSubmitter(s, n)
  {
    SetPhase(NotifySubmitter(s, n), w, Running(s.task)).(task := None, idleThreads := s.idleThreads - 1)
  }

  function Apply(s: Pool, a: Action): Pool
    requires Enabled(s, a)
  {
    match a
    case Submit => s.(submitters := s.submitters + [Ready])
    case Put(k, n) => PutTask(s, k, n)
    case Enter(w, n) =>
      var s1 := s.(idleThreads := s.idleThreads + 1);
      if s.task.None? then SetPhase(s1, w, Sleeping) else TakeTask(s1, w, n)
    case Resume(w, n) => TakeTask(s, w, n)
    case Expire(w) => SetPhase(s, w, TimedOut)
    case Quit(w) =>
      SetPhase(s, w, Exited).(idleThreads := s.idleThreads - 1, totalThreads := s.totalThreads - 1)
    case Finish(w) =>
      var job := s.workers[w].phase.job;
      SetPhase(s, w, Starting).(finished := if job.Some? then s.finished + multiset{job.value} else s.finished)
    case SpuriousWorker(w) => SetPhase(s, w, Woken)
    case SpuriousSubmitter(k) => s.(submitters := s.submitters[k := Ready])
  }

  // ---- what every reachable state satisfies ----

  predicate InWait(w: Worker) { w.phase.Sleeping? || w.phase.Woken? || w.phase.TimedOut? }
  predicate Live(w: Worker) { !w.phase.Exited? }
  predicate Attentive(w: Worker) { w.phase.Starting? || w.phase.Woken? || w.phase.Running? }

  function One(b: bool): nat { if b then 1 else 0 }
  function WaitOne(w: Worker): nat { One(InWait(w)) }
  function LiveOne(w: Worker): nat { One(Live(w)) }
  function CoreOne(w: Worker): nat { One(w.core) }
  function Runs(t: nat): Worker -> nat { (w: Worker) => One(w.phase == Running(Some(t))) }

  /** How many places task t is in: its submitter, the slot, the workers, the finished ones. */
  function Places(s: Pool, t: nat): nat
    requires t < |s.submitters|
  {
    One(s.submitters[t] != Returned) + One(s.task == Some(t)) + Sum(s.workers, Runs(t)) + s.finished[t]
  }

  /** idle_threads counts the threads in the wait section, total_threads the live ones, and
      the core threads, which never leave, are the first three of them. */
  ghost predicate CountersAgree(s: Pool) {
    && s.idleThreads == Sum(s.workers, WaitOne)
    && s.totalThreads == Sum(s.workers, LiveOne)
    && Sum(s.workers, CoreOne) == (if s.totalThreads < CORE_POOL_SIZE then s.totalThreads else CORE_POOL_SIZE)
    && (forall w | w in s.workers && w.core :: !w.phase.TimedOut? && !w.phase.Exited?)
  }

  ghost predicate ExactlyOnePlace(s: Pool) {
    forall t | 0 <= t < |s.submitters| :: Places(s, t) == 1
  }

  ghost predicate NoStranger(s: Pool) {
    && (s.task.Some? ==> s.task.value < |s.submitters|)
    && (forall w | w in s.workers && w.phase.Running? && w.phase.job.Some? :: w.phase.job.value < |s.submitters|)
    && (forall t | t in s.finished :: t < |s.submitters|)
  }

  /** A full slot never depends on a sleeping or timed-out thread. */
  ghost predicate SlotIsAttended(s: Pool) {
    s.task.Some? ==> exists w | 0 <= w < |s.workers| :: Attentive(s.workers[w])
  }

  /** An empty slot never leaves every waiting submitter asleep. */
  ghost predicate SubmittersAreAwake(s: Pool) {
    s.task.None? && Blocked in s.submitters ==> Ready in s.submitters
  }

  ghost predicate Inv(s: Pool) {
    && CountersAgree(s)
    && NoStranger(s)
    && ExactlyOnePlace(s)
    && SlotIsAttended(s)
    && SubmittersAreAwake(s)
  }

  // ---- each step keeps each part of the invariant ----

  /** Moving one worker to another phase moves the three counts by that worker alone. */
  lemma PhaseCounts(s: Pool, w: nat, p: Phase)
    requires w < |s.workers|
    ensures var v, v' := s.workers[w], s.workers[w].(phase := p);
            var ws' := SetPhase(s, w, p).workers;
            && Sum(ws', WaitOne) + WaitOne(v) == Sum(s.workers, WaitOne) + WaitOne(v')
            && Sum(ws', LiveOne) + LiveOne(v) == Sum(s.workers, LiveOne) + LiveOne(v')
            && Sum(ws', CoreOne) == Sum(s.workers, CoreOne)
  {
    var v' := s.workers[w].(phase := p);
    SumUpdate(s.workers, w, v', WaitOne);
    SumUpdate(s.workers, w, v', LiveOne);
    SumUpdate(s.workers, w, v', CoreOne);
  }

  /** A thread that times out is not a core thread, so three core threads are alive. */
  lemma ExpiringMeansFull(s: Pool, w: nat)
    requires CountersAgree(s) && w < |s.workers| && !s.workers[w].core && Live(s.workers[w])
    ensures s.totalThreads > 3 && Sum(s.workers, CoreOne) == 3
  {
    var v := s.workers[w].(core := true, phase := Starting);
    SumUpdate(s.workers, w, v, CoreOne);
    SumUpdate(s.workers, w, v, LiveOne);
    var ws := s.workers[w := v];
    forall x | x in ws ensures CoreOne(x) <= LiveOne(x) {
    }
    SumLess(ws, CoreOne, LiveOne);
  }

  /** The counters stay exact when they move with the one worker that changes phase. */
  lemma CountersMove(s: Pool, w: nat, p: Phase, s': Pool)
    requires CountersAgree(s) && w < |s.workers| && s'.workers == SetPhase(s, w, p).workers
    requires s'.idleThreads == s.idleThreads + One(InWait(Worker(true, p))) - WaitOne(s.workers[w])
    requires s'.totalThreads == s.totalThreads + One(!p.Exited?) - LiveOne(s.workers[w])
    requires p.TimedOut? || p.Exited? ==> !s.workers[w].core
    requires !s.workers[w].phase.Exited?
    ensures CountersAgree(s')
  {
    PhaseCounts(s, w, p);
    if p.Exited? {
      ExpiringMeansFull(s, w);
    }
    forall v | v in s'.workers && v.core ensures !v.phase.TimedOut? && !v.phase.Exited? {
      assert v in s.workers || v == s.workers[w].(phase := p);
    }
  }

  lemma CountersPut(s: Pool, k: nat, n: Option<nat>)
    requires CountersAgree(s) && Enabled(s, Put(k, n))
    ensures CountersAgree(PutTask(s, k, n))
  {
    if s.task.None? {
      if s.idleThreads == 0 {
        var v := Worker(s.totalThreads + 1 <= CORE_POOL_SIZE, Starting);
        SumAppend(s.workers, v, WaitOne);
        SumAppend(s.workers, v, LiveOne);
        SumAppend(s.workers, v, CoreOne);
      } else if n.Some? {
        CountersMove(s, n.value, Woken, PutTask(s, k, n));
      }
    }
  }

  lemma CountersStep(s: Pool, a: Action)
    requires CountersAgree(s) && Enabled(s, a)
    ensures CountersAgree(Apply(s, a))
  {
    var s' := Apply(s, a);
    match a
    case Submit =>
    case Put(k, n) => CountersPut(s, k, n);
    case Enter(w, n) => CountersMove(s, w, if s.task.None? then Sleeping else Running(s.task), s');
    case Resume(w, n) => CountersMove(s, w, Running(s.task), s');
    case Expire(w) => CountersMove(s, w, TimedOut, s');
    case Quit(w) => CountersMove(s, w, Exited, s');
    case Finish(w) => CountersMove(s, w, Starting, s');
    case SpuriousWorker(w) => CountersMove(s, w, Woken, s');
    case SpuriousSubmitter(k) =>
  }

  lemma PhaseRuns(s: Pool, w: nat, p: Phase, t: nat)
    requires w < |s.workers|
    ensures Sum(SetPhase(s, w, p).workers, Runs(t)) + One(s.workers[w].phase == Running(Some(t)))
         == Sum(s.workers, Runs(t)) + One(p == Running(Some(t)))
  {
    SumUpdate(s.workers, w, s.workers[w].(phase := p), Runs(t));
  }

  /** A task is in no worker before it is submitted. */
  lemma {:induction false} UnsubmittedRunsNowhere(ws: seq<Worker>, t: nat)
    requires forall w | w in ws && w.phase.Running? && w.phase.job.Some? :: w.phase.job.value < t
    ensures Sum(ws, Runs(t)) == 0
  {
    if ws != [] {
      UnsubmittedRunsNowhere(ws[1..], t);
    }
  }

  lemma PlacesPut(s: Pool, k: nat, n: Option<nat>, t: nat)
    requires ExactlyOnePlace(s) && Enabled(s, Put(k, n)) && t < |s.submitters|
    ensures Places(PutTask(s, k, n), t) == 1
  {
    assert Places(s, t) == 1;
    if s.task.None? {
      if s.idleThreads == 0 {
        SumAppend(s.workers, Worker(s.totalThreads + 1 <= CORE_POOL_SIZE, Starting), Runs(t));
      } else if n.Some? {
        PhaseRuns(s, n.value, Woken, t);
      }
    }
  }

  lemma PlacesTake(s: Pool, w: nat, n: Option<nat>, t: nat)
    requires w < |s.workers| && MayWakeSubmitter(s, n) && t < |s.submitters|
    requires !s.workers[w].phase.Running?
    ensures Places(TakeTask(s, w, n), t) == Places(s, t)
  {
    PhaseRuns(s, w, Running(s.task), t);
  }

  lemma PlacesStep(s: Pool, a: Action, t: nat)
    requires NoStranger(s) && ExactlyOnePlace(s) && Enabled(s, a)
    requires t < |Apply(s, a).submitters|
    ensures Places(Apply(s, a), t) == 1
  {
    hide Sum;
    assert t < |s.submitters| ==> Places(s, t) == 1;
    match a
    case Submit =>
      if t == |s.submitters| {
        UnsubmittedRunsNowhere(s.workers, t);
      }
    case Put(k, n) => PlacesPut(s, k, n, t);
    case Enter(w, n) =>
      if s.task.None? {
        PhaseRuns(s, w, Sleeping, t);
      } else {
        PlacesTake(s.(idleThreads := s.idleThreads + 1), w, n, t);
      }
    case Resume(w, n) => PlacesTake(s, w, n, t);
    case Expire(w) => PhaseRuns(s, w, TimedOut, t);
    case Quit(w) => PhaseRuns(s, w, Exited, t);
    case Finish(w) => PhaseRuns(s, w, Starting, t);
    case SpuriousWorker(w) => PhaseRuns(s, w, Woken, t);
    case SpuriousSubmitter(k) =>
  }

  lemma NoStrangerStep(s: Pool, a: Action)
    requires NoStranger(s) && Enabled(s, a)
    ensures NoStranger(Apply(s, a))
  {
    var s' := Apply(s, a);
    forall w | w in s'.workers && w.phase.Running? && w.phase.job.Some?
      ensures w.phase.job.value < |s'.submitters|
    {
      assert w in s.workers || w.phase.job == s.task;
    }
  }

  /** The interesting case: a notify that reaches nobody, because every idle thread has timed
      out.  Then the three core threads, which cannot time out, are awake. */
  lemma PutIsAttended(s: Pool, k: nat, n: Option<nat>) returns (w: nat)
    requires CountersAgree(s) && Enabled(s, Put(k, n)) && s.task.None?
    ensures w < |PutTask(s, k, n).workers| && Attentive(PutTask(s, k, n).workers[w])
  {
    if s.idleThreads == 0 {
      w := |s.workers|;
    } else if n.Some? {
      w := n.value;
    } else {
      var i := SumWitness(s.workers, WaitOne);
      if s.workers[i].phase.Woken? {
        w := i;
      } else {
        ExpiringMeansFull(s, i);
        w := SumWitness(s.workers, CoreOne);
      }
    }
  }

  lemma SlotStep(s: Pool, a: Action)
    requires CountersAgree(s) && SlotIsAttended(s) && Enabled(s, a)
    ensures SlotIsAttended(Apply(s, a))
  {
    var s' := Apply(s, a);
    if a.Put? && s.task.None? {
      var w := PutIsAttended(s, a.k, a.waker);
    } else if s'.task.Some? {
      var w :| 0 <= w < |s.workers| && Attentive(s.workers[w]);
      assert Attentive(s'.workers[w]);
    }
  }

  lemma AwakeStep(s: Pool, a: Action)
    requires SubmittersAreAwake(s) && Enabled(s, a)
    ensures SubmittersAreAwake(Apply(s, a))
  {
    var s' := Apply(s, a);
    if s'.task.None? && Blocked in s'.submitters {
      var b :| 0 <= b < |s'.submitters| && s'.submitters[b] == Blocked;
      if (a.Enter? || a.Resume?) && s.task.Some? {
        assert s.submitters[b] == Blocked;
        assert s'.submitters[a.woken.value] == Ready;
      } else {
        assert s.submitters[b] == Blocked;
        var r :| 0 <= r < |s.submitters| && s.submitters[r] == Ready;
        assert s'.submitters[r] == Ready;
      }
    }
  }

  lemma InvStep(s: Pool, a: Action)
    requires Inv(s) && Enabled(s, a)
    ensures Inv(Apply(s, a))
  {
    CountersStep(s, a);
    NoStrangerStep(s, a);
    forall t | 0 <= t < |Apply(s, a).submitters| ensures Places(Apply(s, a), t) == 1 {
      PlacesStep(s, a, t);
    }
    SlotStep(s, a);
    AwakeStep(s, a);
  }

  // ---- whole runs ----

  ghost predicate IsRun(s: Pool, run: seq<Action>)
    decreases |run|
  {
    run == [] || (Enabled(s, run[0]) && IsRun(Apply(s, run[0]), run[1..]))
  }

  ghost function After(s: Pool, run: seq<Action>): Pool
    requires IsRun(s, run)
    decreases |run|
  {
    if run == [] then s else After(Apply(s, run[0]), run[1..])
  }

  lemma {:induction false} InvRun(s: Pool, run: seq<Action>)
    requires Inv(s) && IsRun(s, run)
    ensures Inv(After(s, run))
    decreases |run|
  {
    if run != [] {
      InvStep(s, run[0]);
      InvRun(Apply(s, run[0]), run[1..]);
    }
  }

  function Submissions(run: seq<Action>): nat {
    if run == [] then 0 else Submissions(run[1..]) + if run[0].Submit? then 1 else 0
  }

  /** A submission adds one task, and nothing else adds one or takes one away. */
  lemma {:induction false} SubmissionsStay(s: Pool, run: seq<Action>)
    requires IsRun(s, run)
    ensures |After(s, run).submitters| == |s.submitters| + Submissions(run)
    decreases |run|
  {
    if run != [] {
      SubmissionsStay(Apply(s, run[0]), run[1..]);
    }
  }

  /** Safety over every interleaving from the empty pool: every task is in exactly one place,
      the counters are exact, a full slot is attended and an empty one has an awake submitter; of the threads,
      up to three wait without a time limit. There are as many tasks as were submitted. */
  lemma {:induction false} PoolIsSafe(run: seq<Action>)
    requires IsRun(EmptyPool, run)
    ensures Inv(After(EmptyPool, run))
    ensures var s := After(EmptyPool, run);
            && |s.submitters| == Submissions(run)
            && Sum(s.workers, CoreOne) == if s.totalThreads < 3 then s.totalThreads else 3
  {
    InvRun(EmptyPool, run);
    SubmissionsStay(EmptyPool, run);
  }

  // ---- progress ----

  /** Steps the pool takes by itself: no new submission, no time-out and no spurious wake-up. */
  predicate IsOwnStep(a: Action) {
    !a.Submit? && !a.Expire? && !a.SpuriousWorker? && !a.SpuriousSubmitter?
  }

  ghost predicate AllFinished(s: Pool) {
    && s.task.None?
    && (forall t | 0 <= t < |s.submitters| :: s.submitters[t] == Returned && s.finished[t] == 1)
  }

  function SubmitterWeight(k: Submitter): nat {
    match k case Ready => 8 case Blocked => 7 case Returned => 0
  }

  function WorkerWeight(w: Worker): nat {
    match w.phase
    case Exited => 0
    case TimedOut => 1
    case Sleeping => 2
    case Starting => 3
    case Running(_) => 4
    case Woken => 6
  }

  /** An upper bound on the steps the pool can still take by itself. */
  function Weight(s: Pool): nat {
    Sum(s.submitters, SubmitterWeight) + Sum(s.workers, WorkerWeight) + (if s.task.Some? then 3 else 0)
  }

  lemma TakeWeight(s: Pool, w: nat, n: Option<nat>)
    requires w < |s.workers| && MayWakeSubmitter(s, n)
    ensures Weight(TakeTask(s, w, n)) + WorkerWeight(s.workers[w]) + (if s.task.Some? then 3 else 0)
         <= Weight(s) + 4 + 1
  {
    SumUpdate(s.workers, w, s.workers[w].(phase := Running(s.task)), WorkerWeight);
    if n.Some? {
      SumUpdate(s.submitters, n.value, Ready, SubmitterWeight);
    }
  }

  lemma PutWeight(s: Pool, k: nat, n: Option<nat>)
    requires Enabled(s, Put(k, n))
    ensures Weight(PutTask(s, k, n)) < Weight(s)
  {
    if s.task.Some? {
      SumUpdate(s.submitters, k, Blocked, SubmitterWeight);
    } else {
      SumUpdate(s.submitters, k, Returned, SubmitterWeight);
      if s.idleThreads == 0 {
        SumAppend(s.workers, Worker(s.totalThreads + 1 <= CORE_POOL_SIZE, Starting), WorkerWeight);
      } else if n.Some? {
        SumUpdate(s.workers, n.value, s.workers[n.value].(phase := Woken), WorkerWeight);
      }
    }
  }

  /** Time-outs lower the weight too. */
  lemma OwnStepsDescend(s: Pool, a: Action)
    requires Enabled(s, a) && (IsOwnStep(a) || a.Expire?)
    ensures Weight(Apply(s, a)) < Weight(s)
  {
    match a
    case Put(k, n) => PutWeight(s, k, n);
    case Enter(w, n) =>
      if s.task.None? {
        SumUpdate(s.workers, w, s.workers[w].(phase := Sleeping), WorkerWeight);
      } else {
        TakeWeight(s.(idleThreads := s.idleThreads + 1), w, n);
      }
    case Resume(w, n) => TakeWeight(s, w, n);
    case Expire(w) => SumUpdate(s.workers, w, s.workers[w].(phase := TimedOut), WorkerWeight);
    case Quit(w) => SumUpdate(s.workers, w, s.workers[w].(phase := Exited), WorkerWeight);
    case Finish(w) => SumUpdate(s.workers, w, s.workers[w].(phase := Starting), WorkerWeight);
  }

  lemma ChooseWorker(s: Pool) returns (n: Option<nat>)
    ensures MayWakeWorker(s, n)
  {
    if w: nat :| w < |s.workers| && s.workers[w].phase == Sleeping {
      n := Some(w);
    } else {
      n := None;
    }
  }

  lemma ChooseSubmitter(s: Pool) returns (n: Option<nat>)
    ensures MayWakeSubmitter(s, n)
  {
    if k: nat :| k < |s.submitters| && s.submitters[k] == Blocked {
      n := Some(k);
    } else {
      n := None;
    }
  }

  lemma AttentiveCanStep(s: Pool, w: nat) returns (a: Action)
    requires w < |s.workers| && Attentive(s.workers[w])
    ensures Enabled(s, a) && IsOwnStep(a)
  {
    var n := ChooseSubmitter(s);
    match s.workers[w].phase
    case Starting => a := Enter(w, n);
    case Woken => a := Resume(w, n);
    case Running(_) => a := Finish(w);
  }

  /** The pool never gets stuck with work left. */
  lemma NoDeadlock(s: Pool) returns (a: Action)
    requires Inv(s) && !AllFinished(s)
    ensures Enabled(s, a) && IsOwnStep(a)
  {
    if s.task.Some? {
      var w :| 0 <= w < |s.workers| && Attentive(s.workers[w]);
      a := AttentiveCanStep(s, w);
    } else {
      var t :| 0 <= t < |s.submitters| && (s.submitters[t] != Returned || s.finished[t] != 1);
      assert Places(s, t) == 1;
      if s.submitters[t] != Returned {
        var k :| 0 <= k < |s.submitters| && s.submitters[k] == Ready;
        var n := ChooseWorker(s);
        a := Put(k, n);
      } else {
        var w := SumWitness(s.workers, Runs(t));
        a := AttentiveCanStep(s, w);
      }
    }
  }

  /** Left to itself the pool finishes everything: a run of its own steps and any time-outs is no longer
      than the weight of the state it starts from, and one that no own step can extend has executed
      every submitted task exactly once -- without help from a time-out or a spurious wake-up. */
  lemma {:induction false} EveryTaskFinishes(s: Pool, run: seq<Action>)
    requires Inv(s) && IsRun(s, run) && (forall a | a in run :: IsOwnStep(a) || a.Expire?)
    ensures |run| <= Weight(s)
    ensures (forall a | IsOwnStep(a) :: !Enabled(After(s, run), a)) ==> AllFinished(After(s, run))
    decreases |run|
  {
    if run == [] {
      if !AllFinished(s) {
        var a := NoDeadlock(s);
      }
    } else {
      InvStep(s, run[0]);
      OwnStepsDescend(s, run[0]);
      EveryTaskFinishes(Apply(s, run[0]), run[1..]);
    }
  }
}

/** The worker pool as a system of concurrent actors: callers of `Add`, the call of `Start`
    that won, the workers, and the call of `Stop` that won. One step is one access to what
    they share: the state word, the channel or a wait-group counter. */
module PoolProtocol {
  import opened Wrappers
  import opened Counting

  /** A task; a nil task does nothing. */
  datatype Job = NilJob | Job(id: nat, fails: bool)

  predicate Fails(job: Job) {
    job.Job? && job.fails
  }

  datatype Status = Init | Started | Stopped

  datatype AddError = ErrStopped | ErrQueueFull

  /** Where a call of `Add` is. `Undoing` has to take its increment back. */
  datatype Adder =
    | Loaded(job: Job)
    | Counted(job: Job)
    | Undoing(err: AddError)
    | Accepted
    | Refused(err: AddError)

  datatype Starter = NotStarted | Spawning(i: nat) | Spawned(i: nat) | StartReturned

  /** A worker runs the job that was accepted as number `k`. */
  datatype Worker = Idle | Busy(k: nat, job: Job) | Exited

  datatype Stopper = NotStopping | Closing | WaitTasks | WaitWorkers | StopReturned

  datatype Pool = Pool(
    workerCount: int,
    capacity: nat,
    // Whether an error callback was set.
    callback: bool,
    status: Status,
    closes: nat,
    queue: seq<Job>,
    wgTasks: int,
    wgWorkers: int,
    adders: map<nat, Adder>,
    starter: Starter,
    workers: map<nat, Worker>,
    stopper: Stopper,
    // Whether `Start` had returned when the winning `Stop` began.
    startedFirst: bool,
    // History: the jobs sent, the jobs taken, the numbers of the jobs that have finished and
    // of those whose error was passed to the callback.
    accepted: seq<Job>,
    taken: seq<Job>,
    finished: set<nat>,
    reported: multiset<nat>)

  function NewPool(workerCount: int, capacity: nat, callback: bool): Pool {
    Pool(workerCount, capacity, callback, Init, 0, [], 0, 0, map[], NotStarted, map[], NotStopping, false,
         [], [], {}, multiset{})
  }

  predicate Closed(p: Pool) {
    p.closes > 0
  }

  // ----- steps -----

  /** `AddSelect(id, w)` is the select of `Add`; in an unbuffered channel it hands the job to
      the idle worker `w`, if there is one waiting. */
  datatype Step =
    | CallAdd(id: nat, job: Job)
    | AddCount(id: nat)
    | AddSelect(id: nat, w: nat)
    | AddUndo(id: nat)
    | CallStart
    | StartNext
    | Take(w: nat)
    | Finish(w: nat)
    | Exit(w: nat)
    | CallStop
    | Close
    | TasksDone
    | WorkersDone

  predicate IsIdle(p: Pool, w: nat) {
    w in p.workers && p.workers[w].Idle?
  }

  /** A step is enabled when its actor is there and would not block. */
  predicate Enabled(p: Pool, step: Step) {
    match step
    case CallAdd(id, _) => id !in p.adders
    case AddCount(id) => id in p.adders && p.adders[id].Loaded?
    case AddSelect(id, _) => id in p.adders && p.adders[id].Counted?
    case AddUndo(id) => id in p.adders && p.adders[id].Undoing?
    case CallStart => p.status == Init
    case StartNext => p.starter.Spawning? || p.starter.Spawned?
    case Take(w) => IsIdle(p, w) && p.queue != []
    case Finish(w) => w in p.workers && p.workers[w].Busy?
    case Exit(w) => IsIdle(p, w) && p.queue == [] && Closed(p)
    case CallStop => p.status == Started
    case Close => p.stopper == Closing
    case TasksDone => p.stopper == WaitTasks && p.wgTasks == 0
    case WorkersDone => p.stopper == WaitWorkers && p.wgWorkers == 0
  }

  function Selected(p: Pool, id: nat, w: nat): Pool
    requires Enabled(p, AddSelect(id, w))
  {
    var job := p.adders[id].job;
    if Closed(p) then
      // Sending on a closed channel panics; the panic is recovered.
      p.(adders := p.adders[id := Undoing(ErrStopped)])
    else if |p.queue| < p.capacity then
      p.(adders := p.adders[id := Accepted], queue := p.queue + [job], accepted := p.accepted + [job])
    else if p.capacity == 0 && IsIdle(p, w) then
      p.(adders := p.adders[id := Accepted], accepted := p.accepted + [job], taken := p.taken + [job],
         workers := p.workers[w := Busy(|p.taken|, job)])
    else
      p.(adders := p.adders[id := Undoing(ErrQueueFull)])
  }

  function StartedNext(p: Pool): Pool
    requires Enabled(p, StartNext)
  {
    match p.starter
    case Spawning(i) =>
      if i < p.workerCount then p.(wgWorkers := p.wgWorkers + 1, starter := Spawned(i))
      else p.(starter := StartReturned)
    case Spawned(i) => p.(workers := p.workers[i := Idle], starter := Spawning(i + 1))
  }

  function Next(p: Pool, step: Step): Pool {
    if !Enabled(p, step) then p
    else
      match step
      case CallAdd(id, job) =>
        p.(adders := p.adders[id := if p.status == Stopped then Refused(ErrStopped) else Loaded(job)])
      case AddCount(id) =>
        p.(wgTasks := p.wgTasks + 1, adders := p.adders[id := Counted(p.adders[id].job)])
      case AddSelect(id, w) => Selected(p, id, w)
      case AddUndo(id) =>
        p.(wgTasks := p.wgTasks - 1, adders := p.adders[id := Refused(p.adders[id].err)])
      case CallStart => p.(status := Started, starter := Spawning(0))
      case StartNext => StartedNext(p)
      case Take(w) =>
        p.(queue := p.queue[1..], taken := p.taken + [p.queue[0]],
           workers := p.workers[w := Busy(|p.taken|, p.queue[0])])
      case Finish(w) =>
        var Busy(k, job) := p.workers[w];
        p.(wgTasks := p.wgTasks - 1, finished := p.finished + {k}, workers := p.workers[w := Idle],
           reported := if Fails(job) && p.callback then p.reported + multiset{k} else p.reported)
      case Exit(w) => p.(wgWorkers := p.wgWorkers - 1, workers := p.workers[w := Exited])
      case CallStop => p.(status := Stopped, stopper := Closing, startedFirst := p.starter.StartReturned?)
      case Close => p.(closes := p.closes + 1, stopper := WaitTasks)
      case TasksDone => p.(stopper := WaitWorkers)
      case WorkersDone => p.(stopper := StopReturned)
  }

  function Run(p: Pool, steps: seq<Step>): Pool {
    if steps == [] then p else Next(Run(p, steps[..|steps| - 1]), steps[|steps| - 1])
  }

  lemma RunSnoc(p: Pool, steps: seq<Step>, step: Step)
    ensures Run(p, steps + [step]) == Next(Run(p, steps), step)
  {
    assert (steps + [step])[..|steps|] == steps;
  }

  // ----- invariant -----

  function InFlight(): Adder -> bool { (a: Adder) => a.Counted? || a.Undoing? }

  function IsAccepted(): Adder -> bool { (a: Adder) => a.Accepted? }

  function IsBusy(): Worker -> bool { (w: Worker) => w.Busy? }

  function IsLive(): Worker -> bool { (w: Worker) => !w.Exited? }

  /** The counters count what they are meant to. */
  ghost predicate CountersOk(p: Pool) {
    && p.wgTasks == |p.queue| + Count(p.workers, IsBusy()) + Count(p.adders, InFlight())
    && p.wgWorkers == Count(p.workers, IsLive()) + Unit(p.starter.Spawned?)
    && |p.accepted| == Count(p.adders, IsAccepted())
  }

  predicate StopOk(p: Pool) {
    && (p.stopper.NotStopping? <==> p.status != Stopped)
    && p.closes == (if p.stopper.NotStopping? || p.stopper.Closing? then 0 else 1)
    && (p.startedFirst ==> p.starter.StartReturned?)
  }

  ghost predicate StartOk(p: Pool) {
    && (p.starter.NotStarted? <==> p.status == Init)
    && (p.starter.NotStarted? ==> p.workers == map[])
    && (p.starter.Spawning? || p.starter.Spawned? ==>
          && (forall w :: w in p.workers <==> 0 <= w < p.starter.i)
          && (p.starter.i <= p.workerCount || p.starter == Spawning(0)))
    && (p.starter.Spawned? ==> p.starter.i < p.workerCount)
    && (p.starter.StartReturned? ==> forall w :: w in p.workers <==> 0 <= w < p.workerCount)
  }

  /** Jobs leave the queue in the order they were accepted; a job taken is being run by one
      worker or has finished, and never both. */
  predicate JobsOk(p: Pool) {
    && p.taken + p.queue == p.accepted
    && (forall w :: w in p.workers && p.workers[w].Busy? ==>
          && p.workers[w].k < |p.taken| && p.workers[w].job == p.taken[p.workers[w].k]
          && p.workers[w].k !in p.finished)
    && (forall v, w :: v in p.workers && w in p.workers && v != w && p.workers[v].Busy? && p.workers[w].Busy?
          ==> p.workers[v].k != p.workers[w].k)
    && (forall k :: k in p.finished ==> k < |p.taken|)
    && (forall k :: 0 <= k < |p.taken| && k !in p.finished ==>
          exists w :: w in p.workers && p.workers[w] == Busy(k, p.taken[k]))
  }

  /** The callback has been called once for each finished job that failed, and for no other. */
  ghost predicate ReportsOk(p: Pool) {
    forall k: nat :: p.reported[k] ==
      if k in p.finished && k < |p.taken| && Fails(p.taken[k]) && p.callback then 1 else 0
  }

  predicate QueueOk(p: Pool) {
    |p.queue| <= p.capacity
  }

  predicate NobodyBusy(p: Pool) {
    forall w :: w in p.workers ==> !p.workers[w].Busy?
  }

  predicate NobodyAlive(p: Pool) {
    forall w :: w in p.workers ==> p.workers[w].Exited?
  }

  /** What the waits of `Stop` have seen stays true, and workers exit only when drained. */
  predicate DrainOk(p: Pool) {
    && (p.stopper.WaitWorkers? || p.stopper.StopReturned? ==> p.queue == [] && NobodyBusy(p))
    && (p.stopper.StopReturned? && p.startedFirst ==> NobodyAlive(p))
    && (forall w :: w in p.workers && p.workers[w].Exited? ==> Closed(p) && p.queue == [])
  }

  ghost predicate Inv(p: Pool) {
    CountersOk(p) && StopOk(p) && StartOk(p) && QueueOk(p) && JobsOk(p) && ReportsOk(p) && DrainOk(p)
  }

  // ----- preservation -----

  lemma AdderCounts(p: Pool, id: nat, a: Adder)
    ensures Count(p.adders[id := a], InFlight()) + Unit(id in p.adders && InFlight()(p.adders[id]))
         == Count(p.adders, InFlight()) + Unit(InFlight()(a))
    ensures Count(p.adders[id := a], IsAccepted()) + Unit(id in p.adders && IsAccepted()(p.adders[id]))
         == Count(p.adders, IsAccepted()) + Unit(IsAccepted()(a))
  {
    CountUpdate(p.adders, id, a, InFlight());
    CountUpdate(p.adders, id, a, IsAccepted());
  }

  lemma WorkerCounts(p: Pool, w: nat, pc: Worker)
    ensures Count(p.workers[w := pc], IsBusy()) + Unit(w in p.workers && IsBusy()(p.workers[w]))
         == Count(p.workers, IsBusy()) + Unit(IsBusy()(pc))
    ensures Count(p.workers[w := pc], IsLive()) + Unit(w in p.workers && IsLive()(p.workers[w]))
         == Count(p.workers, IsLive()) + Unit(IsLive()(pc))
  {
    CountUpdate(p.workers, w, pc, IsBusy());
    CountUpdate(p.workers, w, pc, IsLive());
  }

  /** The steps of the callers of `Add`. */
  lemma CountersKeptByAdders(p: Pool, step: Step)
    requires CountersOk(p) && Enabled(p, step)
    requires step.CallAdd? || step.AddCount? || step.AddSelect? || step.AddUndo?
    ensures CountersOk(Next(p, step))
  {
    hide Count;
    AdderCounts(p, step.id, Next(p, step).adders[step.id]);
    if step.AddSelect? && IsIdle(p, step.w) {
      WorkerCounts(p, step.w, Busy(|p.taken|, p.adders[step.id].job));
    }
  }

  lemma CountersKeptByWorkers(p: Pool, step: Step)
    requires CountersOk(p) && Enabled(p, step)
    requires step.Take? || step.Finish? || step.Exit?
    ensures CountersOk(Next(p, step))
  {
    hide Count;
    WorkerCounts(p, step.w, Next(p, step).workers[step.w]);
  }

  lemma CountersKeptByOthers(p: Pool, step: Step)
    requires CountersOk(p) && StartOk(p) && Enabled(p, step)
    requires step.StartNext? || step.CallStart? || step.CallStop? || step.Close? || step.TasksDone? || step.WorkersDone?
    ensures CountersOk(Next(p, step))
  {
    hide Count;
    if step.StartNext? && p.starter.Spawned? {
      WorkerCounts(p, p.starter.i, Idle);
    }
  }

  lemma JobsKeptByTake(p: Pool, w: nat)
    requires JobsOk(p) && Enabled(p, Take(w))
    ensures JobsOk(Next(p, Take(w)))
  {
    var p' := Next(p, Take(w));
    assert p'.workers[w] == Busy(|p.taken|, p.queue[0]);
    assert p.taken + p.queue == p.taken + [p.queue[0]] + p.queue[1..];
    forall k | 0 <= k < |p'.taken| && k !in p'.finished
      ensures exists v :: v in p'.workers && p'.workers[v] == Busy(k, p'.taken[k])
    {
      if k < |p.taken| {
        var v :| v in p.workers && p.workers[v] == Busy(k, p.taken[k]);
        assert v in p'.workers && p'.workers[v] == Busy(k, p'.taken[k]);
      }
    }
  }

  lemma JobsKeptByFinish(p: Pool, w: nat)
    requires JobsOk(p) && Enabled(p, Finish(w))
    ensures JobsOk(Next(p, Finish(w)))
  {
    var p' := Next(p, Finish(w));
    forall k | 0 <= k < |p'.taken| && k !in p'.finished
      ensures exists v :: v in p'.workers && p'.workers[v] == Busy(k, p'.taken[k])
    {
      var v :| v in p.workers && p.workers[v] == Busy(k, p.taken[k]);
      assert v in p'.workers && p'.workers[v] == Busy(k, p'.taken[k]);
    }
  }

  function Enqueued(p: Pool, job: Job): Pool {
    p.(queue := p.queue + [job], accepted := p.accepted + [job])
  }

  lemma JobsKeptByEnqueue(p: Pool, job: Job)
    requires JobsOk(p)
    ensures JobsOk(Enqueued(p, job))
  {
  }

  /** A job handed to a waiting worker is a job enqueued and taken at once. */
  lemma JobsKeptBySelect(p: Pool, id: nat, w: nat)
    requires JobsOk(p) && QueueOk(p) && Enabled(p, AddSelect(id, w))
    ensures JobsOk(Next(p, AddSelect(id, w)))
  {
    hide JobsOk;
    var p', q := Next(p, AddSelect(id, w)), Enqueued(p, p.adders[id].job);
    JobsKeptByEnqueue(p, p.adders[id].job);
    if p'.taken != p.taken {
      JobsKeptByTake(q, w);
      SameJobsOk(Next(q, Take(w)), p');
    } else if p'.accepted != p.accepted {
      SameJobsOk(q, p');
    } else {
      SameJobsOk(p, p');
    }
  }

  /** Workers that appear idle or disappear change nothing for the jobs. */
  lemma JobsKeptByIdle(p: Pool, w: nat, pc: Worker)
    requires JobsOk(p) && !pc.Busy? && (w in p.workers ==> !p.workers[w].Busy?)
    ensures JobsOk(p.(workers := p.workers[w := pc]))
  {
    var p' := p.(workers := p.workers[w := pc]);
    forall k | 0 <= k < |p.taken| && k !in p.finished
      ensures exists v :: v in p'.workers && p'.workers[v] == Busy(k, p'.taken[k])
    {
      var v :| v in p.workers && p.workers[v] == Busy(k, p.taken[k]);
      assert v in p'.workers && p'.workers[v] == Busy(k, p'.taken[k]);
    }
  }

  predicate SameJobs(p: Pool, p': Pool) {
    && p'.queue == p.queue && p'.workers == p.workers
    && p'.taken == p.taken && p'.accepted == p.accepted && p'.finished == p.finished
  }

  lemma SameJobsOk(p: Pool, p': Pool)
    requires JobsOk(p) && SameJobs(p, p')
    ensures JobsOk(p')
  {
  }

  lemma QueueKept(p: Pool, step: Step)
    requires QueueOk(p) && Enabled(p, step)
    ensures QueueOk(Next(p, step))
  {
  }

  lemma JobsKept(p: Pool, step: Step)
    requires JobsOk(p) && QueueOk(p) && StartOk(p) && Enabled(p, step)
    ensures JobsOk(Next(p, step))
  {
    hide JobsOk;
    match step
    case Take(w) => JobsKeptByTake(p, w);
    case Finish(w) => JobsKeptByFinish(p, w);
    case AddSelect(id, w) => JobsKeptBySelect(p, id, w);
    case Exit(w) =>
      JobsKeptByIdle(p, w, Exited);
      SameJobsOk(p.(workers := p.workers[w := Exited]), Next(p, step));
    case StartNext =>
      if p.starter.Spawned? {
        JobsKeptByIdle(p, p.starter.i, Idle);
        SameJobsOk(p.(workers := p.workers[p.starter.i := Idle]), Next(p, step));
      } else {
        SameJobsOk(p, Next(p, step));
      }
    case _ => SameJobsOk(p, Next(p, step));
  }

  lemma ReportsKept(p: Pool, step: Step)
    requires JobsOk(p) && ReportsOk(p) && Enabled(p, step)
    ensures ReportsOk(Next(p, step))
  {
    if step.Finish? {
      FinishReported(p, step.w);
    } else {
      hide ReportsOk;
      NothingReported(p, step);
      SameReports(p, Next(p, step));
    }
  }

  lemma FinishReported(p: Pool, w: nat)
    requires JobsOk(p) && ReportsOk(p) && Enabled(p, Finish(w))
    ensures ReportsOk(Next(p, Finish(w)))
  {
    var p' := Next(p, Finish(w));
    var done := p.workers[w].k;
    assert p'.taken == p.taken && p'.callback == p.callback && p'.finished == p.finished + {done};
    assert done < |p.taken| && done !in p.finished && p.workers[w].job == p.taken[done];
    hide Next, JobsOk;
  }

  lemma NothingReported(p: Pool, step: Step)
    requires Enabled(p, step) && !step.Finish?
    ensures var p' := Next(p, step);
      p'.reported == p.reported && p'.finished == p.finished && p'.callback == p.callback && p.taken <= p'.taken
  {
  }

  lemma SameReports(p: Pool, p': Pool)
    requires JobsOk(p) && ReportsOk(p)
    requires p'.reported == p.reported && p'.finished == p.finished && p'.callback == p.callback && p.taken <= p'.taken
    ensures ReportsOk(p')
  {
  }

  /** When the task counter is zero, the queue is empty and no worker runs a job. */
  lemma ZeroTasksDrained(p: Pool)
    requires CountersOk(p) && p.wgTasks == 0
    ensures p.queue == [] && NobodyBusy(p) && (forall id :: id in p.adders ==> !InFlight()(p.adders[id]))
  {
    CountZero(p.workers, IsBusy());
    CountZero(p.adders, InFlight());
    forall w | w in p.workers ensures !p.workers[w].Busy? {
      assert !IsBusy()(p.workers[w]);
    }
  }

  lemma ZeroWorkersGone(p: Pool)
    requires CountersOk(p) && p.wgWorkers == 0
    ensures NobodyAlive(p) && !p.starter.Spawned?
  {
    CountZero(p.workers, IsLive());
    forall w | w in p.workers ensures p.workers[w].Exited? {
      assert !IsLive()(p.workers[w]);
    }
  }

  lemma DrainKept(p: Pool, step: Step)
    requires DrainOk(p) && StopOk(p) && StartOk(p) && Enabled(p, step)
    requires step.TasksDone? ==> p.queue == [] && NobodyBusy(p)
    requires step.WorkersDone? ==> NobodyAlive(p)
    ensures DrainOk(Next(p, step))
  {
    if step.Take? || step.Finish? || step.Exit? || step.StartNext? {
      DrainKeptByWorkers(p, step);
    } else {
      DrainKeptByOthers(p, step);
    }
  }

  lemma DrainKeptByWorkers(p: Pool, step: Step)
    requires DrainOk(p) && StopOk(p) && StartOk(p) && Enabled(p, step)
    requires step.Take? || step.Finish? || step.Exit? || step.StartNext?
    ensures DrainOk(Next(p, step))
  {
  }

  lemma DrainKeptByOthers(p: Pool, step: Step)
    requires DrainOk(p) && StopOk(p) && Enabled(p, step)
    requires !step.Take? && !step.Finish? && !step.Exit? && !step.StartNext?
    requires step.TasksDone? ==> p.queue == [] && NobodyBusy(p)
    requires step.WorkersDone? ==> NobodyAlive(p)
    ensures DrainOk(Next(p, step))
  {
  }

  lemma StopKept(p: Pool, step: Step)
    requires StopOk(p) && Enabled(p, step)
    requires p.starter.NotStarted? <==> p.status == Init
    ensures StopOk(Next(p, step))
  {
  }

  lemma StartKept(p: Pool, step: Step)
    requires StartOk(p) && Enabled(p, step)
    ensures StartOk(Next(p, step))
  {
  }

  lemma CountersKept(p: Pool, step: Step)
    requires CountersOk(p) && StartOk(p) && Enabled(p, step)
    ensures CountersOk(Next(p, step))
  {
    hide CountersOk, Next, StartOk;
    if step.CallAdd? || step.AddCount? || step.AddSelect? || step.AddUndo? {
      CountersKeptByAdders(p, step);
    } else if step.Take? || step.Finish? || step.Exit? {
      CountersKeptByWorkers(p, step);
    } else {
      CountersKeptByOthers(p, step);
    }
  }

  predicate SameSettings(p: Pool, p': Pool) {
    p'.workerCount == p.workerCount && p'.capacity == p.capacity && p'.callback == p.callback
  }

  /** The two waits of `Stop` end only on counters that are zero. */
  lemma WaitsSeeZero(p: Pool, step: Step)
    requires CountersOk(p) && Enabled(p, step)
    ensures step.TasksDone? ==> p.queue == [] && NobodyBusy(p)
    ensures step.WorkersDone? ==> NobodyAlive(p)
  {
    if step.TasksDone? {
      ZeroTasksDrained(p);
    } else if step.WorkersDone? {
      ZeroWorkersGone(p);
    }
  }

  lemma SettingsKept(p: Pool, step: Step)
    ensures SameSettings(p, Next(p, step))
  {
  }

  lemma InvKept(p: Pool, step: Step)
    requires Inv(p)
    ensures Inv(Next(p, step)) && SameSettings(p, Next(p, step))
  {
    SettingsKept(p, step);
    if Enabled(p, step) {
      hide Next, Enabled, CountersOk, JobsOk, DrainOk, ReportsOk, QueueOk, SameSettings;
      WaitsSeeZero(p, step);
      CountersKept(p, step);
      QueueKept(p, step);
      JobsKept(p, step);
      ReportsKept(p, step);
      DrainKept(p, step);
      StopKept(p, step);
      StartKept(p, step);
    }
  }

  lemma NewPoolInv(workerCount: int, capacity: nat, callback: bool)
    ensures Inv(NewPool(workerCount, capacity, callback))
  {
    var p := NewPool(workerCount, capacity, callback);
    CountZero(p.workers, IsBusy());
    CountZero(p.workers, IsLive());
    CountZero(p.adders, InFlight());
    CountZero(p.adders, IsAccepted());
  }

  lemma {:induction false} RunInv(workerCount: int, capacity: nat, callback: bool, steps: seq<Step>)
    ensures Inv(Run(NewPool(workerCount, capacity, callback), steps))
    ensures SameSettings(NewPool(workerCount, capacity, callback), Run(NewPool(workerCount, capacity, callback), steps))
  {
    hide Inv, Next;
    if steps == [] {
      NewPoolInv(workerCount, capacity, callback);
    } else {
      RunInv(workerCount, capacity, callback, steps[..|steps| - 1]);
      InvKept(Run(NewPool(workerCount, capacity, callback), steps[..|steps| - 1]), steps[|steps| - 1]);
    }
  }

  // ----- safety -----

  /** Counter accounting in every reachable state. */
  lemma {:induction false} CounterAccounting(workerCount: int, capacity: nat, callback: bool, steps: seq<Step>)
    ensures var p := Run(NewPool(workerCount, capacity, callback), steps);
      && p.wgTasks == |p.queue| + Count(p.workers, IsBusy()) + Count(p.adders, InFlight())
      && p.wgTasks >= 0 && p.wgWorkers >= 0 && p.closes <= 1
      && |p.queue| <= capacity
      && Count(p.workers, IsBusy()) <= (if workerCount > 0 then workerCount else 0)
      && |p.accepted| == Count(p.adders, IsAccepted())
  {
    hide Next, Run;
    RunInv(workerCount, capacity, callback, steps);
    var p := Run(NewPool(workerCount, capacity, callback), steps);
    CountAtMost(p.workers, IsBusy());
    FewKeys(p.workers.Keys, if workerCount > 0 then workerCount else 0);
  }

  /** Every accepted job was taken, in the order of acceptance, and has finished; each failed
      one was reported exactly once; no worker is left if `Start` had returned before `Stop`. */
  ghost predicate AllDone(p: Pool) {
    && p.queue == [] && NobodyBusy(p)
    && p.taken == p.accepted
    && (forall k :: k in p.finished <==> 0 <= k < |p.accepted|)
    && (forall k: nat :: p.reported[k] ==
          if p.callback && k < |p.accepted| && p.accepted[k] != NilJob && p.accepted[k].fails then 1 else 0)
    && (p.startedFirst ==> NobodyAlive(p))
  }

  lemma ReturnedMeansDone(p: Pool)
    requires Inv(p) && p.stopper.StopReturned?
    ensures AllDone(p)
  {
    assert p.taken + [] == p.taken;
    forall k | 0 <= k < |p.accepted| ensures k in p.finished {
      assert forall w :: w in p.workers ==> p.workers[w] != Busy(k, p.taken[k]);
    }
  }

  /** Stop drains: in every reachable state in which the winning `Stop` has returned, all is
      done. */
  lemma {:induction false} StopDrains(workerCount: int, capacity: nat, callback: bool, steps: seq<Step>)
    ensures var p := Run(NewPool(workerCount, capacity, callback), steps);
      p.stopper.StopReturned? ==> AllDone(p)
  {
    hide Next, Run, Inv, AllDone;
    RunInv(workerCount, capacity, callback, steps);
    if Run(NewPool(workerCount, capacity, callback), steps).stopper.StopReturned? {
      ReturnedMeansDone(Run(NewPool(workerCount, capacity, callback), steps));
    }
  }

  /** A job is started once: the numbers being run or finished never come back. */
  lemma {:induction false} TakenOnce(workerCount: int, capacity: nat, callback: bool, steps: seq<Step>, v: nat, w: nat)
    ensures var p := Run(NewPool(workerCount, capacity, callback), steps);
      v in p.workers && w in p.workers && p.workers[v].Busy? && p.workers[w].Busy? ==>
        && p.workers[v].k !in p.finished
        && p.workers[v].k < |p.taken| <= |p.accepted| && p.workers[v].job == p.accepted[p.workers[v].k]
        && (p.workers[v].k == p.workers[w].k ==> v == w)
  {
    RunInv(workerCount, capacity, callback, steps);
  }

  predicate Advances(p: Pool, p': Pool) {
    p.accepted <= p'.accepted && p.taken <= p'.taken && p.finished <= p'.finished
  }

  lemma StepAdvances(p: Pool, step: Step)
    ensures Advances(p, Next(p, step))
  {
  }

  /** What was accepted, taken and finished stays so; together with the invariant, a job that
      has finished is never run again. */
  lemma {:induction false} JobsOnlyAdvance(p: Pool, steps: seq<Step>)
    ensures Advances(p, Run(p, steps))
  {
    hide Next;
    if steps != [] {
      JobsOnlyAdvance(p, steps[..|steps| - 1]);
      StepAdvances(Run(p, steps[..|steps| - 1]), steps[|steps| - 1]);
    }
  }

  /** The open channel has no room, and no idle worker waits on an unbuffered one. */
  predicate Full(p: Pool, w: nat) {
    |p.queue| >= p.capacity && !(p.capacity == 0 && IsIdle(p, w))
  }

  /** What the select of an `Add` comes to: an error, or none when the job is accepted. */
  function Verdict(p: Pool, w: nat): Option<AddError> {
    if Closed(p) then Some(ErrStopped) else if Full(p, w) then Some(ErrQueueFull) else None
  }

  /** The call that sends `job` has been decided that way; an error may still be on its way. */
  predicate DecidedAs(a: Adder, verdict: Option<AddError>) {
    match verdict
    case None => a.Accepted?
    case Some(e) => a == Undoing(e) || a == Refused(e)
  }

  predicate Undecided(a: Adder, job: Job) {
    a == Loaded(job) || a == Counted(job)
  }

  /** Step `i` is the select of this call, its verdict on the channel at that point is what the
      call has come to, and the job is accepted last there, or nothing is accepted at all. */
  ghost predicate DecidedAt(p: Pool, steps: seq<Step>, id: nat, job: Job, i: nat, w: nat)
    requires i < |steps|
  {
    var (before, after) := (Run(p, steps[..i]), Run(p, steps[..i + 1]));
    && steps[i] == AddSelect(id, w)
    && id in Run(p, steps).adders && DecidedAs(Run(p, steps).adders[id], Verdict(before, w))
    && after.accepted == if Verdict(before, w).None? then before.accepted + [job] else before.accepted
  }

  /** The step belongs to the call of `Add` with this id. */
  predicate StepOfAdder(step: Step, id: nat) {
    match step
    case CallAdd(i, _) => i == id
    case AddCount(i) => i == id
    case AddSelect(i, _) => i == id
    case AddUndo(i) => i == id
    case _ => false
  }

  /** No step moves a call of `Add` but its own. */
  lemma AdderStands(p: Pool, step: Step, id: nat)
    requires !StepOfAdder(step, id)
    ensures id in Next(p, step).adders <==> id in p.adders
    ensures id in p.adders ==> Next(p, step).adders[id] == p.adders[id]
  {
  }

  /** A select decides as its verdict says. */
  lemma SelectDecides(p: Pool, id: nat, w: nat)
    requires id in p.adders && p.adders[id].Counted?
    ensures var p' := Next(p, AddSelect(id, w));
      && id in p'.adders && DecidedAs(p'.adders[id], Verdict(p, w))
      && p'.accepted == if Verdict(p, w).None? then p.accepted + [p.adders[id].job] else p.accepted
  {
  }

  /** A decided call keeps its verdict. */
  lemma DecisionStays(p: Pool, step: Step, id: nat, verdict: Option<AddError>)
    requires id in p.adders && DecidedAs(p.adders[id], verdict)
    ensures id in Next(p, step).adders && DecidedAs(Next(p, step).adders[id], verdict)
  {
    if !StepOfAdder(step, id) {
      hide Next;
      AdderStands(p, step, id);
    }
  }

  /** An undecided call that does not take its select stays undecided. */
  lemma UndecidedStays(p: Pool, step: Step, id: nat, job: Job)
    requires id in p.adders && Undecided(p.adders[id], job)
    requires !(step.AddSelect? && step.id == id && p.adders[id].Counted?)
    ensures id in Next(p, step).adders && Undecided(Next(p, step).adders[id], job)
  {
    if !StepOfAdder(step, id) {
      hide Next;
      AdderStands(p, step, id);
    }
  }

  /** Under any interleaving, a call of `Add` that has read the state word is undecided or has
      been decided by the channel as it was at its select: refused as stopped exactly when it
      was closed then, refused as full exactly when it was open and full, accepted otherwise. */
  lemma {:induction false} AddDecidedAtSelect(p: Pool, id: nat, job: Job, steps: seq<Step>)
    requires id in p.adders && Undecided(p.adders[id], job)
    ensures var p' := Run(p, steps);
      && id in p'.adders
      && (Undecided(p'.adders[id], job) || exists i: nat, w: nat :: i < |steps| && DecidedAt(p, steps, id, job, i, w))
  {
    hide Next, Verdict, DecidedAs;
    if steps != [] {
      var n := |steps| - 1;
      var q, step := Run(p, steps[..n]), steps[n];
      AddDecidedAtSelect(p, id, job, steps[..n]);
      assert steps[..n + 1] == steps;
      if Undecided(q.adders[id], job) {
        if step.AddSelect? && step.id == id && q.adders[id].Counted? {
          SelectDecides(q, id, step.w);
          assert DecidedAt(p, steps, id, job, n, step.w);
        } else {
          UndecidedStays(q, step, id, job);
        }
      } else {
        var i: nat, w: nat :| i < n && DecidedAt(p, steps[..n], id, job, i, w);
        assert steps[..n][..i] == steps[..i] && steps[..n][..i + 1] == steps[..i + 1];
        DecisionStays(q, step, id, Verdict(Run(p, steps[..i]), w));
        assert DecidedAt(p, steps, id, job, i, w);
      }
    }
  }

  /** An `Add` racing with the close: once the channel is closed, whatever steps anyone takes, a
      call that has not sent yet stays undecided or comes to the stopped error, and no job is
      accepted. The task counter counts the call exactly between its increment and the end of
      its refusal, when the increment has been undone. */
  lemma {:induction false} AddAfterClose(p: Pool, id: nat, job: Job, steps: seq<Step>)
    requires Inv(p) && Closed(p) && id in p.adders && Undecided(p.adders[id], job)
    ensures var p' := Run(p, steps);
      && Inv(p') && Closed(p') && p'.accepted == p.accepted
      && id in p'.adders
      && (Undecided(p'.adders[id], job) || DecidedAs(p'.adders[id], Some(ErrStopped)))
      && p'.wgTasks == |p'.queue| + Count(p'.workers, IsBusy()) + Count(p'.adders - {id}, InFlight())
                       + (if p'.adders[id].Counted? || p'.adders[id].Undoing? then 1 else 0)
  {
    hide Next, Inv;
    CountedApart(Run(p, steps), id);
    if steps != [] {
      var n := |steps| - 1;
      var q, step := Run(p, steps[..n]), steps[n];
      AddAfterClose(p, id, job, steps[..n]);
      InvKept(q, step);
      NothingAcceptedAfterClose(q, step);
      if Undecided(q.adders[id], job) {
        if step.AddSelect? && step.id == id && q.adders[id].Counted? {
          SelectDecides(q, id, step.w);
        } else {
          UndecidedStays(q, step, id, job);
        }
      } else {
        DecisionStays(q, step, id, Some(ErrStopped));
      }
    }
  }

  /** The counter equation with one call taken apart. */
  lemma CountedApart(p: Pool, id: nat)
    ensures Inv(p) && id in p.adders ==>
      p.wgTasks == |p.queue| + Count(p.workers, IsBusy()) + Count(p.adders - {id}, InFlight())
                   + (if p.adders[id].Counted? || p.adders[id].Undoing? then 1 else 0)
  {
    if id in p.adders {
      CountWithout(p.adders, id, InFlight());
    }
  }

  /** After the close no step accepts a job, whatever an `Add` had read before. */
  lemma NothingAcceptedAfterClose(p: Pool, step: Step)
    requires Closed(p)
    ensures Next(p, step).accepted == p.accepted && Closed(Next(p, step))
    ensures p.queue == [] ==> Next(p, step).queue == []
  {
  }

  // ----- shutdown progress -----

  function IsLoaded(): Adder -> bool { (a: Adder) => a.Loaded? }

  function IsCounted(): Adder -> bool { (a: Adder) => a.Counted? }

  function IsUndoing(): Adder -> bool { (a: Adder) => a.Undoing? }

  function StarterLeft(p: Pool): nat {
    match p.starter
    case NotStarted => 0
    case Spawning(i) => if i < p.workerCount then 3 * (p.workerCount - i) + 1 else 1
    case Spawned(i) => if i < p.workerCount then 3 * (p.workerCount - i) else 0
    case StartReturned => 0
  }

  function StopperLeft(p: Pool): nat {
    match p.stopper
    case NotStopping => 4
    case Closing => 3
    case WaitTasks => 2
    case WaitWorkers => 1
    case StopReturned => 0
  }

  ghost function AddersLeft(adders: map<nat, Adder>): nat {
    3 * Count(adders, IsLoaded()) + 2 * Count(adders, IsCounted()) + Count(adders, IsUndoing())
  }

  ghost function WorkersLeft(workers: map<nat, Worker>): nat {
    Count(workers, IsBusy()) + Count(workers, IsLive())
  }

  /** What is left to do before everything has come to rest. */
  ghost function Left(p: Pool): nat {
    AddersLeft(p.adders) + 2 * |p.queue| + WorkersLeft(p.workers) + StarterLeft(p) + StopperLeft(p)
  }

  /** A step of the pool itself, as opposed to a new call from outside. */
  predicate Internal(step: Step) {
    !step.CallAdd? && !step.CallStart? && !step.CallStop?
  }

  lemma LeftByAdders(p: Pool, step: Step)
    requires Closed(p) && p.status == Stopped && Enabled(p, step)
    requires step.CallAdd? || step.AddCount? || step.AddSelect? || step.AddUndo?
    ensures if step.CallAdd? then Left(Next(p, step)) == Left(p) else Left(Next(p, step)) < Left(p)
  {
    hide Count, WorkersLeft;
    AdderLeft(p, step.id, Next(p, step).adders[step.id]);
  }

  lemma LeftByWorkers(p: Pool, step: Step)
    requires Enabled(p, step) && (step.Take? || step.Finish? || step.Exit?)
    ensures Left(Next(p, step)) < Left(p)
  {
    hide Count, AddersLeft;
    WorkerCounts(p, step.w, Next(p, step).workers[step.w]);
  }

  lemma OneWorkerMore(p: Pool, w: nat)
    requires w !in p.workers
    ensures WorkersLeft(p.workers[w := Idle]) == WorkersLeft(p.workers) + 1
  {
    hide Count;
    WorkerCounts(p, w, Idle);
  }

  lemma LeftByStarter(p: Pool)
    requires StartOk(p) && Enabled(p, StartNext)
    ensures Left(Next(p, StartNext)) < Left(p)
  {
    hide Count, AddersLeft, WorkersLeft;
    if p.starter.Spawned? {
      var i := p.starter.i;
      assert i !in p.workers;
      assert WorkersLeft(p.workers[i := Idle]) == WorkersLeft(p.workers) + 1 by {
        OneWorkerMore(p, i);
      }
    }
  }

  lemma LeftByStopper(p: Pool, step: Step)
    requires Enabled(p, step) && (step.Close? || step.TasksDone? || step.WorkersDone?)
    ensures Left(Next(p, step)) < Left(p)
  {
    hide AddersLeft, WorkersLeft;
  }

  /** After the close, every enabled step of the pool uses up some of what is left, and a new
      call adds nothing to it. */
  lemma LeftDecreases(p: Pool, step: Step)
    requires Inv(p) && Closed(p) && Enabled(p, step)
    ensures if Internal(step) then Left(Next(p, step)) < Left(p) else Left(Next(p, step)) == Left(p)
  {
    hide Left, Next, CountersOk, JobsOk, DrainOk;
    if step.CallAdd? || step.AddCount? || step.AddSelect? || step.AddUndo? {
      LeftByAdders(p, step);
    } else if step.Take? || step.Finish? || step.Exit? {
      LeftByWorkers(p, step);
    } else if step.StartNext? {
      LeftByStarter(p);
    } else {
      LeftByStopper(p, step);
    }
  }

  lemma AdderLeft(p: Pool, id: nat, a: Adder)
    ensures Count(p.adders[id := a], IsLoaded()) + Unit(id in p.adders && p.adders[id].Loaded?)
         == Count(p.adders, IsLoaded()) + Unit(a.Loaded?)
    ensures Count(p.adders[id := a], IsCounted()) + Unit(id in p.adders && p.adders[id].Counted?)
         == Count(p.adders, IsCounted()) + Unit(a.Counted?)
    ensures Count(p.adders[id := a], IsUndoing()) + Unit(id in p.adders && p.adders[id].Undoing?)
         == Count(p.adders, IsUndoing()) + Unit(a.Undoing?)
  {
    CountUpdate(p.adders, id, a, IsLoaded());
    CountUpdate(p.adders, id, a, IsCounted());
    CountUpdate(p.adders, id, a, IsUndoing());
  }

  /** Jobs are queued but there will never be a worker, and nothing else is left to happen. */
  predicate Stranded(p: Pool) {
    && p.workerCount <= 0 && p.queue != [] && p.starter.StartReturned?
    && (forall id :: id in p.adders ==> p.adders[id].Accepted? || p.adders[id].Refused?)
  }

  /** A closed pool whose `Stop` has not returned can always take a step of its own, except
      exactly when it has no workers and jobs in its queue. */
  lemma StopProgress(p: Pool)
    requires Inv(p) && Closed(p) && !p.stopper.StopReturned?
    ensures (exists step :: Internal(step) && Enabled(p, step)) <==> !Stranded(p)
  {
    if Stranded(p) {
      StrandedIsStuck(p);
    } else {
      var step := SomeStep(p);
    }
  }

  lemma StrandedIsStuck(p: Pool)
    requires Inv(p) && Closed(p) && !p.stopper.StopReturned? && Stranded(p)
    ensures forall step :: Internal(step) ==> !Enabled(p, step)
  {
    assert p.workers == map[];
    if p.wgTasks == 0 {
      ZeroTasksDrained(p);
    }
  }

  lemma SomeStep(p: Pool) returns (step: Step)
    requires Inv(p) && Closed(p) && !p.stopper.StopReturned? && !Stranded(p)
    ensures Internal(step) && Enabled(p, step)
  {
    if id :| id in p.adders && p.adders[id].Loaded? {
      step := AddCount(id);
    } else if id :| id in p.adders && p.adders[id].Counted? {
      step := AddSelect(id, 0);
    } else if id :| id in p.adders && p.adders[id].Undoing? {
      step := AddUndo(id);
    } else if p.starter.Spawning? || p.starter.Spawned? {
      step := StartNext;
    } else if w :| w in p.workers && p.workers[w].Busy? {
      step := Finish(w);
    } else if p.queue != [] {
      assert 0 in p.workers && IsIdle(p, 0);
      step := Take(0);
    } else if w :| IsIdle(p, w) {
      step := Exit(w);
    } else {
      forall v | v in p.workers ensures p.workers[v].Exited? {
        assert !IsIdle(p, v);
      }
      step := NothingLeft(p);
    }
  }

  lemma NothingLeft(p: Pool) returns (step: Step)
    requires Inv(p) && Closed(p) && !p.stopper.StopReturned? && p.queue == [] && NobodyAlive(p)
    requires !p.starter.Spawned? && (forall id :: id in p.adders ==> !InFlight()(p.adders[id]))
    ensures Internal(step) && Enabled(p, step)
  {
    forall w | w in p.workers ensures !IsBusy()(p.workers[w]) && !IsLive()(p.workers[w]) {}
    CountZero(p.workers, IsBusy());
    CountZero(p.workers, IsLive());
    CountZero(p.adders, InFlight());
    step := if p.stopper == WaitTasks then TasksDone else WorkersDone;
  }

  /** How many of the steps were enabled steps of the pool's own. */
  ghost function OwnSteps(p: Pool, steps: seq<Step>): nat {
    if steps == [] then 0
    else
      var n := |steps| - 1;
      var q := Run(p, steps[..n]);
      OwnSteps(p, steps[..n]) + Unit(Internal(steps[n]) && Enabled(q, steps[n]))
  }

  /** With a worker, or with nothing queued at the close: whatever steps are taken after the
      close, new calls included, no more than `Left(p)` of them are enabled steps of the pool's
      own, and as long as `Stop` has not returned another one is enabled. */
  lemma {:induction false} StopReturnsInTime(p: Pool, steps: seq<Step>)
    requires Inv(p) && Closed(p) && (p.workerCount >= 1 || p.queue == [])
    ensures var p' := Run(p, steps);
      && OwnSteps(p, steps) + Left(p') <= Left(p)
      && (p'.stopper.StopReturned? || exists step :: Internal(step) && Enabled(p', step))
      && Inv(p') && Closed(p') && (p'.workerCount >= 1 || p'.queue == [])
  {
    hide Left, Next, Inv, Enabled;
    if steps != [] {
      var n := |steps| - 1;
      var q := Run(p, steps[..n]);
      StopReturnsInTime(p, steps[..n]);
      InvKept(q, steps[n]);
      NothingAcceptedAfterClose(q, steps[n]);
      SettingsKept(q, steps[n]);
      if Enabled(q, steps[n]) {
        LeftDecreases(q, steps[n]);
      } else {
        DisabledStep(q, steps[n]);
      }
    }
    if !Run(p, steps).stopper.StopReturned? {
      StopProgress(Run(p, steps));
    }
  }

  lemma DisabledStep(p: Pool, step: Step)
    requires !Enabled(p, step)
    ensures Next(p, step) == p
  {
  }

  // ----- a pool without workers -----

  /** Without workers, a job that is queued at the close keeps `Stop` from ever returning,
      whatever steps anyone takes. */
  lemma {:induction false} NeverReturns(p: Pool, steps: seq<Step>)
    requires Inv(p) && Closed(p) && p.workerCount <= 0 && p.queue != [] && !p.stopper.StopReturned?
    ensures var p' := Run(p, steps);
      && Inv(p') && Closed(p') && p'.workerCount <= 0
      && p'.queue == p.queue && !p'.stopper.StopReturned?
      && (Stranded(p) ==> Stranded(p'))
  {
    hide Next, Inv;
    if steps != [] {
      var n := |steps| - 1;
      NeverReturns(p, steps[..n]);
      InvKept(Run(p, steps[..n]), steps[n]);
      StaysStuck(Run(p, steps[..n]), steps[n]);
    }
  }

  lemma StaysStuck(p: Pool, step: Step)
    requires Inv(p) && Closed(p) && p.workerCount <= 0 && p.queue != [] && !p.stopper.StopReturned?
    ensures var p' := Next(p, step);
      && Closed(p') && p'.workerCount <= 0 && p'.queue == p.queue && !p'.stopper.StopReturned?
      && (Stranded(p) ==> Stranded(p'))
  {
    assert forall w :: w !in p.workers;
    assert p.wgTasks > 0;
  }

  /** Such a pool is reachable: start it without workers, send one job, stop it. */
  lemma StrandedReachable(job: Job)
    ensures var p := Run(NewPool(0, 1, false),
                         [CallStart, StartNext, CallAdd(0, job), AddCount(0), AddSelect(0, 0), CallStop, Close]);
      Stranded(p) && Closed(p) && !p.stopper.StopReturned? && Inv(p)
  {
    var p0 := NewPool(0, 1, false);
    var p1 := StranderStarted(p0);
    var p4 := StranderSent(p1, job);
    var s2 := [CallStart, StartNext];
    var s5 := s2 + [CallAdd(0, job)] + [AddCount(0)] + [AddSelect(0, 0)];
    hide Next, Run;
    RunTwo(p0, CallStart, StartNext);
    RunSnoc(p0, s2, CallAdd(0, job));
    RunSnoc(p0, s2 + [CallAdd(0, job)], AddCount(0));
    RunSnoc(p0, s2 + [CallAdd(0, job)] + [AddCount(0)], AddSelect(0, 0));
    RunSnoc(p0, s5, CallStop);
    RunSnoc(p0, s5 + [CallStop], Close);
    StranderStopped(p4);
    var all := [CallStart, StartNext, CallAdd(0, job), AddCount(0), AddSelect(0, 0), CallStop, Close];
    assert all == s5 + [CallStop] + [Close];
    RunInv(0, 1, false, all);
  }

  lemma RunTwo(p: Pool, first: Step, second: Step)
    ensures Run(p, [first, second]) == Next(Next(p, first), second)
  {
    hide Next;
    assert [first, second] == [first] + [second] && [first] == [] + [first];
    RunSnoc(p, [first], second);
    RunSnoc(p, [], first);
  }

  /** A pool of no workers has started at once. */
  lemma StranderStarted(p: Pool) returns (p': Pool)
    requires p == NewPool(0, 1, false)
    ensures p' == Next(Next(p, CallStart), StartNext)
    ensures p' == p.(status := Started, starter := StartReturned)
  {
    p' := Next(Next(p, CallStart), StartNext);
  }

  lemma StranderSent(p: Pool, job: Job) returns (p': Pool)
    requires p == NewPool(0, 1, false).(status := Started, starter := StartReturned)
    ensures p' == Next(Next(Next(p, CallAdd(0, job)), AddCount(0)), AddSelect(0, 0))
    ensures p' == p.(adders := map[0 := Accepted], wgTasks := 1, queue := [job], accepted := [job])
  {
    p' := Next(Next(Next(p, CallAdd(0, job)), AddCount(0)), AddSelect(0, 0));
  }

  lemma StranderStopped(p: Pool)
    requires p.status == Started && p.closes == 0 && p.starter == StartReturned
    ensures Next(Next(p, CallStop), Close)
         == p.(status := Stopped, closes := 1, stopper := WaitTasks, startedFirst := true)
  {
  }
}

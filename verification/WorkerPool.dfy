/** The code of the worker pool over its shared fields. Between any two accesses the other
    actors may take any steps; what a method does together with them is a run of the step
    system, so the results about runs hold of the code. */
module WorkerPool {
  import opened Wrappers
  import opened PoolProtocol

  lemma {:induction false} RunConcat(p: Pool, first: seq<Step>, rest: seq<Step>)
    ensures Run(p, first + rest) == Run(Run(p, first), rest)
  {
    hide Next;
    if rest == [] {
      assert first + rest == first;
    } else {
      var n := |rest| - 1;
      assert (first + rest)[..|first + rest| - 1] == first + rest[..n];
      RunConcat(p, first, rest[..n]);
    }
  }

  predicate StepOfStarter(step: Step) {
    step.CallStart? || step.StartNext?
  }

  predicate StepOfStopper(step: Step) {
    step.CallStop? || step.Close? || step.TasksDone? || step.WorkersDone?
  }

  /** Only the worker itself takes these; a job may be handed to it by an adder. */
  predicate StepOfWorker(step: Step, w: nat) {
    match step
    case Take(v) => v == w
    case Finish(v) => v == w
    case Exit(v) => v == w
    case _ => false
  }

  lemma StarterStands(p: Pool, step: Step)
    requires !StepOfStarter(step)
    ensures Next(p, step).starter == p.starter
  {
  }

  lemma StopperStands(p: Pool, step: Step)
    requires !StepOfStopper(step)
    ensures Next(p, step).stopper == p.stopper && Next(p, step).closes == p.closes
  {
  }

  /** What others may do to a worker: nothing but hand it a job when it is idle. */
  predicate WorkerStays(p: Pool, p': Pool, w: nat)
    requires w in p.workers
  {
    w in p'.workers && (p'.workers[w] == p.workers[w] || (p.workers[w].Idle? && p'.workers[w].Busy?))
  }

  /** The next worker to be spawned is not there yet. */
  predicate SpawnsAhead(p: Pool, w: nat) {
    p.starter.NotStarted? || p.starter.StartReturned? || p.starter.i > w
  }

  /** A worker that has been spawned. */
  predicate Working(p: Pool, w: nat) {
    w in p.workers && SpawnsAhead(p, w) && !p.starter.NotStarted? && p.status != Init
  }

  lemma WorkerStands(p: Pool, step: Step, w: nat)
    requires !StepOfWorker(step, w) && Working(p, w)
    ensures Working(Next(p, step), w) && WorkerStays(p, Next(p, step), w)
  {
  }

  /** Other actors leave the call of `Add` where it is. */
  lemma {:induction false} AdderUndisturbed(p: Pool, id: nat, steps: seq<Step>)
    requires forall i :: 0 <= i < |steps| ==> !StepOfAdder(steps[i], id)
    ensures id in Run(p, steps).adders <==> id in p.adders
    ensures id in p.adders ==> Run(p, steps).adders[id] == p.adders[id]
  {
    hide Next;
    if steps != [] {
      AdderUndisturbed(p, id, steps[..|steps| - 1]);
      AdderStands(Run(p, steps[..|steps| - 1]), steps[|steps| - 1], id);
    }
  }

  lemma {:induction false} StarterUndisturbed(p: Pool, steps: seq<Step>)
    requires forall i :: 0 <= i < |steps| ==> !StepOfStarter(steps[i])
    ensures Run(p, steps).starter == p.starter
  {
    hide Next;
    if steps != [] {
      StarterUndisturbed(p, steps[..|steps| - 1]);
      StarterStands(Run(p, steps[..|steps| - 1]), steps[|steps| - 1]);
    }
  }

  lemma {:induction false} StopperUndisturbed(p: Pool, steps: seq<Step>)
    requires forall i :: 0 <= i < |steps| ==> !StepOfStopper(steps[i])
    ensures Run(p, steps).stopper == p.stopper && Run(p, steps).closes == p.closes
  {
    hide Next;
    if steps != [] {
      StopperUndisturbed(p, steps[..|steps| - 1]);
      StopperStands(Run(p, steps[..|steps| - 1]), steps[|steps| - 1]);
    }
  }

  lemma {:induction false} WorkerUndisturbed(p: Pool, w: nat, steps: seq<Step>)
    requires Working(p, w) && !p.workers[w].Exited?
    requires forall i :: 0 <= i < |steps| ==> !StepOfWorker(steps[i], w)
    ensures Working(Run(p, steps), w) && WorkerStays(p, Run(p, steps), w)
  {
    hide Next;
    if steps != [] {
      WorkerUndisturbed(p, w, steps[..|steps| - 1]);
      WorkerStands(Run(p, steps[..|steps| - 1]), steps[|steps| - 1], w);
    }
  }

  lemma {:induction false} SettingsStay(p: Pool, steps: seq<Step>)
    ensures SameSettings(p, Run(p, steps))
  {
    if steps != [] {
      SettingsStay(p, steps[..|steps| - 1]);
      SettingsKept(Run(p, steps[..|steps| - 1]), steps[|steps| - 1]);
    }
  }

  lemma RunEmpty(p: Pool)
    ensures Run(p, []) == p
  {
  }

  lemma StopBegins(p: Pool)
    requires p.status == Started
    ensures Next(p, Step.CallStop)
         == p.(status := Stopped, stopper := Closing, startedFirst := p.starter.StartReturned?)
  {
  }

  lemma StopCloses(p: Pool)
    requires p.stopper == Closing
    ensures Next(p, Step.Close) == p.(closes := p.closes + 1, stopper := WaitTasks)
  {
  }

  lemma StopSeesTasks(p: Pool)
    requires p.stopper == WaitTasks && p.wgTasks == 0
    ensures Next(p, Step.TasksDone) == p.(stopper := WaitWorkers)
  {
  }

  lemma StopSeesWorkers(p: Pool)
    requires p.stopper == WaitWorkers && p.wgWorkers == 0
    ensures Next(p, Step.WorkersDone) == p.(stopper := StopReturned)
  {
  }

  lemma {:induction false} RunKeepsInv(p: Pool, steps: seq<Step>)
    requires Inv(p)
    ensures Inv(Run(p, steps))
  {
    hide Inv, Next;
    if steps != [] {
      RunKeepsInv(p, steps[..|steps| - 1]);
      InvKept(Run(p, steps[..|steps| - 1]), steps[|steps| - 1]);
    }
  }

  /** The steps other actors take before each access of a call. */
  type Others = nat -> seq<Step>

  /** Where the actors are, and the history: all of the pool that is not a shared field. */
  datatype Actors = Actors(
    adders: map<nat, Adder>,
    starter: Starter,
    workers: map<nat, Worker>,
    stopper: Stopper,
    startedFirst: bool,
    accepted: seq<Job>,
    taken: seq<Job>,
    finished: set<nat>,
    reported: multiset<nat>)

  function ActorsOf(p: Pool): Actors {
    Actors(p.adders, p.starter, p.workers, p.stopper, p.startedFirst, p.accepted, p.taken, p.finished, p.reported)
  }

  // ----- what the calls are accounted for by -----

  /** A call refused at once accepts nothing. */
  lemma RefusedAtOnce(p: Pool, id: nat, job: Job)
    ensures Next(p, CallAdd(id, job)).accepted == p.accepted
  {
  }

  lemma VerdictMeaning(p: Pool, w: nat)
    ensures Verdict(p, w) == Some(ErrStopped) <==> p.closes > 0
    ensures Verdict(p, w) == Some(ErrQueueFull) <==> p.closes == 0 && NoRoom(p, w)
  {
  }

  /** The buffer is full, and if there is none, the worker `w` is not waiting for a job. */
  predicate NoRoom(p: Pool, w: nat) {
    |p.queue| >= p.capacity && (p.capacity == 0 ==> !(w in p.workers && p.workers[w].Idle?))
  }

  /** What the others do before `n` looks, the first of which is number `from`. */
  function Slices(others: Others, from: nat, n: nat): seq<Step> {
    if n == 0 then [] else Slices(others, from, n - 1) + others(from + n - 1)
  }

  function TasksLeft(): Pool -> int { (p: Pool) => p.wgTasks }

  function WorkersAlive(): Pool -> int { (p: Pool) => p.wgWorkers }

  /** A wait took `looked` of its looks: it is over exactly if the last one found the counter at
      zero, no earlier one did, and it is given up only after all of them. */
  ghost predicate WaitedFor(p0: Pool, trace: seq<Step>, others: Others, from: nat, looks: nat, looked: nat, ok: bool,
                            counter: Pool -> int) {
    && looked <= looks && (ok ==> looked >= 1) && (!ok ==> looked == looks)
    && (forall j :: 1 <= j <= looked ==>
          (counter(Run(p0, trace + Slices(others, from, j))) == 0 <==> ok && j == looked))
  }

  lemma WaitsOn(p0: Pool, trace: seq<Step>, others: Others, from: nat, k: nat, counter: Pool -> int)
    requires WaitedFor(p0, trace, others, from, k, k, false, counter)
    requires counter(Run(p0, trace + Slices(others, from, k + 1))) != 0
    ensures WaitedFor(p0, trace, others, from, k + 1, k + 1, false, counter)
  {
    hide Run, Slices;
  }

  lemma WaitEnds(p0: Pool, trace: seq<Step>, others: Others, from: nat, k: nat, looks: nat, counter: Pool -> int)
    requires WaitedFor(p0, trace, others, from, k, k, false, counter) && k < looks
    requires counter(Run(p0, trace + Slices(others, from, k + 1))) == 0
    ensures WaitedFor(p0, trace, others, from, looks, k + 1, true, counter)
  {
    hide Run, Slices;
  }

  lemma SliceMore(trace: seq<Step>, others: Others, from: nat, k: nat)
    ensures trace + Slices(others, from, k) + others(from + k) == trace + Slices(others, from, k + 1)
  {
  }

  lemma NoWaitYet(p0: Pool, trace: seq<Step>, others: Others, from: nat, counter: Pool -> int)
    ensures WaitedFor(p0, trace, others, from, 0, 0, false, counter)
    ensures trace + Slices(others, from, 0) == trace
  {
  }

  /** The looks of the two waits of a call of `Stop`, and whether the first one ended. */
  datatype Waited = Waited(tasks: nat, drained: bool, workers: nat)

  /** A round of a worker: it is handed a job, takes one, waits or exits. */
  datatype RoundKind = Handed | Takes | Waits | Exits

  /** The steps from `start` to `end` of the trace are one round. */
  datatype Round = Round(start: nat, end: nat, kind: RoundKind)

  /** The others take the steps `before`; what the worker does then is decided by what it finds.
      They take the steps `between` while it runs a job that it has taken. */
  ghost predicate RoundOk(p0: Pool, trace: seq<Step>, w: nat, before: seq<Step>, between: seq<Step>, r: Round) {
    && r.start + |before| <= r.end <= |trace|
    && var (look, steps) := (trace[..r.start + |before|], trace[..r.end]);
       var found := Run(p0, look);
       && look[r.start..] == before && w in found.workers
       && match r.kind
          case Handed => found.workers[w].Busy? && steps == look + [Finish(w)]
          case Takes =>
            && found.workers[w].Idle? && found.queue != []
            && steps == look + [Take(w)] + between + [Finish(w)]
          case Waits => found.workers[w].Idle? && found.queue == [] && found.closes == 0 && steps == look
          case Exits =>
            found.workers[w].Idle? && found.queue == [] && found.closes > 0 && steps == look + [Exit(w)]
  }

  /** The trace is made up of these rounds. */
  ghost predicate LogOk(p0: Pool, trace: seq<Step>, w: nat, others: Others, log: seq<Round>)
    decreases |log|
  {
    if log == [] then trace == []
    else
      var n := |log| - 1;
      && log[n].end == |trace| && RoundOk(p0, trace, w, others(2 * n), others(2 * n + 1), log[n])
      && LogOk(p0, trace[..log[n].start], w, others, log[..n])
  }

  lemma LogGrows(p0: Pool, trace: seq<Step>, trace': seq<Step>, w: nat, others: Others, log: seq<Round>, r: Round)
    requires LogOk(p0, trace, w, others, log) && trace <= trace'
    requires r.start == |trace| && r.end == |trace'|
    requires RoundOk(p0, trace', w, others(2 * |log|), others(2 * |log| + 1), r)
    ensures LogOk(p0, trace', w, others, log + [r])
  {
    hide RoundOk;
    assert (log + [r])[..|log|] == log && trace'[..|trace|] == trace;
  }

  lemma NothingLogged(p0: Pool, w: nat, others: Others)
    ensures LogOk(p0, [], w, others, []) && Worked(p0, p0, 0)
  {
  }

  /** Nobody steps in on a call. */
  ghost predicate NobodySteps(others: Others) {
    forall k :: others(k) == []
  }

  lemma NobodyStepsAt(others: Others, k: nat)
    requires NobodySteps(others)
    ensures others(k) == []
  {
  }

  /** A round more, with nobody stepping in. */
  lemma WorkedMore(p0: Pool, p: Pool, p': Pool, k: nat)
    requires Worked(p0, p, if k < |p0.queue| then k else |p0.queue|)
    requires Worked(p, p', if p.queue != [] then 1 else 0)
    ensures p.queue != [] <==> k < |p0.queue|
    ensures Worked(p0, p', if k + 1 < |p0.queue| then k + 1 else |p0.queue|)
  {
  }

  /** Between these states exactly the first `n` jobs of the queue were taken, in order, and all
      of them have finished and are counted done. */
  ghost predicate Worked(p: Pool, p': Pool, n: nat)
    requires n <= |p.queue|
  {
    && p'.queue == p.queue[n..] && p'.taken == p.taken + p.queue[..n]
    && (forall k :: k in p'.finished <==> k in p.finished || |p.taken| <= k < |p.taken| + n)
    && p'.wgTasks == p.wgTasks - n && p'.closes == p.closes
  }

  class WorkerPool {
    const workerCount: int
    const capacity: nat
    const callback: bool
    var state: Status
    var closes: nat
    var tasks: seq<Job>
    var wgTasks: int
    var wgWorkers: int
    var actors: Actors

    constructor (workerCount: int, queueSize: nat, onError: bool)
      ensures Contents() == NewPool(workerCount, queueSize, onError)
    {
      this.workerCount, this.capacity, this.callback := workerCount, queueSize, onError;
      state, closes, tasks, wgTasks, wgWorkers := Init, 0, [], 0, 0;
      actors := ActorsOf(NewPool(workerCount, queueSize, onError));
    }

    function Contents(): Pool
      reads this
    {
      Pool(workerCount, capacity, callback, state, closes, tasks, wgTasks, wgWorkers,
           actors.adders, actors.starter, actors.workers, actors.stopper, actors.startedFirst,
           actors.accepted, actors.taken, actors.finished, actors.reported)
    }

    /** The other actors take some steps. */
    method Interfere(steps: seq<Step>)
      modifies this
      ensures Contents() == Run(old(Contents()), steps)
    {
      SettingsStay(Contents(), steps);
      var p := Run(Contents(), steps);
      state, closes, tasks := p.status, p.closes, p.queue;
      wgTasks, wgWorkers, actors := p.wgTasks, p.wgWorkers, ActorsOf(p);
    }

    /** `Add`: together with the steps of the others it is a run, in which step `at` decides
        the call. That is the read of a stopped state, or the select: the call then returns
        what the channel, as it is found there, comes to: stopped if closed, full if open and
        full, and no error otherwise. */
    method Add(id: nat, job: Job, others: Others, receiver: nat)
        returns (err: Option<AddError>, ghost trace: seq<Step>, ghost at: nat)
      requires id !in actors.adders
      requires forall k, i :: 0 <= i < |others(k)| ==> !StepOfAdder(others(k)[i], id)
      modifies this
      ensures Contents() == Run(old(Contents()), trace)
      ensures id in Contents().adders
      ensures Contents().adders[id] == match err case None => Accepted case Some(e) => Refused(e)
      ensures at < |trace|
      ensures var found := Run(old(Contents()), trace[..at]);
        && (trace[at] == CallAdd(id, job) || trace[at] == AddSelect(id, receiver))
        && (trace[at] == CallAdd(id, job) ==> found.status == Stopped && err == Some(ErrStopped))
        && (trace[at] == AddSelect(id, receiver) ==>
              && (err == Some(ErrStopped) <==> found.closes > 0)
              && (err == Some(ErrQueueFull) <==> found.closes == 0 && NoRoom(found, receiver)))
        && Run(old(Contents()), trace[..at + 1]).accepted
             == if err.None? then found.accepted + [job] else found.accepted
    {
      hide Next, Run, Verdict;
      ghost var p0 := Contents();
      trace, at := others(0), |others(0)|;
      AdderUndisturbed(p0, id, others(0));
      Interfere(others(0));
      RunSnoc(p0, trace, CallAdd(id, job));
      trace := trace + [CallAdd(id, job)];
      assert trace[..at] == others(0);
      err := Load(id, job);
      if err.Some? {
        assert trace[..at + 1] == trace;
        RefusedAtOnce(Run(p0, others(0)), id, job);
        return;
      }
      err, trace, at := Send(p0, trace, id, job, others, receiver);
      VerdictMeaning(Run(p0, trace[..at]), receiver);
    }

    /** The rest of `Add`, once the state has been read. */
    method Send(ghost p0: Pool, ghost trace: seq<Step>, id: nat, ghost job: Job, others: Others, receiver: nat)
        returns (err: Option<AddError>, ghost trace': seq<Step>, ghost at: nat)
      requires Contents() == Run(p0, trace) && id in actors.adders && actors.adders[id] == Loaded(job)
      requires forall k, i :: 0 <= i < |others(k)| ==> !StepOfAdder(others(k)[i], id)
      modifies this
      ensures Contents() == Run(p0, trace')
      ensures id in actors.adders
      ensures actors.adders[id] == match err case None => Accepted case Some(e) => Refused(e)
      ensures at < |trace'| && trace'[at] == AddSelect(id, receiver) && err == Verdict(Run(p0, trace'[..at]), receiver)
      ensures Run(p0, trace'[..at + 1]).accepted
           == Run(p0, trace'[..at]).accepted + if err.None? then [job] else []
    {
      hide Next, Run, Verdict;
      trace' := Interfered(p0, trace, id, others(1));
      RunSnoc(p0, trace', AddCount(id));
      trace' := trace' + [AddCount(id)];
      Count(id);
      trace' := Interfered(p0, trace', id, others(2));
      ghost var before := trace';
      at := |before|;
      RunSnoc(p0, before, AddSelect(id, receiver));
      SelectDecides(Contents(), id, receiver);
      trace' := before + [AddSelect(id, receiver)];
      assert trace'[..at] == before && trace'[..at + 1] == trace';
      err := Select(id, receiver);
      if err.None? {
        return;
      }
      trace' := Interfered(p0, trace', id, others(3));
      RunSnoc(p0, trace', AddUndo(id));
      trace' := trace' + [AddUndo(id)];
      assert trace'[..at] == before && trace'[..at + 1] == before + [AddSelect(id, receiver)];
      Undo(id);
    }

    /** The others step in on a call that has started. */
    method Interfered(ghost p0: Pool, ghost trace: seq<Step>, id: nat, steps: seq<Step>)
        returns (ghost trace': seq<Step>)
      requires Contents() == Run(p0, trace) && id in actors.adders
      requires forall i :: 0 <= i < |steps| ==> !StepOfAdder(steps[i], id)
      modifies this
      ensures Contents() == Run(p0, trace') && trace' == trace + steps
      ensures id in actors.adders && actors.adders[id] == old(actors.adders[id])
    {
      RunConcat(p0, trace, steps);
      AdderUndisturbed(Contents(), id, steps);
      Interfere(steps);
      trace' := trace + steps;
    }

    method Load(id: nat, job: Job) returns (err: Option<AddError>)
      requires id !in actors.adders
      modifies this
      ensures Contents() == Next(old(Contents()), CallAdd(id, job))
      ensures err.Some? <==> old(state) == Stopped
      ensures err.Some? ==> err.value == ErrStopped
      ensures id in actors.adders && actors.adders[id] == if err.Some? then Refused(err.value) else Loaded(job)
    {
      if state == Stopped {
        actors := actors.(adders := actors.adders[id := Refused(ErrStopped)]);
        return Some(ErrStopped);
      }
      actors := actors.(adders := actors.adders[id := Loaded(job)]);
      return None;
    }

    method Count(id: nat)
      requires id in actors.adders && actors.adders[id].Loaded?
      modifies this
      ensures Contents() == Next(old(Contents()), AddCount(id))
      ensures id in actors.adders && actors.adders[id] == Counted(old(actors.adders[id].job))
    {
      wgTasks := wgTasks + 1;
      actors := actors.(adders := actors.adders[id := Counted(actors.adders[id].job)]);
    }

    method Select(id: nat, receiver: nat) returns (err: Option<AddError>)
      requires id in actors.adders && actors.adders[id].Counted?
      modifies this
      ensures Contents() == Next(old(Contents()), AddSelect(id, receiver))
      ensures err == Verdict(old(Contents()), receiver)
      ensures id in actors.adders && actors.adders[id] == if err.Some? then Undoing(err.value) else Accepted
    {
      var job := actors.adders[id].job;
      if closes > 0 {
        actors := actors.(adders := actors.adders[id := Undoing(ErrStopped)]);
        return Some(ErrStopped);
      }
      if |tasks| < capacity {
        tasks := tasks + [job];
        actors := actors.(adders := actors.adders[id := Accepted], accepted := actors.accepted + [job]);
        return None;
      }
      if capacity == 0 && receiver in actors.workers && actors.workers[receiver].Idle? {
        actors := actors.(adders := actors.adders[id := Accepted], accepted := actors.accepted + [job],
                          taken := actors.taken + [job],
                          workers := actors.workers[receiver := Busy(|actors.taken|, job)]);
        return None;
      }
      actors := actors.(adders := actors.adders[id := Undoing(ErrQueueFull)]);
      return Some(ErrQueueFull);
    }

    method Undo(id: nat)
      requires id in actors.adders && actors.adders[id].Undoing?
      modifies this
      ensures Contents() == Next(old(Contents()), AddUndo(id))
      ensures id in actors.adders && actors.adders[id] == Refused(old(actors.adders[id].err))
    {
      wgTasks := wgTasks - 1;
      actors := actors.(adders := actors.adders[id := Refused(actors.adders[id].err)]);
    }

    /** `Start`: does nothing unless the pool is new; otherwise it is a run that ends with every
        worker spawned. */
    method Start(others: Others) returns (ghost trace: seq<Step>)
      requires forall k, i :: 0 <= i < |others(k)| ==> !StepOfStarter(others(k)[i])
      modifies this
      ensures Contents() == Run(old(Contents()), trace)
      ensures if old(state) != Init then Contents() == old(Contents()) else Contents().starter == StartReturned
      ensures old(state) == Init && Inv(old(Contents())) ==>
        Inv(Contents()) && forall w :: w in actors.workers <==> 0 <= w < workerCount
    {
      hide Next, Run;
      ghost var p0 := Contents();
      RunEmpty(p0);
      trace := [];
      if state != Init {
        return;
      }
      RunSnoc(p0, trace, CallStart);
      trace := trace + [CallStart];
      StartFirst();
      var i := 0;
      while i < workerCount
        invariant Contents() == Run(p0, trace) && actors.starter == Spawning(i)
        invariant i <= workerCount || i == 0
      {
        trace := InterferedStart(p0, trace, others(2 * i));
        RunSnoc(p0, trace, StartNext);
        trace := trace + [StartNext];
        AddWorker();
        trace := InterferedStart(p0, trace, others(2 * i + 1));
        RunSnoc(p0, trace, StartNext);
        trace := trace + [StartNext];
        SpawnWorker();
        i := i + 1;
      }
      RunSnoc(p0, trace, StartNext);
      trace := trace + [StartNext];
      StartLast();
      if Inv(p0) {
        RunKeepsInv(p0, trace);
      }
    }

    method InterferedStart(ghost p0: Pool, ghost trace: seq<Step>, steps: seq<Step>) returns (ghost trace': seq<Step>)
      requires Contents() == Run(p0, trace)
      requires forall i :: 0 <= i < |steps| ==> !StepOfStarter(steps[i])
      modifies this
      ensures Contents() == Run(p0, trace') && actors.starter == old(actors.starter)
    {
      RunConcat(p0, trace, steps);
      StarterUndisturbed(Contents(), steps);
      Interfere(steps);
      trace' := trace + steps;
    }

    method StartFirst()
      requires state == Init
      modifies this
      ensures Contents() == Next(old(Contents()), CallStart) && actors.starter == Spawning(0)
    {
      state := Started;
      actors := actors.(starter := Spawning(0));
    }

    method AddWorker()
      requires actors.starter.Spawning? && actors.starter.i < workerCount
      modifies this
      ensures Contents() == Next(old(Contents()), StartNext) && actors.starter == Spawned(old(actors.starter.i))
    {
      wgWorkers := wgWorkers + 1;
      actors := actors.(starter := Spawned(actors.starter.i));
    }

    method SpawnWorker()
      requires actors.starter.Spawned?
      modifies this
      ensures Contents() == Next(old(Contents()), StartNext) && actors.starter == Spawning(old(actors.starter.i) + 1)
    {
      var i := actors.starter.i;
      actors := actors.(workers := actors.workers[i := Idle], starter := Spawning(i + 1));
    }

    method StartLast()
      requires actors.starter.Spawning? && actors.starter.i >= workerCount
      modifies this
      ensures Contents() == Next(old(Contents()), StartNext) && actors.starter == StartReturned
    {
      actors := actors.(starter := StartReturned);
    }

    /** `Stop`: does nothing unless the pool is started; otherwise it closes the channel and
        waits, looking at each counter up to `looks` times and letting the others go on before
        each look. `returned` tells whether both waits ended; then, from a pool in a reachable
        state, everything accepted has been done. A wait ends with the first look that finds its
        counter at zero, and not before all its looks have found it at another value. */
    method Stop(others: Others, looks: nat) returns (returned: bool, ghost trace: seq<Step>, ghost waited: Waited)
      requires Inv(Contents())
      requires forall k, i :: 0 <= i < |others(k)| ==> !StepOfStopper(others(k)[i])
      modifies this
      ensures Contents() == Run(old(Contents()), trace)
      ensures old(state) != Started ==> returned && Contents() == old(Contents())
      ensures old(state) == Started ==>
        && Closed(Contents())
        && (returned <==> Contents().stopper == StopReturned)
        && (returned ==> AllDone(Contents()))
      ensures old(state) == Started ==>
        var closed := [Step.CallStop] + others(0) + [Step.Close];
        && WaitedFor(old(Contents()), closed, others, 1, looks, waited.tasks, waited.drained, TasksLeft())
        && var drained := closed + Slices(others, 1, waited.tasks) + [Step.TasksDone];
           if !waited.drained then !returned
           else WaitedFor(old(Contents()), drained, others, looks + 1, looks, waited.workers, returned, WorkersAlive())
    {
      hide Next, Run, Inv, AllDone, WaitedFor, Slices;
      ghost var p0 := Contents();
      RunEmpty(p0);
      trace, waited := [], Waited(0, false, 0);
      if state != Started {
        return true, trace, waited;
      }
      trace := CloseTasks(others(0));
      ghost var tasks, workers := 0, 0;
      returned, trace, tasks := WaitForTasks(p0, trace, others, looks);
      waited := Waited(tasks, returned, 0);
      if returned {
        returned, trace, workers := WaitForWorkers(p0, trace, others, looks);
        waited := Waited(tasks, true, workers);
      }
    }

    /** The part of `Stop` before its waits. */
    method CloseTasks(steps: seq<Step>) returns (ghost trace: seq<Step>)
      requires state == Started && forall i :: 0 <= i < |steps| ==> !StepOfStopper(steps[i])
      modifies this
      ensures Contents() == Run(old(Contents()), trace) && trace == [Step.CallStop] + steps + [Step.Close]
      ensures actors.stopper == Stopper.WaitTasks && closes > 0
    {
      hide Next, Run;
      ghost var p0 := Contents();
      RunEmpty(p0);
      RunSnoc(p0, [], Step.CallStop);
      trace := [Step.CallStop];
      assert [] + [Step.CallStop] == trace;
      state := Stopped;
      StopBegins(p0);
      actors := actors.(stopper := Closing, startedFirst := actors.starter.StartReturned?);
      trace := InterferedStop(p0, trace, steps);
      RunSnoc(p0, trace, Step.Close);
      trace := trace + [Step.Close];
      StopCloses(Contents());
      closes := closes + 1;
      actors := actors.(stopper := WaitTasks);
    }

    /** `wgTasks.Wait()`. */
    method WaitForTasks(ghost p0: Pool, ghost trace: seq<Step>, others: Others, looks: nat)
        returns (ok: bool, ghost trace': seq<Step>, ghost looked: nat)
      requires Contents() == Run(p0, trace) && actors.stopper == Stopper.WaitTasks && closes > 0
      requires forall k, i :: 0 <= i < |others(k)| ==> !StepOfStopper(others(k)[i])
      modifies this
      ensures Contents() == Run(p0, trace') && closes > 0
      ensures actors.stopper == if ok then Stopper.WaitWorkers else Stopper.WaitTasks
      ensures trace' == trace + Slices(others, 1, looked) + (if ok then [Step.TasksDone] else [])
      ensures WaitedFor(p0, trace, others, 1, looks, looked, ok, TasksLeft())
    {
      hide Next, Run, WaitedFor, Slices;
      NoWaitYet(p0, trace, others, 1, TasksLeft());
      trace', looked := trace, 0;
      for k := 0 to looks
        invariant Contents() == Run(p0, trace') && actors.stopper == Stopper.WaitTasks && closes > 0
        invariant looked == k && trace' == trace + Slices(others, 1, k)
        invariant WaitedFor(p0, trace, others, 1, k, k, false, TasksLeft())
      {
        SliceMore(trace, others, 1, k);
        trace' := InterferedStop(p0, trace', others(k + 1));
        looked := k + 1;
        if wgTasks == 0 {
          WaitEnds(p0, trace, others, 1, k, looks, TasksLeft());
          RunSnoc(p0, trace', Step.TasksDone);
          trace' := trace' + [Step.TasksDone];
          StopSeesTasks(Contents());
          actors := actors.(stopper := Stopper.WaitWorkers);
          return true, trace', looked;
        }
        WaitsOn(p0, trace, others, 1, k, TasksLeft());
      }
      ok := false;
    }

    /** `wgWorkers.Wait()`. */
    method WaitForWorkers(ghost p0: Pool, ghost trace: seq<Step>, others: Others, looks: nat)
        returns (ok: bool, ghost trace': seq<Step>, ghost looked: nat)
      requires Inv(p0)
      requires Contents() == Run(p0, trace) && actors.stopper == Stopper.WaitWorkers && closes > 0
      requires forall k, i :: 0 <= i < |others(k)| ==> !StepOfStopper(others(k)[i])
      modifies this
      ensures Contents() == Run(p0, trace') && closes > 0
      ensures ok <==> actors.stopper == StopReturned
      ensures ok ==> AllDone(Contents())
      ensures trace' == trace + Slices(others, looks + 1, looked) + (if ok then [Step.WorkersDone] else [])
      ensures WaitedFor(p0, trace, others, looks + 1, looks, looked, ok, WorkersAlive())
    {
      hide Next, Run, Inv, AllDone, WaitedFor, Slices;
      NoWaitYet(p0, trace, others, looks + 1, WorkersAlive());
      trace', looked := trace, 0;
      for k := 0 to looks
        invariant Contents() == Run(p0, trace') && actors.stopper == Stopper.WaitWorkers && closes > 0
        invariant looked == k && trace' == trace + Slices(others, looks + 1, k)
        invariant WaitedFor(p0, trace, others, looks + 1, k, k, false, WorkersAlive())
      {
        SliceMore(trace, others, looks + 1, k);
        trace' := InterferedStop(p0, trace', others(looks + k + 1));
        looked := k + 1;
        if wgWorkers == 0 {
          WaitEnds(p0, trace, others, looks + 1, k, looks, WorkersAlive());
          RunSnoc(p0, trace', Step.WorkersDone);
          trace' := trace' + [Step.WorkersDone];
          StopSeesWorkers(Contents());
          actors := actors.(stopper := StopReturned);
          RunKeepsInv(p0, trace');
          ReturnedMeansDone(Contents());
          return true, trace', looked;
        }
        WaitsOn(p0, trace, others, looks + 1, k, WorkersAlive());
      }
      ok := false;
    }

    method InterferedStop(ghost p0: Pool, ghost trace: seq<Step>, steps: seq<Step>) returns (ghost trace': seq<Step>)
      requires Contents() == Run(p0, trace)
      requires forall i :: 0 <= i < |steps| ==> !StepOfStopper(steps[i])
      modifies this
      ensures Contents() == Run(p0, trace') && actors.stopper == old(actors.stopper) && closes == old(closes)
      ensures trace' == trace + steps
    {
      RunConcat(p0, trace, steps);
      StopperUndisturbed(Contents(), steps);
      Interfere(steps);
      trace' := trace + steps;
    }

    /** The loop of one worker, followed for some rounds. It is a run, and `log` accounts for each
        round: the worker found a job, ran it and counted it done, or found the channel empty and
        open and kept waiting, or found it empty and closed and exited. With nobody stepping in,
        it takes the queued jobs in order, one a round, and finishes them; it exits exactly when
        the channel is closed and there is a round left after the last job. */
    method Work(w: nat, others: Others, rounds: nat)
        returns (exited: bool, ghost trace: seq<Step>, ghost log: seq<Round>)
      requires Working(Contents(), w) && actors.workers[w].Idle?
      requires forall k, i :: 0 <= i < |others(k)| ==> !StepOfWorker(others(k)[i], w)
      modifies this
      ensures Contents() == Run(old(Contents()), trace)
      ensures w in actors.workers && actors.workers[w] == if exited then Exited else Idle
      ensures exited ==> tasks == [] && closes > 0
      ensures LogOk(old(Contents()), trace, w, others, log)
      ensures if exited then log != [] && log[|log| - 1].kind == Exits else |log| == rounds
      ensures forall k :: 0 <= k < |log| && log[k].kind == Exits ==> exited && k == |log| - 1
      ensures NobodySteps(others) ==>
        var done := if rounds < |old(tasks)| then rounds else |old(tasks)|;
        && Worked(old(Contents()), Contents(), done)
        && (exited <==> old(closes) > 0 && rounds > |old(tasks)|)
    {
      hide Next, Run, RoundOk, LogOk, Worked, NobodySteps;
      ghost var p0 := Contents();
      RunEmpty(p0);
      NothingLogged(p0, w, others);
      trace, log := [], [];
      for k := 0 to rounds
        invariant Contents() == Run(p0, trace) && Working(Contents(), w) && Idling(w)
        invariant |log| == k && LogOk(p0, trace, w, others, log)
        invariant forall j :: 0 <= j < k ==> log[j].kind != Exits
        invariant NobodySteps(others) ==>
          && Worked(p0, Contents(), if k < |p0.queue| then k else |p0.queue|)
          && closes == p0.closes && (closes > 0 ==> k <= |p0.queue|)
      {
        ghost var before, p := trace, Contents();
        var kind;
        kind, trace := WorkRound(p0, trace, w, others(2 * k), others(2 * k + 1));
        if NobodySteps(others) {
          NobodyStepsAt(others, 2 * k);
          NobodyStepsAt(others, 2 * k + 1);
          WorkedMore(p0, p, Contents(), k);
        }
        LogGrows(p0, before, trace, w, others, log, Round(|before|, |trace|, kind));
        log := log + [Round(|before|, |trace|, kind)];
        if kind == Exits {
          return true, trace, log;
        }
      }
      exited := false;
    }

    predicate Idling(w: nat)
      reads this
    {
      w in actors.workers && actors.workers[w].Idle?
    }

    /** One round of the loop. */
    method WorkRound(ghost p0: Pool, ghost trace: seq<Step>, w: nat, before: seq<Step>, between: seq<Step>)
        returns (kind: RoundKind, ghost trace': seq<Step>)
      requires Contents() == Run(p0, trace) && Working(Contents(), w) && Idling(w)
      requires forall i :: 0 <= i < |before| ==> !StepOfWorker(before[i], w)
      requires forall i :: 0 <= i < |between| ==> !StepOfWorker(between[i], w)
      modifies this
      ensures Contents() == Run(p0, trace') && trace <= trace'
      ensures RoundOk(p0, trace', w, before, between, Round(|trace|, |trace'|, kind))
      ensures if kind == Exits then w in actors.workers && actors.workers[w] == Exited && tasks == [] && closes > 0
              else Working(Contents(), w) && Idling(w)
      ensures before == [] && between == [] ==>
        && (kind == Takes <==> old(tasks) != []) && (kind == Exits <==> old(tasks) == [] && old(closes) > 0)
        && kind != Handed && closes == old(closes)
        && Worked(old(Contents()), Contents(), if old(tasks) != [] then 1 else 0)
    {
      hide Next, Run;
      RunHere(p0, trace);
      trace' := InterferedWorker(p0, trace, w, before);
      ghost var look := trace';
      assert before == [] ==> look == trace;
      assert look[|trace|..] == before;
      if actors.workers[w].Busy? {
        RunSnoc(p0, look, Finish(w));
        trace' := look + [Finish(w)];
        RunJob(w);
        assert trace'[..|look|] == look;
        return Handed, trace';
      }
      if tasks == [] {
        if closes > 0 {
          RunSnoc(p0, look, Exit(w));
          trace' := look + [Exit(w)];
          ExitWorker(w);
          assert trace'[..|look|] == look;
          return Exits, trace';
        }
        // Nothing to receive: the worker keeps waiting.
        assert trace'[..|look|] == look;
        return Waits, trace';
      }
      trace' := TakeAndRun(p0, look, w, between);
      assert trace'[..|look|] == look;
      return Takes, trace';
    }

    /** Takes a job, runs it and counts it done. */
    method TakeAndRun(ghost p0: Pool, ghost trace: seq<Step>, w: nat, between: seq<Step>)
        returns (ghost trace': seq<Step>)
      requires Contents() == Run(p0, trace) && Working(Contents(), w) && Idling(w) && tasks != []
      requires forall i :: 0 <= i < |between| ==> !StepOfWorker(between[i], w)
      modifies this
      ensures Contents() == Run(p0, trace') && trace' == trace + [Take(w)] + between + [Finish(w)]
      ensures Working(Contents(), w) && Idling(w)
      ensures between == [] ==> Worked(old(Contents()), Contents(), 1)
    {
      hide Next, Run;
      RunSnoc(p0, trace, Take(w));
      trace' := trace + [Take(w)];
      TakeJob(w);
      RunHere(p0, trace');
      trace' := InterferedWorker(p0, trace', w, between);
      assert between == [] ==> actors.taken == old(actors.taken) + old(tasks)[..1];
      RunSnoc(p0, trace', Finish(w));
      trace' := trace' + [Finish(w)];
      RunJob(w);
    }

    lemma RunHere(p: Pool, trace: seq<Step>)
      ensures trace + [] == trace && Run(p, trace + []) == Run(p, trace)
    {
    }

    method InterferedWorker(ghost p0: Pool, ghost trace: seq<Step>, w: nat, steps: seq<Step>)
        returns (ghost trace': seq<Step>)
      requires Contents() == Run(p0, trace) && Working(Contents(), w) && !actors.workers[w].Exited?
      requires forall i :: 0 <= i < |steps| ==> !StepOfWorker(steps[i], w)
      modifies this
      ensures Contents() == Run(p0, trace') && Working(Contents(), w) && !actors.workers[w].Exited?
      ensures old(actors.workers[w].Busy?) ==> actors.workers[w] == old(actors.workers[w])
      ensures trace' == trace + steps
    {
      hide Next, Run;
      RunConcat(p0, trace, steps);
      WorkerUndisturbed(Contents(), w, steps);
      Interfere(steps);
      trace' := trace + steps;
    }

    method TakeJob(w: nat)
      requires Working(Contents(), w) && actors.workers[w].Idle? && tasks != []
      modifies this
      ensures Contents() == Next(old(Contents()), Take(w))
      ensures Working(Contents(), w) && actors.workers[w] == Busy(|old(actors.taken)|, old(tasks)[0])
      ensures tasks == old(tasks)[1..] && actors.taken == old(actors.taken) + [old(tasks)[0]]
      ensures actors.finished == old(actors.finished) && closes == old(closes) && wgTasks == old(wgTasks)
    {
      var job := tasks[0];
      tasks := tasks[1..];
      actors := actors.(workers := actors.workers[w := Busy(|actors.taken|, job)], taken := actors.taken + [job]);
    }

    /** Runs the job, reports its error to the callback if there is one, and counts it done. */
    method RunJob(w: nat)
      requires Working(Contents(), w) && actors.workers[w].Busy?
      modifies this
      ensures Contents() == Next(old(Contents()), Finish(w))
      ensures Working(Contents(), w) && actors.workers[w].Idle?
      ensures actors.finished == old(actors.finished) + {old(actors.workers[w].k)} && wgTasks == old(wgTasks) - 1
      ensures tasks == old(tasks) && actors.taken == old(actors.taken) && closes == old(closes)
    {
      var Busy(k, job) := actors.workers[w];
      if job.Job? {
        if job.fails && callback {
          actors := actors.(reported := actors.reported + multiset{k});
        }
      }
      actors := actors.(workers := actors.workers[w := Idle], finished := actors.finished + {k});
      wgTasks := wgTasks - 1;
    }

    method ExitWorker(w: nat)
      requires w in actors.workers && actors.workers[w].Idle? && tasks == [] && closes > 0
      modifies this
      ensures Contents() == Next(old(Contents()), Exit(w))
      ensures w in actors.workers && actors.workers[w] == Exited && tasks == [] && closes > 0
      ensures actors.finished == old(actors.finished) && actors.taken == old(actors.taken)
      ensures wgTasks == old(wgTasks) && closes == old(closes)
    {
      actors := actors.(workers := actors.workers[w := Exited]);
      wgWorkers := wgWorkers - 1;
    }
  }
}

/** The order processor as sequential code over the repositories. Each run of the code is
    proved to be a run of the step machine, so that what is proved of the steps holds of it. */
module Processing {
  import opened Wrappers
  import opened Domain
  import opened Database
  import opened Repeater
  import opened Adaptive
  import opened Protocol
  import opened Recovery
  import opened Repositories
  import PoolProtocol

  class Processor {
    const orders: OrderRepository
    const account: AccountRepository
    const db: Tables

    constructor (db: Tables)
      ensures this.db == db && Valid()
    {
      this.db := db;
      var orders := new OrderRepository(db);
      var account := new AccountRepository(db);
      this.orders, this.account := orders, account;
    }

    predicate Valid() {
      orders.db == db && account.db == db
    }

    /** The run of `first` from the tables `s0` has reached this point after `n` steps. */
    ghost predicate Reached(s0: Db, first: Task, oracle: Oracle, n: nat, t: Task)
      reads db
    {
      RunTask(s0, first, oracle, n) == (db.Contents(), t)
    }

    /** Claims an order for processing; null when the gate or a fault ends the run. */
    method TouchOrder(num: OrderNumber, allowProcessing: bool, oracle: Oracle)
        returns (order: Order?, n: nat, ghost t: Task)
      requires Valid()
      modifies db
      ensures Reached(old(db.Contents()), NewTask(num, allowProcessing), oracle, n, t)
      ensures var s, s' := old(db.Contents()), db.Contents();
        && (order != null <==>
              && num in s.orders && (forall k :: 0 <= k < 4 ==> oracle(k).fault == NoFault)
              && (s.orders[num].status == OrderNew
                  || (allowProcessing && s.orders[num].status == OrderProcessing)))
        && (order != null ==>
              && order.num == num && order.user == s.orders[num].user
              && s' == s.(orders := s.orders[num := OrderRow(order.user, OrderProcessing)]))
      ensures order == null ==> t.pc.Finished?
      ensures order != null ==> fresh(order) && t == NewTask(num, allowProcessing).(pc := CancelOld(order.Value()))
      ensures order != null ==> order.status == OrderProcessing && n == 4
    {
      ghost var s0, first := db.Contents(), NewTask(num, allowProcessing);
      assert Reached(s0, first, oracle, 0, first);
      if oracle(0).fault != NoFault {
        return null, 1, first.(pc := Finished);
      }
      assert Reached(s0, first, oracle, 1, first.(pc := FindOrder));
      var found := orders.GetByNumber(num, oracle(1).fault);
      if found.Err? {
        return null, 2, first.(pc := Finished);
      }
      order := found.value;
      if order.status != OrderNew && (!allowProcessing || order.status != OrderProcessing) {
        return null, 2, first.(pc := Finished);
      }
      var changed := order.ChangeStatus(OrderProcessing);
      assert Reached(s0, first, oracle, 2, first.(pc := SaveProcessing(order.Value())));
      var saved := orders.Save(order, oracle(2).fault);
      if saved.Err? {
        assert Reached(s0, first, oracle, 3, first.(pc := Finished));
        return null, 3, first.(pc := Finished);
      }
      assert Reached(s0, first, oracle, 3, first.(pc := CommitTouch(order.Value())));
      if oracle(3).fault != NoFault {
        return null, 4, first.(pc := Finished);
      }
      return order, 4, first.(pc := CancelOld(order.Value()));
    }

    /** Marks the order invalid and cancels its transaction, unless the order is terminal. */
    method FailOrder(order: Order, tx: TxId, oracle: Oracle, at: nat, ghost s0: Db, ghost first: Task, ghost t: Task)
        returns (n: nat, ghost t': Task)
      requires Valid() && Reached(s0, first, oracle, at, t) && t.pc == BeginFail(order.Value(), tx)
      modifies db, order
      ensures Reached(s0, first, oracle, n, t') && t'.pc.Finished?
    {
      hide RunTask, Approve, Register, CancelPlanned, Lookup, AfterPoll;
      OneStep(s0, first, oracle, at);
      if oracle(at).fault != NoFault {
        return at + 1, t.(pc := Finished);
      }
      var changed := order.ChangeStatus(OrderInvalid);
      if changed.Err? {
        return at + 1, t.(pc := Finished);
      }
      ghost var o := order.Value();
      assert Reached(s0, first, oracle, at + 1, t.(pc := SaveInvalid(o, tx)));
      n, t' := SaveAndCancel(order, tx, oracle, at + 1, s0, first, t.(pc := SaveInvalid(o, tx)));
    }

    /** The rest of `FailOrder`, once the order in memory is invalid. */
    method SaveAndCancel(order: Order, tx: TxId, oracle: Oracle, at: nat,
                         ghost s0: Db, ghost first: Task, ghost t: Task)
        returns (n: nat, ghost t': Task)
      requires Valid() && Reached(s0, first, oracle, at, t) && t.pc == SaveInvalid(order.Value(), tx)
      modifies db
      ensures Reached(s0, first, oracle, n, t') && t'.pc.Finished?
    {
      hide RunTask, Approve, Register, CancelPlanned, Lookup, AfterPoll;
      ghost var o := order.Value();
      OneStep(s0, first, oracle, at);
      var saved := orders.Save(order, oracle(at).fault);
      if saved.Err? {
        return at + 1, t.(pc := Finished);
      }
      assert Reached(s0, first, oracle, at + 1, t.(pc := CancelTx(o, tx)));
      OneStep(s0, first, oracle, at + 1);
      var canceled := account.CancelTransaction(tx, oracle(at + 1).fault);
      if canceled.Err? {
        return at + 2, t.(pc := Finished, cancels := t.cancels + 1);
      }
      assert Reached(s0, first, oracle, at + 2, t.(pc := CommitFail(o, tx), cancels := t.cancels + 1));
      OneStep(s0, first, oracle, at + 2);
      return at + 3, t.(pc := Finished, cancels := t.cancels + 1);
    }

    /** Marks the order processed and approves its transaction. On success the run is over; on
        an error it goes on with `FailOrder`. */
    method SuccessOrder(order: Order, tx: TxId, value: real, oracle: Oracle, at: nat,
                        ghost s0: Db, ghost first: Task, ghost t: Task)
        returns (ok: bool, n: nat, ghost t': Task)
      requires Valid() && Reached(s0, first, oracle, at, t) && t.pc == BeginSuccess(order.Value(), tx, value)
      modifies db, order
      ensures Reached(s0, first, oracle, n, t')
      ensures if ok then t'.pc.Finished? else t'.pc == BeginFail(order.Value(), tx)
      ensures ok ==> n == at + 4 && forall k :: at <= k < at + 4 ==> oracle(k).fault == NoFault
    {
      hide RunTask, Cancel, Register, CancelPlanned, Lookup, AfterPoll, Approve;
      OneStep(s0, first, oracle, at);
      if oracle(at).fault != NoFault {
        return false, at + 1, t.(pc := BeginFail(order.Value(), tx));
      }
      var changed := order.ChangeStatus(OrderProcessed);
      ghost var o := order.Value();
      if changed.Err? {
        return false, at + 1, t.(pc := BeginFail(o, tx));
      }
      assert Reached(s0, first, oracle, at + 1, t.(pc := SaveProcessed(o, tx, value)));
      OneStep(s0, first, oracle, at + 1);
      var saved := orders.Save(order, oracle(at + 1).fault);
      if saved.Err? {
        return false, at + 2, t.(pc := BeginFail(o, tx));
      }
      assert Reached(s0, first, oracle, at + 2, t.(pc := ApproveTx(o, tx, value)));
      OneStep(s0, first, oracle, at + 2);
      var approved := account.ApproveAtomically(tx, value, oracle(at + 2).fault);
      ghost var t3 := t.(approvals := t.approvals + 1);
      if approved.Err? {
        return false, at + 3, t3.(pc := BeginFail(o, tx));
      }
      assert Reached(s0, first, oracle, at + 3, t3.(pc := CommitSuccess(o, tx)));
      OneStep(s0, first, oracle, at + 3);
      if oracle(at + 3).fault != NoFault {
        return false, at + 4, t3.(pc := BeginFail(o, tx));
      }
      return true, at + 4, t3.(pc := Finished);
    }

    /** `processOrder`. With an unlimited number of attempts the code may poll forever, so the
        run is followed for at most `maxPolls` polls; `done` tells whether it has ended by
        then. Either way it has made exactly the first `n` steps of the task's run. Without
        faults it ends once a reply ends the polling, on the tables of the clean run. `waits`
        are the times waited after the polls, which begin with step 6. */
    method ProcessOrder(num: OrderNumber, allowProcessing: bool, oracle: Oracle, maxPolls: nat)
        returns (done: bool, n: nat, waits: seq<int>, ghost t: Task)
      requires Valid()
      modifies db
      ensures Reached(old(db.Contents()), NewTask(num, allowProcessing), oracle, n, t)
      ensures done ==> t.pc.Finished?
      ensures !done ==> t.pc.Poll? && n == maxPolls + 6 && |waits| == maxPolls
      ensures Waits(oracle, 6, waits)
      ensures forall polls: nat ::
                Admits(old(db.Contents()), num, allowProcessing) && CleanRun(oracle, polls) && polls < maxPolls ==>
                && done
                && db.Contents() == RunTask(old(db.Contents()), NewTask(num, allowProcessing), oracle, polls + 11).0
    {
      done, n, waits, t := FollowOrder(num, allowProcessing, oracle, maxPolls);
      forall polls: nat | Admits(old(db.Contents()), num, allowProcessing) && CleanRun(oracle, polls)
        ensures polls < maxPolls ==>
          done && db.Contents() == RunTask(old(db.Contents()), NewTask(num, allowProcessing), oracle, polls + 11).0
      {
        CleanRunEnds(old(db.Contents()), num, allowProcessing, oracle, polls, n);
      }
    }

    /** The code of `processOrder`. */
    method FollowOrder(num: OrderNumber, allowProcessing: bool, oracle: Oracle, maxPolls: nat)
        returns (done: bool, n: nat, waits: seq<int>, ghost t: Task)
      requires Valid()
      modifies db
      ensures Reached(old(db.Contents()), NewTask(num, allowProcessing), oracle, n, t)
      ensures done ==> t.pc.Finished?
      ensures !done ==> t.pc.Poll? && n == maxPolls + 6 && |waits| == maxPolls
      ensures Waits(oracle, 6, waits)
    {
      hide RunTask;
      ghost var s0, first := db.Contents(), NewTask(num, allowProcessing);
      var order;
      order, n, t := TouchOrder(num, allowProcessing, oracle);
      if order == null {
        return true, n, [], t;
      }
      OneStep(s0, first, oracle, n);
      var canceled := account.CancelPlannedTransactionsByOrder(order.user, order.num, oracle(n).fault);
      n := n + 1;
      if canceled.Err? {
        return true, n, [], t.(pc := Finished);
      }
      t := t.(pc := RegisterNew(order.Value()));
      assert Reached(s0, first, oracle, n, t);
      OneStep(s0, first, oracle, n);
      var registered := account.RegisterTransaction(order.user, order.num, 0.0, oracle(n).fault);
      n := n + 1;
      if registered.Err? {
        return true, n, [], t.(pc := Finished);
      }
      t := t.(pc := Poll(order.Value(), registered.value));
      assert Reached(s0, first, oracle, n, t);
      done, n, waits, t := PollUntilSettled(order, registered.value, oracle, n, maxPolls, s0, first, t);
    }

    /** The retry loop of `processOrder` and the failure after it. There is one wait after each
        reply that keeps the task polling; a cancelled one is the last. */
    method PollUntilSettled(order: Order, tx: TxId, oracle: Oracle, at: nat, maxPolls: nat,
                            ghost s0: Db, ghost first: Task, ghost t: Task)
        returns (done: bool, n: nat, waits: seq<int>, ghost t': Task)
      requires Valid() && Reached(s0, first, oracle, at, t) && t.pc == Poll(order.Value(), tx)
      modifies db, order
      ensures Reached(s0, first, oracle, n, t')
      ensures done ==> t'.pc.Finished?
      ensures !done ==> t'.pc.Poll? && n == at + maxPolls && |waits| == maxPolls
      ensures Waits(oracle, at, waits)
      ensures done ==> !KeepsPolling(oracle(at + |waits|).reply) || (waits != [] && oracle(at + |waits| - 1).cancelled)
    {
      hide RunTask, Waits, IsWait, WaitFor, TaskStep, AfterPoll;
      assert Waits(oracle, at, []) by {
        NoWaits(oracle, at);
      }
      n, waits, t' := at, [], t;
      var strategy := new AdaptiveStrategy(SECOND, 0);
      for polls := 0 to maxPolls
        invariant Reached(s0, first, oracle, n, t') && t'.pc == Poll(order.Value(), tx) && n == at + polls
        invariant strategy.baseDelay == SECOND && strategy.maxDelay == MAX_DELAY && fresh(strategy)
        invariant |waits| == polls && Waits(oracle, at, waits) && (polls > 0 ==> !oracle(n - 1).cancelled)
      {
        var input, err := oracle(n), None;
        err, n, t' := Attempt(order, tx, oracle, n, s0, first, t');
        if err.None? {
          return true, n, waits, t';
        }
        var again, wait := Pause(strategy, err.value, polls + 1, input.cancelled);
        if wait.Some? {
          WaitsMore(oracle, at, waits, err.value, wait.value);
          waits := waits + [wait.value];
        }
        if !again {
          n, t' := FailOrder(order, tx, oracle, n, s0, first, t');
          return true, n, waits, t';
        }
      }
      done := false;
    }

    /** One attempt: the closure that the retry loop calls. It returns no error if the run has
        ended. After a refused approval it goes on with the failure, and otherwise it has only
        read the reply. */
    method Attempt(order: Order, tx: TxId, oracle: Oracle, at: nat, ghost s0: Db, ghost first: Task, ghost t: Task)
        returns (err: Option<AttemptError>, n: nat, ghost t': Task)
      requires Valid() && Reached(s0, first, oracle, at, t) && t.pc == Poll(order.Value(), tx)
      modifies db, order
      ensures Reached(s0, first, oracle, n, t')
      ensures var reply, cancelled := oracle(at).reply, oracle(at).cancelled;
        if err.None? then t'.pc.Finished? && !KeepsPolling(reply)
        else if KeepsPolling(reply)
        then && err.value == (if reply.Failed? then reply.error else StillProcessing)
             && n == at + 1 && t'.pc == (if cancelled then BeginFail(order.Value(), tx) else Poll(order.Value(), tx))
        else err.value.OtherError? && t'.pc == BeginFail(order.Value(), tx)
      ensures var refused := err.Some? && Accepted(oracle(at).reply);
        err == AttemptOutcome(oracle(at), refused).error
      ensures oracle(at).reply.Replied? && oracle(at).reply.status in {AccrualInvalid, AccrualUnspecified} ==> err.None?
    {
      hide RunTask;
      var input := oracle(at);
      OneStep(s0, first, oracle, at);
      n, t' := at + 1, t.(pc := AfterPoll(order.Value(), tx, input.reply, input.cancelled));
      assert Reached(s0, first, oracle, n, t');
      match input.reply {
        case Failed(e) =>
          err := Some(e);
        case Replied(status, value) =>
          match status {
            case AccrualRegistered =>
              err := Some(StillProcessing);
            case AccrualProcessing =>
              err := Some(StillProcessing);
            case AccrualProcessed =>
              var ok;
              ok, n, t' := SuccessOrder(order, tx, value, oracle, n, s0, first, t');
              err := if ok then None else Some(OtherError);
            case _ =>
              n, t' := FailOrder(order, tx, oracle, n, s0, first, t');
              err := None;
          }
      }
    }

    /** What the repeater does after a failed attempt: it asks the strategy whether to go on, and
        if so waits, unless that is cancelled. */
    method Pause(strategy: AdaptiveStrategy, err: AttemptError, iter: pos, cancelled: bool)
        returns (again: bool, wait: Option<int>)
      requires strategy.baseDelay == SECOND && strategy.maxDelay == MAX_DELAY
      modifies strategy
      ensures again <==> !err.OtherError? && !cancelled
      ensures wait == if err.OtherError? then None else Some(WaitFor(SECOND, MAX_DELAY, err))
    {
      again := strategy.Retriable(err);
      if !again {
        return false, None;
      }
      var delay := strategy.Delay(iter);
      return !(delay > 0 && cancelled), Some(delay);
    }

    /** `RecoverPending`: every new or processing order, and no other, is either queued once as
        a task that may process it again, or dropped because the pool refused it. `adds` are the
        answers of the pool's `Add`. No table changes. */
    method RecoverPending(nums: seq<OrderNumber>, f: Fault, adds: nat -> Option<PoolProtocol.AddError>)
        returns (queued: seq<Task>, dropped: seq<OrderNumber>)
      requires Valid() && orders.StatusRows([OrderNew, OrderProcessing], nums)
      ensures f != NoFault ==> queued == [] && dropped == []
      ensures f == NoFault ==>
                && queued == QueuedTasks(nums, adds) && dropped == DroppedOrders(nums, adds)
                && SplitByPool(nums, adds, queued, dropped)
                && forall n: OrderNumber :: n in nums <==> Admits(db.Contents(), n, true)
    {
      hide SplitByPool, Admits;
      ListedAreAdmitted(nums);
      queued, dropped := [], [];
      var listed := orders.ListByStatuses([OrderNew, OrderProcessing], nums, f);
      if listed.Err? {
        return;
      }
      for k := 0 to |listed.value|
        invariant queued == QueuedTasks(nums[..k], adds) && dropped == DroppedOrders(nums[..k], adds)
      {
        assert nums[..k + 1][..k] == nums[..k];
        var task := Enqueue(listed.value[k].num, true, adds(k));
        if task.Some? {
          queued := queued + [task.value];
        } else {
          dropped := dropped + [listed.value[k].num];
        }
      }
      assert nums[..|nums|] == nums;
      EnqueueSplits(nums, adds);
    }

    /** The listed orders are those that the gate of recovery admits. */
    lemma ListedAreAdmitted(nums: seq<OrderNumber>)
      requires Valid() && orders.StatusRows([OrderNew, OrderProcessing], nums)
      ensures forall k, l :: 0 <= k < l < |nums| ==> nums[k] != nums[l]
      ensures forall n: OrderNumber :: n in nums <==> Admits(db.Contents(), n, true)
    {
    }

    /** `enqueue`: a new task, unless the pool refuses it; then there is only a log entry. */
    method Enqueue(num: OrderNumber, allowProcessing: bool, add: Option<PoolProtocol.AddError>)
        returns (task: Option<Task>)
      ensures task == if add.None? then Some(NewTask(num, allowProcessing)) else None
    {
      if add.Some? {
        return None;
      }
      return Some(NewTask(num, allowProcessing));
    }
  }

  // ----- waits -----

  /** The wait after a reply: what a rate limit asks for up to half a minute, and a second after
      everything else. Times are in nanoseconds. */
  predicate IsWait(reply: Reply, wait: int) {
    if reply.Failed? && reply.error.TooManyRequests? && reply.error.retryAfter > 0
    then wait == (if reply.error.retryAfter <= 30_000_000_000 then reply.error.retryAfter else 30_000_000_000)
    else wait == 1_000_000_000
  }

  /** The waits after the replies from step `at` on. Only the last one may be cancelled. */
  predicate Waits(oracle: Oracle, at: nat, waits: seq<int>) {
    forall j :: 0 <= j < |waits| ==>
      && IsWait(oracle(at + j).reply, waits[j]) && KeepsPolling(oracle(at + j).reply)
      && (j < |waits| - 1 ==> !oracle(at + j).cancelled)
  }

  lemma NoWaits(oracle: Oracle, at: nat)
    ensures Waits(oracle, at, [])
  {
  }

  lemma WaitsMore(oracle: Oracle, at: nat, waits: seq<int>, err: AttemptError, wait: int)
    requires Waits(oracle, at, waits) && (waits != [] ==> !oracle(at + |waits| - 1).cancelled)
    requires var reply := oracle(at + |waits|).reply;
      KeepsPolling(reply) && err == if reply.Failed? then reply.error else StillProcessing
    requires wait == WaitFor(SECOND, MAX_DELAY, err)
    ensures Waits(oracle, at, waits + [wait])
  {
    var more := waits + [wait];
    forall j | 0 <= j < |more|
      ensures IsWait(oracle(at + j).reply, more[j]) && KeepsPolling(oracle(at + j).reply)
      ensures j < |more| - 1 ==> !oracle(at + j).cancelled
    {
      if j < |waits| {
        assert more[j] == waits[j];
      }
    }
  }

  // ----- recovery -----

  function QueuedTasks(nums: seq<OrderNumber>, adds: nat -> Option<PoolProtocol.AddError>): seq<Task> {
    if nums == [] then []
    else
      var n := |nums| - 1;
      QueuedTasks(nums[..n], adds) + (if adds(n).None? then [NewTask(nums[n], true)] else [])
  }

  function DroppedOrders(nums: seq<OrderNumber>, adds: nat -> Option<PoolProtocol.AddError>): seq<OrderNumber> {
    if nums == [] then []
    else
      var n := |nums| - 1;
      DroppedOrders(nums[..n], adds) + (if adds(n).Some? then [nums[n]] else [])
  }

  /** Each order is queued exactly if the pool accepts it and dropped exactly if not, once each,
      and nothing else is queued or dropped. */
  ghost predicate SplitByPool(nums: seq<OrderNumber>, adds: nat -> Option<PoolProtocol.AddError>,
                              queued: seq<Task>, dropped: seq<OrderNumber>) {
    && |queued| + |dropped| == |nums|
    && (forall k :: 0 <= k < |nums| ==>
          if adds(k).None? then NewTask(nums[k], true) in queued else nums[k] in dropped)
    && (forall t :: t in queued ==> t == NewTask(t.num, true) && t.num in nums && t.num !in dropped)
    && (forall num :: num in dropped ==> num in nums)
    && (forall k, l :: 0 <= k < l < |queued| ==> queued[k] != queued[l])
    && (forall k, l :: 0 <= k < l < |dropped| ==> dropped[k] != dropped[l])
  }

  lemma {:induction false} EnqueueSplits(nums: seq<OrderNumber>, adds: nat -> Option<PoolProtocol.AddError>)
    requires forall k, l :: 0 <= k < l < |nums| ==> nums[k] != nums[l]
    ensures SplitByPool(nums, adds, QueuedTasks(nums, adds), DroppedOrders(nums, adds))
  {
    if nums != [] {
      var n := |nums| - 1;
      EnqueueSplits(nums[..n], adds);
      assert nums[n] !in nums[..n];
    }
  }

  // ----- the retry loop -----

  /** What one attempt of `processOrder` returns to the repeater for a reply; `refused` tells
      whether `SuccessOrder` failed. */
  function AttemptOutcome(input: Input, refused: bool): Outcome<(), AttemptError> {
    var error := match input.reply
      case Failed(e) => Some(e)
      case Replied(status, _) =>
        match status
        case AccrualRegistered | AccrualProcessing => Some(StillProcessing)
        case AccrualProcessed => if refused then Some(OtherError) else None
        case _ => None;
    Outcome((), error, input.cancelled)
  }

  /** The outcomes of the first `n` attempts. */
  function Attempts(oracle: Oracle, refused: bool, n: nat): (outcomes: seq<Outcome<(), AttemptError>>)
    ensures |outcomes| == n
    ensures forall k :: 0 <= k < n ==> outcomes[k] == AttemptOutcome(oracle(k), refused)
  {
    seq(n, (k: nat) => AttemptOutcome(oracle(k), refused))
  }

  /** A task polls again exactly where the repeater, with the unlimited adaptive strategy that
      `processOrder` uses, retries. */
  lemma PollsAsRepeaterRetries(o: OrderValue, tx: TxId, oracle: Oracle, refused: bool, n: nat, k: nat)
    requires k < n
    ensures Retried(AdaptiveStrategyOf(SECOND, MAX_DELAY, 0), 0, Attempts(oracle, refused, n), k)
       <==> AfterPoll(o, tx, oracle(k).reply, oracle(k).cancelled).Poll?
  {
    ProcessOrderRetries(Attempts(oracle, refused, n), k);
  }

  /** The polling phase of a run is the repeater's loop: the task makes exactly the calls that
      the repeater makes, changing no table, and then leaves for the success path if the last
      call found the order processed and for the failure path otherwise. It is still polling
      after `n` steps exactly when the repeater is still running after `n` outcomes, and the
      attempts are never used up. */
  lemma PollingIsRepeat(s: Db, t: Task, oracle: Oracle, refused: bool, n: nat, calls: nat, end: End<(), AttemptError>)
    requires t.pc.Poll?
    requires Stops(AdaptiveStrategyOf(SECOND, MAX_DELAY, 0), 0, Attempts(oracle, refused, n), calls, end)
    ensures forall k :: 0 <= k < calls ==> RunTask(s, t, oracle, k) == (s, t)
    ensures !end.Running? ==>
      var reply := oracle(calls - 1).reply;
      RunTask(s, t, oracle, calls) == (s, t.(pc :=
        if Accepted(reply) then BeginSuccess(t.pc.o, t.pc.tx, reply.value) else BeginFail(t.pc.o, t.pc.tx)))
    ensures end.Running? <==> RunTask(s, t, oracle, n).1.pc.Poll?
    ensures !end.Running? ==>
      var (reply, cancelled) := (oracle(calls - 1).reply, oracle(calls - 1).cancelled);
      && (end.Cancelled? <==> KeepsPolling(reply) && cancelled)
      && (end.Succeeded? <==> reply.Replied? && (reply.status in {AccrualInvalid, AccrualUnspecified}
                                                 || (reply.status == AccrualProcessed && !refused)))
      && (end.NotRetriable? <==> reply == Failed(OtherError) || (Accepted(reply) && refused))
      && (end.NotRetriable? ==> end.error == OtherError)
    ensures !end.AttemptsUsed?
  {
    hide RunTask;
    StopsMeaning(AdaptiveStrategyOf(SECOND, MAX_DELAY, 0), 0, Attempts(oracle, refused, n), calls, end);
    if !end.Running? {
      ProcessOrderRetries(Attempts(oracle, refused, n), calls - 1);
    }
    var polls := if end.Running? then calls else calls - 1;
    forall k | 0 <= k < n
      ensures Retried(AdaptiveStrategyOf(SECOND, MAX_DELAY, 0), 0, Attempts(oracle, refused, n), k)
         <==> AfterPoll(t.pc.o, t.pc.tx, oracle(k).reply, oracle(k).cancelled).Poll?
    {
      PollsAsRepeaterRetries(t.pc.o, t.pc.tx, oracle, refused, n, k);
    }
    forall k | 0 <= k <= polls ensures RunTask(s, t, oracle, k) == (s, t) {
      PollPhase(s, t, oracle, k);
    }
    if !end.Running? {
      LastPoll(s, t, oracle, calls - 1);
      var (s1, t1) := RunTask(s, t, oracle, calls);
      RunTaskConcat(s, t, oracle, calls, n - calls);
      PastPollingStays(s1, t1, Shift(oracle, calls), n - calls);
    }
  }

  /** The poll that does not lead to another one. */
  lemma LastPoll(s: Db, t: Task, oracle: Oracle, k: nat)
    requires t.pc.Poll? && RunTask(s, t, oracle, k) == (s, t)
    requires !AfterPoll(t.pc.o, t.pc.tx, oracle(k).reply, oracle(k).cancelled).Poll?
    ensures var reply := oracle(k).reply;
      RunTask(s, t, oracle, k + 1) == (s, t.(pc :=
        if Accepted(reply) then BeginSuccess(t.pc.o, t.pc.tx, reply.value) else BeginFail(t.pc.o, t.pc.tx)))
  {
  }
}

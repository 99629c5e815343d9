/** Uninterrupted runs of `processOrder`: what one fault-free run of a pending order achieves
    and why running the order again changes nothing. */
module Recovery {
  import opened Money
  import opened Domain
  import opened Database
  import opened Adaptive
  import opened Protocol
  import opened SerializedRuns
  import opened Views

  /** What the environment answers at each step of a run. */
  type Oracle = nat -> Input

  /** The first `n` steps of a task that runs alone. */
  function RunTask(s: Db, t: Task, oracle: Oracle, n: nat): (Db, Task) {
    if n == 0 then (s, t)
    else
      var (s', t') := RunTask(s, t, oracle, n - 1);
      TaskStep(s', t', oracle(n - 1))
  }

  /** One step of a run, spelled out. */
  lemma OneStep(s: Db, t: Task, oracle: Oracle, n: nat)
    ensures var (s', t') := RunTask(s, t, oracle, n);
      RunTask(s, t, oracle, n + 1) == TaskStep(s', t', oracle(n))
  {
    hide TaskStep;
  }

  function Shift(oracle: Oracle, m: nat): Oracle {
    (k: nat) => oracle(m + k)
  }

  lemma {:induction false} RunTaskConcat(s: Db, t: Task, oracle: Oracle, m: nat, n: nat)
    ensures var (s', t') := RunTask(s, t, oracle, m);
      RunTask(s, t, oracle, m + n) == RunTask(s', t', Shift(oracle, m), n)
  {
    hide TaskStep;
    if n > 0 {
      RunTaskConcat(s, t, oracle, m, n - 1);
    }
  }

  predicate FaultFree(input: Input) {
    input.fault == NoFault && !input.cancelled
  }

  /** A reply after which the task polls again. */
  predicate KeepsPolling(reply: Reply) {
    match reply
    case Failed(e) => IsRetriable(e)
    case Replied(status, _) => status == AccrualRegistered || status == AccrualProcessing
  }

  // ----- an order that needs no work -----

  /** The gate of `touchOrder`. */
  predicate Admits(s: Db, num: OrderNumber, allowProcessing: bool) {
    num in s.orders &&
    (s.orders[num].status == OrderNew || (allowProcessing && s.orders[num].status == OrderProcessing))
  }

  /** A run the gate refuses touches no table, whatever the environment does. */
  lemma {:induction false} RefusedRunChangesNothing(s: Db, num: OrderNumber, allow: bool, oracle: Oracle, n: nat)
    requires !Admits(s, num, allow)
    ensures var (s', t') := RunTask(s, NewTask(num, allow), oracle, n);
      s' == s && t'.num == num && t'.allowProcessing == allow
      && (t'.pc.Finished? || (t'.pc.BeginTouch? && n == 0) || (t'.pc.FindOrder? && n == 1))
  {
    if n > 0 {
      RefusedRunChangesNothing(s, num, allow, oracle, n - 1);
    }
  }

  // ----- the three phases of a fault-free run -----

  /** The tables once the order is Processing and its only planned row is the fresh one. */
  function Prepared(s: Db, num: OrderNumber): Db
    requires num in s.orders
  {
    var user := s.orders[num].user;
    Db(s.orders[num := OrderRow(user, OrderProcessing)],
       CanceledRows(s, user, num) + [TxRow(user, num, 0, 0, TxPlanned)],
       s.accounts)
  }

  function Claimed(s: Db, num: OrderNumber): OrderValue
    requires num in s.orders
  {
    OrderValue(s.orders[num].user, num, OrderProcessing)
  }

  /** Where a run of a pending order is after `n` steps that no fault has hit. */
  function ClaimPc(s: Db, num: OrderNumber, n: nat): TaskPc
    requires num in s.orders
  {
    var o := Claimed(s, num);
    match n
    case 0 => BeginTouch
    case 1 => FindOrder
    case 2 => SaveProcessing(o)
    case 3 => CommitTouch(o)
    case 4 => CancelOld(o)
    case 5 => RegisterNew(o)
    case _ => Poll(o, |s.txs|)
  }

  /** The tables at that point. */
  function ClaimDb(s: Db, num: OrderNumber, n: nat): Db
    requires num in s.orders
  {
    if n <= 2 then s
    else if n <= 4 then s.(orders := Prepared(s, num).orders)
    else if n == 5 then s.(orders := Prepared(s, num).orders, txs := CanceledRows(s, s.orders[num].user, num))
    else Prepared(s, num)
  }

  lemma {:induction false} ClaimSteps(s: Db, num: OrderNumber, allow: bool, oracle: Oracle, n: nat)
    requires Admits(s, num, allow) && n <= 6
    requires forall k :: 0 <= k < n ==> oracle(k).fault == NoFault
    ensures RunTask(s, NewTask(num, allow), oracle, n)
         == (ClaimDb(s, num, n), Task(num, allow, ClaimPc(s, num, n), 0, 0))
  {
    hide Approve, Cancel;
    if n > 0 {
      ClaimSteps(s, num, allow, oracle, n - 1);
      assert CanceledRows(s.(orders := Prepared(s, num).orders), s.orders[num].user, num)
          == CanceledRows(s, s.orders[num].user, num);
      RoundExact(0);
    }
  }

  lemma PreparePhase(s: Db, num: OrderNumber, allow: bool, oracle: Oracle)
    requires Admits(s, num, allow)
    requires forall k :: 0 <= k < 6 ==> oracle(k).fault == NoFault
    ensures RunTask(s, NewTask(num, allow), oracle, 6)
         == (Prepared(s, num), Task(num, allow, Poll(Claimed(s, num), |s.txs|), 0, 0))
  {
    hide TaskStep, RunTask;
    ClaimSteps(s, num, allow, oracle, 6);
  }

  lemma {:induction false} PollPhase(s: Db, t: Task, oracle: Oracle, n: nat)
    requires t.pc.Poll?
    requires forall k :: 0 <= k < n ==> KeepsPolling(oracle(k).reply) && !oracle(k).cancelled
    ensures RunTask(s, t, oracle, n) == (s, t)
  {
    if n > 0 {
      PollPhase(s, t, oracle, n - 1);
    }
  }

  /** Where an attempt leads, reply by reply. A failure other than `OtherError` is polled again
      unless its wait is cancelled, and so is an order that is registered or still processing. */
  lemma AfterPollExactly(o: OrderValue, tx: TxId, input: Input)
    ensures var next := AfterPoll(o, tx, input.reply, input.cancelled);
      && (next == Poll(o, tx) <==> StaysPending(input))
      && (next == BeginFail(o, tx) <==> !StaysPending(input) && (input.reply.Replied? ==>
            input.reply.status != AccrualProcessed))
      && (input.reply.Replied? && input.reply.status == AccrualProcessed <==> next.BeginSuccess?)
      && (next.BeginSuccess? ==> next == BeginSuccess(o, tx, input.reply.value))
      && (StaysPending(input) <==> KeepsPolling(input.reply) && !input.cancelled)
  {
  }

  predicate StaysPending(input: Input) {
    && !input.cancelled
    && (input.reply.Failed? ==> !input.reply.error.OtherError?)
    && (input.reply.Replied? ==> input.reply.status in {AccrualRegistered, AccrualProcessing})
  }

  /** A run that no fault hits before its polls polls for the next time after `n` polls exactly
      if all `n` answers were such, and then its order is processing. */
  lemma {:induction false} PollsOnExactly(s: Db, num: OrderNumber, allow: bool, oracle: Oracle, n: nat)
    requires Admits(s, num, allow)
    requires forall k :: 0 <= k < 6 ==> oracle(k).fault == NoFault
    ensures var (s', t') := RunTask(s, NewTask(num, allow), oracle, 6 + n);
      && (t'.pc.Poll? <==> forall k :: 6 <= k < 6 + n ==> StaysPending(oracle(k)))
      && (t'.pc.Poll? ==> s' == Prepared(s, num) && t'.pc.o.num == num && t'.pc.tx == |s.txs|)
      && (t'.pc.Poll? ==> s'.orders == s.orders[num := OrderRow(s.orders[num].user, OrderProcessing)])
      && (!t'.pc.Poll? ==> PastPolling(t'.pc))
  {
    hide TaskStep, RunTask, StaysPending, AfterPoll;
    if n == 0 {
      PreparePhase(s, num, allow, oracle);
    } else {
      PollsOnExactly(s, num, allow, oracle, n - 1);
      var (s1, t1) := RunTask(s, NewTask(num, allow), oracle, 5 + n);
      OneStep(s, NewTask(num, allow), oracle, 5 + n);
      if t1.pc.Poll? {
        PollsOnce(s1, t1, oracle(5 + n));
      } else {
        PastPollingStep(s1, t1, oracle(5 + n));
      }
    }
  }

  lemma PollsOnce(s: Db, t: Task, input: Input)
    requires t.pc.Poll?
    ensures var (s', t') := TaskStep(s, t, input);
      if StaysPending(input) then s' == s && t' == t else PastPolling(t'.pc)
  {
    hide Register, Approve, Cancel, CancelPlanned, Save, Lookup;
    AfterPollExactly(t.pc.o, t.pc.tx, input);
  }

  lemma PastPollingStep(s: Db, t: Task, input: Input)
    requires PastPolling(t.pc)
    ensures PastPolling(TaskStep(s, t, input).1.pc)
  {
    hide Register, CancelPlanned, Lookup;
  }

  /** The positive amount of points a reply grants; 0 for every other reply. */
  function Granted(reply: Reply): (credit: int)
    ensures credit >= 0
  {
    if reply.Replied? && reply.status == AccrualProcessed && reply.value > 0.0 then RoundCents(reply.value) else 0
  }

  /** The grant does not fit the amount column or the balance column. */
  predicate Overflows(s: Db, user: UserId, reply: Reply) {
    && reply.Replied? && reply.status == AccrualProcessed && reply.value > 0.0
    && (!Fits(Granted(reply)) || !Fits(Balance(s, user) + Granted(reply)))
  }

  predicate Accepted(reply: Reply) {
    reply.Replied? && reply.status == AccrualProcessed
  }

  /** What the task's own transaction becomes. */
  function Settled(s: Db, r: TxRow, reply: Reply): TxRow {
    if !Accepted(reply) then r.(status := TxCanceled)
    else if Overflows(s, r.user, reply) then r
    else if reply.value > 0.0 then r.(status := TxProcessed, accrual := Granted(reply))
    else r.(status := TxProcessed)
  }

  /** The tables after the reply that ends the polling, for a task whose transaction is `tx`. */
  ghost predicate SettledAs(s: Db, s': Db, o: OrderValue, tx: TxId, reply: Reply)
    requires tx < |s.txs|
  {
    && s'.orders == s.orders[o.num := OrderRow(o.user, if Accepted(reply) then OrderProcessed else OrderInvalid)]
    && s'.txs == s.txs[tx := Settled(s, s.txs[tx], reply)]
    && (forall u: UserId :: Balance(s', u) ==
          if u == o.user && !Overflows(s, o.user, reply) then Balance(s, u) + Granted(reply) else Balance(s, u))
  }

  lemma SettlePhase(s: Db, t: Task, oracle: Oracle)
    requires t.pc.Poll? && t.pc.o.status == OrderProcessing && t.pc.tx < |s.txs|
    requires t.pc.o.num in s.orders && s.orders[t.pc.o.num].user == t.pc.o.user
    requires s.txs[t.pc.tx].user == t.pc.o.user && s.txs[t.pc.tx].withdraw == 0
    requires forall k :: 0 <= k < 5 ==> FaultFree(oracle(k))
    requires !KeepsPolling(oracle(0).reply)
    ensures var (s', t') := RunTask(s, t, oracle, 5);
      t'.pc.Finished? && SettledAs(s, s', t.pc.o, t.pc.tx, oracle(0).reply)
  {
    if Accepted(oracle(0).reply) {
      SettleAccepted(s, t, oracle);
    } else {
      SettleRefused(s, t, oracle);
    }
  }

  lemma SettleRefused(s: Db, t: Task, oracle: Oracle)
    requires t.pc.Poll? && t.pc.o.status == OrderProcessing && t.pc.tx < |s.txs|
    requires t.pc.o.num in s.orders && s.orders[t.pc.o.num].user == t.pc.o.user
    requires forall k :: 0 <= k < 5 ==> FaultFree(oracle(k))
    requires !KeepsPolling(oracle(0).reply) && !Accepted(oracle(0).reply)
    ensures var (s', t') := RunTask(s, t, oracle, 5);
      t'.pc.Finished? && SettledAs(s, s', t.pc.o, t.pc.tx, oracle(0).reply)
  {
    var o, tx := t.pc.o, t.pc.tx;
    var o' := o.(status := OrderInvalid);
    var s1 := s.(orders := s.orders[o.num := OrderRow(o.user, OrderInvalid)]);
    var s2 := s1.(txs := s.txs[tx := s.txs[tx].(status := TxCanceled)]);
    assert RunTask(s, t, oracle, 0) == (s, t);
    assert RunTask(s, t, oracle, 1) == (s, t.(pc := BeginFail(o, tx)));
    assert RunTask(s, t, oracle, 2) == (s, t.(pc := SaveInvalid(o', tx)));
    assert RunTask(s, t, oracle, 3) == (s1, t.(pc := CancelTx(o', tx)));
    assert RunTask(s, t, oracle, 4) == (s2, t.(pc := CommitFail(o', tx), cancels := t.cancels + 1));
    assert RunTask(s, t, oracle, 5).0 == s2;
  }

  lemma SettleAccepted(s: Db, t: Task, oracle: Oracle)
    requires t.pc.Poll? && t.pc.o.status == OrderProcessing && t.pc.tx < |s.txs|
    requires t.pc.o.num in s.orders && s.orders[t.pc.o.num].user == t.pc.o.user
    requires s.txs[t.pc.tx].user == t.pc.o.user && s.txs[t.pc.tx].withdraw == 0
    requires forall k :: 0 <= k < 5 ==> FaultFree(oracle(k))
    requires Accepted(oracle(0).reply)
    ensures var (s', t') := RunTask(s, t, oracle, 5);
      t'.pc.Finished? && SettledAs(s, s', t.pc.o, t.pc.tx, oracle(0).reply)
  {
    hide Register, Cancel, CancelPlanned, Lookup;
    var o, tx, v := t.pc.o, t.pc.tx, oracle(0).reply.value;
    var o' := o.(status := OrderProcessed);
    var s1 := s.(orders := s.orders[o.num := OrderRow(o.user, OrderProcessed)]);
    assert RunTask(s, t, oracle, 0) == (s, t);
    assert RunTask(s, t, oracle, 1) == (s, t.(pc := BeginSuccess(o, tx, v)));
    assert RunTask(s, t, oracle, 2) == (s, t.(pc := SaveProcessed(o', tx, v)));
    assert RunTask(s, t, oracle, 3) == (s1, t.(pc := ApproveTx(o', tx, v)));
    var (s2, r) := Approved(s1, tx, v);
    assert RunTask(s, t, oracle, 4)
        == (s2, t.(pc := if r.Ok? then CommitSuccess(o', tx) else BeginFail(o', tx), approvals := t.approvals + 1));
    assert RunTask(s, t, oracle, 5).0 == s2;
    assert s.txs[tx := s.txs[tx]] == s.txs;
  }

  // ----- main results -----

  predicate PlannedFor(r: TxRow, user: UserId, num: OrderNumber) {
    r.user == user && r.num == num && r.status == TxPlanned
  }

  predicate NonePlanned(s: Db, user: UserId, num: OrderNumber) {
    forall i :: 0 <= i < |s.txs| ==> !PlannedFor(s.txs[i], user, num)
  }

  /** The environment of a fault-free run: `polls` replies that keep the task polling, then
      one that does not. */
  ghost predicate CleanRun(oracle: Oracle, polls: nat) {
    && (forall k :: 0 <= k < polls + 11 ==> FaultFree(oracle(k)))
    && (forall k :: 6 <= k < 6 + polls ==> KeepsPolling(oracle(k).reply))
    && !KeepsPolling(oracle(6 + polls).reply)
  }

  function FinalReply(oracle: Oracle, polls: nat): Reply {
    oracle(6 + polls).reply
  }

  /** Polling any finite number of times and then settling. */
  lemma PollThenSettle(s: Db, t: Task, oracle: Oracle, polls: nat)
    requires t.pc.Poll? && t.pc.o.status == OrderProcessing && t.pc.tx < |s.txs|
    requires t.pc.o.num in s.orders && s.orders[t.pc.o.num].user == t.pc.o.user
    requires s.txs[t.pc.tx].user == t.pc.o.user && s.txs[t.pc.tx].withdraw == 0
    requires forall k :: 0 <= k < polls + 5 ==> FaultFree(oracle(k))
    requires forall k :: 0 <= k < polls ==> KeepsPolling(oracle(k).reply)
    requires !KeepsPolling(oracle(polls).reply)
    ensures var (s', t') := RunTask(s, t, oracle, polls + 5);
      t'.pc.Finished? && SettledAs(s, s', t.pc.o, t.pc.tx, oracle(polls).reply)
  {
    hide TaskStep, RunTask, SettledAs, KeepsPolling;
    PollPhase(s, t, oracle, polls);
    RunTaskConcat(s, t, oracle, polls, 5);
    SettlePhase(s, t, Shift(oracle, polls));
  }

  /** The three phases put together. */
  lemma CleanRunSettles(s: Db, num: OrderNumber, allow: bool, oracle: Oracle, polls: nat)
    requires Admits(s, num, allow)
    requires CleanRun(oracle, polls)
    ensures var (s', t') := RunTask(s, NewTask(num, allow), oracle, polls + 11);
      t'.pc.Finished? && SettledAs(Prepared(s, num), s', Claimed(s, num), |s.txs|, FinalReply(oracle, polls))
  {
    hide TaskStep, RunTask, SettledAs, KeepsPolling;
    PreparePhase(s, num, allow, oracle);
    var t1 := Task(num, allow, Poll(Claimed(s, num), |s.txs|), 0, 0);
    PollThenSettle(Prepared(s, num), t1, Shift(oracle, 6), polls);
    RunTaskConcat(s, NewTask(num, allow), oracle, 6, polls + 5);
  }

  lemma {:induction false} FinishedStays(s: Db, t: Task, oracle: Oracle, n: nat)
    requires t.pc.Finished?
    ensures RunTask(s, t, oracle, n) == (s, t)
  {
    if n > 0 {
      FinishedStays(s, t, oracle, n - 1);
    }
  }

  /** The task has left the retry loop. */
  predicate PastPolling(pc: TaskPc) {
    || pc.BeginSuccess? || pc.SaveProcessed? || pc.ApproveTx? || pc.CommitSuccess?
    || pc.BeginFail? || pc.SaveInvalid? || pc.CancelTx? || pc.CommitFail? || pc.Finished?
  }

  lemma {:induction false} PastPollingStays(s: Db, t: Task, oracle: Oracle, n: nat)
    requires PastPolling(t.pc)
    ensures PastPolling(RunTask(s, t, oracle, n).1.pc)
  {
    hide TaskStep, PastPolling;
    if n > 0 {
      PastPollingStays(s, t, oracle, n - 1);
      PastPollingStep(RunTask(s, t, oracle, n - 1).0, RunTask(s, t, oracle, n - 1).1, oracle(n - 1));
    }
  }

  /** A clean run leaves the retry loop after its last poll, and wherever it is found finished
      the tables are those it settles on. */
  lemma CleanRunEnds(s: Db, num: OrderNumber, allow: bool, oracle: Oracle, polls: nat, n: nat)
    requires Admits(s, num, allow)
    requires CleanRun(oracle, polls)
    ensures var (s', t') := RunTask(s, NewTask(num, allow), oracle, n);
      && (t'.pc.Finished? ==> s' == RunTask(s, NewTask(num, allow), oracle, polls + 11).0)
      && (n > polls + 6 ==> !t'.pc.Poll?)
  {
    hide RunTask, SettledAs, FaultFree, KeepsPolling;
    var t := NewTask(num, allow);
    var (s', t') := RunTask(s, t, oracle, n);
    CleanRunSettles(s, num, allow, oracle, polls);
    var (s2, t2) := RunTask(s, t, oracle, polls + 11);
    if n >= polls + 11 {
      RunTaskConcat(s, t, oracle, polls + 11, n - (polls + 11));
      FinishedStays(s2, t2, Shift(oracle, polls + 11), n - (polls + 11));
    } else if t'.pc.Finished? {
      RunTaskConcat(s, t, oracle, n, polls + 11 - n);
      FinishedStays(s', t', Shift(oracle, n), polls + 11 - n);
    } else if n > polls + 6 {
      LeavesLoop(s, num, allow, oracle, polls);
      var (s1, t1) := RunTask(s, t, oracle, polls + 7);
      RunTaskConcat(s, t, oracle, polls + 7, n - (polls + 7));
      PastPollingStays(s1, t1, Shift(oracle, polls + 7), n - (polls + 7));
    }
  }

  lemma LeavesLoop(s: Db, num: OrderNumber, allow: bool, oracle: Oracle, polls: nat)
    requires Admits(s, num, allow)
    requires CleanRun(oracle, polls)
    ensures PastPolling(RunTask(s, NewTask(num, allow), oracle, polls + 7).1.pc)
  {
    hide TaskStep, RunTask, AfterPoll;
    PollsOnExactly(s, num, allow, oracle, polls + 1);
    AfterPollExactly(Claimed(s, num), |s.txs|, oracle(6 + polls));
    assert !StaysPending(oracle(6 + polls));
  }

  lemma PlannedAfterwards(s: Db, s': Db, num: OrderNumber, reply: Reply)
    requires num in s.orders
    requires SettledAs(Prepared(s, num), s', Claimed(s, num), |s.txs|, reply)
    ensures NonePlanned(s', s.orders[num].user, num) <==> !Overflows(s, s.orders[num].user, reply)
  {
    var user := s.orders[num].user;
    var rows := Prepared(s, num).txs;
    forall i | 0 <= i < |s.txs| ensures !PlannedFor(s'.txs[i], user, num) {
      assert s'.txs[i] == rows[i] == CanceledIfPlanned(s.txs[i], user, num);
    }
    assert s'.txs[|s.txs|] == Settled(Prepared(s, num), rows[|s.txs|], reply);
    assert Balance(Prepared(s, num), user) == Balance(s, user);
    if Overflows(s, user, reply) {
      assert PlannedFor(s'.txs[|s.txs|], user, num);
    }
  }

  /** One fault-free run of a pending order, after any finite number of replies that keep it
      polling, ends with the order terminal and the balance risen by exactly the grant. A
      planned row is left exactly when the grant overflows, and then nothing is granted. */
  lemma RecoveryConverges(s: Db, num: OrderNumber, allow: bool, oracle: Oracle, polls: nat)
    requires Admits(s, num, allow)
    requires CleanRun(oracle, polls)
    ensures var (s', t') := RunTask(s, NewTask(num, allow), oracle, polls + 11);
      var user, reply := s.orders[num].user, FinalReply(oracle, polls);
      && t'.pc.Finished?
      && s'.orders == s.orders[num := OrderRow(user, if Accepted(reply) then OrderProcessed else OrderInvalid)]
      && (forall u: UserId :: Balance(s', u) ==
            if u == user && !Overflows(s, user, reply) then Balance(s, u) + Granted(reply) else Balance(s, u))
      && (NonePlanned(s', user, num) <==> !Overflows(s, user, reply))
  {
    hide TaskStep;
    CleanRunSettles(s, num, allow, oracle, polls);
    var s' := RunTask(s, NewTask(num, allow), oracle, polls + 11).0;
    forall u: UserId ensures Balance(Prepared(s, num), u) == Balance(s, u) {}
    PlannedAfterwards(s, s', num, FinalReply(oracle, polls));
  }

  /** The first amount that the columns cannot hold. */
  const TOO_MUCH: real := CENTS_LIMIT as real / 100.0

  /** For instance a grant of `TOO_MUCH` overflows for every user: the run ends with the order
      processed, every balance as it was and the planned row left behind. */
  lemma OverflowGrantsNothing(s: Db, num: OrderNumber, allow: bool, oracle: Oracle, polls: nat)
    requires Admits(s, num, allow)
    requires CleanRun(oracle, polls) && FinalReply(oracle, polls) == Replied(AccrualProcessed, TOO_MUCH)
    ensures var (s', t') := RunTask(s, NewTask(num, allow), oracle, polls + 11);
      && t'.pc.Finished? && s'.orders == s.orders[num := OrderRow(s.orders[num].user, OrderProcessed)]
      && (forall u: UserId :: Balance(s', u) == Balance(s, u))
      && !NonePlanned(s', s.orders[num].user, num)
  {
    hide TaskStep, RunTask;
    RoundExact(CENTS_LIMIT);
    RecoveryConverges(s, num, allow, oracle, polls);
  }

  /** After such a run the order is terminal, and no later run of it changes any table. */
  lemma SecondRunChangesNothing(s: Db, num: OrderNumber, allow: bool, oracle: Oracle, polls: nat,
                                again: bool, oracle': Oracle, n: nat)
    requires Admits(s, num, allow)
    requires CleanRun(oracle, polls)
    ensures var s' := RunTask(s, NewTask(num, allow), oracle, polls + 11).0;
      RunTask(s', NewTask(num, again), oracle', n).0 == s'
  {
    hide TaskStep;
    RecoveryConverges(s, num, allow, oracle, polls);
    RefusedRunChangesNothing(RunTask(s, NewTask(num, allow), oracle, polls + 11).0, num, again, oracle', n);
  }

  /** A reply that processes the order but grants nothing leaves the user's whole list of
      orders failing, if the order had no credit before. */
  lemma EmptyGrantBreaksList(s: Db, num: OrderNumber, allow: bool, oracle: Oracle, polls: nat, rows: seq<ListedOrder>)
    requires Admits(s, num, allow)
    requires CleanRun(oracle, polls)
    requires NoCredit(s, num) && Accepted(FinalReply(oracle, polls)) && Granted(FinalReply(oracle, polls)) == 0
    requires UserRows(RunTask(s, NewTask(num, allow), oracle, polls + 11).0, s.orders[num].user, rows)
    ensures ListOrders(rows) == Err(AccrualMissing)
  {
    hide TaskStep;
    CleanRunSettles(s, num, allow, oracle, polls);
    var s', user := RunTask(s, NewTask(num, allow), oracle, polls + 11).0, s.orders[num].user;
    var rows' := Prepared(s, num).txs;
    assert s'.txs[|s.txs|] == Settled(Prepared(s, num), rows'[|s.txs|], FinalReply(oracle, polls));
    forall i | 0 <= i < |s'.txs| ensures !CreditFor(s'.txs[i], user, num) {
      if i < |s.txs| {
        assert s'.txs[i] == rows'[i] == CanceledIfPlanned(s.txs[i], user, num);
      }
    }
    ListSucceedsExactly(s', user, rows);
  }
}

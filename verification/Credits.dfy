/** Exactly when a run of a pending order credits it, and exactly when it saves which terminal
    status, for every fault and every point at which the run may stop. */
module Credits {
  import opened Money
  import opened Domain
  import opened Database
  import opened Ledger
  import opened Protocol
  import opened FreeRuns
  import opened SerializedRuns
  import opened Recovery

  // ----- the conditions, on what the environment answers from the final reply on -----

  /** The approval is reached and takes effect within `m` steps, and grants points that fit. */
  predicate Credits(s: Db, user: UserId, oracle: Oracle, m: nat) {
    && m >= 4 && Granted(oracle(0).reply) > 0 && !Overflows(s, user, oracle(0).reply)
    && oracle(1).fault == NoFault && oracle(2).fault == NoFault && oracle(3).fault != FailsBefore
  }

  /** The approval takes effect within `m` steps, whether it grants something or not. */
  predicate Approves(s: Db, user: UserId, oracle: Oracle, m: nat) {
    && m >= 4 && Accepted(oracle(0).reply) && !Overflows(s, user, oracle(0).reply)
    && oracle(1).fault == NoFault && oracle(2).fault == NoFault && oracle(3).fault != FailsBefore
  }

  /** The row is canceled within `m` steps: once the failure path, which begins at step `b`, has
      saved the status without an error. */
  predicate CancelsRow(oracle: Oracle, m: nat) {
    var b := if Accepted(oracle(0).reply) then 2 else 1;
    && (Accepted(oracle(0).reply) ==> oracle(1).fault != NoFault)
    && m >= b + 3 && oracle(b).fault == NoFault && oracle(b + 1).fault == NoFault && oracle(b + 2).fault != FailsBefore
  }

  /** The processed status is saved within `m` steps, even if the save reports an error. */
  predicate SavesProcessedStatus(oracle: Oracle, m: nat) {
    Accepted(oracle(0).reply) && m >= 3 && oracle(1).fault == NoFault && oracle(2).fault != FailsBefore
  }

  /** The invalid status is saved: after a refusal, or when the success could not begin. */
  predicate SavesInvalidStatus(oracle: Oracle, m: nat) {
    if Accepted(oracle(0).reply)
    then m >= 4 && oracle(1).fault != NoFault && oracle(2).fault == NoFault && oracle(3).fault != FailsBefore
    else m >= 3 && oracle(1).fault == NoFault && oracle(2).fault != FailsBefore
  }

  /** What has become of the row. */
  function RowAfter(s: Db, r: TxRow, oracle: Oracle, m: nat): TxRow {
    if Approves(s, r.user, oracle, m) then r.(status := TxProcessed, accrual := Granted(oracle(0).reply))
    else if CancelsRow(oracle, m) then r.(status := TxCanceled)
    else r
  }

  /** What the first `m` steps from the final reply have made of the tables. */
  ghost predicate Fate(s: Db, o: OrderValue, tx: TxId, oracle: Oracle, m: nat, s': Db)
    requires tx < |s.txs|
  {
    && s'.txs == s.txs[tx := RowAfter(s, s.txs[tx], oracle, m)]
    && s'.orders == s.orders[o.num := OrderRow(o.user,
         if SavesProcessedStatus(oracle, m) then OrderProcessed
         else if SavesInvalidStatus(oracle, m) then OrderInvalid
         else OrderProcessing)]
    && (forall u: UserId :: Balance(s', u) ==
          Balance(s, u) + if u == o.user && Approves(s, u, oracle, m) then Granted(oracle(0).reply) else 0)
  }

  /** A task that polls for a claimed order, with its own fresh row. */
  predicate Claiming(s: Db, t: Task) {
    && t.pc.Poll? && t.pc.o.status == OrderProcessing && t.pc.tx < |s.txs|
    && t.pc.o.num in s.orders && s.orders[t.pc.o.num] == OrderRow(t.pc.o.user, OrderProcessing)
    && s.txs[t.pc.tx] == TxRow(t.pc.o.user, t.pc.o.num, 0, 0, TxPlanned)
  }

  // ----- up to the approval -----

  lemma FateAccepted(s: Db, t: Task, oracle: Oracle, m: nat)
    requires Claiming(s, t) && Accepted(oracle(0).reply) && oracle(1).fault == NoFault
    ensures Fate(s, t.pc.o, t.pc.tx, oracle, m, RunTask(s, t, oracle, m).0)
    ensures m >= 4 ==> Inert(RunTask(s, t, oracle, m).1.pc)
  {
    hide TaskStep, RunTask, Inert;
    if m <= 3 {
      SavesFirst(s, t, oracle, m);
      UpToSave(s, t, oracle, m);
    } else {
      SavesAndApproves(s, t, oracle);
      var (s1, t1) := RunTask(s, t, oracle, 4);
      RunTaskConcat(s, t, oracle, 4, m - 4);
      InertStays(s1, t1, Shift(oracle, 4), m - 4);
    }
  }

  lemma UpToSave(s: Db, t: Task, oracle: Oracle, m: nat)
    requires Claiming(s, t) && Accepted(oracle(0).reply) && oracle(1).fault == NoFault && m <= 3
    ensures Fate(s, t.pc.o, t.pc.tx, oracle, m, SavedDb(s, t, oracle, m))
  {
    var o := t.pc.o;
    assert s.orders == s.orders[o.num := OrderRow(o.user, OrderProcessing)];
  }

  /** The first four steps, up to the approval. */
  lemma SavesAndApproves(s: Db, t: Task, oracle: Oracle)
    requires Claiming(s, t) && Accepted(oracle(0).reply) && oracle(1).fault == NoFault
    ensures var (s', t') := RunTask(s, t, oracle, 4);
      Inert(t'.pc) && forall m: nat :: m >= 4 ==> Fate(s, t.pc.o, t.pc.tx, oracle, m, s')
  {
    hide TaskStep, Approved;
    SavesFirst(s, t, oracle, 3);
    var o', tx, v := t.pc.o.(status := OrderProcessed), t.pc.tx, oracle(0).reply.value;
    var s1 := SavedDb(s, t, oracle, 3);
    var t1 := t.(pc := if oracle(2).fault == NoFault then ApproveTx(o', tx, v) else BeginFail(o', tx));
    ApprovalMeaning(s1, tx, v);
    ApprovalStep(s1, t1, tx, oracle(3));
    var s' := TaskStep(s1, t1, oracle(3)).0;
    assert RunTask(s, t, oracle, 4).0 == s';
    assert s.orders == s.orders[o'.num := OrderRow(o'.user, OrderProcessing)];
    forall u: UserId ensures Balance(s1, u) == Balance(s, u) {}
    assert s'.txs == s1.txs[tx := s'.txs[tx]];
    assert s'.txs[tx] == RowAfter(s, s.txs[tx], oracle, 4);
  }

  /** The tables after `m` steps of an accepted run that has begun, up to the save. */
  function SavedDb(s: Db, t: Task, oracle: Oracle, m: nat): Db
    requires Claiming(s, t)
  {
    if m < 3 || oracle(2).fault == FailsBefore then s
    else s.(orders := s.orders[t.pc.o.num := OrderRow(t.pc.o.user, OrderProcessed)])
  }

  lemma SavesFirst(s: Db, t: Task, oracle: Oracle, m: nat)
    requires Claiming(s, t) && Accepted(oracle(0).reply) && oracle(1).fault == NoFault && m <= 3
    ensures var (s', t') := RunTask(s, t, oracle, m);
      var o', tx, v := t.pc.o.(status := OrderProcessed), t.pc.tx, oracle(0).reply.value;
      && s' == SavedDb(s, t, oracle, m)
      && (m == 3 ==> t' == t.(pc := if oracle(2).fault == NoFault then ApproveTx(o', tx, v) else BeginFail(o', tx)))
  {
    hide Approve, Register, Cancel, CancelPlanned, Lookup;
    var o, tx, v := t.pc.o, t.pc.tx, oracle(0).reply.value;
    assert RunTask(s, t, oracle, 0) == (s, t);
    assert RunTask(s, t, oracle, 1) == (s, t.(pc := BeginSuccess(o, tx, v)));
    var t2 := t.(pc := SaveProcessed(o.(status := OrderProcessed), tx, v));
    assert RunTask(s, t, oracle, 2) == (s, t2);
    if m == 3 {
      assert RunTask(s, t, oracle, 3) == TaskStep(s, t2, oracle(2));
    }
  }

  /** The step after the save, which approves if the save reported no error. */
  lemma ApprovalStep(s: Db, t: Task, tx: TxId, input: Input)
    requires tx < |s.txs|
    requires (t.pc.ApproveTx? && t.pc.tx == tx && t.pc.o.status == OrderProcessed)
          || (t.pc.BeginFail? && t.pc.o.status == OrderProcessed)
    ensures var (s', t') := TaskStep(s, t, input);
      && s' == (if t.pc.ApproveTx? && input.fault != FailsBefore then Approved(s, tx, t.pc.value).0 else s)
      && Inert(t'.pc)
  {
    hide Cancel, CancelPlanned, Register, Lookup;
  }

  // ----- the failure path -----

  lemma FateRefused(s: Db, t: Task, oracle: Oracle, m: nat)
    requires Claiming(s, t)
    requires Accepted(oracle(0).reply) ==> oracle(1).fault != NoFault
    requires !KeepsPolling(oracle(0).reply) || oracle(0).cancelled
    ensures Fate(s, t.pc.o, t.pc.tx, oracle, m, RunTask(s, t, oracle, m).0)
    ensures m >= 2 ==> PastApproval(RunTask(s, t, oracle, m).1.pc)
  {
    hide Register, CancelPlanned, Lookup, Approve;
    var o, tx := t.pc.o, t.pc.tx;
    assert s.orders == s.orders[o.num := OrderRow(o.user, OrderProcessing)];
    assert s.txs == s.txs[tx := s.txs[tx]];
    assert RunTask(s, t, oracle, 0) == (s, t);
    if Accepted(oracle(0).reply) {
      assert RunTask(s, t, oracle, 1) == (s, t.(pc := BeginSuccess(o, tx, oracle(0).reply.value)));
      assert RunTask(s, t, oracle, 2) == (s, t.(pc := BeginFail(o, tx)));
      if m >= 2 {
        FailsFrom(s, t, oracle, 2, m);
      }
    } else {
      assert RunTask(s, t, oracle, 1) == (s, t.(pc := BeginFail(o, tx)));
      if m >= 1 {
        FailsFrom(s, t, oracle, 1, m);
      }
    }
  }

  /** The failure path, from its begin at step `b`. */
  lemma FailsFrom(s: Db, t: Task, oracle: Oracle, b: nat, m: nat)
    requires Claiming(s, t) && m >= b
    requires RunTask(s, t, oracle, b) == (s, t.(pc := BeginFail(t.pc.o, t.pc.tx)))
    ensures var (s', t') := RunTask(s, t, oracle, m);
      var begun, saved := m >= b + 2 && oracle(b).fault == NoFault, oracle(b + 1).fault;
      && s'.txs == s.txs[t.pc.tx := if m >= b + 3 && begun && saved == NoFault && oracle(b + 2).fault != FailsBefore
                                    then s.txs[t.pc.tx].(status := TxCanceled) else s.txs[t.pc.tx]]
      && s'.orders == s.orders[t.pc.o.num := OrderRow(t.pc.o.user,
           if begun && saved != FailsBefore then OrderInvalid else OrderProcessing)]
      && s'.accounts == s.accounts && PastApproval(t'.pc)
  {
    hide TaskStep, Inert;
    var o, tx := t.pc.o, t.pc.tx;
    assert s.orders == s.orders[o.num := OrderRow(o.user, OrderProcessing)];
    assert s.txs == s.txs[tx := s.txs[tx]];
    var t1 := t.(pc := if oracle(b).fault == NoFault then SaveInvalid(o.(status := OrderInvalid), tx) else Finished);
    FailSteps(s, t, oracle(b), oracle(b + 1), oracle(b + 2));
    assert RunTask(s, t, oracle, b + 1) == (s, t1);
    var (s2, t2) := TaskStep(s, t1, oracle(b + 1));
    assert RunTask(s, t, oracle, b + 2) == (s2, t2);
    var (s3, t3) := TaskStep(s2, t2, oracle(b + 2));
    assert RunTask(s, t, oracle, b + 3) == (s3, t3);
    if m > b + 3 {
      RunTaskConcat(s, t, oracle, b + 3, m - (b + 3));
      InertStays(s3, t3, Shift(oracle, b + 3), m - (b + 3));
      InertIsPast(RunTask(s, t, oracle, m).1.pc);
    }
  }

  /** Three steps of the failure path. */
  lemma FailSteps(s: Db, t: Task, begin: Input, save: Input, cancel: Input)
    requires Claiming(s, t)
    ensures var o', tx := t.pc.o.(status := OrderInvalid), t.pc.tx;
      var t1 := t.(pc := if begin.fault == NoFault then SaveInvalid(o', tx) else Finished);
      var (s2, t2) := TaskStep(s, t1, save);
      var (s3, t3) := TaskStep(s2, t2, cancel);
      && TaskStep(s, t.(pc := BeginFail(t.pc.o, tx)), begin) == (s, t1)
      && s2 == (if begin.fault != NoFault || save.fault == FailsBefore then s
                else s.(orders := s.orders[o'.num := OrderRow(o'.user, OrderInvalid)]))
      && s3 == (if begin.fault == NoFault && save.fault == NoFault && cancel.fault != FailsBefore
                then s2.(txs := s.txs[tx := s.txs[tx].(status := TxCanceled)]) else s2)
      && PastApproval(t1.pc) && PastApproval(t2.pc) && PastApproval(t3.pc) && Inert(t3.pc)
  {
    hide Register, CancelPlanned, Lookup, Approve;
  }

  // ----- at the end of a run -----

  /** Nothing that is left to do changes a table. */
  predicate Inert(pc: TaskPc) {
    match pc
    case Finished => true
    case CommitSuccess(o, _) => Terminal(o.status)
    case BeginFail(o, _) => Terminal(o.status)
    case CommitFail(_, _) => true
    case _ => false
  }

  lemma {:induction false} InertStays(s: Db, t: Task, oracle: Oracle, n: nat)
    requires Inert(t.pc)
    ensures var (s', t') := RunTask(s, t, oracle, n); s' == s && Inert(t'.pc)
  {
    if n > 0 {
      InertStays(s, t, oracle, n - 1);
    }
  }

  /** The task will not approve anything any more. */
  predicate PastApproval(pc: TaskPc) {
    pc.CommitSuccess? || pc.BeginFail? || pc.SaveInvalid? || pc.CancelTx? || pc.CommitFail? || pc.Finished?
  }

  lemma InertIsPast(pc: TaskPc)
    requires Inert(pc)
    ensures PastApproval(pc)
  {
  }

  /** From the final reply on, for every fault and every number of steps, the tables are exactly
      these. */
  lemma FateExactly(s: Db, t: Task, oracle: Oracle, m: nat)
    requires Claiming(s, t)
    requires !KeepsPolling(oracle(0).reply) || oracle(0).cancelled
    ensures Fate(s, t.pc.o, t.pc.tx, oracle, m, RunTask(s, t, oracle, m).0)
  {
    hide TaskStep, RunTask, KeepsPolling, Fate;
    if Accepted(oracle(0).reply) && oracle(1).fault == NoFault {
      FateAccepted(s, t, oracle, m);
    } else {
      FateRefused(s, t, oracle, m);
    }
  }

  // ----- before the polls -----

  /** No statement before the first poll is hit by a fault. */
  predicate ClaimsCleanly(oracle: Oracle) {
    forall k :: 0 <= k < 6 ==> oracle(k).fault == NoFault
  }

  /** The order still belongs to its user, is not terminal and has no credit. */
  predicate StillPending(s: Db, s': Db, num: OrderNumber)
    requires num in s.orders
  {
    && num in s'.orders && s'.orders[num].user == s.orders[num].user && !Terminal(s'.orders[num].status)
    && NoCredit(s', num)
  }

  lemma ClaimedPending(s: Db, num: OrderNumber, n: nat)
    requires num in s.orders && !Terminal(s.orders[num].status) && NoCredit(s, num)
    ensures StillPending(s, ClaimDb(s, num, n), num)
  {
    var s' := ClaimDb(s, num, n);
    forall i | 0 <= i < |s'.txs| && IsCredit(s'.txs[i]) ensures s'.txs[i].num != num {
      assert i < |s.txs| && s'.txs[i] == s.txs[i];
    }
  }

  /** A fault before the first poll ends the run. Its statement has taken effect if the fault is
      one that is reported afterwards. */
  lemma FaultyClaimStep(s: Db, num: OrderNumber, allow: bool, n: nat, input: Input)
    requires Admits(s, num, allow) && n < 6 && input.fault != NoFault
    ensures var (s', t') := TaskStep(ClaimDb(s, num, n), Task(num, allow, ClaimPc(s, num, n), 0, 0), input);
      t'.pc.Finished? && s' == ClaimDb(s, num, if input.fault == FailsAfter then n + 1 else n)
  {
    hide Approve, Cancel;
    RoundExact(0);
    assert CanceledRows(s.(orders := Prepared(s, num).orders), s.orders[num].user, num)
        == CanceledRows(s, s.orders[num].user, num);
  }

  /** How many of the steps from `k` to `n` take effect before a fault ends the run. */
  function StepsTaken(oracle: Oracle, k: nat, n: nat): (taken: nat)
    requires k <= n
    ensures k <= taken <= n
    decreases n - k
  {
    if k == n then n
    else if oracle(k).fault == NoFault then StepsTaken(oracle, k + 1, n)
    else if oracle(k).fault == FailsAfter then k + 1
    else k
  }

  lemma {:induction false} TakenUpTo(oracle: Oracle, k: nat, f: nat, n: nat)
    requires k <= f <= n && forall j :: k <= j < f ==> oracle(j).fault == NoFault
    requires f < n ==> oracle(f).fault != NoFault
    ensures StepsTaken(oracle, k, n) == if f < n && oracle(f).fault == FailsAfter then f + 1 else f
    decreases f - k
  {
    if k < f {
      TakenUpTo(oracle, k + 1, f, n);
    }
  }

  lemma FirstFault(oracle: Oracle) returns (f: nat)
    requires !ClaimsCleanly(oracle)
    ensures f < 6 && oracle(f).fault != NoFault && forall k :: 0 <= k < f ==> oracle(k).fault == NoFault
  {
    f := 0;
    while oracle(f).fault == NoFault
      invariant f <= 6 && forall k :: 0 <= k < f ==> oracle(k).fault == NoFault
      decreases 6 - f
    {
      f := f + 1;
    }
  }

  /** Before its first poll, or hit by a fault before it, a run has done exactly the steps that
      took effect. */
  lemma ClaimsExactly(s: Db, num: OrderNumber, allow: bool, oracle: Oracle, n: nat)
    requires Admits(s, num, allow) && (n <= 6 || !ClaimsCleanly(oracle))
    ensures RunTask(s, NewTask(num, allow), oracle, n).0
         == ClaimDb(s, num, StepsTaken(oracle, 0, if n <= 6 then n else 6))
  {
    hide TaskStep, RunTask, ClaimDb, ClaimPc;
    var end := if n <= 6 then n else 6;
    var first := end;
    if !ClaimsCleanly(oracle) {
      var f := FirstFault(oracle);
      first := if f < end then f else end;
    }
    TakenUpTo(oracle, 0, first, end);
    ClaimSteps(s, num, allow, oracle, first);
    if first < n {
      FaultyClaimStep(s, num, allow, first, oracle(first));
      OneStep(s, NewTask(num, allow), oracle, first);
      var (s1, t1) := RunTask(s, NewTask(num, allow), oracle, first + 1);
      RunTaskConcat(s, NewTask(num, allow), oracle, first + 1, n - first - 1);
      FinishedStays(s1, t1, Shift(oracle, first + 1), n - first - 1);
    }
  }

  /** So it leaves the order pending. */
  lemma NoPollPending(s: Db, num: OrderNumber, allow: bool, oracle: Oracle, n: nat)
    requires Admits(s, num, allow) && NoCredit(s, num) && (n <= 6 || !ClaimsCleanly(oracle))
    ensures StillPending(s, RunTask(s, NewTask(num, allow), oracle, n).0, num)
  {
    hide TaskStep, RunTask, StillPending;
    ClaimsExactly(s, num, allow, oracle, n);
    ClaimedPending(s, num, StepsTaken(oracle, 0, if n <= 6 then n else 6));
  }

  // ----- main results -----

  /** The task polls again exactly `polls` times. */
  predicate PollsExactly(oracle: Oracle, polls: nat) {
    && (forall k :: 6 <= k < 6 + polls ==> KeepsPolling(oracle(k).reply) && !oracle(k).cancelled)
    && (!KeepsPolling(oracle(6 + polls).reply) || oracle(6 + polls).cancelled)
  }

  /** The answers from the final reply on. */
  function FromReply(oracle: Oracle, polls: nat): Oracle {
    Shift(Shift(oracle, 6), polls)
  }

  /** How many of `n` steps are left when the run gets to its final reply. */
  function After(n: nat, polls: nat): nat {
    if n <= 6 + polls then 0 else n - (6 + polls)
  }

  /** Every credit of the order has this amount. */
  predicate CreditsAre(s: Db, num: OrderNumber, amount: int) {
    forall i :: 0 <= i < |s.txs| && IsCredit(s.txs[i]) && s.txs[i].num == num ==> s.txs[i].accrual == amount
  }

  /** Carries the fate of a claimed order over to the tables the run started from. */
  lemma FateOfOrder(s: Db, num: OrderNumber, oracle: Oracle, m: nat, s': Db)
    requires num in s.orders && NoCredit(s, num)
    requires Fate(Prepared(s, num), Claimed(s, num), |s.txs|, oracle, m, s')
    ensures !NoCredit(s', num) <==> Credits(s, s.orders[num].user, oracle, m)
    ensures CreditsAre(s', num, Granted(oracle(0).reply))
  {
    var user := s.orders[num].user;
    assert Balance(Prepared(s, num), user) == Balance(s, user);
    assert Credits(Prepared(s, num), user, oracle, m) <==> Credits(s, user, oracle, m);
    assert s'.txs[|s.txs|].num == num;
    forall i | 0 <= i < |s.txs| && IsCredit(s'.txs[i]) ensures s'.txs[i].num != num {
      assert s'.txs[i] == CanceledIfPlanned(s.txs[i], user, num);
    }
  }

  /** A run of a pending order without a credit, stopped after any number of steps and under any
      faults, has credited it, with what the final reply grants, exactly under `Credits`, and has
      saved the processed or the invalid status exactly under the conditions for that. */
  lemma CreditExactly(s: Db, num: OrderNumber, allow: bool, oracle: Oracle, polls: nat, n: nat)
    requires Admits(s, num, allow) && NoCredit(s, num) && PollsExactly(oracle, polls)
    ensures var s' := RunTask(s, NewTask(num, allow), oracle, n).0;
      var last, m, clean := FromReply(oracle, polls), After(n, polls), ClaimsCleanly(oracle);
      && (!NoCredit(s', num) <==> clean && Credits(s, s.orders[num].user, last, m))
      && CreditsAre(s', num, Granted(last(0).reply))
      && num in s'.orders && s'.orders[num].user == s.orders[num].user
      && (s'.orders[num].status == OrderProcessed <==> clean && SavesProcessedStatus(last, m))
      && (s'.orders[num].status == OrderInvalid <==> clean && SavesInvalidStatus(last, m))
  {
    hide TaskStep, RunTask, KeepsPolling;
    if n <= 6 || !ClaimsCleanly(oracle) {
      NoPollPending(s, num, allow, oracle, n);
    } else if n <= 6 + polls {
      var t1 := Task(num, allow, Poll(Claimed(s, num), |s.txs|), 0, 0);
      PreparePhase(s, num, allow, oracle);
      RunTaskConcat(s, NewTask(num, allow), oracle, 6, n - 6);
      PollPhase(Prepared(s, num), t1, Shift(oracle, 6), n - 6);
      ClaimedPending(s, num, 6);
    } else {
      DecidedRun(s, num, allow, oracle, polls, n);
      FateOfOrder(s, num, FromReply(oracle, polls), After(n, polls), RunTask(s, NewTask(num, allow), oracle, n).0);
    }
  }

  /** The tables at every point of a run, under any faults: those of the claiming steps that took
      effect, then those prepared for the polls, and after the final reply those of `Fate`. */
  lemma TablesExactly(s: Db, num: OrderNumber, allow: bool, oracle: Oracle, polls: nat, n: nat)
    requires Admits(s, num, allow) && PollsExactly(oracle, polls)
    ensures var s' := RunTask(s, NewTask(num, allow), oracle, n).0;
      if n <= 6 || !ClaimsCleanly(oracle)
      then s' == ClaimDb(s, num, StepsTaken(oracle, 0, if n <= 6 then n else 6))
      else if n <= 6 + polls then s' == Prepared(s, num)
      else Fate(Prepared(s, num), Claimed(s, num), |s.txs|, FromReply(oracle, polls), After(n, polls), s')
  {
    hide TaskStep, RunTask, KeepsPolling, Fate, ClaimDb;
    if n <= 6 || !ClaimsCleanly(oracle) {
      ClaimsExactly(s, num, allow, oracle, n);
    } else if n <= 6 + polls {
      PreparePhase(s, num, allow, oracle);
      RunTaskConcat(s, NewTask(num, allow), oracle, 6, n - 6);
      PollPhase(Prepared(s, num), Task(num, allow, Poll(Claimed(s, num), |s.txs|), 0, 0), Shift(oracle, 6), n - 6);
    } else {
      DecidedRun(s, num, allow, oracle, polls, n);
    }
  }

  lemma DecidedRun(s: Db, num: OrderNumber, allow: bool, oracle: Oracle, polls: nat, n: nat)
    requires Admits(s, num, allow) && ClaimsCleanly(oracle) && PollsExactly(oracle, polls) && n > 6 + polls
    ensures Fate(Prepared(s, num), Claimed(s, num), |s.txs|, FromReply(oracle, polls), After(n, polls),
                 RunTask(s, NewTask(num, allow), oracle, n).0)
  {
    hide TaskStep, RunTask, KeepsPolling, Fate;
    var t1 := Task(num, allow, Poll(Claimed(s, num), |s.txs|), 0, 0);
    PreparePhase(s, num, allow, oracle);
    RunTaskConcat(s, NewTask(num, allow), oracle, 6, n - 6);
    PollPhase(Prepared(s, num), t1, Shift(oracle, 6), polls);
    RunTaskConcat(Prepared(s, num), t1, Shift(oracle, 6), polls, n - 6 - polls);
    FateExactly(Prepared(s, num), t1, FromReply(oracle, polls), n - 6 - polls);
  }

  /** Once a terminal status may have been saved, the task can be granted points only at the
      approval right after a save that reported no error. */
  lemma {:induction false} PcAfterSave(s: Db, t: Task, oracle: Oracle, m: nat)
    requires Claiming(s, t) && m >= 3
    requires !KeepsPolling(oracle(0).reply) || oracle(0).cancelled
    ensures var pc := RunTask(s, t, oracle, m).1.pc;
      if m == 3 && Accepted(oracle(0).reply) && oracle(1).fault == NoFault && oracle(2).fault == NoFault
      then pc.ApproveTx? && pc.value == oracle(0).reply.value
      else PastApproval(pc)
  {
    hide TaskStep, KeepsPolling;
    if !(Accepted(oracle(0).reply) && oracle(1).fault == NoFault) {
      FateRefused(s, t, oracle, m);
    } else if m == 3 {
      SavesFirst(s, t, oracle, 3);
    } else {
      FateAccepted(s, t, oracle, m);
      InertIsPast(RunTask(s, t, oracle, m).1.pc);
    }
  }

  /** The same for a run from its start. */
  lemma RunPcAfterSave(s: Db, num: OrderNumber, allow: bool, oracle: Oracle, polls: nat, n: nat)
    requires Admits(s, num, allow) && ClaimsCleanly(oracle) && PollsExactly(oracle, polls) && n >= 9 + polls
    ensures var pc, last := RunTask(s, NewTask(num, allow), oracle, n).1.pc, FromReply(oracle, polls);
      if n == 9 + polls && Accepted(last(0).reply) && last(1).fault == NoFault && last(2).fault == NoFault
      then pc.ApproveTx? && pc.value == last(0).reply.value
      else PastApproval(pc)
  {
    hide TaskStep, RunTask, KeepsPolling, PastApproval;
    var t1 := Task(num, allow, Poll(Claimed(s, num), |s.txs|), 0, 0);
    PreparePhase(s, num, allow, oracle);
    RunTaskConcat(s, NewTask(num, allow), oracle, 6, n - 6);
    PollPhase(Prepared(s, num), t1, Shift(oracle, 6), polls);
    RunTaskConcat(Prepared(s, num), t1, Shift(oracle, 6), polls, n - 6 - polls);
    PcAfterSave(Prepared(s, num), t1, FromReply(oracle, polls), n - 6 - polls);
  }
}

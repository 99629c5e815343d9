/** When a credit is lost for good: exactly in which reachable states no continuation whatever
    credits an order any more. */
module Losses {
  import opened Money
  import opened Domain
  import opened Database
  import opened Ledger
  import opened Protocol
  import opened FreeRuns
  import opened SerializedRuns
  import opened Recovery
  import opened Limits
  import opened Credits
  import Counting

  // ----- the condition -----

  /** Points that make a credit in an empty account. */
  predicate Creditable(value: real) {
    value > 0.0 && RoundCents(value) > 0 && Fits(RoundCents(value))
  }

  /** The task has passed the gate and may still be granted something, or was granted it. */
  predicate MayCredit(pc: TaskPc) {
    match pc
    case SaveProcessing(_) => true
    case CommitTouch(_) => true
    case CancelOld(_) => true
    case RegisterNew(_) => true
    case Poll(_, _) => true
    case BeginSuccess(_, _, value) => Creditable(value)
    case SaveProcessed(_, _, value) => Creditable(value)
    case ApproveTx(_, _, value) => Creditable(value)
    case _ => false
  }

  /** The actor can neither credit the order nor make it new again. */
  predicate Harmless(s: Db, a: Actor, num: OrderNumber)
    requires num in s.orders
  {
    match a
    case TaskActor(t) => t.num != num || !MayCredit(t.pc)
    case UploadActor(u) => !(u.UploadSave? && u.num == num && u.user == s.orders[num].user)
    case WithdrawActor(_) => true
  }

  /** The order is terminal without a credit, and nobody in flight can change that. */
  predicate Sealed(st: State, num: OrderNumber) {
    && num in st.db.orders && Terminal(st.db.orders[num].status) && NoCredit(st.db, num)
    && (forall id :: id in st.actors ==> Harmless(st.db, st.actors[id], num))
  }

  /** No continuation of any kind has a credit for the order. */
  ghost predicate LostForGood(st: State, num: OrderNumber) {
    forall more: seq<Action> :: NoCredit(RunFree(st, more).db, num)
  }

  // ----- a sealed order stays sealed -----

  /** What a step of one actor has to keep for the others. */
  predicate KeepsSealed(s: Db, s': Db, num: OrderNumber)
    requires num in s.orders
  {
    num in s'.orders && s'.orders[num] == s.orders[num] && NoCredit(s', num)
  }

  predicate SealedOrder(s: Db, num: OrderNumber) {
    num in s.orders && Terminal(s.orders[num].status) && NoCredit(s, num)
  }

  lemma SealedTaskStep(s: Db, t: Task, input: Input, num: OrderNumber)
    requires LedgerOk(s) && TaskOk(s, t) && SealedOrder(s, num) && Harmless(s, TaskActor(t), num)
    ensures var (s', t') := TaskStep(s, t, input);
      && num in s'.orders && s'.orders[num].user == s.orders[num].user && SealedOrder(s', num)
      && Harmless(s', TaskActor(t'), num)
  {
    match t.pc
    case CancelOld(_) => SealedTransactionStep(s, t, input, num);
    case RegisterNew(_) => SealedTransactionStep(s, t, input, num);
    case ApproveTx(_, _, _) => SealedTransactionStep(s, t, input, num);
    case CancelTx(_, _) => SealedTransactionStep(s, t, input, num);
    case _ => assert TaskStep(s, t, input).0.txs == s.txs;
  }

  /** The steps that change rows. */
  lemma SealedTransactionStep(s: Db, t: Task, input: Input, num: OrderNumber)
    requires LedgerOk(s) && TaskOk(s, t) && SealedOrder(s, num) && Harmless(s, TaskActor(t), num)
    requires t.pc.CancelOld? || t.pc.RegisterNew? || t.pc.ApproveTx? || t.pc.CancelTx?
    ensures var (s', t') := TaskStep(s, t, input);
      s'.orders == s.orders && NoCredit(s', num) && Harmless(s', TaskActor(t'), num)
  {
    hide Save, Lookup;
  }

  lemma SealedUploadStep(s: Db, u: Upload, f: Fault, num: OrderNumber)
    requires SealedOrder(s, num) && Harmless(s, UploadActor(u), num)
    ensures var (s', u') := UploadStep(s, u, f);
      && num in s'.orders && s'.orders[num].user == s.orders[num].user && SealedOrder(s', num)
      && Harmless(s', UploadActor(u'), num)
  {
  }

  lemma SealedWithdrawStep(s: Db, w: Withdraw, f: Fault, num: OrderNumber)
    requires LedgerOk(s) && WithdrawOk(s, w) && SealedOrder(s, num)
    ensures var s' := WithdrawStep(s, w, f).0;
      && num in s'.orders && s'.orders[num].user == s.orders[num].user && SealedOrder(s', num)
  {
  }

  lemma SealedStep(st: State, action: Action, num: OrderNumber)
    requires FreeInv(st) && Sealed(st, num)
    ensures Sealed(Apply(st, action), num)
  {
    hide TaskStep, UploadStep, WithdrawStep, LedgerOk;
    if action.Act? && action.id in st.actors {
      match st.actors[action.id]
      case TaskActor(t) => SealedTaskStep(st.db, t, action.input, num);
      case UploadActor(u) => SealedUploadStep(st.db, u, action.input.fault, num);
      case WithdrawActor(w) => SealedWithdrawStep(st.db, w, action.input.fault, num);
    }
  }

  /** Whatever happens then, crashes included, the order stays terminal and without a credit. */
  lemma {:induction false} SealedStays(st: State, more: seq<Action>, num: OrderNumber)
    requires FreeInv(st) && Sealed(st, num)
    ensures Sealed(RunFree(st, more), num)
  {
    if more != [] {
      var before := more[..|more| - 1];
      SealedStays(st, before, num);
      FreeRunEvolves(st, before);
      SealedStep(RunFree(st, before), more[|more| - 1], num);
    }
  }

  // ----- every other order can still be credited -----

  ghost predicate BalancesFit(s: Db) {
    forall u: UserId :: Fits(Balance(s, u))
  }

  lemma ApprovedFits(s: Db, tx: TxId, accrual: real)
    requires LedgerOk(s) && BalancesFit(s)
    ensures BalancesFit(Approved(s, tx, accrual).0)
  {
    var s' := Approved(s, tx, accrual).0;
    forall u: UserId ensures Fits(Balance(s', u)) {
      assert 0 <= Balance(s, u) && Fits(Balance(s, u));
      assert tx < |s.txs| ==> RowOk(s.txs[tx]);
    }
  }

  lemma FitStep(st: State, action: Action)
    requires FreeInv(st) && BalancesFit(st.db)
    ensures BalancesFit(Apply(st, action).db)
  {
    hide Approved, LedgerOk, TaskStep, UploadStep, WithdrawStep;
    if action.Act? && action.id in st.actors {
      OnlyApprovePays(st, action.id, action.input);
      var s' := Apply(st, action).db;
      if s'.accounts == st.db.accounts {
        forall u: UserId ensures Fits(Balance(s', u)) {
          assert Fits(Balance(st.db, u));
        }
      } else {
        var tx: TxId, accrual: real :| s' == Approved(st.db, tx, accrual).0;
        ApprovedFits(st.db, tx, accrual);
      }
    }
  }

  /** Only an approval changes a balance. */
  lemma OnlyApprovePays(st: State, id: nat, input: Input)
    requires id in st.actors
    ensures var s' := Apply(st, Act(id, input)).db;
      s'.accounts == st.db.accounts || exists tx: TxId, accrual: real :: s' == Approved(st.db, tx, accrual).0
  {
    hide Approved, Lookup;
  }

  /** What holds in every reachable state. */
  ghost predicate Reachable(st: State) {
    FreeInv(st) && BalancesFit(st.db)
  }

  lemma {:induction false} RunReachable(st: State, run: seq<Action>)
    requires Reachable(st)
    ensures Reachable(RunFree(st, run))
  {
    if run != [] {
      var before := run[..|run| - 1];
      RunReachable(st, before);
      FreeStep(RunFree(st, before), run[|run| - 1]);
      FitStep(RunFree(st, before), run[|run| - 1]);
    }
  }

  /** A continuation after which the order has a credit. */
  ghost predicate Credited(st: State, more: seq<Action>, num: OrderNumber) {
    !NoCredit(RunFree(st, more).db, num)
  }

  lemma CreditedLater(st: State, first: seq<Action>, rest: seq<Action>, num: OrderNumber)
    requires Credited(RunFree(st, first), rest, num)
    ensures Credited(st, first + rest, num)
  {
    RunFreeConcat(st, first, rest);
  }

  lemma RunOne(st: State, action: Action)
    ensures RunFree(st, [action]) == Apply(st, action)
  {
    assert [action][..0] == [];
  }

  lemma FreshId(actors: map<nat, Actor>) returns (id: nat)
    ensures id !in actors
  {
    id := 0;
    ghost var seen: set<nat> := {};
    while id in actors
      invariant seen <= actors.Keys && forall k :: k in seen ==> k < id
      decreases |actors.Keys - seen|
    {
      assert actors.Keys - (seen + {id}) < actors.Keys - seen by {
        assert id in actors.Keys - seen;
      }
      SmallerSet(actors.Keys - (seen + {id}), actors.Keys - seen);
      seen := seen + {id};
      id := id + 1;
    }
  }

  lemma {:induction false} SmallerSet(small: set<nat>, big: set<nat>)
    requires small < big
    ensures |small| < |big|
  {
    var k :| k in big && k !in small;
    Counting.SubsetSize(small, big - {k});
  }

  /** An answer of the accrual service that grants one cent, and no fault. */
  const GRANT_CENT := Input(NoFault, Replied(AccrualProcessed, 0.01), false)

  /** The user withdraws everything. */
  lemma Drain(st: State, user: UserId) returns (more: seq<Action>)
    requires Reachable(st)
    ensures var st' := RunFree(st, more);
      && Reachable(st') && Balance(st'.db, user) == 0
      && st'.db.orders == st.db.orders
      && st.db.txs <= st'.db.txs
      && (forall i :: i in st.actors ==> i in st'.actors && st'.actors[i] == st.actors[i])
  {
    var balance := Balance(st.db, user);
    assert 0 <= balance && Fits(balance);
    if balance == 0 {
      return [];
    }
    var id := FreshId(st.actors);
    var sum := balance as real / 100.0;
    RoundExact(balance);
    more := [StartWithdraw(id, user, 0, sum), Act(id, QUIET), Act(id, QUIET)];
    RunReachable(st, more);
    assert more == [] + [more[0]] + [more[1]] + [more[2]];
    RunFreeSnoc(st, [], more[0]);
    RunFreeSnoc(st, [] + [more[0]], more[1]);
    RunFreeSnoc(st, [] + [more[0]] + [more[1]], more[2]);
    DrainSteps(st, id, user, sum);
  }

  lemma DrainSteps(st: State, id: nat, user: UserId, sum: real)
    requires Reachable(st) && id !in st.actors && sum > 0.0 && RoundCents(sum) == Balance(st.db, user) > 0
    ensures var st' := Apply(Apply(Apply(st, StartWithdraw(id, user, 0, sum)), Act(id, QUIET)), Act(id, QUIET));
      && Balance(st'.db, user) == 0
      && st'.db.orders == st.db.orders
      && st.db.txs <= st'.db.txs
      && (forall i :: i in st.actors ==> i in st'.actors && st'.actors[i] == st.actors[i])
  {
    hide FreeInv;
    assert Fits(Balance(st.db, user));
    var st1 := Apply(st, StartWithdraw(id, user, 0, sum));
    var st2 := Apply(st1, Act(id, QUIET));
    assert st2.db == st.db.(txs := st.db.txs + [TxRow(user, 0, 0, RoundCents(sum), TxPlanned)]);
    assert st2.actors[id] == WithdrawActor(WithdrawApprove(|st.db.txs|));
  }

  /** The task, at its approval, is granted its points once the account is empty. */
  lemma ApprovesCreditable(st: State, id: nat) returns (more: seq<Action>)
    requires Reachable(st) && id in st.actors && st.actors[id].TaskActor?
    requires st.actors[id].t.pc.ApproveTx? && Creditable(st.actors[id].t.pc.value)
    ensures Credited(st, more, st.actors[id].t.num)
  {
    hide FreeInv, RunFree;
    var t := st.actors[id].t;
    var pay := Drain(st, t.pc.o.user);
    var st1 := RunFree(st, pay);
    TaskKnows(st, id);
    TaskKnows(st1, id);
    RunOne(st1, Act(id, QUIET));
    var st2 := Apply(st1, Act(id, QUIET));
    assert IsCredit(st2.db.txs[t.pc.tx]) && st2.db.txs[t.pc.tx].num == t.num;
    more := pay + [Act(id, QUIET)];
    CreditedLater(st, pay, [Act(id, QUIET)], t.num);
  }

  lemma TaskKnows(st: State, id: nat)
    requires Reachable(st) && id in st.actors && st.actors[id].TaskActor?
    ensures TaskOk(st.db, st.actors[id].t)
  {
    assert ActorOk(st.db, st.actors[id]);
  }

  /** How far a task is from its approval. */
  function StepsToApproval(pc: TaskPc): nat {
    match pc
    case BeginTouch => 9
    case FindOrder => 8
    case SaveProcessing(_) => 7
    case CommitTouch(_) => 6
    case CancelOld(_) => 5
    case RegisterNew(_) => 4
    case Poll(_, _) => 3
    case BeginSuccess(_, _, _) => 2
    case SaveProcessed(_, _, _) => 1
    case _ => 0
  }

  /** The task passes the gate now, or has passed it and may be granted points. */
  predicate OnItsWay(s: Db, t: Task) {
    ((t.pc.BeginTouch? || t.pc.FindOrder?) && Admits(s, t.num, t.allowProcessing)) || MayCredit(t.pc)
  }

  /** Such a task gets one step nearer. */
  lemma GetsNearer(s: Db, t: Task)
    requires TaskOk(s, t) && OnItsWay(s, t) && !t.pc.ApproveTx?
    ensures var (s', t') := TaskStep(s, t, GRANT_CENT);
      t'.num == t.num && OnItsWay(s', t') && StepsToApproval(t'.pc) < StepsToApproval(t.pc)
  {
    hide Approve, Cancel;
    RoundExact(0);
    assert Creditable(0.01) by {
      RoundExact(1);
      assert 1 as real / 100.0 == 0.01;
    }
  }

  lemma {:induction false} TaskCanCredit(st: State, id: nat) returns (more: seq<Action>)
    requires Reachable(st) && id in st.actors && st.actors[id].TaskActor? && OnItsWay(st.db, st.actors[id].t)
    ensures Credited(st, more, st.actors[id].t.num)
    decreases StepsToApproval(st.actors[id].t.pc)
  {
    hide FreeInv, BalancesFit, RunFree, TaskStep, OnItsWay, StepsToApproval, Creditable;
    if st.actors[id].t.pc.ApproveTx? {
      assert Creditable(st.actors[id].t.pc.value) by {
        WayToApproval(st.db, st.actors[id].t);
      }
      more := ApprovesCreditable(st, id);
    } else {
      var act := Act(id, GRANT_CENT);
      TaskKnows(st, id);
      GetsNearer(st.db, st.actors[id].t);
      RunOne(st, act);
      RunReachable(st, [act]);
      var rest := TaskCanCredit(Apply(st, act), id);
      CreditedLater(st, [act], rest, st.actors[id].t.num);
      more := [act] + rest;
    }
  }

  lemma WayToApproval(s: Db, t: Task)
    requires OnItsWay(s, t) && t.pc.ApproveTx?
    ensures Creditable(t.pc.value)
  {
  }

  lemma PendingCanCredit(st: State, num: OrderNumber) returns (more: seq<Action>)
    requires Reachable(st) && num in st.db.orders && !Terminal(st.db.orders[num].status)
    ensures Credited(st, more, num)
  {
    hide FreeInv, BalancesFit, RunFree, TaskStep;
    var id := FreshId(st.actors);
    var start := StartTask(id, num, true);
    RunOne(st, start);
    RunReachable(st, [start]);
    var rest := TaskCanCredit(Apply(st, start), id);
    CreditedLater(st, [start], rest, num);
    more := [start] + rest;
  }

  /** An upload about to save an order of its own user makes it new. */
  lemma UploadCanCredit(st: State, id: nat) returns (more: seq<Action>)
    requires Reachable(st) && id in st.actors && st.actors[id].UploadActor? && st.actors[id].u.UploadSave?
    requires st.actors[id].u.num in st.db.orders ==> st.db.orders[st.actors[id].u.num].user == st.actors[id].u.user
    ensures Credited(st, more, st.actors[id].u.num)
  {
    hide FreeInv, BalancesFit, RunFree;
    var act := Act(id, QUIET);
    RunOne(st, act);
    RunReachable(st, [act]);
    var rest := PendingCanCredit(Apply(st, act), st.actors[id].u.num);
    CreditedLater(st, [act], rest, st.actors[id].u.num);
    more := [act] + rest;
  }

  /** A number that nobody has uploaded can be uploaded. */
  lemma UnknownCanCredit(st: State, num: OrderNumber) returns (more: seq<Action>)
    requires Reachable(st) && num !in st.db.orders
    ensures Credited(st, more, num)
  {
    hide FreeInv, BalancesFit, RunFree;
    var id := FreshId(st.actors);
    var first := [StartUpload(id, 0, num)] + [Act(id, QUIET)];
    RunOne(st, first[0]);
    RunFreeSnoc(st, [first[0]], first[1]);
    RunReachable(st, first);
    var rest := UploadCanCredit(RunFree(st, first), id);
    CreditedLater(st, first, rest, num);
    more := first + rest;
  }

  lemma UnsealedCanCredit(st: State, num: OrderNumber) returns (more: seq<Action>)
    requires Reachable(st) && !Sealed(st, num)
    ensures Credited(st, more, num)
  {
    hide FreeInv, BalancesFit;
    if !NoCredit(st.db, num) {
      more := [];
    } else if num !in st.db.orders {
      more := UnknownCanCredit(st, num);
    } else if !Terminal(st.db.orders[num].status) {
      more := PendingCanCredit(st, num);
    } else {
      var id :| id in st.actors && !Harmless(st.db, st.actors[id], num);
      if st.actors[id].TaskActor? {
        more := TaskCanCredit(st, id);
      } else {
        more := UploadCanCredit(st, id);
      }
    }
  }

  // ----- main result -----

  /** In every reachable state: no continuation, with whatever requests, recoveries, overlaps,
      faults and crashes, credits the order any more, exactly when the order is terminal without
      a credit, no task of it past the gate may still be granted points, and no upload of its
      own user is about to save it. */
  lemma {:induction false} LostForGoodExactly(run: seq<Action>, num: OrderNumber)
    ensures LostForGood(RunFree(INIT, run), num) <==> Sealed(RunFree(INIT, run), num)
  {
    hide FreeInv, BalancesFit, Sealed;
    InitReachable();
    RunReachable(INIT, run);
    LostInReachable(RunFree(INIT, run), num);
  }

  lemma InitReachable()
    ensures Reachable(INIT)
  {
    FreeRunInv([]);
    assert RunFree(INIT, []) == INIT;
  }

  lemma LostInReachable(st: State, num: OrderNumber)
    requires Reachable(st)
    ensures LostForGood(st, num) <==> Sealed(st, num)
  {
    hide FreeInv, BalancesFit, RunFree, Harmless;
    if Sealed(st, num) {
      forall more: seq<Action> ensures NoCredit(RunFree(st, more).db, num) {
        SealedStays(st, more, num);
      }
    } else {
      var more := UnsealedCanCredit(st, num);
      assert !NoCredit(RunFree(st, more).db, num);
    }
  }

  // ----- losses by a run of the order -----

  /** A task for the order is started and makes `n` steps with nobody stepping in between. */
  function Alone(id: nat, num: OrderNumber, allow: bool, oracle: Oracle, n: nat): seq<Action> {
    [StartTask(id, num, allow)] + Acts(id, oracle, n)
  }

  /** A terminal status was saved and the order was not credited. */
  predicate SettledUncredited(s: Db, num: OrderNumber, oracle: Oracle, polls: nat, n: nat)
    requires num in s.orders
  {
    var last, m := FromReply(oracle, polls), After(n, polls);
    && ClaimsCleanly(oracle) && (SavesProcessedStatus(last, m) || SavesInvalidStatus(last, m))
    && !Credits.Credits(s, s.orders[num].user, last, m)
  }

  lemma SettledUncreditedTables(s: Db, num: OrderNumber, allow: bool, oracle: Oracle, polls: nat, n: nat)
    requires Admits(s, num, allow) && NoCredit(s, num) && PollsExactly(oracle, polls)
    ensures var s' := RunTask(s, NewTask(num, allow), oracle, n).0;
      && num in s'.orders && s'.orders[num].user == s.orders[num].user
      && (SettledUncredited(s, num, oracle, polls, n) <==> Terminal(s'.orders[num].status) && NoCredit(s', num))
  {
    hide RunTask, SavesProcessedStatus, SavesInvalidStatus, ClaimsCleanly, PollsExactly;
    CreditExactly(s, num, allow, oracle, polls, n);
  }

  /** The service crashes after `n` steps of the run: the credit is then lost for good exactly
      when a terminal status was saved and the order was not credited. */
  lemma LostByCrashExactly(run: seq<Action>, id: nat, num: OrderNumber, allow: bool, oracle: Oracle, polls: nat, n: nat)
    requires var st := RunFree(INIT, run);
      id !in st.actors && Admits(st.db, num, allow) && NoCredit(st.db, num) && PollsExactly(oracle, polls)
    ensures LostForGood(RunFree(INIT, run + Alone(id, num, allow, oracle, n) + [Crash]), num)
       <==> SettledUncredited(RunFree(INIT, run).db, num, oracle, polls, n)
  {
    hide RunTask, RunFree, LostForGood, SettledUncredited, PollsExactly;
    var st := RunFree(INIT, run);
    DriveTask(st, id, num, allow, oracle, n);
    RunFreeConcat(INIT, run, Alone(id, num, allow, oracle, n));
    RunFreeSnoc(INIT, run + Alone(id, num, allow, oracle, n), Crash);
    LostForGoodExactly(run + Alone(id, num, allow, oracle, n) + [Crash], num);
    SettledUncreditedTables(st.db, num, allow, oracle, polls, n);
  }

  /** Without a crash it is lost for good exactly when, moreover, the run is not just about to
      approve points, no other task of the order is past the gate and may still be granted
      points, and no upload of the order by its user is about to save it. */
  lemma LostInFlightExactly(run: seq<Action>, id: nat, num: OrderNumber, allow: bool, oracle: Oracle, polls: nat,
                            n: nat)
    requires var st := RunFree(INIT, run);
      id !in st.actors && Admits(st.db, num, allow) && NoCredit(st.db, num) && PollsExactly(oracle, polls)
    ensures var st := RunFree(INIT, run);
      LostForGood(RunFree(INIT, run + Alone(id, num, allow, oracle, n)), num) <==>
        && SettledUncredited(st.db, num, oracle, polls, n)
        && !AboutToApprove(oracle, polls, n)
        && (forall i :: i in st.actors ==> Harmless(st.db, st.actors[i], num))
  {
    hide RunTask, RunFree, LostForGood, SettledUncredited, PollsExactly, AboutToApprove, MayCredit;
    var st := RunFree(INIT, run);
    var (s', t') := RunTask(st.db, NewTask(num, allow), oracle, n);
    DriveTask(st, id, num, allow, oracle, n);
    RunFreeConcat(INIT, run, Alone(id, num, allow, oracle, n));
    LostForGoodExactly(run + Alone(id, num, allow, oracle, n), num);
    SettledUncreditedTables(st.db, num, allow, oracle, polls, n);
    RunKeepsNum(st.db, NewTask(num, allow), oracle, n);
    if SettledUncredited(st.db, num, oracle, polls, n) {
      OwnTaskHarmless(st.db, num, allow, oracle, polls, n);
    }
    SealedWithTask(st, s', id, t', num);
  }

  /** The condition, when only the task `id` has been added and only the tables have changed. */
  lemma SealedWithTask(st: State, s': Db, id: nat, t: Task, num: OrderNumber)
    requires id !in st.actors && num in st.db.orders && num in s'.orders
    requires s'.orders[num].user == st.db.orders[num].user
    ensures Sealed(State(s', st.actors[id := TaskActor(t)]), num) <==>
      && Terminal(s'.orders[num].status) && NoCredit(s', num) && Harmless(s', TaskActor(t), num)
      && (forall i :: i in st.actors ==> Harmless(st.db, st.actors[i], num))
  {
    var actors := st.actors[id := TaskActor(t)];
    assert id in actors && actors[id] == TaskActor(t);
    forall i | i in st.actors ensures i in actors && actors[i] == st.actors[i] {}
  }

  /** The status is saved without an error and the approval of points comes next. */
  predicate AboutToApprove(oracle: Oracle, polls: nat, n: nat) {
    var last := FromReply(oracle, polls);
    && n == 9 + polls && Accepted(last(0).reply) && last(1).fault == NoFault && last(2).fault == NoFault
    && Creditable(last(0).reply.value)
  }

  lemma OwnTaskHarmless(s: Db, num: OrderNumber, allow: bool, oracle: Oracle, polls: nat, n: nat)
    requires Admits(s, num, allow) && PollsExactly(oracle, polls) && SettledUncredited(s, num, oracle, polls, n)
    ensures MayCredit(RunTask(s, NewTask(num, allow), oracle, n).1.pc) <==> AboutToApprove(oracle, polls, n)
  {
    hide RunTask, PollsExactly;
    RunPcAfterSave(s, num, allow, oracle, polls, n);
  }

  lemma {:induction false} RunKeepsNum(s: Db, t: Task, oracle: Oracle, n: nat)
    ensures RunTask(s, t, oracle, n).1.num == t.num
  {
    if n > 0 {
      RunKeepsNum(s, t, oracle, n - 1);
    }
  }

  /** For instance, a crash between saving the processed status and approving loses the credit
      for good, however long the task has polled. */
  lemma CrashAfterSaveLosesCredit(run: seq<Action>, id: nat, num: OrderNumber, allow: bool, oracle: Oracle, polls: nat)
    requires var st := RunFree(INIT, run);
      id !in st.actors && Admits(st.db, num, allow) && NoCredit(st.db, num)
    requires CleanRun(oracle, polls) && Accepted(FinalReply(oracle, polls))
    ensures var st' := RunFree(INIT, run + Alone(id, num, allow, oracle, polls + 9) + [Crash]);
      && LostForGood(st', num)
      && num in st'.db.orders && st'.db.orders[num].status == OrderProcessed
  {
    hide RunTask, RunFree, LostForGood;
    var st, n := RunFree(INIT, run), polls + 9;
    assert FromReply(oracle, polls)(0) == oracle(6 + polls);
    assert FromReply(oracle, polls)(1) == oracle(7 + polls);
    assert FromReply(oracle, polls)(2) == oracle(8 + polls);
    LostByCrashExactly(run, id, num, allow, oracle, polls, n);
    CreditExactly(st.db, num, allow, oracle, polls, n);
    DriveTask(st, id, num, allow, oracle, n);
    RunFreeConcat(INIT, run, Alone(id, num, allow, oracle, n));
    RunFreeSnoc(INIT, run + Alone(id, num, allow, oracle, n), Crash);
  }

  /** Without any crash, a save or an approval that only reports an error ends the run with the
      order processed and uncredited; the credit is then lost for good exactly when no other
      task or upload in flight is going to process the order again. */
  lemma ReportedErrorLosesCredit(run: seq<Action>, id: nat, num: OrderNumber, allow: bool, oracle: Oracle, polls: nat,
                                 n: nat)
    requires var st := RunFree(INIT, run);
      id !in st.actors && Admits(st.db, num, allow) && NoCredit(st.db, num) && PollsExactly(oracle, polls)
    requires ClaimsCleanly(oracle) && Accepted(oracle(6 + polls).reply) && oracle(7 + polls).fault == NoFault
    requires oracle(8 + polls).fault == FailsAfter
          || (oracle(8 + polls).fault == NoFault && oracle(9 + polls).fault == FailsBefore)
    requires n >= polls + 10
    ensures var (st, st') := (RunFree(INIT, run), RunFree(INIT, run + Alone(id, num, allow, oracle, n)));
      && num in st'.db.orders && st'.db.orders[num].status == OrderProcessed && NoCredit(st'.db, num)
      && (LostForGood(st', num) <==> forall i :: i in st.actors ==> Harmless(st.db, st.actors[i], num))
  {
    hide RunTask, RunFree, LostForGood, PollsExactly;
    var st := RunFree(INIT, run);
    assert FromReply(oracle, polls)(0) == oracle(6 + polls);
    assert FromReply(oracle, polls)(1) == oracle(7 + polls);
    assert FromReply(oracle, polls)(2) == oracle(8 + polls);
    assert FromReply(oracle, polls)(3) == oracle(9 + polls);
    LostInFlightExactly(run, id, num, allow, oracle, polls, n);
    CreditExactly(st.db, num, allow, oracle, polls, n);
    DriveTask(st, id, num, allow, oracle, n);
    RunFreeConcat(INIT, run, Alone(id, num, allow, oracle, n));
  }

  /** The condition on the uploads is needed: an upload that looked the number up before the
      order was saved can still make it new again, and then it can be credited after all. */
  lemma LateUploadRevives(user: UserId, num: OrderNumber, oracle: Oracle, polls: nat, n: nat) returns (run: seq<Action>)
    requires PollsExactly(oracle, polls) && n >= polls + 10
    requires ClaimsCleanly(oracle) && Accepted(oracle(6 + polls).reply) && oracle(7 + polls).fault == NoFault
    requires oracle(8 + polls).fault == FailsAfter
    ensures var st := RunFree(INIT, run + Alone(2, num, false, oracle, n));
      && num in st.db.orders && st.db.orders[num].status == OrderProcessed && NoCredit(st.db, num)
      && !LostForGood(st, num)
  {
    hide RunTask, RunFree, LostForGood, PollsExactly;
    UploadsRace(user, num);
    run := [StartUpload(0, user, num), Act(0, QUIET)] + [StartUpload(1, user, num), Act(1, QUIET), Act(1, QUIET)];
    var st := RunFree(INIT, run);
    assert 0 in st.actors && !Harmless(st.db, st.actors[0], num);
    ReportedErrorLosesCredit(run, 2, num, false, oracle, polls, n);
  }
}

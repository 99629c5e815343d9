/** A run of a pending order with everything else going on beside it: in every serialized run it
    fares as it would alone, with overflow judged on the tables at its approval. */
module Interleaved {
  import opened Money
  import opened Domain
  import opened Database
  import opened Adaptive
  import opened Ledger
  import opened Protocol
  import opened FreeRuns
  import opened SerializedRuns
  import opened Recovery
  import opened Limits
  import opened Credits

  // ----- a task's own steps in a run -----

  /** A step of the task: the tables it found, whether it was the approval, and its input. */
  datatype OwnStep = OwnStep(db: Db, approving: bool, input: Input)

  predicate Approving(st: State, id: nat) {
    id in st.actors && st.actors[id].TaskActor? && st.actors[id].t.pc.ApproveTx?
  }

  function OwnSteps(st: State, run: seq<(Action, Input)>, id: nat): seq<OwnStep> {
    if run == [] then []
    else
      var n := |run| - 1;
      var before, action := RunSerial(st, run[..n]), run[n].0;
      OwnSteps(st, run[..n], id)
      + (if action.Act? && action.id == id then [OwnStep(before.db, Approving(before, id), action.input)] else [])
  }

  /** What the environment answered to these steps. */
  function Answers(own: seq<OwnStep>): Oracle {
    (k: nat) => if k < |own| then own[k].input else Input(NoFault, Failed(OtherError), false)
  }

  /** No crash and no other run of the order, once the one under way has ended. */
  predicate NoRestart(more: seq<(Action, Input)>, num: OrderNumber) {
    forall k :: 0 <= k < |more| ==> !more[k].0.Crash? && !(more[k].0.StartTask? && more[k].0.num == num)
  }

  // ----- steps of the others -----

  /** The order and its credits are the same in both tables. */
  ghost predicate SameOrder(s: Db, s': Db, num: OrderNumber) {
    && num in s.orders && num in s'.orders && s'.orders[num] == s.orders[num]
    && (NoCredit(s', num) <==> NoCredit(s, num))
    && (forall a: int :: CreditsAre(s', num, a) <==> CreditsAre(s, num, a))
  }

  lemma Untouched(s: Db, s': Db, touched: int, num: OrderNumber)
    requires num in s.orders && touched != num && TouchesOnly(s, s', touched) && DbEvolves(s, s')
    ensures SameOrder(s, s', num)
  {
    forall i | 0 <= i < |s'.txs| && IsCredit(s'.txs[i]) && s'.txs[i].num == num
      ensures i < |s.txs| && s'.txs[i] == s.txs[i]
    {
    }
    forall i | 0 <= i < |s.txs| && IsCredit(s.txs[i]) ensures s'.txs[i] == s.txs[i] {}
  }

  /** The action is a step of an unfinished task of the order. */
  predicate WorksOn(st: State, action: Action, num: OrderNumber) {
    action.Act? && action.id in st.actors && LiveTask(st.actors[action.id]) && st.actors[action.id].t.num == num
  }

  lemma TaskBeside(st: State, id: nat, input: Input, num: OrderNumber)
    requires SerialInv(st) && num in st.db.orders && id in st.actors && st.actors[id].TaskActor?
    requires !WorksOn(st, Act(id, input), num)
    ensures SameOrder(st.db, Apply(st, Act(id, input)).db, num)
  {
    hide TaskStep, LedgerOk, CreditsOwned, CreditOnce, CreditsSettled;
    var t := st.actors[id].t;
    if t.pc.Finished? {
      assert TaskStep(st.db, t, input).0 == st.db by {
        FinishedStep(st.db, t, input);
      }
    } else {
      FreeStep(st, Act(id, input));
      AloneStep(st.db, t, input);
      Untouched(st.db, Apply(st, Act(id, input)).db, t.num, num);
    }
  }

  lemma FinishedStep(s: Db, t: Task, input: Input)
    requires t.pc.Finished?
    ensures TaskStep(s, t, input) == (s, t)
  {
  }

  lemma WithdrawBeside(st: State, id: nat, input: Input, num: OrderNumber)
    requires SerialInv(st) && num in st.db.orders && id in st.actors && st.actors[id].WithdrawActor?
    ensures SameOrder(st.db, Apply(st, Act(id, input)).db, num)
  {
    hide WithdrawStep, LedgerOk, CreditsOwned, CreditOnce, CreditsSettled;
    FreeStep(st, Act(id, input));
    WithdrawAlone(st.db, st.actors[id].w, input.fault);
    Untouched(st.db, Apply(st, Act(id, input)).db, -1, num);
  }

  lemma UploadBeside(st: State, id: nat, input: Input, second: Input, num: OrderNumber)
    requires SerialInv(st) && num in st.db.orders && id in st.actors && st.actors[id].UploadActor?
    ensures SameOrder(st.db, ApplySerial(st, Act(id, input), second).db, num)
  {
    var found := Apply(st, Act(id, input));
    assert ActorAlone(st.db, st.actors[id]);
    assert found.db == st.db;
    if AboutToSave(found, id) {
      var u := found.actors[id].u;
      FreeStep(st, Act(id, input));
      FreeStep(found, Act(id, second));
      UploadAlone(st.db, u.user, u.num, second.fault);
      Untouched(st.db, Apply(found, Act(id, second)).db, -1, num);
    }
  }

  /** In the serialized relation only an unfinished task of an order touches it or its credits. */
  lemma StepBeside(st: State, action: Action, second: Input, num: OrderNumber)
    requires SerialInv(st) && num in st.db.orders && !WorksOn(st, action, num)
    ensures SameOrder(st.db, ApplySerial(st, action, second).db, num)
  {
    hide SerialInv, TaskStep, UploadStep, WithdrawStep, NoCredit, CreditsAre;
    if action.Act? && action.id in st.actors {
      match st.actors[action.id] {
        case TaskActor(_) => TaskBeside(st, action.id, action.input, num);
        case WithdrawActor(_) => WithdrawBeside(st, action.id, action.input, num);
        case UploadActor(_) => UploadBeside(st, action.id, action.input, second, num);
      }
    }
  }

  // ----- the same task alone -----

  predicate HasTx(pc: TaskPc) {
    || pc.Poll? || pc.BeginSuccess? || pc.SaveProcessed? || pc.ApproveTx? || pc.CommitSuccess?
    || pc.BeginFail? || pc.SaveInvalid? || pc.CancelTx? || pc.CommitFail?
  }

  /** The program counter without the id of the row. */
  function Place(pc: TaskPc): TaskPc {
    if HasTx(pc) then pc.(tx := 0) else pc
  }

  /** What an armed task knows about its row. */
  predicate FreshRow(s: Db, t: Task) {
    TaskArmed(t.pc) ==>
      && t.pc.tx < |s.txs| && t.num == s.txs[t.pc.tx].num && t.pc.o.user == s.txs[t.pc.tx].user
      && s.txs[t.pc.tx].withdraw == 0 && s.txs[t.pc.tx].accrual == 0 && s.txs[t.pc.tx].status != TxProcessed
  }

  /** The task and its order are at the same point in both. */
  ghost predicate Mirrors(s: Db, t: Task, s': Db, t': Task) {
    && t'.num == t.num && t'.allowProcessing == t.allowProcessing && t'.approvals == t.approvals
    && Place(t'.pc) == Place(t.pc)
    && SameOrder(s, s', t.num) && FreshRow(s, t) && FreshRow(s', t')
    && (HasOrder(t.pc) ==> t.pc.o.num == t.num && t.pc.o.user == s.orders[t.num].user)
    && (t.pc.ApproveTx? ==> NoCredit(s, t.num)) && MemoryStatus(t.pc)
  }

  /** Both take the same step. */
  ghost predicate StepMirrors(s: Db, t: Task, s': Db, t': Task, input: Input) {
    var (s1, t1) := TaskStep(s, t, input);
    var (s1', t1') := TaskStep(s', t', input);
    && t1'.num == t1.num == t.num && t1'.allowProcessing == t1.allowProcessing && t1'.approvals == t1.approvals
    && Place(t1'.pc) == Place(t1.pc)
    && SameOrder(s1, s1', t.num) && FreshRow(s1', t1')
  }

  lemma MirrorFind(s: Db, t: Task, s': Db, t': Task, input: Input)
    requires Mirrors(s, t, s', t')
    requires t.pc.BeginTouch? || t.pc.FindOrder? || t.pc.CommitTouch?
    ensures StepMirrors(s, t, s', t', input)
  {
    hide NoCredit, CreditsAre;
  }

  lemma MirrorDecide(s: Db, t: Task, s': Db, t': Task, input: Input)
    requires Mirrors(s, t, s', t')
    requires t.pc.Poll? || t.pc.BeginSuccess? || t.pc.CommitSuccess? || t.pc.BeginFail? || t.pc.CommitFail?
          || t.pc.Finished?
    ensures StepMirrors(s, t, s', t', input)
  {
    hide SameOrder;
  }

  /** One side of a step that saves the order. */
  lemma SaveStep(s: Db, t: Task, input: Input)
    requires t.pc.SaveProcessing? || t.pc.SaveProcessed? || t.pc.SaveInvalid?
    requires FreshRow(s, t) && MemoryStatus(t.pc)
    requires t.pc.o.num == t.num && t.num in s.orders && t.pc.o.user == s.orders[t.num].user
    ensures var (s1, t1) := TaskStep(s, t, input);
      && s1.txs == s.txs && t1 == t.(pc := t1.pc) && Place(t1.pc) == SaveNext(t.pc, input.fault)
      && s1.orders == (if input.fault == FailsBefore then s.orders
                       else s.orders[t.num := OrderRow(t.pc.o.user, t.pc.o.status)])
      && FreshRow(s1, t1)
  {
  }

  function SaveNext(pc: TaskPc, f: Fault): TaskPc {
    match pc
    case SaveProcessing(o) => if f == NoFault then CommitTouch(o) else Finished
    case SaveProcessed(o, _, value) => if f == NoFault then ApproveTx(o, 0, value) else BeginFail(o, 0)
    case SaveInvalid(o, _) => if f == NoFault then CancelTx(o, 0) else Finished
    case _ => pc
  }

  lemma MirrorSave(s: Db, t: Task, s': Db, t': Task, input: Input)
    requires Mirrors(s, t, s', t')
    requires t.pc.SaveProcessing? || t.pc.SaveProcessed? || t.pc.SaveInvalid?
    ensures StepMirrors(s, t, s', t', input)
  {
    hide TaskStep, NoCredit, CreditsAre, FreshRow;
    SaveStep(s, t, input);
    SaveStep(s', t', input);
    SameRows(s, TaskStep(s, t, input).0, t.num);
    SameRows(s', TaskStep(s', t', input).0, t.num);
  }

  lemma SameRows(s: Db, s1: Db, num: OrderNumber)
    requires s1.txs == s.txs
    ensures NoCredit(s1, num) == NoCredit(s, num)
    ensures forall a: int :: CreditsAre(s1, num, a) <==> CreditsAre(s, num, a)
  {
  }

  /** A row is added or changes, but no credit does. */
  lemma NoNewCredit(s: Db, s1: Db, num: OrderNumber)
    requires |s.txs| <= |s1.txs|
    requires forall i :: 0 <= i < |s.txs| ==> s1.txs[i].num == s.txs[i].num && s1.txs[i].accrual == s.txs[i].accrual
    requires forall i :: 0 <= i < |s1.txs| ==> (IsCredit(s1.txs[i]) <==> i < |s.txs| && IsCredit(s.txs[i]))
    ensures NoCredit(s1, num) == NoCredit(s, num)
    ensures forall a: int :: CreditsAre(s1, num, a) <==> CreditsAre(s, num, a)
  {
    forall i | 0 <= i < |s.txs| && IsCredit(s.txs[i]) ensures IsCredit(s1.txs[i]) {}
  }

  /** One side of a step that changes rows. */
  lemma TransactionStep(s: Db, t: Task, input: Input)
    requires t.pc.CancelOld? || t.pc.RegisterNew? || t.pc.CancelTx?
    requires FreshRow(s, t) && (HasOrder(t.pc) ==> t.pc.o.num == t.num)
    ensures var (s1, t1) := TaskStep(s, t, input);
      && s1.orders == s.orders && t1.num == t.num && t1.allowProcessing == t.allowProcessing
      && t1.approvals == t.approvals
      && Place(t1.pc) == Place(TransactionNext(t.pc, input.fault)) && FreshRow(s1, t1)
      && NoCredit(s1, t.num) == NoCredit(s, t.num)
      && (forall a: int :: CreditsAre(s1, t.num, a) <==> CreditsAre(s, t.num, a))
  {
    var s1 := TaskStep(s, t, input).0;
    RoundExact(0);
    NoNewCredit(s, s1, t.num);
  }

  function TransactionNext(pc: TaskPc, f: Fault): TaskPc {
    if f != NoFault then Finished
    else match pc
         case CancelOld(o) => RegisterNew(o)
         case RegisterNew(o) => Poll(o, 0)
         case CancelTx(o, tx) => CommitFail(o, tx)
         case _ => pc
  }

  lemma MirrorTransaction(s: Db, t: Task, s': Db, t': Task, input: Input)
    requires Mirrors(s, t, s', t')
    requires t.pc.CancelOld? || t.pc.RegisterNew? || t.pc.CancelTx?
    ensures StepMirrors(s, t, s', t', input)
  {
    hide TaskStep, NoCredit, CreditsAre, FreshRow;
    TransactionStep(s, t, input);
    TransactionStep(s', t', input);
  }

  /** One side of the approval. */
  lemma ApprovalCredits(s: Db, tx: TxId, v: real)
    requires tx < |s.txs| && NoCredit(s, s.txs[tx].num) && s.txs[tx].withdraw == 0 && s.txs[tx].accrual == 0
    requires s.txs[tx].status != TxProcessed
    ensures var (s1, r) := Approved(s, tx, v);
      var num, c, balance := s.txs[tx].num, RoundCents(v), Balance(s, s.txs[tx].user);
      && s1.orders == s.orders
      && (r.Ok? <==> (v > 0.0 ==> Fits(c) && Fits(balance + c)))
      && (NoCredit(s1, num) <==> !(v > 0.0 && c > 0 && Fits(c) && Fits(balance + c)))
      && (forall a: int :: CreditsAre(s1, num, a) <==> NoCredit(s1, num) || a == c)
  {
    var s1, num := Approved(s, tx, v).0, s.txs[tx].num;
    assert forall i :: 0 <= i < |s1.txs| && i != tx ==> s1.txs[i] == s.txs[i];
    assert s1.txs[tx].num == num;
    if IsCredit(s1.txs[tx]) {
      assert !NoCredit(s1, num);
    }
  }

  lemma MirrorApprove(s: Db, t: Task, s': Db, t': Task, input: Input)
    requires Mirrors(s, t, s', t') && t.pc.ApproveTx?
    requires Balance(s, t.pc.o.user) == Balance(s', t.pc.o.user)
    ensures StepMirrors(s, t, s', t', input)
  {
    hide Approved, NoCredit, CreditsAre, Balance;
    ApprovalCredits(s, t.pc.tx, t.pc.value);
    ApprovalCredits(s', t'.pc.tx, t.pc.value);
  }

  lemma MirrorStep(s: Db, t: Task, s': Db, t': Task, input: Input)
    requires Mirrors(s, t, s', t')
    requires t.pc.ApproveTx? ==> Balance(s, t.pc.o.user) == Balance(s', t.pc.o.user)
    ensures StepMirrors(s, t, s', t', input)
  {
    hide Mirrors, StepMirrors, Balance;
    match t.pc
    case SaveProcessing(_) => MirrorSave(s, t, s', t', input);
    case SaveProcessed(_, _, _) => MirrorSave(s, t, s', t', input);
    case SaveInvalid(_, _) => MirrorSave(s, t, s', t', input);
    case CancelOld(_) => MirrorTransaction(s, t, s', t', input);
    case RegisterNew(_) => MirrorTransaction(s, t, s', t', input);
    case CancelTx(_, _) => MirrorTransaction(s, t, s', t', input);
    case ApproveTx(_, _, _) => MirrorApprove(s, t, s', t', input);
    case BeginTouch => MirrorFind(s, t, s', t', input);
    case FindOrder => MirrorFind(s, t, s', t', input);
    case CommitTouch(_) => MirrorFind(s, t, s', t', input);
    case _ => MirrorDecide(s, t, s', t', input);
  }

  // ----- the simulation -----

  /** The task `id` is a run of the order, and no other task is. */
  predicate OnlyRun(st: State, id: nat, num: OrderNumber) {
    && id in st.actors && st.actors[id].TaskActor? && st.actors[id].t.num == num
    && (forall i :: i in st.actors && i != id && LiveTask(st.actors[i]) ==> st.actors[i].t.num != num)
  }

  /** What the simulation keeps: the same point, the same order, and a fresh row alone. */
  ghost predicate Follows(s: Db, t: Task, s': Db, t': Task) {
    && t'.num == t.num && t'.allowProcessing == t.allowProcessing && t'.approvals == t.approvals
    && Place(t'.pc) == Place(t.pc)
    && SameOrder(s, s', t.num) && FreshRow(s', t')
  }

  lemma FollowsMirrors(st: State, id: nat, s': Db, t': Task)
    requires SerialInv(st) && id in st.actors && st.actors[id].TaskActor?
    requires Follows(st.db, st.actors[id].t, s', t')
    ensures Mirrors(st.db, st.actors[id].t, s', t')
  {
    hide NoCredit, CreditsAre;
    var t := st.actors[id].t;
    assert ActorOk(st.db, st.actors[id]) && ActorAlone(st.db, st.actors[id]);
    if TaskArmed(t.pc) {
      assert RowOk(st.db.txs[t.pc.tx]);
    }
  }

  lemma NumStays(s: Db, t: Task, input: Input)
    ensures TaskStep(s, t, input).1.num == t.num
    ensures t.pc.Finished? ==> TaskStep(s, t, input).1 == t
  {
  }

  lemma OnlyRunStays(st: State, action: Action, second: Input, id: nat, num: OrderNumber)
    requires OnlyRun(st, id, num) && !action.Crash? && !(action.StartTask? && action.num == num)
    ensures var st' := ApplySerial(st, action, second);
      && OnlyRun(st', id, num)
      && (if action.Act? && action.id == id then st' == Apply(st, action) else st'.actors[id] == st.actors[id])
  {
    hide TaskStep, UploadStep, WithdrawStep;
    if action.Act? && action.id in st.actors && st.actors[action.id].TaskActor? {
      NumStays(st.db, st.actors[action.id].t, action.input);
    }
  }

  lemma FollowsBeside(st: State, action: Action, second: Input, id: nat, s': Db, t': Task)
    requires SerialInv(st) && id in st.actors && st.actors[id].TaskActor?
    requires OnlyRun(st, id, st.actors[id].t.num) && Follows(st.db, st.actors[id].t, s', t')
    requires !action.Crash? && !(action.StartTask? && action.num == st.actors[id].t.num)
    requires !(action.Act? && action.id == id)
    ensures Follows(ApplySerial(st, action, second).db, st.actors[id].t, s', t')
  {
    hide SerialInv, NoCredit, CreditsAre, ApplySerial;
    StepBeside(st, action, second, st.actors[id].t.num);
  }

  lemma FollowsOwn(st: State, input: Input, id: nat, s': Db, t': Task)
    requires SerialInv(st) && id in st.actors && st.actors[id].TaskActor?
    requires Follows(st.db, st.actors[id].t, s', t')
    requires var t := st.actors[id].t; t.pc.ApproveTx? ==> Balance(st.db, t.pc.o.user) == Balance(s', t.pc.o.user)
    ensures var st1, (s1', t1') := Apply(st, Act(id, input)), TaskStep(s', t', input);
      id in st1.actors && st1.actors[id].TaskActor? && Follows(st1.db, st1.actors[id].t, s1', t1')
  {
    hide SerialInv, Mirrors, TaskStep, SameOrder, FreshRow, Place;
    FollowsMirrors(st, id, s', t');
    MirrorStep(st.db, st.actors[id].t, s', t', input);
  }

  lemma {:induction false} AnswersAgree(s: Db, t: Task, own: seq<OwnStep>, more: seq<OwnStep>, n: nat)
    requires n <= |own|
    ensures RunTask(s, t, Answers(own + more), n) == RunTask(s, t, Answers(own), n)
  {
    hide TaskStep;
    if n > 0 {
      AnswersAgree(s, t, own, more, n - 1);
    }
  }

  /** The user's balance at the approval, if there has been one, is that of `s'`. */
  ghost predicate BalanceAtApproval(own: seq<OwnStep>, user: UserId, s': Db) {
    forall k :: 0 <= k < |own| && own[k].approving ==> Balance(own[k].db, user) == Balance(s', user)
  }

  /** No balance changes before the approval. */
  lemma {:induction false} AccountsUntilApproval(s: Db, t: Task, oracle: Oracle, n: nat)
    ensures var (s', t') := RunTask(s, t, oracle, n);
      t'.approvals >= t.approvals && (t'.approvals == t.approvals ==> s'.accounts == s.accounts)
  {
    hide TaskStep;
    if n > 0 {
      AccountsUntilApproval(s, t, oracle, n - 1);
      AccountsStep(RunTask(s, t, oracle, n - 1).0, RunTask(s, t, oracle, n - 1).1, oracle(n - 1));
    }
  }

  lemma AccountsStep(s: Db, t: Task, input: Input)
    ensures var (s', t') := TaskStep(s, t, input);
      t'.approvals >= t.approvals && (t'.approvals == t.approvals ==> s'.accounts == s.accounts)
  {
    hide Approved, Lookup;
  }

  /** So at the approval both have the same balance. */
  lemma ApprovalBalance(st: State, id: nat, s': Db, t: Task, oracle: Oracle, n: nat)
    requires SerialInv(st) && Approving(st, id) && t.approvals == 0
    requires var (s1', t1') := RunTask(s', t, oracle, n); Follows(st.db, st.actors[id].t, s1', t1')
    ensures RunTask(s', t, oracle, n).0.accounts == s'.accounts
    ensures var t1 := st.actors[id].t; t1.num in st.db.orders && t1.pc.o.user == st.db.orders[t1.num].user
  {
    hide TaskStep, RunTask, SameOrder, FreshRow, LedgerOk;
    assert ActorOk(st.db, st.actors[id]);
    AccountsUntilApproval(s', t, oracle, n);
  }

  lemma UserStays(st: State, action: Action, second: Input, num: OrderNumber)
    requires FreeInv(st) && num in st.db.orders
    ensures var s' := ApplySerial(st, action, second).db;
      num in s'.orders && s'.orders[num].user == st.db.orders[num].user
  {
    hide FreeInv, Apply;
    FreeStep(st, action);
    if action.Act? {
      FreeStep(Apply(st, action), Act(action.id, second));
    }
  }

  /** With anything else going on beside it, the task follows its own run alone. */
  lemma {:induction false} RunFollows(st: State, more: seq<(Action, Input)>, id: nat, s': Db)
    requires SerialInv(st) && id in st.actors && st.actors[id].TaskActor?
    requires var t := st.actors[id].t;
      && t.num in st.db.orders && t.approvals == 0
      && OnlyRun(st, id, t.num) && NoRestart(more, t.num) && Follows(st.db, t, s', t)
      && BalanceAtApproval(OwnSteps(st, more, id), st.db.orders[t.num].user, s')
    ensures var (t, own, st1) := (st.actors[id].t, OwnSteps(st, more, id), RunSerial(st, more));
      && SerialInv(st1) && OnlyRun(st1, id, t.num)
      && t.num in st1.db.orders && st1.db.orders[t.num].user == st.db.orders[t.num].user
      && var (s1', t1') := RunTask(s', t, Answers(own), |own|);
         Follows(st1.db, st1.actors[id].t, s1', t1')
  {
    hide SerialInv, Follows, ApplySerial, TaskStep, Balance, OnlyRun;
    var t := st.actors[id].t;
    if more != [] {
      var n := |more| - 1;
      var before := RunSerial(st, more[..n]);
      var (action, second) := more[n];
      var own := OwnSteps(st, more[..n], id);
      assert OwnSteps(st, more, id)[..|own|] == own;
      RunFollows(st, more[..n], id, s');
      SerialStep(before, action, second);
      OnlyRunStays(before, action, second, id, t.num);
      OnlyRunHas(before, id, t.num);
      assert FreeInv(before) by {
        SerialIsFree(before);
      }
      UserStays(before, action, second, t.num);
      OnlyRunHas(RunSerial(st, more), id, t.num);
      var (s1', t1') := RunTask(s', t, Answers(own), |own|);
      if action.Act? && action.id == id {
        var step := OwnStep(before.db, Approving(before, id), action.input);
        AnswersAgree(s', t, own, [step], |own|);
        if Approving(before, id) {
          assert OwnSteps(st, more, id)[|own|] == step;
          ApprovalBalance(before, id, s', t, Answers(own), |own|);
          SameBalance(s', s1', st.db.orders[t.num].user);
        }
        FollowsOwn(before, action.input, id, s1', t1');
      } else {
        assert OwnSteps(st, more, id) == own;
        FollowsBeside(before, action, second, id, s1', t1');
      }
    }
  }

  lemma SerialIsFree(st: State)
    requires SerialInv(st)
    ensures FreeInv(st)
  {
  }

  lemma SameBalance(s: Db, s': Db, user: UserId)
    requires s'.accounts == s.accounts
    ensures Balance(s', user) == Balance(s, user)
  {
  }

  lemma OnlyRunHas(st: State, id: nat, num: OrderNumber)
    requires OnlyRun(st, id, num)
    ensures id in st.actors && st.actors[id].TaskActor? && st.actors[id].t.num == num
  {
  }

  // ----- the approval -----

  /** The tables that the task found at its approval; `start` if it has made none. */
  function ApprovalDb(own: seq<OwnStep>, start: Db): Db {
    if own == [] then start
    else if own[|own| - 1].approving then own[|own| - 1].db
    else ApprovalDb(own[..|own| - 1], start)
  }

  lemma ApprovalsCount(st: State, action: Action, second: Input, id: nat, num: OrderNumber)
    requires SerialInv(st) && OnlyRun(st, id, num) && !action.Crash? && !(action.StartTask? && action.num == num)
    ensures var st1 := ApplySerial(st, action, second);
      && OnlyRun(st1, id, num) && st1.actors[id].t.approvals >= st.actors[id].t.approvals
      && (action.Act? && action.id == id && Approving(st, id) ==>
            st.actors[id].t.approvals == 0 && st1.actors[id].t.approvals > 0)
  {
    hide SerialInv;
    OnlyRunStays(st, action, second, id, num);
    if action.Act? && action.id == id {
      assert TaskOk(st.db, st.actors[id].t) by {
        SerialTaskOk(st, id);
      }
    }
  }

  lemma SerialTaskOk(st: State, id: nat)
    requires SerialInv(st) && id in st.actors && st.actors[id].TaskActor?
    ensures TaskOk(st.db, st.actors[id].t)
  {
    assert ActorOk(st.db, st.actors[id]);
  }

  /** There is one approval at most. */
  lemma {:induction false} OneApproval(st: State, more: seq<(Action, Input)>, id: nat, num: OrderNumber)
    requires SerialInv(st) && OnlyRun(st, id, num) && NoRestart(more, num)
    ensures var (own, st1) := (OwnSteps(st, more, id), RunSerial(st, more));
      && SerialInv(st1) && OnlyRun(st1, id, num)
      && (st1.actors[id].t.approvals == 0 ==> forall k :: 0 <= k < |own| ==> !own[k].approving)
      && (forall k :: 0 <= k < |own| && own[k].approving ==> own[k].db == ApprovalDb(own, st.db))
  {
    hide SerialInv, OnlyRun, ApplySerial, Approving;
    if more != [] {
      var n := |more| - 1;
      var before := RunSerial(st, more[..n]);
      var (action, second) := more[n];
      var own := OwnSteps(st, more[..n], id);
      OneApproval(st, more[..n], id, num);
      SerialStep(before, action, second);
      ApprovalsCount(before, action, second, id, num);
      OnlyRunHas(before, id, num);
      OnlyRunHas(RunSerial(st, more), id, num);
      if action.Act? && action.id == id {
        assert OwnSteps(st, more, id)[..|own|] == own;
      } else {
        assert OwnSteps(st, more, id) == own;
      }
    }
  }

  // ----- main results -----

  /** The answers from the final reply on, of a task that has polled again `polls` times. */
  predicate BesidePolls(st: State, more: seq<(Action, Input)>, id: nat, polls: nat) {
    PollsExactly(Answers(OwnSteps(st, more, id)), polls)
  }

  /** A task about to run for a pending order, alone at work on it, with anything else going on. */
  ghost predicate Starting(st: State, more: seq<(Action, Input)>, id: nat, num: OrderNumber, allow: bool) {
    && SerialInv(st) && OnlyRun(st, id, num) && st.actors[id].t == NewTask(num, allow)
    && Admits(st.db, num, allow) && NoRestart(more, num)
  }

  lemma PendingUncredited(s: Db, num: OrderNumber, allow: bool)
    requires CreditsSettled(s) && Admits(s, num, allow)
    ensures NoCredit(s, num)
  {
  }

  /** The tables on which the task alone does the same: those at the start, with the balances
      of its approval. */
  function Alike(st: State, own: seq<OwnStep>): Db {
    st.db.(accounts := ApprovalDb(own, st.db).accounts)
  }

  /** The run beside all others and the run alone are at the same point. */
  lemma AloneAlike(st: State, more: seq<(Action, Input)>, id: nat, num: OrderNumber, allow: bool)
    requires Starting(st, more, id, num, allow)
    ensures var (own, st1) := (OwnSteps(st, more, id), RunSerial(st, more));
      var (s', t') := RunTask(Alike(st, own), NewTask(num, allow), Answers(own), |own|);
      && OnlyRun(st1, id, num) && Follows(st1.db, st1.actors[id].t, s', t')
      && NoCredit(Alike(st, own), num)
  {
    hide TaskStep, RunTask, ApplySerial, LedgerOk, CreditsOwned, CreditOnce;
    var own := OwnSteps(st, more, id);
    var s := Alike(st, own);
    OneApproval(st, more, id, num);
    PendingUncredited(st.db, num, allow);
    SameRows(st.db, s, num);
    assert BalanceAtApproval(own, st.db.orders[num].user, s);
    RunFollows(st, more, id, s);
  }

  /** A run of a pending order in a serialized run, with requests, runs of other orders and any
      faults beside it: at every point it has credited its order, with what its final reply
      grants, and saved a terminal status under exactly the conditions under which it would
      alone; whether the grant overflows is decided by the tables at its approval. */
  lemma CreditExactlyBeside(st: State, more: seq<(Action, Input)>, id: nat, num: OrderNumber, allow: bool, polls: nat)
    requires Starting(st, more, id, num, allow) && BesidePolls(st, more, id, polls)
    ensures var (own, s') := (OwnSteps(st, more, id), RunSerial(st, more).db);
      var oracle, user := Answers(own), st.db.orders[num].user;
      var last, m, clean := FromReply(oracle, polls), After(|own|, polls), ClaimsCleanly(oracle);
      && (!NoCredit(s', num) <==> clean && Credits.Credits(ApprovalDb(own, st.db), user, last, m))
      && CreditsAre(s', num, Granted(last(0).reply))
      && num in s'.orders && s'.orders[num].user == user
      && (s'.orders[num].status == OrderProcessed <==> clean && SavesProcessedStatus(last, m))
      && (s'.orders[num].status == OrderInvalid <==> clean && SavesInvalidStatus(last, m))
  {
    hide TaskStep, RunTask, RunSerial, SerialInv, NoCredit, CreditsAre, SavesProcessedStatus, SavesInvalidStatus,
      PollsExactly, OwnSteps, ApprovalDb, ClaimsCleanly, FreshRow, Place;
    var own := OwnSteps(st, more, id);
    AloneAlike(st, more, id, num, allow);
    CreditExactly(Alike(st, own), num, allow, Answers(own), polls, |own|);
    CreditsByBalance(Alike(st, own), ApprovalDb(own, st.db), st.db.orders[num].user,
                     FromReply(Answers(own), polls), After(|own|, polls));
  }

  lemma CreditsByBalance(s: Db, s': Db, user: UserId, oracle: Oracle, m: nat)
    requires s'.accounts == s.accounts
    ensures Credits.Credits(s', user, oracle, m) <==> Credits.Credits(s, user, oracle, m)
  {
  }

  // ----- fault-free runs -----

  ghost predicate AllFaultFree(own: seq<OwnStep>) {
    forall k :: 0 <= k < |own| ==> FaultFree(own[k].input)
  }

  lemma FindFinalReply(own: seq<OwnStep>) returns (polls: nat)
    requires AllFaultFree(own)
    ensures PollsExactly(Answers(own), polls) && CleanRun(Answers(own), polls)
  {
    var oracle := Answers(own);
    polls := 0;
    while KeepsPolling(oracle(6 + polls).reply)
      invariant forall k :: 6 <= k < 6 + polls ==> KeepsPolling(oracle(k).reply) && !oracle(k).cancelled
      decreases |own| - polls
    {
      polls := polls + 1;
    }
  }

  /** Up to its final reply a fault-free run has not finished. */
  lemma NotFinishedBefore(s: Db, num: OrderNumber, allow: bool, oracle: Oracle, polls: nat, n: nat)
    requires Admits(s, num, allow) && CleanRun(oracle, polls) && n <= 6 + polls
    ensures !RunTask(s, NewTask(num, allow), oracle, n).1.pc.Finished?
  {
    hide TaskStep, RunTask, KeepsPolling;
    if n <= 6 {
      ClaimSteps(s, num, allow, oracle, n);
    } else {
      PreparePhase(s, num, allow, oracle);
      RunTaskConcat(s, NewTask(num, allow), oracle, 6, n - 6);
      PollPhase(Prepared(s, num), Task(num, allow, Poll(Claimed(s, num), |s.txs|), 0, 0), Shift(oracle, 6), n - 6);
    }
  }

  /** Alone, a fault-free run that has finished settles its order as its final reply says. */
  lemma CleanSettles(s: Db, num: OrderNumber, allow: bool, oracle: Oracle, polls: nat, n: nat)
    requires Admits(s, num, allow) && NoCredit(s, num) && CleanRun(oracle, polls)
    requires RunTask(s, NewTask(num, allow), oracle, n).1.pc.Finished?
    ensures var (s', reply, user) := (RunTask(s, NewTask(num, allow), oracle, n).0, FinalReply(oracle, polls),
                                      s.orders[num].user);
      && n > 6 + polls
      && num in s'.orders
      && s'.orders[num] == OrderRow(user, if Accepted(reply) then OrderProcessed else OrderInvalid)
      && (!NoCredit(s', num) <==> Granted(reply) > 0 && !Overflows(s, user, reply))
      && CreditsAre(s', num, Granted(reply))
  {
    hide TaskStep, RunTask, KeepsPolling;
    if n <= 6 + polls {
      NotFinishedBefore(s, num, allow, oracle, polls, n);
    }
    CleanRunEnds(s, num, allow, oracle, polls, n);
    CreditExactly(s, num, allow, oracle, polls, polls + 11);
    RecoveryConverges(s, num, allow, oracle, polls);
    assert FromReply(oracle, polls)(0) == oracle(6 + polls);
    assert FromReply(oracle, polls)(1) == oracle(7 + polls);
    assert FromReply(oracle, polls)(2) == oracle(8 + polls);
    assert FromReply(oracle, polls)(3) == oracle(9 + polls);
  }

  /** The order is settled as the final reply of the run says: terminal, and with one credit, of
      what the reply grants, exactly unless that is nothing or overflows at the approval. */
  ghost predicate SettledAfter(st: State, own: seq<OwnStep>, num: OrderNumber, polls: nat, s': Db)
    requires num in st.db.orders
  {
    && PollsExactly(Answers(own), polls) && |own| > 6 + polls
    && var reply, user := own[6 + polls].input.reply, st.db.orders[num].user;
       && num in s'.orders
       && s'.orders[num] == OrderRow(user, if Accepted(reply) then OrderProcessed else OrderInvalid)
       && (!NoCredit(s', num) <==> Granted(reply) > 0 && !Overflows(ApprovalDb(own, st.db), user, reply))
       && CreditsAre(s', num, Granted(reply))
  }

  /** Every run of a pending order that no fault hits and that has finished, with anything else
      going on beside it, has settled the order. */
  lemma CleanRunBeside(st: State, more: seq<(Action, Input)>, id: nat, num: OrderNumber, allow: bool)
      returns (polls: nat)
    requires Starting(st, more, id, num, allow) && AllFaultFree(OwnSteps(st, more, id))
    requires OnlyRun(RunSerial(st, more), id, num) && RunSerial(st, more).actors[id].t.pc.Finished?
    ensures var (own, s') := (OwnSteps(st, more, id), RunSerial(st, more).db);
      SettledAfter(st, own, num, polls, s')
  {
    hide TaskStep, RunTask, RunSerial, SerialInv, NoCredit, CreditsAre, OwnSteps, ApprovalDb, FreshRow, AllFaultFree,
      PollsExactly, CleanRun;
    var own := OwnSteps(st, more, id);
    polls := FindFinalReply(own);
    AloneAlike(st, more, id, num, allow);
    CleanSettles(Alike(st, own), num, allow, Answers(own), polls, |own|);
  }

  // ----- recovery with everything running at once -----

  /** Past the gate, a task at work on a terminal order has saved it already. */
  lemma TaskLeavesTerminal(s: Db, t: Task, input: Input)
    requires TaskOk(s, t) && TaskAlone(s, t) && t.num in s.orders && Terminal(s.orders[t.num].status)
    ensures TaskStep(s, t, input).0.orders == s.orders
  {
  }

  lemma TerminalStep(st: State, action: Action, second: Input, num: OrderNumber)
    requires SerialInv(st) && num in st.db.orders && Terminal(st.db.orders[num].status)
    ensures var s' := ApplySerial(st, action, second).db;
      num in s'.orders && s'.orders[num] == st.db.orders[num]
  {
    if WorksOn(st, action, num) {
      hide TaskStep, LedgerOk, CreditsOwned;
      assert ActorAlone(st.db, st.actors[action.id]) && ActorOk(st.db, st.actors[action.id]);
      TaskLeavesTerminal(st.db, st.actors[action.id].t, action.input);
    } else {
      hide *;
      StepBeside(st, action, second, num);
      SameOrderRow(st.db, ApplySerial(st, action, second).db, num);
    }
  }

  lemma SameOrderRow(s: Db, s': Db, num: OrderNumber)
    requires SameOrder(s, s', num)
    ensures num in s.orders && num in s'.orders && s'.orders[num] == s.orders[num]
  {
  }

  /** In serialized runs a terminal order is final: no step, no crash and no later run changes
      its row. */
  lemma {:induction false} TerminalIsFinal(st: State, more: seq<(Action, Input)>, num: OrderNumber)
    requires SerialInv(st) && num in st.db.orders && Terminal(st.db.orders[num].status)
    ensures var s' := RunSerial(st, more).db;
      SerialInv(RunSerial(st, more)) && num in s'.orders && s'.orders[num] == st.db.orders[num]
  {
    hide SerialInv, ApplySerial;
    if more != [] {
      var n := |more| - 1;
      TerminalIsFinal(st, more[..n], num);
      SerialStep(RunSerial(st, more[..n]), more[n].0, more[n].1);
      TerminalStep(RunSerial(st, more[..n]), more[n].0, more[n].1, num);
    }
  }

  /** At step `k` of `more`, while no task works on the order, recovery starts the task `id` for
      it; no fault hits that run, nobody starts another one, and it has finished in the end. */
  ghost predicate RunFor(st: State, more: seq<(Action, Input)>, num: OrderNumber, k: nat, id: nat)
    requires k < |more|
  {
    var before, rest := RunSerial(st, more[..k]), more[k + 1..];
    var started := RunSerial(st, more[..k + 1]);
    && more[k].0 == StartTask(id, num, true) && id !in before.actors && !Busy(before, num)
    && NoRestart(rest, num) && AllFaultFree(OwnSteps(started, rest, id))
    && OnlyRun(RunSerial(started, rest), id, num) && RunSerial(started, rest).actors[id].t.pc.Finished?
  }

  ghost predicate RunsCleanly(st: State, more: seq<(Action, Input)>, num: OrderNumber) {
    exists k: nat, id: nat :: k < |more| && RunFor(st, more, num, k, id)
  }

  /** The run started at step `k` has settled the order. */
  ghost predicate SettledByRun(st: State, more: seq<(Action, Input)>, num: OrderNumber, k: nat, id: nat)
    requires k < |more|
  {
    var started, rest := RunSerial(st, more[..k + 1]), more[k + 1..];
    num in started.db.orders && exists polls: nat ::
      SettledAfter(started, OwnSteps(started, rest, id), num, polls, RunSerial(st, more).db)
  }

  lemma StartedAlone(before: State, second: Input, id: nat, num: OrderNumber)
    requires SerialInv(before) && id !in before.actors && !Busy(before, num)
    ensures var started := ApplySerial(before, StartTask(id, num, true), second);
      && SerialInv(started) && started.db == before.db
      && OnlyRun(started, id, num) && started.actors[id].t == NewTask(num, true)
  {
    SerialStep(before, StartTask(id, num, true), second);
  }

  lemma OrdersStay(st: State, action: Action, second: Input, num: OrderNumber)
    requires SerialInv(st) && num in st.db.orders
    ensures num in ApplySerial(st, action, second).db.orders
  {
    hide ApplySerial;
    UserStays(st, action, second, num);
  }

  lemma {:induction false} SerialFrom(st: State, more: seq<(Action, Input)>, num: OrderNumber)
    requires SerialInv(st) && num in st.db.orders
    ensures SerialInv(RunSerial(st, more)) && num in RunSerial(st, more).db.orders
  {
    hide SerialInv, ApplySerial;
    if more != [] {
      var n := |more| - 1;
      SerialFrom(st, more[..n], num);
      SerialStep(RunSerial(st, more[..n]), more[n].0, more[n].1);
      OrdersStay(RunSerial(st, more[..n]), more[n].0, more[n].1, num);
    }
  }

  lemma RecoveredOrder(st: State, more: seq<(Action, Input)>, num: OrderNumber, k: nat, id: nat)
    requires SerialInv(st) && num in st.db.orders && k < |more| && RunFor(st, more, num, k, id)
    ensures var s' := RunSerial(st, more).db;
      && num in s'.orders && Terminal(s'.orders[num].status)
      && (Admits(RunSerial(st, more[..k]).db, num, true) ==> SettledByRun(st, more, num, k, id))
  {
    hide SerialInv, ApplySerial, AllFaultFree, OnlyRun, NoRestart, TaskStep, OwnSteps, NoCredit, CreditsAre, Busy;
    var before, rest := RunSerial(st, more[..k]), more[k + 1..];
    var started := RunSerial(st, more[..k + 1]);
    SerialFrom(st, more[..k], num);
    assert more[..k + 1][..k] == more[..k];
    StartedAlone(before, more[k].1, id, num);
    assert more == more[..k + 1] + rest;
    RunSerialConcat(st, more[..k + 1], rest);
    if Terminal(before.db.orders[num].status) {
      TerminalIsFinal(started, rest, num);
    } else {
      var polls := CleanRunBeside(started, rest, id, num, true);
      assert SettledAfter(started, OwnSteps(started, rest, id), num, polls, RunSerial(st, more).db);
    }
  }

  /** Recovery after any serialized run, its tasks and everything else interleaved in any way:
      every order for which recovery has started a run that no fault hit and that has finished
      is terminal, and settled by that run if it was pending when the run started. So if there
      was one for every pending order, none of them is pending. */
  lemma InterleavedRecovery(run: seq<(Action, Input)>, more: seq<(Action, Input)>)
    ensures var (st, s') := (RunSerial(INIT, run), RunSerial(INIT, run + more).db);
      && (forall num, k: nat, id: nat :: num in st.db.orders && k < |more| && RunFor(st, more, num, k, id) ==>
            && num in s'.orders && Terminal(s'.orders[num].status)
            && (Admits(RunSerial(st, more[..k]).db, num, true) ==> SettledByRun(st, more, num, k, id)))
      && ((forall num :: Admits(st.db, num, true) ==> RunsCleanly(st, more, num)) ==>
            forall num :: num in st.db.orders ==> num in s'.orders && Terminal(s'.orders[num].status))
  {
    hide RunSerial, RunsCleanly, SerialInv, RunFor, SettledByRun;
    var st := RunSerial(INIT, run);
    SerialRunInv(run);
    RunSerialConcat(INIT, run, more);
    var s' := RunSerial(INIT, run + more).db;
    forall num, k: nat, id: nat | num in st.db.orders && k < |more| && RunFor(st, more, num, k, id)
      ensures num in s'.orders && Terminal(s'.orders[num].status)
      ensures Admits(RunSerial(st, more[..k]).db, num, true) ==> SettledByRun(st, more, num, k, id)
    {
      RecoveredOrder(st, more, num, k, id);
    }
    if forall num :: Admits(st.db, num, true) ==> RunsCleanly(st, more, num) {
      forall num | num in st.db.orders ensures num in s'.orders && Terminal(s'.orders[num].status) {
        if Terminal(st.db.orders[num].status) {
          TerminalIsFinal(st, more, num);
        } else {
          assert Admits(st.db, num, true);
          var k, id := CleanRunOf(st, more, num);
          RecoveredOrder(st, more, num, k, id);
        }
      }
    }
  }

  lemma CleanRunOf(st: State, more: seq<(Action, Input)>, num: OrderNumber) returns (k: nat, id: nat)
    requires RunsCleanly(st, more, num)
    ensures k < |more| && RunFor(st, more, num, k, id)
  {
    k, id :| k < |more| && RunFor(st, more, num, k, id);
  }
}

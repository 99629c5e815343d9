/** What holds in every state of every free run, and what no step ever undoes. */
module FreeRuns {
  import opened Domain
  import opened Database
  import opened Ledger
  import opened Protocol

  // ----- invariant -----

  /** A credit belongs to the owner of its order number. */
  predicate IsCredit(r: TxRow) {
    r.status == TxProcessed && r.accrual > 0
  }

  predicate CreditsOwned(s: Db) {
    forall i :: 0 <= i < |s.txs| && IsCredit(s.txs[i]) ==>
      s.txs[i].num in s.orders && s.orders[s.txs[i].num].user == s.txs[i].user
  }

  predicate HasOrder(pc: TaskPc) {
    !pc.BeginTouch? && !pc.FindOrder? && !pc.Finished?
  }

  /** The task may still approve or cancel its transaction. */
  predicate TaskArmed(pc: TaskPc) {
    || pc.Poll? || pc.BeginSuccess? || pc.SaveProcessed? || pc.ApproveTx?
    || (pc.BeginFail? && !Terminal(pc.o.status)) || pc.SaveInvalid? || pc.CancelTx?
  }

  predicate BeforeTerminalAction(pc: TaskPc) {
    || TaskArmed(pc) || pc.BeginTouch? || pc.FindOrder? || pc.SaveProcessing? || pc.CommitTouch?
    || pc.CancelOld? || pc.RegisterNew?
  }

  /** The status the task's in-memory order has at each point. */
  predicate MemoryStatus(pc: TaskPc) {
    match pc
    case SaveProcessing(o) => o.status == OrderProcessing
    case CommitTouch(o) => o.status == OrderProcessing
    case CancelOld(o) => o.status == OrderProcessing
    case RegisterNew(o) => o.status == OrderProcessing
    case Poll(o, _) => o.status == OrderProcessing
    case BeginSuccess(o, _, _) => o.status == OrderProcessing
    case SaveProcessed(o, _, _) => o.status == OrderProcessed
    case ApproveTx(o, _, _) => o.status == OrderProcessed
    case CommitSuccess(o, _) => o.status == OrderProcessed
    case BeginFail(o, _) => o.status == OrderProcessing || o.status == OrderProcessed
    case SaveInvalid(o, _) => o.status == OrderInvalid
    case CancelTx(o, _) => o.status == OrderInvalid
    case CommitFail(o, _) => o.status == OrderInvalid
    case _ => true
  }

  /** At most one terminal action per run, and none before the task gets there. */
  predicate OneTerminalAction(t: Task) {
    && t.approvals + t.cancels <= 1
    && (BeforeTerminalAction(t.pc) ==> t.approvals + t.cancels == 0)
  }

  predicate TaskOk(s: Db, t: Task) {
    && MemoryStatus(t.pc)
    && OneTerminalAction(t)
    && (HasOrder(t.pc) ==>
          && t.pc.o.num == t.num && t.num in s.orders
          && s.orders[t.num].user == t.pc.o.user)
    && (TaskArmed(t.pc) ==>
          && t.pc.tx < |s.txs|
          && s.txs[t.pc.tx].user == t.pc.o.user && s.txs[t.pc.tx].num == t.num
          && s.txs[t.pc.tx].withdraw == 0 && s.txs[t.pc.tx].status != TxProcessed)
  }

  predicate WithdrawOk(s: Db, w: Withdraw) {
    w.WithdrawApprove? ==> w.tx < |s.txs| && s.txs[w.tx].status != TxProcessed
  }

  predicate ActorOk(s: Db, a: Actor) {
    match a
    case TaskActor(t) => TaskOk(s, t)
    case UploadActor(_) => true
    case WithdrawActor(w) => WithdrawOk(s, w)
  }

  /** The transaction the actor may still approve or cancel by its id; -1 for none. */
  function Own(a: Actor): int {
    match a
    case TaskActor(t) => if TaskArmed(t.pc) then t.pc.tx else -1
    case UploadActor(_) => -1
    case WithdrawActor(w) => if w.WithdrawApprove? then w.tx else -1
  }

  predicate SingleOwners(actors: map<nat, Actor>) {
    forall i, j :: i in actors && j in actors && i != j && Own(actors[i]) != -1
      ==> Own(actors[i]) != Own(actors[j])
  }

  ghost predicate FreeInv(st: State) {
    && LedgerOk(st.db)
    && CreditsOwned(st.db)
    && (forall i :: i in st.actors ==> ActorOk(st.db, st.actors[i]))
    && SingleOwners(st.actors)
  }

  // ----- what one step may do to the tables -----

  /** A row keeps its user, order and withdrawal; a processed row keeps everything. */
  predicate RowEvolves(r: TxRow, r': TxRow) {
    && r'.user == r.user && r'.num == r.num && r'.withdraw == r.withdraw
    && (r.status == TxProcessed ==> r' == r)
  }

  /** Rows are only added or evolve, and an order number keeps its user. */
  predicate DbEvolves(s: Db, s': Db) {
    && |s.txs| <= |s'.txs|
    && (forall i :: 0 <= i < |s.txs| ==> RowEvolves(s.txs[i], s'.txs[i]))
    && (forall n :: n in s.orders ==> n in s'.orders && s'.orders[n].user == s.orders[n].user)
  }

  /** Moreover only the row `own` can become processed. */
  predicate StepEffect(s: Db, s': Db, own: int) {
    && DbEvolves(s, s')
    && (forall i :: 0 <= i < |s.txs| && i != own && s.txs[i].status != TxProcessed
          ==> s'.txs[i].status != TxProcessed)
  }

  // ----- the statements, one by one -----

  lemma SaveKeeps(s: Db, o: OrderValue, f: Fault)
    requires LedgerOk(s) && CreditsOwned(s)
    ensures var s' := Save(s, o, f).0;
      && LedgerOk(s') && CreditsOwned(s') && StepEffect(s, s', -1) && s'.txs == s.txs
      && (Save(s, o, f).1.Ok? ==> s'.orders == s.orders[o.num := OrderRow(o.user, o.status)])
  {
    assert Save(s, o, f).0.accounts == s.accounts;
    forall u: UserId ensures Balance(Save(s, o, f).0, u) == Balance(s, u) {}
  }

  lemma RegisterKeeps(s: Db, user: UserId, num: OrderNumber, sum: real, f: Fault)
    requires LedgerOk(s) && CreditsOwned(s)
    requires sum <= 0.0
    ensures var (s', r) := Register(s, user, num, sum, f);
      && LedgerOk(s') && CreditsOwned(s') && StepEffect(s, s', -1) && s'.orders == s.orders
      && (r.Ok? ==> && r.value == |s.txs| && |s'.txs| == |s.txs| + 1
                    && s'.txs[r.value].user == user && s'.txs[r.value].num == num
                    && s'.txs[r.value].status == TxPlanned
                    && (sum == 0.0 ==> s'.txs[r.value].withdraw == 0))
  {
    var s' := Register(s, user, num, sum, f).0;
    if |s'.txs| > |s.txs| {
      var row := s'.txs[|s.txs|];
      assert s'.txs == s.txs + [row];
      forall u: UserId ensures Balance(s', u) == Balance(s, u) && Sum(s'.txs, NetOf(u)) == Sum(s.txs, NetOf(u)) {
        SumAppend(s.txs, row, NetOf(u));
      }
    }
  }

  lemma CancelKeeps(s: Db, tx: TxId, f: Fault)
    requires LedgerOk(s) && CreditsOwned(s)
    requires tx < |s.txs| && s.txs[tx].status != TxProcessed
    ensures var s' := Cancel(s, tx, f).0;
      LedgerOk(s') && CreditsOwned(s') && StepEffect(s, s', -1) && s'.orders == s.orders
  {
    var s' := Cancel(s, tx, f).0;
    forall u: UserId ensures Balance(s', u) == Balance(s, u) && Sum(s'.txs, NetOf(u)) == Sum(s.txs, NetOf(u)) {
      SumSame(s.txs, s'.txs, NetOf(u));
    }
  }

  lemma CancelPlannedKeeps(s: Db, user: UserId, num: OrderNumber, f: Fault)
    requires LedgerOk(s) && CreditsOwned(s)
    ensures var s' := CancelPlanned(s, user, num, f).0;
      LedgerOk(s') && CreditsOwned(s') && StepEffect(s, s', -1) && s'.orders == s.orders
  {
    var s' := CancelPlanned(s, user, num, f).0;
    forall u: UserId ensures Balance(s', u) == Balance(s, u) && Sum(s'.txs, NetOf(u)) == Sum(s.txs, NetOf(u)) {
      SumSame(s.txs, s'.txs, NetOf(u));
    }
  }

  lemma ApprovedKeepsLedger(s: Db, tx: TxId, accrual: real)
    requires LedgerOk(s) && tx < |s.txs| && s.txs[tx].status != TxProcessed
    ensures LedgerOk(Approved(s, tx, accrual).0)
  {
    ApproveAgreementExact(s, tx, accrual);
    var s' := Approved(s, tx, accrual).0;
    forall u: UserId ensures Balance(s', u) >= 0 {
      assert Balance(s, u) >= 0;
    }
  }

  lemma ApprovedEffect(s: Db, tx: TxId, accrual: real)
    requires tx < |s.txs| && s.txs[tx].status != TxProcessed
    ensures var s' := Approved(s, tx, accrual).0;
      StepEffect(s, s', tx) && s'.orders == s.orders
  {
  }

  lemma ApproveKeeps(s: Db, tx: TxId, accrual: real, f: Fault)
    requires LedgerOk(s) && CreditsOwned(s)
    requires tx < |s.txs| && s.txs[tx].status != TxProcessed
    requires accrual > 0.0 && s.txs[tx].withdraw == 0 ==>
      s.txs[tx].num in s.orders && s.orders[s.txs[tx].num].user == s.txs[tx].user
    ensures var s' := Approve(s, tx, accrual, f).0;
      LedgerOk(s') && CreditsOwned(s') && StepEffect(s, s', tx) && s'.orders == s.orders
  {
    ApprovedKeepsLedger(s, tx, accrual);
    ApprovedEffect(s, tx, accrual);
    assert RowOk(s.txs[tx]);
    assert CreditsOwned(Approved(s, tx, accrual).0);
  }

  // ----- one step of an actor -----

  /** An actor's own step keeps the ledger and the actor's part of the invariant, processes
      no row but its own, and ends owning what it owned, a fresh row, or nothing. */
  lemma OwnStep(s: Db, a: Actor, input: Input)
    requires LedgerOk(s) && CreditsOwned(s) && ActorOk(s, a)
    ensures var (s', a') := ActorStep(s, a, input);
      && LedgerOk(s') && CreditsOwned(s') && ActorOk(s', a')
      && StepEffect(s, s', Own(a))
      && (Own(a') == Own(a) || Own(a') == |s.txs| || Own(a') == -1)
  {
    match a
    case TaskActor(t) => TaskOwnStep(s, t, input);
    case UploadActor(u) =>
      if u.UploadSave? { SaveKeeps(s, OrderValue(u.user, u.num, OrderNew), input.fault); }
    case WithdrawActor(w) =>
      match w {
        case WithdrawRegister(user, num, sum) =>
          if sum > 0.0 { RegisterKeeps(s, user, num, -sum, input.fault); }
        case WithdrawApprove(tx) => ApproveKeeps(s, tx, 0.0, input.fault);
        case WithdrawDone(_) =>
      }
  }

  ghost predicate TaskStepKeeps(s: Db, t: Task, input: Input) {
    var (s', t') := TaskStep(s, t, input);
    && LedgerOk(s') && CreditsOwned(s') && TaskOk(s', t')
    && StepEffect(s, s', Own(TaskActor(t)))
    && (Own(TaskActor(t')) == Own(TaskActor(t)) || Own(TaskActor(t')) == |s.txs| || Own(TaskActor(t')) == -1)
  }

  /** The steps that save the order. */
  lemma TaskSaveStep(s: Db, t: Task, input: Input)
    requires LedgerOk(s) && CreditsOwned(s) && TaskOk(s, t)
    requires t.pc.SaveProcessing? || t.pc.SaveProcessed? || t.pc.SaveInvalid?
    ensures TaskStepKeeps(s, t, input)
  {
    SaveKeeps(s, t.pc.o, input.fault);
  }

  lemma TaskCancelOldStep(s: Db, t: Task, input: Input)
    requires LedgerOk(s) && CreditsOwned(s) && TaskOk(s, t) && t.pc.CancelOld?
    ensures TaskStepKeeps(s, t, input)
  {
    CancelPlannedKeeps(s, t.pc.o.user, t.pc.o.num, input.fault);
  }

  lemma TaskRegisterStep(s: Db, t: Task, input: Input)
    requires LedgerOk(s) && CreditsOwned(s) && TaskOk(s, t) && t.pc.RegisterNew?
    ensures TaskStepKeeps(s, t, input)
  {
    RegisterKeeps(s, t.pc.o.user, t.pc.o.num, 0.0, input.fault);
  }

  lemma TaskApproveStep(s: Db, t: Task, input: Input)
    requires LedgerOk(s) && CreditsOwned(s) && TaskOk(s, t) && t.pc.ApproveTx?
    ensures TaskStepKeeps(s, t, input)
  {
    ApproveKeeps(s, t.pc.tx, t.pc.value, input.fault);
  }

  lemma TaskCancelStep(s: Db, t: Task, input: Input)
    requires LedgerOk(s) && CreditsOwned(s) && TaskOk(s, t) && t.pc.CancelTx?
    ensures TaskStepKeeps(s, t, input)
  {
    CancelKeeps(s, t.pc.tx, input.fault);
  }

  /** The steps that touch no table. */
  ghost predicate QuietStep(s: Db, t: Task, input: Input) {
    var (s', t') := TaskStep(s, t, input);
    && s' == s && TaskOk(s, t')
    && (Own(TaskActor(t')) == Own(TaskActor(t)) || Own(TaskActor(t')) == -1)
  }

  lemma TaskFindStep(s: Db, t: Task, input: Input)
    requires TaskOk(s, t) && (t.pc.BeginTouch? || t.pc.FindOrder? || t.pc.CommitTouch?)
    ensures QuietStep(s, t, input)
  {
  }

  lemma TaskDecideStep(s: Db, t: Task, input: Input)
    requires TaskOk(s, t) && (t.pc.Poll? || t.pc.BeginSuccess? || t.pc.BeginFail?)
    ensures QuietStep(s, t, input)
  {
  }

  lemma TaskEndStep(s: Db, t: Task, input: Input)
    requires TaskOk(s, t) && (t.pc.CommitSuccess? || t.pc.CommitFail? || t.pc.Finished?)
    ensures QuietStep(s, t, input)
  {
  }

  lemma TaskOwnStep(s: Db, t: Task, input: Input)
    requires LedgerOk(s) && CreditsOwned(s) && TaskOk(s, t)
    ensures TaskStepKeeps(s, t, input)
  {
    match t.pc
    case SaveProcessing(_) => TaskSaveStep(s, t, input);
    case SaveProcessed(_, _, _) => TaskSaveStep(s, t, input);
    case SaveInvalid(_, _) => TaskSaveStep(s, t, input);
    case CancelOld(_) => TaskCancelOldStep(s, t, input);
    case RegisterNew(_) => TaskRegisterStep(s, t, input);
    case ApproveTx(_, _, _) => TaskApproveStep(s, t, input);
    case CancelTx(_, _) => TaskCancelStep(s, t, input);
    case BeginTouch => TaskFindStep(s, t, input);
    case FindOrder => TaskFindStep(s, t, input);
    case CommitTouch(_) => TaskFindStep(s, t, input);
    case Poll(_, _) => TaskDecideStep(s, t, input);
    case BeginSuccess(_, _, _) => TaskDecideStep(s, t, input);
    case BeginFail(_, _) => TaskDecideStep(s, t, input);
    case _ => TaskEndStep(s, t, input);
  }

  /** No other actor can tell the difference. */
  lemma OthersUndisturbed(s: Db, s': Db, own: int, a: Actor)
    requires ActorOk(s, a) && StepEffect(s, s', own)
    requires own == -1 || Own(a) != own
    ensures ActorOk(s', a)
  {
  }

  lemma OwnInTable(s: Db, a: Actor)
    requires ActorOk(s, a)
    ensures Own(a) < |s.txs|
  {
  }

  lemma OwnersStaySingle(actors: map<nat, Actor>, id: nat, a': Actor, next: nat)
    requires SingleOwners(actors) && id in actors
    requires forall i :: i in actors ==> Own(actors[i]) < next
    requires Own(a') == Own(actors[id]) || Own(a') == next || Own(a') == -1
    ensures SingleOwners(actors[id := a'])
  {
  }

  lemma ActFreeStep(st: State, id: nat, input: Input)
    requires FreeInv(st) && id in st.actors
    ensures FreeInv(Apply(st, Act(id, input)))
    ensures DbEvolves(st.db, Apply(st, Act(id, input)).db)
  {
    var st' := Apply(st, Act(id, input));
    var a := st.actors[id];
    OwnStep(st.db, a, input);
    forall i | i in st'.actors ensures ActorOk(st'.db, st'.actors[i]) {
      if i != id {
        OthersUndisturbed(st.db, st'.db, Own(a), st.actors[i]);
      }
    }
    forall i | i in st.actors ensures Own(st.actors[i]) < |st.db.txs| {
      OwnInTable(st.db, st.actors[i]);
    }
    OwnersStaySingle(st.actors, id, st'.actors[id], |st.db.txs|);
  }

  /** Every step of the free relation keeps the invariant and only evolves the tables. */
  lemma FreeStep(st: State, action: Action)
    requires FreeInv(st)
    ensures FreeInv(Apply(st, action))
    ensures DbEvolves(st.db, Apply(st, action).db)
  {
    if action.Act? && action.id in st.actors {
      ActFreeStep(st, action.id, action.input);
    }
  }

  // ----- whole runs -----

  lemma {:induction false} FreeRunInv(run: seq<Action>)
    ensures FreeInv(RunFree(INIT, run))
  {
    if run != [] {
      FreeRunInv(run[..|run| - 1]);
      FreeStep(RunFree(INIT, run[..|run| - 1]), run[|run| - 1]);
    }
  }

  lemma {:induction false} RunFreeConcat(st: State, first: seq<Action>, rest: seq<Action>)
    ensures RunFree(st, first + rest) == RunFree(RunFree(st, first), rest)
  {
    if rest == [] {
      assert first + rest == first;
    } else {
      var n := |rest| - 1;
      assert (first + rest)[..|first + rest| - 1] == first + rest[..n];
      RunFreeConcat(st, first, rest[..n]);
    }
  }

  lemma {:induction false} FreeRunEvolves(st: State, run: seq<Action>)
    requires FreeInv(st)
    ensures FreeInv(RunFree(st, run)) && DbEvolves(st.db, RunFree(st, run).db)
  {
    if run != [] {
      var before := run[..|run| - 1];
      FreeRunEvolves(st, before);
      FreeStep(RunFree(st, before), run[|run| - 1]);
    }
  }

  // ----- main results -----

  /** Cache agreement: after any run, every cached balance is the sum of the user's history. */
  lemma {:induction false} CacheAgreement(run: seq<Action>, user: UserId)
    ensures var db := RunFree(INIT, run).db;
      Balance(db, user) == Sum(db.txs, NetOf(user))
  {
    FreeRunInv(run);
  }

  /** No overdraft: no balance is ever negative. */
  lemma {:induction false} NeverOverdrawn(run: seq<Action>, user: UserId)
    ensures Balance(RunFree(INIT, run).db, user) >= 0
  {
    FreeRunInv(run);
  }

  /** Processed rows are frozen, whatever happens after. */
  lemma {:induction false} ProcessedRowsFrozen(run: seq<Action>, more: seq<Action>, tx: TxId)
    ensures var (db, db') := (RunFree(INIT, run).db, RunFree(INIT, run + more).db);
      tx < |db.txs| && db.txs[tx].status == TxProcessed ==> tx < |db'.txs| && db'.txs[tx] == db.txs[tx]
  {
    FreeRunInv(run);
    FreeRunEvolves(RunFree(INIT, run), more);
    RunFreeConcat(INIT, run, more);
  }

  /** Ownership is permanent: a saved order number never changes user, and every later
      credit for it belongs to that user. */
  lemma {:induction false} OwnershipPermanent(run: seq<Action>, more: seq<Action>, num: OrderNumber, tx: TxId)
    requires num in RunFree(INIT, run).db.orders
    ensures var (db, db') := (RunFree(INIT, run).db, RunFree(INIT, run + more).db);
      && num in db'.orders && db'.orders[num].user == db.orders[num].user
      && (tx < |db'.txs| && IsCredit(db'.txs[tx]) && db'.txs[tx].num == num ==>
            db'.txs[tx].user == db.orders[num].user)
  {
    FreeRunInv(run);
    FreeRunEvolves(RunFree(INIT, run), more);
    RunFreeConcat(INIT, run, more);
  }

  /** A credit can only exist for a saved order number, and goes to its owner. */
  lemma {:induction false} CreditsFollowOwners(run: seq<Action>, tx: TxId)
    ensures var db := RunFree(INIT, run).db;
      tx < |db.txs| && IsCredit(db.txs[tx]) ==>
        db.txs[tx].num in db.orders && db.orders[db.txs[tx].num].user == db.txs[tx].user
  {
    FreeRunInv(run);
  }

  /** One terminal action per run of `processOrder`, under every interleaving and fault. */
  lemma {:induction false} OneTerminalActionPerRun(run: seq<Action>, id: nat)
    ensures var st := RunFree(INIT, run);
      id in st.actors && st.actors[id].TaskActor? ==>
        st.actors[id].t.approvals + st.actors[id].t.cancels <= 1
  {
    FreeRunInv(run);
  }

  /** In every reachable state a fault-free withdrawal approval is refused exactly when the
      planned amount exceeds the balance at that step. Refused, it leaves every balance and
      cancels the row; otherwise the balance falls by the amount and the row is processed. */
  lemma {:induction false} WithdrawalOutcome(run: seq<Action>, id: nat, input: Input)
    requires var st := RunFree(INIT, run);
      id in st.actors && st.actors[id].WithdrawActor? && st.actors[id].w.WithdrawApprove? && input.fault == NoFault
    ensures var st := RunFree(INIT, run);
      var st', tx := Apply(st, Act(id, input)), st.actors[id].w.tx;
      && tx < |st.db.txs|
      && var row := st.db.txs[tx];
         var refused := row.withdraw > Balance(st.db, row.user);
         && st'.actors[id] == WithdrawActor(WithdrawDone(if refused then HTTP_PAYMENT_REQUIRED else HTTP_OK))
         && st'.db.txs == st.db.txs[tx := row.(status := if refused then TxCanceled else TxProcessed)]
         && (forall u: UserId :: Balance(st'.db, u) ==
               if u == row.user && !refused then Balance(st.db, u) - row.withdraw else Balance(st.db, u))
  {
    hide RunFree;
    FreeRunInv(run);
    var st := RunFree(INIT, run);
    assert ActorOk(st.db, st.actors[id]);
    assert RowOk(st.db.txs[st.actors[id].w.tx]);
    assert Balance(st.db, st.db.txs[st.actors[id].w.tx].user) >= 0;
  }
}

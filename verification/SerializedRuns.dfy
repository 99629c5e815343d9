/** At-most-once credit in the serialized relation: one unfinished task per order, and
    uploads that check and save in one step. */
module SerializedRuns {
  import opened Money
  import opened Domain
  import opened Database
  import opened Ledger
  import opened Protocol
  import opened FreeRuns

  // ----- invariant -----

  /** No order number has two credits. */
  predicate CreditOnce(s: Db) {
    forall i, j :: 0 <= i < j < |s.txs| && IsCredit(s.txs[i]) && IsCredit(s.txs[j]) ==>
      s.txs[i].num != s.txs[j].num
  }

  /** A credited order is processed. */
  predicate CreditsSettled(s: Db) {
    forall i :: 0 <= i < |s.txs| && IsCredit(s.txs[i]) ==>
      s.txs[i].num in s.orders && s.orders[s.txs[i].num].status == OrderProcessed
  }

  predicate NoCredit(s: Db, num: OrderNumber) {
    forall i :: 0 <= i < |s.txs| && IsCredit(s.txs[i]) ==> s.txs[i].num != num
  }

  /** Points at which the order's row is not terminal yet. */
  predicate Undecided(pc: TaskPc) {
    || pc.SaveProcessing? || pc.CommitTouch? || pc.CancelOld? || pc.RegisterNew? || pc.Poll?
    || pc.BeginSuccess? || pc.SaveProcessed? || (pc.BeginFail? && !Terminal(pc.o.status)) || pc.SaveInvalid?
  }

  /** What an unfinished task knows about its order, being the only one at work on it. */
  predicate TaskAlone(s: Db, t: Task) {
    && (Undecided(t.pc) ==> t.num in s.orders && !Terminal(s.orders[t.num].status))
    && (t.pc.ApproveTx? ==> t.num in s.orders && s.orders[t.num].status == OrderProcessed && NoCredit(s, t.num))
  }

  predicate LiveTask(a: Actor) {
    a.TaskActor? && !a.t.pc.Finished?
  }

  predicate OneTaskPerOrder(actors: map<nat, Actor>) {
    forall i, j :: i in actors && j in actors && i != j && LiveTask(actors[i]) && LiveTask(actors[j])
      ==> actors[i].t.num != actors[j].t.num
  }

  predicate ActorAlone(s: Db, a: Actor) {
    match a
    case TaskActor(t) => TaskAlone(s, t)
    case UploadActor(u) => !u.UploadSave?
    case WithdrawActor(_) => true
  }

  ghost predicate SerialInv(st: State) {
    && FreeInv(st)
    && CreditOnce(st.db) && CreditsSettled(st.db)
    && OneTaskPerOrder(st.actors)
    && (forall i :: i in st.actors ==> ActorAlone(st.db, st.actors[i]))
  }

  // ----- steps -----

  /** Only the order `num` and its credits may change; -1 stands for no order. */
  predicate TouchesOnly(s: Db, s': Db, num: int) {
    && (forall n :: n in s.orders && n != num ==> n in s'.orders && s'.orders[n] == s.orders[n])
    && (forall i :: 0 <= i < |s'.txs| && IsCredit(s'.txs[i]) && s'.txs[i].num != num ==>
          i < |s.txs| && IsCredit(s.txs[i]) && s.txs[i].num == s'.txs[i].num)
  }

  predicate CreditsFine(s: Db) {
    CreditOnce(s) && CreditsSettled(s)
  }

  lemma OthersStayAlone(s: Db, s': Db, num: int, a: Actor)
    requires ActorAlone(s, a) && TouchesOnly(s, s', num)
    requires LiveTask(a) ==> a.t.num != num
    ensures ActorAlone(s', a)
  {
  }

  ghost predicate AloneStepKeeps(s: Db, t: Task, input: Input) {
    var (s', t') := TaskStep(s, t, input);
    CreditsFine(s') && TouchesOnly(s, s', t.num) && TaskAlone(s', t')
  }

  lemma AloneSave(s: Db, t: Task, input: Input)
    requires CreditsFine(s) && TaskOk(s, t) && TaskAlone(s, t)
    requires t.pc.SaveProcessing? || t.pc.SaveProcessed? || t.pc.SaveInvalid?
    ensures AloneStepKeeps(s, t, input)
  {
    assert NoCredit(s, t.num);
  }

  lemma AloneTransaction(s: Db, t: Task, input: Input)
    requires CreditsFine(s) && LedgerOk(s) && TaskOk(s, t) && TaskAlone(s, t)
    requires t.pc.CancelOld? || t.pc.RegisterNew? || t.pc.CancelTx?
    ensures AloneStepKeeps(s, t, input)
  {
    var s' := TaskStep(s, t, input).0;
    forall i | 0 <= i < |s'.txs| && IsCredit(s'.txs[i])
      ensures i < |s.txs| && s'.txs[i] == s.txs[i]
    {
    }
  }

  lemma AloneApprove(s: Db, t: Task, input: Input)
    requires CreditsFine(s) && TaskOk(s, t) && TaskAlone(s, t) && t.pc.ApproveTx?
    ensures AloneStepKeeps(s, t, input)
  {
  }

  lemma AloneQuiet(s: Db, t: Task, input: Input)
    requires CreditsFine(s) && TaskOk(s, t) && TaskAlone(s, t)
    requires t.pc.BeginTouch? || t.pc.FindOrder? || t.pc.CommitTouch? || t.pc.Poll? || t.pc.BeginSuccess?
          || t.pc.CommitSuccess? || t.pc.BeginFail? || t.pc.CommitFail? || t.pc.Finished?
    ensures AloneStepKeeps(s, t, input)
  {
  }

  lemma AloneStep(s: Db, t: Task, input: Input)
    requires CreditsFine(s) && LedgerOk(s) && TaskOk(s, t) && TaskAlone(s, t)
    ensures AloneStepKeeps(s, t, input)
  {
    match t.pc
    case SaveProcessing(_) => AloneSave(s, t, input);
    case SaveProcessed(_, _, _) => AloneSave(s, t, input);
    case SaveInvalid(_, _) => AloneSave(s, t, input);
    case CancelOld(_) => AloneTransaction(s, t, input);
    case RegisterNew(_) => AloneTransaction(s, t, input);
    case CancelTx(_, _) => AloneTransaction(s, t, input);
    case ApproveTx(_, _, _) => AloneApprove(s, t, input);
    case _ => AloneQuiet(s, t, input);
  }

  /** A withdrawal never makes a credit and touches no order. */
  lemma WithdrawAlone(s: Db, w: Withdraw, f: Fault)
    requires CreditsFine(s) && LedgerOk(s) && WithdrawOk(s, w)
    ensures var s' := WithdrawStep(s, w, f).0;
      CreditsFine(s') && TouchesOnly(s, s', -1)
  {
    var s' := WithdrawStep(s, w, f).0;
    forall i | 0 <= i < |s'.txs| && IsCredit(s'.txs[i])
      ensures i < |s.txs| && s'.txs[i] == s.txs[i]
    {
      if w.WithdrawApprove? && i == w.tx {
        assert RowOk(s.txs[i]);
      }
    }
  }

  /** Saving a new order that no row mentions yet. */
  lemma UploadAlone(s: Db, user: UserId, num: OrderNumber, f: Fault)
    requires CreditsFine(s) && num !in s.orders
    ensures var s' := Save(s, OrderValue(user, num, OrderNew), f).0;
      CreditsFine(s') && TouchesOnly(s, s', -1)
  {
  }

  /** The order a step of this actor may touch. */
  function Scope(a: Actor): int {
    if LiveTask(a) then a.t.num else -1
  }

  /** Carries the invariant over a step of one actor, given what the step did. */
  lemma CarryOver(st: State, st': State, id: nat)
    requires SerialInv(st) && FreeInv(st') && id in st.actors
    requires CreditsFine(st'.db) && TouchesOnly(st.db, st'.db, Scope(st.actors[id]))
    requires id in st'.actors && st'.actors == st.actors[id := st'.actors[id]]
    requires ActorAlone(st'.db, st'.actors[id])
    requires LiveTask(st'.actors[id]) ==> LiveTask(st.actors[id]) && st'.actors[id].t.num == st.actors[id].t.num
    ensures SerialInv(st')
  {
    forall i | i in st'.actors ensures ActorAlone(st'.db, st'.actors[i]) {
      if i != id {
        OthersStayAlone(st.db, st'.db, Scope(st.actors[id]), st.actors[i]);
      }
    }
  }

  lemma SerialTask(st: State, id: nat, input: Input)
    requires SerialInv(st) && id in st.actors && st.actors[id].TaskActor?
    ensures SerialInv(Apply(st, Act(id, input)))
  {
    var st' := Apply(st, Act(id, input));
    FreeStep(st, Act(id, input));
    AloneStep(st.db, st.actors[id].t, input);
    if st.actors[id].t.pc.Finished? {
      assert st' == st;
    } else {
      CarryOver(st, st', id);
    }
  }

  lemma SerialWithdraw(st: State, id: nat, input: Input)
    requires SerialInv(st) && id in st.actors && st.actors[id].WithdrawActor?
    ensures SerialInv(Apply(st, Act(id, input)))
  {
    FreeStep(st, Act(id, input));
    WithdrawAlone(st.db, st.actors[id].w, input.fault);
    CarryOver(st, Apply(st, Act(id, input)), id);
  }

  lemma SerialUpload(st: State, id: nat, input: Input, second: Input)
    requires SerialInv(st) && id in st.actors && st.actors[id].UploadActor?
    ensures SerialInv(ApplySerial(st, Act(id, input), second))
  {
    var found := Apply(st, Act(id, input));
    FreeStep(st, Act(id, input));
    assert ActorAlone(st.db, st.actors[id]);
    assert found.db == st.db;
    if AboutToSave(found, id) {
      var u := found.actors[id].u;
      var st' := Apply(found, Act(id, second));
      FreeStep(found, Act(id, second));
      UploadAlone(st.db, u.user, u.num, second.fault);
      assert st'.actors == st.actors[id := st'.actors[id]];
      CarryOver(st, st', id);
    } else {
      CarryOver(st, found, id);
    }
  }

  lemma SerialStart(st: State, action: Action, second: Input)
    requires SerialInv(st) && !action.Act?
    ensures SerialInv(ApplySerial(st, action, second))
  {
    hide ActorStep, LedgerOk, CreditsOwned, CreditOnce, CreditsSettled;
    FreeStep(st, action);
  }

  lemma SerialStep(st: State, action: Action, second: Input)
    requires SerialInv(st)
    ensures SerialInv(ApplySerial(st, action, second))
  {
    if action.Act? && action.id in st.actors {
      match st.actors[action.id] {
        case TaskActor(_) => SerialTask(st, action.id, action.input);
        case WithdrawActor(_) => SerialWithdraw(st, action.id, action.input);
        case UploadActor(_) => SerialUpload(st, action.id, action.input, second);
      }
    } else if !action.Act? {
      SerialStart(st, action, second);
    }
  }

  lemma {:induction false} SerialRunInv(run: seq<(Action, Input)>)
    ensures SerialInv(RunSerial(INIT, run))
  {
    if run != [] {
      var last := run[|run| - 1];
      SerialRunInv(run[..|run| - 1]);
      SerialStep(RunSerial(INIT, run[..|run| - 1]), last.0, last.1);
    }
  }

  // ----- main results -----

  /** At-most-once credit, over every serialized run with any faults and crashes: two
      credits of one order number are the same row, and the order is then processed. */
  lemma {:induction false} AtMostOneCredit(run: seq<(Action, Input)>, i: TxId, j: TxId)
    ensures var db := RunSerial(INIT, run).db;
      i < |db.txs| && IsCredit(db.txs[i]) ==>
        && db.txs[i].num in db.orders && db.orders[db.txs[i].num].status == OrderProcessed
        && (j < |db.txs| && IsCredit(db.txs[j]) && db.txs[j].num == db.txs[i].num ==> i == j)
  {
    SerialRunInv(run);
  }

  /** Every serialized run is a free run, so all that holds of free runs holds of it too. */
  lemma {:induction false} SerialRunIsFree(run: seq<(Action, Input)>) returns (free: seq<Action>)
    ensures RunFree(INIT, free) == RunSerial(INIT, run)
  {
    if run == [] {
      free := [];
    } else {
      var last := run[|run| - 1];
      free := SerialRunIsFree(run[..|run| - 1]);
      var st := RunFree(INIT, free);
      if !(last.0.StartTask? && Busy(st, last.0.num)) {
        var st' := Apply(st, last.0);
        assert (free + [last.0])[..|free|] == free;
        free := free + [last.0];
        if last.0.Act? && AboutToSave(st', last.0.id) {
          var second := Act(last.0.id, last.1);
          assert (free + [second])[..|free|] == free;
          free := free + [second];
        }
      }
    }
  }

  /** True when approving leaves the row a credit, judged before the call. */
  predicate WouldCredit(s: Db, tx: TxId, accrual: real)
    requires tx < |s.txs|
  {
    var r := s.txs[tx];
    var credit := RoundCents(accrual);
    if r.withdraw > 0 then Balance(s, r.user) >= r.withdraw && r.accrual > 0
    else if accrual <= 0.0 then r.accrual > 0
    else if Fits(credit) && Fits(Balance(s, r.user) + credit) then credit > 0
    else IsCredit(r)
  }

  /** What a check before approving would have to say: credits stay unique exactly when the
      approval makes no credit or the order number has no other credit yet. */
  lemma ApproveCreditOnceExact(s: Db, tx: TxId, accrual: real)
    requires CreditOnce(s) && tx < |s.txs|
    ensures CreditOnce(Approved(s, tx, accrual).0) <==>
      (WouldCredit(s, tx, accrual) ==>
        forall i :: 0 <= i < |s.txs| && i != tx && IsCredit(s.txs[i]) ==> s.txs[i].num != s.txs[tx].num)
  {
    var s' := Approved(s, tx, accrual).0;
    assert s'.txs == s.txs[tx := s'.txs[tx]] && s'.txs[tx].num == s.txs[tx].num;
    assert WouldCredit(s, tx, accrual) == IsCredit(s'.txs[tx]);
    if i :| 0 <= i < |s.txs| && i != tx && IsCredit(s.txs[i]) && s.txs[i].num == s.txs[tx].num {
      assert s'.txs[i] == s.txs[i];
      var (low, high) := if i < tx then (i, tx) else (tx, i);
      assert WouldCredit(s, tx, accrual) ==> IsCredit(s'.txs[low]) && IsCredit(s'.txs[high]);
    }
  }

  // ----- credits over whole free runs -----

  /** The step is an approval that takes effect and credits an order that has a credit already. */
  predicate CreditsAgain(st: State, action: Action) {
    && action.Act? && action.id in st.actors && action.input.fault != FailsBefore
    && var a := st.actors[action.id];
       && a.TaskActor? && a.t.pc.ApproveTx? && a.t.pc.tx < |st.db.txs|
       && WouldCredit(st.db, a.t.pc.tx, a.t.pc.value) && !NoCredit(st.db, st.db.txs[a.t.pc.tx].num)
  }

  /** Only the approval of a task makes a credit, and no step changes one. */
  ghost predicate SameCredits(s: Db, s': Db) {
    && |s.txs| <= |s'.txs|
    && (forall i :: 0 <= i < |s'.txs| && IsCredit(s'.txs[i]) ==> i < |s.txs| && IsCredit(s.txs[i]))
    && (forall i :: 0 <= i < |s.txs| && IsCredit(s.txs[i]) ==> s'.txs[i] == s.txs[i])
  }

  lemma TaskMakesNoCredit(s: Db, t: Task, input: Input)
    requires LedgerOk(s) && TaskOk(s, t) && !t.pc.ApproveTx?
    ensures SameCredits(s, TaskStep(s, t, input).0)
  {
  }

  lemma OthersMakeNoCredit(s: Db, a: Actor, input: Input)
    requires LedgerOk(s) && ActorOk(s, a) && !a.TaskActor?
    ensures SameCredits(s, ActorStep(s, a, input).0)
  {
  }

  lemma CreditOnceStep(st: State, action: Action)
    requires FreeInv(st) && CreditOnce(st.db)
    ensures CreditOnce(Apply(st, action).db) <==> !CreditsAgain(st, action)
  {
    hide CreditsOwned, SingleOwners, LedgerOk, TaskStep, UploadStep, WithdrawStep, WouldCredit;
    if action.Act? && action.id in st.actors {
      var a := st.actors[action.id];
      if a.TaskActor? && a.t.pc.ApproveTx? {
        TaskApprovesOnce(st.db, a.t, action.input);
      } else if a.TaskActor? {
        TaskMakesNoCredit(st.db, a.t, action.input);
      } else {
        OthersMakeNoCredit(st.db, a, action.input);
      }
    }
  }

  lemma TaskApprovesOnce(s: Db, t: Task, input: Input)
    requires TaskOk(s, t) && t.pc.ApproveTx? && CreditOnce(s)
    ensures CreditOnce(TaskStep(s, t, input).0) <==>
      !(input.fault != FailsBefore && WouldCredit(s, t.pc.tx, t.pc.value) && !NoCredit(s, t.num))
  {
    ApproveCreditOnceExact(s, t.pc.tx, t.pc.value);
  }

  /** Two credits of one order number are never undone. */
  lemma CreditTwiceStays(st: State, action: Action)
    requires FreeInv(st) && !CreditOnce(st.db)
    ensures !CreditOnce(Apply(st, action).db)
  {
    hide ActorStep, LedgerOk, CreditsOwned, SingleOwners, FreeInv;
    FreeStep(st, action);
    var s, s' := st.db, Apply(st, action).db;
    var i, j :| 0 <= i < j < |s.txs| && IsCredit(s.txs[i]) && IsCredit(s.txs[j]) && s.txs[i].num == s.txs[j].num;
    assert s'.txs[i] == s.txs[i] && s'.txs[j] == s.txs[j];
  }

  /** No step of the run credits an order that has a credit already. */
  predicate NeverCreditsAgain(run: seq<Action>) {
    forall k :: 0 <= k < |run| ==> !CreditsAgain(RunFree(INIT, run[..k]), run[k])
  }

  lemma NeverAgainSnoc(run: seq<Action>)
    requires run != []
    ensures var n := |run| - 1;
      NeverCreditsAgain(run) <==> NeverCreditsAgain(run[..n]) && !CreditsAgain(RunFree(INIT, run[..n]), run[n])
  {
    hide RunFree, CreditsAgain;
    var n := |run| - 1;
    assert forall k :: 0 <= k < n ==> run[..n][..k] == run[..k] && run[..n][k] == run[k];
  }

  /** Over every free run, whatever overlaps in it: no order is credited twice exactly when no
      step of it approves a credit for an order that has one already. */
  lemma {:induction false} CreditOnceExactly(run: seq<Action>)
    ensures CreditOnce(RunFree(INIT, run).db) <==> NeverCreditsAgain(run)
  {
    hide CreditOnce, CreditsAgain, Apply, FreeInv;
    if run == [] {
      NothingCredited();
    } else {
      var n := |run| - 1;
      CreditOnceExactly(run[..n]);
      FreeRunInv(run[..n]);
      NeverAgainSnoc(run);
      if CreditOnce(RunFree(INIT, run[..n]).db) {
        CreditOnceStep(RunFree(INIT, run[..n]), run[n]);
      } else {
        CreditTwiceStays(RunFree(INIT, run[..n]), run[n]);
      }
    }
  }

  lemma NothingCredited()
    ensures CreditOnce(INIT.db)
  {
  }
}

/** Sums over the transaction table, the agreement between the cached balance and the
    history, and what each statement does to it. */
module Ledger {
  import opened Money
  import opened Domain
  import opened Database

  function Sum(txs: seq<TxRow>, f: TxRow -> int): int {
    if txs == [] then 0 else Sum(txs[..|txs| - 1], f) + f(txs[|txs| - 1])
  }

  /** What a row adds to the history of a user: `accrual - withdraw` of its processed rows. */
  function NetOf(user: UserId): TxRow -> int {
    (r: TxRow) => if r.user == user && r.status == TxProcessed then r.accrual - r.withdraw else 0
  }

  function AccrualOf(user: UserId): TxRow -> int {
    (r: TxRow) => if r.user == user && r.status == TxProcessed then r.accrual else 0
  }

  /** The withdrawal query keeps only rows with `withdraw > 0`. */
  function WithdrawOf(user: UserId): TxRow -> int {
    (r: TxRow) => if r.user == user && r.status == TxProcessed && r.withdraw > 0 then r.withdraw else 0
  }

  lemma {:induction false} SumAppend(txs: seq<TxRow>, r: TxRow, f: TxRow -> int)
    ensures Sum(txs + [r], f) == Sum(txs, f) + f(r)
  {
    assert (txs + [r])[..|txs|] == txs;
  }

  lemma {:induction false} SumUpdate(txs: seq<TxRow>, i: nat, r: TxRow, f: TxRow -> int)
    requires i < |txs|
    ensures Sum(txs[i := r], f) == Sum(txs, f) - f(txs[i]) + f(r)
  {
    var n := |txs| - 1;
    if i < n {
      assert txs[i := r][..n] == txs[..n][i := r];
      SumUpdate(txs[..n], i, r, f);
    } else {
      assert txs[i := r][..n] == txs[..n];
    }
  }

  /** Tables whose rows count the same have the same sum. */
  lemma {:induction false} SumSame(txs: seq<TxRow>, txs': seq<TxRow>, f: TxRow -> int)
    requires |txs| == |txs'|
    requires forall i :: 0 <= i < |txs| ==> f(txs[i]) == f(txs'[i])
    ensures Sum(txs, f) == Sum(txs', f)
  {
    if txs != [] {
      SumSame(txs[..|txs| - 1], txs'[..|txs| - 1], f);
    }
  }

  /** No column of the table is negative. */
  predicate NonNegative(s: Db) {
    forall i :: 0 <= i < |s.txs| ==> s.txs[i].accrual >= 0 && s.txs[i].withdraw >= 0
  }

  /** The cached balance of every user is the sum over that user's processed rows. */
  ghost predicate Agreement(s: Db) {
    forall u: UserId :: Balance(s, u) == Sum(s.txs, NetOf(u))
  }

  /** Rows that are not processed, and rows that withdraw, carry no accrual. */
  predicate RowOk(r: TxRow) {
    && r.accrual >= 0 && r.withdraw >= 0
    && (r.status != TxProcessed ==> r.accrual == 0)
    && (r.withdraw > 0 ==> r.accrual == 0)
  }

  ghost predicate LedgerOk(s: Db) {
    && (forall i :: 0 <= i < |s.txs| ==> RowOk(s.txs[i]))
    && Agreement(s)
    && (forall u: UserId :: Balance(s, u) >= 0)
  }

  // ----- exact effect of an approval on the agreement -----

  /** What the approval leaves in the row and adds to the cached balance. */
  ghost predicate ApprovalKeepsAgreement(r: TxRow, balance: int, accrual: real) {
    var counted := if r.status == TxProcessed then r.accrual - r.withdraw else 0;
    if r.withdraw > 0 then
      if balance >= r.withdraw then r.status != TxProcessed && r.accrual == 0
      else counted == 0
    else if accrual > 0.0 then
      !Fits(RoundCents(accrual)) || !Fits(balance + RoundCents(accrual)) || counted == 0
    else
      r.status == TxProcessed || r.accrual == 0
  }

  /** Approving keeps the agreement exactly when the row was not counted before and, where
      the approval does not set it, carries no accrual. */
  lemma ApproveAgreementExact(s: Db, tx: TxId, accrual: real)
    requires Agreement(s) && NonNegative(s) && tx < |s.txs|
    ensures Agreement(Approved(s, tx, accrual).0)
       <==> ApprovalKeepsAgreement(s.txs[tx], Balance(s, s.txs[tx].user), accrual)
  {
    var r := s.txs[tx];
    var s' := Approved(s, tx, accrual).0;
    var r' := s'.txs[tx];
    assert s'.txs == s.txs[tx := r'];
    forall u: UserId
      ensures Sum(s'.txs, NetOf(u)) == Sum(s.txs, NetOf(u)) - NetOf(u)(r) + NetOf(u)(r')
      ensures u != r.user ==> Balance(s', u) == Balance(s, u)
    {
      SumUpdate(s.txs, tx, r', NetOf(u));
    }
    assert Balance(s, r.user) == Sum(s.txs, NetOf(r.user));
    if Agreement(s') {
      assert Balance(s', r.user) == Sum(s'.txs, NetOf(r.user));
    } else {
      var u: UserId :| Balance(s', u) != Sum(s'.txs, NetOf(u));
      assert Balance(s, u) == Sum(s.txs, NetOf(u));
    }
  }

  // ----- what an approval means -----

  /** What a committed approval makes of the tables. A withdrawal is taken from the balance if
      that suffices, and its row canceled otherwise. Points are added to it, in whole cents, if
      both columns can hold them, and nothing changes otherwise. Nothing but the row and the
      balance of its user changes, and the balance changes by what the row gains. */
  ghost predicate ApprovalEffect(s: Db, tx: TxId, accrual: real, s': Db)
    requires tx < |s.txs|
  {
    var (r, balance, points) := (s.txs[tx], Balance(s, s.txs[tx].user), RoundCents(accrual));
    && s'.orders == s.orders && |s'.txs| == |s.txs|
    && (forall i :: 0 <= i < |s.txs| && i != tx ==> s'.txs[i] == s.txs[i])
    && (forall u: UserId :: u != r.user ==> Balance(s', u) == Balance(s, u))
    && var (r', balance') := (s'.txs[tx], Balance(s', r.user));
       && r'.user == r.user && r'.num == r.num && r'.withdraw == r.withdraw
       && (r.withdraw > 0 ==>
             && r'.accrual == r.accrual
             && (r'.status == TxProcessed <==> balance >= r.withdraw)
             && (r'.status == TxCanceled <==> balance < r.withdraw)
             && balance' == (if r'.status == TxProcessed then balance - r.withdraw else balance))
       && (r.withdraw <= 0 && accrual > 0.0 && !(Fits(points) && Fits(balance + points)) ==> s' == s)
       && (r.withdraw <= 0 && accrual > 0.0 && Fits(points) && Fits(balance + points) ==>
             r'.status == TxProcessed && r'.accrual == points && balance' == balance + points)
       && (r.withdraw <= 0 && accrual <= 0.0 ==>
             r'.status == TxProcessed && r'.accrual == r.accrual && balance' == balance)
  }

  /** What it answers, if its answer is not lost. */
  ghost predicate ApprovalResult(s: Db, tx: TxId, accrual: real, f: Fault, r: Result<()>)
    requires tx < |s.txs|
  {
    var (row, balance, points) := (s.txs[tx], Balance(s, s.txs[tx].user), RoundCents(accrual));
    && (r == Err(InsufficientFunds) <==> f == NoFault && row.withdraw > 0 && balance < row.withdraw)
    && (r.Ok? <==> && f == NoFault
                   && (row.withdraw > 0 ==> balance >= row.withdraw)
                   && (row.withdraw <= 0 && accrual > 0.0 ==> Fits(points) && Fits(balance + points)))
    && (r.Err? && r.error != InsufficientFunds ==> r.error == StoreError)
  }

  lemma ApprovalMeaning(s: Db, tx: TxId, accrual: real)
    ensures tx < |s.txs| ==>
      && ApprovalEffect(s, tx, accrual, Approved(s, tx, accrual).0)
      && (forall f: Fault :: f != FailsBefore ==> ApprovalResult(s, tx, accrual, f, Approve(s, tx, accrual, f).1))
    ensures tx >= |s.txs| ==> Approved(s, tx, accrual) == (s, Err(NoRows))
  {
  }
}

/** What a user is shown: the balance, the list of orders and the list of withdrawals, and
    how they agree with each other. */
module Views {
  import opened Wrappers
  import opened Domain
  import opened Database
  import opened Ledger
  import opened Protocol
  import opened FreeRuns
  import opened SerializedRuns

  // ----- balance -----

  datatype BalanceView = BalanceView(accrued: int, withdrawn: int) {
    function Current(): int {
      accrued - withdrawn
    }
  }

  /** `GetBalance` through the cached column. */
  function FastBalance(s: Db, user: UserId): BalanceView {
    var withdrawn := Sum(s.txs, WithdrawOf(user));
    BalanceView(Balance(s, user) + withdrawn, withdrawn)
  }

  /** `GetBalance` recomputed from the history. */
  function SlowBalance(s: Db, user: UserId): BalanceView {
    var withdrawn := Sum(s.txs, WithdrawOf(user));
    BalanceView(Sum(s.txs, NetOf(user)) + withdrawn, withdrawn)
  }

  /** `GetBalance`: a missing or zero account row falls back on the history. */
  function GetBalance(s: Db, user: UserId): BalanceView {
    if Balance(s, user) == 0 then SlowBalance(s, user) else FastBalance(s, user)
  }

  /** The filter `withdraw > 0` loses nothing: net is accruals minus filtered withdrawals. */
  lemma {:induction false} NetSplits(txs: seq<TxRow>, user: UserId)
    requires forall i :: 0 <= i < |txs| ==> txs[i].withdraw >= 0
    ensures Sum(txs, NetOf(user)) == Sum(txs, AccrualOf(user)) - Sum(txs, WithdrawOf(user))
  {
    if txs != [] {
      NetSplits(txs[..|txs| - 1], user);
    }
  }

  /** The fast path refines the slow one, and both mean accruals, withdrawals, difference. */
  lemma BalanceMeaning(s: Db, user: UserId)
    requires Agreement(s) && NonNegative(s)
    ensures FastBalance(s, user) == SlowBalance(s, user) == GetBalance(s, user)
    ensures GetBalance(s, user).accrued == Sum(s.txs, AccrualOf(user))
    ensures GetBalance(s, user).withdrawn == Sum(s.txs, WithdrawOf(user))
    ensures GetBalance(s, user).Current() == Balance(s, user)
  {
    NetSplits(s.txs, user);
  }

  // ----- withdrawals -----

  datatype Withdrawal = Withdrawal(num: OrderNumber, sum: int)

  predicate IsWithdrawal(r: TxRow, user: UserId) {
    r.user == user && r.status == TxProcessed && r.withdraw > 0
  }

  function SumOfWithdrawals(ws: seq<Withdrawal>): int {
    if ws == [] then 0 else SumOfWithdrawals(ws[..|ws| - 1]) + ws[|ws| - 1].sum
  }

  /** `ids` lists, in any order and once each, the rows of the table that `p` selects. */
  ghost predicate Selects(txs: seq<TxRow>, ids: seq<TxId>, p: TxRow -> bool) {
    && (forall k :: 0 <= k < |ids| ==> ids[k] < |txs| && p(txs[ids[k]]))
    && (forall k, l :: 0 <= k < l < |ids| ==> ids[k] != ids[l])
    && (forall i :: 0 <= i < |txs| && p(txs[i]) ==> i in ids)
  }

  function WithdrawalsOf(user: UserId): TxRow -> bool {
    (r: TxRow) => IsWithdrawal(r, user)
  }

  function WithdrawalRows(txs: seq<TxRow>, ids: seq<TxId>): (ws: seq<Withdrawal>)
    requires forall k :: 0 <= k < |ids| ==> ids[k] < |txs|
    ensures |ws| == |ids|
  {
    seq(|ids|, k requires 0 <= k < |ids| => Withdrawal(txs[ids[k]].num, txs[ids[k]].withdraw))
  }

  ghost function IdSet(ids: seq<TxId>): set<TxId> {
    set id | id in ids
  }

  /** Counts the withdrawals of the rows in `picked`. */
  ghost function PickedWithdraw(picked: set<TxId>, txs: seq<TxRow>): int {
    if txs == [] then 0
    else
      var n := |txs| - 1;
      PickedWithdraw(picked, txs[..n]) + (if n in picked then txs[n].withdraw else 0)
  }

  lemma {:induction false} PickOne(picked: set<TxId>, id: TxId, txs: seq<TxRow>)
    requires id !in picked
    ensures PickedWithdraw(picked + {id}, txs)
         == PickedWithdraw(picked, txs) + (if id < |txs| then txs[id].withdraw else 0)
  {
    if txs != [] {
      PickOne(picked, id, txs[..|txs| - 1]);
    }
  }

  lemma {:induction false} PickedSum(picked: set<TxId>, txs: seq<TxRow>, user: UserId)
    requires forall i :: 0 <= i < |txs| ==> (i in picked <==> IsWithdrawal(txs[i], user))
    ensures PickedWithdraw(picked, txs) == Sum(txs, WithdrawOf(user))
  {
    if txs != [] {
      PickedSum(picked, txs[..|txs| - 1], user);
    }
  }

  lemma {:induction false} NothingPicked(txs: seq<TxRow>)
    ensures PickedWithdraw({}, txs) == 0
  {
    if txs != [] {
      NothingPicked(txs[..|txs| - 1]);
    }
  }

  lemma {:induction false} ListedSum(txs: seq<TxRow>, ids: seq<TxId>)
    requires forall k :: 0 <= k < |ids| ==> ids[k] < |txs|
    requires forall k, l :: 0 <= k < l < |ids| ==> ids[k] != ids[l]
    ensures SumOfWithdrawals(WithdrawalRows(txs, ids)) == PickedWithdraw(IdSet(ids), txs)
  {
    var n := |ids| - 1;
    if ids == [] {
      assert IdSet(ids) == {};
      NothingPicked(txs);
    } else {
      ListedSum(txs, ids[..n]);
      assert WithdrawalRows(txs, ids)[..n] == WithdrawalRows(txs, ids[..n]);
      assert ids == ids[..n] + [ids[n]];
      assert IdSet(ids) == IdSet(ids[..n]) + {ids[n]};
      PickOne(IdSet(ids[..n]), ids[n], txs);
    }
  }

  /** The withdrawn component of the balance is the sum over the listed withdrawals. */
  lemma WithdrawnIsListed(s: Db, user: UserId, ids: seq<TxId>)
    requires Selects(s.txs, ids, WithdrawalsOf(user))
    ensures GetBalance(s, user).withdrawn == SumOfWithdrawals(WithdrawalRows(s.txs, ids))
  {
    ListedSum(s.txs, ids);
    PickedSum(IdSet(ids), s.txs, user);
  }

  // ----- orders -----

  /** A row of the order list, with the accrual its subselect found. */
  datatype ListedOrder = ListedOrder(num: OrderNumber, status: OrderStatus, accrual: Option<int>)

  /** The accrual subselect: one of the credits of this user and order, if there is any. */
  ghost predicate ShownAccrual(s: Db, user: UserId, num: OrderNumber, shown: Option<int>) {
    match shown
    case None => !exists i :: 0 <= i < |s.txs| && CreditFor(s.txs[i], user, num)
    case Some(a) => exists i :: 0 <= i < |s.txs| && CreditFor(s.txs[i], user, num) && s.txs[i].accrual == a
  }

  predicate CreditFor(r: TxRow, user: UserId, num: OrderNumber) {
    IsCredit(r) && r.user == user && r.num == num
  }

  /** `rows` is what the query of `ListByUser` may return, in any order. */
  ghost predicate UserRows(s: Db, user: UserId, rows: seq<ListedOrder>) {
    && (forall k :: 0 <= k < |rows| ==>
          && rows[k].num in s.orders && s.orders[rows[k].num] == OrderRow(user, rows[k].status)
          && ShownAccrual(s, user, rows[k].num, rows[k].accrual))
    && (forall k, l :: 0 <= k < l < |rows| ==> rows[k].num != rows[l].num)
    && (forall n :: n in s.orders && s.orders[n].user == user ==> n in Numbers(rows))
  }

  ghost function Numbers(rows: seq<ListedOrder>): set<OrderNumber> {
    set k | 0 <= k < |rows| :: rows[k].num
  }

  /** `ListByUser`: one processed order without an accrual fails the whole list. */
  function ListOrders(rows: seq<ListedOrder>): Result<seq<ListedOrder>> {
    if exists k :: 0 <= k < |rows| && rows[k].status == OrderProcessed && rows[k].accrual.None?
    then Err(AccrualMissing) else Ok(rows)
  }

  function SumShown(rows: seq<ListedOrder>): int {
    if rows == [] then 0
    else SumShown(rows[..|rows| - 1]) + (if rows[|rows| - 1].accrual.Some? then rows[|rows| - 1].accrual.value else 0)
  }

  /** The part of a user's accruals that belongs to the orders in `nums`. */
  function AccrualIn(user: UserId, nums: set<OrderNumber>): TxRow -> int {
    (r: TxRow) => if r.user == user && r.status == TxProcessed && r.num in nums then r.accrual else 0
  }

  lemma {:induction false} SumAdds(txs: seq<TxRow>, f: TxRow -> int, g: TxRow -> int, h: TxRow -> int)
    requires forall i :: 0 <= i < |txs| ==> h(txs[i]) == f(txs[i]) + g(txs[i])
    ensures Sum(txs, h) == Sum(txs, f) + Sum(txs, g)
  {
    if txs != [] {
      SumAdds(txs[..|txs| - 1], f, g, h);
    }
  }

  lemma {:induction false} SumZero(txs: seq<TxRow>, f: TxRow -> int)
    requires forall i :: 0 <= i < |txs| ==> f(txs[i]) == 0
    ensures Sum(txs, f) == 0
  {
    if txs != [] {
      SumZero(txs[..|txs| - 1], f);
    }
  }

  /** At most one credit of the user is for this order. */
  predicate OneCreditFor(s: Db, user: UserId, num: OrderNumber) {
    forall i, j :: 0 <= i < j < |s.txs| ==> !(CreditFor(s.txs[i], user, num) && CreditFor(s.txs[j], user, num))
  }

  lemma {:induction false} SumAtLeast(txs: seq<TxRow>, f: TxRow -> int, i: nat)
    requires i < |txs| && forall j :: 0 <= j < |txs| ==> f(txs[j]) >= 0
    ensures Sum(txs, f) >= f(txs[i])
    ensures Sum(txs, f) == f(txs[i]) <==> forall j :: 0 <= j < |txs| && j != i ==> f(txs[j]) == 0
  {
    var n := |txs| - 1;
    if i < n {
      SumAtLeast(txs[..n], f, i);
      assert forall j :: 0 <= j < n ==> txs[..n][j] == txs[j];
    } else if exists j :: 0 <= j < n && f(txs[j]) != 0 {
      var j :| 0 <= j < n && f(txs[j]) != 0;
      SumAtLeast(txs[..n], f, j);
    } else {
      SumZero(txs[..n], f);
    }
  }

  /** The shown accrual of an order is at most its whole accrual, and all of it exactly when the
      order has one credit at most. */
  lemma ShownAtMost(s: Db, user: UserId, num: OrderNumber, shown: Option<int>)
    requires forall i :: 0 <= i < |s.txs| ==> RowOk(s.txs[i])
    requires ShownAccrual(s, user, num, shown)
    ensures var (whole, part) := (Sum(s.txs, AccrualIn(user, {num})), if shown.Some? then shown.value else 0);
      part <= whole && (part == whole <==> OneCreditFor(s, user, num))
  {
    var f := AccrualIn(user, {num});
    forall j | 0 <= j < |s.txs| ensures f(s.txs[j]) >= 0 && (f(s.txs[j]) != 0 <==> CreditFor(s.txs[j], user, num)) {
      assert RowOk(s.txs[j]);
    }
    match shown {
      case Some(a) =>
        var i :| 0 <= i < |s.txs| && CreditFor(s.txs[i], user, num) && s.txs[i].accrual == a;
        SumAtLeast(s.txs, f, i);
        if j :| 0 <= j < |s.txs| && j != i && CreditFor(s.txs[j], user, num) {
          var (low, high) := if i < j then (i, j) else (j, i);
          assert CreditFor(s.txs[low], user, num) && CreditFor(s.txs[high], user, num);
        }
      case None => SumZero(s.txs, f);
    }
  }

  lemma {:induction false} ShownPartition(s: Db, user: UserId, rows: seq<ListedOrder>)
    requires forall i :: 0 <= i < |s.txs| ==> RowOk(s.txs[i])
    requires forall k :: 0 <= k < |rows| ==> ShownAccrual(s, user, rows[k].num, rows[k].accrual)
    requires forall k, l :: 0 <= k < l < |rows| ==> rows[k].num != rows[l].num
    ensures var whole := Sum(s.txs, AccrualIn(user, Numbers(rows)));
      && SumShown(rows) <= whole
      && (SumShown(rows) == whole <==> forall k :: 0 <= k < |rows| ==> OneCreditFor(s, user, rows[k].num))
  {
    hide OneCreditFor, ShownAccrual, RowOk;
    if rows == [] {
      SumZero(s.txs, AccrualIn(user, Numbers(rows)));
    } else {
      var n := |rows| - 1;
      var last := rows[n];
      ShownPartition(s, user, rows[..n]);
      ShownAtMost(s, user, last.num, last.accrual);
      assert Numbers(rows) == Numbers(rows[..n]) + {last.num};
      SumAdds(s.txs, AccrualIn(user, Numbers(rows[..n])), AccrualIn(user, {last.num}), AccrualIn(user, Numbers(rows)));
      assert forall k :: 0 <= k < n ==> rows[..n][k] == rows[k];
    }
  }

  predicate UserCredit(r: TxRow, user: UserId) {
    IsCredit(r) && r.user == user
  }

  /** No order of the user has two credits. */
  predicate UserCreditOnce(s: Db, user: UserId) {
    forall i, j :: 0 <= i < j < |s.txs| && UserCredit(s.txs[i], user) && UserCredit(s.txs[j], user) ==>
      s.txs[i].num != s.txs[j].num
  }

  /** In any tables that keep the invariant, the list shows at most what was accrued. */
  lemma ShownOfAccrued(s: Db, user: UserId, rows: seq<ListedOrder>)
    requires LedgerOk(s) && CreditsOwned(s) && UserRows(s, user, rows)
    ensures SumShown(rows) <= GetBalance(s, user).accrued
    ensures SumShown(rows) == GetBalance(s, user).accrued <==> UserCreditOnce(s, user)
  {
    ShownPartition(s, user, rows);
    forall i | 0 <= i < |s.txs|
      ensures AccrualIn(user, Numbers(rows))(s.txs[i]) == AccrualOf(user)(s.txs[i])
      ensures UserCredit(s.txs[i], user) ==> s.txs[i].num in Numbers(rows)
    {
      assert RowOk(s.txs[i]);
    }
    SumAdds(s.txs, AccrualIn(user, Numbers(rows)), (r: TxRow) => 0, AccrualOf(user));
    SumZero(s.txs, (r: TxRow) => 0);
    BalanceMeaning(s, user);
    OncePerRow(s, user, rows);
  }

  lemma OncePerRow(s: Db, user: UserId, rows: seq<ListedOrder>)
    requires forall i :: 0 <= i < |s.txs| && UserCredit(s.txs[i], user) ==> s.txs[i].num in Numbers(rows)
    ensures (forall k :: 0 <= k < |rows| ==> OneCreditFor(s, user, rows[k].num)) <==> UserCreditOnce(s, user)
  {
    if !UserCreditOnce(s, user) {
      var i, j :| 0 <= i < j < |s.txs| && UserCredit(s.txs[i], user) && UserCredit(s.txs[j], user)
        && s.txs[i].num == s.txs[j].num;
      var k :| 0 <= k < |rows| && rows[k].num == s.txs[i].num;
      assert CreditFor(s.txs[i], user, rows[k].num) && CreditFor(s.txs[j], user, rows[k].num);
    }
  }

  /** After any free run, whatever overlaps in it: when the list of orders succeeds, the accruals
      it shows add up to at most the accrued component of the balance, and to all of it exactly
      when no order of the user has two credits. */
  lemma {:induction false} ViewsAgreeExactly(run: seq<Action>, user: UserId, rows: seq<ListedOrder>)
    requires UserRows(RunFree(INIT, run).db, user, rows)
    requires ListOrders(rows).Ok?
    ensures var s := RunFree(INIT, run).db;
      var (shown, accrued) := (SumShown(ListOrders(rows).value), GetBalance(s, user).accrued);
      shown <= accrued && (shown == accrued <==> UserCreditOnce(s, user))
  {
    FreeRunInv(run);
    ShownOfAccrued(RunFree(INIT, run).db, user, rows);
  }

  /** View consistency: after any serialized run, whenever the list of orders succeeds, the
      accruals it shows add up to the accrued component of the balance. */
  lemma {:induction false} ViewsAgree(run: seq<(Action, Input)>, user: UserId, rows: seq<ListedOrder>)
    requires UserRows(RunSerial(INIT, run).db, user, rows)
    requires ListOrders(rows).Ok?
    ensures SumShown(ListOrders(rows).value) == GetBalance(RunSerial(INIT, run).db, user).accrued
  {
    SerialRunInv(run);
    ShownOfAccrued(RunSerial(INIT, run).db, user, rows);
  }

  /** The list succeeds exactly when each processed order of the user has a credit. */
  lemma ListSucceedsExactly(s: Db, user: UserId, rows: seq<ListedOrder>)
    requires UserRows(s, user, rows)
    ensures ListOrders(rows).Ok? <==>
      forall n :: n in s.orders && s.orders[n] == OrderRow(user, OrderProcessed) ==>
        exists i :: 0 <= i < |s.txs| && CreditFor(s.txs[i], user, n)
  {
    if ListOrders(rows).Ok? {
      forall n | n in s.orders && s.orders[n] == OrderRow(user, OrderProcessed)
        ensures exists i :: 0 <= i < |s.txs| && CreditFor(s.txs[i], user, n)
      {
        assert n in Numbers(rows);
        var k :| 0 <= k < |rows| && rows[k].num == n;
        assert ShownAccrual(s, user, n, rows[k].accrual);
      }
    } else {
      var k :| 0 <= k < |rows| && rows[k].status == OrderProcessed && rows[k].accrual.None?;
      assert ShownAccrual(s, user, rows[k].num, rows[k].accrual);
      assert s.orders[rows[k].num] == OrderRow(user, OrderProcessed);
    }
  }
}

/** The repositories as objects over mutable tables. Each method is proved to do what its
    statement does on the values of the tables. */
module Repositories {
  import opened Money
  import opened Domain
  import opened Database
  import opened Ledger
  import opened Views

  /** The tables of the database. */
  class Tables {
    var orders: map<OrderNumber, OrderRow>
    var txs: seq<TxRow>
    var accounts: map<UserId, int>

    constructor ()
      ensures Contents() == EMPTY_DB
    {
      orders, txs, accounts := map[], [], map[];
    }

    function Contents(): Db
      reads this
    {
      Db(orders, txs, accounts)
    }
  }

  class OrderRepository {
    const db: Tables

    constructor (db: Tables)
      ensures this.db == db
    {
      this.db := db;
    }

    /** Finds an order by its number. A processed one is an error, because no accrual is passed
        on to the check of the row. */
    method GetByNumber(num: OrderNumber, f: Fault) returns (r: Result<Order>)
      ensures f != NoFault ==> r.Err? && r.error == StoreError
      ensures f == NoFault && num !in db.orders ==> r.Err? && r.error == OrderNotFound
      ensures f == NoFault && num in db.orders && db.orders[num].status == OrderProcessed ==>
                r.Err? && r.error == AccrualMissing
      ensures f == NoFault && num in db.orders && db.orders[num].status != OrderProcessed ==>
                && r.Ok? && fresh(r.value) && r.value.num == num
                && db.orders[num] == OrderRow(r.value.user, r.value.status)
      ensures r.Ok? <==> Lookup(db.Contents(), num, f).Ok?
      ensures r.Ok? ==> fresh(r.value) && Lookup(db.Contents(), num, f) == Ok(r.value.Value())
      ensures r.Err? ==> Lookup(db.Contents(), num, f) == Err(r.error)
    {
      if f != NoFault {
        return Err(StoreError);
      }
      if num !in db.orders {
        return Err(OrderNotFound);
      }
      var row := db.orders[num];
      match BuildOrder(row.user, num, row.status, false) {
        case Err(e) => return Err(e);
        case Ok(o) =>
          var order := new Order(o.user, o.num, o.status);
          return Ok(order);
      }
    }

    /** Inserts an order, or updates the status of the same user's order. The number of another
        user's order is an error. An error that is reported after the effect leaves it. */
    method Save(order: Order, f: Fault) returns (r: Result<()>)
      modifies db
      ensures var taken := order.num in old(db.orders) && old(db.orders)[order.num].user != order.user;
        && (r.Ok? <==> f == NoFault && !taken)
        && (r.Err? ==> r.error == StoreError)
        && (f == FailsBefore || taken ==> db.orders == old(db.orders))
        && (f != FailsBefore && !taken ==>
              && order.num in db.orders && db.orders[order.num] == OrderRow(order.user, order.status)
              && db.orders - {order.num} == old(db.orders) - {order.num})
      ensures db.txs == old(db.txs) && db.accounts == old(db.accounts)
      ensures (db.Contents(), r) == Database.Save(old(db.Contents()), old(order.Value()), f)
    {
      if f == FailsBefore {
        return Err(StoreError);
      }
      if order.num in db.orders && db.orders[order.num].user != order.user {
        return Err(StoreError);
      }
      db.orders := db.orders[order.num := OrderRow(order.user, order.status)];
      return if f == FailsAfter then Err(StoreError) else Ok(());
    }

    /** Builds the list of a user's orders from the rows the query returned: every order of the
        user once, with its status in the table and an accrual that one of its credits has. It
        fails exactly on a fault or if a processed order of the user has no credit. */
    method ListByUser(user: UserId, rows: seq<ListedOrder>, f: Fault) returns (r: Result<seq<ListedOrder>>)
      requires UserRows(db.Contents(), user, rows)
      ensures r.Ok? ==> |r.value| == |rows| && forall k :: 0 <= k < |rows| ==>
                && r.value[k].num == rows[k].num && r.value[k].status == rows[k].status
                && r.value[k].accrual == rows[k].accrual
      ensures r.Ok? ==>
        && (forall k :: 0 <= k < |r.value| ==>
              && r.value[k].num in db.orders
              && db.orders[r.value[k].num] == OrderRow(user, r.value[k].status)
              && AccrualShown(user, r.value[k]))
        && (forall k, l :: 0 <= k < l < |r.value| ==> r.value[k].num != r.value[l].num)
        && (forall n :: n in db.orders && db.orders[n].user == user ==>
              exists k :: 0 <= k < |r.value| && r.value[k].num == n)
      ensures f == NoFault ==> (r.Err? <==>
                exists n :: n in db.orders && db.orders[n] == OrderRow(user, OrderProcessed) && !HasCredit(user, n))
      ensures f == NoFault ==> r == ListOrders(rows)
      ensures f != NoFault ==> r == Err(StoreError)
    {
      ListSucceedsExactly(db.Contents(), user, rows);
      AllListed(user, rows);
      if f != NoFault {
        return Err(StoreError);
      }
      var orders := [];
      for k := 0 to |rows|
        invariant orders == rows[..k]
        invariant forall i :: 0 <= i < k ==> !(rows[i].status == OrderProcessed && rows[i].accrual.None?)
      {
        match BuildOrder(user, rows[k].num, rows[k].status, rows[k].accrual.Some?) {
          case Err(e) => return Err(e);
          case Ok(o) => orders := orders + [ListedOrder(o.num, o.status, rows[k].accrual)];
        }
      }
      assert rows[..|rows|] == rows;
      return Ok(orders);
    }

    /** The order has a processed row of this user with a positive accrual. */
    predicate HasCredit(user: UserId, num: OrderNumber)
      reads db
    {
      exists i :: 0 <= i < |db.txs| && db.txs[i].user == user && db.txs[i].num == num
               && db.txs[i].status == TxProcessed && db.txs[i].accrual > 0
    }

    /** The accrual of an entry is that of such a row, and missing only if there is none. */
    predicate AccrualShown(user: UserId, entry: ListedOrder)
      reads db
    {
      match entry.accrual
      case None => !HasCredit(user, entry.num)
      case Some(a) => exists i :: 0 <= i < |db.txs| && db.txs[i].user == user && db.txs[i].num == entry.num
                               && db.txs[i].status == TxProcessed && db.txs[i].accrual == a > 0
    }

    lemma AllListed(user: UserId, rows: seq<ListedOrder>)
      requires UserRows(db.Contents(), user, rows)
      ensures forall k :: 0 <= k < |rows| ==> AccrualShown(user, rows[k])
      ensures forall n :: n in db.orders && db.orders[n].user == user ==>
                exists k :: 0 <= k < |rows| && rows[k].num == n
      ensures forall n :: HasCredit(user, n) <==>
                exists i :: 0 <= i < |db.txs| && CreditFor(db.Contents().txs[i], user, n)
    {
      forall n ensures HasCredit(user, n) <==>
                exists i :: 0 <= i < |db.txs| && CreditFor(db.Contents().txs[i], user, n)
      {
        if HasCredit(user, n) {
          var i :| 0 <= i < |db.txs| && db.txs[i].user == user && db.txs[i].num == n
                && db.txs[i].status == TxProcessed && db.txs[i].accrual > 0;
          assert CreditFor(db.Contents().txs[i], user, n);
        }
      }
      forall n | n in db.orders && db.orders[n].user == user ensures exists k :: 0 <= k < |rows| && rows[k].num == n {
        assert n in Numbers(rows);
      }
    }

    /** `nums` is what the query of `ListByStatuses` may return, in any order. */
    ghost predicate StatusRows(statuses: seq<OrderStatus>, nums: seq<OrderNumber>)
      reads db
    {
      && (forall k :: 0 <= k < |nums| ==> nums[k] in db.orders && db.orders[nums[k]].status in statuses)
      && (forall k, l :: 0 <= k < l < |nums| ==> nums[k] != nums[l])
      && (forall n :: n in db.orders && db.orders[n].status in statuses ==> n in nums)
    }

    /** Builds the orders with one of the statuses; it fails exactly when one is processed. */
    method ListByStatuses(statuses: seq<OrderStatus>, nums: seq<OrderNumber>, f: Fault)
        returns (r: Result<seq<OrderValue>>)
      requires StatusRows(statuses, nums)
      ensures r.Ok? <==> f == NoFault && (OrderProcessed in statuses ==>
                           forall n :: n in db.orders ==> db.orders[n].status != OrderProcessed)
      ensures r.Ok? ==> |r.value| == |nums| && forall k :: 0 <= k < |nums| ==>
                r.value[k] == OrderValue(db.orders[nums[k]].user, nums[k], db.orders[nums[k]].status)
    {
      if f != NoFault {
        return Err(StoreError);
      }
      var orders := [];
      for k := 0 to |nums|
        invariant |orders| == k
        invariant forall i :: 0 <= i < k ==> db.orders[nums[i]].status != OrderProcessed
        invariant forall i :: 0 <= i < k ==>
          orders[i] == OrderValue(db.orders[nums[i]].user, nums[i], db.orders[nums[i]].status)
      {
        var row := db.orders[nums[k]];
        match BuildOrder(row.user, nums[k], row.status, false) {
          case Err(e) => return Err(e);
          case Ok(o) => orders := orders + [o];
        }
      }
      return Ok(orders);
    }
  }

  class AccountRepository {
    const db: Tables

    constructor (db: Tables)
      ensures this.db == db
    {
      this.db := db;
    }

    /** The balance of a user. When the cache agrees with the history it is accruals,
        withdrawals and their difference, whichever path computes it. */
    method GetBalance(user: UserId, fails: nat -> bool) returns (r: Result<BalanceView>)
      ensures r.Ok? ==> r.value == Views.GetBalance(db.Contents(), user)
      ensures var cached := user in db.accounts && db.accounts[user] != 0;
        r.Ok? <==> !fails(0) && (if cached then !fails(3) else !fails(1) && !fails(2))
      ensures r.Err? ==> r.error == StoreError
      ensures r.Ok? && Agreement(db.Contents()) && NonNegative(db.Contents()) ==>
        && r.value.accrued == Sum(db.txs, AccrualOf(user))
        && r.value.withdrawn == Sum(db.txs, WithdrawOf(user))
        && r.value.Current() == Balance(db.Contents(), user)
    {
      ghost var s := db.Contents();
      if Agreement(s) && NonNegative(s) {
        BalanceMeaning(s, user);
      }
      if fails(0) {
        return Err(StoreError);
      }
      if user !in db.accounts || db.accounts[user] == 0 {
        if fails(1) {
          return Err(StoreError);
        }
        var currentFromHistory := Sum(db.txs, NetOf(user));
        if fails(2) {
          return Err(StoreError);
        }
        var withdrawn := Sum(db.txs, WithdrawOf(user));
        return Ok(BalanceView(currentFromHistory + withdrawn, withdrawn));
      }
      var current := db.accounts[user];
      if fails(3) {
        return Err(StoreError);
      }
      var withdrawn := Sum(db.txs, WithdrawOf(user));
      return Ok(BalanceView(current + withdrawn, withdrawn));
    }

    /** Plans a transaction with the rounded amount on the side that the sign says, and returns
        its id. An amount that the column cannot hold is an error. */
    method RegisterTransaction(user: UserId, num: OrderNumber, sum: real, f: Fault) returns (r: Result<TxId>)
      modifies db
      ensures var amount := RoundCents(if sum < 0.0 then -sum else sum);
        && (r.Ok? <==> f == NoFault && Fits(amount))
        && (r.Err? ==> r.error == StoreError)
        && (r.Ok? ==> r.value == |old(db.txs)|)
        && (f == FailsBefore || !Fits(amount) ==> db.txs == old(db.txs))
        && (f != FailsBefore && Fits(amount) ==>
              && |db.txs| == |old(db.txs)| + 1 && old(db.txs) <= db.txs
              && var row := db.txs[|old(db.txs)|];
                 && row.user == user && row.num == num && row.status == TxPlanned
                 && (sum < 0.0 ==> row.withdraw == amount && row.accrual == 0)
                 && (sum >= 0.0 ==> row.accrual == amount && row.withdraw == 0))
      ensures db.orders == old(db.orders) && db.accounts == old(db.accounts)
      ensures (db.Contents(), r) == Register(old(db.Contents()), user, num, sum, f)
    {
      var withdraw, accrual := 0.0, 0.0;
      if sum < 0.0 {
        withdraw := Abs(sum);
      } else {
        accrual := Abs(sum);
      }
      RoundExact(0);
      if f == FailsBefore || !Fits(RoundCents(accrual)) || !Fits(RoundCents(withdraw)) {
        return Err(StoreError);
      }
      var id := |db.txs|;
      db.txs := db.txs + [TxRow(user, num, RoundCents(accrual), RoundCents(withdraw), TxPlanned)];
      return if f == FailsAfter then Err(StoreError) else Ok(id);
    }

    /** Cancels the row with this id, whatever its status, and no other. A missing row is no
        error. */
    method CancelTransaction(tx: TxId, f: Fault) returns (r: Result<()>)
      modifies db
      ensures r == if f == NoFault then Ok(()) else Err(StoreError)
      ensures |db.txs| == |old(db.txs)| && forall i :: 0 <= i < |db.txs| ==>
                if i == tx && f != FailsBefore
                then db.txs[i] == old(db.txs)[i].(status := TxCanceled) else db.txs[i] == old(db.txs)[i]
      ensures db.orders == old(db.orders) && db.accounts == old(db.accounts)
      ensures (db.Contents(), r) == Cancel(old(db.Contents()), tx, f)
    {
      if f == FailsBefore {
        return Err(StoreError);
      }
      if tx < |db.txs| {
        db.txs := db.txs[tx := db.txs[tx].(status := TxCanceled)];
      }
      return if f == FailsAfter then Err(StoreError) else Ok(());
    }

    /** Cancels every planned row of this user and this order. Every other row stays as it is:
        those of other users, of the user's other orders, and those that are not planned. */
    method CancelPlannedTransactionsByOrder(user: UserId, num: OrderNumber, f: Fault) returns (r: Result<()>)
      modifies db
      ensures r == if f == NoFault then Ok(()) else Err(StoreError)
      ensures |db.txs| == |old(db.txs)| && forall i :: 0 <= i < |db.txs| ==>
                var row := old(db.txs)[i];
                if f != FailsBefore && row.user == user && row.num == num && row.status == TxPlanned
                then db.txs[i] == row.(status := TxCanceled) else db.txs[i] == row
      ensures db.orders == old(db.orders) && db.accounts == old(db.accounts)
      ensures (db.Contents(), r) == CancelPlanned(old(db.Contents()), user, num, f)
    {
      if f == FailsBefore {
        return Err(StoreError);
      }
      var rows := db.txs;
      for i := 0 to |rows|
        invariant |rows| == |db.txs| && db.Contents() == old(db.Contents())
        invariant forall k :: 0 <= k < i ==> rows[k] == CanceledIfPlanned(db.txs[k], user, num)
        invariant forall k :: i <= k < |rows| ==> rows[k] == db.txs[k]
      {
        if rows[i].user == user && rows[i].num == num && rows[i].status == TxPlanned {
          rows := rows[i := rows[i].(status := TxCanceled)];
        }
      }
      assert rows == CanceledRows(db.Contents(), user, num);
      db.txs := rows;
      return if f == FailsAfter then Err(StoreError) else Ok(());
    }

    /** Makes the working rows of an SQL transaction the rows of the tables. */
    method Commit(txs: seq<TxRow>, accounts: map<UserId, int>, f: Fault) returns (r: Result<()>)
      modifies db
      ensures (db.Contents(), r) ==
        Faulted(old(db.Contents()), (old(db.Contents()).(txs := txs, accounts := accounts), Ok(())), f)
    {
      if f == FailsBefore {
        return Err(StoreError);
      }
      db.txs, db.accounts := txs, accounts;
      return if f == FailsAfter then Err(StoreError) else Ok(());
    }

    /** Approves a transaction, statement by statement on working copies that only a commit
        makes visible. `fails` says which statements fail and `commit` what the commit does;
        together they amount to one fault `f` of one atomic step. */
    method ApproveTransaction(tx: TxId, accrual: real, fails: nat -> bool, commit: Fault)
        returns (r: Result<()>, ghost f: Fault)
      modifies db
      ensures (db.Contents(), r) == Approve(old(db.Contents()), tx, accrual, f)
      ensures (fails(0) || fails(1)) ==> f == FailsBefore
      ensures tx < |old(db.txs)| ==>
        if exists k :: 0 <= k <= LastStatement(old(db.txs)[tx], accrual) && fails(k)
        then f == FailsBefore
        else (db.Contents(), r) == Approve(old(db.Contents()), tx, accrual, commit)
      ensures (forall k :: !fails(k)) && commit == NoFault ==> f == NoFault
      ensures tx < |old(db.txs)| && f != FailsBefore ==>
        && ApprovalEffect(old(db.Contents()), tx, accrual, db.Contents())
        && ApprovalResult(old(db.Contents()), tx, accrual, f, r)
      ensures tx >= |old(db.txs)| || f == FailsBefore ==> db.Contents() == old(db.Contents())
      ensures f == FailsBefore ==> r == Err(StoreError)
      ensures tx >= |old(db.txs)| && !fails(0) && !fails(1) ==> r == Err(NoRows)
    {
      ApprovalMeaning(db.Contents(), tx, accrual);
      ghost var before := db.Contents();
      if fails(0) || fails(1) {
        return Err(StoreError), FailsBefore;
      }
      var txs, accounts := db.txs, db.accounts;
      if tx >= |txs| {
        return Err(NoRows), NoFault;
      }
      var user, plannedWithdraw := txs[tx].user, txs[tx].withdraw;
      if fails(2) {
        return Err(StoreError), FailsBefore;
      }
      if user !in accounts {
        accounts := accounts[user := 0];
      }
      assert accounts[user] == Balance(before, user);
      if plannedWithdraw > 0 {
        if fails(3) || fails(4) || fails(5) {
          return Err(StoreError), FailsBefore;
        }
        if accounts[user] < plannedWithdraw {
          txs := txs[tx := txs[tx].(status := TxCanceled)];
          assert accounts == before.accounts[user := Balance(before, user)];
          r := Commit(txs, accounts, commit);
          if r.Ok? {
            r := Err(InsufficientFunds);
          }
          return r, commit;
        }
        accounts := accounts[user := accounts[user] - plannedWithdraw];
        txs := txs[tx := txs[tx].(status := TxProcessed)];
        assert accounts == before.accounts[user := Balance(before, user) - plannedWithdraw];
        r := Commit(txs, accounts, commit);
        return r, commit;
      }
      if accrual > 0.0 {
        var credit := RoundCents(accrual);
        if fails(3) || fails(4) {
          return Err(StoreError), FailsBefore;
        }
        if !Fits(credit) || !Fits(accounts[user] + credit) {
          return Err(StoreError), NoFault;
        }
        accounts := accounts[user := accounts[user] + credit];
        txs := txs[tx := txs[tx].(status := TxProcessed, accrual := credit)];
        assert accounts == before.accounts[user := Balance(before, user) + credit];
        r := Commit(txs, accounts, commit);
        return r, commit;
      }
      if fails(3) {
        return Err(StoreError), FailsBefore;
      }
      txs := txs[tx := txs[tx].(status := TxProcessed)];
      assert accounts == before.accounts[user := Balance(before, user)];
      r := Commit(txs, accounts, commit);
      return r, commit;
    }

    /** The last statement before the commit: the lock and the update of the balance of a
        withdrawal, or the upsert of an accrual, come before the update of the row. */
    function LastStatement(r: TxRow, accrual: real): nat {
      if r.withdraw > 0 then 5 else if accrual > 0.0 then 4 else 3
    }

    /** `ApproveTransaction` hit by one fault: it does not begin, or its answer is lost. */
    method ApproveAtomically(tx: TxId, accrual: real, f: Fault) returns (r: Result<()>)
      modifies db
      ensures (db.Contents(), r) == Approve(old(db.Contents()), tx, accrual, f)
      ensures r.Ok? ==> f == NoFault
    {
      ghost var hit: Fault;
      r, hit := ApproveTransaction(tx, accrual, (k: nat) => f == FailsBefore, NoFault);
      if f == FailsAfter {
        r := Err(StoreError);
      }
    }

    /** Builds the list of a user's withdrawals from the rows the query returned. Their sum is
        the withdrawn component of the balance. */
    method ListWithdrawals(user: UserId, ids: seq<TxId>, f: Fault) returns (r: Result<seq<Withdrawal>>)
      requires Selects(db.txs, ids, WithdrawalsOf(user))
      ensures r.Ok? <==> f == NoFault
      ensures r.Ok? ==> |r.value| == |ids| && forall k :: 0 <= k < |ids| ==>
                var row := db.txs[ids[k]];
                && row.user == user && row.status == TxProcessed && row.withdraw > 0
                && r.value[k].num == row.num && r.value[k].sum == row.withdraw
      ensures forall i :: 0 <= i < |db.txs| ==>
                (db.txs[i].user == user && db.txs[i].status == TxProcessed && db.txs[i].withdraw > 0 ==>
                   exists k :: 0 <= k < |ids| && ids[k] == i)
      ensures r.Ok? ==> r.value == WithdrawalRows(db.txs, ids)
      ensures r.Ok? ==> SumOfWithdrawals(r.value) == Views.GetBalance(db.Contents(), user).withdrawn
    {
      if f != NoFault {
        return Err(StoreError);
      }
      WithdrawnIsListed(db.Contents(), user, ids);
      var out := [];
      for k := 0 to |ids|
        invariant out == WithdrawalRows(db.txs, ids)[..k]
      {
        out := out + [Withdrawal(db.txs[ids[k]].num, db.txs[ids[k]].withdraw)];
      }
      return Ok(out);
    }
  }
}

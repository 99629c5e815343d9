/** The two request handlers that work on orders and the ledger, as sequential code over the
    repositories. */
module Requests {
  import opened Wrappers
  import opened Domain
  import opened Database
  import opened Ledger
  import opened Protocol
  import opened Repositories
  import opened Processing
  import Money
  import PoolProtocol

  /** The steps of one upload request, one per fault. */
  function RunUpload(s: Db, u: Upload, faults: seq<Fault>): (Db, Upload) {
    if faults == [] then (s, u)
    else var (s', u') := RunUpload(s, u, faults[..|faults| - 1]);
         UploadStep(s', u', faults[|faults| - 1])
  }

  class Handlers {
    const orders: OrderRepository
    const account: AccountRepository
    const db: Tables

    constructor (db: Tables)
      ensures this.db == db && Valid()
    {
      this.db := db;
      var orders := new OrderRepository(db);
      var account := new AccountRepository(db);
      this.orders, this.account := orders, account;
    }

    predicate Valid() {
      orders.db == db && account.db == db
    }

    /** `POST /api/user/orders`: 202 exactly for a new number that was saved, 200 and 409 for a
        known one of this or another user, unless it is processed: then, as on every fault,
        the answer is 500. Only 202, or a save that failed after its effect, changes a table.
        Exactly after 202 a task for the order is queued, if the pool's answer `add` accepts
        it; the answer to the client does not depend on that. */
    method PostUserOrders(user: UserId, num: OrderNumber, find: Fault, save: Fault,
                          processor: Processor, add: Option<PoolProtocol.AddError>)
        returns (code: int, queued: Option<Task>)
      requires Valid()
      modifies db
      ensures var (s, s') := (old(db.Contents()), db.Contents());
        && (code == 202 <==> num !in s.orders && find == NoFault && save == NoFault)
        && (code == 200 <==> find == NoFault && num in s.orders && s.orders[num].user == user
                                 && s.orders[num].status != OrderProcessed)
        && (code == 409 <==> find == NoFault && num in s.orders && s.orders[num].user != user
                                       && s.orders[num].status != OrderProcessed)
        && (code in {202, 200, 409, 500})
        && s' == (if num !in s.orders && find == NoFault && save != FailsBefore
                  then s.(orders := s.orders[num := OrderRow(user, OrderNew)]) else s)
      ensures queued == if code == 202 && add.None? then Some(NewTask(num, false)) else None
      ensures (db.Contents(), UploadDone(code)) == RunUpload(old(db.Contents()), UploadFind(user, num), [find, save])
    {
      assert [find, save][..1] == [find] && [find][..0] == [];
      assert RunUpload(db.Contents(), UploadFind(user, num), [find])
          == UploadStep(db.Contents(), UploadFind(user, num), find);
      var existing := orders.GetByNumber(num, find);
      if existing.Err? && existing.error != OrderNotFound {
        return HTTP_INTERNAL_ERROR, None;
      }
      if existing.Ok? {
        return (if existing.value.user == user then HTTP_OK else HTTP_CONFLICT), None;
      }
      var newOrder := new Order(user, num, OrderNew);
      var saved := orders.Save(newOrder, save);
      if saved.Err? {
        return HTTP_INTERNAL_ERROR, None;
      }
      queued := processor.Enqueue(num, false, add);
      return HTTP_ACCEPTED, queued;
    }

    /** `POST /api/user/balance/withdraw`: without faults the answer is 402 exactly when the
        rounded positive amount exceeds the balance, which then stays; on 200 the balance
        falls by exactly that amount. A fault answers 500 and nothing else; one that is reported
        after its effect leaves the planned row, or the approval, in the tables. */
    method PostUserBalanceWithdraw(user: UserId, num: OrderNumber, sum: real, register: Fault, approve: Fault)
        returns (code: int)
      requires Valid()
      modifies db
      ensures var (s, s') := (old(db.Contents()), db.Contents());
        var amount := Money.RoundCents(sum);
        register == NoFault && approve == NoFault ==>
          && (code == 400 <==> sum <= 0.0)
          && (code == 500 <==> sum > 0.0 && !Money.Fits(amount))
          && (code == 402 <==>
                sum > 0.0 && Money.Fits(amount) && amount > 0 && amount > Balance(s, user))
          && (code == 200 <==> sum > 0.0 && Money.Fits(amount) && (amount == 0 || amount <= Balance(s, user)))
          && (forall u: UserId :: Balance(s', u) ==
                if code == 200 && u == user then Balance(s, u) - amount else Balance(s, u))
          && s'.txs == (if code == 200 then s.txs + [TxRow(user, num, 0, amount, TxProcessed)]
                        else if code == 402 then s.txs + [TxRow(user, num, 0, amount, TxCanceled)]
                        else s.txs)
      ensures var (s, s') := (old(db.Contents()), db.Contents());
        var amount := Money.RoundCents(sum);
        var planned := TxRow(user, num, 0, amount, TxPlanned);
        && (sum <= 0.0 ==> code == 400 && s' == s)
        && (sum > 0.0 && (register != NoFault || approve != NoFault) ==> code == 500)
        && (sum > 0.0 && (register == FailsBefore || !Money.Fits(amount)) ==> s' == s)
        && (sum > 0.0 && Money.Fits(amount) && register == FailsAfter ==> s' == s.(txs := s.txs + [planned]))
        && (sum > 0.0 && Money.Fits(amount) && register == NoFault && approve == FailsBefore ==>
              s' == s.(txs := s.txs + [planned]))
        && (sum > 0.0 && Money.Fits(amount) && register == NoFault && approve != FailsBefore ==>
              ApprovalEffect(s.(txs := s.txs + [planned]), |s.txs|, 0.0, s'))
      ensures var (s1, w1) := WithdrawStep(old(db.Contents()), WithdrawRegister(user, num, sum), register);
        (db.Contents(), WithdrawDone(code)) == WithdrawStep(s1, w1, approve)
    {
      if sum <= 0.0 {
        return HTTP_BAD_REQUEST;
      }
      var tx := account.RegisterTransaction(user, num, -sum, register);
      if tx.Err? {
        return HTTP_INTERNAL_ERROR;
      }
      ApprovalMeaning(db.Contents(), tx.value, 0.0);
      var approved := account.ApproveAtomically(tx.value, 0.0, approve);
      if approved.Err? {
        return if approved.error == InsufficientFunds then HTTP_PAYMENT_REQUIRED else HTTP_INTERNAL_ERROR;
      }
      return HTTP_OK;
    }
  }
}

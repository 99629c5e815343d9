/** The three tables the protocol works on, and every repository statement as one atomic,
    autocommitted step on them that a fault may hit. */
module Database {
  import opened Money
  import opened Domain

  /** A row of "order"; the table is keyed by its unique order number. */
  datatype OrderRow = OrderRow(user: UserId, status: OrderStatus)

  /** A row of "transaction"; the amounts are cents. */
  datatype TxRow = TxRow(user: UserId, num: OrderNumber, accrual: int, withdraw: int, status: TxStatus)

  /** The tables. No statement deletes a transaction, so its id is its place in the table. */
  datatype Db = Db(orders: map<OrderNumber, OrderRow>, txs: seq<TxRow>, accounts: map<UserId, int>)

  const EMPTY_DB := Db(map[], [], map[])

  /** A statement works, fails before it takes effect, or takes effect and still reports an error. */
  datatype Fault = NoFault | FailsBefore | FailsAfter

  /** What a statement that would do `done` on `s` does under fault `f`. */
  function Faulted<T>(s: Db, done: (Db, Result<T>), f: Fault): (Db, Result<T>) {
    match f
    case NoFault => done
    case FailsBefore => (s, Err(StoreError))
    case FailsAfter => (done.0, Err(StoreError))
  }

  /** The cached balance of a user; a missing account row counts as zero. */
  function Balance(s: Db, user: UserId): int {
    if user in s.accounts then s.accounts[user] else 0
  }

  /** `buildOrder` as `GetByNumber` and `ListByUser` use it: a processed order needs an accrual. */
  function BuildOrder(user: UserId, num: OrderNumber, status: OrderStatus, hasAccrual: bool): Result<OrderValue> {
    if status == OrderProcessed && !hasAccrual then Err(AccrualMissing) else Ok(OrderValue(user, num, status))
  }

  /** `OrderRepository.GetByNumber`. It never passes an accrual, so it rejects processed orders. */
  function Lookup(s: Db, num: OrderNumber, f: Fault): Result<OrderValue> {
    if f != NoFault then Err(StoreError)
    else if num !in s.orders then Err(OrderNotFound)
    else BuildOrder(s.orders[num].user, num, s.orders[num].status, false)
  }

  /** `OrderRepository.Save`: an upsert on (user, number) under the unique order number. */
  function Save(s: Db, o: OrderValue, f: Fault): (Db, Result<()>) {
    var done :=
      if o.num in s.orders && s.orders[o.num].user != o.user then (s, Err(StoreError))
      else (s.(orders := s.orders[o.num := OrderRow(o.user, o.status)]), Ok(()));
    Faulted(s, done, f)
  }

  /** `AccountRepository.RegisterTransaction`: a negative sum plans a withdrawal. */
  function Register(s: Db, user: UserId, num: OrderNumber, sum: real, f: Fault): (Db, Result<TxId>) {
    var amount := RoundCents(Abs(sum));
    var row := if sum < 0.0
               then TxRow(user, num, 0, amount, TxPlanned)
               else TxRow(user, num, amount, 0, TxPlanned);
    var done := if !Fits(amount) then (s, Err(StoreError))
                else (s.(txs := s.txs + [row]), Ok(|s.txs|));
    Faulted(s, done, f)
  }

  /** `AccountRepository.CancelTransaction`: no check of the status; a missing row is no error. */
  function Cancel(s: Db, tx: TxId, f: Fault): (Db, Result<()>) {
    var done := if tx < |s.txs|
                then (s.(txs := s.txs[tx := s.txs[tx].(status := TxCanceled)]), Ok(()))
                else (s, Ok(()));
    Faulted(s, done, f)
  }

  function CanceledIfPlanned(r: TxRow, user: UserId, num: OrderNumber): TxRow {
    if r.user == user && r.num == num && r.status == TxPlanned then r.(status := TxCanceled) else r
  }

  /** The table with the planned rows of this user and order canceled. */
  function CanceledRows(s: Db, user: UserId, num: OrderNumber): (rows: seq<TxRow>)
    ensures |rows| == |s.txs|
  {
    seq(|s.txs|, i requires 0 <= i < |s.txs| => CanceledIfPlanned(s.txs[i], user, num))
  }

  /** `AccountRepository.CancelPlannedTransactionsByOrder`. */
  function CancelPlanned(s: Db, user: UserId, num: OrderNumber, f: Fault): (Db, Result<()>) {
    Faulted(s, (s.(txs := CanceledRows(s, user, num)), Ok(())), f)
  }

  /** What a committed `ApproveTransaction` does. The status of the row is not looked at. */
  function Approved(s: Db, tx: TxId, accrual: real): (Db, Result<()>) {
    if tx >= |s.txs| then (s, Err(NoRows))
    else
      var r := s.txs[tx];
      var balance := Balance(s, r.user);
      if r.withdraw > 0 then
        if balance >= r.withdraw then
          (s.(accounts := s.accounts[r.user := balance - r.withdraw],
              txs := s.txs[tx := r.(status := TxProcessed)]), Ok(()))
        else
          (s.(accounts := s.accounts[r.user := balance],
              txs := s.txs[tx := r.(status := TxCanceled)]), Err(InsufficientFunds))
      else if accrual > 0.0 then
        var credit := RoundCents(accrual);
        if !Fits(credit) || !Fits(balance + credit) then (s, Err(StoreError))
        else
          (s.(accounts := s.accounts[r.user := balance + credit],
              txs := s.txs[tx := r.(status := TxProcessed, accrual := credit)]), Ok(()))
      else
        (s.(accounts := s.accounts[r.user := balance],
            txs := s.txs[tx := r.(status := TxProcessed)]), Ok(()))
  }

  /** `AccountRepository.ApproveTransaction`: one SQL transaction, so one atomic step. */
  function Approve(s: Db, tx: TxId, accrual: real, f: Fault): (Db, Result<()>) {
    Faulted(s, Approved(s, tx, accrual), f)
  }
}

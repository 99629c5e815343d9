/** Identifiers, statuses and the order value that the service keeps in memory. */
module Domain {

  // User ids, order numbers and transaction ids are only ever compared for equality.
  type UserId = nat
  type OrderNumber = nat
  type TxId = nat

  datatype OrderStatus = OrderNew | OrderProcessing | OrderInvalid | OrderProcessed

  datatype TxStatus = TxPlanned | TxProcessed | TxCanceled

  /** The status the accrual service reports; `AccrualUnspecified` stands for every other code. */
  datatype AccrualStatus =
    | AccrualUnspecified
    | AccrualRegistered
    | AccrualProcessing
    | AccrualInvalid
    | AccrualProcessed

  datatype Error =
    | StoreError
    | OrderNotFound
    | NoRows
    | AccrualMissing
    | InsufficientFunds
    | StatusCantBeChanged

  datatype Result<+T> = Ok(value: T) | Err(error: Error)

  predicate Terminal(status: OrderStatus): (terminal: bool)
    ensures !terminal <==> status == OrderNew || status == OrderProcessing
  {
    status == OrderInvalid || status == OrderProcessed
  }

  /** The value of an in-memory order. */
  datatype OrderValue = OrderValue(user: UserId, num: OrderNumber, status: OrderStatus) {

    /** The order after `ChangeStatus`, or the refusal of a terminal order. */
    function WithStatus(status': OrderStatus): Result<OrderValue> {
      if Terminal(status) then Err(StatusCantBeChanged) else Ok(this.(status := status'))
    }
  }

  /** The in-memory order itself, mutated in place by the tasks that hold it. */
  class Order {
    const user: UserId
    const num: OrderNumber
    var status: OrderStatus

    constructor (user: UserId, num: OrderNumber, status: OrderStatus)
      ensures Value() == OrderValue(user, num, status)
    {
      this.user, this.num, this.status := user, num, status;
    }

    function Value(): OrderValue
      reads this
    {
      OrderValue(user, num, status)
    }

    /** A terminal order refuses every change and keeps its status; any other takes the new one. */
    method ChangeStatus(newStatus: OrderStatus) returns (r: Result<()>)
      modifies this
      ensures r.Err? <==> old(status) == OrderInvalid || old(status) == OrderProcessed
      ensures r.Err? ==> r.error == StatusCantBeChanged && status == old(status)
      ensures r.Ok? ==> status == newStatus
    {
      if status == OrderInvalid || status == OrderProcessed {
        return Err(StatusCantBeChanged);
      }
      status := newStatus;
      return Ok(());
    }
  }
}

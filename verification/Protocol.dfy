/** Everything that runs concurrently against the tables: order-processing tasks, order
    uploads and withdrawals. Each is a program counter; one step is one repository
    statement (or one begin/commit of a wrapping transaction, which touches no row). */
module Protocol {
  import opened Domain
  import opened Database
  import opened Adaptive

  // ----- the accrual service -----

  datatype Reply = Failed(error: AttemptError) | Replied(status: AccrualStatus, value: real)

  /** What the environment decides for one step: the fault of its statement and, for a
      poll, the reply and whether the wait after a retriable failure is cancelled. */
  datatype Input = Input(fault: Fault, reply: Reply, cancelled: bool)

  // ----- order-processing tasks -----

  datatype TaskPc =
    | BeginTouch
    | FindOrder
    | SaveProcessing(o: OrderValue)
    | CommitTouch(o: OrderValue)
    | CancelOld(o: OrderValue)
    | RegisterNew(o: OrderValue)
    | Poll(o: OrderValue, tx: TxId)
    | BeginSuccess(o: OrderValue, tx: TxId, value: real)
    | SaveProcessed(o: OrderValue, tx: TxId, value: real)
    | ApproveTx(o: OrderValue, tx: TxId, value: real)
    | CommitSuccess(o: OrderValue, tx: TxId)
    | BeginFail(o: OrderValue, tx: TxId)
    | SaveInvalid(o: OrderValue, tx: TxId)
    | CancelTx(o: OrderValue, tx: TxId)
    | CommitFail(o: OrderValue, tx: TxId)
    | Finished

  /** One run of `processOrder`, with the number of its calls of `ApproveTransaction` and
      `CancelTransaction` so far. */
  datatype Task = Task(num: OrderNumber, allowProcessing: bool, pc: TaskPc, approvals: nat, cancels: nat)

  function NewTask(num: OrderNumber, allowProcessing: bool): Task {
    Task(num, allowProcessing, BeginTouch, 0, 0)
  }

  /** One attempt of the retry loop: what the reader's reply makes the task do next. Errors
      that are not retriable, and a cancelled wait, leave the loop into `failOrder`. */
  function AfterPoll(o: OrderValue, tx: TxId, reply: Reply, cancelled: bool): TaskPc {
    match reply
    case Failed(e) => if IsRetriable(e) && !cancelled then Poll(o, tx) else BeginFail(o, tx)
    case Replied(status, value) =>
      match status
      case AccrualRegistered | AccrualProcessing => if cancelled then BeginFail(o, tx) else Poll(o, tx)
      case AccrualInvalid | AccrualUnspecified => BeginFail(o, tx)
      case AccrualProcessed => BeginSuccess(o, tx, value)
  }

  /** One step of `processOrder`. */
  function TaskStep(s: Db, t: Task, input: Input): (Db, Task) {
    var f := input.fault;
    match t.pc
    case BeginTouch =>
      (s, t.(pc := if f == NoFault then FindOrder else Finished))
    case FindOrder =>
      (s, t.(pc :=
        match Lookup(s, t.num, f)
        case Err(_) => Finished
        case Ok(o) =>
          if o.status != OrderNew && (!t.allowProcessing || o.status != OrderProcessing) then Finished
          else match o.WithStatus(OrderProcessing)
               case Err(_) => Finished
               case Ok(o') => SaveProcessing(o')))
    case SaveProcessing(o) =>
      var (s', r) := Save(s, o, f);
      (s', t.(pc := if r.Ok? then CommitTouch(o) else Finished))
    case CommitTouch(o) =>
      (s, t.(pc := if f == NoFault then CancelOld(o) else Finished))
    case CancelOld(o) =>
      var (s', r) := CancelPlanned(s, o.user, o.num, f);
      (s', t.(pc := if r.Ok? then RegisterNew(o) else Finished))
    case RegisterNew(o) =>
      var (s', r) := Register(s, o.user, o.num, 0.0, f);
      (s', t.(pc := if r.Ok? then Poll(o, r.value) else Finished))
    case Poll(o, tx) =>
      (s, t.(pc := AfterPoll(o, tx, input.reply, input.cancelled)))
    case BeginSuccess(o, tx, value) =>
      (s, t.(pc :=
        if f != NoFault then BeginFail(o, tx)
        else match o.WithStatus(OrderProcessed)
             case Err(_) => BeginFail(o, tx)
             case Ok(o') => SaveProcessed(o', tx, value)))
    case SaveProcessed(o, tx, value) =>
      var (s', r) := Save(s, o, f);
      (s', t.(pc := if r.Ok? then ApproveTx(o, tx, value) else BeginFail(o, tx)))
    case ApproveTx(o, tx, value) =>
      var (s', r) := Approve(s, tx, value, f);
      (s', t.(pc := if r.Ok? then CommitSuccess(o, tx) else BeginFail(o, tx), approvals := t.approvals + 1))
    case CommitSuccess(o, tx) =>
      (s, t.(pc := if f == NoFault then Finished else BeginFail(o, tx)))
    case BeginFail(o, tx) =>
      (s, t.(pc :=
        if f != NoFault then Finished
        else match o.WithStatus(OrderInvalid)
             case Err(_) => Finished
             case Ok(o') => SaveInvalid(o', tx)))
    case SaveInvalid(o, tx) =>
      var (s', r) := Save(s, o, f);
      (s', t.(pc := if r.Ok? then CancelTx(o, tx) else Finished))
    case CancelTx(o, tx) =>
      var (s', r) := Cancel(s, tx, f);
      (s', t.(pc := if r.Ok? then CommitFail(o, tx) else Finished, cancels := t.cancels + 1))
    case CommitFail(o, tx) =>
      (s, t.(pc := Finished))
    case Finished =>
      (s, t)
  }

  // ----- requests -----

  const HTTP_OK := 200
  const HTTP_ACCEPTED := 202
  const HTTP_BAD_REQUEST := 400
  const HTTP_PAYMENT_REQUIRED := 402
  const HTTP_CONFLICT := 409
  const HTTP_INTERNAL_ERROR := 500

  /** `POST /api/user/orders` after the request has been parsed. */
  datatype Upload =
    | UploadFind(user: UserId, num: OrderNumber)
    | UploadSave(user: UserId, num: OrderNumber)
    | UploadDone(code: int)

  function UploadStep(s: Db, u: Upload, f: Fault): (Db, Upload) {
    match u
    case UploadFind(user, num) =>
      (s, match Lookup(s, num, f)
          case Err(e) => if e == OrderNotFound then UploadSave(user, num) else UploadDone(HTTP_INTERNAL_ERROR)
          case Ok(o) => UploadDone(if o.user == user then HTTP_OK else HTTP_CONFLICT))
    case UploadSave(user, num) =>
      var (s', r) := Save(s, OrderValue(user, num, OrderNew), f);
      (s', UploadDone(if r.Ok? then HTTP_ACCEPTED else HTTP_INTERNAL_ERROR))
    case UploadDone(_) => (s, u)
  }

  /** `POST /api/user/balance/withdraw` after the request has been parsed. */
  datatype Withdraw =
    | WithdrawRegister(user: UserId, num: OrderNumber, sum: real)
    | WithdrawApprove(tx: TxId)
    | WithdrawDone(code: int)

  function WithdrawStep(s: Db, w: Withdraw, f: Fault): (Db, Withdraw) {
    match w
    case WithdrawRegister(user, num, sum) =>
      if sum <= 0.0 then (s, WithdrawDone(HTTP_BAD_REQUEST))
      else
        var (s', r) := Register(s, user, num, -sum, f);
        (s', if r.Ok? then WithdrawApprove(r.value) else WithdrawDone(HTTP_INTERNAL_ERROR))
    case WithdrawApprove(tx) =>
      var (s', r) := Approve(s, tx, 0.0, f);
      (s', WithdrawDone(if r.Ok? then HTTP_OK
                        else if r.error == InsufficientFunds then HTTP_PAYMENT_REQUIRED
                        else HTTP_INTERNAL_ERROR))
    case WithdrawDone(_) => (s, w)
  }

  // ----- interleaved runs -----

  datatype Actor = TaskActor(t: Task) | UploadActor(u: Upload) | WithdrawActor(w: Withdraw)

  function ActorStep(s: Db, a: Actor, input: Input): (Db, Actor) {
    match a
    case TaskActor(t) => var (s', t') := TaskStep(s, t, input); (s', TaskActor(t'))
    case UploadActor(u) => var (s', u') := UploadStep(s, u, input.fault); (s', UploadActor(u'))
    case WithdrawActor(w) => var (s', w') := WithdrawStep(s, w, input.fault); (s', WithdrawActor(w'))
  }

  /** The tables and everything that was started since the last crash. */
  datatype State = State(db: Db, actors: map<nat, Actor>)

  const INIT := State(EMPTY_DB, map[])

  datatype Action =
    | StartTask(id: nat, num: OrderNumber, allowProcessing: bool)
    | StartUpload(id: nat, user: UserId, num: OrderNumber)
    | StartWithdraw(id: nat, user: UserId, num: OrderNumber, sum: real)
    | Act(id: nat, input: Input)
    | Crash

  function Start(st: State, id: nat, a: Actor): State {
    if id in st.actors then st else st.(actors := st.actors[id := a])
  }

  /** One step of the free relation: anything may start at any time, any number of runs of
      one order may overlap, and a crash forgets everything but the tables. */
  function Apply(st: State, a: Action): State {
    match a
    case StartTask(id, num, allow) => Start(st, id, TaskActor(NewTask(num, allow)))
    case StartUpload(id, user, num) => Start(st, id, UploadActor(UploadFind(user, num)))
    case StartWithdraw(id, user, num, sum) => Start(st, id, WithdrawActor(WithdrawRegister(user, num, sum)))
    case Act(id, input) =>
      if id !in st.actors then st
      else var (db', a') := ActorStep(st.db, st.actors[id], input);
           State(db', st.actors[id := a'])
    case Crash => st.(actors := map[])
  }

  /** The state after a whole run of the free relation. */
  function RunFree(st: State, run: seq<Action>): State {
    if run == [] then st else Apply(RunFree(st, run[..|run| - 1]), run[|run| - 1])
  }

  // ----- the serialized relation -----

  /** Some unfinished task works on this order. */
  predicate Busy(st: State, num: OrderNumber) {
    exists id :: id in st.actors && st.actors[id].TaskActor? && st.actors[id].t.num == num
              && !st.actors[id].t.pc.Finished?
  }

  predicate AboutToSave(st: State, id: nat) {
    id in st.actors && st.actors[id].UploadActor? && st.actors[id].u.UploadSave?
  }

  /** One step of the serialized relation: an order has at most one unfinished task, and an
      upload's lookup and save are one step, whose save has input `second`. */
  function ApplySerial(st: State, a: Action, second: Input): State {
    if a.StartTask? && Busy(st, a.num) then st
    else
      var st' := Apply(st, a);
      if a.Act? && AboutToSave(st', a.id) then Apply(st', Act(a.id, second)) else st'
  }

  function RunSerial(st: State, run: seq<(Action, Input)>): State {
    if run == [] then st
    else var last := run[|run| - 1];
         ApplySerial(RunSerial(st, run[..|run| - 1]), last.0, last.1)
  }
}

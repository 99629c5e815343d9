# Loyalty service: verified model

This project models the hard parts of the loyalty service (orders are uploaded, an accrual
service is polled for the points they earn, points are credited and withdrawn) and proves what
holds of them. `dafny verify dfyconfig.toml` checks everything.

**Orders and ledger.** `Database` holds the three tables as values and every repository
statement as one autocommitted step that may fail before its effect, or take effect and still
report an error. Repository methods run on the plain connection, so a rollback of the wrapping
transaction undoes none of them, and the row lock of the lookup is not held; only
`ApproveTransaction` has an SQL transaction of its own and is one step. `Protocol` has one
program counter per order-processing task, upload and withdrawal, one step per statement, and two
relations over them:

- the *free* relation: anything may start at any time, runs of one order may overlap, and a crash
  forgets everything but the tables. `FreeRuns` proves an inductive invariant of it and, from
  that, cache agreement, no overdraft, frozen processed rows, permanent ownership and one
  terminal action per run;
- the *serialized* relation: an order has at most one unfinished task, and an upload's lookup and
  save are one step. `SerializedRuns` proves at-most-once credit for it and `Views` that what the
  user is shown adds up.

`Recovery` proves what one fault-free run of a pending order achieves, `RecoverAll` what the runs
of all queued orders achieve after a crash, and `Credits` exactly when a run under any faults
credits its order. `Interleaved` carries this over to runs with everything else going on beside
them: a task in a serialized run follows its own run alone, on tables with the balances of its
approval. `Losses` proves in exactly which reachable states a credit is lost for good, and `Limits`
shows where the guarantees end. `Repositories`, `Processing` and `Requests` are the same code as objects with
mutable state; each method is proved equal to its statement, and each run of `processOrder` and
of the two handlers to be a run of the step machine.

**Worker pool.** `PoolProtocol` is the pool as a system of concurrent actors with one step per
access to the state word, the channel or a wait-group counter; `WorkerPool` is the code of `Add`,
`Start`, `Stop` and the worker loop over shared fields, with other actors stepping in between.

**Retries.** `Repeater` is the retry loop against an oracle of outcomes, `Adaptive` the strategy
of the accrual requests. **Order numbers.** `Luhn` is the checksum loop and what it detects.

## What the code does not guarantee

These are results, each with a proof:

- *At most one credit is a property of the serialized relation, not of the code.* Recovery picks up
  an order that is still being polled, cancels its planned row and registers another;
  `ApproveTransaction` does not look at the status of the row, so both are credited
  (`Limits.OverlapCreditsTwice`). Without any overlap, a late upload resets a processed order to new
  (`Limits.LateUploadCreditsTwice`). A free run credits no order twice exactly when none of its
  approvals makes a credit for an order that has one (`SerializedRuns.CreditOnceExactly`); a single
  approval keeps credits unique exactly when it makes no credit or the order number has no other
  (`SerializedRuns.ApproveCreditOnceExact`). Where an order is credited twice, the list of orders
  shows less than was accrued, and only there (`Views.ViewsAgreeExactly`).
- *At most once is not exactly once.* A run credits its order exactly when no fault hits it before
  the polls, the success begins, the save of the status reports no error, and the approval takes
  effect with points that fit (`Credits.CreditExactly`, `Interleaved.CreditExactlyBeside`). In a
  reachable state the credit is lost for good, whatever happens later, exactly when the order is
  terminal without a credit, no task of it past the gate may still be granted points, and no upload
  of it by its user is about to save (`Losses.LostForGoodExactly`). A crash between the save and the
  approval loses it (`Losses.CrashAfterSaveLosesCredit`). A save or an approval that reports an
  error leaves the order processed and uncredited without any crash; that is final unless something
  in flight processes the order again (`Losses.ReportedErrorLosesCredit`), as a late upload can
  (`Losses.LateUploadRevives`).
- *Overflow of `numeric(16, 2)`* is the one case in which a fault-free run grants nothing for a
  positive reply and leaves its planned row behind (`Recovery.RecoveryConverges`,
  `Recovery.OverflowGrantsNothing`).
- *A processed order without points breaks the list.* `buildOrder` rejects it, so the whole list
  of the user's orders fails, although SPECIFICATION.md promises it
  (`Recovery.EmptyGrantBreaksList`, `Views.ListSucceedsExactly`).
- *A re-upload of a processed order answers 500*, not the 200 or 409 of SPECIFICATION.md, because
  `GetByNumber` never passes an accrual (`Requests.Handlers.PostUserOrders`).
- *A pool without workers* never returns from `Stop` with jobs in its queue, whatever steps are
  taken (`PoolProtocol.NeverReturns`); such a pool is reachable (`PoolProtocol.StrandedReachable`),
  and it is the only one that gets stuck (`PoolProtocol.StopProgress`).
- *A fixed strategy without delays* has no limit of attempts: the loop goes on exactly as long as
  every outcome is a retriable failure (`Repeater.NoDelaysNoLimit`).
- *An order that the pool refuses is dropped*, after an upload as in recovery; it stays pending in
  the tables (`Processing.Processor.RecoverPending`, `RecoverAll.OnlyUnqueuedPending`).

## Model

| member | source | states |
|---|---|---|
| FreeRuns.CacheAgreement | internal/repository/account.go:131-246 | after any interleaving of tasks, uploads, withdrawals, faults and crashes, every cached balance is the sum of accrual minus withdraw over the user's processed rows |
| FreeRuns.NeverOverdrawn | internal/repository/account.go:155-207 | no run ever makes a balance negative |
| FreeRuns.WithdrawalOutcome | internal/repository/account.go:155-207 | in every reachable state a fault-free withdrawal approval answers 402 exactly when the planned amount exceeds the balance, then only cancels the row; otherwise it takes exactly that amount |
| FreeRuns.ProcessedRowsFrozen | internal/repository/account.go:118-129 | once a row is processed, no continuation of the run changes anything in it |
| FreeRuns.OwnershipPermanent | internal/repository/order.go:57-67 | a saved order number keeps its user through every continuation, and all its credits are that user's |
| FreeRuns.CreditsFollowOwners | internal/order/processor.go:69-75 | every credit in every reachable state is for a saved order number and belongs to its owner |
| FreeRuns.OneTerminalActionPerRun | internal/order/processor.go:192-275 | under any interleaving and any faults one run calls approve and cancel at most once together |
| FreeRuns.FreeStep | internal/order/processor.go:55-136 | every step of the free relation keeps the invariant, adds rows or evolves them, and never changes an order's user |
| FreeRuns.TaskOwnStep | internal/order/processor.go:55-136 | a task's step keeps ledger, ownership and its own invariant, and can make no row but its own processed |
| FreeRuns.OthersUndisturbed | internal/order/processor.go:61-81 | another actor's step, a bulk cancel of planned rows included, never invalidates what a task relies on |
| FreeRuns.ApproveKeeps | internal/repository/account.go:131-246 | approving a row that is not processed keeps agreement, non-negativity and ownership of credits |
| FreeRuns.CancelPlannedKeeps | internal/repository/account.go:281-295 | the bulk cancel keeps the ledger and touches no processed row |
| Ledger.ApproveAgreementExact | internal/repository/account.go:131-246 | approving keeps the agreement if and only if the row was not counted before and carries no accrual of its own, case by case |
| SerializedRuns.AtMostOneCredit | internal/order/processor.go:236-264 | in every serialized run with crashes and faults between any statements, an order number has at most one credit, and then the order is processed |
| SerializedRuns.SerialStep | internal/order/processor.go:138-190 | every step of the serialized relation keeps that invariant; the gate on the stored status is what makes a task safe |
| SerializedRuns.AloneSave | internal/order/processor.go:236-248 | saving the terminal status before approving keeps the credits settled |
| SerializedRuns.SerialRunIsFree | internal/order/processor.go:44-53 | every serialized run is a free run, so all results about free runs apply |
| SerializedRuns.ApproveCreditOnceExact | internal/repository/account.go:131-246 | approving keeps one credit per order if and only if it makes no credit or the order has no other |
| SerializedRuns.CreditOnceExactly | internal/repository/account.go:131-246 | a free run credits no order twice if and only if no step of it is an effective approval that credits an order which has a credit already |
| Views.BalanceMeaning | internal/repository/account.go:25-92 | under agreement the cached path and the history path of GetBalance give the same accruals, withdrawals and difference |
| Views.NetSplits | internal/repository/account.go:55-69 | the filter withdraw > 0 loses nothing: net is accruals minus filtered withdrawals |
| Views.WithdrawnIsListed | internal/repository/account.go:248-279 | the withdrawn component equals the sum over the listed withdrawals, whatever their order |
| Views.ViewsAgreeExactly | internal/repository/order.go:69-127 | after any free run, when the list of orders succeeds, the accruals shown add up to at most the accrued component of the balance, and to all of it if and only if no order of the user has two credits |
| Views.ViewsAgree | internal/repository/order.go:69-127 | after any serialized run they add up to it |
| Views.ListSucceedsExactly | internal/repository/order_builder.go:9-23 | the list of orders succeeds if and only if every processed order of the user has a credit |
| Recovery.RecoveryConverges | internal/order/processor.go:55-136 | one fault-free run of a pending order, after any number of retriable replies, ends with a terminal order and exactly the rounded grant; a planned row remains if and only if the grant overflows |
| Recovery.SecondRunChangesNothing | internal/order/processor.go:154-159 | after it, no run of that order, under any faults, changes any table |
| Recovery.RefusedRunChangesNothing | internal/order/processor.go:138-190 | a run that the gate refuses touches no table |
| Recovery.ClaimSteps | internal/order/processor.go:56-81 | where the run and the tables are after each step before the polls, if no fault has hit one |
| Recovery.PreparePhase | internal/order/processor.go:56-81 | the steps before the poll leave the order processing and exactly one planned row for it, the run's own |
| Recovery.AfterPollExactly | internal/order/processor.go:92-127 | where every reply leads: a failure is polled again exactly unless it is of no known kind or its wait is cancelled, and so is an order registered or processing; a processed one goes on to success, everything else to failure |
| Recovery.PollsOnExactly | internal/order/processor.go:83-127 | after any number of polls the task polls again exactly if every answer was such, and then its order is processing |
| Recovery.SettlePhase | internal/order/processor.go:98-135 | the steps after the final reply settle the order, the run's row and the balance accordingly |
| Recovery.CleanRunEnds | internal/order/processor.go:92-135 | a fault-free run leaves the retry loop after its final reply and ends on those tables |
| Recovery.OverflowGrantsNothing | migrations/000004_balance.up.sql:5-6 | a reply of the first amount that the columns cannot hold processes the order, grants nothing and leaves the planned row |
| Recovery.EmptyGrantBreaksList | internal/repository/order_builder.go:17-19 | a processed reply that grants nothing leaves the user's list of orders failing |
| Limits.CrashedRunRecovers | internal/order/processor.go:277-287 | every serialized run, crashed with an order pending, extends by one clean run to a serialized run with that order settled and the balance agreeing |
| Limits.OverlapCreditsTwice | internal/order/processor.go:277-287 | from every state with a pending order whose credits fit the balance column, recovery overlapping a polling run credits it twice |
| Limits.LateUploadCreditsTwice | internal/api/handler/post_user_orders.go:54-74 | an upload whose save comes late credits an order twice without any overlap of tasks |
| Credits.CreditExactly | internal/order/processor.go:55-136 | for every fault, every number of polls and every point at which the run stops: the order has a credit, of what the final reply grants, if and only if no fault hit it before the polls, success began, the save reported no error and the approval took effect with points that fit; and exactly when a processed or an invalid status was saved |
| Losses.LostForGoodExactly | internal/order/processor.go:138-287 | in every reachable state, no continuation whatever credits the order if and only if it is terminal without a credit, no task of it past the gate may still be granted points, and no upload of it by its user is about to save |
| Losses.SealedStays | internal/order/processor.go:138-190 | from such a state every continuation, crashes included, keeps the order terminal and uncredited |
| Losses.LostByCrashExactly | internal/order/processor.go:192-275 | a run stopped by a crash after any number of steps loses the credit for good if and only if a terminal status was saved and the order was not credited |
| Losses.LostInFlightExactly | internal/order/processor.go:192-275 | without a crash the same if and only if, moreover, the run is not about to approve points and no other task or upload in flight can process the order again |
| Losses.CrashAfterSaveLosesCredit | internal/order/processor.go:248-256 | from every reachable state, a crash after the status is saved leaves the order processed, and no continuation credits it, after any number of polls |
| Losses.ReportedErrorLosesCredit | internal/order/processor.go:248-264 | a save that took effect but reported an error, or an approval that failed, leaves the order processed and uncredited without a crash; for good if and only if nothing in flight can process it again |
| Losses.LateUploadRevives | internal/api/handler/post_user_orders.go:54-74 | a reachable state in which a late upload can still undo such a loss |
| Credits.FateExactly | internal/order/processor.go:92-136 | from the final reply on, for any claimed order, every fault and every number of steps: exactly which status is saved, what becomes of the row, that every other row is unchanged, and every balance |
| Credits.TablesExactly | internal/order/processor.go:55-136 | the tables at every point of a run under any faults, before, during and after its polls |
| Interleaved.CreditExactlyBeside | internal/order/processor.go:55-136 | in every serialized run, with requests, runs of other orders and any faults beside it: the run has credited its order, with what the final reply grants, and saved a terminal status under exactly the same conditions, overflow judged on the tables at its approval |
| Interleaved.RunFollows | internal/order/processor.go:55-136 | the task is at every point where its own run alone would be, with its order and its credits the same |
| Interleaved.StepBeside | internal/repository/account.go:281-295 | in a serialized run only an unfinished task of an order touches its row or its credits |
| Interleaved.CleanRunBeside | internal/order/processor.go:55-136 | a run that no fault hit and that has finished has settled its order as its final reply says, whatever went on beside it |
| Interleaved.TerminalIsFinal | internal/order/processor.go:154-159 | in serialized runs the row of a terminal order never changes again |
| Interleaved.InterleavedRecovery | internal/order/processor.go:277-287 | after any serialized run, with the recovery tasks and everything else interleaved in any way: an order with a finished fault-free recovery run is terminal, settled as the reply said if it was pending at its start, so none is pending if every pending one had such a run |
| RecoverAll.CrashedRunRecoversAll | internal/order/processor.go:277-287 | every serialized run extends by a crash and clean runs of the queued orders to a serialized run: exactly the orders not queued stay pending, none if and only if all were queued; balances rise by the grants that fit and agree with the ledger |
| RecoverAll.RecoveredSettles | internal/order/processor.go:277-287 | each queued order becomes terminal as its reply says, every other order stays, each balance rises by the grants that fit |
| RecoverAll.OnlyUnqueuedPending | internal/order/processor.go:289-309 | the orders still pending are exactly the ones not queued |
| RecoverAll.PaidInFull | internal/repository/account.go:131-246 | every grant is paid if and only if the balance column can take their sum |
| Processing.Processor.ProcessOrder | internal/order/processor.go:55-136 | the code makes exactly the steps of the step machine, waiting a second after each retriable reply or what a rate limit asks for up to half a minute; without faults it ends on the tables of the clean run |
| Processing.Processor.TouchOrder | internal/order/processor.go:138-190 | an order is claimed exactly if no fault hits, it exists, and it is new or may be taken up while processing; it is then processing in memory and in the table, and nothing else has changed |
| Processing.Processor.FailOrder | internal/order/processor.go:192-234 | failing an order makes the steps from the begin to the end of the run, whatever faults hit them |
| Processing.Processor.SuccessOrder | internal/order/processor.go:236-275 | approving an order makes the steps of the success path; it reports no error only if none of the four steps was hit by a fault, and otherwise the run goes on to fail |
| Processing.Processor.PollUntilSettled | internal/order/processor.go:83-135 | the retry loop with the adaptive strategy object makes the polling steps, waits as said after each, and leaves them where the step machine does |
| Processing.Processor.Attempt | internal/order/processor.go:92-127 | the closure returns the error of each reply, none exactly when it has ended the run, and that of a refused approval |
| Processing.Processor.RecoverPending | internal/order/processor.go:277-309 | recovery offers every order its gate admits, once each, and no other to the pool; exactly those that the pool accepts are queued and exactly those it refuses are dropped |
| Processing.EnqueueSplits | internal/order/processor.go:283-309 | the queued and the dropped orders split the listed ones as the pool answered |
| Processing.PollsAsRepeaterRetries | internal/order/processor.go:92-127 | the step machine polls again exactly where the repeater with the adaptive strategy retries |
| Processing.PollingIsRepeat | internal/order/processor.go:83-136 | the whole polling phase makes exactly the calls of the repeater's loop; how the loop ends is decided by the last reply and decides where the run goes on |
| Requests.Handlers.PostUserOrders | internal/api/handler/post_user_orders.go:54-81 | 202, 200 and 409 each if and only if their condition holds, what is saved in every case, and that a task is queued if and only if the answer is 202 and the pool accepts it |
| Requests.Handlers.PostUserBalanceWithdraw | internal/api/handler/post_user_balance_withdraw.go:31-53 | without faults, 402 if and only if the rounded positive amount exceeds the balance; 200 takes exactly it; every fault answers 500, and what it leaves in the tables is stated |
| Repositories.AccountRepository.ApproveTransaction | internal/repository/account.go:131-246 | the statements on working copies: if one that is reached fails nothing changes, else they amount to one atomic step with the fault of the commit; its effect on row and balance is stated for a withdrawal, an accrual, neither, and a missing row |
| Ledger.ApprovalMeaning | internal/repository/account.go:131-246 | exactly the row and the balance of its user change, as each of the cases says, and what is answered |
| Repositories.AccountRepository.GetBalance | internal/repository/account.go:25-92 | the result is accruals, withdrawals and the cached balance of a ledger that agrees; it fails exactly if a query of the path taken fails |
| Repositories.AccountRepository.RegisterTransaction | internal/repository/account.go:94-116 | plans one row with the rounded amount on the side its sign says, or fails on an amount that does not fit, under any fault |
| Repositories.AccountRepository.CancelTransaction | internal/repository/account.go:118-129 | cancels the row with this id whatever its status, and changes no other row, under any fault |
| Repositories.AccountRepository.CancelPlannedTransactionsByOrder | internal/repository/account.go:281-295 | row by row: the planned rows of this user and this order are canceled, every other row is unchanged |
| Repositories.AccountRepository.ListWithdrawals | internal/repository/account.go:248-279 | one entry per processed withdrawal of the user, with its order number and amount; they sum to the withdrawn component of the balance |
| Repositories.OrderRepository.GetByNumber | internal/repository/order.go:24-55 | finds the order with its user and status; a missing and a processed one are different errors |
| Repositories.OrderRepository.Save | internal/repository/order.go:57-67 | inserts, or updates the same user's order, or fails on another user's, and changes no other order |
| Repositories.OrderRepository.ListByUser | internal/repository/order.go:69-127 | every order of the user once, with its status in the table and an accrual that one of its credits has; fails exactly on a fault or a processed order without a credit |
| Repositories.OrderRepository.ListByStatuses | internal/repository/order.go:129-171 | succeeds if and only if no listed order is processed, and then returns each |
| Domain.Order.ChangeStatus | internal/domain/order.go:67-75 | refuses exactly invalid and processed orders and keeps their status; else takes the new status |
| Money.RoundCents | migrations/000004_balance.up.sql:5-6 | the nearest number of cents, ties away from zero, never of the opposite sign |
| Money.FitsExactly | migrations/000004_balance.up.sql:5-6 | an amount fits if and only if its cents have at most 16 decimal digits |
| PoolProtocol.StopDrains | internal/tools/workerpool/workerpool.go:91-100 | when the winning Stop has returned, all accepted jobs were taken in order, finished, their errors reported once each; no worker is left if Start had returned before |
| PoolProtocol.TakenOnce | internal/tools/workerpool/workerpool.go:43-56 | no two workers run the same accepted job, and none runs a finished one |
| PoolProtocol.JobsOnlyAdvance | internal/tools/workerpool/workerpool.go:43-56 | accepted, taken and finished jobs stay so in every continuation |
| PoolProtocol.CounterAccounting | internal/tools/workerpool/workerpool.go:60-85 | the task counter is queued + running + adders in flight; no counter is negative, one close at most, queue and running jobs within their bounds |
| PoolProtocol.InvKept | internal/tools/workerpool/workerpool.go:36-100 | every step of every actor keeps the invariant |
| PoolProtocol.AddDecidedAtSelect | internal/tools/workerpool/workerpool.go:60-85 | under any interleaving an Add past the state check is undecided or was decided at its select: stopped if and only if the channel was closed there, full if and only if open and full, else accepted last |
| PoolProtocol.AddAfterClose | internal/tools/workerpool/workerpool.go:68-76 | racing with the close: after it, whatever steps anyone takes, a call that has not sent comes to the stopped error only, the task counter counts it exactly until its refusal has undone the increment, and no job is accepted |
| PoolProtocol.StopProgress | internal/tools/workerpool/workerpool.go:91-100 | a closed pool whose Stop has not returned can take a step if and only if it is not stranded without workers |
| PoolProtocol.NeverReturns | internal/tools/workerpool/workerpool.go:91-100 | a pool without workers that is closed with jobs in its queue has not returned from Stop after any steps of anyone |
| PoolProtocol.StrandedReachable | internal/tools/workerpool/workerpool.go:29-100 | a run from a new pool that reaches such a state |
| PoolProtocol.LeftDecreases | internal/tools/workerpool/workerpool.go:36-100 | after the close every step of the pool decreases a natural-number measure, and new calls do not raise it |
| PoolProtocol.StopReturnsInTime | internal/tools/workerpool/workerpool.go:91-100 | with a worker or an empty queue, in any mix of own steps and outside calls after the close the own steps are at most the measure, and until Stop returns a further one is enabled |
| WorkerPool.WorkerPool.Add | internal/tools/workerpool/workerpool.go:60-85 | with others stepping in anywhere, the call is a run decided by a stopped state it reads or by the channel as its select finds it: stopped if and only if closed, full if and only if open without room, else the job is accepted last |
| WorkerPool.WorkerPool.Start | internal/tools/workerpool/workerpool.go:36-58 | does nothing to a pool that is not new; else, from a reachable state, it is a run that ends with exactly the workers 0 to workerCount - 1 spawned |
| WorkerPool.WorkerPool.Stop | internal/tools/workerpool/workerpool.go:91-100 | does nothing unless started; else the channel is closed, each wait ends with the first look that finds its counter at zero, and when both have ended everything accepted is done |
| WorkerPool.WorkerPool.Work | internal/tools/workerpool/workerpool.go:43-56 | every round ran one job, or found the channel empty and open, or exited from an empty and closed one; undisturbed, the queued jobs are taken in order and finished, one a round, and it exits exactly if the channel is closed and a round is left |
| Repeater.Repeat | internal/tools/repeater/repeater.go:26-60 | stops at the first success, final error, cancelled wait or last attempt, with the corresponding result; calls every handler per failed call in order; sleeps the sum of the delays |
| Repeater.StopsUnique | internal/tools/repeater/repeater.go:26-60 | that specification determines the number of calls and the result |
| Repeater.StopsMeaning | internal/tools/repeater/repeater.go:26-60 | what it says outcome by outcome: which calls were retried, and which of the results each last call leads to |
| Repeater.HandlerLogOrder | internal/tools/repeater/repeater.go:36-39 | entry k * handlers + j of the log is handler j on the error of call k, with no other entries, also if the last call succeeds |
| Repeater.FixedSlept | internal/tools/repeater/repeater.go:62-89 | with fixed delays the slept total is the sum of the delays used |
| Repeater.FixedStops | internal/tools/repeater/repeater.go:62-89 | a fixed strategy with delays stops within one call per delay and gives up only after all of them; one without stops only on success or a final error |
| Repeater.NoDelaysNoLimit | internal/tools/repeater/repeater.go:26-60 | without delays the loop is still running after all outcomes if and only if every one is a retriable failure |
| Adaptive.AdaptiveWaits | internal/order/repeat_strategy.go:30-62 | every wait of a run is min(RetryAfter, maximum) after a positive rate limit and the base delay otherwise, and lies in (0, maximum] |
| Adaptive.WaitsBoundedExactly | internal/order/repeat_strategy.go:17-62 | all waits lie in (0, maximum] if and only if the base delay does |
| Adaptive.CancellationEndsLoop | internal/tools/repeater/repeater.go:46-56 | a cancellation seen in a wait ends even the unbounded loop with no further call |
| Adaptive.AdaptiveStrategy.Retriable | internal/order/repeat_strategy.go:30-75 | may be retried: every error of the known kinds and no other; a rate limit leaves its delay, up to the maximum, and the rest clear it |
| Adaptive.ProcessOrderRetries | internal/order/repeat_strategy.go:17-75 | with the strategy of processOrder, exactly which outcomes are retried, and how long the wait is, in nanoseconds |
| Adaptive.AdaptiveStrategy.Delay | internal/order/repeat_strategy.go:56-62 | the stored delay if positive, else the base delay |
| Luhn.OrderNumValidation | internal/security/order_validtion.go:7-32 | the loop accepts exactly the non-empty strings of the characters 0 to 9 whose sum, over pairs from the right with the digit sum of each doubled digit, is divisible by 10 |
| Luhn.AcceptsExactly | internal/security/order_validtion.go:12-31 | the positional form that the results below speak of accepts the same strings |
| Luhn.WeightMeaning | internal/security/order_validtion.go:20-27 | a doubled digit counts for the digit sum of its double, an undoubled one for itself |
| Luhn.SingleErrorDetected | internal/security/order_validtion.go:12-31 | changing any one byte of an accepted number makes it rejected |
| Luhn.TranspositionExactly | internal/security/order_validtion.go:12-31 | swapping two neighbours keeps the sum modulo 10 if and only if they are equal or 0 and 9 |
| Luhn.TranspositionDetected | internal/security/order_validtion.go:12-31 | an accepted number stays accepted under the swap in exactly those cases |
| Luhn.CheckDigitUnique | internal/security/order_validtion.go:12-31 | every digit prefix is completed by exactly one byte |

## Left out

- Processing.Processor.ProcessOrder: the code may poll for ever; the method follows it for a given number of polls and says whether it has ended by then.
- Repeater.Repeat: the number of outcomes is finite, so an unbounded loop may be cut off while running; the wrap-around of the unsigned attempt counter is not modelled.
- WorkerPool.WorkerPool.Stop: a wait looks at its counter a given number of times, others stepping in before each look, and is then reported as not returned instead of blocking for ever.
- Processing.Processor.PollUntilSettled: the loop calls the closure, `Processing.Processor.Attempt`, directly instead of through the repeater, since a Dafny function value cannot change the heap; `Processing.PollingIsRepeat` connects the two.
- Requests.Handlers.PostUserOrders: parsing and the Luhn check are not part of it; the processor and its pool are always there, and the pool's answer is a parameter.
- Processing.Processor.RecoverPending: the pool's answers are a parameter; in the step relations a task may start at any time.
- RecoverAll.CrashedRunRecoversAll: the clean runs follow one another; that interleaved ones settle every order too is `Interleaved.InterleavedRecovery`, which does not add up their grants.
- RecoverAll.RecoveredSettles: the same.
- Credits.CreditExactly: of a run that nobody interleaves with; `Interleaved.CreditExactlyBeside` is the same beside others, in serialized runs up to a crash or another run of the order.
- Credits.FateExactly: of a run that nobody interleaves with, as a step towards that.
- HTTP routing, generated API code, middleware, JSON and gzip: plumbing with no hard property.
- Authentication, registration, password hashing, tokens and UUID formats: foreign calls and thin wrappers; ids are compared for equality only.
- The HTTP accrual reader: replaced by an oracle of replies and errors.
- float64 and float32 bits: amounts are reals, stored as cents; amounts read back from the columns are exact.
- Comments and time stamps of rows: the lists are proved for every order the query may return, so their sorting by time is not stated; of several credits the subselect may pick any.
- GetBalance over several queries is not one snapshot: its results are stated over one state of the tables.
- Foreign keys to the user table: a violation is a fault of the statement.
- Panicking jobs, and changing the error callback while the pool runs.
- Real time: delays are numbers, and cancellation is an oracle observed at waits.
- Memory-model rules of wait-groups: they are atomic counters.
- Configuration, container, logging and the wiring of `main`; recovery may be called at any time.

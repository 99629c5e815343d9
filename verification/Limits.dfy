/** Recovery as part of interleaved runs, and runs that show where the guarantees end. */
module Limits {
  import opened Money
  import opened Domain
  import opened Database
  import opened Adaptive
  import opened Ledger
  import opened Protocol
  import opened FreeRuns
  import opened SerializedRuns
  import opened Recovery

  // ----- a task that runs alone, as part of an interleaved run -----

  /** `n` steps in a row of one actor. */
  function Acts(id: nat, oracle: Oracle, n: nat): seq<Action> {
    seq(n, (k: nat) => Act(id, oracle(k)))
  }

  lemma {:induction false} ActsRunTask(st: State, id: nat, oracle: Oracle, n: nat)
    requires id in st.actors && st.actors[id].TaskActor?
    ensures var (s', t') := RunTask(st.db, st.actors[id].t, oracle, n);
      RunFree(st, Acts(id, oracle, n)) == State(s', st.actors[id := TaskActor(t')])
  {
    hide TaskStep;
    if n == 0 {
      assert st.actors[id := st.actors[id]] == st.actors;
    } else {
      ActsRunTask(st, id, oracle, n - 1);
      assert Acts(id, oracle, n)[..n - 1] == Acts(id, oracle, n - 1);
    }
  }

  function Unpaired(input: Input, run: seq<Action>): seq<(Action, Input)> {
    seq(|run|, k requires 0 <= k < |run| => (run[k], input))
  }

  lemma {:induction false} ActsSerial(st: State, id: nat, oracle: Oracle, n: nat, input: Input)
    requires id in st.actors && st.actors[id].TaskActor?
    ensures RunSerial(st, Unpaired(input, Acts(id, oracle, n))) == RunFree(st, Acts(id, oracle, n))
  {
    hide RunTask, Apply, ApplySerial;
    if n > 0 {
      var before := RunFree(st, Acts(id, oracle, n - 1));
      ActsSerial(st, id, oracle, n - 1, input);
      ActsRunTask(st, id, oracle, n - 1);
      assert Acts(id, oracle, n)[..n - 1] == Acts(id, oracle, n - 1);
      assert Unpaired(input, Acts(id, oracle, n))[..n - 1] == Unpaired(input, Acts(id, oracle, n - 1));
      TaskActSerial(before, id, oracle(n - 1), input);
    }
  }

  /** A step of a task is the same in both relations. */
  lemma TaskActSerial(st: State, id: nat, input: Input, second: Input)
    requires id in st.actors && st.actors[id].TaskActor?
    ensures ApplySerial(st, Act(id, input), second) == Apply(st, Act(id, input))
  {
    hide TaskStep;
  }

  lemma {:induction false} RunSerialConcat(st: State, first: seq<(Action, Input)>, rest: seq<(Action, Input)>)
    ensures RunSerial(st, first + rest) == RunSerial(RunSerial(st, first), rest)
  {
    if rest == [] {
      assert first + rest == first;
    } else {
      var n := |rest| - 1;
      assert (first + rest)[..|first + rest| - 1] == first + rest[..n];
      RunSerialConcat(st, first, rest[..n]);
    }
  }

  /** Recovery after a crash: every serialized run that ends in a crash and leaves an order
      pending extends, by one task run alone without faults, to a serialized run whose tables
      are those of `RecoveryConverges`. */
  lemma {:induction false} CrashedRunRecovers(run: seq<(Action, Input)>, num: OrderNumber, oracle: Oracle, polls: nat)
      returns (more: seq<(Action, Input)>)
    requires var db := RunSerial(INIT, run).db; num in db.orders && !Terminal(db.orders[num].status)
    requires CleanRun(oracle, polls)
    ensures var (db, db') := (RunSerial(INIT, run).db, RunSerial(INIT, run + more).db);
      var user, reply := db.orders[num].user, FinalReply(oracle, polls);
      && |more| > 0 && more[0].0 == Crash
      && db' == RunTask(db, NewTask(num, true), oracle, polls + 11).0
      && db'.orders == db.orders[num := OrderRow(user, if Accepted(reply) then OrderProcessed else OrderInvalid)]
      && (NonePlanned(db', user, num) <==> !Overflows(db, user, reply))
      && Balance(db', user) == Balance(db, user) + (if Overflows(db, user, reply) then 0 else Granted(reply))
      && Balance(db', user) == Sum(db'.txs, NetOf(user))
  {
    hide TaskStep, RunTask;
    var st := RunSerial(INIT, run);
    var input := oracle(0);
    var start := [(Crash, input), (StartTask(0, num, true), input)];
    var ready := State(st.db, map[0 := TaskActor(NewTask(num, true))]);
    assert RunSerial(st, start) == ready by {
      assert start[..1] == [(Crash, input)];
      assert RunSerial(st, start[..1]) == State(st.db, map[]) by {
        assert start[..1][..0] == [];
      }
    }
    var acts := Unpaired(input, Acts(0, oracle, polls + 11));
    ActsSerial(ready, 0, oracle, polls + 11, input);
    ActsRunTask(ready, 0, oracle, polls + 11);
    RunSerialConcat(st, start, acts);
    more := start + acts;
    RunSerialConcat(INIT, run, more);
    RecoveryConverges(st.db, num, true, oracle, polls);
    SerialRunInv(run + more);
  }

  // ----- where at-most-once ends -----

  const QUIET := Input(NoFault, Failed(NotFound), false)

  /** A fault-free environment that grants 5.00 at once. */
  function GrantFive(): Oracle {
    (k: nat) => Input(NoFault, Replied(AccrualProcessed, 5.0), false)
  }

  predicate CreditedTwice(s: Db, num: OrderNumber) {
    exists i, j :: 0 <= i < j < |s.txs| && IsCredit(s.txs[i]) && IsCredit(s.txs[j])
                && s.txs[i].num == num && s.txs[j].num == num
  }

  lemma GrantFiveIsFive()
    ensures Granted(GrantFive()(0).reply) == 500
  {
    RoundExact(500);
    assert 500 as real / 100.0 == 5.0;
  }

  /** One step more. */
  lemma RunFreeSnoc(st: State, run: seq<Action>, a: Action)
    ensures RunFree(st, run + [a]) == Apply(RunFree(st, run), a)
  {
    assert (run + [a])[..|run|] == run;
  }

  /** A task started now and run alone. */
  lemma DriveTask(st: State, id: nat, num: OrderNumber, allow: bool, oracle: Oracle, n: nat)
    requires id !in st.actors
    ensures var (s', t') := RunTask(st.db, NewTask(num, allow), oracle, n);
      RunFree(st, [StartTask(id, num, allow)] + Acts(id, oracle, n))
        == State(s', st.actors[id := TaskActor(t')])
  {
    hide TaskStep, RunTask;
    var start := [StartTask(id, num, allow)];
    assert start == [] + start;
    RunFreeSnoc(st, [], start[0]);
    RunFreeConcat(st, start, Acts(id, oracle, n));
    ActsRunTask(RunFree(st, start), id, oracle, n);
  }

  /** Recovery picking up an order whose task is still polling credits it twice: the second
      run cancels the first run's transaction, and both are approved. */
  lemma OverlapCreditsTwice(st: State, first: nat, second: nat, num: OrderNumber, allow: bool)
      returns (run: seq<Action>)
    requires first != second && first !in st.actors && second !in st.actors
    requires Admits(st.db, num, allow)
    requires Fits(Balance(st.db, st.db.orders[num].user) + 500) && Fits(Balance(st.db, st.db.orders[num].user) + 1000)
    ensures CreditedTwice(RunFree(st, run).db, num)
    ensures var user := st.db.orders[num].user;
      Balance(RunFree(st, run).db, user) == Balance(st.db, user) + 1000
  {
    hide TaskStep, RunTask, RunFree;
    var o := GrantFive();
    GrantFiveIsFive();
    var user, s := st.db.orders[num].user, st.db;
    // The first task reaches the poll.
    var run1 := [StartTask(first, num, allow)] + Acts(first, o, 6);
    DriveTask(st, first, num, allow, o, 6);
    PreparePhase(s, num, allow, o);
    var st1 := RunFree(st, run1);
    var t1 := Task(num, allow, Poll(Claimed(s, num), |s.txs|), 0, 0);
    assert st1 == State(Prepared(s, num), st.actors[first := TaskActor(t1)]);
    // Recovery runs the order to its end.
    var run2 := [StartTask(second, num, true)] + Acts(second, o, 11);
    DriveTask(st1, second, num, true, o, 11);
    CleanRunSettles(st1.db, num, true, o, 0);
    var st2 := RunFree(st1, run2);
    var tx2 := |st1.db.txs|;
    assert st2.db.txs[tx2].num == num && IsCredit(st2.db.txs[tx2]);
    assert st2.db.txs[|s.txs|].user == user && st2.db.txs[|s.txs|].num == num && st2.db.txs[|s.txs|].withdraw == 0;
    // The first task polls again.
    var run3 := Acts(first, o, 5);
    ActsRunTask(st2, first, o, 5);
    SettlePhase(st2.db, t1, o);
    var st3 := RunFree(st2, run3);
    assert IsCredit(st3.db.txs[|s.txs|]) && st3.db.txs[tx2] == st2.db.txs[tx2];
    RunFreeConcat(st, run1, run2);
    RunFreeConcat(st, run1 + run2, run3);
    run := run1 + run2 + run3;
    assert CreditedTwice(st3.db, num);
    assert Balance(st1.db, user) == Balance(s, user);
  }

  /** A whole run alone that grants 5.00 adds one credit and 5.00. */
  lemma DriveCredits(st: State, id: nat, num: OrderNumber) returns (drive: seq<Action>)
    requires id !in st.actors && Admits(st.db, num, false)
    requires Fits(Balance(st.db, st.db.orders[num].user) + 500)
    requires forall i :: 0 <= i < |st.db.txs| ==> st.db.txs[i].status != TxPlanned
    ensures var (user, st') := (st.db.orders[num].user, RunFree(st, drive));
      && st'.db.orders == st.db.orders[num := OrderRow(user, OrderProcessed)]
      && st'.db.txs == st.db.txs + [TxRow(user, num, 500, 0, TxProcessed)]
      && Balance(st'.db, user) == Balance(st.db, user) + 500
      && (forall i :: i in st.actors ==> i in st'.actors && st'.actors[i] == st.actors[i])
      && st'.actors.Keys == st.actors.Keys + {id}
  {
    hide TaskStep, RunTask, RunFree;
    GrantFiveIsFive();
    drive := [StartTask(id, num, false)] + Acts(id, GrantFive(), 11);
    DriveTask(st, id, num, false, GrantFive(), 11);
    CleanRunSettles(st.db, num, false, GrantFive(), 0);
    assert CanceledRows(st.db, st.db.orders[num].user, num) == st.db.txs;
  }

  /** Without overlap of tasks, an upload that looked the order up before it was saved and
      saves it after it was processed makes it new again, and it is credited twice. */
  lemma LateUploadCreditsTwice(user: UserId, num: OrderNumber) returns (run: seq<Action>)
    ensures CreditedTwice(RunFree(INIT, run).db, num)
    ensures Balance(RunFree(INIT, run).db, user) == 1000
  {
    hide TaskStep;
    // Both uploads find nothing; only the second has saved.
    UploadsRace(user, num);
    var race := [StartUpload(0, user, num), Act(0, QUIET)] + [StartUpload(1, user, num), Act(1, QUIET), Act(1, QUIET)];
    var st1 := RunFree(INIT, race);
    var drive2 := DriveCredits(st1, 2, num);
    var st2 := RunFree(st1, drive2);
    // The first upload saves at last.
    assert st2.actors[0] == UploadActor(UploadSave(user, num));
    RunFreeConcat(INIT, race, drive2);
    RunFreeSnoc(INIT, race + drive2, Act(0, QUIET));
    var st3 := RunFree(INIT, race + drive2 + [Act(0, QUIET)]);
    assert st3.db == st2.db.(orders := st2.db.orders[num := OrderRow(user, OrderNew)]);
    var drive3 := DriveCredits(st3, 3, num);
    RunFreeConcat(INIT, race + drive2 + [Act(0, QUIET)], drive3);
    run := race + drive2 + [Act(0, QUIET)] + drive3;
    var rows := RunFree(INIT, run).db.txs;
    assert |rows| == 2 && IsCredit(rows[0]) && IsCredit(rows[1]) && rows[0].num == rows[1].num == num;
  }

  lemma UploadsRace(user: UserId, num: OrderNumber)
    ensures RunFree(INIT, [StartUpload(0, user, num), Act(0, QUIET)]
                          + [StartUpload(1, user, num), Act(1, QUIET), Act(1, QUIET)])
         == State(Db(map[num := OrderRow(user, OrderNew)], [], map[]),
                  map[0 := UploadActor(UploadSave(user, num)), 1 := UploadActor(UploadDone(HTTP_ACCEPTED))])
  {
    var run := [StartUpload(0, user, num), Act(0, QUIET)] + [StartUpload(1, user, num), Act(1, QUIET), Act(1, QUIET)];
    assert run == [] + [run[0]] + [run[1]] + [run[2]] + [run[3]] + [run[4]];
    RunFreeSnoc(INIT, [], run[0]);
    RunFreeSnoc(INIT, [] + [run[0]], run[1]);
    RunFreeSnoc(INIT, [] + [run[0]] + [run[1]], run[2]);
    RunFreeSnoc(INIT, [] + [run[0]] + [run[1]] + [run[2]], run[3]);
    RunFreeSnoc(INIT, [] + [run[0]] + [run[1]] + [run[2]] + [run[3]], run[4]);
  }
}

/** Recovery of every pending order after a crash, one clean run after the other. */
module RecoverAll {
  import opened Money
  import opened Domain
  import opened Database
  import opened Ledger
  import opened Protocol
  import opened SerializedRuns
  import opened Recovery
  import opened Limits

  /** A queued order with the environment of its run. */
  datatype Job = Job(num: OrderNumber, oracle: Oracle, polls: nat) {
    function Reply(): Reply {
      FinalReply(oracle, polls)
    }
  }

  /** Every queued order is pending, is queued once and has a fault-free run. */
  ghost predicate Recoverable(s: Db, jobs: seq<Job>) {
    && (forall k :: 0 <= k < |jobs| ==> Admits(s, jobs[k].num, true) && CleanRun(jobs[k].oracle, jobs[k].polls))
    && (forall k, l :: 0 <= k < l < |jobs| ==> jobs[k].num != jobs[l].num)
  }

  ghost predicate Queued(jobs: seq<Job>, num: OrderNumber) {
    exists k :: 0 <= k < |jobs| && jobs[k].num == num
  }

  /** The tables after the runs of all jobs. */
  function Recovered(s: Db, jobs: seq<Job>): Db {
    if jobs == [] then s
    else
      var last := jobs[|jobs| - 1];
      RunTask(Recovered(s, jobs[..|jobs| - 1]), NewTask(last.num, true), last.oracle, last.polls + 11).0
  }

  /** What a job grants to this user. */
  function GrantTo(s: Db, job: Job, user: UserId): (grant: int)
    requires job.num in s.orders
    ensures grant >= 0
  {
    if s.orders[job.num].user == user then Granted(job.Reply()) else 0
  }

  /** The sum of all grants to the user. */
  function GrantedTo(s: Db, jobs: seq<Job>, user: UserId): (total: int)
    requires forall k :: 0 <= k < |jobs| ==> jobs[k].num in s.orders
    ensures total >= 0
  {
    if jobs == [] then 0
    else GrantedTo(s, jobs[..|jobs| - 1], user) + GrantTo(s, jobs[|jobs| - 1], user)
  }

  /** The sum of the grants to the user that fit the columns when their turn comes. */
  function Paid(s: Db, jobs: seq<Job>, user: UserId): (paid: int)
    requires forall k :: 0 <= k < |jobs| ==> jobs[k].num in s.orders
  {
    if jobs == [] then 0
    else
      var before := Paid(s, jobs[..|jobs| - 1], user);
      var grant := GrantTo(s, jobs[|jobs| - 1], user);
      if Fits(grant) && Fits(Balance(s, user) + before + grant) then before + grant else before
  }

  /** Each queued order is terminal as its reply says, every other order is as it was, and
      every balance has risen by exactly the grants that fit. */
  ghost predicate AllSettled(s: Db, jobs: seq<Job>, s': Db)
    requires forall k :: 0 <= k < |jobs| ==> jobs[k].num in s.orders
  {
    && s'.orders.Keys == s.orders.Keys
    && (forall k :: 0 <= k < |jobs| ==> s'.orders[jobs[k].num] == SettledOrder(s, jobs[k]))
    && (forall num :: num in s.orders && !Queued(jobs, num) ==> s'.orders[num] == s.orders[num])
    && (forall u: UserId :: Balance(s', u) == Balance(s, u) + Paid(s, jobs, u))
  }

  function SettledOrder(s: Db, job: Job): OrderRow
    requires job.num in s.orders
  {
    OrderRow(s.orders[job.num].user, if Accepted(job.Reply()) then OrderProcessed else OrderInvalid)
  }

  /** The clean runs of all queued orders, one after the other, settle them all. */
  lemma {:induction false} RecoveredSettles(s: Db, jobs: seq<Job>)
    requires Recoverable(s, jobs)
    ensures AllSettled(s, jobs, Recovered(s, jobs))
  {
    hide TaskStep, RunTask, CleanRun, AllSettled;
    if jobs == [] {
      NothingSettled(s);
    } else {
      var n := |jobs| - 1;
      RecoveredSettles(s, jobs[..n]);
      StillAdmitted(s, jobs, Recovered(s, jobs[..n]));
      RecoveryConverges(Recovered(s, jobs[..n]), jobs[n].num, true, jobs[n].oracle, jobs[n].polls);
      OneMoreSettled(s, jobs, Recovered(s, jobs[..n]), Recovered(s, jobs));
    }
  }

  lemma NothingSettled(s: Db)
    ensures AllSettled(s, [], s)
  {
  }

  /** The runs before the last one leave the last order pending. */
  lemma StillAdmitted(s: Db, jobs: seq<Job>, s1: Db)
    requires jobs != [] && Recoverable(s, jobs) && AllSettled(s, jobs[..|jobs| - 1], s1)
    ensures var num := jobs[|jobs| - 1].num;
      num in s1.orders && s1.orders[num] == s.orders[num] && Admits(s1, num, true)
  {
    hide CleanRun;
    var before, last := jobs[..|jobs| - 1], jobs[|jobs| - 1];
    assert forall k :: 0 <= k < |before| ==> before[k] == jobs[k];
    assert !Queued(before, last.num);
  }

  lemma OneMoreSettled(s: Db, jobs: seq<Job>, s1: Db, s2: Db)
    requires jobs != [] && Recoverable(s, jobs) && AllSettled(s, jobs[..|jobs| - 1], s1)
    requires var last := jobs[|jobs| - 1];
      && s2.orders == s1.orders[last.num := SettledOrder(s, last)]
      && (forall u: UserId :: Balance(s2, u) ==
            if u == s.orders[last.num].user && !Overflows(s1, u, last.Reply())
            then Balance(s1, u) + Granted(last.Reply()) else Balance(s1, u))
    ensures AllSettled(s, jobs, s2)
  {
    hide CleanRun, Granted, Overflows, Accepted, Paid, Balance;
    var before, last := jobs[..|jobs| - 1], jobs[|jobs| - 1];
    assert before + [last] == jobs;
    QueuedOneMore(before, last);
    forall u: UserId ensures Balance(s2, u) == Balance(s, u) + Paid(s, jobs, u) {
      PaidStep(s, before, last, s1, u);
    }
  }

  lemma QueuedOneMore(before: seq<Job>, last: Job)
    ensures forall num :: Queued(before + [last], num) <==> Queued(before, num) || last.num == num
  {
    var jobs := before + [last];
    forall num ensures Queued(jobs, num) <==> Queued(before, num) || last.num == num {
      assert jobs[|before|] == last;
      forall k | 0 <= k < |before| ensures jobs[k] == before[k] {}
    }
  }

  /** The last job pays its grant exactly unless it overflows. */
  lemma PaidStep(s: Db, before: seq<Job>, last: Job, s1: Db, u: UserId)
    requires forall k :: 0 <= k < |before| ==> before[k].num in s.orders
    requires last.num in s.orders && Balance(s1, u) == Balance(s, u) + Paid(s, before, u)
    ensures Paid(s, before + [last], u) == Paid(s, before, u)
              + (if u == s.orders[last.num].user && !Overflows(s1, u, last.Reply()) then Granted(last.Reply()) else 0)
  {
    assert (before + [last])[..|before|] == before;
  }

  /** So the orders still pending are exactly those that were not queued, and none is left
      exactly when every pending order was queued. */
  lemma OnlyUnqueuedPending(s: Db, jobs: seq<Job>)
    requires Recoverable(s, jobs)
    ensures var s' := Recovered(s, jobs);
      && (forall num :: Admits(s', num, true) <==> Admits(s, num, true) && !Queued(jobs, num))
      && ((forall num :: num in s'.orders ==> Terminal(s'.orders[num].status)) <==>
          (forall num :: Admits(s, num, true) ==> Queued(jobs, num)))
  {
    hide TaskStep, RunTask, CleanRun;
    RecoveredSettles(s, jobs);
    var s' := Recovered(s, jobs);
    forall num ensures Admits(s', num, true) <==> Admits(s, num, true) && !Queued(jobs, num) {}
    forall num ensures Admits(s', num, true) <==> num in s'.orders && !Terminal(s'.orders[num].status) {}
    if forall num :: Admits(s, num, true) ==> Queued(jobs, num) {
      forall num | num in s'.orders ensures Terminal(s'.orders[num].status) {
        assert !Admits(s', num, true);
      }
    }
  }

  /** Every grant is paid exactly when the balance column can take the sum of them. */
  lemma {:induction false} PaidInFull(s: Db, jobs: seq<Job>, user: UserId)
    requires forall k :: 0 <= k < |jobs| ==> jobs[k].num in s.orders
    requires Balance(s, user) >= 0
    ensures Paid(s, jobs, user) <= GrantedTo(s, jobs, user)
    ensures Paid(s, jobs, user) == GrantedTo(s, jobs, user)
       <==> GrantedTo(s, jobs, user) == 0 || Fits(Balance(s, user) + GrantedTo(s, jobs, user))
  {
    if jobs != [] {
      PaidInFull(s, jobs[..|jobs| - 1], user);
    }
  }

  // ----- as a serialized run -----

  /** Starting a task for an order nobody works on and letting it make `n` steps. */
  lemma SerialDrive(st: State, id: nat, num: OrderNumber, oracle: Oracle, n: nat) returns (more: seq<(Action, Input)>)
    requires id !in st.actors && !Busy(st, num)
    ensures var (s', t') := RunTask(st.db, NewTask(num, true), oracle, n);
      RunSerial(st, more) == State(s', st.actors[id := TaskActor(t')])
  {
    hide TaskStep, RunTask;
    var start := [(StartTask(id, num, true), oracle(0))];
    var ready := State(st.db, st.actors[id := TaskActor(NewTask(num, true))]);
    assert RunSerial(st, start) == ready by {
      assert start[..0] == [];
    }
    var acts := Unpaired(oracle(0), Acts(id, oracle, n));
    ActsSerial(ready, id, oracle, n, oracle(0));
    ActsRunTask(ready, id, oracle, n);
    RunSerialConcat(st, start, acts);
    more := start + acts;
  }

  /** The tasks of the first `n` jobs, all of them finished. */
  ghost predicate AllFinished(st: State, n: nat) {
    && (forall id :: id in st.actors ==> id < n)
    && (forall id :: id in st.actors ==> st.actors[id].TaskActor? && st.actors[id].t.pc.Finished?)
  }

  lemma NoSerialStep(st: State)
    ensures RunSerial(st, []) == st
  {
  }

  lemma {:induction false} SerialRecovery(st: State, jobs: seq<Job>) returns (more: seq<(Action, Input)>)
    requires st.actors == map[] && Recoverable(st.db, jobs)
    ensures RunSerial(st, more).db == Recovered(st.db, jobs) && AllFinished(RunSerial(st, more), |jobs|)
  {
    hide TaskStep, RunTask, CleanRun, ApplySerial, AllSettled, RunSerial;
    if jobs == [] {
      more := [];
      assert RunSerial(st, more) == st by {
        NoSerialStep(st);
      }
    } else {
      var n := |jobs| - 1;
      var last := jobs[n];
      var most := SerialRecovery(st, jobs[..n]);
      var st1 := RunSerial(st, most);
      RecoveredSettles(st.db, jobs[..n]);
      StillAdmitted(st.db, jobs, st1.db);
      var rest := SerialDrive(st1, n, last.num, last.oracle, last.polls + 11);
      RecoveryConverges(st1.db, last.num, true, last.oracle, last.polls);
      RunSerialConcat(st, most, rest);
      more := most + rest;
    }
  }

  /** A crash and the clean runs, as an extension of a serialized run. */
  lemma CrashThenRecover(run: seq<(Action, Input)>, jobs: seq<Job>) returns (more: seq<(Action, Input)>)
    requires Recoverable(RunSerial(INIT, run).db, jobs)
    ensures |more| > 0 && more[0].0 == Crash
    ensures RunSerial(INIT, run + more).db == Recovered(RunSerial(INIT, run).db, jobs)
  {
    hide TaskStep, RunTask, Recoverable;
    var st := RunSerial(INIT, run);
    var crash := [(Crash, QUIET)];
    assert RunSerial(st, crash) == State(st.db, map[]) by {
      assert crash[..0] == [];
    }
    var rest := SerialRecovery(State(st.db, map[]), jobs);
    RunSerialConcat(st, crash, rest);
    more := crash + rest;
    RunSerialConcat(INIT, run, more);
  }

  /** The balances after any serialized run agree with the ledger and are not negative. */
  lemma SerialBalance(run: seq<(Action, Input)>, u: UserId)
    ensures var s := RunSerial(INIT, run).db; 0 <= Balance(s, u) == Sum(s.txs, NetOf(u))
  {
    SerialRunInv(run);
  }

  /** Every serialized run extends, by a crash and a clean run of each queued order, to one that
      leaves exactly the orders pending that were not queued, and none exactly when the queue
      held every pending one. Every balance has risen by the grants that fit, which are all of
      them exactly when the column can take their sum. */
  lemma CrashedRunRecoversAll(run: seq<(Action, Input)>, jobs: seq<Job>) returns (more: seq<(Action, Input)>)
    requires Recoverable(RunSerial(INIT, run).db, jobs)
    ensures var (s, s') := (RunSerial(INIT, run).db, RunSerial(INIT, run + more).db);
      && |more| > 0 && more[0].0 == Crash && s' == Recovered(s, jobs) && AllSettled(s, jobs, s')
      && (forall num :: Admits(s', num, true) <==> Admits(s, num, true) && !Queued(jobs, num))
      && ((forall num :: num in s'.orders ==> Terminal(s'.orders[num].status)) <==>
          (forall num :: Admits(s, num, true) ==> Queued(jobs, num)))
      && (forall u: UserId :: Balance(s', u) == Balance(s, u) + Paid(s, jobs, u) == Sum(s'.txs, NetOf(u)))
      && (forall u: UserId :: Paid(s, jobs, u) == GrantedTo(s, jobs, u)
                         <==> GrantedTo(s, jobs, u) == 0 || Fits(Balance(s, u) + GrantedTo(s, jobs, u)))
  {
    hide CleanRun, RunSerial, Recovered, Paid, GrantedTo, Balance, Sum;
    more := CrashThenRecover(run, jobs);
    var s := RunSerial(INIT, run).db;
    OnlyUnqueuedPending(s, jobs);
    RecoveredSettles(s, jobs);
    forall u: UserId
      ensures var s' := Recovered(s, jobs); Balance(s', u) == Balance(s, u) + Paid(s, jobs, u) == Sum(s'.txs, NetOf(u))
      ensures Paid(s, jobs, u) == GrantedTo(s, jobs, u)
         <==> GrantedTo(s, jobs, u) == 0 || Fits(Balance(s, u) + GrantedTo(s, jobs, u))
    {
      SerialBalance(run, u);
      SerialBalance(run + more, u);
      PaidInFull(s, jobs, u);
    }
  }
}

/** The invariant that the loops of FIFO, SJF and RR share, and what the parts of one turn do to it:
    reap, release, dispatch, run for a unit of time. */
module TickLoop {
  import opened Schedules
  import opened Workload
  import opened Optimality
  import opened Processes
  import opened AnyTable

  /** tr was filled tick by tick as the policy says, each time with something left to do. */
  ghost predicate Ran(pol: Policy, jobs: seq<Job>, tr: seq<int>) {
    tr == [] ||
    (Ran(pol, jobs, tr[..|tr| - 1]) && !AllDone(jobs, tr[..|tr| - 1])
     && MayRun(pol, jobs, tr[..|tr| - 1], tr[|tr| - 1]))
  }

  lemma {:induction false} RanObeys(pol: Policy, jobs: seq<Job>, tr: seq<int>)
    requires Ran(pol, jobs, tr)
    ensures Obeys(pol, jobs, tr)
    ensures forall k | 0 <= k < |tr| :: !AllDone(jobs, tr[..k])
  {
    if tr == [] {
    } else {
      var past, x := tr[..|tr| - 1], tr[|tr| - 1];
      RanObeys(pol, jobs, past);
      ObeysSnoc(pol, jobs, past, x);
      assert tr == past + [x];
      assert forall k | 0 <= k < |past| :: past[..k] == tr[..k];
    }
  }

  /** True between any two parts of a turn. */
  ghost predicate OnSchedule(pol: Policy, jobs: seq<Job>, tr: seq<int>, clock: int) {
    WellFormed(jobs) && |jobs| > 0 && pol != AnyValid && Ran(pol, jobs, tr) && clock == |tr|
  }

  lemma OnScheduleIsValid(pol: Policy, jobs: seq<Job>, tr: seq<int>, clock: int)
    requires OnSchedule(pol, jobs, tr, clock)
    ensures Obeys(pol, jobs, tr) && Obeys(WorkConserving, jobs, tr) && Obeys(AnyValid, jobs, tr)
  {
    RanObeys(pol, jobs, tr);
    PolicyIsWorkConserving(pol, jobs, tr);
  }

  /** The class a chosen process is woken into. */
  function WakeClass(pol: Policy): SchedClass {
    if pol == Sjf then RealTime(99) else Other
  }

  /** Holds whenever the loop comes round. */
  ghost predicate AtHead(pol: Policy, table: seq<Process>, jobs: seq<Job>, tr: seq<int>,
                         running: int, finish: int, clock: int, children: map<int, SchedClass>) {
    && OnSchedule(pol, jobs, tr, clock)
    && Tracks(table, jobs, tr, clock)
    && running == (if tr == [] then IDLE else tr[|tr| - 1])
    && -1 <= running < |jobs| && (running != IDLE ==> jobs[running].ready < clock)
    && finish == |Finished(jobs, tr)| - (if running != IDLE && table[running].exec == 0 then 1 else 0)
    && OneAwake(table, running, WakeClass(pol), children)
  }

  /** Holds after the reaping part, when the loop goes on. */
  ghost predicate Reaped(pol: Policy, table: seq<Process>, jobs: seq<Job>, tr: seq<int>,
                         running: int, finish: int, clock: int, children: map<int, SchedClass>) {
    && OnSchedule(pol, jobs, tr, clock) && !AllDone(jobs, tr)
    && Tracks(table, jobs, tr, clock)
    && running == Current(jobs, tr) && (running != IDLE ==> jobs[running].ready < clock)
    && finish == |Finished(jobs, tr)|
    && OneAwake(table, running, WakeClass(pol), children)
  }

  /** Holds after the releases, before the choice. */
  ghost predicate Released(pol: Policy, table: seq<Process>, jobs: seq<Job>, tr: seq<int>,
                           running: int, finish: int, clock: int, children: map<int, SchedClass>) {
    && OnSchedule(pol, jobs, tr, clock) && !AllDone(jobs, tr)
    && Tracks(table, jobs, tr, clock + 1)
    && running == Current(jobs, tr)
    && finish == |Finished(jobs, tr)|
    && OneAwake(table, running, WakeClass(pol), children)
  }

  /** Holds while the unit of time is spent: `running` is what the policy chose, and alone awake. */
  ghost predicate Chosen(pol: Policy, table: seq<Process>, jobs: seq<Job>, tr: seq<int>,
                         running: int, finish: int, clock: int, children: map<int, SchedClass>) {
    && OnSchedule(pol, jobs, tr, clock) && !AllDone(jobs, tr)
    && Tracks(table, jobs, tr, clock + 1)
    && MayRun(pol, jobs, tr, running)
    && finish == |Finished(jobs, tr)|
    && OneAwake(table, running, WakeClass(pol), children)
  }

  /** In each past tick the only child outside the idle class was the process run, and it was in cls. */
  ghost predicate AwakeLog(table: seq<Process>, tr: seq<int>, awake: seq<map<int, SchedClass>>, cls: SchedClass) {
    |awake| == |tr| && forall t | 0 <= t < |tr| ::
      if tr[t] == IDLE then awake[t] == map[]
      else 0 <= tr[t] < |table| && table[tr[t]].pid != -1 && awake[t] == map[table[tr[t]].pid := cls]
  }

  ghost function Foreground(children: map<int, SchedClass>): map<int, SchedClass> {
    map c | c in children && children[c] != Idle :: children[c]
  }

  // ---------------------------------------------------------------- on any table whatever

  /** The columns that the searches read, in a run in which anything may have happened, when the rows
      due before clock value `now` have been forked. */
  ghost predicate Columns(table: seq<Process>, jobs: seq<Job>, tr: seq<int>, now: int) {
    |table| == |jobs| && forall i | 0 <= i < |table| ::
      && table[i].ready == jobs[i].ready
      && table[i].exec == Left(jobs, tr, i)
      && (table[i].pid != -1 <==> 0 <= jobs[i].ready < now)
  }

  lemma ColumnsStart(input: seq<Process>, table: seq<Process>, perm: seq<int>)
    requires Prepared(input, table, perm)
    ensures Columns(table, JobsOf(table), [], 0)
  {}

  lemma ColumnsRelease(was: seq<Process>, table: seq<Process>, jobs: seq<Job>, tr: seq<int>,
                       before: map<int, SchedClass>, after: map<int, SchedClass>)
    requires Columns(was, jobs, tr, |tr|)
    requires ForksDue(was, table, |tr|, |was|, before, after, Idle) && OnlyPids(was, table)
    ensures Columns(table, jobs, tr, |tr| + 1)
  {
    forall i | 0 <= i < |table|
      ensures table[i].ready == jobs[i].ready && table[i].exec == Left(jobs, tr, i)
      ensures table[i].pid != -1 <==> 0 <= jobs[i].ready < |tr| + 1
    {
      assert Due(was, i, |tr|, |was|) <==> jobs[i].ready == |tr|;
    }
  }

  /** The unit of time, and the test that the next turn begins with. */
  lemma ColumnsTick(table: seq<Process>, jobs: seq<Job>, tr: seq<int>, x: int)
    requires Columns(table, jobs, tr, |tr| + 1) && (x == IDLE || 0 <= x < |table|)
    ensures Columns(Decremented(table, x), jobs, tr + [x], |tr + [x]|)
    ensures ReapsLast(jobs, tr + [x]) <==> x != IDLE && Decremented(table, x)[x].exec == 0
    ensures Holder(jobs, tr + [x]) == if ReapsLast(jobs, tr + [x]) then IDLE else x
  {
    forall i | 0 <= i < |jobs| ensures Left(jobs, tr + [x], i) == Left(jobs, tr, i) - if i == x then 1 else 0 {
      ServedSnoc(tr, x, i);
    }
  }

  // ---------------------------------------------------------------- the parts of a turn

  /** Entry i of the table has the name of input row perm[i]. */
  ghost predicate NamesMoved(input: seq<Process>, table: seq<Process>, perm: seq<int>) {
    |input| == |table| == |perm| && forall i | 0 <= i < |table| ::
      0 <= perm[i] < |input| && table[i].name == input[perm[i]].name
  }

  /** The table before the first turn: sorted, nothing forked, nothing run. */
  lemma Start(pol: Policy, input: seq<Process>, table: seq<Process>, perm: seq<int>, children: map<int, SchedClass>)
    requires pol != AnyValid && |table| > 0 && WellFormed(JobsOf(table)) && children == map[]
    requires Prepared(input, table, perm)
    ensures AtHead(pol, table, JobsOf(table), [], IDLE, 0, 0, children)
    ensures NamesMoved(input, table, perm)
  {
    var jobs := JobsOf(table);
    assert Finished(jobs, []) == {};
  }

  /** Reading the table: live means forked and not finished. */
  lemma LiveInTable(pol: Policy, table: seq<Process>, jobs: seq<Job>, tr: seq<int>, clock: int)
    requires OnSchedule(pol, jobs, tr, clock) && Tracks(table, jobs, tr, clock + 1)
    ensures forall i | 0 <= i < |table| ::
              table[i].exec >= 0 && (Live(jobs, tr, i) <==> table[i].pid != -1 && table[i].exec != 0)
  {
    OnScheduleIsValid(pol, jobs, tr, clock);
    forall i | 0 <= i < |table|
      ensures table[i].exec >= 0 && (Live(jobs, tr, i) <==> table[i].pid != -1 && table[i].exec != 0)
    {
      ValidCounters(jobs, tr, i);
    }
  }

  ghost predicate Awakable(table: seq<Process>, x: int) {
    0 <= x < |table| && table[x].pid != -1 && table[x].exec > 0
  }

  /** What the policy asks for, and what is running already, has a child and work left. */
  lemma CanRun(pol: Policy, table: seq<Process>, jobs: seq<Job>, tr: seq<int>,
               running: int, finish: int, clock: int, children: map<int, SchedClass>, next: int)
    requires Released(pol, table, jobs, tr, running, finish, clock, children) && MayRun(pol, jobs, tr, next)
    ensures next == IDLE || Awakable(table, next)
    ensures running == IDLE || Awakable(table, running)
  {
    OnScheduleTick(pol, jobs, tr, next, clock);
    LiveInTable(pol, table, jobs, tr, clock);
  }

  /** The turn goes on with the same process, or with none. */
  lemma NothingToReap(pol: Policy, table: seq<Process>, jobs: seq<Job>, tr: seq<int>,
                      running: int, finish: int, clock: int, children: map<int, SchedClass>)
    requires AtHead(pol, table, jobs, tr, running, finish, clock, children)
    requires running == IDLE || table[running].exec != 0
    ensures Reaped(pol, table, jobs, tr, running, finish, clock, children)
  {
    OnScheduleIsValid(pol, jobs, tr, clock);
    if running != IDLE {
      ValidCounters(jobs, tr, running);
      assert Left(jobs, tr, running) > 0;
    } else if tr == [] {
      assert Left(jobs, tr, 0) > 0;
    } else {
      var past := tr[..|tr| - 1];
      assert !AllDone(jobs, past);
      var i :| 0 <= i < |jobs| && Left(jobs, past, i) != 0;
      assert tr == past + [IDLE];
      ServedSnoc(past, IDLE, i);
      assert Left(jobs, tr, i) != 0;
    }
  }

  /** The process that ran last has finished and is waited for. */
  lemma ReapOne(pol: Policy, table: seq<Process>, jobs: seq<Job>, tr: seq<int>,
                running: int, finish: int, clock: int, children: map<int, SchedClass>)
    requires AtHead(pol, table, jobs, tr, running, finish, clock, children)
    requires running != IDLE && table[running].exec == 0
    ensures finish + 1 <= |jobs|
    ensures finish + 1 == |jobs| ==> Obeys(pol, jobs, tr) && FirstDone(jobs, tr)
    ensures finish + 1 == |jobs| ==> forall i | 0 <= i < |table| :: table[i].exec == 0
    ensures finish + 1 == |jobs| ==> children - {table[running].pid} == map[]
    ensures finish + 1 != |jobs| ==>
              Reaped(pol, table, jobs, tr, IDLE, finish + 1, clock, children - {table[running].pid})
  {
    RanObeys(pol, jobs, tr);
    FinishedAtMost(jobs, tr);
    ReapKeepsOneAwake(table, running, WakeClass(pol), children);
    if finish + 1 == |jobs| {
      assert forall i | 0 <= i < |table| :: table[i].exec == Left(jobs, tr, i) == 0;
      NobodyLeft(table, WakeClass(pol), children - {table[running].pid});
    }
  }

  lemma NobodyLeft(table: seq<Process>, cls: SchedClass, children: map<int, SchedClass>)
    requires OneAwake(table, IDLE, cls, children)
    requires forall i | 0 <= i < |table| :: table[i].exec == 0
    ensures children == map[]
  {
    assert forall i | 0 <= i < |table| :: !Unreaped(table[i], i, IDLE);
    assert forall c :: c !in children;
  }

  lemma ReapKeepsOneAwake(table: seq<Process>, running: int, cls: SchedClass, children: map<int, SchedClass>)
    requires OneAwake(table, running, cls, children) && 0 <= running < |table|
    requires table[running].pid != -1 && table[running].exec == 0
    ensures OneAwake(table, IDLE, cls, children - {table[running].pid})
  {
    var left := children - {table[running].pid};
    assert Unreaped(table[running], running, running);
    forall i | 0 <= i < |table| && Unreaped(table[i], i, IDLE)
      ensures table[i].pid in left && children[table[i].pid] == Idle
    {
      assert Unreaped(table[i], i, running);
    }
    forall c | c in left
      ensures exists i :: 0 <= i < |table| && Unreaped(table[i], i, IDLE) && table[i].pid == c
    {
      var i :| 0 <= i < |table| && Unreaped(table[i], i, running) && table[i].pid == c;
      assert Unreaped(table[i], i, IDLE) && table[i].pid == c;
    }
  }

  /** `next` is woken and `running`, if any, is put in the idle class. */
  lemma SwitchKeepsOneAwake(table: seq<Process>, running: int, next: int, cls: SchedClass, children: map<int, SchedClass>)
    requires OneAwake(table, running, cls, children)
    requires 0 <= next < |table| && table[next].pid != -1 && table[next].exec > 0 && next != running && cls != Idle
    requires running == IDLE || (0 <= running < |table| && table[running].pid != -1 && table[running].exec > 0)
    ensures table[next].pid in children && (running != IDLE ==> table[running].pid in children)
    ensures running == IDLE ==> OneAwake(table, next, cls, children[table[next].pid := cls])
    ensures running != IDLE ==>
              OneAwake(table, next, cls, children[table[next].pid := cls][table[running].pid := Idle])
  {
    assert Unreaped(table[next], next, running);
    if running != IDLE { assert Unreaped(table[running], running, running); }
    assert forall i | 0 <= i < |table| :: Unreaped(table[i], i, next) <==> Unreaped(table[i], i, running);
    var after := if running == IDLE then children[table[next].pid := cls]
                 else children[table[next].pid := cls][table[running].pid := Idle];
    forall c | c in after
      ensures exists i :: 0 <= i < |table| && Unreaped(table[i], i, next) && table[i].pid == c
    {
      var i :| 0 <= i < |table| && Unreaped(table[i], i, running) && table[i].pid == c;
      assert Unreaped(table[i], i, next) && table[i].pid == c;
    }
  }

  /** Who is in the foreground while the unit of time is spent, and in which class. */
  lemma ForegroundIsRunning(table: seq<Process>, running: int, cls: SchedClass, children: map<int, SchedClass>)
    requires OneAwake(table, running, cls, children) && cls != Idle
    requires running == IDLE || (0 <= running < |table| && table[running].pid != -1)
    ensures Foreground(children) == if running == IDLE then map[] else map[table[running].pid := cls]
  {
    if running != IDLE {
      assert Unreaped(table[running], running, running);
    }
    forall c | c in Foreground(children) ensures running != IDLE && c == table[running].pid {
      var i :| 0 <= i < |table| && Unreaped(table[i], i, running) && table[i].pid == c;
      assert i == running;
    }
  }

  lemma OnScheduleTick(pol: Policy, jobs: seq<Job>, tr: seq<int>, x: int, clock: int)
    requires OnSchedule(pol, jobs, tr, clock) && !AllDone(jobs, tr) && MayRun(pol, jobs, tr, x)
    ensures OnSchedule(pol, jobs, tr + [x], clock + 1)
    ensures x == IDLE || Live(jobs, tr, x)
    ensures clock < LatestReady(jobs) + TotalExec(jobs)
  {
    OnScheduleIsValid(pol, jobs, tr, clock);
    ClockBound(jobs, tr);
    assert (tr + [x])[..|tr|] == tr;
  }

  lemma TracksTick(table: seq<Process>, jobs: seq<Job>, tr: seq<int>, x: int, now: int)
    requires Tracks(table, jobs, tr, now) && (x == IDLE || 0 <= x < |table|)
    ensures Tracks(Decremented(table, x), jobs, tr + [x], now)
  {
    forall i | 0 <= i < |jobs| ensures Left(jobs, tr + [x], i) == Left(jobs, tr, i) - if i == x then 1 else 0 {
      ServedSnoc(tr, x, i);
    }
  }

  /** After the unit of time: the counter of the process that ran goes down, the clock goes up. */
  lemma UnitPassed(pol: Policy, table: seq<Process>, jobs: seq<Job>, tr: seq<int>,
                   running: int, finish: int, clock: int, children: map<int, SchedClass>)
    requires Chosen(pol, table, jobs, tr, running, finish, clock, children)
    ensures running == IDLE || Live(jobs, tr, running)
    ensures AtHead(pol, Decremented(table, running), jobs, tr + [running], running, finish, clock + 1, children)
    ensures clock < LatestReady(jobs) + TotalExec(jobs)
  {
    OnScheduleTick(pol, jobs, tr, running, clock);
    TracksTick(table, jobs, tr, running, clock + 1);
    FinishedTick(jobs, tr, running);
    if running != IDLE { UnitKeepsOneAwake(table, running, WakeClass(pol), children); }
  }

  lemma UnitKeepsOneAwake(table: seq<Process>, running: int, cls: SchedClass, children: map<int, SchedClass>)
    requires OneAwake(table, running, cls, children) && 0 <= running < |table|
    ensures OneAwake(Decremented(table, running), running, cls, children)
  {
    var after := Decremented(table, running);
    forall c | c in children
      ensures exists i :: 0 <= i < |after| && Unreaped(after[i], i, running) && after[i].pid == c
    {
      var i :| 0 <= i < |table| && Unreaped(table[i], i, running) && table[i].pid == c;
      assert Unreaped(after[i], i, running) && after[i].pid == c;
    }
  }

  /** The log of who was awake, one tick longer. */
  lemma LogTick(table: seq<Process>, tr: seq<int>, awake: seq<map<int, SchedClass>>, running: int, cls: SchedClass,
                children: map<int, SchedClass>)
    requires AwakeLog(table, tr, awake, cls) && OneAwake(table, running, cls, children) && cls != Idle
    requires running == IDLE || (0 <= running < |table| && table[running].pid != -1)
    ensures AwakeLog(Decremented(table, running), tr + [running], awake + [Foreground(children)], cls)
  {
    ForegroundIsRunning(table, running, cls, children);
  }

  /** The unit of time itself: the counter of the process that runs, if any, goes down. */
  method SpendUnit(pol: Policy, proc: array<Process>, ghost jobs: seq<Job>, ghost tr: seq<int>,
                   ghost awake: seq<map<int, SchedClass>>, running: int, ghost finish: int, ghost clock: int,
                   ghost children: map<int, SchedClass>)
    returns (ghost longer: seq<int>, ghost log: seq<map<int, SchedClass>>)
    requires AwakeLog(proc[..], tr, awake, WakeClass(pol))
    requires Chosen(pol, proc[..], jobs, tr, running, finish, clock, children)
    modifies proc
    ensures longer == tr + [running] && AwakeLog(proc[..], longer, log, WakeClass(pol))
    ensures AtHead(pol, proc[..], jobs, longer, running, finish, clock + 1, children)
    ensures clock < LatestReady(jobs) + TotalExec(jobs)
    ensures SameNames(old(proc[..]), proc[..])
  {
    longer, log := tr + [running], awake + [Foreground(children)];
    UnitPassed(pol, proc[..], jobs, tr, running, finish, clock, children);
    LogTick(proc[..], tr, awake, running, WakeClass(pol), children);
    Decrement(proc, running);
  }
}

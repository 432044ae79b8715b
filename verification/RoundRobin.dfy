/** RR.c: round robin with a fixed quantum. */
module RoundRobinScheduler {
  import opened Sums
  import opened Schedules
  import opened Workload
  import opened Accounting
  import opened Reordering
  import opened RoundRobinTheory
  import opened Processes
  import opened TickLoop
  import opened AnyTable

  /** The first index at which the scan from the start stops, -1 if it does not. */
  ghost predicate FoundFromStart(table: seq<Process>, next: int) {
    if forall j | 0 <= j < |table| :: !(table[j].pid != -1 && table[j].exec > 0) then next == -1
    else 0 <= next < |table| && table[next].pid != -1 && table[next].exec > 0
         && forall j | 0 <= j < |table| && table[j].pid != -1 && table[j].exec > 0 :: next <= j
  }

  /** The first selectable index after `from`, walking round the table. */
  ghost predicate FoundInCycle(table: seq<Process>, from: int, next: int) {
    0 <= next < |table| && Selectable(table[next])
    && forall j | 0 <= j < |table| && Selectable(table[j]) ::
         CyclicDistance(|table|, from, next) <= CyclicDistance(|table|, from, j)
  }

  /** What the choice comes to when the running process has had the CPU for `held` ticks. */
  ghost predicate Found(table: seq<Process>, running: int, held: int, next: int) {
    if running == -1 then FoundFromStart(table, next)
    else if held % 500 == 0 then FoundInCycle(table, running, next)
    else next == running
  }

  /** On good tables that is what the policy asks for. */
  lemma FoundIsPolicy(table: seq<Process>, jobs: seq<Job>, tr: seq<int>, running: int, clock: int, held: int, next: int)
    requires OnSchedule(RoundRobin, jobs, tr, clock) && Tracks(table, jobs, tr, clock + 1) && !AllDone(jobs, tr)
    requires running == Current(jobs, tr) && Found(table, running, held, next)
    requires running != IDLE ==> held == |tr| - BlockStart(tr)
    ensures MayRun(RoundRobin, jobs, tr, next)
  {
    LiveInTable(RoundRobin, table, jobs, tr, clock);
    assert forall j | 0 <= j < |table| :: Live(jobs, tr, j) <==> Selectable(table[j]);
    assert forall j | 0 <= j < |table| :: Live(jobs, tr, j) <==> table[j].pid != -1 && table[j].exec > 0;
  }

  /** On any table it is the loop's own rule. */
  lemma FoundOnAnyTable(table: seq<Process>, jobs: seq<Job>, tr: seq<int>, held: int, next: int)
    requires Columns(table, jobs, tr, |tr| + 1) && Found(table, Holder(jobs, tr), held, next)
    requires Holder(jobs, tr) != IDLE ==> held == |tr| - BlockStart(tr)
    ensures LoopMayRun(RoundRobin, jobs, tr, next)
  {
    assert forall j | 0 <= j < |table| :: NotZero(jobs, tr, j) <==> Selectable(table[j]);
    assert forall j | 0 <= j < |table| :: Positive(jobs, tr, j) <==> table[j].pid != -1 && table[j].exec > 0;
  }

  class RoundRobinLoop {
    const proc: array<Process>
    const kernel: Kernel
    var running: int
    var finishCnt: int
    var timeNow: int
    var timeLast: int   // when the running process got the CPU
    var wait: int

    ghost var jobs: seq<Job>         // the sorted input
    ghost var trace: seq<int>        // what ran in each tick so far
    ghost var awake: seq<map<int, SchedClass>>   // the children outside the idle class in each tick so far

    constructor (proc: array<Process>, kernel: Kernel)
      ensures this.proc == proc && this.kernel == kernel
    {
      this.proc, this.kernel := proc, kernel;
    }

    /** With the CPU free the lowest index; when the quantum is up the next one in cyclic order, which
        can be the same process again; otherwise the process that is running. */
    method RrNext() returns (next: int)
      requires running == -1 || (0 <= running < proc.Length && Selectable(proc[running]))
      ensures Found(proc[..], running, timeNow - timeLast, next)
    {
      if running == -1 {
        next := ScanFromStart();
      } else if (timeNow - timeLast) % QUANTUM == 0 {
        next := ScanCycle();
      } else {
        next := running;
      }
    }

    method ScanFromStart() returns (next: int)
      ensures FoundFromStart(proc[..], next)
    {
      ghost var table := proc[..];
      next := -1;
      var i := 0;
      while i < proc.Length
        invariant 0 <= i <= proc.Length && next == -1
        invariant forall j | 0 <= j < i :: !(table[j].pid != -1 && table[j].exec > 0)
      {
        assert proc[i] == table[i];
        if proc[i].pid != -1 && proc[i].exec > 0 {
          next := i;
          break;
        }
        i := i + 1;
      }
    }

    /** Walks the table cyclically from the place after `running`; at the latest it stops when it is
        back at `running`, which is itself selectable. */
    method ScanCycle() returns (next: int)
      requires 0 <= running < proc.Length && Selectable(proc[running])
      ensures FoundInCycle(proc[..], running, next)
    {
      ghost var n, table := proc.Length, proc[..];
      OneFurther(n, running, running);
      next := (running + 1) % proc.Length;
      while proc[next].pid == -1 || proc[next].exec == 0
        invariant 0 <= next < n
        invariant forall j | 0 <= j < n && CyclicDistance(n, running, j) < CyclicDistance(n, running, next) ::
          !Selectable(table[j])
        decreases n - CyclicDistance(n, running, next)
      {
        assert proc[next] == table[next] && proc[running] == table[running];
        OneFurther(n, running, next);
        next := (next + 1) % proc.Length;
      }
      assert proc[next] == table[next];
    }

    /** Waits for the running process, which has finished, and adds its turnaround to `wait`. */
    method Collect()
      requires kernel.Valid()
      requires AtHead(RoundRobin, proc[..], jobs, trace, running, finishCnt, timeNow, kernel.children)
      requires HeadLedger(jobs, trace, timeLast, wait)
      requires running != -1 && proc[running].exec == 0
      modifies this`running, this`finishCnt, this`wait, kernel
      ensures kernel.Valid() && |jobs| == proc.Length
      ensures finishCnt == |jobs| ==> Obeys(RoundRobin, jobs, trace) && FirstDone(jobs, trace)
      ensures finishCnt == |jobs| ==> timeNow == |trace| && kernel.children == map[]
      ensures finishCnt == |jobs| ==> forall i | 0 <= i < proc.Length :: proc[i].exec == 0
      ensures finishCnt != |jobs| ==>
                Reaped(RoundRobin, proc[..], jobs, trace, running, finishCnt, timeNow, kernel.children)
      ensures ReapedLedger(jobs, trace, timeLast, wait)
    {
      ghost var table := proc[..];
      ReapOne(RoundRobin, table, jobs, trace, running, finishCnt, timeNow, kernel.children);
      LedgerReapOne(jobs, trace, running, timeLast, wait);
      assert proc[running] == table[running];
      kernel.WaitPid(proc[running].pid);
      wait := wait + timeNow - proc[running].ready - proc[running].exec;
      running := -1;
      finishCnt := finishCnt + 1;
    }

    /** Waits for the running process if it has finished; says whether it was the last one. */
    method Reap() returns (exit: bool)
      requires kernel.Valid()
      requires AtHead(RoundRobin, proc[..], jobs, trace, running, finishCnt, timeNow, kernel.children)
      requires HeadLedger(jobs, trace, timeLast, wait)
      modifies this`running, this`finishCnt, this`wait, kernel
      ensures kernel.Valid()
      ensures exit ==> Obeys(RoundRobin, jobs, trace) && FirstDone(jobs, trace)
      ensures exit ==> timeNow == |trace| && finishCnt == |jobs| && kernel.children == map[]
      ensures exit ==> forall i | 0 <= i < proc.Length :: proc[i].exec == 0
      ensures !exit ==> Reaped(RoundRobin, proc[..], jobs, trace, running, finishCnt, timeNow, kernel.children)
      ensures ReapedLedger(jobs, trace, timeLast, wait)
    {
      exit := false;
      if running != -1 && proc[running].exec == 0 {
        Collect();
        exit := finishCnt == proc.Length;
      } else {
        LedgerReapNone(jobs, trace, timeLast, wait);
        NothingToReap(RoundRobin, proc[..], jobs, trace, running, finishCnt, timeNow, kernel.children);
      }
    }

    /** What the search finds is what the policy asks for, and it can run. */
    method Choose() returns (next: int)
      requires Released(RoundRobin, proc[..], jobs, trace, running, finishCnt, timeNow, kernel.children) && ReapedLedger(jobs, trace, timeLast, wait)
      ensures MayRun(RoundRobin, jobs, trace, next)
      ensures next == -1 || Awakable(proc[..], next)
      ensures running == -1 || Awakable(proc[..], running)
    {
      LiveInTable(RoundRobin, proc[..], jobs, trace, timeNow);
      assert running != -1 ==> proc[running] == proc[..][running];
      next := RrNext();
      FoundIsPolicy(proc[..], jobs, trace, running, timeNow, timeNow - timeLast, next);
      CanRun(RoundRobin, proc[..], jobs, trace, running, finishCnt, timeNow, kernel.children, next);
    }

    /** Chooses; a choice other than the running process is woken, and the running one, if any, put
        to sleep. With no process running the call that would put proc[-1] to sleep has no effect. */
    method Dispatch()
      requires kernel.Valid() && ReapedLedger(jobs, trace, timeLast, wait)
      requires Released(RoundRobin, proc[..], jobs, trace, running, finishCnt, timeNow, kernel.children)
      modifies this`running, this`timeLast, kernel
      ensures kernel.Valid() && HeadLedger(jobs, trace + [running], timeLast, wait)
      ensures Chosen(RoundRobin, proc[..], jobs, trace, running, finishCnt, timeNow, kernel.children)
    {
      var next := Choose();
      LedgerDispatch(jobs, trace, next, timeLast, if next != -1 && running != next then timeNow else timeLast, wait);
      if next != -1 {
        if running != next {
          SwitchKeepsOneAwake(proc[..], running, next, Other, kernel.children);
          var _ := kernel.SetScheduler(proc[next].pid, Other);
          if running != -1 {
            var _ := kernel.SetScheduler(proc[running].pid, Idle);
          }
          running := next;
          timeLast := timeNow;
        }
      }
    }

    /** Forks what is due. */
    method Release()
      requires kernel.Valid() && AwakeLog(proc[..], trace, awake, Other)
      requires Reaped(RoundRobin, proc[..], jobs, trace, running, finishCnt, timeNow, kernel.children)
      modifies proc, kernel
      ensures kernel.Valid() && AwakeLog(proc[..], trace, awake, Other)
      ensures Released(RoundRobin, proc[..], jobs, trace, running, finishCnt, timeNow, kernel.children)
      ensures SameNames(old(proc[..]), proc[..])
    {
      OnScheduleIsValid(RoundRobin, jobs, trace, timeNow);
      ghost var was, before := proc[..], kernel.children;
      ReleaseArrivals(proc, kernel, timeNow);
      ForksKeepTrack(was, proc[..], jobs, trace, running, Other, before, kernel.children);
    }

    /** The clock goes on, and the tick joins the trace and the log. */
    method Advance(ghost longer: seq<int>, ghost log: seq<map<int, SchedClass>>)
      requires AwakeLog(proc[..], longer, log, Other) && HeadLedger(jobs, longer, timeLast, wait)
      requires AtHead(RoundRobin, proc[..], jobs, longer, running, finishCnt, timeNow + 1, kernel.children)
      modifies this`timeNow, this`trace, this`awake
      ensures AwakeLog(proc[..], trace, awake, Other) && HeadLedger(jobs, trace, timeLast, wait)
      ensures AtHead(RoundRobin, proc[..], jobs, trace, running, finishCnt, timeNow, kernel.children)
      ensures timeNow == old(timeNow) + 1
    {
      timeNow := timeNow + 1;
      trace, awake := longer, log;
    }

    /** Lets the chosen process, if any, run for a unit of time. */
    method RunUnit()
      requires AwakeLog(proc[..], trace, awake, Other) && HeadLedger(jobs, trace + [running], timeLast, wait)
      requires Chosen(RoundRobin, proc[..], jobs, trace, running, finishCnt, timeNow, kernel.children)
      modifies this`timeNow, this`trace, this`awake, proc
      ensures AwakeLog(proc[..], trace, awake, Other) && HeadLedger(jobs, trace, timeLast, wait)
      ensures AtHead(RoundRobin, proc[..], jobs, trace, running, finishCnt, timeNow, kernel.children)
      ensures timeNow == old(timeNow) + 1 <= LatestReady(jobs) + TotalExec(jobs)
      ensures SameNames(old(proc[..]), proc[..])
    {
      ghost var longer, log := SpendUnit(RoundRobin, proc, jobs, trace, awake, running, finishCnt, timeNow, kernel.children);
      Advance(longer, log);
    }

    /** One turn of the loop; says whether it was the last. */
    method Turn() returns (exit: bool)
      requires kernel.Valid() && AwakeLog(proc[..], trace, awake, Other) && HeadLedger(jobs, trace, timeLast, wait)
      requires AtHead(RoundRobin, proc[..], jobs, trace, running, finishCnt, timeNow, kernel.children)
      modifies this`running, this`finishCnt, this`timeNow, this`timeLast, this`wait, this`trace, this`awake, proc, kernel
      ensures kernel.Valid() && AwakeLog(proc[..], trace, awake, Other)
      ensures exit ==> Obeys(RoundRobin, jobs, trace) && FirstDone(jobs, trace)
      ensures exit ==> timeNow == |trace| && finishCnt == |jobs| && kernel.children == map[]
      ensures exit ==> forall i | 0 <= i < proc.Length :: proc[i].exec == 0
      ensures exit ==> wait == Settled(jobs, trace)
      ensures !exit ==> HeadLedger(jobs, trace, timeLast, wait)
      ensures !exit ==> AtHead(RoundRobin, proc[..], jobs, trace, running, finishCnt, timeNow, kernel.children)
      ensures !exit ==> timeNow == old(timeNow) + 1 <= LatestReady(jobs) + TotalExec(jobs)
      ensures SameNames(old(proc[..]), proc[..])
    {
      exit := Reap();
      if !exit {
        Release();
        Dispatch();
        RunUnit();
      }
    }

    /** Sorts the table and clears everything else. */
    method Prepare() returns (ghost perm: seq<int>)
      requires proc.Length > 0 && WellFormed(JobsOf(proc[..]))
      requires kernel.children == map[]
      modifies this, proc
      ensures Reorders(JobsOf(old(proc[..])), jobs, perm) && SortedByReady(jobs)
      ensures NamesMoved(old(proc[..]), proc[..], perm)
      ensures AtHead(RoundRobin, proc[..], jobs, trace, running, finishCnt, timeNow, kernel.children)
      ensures AwakeLog(proc[..], trace, awake, Other) && HeadLedger(jobs, trace, timeLast, wait)
    {
      perm := PrepareTable(proc);
      jobs := JobsOf(proc[..]);
      trace, awake := [], [];
      running := -1;
      timeNow := 0;
      timeLast := 0;
      finishCnt := 0;
      wait := 0;
      Start(RoundRobin, old(proc[..]), proc[..], perm, kernel.children);
    }

    /** Turn after turn, until the last process has been reaped. */
    method Loop()
      requires kernel.Valid() && AwakeLog(proc[..], trace, awake, Other) && HeadLedger(jobs, trace, timeLast, wait)
      requires AtHead(RoundRobin, proc[..], jobs, trace, running, finishCnt, timeNow, kernel.children)
      modifies this`running, this`finishCnt, this`timeNow, this`timeLast, this`wait, this`trace, this`awake, proc, kernel
      ensures Obeys(RoundRobin, jobs, trace) && FirstDone(jobs, trace)
      ensures timeNow == |trace| && finishCnt == |jobs| && wait == Settled(jobs, trace)
      ensures forall i | 0 <= i < proc.Length :: proc[i].exec == 0
      ensures AwakeLog(proc[..], trace, awake, Other) && kernel.children == map[]
      ensures SameNames(old(proc[..]), proc[..])
    {
      ghost var sorted, bound := jobs, LatestReady(jobs) + TotalExec(jobs);
      while true
        invariant kernel.Valid() && AwakeLog(proc[..], trace, awake, Other) && HeadLedger(jobs, trace, timeLast, wait)
        invariant AtHead(RoundRobin, proc[..], jobs, trace, running, finishCnt, timeNow, kernel.children)
        invariant jobs == sorted && SameNames(old(proc[..]), proc[..])
        decreases bound - timeNow
      {
        var exit := Turn();
        if exit {
          break;
        }
      }
    }

    /** The whole run. The table is sorted first; then in every tick the policy's process runs and it
        alone is awake, until everything has finished and every child has been waited for. What `wait`
        adds up is turnaround: the counter subtracted when a process is reaped reads 0 by then. */
    method Run() returns (ghost perm: seq<int>)
      requires proc.Length > 0 && WellFormed(JobsOf(proc[..]))
      requires kernel.Valid() && kernel.children == map[]
      modifies this, proc, kernel
      ensures Reorders(JobsOf(old(proc[..])), jobs, perm) && SortedByReady(jobs)
      ensures NamesMoved(old(proc[..]), proc[..], perm)
      ensures Obeys(RoundRobin, jobs, trace) && FirstDone(jobs, trace)
      ensures timeNow == |trace| && finishCnt == |jobs|
      ensures wait == Sum(Turnarounds(jobs, trace))
      ensures forall i | 0 <= i < proc.Length :: proc[i].exec == 0
      ensures AwakeLog(proc[..], trace, awake, Other) && kernel.children == map[]
    {
      perm := Prepare();
      Loop();
      PolicyIsWorkConserving(RoundRobin, jobs, trace);
      SettledAtEnd(jobs, trace);
    }
  }
}

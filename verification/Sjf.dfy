/** SJF.c: shortest job first, not preemptive. */
module SjfScheduler {
  import opened Schedules
  import opened Workload
  import opened Reordering
  import opened Processes
  import opened TickLoop
  import opened AnyTable

  /** The running process, or the leftmost selectable one with the least counter, or -1. */
  ghost predicate Found(table: seq<Process>, running: int, next: int) {
    if running != -1 then next == running
    else if forall j | 0 <= j < |table| :: !Selectable(table[j]) then next == -1
    else 0 <= next < |table| && Selectable(table[next])
         && forall j | 0 <= j < |table| && Selectable(table[j]) ::
              Precedes(table[next].exec, next, table[j].exec, j)
  }

  /** On good tables that is what the policy asks for. */
  lemma FoundIsPolicy(table: seq<Process>, jobs: seq<Job>, tr: seq<int>, running: int, clock: int, next: int)
    requires OnSchedule(Sjf, jobs, tr, clock) && Tracks(table, jobs, tr, clock + 1)
    requires running == Current(jobs, tr) && Found(table, running, next)
    ensures MayRun(Sjf, jobs, tr, next)
  {
    LiveInTable(Sjf, table, jobs, tr, clock);
    assert forall j | 0 <= j < |table| :: Live(jobs, tr, j) <==> Selectable(table[j]);
  }

  /** On any table it is the loop's own rule. */
  lemma FoundOnAnyTable(table: seq<Process>, jobs: seq<Job>, tr: seq<int>, next: int)
    requires Columns(table, jobs, tr, |tr| + 1) && Found(table, Holder(jobs, tr), next)
    ensures LoopMayRun(Sjf, jobs, tr, next)
  {
    assert forall j | 0 <= j < |table| :: NotZero(jobs, tr, j) <==> Selectable(table[j]);
  }

  class SjfLoop {
    const proc: array<Process>
    const kernel: Kernel
    var running: int
    var finishCnt: int
    var ntime: int

    ghost var jobs: seq<Job>         // the sorted input
    ghost var trace: seq<int>        // what ran in each tick so far
    ghost var awake: seq<map<int, SchedClass>>   // the children outside the idle class in each tick so far

    constructor (proc: array<Process>, kernel: Kernel)
      ensures this.proc == proc && this.kernel == kernel
    {
      this.proc, this.kernel := proc, kernel;
    }

    /** The process that goes on, or else the leftmost of the waiting ones with the least to do; on any
        table. */
    method SelectNext() returns (next: int)
      ensures Found(proc[..], running, next)
    {
      ghost var table := proc[..];
      if running != -1 {
        next := running;
      } else {
        var ret := -1;
        var i := 0;
        while i < proc.Length
          invariant 0 <= i <= proc.Length
          invariant ret == -1 || (0 <= ret < i && Selectable(table[ret]))
          invariant forall j | 0 <= j < i && Selectable(table[j]) ::
            ret != -1 && Precedes(table[ret].exec, ret, table[j].exec, j)
        {
          assert proc[i] == table[i];
          if !(proc[i].pid == -1 || proc[i].exec == 0) {
            if ret == -1 || proc[i].exec < proc[ret].exec {
              ret := i;
            }
          }
          i := i + 1;
        }
        next := ret;
      }
    }

    /** Waits for the running process if it has finished; says whether it was the last one. */
    method Reap() returns (exit: bool)
      requires kernel.Valid()
      requires AtHead(Sjf, proc[..], jobs, trace, running, finishCnt, ntime, kernel.children)
      modifies this`running, this`finishCnt, kernel
      ensures kernel.Valid()
      ensures exit ==> Obeys(Sjf, jobs, trace) && FirstDone(jobs, trace)
      ensures exit ==> ntime == |trace| && finishCnt == |jobs| && kernel.children == map[]
      ensures exit ==> forall i | 0 <= i < proc.Length :: proc[i].exec == 0
      ensures !exit ==> Reaped(Sjf, proc[..], jobs, trace, running, finishCnt, ntime, kernel.children)
    {
      exit := false;
      if running != -1 && proc[running].exec == 0 {
        ReapOne(Sjf, proc[..], jobs, trace, running, finishCnt, ntime, kernel.children);
        kernel.WaitPid(proc[running].pid);
        running := -1;
        finishCnt := finishCnt + 1;
        if finishCnt == proc.Length {
          exit := true;
        }
      } else {
        NothingToReap(Sjf, proc[..], jobs, trace, running, finishCnt, ntime, kernel.children);
      }
    }

    /** What the search finds is what the policy asks for, and it can run. */
    method Choose() returns (next: int)
      requires Released(Sjf, proc[..], jobs, trace, running, finishCnt, ntime, kernel.children)
      ensures MayRun(Sjf, jobs, trace, next)
      ensures next == -1 || Awakable(proc[..], next)
      ensures running == -1 || Awakable(proc[..], running)
    {
      LiveInTable(Sjf, proc[..], jobs, trace, ntime);
      next := SelectNext();
      FoundIsPolicy(proc[..], jobs, trace, running, ntime, next);
      CanRun(Sjf, proc[..], jobs, trace, running, finishCnt, ntime, kernel.children, next);
    }

    /** Chooses, and puts the choice in a real-time class if it is not running already. Nobody is put
        to sleep: a switch happens only when nothing is running. */
    method Dispatch()
      requires kernel.Valid()
      requires Released(Sjf, proc[..], jobs, trace, running, finishCnt, ntime, kernel.children)
      modifies this`running, kernel
      ensures kernel.Valid()
      ensures Chosen(Sjf, proc[..], jobs, trace, running, finishCnt, ntime, kernel.children)
    {
      var next := Choose();
      if next != -1 {
        if running != next {
          SwitchKeepsOneAwake(proc[..], running, next, RealTime(99), kernel.children);
          var _ := kernel.SetScheduler(proc[next].pid, RealTime(99));
          running := next;
        }
      }
    }

    /** Forks what is due. */
    method Release()
      requires kernel.Valid() && AwakeLog(proc[..], trace, awake, RealTime(99))
      requires Reaped(Sjf, proc[..], jobs, trace, running, finishCnt, ntime, kernel.children)
      modifies proc, kernel
      ensures kernel.Valid() && AwakeLog(proc[..], trace, awake, RealTime(99))
      ensures Released(Sjf, proc[..], jobs, trace, running, finishCnt, ntime, kernel.children)
      ensures SameNames(old(proc[..]), proc[..])
    {
      OnScheduleIsValid(Sjf, jobs, trace, ntime);
      ghost var was, before := proc[..], kernel.children;
      ReleaseArrivals(proc, kernel, ntime);
      ForksKeepTrack(was, proc[..], jobs, trace, running, RealTime(99), before, kernel.children);
    }

    /** The clock goes on, and the tick joins the trace and the log. */
    method Advance(ghost longer: seq<int>, ghost log: seq<map<int, SchedClass>>)
      requires AwakeLog(proc[..], longer, log, RealTime(99))
      requires AtHead(Sjf, proc[..], jobs, longer, running, finishCnt, ntime + 1, kernel.children)
      modifies this`ntime, this`trace, this`awake
      ensures AwakeLog(proc[..], trace, awake, RealTime(99))
      ensures AtHead(Sjf, proc[..], jobs, trace, running, finishCnt, ntime, kernel.children)
      ensures ntime == old(ntime) + 1
    {
      ntime := ntime + 1;
      trace, awake := longer, log;
    }

    /** Lets the chosen process, if any, run for a unit of time. */
    method RunUnit()
      requires AwakeLog(proc[..], trace, awake, RealTime(99))
      requires Chosen(Sjf, proc[..], jobs, trace, running, finishCnt, ntime, kernel.children)
      modifies this`ntime, this`trace, this`awake, proc
      ensures AwakeLog(proc[..], trace, awake, RealTime(99))
      ensures AtHead(Sjf, proc[..], jobs, trace, running, finishCnt, ntime, kernel.children)
      ensures ntime == old(ntime) + 1 <= LatestReady(jobs) + TotalExec(jobs)
      ensures SameNames(old(proc[..]), proc[..])
    {
      ghost var longer, log := SpendUnit(Sjf, proc, jobs, trace, awake, running, finishCnt, ntime, kernel.children);
      Advance(longer, log);
    }

    /** One turn of the loop; says whether it was the last. */
    method Turn() returns (exit: bool)
      requires kernel.Valid() && AwakeLog(proc[..], trace, awake, RealTime(99))
      requires AtHead(Sjf, proc[..], jobs, trace, running, finishCnt, ntime, kernel.children)
      modifies this`running, this`finishCnt, this`ntime, this`trace, this`awake, proc, kernel
      ensures kernel.Valid() && AwakeLog(proc[..], trace, awake, RealTime(99))
      ensures exit ==> Obeys(Sjf, jobs, trace) && FirstDone(jobs, trace)
      ensures exit ==> ntime == |trace| && finishCnt == |jobs| && kernel.children == map[]
      ensures exit ==> forall i | 0 <= i < proc.Length :: proc[i].exec == 0
      ensures !exit ==> AtHead(Sjf, proc[..], jobs, trace, running, finishCnt, ntime, kernel.children)
      ensures !exit ==> ntime == old(ntime) + 1 <= LatestReady(jobs) + TotalExec(jobs)
      ensures SameNames(old(proc[..]), proc[..])
    {
      exit := Reap();
      if !exit {
        Release();
        Dispatch();
        RunUnit();
      }
    }

    /** Sorts the table and clears everything else. */
    method Prepare() returns (ghost perm: seq<int>)
      requires proc.Length > 0 && WellFormed(JobsOf(proc[..]))
      requires kernel.children == map[]
      modifies this, proc
      ensures Reorders(JobsOf(old(proc[..])), jobs, perm) && SortedByReady(jobs)
      ensures NamesMoved(old(proc[..]), proc[..], perm)
      ensures AtHead(Sjf, proc[..], jobs, trace, running, finishCnt, ntime, kernel.children)
      ensures AwakeLog(proc[..], trace, awake, RealTime(99))
    {
      perm := PrepareTable(proc);
      jobs := JobsOf(proc[..]);
      trace, awake := [], [];
      running := -1;
      ntime := 0;
      finishCnt := 0;
      Start(Sjf, old(proc[..]), proc[..], perm, kernel.children);
    }

    /** Turn after turn, until the last process has been reaped. */
    method Loop()
      requires kernel.Valid() && AwakeLog(proc[..], trace, awake, RealTime(99))
      requires AtHead(Sjf, proc[..], jobs, trace, running, finishCnt, ntime, kernel.children)
      modifies this`running, this`finishCnt, this`ntime, this`trace, this`awake, proc, kernel
      ensures Obeys(Sjf, jobs, trace) && FirstDone(jobs, trace)
      ensures ntime == |trace| && finishCnt == |jobs|
      ensures forall i | 0 <= i < proc.Length :: proc[i].exec == 0
      ensures AwakeLog(proc[..], trace, awake, RealTime(99)) && kernel.children == map[]
      ensures SameNames(old(proc[..]), proc[..])
    {
      ghost var sorted, bound := jobs, LatestReady(jobs) + TotalExec(jobs);
      while true
        invariant kernel.Valid() && AwakeLog(proc[..], trace, awake, RealTime(99))
        invariant AtHead(Sjf, proc[..], jobs, trace, running, finishCnt, ntime, kernel.children)
        invariant jobs == sorted && SameNames(old(proc[..]), proc[..])
        decreases bound - ntime
      {
        var exit := Turn();
        if exit {
          break;
        }
      }
    }

    /** The whole run. The table is sorted first; then in every tick the policy's process runs and it
        alone is awake, until everything has finished and every child has been waited for. */
    method Run() returns (ghost perm: seq<int>)
      requires proc.Length > 0 && WellFormed(JobsOf(proc[..]))
      requires kernel.Valid() && kernel.children == map[]
      modifies this, proc, kernel
      ensures Reorders(JobsOf(old(proc[..])), jobs, perm) && SortedByReady(jobs)
      ensures NamesMoved(old(proc[..]), proc[..], perm)
      ensures Obeys(Sjf, jobs, trace) && FirstDone(jobs, trace)
      ensures ntime == |trace| && finishCnt == |jobs|
      ensures forall i | 0 <= i < proc.Length :: proc[i].exec == 0
      ensures AwakeLog(proc[..], trace, awake, RealTime(99)) && kernel.children == map[]
    {
      perm := Prepare();
      Loop();
    }
  }
}

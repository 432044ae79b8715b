/** FIFO.c: first come first served. */
module FifoScheduler {
  import opened Schedules
  import opened Workload
  import opened Reordering
  import opened Processes
  import opened TickLoop
  import opened AnyTable

  /** The running process, or the selectable one released earliest, or -1. */
  ghost predicate Found(table: seq<Process>, running: int, next: int) {
    if running != -1 then next == running
    else if forall j | 0 <= j < |table| :: !Selectable(table[j]) then next == -1
    else 0 <= next < |table| && Selectable(table[next])
         && forall j | 0 <= j < |table| && Selectable(table[j]) ::
              Precedes(table[next].ready, next, table[j].ready, j)
  }

  /** On good tables that is what the policy asks for. */
  lemma FoundIsPolicy(table: seq<Process>, jobs: seq<Job>, tr: seq<int>, running: int, clock: int, next: int)
    requires OnSchedule(Fifo, jobs, tr, clock) && Tracks(table, jobs, tr, clock + 1)
    requires running == Current(jobs, tr) && Found(table, running, next)
    ensures MayRun(Fifo, jobs, tr, next)
  {
    LiveInTable(Fifo, table, jobs, tr, clock);
    assert forall j | 0 <= j < |table| :: Live(jobs, tr, j) <==> Selectable(table[j]);
  }

  /** On any table it is the loop's own rule. */
  lemma FoundOnAnyTable(table: seq<Process>, jobs: seq<Job>, tr: seq<int>, next: int)
    requires Columns(table, jobs, tr, |tr| + 1) && Found(table, Holder(jobs, tr), next)
    ensures LoopMayRun(Fifo, jobs, tr, next)
  {
    assert forall j | 0 <= j < |table| :: NotZero(jobs, tr, j) <==> Selectable(table[j]);
  }

  class FifoLoop {
    const proc: array<Process>
    const kernel: Kernel
    var running: int
    var finish: int
    var timeCnt: int

    ghost var jobs: seq<Job>         // the sorted input
    ghost var trace: seq<int>        // what ran in each tick so far
    ghost var awake: seq<map<int, SchedClass>>   // the children outside the idle class in each tick so far

    constructor (proc: array<Process>, kernel: Kernel)
      ensures this.proc == proc && this.kernel == kernel
    {
      this.proc, this.kernel := proc, kernel;
    }

    /** The process that goes on, or else the earliest released one that is waiting; on any table. */
    method NextProc() returns (next: int)
      ensures Found(proc[..], running, next)
    {
      if running != -1 {
        return running;
      }
      ghost var table := proc[..];
      next := -1;
      var i := 0;
      while i < proc.Length
        invariant 0 <= i <= proc.Length
        invariant next == -1 || (0 <= next < i && Selectable(table[next]))
        invariant forall j | 0 <= j < i && Selectable(table[j]) ::
          next != -1 && Precedes(table[next].ready, next, table[j].ready, j)
      {
        assert proc[i] == table[i];
        if !(proc[i].pid == -1 || proc[i].exec == 0) {
          if next == -1 || proc[i].ready < proc[next].ready {
            next := i;
          }
        }
        i := i + 1;
      }
    }

    /** Waits for the running process if it has finished; says whether it was the last one. */
    method Reap() returns (exit: bool)
      requires kernel.Valid()
      requires AtHead(Fifo, proc[..], jobs, trace, running, finish, timeCnt, kernel.children)
      modifies this`running, this`finish, kernel
      ensures kernel.Valid()
      ensures exit ==> Obeys(Fifo, jobs, trace) && FirstDone(jobs, trace)
      ensures exit ==> timeCnt == |trace| && finish == |jobs| && kernel.children == map[]
      ensures exit ==> forall i | 0 <= i < proc.Length :: proc[i].exec == 0
      ensures !exit ==> Reaped(Fifo, proc[..], jobs, trace, running, finish, timeCnt, kernel.children)
    {
      exit := false;
      if running != -1 && proc[running].exec == 0 {
        ReapOne(Fifo, proc[..], jobs, trace, running, finish, timeCnt, kernel.children);
        kernel.WaitPid(proc[running].pid);
        running := -1;
        finish := finish + 1;
        if finish == proc.Length {
          exit := true;
        }
      } else {
        NothingToReap(Fifo, proc[..], jobs, trace, running, finish, timeCnt, kernel.children);
      }
    }

    /** What the search finds is what the policy asks for, and it can run. */
    method Choose() returns (next: int)
      requires Released(Fifo, proc[..], jobs, trace, running, finish, timeCnt, kernel.children)
      ensures MayRun(Fifo, jobs, trace, next)
      ensures next == -1 || Awakable(proc[..], next)
      ensures running == -1 || Awakable(proc[..], running)
    {
      LiveInTable(Fifo, proc[..], jobs, trace, timeCnt);
      next := NextProc();
      FoundIsPolicy(proc[..], jobs, trace, running, timeCnt, next);
      CanRun(Fifo, proc[..], jobs, trace, running, finish, timeCnt, kernel.children, next);
    }

    /** Chooses, and wakes the choice if it is not running already. A switch happens only when
        nothing is running, so the call that would put proc[-1] to sleep has no effect. */
    method Dispatch()
      requires kernel.Valid()
      requires Released(Fifo, proc[..], jobs, trace, running, finish, timeCnt, kernel.children)
      modifies this`running, kernel
      ensures kernel.Valid()
      ensures Chosen(Fifo, proc[..], jobs, trace, running, finish, timeCnt, kernel.children)
    {
      var next := Choose();
      if next != -1 {
        if running != next {
          SwitchKeepsOneAwake(proc[..], running, next, Other, kernel.children);
          var _ := kernel.SetScheduler(proc[next].pid, Other);
          running := next;
        }
      }
    }

    /** Forks what is due. */
    method Release()
      requires kernel.Valid() && AwakeLog(proc[..], trace, awake, Other)
      requires Reaped(Fifo, proc[..], jobs, trace, running, finish, timeCnt, kernel.children)
      modifies proc, kernel
      ensures kernel.Valid() && AwakeLog(proc[..], trace, awake, Other)
      ensures Released(Fifo, proc[..], jobs, trace, running, finish, timeCnt, kernel.children)
      ensures SameNames(old(proc[..]), proc[..])
    {
      OnScheduleIsValid(Fifo, jobs, trace, timeCnt);
      ghost var was, before := proc[..], kernel.children;
      ReleaseArrivals(proc, kernel, timeCnt);
      ForksKeepTrack(was, proc[..], jobs, trace, running, Other, before, kernel.children);
    }

    /** The clock goes on, and the tick joins the trace and the log. */
    method Advance(ghost longer: seq<int>, ghost log: seq<map<int, SchedClass>>)
      requires AwakeLog(proc[..], longer, log, Other)
      requires AtHead(Fifo, proc[..], jobs, longer, running, finish, timeCnt + 1, kernel.children)
      modifies this`timeCnt, this`trace, this`awake
      ensures AwakeLog(proc[..], trace, awake, Other)
      ensures AtHead(Fifo, proc[..], jobs, trace, running, finish, timeCnt, kernel.children)
      ensures timeCnt == old(timeCnt) + 1
    {
      timeCnt := timeCnt + 1;
      trace, awake := longer, log;
    }

    /** Lets the chosen process, if any, run for a unit of time. */
    method RunUnit()
      requires AwakeLog(proc[..], trace, awake, Other)
      requires Chosen(Fifo, proc[..], jobs, trace, running, finish, timeCnt, kernel.children)
      modifies this`timeCnt, this`trace, this`awake, proc
      ensures AwakeLog(proc[..], trace, awake, Other)
      ensures AtHead(Fifo, proc[..], jobs, trace, running, finish, timeCnt, kernel.children)
      ensures timeCnt == old(timeCnt) + 1 <= LatestReady(jobs) + TotalExec(jobs)
      ensures SameNames(old(proc[..]), proc[..])
    {
      ghost var longer, log := SpendUnit(Fifo, proc, jobs, trace, awake, running, finish, timeCnt, kernel.children);
      Advance(longer, log);
    }

    /** One turn of the loop; says whether it was the last. */
    method Turn() returns (exit: bool)
      requires kernel.Valid() && AwakeLog(proc[..], trace, awake, Other)
      requires AtHead(Fifo, proc[..], jobs, trace, running, finish, timeCnt, kernel.children)
      modifies this`running, this`finish, this`timeCnt, this`trace, this`awake, proc, kernel
      ensures kernel.Valid() && AwakeLog(proc[..], trace, awake, Other)
      ensures exit ==> Obeys(Fifo, jobs, trace) && FirstDone(jobs, trace)
      ensures exit ==> timeCnt == |trace| && finish == |jobs| && kernel.children == map[]
      ensures exit ==> forall i | 0 <= i < proc.Length :: proc[i].exec == 0
      ensures !exit ==> AtHead(Fifo, proc[..], jobs, trace, running, finish, timeCnt, kernel.children)
      ensures !exit ==> timeCnt == old(timeCnt) + 1 <= LatestReady(jobs) + TotalExec(jobs)
      ensures SameNames(old(proc[..]), proc[..])
    {
      exit := Reap();
      if !exit {
        Release();
        Dispatch();
        RunUnit();
      }
    }

    /** Sorts the table and clears everything else. */
    method Prepare() returns (ghost perm: seq<int>)
      requires proc.Length > 0 && WellFormed(JobsOf(proc[..]))
      requires kernel.children == map[]
      modifies this, proc
      ensures Reorders(JobsOf(old(proc[..])), jobs, perm) && SortedByReady(jobs)
      ensures NamesMoved(old(proc[..]), proc[..], perm)
      ensures AtHead(Fifo, proc[..], jobs, trace, running, finish, timeCnt, kernel.children)
      ensures AwakeLog(proc[..], trace, awake, Other)
    {
      perm := PrepareTable(proc);
      jobs := JobsOf(proc[..]);
      trace, awake := [], [];
      running := -1;
      timeCnt := 0;
      finish := 0;
      Start(Fifo, old(proc[..]), proc[..], perm, kernel.children);
    }

    /** Turn after turn, until the last process has been reaped. */
    method Loop()
      requires kernel.Valid() && AwakeLog(proc[..], trace, awake, Other)
      requires AtHead(Fifo, proc[..], jobs, trace, running, finish, timeCnt, kernel.children)
      modifies this`running, this`finish, this`timeCnt, this`trace, this`awake, proc, kernel
      ensures Obeys(Fifo, jobs, trace) && FirstDone(jobs, trace)
      ensures timeCnt == |trace| && finish == |jobs|
      ensures forall i | 0 <= i < proc.Length :: proc[i].exec == 0
      ensures AwakeLog(proc[..], trace, awake, Other) && kernel.children == map[]
      ensures SameNames(old(proc[..]), proc[..])
    {
      ghost var sorted, bound := jobs, LatestReady(jobs) + TotalExec(jobs);
      while true
        invariant kernel.Valid() && AwakeLog(proc[..], trace, awake, Other)
        invariant AtHead(Fifo, proc[..], jobs, trace, running, finish, timeCnt, kernel.children)
        invariant jobs == sorted && SameNames(old(proc[..]), proc[..])
        decreases bound - timeCnt
      {
        var exit := Turn();
        if exit {
          break;
        }
      }
    }

    /** The whole run. The table is sorted first; then in every tick the policy's process runs and it
        alone is awake, until everything has finished and every child has been waited for. */
    method Run() returns (ghost perm: seq<int>)
      requires proc.Length > 0 && WellFormed(JobsOf(proc[..]))
      requires kernel.Valid() && kernel.children == map[]
      modifies this, proc, kernel
      ensures Reorders(JobsOf(old(proc[..])), jobs, perm) && SortedByReady(jobs)
      ensures NamesMoved(old(proc[..]), proc[..], perm)
      ensures Obeys(Fifo, jobs, trace) && FirstDone(jobs, trace)
      ensures timeCnt == |trace| && finish == |jobs|
      ensures forall i | 0 <= i < proc.Length :: proc[i].exec == 0
      ensures AwakeLog(proc[..], trace, awake, Other) && kernel.children == map[]
    {
      perm := Prepare();
      Loop();
    }
  }
}

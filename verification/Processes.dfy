/** The process table and the part of the operating system that the schedulers call. */
module Processes {
  import opened Schedules
  import opened Reordering

  /** A row of the process table; pid is -1 until the process is forked. */
  datatype Process = Process(name: string, ready: int, exec: int, waiting: int, pid: int)

  function JobsOf(table: seq<Process>): (jobs: seq<Job>)
    ensures |jobs| == |table|
  {
    seq(|table|, i requires 0 <= i < |table| => Job(table[i].ready, table[i].exec))
  }

  /** The names are a column that no scheduler writes. */
  ghost predicate SameNames(was: seq<Process>, table: seq<Process>) {
    |was| == |table| && forall i | 0 <= i < |was| :: table[i].name == was[i].name
  }

  /** The scheduling class of a child: SCHED_IDLE, SCHED_OTHER, or SCHED_FIFO with a priority. A child
      starts in its parent's class, Other. */
  datatype SchedClass = Idle | Other | RealTime(priority: int)

  /** fork, sched_setscheduler and waitpid, as far as the schedulers can tell: which children have
      not been waited for, and the class of each. */
  class Kernel {
    var children: map<int, SchedClass>
    var lastPid: nat

    ghost predicate Valid()
      reads this
    {
      forall c | c in children :: 0 < c <= lastPid
    }

    constructor ()
      ensures Valid() && children == map[]
    {
      children, lastPid := map[], 0;
    }

    /** A child with a pid that no other child holds. */
    method Fork() returns (pid: int)
      requires Valid()
      modifies this
      ensures Valid()
      ensures pid > 0 && pid !in old(children)
      ensures children == old(children)[pid := Other]
    {
      lastPid := lastPid + 1;
      pid := lastPid;
      children := children[pid := Other];
    }

    /** Fails, changing nothing, if there is no such child. */
    method SetScheduler(pid: int, cls: SchedClass) returns (ok: bool)
      requires Valid()
      modifies this
      ensures Valid()
      ensures ok == (pid in old(children))
      ensures children == if ok then old(children)[pid := cls] else old(children)
    {
      ok := pid in children;
      if ok {
        children := children[pid := cls];
      }
    }

    method WaitPid(pid: int)
      requires Valid()
      modifies this
      ensures Valid() && children == old(children) - {pid}
    {
      children := children - {pid};
    }
  }

  // ---------------------------------------------------------------- the table against the schedule

  /** The counters in the table are those of the schedule, and exactly the processes released before
      clock value `now` have a pid. */
  ghost predicate Tracks(table: seq<Process>, jobs: seq<Job>, tr: seq<int>, now: int) {
    |table| == |jobs| && forall i | 0 <= i < |table| ::
      && table[i].ready == jobs[i].ready
      && table[i].exec == Left(jobs, tr, i)
      && (table[i].pid != -1 <==> jobs[i].ready < now)
  }

  /** What the searches for the next process look at: forked, and the counter is not 0. */
  predicate Selectable(p: Process) {
    p.pid != -1 && p.exec != 0
  }

  /** Forked, and not yet waited for: it still has work, or it is the one at `running`. */
  predicate Unreaped(p: Process, i: int, running: int) {
    p.pid != -1 && (p.exec > 0 || i == running)
  }

  /** The children are exactly the unreaped processes, each under its own pid; the one at `running`
      is in class cls, every other one in the idle class. */
  ghost predicate OneAwake(table: seq<Process>, running: int, cls: SchedClass, children: map<int, SchedClass>) {
    && (forall i | 0 <= i < |table| && Unreaped(table[i], i, running) ::
          table[i].pid in children && children[table[i].pid] == if i == running then cls else Idle)
    && (forall i, j | 0 <= i < j < |table| && Unreaped(table[i], i, running) && Unreaped(table[j], j, running) ::
          table[i].pid != table[j].pid)
    && (forall c | c in children ::
          exists i :: 0 <= i < |table| && Unreaped(table[i], i, running) && table[i].pid == c)
  }

  // ---------------------------------------------------------------- sorting

  ghost predicate Shuffled(was: seq<Process>, table: seq<Process>, perm: seq<int>) {
    IsPermutation(perm, |was|) && |table| == |was|
    && forall k | 0 <= k < |was| :: table[k] == was[perm[k]]
  }

  ghost predicate SortedUpTo(table: seq<Process>, m: int, except: int) {
    forall i, j | 0 <= i < j < m && j < |table| && j != except :: table[i].ready <= table[j].ready
  }

  lemma SwapShuffles(was: seq<Process>, table: seq<Process>, perm: seq<int>, k: int)
    requires Shuffled(was, table, perm) && 0 < k < |table|
    ensures Shuffled(was, table[k - 1 := table[k]][k := table[k - 1]], perm[k - 1 := perm[k]][k := perm[k - 1]])
  {}

  lemma SwapSorts(table: seq<Process>, m: int, k: int)
    requires 0 < k <= m < |table| && SortedUpTo(table, m + 1, k)
    requires table[k - 1].ready > table[k].ready
    ensures SortedUpTo(table[k - 1 := table[k]][k := table[k - 1]], m + 1, k - 1)
  {}

  /** Moves entry m left to its place among the sorted entries before it. */
  method Insert(proc: array<Process>, m: int, ghost was: seq<Process>, ghost perm: seq<int>) returns (ghost perm': seq<int>)
    requires 0 <= m < proc.Length
    requires Shuffled(was, proc[..], perm) && SortedUpTo(proc[..], m, -1)
    modifies proc
    ensures Shuffled(was, proc[..], perm') && SortedUpTo(proc[..], m + 1, -1)
  {
    perm' := perm;
    var k := m;
    while k > 0 && proc[k - 1].ready > proc[k].ready
      invariant 0 <= k <= m
      invariant Shuffled(was, proc[..], perm')
      invariant SortedUpTo(proc[..], m + 1, k)
      invariant forall j | k < j <= m :: proc[k].ready <= proc[j].ready
    {
      ghost var table := proc[..];
      SwapShuffles(was, table, perm', k);
      SwapSorts(table, m, k);
      proc[k - 1], proc[k] := proc[k], proc[k - 1];
      perm' := perm'[k - 1 := perm'[k]][k := perm'[k - 1]];
      assert proc[..] == table[k - 1 := table[k]][k := table[k - 1]];
      k := k - 1;
    }
  }

  /** Stands in for qsort with the comparators on `ready`: any permutation that ends up sorted. */
  method SortByReady(proc: array<Process>) returns (ghost perm: seq<int>)
    modifies proc
    ensures Shuffled(old(proc[..]), proc[..], perm)
    ensures forall i, j | 0 <= i < j < proc.Length :: proc[i].ready <= proc[j].ready
  {
    perm := seq(proc.Length, i => i);
    var m := 0;
    while m < proc.Length
      invariant 0 <= m <= proc.Length
      invariant Shuffled(old(proc[..]), proc[..], perm) && SortedUpTo(proc[..], m, -1)
    {
      perm := Insert(proc, m, old(proc[..]), perm);
      m := m + 1;
    }
  }

  lemma ShuffledReorders(was: seq<Process>, table: seq<Process>, perm: seq<int>)
    requires Shuffled(was, table, perm)
    ensures Reorders(JobsOf(was), JobsOf(table), perm)
    ensures WellFormed(JobsOf(was)) ==> WellFormed(JobsOf(table))
  {}

  ghost predicate Unforked(was: seq<Process>, table: seq<Process>) {
    |was| == |table| && forall i | 0 <= i < |was| :: table[i] == was[i].(pid := -1)
  }

  /** Nobody is forked yet. */
  method ClearPids(proc: array<Process>)
    modifies proc
    ensures Unforked(old(proc[..]), proc[..])
  {
    var i := 0;
    while i < proc.Length
      invariant 0 <= i <= proc.Length
      invariant forall k | 0 <= k < proc.Length :: proc[k] == if k < i then old(proc[k]).(pid := -1) else old(proc[k])
    {
      proc[i] := proc[i].(pid := -1);
      i := i + 1;
    }
  }

  /** `table` is `was` sorted by release time, with every row, name included, moved as perm says, and
      nobody forked yet. */
  ghost predicate Prepared(was: seq<Process>, table: seq<Process>, perm: seq<int>) {
    && Reorders(JobsOf(was), JobsOf(table), perm) && SortedByReady(JobsOf(table))
    && forall i | 0 <= i < |table| :: table[i] == was[perm[i]].(pid := -1)
  }

  lemma SortedIsPrepared(was: seq<Process>, sorted: seq<Process>, table: seq<Process>, perm: seq<int>)
    requires Shuffled(was, sorted, perm) && Unforked(sorted, table)
    requires forall i, j | 0 <= i < j < |sorted| :: sorted[i].ready <= sorted[j].ready
    ensures Prepared(was, table, perm)
    ensures WellFormed(JobsOf(was)) ==> WellFormed(JobsOf(table))
  {
    ShuffledReorders(was, sorted, perm);
    assert JobsOf(sorted) == JobsOf(table);
  }

  /** What FIFO, SJF and RR do first: sort the table and mark every row as not forked. */
  method PrepareTable(proc: array<Process>) returns (ghost perm: seq<int>)
    modifies proc
    ensures Prepared(old(proc[..]), proc[..], perm)
    ensures WellFormed(JobsOf(old(proc[..]))) ==> WellFormed(JobsOf(proc[..]))
  {
    perm := SortByReady(proc);
    ghost var sorted := proc[..];
    ClearPids(proc);
    SortedIsPrepared(old(proc[..]), sorted, proc[..], perm);
  }

  // ---------------------------------------------------------------- a unit of time

  /** The table after the process at `running`, if any, ran for a unit of time. */
  function Decremented(table: seq<Process>, running: int): (t: seq<Process>)
    requires running == IDLE || 0 <= running < |table|
    ensures |t| == |table|
  {
    if running == IDLE then table
    else table[running := table[running].(exec := table[running].exec - 1)]
  }

  method Decrement(proc: array<Process>, running: int)
    requires running == IDLE || 0 <= running < proc.Length
    modifies proc
    ensures proc[..] == Decremented(old(proc[..]), running)
    ensures SameNames(old(proc[..]), proc[..])
  {
    if running != -1 {
      proc[running] := proc[running].(exec := proc[running].exec - 1);
    }
  }

  // ---------------------------------------------------------------- releases

  predicate Due(was: seq<Process>, k: int, now: int, m: int) {
    0 <= k < m <= |was| && was[k].ready == now
  }

  /** Of the first m rows exactly those due at clock value `now` have been forked, each under a pid of
      its own; there are no other new children, and the new ones are in class cls. */
  ghost predicate ForksDue(was: seq<Process>, table: seq<Process>, now: int, m: int,
                           before: map<int, SchedClass>, after: map<int, SchedClass>, cls: SchedClass) {
    && |was| == |table|
    && (forall k | 0 <= k < |was| && !Due(was, k, now, m) :: table[k] == was[k])
    && (forall k | 0 <= k < |was| && Due(was, k, now, m) ::
          table[k].pid > 0 && table[k].pid !in before && table[k].pid in after && after[table[k].pid] == cls)
    && (forall k, l | 0 <= k < l < |was| && Due(was, k, now, m) && Due(was, l, now, m) ::
          table[k].pid != table[l].pid)
    && (forall c | c in before :: c in after && after[c] == before[c])
    && (forall c | c in after && c !in before ::
          exists k :: 0 <= k < |was| && Due(was, k, now, m) && table[k].pid == c)
  }

  /** Row m is due and gets the pid of a new child. */
  lemma ForksOneMore(was: seq<Process>, table: seq<Process>, now: int, m: int, row: Process,
                     before: map<int, SchedClass>, after: map<int, SchedClass>, cls: SchedClass)
    requires 0 <= m < |was| && was[m].ready == now
    requires ForksDue(was, table, now, m, before, after, cls)
    requires row.pid > 0 && row.pid !in after
    ensures ForksDue(was, table[m := row], now, m + 1, before, after[row.pid := cls], cls)
  {
    var table', after' := table[m := row], after[row.pid := cls];
    assert forall k | 0 <= k < |was| :: Due(was, k, now, m + 1) <==> Due(was, k, now, m) || k == m;
    assert forall k | 0 <= k < |was| && k != m :: table'[k] == table[k];
    forall k | 0 <= k < |was| && Due(was, k, now, m + 1)
      ensures table'[k].pid > 0 && table'[k].pid !in before
      ensures table'[k].pid in after' && after'[table'[k].pid] == cls
    {}
    forall k | 0 <= k < |was| && Due(was, k, now, m) ensures table'[k].pid != row.pid {}
    forall c | c in after' && c !in before
      ensures exists k :: 0 <= k < |was| && Due(was, k, now, m + 1) && table'[k].pid == c
    {
      if c == row.pid {
        assert Due(was, m, now, m + 1) && table'[m].pid == c;
      } else {
        var k :| 0 <= k < |was| && Due(was, k, now, m) && table[k].pid == c;
        assert Due(was, k, now, m + 1) && table'[k].pid == c;
      }
    }
  }

  lemma ForksNoMore(was: seq<Process>, table: seq<Process>, now: int, m: int,
                    before: map<int, SchedClass>, after: map<int, SchedClass>, cls: SchedClass)
    requires 0 <= m < |was| && was[m].ready != now
    requires ForksDue(was, table, now, m, before, after, cls)
    ensures ForksDue(was, table, now, m + 1, before, after, cls)
  {
    forall k | 0 <= k < |was| ensures Due(was, k, now, m + 1) <==> Due(was, k, now, m) {}
  }

  /** No column but the pids has been written. */
  ghost predicate OnlyPids(was: seq<Process>, table: seq<Process>) {
    |was| == |table| && forall k | 0 <= k < |was| :: table[k] == was[k].(pid := table[k].pid)
  }

  /** Forks row i and puts the child in the idle class. */
  method ForkIdle(proc: array<Process>, kernel: Kernel, i: int)
    requires kernel.Valid() && 0 <= i < proc.Length
    modifies proc, kernel
    ensures kernel.Valid()
    ensures proc[..] == old(proc[..])[i := old(proc[i]).(pid := proc[i].pid)]
    ensures proc[i].pid > 0 && proc[i].pid !in old(kernel.children)
    ensures kernel.children == old(kernel.children)[proc[i].pid := Idle]
  {
    var pid := kernel.Fork();
    proc[i] := proc[i].(pid := pid);
    var _ := kernel.SetScheduler(pid, Idle);
  }

  /** One row of the release step. */
  method ForkIfDue(proc: array<Process>, kernel: Kernel, now: int, i: int,
                   ghost was: seq<Process>, ghost before: map<int, SchedClass>)
    requires kernel.Valid() && 0 <= i < proc.Length && OnlyPids(was, proc[..])
    requires ForksDue(was, proc[..], now, i, before, kernel.children, Idle)
    modifies proc, kernel
    ensures kernel.Valid() && OnlyPids(was, proc[..])
    ensures ForksDue(was, proc[..], now, i + 1, before, kernel.children, Idle)
  {
    ghost var table, children := proc[..], kernel.children;
    assert proc[i] == table[i] == was[i];
    if proc[i].ready == now {
      ForkIdle(proc, kernel, i);
      ForksOneMore(was, table, now, i, proc[i], before, children, Idle);
    } else {
      ForksNoMore(was, table, now, i, before, children, Idle);
    }
  }

  /** Forks, and puts in the idle class, every process whose release time the clock shows; on any table. */
  method ReleaseArrivals(proc: array<Process>, kernel: Kernel, now: int)
    requires kernel.Valid()
    modifies proc, kernel
    ensures kernel.Valid()
    ensures ForksDue(old(proc[..]), proc[..], now, proc.Length, old(kernel.children), kernel.children, Idle)
    ensures OnlyPids(old(proc[..]), proc[..])
  {
    var i := 0;
    while i < proc.Length
      invariant 0 <= i <= proc.Length && kernel.Valid()
      invariant ForksDue(old(proc[..]), proc[..], now, i, old(kernel.children), kernel.children, Idle)
      invariant OnlyPids(old(proc[..]), proc[..])
    {
      ForkIfDue(proc, kernel, now, i, old(proc[..]), old(kernel.children));
      i := i + 1;
    }
  }

  /** The children are still the unreaped processes, with the new ones idle among them. */
  lemma ForksKeepOneAwake(was: seq<Process>, table: seq<Process>, now: int, running: int, cls: SchedClass,
                          before: map<int, SchedClass>, after: map<int, SchedClass>)
    requires ForksDue(was, table, now, |was|, before, after, Idle) && OnlyPids(was, table)
    requires OneAwake(was, running, cls, before)
    requires forall k | 0 <= k < |was| && was[k].ready == now :: was[k].pid == -1 && was[k].exec > 0 && k != running
    ensures OneAwake(table, running, cls, after)
  {
    forall k | 0 <= k < |table|
      ensures if Due(was, k, now, |was|) then Unreaped(table[k], k, running)
              else table[k] == was[k] && (Unreaped(table[k], k, running) <==> Unreaped(was[k], k, running))
    {}
    forall c | c in after
      ensures exists k :: 0 <= k < |table| && Unreaped(table[k], k, running) && table[k].pid == c
    {
      if c in before {
        var k :| 0 <= k < |was| && Unreaped(was[k], k, running) && was[k].pid == c;
        assert Unreaped(table[k], k, running) && table[k].pid == c;
      } else {
        var k :| 0 <= k < |was| && Due(was, k, now, |was|) && table[k].pid == c;
        assert Unreaped(table[k], k, running) && table[k].pid == c;
      }
    }
  }

  /** The table after the releases of clock value |tr|. */
  lemma ForksKeepTrack(was: seq<Process>, table: seq<Process>, jobs: seq<Job>, tr: seq<int>, running: int,
                       cls: SchedClass, before: map<int, SchedClass>, after: map<int, SchedClass>)
    requires WellFormed(jobs) && Obeys(AnyValid, jobs, tr)
    requires Tracks(was, jobs, tr, |tr|) && OneAwake(was, running, cls, before)
    requires running == IDLE || (0 <= running < |jobs| && jobs[running].ready < |tr|)
    requires ForksDue(was, table, |tr|, |was|, before, after, Idle) && OnlyPids(was, table)
    ensures Tracks(table, jobs, tr, |tr| + 1) && OneAwake(table, running, cls, after)
  {
    forall k | 0 <= k < |was| && was[k].ready == |tr| ensures was[k].pid == -1 && was[k].exec > 0 && k != running {
      ValidCounters(jobs, tr, k);
    }
    ForksKeepOneAwake(was, table, |tr|, running, cls, before, after);
  }
}

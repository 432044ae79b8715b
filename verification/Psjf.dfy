/** PSJF.c: preemptive shortest job first. The table is used in the order it was read. */
module PsjfScheduler {
  import opened Schedules
  import opened Workload
  import opened Optimality
  import opened PsjfTheory
  import opened Processes
  import opened TickLoop
  import opened AnyTable

  /** Whether some row is marked as waiting. */
  method SomeProcessIsReady(pross: array<Process>) returns (r: bool)
    ensures r <==> exists i | 0 <= i < pross.Length :: pross[i].waiting == 1
  {
    var i := 0;
    while i < pross.Length
      invariant 0 <= i <= pross.Length
      invariant forall j | 0 <= j < i :: pross[j].waiting != 1
    {
      if pross[i].waiting == 1 {
        return true;
      }
      i := i + 1;
    }
    return false;
  }

  /** A waiting row whose counter is below the sentinel that the search starts from, INT_MAX. */
  predicate Candidate(p: Process) {
    p.waiting == 1 && p.exec <= 2147483646
  }

  /** The leftmost of the waiting rows with the least counter. Rows at the sentinel are not seen, and
      0 is the answer when none is. */
  method FindMinIndex(pross: array<Process>) returns (index: int)
    ensures (exists i | 0 <= i < pross.Length :: Candidate(pross[i])) ==>
              && 0 <= index < pross.Length && Candidate(pross[index])
              && forall j | 0 <= j < pross.Length && Candidate(pross[j]) ::
                   Precedes(pross[index].exec, index, pross[j].exec, j)
    ensures (forall i | 0 <= i < pross.Length :: !Candidate(pross[i])) ==> index == 0
  {
    index := 0;
    var min := INT_MAX;
    var i := 0;
    while i < pross.Length
      invariant 0 <= i <= pross.Length
      invariant min == INT_MAX ==> index == 0 && forall j | 0 <= j < i :: !Candidate(pross[j])
      invariant min != INT_MAX ==>
        && 0 <= index < i && Candidate(pross[index]) && min == pross[index].exec
        && forall j | 0 <= j < i && Candidate(pross[j]) :: Precedes(min, index, pross[j].exec, j)
    {
      var value := pross[i].exec;
      if value < min && pross[i].waiting == 1 {
        min := value;
        index := i;
      }
      i := i + 1;
    }
  }

  /** The table against the schedule: `waiting` is 1 exactly for the processes that are released
      before clock value `now` and unfinished. What the mark of a row due at clock value 0 holds before
      the first releases does not matter. */
  ghost predicate Marks(table: seq<Process>, jobs: seq<Job>, tr: seq<int>, now: int) {
    |table| == |jobs| && forall i | 0 <= i < |table| ::
      && table[i].ready == jobs[i].ready && table[i].exec == Left(jobs, tr, i)
      && (now == jobs[i].ready == 0 ||
          (table[i].waiting == 1 <==> jobs[i].ready < now && Left(jobs, tr, i) > 0))
  }

  /** Every process released before `now` has a pid of its own; PSJF never waits for one. */
  ghost predicate OwnPids(table: seq<Process>, jobs: seq<Job>, now: int, children: map<int, SchedClass>) {
    && |table| == |jobs|
    && (forall i | 0 <= i < |table| && jobs[i].ready < now :: table[i].pid > 0 && table[i].pid in children)
    && (forall i, j | 0 <= i < j < |table| && jobs[i].ready < now && jobs[j].ready < now ::
          table[i].pid != table[j].pid)
  }

  /** A row before and after the release step at clock value `now`. */
  ghost predicate ReleasedRow(was: Process, row: Process, now: int) {
    row == if was.ready == now then was.(pid := row.pid, waiting := 1) else was
  }

  ghost predicate ReleasedRows(was: seq<Process>, table: seq<Process>, now: int, m: int) {
    |was| == |table| && forall k | 0 <= k < m <= |was| :: ReleasedRow(was[k], table[k], now)
  }

  /** Forks row i, marks it, and gives the child priority 10. */
  method ForkWaiting(proc: array<Process>, kernel: Kernel, i: int)
    requires kernel.Valid() && 0 <= i < proc.Length
    modifies proc, kernel
    ensures kernel.Valid()
    ensures proc[..] == old(proc[..])[i := old(proc[i]).(pid := proc[i].pid, waiting := 1)]
    ensures proc[i].pid > 0 && proc[i].pid !in old(kernel.children)
    ensures kernel.children == old(kernel.children)[proc[i].pid := RealTime(10)]
  {
    var pid := kernel.Fork();
    proc[i] := proc[i].(pid := pid);
    proc[i] := proc[i].(waiting := 1);
    var _ := kernel.SetScheduler(pid, RealTime(10));
  }

  /** One row of the release step. */
  method ForkIfDue(proc: array<Process>, kernel: Kernel, time: int, i: int,
                   ghost was: seq<Process>, ghost before: map<int, SchedClass>)
    requires kernel.Valid() && 0 <= i < proc.Length
    requires ReleasedRows(was, proc[..], time, i)
    requires ForksDue(was, proc[..], time, i, before, kernel.children, RealTime(10))
    modifies proc, kernel
    ensures kernel.Valid() && ReleasedRows(was, proc[..], time, i + 1)
    ensures ForksDue(was, proc[..], time, i + 1, before, kernel.children, RealTime(10))
  {
    ghost var table, children := proc[..], kernel.children;
    assert proc[i] == table[i] == was[i];
    if time == proc[i].ready {
      ForkWaiting(proc, kernel, i);
      ForksOneMore(was, table, time, i, proc[i], before, children, RealTime(10));
      assert ReleasedRow(was[i], proc[..][i], time);
    } else {
      ForksNoMore(was, table, time, i, before, children, RealTime(10));
    }
  }

  /** Forks and marks every process whose release time the clock shows, and no other. */
  method ForkArrivals(proc: array<Process>, kernel: Kernel, time: int)
    requires kernel.Valid()
    modifies proc, kernel
    ensures kernel.Valid()
    ensures ReleasedRows(old(proc[..]), proc[..], time, proc.Length)
    ensures ForksDue(old(proc[..]), proc[..], time, proc.Length, old(kernel.children), kernel.children, RealTime(10))
  {
    var i := 0;
    while i < proc.Length
      invariant 0 <= i <= proc.Length && kernel.Valid()
      invariant ReleasedRows(old(proc[..]), proc[..], time, i)
      invariant ForksDue(old(proc[..]), proc[..], time, i, old(kernel.children), kernel.children, RealTime(10))
    {
      ForkIfDue(proc, kernel, time, i, old(proc[..]), old(kernel.children));
      i := i + 1;
    }
  }

  lemma MarksReleased(was: seq<Process>, table: seq<Process>, jobs: seq<Job>, tr: seq<int>)
    requires WellFormed(jobs) && Obeys(AnyValid, jobs, tr) && Marks(was, jobs, tr, |tr|)
    requires ReleasedRows(was, table, |tr|, |was|)
    ensures Marks(table, jobs, tr, |tr| + 1)
  {
    forall i | 0 <= i < |table|
      ensures table[i].ready == jobs[i].ready && table[i].exec == Left(jobs, tr, i)
      ensures table[i].waiting == 1 <==> jobs[i].ready < |tr| + 1 && Left(jobs, tr, i) > 0
    {
      ValidCounters(jobs, tr, i);
      assert ReleasedRow(was[i], table[i], |tr|);
    }
  }

  /** The table after process x has run for a unit of time. */
  function RanUnit(table: seq<Process>, x: int): (t: seq<Process>)
    requires x == IDLE || 0 <= x < |table|
    ensures |t| == |table|
  {
    if x == IDLE then table
    else
      var p := table[x].(exec := table[x].exec - 1);
      table[x := if p.exec == 0 then p.(waiting := 0) else p]
  }

  lemma MarksTick(table: seq<Process>, jobs: seq<Job>, tr: seq<int>, x: int)
    requires WellFormed(jobs) && Marks(table, jobs, tr, |tr| + 1)
    requires x == IDLE || Live(jobs, tr, x)
    ensures Marks(RanUnit(table, x), jobs, tr + [x], |tr| + 1)
  {
    forall i | 0 <= i < |jobs| ensures Left(jobs, tr + [x], i) == Left(jobs, tr, i) - if i == x then 1 else 0 {
      ServedSnoc(tr, x, i);
    }
  }

  lemma OwnPidsTick(table: seq<Process>, jobs: seq<Job>, now: int, x: int,
                    children: map<int, SchedClass>, children': map<int, SchedClass>)
    requires OwnPids(table, jobs, now, children) && (x == IDLE || 0 <= x < |table|)
    requires children'.Keys == children.Keys
    ensures OwnPids(RanUnit(table, x), jobs, now, children')
    ensures forall i | 0 <= i < |table| :: RanUnit(table, x)[i].pid == table[i].pid
  {}

  /** `pre` is the pid of the process that ran last, -1 before any did. */
  ghost predicate HadItLast(table: seq<Process>, jobs: seq<Job>, tr: seq<int>, pre: int)
    requires |table| == |jobs|
  {
    var last := LastRun(tr);
    -1 <= last < |jobs|
    && (if last == IDLE then pre == -1 else jobs[last].ready < |tr| && pre == table[last].pid)
  }

  /** As pids differ, comparing them notices a switch exactly when the process changes. */
  lemma SwitchTick(table: seq<Process>, jobs: seq<Job>, tr: seq<int>, x: int, pre: int, children: map<int, SchedClass>)
    requires OwnPids(table, jobs, |tr| + 1, children) && HadItLast(table, jobs, tr, pre)
    requires x == IDLE || Live(jobs, tr, x)
    ensures HadItLast(RanUnit(table, x), jobs, tr + [x], if x == IDLE then pre else table[x].pid)
    ensures Switches(tr + [x]) == Switches(tr) + if x != IDLE && table[x].pid != pre then 1 else 0
  {
    assert (tr + [x])[..|tr|] == tr;
  }

  lemma CountTick(table: seq<Process>, jobs: seq<Job>, tr: seq<int>, x: int)
    requires WellFormed(jobs) && Marks(table, jobs, tr, |tr| + 1) && (x == IDLE || Live(jobs, tr, x))
    ensures |Finished(jobs, tr + [x])| == |Finished(jobs, tr)| + if x != IDLE && table[x].exec == 1 then 1 else 0
  {
    FinishedTick(jobs, tr, x);
    ServedSnoc(tr, x, x);
  }

  /** What holds whenever the loop comes round (now == time), and after the releases (now == time + 1).
      `pre` is the pid that had the CPU last. */
  ghost predicate Books(table: seq<Process>, jobs: seq<Job>, tr: seq<int>, now: int, time: int,
                        pre: int, finished: int, switches: int, children: map<int, SchedClass>) {
    && WellFormed(jobs) && BelowSentinel(jobs)
    && Ran(Psjf, jobs, tr) && time == |tr|
    && Marks(table, jobs, tr, now) && OwnPids(table, jobs, now, children)
    && finished == |Finished(jobs, tr)|
    && switches == Switches(tr) && HadItLast(table, jobs, tr, pre)
  }

  lemma ReleaseKeepsBooks(was: seq<Process>, table: seq<Process>, jobs: seq<Job>, tr: seq<int>, time: int,
                          pre: int, finished: int, switches: int,
                          before: map<int, SchedClass>, after: map<int, SchedClass>)
    requires Books(was, jobs, tr, time, time, pre, finished, switches, before)
    requires ForksDue(was, table, time, |was|, before, after, RealTime(10))
    requires ReleasedRows(was, table, time, |was|)
    ensures Books(table, jobs, tr, time + 1, time, pre, finished, switches, after)
  {
    RanObeys(Psjf, jobs, tr);
    PolicyIsWorkConserving(Psjf, jobs, tr);
    MarksReleased(was, table, jobs, tr);
    OwnPidsReleased(was, table, jobs, time, before, after);
    assert forall k | 0 <= k < |was| :: ReleasedRow(was[k], table[k], time);
  }

  lemma OwnPidsReleased(was: seq<Process>, table: seq<Process>, jobs: seq<Job>, now: int,
                        before: map<int, SchedClass>, after: map<int, SchedClass>)
    requires OwnPids(was, jobs, now, before) && ForksDue(was, table, now, |was|, before, after, RealTime(10))
    requires forall i | 0 <= i < |was| :: was[i].ready == jobs[i].ready
    ensures OwnPids(table, jobs, now + 1, after)
  {
    assert forall i | 0 <= i < |was| :: Due(was, i, now, |was|) <==> jobs[i].ready == now;
  }

  lemma TurnKeepsBooks(table: seq<Process>, jobs: seq<Job>, tr: seq<int>, x: int, time: int,
                       pre: int, finished: int, switches: int, children: map<int, SchedClass>,
                       pre': int, finished': int, switches': int, children': map<int, SchedClass>)
    requires children'.Keys == children.Keys
    requires Books(table, jobs, tr, time + 1, time, pre, finished, switches, children)
    requires MayRun(Psjf, jobs, tr, x) && !AllDone(jobs, tr) && (x == IDLE || 0 <= x < |table|)
    requires pre' == if x == IDLE then pre else table[x].pid
    requires finished' == finished + if x != IDLE && table[x].exec == 1 then 1 else 0
    requires switches' == switches + if x != IDLE && table[x].pid != pre then 1 else 0
    ensures Books(RanUnit(table, x), jobs, tr + [x], time + 1, time + 1, pre', finished', switches', children')
  {
    MarksTick(table, jobs, tr, x);
    OwnPidsTick(table, jobs, time + 1, x, children, children');
    SwitchTick(table, jobs, tr, x, pre, children);
    CountTick(table, jobs, tr, x);
    assert (tr + [x])[..|tr|] == tr;
  }

  // ---------------------------------------------------------------- who is whose child, with what priority

  /** What a switch from pid `pre` to pid `pid` does to the classes; there is none if they are the same. */
  ghost predicate Switched(before: map<int, SchedClass>, after: map<int, SchedClass>, pre: int, pid: int) {
    after.Keys == before.Keys && forall c | c in before ::
      after[c] == if pid == pre then before[c]
                  else if c == pid then RealTime(10)
                  else if c == pre && pre != -1 then RealTime(90)
                  else before[c]
  }

  /** A process that has run and does not have the CPU any more is at 90, any other at 10. */
  function Priority(tr: seq<int>, i: int): SchedClass {
    if Served(tr, i) > 0 && LastRun(tr) != i then RealTime(90) else RealTime(10)
  }

  /** The children are those in `others`, untouched, and exactly one for each process released before
      `now`, with the priority that the schedule gives it. */
  ghost predicate Family(table: seq<Process>, jobs: seq<Job>, tr: seq<int>, now: int,
                         others: map<int, SchedClass>, children: map<int, SchedClass>) {
    && |table| == |jobs|
    && (forall c | c in others :: c in children && children[c] == others[c])
    && (forall i | 0 <= i < |table| && jobs[i].ready < now ::
          table[i].pid in children && table[i].pid !in others && children[table[i].pid] == Priority(tr, i))
    && (forall c | c in children && c !in others ::
          exists i :: 0 <= i < |table| && jobs[i].ready < now && table[i].pid == c)
  }

  lemma FamilyReleased(was: seq<Process>, table: seq<Process>, jobs: seq<Job>, tr: seq<int>,
                       others: map<int, SchedClass>, before: map<int, SchedClass>, after: map<int, SchedClass>)
    requires WellFormed(jobs) && Obeys(AnyValid, jobs, tr)
    requires Family(was, jobs, tr, |tr|, others, before)
    requires ForksDue(was, table, |tr|, |was|, before, after, RealTime(10))
    requires forall i | 0 <= i < |was| :: was[i].ready == jobs[i].ready
    ensures Family(table, jobs, tr, |tr| + 1, others, after)
  {
    forall i | 0 <= i < |was| && jobs[i].ready < |tr| + 1
      ensures table[i].pid in after && table[i].pid !in others && after[table[i].pid] == Priority(tr, i)
    {
      assert Due(was, i, |tr|, |was|) <==> jobs[i].ready == |tr|;
      ValidCounters(jobs, tr, i);
    }
    forall c | c in after && c !in others
      ensures exists i :: 0 <= i < |table| && jobs[i].ready < |tr| + 1 && table[i].pid == c
    {
      if c in before {
        var i :| 0 <= i < |was| && jobs[i].ready < |tr| && was[i].pid == c;
        assert table[i] == was[i];
      } else {
        var i :| 0 <= i < |was| && Due(was, i, |tr|, |was|) && table[i].pid == c;
      }
    }
  }

  lemma ReleaseKeepsFamily(was: seq<Process>, table: seq<Process>, jobs: seq<Job>, tr: seq<int>,
                           others: map<int, SchedClass>, before: map<int, SchedClass>, after: map<int, SchedClass>)
    requires WellFormed(jobs) && Ran(Psjf, jobs, tr) && Family(was, jobs, tr, |tr|, others, before)
    requires ForksDue(was, table, |tr|, |was|, before, after, RealTime(10)) && ReleasedRows(was, table, |tr|, |was|)
    requires forall i | 0 <= i < |was| :: was[i].ready == jobs[i].ready
    ensures Family(table, jobs, tr, |tr| + 1, others, after) && SameNames(was, table)
  {
    RanObeys(Psjf, jobs, tr);
    PolicyIsWorkConserving(Psjf, jobs, tr);
    FamilyReleased(was, table, jobs, tr, others, before, after);
    assert forall k | 0 <= k < |was| :: ReleasedRow(was[k], table[k], |tr|);
  }

  /** The process that ran last has run. */
  lemma {:induction false} LastRunServed(tr: seq<int>)
    ensures LastRun(tr) != IDLE ==> Served(tr, LastRun(tr)) > 0
  {
    if tr == [] {
    } else {
      LastRunServed(tr[..|tr| - 1]);
    }
  }

  /** One tick moves the priorities with the CPU. */
  lemma PriorityTick(tr: seq<int>, x: int, i: int)
    requires i != IDLE
    ensures Priority(tr + [x], i) ==
      if x == IDLE then Priority(tr, i)
      else if i == x then RealTime(10)
      else if i == LastRun(tr) then RealTime(90)
      else Priority(tr, i)
  {
    assert (tr + [x])[..|tr|] == tr;
    ServedSnoc(tr, x, i);
    LastRunServed(tr);
  }

  lemma SwitchedAt(table: seq<Process>, jobs: seq<Job>, tr: seq<int>, x: int, pre: int,
                   before: map<int, SchedClass>, after: map<int, SchedClass>, i: int)
    requires OwnPids(table, jobs, |tr| + 1, before) && HadItLast(table, jobs, tr, pre)
    requires Live(jobs, tr, x) && 0 <= i < |jobs| && jobs[i].ready < |tr| + 1
    requires Switched(before, after, pre, table[x].pid)
    ensures table[i].pid in after
    ensures after[table[i].pid] ==
      if i == x then if x == LastRun(tr) then before[table[i].pid] else RealTime(10)
      else if i == LastRun(tr) then RealTime(90)
      else before[table[i].pid]
  {}

  /** The same pids, with the priorities of another schedule. */
  lemma FamilyRanked(table: seq<Process>, table': seq<Process>, jobs: seq<Job>, tr: seq<int>, tr': seq<int>, now: int,
                     others: map<int, SchedClass>, children: map<int, SchedClass>, children': map<int, SchedClass>)
    requires Family(table, jobs, tr, now, others, children)
    requires |table'| == |table| && forall i | 0 <= i < |table| :: table'[i].pid == table[i].pid
    requires children'.Keys == children.Keys && forall c | c in others :: c in children' && children'[c] == others[c]
    requires forall i | 0 <= i < |table| && jobs[i].ready < now ::
      table[i].pid in children' && children'[table[i].pid] == Priority(tr', i)
    ensures Family(table', jobs, tr', now, others, children')
  {
    forall c | c in children' && c !in others
      ensures exists i :: 0 <= i < |table'| && jobs[i].ready < now && table'[i].pid == c
    {
      assert c in children;
      var i :| 0 <= i < |table| && jobs[i].ready < now && table[i].pid == c;
      assert table'[i].pid == c;
    }
  }

  lemma FamilyTick(table: seq<Process>, jobs: seq<Job>, tr: seq<int>, x: int, pre: int, pre': int,
                   others: map<int, SchedClass>, children: map<int, SchedClass>, children': map<int, SchedClass>)
    requires OwnPids(table, jobs, |tr| + 1, children) && HadItLast(table, jobs, tr, pre)
    requires Family(table, jobs, tr, |tr| + 1, others, children)
    requires x == IDLE || Live(jobs, tr, x)
    requires pre' == if x == IDLE then pre else table[x].pid
    requires Switched(children, children', pre, pre')
    ensures children'.Keys == children.Keys
    ensures Family(RanUnit(table, x), jobs, tr + [x], |tr| + 1, others, children')
  {
    forall i | 0 <= i < |table| && jobs[i].ready < |tr| + 1
      ensures table[i].pid in children' && children'[table[i].pid] == Priority(tr + [x], i)
    {
      PriorityTick(tr, x, i);
      if x != IDLE { SwitchedAt(table, jobs, tr, x, pre, children, children', i); }
    }
    FamilyRanked(table, RanUnit(table, x), jobs, tr, tr + [x], |tr| + 1, others, children, children');
  }

  lemma NamesKept(table: seq<Process>, x: int)
    requires x == IDLE || 0 <= x < |table|
    ensures SameNames(table, RanUnit(table, x))
  {}

  /** A tick of the policy, with all that changes with it. */
  lemma TurnKeepsAll(table: seq<Process>, jobs: seq<Job>, tr: seq<int>, x: int, time: int,
                     pre: int, finished: int, switches: int, others: map<int, SchedClass>, children: map<int, SchedClass>,
                     table': seq<Process>, pre': int, finished': int, switches': int, children': map<int, SchedClass>)
    requires Books(table, jobs, tr, time + 1, time, pre, finished, switches, children)
    requires Family(table, jobs, tr, time + 1, others, children)
    requires MayRun(Psjf, jobs, tr, x) && !AllDone(jobs, tr) && (x == IDLE || 0 <= x < |table|)
    requires table' == RanUnit(table, x)
    requires pre' == if x == IDLE then pre else table[x].pid
    requires finished' == finished + if x != IDLE && table[x].exec == 1 then 1 else 0
    requires switches' == switches + if x != IDLE && table[x].pid != pre then 1 else 0
    requires Switched(children, children', pre, pre')
    ensures Books(table', jobs, tr + [x], time + 1, time + 1, pre', finished', switches', children')
    ensures Family(table', jobs, tr + [x], time + 1, others, children')
  {
    FamilyTick(table, jobs, tr, x, pre, pre', others, children, children');
    TurnKeepsBooks(table, jobs, tr, x, time, pre, finished, switches, children, pre', finished', switches', children');
  }

  /** The children in `others` are untouched, and the rest are the pids in the table, one for each row. */
  ghost predicate OneChildEach(table: seq<Process>, others: map<int, SchedClass>, children: map<int, SchedClass>) {
    && (forall c | c in others :: c in children && children[c] == others[c])
    && (forall i | 0 <= i < |table| :: table[i].pid in children && table[i].pid !in others)
    && (forall i, j | 0 <= i < j < |table| :: table[i].pid != table[j].pid)
    && (forall c | c in children && c !in others :: exists i :: 0 <= i < |table| && table[i].pid == c)
  }

  /** The process that ran last is at priority 10, all others at 90. */
  ghost predicate LastAtTen(table: seq<Process>, tr: seq<int>, children: map<int, SchedClass>) {
    forall i | 0 <= i < |table| ::
      table[i].pid in children && children[table[i].pid] == RealTime(if i == LastRun(tr) then 10 else 90)
  }

  /** When everything has finished there is one new child for each row, and no other. */
  lemma FamilyAtEnd(table: seq<Process>, jobs: seq<Job>, tr: seq<int>, others: map<int, SchedClass>,
                    children: map<int, SchedClass>)
    requires WellFormed(jobs) && Obeys(AnyValid, jobs, tr) && AllDone(jobs, tr)
    requires Family(table, jobs, tr, |tr|, others, children) && OwnPids(table, jobs, |tr|, children)
    ensures OneChildEach(table, others, children) && LastAtTen(table, tr, children)
  {
    forall i | 0 <= i < |table| ensures jobs[i].ready < |tr| && Served(tr, i) > 0 {
      ValidCounters(jobs, tr, i);
      assert Left(jobs, tr, i) == 0;
    }
  }

  ghost predicate UsedUp(table: seq<Process>) {
    forall i | 0 <= i < |table| :: table[i].exec == 0 && table[i].waiting != 1
  }

  lemma BooksAtEnd(table: seq<Process>, jobs: seq<Job>, tr: seq<int>, time: int, pre: int, finished: int,
                   switches: int, others: map<int, SchedClass>, children: map<int, SchedClass>)
    requires Books(table, jobs, tr, time, time, pre, finished, switches, children) && finished == |table|
    requires Family(table, jobs, tr, time, others, children)
    ensures Obeys(Psjf, jobs, tr) && FirstDone(jobs, tr)
    ensures time == |tr| && finished == |jobs| && switches == Switches(tr)
    ensures UsedUp(table)
    ensures OneChildEach(table, others, children) && LastAtTen(table, tr, children)
  {
    FinishedAtMost(jobs, tr);
    RanObeys(Psjf, jobs, tr);
    PolicyIsWorkConserving(Psjf, jobs, tr);
    FamilyAtEnd(table, jobs, tr, others, children);
    assert forall i | 0 <= i < |table| :: Left(jobs, tr, i) == 0;
  }

  /** What the two searches come to: IDLE if nothing is waiting, else the shortest of what the second
      one sees, or 0 if it sees nothing. */
  ghost predicate Found(table: seq<Process>, x: int) {
    if forall i | 0 <= i < |table| :: table[i].waiting != 1 then x == IDLE
    else if forall i | 0 <= i < |table| :: !Candidate(table[i]) then x == 0
    else 0 <= x < |table| && Candidate(table[x])
         && forall j | 0 <= j < |table| && Candidate(table[j]) :: Precedes(table[x].exec, x, table[j].exec, j)
  }

  /** What the two searches find is what the policy asks for. A process that the second one does not
      see can only be the first row, which is its answer when it sees nothing. */
  lemma SearchIsPolicy(table: seq<Process>, jobs: seq<Job>, tr: seq<int>, x: int)
    requires WellFormed(jobs) && BelowSentinel(jobs) && Marks(table, jobs, tr, |tr| + 1) && Found(table, x)
    ensures MayRun(Psjf, jobs, tr, x) && (x == IDLE || 0 <= x < |table|)
  {
    assert forall i | 0 <= i < |table| :: Live(jobs, tr, i) <==> table[i].waiting == 1;
    forall i | 0 <= i < |table| && Live(jobs, tr, i) && !Candidate(table[i]) ensures i == 0 {}
  }

  // ---------------------------------------------------------------- on any table whatever

  /** The table against a run in which anything may have happened, before or after the releases of
      the present clock value. */
  ghost predicate AnyMarks(table: seq<Process>, jobs: seq<Job>, tr: seq<int>, released: bool) {
    |table| == |jobs| && forall i | 0 <= i < |table| ::
      && table[i].ready == jobs[i].ready && table[i].exec == Left(jobs, tr, i)
      && (table[i].waiting == 1 <==> if released then Marked(jobs, tr, i) else Carried(jobs, tr, i))
  }

  lemma AnyStart(table: seq<Process>)
    requires forall i | 0 <= i < |table| :: table[i].waiting != 1
    ensures AnyMarks(table, JobsOf(table), [], false)
  {}

  lemma AnyRelease(was: seq<Process>, table: seq<Process>, jobs: seq<Job>, tr: seq<int>)
    requires AnyMarks(was, jobs, tr, false)
    requires ReleasedRows(was, table, |tr|, |was|)
    ensures AnyMarks(table, jobs, tr, true)
  {
    forall i | 0 <= i < |table|
      ensures table[i].ready == jobs[i].ready && table[i].exec == Left(jobs, tr, i)
      ensures table[i].waiting == 1 <==> Marked(jobs, tr, i)
    {
      assert ReleasedRow(was[i], table[i], |tr|);
    }
  }

  /** Search, decrement and count, with negative counters and all, are one tick of the PSJF loop. */
  lemma AnyTurn(table: seq<Process>, jobs: seq<Job>, tr: seq<int>, x: int)
    requires AnyMarks(table, jobs, tr, true) && Found(table, x)
    ensures LoopMayRun(Psjf, jobs, tr, x) && (x == IDLE || 0 <= x < |table|)
    ensures AnyMarks(RanUnit(table, x), jobs, tr + [x], false)
    ensures Reaps(jobs, tr + [x]) == Reaps(jobs, tr) + if x != IDLE && table[x].exec == 1 then 1 else 0
  {
    assert (tr + [x])[..|tr|] == tr;
    forall i | 0 <= i < |table| ensures Seen(jobs, tr, i) <==> Candidate(table[i]) {}
    forall i | 0 <= i < |jobs| ensures Left(jobs, tr + [x], i) == Left(jobs, tr, i) - if i == x then 1 else 0 {
      ServedSnoc(tr, x, i);
    }
  }

  class PsjfLoop {
    const proc: array<Process>
    const kernel: Kernel
    var time: int
    var preRunning: int        // a pid
    var running: int           // a pid
    var finishedProcess: int

    ghost var jobs: seq<Job>
    ghost var trace: seq<int>      // the index that ran in each tick so far
    ghost var switches: nat        // how often the two pids differed
    ghost var others: map<int, SchedClass>   // the children there were at the start

    constructor (proc: array<Process>, kernel: Kernel)
      ensures this.proc == proc && this.kernel == kernel
    {
      this.proc, this.kernel := proc, kernel;
    }

    /** Forks what is due. */
    method Release()
      requires kernel.Valid() && Books(proc[..], jobs, trace, time, time, preRunning, finishedProcess, switches, kernel.children)
      requires Family(proc[..], jobs, trace, time, others, kernel.children)
      modifies proc, kernel
      ensures kernel.Valid() && Books(proc[..], jobs, trace, time + 1, time, preRunning, finishedProcess, switches, kernel.children)
      ensures Family(proc[..], jobs, trace, time + 1, others, kernel.children)
      ensures SameNames(old(proc[..]), proc[..])
    {
      ghost var was, children := proc[..], kernel.children;
      ForkArrivals(proc, kernel, time);
      ReleaseKeepsFamily(was, proc[..], jobs, trace, others, children, kernel.children);
      ReleaseKeepsBooks(was, proc[..], jobs, trace, time, preRunning, finishedProcess, switches,
                        children, kernel.children);
    }

    /** Gives the row at `index` a unit of time. A switch is noticed by comparing pids; it gives the
        process that had the CPU last priority 90 and the one that has it now priority 10. */
    method RunIndex(index: int)
      requires kernel.Valid() && 0 <= index < proc.Length
      modifies this`running, this`preRunning, this`finishedProcess, this`switches, proc, kernel
      ensures kernel.Valid() && Switched(old(kernel.children), kernel.children, old(preRunning), old(proc[index].pid))
      ensures proc[..] == RanUnit(old(proc[..]), index)
      ensures running == preRunning == old(proc[index].pid)
      ensures finishedProcess == old(finishedProcess) + if old(proc[index].exec) == 1 then 1 else 0
      ensures switches == old(switches) + if old(proc[index].pid) != old(preRunning) then 1 else 0
    {
      running := proc[index].pid;
      if running != preRunning {
        if preRunning != -1 {
          var _ := kernel.SetScheduler(preRunning, RealTime(90));
        }
        var _ := kernel.SetScheduler(running, RealTime(10));
        switches := switches + 1;
      }
      preRunning := running;
      proc[index] := proc[index].(exec := proc[index].exec - 1);
      if proc[index].exec == 0 {
        proc[index] := proc[index].(waiting := 0);
        finishedProcess := finishedProcess + 1;
      }
    }

    /** Gives what was chosen, if anything was, a unit of time. */
    method RunUnit(x: int)
      requires kernel.Valid() && (x == IDLE || 0 <= x < proc.Length)
      modifies this`running, this`preRunning, this`finishedProcess, this`switches, proc, kernel
      ensures kernel.Valid()
      ensures proc[..] == RanUnit(old(proc[..]), x) && SameNames(old(proc[..]), proc[..])
      ensures preRunning == if x == IDLE then old(preRunning) else old(proc[..])[x].pid
      ensures Switched(old(kernel.children), kernel.children, old(preRunning), preRunning)
      ensures finishedProcess == old(finishedProcess) + if x != IDLE && old(proc[..])[x].exec == 1 then 1 else 0
      ensures switches == old(switches) + if x != IDLE && old(proc[..])[x].pid != old(preRunning) then 1 else 0
    {
      if x != IDLE {
        NamesKept(proc[..], x);
        RunIndex(x);
      }
    }

    /** The two searches, on any table. */
    method FindShortest() returns (x: int)
      ensures Found(proc[..], x)
    {
      assert forall j | 0 <= j < proc.Length :: proc[..][j] == proc[j];
      x := IDLE;
      var any := SomeProcessIsReady(proc);
      if any {
        x := FindMinIndex(proc);
      }
    }

    /** What they find is what the policy asks for. */
    method Choose() returns (x: int)
      requires Books(proc[..], jobs, trace, time + 1, time, preRunning, finishedProcess, switches, kernel.children)
      ensures MayRun(Psjf, jobs, trace, x) && (x == IDLE || 0 <= x < proc.Length)
    {
      x := FindShortest();
      SearchIsPolicy(proc[..], jobs, trace, x);
    }

    /** Runs what the policy asks for, if anything, for a unit of time. */
    method RunChosen(x: int)
      requires kernel.Valid() && !AllDone(jobs, trace)
      requires Books(proc[..], jobs, trace, time + 1, time, preRunning, finishedProcess, switches, kernel.children)
      requires Family(proc[..], jobs, trace, time + 1, others, kernel.children)
      requires MayRun(Psjf, jobs, trace, x) && (x == IDLE || 0 <= x < proc.Length)
      modifies this`running, this`preRunning, this`finishedProcess, this`switches, proc, kernel
      ensures kernel.Valid()
      ensures Books(proc[..], jobs, trace + [x], time + 1, time + 1, preRunning, finishedProcess, switches, kernel.children)
      ensures Family(proc[..], jobs, trace + [x], time + 1, others, kernel.children)
      ensures SameNames(old(proc[..]), proc[..])
    {
      RunUnit(x);
      TurnKeepsAll(old(proc[..]), jobs, trace, x, time, old(preRunning), old(finishedProcess), old(switches), others,
                   old(kernel.children), proc[..], preRunning, finishedProcess, switches, kernel.children);
    }

    /** Runs the shortest of the waiting processes, if there is one, for a unit of time. */
    method RunShortest() returns (ghost longer: seq<int>)
      requires kernel.Valid() && !AllDone(jobs, trace)
      requires Books(proc[..], jobs, trace, time + 1, time, preRunning, finishedProcess, switches, kernel.children)
      requires Family(proc[..], jobs, trace, time + 1, others, kernel.children)
      modifies this`running, this`preRunning, this`finishedProcess, this`switches, proc, kernel
      ensures kernel.Valid() && longer != [] && longer[..|longer| - 1] == trace
      ensures Books(proc[..], jobs, longer, time + 1, time + 1, preRunning, finishedProcess, switches, kernel.children)
      ensures Family(proc[..], jobs, longer, time + 1, others, kernel.children)
      ensures SameNames(old(proc[..]), proc[..])
    {
      var index := Choose();
      longer := trace + [index];
      RunChosen(index);
    }

    /** The unit of time has passed, and its tick joins the trace. */
    method Advance(ghost longer: seq<int>)
      requires Books(proc[..], jobs, longer, time + 1, time + 1, preRunning, finishedProcess, switches, kernel.children)
      requires Family(proc[..], jobs, longer, time + 1, others, kernel.children)
      modifies this`time, this`trace
      ensures Books(proc[..], jobs, trace, time, time, preRunning, finishedProcess, switches, kernel.children)
      ensures Family(proc[..], jobs, trace, time, others, kernel.children)
      ensures trace == longer && time == old(time) + 1
    {
      trace := longer;
      time := time + 1;
    }

    /** One turn: release, run, and move the clock. */
    method Turn()
      requires kernel.Valid() && Books(proc[..], jobs, trace, time, time, preRunning, finishedProcess, switches, kernel.children)
      requires !AllDone(jobs, trace) && Family(proc[..], jobs, trace, time, others, kernel.children)
      modifies this`time, this`running, this`preRunning, this`finishedProcess, this`trace, this`switches, proc, kernel
      ensures kernel.Valid() && Books(proc[..], jobs, trace, time, time, preRunning, finishedProcess, switches, kernel.children)
      ensures Family(proc[..], jobs, trace, time, others, kernel.children)
      ensures time == old(time) + 1 && SameNames(old(proc[..]), proc[..])
    {
      Release();
      ghost var longer := RunShortest();
      Advance(longer);
    }

    /** Turn after turn, until as many have finished as there are rows. */
    method Loop()
      requires kernel.Valid() && Books(proc[..], jobs, trace, time, time, preRunning, finishedProcess, switches, kernel.children)
      requires Family(proc[..], jobs, trace, time, others, kernel.children)
      modifies this`time, this`running, this`preRunning, this`finishedProcess, this`trace, this`switches, proc, kernel
      ensures Books(proc[..], jobs, trace, time, time, preRunning, finishedProcess, switches, kernel.children)
      ensures Family(proc[..], jobs, trace, time, others, kernel.children)
      ensures finishedProcess == proc.Length && SameNames(old(proc[..]), proc[..])
    {
      ghost var input, bound := jobs, LatestReady(jobs) + TotalExec(jobs);
      while finishedProcess != proc.Length
        invariant kernel.Valid() && Books(proc[..], jobs, trace, time, time, preRunning, finishedProcess, switches, kernel.children)
        invariant Family(proc[..], jobs, trace, time, others, kernel.children)
        invariant jobs == input && SameNames(old(proc[..]), proc[..])
        decreases bound - time
      {
        TimeIsBounded(jobs, trace);
        Turn();
      }
    }

    /** The whole run, over the table as it was read: in every tick the policy's process runs, the loop
        ends as soon as everything has finished, the two pids differ once for each switch, and one child
        has been forked for each row, left at priority 10 if it ran last and at 90 otherwise. */
    method Run()
      requires WellFormed(JobsOf(proc[..])) && kernel.Valid()
      requires BelowSentinel(JobsOf(proc[..]))
      requires forall i | 0 <= i < proc.Length && proc[i].waiting == 1 :: proc[i].ready == 0
      modifies this, proc, kernel
      ensures jobs == JobsOf(old(proc[..])) && SameNames(old(proc[..]), proc[..])
      ensures Obeys(Psjf, jobs, trace) && FirstDone(jobs, trace)
      ensures time == |trace| && finishedProcess == |jobs| && switches == Switches(trace)
      ensures UsedUp(proc[..])
      ensures OneChildEach(proc[..], old(kernel.children), kernel.children) && LastAtTen(proc[..], trace, kernel.children)
    {
      jobs, trace, switches, others := JobsOf(proc[..]), [], 0, kernel.children;
      time := 0;
      preRunning := -1;
      running := -1;
      finishedProcess := 0;
      StartBooks(proc[..], kernel.children);
      Loop();
      BooksAtEnd(proc[..], jobs, trace, time, preRunning, finishedProcess, switches, others, kernel.children);
    }
  }

  lemma StartBooks(table: seq<Process>, children: map<int, SchedClass>)
    requires WellFormed(JobsOf(table)) && BelowSentinel(JobsOf(table))
    requires forall i | 0 <= i < |table| && table[i].waiting == 1 :: table[i].ready == 0
    ensures Books(table, JobsOf(table), [], 0, 0, -1, 0, 0, children)
    ensures Family(table, JobsOf(table), [], 0, children, children)
  {
    assert Finished(JobsOf(table), []) == {};
  }

  lemma TimeIsBounded(jobs: seq<Job>, tr: seq<int>)
    requires WellFormed(jobs) && Ran(Psjf, jobs, tr) && |Finished(jobs, tr)| != |jobs|
    ensures !AllDone(jobs, tr) && |tr| < LatestReady(jobs) + TotalExec(jobs)
  {
    FinishedAtMost(jobs, tr);
    RanObeys(Psjf, jobs, tr);
    PolicyIsWorkConserving(Psjf, jobs, tr);
    ClockBound(jobs, tr);
  }
}

/** Turnaround and waiting time of a schedule. */
module Accounting {
  import opened Sums
  import opened Schedules
  import opened Workload
  import opened Optimality

  /** Ticks in which process i is released and unfinished but not running. */
  function Waited(jobs: seq<Job>, tr: seq<int>, i: int): nat
    requires 0 <= i < |jobs|
  {
    if tr == [] then 0
    else
      var n := |tr| - 1;
      Waited(jobs, tr[..n], i) + if Live(jobs, tr[..n], i) && tr[n] != i then 1 else 0
  }

  function Waiteds(jobs: seq<Job>, tr: seq<int>): (s: seq<int>)
    ensures |s| == |jobs|
  {
    seq(|jobs|, i requires 0 <= i < |jobs| => Waited(jobs, tr, i))
  }

  function Turnarounds(jobs: seq<Job>, tr: seq<int>): (s: seq<int>)
    ensures |s| == |jobs|
  {
    seq(|jobs|, i requires 0 <= i < |jobs| => Completion(jobs, tr, i) - jobs[i].ready)
  }

  /** From its release to its completion a process runs or waits: turnaround is waiting plus execution. */
  lemma {:induction false} TurnaroundSplits(jobs: seq<Job>, tr: seq<int>, i: int)
    requires WellFormed(jobs) && Obeys(AnyValid, jobs, tr) && 0 <= i < |jobs|
    ensures Left(jobs, tr, i) == 0
        ==> Completion(jobs, tr, i) - jobs[i].ready == Waited(jobs, tr, i) + jobs[i].exec
    ensures Left(jobs, tr, i) > 0
        ==> Waited(jobs, tr, i) + Served(tr, i) == Max(|tr| - jobs[i].ready, 0)
  {
    if tr == [] {
    } else {
      var past := tr[..|tr| - 1];
      TurnaroundSplits(jobs, past, i);
      ValidCounters(jobs, past, i);
      ValidCounters(jobs, tr, i);
    }
  }

  /** The sum of turnarounds exceeds the true total waiting time by exactly the total work. */
  lemma TotalTurnaround(jobs: seq<Job>, tr: seq<int>)
    requires WellFormed(jobs) && Obeys(AnyValid, jobs, tr) && AllDone(jobs, tr)
    ensures Sum(Turnarounds(jobs, tr)) == Sum(Waiteds(jobs, tr)) + TotalExec(jobs)
  {
    forall i | 0 <= i < |jobs|
      ensures Turnarounds(jobs, tr)[i] == Waiteds(jobs, tr)[i] + Execs(jobs)[i]
    {
      TurnaroundSplits(jobs, tr, i);
    }
    SumPlus(Waiteds(jobs, tr), Execs(jobs), Turnarounds(jobs, tr));
  }

  function Readies(jobs: seq<Job>): (s: seq<int>)
    ensures |s| == |jobs|
  {
    seq(|jobs|, i requires 0 <= i < |jobs| => jobs[i].ready)
  }

  /** So total waiting differs from total completion time by amounts that no policy can change. */
  lemma TotalWaiting(jobs: seq<Job>, tr: seq<int>)
    requires WellFormed(jobs) && Obeys(AnyValid, jobs, tr) && AllDone(jobs, tr)
    ensures TotalCompletion(jobs, tr) == Sum(Waiteds(jobs, tr)) + TotalExec(jobs) + Sum(Readies(jobs))
  {
    TotalTurnaround(jobs, tr);
    SumPlus(Turnarounds(jobs, tr), Readies(jobs), Completions(jobs, tr));
  }
}

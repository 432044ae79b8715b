/** Every policy has a next tick to give, and on good tables finishes everything. */
module Termination {
  import opened Schedules
  import opened Workload

  /** A live index with the least (key, index) among the first k. */
  lemma {:induction false} LeastLive(jobs: seq<Job>, past: seq<int>, key: seq<int>, k: nat) returns (x: int)
    requires |key| == |jobs| && k <= |jobs|
    ensures x == IDLE || (0 <= x < k && Live(jobs, past, x))
    ensures forall j | 0 <= j < k && Live(jobs, past, j) :: x != IDLE && Precedes(key[x], x, key[j], j)
  {
    if k == 0 {
      x := IDLE;
    } else {
      x := LeastLive(jobs, past, key, k - 1);
      if Live(jobs, past, k - 1) && (x == IDLE || key[k - 1] < key[x]) {
        x := k - 1;
      }
    }
  }

  lemma SomeTick(pol: Policy, jobs: seq<Job>, past: seq<int>) returns (x: int)
    ensures MayRun(pol, jobs, past, x)
  {
    var n := |jobs|;
    var cur := Current(jobs, past);
    var key := match pol
      case Fifo => seq(n, i requires 0 <= i < n => jobs[i].ready)
      case RoundRobin => seq(n, i => if cur == IDLE then 0 else CyclicDistance(n, cur, i))
      case _ => Lefts(jobs, past);
    x := LeastLive(jobs, past, key, n);
    if x != IDLE && cur != IDLE &&
       (pol in {Fifo, Sjf} || (pol == RoundRobin && (|past| - BlockStart(past)) % QUANTUM != 0)) {
      x := cur;
    }
  }

  /** On good input each policy finishes everything. */
  lemma RunToEnd(pol: Policy, jobs: seq<Job>) returns (tr: seq<int>)
    requires pol != AnyValid && WellFormed(jobs)
    ensures Obeys(pol, jobs, tr) && FirstDone(jobs, tr)
  {
    tr := [];
    while !AllDone(jobs, tr)
      invariant Obeys(pol, jobs, tr)
      invariant forall k | 0 <= k < |tr| :: !AllDone(jobs, tr[..k])
      decreases LatestReady(jobs) + TotalExec(jobs) - |tr|
    {
      PolicyIsWorkConserving(pol, jobs, tr);
      ClockBound(jobs, tr);
      var x := SomeTick(pol, jobs, tr);
      ObeysSnoc(pol, jobs, tr, x);
      forall k | 0 <= k <= |tr| ensures !AllDone(jobs, (tr + [x])[..k]) {
        assert (tr + [x])[..k] == tr[..k] && tr[..|tr|] == tr;
      }
      tr := tr + [x];
    }
  }

  lemma LastTickWorked(jobs: seq<Job>, tr: seq<int>)
    requires Obeys(AnyValid, jobs, tr) && FirstDone(jobs, tr) && tr != []
    ensures 0 <= tr[|tr| - 1] < |jobs|
  {
    var past, x := tr[..|tr| - 1], tr[|tr| - 1];
    assert !AllDone(jobs, past);
    var i :| 0 <= i < |jobs| && Left(jobs, past, i) != 0;
    assert Left(jobs, tr, i) == 0;
  }
}

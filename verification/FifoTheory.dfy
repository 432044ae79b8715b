/** First come first served has a closed form, and round robin with short jobs is the same thing. */
module FifoTheory {
  import opened Sums
  import opened Schedules
  import opened Optimality

  /** Closed form: when process k of the sorted table ends; 0 before the first. */
  function EndTime(jobs: seq<Job>, k: int): int
    requires k < |jobs|
    decreases k + 1
  {
    if k < 0 then 0 else Max(EndTime(jobs, k - 1), jobs[k].ready) + jobs[k].exec
  }

  function StartTime(jobs: seq<Job>, k: int): int
    requires 0 <= k < |jobs|
  {
    Max(EndTime(jobs, k - 1), jobs[k].ready)
  }

  lemma {:induction false} EndTimesIncrease(jobs: seq<Job>, i: int, k: int)
    requires WellFormed(jobs) && -1 <= i <= k < |jobs|
    ensures 0 <= EndTime(jobs, i) <= EndTime(jobs, k)
    ensures i < k ==> EndTime(jobs, i) < EndTime(jobs, k)
    decreases k - i, k + 1
  {
    if i < k {
      EndTimesIncrease(jobs, i, k - 1);
    } else if k >= 0 {
      EndTimesIncrease(jobs, k - 1, k - 1);
    }
  }

  /** What the counter of process k should show at clock value t. */
  function Progress(jobs: seq<Job>, k: int, t: int): int
    requires 0 <= k < |jobs|
  {
    if t <= StartTime(jobs, k) then 0
    else if t >= EndTime(jobs, k) then jobs[k].exec
    else t - StartTime(jobs, k)
  }

  ghost predicate OnProgress(jobs: seq<Job>, tr: seq<int>) {
    forall k | 0 <= k < |jobs| :: Served(tr, k) == Progress(jobs, k, |tr|)
  }

  /** With counters as the closed form says, a process is live from its release to its end. */
  lemma LiveUntilEnd(jobs: seq<Job>, tr: seq<int>, k: int)
    requires WellFormed(jobs) && OnProgress(jobs, tr) && 0 <= k < |jobs|
    ensures Live(jobs, tr, k) <==> jobs[k].ready <= |tr| < EndTime(jobs, k)
  {
    EndTimesIncrease(jobs, k - 1, k);
  }

  lemma LowestLiveInInterval(jobs: seq<Job>, past: seq<int>, k: int)
    requires WellFormed(jobs) && OnProgress(jobs, past)
    requires 0 <= k < |jobs| && StartTime(jobs, k) <= |past|
    ensures forall i | 0 <= i < |jobs| && Live(jobs, past, i) :: k <= i
  {
    forall i | 0 <= i < |jobs| && Live(jobs, past, i) ensures k <= i {
      LiveUntilEnd(jobs, past, i);
      if i < k { EndTimesIncrease(jobs, i, k - 1); }
    }
  }

  /** A process in its interval is the one that runs. */
  lemma RunsInInterval(jobs: seq<Job>, past: seq<int>, x: int, k: int)
    requires WellFormed(jobs) && SortedByReady(jobs) && OnProgress(jobs, past)
    requires past != [] ==> RunsByClosedForm(jobs, past[|past| - 1], |past| - 1)
    requires MayRun(Fifo, jobs, past, x)
    requires 0 <= k < |jobs| && StartTime(jobs, k) <= |past| < EndTime(jobs, k)
    ensures x == k
  {
    LiveUntilEnd(jobs, past, k);
    LowestLiveInInterval(jobs, past, k);
    var cur := Current(jobs, past);
    if cur > k {
      EndTimesIncrease(jobs, k, cur - 1);
    } else if cur == IDLE {
      assert EarliestReleased(jobs, past, x);
      assert Precedes(jobs[x].ready, x, jobs[k].ready, k);
    }
  }

  ghost predicate RunsByClosedForm(jobs: seq<Job>, x: int, t: int) {
    forall k | 0 <= k < |jobs| :: x == k <==> StartTime(jobs, k) <= t < EndTime(jobs, k)
  }

  /** If a live process is not yet in its interval, an earlier one is. */
  lemma {:induction false} SomeoneEarlierRuns(jobs: seq<Job>, t: int, k: int) returns (m: int)
    requires WellFormed(jobs) && SortedByReady(jobs) && 0 <= k < |jobs|
    requires jobs[k].ready <= t < StartTime(jobs, k)
    ensures 0 <= m < k && StartTime(jobs, m) <= t < EndTime(jobs, m)
    decreases k
  {
    m := k - 1;
    if StartTime(jobs, m) > t {
      m := SomeoneEarlierRuns(jobs, t, m);
    }
  }

  lemma {:induction false} FifoOnProgress(jobs: seq<Job>, tr: seq<int>)
    requires WellFormed(jobs) && SortedByReady(jobs) && Obeys(Fifo, jobs, tr)
    ensures OnProgress(jobs, tr)
    ensures tr != [] ==> RunsByClosedForm(jobs, tr[|tr| - 1], |tr| - 1)
  {
    if tr == [] {
      forall k | 0 <= k < |jobs| ensures Progress(jobs, k, 0) == 0 {
        EndTimesIncrease(jobs, k - 1, k);
      }
    } else {
      var past, x := tr[..|tr| - 1], tr[|tr| - 1];
      FifoOnProgress(jobs, past);
      FifoTickByClosedForm(jobs, past, x);
      forall k | 0 <= k < |jobs| ensures Served(tr, k) == Progress(jobs, k, |tr|) {
        EndTimesIncrease(jobs, k - 1, k);
        assert Served(past, k) == Progress(jobs, k, |past|);
      }
    }
  }

  lemma FifoTickByClosedForm(jobs: seq<Job>, past: seq<int>, x: int)
    requires WellFormed(jobs) && SortedByReady(jobs) && OnProgress(jobs, past)
    requires past != [] ==> RunsByClosedForm(jobs, past[|past| - 1], |past| - 1)
    requires MayRun(Fifo, jobs, past, x)
    ensures RunsByClosedForm(jobs, x, |past|)
  {
    forall k | 0 <= k < |jobs|
      ensures x == k <==> StartTime(jobs, k) <= |past| < EndTime(jobs, k)
    {
      if StartTime(jobs, k) <= |past| < EndTime(jobs, k) {
        RunsInInterval(jobs, past, x, k);
      } else if x == k {
        LiveUntilEnd(jobs, past, k);
        var m := SomeoneEarlierRuns(jobs, |past|, k);
        RunsInInterval(jobs, past, x, m);
      }
    }
  }

  /** The Fifo schedule of a sorted table is the closed form: process k holds the CPU exactly in the
      ticks from StartTime to EndTime, in index order. */
  lemma FifoClosedForm(jobs: seq<Job>, tr: seq<int>, t: int, k: int)
    requires WellFormed(jobs) && SortedByReady(jobs) && Obeys(Fifo, jobs, tr)
    requires 0 <= t < |tr| && 0 <= k < |jobs|
    ensures tr[t] == k <==> StartTime(jobs, k) <= t < EndTime(jobs, k)
  {
    ObeysPrefix(Fifo, jobs, tr, t + 1);
    FifoOnProgress(jobs, tr[..t + 1]);
    assert RunsByClosedForm(jobs, tr[..t + 1][t], t);
  }

  /** Completion times: C_k = max(C_{k-1}, ready_k) + exec_k, and the clock stops at the last one. */
  lemma FifoCompletion(jobs: seq<Job>, tr: seq<int>, k: int)
    requires WellFormed(jobs) && SortedByReady(jobs) && Obeys(Fifo, jobs, tr) && FirstDone(jobs, tr)
    requires 0 <= k < |jobs|
    ensures Completion(jobs, tr, k) == EndTime(jobs, k)
    ensures |tr| == EndTime(jobs, |jobs| - 1)
  {
    PolicyIsWorkConserving(Fifo, jobs, tr);
    EndTimesIncrease(jobs, k - 1, k);
    EndTimesIncrease(jobs, k, |jobs| - 1);
    FifoDoneAt(jobs, tr, |tr|);
    FifoDoneAt(jobs, tr, EndTime(jobs, |jobs| - 1));
    FifoLeft(jobs, tr, k);
    CompletionIsFirstZero(jobs, tr, k, EndTime(jobs, k));
  }

  lemma FifoLeft(jobs: seq<Job>, tr: seq<int>, k: int)
    requires WellFormed(jobs) && SortedByReady(jobs) && Obeys(Fifo, jobs, tr) && 0 <= k < |jobs|
    ensures forall c | 0 <= c <= |tr| :: Left(jobs, tr[..c], k) == 0 <==> c >= EndTime(jobs, k)
    ensures forall c | 0 <= c <= |tr| :: Left(jobs, tr[..c], k) >= 0
  {
    forall c | 0 <= c <= |tr|
      ensures Left(jobs, tr[..c], k) == 0 <==> c >= EndTime(jobs, k)
      ensures Left(jobs, tr[..c], k) >= 0
    {
      ObeysPrefix(Fifo, jobs, tr, c);
      FifoOnProgress(jobs, tr[..c]);
      EndTimesIncrease(jobs, k - 1, k);
      assert Served(tr[..c], k) == Progress(jobs, k, c);
    }
  }

  lemma FifoDoneAt(jobs: seq<Job>, tr: seq<int>, c: int)
    requires WellFormed(jobs) && SortedByReady(jobs) && Obeys(Fifo, jobs, tr) && |jobs| > 0
    ensures 0 <= c <= |tr| ==> (AllDone(jobs, tr[..c]) <==> c >= EndTime(jobs, |jobs| - 1))
    ensures tr[..|tr|] == tr
  {
    if 0 <= c <= |tr| {
      forall k | 0 <= k < |jobs| ensures c >= EndTime(jobs, |jobs| - 1) ==> Left(jobs, tr[..c], k) == 0 {
        FifoLeft(jobs, tr, k);
        EndTimesIncrease(jobs, k, |jobs| - 1);
      }
      FifoLeft(jobs, tr, |jobs| - 1);
    }
  }

  // ---------------------------------------------------------------- round robin with short jobs

  /** A process has run in every tick of the block that it is holding. */
  lemma {:induction false} BlockIsServed(tr: seq<int>)
    requires tr != []
    ensures Served(tr, tr[|tr| - 1]) >= |tr| - BlockStart(tr)
  {
    var n := |tr| - 1;
    if n > 0 && tr[n - 1] == tr[n] {
      BlockIsServed(tr[..n]);
    }
  }

  lemma ShortJobsSamePick(jobs: seq<Job>, past: seq<int>, x: int, y: int)
    requires SortedByReady(jobs)
    requires forall i | 0 <= i < |jobs| :: jobs[i].exec <= 500
    requires MayRun(Fifo, jobs, past, x) && MayRun(RoundRobin, jobs, past, y)
    ensures x == y
  {
    var cur := Current(jobs, past);
    if !NoneLive(jobs, past) {
      if cur != IDLE {
        BlockIsServed(past);
        assert 0 < |past| - BlockStart(past) < QUANTUM;
      } else {
        assert Precedes(jobs[x].ready, x, jobs[y].ready, y);
        assert y <= x;
      }
    }
  }

  /** If no process needs more than one quantum, round robin and first come first served run the
      same process in every tick, a job of exactly one quantum included. */
  lemma {:induction false} ShortJobsMakeRoundRobinFifo(jobs: seq<Job>, f: seq<int>, r: seq<int>)
    requires SortedByReady(jobs)
    requires forall i | 0 <= i < |jobs| :: jobs[i].exec <= 500
    requires Obeys(Fifo, jobs, f) && Obeys(RoundRobin, jobs, r) && |f| == |r|
    ensures f == r
  {
    if f == [] {
    } else {
      var n := |f| - 1;
      ShortJobsMakeRoundRobinFifo(jobs, f[..n], r[..n]);
      ShortJobsSamePick(jobs, f[..n], f[n], r[n]);
      SamePastSameTick(f, r);
    }
  }
}

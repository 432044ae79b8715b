/** Work conservation: how much released work is left does not depend on the policy. */
module Workload {
  import opened Sums
  import opened Schedules

  /** Work released at clock value t. */
  function Arrivals(jobs: seq<Job>, t: int): int {
    Sum(seq(|jobs|, i requires 0 <= i < |jobs| => if jobs[i].ready == t then jobs[i].exec else 0))
  }

  /** The work of a single server before tick t: what arrives is added, one unit a tick is removed. */
  function Backlog(jobs: seq<Job>, t: nat): nat {
    if t == 0 then 0 else Max(Backlog(jobs, t - 1) + Arrivals(jobs, t - 1) - 1, 0)
  }

  /** The counters of the processes released before clock value `now`. */
  function ReleasedLeft(jobs: seq<Job>, tr: seq<int>, now: int): (s: seq<int>)
    ensures |s| == |jobs|
  {
    seq(|jobs|, i requires 0 <= i < |jobs| => if jobs[i].ready < now then Left(jobs, tr, i) else 0)
  }

  /** Unfinished work of the processes released during the ticks of tr. */
  function Pending(jobs: seq<Job>, tr: seq<int>): int {
    Sum(ReleasedLeft(jobs, tr, |tr|))
  }

  lemma ArrivalsAreUnserved(jobs: seq<Job>, tr: seq<int>)
    requires WellFormed(jobs) && Obeys(AnyValid, jobs, tr)
    ensures Sum(ReleasedLeft(jobs, tr, |tr| + 1)) == Pending(jobs, tr) + Arrivals(jobs, |tr|)
  {
    var arriving := seq(|jobs|, i requires 0 <= i < |jobs| => if jobs[i].ready == |tr| then jobs[i].exec else 0);
    var after := ReleasedLeft(jobs, tr, |tr| + 1);
    forall i | 0 <= i < |jobs| ensures after[i] == ReleasedLeft(jobs, tr, |tr|)[i] + arriving[i] {
      ValidCounters(jobs, tr, i);
    }
    SumPlus(ReleasedLeft(jobs, tr, |tr|), arriving, after);
  }

  /** One tick takes one unit from the released work exactly when it is not idle. */
  lemma TickUsesOneUnit(jobs: seq<Job>, past: seq<int>, x: int)
    requires WellFormed(jobs) && Obeys(AnyValid, jobs, past) && MayRun(AnyValid, jobs, past, x)
    ensures Pending(jobs, past + [x])
         == Pending(jobs, past) + Arrivals(jobs, |past|) - if x == IDLE then 0 else 1
  {
    ArrivalsAreUnserved(jobs, past);
    var before := ReleasedLeft(jobs, past, |past| + 1);
    var after := ReleasedLeft(jobs, past + [x], |past| + 1);
    forall i | 0 <= i < |jobs| ensures after[i] == before[i] - if i == x then 1 else 0 {
      ServedSnoc(past, x, i);
    }
    if x == IDLE {
      SumEqual(before, after);
    } else {
      SumChangedAt(before, after, x);
    }
  }

  /** A tick finds released work if it is used, and a work-conserving tick idles only without any. */
  lemma TickFindsWork(jobs: seq<Job>, past: seq<int>, x: int)
    requires WellFormed(jobs) && Obeys(AnyValid, jobs, past) && MayRun(AnyValid, jobs, past, x)
    ensures Pending(jobs, past) + Arrivals(jobs, |past|) >= if x == IDLE then 0 else 1
    ensures x == IDLE && MayRun(WorkConserving, jobs, past, x)
        ==> Pending(jobs, past) + Arrivals(jobs, |past|) == 0
  {
    ArrivalsAreUnserved(jobs, past);
    var released := ReleasedLeft(jobs, past, |past| + 1);
    forall i | 0 <= i < |jobs| ensures released[i] >= 0 { ValidCounters(jobs, past, i); }
    SumNonNegative(released);
    if x != IDLE {
      assert released[x] >= 1;
    } else if MayRun(WorkConserving, jobs, past, x) {
      forall i | 0 <= i < |jobs| ensures released[i] == 0 {
        assert !Live(jobs, past, i);
      }
      SumAllZero(released);
    }
  }

  lemma NothingPendingAtStart(jobs: seq<Job>)
    requires WellFormed(jobs)
    ensures Pending(jobs, []) == 0
  {
    SumAllZero(ReleasedLeft(jobs, [], 0));
  }

  /** The released work left at a clock value is at least the single-server backlog. */
  lemma {:induction false} PendingAtLeastBacklog(jobs: seq<Job>, tr: seq<int>)
    requires WellFormed(jobs) && Obeys(AnyValid, jobs, tr)
    ensures Pending(jobs, tr) >= Backlog(jobs, |tr|)
  {
    if tr == [] {
      NothingPendingAtStart(jobs);
    } else {
      var past, x := tr[..|tr| - 1], tr[|tr| - 1];
      PendingAtLeastBacklog(jobs, past);
      TickUsesOneUnit(jobs, past, x);
      TickFindsWork(jobs, past, x);
      assert tr == past + [x];
    }
  }

  /** For a work-conserving schedule it is exactly that backlog, whatever the policy. */
  lemma {:induction false} PendingIsBacklog(jobs: seq<Job>, tr: seq<int>)
    requires WellFormed(jobs) && Obeys(WorkConserving, jobs, tr)
    ensures Pending(jobs, tr) == Backlog(jobs, |tr|)
  {
    if tr == [] {
      NothingPendingAtStart(jobs);
    } else {
      var past, x := tr[..|tr| - 1], tr[|tr| - 1];
      PolicyIsWorkConserving(WorkConserving, jobs, past);
      PendingIsBacklog(jobs, past);
      TickUsesOneUnit(jobs, past, x);
      TickFindsWork(jobs, past, x);
      assert tr == past + [x];
    }
  }

  lemma PendingNonNegative(jobs: seq<Job>, tr: seq<int>)
    requires WellFormed(jobs) && Obeys(AnyValid, jobs, tr)
    ensures Pending(jobs, tr) >= 0
    ensures Pending(jobs, tr) == 0
        <==> forall i | 0 <= i < |jobs| && jobs[i].ready < |tr| :: Left(jobs, tr, i) == 0
  {
    var s := ReleasedLeft(jobs, tr, |tr|);
    forall i | 0 <= i < |jobs| ensures s[i] >= 0 { ValidCounters(jobs, tr, i); }
    SumNonNegative(s);
    if Pending(jobs, tr) == 0 {
      forall i | 0 <= i < |jobs| && jobs[i].ready < |tr| ensures Left(jobs, tr, i) == 0 {
        assert s[i] == Left(jobs, tr, i);
      }
    } else if forall i | 0 <= i < |jobs| && jobs[i].ready < |tr| :: Left(jobs, tr, i) == 0 {
      SumAllZero(s);
    }
  }

  /** No policy involved: by clock value t everything is released and a single server has caught up. */
  ghost predicate Drained(jobs: seq<Job>, t: nat) {
    Backlog(jobs, t) == 0 && forall i | 0 <= i < |jobs| :: jobs[i].ready < t
  }

  /** Whether a work-conserving schedule has finished everything depends on the clock alone; no
      valid schedule is done earlier. */
  lemma DoneIffDrained(jobs: seq<Job>, tr: seq<int>)
    requires WellFormed(jobs) && Obeys(AnyValid, jobs, tr)
    ensures AllDone(jobs, tr) ==> Drained(jobs, |tr|)
    ensures Obeys(WorkConserving, jobs, tr) ==> (AllDone(jobs, tr) <==> Drained(jobs, |tr|))
  {
    PendingAtLeastBacklog(jobs, tr);
    if Obeys(WorkConserving, jobs, tr) {
      PendingIsBacklog(jobs, tr);
    }
    PendingNonNegative(jobs, tr);
    forall i | 0 <= i < |jobs| && Left(jobs, tr, i) == 0 ensures jobs[i].ready < |tr| {
      ValidCounters(jobs, tr, i);
    }
  }

  /** All work-conserving schedules of the same jobs end at the same clock value. */
  lemma SameExitClock(jobs: seq<Job>, a: seq<int>, b: seq<int>)
    requires WellFormed(jobs)
    requires Obeys(WorkConserving, jobs, a) && FirstDone(jobs, a)
    requires Obeys(WorkConserving, jobs, b) && FirstDone(jobs, b)
    ensures |a| == |b|
  {
    PolicyIsWorkConserving(WorkConserving, jobs, a);
    PolicyIsWorkConserving(WorkConserving, jobs, b);
    if |a| < |b| {
      NotDoneSooner(jobs, a, b);
    } else if |b| < |a| {
      NotDoneSooner(jobs, b, a);
    }
  }

  /** A work-conserving schedule exits no later than any valid schedule that finishes everything. */
  lemma NotDoneSooner(jobs: seq<Job>, q: seq<int>, p: seq<int>)
    requires WellFormed(jobs)
    requires Obeys(AnyValid, jobs, q) && AllDone(jobs, q)
    requires Obeys(WorkConserving, jobs, p) && FirstDone(jobs, p)
    ensures |p| <= |q|
  {
    if |q| < |p| {
      assert !AllDone(jobs, p[..|q|]);
      DoneIffDrained(jobs, q);
      ObeysPrefix(WorkConserving, jobs, p, |q|);
      PolicyIsWorkConserving(WorkConserving, jobs, p[..|q|]);
      DoneIffDrained(jobs, p[..|q|]);
    }
  }

  /** At every clock value two work-conserving schedules have the same released work left. */
  lemma SamePendingWork(jobs: seq<Job>, a: seq<int>, b: seq<int>)
    requires WellFormed(jobs) && |a| == |b|
    requires Obeys(WorkConserving, jobs, a) && Obeys(WorkConserving, jobs, b)
    ensures Pending(jobs, a) == Pending(jobs, b)
  {
    PendingIsBacklog(jobs, a);
    PendingIsBacklog(jobs, b);
  }

  // ---------------------------------------------------------------- bounds on the exit clock

  function Execs(jobs: seq<Job>): (s: seq<int>)
    ensures |s| == |jobs|
  {
    seq(|jobs|, i requires 0 <= i < |jobs| => jobs[i].exec)
  }

  function TotalExec(jobs: seq<Job>): int {
    Sum(Execs(jobs))
  }

  function LatestReady(jobs: seq<Job>): nat {
    if jobs == [] then 0 else Max(LatestReady(jobs[..|jobs| - 1]), jobs[|jobs| - 1].ready)
  }

  lemma {:induction false} LatestReadyIsLatest(jobs: seq<Job>)
    ensures forall i | 0 <= i < |jobs| :: jobs[i].ready <= LatestReady(jobs)
    ensures LatestReady(jobs) == 0 || exists i | 0 <= i < |jobs| :: jobs[i].ready == LatestReady(jobs)
  {
    if jobs == [] {
    } else {
      var n := |jobs| - 1;
      LatestReadyIsLatest(jobs[..n]);
      forall i | 0 <= i < |jobs| ensures jobs[i].ready <= LatestReady(jobs) {
        if i < n { assert jobs[..n][i] == jobs[i]; }
      }
      if LatestReady(jobs) != jobs[n].ready && LatestReady(jobs) != 0 {
        var i :| 0 <= i < n && jobs[..n][i].ready == LatestReady(jobs[..n]);
        assert jobs[i].ready == LatestReady(jobs);
      }
    }
  }

  function IdleTicks(tr: seq<int>): nat {
    if tr == [] then 0
    else IdleTicks(tr[..|tr| - 1]) + if tr[|tr| - 1] == IDLE then 1 else 0
  }

  function Lefts(jobs: seq<Job>, tr: seq<int>): (s: seq<int>)
    ensures |s| == |jobs|
  {
    seq(|jobs|, i requires 0 <= i < |jobs| => Left(jobs, tr, i))
  }

  /** Every tick is idle or takes one unit off exactly one counter. */
  lemma {:induction false} WorkIsConserved(jobs: seq<Job>, tr: seq<int>)
    requires Obeys(AnyValid, jobs, tr)
    ensures Sum(Lefts(jobs, tr)) + |tr| == TotalExec(jobs) + IdleTicks(tr)
  {
    if tr == [] {
      SumEqual(Lefts(jobs, tr), Execs(jobs));
    } else {
      var past, x := tr[..|tr| - 1], tr[|tr| - 1];
      WorkIsConserved(jobs, past);
      if x == IDLE {
        SumEqual(Lefts(jobs, past), Lefts(jobs, tr));
      } else {
        SumChangedAt(Lefts(jobs, past), Lefts(jobs, tr), x);
      }
    }
  }

  /** A work-conserving schedule idles only while a release is still to come. */
  lemma {:induction false} IdleOnlyBeforeLastRelease(jobs: seq<Job>, tr: seq<int>)
    requires WellFormed(jobs) && Obeys(WorkConserving, jobs, tr)
    requires forall k | 0 <= k < |tr| :: !AllDone(jobs, tr[..k])
    ensures IdleTicks(tr) <= LatestReady(jobs) && IdleTicks(tr) <= |tr|
  {
    if tr == [] {
    } else {
      var past := tr[..|tr| - 1];
      forall k | 0 <= k < |past| ensures !AllDone(jobs, past[..k]) {
        assert past[..k] == tr[..k];
      }
      IdleOnlyBeforeLastRelease(jobs, past);
      if tr[|tr| - 1] == IDLE {
        PolicyIsWorkConserving(WorkConserving, jobs, past);
        var i :| 0 <= i < |jobs| && Left(jobs, past, i) != 0;
        ValidCounters(jobs, past, i);
        assert !Live(jobs, past, i);
        assert jobs[i].ready > |past|;
        LatestReadyIsLatest(jobs);
      }
    }
  }

  /** While work is left, a work-conserving clock is below the last release plus the total work. */
  lemma ClockBound(jobs: seq<Job>, tr: seq<int>)
    requires WellFormed(jobs) && Obeys(WorkConserving, jobs, tr)
    requires !AllDone(jobs, tr)
    ensures |tr| < LatestReady(jobs) + TotalExec(jobs)
  {
    PolicyIsWorkConserving(WorkConserving, jobs, tr);
    forall k | 0 <= k < |tr| ensures !AllDone(jobs, tr[..k]) {
      FinishedStays(jobs, tr, k);
    }
    IdleOnlyBeforeLastRelease(jobs, tr);
    WorkIsConserved(jobs, tr);
    var s := Lefts(jobs, tr);
    forall i | 0 <= i < |jobs| ensures s[i] >= 0 { ValidCounters(jobs, tr, i); }
    SumNonNegative(s);
    var i :| 0 <= i < |jobs| && Left(jobs, tr, i) != 0;
    assert s[i] >= 1;
  }

  /** The exit clock lies between the total work and the last release plus the total work. */
  lemma ExitClockBounds(jobs: seq<Job>, tr: seq<int>)
    requires WellFormed(jobs) && Obeys(WorkConserving, jobs, tr) && FirstDone(jobs, tr)
    ensures TotalExec(jobs) <= |tr| <= LatestReady(jobs) + TotalExec(jobs)
  {
    PolicyIsWorkConserving(WorkConserving, jobs, tr);
    WorkIsConserved(jobs, tr);
    SumAllZero(Lefts(jobs, tr));
    IdleOnlyBeforeLastRelease(jobs, tr);
  }
}

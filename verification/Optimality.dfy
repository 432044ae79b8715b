/** Running the process with the least left to do is optimal: at every clock value it has finished
    at least as many processes as any valid schedule, and so its completion times add up to the
    least possible total. */
module Optimality {
  import opened Sums
  import opened Schedules
  import opened Workload

  /** The processes released during the first t ticks. */
  ghost function ReleasedBefore(jobs: seq<Job>, t: int): set<int> {
    set i | 0 <= i < |jobs| && jobs[i].ready < t
  }

  /** Work left on the processes in S. */
  function LeftOn(jobs: seq<Job>, tr: seq<int>, S: set<int>): int {
    Sum(Mask(Lefts(jobs, tr), S))
  }

  lemma LeftOnTick(jobs: seq<Job>, past: seq<int>, x: int, S: set<int>)
    requires x == IDLE || 0 <= x < |jobs|
    ensures LeftOn(jobs, past + [x], S) == LeftOn(jobs, past, S) - if x != IDLE && x in S then 1 else 0
  {
    var before, after := Mask(Lefts(jobs, past), S), Mask(Lefts(jobs, past + [x]), S);
    forall i | 0 <= i < |jobs| ensures after[i] == before[i] - if i == x && i in S then 1 else 0 {
      ServedSnoc(past, x, i);
    }
    if x == IDLE {
      SumEqual(before, after);
    } else {
      SumChangedAt(before, after, x);
    }
  }

  lemma LeftOnIsZero(jobs: seq<Job>, tr: seq<int>, S: set<int>)
    requires WellFormed(jobs) && Obeys(AnyValid, jobs, tr)
    ensures LeftOn(jobs, tr, S) >= 0
    ensures LeftOn(jobs, tr, S) == 0 <==> forall i | 0 <= i < |jobs| && i in S :: Left(jobs, tr, i) == 0
  {
    var s := Mask(Lefts(jobs, tr), S);
    forall i | 0 <= i < |jobs| ensures s[i] >= 0 { ValidCounters(jobs, tr, i); }
    SumNonNegative(s);
    if LeftOn(jobs, tr, S) == 0 {
      forall i | 0 <= i < |jobs| && i in S ensures Left(jobs, tr, i) == 0 {
        assert s[i] == Left(jobs, tr, i);
      }
    } else if forall i | 0 <= i < |jobs| && i in S :: Left(jobs, tr, i) == 0 {
      SumAllZero(s);
    }
  }

  /** Swapping one member of a set for another. */
  lemma LeftOnSwap(jobs: seq<Job>, tr: seq<int>, S: set<int>, gone: int, come: int)
    requires 0 <= gone < |jobs| && 0 <= come < |jobs| && gone in S && come !in S
    ensures |S - {gone} + {come}| == |S|
    ensures LeftOn(jobs, tr, S - {gone} + {come})
         == LeftOn(jobs, tr, S) - Left(jobs, tr, gone) + Left(jobs, tr, come)
  {
    var s := Lefts(jobs, tr);
    var core := S - {gone};
    SumChangedAt(Mask(s, core), Mask(s, S), gone);
    SumChangedAt(Mask(s, core), Mask(s, core + {come}), come);
  }

  /** One tick of Psjf against one tick of anything. T is a set on which Psjf has no more left than q
      has on S; afterwards some set of the same size still has that property. */
  lemma TickKeepsDominance(jobs: seq<Job>, p: seq<int>, x: int, q: seq<int>, y: int, S: set<int>, T: set<int>)
    returns (U: set<int>)
    requires WellFormed(jobs) && |p| == |q|
    requires Obeys(AnyValid, jobs, p) && MayRun(Psjf, jobs, p, x)
    requires Obeys(AnyValid, jobs, q) && MayRun(AnyValid, jobs, q, y)
    requires S <= ReleasedBefore(jobs, |p| + 1) && T <= ReleasedBefore(jobs, |p| + 1)
    requires |T| == |S| && LeftOn(jobs, p, T) <= LeftOn(jobs, q, S)
    ensures U <= ReleasedBefore(jobs, |p| + 1) && |U| == |S|
    ensures LeftOn(jobs, p + [x], U) <= LeftOn(jobs, q + [y], S)
  {
    LeftOnTick(jobs, q, y, S);
    LeftOnIsZero(jobs, p, T);
    if forall i | 0 <= i < |jobs| && i in T :: Left(jobs, p, i) == 0 {
      U := T;
      LeftOnTick(jobs, p, x, T);
      ObeysSnoc(AnyValid, jobs, q, y);
      LeftOnIsZero(jobs, q + [y], S);
    } else {
      var i :| 0 <= i < |jobs| && i in T && Left(jobs, p, i) != 0;
      ValidCounters(jobs, p, i);
      assert Live(jobs, p, i);
      assert Live(jobs, p, x);
      if x in T {
        U := T;
      } else {
        U := T - {i} + {x};
        LeftOnSwap(jobs, p, T, i, x);
      }
      LeftOnTick(jobs, p, x, U);
    }
  }

  /** Processes that arrive together still have all their work under both schedules. */
  lemma ArrivalsKeepDominance(jobs: seq<Job>, p: seq<int>, q: seq<int>, S: set<int>, T0: set<int>)
    returns (T: set<int>)
    requires WellFormed(jobs) && |p| == |q|
    requires Obeys(AnyValid, jobs, p) && Obeys(AnyValid, jobs, q)
    requires S <= ReleasedBefore(jobs, |p| + 1) && T0 <= ReleasedBefore(jobs, |p|)
    requires |T0| == |S * ReleasedBefore(jobs, |p|)|
    requires LeftOn(jobs, p, T0) <= LeftOn(jobs, q, S * ReleasedBefore(jobs, |p|))
    ensures T <= ReleasedBefore(jobs, |p| + 1) && |T| == |S|
    ensures LeftOn(jobs, p, T) <= LeftOn(jobs, q, S)
  {
    var S0 := S * ReleasedBefore(jobs, |p|);
    var N := S - S0;
    T := T0 + N;
    assert S == S0 + N;
    MaskUnion(Lefts(jobs, p), T0, N);
    MaskUnion(Lefts(jobs, q), S0, N);
    forall i | 0 <= i < |jobs| && i in N ensures Left(jobs, p, i) == Left(jobs, q, i) {
      ValidCounters(jobs, p, i);
      ValidCounters(jobs, q, i);
    }
    SumEqual(Mask(Lefts(jobs, p), N), Mask(Lefts(jobs, q), N));
  }

  /** A whole tick, arrivals first. */
  lemma StepKeepsDominance(jobs: seq<Job>, p: seq<int>, x: int, q: seq<int>, y: int, S: set<int>, T0: set<int>)
    returns (T: set<int>)
    requires WellFormed(jobs) && |p| == |q|
    requires Obeys(AnyValid, jobs, p) && MayRun(Psjf, jobs, p, x)
    requires Obeys(AnyValid, jobs, q) && MayRun(AnyValid, jobs, q, y)
    requires S <= ReleasedBefore(jobs, |p| + 1) && T0 <= ReleasedBefore(jobs, |p|)
    requires |T0| == |S * ReleasedBefore(jobs, |p|)|
    requires LeftOn(jobs, p, T0) <= LeftOn(jobs, q, S * ReleasedBefore(jobs, |p|))
    ensures T <= ReleasedBefore(jobs, |p| + 1) && |T| == |S|
    ensures LeftOn(jobs, p + [x], T) <= LeftOn(jobs, q + [y], S)
  {
    var T1 := ArrivalsKeepDominance(jobs, p, q, S, T0);
    T := TickKeepsDominance(jobs, p, x, q, y, S, T1);
  }

  /** For every set of released processes there is one of the same size on which Psjf has no more
      work left than any valid schedule q has on the given set. */
  lemma {:induction false} ShortestLeftDominates(jobs: seq<Job>, p: seq<int>, q: seq<int>, S: set<int>)
    returns (T: set<int>)
    requires WellFormed(jobs) && |p| == |q|
    requires Obeys(Psjf, jobs, p) && Obeys(AnyValid, jobs, q)
    requires S <= ReleasedBefore(jobs, |p|)
    ensures T <= ReleasedBefore(jobs, |p|) && |T| == |S|
    ensures LeftOn(jobs, p, T) <= LeftOn(jobs, q, S)
    decreases |p|
  {
    if p == [] {
      assert forall i :: i !in S;
      T := S;
    } else {
      var n := |p| - 1;
      var p0, q0 := p[..n], q[..n];
      assert p == p0 + [p[n]] && q == q0 + [q[n]];
      var T0 := ShortestLeftDominates(jobs, p0, q0, S * ReleasedBefore(jobs, n));
      PolicyIsWorkConserving(Psjf, jobs, p0);
      T := StepKeepsDominance(jobs, p0, p[n], q0, q[n], S, T0);
    }
  }

  /** Tick-by-tick optimality: no valid schedule has finished more processes by the same time. */
  lemma PsjfFinishesMost(jobs: seq<Job>, p: seq<int>, q: seq<int>)
    requires WellFormed(jobs) && |p| == |q|
    requires Obeys(Psjf, jobs, p) && Obeys(AnyValid, jobs, q)
    ensures |Finished(jobs, p)| >= |Finished(jobs, q)|
  {
    var S := Finished(jobs, q);
    forall i | i in S ensures i in ReleasedBefore(jobs, |q|) { ValidCounters(jobs, q, i); }
    var T := ShortestLeftDominates(jobs, p, q, S);
    PolicyIsWorkConserving(Psjf, jobs, p);
    LeftOnIsZero(jobs, q, S);
    LeftOnIsZero(jobs, p, T);
    SubsetSize(T, Finished(jobs, p));
  }

  /** What one tick does to the number of finished processes. */
  lemma FinishedTick(jobs: seq<Job>, past: seq<int>, x: int)
    requires x == IDLE || Live(jobs, past, x)
    ensures |Finished(jobs, past + [x])|
         == |Finished(jobs, past)| + if x != IDLE && Left(jobs, past + [x], x) == 0 then 1 else 0
  {
    forall i | 0 <= i < |jobs| ensures Served(past + [x], i) == Served(past, i) + if i == x then 1 else 0 {
      ServedSnoc(past, x, i);
    }
    var before, after := Finished(jobs, past), Finished(jobs, past + [x]);
    if x != IDLE && Left(jobs, past + [x], x) == 0 {
      assert after == before + {x};
    } else {
      assert after == before;
    }
  }

  // ---------------------------------------------------------------- completion times

  /** The clock value at which process i finishes: the first prefix of tr in which nothing of it is left. */
  function Completion(jobs: seq<Job>, tr: seq<int>, i: int): nat
    requires 0 <= i < |jobs|
  {
    if tr == [] || Left(jobs, tr[..|tr| - 1], i) > 0 then |tr|
    else Completion(jobs, tr[..|tr| - 1], i)
  }

  function Completions(jobs: seq<Job>, tr: seq<int>): (s: seq<int>)
    ensures |s| == |jobs|
  {
    seq(|jobs|, i requires 0 <= i < |jobs| => Completion(jobs, tr, i))
  }

  function TotalCompletion(jobs: seq<Job>, tr: seq<int>): int {
    Sum(Completions(jobs, tr))
  }

  /** Completion is the first time the counter reads 0. */
  lemma {:induction false} CompletionIsFirstZero(jobs: seq<Job>, tr: seq<int>, i: int, c: int)
    requires WellFormed(jobs) && Obeys(AnyValid, jobs, tr) && 0 <= i < |jobs| && 0 <= c <= |tr|
    requires Left(jobs, tr, i) == 0
    ensures c == Completion(jobs, tr, i)
        <==> Left(jobs, tr[..c], i) == 0 && forall k | 0 <= k < c :: Left(jobs, tr[..k], i) > 0
  {
    var n := |tr| - 1;
    assert tr != [];
    ValidCounters(jobs, tr[..n], i);
    assert forall k | 0 <= k <= n :: tr[..n][..k] == tr[..k];
    if Left(jobs, tr[..n], i) == 0 {
      if c <= n {
        CompletionIsFirstZero(jobs, tr[..n], i, c);
      } else {
        CompletionAtMost(jobs, tr[..n], i);
      }
    } else {
      assert tr[..|tr|] == tr;
      forall k | 0 <= k < |tr| ensures Left(jobs, tr[..k], i) > 0 {
        ServedMonotone(tr[..n], k, i);
      }
    }
  }

  lemma {:induction false} CompletionAtMost(jobs: seq<Job>, tr: seq<int>, i: int)
    requires 0 <= i < |jobs|
    ensures Completion(jobs, tr, i) <= |tr|
  {
    if tr == [] {
    } else {
      CompletionAtMost(jobs, tr[..|tr| - 1], i);
    }
  }

  /** For each clock value before |tr|, the number of processes not finished by then, added up. */
  ghost function UnfinishedOverTime(jobs: seq<Job>, tr: seq<int>): int {
    if tr == [] then 0
    else UnfinishedOverTime(jobs, tr[..|tr| - 1]) + |jobs| - |Finished(jobs, tr[..|tr| - 1])|
  }

  /** How long process i has been unfinished. */
  function Age(jobs: seq<Job>, tr: seq<int>, i: int): nat
    requires 0 <= i < |jobs|
  {
    if tr == [] then 0
    else Age(jobs, tr[..|tr| - 1], i) + if Left(jobs, tr[..|tr| - 1], i) == 0 then 0 else 1
  }

  function Ages(jobs: seq<Job>, tr: seq<int>): (s: seq<int>)
    ensures |s| == |jobs|
  {
    seq(|jobs|, i requires 0 <= i < |jobs| => Age(jobs, tr, i))
  }

  lemma {:induction false} AgesAddUp(jobs: seq<Job>, tr: seq<int>)
    ensures Sum(Ages(jobs, tr)) == UnfinishedOverTime(jobs, tr)
  {
    if tr == [] {
      SumAllZero(Ages(jobs, tr));
    } else {
      var past := tr[..|tr| - 1];
      AgesAddUp(jobs, past);
      var done := Finished(jobs, past);
      var open := Indices(|jobs|) - done;
      var ones := seq(|jobs|, i requires 0 <= i < |jobs| => if i in open then 1 else 0);
      SumOfIndicator(ones, open);
      SumPlus(Ages(jobs, past), ones, Ages(jobs, tr));
      SubsetSize(done, Indices(|jobs|));
    }
  }

  lemma {:induction false} AgeIsCompletion(jobs: seq<Job>, tr: seq<int>, i: int)
    requires WellFormed(jobs) && Obeys(AnyValid, jobs, tr) && 0 <= i < |jobs|
    ensures Left(jobs, tr, i) > 0 ==> Age(jobs, tr, i) == |tr|
    ensures Left(jobs, tr, i) == 0 ==> Age(jobs, tr, i) == Completion(jobs, tr, i)
  {
    if tr == [] {
    } else {
      ValidCounters(jobs, tr[..|tr| - 1], i);
      AgeIsCompletion(jobs, tr[..|tr| - 1], i);
    }
  }

  /** The completion times of a finished schedule add up to its unfinished-count over time. */
  lemma TotalCompletionIsUnfinishedOverTime(jobs: seq<Job>, tr: seq<int>)
    requires WellFormed(jobs) && Obeys(AnyValid, jobs, tr) && AllDone(jobs, tr)
    ensures TotalCompletion(jobs, tr) == UnfinishedOverTime(jobs, tr)
  {
    forall i | 0 <= i < |jobs| ensures Ages(jobs, tr)[i] == Completions(jobs, tr)[i] {
      AgeIsCompletion(jobs, tr, i);
    }
    SumEqual(Ages(jobs, tr), Completions(jobs, tr));
    AgesAddUp(jobs, tr);
  }

  lemma FinishedAtMost(jobs: seq<Job>, tr: seq<int>)
    ensures |Finished(jobs, tr)| <= |jobs|
    ensures |Finished(jobs, tr)| == |jobs| <==> AllDone(jobs, tr)
  {
    var all := Indices(|jobs|);
    SubsetSize(Finished(jobs, tr), all);
    if AllDone(jobs, tr) {
      assert Finished(jobs, tr) == all;
    } else {
      var i :| 0 <= i < |jobs| && Left(jobs, tr, i) != 0;
      assert i in all && i !in Finished(jobs, tr);
    }
  }

  /** A schedule that leads another in finished processes at every clock value of both, and is
      finished once the other is, has the smaller unfinished-count over time. */
  lemma {:induction false} LeadingIsSmaller(jobs: seq<Job>, p: seq<int>, jobs': seq<Job>, q: seq<int>)
    requires |jobs| == |jobs'| && |p| <= |q|
    requires forall k | 0 <= k < |p| :: |Finished(jobs, p[..k])| >= |Finished(jobs', q[..k])|
    ensures UnfinishedOverTime(jobs, p) <= UnfinishedOverTime(jobs', q)
    decreases |q|
  {
    if q == [] {
    } else {
      var n := |q| - 1;
      var p0 := if |p| == |q| then p[..n] else p;
      forall k | 0 <= k < |p0| ensures |Finished(jobs, p0[..k])| >= |Finished(jobs', q[..n][..k])| {
        assert p0[..k] == p[..k] && q[..n][..k] == q[..k];
      }
      LeadingIsSmaller(jobs, p0, jobs', q[..n]);
      FinishedAtMost(jobs', q[..n]);
    }
  }

  /** Psjf minimises the total of the completion times over all valid schedules. */
  lemma PsjfMinimisesTotalCompletion(jobs: seq<Job>, p: seq<int>, q: seq<int>)
    requires WellFormed(jobs)
    requires Obeys(Psjf, jobs, p) && FirstDone(jobs, p)
    requires Obeys(AnyValid, jobs, q) && AllDone(jobs, q)
    ensures TotalCompletion(jobs, p) <= TotalCompletion(jobs, q)
  {
    PolicyIsWorkConserving(Psjf, jobs, p);
    NotDoneSooner(jobs, q, p);
    forall k | 0 <= k < |p| ensures |Finished(jobs, p[..k])| >= |Finished(jobs, q[..k])| {
      ObeysPrefix(Psjf, jobs, p, k);
      ObeysPrefix(AnyValid, jobs, q, k);
      PsjfFinishesMost(jobs, p[..k], q[..k]);
    }
    LeadingIsSmaller(jobs, p, jobs, q);
    TotalCompletionIsUnfinishedOverTime(jobs, p);
    TotalCompletionIsUnfinishedOverTime(jobs, q);
  }
}

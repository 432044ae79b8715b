/** When the preemptive policy preempts, and when it cannot be told from the non-preemptive one. */
module PsjfTheory {
  import opened Sums
  import opened Schedules
  import opened Optimality

  /** After x ran for one tick as the shortest, it precedes every other process that was live then. */
  lemma RunnerStaysShortest(jobs: seq<Job>, past: seq<int>, x: int, j: int)
    requires MayRun(Psjf, jobs, past, x) && x != IDLE && 0 <= j < |jobs| && j != x
    requires Live(jobs, past + [x], j) && jobs[j].ready <= |past|
    ensures Left(jobs, past + [x], x) < Left(jobs, past + [x], j)
         || (Left(jobs, past + [x], x) == Left(jobs, past + [x], j) && x < j)
  {
    ServedSnoc(past, x, x);
    ServedSnoc(past, x, j);
    assert Live(jobs, past, j);
    assert Precedes(Left(jobs, past, x), x, Left(jobs, past, j), j);
  }

  /** Process x, which ran in the last tick and is unfinished, is displaced now exactly when some
      process released at this very clock value needs less, or as much with a lower index; and it is
      such a newcomer that takes over. */
  lemma PreemptsOnlyForArrival(jobs: seq<Job>, tr: seq<int>, t: int)
    requires WellFormed(jobs) && Obeys(Psjf, jobs, tr) && 0 < t < |tr|
    requires tr[t - 1] != IDLE && Live(jobs, tr[..t], tr[t - 1])
    ensures tr[t] != tr[t - 1]
        <==> exists j | 0 <= j < |jobs| ::
               jobs[j].ready == t && !Precedes(Left(jobs, tr[..t], tr[t - 1]), tr[t - 1], jobs[j].exec, j)
    ensures tr[t] != tr[t - 1] ==> 0 <= tr[t] < |jobs| && jobs[tr[t]].ready == t
  {
    var past, x, now := tr[..t - 1], tr[t - 1], tr[..t];
    ObeysAt(Psjf, jobs, tr, t - 1);
    ObeysAt(Psjf, jobs, tr, t);
    assert now == past + [x];
    assert !NoneLive(jobs, now);
    PolicyIsWorkConserving(Psjf, jobs, now);
    var y := tr[t];
    if y != x {
      assert Precedes(Left(jobs, now, y), y, Left(jobs, now, x), x);
      if jobs[y].ready < t {
        RunnerStaysShortest(jobs, past, x, y);
      }
      ValidCounters(jobs, now, y);
      assert jobs[y].ready == t && !Precedes(Left(jobs, now, x), x, jobs[y].exec, y);
    } else {
      forall j | 0 <= j < |jobs| && jobs[j].ready == t
        ensures Precedes(Left(jobs, now, x), x, jobs[j].exec, j)
      {
        ValidCounters(jobs, now, j);
        assert Live(jobs, now, j);
      }
    }
  }

  /** Without a release in between, a process keeps the CPU until it finishes. */
  lemma {:induction false} StableBetweenReleases(jobs: seq<Job>, tr: seq<int>, a: int, b: int)
    requires WellFormed(jobs) && Obeys(Psjf, jobs, tr) && 0 <= a <= b < |tr|
    requires forall i | 0 <= i < |jobs| :: !(a < jobs[i].ready <= b)
    requires 0 <= tr[a] < |jobs| && Left(jobs, tr[..b], tr[a]) > 0
    ensures tr[b] == tr[a]
    decreases b
  {
    if a < b {
      PolicyIsWorkConserving(Psjf, jobs, tr);
      assert tr[..b][..b - 1] == tr[..b - 1];
      ServedMonotone(tr[..b], b - 1, tr[a]);
      StableBetweenReleases(jobs, tr, a, b - 1);
      ObeysAt(AnyValid, jobs, tr, a);
      assert Live(jobs, tr[..b], tr[a]);
      PreemptsOnlyForArrival(jobs, tr, b);
    }
  }

  /** With equal release times the non-preemptive choice is also the preemptive one. */
  lemma SjfPickIsPsjfPick(jobs: seq<Job>, past: seq<int>, x: int)
    requires WellFormed(jobs)
    requires forall i, j | 0 <= i < j < |jobs| :: jobs[i].ready == jobs[j].ready
    requires Obeys(Psjf, jobs, past) && MayRun(Sjf, jobs, past, x)
    ensures MayRun(Psjf, jobs, past, x)
  {
    var cur := Current(jobs, past);
    if !NoneLive(jobs, past) && cur != IDLE {
      var n := |past| - 1;
      PolicyIsWorkConserving(Psjf, jobs, past);
      assert past == past[..n] + [cur];
      forall j | 0 <= j < |jobs| && Live(jobs, past, j)
        ensures Precedes(Left(jobs, past, cur), cur, Left(jobs, past, j), j)
      {
        if j != cur {
          RunnerStaysShortest(jobs, past[..n], cur, j);
        }
      }
    }
  }

  /** If everything is released at one clock value, the SJF schedule is the PSJF schedule: the same
      process runs in every tick, and PSJF never preempts. */
  lemma {:induction false} TogetherMakesSjfPsjf(jobs: seq<Job>, s: seq<int>)
    requires WellFormed(jobs) && Obeys(Sjf, jobs, s)
    requires forall i, j | 0 <= i < j < |jobs| :: jobs[i].ready == jobs[j].ready
    ensures Obeys(Psjf, jobs, s)
    ensures forall p | |p| == |s| && Obeys(Psjf, jobs, p) :: p == s
  {
    if s == [] {
    } else {
      var n := |s| - 1;
      TogetherMakesSjfPsjf(jobs, s[..n]);
      SjfPickIsPsjfPick(jobs, s[..n], s[n]);
      ObeysSnoc(Psjf, jobs, s[..n], s[n]);
      assert s == s[..n] + [s[n]];
    }
    forall p | |p| == |s| && Obeys(Psjf, jobs, p) ensures p == s {
      PolicyIsDeterministic(Psjf, jobs, p, s);
    }
  }

  /** So with equal release times SJF has the least total completion time of all valid schedules. */
  lemma TogetherMakesSjfOptimal(jobs: seq<Job>, s: seq<int>, q: seq<int>)
    requires WellFormed(jobs)
    requires forall i, j | 0 <= i < j < |jobs| :: jobs[i].ready == jobs[j].ready
    requires Obeys(Sjf, jobs, s) && FirstDone(jobs, s)
    requires Obeys(AnyValid, jobs, q) && AllDone(jobs, q)
    ensures TotalCompletion(jobs, s) <= TotalCompletion(jobs, q)
  {
    TogetherMakesSjfPsjf(jobs, s);
    PsjfMinimisesTotalCompletion(jobs, s, q);
  }

  // ---------------------------------------------------------------- context switches

  /** The process that ran last, idle ticks passed over. */
  function LastRun(tr: seq<int>): int {
    if tr == [] then IDLE
    else if tr[|tr| - 1] != IDLE then tr[|tr| - 1]
    else LastRun(tr[..|tr| - 1])
  }

  /** How often the CPU went to another process than the one that had it last. */
  function Switches(tr: seq<int>): nat {
    if tr == [] then 0
    else
      var n := |tr| - 1;
      Switches(tr[..n]) + if tr[n] != IDLE && tr[n] != LastRun(tr[..n]) then 1 else 0
  }

  /** LastRun is the last entry that is not idle. */
  lemma {:induction false} LastRunMeans(tr: seq<int>)
    ensures LastRun(tr) == IDLE <==> forall t | 0 <= t < |tr| :: tr[t] == IDLE
    ensures LastRun(tr) != IDLE ==>
              exists s | 0 <= s < |tr| :: tr[s] == LastRun(tr) && forall u | s < u < |tr| :: tr[u] == IDLE
  {
    if tr == [] {
    } else if tr[|tr| - 1] == IDLE {
      var past := tr[..|tr| - 1];
      LastRunMeans(past);
      assert forall t | 0 <= t < |past| :: past[t] == tr[t];
      if LastRun(past) != IDLE {
        var s :| 0 <= s < |past| && past[s] == LastRun(past) && forall u | s < u < |past| :: past[u] == IDLE;
        assert tr[s] == LastRun(tr) && forall u | s < u < |tr| :: tr[u] == IDLE;
      }
    } else {
      assert tr[|tr| - 1] == LastRun(tr);
    }
  }

  /** The ticks in which a process runs that is not the one that ran last before them. */
  ghost function SwitchTicks(tr: seq<int>): set<int> {
    set t | 0 <= t < |tr| && tr[t] != IDLE && tr[t] != LastRun(tr[..t])
  }

  lemma SwitchTicksSnoc(past: seq<int>, x: int)
    ensures |past| !in SwitchTicks(past)
    ensures SwitchTicks(past + [x]) == SwitchTicks(past) + if x != IDLE && x != LastRun(past) then {|past|} else {}
  {
    forall t | 0 <= t <= |past| ensures (past + [x])[..t] == past[..t] {}
    assert past[..|past|] == past;
  }

  lemma {:induction false} SwitchesCounts(tr: seq<int>)
    ensures Switches(tr) == |SwitchTicks(tr)|
  {
    if tr == [] {
      assert SwitchTicks(tr) == {};
    } else {
      var n := |tr| - 1;
      var past := tr[..n];
      SwitchesCounts(past);
      SwitchTicksSnoc(past, tr[n]);
      assert tr == past + [tr[n]];
    }
  }

  lemma ReleasedGrows(jobs: seq<Job>, t: int, x: int)
    requires 0 <= x < |jobs| && jobs[x].ready <= t
    ensures |ReleasedBefore(jobs, t)| + (if jobs[x].ready == t then 1 else 0) <= |ReleasedBefore(jobs, t + 1)|
    ensures |ReleasedBefore(jobs, t + 1)| > 0
  {
    SubsetSize({x}, ReleasedBefore(jobs, t + 1));
    SubsetSize(ReleasedBefore(jobs, t) + (if jobs[x].ready == t then {x} else {}), ReleasedBefore(jobs, t + 1));
  }

  /** Every switch is paid for by a release or by a finish: a free CPU has one to spare. */
  lemma {:induction false} SwitchesArePaidFor(jobs: seq<Job>, tr: seq<int>)
    requires WellFormed(jobs) && Obeys(Psjf, jobs, tr)
    ensures Switches(tr) + (if Current(jobs, tr) == IDLE && Switches(tr) > 0 then 1 else 0)
         <= |Finished(jobs, tr)| + |ReleasedBefore(jobs, |tr|)|
  {
    if tr == [] {
    } else {
      var n := |tr| - 1;
      var past, x := tr[..n], tr[n];
      assert tr == past + [x];
      SwitchesArePaidFor(jobs, past);
      PolicyIsWorkConserving(Psjf, jobs, past);
      FinishedTick(jobs, past, x);
      if x == IDLE {
        SubsetSize(ReleasedBefore(jobs, n), ReleasedBefore(jobs, n + 1));
        assert Current(jobs, past) == IDLE;
      } else {
        ReleasedGrows(jobs, n, x);
        ServedSnoc(past, x, x);
        if Current(jobs, past) != IDLE && x != Current(jobs, past) {
          PreemptsOnlyForArrival(jobs, tr, n);
        }
      }
    }
  }

  /** For all its preemption PSJF switches at most 2n - 1 times in a whole run of n processes. */
  lemma FewSwitches(jobs: seq<Job>, tr: seq<int>)
    requires WellFormed(jobs) && Obeys(Psjf, jobs, tr)
    ensures |SwitchTicks(tr)| <= 2 * |jobs|
    ensures AllDone(jobs, tr) && |jobs| > 0 ==> |SwitchTicks(tr)| <= 2 * |jobs| - 1
  {
    SwitchesCounts(tr);
    SwitchesArePaidFor(jobs, tr);
    FinishedAtMost(jobs, tr);
    SubsetSize(ReleasedBefore(jobs, |tr|), Indices(|jobs|));
  }
}

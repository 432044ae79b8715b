/** The four loops on tables that promise nothing: any release time, any execution time, any number
    of rows. The choice in each tick is stated by the columns that the code tests, the end of the loop
    by its finish counter; for which tables the counter ever gets there is then a theorem. */
module AnyTable {
  import opened Sums
  import opened Schedules
  import opened Termination

  // ---------------------------------------------------------------- what the code tests

  /** `pid` is no longer -1: the clock has shown the release time. */
  predicate Forked(jobs: seq<Job>, tr: seq<int>, i: int) {
    0 <= i < |jobs| && 0 <= jobs[i].ready <= |tr|
  }

  /** Forked, and the counter is not 0; below 0 will do. */
  predicate NotZero(jobs: seq<Job>, tr: seq<int>, i: int) {
    Forked(jobs, tr, i) && Left(jobs, tr, i) != 0
  }

  /** Forked, and the counter is above 0. */
  predicate Positive(jobs: seq<Job>, tr: seq<int>, i: int) {
    Forked(jobs, tr, i) && Left(jobs, tr, i) > 0
  }

  /** `running` after the reaping part: who ran last, unless its counter reads 0. */
  function Holder(jobs: seq<Job>, tr: seq<int>): int {
    if tr != [] && 0 <= tr[|tr| - 1] < |jobs| && Left(jobs, tr, tr[|tr| - 1]) != 0 then tr[|tr| - 1]
    else IDLE
  }

  /** `waiting` is 1 after the releases of the tick: set when the clock shows the release time. */
  predicate Marked(jobs: seq<Job>, tr: seq<int>, i: int)
    decreases |tr|, 1
  {
    0 <= i < |jobs| && (jobs[i].ready == |tr| || Carried(jobs, tr, i))
  }

  /** `waiting` is 1 before them: set in an earlier tick, and cleared only when a decrement leaves
      exactly 0. */
  predicate Carried(jobs: seq<Job>, tr: seq<int>, i: int)
    requires 0 <= i < |jobs|
    decreases |tr|, 0
  {
    tr != [] && Marked(jobs, tr[..|tr| - 1], i) && !(tr[|tr| - 1] == i && Left(jobs, tr, i) == 0)
  }

  /** Marked, and below the sentinel of the search. */
  predicate Seen(jobs: seq<Job>, tr: seq<int>, i: int) {
    Marked(jobs, tr, i) && Left(jobs, tr, i) < INT_MAX
  }

  /** The choice each loop makes after `past`. */
  ghost predicate LoopMayRun(pol: Policy, jobs: seq<Job>, past: seq<int>, x: int) {
    var n, cur := |jobs|, Holder(jobs, past);
    match pol
    case Fifo =>
      if cur != IDLE then x == cur
      else if x == IDLE then forall j | 0 <= j < n :: !NotZero(jobs, past, j)
      else NotZero(jobs, past, x) && forall j | 0 <= j < n && NotZero(jobs, past, j) ::
             Precedes(jobs[x].ready, x, jobs[j].ready, j)
    case Sjf =>
      if cur != IDLE then x == cur
      else if x == IDLE then forall j | 0 <= j < n :: !NotZero(jobs, past, j)
      else NotZero(jobs, past, x) && forall j | 0 <= j < n && NotZero(jobs, past, j) ::
             Precedes(Left(jobs, past, x), x, Left(jobs, past, j), j)
    case RoundRobin =>
      if cur == IDLE then
        if x == IDLE then forall j | 0 <= j < n :: !Positive(jobs, past, j)
        else Positive(jobs, past, x) && forall j | 0 <= j < n && Positive(jobs, past, j) :: x <= j
      else if (|past| - BlockStart(past)) % QUANTUM == 0 then
        NotZero(jobs, past, x) && forall j | 0 <= j < n && NotZero(jobs, past, j) ::
          CyclicDistance(n, cur, x) <= CyclicDistance(n, cur, j)
      else x == cur
    case Psjf =>
      if forall j | 0 <= j < n :: !Marked(jobs, past, j) then x == IDLE
      else if forall j | 0 <= j < n :: !Seen(jobs, past, j) then x == 0
      else Seen(jobs, past, x) && forall j | 0 <= j < n && Seen(jobs, past, j) ::
             Precedes(Left(jobs, past, x), x, Left(jobs, past, j), j)
    case _ => false
  }

  ghost predicate Loops(pol: Policy, jobs: seq<Job>, tr: seq<int>) {
    tr == [] ||
    (Loops(pol, jobs, tr[..|tr| - 1]) && LoopMayRun(pol, jobs, tr[..|tr| - 1], tr[|tr| - 1]))
  }

  /** The finish counter: one more for every tick whose decrement leaves exactly 0. */
  function Reaps(jobs: seq<Job>, tr: seq<int>): nat {
    if tr == [] then 0
    else Reaps(jobs, tr[..|tr| - 1]) + if ReapsLast(jobs, tr) then 1 else 0
  }

  predicate ReapsLast(jobs: seq<Job>, tr: seq<int>)
    requires tr != []
  {
    0 <= tr[|tr| - 1] < |jobs| && Left(jobs, tr, tr[|tr| - 1]) == 0
  }

  /** The exit of the loop: PSJF compares the counter whenever it comes round, the others only when
      they have just reaped. */
  predicate Exits(pol: Policy, jobs: seq<Job>, tr: seq<int>) {
    Reaps(jobs, tr) == |jobs| && (pol == Psjf || (tr != [] && ReapsLast(jobs, tr)))
  }

  // ---------------------------------------------------------------- good tables

  /** No negative release, no execution time below 1, and for PSJF none at the sentinel except in the
      first row, which is what the search answers when it sees nothing. */
  ghost predicate Good(pol: Policy, jobs: seq<Job>) {
    WellFormed(jobs) && (pol == Psjf ==> BelowSentinel(jobs))
  }

  lemma {:induction false} MarkedMeansLive(jobs: seq<Job>, tr: seq<int>, i: int)
    requires WellFormed(jobs) && Obeys(AnyValid, jobs, tr) && 0 <= i < |jobs|
    ensures Marked(jobs, tr, i) <==> Live(jobs, tr, i)
  {
    ValidCounters(jobs, tr, i);
    if tr == [] {
    } else {
      MarkedMeansLive(jobs, tr[..|tr| - 1], i);
    }
  }

  lemma SamePsjfRule(jobs: seq<Job>, past: seq<int>, x: int)
    requires Good(Psjf, jobs) && Obeys(AnyValid, jobs, past)
    ensures LoopMayRun(Psjf, jobs, past, x) <==> MayRun(Psjf, jobs, past, x)
  {
    forall j | 0 <= j < |jobs|
      ensures Marked(jobs, past, j) <==> Live(jobs, past, j)
      ensures Live(jobs, past, j) && !Seen(jobs, past, j) ==> j == 0
    {
      MarkedMeansLive(jobs, past, j);
    }
    if Live(jobs, past, 0) && forall j | 0 <= j < |jobs| :: !Seen(jobs, past, j) {
      assert ShortestLeft(jobs, past, 0);
    } else if s :| 0 <= s < |jobs| && Seen(jobs, past, s) {
      SeenComesFirst(jobs, past, x, s);
    }
  }

  /** As soon as the search sees anything, the shortest of what it sees is the shortest of all. */
  lemma SeenComesFirst(jobs: seq<Job>, past: seq<int>, x: int, s: int)
    requires forall j | 0 <= j < |jobs| :: Marked(jobs, past, j) <==> Live(jobs, past, j)
    requires Seen(jobs, past, s)
    ensures LoopMayRun(Psjf, jobs, past, x) <==> ShortestLeft(jobs, past, x)
  {
    if ShortestLeft(jobs, past, x) {
      assert Precedes(Left(jobs, past, x), x, Left(jobs, past, s), s);
      assert Seen(jobs, past, x);
    }
    if LoopMayRun(Psjf, jobs, past, x) {
      assert Precedes(Left(jobs, past, x), x, Left(jobs, past, s), s);
    }
  }

  lemma SameRule(pol: Policy, jobs: seq<Job>, past: seq<int>, x: int)
    requires pol in {Fifo, Sjf, RoundRobin} && WellFormed(jobs) && Obeys(AnyValid, jobs, past)
    ensures LoopMayRun(pol, jobs, past, x) <==> MayRun(pol, jobs, past, x)
  {
    forall j | 0 <= j < |jobs|
      ensures NotZero(jobs, past, j) <==> Live(jobs, past, j)
      ensures Positive(jobs, past, j) <==> Live(jobs, past, j)
    {
      ValidCounters(jobs, past, j);
    }
    HolderIsCurrent(jobs, past);
  }

  lemma HolderIsCurrent(jobs: seq<Job>, past: seq<int>)
    requires WellFormed(jobs) && Obeys(AnyValid, jobs, past)
    ensures Holder(jobs, past) == Current(jobs, past)
  {
    if past != [] && 0 <= past[|past| - 1] < |jobs| {
      ValidCounters(jobs, past, past[|past| - 1]);
    }
  }

  /** On a good table the loops do in every tick what their policies say. */
  lemma {:induction false} LoopsObey(pol: Policy, jobs: seq<Job>, tr: seq<int>)
    requires pol in {Fifo, Sjf, RoundRobin, Psjf} && Good(pol, jobs)
    ensures Loops(pol, jobs, tr) <==> Obeys(pol, jobs, tr)
  {
    if tr == [] {
    } else {
      var past, x := tr[..|tr| - 1], tr[|tr| - 1];
      LoopsObey(pol, jobs, past);
      if Obeys(pol, jobs, past) {
        PolicyIsWorkConserving(pol, jobs, past);
        if pol == Psjf {
          SamePsjfRule(jobs, past, x);
        } else {
          SameRule(pol, jobs, past, x);
        }
      }
    }
  }

  // ---------------------------------------------------------------- the finish counter

  ghost function RunOut(jobs: seq<Job>, tr: seq<int>): set<int> {
    set i | 0 <= i < |jobs| && 1 <= jobs[i].exec <= Served(tr, i)
  }

  /** Whatever ran, the finish counter is the number of processes with a positive execution time that
      have been given all of it: a counter passes 0 once at most. */
  lemma {:induction false} ReapsCounts(jobs: seq<Job>, tr: seq<int>)
    ensures Reaps(jobs, tr) == |RunOut(jobs, tr)|
  {
    if tr == [] {
      assert RunOut(jobs, tr) == {};
    } else {
      var past, x := tr[..|tr| - 1], tr[|tr| - 1];
      ReapsCounts(jobs, past);
      if ReapsLast(jobs, tr) {
        assert RunOut(jobs, tr) == RunOut(jobs, past) + {x};
      } else {
        assert RunOut(jobs, tr) == RunOut(jobs, past);
      }
    }
  }

  lemma AllReaped(jobs: seq<Job>, tr: seq<int>)
    ensures Reaps(jobs, tr) == |jobs| <==> forall i | 0 <= i < |jobs| :: 1 <= jobs[i].exec <= Served(tr, i)
  {
    ReapsCounts(jobs, tr);
    SubsetSize(RunOut(jobs, tr), Indices(|jobs|));
    if forall i | 0 <= i < |jobs| :: 1 <= jobs[i].exec <= Served(tr, i) {
      assert RunOut(jobs, tr) == Indices(|jobs|);
    } else {
      var i :| 0 <= i < |jobs| && !(1 <= jobs[i].exec <= Served(tr, i));
      assert i in Indices(|jobs|) && i !in RunOut(jobs, tr);
    }
  }

  // ---------------------------------------------------------------- who can have run

  lemma {:induction false} MarkedWasReleased(jobs: seq<Job>, tr: seq<int>, i: int)
    requires Marked(jobs, tr, i)
    ensures 0 <= jobs[i].ready <= |tr|
  {
    if jobs[i].ready == |tr| {
    } else {
      MarkedWasReleased(jobs, tr[..|tr| - 1], i);
    }
  }

  lemma {:induction false} RanMeansReleased(pol: Policy, jobs: seq<Job>, tr: seq<int>, i: int)
    requires pol in {Fifo, Sjf, RoundRobin} && Loops(pol, jobs, tr) && 0 <= i < |jobs| && Served(tr, i) > 0
    ensures jobs[i].ready >= 0
  {
    if tr[|tr| - 1] == i && Served(tr[..|tr| - 1], i) == 0 {
    } else {
      RanMeansReleased(pol, jobs, tr[..|tr| - 1], i);
    }
  }

  /** Past the first row PSJF runs only what it has marked and sees, the first time with the counter
      still full. */
  lemma {:induction false} PsjfRanMeansSeen(jobs: seq<Job>, tr: seq<int>, i: int)
    requires Loops(Psjf, jobs, tr) && 0 < i < |jobs| && Served(tr, i) > 0
    ensures jobs[i].ready >= 0 && jobs[i].exec < INT_MAX
  {
    var past := tr[..|tr| - 1];
    if Served(past, i) == 0 {
      assert Seen(jobs, past, i);
      MarkedWasReleased(jobs, past, i);
    } else {
      PsjfRanMeansSeen(jobs, past, i);
    }
  }

  /** The first row can also run as the answer of a search that sees nothing. */
  lemma {:induction false} PsjfFirstRowReleased(jobs: seq<Job>, tr: seq<int>)
    requires Loops(Psjf, jobs, tr) && BelowSentinel(jobs) && |jobs| > 0 && Served(tr, 0) > 0
    ensures jobs[0].ready >= 0
  {
    var past := tr[..|tr| - 1];
    if tr[|tr| - 1] == 0 {
      var j :| 0 <= j < |jobs| && Marked(jobs, past, j);
      if Marked(jobs, past, 0) {
        MarkedWasReleased(jobs, past, 0);
      } else {
        assert Seen(jobs, past, j);
      }
    } else {
      PsjfFirstRowReleased(jobs, past);
    }
  }

  // ---------------------------------------------------------------- for which tables the loops end

  lemma ExitMeansGood(pol: Policy, jobs: seq<Job>, tr: seq<int>)
    requires pol in {Fifo, Sjf, RoundRobin, Psjf} && Loops(pol, jobs, tr) && Exits(pol, jobs, tr)
    ensures Good(pol, jobs) && (pol == Psjf || |jobs| > 0)
  {
    AllReaped(jobs, tr);
    if pol == Psjf {
      forall i | 0 < i < |jobs| ensures jobs[i].ready >= 0 && jobs[i].exec < INT_MAX {
        PsjfRanMeansSeen(jobs, tr, i);
      }
      if |jobs| > 0 { PsjfFirstRowReleased(jobs, tr); }
    } else {
      forall i | 0 <= i < |jobs| ensures jobs[i].ready >= 0 {
        RanMeansReleased(pol, jobs, tr, i);
      }
    }
  }

  lemma GoodMeansExit(pol: Policy, jobs: seq<Job>) returns (tr: seq<int>)
    requires pol in {Fifo, Sjf, RoundRobin, Psjf} && Good(pol, jobs) && (pol == Psjf || |jobs| > 0)
    ensures Loops(pol, jobs, tr) && Exits(pol, jobs, tr)
  {
    tr := RunToEnd(pol, jobs);
    LoopsObey(pol, jobs, tr);
    PolicyIsWorkConserving(pol, jobs, tr);
    forall i | 0 <= i < |jobs| ensures 1 <= jobs[i].exec <= Served(tr, i) {
      assert Left(jobs, tr, i) == 0;
    }
    AllReaped(jobs, tr);
    if |jobs| > 0 {
      assert Left(jobs, tr, 0) == 0;
      LastTickWorked(jobs, tr);
    }
  }

  /** Every table, whatever is in it: the loop of FIFO, SJF or RR comes to its exit exactly when there is
      at least one process, no release time is negative and no execution time is below 1; the PSJF loop
      when no release time is negative, no execution time is below 1, and none past the first row is
      above 2147483646, one less than the sentinel. On all other tables the loop goes on forever. */
  lemma LoopExitsIff(pol: Policy, jobs: seq<Job>)
    requires pol in {Fifo, Sjf, RoundRobin, Psjf}
    ensures (exists tr :: Loops(pol, jobs, tr) && Exits(pol, jobs, tr))
        <==> && (forall i | 0 <= i < |jobs| :: jobs[i].ready >= 0 && jobs[i].exec >= 1)
             && if pol == Psjf then forall i | 0 < i < |jobs| :: jobs[i].exec <= 2147483646 else |jobs| > 0
  {
    if tr :| Loops(pol, jobs, tr) && Exits(pol, jobs, tr) {
      ExitMeansGood(pol, jobs, tr);
    }
    if Good(pol, jobs) && (pol == Psjf || |jobs| > 0) {
      var tr := GoodMeansExit(pol, jobs);
    }
  }

  // ---------------------------------------------------------------- what a zero-length process does to PSJF

  /** The mark of a process without work is never cleared. */
  lemma {:induction false} ZeroLengthStaysMarked(jobs: seq<Job>, tr: seq<int>, i: int)
    requires 0 <= i < |jobs| && jobs[i].exec <= 0 && 0 <= jobs[i].ready <= |tr|
    ensures Marked(jobs, tr, i)
  {
    if jobs[i].ready == |tr| {
    } else {
      ZeroLengthStaysMarked(jobs, tr[..|tr| - 1], i);
    }
  }

  /** Once a process of execution time 0 or less has been released, the PSJF loop is never idle again and
      never runs a process that has work left. */
  lemma ZeroLengthStarvesTheRest(jobs: seq<Job>, tr: seq<int>, i: int, t: int)
    requires Loops(Psjf, jobs, tr) && 0 <= i < |jobs| && jobs[i].exec <= 0
    requires 0 <= jobs[i].ready <= t < |tr|
    ensures 0 <= tr[t] < |jobs| && Left(jobs, tr[..t], tr[t]) <= 0
  {
    LoopsAt(Psjf, jobs, tr, t);
    ZeroLengthStaysMarked(jobs, tr[..t], i);
    assert Seen(jobs, tr[..t], i);
  }

  lemma {:induction false} LoopsAt(pol: Policy, jobs: seq<Job>, tr: seq<int>, t: int)
    requires Loops(pol, jobs, tr) && 0 <= t < |tr|
    ensures LoopMayRun(pol, jobs, tr[..t], tr[t])
  {
    if t == |tr| - 1 {
    } else {
      LoopsAt(pol, jobs, tr[..|tr| - 1], t);
      assert tr[..|tr| - 1][..t] == tr[..t];
    }
  }
}

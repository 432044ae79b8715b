/** Round robin: quantum, bounded waiting, and what its accounting adds up. */
module RoundRobinTheory {
  import opened Sums
  import opened Schedules
  import opened Optimality
  import opened Accounting

  // ---------------------------------------------------------------- the quantum

  ghost predicate OtherLive(jobs: seq<Job>, past: seq<int>, x: int) {
    exists j | 0 <= j < |jobs| :: j != x && Live(jobs, past, j)
  }

  /** `cur` ran in the last tick and is unfinished. It loses the CPU now exactly when it has held it
      for a positive multiple of the quantum and some other process is live; the CPU then goes to
      the next live index in cyclic order. */
  lemma LosesOnlyAtQuantum(jobs: seq<Job>, past: seq<int>, y: int)
    requires MayRun(RoundRobin, jobs, past, y) && Current(jobs, past) != IDLE
    ensures |past| > BlockStart(past)
    ensures y != Current(jobs, past)
        <==> (|past| - BlockStart(past)) % 500 == 0 && OtherLive(jobs, past, Current(jobs, past))
    ensures y != Current(jobs, past) ==> NextInCycle(jobs, past, Current(jobs, past), y)
  {
    var x := Current(jobs, past);
    if (|past| - BlockStart(past)) % QUANTUM == 0 {
      assert NextInCycle(jobs, past, x, y);
      forall j | 0 <= j < |jobs| && Live(jobs, past, j)
        ensures CyclicDistance(|jobs|, x, y) <= CyclicDistance(|jobs|, x, j)
      {}
    }
  }

  /** Process x has held the CPU in the ticks from a up to t, and not in the tick before a. */
  ghost predicate HeldSince(tr: seq<int>, x: int, a: int, t: int) {
    0 <= a < t <= |tr| && (forall k | a <= k < t :: tr[k] == x) && (a > 0 ==> tr[a - 1] != x)
  }

  lemma BlockStartsAt(tr: seq<int>, x: int, a: int, t: int)
    requires HeldSince(tr, x, a, t)
    ensures BlockStart(tr[..t]) == a
  {
    var past := tr[..t];
    BlockIsMaximal(past);
    assert past[t - 1] == x;
    assert forall k | 0 <= k < t :: past[k] == tr[k];
  }

  /** Whether x, which ran in tick t - 1, is unfinished decides what the check at tick t starts from. */
  lemma LastRunner(jobs: seq<Job>, tr: seq<int>, x: int, t: int)
    requires WellFormed(jobs) && Obeys(RoundRobin, jobs, tr)
    requires 0 < t < |tr| && 0 <= x < |jobs| && tr[t - 1] == x
    ensures Left(jobs, tr[..t], x) >= 0
    ensures Current(jobs, tr[..t]) == if Left(jobs, tr[..t], x) != 0 then x else IDLE
  {
    PolicyIsWorkConserving(RoundRobin, jobs, tr);
    ObeysAt(AnyValid, jobs, tr, t - 1);
    ObeysPrefix(AnyValid, jobs, tr, t);
    ValidCounters(jobs, tr[..t], x);
  }

  /** What becomes of x, which ran last and got the CPU at tick a, when y is next. */
  ghost predicate HandsOver(jobs: seq<Job>, past: seq<int>, x: int, a: int, y: int)
    requires 0 <= x < |jobs|
  {
    && (y != x <==> Left(jobs, past, x) == 0 || ((|past| - a) % 500 == 0 && OtherLive(jobs, past, x)))
    && (y != x ==>
          if Left(jobs, past, x) != 0 then NextInCycle(jobs, past, x, y)
          else if NoneLive(jobs, past) then y == IDLE
          else LowestIndex(jobs, past, y))
  }

  lemma NextAfter(jobs: seq<Job>, past: seq<int>, x: int, y: int)
    requires MayRun(RoundRobin, jobs, past, y) && 0 <= x < |jobs| && past != []
    requires Current(jobs, past) == if Left(jobs, past, x) != 0 then x else IDLE
    ensures HandsOver(jobs, past, x, BlockStart(past), y)
  {
    if Left(jobs, past, x) != 0 {
      LosesOnlyAtQuantum(jobs, past, y);
    }
  }

  lemma BlockHandsOver(jobs: seq<Job>, tr: seq<int>, x: int, a: int, t: int)
    requires WellFormed(jobs) && Obeys(RoundRobin, jobs, tr)
    requires 0 <= x < |jobs| && t < |tr| && HeldSince(tr, x, a, t)
    ensures HandsOver(jobs, tr[..t], x, a, tr[t])
  {
    BlockStartsAt(tr, x, a, t);
    LastRunner(jobs, tr, x, t);
    ObeysAt(RoundRobin, jobs, tr, t);
    NextAfter(jobs, tr[..t], x, tr[t]);
  }

  /** The quantum, at every tick of a round-robin run. A process that has held the CPU since tick a loses
      it at tick t exactly when it has finished, or t - a is a multiple of 500 and some other process is
      live. An unfinished one is followed by the next live index in cyclic order, a finished one by the
      lowest. */
  lemma BlocksAreQuanta(jobs: seq<Job>, tr: seq<int>, x: int, a: int, t: int)
    requires WellFormed(jobs) && Obeys(RoundRobin, jobs, tr)
    requires 0 <= x < |jobs| && 0 <= a < t < |tr|
    requires (forall k | a <= k < t :: tr[k] == x) && (a == 0 || tr[a - 1] != x)
    ensures tr[t] != x
        <==> || Left(jobs, tr[..t], x) == 0
             || ((t - a) % 500 == 0 && OtherLive(jobs, tr[..t], x))
    ensures tr[t] != x ==>
              if Left(jobs, tr[..t], x) != 0 then NextInCycle(jobs, tr[..t], x, tr[t])
              else if NoneLive(jobs, tr[..t]) then tr[t] == IDLE
              else LowestIndex(jobs, tr[..t], tr[t])
  {
    BlockHandsOver(jobs, tr, x, a, t);
  }

  // ---------------------------------------------------------------- bounded waiting

  /** k times r, without a product of two variables. */
  function Times(k: nat, r: int): int {
    if k == 0 then 0 else Times(k - 1, r) + r
  }

  lemma {:induction false} TimesIsProduct(k: nat, r: int)
    ensures Times(k, r) == k * r
  {
    if k == 0 {
    } else {
      TimesIsProduct(k - 1, r);
      assert k * r == (k - 1) * r + r;
    }
  }

  lemma RoundsOfRounds(m: nat)
    ensures 0 <= Times(m, m * QUANTUM) == m * m * QUANTUM
  {
    TimesIsProduct(m, m * QUANTUM);
    assert m * (m * QUANTUM) == m * m * QUANTUM;
    TimesMonotone(0, m, m * QUANTUM);
  }

  lemma {:induction false} TimesMonotone(k: nat, l: nat, r: nat)
    requires k <= l
    ensures 0 <= Times(k, r) <= Times(l, r)
  {
    if k < l {
      TimesMonotone(k, l - 1, r);
    } else if k > 0 {
      TimesMonotone(k - 1, k - 1, r);
    }
  }

  /** How many of the first k processes, j not counted, still have work, released or not. */
  function Open(jobs: seq<Job>, tr: seq<int>, j: int, k: nat): (c: nat)
    requires k <= |jobs|
    ensures c <= k
  {
    if k == 0 then 0
    else Open(jobs, tr, j, k - 1) + if k - 1 != j && Left(jobs, tr, k - 1) > 0 then 1 else 0
  }

  lemma {:induction false} OpenExcludes(jobs: seq<Job>, tr: seq<int>, j: int, k: nat)
    requires 0 <= j < k <= |jobs|
    ensures Open(jobs, tr, j, k) <= k - 1
  {
    if j < k - 1 {
      OpenExcludes(jobs, tr, j, k - 1);
    }
  }

  /** A tick closes its process if that process has nothing left, and no other. */
  lemma {:induction false} OpenTick(jobs: seq<Job>, past: seq<int>, x: int, j: int, k: nat)
    requires Live(jobs, past, x) && x != j && k <= |jobs|
    ensures Open(jobs, past + [x], j, k)
         == Open(jobs, past, j, k) - if x < k && Left(jobs, past + [x], x) == 0 then 1 else 0
    ensures x < k ==> Open(jobs, past, j, k) > 0
  {
    if k == 0 {
    } else {
      OpenTick(jobs, past, x, j, k - 1);
      ServedSnoc(past, x, k - 1);
    }
  }

  /** Ticks from the last one on until the holder of the CPU is next checked. */
  function ToCheck(tr: seq<int>): (c: int)
    requires tr != []
    ensures 1 <= c <= QUANTUM
  {
    QUANTUM - (|tr| - 1 - BlockStart(tr)) % QUANTUM
  }

  /** At most this many ticks pass before j runs, if no process finishes meanwhile. */
  function TurnRank(jobs: seq<Job>, tr: seq<int>, j: int): int
    requires tr != []
  {
    (CyclicDistance(|jobs|, tr[|tr| - 1], j) - 1) * QUANTUM + ToCheck(tr)
  }

  /** At most this many ticks pass before j runs: the present round, and a full round for every
      other process but one, each of which can finish and send the scan back to index 0. */
  function WaitRank(jobs: seq<Job>, past: seq<int>, x: int, j: int): int
    requires Open(jobs, past, j, |jobs|) > 0
  {
    Times(Open(jobs, past, j, |jobs|) - 1, (|jobs| - 1) * QUANTUM) + TurnRank(jobs, past + [x], j)
  }

  /** In the last tick j was live and did not run. */
  ghost predicate WaitsLast(jobs: seq<Job>, tr: seq<int>, j: int) {
    tr != [] && Live(jobs, tr[..|tr| - 1], j) && tr[|tr| - 1] != j
  }

  lemma NextInQuantum(k: int)
    requires (k + 1) % QUANTUM != 0
    ensures (k + 1) % QUANTUM == k % QUANTUM + 1
  {}

  lemma TurnRankBounds(jobs: seq<Job>, tr: seq<int>, j: int)
    requires tr != [] && 0 <= j < |jobs| && 0 <= tr[|tr| - 1] < |jobs| && tr[|tr| - 1] != j
    ensures 1 <= TurnRank(jobs, tr, j) <= CyclicDistance(|jobs|, tr[|tr| - 1], j) * QUANTUM
    ensures TurnRank(jobs, tr, j) <= (|jobs| - 1) * QUANTUM
  {}

  /** While j waits and the holder has not finished, every tick brings j's turn nearer. */
  lemma TurnComesNearer(jobs: seq<Job>, past: seq<int>, y: int, j: int)
    requires past != [] && MayRun(RoundRobin, jobs, past, y)
    requires Live(jobs, past, past[|past| - 1]) && Live(jobs, past, j)
    requires past[|past| - 1] != j && y != j
    ensures TurnRank(jobs, past + [y], j) < TurnRank(jobs, past, j)
  {
    var x := past[|past| - 1];
    BlockStartSnoc(past, y);
    LosesOnlyAtQuantum(jobs, past, y);
    if y != x {
      assert CyclicDistance(|jobs|, x, y) <= CyclicDistance(|jobs|, x, j);
      assert CyclicDistance(|jobs|, y, j) < CyclicDistance(|jobs|, x, j);
    } else {
      NextInQuantum(|past| - 1 - BlockStart(past));
    }
  }

  lemma SomeoneRuns(jobs: seq<Job>, past: seq<int>, y: int, j: int)
    requires MayRun(RoundRobin, jobs, past, y) && Live(jobs, past, j)
    ensures Live(jobs, past, y)
  {}

  /** In two successive ticks x and y had the CPU and j was live: WaitRank went down, whether or not
      x finished. */
  lemma WaitRankFalls(jobs: seq<Job>, past: seq<int>, x: int, y: int, j: int)
    requires MayRun(RoundRobin, jobs, past, x) && MayRun(RoundRobin, jobs, past + [x], y)
    requires Live(jobs, past, j) && Live(jobs, past + [x], j) && x != j && y != j
    ensures Open(jobs, past, j, |jobs|) > 0 && Open(jobs, past + [x], j, |jobs|) > 0
    ensures WaitRank(jobs, past + [x], y, j) < WaitRank(jobs, past, x, j)
  {
    SomeoneRuns(jobs, past, x, j);
    SomeoneRuns(jobs, past + [x], y, j);
    OpenTick(jobs, past, x, j, |jobs|);
    OpenTick(jobs, past + [x], y, j, |jobs|);
    TurnRankBounds(jobs, past + [x], j);
    TurnRankBounds(jobs, past + [x] + [y], j);
    if Left(jobs, past + [x], x) != 0 {
      ServedSnoc(past, x, x);
      TurnComesNearer(jobs, past + [x], y, j);
    }
  }

  /** How many ticks in a row, up to now, process j has been live without running. */
  ghost function Waiting(jobs: seq<Job>, tr: seq<int>, j: int): nat {
    if WaitsLast(jobs, tr, j) then Waiting(jobs, tr[..|tr| - 1], j) + 1 else 0
  }

  lemma WaitRankAtMost(jobs: seq<Job>, past: seq<int>, x: int, j: int)
    requires MayRun(RoundRobin, jobs, past, x) && Live(jobs, past, j) && x != j
    ensures Open(jobs, past, j, |jobs|) > 0
    ensures 1 <= WaitRank(jobs, past, x, j) <= Times(|jobs| - 1, (|jobs| - 1) * QUANTUM)
  {
    SomeoneRuns(jobs, past, x, j);
    OpenTick(jobs, past, x, j, |jobs|);
    OpenExcludes(jobs, past, j, |jobs|);
    TurnRankBounds(jobs, past + [x], j);
    TimesMonotone(Open(jobs, past, j, |jobs|) - 1, |jobs| - 2, (|jobs| - 1) * QUANTUM);
  }

  /** The ticks waited so far and the rank that is left never add up to more than at the start. */
  lemma {:induction false} WaitingConsumesRank(jobs: seq<Job>, tr: seq<int>, j: int)
    requires Obeys(RoundRobin, jobs, tr) && WaitsLast(jobs, tr, j)
    ensures Open(jobs, tr[..|tr| - 1], j, |jobs|) > 0
    ensures Waiting(jobs, tr, j) - 1 + WaitRank(jobs, tr[..|tr| - 1], tr[|tr| - 1], j)
         <= Times(|jobs| - 1, (|jobs| - 1) * QUANTUM)
  {
    var past, y := tr[..|tr| - 1], tr[|tr| - 1];
    if WaitsLast(jobs, past, j) {
      var past0, x := past[..|past| - 1], past[|past| - 1];
      WaitingConsumesRank(jobs, past, j);
      assert past == past0 + [x];
      WaitRankFalls(jobs, past0, x, y, j);
    } else {
      WaitRankAtMost(jobs, past, y, j);
    }
  }

  /** In every tick from a up to b process j is live and another has the CPU. */
  ghost predicate WaitsThrough(jobs: seq<Job>, tr: seq<int>, j: int, a: int, b: int) {
    0 <= a <= b <= |tr| && forall t | a <= t < b :: Live(jobs, tr[..t], j) && tr[t] != j
  }

  lemma {:induction false} WaitingSpans(jobs: seq<Job>, tr: seq<int>, j: int, a: int, b: int)
    requires WaitsThrough(jobs, tr, j, a, b)
    ensures Waiting(jobs, tr[..b], j) >= b - a
    ensures a < b ==> WaitsLast(jobs, tr[..b], j)
    decreases b
  {
    if a < b {
      WaitingSpans(jobs, tr, j, a, b - 1);
      assert tr[..b][..b - 1] == tr[..b - 1];
      assert Live(jobs, tr[..b - 1], j);
    }
  }

  lemma WaitingAtMost(jobs: seq<Job>, tr: seq<int>, j: int)
    requires Obeys(RoundRobin, jobs, tr) && WaitsLast(jobs, tr, j)
    ensures Waiting(jobs, tr, j) <= (|jobs| - 1) * (|jobs| - 1) * QUANTUM
  {
    RoundsOfRounds(|jobs| - 1);
    WaitingConsumesRank(jobs, tr, j);
    WaitRankAtMost(jobs, tr[..|tr| - 1], tr[|tr| - 1], j);
  }

  /** Bounded waiting. In any stretch of ticks in which a process is released, unfinished and without the
      CPU, before its first turn or between turns, there are at most (n-1)^2 quanta of 500, whatever
      finishes or arrives meanwhile. */
  lemma BoundedWaiting(jobs: seq<Job>, tr: seq<int>, j: int, a: int, b: int)
    requires Obeys(RoundRobin, jobs, tr) && 0 <= a <= b <= |tr|
    requires forall t | a <= t < b :: Live(jobs, tr[..t], j) && tr[t] != j
    ensures b - a <= (|jobs| - 1) * (|jobs| - 1) * 500
  {
    WaitingSpans(jobs, tr, j, a, b);
    if a < b {
      ObeysPrefix(RoundRobin, jobs, tr, b);
      WaitingAtMost(jobs, tr[..b], j);
    } else {
      SquareNonNegative(|jobs| - 1);
    }
  }

  lemma SquareNonNegative(m: int)
    ensures m * m >= 0
  {}

  /** No process that runs in the ticks from a up to b - 1 finishes there. */
  ghost predicate NoFinish(jobs: seq<Job>, tr: seq<int>, a: int, b: int) {
    0 <= a <= b <= |tr| && forall t | a <= t < b - 1 && 0 <= tr[t] < |jobs| :: Left(jobs, tr[..t + 1], tr[t]) != 0
  }

  /** The ticks waited since a and the rank that is left never add up to more than at a. */
  lemma {:induction false} QuietWaitConsumesRank(jobs: seq<Job>, tr: seq<int>, j: int, a: int, b: int)
    requires Obeys(RoundRobin, jobs, tr) && WaitsThrough(jobs, tr, j, a, b) && NoFinish(jobs, tr, a, b) && a < b
    ensures Live(jobs, tr[..b - 1], tr[b - 1]) && tr[b - 1] != j
    ensures b - a - 1 + TurnRank(jobs, tr[..b], j) <= CyclicDistance(|jobs|, tr[a], j) * 500
    decreases b
  {
    var past, y := tr[..b - 1], tr[b - 1];
    ObeysAt(RoundRobin, jobs, tr, b - 1);
    assert Live(jobs, past, j);
    SomeoneRuns(jobs, past, y, j);
    assert tr[..b] == past + [y];
    if b - 1 == a {
      TurnRankBounds(jobs, tr[..b], j);
    } else {
      QuietWaitConsumesRank(jobs, tr, j, a, b - 1);
      StillLive(jobs, tr, b - 1);
      assert past[b - 2] == tr[b - 2];
      TurnComesNearer(jobs, past, y, j);
    }
  }

  /** Whoever ran last and did not finish is still live. */
  lemma StillLive(jobs: seq<Job>, tr: seq<int>, t: int)
    requires 0 < t <= |tr| && Live(jobs, tr[..t - 1], tr[t - 1]) && Left(jobs, tr[..t], tr[t - 1]) != 0
    ensures Live(jobs, tr[..t], tr[t - 1])
  {
    assert tr[..t] == tr[..t - 1] + [tr[t - 1]];
    ServedSnoc(tr[..t - 1], tr[t - 1], tr[t - 1]);
  }

  lemma QuietWaitBound(jobs: seq<Job>, tr: seq<int>, j: int, a: int, b: int)
    requires Obeys(RoundRobin, jobs, tr) && WaitsThrough(jobs, tr, j, a, b) && NoFinish(jobs, tr, a, b) && a < b
    ensures b - a <= CyclicDistance(|jobs|, tr[a], j) * 500
  {
    QuietWaitConsumesRank(jobs, tr, j, a, b);
    TurnRankBounds(jobs, tr[..b], j);
  }

  /** While no process finishes, j waits at most one quantum of 500 for each place it is ahead, in cyclic
      index order, of the process that had the CPU when the wait began. */
  lemma WaitsItsDistance(jobs: seq<Job>, tr: seq<int>, j: int, a: int, b: int)
    requires Obeys(RoundRobin, jobs, tr) && 0 <= a < b <= |tr|
    requires forall t | a <= t < b :: Live(jobs, tr[..t], j) && tr[t] != j
    requires forall t | a <= t < b - 1 && 0 <= tr[t] < |jobs| :: Left(jobs, tr[..t + 1], tr[t]) != 0
    ensures b - a <= CyclicDistance(|jobs|, tr[a], j) * 500
  {
    QuietWaitBound(jobs, tr, j, a, b);
  }

  // ---------------------------------------------------------------- accounting

  /** What reaping has added up: each tick that finishes a process adds clock value minus release. */
  function Settled(jobs: seq<Job>, tr: seq<int>): int {
    if tr == [] then 0
    else
      var n := |tr| - 1;
      Settled(jobs, tr[..n])
      + if 0 <= tr[n] < |jobs| && Left(jobs, tr, tr[n]) == 0 then |tr| - jobs[tr[n]].ready else 0
  }

  /** The turnarounds of the processes that have finished. */
  function SettledParts(jobs: seq<Job>, tr: seq<int>): (s: seq<int>)
    ensures |s| == |jobs|
  {
    seq(|jobs|, i requires 0 <= i < |jobs| =>
      if Left(jobs, tr, i) == 0 then Completion(jobs, tr, i) - jobs[i].ready else 0)
  }

  /** A tick settles the process it finishes, at the clock value it ends on, and no other. */
  lemma SettledTick(jobs: seq<Job>, past: seq<int>, x: int)
    requires WellFormed(jobs) && Obeys(AnyValid, jobs, past) && (x == IDLE || Live(jobs, past, x))
    ensures Sum(SettledParts(jobs, past + [x]))
         == Sum(SettledParts(jobs, past))
            + if x != IDLE && Left(jobs, past + [x], x) == 0 then |past| + 1 - jobs[x].ready else 0
  {
    var before, after := SettledParts(jobs, past), SettledParts(jobs, past + [x]);
    assert (past + [x])[..|past|] == past;
    forall i | 0 <= i < |jobs| && i != x ensures before[i] == after[i] {
      ServedSnoc(past, x, i);
      ValidCounters(jobs, past, i);
    }
    if x == IDLE {
      SumEqual(before, after);
    } else {
      ServedSnoc(past, x, x);
      SumChangedAt(before, after, x);
    }
  }

  lemma {:induction false} SettledIsSum(jobs: seq<Job>, tr: seq<int>)
    requires WellFormed(jobs) && Obeys(AnyValid, jobs, tr)
    ensures Settled(jobs, tr) == Sum(SettledParts(jobs, tr))
  {
    if tr == [] {
      SumAllZero(SettledParts(jobs, []));
    } else {
      var past, x := tr[..|tr| - 1], tr[|tr| - 1];
      SettledIsSum(jobs, past);
      SettledTick(jobs, past, x);
      assert tr == past + [x];
    }
  }

  /** At the end that is the sum of completion minus release over all processes. */
  lemma SettledAtEnd(jobs: seq<Job>, tr: seq<int>)
    requires WellFormed(jobs) && Obeys(AnyValid, jobs, tr) && AllDone(jobs, tr)
    ensures Settled(jobs, tr) == Sum(Turnarounds(jobs, tr))
  {
    SettledIsSum(jobs, tr);
    SumEqual(SettledParts(jobs, tr), Turnarounds(jobs, tr));
  }

  // ---------------------------------------------------------------- what the loop keeps account of

  /** When the loop comes round: `last` is when the process that just ran got the CPU, and `wait` the
      turnarounds of those that had finished before the last tick. */
  ghost predicate HeadLedger(jobs: seq<Job>, tr: seq<int>, last: int, wait: int) {
    if tr == [] then wait == 0
    else (tr[|tr| - 1] != IDLE ==> last == BlockStart(tr)) && wait == Settled(jobs, tr[..|tr| - 1])
  }

  /** After reaping. */
  ghost predicate ReapedLedger(jobs: seq<Job>, tr: seq<int>, last: int, wait: int) {
    (Current(jobs, tr) != IDLE ==> last == BlockStart(tr)) && wait == Settled(jobs, tr)
  }

  lemma LedgerReapNone(jobs: seq<Job>, tr: seq<int>, last: int, wait: int)
    requires HeadLedger(jobs, tr, last, wait)
    requires tr == [] || !(0 <= tr[|tr| - 1] < |jobs|) || Left(jobs, tr, tr[|tr| - 1]) != 0
    ensures ReapedLedger(jobs, tr, last, wait)
  {}

  /** Reaping x at clock value |tr| settles it. */
  lemma LedgerReapOne(jobs: seq<Job>, tr: seq<int>, x: int, last: int, wait: int)
    requires HeadLedger(jobs, tr, last, wait)
    requires tr != [] && x == tr[|tr| - 1] && 0 <= x < |jobs| && Left(jobs, tr, x) == 0
    ensures ReapedLedger(jobs, tr, last, wait + |tr| - jobs[x].ready)
  {}

  /** Process x gets the tick: if it goes on it keeps its block, if it takes over it begins one now. */
  lemma LedgerDispatch(jobs: seq<Job>, tr: seq<int>, x: int, last: int, last': int, wait: int)
    requires ReapedLedger(jobs, tr, last, wait) && (x == IDLE || Live(jobs, tr, x))
    requires last' == if x != IDLE && x != Current(jobs, tr) then |tr| else last
    ensures HeadLedger(jobs, tr + [x], last', wait)
  {
    if x != IDLE && tr != [] {
      BlockStartSnoc(tr, x);
    }
    assert (tr + [x])[..|tr|] == tr;
  }

  /** One place further round the table is one cyclic step further away; every other place that is
      not further away was no further than before. */
  lemma OneFurther(n: nat, from: int, at: int)
    requires 0 <= from < n && 0 <= at < n
    ensures 0 <= (at + 1) % n < n
    ensures at == from ==> CyclicDistance(n, from, (at + 1) % n) == 1
    ensures at != from ==> CyclicDistance(n, from, (at + 1) % n) == CyclicDistance(n, from, at) + 1
    ensures at != from ==> CyclicDistance(n, from, at) < n == CyclicDistance(n, from, from)
    ensures forall j | 0 <= j < n && CyclicDistance(n, from, j) == CyclicDistance(n, from, at) :: j == at
    ensures forall j | 0 <= j < n :: CyclicDistance(n, from, j) >= 1
  {
    assert (at + 1) % n == if at + 1 == n then 0 else at + 1;
  }
}

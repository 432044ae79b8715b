/** Jobs, single-CPU schedules, and the rule by which each of the four policies fills one tick.

    A schedule is the list of what ran: entry t is the index of the process that held the CPU in
    tick t, or IDLE. Everything a scheduler loop keeps (remaining counters, who is running, when the
    running block started) is a function of the jobs and of the ticks so far, and is defined here
    without reference to any loop. */
module Schedules {
  const IDLE := -1
  const QUANTUM := 500
  const INT_MAX := 0x7fff_ffff

  datatype Job = Job(ready: int, exec: int)

  /** AnyValid is every legal single-CPU schedule; WorkConserving never idles with work at hand;
      the other four are the policies of the program. */
  datatype Policy = AnyValid | WorkConserving | Fifo | Sjf | Psjf | RoundRobin

  /** What the loops need of their input: release times the clock reaches, and work to do. */
  ghost predicate WellFormed(jobs: seq<Job>) {
    forall i | 0 <= i < |jobs| :: jobs[i].ready >= 0 && jobs[i].exec >= 1
  }

  /** No execution time at the sentinel that the PSJF search starts from, except in the first row. */
  ghost predicate BelowSentinel(jobs: seq<Job>) {
    forall i | 0 < i < |jobs| :: jobs[i].exec < INT_MAX
  }

  ghost predicate SortedByReady(jobs: seq<Job>) {
    forall i, j | 0 <= i < j < |jobs| :: jobs[i].ready <= jobs[j].ready
  }

  // ---------------------------------------------------------------- what a schedule has done so far

  /** The number of ticks process i has run. */
  function Served(tr: seq<int>, i: int): nat {
    if tr == [] then 0
    else Served(tr[..|tr| - 1], i) + if tr[|tr| - 1] == i then 1 else 0
  }

  /** What the `exec` counter of process i holds after the ticks of tr. */
  function Left(jobs: seq<Job>, tr: seq<int>, i: int): int
    requires 0 <= i < |jobs|
  {
    jobs[i].exec - Served(tr, i)
  }

  /** Released when the clock shows |tr|, and unfinished. The clock starts at 0 and a release tests
      for equality with it, so a negative release time never comes. */
  predicate Live(jobs: seq<Job>, tr: seq<int>, i: int) {
    0 <= i < |jobs| && 0 <= jobs[i].ready <= |tr| && Left(jobs, tr, i) > 0
  }

  ghost predicate NoneLive(jobs: seq<Job>, tr: seq<int>) {
    forall i | 0 <= i < |jobs| :: !Live(jobs, tr, i)
  }

  ghost function Finished(jobs: seq<Job>, tr: seq<int>): set<int> {
    set i | 0 <= i < |jobs| && Left(jobs, tr, i) == 0
  }

  ghost predicate AllDone(jobs: seq<Job>, tr: seq<int>) {
    forall i | 0 <= i < |jobs| :: Left(jobs, tr, i) == 0
  }

  /** tr finishes everything, and not a tick earlier. */
  ghost predicate FirstDone(jobs: seq<Job>, tr: seq<int>) {
    AllDone(jobs, tr) && forall k | 0 <= k < |tr| :: !AllDone(jobs, tr[..k])
  }

  /** The process that ran last, if it still has work; otherwise IDLE. */
  function Current(jobs: seq<Job>, tr: seq<int>): int {
    if tr != [] && Live(jobs, tr, tr[|tr| - 1]) then tr[|tr| - 1] else IDLE
  }

  /** The tick at which the last stretch of equal entries began. */
  function BlockStart(tr: seq<int>): (s: nat)
    requires tr != []
    ensures s < |tr|
  {
    var n := |tr| - 1;
    if n == 0 || tr[n - 1] != tr[n] then n else BlockStart(tr[..n])
  }

  // ---------------------------------------------------------------- the policies, one tick at a time

  /** Lexicographic order on (key, index). */
  predicate Precedes(key1: int, i1: int, key2: int, i2: int) {
    key1 < key2 || (key1 == key2 && i1 <= i2)
  }

  /** How many places after `from` in cyclic order index j comes; `from` itself comes last. */
  function CyclicDistance(n: int, from: int, j: int): int {
    if j > from then j - from else j - from + n
  }

  ghost predicate EarliestReleased(jobs: seq<Job>, past: seq<int>, x: int) {
    Live(jobs, past, x) &&
    forall j | 0 <= j < |jobs| && Live(jobs, past, j) :: Precedes(jobs[x].ready, x, jobs[j].ready, j)
  }

  ghost predicate ShortestLeft(jobs: seq<Job>, past: seq<int>, x: int) {
    Live(jobs, past, x) &&
    forall j | 0 <= j < |jobs| && Live(jobs, past, j) ::
      Precedes(Left(jobs, past, x), x, Left(jobs, past, j), j)
  }

  ghost predicate LowestIndex(jobs: seq<Job>, past: seq<int>, x: int) {
    Live(jobs, past, x) && forall j | 0 <= j < |jobs| && Live(jobs, past, j) :: x <= j
  }

  /** The first live index met when walking cyclically from the one after `from`. */
  ghost predicate NextInCycle(jobs: seq<Job>, past: seq<int>, from: int, x: int) {
    Live(jobs, past, x) &&
    forall j | 0 <= j < |jobs| && Live(jobs, past, j) ::
      CyclicDistance(|jobs|, from, x) <= CyclicDistance(|jobs|, from, j)
  }

  /** After `past`, policy `pol` may give the next tick to x. */
  ghost predicate MayRun(pol: Policy, jobs: seq<Job>, past: seq<int>, x: int) {
    if pol == AnyValid then x == IDLE || Live(jobs, past, x)
    else if NoneLive(jobs, past) then x == IDLE
    else
      var cur := Current(jobs, past);
      match pol
      case WorkConserving => Live(jobs, past, x)
      case Fifo => if cur != IDLE then x == cur else EarliestReleased(jobs, past, x)
      case Sjf => if cur != IDLE then x == cur else ShortestLeft(jobs, past, x)
      case Psjf => ShortestLeft(jobs, past, x)
      case RoundRobin =>
        if cur == IDLE then LowestIndex(jobs, past, x)
        else if (|past| - BlockStart(past)) % QUANTUM == 0 then NextInCycle(jobs, past, cur, x)
        else x == cur
  }

  /** Every tick of tr was filled as the policy says; see ObeysMeans. */
  ghost predicate Obeys(pol: Policy, jobs: seq<Job>, tr: seq<int>) {
    tr == [] ||
    (Obeys(pol, jobs, tr[..|tr| - 1]) && MayRun(pol, jobs, tr[..|tr| - 1], tr[|tr| - 1]))
  }

  // ---------------------------------------------------------------- building and cutting schedules

  lemma ServedSnoc(tr: seq<int>, x: int, i: int)
    ensures Served(tr + [x], i) == Served(tr, i) + if x == i then 1 else 0
  {
    assert (tr + [x])[..|tr|] == tr;
  }

  lemma ObeysSnoc(pol: Policy, jobs: seq<Job>, tr: seq<int>, x: int)
    requires Obeys(pol, jobs, tr) && MayRun(pol, jobs, tr, x)
    ensures Obeys(pol, jobs, tr + [x])
  {
    assert (tr + [x])[..|tr|] == tr;
  }

  lemma {:induction false} ObeysPrefix(pol: Policy, jobs: seq<Job>, tr: seq<int>, k: int)
    requires Obeys(pol, jobs, tr) && 0 <= k <= |tr|
    ensures Obeys(pol, jobs, tr[..k])
  {
    if k == |tr| {
      assert tr[..k] == tr;
    } else {
      ObeysPrefix(pol, jobs, tr[..|tr| - 1], k);
      assert tr[..|tr| - 1][..k] == tr[..k];
    }
  }

  /** The tick at clock value t, seen after the ticks before it. */
  lemma ObeysAt(pol: Policy, jobs: seq<Job>, tr: seq<int>, t: int)
    requires Obeys(pol, jobs, tr) && 0 <= t < |tr|
    ensures Obeys(pol, jobs, tr[..t]) && MayRun(pol, jobs, tr[..t], tr[t])
  {
    ObeysPrefix(pol, jobs, tr, t + 1);
    assert tr[..t + 1][..t] == tr[..t];
  }

  lemma {:induction false} ObeysMeans(pol: Policy, jobs: seq<Job>, tr: seq<int>)
    ensures Obeys(pol, jobs, tr) <==> forall t | 0 <= t < |tr| :: MayRun(pol, jobs, tr[..t], tr[t])
  {
    if Obeys(pol, jobs, tr) {
      forall t | 0 <= t < |tr| ensures MayRun(pol, jobs, tr[..t], tr[t]) {
        ObeysAt(pol, jobs, tr, t);
      }
    } else {
      var n := |tr| - 1;
      ObeysMeans(pol, jobs, tr[..n]);
      if forall t | 0 <= t < |tr| :: MayRun(pol, jobs, tr[..t], tr[t]) {
        forall t | 0 <= t < n ensures MayRun(pol, jobs, tr[..n][..t], tr[..n][t]) {
          assert tr[..n][..t] == tr[..t];
        }
      }
    }
  }

  lemma SamePastSameTick(a: seq<int>, b: seq<int>)
    requires a != [] && b != []
    requires a[..|a| - 1] == b[..|b| - 1] && a[|a| - 1] == b[|b| - 1]
    ensures a == b
  {
    assert a == a[..|a| - 1] + [a[|a| - 1]];
    assert b == b[..|b| - 1] + [b[|b| - 1]];
  }

  lemma {:induction false} ServedMonotone(tr: seq<int>, k: int, i: int)
    requires 0 <= k <= |tr|
    ensures Served(tr[..k], i) <= Served(tr, i)
  {
    if k == |tr| {
      assert tr[..k] == tr;
    } else {
      var n := |tr| - 1;
      ServedMonotone(tr[..n], k, i);
      assert tr[..n][..k] == tr[..k];
    }
  }

  lemma {:induction false} BlockIsMaximal(tr: seq<int>)
    requires tr != []
    ensures forall t | BlockStart(tr) <= t < |tr| :: tr[t] == tr[|tr| - 1]
    ensures BlockStart(tr) == 0 || tr[BlockStart(tr) - 1] != tr[|tr| - 1]
  {
    var n := |tr| - 1;
    if n > 0 && tr[n - 1] == tr[n] {
      BlockIsMaximal(tr[..n]);
      assert forall t | 0 <= t < n :: tr[..n][t] == tr[t];
    }
  }

  lemma BlockStartSnoc(tr: seq<int>, x: int)
    requires tr != []
    ensures BlockStart(tr + [x]) == if tr[|tr| - 1] == x then BlockStart(tr) else |tr|
  {
    assert (tr + [x])[..|tr|] == tr;
  }

  // ---------------------------------------------------------------- what every policy guarantees

  /** Each of the four policies is work conserving, and every work-conserving schedule is valid. */
  lemma {:induction false} PolicyIsWorkConserving(pol: Policy, jobs: seq<Job>, tr: seq<int>)
    requires Obeys(pol, jobs, tr)
    ensures pol != AnyValid ==> Obeys(WorkConserving, jobs, tr)
    ensures Obeys(AnyValid, jobs, tr)
  {
    if tr == [] {
    } else {
      PolicyIsWorkConserving(pol, jobs, tr[..|tr| - 1]);
    }
  }

  /** In a valid schedule no counter goes below zero, and nothing runs before its release. */
  lemma {:induction false} ValidCounters(jobs: seq<Job>, tr: seq<int>, i: int)
    requires WellFormed(jobs) && Obeys(AnyValid, jobs, tr) && 0 <= i < |jobs|
    ensures Left(jobs, tr, i) >= 0
    ensures jobs[i].ready >= |tr| ==> Served(tr, i) == 0
  {
    if tr == [] {
    } else {
      ValidCounters(jobs, tr[..|tr| - 1], i);
    }
  }

  /** Once finished, finished for good. */
  lemma FinishedStays(jobs: seq<Job>, tr: seq<int>, k: int)
    requires WellFormed(jobs) && Obeys(AnyValid, jobs, tr) && 0 <= k <= |tr|
    ensures Finished(jobs, tr[..k]) <= Finished(jobs, tr)
    ensures AllDone(jobs, tr[..k]) ==> AllDone(jobs, tr)
  {
    forall i | 0 <= i < |jobs| && Left(jobs, tr[..k], i) == 0 ensures Left(jobs, tr, i) == 0 {
      ServedMonotone(tr, k, i);
      ValidCounters(jobs, tr, i);
    }
  }

  /** Same policy, same jobs, same length: same schedule. */
  lemma {:induction false} PolicyIsDeterministic(pol: Policy, jobs: seq<Job>, a: seq<int>, b: seq<int>)
    requires pol != AnyValid && pol != WorkConserving
    requires Obeys(pol, jobs, a) && Obeys(pol, jobs, b) && |a| == |b|
    ensures a == b
  {
    if a == [] {
    } else {
      PolicyIsDeterministic(pol, jobs, a[..|a| - 1], b[..|b| - 1]);
      SamePastSameTick(a, b);
    }
  }
}

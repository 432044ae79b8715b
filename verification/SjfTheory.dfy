/** The tick-by-tick SJF loop refines an event-driven scheduler that looks at the table only when
    the CPU is free. */
module SjfTheory {
  import opened Sums
  import opened Schedules
  import opened Optimality

  /** One dispatch: process `index` holds the CPU from clock value `start` up to `end`. */
  datatype Slot = Slot(index: int, start: int, end: int)

  ghost predicate Covers(done: set<int>, n: nat) {
    forall i | 0 <= i < n :: i in done
  }

  /** The first process among the first k with the least release time of those not done. */
  function FirstReleased(jobs: seq<Job>, done: set<int>, k: nat): (x: int)
    requires k <= |jobs|
    ensures x == IDLE || (0 <= x < k && x !in done)
    ensures forall j | 0 <= j < k && j !in done :: x != IDLE && jobs[x].ready <= jobs[j].ready
  {
    if k == 0 then IDLE
    else
      var x := FirstReleased(jobs, done, k - 1);
      if k - 1 !in done && (x == IDLE || jobs[k - 1].ready < jobs[x].ready) then k - 1 else x
  }

  /** The leftmost among the first k of the shortest processes not done and released by clock value t. */
  function Shortest(jobs: seq<Job>, done: set<int>, k: nat, t: int): (x: int)
    requires k <= |jobs|
    ensures x == IDLE || (0 <= x < k && x !in done && jobs[x].ready <= t)
    ensures forall j | 0 <= j < k && j !in done && jobs[j].ready <= t ::
              x != IDLE && Precedes(jobs[x].exec, x, jobs[j].exec, j)
  {
    if k == 0 then IDLE
    else
      var x := Shortest(jobs, done, k - 1, t);
      if k - 1 !in done && jobs[k - 1].ready <= t && (x == IDLE || jobs[k - 1].exec < jobs[x].exec)
      then k - 1 else x
  }

  /** The CPU is free at clock value t: who gets it next, and when. */
  function NextSlot(jobs: seq<Job>, done: set<int>, t: int): (s: Slot)
    requires !Covers(done, |jobs|)
    ensures 0 <= s.index < |jobs| && s.index !in done && t <= s.start
  {
    var start := Max(t, jobs[FirstReleased(jobs, done, |jobs|)].ready);
    var x := Shortest(jobs, done, |jobs|, start);
    Slot(x, start, start + jobs[x].exec)
  }

  /** The event-driven scheduler: dispatch, jump to the end of the dispatch, repeat. */
  ghost function Events(jobs: seq<Job>, done: set<int>, t: int): seq<Slot>
    decreases Indices(|jobs|) - done
  {
    if Covers(done, |jobs|) then []
    else
      var s := NextSlot(jobs, done, t);
      [s] + Events(jobs, done + {s.index}, s.end)
  }

  /** The ticks from clock value t on that a list of dispatches stands for. */
  ghost function Render(slots: seq<Slot>, t: int): seq<int> {
    if slots == [] then []
    else
      var s := slots[0];
      Repeat(IDLE, s.start - t) + Repeat(s.index, s.end - s.start) + Render(slots[1..], s.end)
  }

  function Repeat(x: int, n: int): (r: seq<int>)
    ensures |r| == Max(n, 0) && forall i | 0 <= i < |r| :: r[i] == x
  {
    if n <= 0 then [] else Repeat(x, n - 1) + [x]
  }

  /** The CPU is free: exactly the processes in `done` have run, and they have finished. */
  ghost predicate Free(jobs: seq<Job>, tr: seq<int>, done: set<int>) {
    forall i | 0 <= i < |jobs| ::
      if i in done then Left(jobs, tr, i) == 0 else Served(tr, i) == 0
  }

  lemma FreeMeansNoRunner(jobs: seq<Job>, tr: seq<int>, done: set<int>)
    requires Free(jobs, tr, done)
    ensures Current(jobs, tr) == IDLE
    ensures forall i | 0 <= i < |jobs| ::
              Live(jobs, tr, i) <==> i !in done && 0 <= jobs[i].ready <= |tr| && jobs[i].exec > 0
  {
    if tr != [] && 0 <= tr[|tr| - 1] < |jobs| {
      assert Served(tr, tr[|tr| - 1]) > 0;
    }
  }

  ghost predicate AllEqual(tr: seq<int>, a: int, b: int, x: int)
    requires 0 <= a && b <= |tr|
  {
    forall v | a <= v < b :: tr[v] == x
  }

  /** Until the next start the loop idles. */
  lemma {:induction false} IdlesUntilStart(jobs: seq<Job>, tr: seq<int>, t: int, done: set<int>, u: int)
    requires WellFormed(jobs) && Obeys(Sjf, jobs, tr)
    requires 0 <= t <= u <= |tr| && Free(jobs, tr[..t], done) && !Covers(done, |jobs|)
    requires u <= NextSlot(jobs, done, t).start
    ensures Free(jobs, tr[..u], done)
    ensures AllEqual(tr, t, u, IDLE)
    decreases u
  {
    if t < u {
      IdlesUntilStart(jobs, tr, t, done, u - 1);
      var past := tr[..u - 1];
      FreeMeansNoRunner(jobs, past, done);
      assert NoneLive(jobs, past);
      ObeysAt(Sjf, jobs, tr, u - 1);
      assert tr[..u] == past + [IDLE];
      forall i | 0 <= i < |jobs| ensures Served(tr[..u], i) == Served(past, i) {
        ServedSnoc(past, IDLE, i);
      }
    }
  }

  /** Slot s is what the event-driven scheduler dispatches on a CPU that is free at s.start. */
  ghost predicate Dispatched(jobs: seq<Job>, tr: seq<int>, done: set<int>, s: Slot) {
    0 <= s.start <= |tr| && Free(jobs, tr[..s.start], done)
    && 0 <= s.index < |jobs| && s.index !in done
    && s.index == Shortest(jobs, done, |jobs|, s.start) && s.end == s.start + jobs[s.index].exec
  }

  /** From s.start up to u only s.index has run. */
  ghost predicate Held(jobs: seq<Job>, tr: seq<int>, s: Slot, u: int)
    requires 0 <= s.start <= u <= |tr|
  {
    AllEqual(tr, s.start, u, s.index)
    && forall i | 0 <= i < |jobs| ::
         Served(tr[..u], i) == Served(tr[..s.start], i) + if i == s.index then u - s.start else 0
  }

  /** The tick at clock value u goes to the slot's process while the slot lasts. */
  lemma SlotHolds(jobs: seq<Job>, tr: seq<int>, done: set<int>, s: Slot, u: int)
    requires WellFormed(jobs) && Obeys(Sjf, jobs, tr) && Dispatched(jobs, tr, done, s)
    requires s.start <= u < |tr| && u < s.end && Held(jobs, tr, s, u)
    ensures tr[u] == s.index
  {
    var past := tr[..u];
    ObeysAt(Sjf, jobs, tr, u);
    assert Live(jobs, past, s.index);
    if u == s.start {
      FreeMeansNoRunner(jobs, past, done);
      assert Precedes(jobs[s.index].exec, s.index, jobs[tr[u]].exec, tr[u]);
      assert Precedes(Left(jobs, past, tr[u]), tr[u], Left(jobs, past, s.index), s.index);
    } else {
      assert past[u - 1] == s.index;
    }
  }

  /** A dispatched process holds the CPU without interruption until it has finished. */
  lemma {:induction false} RunsToCompletion(jobs: seq<Job>, tr: seq<int>, done: set<int>, s: Slot, u: int)
    requires WellFormed(jobs) && Obeys(Sjf, jobs, tr) && Dispatched(jobs, tr, done, s)
    requires s.start <= u <= |tr| && u <= s.end
    ensures Held(jobs, tr, s, u)
    decreases u
  {
    if s.start < u {
      RunsToCompletion(jobs, tr, done, s, u - 1);
      SlotHolds(jobs, tr, done, s, u - 1);
      HeldOneMore(jobs, tr, s, u - 1);
    }
  }

  lemma HeldOneMore(jobs: seq<Job>, tr: seq<int>, s: Slot, u: int)
    requires 0 <= s.start <= u < |tr| && Held(jobs, tr, s, u) && tr[u] == s.index
    ensures Held(jobs, tr, s, u + 1)
  {
    assert tr[..u + 1] == tr[..u] + [s.index];
    forall i | 0 <= i < |jobs|
      ensures Served(tr[..u + 1], i) == Served(tr[..u], i) + if i == s.index then 1 else 0
    {
      ServedSnoc(tr[..u], s.index, i);
    }
  }

  /** A finished schedule is long enough for the dispatch that comes next. */
  lemma FitsInTrace(jobs: seq<Job>, tr: seq<int>, done: set<int>, t: int, s: Slot)
    requires WellFormed(jobs) && Obeys(Sjf, jobs, tr) && AllDone(jobs, tr)
    requires 0 <= t <= |tr| && Free(jobs, tr[..t], done) && !Covers(done, |jobs|)
    requires s == NextSlot(jobs, done, t)
    ensures s.end <= |tr| && Dispatched(jobs, tr, done, s) && AllEqual(tr, t, s.start, IDLE)
  {
    assert tr[..|tr|] == tr;
    assert Left(jobs, tr, s.index) == 0;
    if |tr| < s.start {
      IdlesUntilStart(jobs, tr, t, done, |tr|);
    }
    IdlesUntilStart(jobs, tr, t, done, s.start);
    if |tr| < s.end {
      RunsToCompletion(jobs, tr, done, s, |tr|);
    }
  }

  /** When the slot is over the CPU is free again, with one more process done. */
  lemma FreeAfterSlot(jobs: seq<Job>, tr: seq<int>, done: set<int>, s: Slot)
    requires WellFormed(jobs) && Obeys(Sjf, jobs, tr) && Dispatched(jobs, tr, done, s) && s.end <= |tr|
    ensures Free(jobs, tr[..s.end], done + {s.index})
    ensures AllEqual(tr, s.start, s.end, s.index)
  {
    RunsToCompletion(jobs, tr, done, s, s.end);
  }

  lemma SlotRendered(tr: seq<int>, s: Slot, rest: seq<Slot>, t: int)
    requires 0 <= t <= s.start <= s.end <= |tr|
    requires AllEqual(tr, t, s.start, IDLE) && AllEqual(tr, s.start, s.end, s.index)
    requires tr[s.end..] == Render(rest, s.end)
    ensures tr[t..] == Render([s] + rest, t)
  {
    assert ([s] + rest)[1..] == rest;
    assert tr[t..s.start] == Repeat(IDLE, s.start - t);
    assert tr[s.start..s.end] == Repeat(s.index, s.end - s.start);
    assert tr[t..] == tr[t..s.start] + tr[s.start..s.end] + tr[s.end..];
  }

  /** From a free CPU on, the ticks of the SJF loop are the rendering of the event-driven schedule. */
  lemma {:induction false} SjfFollowsEvents(jobs: seq<Job>, tr: seq<int>, done: set<int>, t: int)
    requires WellFormed(jobs) && Obeys(Sjf, jobs, tr) && FirstDone(jobs, tr)
    requires 0 <= t <= |tr| && Free(jobs, tr[..t], done)
    ensures tr[t..] == Render(Events(jobs, done, t), t)
    decreases Indices(|jobs|) - done
  {
    if Covers(done, |jobs|) {
      assert AllDone(jobs, tr[..t]);
    } else {
      var s := NextSlot(jobs, done, t);
      FitsInTrace(jobs, tr, done, t, s);
      FreeAfterSlot(jobs, tr, done, s);
      SjfFollowsEvents(jobs, tr, done + {s.index}, s.end);
      SlotRendered(tr, s, Events(jobs, done + {s.index}, s.end), t);
    }
  }

  /** The whole SJF run, tick by tick, is the event-driven schedule: same order, starts and ends. */
  lemma SjfIsEventDriven(jobs: seq<Job>, tr: seq<int>)
    requires WellFormed(jobs) && Obeys(Sjf, jobs, tr) && FirstDone(jobs, tr)
    ensures tr == Render(Events(jobs, {}, 0), 0)
  {
    SjfFollowsEvents(jobs, tr, {}, 0);
    assert tr[0..] == tr;
  }

  // ---------------------------------------------------------------- no preemption

  /** The ticks of process i in tr are those from a on, as many as it has been served. */
  ghost predicate OneBlock(tr: seq<int>, i: int, a: int) {
    0 <= a && a + Served(tr, i) <= |tr|
    && forall t | 0 <= t < |tr| :: tr[t] == i <==> a <= t < a + Served(tr, i)
  }

  lemma OneBlockTick(past: seq<int>, x: int, i: int, a: int) returns (b: int)
    requires OneBlock(past, i, a)
    requires x == i && Served(past, i) > 0 ==> past[|past| - 1] == i
    ensures OneBlock(past + [x], i, b)
  {
    ServedSnoc(past, x, i);
    b := if x == i && Served(past, i) == 0 then |past| else a;
    if x == i && Served(past, i) > 0 {
      assert a + Served(past, i) == |past|;
    }
  }

  /** Under Fifo and Sjf the ticks of a process are one contiguous stretch; only the process that
      ran last can be partly done. */
  lemma {:induction false} RunsInOneBlock(pol: Policy, jobs: seq<Job>, tr: seq<int>, i: int) returns (a: int)
    requires pol in {Fifo, Sjf} && WellFormed(jobs) && Obeys(pol, jobs, tr) && 0 <= i < |jobs|
    ensures OneBlock(tr, i, a)
    ensures Served(tr, i) > 0 && Left(jobs, tr, i) > 0 ==> Current(jobs, tr) == i
  {
    if tr == [] {
      a := 0;
    } else {
      var past, x := tr[..|tr| - 1], tr[|tr| - 1];
      assert tr == past + [x];
      var a0 := RunsInOneBlock(pol, jobs, past, i);
      StaysOrNew(pol, jobs, past, x, i);
      a := OneBlockTick(past, x, i, a0);
    }
  }

  lemma StaysOrNew(pol: Policy, jobs: seq<Job>, past: seq<int>, x: int, i: int)
    requires pol in {Fifo, Sjf} && WellFormed(jobs) && Obeys(pol, jobs, past) && 0 <= i < |jobs|
    requires MayRun(pol, jobs, past, x)
    requires Served(past, i) > 0 && Left(jobs, past, i) > 0 ==> Current(jobs, past) == i
    ensures x == i && Served(past, i) > 0 ==> past != [] && past[|past| - 1] == i
    ensures Served(past + [x], i) > 0 && Left(jobs, past + [x], i) > 0 ==> Current(jobs, past + [x]) == i
  {
    ServedSnoc(past, x, i);
    PolicyIsWorkConserving(pol, jobs, past);
    ValidCounters(jobs, past, i);
    if Served(past, i) > 0 && Left(jobs, past, i) > 0 {
      assert Live(jobs, past, i);
    }
  }

  /** A finished process has run without interruption for its whole original execution time, up to
      its completion; and when it was dispatched, no released unfinished process had a smaller
      original execution time (or an equal one and a lower index). */
  lemma SjfNeverPreempts(jobs: seq<Job>, tr: seq<int>, i: int) returns (start: int)
    requires WellFormed(jobs) && Obeys(Sjf, jobs, tr) && 0 <= i < |jobs| && Left(jobs, tr, i) == 0
    ensures 0 <= start && start + jobs[i].exec == Completion(jobs, tr, i) <= |tr|
    ensures forall t | 0 <= t < |tr| :: tr[t] == i <==> start <= t < start + jobs[i].exec
    ensures forall j | 0 <= j < |jobs| && Live(jobs, tr[..start], j) ::
              Precedes(jobs[i].exec, i, jobs[j].exec, j)
  {
    start := RunsInOneBlock(Sjf, jobs, tr, i);
    var past := tr[..start];
    ObeysAt(Sjf, jobs, tr, start);
    PolicyIsWorkConserving(Sjf, jobs, tr);
    NotServedWithoutTicks(past, i);
    assert ShortestLeft(jobs, past, i);
    forall j | 0 <= j < |jobs| && Live(jobs, past, j) ensures Left(jobs, past, j) == jobs[j].exec {
      var b := RunsInOneBlock(Sjf, jobs, past, j);
    }
    var c := start + jobs[i].exec;
    ServedInBlock(tr, i, start, jobs[i].exec);
    CompletionIsFirstZero(jobs, tr, i, c);
  }

  lemma {:induction false} NotServedWithoutTicks(tr: seq<int>, i: int)
    requires forall t | 0 <= t < |tr| :: tr[t] != i
    ensures Served(tr, i) == 0
  {
    if tr == [] {
    } else {
      NotServedWithoutTicks(tr[..|tr| - 1], i);
    }
  }

  lemma {:induction false} ServedInBlock(tr: seq<int>, i: int, a: int, len: nat)
    requires 0 <= a && a + len <= |tr|
    requires forall t | 0 <= t < |tr| :: tr[t] == i <==> a <= t < a + len
    ensures forall k | 0 <= k <= a + len :: Served(tr[..k], i) == Max(k - a, 0)
  {
    forall k | 0 <= k <= a + len ensures Served(tr[..k], i) == Max(k - a, 0) {
      ServedInBlockUpTo(tr, i, a, len, k);
    }
  }

  lemma {:induction false} ServedInBlockUpTo(tr: seq<int>, i: int, a: int, len: nat, k: nat)
    requires 0 <= a && a + len <= |tr| && k <= a + len
    requires forall t | 0 <= t < |tr| :: tr[t] == i <==> a <= t < a + len
    ensures Served(tr[..k], i) == Max(k - a, 0)
  {
    if k == 0 {
    } else {
      ServedInBlockUpTo(tr, i, a, len, k - 1);
      assert tr[..k] == tr[..k - 1] + [tr[k - 1]];
      ServedSnoc(tr[..k - 1], tr[k - 1], i);
    }
  }
}

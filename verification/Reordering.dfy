/** Three of the schedulers sort the process table first and one does not, so comparing them on the
    same input means comparing schedules of the same jobs under different numberings. */
module Reordering {
  import opened Sums
  import opened Schedules
  import opened Workload
  import opened Optimality
  import opened Accounting

  ghost predicate IsPermutation(perm: seq<int>, n: nat) {
    |perm| == n
    && (forall k | 0 <= k < n :: 0 <= perm[k] < n)
    && (forall k, l | 0 <= k < l < n :: perm[k] != perm[l])
  }

  /** `sorted` lists the jobs of `input` in the order perm: entry k is input job perm[k]. */
  ghost predicate Reorders(input: seq<Job>, sorted: seq<Job>, perm: seq<int>) {
    |input| == |sorted| && IsPermutation(perm, |input|)
    && forall k | 0 <= k < |input| :: sorted[k] == input[perm[k]]
  }

  /** A schedule of the sorted jobs, with the processes called by their input numbers. */
  function Rename(perm: seq<int>, tr: seq<int>): (r: seq<int>)
    ensures |r| == |tr|
  {
    seq(|tr|, t requires 0 <= t < |tr| => if 0 <= tr[t] < |perm| then perm[tr[t]] else IDLE)
  }

  ghost function ImageOf(perm: seq<int>, s: set<int>): set<int>
    requires forall k | k in s :: 0 <= k < |perm|
  {
    set k | k in s :: perm[k]
  }

  /** Different positions have different images, so images do not shrink. */
  lemma {:induction false} ImageSize(perm: seq<int>, n: nat, m: nat, s: set<int>)
    requires IsPermutation(perm, n) && m <= n && forall k | k in s :: 0 <= k < m
    ensures |ImageOf(perm, s)| == |s|
  {
    if m == 0 {
      assert forall k :: k !in s;
    } else {
      var rest := s - {m - 1};
      ImageSize(perm, n, m - 1, rest);
      if m - 1 in s {
        assert s == rest + {m - 1};
        assert ImageOf(perm, s) == ImageOf(perm, rest) + {perm[m - 1]};
        assert perm[m - 1] !in ImageOf(perm, rest);
      } else {
        assert s == rest;
      }
    }
  }

  lemma PermutationCovers(perm: seq<int>, n: nat, i: int) returns (k: int)
    requires IsPermutation(perm, n) && 0 <= i < n
    ensures 0 <= k < n && perm[k] == i
  {
    var image := ImageOf(perm, Indices(n));
    ImageSize(perm, n, n, Indices(n));
    if i !in image {
      SubsetSize(image, Indices(n) - {i});
    }
    k :| 0 <= k < n && perm[k] == i;
  }

  lemma {:induction false} RenameServed(perm: seq<int>, n: nat, tr: seq<int>, k: int)
    requires IsPermutation(perm, n) && 0 <= k < n
    ensures Served(Rename(perm, tr), perm[k]) == Served(tr, k)
  {
    if tr == [] {
    } else {
      RenameServed(perm, n, tr[..|tr| - 1], k);
      assert Rename(perm, tr)[..|tr| - 1] == Rename(perm, tr[..|tr| - 1]);
    }
  }

  lemma RenameLive(input: seq<Job>, sorted: seq<Job>, perm: seq<int>, tr: seq<int>)
    requires Reorders(input, sorted, perm)
    ensures forall k | 0 <= k < |input| :: Live(input, Rename(perm, tr), perm[k]) == Live(sorted, tr, k)
    ensures NoneLive(input, Rename(perm, tr)) == NoneLive(sorted, tr)
  {
    forall k | 0 <= k < |input|
      ensures Live(input, Rename(perm, tr), perm[k]) == Live(sorted, tr, k)
    {
      RenameServed(perm, |input|, tr, k);
    }
    if NoneLive(sorted, tr) {
      forall i | 0 <= i < |input| ensures !Live(input, Rename(perm, tr), i) {
        var k := PermutationCovers(perm, |input|, i);
      }
    } else {
      var k :| 0 <= k < |input| && Live(sorted, tr, k);
      assert Live(input, Rename(perm, tr), perm[k]);
    }
  }

  /** Renaming keeps schedules valid and work conserving. */
  lemma {:induction false} RenameObeys(pol: Policy, input: seq<Job>, sorted: seq<Job>, perm: seq<int>, tr: seq<int>)
    requires Reorders(input, sorted, perm) && pol in {AnyValid, WorkConserving}
    requires Obeys(pol, sorted, tr)
    ensures Obeys(pol, input, Rename(perm, tr))
  {
    if tr == [] {
    } else {
      var past := tr[..|tr| - 1];
      RenameObeys(pol, input, sorted, perm, past);
      RenameLive(input, sorted, perm, past);
      assert Rename(perm, tr)[..|tr| - 1] == Rename(perm, past);
    }
  }

  /** Renaming keeps who is finished, and so how many. */
  lemma RenameFinished(input: seq<Job>, sorted: seq<Job>, perm: seq<int>, tr: seq<int>)
    requires Reorders(input, sorted, perm)
    ensures |Finished(input, Rename(perm, tr))| == |Finished(sorted, tr)|
    ensures AllDone(input, Rename(perm, tr)) == AllDone(sorted, tr)
  {
    var n := |input|;
    var image := ImageOf(perm, Finished(sorted, tr));
    ImageSize(perm, n, n, Finished(sorted, tr));
    forall i | 0 <= i < n ensures i in image <==> i in Finished(input, Rename(perm, tr)) {
      var k := PermutationCovers(perm, n, i);
      RenameServed(perm, n, tr, k);
    }
    assert image == Finished(input, Rename(perm, tr));
    FinishedAtMost(input, Rename(perm, tr));
    FinishedAtMost(sorted, tr);
  }

  lemma RenameFirstDone(input: seq<Job>, sorted: seq<Job>, perm: seq<int>, tr: seq<int>)
    requires Reorders(input, sorted, perm) && FirstDone(sorted, tr)
    ensures FirstDone(input, Rename(perm, tr))
  {
    RenameFinished(input, sorted, perm, tr);
    forall k | 0 <= k < |tr| ensures !AllDone(input, Rename(perm, tr)[..k]) {
      RenameFinished(input, sorted, perm, tr[..k]);
      assert Rename(perm, tr)[..k] == Rename(perm, tr[..k]);
    }
  }

  lemma {:induction false} RenameUnfinishedOverTime(input: seq<Job>, sorted: seq<Job>, perm: seq<int>, tr: seq<int>)
    requires Reorders(input, sorted, perm)
    ensures UnfinishedOverTime(input, Rename(perm, tr)) == UnfinishedOverTime(sorted, tr)
  {
    if tr == [] {
    } else {
      var past := tr[..|tr| - 1];
      RenameUnfinishedOverTime(input, sorted, perm, past);
      RenameFinished(input, sorted, perm, past);
      assert Rename(perm, tr)[..|tr| - 1] == Rename(perm, past);
    }
  }

  // ---------------------------------------------------------------- the policies on one input

  /** PSJF on the table as read, against any valid schedule of the sorted table: never fewer
      processes finished at any clock value. */
  lemma PsjfLeadsOnSameInput(input: seq<Job>, p: seq<int>, sorted: seq<Job>, perm: seq<int>, q: seq<int>)
    requires WellFormed(input) && Reorders(input, sorted, perm) && |p| == |q|
    requires Obeys(Psjf, input, p) && Obeys(AnyValid, sorted, q)
    ensures |Finished(input, p)| >= |Finished(sorted, q)|
  {
    RenameObeys(AnyValid, input, sorted, perm, q);
    RenameFinished(input, sorted, perm, q);
    PsjfFinishesMost(input, p, Rename(perm, q));
  }

  /** From one input PSJF has the least total completion time of the four policies (indeed of all
      valid schedules), and all four exit at the same clock value. */
  lemma FourPoliciesOnSameInput(input: seq<Job>, p: seq<int>, pol: Policy, sorted: seq<Job>, perm: seq<int>, q: seq<int>)
    requires WellFormed(input) && Reorders(input, sorted, perm)
    requires Obeys(Psjf, input, p) && FirstDone(input, p)
    requires Obeys(pol, sorted, q) && FirstDone(sorted, q)
    ensures TotalCompletion(input, p) <= TotalCompletion(sorted, q)
    ensures pol != AnyValid ==> |p| == |q|
  {
    var r := Rename(perm, q);
    PolicyIsWorkConserving(pol, sorted, q);
    PolicyIsWorkConserving(Psjf, input, p);
    RenameObeys(AnyValid, input, sorted, perm, q);
    RenameFirstDone(input, sorted, perm, q);
    PsjfMinimisesTotalCompletion(input, p, r);
    RenameUnfinishedOverTime(input, sorted, perm, q);
    TotalCompletionIsUnfinishedOverTime(input, r);
    TotalCompletionIsUnfinishedOverTime(sorted, q);
    if pol != AnyValid {
      RenameObeys(WorkConserving, input, sorted, perm, q);
      SameExitClock(input, p, r);
    }
  }

  /** The values of the first m entries. */
  function ValuesBelow(perm: seq<int>, m: nat): set<int>
    requires m <= |perm|
  {
    if m == 0 then {} else ValuesBelow(perm, m - 1) + {perm[m - 1]}
  }

  lemma {:induction false} ValuesBelowMembers(perm: seq<int>, m: nat)
    requires m <= |perm|
    ensures forall i :: i in ValuesBelow(perm, m) <==> exists k | 0 <= k < m :: perm[k] == i
  {
    if m == 0 {
    } else {
      ValuesBelowMembers(perm, m - 1);
    }
  }

  lemma MaskGrows(a: seq<int>, s: set<int>, i: int)
    requires 0 <= i < |a| && i !in s
    ensures Sum(Mask(a, s + {i})) == Sum(Mask(a, s)) + a[i]
  {
    SumChangedAt(Mask(a, s), Mask(a, s + {i}), i);
  }

  /** Adding up in another order. */
  lemma {:induction false} SumReordered(a: seq<int>, b: seq<int>, perm: seq<int>, m: nat)
    requires IsPermutation(perm, |a|) && |b| == |a| && m <= |a|
    requires forall k | 0 <= k < |a| :: b[k] == a[perm[k]]
    ensures Sum(b[..m]) == Sum(Mask(a, ValuesBelow(perm, m)))
  {
    if m == 0 {
      SumAllZero(Mask(a, {}));
    } else {
      SumReordered(a, b, perm, m - 1);
      ValuesBelowMembers(perm, m - 1);
      MaskGrows(a, ValuesBelow(perm, m - 1), perm[m - 1]);
      assert b[..m][..m - 1] == b[..m - 1];
    }
  }

  lemma SameSum(a: seq<int>, b: seq<int>, perm: seq<int>)
    requires IsPermutation(perm, |a|) && |b| == |a|
    requires forall k | 0 <= k < |a| :: b[k] == a[perm[k]]
    ensures Sum(a) == Sum(b)
  {
    var n := |a|;
    SumReordered(a, b, perm, n);
    assert b[..n] == b;
    ValuesBelowMembers(perm, n);
    forall i | 0 <= i < n ensures i in ValuesBelow(perm, n) {
      var k := PermutationCovers(perm, n, i);
    }
    SumEqual(Mask(a, ValuesBelow(perm, n)), a);
  }

  lemma RenamePending(input: seq<Job>, sorted: seq<Job>, perm: seq<int>, tr: seq<int>)
    requires Reorders(input, sorted, perm)
    ensures Pending(input, Rename(perm, tr)) == Pending(sorted, tr)
  {
    var n := |input|;
    var a, b := ReleasedLeft(input, Rename(perm, tr), |tr|), ReleasedLeft(sorted, tr, |tr|);
    forall k | 0 <= k < n ensures b[k] == a[perm[k]] {
      RenameServed(perm, n, tr, k);
    }
    SameSum(a, b, perm);
  }

  /** From one input, PSJF on the table as read and any of the policies on a sorted table have the
      same amount of released work left at every clock value. */
  lemma SamePendingOnSameInput(input: seq<Job>, p: seq<int>, pol: Policy, sorted: seq<Job>, perm: seq<int>, q: seq<int>)
    requires WellFormed(input) && Reorders(input, sorted, perm) && |p| == |q|
    requires Obeys(Psjf, input, p) && pol != AnyValid && Obeys(pol, sorted, q)
    ensures Pending(input, p) == Pending(sorted, q)
  {
    PolicyIsWorkConserving(Psjf, input, p);
    PolicyIsWorkConserving(pol, sorted, q);
    RenameObeys(WorkConserving, input, sorted, perm, q);
    SamePendingWork(input, p, Rename(perm, q));
    RenamePending(input, sorted, perm, q);
  }

  lemma SameTotals(input: seq<Job>, sorted: seq<Job>, perm: seq<int>)
    requires Reorders(input, sorted, perm)
    ensures TotalExec(input) == TotalExec(sorted)
    ensures Sum(Readies(input)) == Sum(Readies(sorted))
    ensures WellFormed(input) ==> WellFormed(sorted)
  {
    SameSum(Execs(input), Execs(sorted), perm);
    SameSum(Readies(input), Readies(sorted), perm);
  }

  /** From one input PSJF also keeps the processes waiting least: no policy on a sorted table, and no
      other valid schedule, has a smaller total (so a smaller average) of true waiting times. */
  lemma PsjfWaitsLeast(input: seq<Job>, p: seq<int>, pol: Policy, sorted: seq<Job>, perm: seq<int>, q: seq<int>)
    requires WellFormed(input) && Reorders(input, sorted, perm)
    requires Obeys(Psjf, input, p) && FirstDone(input, p)
    requires Obeys(pol, sorted, q) && FirstDone(sorted, q)
    ensures Sum(Waiteds(input, p)) <= Sum(Waiteds(sorted, q))
  {
    FourPoliciesOnSameInput(input, p, pol, sorted, perm, q);
    PolicyIsWorkConserving(pol, sorted, q);
    PolicyIsWorkConserving(Psjf, input, p);
    TotalWaiting(input, p);
    TotalWaiting(sorted, q);
    SameTotals(input, sorted, perm);
  }
}

/** Finite sums over sequences of integers, used to add up work, completion times and head counts. */
module Sums {

  function Max(a: int, b: int): int {
    if a < b then b else a
  }

  function Sum(s: seq<int>): int {
    if s == [] then 0 else Sum(s[..|s| - 1]) + s[|s| - 1]
  }

  /** The elements of `s` whose index is in `chosen`, with 0 elsewhere. */
  function Mask(s: seq<int>, chosen: set<int>): (m: seq<int>)
    ensures |m| == |s|
  {
    seq(|s|, i requires 0 <= i < |s| => if i in chosen then s[i] else 0)
  }

  lemma {:induction false} SumMonotone(a: seq<int>, b: seq<int>)
    requires |a| == |b|
    requires forall i | 0 <= i < |a| :: a[i] <= b[i]
    ensures Sum(a) <= Sum(b)
  {
    if a == [] {
    } else {
      SumMonotone(a[..|a| - 1], b[..|b| - 1]);
    }
  }

  lemma SumEqual(a: seq<int>, b: seq<int>)
    requires |a| == |b|
    requires forall i | 0 <= i < |a| :: a[i] == b[i]
    ensures Sum(a) == Sum(b)
  {
    assert a == b;
  }

  lemma {:induction false} SumPlus(a: seq<int>, b: seq<int>, c: seq<int>)
    requires |a| == |b| == |c|
    requires forall i | 0 <= i < |a| :: c[i] == a[i] + b[i]
    ensures Sum(c) == Sum(a) + Sum(b)
  {
    if a == [] {
    } else {
      SumPlus(a[..|a| - 1], b[..|b| - 1], c[..|c| - 1]);
    }
  }

  lemma {:induction false} SumChangedAt(a: seq<int>, b: seq<int>, k: int)
    requires |a| == |b| && 0 <= k < |a|
    requires forall i | 0 <= i < |a| && i != k :: a[i] == b[i]
    ensures Sum(b) == Sum(a) - a[k] + b[k]
  {
    var n := |a| - 1;
    if k == n {
      SumEqual(a[..n], b[..n]);
    } else {
      SumChangedAt(a[..n], b[..n], k);
    }
  }

  lemma {:induction false} SumNonNegative(s: seq<int>)
    requires forall i | 0 <= i < |s| :: s[i] >= 0
    ensures forall i | 0 <= i < |s| :: s[i] <= Sum(s)
    ensures Sum(s) >= 0
  {
    if s == [] {
    } else {
      var n := |s| - 1;
      SumNonNegative(s[..n]);
      forall i | 0 <= i < |s| ensures s[i] <= Sum(s) {
        if i < n { assert s[..n][i] == s[i]; }
      }
    }
  }

  lemma SumAllZero(s: seq<int>)
    requires forall i | 0 <= i < |s| :: s[i] == 0
    ensures Sum(s) == 0
  {
    SumMonotone(s, s);
    SumPlus(s, s, s);
  }

  lemma {:induction false} SumOfIndicator(s: seq<int>, members: set<int>)
    requires forall i | 0 <= i < |s| :: s[i] == if i in members then 1 else 0
    requires forall i | i in members :: 0 <= i < |s|
    ensures Sum(s) == |members|
  {
    if s == [] {
      assert forall i :: i !in members;
    } else {
      var n := |s| - 1;
      SumOfIndicator(s[..n], members - {n});
    }
  }

  /** Masking by a disjoint union splits the sum. */
  lemma MaskUnion(s: seq<int>, a: set<int>, b: set<int>)
    requires a !! b
    ensures Sum(Mask(s, a + b)) == Sum(Mask(s, a)) + Sum(Mask(s, b))
  {
    SumPlus(Mask(s, a), Mask(s, b), Mask(s, a + b));
  }

  // ---------------------------------------------------------------- finite sets of indices

  /** The indices below n. */
  function Indices(n: nat): (s: set<int>)
    ensures forall i :: i in s <==> 0 <= i < n
    ensures |s| == n
  {
    if n == 0 then {} else Indices(n - 1) + {n - 1}
  }

  lemma SubsetSize(a: set<int>, b: set<int>)
    requires a <= b
    ensures |a| <= |b|
    ensures |a| == |b| ==> a == b
  {
    assert b == a + (b - a);
    if |a| == |b| { assert b - a == {}; }
  }
}

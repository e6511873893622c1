/** Counting in a multiset of recorded values, and prefix sums over a counts array. */
module Samples {

  // How many members of m lie in [lo, hi).
  ghost function CountIn(m: multiset<int>, lo: int, hi: int): nat
    decreases hi - lo
  {
    if hi <= lo then 0 else CountIn(m, lo, hi - 1) + m[hi - 1]
  }

  // The sum of the first n counts.
  ghost function Prefix(s: seq<int>, n: nat): int
    requires n <= |s|
  {
    if n == 0 then 0 else Prefix(s, n - 1) + s[n - 1]
  }

  ghost predicate AllNonNegative(s: seq<int>) {
    forall i | 0 <= i < |s| :: s[i] >= 0
  }

  // v is the k-th smallest member of m, counting repetitions from 1.
  ghost predicate IsKthSmallest(m: multiset<int>, k: int, v: int) {
    v in m && CountIn(m, 0, v) < k <= CountIn(m, 0, v + 1)
  }

  lemma {:induction false} CountInSplit(m: multiset<int>, lo: int, mid: int, hi: int)
    requires lo <= mid <= hi
    ensures CountIn(m, lo, hi) == CountIn(m, lo, mid) + CountIn(m, mid, hi)
    decreases hi - mid
  {
    if mid < hi {
      CountInSplit(m, lo, mid, hi - 1);
    }
  }

  lemma {:induction false} CountInAfterAdding(m: multiset<int>, v: int, count: nat, lo: int, hi: int)
    ensures CountIn(m[v := m[v] + count], lo, hi) == CountIn(m, lo, hi) + (if lo <= v < hi then count else 0)
    decreases hi - lo
  {
    if lo < hi {
      CountInAfterAdding(m, v, count, lo, hi - 1);
    }
  }

  lemma {:induction false} CountInOfEmpty(lo: int, hi: int)
    ensures CountIn(multiset{}, lo, hi) == 0
    decreases hi - lo
  {
    if lo < hi {
      CountInOfEmpty(lo, hi - 1);
    }
  }

  lemma {:induction false} CountInPositive(m: multiset<int>, lo: int, hi: int)
    ensures CountIn(m, lo, hi) > 0 <==> exists v :: v in m && lo <= v < hi
    decreases hi - lo
  {
    if lo < hi {
      CountInPositive(m, lo, hi - 1);
      assert m[hi - 1] > 0 <==> hi - 1 in m;
    }
  }

  // Some value of a range takes the running count over k.
  lemma {:induction false} KthSmallestInRange(m: multiset<int>, k: int, lo: int, hi: int) returns (v: int)
    requires 0 <= lo <= hi
    requires CountIn(m, 0, lo) < k <= CountIn(m, 0, hi)
    ensures lo <= v < hi && IsKthSmallest(m, k, v)
    decreases hi - lo
  {
    if CountIn(m, 0, hi - 1) < k {
      v := hi - 1;
      assert m[v] > 0;
    } else {
      v := KthSmallestInRange(m, k, lo, hi - 1);
    }
  }

  lemma KthSmallestMonotone(m: multiset<int>, k: int, v: int, k': int, v': int)
    requires IsKthSmallest(m, k, v) && IsKthSmallest(m, k', v')
    requires k <= k' && v' >= 0
    ensures v <= v'
  {
    if v' < v {
      CountInSplit(m, 0, v' + 1, v);
    }
  }

  lemma {:induction false} PrefixAfterAdding(s: seq<int>, i: nat, count: int, n: nat)
    requires i < |s| && n <= |s|
    ensures Prefix(s[i := s[i] + count], n) == Prefix(s, n) + (if i < n then count else 0)
  {
    if n != 0 {
      PrefixAfterAdding(s, i, count, n - 1);
    }
  }

  lemma {:induction false} PrefixMonotone(s: seq<int>, m: nat, n: nat)
    requires m <= n <= |s|
    requires AllNonNegative(s)
    ensures 0 <= Prefix(s, m) <= Prefix(s, n)
    decreases n
  {
    if m < n {
      PrefixMonotone(s, m, n - 1);
    } else if n != 0 {
      PrefixMonotone(s, n - 1, n - 1);
    }
  }

  lemma {:induction false} PrefixOfZeros(s: seq<int>, n: nat)
    requires n <= |s| && forall i | 0 <= i < n :: s[i] == 0
    ensures Prefix(s, n) == 0
  {
    if n != 0 {
      PrefixOfZeros(s, n - 1);
    }
  }
}

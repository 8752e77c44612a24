/** The bound-leaning search of include/small_vectors/algo/bound_leaning_lower_bound.h. */
module LowerBound {
  import opened Bits

  /** The range [first, last) has its lesser elements in front. */
  ghost predicate Partitioned<T>(s: seq<T>, first: nat, last: nat, less: T -> bool)
    requires first <= last <= |s|
  {
    forall i, j :: first <= i < j < last && less(s[j]) ==> less(s[i])
  }

  /** `k` separates the lesser elements of [first, last) from the others. */
  ghost predicate Separates<T>(s: seq<T>, first: nat, last: nat, less: T -> bool, k: nat)
    requires first <= last <= |s|
  {
    && first <= k <= last
    && (forall i :: first <= i < k ==> less(s[i]))
    && (forall i :: k <= i < last ==> !less(s[i]))
  }

  /** There is one partition point, so any correct search returns the same position. */
  lemma {:induction false} SeparationUnique<T>(s: seq<T>, first: nat, last: nat, less: T -> bool, j: nat, k: nat)
    requires first <= last <= |s|
    requires Separates(s, first, last, less, j) && Separates(s, first, last, less, k)
    ensures j == k
  {
    if j < last { assert !less(s[j]); }
    if k < last { assert !less(s[k]); }
  }

  /** A range with its lesser elements in front is one that has a partition point. */
  lemma {:induction false} PartitionedMeans<T>(s: seq<T>, first: nat, last: nat, less: T -> bool)
    requires first <= last <= |s|
    ensures Partitioned(s, first, last, less) <==> exists k: nat :: Separates(s, first, last, less, k)
  {
    if Partitioned(s, first, last, less) { PartitionPoint(s, first, last, less); }
  }

  lemma {:induction false} PartitionPoint<T>(s: seq<T>, first: nat, last: nat, less: T -> bool)
    requires first <= last <= |s| && Partitioned(s, first, last, less)
    ensures exists k: nat :: Separates(s, first, last, less, k)
    decreases last
  {
    if first == last {
      assert Separates(s, first, last, less, first);
    } else if less(s[last - 1]) {
      assert Separates(s, first, last, less, last);
    } else {
      PartitionPoint(s, first, last - 1, less);
      var k: nat :| Separates(s, first, last - 1, less, k);
      assert Separates(s, first, last, less, k);
    }
  }

  // ------------------------------------------------------------ comparison counts

  /** The integer part of the logarithm to base 2. */
  function Log2(n: nat): nat {
    if n < 2 then 0 else 1 + Log2(n / 2)
  }

  /** The logarithm brackets its argument between neighbouring powers of two. */
  lemma {:induction false} Log2Brackets(n: nat)
    requires n >= 1
    ensures Pow2(Log2(n)) <= n < Pow2(Log2(n) + 1)
  {
    if n >= 2 { Log2Brackets(n / 2); }
  }

  /** Below a power of two the logarithm is below the exponent. */
  lemma {:induction false} Log2Below(n: nat, k: nat)
    requires 1 <= n < Pow2(k)
    ensures Log2(n) + 1 <= k
  {
    Log2Brackets(n);
    if k <= Log2(n) { Pow2Monotone(k, Log2(n)); }
  }

  /** A bound in terms of the logarithm is one for every power of two above the length. */
  lemma {:induction false} BoundsByPowers(n: nat)
    ensures forall k: nat :: n < Pow2(k) ==> Halving(n) <= k
    ensures n >= 1 ==> forall k: nat :: n < Pow2(k) ==> Log2(n) + 2 <= k + 1 && Log2(n) / 2 + 2 <= (k - 1) / 2 + 2
  {
    forall k: nat | 1 <= n < Pow2(k) ensures Log2(n) + 1 <= k { Log2Below(n, k); }
  }

  lemma {:induction false} Log2Monotone(m: nat, n: nat)
    requires m <= n
    ensures Log2(m) <= Log2(n)
  {
    if m >= 2 { Log2Monotone(m / 2, n / 2); }
  }

  /** A bound on the comparisons of the halving search on `d` elements. */
  function Halving(d: nat): nat {
    if d == 0 then 0 else Log2(d) + 1
  }

  /** A bound on the comparisons of a leaning loop entered with `d` elements. */
  function Leaning(d: nat): nat {
    if d == 0 then 0 else Log2(d) + 2
  }

  /** The same for a loop that runs until nothing is left. */
  function LeaningToEnd(d: nat): nat {
    if d == 0 then 0 else Log2(d) / 2 + 1
  }

  lemma {:induction false} HalvingStep(d: nat, e: nat)
    requires d > 0 && e <= d / 2
    ensures 1 + Halving(e) <= Halving(d)
  {
    Log2Monotone(e, d / 2);
  }

  lemma {:induction false} QuarterStep(d: nat, e: nat)
    requires d > 0 && e <= d / 4
    ensures 1 + Leaning(e) <= Leaning(d)
    ensures 1 + LeaningToEnd(e) <= LeaningToEnd(d)
  {
    if e > 0 {
      assert d / 4 == d / 2 / 2;
      assert Log2(d) == 1 + Log2(d / 2) == 2 + Log2(d / 4);
      Log2Monotone(e, d / 4);
    }
  }

  lemma {:induction false} BreakStep(d: nat, e: nat)
    requires d > 0 && e <= d
    ensures 1 + Halving(e) <= Leaning(d)
  {
    Log2Monotone(e, d);
  }

  lemma {:induction false} FirstProbe(n: nat, d: nat)
    requires n > 0 && d <= n / 2
    ensures 1 + Leaning(d) <= Log2(n) + 2
    ensures 1 + LeaningToEnd(d) <= Log2(n) / 2 + 2
  {
    if d > 0 { Log2Monotone(d, n / 2); }
  }

  // ---------------------------------------------------------------------- searches

  /** The comparison with the value searched for, and how often it has been called. */
  class Comparison<T> {
    const less: T -> bool
    ghost var calls: nat

    constructor (less: T -> bool)
      ensures this.less == less && calls == 0
    {
      this.less := less;
      calls := 0;
    }

    method Less(x: T) returns (b: bool)
      modifies this
      ensures b == less(x) && calls == old(calls) + 1
    {
      b := less(x);
      calls := calls + 1;
    }
  }

  /** std::lower_bound as the halving loop. */
  method HalvingLowerBound<T>(a: array<T>, first0: nat, last0: nat, cmp: Comparison<T>) returns (first: nat)
    requires first0 <= last0 <= a.Length
    modifies cmp
    ensures first0 <= first <= last0
    ensures Partitioned(a[..], first0, last0, cmp.less) ==> Separates(a[..], first0, last0, cmp.less, first)
    ensures cmp.calls <= old(cmp.calls) + Halving(last0 - first0)
    ensures forall k: nat :: last0 - first0 < Pow2(k) ==> cmp.calls <= old(cmp.calls) + k
  {
    first := first0;
    var len := last0 - first0;
    while len > 0
      invariant first0 <= first && 0 <= len && first + len <= last0
      invariant cmp.calls + Halving(len) <= old(cmp.calls) + Halving(last0 - first0)
      invariant Partitioned(a[..], first0, last0, cmp.less) ==> forall i :: first0 <= i < first ==> cmp.less(a[i])
      invariant Partitioned(a[..], first0, last0, cmp.less) ==>
        forall i :: first + len <= i < last0 ==> !cmp.less(a[i])
    {
      var half := len / 2;
      var middle := first + half;
      assert a[..][middle] == a[middle];
      var below := cmp.Less(a[middle]);
      if below {
        HalvingStep(len, len - half - 1);
        first, len := middle + 1, len - half - 1;
      } else {
        HalvingStep(len, half);
        len := half;
      }
    }
    BoundsByPowers(last0 - first0);
  }

  /** The loop entered when the answer lies at or before the middle. */
  method LeanLeft<T>(a: array<T>, first0: nat, middle0: nat, cmp: Comparison<T>) returns (first: nat, last: nat)
    requires first0 <= middle0 < a.Length
    requires !cmp.less(a[middle0])
    modifies cmp
    ensures first0 <= first <= last <= middle0
    ensures Partitioned(a[..], first0, middle0, cmp.less) ==>
      && (forall i :: first0 <= i < first ==> cmp.less(a[i]))
      && (forall i :: last <= i <= middle0 ==> !cmp.less(a[i]))
    ensures cmp.calls + Halving(last - first) <= old(cmp.calls) + Leaning(middle0 - first0)
    ensures first == first0 ==> last == first0 && cmp.calls <= old(cmp.calls) + LeaningToEnd(middle0 - first0)
  {
    first, last := first0, middle0;
    while first != last
      invariant first == first0 <= last <= middle0
      invariant Partitioned(a[..], first0, middle0, cmp.less) ==> forall i :: last <= i <= middle0 ==> !cmp.less(a[i])
      invariant cmp.calls + Leaning(last - first) <= old(cmp.calls) + Leaning(middle0 - first0)
      invariant cmp.calls + LeaningToEnd(last - first) <= old(cmp.calls) + LeaningToEnd(middle0 - first0)
      decreases last
    {
      var distance := last - first;
      var middle := if distance == 1 then first else first + distance / 4;
      assert a[..][middle] == a[middle];
      var below := cmp.Less(a[middle]);
      if below {
        BreakStep(distance, last - (middle + 1));
        first := middle + 1;
        break;
      }
      QuarterStep(distance, middle - first);
      last := middle;
    }
  }

  /** The loop entered when the answer lies beyond the middle. */
  method LeanRight<T>(a: array<T>, first0: nat, last0: nat, cmp: Comparison<T>) returns (first: nat, last: nat)
    requires 0 < first0 <= last0 <= a.Length
    requires cmp.less(a[first0 - 1])
    modifies cmp
    ensures first0 <= first <= last <= last0
    ensures Partitioned(a[..], first0, last0, cmp.less) ==>
      && (forall i :: first0 <= i < first ==> cmp.less(a[i]))
      && (forall i :: last <= i < last0 ==> !cmp.less(a[i]))
    ensures cmp.calls + Halving(last - first) <= old(cmp.calls) + Leaning(last0 - first0)
    ensures last == last0 ==> first == last0 && cmp.calls <= old(cmp.calls) + LeaningToEnd(last0 - first0)
  {
    first, last := first0, last0;
    while first != last
      invariant first0 <= first <= last == last0
      invariant Partitioned(a[..], first0, last0, cmp.less) ==> forall i :: first0 <= i < first ==> cmp.less(a[i])
      invariant cmp.calls + Leaning(last - first) <= old(cmp.calls) + Leaning(last0 - first0)
      invariant cmp.calls + LeaningToEnd(last - first) <= old(cmp.calls) + LeaningToEnd(last0 - first0)
      decreases last - first
    {
      var distance := last - first;
      var middle := if distance == 1 then first else first + 3 * distance / 4;
      assert a[..][middle] == a[middle];
      var below := cmp.Less(a[middle]);
      if !below {
        BreakStep(distance, middle - first);
        last := middle;
        break;
      }
      QuarterStep(distance, last - (middle + 1));
      first := middle + 1;
    }
  }

  /** A search that leans first and halves what is left finds the partition point. */
  lemma {:induction false} LeanThenHalve<T>(s: seq<T>, first0: nat, last0: nat, less: T -> bool,
                                             first: nat, last: nat, r: nat)
    requires first0 <= first <= last <= last0 <= |s|
    requires Partitioned(s, first0, last0, less)
    requires forall i :: first0 <= i < first ==> less(s[i])
    requires forall i :: last <= i < last0 ==> !less(s[i])
    requires Separates(s, first, last, less, r)
    ensures Separates(s, first0, last0, less, r)
  {
  }

  /** Where the first probe sends the search, and what the loop there leaves to do. */
  method Lean<T>(a: array<T>, first0: nat, last0: nat, cmp: Comparison<T>) returns (first: nat, last: nat)
    requires first0 < last0 <= a.Length
    modifies cmp
    ensures first0 <= first <= last <= last0
    ensures Partitioned(a[..], first0, last0, cmp.less) ==>
      && (forall i :: first0 <= i < first ==> cmp.less(a[i]))
      && (forall i :: last <= i < last0 ==> !cmp.less(a[i]))
    ensures cmp.calls + Halving(last - first) <= old(cmp.calls) + Log2(last0 - first0) + 2
    ensures first == first0 || last == last0 ==>
      first == last && cmp.calls + Halving(last - first) <= old(cmp.calls) + Log2(last0 - first0) / 2 + 2
  {
    var distance := last0 - first0;
    var middle := if distance == 1 then first0 else first0 + distance / 2;
    assert a[..][middle] == a[middle];
    var below := cmp.Less(a[middle]);
    if below {
      first, last := LeanRight(a, middle + 1, last0, cmp);
      FirstProbe(distance, last0 - (middle + 1));
    } else {
      first, last := LeanLeft(a, first0, middle, cmp);
      FirstProbe(distance, middle - first0);
    }
  }

  /** The search as a whole, its comparisons bounded by the logarithm of the length. */
  method Search<T>(a: array<T>, first0: nat, last0: nat, cmp: Comparison<T>) returns (r: nat)
    requires first0 < last0 <= a.Length
    modifies cmp
    ensures first0 <= r <= last0
    ensures Partitioned(a[..], first0, last0, cmp.less) ==> Separates(a[..], first0, last0, cmp.less, r)
    ensures cmp.calls <= old(cmp.calls) + Log2(last0 - first0) + 2
    ensures r == first0 || r == last0 ==> cmp.calls <= old(cmp.calls) + Log2(last0 - first0) / 2 + 2
  {
    var first, last := Lean(a, first0, last0, cmp);
    r := HalvingLowerBound(a, first, last, cmp);
    if Partitioned(a[..], first0, last0, cmp.less) {
      LeanThenHalve(a[..], first0, last0, cmp.less, first, last, r);
    }
  }

  /**
   * `bound_leaning_lower_bound_fn::operator()`. On fewer than 2^k elements it makes at most
   * k + 1 comparisons, and about half of that when the answer is either end.
   */
  method BoundLeaning<T>(a: array<T>, first0: nat, last0: nat, cmp: Comparison<T>) returns (r: nat)
    requires first0 <= last0 <= a.Length
    modifies cmp
    ensures first0 <= r <= last0
    ensures Partitioned(a[..], first0, last0, cmp.less) ==> Separates(a[..], first0, last0, cmp.less, r)
    ensures first0 == last0 ==> cmp.calls == old(cmp.calls)
    ensures forall k: nat :: last0 - first0 < Pow2(k) ==> cmp.calls <= old(cmp.calls) + k + 1
    ensures r == first0 || r == last0 ==>
      forall k: nat :: 1 <= last0 - first0 < Pow2(k) ==> cmp.calls <= old(cmp.calls) + (k - 1) / 2 + 2
  {
    if first0 == last0 { return last0; }
    r := Search(a, first0, last0, cmp);
    BoundsByPowers(last0 - first0);
  }
}

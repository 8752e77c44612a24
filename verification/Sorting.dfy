/** An in-place sort with the contract of std::ranges::sort. */
module Sorting {

  /** What std::ranges::sort demands of its comparison: a strict weak order. */
  ghost predicate StrictWeakOrder<T(!new)>(less: (T, T) -> bool) {
    && (forall x, y :: less(x, y) ==> !less(y, x))
    && (forall x, y, z :: !less(y, x) && !less(z, y) ==> !less(z, x))
  }

  /** No later element is less than an earlier one. */
  ghost predicate SortedBy<T>(s: seq<T>, less: (T, T) -> bool) {
    forall i, j :: 0 <= i < j < |s| ==> !less(s[j], s[i])
  }

  method Exchange<T>(a: array<T>, i: nat, j: nat)
    requires i < j < a.Length
    modifies a
    ensures a[i] == old(a[j]) && a[j] == old(a[i])
    ensures forall k :: 0 <= k < a.Length && k != i && k != j ==> a[k] == old(a[k])
    ensures multiset(a[..]) == multiset(old(a[..]))
  {
    a[i], a[j] := a[j], a[i];
  }

  /** Sinks the element at `n` into the sorted prefix before it. */
  method Sink<T(!new)>(a: array<T>, n: nat, less: (T, T) -> bool)
    requires n < a.Length
    requires StrictWeakOrder(less)
    requires SortedBy(a[..n], less)
    modifies a
    ensures SortedBy(a[..n + 1], less)
    ensures multiset(a[..]) == multiset(old(a[..]))
  {
    var k := n;
    while 0 < k && less(a[k], a[k - 1])
      invariant 0 <= k <= n
      invariant forall i, j :: 0 <= i < j <= n && j != k ==> !less(a[j], a[i])
      invariant forall j :: k < j <= n ==> !less(a[j], a[k])
      invariant multiset(a[..]) == multiset(old(a[..]))
    {
      Exchange(a, k - 1, k);
      k := k - 1;
    }
    forall i, j | 0 <= i < j <= n ensures !less(a[j], a[i]) {
      if j == k {
        assert !less(a[k], a[k - 1]);
        assert i == k - 1 || !less(a[k - 1], a[i]);
      }
    }
  }

  method Sort<T(!new)>(a: array<T>, less: (T, T) -> bool)
    requires StrictWeakOrder(less)
    modifies a
    ensures SortedBy(a[..], less)
    ensures multiset(a[..]) == multiset(old(a[..]))
  {
    var n := 0;
    while n < a.Length
      invariant n <= a.Length
      invariant SortedBy(a[..n], less)
      invariant multiset(a[..]) == multiset(old(a[..]))
    {
      Sink(a, n, less);
      n := n + 1;
    }
    assert a[..n] == a[..];
  }
}

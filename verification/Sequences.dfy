/** Facts about sequences that the transform and its sorting steps share. */
module Sequences {

  /** `s` is ordered by `leq`: every element is below every later one. */
  ghost predicate Ordered<T>(s: seq<T>, leq: (T, T) -> bool) {
    forall i, j :: 0 <= i < j < |s| ==> leq(s[i], s[j])
  }

  ghost predicate Antisymmetric<T(!new)>(leq: (T, T) -> bool) {
    forall x, y :: leq(x, y) && leq(y, x) ==> x == y
  }

  ghost predicate Distinct<T>(s: seq<T>) {
    forall i, j :: 0 <= i < j < |s| ==> s[i] != s[j]
  }

  function Map<A, B>(f: A -> B, s: seq<A>): (r: seq<B>)
    ensures |r| == |s| && forall i :: 0 <= i < |s| ==> r[i] == f(s[i])
  {
    seq(|s|, i requires 0 <= i < |s| => f(s[i]))
  }

  /** The elements of `s` picked out by the indices `ix`. */
  function Pick<T>(s: seq<T>, ix: seq<nat>): (r: seq<T>)
    requires forall i :: 0 <= i < |ix| ==> ix[i] < |s|
    ensures |r| == |ix| && forall i :: 0 <= i < |ix| ==> r[i] == s[ix[i]]
  {
    seq(|ix|, i requires 0 <= i < |ix| => s[ix[i]])
  }

  function Iota(n: nat): (r: seq<nat>)
    ensures |r| == n && forall i :: 0 <= i < n ==> r[i] == i
  {
    seq(n, i => i)
  }

  function Repeat<T>(x: T, n: nat): (r: seq<T>)
    ensures |r| == n && forall i :: 0 <= i < n ==> r[i] == x
  {
    seq(n, _ => x)
  }

  lemma {:induction false} InMultiset<T>(s: seq<T>, x: T)
    ensures x in multiset(s) <==> x in s
  {
  }

  function RemoveAt<T>(s: seq<T>, k: nat): (r: seq<T>)
    requires k < |s|
    ensures |r| == |s| - 1
  {
    s[..k] + s[k+1..]
  }

  lemma {:induction false} MultisetAt<T>(s: seq<T>, k: nat)
    requires k < |s|
    ensures multiset(s) == multiset(RemoveAt(s, k)) + multiset{s[k]}
  {
    assert s == s[..k] + [s[k]] + s[k+1..];
  }

  /** Equal multisets stay equal when one occurrence of a common element leaves each. */
  lemma {:induction false} RemoveBoth<T>(a: seq<T>, b: seq<T>, i: nat, k: nat)
    requires multiset(a) == multiset(b)
    requires i < |a| && k < |b| && a[i] == b[k]
    ensures multiset(RemoveAt(a, i)) == multiset(RemoveAt(b, k))
  {
    MultisetAt(a, i);
    MultisetAt(b, k);
    assert multiset(RemoveAt(a, i)) == multiset(a) - multiset{a[i]};
    assert multiset(RemoveAt(b, k)) == multiset(b) - multiset{b[k]};
  }

  lemma {:induction false} IndexOf<T>(a: seq<T>, b: seq<T>, i: nat) returns (k: nat)
    requires multiset(a) == multiset(b) && i < |a|
    ensures k < |b| && b[k] == a[i]
  {
    InMultiset(a, a[i]);
    InMultiset(b, a[i]);
    k :| k < |b| && b[k] == a[i];
  }

  lemma {:induction false} SameLength<T>(a: seq<T>, b: seq<T>)
    requires multiset(a) == multiset(b)
    ensures |a| == |b|
  {
    assert |multiset(a)| == |a| && |multiset(b)| == |b|;
  }

  lemma {:induction false} SameHead<T(!new)>(a: seq<T>, b: seq<T>, leq: (T, T) -> bool)
    requires Antisymmetric(leq)
    requires Ordered(a, leq) && Ordered(b, leq)
    requires multiset(a) == multiset(b) && a != [] && b != []
    ensures a[0] == b[0]
  {
    var k := IndexOf(a, b, 0);
    var m := IndexOf(b, a, 0);
    if k > 0 && m > 0 {
      assert leq(b[0], b[k]) && leq(a[0], a[m]);
    }
  }

  lemma {:induction false} OrderedTail<T(!new)>(a: seq<T>, leq: (T, T) -> bool)
    requires Ordered(a, leq) && a != []
    ensures Ordered(a[1..], leq)
  {
  }

  /** A multiset has at most one listing in the order of an antisymmetric relation. */
  lemma {:induction false} OrderedUnique<T(!new)>(a: seq<T>, b: seq<T>, leq: (T, T) -> bool)
    requires Antisymmetric(leq)
    requires Ordered(a, leq) && Ordered(b, leq)
    requires multiset(a) == multiset(b)
    ensures a == b
  {
    SameLength(a, b);
    if a != [] {
      SameHead(a, b, leq);
      RemoveBoth(a, b, 0, 0);
      assert RemoveAt(a, 0) == a[1..] && RemoveAt(b, 0) == b[1..];
      OrderedTail(a, leq);
      OrderedTail(b, leq);
      OrderedUnique(a[1..], b[1..], leq);
      assert a == [a[0]] + a[1..] && b == [b[0]] + b[1..];
    }
  }

  lemma {:induction false} MapRemoveAt<A, B>(f: A -> B, s: seq<A>, k: nat)
    requires k < |s|
    ensures multiset(Map(f, s)) == multiset(Map(f, RemoveAt(s, k))) + multiset{f(s[k])}
  {
    MultisetAt(Map(f, s), k);
    assert RemoveAt(Map(f, s), k) == Map(f, RemoveAt(s, k));
  }

  /** Mapping respects equality of multisets. */
  lemma {:induction false} MapMultiset<A, B>(f: A -> B, a: seq<A>, b: seq<A>)
    requires multiset(a) == multiset(b)
    ensures multiset(Map(f, a)) == multiset(Map(f, b))
    decreases |a|
  {
    SameLength(a, b);
    if a == [] {
      assert Map(f, a) == Map(f, b);
    } else {
      var k := IndexOf(a, b, 0);
      RemoveBoth(a, b, 0, k);
      MapMultiset(f, RemoveAt(a, 0), RemoveAt(b, k));
      MapRemoveAt(f, a, 0);
      MapRemoveAt(f, b, k);
    }
  }

  /** Pairwise different indices below `n`, `n` of them, are a permutation of 0 .. n-1. */
  lemma {:induction false} DistinctIsPermutation(p: seq<nat>, n: nat)
    requires |p| == n && Distinct(p)
    requires forall i :: 0 <= i < n ==> p[i] < n
    ensures multiset(p) == multiset(Iota(n))
  {
    var all := Below(n);
    var used := set x | x in p;
    DistinctSetSize(p);
    assert used <= all;
    if used != all {
      assert used < all;
      SubsetSmaller(used, all);
      assert false;
    }
    forall x: nat ensures multiset(p)[x] == multiset(Iota(n))[x] {
      InMultiset(p, x);
      InMultiset(Iota(n), x);
      if x < n {
        assert x in all;
        assert x in used;
        DistinctOnce(p, x);
        assert Iota(n)[x] == x;
        DistinctOnce(Iota(n), x);
      } else {
        assert x !in all;
        assert x !in p;
        assert x !in Iota(n);
      }
    }
  }

  lemma {:induction false} SubsetSmaller<T>(a: set<T>, b: set<T>)
    requires a < b
    ensures |a| < |b|
  {
    assert b == a + (b - a);
    assert b - a != {};
  }

  lemma {:induction false} DistinctSetSize<T>(s: seq<T>)
    requires Distinct(s)
    ensures |set x | x in s| == |s|
  {
    if s == [] {
      assert (set x | x in s) == {};
    } else {
      DistinctSetSize(s[1..]);
      assert (set x | x in s) == {s[0]} + (set x | x in s[1..]);
      assert s[0] !in s[1..];
    }
  }

  function Below(n: nat): (r: set<nat>)
    ensures |r| == n && forall i: nat :: i in r <==> i < n
  {
    if n == 0 then {} else Below(n - 1) + {n - 1}
  }

  lemma {:induction false} DistinctOnce<T>(s: seq<T>, x: T)
    requires Distinct(s) && x in s
    ensures multiset(s)[x] == 1
  {
    var k :| 0 <= k < |s| && s[k] == x;
    MultisetAt(s, k);
    assert x !in RemoveAt(s, k);
    InMultiset(RemoveAt(s, k), x);
  }

  /** Picking through a permutation does not change the multiset. */
  lemma {:induction false} PickPermutation<T>(s: seq<T>, p: seq<nat>)
    requires forall i :: 0 <= i < |p| ==> p[i] < |s|
    requires multiset(p) == multiset(Iota(|s|))
    ensures multiset(Pick(s, p)) == multiset(s)
  {
    if s == [] {
      SameLength(p, Iota(0));
    } else {
      var f := (i: nat) => if i < |s| then s[i] else s[0];
      MapMultiset(f, p, Iota(|s|));
      assert Map(f, p) == Pick(s, p);
      assert Map(f, Iota(|s|)) == s;
    }
  }

  /** A listing with the multiset of 0 .. n-1 has n entries, all below n, none repeated. */
  lemma {:induction false} PermutationFacts(p: seq<nat>, n: nat)
    requires multiset(p) == multiset(Iota(n))
    ensures |p| == n && Distinct(p)
    ensures forall i :: 0 <= i < |p| ==> p[i] < n
  {
    SameLength(p, Iota(n));
    forall i | 0 <= i < |p| ensures p[i] < n {
      assert p[i] in multiset(p);
      InMultiset(Iota(n), p[i]);
    }
    forall i, j | 0 <= i < j < |p| ensures p[i] != p[j] {
      if p[i] == p[j] {
        MultisetAt(p, i);
        assert RemoveAt(p, i)[j-1] == p[j];
        InMultiset(RemoveAt(p, i), p[j]);
        assert Iota(n)[p[i]] == p[i];
        DistinctOnce(Iota(n), p[i]);
        assert false;
      }
    }
  }
}

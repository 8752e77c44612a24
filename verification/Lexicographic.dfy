/** Character sequences in the order of std::basic_string_view::compare. */
module Lexicographic {
  import opened Sequences

  /** A code unit; char8_t, char16_t and char32_t compare by value. */
  type CodeUnit = nat

  /** Sizes and indices of strings are 32 bits wide. */
  const UINT32: nat := 0x1_0000_0000

  /** `a.compare(b) < 0` */
  predicate LexLess(a: seq<CodeUnit>, b: seq<CodeUnit>) {
    if b == [] then false
    else if a == [] then true
    else a[0] < b[0] || (a[0] == b[0] && LexLess(a[1..], b[1..]))
  }

  predicate LexLeq(a: seq<CodeUnit>, b: seq<CodeUnit>) {
    !LexLess(b, a)
  }

  /** `a` and `b` agree on their first `k` units, and there `a` ends or has the smaller unit. */
  predicate DecidedAt(a: seq<CodeUnit>, b: seq<CodeUnit>, k: nat) {
    k <= |a| && k < |b| && a[..k] == b[..k] && (k == |a| || a[k] < b[k])
  }

  /** The order is decided by the first difference, a shorter text coming before a longer one. */
  lemma {:induction false} LexFirstDifference(a: seq<CodeUnit>, b: seq<CodeUnit>)
    ensures LexLess(a, b) <==> exists k: nat :: DecidedAt(a, b, k)
  {
    if b == [] {
    } else if a == [] || a[0] < b[0] {
      assert DecidedAt(a, b, 0);
    } else {
      LexFirstDifference(a[1..], b[1..]);
      if a[0] == b[0] && LexLess(a[1..], b[1..]) {
        var k: nat :| DecidedAt(a[1..], b[1..], k);
        assert a[..k + 1] == [a[0]] + a[1..][..k] && b[..k + 1] == [b[0]] + b[1..][..k];
        assert DecidedAt(a, b, k + 1);
      }
      if k: nat :| DecidedAt(a, b, k) {
        assert k > 0 && a[0] == a[..k][0] == b[..k][0];
        assert a[1..][..k - 1] == a[..k][1..] && b[1..][..k - 1] == b[..k][1..];
        assert DecidedAt(a[1..], b[1..], k - 1);
      }
    }
  }

  lemma {:induction false} LexAsymmetric(a: seq<CodeUnit>, b: seq<CodeUnit>)
    requires LexLess(a, b)
    ensures !LexLess(b, a)
  {
    if a != [] && a[0] == b[0] { LexAsymmetric(a[1..], b[1..]); }
  }

  lemma {:induction false} LexTransitive(a: seq<CodeUnit>, b: seq<CodeUnit>, c: seq<CodeUnit>)
    requires LexLeq(a, b) && LexLeq(b, c)
    ensures LexLeq(a, c)
  {
    if a != [] && b != [] && c != [] && a[0] == b[0] == c[0] {
      LexTransitive(a[1..], b[1..], c[1..]);
    }
  }

  lemma {:induction false} LexAntisymmetric(a: seq<CodeUnit>, b: seq<CodeUnit>)
    requires LexLeq(a, b) && LexLeq(b, a)
    ensures a == b
  {
    if a != [] && b != [] {
      LexAntisymmetric(a[1..], b[1..]);
      assert a == [a[0]] + a[1..] && b == [b[0]] + b[1..];
    }
  }

  lemma {:induction false} LexReflexive(a: seq<CodeUnit>)
    ensures LexLeq(a, a)
  {
    if a != [] { LexReflexive(a[1..]); }
  }

  lemma {:induction false} LexIsAntisymmetric()
    ensures Antisymmetric(LexLeq)
  {
    forall a, b | LexLeq(a, b) && LexLeq(b, a) ensures a == b {
      LexAntisymmetric(a, b);
    }
  }

  /** Dropping the last unit of both keeps the order, lengths being equal. */
  lemma {:induction false} LexPrefix(a: seq<CodeUnit>, b: seq<CodeUnit>)
    requires |a| == |b| > 0
    requires LexLeq(a, b)
    ensures LexLeq(a[..|a| - 1], b[..|b| - 1])
  {
    if |a| > 1 {
      var a', b' := a[..|a| - 1], b[..|b| - 1];
      assert a'[1..] == a[1..][..|a[1..]| - 1] && b'[1..] == b[1..][..|b[1..]| - 1];
      assert a'[0] == a[0] && b'[0] == b[0];
      if a[0] == b[0] {
        LexPrefix(a[1..], b[1..]);
      }
    }
  }
}

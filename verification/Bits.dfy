/** Bit operations on non-negative integers and the arithmetic they amount to. */
module Bits {

  function Pow2(k: nat): (r: nat)
    ensures r >= 1
  {
    if k == 0 then 1 else 2 * Pow2(k - 1)
  }

  function Or(a: nat, b: nat): nat {
    if a == 0 && b == 0 then 0
    else 2 * Or(a / 2, b / 2) + (if a % 2 == 1 || b % 2 == 1 then 1 else 0)
  }

  function And(a: nat, b: nat): nat {
    if a == 0 || b == 0 then 0
    else 2 * And(a / 2, b / 2) + (if a % 2 == 1 && b % 2 == 1 then 1 else 0)
  }

  function Shl(a: nat, k: nat): nat {
    a * Pow2(k)
  }

  function Quotient(a: nat, m: nat): nat
    requires m > 0
  {
    a / m
  }

  function Shr(a: nat, k: nat): nat {
    Quotient(a, Pow2(k))
  }

  /** The complement within `bits` bits. */
  function Not(a: nat, bits: nat): nat
    requires a < Pow2(bits)
  {
    Pow2(bits) - 1 - a
  }

  // ------------------------------------------------------------------ arithmetic

  lemma {:induction false} MulAtLeast(a: int, m: nat)
    ensures a >= 1 ==> a * m >= m
    ensures a <= -1 ==> a * m <= 0 - m
  {
  }

  lemma {:induction false} DivUnique(x: nat, m: nat, q: nat, r: nat)
    requires r < m && x == q * m + r
    ensures x / m == q && x % m == r
  {
    var d := x / m;
    assert x == d * m + x % m;
    assert (d - q) * m == r - x % m;
    MulAtLeast(d - q, m);
  }

  lemma {:induction false} SmallRemainder(x: nat, m: nat)
    requires x < m
    ensures x % m == x
  {
  }

  lemma {:induction false} Regroup(p: nat, q: nat, z: nat, s: nat, r: nat)
    ensures (z * q + s) * p + r == z * (p * q) + (p * s + r)
  {
  }

  lemma {:induction false} LowPartBound(p: nat, q: nat, s: nat, r: nat)
    requires s < q && r < p
    ensures p * s + r < p * q
  {
    assert p * s + p == p * (s + 1);
    MulMonotone(p, s + 1, q);
  }

  lemma {:induction false} MulMonotone(p: nat, a: nat, b: nat)
    requires a <= b
    ensures p * a <= p * b
  {
  }

  /** Dividing twice is dividing by the product. */
  lemma {:induction false} DivDiv(x: nat, p: nat, q: nat)
    requires p > 0 && q > 0
    ensures p * q > 0
    ensures x / p / q == x / (p * q)
    ensures x % (p * q) == x % p + p * (x / p % q)
  {
    var y, r := x / p, x % p;
    var z, s := y / q, y % q;
    assert x == y * p + r;
    assert y == z * q + s;
    Regroup(p, q, z, s, r);
    LowPartBound(p, q, s, r);
    DivUnique(x, p * q, z, p * s + r);
  }

  lemma {:induction false} Pow2Add(a: nat, b: nat)
    ensures Pow2(a + b) == Pow2(a) * Pow2(b)
  {
    if a > 0 { Pow2Add(a - 1, b); }
  }

  lemma {:induction false} Pow2Monotone(a: nat, b: nat)
    requires a <= b
    ensures Pow2(a) <= Pow2(b)
  {
    if a < b { Pow2Monotone(a, b - 1); }
  }

  lemma {:induction false} ShrShr(x: nat, a: nat, b: nat)
    ensures Shr(Shr(x, a), b) == Shr(x, a + b)
  {
    Pow2Add(a, b);
    DivDiv(x, Pow2(a), Pow2(b));
  }

  /** The low `a + b` bits are the low `a` bits and the next `b`. */
  lemma {:induction false} ModSplit(x: nat, a: nat, b: nat)
    ensures x % Pow2(a + b) == x % Pow2(a) + Pow2(a) * (Shr(x, a) % Pow2(b))
  {
    Pow2Add(a, b);
    DivDiv(x, Pow2(a), Pow2(b));
  }

  // -------------------------------------------------------- what the bits amount to

  /** Bit `k` of a number. */
  predicate Bit(a: nat, k: nat) {
    Shr(a, k) % 2 == 1
  }

  lemma {:induction false} BitOfHalf(a: nat, k: nat)
    requires k > 0
    ensures Bit(a, k) <==> Bit(a / 2, k - 1)
  {
    ShrShr(a, 1, k - 1);
    assert Pow2(1) == 2;
  }

  lemma {:induction false} LowBit(half: nat, bit: nat, k: nat)
    requires bit < 2
    ensures Bit(2 * half + bit, k) <==> if k == 0 then bit == 1 else Bit(half, k - 1)
  {
    DivUnique(2 * half + bit, 2, half, bit);
    if k > 0 { BitOfHalf(2 * half + bit, k); }
  }

  lemma {:induction false} BitsOfZero(k: nat)
    ensures !Bit(0, k)
  {
    DivUnique(0, Pow2(k), 0, 0);
  }

  /** A bit is set in the result of or exactly if it is in one of the operands. */
  lemma {:induction false} OrBits(a: nat, b: nat, k: nat)
    ensures Bit(Or(a, b), k) <==> Bit(a, k) || Bit(b, k)
    decreases k
  {
    if a == 0 && b == 0 {
      BitsOfZero(k);
    } else {
      LowBit(Or(a / 2, b / 2), if a % 2 == 1 || b % 2 == 1 then 1 else 0, k);
      LowBit(a / 2, a % 2, k);
      LowBit(b / 2, b % 2, k);
      if k > 0 { OrBits(a / 2, b / 2, k - 1); }
    }
  }

  /** A bit is set in the result of and exactly if it is in both operands. */
  lemma {:induction false} AndBits(a: nat, b: nat, k: nat)
    ensures Bit(And(a, b), k) <==> Bit(a, k) && Bit(b, k)
    decreases k
  {
    if a == 0 || b == 0 {
      BitsOfZero(k);
    } else {
      LowBit(And(a / 2, b / 2), if a % 2 == 1 && b % 2 == 1 then 1 else 0, k);
      LowBit(a / 2, a % 2, k);
      LowBit(b / 2, b % 2, k);
      if k > 0 { AndBits(a / 2, b / 2, k - 1); }
    }
  }

  lemma {:induction false} HalfRemainder(a: nat, k: nat)
    requires k > 0
    ensures a % Pow2(k) == 2 * (a / 2 % Pow2(k - 1)) + a % 2
  {
    DivDiv(a, 2, Pow2(k - 1));
  }

  lemma {:induction false} AndOnes(a: nat, n: nat)
    ensures And(a, 2 * n + 1) == 2 * And(a / 2, n) + a % 2
  {
    assert (2 * n + 1) / 2 == n && (2 * n + 1) % 2 == 1;
  }

  lemma {:induction false} RemainderByOne(a: nat)
    ensures a % 1 == 0
  {
  }

  lemma {:induction false} MaskStep(a: nat, h: nat)
    requires h > 0 && And(a / 2, h - 1) == a / 2 % h
    ensures And(a, 2 * h - 1) == 2 * (a / 2 % h) + a % 2
  {
    AndOnes(a, h - 1);
  }

  /** Masking with k ones keeps the remainder by 2^k. */
  lemma {:induction false} AndMask(a: nat, k: nat)
    ensures And(a, Pow2(k) - 1) == a % Pow2(k)
  {
    if k == 0 {
      RemainderByOne(a);
    } else {
      AndMask(a / 2, k - 1);
      MaskStep(a, Pow2(k - 1));
      HalfRemainder(a, k);
    }
  }

  lemma {:induction false} ShlStep(b: nat, k: nat)
    requires k > 0
    ensures Shl(b, k) == 2 * Shl(b, k - 1)
  {
    var p := Pow2(k - 1);
    assert Pow2(k) == 2 * p;
  }

  lemma {:induction false} HalfOfDouble(s: nat)
    ensures (2 * s) / 2 == s && (2 * s) % 2 == 0
  {
  }

  lemma {:induction false} OrEven(a: nat, s: nat)
    ensures Or(a, 2 * s) == 2 * Or(a / 2, s) + a % 2
  {
    HalfOfDouble(s);
    if a == 0 && s == 0 { assert Or(0, 0) == 0; }
  }

  /** Where one operand has only low bits and the other none of them, or is addition. */
  lemma {:induction false} OrDisjoint(a: nat, b: nat, k: nat)
    requires a < Pow2(k)
    ensures Or(a, Shl(b, k)) == a + Shl(b, k)
  {
    if k == 0 {
      OrZero(b);
    } else {
      OrDisjoint(a / 2, b, k - 1);
      ShlStep(b, k);
      OrEven(a, Shl(b, k - 1));
    }
  }

  lemma {:induction false} OrZero(b: nat)
    ensures Or(0, b) == b
  {
    if b > 0 { OrZero(b / 2); }
  }

  lemma {:induction false} OrSymmetric(a: nat, b: nat)
    ensures Or(a, b) == Or(b, a)
    decreases a + b
  {
    if a > 0 || b > 0 { OrSymmetric(a / 2, b / 2); }
  }

  /** A single bit is set exactly when the quotient is odd. */
  lemma {:induction false} AndBit(a: nat, k: nat)
    ensures And(a, Shl(1, k)) != 0 <==> Shr(a, k) % 2 == 1
  {
    if a == 0 {
    } else if k == 0 {
      assert And(a / 2, 0) == 0;
    } else {
      AndBit(a / 2, k - 1);
      assert Shl(1, k) == 2 * Shl(1, k - 1);
      ShrShr(a, 1, k - 1);
      assert Pow2(1) == 2;
    }
  }
}

/** Sizes of string storage in bytes and units: growth_t of include/small_vectors/detail/string_func.h. */
module StringSizes {
  import opened Lexicographic

  /** sizeof of the character types. */
  predicate UnitSize(unit: nat) {
    unit == 1 || unit == 2 || unit == 4
  }

  function Bytes(n: nat, unit: nat): nat
    requires UnitSize(unit)
  {
    if unit == 1 then n else if unit == 2 then 2 * n else 4 * n
  }

  function Units(bytes: nat, unit: nat): nat
    requires UnitSize(unit)
  {
    if unit == 1 then bytes else if unit == 2 then bytes / 2 else bytes / 4
  }

  /** The next multiple of 8 strictly above, computed in 32 bits. */
  function NextMultipleOf8(bytes: nat): nat {
    (bytes % UINT32 + 8) % UINT32 / 8 * 8
  }

  /** growth_t */
  function StringGrowth(n: nat, unit: nat): nat
    requires UnitSize(unit)
  {
    Units(NextMultipleOf8(Bytes(n, unit)), unit)
  }

  lemma {:induction false} RoundedUp(bytes: nat)
    ensures bytes + 8 < UINT32 ==> bytes < NextMultipleOf8(bytes) <= bytes + 8
    ensures bytes + 8 >= UINT32 ==> NextMultipleOf8(bytes) <= bytes
    ensures NextMultipleOf8(bytes) % 8 == 0
  {
    var sum := (bytes % UINT32 + 8) % UINT32;
    assert sum / 8 * 8 + sum % 8 == sum;
  }

  lemma {:induction false} UnitsOfBytes(n: nat, bytes: nat, unit: nat)
    requires UnitSize(unit) && bytes % 8 == 0
    ensures Units(bytes, unit) > n <==> bytes > Bytes(n, unit)
  {
    var q := bytes / 8;
    assert bytes == 8 * q;
    assert Units(bytes, unit) == if unit == 1 then 8 * q else if unit == 2 then 4 * q else 2 * q;
  }

  lemma {:induction false} BytesOfUnits(bytes: nat, unit: nat)
    requires UnitSize(unit) && bytes % 8 == 0
    ensures Bytes(Units(bytes, unit), unit) == bytes
  {
    var q := bytes / 8;
    assert bytes == 8 * q;
    assert Units(bytes, unit) == if unit == 1 then 8 * q else if unit == 2 then 4 * q else 2 * q;
  }

  /**
   * Growth is strictly above what was asked for exactly while the bytes can be counted; then
   * its bytes are the least multiple of 8 strictly above those asked for.
   */
  lemma {:induction false} StringGrowthExceeds(n: nat, unit: nat)
    requires UnitSize(unit)
    ensures StringGrowth(n, unit) > n <==> n * unit + 8 < UINT32
    ensures n * unit + 8 < UINT32 ==>
      var bytes := StringGrowth(n, unit) * unit;
      bytes % 8 == 0 && n * unit < bytes <= n * unit + 8
    ensures Bytes(n, unit) == n * unit && Bytes(StringGrowth(n, unit), unit) == StringGrowth(n, unit) * unit
  {
    BytesIsProduct(n, unit);
    BytesIsProduct(StringGrowth(n, unit), unit);
    RoundedUp(Bytes(n, unit));
    UnitsOfBytes(n, NextMultipleOf8(Bytes(n, unit)), unit);
    BytesOfUnits(NextMultipleOf8(Bytes(n, unit)), unit);
  }

  lemma {:induction false} BytesIsProduct(n: nat, unit: nat)
    requires UnitSize(unit)
    ensures Bytes(n, unit) == n * unit
  {
  }
}

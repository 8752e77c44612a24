/** Capacity growth of include/small_vectors/detail/vector_func.h. */
module GrowthPolicy {
  import Bits

  /** numeric_limits<size_type>::max() for a size type of 8, 16, 32 or 64 bits. */
  function MaxOf(bits: nat): nat {
    if bits == 8 then 0xff
    else if bits == 16 then 0xffff
    else if bits == 32 then 0xffff_ffff
    else 0xffff_ffff_ffff_ffff
  }

  lemma {:induction false} Squared(bits: nat, value: nat)
    requires Bits.Pow2(bits) == value
    ensures Bits.Pow2(2 * bits) == value * value
  {
    Bits.Pow2Add(bits, bits);
  }

  /** The constants are the largest numbers of so many bits. */
  lemma {:induction false} MaxIsAllOnes(bits: nat)
    requires bits == 8 || bits == 16 || bits == 32 || bits == 64
    ensures MaxOf(bits) == Bits.Pow2(bits) - 1
  {
    assert Bits.Pow2(4) == 16;
    Squared(4, 16);
    Squared(8, 0x100);
    Squared(16, 0x1_0000);
    Squared(32, 0x1_0000_0000);
  }

  /** growth_size_type_select_t: twice as wide where such a type exists. */
  function CalcMax(bits: nat): nat {
    if bits <= 32 then MaxOf(2 * bits) else MaxOf(64)
  }

  /** floor(1.5 * size) + 1, at most the maximum; 0 when the elements cannot be counted. */
  function Growth(oldSize: nat, newElements: nat, bits: nat): nat {
    var wrap := CalcMax(bits) + 1;
    var minimal := (oldSize + newElements) % wrap;
    if minimal <= MaxOf(bits) then
      var newSize := (minimal + minimal / 2 + 1) % wrap;
      if newSize < MaxOf(bits) then newSize else MaxOf(bits)
    else 0
  }

  /** The capacity for `size` elements that can be counted: half as much again and one, up to the maximum. */
  function Grown(size: nat, max: nat): (r: nat)
    ensures size <= max ==> size <= r <= max
    ensures 2 * r == 2 * max || 2 * r == 3 * size + 2 || 2 * r == 3 * size + 1
    ensures r < max ==> 3 * size + 1 <= 2 * r <= 3 * size + 2
  {
    if size + size / 2 + 1 < max then size + size / 2 + 1 else max
  }

  /** What every caller relies on: 0 exactly when impossible, otherwise room for all. */
  ghost predicate Sound(oldSize: nat, newElements: nat, bits: nat) {
    var g := Growth(oldSize, newElements, bits);
    && (g == 0 <==> oldSize + newElements > MaxOf(bits))
    && (g != 0 ==> oldSize + newElements <= g <= MaxOf(bits))
  }

  /** With a wider calculation type growth is exact and always sound. */
  lemma {:induction false} NarrowGrowth(oldSize: nat, newElements: nat, bits: nat)
    requires bits == 8 || bits == 16 || bits == 32
    requires oldSize <= MaxOf(bits) && newElements <= MaxOf(bits)
    ensures Sound(oldSize, newElements, bits)
    ensures var s := oldSize + newElements;
            s <= MaxOf(bits) ==>
              Growth(oldSize, newElements, bits) == Grown(s, MaxOf(bits)) ==
                if s + s / 2 + 1 < MaxOf(bits) then s + s / 2 + 1 else MaxOf(bits)
  {
    var s, wrap := oldSize + newElements, CalcMax(bits) + 1;
    Bits.SmallRemainder(s, wrap);
    if s <= MaxOf(bits) { Bits.SmallRemainder(s + s / 2 + 1, wrap); }
  }

  /** The one wrapped sum for which the 64-bit computation happens to give 0, as it should. */
  const WRAPPED_TO_ZERO: nat := 0x1_0000_0000_0000_0000 + 12297829382473034410

  /** The 64-bit size type has none: there growth is sound exactly while nothing wraps. */
  lemma {:induction false} WideGrowth(oldSize: nat, newElements: nat)
    requires oldSize <= MaxOf(64) && newElements <= MaxOf(64)
    ensures var s := oldSize + newElements;
            Sound(oldSize, newElements, 64) <==> s + s / 2 + 1 <= MaxOf(64) || s == WRAPPED_TO_ZERO
  {
    var s, wrap := oldSize + newElements, MaxOf(64) + 1;
    var m := if s < wrap then s else s - wrap;
    WrapOnce(s, wrap);
    if m + m / 2 + 1 < wrap {
      Bits.SmallRemainder(m + m / 2 + 1, wrap);
    } else {
      WrapOnce(m + m / 2 + 1, wrap);
    }
  }

  lemma {:induction false} WrapOnce(x: nat, w: nat)
    requires x < 2 * w
    ensures x % w == if x < w then x else x - w
  {
    if x >= w { assert x == w + (x - w); }
  }

  // ------------------------------------------------------------- amortised appends

  /** Size, capacity and the elements relocated so far. */
  datatype Appended = Appended(size: nat, capacity: nat, relocated: nat)

  /** One emplace_back: nothing moves while there is room, everything moves when there is not. */
  function AppendStep(a: Appended, bits: nat): Appended {
    if a.size < a.capacity then a.(size := a.size + 1)
    else
      var g := Growth(a.size, 1, bits);
      if g == 0 then a else Appended(a.size + 1, g, a.relocated + a.size)
  }

  function AppendRun(a: Appended, n: nat, bits: nat): Appended {
    if n == 0 then a else AppendStep(AppendRun(a, n - 1, bits), bits)
  }

  /** What the potential argument keeps. */
  ghost predicate Amortised(a: Appended, bits: nat) {
    && a.size <= a.capacity <= MaxOf(bits)
    && a.relocated <= 3 * a.size
    && (a.relocated <= 2 * a.capacity || a.capacity == MaxOf(bits))
  }

  /** One append in terms of the capacity it leaves. */
  lemma {:induction false} AppendStepIs(a: Appended, bits: nat)
    requires bits == 8 || bits == 16 || bits == 32
    requires a.size <= a.capacity <= MaxOf(bits)
    ensures AppendStep(a, bits) ==
      if a.size < a.capacity then a.(size := a.size + 1)
      else if a.size == MaxOf(bits) then a
      else Appended(a.size + 1, Grown(a.size + 1, MaxOf(bits)), a.relocated + a.size)
  {
    NarrowGrowth(a.size, 1, bits);
  }

  lemma {:induction false} AppendStepAmortised(a: Appended, bits: nat)
    requires bits == 8 || bits == 16 || bits == 32
    requires Amortised(a, bits)
    ensures Amortised(AppendStep(a, bits), bits)
    ensures AppendStep(a, bits).size <= a.size + 1
  {
    AppendStepIs(a, bits);
  }

  /** An append that makes the vector grow leaves the potential for the relocations. */
  lemma {:induction false} AppendGrownAmortised(a: Appended, bits: nat)
    requires Amortised(a, bits) && a.size == a.capacity < MaxOf(bits)
    ensures Amortised(Appended(a.size + 1, Grown(a.size + 1, MaxOf(bits)), a.relocated + a.size), bits)
  {
  }

  /** Any number of appends to an empty vector relocates at most three elements per append. */
  lemma {:induction false} AppendRunAmortised(capacity: nat, n: nat, bits: nat)
    requires bits == 8 || bits == 16 || bits == 32
    requires capacity <= MaxOf(bits)
    ensures var a := AppendRun(Appended(0, capacity, 0), n, bits);
            Amortised(a, bits) && a.size <= n && a.relocated <= 3 * n
  {
    if n > 0 {
      AppendRunAmortised(capacity, n - 1, bits);
      AppendStepAmortised(AppendRun(Appended(0, capacity, 0), n - 1, bits), bits);
    }
  }
}

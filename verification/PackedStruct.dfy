/** Packing members into one integer, include/small_vectors/utils/meta_packed_struct.h. */
module PackedStruct {
  import opened Bits

  /**
   * One member: the signedness and width of its integral (or underlying) type, and the
   * number of bits it takes in the pack.
   */
  datatype Member = Member(signed: bool, bits: nat, width: nat) {

    /**
     * The widths the source supports. A signed member narrower than its type has its sign
     * tested by shifting a 32-bit one.
     */
    ghost predicate Valid() {
      && 1 <= width <= bits
      && (signed && width < bits ==> width <= 32)
    }

    /** The values the member's bits can hold. */
    ghost predicate Fits(v: int)
      requires width > 0
    {
      var half: int := Pow2(width - 1);
      if signed then 0 - half <= v < half else 0 <= v < 2 * half
    }
  }

  // -------------------------------------------------------------- masks and values

  /** bitmask_m: built one bit at a time. */
  function Mask(n: nat): nat {
    if n == 0 then 0 else Or(Mask(n - 1), Shl(1, n - 1))
  }

  lemma {:induction false} MaskIsOnes(n: nat)
    ensures Mask(n) == Pow2(n) - 1
  {
    if n > 0 {
      MaskIsOnes(n - 1);
      OrDisjoint(Mask(n - 1), 1, n - 1);
    }
  }

  /** The cast to the unsigned type of the same width. */
  function ToUnsigned(v: int, bits: nat): nat {
    v % Pow2(bits)
  }

  /** The cast back to the signed type: two's complement. */
  function ToSigned(u: nat, bits: nat): int
    requires bits > 0
  {
    if u >= Pow2(bits - 1) then u - Pow2(bits) else u
  }

  function CompressValue(m: Member, v: int): nat {
    And(ToUnsigned(v, m.bits), Mask(m.width))
  }

  function UncompressUnsigned(m: Member, p: nat): nat {
    And(p, Mask(m.width)) % Pow2(m.bits)
  }

  /** `1u << k`: defined for a 32-bit operand only below 32. */
  function OneShifted(k: nat): nat
    requires k < 32
  {
    Shl(1, k)
  }

  /** What a signed member makes of its bits: the fill mask is or-ed in if the sign bit is set. */
  function FillSign(m: Member, v: nat): int
    requires m.Valid() && m.signed
  {
    MaskIsOnes(m.width);
    Pow2Monotone(m.width, m.bits);
    var negFill := Not(Mask(m.width), m.bits);
    assert m.width == m.bits ==> negFill == 0;
    if negFill == 0 then ToSigned(v, m.bits)
    else if And(v, OneShifted(m.width - 1)) == 0 then ToSigned(v, m.bits)
    else ToSigned(Or(negFill, v), m.bits)
  }

  function UncompressValue(m: Member, p: nat): int
    requires m.Valid()
  {
    var v := UncompressUnsigned(m, p);
    if m.signed then FillSign(m, v) else v
  }

  lemma {:induction false} ModMod(v: int, a: nat, b: nat)
    requires a <= b
    ensures (v % Pow2(b)) % Pow2(a) == v % Pow2(a)
  {
    var p, q := Pow2(a), Pow2(b - a);
    Pow2Add(a, b - a);
    var k := v / (p * q);
    var r := v % (p * q);
    assert v == (p * q) * k + r;
    assert (p * q) * k == (q * k) * p by { ThreeFactors(p, q, k); }
    RemainderAdds(q * k, p, r);
  }

  lemma {:induction false} ThreeFactors(p: int, q: int, k: int)
    ensures (p * q) * k == (q * k) * p
  {
  }

  lemma {:induction false} RemainderAdds(t: int, m: nat, r: nat)
    requires m > 0
    ensures (t * m + r) % m == r % m
  {
    var x := t * m + r;
    assert x == x / m * m + x % m && r == r / m * m + r % m;
    var d := x / m - t - r / m;
    assert d * m == r % m - x % m;
    MulAtLeast(d, m);
  }

  lemma {:induction false} CompressIsRemainder(m: Member, v: int)
    requires m.Valid()
    ensures CompressValue(m, v) == v % Pow2(m.width)
  {
    MaskIsOnes(m.width);
    AndMask(ToUnsigned(v, m.bits), m.width);
    ModMod(v, m.width, m.bits);
  }

  lemma {:induction false} UnsignedIsRemainder(m: Member, p: nat)
    requires m.Valid()
    ensures UncompressUnsigned(m, p) == p % Pow2(m.width)
  {
    MaskIsOnes(m.width);
    AndMask(p, m.width);
    Pow2Monotone(m.width, m.bits);
    SmallRemainder(p % Pow2(m.width), Pow2(m.bits));
  }

  /** The bit that is tested is the top one. */
  lemma {:induction false} SignTest(v: nat, w: nat)
    requires 0 < w <= 32 && v < Pow2(w)
    ensures And(v, OneShifted(w - 1)) == 0 <==> v < Pow2(w - 1)
  {
    AndBit(v, w - 1);
    TopBit(v, w);
  }

  lemma {:induction false} FillSignExtends(m: Member, v: nat)
    requires m.Valid() && m.signed && v < Pow2(m.width)
    ensures FillSign(m, v) == ToSigned(v, m.width)
  {
    NotMask(m.width, m.bits);
    if m.width < m.bits {
      Pow2Monotone(m.width, m.bits - 1);
      SignTest(v, m.width);
      FillAbove(v, m.width, m.bits);
    }
  }

  /** Sign extension: the fill mask turns a set top bit into a negative value. */
  lemma {:induction false} UncompressIsSignExtension(m: Member, p: nat)
    requires m.Valid()
    ensures var v := p % Pow2(m.width);
            UncompressValue(m, p) == if m.signed then ToSigned(v, m.width) else v
  {
    UnsignedIsRemainder(m, p);
    if m.signed {
      FillSignExtends(m, p % Pow2(m.width));
    }
  }

  lemma {:induction false} TopBit(v: nat, w: nat)
    requires w > 0 && v < Pow2(w)
    ensures Shr(v, w - 1) % 2 == 1 <==> v >= Pow2(w - 1)
  {
    var h := Pow2(w - 1);
    if v >= h {
      DivUnique(v, h, 1, v - h);
    } else {
      DivUnique(v, h, 0, v);
    }
  }

  lemma {:induction false} OneLess(a: nat, p: nat)
    requires a > 0
    ensures (a - 1) * p == p * a - p
  {
  }

  lemma {:induction false} OrAbove(v: nat, c: nat, w: nat)
    requires v < Pow2(w)
    ensures Or(Shl(c, w), v) == v + Shl(c, w)
  {
    OrSymmetric(Shl(c, w), v);
    OrDisjoint(v, c, w);
  }

  lemma {:induction false} FillIsShifted(w: nat, bits: nat)
    requires w <= bits
    ensures Pow2(w) <= Pow2(bits)
    ensures Pow2(bits) - Pow2(w) == Shl(Pow2(bits - w) - 1, w)
  {
    Pow2Monotone(w, bits);
    Pow2Add(w, bits - w);
    OneLess(Pow2(bits - w), Pow2(w));
  }

  lemma {:induction false} NotMask(w: nat, bits: nat)
    requires w <= bits
    ensures Mask(w) < Pow2(bits)
    ensures Not(Mask(w), bits) == Pow2(bits) - Pow2(w)
  {
    MaskIsOnes(w);
    Pow2Monotone(w, bits);
  }

  lemma {:induction false} FillAbove(v: nat, w: nat, bits: nat)
    requires w <= bits && v < Pow2(w)
    ensures Mask(w) < Pow2(bits)
    ensures Or(Not(Mask(w), bits), v) == Pow2(bits) - Pow2(w) + v
  {
    NotMask(w, bits);
    FillIsShifted(w, bits);
    OrAbove(v, Pow2(bits - w) - 1, w);
  }

  /** What comes out of the bits always fits the member. */
  lemma {:induction false} UncompressFits(m: Member, p: nat)
    requires m.Valid()
    ensures m.Fits(UncompressValue(m, p))
  {
    UncompressIsSignExtension(m, p);
  }

  lemma {:induction false} RemainderOfShifted(v: int, m: nat)
    requires m > 0 && 0 <= v + m < 2 * m
    ensures v % m == if v < 0 then v + m else v
  {
    if v < 0 { RemainderAdds(-1, m, v + m); SmallRemainder(v + m, m); }
  }

  /** A member survives its bits exactly when its value fits them. */
  lemma {:induction false} ValueRoundTrip(m: Member, v: int)
    requires m.Valid()
    ensures UncompressValue(m, CompressValue(m, v)) == v <==> m.Fits(v)
  {
    CompressIsRemainder(m, v);
    var c := CompressValue(m, v);
    UncompressFits(m, c);
    if m.Fits(v) {
      var p := Pow2(m.width);
      RemainderOfShifted(v, p);
      SmallRemainder(c, p);
      UncompressIsSignExtension(m, c);
    }
  }

  /** Bits survive being read into a member and compressed again. */
  lemma {:induction false} BitsRoundTrip(m: Member, p: nat)
    requires m.Valid()
    ensures CompressValue(m, UncompressValue(m, p)) == p % Pow2(m.width)
  {
    var q := Pow2(m.width);
    UncompressIsSignExtension(m, p);
    CompressIsRemainder(m, UncompressValue(m, p));
    RemainderOfShifted(UncompressValue(m, p), q);
  }

  /** What is read is the one number in the member's range that ends in its bits. */
  lemma {:induction false} MemberReads(m: Member, p: nat)
    requires m.Valid()
    ensures UncompressValue(m, p) % Pow2(m.width) == p % Pow2(m.width)
    ensures var half: int := Pow2(m.width - 1);
            if m.signed then 0 - half <= UncompressValue(m, p) < half else 0 <= UncompressValue(m, p) < 2 * half
  {
    BitsRoundTrip(m, p);
    CompressIsRemainder(m, UncompressValue(m, p));
    UncompressFits(m, p);
  }

  // ---------------------------------------------------------------- the whole pack

  function TotalWidth(ms: seq<Member>): nat {
    if ms == [] then 0 else ms[0].width + TotalWidth(ms[1..])
  }

  /** What the source demands of a structure that is packed into `packBits` bits. */
  ghost predicate Packable(ms: seq<Member>, packBits: nat) {
    && ms != []
    && TotalWidth(ms) <= packBits
    && forall k :: 0 <= k < |ms| ==> ms[k].Valid() && ms[k].bits <= packBits
  }

  /** Members at absolute offsets, or-ed together from the last one inwards. */
  function PackValue(offset: nat, ms: seq<Member>, vs: seq<int>, packBits: nat): nat
    requires |ms| == |vs| > 0
    decreases |ms|
  {
    var mine := Shl(CompressValue(ms[0], vs[0]), offset);
    if |ms| == 1 then mine % Pow2(packBits)
    else Or(PackValue(offset + ms[0].width, ms[1..], vs[1..], packBits), mine) % Pow2(packBits)
  }

  /** Members read off one after the other, the pack shifted along each time. */
  function UnpackValue(ms: seq<Member>, offset: nat, pack: nat): (r: seq<int>)
    requires forall k :: 0 <= k < |ms| ==> ms[k].Valid()
    ensures |r| == |ms|
  {
    if ms == [] then []
    else
      var rest := Shr(pack, offset);
      [UncompressValue(ms[0], And(rest, Mask(ms[0].width)))] + UnpackValue(ms[1..], ms[0].width, rest)
  }

  /** The source assigns the members in place as it goes. */
  method UnpackInto(ms: seq<Member>, k: nat, mps: array<int>, offset: nat, pack: nat)
    requires k < |ms| == mps.Length
    requires forall j :: 0 <= j < |ms| ==> ms[j].Valid()
    modifies mps
    ensures mps[..] == old(mps[..k]) + UnpackValue(ms[k..], offset, pack)
    decreases |ms| - k
  {
    var shifted := Shr(pack, offset);
    mps[k] := UncompressValue(ms[k], And(shifted, Mask(ms[k].width)));
    ghost var mine := mps[k];
    assert mps[..k + 1] == old(mps[..k]) + [mine];
    assert ms[k..][1..] == ms[k + 1..];
    if k + 1 < |ms| {
      UnpackInto(ms, k + 1, mps, ms[k].width, shifted);
      assert UnpackValue(ms[k..], offset, pack) == [mine] + UnpackValue(ms[k + 1..], ms[k].width, shifted);
    } else {
      assert mps[..] == mps[..k + 1];
    }
  }

  /** The pack as one mixed-radix number. */
  function Sum(ms: seq<Member>, vs: seq<int>): nat
    requires |ms| == |vs|
  {
    if ms == [] then 0
    else CompressValue(ms[0], vs[0]) + Pow2(ms[0].width) * Sum(ms[1..], vs[1..])
  }

  function Digits(ms: seq<Member>, q: nat): (r: seq<int>)
    requires forall k :: 0 <= k < |ms| ==> ms[k].Valid()
    ensures |r| == |ms|
  {
    if ms == [] then []
    else [UncompressValue(ms[0], q)] + Digits(ms[1..], Shr(q, ms[0].width))
  }

  lemma {:induction false} SumBound(ms: seq<Member>, vs: seq<int>)
    requires |ms| == |vs| && forall k :: 0 <= k < |ms| ==> ms[k].Valid()
    ensures Sum(ms, vs) < Pow2(TotalWidth(ms))
  {
    if ms != [] {
      SumBound(ms[1..], vs[1..]);
      CompressIsRemainder(ms[0], vs[0]);
      Pow2Add(ms[0].width, TotalWidth(ms[1..]));
      LowPartBound(Pow2(ms[0].width), Pow2(TotalWidth(ms[1..])), Sum(ms[1..], vs[1..]), CompressValue(ms[0], vs[0]));
    }
  }

  lemma {:induction false} ShlDistributes(c: nat, w: nat, s: nat, offset: nat)
    ensures Shl(c + Pow2(w) * s, offset) == Shl(c, offset) + Shl(s, offset + w)
  {
    Pow2Add(offset, w);
    Distribute(c, Pow2(w), s, Pow2(offset));
  }

  lemma {:induction false} Distribute(c: nat, p: nat, s: nat, q: nat)
    ensures (c + p * s) * q == c * q + s * (q * p)
  {
  }

  lemma {:induction false} ShlBelow(x: nat, w: nat, offset: nat)
    requires x < Pow2(w)
    ensures Shl(x, offset) < Pow2(offset + w)
  {
    Pow2Add(offset, w);
    LowPartBound(Pow2(offset), Pow2(w), x, 0);
  }

  lemma {:induction false} OrStep(c: nat, w: nat, s: nat, offset: nat, total: nat)
    requires c < Pow2(w) && total == c + Pow2(w) * s
    ensures Or(Shl(s, offset + w), Shl(c, offset)) == Shl(total, offset)
  {
    ShlDistributes(c, w, s, offset);
    ShlBelow(c, w, offset);
    OrAbove(Shl(c, offset), s, offset + w);
  }

  lemma {:induction false} SumInPack(offset: nat, ms: seq<Member>, vs: seq<int>, packBits: nat)
    requires |ms| == |vs| > 0 && forall k :: 0 <= k < |ms| ==> ms[k].Valid()
    requires offset + TotalWidth(ms) <= packBits
    ensures Shl(Sum(ms, vs), offset) % Pow2(packBits) == Shl(Sum(ms, vs), offset)
  {
    SumBound(ms, vs);
    ShlBelow(Sum(ms, vs), TotalWidth(ms), offset);
    Pow2Monotone(offset + TotalWidth(ms), packBits);
    SmallRemainder(Shl(Sum(ms, vs), offset), Pow2(packBits));
  }

  /** Packing at absolute offsets builds the mixed-radix number, moved up to the offset. */
  lemma {:induction false} PackIsSum(offset: nat, ms: seq<Member>, vs: seq<int>, packBits: nat)
    requires |ms| == |vs| > 0 && forall k :: 0 <= k < |ms| ==> ms[k].Valid()
    requires offset + TotalWidth(ms) <= packBits
    ensures PackValue(offset, ms, vs, packBits) == Shl(Sum(ms, vs), offset)
    decreases |ms|
  {
    SumInPack(offset, ms, vs, packBits);
    var w, c := ms[0].width, CompressValue(ms[0], vs[0]);
    if |ms| > 1 {
      PackIsSum(offset + w, ms[1..], vs[1..], packBits);
      CompressBelow(ms[0], vs[0]);
      OrStep(c, w, Sum(ms[1..], vs[1..]), offset, Sum(ms, vs));
    } else {
      SumOfOne(ms, vs);
    }
  }

  lemma {:induction false} CompressBelow(m: Member, v: int)
    requires m.Valid()
    ensures CompressValue(m, v) < Pow2(m.width)
  {
    CompressIsRemainder(m, v);
  }

  lemma {:induction false} SumOfOne(ms: seq<Member>, vs: seq<int>)
    requires |ms| == |vs| == 1
    ensures Sum(ms, vs) == CompressValue(ms[0], vs[0])
  {
    assert Sum(ms[1..], vs[1..]) == 0;
  }

  /** Shifting the pack along reads the digits of the mixed-radix number. */
  lemma {:induction false} UnpackIsDigits(ms: seq<Member>, offset: nat, pack: nat)
    requires forall k :: 0 <= k < |ms| ==> ms[k].Valid()
    ensures UnpackValue(ms, offset, pack) == Digits(ms, Shr(pack, offset))
  {
    if ms != [] {
      var q := Shr(pack, offset);
      UnpackIsDigits(ms[1..], ms[0].width, q);
      MaskIsOnes(ms[0].width);
      AndMask(q, ms[0].width);
      UncompressIsSignExtension(ms[0], q);
      UncompressIsSignExtension(ms[0], q % Pow2(ms[0].width));
      SmallRemainder(q % Pow2(ms[0].width), Pow2(ms[0].width));
    }
  }

  ghost predicate AllFit(ms: seq<Member>, vs: seq<int>)
    requires |ms| == |vs|
  {
    forall k :: 0 <= k < |ms| ==> ms[k].width > 0 && ms[k].Fits(vs[k])
  }

  lemma {:induction false} SumParts(m: Member, v: int, s: nat)
    requires m.Valid()
    ensures (CompressValue(m, v) + Pow2(m.width) * s) % Pow2(m.width) == CompressValue(m, v)
    ensures Shr(CompressValue(m, v) + Pow2(m.width) * s, m.width) == s
  {
    CompressIsRemainder(m, v);
    DivUnique(CompressValue(m, v) + Pow2(m.width) * s, Pow2(m.width), s, CompressValue(m, v));
  }

  lemma {:induction false} UncompressLow(m: Member, q: nat)
    requires m.Valid()
    ensures UncompressValue(m, q) == UncompressValue(m, q % Pow2(m.width))
  {
    UncompressIsSignExtension(m, q);
    UncompressIsSignExtension(m, q % Pow2(m.width));
    SmallRemainder(q % Pow2(m.width), Pow2(m.width));
  }

  lemma {:induction false} AllFitSplit(ms: seq<Member>, vs: seq<int>)
    requires |ms| == |vs| > 0 && ms[0].Valid()
    ensures AllFit(ms, vs) <==> ms[0].Fits(vs[0]) && AllFit(ms[1..], vs[1..])
  {
    if AllFit(ms[1..], vs[1..]) {
      assert forall k :: 1 <= k < |ms| ==> ms[k] == ms[1..][k - 1] && vs[k] == vs[1..][k - 1];
    }
  }

  lemma {:induction false} DigitsOfSum(ms: seq<Member>, vs: seq<int>)
    requires |ms| == |vs| && forall k :: 0 <= k < |ms| ==> ms[k].Valid()
    ensures Digits(ms, Sum(ms, vs)) == vs <==> AllFit(ms, vs)
  {
    if ms != [] {
      var m, rest := ms[0], Sum(ms[1..], vs[1..]);
      DigitsOfSum(ms[1..], vs[1..]);
      SumParts(m, vs[0], rest);
      UncompressLow(m, Sum(ms, vs));
      ValueRoundTrip(m, vs[0]);
      assert vs == [vs[0]] + vs[1..];
      AllFitSplit(ms, vs);
    }
  }

  /** Unpacking what was packed returns the members exactly when every value fits its bits. */
  lemma {:induction false} PackRoundTrip(ms: seq<Member>, vs: seq<int>, packBits: nat)
    requires |ms| == |vs| && Packable(ms, packBits)
    ensures UnpackValue(ms, 0, PackValue(0, ms, vs, packBits)) == vs <==> AllFit(ms, vs)
  {
    PackIsSum(0, ms, vs, packBits);
    UnpackIsDigits(ms, 0, Sum(ms, vs));
    DigitsOfSum(ms, vs);
  }

  lemma {:induction false} SumOfDigits(ms: seq<Member>, q: nat)
    requires forall k :: 0 <= k < |ms| ==> ms[k].Valid()
    ensures Sum(ms, Digits(ms, q)) == q % Pow2(TotalWidth(ms))
  {
    if ms != [] {
      SumOfDigits(ms[1..], Shr(q, ms[0].width));
      BitsRoundTrip(ms[0], q);
      ModSplit(q, ms[0].width, TotalWidth(ms[1..]));
      assert Digits(ms, q)[1..] == Digits(ms[1..], Shr(q, ms[0].width));
    }
  }

  /** Packing what was unpacked keeps the bits the members cover and clears the others. */
  lemma {:induction false} UnpackRoundTrip(ms: seq<Member>, pack: nat, packBits: nat)
    requires Packable(ms, packBits)
    ensures PackValue(0, ms, UnpackValue(ms, 0, pack), packBits) == pack % Pow2(TotalWidth(ms))
  {
    UnpackIsDigits(ms, 0, pack);
    PackIsSum(0, ms, UnpackValue(ms, 0, pack), packBits);
    SumOfDigits(ms, pack);
  }

  lemma {:induction false} SumOffset(ms: seq<Member>, vs: seq<int>, k: nat)
    requires |ms| == |vs| && k <= |ms| && forall j :: 0 <= j < |ms| ==> ms[j].Valid()
    ensures Sum(ms, vs) == Sum(ms[..k], vs[..k]) + Pow2(TotalWidth(ms[..k])) * Sum(ms[k..], vs[k..])
  {
    if k > 0 {
      SumOffset(ms[1..], vs[1..], k - 1);
      assert ms[..k][1..] == ms[1..][..k - 1] && vs[..k][1..] == vs[1..][..k - 1];
      assert ms[1..][k - 1..] == ms[k..] && vs[1..][k - 1..] == vs[k..];
      Pow2Add(ms[0].width, TotalWidth(ms[1..][..k - 1]));
      OffsetStep(CompressValue(ms[0], vs[0]), Pow2(ms[0].width), Sum(ms[1..][..k - 1], vs[1..][..k - 1]),
                 Pow2(TotalWidth(ms[1..][..k - 1])), Sum(ms[k..], vs[k..]));
    } else {
      assert ms[0..] == ms && vs[0..] == vs && ms[..0] == [] && vs[..0] == [];
    }
  }

  lemma {:induction false} OffsetStep(c: nat, p: nat, a: nat, q: nat, b: nat)
    ensures c + p * (a + q * b) == (c + p * a) + (p * q) * b
  {
  }

  /**
   * Assigning one member moves only the bits of its own interval: below it and above it
   * the pack stays as it was, and the interval holds the new value.
   */
  lemma {:induction false} MemberInterval(ms: seq<Member>, vs: seq<int>, k: nat, v: int, packBits: nat)
    requires |ms| == |vs| && k < |ms| && Packable(ms, packBits)
    ensures var before := PackValue(0, ms, vs, packBits);
            var after := PackValue(0, ms, vs[k := v], packBits);
            var lo := TotalWidth(ms[..k]);
            var hi := lo + ms[k].width;
            && after % Pow2(lo) == before % Pow2(lo)
            && Shr(after, hi) == Shr(before, hi)
            && Shr(after, lo) % Pow2(ms[k].width) == CompressValue(ms[k], v)
  {
    var ws := vs[k := v];
    PackIsSum(0, ms, vs, packBits);
    PackIsSum(0, ms, ws, packBits);
    assert ws[..k] == vs[..k] && ws[k..][1..] == vs[k..][1..];
    IntervalOf(ms, vs, k);
    IntervalOf(ms, ws, k);
  }

  /** Offsets are sums of widths. */
  lemma {:induction false} OffsetsAdd(ms: seq<Member>, k: nat)
    requires k < |ms|
    ensures TotalWidth(ms[..0]) == 0
    ensures TotalWidth(ms[..k + 1]) == TotalWidth(ms[..k]) + ms[k].width
  {
    if k > 0 {
      OffsetsAdd(ms[1..], k - 1);
      assert ms[..k + 1][1..] == ms[1..][..k] && ms[..k][1..] == ms[1..][..k - 1];
    } else {
      assert ms[..1][1..] == [];
    }
  }

  /** At its offset each member has its own bits in the pack, and above the last there are none. */
  lemma {:induction false} PackHolds(ms: seq<Member>, vs: seq<int>, k: nat, packBits: nat)
    requires |ms| == |vs| && k < |ms| && Packable(ms, packBits)
    ensures var pack := PackValue(0, ms, vs, packBits);
            && pack / Pow2(TotalWidth(ms[..k])) % Pow2(ms[k].width) == vs[k] % Pow2(ms[k].width)
            && pack < Pow2(TotalWidth(ms))
  {
    PackIsSum(0, ms, vs, packBits);
    IntervalOf(ms, vs, k);
    CompressIsRemainder(ms[k], vs[k]);
    SumBound(ms, vs);
  }

  lemma {:induction false} BelowInterval(ms: seq<Member>, vs: seq<int>, k: nat)
    requires |ms| == |vs| && k < |ms| && forall j :: 0 <= j < |ms| ==> ms[j].Valid()
    ensures var q, lo := Sum(ms, vs), TotalWidth(ms[..k]);
            q % Pow2(lo) == Sum(ms[..k], vs[..k]) && Shr(q, lo) == Sum(ms[k..], vs[k..])
  {
    SumOffset(ms, vs, k);
    assert forall j :: 0 <= j < k ==> ms[..k][j] == ms[j];
    SumBound(ms[..k], vs[..k]);
    LowAndHigh(Sum(ms, vs), Pow2(TotalWidth(ms[..k])), Sum(ms[k..], vs[k..]), Sum(ms[..k], vs[..k]));
  }

  lemma {:induction false} LowAndHigh(x: nat, m: nat, q: nat, r: nat)
    requires r < m && x == r + m * q
    ensures x / m == q && x % m == r
  {
    DivUnique(x, m, q, r);
  }

  lemma {:induction false} IntervalOf(ms: seq<Member>, vs: seq<int>, k: nat)
    requires |ms| == |vs| && k < |ms| && forall j :: 0 <= j < |ms| ==> ms[j].Valid()
    ensures var q, lo := Sum(ms, vs), TotalWidth(ms[..k]);
            && q % Pow2(lo) == Sum(ms[..k], vs[..k])
            && Shr(q, lo) % Pow2(ms[k].width) == CompressValue(ms[k], vs[k])
            && Shr(q, lo + ms[k].width) == Sum(ms[k..][1..], vs[k..][1..])
  {
    BelowInterval(ms, vs, k);
    SumParts(ms[k], vs[k], Sum(ms[k..][1..], vs[k..][1..]));
    ShrShr(Sum(ms, vs), TotalWidth(ms[..k]), ms[k].width);
  }
}

/**
 * Swap, shrinking and search-and-replace: include/small_vectors/detail/string_func.h and
 * include/small_vectors/basic_string.h.
 */
module StringEdit {
  import opened Lexicographic
  import opened Slots
  import opened StringSizes
  import opened GrowthPolicy
  import opened VectorStorage
  import opened StringFunc

  // -------------------------------------------------------------------------- swap

  ghost predicate ApartStrings(a: Storage<CodeUnit>, b: Storage<CodeUnit>)
    reads a, b
  {
    && a != b && a.heap == b.heap && a.bits == b.bits && a.reallocates == b.reallocates
    && a.buffered != b.buffered && a.buffered.Length == b.buffered.Length
    && (a.dynamic != null ==> a.dynamic != b.dynamic && a.dynamic != b.buffered)
    && (b.dynamic != null ==> b.dynamic != a.buffered)
  }

  /** Puts the terminator back behind the characters. */
  method Terminate(s: Storage<CodeUnit>, ghost t: seq<CodeUnit>)
    requires s.Shape() && s.heap.trivial && (s.reallocates ==> s.bits == 32)
    requires s.size_ == |t| < s.Capacity() && Spells(s.Data(), 0, t)
    modifies s.Data()
    ensures Str(s) && Text(s) == t
  {
    s.Data()[s.size_] := Live(0);
    HeldText(s, t);
  }

  /** The uneven range swap on units; `n <= m`. */
  method SwapUnits(a: array<Slot<CodeUnit>>, n: nat, b: array<Slot<CodeUnit>>, m: nat)
    requires a != b && n <= m <= a.Length && m <= b.Length
    modifies a, b
    ensures forall i :: 0 <= i < m ==> a[i] == old(b[i])
    ensures forall i :: 0 <= i < n ==> b[i] == old(a[i])
  {
    var k := 0;
    while k < n
      invariant k <= n
      invariant forall i :: 0 <= i < k ==> a[i] == old(b[i]) && b[i] == old(a[i])
      invariant forall i :: k <= i < a.Length ==> a[i] == old(a[i])
      invariant forall i :: k <= i < b.Length ==> b[i] == old(b[i])
    {
      a[k], b[k] := b[k], a[k];
      k := k + 1;
    }
    CopyUnits(b, n, m, a, n);
  }

  /** Both in their buffers; the terminators are put back afterwards. */
  method SwapInBuffers(a: Storage<CodeUnit>, b: Storage<CodeUnit>)
    requires Str(a) && Str(b) && ApartStrings(a, b) && a.active == Buffered && b.active == Buffered
    modifies a`size_, b`size_, a.buffered, b.buffered
    ensures Str(a) && Str(b)
    ensures Text(a) == old(Text(b)) && Text(b) == old(Text(a))
  {
    ghost var ta, tb := Text(a), Text(b);
    if a.size_ > b.size_ {
      SwapUnits(b.buffered, b.size_, a.buffered, a.size_);
    } else {
      SwapUnits(a.buffered, a.size_, b.buffered, b.size_);
    }
    a.size_, b.size_ := b.size_, a.size_;
    Terminate(a, tb);
    Terminate(b, ta);
  }

  /** `a` in its buffer, `b` on the heap. */
  method SwapWithBlock(a: Storage<CodeUnit>, b: Storage<CodeUnit>)
    requires Str(a) && Str(b) && ApartStrings(a, b) && a.active == Buffered && b.active == Dynamic
    modifies a, b, b.buffered, b.dynamic
    ensures Str(a) && Str(b)
    ensures Text(a) == old(Text(b)) && Text(b) == old(Text(a))
    ensures a.Owned() == old(b.Owned()) && b.Owned() == {}
  {
    ghost var ta, tb := Text(a), Text(b);
    var dyn := b.dynamic;
    b.dynamic := null;
    b.active := Buffered;
    CopyUnits(a.buffered, 0, a.size_, b.buffered, 0);
    a.dynamic := dyn;
    a.active := Dynamic;
    a.size_, b.size_ := b.size_, a.size_;
    Terminate(a, tb);
    Terminate(b, ta);
  }

  method Swap(a: Storage<CodeUnit>, b: Storage<CodeUnit>)
    requires Str(a) && Str(b) && ApartStrings(a, b)
    modifies a, b, a.Data(), b.Data(), a.buffered, b.buffered
    ensures Str(a) && Str(b)
    ensures Text(a) == old(Text(b)) && Text(b) == old(Text(a))
    ensures a.Owned() == old(b.Owned()) && b.Owned() == old(a.Owned())
  {
    if a.active == Buffered {
      if b.active == Buffered { SwapInBuffers(a, b); } else { SwapWithBlock(a, b); }
    } else if b.active == Buffered {
      SwapWithBlock(b, a);
    } else {
      ghost var ta, tb := Text(a), Text(b);
      a.dynamic, b.dynamic := b.dynamic, a.dynamic;
      a.size_, b.size_ := b.size_, a.size_;
      Terminate(a, tb);
      Terminate(b, ta);
    }
  }

  // ----------------------------------------------------------------- shrink_to_fit

  /** The string is too long for its buffer and its block has not the grown capacity. */
  ghost predicate MovesToNewBlock(s: Storage<CodeUnit>, unit: nat)
    requires UnitSize(unit) && (s.active == Dynamic ==> s.dynamic != null)
    reads s
  {
    && s.Capacity() > s.buffered.Length
    && s.buffered.Length < s.size_ + 1
    && StringGrowth(s.size_ + 1, unit) != s.Capacity()
  }

  /**
   * The characters always survive. The branch that moves them to another block writes no
   * terminator, so the string is in order afterwards exactly when that branch is not taken.
   */
  method ShrinkToFit(s: Storage<CodeUnit>, unit: nat)
    requires Str(s) && s.reallocates && UnitSize(unit) && Bytes(s.size_ + 1, unit) + 8 < UINT32
    modifies s, s.buffered, s.heap`live
    ensures s.Shape() && s.size_ == old(s.size_) && Spells(s.Data(), 0, old(Text(s)))
    ensures s.BlocksAccounted()
    ensures Str(s) <==> old(!MovesToNewBlock(s, unit))
    ensures Str(s) ==> Text(s) == old(Text(s))
    ensures s.Capacity() ==
      if s.size_ + 1 <= s.buffered.Length then s.buffered.Length else StringGrowth(s.size_ + 1, unit)
  {
    TextHeld(s);
    if s.Capacity() > s.buffered.Length {
      var rawSize := RawSize(s, s.size_);
      if s.buffered.Length < rawSize {
        GrowthRoom(rawSize, unit);
        ShrinkBlock(s, StringGrowth(rawSize, unit));
      } else {
        MoveToBuffer(s, Text(s));
      }
    }
  }

  method ShrinkBlock(s: Storage<CodeUnit>, optimal: nat)
    requires Str(s) && s.reallocates && s.size_ + 1 < optimal <= s.MaxSize() && s.buffered.Length < optimal
    modifies s, s.heap`live
    ensures s.Shape() && s.size_ == old(s.size_) && Spells(s.Data(), 0, old(Text(s))) && s.BlocksAccounted()
    ensures Str(s) <==> optimal == old(s.Capacity())
    ensures s.Capacity() == optimal
    ensures Str(s) ==> Text(s) == old(Text(s))
  {
    TextHeld(s);
    if optimal != s.Capacity() {
      MoveToBlock(s, optimal, Text(s));
    }
  }

  method MoveToBlock(s: Storage<CodeUnit>, capacity: nat, ghost t: seq<CodeUnit>)
    requires Str(s) && s.reallocates && t == Text(s)
    requires s.size_ + 1 < capacity <= s.MaxSize() && s.buffered.Length < capacity
    modifies s, s.heap`live
    ensures s.Shape() && s.size_ == old(s.size_) && Spells(s.Data(), 0, t) && s.BlocksAccounted()
    ensures !Str(s) && s.Capacity() == capacity
  {
    var block := s.heap.AllocateGranted(capacity);
    CopyUnits(s.Data(), 0, s.size_, block, 0);
    s.Install(block, s.size_);
    assert s.Data()[s.size_].Raw?;
  }

  method MoveToBuffer(s: Storage<CodeUnit>, ghost t: seq<CodeUnit>)
    requires Str(s) && s.active == Dynamic && t == Text(s) && s.size_ < s.buffered.Length
    modifies s, s.buffered, s.heap`live
    ensures Str(s) && Text(s) == t && s.active == Buffered && s.BlocksAccounted()
  {
    var size := s.size_;
    var block := s.SwitchStatic();
    CopyUnits(block, 0, size, s.buffered, 0);
    s.buffered[size] := Live(0);
    s.SetSize(size);
    s.heap.Deallocate(block);
    HeldText(s, t);
  }

  // ----------------------------------------------------------------------- searching

  /** `what` stands in `t` at `i`. */
  predicate OccursAt(t: seq<CodeUnit>, what: seq<CodeUnit>, i: nat) {
    i + |what| <= |t| && forall k :: 0 <= k < |what| ==> what[k] == t[i + k]
  }

  /** That is, what follows in `t` begins with `what`: the slice there is `what`. */
  lemma {:induction false} OccursIsSlice(t: seq<CodeUnit>, what: seq<CodeUnit>, i: nat)
    ensures OccursAt(t, what, i) <==> i <= |t| && what <= t[i..]
    ensures OccursAt(t, what, i) <==> i + |what| <= |t| && t[i..i + |what|] == what
  {
    if i + |what| <= |t| {
      var slice := t[i..i + |what|];
      assert forall k :: 0 <= k < |what| ==> slice[k] == t[i + k];
      assert t[i..][..|what|] == slice;
    }
  }

  datatype Found = At(pos: nat) | Nowhere

  /** `f` is the first occurrence from `pos` on. */
  ghost predicate IsFirstFrom(t: seq<CodeUnit>, what: seq<CodeUnit>, pos: nat, f: Found) {
    match f
    case At(i) => pos <= i && OccursAt(t, what, i) && forall j :: pos <= j < i ==> !OccursAt(t, what, j)
    case Nowhere => forall j :: pos <= j ==> !OccursAt(t, what, j)
  }

  method Matches(a: array<Slot<CodeUnit>>, i: nat, what: seq<CodeUnit>, ghost t: seq<CodeUnit>) returns (b: bool)
    requires Holds(a, t) && i + |what| <= |t|
    ensures b <==> OccursAt(t, what, i)
  {
    var k := 0;
    while k < |what| && a[i + k] == Live(what[k])
      invariant k <= |what|
      invariant forall j :: 0 <= j < k ==> what[j] == t[i + j]
    {
      k := k + 1;
    }
    b := k == |what|;
  }

  ghost predicate NoneIn(t: seq<CodeUnit>, what: seq<CodeUnit>, from: nat, to: nat) {
    forall j :: from <= j < to ==> !OccursAt(t, what, j)
  }

  lemma {:induction false} NoneBeyond(t: seq<CodeUnit>, what: seq<CodeUnit>, pos: nat, i: nat)
    requires NoneIn(t, what, pos, i) && i + |what| > |t|
    ensures IsFirstFrom(t, what, pos, Nowhere)
  {
  }

  /** A first occurrence in terms of slices. */
  lemma {:induction false} FirstInSlices(t: seq<CodeUnit>, what: seq<CodeUnit>, pos: nat, f: Found)
    ensures IsFirstFrom(t, what, pos, f) <==>
      && (f.At? ==> pos <= f.pos && f.pos + |what| <= |t| && t[f.pos..f.pos + |what|] == what)
      && (forall j :: pos <= j <= |t| && (f.At? ==> j < f.pos) ==> !(what <= t[j..]))
  {
    if f.At? { OccursIsSlice(t, what, f.pos); }
    forall j: nat ensures OccursAt(t, what, j) <==> j <= |t| && what <= t[j..] {
      OccursIsSlice(t, what, j);
    }
  }

  method FindFirst(s: Storage<CodeUnit>, what: seq<CodeUnit>, pos: nat) returns (f: Found)
    requires Str(s)
    ensures IsFirstFrom(Text(s), what, pos, f)
  {
    TextHeld(s);
    f := FindUnits(s.Data(), s.size_, what, pos, Text(s));
  }

  /** view().find: Nowhere stands for npos. */
  method Find(s: Storage<CodeUnit>, what: seq<CodeUnit>, pos: nat) returns (f: Found)
    requires Str(s)
    ensures f.At? ==>
      pos <= f.pos && f.pos + |what| <= |Text(s)| && Text(s)[f.pos..f.pos + |what|] == what
    ensures forall j :: pos <= j <= |Text(s)| && (f.At? ==> j < f.pos) ==> !(what <= Text(s)[j..])
  {
    f := FindFirst(s, what, pos);
    FirstInSlices(Text(s), what, pos, f);
  }

  method FindUnits(a: array<Slot<CodeUnit>>, size: nat, what: seq<CodeUnit>, pos: nat, ghost t: seq<CodeUnit>)
    returns (f: Found)
    requires Holds(a, t) && |t| == size
    ensures IsFirstFrom(t, what, pos, f)
  {
    var i := pos;
    while i + |what| <= size
      invariant pos <= i && NoneIn(t, what, pos, i)
      decreases size - i
    {
      var here := Matches(a, i, what, t);
      if here { return At(i); }
      i := i + 1;
    }
    NoneBeyond(t, what, pos, i);
    return Nowhere;
  }

  // -------------------------------------------------------------- find and replace

  ghost predicate IsFirst(t: seq<CodeUnit>, what: seq<CodeUnit>, i: nat) {
    OccursAt(t, what, i) && forall j :: 0 <= j < i ==> !OccursAt(t, what, j)
  }

  /** The first occurrence of `what` in `t`. */
  ghost function First(t: seq<CodeUnit>, what: seq<CodeUnit>): (f: Found)
    ensures f.At? ==> f.pos + |what| <= |t|
  {
    if exists i: nat :: IsFirst(t, what, i) then
      var i: nat :| IsFirst(t, what, i);
      At(i)
    else Nowhere
  }

  /** Where there is an occurrence there is a first one. */
  lemma {:induction false} SomeFirst(t: seq<CodeUnit>, what: seq<CodeUnit>, j: nat)
    requires OccursAt(t, what, j)
    ensures exists i: nat :: IsFirst(t, what, i)
    decreases j
  {
    if k: nat :| k < j && OccursAt(t, what, k) {
      SomeFirst(t, what, k);
    } else {
      assert IsFirst(t, what, j);
    }
  }

  lemma {:induction false} FirstIsFirst(t: seq<CodeUnit>, what: seq<CodeUnit>)
    ensures IsFirstFrom(t, what, 0, First(t, what))
  {
    forall j: nat | First(t, what) == Nowhere ensures !OccursAt(t, what, j) {
      if OccursAt(t, what, j) { SomeFirst(t, what, j); }
    }
  }

  lemma {:induction false} OccursShift(t: seq<CodeUnit>, what: seq<CodeUnit>, d: nat, i: nat)
    requires d <= |t|
    ensures OccursAt(t[d..], what, i) <==> OccursAt(t, what, i + d)
  {
    if OccursAt(t, what, i + d) {
      assert forall k :: 0 <= k < |what| ==> what[k] == t[d..][i + k];
    }
  }

  lemma {:induction false} FirstUnique(t: seq<CodeUnit>, what: seq<CodeUnit>, pos: nat, f: Found, g: Found)
    requires IsFirstFrom(t, what, pos, f) && IsFirstFrom(t, what, pos, g)
    ensures f == g
  {
  }

  /** A search from `pos` on is a search of what lies behind. */
  lemma {:induction false} FirstFrom(t: seq<CodeUnit>, what: seq<CodeUnit>, pos: nat, f: Found)
    requires pos <= |t| && IsFirstFrom(t, what, pos, f)
    ensures First(t[pos..], what) == if f == Nowhere then Nowhere else At(f.pos - pos)
  {
    var g := if f == Nowhere then Nowhere else At(f.pos - pos);
    forall j: nat ensures OccursAt(t[pos..], what, j) <==> OccursAt(t, what, j + pos) {
      OccursShift(t, what, pos, j);
    }
    FirstIsFirst(t[pos..], what);
    FirstUnique(t[pos..], what, 0, First(t[pos..], what), g);
  }

  /** Left to right, no occurrence overlapping the one before, the new text not searched. */
  ghost function ReplaceAll(t: seq<CodeUnit>, what: seq<CodeUnit>, with: seq<CodeUnit>): seq<CodeUnit>
    requires what != []
    decreases |t|
  {
    match First(t, what)
    case Nowhere => t
    case At(i) => t[..i] + with + ReplaceAll(t[i + |what|..], what, with)
  }

  ghost function Occurrences(t: seq<CodeUnit>, what: seq<CodeUnit>): nat
    requires what != []
    decreases |t|
  {
    match First(t, what)
    case Nowhere => 0
    case At(i) => 1 + Occurrences(t[i + |what|..], what)
  }

  /** Where no slice of the text is the pattern nothing is replaced. */
  lemma {:induction false} ReplaceAllNothing(t: seq<CodeUnit>, what: seq<CodeUnit>, with: seq<CodeUnit>)
    requires what != []
    requires forall j :: 0 <= j <= |t| ==> !(what <= t[j..])
    ensures ReplaceAll(t, what, with) == t && Occurrences(t, what) == 0
  {
    FirstInSlices(t, what, 0, Nowhere);
    FirstIsFirst(t, what);
    FirstUnique(t, what, 0, First(t, what), Nowhere);
  }

  /**
   * Otherwise the first slice that is the pattern makes way for the new text, and the same
   * is done behind it: with the case above, what replacing all occurrences is.
   */
  lemma {:induction false} ReplaceAllFirst(t: seq<CodeUnit>, what: seq<CodeUnit>, with: seq<CodeUnit>, i: nat)
    requires what != [] && i + |what| <= |t| && t[i..i + |what|] == what
    requires forall j :: 0 <= j < i ==> !(what <= t[j..])
    ensures ReplaceAll(t, what, with) == t[..i] + with + ReplaceAll(t[i + |what|..], what, with)
    ensures Occurrences(t, what) == 1 + Occurrences(t[i + |what|..], what)
  {
    FirstInSlices(t, what, 0, At(i));
    FirstIsFirst(t, what);
    FirstUnique(t, what, 0, First(t, what), At(i));
  }

  /** The length of the result follows from the number of replacements. */
  lemma {:induction false} ReplaceAllLength(t: seq<CodeUnit>, what: seq<CodeUnit>, with: seq<CodeUnit>)
    requires what != []
    ensures |ReplaceAll(t, what, with)| == |t| + Occurrences(t, what) * (|with| - |what|)
    ensures Occurrences(t, what) * |what| <= |t|
    decreases |t|
  {
    match First(t, what)
    case Nowhere =>
    case At(i) =>
      var rest := t[i + |what|..];
      ReplaceAllLength(rest, what, with);
      OneMore(Occurrences(rest, what), |with| - |what|);
      OneMore(Occurrences(rest, what), |what|);
  }

  lemma {:induction false} OneMore(k: nat, d: int)
    ensures (1 + k) * d == d + k * d
  {
  }

  /** Text before `base` is finished; the rest still has to be replaced. */
  ghost predicate Progress(t0: seq<CodeUnit>, t: seq<CodeUnit>, base: nat, done: nat, what: seq<CodeUnit>,
                           with: seq<CodeUnit>)
    requires what != []
  {
    && base <= |t|
    && t[..base] + ReplaceAll(t[base..], what, with) == ReplaceAll(t0, what, with)
    && done + Occurrences(t[base..], what) == Occurrences(t0, what)
  }

  /** Up to and with the first occurrence the replacement is settled. */
  lemma {:induction false} ReplaceUnfolds(t: seq<CodeUnit>, base: nat, what: seq<CodeUnit>, with: seq<CodeUnit>, i: nat)
    requires what != [] && base <= |t| && IsFirstFrom(t, what, base, At(i))
    ensures base <= i && i + |what| <= |t|
    ensures ReplaceAll(t[base..], what, with) == t[base..i] + with + ReplaceAll(t[i + |what|..], what, with)
    ensures Occurrences(t[base..], what) == 1 + Occurrences(t[i + |what|..], what)
  {
    FirstFrom(t, what, base, At(i));
    var r, k := t[base..], i - base;
    ReplaceAtFirst(r, what, with, k);
    CountAtFirst(r, what, k);
    assert r[k + |what|..] == t[i + |what|..];
    assert r[..k] == t[base..i];
  }

  lemma {:induction false} ReplaceAtFirst(r: seq<CodeUnit>, what: seq<CodeUnit>, with: seq<CodeUnit>, k: nat)
    requires what != [] && First(r, what) == At(k)
    ensures k + |what| <= |r|
    ensures ReplaceAll(r, what, with) == r[..k] + with + ReplaceAll(r[k + |what|..], what, with)
  {
  }

  lemma {:induction false} CountAtFirst(r: seq<CodeUnit>, what: seq<CodeUnit>, k: nat)
    requires what != [] && First(r, what) == At(k)
    ensures k + |what| <= |r|
    ensures Occurrences(r, what) == 1 + Occurrences(r[k + |what|..], what)
  {
  }

  lemma {:induction false} ReplacedSplits(t: seq<CodeUnit>, base: nat, what: seq<CodeUnit>, with: seq<CodeUnit>, i: nat)
    requires base <= i && i + |what| <= |t|
    ensures var t' := Replaced(t, i, |what|, with);
            && t'[..i + |with|] == t[..base] + (t[base..i] + with)
            && t'[i + |with|..] == t[i + |what|..]
  {
  }

  lemma {:induction false} Reassociate<T>(a: seq<T>, b: seq<T>, c: seq<T>)
    ensures a + b + c == a + (b + c)
  {
  }

  lemma {:induction false} ProgressStep(t0: seq<CodeUnit>, t: seq<CodeUnit>, base: nat, done: nat,
                                        what: seq<CodeUnit>, with: seq<CodeUnit>, i: nat)
    requires what != [] && Progress(t0, t, base, done, what, with)
    requires IsFirstFrom(t, what, base, At(i))
    ensures i + |what| <= |t|
    ensures Progress(t0, Replaced(t, i, |what|, with), i + |with|, done + 1, what, with)
  {
    ReplaceUnfolds(t, base, what, with, i);
    ReplacedSplits(t, base, what, with, i);
    Reassociate(t[..base], t[base..i] + with, ReplaceAll(t[i + |what|..], what, with));
  }

  lemma {:induction false} ProgressEnd(t0: seq<CodeUnit>, t: seq<CodeUnit>, base: nat, done: nat,
                                       what: seq<CodeUnit>, with: seq<CodeUnit>)
    requires what != [] && Progress(t0, t, base, done, what, with)
    requires IsFirstFrom(t, what, base, Nowhere)
    ensures t == ReplaceAll(t0, what, with) && done == Occurrences(t0, what)
  {
    FirstFrom(t, what, base, Nowhere);
    assert t == t[..base] + t[base..];
  }

  /** Every size on the way lies between the first and the last. */
  lemma {:induction false} SizeOnTheWay(t0: seq<CodeUnit>, t: seq<CodeUnit>, base: nat, done: nat,
                                        what: seq<CodeUnit>, with: seq<CodeUnit>)
    requires what != [] && Progress(t0, t, base, done, what, with)
    ensures |t| == |t0| + done * (|with| - |what|)
    ensures |t| <= |t0| || |t| <= |ReplaceAll(t0, what, with)|
  {
    ReplaceAllLength(t0, what, with);
    ReplaceAllLength(t[base..], what, with);
    var d, n, m := |with| - |what|, done, Occurrences(t[base..], what);
    SplitProduct(n, m, d);
    ProductSign(n, d);
    ProductSign(m, d);
  }

  lemma {:induction false} SplitProduct(n: nat, m: nat, d: int)
    ensures (n + m) * d == n * d + m * d
  {
  }

  lemma {:induction false} ProductSign(n: nat, d: int)
    ensures d >= 0 ==> n * d >= 0
    ensures d <= 0 ==> n * d <= 0
  {
  }

  /** All sizes up to `n` can be counted, and so can the bytes they need. */
  ghost predicate Countable(s: Storage<CodeUnit>, unit: nat, n: nat) {
    UnitSize(unit) && n < s.MaxSize() && (s.reallocates ==> Bytes(n + 1, unit) + 8 < UINT32)
  }

  /** One replacement, at the occurrence found. */
  method ReplaceOnce(s: Storage<CodeUnit>, unit: nat, i: nat, what: seq<CodeUnit>, with: seq<CodeUnit>,
                     ghost t0: seq<CodeUnit>, ghost base: nat, done: nat)
    returns (o: Outcome, count: nat, ghost next: nat)
    requires Str(s) && what != [] && Progress(t0, Text(s), base, done, what, with)
    requires IsFirstFrom(Text(s), what, base, At(i))
    requires Countable(s, unit, |t0|) && Countable(s, unit, |ReplaceAll(t0, what, with)|)
    modifies s, s.Data(), s.heap`live
    ensures Str(s) && s.BlocksAccounted()
    ensures Progress(t0, Text(s), next, count, what, with)
    ensures o == Ok ==> next == i + |with| <= s.size_ && count == done + 1
    ensures o == Ok ==> s.size_ - next < old(s.size_) - base
    ensures o != Ok ==> o == LengthError && !s.reallocates && s.Kept()
    ensures o != Ok && |t0| < s.Capacity() ==> |ReplaceAll(t0, what, with)| >= s.Capacity()
  {
    ghost var t := Text(s);
    ProgressStep(t0, t, base, done, what, with, i);
    SizeOnTheWay(t0, Replaced(t, i, |what|, with), i + |with|, done + 1, what, with);
    o := ReplaceAux(s, unit, i, |what|, with);
    if o == Ok {
      count := done + 1;
      next := i + |with|;
    } else {
      KeptText(s, t);
      count := done;
      next := base;
    }
  }

  lemma {:induction false} KeptText(s: Storage<CodeUnit>, t: seq<CodeUnit>)
    requires Str(s) && s.size_ == |t| && Spells(s.Data(), 0, t)
    ensures Text(s) == t
  {
  }

  lemma {:induction false} ProgressStart(t0: seq<CodeUnit>, what: seq<CodeUnit>, with: seq<CodeUnit>)
    requires what != []
    ensures Progress(t0, t0, 0, 0, what, with)
  {
    assert t0[0..] == t0 && t0[..0] + ReplaceAll(t0, what, with) == ReplaceAll(t0, what, with);
  }

  /** Replaces the occurrence found, searches behind the new text, and so on. */
  method ReplaceLoop(s: Storage<CodeUnit>, unit: nat, what: seq<CodeUnit>, with: seq<CodeUnit>)
    returns (o: Outcome, count: nat, ghost base: nat)
    requires Str(s) && what != [] && Countable(s, unit, s.size_)
    requires Countable(s, unit, |ReplaceAll(Text(s), what, with)|)
    modifies s, s.buffered, s.dynamic, s.heap`live
    ensures Str(s) && s.BlocksAccounted()
    ensures Progress(old(Text(s)), Text(s), base, count, what, with)
    ensures o == Ok ==> IsFirstFrom(Text(s), what, base, Nowhere)
    ensures o != Ok ==> o == LengthError && !s.reallocates
    ensures o != Ok ==> |ReplaceAll(old(Text(s)), what, with)| >= s.Capacity()
  {
    o, count, base := Ok, 0, 0;
    ghost var t0 := Text(s);
    ProgressStart(t0, what, with);
    var f := FindFirst(s, what, 0);
    while f != Nowhere
      invariant Str(s) && s.BlocksAccounted() && o == Ok
      invariant !s.reallocates ==> s.Capacity() == s.buffered.Length > |t0|
      invariant Progress(t0, Text(s), base, count, what, with)
      invariant IsFirstFrom(Text(s), what, base, f)
      decreases s.size_ - base
    {
      var next := f.pos + |with|;
      o, count, base := ReplaceOnce(s, unit, f.pos, what, with, t0, base, count);
      if o != Ok { return; }
      f := FindFirst(s, what, next);
    }
  }

  /**
   * find_and_replace. A static string that would grow beyond its buffer stops with an
   * exception and keeps what was replaced so far, up to `base`.
   */
  method FindAndReplace(s: Storage<CodeUnit>, unit: nat, what: seq<CodeUnit>, with: seq<CodeUnit>)
    returns (o: Outcome, count: nat, ghost base: nat)
    requires Str(s) && Countable(s, unit, s.size_)
    requires what != [] ==> Countable(s, unit, |ReplaceAll(Text(s), what, with)|)
    modifies s, s.buffered, s.dynamic, s.heap`live
    ensures Str(s) && s.BlocksAccounted()
    ensures what == [] ==> o == Ok && count == 0 && Text(s) == old(Text(s))
    ensures what != [] && o == Ok ==>
      Text(s) == ReplaceAll(old(Text(s)), what, with) && count == Occurrences(old(Text(s)), what)
    ensures what != [] && o != Ok ==>
      o == LengthError && Progress(old(Text(s)), Text(s), base, count, what, with)
    ensures what != [] ==>
      (o == Ok <==> s.reallocates || |ReplaceAll(old(Text(s)), what, with)| < s.buffered.Length)
  {
    o, count, base := Ok, 0, 0;
    if what != [] {
      ghost var t0 := Text(s);
      o, count, base := ReplaceLoop(s, unit, what, with);
      if o == Ok { ProgressEnd(t0, Text(s), base, count, what, with); }
    }
  }
}

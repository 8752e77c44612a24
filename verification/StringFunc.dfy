/** The string operations of include/small_vectors/detail/string_func.h. */
module StringFunc {
  import opened Lexicographic
  import opened Sequences
  import opened Slots
  import opened StringSizes
  import opened GrowthPolicy
  import opened VectorStorage

  datatype Outcome = Ok | OutOfRange | LengthError

  // --------------------------------------------------------------------- the string

  /** What every string operation keeps. */
  ghost predicate Str(s: Storage<CodeUnit>)
    reads s, s.heap, s.buffered, s.dynamic
  {
    && s.Shape() && s.heap.trivial
    && (s.reallocates ==> s.bits == 32)
    && (forall i :: 0 <= i < s.size_ < s.Capacity() ==> s.Data()[i].Live?)
    && s.size_ < s.Capacity() && s.Data()[s.size_] == Live(0)
  }

  function Values(slots: seq<Slot<CodeUnit>>): (r: seq<CodeUnit>)
    ensures |r| == |slots| && forall i :: 0 <= i < |r| && slots[i].Live? ==> r[i] == slots[i].value
  {
    seq(|slots|, i requires 0 <= i < |slots| => if slots[i].Live? then slots[i].value else 0)
  }

  /** The characters, without the terminator. */
  ghost function Text(s: Storage<CodeUnit>): (r: seq<CodeUnit>)
    requires Str(s)
    reads s, s.heap, s.buffered, s.dynamic
    ensures |r| == s.size_ && forall i :: 0 <= i < |r| ==> s.Data()[i] == Live(r[i])
  {
    Values(s.Data()[..s.size_])
  }

  /** `t` stands in `a` from `at` on. */
  ghost predicate Spells(a: array<Slot<CodeUnit>>, at: nat, t: seq<CodeUnit>)
    reads a
  {
    && at + |t| <= a.Length
    && forall i :: at <= i < at + |t| ==> a[i] == Live(t[i - at])
  }

  /** The buffer holds `t` and its terminator. */
  ghost predicate Holds(a: array<Slot<CodeUnit>>, t: seq<CodeUnit>)
    reads a
  {
    |t| < a.Length && Spells(a, 0, t) && a[|t|] == Live(0)
  }

  /** A buffer that holds `t` makes a string of `t`. */
  lemma {:induction false} HeldText(s: Storage<CodeUnit>, t: seq<CodeUnit>)
    requires s.Shape() && s.heap.trivial && (s.reallocates ==> s.bits == 32)
    requires Holds(s.Data(), t) && s.size_ == |t|
    ensures Str(s) && Text(s) == t
  {
  }

  lemma {:induction false} TextHeld(s: Storage<CodeUnit>)
    requires Str(s)
    ensures Holds(s.Data(), Text(s))
  {
  }

  /** The size can be counted and, where the string would grow, so can its bytes. */
  ghost predicate Fits(s: Storage<CodeUnit>, unit: nat, n: nat)
    requires s.active == Dynamic ==> s.dynamic != null
    reads s
  {
    && UnitSize(unit)
    && n < s.MaxSize()
    && (s.reallocates && n + 1 > s.Capacity() ==> Bytes(n + 1, unit) + 8 < UINT32)
  }

  /** The size with its terminator, in the width of size_type. */
  method RawSize(s: Storage<CodeUnit>, n: nat) returns (raw: nat)
    requires n < s.MaxSize()
    ensures raw == n + 1
  {
    raw := (n + 1) % (s.MaxSize() + 1);
  }

  // ------------------------------------------------------------- loops over units

  method WriteUnits(a: array<Slot<CodeUnit>>, at: nat, t: seq<CodeUnit>)
    requires at + |t| <= a.Length
    modifies a
    ensures Spells(a, at, t)
    ensures forall i :: 0 <= i < a.Length && !(at <= i < at + |t|) ==> a[i] == old(a[i])
  {
    var k := 0;
    while k < |t|
      invariant k <= |t|
      invariant forall i :: at <= i < at + k ==> a[i] == Live(t[i - at])
      invariant forall i :: 0 <= i < a.Length && !(at <= i < at + k) ==> a[i] == old(a[i])
    {
      a[at + k] := Live(t[k]);
      k := k + 1;
    }
  }

  /** A whole text and its terminator. */
  method WriteText(a: array<Slot<CodeUnit>>, t: seq<CodeUnit>)
    requires |t| < a.Length
    modifies a
    ensures Holds(a, t)
  {
    WriteUnits(a, 0, t);
    a[|t|] := Live(0);
  }

  /** Copies [first, last) to another buffer. */
  method CopyUnits(a: array<Slot<CodeUnit>>, first: nat, last: nat, b: array<Slot<CodeUnit>>, to: nat)
    requires a != b && first <= last <= a.Length && to + (last - first) <= b.Length
    modifies b
    ensures forall i :: 0 <= i < b.Length ==>
      b[i] == if to <= i < to + (last - first) then a[i - to + first] else old(b[i])
  {
    var k := first;
    while k < last
      invariant first <= k <= last
      invariant forall i :: 0 <= i < b.Length ==>
        b[i] == if to <= i < to + (k - first) then a[i - to + first] else old(b[i])
    {
      b[to + (k - first)] := a[k];
      k := k + 1;
    }
  }

  /** Copies [first, last) down within the buffer, front to back. */
  method CopyDown(a: array<Slot<CodeUnit>>, first: nat, last: nat, to: nat)
    requires to <= first <= last <= a.Length
    modifies a
    ensures forall i :: 0 <= i < to ==> a[i] == old(a[i])
    ensures forall i :: to <= i < to + (last - first) ==> a[i] == old(a[i - to + first])
  {
    ghost var was := a[..];
    var shift := first - to;
    var k := to;
    while k + shift < last
      invariant to <= k <= k + shift <= last
      invariant forall i :: 0 <= i < to ==> a[i] == was[i]
      invariant forall i :: to <= i < k ==> a[i] == was[i + shift]
      invariant forall i :: k <= i < a.Length ==> a[i] == was[i]
    {
      a[k] := a[k + shift];
      k := k + 1;
    }
  }

  /** Copies [first, last) up within the buffer, back to front, so that it ends at `end`. */
  method CopyUp(a: array<Slot<CodeUnit>>, first: nat, last: nat, end: nat)
    requires first <= last <= end <= a.Length
    modifies a
    ensures forall i :: 0 <= i < first ==> a[i] == old(a[i])
    ensures forall i :: end - (last - first) <= i < end ==> a[i] == old(a[i - (end - last)])
  {
    ghost var was := a[..];
    var shift := end - last;
    var k := end;
    while first + shift < k
      invariant first + shift <= k <= end
      invariant forall i :: 0 <= i < k - shift ==> a[i] == was[i]
      invariant forall i :: k <= i < end ==> a[i] == was[i - shift]
    {
      k := k - 1;
      a[k] := a[k - shift];
    }
  }

  // ------------------------------------------------------------------- reallocation

  /** A new block of the grown capacity. */
  method GrownBlock(s: Storage<CodeUnit>, unit: nat, n: nat) returns (block: array<Slot<CodeUnit>>)
    requires Str(s) && s.reallocates && Fits(s, unit, n) && n + 1 > s.Capacity()
    modifies s.heap`live
    ensures fresh(block) && s.heap.live == old(s.heap.live) + {block}
    ensures n + 1 < block.Length == StringGrowth(n + 1, unit) <= s.MaxSize() && s.buffered.Length < block.Length
  {
    GrowthRoom(n + 1, unit);
    var capacity := StringGrowth(n + 1, unit);
    block := s.heap.AllocateGranted(capacity);
  }

  lemma {:induction false} GrowthRoom(n: nat, unit: nat)
    requires UnitSize(unit) && Bytes(n, unit) + 8 < UINT32
    ensures n < StringGrowth(n, unit) <= MaxOf(32)
  {
    RoundedUp(Bytes(n, unit));
    UnitsOfBytes(n, NextMultipleOf8(Bytes(n, unit)), unit);
  }

  /** The written block becomes the string's memory. */
  method Adopt(s: Storage<CodeUnit>, block: array<Slot<CodeUnit>>, size: nat, ghost t: seq<CodeUnit>)
    requires s.Shape() && s.heap.trivial && s.reallocates && s.bits == 32 && block in s.heap.live
    requires block != s.buffered && block != s.dynamic
    requires s.buffered.Length < block.Length <= s.MaxSize()
    requires Holds(block, t) && size == |t|
    modifies s, s.heap`live
    ensures Str(s) && Text(s) == t && s.dynamic == block && s.active == Dynamic
    ensures s.heap.live == old(s.heap.live) - old(s.Owned())
  {
    s.Install(block, size);
    HeldText(s, t);
  }

  // -------------------------------------------------------------------------- assign

  /** uninitialized_assign: a text that fits the buffer brings the string back into it. */
  method Assign(s: Storage<CodeUnit>, unit: nat, t: seq<CodeUnit>) returns (o: Outcome)
    requires Str(s) && UnitSize(unit) && |t| < s.MaxSize()
    requires s.reallocates ==> Bytes(|t| + 1, unit) + 8 < UINT32
    modifies s, s.buffered, s.dynamic, s.heap`live
    ensures Str(s) && s.BlocksAccounted()
    ensures o == Ok ==> Text(s) == t
    ensures o != Ok ==> s.Kept()
    ensures o == if !s.reallocates && |t| + 1 > old(s.Capacity()) then LengthError else Ok
    ensures s.reallocates && |t| + 1 <= s.buffered.Length ==> s.active == Buffered
    ensures o == Ok ==>
      s.Capacity() ==
        if |t| + 1 <= s.buffered.Length then s.buffered.Length
        else if |t| + 1 > old(s.Capacity()) then StringGrowth(|t| + 1, unit) else old(s.Capacity())
  {
    var rawSize := RawSize(s, |t|);
    if s.reallocates && rawSize <= s.buffered.Length && s.active == Dynamic {
      AssignToBuffer(s, t);
      return Ok;
    }
    if s.Capacity() < rawSize {
      if s.reallocates {
        var block := GrownBlock(s, unit, |t|);
        WriteText(block, t);
        Adopt(s, block, |t|, t);
        return Ok;
      } else {
        return LengthError;
      }
    } else {
      WriteText(s.Data(), t);
      s.SetSize(|t|);
      HeldText(s, t);
      return Ok;
    }
  }

  method AssignToBuffer(s: Storage<CodeUnit>, t: seq<CodeUnit>)
    requires Str(s) && s.active == Dynamic && |t| + 1 <= s.buffered.Length
    modifies s, s.buffered, s.heap`live
    ensures Str(s) && Text(s) == t && s.active == Buffered
    ensures s.BlocksAccounted()
  {
    var block := s.SwitchStatic();
    s.heap.Deallocate(block);
    WriteText(s.buffered, t);
    s.SetSize(|t|);
    HeldText(s, t);
  }

  // ------------------------------------------------------------------------- reserve

  /** The text with its terminator into a block of the grown capacity. */
  method MoveToGrown(s: Storage<CodeUnit>, unit: nat, n: nat)
    requires Str(s) && s.reallocates && Fits(s, unit, n) && n + 1 > s.Capacity()
    modifies s, s.heap`live
    ensures Str(s) && s.BlocksAccounted() && Text(s) == old(Text(s))
    ensures s.Capacity() == StringGrowth(n + 1, unit)
  {
    ghost var t := Text(s);
    var block := GrownBlock(s, unit, n);
    CopyUnits(s.Data(), 0, s.size_ + 1, block, 0);
    Adopt(s, block, s.size_, t);
  }

  method Reserve(s: Storage<CodeUnit>, unit: nat, n: nat) returns (o: Outcome)
    requires Str(s) && Fits(s, unit, n)
    modifies s, s.heap`live
    ensures Str(s) && s.BlocksAccounted() && Text(s) == old(Text(s))
    ensures o == Ok ==>
      s.Capacity() == if n + 1 > old(s.Capacity()) then StringGrowth(n + 1, unit) else old(s.Capacity())
    ensures o != Ok ==> s.Kept()
    ensures o == if !s.reallocates && n + 1 > old(s.Capacity()) then LengthError else Ok
  {
    var rawSize := RawSize(s, n);
    if rawSize > s.Capacity() {
      if s.reallocates {
        MoveToGrown(s, unit, n);
      } else {
        return LengthError;
      }
    }
    return Ok;
  }

  // ---------------------------------------------------------------- resize and append

  /** The kept units and the tail in a block of the grown capacity. */
  method OverwriteInBlock(s: Storage<CodeUnit>, unit: nat, keep: nat, tail: seq<CodeUnit>)
    requires Str(s) && s.reallocates && keep <= s.size_
    requires Fits(s, unit, keep + |tail|) && keep + |tail| + 1 > s.Capacity()
    modifies s, s.heap`live
    ensures Str(s) && s.BlocksAccounted() && Text(s) == old(Text(s))[..keep] + tail
    ensures s.Capacity() == StringGrowth(keep + |tail| + 1, unit)
  {
    ghost var t := Text(s)[..keep] + tail;
    var block := GrownBlock(s, unit, keep + |tail|);
    CopyUnits(s.Data(), 0, s.size_, block, 0);
    WriteBehind(block, keep, tail, t);
    Adopt(s, block, keep + |tail|, t);
  }

  /**
   * resize_and_overwrite with an operation that keeps the first `keep` units and writes
   * `tail` behind them: resize, append and push_back all pass such an operation.
   */
  method ResizeAndOverwrite(s: Storage<CodeUnit>, unit: nat, keep: nat, tail: seq<CodeUnit>) returns (o: Outcome)
    requires Str(s) && keep <= s.size_ && Fits(s, unit, keep + |tail|)
    modifies s, s.Data(), s.heap`live
    ensures Str(s) && s.BlocksAccounted()
    ensures o == Ok ==> Text(s) == old(Text(s))[..keep] + tail
    ensures o == Ok ==>
      s.Capacity() ==
        if keep + |tail| + 1 > old(s.Capacity()) then StringGrowth(keep + |tail| + 1, unit) else old(s.Capacity())
    ensures o != Ok ==> s.Kept()
    ensures o == if !s.reallocates && keep + |tail| + 1 > old(s.Capacity()) then LengthError else Ok
  {
    var size := keep + |tail|;
    var rawSize := RawSize(s, size);
    ghost var t := Text(s)[..keep] + tail;
    if rawSize <= s.Capacity() {
      WriteBehind(s.Data(), keep, tail, t);
      s.SetSize(size);
      HeldText(s, t);
      return Ok;
    } else if s.reallocates {
      OverwriteInBlock(s, unit, keep, tail);
      return Ok;
    } else {
      return LengthError;
    }
  }

  /** A tail and its terminator behind the units that are kept. */
  method WriteBehind(a: array<Slot<CodeUnit>>, keep: nat, tail: seq<CodeUnit>, ghost t: seq<CodeUnit>)
    requires |t| < a.Length && |t| == keep + |tail| && t[keep..] == tail
    requires Spells(a, 0, t[..keep])
    modifies a
    ensures Holds(a, t)
  {
    WriteUnits(a, keep, tail);
    a[keep + |tail|] := Live(0);
    assert forall i :: keep <= i < |t| ==> t[i] == t[keep..][i - keep];
  }

  function Resized(t: seq<CodeUnit>, n: nat, ch: CodeUnit): seq<CodeUnit> {
    if n <= |t| then t[..n] else t + Repeat(ch, n - |t|)
  }

  method Resize(s: Storage<CodeUnit>, unit: nat, n: nat, ch: CodeUnit) returns (o: Outcome)
    requires Str(s) && Fits(s, unit, n)
    modifies s, s.Data(), s.heap`live
    ensures Str(s) && s.BlocksAccounted()
    ensures o == Ok ==> Text(s) == Resized(old(Text(s)), n, ch)
    ensures o == Ok ==> |Text(s)| == n && forall i :: 0 <= i < n ==>
      Text(s)[i] == if i < old(s.size_) then old(Text(s))[i] else ch
    ensures o == Ok ==>
      s.Capacity() == if n + 1 > old(s.Capacity()) then StringGrowth(n + 1, unit) else old(s.Capacity())
    ensures o != Ok ==> s.Kept()
    ensures o == if !s.reallocates && n + 1 > old(s.Capacity()) then LengthError else Ok
  {
    ghost var t := Text(s);
    if n > s.size_ {
      o := ResizeAndOverwrite(s, unit, s.size_, Repeat(ch, n - s.size_));
      assert t[..|t|] == t;
    } else {
      o := ResizeAndOverwrite(s, unit, n, []);
      assert t[..n] + [] == t[..n];
    }
  }

  method Append(s: Storage<CodeUnit>, unit: nat, tail: seq<CodeUnit>) returns (o: Outcome)
    requires Str(s) && Fits(s, unit, s.size_ + |tail|)
    modifies s, s.Data(), s.heap`live
    ensures Str(s) && s.BlocksAccounted()
    ensures o == Ok ==> Text(s) == old(Text(s)) + tail
    ensures o == Ok ==>
      s.Capacity() ==
        if old(s.size_) + |tail| + 1 > old(s.Capacity()) then StringGrowth(old(s.size_) + |tail| + 1, unit)
        else old(s.Capacity())
    ensures o != Ok ==> s.Kept()
    ensures o == if !s.reallocates && old(s.size_) + |tail| + 1 > old(s.Capacity()) then LengthError else Ok
  {
    ghost var t := Text(s);
    o := ResizeAndOverwrite(s, unit, s.size_, tail);
    assert t[..|t|] == t;
  }

  // ------------------------------------------------------------------------- replace

  /** `t` with `count` units from `pos` on replaced by `src`. */
  function Replaced(t: seq<CodeUnit>, pos: nat, count: nat, src: seq<CodeUnit>): (r: seq<CodeUnit>)
    requires pos + count <= |t|
    ensures |r| == |t| - count + |src|
    ensures forall i :: 0 <= i < |r| ==>
      r[i] == if i < pos then t[i] else if i < pos + |src| then src[i - pos] else t[i - |src| + count]
  {
    t[..pos] + src + t[pos + count..]
  }

  /** The part of replace_aux that works inside the buffer, towards either end. */
  method ReplaceInPlace(a: array<Slot<CodeUnit>>, size: nat, pos: nat, count: nat, src: seq<CodeUnit>,
                        ghost t: seq<CodeUnit>)
    requires |t| == size && Holds(a, t) && pos + count <= size
    requires size - count + |src| < a.Length
    modifies a
    ensures Holds(a, Replaced(t, pos, count, src))
  {
    if count == |src| {
    } else if count > |src| {
      CopyDown(a, pos + count, size, pos + |src|);
    } else {
      CopyUp(a, pos + count, size, size - count + |src|);
    }
    WriteUnits(a, pos, src);
    a[size - count + |src|] := Live(0);
  }

  method ReplaceIntoBlock(a: array<Slot<CodeUnit>>, size: nat, block: array<Slot<CodeUnit>>, pos: nat, count: nat,
                          src: seq<CodeUnit>, ghost t: seq<CodeUnit>)
    requires a != block && |t| == size && Holds(a, t) && pos + count <= size
    requires size - count + |src| < block.Length
    modifies block
    ensures Holds(block, Replaced(t, pos, count, src))
  {
    CopyUnits(a, 0, pos, block, 0);
    WriteUnits(block, pos, src);
    CopyUnits(a, pos + count, size, block, pos + |src|);
    assert forall i :: pos + |src| <= i < size - count + |src| ==> block[i] == Live(t[i - |src| + count]);
    block[size - count + |src|] := Live(0);
  }

  /** The part of replace_aux that moves to a block of the grown capacity. */
  method ReplaceGrowing(s: Storage<CodeUnit>, unit: nat, pos: nat, count: nat, src: seq<CodeUnit>)
    requires Str(s) && s.reallocates && pos + count <= s.size_
    requires Fits(s, unit, s.size_ - count + |src|) && s.size_ - count + |src| + 1 > s.Capacity()
    modifies s, s.heap`live
    ensures Str(s) && s.BlocksAccounted() && Text(s) == Replaced(old(Text(s)), pos, count, src)
    ensures s.Capacity() == StringGrowth(old(s.size_) - count + |src| + 1, unit)
  {
    ghost var t := Text(s);
    var newSize := s.size_ - count + |src|;
    var block := GrownBlock(s, unit, newSize);
    ReplaceIntoBlock(s.Data(), s.size_, block, pos, count, src, t);
    Adopt(s, block, newSize, Replaced(t, pos, count, src));
  }

  /** replace_aux: behind it stand replace and insert. */
  method ReplaceAux(s: Storage<CodeUnit>, unit: nat, pos: nat, count: nat, src: seq<CodeUnit>) returns (o: Outcome)
    requires Str(s) && (pos <= s.size_ ==> pos + count <= s.size_ && Fits(s, unit, s.size_ - count + |src|))
    modifies s, s.Data(), s.heap`live
    ensures Str(s) && s.BlocksAccounted()
    ensures o == Ok ==> pos + count <= old(s.size_) && Text(s) == Replaced(old(Text(s)), pos, count, src)
    ensures o == Ok ==>
      s.Capacity() ==
        if old(s.size_) - count + |src| + 1 > old(s.Capacity())
        then StringGrowth(old(s.size_) - count + |src| + 1, unit) else old(s.Capacity())
    ensures o != Ok ==> s.Kept()
    ensures o == if pos > old(s.size_) then OutOfRange
                 else if !s.reallocates && old(s.size_) - count + |src| + 1 > old(s.Capacity()) then LengthError
                 else Ok
  {
    if pos > s.size_ { return OutOfRange; }
    var newSize := s.size_ - count + |src|;
    var rawSize := RawSize(s, newSize);
    ghost var t := Text(s);
    if rawSize <= s.Capacity() {
      ReplaceInPlace(s.Data(), s.size_, pos, count, src, t);
      s.SetSize(newSize);
      HeldText(s, Replaced(t, pos, count, src));
      return Ok;
    } else if s.reallocates {
      ReplaceGrowing(s, unit, pos, count, src);
      return Ok;
    } else {
      return LengthError;
    }
  }

  // --------------------------------------------------------------------------- erase

  method EraseInPlace(a: array<Slot<CodeUnit>>, size: nat, index: nat, count: nat, ghost t: seq<CodeUnit>)
    requires |t| == size && Holds(a, t) && index + count <= size
    modifies a
    ensures Holds(a, Replaced(t, index, count, []))
  {
    CopyDown(a, index + count, size, index);
    a[size - count] := Live(0);
  }

  /** erase: at most what is there behind the index. */
  method Erase(s: Storage<CodeUnit>, index: nat, count: nat)
    requires Str(s) && index <= s.size_
    modifies s`size_, s.Data()
    ensures Str(s)
    ensures Text(s) ==
      Replaced(old(Text(s)), index, if count < old(s.size_) - index then count else old(s.size_) - index, [])
  {
    ghost var t := Text(s);
    var n := if count < s.size_ - index then count else s.size_ - index;
    EraseInPlace(s.Data(), s.size_, index, n, t);
    s.SetSize(s.size_ - n);
    HeldText(s, Replaced(t, index, n, []));
  }

  method PopBack(s: Storage<CodeUnit>)
    requires Str(s) && s.size_ > 0
    modifies s`size_, s.Data()
    ensures Str(s) && Text(s) == old(Text(s))[..old(s.size_) - 1]
  {
    ghost var t := Text(s);
    s.SetSize(s.size_ - 1);
    s.Data()[s.size_] := Live(0);
    HeldText(s, t[..|t| - 1]);
  }

  method Clear(s: Storage<CodeUnit>)
    requires Str(s)
    modifies s`size_, s.Data()
    ensures Str(s) && Text(s) == []
  {
    s.SetSize(0);
    s.Data()[0] := Live(0);
    HeldText(s, []);
  }
}

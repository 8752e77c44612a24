/** The vector operations of include/small_vectors/detail/vector_func.h. */
module VectorFunc {
  import opened Slots
  import opened GrowthPolicy
  import opened VectorStorage

  // ------------------------------------------------------------------ reallocation

  /** `s` with `mid` put in at `p`. */
  function Inserted<T>(s: seq<T>, p: nat, mid: seq<T>): (r: seq<T>)
    requires p <= |s|
    ensures |r| == |s| + |mid|
    ensures forall i :: 0 <= i < |r| ==>
      r[i] == if i < p then s[i] else if i < p + |mid| then mid[i - p] else s[i - |mid|]
  {
    s[..p] + mid + s[p..]
  }

  lemma {:induction false} InsertedIs<T>(now: seq<T>, was: seq<T>, p: nat, mid: seq<T>)
    requires p <= |was| && |now| == |was| + |mid|
    requires forall i :: 0 <= i < p ==> now[i] == was[i]
    requires forall i :: p <= i < p + |mid| ==> now[i] == mid[i - p]
    requires forall i :: p + |mid| <= i < |now| ==> now[i] == was[i - |mid|]
    ensures now == Inserted(was, p, mid)
  {
  }

  /** `block` holds the old elements with `mid` put in at `p`, and raw memory behind them. */
  ghost predicate Filled<T>(block: seq<Slot<T>>, old': seq<Slot<T>>, p: nat, mid: seq<Slot<T>>)
    requires p <= |old'|
  {
    && |old'| + |mid| <= |block|
    && (forall i :: 0 <= i < |old'| + |mid| ==> block[i] == Inserted(old', p, mid)[i])
    && (forall i :: |old'| + |mid| <= i < |block| ==> block[i].Raw?)
  }

  /** The filled block becomes the vector's memory and the memory left behind is freed. */
  method TakeOver<T>(vec: Storage<T>, block: array<Slot<T>>, ghost old': seq<Slot<T>>, ghost p: nat,
                     ghost mid: seq<Slot<T>>, size: nat)
    requires vec.Shape() && vec.reallocates && block in vec.heap.live
    requires block != vec.buffered && block != vec.dynamic
    requires vec.buffered.Length < block.Length <= MaxOf(vec.bits)
    requires RawRange(vec.Data(), 0, vec.Capacity())
    requires vec.active == Dynamic ==> RawRange(vec.buffered, 0, vec.buffered.Length)
    requires p <= |old'| && Filled(block[..], old', p, mid) && size == |old'| + |mid|
    requires AllBuilt(old') && AllBuilt(mid)
    modifies vec, vec.heap`live
    ensures vec.Valid() && vec.Slots() == Inserted(old', p, mid)
    ensures vec.active == Dynamic && vec.dynamic == block
    ensures vec.heap.live == old(vec.heap.live) - old(vec.Owned())
  {
    vec.Install(block, size);
    assert forall i :: 0 <= i < size ==> block[..][i] == Inserted(old', p, mid)[i];
  }

  /** The capacity to grow to; 0 when the elements could not be counted. */
  method NextCapacity<T>(vec: Storage<T>, count: nat) returns (capacity: nat)
    requires vec.Shape() && vec.size_ <= vec.Capacity() && count <= vec.MaxSize()
    ensures capacity == 0 <==> vec.size_ + count > vec.MaxSize()
    ensures capacity != 0 ==> vec.size_ + count <= capacity <= vec.MaxSize()
    ensures capacity != 0 ==> capacity == Grown(vec.size_ + count, vec.MaxSize())
  {
    NarrowGrowth(vec.size_, count, vec.bits);
    capacity := Growth(vec.size_, count, vec.bits);
  }

  /** Asks for a block; the vector is not touched. */
  method NewBlock<T>(vec: Storage<T>, capacity: nat) returns (block: array?<Slot<T>>)
    requires vec.Valid()
    modifies vec.heap
    ensures vec.Valid() && vec.Kept()
    ensures block == null ==> vec.BlocksAccounted() && vec.Refused()
    ensures block != null ==> fresh(block) && vec.heap.live == old(vec.heap.live) + {block}
    ensures block != null ==> block.Length == capacity && RawRange(block, 0, capacity)
    ensures block != null ==> vec.heap.refusals == old(vec.heap.refusals)
  {
    block := vec.heap.Allocate(capacity);
  }

  // ------------------------------------------------------------------- emplace_back

  /**
   * Builds the new element behind the relocated old ones; the old ones go first where
   * nothing can throw. A throw leaves both buffers as they were. `moved` counts the
   * relocated elements.
   */
  method FillForAppend<T>(data: array<Slot<T>>, size: nat, block: array<Slot<T>>, x: T, nothrowCtor: bool, e: Element)
    returns (c: Completion, ghost moved: nat)
    requires block != data && size <= data.Length && size < block.Length
    requires BuiltRange(data, 0, size) && RawRange(data, size, data.Length)
    requires RawRange(block, 0, block.Length)
    modifies data, block, e
    ensures e.throws == old(e.throws) + Thrown(c)
    ensures c == Done ==> Filled(block[..], old(data[..size]), size, [Live(x)]) && RawRange(data, 0, data.Length)
    ensures c == Threw ==>
      (forall i :: 0 <= i < data.Length ==> data[i] == old(data[i])) && RawRange(block, 0, block.Length)
    ensures c != Done ==> e.traits.AppendThrows(nothrowCtor, c)
    ensures moved <= size && (c == Done ==> moved == size)
  {
    if nothrowCtor && e.traits.NothrowRelocate() {
      moved := RelocateN(data, 0, size, block, 0);
      var threw := ConstructAt(block, size, Live(x), true, e);
      return Done, moved;
    }
    var threw := ConstructAt(block, size, Live(x), nothrowCtor, e);
    if threw { return Threw, 0; }
    c, moved := RelocateOrCopyN(data, 0, size, block, 0, e);
    if c == Threw { DestroyRange(block, size, size + 1); }
  }

  /** emplace_back with room left. */
  method AppendInPlace<T>(vec: Storage<T>, x: T, nothrowCtor: bool) returns (c: Completion)
    requires vec.Valid() && vec.size_ < vec.Capacity()
    modifies vec`size_, vec.Data(), vec.element
    ensures vec.element.throws == old(vec.element.throws) + Thrown(c)
    ensures vec.Valid()
    ensures c == Done ==> vec.Slots() == old(vec.Slots()) + [Live(x)]
    ensures c != Done ==> c == Threw && !nothrowCtor && vec.Kept()
  {
    var threw := ConstructAt(vec.Data(), vec.size_, Live(x), nothrowCtor, vec.element);
    if threw { return Threw; }
    vec.SetSize(vec.size_ + 1);
    return Done;
  }

  /** Gives a block back that was not put to use. */
  method Discard<T>(vec: Storage<T>, block: array<Slot<T>>)
    requires vec.Valid() && block in vec.heap.live && block != vec.dynamic
    requires RawRange(block, 0, block.Length)
    modifies vec.heap`live
    ensures vec.Valid() && vec.Kept()
    ensures vec.heap.live == old(vec.heap.live) - {block}
  {
    vec.heap.Deallocate(block);
  }

  /** Appends in a new block, which is freed again if that throws. */
  method AppendInBlock<T>(vec: Storage<T>, block: array<Slot<T>>, x: T, nothrowCtor: bool)
    returns (c: Completion, ghost moved: nat)
    requires vec.Valid() && vec.reallocates && block in vec.heap.live
    requires block != vec.buffered && block != vec.dynamic && RawRange(block, 0, block.Length)
    requires vec.size_ < block.Length && vec.buffered.Length < block.Length <= vec.MaxSize()
    modifies vec, vec.Data(), block, vec.heap`live, vec.element
    ensures vec.element.throws == old(vec.element.throws) + Thrown(c)
    ensures c == Done ==> vec.Valid() && vec.Slots() == old(vec.Slots()) + [Live(x)]
    ensures c == Done ==> vec.active == Dynamic && vec.dynamic == block
    ensures c == Done ==> vec.heap.live == old(vec.heap.live) - old(vec.Owned())
    ensures c == Threw ==> vec.Valid() && vec.Kept() && vec.heap.live == old(vec.heap.live) - {block}
    ensures c != Done ==> vec.traits.AppendThrows(nothrowCtor, c)
    ensures moved <= old(vec.size_) && (c == Done ==> moved == old(vec.size_))
  {
    ghost var slots := vec.Slots();
    c, moved := FillForAppend(vec.Data(), vec.size_, block, x, nothrowCtor, vec.element);
    if c == Threw { Discard(vec, block); }
    if c == Done { TakeOver(vec, block, slots, |slots|, [Live(x)], vec.size_ + 1); }
  }

  /** emplace_back without: a larger block is filled and takes over. */
  method AppendGrowing<T>(vec: Storage<T>, x: T, nothrowCtor: bool) returns (c: Completion, ghost moved: nat)
    requires vec.Valid() && vec.reallocates && vec.size_ == vec.Capacity()
    modifies vec, vec.Data(), vec.heap, vec.element
    ensures vec.element.throws == old(vec.element.throws) + Thrown(c)
    ensures c != Terminated ==> vec.Valid() && vec.BlocksAccounted()
    ensures c == Done ==> vec.Slots() == old(vec.Slots()) + [Live(x)]
    ensures c == OutOfStorage || c == Threw ==> vec.Kept()
    ensures c == OutOfStorage ==> old(vec.size_) == vec.MaxSize() || vec.Refused()
    ensures c == Threw || c == Terminated ==> vec.traits.AppendThrows(nothrowCtor, c)
    ensures old(vec.size_) == vec.MaxSize() ==> c == OutOfStorage
    ensures c == Done ==> vec.Capacity() == Grown(old(vec.size_) + 1, vec.MaxSize())
    ensures moved <= old(vec.size_) && (c == Done ==> moved == old(vec.size_)) && (c == OutOfStorage ==> moved == 0)
  {
    var newCapacity := NextCapacity(vec, 1);
    if newCapacity == 0 { return OutOfStorage, 0; }
    var block := NewBlock(vec, newCapacity);
    if block == null { return OutOfStorage, 0; }
    c, moved := AppendInBlock(vec, block, x, nothrowCtor);
  }

  method EmplaceBack<T>(vec: Storage<T>, x: T, nothrowCtor: bool) returns (c: Completion, ghost moved: nat)
    requires vec.Valid() && vec.reallocates
    modifies vec, vec.Data(), vec.heap, vec.element
    ensures vec.element.throws == old(vec.element.throws) + Thrown(c)
    ensures c != Terminated ==> vec.Valid() && vec.BlocksAccounted()
    ensures c == Done ==> vec.Slots() == old(vec.Slots()) + [Live(x)]
    ensures c == OutOfStorage || c == Threw ==> vec.Kept()
    ensures c == OutOfStorage ==> old(vec.size_) == vec.MaxSize() || vec.Refused()
    ensures c == Threw || c == Terminated ==> vec.traits.AppendThrows(nothrowCtor, c)
    ensures old(vec.size_) == vec.MaxSize() ==> c == OutOfStorage
    ensures c == Done ==>
      vec.Capacity() ==
        if old(vec.size_ < vec.Capacity()) then old(vec.Capacity()) else Grown(old(vec.size_) + 1, vec.MaxSize())
    ensures c == Done && old(vec.size_ < vec.Capacity()) ==>
      vec.active == old(vec.active) && vec.dynamic == old(vec.dynamic)
    ensures moved <= if old(vec.size_ < vec.Capacity()) then 0 else old(vec.size_)
    ensures c == Done ==> moved == if old(vec.size_ < vec.Capacity()) then 0 else old(vec.size_)
    ensures c == OutOfStorage ==> moved == 0
  {
    if vec.size_ < vec.Capacity() {
      c := AppendInPlace(vec, x, nothrowCtor);
      moved := 0;
    } else {
      c, moved := AppendGrowing(vec, x, nothrowCtor);
    }
  }

  // ------------------------------------------------------------------------- insert

  /**
   * Moves the old elements to both sides of the gap [p, p + gap), which is already built.
   * A throw puts everything back.
   */
  method FillAround<T>(data: array<Slot<T>>, size: nat, block: array<Slot<T>>, p: nat, gap: nat, e: Element)
    returns (c: Completion)
    requires block != data && p <= size <= data.Length && size + gap <= block.Length
    requires BuiltRange(data, 0, size)
    requires RawRange(block, 0, p) && RawRange(block, p + gap, block.Length)
    modifies data, block, e
    ensures e.throws == old(e.throws) + Thrown(c)
    ensures c == Done ==>
      forall i :: 0 <= i < block.Length ==>
        block[i] == if i < p then old(data[i])
                    else if p + gap <= i < size + gap then old(data[i - gap]) else old(block[i])
    ensures c == Done ==> forall i :: 0 <= i < data.Length ==> data[i] == if i < size then Raw else old(data[i])
    ensures c == Threw ==> (forall i :: 0 <= i < data.Length ==> data[i] == old(data[i])) &&
                           (forall i :: 0 <= i < block.Length ==> block[i] == old(block[i]))
    ensures c != Done ==> !e.traits.nothrowMove && e.traits.CopyThrows(c)
  {
    ghost var moved;
    if e.traits.nothrowMove {
      moved := RelocateN(data, 0, p, block, 0);
      moved := RelocateN(data, p, size - p, block, p + gap);
      c := Done;
    } else {
      c, moved := CopyConstructN(data[..p], block, 0, e);
      if c == Done {
        c, moved := RelocateWithCopyN(data, p, size - p, block, p + gap, e);
        if c == Done {
          DestroyRange(data, 0, p);
        } else if c == Threw {
          DestroyRange(block, 0, p);
        }
      }
    }
  }

  method FillForInsert<T>(data: array<Slot<T>>, size: nat, block: array<Slot<T>>, p: nat, src: seq<Slot<T>>, e: Element)
    returns (c: Completion)
    requires block != data && p <= size <= data.Length && size + |src| <= block.Length
    requires BuiltRange(data, 0, size) && RawRange(data, size, data.Length)
    requires AllBuilt(src) && RawRange(block, 0, block.Length)
    modifies data, block, e
    ensures e.throws == old(e.throws) + Thrown(c)
    ensures c == Done ==> Filled(block[..], old(data[..size]), p, src) && RawRange(data, 0, data.Length)
    ensures c == Threw ==>
      (forall i :: 0 <= i < data.Length ==> data[i] == old(data[i])) && RawRange(block, 0, block.Length)
    ensures c != Done ==> e.traits.CopyThrows(c)
  {
    ghost var built;
    c, built := CopyConstructN(src, block, p, e);
    if c == Done {
      c := FillAround(data, size, block, p, |src|, e);
      if c == Threw { DestroyRange(block, p, p + |src|); }
    }
  }

  /** At least as many new elements as old ones behind the position. */
  method InsertLong<T>(data: array<Slot<T>>, size: nat, p: nat, src: seq<Slot<T>>, e: Element)
    returns (c: Completion, newSize: nat)
    requires p <= size && size + |src| <= data.Length && |src| >= size - p
    requires BuiltRange(data, 0, size) && RawRange(data, size, data.Length) && AllBuilt(src)
    modifies data, e
    ensures e.throws == old(e.throws) + Thrown(c)
    ensures c != Terminated ==>
      newSize <= data.Length && BuiltRange(data, 0, newSize) && RawRange(data, newSize, data.Length)
    ensures c == Done ==> newSize == size + |src| && data[..newSize] == Inserted(old(data[..size]), p, src)
    ensures c == Threw && p == size ==>
      newSize == size && (forall i :: 0 <= i < data.Length ==> data[i] == old(data[i]))
    ensures c == Done || c == Threw || c == Terminated
    ensures c == Terminated ==> e.traits.nothrowDefault && !e.traits.nothrowCopy
    ensures c == Threw ==> !(e.traits.nothrowCopy && e.traits.nothrowMove && e.traits.nothrowCopyAssign)
  {
    newSize := size;
    c := Done;
    ghost var was := data[..size];
    var oldCount := size - p;
    if |src| > oldCount {
      ghost var built;
      c, built := CopyConstructN(src[oldCount..], data, size, e);
      if c != Done { return; }
      newSize := size + (|src| - oldCount);
    }
    assert forall i :: size <= i < p + |src| ==> data[i] == src[i - p];
    if oldCount != 0 {
      c := MoveConstructWithin(data, p, oldCount, p + |src|, e);
      if c != Done { return; }
      newSize := size + |src|;
      assert forall i :: p + |src| <= i < newSize ==> data[i] == was[i - |src|];
      c := CopyAssign(src[..oldCount], data, p, e);
      assert forall i :: p + |src| <= i < newSize ==> data[i] == was[i - |src|];
      assert c == Done ==> forall i :: p <= i < p + |src| ==> data[i] == src[i - p];
    } else {
      newSize := size + |src|;
    }
    if c == Done { InsertedIs(data[..newSize], was, p, src); }
  }

  /** Fewer new elements than old ones behind the position. */
  method InsertShort<T>(data: array<Slot<T>>, size: nat, p: nat, src: seq<Slot<T>>, e: Element)
    returns (c: Completion, newSize: nat)
    requires p <= size && size + |src| <= data.Length && 0 < |src| < size - p
    requires BuiltRange(data, 0, size) && RawRange(data, size, data.Length) && AllBuilt(src)
    modifies data, e
    ensures e.throws == old(e.throws) + Thrown(c)
    ensures c != Terminated ==>
      newSize <= data.Length && BuiltRange(data, 0, newSize) && RawRange(data, newSize, data.Length)
    ensures c == Done ==> newSize == size + |src| && data[..newSize] == Inserted(old(data[..size]), p, src)
    ensures c == Done || c == Threw
    ensures c == Threw ==> !(e.traits.nothrowMove && e.traits.nothrowMoveAssign && e.traits.nothrowCopyAssign)
  {
    newSize := size;
    ghost var was := data[..size];
    var uninitMovePos := size - p - |src|;
    c := MoveConstructWithin(data, p + uninitMovePos, |src|, size, e);
    if c != Done { return; }
    newSize := size + |src|;
    assert forall i :: size <= i < newSize ==> data[i] == was[i - |src|];
    c := MoveAssignUp(data, p, p + uninitMovePos, size, e);
    if c != Done { return; }
    assert forall i :: p + |src| <= i < newSize ==> data[i] == was[i - |src|];
    c := CopyAssign(src, data, p, e);
    if c == Done { InsertedIs(data[..newSize], was, p, src); }
  }

  /** An exception inside a noexcept function ends the program. */
  function Escaping(c: Completion, noexcept: bool): Completion {
    if c == Threw && noexcept then Terminated else c
  }

  /**
   * Insert with room enough. The function is noexcept when the element can be constructed
   * from the iterator's *value type* and moved without a throw: for elements taken from an
   * array that asks for the move constructor alone.
   */
  method InsertInPlace<T>(vec: Storage<T>, p: nat, src: seq<Slot<T>>) returns (c: Completion)
    requires vec.Valid() && p <= vec.size_ && AllBuilt(src) && src != []
    requires |src| <= vec.Capacity() - vec.size_
    modifies vec`size_, vec.Data(), vec.element
    ensures vec.element.throws == old(vec.element.throws) + Thrown(c)
    ensures c != Terminated ==> vec.Valid()
    ensures c == Done ==> vec.Slots() == Inserted(old(vec.Slots()), p, src)
    ensures c == Threw && p == old(vec.size_) ==> vec.Kept()
    ensures c != Done ==> vec.traits.InsertThrows(c)
  {
    var n;
    var oldCount := vec.size_ - p;
    if |src| >= oldCount {
      c, n := InsertLong(vec.Data(), vec.size_, p, src, vec.element);
    } else {
      c, n := InsertShort(vec.Data(), vec.size_, p, src, vec.element);
    }
    if c != Terminated { vec.SetSize(n); }
    c := Escaping(c, vec.traits.nothrowMove);
  }

  /** Inserts in a new block, which is freed again if that throws. */
  method InsertInBlock<T>(vec: Storage<T>, block: array<Slot<T>>, p: nat, src: seq<Slot<T>>) returns (c: Completion)
    requires vec.Valid() && vec.reallocates && block in vec.heap.live && p <= vec.size_ && AllBuilt(src)
    requires block != vec.buffered && block != vec.dynamic && RawRange(block, 0, block.Length)
    requires vec.size_ + |src| <= block.Length && vec.buffered.Length < block.Length <= vec.MaxSize()
    modifies vec, vec.Data(), block, vec.heap`live, vec.element
    ensures vec.element.throws == old(vec.element.throws) + Thrown(c)
    ensures c == Done ==> vec.Valid() && vec.Slots() == Inserted(old(vec.Slots()), p, src)
    ensures c == Done ==> vec.active == Dynamic && vec.dynamic == block
    ensures c == Done ==> vec.heap.live == old(vec.heap.live) - old(vec.Owned())
    ensures c == Threw ==> vec.Valid() && vec.Kept() && vec.heap.live == old(vec.heap.live) - {block}
    ensures c != Done ==> (c == Threw || c == Terminated) && !vec.traits.nothrowCopy
    ensures c != Done ==> (c == Terminated <==> vec.traits.nothrowMove || vec.traits.nothrowDefault)
  {
    ghost var slots := vec.Slots();
    c := FillForInsert(vec.Data(), vec.size_, block, p, src, vec.element);
    c := Escaping(c, vec.traits.nothrowMove);
    if c == Threw { Discard(vec, block); }
    if c == Done { TakeOver(vec, block, slots, p, src, vec.size_ + |src|); }
  }

  /** Insert without room: a copy that throws ends the program for nothrow-movable elements too. */
  method InsertGrowing<T>(vec: Storage<T>, p: nat, src: seq<Slot<T>>) returns (c: Completion)
    requires vec.Valid() && vec.reallocates && p <= vec.size_ && AllBuilt(src)
    requires vec.Capacity() - vec.size_ < |src| <= vec.MaxSize()
    modifies vec, vec.Data(), vec.heap, vec.element
    ensures vec.element.throws == old(vec.element.throws) + Thrown(c)
    ensures c != Terminated ==> vec.Valid() && vec.BlocksAccounted()
    ensures c == Done ==> vec.Slots() == Inserted(old(vec.Slots()), p, src)
    ensures c == Done ==> vec.Capacity() == Grown(old(vec.size_) + |src|, vec.MaxSize())
    ensures c == OutOfStorage || c == Threw ==> vec.Kept()
    ensures c == OutOfStorage ==> old(vec.size_) + |src| > vec.MaxSize() || vec.Refused()
    ensures c == Threw || c == Terminated ==> !vec.traits.nothrowCopy
    ensures c == Threw || c == Terminated ==> (c == Terminated <==> vec.traits.nothrowMove || vec.traits.nothrowDefault)
  {
    var newCapacity := NextCapacity(vec, |src|);
    if newCapacity == 0 { return OutOfStorage; }
    var block := NewBlock(vec, newCapacity);
    if block == null { return OutOfStorage; }
    c := InsertInBlock(vec, block, p, src);
  }

  /** The whole insert: nothing to do, in place, or into a larger block. */
  method Insert<T>(vec: Storage<T>, p: nat, src: seq<Slot<T>>) returns (c: Completion)
    requires vec.Valid() && p <= vec.size_ && AllBuilt(src) && |src| <= vec.MaxSize()
    modifies vec, vec.Data(), vec.heap, vec.element
    ensures vec.element.throws == old(vec.element.throws) + Thrown(c)
    ensures c != Terminated ==> vec.Valid() && vec.BlocksAccounted()
    ensures c == Done ==> vec.Slots() == Inserted(old(vec.Slots()), p, src)
    ensures c == Done ==>
      vec.Capacity() ==
        if |src| <= old(vec.Capacity() - vec.size_) then old(vec.Capacity())
        else Grown(old(vec.size_) + |src|, vec.MaxSize())
    ensures c == OutOfStorage ==> vec.Kept() && |src| > old(vec.Capacity() - vec.size_)
    ensures c == Threw && (p == old(vec.size_) || |src| > old(vec.Capacity() - vec.size_)) ==> vec.Kept()
    ensures c == OutOfStorage ==> !vec.reallocates || old(vec.size_) + |src| > vec.MaxSize() || vec.Refused()
    ensures c == Threw || c == Terminated ==> vec.traits.InsertThrows(c)
  {
    if src == [] {
      assert Inserted(vec.Slots(), p, src) == vec.Slots();
      return Done;
    }
    if |src| <= vec.Capacity() - vec.size_ {
      c := InsertInPlace(vec, p, src);
    } else if vec.reallocates {
      c := InsertGrowing(vec, p, src);
    } else {
      c := OutOfStorage;
    }
  }

  // ------------------------------------------------------------------------ emplace

  /** Moves the elements from `p` on up by one; the last one into raw memory. */
  method ShiftUp<T>(data: array<Slot<T>>, size: nat, p: nat, e: Element) returns (c: Completion, newSize: nat)
    requires p < size < data.Length
    requires BuiltRange(data, 0, size) && RawRange(data, size, data.Length)
    modifies data, e
    ensures e.throws == old(e.throws) + Thrown(c)
    ensures c != Terminated ==>
      newSize <= data.Length && BuiltRange(data, 0, newSize) && RawRange(data, newSize, data.Length)
    ensures c == Done ==>
      && newSize == size + 1
      && (forall i :: 0 <= i < p ==> data[i] == old(data[i]))
      && (forall i :: p < i <= size ==> data[i] == old(data[i - 1]))
    ensures c != Done ==> c == Threw || c == Terminated
    ensures c == Threw ==> !e.traits.nothrowMoveAssign || (!e.traits.nothrowMove && e.traits.CopyThrows(Threw))
    ensures c == Terminated ==> !e.traits.nothrowMove && e.traits.CopyThrows(Terminated)
  {
    newSize := size;
    if e.traits.nothrowMove {
      c := MoveConstructWithin(data, size - 1, 1, size, e);
    } else {
      ghost var built;
      c, built := CopyConstructN(data[size - 1..size], data, size, e);
    }
    if c != Done { return; }
    newSize := size + 1;
    c := MoveAssignUp(data, p, size - 1, size, e);
  }

  /** emplace_unchecked_impl on the buffer itself. */
  method ShiftForEmplace<T>(data: array<Slot<T>>, size: nat, p: nat, x: T, nothrowCtor: bool, e: Element)
    returns (c: Completion, newSize: nat)
    requires p <= size < data.Length
    requires BuiltRange(data, 0, size) && RawRange(data, size, data.Length)
    modifies data, e
    ensures e.throws == old(e.throws) + Thrown(c)
    ensures c != Terminated ==>
      newSize <= data.Length && BuiltRange(data, 0, newSize) && RawRange(data, newSize, data.Length)
    ensures c == Done ==> newSize == size + 1 && data[..newSize] == Inserted(old(data[..size]), p, [Live(x)])
    ensures c == Threw && p == size ==> newSize == size && forall i :: 0 <= i < data.Length ==> data[i] == old(data[i])
    ensures c != Done ==> c == Threw || c == Terminated
    ensures c == Threw ==>
      !nothrowCtor || !e.traits.nothrowMoveAssign || (!e.traits.nothrowMove && e.traits.CopyThrows(Threw))
    ensures c == Terminated ==> !e.traits.nothrowMove && e.traits.CopyThrows(Terminated)
  {
    newSize := size;
    c := Done;
    if p == size {
      var threw := ConstructAt(data, size, Live(x), nothrowCtor, e);
      if threw { c := Threw; } else { newSize := size + 1; }
    } else {
      c, newSize := ShiftUp(data, size, p, e);
      if c != Done { return; }
      // A temporary is constructed and then move-assigned onto the position.
      var threw := e.Attempt(nothrowCtor);
      if !threw { threw := e.Attempt(e.traits.nothrowMoveAssign); }
      if threw { c := Threw; } else { data[p] := Live(x); }
    }
  }

  method FillForEmplace<T>(data: array<Slot<T>>, size: nat, block: array<Slot<T>>, p: nat, x: T,
                           nothrowCtor: bool, e: Element)
    returns (c: Completion)
    requires block != data && p <= size <= data.Length && size < block.Length
    requires BuiltRange(data, 0, size) && RawRange(data, size, data.Length)
    requires RawRange(block, 0, block.Length)
    modifies data, block, e
    ensures e.throws == old(e.throws) + Thrown(c)
    ensures c == Done ==> Filled(block[..], old(data[..size]), p, [Live(x)]) && RawRange(data, 0, data.Length)
    ensures c == Threw ==>
      (forall i :: 0 <= i < data.Length ==> data[i] == old(data[i])) && RawRange(block, 0, block.Length)
    ensures c != Done ==> (c == Threw && !nothrowCtor) || (!e.traits.nothrowMove && e.traits.CopyThrows(c))
  {
    var threw := ConstructAt(block, p, Live(x), nothrowCtor, e);
    if threw { return Threw; }
    c := FillAround(data, size, block, p, 1, e);
    if c == Threw { DestroyRange(block, p, p + 1); }
  }

  /** Emplaces in a new block, which is freed again if that throws. */
  method EmplaceInBlock<T>(vec: Storage<T>, block: array<Slot<T>>, p: nat, x: T, nothrowCtor: bool)
    returns (c: Completion)
    requires vec.Valid() && vec.reallocates && block in vec.heap.live && p <= vec.size_
    requires block != vec.buffered && block != vec.dynamic && RawRange(block, 0, block.Length)
    requires vec.size_ < block.Length && vec.buffered.Length < block.Length <= vec.MaxSize()
    modifies vec, vec.Data(), block, vec.heap`live, vec.element
    ensures vec.element.throws == old(vec.element.throws) + Thrown(c)
    ensures c == Done ==> vec.Valid() && vec.Slots() == Inserted(old(vec.Slots()), p, [Live(x)])
    ensures c == Done ==> vec.active == Dynamic && vec.dynamic == block
    ensures c == Done ==> vec.heap.live == old(vec.heap.live) - old(vec.Owned())
    ensures c == Threw ==> vec.Valid() && vec.Kept() && vec.heap.live == old(vec.heap.live) - {block}
    ensures c != Done ==> (c == Threw && !nothrowCtor) || (!vec.traits.nothrowMove && vec.traits.CopyThrows(c))
  {
    ghost var slots := vec.Slots();
    c := FillForEmplace(vec.Data(), vec.size_, block, p, x, nothrowCtor, vec.element);
    if c == Threw { Discard(vec, block); }
    if c == Done { TakeOver(vec, block, slots, p, [Live(x)], vec.size_ + 1); }
  }

  method EmplaceGrowing<T>(vec: Storage<T>, p: nat, x: T, nothrowCtor: bool) returns (c: Completion)
    requires vec.Valid() && vec.reallocates && p <= vec.size_ == vec.Capacity()
    modifies vec, vec.Data(), vec.heap, vec.element
    ensures vec.element.throws == old(vec.element.throws) + Thrown(c)
    ensures c != Terminated ==> vec.Valid() && vec.BlocksAccounted()
    ensures c == Done ==> vec.Slots() == Inserted(old(vec.Slots()), p, [Live(x)])
    ensures c == Done ==> vec.Capacity() == Grown(old(vec.size_) + 1, vec.MaxSize())
    ensures c == OutOfStorage || c == Threw ==> vec.Kept()
    ensures c == OutOfStorage ==> old(vec.size_) == vec.MaxSize() || vec.Refused()
    ensures c == Threw || c == Terminated ==>
      (c == Threw && !nothrowCtor) || (!vec.traits.nothrowMove && vec.traits.CopyThrows(c))
  {
    var newCapacity := NextCapacity(vec, 1);
    if newCapacity == 0 { return OutOfStorage; }
    var block := NewBlock(vec, newCapacity);
    if block == null { return OutOfStorage; }
    c := EmplaceInBlock(vec, block, p, x, nothrowCtor);
  }

  method EmplaceInPlace<T>(vec: Storage<T>, p: nat, x: T, nothrowCtor: bool) returns (c: Completion)
    requires vec.Valid() && p <= vec.size_ < vec.Capacity()
    modifies vec`size_, vec.Data(), vec.element
    ensures vec.element.throws == old(vec.element.throws) + Thrown(c)
    ensures c != Terminated ==> vec.Valid()
    ensures c == Done ==> vec.Slots() == Inserted(old(vec.Slots()), p, [Live(x)])
    ensures c == Threw && p == old(vec.size_) ==> vec.Kept()
    ensures c != Done ==> vec.traits.EmplaceThrows(nothrowCtor, c)
  {
    var n;
    c, n := ShiftForEmplace(vec.Data(), vec.size_, p, x, nothrowCtor, vec.element);
    if c != Terminated { vec.SetSize(n); }
    c := Escaping(c, nothrowCtor && vec.traits.nothrowMove);
  }

  method Emplace<T>(vec: Storage<T>, p: nat, x: T, nothrowCtor: bool) returns (c: Completion)
    requires vec.Valid() && p <= vec.size_
    modifies vec, vec.Data(), vec.heap, vec.element
    ensures vec.element.throws == old(vec.element.throws) + Thrown(c)
    ensures c != Terminated ==> vec.Valid() && vec.BlocksAccounted()
    ensures c == Done ==> vec.Slots() == Inserted(old(vec.Slots()), p, [Live(x)])
    ensures c == Done ==>
      vec.Capacity() ==
        if old(vec.size_ < vec.Capacity()) then old(vec.Capacity()) else Grown(old(vec.size_) + 1, vec.MaxSize())
    ensures c == OutOfStorage ==> vec.Kept() && old(vec.size_ == vec.Capacity())
    ensures c == Threw && (p == old(vec.size_) || old(vec.size_ == vec.Capacity())) ==> vec.Kept()
    ensures c == OutOfStorage ==> !vec.reallocates || old(vec.size_) == vec.MaxSize() || vec.Refused()
    ensures c == Threw || c == Terminated ==> vec.traits.EmplaceThrows(nothrowCtor, c)
  {
    if vec.size_ < vec.Capacity() {
      c := EmplaceInPlace(vec, p, x, nothrowCtor);
    } else if vec.reallocates {
      c := EmplaceGrowing(vec, p, x, nothrowCtor);
    } else {
      c := OutOfStorage;
    }
  }
}

/** Capacity, resizing and erasure of include/small_vectors/detail/vector_func.h. */
module VectorResize {
  import opened GrowthPolicy
  import opened Sequences
  import opened Slots
  import opened VectorStorage
  import opened VectorFunc

  // --------------------------------------------------------------------- relocation

  lemma {:induction false} NothingInserted<T>(s: seq<T>)
    ensures Inserted(s, |s|, []) == s
  {
  }

  /** Brings all elements to a new block, which is freed again if that throws. */
  method RelocateToBlock<T>(vec: Storage<T>, block: array<Slot<T>>) returns (c: Completion)
    requires vec.Valid() && vec.reallocates && block in vec.heap.live
    requires block != vec.buffered && block != vec.dynamic && RawRange(block, 0, block.Length)
    requires vec.size_ <= block.Length && vec.buffered.Length < block.Length <= vec.MaxSize()
    modifies vec, vec.Data(), block, vec.heap`live, vec.element
    ensures vec.element.throws == old(vec.element.throws) + Thrown(c)
    ensures c == Done ==> vec.Valid() && vec.Slots() == old(vec.Slots())
    ensures c == Done ==> vec.active == Dynamic && vec.dynamic == block
    ensures c == Done ==> vec.heap.live == old(vec.heap.live) - old(vec.Owned())
    ensures c == Threw ==> vec.Valid() && vec.Kept() && vec.heap.live == old(vec.heap.live) - {block}
    ensures c != Done ==> vec.traits.MayThrow(c)
  {
    ghost var slots := vec.Slots();
    ghost var moved;
    c, moved := RelocateOrCopyN(vec.Data(), 0, vec.size_, block, 0, vec.element);
    if c == Threw { Discard(vec, block); }
    if c == Done {
      NothingInserted(slots);
      TakeOver(vec, block, slots, |slots|, [], vec.size_);
    }
  }

  /** relocate_elements_dyn: all elements into a block of the given capacity. */
  method RelocateDyn<T>(vec: Storage<T>, newCapacity: nat) returns (c: Completion)
    requires vec.Valid() && vec.reallocates
    requires vec.size_ <= newCapacity && vec.buffered.Length < newCapacity <= vec.MaxSize()
    modifies vec, vec.Data(), vec.heap, vec.element
    ensures vec.element.throws == old(vec.element.throws) + Thrown(c)
    ensures c != Terminated ==> vec.Valid() && vec.BlocksAccounted()
    ensures c == Done ==> vec.Slots() == old(vec.Slots()) && vec.Capacity() == newCapacity && vec.active == Dynamic
    ensures c == OutOfStorage ==> vec.Kept() && vec.Refused()
    ensures c == Threw ==> vec.Kept()
    ensures c == Threw || c == Terminated ==> vec.traits.MayThrow(c)
  {
    var block := NewBlock(vec, newCapacity);
    if block == null { return OutOfStorage; }
    c := RelocateToBlock(vec, block);
  }

  /** relocate_elements_static: back into the buffer; a throw reinstates the block. */
  method RelocateStatic<T>(vec: Storage<T>) returns (c: Completion)
    requires vec.Valid() && vec.active == Dynamic && vec.size_ <= vec.buffered.Length
    modifies vec, vec.buffered, vec.dynamic, vec.heap, vec.element
    ensures vec.element.throws == old(vec.element.throws) + Thrown(c)
    ensures c != Terminated ==> vec.Valid() && vec.BlocksAccounted()
    ensures c == Done ==> vec.Slots() == old(vec.Slots()) && vec.active == Buffered
    ensures c != Done ==> vec.traits.MayThrow(c)
    ensures c == Threw ==> vec.Kept()
  {
    var size := vec.size_;
    var block := vec.SwitchStatic();
    ghost var moved;
    c, moved := RelocateOrCopyN(block, 0, size, vec.buffered, 0, vec.element);
    if c == Done {
      vec.SetSize(size);
      vec.heap.Deallocate(block);
    } else if c == Threw {
      var none := vec.Exchange(block, size);
    }
  }

  method Reserve<T>(vec: Storage<T>, newCapacity: nat) returns (c: Completion)
    requires vec.Valid() && vec.reallocates && newCapacity <= vec.MaxSize()
    modifies vec, vec.Data(), vec.heap, vec.element
    ensures vec.element.throws == old(vec.element.throws) + Thrown(c)
    ensures c != Terminated ==> vec.Valid() && vec.BlocksAccounted()
    ensures c == Done ==> vec.Slots() == old(vec.Slots())
    ensures c == Done ==>
      vec.Capacity() == if newCapacity > old(vec.Capacity()) then newCapacity else old(vec.Capacity())
    ensures c == OutOfStorage || c == Threw ==> vec.Kept()
    ensures c == OutOfStorage ==> newCapacity == vec.MaxSize() || vec.Refused()
    ensures c == Threw || c == Terminated ==> vec.traits.MayThrow(c)
    // The largest capacity is refused even to a vector that already has it.
    ensures newCapacity == vec.MaxSize() ==> c == OutOfStorage
  {
    if newCapacity < vec.MaxSize() {
      if newCapacity > vec.Capacity() {
        c := RelocateDyn(vec, newCapacity);
      } else {
        c := Done;
      }
    } else {
      c := OutOfStorage;
    }
  }

  method ShrinkToFit<T>(vec: Storage<T>) returns (c: Completion)
    requires vec.Valid() && vec.reallocates
    modifies vec, vec.buffered, vec.dynamic, vec.heap, vec.element
    ensures vec.element.throws == old(vec.element.throws) + Thrown(c)
    ensures c != Terminated ==> vec.Valid() && vec.BlocksAccounted()
    ensures c == Done ==> vec.Slots() == old(vec.Slots())
    ensures c == Done ==>
      vec.Capacity() == if vec.size_ > vec.buffered.Length then vec.size_ else vec.buffered.Length
    ensures c == OutOfStorage ==> vec.Kept() && vec.Refused()
    ensures c == Threw ==> vec.Kept()
    ensures c == Threw || c == Terminated ==> vec.traits.MayThrow(c)
  {
    if vec.Capacity() - vec.size_ != 0 && vec.Capacity() > vec.buffered.Length {
      if vec.size_ > vec.buffered.Length {
        c := RelocateDyn(vec, vec.size_);
      } else {
        c := RelocateStatic(vec);
      }
    } else {
      c := Done;
    }
  }

  // ------------------------------------------------------------------------- resize

  /** New default elements first, then the old ones; a throw puts everything back. */
  method FillForResize<T>(data: array<Slot<T>>, size: nat, block: array<Slot<T>>, count: nat, x: T, e: Element)
    returns (c: Completion)
    requires block != data && size <= data.Length && size + count <= block.Length
    requires BuiltRange(data, 0, size) && RawRange(data, size, data.Length)
    requires RawRange(block, 0, block.Length)
    modifies data, block, e
    ensures e.throws == old(e.throws) + Thrown(c)
    ensures c == Done ==>
      Filled(block[..], old(data[..size]), size, Repeat(Live(x), count)) && RawRange(data, 0, data.Length)
    ensures c == Threw ==>
      (forall i :: 0 <= i < data.Length ==> data[i] == old(data[i])) && RawRange(block, 0, block.Length)
    ensures c != Done ==> e.traits.ResizeThrows(c)
  {
    ghost var moved;
    if e.traits.NothrowRelocate() && e.traits.nothrowDefault {
      moved := RelocateN(data, 0, size, block, 0);
      c := ValueConstructN(x, block, size, count, e);
    } else {
      c := ValueConstructN(x, block, size, count, e);
      if c == Done {
        if e.traits.nothrowMove {
          moved := RelocateN(data, 0, size, block, 0);
        } else {
          c, moved := RelocateWithCopyN(data, 0, size, block, 0, e);
        }
        if c == Threw { DestroyRange(block, size, size + count); }
      }
    }
  }

  /** Appends default elements in a new block, which is freed again if that throws. */
  method ResizeInBlock<T>(vec: Storage<T>, block: array<Slot<T>>, count: nat, x: T) returns (c: Completion)
    requires vec.Valid() && vec.reallocates && block in vec.heap.live
    requires block != vec.buffered && block != vec.dynamic && RawRange(block, 0, block.Length)
    requires vec.size_ + count <= block.Length && vec.buffered.Length < block.Length <= vec.MaxSize()
    modifies vec, vec.Data(), block, vec.heap`live, vec.element
    ensures vec.element.throws == old(vec.element.throws) + Thrown(c)
    ensures c == Done ==> vec.Valid() && vec.Slots() == old(vec.Slots()) + Repeat(Live(x), count)
    ensures c == Done ==> vec.active == Dynamic && vec.dynamic == block
    ensures c == Done ==> vec.heap.live == old(vec.heap.live) - old(vec.Owned())
    ensures c == Threw ==> vec.Valid() && vec.Kept() && vec.heap.live == old(vec.heap.live) - {block}
    ensures c != Done ==> vec.traits.ResizeThrows(c)
  {
    ghost var slots := vec.Slots();
    c := FillForResize(vec.Data(), vec.size_, block, count, x, vec.element);
    if c == Threw { Discard(vec, block); }
    if c == Done { TakeOver(vec, block, slots, |slots|, Repeat(Live(x), count), vec.size_ + count); }
  }

  method AppendDefaultsGrowing<T>(vec: Storage<T>, count: nat, x: T) returns (c: Completion)
    requires vec.Valid() && vec.reallocates && vec.Capacity() < vec.size_ + count <= vec.MaxSize()
    modifies vec, vec.Data(), vec.heap, vec.element
    ensures vec.element.throws == old(vec.element.throws) + Thrown(c)
    ensures c != Terminated ==> vec.Valid() && vec.BlocksAccounted()
    ensures c == Done ==> vec.Slots() == old(vec.Slots()) + Repeat(Live(x), count)
    ensures c == Done ==> vec.Capacity() == Grown(old(vec.size_) + count, vec.MaxSize())
    ensures c == OutOfStorage || c == Threw ==> vec.Kept()
    ensures c == OutOfStorage ==> vec.Refused()
    ensures c == Threw || c == Terminated ==> vec.traits.ResizeThrows(c)
  {
    var newCapacity := NextCapacity(vec, count);
    var block := NewBlock(vec, newCapacity);
    if block == null { return OutOfStorage; }
    c := ResizeInBlock(vec, block, count, x);
  }

  /**
   * default_append. The capacity it grows to is not looked at before it is used; Resize, its
   * one caller, never asks for more elements than can be counted.
   */
  method DefaultAppend<T>(vec: Storage<T>, count: nat, x: T) returns (c: Completion)
    requires vec.Valid() && vec.size_ + count <= vec.MaxSize()
    modifies vec, vec.Data(), vec.heap, vec.element
    ensures vec.element.throws == old(vec.element.throws) + Thrown(c)
    ensures c != Terminated ==> vec.Valid() && vec.BlocksAccounted()
    ensures c == Done ==> vec.Slots() == old(vec.Slots()) + Repeat(Live(x), count)
    ensures c == Done ==>
      vec.Capacity() ==
        if old(vec.size_) + count <= old(vec.Capacity()) then old(vec.Capacity())
        else Grown(old(vec.size_) + count, vec.MaxSize())
    ensures c == OutOfStorage || c == Threw ==> vec.Kept()
    ensures c == OutOfStorage ==> old(vec.size_ + count > vec.Capacity()) && (!vec.reallocates || vec.Refused())
    ensures c == Threw || c == Terminated ==> vec.traits.ResizeThrows(c)
  {
    if count <= vec.Capacity() - vec.size_ {
      c := ValueConstructN(x, vec.Data(), vec.size_, count, vec.element);
      if c == Done { vec.SetSize(vec.size_ + count); }
    } else if vec.reallocates {
      c := AppendDefaultsGrowing(vec, count, x);
    } else {
      c := OutOfStorage;
    }
  }

  /** `x` is the value of a default-constructed element. */
  method Resize<T>(vec: Storage<T>, newSize: nat, x: T) returns (c: Completion)
    requires vec.Valid() && newSize <= vec.MaxSize()
    modifies vec, vec.Data(), vec.heap, vec.element
    ensures vec.element.throws == old(vec.element.throws) + Thrown(c)
    ensures c != Terminated ==> vec.Valid() && vec.BlocksAccounted()
    ensures c == Done && newSize <= old(vec.size_) ==> vec.Slots() == old(vec.Slots())[..newSize]
    ensures c == Done && newSize > old(vec.size_) ==>
      vec.Slots() == old(vec.Slots()) + Repeat(Live(x), newSize - old(vec.size_))
    ensures c == Done ==>
      vec.Capacity() ==
        if newSize <= old(vec.Capacity()) then old(vec.Capacity()) else Grown(newSize, vec.MaxSize())
    ensures c == OutOfStorage || c == Threw ==> vec.Kept()
    ensures c == OutOfStorage ==> old(newSize > vec.Capacity()) && (!vec.reallocates || vec.Refused())
    ensures c == Threw || c == Terminated ==> vec.traits.ResizeThrows(c)
  {
    c := Done;
    if vec.size_ != newSize {
      if newSize <= vec.MaxSize() {
        if vec.size_ < newSize {
          c := DefaultAppend(vec, newSize - vec.size_, x);
        } else {
          EraseAtEnd(vec, newSize);
        }
      } else {
        c := OutOfStorage;
      }
    }
  }

  // ------------------------------------------------------------------------ erasure

  /** erase_at_end: a position at or behind the end erases nothing. */
  method EraseAtEnd<T>(vec: Storage<T>, pos: nat)
    requires vec.Valid()
    modifies vec`size_, vec.Data()
    ensures vec.Valid()
    ensures vec.Slots() == old(vec.Slots())[..if pos < old(vec.size_) then pos else old(vec.size_)]
  {
    if pos < vec.size_ {
      DestroyRange(vec.Data(), pos, vec.size_);
      vec.SetSize(pos);
    }
  }

  method Clear<T>(vec: Storage<T>)
    requires vec.Valid()
    modifies vec`size_, vec.Data()
    ensures vec.Valid() && vec.Slots() == []
  {
    DestroyRange(vec.Data(), 0, vec.size_);
    vec.SetSize(0);
  }

  method PopBack<T>(vec: Storage<T>)
    requires vec.Valid() && vec.size_ > 0
    modifies vec`size_, vec.Data()
    ensures vec.Valid()
    ensures vec.Slots() == old(vec.Slots())[..old(vec.size_) - 1]
  {
    EraseAtEnd(vec, vec.size_ - 1);
  }

  /** `s` without its elements [first, last). */
  function Erased<T>(s: seq<T>, first: nat, last: nat): (r: seq<T>)
    requires first <= last <= |s|
    ensures |r| == |s| - (last - first)
    ensures forall i :: 0 <= i < |r| ==> r[i] == if i < first then s[i] else s[i + (last - first)]
  {
    s[..first] + s[last..]
  }

  /** Moves the elements behind a gap down over it and destroys what is left at the end. */
  method CloseGap<T>(data: array<Slot<T>>, size: nat, first: nat, last: nat, e: Element) returns (c: Completion)
    requires first < last <= size <= data.Length
    requires BuiltRange(data, 0, size) && RawRange(data, size, data.Length)
    modifies data, e
    ensures e.throws == old(e.throws) + Thrown(c)
    ensures c == Done ==>
      && data[..size - (last - first)] == Erased(old(data[..size]), first, last)
      && BuiltRange(data, 0, size - (last - first)) && RawRange(data, size - (last - first), data.Length)
    ensures c != Done ==> BuiltRange(data, 0, size) && RawRange(data, size, data.Length)
    ensures c != Done ==> c == Threw && !e.traits.nothrowMoveAssign
  {
    c := Done;
    if last != size {
      c := MoveAssignDown(data, last, size, first, e);
    }
    if c == Done {
      DestroyRange(data, size - (last - first), size);
    }
  }

  /** erase of one element; the end position erases nothing. */
  method Erase<T>(vec: Storage<T>, pos: nat) returns (c: Completion)
    requires vec.Valid() && pos <= vec.size_
    modifies vec`size_, vec.Data(), vec.element
    ensures vec.element.throws == old(vec.element.throws) + Thrown(c)
    ensures vec.Valid()
    ensures c == Done ==>
      vec.Slots() == if pos < old(vec.size_) then Erased(old(vec.Slots()), pos, pos + 1) else old(vec.Slots())
    ensures c != Done ==> c == Threw && !vec.traits.nothrowMoveAssign && vec.size_ == old(vec.size_)
  {
    c := Done;
    if pos != vec.size_ {
      c := CloseGap(vec.Data(), vec.size_, pos, pos + 1, vec.element);
      if c == Done { vec.SetSize(vec.size_ - 1); }
    }
  }

  method EraseRange<T>(vec: Storage<T>, first: nat, last: nat) returns (c: Completion)
    requires vec.Valid() && first <= last <= vec.size_
    modifies vec`size_, vec.Data(), vec.element
    ensures vec.element.throws == old(vec.element.throws) + Thrown(c)
    ensures vec.Valid()
    ensures c == Done ==> vec.Slots() == Erased(old(vec.Slots()), first, last)
    ensures c != Done ==> c == Threw && !vec.traits.nothrowMoveAssign && vec.size_ == old(vec.size_)
  {
    c := Done;
    if first != vec.size_ {
      if first != last {
        c := CloseGap(vec.Data(), vec.size_, first, last, vec.element);
        if c == Done { vec.SetSize(vec.size_ - last + first); }
      }
    }
  }
}

/**
 * Moving, copying and swapping whole storages, small_vector_storage of
 * include/small_vectors/detail/vector_storage.h.
 */
module StorageMoves {
  import opened Slots
  import opened VectorStorage

  /** Two objects of the same type that share nothing but the allocator. */
  ghost predicate Apart<T>(a: Storage<T>, b: Storage<T>)
    reads a, b
  {
    && a != b && a.heap == b.heap && a.element == b.element && a.bits == b.bits
    && a.reallocates && b.reallocates
    && a.buffered != b.buffered && a.buffered.Length == b.buffered.Length
    && (a.dynamic != null ==> a.dynamic != b.dynamic && a.dynamic != b.buffered)
    && (b.dynamic != null ==> b.dynamic != a.buffered)
  }

  /** A storage just default-constructed. */
  ghost predicate Blank<T>(s: Storage<T>)
    reads s
  {
    s.active == Buffered && s.size_ == 0
  }

  /** The buffer is active and holds no objects, whatever the size field says. */
  ghost predicate Vacant<T>(s: Storage<T>)
    reads s, s.heap, s.buffered
  {
    s.Shape() && s.active == Buffered && RawRange(s.buffered, 0, s.buffered.Length)
  }

  /** A vacant storage is in order exactly when its size field is 0. */
  lemma {:induction false} VacantValid<T>(s: Storage<T>)
    requires Vacant(s)
    ensures s.Valid() <==> s.size_ == 0
  {
    if s.size_ > 0 { assert s.buffered[0].Raw?; }
  }

  // --------------------------------------------------------------------- move

  /** Moves the elements of a buffered `rh` over, which cannot throw. */
  method MoveElements<T>(lh: Storage<T>, rh: Storage<T>)
    requires Vacant(lh) && rh.Valid() && Apart(lh, rh) && rh.active == Buffered
    requires lh.traits.NothrowRelocate()
    modifies lh`size_, rh`size_, lh.buffered, rh.buffered
    ensures lh.Valid() && rh.Valid() && Blank(rh)
    ensures lh.Slots() == old(rh.Slots())
  {
    ghost var moved := RelocateN(rh.buffered, 0, rh.size_, lh.buffered, 0);
    lh.size_, rh.size_ := rh.size_, 0;
  }

  /** Copies the elements of a buffered `rh` over and destroys the originals. */
  method CopyElements<T>(lh: Storage<T>, rh: Storage<T>) returns (c: Completion)
    requires Vacant(lh) && rh.Valid() && Apart(lh, rh) && rh.active == Buffered
    modifies lh`size_, rh`size_, lh.buffered, rh.buffered, lh.element
    ensures lh.element.throws == old(lh.element.throws) + Thrown(c)
    ensures c == Done ==> lh.Valid() && rh.Valid() && Blank(rh)
    ensures c == Done ==> lh.Slots() == old(rh.Slots())
    ensures c == Threw ==> Vacant(lh) && lh.size_ == old(lh.size_) && rh.Valid() && rh.Kept()
    ensures c != Done ==> lh.traits.CopyThrows(c)
  {
    ghost var moved;
    c, moved := RelocateWithCopyN(rh.buffered, 0, rh.size_, lh.buffered, 0, lh.element);
    if c == Done { lh.size_, rh.size_ := rh.size_, 0; }
  }

  /** Brings the elements of a buffered `rh` over, by moves that cannot throw or by copies. */
  method TakeElements<T>(lh: Storage<T>, rh: Storage<T>, byMove: bool) returns (c: Completion)
    requires Vacant(lh) && rh.Valid() && Apart(lh, rh) && rh.active == Buffered
    requires byMove ==> lh.traits.NothrowRelocate()
    modifies lh`size_, rh`size_, lh.buffered, rh.buffered, lh.element
    ensures lh.element.throws == old(lh.element.throws) + Thrown(c)
    ensures c == Done ==> lh.Valid() && rh.Valid() && Blank(rh)
    ensures c == Done ==> lh.Slots() == old(rh.Slots())
    ensures c == Threw ==> Vacant(lh) && lh.size_ == old(lh.size_) && rh.Valid() && rh.Kept()
    ensures c != Done ==> !byMove && lh.traits.CopyThrows(c)
  {
    if byMove {
      MoveElements(lh, rh);
      c := Done;
    } else {
      c := CopyElements(lh, rh);
    }
  }

  /** Hands the block of a dynamic `rh` over. */
  method TakeBlock<T>(lh: Storage<T>, rh: Storage<T>)
    requires Vacant(lh) && rh.Valid() && Apart(lh, rh) && rh.active == Dynamic
    modifies lh, rh
    ensures lh.Valid() && rh.Valid() && Apart(lh, rh) && Blank(rh)
    ensures lh.Slots() == old(rh.Slots()) && lh.Owned() == old(rh.Owned())
  {
    lh.dynamic := rh.dynamic;
    lh.active := Dynamic;
    rh.dynamic := null;
    rh.active := Buffered;
    lh.size_, rh.size_ := rh.size_, 0;
  }

  /** construct_move: `lh` takes the elements and the block, `rh` is left empty. */
  method ConstructMove<T>(lh: Storage<T>, rh: Storage<T>) returns (c: Completion)
    requires lh.Valid() && rh.Valid() && Apart(lh, rh) && Blank(lh)
    modifies lh, rh, lh.buffered, rh.buffered, lh.element
    ensures lh.element.throws == old(lh.element.throws) + Thrown(c)
    ensures c == Done ==> lh.Valid() && rh.Valid() && Apart(lh, rh) && Blank(rh)
    ensures c == Done ==> lh.Slots() == old(rh.Slots()) && lh.Owned() == old(rh.Owned())
    ensures c == Threw ==> lh.Valid() && rh.Valid() && Blank(lh) && rh.Kept()
    ensures c != Done ==> lh.traits.MayThrow(c) && old(rh.active) == Buffered
  {
    c := Done;
    if rh.active == Buffered {
      c := TakeElements(lh, rh, lh.traits.NothrowRelocate());
    } else {
      TakeBlock(lh, rh);
    }
  }

  /** What the choice of relocation in assign_move demands of the element type. */
  predicate AssignMoveCompiles(tr: Traits) {
    tr.triviallyRelocatable || tr.nothrowMoveAssign ==> tr.NothrowRelocate()
  }

  /** Destroys the elements and frees the block, the way assign_move begins: size_ stays. */
  method Vacate<T>(lh: Storage<T>)
    requires lh.Valid()
    modifies lh`active, lh`dynamic, lh.Data(), lh.heap`live
    ensures Vacant(lh) && lh.dynamic == null
    ensures lh.heap.live == old(lh.heap.live) - old(lh.Owned())
  {
    if lh.size_ != 0 { DestroyRange(lh.Data(), 0, lh.size_); }
    if lh.active == Dynamic {
      lh.heap.Deallocate(lh.dynamic);
      lh.dynamic := null;
      lh.active := Buffered;
    }
  }

  /**
   * assign_move. It relocates by moving only where *assigning* by move is nothrow, and copies
   * where just the move constructor is. When copying throws half way the elements are destroyed but still counted:
   * the target is in order again exactly if it was empty before.
   */
  method AssignMove<T>(lh: Storage<T>, rh: Storage<T>) returns (c: Completion)
    requires lh.Valid() && rh.Valid() && Apart(lh, rh) && AssignMoveCompiles(lh.traits)
    modifies lh, rh, lh.Data(), lh.buffered, rh.buffered, lh.heap`live, lh.element
    ensures lh.element.throws == old(lh.element.throws) + Thrown(c)
    ensures c == Done ==> lh.Valid() && rh.Valid() && Apart(lh, rh) && Blank(rh)
    ensures c == Done ==> lh.Slots() == old(rh.Slots()) && lh.Owned() == old(rh.Owned())
    ensures c != Terminated ==> lh.heap.live == old(lh.heap.live) - old(lh.Owned())
    ensures c == Threw ==> rh.Valid() && rh.Kept()
    ensures c == Threw ==> (lh.Valid() <==> old(lh.size_) == 0)
    ensures c == Threw ==> Apart(lh, rh) && lh.Owned() == {}
    ensures c == Threw && lh.Valid() ==> lh.Slots() == []
    ensures c != Done ==> lh.traits.AssignMoveThrows(c) && old(rh.active) == Buffered
  {
    c := Done;
    Vacate(lh);
    assert rh.Valid() && rh.Slots() == old(rh.Slots());
    if rh.active == Buffered {
      c := TakeElements(lh, rh, lh.traits.triviallyRelocatable || lh.traits.nothrowMoveAssign);
      if c == Threw { VacantValid(lh); }
    } else {
      TakeBlock(lh, rh);
    }
  }

  // --------------------------------------------------------------------- copy

  /** Fills an empty, vacant storage's buffer with copies. */
  method CopyIntoBuffer<T>(lh: Storage<T>, src: seq<Slot<T>>) returns (c: Completion)
    requires Vacant(lh) && lh.size_ == 0 && AllBuilt(src) && |src| <= lh.buffered.Length
    modifies lh`size_, lh.buffered, lh.element
    ensures lh.element.throws == old(lh.element.throws) + Thrown(c)
    ensures c == Done ==> lh.Valid() && lh.Slots() == src
    ensures c == Threw ==> lh.Valid() && lh.Slots() == []
    ensures c != Done ==> lh.traits.CopyThrows(c)
  {
    ghost var built;
    c, built := CopyConstructN(src, lh.buffered, 0, lh.element);
    if c == Done { lh.SetSize(|src|); }
  }

  /**
   * Copies into a block of exactly the needed capacity. A throw frees the new block; a
   * refusal (std::bad_alloc) changes nothing either.
   */
  method CopyIntoBlock<T>(lh: Storage<T>, src: seq<Slot<T>>) returns (c: Completion, block: array?<Slot<T>>)
    requires AllBuilt(src)
    modifies lh.heap, lh.element
    ensures lh.element.throws == old(lh.element.throws) + Thrown(c)
    ensures c == Done ==> block != null && fresh(block) && block.Length == |src| && block[..] == src
    ensures c == Done ==> lh.heap.live == old(lh.heap.live) + {block}
    ensures c == Threw || c == OutOfStorage ==> lh.heap.live == old(lh.heap.live)
    ensures lh.heap.refusals == old(lh.heap.refusals) + (if c == OutOfStorage then 1 else 0)
    ensures c == Threw || c == Terminated ==> lh.traits.CopyThrows(c)
  {
    block := lh.heap.Allocate(|src|);
    if block == null { return OutOfStorage, null; }
    ghost var built;
    c, built := CopyConstructN(src, block, 0, lh.element);
    if c == Threw { lh.heap.Deallocate(block); }
  }

  /** construct_copy; for Threw and OutOfStorage the object never comes to life. */
  method ConstructCopy<T>(lh: Storage<T>, src: seq<Slot<T>>) returns (c: Completion)
    requires lh.Valid() && lh.reallocates && Blank(lh) && AllBuilt(src) && |src| <= lh.MaxSize()
    modifies lh, lh.buffered, lh.heap, lh.element
    ensures lh.element.throws == old(lh.element.throws) + Thrown(c)
    ensures c == Done ==> lh.Valid() && lh.Slots() == src && lh.BlocksAccounted()
    ensures c == Done ==> lh.Capacity() == if |src| > lh.buffered.Length then |src| else lh.buffered.Length
    ensures c == Threw || c == OutOfStorage ==> lh.Valid() && Blank(lh) && lh.heap.live == old(lh.heap.live)
    ensures c == OutOfStorage ==> lh.Refused()
    ensures c == Threw || c == Terminated ==> lh.traits.CopyThrows(c)
  {
    if |src| > lh.buffered.Length {
      var block;
      c, block := CopyIntoBlock(lh, src);
      if c == Done {
        lh.dynamic := block;
        lh.active := Dynamic;
        lh.size_ := |src|;
      }
    } else {
      c := CopyIntoBuffer(lh, src);
    }
  }

  /** The block has been freed but the object still points to it. */
  ghost predicate Dangling<T>(s: Storage<T>)
    reads s, s.heap
  {
    s.active == Dynamic && s.dynamic != null && s.dynamic !in s.heap.live
  }

  /**
   * assign_copy into a block: the old block is freed before the new one is asked for, so a
   * throw or a refusal leaves a dynamic target pointing to freed memory.
   */
  method AssignCopyGrowing<T>(lh: Storage<T>, src: seq<Slot<T>>) returns (c: Completion)
    requires lh.Shape() && lh.size_ == 0 && RawRange(lh.Data(), 0, lh.Capacity())
    requires lh.active == Dynamic ==> RawRange(lh.buffered, 0, lh.buffered.Length)
    requires lh.reallocates && AllBuilt(src) && lh.Capacity() < |src| <= lh.MaxSize()
    modifies lh, lh.heap, lh.element
    ensures lh.element.throws == old(lh.element.throws) + Thrown(c)
    ensures c == Done ==> lh.Valid() && lh.Slots() == src && lh.BlocksAccounted()
    ensures c == Done ==> lh.active == Dynamic && lh.Capacity() == |src|
    ensures c == Threw || c == OutOfStorage ==>
      if old(lh.active) == Dynamic then Dangling(lh) else lh.Valid() && lh.Slots() == [] && lh.BlocksAccounted()
    ensures c == Threw || c == OutOfStorage ==> lh.heap.live == old(lh.heap.live) - old(lh.Owned())
    ensures c == OutOfStorage ==> lh.Refused()
    ensures c == Threw || c == Terminated ==> lh.traits.CopyThrows(c)
  {
    if lh.active == Dynamic { lh.heap.Deallocate(lh.dynamic); }
    var block;
    c, block := CopyIntoBlock(lh, src);
    if c == Done {
      lh.dynamic := block;
      lh.size_ := |src|;
      lh.active := Dynamic;
    }
  }

  /** assign_copy where the capacity suffices. */
  method AssignCopyFitting<T>(lh: Storage<T>, src: seq<Slot<T>>) returns (c: Completion)
    requires lh.Shape() && lh.size_ == 0 && RawRange(lh.Data(), 0, lh.Capacity())
    requires lh.active == Dynamic ==> RawRange(lh.buffered, 0, lh.buffered.Length)
    requires AllBuilt(src) && |src| <= lh.Capacity()
    modifies lh, lh.Data(), lh.buffered, lh.heap`live, lh.element
    ensures lh.element.throws == old(lh.element.throws) + Thrown(c)
    ensures c == Done ==> lh.Valid() && lh.Slots() == src
    ensures c == Done ==> (lh.active == Buffered <==> |src| <= lh.buffered.Length)
    ensures c == Done ==>
      lh.Capacity() == if |src| <= lh.buffered.Length then lh.buffered.Length else old(lh.Capacity())
    ensures c == Threw ==> lh.Valid() && lh.Slots() == []
    ensures lh.BlocksAccounted()
    ensures c != Done ==> lh.traits.CopyThrows(c)
  {
    if lh.active == Dynamic && |src| <= lh.buffered.Length {
      lh.heap.Deallocate(lh.dynamic);
      lh.dynamic := null;
      lh.active := Buffered;
    }
    ghost var built;
    c, built := CopyConstructN(src, lh.Data(), 0, lh.element);
    if c == Done { lh.SetSize(|src|); }
  }

  /**
   * assign_copy from another object's elements. Where it does not succeed the target is
   * in order again unless it was dynamic and too small for the copy.
   */
  method AssignCopy<T>(lh: Storage<T>, src: seq<Slot<T>>) returns (c: Completion)
    requires lh.Valid() && lh.reallocates && AllBuilt(src) && |src| <= lh.MaxSize()
    modifies lh, lh.Data(), lh.buffered, lh.heap, lh.element
    ensures lh.element.throws == old(lh.element.throws) + Thrown(c)
    ensures c == Done ==> lh.Valid() && lh.Slots() == src && lh.BlocksAccounted()
    ensures c == Done ==> (lh.active == Buffered <==> |src| <= lh.buffered.Length)
    ensures c == Done ==>
      lh.Capacity() ==
        if |src| <= lh.buffered.Length then lh.buffered.Length
        else if |src| <= old(lh.Capacity()) then old(lh.Capacity()) else |src|
    ensures c == Threw || c == OutOfStorage ==>
      (lh.Valid() <==> !(old(lh.active) == Dynamic && old(lh.Capacity()) < |src|))
    ensures c == Threw || c == OutOfStorage ==>
      if lh.Valid() then lh.Slots() == [] && lh.BlocksAccounted() else Dangling(lh)
    ensures c == OutOfStorage ==> lh.Refused()
    ensures c == Threw || c == Terminated ==> lh.traits.CopyThrows(c)
  {
    DestroyRange(lh.Data(), 0, lh.size_);
    lh.SetSize(0);
    if lh.Capacity() < |src| {
      c := AssignCopyGrowing(lh, src);
    } else {
      c := AssignCopyFitting(lh, src);
    }
  }

  // --------------------------------------------------------------------- swap

  /** std::swap_ranges over the first `n` objects of both buffers. */
  method SwapRanges<T>(a: array<Slot<T>>, b: array<Slot<T>>, n: nat, e: Element) returns (c: Completion)
    requires a != b && n <= a.Length && n <= b.Length && BuiltRange(a, 0, n) && BuiltRange(b, 0, n)
    modifies a, b, e
    ensures e.throws == old(e.throws) + Thrown(c)
    ensures BuiltRange(a, 0, n) && BuiltRange(b, 0, n)
    ensures forall i :: n <= i < a.Length ==> a[i] == old(a[i])
    ensures forall i :: n <= i < b.Length ==> b[i] == old(b[i])
    ensures c == Done ==> forall i :: 0 <= i < n ==> a[i] == old(b[i]) && b[i] == old(a[i])
    ensures c != Done ==> c == Threw && !(e.traits.nothrowMove && e.traits.nothrowMoveAssign)
  {
    var k := 0;
    while k < n
      invariant k <= n && BuiltRange(a, 0, n) && BuiltRange(b, 0, n)
      invariant e.throws == old(e.throws)
      invariant forall i :: 0 <= i < k ==> a[i] == old(b[i]) && b[i] == old(a[i])
      invariant forall i :: k <= i < a.Length ==> a[i] == old(a[i])
      invariant forall i :: k <= i < b.Length ==> b[i] == old(b[i])
    {
      var threw := e.Attempt(e.traits.nothrowMove && e.traits.nothrowMoveAssign);
      if threw { return Threw; }
      a[k], b[k] := b[k], a[k];
      k := k + 1;
    }
    return Done;
  }

  /** uninitialized_uneven_range_swap, the shorter range first. */
  method UnevenSwap<T>(a: array<Slot<T>>, n: nat, b: array<Slot<T>>, m: nat, e: Element) returns (c: Completion)
    requires a != b && n <= m <= b.Length == a.Length
    requires BuiltRange(a, 0, n) && RawRange(a, n, a.Length)
    requires BuiltRange(b, 0, m) && RawRange(b, m, b.Length)
    modifies a, b, e
    ensures e.throws == old(e.throws) + Thrown(c)
    ensures c == Done ==> a[..m] == old(b[..m]) && RawRange(a, m, a.Length)
    ensures c == Done ==> b[..n] == old(a[..n]) && RawRange(b, n, b.Length)
    ensures c == Threw ==>
      BuiltRange(a, 0, n) && RawRange(a, n, a.Length) && BuiltRange(b, 0, m) && RawRange(b, m, b.Length)
    ensures c != Done ==> (c == Threw || c == Terminated) && e.traits.SwapThrows()
  {
    c := SwapRanges(a, b, n, e);
    if c == Done {
      ghost var moved;
      c, moved := RelocateOrCopyN(b, n, m - n, a, n, e);
    }
    if c == Threw && e.traits.nothrowMove { c := Terminated; }
  }

  /** Both buffered: the shorter range is the first argument of the swap. */
  method SwapBuffered<T>(a: Storage<T>, b: Storage<T>) returns (c: Completion)
    requires a.Valid() && b.Valid() && Apart(a, b) && a.active == Buffered && b.active == Buffered
    modifies a`size_, b`size_, a.buffered, b.buffered, a.element
    ensures a.element.throws == old(a.element.throws) + Thrown(c)
    ensures c != Terminated ==> a.Valid() && b.Valid()
    ensures c == Done ==> a.Slots() == old(b.Slots()) && b.Slots() == old(a.Slots())
    ensures c != Done ==> (c == Threw || c == Terminated) && a.traits.SwapThrows()
  {
    if a.size_ > b.size_ {
      c := UnevenSwap(b.buffered, b.size_, a.buffered, a.size_, a.element);
    } else {
      c := UnevenSwap(a.buffered, a.size_, b.buffered, b.size_, a.element);
    }
    if c == Done { a.size_, b.size_ := b.size_, a.size_; }
  }

  /** Writes the block pointer where the buffered elements are, without destroying them. */
  method Overwrite<T>(a: Storage<T>, block: array<Slot<T>>)
    requires a.active == Buffered
    modifies a`dynamic, a`active, a.buffered
    ensures a.active == Dynamic && a.dynamic == block && RawRange(a.buffered, 0, a.buffered.Length)
  {
    forall i | 0 <= i < a.buffered.Length { a.buffered[i] := Raw; }
    a.dynamic := block;
    a.active := Dynamic;
  }

  /**
   * Buffered `a` against dynamic `b`: the elements of `a` are copied over and the block
   * changes hands. The originals are overwritten by the block pointer without being
   * destroyed: `lost` of them. A copy that throws loses the block itself.
   */
  method SwapMixed<T>(a: Storage<T>, b: Storage<T>) returns (c: Completion, ghost lost: nat)
    requires a.Valid() && b.Valid() && Apart(a, b) && a.active == Buffered && b.active == Dynamic
    modifies a, b, a.buffered, b.buffered, a.element
    ensures a.element.throws == old(a.element.throws) + Thrown(c)
    ensures c == Done ==> a.Valid() && b.Valid() && Apart(a, b)
    ensures c == Done ==> a.Slots() == old(b.Slots()) && b.Slots() == old(a.Slots())
    ensures c == Done ==> a.Owned() == old(b.Owned()) && b.Owned() == {}
    ensures c == Done ==> lost == |old(a.Slots())|
    ensures c == Threw ==> a.Owned() == b.Owned() == {} && a.Valid()
    ensures c != Done ==> a.traits.CopyThrows(c)
  {
    var dyn := b.dynamic;
    b.dynamic := null;
    b.active := Buffered;
    lost := 0;
    ghost var built;
    c, built := CopyConstructN(a.buffered[..a.size_], b.buffered, 0, a.element);
    if c == Done {
      lost := a.size_;
      Overwrite(a, dyn);
      a.size_, b.size_ := b.size_, a.size_;
    }
  }

  /** swap in its four combinations. */
  method Swap<T>(a: Storage<T>, b: Storage<T>) returns (c: Completion, ghost lost: nat)
    requires a.Valid() && b.Valid() && Apart(a, b)
    modifies a, b, a.buffered, b.buffered, a.element
    ensures a.element.throws == old(a.element.throws) + Thrown(c)
    ensures c == Done ==> a.Valid() && b.Valid() && Apart(a, b)
    ensures c == Done ==> a.Slots() == old(b.Slots()) && b.Slots() == old(a.Slots())
    ensures c == Done ==> a.Owned() == old(b.Owned()) && b.Owned() == old(a.Owned())
    ensures c == Done ==>
      lost == if old(a.active) == old(b.active) then 0
              else if old(a.active) == Buffered then |old(a.Slots())| else |old(b.Slots())|
    ensures c == Threw && old(a.active) == old(b.active) ==> a.Valid() && b.Valid() && Apart(a, b)
    ensures c == Threw && old(a.active) == old(b.active) ==> a.Owned() == b.Owned() == {} == old(a.Owned())
    ensures c == Threw && old(a.active) != old(b.active) ==> a.Owned() == b.Owned() == {}
    ensures c == Threw || c == Terminated ==> a.traits.SwapThrows()
    ensures c != OutOfStorage
  {
    c, lost := Done, 0;
    if a.active == Buffered {
      if b.active == Buffered {
        c := SwapBuffered(a, b);
      } else {
        c, lost := SwapMixed(a, b);
      }
    } else {
      if b.active == Buffered {
        c, lost := SwapMixed(b, a);
      } else {
        a.dynamic, b.dynamic := b.dynamic, a.dynamic;
        a.size_, b.size_ := b.size_, a.size_;
      }
    }
    if c == Threw && a.traits.nothrowCopyAssign { c := Terminated; }
  }
}

/** Whole runs of vector operations. */
module VectorRuns {
  import opened Sequences
  import opened Slots
  import opened GrowthPolicy
  import opened VectorStorage
  import opened VectorFunc
  import opened VectorResize

  datatype Op<T> =
    | EmplaceBackOp(x: T)
    | EmplaceOp(p: nat, x: T)
    | InsertOp(p: nat, src: seq<T>)
    | EraseOp(p: nat)
    | EraseRangeOp(first: nat, last: nat)
    | EraseAtEndOp(p: nat)
    | PopBackOp
    | ClearOp
    | ResizeOp(n: nat, fill: T)
    | ReserveOp(n: nat)
    | ShrinkOp

  function Lives<T>(s: seq<T>): (r: seq<Slot<T>>)
    ensures |r| == |s| && forall i :: 0 <= i < |s| ==> r[i] == Live(s[i])
  {
    seq(|s|, i requires 0 <= i < |s| => Live(s[i]))
  }

  /** What a caller may ask of a vector of `size` elements. */
  predicate CanCall<T>(op: Op<T>, size: nat, maxSize: nat) {
    match op
    case EmplaceBackOp(_) => true
    case EmplaceOp(p, _) => p <= size
    case InsertOp(p, src) => p <= size && |src| <= maxSize
    case EraseOp(p) => p <= size
    case EraseRangeOp(first, last) => first <= last <= size
    case EraseAtEndOp(_) => true
    case PopBackOp => size > 0
    case ClearOp => true
    case ResizeOp(n, _) => n <= maxSize
    case ReserveOp(n) => n <= maxSize
    case ShrinkOp => true
  }

  /** What an operation that succeeds does to the elements. */
  function Apply<T>(op: Op<T>, s: seq<Slot<T>>, maxSize: nat): seq<Slot<T>>
    requires CanCall(op, |s|, maxSize)
  {
    match op
    case EmplaceBackOp(x) => s + [Live(x)]
    case EmplaceOp(p, x) => Inserted(s, p, [Live(x)])
    case InsertOp(p, src) => Inserted(s, p, Lives(src))
    case EraseOp(p) => if p < |s| then Erased(s, p, p + 1) else s
    case EraseRangeOp(first, last) => Erased(s, first, last)
    case EraseAtEndOp(p) => s[..if p < |s| then p else |s|]
    case PopBackOp => s[..|s| - 1]
    case ClearOp => []
    case ResizeOp(n, fill) => if n <= |s| then s[..n] else s + Repeat(Live(fill), n - |s|)
    case ReserveOp(_) => s
    case ShrinkOp => s
  }

  /** What an insert puts in an erase of that range takes out again, and the insert put it there. */
  lemma {:induction false} InsertUndone<T>(s: seq<Slot<T>>, p: nat, src: seq<T>, maxSize: nat)
    requires p <= |s| && |src| <= maxSize
    ensures var t := Apply(InsertOp(p, src), s, maxSize);
            && |t| == |s| + |src| && t[p..p + |src|] == Lives(src)
            && Apply(EraseRangeOp(p, p + |src|), t, maxSize) == s
  {
    var t := Apply(InsertOp(p, src), s, maxSize);
    assert t == s[..p] + Lives(src) + s[p..];
    assert Apply(EraseRangeOp(p, p + |src|), t, maxSize) == s[..p] + s[p..];
  }

  /** Erasing a range and inserting what it held restores the vector. */
  lemma {:induction false} EraseUndone<T>(s: seq<T>, first: nat, last: nat, maxSize: nat)
    requires first <= last <= |s| && last - first <= maxSize
    ensures Apply(InsertOp(first, s[first..last]), Apply(EraseRangeOp(first, last), Lives(s), maxSize), maxSize)
            == Lives(s)
  {
    var erased := Apply(EraseRangeOp(first, last), Lives(s), maxSize);
    assert erased == Lives(s)[..first] + Lives(s)[last..];
    var back: seq<Slot<T>> := Inserted(erased, first, Lives(s[first..last]));
    assert forall i :: 0 <= i < |s| ==> back[i] == Lives(s)[i];
  }

  /** The other operations that add, in terms of insert. */
  lemma {:induction false} AddingIsInsert<T>(s: seq<Slot<T>>, p: nat, x: T, n: nat, maxSize: nat)
    requires 1 <= maxSize && p <= |s|
    ensures Apply(EmplaceBackOp(x), s, maxSize) == Apply(InsertOp(|s|, [x]), s, maxSize)
    ensures Apply(EmplaceOp(p, x), s, maxSize) == Apply(InsertOp(p, [x]), s, maxSize)
    ensures n <= maxSize ==> Apply(ReserveOp(n), s, maxSize) == s
    ensures |s| < n <= maxSize ==>
      Apply(ResizeOp(n, x), s, maxSize) == Apply(InsertOp(|s|, Repeat(x, n - |s|)), s, maxSize)
  {
    assert Lives([x]) == [Live(x)];
    if |s| < n <= maxSize { assert Lives(Repeat(x, n - |s|)) == Repeat(Live(x), n - |s|); }
  }

  /** Those that take away, in terms of erase of a range. */
  lemma {:induction false} RemovingIsErase<T>(s: seq<Slot<T>>, p: nat, x: T, maxSize: nat)
    requires p <= |s|
    ensures p < |s| ==> Apply(EraseOp(p), s, maxSize) == Apply(EraseRangeOp(p, p + 1), s, maxSize)
    ensures Apply(EraseOp(|s|), s, maxSize) == s == Apply(ShrinkOp, s, maxSize)
    ensures Apply(EraseAtEndOp(p), s, maxSize) == Apply(EraseRangeOp(p, |s|), s, maxSize)
    ensures forall q :: q >= |s| ==> Apply(EraseAtEndOp(q), s, maxSize) == s
    ensures s != [] ==> Apply(PopBackOp, s, maxSize) == Apply(EraseRangeOp(|s| - 1, |s|), s, maxSize)
    ensures Apply(ClearOp, s, maxSize) == Apply(EraseRangeOp(0, |s|), s, maxSize)
    ensures p <= maxSize ==> Apply(ResizeOp(p, x), s, maxSize) == Apply(EraseRangeOp(p, |s|), s, maxSize)
  {
    assert Erased(s, p, |s|) == s[..p] && Erased(s, 0, |s|) == [];
    if s != [] { assert Erased(s, |s| - 1, |s|) == s[..|s| - 1]; }
  }

  /** For which element types an operation can end in an exception, or in the end of the program. */
  predicate Throws<T>(op: Op<T>, tr: Traits, ctor: bool, c: Completion) {
    match op
    case EmplaceBackOp(_) => tr.AppendThrows(ctor, c)
    case EmplaceOp(_, _) => tr.EmplaceThrows(ctor, c)
    case InsertOp(_, _) => tr.InsertThrows(c)
    case EraseOp(_) => c == Threw && !tr.nothrowMoveAssign
    case EraseRangeOp(_, _) => c == Threw && !tr.nothrowMoveAssign
    case EraseAtEndOp(_) => false
    case PopBackOp => false
    case ClearOp => false
    case ResizeOp(_, _) => tr.ResizeThrows(c)
    case ReserveOp(_) => tr.MayThrow(c)
    case ShrinkOp => tr.MayThrow(c)
  }

  /**
   * The same in terms of what the type promises: an operation copies elements to a new place
   * if they can neither be relocated nor moved without a throw, a throwing copy ends the
   * program if the default constructor is nothrow, and noexcept adds the rest.
   */
  lemma {:induction false} ThrowsByTraits<T>(op: Op<T>, tr: Traits, ctor: bool)
    ensures var copies := !tr.triviallyRelocatable && !tr.nothrowMove && !tr.nothrowCopy;
            var threw, ended := Throws(op, tr, ctor, Threw), Throws(op, tr, ctor, Terminated);
            match op
            case EmplaceBackOp(_) =>
              (threw <==> !ctor || (copies && !tr.nothrowDefault)) && (ended <==> copies && tr.nothrowDefault)
            case EmplaceOp(_, _) =>
              && (threw <==> !ctor || (!tr.nothrowMove &&
                                         (!tr.nothrowMoveAssign || (!tr.nothrowCopy && !tr.nothrowDefault))))
              && (ended <==> if tr.nothrowMove then ctor && !tr.nothrowMoveAssign
                             else !tr.nothrowCopy && tr.nothrowDefault)
            case InsertOp(_, _) =>
              && (threw <==> !tr.nothrowMove)
              && (ended <==>
                    || (tr.nothrowDefault && !tr.nothrowCopy)
                    || (tr.nothrowMove && !(tr.nothrowCopy && tr.nothrowMoveAssign && tr.nothrowCopyAssign)))
            case EraseOp(_) => (threw <==> !tr.nothrowMoveAssign) && !ended
            case EraseRangeOp(_, _) => (threw <==> !tr.nothrowMoveAssign) && !ended
            case ResizeOp(_, _) => (threw <==> !tr.nothrowDefault) && (ended <==> copies && tr.nothrowDefault)
            case ReserveOp(_) => (threw <==> copies && !tr.nothrowDefault) && (ended <==> copies && tr.nothrowDefault)
            case ShrinkOp => (threw <==> copies && !tr.nothrowDefault) && (ended <==> copies && tr.nothrowDefault)
            case _ => !threw && !ended
  {
  }

  /** The operations that change nothing when they throw. */
  predicate Strong<T>(op: Op<T>, size: nat) {
    match op
    case EmplaceOp(p, _) => p == size
    case InsertOp(p, _) => p == size
    case EraseOp(_) => false
    case EraseRangeOp(_, _) => false
    case _ => true
  }

  /** Which those are. */
  lemma {:induction false} StrongOperations<T>(op: Op<T>, size: nat)
    ensures op.EmplaceBackOp? || op.ResizeOp? || op.ReserveOp? || op.ShrinkOp? ==> Strong(op, size)
    ensures op.EmplaceOp? || op.InsertOp? ==> (Strong(op, size) <==> op.p == size)
    ensures op.EraseOp? || op.EraseRangeOp? ==> !Strong(op, size)
  {
  }

  /** Operations that only add, in one dispatch. */
  method PerformGrowing<T>(vec: Storage<T>, op: Op<T>, nothrowCtor: bool) returns (c: Completion)
    requires vec.Valid() && vec.reallocates && CanCall(op, vec.size_, vec.MaxSize())
    requires op.EmplaceBackOp? || op.EmplaceOp? || op.InsertOp?
    modifies vec, vec.buffered, vec.dynamic, vec.heap, vec.element
    ensures vec.element.throws == old(vec.element.throws) + Thrown(c)
    ensures c != Terminated ==> vec.Valid() && vec.BlocksAccounted()
    ensures c == Done ==> vec.Slots() == Apply(op, old(vec.Slots()), vec.MaxSize())
    ensures c == OutOfStorage || (c == Threw && Strong(op, old(vec.size_))) ==> vec.Kept()
    ensures c == Threw || c == Terminated ==> Throws(op, vec.traits, nothrowCtor, c)
  {
    match op
    case EmplaceBackOp(x) => ghost var moved; c, moved := EmplaceBack(vec, x, nothrowCtor);
    case EmplaceOp(p, x) => c := Emplace(vec, p, x, nothrowCtor);
    case InsertOp(p, src) => c := Insert(vec, p, Lives(src));
  }

  method PerformErasing<T>(vec: Storage<T>, op: Op<T>) returns (c: Completion)
    requires vec.Valid() && CanCall(op, vec.size_, vec.MaxSize())
    requires op.EraseOp? || op.EraseRangeOp? || op.EraseAtEndOp? || op.PopBackOp? || op.ClearOp?
    modifies vec`size_, vec.Data(), vec.element
    ensures vec.element.throws == old(vec.element.throws) + Thrown(c)
    ensures vec.Valid()
    ensures c == Done ==> vec.Slots() == Apply(op, old(vec.Slots()), vec.MaxSize())
    ensures c != Done ==> c == Threw && !Strong(op, old(vec.size_)) && forall ctor :: Throws(op, vec.traits, ctor, c)
  {
    c := Done;
    match op
    case EraseOp(p) => c := Erase(vec, p);
    case EraseRangeOp(first, last) => c := EraseRange(vec, first, last);
    case EraseAtEndOp(p) => EraseAtEnd(vec, p);
    case PopBackOp => PopBack(vec);
    case ClearOp => Clear(vec);
  }

  method PerformSizing<T>(vec: Storage<T>, op: Op<T>) returns (c: Completion)
    requires vec.Valid() && vec.reallocates && CanCall(op, vec.size_, vec.MaxSize())
    requires op.ResizeOp? || op.ReserveOp? || op.ShrinkOp?
    modifies vec, vec.buffered, vec.dynamic, vec.heap, vec.element
    ensures vec.element.throws == old(vec.element.throws) + Thrown(c)
    ensures c != Terminated ==> vec.Valid() && vec.BlocksAccounted()
    ensures c == Done ==> vec.Slots() == Apply(op, old(vec.Slots()), vec.MaxSize())
    ensures c == OutOfStorage || c == Threw ==> vec.Kept()
    ensures c == Threw || c == Terminated ==> forall ctor :: Throws(op, vec.traits, ctor, c)
  {
    match op
    case ResizeOp(n, fill) => c := Resize(vec, n, fill);
    case ReserveOp(n) => c := Reserve(vec, n);
    case ShrinkOp => c := ShrinkToFit(vec);
  }

  method Perform<T>(vec: Storage<T>, op: Op<T>, nothrowCtor: bool) returns (c: Completion)
    requires vec.Valid() && vec.reallocates && CanCall(op, vec.size_, vec.MaxSize())
    modifies vec, vec.buffered, vec.dynamic, vec.heap, vec.element
    ensures vec.element.throws == old(vec.element.throws) + Thrown(c)
    ensures c != Terminated ==> vec.Valid() && vec.BlocksAccounted()
    ensures c == Done ==> vec.Slots() == Apply(op, old(vec.Slots()), vec.MaxSize())
    ensures c == OutOfStorage || (c == Threw && Strong(op, old(vec.size_))) ==> vec.Kept()
    ensures c == OutOfStorage || (c == Threw && Strong(op, old(vec.size_))) ==>
      && vec.size_ == old(vec.size_) && vec.Slots() == old(vec.Slots())
      && vec.active == old(vec.active) && vec.dynamic == old(vec.dynamic)
    ensures c == Threw || c == Terminated ==> Throws(op, vec.traits, nothrowCtor, c)
  {
    if op.EmplaceBackOp? || op.EmplaceOp? || op.InsertOp? {
      c := PerformGrowing(vec, op, nothrowCtor);
    } else if op.ResizeOp? || op.ReserveOp? || op.ShrinkOp? {
      c := PerformSizing(vec, op);
    } else {
      c := PerformErasing(vec, op);
    }
  }

  // ---------------------------------------------------------------- whole runs

  /** The elements left by the operations that succeeded; the others change nothing. */
  function Replay<T>(start: seq<Slot<T>>, ops: seq<Op<T>>, cs: seq<Completion>, maxSize: nat): seq<Slot<T>>
    requires |cs| <= |ops|
    decreases |cs|
  {
    if cs == [] then start
    else
      var k := |cs| - 1;
      var before := Replay(start, ops, cs[..k], maxSize);
      if cs[k] == Done && CanCall(ops[k], |before|, maxSize) then Apply(ops[k], before, maxSize) else before
  }

  /** Every operation of the run that threw was one that changes nothing then. */
  predicate Predictable<T>(start: seq<Slot<T>>, ops: seq<Op<T>>, cs: seq<Completion>, maxSize: nat)
    requires |cs| <= |ops|
    decreases |cs|
  {
    cs == [] ||
    (var k := |cs| - 1;
     && Predictable(start, ops, cs[..k], maxSize)
     && (cs[k] == Threw ==> Strong(ops[k], |Replay(start, ops, cs[..k], maxSize)|)))
  }

  lemma {:induction false} ReplayGrows<T>(start: seq<Slot<T>>, ops: seq<Op<T>>, cs: seq<Completion>, c: Completion,
                                          maxSize: nat)
    requires |cs| < |ops|
    ensures var before := Replay(start, ops, cs, maxSize);
            && Replay(start, ops, cs + [c], maxSize)
                == (if c == Done && CanCall(ops[|cs|], |before|, maxSize) then Apply(ops[|cs|], before, maxSize)
                    else before)
            && (Predictable(start, ops, cs + [c], maxSize)
                <==> Predictable(start, ops, cs, maxSize) && (c == Threw ==> Strong(ops[|cs|], |before|)))
  {
    assert (cs + [c])[..|cs|] == cs;
  }

  /** A run without a throw is predictable. */
  lemma {:induction false} NoThrowPredictable<T>(start: seq<Slot<T>>, ops: seq<Op<T>>, cs: seq<Completion>,
                                                 maxSize: nat)
    requires |cs| <= |ops| && Threw !in cs
    ensures Predictable(start, ops, cs, maxSize)
  {
    if cs != [] { NoThrowPredictable(start, ops, cs[..|cs| - 1], maxSize); }
  }

  /** The outcomes are such as the operations and the element type allow. */
  ghost predicate Explained<T>(ops: seq<Op<T>>, cs: seq<Completion>, tr: Traits, ctor: bool)
    requires |cs| <= |ops|
  {
    forall k :: 0 <= k < |cs| && (cs[k] == Threw || cs[k] == Terminated) ==> Throws(ops[k], tr, ctor, cs[k])
  }

  /** The element types for which some operation of a vector can end the program. */
  predicate CanEndProgram(tr: Traits) {
    || (tr.nothrowDefault && !tr.nothrowCopy)
    || (tr.nothrowMove && !(tr.nothrowCopy && tr.nothrowMoveAssign && tr.nothrowCopyAssign))
  }

  /** They are exactly the types for which one of the operations can. */
  lemma {:induction false} CanEndExactly<T(!new)>(tr: Traits)
    ensures CanEndProgram(tr) <==> exists op: Op<T>, ctor :: Throws(op, tr, ctor, Terminated)
  {
    var op: Op<T> := InsertOp(0, []);
    assert CanEndProgram(tr) ==> Throws(op, tr, true, Terminated);
  }

  /** For all other types no operation does, whatever throws. */
  lemma {:induction false} NeverEnds<T>(ops: seq<Op<T>>, cs: seq<Completion>, tr: Traits, ctor: bool)
    requires |cs| <= |ops| && Explained(ops, cs, tr, ctor)
    ensures !CanEndProgram(tr) ==> Terminated !in cs
    ensures Terminated in cs ==>
      || (tr.nothrowDefault && !tr.nothrowCopy)
      || (tr.nothrowMove && !(tr.nothrowCopy && tr.nothrowMoveAssign && tr.nothrowCopyAssign))
    ensures ctor && tr.AllNothrow() ==> Terminated !in cs && Threw !in cs
  {
    if c :| c in cs && (c == Terminated || c == Threw) {
      var k :| 0 <= k < |cs| && cs[k] == c;
      assert Throws(ops[k], tr, ctor, c);
    }
  }

  lemma {:induction false} ExplainedGrows<T>(ops: seq<Op<T>>, cs: seq<Completion>, c: Completion, tr: Traits,
                                             ctor: bool)
    requires |cs| < |ops| && Explained(ops, cs, tr, ctor)
    requires c == Threw || c == Terminated ==> Throws(ops[|cs|], tr, ctor, c)
    ensures Explained(ops, cs + [c], tr, ctor)
  {
  }

  /** A run so far: the elements are those of the replay. */
  ghost predicate OnTrack<T>(vec: Storage<T>, start: seq<Slot<T>>, ops: seq<Op<T>>, cs: seq<Completion>)
    requires vec.Valid() && |cs| <= |ops|
    reads vec, vec.heap, vec.buffered, vec.dynamic
  {
    Predictable(start, ops, cs, vec.MaxSize()) ==> vec.Slots() == Replay(start, ops, cs, vec.MaxSize())
  }

  /** The next operation of a run that has not ended. */
  method PerformNext<T>(vec: Storage<T>, ops: seq<Op<T>>, sofar: seq<Completion>, nothrowCtor: bool,
                        ghost start: seq<Slot<T>>)
    returns (cs: seq<Completion>, ended: bool)
    requires vec.Valid() && vec.reallocates
    requires |sofar| < |ops| && CanCall(ops[|sofar|], vec.size_, vec.MaxSize())
    requires OnTrack(vec, start, ops, sofar) && Explained(ops, sofar, vec.traits, nothrowCtor)
    modifies vec, vec.buffered, vec.dynamic, vec.heap, vec.element
    ensures |cs| == |sofar| + 1 && cs[..|sofar|] == sofar && (ended <==> cs[|sofar|] == Terminated)
    ensures vec.element.throws == old(vec.element.throws) + AllThrown(cs) - AllThrown(sofar)
    ensures !ended ==> vec.Valid() && vec.BlocksAccounted() && OnTrack(vec, start, ops, cs)
    ensures Explained(ops, cs, vec.traits, nothrowCtor)
  {
    var c := Perform(vec, ops[|sofar|], nothrowCtor);
    ReplayGrows(start, ops, sofar, c, vec.MaxSize());
    ExplainedGrows(ops, sofar, c, vec.traits, nothrowCtor);
    OneMoreThrown(sofar, c);
    cs, ended := sofar + [c], c == Terminated;
  }

  /**
   * A run of operations, up to the first that the caller may not make or that ends the
   * program; which types can end it, and how, is settled. Whatever throws on the way, the
   * vector stays in order and accounts for its blocks; as long as only operations with the
   * strong guarantee threw, its elements are those of the replayed sequence.
   */
  method Run<T>(vec: Storage<T>, ops: seq<Op<T>>, nothrowCtor: bool) returns (cs: seq<Completion>)
    requires vec.Valid() && vec.reallocates
    modifies vec, vec.buffered, vec.dynamic, vec.heap, vec.element
    ensures vec.element.throws == old(vec.element.throws) + AllThrown(cs)
    ensures |cs| <= |ops|
    ensures |cs| == |ops| || Terminated in cs || !CanCall(ops[|cs|], vec.size_, vec.MaxSize())
    ensures Terminated !in cs ==> vec.Valid() && vec.BlocksAccounted()
    ensures Terminated !in cs && Predictable(old(vec.Slots()), ops, cs, vec.MaxSize()) ==>
      vec.Slots() == Replay(old(vec.Slots()), ops, cs, vec.MaxSize())
    ensures Explained(ops, cs, vec.traits, nothrowCtor)
    ensures !CanEndProgram(vec.traits) ==> Terminated !in cs
    ensures !vec.traits.nothrowDefault && !vec.traits.nothrowMove ==> Terminated !in cs
    ensures nothrowCtor && vec.traits.AllNothrow() ==> Terminated !in cs && Threw !in cs
  {
    cs := [];
    ghost var start := vec.Slots();
    var ended := false;
    while !ended && |cs| < |ops| && CanCall(ops[|cs|], vec.size_, vec.MaxSize())
      invariant |cs| <= |ops| && (ended <==> Terminated in cs)
      invariant !ended ==> vec.Valid() && vec.BlocksAccounted() && OnTrack(vec, start, ops, cs)
      invariant Explained(ops, cs, vec.traits, nothrowCtor)
      invariant vec.element.throws == old(vec.element.throws) + AllThrown(cs)
      decreases |ops| - |cs|
    {
      ghost var sofar := cs;
      cs, ended := PerformNext(vec, ops, cs, nothrowCtor, start);
      assert cs == sofar + [cs[|sofar|]];
    }
    NeverEnds(ops, cs, vec.traits, nothrowCtor);
  }

  /**
   * From construction to destruction no block is leaked and none is freed twice, for every
   * element type that cannot end the program, and for the others unless it does.
   */
  method WholeLife<T>(traits: Traits, bits: nat, capacity: nat, ops: seq<Op<T>>, nothrowCtor: bool)
    returns (heap: Heap<T>, cs: seq<Completion>)
    requires bits == 8 || bits == 16 || bits == 32
    requires 0 < capacity <= MaxOf(bits)
    ensures Terminated !in cs ==> heap.live == {}
    ensures |cs| <= |ops| && Explained(ops, cs, traits, nothrowCtor)
    ensures !CanEndProgram(traits) ==> Terminated !in cs
  {
    heap := new Heap(false);
    var element := new Element(traits);
    var vec := new Storage(heap, element, bits, true, capacity);
    cs := Run(vec, ops, nothrowCtor);
    if Terminated !in cs { vec.Destroy(); }
  }

  // ------------------------------------------------------------- amortised appends

  /** One append and the elements it relocated, counted where they are moved or copied. */
  method AppendCounted<T>(vec: Storage<T>, x: T, nothrowCtor: bool, ghost before: Appended)
    returns (c: Completion, ghost moved: nat, ghost after: Appended)
    requires vec.Valid() && vec.reallocates
    requires before.size == vec.size_ && before.capacity == vec.Capacity() && Amortised(before, vec.bits)
    modifies vec, vec.Data(), vec.heap, vec.element
    ensures vec.element.throws == old(vec.element.throws) + Thrown(c)
    ensures c != Terminated ==> vec.Valid() && vec.BlocksAccounted()
    ensures c == Done ==> vec.Slots() == old(vec.Slots()) + [Live(x)]
    ensures c == Done ==> after == Appended(vec.size_, vec.Capacity(), before.relocated + moved)
    ensures c == Done ==> Amortised(after, vec.bits)
    ensures before.relocated + moved <= 3 * (before.size + 1)
    ensures c == OutOfStorage ==> old(vec.size_) == vec.MaxSize() || vec.Refused()
    ensures c == Threw || c == Terminated ==> vec.traits.AppendThrows(nothrowCtor, c)
  {
    if before.size == before.capacity < MaxOf(vec.bits) { AppendGrownAmortised(before, vec.bits); }
    c, moved := EmplaceBack(vec, x, nothrowCtor);
    after := if c == Done then Appended(vec.size_, vec.Capacity(), before.relocated + moved) else before;
  }

  /**
   * Appends one element after the other to an empty vector: never more than three
   * relocations for each append, one that fails half way included.
   */
  method AppendAll<T>(vec: Storage<T>, xs: seq<T>, nothrowCtor: bool) returns (c: Completion, ghost relocated: nat)
    requires vec.Valid() && vec.reallocates && vec.size_ == 0
    modifies vec, vec.buffered, vec.dynamic, vec.heap, vec.element
    ensures vec.element.throws == old(vec.element.throws) + Thrown(c)
    ensures c == Done ==> vec.Valid() && vec.Slots() == Lives(xs)
    ensures relocated <= 3 * |xs|
    ensures c == OutOfStorage ==> |xs| > vec.MaxSize() || vec.heap.refusals > old(vec.heap.refusals)
    ensures c == Threw || c == Terminated ==> vec.traits.AppendThrows(nothrowCtor, c)
  {
    var k := 0;
    c, relocated := Done, 0;
    ghost var a := Appended(0, vec.Capacity(), 0);
    while k < |xs|
      invariant k <= |xs| && c == Done && vec.Valid() && vec.BlocksAccounted()
      invariant vec.Slots() == Lives(xs[..k]) && vec.element.throws == old(vec.element.throws)
      invariant a == Appended(vec.size_, vec.Capacity(), relocated) && Amortised(a, vec.bits)
    {
      ghost var moved;
      c, moved, a := AppendCounted(vec, xs[k], nothrowCtor, a);
      relocated := relocated + moved;
      if c != Done { return; }
      assert Lives(xs[..k + 1]) == Lives(xs[..k]) + [Live(xs[k])];
      k := k + 1;
    }
    assert xs[..k] == xs;
  }
}

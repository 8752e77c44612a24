/**
 * Element slots and the loops over partly uninitialised memory of
 * include/small_vectors/detail/uninitialized_constexpr.h.
 */
module Slots {

  /** One element's worth of memory: no object, an object that was moved from, or a value. */
  datatype Slot<+T> = Raw | MovedFrom | Live(value: T)

  /** What the element type promises. */
  datatype Traits = Traits(
    nothrowDefault: bool,
    nothrowCopy: bool,
    nothrowMove: bool,
    nothrowMoveAssign: bool,
    nothrowCopyAssign: bool,
    triviallyRelocatable: bool)
  {
    /** Relocation that cannot throw. */
    predicate NothrowRelocate() {
      triviallyRelocatable || nothrowMove
    }

    /** No constructor or assignment can throw. */
    predicate AllNothrow() {
      nothrowDefault && nothrowCopy && nothrowMove && nothrowMoveAssign && nothrowCopyAssign
    }

    /** How a throwing copy ends. */
    predicate CopyThrows(c: Completion) {
      !nothrowCopy && c == (if nothrowDefault then Terminated else Threw)
    }

    /** How a throwing copy ends, when elements have to be copied to a new place. */
    predicate MayThrow(c: Completion) {
      !NothrowRelocate() && CopyThrows(c)
    }

    /** How assign_move ends otherwise than well: it copies unless assigning by move is nothrow. */
    predicate AssignMoveThrows(c: Completion) {
      !triviallyRelocatable && !nothrowMoveAssign && CopyThrows(c)
    }

    /** How insert ends otherwise than well: it is noexcept for every nothrow-movable type. */
    predicate InsertThrows(c: Completion) {
      match c
      case Threw => !nothrowMove
      case Terminated =>
        || (nothrowDefault && !nothrowCopy)
        || (nothrowMove && !(nothrowCopy && nothrowMoveAssign && nothrowCopyAssign))
      case _ => false
    }

    /** How emplace ends otherwise than well; `ctor` says that its constructor is nothrow. */
    predicate EmplaceThrows(ctor: bool, c: Completion) {
      match c
      case Threw => !ctor || (!nothrowMove && (!nothrowMoveAssign || CopyThrows(Threw)))
      case Terminated => if nothrowMove then ctor && !nothrowMoveAssign else CopyThrows(Terminated)
      case _ => false
    }

    /** How emplace_back ends otherwise than well. */
    predicate AppendThrows(ctor: bool, c: Completion) {
      (c == Threw && !ctor) || MayThrow(c)
    }

    /** How resize ends otherwise than well. */
    predicate ResizeThrows(c: Completion) {
      (c == Threw && !nothrowDefault) || (c == Terminated && MayThrow(Terminated))
    }

    /** How swap of the storages ends otherwise than well, before its own noexcept is considered. */
    predicate SwapThrows() {
      !(nothrowMove && nothrowMoveAssign && nothrowCopy)
    }
  }

  /**
   * How an operation ends: vector_outcome_e, or an exception of the element type. An
   * exception that leaves a noexcept function ends the program.
   */
  datatype Completion = Done | OutOfStorage | Threw | Terminated

  /** The element type at work: its constructors and assignments, and how often one has thrown. */
  class Element {
    const traits: Traits
    ghost var throws: nat

    constructor (traits: Traits)
      ensures this.traits == traits && throws == 0
    {
      this.traits := traits;
      throws := 0;
    }

    /** A constructor or an assignment runs; only one that is not nothrow can throw. */
    method Attempt(nothrow: bool) returns (threw: bool)
      modifies this
      ensures nothrow ==> !threw
      ensures throws == old(throws) + (if threw then 1 else 0)
    {
      threw := false;
      if !nothrow { threw := *; }
      if threw { throws := throws + 1; }
    }
  }

  /** The throws behind an outcome: one for an exception or the end of the program, else none. */
  function Thrown(c: Completion): nat {
    if c == Threw || c == Terminated then 1 else 0
  }

  /** The throws behind the outcomes of a run. */
  function AllThrown(cs: seq<Completion>): nat {
    if cs == [] then 0 else AllThrown(cs[..|cs| - 1]) + Thrown(cs[|cs| - 1])
  }

  lemma {:induction false} OneMoreThrown(cs: seq<Completion>, c: Completion)
    ensures AllThrown(cs + [c]) == AllThrown(cs) + Thrown(c)
  {
    assert (cs + [c])[..|cs|] == cs;
  }

  /** The slot is occupied by an object. */
  predicate Built<T>(s: Slot<T>) {
    !s.Raw?
  }

  ghost predicate AllBuilt<T>(s: seq<Slot<T>>) {
    forall i :: 0 <= i < |s| ==> Built(s[i])
  }

  ghost predicate BuiltRange<T>(a: array<Slot<T>>, first: nat, last: nat)
    requires last <= a.Length
    reads a
  {
    forall i :: first <= i < last ==> Built(a[i])
  }

  ghost predicate RawRange<T>(a: array<Slot<T>>, first: nat, last: nat)
    requires last <= a.Length
    reads a
  {
    forall i :: first <= i < last ==> a[i].Raw?
  }

  // ------------------------------------------------------------- single objects

  /** std::construct_at, never over an object. */
  method ConstructAt<T>(a: array<Slot<T>>, i: nat, s: Slot<T>, nothrow: bool, e: Element) returns (threw: bool)
    requires i < a.Length && a[i].Raw? && Built(s)
    modifies a, e
    ensures nothrow ==> !threw
    ensures e.throws == old(e.throws) + (if threw then 1 else 0)
    ensures forall k :: 0 <= k < a.Length ==> a[k] == if k == i && !threw then s else old(a[k])
  {
    threw := e.Attempt(nothrow);
    if !threw { a[i] := s; }
  }

  /** std::destroy over [first, last), never on raw memory. */
  method DestroyRange<T>(a: array<Slot<T>>, first: nat, last: nat)
    requires first <= last <= a.Length
    requires BuiltRange(a, first, last)
    modifies a
    ensures forall i :: 0 <= i < a.Length ==> a[i] == if first <= i < last then Raw else old(a[i])
  {
    var k := first;
    while k < last
      invariant first <= k <= last
      invariant forall i :: 0 <= i < a.Length ==> a[i] == if first <= i < k then Raw else old(a[i])
    {
      a[k] := Raw;
      k := k + 1;
    }
  }

  // ----------------------------------------------------- constructing into raw memory

  /**
   * uninitialized_copy_n. A copy that throws has the objects built so far destroyed,
   * unless the default constructor is nothrow: then the function is noexcept. `built`
   * counts the copies.
   */
  method CopyConstructN<T>(src: seq<Slot<T>>, a: array<Slot<T>>, at: nat, e: Element)
    returns (c: Completion, ghost built: nat)
    requires at + |src| <= a.Length
    requires AllBuilt(src) && RawRange(a, at, at + |src|)
    modifies a, e
    ensures e.throws == old(e.throws) + Thrown(c)
    ensures c == Done ==>
      forall i :: 0 <= i < a.Length ==> a[i] == if at <= i < at + |src| then src[i - at] else old(a[i])
    ensures c == Threw ==> forall i :: 0 <= i < a.Length ==> a[i] == old(a[i])
    ensures c != Done ==> e.traits.CopyThrows(c)
    ensures built <= |src| && (c == Done ==> built == |src|)
  {
    built := 0;
    var k := 0;
    while k < |src|
      invariant k <= |src| && built == k
      invariant e.throws == old(e.throws)
      invariant forall i :: 0 <= i < a.Length ==> a[i] == if at <= i < at + k then src[i - at] else old(a[i])
    {
      var threw := ConstructAt(a, at + k, src[k], e.traits.nothrowCopy, e);
      if threw {
        if e.traits.nothrowDefault { return Terminated, built; }
        DestroyRange(a, at, at + k);
        return Threw, built;
      }
      built := built + 1;
      k := k + 1;
    }
    return Done, built;
  }

  /** uninitialized_value_construct_n: a throw destroys what was built. */
  method ValueConstructN<T>(x: T, a: array<Slot<T>>, at: nat, count: nat, e: Element) returns (c: Completion)
    requires at + count <= a.Length && RawRange(a, at, at + count)
    modifies a, e
    ensures e.throws == old(e.throws) + Thrown(c)
    ensures c == Done ==>
      forall i :: 0 <= i < a.Length ==> a[i] == if at <= i < at + count then Live(x) else old(a[i])
    ensures c == Threw ==> forall i :: 0 <= i < a.Length ==> a[i] == old(a[i])
    ensures c != Done ==> c == Threw && !e.traits.nothrowDefault
  {
    var k := 0;
    while k < count
      invariant k <= count
      invariant e.throws == old(e.throws)
      invariant forall i :: 0 <= i < a.Length ==> a[i] == if at <= i < at + k then Live(x) else old(a[i])
    {
      var threw := ConstructAt(a, at + k, Live(x), e.traits.nothrowDefault, e);
      if threw {
        DestroyRange(a, at, at + k);
        return Threw;
      }
      k := k + 1;
    }
    return Done;
  }

  /** std::construct_at from an object that is moved from. */
  method MoveOne<T>(a: array<Slot<T>>, from: nat, to: nat, nothrow: bool, e: Element) returns (threw: bool)
    requires from < to < a.Length && Built(a[from]) && a[to].Raw?
    modifies a, e
    ensures nothrow ==> !threw
    ensures e.throws == old(e.throws) + (if threw then 1 else 0)
    ensures a[to] == if threw then Raw else old(a[from])
    ensures a[from] == if threw then old(a[from]) else MovedFrom
    ensures forall i :: 0 <= i < a.Length && i != from && i != to ==> a[i] == old(a[i])
  {
    threw := ConstructAt(a, to, a[from], nothrow, e);
    if !threw { a[from] := MovedFrom; }
  }

  /**
   * uninitialized_move_n inside one buffer. A move that throws has the objects built so far
   * destroyed, but their sources stay moved from.
   */
  method MoveConstructWithin<T>(a: array<Slot<T>>, first: nat, n: nat, to: nat, e: Element) returns (c: Completion)
    requires first + n <= to && to + n <= a.Length
    requires BuiltRange(a, first, first + n) && RawRange(a, to, to + n)
    modifies a, e
    ensures e.throws == old(e.throws) + Thrown(c)
    ensures c == Done ==>
      forall i :: 0 <= i < a.Length ==>
        a[i] == if to <= i < to + n then old(a[i - to + first])
                else if first <= i < first + n then MovedFrom else old(a[i])
    ensures c == Threw ==>
      forall i :: 0 <= i < a.Length ==> a[i] == old(a[i]) || (first <= i < first + n && a[i] == MovedFrom)
    ensures c != Done ==> c == Threw && !e.traits.nothrowMove
  {
    var k := 0;
    while k < n
      invariant k <= n
      invariant e.throws == old(e.throws)
      invariant forall i :: 0 <= i < a.Length ==>
        a[i] == if to <= i < to + k then old(a[i - to + first])
                else if first <= i < first + k then MovedFrom else old(a[i])
    {
      var threw := MoveOne(a, first + k, to + k, e.traits.nothrowMove, e);
      if threw {
        DestroyRange(a, to, to + k);
        return Threw;
      }
      k := k + 1;
    }
    return Done;
  }

  /**
   * uninitialized_relocate_n: moves objects to another buffer and leaves raw memory behind.
   * `moved` counts them.
   */
  method RelocateN<T>(b: array<Slot<T>>, first: nat, n: nat, a: array<Slot<T>>, to: nat) returns (ghost moved: nat)
    requires a != b
    requires first + n <= b.Length && to + n <= a.Length
    requires BuiltRange(b, first, first + n) && RawRange(a, to, to + n)
    modifies a, b
    ensures forall i :: 0 <= i < a.Length ==> a[i] == if to <= i < to + n then old(b[i - to + first]) else old(a[i])
    ensures forall i :: 0 <= i < b.Length ==> b[i] == if first <= i < first + n then Raw else old(b[i])
    ensures moved == n
  {
    moved := 0;
    var k := 0;
    while k < n
      invariant k <= n && moved == k
      invariant forall i :: 0 <= i < a.Length ==> a[i] == if to <= i < to + k then old(b[i - to + first]) else old(a[i])
      invariant forall i :: 0 <= i < b.Length ==> b[i] == if first <= i < first + k then MovedFrom else old(b[i])
    {
      a[to + k] := b[first + k];
      b[first + k] := MovedFrom;
      moved := moved + 1;
      k := k + 1;
    }
    DestroyRange(b, first, first + n);
  }

  /** uninitialized_relocate_with_copy_n: nothing is destroyed unless every copy succeeds. */
  method RelocateWithCopyN<T>(b: array<Slot<T>>, first: nat, n: nat, a: array<Slot<T>>, to: nat, e: Element)
    returns (c: Completion, ghost moved: nat)
    requires a != b
    requires first + n <= b.Length && to + n <= a.Length
    requires BuiltRange(b, first, first + n) && RawRange(a, to, to + n)
    modifies a, b, e
    ensures e.throws == old(e.throws) + Thrown(c)
    ensures c == Done ==>
      && (forall i :: 0 <= i < a.Length ==> a[i] == if to <= i < to + n then old(b[i - to + first]) else old(a[i]))
      && (forall i :: 0 <= i < b.Length ==> b[i] == if first <= i < first + n then Raw else old(b[i]))
    ensures c == Threw ==>
      && (forall i :: 0 <= i < a.Length ==> a[i] == old(a[i]))
      && (forall i :: 0 <= i < b.Length ==> b[i] == old(b[i]))
    ensures c != Done ==> e.traits.CopyThrows(c)
    ensures moved <= n && (c == Done ==> moved == n)
  {
    c, moved := CopyConstructN(b[first..first + n], a, to, e);
    if c == Done { DestroyRange(b, first, first + n); }
  }

  /** Moves the objects over where that cannot throw, and copies them where it could. */
  method RelocateOrCopyN<T>(b: array<Slot<T>>, first: nat, n: nat, a: array<Slot<T>>, to: nat, e: Element)
    returns (c: Completion, ghost moved: nat)
    requires a != b
    requires first + n <= b.Length && to + n <= a.Length
    requires BuiltRange(b, first, first + n) && RawRange(a, to, to + n)
    modifies a, b, e
    ensures e.throws == old(e.throws) + Thrown(c)
    ensures c == Done ==>
      && (forall i :: 0 <= i < a.Length ==> a[i] == if to <= i < to + n then old(b[i - to + first]) else old(a[i]))
      && (forall i :: 0 <= i < b.Length ==> b[i] == if first <= i < first + n then Raw else old(b[i]))
    ensures c == Threw ==>
      && (forall i :: 0 <= i < a.Length ==> a[i] == old(a[i]))
      && (forall i :: 0 <= i < b.Length ==> b[i] == old(b[i]))
    ensures c != Done ==> e.traits.MayThrow(c)
    ensures moved <= n && (c == Done ==> moved == n)
  {
    if e.traits.NothrowRelocate() {
      moved := RelocateN(b, first, n, a, to);
      c := Done;
    } else {
      c, moved := RelocateWithCopyN(b, first, n, a, to, e);
    }
  }

  // ------------------------------------------------------------ assigning to objects

  /** std::move of [first, last) towards the front. */
  method MoveAssignDown<T>(a: array<Slot<T>>, first: nat, last: nat, to: nat, e: Element) returns (c: Completion)
    requires to < first <= last <= a.Length
    requires BuiltRange(a, to, last)
    modifies a, e
    ensures e.throws == old(e.throws) + Thrown(c)
    ensures BuiltRange(a, to, last)
    ensures forall i :: 0 <= i < to || last <= i < a.Length ==> a[i] == old(a[i])
    ensures c == Done ==> forall i :: to <= i < to + (last - first) ==> a[i] == old(a[i - to + first])
    ensures c != Done ==> c == Threw && !e.traits.nothrowMoveAssign
  {
    var k := 0;
    while first + k < last
      invariant first + k <= last
      invariant e.throws == old(e.throws)
      invariant forall i :: 0 <= i < to || first + k <= i < a.Length ==> a[i] == old(a[i])
      invariant forall i :: to <= i < to + k ==> a[i] == old(a[i - to + first])
      invariant BuiltRange(a, to, last)
    {
      var threw := e.Attempt(e.traits.nothrowMoveAssign);
      if threw { return Threw; }
      a[to + k], a[first + k] := a[first + k], MovedFrom;
      k := k + 1;
    }
    return Done;
  }

  /** std::move_backward of [first, last) so that it ends at `end`. */
  method MoveAssignUp<T>(a: array<Slot<T>>, first: nat, last: nat, end: nat, e: Element) returns (c: Completion)
    requires first <= last < end <= a.Length
    requires BuiltRange(a, first, end)
    modifies a, e
    ensures e.throws == old(e.throws) + Thrown(c)
    ensures BuiltRange(a, first, end)
    ensures forall i :: 0 <= i < first || end <= i < a.Length ==> a[i] == old(a[i])
    ensures c == Done ==> forall i :: end - (last - first) <= i < end ==> a[i] == old(a[i - (end - last)])
    ensures c != Done ==> c == Threw && !e.traits.nothrowMoveAssign
  {
    var k := last;
    while first < k
      invariant first <= k <= last
      invariant e.throws == old(e.throws)
      invariant forall i :: k + (end - last) <= i < end ==> a[i] == old(a[i - (end - last)])
      invariant forall i :: 0 <= i < k || end <= i < a.Length ==> a[i] == old(a[i])
      invariant BuiltRange(a, first, end)
    {
      var threw := e.Attempt(e.traits.nothrowMoveAssign);
      if threw { return Threw; }
      k := k - 1;
      a[k + (end - last)], a[k] := a[k], MovedFrom;
    }
    return Done;
  }

  /** std::copy onto objects. */
  method CopyAssign<T>(src: seq<Slot<T>>, a: array<Slot<T>>, to: nat, e: Element) returns (c: Completion)
    requires to + |src| <= a.Length
    requires AllBuilt(src) && BuiltRange(a, to, to + |src|)
    modifies a, e
    ensures e.throws == old(e.throws) + Thrown(c)
    ensures BuiltRange(a, to, to + |src|)
    ensures forall i :: 0 <= i < to || to + |src| <= i < a.Length ==> a[i] == old(a[i])
    ensures c == Done ==> forall i :: to <= i < to + |src| ==> a[i] == src[i - to]
    ensures c != Done ==> c == Threw && !e.traits.nothrowCopyAssign
  {
    var k := 0;
    while k < |src|
      invariant k <= |src|
      invariant e.throws == old(e.throws)
      invariant forall i :: 0 <= i < a.Length ==> a[i] == if to <= i < to + k then src[i - to] else old(a[i])
    {
      var threw := e.Attempt(e.traits.nothrowCopyAssign);
      if threw { return Threw; }
      a[to + k] := src[k];
      k := k + 1;
    }
    return Done;
  }
}

/** Whole runs over two vectors that also move, copy and swap them. */
module VectorPairs {
  import opened Slots
  import opened GrowthPolicy
  import opened VectorStorage
  import opened StorageMoves
  import opened VectorFunc
  import R = VectorRuns

  /** `ToFirst` and `ToSecond` name the target of an assignment between the two. */
  datatype Command<T> =
    | First(op: R.Op<T>)
    | Second(op: R.Op<T>)
    | MoveToFirst
    | MoveToSecond
    | CopyToFirst
    | CopyToSecond
    | Exchange

  datatype Elements<T> = Elements(first: seq<Slot<T>>, second: seq<Slot<T>>)

  predicate CanDo<T>(c: Command<T>, firstSize: nat, secondSize: nat, maxSize: nat) {
    match c
    case First(op) => R.CanCall(op, firstSize, maxSize)
    case Second(op) => R.CanCall(op, secondSize, maxSize)
    case _ => firstSize <= maxSize && secondSize <= maxSize
  }

  /** The elements after a command; an assignment by copy that fails leaves its target empty. */
  function Apply<T>(c: Command<T>, how: Completion, e: Elements<T>, maxSize: nat): Elements<T>
    requires CanDo(c, |e.first|, |e.second|, maxSize)
  {
    match c
    case First(op) => if how == Done then e.(first := R.Apply(op, e.first, maxSize)) else e
    case Second(op) => if how == Done then e.(second := R.Apply(op, e.second, maxSize)) else e
    case MoveToFirst => if how == Done then Elements(e.second, []) else e
    case MoveToSecond => if how == Done then Elements([], e.first) else e
    case CopyToFirst => e.(first := if how == Done then e.second else [])
    case CopyToSecond => e.(second := if how == Done then e.first else [])
    case Exchange => if how == Done then Elements(e.second, e.first) else e
  }

  /** How the commands relate: moving is copying and clearing, and each has its mirror image. */
  lemma {:induction false} CommandsRelate<T>(e: Elements<T>, maxSize: nat)
    requires |e.first| <= maxSize && |e.second| <= maxSize
    ensures var mirror := Apply(Exchange, Done, e, maxSize);
            && mirror.first == e.second && Apply(Exchange, Done, mirror, maxSize) == e
            && Apply(CopyToSecond, Done, e, maxSize)
                 == Apply(Exchange, Done, Apply(CopyToFirst, Done, mirror, maxSize), maxSize)
            && Apply(MoveToSecond, Done, e, maxSize)
                 == Apply(Exchange, Done, Apply(MoveToFirst, Done, mirror, maxSize), maxSize)
    ensures var copied := Apply(CopyToFirst, Done, e, maxSize);
            && copied.first == copied.second == e.second
            && Apply(MoveToFirst, Done, e, maxSize) == Apply(Second(R.ClearOp), Done, copied, maxSize)
  {
  }

  /** An operation on one vector leaves the other alone, and one that does not succeed both. */
  lemma {:induction false} OperationsApart<T>(op: R.Op<T>, how: Completion, e: Elements<T>, maxSize: nat)
    ensures R.CanCall(op, |e.first|, maxSize) ==>
      CanDo(First(op), |e.first|, |e.second|, maxSize) &&
      Apply(First(op), how, e, maxSize)
        == Elements(if how == Done then R.Apply(op, e.first, maxSize) else e.first, e.second)
    ensures R.CanCall(op, |e.second|, maxSize) ==>
      CanDo(Second(op), |e.first|, |e.second|, maxSize) &&
      Apply(Second(op), how, e, maxSize)
        == Elements(e.first, if how == Done then R.Apply(op, e.second, maxSize) else e.second)
  {
  }

  /** For which element types a command can end in an exception, or in the end of the program. */
  predicate Throws<T>(c: Command<T>, tr: Traits, ctor: bool, how: Completion) {
    match c
    case First(op) => R.Throws(op, tr, ctor, how)
    case Second(op) => R.Throws(op, tr, ctor, how)
    case MoveToFirst => tr.AssignMoveThrows(how)
    case MoveToSecond => tr.AssignMoveThrows(how)
    case CopyToFirst => tr.CopyThrows(how)
    case CopyToSecond => tr.CopyThrows(how)
    case Exchange => how == Terminated && tr.SwapThrows()
  }

  /** What the elements are after a throw is known for all but the weak operations on one vector. */
  predicate Foreseen<T>(c: Command<T>, firstSize: nat, secondSize: nat) {
    match c
    case First(op) => R.Strong(op, firstSize)
    case Second(op) => R.Strong(op, secondSize)
    case _ => true
  }

  ghost predicate InOrder<T>(a: Storage<T>, b: Storage<T>)
    reads a, a.heap, a.buffered, a.dynamic, b, b.heap, b.buffered, b.dynamic
  {
    a.Valid() && b.Valid() && Apart(a, b)
  }

  ghost function Pair<T>(a: Storage<T>, b: Storage<T>): Elements<T>
    requires InOrder(a, b)
    reads a, a.heap, a.buffered, a.dynamic, b, b.heap, b.buffered, b.dynamic
  {
    Elements(a.Slots(), b.Slots())
  }

  /**
   * The commands that leave a vector broken when they do not succeed: a move onto elements
   * and a copy onto a block that is too small.
   */
  predicate Fragile<T>(c: Command<T>, a: Storage<T>, b: Storage<T>)
    requires a.active == Dynamic ==> a.dynamic != null
    requires b.active == Dynamic ==> b.dynamic != null
    reads a, b
  {
    match c
    case MoveToFirst => a.size_ > 0
    case MoveToSecond => b.size_ > 0
    case CopyToFirst => a.active == Dynamic && a.Capacity() < b.size_
    case CopyToSecond => b.active == Dynamic && b.Capacity() < a.size_
    case _ => false
  }

  // --------------------------------------------------------------- one command

  method PerformBeside<T>(vec: Storage<T>, other: Storage<T>, op: R.Op<T>, nothrowCtor: bool) returns (c: Completion)
    requires InOrder(vec, other) && R.CanCall(op, vec.size_, vec.MaxSize())
    modifies vec, vec.buffered, vec.dynamic, vec.heap, vec.element
    ensures vec.element.throws == old(vec.element.throws) + Thrown(c)
    ensures c != Terminated ==> InOrder(vec, other) && BothAccounted(vec, other)
    ensures c == Done ==> vec.Slots() == R.Apply(op, old(vec.Slots()), vec.MaxSize())
    ensures c == OutOfStorage || (c == Threw && R.Strong(op, old(vec.size_))) ==> vec.Slots() == old(vec.Slots())
    ensures c != Terminated ==> other.Slots() == old(other.Slots()) && other.dynamic == old(other.dynamic)
    ensures c == Threw || c == Terminated ==> R.Throws(op, vec.traits, nothrowCtor, c)
  {
    c := R.Perform(vec, op, nothrowCtor);
  }

  method MoveBetween<T>(lh: Storage<T>, rh: Storage<T>) returns (c: Completion)
    requires InOrder(lh, rh) && AssignMoveCompiles(lh.traits)
    modifies lh, lh.buffered, lh.dynamic, rh, rh.buffered, lh.heap`live, lh.element
    ensures lh.element.throws == old(lh.element.throws) + Thrown(c)
    ensures c == Done ==> InOrder(lh, rh) && BothAccounted(lh, rh)
    ensures c == Done ==> lh.Slots() == old(rh.Slots()) && rh.Slots() == []
    ensures c == Threw ==> (InOrder(lh, rh) && BothAccounted(lh, rh) <==> old(lh.size_) == 0)
    ensures c == Threw && InOrder(lh, rh) ==> lh.Slots() == old(lh.Slots()) && rh.Slots() == old(rh.Slots())
    ensures c != OutOfStorage
    ensures c == Threw || c == Terminated ==> lh.traits.AssignMoveThrows(c)
  {
    c := AssignMove(lh, rh);
  }

  method CopyBetween<T>(lh: Storage<T>, rh: Storage<T>) returns (c: Completion)
    requires InOrder(lh, rh) && rh.size_ <= lh.MaxSize()
    modifies lh, lh.buffered, lh.dynamic, lh.heap, lh.element
    ensures lh.element.throws == old(lh.element.throws) + Thrown(c)
    ensures c == Done ==> InOrder(lh, rh) && BothAccounted(lh, rh) && lh.Slots() == old(rh.Slots())
    ensures c != Terminated && InOrder(lh, rh) ==> rh.Slots() == old(rh.Slots())
    ensures c == Threw || c == OutOfStorage ==>
      (InOrder(lh, rh) && BothAccounted(lh, rh) <==> !old(lh.active == Dynamic && lh.Capacity() < rh.size_))
    ensures (c == Threw || c == OutOfStorage) && InOrder(lh, rh) ==> lh.Slots() == []
    ensures c == Threw || c == Terminated ==> lh.traits.CopyThrows(c)
  {
    c := AssignCopy(lh, rh.Data()[..rh.size_]);
  }

  /** The vector's own swap is noexcept without a condition: an exception ends the program. */
  method SwapBoth<T>(a: Storage<T>, b: Storage<T>) returns (c: Completion)
    requires InOrder(a, b)
    modifies a, b, a.buffered, b.buffered, a.element
    ensures a.element.throws == old(a.element.throws) + Thrown(c)
    ensures c == Done ==> InOrder(a, b) && BothAccounted(a, b)
    ensures c == Done ==> a.Slots() == old(b.Slots()) && b.Slots() == old(a.Slots())
    ensures c != Done ==> c == Terminated && a.traits.SwapThrows()
  {
    ghost var lost;
    c, lost := Swap(a, b);
    c := Escaping(c, true);
  }

  /** The commands that work on one of the two. */
  method PerformOne<T>(a: Storage<T>, b: Storage<T>, c: Command<T>, nothrowCtor: bool) returns (how: Completion)
    requires InOrder(a, b) && CanDo(c, a.size_, b.size_, a.MaxSize())
    requires c.First? || c.Second?
    modifies a, a.buffered, a.dynamic, b, b.buffered, b.dynamic, a.heap, a.element
    ensures a.element.throws == old(a.element.throws) + Thrown(how)
    ensures how != Terminated ==> InOrder(a, b) && BothAccounted(a, b)
    ensures how == Done || how == OutOfStorage || (how == Threw && Foreseen(c, old(a.size_), old(b.size_))) ==>
      Pair(a, b) == Apply(c, how, old(Pair(a, b)), a.MaxSize())
    ensures how == Threw || how == Terminated ==> Throws(c, a.traits, nothrowCtor, how)
  {
    match c
    case First(op) => how := PerformBeside(a, b, op, nothrowCtor);
    case Second(op) => how := PerformBeside(b, a, op, nothrowCtor);
  }

  predicate Copies<T>(c: Command<T>) {
    c.CopyToFirst? || c.CopyToSecond?
  }

  predicate Moves<T>(c: Command<T>) {
    c.MoveToFirst? || c.MoveToSecond?
  }

  method PerformMove<T>(a: Storage<T>, b: Storage<T>, c: Command<T>) returns (how: Completion)
    requires InOrder(a, b) && CanDo(c, a.size_, b.size_, a.MaxSize()) && AssignMoveCompiles(a.traits)
    requires Moves(c)
    modifies a, a.buffered, a.dynamic, b, b.buffered, b.dynamic, a.heap, a.element
    ensures a.element.throws == old(a.element.throws) + Thrown(how)
    ensures how == Done ==> InOrder(a, b) && BothAccounted(a, b)
    ensures how == Threw ==> (InOrder(a, b) && BothAccounted(a, b) <==> !old(Fragile(c, a, b)))
    ensures how != Terminated && InOrder(a, b) ==> Pair(a, b) == Apply(c, how, old(Pair(a, b)), a.MaxSize())
    ensures how != Done ==> (how == Threw || how == Terminated) && a.traits.AssignMoveThrows(how)
  {
    match c
    case MoveToFirst => how := MoveBetween(a, b);
    case MoveToSecond => how := MoveBetween(b, a);
  }

  method PerformCopy<T>(a: Storage<T>, b: Storage<T>, c: Command<T>) returns (how: Completion)
    requires InOrder(a, b) && CanDo(c, a.size_, b.size_, a.MaxSize())
    requires Copies(c)
    modifies a, a.buffered, a.dynamic, b, b.buffered, b.dynamic, a.heap, a.element
    ensures a.element.throws == old(a.element.throws) + Thrown(how)
    ensures how == Done ==> InOrder(a, b) && BothAccounted(a, b)
    ensures how == Threw || how == OutOfStorage ==>
      (InOrder(a, b) && BothAccounted(a, b) <==> !old(Fragile(c, a, b)))
    ensures how != Terminated && InOrder(a, b) ==> Pair(a, b) == Apply(c, how, old(Pair(a, b)), a.MaxSize())
    ensures how == Threw || how == Terminated ==> a.traits.CopyThrows(how)
  {
    match c
    case CopyToFirst => how := CopyBetween(a, b);
    case CopyToSecond => how := CopyBetween(b, a);
  }

  /**
   * One command. Where it succeeds both vectors are in order and have the elements the
   * model gives them; where it throws or is refused, they are in order exactly if it was not
   * fragile. Which types can make it throw or end the program is settled.
   */
  method PerformBoth<T>(a: Storage<T>, b: Storage<T>, c: Command<T>, nothrowCtor: bool) returns (how: Completion)
    requires InOrder(a, b) && CanDo(c, a.size_, b.size_, a.MaxSize()) && AssignMoveCompiles(a.traits)
    modifies a, a.buffered, a.dynamic, b, b.buffered, b.dynamic, a.heap, a.element
    ensures a.element.throws == old(a.element.throws) + Thrown(how)
    ensures how == Done ==> InOrder(a, b) && BothAccounted(a, b)
    ensures how == Threw || how == OutOfStorage ==>
      (InOrder(a, b) && BothAccounted(a, b) <==> !old(Fragile(c, a, b)))
    ensures how != Terminated && InOrder(a, b) && (how == Threw ==> Foreseen(c, old(a.size_), old(b.size_))) ==>
      Pair(a, b) == Apply(c, how, old(Pair(a, b)), a.MaxSize())
    ensures how == Threw || how == Terminated ==> Throws(c, a.traits, nothrowCtor, how)
    ensures how == OutOfStorage ==> c.First? || c.Second? || Copies(c)
  {
    if Moves(c) {
      how := PerformMove(a, b, c);
    } else if Copies(c) {
      how := PerformCopy(a, b, c);
    } else if c.Exchange? {
      how := SwapBoth(a, b);
    } else {
      how := PerformOne(a, b, c, nothrowCtor);
    }
  }

  // ---------------------------------------------------------------- whole runs

  /** The elements left by a run that ended as `hows` says. */
  function Replay<T>(start: Elements<T>, cs: seq<Command<T>>, hows: seq<Completion>, maxSize: nat): Elements<T>
    requires |hows| <= |cs|
    decreases |hows|
  {
    if hows == [] then start
    else
      var k := |hows| - 1;
      var before := Replay(start, cs, hows[..k], maxSize);
      if CanDo(cs[k], |before.first|, |before.second|, maxSize) then Apply(cs[k], hows[k], before, maxSize) else before
  }

  /** No command of the run threw but those that leave known elements then. */
  predicate Predictable<T>(start: Elements<T>, cs: seq<Command<T>>, hows: seq<Completion>, maxSize: nat)
    requires |hows| <= |cs|
    decreases |hows|
  {
    hows == [] ||
    (var k := |hows| - 1;
     var before := Replay(start, cs, hows[..k], maxSize);
     && Predictable(start, cs, hows[..k], maxSize)
     && (hows[k] == Threw ==> Foreseen(cs[k], |before.first|, |before.second|)))
  }

  lemma {:induction false} ReplayGrows<T>(start: Elements<T>, cs: seq<Command<T>>, hows: seq<Completion>,
                                           how: Completion, maxSize: nat)
    requires |hows| < |cs|
    ensures var before := Replay(start, cs, hows, maxSize);
            && (CanDo(cs[|hows|], |before.first|, |before.second|, maxSize) ==>
                  Replay(start, cs, hows + [how], maxSize) == Apply(cs[|hows|], how, before, maxSize))
            && (Predictable(start, cs, hows + [how], maxSize) <==>
                  && Predictable(start, cs, hows, maxSize)
                  && (how == Threw ==> Foreseen(cs[|hows|], |before.first|, |before.second|)))
  {
    assert (hows + [how])[..|hows|] == hows;
  }

  /** A run without a throw is predictable. */
  lemma {:induction false} NoThrowPredictable<T>(start: Elements<T>, cs: seq<Command<T>>, hows: seq<Completion>,
                                                 maxSize: nat)
    requires |hows| <= |cs| && Threw !in hows
    ensures Predictable(start, cs, hows, maxSize)
  {
    if hows != [] { NoThrowPredictable(start, cs, hows[..|hows| - 1], maxSize); }
  }

  /** The outcomes are such as the commands and the element type allow. */
  ghost predicate Explained<T>(cs: seq<Command<T>>, hows: seq<Completion>, tr: Traits, ctor: bool)
    requires |hows| <= |cs|
  {
    forall k :: 0 <= k < |hows| && (hows[k] == Threw || hows[k] == Terminated) ==> Throws(cs[k], tr, ctor, hows[k])
  }

  /** A command that ends the program does so for a type some vector operation ends it for, or by a swap. */
  lemma {:induction false} EndsFor<T>(c: Command<T>, tr: Traits, ctor: bool)
    requires Throws(c, tr, ctor, Terminated)
    ensures R.CanEndProgram(tr) || (c == Exchange && tr.SwapThrows())
  {
  }

  /**
   * What broke a run: the program ended, or an assignment threw or was refused memory that
   * the element type and the command allow to.
   */
  ghost predicate Breaks<T>(c: Command<T>, tr: Traits, ctor: bool, how: Completion) {
    match how
    case Done => false
    case Terminated => Throws(c, tr, ctor, how)
    case Threw => (Moves(c) || Copies(c)) && Throws(c, tr, ctor, how)
    case OutOfStorage => Copies(c)
  }

  /** A run so far: the outcomes are explained and the elements are those of the replay. */
  ghost predicate OnTrack<T>(a: Storage<T>, b: Storage<T>, start: Elements<T>, cs: seq<Command<T>>,
                             hows: seq<Completion>)
    requires InOrder(a, b) && |hows| <= |cs|
    reads a, a.heap, a.buffered, a.dynamic, b, b.heap, b.buffered, b.dynamic
  {
    Predictable(start, cs, hows, a.MaxSize()) ==> Pair(a, b) == Replay(start, cs, hows, a.MaxSize())
  }

  lemma {:induction false} ExplainedGrows<T>(cs: seq<Command<T>>, hows: seq<Completion>, how: Completion, tr: Traits,
                                             ctor: bool)
    requires |hows| < |cs| && Explained(cs, hows, tr, ctor)
    requires how == Threw || how == Terminated ==> Throws(cs[|hows|], tr, ctor, how)
    ensures Explained(cs, hows + [how], tr, ctor)
  {
  }

  /** One command, and whether it broke anything. */
  method Attempt<T>(a: Storage<T>, b: Storage<T>, c: Command<T>, nothrowCtor: bool,
                    ghost others: set<array<Slot<T>>>)
    returns (how: Completion, broken: bool)
    requires InOrder(a, b) && CanDo(c, a.size_, b.size_, a.MaxSize()) && AssignMoveCompiles(a.traits)
    requires AccountedBeside(others, a, b)
    modifies a, a.buffered, a.dynamic, b, b.buffered, b.dynamic, a.heap, a.element
    ensures a.element.throws == old(a.element.throws) + Thrown(how)
    ensures !broken ==> InOrder(a, b) && AccountedBeside(others, a, b)
    ensures !broken ==> Known(a, b, a.dynamic) && Known(a, b, b.dynamic)
    ensures !broken && (how == Threw ==> Foreseen(c, old(a.size_), old(b.size_))) ==>
      Pair(a, b) == Apply(c, how, old(Pair(a, b)), a.MaxSize())
    ensures how == Threw || how == Terminated ==> Throws(c, a.traits, nothrowCtor, how)
    ensures broken ==> Breaks(c, a.traits, nothrowCtor, how)
    ensures broken <==> how == Terminated || (how != Done && old(Fragile(c, a, b)))
  {
    var risky := Fragile(c, a, b);
    how := PerformBoth(a, b, c, nothrowCtor);
    broken := how == Terminated || (how != Done && risky);
  }

  /** The next command of a run. */
  method PerformNext<T>(a: Storage<T>, b: Storage<T>, cs: seq<Command<T>>, sofar: seq<Completion>, nothrowCtor: bool,
                        ghost start: Elements<T>, ghost others: set<array<Slot<T>>>)
    returns (hows: seq<Completion>, broken: bool)
    requires InOrder(a, b) && AssignMoveCompiles(a.traits)
    requires |sofar| < |cs| && CanDo(cs[|sofar|], a.size_, b.size_, a.MaxSize())
    requires AccountedBeside(others, a, b)
    requires OnTrack(a, b, start, cs, sofar) && Explained(cs, sofar, a.traits, nothrowCtor)
    modifies a, a.buffered, a.dynamic, b, b.buffered, b.dynamic, a.heap, a.element
    ensures a.element.throws == old(a.element.throws) + AllThrown(hows) - AllThrown(sofar)
    ensures |hows| == |sofar| + 1 && Explained(cs, hows, a.traits, nothrowCtor)
    ensures !broken ==> InOrder(a, b) && AccountedBeside(others, a, b) && OnTrack(a, b, start, cs, hows)
    ensures !broken ==> Known(a, b, a.dynamic) && Known(a, b, b.dynamic)
    ensures broken ==> Breaks(cs[|sofar|], a.traits, nothrowCtor, hows[|sofar|])
    ensures broken <==>
      hows[|sofar|] == Terminated || (hows[|sofar|] != Done && old(Fragile(cs[|sofar|], a, b)))
  {
    var how;
    how, broken := Attempt(a, b, cs[|sofar|], nothrowCtor, others);
    ReplayGrows(start, cs, sofar, how, a.MaxSize());
    ExplainedGrows(cs, sofar, how, a.traits, nothrowCtor);
    OneMoreThrown(sofar, how);
    hows := sofar + [how];
  }

  /**
   * A run over two vectors, up to the first command the caller may not give, that ends the
   * program or that breaks a vector. Whatever else throws or is refused on the way, both
   * vectors stay in order and every block is accounted for; as long as what a throw leaves
   * is known, their elements are those of the replayed run.
   */
  method PerformAll<T>(a: Storage<T>, b: Storage<T>, cs: seq<Command<T>>, nothrowCtor: bool)
    returns (hows: seq<Completion>, broken: bool)
    requires InOrder(a, b) && AssignMoveCompiles(a.traits)
    modifies a, a.buffered, a.dynamic, b, b.buffered, b.dynamic, a.heap, a.element
    ensures a.element.throws == old(a.element.throws) + AllThrown(hows)
    ensures |hows| <= |cs|
    ensures |hows| == |cs| || broken || !CanDo(cs[|hows|], a.size_, b.size_, a.MaxSize())
    ensures !broken ==> InOrder(a, b) && BothAccounted(a, b)
    ensures !broken && Predictable(old(Pair(a, b)), cs, hows, a.MaxSize()) ==>
      Pair(a, b) == Replay(old(Pair(a, b)), cs, hows, a.MaxSize())
    ensures Explained(cs, hows, a.traits, nothrowCtor)
    ensures broken ==> hows != [] && Breaks(cs[|hows| - 1], a.traits, nothrowCtor, hows[|hows| - 1])
  {
    hows, broken := [], false;
    ghost var start := Pair(a, b);
    ghost var others := a.heap.live - a.Owned() - b.Owned();
    while |hows| < |cs| && CanDo(cs[|hows|], a.size_, b.size_, a.MaxSize())
      invariant |hows| <= |cs| && !broken && InOrder(a, b) && AccountedBeside(others, a, b)
      invariant Known(a, b, a.dynamic) && Known(a, b, b.dynamic)
      invariant OnTrack(a, b, start, cs, hows)
      invariant a.element.throws == old(a.element.throws) + AllThrown(hows)
      invariant Explained(cs, hows, a.traits, nothrowCtor)
      decreases |cs| - |hows|
    {
      hows, broken := PerformNext(a, b, cs, hows, nothrowCtor, start, others);
      if broken { return; }
    }
  }

  /** How the second vector is made. */
  datatype Origin = Default | CopyOfFirst | MoveOfFirst

  /** The elements of the first vector and of one made from it. */
  function Made<T>(origin: Origin, e: seq<Slot<T>>): Elements<T> {
    match origin
    case Default => Elements(e, [])
    case CopyOfFirst => Elements(e, e)
    case MoveOfFirst => Elements([], e)
  }

  /** Constructs a vector from another; one whose construction fails does not come to life. */
  method Construct<T>(a: Storage<T>, b: Storage<T>, origin: Origin) returns (how: Completion)
    requires InOrder(a, b) && Blank(b)
    modifies a, a.buffered, b, b.buffered, a.heap, a.element
    ensures a.element.throws == old(a.element.throws) + Thrown(how)
    ensures how == Done ==> InOrder(a, b) && Pair(a, b) == Made(origin, old(a.Slots())) && BothAccounted(a, b)
    ensures how == Threw || how == OutOfStorage ==> a.Valid() && a.Kept() && a.heap.live == old(a.heap.live)
    ensures how == Threw || how == Terminated ==> a.traits.CopyThrows(how)
  {
    how := Done;
    match origin
    case Default =>
    case CopyOfFirst => how := ConstructCopy(b, a.Data()[..a.size_]);
    case MoveOfFirst => how := ConstructMove(b, a);
  }

  /** A second vector of the kind of the first, made from it. */
  method Beside<T>(a: Storage<T>, origin: Origin) returns (b: Storage<T>, how: Completion)
    requires a.Valid() && a.reallocates
    modifies a, a.buffered, a.heap, a.element
    ensures a.element.throws == old(a.element.throws) + Thrown(how)
    ensures fresh(b) && fresh(b.buffered) && b.element == a.element && b.bits == a.bits && b.heap == a.heap
    ensures how == Done ==> InOrder(a, b) && Pair(a, b) == Made(origin, old(a.Slots()))
    ensures how == Done ==> a.heap.live == old(a.heap.live) - old(a.Owned()) + a.Owned() + b.Owned()
    ensures how == Done ==> Known(a, a, a.dynamic) && Known(a, a, b.dynamic)
    ensures how == Threw || how == OutOfStorage ==> a.Valid() && a.Kept() && a.heap.live == old(a.heap.live)
    ensures how == Threw || how == Terminated ==> a.traits.CopyThrows(how)
  {
    b := new Storage(a.heap, a.element, a.bits, true, a.buffered.Length);
    how := Construct(a, b, origin);
  }

  /** Some command of the run can have ended it like this. */
  ghost predicate BrokenBy<T>(cs: seq<Command<T>>, tr: Traits, ctor: bool, how: Completion) {
    exists k :: 0 <= k < |cs| && Breaks(cs[k], tr, ctor, how)
  }

  /** The ends of two vectors. */
  method DestroyBoth<T>(a: Storage<T>, b: Storage<T>)
    requires InOrder(a, b)
    modifies a, a.buffered, a.dynamic, b, b.buffered, b.dynamic, a.heap
    ensures a.heap.live == old(a.heap.live) - old(a.Owned()) - old(b.Owned())
  {
    b.Destroy();
    a.Destroy();
  }

  /** The two vectors' common life and their end; `last` is how the last command ended. */
  method WorkAndDestroy<T>(a: Storage<T>, b: Storage<T>, cs: seq<Command<T>>, nothrowCtor: bool)
    returns (last: Completion, broken: bool)
    requires InOrder(a, b) && AssignMoveCompiles(a.traits)
    modifies a, a.buffered, a.dynamic, b, b.buffered, b.dynamic, a.heap, a.element
    ensures !broken ==> a.heap.live == old(a.heap.live) - old(a.Owned()) - old(b.Owned())
    ensures broken ==> BrokenBy(cs, a.traits, nothrowCtor, last)
  {
    var hows;
    hows, broken := PerformAll(a, b, cs, nothrowCtor);
    last := if hows == [] then Done else hows[|hows| - 1];
    if !broken { DestroyBoth(a, b); }
  }

  /**
   * A vector is worked on, a second one is made from it, both are worked on together and
   * destroyed: unless something broke on the way, no block is leaked or freed twice. What
   * can break is settled: a type that can end the program, a swap that throws, or one of the
   * assignments; nothing can if the type ends no program and there are neither.
   */
  method WholeLives<T>(traits: Traits, bits: nat, capacity: nat, ops: seq<R.Op<T>>, origin: Origin, cs: seq<Command<T>>,
                       nothrowCtor: bool)
    returns (heap: Heap<T>, last: Completion, broken: bool)
    requires bits == 8 || bits == 16 || bits == 32
    requires 0 < capacity <= MaxOf(bits) && AssignMoveCompiles(traits)
    ensures !broken ==> heap.live == {}
    ensures broken && !R.CanEndProgram(traits) ==> BrokenBy(cs, traits, nothrowCtor, last)
    ensures !R.CanEndProgram(traits) && (forall k :: 0 <= k < |cs| ==> cs[k].First? || cs[k].Second?) ==> !broken
    ensures broken && nothrowCtor && traits.AllNothrow() ==> last == OutOfStorage
  {
    heap := new Heap(false);
    var element := new Element(traits);
    var a := new Storage(heap, element, bits, true, capacity);
    var firstHows := R.Run(a, ops, nothrowCtor);
    if Terminated in firstHows { return heap, Terminated, true; }
    var b;
    b, last := Beside(a, origin);
    broken := last == Terminated;
    if last == Done {
      last, broken := WorkAndDestroy(a, b, cs, nothrowCtor);
      if broken { OnlyAssignments(cs, traits, nothrowCtor, last); }
    } else if !broken {
      a.Destroy();
    }
  }

  /** A type that ends no program is broken by assignments and throwing swaps alone. */
  lemma {:induction false} OnlyAssignments<T>(cs: seq<Command<T>>, tr: Traits, ctor: bool, how: Completion)
    requires BrokenBy(cs, tr, ctor, how)
    ensures !R.CanEndProgram(tr) ==> exists k :: 0 <= k < |cs| && !cs[k].First? && !cs[k].Second?
    ensures ctor && tr.AllNothrow() ==> how == OutOfStorage
  {
    var k :| 0 <= k < |cs| && Breaks(cs[k], tr, ctor, how);
    if how == Terminated { EndsFor(cs[k], tr, ctor); }
  }
}

/** Whole runs of string operations over two strings. */
module StringRuns {
  import opened Lexicographic
  import opened Sequences
  import opened Slots
  import opened StringSizes
  import opened GrowthPolicy
  import opened VectorStorage
  import opened StringFunc
  import opened StringEdit

  datatype Op =
    | AssignOp(t: seq<CodeUnit>)
    | ReserveOp(n: nat)
    | ResizeOp(n: nat, ch: CodeUnit)
    | AppendOp(t: seq<CodeUnit>)
    | ReplaceOp(pos: nat, count: nat, t: seq<CodeUnit>)
    | EraseOp(index: nat, count: nat)
    | PopBackOp
    | ClearOp

  /** How long the string has to be able to become; insert is a replace of nothing. */
  function Target(op: Op, size: nat): nat {
    match op
    case AssignOp(t) => |t|
    case ReserveOp(n) => n
    case ResizeOp(n, _) => n
    case AppendOp(t) => size + |t|
    case ReplaceOp(pos, count, t) => if pos + count <= size then size - count + |t| else size
    case EraseOp(_, _) => 0
    case PopBackOp => 0
    case ClearOp => 0
  }

  /** What a caller may ask of a string of `size` units. */
  predicate CanCall(op: Op, size: nat, unit: nat, maxSize: nat) {
    && UnitSize(unit)
    && Target(op, size) < maxSize && Bytes(Target(op, size) + 1, unit) + 8 < UINT32
    && (op.ReplaceOp? && op.pos <= size ==> op.pos + op.count <= size)
    && (op.EraseOp? ==> op.index <= size)
    && (op.PopBackOp? ==> size > 0)
  }

  /** That is, what the source leaves to its callers, as long as everything can be counted. */
  lemma {:induction false} CallerMay(op: Op, size: nat, unit: nat, maxSize: nat)
    requires UnitSize(unit) && 4 <= maxSize
    ensures CanCall(op, size, unit, maxSize) <==>
      match op
      case AssignOp(t) => |t| < maxSize && (|t| + 1) * unit + 8 < UINT32
      case ReserveOp(n) => n < maxSize && (n + 1) * unit + 8 < UINT32
      case ResizeOp(n, _) => n < maxSize && (n + 1) * unit + 8 < UINT32
      case AppendOp(t) => size + |t| < maxSize && (size + |t| + 1) * unit + 8 < UINT32
      case ReplaceOp(pos, count, t) =>
        if pos > size then size < maxSize && (size + 1) * unit + 8 < UINT32
        else
          && pos + count <= size
          && size - count + |t| < maxSize && (size - count + |t| + 1) * unit + 8 < UINT32
      case EraseOp(index, _) => index <= size
      case PopBackOp => size > 0
      case ClearOp => true
  {
    BytesIsProduct(Target(op, size) + 1, unit);
  }

  function Min(a: nat, b: nat): nat {
    if a < b then a else b
  }

  /** The text and the outcome; a string that cannot reallocate has only so many `slots`. */
  function Step(op: Op, t: seq<CodeUnit>, reallocates: bool, slots: nat): (seq<CodeUnit>, Outcome) {
    if op.ReplaceOp? && op.pos > |t| then (t, OutOfRange)
    else if !reallocates && Target(op, |t|) + 1 > slots then (t, LengthError)
    else (match op
      case AssignOp(u) => u
      case ReserveOp(_) => t
      case ResizeOp(n, ch) => Resized(t, n, ch)
      case AppendOp(u) => t + u
      case ReplaceOp(pos, count, u) => if pos + count <= |t| then Replaced(t, pos, count, u) else t
      case EraseOp(index, count) =>
        if index <= |t| then Replaced(t, index, Min(count, |t| - index), []) else t
      case PopBackOp => if t == [] then t else t[..|t| - 1]
      case ClearOp => [], Ok)
  }

  /** What a string that can reallocate becomes. */
  function Edited(op: Op, t: seq<CodeUnit>): seq<CodeUnit> {
    Step(op, t, true, 0).0
  }

  /** An operation that does not go through changes nothing; otherwise storage does not matter. */
  lemma {:induction false} StepOutcome(op: Op, t: seq<CodeUnit>, reallocates: bool, slots: nat)
    ensures var (u, o) := Step(op, t, reallocates, slots);
            && (o == OutOfRange <==> op.ReplaceOp? && op.pos > |t|)
            && (o == LengthError <==> o != OutOfRange && !reallocates && Target(op, |t|) + 1 > slots)
            && u == (if o == Ok then Edited(op, t) else t)
  {
  }

  /** What is replaced can be put back, and the new text stands where the old one was. */
  lemma {:induction false} ReplaceUndone(t: seq<CodeUnit>, pos: nat, count: nat, u: seq<CodeUnit>)
    requires pos + count <= |t|
    ensures var r := Edited(ReplaceOp(pos, count, u), t);
            && |r| == |t| - count + |u| && r[pos..pos + |u|] == u
            && Edited(ReplaceOp(pos, |u|, t[pos..pos + count]), r) == t
  {
    var r := Edited(ReplaceOp(pos, count, u), t);
    assert r == t[..pos] + u + t[pos + count..];
    assert r[..pos] == t[..pos] && r[pos + |u|..] == t[pos + count..];
    assert t == t[..pos] + t[pos..pos + count] + t[pos + count..];
  }

  /** The other operations in terms of replacing: those that take nothing away. */
  lemma {:induction false} GrowthIsReplace(t: seq<CodeUnit>, u: seq<CodeUnit>, n: nat, ch: CodeUnit)
    ensures Edited(AssignOp(u), t) == Edited(ReplaceOp(0, |t|, u), t)
    ensures Edited(AppendOp(u), t) == Edited(ReplaceOp(|t|, 0, u), t)
    ensures Edited(ReserveOp(n), t) == t
    ensures n > |t| ==> Edited(ResizeOp(n, ch), t) == Edited(ReplaceOp(|t|, 0, Repeat(ch, n - |t|)), t)
  {
    assert Replaced(t, 0, |t|, u) == u;
    assert Replaced(t, |t|, 0, u) == t + u;
    if n > |t| { assert Replaced(t, |t|, 0, Repeat(ch, n - |t|)) == t + Repeat(ch, n - |t|); }
  }

  /** And those that take something away. */
  lemma {:induction false} ErasureIsReplace(t: seq<CodeUnit>, n: nat, m: nat, ch: CodeUnit)
    ensures Edited(ClearOp, t) == Edited(ReplaceOp(0, |t|, []), t)
    ensures t != [] ==> Edited(PopBackOp, t) == Edited(ReplaceOp(|t| - 1, 1, []), t)
    ensures n + m <= |t| ==> Edited(EraseOp(n, m), t) == Edited(ReplaceOp(n, m, []), t)
    ensures n <= |t| < n + m ==> Edited(EraseOp(n, m), t) == Edited(ReplaceOp(n, |t| - n, []), t)
    ensures n <= |t| ==> Edited(ResizeOp(n, ch), t) == Edited(ReplaceOp(n, |t| - n, []), t)
  {
    assert Replaced(t, 0, |t|, []) == [];
    if t != [] { assert Replaced(t, |t| - 1, 1, []) == t[..|t| - 1]; }
    if n <= |t| { assert Replaced(t, n, |t| - n, []) == t[..n]; }
  }

  /** The operations that write behind the text. */
  method PerformBehind(s: Storage<CodeUnit>, unit: nat, op: Op) returns (o: Outcome)
    requires Str(s) && CanCall(op, s.size_, unit, s.MaxSize())
    requires op.ResizeOp? || op.AppendOp?
    modifies s, s.buffered, s.dynamic, s.heap`live
    ensures Str(s) && s.BlocksAccounted()
    ensures (Text(s), o) == Step(op, old(Text(s)), s.reallocates, s.buffered.Length)
  {
    ghost var t := Text(s);
    match op
    case ResizeOp(n, ch) => o := Resize(s, unit, n, ch);
    case AppendOp(u) => o := Append(s, unit, u);
    if o != Ok { KeptText(s, t); }
  }

  method PerformGrowing(s: Storage<CodeUnit>, unit: nat, op: Op) returns (o: Outcome)
    requires Str(s) && CanCall(op, s.size_, unit, s.MaxSize())
    requires op.AssignOp? || op.ReserveOp? || op.ReplaceOp?
    modifies s, s.buffered, s.dynamic, s.heap`live
    ensures Str(s) && s.BlocksAccounted()
    ensures (Text(s), o) == Step(op, old(Text(s)), s.reallocates, s.buffered.Length)
  {
    ghost var t := Text(s);
    match op
    case AssignOp(u) => o := Assign(s, unit, u);
    case ReserveOp(n) => o := Reserve(s, unit, n);
    case ReplaceOp(pos, count, u) => o := ReplaceAux(s, unit, pos, count, u);
    if o != Ok { KeptText(s, t); }
  }

  method Perform(s: Storage<CodeUnit>, unit: nat, op: Op) returns (o: Outcome)
    requires Str(s) && CanCall(op, s.size_, unit, s.MaxSize())
    modifies s, s.buffered, s.dynamic, s.heap`live
    ensures Str(s) && s.BlocksAccounted()
    ensures s.size_ + 1 <= s.Capacity() && s.Data()[s.size_] == Live(0)
    ensures (Text(s), o) == Step(op, old(Text(s)), s.reallocates, s.buffered.Length)
  {
    match op
    case EraseOp(index, count) => Erase(s, index, count); o := Ok;
    case PopBackOp => PopBack(s); o := Ok;
    case ClearOp => Clear(s); o := Ok;
    case ResizeOp(_, _) => o := PerformBehind(s, unit, op);
    case AppendOp(_) => o := PerformBehind(s, unit, op);
    case _ => o := PerformGrowing(s, unit, op);
  }

  // ------------------------------------------------------------ runs over two strings

  datatype Command = First(op: Op) | Second(op: Op) | Exchange

  datatype Texts = Texts(first: seq<CodeUnit>, second: seq<CodeUnit>)

  predicate CanDo(c: Command, firstSize: nat, secondSize: nat, unit: nat, maxSize: nat) {
    match c
    case First(op) => CanCall(op, firstSize, unit, maxSize)
    case Second(op) => CanCall(op, secondSize, unit, maxSize)
    case Exchange => true
  }

  /** One command on the two texts. */
  function StepBoth(c: Command, t: Texts, reallocates: bool, slots: nat): (Texts, Outcome) {
    match c
    case First(op) =>
      var (u, o) := Step(op, t.first, reallocates, slots);
      (t.(first := u), o)
    case Second(op) =>
      var (u, o) := Step(op, t.second, reallocates, slots);
      (t.(second := u), o)
    case Exchange => (Texts(t.second, t.first), Ok)
  }

  function RunBoth(cs: seq<Command>, t: Texts, reallocates: bool, slots: nat): (Texts, seq<Outcome>) {
    if cs == [] then (t, [])
    else
      var (before, outs) := RunBoth(cs[..|cs| - 1], t, reallocates, slots);
      var (after, o) := StepBoth(cs[|cs| - 1], before, reallocates, slots);
      (after, outs + [o])
  }

  /** A command changes the text it names, an exchange both, and its outcome is that of the text's step. */
  lemma {:induction false} CommandsApart(c: Command, t: Texts, reallocates: bool, slots: nat)
    ensures var (u, o) := StepBoth(c, t, reallocates, slots);
            match c
            case First(op) => u.second == t.second && (u.first, o) == Step(op, t.first, reallocates, slots)
            case Second(op) => u.first == t.first && (u.second, o) == Step(op, t.second, reallocates, slots)
            case Exchange => u.first == t.second && u.second == t.first && o == Ok
  {
  }

  /** Every command of a run works on what the ones before it left, and outcome k is its own. */
  lemma {:induction false} RunBothStep(cs: seq<Command>, k: nat, t: Texts, reallocates: bool, slots: nat)
    requires k < |cs|
    ensures |RunBoth(cs, t, reallocates, slots).1| == |cs|
    ensures var (before, _) := RunBoth(cs[..k], t, reallocates, slots);
            var (after, o) := StepBoth(cs[k], before, reallocates, slots);
            && RunBoth(cs[..k + 1], t, reallocates, slots).0 == after
            && RunBoth(cs, t, reallocates, slots).1[k] == o
  {
    RunBothGrows(cs, k, t, reallocates, slots);
    RunBothLength(cs[..k], t, reallocates, slots);
    RunBothLength(cs, t, reallocates, slots);
    if k + 1 < |cs| {
      var n := |cs| - 1;
      RunBothLength(cs[..n], t, reallocates, slots);
      RunBothStep(cs[..n], k, t, reallocates, slots);
      assert cs[..n][..k] == cs[..k] && cs[..n][..k + 1] == cs[..k + 1];
    } else {
      assert cs[..k + 1] == cs;
    }
  }

  lemma {:induction false} RunBothLength(cs: seq<Command>, t: Texts, reallocates: bool, slots: nat)
    ensures |RunBoth(cs, t, reallocates, slots).1| == |cs|
  {
    if cs != [] { RunBothLength(cs[..|cs| - 1], t, reallocates, slots); }
  }

  lemma {:induction false} RunBothGrows(cs: seq<Command>, k: nat, t: Texts, reallocates: bool, slots: nat)
    requires k < |cs|
    ensures var (before, outs) := RunBoth(cs[..k], t, reallocates, slots);
            var (after, o) := StepBoth(cs[k], before, reallocates, slots);
            RunBoth(cs[..k + 1], t, reallocates, slots) == (after, outs + [o])
  {
    assert cs[..k + 1][..k] == cs[..k];
  }

  ghost function Pair(a: Storage<CodeUnit>, b: Storage<CodeUnit>): Texts
    requires Str(a) && Str(b)
    reads a, a.heap, a.buffered, a.dynamic, b, b.heap, b.buffered, b.dynamic
  {
    Texts(Text(a), Text(b))
  }

  /** Both strings are in order and share nothing but the allocator. */
  ghost predicate Both(a: Storage<CodeUnit>, b: Storage<CodeUnit>)
    reads a, a.heap, a.buffered, a.dynamic, b, b.heap, b.buffered, b.dynamic
  {
    Str(a) && Str(b) && ApartStrings(a, b)
  }

  /** An operation on one of two strings. */
  method PerformBeside(s: Storage<CodeUnit>, other: Storage<CodeUnit>, unit: nat, op: Op) returns (o: Outcome)
    requires Both(s, other) && CanCall(op, s.size_, unit, s.MaxSize())
    modifies s, s.buffered, s.dynamic, s.heap`live
    ensures Both(s, other) && BothAccounted(s, other)
    ensures (Text(s), o) == Step(op, old(Text(s)), s.reallocates, s.buffered.Length)
    ensures Text(other) == old(Text(other)) && other.dynamic == old(other.dynamic)
  {
    o := Perform(s, unit, op);
  }

  method PerformBoth(a: Storage<CodeUnit>, b: Storage<CodeUnit>, unit: nat, c: Command) returns (o: Outcome)
    requires Both(a, b) && CanDo(c, a.size_, b.size_, unit, a.MaxSize())
    modifies a, a.buffered, a.dynamic, b, b.buffered, b.dynamic, a.heap`live
    ensures Both(a, b) && BothAccounted(a, b)
    ensures (Pair(a, b), o) == StepBoth(c, old(Pair(a, b)), a.reallocates, a.buffered.Length)
  {
    match c
    case First(op) => o := PerformBeside(a, b, unit, op);
    case Second(op) => o := PerformBeside(b, a, unit, op);
    case Exchange => Swap(a, b); o := Ok;
  }

  /** One command; what else is allocated stays so. */
  method PerformAmong(a: Storage<CodeUnit>, b: Storage<CodeUnit>, unit: nat, c: Command,
                      ghost others: set<array<Slot<CodeUnit>>>)
    returns (o: Outcome)
    requires Both(a, b) && CanDo(c, a.size_, b.size_, unit, a.MaxSize()) && AccountedBeside(others, a, b)
    modifies a, a.buffered, a.dynamic, b, b.buffered, b.dynamic, a.heap`live
    ensures Both(a, b) && AccountedBeside(others, a, b)
    ensures Known(a, b, a.dynamic) && Known(a, b, b.dynamic)
    ensures (Pair(a, b), o) == StepBoth(c, old(Pair(a, b)), a.reallocates, a.buffered.Length)
  {
    o := PerformBoth(a, b, unit, c);
  }

  /** The run so far has gone by the model. */
  ghost predicate OnTrack(a: Storage<CodeUnit>, b: Storage<CodeUnit>, start: Texts, cs: seq<Command>,
                          outs: seq<Outcome>)
    requires Both(a, b) && |outs| <= |cs|
    reads a, a.heap, a.buffered, a.dynamic, b, b.heap, b.buffered, b.dynamic
  {
    (Pair(a, b), outs) == RunBoth(cs[..|outs|], start, a.reallocates, a.buffered.Length)
  }

  /** The next command of a run that has gone by the model so far. */
  method PerformNext(a: Storage<CodeUnit>, b: Storage<CodeUnit>, unit: nat, cs: seq<Command>, sofar: seq<Outcome>,
                     ghost start: Texts, ghost others: set<array<Slot<CodeUnit>>>)
    returns (outs: seq<Outcome>)
    requires Both(a, b) && |sofar| < |cs| && CanDo(cs[|sofar|], a.size_, b.size_, unit, a.MaxSize())
    requires OnTrack(a, b, start, cs, sofar) && AccountedBeside(others, a, b)
    modifies a, a.buffered, a.dynamic, b, b.buffered, b.dynamic, a.heap`live
    ensures Both(a, b) && AccountedBeside(others, a, b)
    ensures Known(a, b, a.dynamic) && Known(a, b, b.dynamic)
    ensures |outs| == |sofar| + 1 && OnTrack(a, b, start, cs, outs)
  {
    RunBothGrows(cs, |sofar|, start, a.reallocates, a.buffered.Length);
    var o := PerformAmong(a, b, unit, cs[|sofar|], others);
    outs := sofar + [o];
  }

  /**
   * A run of commands over two strings, up to the first the caller may not give: both stay
   * in order, their texts and the outcomes are those of the model, and no block is lost.
   */
  method PerformAll(a: Storage<CodeUnit>, b: Storage<CodeUnit>, unit: nat, cs: seq<Command>)
    returns (outs: seq<Outcome>)
    requires Both(a, b)
    modifies a, a.buffered, a.dynamic, b, b.buffered, b.dynamic, a.heap`live
    ensures Both(a, b) && BothAccounted(a, b)
    ensures a.size_ + 1 <= a.Capacity() && a.Data()[a.size_] == Live(0)
    ensures b.size_ + 1 <= b.Capacity() && b.Data()[b.size_] == Live(0)
    ensures |outs| <= |cs|
    ensures |outs| == |cs| || !CanDo(cs[|outs|], a.size_, b.size_, unit, a.MaxSize())
    ensures (Pair(a, b), outs) == RunBoth(cs[..|outs|], old(Pair(a, b)), a.reallocates, a.buffered.Length)
  {
    outs := [];
    ghost var start := Pair(a, b);
    ghost var others := a.heap.live - a.Owned() - b.Owned();
    while |outs| < |cs| && CanDo(cs[|outs|], a.size_, b.size_, unit, a.MaxSize())
      invariant |outs| <= |cs| && Both(a, b) && AccountedBeside(others, a, b)
      invariant Known(a, b, a.dynamic) && Known(a, b, b.dynamic)
      invariant OnTrack(a, b, start, cs, outs)
      decreases |cs| - |outs|
    {
      outs := PerformNext(a, b, unit, cs, outs, start, others);
    }
  }

  // ------------------------------------------------------------------ whole lives

  /** uninitialized_construct: a string of `t`, or no string at all. */
  method Construct(heap: Heap<CodeUnit>, element: Element, bits: nat, reallocates: bool, capacity: nat, unit: nat,
                   t: seq<CodeUnit>)
    returns (s: Storage<CodeUnit>, o: Outcome)
    requires heap.trivial && UnitSize(unit) && |t| < MaxOf(bits)
    requires bits == 8 || bits == 16 || bits == 32
    requires reallocates ==> bits == 32 && Bytes(|t| + 1, unit) + 8 < UINT32
    requires 0 < capacity <= MaxOf(bits)
    modifies heap`live
    ensures fresh(s) && fresh(s.buffered) && (s.dynamic == null || fresh(s.dynamic))
    ensures s.heap == heap && s.bits == bits && s.reallocates == reallocates && s.buffered.Length == capacity
    ensures heap.live == old(heap.live) + s.Owned()
    ensures o == if !reallocates && |t| + 1 > capacity then LengthError else Ok
    ensures o == Ok ==> Str(s) && Text(s) == t
    ensures o == Ok && |t| + 1 <= capacity ==> s.active == Buffered
    ensures o == Ok ==> s.Capacity() == if |t| + 1 <= capacity then capacity else StringGrowth(|t| + 1, unit)
    ensures o != Ok ==> s.Owned() == {}
  {
    s := new Storage(heap, element, bits, reallocates, capacity);
    o := Ok;
    var rawSize := RawSize(s, |t|);
    if s.buffered.Length < rawSize {
      if reallocates {
        ConstructInBlock(s, unit, t, rawSize);
      } else {
        o := LengthError;
      }
    } else {
      WriteText(s.buffered, t);
      s.SetSize(|t|);
      HeldText(s, t);
    }
  }

  method ConstructInBlock(s: Storage<CodeUnit>, unit: nat, t: seq<CodeUnit>, rawSize: nat)
    requires s.Shape() && s.active == Buffered && s.heap.trivial && s.reallocates && s.bits == 32
    requires UnitSize(unit) && Bytes(rawSize, unit) + 8 < UINT32
    requires s.buffered.Length < rawSize == |t| + 1
    modifies s, s.heap`live
    ensures Str(s) && Text(s) == t && fresh(s.dynamic) && s.heap.live == old(s.heap.live) + s.Owned()
    ensures s.Capacity() == StringGrowth(rawSize, unit)
  {
    GrowthRoom(rawSize, unit);
    var block := s.heap.AllocateGranted(StringGrowth(rawSize, unit));
    WriteText(block, t);
    s.dynamic := block;
    s.active := Dynamic;
    s.SetSize(|t|);
    HeldText(s, t);
  }

  /** The end of a string's life: units need no destruction. */
  method Release(s: Storage<CodeUnit>)
    requires Str(s)
    modifies s.heap`live
    ensures s.heap.live == old(s.heap.live) - s.Owned()
  {
    if s.active == Dynamic { s.heap.Deallocate(s.dynamic); }
  }

  /** A second string of the kind of the first. */
  method ConstructBeside(a: Storage<CodeUnit>, unit: nat, t: seq<CodeUnit>) returns (b: Storage<CodeUnit>, o: Outcome)
    requires Str(a) && UnitSize(unit) && |t| < a.MaxSize()
    requires a.reallocates ==> Bytes(|t| + 1, unit) + 8 < UINT32
    modifies a.heap`live
    ensures Str(a) && Text(a) == old(Text(a)) && fresh(b) && fresh(b.buffered)
    ensures b.heap == a.heap && a.heap.live == old(a.heap.live) + b.Owned()
    ensures b.dynamic == null || fresh(b.dynamic)
    ensures o == if !a.reallocates && |t| + 1 > a.buffered.Length then LengthError else Ok
    ensures o == Ok ==> Both(a, b) && Text(b) == t
    ensures o != Ok ==> b.Owned() == {}
  {
    b, o := Construct(a.heap, a.element, a.bits, a.reallocates, a.buffered.Length, unit, t);
  }

  method WorkAndRelease(a: Storage<CodeUnit>, b: Storage<CodeUnit>, unit: nat, cs: seq<Command>)
    returns (outs: seq<Outcome>, ghost texts: Texts)
    requires Both(a, b)
    modifies a, a.buffered, a.dynamic, b, b.buffered, b.dynamic, a.heap`live
    ensures a.heap.live == old(a.heap.live) - old(a.Owned()) - old(b.Owned())
    ensures |outs| <= |cs|
    ensures (texts, outs) == RunBoth(cs[..|outs|], old(Pair(a, b)), a.reallocates, a.buffered.Length)
    ensures |outs| == |cs| || !CanDo(cs[|outs|], |texts.first|, |texts.second|, unit, a.MaxSize())
  {
    outs := PerformAll(a, b, unit, cs);
    texts := Pair(a, b);
    Release(b);
    Release(a);
  }

  /** Two strings are made, worked on and released: nothing of them stays allocated. */
  method WholeLife(element: Element, bits: nat, reallocates: bool, capacity: nat, unit: nat, t: Texts, cs: seq<Command>)
    returns (heap: Heap<CodeUnit>, outs: seq<Outcome>, ghost texts: Texts)
    requires UnitSize(unit) && |t.first| < MaxOf(bits) && |t.second| < MaxOf(bits)
    requires bits == 8 || bits == 16 || bits == 32
    requires reallocates ==>
      bits == 32 && Bytes(|t.first| + 1, unit) + 8 < UINT32 && Bytes(|t.second| + 1, unit) + 8 < UINT32
    requires 0 < capacity <= MaxOf(bits)
    ensures heap.live == {}
    ensures |outs| <= |cs|
    ensures reallocates || (|t.first| < capacity && |t.second| < capacity) ==>
      && (texts, outs) == RunBoth(cs[..|outs|], t, reallocates, capacity)
      && (|outs| == |cs| || !CanDo(cs[|outs|], |texts.first|, |texts.second|, unit, MaxOf(bits)))
  {
    heap := new Heap(true);
    outs := [];
    texts := t;
    var a, o := Construct(heap, element, bits, reallocates, capacity, unit, t.first);
    if o == Ok {
      var b, p := ConstructBeside(a, unit, t.second);
      if p == Ok {
        outs, texts := WorkAndRelease(a, b, unit, cs);
      } else {
        Release(a);
      }
    }
  }
}

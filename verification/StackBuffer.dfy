/**
 * The footer-linked byte stack of include/small_vectors/interprocess/stack_buffer.h,
 * used by one thread.
 */
module StackBuffer {

  type Byte = b: nat | b < 256

  datatype Option<+T> = None | Some(value: T)

  /** The range of std::size_t. */
  const SIZE_T: nat := 0x1_0000_0000_0000_0000

  /** sizeof(footer_data_t) */
  const FOOTER: nat := 8

  // -------------------------------------------------------------- footer encoding

  function Pow256(k: nat): (r: nat)
    ensures r >= 1
  {
    if k == 0 then 1 else 256 * Pow256(k - 1)
  }

  /** The bytes of `n`, lowest first. */
  function ToBytes(n: nat, k: nat): (r: seq<Byte>)
    ensures |r| == k
  {
    if k == 0 then [] else [n % 256] + ToBytes(n / 256, k - 1)
  }

  function FromBytes(b: seq<Byte>): nat {
    if b == [] then 0 else b[0] + 256 * FromBytes(b[1..])
  }

  /** bit_cast from an integer to its bytes and back is the identity. */
  lemma {:induction false} BytesRoundTrip(n: nat, k: nat)
    requires n < Pow256(k)
    ensures FromBytes(ToBytes(n, k)) == n
  {
    if k > 0 {
      assert n / 256 < Pow256(k - 1);
      BytesRoundTrip(n / 256, k - 1);
      assert ToBytes(n, k)[1..] == ToBytes(n / 256, k - 1);
    }
  }

  lemma {:induction false} FromBytesBound(b: seq<Byte>)
    ensures FromBytes(b) < Pow256(|b|)
  {
    if b != [] { FromBytesBound(b[1..]); }
  }

  lemma {:induction false} FooterRange()
    ensures Pow256(FOOTER) == SIZE_T
  {
    assert Pow256(4) == 0x1_0000_0000;
    assert Pow256(6) == 0x1_0000_0000_0000;
  }

  // ----------------------------------------------------------- reading the blocks

  /** The size in the footer below `ix`. */
  function FooterSize(bytes: seq<Byte>, ix: nat): nat
    requires FOOTER <= ix <= |bytes|
  {
    FromBytes(bytes[ix - FOOTER..ix])
  }

  function Appended(blocks: Option<seq<seq<Byte>>>, block: seq<Byte>): Option<seq<seq<Byte>>> {
    if blocks == None then None else Some(blocks.value + [block])
  }

  /** Walks the footers from `ix` down to 0 and returns the blocks, oldest first. */
  function Parse(bytes: seq<Byte>, ix: nat): (r: Option<seq<seq<Byte>>>)
    requires ix <= |bytes|
  {
    if ix == 0 then Some([])
    else if ix < FOOTER then None
    else
      var size := FooterSize(bytes, ix);
      if size > ix - FOOTER then None
      else Appended(Parse(bytes, ix - FOOTER - size), bytes[ix - FOOTER - size..ix - FOOTER])
  }

  /** What a list of blocks takes up, footers included. */
  function Extent(blocks: seq<seq<Byte>>): nat {
    if blocks == [] then 0
    else Extent(blocks[..|blocks| - 1]) + |blocks[|blocks| - 1]| + FOOTER
  }

  lemma {:induction false} ExtentAppend(blocks: seq<seq<Byte>>, b: seq<Byte>)
    ensures Extent(blocks + [b]) == Extent(blocks) + |b| + FOOTER
  {
    assert (blocks + [b])[..|blocks|] == blocks;
  }

  /** The index is the sum of the block lengths and their footers. */
  lemma {:induction false} ParseExtent(bytes: seq<Byte>, ix: nat)
    requires ix <= |bytes| && Parse(bytes, ix).Some?
    ensures Extent(Parse(bytes, ix).value) == ix
  {
    if ix > 0 {
      var size := FooterSize(bytes, ix);
      ParseExtent(bytes, ix - FOOTER - size);
      ExtentAppend(Parse(bytes, ix - FOOTER - size).value, bytes[ix - FOOTER - size..ix - FOOTER]);
    }
  }

  lemma {:induction false} SliceLocal(b1: seq<Byte>, b2: seq<Byte>, ix: nat, lo: nat, hi: nat)
    requires ix <= |b1| && ix <= |b2| && b1[..ix] == b2[..ix]
    requires lo <= hi <= ix
    ensures b1[lo..hi] == b2[lo..hi]
  {
    assert b1[lo..hi] == b1[..ix][lo..hi] == b2[..ix][lo..hi];
  }

  /** Only the bytes below the index matter. */
  lemma {:induction false} ParseLocal(b1: seq<Byte>, b2: seq<Byte>, ix: nat)
    requires ix <= |b1| && ix <= |b2| && b1[..ix] == b2[..ix]
    ensures Parse(b1, ix) == Parse(b2, ix)
  {
    if ix >= FOOTER {
      SliceLocal(b1, b2, ix, ix - FOOTER, ix);
      var size := FooterSize(b1, ix);
      if size <= ix - FOOTER {
        var below := ix - FOOTER - size;
        SliceLocal(b1, b2, ix, 0, below);
        ParseLocal(b1, b2, below);
        SliceLocal(b1, b2, ix, below, ix - FOOTER);
      }
    }
  }

  lemma {:induction false} FooterWritten(bytes: seq<Byte>, top: nat, n: nat)
    requires FOOTER <= top <= |bytes| && n < SIZE_T
    requires bytes[top - FOOTER..top] == ToBytes(n, FOOTER)
    ensures FooterSize(bytes, top) == n
  {
    FooterRange();
    BytesRoundTrip(n, FOOTER);
  }

  lemma {:induction false} ParseOne(bytes: seq<Byte>, top: nat, size: nat)
    requires FOOTER + size <= top <= |bytes| && FooterSize(bytes, top) == size
    ensures Parse(bytes, top) ==
      Appended(Parse(bytes, top - FOOTER - size), bytes[top - FOOTER - size..top - FOOTER])
  {
  }

  /** Writing a block and its footer at the index extends the parse by that block. */
  lemma {:induction false} ParseAppend(was: seq<Byte>, now: seq<Byte>, ix: nat, data: seq<Byte>)
    requires |was| == |now| && ix + |data| + FOOTER <= |was|
    requires Parse(was, ix).Some?
    requires now[..ix] == was[..ix]
    requires now[ix..ix + |data|] == data
    requires FooterSize(now, ix + |data| + FOOTER) == |data|
    ensures Parse(now, ix + |data| + FOOTER) == Some(Parse(was, ix).value + [data])
  {
    var top := ix + |data| + FOOTER;
    ParseOne(now, top, |data|);
    ParseLocal(was, now, ix);
  }

  /** Whether a block is added can be told from the index. */
  lemma {:induction false} PushParsed(bytes: seq<Byte>, cap: nat, index: nat, data: seq<Byte>)
    requires index <= |bytes| && Parse(bytes, index).Some?
    ensures var blocks := Parse(bytes, index).value;
            PushModel(blocks, cap, data) ==
              if index + |data| + FOOTER <= cap then (blocks + [data], Succeed)
              else (blocks, if |data| > cap then LogicErrorNotEnoughSpace else ErrorNotEnoughSpace)
  {
    ParseExtent(bytes, index);
  }

  /** Only the current index of a stack of blocks removes one, and then the last. */
  lemma {:induction false} PopParsed(bytes: seq<Byte>, cap: nat, index: nat, ix: nat, size: nat, next: nat)
    requires index <= |bytes| && Parse(bytes, index).Some?
    requires ix == index > 0 ==> FOOTER <= ix && size == FooterSize(bytes, ix) && Lowered(ix, size, next)
    requires |bytes| < SIZE_T
    ensures var blocks := Parse(bytes, index).value;
            if ix == index > 0 then
              && next <= index
              && Parse(bytes, next) == Some(Step(blocks, cap, Pop(ix)).0)
              && Step(blocks, cap, Pop(ix)).1 == Popped(true)
            else
              Step(blocks, cap, Pop(ix)) == (blocks, Popped(false))
  {
    ParseExtent(bytes, index);
    if ix == index > 0 { ParseLast(bytes, index); }
  }

  /** Below the last block the others are found. */
  lemma {:induction false} ParseLast(bytes: seq<Byte>, ix: nat)
    requires 0 < ix <= |bytes| && Parse(bytes, ix).Some?
    ensures FOOTER <= ix && Parse(bytes, ix).value != []
    ensures var size := FooterSize(bytes, ix);
            var blocks := Parse(bytes, ix).value;
            && size + FOOTER <= ix
            && Parse(bytes, ix - size - FOOTER) == Some(blocks[..|blocks| - 1])
  {
    var size := FooterSize(bytes, ix);
    var below := Parse(bytes, ix - FOOTER - size).value;
    assert (below + [bytes[ix - FOOTER - size..ix - FOOTER]])[..|below|] == below;
  }

  // --------------------------------------------------------------- the list model

  datatype PushStatus = ErrorStackChanged | ErrorNotEnoughSpace | LogicErrorNotEnoughSpace | Succeed

  datatype Op = Push(data: seq<Byte>) | Top | Pop(index: nat)

  datatype Answer = Pushed(status: PushStatus) | Seen(data: seq<Byte>, index: nat) | Popped(ok: bool)

  /** Adding a block to a stack of at most `cap` bytes. */
  function PushModel(blocks: seq<seq<Byte>>, cap: nat, data: seq<Byte>): (seq<seq<Byte>>, PushStatus) {
    if Extent(blocks) + |data| + FOOTER <= cap then (blocks + [data], Succeed)
    else (blocks, if |data| > cap then LogicErrorNotEnoughSpace else ErrorNotEnoughSpace)
  }

  /** The stack of blocks that the bytes stand for, one operation at a time. */
  function Step(blocks: seq<seq<Byte>>, cap: nat, op: Op): (seq<seq<Byte>>, Answer) {
    match op
    case Push(data) =>
      var (after, status) := PushModel(blocks, cap, data);
      (after, Pushed(status))
    case Top =>
      (blocks, if blocks == [] then Seen([], 0) else Seen(blocks[|blocks| - 1], Extent(blocks)))
    case Pop(index) =>
      if blocks != [] && index == Extent(blocks) then (blocks[..|blocks| - 1], Popped(true))
      else (blocks, Popped(false))
  }

  function Run(blocks: seq<seq<Byte>>, cap: nat, ops: seq<Op>): (seq<seq<Byte>>, seq<Answer>) {
    if ops == [] then (blocks, [])
    else
      var (before, answers) := Run(blocks, cap, ops[..|ops| - 1]);
      var (after, answer) := Step(before, cap, ops[|ops| - 1]);
      (after, answers + [answer])
  }

  /** `next` is `ix` less a block of `size` bytes and its footer, in the range of std::size_t. */
  predicate Lowered(ix: nat, size: nat, next: nat) {
    && next < SIZE_T
    && (next + size + FOOTER == ix || next + size + FOOTER == ix + SIZE_T || next + size + FOOTER == ix + 2 * SIZE_T)
  }

  // -------------------------------------------------------------------- the buffer

  class Stack {
    const capacity: nat
    const buffer: array<Byte>
    var index: nat

    ghost predicate Valid()
      reads this, buffer
    {
      && buffer.Length == capacity + FOOTER < SIZE_T
      && index <= capacity
      && Parse(buffer[..], index).Some?
    }

    /** The blocks on the stack, oldest first. */
    ghost function Blocks(): seq<seq<Byte>>
      requires Valid()
      reads this, buffer
    {
      Parse(buffer[..], index).value
    }

    constructor (cap: nat)
      requires cap + FOOTER < SIZE_T
      ensures Valid() && fresh(buffer)
      ensures capacity == cap && Blocks() == [] && index == 0
    {
      capacity := cap;
      buffer := new Byte[cap + FOOTER](_ => 0);
      index := 0;
    }

    method Empty() returns (r: bool)
      requires Valid()
      ensures r <==> Blocks() == []
    {
      r := index == 0;
    }

    /** Copies `data` to the buffer from `at` on and returns the position behind it. */
    method CopyBytes(data: seq<Byte>, at: nat) returns (end: nat)
      requires at + |data| <= buffer.Length
      modifies buffer
      ensures end == at + |data|
      ensures buffer[..][..at] == old(buffer[..])[..at]
      ensures buffer[..][at..end] == data
    {
      end := at;
      while end < at + |data|
        invariant at <= end <= at + |data|
        invariant forall i :: 0 <= i < at ==> buffer[i] == old(buffer[i])
        invariant forall i :: at <= i < end ==> buffer[i] == data[i - at]
      {
        buffer[end] := data[end - at];
        end := end + 1;
      }
    }

    /** Writes a block and its footer above the current index. */
    method WriteBlock(data: seq<Byte>)
      requires index + |data| + FOOTER <= buffer.Length && |data| < SIZE_T
      modifies buffer
      ensures buffer[..][..index] == old(buffer[..])[..index]
      ensures buffer[..][index..index + |data|] == data
      ensures FooterSize(buffer[..], index + |data| + FOOTER) == |data|
    {
      var end := CopyBytes(data, index);
      ghost var mid := buffer[..];
      var top := CopyBytes(ToBytes(|data|, FOOTER), end);
      SliceLocal(buffer[..], mid, end, 0, index);
      SliceLocal(buffer[..], mid, end, index, end);
      FooterWritten(buffer[..], top, |data|);
    }

    /** A block that fits is written and the index moved above it. */
    method AddBlock(data: seq<Byte>)
      requires Valid() && index + |data| + FOOTER <= capacity
      modifies this`index, buffer
      ensures Valid() && Blocks() == old(Blocks()) + [data]
      ensures index == old(index) + |data| + FOOTER
    {
      ghost var was := buffer[..];
      WriteBlock(data);
      ParseAppend(was, buffer[..], index, data);
      index := index + |data| + FOOTER;
    }

    /** The sizes of a block without and with its footer, in the width of std::size_t. */
    method Sizes(data: seq<Byte>) returns (dataSize: nat, blockSize: nat)
      requires FOOTER + |data| < SIZE_T
      ensures dataSize == |data| && blockSize == FOOTER + |data|
    {
      dataSize := |data| % SIZE_T;
      blockSize := (FOOTER + dataSize) % SIZE_T;
    }

    method Push(data: seq<Byte>) returns (status: PushStatus)
      requires Valid() && FOOTER + |data| < SIZE_T
      modifies this`index, buffer
      ensures Valid()
      ensures (Blocks(), status) == PushModel(old(Blocks()), capacity, data)
      ensures Blocks() == old(Blocks()) + (if status == Succeed then [data] else [])
      ensures status == Succeed <==> old(index) + |data| + FOOTER <= capacity
      ensures status == LogicErrorNotEnoughSpace <==> |data| > capacity
      ensures status != ErrorStackChanged
      ensures status == Succeed ==> index == old(index) + |data| + FOOTER
      ensures status != Succeed ==> index == old(index) && buffer[..] == old(buffer[..])
    {
      PushParsed(buffer[..], capacity, index, data);
      var dataSize, blockSize := Sizes(data);
      var freeSpace := capacity - index;
      if blockSize > freeSpace {
        if dataSize > capacity {
          return LogicErrorNotEnoughSpace;
        } else {
          return ErrorNotEnoughSpace;
        }
      }
      AddBlock(data);
      return Succeed;
    }

    method Top() returns (data: seq<Byte>, ix: nat)
      requires Valid()
      ensures Blocks() == [] ==> data == [] && ix == 0
      ensures Blocks() != [] ==> data == Blocks()[|Blocks()| - 1] && ix == index == Extent(Blocks()) >= FOOTER
    {
      ParseExtent(buffer[..], index);
      if index != 0 {
        var size := FromBytes(buffer[index - FOOTER..index]);
        assert buffer[..][index - FOOTER..index] == buffer[index - FOOTER..index];
        data := buffer[index - FOOTER - size..index - FOOTER];
        ix := index;
      } else {
        data, ix := [], 0;
      }
    }

    /** The index below a block of `size` bytes; it wraps around where there is no such block. */
    method Below(ix: nat, size: nat) returns (next: nat)
      requires ix < SIZE_T && size < SIZE_T
      ensures Lowered(ix, size, next)
    {
      next := (ix - size - FOOTER) % SIZE_T;
      ghost var turns := (ix - size - FOOTER) / SIZE_T;
      assert ix - size - FOOTER == turns * SIZE_T + next;
    }

    /** footer_from_index; what lies outside the buffer may be anything. */
    method FooterAt(ix: nat) returns (size: nat)
      requires buffer.Length == capacity + FOOTER
      ensures size < SIZE_T
      ensures FOOTER <= ix <= capacity ==> size == FooterSize(buffer[..], ix)
    {
      if FOOTER <= ix <= capacity + FOOTER {
        size := FromBytes(buffer[ix - FOOTER..ix]);
        FromBytesBound(buffer[ix - FOOTER..ix]);
        FooterRange();
        assert buffer[..][ix - FOOTER..ix] == buffer[ix - FOOTER..ix];
      } else {
        size := *;
        size := size % SIZE_T;
      }
    }

    /**
     * Any index is compared with the current one. It removes the last block exactly if it is
     * the current one and there is a block: the index 0 that a top of an empty stack
     * returns is accepted too, and replaced by whatever lies before the buffer.
     */
    method Pop(ix: nat) returns (ok: bool)
      requires Valid() && ix < SIZE_T
      modifies this`index
      ensures ok <==> ix == old(index)
      ensures !ok ==> index == old(index)
      ensures !(ix == 0 == old(index)) ==>
        Valid() && (Blocks(), Popped(ok)) == Step(old(Blocks()), capacity, Op.Pop(ix))
      ensures ok && ix > 0 ==> old(Blocks()) != [] && Blocks() == old(Blocks())[..|old(Blocks())| - 1]
      ensures !ok ==> Blocks() == old(Blocks())
      ensures ix == 0 == old(index) ==> exists size: nat :: size < SIZE_T && Lowered(0, size, index)
    {
      ghost var bytes := buffer[..];
      if index > 0 { ParseLast(bytes, index); }
      var size := FooterAt(ix);
      var nextIndex := Below(ix, size);
      PopParsed(bytes, capacity, index, ix, size, nextIndex);
      if ix == index {
        index := nextIndex;
        return true;
      } else {
        return false;
      }
    }

    /** A caller may do anything but pop from an empty stack with the index it returned. */
    predicate CanDo(op: Op)
      reads this
    {
      match op
      case Push(data) => FOOTER + |data| < SIZE_T
      case Top => true
      case Pop(ix) => ix < SIZE_T && !(ix == 0 == index)
    }

    method PerformOne(op: Op) returns (answer: Answer)
      requires Valid() && CanDo(op)
      modifies this`index, buffer
      ensures Valid()
      ensures (Blocks(), answer) == Step(old(Blocks()), capacity, op)
    {
      match op
      case Push(data) =>
        var status := Push(data);
        answer := Pushed(status);
      case Top =>
        var data, ix := Top();
        answer := Seen(data, ix);
      case Pop(ix) =>
        var ok := Pop(ix);
        answer := Popped(ok);
    }

    /** Any run of operations, up to the first a caller may not do, answers as the list of blocks does. */
    method Perform(ops: seq<Op>) returns (answers: seq<Answer>)
      requires Valid()
      modifies this`index, buffer
      ensures Valid() && |answers| <= |ops|
      ensures |answers| == |ops| || !CanDo(ops[|answers|])
      ensures |answers| < |ops| ==>
        match ops[|answers|]
        case Push(data) => FOOTER + |data| >= SIZE_T
        case Top => false
        case Pop(ix) => ix >= SIZE_T || ix == 0 == index
      ensures (Blocks(), answers) == Run(old(Blocks()), capacity, ops[..|answers|])
    {
      answers := [];
      ghost var start := Blocks();
      while |answers| < |ops| && CanDo(ops[|answers|])
        invariant |answers| <= |ops| && Valid()
        invariant (Blocks(), answers) == Run(start, capacity, ops[..|answers|])
        decreases |ops| - |answers|
      {
        assert ops[..|answers| + 1][..|answers|] == ops[..|answers|];
        var answer := PerformOne(ops[|answers|]);
        answers := answers + [answer];
      }
    }
  }

  // -------------------------------------------------------- properties of all runs

  lemma {:induction false} RunLength(blocks: seq<seq<Byte>>, cap: nat, ops: seq<Op>)
    ensures |Run(blocks, cap, ops).1| == |ops|
  {
    if ops != [] { RunLength(blocks, cap, ops[..|ops| - 1]); }
  }

  /** Every operation of a run works on what the ones before it left, and answer k is its own. */
  lemma {:induction false} RunStep(blocks: seq<seq<Byte>>, cap: nat, ops: seq<Op>, k: nat)
    requires k < |ops|
    ensures |Run(blocks, cap, ops).1| == |ops|
    ensures var (after, answer) := Step(Run(blocks, cap, ops[..k]).0, cap, ops[k]);
            && Run(blocks, cap, ops[..k + 1]).0 == after
            && Run(blocks, cap, ops).1[k] == answer
  {
    RunLength(blocks, cap, ops);
    RunLength(blocks, cap, ops[..|ops| - 1]);
    assert ops[..k + 1][..k] == ops[..k];
    if k + 1 < |ops| {
      var n := |ops| - 1;
      RunStep(blocks, cap, ops[..n], k);
      assert ops[..n][..k] == ops[..k] && ops[..n][..k + 1] == ops[..k + 1];
    } else {
      assert ops[..k + 1] == ops;
    }
  }

  /** No run ever fills more than the capacity. */
  lemma {:induction false} RunFits(blocks: seq<seq<Byte>>, cap: nat, ops: seq<Op>)
    requires Extent(blocks) <= cap
    ensures Extent(Run(blocks, cap, ops).0) <= cap
  {
    if ops != [] {
      RunFits(blocks, cap, ops[..|ops| - 1]);
      var before := Run(blocks, cap, ops[..|ops| - 1]).0;
      match ops[|ops| - 1]
      case Push(data) => ExtentAppend(before, data);
      case Top =>
      case Pop(index) =>
        if before != [] { assert Extent(before[..|before| - 1]) <= Extent(before); }
    }
  }

  /** What is pushed is what the next top shows, and popping it restores the stack. */
  lemma {:induction false} PushTopPop(blocks: seq<seq<Byte>>, cap: nat, data: seq<Byte>)
    requires PushModel(blocks, cap, data).1 == Succeed
    ensures var pushed := PushModel(blocks, cap, data).0;
            var seen := Step(pushed, cap, Top).1;
            && seen == Seen(data, Extent(blocks) + |data| + FOOTER)
            && Step(pushed, cap, Pop(seen.index)) == (blocks, Popped(true))
  {
    ExtentAppend(blocks, data);
    assert (blocks + [data])[..|blocks|] == blocks;
  }

  /**
   * The documentation says that the logic error means a block that can never fit. A block
   * fits no stack at all exactly when block and footer exceed the capacity; it is reported
   * so on every stack exactly when the block alone does, and on none otherwise. The blocks
   * in between are always refused as if for a passing shortage.
   */
  lemma {:induction false} NeverFitsReport(cap: nat, data: seq<Byte>)
    ensures (forall blocks :: PushModel(blocks, cap, data).1 != Succeed) <==> |data| + FOOTER > cap
    ensures (forall blocks :: Extent(blocks) <= cap ==> PushModel(blocks, cap, data).1 == LogicErrorNotEnoughSpace)
      <==> |data| > cap
    ensures (exists blocks :: PushModel(blocks, cap, data).1 == LogicErrorNotEnoughSpace) <==> |data| > cap
    ensures cap < |data| + FOOTER <= cap + FOOTER ==>
      forall blocks :: PushModel(blocks, cap, data).1 == ErrorNotEnoughSpace
  {
    var none: seq<seq<Byte>> := [];
    assert Extent(none) == 0;
    assert PushModel(none, cap, data).1 == Succeed <==> |data| + FOOTER <= cap;
    if |data| > cap {
      assert PushModel(none, cap, data).1 == LogicErrorNotEnoughSpace;
    }
  }

  /**
   * Popping an empty stack with the index 0 its top returned leaves it empty for one content
   * only of the bytes before the buffer.
   */
  lemma {:induction false} EmptyPop(size: nat, next: nat)
    requires size < SIZE_T && Lowered(0, size, next)
    ensures next == 0 <==> size == SIZE_T - FOOTER
  {
  }

  /** A pop accepts a stale index when another block of the same length has taken its place. */
  lemma {:induction false} StaleIndexAccepted(blocks: seq<seq<Byte>>, cap: nat, a: seq<Byte>, b: seq<Byte>)
    requires |a| == |b| && PushModel(blocks, cap, a).1 == Succeed
    ensures var seen := Step(PushModel(blocks, cap, a).0, cap, Top).1;
            && seen.Seen? && seen.data == a
            && Step(PushModel(blocks, cap, b).0, cap, Pop(seen.index)) == (blocks, Popped(true))
  {
    PushTopPop(blocks, cap, a);
    PushTopPop(blocks, cap, b);
  }
}

/** The buffered or dynamic storage of include/small_vectors/detail/vector_storage.h. */
module VectorStorage {
  import opened Slots
  import opened GrowthPolicy

  /** The allocator: which blocks are allocated and not yet freed. */
  class Heap<T> {
    /** The element type has no destructor to run. */
    const trivial: bool
    ghost var live: set<array<Slot<T>>>
    /** How many requests were refused. */
    ghost var refusals: nat

    constructor (trivial: bool)
      ensures this.trivial == trivial && live == {}
    {
      this.trivial := trivial;
      live := {};
      refusals := 0;
    }

    /** sv_allocate: raw memory, or null when there is none. */
    method Allocate(capacity: nat) returns (block: array?<Slot<T>>)
      modifies this
      ensures refusals == old(refusals) + (if block == null then 1 else 0)
      ensures block == null ==> live == old(live)
      ensures block != null ==> fresh(block) && live == old(live) + {block}
      ensures block != null ==> block.Length == capacity && RawRange(block, 0, capacity)
    {
      var exhausted := *;
      if exhausted {
        block := null;
        refusals := refusals + 1;
      } else {
        block := new Slot<T>[capacity](_ => Raw);
        live := live + {block};
      }
    }

    /** sv_allocate where the caller does not look at the answer: memory is there. */
    method AllocateGranted(capacity: nat) returns (block: array<Slot<T>>)
      modifies this`live
      ensures fresh(block) && live == old(live) + {block}
      ensures block.Length == capacity && RawRange(block, 0, capacity)
    {
      block := new Slot<T>[capacity](_ => Raw);
      live := live + {block};
    }

    /** sv_deallocate: only a live block, and none that still holds objects. */
    method Deallocate(block: array<Slot<T>>)
      requires block in live
      requires trivial || RawRange(block, 0, block.Length)
      modifies this`live
      ensures live == old(live) - {block}
    {
      live := live - {block};
    }
  }

  datatype StorageKind = Buffered | Dynamic

  /** small_vector_storage, and static_vector_storage when it cannot reallocate. */
  class Storage<T> {
    const heap: Heap<T>
    const element: Element
    /** What its element type promises. */
    const traits: Traits := element.traits
    /** The width of size_type. */
    const bits: nat
    const reallocates: bool
    /** The in-class buffer. */
    const buffered: array<Slot<T>>
    /** The block the object points to while its storage is dynamic. */
    var dynamic: array?<Slot<T>>
    var active: StorageKind
    var size_: nat

    /** The active member of the union, and a block the allocator knows behind it. */
    ghost predicate Shape()
      reads this, heap
    {
      && (bits == 8 || bits == 16 || bits == 32)
      && 0 < buffered.Length <= MaxOf(bits)
      && buffered !in heap.live
      && (active == Buffered ==> dynamic == null)
      && (active == Dynamic ==>
            && reallocates
            && dynamic != null && dynamic in heap.live
            && buffered.Length < dynamic.Length <= MaxOf(bits))
    }

    /** The memory in use. */
    function Data(): array<Slot<T>>
      requires active == Dynamic ==> dynamic != null
      reads this
    {
      if active == Buffered then buffered else dynamic
    }

    function Capacity(): nat
      requires active == Dynamic ==> dynamic != null
      reads this
    {
      Data().Length
    }

    /** The blocks the object is responsible for. */
    ghost function Owned(): set<array<Slot<T>>>
      reads this
    {
      if active == Dynamic && dynamic != null then {dynamic} else {}
    }

    /** Exactly the first `size_` slots hold objects. */
    ghost predicate Lifetimes()
      requires active == Dynamic ==> dynamic != null
      reads this, buffered, dynamic
    {
      && size_ <= Capacity()
      && BuiltRange(Data(), 0, size_)
      && RawRange(Data(), size_, Capacity())
      && (active == Dynamic ==> RawRange(buffered, 0, buffered.Length))
    }

    /** What every vector operation keeps. */
    ghost predicate Valid()
      reads this, heap, buffered, dynamic
    {
      Shape() && Lifetimes()
    }

    /** max_size */
    function MaxSize(): nat {
      MaxOf(bits)
    }

    /** The elements, the buffer and the block are as they were. */
    twostate predicate Kept()
      requires old(active == Dynamic ==> dynamic != null) && old(size_ <= Capacity())
      requires active == Dynamic ==> dynamic != null
      requires size_ <= Capacity()
      reads this, buffered, dynamic
    {
      && active == old(active) && dynamic == old(dynamic)
      && size_ == old(size_)
      && Slots() == old(Slots())
    }

    /** The request for memory made on the way was refused. */
    twostate predicate Refused()
      reads this, heap
    {
      heap.refusals == old(heap.refusals) + 1
    }

    /** Of all blocks only the object's own were freed and only its new one was allocated. */
    twostate predicate BlocksAccounted()
      reads this, heap
    {
      && heap.live == old(heap.live) - old(Owned()) + Owned()
      && heap.refusals >= old(heap.refusals)
      && (dynamic == old(dynamic) || dynamic == null || fresh(dynamic))
    }

    /** The elements. */
    ghost function Slots(): seq<Slot<T>>
      requires active == Dynamic ==> dynamic != null
      requires size_ <= Capacity()
      reads this, buffered, dynamic
    {
      Data()[..size_]
    }

    constructor (heap: Heap<T>, element: Element, bits: nat, reallocates: bool, capacity: nat)
      requires bits == 8 || bits == 16 || bits == 32
      requires 0 < capacity <= MaxOf(bits)
      ensures this.heap == heap && this.element == element
      ensures this.bits == bits && this.reallocates == reallocates
      ensures fresh(buffered) && buffered.Length == capacity
      ensures active == Buffered && size_ == 0 && dynamic == null
      ensures Valid() && Slots() == []
    {
      this.heap := heap;
      this.element := element;
      this.bits := bits;
      this.reallocates := reallocates;
      buffered := new Slot<T>[capacity](_ => Raw);
      dynamic := null;
      active := Buffered;
      size_ := 0;
    }

    // --------------------------------------------------------------- private moves

    /** exchange_priv_: the new block becomes active; the old one is returned, if any. */
    method Exchange(block: array<Slot<T>>, size: nat) returns (oldBlock: array?<Slot<T>>)
      requires active == Dynamic ==> dynamic != null
      modifies this
      ensures active == Dynamic && dynamic == block && size_ == size
      ensures oldBlock == if old(active) == Dynamic then old(dynamic) else null
    {
      if active == Dynamic {
        size_ := size;
        oldBlock := dynamic;
        dynamic := block;
      } else {
        dynamic := block;
        size_ := size;
        active := Dynamic;
        oldBlock := null;
      }
    }

    /** switch_static_priv_: back to the buffer, handing out the block. */
    method SwitchStatic() returns (block: array<Slot<T>>)
      requires active == Dynamic && dynamic != null
      modifies this
      ensures active == Buffered && dynamic == null && size_ == 0 && block == old(dynamic)
    {
      block := dynamic;
      dynamic := null;
      active := Buffered;
      size_ := 0;
    }

    method SetSize(n: nat)
      modifies this`size_
      ensures size_ == n
    {
      size_ := n;
    }

    /** Makes a filled block the active one and frees what was left behind. */
    method Install(block: array<Slot<T>>, size: nat)
      requires Shape() && reallocates && block in heap.live
      requires block != buffered && block != dynamic
      requires buffered.Length < block.Length <= MaxOf(bits) && size <= block.Length
      requires heap.trivial || RawRange(Data(), 0, Capacity())
      modifies this, heap`live
      ensures Shape() && active == Dynamic && dynamic == block && size_ == size
      ensures heap.live == old(heap.live) - old(Owned())
    {
      var oldBlock := Exchange(block, size);
      if oldBlock != null { heap.Deallocate(oldBlock); }
    }

    /** destroy: the end of the object's life. */
    method Destroy()
      requires Valid()
      modifies this, heap, buffered, dynamic
      ensures heap.live == old(heap.live) - old(Owned())
      ensures RawRange(buffered, 0, buffered.Length)
    {
      DestroyRange(Data(), 0, size_);
      if active == Dynamic { heap.Deallocate(dynamic); }
    }
  }

  /** The block comes from one of the two objects or is new. */
  twostate predicate Known<T>(a: Storage<T>, b: Storage<T>, new block: array?<Slot<T>>) {
    block == null || block == old(a.dynamic) || block == old(b.dynamic) || fresh(block)
  }

  /** Of all blocks only those of the two objects were freed, and only theirs are new. */
  twostate predicate BothAccounted<T>(a: Storage<T>, b: Storage<T>)
    reads a, b, a.heap
  {
    && a.heap.live == old(a.heap.live) - old(a.Owned()) - old(b.Owned()) + a.Owned() + b.Owned()
    && Known(a, b, a.dynamic) && Known(a, b, b.dynamic)
  }

  /** Besides the blocks of the two objects exactly those of `others` are allocated. */
  ghost predicate AccountedBeside<T>(others: set<array<Slot<T>>>, a: Storage<T>, b: Storage<T>)
    reads a, b, a.heap
  {
    && a.heap.live == others + a.Owned() + b.Owned()
    && others !! (a.Owned() + b.Owned())
  }

  /**
   * What order means: objects in the first slots and in no others, within the capacity; and
   * a dynamic storage has a block of its own that the allocator knows, larger than the buffer.
   */
  lemma {:induction false} OrderMeans<T>(s: Storage<T>)
    requires s.Valid()
    ensures s.size_ <= s.Capacity()
    ensures forall i :: 0 <= i < s.Capacity() ==> (s.Data()[i].Raw? <==> i >= s.size_)
    ensures s.active == Dynamic ==>
      s.Data() == s.dynamic && s.dynamic in s.heap.live && s.Capacity() > s.buffered.Length
    ensures s.active == Buffered ==> s.Data() == s.buffered
  {
  }
}

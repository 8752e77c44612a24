# small_vectors in Dafny

A model of the hard parts of the small_vectors C++ container library, and proofs of what
they promise: the Burrows–Wheeler transform, the storage engine behind `small_vector`, the
string operations built on it, the footer-linked byte stack, bit packing and the
bound-leaning search.

| file | what it holds |
|---|---|
| `Sequences.dfy`, `Sorting.dfy`, `Lexicographic.dfy` | permutations, uniqueness of sorted listings, a sort with the contract of `std::ranges::sort`, the order of string views |
| `Bwt.dfy`, `BwtCodec.dfy` | the transform as mathematics, and the encoder and decoder step by step |
| `Slots.dfy` | element lifetimes (raw, moved from, live) and the loops over partly uninitialised memory |
| `Growth.dfy` | capacity growth and its amortised cost |
| `VectorStorage.dfy`, `StorageMoves.dfy` | buffered or dynamic storage, block ownership; move, copy and swap of whole storages |
| `VectorFunc.dfy`, `VectorResize.dfy` | the vector operations |
| `VectorRuns.dfy`, `VectorPairs.dfy` | whole runs on one vector and on two |
| `StringSizes.dfy`, `StringFunc.dfy`, `StringEdit.dfy`, `StringRuns.dfy` | string growth, string operations, search and replace, whole runs on two strings |
| `StackBuffer.dfy` | the byte stack and the list of blocks it stands for |
| `Bits.dfy`, `PackedStruct.dfy` | bit operations as arithmetic; packing and unpacking |
| `LowerBound.dfy` | the bound-leaning search and its comparison count |

Code that updates objects in place is modelled by methods on arrays and on the class
`Storage`; pure code by functions. A constructor or assignment of the element type that may
throw is a free choice at every element, and every throw is counted: an operation reports an
exception exactly when one happened. An allocator that may refuse is a free choice at every
request, counted too. The heap is a ghost set of live blocks: freeing a block that is not live, or
that still holds objects, does not verify; neither does constructing over an object,
assigning to raw memory or destroying it.

## What the code does that its promises do not say

Each of these is proved, with the exact condition where there is one.

- **Round trip with the marker in the text.** Decoding gives back the text exactly when no
  rotation that starts just after a marker inside the text sorts before the marked text
  (`Bwt.RoundTripExact`); `b$` with marker `$` comes back as `$b` (`Bwt.MarkerInTextFails`).
- **A throwing copy can end the program.** `uninitialized_copy_n` is declared noexcept when
  the *default* constructor is, so a copy that throws terminates instead of being undone
  (`Slots.CopyConstructN`).
- **Insert is noexcept for every nothrow-movable type.** Its condition asks for construction
  from the iterator's value type, which is construction by move; the elements are copied. A
  copy that throws during a reallocating insert therefore ends the program exactly when the
  move *or* the default constructor is nothrow (`VectorFunc.InsertGrowing`), and otherwise has
  the strong guarantee. An exception leaves insert only for types whose move constructor may
  throw (`VectorFunc.Insert`). Likewise emplace ends the program when the constructor and the
  move constructor are nothrow and a move assignment throws (`VectorFunc.Emplace`). All types
  for which some operation can end the program are those of `VectorRuns.NeverEnds`.
- **Move assignment copies** unless the type is trivially relocatable or its move *assignment*
  is nothrow, however safe its move constructor. A copy that throws there leaves the target
  counting elements that are destroyed, unless it was empty (`StorageMoves.AssignMove`).
- **Copy assignment that fails** leaves a dynamic target that was too small pointing to freed
  memory, and only such a target (`StorageMoves.AssignCopy`).
- **Swap of a buffered with a dynamic vector** does not destroy the buffered originals, and a
  throwing copy loses the block (`StorageMoves.Swap`). The vector's own swap is noexcept
  without a condition, so there any exception ends the program (`VectorPairs.SwapBoth`).
- **`reserve(max_size)`** is refused even where the capacity is already there
  (`VectorResize.Reserve`).
- **Growth with a 64-bit size type** wraps around; it is sound exactly while nothing wraps,
  apart from one sum (`GrowthPolicy.WideGrowth`). **String growth** is above the request
  exactly while the bytes fit 32 bits (`StringSizes.StringGrowthExceeds`).
- **String `shrink_to_fit`** into another block writes no terminator; the string is in order
  afterwards exactly when that branch is not taken (`StringEdit.ShrinkToFit`).
- **The encoder's table** is a string of twice the marked text; it has room exactly while its
  bytes fit 32 bits, which for four-byte characters ends near 2^29 of them
  (`BwtCodec.TableRoom`).
- **Push status.** `logic_error_not_enough_space` is documented as the block exceeding what
  can ever fit; blocks that only exceed it because of their footer fit no stack either, and
  are always reported as a temporary shortage (`StackBuffer.NeverFitsReport`).
- **Pop of an empty stack** with the index 0 that its top returned succeeds, and the new index
  depends on the bytes before the buffer (`StackBuffer.Stack.Pop`); the stack stays empty for
  one content of them (`StackBuffer.EmptyPop`). Any other index
  removes the last block or changes nothing.
- **Pop with a stale index** succeeds when a block of the same length has taken the place of
  the one seen (`StackBuffer.StaleIndexAccepted`).

## Model

| member | source | states |
|---|---|---|
| Lexicographic.LexTransitive | include/small_vectors/algo/bwt.h:71-73 | the view comparison the encoder sorts by is transitive |
| Lexicographic.LexAntisymmetric | include/small_vectors/algo/bwt.h:71-73 | views that are not less than each other are equal, so ties in the sort are harmless |
| Lexicographic.LexFirstDifference | include/small_vectors/algo/bwt.h:71-73 | the comparison is decided by the first difference, a text coming before what extends it |
| Sequences.OrderedUnique | include/small_vectors/algo/bwt.h:71-73 | a multiset has one ordered listing under an antisymmetric order: the result does not depend on the sorting algorithm |
| Sorting.Sort | include/small_vectors/algo/bwt.h:71-73 | the contract of the library sort: a rearrangement in which no later element is less than an earlier one |
| Bwt.TransformUnique | include/small_vectors/algo/bwt.h:33-87 | the encoder's output is determined by the marked text, for every text, whatever sort is used |
| Bwt.EmittedIsTransform | include/small_vectors/algo/bwt.h:64-83 | the transform in terms of positions: the units just before the starts of the rotations, the starts in the order of the rotations |
| Bwt.TransformPermutes | include/small_vectors/algo/bwt.h:75-83 | the output is a rearrangement of text and marker |
| Bwt.StableSortUnique | include/small_vectors/algo/bwt.h:129-149 | sorted characters and shift table are the only stable sort of the input |
| Bwt.LastToFirst | include/small_vectors/algo/bwt.h:145-158 | the shift table leads from the row of a rotation to the row of the rotation one unit further on |
| Bwt.FirstColumnSorted | include/small_vectors/algo/bwt.h:129-131 | the first column of the sorted rotations is the sorted output |
| Bwt.WalkRotates | include/small_vectors/algo/bwt.h:152-158 | after k steps the decoder stands on the rotation by k of the row it started from |
| Bwt.ReadBackSpellsRow | include/small_vectors/algo/bwt.h:150-163 | the decoder's walk spells the row it started from, short of its last unit |
| Bwt.FirstMarkedRow | include/small_vectors/algo/bwt.h:124-125 | the first occurrence of the marker is in the row of the least rotation that ends in the marker |
| Bwt.DecodeOfTransform | include/small_vectors/algo/bwt.h:33-166 | decoding an encoded text, marker in it or not, yields its least marked rotation without the last unit |
| Bwt.DecodingUnique | include/small_vectors/algo/bwt.h:110-166 | for any input at all the decoder has one possible answer |
| Bwt.DecodingReadOff | include/small_vectors/algo/bwt.h:124-163 | for any input: nothing without a marker; otherwise the units read off the rows met from the first marker on, each found by the stable sorting permutation |
| Bwt.RoundTripExact | include/small_vectors/algo/bwt.h:33-166 | decode after encode is the identity if and only if the marked text is least among its rotations that start behind a marker |
| Bwt.RoundTrip | include/small_vectors/algo/bwt.h:33-166 | every text without the marker, the empty one included, comes back |
| Bwt.MarkerInTextFails | include/small_vectors/algo/bwt.h:33-166 | a concrete text holding the marker that does not come back |
| Bwt.MarkedRotationsDistinct | include/small_vectors/algo/bwt.h:43-73 | a marker that occurs once makes all rotations different |
| Bwt.WalkVisitsAll | include/small_vectors/algo/bwt.h:153-158 | then the decoder's walk visits every row exactly once, from whichever row it starts |
| BwtCodec.BuildTable | include/small_vectors/algo/bwt.h:45-62 | the table, in a block with room for more than both copies, starts with the marked text twice over |
| BwtCodec.TableRoom | include/small_vectors/algo/bwt.h:45-48 | the string the table is grows to a block with room for both copies and the terminator if and only if their bytes fit 32 bits |
| BwtCodec.SortedIndicesSortRotations | include/small_vectors/algo/bwt.h:64-73 | indices sorted by their windows of the table list the rotations in order |
| BwtCodec.EmitLastColumn | include/small_vectors/algo/bwt.h:75-83 | each emitted unit is the last of its rotation |
| BwtCodec.Encode | include/small_vectors/algo/bwt.h:33-87 | the output is the transform of text and marker, the units before the ordered starts of its rotations; nothing for an empty text; for every text whose table can be counted in bytes |
| BwtCodec.FillLists | include/small_vectors/algo/bwt.h:135-141 | the list of each character holds its positions in increasing order |
| BwtCodec.TakeHead | include/small_vectors/algo/bwt.h:145-149 | the list read for a row is never empty, for any input |
| BwtCodec.FifoIsStable | include/small_vectors/algo/bwt.h:129-149 | handing out positions first in first out gives the stable sorting permutation: bijective, sorting, increasing on equal characters |
| BwtCodec.WalkBack | include/small_vectors/algo/bwt.h:150-158 | the index table holds the walk, stored from the back |
| BwtCodec.Decode | include/small_vectors/algo/bwt.h:110-166 | for every input: nothing at all when the marker is missing; otherwise one unit fewer than the input, read off the rows the walk meets |
| BwtCodec.EncodeThenDecode | include/small_vectors/algo/bwt.h:33-166 | both programs in sequence return the text exactly under the guard of the round trip |
| LowerBound.SeparationUnique | include/small_vectors/algo/bound_leaning_lower_bound.h:28-70 | there is one partition point, so the search agrees with any other lower bound |
| LowerBound.PartitionedMeans | include/small_vectors/algo/bound_leaning_lower_bound.h:28-70 | a range is partitioned if and only if it has a partition point |
| LowerBound.Log2Brackets | include/small_vectors/algo/bound_leaning_lower_bound.h:25-70 | the logarithm the bounds are stated in brackets its argument between neighbouring powers of two |
| LowerBound.LeanRight | include/small_vectors/algo/bound_leaning_lower_bound.h:40-54 | the right-leaning loop keeps lesser elements before and no lesser ones behind; what it used and left over stays within the logarithmic budget |
| LowerBound.LeanLeft | include/small_vectors/algo/bound_leaning_lower_bound.h:55-69 | the same for the left-leaning loop |
| LowerBound.HalvingLowerBound | include/small_vectors/algo/bound_leaning_lower_bound.h:70-70 | the final library search: the partition point, on fewer than 2^k elements in at most k calls of the comparison |
| LowerBound.BoundLeaning | include/small_vectors/algo/bound_leaning_lower_bound.h:21-70 | the partition point of every partitioned range; on fewer than 2^k elements in at most k + 1 calls of the comparison, that is floor(log2 n) + 2, and (k - 1) / 2 + 2 when it is either end; the calls are counted by the comparison itself |
| StackBuffer.BytesRoundTrip | include/small_vectors/interprocess/stack_buffer.h:117-126 | a footer's size survives being stored as bytes |
| StackBuffer.ParseExtent | include/small_vectors/interprocess/stack_buffer.h:130-172 | whenever the footers parse, the index is the sum of block lengths and footers |
| StackBuffer.ParseLocal | include/small_vectors/interprocess/stack_buffer.h:117-126 | bytes at and above the index do not matter |
| StackBuffer.ParseAppend | include/small_vectors/interprocess/stack_buffer.h:155-168 | data with its size in a footer behind it, written at the index, adds exactly that block to what parses |
| StackBuffer.Stack.constructor | include/small_vectors/interprocess/stack_buffer.h:73-84 | a new buffer is an empty stack |
| StackBuffer.Stack.Empty | include/small_vectors/interprocess/stack_buffer.h:101-113 | empty exactly when there are no blocks |
| StackBuffer.Stack.Push | include/small_vectors/interprocess/stack_buffer.h:130-172 | adds the block if it fits with its footer; otherwise nothing at all changes and the status says why |
| StackBuffer.Stack.Top | include/small_vectors/interprocess/stack_buffer.h:177-201 | the last block and the current index, or nothing for an empty stack |
| StackBuffer.Stack.Pop | include/small_vectors/interprocess/stack_buffer.h:205-220 | for any index: succeeds exactly if it is the current one and then removes the last block; only popping an empty stack leaves the new index to chance |
| StackBuffer.Stack.Perform | include/small_vectors/interprocess/stack_buffer.h:117-220 | every run of pushes, tops and pops, up to a pop of an empty stack with index 0, answers as the list of blocks does and leaves a parseable buffer |
| StackBuffer.RunStep | include/small_vectors/interprocess/stack_buffer.h:117-220 | operation k of a run works on the blocks the ones before it left, and answer k is its own |
| StackBuffer.RunFits | include/small_vectors/interprocess/stack_buffer.h:143-152 | no run exceeds the capacity |
| StackBuffer.PushTopPop | include/small_vectors/interprocess/stack_buffer.h:130-220 | a pushed block is what the next top shows, and popping with that index restores the stack |
| StackBuffer.NeverFitsReport | include/small_vectors/interprocess/stack_buffer.h:14-20 | which blocks fit no stack at all, which of them are reported so on every stack and on none, and that the others always pass for a temporary shortage |
| StackBuffer.EmptyPop | include/small_vectors/interprocess/stack_buffer.h:205-220 | popping an empty stack with index 0 leaves it empty for exactly one value of the bytes before the buffer |
| StackBuffer.StaleIndexAccepted | include/small_vectors/interprocess/stack_buffer.h:205-220 | an index seen for one block pops another of the same length that replaced it |
| Bits.AndMask | include/small_vectors/utils/meta_packed_struct.h:155-160 | masking with k ones is the remainder by 2^k |
| Bits.OrDisjoint | include/small_vectors/utils/meta_packed_struct.h:174-190 | or-ing values without common bits adds them |
| Bits.OrBits | include/small_vectors/utils/meta_packed_struct.h:174-190 | a bit of or is set exactly if it is in one of the operands |
| Bits.AndBits | include/small_vectors/utils/meta_packed_struct.h:155-160 | a bit of and is set exactly if it is in both |
| PackedStruct.MaskIsOnes | include/small_vectors/utils/meta_packed_struct.h:135-151 | the recursive mask is 2^n - 1 |
| PackedStruct.UncompressIsSignExtension | include/small_vectors/utils/meta_packed_struct.h:192-223 | reading a member is two's-complement sign extension of its bits, including the full-width case and the 32-bit sign test |
| PackedStruct.MemberReads | include/small_vectors/utils/meta_packed_struct.h:192-223 | what is read is the one number in the member's range that ends in its bits |
| PackedStruct.ValueRoundTrip | include/small_vectors/utils/meta_packed_struct.h:155-223 | a value survives its member exactly when it fits the member's width |
| PackedStruct.BitsRoundTrip | include/small_vectors/utils/meta_packed_struct.h:155-223 | bits survive being read and written back |
| PackedStruct.UnpackInto | include/small_vectors/utils/meta_packed_struct.h:225-242 | assigning the members in place, one shift after the other, gives the unpacked values |
| PackedStruct.PackIsSum | include/small_vectors/utils/meta_packed_struct.h:174-190 | packing at absolute offsets builds one mixed-radix number |
| PackedStruct.UnpackIsDigits | include/small_vectors/utils/meta_packed_struct.h:225-242 | cumulative shifting reads the digits of that number |
| PackedStruct.PackHolds | include/small_vectors/utils/meta_packed_struct.h:174-190 | divided by 2^offset, the pack ends in the member's value modulo 2^width, for every member, and nothing stands above the last |
| PackedStruct.PackRoundTrip | include/small_vectors/utils/meta_packed_struct.h:290-303 | unpack after pack is the identity if and only if every value fits its member |
| PackedStruct.UnpackRoundTrip | include/small_vectors/utils/meta_packed_struct.h:290-303 | pack after unpack keeps the bits the members cover and clears the rest |
| PackedStruct.MemberInterval | include/small_vectors/utils/meta_packed_struct.h:174-242 | changing one member changes only its own bits, and they hold the new value |
| Slots.CopyConstructN | include/small_vectors/detail/uninitialized_constexpr.h:237-309 | copies into raw memory; a throw leaves raw memory behind, or ends the program where the default constructor is nothrow |
| Slots.Element.Attempt | include/small_vectors/detail/uninitialized_constexpr.h:237-250 | a constructor or assignment throws only if it may, and every throw is counted |
| Slots.ValueConstructN | include/small_vectors/detail/uninitialized_constexpr.h:119-132 | default elements into raw memory; a throw leaves none of them |
| Slots.MoveConstructWithin | include/small_vectors/detail/uninitialized_constexpr.h:353-396 | moves into raw memory of the same buffer; after a throw the targets are raw and the sources old or moved from |
| Slots.RelocateN | include/small_vectors/detail/uninitialized_constexpr.h:435-460 | objects change buffers and leave raw memory |
| Slots.RelocateWithCopyN | include/small_vectors/detail/uninitialized_constexpr.h:481-490 | the same by copying, all or nothing |
| Slots.MoveAssignDown | include/small_vectors/detail/vector_func.h:329-383 | shifting objects to the front over objects, never over raw memory |
| Slots.MoveAssignUp | include/small_vectors/detail/vector_func.h:651-654 | shifting objects to the back over objects, never over raw memory |
| GrowthPolicy.NarrowGrowth | include/small_vectors/detail/vector_func.h:80-100 | for 8, 16 and 32-bit sizes growth is min(max, floor(1.5 s) + 1), at least s, and 0 exactly when s cannot be counted |
| GrowthPolicy.MaxIsAllOnes | include/small_vectors/detail/vector_func.h:88-90 | the largest sizes are 2^bits - 1 |
| GrowthPolicy.WideGrowth | include/small_vectors/detail/vector_func.h:80-100 | for 64-bit sizes that contract holds if and only if nothing wraps, or for one sum |
| GrowthPolicy.AppendStepAmortised | include/small_vectors/detail/vector_func.h:487-546 | one append keeps the potential that pays for relocations |
| GrowthPolicy.AppendRunAmortised | include/small_vectors/detail/vector_func.h:487-546 | n appends to an empty vector relocate at most 3n elements |
| VectorStorage.Storage.constructor | include/small_vectors/detail/vector_storage.h:651-651 | an empty storage in its buffer |
| VectorStorage.Storage.Exchange | include/small_vectors/detail/vector_storage.h:851-867 | the new block becomes active and the old one, if any, is handed out |
| VectorStorage.Storage.SwitchStatic | include/small_vectors/detail/vector_storage.h:842-849 | back to an empty buffer, the block handed out |
| VectorStorage.Storage.Install | include/small_vectors/detail/vector_func.h:530-542 | the filled block takes over; exactly the old block is freed |
| VectorStorage.Storage.Destroy | include/small_vectors/detail/vector_storage.h:834-840 | no objects and no block stay behind |
| VectorStorage.OrderMeans | include/small_vectors/detail/vector_storage.h:549-640 | what the invariant says slot by slot: objects in the first size slots and no others, within the capacity, and a dynamic storage owns a live block larger than the buffer |
| VectorFunc.EmplaceBack | include/small_vectors/detail/vector_func.h:465-547 | appends; a throw or refusal anywhere leaves contents, size, capacity and block as they were and frees the new block; refused at the maximum size; which types can throw or end the program; how many elements the loops relocate |
| VectorFunc.FillAround | include/small_vectors/detail/vector_func.h:674-705 | moving old elements around a gap puts everything back when a copy throws |
| VectorFunc.InsertLong | include/small_vectors/detail/vector_func.h:605-638 | in-place insert of at least as many elements as follow: the new contents, and after a throw a contiguous run of objects that is counted right |
| VectorFunc.InsertShort | include/small_vectors/detail/vector_func.h:639-656 | the same for fewer |
| VectorFunc.InsertGrowing | include/small_vectors/detail/vector_func.h:667-712 | reallocating insert: the new contents and the grown capacity, or no change; a throwing copy ends the program if and only if the move or default constructor is nothrow |
| VectorFunc.Insert | include/small_vectors/detail/vector_func.h:569-719 | the contents become prefix, source, suffix in every branch; refused exactly for want of storage and then unchanged; strong guarantee at the end and when reallocating, where an exception leaves at all: only for types whose move constructor may throw, and for which types the program ends instead; the capacity is kept where the source fits and grown to min(max, s + s/2 + 1) otherwise |
| VectorFunc.ShiftForEmplace | include/small_vectors/detail/vector_func.h:730-767 | opens a place by one construction and assignments and puts the value in |
| VectorFunc.Emplace | include/small_vectors/detail/vector_func.h:780-852 | the value stands at its position; strong guarantee at the end and when reallocating; for which types an exception leaves and for which the program ends; capacity kept or grown exactly |
| VectorResize.RelocateDyn | include/small_vectors/detail/vector_func.h:868-895 | same elements in a block of the asked capacity, or no change |
| VectorResize.RelocateStatic | include/small_vectors/detail/vector_func.h:898-916 | same elements back in the buffer, or the block reinstated |
| VectorResize.Reserve | include/small_vectors/detail/vector_func.h:922-938 | capacity raised exactly as asked, contents kept; the largest capacity is always refused |
| VectorResize.ShrinkToFit | include/small_vectors/detail/vector_func.h:1050-1074 | capacity becomes the size or the buffer, contents kept; otherwise nothing changes |
| VectorResize.DefaultAppend | include/small_vectors/detail/vector_func.h:950-1007 | appends default elements, all or nothing; an exception leaves only if the default constructor may throw, and the program ends only where a copy throws and it is nothrow; capacity kept or grown exactly |
| VectorResize.Resize | include/small_vectors/detail/vector_func.h:1021-1047 | prefix or extension by default elements, strong guarantee; the same about exceptions; capacity kept or grown exactly |
| VectorResize.EraseAtEnd | include/small_vectors/detail/vector_func.h:246-299 | keeps the elements before the position; a position behind the end erases nothing |
| VectorResize.Erase | include/small_vectors/detail/vector_func.h:329-354 | removes one element; a throwing assignment leaves the size and the lifetimes in order |
| VectorResize.EraseRange | include/small_vectors/detail/vector_func.h:357-383 | removes the range, empty ranges included |
| VectorResize.Clear | include/small_vectors/detail/vector_func.h:301-311 | no elements left |
| VectorResize.PopBack | include/small_vectors/detail/vector_func.h:387-392 | all but the last element left |
| VectorRuns.Run | include/small_vectors/detail/vector_func.h:246-1074 | in every run of operations exactly the first size slots hold objects and blocks are accounted for, whatever throws; only the types named end the program; as long as what threw had the strong guarantee the elements are those of the run replayed on sequences |
| VectorRuns.InsertUndone | include/small_vectors/detail/vector_func.h:357-719 | insert puts the new elements at their position, and erasing that range restores the vector |
| VectorRuns.EraseUndone | include/small_vectors/detail/vector_func.h:357-719 | inserting what an erase took out restores the vector |
| VectorRuns.AddingIsInsert | include/small_vectors/detail/vector_func.h:465-1047 | emplace_back, emplace and a growing resize are inserts; reserve changes no element |
| VectorRuns.RemovingIsErase | include/small_vectors/detail/vector_func.h:246-1074 | the other erasures, pop_back, clear and a shrinking resize are erasures of a range; shrink_to_fit changes no element |
| VectorRuns.WholeLife | include/small_vectors/detail/vector_storage.h:651-840 | from construction to destruction no block is leaked or freed twice, for every element type that cannot end the program and otherwise unless it does |
| VectorRuns.NeverEnds | include/small_vectors/detail/vector_func.h:246-1074 | no operation ends the program unless the default constructor is nothrow and copying is not, or moving is nothrow and one of the other operations is not |
| VectorRuns.CanEndExactly | include/small_vectors/detail/vector_func.h:246-1074 | those are exactly the types for which some operation can end the program |
| VectorRuns.ThrowsByTraits | include/small_vectors/detail/vector_func.h:246-1074 | for every operation, which promises of the element type rule out an exception and which the end of the program |
| VectorRuns.StrongOperations | include/small_vectors/detail/vector_func.h:465-1047 | which operations change nothing when they throw |
| VectorRuns.AppendAll | include/small_vectors/detail/vector_func.h:465-547 | appending n elements to an empty vector, dynamic or not, moves or copies at most 3n of them, counted in the loops, a failing append included |
| StorageMoves.ConstructMove | include/small_vectors/detail/vector_storage.h:653-672 | elements and block change hands, the source is left empty; a throw changes nothing |
| StorageMoves.AssignMove | include/small_vectors/detail/vector_storage.h:674-712 | the same onto a vector with elements; it throws only for buffered sources whose move assignment may throw, by copying; after a throw it is in order if and only if it was empty |
| StorageMoves.ConstructCopy | include/small_vectors/detail/vector_storage.h:752-782 | a copy with the least sufficient storage, or nothing allocated |
| StorageMoves.AssignCopy | include/small_vectors/detail/vector_storage.h:784-832 | a copy; after a failure the target is empty and in order if and only if it was not dynamic and too small, and dangling otherwise; a successful copy is back in the buffer if and only if it fits there, and otherwise keeps a block that suffices or has one of its own size |
| StorageMoves.UnevenSwap | include/small_vectors/detail/uninitialized_constexpr.h:492-506 | exchanges ranges of different length and leaves the right slots live on each side |
| StorageMoves.SwapMixed | include/small_vectors/detail/vector_storage.h:725-744 | contents and block exchanged; how many originals are lost, and what a throw loses |
| StorageMoves.Swap | include/small_vectors/detail/vector_storage.h:714-750 | contents and block ownership exchanged in all four combinations |
| VectorPairs.SwapBoth | include/small_vectors/small_vector.h:362-362 | contents and blocks exchanged; never an exception, the program ends instead, and only for the types whose storage swap can throw |
| VectorPairs.PerformBoth | include/small_vectors/detail/vector_storage.h:653-832 | any command on two vectors; after a throw or refusal both are in order with blocks accounted for if and only if the command was not a fragile assignment; for which types it throws or ends the program |
| VectorPairs.PerformAll | include/small_vectors/detail/vector_storage.h:653-867 | every run over two vectors, with moves, copies and swaps between them, keeps both in order, explains every outcome by the type, and replays on sequences, failed assignments included, up to the first that breaks a vector |
| VectorPairs.CommandsRelate | include/small_vectors/detail/vector_storage.h:674-832 | moving is copying and clearing the source, swapping twice changes nothing, and each assignment is the other's mirror image |
| VectorPairs.OperationsApart | include/small_vectors/detail/vector_func.h:246-1074 | an operation on one vector leaves the other alone |
| VectorPairs.WholeLives | include/small_vectors/detail/vector_storage.h:653-867 | two vectors made by default, copy or move, worked on and destroyed leave no block; what can break them is named, and nothing can where the type ends no program and nothing is assigned or swapped |
| StringSizes.StringGrowthExceeds | include/small_vectors/detail/string_func.h:43-54 | growth is strictly above the request if and only if the bytes fit 32 bits; its bytes are then the least multiple of 8 strictly above those asked for |
| StringFunc.Assign | include/small_vectors/detail/string_func.h:202-246 | the text and its terminator, back in the buffer when it fits there; a static string too small is unchanged; the capacity exactly |
| StringFunc.Reserve | include/small_vectors/detail/string_func.h:368-399 | the text kept with its terminator, the capacity grown exactly when needed |
| StringFunc.ResizeAndOverwrite | include/small_vectors/detail/string_func.h:404-449 | kept prefix and new tail, terminated, in place or in a new block; the capacity exactly |
| StringFunc.Resize | include/small_vectors/detail/string_func.h:454-502 | the new length; every kept unit as it was; every new one the character; the grown capacity only where needed |
| StringFunc.Append | include/small_vectors/detail/string_func.h:689-738 | the tail stands behind the text; the capacity exactly |
| StringFunc.ReplaceInPlace | include/small_vectors/detail/string_func.h:525-553 | equal, shrinking and extending replace inside one buffer, overlapping copies included |
| StringFunc.ReplaceAux | include/small_vectors/detail/string_func.h:507-573 | the text becomes prefix, new part, suffix in all four cases; a bad position or a full static buffer changes nothing; the capacity exactly |
| StringFunc.Erase | include/small_vectors/detail/string_func.h:757-777 | at most what is there behind the index is removed |
| StringFunc.PopBack | include/small_vectors/detail/string_func.h:782-793 | all but the last unit, terminated |
| StringFunc.Clear | include/small_vectors/detail/string_func.h:86-95 | an empty, terminated text |
| StringEdit.Swap | include/small_vectors/detail/string_func.h:251-261 | texts, terminators and blocks exchanged in all four combinations |
| StringEdit.ShrinkToFit | include/small_vectors/detail/string_func.h:100-143 | the characters survive; the terminator does if and only if the text does not move to another block; the capacity is the buffer's or the grown one |
| StringEdit.Find | include/small_vectors/basic_string.h:509-513 | the slice at the result is the pattern, the text from no earlier position on begins with it, and from none at all if there is no result |
| StringEdit.FirstInSlices | include/small_vectors/basic_string.h:509-513 | a first occurrence in terms of slices of the text |
| StringEdit.FirstFrom | include/small_vectors/basic_string.h:606-615 | searching from a position is searching what lies behind it |
| StringEdit.ReplaceAllLength | include/small_vectors/basic_string.h:598-617 | length of the result = length + count * (length of new - length of old) |
| StringEdit.ReplaceAllNothing | include/small_vectors/basic_string.h:598-617 | a text no slice of which is the pattern stays as it is |
| StringEdit.ReplaceAllFirst | include/small_vectors/basic_string.h:598-617 | otherwise the first slice that is the pattern makes way, and the same is done behind it |
| StringEdit.ProgressStep | include/small_vectors/basic_string.h:610-613 | one replacement settles the text up to its end and counts one occurrence |
| StringEdit.SizeOnTheWay | include/small_vectors/basic_string.h:610-613 | no size on the way exceeds both the first and the last |
| StringEdit.FindAndReplace | include/small_vectors/basic_string.h:598-617 | terminates with the left-to-right non-overlapping replacement and its count, even when the new text contains the old; a static string stops with an exception if and only if the result does not fit |
| StringRuns.Perform | include/small_vectors/detail/string_func.h:202-793 | every operation refines the step of the text model, outcome included, and keeps the terminator |
| StringRuns.StepOutcome | include/small_vectors/detail/string_func.h:202-573 | when an operation fails and how, and that it then changes nothing |
| StringRuns.ReplaceUndone | include/small_vectors/detail/string_func.h:507-573 | the new part stands where the old one was, and replacing it back restores the text |
| StringRuns.GrowthIsReplace | include/small_vectors/detail/string_func.h:202-738 | assign, append and a growing resize are replacements; reserve changes no unit |
| StringRuns.ErasureIsReplace | include/small_vectors/detail/string_func.h:86-793 | clear, pop_back, erase and a shrinking resize are replacements by nothing |
| StringRuns.CallerMay | include/small_vectors/detail/string_func.h:202-793 | what is left to the callers: sizes and bytes that can be counted, positions inside the text |
| StringRuns.PerformAll | include/small_vectors/detail/string_func.h:202-793 | every run over two strings, swaps included, keeps size + 1 within the capacity and the terminator in place, and refines the run of the model |
| StringRuns.RunBothStep | include/small_vectors/detail/string_func.h:202-793 | command k of a run works on the texts the ones before it left, and outcome k is its own |
| StringRuns.Construct | include/small_vectors/detail/string_func.h:149-196 | a terminated string of the text, in the buffer where it fits, or no string |
| StringRuns.WholeLife | include/small_vectors/detail/string_func.h:149-793 | two strings constructed, worked on and released leave nothing allocated |

## Left out

- Concurrent use of the stack buffer: push publishes the index before it writes the bytes, so
  only one thread at a time is modelled.
- Storage without a buffer (N = 0), `static_vector`'s `split_by_half`, and mutual conversion of
  buffers of different sizes.
- Shortcuts for trivial element types (memmove, no destructor calls, move without leaving a
  moved-from object) and the constant-evaluation branches.
- VectorFunc.Insert: the source range lies outside the vector and its length fits the size
  type; a range given in reverse (`invalid_source_range`) is a matter of types here.
- VectorFunc.EmplaceBack: the arguments of the constructor do not refer to an element of the
  vector; where nothing throws the source relocates the elements before it uses them, so such
  an argument would be read after it is gone. The same holds for VectorFunc.Emplace.
- VectorResize.DefaultAppend: the new size can be counted. The source does not look at a growth
  of 0 before it allocates; its one caller, resize, checks the size.
- VectorRuns.Run: size types of 8, 16 and 32 bits, for which growth is exact.
- StorageMoves.AssignCopy: here and in the other operations on two objects, the objects are distinct.
- StringFunc.ResizeAndOverwrite: the operation passed in is described by what it keeps and
  writes, as all callers inside the library do; that it is given the raw capacity in one
  branch is not used.
- StringFunc.ReplaceAux: the replaced range lies inside the text, as the source demands
  without checking; sizes and byte counts fit the size type.
- Strings whose allocation fails: the source uses the answer without looking, so the model
  grants it. The source text of an assignment or replacement is not part of the string itself.
- Moved-from strings and default-constructed static strings, which have no terminator.
- LowerBound.LeanRight: `3 * distance` is computed without wrap-around.
- BwtCodec.Encode: with BwtCodec.Decode, for one totally ordered character type; plain `char`,
  whose view comparison and element sort may disagree on high bytes, is not covered.
- Footers in the byte order of the machine: the model stores the low byte first.
- PackedStruct.PackRoundTrip: enum and bool members are their underlying integers; signed
  members narrower than their type are at most 32 bits wide, as the sign test supports.
- `std::sort`, `std::lower_bound` and `view().find` are short verified versions with the
  contract of the library ones.
- `ring_queue`, `atomic_mutex`, `expected`, `strong_type`, `composed_pointer_with_data`,
  `unaligned`, streams, formatters, `fork` and shared memory: unfinished, one-case properties,
  or operating-system plumbing.

/** `encode_t` and `decode_t` of include/small_vectors/algo/bwt.h, step by step. */
module BwtCodec {
  import opened Sequences
  import opened Sorting
  import opened Lexicographic
  import opened Bwt
  import opened StringSizes

  // --------------------------------------------------------------------- encode

  /** The window of the doubled table that holds the rotation starting at `ix`. */
  function View(table: seq<CodeUnit>, sz: nat, ix: nat): seq<CodeUnit> {
    if ix + sz <= |table| then table[ix..ix + sz] else []
  }

  function RotationLess(table: seq<CodeUnit>, sz: nat): (nat, nat) -> bool {
    (lix: nat, rix: nat) => LexLess(View(table, sz, lix), View(table, sz, rix))
  }

  lemma {:induction false} RotationLessIsWeakOrder(table: seq<CodeUnit>, sz: nat)
    ensures StrictWeakOrder(RotationLess(table, sz))
  {
    var less := RotationLess(table, sz);
    forall x: nat, y: nat | less(x, y) ensures !less(y, x) {
      LexAsymmetric(View(table, sz, x), View(table, sz, y));
    }
    forall x: nat, y: nat, z: nat | !less(y, x) && !less(z, y) ensures !less(z, x) {
      LexTransitive(View(table, sz, x), View(table, sz, y), View(table, sz, z));
    }
  }

  lemma {:induction false} ViewIsRotation(t: seq<CodeUnit>, ix: nat)
    requires ix < |t|
    ensures View(t + t, |t|, ix) == Rotation(t, ix)
  {
  }

  /** Copies the text and the marker into the table from `it` on. */
  method CopyMarked(table: array<CodeUnit>, it: nat, text: seq<CodeUnit>, marker: CodeUnit) returns (last: nat)
    requires it + |text| + 1 <= table.Length
    modifies table
    ensures last == it + |text| + 1
    ensures table[it..last] == text + [marker]
    ensures table[..it] == old(table[..it])
  {
    last := it;
    while last < it + |text|
      invariant it <= last <= it + |text|
      invariant table[it..last] == text[..last - it]
      invariant table[..it] == old(table[..it])
    {
      table[last] := text[last - it];
      last := last + 1;
    }
    table[last] := marker;
    last := last + 1;
  }

  lemma {:induction false} SortedIndicesSortRotations(t: seq<CodeUnit>, rotvec: seq<nat>)
    requires multiset(rotvec) == multiset(Iota(|t|))
    requires SortedBy(rotvec, RotationLess(t + t, |t|))
    ensures |rotvec| == |t| && forall k :: 0 <= k < |rotvec| ==> rotvec[k] < |t|
    ensures SortedRotations(t, Pick(Rotations(t), rotvec))
  {
    PermutationFacts(rotvec, |t|);
    PickPermutation(Rotations(t), rotvec);
    var rows := Pick(Rotations(t), rotvec);
    forall i, j | 0 <= i < j < |rows| ensures LexLeq(rows[i], rows[j]) {
      ViewIsRotation(t, rotvec[i]);
      ViewIsRotation(t, rotvec[j]);
      assert !RotationLess(t + t, |t|)(rotvec[j], rotvec[i]);
    }
  }

  /** The bytes of a string that holds the marked text twice can be counted. */
  ghost predicate TableFits(n: nat, unit: nat) {
    UnitSize(unit) && Bytes(2 * (n + 1) + 1, unit) + 8 < UINT32
  }

  /** Exactly then the block the table grows to has room for both copies and the terminator. */
  lemma {:induction false} TableRoom(n: nat, unit: nat)
    requires UnitSize(unit)
    ensures TableFits(n, unit) <==> 2 * (n + 1) + 1 < StringGrowth(2 * (n + 1) + 1, unit)
    ensures TableFits(n, unit) ==> 2 * (n + 1) + 1 < UINT32
  {
    StringGrowthExceeds(2 * (n + 1) + 1, unit);
  }

  /** The size of the marked text, and of two copies with a terminator, in 32 bits. */
  method MarkedSizes(n: nat) returns (sz: nat, rawSize: nat)
    requires 2 * (n + 1) + 1 < UINT32
    ensures sz == n + 1 && rawSize == 2 * sz + 1
  {
    sz := (n + 1) % UINT32;
    rawSize := (sz + sz) % UINT32;
    rawSize := (rawSize + 1) % UINT32;
  }

  /** The size of the marked text and of the block the table of two copies grows to. */
  method TableSizes(n: nat, unit: nat) returns (sz: nat, capacity: nat)
    requires TableFits(n, unit)
    ensures sz == n + 1 && 2 * sz < capacity
  {
    TableRoom(n, unit);
    var rawSize;
    sz, rawSize := MarkedSizes(n);
    capacity := StringGrowth(rawSize, unit);
  }

  /**
   * The marked text twice over, so that every rotation is one contiguous window. The table
   * is a string; one that outgrows its buffer has a block of the grown capacity.
   */
  method BuildTable(text: seq<CodeUnit>, marker: CodeUnit, sz: nat, capacity: nat) returns (table: array<CodeUnit>)
    requires sz == |text| + 1 && 2 * sz < capacity
    ensures fresh(table) && table.Length == capacity
    ensures table[..2 * sz] == (text + [marker]) + (text + [marker])
  {
    table := new CodeUnit[capacity];
    var it := CopyMarked(table, 0, text, marker);
    assert table[..sz] == table[0..it];
    it := CopyMarked(table, it, text, marker);
    assert table[..2 * sz] == table[..sz] + table[sz..it];
  }

  /** The start positions 0 .. sz-1, sorted by the rotations they stand for. */
  method SortedStarts(view: seq<CodeUnit>, sz: nat) returns (rotvec: array<nat>)
    ensures fresh(rotvec)
    ensures multiset(rotvec[..]) == multiset(Iota(sz))
    ensures SortedBy(rotvec[..], RotationLess(view, sz))
  {
    rotvec := new nat[sz](i => i);
    assert rotvec[..] == Iota(sz);
    RotationLessIsWeakOrder(view, sz);
    Sort(rotvec, RotationLess(view, sz));
  }

  lemma {:induction false} TableBeforeStart(t: seq<CodeUnit>, ix: nat)
    requires ix < |t|
    ensures ix + |t| - 1 < |t + t| && (t + t)[ix + |t| - 1] == LastOr(Rotation(t, ix))
  {
    LastOfRotation(t, ix);
  }

  /** Emits the unit before each start: the last unit of the rotation there. */
  method EmitLastColumn(table: array<CodeUnit>, sz: nat, rotvec: array<nat>, ghost t: seq<CodeUnit>)
    returns (out: seq<CodeUnit>)
    requires sz == |t| == rotvec.Length && 2 * sz <= table.Length && table[..2 * sz] == t + t
    requires forall k :: 0 <= k < sz ==> rotvec[k] < sz
    ensures |out| == sz && forall k :: 0 <= k < sz ==> out[k] == LastOr(Rotation(t, rotvec[k]))
  {
    out := [];
    var k := 0;
    while k < sz
      invariant k <= sz && |out| == k
      invariant forall j :: 0 <= j < k ==> out[j] == LastOr(Rotation(t, rotvec[j]))
    {
      var ix := rotvec[k];
      TableBeforeStart(t, ix);
      assert table[ix + sz - 1] == table[..2 * sz][ix + sz - 1];
      out := out + [table[ix + sz - 1]];
      k := k + 1;
    }
  }

  lemma {:induction false} StartsEmit(t: seq<CodeUnit>, starts: seq<nat>, out: seq<CodeUnit>)
    requires multiset(starts) == multiset(Iota(|t|)) && |starts| == |out| == |t|
    requires forall i :: 0 <= i < |starts| ==> starts[i] < |t|
    requires SortedRotations(t, Pick(Rotations(t), starts))
    requires forall i :: 0 <= i < |out| ==> out[i] == LastOr(Rotation(t, starts[i]))
    ensures EmittedBefore(t, starts, out) && IsTransform(t, out)
  {
    PermutationFacts(starts, |t|);
    var rows := Pick(Rotations(t), starts);
    forall i | 0 <= i < |t|
      ensures rows[i] == t[starts[i]..] + t[..starts[i]]
      ensures out[i] == t[if starts[i] == 0 then |t| - 1 else starts[i] - 1]
    {
      LastOfRotation(t, starts[i]);
    }
    EmittedIsTransform(t, starts, out);
  }

  /** Sorts the start positions and emits the last column. */
  method Transform(table: array<CodeUnit>, sz: nat, ghost t: seq<CodeUnit>) returns (out: seq<CodeUnit>)
    requires sz == |t| && 2 * sz <= table.Length && table[..2 * sz] == t + t
    ensures IsTransform(t, out) && exists starts :: EmittedBefore(t, starts, out)
  {
    var rotvec := SortedStarts(table[..2 * sz], sz);
    SortedIndicesSortRotations(t, rotvec[..]);
    out := EmitLastColumn(table, sz, rotvec, t);
    StartsEmit(t, rotvec[..], out);
  }

  /** `unit` is the size of a character in bytes. */
  method Encode(text: seq<CodeUnit>, marker: CodeUnit, unit: nat) returns (out: seq<CodeUnit>)
    requires TableFits(|text|, unit)
    ensures text == [] ==> out == []
    ensures text != [] ==> IsTransform(text + [marker], out)
    ensures text != [] ==> exists starts :: EmittedBefore(text + [marker], starts, out)
  {
    out := [];
    if text != [] {
      var sz, capacity := TableSizes(|text|, unit);
      var table := BuildTable(text, marker, sz, capacity);
      out := Transform(table, sz, text + [marker]);
    }
  }

  // --------------------------------------------------------------------- decode

  /** The positions of `c` in `l`, in increasing order. */
  function Positions(l: seq<CodeUnit>, c: CodeUnit): (r: seq<nat>)
    ensures forall k :: 0 <= k < |r| ==> r[k] < |l| && l[r[k]] == c
    ensures forall i, j :: 0 <= i < j < |r| ==> r[i] < r[j]
  {
    if l == [] then []
    else Positions(l[..|l| - 1], c) + (if l[|l| - 1] == c then [|l| - 1] else [])
  }

  /** How often `c` occurs in `l`. */
  function Count(l: seq<CodeUnit>, c: CodeUnit): nat {
    if l == [] then 0
    else Count(l[..|l| - 1], c) + (if l[|l| - 1] == c then 1 else 0)
  }

  lemma {:induction false} CountIsMultiplicity(l: seq<CodeUnit>, c: CodeUnit)
    ensures Count(l, c) == multiset(l)[c] == |Positions(l, c)|
  {
    if l != [] {
      CountIsMultiplicity(l[..|l| - 1], c);
      assert l == l[..|l| - 1] + [l[|l| - 1]];
    }
  }

  lemma {:induction false} PrefixGrows(l: seq<CodeUnit>, i: nat, c: CodeUnit)
    requires i < |l|
    ensures Positions(l[..i + 1], c) == Positions(l[..i], c) + (if l[i] == c then [i] else [])
    ensures Count(l[..i + 1], c) == Count(l[..i], c) + (if l[i] == c then 1 else 0)
  {
    assert l[..i + 1][..i] == l[..i];
  }

  lemma {:induction false} CountMonotone(l: seq<CodeUnit>, i: nat, j: nat, c: CodeUnit)
    requires i <= j <= |l|
    ensures Count(l[..i], c) <= Count(l[..j], c)
    decreases j
  {
    if i < j {
      CountMonotone(l, i, j - 1, c);
      PrefixGrows(l, j - 1, c);
    }
  }

  /** How many units equal to `f[i]` come before it. */
  function Rank(f: seq<CodeUnit>, i: nat): nat
    requires i < |f|
  {
    Count(f[..i], f[i])
  }

  lemma {:induction false} RankInRange(l: seq<CodeUnit>, f: seq<CodeUnit>, i: nat)
    requires multiset(f) == multiset(l) && i < |f|
    ensures Rank(f, i) < |Positions(l, f[i])|
  {
    PrefixGrows(f, i, f[i]);
    CountMonotone(f, i + 1, |f|, f[i]);
    assert f[..|f|] == f;
    CountIsMultiplicity(f, f[i]);
    CountIsMultiplicity(l, f[i]);
  }

  lemma {:induction false} RankGrows(f: seq<CodeUnit>, i: nat, j: nat)
    requires i < j < |f| && f[i] == f[j]
    ensures Rank(f, i) < Rank(f, j)
  {
    PrefixGrows(f, i, f[i]);
    CountMonotone(f, i + 1, j, f[i]);
  }

  /** The entry the queues hand out for row `i`. */
  function Handed(l: seq<CodeUnit>, f: seq<CodeUnit>, i: nat): nat
    requires i < |f|
  {
    var p := Positions(l, f[i]);
    if Rank(f, i) < |p| then p[Rank(f, i)] else 0
  }

  /** `s` holds what the lists hand out for the first rows. */
  ghost predicate HandedOut(l: seq<CodeUnit>, f: seq<CodeUnit>, s: seq<nat>) {
    && |s| <= |f|
    && forall k :: 0 <= k < |s| ==> s[k] == Handed(l, f, k)
  }

  lemma {:induction false} HandedOrder(l: seq<CodeUnit>, f: seq<CodeUnit>, i: nat, j: nat)
    requires multiset(f) == multiset(l) && i < j < |f|
    ensures Handed(l, f, i) < |l| && l[Handed(l, f, i)] == f[i]
    ensures f[i] == f[j] ==> Handed(l, f, i) < Handed(l, f, j)
    ensures Handed(l, f, i) != Handed(l, f, j)
  {
    RankInRange(l, f, i);
    RankInRange(l, f, j);
    if f[i] == f[j] { RankGrows(f, i, j); }
  }

  /** First-in first-out lists hand out the stable sorting permutation. */
  lemma {:induction false} FifoIsStable(l: seq<CodeUnit>, f: seq<CodeUnit>, ls: seq<nat>)
    requires multiset(f) == multiset(l) && Ascending(f)
    requires |ls| == |f| && HandedOut(l, f, ls)
    ensures StableSort(l, f, ls)
  {
    SameLength(f, l);
    forall i | 0 <= i < |ls| ensures ls[i] < |l| && l[ls[i]] == f[i] {
      RankInRange(l, f, i);
    }
    forall i, j | 0 <= i < j < |ls| ensures ls[i] != ls[j] && (f[i] == f[j] ==> ls[i] < ls[j]) {
      HandedOrder(l, f, i, j);
    }
    DistinctIsPermutation(ls, |l|);
  }

  /** The list kept for `c`, empty when there is none yet. */
  function ListOf(arr: map<CodeUnit, seq<nat>>, c: CodeUnit): seq<nat> {
    if c in arr then arr[c] else []
  }

  ghost predicate Queues(arr: map<CodeUnit, seq<nat>>, l: seq<CodeUnit>) {
    forall c: CodeUnit :: ListOf(arr, c) == Positions(l, c)
  }

  lemma {:induction false} FillStep(arr: map<CodeUnit, seq<nat>>, l: seq<CodeUnit>, i: nat, c: CodeUnit)
    requires i < |l| && c == l[i] && Queues(arr, l[..i])
    ensures Queues(arr[c := ListOf(arr, c) + [i]], l[..i + 1])
  {
    var next: map<CodeUnit, seq<nat>> := arr[c := ListOf(arr, c) + [i]];
    forall d: CodeUnit ensures ListOf(next, d) == Positions(l[..i + 1], d) {
      PrefixGrows(l, i, d);
      assert ListOf(arr, d) == Positions(l[..i], d);
    }
  }

  method FillLists(l: seq<CodeUnit>) returns (arr: map<CodeUnit, seq<nat>>)
    ensures Queues(arr, l)
  {
    arr := map[];
    var i := 0;
    while i < |l|
      invariant i <= |l|
      invariant Queues(arr, l[..i])
    {
      var c: CodeUnit := l[i];
      FillStep(arr, l, i, c);
      arr := arr[c := ListOf(arr, c) + [i]];
      i := i + 1;
    }
    assert l[..i] == l;
  }

  /** What is left of one list after `taken` of its entries are gone. */
  ghost predicate Left(list: seq<nat>, all: seq<nat>, taken: nat) {
    taken <= |all| && list == all[taken..]
  }

  /** What is left of the lists after the rows `done` have taken their entries. */
  ghost predicate Drained(arr: map<CodeUnit, seq<nat>>, l: seq<CodeUnit>, done: seq<CodeUnit>) {
    forall c: CodeUnit :: Left(ListOf(arr, c), Positions(l, c), Count(done, c))
  }

  lemma {:induction false} DrainStart(arr: map<CodeUnit, seq<nat>>, l: seq<CodeUnit>)
    requires Queues(arr, l)
    ensures Drained(arr, l, [])
  {
    forall c: CodeUnit ensures Left(ListOf(arr, c), Positions(l, c), Count([], c)) {
      assert ListOf(arr, c) == Positions(l, c);
    }
  }

  lemma {:induction false} DrainStep(arr: map<CodeUnit, seq<nat>>, l: seq<CodeUnit>, f: seq<CodeUnit>, i: nat,
                                      c: CodeUnit)
    requires i < |f| && multiset(f) == multiset(l) && c == f[i]
    requires Drained(arr, l, f[..i])
    ensures ListOf(arr, c) != [] && ListOf(arr, c)[0] == Handed(l, f, i)
    ensures Drained(arr[c := ListOf(arr, c)[1..]], l, f[..i + 1])
  {
    RankInRange(l, f, i);
    assert Left(ListOf(arr, c), Positions(l, c), Count(f[..i], c));
    var next: map<CodeUnit, seq<nat>> := arr[c := ListOf(arr, c)[1..]];
    forall d: CodeUnit ensures Left(ListOf(next, d), Positions(l, d), Count(f[..i + 1], d)) {
      PrefixGrows(f, i, d);
      assert Left(ListOf(arr, d), Positions(l, d), Count(f[..i], d));
    }
  }

  lemma {:induction false} HandedAppend(l: seq<CodeUnit>, f: seq<CodeUnit>, s: seq<nat>, x: nat)
    requires |s| < |f| && HandedOut(l, f, s) && x == Handed(l, f, |s|)
    ensures HandedOut(l, f, s + [x])
  {
  }

  /** Takes the head of the list kept for row `i`; that list is never empty. */
  method TakeHead(arr: map<CodeUnit, seq<nat>>, l: seq<CodeUnit>, f: seq<CodeUnit>, i: nat, ghost s: seq<nat>)
    returns (x: nat, rest: map<CodeUnit, seq<nat>>)
    requires i < |f| && multiset(f) == multiset(l)
    requires Drained(arr, l, f[..i]) && |s| == i && HandedOut(l, f, s)
    ensures Drained(rest, l, f[..i + 1]) && HandedOut(l, f, s + [x])
  {
    var c: CodeUnit := f[i];
    DrainStep(arr, l, f, i, c);
    x := ListOf(arr, c)[0];
    rest := arr[c := ListOf(arr, c)[1..]];
    HandedAppend(l, f, s, x);
  }

  method DrainLists(l: seq<CodeUnit>, f: seq<CodeUnit>, lists: map<CodeUnit, seq<nat>>) returns (ls: array<nat>)
    requires multiset(f) == multiset(l)
    requires Queues(lists, l)
    ensures fresh(ls) && ls.Length == |f|
    ensures HandedOut(l, f, ls[..])
  {
    var arr: map<CodeUnit, seq<nat>> := lists;
    DrainStart(arr, l);
    ls := new nat[|f|];
    ghost var s: seq<nat> := [];
    var i := 0;
    assert f[..0] == [];
    while i < |f|
      invariant i <= |f|
      invariant Drained(arr, l, f[..i])
      invariant |s| == i && HandedOut(l, f, s)
      invariant ls[..i] == s
    {
      var x;
      x, arr := TakeHead(arr, l, f, i, s);
      ls[i] := x;
      s := s + [x];
      i := i + 1;
    }
    assert ls[..] == s;
  }

  method Decode(l: seq<CodeUnit>, marker: CodeUnit) returns (out: seq<CodeUnit>)
    requires |l| < UINT32
    ensures IsDecoding(l, marker, out)
    ensures marker !in l ==> out == []
    ensures marker in l ==> |out| == |l| - 1
    ensures marker in l ==> exists f, ls, visits :: ReadOff(l, marker, f, ls, visits, out)
  {
    out := [];
    if l != [] {
      var x := 0;
      while x < |l| && l[x] != marker
        invariant x <= |l|
        invariant marker !in l[..x]
      {
        x := x + 1;
      }
      if x < |l| {
        FirstIndexUnique(l, marker, x);
        out := DecodeFrom(l, x);
      } else {
        assert l[..x] == l;
      }
    }
    DecodingReadOff(l, marker, out);
  }

  lemma {:induction false} FirstIndexUnique(l: seq<CodeUnit>, c: CodeUnit, x: nat)
    requires x < |l| && l[x] == c && c !in l[..x]
    ensures FirstIndex(l, c) == x
  {
    var k := FirstIndex(l, c);
    assert forall m :: 0 <= m < x ==> l[m] in l[..x];
    assert forall m :: 0 <= m < k ==> l[m] in l[..k];
  }

  /** The sorted units and the permutation that sorts them stably. */
  method SortStably(l: seq<CodeUnit>, sz: nat) returns (lshift: array<nat>, ghost f: seq<CodeUnit>)
    requires sz == |l|
    ensures fresh(lshift) && lshift.Length == sz
    ensures StableSort(l, f, lshift[..])
  {
    var sorted := new CodeUnit[sz](i requires 0 <= i < |l| => l[i]);
    assert sorted[..] == l;
    Sort(sorted, (a: CodeUnit, b: CodeUnit) => a < b);
    f := sorted[..];
    var arr := FillLists(l);
    lshift := DrainLists(l, sorted[..], arr);
    FifoIsStable(l, f, lshift[..]);
  }

  /** Follows the permutation from `start`, storing the rows it meets from the back. */
  method WalkBack(lshift: array<nat>, start: nat, sz: nat) returns (decoded: array<nat>)
    requires start < sz == lshift.Length
    requires forall i :: 0 <= i < sz ==> lshift[i] < sz
    ensures fresh(decoded) && decoded.Length == sz
    ensures forall k :: 0 <= k < sz ==> decoded[k] == Walk(lshift[..], start, sz - k)
  {
    ghost var ls := lshift[..];
    var x := start;
    decoded := new nat[sz];
    var i := 0;
    while i < sz
      invariant i <= sz
      invariant lshift[..] == ls
      invariant x == Walk(ls, start, i)
      invariant forall k :: sz - i <= k < sz ==> decoded[k] == Walk(ls, start, sz - k)
    {
      x := lshift[x];
      decoded[sz - 1 - i] := x;
      i := i + 1;
    }
  }

  /** The part of the decoder that runs once the marker is found at `start`. */
  method DecodeFrom(l: seq<CodeUnit>, start: nat) returns (out: seq<CodeUnit>)
    requires start < |l| < UINT32
    ensures exists f, ls :: StableSort(l, f, ls) && out == ReadBack(l, ls, start)
  {
    var sz := |l| % UINT32;
    ghost var f;
    var lshift;
    lshift, f := SortStably(l, sz);
    ghost var ls := lshift[..];
    var decoded := WalkBack(lshift, start, sz);
    out := [];
    var j := sz - 1;
    while j > 0
      invariant 0 <= j <= sz - 1
      invariant forall k :: 0 <= k < sz ==> decoded[k] == Walk(ls, start, sz - k)
      invariant out == ReadBack(l, ls, start)[..sz - 1 - j]
    {
      out := out + [l[decoded[j]]];
      j := j - 1;
    }
    assert out == ReadBack(l, ls, start);
  }

  // ------------------------------------------------------------------ end to end

  /** Encoding and then decoding returns the text exactly when its guard holds. */
  method EncodeThenDecode(text: seq<CodeUnit>, marker: CodeUnit, unit: nat) returns (out: seq<CodeUnit>)
    requires TableFits(|text|, unit)
    ensures out == text <==> MarkedTextLeast(text, marker)
    ensures marker !in text ==> out == text
  {
    TableRoom(|text|, unit);
    var l := Encode(text, marker, unit);
    if text != [] {
      TransformPermutes(text + [marker], l);
      SameLength(text + [marker], l);
    }
    out := Decode(l, marker);
    if text != [] {
      RoundTripExact(text, marker, l, out);
    }
  }
}

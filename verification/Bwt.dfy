/** The Burrows-Wheeler transform of include/small_vectors/algo/bwt.h. */
module Bwt {
  import opened Sequences
  import opened Lexicographic

  // ---------------------------------------------------------------- rotations

  function Rotation(t: seq<CodeUnit>, i: nat): (r: seq<CodeUnit>)
    requires i <= |t|
    ensures |r| == |t|
    ensures forall k :: 0 <= k < |t| ==> r[k] == if i + k < |t| then t[i + k] else t[i + k - |t|]
  {
    t[i..] + t[..i]
  }

  function Rotations(t: seq<CodeUnit>): (r: seq<seq<CodeUnit>>)
    ensures |r| == |t| && forall i :: 0 <= i < |t| ==> r[i] == Rotation(t, i)
  {
    seq(|t|, i requires 0 <= i < |t| => Rotation(t, i))
  }

  /** `rows` lists every rotation of `t`, with multiplicity, in lexicographic order. */
  ghost predicate SortedRotations(t: seq<CodeUnit>, rows: seq<seq<CodeUnit>>) {
    && multiset(rows) == multiset(Rotations(t))
    && Ordered(rows, LexLeq)
  }

  function LastOr(x: seq<CodeUnit>): CodeUnit {
    if x == [] then 0 else x[|x| - 1]
  }

  function LastColumn(rows: seq<seq<CodeUnit>>): seq<CodeUnit> {
    Map(LastOr, rows)
  }

  /** `l` is the transform of `t`: the last column of its sorted rotations. */
  ghost predicate IsTransform(t: seq<CodeUnit>, l: seq<CodeUnit>) {
    exists rows :: SortedRotations(t, rows) && l == LastColumn(rows)
  }

  lemma {:induction false} RowsAreRotations(t: seq<CodeUnit>, rows: seq<seq<CodeUnit>>)
    requires SortedRotations(t, rows)
    ensures |rows| == |t|
    ensures forall r :: 0 <= r < |rows| ==> rows[r] in Rotations(t) && |rows[r]| == |t|
    ensures forall i :: 0 <= i < |t| ==> Rotation(t, i) in rows
  {
    var rs := Rotations(t);
    SameLength(rows, rs);
    forall r | 0 <= r < |rows| ensures rows[r] in rs && |rows[r]| == |t| {
      var i := IndexOf(rows, rs, r);
    }
    forall i | 0 <= i < |t| ensures Rotation(t, i) in rows {
      var r := IndexOf(rs, rows, i);
    }
  }

  /** Whatever sort is used, it yields these rows and no others. */
  lemma {:induction false} TransformUnique(t: seq<CodeUnit>, l1: seq<CodeUnit>, l2: seq<CodeUnit>)
    requires IsTransform(t, l1) && IsTransform(t, l2)
    ensures l1 == l2
  {
    var rows1 :| SortedRotations(t, rows1) && l1 == LastColumn(rows1);
    var rows2 :| SortedRotations(t, rows2) && l2 == LastColumn(rows2);
    LexIsAntisymmetric();
    OrderedUnique(rows1, rows2, LexLeq);
  }

  /**
   * `starts` are the positions of `t` ordered by the rotations that begin there, and `l`
   * lists the units just before them.
   */
  ghost predicate EmittedBefore(t: seq<CodeUnit>, starts: seq<nat>, l: seq<CodeUnit>) {
    && |starts| == |l| == |t|
    && (forall i :: 0 <= i < |t| ==> starts[i] < |t|)
    && (forall i, j :: 0 <= i < j < |t| ==> starts[i] != starts[j])
    && (forall i, j :: 0 <= i < j < |t| ==>
          LexLeq(t[starts[i]..] + t[..starts[i]], t[starts[j]..] + t[..starts[j]]))
    && (forall i :: 0 <= i < |t| ==> l[i] == t[if starts[i] == 0 then |t| - 1 else starts[i] - 1])
  }

  /** The transform in terms of positions: with its uniqueness, what the transform is. */
  lemma {:induction false} EmittedIsTransform(t: seq<CodeUnit>, starts: seq<nat>, l: seq<CodeUnit>)
    requires EmittedBefore(t, starts, l)
    ensures IsTransform(t, l)
  {
    DistinctIsPermutation(starts, |t|);
    PickPermutation(Rotations(t), starts);
    var rows := Pick(Rotations(t), starts);
    forall i, j | 0 <= i < j < |rows| ensures LexLeq(rows[i], rows[j]) {
      assert rows[i] == t[starts[i]..] + t[..starts[i]] && rows[j] == t[starts[j]..] + t[..starts[j]];
    }
    forall i | 0 <= i < |rows| ensures LastColumn(rows)[i] == l[i] {
      LastOfRotation(t, starts[i]);
    }
    assert l == LastColumn(rows);
    assert SortedRotations(t, rows);
  }

  // ------------------------------------------------------------- one shift back

  /** Moves the last unit to the front. */
  function RotateRight(x: seq<CodeUnit>): (r: seq<CodeUnit>)
    ensures |r| == |x|
    ensures forall k :: 0 <= k < |x| ==> r[k] == if k == 0 then x[|x| - 1] else x[k - 1]
  {
    if x == [] then [] else [x[|x| - 1]] + x[..|x| - 1]
  }

  lemma {:induction false} RotateRightOfRotation(t: seq<CodeUnit>, i: nat)
    requires i < |t|
    ensures RotateRight(Rotation(t, i)) == Rotation(t, if i == 0 then |t| - 1 else i - 1)
  {
  }

  /** `c` is `s` with its last element moved to the front. */
  ghost predicate Cycled<T>(s: seq<T>, c: seq<T>) {
    && |c| == |s|
    && forall i :: 0 <= i < |s| ==> c[i] == s[if i == 0 then |s| - 1 else i - 1]
  }

  lemma {:induction false} CycleMultiset<T>(s: seq<T>, c: seq<T>)
    requires Cycled(s, c)
    ensures multiset(c) == multiset(s)
  {
    var n := |s|;
    if n == 0 {
      assert c == s;
    } else {
      assert c == [s[n - 1]] + s[..n - 1];
      assert s == s[..n - 1] + [s[n - 1]];
    }
  }

  lemma {:induction false} RotationsCycle(t: seq<CodeUnit>)
    ensures Cycled(Rotations(t), Map(RotateRight, Rotations(t)))
  {
    forall i | 0 <= i < |t| {
      RotateRightOfRotation(t, i);
    }
  }

  /** Rotating every rotation right permutes the list of rotations. */
  lemma {:induction false} RotateRightPermutes(t: seq<CodeUnit>)
    ensures multiset(Map(RotateRight, Rotations(t))) == multiset(Rotations(t))
  {
    RotationsCycle(t);
    CycleMultiset(Rotations(t), Map(RotateRight, Rotations(t)));
  }

  /** The transform is a rearrangement of its input. */
  lemma {:induction false} TransformPermutes(t: seq<CodeUnit>, l: seq<CodeUnit>)
    requires IsTransform(t, l)
    ensures multiset(l) == multiset(t)
  {
    var rows :| SortedRotations(t, rows) && l == LastColumn(rows);
    MapMultiset(LastOr, rows, Rotations(t));
    CycleMultiset(t, Map(LastOr, Rotations(t)));
  }

  // ------------------------------------------------------- the stable permutation

  ghost predicate Ascending(s: seq<CodeUnit>) {
    forall i, j :: 0 <= i < j < |s| ==> s[i] <= s[j]
  }

  /** `ls` sorts `l` into `f`, keeping equal units in their original order. */
  ghost predicate StableSort(l: seq<CodeUnit>, f: seq<CodeUnit>, ls: seq<nat>) {
    && |f| == |l|
    && Ascending(f)
    && multiset(ls) == multiset(Iota(|l|))
    && |ls| == |l|
    && (forall i :: 0 <= i < |ls| ==> ls[i] < |l| && l[ls[i]] == f[i])
    && (forall i, j :: 0 <= i < j < |ls| && f[i] == f[j] ==> ls[i] < ls[j])
  }

  /** There is only one stable sorting permutation. */
  lemma {:induction false} StableSortUnique(l: seq<CodeUnit>, f1: seq<CodeUnit>, f2: seq<CodeUnit>,
                                        ls1: seq<nat>, ls2: seq<nat>)
    requires StableSort(l, f1, ls1) && StableSort(l, f2, ls2)
    ensures f1 == f2 && ls1 == ls2
  {
    var key := (x: nat) => if x < |l| then l[x] else 0;
    var leq := (x: nat, y: nat) => key(x) < key(y) || (key(x) == key(y) && x <= y);
    OrderedUnique(ls1, ls2, leq);
    assert f1 == f2;
  }

  /** Each row is its successor under `ls` rotated right: `ls` moves one unit along the text. */
  ghost predicate Steps(rows: seq<seq<CodeUnit>>, ls: seq<nat>) {
    && |rows| == |ls|
    && (forall i :: 0 <= i < |ls| ==> ls[i] < |ls|)
    && (forall i :: 0 <= i < |rows| ==> |rows[i]| == |rows| && rows[i] == RotateRight(rows[ls[i]]))
  }

  /**
   * The step the decoder rests on: reading the stable sorting permutation at a row
   * leads to the row one unit further along the text.
   */
  lemma {:induction false} LastToFirst(t: seq<CodeUnit>, rows: seq<seq<CodeUnit>>, f: seq<CodeUnit>, ls: seq<nat>)
    requires SortedRotations(t, rows)
    requires StableSort(LastColumn(rows), f, ls)
    ensures |rows| == |t| && Steps(rows, ls)
  {
    RowsAreRotations(t, rows);
    var picked := Pick(rows, ls);
    var back := Map(RotateRight, picked);
    PickPermutation(rows, ls);
    MapMultiset(RotateRight, picked, Rotations(t));
    RotateRightPermutes(t);
    BackOrdered(t, rows, f, ls);
    LexIsAntisymmetric();
    OrderedUnique(rows, back, LexLeq);
  }

  /** Rotating right puts the last unit in charge of the comparison. */
  lemma {:induction false} RotateRightMonotone(x: seq<CodeUnit>, y: seq<CodeUnit>)
    requires |x| == |y| > 0
    requires LastOr(x) < LastOr(y) || (LastOr(x) == LastOr(y) && LexLeq(x, y))
    ensures LexLeq(RotateRight(x), RotateRight(y))
  {
    if LastOr(x) == LastOr(y) {
      LexPrefix(x, y);
      assert RotateRight(x)[1..] == x[..|x| - 1] && RotateRight(y)[1..] == y[..|y| - 1];
    }
  }

  lemma {:induction false} BackOrdered(t: seq<CodeUnit>, rows: seq<seq<CodeUnit>>, f: seq<CodeUnit>, ls: seq<nat>)
    requires SortedRotations(t, rows)
    requires StableSort(LastColumn(rows), f, ls)
    ensures Ordered(Map(RotateRight, Pick(rows, ls)), LexLeq)
  {
    RowsAreRotations(t, rows);
    forall i, j | 0 <= i < j < |ls| ensures LexLeq(RotateRight(rows[ls[i]]), RotateRight(rows[ls[j]])) {
      assert LastOr(rows[ls[i]]) == f[i] && LastOr(rows[ls[j]]) == f[j];
      RotateRightMonotone(rows[ls[i]], rows[ls[j]]);
    }
  }

  /** The first column of the sorted rotations is the sorted transform. */
  lemma {:induction false} FirstColumnSorted(t: seq<CodeUnit>, rows: seq<seq<CodeUnit>>, f: seq<CodeUnit>, ls: seq<nat>)
    requires SortedRotations(t, rows)
    requires StableSort(LastColumn(rows), f, ls)
    ensures |f| == |rows| && forall i :: 0 <= i < |rows| ==> rows[i] != [] && rows[i][0] == f[i]
  {
    LastToFirst(t, rows, f, ls);
    RowsAreRotations(t, rows);
  }

  // -------------------------------------------------------------- the decode walk

  /** Where `k` steps of the permutation lead from `x`. */
  function Walk(ls: seq<nat>, x: nat, k: nat): (y: nat)
    requires x < |ls| && forall i :: 0 <= i < |ls| ==> ls[i] < |ls|
    ensures y < |ls|
  {
    if k == 0 then x else ls[Walk(ls, x, k - 1)]
  }

  /** The units met on the walk from `x`, the last one left out. */
  function ReadBack(l: seq<CodeUnit>, ls: seq<nat>, x: nat): (r: seq<CodeUnit>)
    requires x < |ls| == |l| && forall i :: 0 <= i < |ls| ==> ls[i] < |ls|
    ensures |r| == |l| - 1
    ensures forall i :: 0 <= i < |r| ==> r[i] == l[Walk(ls, x, i + 1)]
  {
    seq(|l| - 1, i requires 0 <= i < |l| - 1 => l[Walk(ls, x, i + 1)])
  }

  function FirstIndex(l: seq<CodeUnit>, c: CodeUnit): (k: nat)
    requires c in l
    ensures k < |l| && l[k] == c && c !in l[..k]
  {
    if l[0] == c then 0
    else
      assert forall k :: 0 <= k < |l| - 1 ==> l[1..][..k] == l[1..k + 1];
      var k := 1 + FirstIndex(l[1..], c);
      assert l[..k] == [l[0]] + l[1..][..k - 1];
      k
  }

  /** What the decoder yields for any input at all. */
  ghost predicate IsDecoding(l: seq<CodeUnit>, marker: CodeUnit, out: seq<CodeUnit>) {
    if marker !in l then out == []
    else exists f, ls :: StableSort(l, f, ls) && out == ReadBack(l, ls, FirstIndex(l, marker))
  }

  /**
   * `visits` are the rows the decoder stands on, from the first marker on, each found by
   * reading the stable sorting permutation at the one before; `out` is read off them.
   */
  ghost predicate ReadOff(l: seq<CodeUnit>, marker: CodeUnit, f: seq<CodeUnit>, ls: seq<nat>, visits: seq<nat>,
                          out: seq<CodeUnit>)
  {
    && StableSort(l, f, ls)
    && |visits| == |l| == |out| + 1
    && (forall i :: 0 <= i < |l| ==> visits[i] < |l|)
    && l[visits[0]] == marker && (forall i :: 0 <= i < visits[0] ==> l[i] != marker)
    && (forall i :: 1 <= i < |l| ==> visits[i] == ls[visits[i - 1]])
    && (forall i :: 0 <= i < |out| ==> out[i] == l[visits[i + 1]])
  }

  /** What the decoder does with an input that holds the marker, and with one that does not. */
  lemma {:induction false} DecodingReadOff(l: seq<CodeUnit>, marker: CodeUnit, out: seq<CodeUnit>)
    requires IsDecoding(l, marker, out)
    ensures marker !in l ==> out == []
    ensures marker in l ==> exists f, ls, visits :: ReadOff(l, marker, f, ls, visits, out)
  {
    if marker in l {
      var x := FirstIndex(l, marker);
      var f, ls :| StableSort(l, f, ls) && out == ReadBack(l, ls, x);
      var visits := seq(|l|, i requires 0 <= i < |l| => Walk(ls, x, i));
      assert forall i :: 0 <= i < x ==> l[i] in l[..x];
      assert ReadOff(l, marker, f, ls, visits, out);
    }
  }

  /** The decoder's answer is determined by its input. */
  lemma {:induction false} DecodingUnique(l: seq<CodeUnit>, marker: CodeUnit, o1: seq<CodeUnit>, o2: seq<CodeUnit>)
    requires IsDecoding(l, marker, o1) && IsDecoding(l, marker, o2)
    ensures o1 == o2
  {
    if marker in l {
      var f1, ls1 :| StableSort(l, f1, ls1) && o1 == ReadBack(l, ls1, FirstIndex(l, marker));
      var f2, ls2 :| StableSort(l, f2, ls2) && o2 == ReadBack(l, ls2, FirstIndex(l, marker));
      StableSortUnique(l, f1, f2, ls1, ls2);
    }
  }

  lemma {:induction false} RotationZero(x: seq<CodeUnit>)
    ensures Rotation(x, 0) == x == Rotation(x, |x|)
  {
  }

  lemma {:induction false} StepRotates(rows: seq<seq<CodeUnit>>, ls: seq<nat>, r: seq<CodeUnit>, here: nat, k: nat)
    requires Steps(rows, ls) && here < |rows|
    requires k < |r| == |rows|
    requires rows[here] == Rotation(r, k)
    ensures rows[ls[here]] == Rotation(r, k + 1)
  {
    var next := rows[ls[here]];
    forall m | 0 <= m < |r| ensures next[m] == Rotation(r, k + 1)[m] {
      assert RotateRight(next)[if m == |r| - 1 then 0 else m + 1] == next[m];
    }
  }

  /** After `k` steps the walk stands on the rotation by `k` of the row it started from. */
  lemma {:induction false} WalkRotates(rows: seq<seq<CodeUnit>>, ls: seq<nat>, x: nat, k: nat)
    requires Steps(rows, ls)
    requires x < |rows| && k <= |rows|
    ensures rows[Walk(ls, x, k)] == Rotation(rows[x], k)
  {
    if k == 0 {
      RotationZero(rows[x]);
    } else {
      WalkRotates(rows, ls, x, k - 1);
      StepRotates(rows, ls, rows[x], Walk(ls, x, k - 1), k - 1);
    }
  }

  /** The walk spells the row it starts from, short of its last unit. */
  lemma {:induction false} ReadBackSpellsRow(rows: seq<seq<CodeUnit>>, ls: seq<nat>, x: nat)
    requires Steps(rows, ls) && x < |rows|
    ensures ReadBack(LastColumn(rows), ls, x) == rows[x][..|rows| - 1]
  {
    var out := ReadBack(LastColumn(rows), ls, x);
    forall i | 0 <= i < |rows| - 1 ensures out[i] == rows[x][i] {
      WalkRotates(rows, ls, x, i + 1);
      assert LastOr(Rotation(rows[x], i + 1)) == rows[x][i];
    }
  }

  // ------------------------------------------------------------- the round trip

  /** `r` is the least rotation of `t` among those that end in the marker. */
  ghost predicate LeastMarked(t: seq<CodeUnit>, marker: CodeUnit, r: seq<CodeUnit>) {
    && t != []
    && r in Rotations(t) && LastOr(r) == marker
    && forall i :: 0 <= i < |t| && LastOr(Rotation(t, i)) == marker ==> LexLeq(r, Rotation(t, i))
  }

  lemma {:induction false} FirstIndexLeast(l: seq<CodeUnit>, c: CodeUnit, k: nat)
    requires k < |l| && l[k] == c
    ensures FirstIndex(l, c) <= k
  {
    var x := FirstIndex(l, c);
    assert forall m :: 0 <= m < x ==> l[m] in l[..x];
  }

  lemma {:induction false} RowsBelow(rows: seq<seq<CodeUnit>>, i: nat, j: nat)
    requires Ordered(rows, LexLeq) && i <= j < |rows|
    ensures LexLeq(rows[i], rows[j])
  {
    if i == j { LexReflexive(rows[i]); }
  }

  /** The first row that ends in the marker is the least marked rotation. */
  lemma {:induction false} FirstMarkedRow(t: seq<CodeUnit>, marker: CodeUnit, rows: seq<seq<CodeUnit>>)
    requires SortedRotations(t, rows)
    requires marker in LastColumn(rows)
    ensures LeastMarked(t, marker, rows[FirstIndex(LastColumn(rows), marker)])
  {
    var x := FirstIndex(LastColumn(rows), marker);
    RowsAreRotations(t, rows);
    forall i | 0 <= i < |t| && LastOr(Rotation(t, i)) == marker ensures LexLeq(rows[x], Rotation(t, i)) {
      var k :| 0 <= k < |rows| && rows[k] == Rotation(t, i);
      FirstIndexLeast(LastColumn(rows), marker, k);
      RowsBelow(rows, x, k);
    }
  }

  /** Decoding what was encoded gives the least marked rotation, whatever the text holds. */
  lemma {:induction false} DecodeOfTransform(t: seq<CodeUnit>, marker: CodeUnit, l: seq<CodeUnit>, out: seq<CodeUnit>)
    returns (r: seq<CodeUnit>)
    requires marker in t
    requires IsTransform(t, l) && IsDecoding(l, marker, out)
    ensures LeastMarked(t, marker, r) && |r| == |t| && out == r[..|t| - 1]
  {
    TransformPermutes(t, l);
    InMultiset(t, marker);
    InMultiset(l, marker);
    var rows :| SortedRotations(t, rows) && l == LastColumn(rows);
    var x := FirstIndex(l, marker);
    var f, ls :| StableSort(l, f, ls) && out == ReadBack(l, ls, x);
    LastToFirst(t, rows, f, ls);
    ReadBackSpellsRow(rows, ls, x);
    FirstMarkedRow(t, marker, rows);
    r := rows[x];
  }

  /**
   * What a caller can check on the text: no rotation that starts just after a marker
   * inside the text comes before the marked text itself.
   */
  ghost predicate MarkedTextLeast(text: seq<CodeUnit>, marker: CodeUnit) {
    var t := text + [marker];
    forall i :: 0 < i <= |text| && text[i - 1] == marker ==> LexLeq(t, Rotation(t, i))
  }

  lemma {:induction false} LastOfRotation(t: seq<CodeUnit>, i: nat)
    requires i < |t|
    ensures LastOr(Rotation(t, i)) == t[if i == 0 then |t| - 1 else i - 1]
  {
  }

  lemma {:induction false} LeastMarkedUnique(t: seq<CodeUnit>, marker: CodeUnit, r1: seq<CodeUnit>, r2: seq<CodeUnit>)
    requires LeastMarked(t, marker, r1) && LeastMarked(t, marker, r2)
    ensures r1 == r2
  {
    var i :| 0 <= i < |t| && Rotations(t)[i] == r1;
    var j :| 0 <= j < |t| && Rotations(t)[j] == r2;
    assert LastOr(Rotation(t, i)) == marker && LastOr(Rotation(t, j)) == marker;
    LexAntisymmetric(r1, r2);
  }

  lemma {:induction false} RotationsHold(t: seq<CodeUnit>)
    requires t != []
    ensures t in Rotations(t)
  {
    RotationZero(t);
    assert Rotations(t)[0] == t;
  }

  lemma {:induction false} TextBelowRotation(text: seq<CodeUnit>, marker: CodeUnit, i: nat)
    requires MarkedTextLeast(text, marker)
    requires i <= |text| && LastOr(Rotation(text + [marker], i)) == marker
    ensures LexLeq(text + [marker], Rotation(text + [marker], i))
  {
    var t := text + [marker];
    if i == 0 {
      RotationZero(t);
      LexReflexive(t);
    } else {
      LastOfRotation(t, i);
      assert text[i - 1] == marker;
    }
  }

  lemma {:induction false} TextLeastIfGuard(text: seq<CodeUnit>, marker: CodeUnit)
    requires MarkedTextLeast(text, marker)
    ensures LeastMarked(text + [marker], marker, text + [marker])
  {
    var t := text + [marker];
    RotationsHold(t);
    forall i | 0 <= i < |t| && LastOr(Rotation(t, i)) == marker ensures LexLeq(t, Rotation(t, i)) {
      TextBelowRotation(text, marker, i);
    }
  }

  lemma {:induction false} GuardIfTextLeast(text: seq<CodeUnit>, marker: CodeUnit)
    requires LeastMarked(text + [marker], marker, text + [marker])
    ensures MarkedTextLeast(text, marker)
  {
    var t := text + [marker];
    forall i | 0 < i <= |text| && text[i - 1] == marker ensures LexLeq(t, Rotation(t, i)) {
      LastOfRotation(t, i);
    }
  }

  /** The round trip succeeds exactly when the marked text is the least marked rotation. */
  lemma {:induction false} RoundTripExact(text: seq<CodeUnit>, marker: CodeUnit, l: seq<CodeUnit>, out: seq<CodeUnit>)
    requires IsTransform(text + [marker], l) && IsDecoding(l, marker, out)
    ensures out == text <==> MarkedTextLeast(text, marker)
  {
    assert (text + [marker])[|text|] == marker;
    var r := DecodeOfTransform(text + [marker], marker, l, out);
    if MarkedTextLeast(text, marker) {
      TextLeastIfGuard(text, marker);
      LeastMarkedUnique(text + [marker], marker, r, text + [marker]);
    }
    if r == text + [marker] { GuardIfTextLeast(text, marker); }
    assert r[|text|] == marker by { assert LastOr(r) == marker; }
    assert r == r[..|text|] + [marker];
  }

  /** In particular every text free of the marker survives. */
  lemma {:induction false} RoundTrip(text: seq<CodeUnit>, marker: CodeUnit, l: seq<CodeUnit>, out: seq<CodeUnit>)
    requires marker !in text
    requires IsTransform(text + [marker], l) && IsDecoding(l, marker, out)
    ensures out == text
  {
    RoundTripExact(text, marker, l, out);
  }

  /** With the marker in the text the trip may fail: `b$` comes back as `$b` when `$` sorts first. */
  lemma {:induction false} MarkerInTextFails(l: seq<CodeUnit>, out: seq<CodeUnit>)
    requires IsTransform([98, 36] + [36], l) && IsDecoding(l, 36, out)
    ensures out == [36, 98]
  {
    var t: seq<CodeUnit> := [98, 36, 36];
    assert [98, 36] + [36] == t;
    var r := DecodeOfTransform(t, 36, l, out);
    assert Rotation(t, 2) == [36, 98, 36];
    LeastOfExample(r);
  }

  lemma {:induction false} LeastOfExample(r: seq<CodeUnit>)
    requires LeastMarked([98, 36, 36], 36, r)
    ensures r == [36, 98, 36]
  {
    var t: seq<CodeUnit> := [98, 36, 36];
    assert Rotation(t, 0) == t && Rotation(t, 1) == [36, 36, 98] && Rotation(t, 2) == [36, 98, 36];
    var k :| 0 <= k < 3 && Rotations(t)[k] == r;
    assert LastOr(Rotation(t, 2)) == 36;
    assert LexLess([36, 98, 36], t);
  }

  // ------------------------------------------------- a walk that visits every row

  /** A marker that occurs once makes all rotations different. */
  lemma {:induction false} MarkedRotationsDistinct(text: seq<CodeUnit>, marker: CodeUnit)
    requires marker !in text
    ensures Distinct(Rotations(text + [marker]))
  {
    var t := text + [marker];
    forall i, j | 0 <= i < j < |t| ensures Rotation(t, i) != Rotation(t, j) {
      var k := |t| - 1 - i;
      assert Rotation(t, i)[k] == marker;
      assert Rotation(t, j)[k] == t[j - i - 1];
      assert t[j - i - 1] == text[j - i - 1];
    }
  }

  /** The rows the decoder's walk stands on, in order. */
  function Visits(ls: seq<nat>, x: nat): (r: seq<nat>)
    requires x < |ls| && forall i :: 0 <= i < |ls| ==> ls[i] < |ls|
    ensures |r| == |ls|
    ensures forall k :: 0 <= k < |ls| ==> r[k] == Walk(ls, x, k + 1)
  {
    seq(|ls|, k requires 0 <= k < |ls| => Walk(ls, x, k + 1))
  }

  lemma {:induction false} VisitsDiffer(t: seq<CodeUnit>, rows: seq<seq<CodeUnit>>, ls: seq<nat>, x: nat,
                                        i: nat, j: nat)
    requires Distinct(Rotations(t)) && Steps(rows, ls)
    requires x < |rows| == |t| && rows[x] in Rotations(t)
    requires 0 < i < j <= |ls|
    ensures Walk(ls, x, i) != Walk(ls, x, j)
  {
    WalkRotates(rows, ls, x, i);
    WalkRotates(rows, ls, x, j);
    RotationOfRotationDistinct(t, rows[x], i, j);
  }

  lemma {:induction false} VisitsDistinct(t: seq<CodeUnit>, rows: seq<seq<CodeUnit>>, ls: seq<nat>, x: nat)
    requires Distinct(Rotations(t)) && Steps(rows, ls)
    requires x < |rows| == |t| && rows[x] in Rotations(t)
    ensures multiset(Visits(ls, x)) == multiset(Iota(|ls|))
  {
    var visits := Visits(ls, x);
    forall i, j | 0 <= i < j < |visits| ensures visits[i] != visits[j] {
      VisitsDiffer(t, rows, ls, x, i + 1, j + 1);
    }
    DistinctIsPermutation(visits, |ls|);
  }

  /** With the marker absent from the text the decoder's walk meets every row exactly once. */
  lemma {:induction false} WalkVisitsAll(text: seq<CodeUnit>, marker: CodeUnit, rows: seq<seq<CodeUnit>>,
                      f: seq<CodeUnit>, ls: seq<nat>, x: nat)
    requires marker !in text
    requires SortedRotations(text + [marker], rows)
    requires StableSort(LastColumn(rows), f, ls)
    requires x < |rows|
    ensures |ls| == |text| + 1 && x < |ls| && forall i :: 0 <= i < |ls| ==> ls[i] < |ls|
    ensures multiset(Visits(ls, x)) == multiset(Iota(|ls|))
  {
    var t := text + [marker];
    LastToFirst(t, rows, f, ls);
    RowsAreRotations(t, rows);
    MarkedRotationsDistinct(text, marker);
    VisitsDistinct(t, rows, ls, x);
  }

  /** Rotating a rotation by different amounts gives different results. */
  lemma {:induction false} RotationOfRotationDistinct(t: seq<CodeUnit>, r: seq<CodeUnit>, i: nat, j: nat)
    requires Distinct(Rotations(t)) && r in Rotations(t)
    requires 0 < i < j <= |t|
    ensures |r| == |t| && Rotation(r, i) != Rotation(r, j)
  {
    var n := |t|;
    var p :| 0 <= p < n && Rotations(t)[p] == r;
    RotationAdds(t, p, i);
    RotationAdds(t, p, j);
    var a := if p + i < n then p + i else p + i - n;
    var b := if p + j < n then p + j else p + j - n;
    assert Rotations(t)[a] != Rotations(t)[b];
  }

  lemma {:induction false} RotationAdds(t: seq<CodeUnit>, p: nat, i: nat)
    requires p < |t| && i <= |t|
    ensures Rotation(Rotation(t, p), i) == Rotation(t, if p + i < |t| then p + i else p + i - |t|)
  {
  }
}

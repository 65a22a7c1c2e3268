/** Classification and filtering together: away from the virtual boundary they do not depend on which way the plane lies. */
module AlfSymmetry {
  import opened AlfClassification
  import opened AlfFilter

  // A boundary that no row is at
  const FAR := Boundary(1, -8)

  function Flip(d: Direction): Direction
  {
    match d
    case Hor => Ver
    case Ver => Hor
    case Diag0 => Diag0
    case Diag1 => Diag1
  }

  /** No row of the window around the block is next to the virtual boundary. */
  ghost predicate FarFromBoundary(b: Boundary, y: int)
  {
    && b.Row(y) != b.vbPos - 4 && b.Row(y) != b.vbPos
    && forall y' :: y - 2 <= y' <= y + 5 ==> b.Row(y') != b.vbPos && b.Row(y') != b.vbPos - 1
  }

  lemma GradientFar(rec: Plane, b: Boundary, d: Direction, r: int, c: int, y: int, y': int)
    requires b.Row(y) != b.vbPos && b.Row(y) != b.vbPos - 1
    ensures Gradient(rec, b, d, r, c, y) == Gradient(rec, FAR, d, r, c, y')
  {}

  /** The gradient k rows below and m columns to the right of a block's first sample, away from the boundary. */
  function Grid(rec: Plane, d: Direction, r: int, c: int, k: int, m: int): nat
  {
    Gradient(rec, FAR, d, r + k, c + m, 0)
  }

  /** Every other column of a row of the window. */
  function GridRow(rec: Plane, d: Direction, r: int, c: int, k: int, o: int): nat
  {
    Grid(rec, d, r, c, k, o - 2) + Grid(rec, d, r, c, k, o) + Grid(rec, d, r, c, k, o + 2) + Grid(rec, d, r, c, k, o + 4)
  }

  /** Every other row of those; the window is the even part and the odd part together. */
  function GridSum(rec: Plane, d: Direction, r: int, c: int, o: int): nat
  {
    GridRow(rec, d, r, c, o - 2, o) + GridRow(rec, d, r, c, o, o) + GridRow(rec, d, r, c, o + 2, o) + GridRow(rec, d, r, c, o + 4, o)
  }

  lemma WindowRowFar(rec: Plane, b: Boundary, d: Direction, r: int, c: int, y: int, k: int)
    requires b.Row(y + k) != b.vbPos && b.Row(y + k) != b.vbPos - 1
    ensures WindowRow(rec, b, d, r, c, y, k) == GridRow(rec, d, r, c, k, k % 2)
  {
    hide Gradient, MaskRow;
    var o := k % 2;
    GradientFar(rec, b, d, r + k, c + o - 2, y + k, 0);
    GradientFar(rec, b, d, r + k, c + o, y + k, 0);
    GradientFar(rec, b, d, r + k, c + o + 2, y + k, 0);
    GradientFar(rec, b, d, r + k, c + o + 4, y + k, 0);
    assert c + (o - 2) == c + o - 2 && c + (o + 2) == c + o + 2 && c + (o + 4) == c + o + 4;
  }

  lemma WindowSumFar(rec: Plane, b: Boundary, d: Direction, r: int, c: int, y: int)
    requires FarFromBoundary(b, y)
    ensures WindowSum(rec, b, d, r, c, y) == GridSum(rec, d, r, c, 0) + GridSum(rec, d, r, c, 1)
  {
    hide WindowRow, GridRow, MaskRow;
    WindowRowFar(rec, b, d, r, c, y, -2);
    WindowRowFar(rec, b, d, r, c, y, -1);
    WindowRowFar(rec, b, d, r, c, y, 0);
    WindowRowFar(rec, b, d, r, c, y, 1);
    WindowRowFar(rec, b, d, r, c, y, 2);
    WindowRowFar(rec, b, d, r, c, y, 3);
    WindowRowFar(rec, b, d, r, c, y, 4);
    WindowRowFar(rec, b, d, r, c, y, 5);
  }

  /** The gradient of the transposed plane at the transposed position, in the transposed direction. */
  lemma GridFlipped(rec: Plane, d: Direction, r: int, c: int, k: int, m: int)
    ensures Grid(Turned(1, rec), Flip(d), c, r, m, k) == Grid(rec, d, r, c, k, m)
  {}

  lemma GridColumnFlipped(rec: Plane, d: Direction, r: int, c: int, o: int, m: int)
    ensures GridRow(Turned(1, rec), Flip(d), c, r, m, o)
         == Grid(rec, d, r, c, o - 2, m) + Grid(rec, d, r, c, o, m) + Grid(rec, d, r, c, o + 2, m) + Grid(rec, d, r, c, o + 4, m)
  {
    hide Grid;
    GridFlipped(rec, d, r, c, o - 2, m);
    GridFlipped(rec, d, r, c, o, m);
    GridFlipped(rec, d, r, c, o + 2, m);
    GridFlipped(rec, d, r, c, o + 4, m);
  }

  lemma GridSumFlipped(rec: Plane, d: Direction, r: int, c: int, o: int)
    ensures GridSum(Turned(1, rec), Flip(d), c, r, o) == GridSum(rec, d, r, c, o)
  {
    hide Grid, Turned, Flip;
    GridColumnFlipped(rec, d, r, c, o, o - 2);
    GridColumnFlipped(rec, d, r, c, o, o);
    GridColumnFlipped(rec, d, r, c, o, o + 2);
    GridColumnFlipped(rec, d, r, c, o, o + 4);
  }

  /** A block of the transposed plane has the sums of the block, vertical and horizontal exchanged. */
  lemma WindowSumFlipped(rec: Plane, b: Boundary, d: Direction, r: int, c: int, y: int, x: int)
    requires FarFromBoundary(b, y) && FarFromBoundary(b, x)
    ensures WindowSum(Turned(1, rec), b, Flip(d), c, r, x) == WindowSum(rec, b, d, r, c, y)
  {
    hide WindowSum, GridSum, FarFromBoundary, Turned, Flip;
    WindowSumFar(rec, b, d, r, c, y);
    WindowSumFar(Turned(1, rec), b, Flip(d), c, r, x);
    GridSumFlipped(rec, d, r, c, 0);
    GridSumFlipped(rec, d, r, c, 1);
  }

  /** The transpose index with its transposition bit the other way. */
  function OtherTranspose(t: nat): nat { if t % 2 == 0 then t + 1 else t - 1 }

  /** The transposed block has the same class, and the other transposition unless it is as vertical as it is horizontal. */
  lemma ClassFlipped(rec: Plane, b: Boundary, r: int, c: int, y: int, x: int, shift: nat)
    requires FarFromBoundary(b, y) && FarFromBoundary(b, x)
    ensures var cl, cl' := BlockClass(rec, b, r, c, y, shift), BlockClass(Turned(1, rec), b, c, r, x, shift);
            && cl'.classIdx == cl.classIdx
            && cl'.transposeIdx == if WindowSum(rec, b, Ver, r, c, y) != WindowSum(rec, b, Hor, r, c, y)
                                   then OtherTranspose(cl.transposeIdx) else cl.transposeIdx
  {
    WindowSumFlipped(rec, b, Ver, r, c, y, x);
    WindowSumFlipped(rec, b, Hor, r, c, y, x);
    WindowSumFlipped(rec, b, Diag0, r, c, y, x);
    WindowSumFlipped(rec, b, Diag1, r, c, y, x);
    hide WindowSum, Turned, ActivityClass, DirectionClass, MaskRow;
    ClassesTurned(WindowSum(rec, b, Ver, r, c, y), WindowSum(rec, b, Hor, r, c, y), WindowSum(rec, b, Diag0, r, c, y),
                  WindowSum(rec, b, Diag1, r, c, y), shift);
  }

  lemma ClassesTurned(v: nat, h: nat, d0: nat, d1: nat, shift: nat)
    ensures ClassOf(h, v, d0, d1, false, shift).classIdx == ClassOf(v, h, d0, d1, false, shift).classIdx
    ensures ClassOf(h, v, d0, d1, false, shift).transposeIdx
         == if v != h then OtherTranspose(ClassOf(v, h, d0, d1, false, shift).transposeIdx) else ClassOf(v, h, d0, d1, false, shift).transposeIdx
  {
    ClassOfTurned(v, h, d0, d1, false, shift);
  }

  lemma TurnedTwice(rec: Plane, t: nat, r: int)
    requires t < 4
    ensures SameRow(Turned(OtherTranspose(t), Turned(1, rec)), Turned(t, rec), r)
  {}

  lemma SamePlane(shape: Shape, rec: Plane, rec': Plane, r: int, c: int, f: seq<int>, clip: seq<int>, rng: ClpRng)
    requires |f| == |clip| == NUM_COEFF && forall r' :: SameRow(rec, rec', r')
    ensures FilterSample(shape, rec, PlainRows(r), c, f, clip, false, rng) == FilterSample(shape, rec', PlainRows(r), c, f, clip, false, rng)
  {
    hide FilterSample, SameRow;
    FilterOfSameRows(shape, rec, rec', PlainRows(r), c, f, clip, false, rng);
  }

  /** Filtering the transposed plane with the other transposition is filtering the plane. */
  lemma FilterFlipped(shape: Shape, t: nat, rec: Plane, r: int, c: int, f: seq<int>, clip: seq<int>, rng: ClpRng)
    requires |f| == |clip| == NUM_COEFF && t < 4
    ensures var t' := OtherTranspose(t);
            FilterSample(shape, Turned(1, rec), PlainRows(c), r, Permute(shape, t', f), Permute(shape, t', clip), false, rng)
            == FilterSample(shape, rec, PlainRows(r), c, Permute(shape, t, f), Permute(shape, t, clip), false, rng)
  {
    hide FilterSample, Permute, SameRow, PlainRows, Turned;
    var t' := OtherTranspose(t);
    FilterTurned(shape, t, rec, r, c, f, clip, rng);
    FilterTurned(shape, t', Turned(1, rec), c, r, f, clip, rng);
    var (p, q) := TurnedPosition(t, r, c);
    assert TurnedPosition(t', c, r) == (p, q);
    forall r' ensures SameRow(Turned(t', Turned(1, rec)), Turned(t, rec), r') {
      TurnedTwice(rec, t, r');
    }
    SamePlane(shape, Turned(t', Turned(1, rec)), Turned(t, rec), p, q, f, clip, rng);
  }

  /** What a luma sample away from the virtual boundary becomes. */
  function PlainFiltered(flt: Filter, rec: Plane, cl: AlfClassifier, r: int, c: int): int
    requires flt.Valid() && !flt.chroma && cl.classIdx < 25
  {
    FilterSample(flt.shape, rec, PlainRows(r), c, Permute(flt.shape, cl.transposeIdx, ClassSlice(flt.filterSet, cl.classIdx)),
                 Permute(flt.shape, cl.transposeIdx, ClassSlice(flt.clipSet, cl.classIdx)), false, flt.rng)
  }

  /** At three or more rows from the virtual boundary this is what the filter computes. */
  lemma PlainIsFiltered(flt: Filter, rec: Plane, b: Boundary, cl: AlfClassifier, r: int, c: int, y: int)
    requires flt.Valid() && !flt.chroma && cl.classIdx < 25 && RowsToBoundary(b, b.Row(y)) >= 3
    ensures flt.At(rec, b, cl, r, c, y) == PlainFiltered(flt, rec, cl, r, c)
  {
    hide FilterSample, Permute, ClassSlice, MaskRow;
    assert ClampedRows(r, RowsToBoundary(b, b.Row(y))) == PlainRows(r);
  }

  /** Inside a CTU, the next vertical position is the next row. */
  lemma {:induction false} NextRowOf(y: int, h: nat)
    requires PowerOfTwo(h) && MaskRow(y, h) + 1 < h
    ensures MaskRow(y + 1, h) == MaskRow(y, h) + 1
    decreases h
  {
    if y % 2 == 0 {
      assert (y + 1) / 2 == y / 2;
    } else {
      assert (y + 1) / 2 == y / 2 + 1;
      NextRowOf(y / 2, h / 2);
    }
  }

  lemma {:induction false} PreviousRowOf(y: int, h: nat)
    requires PowerOfTwo(h) && MaskRow(y, h) > 0
    ensures MaskRow(y - 1, h) == MaskRow(y, h) - 1
    decreases h
  {
    if y % 2 == 0 {
      assert (y - 1) / 2 == y / 2 - 1;
      PreviousRowOf(y / 2, h / 2);
    } else {
      assert (y - 1) / 2 == y / 2;
    }
  }

  /** The rows of a block whose window is away from the boundary are three or more rows from it. */
  lemma BlockRowsFar(b: Boundary, y: int, i: int)
    requires b.Valid() && FarFromBoundary(b, y) && 0 <= i < 4
    ensures RowsToBoundary(b, b.Row(y + i)) >= 3
  {
    hide MaskRow, PowerOfTwo;
    var z, h := y + i, b.ctuHeight;
    RowInRange(z, h);
    if b.Row(z) < b.vbPos {
      assert b.Row(z) != b.vbPos - 1;
      NextRowOf(z, h);
      assert b.Row(z + 1) != b.vbPos - 1;
      NextRowOf(z + 1, h);
      assert b.Row(z + 2) != b.vbPos - 1;
    } else {
      assert b.Row(z) != b.vbPos;
      PreviousRowOf(z, h);
      assert b.Row(z - 1) != b.vbPos;
      PreviousRowOf(z - 1, h);
      assert b.Row(z - 2) != b.vbPos;
    }
  }

  /**
   * Classifying and filtering the transposed plane gives the transposed result, for every luma sample of a block that is not
   * exactly as vertical as it is horizontal and whose window is away from the virtual boundary in either orientation.
   */
  lemma FilterCommutesWithTransposition(flt: Filter, rec: Plane, b: Boundary, r: int, c: int, y: int, x: int, shift: nat, i: int, j: int)
    requires flt.Valid() && !flt.chroma && b.Valid() && FarFromBoundary(b, y) && FarFromBoundary(b, x)
    requires WindowSum(rec, b, Ver, r, c, y) != WindowSum(rec, b, Hor, r, c, y) && 0 <= i < 4 && 0 <= j < 4
    ensures var cl, cl' := BlockClass(rec, b, r, c, y, shift), BlockClass(Turned(1, rec), b, c, r, x, shift);
            && cl.classIdx < 25 && cl'.classIdx < 25
            && flt.At(Turned(1, rec), b, cl', c + j, r + i, x + j) == flt.At(rec, b, cl, r + i, c + j, y + i)
  {
    hide WindowSum, Turned, FilterSample, Permute, ClassSlice, ActivityClass, DirectionClass, MaskRow, PowerOfTwo;
    ClassFlipped(rec, b, r, c, y, x, shift);
    var cl, cl' := BlockClass(rec, b, r, c, y, shift), BlockClass(Turned(1, rec), b, c, r, x, shift);
    ClassRange(WindowSum(rec, b, Ver, r, c, y), WindowSum(rec, b, Hor, r, c, y), WindowSum(rec, b, Diag0, r, c, y),
               WindowSum(rec, b, Diag1, r, c, y), AtBoundary(b, y), shift);
    hide BlockClass, FarFromBoundary, Filter.At, RowsToBoundary;
    BlockRowsFar(b, y, i);
    BlockRowsFar(b, x, j);
    PlainIsFiltered(flt, rec, b, cl, r + i, c + j, y + i);
    PlainIsFiltered(flt, Turned(1, rec), b, cl', c + j, r + i, x + j);
    FilterFlipped(flt.shape, cl.transposeIdx, rec, r + i, c + j, ClassSlice(flt.filterSet, cl.classIdx),
                  ClassSlice(flt.clipSet, cl.classIdx), flt.rng);
  }
}

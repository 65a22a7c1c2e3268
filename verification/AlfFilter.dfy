/** The 7x7 and 5x5 filters and the cross-component filter of AdaptiveLoopFilter.cpp. */
module AlfFilter {
  import opened Arithmetic
  import opened AlfClassification

  datatype Shape = Diamond7 | Diamond5

  datatype ClpRng = ClpRng(min: int, max: int)

  const NUM_COEFF: nat := 13

  function ClipALF(clip: int, ref: int, val0: int, val1: int): int
  {
    Clip3(-clip, clip, val0 - ref) + Clip3(-clip, clip, val1 - ref)
  }

  /** One coefficient's part of the correction: the clipped differences to a pair of opposite samples. */
  function Term(coeff: int, clip: int, curr: int, val0: int, val1: int): int
  {
    coeff * ClipALF(clip, curr, val0, val1)
  }

  lemma TermSymmetric()
    ensures forall f, k, c, a, b :: Term(f, k, c, a, b) == Term(f, k, c, b, a)
  {}

  function ClipPel(x: int, rng: ClpRng): int
  {
    Clip3(rng.min, rng.max, x)
  }

  function ShiftDown(x: int, n: nat): int
    decreases n
  {
    if n == 0 then x else ShiftDown(x / 2, n - 1)
  }

  /** The coefficients, or clip values, as the block's transpose index orders them. */
  function Permute(shape: Shape, transposeIdx: nat, f: seq<int>): (g: seq<int>)
    requires |f| == NUM_COEFF
    ensures |g| == |f|
  {
    match shape
    case Diamond7 =>
      if transposeIdx == 1 then [f[9], f[4], f[10], f[8], f[1], f[5], f[11], f[7], f[3], f[0], f[2], f[6], f[12]]
      else if transposeIdx == 2 then [f[0], f[3], f[2], f[1], f[8], f[7], f[6], f[5], f[4], f[9], f[10], f[11], f[12]]
      else if transposeIdx == 3 then [f[9], f[8], f[10], f[4], f[3], f[7], f[11], f[5], f[1], f[0], f[2], f[6], f[12]]
      else f
    case Diamond5 =>
      (if transposeIdx == 1 then [f[4], f[1], f[5], f[3], f[0], f[2], f[6]]
       else if transposeIdx == 2 then [f[0], f[3], f[2], f[1], f[4], f[5], f[6]]
       else if transposeIdx == 3 then [f[4], f[3], f[5], f[1], f[0], f[2], f[6]]
       else f[..7]) + f[7..]
  }

  /** The rows that the pointers pImg0 to pImg6 stand on. */
  datatype Rows = Rows(img0: int, img1: int, img2: int, img3: int, img4: int, img5: int, img6: int)

  /** The weighted, clipped differences of one sample, through the row pointers. */
  function TapSum(shape: Shape, rec: Plane, p: Rows, c: int, f: seq<int>, clip: seq<int>): int
    requires |f| == |clip| == NUM_COEFF
  {
    var curr := rec(p.img0, c);
    match shape
    case Diamond7 =>
      Term(f[0], clip[0], curr, rec(p.img5, c), rec(p.img6, c))
      + Term(f[1], clip[1], curr, rec(p.img3, c + 1), rec(p.img4, c - 1))
      + Term(f[2], clip[2], curr, rec(p.img3, c), rec(p.img4, c))
      + Term(f[3], clip[3], curr, rec(p.img3, c - 1), rec(p.img4, c + 1))
      + Term(f[4], clip[4], curr, rec(p.img1, c + 2), rec(p.img2, c - 2))
      + Term(f[5], clip[5], curr, rec(p.img1, c + 1), rec(p.img2, c - 1))
      + Term(f[6], clip[6], curr, rec(p.img1, c), rec(p.img2, c))
      + Term(f[7], clip[7], curr, rec(p.img1, c - 1), rec(p.img2, c + 1))
      + Term(f[8], clip[8], curr, rec(p.img1, c - 2), rec(p.img2, c + 2))
      + Term(f[9], clip[9], curr, rec(p.img0, c + 3), rec(p.img0, c - 3))
      + Term(f[10], clip[10], curr, rec(p.img0, c + 2), rec(p.img0, c - 2))
      + Term(f[11], clip[11], curr, rec(p.img0, c + 1), rec(p.img0, c - 1))
    case Diamond5 =>
      Term(f[0], clip[0], curr, rec(p.img3, c), rec(p.img4, c))
      + Term(f[1], clip[1], curr, rec(p.img1, c + 1), rec(p.img2, c - 1))
      + Term(f[2], clip[2], curr, rec(p.img1, c), rec(p.img2, c))
      + Term(f[3], clip[3], curr, rec(p.img1, c - 1), rec(p.img2, c + 1))
      + Term(f[4], clip[4], curr, rec(p.img0, c + 2), rec(p.img0, c - 2))
      + Term(f[5], clip[5], curr, rec(p.img0, c + 1), rec(p.img0, c - 1))
  }

  /** The filtered sample; next to the virtual boundary the correction is weakened by three more bits. */
  function FilterSample(shape: Shape, rec: Plane, p: Rows, c: int, f: seq<int>, clip: seq<int>, nearBoundary: bool, rng: ClpRng): int
    requires |f| == |clip| == NUM_COEFF
  {
    var sum := TapSum(shape, rec, p, c, f, clip);
    ClipPel(rec(p.img0, c) + (if nearBoundary then ShiftDown(sum + 512, 10) else ShiftDown(sum + 64, 7)), rng)
  }

  // Transposition

  /** Rows of a sample away from the virtual boundary. */
  function PlainRows(r: int): Rows
  {
    Rows(r, r + 1, r - 1, r + 2, r - 2, r + 3, r - 3)
  }

  /** The plane seen through a transpose index: as it is, transposed, mirrored, or rotated by a quarter. */
  function Turned(transposeIdx: nat, rec: Plane): Plane
  {
    if transposeIdx == 1 then (r, c) => rec(c, r)
    else if transposeIdx == 2 then (r, c) => rec(r, -c)
    else if transposeIdx == 3 then (r, c) => rec(-c, r)
    else rec
  }

  /** Where sample (r, c) lies in the turned plane. */
  function TurnedPosition(transposeIdx: nat, r: int, c: int): (int, int)
  {
    if transposeIdx == 1 then (c, r)
    else if transposeIdx == 2 then (r, -c)
    else if transposeIdx == 3 then (c, -r)
    else (r, c)
  }

  lemma TapSumTurned(shape: Shape, transposeIdx: nat, rec: Plane, r: int, c: int, f: seq<int>, clip: seq<int>)
    requires |f| == |clip| == NUM_COEFF && transposeIdx < 4
    ensures var (r', c') := TurnedPosition(transposeIdx, r, c);
            && Turned(transposeIdx, rec)(r', c') == rec(r, c)
            && TapSum(shape, rec, PlainRows(r), c, Permute(shape, transposeIdx, f), Permute(shape, transposeIdx, clip))
            == TapSum(shape, Turned(transposeIdx, rec), PlainRows(r'), c', f, clip)
  {
    hide TapSum, PlainRows;
    if transposeIdx == 1 {
      if shape == Diamond7 { TapSumTransposed7(rec, r, c, f, clip); } else { TapSumTransposed5(rec, r, c, f, clip); }
    } else if transposeIdx == 2 {
      if shape == Diamond7 { TapSumMirrored7(rec, r, c, f, clip); } else { TapSumMirrored5(rec, r, c, f, clip); }
    } else if transposeIdx == 3 {
      if shape == Diamond7 { TapSumRotated7(rec, r, c, f, clip); } else { TapSumRotated5(rec, r, c, f, clip); }
    } else {
      assert Permute(shape, 0, f) == f && Permute(shape, 0, clip) == clip;
    }
  }

  lemma TapSumTransposed7(rec: Plane, r: int, c: int, f: seq<int>, clip: seq<int>)
    requires |f| == |clip| == NUM_COEFF
    ensures TapSum(Diamond7, rec, PlainRows(r), c, Permute(Diamond7, 1, f), Permute(Diamond7, 1, clip))
         == TapSum(Diamond7, Turned(1, rec), PlainRows(c), r, f, clip)
  {
    TermSymmetric();
    hide Term;
  }

  lemma TapSumTransposed5(rec: Plane, r: int, c: int, f: seq<int>, clip: seq<int>)
    requires |f| == |clip| == NUM_COEFF
    ensures TapSum(Diamond5, rec, PlainRows(r), c, Permute(Diamond5, 1, f), Permute(Diamond5, 1, clip))
         == TapSum(Diamond5, Turned(1, rec), PlainRows(c), r, f, clip)
  {
    TermSymmetric();
    hide Term;
  }

  lemma TapSumMirrored7(rec: Plane, r: int, c: int, f: seq<int>, clip: seq<int>)
    requires |f| == |clip| == NUM_COEFF
    ensures TapSum(Diamond7, rec, PlainRows(r), c, Permute(Diamond7, 2, f), Permute(Diamond7, 2, clip))
         == TapSum(Diamond7, Turned(2, rec), PlainRows(r), -c, f, clip)
  {
    TermSymmetric();
    hide Term;
  }

  lemma TapSumMirrored5(rec: Plane, r: int, c: int, f: seq<int>, clip: seq<int>)
    requires |f| == |clip| == NUM_COEFF
    ensures TapSum(Diamond5, rec, PlainRows(r), c, Permute(Diamond5, 2, f), Permute(Diamond5, 2, clip))
         == TapSum(Diamond5, Turned(2, rec), PlainRows(r), -c, f, clip)
  {
    TermSymmetric();
    hide Term;
  }

  lemma TapSumRotated7(rec: Plane, r: int, c: int, f: seq<int>, clip: seq<int>)
    requires |f| == |clip| == NUM_COEFF
    ensures TapSum(Diamond7, rec, PlainRows(r), c, Permute(Diamond7, 3, f), Permute(Diamond7, 3, clip))
         == TapSum(Diamond7, Turned(3, rec), PlainRows(c), -r, f, clip)
  {
    TermSymmetric();
    hide Term;
  }

  lemma TapSumRotated5(rec: Plane, r: int, c: int, f: seq<int>, clip: seq<int>)
    requires |f| == |clip| == NUM_COEFF
    ensures TapSum(Diamond5, rec, PlainRows(r), c, Permute(Diamond5, 3, f), Permute(Diamond5, 3, clip))
         == TapSum(Diamond5, Turned(3, rec), PlainRows(c), -r, f, clip)
  {
    TermSymmetric();
    hide Term;
  }

  /**
   * Away from the virtual boundary, filtering a sample with permuted coefficients and clip values is filtering it with
   * the original ones in the turned plane.
   */
  lemma FilterTurned(shape: Shape, transposeIdx: nat, rec: Plane, r: int, c: int, f: seq<int>, clip: seq<int>, rng: ClpRng)
    requires |f| == |clip| == NUM_COEFF && transposeIdx < 4
    ensures var (r', c') := TurnedPosition(transposeIdx, r, c);
            FilterSample(shape, rec, PlainRows(r), c, Permute(shape, transposeIdx, f), Permute(shape, transposeIdx, clip), false, rng)
            == FilterSample(shape, Turned(transposeIdx, rec), PlainRows(r'), c', f, clip, false, rng)
  {
    hide TapSum, Permute;
    TapSumTurned(shape, transposeIdx, rec, r, c, f, clip);
  }

  // The virtual boundary

  /** Luma boundaries lie 4 rows above the end of a CTU row, chroma boundaries 2 rows. */
  predicate ValidFor(b: Boundary, chroma: bool)
  {
    PowerOfTwo(b.ctuHeight) && b.ctuHeight >= 8 && b.vbPos == b.ctuHeight - (if chroma then 2 else 4)
  }

  /** How many rows lie between a row of a CTU and the virtual boundary, on the row's own side. */
  function RowsToBoundary(b: Boundary, row: int): int
  {
    if row < b.vbPos then b.vbPos - 1 - row else row - b.vbPos
  }

  function MinInt(a: int, b: int): int { if a < b then a else b }

  /** Taps at vertical distance 1, 2 and 3 on either side of row r, none further away than dist rows. */
  function ClampedRows(r: int, dist: int): Rows
  {
    Rows(r, r + MinInt(1, dist), r - MinInt(1, dist), r + MinInt(2, dist), r - MinInt(2, dist),
         r + MinInt(3, dist), r - MinInt(3, dist))
  }

  /** The chain of row pointer substitutions for row r, in row yVb of its CTU. */
  method RowPointerChain(b: Boundary, chroma: bool, yVb: int, r: int) returns (p: Rows)
    requires ValidFor(b, chroma) && 0 <= yVb < b.ctuHeight
    ensures var q := ClampedRows(r, RowsToBoundary(b, yVb));
            && p.(img5 := 0, img6 := 0) == q.(img5 := 0, img6 := 0)
            && (!chroma ==> p == q)
  {
    var vbPos := b.vbPos;
    var img0, img1, img2, img3, img4, img5, img6 := r, r + 1, r - 1, r + 2, r - 2, r + 3, r - 3;
    if yVb < vbPos && yVb >= vbPos - (if chroma then 2 else 4) {
      img1 := if yVb == vbPos - 1 then img0 else img1;
      img3 := if yVb >= vbPos - 2 then img1 else img3;
      img5 := if yVb >= vbPos - 3 then img3 else img5;
      img2 := if yVb == vbPos - 1 then img0 else img2;
      img4 := if yVb >= vbPos - 2 then img2 else img4;
      img6 := if yVb >= vbPos - 3 then img4 else img6;
    } else if yVb >= vbPos && yVb <= vbPos + (if chroma then 1 else 3) {
      img2 := if yVb == vbPos then img0 else img2;
      img4 := if yVb <= vbPos + 1 then img2 else img4;
      img6 := if yVb <= vbPos + 2 then img4 else img6;
      img1 := if yVb == vbPos then img0 else img1;
      img3 := if yVb <= vbPos + 1 then img1 else img3;
      img5 := if yVb <= vbPos + 2 then img3 else img5;
    }
    p := Rows(img0, img1, img2, img3, img4, img5, img6);
  }

  /** The 5x5 filter does not look at the outermost pair of rows. */
  lemma TapSumNoOuterRows(rec: Plane, p: Rows, q: Rows, c: int, f: seq<int>, clip: seq<int>)
    requires |f| == |clip| == NUM_COEFF && p.(img5 := 0, img6 := 0) == q.(img5 := 0, img6 := 0)
    ensures TapSum(Diamond5, rec, p, c, f, clip) == TapSum(Diamond5, rec, q, c, f, clip)
  {
    hide Term;
  }

  /** The filtered sample at row r, column c, vertical position y: every tap at distance d is read at min(d, rows to the boundary). */
  function FilteredAt(shape: Shape, rec: Plane, b: Boundary, r: int, c: int, y: int, f: seq<int>, clip: seq<int>, rng: ClpRng): int
    requires |f| == |clip| == NUM_COEFF
  {
    var dist := RowsToBoundary(b, b.Row(y));
    FilterSample(shape, rec, ClampedRows(r, dist), c, f, clip, dist == 0, rng)
  }

  /** Rows r - y + k for k = 0, 1, ... between two virtual boundaries: the segment of the vertical position y. */
  predicate SameSegment(b: Boundary, y: int, y': int)
  {
    var at := if b.Row(y) < b.vbPos then b.Row(y) + (b.ctuHeight - b.vbPos) else b.Row(y) - b.vbPos;
    0 <= at + (y' - y) < b.ctuHeight
  }

  /** Segments are what the virtual boundaries cut the vertical positions into. */
  lemma SegmentsEndAtBoundaries(b: Boundary, chroma: bool, y: int, y': int)
    requires ValidFor(b, chroma)
    ensures SameSegment(b, y, y') <==> (y - b.vbPos) / b.ctuHeight == (y' - b.vbPos) / b.ctuHeight
  {
    var h, v := b.ctuHeight, b.vbPos;
    MaskIsRemainder(y, h);
    hide MaskRow, PowerOfTwo;
    SegmentOf(y, y', v, h);
  }

  lemma SegmentOf(y: int, y': int, v: nat, h: nat)
    requires v < h
    ensures 0 <= (if y % h < v then y % h + (h - v) else y % h - v) + (y' - y) < h <==> (y - v) / h == (y' - v) / h
  {
    var q, m := y / h, y % h;
    assert y == q * h + m;
    Distribute(h, q, -1);
    var p, at := if m < v then q - 1 else q, if m < v then m + (h - v) else m - v;
    assert y - v == p * h + at;
    Quotient(p, at, h);
    SameQuotient(p, at, y' - v, h);
  }

  lemma SameQuotient(p: int, at: nat, x: int, h: nat)
    requires at < h
    ensures 0 <= at + (x - (p * h + at)) < h <==> x / h == p
  {
    var q, m := x / h, x % h;
    assert x == q * h + m;
    if q < p {
      MultiplyMore(p, q, h);
    } else if p < q {
      MultiplyMore(q, p, h);
    }
  }

  ghost predicate SameRow(rec: Plane, rec': Plane, r: int)
  {
    forall c :: rec(r, c) == rec'(r, c)
  }

  /** Both planes have the same samples in the rows of the segment that row r, at vertical position y, belongs to. */
  ghost predicate AgreeOnSegment(rec: Plane, rec': Plane, b: Boundary, r: int, y: int)
  {
    forall r' :: SameSegment(b, y, y + r' - r) ==> SameRow(rec, rec', r')
  }

  lemma ClampedInSegment(b: Boundary, chroma: bool, y: int, d: nat)
    requires ValidFor(b, chroma) && d <= (if chroma then 2 else 3)
    ensures var m := MinInt(d, RowsToBoundary(b, b.Row(y)));
            SameSegment(b, y, y + m) && SameSegment(b, y, y - m)
  {
    RowInRange(y, b.ctuHeight);
  }

  lemma {:induction false} RowInRange(y: int, h: nat)
    requires PowerOfTwo(h)
    ensures MaskRow(y, h) < h
    decreases h
  {
    if h > 1 { RowInRange(y / 2, h / 2); }
  }

  lemma RowsAgree(rec: Plane, rec': Plane, b: Boundary, chroma: bool, r: int, y: int, d: nat)
    requires ValidFor(b, chroma) && d <= (if chroma then 2 else 3) && AgreeOnSegment(rec, rec', b, r, y)
    ensures var m := MinInt(d, RowsToBoundary(b, b.Row(y)));
            SameRow(rec, rec', r + m) && SameRow(rec, rec', r - m)
  {
    hide SameRow, ValidFor, MaskRow;
    var m := MinInt(d, RowsToBoundary(b, b.Row(y)));
    hide SameSegment, MinInt, RowsToBoundary;
    ClampedInSegment(b, chroma, y, d);
    assert y + (r + m) - r == y + m && y + (r - m) - r == y - m;
  }

  /** The rows a shape reads are the same in both planes. */
  ghost predicate SameRows(shape: Shape, rec: Plane, rec': Plane, p: Rows)
  {
    && SameRow(rec, rec', p.img0) && SameRow(rec, rec', p.img1) && SameRow(rec, rec', p.img2)
    && SameRow(rec, rec', p.img3) && SameRow(rec, rec', p.img4)
    && (shape == Diamond7 ==> SameRow(rec, rec', p.img5) && SameRow(rec, rec', p.img6))
  }

  lemma FilterOfSameRows(shape: Shape, rec: Plane, rec': Plane, p: Rows, c: int, f: seq<int>, clip: seq<int>, near: bool, rng: ClpRng)
    requires |f| == |clip| == NUM_COEFF && SameRows(shape, rec, rec', p)
    ensures FilterSample(shape, rec, p, c, f, clip, near, rng) == FilterSample(shape, rec', p, c, f, clip, near, rng)
  {
    hide Term, ShiftDown, ClipPel;
  }

  /** No row across a virtual boundary is read: samples beyond it do not matter. */
  lemma NoReadAcrossBoundary(shape: Shape, rec: Plane, rec': Plane, b: Boundary, chroma: bool, r: int, c: int, y: int,
                             f: seq<int>, clip: seq<int>, rng: ClpRng)
    requires |f| == |clip| == NUM_COEFF && ValidFor(b, chroma) && (chroma ==> shape == Diamond5)
    requires AgreeOnSegment(rec, rec', b, r, y)
    ensures FilteredAt(shape, rec, b, r, c, y, f, clip, rng) == FilteredAt(shape, rec', b, r, c, y, f, clip, rng)
  {
    hide SameRow, SameSegment, AgreeOnSegment, MaskRow, FilterSample, ValidFor;
    var dist := RowsToBoundary(b, b.Row(y));
    RowsAgree(rec, rec', b, chroma, r, y, 0);
    RowsAgree(rec, rec', b, chroma, r, y, 1);
    RowsAgree(rec, rec', b, chroma, r, y, 2);
    if shape == Diamond7 {
      RowsAgree(rec, rec', b, chroma, r, y, 3);
    }
    FilterOfSameRows(shape, rec, rec', ClampedRows(r, dist), c, f, clip, dist == 0, rng);
  }

  // The block loops

  /** The coefficients of class k. */
  function ClassSlice(filterSet: seq<int>, k: nat): (f: seq<int>)
    requires (k + 1) * NUM_COEFF <= |filterSet|
    ensures |f| == NUM_COEFF
  {
    filterSet[k * NUM_COEFF..(k + 1) * NUM_COEFF]
  }

  /** The filter parameters of a call. */
  datatype Filter = Filter(shape: Shape, chroma: bool, filterSet: seq<int>, clipSet: seq<int>, rng: ClpRng)
  {
    /** Luma has coefficients for 25 classes, chroma for one; chroma uses the small shape. */
    predicate Valid()
    {
      && |filterSet| == |clipSet| == (if chroma then 1 else 25) * NUM_COEFF
      && (chroma ==> shape == Diamond5)
    }

    /** What row r, column c of the plane becomes, given the classifier of its block. */
    function At(rec: Plane, b: Boundary, cl: AlfClassifier, r: int, c: int, y: int): int
      requires Valid() && cl.classIdx < 25
    {
      FilteredAt(shape, rec, b, r, c, y, Permute(shape, TransposeIdx(cl), ClassSlice(filterSet, Class(cl))),
                 Permute(shape, TransposeIdx(cl), ClassSlice(clipSet, Class(cl))), rng)
    }

    function Class(cl: AlfClassifier): nat { if chroma then 0 else cl.classIdx }

    function TransposeIdx(cl: AlfClassifier): nat { if chroma then 0 else cl.transposeIdx }
  }

  /** A call of filterBlk: the source plane, where the block lies in source and destination, and what to filter with. */
  datatype BlockCall = BlockCall(classifier: seq<AlfClassifier>, rec: Plane, dstX: nat, dstY: nat, srcX: int, srcY: int,
                                 flt: Filter, b: Boundary)
  {
    predicate Valid()
    {
      && flt.Valid() && ValidFor(b, flt.chroma)
      && |classifier| == (MAX_CU_SIZE / 4) * (MAX_CU_SIZE / 4)
    }

    /** The classifier of the 4x4 block that sample (i, j) of the block lies in; chroma has none. */
    function ClassifierAt(i: int, j: int): AlfClassifier
    {
      var k := (i / 4) * (MAX_CU_SIZE / 4) + j / 4;
      if !flt.chroma && 0 <= k < |classifier| then classifier[k] else AlfClassifier(0, 0)
    }

    predicate Classified(i: int, j: int)
    {
      ClassifierAt(i, j).classIdx < 25
    }

    /** Luma blocks lie within a CTU. */
    predicate Fits(i: int, j: int)
    {
      flt.chroma || (0 <= i < MAX_CU_SIZE && 0 <= j < MAX_CU_SIZE)
    }

    /** The permuted coefficients and clip values of the 4x4 block at (i, j). */
    ghost predicate FilterOf(i: nat, j: nat, f: seq<int>, clip: seq<int>)
      requires Valid()
    {
      var cl := ClassifierAt(i, j);
      && cl.classIdx < 25
      && f == Permute(flt.shape, flt.TransposeIdx(cl), ClassSlice(flt.filterSet, flt.Class(cl)))
      && clip == Permute(flt.shape, flt.TransposeIdx(cl), ClassSlice(flt.clipSet, flt.Class(cl)))
    }

    /** The rows that row i of the block reads, and whether it is next to the virtual boundary. */
    ghost predicate RowsOf(i: nat, p: Rows, isNearVB: bool)
    {
      var dist := RowsToBoundary(b, b.Row(dstY + i));
      var q := ClampedRows(srcY + i, dist);
      && p.(img5 := 0, img6 := 0) == q.(img5 := 0, img6 := 0)
      && (!flt.chroma ==> p == q)
      && (isNearVB <==> dist == 0)
    }

    /** Destination sample (m, n) holds the filtered sample. */
    ghost predicate Done(m: int, n: int, v: int)
    {
      var cl := ClassifierAt(m - dstY, n - dstX);
      flt.Valid() && cl.classIdx < 25 && v == flt.At(rec, b, cl, srcY + m - dstY, srcX + n - dstX, m)
    }
  }

  predicate InRect(m: int, n: int, top: int, left: int, height: int, width: int)
  {
    top <= m < top + height && left <= n < left + width
  }

  /** A raster of tiles of the given height: i rows over the whole width, then j columns of the next tiles. */
  predicate InTiles(m: int, n: int, top: int, left: int, i: int, j: int, width: int, tile: int)
  {
    InRect(m, n, top, left, i, width) || InRect(m, n, top + i, left, tile, j)
  }

  /**
   * Filters a block into the destination: every sample becomes what the class and the transpose index of its 4x4 block
   * make of its neighbourhood, and samples outside the block are left alone.
   */
  method FilterBlk(call: BlockCall, dst: array2<int>, width: nat, height: nat)
    requires call.Valid() && call.Fits(height - 1, width - 1) && width % 4 == 0 && height % 4 == 0
    requires forall i, j :: 0 <= i < height && 0 <= j < width ==> call.Classified(i, j)
    requires call.dstY + height <= dst.Length0 && call.dstX + width <= dst.Length1
    modifies dst
    ensures forall m, n :: InRect(m, n, call.dstY, call.dstX, height, width) ==> call.Done(m, n, dst[m, n])
    ensures forall m, n :: 0 <= m < dst.Length0 && 0 <= n < dst.Length1 && !InRect(m, n, call.dstY, call.dstX, height, width) ==>
      dst[m, n] == old(dst[m, n])
  {
    hide BlockCall.Done, BlockCall.Valid, BlockCall.Classified, Filter.Valid;
    var i := 0;
    while i < height
      invariant 0 <= i <= height && i % 4 == 0
      invariant forall m, n :: InRect(m, n, call.dstY, call.dstX, i, width) ==> call.Done(m, n, dst[m, n])
      invariant forall m, n :: 0 <= m < dst.Length0 && 0 <= n < dst.Length1 && !InRect(m, n, call.dstY, call.dstX, i, width) ==>
        dst[m, n] == old(dst[m, n])
    {
      var j := 0;
      while j < width
        invariant 0 <= j <= width && j % 4 == 0
        invariant forall m, n :: InTiles(m, n, call.dstY, call.dstX, i, j, width, 4) ==> call.Done(m, n, dst[m, n])
        invariant forall m, n :: 0 <= m < dst.Length0 && 0 <= n < dst.Length1 && !InTiles(m, n, call.dstY, call.dstX, i, j, width, 4) ==>
          dst[m, n] == old(dst[m, n])
      {
        Filter4x4(call, dst, i, j);
        j := j + 4;
      }
      i := i + 4;
    }
  }

  /** One 4x4 block of FilterBlk: its filter, and the row pointers of each of its rows. */
  method Filter4x4(call: BlockCall, dst: array2<int>, i: nat, j: nat)
    requires call.Valid() && call.Fits(i + 3, j + 3) && i % 4 == 0 && j % 4 == 0 && call.Classified(i, j)
    requires call.dstY + i + 4 <= dst.Length0 && call.dstX + j + 4 <= dst.Length1
    modifies dst
    ensures forall m, n :: InRect(m, n, call.dstY + i, call.dstX + j, 4, 4) ==> call.Done(m, n, dst[m, n])
    ensures forall m, n :: 0 <= m < dst.Length0 && 0 <= n < dst.Length1 && !InRect(m, n, call.dstY + i, call.dstX + j, 4, 4) ==>
      dst[m, n] == old(dst[m, n])
  {
    hide Permute, MaskRow, PowerOfTwo, BlockCall.Done, BlockCall.ClassifierAt, ClampedRows;
    var flt := call.flt;
    var transposeIdx := 0;
    var coef, clip := ClassSlice(flt.filterSet, 0), ClassSlice(flt.clipSet, 0);
    FilterOfBlock(call, i, j);
    if !flt.chroma {
      var cl := call.classifier[(i / 4) * (MAX_CU_SIZE / 4) + j / 4];
      transposeIdx := cl.transposeIdx;
      coef, clip := ClassSlice(flt.filterSet, cl.classIdx), ClassSlice(flt.clipSet, cl.classIdx);
    }
    var filterCoeff, filterClipp := Permute(flt.shape, transposeIdx, coef), Permute(flt.shape, transposeIdx, clip);
    assert call.FilterOf(i, j, filterCoeff, filterClipp);
    hide ClassSlice;
    for ii := 0 to 4
      invariant forall m, n :: InRect(m, n, call.dstY + i, call.dstX + j, ii, 4) ==> call.Done(m, n, dst[m, n])
      invariant forall m, n :: 0 <= m < dst.Length0 && 0 <= n < dst.Length1 && !InRect(m, n, call.dstY + i, call.dstX + j, ii, 4) ==>
        dst[m, n] == old(dst[m, n])
    {
      var yVb := call.b.Row(call.dstY + i + ii);
      RowInRange(call.dstY + i + ii, call.b.ctuHeight);
      var p := RowPointerChain(call.b, flt.chroma, yVb, call.srcY + i + ii);
      FilterRow(call, dst, i, ii, j, p, filterCoeff, filterClipp, yVb == call.b.vbPos - 1 || yVb == call.b.vbPos);
    }
  }

  /** Four samples of row i + ii, through its row pointers. */
  method FilterRow(call: BlockCall, dst: array2<int>, i: nat, ii: nat, j: nat, p: Rows, filterCoeff: seq<int>, filterClipp: seq<int>,
                   isNearVB: bool)
    requires call.Valid() && i % 4 == 0 && j % 4 == 0 && ii < 4 && |filterCoeff| == |filterClipp| == NUM_COEFF
    requires call.FilterOf(i, j, filterCoeff, filterClipp) && call.RowsOf(i + ii, p, isNearVB)
    requires call.dstY + i + ii < dst.Length0 && call.dstX + j + 4 <= dst.Length1
    modifies dst
    ensures forall m, n :: InRect(m, n, call.dstY + i + ii, call.dstX + j, 1, 4) ==> call.Done(m, n, dst[m, n])
    ensures forall m, n :: 0 <= m < dst.Length0 && 0 <= n < dst.Length1 && !InRect(m, n, call.dstY + i + ii, call.dstX + j, 1, 4) ==>
      dst[m, n] == old(dst[m, n])
  {
    hide BlockCall.Done, BlockCall.FilterOf, BlockCall.RowsOf, BlockCall.Valid, FilterSample;
    for jj := 0 to 4
      invariant forall m, n :: InRect(m, n, call.dstY + i + ii, call.dstX + j, 1, jj) ==> call.Done(m, n, dst[m, n])
      invariant forall m, n :: 0 <= m < dst.Length0 && 0 <= n < dst.Length1 && !InRect(m, n, call.dstY + i + ii, call.dstX + j, 1, jj) ==>
        dst[m, n] == old(dst[m, n])
    {
      SampleDone(call, i, ii, j, jj, p, filterCoeff, filterClipp, isNearVB);
      dst[call.dstY + i + ii, call.dstX + j + jj] :=
        FilterSample(call.flt.shape, call.rec, p, call.srcX + j + jj, filterCoeff, filterClipp, isNearVB, call.flt.rng);
    }
  }

  lemma FilterOfBlock(call: BlockCall, i: nat, j: nat)
    requires call.Valid() && call.Fits(i + 3, j + 3) && i % 4 == 0 && j % 4 == 0 && call.Classified(i, j)
    ensures !call.flt.chroma ==> 0 <= (i / 4) * (MAX_CU_SIZE / 4) + j / 4 < |call.classifier|
    ensures call.ClassifierAt(i, j).classIdx < 25
    ensures !call.flt.chroma ==> call.ClassifierAt(i, j) == call.classifier[(i / 4) * (MAX_CU_SIZE / 4) + j / 4]
  {
    hide ValidFor;
  }

  /** A sample filtered through the substituted row pointers is the directly defined one. */
  lemma SampleDone(call: BlockCall, i: nat, ii: nat, j: nat, jj: nat, p: Rows, f: seq<int>, clip: seq<int>, isNearVB: bool)
    requires call.Valid() && i % 4 == 0 && j % 4 == 0 && ii < 4 && jj < 4 && |f| == |clip| == NUM_COEFF
    requires call.FilterOf(i, j, f, clip) && call.RowsOf(i + ii, p, isNearVB)
    ensures call.Done(call.dstY + i + ii, call.dstX + j + jj,
                      FilterSample(call.flt.shape, call.rec, p, call.srcX + j + jj, f, clip, isNearVB, call.flt.rng))
  {
    hide Permute, TapSum, MaskRow, PowerOfTwo, ShiftDown, ClassSlice;
    assert (i + ii) / 4 == i / 4 && (j + jj) / 4 == j / 4;
    if call.flt.chroma {
      var q := ClampedRows(call.srcY + i + ii, RowsToBoundary(call.b, call.b.Row(call.dstY + i + ii)));
      TapSumNoOuterRows(call.rec, p, q, call.srcX + j + jj, f, clip);
    }
  }
}

/** The cross-component filter of AdaptiveLoopFilter.cpp, which corrects chroma samples from the luma plane. */
module CrossComponentFilter {
  import opened AlfClassification
  import opened AlfFilter
  import opened AlfFilterLaws
  import opened Arithmetic
  import opened BitArithmetic
  import Geometry

  const NUM_CCALF_COEFF: nat := 7

  function Diff(coeff: int, val: int, curr: int): int { coeff * (val - curr) }

  /** The weighted luma differences around luma sample (r, c), with the three row offsets of the vertical taps. */
  function CrossSum(luma: Plane, r: int, c: int, offset1: int, offset2: int, offset3: int, coeff: seq<int>): int
    requires |coeff| == NUM_CCALF_COEFF
  {
    var curr := luma(r, c);
    Diff(coeff[0], luma(r + offset2, c), curr)
    + Diff(coeff[1], luma(r, c - 1), curr)
    + Diff(coeff[2], luma(r, c + 1), curr)
    + Diff(coeff[3], luma(r + offset1, c - 1), curr)
    + Diff(coeff[4], luma(r + offset1, c), curr)
    + Diff(coeff[5], luma(r + offset1, c + 1), curr)
    + Diff(coeff[6], luma(r + offset3, c), curr)
  }

  /** A call of filterBlkCcAlf; the planes differ by at most a factor of two in each direction. */
  datatype CcCall = CcCall(luma: Plane, dstX: nat, dstY: nat, srcX: int, srcY: int, scaleX: nat, scaleY: nat,
                           coeff: seq<int>, bitDepth: nat, b: Boundary)
  {
    predicate Valid()
    {
      |coeff| == NUM_CCALF_COEFF && scaleX <= 1 && scaleY <= 1 && b.Valid()
    }

    function Rng(): ClpRng { ClpRng(0, Pow2(bitDepth) - 1) }

    /** The luma row inside its CTU that belongs to chroma row m. */
    function Pos(m: int): nat { b.Row(Geometry.Up(m, scaleY)) }

    /** Without vertical subsampling the two rows below the boundary are left alone. */
    predicate Skipped(m: int)
    {
      scaleY == 0 && (Pos(m) == b.vbPos || Pos(m) == b.vbPos + 1)
    }

    /** A chroma sample with the correction that the luma sum calls for. */
    function Corrected(self: int, sum: int): int
    {
      var offset := Pow2(bitDepth) / 2;
      var correction := ClipPel(ShiftDown(sum + 64, 7) + offset, Rng()) - offset;
      ClipPel(self + correction, Rng())
    }

    /** What chroma sample (m, n) becomes: every luma row at vertical distance d is read at min(d, rows to the boundary). */
    function At(m: int, n: int, self: int): int
      requires Valid()
    {
      var dist := RowsToBoundary(b, Pos(m));
      var r, c := srcY + Geometry.Up(m - dstY, scaleY), srcX + Geometry.Up(n - dstX, scaleX);
      if Skipped(m) then self
      else Corrected(self, CrossSum(luma, r, c, MinInt(1, dist), -MinInt(1, dist), MinInt(2, dist), coeff))
    }
  }

  /**
   * Corrects a block of chroma samples in place: each becomes what its own old value and the clamped luma neighbourhood
   * give, and samples outside the block are left alone.
   */
  method FilterBlkCcAlf(call: CcCall, dst: array2<int>, width: nat, height: nat)
    requires call.Valid() && width % 4 == 0 && height % 4 == 0
    requires call.dstY + height <= dst.Length0 && call.dstX + width <= dst.Length1
    modifies dst
    ensures forall m, n :: InRect(m, n, call.dstY, call.dstX, height, width) ==> dst[m, n] == call.At(m, n, old(dst[m, n]))
    ensures forall m, n :: 0 <= m < dst.Length0 && 0 <= n < dst.Length1 && !InRect(m, n, call.dstY, call.dstX, height, width) ==>
      dst[m, n] == old(dst[m, n])
  {
    hide CcCall.At, CcCall.Valid;
    var i := 0;
    while i < height
      invariant 0 <= i <= height && i % 4 == 0
      invariant forall m, n :: InRect(m, n, call.dstY, call.dstX, i, width) ==> dst[m, n] == call.At(m, n, old(dst[m, n]))
      invariant forall m, n :: 0 <= m < dst.Length0 && 0 <= n < dst.Length1 && !InRect(m, n, call.dstY, call.dstX, i, width) ==>
        dst[m, n] == old(dst[m, n])
    {
      var j := 0;
      while j < width
        invariant 0 <= j <= width && j % 4 == 0
        invariant forall m, n :: InTiles(m, n, call.dstY, call.dstX, i, j, width, 4) ==> dst[m, n] == call.At(m, n, old(dst[m, n]))
        invariant forall m, n :: 0 <= m < dst.Length0 && 0 <= n < dst.Length1 && !InTiles(m, n, call.dstY, call.dstX, i, j, width, 4) ==>
          dst[m, n] == old(dst[m, n])
      {
        Correct4x4(call, dst, i, j);
        j := j + 4;
      }
      i := i + 4;
    }
  }

  method Correct4x4(call: CcCall, dst: array2<int>, i: nat, j: nat)
    requires call.Valid() && call.dstY + i + 4 <= dst.Length0 && call.dstX + j + 4 <= dst.Length1
    modifies dst
    ensures forall m, n :: InRect(m, n, call.dstY + i, call.dstX + j, 4, 4) ==> dst[m, n] == call.At(m, n, old(dst[m, n]))
    ensures forall m, n :: 0 <= m < dst.Length0 && 0 <= n < dst.Length1 && !InRect(m, n, call.dstY + i, call.dstX + j, 4, 4) ==>
      dst[m, n] == old(dst[m, n])
  {
    hide CcCall.At, CcCall.Valid;
    for ii := 0 to 4
      invariant forall m, n :: InRect(m, n, call.dstY + i, call.dstX + j, ii, 4) ==> dst[m, n] == call.At(m, n, old(dst[m, n]))
      invariant forall m, n :: 0 <= m < dst.Length0 && 0 <= n < dst.Length1 && !InRect(m, n, call.dstY + i, call.dstX + j, ii, 4) ==>
        dst[m, n] == old(dst[m, n])
    {
      CorrectRow(call, dst, i + ii, j);
    }
  }

  /** Four chroma samples of row i, with the row offsets that its distance to the boundary leaves. */
  method CorrectRow(call: CcCall, dst: array2<int>, i: nat, j: nat)
    requires call.Valid() && call.dstY + i < dst.Length0 && call.dstX + j + 4 <= dst.Length1
    modifies dst
    ensures forall m, n :: InRect(m, n, call.dstY + i, call.dstX + j, 1, 4) ==> dst[m, n] == call.At(m, n, old(dst[m, n]))
    ensures forall m, n :: 0 <= m < dst.Length0 && 0 <= n < dst.Length1 && !InRect(m, n, call.dstY + i, call.dstX + j, 1, 4) ==>
      dst[m, n] == old(dst[m, n])
  {
    hide CrossSum, CcCall.Corrected, MaskRow, PowerOfTwo, Geometry.Up;
    var offset1, offset2, offset3 := 1, -1, 2;
    var pos := call.b.Row(Geometry.Up(call.dstY + i, call.scaleY));
    var vbPos := call.b.vbPos;
    if call.scaleY == 0 && (pos == vbPos || pos == vbPos + 1) {
      return;
    }
    if pos == vbPos - 2 || pos == vbPos + 1 {
      offset3 := offset1;
    } else if pos == vbPos - 1 || pos == vbPos {
      offset1, offset2, offset3 := 0, 0, 0;
    }
    var r := call.srcY + Geometry.Up(i, call.scaleY);
    for jj := 0 to 4
      invariant forall m, n :: InRect(m, n, call.dstY + i, call.dstX + j, 1, jj) ==> dst[m, n] == call.At(m, n, old(dst[m, n]))
      invariant forall m, n :: 0 <= m < dst.Length0 && 0 <= n < dst.Length1 && !InRect(m, n, call.dstY + i, call.dstX + j, 1, jj) ==>
        dst[m, n] == old(dst[m, n])
    {
      var c := call.srcX + Geometry.Up(j, call.scaleX) + Geometry.Up(jj, call.scaleX);
      Geometry.UpAdd(j, jj, call.scaleX);
      var sum := CrossSum(call.luma, r, c, offset1, offset2, offset3, call.coeff);
      dst[call.dstY + i, call.dstX + j + jj] := call.Corrected(dst[call.dstY + i, call.dstX + j + jj], sum);
    }
  }

  /** No luma row across the virtual boundary is read: luma samples beyond it do not matter. */
  lemma NoLumaReadAcrossBoundary(call: CcCall, luma': Plane, m: int, n: int, self: int)
    requires call.Valid()
    requires AgreeOnSegment(call.luma, luma', call.b, call.srcY + Geometry.Up(m - call.dstY, call.scaleY), Geometry.Up(m, call.scaleY))
    ensures call.At(m, n, self) == call.(luma := luma').At(m, n, self)
  {
    hide Diff, CrossSum, SameSegment, AgreeOnSegment, MaskRow, PowerOfTwo, SameRow, ShiftDown;
    var r, y := call.srcY + Geometry.Up(m - call.dstY, call.scaleY), Geometry.Up(m, call.scaleY);
    RowsAgree(call.luma, luma', call.b, false, r, y, 0);
    RowsAgree(call.luma, luma', call.b, false, r, y, 1);
    RowsAgree(call.luma, luma', call.b, false, r, y, 2);
    var dist := RowsToBoundary(call.b, call.Pos(m));
    var c := call.srcX + Geometry.Up(n - call.dstX, call.scaleX);
    CrossSumOfSameRows(call.luma, luma', r, c, MinInt(1, dist), -MinInt(1, dist), MinInt(2, dist), call.coeff);
  }

  lemma CrossSumOfSameRows(luma: Plane, luma': Plane, r: int, c: int, offset1: int, offset2: int, offset3: int, coeff: seq<int>)
    requires |coeff| == NUM_CCALF_COEFF
    requires SameRow(luma, luma', r) && SameRow(luma, luma', r + offset1)
    requires SameRow(luma, luma', r + offset2) && SameRow(luma, luma', r + offset3)
    ensures CrossSum(luma, r, c, offset1, offset2, offset3, coeff) == CrossSum(luma', r, c, offset1, offset2, offset3, coeff)
  {
    hide Diff;
  }

  // What a correction is

  /** The luma samples around the centre whose weights the seven coefficients are, in raster order. */
  const CC_TAPS: seq<Tap> := [Tap(-1, 0), Tap(0, -1), Tap(0, 1), Tap(1, -1), Tap(1, 0), Tap(1, 1), Tap(2, 0)]

  /** A row at most dist rows away. */
  function Near(row: int, dist: nat): int
  {
    if row > dist then dist else if -row > dist then 0 - dist else row
  }

  /** The weighted differences of the first n taps to the luma sample (r, c). */
  function WeightedLuma(luma: Plane, n: nat, r: int, c: int, dist: nat, coeff: seq<int>): int
    requires n <= NUM_CCALF_COEFF == |coeff|
  {
    if n == 0 then 0
    else
      var t := CC_TAPS[n - 1];
      WeightedLuma(luma, n - 1, r, c, dist, coeff) + coeff[n - 1] * (luma(r + Near(t.row, dist), c + t.col) - luma(r, c))
  }

  lemma WeightedLumaStep(luma: Plane, n: nat, r: int, c: int, dist: nat, coeff: seq<int>, row: int, col: int)
    requires n < NUM_CCALF_COEFF == |coeff| && row == r + Near(CC_TAPS[n].row, dist) && col == c + CC_TAPS[n].col
    ensures WeightedLuma(luma, n + 1, r, c, dist, coeff)
         == WeightedLuma(luma, n, r, c, dist, coeff) + Diff(coeff[n], luma(row, col), luma(r, c))
  {}

  lemma CrossSumIsWeighted(luma: Plane, r: int, c: int, dist: nat, coeff: seq<int>)
    requires |coeff| == NUM_CCALF_COEFF
    ensures CrossSum(luma, r, c, MinInt(1, dist), -MinInt(1, dist), MinInt(2, dist), coeff)
         == WeightedLuma(luma, NUM_CCALF_COEFF, r, c, dist, coeff)
  {
    var o1, o3 := MinInt(1, dist), MinInt(2, dist);
    assert WeightedLuma(luma, 0, r, c, dist, coeff) == 0;
    hide WeightedLuma, Diff;
    WeightedLumaStep(luma, 0, r, c, dist, coeff, r + -o1, c);
    WeightedLumaStep(luma, 1, r, c, dist, coeff, r, c - 1);
    WeightedLumaStep(luma, 2, r, c, dist, coeff, r, c + 1);
    WeightedLumaStep(luma, 3, r, c, dist, coeff, r + o1, c - 1);
    WeightedLumaStep(luma, 4, r, c, dist, coeff, r + o1, c);
    WeightedLumaStep(luma, 5, r, c, dist, coeff, r + o1, c + 1);
    WeightedLumaStep(luma, 6, r, c, dist, coeff, r + o3, c);
  }

  /** A correction of x: in 128ths rounded to the nearest, and within half of the sample range on either side. */
  function Limited(x: int, half: int): int { Clip3(-half, half - 1, (x + 64) / 128) }

  /**
   * A chroma sample that is not skipped becomes itself plus the limited weighted luma differences, within the sample range;
   * no luma row is further away than the virtual boundary.
   */
  lemma CorrectionIsWeighted(call: CcCall, m: int, n: int, self: int)
    requires call.Valid() && call.bitDepth >= 1 && !call.Skipped(m)
    ensures var dist := RowsToBoundary(call.b, call.Pos(m));
            var r, c := call.srcY + Geometry.Up(m - call.dstY, call.scaleY), call.srcX + Geometry.Up(n - call.dstX, call.scaleX);
            var half := Pow2(call.bitDepth - 1);
            call.At(m, n, self)
            == Clip3(0, 2 * half - 1, self + Limited(WeightedLuma(call.luma, NUM_CCALF_COEFF, r, c, dist, call.coeff), half))
  {
    hide CrossSum, WeightedLuma, RowsToBoundary, MinInt, Pow2, CcCall.Pos, CcCall.Skipped, CcCall.Corrected, Limited, Geometry.Up;
    DistanceIsNat(call.b, call.Pos(m));
    var dist := RowsToBoundary(call.b, call.Pos(m));
    var r, c := call.srcY + Geometry.Up(m - call.dstY, call.scaleY), call.srcX + Geometry.Up(n - call.dstX, call.scaleX);
    var sum := WeightedLuma(call.luma, NUM_CCALF_COEFF, r, c, dist, call.coeff);
    CrossSumIsWeighted(call.luma, r, c, dist, call.coeff);
    CorrectedIsLimited(call, self, sum);
    hide Clip3;
  }

  lemma DistanceIsNat(b: Boundary, row: int)
    ensures RowsToBoundary(b, row) >= 0
  {}

  lemma CorrectedIsLimited(call: CcCall, self: int, sum: int)
    requires call.bitDepth >= 1
    ensures var half := Pow2(call.bitDepth - 1);
            call.Corrected(self, sum) == Clip3(0, 2 * half - 1, self + Limited(sum, half))
  {
    assert Pow2(call.bitDepth) == 2 * Pow2(call.bitDepth - 1);
    hide Pow2, ShiftDown;
    Shifts(sum + 64);
  }
}

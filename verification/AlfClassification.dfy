/** The block classification of AdaptiveLoopFilter.cpp. */
module AlfClassification {
  import opened Arithmetic
  import opened BitArithmetic

  // A luma plane: the sample in a row and a column, margins included.
  type Plane = (int, int) -> int

  datatype Direction = Hor | Ver | Diag0 | Diag1

  const MAX_CU_SIZE: nat := 128

  datatype AlfClassifier = AlfClassifier(classIdx: nat, transposeIdx: nat)

  /** Storing an int in a 16-bit sample. */
  function ToPel(x: int): int
  {
    (x + 0x8000) % 0x1_0000 - 0x8000
  }

  /** The stored sample is the number modulo 2^16; twice a sample survives exactly below 2^14. */
  lemma ToPelWraps(x: int)
    ensures -0x8000 <= ToPel(x) < 0x8000 && (x - ToPel(x)) % 0x1_0000 == 0
    ensures ToPel(2 * x) == 2 * x <==> -0x4000 <= x < 0x4000
  {}

  ghost predicate HasDepth(rec: Plane, bits: nat)
  {
    forall r, c :: 0 <= rec(r, c) < Pow2(bits)
  }

  predicate PowerOfTwo(n: nat)
  {
    n == 1 || (n > 0 && n % 2 == 0 && PowerOfTwo(n / 2))
  }

  /** The low bits of y below the single bit of h. */
  function MaskRow(y: int, h: nat): nat
    decreases h
  {
    if h <= 1 then 0 else 2 * MaskRow(y / 2, h / 2) + y % 2
  }

  /** Where the virtual boundary lies: in every CTU row of height ctuHeight, above row vbPos. */
  datatype Boundary = Boundary(ctuHeight: nat, vbPos: int)
  {
    predicate Valid()
    {
      PowerOfTwo(ctuHeight) && ctuHeight >= 8 && vbPos == ctuHeight - 4
    }

    /** y & (ctuHeight - 1), the row inside its CTU. */
    function Row(y: int): nat
    {
      MaskRow(y, ctuHeight)
    }
  }

  // The direct definition, section 8.8.5.3 of Rec. ITU-T H.266

  /** The row above row r, whose vertical position is y, or row r itself below the virtual boundary. */
  function RowAbove(b: Boundary, r: int, y: int): int
  {
    if b.Row(y) == b.vbPos then r else r - 1
  }

  function RowBelow(b: Boundary, r: int, y: int): int
  {
    if b.Row(y) == b.vbPos - 1 then r else r + 1
  }

  /** The Laplacian of one sample in one direction. */
  function Gradient(rec: Plane, b: Boundary, d: Direction, r: int, c: int, y: int): nat
  {
    var up, down := RowAbove(b, r, y), RowBelow(b, r, y);
    var twice := 2 * rec(r, c);
    match d
    case Hor => Abs(twice - rec(r, c - 1) - rec(r, c + 1))
    case Ver => Abs(twice - rec(up, c) - rec(down, c))
    case Diag0 => Abs(twice - rec(up, c - 1) - rec(down, c + 1))
    case Diag1 => Abs(twice - rec(up, c + 1) - rec(down, c - 1))
  }

  /** Half of the eight samples of a row of the window around a block, those of the row's parity. */
  function WindowRow(rec: Plane, b: Boundary, d: Direction, r: int, c: int, y: int, k: int): nat
  {
    var c' := if k % 2 == 0 then c else c + 1;
    Gradient(rec, b, d, r + k, c' - 2, y + k) + Gradient(rec, b, d, r + k, c', y + k)
    + Gradient(rec, b, d, r + k, c' + 2, y + k) + Gradient(rec, b, d, r + k, c' + 4, y + k)
  }

  /** Rows -2 to 5 around a 4x4 block, without the rows across the virtual boundary. */
  function WindowSum(rec: Plane, b: Boundary, d: Direction, r: int, c: int, y: int): nat
  {
    (if b.Row(y) == b.vbPos then 0 else WindowRow(rec, b, d, r, c, y, -2) + WindowRow(rec, b, d, r, c, y, -1))
    + WindowRow(rec, b, d, r, c, y, 0) + WindowRow(rec, b, d, r, c, y, 1)
    + WindowRow(rec, b, d, r, c, y, 2) + WindowRow(rec, b, d, r, c, y, 3)
    + (if b.Row(y) == b.vbPos - 4 then 0 else WindowRow(rec, b, d, r, c, y, 4) + WindowRow(rec, b, d, r, c, y, 5))
  }

  /** The ratio a1 : a0 exceeds the ratio b1 : b0. */
  predicate RatioExceeds(a1: nat, a0: nat, b1: nat, b0: nat)
  {
    a1 * b0 > b1 * a0
  }

  /** How one-sided the stronger of the two orientations is: 0 not, 1 more than 2 : 1, 2 more than 4.5 : 1. */
  function Strength(m1: nat, m0: nat): nat
  {
    if 2 * m1 > 9 * m0 then 2 else if m1 > 2 * m0 then 1 else 0
  }

  /** 0 without a direction, 1 and 2 for weak and strong diagonals, 3 and 4 for weak and strong horizontals or verticals. */
  function DirectionClass(v: nat, h: nat, d0: nat, d1: nat): nat
  {
    if RatioExceeds(Max(d0, d1), Min(d0, d1), Max(v, h), Min(v, h))
    then Strength(Max(d0, d1), Min(d0, d1))
    else if Strength(Max(v, h), Min(v, h)) == 0 then 0 else 2 + Strength(Max(v, h), Min(v, h))
  }

  function Activity(sum: nat, atBoundary: bool, shift: nat): (a: nat)
  {
    ShiftRight(sum * if atBoundary then 96 else 64, shift)
  }

  function ActivityClass(v: nat, h: nat, atBoundary: bool, shift: nat): nat
  {
    var a := Activity(v + h, atBoundary, shift);
    if a == 0 then 0 else if a == 1 then 1 else if a <= 6 then 2 else if a <= 14 then 3 else 4
  }

  /** The orientation that turns the block so that vertical exceeds horizontal and the first diagonal the second. */
  function TransposeOf(v: nat, h: nat, d0: nat, d1: nat): nat
  {
    (if v > h then 0 else 1) + (if d0 > d1 then 0 else 2)
  }

  function ClassOf(v: nat, h: nat, d0: nat, d1: nat, atBoundary: bool, shift: nat): AlfClassifier
  {
    AlfClassifier(ActivityClass(v, h, atBoundary, shift) + 5 * DirectionClass(v, h, d0, d1), TransposeOf(v, h, d0, d1))
  }

  predicate AtBoundary(b: Boundary, y: int)
  {
    b.Row(y) == b.vbPos - 4 || b.Row(y) == b.vbPos
  }

  /** The class of the 4x4 block at row r, column c, vertical position y. */
  function BlockClass(rec: Plane, b: Boundary, r: int, c: int, y: int, shift: nat): AlfClassifier
  {
    ClassOf(WindowSum(rec, b, Ver, r, c, y), WindowSum(rec, b, Hor, r, c, y),
            WindowSum(rec, b, Diag0, r, c, y), WindowSum(rec, b, Diag1, r, c, y), AtBoundary(b, y), shift)
  }

  lemma ClassRange(v: nat, h: nat, d0: nat, d1: nat, atBoundary: bool, shift: nat)
    ensures ClassOf(v, h, d0, d1, atBoundary, shift).classIdx < 25
    ensures ClassOf(v, h, d0, d1, atBoundary, shift).transposeIdx < 4
  {}

  /** Turning a block does not change its class: vertical and horizontal, and the diagonals, may be exchanged. */
  lemma ClassOfTurned(v: nat, h: nat, d0: nat, d1: nat, atBoundary: bool, shift: nat)
    ensures ClassOf(h, v, d0, d1, atBoundary, shift).classIdx == ClassOf(v, h, d0, d1, atBoundary, shift).classIdx
    ensures ClassOf(v, h, d1, d0, atBoundary, shift).classIdx == ClassOf(v, h, d0, d1, atBoundary, shift).classIdx
  {}

  // The loops

  /** One entry of the laplacian array: two samples on a diagonal, read through the four row pointers. */
  function EntryFromRows(rec: Plane, d: Direction, down: int, mid: int, up: int, up2: int, c: int): nat
  {
    var y0, yup1 := ToPel(2 * rec(mid, c)), ToPel(2 * rec(up, c + 1));
    match d
    case Ver => Abs(y0 - rec(down, c) - rec(up, c)) + Abs(yup1 - rec(mid, c + 1) - rec(up2, c + 1))
    case Hor => Abs(y0 - rec(mid, c + 1) - rec(mid, c - 1)) + Abs(yup1 - rec(up, c + 2) - rec(up, c))
    case Diag0 => Abs(y0 - rec(down, c - 1) - rec(up, c + 1)) + Abs(yup1 - rec(mid, c) - rec(up2, c + 2))
    case Diag1 => Abs(y0 - rec(up, c - 1) - rec(down, c + 1)) + Abs(yup1 - rec(up2, c) - rec(mid, c + 2))
  }

  /** The entry for the samples (r, c) and (r + 1, c + 1). */
  function Entry(rec: Plane, b: Boundary, d: Direction, r: int, c: int, y: int): nat
  {
    Gradient(rec, b, d, r, c, y) + Gradient(rec, b, d, r + 1, c + 1, y + 1)
  }

  /** Four entries in a row, two columns apart. */
  function EntrySum(rec: Plane, b: Boundary, d: Direction, r: int, c: int, y: int): nat
  {
    Entry(rec, b, d, r, c, y) + Entry(rec, b, d, r, c + 2, y) + Entry(rec, b, d, r, c + 4, y) + Entry(rec, b, d, r, c + 6, y)
  }

  lemma SampleBound(rec: Plane, r: int, c: int)
    requires HasDepth(rec, 10)
    ensures 0 <= rec(r, c) < 1024 && ToPel(2 * rec(r, c)) == 2 * rec(r, c)
  {
    assert Pow2(10) == 2 * Pow2(9) == 4 * Pow2(8) == 8 * Pow2(7) == 16 * Pow2(6);
    assert Pow2(6) == 2 * Pow2(5) == 4 * Pow2(4) == 8 * Pow2(3) == 16 * Pow2(2);
  }

  /** The row pointers, with their substitution at the virtual boundary, are the rows of the direct definition. */
  lemma RowPointers(b: Boundary, r: int, y: int)
    requires b.Valid() && y % 2 == 0 && y >= -2
    ensures (if y > 0 && b.Row(y) == b.vbPos - 2 then r + 1 else r + 2) == RowBelow(b, r + 1, y + 1)
    ensures (if !(y > 0 && b.Row(y) == b.vbPos - 2) && y > 0 && b.Row(y) == b.vbPos then r else r - 1) == RowAbove(b, r, y)
    ensures RowBelow(b, r, y) == r + 1 && RowAbove(b, r + 1, y + 1) == r
  {
    RowParity(b, y);
  }

  lemma EntryFromRowPointers(rec: Plane, b: Boundary, d: Direction, r: int, c: int, y: int)
    requires HasDepth(rec, 10) && b.Valid() && y % 2 == 0 && y >= -2
    ensures EntryFromRows(rec, d, RowAbove(b, r, y), r, r + 1, RowBelow(b, r + 1, y + 1), c) == Entry(rec, b, d, r, c, y)
  {
    SampleBound(rec, r, c);
    SampleBound(rec, r + 1, c + 1);
    RowPointers(b, r, y);
    hide MaskRow, PowerOfTwo, HasDepth, Pow2, ToPel, RowAbove, RowBelow;
  }

  /** The virtual boundary lies between an even row and the odd one above it; margin rows above the picture are not at it. */
  lemma RowParity(b: Boundary, y: int)
    requires b.Valid() && y % 2 == 0 && y >= -2
    ensures b.Row(y) % 2 == 0 && b.Row(y + 1) == b.Row(y) + 1 && b.vbPos % 2 == 0
    ensures y <= 0 ==> b.Row(y) != b.vbPos && b.Row(y) != b.vbPos - 2
  {
    hide MaskRow, PowerOfTwo;
    var h := b.ctuHeight;
    EvenHeight(h);
    EvenRow(y, h);
    RowMinusTwo(h);
    ZeroRow(h);
  }

  lemma EvenHeight(h: nat)
    requires PowerOfTwo(h) && h >= 2
    ensures h % 2 == 0 && PowerOfTwo(h / 2)
  {}

  lemma RowMinusTwo(h: nat)
    requires PowerOfTwo(h) && h >= 2
    ensures MaskRow(-2, h) == h - 2
  {
    AllOnesRow(h / 2);
    assert MaskRow(-2, h) == 2 * MaskRow(-1, h / 2);
  }

  lemma EvenRow(y: int, h: nat)
    requires y % 2 == 0 && h >= 2
    ensures MaskRow(y, h) % 2 == 0 && MaskRow(y + 1, h) == MaskRow(y, h) + 1
  {
    assert (y + 1) / 2 == y / 2;
  }

  lemma {:induction false} AllOnesRow(h: nat)
    requires PowerOfTwo(h)
    ensures MaskRow(-1, h) == h - 1
  {
    if h > 1 { AllOnesRow(h / 2); }
  }

  lemma {:induction false} ZeroRow(h: nat)
    ensures MaskRow(0, h) == 0
  {
    if h > 1 { ZeroRow(h / 2); }
  }

  /** Masking with the CTU height minus one is the remainder, which the sums use instead. */
  lemma MaskIsRemainder(y: int, h: nat)
    requires PowerOfTwo(h)
    ensures MaskRow(y, h) == y % h
  {
    var q := MaskQuotient(y, h);
    Quotient(q, MaskRow(y, h), h);
  }

  lemma TwiceProduct(q: int, k: nat)
    ensures q * (2 * k) == 2 * (q * k)
  {}

  lemma {:induction false} MaskQuotient(y: int, h: nat) returns (q: int)
    requires PowerOfTwo(h)
    ensures y == q * h + MaskRow(y, h) && MaskRow(y, h) < h
    decreases h
  {
    if h == 1 {
      q := y;
    } else {
      q := MaskQuotient(y / 2, h / 2);
      TwiceProduct(q, h / 2);
    }
  }

  lemma EntrySumOf(rec: Plane, b: Boundary, d: Direction, r: int, c: int, y: int, k: int)
    ensures EntrySum(rec, b, d, r, c + k, y)
         == Entry(rec, b, d, r, c + k, y) + Entry(rec, b, d, r, c + (k + 2), y)
          + Entry(rec, b, d, r, c + (k + 4), y) + Entry(rec, b, d, r, c + (k + 6), y)
  {}

  /** What a row of the laplacian array holds when columns before `done` have been visited: sums at multiples of 4. */
  function RowValue(rec: Plane, b: Boundary, d: Direction, r: int, c: int, y: int, k: nat, done: int): nat
  {
    if k % 4 == 0 && k + 6 < done then EntrySum(rec, b, d, r, c + k, y) else Entry(rec, b, d, r, c + k, y)
  }

  /** Fills row i of the array for one direction, adding entries up in place as soon as four are there. */
  method FillRow(rec: Plane, b: Boundary, d: Direction, laplacian: array2<int>, i: nat, width: nat, r: int, c: int, y: int)
    requires HasDepth(rec, 10) && b.Valid() && y % 2 == 0 && y >= -2
    requires i < laplacian.Length0 && width <= laplacian.Length1 && width % 2 == 0
    modifies laplacian
    ensures forall k :: 0 <= k < width && k % 2 == 0 ==> laplacian[i, k] == RowValue(rec, b, d, r, c, y, k, width)
    ensures forall m, k :: 0 <= m < laplacian.Length0 && m != i && 0 <= k < laplacian.Length1 ==>
      laplacian[m, k] == old(laplacian[m, k])
  {
    hide Entry, EntryFromRows, HasDepth, RowAbove, RowBelow, MaskRow, PowerOfTwo, EntrySum;
    var src0, src3 := r - 1, r + 2;
    if y > 0 && b.Row(y) == b.vbPos - 2 {
      src3 := r + 1;
    } else if y > 0 && b.Row(y) == b.vbPos {
      src0 := r;
    }
    RowPointers(b, r, y);
    var j := 0;
    while j < width
      invariant 0 <= j <= width && j % 2 == 0
      invariant forall k :: 0 <= k < j && k % 2 == 0 ==> laplacian[i, k] == RowValue(rec, b, d, r, c, y, k, j)
      invariant forall m, k :: 0 <= m < laplacian.Length0 && m != i && 0 <= k < laplacian.Length1 ==>
        laplacian[m, k] == old(laplacian[m, k])
    {
      EntryFromRowPointers(rec, b, d, r, c + j, y);
      laplacian[i, j] := EntryFromRows(rec, d, src0, r, r + 1, src3, c + j);
      if j > 4 && (j - 6) % 4 == 0 {
        assert RowValue(rec, b, d, r, c, y, j - 6, j + 2) == EntrySum(rec, b, d, r, c + (j - 6), y);
        EntrySumOf(rec, b, d, r, c, y, j - 6);
        laplacian[i, j - 6] := laplacian[i, j - 6] + (laplacian[i, j - 4] + laplacian[i, j - 2] + laplacian[i, j]);
      }
      j := j + 2;
    }
  }

  /** Four sums in a column, two rows apart, without the first or the last at the virtual boundary. */
  function ColumnSum(rec: Plane, b: Boundary, d: Direction, r: int, c: int, y: int): nat
  {
    (if b.Row(y) == b.vbPos then 0 else EntrySum(rec, b, d, r - 2, c - 2, y - 2))
    + EntrySum(rec, b, d, r, c - 2, y) + EntrySum(rec, b, d, r + 2, c - 2, y + 2)
    + (if b.Row(y) == b.vbPos - 4 then 0 else EntrySum(rec, b, d, r + 4, c - 2, y + 4))
  }

  /** The sums of the array's overlapping row sums are the sums of the direct definition. */
  lemma ColumnSumIsWindowSum(rec: Plane, b: Boundary, d: Direction, r: int, c: int, y: int)
    ensures ColumnSum(rec, b, d, r, c, y) == WindowSum(rec, b, d, r, c, y)
  {
    hide Gradient, WindowRow, EntrySum, MaskRow;
    RowPairSum(rec, b, d, r, c, y, -2);
    RowPairSum(rec, b, d, r, c, y, 0);
    RowPairSum(rec, b, d, r, c, y, 2);
    RowPairSum(rec, b, d, r, c, y, 4);
  }

  lemma RowPairSum(rec: Plane, b: Boundary, d: Direction, r: int, c: int, y: int, k: int)
    requires k % 2 == 0
    ensures EntrySum(rec, b, d, r + k, c - 2, y + k) == WindowRow(rec, b, d, r, c, y, k) + WindowRow(rec, b, d, r, c, y, k + 1)
  {
    hide Gradient;
  }

  lemma GradientBound(rec: Plane, b: Boundary, d: Direction, r: int, c: int, y: int)
    requires HasDepth(rec, 10)
    ensures Gradient(rec, b, d, r, c, y) <= 2046
  {
    var up, down := RowAbove(b, r, y), RowBelow(b, r, y);
    SampleBound(rec, r, c);
    match d
    case Hor => SampleBound(rec, r, c - 1); SampleBound(rec, r, c + 1);
    case Ver => SampleBound(rec, up, c); SampleBound(rec, down, c);
    case Diag0 => SampleBound(rec, up, c - 1); SampleBound(rec, down, c + 1);
    case Diag1 => SampleBound(rec, up, c + 1); SampleBound(rec, down, c - 1);
  }

  lemma EntrySumBound(rec: Plane, b: Boundary, d: Direction, r: int, c: int, y: int)
    requires HasDepth(rec, 10)
    ensures EntrySum(rec, b, d, r, c, y) <= 16368
  {
    hide Gradient, HasDepth;
    EntryBound(rec, b, d, r, c, y);
    EntryBound(rec, b, d, r, c + 2, y);
    EntryBound(rec, b, d, r, c + 4, y);
    EntryBound(rec, b, d, r, c + 6, y);
  }

  lemma EntryBound(rec: Plane, b: Boundary, d: Direction, r: int, c: int, y: int)
    requires HasDepth(rec, 10)
    ensures Entry(rec, b, d, r, c, y) <= 4092
  {
    hide Gradient, HasDepth;
    GradientBound(rec, b, d, r, c, y);
    GradientBound(rec, b, d, r + 1, c + 1, y + 1);
  }

  /** With samples of 10 bits, every sum is below 2^16. */
  lemma WindowSumBound(rec: Plane, b: Boundary, d: Direction, r: int, c: int, y: int)
    requires HasDepth(rec, 10)
    ensures WindowSum(rec, b, d, r, c, y) <= 65472
  {
    hide EntrySum, HasDepth, WindowSum;
    ColumnSumIsWindowSum(rec, b, d, r, c, y);
    EntrySumBound(rec, b, d, r - 2, c - 2, y - 2);
    EntrySumBound(rec, b, d, r, c - 2, y);
    EntrySumBound(rec, b, d, r + 2, c - 2, y + 2);
    EntrySumBound(rec, b, d, r + 4, c - 2, y + 4);
  }

  /** Products of two such sums do not wrap in 32 bits. */
  lemma CrossProduct(a: nat, b: nat)
    requires a <= 65472 && b <= 65472
    ensures (a * b) % 0x1_0000_0000 == a * b
  {
    assert a * b <= 65472 * b <= 65472 * 65472 by {
      assert (65472 - a) * b >= 0;
    }
    NoWrap(a * b);
  }

  lemma NoWrap(x: nat)
    requires x < 0x1_0000_0000
    ensures x % 0x1_0000_0000 == x
  {}

  const TH: seq<nat> := [0, 1, 2, 2, 2, 2, 2, 3, 3, 3, 3, 3, 3, 3, 3, 4]

  const TRANSPOSE_TABLE: seq<nat> := [0, 1, 0, 2, 2, 3, 1, 3]

  /** Class and orientation from the four sums, as the loop body computes them. */
  method ClassifySums(sumV: nat, sumH: nat, sumD0: nat, sumD1: nat, atBoundary: bool, shift: nat) returns (cl: AlfClassifier)
    requires sumV <= 65472 && sumH <= 65472 && sumD0 <= 65472 && sumD1 <= 65472
    ensures cl == ClassOf(sumV, sumH, sumD0, sumD1, atBoundary, shift)
  {
    hide Activity, RatioExceeds;
    var activity := Clip3(0, 15, Activity(sumV + sumH, atBoundary, shift));
    var classIdx := TH[activity];
    assert classIdx == ActivityClass(sumV, sumH, atBoundary, shift);
    var hv1, hv0, dirTempHV := sumH, sumV, 3;
    if sumV > sumH {
      hv1, hv0, dirTempHV := sumV, sumH, 1;
    }
    var d1, d0, dirTempD := sumD1, sumD0, 2;
    if sumD0 > sumD1 {
      d1, d0, dirTempD := sumD0, sumD1, 0;
    }
    var diagonal := CrossProductExceeds(d1, hv0, hv1, d0);
    var hvd1, hvd0, mainDirection, secondaryDirection := hv1, hv0, dirTempHV, dirTempD;
    if diagonal {
      hvd1, hvd0, mainDirection, secondaryDirection := d1, d0, dirTempD, dirTempHV;
    }
    var directionStrength := 0;
    if hvd1 > 2 * hvd0 {
      directionStrength := 1;
    }
    if hvd1 * 2 > 9 * hvd0 {
      directionStrength := 2;
    }
    if directionStrength != 0 {
      classIdx := classIdx + (2 * (mainDirection % 2) + directionStrength) * 5;
    }
    cl := AlfClassifier(classIdx, TRANSPOSE_TABLE[mainDirection * 2 + secondaryDirection / 2]);
  }

  /** The comparison of cross products in unsigned 32-bit arithmetic. */
  method CrossProductExceeds(d1: nat, hv0: nat, hv1: nat, d0: nat) returns (exceeds: bool)
    requires d1 <= 65472 && d0 <= 65472 && hv1 <= 65472 && hv0 <= 65472
    ensures exceeds == RatioExceeds(d1, d0, hv1, hv0)
  {
    CrossProduct(d1, hv0);
    CrossProduct(hv1, d0);
    exceeds := (d1 * hv0) % 0x1_0000_0000 > (hv1 * d0) % 0x1_0000_0000;
  }

  /** The even rows below `rows` are filled. */
  ghost predicate Filled(laplacian: array2<int>, rec: Plane, b: Boundary, d: Direction, rows: int, width: nat, r: int, c: int, y: int)
    reads laplacian
  {
    && 0 <= rows <= laplacian.Length0 && width <= laplacian.Length1
    && forall m, k :: 0 <= m < rows && m % 2 == 0 && 0 <= k < width && k % 2 == 0 ==>
         laplacian[m, k] == RowValue(rec, b, d, r + m, c, y + m, k, width)
  }

  /** The array of one direction, for rows of sample pairs starting at row r, column c, vertical position y. */
  method FillArray(rec: Plane, b: Boundary, d: Direction, laplacian: array2<int>, rows: nat, width: nat, r: int, c: int, y: int)
    requires HasDepth(rec, 10) && b.Valid() && y % 2 == 0 && y >= -2
    requires rows <= laplacian.Length0 && width <= laplacian.Length1 && width % 2 == 0 && rows % 2 == 0
    modifies laplacian
    ensures Filled(laplacian, rec, b, d, rows, width, r, c, y)
  {
    hide RowValue, HasDepth, Boundary.Valid;
    var i := 0;
    while i < rows
      invariant 0 <= i <= rows && i % 2 == 0
      invariant Filled(laplacian, rec, b, d, i, width, r, c, y)
    {
      FillRow(rec, b, d, laplacian, i, width, r + i, c, y + i);
      i := i + 2;
    }
  }

  lemma FilledEntry(laplacian: array2<int>, rec: Plane, b: Boundary, d: Direction, rows: int, width: nat,
                    posY: int, posX: int, dstY: nat, m: nat, j: nat)
    requires Filled(laplacian, rec, b, d, rows, width, posY - 2, posX - 2, dstY - 2)
    requires m % 2 == 0 && j % 4 == 0 && m < rows && j + 8 <= width
    ensures m < laplacian.Length0 && j < laplacian.Length1
    ensures laplacian[m, j] == EntrySum(rec, b, d, posY - 2 + m, posX - 2 + j, dstY - 2 + m)
  {
    hide EntrySum, Entry;
    assert laplacian[m, j] == RowValue(rec, b, d, posY - 2 + m, posX - 2, dstY - 2 + m, j, width);
  }

  /** The three-way sum of the loop body, for the block in row i and column j of the block grid's samples. */
  method SumRows(laplacian: array2<int>, rec: Plane, b: Boundary, d: Direction, i: nat, j: nat,
                 ghost rows: int, ghost width: nat, posY: int, posX: int, dstY: nat) returns (sum: nat)
    requires Filled(laplacian, rec, b, d, rows, width, posY - 2, posX - 2, dstY - 2) && b.Valid()
    requires i % 4 == 0 && j % 4 == 0 && i + 8 <= rows && j + 8 <= width
    ensures sum == WindowSum(rec, b, d, posY + i, posX + j, dstY + i)
  {
    hide EntrySum, WindowSum, MaskRow, PowerOfTwo, Filled;
    MaskIsRemainder(i + dstY, b.ctuHeight);
    ColumnSumIsWindowSum(rec, b, d, posY + i, posX + j, dstY + i);
    FilledEntry(laplacian, rec, b, d, rows, width, posY, posX, dstY, i, j);
    FilledEntry(laplacian, rec, b, d, rows, width, posY, posX, dstY, i + 2, j);
    FilledEntry(laplacian, rec, b, d, rows, width, posY, posX, dstY, i + 4, j);
    FilledEntry(laplacian, rec, b, d, rows, width, posY, posX, dstY, i + 6, j);
    var l0, l2, l4, l6 := laplacian[i, j], laplacian[i + 2, j], laplacian[i + 4, j], laplacian[i + 6, j];
    if (i + dstY) % b.ctuHeight == b.vbPos - 4 {
      sum := l0 + l2 + l4;
    } else if (i + dstY) % b.ctuHeight == b.vbPos {
      sum := l2 + l4 + l6;
    } else {
      sum := l0 + l2 + l4 + l6;
    }
  }

  /** The arrays of the four directions are filled for a block of the given size. */
  ghost predicate AllFilled(ver: array2<int>, hor: array2<int>, dig0: array2<int>, dig1: array2<int>, rec: Plane, b: Boundary,
                            width: nat, height: nat, posX: int, posY: int, dstY: nat)
    reads ver, hor, dig0, dig1
  {
    && Filled(ver, rec, b, Ver, height + 4, width + 4, posY - 2, posX - 2, dstY - 2)
    && Filled(hor, rec, b, Hor, height + 4, width + 4, posY - 2, posX - 2, dstY - 2)
    && Filled(dig0, rec, b, Diag0, height + 4, width + 4, posY - 2, posX - 2, dstY - 2)
    && Filled(dig1, rec, b, Diag1, height + 4, width + 4, posY - 2, posX - 2, dstY - 2)
  }

  /** Block row p of the classifier array holds the classes of the direct definition, up to block column q. */
  ghost predicate RowClassified(cls: seq<AlfClassifier>, rec: Plane, b: Boundary, posX: int, posY: int, dstY: nat, shift: nat, p: nat, q: nat)
    requires |cls| == 32 * 32 && p < 32 && q <= 32
  {
    forall k :: 0 <= k < q ==>
      cls[p * 32 + k] == BlockClass(rec, b, posY + 4 * p, posX + 4 * k, dstY + 4 * p, shift)
  }

  /**
   * Classifies all 4x4 blocks of a luma block. Each block's classifier is that of the direct definition: the sums of
   * its own window's gradients, compared without overflow.
   */
  method DeriveClassificationBlk(classifier: array<AlfClassifier>, rec: Plane, posX: int, posY: int, dstY: nat,
                                 width: nat, height: nat, shift: nat, b: Boundary)
    requires HasDepth(rec, 10) && b.Valid() && dstY % 2 == 0
    requires width % 4 == 0 && height % 4 == 0 && width <= MAX_CU_SIZE && height <= MAX_CU_SIZE
    requires classifier.Length == (MAX_CU_SIZE / 4) * (MAX_CU_SIZE / 4)
    modifies classifier
    ensures forall p :: 0 <= p < height / 4 ==>
      RowClassified(classifier[..], rec, b, posX, posY, dstY, shift, p, width / 4)
  {
    hide HasDepth, BlockClass, WindowSum, Filled, RowClassified;
    var ver := new int[MAX_CU_SIZE + 5, MAX_CU_SIZE + 5];
    var hor := new int[MAX_CU_SIZE + 5, MAX_CU_SIZE + 5];
    var dig0 := new int[MAX_CU_SIZE + 5, MAX_CU_SIZE + 5];
    var dig1 := new int[MAX_CU_SIZE + 5, MAX_CU_SIZE + 5];
    FillArray(rec, b, Ver, ver, height + 4, width + 4, posY - 2, posX - 2, dstY - 2);
    FillArray(rec, b, Hor, hor, height + 4, width + 4, posY - 2, posX - 2, dstY - 2);
    FillArray(rec, b, Diag0, dig0, height + 4, width + 4, posY - 2, posX - 2, dstY - 2);
    FillArray(rec, b, Diag1, dig1, height + 4, width + 4, posY - 2, posX - 2, dstY - 2);
    assert AllFilled(ver, hor, dig0, dig1, rec, b, width, height, posX, posY, dstY);
    hide AllFilled;
    var i := 0;
    while i < height
      invariant 0 <= i <= height && i % 4 == 0
      invariant AllFilled(ver, hor, dig0, dig1, rec, b, width, height, posX, posY, dstY)
      invariant forall p :: 0 <= p < i / 4 ==>
        RowClassified(classifier[..], rec, b, posX, posY, dstY, shift, p, width / 4)
    {
      ghost var before := classifier[..];
      ClassifyRow(classifier, ver, hor, dig0, dig1, rec, b, width, height, posX, posY, dstY, shift, i);
      forall p | 0 <= p < i / 4
        ensures RowClassified(classifier[..], rec, b, posX, posY, dstY, shift, p, width / 4)
      {
        RowKept(before, classifier[..], rec, b, posX, posY, dstY, shift, p, i / 4, width / 4);
      }
      i := i + 4;
    }
  }

  lemma RowKept(before: seq<AlfClassifier>, after: seq<AlfClassifier>, rec: Plane, b: Boundary, posX: int, posY: int,
                dstY: nat, shift: nat, p: nat, p': nat, q: nat)
    requires |before| == |after| == 32 * 32 && p < p' < 32 && q <= 32
    requires forall k :: 0 <= k < p' * 32 ==> after[k] == before[k]
    requires RowClassified(before, rec, b, posX, posY, dstY, shift, p, q)
    ensures RowClassified(after, rec, b, posX, posY, dstY, shift, p, q)
  {
    hide BlockClass;
  }

  /** The inner loop: the blocks of one block row. */
  method ClassifyRow(classifier: array<AlfClassifier>, ver: array2<int>, hor: array2<int>, dig0: array2<int>, dig1: array2<int>,
                     rec: Plane, b: Boundary, width: nat, ghost height: nat, posX: int, posY: int, dstY: nat, shift: nat, i: nat)
    requires HasDepth(rec, 10) && b.Valid()
    requires AllFilled(ver, hor, dig0, dig1, rec, b, width, height, posX, posY, dstY)
    requires width % 4 == 0 && width <= MAX_CU_SIZE && i % 4 == 0 && i + 4 <= height <= MAX_CU_SIZE
    requires classifier.Length == 32 * 32
    modifies classifier
    ensures RowClassified(classifier[..], rec, b, posX, posY, dstY, shift, i / 4, width / 4)
    ensures forall k :: 0 <= k < i / 4 * 32 ==> classifier[k] == old(classifier[k])
  {
    hide HasDepth, BlockClass, WindowSum, Filled;
    var j := 0;
    while j < width
      invariant 0 <= j <= width && j % 4 == 0
      invariant RowClassified(classifier[..], rec, b, posX, posY, dstY, shift, i / 4, j / 4)
      invariant forall k :: 0 <= k < i / 4 * 32 ==> classifier[k] == old(classifier[k])
    {
      var sumV := SumRows(ver, rec, b, Ver, i, j, height + 4, width + 4, posY, posX, dstY);
      var sumH := SumRows(hor, rec, b, Hor, i, j, height + 4, width + 4, posY, posX, dstY);
      var sumD0 := SumRows(dig0, rec, b, Diag0, i, j, height + 4, width + 4, posY, posX, dstY);
      var sumD1 := SumRows(dig1, rec, b, Diag1, i, j, height + 4, width + 4, posY, posX, dstY);
      var cl := ClassifyBlock(sumV, sumH, sumD0, sumD1, rec, b, posY + i, posX + j, dstY + i, shift);
      classifier[(i / 4) * (MAX_CU_SIZE / 4) + j / 4] := cl;
      j := j + 4;
    }
  }

  method ClassifyBlock(sumV: nat, sumH: nat, sumD0: nat, sumD1: nat, rec: Plane, b: Boundary, r: int, c: int, y: int, shift: nat)
    returns (cl: AlfClassifier)
    requires HasDepth(rec, 10)
    requires sumV == WindowSum(rec, b, Ver, r, c, y) && sumH == WindowSum(rec, b, Hor, r, c, y)
    requires sumD0 == WindowSum(rec, b, Diag0, r, c, y) && sumD1 == WindowSum(rec, b, Diag1, r, c, y)
    ensures cl == BlockClass(rec, b, r, c, y, shift)
  {
    hide HasDepth, WindowSum, ClassOf;
    WindowSumBound(rec, b, Ver, r, c, y);
    WindowSumBound(rec, b, Hor, r, c, y);
    WindowSumBound(rec, b, Diag0, r, c, y);
    WindowSumBound(rec, b, Diag1, r, c, y);
    var row := b.Row(y);
    cl := ClassifySums(sumV, sumH, sumD0, sumD1, row == b.vbPos - 4 || row == b.vbPos, shift);
  }
}

/** The gradient filters and the normal equations of AffineGradientSearch.cpp. */
module AffineGradient {
  import opened Arithmetic

  // A value per sample, by row and column.
  type Field = (int, int) -> int

  // Sums over a block

  function RowSum(f: Field, j: int, width: nat): int
  {
    if width == 0 then 0 else RowSum(f, j, width - 1) + f(j, width - 1)
  }

  function BlockSum(f: Field, height: nat, width: nat): int
  {
    if height == 0 then 0 else BlockSum(f, height - 1, width) + RowSum(f, height - 1, width)
  }

  /** Whole rows, and the start of the next one. */
  function PartialSum(f: Field, j: nat, k: nat, width: nat): int
  {
    BlockSum(f, j, width) + RowSum(f, j, k)
  }

  lemma {:induction false} RowSumCombine(f: Field, g0: Field, g1: Field, g2: Field, g3: Field, a: int, b: int, c: int, j: int, width: nat)
    requires forall k :: f(j, k) == g0(j, k) + a * g1(j, k) + b * g2(j, k) + c * g3(j, k)
    ensures RowSum(f, j, width) == RowSum(g0, j, width) + a * RowSum(g1, j, width) + b * RowSum(g2, j, width) + c * RowSum(g3, j, width)
  {
    if width > 0 {
      RowSumCombine(f, g0, g1, g2, g3, a, b, c, j, width - 1);
      Distribute(a, RowSum(g1, j, width - 1), g1(j, width - 1));
      Distribute(b, RowSum(g2, j, width - 1), g2(j, width - 1));
      Distribute(c, RowSum(g3, j, width - 1), g3(j, width - 1));
    }
  }

  /** Sums are linear. */
  lemma {:induction false} BlockSumCombine(f: Field, g0: Field, g1: Field, g2: Field, g3: Field, a: int, b: int, c: int, height: nat, width: nat)
    requires forall j, k :: f(j, k) == g0(j, k) + a * g1(j, k) + b * g2(j, k) + c * g3(j, k)
    ensures BlockSum(f, height, width)
         == BlockSum(g0, height, width) + a * BlockSum(g1, height, width) + b * BlockSum(g2, height, width) + c * BlockSum(g3, height, width)
  {
    if height > 0 {
      BlockSumCombine(f, g0, g1, g2, g3, a, b, c, height - 1, width);
      RowSumCombine(f, g0, g1, g2, g3, a, b, c, height - 1, width);
      Distribute(a, BlockSum(g1, height - 1, width), RowSum(g1, height - 1, width));
      Distribute(b, BlockSum(g2, height - 1, width), RowSum(g2, height - 1, width));
      Distribute(c, BlockSum(g3, height - 1, width), RowSum(g3, height - 1, width));
    }
  }

  // The coefficients of one sample

  /** The centre of the 4x4 block that coordinate k lies in. */
  function Centre(k: nat): nat { k / 4 * 4 + 2 }

  function Coeffs4(dx: Field, dy: Field, j: nat, k: nat): (c: seq<int>)
    ensures |c| == 4
  {
    var cx, cy := Centre(k), Centre(j);
    [dx(j, k), cx * dx(j, k) + cy * dy(j, k), dy(j, k), cy * dx(j, k) - cx * dy(j, k)]
  }

  function Coeffs6(dx: Field, dy: Field, j: nat, k: nat): (c: seq<int>)
    ensures |c| == 6
  {
    var cx, cy := Centre(k), Centre(j);
    [dx(j, k), cx * dx(j, k), dy(j, k), cx * dy(j, k), cy * dx(j, k), cy * dy(j, k)]
  }

  function NumParams(b6Param: bool): nat { if b6Param then 6 else 4 }

  function Coeffs(b6Param: bool, dx: Field, dy: Field, j: int, k: int): (c: seq<int>)
    ensures |c| == NumParams(b6Param)
  {
    if j < 0 || k < 0 then seq(NumParams(b6Param), _ => 0)
    else if b6Param then Coeffs6(dx, dy, j, k) else Coeffs4(dx, dy, j, k)
  }

  /** One entry of c * c^T, sample by sample. */
  function Outer(b6Param: bool, dx: Field, dy: Field, col: nat, row: nat): Field
    requires col < NumParams(b6Param) && row < NumParams(b6Param)
  {
    (j, k) => Coeffs(b6Param, dx, dy, j, k)[col] * Coeffs(b6Param, dx, dy, j, k)[row]
  }

  /** One entry of c times the residue, sample by sample, in units of an eighth. */
  function Weighted(b6Param: bool, dx: Field, dy: Field, residue: Field, col: nat): Field
    requires col < NumParams(b6Param)
  {
    (j, k) => Coeffs(b6Param, dx, dy, j, k)[col] * residue(j, k) * 8
  }

  /** An entry of the normal equations: the matrix, with the right-hand side as its last column. */
  function Entry(b6Param: bool, dx: Field, dy: Field, residue: Field, col: nat, row: nat): Field
    requires col < NumParams(b6Param) && row <= NumParams(b6Param)
  {
    if row < NumParams(b6Param) then Outer(b6Param, dx, dy, col, row) else Weighted(b6Param, dx, dy, residue, col)
  }

  // The accumulation

  predicate InTable(n: nat, r: int, c: int)
  {
    1 <= r <= n && 0 <= c <= n
  }

  /** What one sample adds to an entry. */
  function Added(n: nat, iC: seq<int>, residue: int, col: int, row: int): int
    requires |iC| == n && 0 <= col < n && 0 <= row <= n
  {
    if row < n then iC[col] * iC[row] else iC[col] * residue * 8
  }

  /** Adds the contribution of one sample. */
  method AddSample(pEqualCoeff: array2<int>, n: nat, iC: seq<int>, residue: int)
    requires pEqualCoeff.Length0 == pEqualCoeff.Length1 == 7 && n <= 6 && |iC| == n
    modifies pEqualCoeff
    ensures forall r, c :: InTable(n, r, c) ==>
      pEqualCoeff[r, c] == old(pEqualCoeff[r, c]) + Added(n, iC, residue, r - 1, c)
    ensures forall r, c :: 0 <= r < 7 && 0 <= c < 7 && !InTable(n, r, c) ==> pEqualCoeff[r, c] == old(pEqualCoeff[r, c])
  {
    for col := 0 to n
      invariant forall r, c :: InTable(n, r, c) && r <= col ==>
        pEqualCoeff[r, c] == old(pEqualCoeff[r, c]) + Added(n, iC, residue, r - 1, c)
      invariant forall r, c :: 0 <= r < 7 && 0 <= c < 7 && !(InTable(n, r, c) && r <= col) ==> pEqualCoeff[r, c] == old(pEqualCoeff[r, c])
    {
      for row := 0 to n
        invariant forall r, c :: InTable(n, r, c) && r <= col ==>
          pEqualCoeff[r, c] == old(pEqualCoeff[r, c]) + Added(n, iC, residue, r - 1, c)
        invariant forall c :: 0 <= c < row ==> pEqualCoeff[col + 1, c] == old(pEqualCoeff[col + 1, c]) + iC[col] * iC[c]
        invariant forall r, c :: 0 <= r < 7 && 0 <= c < 7 && !(InTable(n, r, c) && (r <= col || (r == col + 1 && c < row))) ==>
          pEqualCoeff[r, c] == old(pEqualCoeff[r, c])
      {
        pEqualCoeff[col + 1, row] := pEqualCoeff[col + 1, row] + iC[col] * iC[row];
      }
      pEqualCoeff[col + 1, n] := pEqualCoeff[col + 1, n] + iC[col] * residue * 8;
    }
  }

  /** Adds the normal equations of a block to the table: every entry grows by its sum over the samples. */
  method EqualCoeffComputer(b6Param: bool, residue: Field, dx: Field, dy: Field, width: nat, height: nat, pEqualCoeff: array2<int>)
    requires pEqualCoeff.Length0 == pEqualCoeff.Length1 == 7
    modifies pEqualCoeff
    ensures forall r, c :: InTable(NumParams(b6Param), r, c) ==>
      pEqualCoeff[r, c] == old(pEqualCoeff[r, c]) + BlockSum(Entry(b6Param, dx, dy, residue, r - 1, c), height, width)
    ensures forall r, c :: 0 <= r < 7 && 0 <= c < 7 && !InTable(NumParams(b6Param), r, c) ==> pEqualCoeff[r, c] == old(pEqualCoeff[r, c])
  {
    var n := NumParams(b6Param);
    hide Entry, RowSum;
    for j := 0 to height
      invariant forall r, c :: InTable(n, r, c) ==>
        pEqualCoeff[r, c] == old(pEqualCoeff[r, c]) + BlockSum(Entry(b6Param, dx, dy, residue, r - 1, c), j, width)
      invariant forall r, c :: 0 <= r < 7 && 0 <= c < 7 && !InTable(n, r, c) ==> pEqualCoeff[r, c] == old(pEqualCoeff[r, c])
    {
      AddRow(b6Param, residue, dx, dy, j, width, pEqualCoeff);
    }
  }

  method AddRow(b6Param: bool, residue: Field, dx: Field, dy: Field, j: nat, width: nat, pEqualCoeff: array2<int>)
    requires pEqualCoeff.Length0 == pEqualCoeff.Length1 == 7
    modifies pEqualCoeff
    ensures forall r, c :: InTable(NumParams(b6Param), r, c) ==>
      pEqualCoeff[r, c] == old(pEqualCoeff[r, c]) + RowSum(Entry(b6Param, dx, dy, residue, r - 1, c), j, width)
    ensures forall r, c :: 0 <= r < 7 && 0 <= c < 7 && !InTable(NumParams(b6Param), r, c) ==> pEqualCoeff[r, c] == old(pEqualCoeff[r, c])
  {
    var n := NumParams(b6Param);
    assert forall r, c :: InTable(n, r, c) ==> RowSum(Entry(b6Param, dx, dy, residue, r - 1, c), j, 0) == 0;
    hide RowSum, Entry, Coeffs, Added, Sample;
    for k := 0 to width
      invariant forall r, c :: InTable(n, r, c) ==>
        pEqualCoeff[r, c] == old(pEqualCoeff[r, c]) + RowSum(Entry(b6Param, dx, dy, residue, r - 1, c), j, k)
      invariant forall r, c :: 0 <= r < 7 && 0 <= c < 7 && !InTable(n, r, c) ==> pEqualCoeff[r, c] == old(pEqualCoeff[r, c])
    {
      AddSample(pEqualCoeff, n, Coeffs(b6Param, dx, dy, j, k), Sample(residue, j, k));
      forall r, c | InTable(n, r, c)
        ensures RowSum(Entry(b6Param, dx, dy, residue, r - 1, c), j, k + 1)
             == RowSum(Entry(b6Param, dx, dy, residue, r - 1, c), j, k) + Added(n, Coeffs(b6Param, dx, dy, j, k), Sample(residue, j, k), r - 1, c)
      {
        NextSample(b6Param, dx, dy, residue, r - 1, c, j, k);
      }
    }
  }

  function Sample(f: Field, j: int, k: int): int { f(j, k) }

  lemma NextSample(b6Param: bool, dx: Field, dy: Field, residue: Field, col: nat, row: nat, j: nat, k: nat)
    requires col < NumParams(b6Param) && row <= NumParams(b6Param)
    ensures RowSum(Entry(b6Param, dx, dy, residue, col, row), j, k + 1)
         == RowSum(Entry(b6Param, dx, dy, residue, col, row), j, k)
            + Added(NumParams(b6Param), Coeffs(b6Param, dx, dy, j, k), Sample(residue, j, k), col, row)
  {
    hide Coeffs;
  }

  // Symmetric and positive semidefinite

  /** The matrix that a block gives, starting from zero. */
  function Matrix(b6Param: bool, dx: Field, dy: Field, height: nat, width: nat, a: nat, b: nat): int
    requires a < NumParams(b6Param) && b < NumParams(b6Param)
  {
    BlockSum(Outer(b6Param, dx, dy, a, b), height, width)
  }

  lemma {:induction false} RowSumSame(f: Field, g: Field, j: int, width: nat)
    requires forall k :: f(j, k) == g(j, k)
    ensures RowSum(f, j, width) == RowSum(g, j, width)
  {
    if width > 0 { RowSumSame(f, g, j, width - 1); }
  }

  lemma {:induction false} BlockSumSame(f: Field, g: Field, height: nat, width: nat)
    requires forall j, k :: f(j, k) == g(j, k)
    ensures BlockSum(f, height, width) == BlockSum(g, height, width)
  {
    if height > 0 {
      BlockSumSame(f, g, height - 1, width);
      RowSumSame(f, g, height - 1, width);
    }
  }

  lemma MatrixSymmetric(b6Param: bool, dx: Field, dy: Field, height: nat, width: nat, a: nat, b: nat)
    requires a < NumParams(b6Param) && b < NumParams(b6Param)
    ensures Matrix(b6Param, dx, dy, height, width, a, b) == Matrix(b6Param, dx, dy, height, width, b, a)
  {
    BlockSumSame(Outer(b6Param, dx, dy, a, b), Outer(b6Param, dx, dy, b, a), height, width);
  }

  function Times(x: int, y: int): int { x * y }

  lemma TimesLaws(x: int, y: int, z: int)
    ensures Times(x, y) == Times(y, x)
    ensures Times(x, y + z) == Times(x, y) + Times(x, z)
    ensures Times(x, Times(y, z)) == Times(Times(x, y), z)
  {}

  /** The first n entries of v, weighted. */
  function Dot(v: int -> int, w: int -> int, n: nat): int
  {
    if n == 0 then 0 else Dot(v, w, n - 1) + Times(v(n - 1), w(n - 1))
  }

  function RowOf(m: Field, a: int): int -> int { b => m(a, b) }

  /** The quadratic form of m at v: the first i rows of the n columns. */
  function Form(m: Field, v: int -> int, i: nat, n: nat): int
  {
    if i == 0 then 0 else Form(m, v, i - 1, n) + Times(v(i - 1), Dot(v, RowOf(m, i - 1), n))
  }

  lemma {:induction false} DotGrows(v: int -> int, w: int -> int, w': int -> int, x: int, c: int -> int, n: nat)
    requires forall b :: 0 <= b < n ==> w'(b) == w(b) + Times(x, c(b))
    ensures Dot(v, w', n) == Dot(v, w, n) + Times(x, Dot(v, c, n))
  {
    if n == 0 {
      assert Times(x, 0) == 0;
    } else {
      hide Times;
      DotGrows(v, w, w', x, c, n - 1);
      var y, z := v(n - 1), c(n - 1);
      TimesLaws(x, Dot(v, c, n - 1), Times(y, z));
      TimesLaws(y, w(n - 1), Times(x, z));
      TimesLaws(y, x, z);
      TimesLaws(x, y, z);
    }
  }

  /** The matrix m' is m + c * c^T. */
  ghost predicate OuterAdded(m: Field, m': Field, c: int -> int, n: nat)
  {
    forall a, b :: 0 <= a < n && 0 <= b < n ==> m'(a, b) == m(a, b) + Times(c(a), c(b))
  }

  lemma RowGrows(m: Field, m': Field, v: int -> int, c: int -> int, a: int, n: nat)
    requires OuterAdded(m, m', c, n) && 0 <= a < n
    ensures Dot(v, RowOf(m', a), n) == Dot(v, RowOf(m, a), n) + Times(c(a), Dot(v, c, n))
  {
    DotGrows(v, RowOf(m, a), RowOf(m', a), c(a), c, n);
  }

  lemma DotStep(v: int -> int, w: int -> int, n: nat)
    requires n > 0
    ensures Dot(v, w, n) == Dot(v, w, n - 1) + Times(v(n - 1), w(n - 1))
  {}

  lemma FormOfNoRows(m: Field, m': Field, v: int -> int, c: int -> int, n: nat)
    ensures Form(m', v, 0, n) == Form(m, v, 0, n) + Times(Dot(v, c, 0), Dot(v, c, n))
  {}

  lemma FormStep(m: Field, v: int -> int, i: nat, n: nat)
    requires i > 0
    ensures Form(m, v, i, n) == Form(m, v, i - 1, n) + Times(v(i - 1), Dot(v, RowOf(m, i - 1), n))
  {}

  /** Adding c * c^T to the matrix adds the square of v . c to the form. */
  lemma {:induction false} FormGrows(m: Field, m': Field, v: int -> int, c: int -> int, i: nat, n: nat)
    requires i <= n && OuterAdded(m, m', c, n)
    ensures Form(m', v, i, n) == Form(m, v, i, n) + Times(Dot(v, c, i), Dot(v, c, n))
    decreases i
  {
    hide Times, Form, Dot, OuterAdded, RowOf;
    var d := Dot(v, c, n);
    FormOfNoRows(m, m', v, c, n);
    if i > 0 {
      FormStep(m, v, i, n);
      FormStep(m', v, i, n);
      DotStep(v, c, i);
      FormGrows(m, m', v, c, i - 1, n);
      RowGrows(m, m', v, c, i - 1, n);
      Regroup(v(i - 1), c(i - 1), d, Dot(v, c, i - 1), Dot(v, RowOf(m, i - 1), n), Dot(v, RowOf(m', i - 1), n), Dot(v, c, i));
    }
  }

  lemma Regroup(x: int, y: int, d: int, rest: int, inner: int, inner': int, whole: int)
    requires inner' == inner + Times(y, d) && whole == rest + Times(x, y)
    ensures Times(rest, d) + Times(x, inner') == Times(x, inner) + Times(whole, d)
  {
    hide Times;
    TimesLaws(x, inner, Times(y, d));
    TimesLaws(x, y, d);
    TimesLaws(d, rest, Times(x, y));
    TimesLaws(rest, d, 0);
    TimesLaws(whole, d, 0);
    TimesLaws(Times(x, y), d, 0);
  }

  /** The matrix after whole rows and a part of the next one, as a field; zero outside. */
  function PartialMatrix(b6Param: bool, dx: Field, dy: Field, j: nat, k: nat, width: nat): Field
  {
    (a, b) =>
      if 0 <= a < NumParams(b6Param) && 0 <= b < NumParams(b6Param)
      then PartialSum(Outer(b6Param, dx, dy, a, b), j, k, width) else 0
  }

  function CoeffsOf(b6Param: bool, dx: Field, dy: Field, j: int, k: int): int -> int
  {
    a => if 0 <= a < NumParams(b6Param) then Coeffs(b6Param, dx, dy, j, k)[a] else 0
  }

  lemma PartialStep(b6Param: bool, dx: Field, dy: Field, j: nat, k: nat, width: nat, a: nat, b: nat)
    requires k > 0 && a < NumParams(b6Param) && b < NumParams(b6Param)
    ensures PartialMatrix(b6Param, dx, dy, j, k, width)(a, b)
         == PartialMatrix(b6Param, dx, dy, j, k - 1, width)(a, b)
            + Times(CoeffsOf(b6Param, dx, dy, j, k - 1)(a), CoeffsOf(b6Param, dx, dy, j, k - 1)(b))
  {
    hide Coeffs;
  }

  lemma SquareNonNegative(x: int)
    ensures Times(x, x) >= 0
  {}

  lemma {:induction false} RowsNonNegative(b6Param: bool, dx: Field, dy: Field, j: nat, k: nat, width: nat, v: int -> int)
    ensures var n := NumParams(b6Param); Form(PartialMatrix(b6Param, dx, dy, j, k, width), v, n, n) >= 0
    decreases j, k
  {
    var n := NumParams(b6Param);
    var now := PartialMatrix(b6Param, dx, dy, j, k, width);
    hide Form, Dot, CoeffsOf, Coeffs, NumParams, Times;
    if k > 0 {
      RowsNonNegative(b6Param, dx, dy, j, k - 1, width, v);
      var c := CoeffsOf(b6Param, dx, dy, j, k - 1);
      var before := PartialMatrix(b6Param, dx, dy, j, k - 1, width);
      forall a, b | 0 <= a < n && 0 <= b < n ensures now(a, b) == before(a, b) + Times(c(a), c(b)) {
        PartialStep(b6Param, dx, dy, j, k, width, a, b);
      }
      FormGrows(before, now, v, c, n, n);
      SquareNonNegative(Dot(v, c, n));
    } else if j > 0 {
      RowsNonNegative(b6Param, dx, dy, j - 1, width, width, v);
      FormSame(PartialMatrix(b6Param, dx, dy, j - 1, width, width), now, v, n, n);
    } else {
      FormOfZero(now, v, n, n);
    }
  }

  lemma {:induction false} DotSame(v: int -> int, w: int -> int, w': int -> int, n: nat)
    requires forall b :: 0 <= b < n ==> w(b) == w'(b)
    ensures Dot(v, w, n) == Dot(v, w', n)
  {
    if n > 0 { DotSame(v, w, w', n - 1); }
  }

  lemma {:induction false} FormSame(m: Field, m': Field, v: int -> int, i: nat, n: nat)
    requires i <= n && forall a, b :: 0 <= a < n && 0 <= b < n ==> m(a, b) == m'(a, b)
    ensures Form(m, v, i, n) == Form(m', v, i, n)
  {
    if i > 0 {
      FormSame(m, m', v, i - 1, n);
      DotSame(v, RowOf(m, i - 1), RowOf(m', i - 1), n);
    }
  }

  lemma {:induction false} FormOfZero(m: Field, v: int -> int, i: nat, n: nat)
    requires i <= n && forall a, b :: 0 <= a < n && 0 <= b < n ==> m(a, b) == 0
    ensures Form(m, v, i, n) == 0
  {
    if i > 0 {
      FormOfZero(m, v, i - 1, n);
      DotOfZero(v, RowOf(m, i - 1), n);
    }
  }

  lemma {:induction false} DotOfZero(v: int -> int, w: int -> int, n: nat)
    requires forall b :: 0 <= b < n ==> w(b) == 0
    ensures Dot(v, w, n) == 0
  {
    if n > 0 { DotOfZero(v, w, n - 1); }
  }

  /** The accumulated matrix is positive semidefinite. */
  lemma MatrixPositiveSemidefinite(b6Param: bool, dx: Field, dy: Field, height: nat, width: nat, m: Field, v: int -> int)
    requires forall a, b :: 0 <= a < NumParams(b6Param) && 0 <= b < NumParams(b6Param) ==>
      m(a, b) == Matrix(b6Param, dx, dy, height, width, a, b)
    ensures Form(m, v, NumParams(b6Param), NumParams(b6Param)) >= 0
  {
    RowsNonNegative(b6Param, dx, dy, height, 0, width, v);
    FormSame(PartialMatrix(b6Param, dx, dy, height, 0, width), m, v, NumParams(b6Param), NumParams(b6Param));
  }

  // The 4-parameter form is the image of the 6-parameter form under (c0, c1 + c5, c2, c4 - c3)

  function First(i: nat): nat { if i == 3 then 4 else i }

  function Second(i: nat): nat { if i == 1 then 5 else 3 }

  function Sign(i: nat): int { if i == 1 then 1 else if i == 3 then -1 else 0 }

  lemma CoeffsFromSix(dx: Field, dy: Field, j: int, k: int, i: nat)
    requires i < 4
    ensures Coeffs(false, dx, dy, j, k)[i]
         == Coeffs(true, dx, dy, j, k)[First(i)] + Sign(i) * Coeffs(true, dx, dy, j, k)[Second(i)]
  {}

  lemma MatrixFromSix(dx: Field, dy: Field, height: nat, width: nat, a: nat, b: nat)
    requires a < 4 && b < 4
    ensures Matrix(false, dx, dy, height, width, a, b)
         == Matrix(true, dx, dy, height, width, First(a), First(b))
            + Sign(b) * Matrix(true, dx, dy, height, width, First(a), Second(b))
            + Sign(a) * Matrix(true, dx, dy, height, width, Second(a), First(b))
            + Sign(a) * Sign(b) * Matrix(true, dx, dy, height, width, Second(a), Second(b))
  {
    var f := Outer(false, dx, dy, a, b);
    var g0, g1 := Outer(true, dx, dy, First(a), First(b)), Outer(true, dx, dy, First(a), Second(b));
    var g2, g3 := Outer(true, dx, dy, Second(a), First(b)), Outer(true, dx, dy, Second(a), Second(b));
    forall j, k ensures f(j, k) == g0(j, k) + Sign(b) * g1(j, k) + Sign(a) * g2(j, k) + Sign(a) * Sign(b) * g3(j, k) {
      CoeffsFromSix(dx, dy, j, k, a);
      CoeffsFromSix(dx, dy, j, k, b);
      var c := Coeffs(true, dx, dy, j, k);
      Expand(c[First(a)], Sign(a), c[Second(a)], c[First(b)], Sign(b), c[Second(b)]);
    }
    BlockSumCombine(f, g0, g1, g2, g3, Sign(b), Sign(a), Sign(a) * Sign(b), height, width);
  }

  lemma Expand(p: int, s: int, q: int, p': int, s': int, q': int)
    requires s == -1 || s == 0 || s == 1
    requires s' == -1 || s' == 0 || s' == 1
    ensures (p + s * q) * (p' + s' * q') == p * p' + s' * (p * q') + s * (q * p') + s * s' * (q * q')
  {}

  lemma ExpandOnce(p: int, s: int, q: int, r: int)
    requires s == -1 || s == 0 || s == 1
    ensures (p + s * q) * r * 8 == p * r * 8 + s * (q * r * 8)
  {}

  lemma RightHandSideFromSix(dx: Field, dy: Field, residue: Field, height: nat, width: nat, a: nat)
    requires a < 4
    ensures BlockSum(Weighted(false, dx, dy, residue, a), height, width)
         == BlockSum(Weighted(true, dx, dy, residue, First(a)), height, width)
            + Sign(a) * BlockSum(Weighted(true, dx, dy, residue, Second(a)), height, width)
  {
    var f := Weighted(false, dx, dy, residue, a);
    var g0, g1 := Weighted(true, dx, dy, residue, First(a)), Weighted(true, dx, dy, residue, Second(a));
    forall j, k ensures f(j, k) == g0(j, k) + Sign(a) * g1(j, k) + 0 * g0(j, k) + 0 * g0(j, k) {
      CoeffsFromSix(dx, dy, j, k, a);
      var c := Coeffs(true, dx, dy, j, k);
      ExpandOnce(c[First(a)], Sign(a), c[Second(a)], residue(j, k));
    }
    hide Weighted;
    BlockSumCombine(f, g0, g1, g0, g0, Sign(a), 0, 0, height, width);
  }

  // The accumulators never overflow

  ghost predicate InPelRange(f: Field)
  {
    forall j, k :: -32768 <= f(j, k) <= 32767
  }

  lemma {:induction false} RowSumBound(f: Field, j: int, k: nat, width: nat, bound: nat)
    requires k <= width && forall l :: 0 <= l < width ==> Abs(f(j, l)) <= bound
    ensures Abs(RowSum(f, j, k)) <= bound * k
    decreases k
  {
    if k > 0 {
      RowSumBound(f, j, k - 1, width, bound);
      assert bound * k == bound * (k - 1) + bound;
    }
  }

  lemma {:induction false} BlockSumBound(f: Field, j: nat, height: nat, width: nat, bound: nat)
    requires j <= height && forall i, l :: 0 <= i < height && 0 <= l < width ==> Abs(f(i, l)) <= bound
    ensures Abs(BlockSum(f, j, width)) <= bound * width * j
    decreases j
  {
    if j > 0 {
      BlockSumBound(f, j - 1, height, width, bound);
      RowSumBound(f, j - 1, width, width, bound);
      assert bound * width * j == bound * width * (j - 1) + bound * width;
    }
  }

  // Two products of a coordinate of at most 126 and a 16-bit gradient
  const MAX_COEFF: nat := 126 * 0x1_0000

  lemma CoeffsBounded(b6Param: bool, dx: Field, dy: Field, j: nat, k: nat, a: nat)
    requires InPelRange(dx) && InPelRange(dy) && j < 128 && k < 128 && a < NumParams(b6Param)
    ensures Abs(Coeffs(b6Param, dx, dy, j, k)[a]) <= MAX_COEFF
  {
    assert Centre(j) <= 126 && Centre(k) <= 126;
    ProductBounded(Centre(k), dx(j, k));
    ProductBounded(Centre(j), dy(j, k));
    ProductBounded(Centre(j), dx(j, k));
    ProductBounded(Centre(k), dy(j, k));
  }

  lemma ProductBounded(c: nat, x: int)
    requires c <= 126 && -32768 <= x <= 32767
    ensures Abs(c * x) <= 126 * 32768
  {}

  lemma AbsProduct(x: int, y: int, a: nat, b: nat)
    requires Abs(x) <= a && Abs(y) <= b
    ensures Abs(x * y) <= a * b
  {
    assert Abs(x * y) == Abs(x) * Abs(y);
    assert Abs(x) * Abs(y) <= a * Abs(y) <= a * b;
  }

  lemma EntryBounded(b6Param: bool, dx: Field, dy: Field, residue: Field, j: nat, k: nat, a: nat, b: nat)
    requires InPelRange(dx) && InPelRange(dy) && InPelRange(residue) && j < 128 && k < 128
    requires a < NumParams(b6Param) && b <= NumParams(b6Param)
    ensures Abs(Entry(b6Param, dx, dy, residue, a, b)(j, k)) <= MAX_COEFF * MAX_COEFF
  {
    CoeffsBounded(b6Param, dx, dy, j, k, a);
    var c := Coeffs(b6Param, dx, dy, j, k);
    hide Coeffs;
    if b < NumParams(b6Param) {
      CoeffsBounded(b6Param, dx, dy, j, k, b);
      AbsProduct(c[a], c[b], MAX_COEFF, MAX_COEFF);
    } else {
      AbsProduct(c[a], residue(j, k), MAX_COEFF, 32768);
    }
  }

  /** For blocks of up to 128x128 16-bit samples, every 64-bit accumulator holds its exact sum after every sample. */
  lemma AccumulatorsFit(b6Param: bool, dx: Field, dy: Field, residue: Field, a: nat, b: nat, j: nat, k: nat, width: nat)
    requires InPelRange(dx) && InPelRange(dy) && InPelRange(residue)
    requires a < NumParams(b6Param) && b <= NumParams(b6Param) && j < 128 && k <= width <= 128
    ensures Abs(PartialSum(Entry(b6Param, dx, dy, residue, a, b), j, k, width)) < 0x8000_0000_0000_0000
  {
    var f, bound := Entry(b6Param, dx, dy, residue, a, b), MAX_COEFF * MAX_COEFF;
    forall i, l | 0 <= i < 128 && 0 <= l < width ensures Abs(f(i, l)) <= bound {
      EntryBounded(b6Param, dx, dy, residue, i, l, a, b);
    }
    hide Entry, PartialSum;
    PartialBounded(f, j, k, width, bound);
  }

  lemma PartialBounded(f: Field, j: nat, k: nat, width: nat, bound: nat)
    requires j <= 127 && k <= width <= 128 && forall i, l :: 0 <= i < 128 && 0 <= l < width ==> Abs(f(i, l)) <= bound
    ensures Abs(PartialSum(f, j, k, width)) <= bound * 16384
  {
    BlockSumBound(f, j, 128, width, bound);
    RowSumBound(f, j, k, width, bound);
    SamplesBound(bound, width, j, k);
  }

  lemma SamplesBound(bound: nat, width: nat, j: nat, k: nat)
    requires width <= 128 && j <= 127 && k <= 128
    ensures bound * width * j + bound * k <= bound * 16384
  {
    ProductsInOrder(width, 128, bound);
    ProductsInOrder(j, 127, bound * width);
    ProductsInOrder(k, 128, bound);
  }
}

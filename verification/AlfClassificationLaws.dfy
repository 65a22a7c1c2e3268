/** What the classification makes of known textures: the exact activity levels and direction strengths, for every bit depth. */
module AlfClassificationLaws {
  import opened Arithmetic
  import opened BitArithmetic
  import opened AlfClassification
  import opened AlfFilter
  import opened AlfSymmetry

  // Windows whose gradients are known

  /** Row i of the window around a block at vertical position y is not cut off at the virtual boundary. */
  predicate Counts(b: Boundary, y: int, i: int)
  {
    && -2 <= i < 6
    && (b.Row(y) == b.vbPos ==> i >= 0)
    && (b.Row(y) == b.vbPos - 4 ==> i < 4)
  }

  predicate AlternatesAt(rec: Plane, b: Boundary, d: Direction, r: int, c: int, y: int, even: nat, odd: nat, i: int, j: int)
  {
    Gradient(rec, b, d, r + i, c + j, y + i) == if i % 2 == 0 then even else odd
  }

  /** Every other sample of the window, as on a checkerboard, has the gradient `even` in even rows and `odd` in odd ones. */
  ghost predicate Alternates(rec: Plane, b: Boundary, d: Direction, r: int, c: int, y: int, even: nat, odd: nat)
  {
    forall i, j :: Counts(b, y, i) && -2 <= j < 6 && (i + j) % 2 == 0 ==> AlternatesAt(rec, b, d, r, c, y, even, odd, i, j)
  }

  lemma RowOfAlternating(rec: Plane, b: Boundary, d: Direction, r: int, c: int, y: int, even: nat, odd: nat, i: int)
    requires Alternates(rec, b, d, r, c, y, even, odd) && Counts(b, y, i)
    ensures WindowRow(rec, b, d, r, c, y, i) == 4 * if i % 2 == 0 then even else odd
  {
    hide Gradient, MaskRow, Counts;
    var o := i % 2;
    assert AlternatesAt(rec, b, d, r, c, y, even, odd, i, o - 2) && AlternatesAt(rec, b, d, r, c, y, even, odd, i, o);
    assert AlternatesAt(rec, b, d, r, c, y, even, odd, i, o + 2) && AlternatesAt(rec, b, d, r, c, y, even, odd, i, o + 4);
    hide Alternates;
    assert c + (o - 2) == c + o - 2 && c + (o + 2) == c + o + 2 && c + (o + 4) == c + o + 4;
  }

  /** A window counts 32 samples, or 24 next to the virtual boundary. */
  lemma SumOfAlternating(rec: Plane, b: Boundary, d: Direction, r: int, c: int, y: int, even: nat, odd: nat)
    requires b.Valid() && Alternates(rec, b, d, r, c, y, even, odd)
    ensures WindowSum(rec, b, d, r, c, y) == (if AtBoundary(b, y) then 12 else 16) * (even + odd)
  {
    hide Alternates, WindowRow, MaskRow, PowerOfTwo;
    if b.Row(y) != b.vbPos {
      RowOfAlternating(rec, b, d, r, c, y, even, odd, -2);
      RowOfAlternating(rec, b, d, r, c, y, even, odd, -1);
    }
    RowOfAlternating(rec, b, d, r, c, y, even, odd, 0);
    RowOfAlternating(rec, b, d, r, c, y, even, odd, 1);
    RowOfAlternating(rec, b, d, r, c, y, even, odd, 2);
    RowOfAlternating(rec, b, d, r, c, y, even, odd, 3);
    if b.Row(y) != b.vbPos - 4 {
      RowOfAlternating(rec, b, d, r, c, y, even, odd, 4);
      RowOfAlternating(rec, b, d, r, c, y, even, odd, 5);
    }
  }

  // Activity

  lemma {:induction false} ShiftRightIsDivision(x: nat, n: nat)
    ensures ShiftRight(x, n) == x / Pow2(n)
    decreases n
  {
    if n > 0 {
      ShiftRightIsDivision(x / 2, n - 1);
      DivideTwice(x, 2, Pow2(n - 1));
    }
  }

  lemma {:induction false} Pow2Sum(m: nat, n: nat)
    ensures Pow2(m + n) == Pow2(m) * Pow2(n)
    decreases n
  {
    if n > 0 { Pow2Sum(m, n - 1); }
  }

  lemma DropFactor(x: nat, m: nat, n: nat)
    ensures x * Pow2(m) / Pow2(m + n) == x / Pow2(n)
  {
    Pow2Sum(m, n);
    hide Pow2;
    CancelFactor(x, Pow2(m), Pow2(n));
  }

  lemma CancelFactor(x: nat, p: nat, q: nat)
    requires p > 0 && q > 0
    ensures p * q > 0 && x * p / (p * q) == x / q
  {
    var n := x * p;
    DivideTwice(n, p, q);
    Quotient(x, 0, p);
    assert n + 0 == n;
  }

  /** The mean gradient g of a window that counts 32 samples, or 24 weighted by one and a half. */
  lemma ActivityOfMean(g: nat, bitDepth: nat)
    requires bitDepth >= 7
    ensures Activity(32 * g, false, bitDepth + 4) == g / Pow2(bitDepth - 7)
    ensures Activity(24 * g, true, bitDepth + 4) == 9 * g / Pow2(bitDepth - 4)
  {
    Pow2Small();
    assert Pow2(11) == 2 * Pow2(10) == 4 * Pow2(9) == 8 * Pow2(8);
    assert 32 * g * 64 == g * Pow2(11) && 24 * g * 96 == 9 * g * Pow2(8);
    hide Pow2, ShiftRight;
    ShiftRightIsDivision(32 * g * 64, bitDepth + 4);
    ShiftRightIsDivision(24 * g * 96, bitDepth + 4);
    DropFactor(g, 11, bitDepth - 7);
    DropFactor(9 * g, 8, bitDepth - 4);
  }

  /** The level of an activity: none, one, up to six, up to fourteen, more. */
  predicate HasLevel(level: nat, activity: int)
  {
    match level
    case 0 => activity < 1
    case 1 => 1 <= activity < 2
    case 2 => 2 <= activity < 7
    case 3 => 7 <= activity < 15
    case _ => level == 4 && 15 <= activity
  }

  /** The level of a window with mean gradient g. */
  predicate ActiveAs(level: nat, g: nat, bitDepth: nat, atBoundary: bool)
    requires bitDepth >= 8
  {
    HasLevel(level, if atBoundary then 9 * g / Pow2(bitDepth - 4) else g / Pow2(bitDepth - 7))
  }

  /** A window with known vertical and horizontal gradients has the level of its activity, in either kind of window. */
  lemma LevelOfAlternating(rec: Plane, b: Boundary, r: int, c: int, y: int, bitDepth: nat, v: nat, v': nat, h: nat, h': nat)
    requires b.Valid() && bitDepth >= 8 && (v + v' + h + h') % 2 == 0
    requires Alternates(rec, b, Ver, r, c, y, v, v') && Alternates(rec, b, Hor, r, c, y, h, h')
    ensures ActiveAs(BlockClass(rec, b, r, c, y, bitDepth + 4).classIdx % 5, (v + v' + h + h') / 2, bitDepth, AtBoundary(b, y))
  {
    hide Alternates, MaskRow, PowerOfTwo, WindowSum, DirectionClass, AtBoundary, HasLevel, ActivityClass;
    SumOfAlternating(rec, b, Ver, r, c, y, v, v');
    SumOfAlternating(rec, b, Hor, r, c, y, h, h');
    var g, at, shift := (v + v' + h + h') / 2, AtBoundary(b, y), bitDepth + 4;
    assert WindowSum(rec, b, Ver, r, c, y) + WindowSum(rec, b, Hor, r, c, y) == (if at then 24 else 32) * g;
    ActivityOfMean(g, bitDepth);
    LevelOfActivity(WindowSum(rec, b, Ver, r, c, y), WindowSum(rec, b, Hor, r, c, y), at, shift);
    hide Activity, Pow2;
  }

  lemma LevelOfActivity(v: nat, h: nat, atBoundary: bool, shift: nat)
    ensures ActivityClass(v, h, atBoundary, shift) <= 4
    ensures HasLevel(ActivityClass(v, h, atBoundary, shift), Activity(v + h, atBoundary, shift))
  {}

  lemma PartsOfClass(v: nat, h: nat, d0: nat, d1: nat, atBoundary: bool, shift: nat)
    ensures var cl := ClassOf(v, h, d0, d1, atBoundary, shift);
            cl.classIdx / 5 == DirectionClass(v, h, d0, d1) && cl.classIdx % 5 == ActivityClass(v, h, atBoundary, shift)
  {
    hide DirectionClass;
  }

  /** From a sample to the next one in a direction. */
  function Step(d: Direction): (int, int)
  {
    match d case Hor => (0, 1) case Ver => (1, 0) case Diag0 => (1, 1) case Diag1 => (1, -1)
  }

  /** Away from the boundary a gradient is how far the two neighbours in its direction are from twice the sample. */
  lemma GradientOfNeighbours(rec: Plane, d: Direction, r: int, c: int)
    ensures var (dr, dc) := Step(d);
            Gradient(rec, FAR, d, r, c, 0) == Abs(2 * rec(r, c) - rec(r + dr, c + dc) - rec(r + -dr, c + -dc))
  {
    assert FAR.Row(0) == 0;
    hide MaskRow;
  }

  // Stripes

  /** Every other row is `high` brighter, and every other column `wide` brighter. */
  function Stripes(high: nat, wide: nat): Plane
  {
    (r, c) => (if r % 2 == 0 then 0 else high) + (if c % 2 == 0 then 0 else wide)
  }

  lemma StripesGradient(high: nat, wide: nat, d: Direction, r: int, c: int)
    requires (r + c) % 2 == 0
    ensures Gradient(Stripes(high, wide), FAR, d, r, c, 0)
         == match d case Ver => 2 * high case Hor => 2 * wide case _ => 2 * (high + wide)
  {
    assert FAR.Row(0) == 0;
  }

  lemma StripesAlternate(high: nat, wide: nat, b: Boundary, d: Direction, r: int, c: int, y: int)
    requires r % 2 == 0 && c % 2 == 0 && FarFromBoundary(b, y)
    ensures var g := match d case Ver => 2 * high case Hor => 2 * wide case _ => 2 * (high + wide);
            Alternates(Stripes(high, wide), b, d, r, c, y, g, g)
  {
    var rec, g := Stripes(high, wide), match d case Ver => 2 * high case Hor => 2 * wide case _ => 2 * (high + wide);
    hide Stripes, MaskRow;
    forall i, j | Counts(b, y, i) && -2 <= j < 6 && (i + j) % 2 == 0 ensures AlternatesAt(rec, b, d, r, c, y, g, g, i, j) {
      GradientFar(rec, b, d, r + i, c + j, y + i, 0);
      StripesGradient(high, wide, d, r + i, c + j);
    }
  }

  /** How one-sided a texture is: 2 for more than 4.5 : 1, 1 for more than 2 : 1. */
  predicate OneSided(strength: nat, p: nat, q: nat)
  {
    var great, small := if p > q then p else q, if p > q then q else p;
    && (strength == 2 <==> 10 * great > 45 * small)
    && (strength == 1 <==> 10 * great <= 45 * small && great > small + small)
    && strength <= 2
  }

  /** Stripes are horizontal or vertical as strongly as they differ, and as active as both together. */
  lemma ClassOfStripes(high: nat, wide: nat, b: Boundary, r: int, c: int, y: int, bitDepth: nat)
    requires b.Valid() && bitDepth >= 8 && r % 2 == 0 && c % 2 == 0 && FarFromBoundary(b, y)
    ensures var cl := BlockClass(Stripes(high, wide), b, r, c, y, bitDepth + 4);
            && ActiveAs(cl.classIdx % 5, 2 * (high + wide), bitDepth, false)
            && (cl.classIdx / 5 == 0 ==> OneSided(0, high, wide))
            && (cl.classIdx / 5 > 0 ==> cl.classIdx / 5 >= 3 && OneSided(cl.classIdx / 5 - 2, high, wide))
            && cl.transposeIdx == if high > wide then 2 else 3
  {
    var rec, g := Stripes(high, wide), high + wide;
    hide ActiveAs, ActivityClass, Stripes, Alternates, MaskRow, PowerOfTwo, WindowSum, Pow2, FarFromBoundary;
    StripesAlternate(high, wide, b, Ver, r, c, y);
    StripesAlternate(high, wide, b, Hor, r, c, y);
    StripesAlternate(high, wide, b, Diag0, r, c, y);
    StripesAlternate(high, wide, b, Diag1, r, c, y);
    LevelOfAlternating(rec, b, r, c, y, bitDepth, 2 * high, 2 * high, 2 * wide, 2 * wide);
    SumOfAlternating(rec, b, Ver, r, c, y, 2 * high, 2 * high);
    SumOfAlternating(rec, b, Hor, r, c, y, 2 * wide, 2 * wide);
    SumOfAlternating(rec, b, Diag0, r, c, y, 2 * g, 2 * g);
    SumOfAlternating(rec, b, Diag1, r, c, y, 2 * g, 2 * g);
    assert !AtBoundary(b, y) by { FarIsNotAt(b, y); }
    PartsOfClass(64 * high, 64 * wide, 64 * g, 64 * g, false, bitDepth + 4);
    DirectionOfStripes(high, wide);
    hide DirectionClass, OneSided;
  }

  lemma FarIsNotAt(b: Boundary, y: int)
    requires FarFromBoundary(b, y)
    ensures !AtBoundary(b, y)
  {}

  lemma DirectionOfStripes(high: nat, wide: nat)
    ensures var k := DirectionClass(64 * high, 64 * wide, 64 * (high + wide), 64 * (high + wide));
            (k == 0 && OneSided(0, high, wide)) || (3 <= k <= 4 && OneSided(k - 2, high, wide))
  {
    var m0, m1, n := Min(64 * high, 64 * wide), Max(64 * high, 64 * wide), 64 * (high + wide);
    ProductsInOrder(m0, m1, n);
    assert !RatioExceeds(Max(n, n), Min(n, n), m1, m0);
    assert DirectionClass(64 * high, 64 * wide, n, n) == if Strength(m1, m0) == 0 then 0 else 2 + Strength(m1, m0);
    if high > wide {
      assert m1 == 64 * high && m0 == 64 * wide;
    } else {
      assert m1 == 64 * wide && m0 == 64 * high;
    }
  }

  // Diagonals

  function Wave(amplitude: nat, n: int): nat
  {
    if n % 4 == 0 then 0 else if n % 4 == 2 then 2 * amplitude else amplitude
  }

  /** Waves of length four along both diagonals. */
  function Diagonals(falling: nat, rising: nat): Plane
  {
    (r, c) => Wave(falling, r + c) + Wave(rising, r - c)
  }

  lemma DiagonalsAlternate(falling: nat, rising: nat, b: Boundary, d: Direction, r: int, c: int, y: int)
    requires r % 2 == 0 && c % 2 == 0 && FarFromBoundary(b, y)
    ensures var rec, same, other := Diagonals(falling, rising), 2 * (falling + rising), 2 * Abs(falling - rising);
            match d
            case Diag0 => Alternates(rec, b, d, r, c, y, 4 * falling, 4 * falling)
            case Diag1 => Alternates(rec, b, d, r, c, y, 4 * rising, 4 * rising)
            case _ => Alternates(rec, b, d, r, c, y, same, other)
  {
    var rec := Diagonals(falling, rising);
    var even := match d case Diag0 => 4 * falling case Diag1 => 4 * rising case _ => 2 * (falling + rising);
    var odd := match d case Diag0 => 4 * falling case Diag1 => 4 * rising case _ => 2 * Abs(falling - rising);
    hide Diagonals, MaskRow;
    forall i, j | Counts(b, y, i) && -2 <= j < 6 && (i + j) % 2 == 0 ensures AlternatesAt(rec, b, d, r, c, y, even, odd, i, j) {
      GradientFar(rec, b, d, r + i, c + j, y + i, 0);
      WaveGradient(falling, rising, d, r + i, c + j);
    }
  }

  lemma WaveSteps(amplitude: nat, n: int)
    requires n % 2 == 0
    ensures Wave(amplitude, n - 1) == Wave(amplitude, n + 1) == amplitude
    ensures Wave(amplitude, n) == 0 || Wave(amplitude, n) == 2 * amplitude
    ensures Wave(amplitude, n) + Wave(amplitude, n - 2) == Wave(amplitude, n) + Wave(amplitude, n + 2) == 2 * amplitude
  {}

  lemma SameParity(r: int, c: int)
    requires (r + c) % 2 == 0
    ensures (r - c) % 2 == 0
  {}

  /** The samples around one with an even distance on both diagonals. */
  lemma WaveSamples(falling: nat, rising: nat, r: int, c: int)
    requires (r + c) % 2 == 0
    ensures var rec, f, g := Diagonals(falling, rising), Wave(falling, r + c), Wave(rising, r - c);
            && rec(r, c) == f + g
            && rec(r, c - 1) == rec(r, c + 1) == rec(r - 1, c) == rec(r + 1, c) == falling + rising
            && rec(r - 1, c - 1) == rec(r + 1, c + 1) == 2 * falling - f + g
            && rec(r - 1, c + 1) == rec(r + 1, c - 1) == f + 2 * rising - g
  {
    hide Wave;
    var s, t := r + c, r - c;
    SameParity(r, c);
    WaveSteps(falling, s);
    WaveSteps(rising, t);
    assert (r - 1) + c == s - 1 && (r - 1) - c == t - 1 && (r + 1) + c == s + 1 && (r + 1) - c == t + 1;
    assert (r - 1) + (c - 1) == s - 2 && (r + 1) + (c + 1) == s + 2 && (r - 1) - (c - 1) == t == (r + 1) - (c + 1);
    assert (r - 1) - (c + 1) == t - 2 && (r + 1) - (c - 1) == t + 2 && (r - 1) + (c + 1) == s == (r + 1) + (c - 1);
    assert r + (c - 1) == s - 1 && r - (c - 1) == t + 1 && r + (c + 1) == s + 1 && r - (c + 1) == t - 1;
  }

  /** In even rows both waves are at the same end, in odd ones at different ends. */
  lemma WavesMeet(falling: nat, rising: nat, r: int, c: int)
    requires (r + c) % 2 == 0
    ensures var f, g := Wave(falling, r + c), Wave(rising, r - c);
            Abs(2 * (f + g) - 2 * (falling + rising)) == if r % 2 == 0 then 2 * (falling + rising) else 2 * Abs(falling - rising)
  {
    var s, t := r + c, r - c;
    assert s == t + 2 * c;
    assert r % 2 == 0 <==> c % 2 == 0;
    assert s % 4 == 0 || s % 4 == 2;
    if c % 2 == 0 {
      assert s == t + 4 * (c / 2);
      assert s % 4 == t % 4;
    } else {
      assert s == t + 4 * (c / 2) + 2;
      assert s % 4 == (t + 2) % 4;
    }
  }

  lemma WaveGradient(falling: nat, rising: nat, d: Direction, r: int, c: int)
    requires (r + c) % 2 == 0
    ensures Gradient(Diagonals(falling, rising), FAR, d, r, c, 0)
         == match d case Diag0 => 4 * falling case Diag1 => 4 * rising
            case _ => if r % 2 == 0 then 2 * (falling + rising) else 2 * Abs(falling - rising)
  {
    hide Gradient, Wave, Diagonals;
    SameParity(r, c);
    GradientOfNeighbours(Diagonals(falling, rising), d, r, c);
    WaveSamples(falling, rising, r, c);
    WavesMeet(falling, rising, r, c);
    WaveSteps(falling, r + c);
    WaveSteps(rising, r - c);
  }

  /** Diagonal waves are diagonal as strongly as they differ, and as active as the greater one. */
  lemma ClassOfDiagonals(falling: nat, rising: nat, b: Boundary, r: int, c: int, y: int, bitDepth: nat)
    requires b.Valid() && bitDepth >= 8 && r % 2 == 0 && c % 2 == 0 && FarFromBoundary(b, y)
    ensures var cl := BlockClass(Diagonals(falling, rising), b, r, c, y, bitDepth + 4);
            && ActiveAs(cl.classIdx % 5, 4 * (if falling > rising then falling else rising), bitDepth, false)
            && cl.classIdx / 5 <= 2 && OneSided(cl.classIdx / 5, falling, rising)
            && cl.transposeIdx == if falling > rising then 1 else 3
  {
    var rec, same, other := Diagonals(falling, rising), 2 * (falling + rising), 2 * Abs(falling - rising);
    var great := if falling > rising then falling else rising;
    hide ActiveAs, ActivityClass, Diagonals, Alternates, MaskRow, PowerOfTwo, WindowSum, Pow2, FarFromBoundary;
    DiagonalsAlternate(falling, rising, b, Ver, r, c, y);
    DiagonalsAlternate(falling, rising, b, Hor, r, c, y);
    DiagonalsAlternate(falling, rising, b, Diag0, r, c, y);
    DiagonalsAlternate(falling, rising, b, Diag1, r, c, y);
    assert same + other == 4 * great;
    LevelOfAlternating(rec, b, r, c, y, bitDepth, same, other, same, other);
    SumOfAlternating(rec, b, Ver, r, c, y, same, other);
    SumOfAlternating(rec, b, Hor, r, c, y, same, other);
    SumOfAlternating(rec, b, Diag0, r, c, y, 4 * falling, 4 * falling);
    SumOfAlternating(rec, b, Diag1, r, c, y, 4 * rising, 4 * rising);
    assert !AtBoundary(b, y) by { FarIsNotAt(b, y); }
    PartsOfClass(64 * great, 64 * great, 128 * falling, 128 * rising, false, bitDepth + 4);
    DirectionOfDiagonals(falling, rising);
    hide DirectionClass, OneSided;
  }

  lemma DirectionOfDiagonals(falling: nat, rising: nat)
    ensures var great := if falling > rising then falling else rising;
            var k := DirectionClass(64 * great, 64 * great, 128 * falling, 128 * rising);
            k <= 2 && OneSided(k, falling, rising)
  {
    var great := if falling > rising then falling else rising;
    var small := if falling > rising then rising else falling;
    var d0, d1, n := 128 * small, 128 * great, 64 * great;
    if great > small {
      MultiplyMore(d1, d0, n);
    }
    assert RatioExceeds(d1, d0, Max(n, n), Min(n, n)) <==> great > small;
    if falling > rising {
      assert Max(128 * falling, 128 * rising) == d1 && Min(128 * falling, 128 * rising) == d0;
    } else {
      assert Max(128 * falling, 128 * rising) == d1 && Min(128 * falling, 128 * rising) == d0;
    }
    assert DirectionClass(n, n, 128 * falling, 128 * rising) == if great > small then Strength(d1, d0) else 0;
  }

  // Orientation

  /** How a direction is seen in the plane that a transpose index turns. */
  function Seen(transposeIdx: nat, d: Direction): Direction
  {
    match d
    case Hor => if transposeIdx % 2 == 1 then Ver else Hor
    case Ver => if transposeIdx % 2 == 1 then Hor else Ver
    case Diag0 => if transposeIdx >= 2 then Diag1 else Diag0
    case Diag1 => if transposeIdx >= 2 then Diag0 else Diag1
  }

  /** Turning a plane turns distances like positions. */
  lemma TurnedSample(rec: Plane, transposeIdx: nat, r: int, c: int, dr: int, dc: int)
    requires transposeIdx < 4
    ensures var (r', c') := TurnedPosition(transposeIdx, r, c);
            var (dr', dc') := TurnedPosition(transposeIdx, dr, dc);
            Turned(transposeIdx, rec)(r' + dr', c' + dc') == rec(r + dr, c + dc)
  {
    assert -(-c + -dc) == c + dc && -(-r + -dr) == r + dr;
  }

  lemma GradientOfTurned(rec: Plane, transposeIdx: nat, d: Direction, r: int, c: int)
    requires transposeIdx < 4
    ensures var (r', c') := TurnedPosition(transposeIdx, r, c);
            Gradient(Turned(transposeIdx, rec), FAR, Seen(transposeIdx, d), r', c', 0) == Gradient(rec, FAR, d, r, c, 0)
  {
    hide Gradient, Turned;
    var (r', c') := TurnedPosition(transposeIdx, r, c);
    var (dr, dc) := Step(d);
    GradientOfNeighbours(rec, d, r, c);
    GradientOfNeighbours(Turned(transposeIdx, rec), Seen(transposeIdx, d), r', c');
    TurnedSample(rec, transposeIdx, r, c, 0, 0);
    TurnedSample(rec, transposeIdx, r, c, dr, dc);
    TurnedSample(rec, transposeIdx, r, c, -dr, -dc);
  }

  /** In the plane turned by its transpose index a block is more vertical than horizontal, and falling more than rising. */
  lemma TurnedIsUpright(sums: Direction -> nat, turned: Direction -> nat)
    requires sums(Ver) != sums(Hor) && sums(Diag0) != sums(Diag1)
    requires forall d :: turned(Seen(TransposeOf(sums(Ver), sums(Hor), sums(Diag0), sums(Diag1)), d)) == sums(d)
    ensures turned(Ver) > turned(Hor) && turned(Diag0) > turned(Diag1)
    ensures TransposeOf(turned(Ver), turned(Hor), turned(Diag0), turned(Diag1)) == 0
  {
    var t := TransposeOf(sums(Ver), sums(Hor), sums(Diag0), sums(Diag1));
    assert turned(Seen(t, Hor)) == sums(Hor) && turned(Seen(t, Ver)) == sums(Ver);
    assert turned(Seen(t, Diag0)) == sums(Diag0) && turned(Seen(t, Diag1)) == sums(Diag1);
  }
}

/** The chroma scaling of luma mapping, AreaBuf::scaleSignal of Buffer.cpp. */
module ChromaScaling {
  import opened Arithmetic
  import opened BitArithmetic
  import opened BorderExtension

  // CSCALE_FP_PREC is 11, one is 2048
  const CSCALE_ONE: nat := 2048
  const CSCALE_HALF: nat := 1024

  /** A magnitude divided by the scale, rounded to the nearest. */
  function Divided(absval: nat, scale: nat): nat
    requires scale > 0
  {
    (absval * CSCALE_ONE + scale / 2) / scale
  }

  /** A magnitude multiplied by the scale, rounded to the nearest. */
  function Multiplied(absval: nat, scale: nat): nat
  {
    (absval * scale + CSCALE_HALF) / CSCALE_ONE
  }

  function Forward(x: int, scale: nat, maxAbs: nat): int
    requires scale > 0
  {
    Clip3(0 - maxAbs, maxAbs, if x >= 0 then Divided(x, scale) else 0 - Divided(-x, scale))
  }

  function Inverse(x: int, scale: nat, maxAbs: nat): int
  {
    var val := Clip3(0 - maxAbs - 1, maxAbs, x);
    Clip3(-32768, 32767, if x >= 0 then Multiplied(val, scale) else 0 - Multiplied(-val, scale))
  }

  /** What dividing leaves over. */
  function Remainder(absval: nat, scale: nat): nat
    requires scale > 0
  {
    (absval * CSCALE_ONE + scale / 2) % scale
  }

  lemma DividedExactly(absval: nat, scale: nat)
    requires scale > 0
    ensures Divided(absval, scale) * scale == absval * CSCALE_ONE + scale / 2 - Remainder(absval, scale)
    ensures Remainder(absval, scale) < scale
  {}

  /** One magnitude survives exactly when the rounding error of the division stays within half a unit. */
  lemma RoundTripOfMagnitude(absval: nat, scale: nat)
    requires scale > 0
    ensures Multiplied(Divided(absval, scale), scale) == absval
       <==> scale / 2 - CSCALE_HALF < Remainder(absval, scale) <= scale / 2 + CSCALE_HALF
  {
    DividedExactly(absval, scale);
    hide Divided, Remainder;
  }

  /** Without clipping, the error is at most scale / 2^12 + 1/2. */
  lemma ErrorOfMagnitude(absval: nat, scale: nat)
    requires scale > 0
    ensures var error := Multiplied(Divided(absval, scale), scale) - absval;
            0 - (scale + CSCALE_ONE) <= 2 * CSCALE_ONE * error <= scale + CSCALE_ONE
  {
    DividedExactly(absval, scale);
    hide Divided, Remainder;
  }

  lemma DividedMonotone(x: nat, y: nat, scale: nat)
    requires scale > 0 && x <= y
    ensures Divided(x, scale) <= Divided(y, scale)
  {
    DividedExactly(x, scale);
    DividedExactly(y, scale);
    var a, b := Divided(x, scale), Divided(y, scale);
    hide Divided, Remainder;
    if a > b {
      MultiplyMore(a, b, scale);
    }
  }

  lemma MultipliedMonotone(x: nat, y: nat, scale: nat)
    requires x <= y
    ensures Multiplied(x, scale) <= Multiplied(y, scale)
  {
    ProductsInOrder(x, y, scale);
  }

  /** The least magnitude that a scale above one loses: the first whose excess over one amounts to half a unit. */
  function FirstLost(scale: nat): (g: nat)
    requires scale > CSCALE_ONE
  {
    (CSCALE_HALF + (scale - CSCALE_ONE) - 1) / (scale - CSCALE_ONE)
  }

  lemma FirstLostIsLeast(scale: nat)
    requires scale > CSCALE_ONE
    ensures var g, excess := FirstLost(scale), scale - CSCALE_ONE;
            1 <= g <= CSCALE_HALF && (g - 1) * excess < CSCALE_HALF <= g * excess
  {
    var excess := scale - CSCALE_ONE;
    var n := CSCALE_HALF + excess - 1;
    var q, r := n / excess, n % excess;
    assert n == q * excess + r;
    assert q <= 0 ==> q * excess <= 0;
    Distribute(excess, q - 1, 1);
    assert (q - 1) * (excess - 1) >= 0;
    Distribute(q - 1, excess - 1, 1);
  }

  /** Below the least lost magnitude, division and multiplication change nothing. */
  lemma SmallSurvives(x: nat, scale: nat)
    requires scale > CSCALE_ONE && x * (scale - CSCALE_ONE) < CSCALE_HALF
    ensures Divided(x, scale) == x && Multiplied(x, scale) == x
  {
    var excess := x * (scale - CSCALE_ONE);
    Distribute(x, CSCALE_ONE, scale - CSCALE_ONE);
    Quotient(x, scale / 2 - excess, scale);
    Quotient(x, excess + CSCALE_HALF, CSCALE_ONE);
  }

  /** The least lost magnitude is lost: it is divided to itself and multiplied to more, or divided like the one before it. */
  lemma FirstLostIsLost(scale: nat)
    requires scale > CSCALE_ONE
    ensures Multiplied(Divided(FirstLost(scale), scale), scale) != FirstLost(scale)
  {
    FirstLostIsLeast(scale);
    var g := FirstLost(scale);
    hide FirstLost;
    var excess := g * (scale - CSCALE_ONE);
    Distribute(g, CSCALE_ONE, scale - CSCALE_ONE);
    Distribute(scale - CSCALE_ONE, g - 1, 1);
    if excess <= scale / 2 {
      Quotient(g, scale / 2 - excess, scale);
    } else {
      Distribute(scale, g - 1, 1);
      Quotient(g - 1, scale + scale / 2 - excess, scale);
      SmallSurvives(g - 1, scale);
    }
  }

  lemma SmallerSurvive(x: nat, scale: nat)
    requires scale > CSCALE_ONE && x < FirstLost(scale)
    ensures Multiplied(Divided(x, scale), scale) == x
  {
    FirstLostIsLeast(scale);
    var g, excess := FirstLost(scale), scale - CSCALE_ONE;
    hide FirstLost, Divided, Multiplied;
    ProductsInOrder(x, g - 1, excess);
    SmallSurvives(x, scale);
  }

  /** Without bounds on the samples, all magnitudes survive exactly when the scale is at most one. */
  lemma RoundTripOfMagnitudes(scale: nat)
    requires scale > 0
    ensures (forall x: nat :: Multiplied(Divided(x, scale), scale) == x) <==> scale <= CSCALE_ONE
  {
    if scale <= CSCALE_ONE {
      forall x: nat ensures Multiplied(Divided(x, scale), scale) == x {
        RoundTripOfMagnitude(x, scale);
        DividedExactly(x, scale);
        if scale == CSCALE_ONE {
          assert Remainder(x, scale) == scale / 2;
        }
      }
    } else {
      FirstLostIsLost(scale);
    }
  }

  function Magnitude(x: int): nat { if x >= 0 then x else -x }

  // What the operations do to any sample, clipped or not

  /** n is the quotient of x and unit, rounded to the nearest; halves go up. */
  predicate HalfUp(n: int, x: int, unit: nat)
  {
    2 * (n * unit) - unit <= 2 * x < 2 * (n * unit) + unit
  }

  lemma RoundedHalfUp(n: int, x: int, unit: nat)
    requires unit > 0
    ensures n == (x + unit / 2) / unit <==> HalfUp(n, x, unit)
  {
    var q, r := (x + unit / 2) / unit, (x + unit / 2) % unit;
    assert x + unit / 2 == q * unit + r;
    if HalfUp(n, x, unit) {
      assert 0 <= x + unit / 2 - n * unit < unit;
      Quotient(n, x + unit / 2 - n * unit, unit);
    }
  }

  lemma ScalingRounds(absval: nat, scale: nat, n: int)
    requires scale > 0
    ensures n == Divided(absval, scale) <==> HalfUp(n, absval * CSCALE_ONE, scale)
    ensures n == Multiplied(absval, scale) <==> HalfUp(n, absval * scale, CSCALE_ONE)
  {
    RoundedHalfUp(n, absval * CSCALE_ONE, scale);
    RoundedHalfUp(n, absval * scale, CSCALE_ONE);
    hide HalfUp;
  }

  /** Forward scaling treats signs alike, keeps the order of samples, and stops at maxAbs exactly from where the quotient reaches it. */
  lemma ForwardSaturates(x: int, y: int, scale: nat, maxAbs: nat)
    requires scale > 0 && x <= y
    ensures Forward(-x, scale, maxAbs) == -Forward(x, scale, maxAbs)
    ensures 0 - maxAbs <= Forward(x, scale, maxAbs) <= Forward(y, scale, maxAbs) <= maxAbs
    ensures x >= 0 ==> (Forward(x, scale, maxAbs) == maxAbs <==> 2 * (maxAbs * scale) - scale <= 2 * (x * CSCALE_ONE))
  {
    hide Divided;
    if 0 <= x {
      DividedMonotone(x, y, scale);
      DividedReaches(x, scale, maxAbs);
    } else if y <= 0 {
      DividedMonotone(-y, -x, scale);
    }
    DividedZero(scale);
  }

  lemma DividedZero(scale: nat)
    requires scale > 0
    ensures Divided(0, scale) == 0
  {}

  lemma DividedReaches(x: nat, scale: nat, n: nat)
    requires scale > 0
    ensures Divided(x, scale) >= n <==> 2 * (n * scale) - scale <= 2 * (x * CSCALE_ONE)
  {
    var d := Divided(x, scale);
    ScalingRounds(x, scale, d);
    hide Divided;
    if d >= n {
      ProductsInOrder(n, d, scale);
    } else {
      MultiplyMore(n, d, scale);
    }
  }

  /** Inverse scaling keeps the order too, does not tell samples beyond the clip apart, and stops at the ends of 16 bits. */
  lemma InverseSaturates(x: int, y: int, scale: nat, maxAbs: nat)
    requires x <= y
    ensures -32768 <= Inverse(x, scale, maxAbs) <= Inverse(y, scale, maxAbs) <= 32767
    ensures x >= maxAbs ==> Inverse(x, scale, maxAbs) == Inverse(maxAbs, scale, maxAbs)
    ensures x < 0 - maxAbs ==> Inverse(x, scale, maxAbs) == Inverse(0 - maxAbs - 1, scale, maxAbs)
    ensures 0 <= x <= maxAbs ==> (Inverse(x, scale, maxAbs) == 32767 <==> 2 * 32767 * CSCALE_ONE - CSCALE_ONE <= 2 * (x * scale))
    ensures 0 - maxAbs - 1 <= x < 0 ==>
      (Inverse(x, scale, maxAbs) == -32768 <==> 2 * 32768 * CSCALE_ONE - CSCALE_ONE <= 2 * (-x * scale))
  {
    var a, b := Clip3(0 - maxAbs - 1, maxAbs, x), Clip3(0 - maxAbs - 1, maxAbs, y);
    assert Multiplied(0, scale) == 0;
    if 0 <= x {
      MultipliedMonotone(a, b, scale);
    } else if y <= 0 {
      MultipliedMonotone(-b, -a, scale);
    }
    MultipliedReaches(Magnitude(x), scale, 32767);
    MultipliedReaches(Magnitude(x), scale, 32768);
    hide Multiplied;
  }

  lemma MultipliedReaches(x: nat, scale: nat, n: nat)
    ensures Multiplied(x, scale) >= n <==> 2 * (n * CSCALE_ONE) - CSCALE_ONE <= 2 * (x * scale)
  {}

  /** Neither clip acts on the way of this sample there and back. */
  predicate Unclipped(x: int, scale: nat, maxAbs: nat)
    requires scale > 0
  {
    var scaled := Divided(Magnitude(x), scale);
    scaled <= maxAbs && Multiplied(scaled, scale) <= 32767
  }

  lemma ThereAndBack(x: int, scale: nat, maxAbs: nat)
    requires scale > 0 && Unclipped(x, scale, maxAbs)
    ensures var back := Multiplied(Divided(Magnitude(x), scale), scale);
            Inverse(Forward(x, scale, maxAbs), scale, maxAbs) == if x >= 0 then back else 0 - back
  {
    hide Divided;
  }

  /** An unclipped sample comes back exactly when the division leaves over about half the scale, half a unit more or less. */
  lemma RoundTripOfSample(x: int, scale: nat, maxAbs: nat)
    requires scale > 0 && Unclipped(x, scale, maxAbs)
    ensures Inverse(Forward(x, scale, maxAbs), scale, maxAbs) == x
       <==> scale / 2 - CSCALE_HALF < Remainder(Magnitude(x), scale) <= scale / 2 + CSCALE_HALF
    ensures scale <= CSCALE_ONE ==> Inverse(Forward(x, scale, maxAbs), scale, maxAbs) == x
    ensures var error := Inverse(Forward(x, scale, maxAbs), scale, maxAbs) - x;
            0 - (scale + CSCALE_ONE) <= 2 * CSCALE_ONE * error <= scale + CSCALE_ONE
  {
    ThereAndBack(x, scale, maxAbs);
    RoundTripOfMagnitude(Magnitude(x), scale);
    RoundTripOfMagnitudes(scale);
    ErrorOfMagnitude(Magnitude(x), scale);
    hide Divided, Multiplied, Remainder, Forward, Inverse;
  }

  /** Of smaller magnitudes, fewer are clipped. */
  lemma UnclippedDown(x: int, y: int, scale: nat, maxAbs: nat)
    requires scale > 0 && Unclipped(y, scale, maxAbs) && Magnitude(x) <= Magnitude(y)
    ensures Unclipped(x, scale, maxAbs)
  {
    hide Divided, Multiplied;
    DividedMonotone(Magnitude(x), Magnitude(y), scale);
    MultipliedMonotone(Divided(Magnitude(x), scale), Divided(Magnitude(y), scale), scale);
  }

  /** No unclipped sample is lost: the scale is at most one, or it is so little above that the least lost sample is clipped. */
  predicate Lossless(scale: nat, maxAbs: nat)
    requires scale > 0
  {
    scale <= CSCALE_ONE || !Unclipped(FirstLost(scale), scale, maxAbs)
  }

  /** Exactly then every unclipped sample comes back. */
  lemma RoundTripOfAll(scale: nat, maxAbs: nat)
    requires scale > 0
    ensures (forall x: int :: Unclipped(x, scale, maxAbs) ==> Inverse(Forward(x, scale, maxAbs), scale, maxAbs) == x)
       <==> Lossless(scale, maxAbs)
  {
    hide Divided, Multiplied, Forward, Inverse, Unclipped, FirstLost;
    if Lossless(scale, maxAbs) {
      forall x: int | Unclipped(x, scale, maxAbs) ensures Inverse(Forward(x, scale, maxAbs), scale, maxAbs) == x {
        RoundTripOfLossless(x, scale, maxAbs);
      }
    } else {
      ThereAndBack(FirstLost(scale), scale, maxAbs);
      FirstLostIsLost(scale);
    }
  }

  lemma RoundTripOfLossless(x: int, scale: nat, maxAbs: nat)
    requires scale > 0 && Unclipped(x, scale, maxAbs) && Lossless(scale, maxAbs)
    ensures Inverse(Forward(x, scale, maxAbs), scale, maxAbs) == x
  {
    hide Divided, Multiplied, Forward, Inverse, Unclipped, FirstLost;
    ThereAndBack(x, scale, maxAbs);
    if scale <= CSCALE_ONE {
      RoundTripOfMagnitudes(scale);
    } else {
      if FirstLost(scale) <= Magnitude(x) {
        UnclippedDown(FirstLost(scale), x, scale, maxAbs);
      }
      SmallerSurvive(Magnitude(x), scale);
    }
  }

  // The block

  function ScaledSample(x: int, scale: nat, dir: bool, maxAbs: nat): int
    requires dir ==> scale > 0
  {
    if dir then Forward(x, scale, maxAbs) else Inverse(x, scale, maxAbs)
  }

  /** The first i rows of the block and the first j samples of the next row are scaled. */
  function ScaledImage(img: Image, width: int, i: int, j: int, scale: nat, dir: bool, maxAbs: nat): Image
    requires dir ==> scale > 0
  {
    (r, c) =>
      if 0 <= c < width && (0 <= r < i || (r == i && c < j)) then ScaledSample(img(r, c), scale, dir, maxAbs) else img(r, c)
  }

  /** Scales a block in place, or reports that forward scaling does not support blocks of width 1. */
  method ScaleSignal(area: AreaBuf, scale: nat, dir: bool, bitDepth: nat, ghost img: Image) returns (ok: bool)
    requires area.Holds(0, 0) && area.Shows(img, 0) && (dir ==> scale > 0)
    modifies area.mem
    ensures ok <==> !(dir && area.width == 1)
    ensures ok ==> area.Shows(ScaledImage(img, area.width, area.height, 0, scale, dir, Pow2(bitDepth) - 1), 0)
    ensures !ok ==> area.Shows(img, 0)
  {
    if dir && area.width == 1 {
      return false;
    }
    var maxAbs := Pow2(bitDepth) - 1;
    var p := area.buf;
    ghost var cur := img;
    assert p == area.Address(0, 0);
    hide AreaBuf.Address, AreaBuf.Shows, AreaBuf.Holds, ScaledSample, Pow2;
    for y := 0 to area.height
      invariant p == area.Address(y, 0)
      invariant area.Shows(cur, 0) && SameImage(cur, ScaledImage(img, area.width, y, 0, scale, dir, maxAbs))
    {
      cur := ScaleRow(area, p, y, scale, dir, maxAbs, img, cur);
      NextRow(area, y, 0, 0);
      p := p + area.stride;
    }
    ShowsSame(area, cur, ScaledImage(img, area.width, area.height, 0, scale, dir, maxAbs), 0);
    return true;
  }

  method ScaleOne(area: AreaBuf, p: int, ghost r: int, ghost c: int, scale: nat, dir: bool, maxAbs: nat, ghost img: Image)
    returns (ghost img': Image)
    requires area.Holds(0, 0) && area.Shows(img, 0) && (dir ==> scale > 0) && 0 <= r < area.height && 0 <= c < area.width
    requires p == area.Address(r, 0) + c
    modifies area.mem
    ensures img' == Set(img, r, c, ScaledSample(img(r, c), scale, dir, maxAbs)) && area.Shows(img', 0)
  {
    InsideAllocation(area, 0, 0, r, c);
    NextRow(area, r, 0, c);
    assert area.mem[p] == img(r, c);
    hide AreaBuf.Address, AreaBuf.Shows, AreaBuf.Holds, ScaledSample;
    Store(area, p, ScaledSample(area.mem[p], scale, dir, maxAbs), r, c, img, 0);
    img' := Set(img, r, c, ScaledSample(img(r, c), scale, dir, maxAbs));
  }

  method ScaleRow(area: AreaBuf, p: int, ghost y: nat, scale: nat, dir: bool, maxAbs: nat, ghost img: Image, ghost before: Image)
    returns (ghost cur: Image)
    requires area.Holds(0, 0) && area.Shows(before, 0) && (dir ==> scale > 0) && y < area.height && p == area.Address(y, 0)
    requires SameImage(before, ScaledImage(img, area.width, y, 0, scale, dir, maxAbs))
    modifies area.mem
    ensures area.Shows(cur, 0) && SameImage(cur, ScaledImage(img, area.width, y + 1, 0, scale, dir, maxAbs))
  {
    cur := before;
    hide AreaBuf.Address, AreaBuf.Shows, AreaBuf.Holds, ScaledSample;
    for x := 0 to area.width
      invariant area.Shows(cur, 0) && SameImage(cur, ScaledImage(img, area.width, y, x, scale, dir, maxAbs))
    {
      cur := ScaleOne(area, p + x, y, x, scale, dir, maxAbs, cur);
    }
  }

  ghost predicate BlockUnclipped(img: Image, width: int, height: int, scale: nat, maxAbs: nat)
    requires scale > 0
  {
    forall r, c :: 0 <= r < height && 0 <= c < width ==> Unclipped(img(r, c), scale, maxAbs)
  }

  /** Inverse scaling of the scaled block gives back the block. */
  ghost predicate BlockReturns(img: Image, width: int, height: int, scale: nat, maxAbs: nat)
    requires scale > 0
  {
    SameImage(ScaledImage(ScaledImage(img, width, height, 0, scale, true, maxAbs), width, height, 0, scale, false, maxAbs), img)
  }

  /** A block comes back exactly when each of its samples does. */
  lemma BlockReturnsSamples(img: Image, width: int, height: int, scale: nat, maxAbs: nat)
    requires scale > 0
    ensures BlockReturns(img, width, height, scale, maxAbs)
       <==> forall r, c :: 0 <= r < height && 0 <= c < width ==> Inverse(Forward(img(r, c), scale, maxAbs), scale, maxAbs) == img(r, c)
  {
    hide Forward, Inverse;
    var scaled := ScaledImage(img, width, height, 0, scale, true, maxAbs);
    var back := ScaledImage(scaled, width, height, 0, scale, false, maxAbs);
    forall r, c
      ensures back(r, c) == if 0 <= r < height && 0 <= c < width then Inverse(Forward(img(r, c), scale, maxAbs), scale, maxAbs) else img(r, c)
    {
      assert scaled(r, c) == if 0 <= r < height && 0 <= c < width then Forward(img(r, c), scale, maxAbs) else img(r, c);
    }
  }

  /** Every block without clipped samples comes back exactly when no unclipped sample is lost. */
  lemma RoundTripOfBlock(width: int, height: int, scale: nat, maxAbs: nat)
    requires width >= 1 && height >= 1 && scale > 0
    ensures (forall img: Image :: BlockUnclipped(img, width, height, scale, maxAbs) ==> BlockReturns(img, width, height, scale, maxAbs))
       <==> Lossless(scale, maxAbs)
  {
    hide Forward, Inverse, Unclipped, FirstLost, BlockReturns;
    if Lossless(scale, maxAbs) {
      forall img: Image | BlockUnclipped(img, width, height, scale, maxAbs) ensures BlockReturns(img, width, height, scale, maxAbs) {
        BlockReturnsSamples(img, width, height, scale, maxAbs);
        RoundTripOfAll(scale, maxAbs);
      }
    } else {
      var img: Image := (r, c) => FirstLost(scale);
      BlockReturnsSamples(img, width, height, scale, maxAbs);
      ThereAndBack(FirstLost(scale), scale, maxAbs);
      FirstLostIsLost(scale);
      assert BlockUnclipped(img, width, height, scale, maxAbs);
      assert Inverse(Forward(img(0, 0), scale, maxAbs), scale, maxAbs) != img(0, 0);
    }
  }
}

/** Integer helpers of CommonDef.h, the laws of products that proofs need one at a time, and ascending positions. */
module Arithmetic {

  function Abs(x: int): nat { if x < 0 then -x else x }

  function Max(a: nat, b: nat): nat { if a > b then a else b }

  function Min(a: nat, b: nat): nat { if a > b then b else a }

  function Clip3(minVal: int, maxVal: int, a: int): int
  {
    if a < minVal then minVal else if a > maxVal then maxVal else a
  }

  lemma Distribute(a: int, x: int, y: int)
    ensures a * (x + y) == a * x + a * y
    ensures (x + y) * a == x * a + y * a
  {}

  lemma ProductsInOrder(a: int, b: int, n: int)
    requires a <= b && n >= 0
    ensures a * n <= b * n
  {
    var d := b - a;
    assert d * n >= 0;
    Distribute(n, a, d);
  }

  lemma MultiplyMore(a: int, b: int, n: nat)
    requires a > b
    ensures a * n >= b * n + n
  {
    assert a * n - b * n == (a - b) * n == (a - b - 1) * n + n;
  }

  lemma Quotient(q: int, r: nat, d: nat)
    requires r < d
    ensures (q * d + r) / d == q
  {
    var n := q * d + r;
    if n / d > q {
      MultiplyMore(n / d, q, d);
    } else if n / d < q {
      MultiplyMore(q, n / d, d);
    }
  }

  /** Dividing by one number and then by another is dividing by their product. */
  lemma DivideTwice(x: int, p: nat, q: nat)
    requires p > 0 && q > 0
    ensures p * q > 0 && x / p / q == x / (p * q)
  {
    var k, m, s := x / p / q, x / p % q, x % p;
    assert x / p == k * q + m && x == x / p * p + s;
    Distribute(p, k * q, m);
    assert k * q * p == k * (p * q);
    MultiplyMore(q, m, p);
    Quotient(k, m * p + s, p * q);
  }

  /** Positions below n, in ascending order. */
  ghost predicate Increasing(s: seq<nat>, n: nat)
  {
    && (forall k, l :: 0 <= k < l < |s| ==> s[k] < s[l])
    && (forall k :: 0 <= k < |s| ==> s[k] < n)
  }
}

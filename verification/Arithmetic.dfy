/** Division facts shared by the models, and reduction to a 32-bit word. */
module Arithmetic {
  const U32_RANGE: nat := 0x1_0000_0000

  function U32(n: nat): nat {
    n % U32_RANGE
  }

  predicate IsPowerOfTwo(n: nat) {
    n == 1 || (n > 0 && n % 2 == 0 && IsPowerOfTwo(n / 2))
  }

  lemma MulAtLeast(d: int, k: int)
    requires d > 0 && k >= 1
    ensures d * k >= d
  {
    assert d * k == d * (k - 1) + d;
  }

  lemma ModIs(x: int, d: int, q: int, r: int)
    requires d > 0 && x == d * q + r && 0 <= r < d
    ensures x % d == r && x / d == q
  {
    var p := x / d;
    assert d * (p - q) == d * p - d * q;
    if p > q { MulAtLeast(d, p - q); }
    if p < q { MulAtLeast(d, q - p); }
  }

  lemma BelowModulus(x: nat, d: nat)
    requires x < d
    ensures x % d == x
  {
    ModIs(x, d, 0, x);
  }

  /** A number is a multiple of h when it, or it less h, is a multiple of 2h. */
  lemma HalveMultiples(x: nat, h: nat)
    requires h > 0
    ensures x % h == 0 <==> x % (2 * h) == 0 || (x >= h && (x - h) % (2 * h) == 0)
  {
    var q, r := x / (2 * h), x % (2 * h);
    assert x == 2 * h * q + r;
    if r < h {
      ModIs(x, h, 2 * q, r);
      if x >= h { ModIs(x - h, 2 * h, q - 1, r + h); }
    } else {
      ModIs(x, h, 2 * q + 1, r - h);
      ModIs(x - h, 2 * h, q, r - h);
    }
  }

  lemma {:induction false} PowersOrder(a: nat, b: nat)
    requires IsPowerOfTwo(a) && IsPowerOfTwo(b) && a < b
    ensures a <= b / 2
  {
    if a > 1 { PowersOrder(a / 2, b / 2); }
  }

  lemma CacheLineIsPower()
    ensures IsPowerOfTwo(64)
  {
    assert IsPowerOfTwo(8);
  }

  lemma SmallPowers(a: nat)
    requires IsPowerOfTwo(a) && a <= 64
    ensures a in {1, 2, 4, 8, 16, 32, 64}
  {}

  /** Of two powers of two the smaller divides the larger. */
  lemma {:induction false} PowersDivide(a: nat, b: nat)
    requires IsPowerOfTwo(a) && IsPowerOfTwo(b) && a <= b
    ensures b % a == 0
  {
    if a == b {
      ModIs(b, a, 1, 0);
    } else {
      PowersOrder(a, b);
      PowersDivide(a, b / 2);
      ModIs(b, b / 2, 2, 0);
      MultipleOfMultiple(b, b / 2, a);
    }
  }

  lemma MultipleOfMultiple(x: int, b: int, a: int)
    requires a > 0 && b > 0 && b % a == 0 && x % b == 0
    ensures x % a == 0
  {
    var p, q := x / b, b / a;
    assert x == b * p == a * q * p == a * (q * p);
    ModIs(x, a, q * p, 0);
  }

  lemma SumOfMultiples(x: int, y: int, a: int)
    requires a > 0 && x % a == 0
    ensures (x + y) % a == y % a
  {
    ModIs(x + y, a, x / a + y / a, y % a);
  }

  /** Rounding down to a multiple of a. */
  function RoundDown(x: nat, a: nat): (r: nat)
    requires a > 0
    ensures r <= x < r + a && r % a == 0
  {
    ModIs(x - x % a, a, x / a, 0);
    x - x % a
  }

  /** Multiples of a are at least a apart. */
  lemma MultiplesApart(x: int, y: int, a: int)
    requires a > 0 && x % a == 0 && y % a == 0 && x < y
    ensures x + a <= y
  {
    var d := y / a - x / a;
    assert y - x == a * d;
    assert d <= 0 ==> a * d <= 0;
    MulAtLeast(a, d);
  }

  lemma RoundDownHalves(x: nat, a: nat)
    requires a > 0 && a % 2 == 0
    ensures RoundDown(x, a) == 2 * RoundDown(x / 2, a / 2)
  {
    var y, h := x / 2, a / 2;
    assert x == a * (y / h) + (2 * (y % h) + x % 2) by {
      assert y == h * (y / h) + y % h;
      assert a == 2 * h;
    }
    ModIs(x, a, y / h, 2 * (y % h) + x % 2);
  }

  function RoundUp(x: nat, a: nat): (r: nat)
    requires a > 0
    ensures r % a == 0 && x <= r < x + a
  {
    RoundDown(x + a - 1, a)
  }

  lemma RoundUpFixed(x: nat, a: nat)
    requires a > 0 && x % a == 0
    ensures RoundUp(x, a) == x
  {
    if RoundUp(x, a) > x {
      MultiplesApart(x, RoundUp(x, a), a);
    }
  }
}

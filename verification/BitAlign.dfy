/** inky/include/kernel.h: the largest power-of-two block that fits in a size and is aligned at a base
    address. */
module BitAlign {
  import opened Powers

  const WORD_BITS: nat := 64

  /** 2^e divides x. */
  predicate Aligned(x: nat, e: nat) {
    x % Pow2(e) == 0
  }

  lemma AnyBaseIsAlignedAtOne(base: nat)
    ensures Aligned(base, 0)
  {
    assert Pow2(0) == 1;
  }

  /** A multiple of d that is a remainder is zero. */
  lemma OnlyZero(a: int, d: nat, r: int)
    requires a * d == r && 0 <= r < d
    ensures r == 0
  {
    if a >= 1 {
      AtLeastOnce(a, d);
    } else if a <= -1 {
      AtLeastOnce(-a, d);
    }
  }

  lemma ModOfMultiple(x: nat, q: nat, d: nat)
    requires d > 0 && x == q * d
    ensures x % d == 0
  {
    var k, r := x / d, x % d;
    assert x == d * k + r;
    Distribute(q, k, d);
    OnlyZero(q - k, d, r);
  }

  /** The greater power has the greater exponent. */
  lemma ExponentsBelow(a: nat, b: nat)
    requires Pow2(a) < Pow2(b)
    ensures a < b
  {
    if b < a {
      Pow2Grows(b, a);
    }
  }

  /** Alignment at a block is alignment at every smaller block. */
  lemma AlignedDown(x: nat, a: nat, b: nat)
    requires a <= b && Aligned(x, b)
    ensures Aligned(x, a)
  {
    Pow2Sum(b - a, a);
    var q := x / Pow2(b);
    assert x == q * Pow2(b);
    assert x == (q * Pow2(b - a)) * Pow2(a);
    ModOfMultiple(x, q * Pow2(b - a), Pow2(a));
  }

  /** Halve until nothing is left to halve, and count. */
  method Log2Floor(num: nat) returns (l: nat)
    requires num < Pow2(WORD_BITS)
    ensures num == 0 ==> l == 0
    ensures num > 0 ==> Pow2(l) <= num < Pow2(l + 1)
    ensures l < WORD_BITS
  {
    l := 0;
    var n := num;
    while n > 1
      invariant n * Pow2(l) <= num < (n + 1) * Pow2(l)
      invariant num > 0 ==> n > 0
      invariant num == 0 ==> n == 0 && l == 0
    {
      Halve(n, Pow2(l), num);
      n := n / 2;
      l := l + 1;
    }
    if num > 0 {
      ExponentsBelow(l, WORD_BITS);
    }
  }

  lemma Halve(n: nat, p: nat, num: nat)
    requires n * p <= num < (n + 1) * p
    ensures (n / 2) * (2 * p) <= num < (n / 2 + 1) * (2 * p)
  {
    var h := n / 2;
    assert 2 * h <= n <= 2 * h + 1;
    assert (2 * h) * p <= n * p;
    assert (n + 1) * p <= (2 * h + 2) * p;
  }

  /** x is the exponent of a block that fits and is aligned. */
  predicate Fits(x: nat, n: nat, base: nat) {
    Pow2(x) <= n && Aligned(base, x)
  }

  /** For every non-zero size and every base, the greatest such exponent; zero for an empty block. */
  method BitAddrAlign(n: nat, base: nat) returns (x: nat)
    requires n < Pow2(WORD_BITS) && base < Pow2(WORD_BITS)
    ensures n == 0 ==> x == 0
    ensures n > 0 ==> Fits(x, n, base) && forall y: nat :: Fits(y, n, base) ==> y <= x
  {
    var exponent := WORD_BITS - 1;
    if n == 0 {
      return 0;
    }
    AnyBaseIsAlignedAtOne(base);
    while exponent > 0 && !Aligned(base, exponent)
      invariant forall y: nat :: exponent < y < WORD_BITS ==> !Aligned(base, y)
    {
      exponent := exponent - 1;
    }
    if Pow2(exponent) > n {
      x := Log2Floor(n);
      ExponentsBelow(x, exponent);
      AlignedDown(base, x, exponent);
      SizeBounds(n, base, x);
    } else {
      x := exponent;
      AlignmentBounds(n, base, x);
    }
  }

  /** The size is what limits the block. */
  lemma SizeBounds(n: nat, base: nat, x: nat)
    requires n < Pow2(x + 1)
    ensures forall y: nat :: Fits(y, n, base) ==> y <= x
  {
    forall y: nat | Fits(y, n, base) ensures y <= x {
      ExponentsBelow(y, x + 1);
    }
  }

  /** The alignment of the base is what limits the block. */
  lemma AlignmentBounds(n: nat, base: nat, x: nat)
    requires n < Pow2(WORD_BITS)
    requires forall y: nat :: x < y < WORD_BITS ==> !Aligned(base, y)
    ensures forall y: nat :: Fits(y, n, base) ==> y <= x
  {
    forall y: nat | Fits(y, n, base) ensures y <= x {
      ExponentsBelow(y, WORD_BITS);
    }
  }
}

/** `BigDecimal.sqrt` as used by `Voter.calculateCandidateUtility` and
    `Voter.policyScale` (sim/Electorate.kt). The root is computed exactly as the
    floor of the real square root at `Digits` fractional decimal digits, so that the
    model has a concrete, fully specified root instead of an uninterpreted one. */
module Roots {
  /** Number of fractional decimal digits the root is kept to. */
  const Digits: nat := 10
  const Scale: nat := 10_000_000_000

  lemma SquareMonotone(a: nat, b: nat)
    requires a <= b
    ensures a * a <= b * b
  {
    assert a * a <= a * b <= b * b;
  }

  /** Floor square root of a natural number. */
  function IntSqrt(n: nat): (r: nat)
    ensures r * r <= n < (r + 1) * (r + 1)
  {
    if n < 4 then (if n == 0 then 0 else 1)
    else
      var h := IntSqrt(n / 4);
      QuarterBracket(n, h * h, (h + 1) * (h + 1));
      Doubling(h);
      if (2 * h + 1) * (2 * h + 1) <= n then 2 * h + 1 else 2 * h
  }

  /** A bracket of n / 4 scales to a bracket of n. */
  lemma QuarterBracket(n: nat, lo: nat, hi: nat)
    requires lo <= n / 4 < hi
    ensures 4 * lo <= n < 4 * hi
  {
  }

  lemma Doubling(h: nat)
    ensures (2 * h) * (2 * h) == 4 * (h * h)
    ensures (2 * h + 2) * (2 * h + 2) == 4 * ((h + 1) * (h + 1))
  {
  }

  /** The bracketing property determines the floor square root. */
  lemma IntSqrtUnique(n: nat, k: nat)
    requires k * k <= n < (k + 1) * (k + 1)
    ensures IntSqrt(n) == k
  {
    var r := IntSqrt(n);
    if r < k {
      SquareMonotone(r + 1, k);
    } else if r > k {
      SquareMonotone(k + 1, r);
    }
  }

  lemma IntSqrtMonotone(m: nat, n: nat)
    requires m <= n
    ensures IntSqrt(m) <= IntSqrt(n)
  {
    if IntSqrt(m) > IntSqrt(n) {
      SquareMonotone(IntSqrt(n) + 1, IntSqrt(m));
    }
  }

  function Scaled(x: real): (m: nat)
    requires x >= 0.0
    ensures m as real <= x * (Scale as real * Scale as real) < m as real + 1.0
  {
    (x * (Scale as real * Scale as real)).Floor
  }

  /** The square root of `x`, rounded down to `Digits` fractional digits: the largest
      multiple of 1/Scale whose square does not exceed `x`. */
  function FloorRoot(x: real): (r: real)
    requires x >= 0.0
    ensures r >= 0.0
    ensures Brackets(x, r, 1.0 / Scale as real)
  {
    var k := IntSqrt(Scaled(x));
    FloorRootBracket(x, k);
    k as real / Scale as real
  }

  /** `r` is a non-negative root of `x` that is at most one `step` too small:
      r * r <= x < (r + step)^2. */
  predicate Brackets(x: real, r: real, step: real)
  {
    && r >= 0.0
    && r * r <= x
    && x < (r + step) * (r + step)
  }

  lemma FloorRootBracket(x: real, k: nat)
    requires x >= 0.0
    requires k * k <= Scaled(x) < (k + 1) * (k + 1)
    ensures k as real / Scale as real >= 0.0
    ensures Brackets(x, k as real / Scale as real, 1.0 / Scale as real)
  {
    var m := Scaled(x);
    CastBracket(k, m);
    ScaledBracket(x, k as real, m as real, Scale as real);
  }

  /** An integer bracket of `m` by squares, read in the reals. */
  lemma CastBracket(k: nat, m: nat)
    requires k * k <= m < (k + 1) * (k + 1)
    ensures (k as real) * (k as real) <= m as real
    ensures m as real + 1.0 <= (k as real + 1.0) * (k as real + 1.0)
  {
    CastSquare(k);
    CastSquare(k + 1);
  }

  lemma CastSquare(n: nat)
    ensures (n * n) as real == (n as real) * (n as real)
  {
  }

  lemma ScaledBracket(x: real, k: real, m: real, s: real)
    requires s > 0.0 && k >= 0.0
    requires k * k <= m <= x * (s * s) < m + 1.0 <= (k + 1.0) * (k + 1.0)
    ensures k / s >= 0.0
    ensures Brackets(x, k / s, 1.0 / s)
  {
    var q := s * s;
    PositiveProduct(s, s);
    QuotientSquare(k, s);
    QuotientSquare(k + 1.0, s);
    assert k / s + 1.0 / s == (k + 1.0) / s;
    ScaleDown((k / s) * (k / s), x, q);
    ScaleUp(((k + 1.0) / s) * ((k + 1.0) / s), x, q);
  }

  /** `(a / s)^2`, scaled back up by `s^2`, is `a^2`. */
  lemma QuotientSquare(a: real, s: real)
    requires s > 0.0
    ensures ((a / s) * (a / s)) * (s * s) == a * a
  {
    var t := a / s;
    assert t * s == a;
    assert (t * t) * (s * s) == (t * s) * (t * s);
  }

  lemma PositiveProduct(a: real, b: real)
    requires a > 0.0 && b > 0.0
    ensures a * b > 0.0
  {
  }

  lemma ScaleDown(y: real, x: real, q: real)
    requires q > 0.0 && y * q <= x * q
    ensures y <= x
  {
  }

  lemma ScaleUp(y: real, x: real, q: real)
    requires q > 0.0 && x * q < y * q
    ensures x < y
  {
  }

  /** A larger argument never has a smaller root. */
  lemma FloorRootMonotone(x: real, y: real)
    requires 0.0 <= x <= y
    ensures FloorRoot(x) <= FloorRoot(y)
  {
    assert x * (Scale as real * Scale as real) <= y * (Scale as real * Scale as real);
    IntSqrtMonotone(Scaled(x), Scaled(y));
  }

  /** The root of 1 is exactly 1. */
  lemma FloorRootOfOne()
    ensures FloorRoot(1.0) == 1.0
  {
    assert Scaled(1.0) == Scale * Scale;
    IntSqrtUnique(Scale * Scale, Scale);
  }

  lemma FloorRootAtLeastOne(x: real)
    requires x >= 1.0
    ensures FloorRoot(x) >= 1.0
  {
    FloorRootOfOne();
    FloorRootMonotone(1.0, x);
  }
}

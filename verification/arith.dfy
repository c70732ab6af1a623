/** Integer helpers shared by the pipeline stages: absolute value, min/max,
    monotonicity of multiplication and an exact integer square root. */
module Arith {

  function Abs(n: int): nat
  {
    if n < 0 then -n else n
  }

  function Min(a: int, b: int): int
  {
    if a <= b then a else b
  }

  function Max(a: int, b: int): int
  {
    if a <= b then b else a
  }

  /** Multiplying by a non-negative factor keeps the order. */
  lemma MulMono(a: int, b: int, c: int)
    requires a <= b && 0 <= c
    ensures a * c <= b * c
  {
    var d := b - a;
    assert b * c == a * c + d * c;
  }

  /** Multiplying by a positive real keeps the sign. */
  lemma RealSign(a: real, d: real)
    requires d > 0.0
    ensures a > 0.0 <==> a * d > 0.0
  {
  }

  /** A quotient exceeds 1 exactly when the numerator exceeds the positive denominator. */
  lemma SlopeAboveOne(n: int, d: int)
    requires d > 0
    ensures (n as real) / (d as real) > 1.0 <==> n > d
  {
    var q := (n as real) / (d as real);
    assert q * (d as real) == n as real;
    RealSign(q - 1.0, d as real);
    assert (q - 1.0) * (d as real) == (n - d) as real;
  }

  /** On naturals, comparing two numbers is the same as comparing their squares. */
  lemma SquareLess(a: nat, b: nat)
    ensures a < b <==> a * a < b * b
  {
    if a < b {
      MulMono(a, b, a);
      MulMono(a + 1, b, b);
      assert a * a <= a * b;
      assert (a + 1) * b == a * b + b;
    } else {
      MulMono(b, a, b);
      MulMono(b, a, a);
    }
  }

  /** The integer square root: the largest r whose square does not exceed n.
      It stands in for the floating-point `sqrt` of ViewController.swift:222,
      whose truncation to a byte is exact on the byte-sized inputs it sees. */
  function ISqrt(n: nat): (r: nat)
    ensures r * r <= n < (r + 1) * (r + 1)
  {
    if n == 0 then 0
    else
      var h := 2 * ISqrt(n / 4);
      ISqrtStep(n, h);
      if (h + 1) * (h + 1) <= n then h + 1 else h
  }

  /** The step of ISqrt: twice the root of n / 4 is within one of the root of n. */
  lemma ISqrtStep(n: nat, h: nat)
    requires h % 2 == 0
    requires (h / 2) * (h / 2) <= n / 4 < (h / 2 + 1) * (h / 2 + 1)
    ensures h * h <= n < (h + 1 + 1) * (h + 1 + 1)
  {
    var s, q := h / 2, n / 4;
    assert 4 * q <= n < 4 * q + 4;
    MulMono(s * s, q, 4);
    assert h * h == s * s * 4;
    MulMono(q + 1, (s + 1) * (s + 1), 4);
    assert (h + 1 + 1) * (h + 1 + 1) == (s + 1) * (s + 1) * 4;
  }

  /** ISqrt is the unique number with the root property. */
  lemma ISqrtUnique(n: nat, r: nat)
    requires r * r <= n < (r + 1) * (r + 1)
    ensures ISqrt(n) == r
  {
    var s := ISqrt(n);
    SquareLess(s, r + 1);
    SquareLess(r, s + 1);
  }

  /** Any number whose square fits under n is at most ISqrt(n). */
  lemma ISqrtAtLeast(n: nat, a: nat)
    requires a * a <= n
    ensures a <= ISqrt(n)
  {
    RootBound(n, ISqrt(n), a);
  }

  /** A sum of two squares dominates each square and vanishes only with both. */
  lemma SumOfSquares(n: nat, dx: nat, dy: nat)
    requires n == dx * dx + dy * dy
    ensures dx * dx <= n && dy * dy <= n
    ensures n == 0 <==> dx == 0 && dy == 0
  {
    MulMono(0, dx, dx);
    MulMono(0, dy, dy);
    if dx != 0 { MulMono(1, dx, dx); }
    if dy != 0 { MulMono(1, dy, dy); }
  }

  /** The root reaches k exactly when n reaches k^2. */
  lemma RootReaches(n: nat, k: nat)
    ensures k <= ISqrt(n) <==> k * k <= n
  {
    RootBound(n, ISqrt(n), k);
  }

  /** For any r with the root property, k <= r exactly when k^2 <= n. */
  lemma RootBound(n: nat, r: nat, k: nat)
    requires r * r <= n < (r + 1) * (r + 1)
    ensures k <= r <==> k * k <= n
  {
    if k <= r {
      MulMono(k, r, k);
      MulMono(k, r, r);
      assert k * k <= r * r;
    } else {
      MulMono(r + 1, k, r + 1);
      MulMono(r + 1, k, k);
      assert (r + 1) * (r + 1) <= k * k;
    }
  }
}

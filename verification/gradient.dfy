/** Finite-difference derivatives and their magnitude
    (gradient and gradientMagnitude in ViewController.swift). */
module Gradients {
  import opened Arith
  import opened PixelBuffers

  /** Pixels the derivative stages compute: columns 1 ... width - 2 and
      rows 1 ... height - 2. Every other pixel keeps the value it was seeded with. */
  predicate Interior(b: PixelBuffer, x: int, y: int)
  {
    1 <= x <= b.width - 2 && 1 <= y <= b.height - 2
  }

  /** The pair of derivative buffers produced by `gradient`. */
  datatype Derivatives = Derivatives(dx: PixelBuffer, dy: PixelBuffer)

  /** Swift's UInt8(_:) conversion, which traps outside 0 ... 255: the
      precondition is the no-trap condition, so each use is a proof that the
      conversion cannot trap. */
  function ToUInt8(n: int): (b: Byte)
    requires 0 <= n <= 255
    ensures b as int == n
  {
    n
  }

  /** The horizontal derivative at (x, y): a central difference of the
      horizontally smoothed buffer inside, the seeded value on the border. */
  function DerivativeX(sx: PixelBuffer, x: int, y: int): Byte
    requires Valid(sx) && InBounds(sx, x, y)
  {
    if Interior(sx, x, y) then ToUInt8(Abs(Get(sx, x + 1, y) - Get(sx, x - 1, y)))
    else Get(sx, x, y)
  }

  /** The vertical derivative at (x, y), from the vertically smoothed buffer. */
  function DerivativeY(sy: PixelBuffer, x: int, y: int): Byte
    requires Valid(sy) && InBounds(sy, x, y)
  {
    if Interior(sy, x, y) then ToUInt8(Abs(Get(sy, x, y + 1) - Get(sy, x, y - 1)))
    else Get(sy, x, y)
  }

  /** `gradient`: dx from the horizontally smoothed buffer and dy from the
      vertically smoothed one. The Swift code writes the results into the
      storage of its inputs, so that a later pixel of the same pass reads an
      already overwritten neighbour; here each output starts as a copy of its
      input and every read goes to the unmodified input. */
  function Gradient(sx: PixelBuffer, sy: PixelBuffer): (g: Derivatives)
    requires Valid(sx) && Valid(sy) && SameShape(sx, sy)
    requires sx.width >= 3 && sx.height >= 3
    ensures Valid(g.dx) && Valid(g.dy) && SameShape(g.dx, sx) && SameShape(g.dy, sx)
    ensures forall x, y :: Interior(sx, x, y) ==>
      Get(g.dx, x, y) == Abs(Get(sx, x + 1, y) - Get(sx, x - 1, y)) &&
      Get(g.dy, x, y) == Abs(Get(sy, x, y + 1) - Get(sy, x, y - 1))
    ensures forall x, y {:trigger Get(g.dx, x, y)} {:trigger Get(g.dy, x, y)} ::
      InBounds(sx, x, y) && !Interior(sx, x, y) ==>
      Get(g.dx, x, y) == Get(sx, x, y) && Get(g.dy, x, y) == Get(sy, x, y)
  {
    Derivatives(
      Tabulate(sx.width, sx.height, (x, y) requires Valid(sx) && InBounds(sx, x, y) => DerivativeX(sx, x, y)),
      Tabulate(sy.width, sy.height, (x, y) requires Valid(sy) && InBounds(sy, x, y) => DerivativeY(sy, x, y)))
  }

  /** A flat picture has no interior derivative. */
  lemma GradientOfUniform(sx: PixelBuffer, sy: PixelBuffer, v: Byte)
    requires Valid(sx) && Valid(sy) && SameShape(sx, sy)
    requires sx.width >= 3 && sx.height >= 3
    requires forall x, y :: InBounds(sx, x, y) ==> Get(sx, x, y) == v && Get(sy, x, y) == v
    ensures forall x, y :: Interior(sx, x, y) ==>
      Get(Gradient(sx, sy).dx, x, y) == 0 && Get(Gradient(sx, sy).dy, x, y) == 0
  {
    var g := Gradient(sx, sy);
    forall x, y | Interior(sx, x, y)
      ensures Get(g.dx, x, y) == 0 && Get(g.dy, x, y) == 0
    {
      assert Get(sx, x + 1, y) == v && Get(sx, x - 1, y) == v;
      assert Get(sy, x, y + 1) == v && Get(sy, x, y - 1) == v;
    }
  }

  /** The magnitude of one interior pixel: sqrt(dx^2 + dy^2) clipped to 255
      and truncated to a byte, computed exactly with an integer square root. */
  function Magnitude(dx: Byte, dy: Byte): (m: Byte)
    ensures Max(dx, dy) <= m
    ensures m == 0 <==> dx == 0 && dy == 0
    ensures m == 255 <==> 255 * 255 <= dx * dx + dy * dy
    ensures m < 255 ==> m * m <= dx * dx + dy * dy < (m + 1) * (m + 1)
  {
    var n := dx * dx + dy * dy;
    ClippedRoot(n, dx, dy);
    ToUInt8(Min(255, ISqrt(n)))
  }

  /** The facts behind Magnitude, on n = dx^2 + dy^2. */
  lemma ClippedRoot(n: nat, dx: nat, dy: nat)
    requires n == dx * dx + dy * dy
    ensures Max(dx, dy) <= Min(255, ISqrt(n)) || Min(255, ISqrt(n)) == 255
    ensures ISqrt(n) == 0 <==> dx == 0 && dy == 0
    ensures 255 <= ISqrt(n) <==> 255 * 255 <= n
  {
    SumOfSquares(n, dx, dy);
    ISqrtAtLeast(n, dx);
    ISqrtAtLeast(n, dy);
    RootReaches(n, 1);
    RootReaches(n, 255);
  }

  /** One pixel of `gradientMagnitude`. */
  function MagnitudeAt(dx: PixelBuffer, dy: PixelBuffer, x: int, y: int): Byte
    requires Valid(dx) && Valid(dy) && SameShape(dx, dy) && InBounds(dx, x, y)
  {
    if Interior(dx, x, y) then Magnitude(Get(dx, x, y), Get(dy, x, y)) else Get(dx, x, y)
  }

  /** `gradientMagnitude`: the combined magnitude inside, the dx buffer's
      value on the border (the output is seeded from dx). */
  function GradientMagnitude(dx: PixelBuffer, dy: PixelBuffer): (m: PixelBuffer)
    requires Valid(dx) && Valid(dy) && SameShape(dx, dy)
    requires dx.width >= 3 && dx.height >= 3
    ensures Valid(m) && SameShape(m, dx)
    ensures forall x, y :: Interior(dx, x, y) ==> Get(m, x, y) == Magnitude(Get(dx, x, y), Get(dy, x, y))
    ensures forall x, y :: InBounds(dx, x, y) && !Interior(dx, x, y) ==> Get(m, x, y) == Get(dx, x, y)
  {
    Tabulate(dx.width, dx.height,
      (x, y) requires Valid(dx) && Valid(dy) && SameShape(dx, dy) && InBounds(dx, x, y) => MagnitudeAt(dx, dy, x, y))
  }
}

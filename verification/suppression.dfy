/** Two-way non-maximum suppression (suppress and isMax in ViewController.swift). */
module Suppression {
  import opened Arith
  import opened PixelBuffers

  /** The orientation test `pi/4 < |atan2(dy, dx)| < 3pi/4`. Both derivatives
      are unsigned bytes, so the angle lies in [0, pi/2] and the test holds
      exactly when dy > dx: dy == dx gives pi/4 itself, and atan2(0, 0) is 0.
      The floating-point call is replaced by this integer comparison. */
  predicate IsVertical(dx: Byte, dy: Byte)
  {
    dy > dx
  }

  /** The orientation test measures the slope dy / dx of the gradient, whose
      angle is atan2(dy, dx): for dx > 0 the angle exceeds pi/4 exactly when
      the slope exceeds tan(pi/4) = 1; for dx == 0 the angle is pi/2 when
      dy > 0 and 0 when dy == 0. The angle never reaches 3pi/4 since dx >= 0. */
  lemma VerticalIsSteep(dx: Byte, dy: Byte)
    ensures dx > 0 ==> (IsVertical(dx, dy) <==> (dy as real) / (dx as real) > 1.0)
    ensures dx == 0 ==> (IsVertical(dx, dy) <==> dy > 0)
  {
    if dx > 0 {
      SlopeAboveOne(dy, dx);
    }
  }

  /** Reference reading of a local maximum: (x, y) is strictly above every
      neighbour that exists on the chosen axis (y for a vertical pixel,
      x otherwise). */
  predicate StrictAxisMax(mag: PixelBuffer, x: int, y: int, vertical: bool)
    requires Valid(mag) && InBounds(mag, x, y)
  {
    if vertical then
      forall v :: (v == y - 1 || v == y + 1) && 0 <= v < mag.height ==> Get(mag, x, y) > Get(mag, x, v)
    else
      forall u :: (u == x - 1 || u == x + 1) && 0 <= u < mag.width ==> Get(mag, x, y) > Get(mag, u, y)
  }

  /** `isMax`: 255 when the magnitude at (x, y) beats its neighbour(s) on the
      chosen axis, 0 otherwise. On the first and last index of that axis only
      the one existing neighbour is compared. */
  function IsMax(mag: PixelBuffer, x: int, y: int, vertical: bool): (r: Byte)
    requires Valid(mag) && InBounds(mag, x, y)
    requires mag.width >= 2 && mag.height >= 2
    ensures r == 0 || r == 255
    ensures r == 255 <==> StrictAxisMax(mag, x, y, vertical)
  {
    var here := Get(mag, x, y);
    if vertical then
      if y == 0 then
        (if here > Get(mag, x, y + 1) then 255 else 0)
      else if y == mag.height - 1 then
        (if here > Get(mag, x, y - 1) then 255 else 0)
      else
        (if here > Get(mag, x, y + 1) && here > Get(mag, x, y - 1) then 255 else 0)
    else
      if x == 0 then
        (if here > Get(mag, x + 1, y) then 255 else 0)
      else if x == mag.width - 1 then
        (if here > Get(mag, x - 1, y) then 255 else 0)
      else
        (if here > Get(mag, x + 1, y) && here > Get(mag, x - 1, y) then 255 else 0)
  }

  /** One pixel of `suppress`: the orientation comes from the derivatives at
      (x, y), the comparison from the magnitude buffer. */
  function SuppressAt(mag: PixelBuffer, dx: PixelBuffer, dy: PixelBuffer, x: int, y: int): Byte
    requires Valid(mag) && Valid(dx) && Valid(dy) && SameShape(mag, dx) && SameShape(mag, dy)
    requires mag.width >= 2 && mag.height >= 2 && InBounds(mag, x, y)
  {
    IsMax(mag, x, y, IsVertical(Get(dx, x, y), Get(dy, x, y)))
  }

  /** `suppress`: every pixel, border included, becomes 255 or 0 according
      to IsMax. The Swift code writes into the storage of the magnitude
      buffer it is still reading; here the output is fresh and every
      comparison reads the unmodified magnitudes. */
  function Suppress(mag: PixelBuffer, dx: PixelBuffer, dy: PixelBuffer): (s: PixelBuffer)
    requires Valid(mag) && Valid(dx) && Valid(dy) && SameShape(mag, dx) && SameShape(mag, dy)
    requires mag.width >= 2 && mag.height >= 2
    ensures Valid(s) && SameShape(s, mag)
    ensures IsBinary(s)
    ensures forall x, y {:trigger Get(s, x, y)} :: InBounds(mag, x, y) ==>
      (Get(s, x, y) == 255 <==> StrictAxisMax(mag, x, y, IsVertical(Get(dx, x, y), Get(dy, x, y))))
  {
    Tabulate(mag.width, mag.height,
      (x, y) requires Valid(mag) && Valid(dx) && Valid(dy) && SameShape(mag, dx) && SameShape(mag, dy)
                      && mag.width >= 2 && mag.height >= 2 && InBounds(mag, x, y) =>
        SuppressAt(mag, dx, dy, x, y))
  }

  /** A buffer of constant magnitude has no local maximum, so it suppresses to all 0. */
  lemma SuppressUniform(mag: PixelBuffer, dx: PixelBuffer, dy: PixelBuffer, v: Byte)
    requires Valid(mag) && Valid(dx) && Valid(dy) && SameShape(mag, dx) && SameShape(mag, dy)
    requires mag.width >= 2 && mag.height >= 2
    requires forall x, y :: InBounds(mag, x, y) ==> Get(mag, x, y) == v
    ensures forall x, y :: InBounds(mag, x, y) ==> Get(Suppress(mag, dx, dy), x, y) == 0
  {
    var s := Suppress(mag, dx, dy);
    forall x, y | InBounds(mag, x, y)
      ensures Get(s, x, y) == 0
    {
      var u := if x == 0 then 1 else x - 1;
      var w := if y == 0 then 1 else y - 1;
      assert Get(mag, u, y) == v && Get(mag, x, w) == v;
    }
  }

  /** Suppression thins ridges: two neighbours on the same axis cannot both
      survive when both are compared along that axis. */
  lemma SuppressThins(mag: PixelBuffer, dx: PixelBuffer, dy: PixelBuffer, x: int, y: int)
    requires Valid(mag) && Valid(dx) && Valid(dy) && SameShape(mag, dx) && SameShape(mag, dy)
    requires mag.width >= 2 && mag.height >= 2
    requires InBounds(mag, x, y)
    ensures x + 1 < mag.width && !IsVertical(Get(dx, x, y), Get(dy, x, y)) && !IsVertical(Get(dx, x + 1, y), Get(dy, x + 1, y))
      ==> Get(Suppress(mag, dx, dy), x, y) == 0 || Get(Suppress(mag, dx, dy), x + 1, y) == 0
    ensures y + 1 < mag.height && IsVertical(Get(dx, x, y), Get(dy, x, y)) && IsVertical(Get(dx, x, y + 1), Get(dy, x, y + 1))
      ==> Get(Suppress(mag, dx, dy), x, y) == 0 || Get(Suppress(mag, dx, dy), x, y + 1) == 0
  {
    var s := Suppress(mag, dx, dy);
    if x + 1 < mag.width && Get(s, x, y) == 255 && !IsVertical(Get(dx, x, y), Get(dy, x, y)) {
      assert Get(mag, x, y) > Get(mag, x + 1, y);
    }
    if y + 1 < mag.height && Get(s, x, y) == 255 && IsVertical(Get(dx, x, y), Get(dy, x, y)) {
      assert Get(mag, x, y) > Get(mag, x, y + 1);
    }
  }

  /** Two horizontal neighbours (x - 1, y) and (x, y) that are both compared
      along x and carry the same magnitude both suppress to 0: a plateau two
      pixels wide yields no edge. */
  lemma TiedNeighboursSuppressed(mag: PixelBuffer, dx: PixelBuffer, dy: PixelBuffer, x: int, y: int)
    requires Valid(mag) && Valid(dx) && Valid(dy) && SameShape(mag, dx) && SameShape(mag, dy)
    requires mag.width >= 2 && mag.height >= 2
    requires InBounds(mag, x, y) && 1 <= x
    requires !IsVertical(Get(dx, x - 1, y), Get(dy, x - 1, y)) && !IsVertical(Get(dx, x, y), Get(dy, x, y))
    requires Get(mag, x - 1, y) == Get(mag, x, y)
    ensures Get(Suppress(mag, dx, dy), x - 1, y) == 0 && Get(Suppress(mag, dx, dy), x, y) == 0
  {
    assert !StrictAxisMax(mag, x - 1, y, false);
    assert !StrictAxisMax(mag, x, y, false);
  }
}

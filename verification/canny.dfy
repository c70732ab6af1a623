/** The integer half of performCannyEdgeDetection: from the two smoothed
    buffers to the edge mask (ViewController.swift:88-103). */
module Canny {
  import opened PixelBuffers
  import opened Gradients
  import opened Suppression
  import opened Hysteresis

  /** The thresholds the Swift code passes to hysteresisThresholding. */
  const HighThreshold: int := 10
  const LowThreshold: int := 4

  /** Derivatives, magnitude, suppression and hysteresis in sequence. Each
      stage produces a fresh buffer. The result is an edge mask, and every
      edge pixel has a positive gradient magnitude. */
  method EdgeMask(smoothedX: PixelBuffer, smoothedY: PixelBuffer) returns (edges: PixelBuffer)
    requires Valid(smoothedX) && Valid(smoothedY) && SameShape(smoothedX, smoothedY)
    requires smoothedX.width >= 3 && smoothedX.height >= 3
    ensures Valid(edges) && SameShape(edges, smoothedX)
    ensures IsBinary(edges)
    ensures forall x, y :: InBounds(smoothedX, x, y) && Get(edges, x, y) == 255 ==>
      Get(GradientMagnitude(Gradient(smoothedX, smoothedY).dx, Gradient(smoothedX, smoothedY).dy), x, y) > 0
  {
    var g := Gradient(smoothedX, smoothedY);
    var mag := GradientMagnitude(g.dx, g.dy);
    var suppressed := Suppress(mag, g.dx, g.dy);
    edges := HysteresisThresholding(suppressed, mag, HighThreshold, LowThreshold);
    forall x, y | InBounds(smoothedX, x, y) && Get(edges, x, y) == 255
      ensures Get(mag, x, y) > 0
    {
      if Get(suppressed, x, y) == 255 {
        SurvivorIsPositive(mag, x, y, IsVertical(Get(g.dx, x, y), Get(g.dy, x, y)));
      }
    }
  }

  /** A pixel that survives suppression is a strict maximum on its axis, so
      it beats an existing byte neighbour and its magnitude is positive. */
  lemma SurvivorIsPositive(mag: PixelBuffer, x: int, y: int, vertical: bool)
    requires Valid(mag) && mag.width >= 2 && mag.height >= 2 && InBounds(mag, x, y)
    requires StrictAxisMax(mag, x, y, vertical)
    ensures Get(mag, x, y) > 0
  {
    var u := if x == 0 then 1 else x - 1;
    var w := if y == 0 then 1 else y - 1;
    assert Get(mag, u, y) >= 0 && Get(mag, x, w) >= 0;
  }

  /** A sharp vertical step: 0 left of column b, 255 from column b on. */
  predicate IsStep(img: PixelBuffer, b: int)
    requires Valid(img)
  {
    forall u, v :: 0 <= u < img.width && 0 <= v < img.height ==> Get(img, u, v) == if u < b then 0 else 255
  }

  /** Beside a step, the horizontal derivative is 255 on both adjacent columns. */
  lemma StepDx(img: PixelBuffer, b: int, y: int)
    requires Valid(img) && img.width >= 4 && img.height >= 3 && IsStep(img, b)
    requires 2 <= b <= img.width - 2 && 1 <= y <= img.height - 2
    ensures Get(Gradient(img, img).dx, b - 1, y) == 255 && Get(Gradient(img, img).dx, b, y) == 255
  {
    var g := Gradient(img, img);
    assert Get(img, b - 2, y) == 0 && Get(img, b - 1, y) == 0;
    assert Get(img, b, y) == 255 && Get(img, b + 1, y) == 255;
    assert Interior(img, b - 1, y) && Interior(img, b, y);
  }

  /** Along a step the picture does not change vertically, so dy is 0 beside it. */
  lemma StepDy(img: PixelBuffer, b: int, y: int)
    requires Valid(img) && img.width >= 4 && img.height >= 3 && IsStep(img, b)
    requires 2 <= b <= img.width - 2 && 1 <= y <= img.height - 2
    ensures Get(Gradient(img, img).dy, b - 1, y) == 0 && Get(Gradient(img, img).dy, b, y) == 0
  {
    var g := Gradient(img, img);
    assert Get(img, b - 1, y + 1) == 0 && Get(img, b - 1, y - 1) == 0;
    assert Get(img, b, y + 1) == 255 && Get(img, b, y - 1) == 255;
    assert Interior(img, b - 1, y) && Interior(img, b, y);
  }

  /** Beside a step, both columns carry the full magnitude 255 and are
      compared horizontally. */
  lemma StepMagnitude(img: PixelBuffer, b: int, y: int)
    requires Valid(img) && img.width >= 4 && img.height >= 3 && IsStep(img, b)
    requires 2 <= b <= img.width - 2 && 1 <= y <= img.height - 2
    ensures var g := Gradient(img, img);
      && Get(GradientMagnitude(g.dx, g.dy), b - 1, y) == 255
      && Get(GradientMagnitude(g.dx, g.dy), b, y) == 255
      && !IsVertical(Get(g.dx, b - 1, y), Get(g.dy, b - 1, y))
      && !IsVertical(Get(g.dx, b, y), Get(g.dy, b, y))
  {
    StepDx(img, b, y);
    StepDy(img, b, y);
  }

  /** A step picture fed unsmoothed into the gradient stage (both smoothed
      buffers equal to it): the two columns beside the step get the same
      magnitude 255 and neither is strictly greater than the other, so
      suppression leaves no edge there. A step smoothed first is not covered. */
  lemma StepEdgeVanishes(img: PixelBuffer, b: int, y: int)
    requires Valid(img) && img.width >= 4 && img.height >= 3 && IsStep(img, b)
    requires 2 <= b <= img.width - 2 && 1 <= y <= img.height - 2
    ensures var g := Gradient(img, img);
      && Get(Suppress(GradientMagnitude(g.dx, g.dy), g.dx, g.dy), b - 1, y) == 0
      && Get(Suppress(GradientMagnitude(g.dx, g.dy), g.dx, g.dy), b, y) == 0
  {
    var g := Gradient(img, img);
    var mag := GradientMagnitude(g.dx, g.dy);
    StepMagnitude(img, b, y);
    TiedNeighboursSuppressed(mag, g.dx, g.dy, b, y);
  }
}

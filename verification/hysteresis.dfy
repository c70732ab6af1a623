/** Hysteresis thresholding by axis-aligned ray walks
    (hysteresisThresholding in ViewController.swift). */
module Hysteresis {
  import opened Arith
  import opened PixelBuffers

  /** A seed survived suppression and its magnitude exceeds the high threshold. */
  predicate IsSeed(suppressed: PixelBuffer, mag: PixelBuffer, high: int, i: int, j: int)
    requires Valid(suppressed) && Valid(mag) && SameShape(suppressed, mag) && InBounds(suppressed, i, j)
  {
    Get(suppressed, i, j) == 255 && Get(mag, i, j) > high
  }

  /** Rows a ... b of column x all have magnitude above low. */
  predicate ColumnAbove(mag: PixelBuffer, low: int, x: int, a: int, b: int)
    requires Valid(mag) && 0 <= x < mag.width && 0 <= a && b < mag.height
  {
    forall k :: a <= k <= b ==> Get(mag, x, k) > low
  }

  /** Columns a ... b of row y all have magnitude above low. */
  predicate RowAbove(mag: PixelBuffer, low: int, y: int, a: int, b: int)
    requires Valid(mag) && 0 <= y < mag.height && 0 <= a && b < mag.width
  {
    forall k :: a <= k <= b ==> Get(mag, k, y) > low
  }

  /** (u, v) lies on the column or the row through (i, j), and every pixel
      from (i, j) to (u, v), both included, has magnitude above low: the
      pixels the four walks from (i, j) turn to 255. */
  predicate OnRay(mag: PixelBuffer, low: int, i: int, j: int, u: int, v: int)
    requires Valid(mag) && InBounds(mag, i, j) && InBounds(mag, u, v)
  {
    || (u == i && ColumnAbove(mag, low, i, Min(j, v), Max(j, v)))
    || (v == j && RowAbove(mag, low, j, Min(i, u), Max(i, u)))
  }

  predicate SeedReaches(suppressed: PixelBuffer, mag: PixelBuffer, high: int, low: int, i: int, j: int, u: int, v: int)
    requires Valid(suppressed) && Valid(mag) && SameShape(suppressed, mag)
    requires InBounds(suppressed, i, j) && InBounds(suppressed, u, v)
  {
    IsSeed(suppressed, mag, high, i, j) && OnRay(mag, low, i, j, u, v)
  }

  /** Some seed of the whole buffer reaches (u, v). */
  ghost predicate Reached(suppressed: PixelBuffer, mag: PixelBuffer, high: int, low: int, u: int, v: int)
    requires Valid(suppressed) && Valid(mag) && SameShape(suppressed, mag) && InBounds(suppressed, u, v)
  {
    exists i, j :: InBounds(suppressed, i, j) && SeedReaches(suppressed, mag, high, low, i, j, u, v)
  }

  /** Some seed scanned before (i, j) reaches (u, v). The scan runs over
      columns i, and within a column over rows j. */
  ghost predicate ReachedBefore(suppressed: PixelBuffer, mag: PixelBuffer, high: int, low: int, i: int, j: int, u: int, v: int)
    requires Valid(suppressed) && Valid(mag) && SameShape(suppressed, mag) && InBounds(suppressed, u, v)
    requires 0 <= i <= suppressed.width && 0 <= j <= suppressed.height
  {
    || (exists i', j' :: 0 <= i' < i && 0 <= j' < suppressed.height && SeedReaches(suppressed, mag, high, low, i', j', u, v))
    || (exists j' :: 0 <= j' < j && i < suppressed.width && SeedReaches(suppressed, mag, high, low, i, j', u, v))
  }

  /** The walk up column x from row y: every pixel from y towards row 0 is
      set to 255 while its magnitude is above low; the first failure stops it. */
  method WalkUp(buf: PixelBuffer, mag: PixelBuffer, low: int, x: int, y: int) returns (r: PixelBuffer)
    requires Valid(buf) && Valid(mag) && SameShape(buf, mag) && InBounds(buf, x, y)
    ensures Valid(r) && SameShape(r, buf)
    ensures forall u, v :: InBounds(buf, u, v) ==>
      Get(r, u, v) == if u == x && v <= y && ColumnAbove(mag, low, x, v, y) then 255 else Get(buf, u, v)
  {
    r := buf;
    var m := y;
    while m >= 0
      invariant -1 <= m <= y
      invariant Valid(r) && SameShape(r, buf)
      invariant ColumnAbove(mag, low, x, m + 1, y)
      invariant forall u, v :: InBounds(buf, u, v) ==>
        Get(r, u, v) == if u == x && m < v <= y then 255 else Get(buf, u, v)
    {
      if Get(mag, x, m) > low {
        r := Set(r, x, m, 255);
      } else {
        break;
      }
      m := m - 1;
    }
    assert m < 0 || Get(mag, x, m) <= low;
  }

  /** The walk down column x from row y to the last row. */
  method WalkDown(buf: PixelBuffer, mag: PixelBuffer, low: int, x: int, y: int) returns (r: PixelBuffer)
    requires Valid(buf) && Valid(mag) && SameShape(buf, mag) && InBounds(buf, x, y)
    ensures Valid(r) && SameShape(r, buf)
    ensures forall u, v :: InBounds(buf, u, v) ==>
      Get(r, u, v) == if u == x && y <= v && ColumnAbove(mag, low, x, y, v) then 255 else Get(buf, u, v)
  {
    r := buf;
    var n := y;
    while n < buf.height
      invariant y <= n <= buf.height
      invariant Valid(r) && SameShape(r, buf)
      invariant ColumnAbove(mag, low, x, y, n - 1)
      invariant forall u, v :: InBounds(buf, u, v) ==>
        Get(r, u, v) == if u == x && y <= v < n then 255 else Get(buf, u, v)
    {
      if Get(mag, x, n) > low {
        r := Set(r, x, n, 255);
      } else {
        break;
      }
      n := n + 1;
    }
    assert n == buf.height || Get(mag, x, n) <= low;
  }

  /** The walk left along row y from column x to column 0. */
  method WalkLeft(buf: PixelBuffer, mag: PixelBuffer, low: int, x: int, y: int) returns (r: PixelBuffer)
    requires Valid(buf) && Valid(mag) && SameShape(buf, mag) && InBounds(buf, x, y)
    ensures Valid(r) && SameShape(r, buf)
    ensures forall u, v :: InBounds(buf, u, v) ==>
      Get(r, u, v) == if v == y && u <= x && RowAbove(mag, low, y, u, x) then 255 else Get(buf, u, v)
  {
    r := buf;
    var k := x;
    while k >= 0
      invariant -1 <= k <= x
      invariant Valid(r) && SameShape(r, buf)
      invariant RowAbove(mag, low, y, k + 1, x)
      invariant forall u, v :: InBounds(buf, u, v) ==>
        Get(r, u, v) == if v == y && k < u <= x then 255 else Get(buf, u, v)
    {
      if Get(mag, k, y) > low {
        r := Set(r, k, y, 255);
      } else {
        break;
      }
      k := k - 1;
    }
    assert k < 0 || Get(mag, k, y) <= low;
  }

  /** The walk right along row y from column x to the last column. */
  method WalkRight(buf: PixelBuffer, mag: PixelBuffer, low: int, x: int, y: int) returns (r: PixelBuffer)
    requires Valid(buf) && Valid(mag) && SameShape(buf, mag) && InBounds(buf, x, y)
    ensures Valid(r) && SameShape(r, buf)
    ensures forall u, v :: InBounds(buf, u, v) ==>
      Get(r, u, v) == if v == y && x <= u && RowAbove(mag, low, y, x, u) then 255 else Get(buf, u, v)
  {
    r := buf;
    var k := x;
    while k < buf.width
      invariant x <= k <= buf.width
      invariant Valid(r) && SameShape(r, buf)
      invariant RowAbove(mag, low, y, x, k - 1)
      invariant forall u, v :: InBounds(buf, u, v) ==>
        Get(r, u, v) == if v == y && x <= u < k then 255 else Get(buf, u, v)
    {
      if Get(mag, k, y) > low {
        r := Set(r, k, y, 255);
      } else {
        break;
      }
      k := k + 1;
    }
    assert k == buf.width || Get(mag, k, y) <= low;
  }

  /** The four walks from (i, j), in the order of the Swift code: up, down,
      left, right. Together they set exactly the pixels on a ray from (i, j). */
  method WalkFromSeed(buf: PixelBuffer, mag: PixelBuffer, low: int, i: int, j: int) returns (r: PixelBuffer)
    requires Valid(buf) && Valid(mag) && SameShape(buf, mag) && InBounds(buf, i, j)
    ensures Valid(r) && SameShape(r, buf)
    ensures forall u, v :: InBounds(buf, u, v) ==>
      Get(r, u, v) == if OnRay(mag, low, i, j, u, v) then 255 else Get(buf, u, v)
  {
    var up := WalkUp(buf, mag, low, i, j);
    var down := WalkDown(up, mag, low, i, j);
    var left := WalkLeft(down, mag, low, i, j);
    r := WalkRight(left, mag, low, i, j);
    forall u, v | InBounds(buf, u, v)
      ensures Get(r, u, v) == if OnRay(mag, low, i, j, u, v) then 255 else Get(buf, u, v)
    {
      RayIsFourWalks(mag, low, i, j, u, v);
    }
  }

  /** A ray from (i, j) is the union of the four walks' reaches. */
  lemma RayIsFourWalks(mag: PixelBuffer, low: int, i: int, j: int, u: int, v: int)
    requires Valid(mag) && InBounds(mag, i, j) && InBounds(mag, u, v)
    ensures OnRay(mag, low, i, j, u, v) <==>
      || (u == i && v <= j && ColumnAbove(mag, low, i, v, j))
      || (u == i && j <= v && ColumnAbove(mag, low, i, j, v))
      || (v == j && u <= i && RowAbove(mag, low, j, u, i))
      || (v == j && i <= u && RowAbove(mag, low, j, i, u))
  {
  }

  /** Advancing the scan by one row of column i adds the seed at (i, j). */
  lemma ReachedBeforeNextRow(suppressed: PixelBuffer, mag: PixelBuffer, high: int, low: int, i: int, j: int, u: int, v: int)
    requires Valid(suppressed) && Valid(mag) && SameShape(suppressed, mag) && InBounds(suppressed, u, v)
    requires InBounds(suppressed, i, j)
    ensures ReachedBefore(suppressed, mag, high, low, i, j + 1, u, v) <==>
      ReachedBefore(suppressed, mag, high, low, i, j, u, v) || SeedReaches(suppressed, mag, high, low, i, j, u, v)
  {
  }

  /** Finishing column i is starting column i + 1. */
  lemma ReachedBeforeNextColumn(suppressed: PixelBuffer, mag: PixelBuffer, high: int, low: int, i: int, u: int, v: int)
    requires Valid(suppressed) && Valid(mag) && SameShape(suppressed, mag) && InBounds(suppressed, u, v)
    requires 0 <= i < suppressed.width
    ensures ReachedBefore(suppressed, mag, high, low, i, suppressed.height, u, v) <==>
      ReachedBefore(suppressed, mag, high, low, i + 1, 0, u, v)
  {
  }

  /** Having scanned every column, the scanned seeds are all the seeds. */
  lemma ReachedBeforeEnd(suppressed: PixelBuffer, mag: PixelBuffer, high: int, low: int, u: int, v: int)
    requires Valid(suppressed) && Valid(mag) && SameShape(suppressed, mag) && InBounds(suppressed, u, v)
    ensures ReachedBefore(suppressed, mag, high, low, suppressed.width, 0, u, v) <==>
      Reached(suppressed, mag, high, low, u, v)
  {
  }

  /** `hysteresisThresholding`: the output starts as a copy of `suppressed`;
      every seed (suppressed 255, magnitude above `high`) walks the four
      rays through it, turning pixels to 255 while their magnitude is above
      `low`. In the Swift code the output shares storage with `suppressed`,
      so the seed test at a later pixel sees pixels promoted by earlier walks;
      here the seed test reads the unmodified `suppressed` buffer. */
  method HysteresisThresholding(suppressed: PixelBuffer, mag: PixelBuffer, high: int, low: int) returns (r: PixelBuffer)
    requires Valid(suppressed) && Valid(mag) && SameShape(suppressed, mag)
    requires suppressed.width >= 1 && suppressed.height >= 1
    ensures Valid(r) && SameShape(r, suppressed)
    ensures IsHysteresisOf(suppressed, mag, high, low, r)
    ensures ThresholdFacts(suppressed, mag, high, low, r)
  {
    r := suppressed;
    var i := 0;
    while i < suppressed.width
      invariant 0 <= i <= suppressed.width
      invariant Valid(r) && SameShape(r, suppressed)
      invariant forall u, v :: InBounds(suppressed, u, v) ==>
        Get(r, u, v) == if Get(suppressed, u, v) == 255 || ReachedBefore(suppressed, mag, high, low, i, 0, u, v) then 255
                        else Get(suppressed, u, v)
    {
      var j := 0;
      while j < suppressed.height
        invariant 0 <= j <= suppressed.height
        invariant Valid(r) && SameShape(r, suppressed)
        invariant forall u, v :: InBounds(suppressed, u, v) ==>
          Get(r, u, v) == if Get(suppressed, u, v) == 255 || ReachedBefore(suppressed, mag, high, low, i, j, u, v) then 255
                          else Get(suppressed, u, v)
      {
        var before := r;
        if Get(suppressed, i, j) == 255 {
          if Get(mag, i, j) > high {
            r := WalkFromSeed(r, mag, low, i, j);
          }
        }
        forall u, v | InBounds(suppressed, u, v)
          ensures Get(r, u, v) == if Get(suppressed, u, v) == 255 || ReachedBefore(suppressed, mag, high, low, i, j + 1, u, v) then 255
                                  else Get(suppressed, u, v)
        {
          ReachedBeforeNextRow(suppressed, mag, high, low, i, j, u, v);
        }
        j := j + 1;
      }
      forall u, v | InBounds(suppressed, u, v)
        ensures ReachedBefore(suppressed, mag, high, low, i, suppressed.height, u, v) <==>
          ReachedBefore(suppressed, mag, high, low, i + 1, 0, u, v)
      {
        ReachedBeforeNextColumn(suppressed, mag, high, low, i, u, v);
      }
      i := i + 1;
    }
    forall u, v | InBounds(suppressed, u, v)
      ensures ReachedBefore(suppressed, mag, high, low, suppressed.width, 0, u, v) <==>
        Reached(suppressed, mag, high, low, u, v)
    {
      ReachedBeforeEnd(suppressed, mag, high, low, u, v);
    }
    ThresholdConsequences(suppressed, mag, high, low, r);
  }

  /** The hysteresis output, pixel by pixel: 255 where suppression left 255
      or some seed reaches, the suppressed value everywhere else. */
  ghost predicate IsHysteresisOf(suppressed: PixelBuffer, mag: PixelBuffer, high: int, low: int, r: PixelBuffer)
    requires Valid(suppressed) && Valid(mag) && SameShape(suppressed, mag)
    requires Valid(r) && SameShape(r, suppressed)
  {
    forall u, v :: InBounds(suppressed, u, v) ==>
      Get(r, u, v) == if Get(suppressed, u, v) == 255 || Reached(suppressed, mag, high, low, u, v) then 255
                      else Get(suppressed, u, v)
  }

  /** Only 255 is ever written, so suppressed 255s stay and a binary input
      stays binary; every promoted pixel is above `low` and reached by a seed. */
  ghost predicate ThresholdFacts(suppressed: PixelBuffer, mag: PixelBuffer, high: int, low: int, r: PixelBuffer)
    requires Valid(suppressed) && Valid(mag) && SameShape(suppressed, mag)
    requires Valid(r) && SameShape(r, suppressed)
  {
    && (forall u, v :: InBounds(suppressed, u, v) ==> Get(r, u, v) == 255 || Get(r, u, v) == Get(suppressed, u, v))
    && (forall u, v :: InBounds(suppressed, u, v) && Get(suppressed, u, v) == 255 ==> Get(r, u, v) == 255)
    && (IsBinary(suppressed) ==> IsBinary(r))
    && (forall u, v :: InBounds(suppressed, u, v) && Get(suppressed, u, v) != 255 && Get(r, u, v) == 255 ==>
          Get(mag, u, v) > low && Reached(suppressed, mag, high, low, u, v))
  }

  /** What the characterisation of the hysteresis output implies. */
  lemma ThresholdConsequences(suppressed: PixelBuffer, mag: PixelBuffer, high: int, low: int, r: PixelBuffer)
    requires Valid(suppressed) && Valid(mag) && SameShape(suppressed, mag)
    requires Valid(r) && SameShape(r, suppressed)
    requires IsHysteresisOf(suppressed, mag, high, low, r)
    ensures ThresholdFacts(suppressed, mag, high, low, r)
  {
    forall u, v | InBounds(suppressed, u, v) && Get(suppressed, u, v) != 255 && Get(r, u, v) == 255
      ensures Get(mag, u, v) > low
    {
      ReachedAboveLow(suppressed, mag, high, low, u, v);
    }
  }

  /** A reached pixel is itself above the low threshold. */
  lemma ReachedAboveLow(suppressed: PixelBuffer, mag: PixelBuffer, high: int, low: int, u: int, v: int)
    requires Valid(suppressed) && Valid(mag) && SameShape(suppressed, mag) && InBounds(suppressed, u, v)
    requires Reached(suppressed, mag, high, low, u, v)
    ensures Get(mag, u, v) > low
  {
    var i, j :| InBounds(suppressed, i, j) && SeedReaches(suppressed, mag, high, low, i, j, u, v);
  }
}

/** Row-major grayscale buffers and their get/set addressing
    (the PixelBuffer struct of ViewController.swift). */
module PixelBuffers {
  import opened Arith

  /** An unsigned 8-bit intensity (Swift's UInt8). */
  type Byte = b: int | 0 <= b < 256

  /** A width x height grid of intensities stored row by row: pixel (x, y)
      lives at index y * width + x of `data`. The Swift struct wraps an
      unsafe pointer that several buffers may share; in this model every
      buffer owns its contents, so a stage that starts from another buffer
      works on a copy. */
  datatype PixelBuffer = PixelBuffer(width: nat, height: nat, data: seq<Byte>)

  /** The storage holds exactly one byte per pixel. */
  predicate Valid(b: PixelBuffer)
  {
    |b.data| == RowStart(b.width, b.height)
  }

  predicate InBounds(b: PixelBuffer, x: int, y: int)
  {
    0 <= x < b.width && 0 <= y < b.height
  }

  predicate SameShape(a: PixelBuffer, b: PixelBuffer)
  {
    a.width == b.width && a.height == b.height
  }

  /** Every pixel is 0 or 255: an edge mask. */
  predicate IsBinary(b: PixelBuffer)
    requires Valid(b)
  {
    forall x, y :: 0 <= x < b.width && 0 <= y < b.height ==> Get(b, x, y) == 0 || Get(b, x, y) == 255
  }

  /** The index where row y starts in a buffer `width` pixels wide: the
      number of bytes in the rows above it, y * width (RowStartIsProduct). */
  function RowStart(width: nat, y: nat): nat
  {
    if y == 0 then 0 else RowStart(width, y - 1) + width
  }

  /** The row-major position of (x, y): the start of row y, plus x. */
  function Offset(width: nat, x: int, y: nat): int
  {
    RowStart(width, y) + x
  }

  /** Row starts are the multiples of the width, so Offset is the
      `y * width + x` of PixelBuffer.get and PixelBuffer.set. */
  lemma {:induction false} RowStartIsProduct(width: nat, y: nat)
    ensures RowStart(width, y) == y * width
    ensures Offset(width, 0, y) == y * width
  {
    if y > 0 {
      RowStartIsProduct(width, y - 1);
      assert (y - 1) * width + width == y * width;
    }
  }

  /** A later row starts at least one full row further on. */
  lemma {:induction false} RowStartGrows(width: nat, a: nat, b: nat)
    requires a < b
    ensures RowStart(width, a) + width <= RowStart(width, b)
  {
    if a + 1 < b {
      RowStartGrows(width, a, b - 1);
    }
  }

  /** In-range coordinates address a valid position of the storage. */
  lemma OffsetInRange(width: nat, height: nat, x: int, y: int)
    requires 0 <= x < width && 0 <= y < height
    ensures 0 <= Offset(width, x, y) < RowStart(width, height)
  {
    RowStartGrows(width, y, height);
  }

  /** Distinct in-range coordinates never share a position. */
  lemma OffsetInjective(width: nat, x: int, y: nat, u: int, v: nat)
    requires 0 <= x < width && 0 <= u < width
    ensures Offset(width, x, y) == Offset(width, u, v) ==> x == u && y == v
  {
    if y < v {
      RowStartGrows(width, y, v);
    } else if v < y {
      RowStartGrows(width, v, y);
    }
  }

  /** The position of (x, y) is recovered from the offset by division and remainder. */
  lemma OffsetRoundTrip(width: nat, x: int, y: nat)
    requires 0 <= x < width
    ensures Offset(width, x, y) / width == y && Offset(width, x, y) % width == x
  {
    var i := Offset(width, x, y);
    RowStartIsProduct(width, y);
    var q, r := i / width, i % width;
    assert q * width + r == i;
    assert 0 <= q by {
      if q < 0 {
        MulMono(q, -1, width);
      }
    }
    RowStartIsProduct(width, q);
    OffsetInjective(width, x, y, r, q);
  }

  /** PixelBuffer.get: the byte at (x, y), stored at index y * width + x. */
  function Get(b: PixelBuffer, x: int, y: int): (v: Byte)
    requires Valid(b) && InBounds(b, x, y)
    ensures 0 <= y * b.width + x < |b.data| && v == b.data[y * b.width + x]
  {
    OffsetInRange(b.width, b.height, x, y);
    RowStartIsProduct(b.width, y);
    b.data[Offset(b.width, x, y)]
  }

  /** PixelBuffer.set: the buffer with (x, y) replaced by v and every other pixel kept. */
  function Set(b: PixelBuffer, x: int, y: int, v: Byte): (r: PixelBuffer)
    requires Valid(b) && InBounds(b, x, y)
    ensures Valid(r) && SameShape(r, b)
    ensures Get(r, x, y) == v
    ensures forall u, w :: InBounds(b, u, w) && (u != x || w != y) ==> Get(r, u, w) == Get(b, u, w)
  {
    OffsetInRange(b.width, b.height, x, y);
    var r := b.(data := b.data[Offset(b.width, x, y) := v]);
    assert forall u, w :: InBounds(b, u, w) && (u != x || w != y) ==> Get(r, u, w) == Get(b, u, w) by {
      forall u, w | InBounds(b, u, w) && (u != x || w != y)
        ensures Get(r, u, w) == Get(b, u, w)
      {
        OffsetInjective(b.width, x, y, u, w);
        OffsetInRange(b.width, b.height, u, w);
        assert r.data[Offset(b.width, u, w)] == b.data[Offset(b.width, u, w)];
      }
    }
    r
  }

  /** Writing back the value just read leaves the buffer unchanged. */
  lemma SetGetIdentity(b: PixelBuffer, x: int, y: int)
    requires Valid(b) && InBounds(b, x, y)
    ensures Set(b, x, y, Get(b, x, y)) == b
  {
    OffsetInRange(b.width, b.height, x, y);
  }

  /** The buffer whose pixel (x, y) is f(x, y): how every stage below builds
      its freshly owned output. */
  function Tabulate(width: nat, height: nat, f: (int, int) --> Byte): (r: PixelBuffer)
    requires forall x, y :: 0 <= x < width && 0 <= y < height ==> f.requires(x, y)
    ensures Valid(r) && r.width == width && r.height == height
    ensures forall x, y :: 0 <= x < width && 0 <= y < height ==> Get(r, x, y) == f(x, y)
    decreases height
  {
    if height == 0 then PixelBuffer(width, 0, [])
    else
      var above := Tabulate(width, height - 1, f);
      var row := seq(width, x requires 0 <= x < width => f(x, height - 1));
      var r := PixelBuffer(width, height, above.data + row);
      assert forall x, y :: 0 <= x < width && 0 <= y < height ==> Get(r, x, y) == f(x, y) by {
        forall x, y | 0 <= x < width && 0 <= y < height
          ensures Get(r, x, y) == f(x, y)
        {
          if y < height - 1 {
            OffsetInRange(width, height - 1, x, y);
            assert r.data[Offset(width, x, y)] == above.data[Offset(width, x, y)];
            assert Get(above, x, y) == f(x, y);
          } else {
            assert r.data[Offset(width, x, y)] == row[x];
          }
        }
      }
      r
  }
}

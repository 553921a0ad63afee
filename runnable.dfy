/** The per-tile worker, `ImageRunnable.run`.
 *
 *  A worker visits the square tile `[x0, x0 + side) x [y0, y0 + side)` row by
 *  row; for each pixel it runs the kernel over the source image and then
 *  stores the packed result with `setRGB` into the destination. A centre
 *  outside the image either empties the neighbourhood (the kernel divides
 *  by zero) or reaches `setRGB`, which rejects the coordinate; either
 *  exception ends the worker, so it writes exactly the tile pixels before the
 *  first one that fails.
 */
module Worker {
  import opened Rgb
  import opened Kernel

  /** The exception that ended a worker. */
  datatype Fault = ArithmeticFault | CoordinateOutOfBounds

  /** How a worker ended: it finished its tile, or it threw at `(x, y)`. */
  datatype Outcome = Completed | Failed(x: int, y: int, fault: Fault)

  /** `(x, y)` lies in the tile with corner `(x0, y0)` and side `side`. */
  predicate InTile(x0: int, y0: int, side: int, x: int, y: int) {
    x0 <= x < x0 + side && y0 <= y < y0 + side
  }

  /** `(a, b)` is visited before `(x, y)` in the worker's row-major order. */
  predicate Precedes(a: int, b: int, x: int, y: int) {
    b < y || (b == y && a < x)
  }

  /** Processing `(x, y)` raises nothing: the kernel has pixels to divide by
   *  and the coordinate is one `setRGB` accepts (the destination has the
   *  source's size). */
  predicate PixelOk(src: array2<Pixel>, kernelSize: int, x: int, y: int)
    reads src
  {
    AverageOf(src, x, y, kernelSize).Mean? && InImage(src, x, y)
  }

  /** The packed average that the worker stores at `(x, y)`. */
  function Filtered(src: array2<Pixel>, kernelSize: int, x: int, y: int): Pixel
    reads src
    requires AverageOf(src, x, y, kernelSize).Mean?
  {
    Pack(AverageOf(src, x, y, kernelSize).color)
  }

  /** The worker for the given tile writes `(x, y)`: the pixel is in the tile,
   *  and neither it nor any tile pixel visited before it raises. */
  ghost predicate TileWrites(src: array2<Pixel>, kernelSize: int, x0: int, y0: int, side: int, x: int, y: int)
    reads src
  {
    && InTile(x0, y0, side, x, y)
    && PixelOk(src, kernelSize, x, y)
    && forall p, q :: InTile(x0, y0, side, p, q) && Precedes(p, q, x, y) ==> PixelOk(src, kernelSize, p, q)
  }

  /** Every pixel of the tile can be processed. */
  ghost predicate TileClean(src: array2<Pixel>, kernelSize: int, x0: int, y0: int, side: int)
    reads src
  {
    forall p, q :: InTile(x0, y0, side, p, q) ==> PixelOk(src, kernelSize, p, q)
  }

  /** When the worker stops at a failing `(x, y)`, the tile is not clean and
   *  the worker has written exactly the tile pixels before `(x, y)`. */
  lemma WritesBeforeFailure(src: array2<Pixel>, kernelSize: int, x0: int, y0: int, side: int, x: int, y: int)
    requires InTile(x0, y0, side, x, y) && !PixelOk(src, kernelSize, x, y)
    requires forall p, q :: InTile(x0, y0, side, p, q) && Precedes(p, q, x, y) ==> PixelOk(src, kernelSize, p, q)
    ensures !TileClean(src, kernelSize, x0, y0, side)
    ensures forall a, b :: TileWrites(src, kernelSize, x0, y0, side, a, b)
                           <==> InTile(x0, y0, side, a, b) && Precedes(a, b, x, y)
  {
    forall a, b | InTile(x0, y0, side, a, b) && Precedes(a, b, x, y)
      ensures TileWrites(src, kernelSize, x0, y0, side, a, b)
    {
      forall p, q | InTile(x0, y0, side, p, q) && Precedes(p, q, a, b)
        ensures PixelOk(src, kernelSize, p, q)
      {
        assert Precedes(p, q, x, y);
      }
    }
  }

  /** Once `(x, y)` has been processed too, every tile pixel visited before
   *  `(x + 1, y)` is known to be processable. */
  lemma OkThrough(src: array2<Pixel>, kernelSize: int, x0: int, y0: int, side: int, x: int, y: int)
    requires PixelOk(src, kernelSize, x, y)
    requires forall p, q :: InTile(x0, y0, side, p, q) && Precedes(p, q, x, y) ==> PixelOk(src, kernelSize, p, q)
    ensures forall p, q :: InTile(x0, y0, side, p, q) && Precedes(p, q, x + 1, y) ==> PixelOk(src, kernelSize, p, q)
  {
  }

  /** When no tile pixel fails, the worker writes the whole tile. */
  lemma WritesWholeTile(src: array2<Pixel>, kernelSize: int, x0: int, y0: int, side: int, a: int, b: int)
    requires TileClean(src, kernelSize, x0, y0, side)
    ensures TileWrites(src, kernelSize, x0, y0, side, a, b) <==> InTile(x0, y0, side, a, b)
  {
  }

  /** `ImageRunnable.run` for the tile at `(x0, y0)` of side `side`, with
   *  kernel size `kernelSize`, reading `src` and writing `dst`. */
  method Run(src: array2<Pixel>, dst: array2<Pixel>, kernelSize: int, x0: int, y0: int, side: int)
    returns (outcome: Outcome)
    requires src != dst
    requires dst.Length0 == src.Length0 && dst.Length1 == src.Length1
    modifies dst
    ensures unchanged(src)
    ensures outcome.Completed? <==> TileClean(src, kernelSize, x0, y0, side)
    ensures outcome.Failed? ==>
              && InTile(x0, y0, side, outcome.x, outcome.y)
              && !PixelOk(src, kernelSize, outcome.x, outcome.y)
              && (outcome.fault == ArithmeticFault
                  <==> AverageOf(src, outcome.x, outcome.y, kernelSize).DivisionByZero?)
              && forall p, q :: InTile(x0, y0, side, p, q) && Precedes(p, q, outcome.x, outcome.y)
                                ==> PixelOk(src, kernelSize, p, q)
    ensures forall a, b :: 0 <= a < dst.Length0 && 0 <= b < dst.Length1 ==>
              dst[a, b] == if TileWrites(src, kernelSize, x0, y0, side, a, b)
                           then Filtered(src, kernelSize, a, b) else old(dst[a, b])
  {
    var y := y0;
    while y < y0 + side
      invariant y0 <= y && (y == y0 || y <= y0 + side)
      invariant forall p, q :: InTile(x0, y0, side, p, q) && Precedes(p, q, x0, y)
                               ==> PixelOk(src, kernelSize, p, q)
      invariant forall a, b :: 0 <= a < dst.Length0 && 0 <= b < dst.Length1 ==>
                  dst[a, b] == if InTile(x0, y0, side, a, b) && Precedes(a, b, x0, y)
                               then Filtered(src, kernelSize, a, b) else old(dst[a, b])
    {
      var x := x0;
      while x < x0 + side
        invariant x0 <= x <= x0 + side
        invariant forall p, q :: InTile(x0, y0, side, p, q) && Precedes(p, q, x, y)
                                 ==> PixelOk(src, kernelSize, p, q)
        invariant forall a, b :: 0 <= a < dst.Length0 && 0 <= b < dst.Length1 ==>
                    dst[a, b] == if InTile(x0, y0, side, a, b) && Precedes(a, b, x, y)
                                 then Filtered(src, kernelSize, a, b) else old(dst[a, b])
      {
        var avgColor := NeighborhoodAverage(src, x, y, kernelSize);
        if avgColor.DivisionByZero? || !(0 <= x < dst.Length0 && 0 <= y < dst.Length1) {
          // the kernel throws first; otherwise setRGB rejects the coordinate
          outcome := Failed(x, y, if avgColor.DivisionByZero? then ArithmeticFault else CoordinateOutOfBounds);
          WritesBeforeFailure(src, kernelSize, x0, y0, side, x, y);
          return;
        }
        OkThrough(src, kernelSize, x0, y0, side, x, y);
        dst[x, y] := Pack(avgColor.color);
        x := x + 1;
      }
      y := y + 1;
    }
    outcome := Completed;
    forall a, b | 0 <= a < dst.Length0 && 0 <= b < dst.Length1 {
      WritesWholeTile(src, kernelSize, x0, y0, side, a, b);
    }
  }

  // ---------------------------------------------------------------------
  // What a worker writes, by where its tile lies

  /** With `pad >= 0` every pixel inside the image can be processed. */
  lemma InImageOk(src: array2<Pixel>, kernelSize: int, x: int, y: int)
    requires kernelSize >= -1 && InImage(src, x, y)
    ensures PixelOk(src, kernelSize, x, y)
  {
    NoDivisionByZero(src, x, y, kernelSize);
  }

  /** A tile inside the image is written whole. */
  lemma TileInsideImage(src: array2<Pixel>, kernelSize: int, x0: int, y0: int, side: int)
    requires kernelSize >= -1
    requires 0 <= x0 && x0 + side <= src.Length0 && 0 <= y0 && y0 + side <= src.Length1
    ensures TileClean(src, kernelSize, x0, y0, side)
    ensures forall a, b :: TileWrites(src, kernelSize, x0, y0, side, a, b) <==> InTile(x0, y0, side, a, b)
  {
    forall p, q | InTile(x0, y0, side, p, q) ensures PixelOk(src, kernelSize, p, q) {
      InImageOk(src, kernelSize, p, q);
    }
  }

  /** A non-empty tile whose corner lies outside the image writes nothing:
   *  its first pixel fails. */
  lemma TileCornerOutside(src: array2<Pixel>, kernelSize: int, x0: int, y0: int, side: int)
    requires side > 0 && !InImage(src, x0, y0)
    ensures !TileClean(src, kernelSize, x0, y0, side)
    ensures forall a, b :: !TileWrites(src, kernelSize, x0, y0, side, a, b)
  {
    WritesBeforeFailure(src, kernelSize, x0, y0, side, x0, y0);
  }

  /** A tile that starts inside the image but crosses its right edge gets only
   *  the in-image part of its first row written: the worker throws at the
   *  first pixel past the edge. */
  lemma TileCrossesRightEdge(src: array2<Pixel>, kernelSize: int, x0: int, y0: int, side: int)
    requires kernelSize >= -1 && InImage(src, x0, y0)
    requires src.Length0 < x0 + side
    ensures !TileClean(src, kernelSize, x0, y0, side)
    ensures forall a, b :: TileWrites(src, kernelSize, x0, y0, side, a, b)
                           <==> b == y0 && x0 <= a < src.Length0
  {
    var w := src.Length0;
    forall p, q | InTile(x0, y0, side, p, q) && Precedes(p, q, w, y0)
      ensures PixelOk(src, kernelSize, p, q)
    {
      InImageOk(src, kernelSize, p, q);
    }
    WritesBeforeFailure(src, kernelSize, x0, y0, side, w, y0);
  }

  /** A tile that starts inside the image, fits its width but crosses the
   *  bottom edge gets its in-image rows written. */
  lemma TileCrossesBottomEdge(src: array2<Pixel>, kernelSize: int, x0: int, y0: int, side: int)
    requires kernelSize >= -1 && InImage(src, x0, y0)
    requires x0 + side <= src.Length0 && src.Length1 < y0 + side
    ensures !TileClean(src, kernelSize, x0, y0, side)
    ensures forall a, b :: TileWrites(src, kernelSize, x0, y0, side, a, b)
                           <==> InTile(x0, y0, side, a, b) && b < src.Length1
  {
    var h := src.Length1;
    forall p, q | InTile(x0, y0, side, p, q) && Precedes(p, q, x0, h)
      ensures PixelOk(src, kernelSize, p, q)
    {
      InImageOk(src, kernelSize, p, q);
    }
    WritesBeforeFailure(src, kernelSize, x0, y0, side, x0, h);
  }
}

/** `applyMeanFilter`: the dispatch of workers over diagonal tiles.
 *
 *  Worker `i` gets the tile of side `kernelSize` with corner
 *  `(i * kernelSize, i * kernelSize)`, and each worker is joined right after
 *  it is started, so the workers run one after another. A worker that throws
 *  ends only its own thread: `join` returns normally and the loop goes on.
 */
module MeanFilter {
  import opened Rgb
  import opened Kernel
  import opened Worker

  /** Worker `i` writes `(x, y)`. */
  ghost predicate WorkerWrites(src: array2<Pixel>, kernelSize: int, i: int, x: int, y: int)
    reads src
  {
    TileWrites(src, kernelSize, i * kernelSize, i * kernelSize, kernelSize, x, y)
  }

  /** One of the first `n` workers writes `(x, y)`. */
  ghost predicate BandWrites(src: array2<Pixel>, kernelSize: int, n: int, x: int, y: int)
    reads src
  {
    exists i :: 0 <= i < n && WorkerWrites(src, kernelSize, i, x, y)
  }

  /** Adding worker `n` adds its tile writes to the band. */
  lemma BandStep(src: array2<Pixel>, kernelSize: int, n: int)
    requires 0 <= n
    ensures forall a, b :: BandWrites(src, kernelSize, n + 1, a, b)
                           <==> BandWrites(src, kernelSize, n, a, b) || WorkerWrites(src, kernelSize, n, a, b)
  {
  }

  /** Whatever a worker writes, it could compute. */
  lemma BandWritesOk(src: array2<Pixel>, kernelSize: int, n: int, a: int, b: int)
    requires BandWrites(src, kernelSize, n, a, b)
    ensures PixelOk(src, kernelSize, a, b)
  {
  }

  /** The loop of `applyMeanFilter` over `qtThreads` workers, on a destination
   *  `dst` of the source's size. */
  method Dispatch(src: array2<Pixel>, dst: array2<Pixel>, kernelSize: int, qtThreads: int)
    returns (outcomes: seq<Outcome>)
    requires src != dst
    requires dst.Length0 == src.Length0 && dst.Length1 == src.Length1
    modifies dst
    ensures unchanged(src)
    ensures |outcomes| == if qtThreads < 0 then 0 else qtThreads
    ensures forall i :: 0 <= i < |outcomes| ==>
              (outcomes[i].Completed? <==> TileClean(src, kernelSize, i * kernelSize, i * kernelSize, kernelSize))
    ensures forall a, b :: 0 <= a < dst.Length0 && 0 <= b < dst.Length1 ==>
              dst[a, b] == if BandWrites(src, kernelSize, qtThreads, a, b)
                           then Filtered(src, kernelSize, a, b) else old(dst[a, b])
  {
    outcomes := [];
    var x := 0;
    var y := 0;
    var i := 0;
    while i < qtThreads
      invariant 0 <= i && (i == 0 || i <= qtThreads)
      invariant x == i * kernelSize && y == i * kernelSize
      invariant |outcomes| == i
      invariant forall j :: 0 <= j < i ==>
                  (outcomes[j].Completed? <==> TileClean(src, kernelSize, j * kernelSize, j * kernelSize, kernelSize))
      invariant forall a, b :: 0 <= a < dst.Length0 && 0 <= b < dst.Length1 ==>
                  dst[a, b] == if BandWrites(src, kernelSize, i, a, b)
                               then Filtered(src, kernelSize, a, b) else old(dst[a, b])
    {
      var tileX, tileY := x, y;
      assert (i + 1) * kernelSize == i * kernelSize + kernelSize;
      x := x + kernelSize;
      y := y + kernelSize;
      label BeforeRun:
      var outcome := Run(src, dst, kernelSize, tileX, tileY, kernelSize);
      BandStep(src, kernelSize, i);
      forall a, b | 0 <= a < dst.Length0 && 0 <= b < dst.Length1
        ensures dst[a, b] == if BandWrites(src, kernelSize, i + 1, a, b)
                             then Filtered(src, kernelSize, a, b) else old(dst[a, b])
      {
        assert dst[a, b] == if WorkerWrites(src, kernelSize, i, a, b)
                            then Filtered(src, kernelSize, a, b) else old@BeforeRun(dst[a, b]);
      }
      outcomes := outcomes + [outcome];
      i := i + 1;
    }
  }

  /** `applyMeanFilter` between loading and saving: a fresh destination of the
   *  source's size, all black (every pixel 0), filled in by the workers. */
  method ApplyMeanFilter(src: array2<Pixel>, kernelSize: int, qtThreads: int)
    returns (filtered: array2<Pixel>, outcomes: seq<Outcome>)
    ensures fresh(filtered)
    ensures filtered.Length0 == src.Length0 && filtered.Length1 == src.Length1
    ensures |outcomes| == if qtThreads < 0 then 0 else qtThreads
    ensures forall i :: 0 <= i < |outcomes| ==>
              (outcomes[i].Completed? <==> TileClean(src, kernelSize, i * kernelSize, i * kernelSize, kernelSize))
    ensures forall a, b :: 0 <= a < filtered.Length0 && 0 <= b < filtered.Length1 ==>
              filtered[a, b] == if BandWrites(src, kernelSize, qtThreads, a, b)
                                then Filtered(src, kernelSize, a, b) else 0
  {
    filtered := new Pixel[src.Length0, src.Length1]((_, _) => 0);
    outcomes := Dispatch(src, filtered, kernelSize, qtThreads);
  }

  // ---------------------------------------------------------------------
  // The diagonal band

  lemma MulLe(a: int, b: int, k: int)
    requires a <= b && 0 <= k
    ensures a * k <= b * k
  {
    assert b * k - a * k == (b - a) * k;
  }

  /** For `k > 0`, tile `i` is the set of pixels whose coordinates both have
   *  floor quotient `i` by `k`. */
  lemma TileByQuotient(k: int, i: int, x: int, y: int)
    requires k > 0
    ensures InTile(i * k, i * k, k, x, y) <==> x / k == i && y / k == i
  {
    QuotientBounds(k, i, x);
    QuotientBounds(k, i, y);
  }

  lemma QuotientBounds(k: int, i: int, x: int)
    requires k > 0
    ensures i * k <= x < i * k + k <==> x / k == i
  {
    var q := x / k;
    assert q * k <= x < q * k + k;
    if q < i {
      MulLe(q + 1, i, k);
    } else if q > i {
      MulLe(i + 1, q, k);
    }
  }

  /** Only pixels on the diagonal band are ever written: both coordinates
   *  have the same quotient `i` by `kernelSize`, and `i` is a worker that
   *  ran. With `kernelSize <= 0` the tiles are empty and nothing is written.
   *  Coordinates are unbounded here: in Java the tile corner `i * kernelSize`
   *  wraps once `qtThreads * |kernelSize|` reaches 2^31, and a wrapped corner
   *  can start a tile off the band, so this holds only while that does not
   *  happen. */
  lemma BandIsDiagonal(src: array2<Pixel>, kernelSize: int, n: int, x: int, y: int)
    requires BandWrites(src, kernelSize, n, x, y)
    ensures kernelSize > 0
    ensures x / kernelSize == y / kernelSize && 0 <= x / kernelSize < n
  {
    var i :| 0 <= i < n && WorkerWrites(src, kernelSize, i, x, y);
    TileByQuotient(kernelSize, i, x, y);
  }

  /** Distinct workers write disjoint sets of pixels, so the order in which
   *  they run does not matter. As for `BandIsDiagonal`, this assumes that no
   *  tile corner wraps around 2^31; a wrapped corner can overlap an earlier
   *  worker's tile. */
  lemma WorkersDisjoint(src: array2<Pixel>, kernelSize: int, i: int, j: int, x: int, y: int)
    requires i != j
    ensures !(WorkerWrites(src, kernelSize, i, x, y) && WorkerWrites(src, kernelSize, j, x, y))
  {
    if kernelSize > 0 {
      TileByQuotient(kernelSize, i, x, y);
      TileByQuotient(kernelSize, j, x, y);
    }
  }

  /** The pixel `(k, 0)` right of the first tile is never written. */
  lemma OffDiagonalUnwritten(src: array2<Pixel>, kernelSize: int, n: int)
    ensures !BandWrites(src, kernelSize, n, kernelSize, 0)
  {
    if BandWrites(src, kernelSize, n, kernelSize, 0) {
      BandIsDiagonal(src, kernelSize, n, kernelSize, 0);
    }
  }

  /** When all `n` tiles fit in the image, the written pixels are exactly the
   *  union of the `n` diagonal squares (with unbounded coordinates, as for
   *  `BandIsDiagonal`). */
  lemma BandInsideImage(src: array2<Pixel>, kernelSize: int, n: int, x: int, y: int)
    requires kernelSize > 0 && 0 <= n
    requires n * kernelSize <= src.Length0 && n * kernelSize <= src.Length1
    ensures BandWrites(src, kernelSize, n, x, y)
            <==> 0 <= x && 0 <= y && x / kernelSize == y / kernelSize < n
  {
    var k := kernelSize;
    if 0 <= x && 0 <= y && x / k == y / k < n {
      var i := x / k;
      assert 0 <= i by {
        if i < 0 {
          QuotientBounds(k, i, x);
          MulLe(i, -1, k);
        }
      }
      MulLe(i + 1, n, k);
      assert (i + 1) * k == i * k + k;
      TileInsideImage(src, k, i * k, i * k, k);
      TileByQuotient(k, i, x, y);
      assert WorkerWrites(src, k, i, x, y);
    }
    if BandWrites(src, k, n, x, y) {
      var i :| 0 <= i < n && WorkerWrites(src, k, i, x, y);
      TileByQuotient(k, i, x, y);
      MulLe(0, i, k);
    }
  }

  // ---------------------------------------------------------------------
  // A worked example

  /** A 4x4 black image with one red pixel at `(1, 1)`. */
  ghost predicate RedDot(src: array2<Pixel>)
    reads src
  {
    && src.Length0 == 4 && src.Length1 == 4
    && forall x, y :: 0 <= x < 4 && 0 <= y < 4 ==>
         src[x, y] == if x == 1 && y == 1 then Pack(Color(255, 0, 0)) else 0
  }

  lemma RedDotCells(src: array2<Pixel>)
    requires RedDot(src)
    ensures forall x, y :: 0 <= x < 4 && 0 <= y < 4 ==>
              Cell(src, x, y) == if x == 1 && y == 1 then Sums(255, 0, 0, 1) else Sums(0, 0, 0, 1)
  {
    assert Unpack(0) == Color(0, 0, 0);
  }

  /** Around the red pixel the 3x3 kernel sees 9 pixels: `255 / 9 = 28`. */
  lemma RedDotCentre(src: array2<Pixel>)
    requires RedDot(src)
    ensures AverageOf(src, 1, 1, 3) == Mean(Color(28, 0, 0))
  {
    RedDotCells(src);
    assert RowSums(src, 0, 3, 0) == Sums(0, 0, 0, 3) by {
      assert RowSums(src, 0, 1, 0) == Sums(0, 0, 0, 1);
      assert RowSums(src, 0, 2, 0) == Sums(0, 0, 0, 2);
    }
    assert RowSums(src, 0, 3, 1) == Sums(255, 0, 0, 3) by {
      assert RowSums(src, 0, 1, 1) == Sums(0, 0, 0, 1);
      assert RowSums(src, 0, 2, 1) == Sums(255, 0, 0, 2);
    }
    assert RowSums(src, 0, 3, 2) == Sums(0, 0, 0, 3) by {
      assert RowSums(src, 0, 1, 2) == Sums(0, 0, 0, 1);
      assert RowSums(src, 0, 2, 2) == Sums(0, 0, 0, 2);
    }
    assert BoxSums(src, 0, 3, 0, 1) == Sums(0, 0, 0, 3);
    assert BoxSums(src, 0, 3, 0, 2) == Sums(255, 0, 0, 6);
    assert Pad(3) == 1;
    assert Neighborhood(src, 1, 1, 3) == Sums(255, 0, 0, 9);
  }

  /** At the corner the kernel sees the 2x2 square `[0, 2)^2`: `255 / 4 = 63`. */
  lemma RedDotCorner(src: array2<Pixel>)
    requires RedDot(src)
    ensures AverageOf(src, 0, 0, 3) == Mean(Color(63, 0, 0))
  {
    RedDotCells(src);
    assert Cell(src, -1, 0) == Zero() && Cell(src, -1, 1) == Zero();
    assert RowSums(src, -1, 2, 0) == Sums(0, 0, 0, 2) by {
      assert RowSums(src, -1, 0, 0) == Zero();
      assert RowSums(src, -1, 1, 0) == Sums(0, 0, 0, 1);
    }
    assert RowSums(src, -1, 2, 1) == Sums(255, 0, 0, 2) by {
      assert RowSums(src, -1, 0, 1) == Zero();
      assert RowSums(src, -1, 1, 1) == Sums(0, 0, 0, 1);
    }
    RowOutsideImage(src, -1, 2, -1);
    assert BoxSums(src, -1, 2, -1, 0) == Zero();
    assert BoxSums(src, -1, 2, -1, 1) == Sums(0, 0, 0, 2);
    assert Pad(3) == 1;
    assert Neighborhood(src, 0, 0, 3) == Sums(255, 0, 0, 4);
  }

  /** Filtered by two workers with a 3x3 kernel: worker 0 covers `[0, 3)^2`;
   *  worker 1 starts at `(3, 3)` and throws at `(4, 3)`, so of its tile only
   *  `(3, 3)` is written; `(3, 0)` keeps the destination's initial value. */
  lemma RedDotTwoWorkers(src: array2<Pixel>)
    requires RedDot(src)
    ensures BandWrites(src, 3, 2, 1, 1) && Filtered(src, 3, 1, 1) == Pack(Color(28, 0, 0))
    ensures BandWrites(src, 3, 2, 0, 0) && Filtered(src, 3, 0, 0) == Pack(Color(63, 0, 0))
    ensures BandWrites(src, 3, 2, 3, 3) && !BandWrites(src, 3, 2, 3, 0)
  {
    RedDotCentre(src);
    RedDotCorner(src);
    TileInsideImage(src, 3, 0, 0, 3);
    assert WorkerWrites(src, 3, 0, 1, 1) && WorkerWrites(src, 3, 0, 0, 0);
    TileCrossesRightEdge(src, 3, 3, 3, 3);
    assert WorkerWrites(src, 3, 1, 3, 3);
    OffDiagonalUnwritten(src, 3, 2);
  }
}

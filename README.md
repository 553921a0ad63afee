# ImageMeanFilter, modelled in Dafny

`ImageMeanFilter` smooths an image with a box (mean) filter. For each
destination pixel it averages the red, green and blue channels of the source
pixels in a square window of side `kernelSize` centred on it.

`applyMeanFilter` starts `qtThreads` workers (`ImageRunnable`). Worker `i`
filters the square tile of side `kernelSize` whose corner is
`(i * kernelSize, i * kernelSize)`. Each worker is joined right after it is
started, so the workers run one after another. Between them they cover a
diagonal band of the image.

The model has four modules, one per part of the program:

- `Rgb` (`rgb.dfy`): packed pixels and their channels. This covers the shifts
  and masks that unpack `getRGB`'s value and pack the result for `setRGB`.
- `Kernel` (`kernel.dfy`): `calculateNeighborhoodAverage`, written as the
  method `NeighborhoodAverage` with the source's two nested loops.
  - It is proved equal to the function `AverageOf`, which is built from
    recursive row and box sums.
  - The lemmas are about `AverageOf`: the pixel count is the clipped area,
    when division by zero happens, floor means bounded to 0..255, the identity
    when `kernelSize` is 1, and a uniform neighbourhood averaging to its colour.
- `Worker` (`runnable.dfy`): `ImageRunnable.run`, written as the method `Run`.
  - It writes the destination `array2` in place.
  - Its contract states exactly which pixels it writes, and with what values.
  - The worker stops at the first pixel whose kernel divides by zero or
    whose coordinate `setRGB` rejects.
  - `PixelOk(src, k, x, y)` says that processing `(x, y)` raises nothing: the
    kernel counts at least one pixel, and `(x, y)` lies inside the image.
    The second half stands for `BufferedImage.setRGB` throwing
    `ArrayIndexOutOfBoundsException` for a coordinate outside the raster;
    that check is library behaviour, not code in `ImageMeanFilter.java`, and
    the destination has the source's size.
  - `TileWrites(src, k, x0, y0, side, x, y)` says that the worker with that
    tile writes `(x, y)`: the pixel is in the tile, it is `PixelOk`, and so
    is every tile pixel before it in row-major order (`Precedes`).
  - `TileClean(src, k, x0, y0, side)` says that every pixel of the tile is
    `PixelOk`, so the worker runs to the end of its loops.
- `MeanFilter` (`filter.dfy`): the dispatch loop of `applyMeanFilter` (the
  method `Dispatch`) and the fresh destination image (`ApplyMeanFilter`).
  - They are stated in terms of the set of pixels each of the first `n`
    workers writes.
  - `WorkerWrites(src, k, i, x, y)` says that worker `i` writes `(x, y)`:
    `TileWrites` for the tile of side `k` with corner `(i * k, i * k)`.
  - `BandWrites(src, k, n, x, y)` says that some worker `i` with
    `0 <= i < n` writes `(x, y)`.
  - The lemmas show that only the diagonal band is ever written and that
    workers write disjoint pixels.
  - A worked example filters a 4x4 image.

An image is an `array2<Pixel>` indexed `[x, y]`, as `getRGB(x, y)` takes its
coordinates. `Length0` is the width and `Length1` the height. `Pixel` is the
range of a Java `int`, and `Channel` is 0..255.

The bit operations are written as arithmetic:
- `(p >> n) & 0xFF` is `(p / 2^n) % 256`. Dafny's division floors for a
  positive divisor, which matches the arithmetic shift of a two's-complement
  int.
- `(r << 16) | (g << 8) | b` is `r * 65536 + g * 256 + b`, because the three
  channels occupy disjoint bits.

`kernelSize / 2` is Java's truncating division (`Kernel.Pad`). A kernel
size of -1 gives `pad == 0` and a one-pixel window. A kernel size below -1
gives a negative `pad` and an empty window.

What the code does at its edges:
- The tiles form a diagonal band. The workers together write only the pixels
  whose coordinates have the same quotient by `kernelSize`, so most of the
  image keeps the destination's initial value. This, and the disjointness of
  the workers' writes, assumes that no Java `int` overflows: it fails once
  `qtThreads * |kernelSize|` reaches 2^31, because the tile corner
  `x += kernelSize` then wraps (with `kernelSize` 7 and `qtThreads`
  613566758 the last worker's corner is `(3, 3)`), or when a centre or tile
  coordinate comes within `kernelSize` of 2^31.
- A `qtThreads` of 0 or less starts no worker, and the image stays black.
- The kernel can divide by zero. A centre outside the image with
  `pad == 0`, or any centre with a negative `pad`, sees no pixel. The count
  is at least 1 for every centre inside the image with `kernelSize >= -1`
  (`Kernel.NoDivisionByZero`).

`RowSums`, `BoxSums` and `Neighborhood` are the specification functions for
the sums that the nested loops of lines 79-101 accumulate. Their properties
are stated by the lemmas about them in the table (`RowBounded`, `RowCount`,
`BoxBounded`, `BoxCount`, `NeighborhoodBounded`, `RowUniform`, `BoxUniform`).
`DivBound`, `FloorDiv`, `MulLe` and the other small lemmas about `*` and `/`
are arithmetic helpers and have no row.

## Model

| member | source | states |
|---|---|---|
| Rgb.Pack | src/concurrent/ImageMeanFilter.java:172-176 | packing three channels sets disjoint bytes: unpacking the packed pixel gives the same colour back, and the result lies in 0..2^24-1 |
| Rgb.Unpack | src/concurrent/ImageMeanFilter.java:87-92 | the red, green and blue channels extracted by the shifts and masks are the base-256 digits of the pixel's low 24 bits |
| Rgb.PackUnpack | src/concurrent/ImageMeanFilter.java:90-92 | packing the channels unpacked from any int keeps its low 24 bits and clears the alpha byte |
| Rgb.UnpackEqual | src/concurrent/ImageMeanFilter.java:90-92 | two pixels unpack to the same colour exactly when their low 24 bits agree |
| Kernel.Pad | src/concurrent/ImageMeanFilter.java:72 | `kernelSize / 2` truncates toward zero: the remainder `kernelSize - 2 * pad` is -1, 0 or 1 and has the sign of `kernelSize` (non-negative exactly when `kernelSize >= 0`, non-positive when it is negative), which fixes `pad` uniquely |
| Kernel.PadUnique | src/concurrent/ImageMeanFilter.java:72 | any `pad` meeting the three clauses of `Pad`'s contract is `Pad(kernelSize)`, so the contract pins down Java's truncating `kernelSize / 2` |
| Kernel.PadMinusOne | src/concurrent/ImageMeanFilter.java:72 | `-1 / 2` is 0 in Java, so a kernel size of -1 gives a one-pixel window |
| Kernel.InImage | src/concurrent/ImageMeanFilter.java:85 | the bounds test `0 <= x < width && 0 <= y < height`; a coordinate passes it only in an image with at least one row and one column |
| Kernel.Cell | src/concurrent/ImageMeanFilter.java:85-98 | one visited offset adds a count of 1 exactly when it passes the bounds test, and 0 otherwise, and adds channel sums within 0..255 times that count |
| Kernel.RowBounded | src/concurrent/ImageMeanFilter.java:90-98 | each channel sum of a row lies between 0 and 255 times the row's pixel count |
| Kernel.BoxBounded | src/concurrent/ImageMeanFilter.java:79-101 | each channel sum of a window lies between 0 and 255 times its pixel count |
| Kernel.NeighborhoodBounded | src/concurrent/ImageMeanFilter.java:79-101 | the window around any centre has bounded channel sums |
| Kernel.AverageOf | src/concurrent/ImageMeanFilter.java:69-109 | the kernel yields a colour exactly when the window holds at least one in-image pixel; otherwise the long division throws |
| Kernel.NeighborhoodAverage | src/concurrent/ImageMeanFilter.java:69-109 | the nested loops over `dy` and `dx`, with the bounds test, sum exactly the in-image pixels of the window and divide each channel by the count, or raise division by zero when the count is 0 |
| Kernel.RowCount | src/concurrent/ImageMeanFilter.java:80-98 | the count of a row of the window is the number of its x positions inside `[0, width)`, and 0 for a row outside `[0, height)` |
| Kernel.BoxCount | src/concurrent/ImageMeanFilter.java:79-101 | the count of the window is the product of its clipped width and clipped height |
| Kernel.RowOutsideImage | src/concurrent/ImageMeanFilter.java:85 | a row outside the image contributes nothing to any sum |
| Kernel.CountIsClippedArea | src/concurrent/ImageMeanFilter.java:72-101 | at a centre inside the image the count is `(min(cx+pad, w-1) - max(cx-pad, 0) + 1) * (min(cy+pad, h-1) - max(cy-pad, 0) + 1)` |
| Kernel.CornerCountsFour | src/concurrent/ImageMeanFilter.java:79-101 | at corner `(0, 0)` of an image of at least 2x2 a 3x3 kernel counts 4 pixels |
| Kernel.DividesByZeroIff | src/concurrent/ImageMeanFilter.java:85-108 | the kernel divides by zero if and only if `pad < 0` or the window misses the image in x or in y |
| Kernel.NoDivisionByZero | src/concurrent/ImageMeanFilter.java:85-108 | at a centre inside the image with `kernelSize >= -1` the count is at least 1, so the kernel yields a colour |
| Kernel.AverageIsFloorMean | src/concurrent/ImageMeanFilter.java:104-108 | each result channel is the floor of its sum divided by the count: `c * n <= sum < (c + 1) * n` |
| Kernel.KernelOneIsIdentity | src/concurrent/ImageMeanFilter.java:72-108 | with `pad == 0` (`kernelSize` -1, 0 or 1) the kernel returns the centre pixel's own channels |
| Kernel.RowUniform | src/concurrent/ImageMeanFilter.java:80-98 | a row whose in-image pixels all have colour `c` sums to `count` times `c` |
| Kernel.BoxUniform | src/concurrent/ImageMeanFilter.java:79-101 | a window whose in-image pixels all have colour `c` sums to `count` times `c` |
| Kernel.UniformNeighborhood | src/concurrent/ImageMeanFilter.java:69-109 | a window whose in-image pixels all have one colour averages to that colour |
| Worker.WritesBeforeFailure | src/concurrent/ImageMeanFilter.java:166-176 | when the worker stops at a failing tile pixel, it has written exactly the tile pixels before it in row-major order, and the tile was not clean |
| Worker.OkThrough | src/concurrent/ImageMeanFilter.java:166-169 | after one more pixel has been processed without raising, every tile pixel up to and including it was processable |
| Worker.WritesWholeTile | src/concurrent/ImageMeanFilter.java:166-178 | a worker whose tile has no failing pixel writes the whole tile |
| Worker.Run | src/concurrent/ImageMeanFilter.java:162-179 | the worker completes exactly when every tile pixel can be processed; otherwise it reports the first failing pixel and which exception it raised; every destination pixel it wrote holds the packed average and every other keeps its old value; the source is unchanged |
| Worker.InImageOk | src/concurrent/ImageMeanFilter.java:169-172 | with `kernelSize >= -1` every pixel inside the image is processed without an exception |
| Worker.TileInsideImage | src/concurrent/ImageMeanFilter.java:166-176 | a tile inside the image is written whole |
| Worker.TileCornerOutside | src/concurrent/ImageMeanFilter.java:166-176 | a non-empty tile whose corner is outside the image writes nothing |
| Worker.TileCrossesRightEdge | src/concurrent/ImageMeanFilter.java:166-176 | a tile that starts inside but crosses the right edge writes only the in-image part of its first row |
| Worker.TileCrossesBottomEdge | src/concurrent/ImageMeanFilter.java:166-176 | a tile that fits the width but crosses the bottom edge writes exactly its in-image rows |
| MeanFilter.BandStep | src/concurrent/ImageMeanFilter.java:47-53 | the pixels written by the first `n + 1` workers are those of the first `n` plus those of worker `n` |
| MeanFilter.BandWritesOk | src/concurrent/ImageMeanFilter.java:47-53 | every pixel a worker writes could be computed without an exception |
| MeanFilter.Dispatch | src/concurrent/ImageMeanFilter.java:45-53 | the loop runs `max(qtThreads, 0)` workers on tiles `(i*k, i*k)` one after another; worker `i` completes exactly when its tile is clean; the destination holds the filtered value exactly on the pixels some worker wrote and is otherwise unchanged; the source is unchanged |
| MeanFilter.ApplyMeanFilter | src/concurrent/ImageMeanFilter.java:38-53 | the result is a fresh image of the source's size holding the filtered value where a worker wrote and 0 elsewhere; worker `i` completes exactly when its tile is clean |
| MeanFilter.TileByQuotient | src/concurrent/ImageMeanFilter.java:48-50 | for `k > 0`, tile `i` is the set of pixels whose two coordinates both have floor quotient `i` by `k` |
| MeanFilter.QuotientBounds | src/concurrent/ImageMeanFilter.java:166-167 | `i*k <= x < i*k + k` exactly when `x / k == i` |
| MeanFilter.BandIsDiagonal | src/concurrent/ImageMeanFilter.java:45-53 | only pixels on the diagonal band are written: `kernelSize > 0`, `x / k == y / k`, and that quotient is a worker that ran |
| MeanFilter.WorkersDisjoint | src/concurrent/ImageMeanFilter.java:45-53 | two different workers never write the same pixel |
| MeanFilter.OffDiagonalUnwritten | src/concurrent/ImageMeanFilter.java:45-53 | pixel `(kernelSize, 0)` is never written, whatever the number of workers |
| MeanFilter.BandInsideImage | src/concurrent/ImageMeanFilter.java:45-53 | when all `n` tiles fit in the image, the written pixels are exactly those with `x / k == y / k < n` |
| MeanFilter.RedDotCells | src/concurrent/ImageMeanFilter.java:87-92 | in the 4x4 example every pixel contributes its unpacked channels and a count of 1 |
| MeanFilter.RedDotCentre | src/concurrent/ImageMeanFilter.java:69-109 | in the example, the 3x3 average at `(1, 1)` is red 255 / 9 = 28 |
| MeanFilter.RedDotCorner | src/concurrent/ImageMeanFilter.java:69-109 | in the example, the 3x3 average at the corner `(0, 0)` is red 255 / 4 = 63 |
| MeanFilter.RedDotTwoWorkers | src/concurrent/ImageMeanFilter.java:45-53 | with two workers and `kernelSize` 3, pixels `(1, 1)`, `(0, 0)` and `(3, 3)` are written with their averages and `(3, 0)` is not |

## Left out

- Image I/O (`ImageIO.read` and `ImageIO.write`, lines 35 and 57): the source image is a parameter and the destination a returned array.
- `BufferedImage` allocation and its colour model (lines 38-42): the destination is a fresh `array2` of the source's size filled with 0, the value the raster of a new `TYPE_INT_RGB` image holds (`getRGB` on it would report `0xFF000000`, with the alpha byte set). The alpha byte that `getRGB` adds is not modelled; the kernel ignores it anyway.
- Thread creation, `start` and `join` (lines 48, 51-52). Because each worker is joined before the next is created, the workers run one after another, and `Dispatch` is a sequential loop.
- An exception inside a worker thread does not reach `applyMeanFilter`. The model returns it as that worker's `Outcome` and continues with the next worker, as `join` does. The stack trace that Java's default uncaught-exception handler prints to standard error for such a worker is not modelled.
- `main` (lines 127-141): argument handling, `Integer.parseInt` and the error messages are command-line handling, outside the filter.
- 32-bit overflow is not modelled: coordinates are unbounded integers. It happens when `qtThreads * |kernelSize|` reaches 2^31, since the tile steps `x += kernelSize; y += kernelSize` (lines 49-50) then wrap, or when a centre or tile coordinate comes within `kernelSize` of 2^31 (`centerX + dx`, `x_value + window_size`). The first needs some 6 * 10^8 workers run one after another; the second needs a kernel or an image of about 2^31 pixels on a side. `MeanFilter.BandIsDiagonal`, `MeanFilter.WorkersDisjoint` and `MeanFilter.BandInsideImage` hold for the Java program only while neither happens: a wrapped tile corner can start a tile off the band, over pixels an earlier worker wrote.
- Overflow of the `long` channel sums and the `(int)` casts of the averages: both are unbounded integers here. The sums are at most 255 times the pixel count, and the averages are proved to lie in 0..255, so no cast changes a value.

/** The neighbourhood averaging kernel, `calculateNeighborhoodAverage`.
 *
 *  An image is an `array2<Pixel>` indexed `[x, y]`: `Length0` is the width
 *  and `Length1` the height, as `getRGB(x, y)` takes its coordinates.
 */
module Kernel {
  import opened Rgb

  /** What the kernel yields: the per-channel averages, or the
   *  `ArithmeticException` that Java's long division by a zero pixel count
   *  throws. */
  datatype Average = Mean(color: Color) | DivisionByZero

  /** Running sums of the three channels and the number of pixels summed. */
  datatype Sums = Sums(red: int, green: int, blue: int, count: int)

  /** The sums of no pixels. */
  function Zero(): Sums { Sums(0, 0, 0, 0) }

  /** The sums of two disjoint sets of pixels. */
  function Plus(s: Sums, t: Sums): Sums {
    Sums(s.red + t.red, s.green + t.green, s.blue + t.blue, s.count + t.count)
  }

  /** Each sum is a sum of `count` channel values, all in 0..255. */
  predicate Bounded(s: Sums) {
    && 0 <= s.count
    && 0 <= s.red <= 255 * s.count
    && 0 <= s.green <= 255 * s.count
    && 0 <= s.blue <= 255 * s.count
  }

  /** `kernelSize / 2` with Java's division, which truncates toward zero. */
  function Pad(kernelSize: int): (pad: int)
    ensures -1 <= kernelSize - 2 * pad <= 1
    ensures kernelSize >= 0 <==> pad >= 0 && kernelSize - 2 * pad >= 0
    ensures kernelSize < 0 ==> kernelSize - 2 * pad <= 0
  {
    if kernelSize >= 0 then kernelSize / 2 else -((-kernelSize) / 2)
  }

  /** The contract of `Pad` determines its result: truncating halving is the
   *  only one with a remainder of -1, 0 or 1 that has the sign of `kernelSize`. */
  lemma PadUnique(kernelSize: int, pad: int)
    requires -1 <= kernelSize - 2 * pad <= 1
    requires kernelSize >= 0 <==> pad >= 0 && kernelSize - 2 * pad >= 0
    requires kernelSize < 0 ==> kernelSize - 2 * pad <= 0
    ensures pad == Pad(kernelSize)
  {
  }

  /** At `kernelSize == -1` the window is the centre pixel alone. */
  lemma PadMinusOne()
    ensures Pad(-1) == 0
  {
  }

  /** The bounds test of the kernel: `x >= 0 && x < width && y >= 0 && y < height`. */
  predicate InImage(img: array2<Pixel>, x: int, y: int)
    ensures InImage(img, x, y) ==> 0 < img.Length0 && 0 < img.Length1
  {
    0 <= x < img.Length0 && 0 <= y < img.Length1
  }

  /** What pixel `(x, y)` adds to the sums: its channels and a count of one
   *  if it is inside the image, nothing otherwise. */
  function Cell(img: array2<Pixel>, x: int, y: int): (c: Sums)
    reads img
    ensures Bounded(c)
    ensures c.count == if InImage(img, x, y) then 1 else 0
  {
    if InImage(img, x, y) then
      var c := Unpack(img[x, y]);
      Sums(c.red, c.green, c.blue, 1)
    else Zero()
  }

  /** Sums of the in-image pixels `(x, y)` of row `y` with `x0 <= x < x1`.
   *  The body adds the last cell field by field; this is `Plus`, written out
   *  because a call to `Plus` here makes the proofs of the nested loops in
   *  `NeighborhoodAverage` unstable. */
  function RowSums(img: array2<Pixel>, x0: int, x1: int, y: int): Sums
    reads img
    decreases x1 - x0
  {
    if x1 <= x0 then Zero()
    else
      var s, c := RowSums(img, x0, x1 - 1, y), Cell(img, x1 - 1, y);
      Sums(s.red + c.red, s.green + c.green, s.blue + c.blue, s.count + c.count)
  }

  /** Sums of the in-image pixels of the box `[x0, x1) x [y0, y1)`, row by row.
   *  As in `RowSums`, the last row is added field by field, which is `Plus`. */
  function BoxSums(img: array2<Pixel>, x0: int, x1: int, y0: int, y1: int): Sums
    reads img
    decreases y1 - y0
  {
    if y1 <= y0 then Zero()
    else
      var s, r := BoxSums(img, x0, x1, y0, y1 - 1), RowSums(img, x0, x1, y1 - 1);
      Sums(s.red + r.red, s.green + r.green, s.blue + r.blue, s.count + r.count)
  }

  /** The sums of a row stay within `count` times the channel range. */
  lemma {:induction false} RowBounded(img: array2<Pixel>, x0: int, x1: int, y: int)
    ensures Bounded(RowSums(img, x0, x1, y))
    decreases x1 - x0
  {
    if x1 > x0 {
      RowBounded(img, x0, x1 - 1, y);
    }
  }

  /** The sums of a box stay within `count` times the channel range. */
  lemma {:induction false} BoxBounded(img: array2<Pixel>, x0: int, x1: int, y0: int, y1: int)
    ensures Bounded(BoxSums(img, x0, x1, y0, y1))
    decreases y1 - y0
  {
    if y1 > y0 {
      BoxBounded(img, x0, x1, y0, y1 - 1);
      RowBounded(img, x0, x1, y1 - 1);
    }
  }

  /** The sums over the `[-pad, pad]^2` neighbourhood of `(cx, cy)`. */
  function Neighborhood(img: array2<Pixel>, cx: int, cy: int, kernelSize: int): Sums
    reads img
  {
    var pad := Pad(kernelSize);
    BoxSums(img, cx - pad, cx + pad + 1, cy - pad, cy + pad + 1)
  }

  lemma NeighborhoodBounded(img: array2<Pixel>, cx: int, cy: int, kernelSize: int)
    ensures Bounded(Neighborhood(img, cx, cy, kernelSize))
  {
    var pad := Pad(kernelSize);
    BoxBounded(img, cx - pad, cx + pad + 1, cy - pad, cy + pad + 1);
  }

  lemma DivBound(a: int, n: int)
    requires 0 < n && 0 <= a <= 255 * n
    ensures 0 <= a / n <= 255
  {
  }

  /** The kernel's result as a function of the image: floor division of each
   *  channel sum by the pixel count, or a division by zero. */
  function AverageOf(img: array2<Pixel>, cx: int, cy: int, kernelSize: int): (r: Average)
    reads img
    ensures r.Mean? <==> Neighborhood(img, cx, cy, kernelSize).count > 0
  {
    var s := Neighborhood(img, cx, cy, kernelSize);
    var pad := Pad(kernelSize);
    BoxBounded(img, cx - pad, cx + pad + 1, cy - pad, cy + pad + 1);
    if s.count == 0 then DivisionByZero
    else
      DivBound(s.red, s.count);
      DivBound(s.green, s.count);
      DivBound(s.blue, s.count);
      Mean(Color(s.red / s.count, s.green / s.count, s.blue / s.count))
  }

  /** `calculateNeighborhoodAverage`: visits the offsets row by row, skips
   *  those outside the image, sums the channels of the rest and divides. */
  method NeighborhoodAverage(img: array2<Pixel>, centerX: int, centerY: int, kernelSize: int)
    returns (r: Average)
    ensures r == AverageOf(img, centerX, centerY, kernelSize)
  {
    var width := img.Length0;
    var height := img.Length1;
    var pad := Pad(kernelSize);
    var redSum: int, greenSum: int, blueSum: int, pixelCount: int := 0, 0, 0, 0;
    var dy := -pad;
    while dy <= pad
      invariant dy == -pad || dy <= pad + 1
      invariant Sums(redSum, greenSum, blueSum, pixelCount)
             == BoxSums(img, centerX - pad, centerX + pad + 1, centerY - pad, centerY + dy)
      decreases pad - dy
    {
      ghost var rowsAbove := Sums(redSum, greenSum, blueSum, pixelCount);
      var dx := -pad;
      while dx <= pad
        invariant -pad <= dx <= pad + 1
        invariant Sums(redSum - rowsAbove.red, greenSum - rowsAbove.green,
                       blueSum - rowsAbove.blue, pixelCount - rowsAbove.count)
               == RowSums(img, centerX - pad, centerX + dx, centerY + dy)
        decreases pad - dx
      {
        var x := centerX + dx;
        var y := centerY + dy;
        if x >= 0 && x < width && y >= 0 && y < height {
          var rgb := img[x, y];
          var red := Red(rgb);
          var green := Green(rgb);
          var blue := Blue(rgb);
          redSum := redSum + red;
          greenSum := greenSum + green;
          blueSum := blueSum + blue;
          pixelCount := pixelCount + 1;
        }
        dx := dx + 1;
      }
      assert Sums(redSum, greenSum, blueSum, pixelCount)
          == BoxSums(img, centerX - pad, centerX + pad + 1, centerY - pad, centerY + dy + 1);
      dy := dy + 1;
    }
    assert Sums(redSum, greenSum, blueSum, pixelCount) == Neighborhood(img, centerX, centerY, kernelSize);
    if pixelCount == 0 {
      return DivisionByZero;
    }
    NeighborhoodBounded(img, centerX, centerY, kernelSize);
    assert Bounded(Sums(redSum, greenSum, blueSum, pixelCount));
    DivBound(redSum, pixelCount);
    DivBound(greenSum, pixelCount);
    DivBound(blueSum, pixelCount);
    r := Mean(Color(redSum / pixelCount, greenSum / pixelCount, blueSum / pixelCount));
  }

  // ---------------------------------------------------------------------
  // What the kernel computes

  function Min(a: int, b: int): int { if a <= b then a else b }
  function Max(a: int, b: int): int { if a <= b then b else a }

  /** How many integers of `[lo, hi)` lie in `[0, n)`. */
  function Clip(lo: int, hi: int, n: int): (c: nat) {
    if Min(hi, n) > Max(lo, 0) then Min(hi, n) - Max(lo, 0) else 0
  }

  lemma {:induction false} RowCount(img: array2<Pixel>, x0: int, x1: int, y: int)
    ensures RowSums(img, x0, x1, y).count
         == if 0 <= y < img.Length1 then Clip(x0, x1, img.Length0) else 0
    decreases x1 - x0
  {
    if x1 > x0 {
      RowCount(img, x0, x1 - 1, y);
      assert RowSums(img, x0, x1, y).count
          == RowSums(img, x0, x1 - 1, y).count + Cell(img, x1 - 1, y).count;
      assert Cell(img, x1 - 1, y).count == if InImage(img, x1 - 1, y) then 1 else 0;
    }
  }

  lemma {:induction false} BoxCount(img: array2<Pixel>, x0: int, x1: int, y0: int, y1: int)
    ensures BoxSums(img, x0, x1, y0, y1).count
         == Clip(x0, x1, img.Length0) * Clip(y0, y1, img.Length1)
    decreases y1 - y0
  {
    var w := Clip(x0, x1, img.Length0);
    if y1 <= y0 {
      assert Clip(y0, y1, img.Length1) == 0;
      assert w * 0 == 0;
    } else {
      var h := Clip(y0, y1 - 1, img.Length1);
      assert w * h + w == w * (h + 1);
      BoxCount(img, x0, x1, y0, y1 - 1);
      RowCount(img, x0, x1, y1 - 1);
      var before := BoxSums(img, x0, x1, y0, y1 - 1).count;
      assert BoxSums(img, x0, x1, y0, y1).count == before + RowSums(img, x0, x1, y1 - 1).count;
      if 0 <= y1 - 1 < img.Length1 {
        assert Clip(y0, y1, img.Length1) == h + 1;
      } else {
        assert Clip(y0, y1, img.Length1) == h;
      }
    }
  }

  /** A row outside the image contributes nothing. */
  lemma {:induction false} RowOutsideImage(img: array2<Pixel>, x0: int, x1: int, y: int)
    requires !(0 <= y < img.Length1)
    ensures RowSums(img, x0, x1, y) == Zero()
    decreases x1 - x0
  {
    if x1 > x0 {
      RowOutsideImage(img, x0, x1 - 1, y);
    }
  }

  /** The pixel count is the area of the neighbourhood clipped to the image;
   *  at a centre inside the image that is the product of the clipped side
   *  lengths `min(c + pad, n - 1) - max(c - pad, 0) + 1`. */
  lemma CountIsClippedArea(img: array2<Pixel>, cx: int, cy: int, kernelSize: int)
    requires InImage(img, cx, cy) && kernelSize >= -1
    ensures var pad := Pad(kernelSize);
            Neighborhood(img, cx, cy, kernelSize).count
            == (Min(cx + pad, img.Length0 - 1) - Max(cx - pad, 0) + 1)
             * (Min(cy + pad, img.Length1 - 1) - Max(cy - pad, 0) + 1)
  {
    var pad := Pad(kernelSize);
    BoxCount(img, cx - pad, cx + pad + 1, cy - pad, cy + pad + 1);
  }

  /** At the corner `(0, 0)` a 3x3 kernel sees only a 2x2 square of the image. */
  lemma CornerCountsFour(img: array2<Pixel>)
    requires img.Length0 >= 2 && img.Length1 >= 2
    ensures Neighborhood(img, 0, 0, 3).count == 4
  {
    assert Pad(3) == 1;
    BoxCount(img, -1, 2, -1, 2);
    var cw, ch := Clip(-1, 2, img.Length0), Clip(-1, 2, img.Length1);
    assert cw == 2 && ch == 2;
    assert cw * ch == 4;
  }

  /** The kernel divides by zero exactly when no pixel of the image lies within
   *  `pad` of the centre in both directions; a negative `pad` (kernel sizes
   *  below -1) leaves the neighbourhood empty everywhere. */
  lemma DividesByZeroIff(img: array2<Pixel>, cx: int, cy: int, kernelSize: int)
    ensures var pad := Pad(kernelSize);
            AverageOf(img, cx, cy, kernelSize).DivisionByZero?
            <==> !(&& pad >= 0
                   && 0 < img.Length0 && cx - pad < img.Length0 && 0 <= cx + pad
                   && 0 < img.Length1 && cy - pad < img.Length1 && 0 <= cy + pad)
  {
    var pad := Pad(kernelSize);
    BoxCount(img, cx - pad, cx + pad + 1, cy - pad, cy + pad + 1);
    ProductZero(Clip(cx - pad, cx + pad + 1, img.Length0), Clip(cy - pad, cy + pad + 1, img.Length1));
  }

  lemma ProductZero(a: nat, b: nat)
    ensures a * b == 0 <==> a == 0 || b == 0
  {
    if a > 0 && b > 0 {
      assert a * b >= b by { MulMono(a, b); }
    }
  }

  lemma MulMono(a: nat, b: nat)
    requires a >= 1
    ensures a * b >= b
  {
    assert a * b == (a - 1) * b + b;
  }

  /** No division by zero: at a centre inside the image the centre itself is
   *  counted. */
  lemma NoDivisionByZero(img: array2<Pixel>, cx: int, cy: int, kernelSize: int)
    requires InImage(img, cx, cy) && kernelSize >= -1
    ensures Neighborhood(img, cx, cy, kernelSize).count >= 1
    ensures AverageOf(img, cx, cy, kernelSize).Mean?
  {
    DividesByZeroIff(img, cx, cy, kernelSize);
  }

  /** Each channel of the result is the floor of the channel sum divided by
   *  the pixel count. */
  lemma AverageIsFloorMean(img: array2<Pixel>, cx: int, cy: int, kernelSize: int)
    requires AverageOf(img, cx, cy, kernelSize).Mean?
    ensures var s, c := Neighborhood(img, cx, cy, kernelSize), AverageOf(img, cx, cy, kernelSize).color;
            && c.red * s.count <= s.red < (c.red + 1) * s.count
            && c.green * s.count <= s.green < (c.green + 1) * s.count
            && c.blue * s.count <= s.blue < (c.blue + 1) * s.count
  {
    var s := Neighborhood(img, cx, cy, kernelSize);
    assert AverageOf(img, cx, cy, kernelSize).color
        == Color(s.red / s.count, s.green / s.count, s.blue / s.count);
    FloorDiv(s.red, s.count);
    FloorDiv(s.green, s.count);
    FloorDiv(s.blue, s.count);
  }

  lemma FloorDiv(a: int, n: int)
    requires n > 0
    ensures (a / n) * n <= a < (a / n + 1) * n
  {
    var q, r := a / n, a % n;
    assert a == q * n + r;
    assert (q + 1) * n == q * n + n;
  }

  /** With `pad == 0` (kernel sizes -1, 0 and 1) the kernel returns the
   *  centre pixel's own channels. */
  lemma KernelOneIsIdentity(img: array2<Pixel>, cx: int, cy: int, kernelSize: int)
    requires InImage(img, cx, cy) && -1 <= kernelSize <= 1
    ensures AverageOf(img, cx, cy, kernelSize) == Mean(Unpack(img[cx, cy]))
  {
    var c := Unpack(img[cx, cy]);
    assert Pad(kernelSize) == 0;
    assert RowSums(img, cx, cx + 1, cy) == Sums(c.red, c.green, c.blue, 1);
    assert BoxSums(img, cx, cx + 1, cy, cy + 1) == Sums(c.red, c.green, c.blue, 1);
    assert Neighborhood(img, cx, cy, kernelSize) == Sums(c.red, c.green, c.blue, 1);
  }

  /** Every in-image pixel of the box `[x0, x1) x [y0, y1)` has colour `c`. */
  predicate UniformBox(img: array2<Pixel>, x0: int, x1: int, y0: int, y1: int, c: Color)
    reads img
  {
    forall x, y :: InImage(img, x, y) && x0 <= x < x1 && y0 <= y < y1 ==> Unpack(img[x, y]) == c
  }

  function Scaled(c: Color, n: int): Sums {
    Sums(c.red * n, c.green * n, c.blue * n, n)
  }

  lemma {:induction false} RowUniform(img: array2<Pixel>, x0: int, x1: int, y: int, c: Color)
    requires UniformBox(img, x0, x1, y, y + 1, c)
    ensures RowSums(img, x0, x1, y) == Scaled(c, RowSums(img, x0, x1, y).count)
    decreases x1 - x0
  {
    if x1 > x0 {
      RowUniform(img, x0, x1 - 1, y, c);
      var n := RowSums(img, x0, x1 - 1, y).count;
      if InImage(img, x1 - 1, y) {
        ScaledStep(c, n, 1);
      }
    }
  }

  lemma {:induction false} BoxUniform(img: array2<Pixel>, x0: int, x1: int, y0: int, y1: int, c: Color)
    requires UniformBox(img, x0, x1, y0, y1, c)
    ensures BoxSums(img, x0, x1, y0, y1) == Scaled(c, BoxSums(img, x0, x1, y0, y1).count)
    decreases y1 - y0
  {
    if y1 > y0 {
      BoxUniform(img, x0, x1, y0, y1 - 1, c);
      RowUniform(img, x0, x1, y1 - 1, c);
      assert BoxSums(img, x0, x1, y0, y1)
          == Plus(BoxSums(img, x0, x1, y0, y1 - 1), RowSums(img, x0, x1, y1 - 1));
      ScaledStep(c, BoxSums(img, x0, x1, y0, y1 - 1).count, RowSums(img, x0, x1, y1 - 1).count);
    }
  }

  lemma ScaledStep(c: Color, m: int, n: int)
    ensures Plus(Scaled(c, m), Scaled(c, n)) == Scaled(c, m + n)
  {
    assert c.red * m + c.red * n == c.red * (m + n);
    assert c.green * m + c.green * n == c.green * (m + n);
    assert c.blue * m + c.blue * n == c.blue * (m + n);
  }

  lemma ScaledDiv(a: int, n: int)
    requires n > 0
    ensures (a * n) / n == a
  {
    var q, r := (a * n) / n, (a * n) % n;
    assert (a - q) * n == r;
    if a - q >= 1 {
      MulMono(a - q, n);
    }
  }

  /** A neighbourhood whose in-image pixels all have one colour averages to
   *  that colour. */
  lemma UniformNeighborhood(img: array2<Pixel>, cx: int, cy: int, kernelSize: int, c: Color)
    requires AverageOf(img, cx, cy, kernelSize).Mean?
    requires UniformBox(img, cx - Pad(kernelSize), cx + Pad(kernelSize) + 1,
                        cy - Pad(kernelSize), cy + Pad(kernelSize) + 1, c)
    ensures AverageOf(img, cx, cy, kernelSize) == Mean(c)
  {
    var pad := Pad(kernelSize);
    BoxUniform(img, cx - pad, cx + pad + 1, cy - pad, cy + pad + 1, c);
    var n := Neighborhood(img, cx, cy, kernelSize).count;
    ScaledDiv(c.red, n);
    ScaledDiv(c.green, n);
    ScaledDiv(c.blue, n);
  }
}

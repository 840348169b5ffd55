/**
  edgeDetect: the Sobel operator on the grey image. Each interior pixel gets
  the gradient magnitude in R, G and B and alpha 255; the one-pixel border
  stays transparent black.
 */
module EdgeDetection {
  import opened Uint8Clamped
  import opened Images
  import opened Kernels
  import opened Sweep
  import opened Neighbourhoods
  import opened Arithmetic

  /** Three times the horizontal Sobel gradient pixelX at (x, y). */
  function GradientX(w: nat, h: nat, src: seq<Byte>, x: int, y: int): int
    requires |src| == w * h * 4 && Interior(w, h, x, y)
  {
    Convolve(SOBEL_X, GreyNeighbourhood(w, h, src, x, y), 9)
  }

  /** Three times the vertical Sobel gradient pixelY at (x, y). */
  function GradientY(w: nat, h: nat, src: seq<Byte>, x: int, y: int): int
    requires |src| == w * h * 4 && Interior(w, h, x, y)
  {
    Convolve(SOBEL_Y, GreyNeighbourhood(w, h, src, x, y), 9)
  }

  function Square(a: int): int {
    a * a
  }

  /** m is sqrt(n) / 3 capped at 255 and rounded to the nearest integer:
        m - 1/2 <= sqrt(n) / 3   unless m is 0, and
        sqrt(n) / 3 < m + 1/2    unless m is 255,
      both sides squared and scaled by 36. (No tie is possible: 4 * n is
      even and 9 * Square(2 * m + 1) is odd.) */
  predicate RoundedRoot(n: int, m: int) {
    && 0 <= m <= 255
    && (m == 0 || 9 * Square(2 * m - 1) <= 4 * n)
    && (m == 255 || 4 * n < 9 * Square(2 * m + 1))
  }

  /** The byte stored for an edge magnitude. With gx, gy three times the
      TypeScript code's pixelX, pixelY, the magnitude min(255, sqrt(pixelX * pixelX +
      pixelY * pixelY)) is sqrt(gx * gx + gy * gy) / 3 capped at 255, and the
      store rounds it to the nearest integer. */
  function MagnitudeByte(gx: int, gy: int): (m: Byte)
    ensures RoundedRoot(Square(gx) + Square(gy), m)
  {
    SquareNonNegative(gx);
    SquareNonNegative(gy);
    NearestRootFrom(Square(gx) + Square(gy), 0)
  }

  /** The first candidate m >= k whose upper half-interval still contains
      sqrt(n) / 3, or 255 when there is none. */
  function NearestRootFrom(n: nat, k: nat): (m: nat)
    requires k <= 255
    requires k == 0 || 9 * Square(2 * k - 1) <= 4 * n
    ensures k <= m && RoundedRoot(n, m)
    decreases 255 - k
  {
    if k == 255 || 4 * n < 9 * Square(2 * k + 1) then k
    else NearestRootFrom(n, k + 1)
  }

  lemma SquareNonNegative(a: int)
    ensures Square(a) >= 0
  {
  }

  lemma SquareMonotonic(a: int, b: int)
    requires 0 <= a <= b
    ensures Square(a) <= Square(b)
  {
    ScaleMonotonic(a, a, b);
    ScaleMonotonic(b, a, b);
  }

  /** RoundedRoot pins the byte down: at most one byte satisfies it, so
      MagnitudeByte is the rounded magnitude and nothing else. */
  lemma {:induction false} RoundedRootUnique(n: int, m1: int, m2: int)
    requires RoundedRoot(n, m1) && RoundedRoot(n, m2)
    ensures m1 == m2
  {
    if m1 < m2 {
      SquareMonotonic(2 * m1 + 1, 2 * m2 - 1);
    } else if m2 < m1 {
      SquareMonotonic(2 * m2 + 1, 2 * m1 - 1);
    }
  }

  /** No gradient, no edge. */
  lemma MagnitudeByteZero()
    ensures MagnitudeByte(0, 0) == 0
  {
  }

  /** The value edgeDetect stores in channel c of interior pixel (x, y). */
  ghost function EdgeValue(w: nat, h: nat, src: seq<Byte>, x: int, y: int, c: int): Byte
    requires |src| == w * h * 4 && Interior(w, h, x, y)
  {
    if c == 3 then 255 else MagnitudeByte(GradientX(w, h, src, x, y), GradientY(w, h, src, x, y))
  }

  /** The two Sobel sums of edgeDetect at interior pixel (x, y): the loops
      over ky and kx accumulate gx and gy times the grey value of each
      neighbour (here r + g + b, three times the grey value). */
  method SobelAt(imageData: ImageData, x: int, y: int) returns (pixelX: int, pixelY: int)
    requires imageData.Valid() && Interior(imageData.width, imageData.height, x, y)
    ensures pixelX == GradientX(imageData.width, imageData.height, imageData.data[..], x, y)
    ensures pixelY == GradientY(imageData.width, imageData.height, imageData.data[..], x, y)
  {
    var width: int := imageData.width;
    ghost var grey := GreyNeighbourhood(imageData.width, imageData.height, imageData.data[..], x, y);
    // the number of taps visited so far
    ghost var n := 0;
    pixelX, pixelY := 0, 0;
    var ky := -1;
    while ky <= 1
      invariant -1 <= ky <= 2 && n == 3 * (ky + 1)
      invariant pixelX == Convolve(SOBEL_X, grey, n)
      invariant pixelY == Convolve(SOBEL_Y, grey, n)
    {
      var kx := -1;
      while kx <= 1
        invariant -1 <= kx <= 2 && n == 3 * (ky + 1) + (kx + 1)
        invariant pixelX == Convolve(SOBEL_X, grey, n)
        invariant pixelY == Convolve(SOBEL_Y, grey, n)
      {
        NeighbourInBounds(imageData.width, imageData.height, x, y, ky, kx);
        var idx := ((y + ky) * width + (x + kx)) * 4;
        var r: int := imageData.data[idx];
        var g: int := imageData.data[idx + 1];
        var b: int := imageData.data[idx + 2];
        // three times the TypeScript code's gray = (r + g + b) / 3
        var gray: int := r + g + b;
        GreyTap(imageData.width, imageData.height, imageData.data[..], x, y, ky, kx);
        AccumulateStep(SOBEL_X, grey, ky, kx, pixelX, gray);
        AccumulateStep(SOBEL_Y, grey, ky, kx, pixelY, gray);
        pixelX := pixelX + SOBEL_X[ky + 1][kx + 1] * gray;
        pixelY := pixelY + SOBEL_Y[ky + 1][kx + 1] * gray;
        n := n + 1;
        kx := kx + 1;
      }
      ky := ky + 1;
    }
  }

  /** edgeDetect: Sobel gradient magnitude of the grey image at every
      interior pixel, written to R, G and B, with alpha 255. */
  method EdgeDetect(imageData: ImageData) returns (output: ImageData)
    requires imageData.Valid()
    ensures fresh(output) && fresh(output.data) && output.Valid()
    ensures output.width == imageData.width && output.height == imageData.height
    ensures imageData.data[..] == old(imageData.data[..])
    ensures forall x, y, c | InImage(imageData.width, imageData.height, x, y) && !Interior(imageData.width, imageData.height, x, y) && 0 <= c < 4 ::
      Channel(output.data[..], imageData.width, imageData.height, x, y, c) == 0
    ensures forall x, y | Interior(imageData.width, imageData.height, x, y) ::
      Channel(output.data[..], imageData.width, imageData.height, x, y, 3) == 255
    ensures forall x, y, c | Interior(imageData.width, imageData.height, x, y) && 0 <= c < 3 ::
      Channel(output.data[..], imageData.width, imageData.height, x, y, c) ==
        MagnitudeByte(GradientX(imageData.width, imageData.height, imageData.data[..], x, y),
                      GradientY(imageData.width, imageData.height, imageData.data[..], x, y))
  {
    var width: int := imageData.width;
    var height: int := imageData.height;
    output := new ImageData(width, height);
    ghost var src := imageData.data[..];
    ghost var value := (x: int, y: int, c: int) =>
      if Interior(width, height, x, y) then EdgeValue(width, height, src, x, y, c) else 0;
    FilledStart(output.data[..], width, height, value);

    var y := 1;
    while y < height - 1
      invariant 1 <= y && (y <= height - 1 || y == 1)
      invariant output.data.Length == |src| == width * height * 4
      invariant FilledBefore(output.data[..], width, height, value, 0, y)
    {
      FilledRowStart(output.data[..], width, height, value, y);
      var x := 1;
      while x < width - 1
        invariant 1 <= x && (x <= width - 1 || x == 1)
        invariant output.data.Length == |src| == width * height * 4
        invariant FilledBefore(output.data[..], width, height, value, x, y)
      {
        var pixelX, pixelY := SobelAt(imageData, x, y);
        var magnitude := MagnitudeByte(pixelX, pixelY);
        ghost var before := output.data[..];
        StorePixel(output.data, width, height, x, y, magnitude, magnitude, magnitude, 255);
        FilledStep(before, output.data[..], width, height, value, x, y, magnitude, magnitude, magnitude, 255);
        x := x + 1;
      }
      FilledRowEnd(output.data[..], width, height, value, x, y);
      y := y + 1;
    }
    FilledAll(output.data[..], width, height, value, y);
  }

  /** A flat neighbourhood (every neighbour the same grey) has no gradient:
      the Sobel kernels sum to zero, so the pixel is stored black. */
  lemma FlatNeighbourhoodNoEdge(w: nat, h: nat, src: seq<Byte>, x: int, y: int)
    requires |src| == w * h * 4 && Interior(w, h, x, y)
    requires forall t | 0 <= t < 9 :: GreyNeighbourhood(w, h, src, x, y)[t] == GreyNeighbourhood(w, h, src, x, y)[4]
    ensures GradientX(w, h, src, x, y) == 0 && GradientY(w, h, src, x, y) == 0
    ensures forall c | 0 <= c < 3 :: EdgeValue(w, h, src, x, y, c) == 0
  {
    var grey := GreyNeighbourhood(w, h, src, x, y);
    SobelFlat(grey, grey[4]);
    assert GradientX(w, h, src, x, y) == 0;
    assert GradientY(w, h, src, x, y) == 0;
    MagnitudeByteZero();
    assert MagnitudeByte(GradientX(w, h, src, x, y), GradientY(w, h, src, x, y)) == 0;
  }

  /** On an image of one colour every interior pixel of the edge image is
      (0, 0, 0, 255). */
  lemma UniformImageNoEdges(w: nat, h: nat, src: seq<Byte>, r: Byte, g: Byte, b: Byte)
    requires |src| == w * h * 4 && UniformRgb(src, w, h, r, g, b)
    ensures forall x, y, c | Interior(w, h, x, y) && 0 <= c < 4 ::
      EdgeValue(w, h, src, x, y, c) == (if c == 3 then 255 else 0)
  {
    forall x, y | Interior(w, h, x, y)
      ensures forall c | 0 <= c < 3 :: EdgeValue(w, h, src, x, y, c) == 0
    {
      var grey := GreyNeighbourhood(w, h, src, x, y);
      forall t | 0 <= t < 9
        ensures grey[t] == r + g + b
      {
        assert InImage(w, h, x + Column(t) - 1, y + Row(t) - 1);
      }
      FlatNeighbourhoodNoEdge(w, h, src, x, y);
    }
  }
}

/**
  gaussianBlur: every interior pixel becomes the 3x3 Gaussian-weighted mean
  of its neighbourhood in R, G and B, with alpha 255; the one-pixel border
  stays transparent black. The radius parameter is accepted and ignored.
 */
module GaussianBlurring {
  import opened Uint8Clamped
  import opened Images
  import opened Kernels
  import opened Sweep
  import opened Neighbourhoods

  /** The weighted sum r, g or b (channel c) that gaussianBlur accumulates
      for interior pixel (x, y), before the division by kernelWeight. */
  function BlurSum(w: nat, h: nat, src: seq<Byte>, x: int, y: int, c: int): int
    requires |src| == w * h * 4 && Interior(w, h, x, y) && 0 <= c < 3
  {
    Convolve(GAUSSIAN, ChannelNeighbourhood(w, h, src, x, y, c), 9)
  }

  /** The value gaussianBlur stores in channel c of interior pixel (x, y):
      the weighted sum divided by 16, as the clamped array stores it. */
  function BlurValue(w: nat, h: nat, src: seq<Byte>, x: int, y: int, c: int): Byte
    requires |src| == w * h * 4 && Interior(w, h, x, y) && 0 <= c < 4
  {
    if c == 3 then 255 else ToUint8Clamp(BlurSum(w, h, src, x, y, c), KERNEL_WEIGHT)
  }

  /** The three weighted sums of gaussianBlur at interior pixel (x, y): the
      loops over ky and kx add each neighbour's channel times its weight. */
  method BlurAt(imageData: ImageData, x: int, y: int) returns (r: int, g: int, b: int)
    requires imageData.Valid() && Interior(imageData.width, imageData.height, x, y)
    ensures r == BlurSum(imageData.width, imageData.height, imageData.data[..], x, y, 0)
    ensures g == BlurSum(imageData.width, imageData.height, imageData.data[..], x, y, 1)
    ensures b == BlurSum(imageData.width, imageData.height, imageData.data[..], x, y, 2)
  {
    var width: int := imageData.width;
    ghost var src := imageData.data[..];
    ghost var reds := ChannelNeighbourhood(imageData.width, imageData.height, src, x, y, 0);
    ghost var greens := ChannelNeighbourhood(imageData.width, imageData.height, src, x, y, 1);
    ghost var blues := ChannelNeighbourhood(imageData.width, imageData.height, src, x, y, 2);
    // the number of taps visited so far
    ghost var n := 0;
    r, g, b := 0, 0, 0;
    var ky := -1;
    while ky <= 1
      invariant -1 <= ky <= 2 && n == 3 * (ky + 1)
      invariant r == Convolve(GAUSSIAN, reds, n)
      invariant g == Convolve(GAUSSIAN, greens, n)
      invariant b == Convolve(GAUSSIAN, blues, n)
    {
      var kx := -1;
      while kx <= 1
        invariant -1 <= kx <= 2 && n == 3 * (ky + 1) + (kx + 1)
        invariant r == Convolve(GAUSSIAN, reds, n)
        invariant g == Convolve(GAUSSIAN, greens, n)
        invariant b == Convolve(GAUSSIAN, blues, n)
      {
        NeighbourInBounds(imageData.width, imageData.height, x, y, ky, kx);
        var idx := ((y + ky) * width + (x + kx)) * 4;
        var weight := GAUSSIAN[ky + 1][kx + 1];
        ChannelTap(imageData.width, imageData.height, src, x, y, ky, kx, 0);
        ChannelTap(imageData.width, imageData.height, src, x, y, ky, kx, 1);
        ChannelTap(imageData.width, imageData.height, src, x, y, ky, kx, 2);
        AccumulateStep(GAUSSIAN, reds, ky, kx, r, imageData.data[idx]);
        AccumulateStep(GAUSSIAN, greens, ky, kx, g, imageData.data[idx + 1]);
        AccumulateStep(GAUSSIAN, blues, ky, kx, b, imageData.data[idx + 2]);
        r := r + imageData.data[idx] * weight;
        g := g + imageData.data[idx + 1] * weight;
        b := b + imageData.data[idx + 2] * weight;
        n := n + 1;
        kx := kx + 1;
      }
      ky := ky + 1;
    }
  }

  /** gaussianBlur: the blurred value at every interior pixel, alpha 255,
      and transparent black on the border, whatever the radius. */
  method GaussianBlur(imageData: ImageData, radius: real := 1.0) returns (output: ImageData)
    requires imageData.Valid()
    ensures fresh(output) && fresh(output.data) && output.Valid()
    ensures output.width == imageData.width && output.height == imageData.height
    ensures imageData.data[..] == old(imageData.data[..])
    ensures forall x, y, c | InImage(imageData.width, imageData.height, x, y) && !Interior(imageData.width, imageData.height, x, y) && 0 <= c < 4 ::
      Channel(output.data[..], imageData.width, imageData.height, x, y, c) == 0
    ensures forall x, y, c | Interior(imageData.width, imageData.height, x, y) && 0 <= c < 4 ::
      Channel(output.data[..], imageData.width, imageData.height, x, y, c) ==
        BlurValue(imageData.width, imageData.height, imageData.data[..], x, y, c)
  {
    var width: int := imageData.width;
    var height: int := imageData.height;
    output := new ImageData(width, height);
    ghost var src := imageData.data[..];
    ghost var value := (x: int, y: int, c: int) =>
      if Interior(width, height, x, y) && 0 <= c < 4 then BlurValue(width, height, src, x, y, c) else 0;
    FilledStart(output.data[..], width, height, value);

    var y := 1;
    while y < height - 1
      invariant 1 <= y && (y <= height - 1 || y == 1)
      invariant output.data.Length == |src| == width * height * 4
      invariant FilledBefore(output.data[..], width, height, value, 0, y)
    {
      FilledRowStart(output.data[..], width, height, value, y);
      var x := 1;
      while x < width - 1
        invariant 1 <= x && (x <= width - 1 || x == 1)
        invariant output.data.Length == |src| == width * height * 4
        invariant FilledBefore(output.data[..], width, height, value, x, y)
      {
        var r, g, b := BlurAt(imageData, x, y);
        var red := ToUint8Clamp(r, KERNEL_WEIGHT);
        var green := ToUint8Clamp(g, KERNEL_WEIGHT);
        var blue := ToUint8Clamp(b, KERNEL_WEIGHT);
        ghost var before := output.data[..];
        StorePixel(output.data, width, height, x, y, red, green, blue, 255);
        FilledStep(before, output.data[..], width, height, value, x, y, red, green, blue, 255);
        x := x + 1;
      }
      FilledRowEnd(output.data[..], width, height, value, x, y);
      y := y + 1;
    }
    FilledAll(output.data[..], width, height, value, y);
  }

  /** The blur never leaves the range of its neighbourhood: when channel c
      of all nine neighbours lies in [lo, hi], the weighted sum lies in
      [16 * lo, 16 * hi] and the stored value in [lo, hi]. */
  lemma BlurBetween(w: nat, h: nat, src: seq<Byte>, x: int, y: int, c: int, lo: Byte, hi: Byte)
    requires |src| == w * h * 4 && Interior(w, h, x, y) && 0 <= c < 3
    requires forall t | 0 <= t < 9 :: lo <= ChannelNeighbourhood(w, h, src, x, y, c)[t] <= hi
    ensures KERNEL_WEIGHT * lo <= BlurSum(w, h, src, x, y, c) <= KERNEL_WEIGHT * hi
    ensures lo <= BlurValue(w, h, src, x, y, c) <= hi
  {
    GaussianWeight();
    ConvolveBounds(GAUSSIAN, ChannelNeighbourhood(w, h, src, x, y, c), lo, hi, 9);
    ToUint8ClampBetween(BlurSum(w, h, src, x, y, c), KERNEL_WEIGHT, lo, hi);
  }

  /** The weighted sum of bytes never exceeds 255 * kernelWeight, so the
      division by kernelWeight stays within [0, 255] and the store only
      rounds, never clamps. */
  lemma BlurSumInRange(w: nat, h: nat, src: seq<Byte>, x: int, y: int, c: int)
    requires |src| == w * h * 4 && Interior(w, h, x, y) && 0 <= c < 3
    ensures 0 <= BlurSum(w, h, src, x, y, c) <= 255 * KERNEL_WEIGHT
  {
    BlurBetween(w, h, src, x, y, c, 0, 255);
  }

  /** Blurring an image of one colour reproduces that colour at every
      interior pixel, with alpha 255. */
  lemma UniformImageBlurUnchanged(w: nat, h: nat, src: seq<Byte>, r: Byte, g: Byte, b: Byte)
    requires |src| == w * h * 4 && UniformRgb(src, w, h, r, g, b)
    ensures forall x, y, c | Interior(w, h, x, y) && 0 <= c < 4 ::
      BlurValue(w, h, src, x, y, c) == [r, g, b, 255][c]
  {
    forall x, y, c | Interior(w, h, x, y) && 0 <= c < 3
      ensures BlurValue(w, h, src, x, y, c) == [r, g, b][c]
    {
      var v := [r, g, b][c];
      forall t | 0 <= t < 9
        ensures ChannelNeighbourhood(w, h, src, x, y, c)[t] == v
      {
        assert InImage(w, h, x + Column(t) - 1, y + Row(t) - 1);
      }
      BlurBetween(w, h, src, x, y, c, v, v);
    }
  }
}

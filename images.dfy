/**
  The pixel buffer the filters read and write: the host's ImageData object,
  a width, a height and a Uint8ClampedArray of width * height * 4 channel
  values, row-major and channel-interleaved (R, G, B, A).
 */
module Images {
  import opened Uint8Clamped
  import opened Arithmetic

  /** Position of channel c of pixel (x, y) in a buffer of row width w. */
  function Index(w: int, x: int, y: int, c: int): int {
    (y * w + x) * 4 + c
  }

  predicate InImage(w: nat, h: nat, x: int, y: int) {
    0 <= x < w && 0 <= y < h
  }

  /** Channel c of pixel (x, y) of a buffer holding a w x h image. */
  function Channel(buf: seq<Byte>, w: nat, h: nat, x: int, y: int, c: int): Byte
    requires |buf| == w * h * 4 && InImage(w, h, x, y) && 0 <= c < 4
  {
    IndexInBounds(w, h, x, y, c);
    buf[Index(w, x, y, c)]
  }

  /** Every pixel of the image has red r, green g and blue b. */
  predicate UniformRgb(buf: seq<Byte>, w: nat, h: nat, r: Byte, g: Byte, b: Byte)
    requires |buf| == w * h * 4
  {
    forall x, y | 0 <= x < w && 0 <= y < h ::
      Channel(buf, w, h, x, y, 0) == r && Channel(buf, w, h, x, y, 1) == g && Channel(buf, w, h, x, y, 2) == b
  }

  /** Every channel of every pixel of the image addresses the buffer. */
  lemma IndexInBounds(w: nat, h: nat, x: int, y: int, c: int)
    requires InImage(w, h, x, y) && 0 <= c < 4
    ensures 0 <= Index(w, x, y, c) < w * h * 4
  {
    NonNegativeProduct(y, w);
    NonNegativeProduct(h - y - 1, w);
    assert (h - y - 1) * w == h * w - y * w - w;
  }

  /** Within a row of width w, pixel positions follow row-major order. */
  lemma RowMajorOrder(w: nat, x1: int, y1: int, x2: int, y2: int)
    requires 0 <= x1 < w && 0 <= x2 < w && y1 < y2
    ensures y1 * w + x1 < y2 * w + x2
  {
    var rowsBetween := y2 - y1 - 1;
    NonNegativeProduct(rowsBetween, w);
    assert rowsBetween * w == y2 * w - y1 * w - w;
  }

  /** Channel index i belongs to the four cells of pixel (x2, y2) exactly
      when it is channel c1 of that same pixel. */
  lemma IndexSamePixel(w: nat, x1: int, y1: int, c1: int, x2: int, y2: int)
    requires 0 <= x1 < w && 0 <= x2 < w && 0 <= c1 < 4
    ensures Index(w, x2, y2, 0) <= Index(w, x1, y1, c1) < Index(w, x2, y2, 0) + 4
            <==> x1 == x2 && y1 == y2
  {
    if y1 < y2 {
      RowMajorOrder(w, x1, y1, x2, y2);
    } else if y2 < y1 {
      RowMajorOrder(w, x2, y2, x1, y1);
    }
  }

  /** Every position of a buffer of w * h * 4 cells is a channel of a pixel.
      This is the coverage half of the bijection between buffer positions and
      (pixel, channel) pairs: IndexInBounds says every pair lands in the
      buffer and IndexSamePixel that distinct pairs land apart. So the
      filters' postconditions, stated per pixel and channel, describe every
      cell of the output. */
  lemma {:induction false} IndexCovers(w: nat, h: nat, i: int) returns (x: int, y: int, c: int)
    requires 0 <= i < w * h * 4
    ensures InImage(w, h, x, y) && 0 <= c < 4 && Index(w, x, y, c) == i
  {
    var p := i / 4;
    c := i % 4;
    assert 0 <= p < w * h;
    y := p / w;
    x := p % w;
    assert p == y * w + x;
    assert y < h;
  }

  /** The host's ImageData: dimensions and the channel buffer. */
  class ImageData {
    const width: nat
    const height: nat
    const data: array<Byte>

    predicate Valid() {
      data.Length == width * height * 4
    }

    /** new ImageData(width, height): a fresh, zero-filled (transparent
        black) buffer of the given dimensions. */
    constructor (width: nat, height: nat)
      ensures this.width == width && this.height == height
      ensures Valid() && fresh(data)
      ensures forall i :: 0 <= i < data.Length ==> data[i] == 0
      ensures forall x, y, c | InImage(width, height, x, y) && 0 <= c < 4 ::
        Channel(data[..], width, height, x, y, c) == 0
    {
      this.width := width;
      this.height := height;
      data := new Byte[width * height * 4](_ => 0);
      new;
      forall x, y, c | InImage(width, height, x, y) && 0 <= c < 4
        ensures Channel(data[..], width, height, x, y, c) == 0
      {
        IndexInBounds(width, height, x, y, c);
      }
    }
  }
}

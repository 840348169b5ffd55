/**
  The sweep the convolution filters make over an image: for every interior
  pixel, in row-major order, the four channels of the output pixel are
  stored; the one-pixel border is never written and keeps its zero default.
 */
module Sweep {
  import opened Uint8Clamped
  import opened Images

  /** Pixels with a full 3x3 neighbourhood: the loops run y over 1..h-2 and
      x over 1..w-2. */
  predicate Interior(w: nat, h: nat, x: int, y: int) {
    1 <= x < w - 1 && 1 <= y < h - 1
  }

  /** after is before with channels R, G, B, A of pixel (x, y) set to r, g,
      b, a: nothing else differs. */
  ghost predicate PixelStored(before: seq<Byte>, after: seq<Byte>, w: nat, h: nat, x: int, y: int,
                              r: Byte, g: Byte, b: Byte, a: Byte)
    requires |before| == |after| == w * h * 4
  {
    forall px, py, c | InImage(w, h, px, py) && 0 <= c < 4 ::
      Channel(after, w, h, px, py, c) ==
        if px == x && py == y then [r, g, b, a][c] else Channel(before, w, h, px, py, c)
  }

  /** The four stores of one output pixel at outputIdx = (y * w + x) * 4. */
  method StorePixel(data: array<Byte>, w: nat, h: nat, x: int, y: int, r: Byte, g: Byte, b: Byte, a: Byte)
    requires data.Length == w * h * 4 && InImage(w, h, x, y)
    modifies data
    ensures PixelStored(old(data[..]), data[..], w, h, x, y, r, g, b, a)
  {
    var outputIdx := (y * w + x) * 4;
    IndexInBounds(w, h, x, y, 3);
    data[outputIdx] := r;
    data[outputIdx + 1] := g;
    data[outputIdx + 2] := b;
    data[outputIdx + 3] := a;
    forall px, py, c | InImage(w, h, px, py) && 0 <= c < 4
      ensures Channel(data[..], w, h, px, py, c) ==
        if px == x && py == y then [r, g, b, a][c] else Channel(old(data[..]), w, h, px, py, c)
    {
      IndexInBounds(w, h, px, py, c);
      IndexSamePixel(w, px, py, c, x, y);
      var i := Index(w, px, py, c);
      if px == x && py == y {
        assert i == outputIdx + c;
      } else {
        assert i < outputIdx || outputIdx + 4 <= i;
        assert data[i] == old(data[i]);
      }
    }
  }

  /** out holds value at the interior pixels that come before (x0, y0) in
      row-major order, and zero at every other pixel. */
  ghost predicate FilledBefore(out: seq<Byte>, w: nat, h: nat, value: (int, int, int) -> Byte, x0: int, y0: int)
    requires |out| == w * h * 4
  {
    forall x, y, c | InImage(w, h, x, y) && 0 <= c < 4 ::
      Channel(out, w, h, x, y, c) ==
        if Interior(w, h, x, y) && (y < y0 || (y == y0 && x < x0)) then value(x, y, c) else 0
  }

  /** A zero-filled output: nothing is filled yet, the sweep starts at (0, 1). */
  lemma FilledStart(out: seq<Byte>, w: nat, h: nat, value: (int, int, int) -> Byte)
    requires |out| == w * h * 4
    requires forall x, y, c | InImage(w, h, x, y) && 0 <= c < 4 :: Channel(out, w, h, x, y, c) == 0
    ensures FilledBefore(out, w, h, value, 0, 1)
  {
  }

  /** Column 0 is border, so a row's sweep really starts at x = 1. */
  lemma FilledRowStart(out: seq<Byte>, w: nat, h: nat, value: (int, int, int) -> Byte, y: int)
    requires |out| == w * h * 4 && FilledBefore(out, w, h, value, 0, y)
    ensures FilledBefore(out, w, h, value, 1, y)
  {
  }

  /** Storing value's channels at interior pixel (x, y) moves the sweep on
      to (x + 1, y). */
  lemma FilledStep(before: seq<Byte>, after: seq<Byte>, w: nat, h: nat, value: (int, int, int) -> Byte,
                   x: int, y: int, r: Byte, g: Byte, b: Byte, a: Byte)
    requires |before| == |after| == w * h * 4 && Interior(w, h, x, y)
    requires FilledBefore(before, w, h, value, x, y)
    requires PixelStored(before, after, w, h, x, y, r, g, b, a)
    requires value(x, y, 0) == r && value(x, y, 1) == g && value(x, y, 2) == b && value(x, y, 3) == a
    ensures FilledBefore(after, w, h, value, x + 1, y)
  {
  }

  /** The last column is border: once x reaches w - 1 the row is done. */
  lemma FilledRowEnd(out: seq<Byte>, w: nat, h: nat, value: (int, int, int) -> Byte, x: int, y: int)
    requires |out| == w * h * 4 && FilledBefore(out, w, h, value, x, y) && x >= w - 1
    ensures FilledBefore(out, w, h, value, 0, y + 1)
  {
  }

  /** Once y reaches h - 1 every interior pixel holds value and the border
      is still zero. */
  lemma FilledAll(out: seq<Byte>, w: nat, h: nat, value: (int, int, int) -> Byte, y: int)
    requires |out| == w * h * 4 && FilledBefore(out, w, h, value, 0, y) && y >= h - 1
    ensures forall x, y, c | InImage(w, h, x, y) && 0 <= c < 4 ::
      Channel(out, w, h, x, y, c) == if Interior(w, h, x, y) then value(x, y, c) else 0
  {
  }
}

/**
  The 3x3 neighbourhood the convolution filters read around an interior
  pixel, and the link between the cells a filter reads from the buffer and
  the samples its kernel sum is stated over.
 */
module Neighbourhoods {
  import opened Uint8Clamped
  import opened Images
  import opened Kernels
  import opened Sweep

  /** Every neighbour an interior pixel reads lies inside the buffer: the
      red, green and blue cells at idx, idx + 1, idx + 2 all exist. */
  lemma NeighbourInBounds(w: nat, h: nat, x: int, y: int, ky: int, kx: int)
    requires Interior(w, h, x, y) && -1 <= ky <= 1 && -1 <= kx <= 1
    ensures 0 <= ((y + ky) * w + (x + kx)) * 4
    ensures ((y + ky) * w + (x + kx)) * 4 + 2 < w * h * 4
  {
    IndexInBounds(w, h, x + kx, y + ky, 2);
  }

  /** Channel c of the neighbour (x + kx, y + ky) of interior pixel (x, y). */
  function Neighbour(w: nat, h: nat, src: seq<Byte>, x: int, y: int, ky: int, kx: int, c: int): Byte
    requires |src| == w * h * 4 && Interior(w, h, x, y) && -1 <= ky <= 1 && -1 <= kx <= 1 && 0 <= c < 4
  {
    Channel(src, w, h, x + kx, y + ky, c)
  }

  /** Channel c of the neighbour at tap t. */
  function Tap(w: nat, h: nat, src: seq<Byte>, x: int, y: int, t: int, c: int): Byte
    requires |src| == w * h * 4 && Interior(w, h, x, y) && 0 <= t < 9 && 0 <= c < 4
  {
    Neighbour(w, h, src, x, y, Row(t) - 1, Column(t) - 1, c)
  }

  /** The neighbourhood of (x, y) in grey, each sample r + g + b: three
      times the grey value (r + g + b) / 3, which keeps the sums integral. */
  function GreyNeighbourhood(w: nat, h: nat, src: seq<Byte>, x: int, y: int): (s: seq<int>)
    requires |src| == w * h * 4 && Interior(w, h, x, y)
    ensures |s| == 9
  {
    seq(9, t requires 0 <= t < 9 => Tap(w, h, src, x, y, t, 0) + Tap(w, h, src, x, y, t, 1) + Tap(w, h, src, x, y, t, 2))
  }

  /** The neighbourhood of (x, y) in one channel. */
  function ChannelNeighbourhood(w: nat, h: nat, src: seq<Byte>, x: int, y: int, c: int): (s: seq<int>)
    requires |src| == w * h * 4 && Interior(w, h, x, y) && 0 <= c < 4
    ensures |s| == 9
  {
    seq(9, t requires 0 <= t < 9 => Tap(w, h, src, x, y, t, c))
  }

  /** Tap 3 * (ky + 1) + (kx + 1) of the grey neighbourhood is the sum of the
      red, green and blue cells at the neighbour's index. */
  lemma GreyTap(w: nat, h: nat, src: seq<Byte>, x: int, y: int, ky: int, kx: int)
    requires |src| == w * h * 4 && Interior(w, h, x, y) && -1 <= ky <= 1 && -1 <= kx <= 1
    ensures 0 <= ((y + ky) * w + (x + kx)) * 4 && ((y + ky) * w + (x + kx)) * 4 + 2 < |src|
    ensures GreyNeighbourhood(w, h, src, x, y)[3 * (ky + 1) + (kx + 1)] ==
      src[((y + ky) * w + (x + kx)) * 4] as int + src[((y + ky) * w + (x + kx)) * 4 + 1] + src[((y + ky) * w + (x + kx)) * 4 + 2]
  {
    NeighbourInBounds(w, h, x, y, ky, kx);
    var t := 3 * (ky + 1) + (kx + 1);
    assert Row(t) == ky + 1 && Column(t) == kx + 1;
  }

  /** Tap 3 * (ky + 1) + (kx + 1) of the channel-c neighbourhood is the cell
      c places after the neighbour's index. */
  lemma ChannelTap(w: nat, h: nat, src: seq<Byte>, x: int, y: int, ky: int, kx: int, c: int)
    requires |src| == w * h * 4 && Interior(w, h, x, y) && -1 <= ky <= 1 && -1 <= kx <= 1 && 0 <= c < 3
    ensures 0 <= ((y + ky) * w + (x + kx)) * 4 && ((y + ky) * w + (x + kx)) * 4 + c < |src|
    ensures ChannelNeighbourhood(w, h, src, x, y, c)[3 * (ky + 1) + (kx + 1)] == src[((y + ky) * w + (x + kx)) * 4 + c]
  {
    NeighbourInBounds(w, h, x, y, ky, kx);
    var t := 3 * (ky + 1) + (kx + 1);
    assert Row(t) == ky + 1 && Column(t) == kx + 1;
  }
}

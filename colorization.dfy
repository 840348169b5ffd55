/**
  colorize: every colour channel of every pixel is scaled by the matching
  component of a tint colour over 255; alpha is copied. The whole buffer is
  visited, border included.
 */
module Colorization {
  import opened Uint8Clamped
  import opened Images
  import opened Arithmetic

  /** The tint { r, g, b }. Its components are integers; see README. */
  datatype Color = Color(r: int, g: int, b: int)

  /** The tint component that scales colour channel c. */
  function Component(color: Color, c: int): int
    requires 0 <= c < 3
  {
    if c == 0 then color.r else if c == 1 then color.g else color.b
  }

  /** A channel value v scaled by component / 255, as the clamped array
      stores it. */
  function Tint(v: Byte, component: int): Byte {
    ToUint8Clamp(v * component, 255)
  }

  /** What colorize stores at position i of the buffer: channel i % 4 of a
      pixel is tinted, or copied when it is alpha. */
  function ColorizedCell(src: seq<Byte>, color: Color, i: int): Byte
    requires 0 <= i < |src|
  {
    if i % 4 == 3 then src[i] else Tint(src[i], Component(color, i % 4))
  }

  /** The buffer colorize produces from src. */
  function ColorizeImage(src: seq<Byte>, color: Color): seq<Byte> {
    seq(|src|, i requires 0 <= i < |src| => ColorizedCell(src, color, i))
  }

  /** Cell c of pixel p sits at 4 * p + c and holds channel c. */
  lemma CellChannel(p: int, c: int)
    requires 0 <= c < 4
    ensures (4 * p + c) % 4 == c
  {
  }

  /** The four cells of pixel p: red, green and blue tinted by color.r,
      color.g and color.b, alpha copied. */
  lemma PixelCells(src: seq<Byte>, color: Color, p: int)
    requires 0 <= 4 * p && 4 * p + 3 < |src|
    ensures ColorizedCell(src, color, 4 * p) == ToUint8Clamp(src[4 * p] * color.r, 255)
    ensures ColorizedCell(src, color, 4 * p + 1) == ToUint8Clamp(src[4 * p + 1] * color.g, 255)
    ensures ColorizedCell(src, color, 4 * p + 2) == ToUint8Clamp(src[4 * p + 2] * color.b, 255)
    ensures ColorizedCell(src, color, 4 * p + 3) == src[4 * p + 3]
  {
    CellChannel(p, 0);
    CellChannel(p, 1);
    CellChannel(p, 2);
    CellChannel(p, 3);
  }

  /** Two sequences that agree before i and on the four cells from i agree
      before i + 4. */
  lemma PrefixExtend(a: seq<Byte>, b: seq<Byte>, i: int)
    requires 0 <= i && i + 4 <= |a| && i + 4 <= |b| && a[..i] == b[..i]
    requires a[i] == b[i] && a[i + 1] == b[i + 1] && a[i + 2] == b[i + 2] && a[i + 3] == b[i + 3]
    ensures a[..i + 4] == b[..i + 4]
  {
    assert forall j | 0 <= j < i :: a[j] == a[..i][j];
  }

  /** colorize: the loop visits each pixel's four cells at i, i + 1, i + 2,
      i + 3 and fills exactly ColorizeImage. */
  method Colorize(imageData: ImageData, color: Color) returns (output: ImageData)
    requires imageData.Valid()
    ensures fresh(output) && fresh(output.data) && output.Valid()
    ensures output.width == imageData.width && output.height == imageData.height
    ensures imageData.data[..] == old(imageData.data[..])
    ensures output.data[..] == ColorizeImage(imageData.data[..], color)
  {
    output := new ImageData(imageData.width, imageData.height);
    ghost var src := imageData.data[..];
    ghost var pixels := imageData.width * imageData.height;
    ghost var expected := ColorizeImage(src, color);
    // i == 4 * p: the loop is at the first cell of pixel p
    ghost var p := 0;
    var i := 0;
    while i < imageData.data.Length
      invariant i == 4 * p && 0 <= p <= pixels
      invariant imageData.data.Length == output.data.Length == pixels * 4
      invariant output.data[..i] == expected[..i]
    {
      PixelCells(src, color, p);
      ghost var done := output.data[..i];
      var alpha := imageData.data[i + 3];
      output.data[i] := ToUint8Clamp(imageData.data[i] * color.r, 255);
      output.data[i + 1] := ToUint8Clamp(imageData.data[i + 1] * color.g, 255);
      output.data[i + 2] := ToUint8Clamp(imageData.data[i + 2] * color.b, 255);
      output.data[i + 3] := alpha;
      assert output.data[..i] == done;
      PrefixExtend(output.data[..], expected, i);
      i := i + 4;
      p := p + 1;
    }
    assert output.data[..] == output.data[..i];
  }

  /** colorize is per-pixel: channel c of pixel (x, y) of the result depends
      on channel c of pixel (x, y) of the input and nothing else; alpha is
      copied, a colour channel tinted by its component. */
  lemma ColorizePerPixel(w: nat, h: nat, src: seq<Byte>, color: Color, x: int, y: int, c: int)
    requires |src| == w * h * 4 && InImage(w, h, x, y) && 0 <= c < 4
    ensures |ColorizeImage(src, color)| == |src|
    ensures Channel(ColorizeImage(src, color), w, h, x, y, c) ==
      if c == 3 then Channel(src, w, h, x, y, 3) else Tint(Channel(src, w, h, x, y, c), Component(color, c))
  {
    IndexInBounds(w, h, x, y, c);
    CellChannel(y * w + x, c);
  }

  /** The tint (255, 255, 255) is the identity. */
  lemma ColorizeWhiteIsIdentity(src: seq<Byte>)
    ensures ColorizeImage(src, Color(255, 255, 255)) == src
  {
    forall i | 0 <= i < |src|
      ensures ColorizeImage(src, Color(255, 255, 255))[i] == src[i]
    {
      ToUint8ClampExact(src[i], 255);
    }
  }

  /** A component of 0 (or below) turns its channel off. */
  lemma ColorizeZeroChannel(src: seq<Byte>, color: Color, i: int)
    requires 0 <= i < |src| && i % 4 < 3 && Component(color, i % 4) <= 0
    ensures ColorizeImage(src, color)[i] == 0
  {
    NonPositiveProduct(src[i], Component(color, i % 4));
  }

  /** When the component that scales cell i lies in [0, 255], the result's
      cell does not exceed the input's cell: a tint only darkens. Alpha cells
      are copied, whatever the tint. */
  lemma ColorizeNeverBrightens(src: seq<Byte>, color: Color, i: int)
    requires 0 <= i < |src|
    requires i % 4 < 3 ==> 0 <= Component(color, i % 4) <= 255
    ensures ColorizeImage(src, color)[i] <= src[i]
  {
    if i % 4 < 3 {
      var v, k := src[i], Component(color, i % 4);
      ScaleMonotonic(v, k, 255);
      ToUint8ClampMonotonic(v * k, v * 255, 255);
      ToUint8ClampExact(v, 255);
    }
  }
}

# Image filters: edge detection, Gaussian blur, colorize

A Dafny model of the three pixel filters in `src/index.ts` of deca-image-tools.
Each takes an `ImageData`: a width, a height and a `Uint8ClampedArray` of
`width * height * 4` channel values, row-major with R, G, B, A interleaved.
Each allocates a fresh zero-filled `ImageData` of the same size, fills it, and
returns it. The input is only read.

- **edgeDetect** applies the Sobel operator to the grey image, grey being
  `(r + g + b) / 3`. Every interior pixel gets the gradient magnitude
  `min(255, sqrt(pixelX² + pixelY²))` in R, G and B, and alpha 255.
- **gaussianBlur** replaces R, G and B of every interior pixel by the 3x3
  kernel `[[1,2,1],[2,4,2],[1,2,1]]` sum divided by 16, with alpha 255. Its
  `radius` parameter is accepted and has no effect.
- **colorize** scales channel R, G and B of every pixel, border included, by
  `tint / 255`, and copies alpha.

In both convolution filters the one-pixel border is never written, so it stays
transparent black (0, 0, 0, 0).

Every store into a `Uint8ClampedArray` goes through ToUint8Clamp (ECMA-262,
section 7.1.12). That operation clamps to [0, 255] and rounds to the nearest
integer, ties to even. The model makes this conversion explicit
(`Uint8Clamped.ToUint8Clamp`) on exact fractions `num / den`.

Layout of the model:

- `arithmetic.dfy`: sign and monotonicity facts about products of integers.
- `uint8clamped.dfy`: the byte type and ToUint8Clamp, with an independent
  nearest-byte characterisation.
- `images.dfy`: `ImageData` as a class over an `array<Byte>`, and pixel
  addressing `(y * w + x) * 4 + c`.
- `kernels.dfy`: the three kernels and the weighted sum (`Convolve`) the
  filters accumulate.
- `sweep.dfy`: the row-major sweep over interior pixels that both convolution
  filters make, and the four stores of one pixel.
- `neighbourhoods.dfy`: the 3x3 neighbourhood of an interior pixel, as grey
  samples and as single-channel samples.
- `edge_detection.dfy`, `gaussian_blur.dfy`, `colorization.dfy`: the three
  filters as methods with loops, their specification functions, and lemmas.

Decisions:

- **Grey is kept as `r + g + b`**, three times the grey of the TypeScript code. The Sobel
  sums are then integers: `gx`, `gy` are three times `pixelX`, `pixelY`.
- **The edge magnitude is the exact value.** The stored byte is
  `sqrt(gx² + gy²) / 3`, capped at 255 and rounded; integer inequalities pin
  it down (`RoundedRoot`). No tie can occur.
- **The blur store** is `ToUint8Clamp(sum, 16)`, the nearest byte to `sum / 16`.
- **The colorize store** is `ToUint8Clamp(v * tint, 255)`.
- **The loops stay as the TypeScript code has them.** The inner ky/kx loops of both
  convolution filters are separate methods (`SobelAt`, `BlurAt`), called once
  per pixel by the outer y/x loops. The four stores of a pixel are
  `Sweep.StorePixel`.

Three facts about the TypeScript code that the model keeps:

- gaussianBlur stores `r / 16` into a Uint8ClampedArray. The store rounds to
  the nearest integer, ties to even; it does not truncate.
- colorize does not restrict the tint, and the clamped array clamps whatever
  it is given. The model accepts any integer tint.
- The code does not check `data.length == width * height * 4`; a host
  `ImageData` always has that length. The model requires it through
  `ImageData.Valid()`.

## Model

| member | source | states |
|---|---|---|
| Uint8Clamped.ToUint8Clamp | src/index.ts:77-79 | The byte a store of num / den produces satisfies NearestByte: 0 at or below zero, 255 at or above 255, otherwise within one half of num / den, and even on a tie. |
| Uint8Clamped.NearestByteUnique | src/index.ts:77-79 | NearestByte holds of exactly one byte, ToUint8Clamp's result, in both directions. |
| Uint8Clamped.ToUint8ClampMonotonic | src/index.ts:92-94 | A larger number never stores a smaller byte. |
| Uint8Clamped.ToUint8ClampBetween | src/index.ts:77-79 | A number between bytes lo and hi is stored between lo and hi, so the store never leaves the range its input lies in. |
| Images.ImageData.constructor | src/index.ts:4 | new ImageData(width, height) has those dimensions and a fresh buffer of width * height * 4 zeros: every channel of every pixel is 0. |
| Images.IndexInBounds | src/index.ts:37 | Every channel (y * w + x) * 4 + c of every pixel of a w x h image lies in [0, w * h * 4). |
| Images.IndexSamePixel | src/index.ts:37-42 | A channel index falls among the four cells at outputIdx exactly when it belongs to that same pixel. |
| Images.IndexCovers | src/index.ts:25 | Every position of a w * h * 4 buffer is channel c of some pixel (x, y), so statements per pixel and channel cover the whole buffer. |
| Kernels.AccumulateStep | src/index.ts:31-32 | Adding weight kernel[ky + 1][kx + 1] times the tap's sample to the sum of the taps before it gives the sum up to and including that tap. |
| Kernels.ConvolveUniform | src/index.ts:65-74 | On a neighbourhood whose nine samples all equal v, the kernel sum is the sum of the weights times v. |
| Kernels.ConvolveBounds | src/index.ts:65-74 | With non-negative weights, samples in [lo, hi] give a sum between weight-sum * lo and weight-sum * hi. |
| Kernels.SobelWeightsCancel | src/index.ts:6-16 | Both Sobel kernels' weights sum to 0. |
| Kernels.SobelFlat | src/index.ts:23-34 | On a flat neighbourhood both Sobel sums are 0. |
| Kernels.GaussianWeight | src/index.ts:54-59 | The blur kernel's weights are non-negative and sum to kernelWeight = 16. |
| Sweep.StorePixel | src/index.ts:37-42 | The four stores set R, G, B, A of pixel (x, y) and leave every other channel of every other pixel unchanged. |
| Neighbourhoods.NeighbourInBounds | src/index.ts:25-28 | For an interior pixel and ky, kx in [-1, 1], the reads at idx, idx + 1, idx + 2 are inside the buffer. |
| Neighbourhoods.GreyTap | src/index.ts:25-29 | Tap 3 * (ky + 1) + (kx + 1) of the grey neighbourhood is r + g + b read at idx, idx + 1, idx + 2. |
| Neighbourhoods.ChannelTap | src/index.ts:67-72 | Tap 3 * (ky + 1) + (kx + 1) of the channel-c neighbourhood is the cell read at idx + c. |
| EdgeDetection.MagnitudeByte | src/index.ts:36-41 | The stored magnitude m satisfies RoundedRoot: m is sqrt(pixelX² + pixelY²) capped at 255 and rounded to the nearest integer. |
| EdgeDetection.NearestRootFrom | src/index.ts:36 | The search from candidate k ends at a byte m >= k that satisfies RoundedRoot. |
| EdgeDetection.RoundedRootUnique | src/index.ts:36 | At most one byte satisfies RoundedRoot, so the magnitude byte is determined. |
| EdgeDetection.MagnitudeByteZero | src/index.ts:36 | No gradient gives magnitude 0. |
| EdgeDetection.SobelAt | src/index.ts:20-34 | The ky/kx loops leave pixelX and pixelY equal to the Sobel-X and Sobel-Y sums over the pixel's grey neighbourhood (GradientX, GradientY). |
| EdgeDetection.EdgeDetect | src/index.ts:1-47 | A fresh output of the same size; the input unchanged; every border channel 0; every interior pixel has R = G = B = MagnitudeByte(GradientX, GradientY) and alpha 255. |
| EdgeDetection.FlatNeighbourhoodNoEdge | src/index.ts:23-36 | If all nine neighbours have the same grey, both gradients are 0 and R, G, B are stored 0. |
| EdgeDetection.UniformImageNoEdges | src/index.ts:1-47 | On a one-colour image every interior pixel of the result is (0, 0, 0, 255). |
| GaussianBlurring.BlurAt | src/index.ts:63-74 | The ky/kx loops leave r, g, b equal to the blur-kernel sums over the pixel's red, green and blue neighbourhoods (BlurSum). |
| GaussianBlurring.GaussianBlur | src/index.ts:49-85 | A fresh output of the same size; the input unchanged; every border channel 0; every interior pixel has alpha 255 and R, G, B equal to ToUint8Clamp(BlurSum, 16). The result does not depend on radius. |
| GaussianBlurring.BlurBetween | src/index.ts:65-79 | If channel c of all nine neighbours lies in [lo, hi], the sum lies in [16 * lo, 16 * hi] and the stored value lies in [lo, hi]. |
| GaussianBlurring.BlurSumInRange | src/index.ts:77-79 | The sum lies in [0, 255 * 16], so r / kernelWeight needs no clamping, only rounding. |
| GaussianBlurring.UniformImageBlurUnchanged | src/index.ts:49-85 | On a one-colour image every interior pixel of the result has that colour and alpha 255. |
| Colorization.Colorize | src/index.ts:87-99 | A fresh output of the same size; the input unchanged; the buffer equals ColorizeImage: each cell is tinted, or copied when it is alpha. |
| Colorization.ColorizePerPixel | src/index.ts:90-96 | Channel c of pixel (x, y) of the result is alpha copied from, or the tint of, channel c of pixel (x, y) of the input, and nothing else. |
| Colorization.ColorizeWhiteIsIdentity | src/index.ts:92-94 | The tint (255, 255, 255) returns the input buffer unchanged. |
| Colorization.ColorizeZeroChannel | src/index.ts:92-94 | A tint component of 0 or below stores 0 in its channel. |
| Colorization.ColorizeNeverBrightens | src/index.ts:92-94 | When the tint component that scales a colour cell lies in [0, 255], that cell of the result does not exceed the input's cell. Alpha cells are copied. |

## Left out

- EdgeDetection.MagnitudeByte: the exact square root and grey quotient are used, not JavaScript's binary floating point. The exact value is never a tie. It lies at least about 5e-5 from a rounding boundary, far more than the floating-point error, so the stored byte should be the same. This margin argument is not proved.
- Colorization.Colorize: the tint components are integers. Fractional, NaN and infinite tints are not modelled.
- GaussianBlurring.GaussianBlur: `radius` is a parameter that no contract mentions. Independence of radius is therefore structural, not a lemma.
- The host `ImageData` and `Uint8ClampedArray` objects are modelled only as far as the filters use them. This covers construction as zero-filled, the dimensions and indexed stores. The DOM's rejection of zero-sized images is not modelled.
- The inner loops of edgeDetect and gaussianBlur, which the TypeScript code writes inline, are the separate methods `SobelAt` and `BlurAt`. Aliasing between input and output is impossible because the output is freshly allocated.
- sharpen, adjustBrightness, invert, rotate and skew are not part of this model.

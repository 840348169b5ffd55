/**
  The fixed 3x3 kernels of the filters and the weighted sum a kernel makes of
  a pixel's neighbourhood.

  A neighbourhood is given as its nine samples in the order the filters visit
  them: tap t = 3 * (ky + 1) + (kx + 1) for ky, kx in -1..1, rows outside,
  columns inside. Kernel row ky + 1, column kx + 1 weighs tap t.
 */
module Kernels {
  import opened Arithmetic

  type Kernel = k: seq<seq<int>> | |k| == 3 && forall row | 0 <= row < 3 :: |k[row]| == 3
    witness [[0, 0, 0], [0, 0, 0], [0, 0, 0]]

  /** The Sobel kernel for the horizontal gradient (gx). */
  const SOBEL_X: Kernel := [[-1, 0, 1], [-2, 0, 2], [-1, 0, 1]]

  /** The Sobel kernel for the vertical gradient (gy). */
  const SOBEL_Y: Kernel := [[1, 2, 1], [0, 0, 0], [-1, -2, -1]]

  /** The blur kernel and the divisor the blurred sum is scaled by. */
  const GAUSSIAN: Kernel := [[1, 2, 1], [2, 4, 2], [1, 2, 1]]
  const KERNEL_WEIGHT := 16

  /** The weight a kernel gives tap t. */
  function Weight(k: Kernel, t: int): int
    requires 0 <= t < 9
  {
    k[Row(t)][Column(t)]
  }

  /** Kernel row and column of tap t: t == 3 * Row(t) + Column(t). */
  function Row(t: int): int {
    if t < 3 then 0 else if t < 6 then 1 else 2
  }

  function Column(t: int): int {
    t - 3 * Row(t)
  }

  /** The sum of the weights of the first n taps. */
  function WeightSum(k: Kernel, n: nat): int
    requires n <= 9
  {
    if n == 0 then 0 else WeightSum(k, n - 1) + Weight(k, n - 1)
  }

  predicate NonNegative(k: Kernel) {
    forall t | 0 <= t < 9 :: Weight(k, t) >= 0
  }

  /** The weighted sum of the first n samples: what the accumulator of a
      filter holds after visiting n taps. */
  function Convolve(k: Kernel, samples: seq<int>, n: nat): int
    requires |samples| == 9 && n <= 9
  {
    if n == 0 then 0 else Convolve(k, samples, n - 1) + Weight(k, n - 1) * samples[n - 1]
  }

  /** One step of an accumulation: adding the weight at row ky + 1, column
      kx + 1 times that tap's sample to the sum of the taps before it gives
      the sum up to and including it. */
  lemma AccumulateStep(k: Kernel, samples: seq<int>, ky: int, kx: int, sum: int, sample: int)
    requires |samples| == 9 && -1 <= ky <= 1 && -1 <= kx <= 1
    requires sum == Convolve(k, samples, 3 * (ky + 1) + (kx + 1))
    requires sample == samples[3 * (ky + 1) + (kx + 1)]
    ensures sum + k[ky + 1][kx + 1] * sample == Convolve(k, samples, 3 * (ky + 1) + (kx + 1) + 1)
  {
    var t := 3 * (ky + 1) + (kx + 1);
    assert Row(t) == ky + 1 && Column(t) == kx + 1;
  }

  /** On a neighbourhood whose samples all equal v, a kernel sums to its
      weight times v. */
  lemma {:induction false} ConvolveUniform(k: Kernel, samples: seq<int>, v: int, n: nat)
    requires |samples| == 9 && n <= 9
    requires forall t | 0 <= t < 9 :: samples[t] == v
    ensures Convolve(k, samples, n) == WeightSum(k, n) * v
  {
    if n > 0 {
      ConvolveUniform(k, samples, v, n - 1);
    }
  }

  /** A kernel without negative weights keeps the sum between its weight
      times the smallest and its weight times the largest sample. */
  lemma {:induction false} ConvolveBounds(k: Kernel, samples: seq<int>, lo: int, hi: int, n: nat)
    requires |samples| == 9 && n <= 9 && NonNegative(k)
    requires forall t | 0 <= t < 9 :: lo <= samples[t] <= hi
    ensures WeightSum(k, n) * lo <= Convolve(k, samples, n) <= WeightSum(k, n) * hi
  {
    if n > 0 {
      ConvolveBounds(k, samples, lo, hi, n - 1);
      BoundsStep(Convolve(k, samples, n - 1), WeightSum(k, n - 1), Weight(k, n - 1), samples[n - 1], lo, hi);
    }
  }

  /** Each Sobel kernel sums to zero. */
  lemma SobelWeightsCancel()
    ensures WeightSum(SOBEL_X, 9) == 0 && WeightSum(SOBEL_Y, 9) == 0
  {
  }

  /** On a flat neighbourhood both Sobel sums vanish. */
  lemma SobelFlat(samples: seq<int>, v: int)
    requires |samples| == 9 && forall t | 0 <= t < 9 :: samples[t] == v
    ensures Convolve(SOBEL_X, samples, 9) == 0 && Convolve(SOBEL_Y, samples, 9) == 0
  {
    ConvolveUniform(SOBEL_X, samples, v, 9);
    ConvolveUniform(SOBEL_Y, samples, v, 9);
    SobelWeightsCancel();
  }

  /** The blur kernel's weights are non-negative and sum to KERNEL_WEIGHT. */
  lemma GaussianWeight()
    ensures NonNegative(GAUSSIAN) && WeightSum(GAUSSIAN, 9) == KERNEL_WEIGHT
  {
  }
}

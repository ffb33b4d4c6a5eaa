/**
 * The 3x3 Gaussian blur stencil run by each work-item of the device kernel
 * `gaussian_blur_kernel` (batch_blur.py).
 *
 * Pixel arithmetic is exact here: inputs are 8-bit intensities and every
 * weight is k/16, so the accumulated value is always S/16 for an integer
 * numerator S (the sum of integer weight times pixel over the neighbours that
 * lie inside the image). The float value the kernel stores is modelled as the
 * real number S/16, and the final conversion to uint8 as truncation.
 */
module GaussianBlur {

  /** An 8-bit grayscale intensity (a numpy uint8). */
  type Byte = x: int | 0 <= x < 256

  /** Integer numerators of the 3x3 binomial weights, indexed [ky + 1][kx + 1]. */
  const Kernel: seq<seq<nat>> := [[1, 2, 1], [2, 4, 2], [1, 2, 1]]

  /** Every weight of Kernel is divided by this. */
  const KernelScale: nat := 16

  /** Whether (nx, ny) names a pixel of the image: column nx, row ny. */
  predicate InImage(width: int, height: int, nx: int, ny: int) {
    0 <= nx < width && 0 <= ny < height
  }

  /**
   * The contribution of neighbour (x + kx, y + ky) to the numerator of pixel
   * (x, y): its weight times its intensity, or nothing when it lies outside.
   */
  function Tap(input: array2<Byte>, x: int, y: int, kx: int, ky: int): int
    reads input
    requires -1 <= kx <= 1 && -1 <= ky <= 1
  {
    if InImage(input.Length1, input.Length0, x + kx, y + ky)
    then Kernel[ky + 1][kx + 1] * input[y + ky, x + kx]
    else 0
  }

  /** Sum of the taps of row offset ky over the column offsets -1 .. upto - 1. */
  function RowSum(input: array2<Byte>, x: int, y: int, ky: int, upto: int): int
    reads input
    requires -1 <= ky <= 1 && -1 <= upto <= 2
    decreases upto
  {
    if upto == -1 then 0 else RowSum(input, x, y, ky, upto - 1) + Tap(input, x, y, upto - 1, ky)
  }

  /** Sum of the full rows -1 .. upto - 1 of the neighbourhood. */
  function RowsSum(input: array2<Byte>, x: int, y: int, upto: int): int
    reads input
    requires -1 <= upto <= 2
    decreases upto
  {
    if upto == -1 then 0 else RowsSum(input, x, y, upto - 1) + RowSum(input, x, y, upto - 1, 2)
  }

  /**
   * The numerator S of output pixel (x, y): the kernel's value there is
   * S / 16. Neighbours outside the image contribute nothing and their weight
   * is not handed to the others.
   */
  function Numerator(input: array2<Byte>, x: int, y: int): int
    reads input
  {
    RowsSum(input, x, y, 2)
  }

  /**
   * Total weight (out of 16) of the neighbours of (x, y) that lie inside the
   * image. The kernel is the outer product of [1, 2, 1] with itself, so the
   * coverage is the product of the in-range column and row weights.
   */
  function Coverage(width: int, height: int, x: int, y: int): nat {
    Span(x, width) * Span(y, height)
  }

  /** Sum of the weights 1, 2, 1 at offsets -1, 0, 1 of index i that lie in [0, n). */
  function Span(i: int, n: int): nat {
    (if 0 <= i - 1 < n then 1 else 0) + (if 0 <= i < n then 2 else 0) + (if 0 <= i + 1 < n then 1 else 0)
  }

  /**
   * The float the kernel stores at (x, y) converted to uint8 by truncation:
   * the value of the blurred image at that pixel.
   */
  function BlurredPixel(input: array2<Byte>, x: int, y: int): (b: Byte)
    reads input
    ensures b as real <= Numerator(input, x, y) as real / 16.0 < b as real + 1.0
  {
    NumeratorBounds(input, x, y);
    TruncateExact(Numerator(input, x, y));
    Numerator(input, x, y) / 16
  }

  /**
   * numpy's astype(np.uint8) on a value in [0, 256): truncation toward zero,
   * i.e. the greatest integer not above v.
   */
  function ToUint8(v: real): (b: Byte)
    requires 0.0 <= v < 256.0
    ensures b as real <= v < b as real + 1.0
  {
    v.Floor
  }

  /** Truncating S / 16 as a real gives the integer quotient S / 16. */
  lemma TruncateExact(s: int)
    requires s >= 0
    ensures (s as real / 16.0).Floor == s / 16
  {
    var q, r := s / 16, s % 16;
    assert s == 16 * q + r;
    assert s as real / 16.0 == q as real + r as real / 16.0;
  }

  /** A tap lies between 0 and 255 times the weight it stands for, and is 0 outside. */
  lemma TapBounds(input: array2<Byte>, x: int, y: int, kx: int, ky: int)
    requires -1 <= kx <= 1 && -1 <= ky <= 1
    ensures 0 <= Tap(input, x, y, kx, ky)
    ensures Tap(input, x, y, kx, ky)
            <= 255 * (if InImage(input.Length1, input.Length0, x + kx, y + ky) then Kernel[ky + 1][kx + 1] else 0)
  {
    if InImage(input.Length1, input.Length0, x + kx, y + ky) {
      var w, p := Kernel[ky + 1][kx + 1], input[y + ky, x + kx];
      assert w * p <= w * 255 by {
        assert w == 1 || w == 2 || w == 4;
      }
    }
  }

  /** A full row of the neighbourhood is the sum of its three taps. */
  lemma RowSumUnfold(input: array2<Byte>, x: int, y: int, ky: int)
    requires -1 <= ky <= 1
    ensures RowSum(input, x, y, ky, 2) == Tap(input, x, y, -1, ky) + Tap(input, x, y, 0, ky) + Tap(input, x, y, 1, ky)
  {
    assert RowSum(input, x, y, ky, 0) == Tap(input, x, y, -1, ky);
    assert RowSum(input, x, y, ky, 1) == Tap(input, x, y, -1, ky) + Tap(input, x, y, 0, ky);
  }

  /** The numerator is the sum of its three rows. */
  lemma NumeratorUnfold(input: array2<Byte>, x: int, y: int)
    ensures Numerator(input, x, y) == RowSum(input, x, y, -1, 2) + RowSum(input, x, y, 0, 2) + RowSum(input, x, y, 1, 2)
  {
    assert RowsSum(input, x, y, 0) == RowSum(input, x, y, -1, 2);
    assert RowsSum(input, x, y, 1) == RowSum(input, x, y, -1, 2) + RowSum(input, x, y, 0, 2);
  }

  /** The weight 1, 2, 1 of offset k in -1 .. 1 when index i + k lies in [0, n), else 0. */
  function AxisWeight(i: int, n: int, k: int): nat {
    if 0 <= i + k < n then (if k == 0 then 2 else 1) else 0
  }

  /** One row of the neighbourhood contributes at most 255 times its in-range weight. */
  lemma RowSumBounds(input: array2<Byte>, x: int, y: int, ky: int)
    requires -1 <= ky <= 1
    ensures 0 <= RowSum(input, x, y, ky, 2)
    ensures RowSum(input, x, y, ky, 2) <= 255 * (AxisWeight(y, input.Length0, ky) * Span(x, input.Length1))
  {
    RowSumUnfold(input, x, y, ky);
    TapBounds(input, x, y, -1, ky);
    TapBounds(input, x, y, 0, ky);
    TapBounds(input, x, y, 1, ky);
    var b := AxisWeight(y, input.Length0, ky);
    var sx := Span(x, input.Length1);
    if b == 0 {
      assert RowSum(input, x, y, ky, 2) == 0;
    } else if b == 1 {
      assert b * sx == sx;
    } else {
      assert b * sx == 2 * sx;
    }
  }

  /**
   * Every numerator lies between 0 and 255 times the coverage of the pixel,
   * and the coverage is at most 16: the blurred value always fits in a uint8.
   */
  lemma NumeratorBounds(input: array2<Byte>, x: int, y: int)
    ensures 0 <= Numerator(input, x, y) <= 255 * Coverage(input.Length1, input.Length0, x, y)
    ensures Coverage(input.Length1, input.Length0, x, y) <= 16
  {
    var w, h := input.Length1, input.Length0;
    NumeratorUnfold(input, x, y);
    RowSumBounds(input, x, y, -1);
    RowSumBounds(input, x, y, 0);
    RowSumBounds(input, x, y, 1);
    var sx, sy := Span(x, w), Span(y, h);
    assert sy == AxisWeight(y, h, -1) + AxisWeight(y, h, 0) + AxisWeight(y, h, 1);
    assert sx * sy == AxisWeight(y, h, -1) * sx + AxisWeight(y, h, 0) * sx + AxisWeight(y, h, 1) * sx;
    assert sx <= 4 && sy <= 4;
  }

  /**
   * At a pixel at least one away from every edge the whole neighbourhood
   * contributes, with the weights 1 2 1 / 2 4 2 / 1 2 1 summing to 16.
   */
  lemma InteriorNumerator(input: array2<Byte>, x: int, y: int)
    requires 1 <= x < input.Length1 - 1 && 1 <= y < input.Length0 - 1
    ensures Numerator(input, x, y)
            == input[y - 1, x - 1] + 2 * input[y - 1, x] + input[y - 1, x + 1]
             + 2 * input[y, x - 1] + 4 * input[y, x] + 2 * input[y, x + 1]
             + input[y + 1, x - 1] + 2 * input[y + 1, x] + input[y + 1, x + 1]
    ensures Coverage(input.Length1, input.Length0, x, y) == KernelScale
  {
    NumeratorUnfold(input, x, y);
    RowSumUnfold(input, x, y, -1);
    RowSumUnfold(input, x, y, 0);
    RowSumUnfold(input, x, y, 1);
  }

  /** Whether every pixel of the image has intensity c. */
  predicate Uniform(input: array2<Byte>, c: Byte)
    reads input
  {
    forall i, j :: 0 <= i < input.Length0 && 0 <= j < input.Length1 ==> input[i, j] == c
  }

  /** On an image of uniform intensity c, one row contributes c times its in-range weight. */
  lemma UniformRowSum(input: array2<Byte>, c: Byte, x: int, y: int, ky: int)
    requires Uniform(input, c) && -1 <= ky <= 1
    ensures RowSum(input, x, y, ky, 2) == AxisWeight(y, input.Length0, ky) * (c * Span(x, input.Length1))
  {
    RowSumUnfold(input, x, y, ky);
    var b := AxisWeight(y, input.Length0, ky);
    var m := c * Span(x, input.Length1);
    if b == 0 {
    } else if b == 1 {
      assert b * m == m;
    } else {
      assert b * m == m + m;
    }
  }

  /**
   * On an image of uniform intensity c the numerator is c times the coverage:
   * the weight of the neighbours outside the image is lost, not redistributed.
   */
  lemma UniformNumerator(input: array2<Byte>, c: Byte, x: int, y: int)
    requires Uniform(input, c)
    ensures Numerator(input, x, y) == c * Coverage(input.Length1, input.Length0, x, y)
  {
    var w, h := input.Length1, input.Length0;
    NumeratorUnfold(input, x, y);
    UniformRowSum(input, c, x, y, -1);
    UniformRowSum(input, c, x, y, 0);
    UniformRowSum(input, c, x, y, 1);
    var m := c * Span(x, w);
    var b0, b1, b2 := AxisWeight(y, h, -1), AxisWeight(y, h, 0), AxisWeight(y, h, 1);
    assert Span(y, h) == b0 + b1 + b2;
    Regroup(c, Span(x, w), b0, b1, b2);
  }

  /** Arithmetic regrouping for UniformNumerator. */
  lemma Regroup(c: int, sx: int, b0: int, b1: int, b2: int)
    ensures b0 * (c * sx) + b1 * (c * sx) + b2 * (c * sx) == c * (sx * (b0 + b1 + b2))
  {
    var m := c * sx;
    assert b0 * m + b1 * m + b2 * m == (b0 + b1 + b2) * m;
    assert (b0 + b1 + b2) * (c * sx) == c * (sx * (b0 + b1 + b2));
  }

  /**
   * Border attenuation of a uniform image of intensity c (at least 2 x 2):
   * an interior pixel keeps c, an edge pixel gets 12c/16 and a corner pixel
   * 9c/16, truncated.
   */
  lemma UniformBorderAttenuation(input: array2<Byte>, c: Byte, x: int, y: int)
    requires Uniform(input, c)
    requires input.Length1 >= 2 && input.Length0 >= 2
    requires InImage(input.Length1, input.Length0, x, y)
    ensures var w, h := input.Length1, input.Length0;
      var xEdge, yEdge := x == 0 || x == w - 1, y == 0 || y == h - 1;
      BlurredPixel(input, x, y) == (if xEdge && yEdge then 9 * c / 16 else if xEdge || yEdge then 12 * c / 16 else c)
  {
    UniformNumerator(input, c, x, y);
    var w, h := input.Length1, input.Length0;
    var sx, sy := Span(x, w), Span(y, h);
    assert sx == (if x == 0 || x == w - 1 then 3 else 4);
    assert sy == (if y == 0 || y == h - 1 then 3 else 4);
  }

  /**
   * One work-item of gaussian_blur_kernel at thread position (x, y): returns
   * at once outside the image, else accumulates the weighted neighbourhood
   * and stores it at output[y, x].
   */
  method GaussianBlurKernel(input: array2<Byte>, output: array2<real>, width: int, height: int, x: nat, y: nat)
    requires input.Length0 == height && input.Length1 == width
    requires output.Length0 == height && output.Length1 == width
    modifies output
    ensures !InImage(width, height, x, y) ==> unchanged(output)
    ensures InImage(width, height, x, y) ==> output[y, x] == Numerator(input, x, y) as real / KernelScale as real
    ensures forall i, j :: 0 <= i < height && 0 <= j < width && (i, j) != (y, x) ==> output[i, j] == old(output[i, j])
  {
    if x >= width || y >= height {
      return;
    }
    var pixelValue: real := 0.0;
    for ky := -1 to 2
      invariant pixelValue == RowsSum(input, x, y, ky) as real / 16.0
    {
      for kx := -1 to 2
        invariant pixelValue == (RowsSum(input, x, y, ky) + RowSum(input, x, y, ky, kx)) as real / 16.0
      {
        var nx, ny := x + kx, y + ky;
        if 0 <= nx < width && 0 <= ny < height {
          var weight := Kernel[ky + 1][kx + 1] as real / KernelScale as real;
          pixelValue := pixelValue + input[ny, nx] as real * weight;
        }
      }
    }
    output[y, x] := pixelValue;
  }
}

/** The Sobel kernels the program filters with (main.cpp) and what they
    guarantee about the gradients the convolution computes. */
module Sobel {
  import opened Layout
  import opened Convolution

  /** Horizontal-gradient kernel, row-major. */
  const SOBEL_X: seq<int> := [-1, 0, 1,
                              -2, 0, 2,
                              -1, 0, 1]

  /** Vertical-gradient kernel, row-major. */
  const SOBEL_Y: seq<int> := [-1, -2, -1,
                               0,  0,  0,
                               1,  2,  1]

  /** Sum of the positive weights among the first n entries of a kernel. */
  function PositiveMass(kernel: seq<int>, n: nat): int
    requires n <= |kernel|
  {
    if n == 0 then 0
    else PositiveMass(kernel, n - 1) + (if kernel[n - 1] > 0 then kernel[n - 1] else 0)
  }

  /** Sum of the magnitudes of the negative weights among the first n entries. */
  function NegativeMass(kernel: seq<int>, n: nat): int
    requires n <= |kernel|
  {
    if n == 0 then 0
    else NegativeMass(kernel, n - 1) + (if kernel[n - 1] < 0 then -kernel[n - 1] else 0)
  }

  /** Sum of the first n weights of a kernel. */
  function Mass(kernel: seq<int>, n: nat): int
    requires n <= |kernel|
  {
    if n == 0 then 0 else Mass(kernel, n - 1) + kernel[n - 1]
  }

  /** With byte samples, a partial window sum lies between -255 times the
      negative mass and 255 times the positive mass of the weights used. */
  lemma {:induction false} WindowSumBounded(input: seq<byte>, g: Geometry, channel: int, x: int, y: int,
                                            kernel: seq<int>, n: nat)
    requires Fits(input, g, channel) && Interior(g, x, y) && IsKernel(kernel)
    requires n <= KERNEL_SIZE * KERNEL_SIZE
    ensures -MAX_SAMPLE * NegativeMass(kernel, n) <= WindowSum(input, g, channel, x, y, kernel, n)
            <= MAX_SAMPLE * PositiveMass(kernel, n)
  {
    if n > 0 {
      WindowSumBounded(input, g, channel, x, y, kernel, n - 1);
      var ky, kx := (n - 1) / KERNEL_SIZE - HALF, (n - 1) % KERNEL_SIZE - HALF;
      var v := Neighbour(input, g, channel, x, y, ky, kx) as int;
      var w := kernel[n - 1];
      assert KernelIndex(ky, kx) == n - 1;
      assert Tap(input, g, channel, x, y, kernel, ky, kx) == v * w;
      TapBounded(v, w);
    }
  }

  /** One tap: a byte sample times weight w lies between -255 times the
      negative part and 255 times the positive part of w. */
  lemma TapBounded(v: int, w: int)
    requires 0 <= v <= MAX_SAMPLE
    ensures -MAX_SAMPLE * (if w < 0 then -w else 0) <= v * w <= MAX_SAMPLE * (if w > 0 then w else 0)
  {
    if w >= 0 {
      MulMono(0, v, w);
      MulMono(v, MAX_SAMPLE, w);
    } else {
      MulMono(0, v, -w);
      MulMono(v, MAX_SAMPLE, -w);
    }
  }

  /** Every sample of the 3x3 same-channel neighbourhood of (x, y) equals v. */
  predicate Flat(input: seq<byte>, g: Geometry, channel: int, x: int, y: int, v: int)
    requires Fits(input, g, channel) && Interior(g, x, y)
  {
    forall ky, kx | -HALF <= ky <= HALF && -HALF <= kx <= HALF ::
      Neighbour(input, g, channel, x, y, ky, kx) as int == v
  }

  /** Over a flat neighbourhood, where every sample equals v, a partial
      window sum is v times the sum of the weights used. */
  lemma {:induction false} WindowSumFlat(input: seq<byte>, g: Geometry, channel: int, x: int, y: int,
                                         kernel: seq<int>, n: nat, v: int)
    requires Fits(input, g, channel) && Interior(g, x, y) && IsKernel(kernel)
    requires n <= KERNEL_SIZE * KERNEL_SIZE
    requires Flat(input, g, channel, x, y, v)
    ensures WindowSum(input, g, channel, x, y, kernel, n) == v * Mass(kernel, n)
  {
    if n > 0 {
      WindowSumFlat(input, g, channel, x, y, kernel, n - 1, v);
      var ky, kx := (n - 1) / KERNEL_SIZE - HALF, (n - 1) % KERNEL_SIZE - HALF;
      assert KernelIndex(ky, kx) == n - 1;
      assert Neighbour(input, g, channel, x, y, ky, kx) as int == v;
      var w, m := kernel[n - 1], Mass(kernel, n - 1);
      assert Tap(input, g, channel, x, y, kernel, ky, kx) == v * w;
      assert WindowSum(input, g, channel, x, y, kernel, n)
             == WindowSum(input, g, channel, x, y, kernel, n - 1) + v * w;
      assert Mass(kernel, n) == m + w;
      MulDistributes(v, m, w);
    }
  }

  /** Multiplication distributes over addition. */
  lemma MulDistributes(v: int, a: int, b: int)
    ensures v * (a + b) == v * a + v * b
  {
  }

  /** The premise of the integer model: with the Sobel kernels each gradient
      lies in [-1020, 1020], so gx^2 + gy^2 is at most 2,080,800, below 2^24.
      (That single precision then holds every intermediate exactly is the
      informal step built on this bound; it is not stated here.) */
  lemma SobelGradientsExact(input: seq<byte>, g: Geometry, channel: int, x: int, y: int)
    requires Fits(input, g, channel) && Interior(g, x, y)
    ensures IsKernel(SOBEL_X) && IsKernel(SOBEL_Y)
    ensures -1020 <= Gradient(input, g, channel, x, y, SOBEL_X) <= 1020
    ensures -1020 <= Gradient(input, g, channel, x, y, SOBEL_Y) <= 1020
    ensures var gx := Gradient(input, g, channel, x, y, SOBEL_X);
            var gy := Gradient(input, g, channel, x, y, SOBEL_Y);
            0 <= gx * gx + gy * gy <= 2080800 < 0x100_0000
  {
    assert PositiveMass(SOBEL_X, 9) == 4 && NegativeMass(SOBEL_X, 9) == 4;
    assert PositiveMass(SOBEL_Y, 9) == 4 && NegativeMass(SOBEL_Y, 9) == 4;
    WindowSumBounded(input, g, channel, x, y, SOBEL_X, 9);
    WindowSumBounded(input, g, channel, x, y, SOBEL_Y, 9);
    var gx := Gradient(input, g, channel, x, y, SOBEL_X);
    var gy := Gradient(input, g, channel, x, y, SOBEL_Y);
    SquareBound(gx, 1020);
    SquareBound(gy, 1020);
  }

  /** A number of magnitude at most b has a square of at most b^2. */
  lemma SquareBound(a: int, b: int)
    requires -b <= a <= b
    ensures 0 <= a * a <= b * b
  {
    var m := if a < 0 then -a else a;
    assert a * a == m * m;
    MulMono(0, m, m);
    MulMono(m, b, m);
    MulMono(m, b, b);
  }

  /** A flat neighbourhood, however bright, has no edge: both Sobel kernels
      weigh to zero, so the output sample is 0 and never clamps. */
  lemma FlatNeighbourhoodNoEdge(input: seq<byte>, g: Geometry, channel: int, x: int, y: int, v: int)
    requires Fits(input, g, channel) && Interior(g, x, y)
    requires Flat(input, g, channel, x, y, v)
    ensures IsKernel(SOBEL_X) && IsKernel(SOBEL_Y)
    ensures Gradient(input, g, channel, x, y, SOBEL_X) == 0
    ensures Gradient(input, g, channel, x, y, SOBEL_Y) == 0
    ensures EdgeValue(input, g, channel, x, y, SOBEL_X, SOBEL_Y) == 0
  {
    assert Mass(SOBEL_X, 9) == 0 && Mass(SOBEL_Y, 9) == 0;
    WindowSumFlat(input, g, channel, x, y, SOBEL_X, 9, v);
    WindowSumFlat(input, g, channel, x, y, SOBEL_Y, 9, v);
  }

  /** A clamped root of a number at least 255^2 is 255. */
  lemma ClampedRootOfLarge(n: int, m: int)
    requires 0 <= m <= MAX_SAMPLE && (m < MAX_SAMPLE ==> n < (m + 1) * (m + 1))
    requires MAX_SAMPLE * MAX_SAMPLE <= n
    ensures m == MAX_SAMPLE
  {
    if m < MAX_SAMPLE {
      MulMono(m + 1, MAX_SAMPLE, m + 1);
      MulMono(m + 1, MAX_SAMPLE, MAX_SAMPLE);
    }
  }

  /** Saturation: whenever gx^2 + gy^2 reaches 255^2 the output sample is
      255, not a wrapped-around byte. */
  lemma MagnitudeSaturates(gx: int, gy: int)
    requires gx * gx + gy * gy >= MAX_SAMPLE * MAX_SAMPLE
    ensures Magnitude(gx, gy) == MAX_SAMPLE
  {
    ClampedRootOfLarge(gx * gx + gy * gy, Magnitude(gx, gy));
  }

  /** In particular a single gradient of magnitude at least 255 saturates,
      whatever the other one is. */
  lemma OneGradientSaturates(gx: int, gy: int)
    requires gx <= -MAX_SAMPLE || MAX_SAMPLE <= gx
    ensures Magnitude(gx, gy) == MAX_SAMPLE
  {
    var a := if gx < 0 then -gx else gx;
    assert gx * gx == a * a;
    MulMono(MAX_SAMPLE, a, a);
    MulMono(MAX_SAMPLE, a, MAX_SAMPLE);
    SquareBound(gy, if gy < 0 then -gy else gy);
    MagnitudeSaturates(gx, gy);
  }

  /** Across a vertical edge, where the column left of x holds a and the
      column right of x holds b, the horizontal gradient is 4 * (b - a)
      whatever the middle column holds. */
  lemma VerticalEdgeGradient(input: seq<byte>, g: Geometry, channel: int, x: int, y: int, a: int, b: int)
    requires Fits(input, g, channel) && Interior(g, x, y)
    requires forall ky | -HALF <= ky <= HALF ::
               Neighbour(input, g, channel, x, y, ky, -1) as int == a
               && Neighbour(input, g, channel, x, y, ky, 1) as int == b
    ensures IsKernel(SOBEL_X)
    ensures Gradient(input, g, channel, x, y, SOBEL_X) == 4 * (b - a)
  {
    assert SOBEL_X[KernelIndex(-1, 0)] == SOBEL_X[KernelIndex(0, 0)] == SOBEL_X[KernelIndex(1, 0)] == 0;
    assert Neighbour(input, g, channel, x, y, -1, -1) as int == a && Neighbour(input, g, channel, x, y, -1, 1) as int == b;
    assert Neighbour(input, g, channel, x, y, 0, -1) as int == a && Neighbour(input, g, channel, x, y, 0, 1) as int == b;
    assert Neighbour(input, g, channel, x, y, 1, -1) as int == a && Neighbour(input, g, channel, x, y, 1, 1) as int == b;
    assert Tap(input, g, channel, x, y, SOBEL_X, -1, -1) == -a;
    assert Tap(input, g, channel, x, y, SOBEL_X, -1, 0) == 0;
    assert Tap(input, g, channel, x, y, SOBEL_X, -1, 1) == b;
    assert Tap(input, g, channel, x, y, SOBEL_X, 0, -1) == -2 * a;
    assert Tap(input, g, channel, x, y, SOBEL_X, 0, 0) == 0;
    assert Tap(input, g, channel, x, y, SOBEL_X, 0, 1) == 2 * b;
    assert Tap(input, g, channel, x, y, SOBEL_X, 1, -1) == -a;
    assert Tap(input, g, channel, x, y, SOBEL_X, 1, 0) == 0;
    assert Tap(input, g, channel, x, y, SOBEL_X, 1, 1) == b;
    assert WindowSum(input, g, channel, x, y, SOBEL_X, 1) == -a;
    assert WindowSum(input, g, channel, x, y, SOBEL_X, 2) == -a;
    assert WindowSum(input, g, channel, x, y, SOBEL_X, 3) == b - a;
    assert WindowSum(input, g, channel, x, y, SOBEL_X, 4) == b - 3 * a;
    assert WindowSum(input, g, channel, x, y, SOBEL_X, 5) == b - 3 * a;
    assert WindowSum(input, g, channel, x, y, SOBEL_X, 6) == 3 * b - 3 * a;
    assert WindowSum(input, g, channel, x, y, SOBEL_X, 7) == 3 * b - 4 * a;
    assert WindowSum(input, g, channel, x, y, SOBEL_X, 8) == 3 * b - 4 * a;
    assert WindowSum(input, g, channel, x, y, SOBEL_X, 9) == 4 * b - 4 * a;
  }

  /** A vertical edge whose sides differ by 64 or more saturates the output
      sample at 255 instead of wrapping around; a black-to-white step
      (gx = 1020) is the extreme case. */
  lemma VerticalEdgeSaturates(input: seq<byte>, g: Geometry, channel: int, x: int, y: int, a: int, b: int)
    requires Fits(input, g, channel) && Interior(g, x, y)
    requires forall ky | -HALF <= ky <= HALF ::
               Neighbour(input, g, channel, x, y, ky, -1) as int == a
               && Neighbour(input, g, channel, x, y, ky, 1) as int == b
    requires b - a >= 64 || a - b >= 64
    ensures IsKernel(SOBEL_X) && IsKernel(SOBEL_Y)
    ensures EdgeValue(input, g, channel, x, y, SOBEL_X, SOBEL_Y) == 255
  {
    VerticalEdgeGradient(input, g, channel, x, y, a, b);
    OneGradientSaturates(Gradient(input, g, channel, x, y, SOBEL_X), Gradient(input, g, channel, x, y, SOBEL_Y));
  }

  /** A 5x5 single-channel image, black except for a 3x3 square of value 200
      centred on (2, 2). */
  function BrightSquare(): (img: seq<byte>)
    ensures |img| == Geometry(5, 5, 1).Size()
  {
    seq(25, i => if 1 <= i % 5 <= 3 && 1 <= i / 5 <= 3 then 200 as byte else 0 as byte)
  }

  /** Golden value for the bright square: its flat centre gives 0. */
  lemma BrightSquareCentre()
    ensures IsKernel(SOBEL_X) && IsKernel(SOBEL_Y)
    ensures Fits(BrightSquare(), Geometry(5, 5, 1), 0)
    ensures EdgeValue(BrightSquare(), Geometry(5, 5, 1), 0, 2, 2, SOBEL_X, SOBEL_Y) == 0
  {
    var img, g := BrightSquare(), Geometry(5, 5, 1);
    forall ky, kx | -HALF <= ky <= HALF && -HALF <= kx <= HALF
      ensures Neighbour(img, g, 0, 2, 2, ky, kx) as int == 200
    {
      assert SampleIndex(g, 2 + kx, 2 + ky, 0) == 12 + 5 * ky + kx;
    }
    FlatNeighbourhoodNoEdge(img, g, 0, 2, 2, 200);
  }

  /** Golden value for the bright square: the middle of its left edge has
      gx = 800 and saturates at 255. */
  lemma BrightSquareLeftEdge()
    ensures IsKernel(SOBEL_X) && IsKernel(SOBEL_Y)
    ensures Fits(BrightSquare(), Geometry(5, 5, 1), 0)
    ensures Gradient(BrightSquare(), Geometry(5, 5, 1), 0, 1, 2, SOBEL_X) == 800
    ensures EdgeValue(BrightSquare(), Geometry(5, 5, 1), 0, 1, 2, SOBEL_X, SOBEL_Y) == 255
  {
    var img, g := BrightSquare(), Geometry(5, 5, 1);
    forall ky | -HALF <= ky <= HALF
      ensures Neighbour(img, g, 0, 1, 2, ky, -1) as int == 0
      ensures Neighbour(img, g, 0, 1, 2, ky, 1) as int == 200
    {
      assert SampleIndex(g, 0, 2 + ky, 0) == 10 + 5 * ky;
      assert SampleIndex(g, 2, 2 + ky, 0) == 12 + 5 * ky;
    }
    VerticalEdgeGradient(img, g, 0, 1, 2, 0, 200);
    VerticalEdgeSaturates(img, g, 0, 1, 2, 0, 200);
  }
}

/** The convolution unit of photo.cpp (`apply_convolution`): one channel of
    the image is convolved with a horizontal and a vertical 3x3 kernel, and
    the gradient magnitude of every interior pixel is written to the output
    buffer in place. */
module Convolution {
  import opened Layout

  /** The largest value a sample can hold. */
  const MAX_SAMPLE: int := 255

  /** A kernel is a row-major 3x3 matrix of integer weights. */
  predicate IsKernel(k: seq<int>) {
    |k| == KERNEL_SIZE * KERNEL_SIZE
  }

  /** `input` holds at least the samples of `g` (any further samples are
      never read) and `channel` is one of its channels. */
  predicate Fits(input: seq<byte>, g: Geometry, channel: int) {
    |input| >= g.Size() && 0 <= channel < g.channels
  }

  /** The floor of the square root of n. */
  function Isqrt(n: nat): (r: nat)
    ensures r * r <= n < (r + 1) * (r + 1)
  {
    if n < 4 then
      (if n == 0 then 0 else 1)
    else
      var r0 := Isqrt(n / 4);
      IsqrtStep(n, r0);
      var h := 2 * r0;
      if (h + 1) * (h + 1) <= n then h + 1 else h
  }

  /** Doubling the root of n / 4 brackets the root of n. */
  lemma IsqrtStep(n: nat, r0: nat)
    requires r0 * r0 <= n / 4 < (r0 + 1) * (r0 + 1)
    ensures (2 * r0) * (2 * r0) <= n < (2 * r0 + 2) * (2 * r0 + 2)
  {
    var q := n / 4;
    assert n == 4 * q + n % 4;
    assert (2 * r0) * (2 * r0) == 4 * (r0 * r0);
    assert (2 * r0 + 2) * (2 * r0 + 2) == 4 * ((r0 + 1) * (r0 + 1));
  }

  /** The output sample for gradients gx and gy: sqrt(gx^2 + gy^2) clamped to
      [0, MAX_SAMPLE] and truncated towards zero, i.e. the floor of the root,
      saturated at MAX_SAMPLE. */
  function Magnitude(gx: int, gy: int): (m: int)
    ensures 0 <= m <= MAX_SAMPLE
    ensures m * m <= gx * gx + gy * gy
    ensures m < MAX_SAMPLE ==> gx * gx + gy * gy < (m + 1) * (m + 1)
  {
    MulMono(0, if gx < 0 then -gx else gx, if gx < 0 then -gx else gx);
    MulMono(0, if gy < 0 then -gy else gy, if gy < 0 then -gy else gy);
    var r := Isqrt(gx * gx + gy * gy);
    if r < MAX_SAMPLE then r
    else
      MulMono(MAX_SAMPLE, r, MAX_SAMPLE);
      MulMono(MAX_SAMPLE, r, r);
      MAX_SAMPLE
  }

  /** The same-channel sample of the neighbour (x + kx, y + ky) of an interior
      pixel lies inside the buffer. */
  lemma NeighbourInBounds(g: Geometry, x: int, y: int, ky: int, kx: int, channel: int)
    requires Interior(g, x, y) && 0 <= channel < g.channels
    requires -HALF <= ky <= HALF && -HALF <= kx <= HALF
    ensures 0 <= SampleIndex(g, x + kx, y + ky, channel) < g.Size()
  {
    SampleIndexInBounds(g, x + kx, y + ky, channel);
  }

  /** The same-channel sample of the neighbour (x + kx, y + ky) of (x, y). */
  function Neighbour(input: seq<byte>, g: Geometry, channel: int, x: int, y: int,
                     ky: int, kx: int): byte
    requires Fits(input, g, channel) && Interior(g, x, y)
    requires -HALF <= ky <= HALF && -HALF <= kx <= HALF
  {
    NeighbourInBounds(g, x, y, ky, kx, channel);
    input[SampleIndex(g, x + kx, y + ky, channel)]
  }

  /** One term of the weighted sum: neighbour (x + kx, y + ky) times its weight. */
  function Tap(input: seq<byte>, g: Geometry, channel: int, x: int, y: int,
               kernel: seq<int>, ky: int, kx: int): int
    requires Fits(input, g, channel) && Interior(g, x, y) && IsKernel(kernel)
    requires -HALF <= ky <= HALF && -HALF <= kx <= HALF
  {
    Neighbour(input, g, channel, x, y, ky, kx) as int * kernel[KernelIndex(ky, kx)]
  }

  /** The sum of the first n taps, in the order the source visits them
      (ky outer, kx inner). */
  function WindowSum(input: seq<byte>, g: Geometry, channel: int, x: int, y: int,
                     kernel: seq<int>, n: nat): int
    requires Fits(input, g, channel) && Interior(g, x, y) && IsKernel(kernel)
    requires n <= KERNEL_SIZE * KERNEL_SIZE
  {
    if n == 0 then 0
    else
      WindowSum(input, g, channel, x, y, kernel, n - 1)
      + Tap(input, g, channel, x, y, kernel, (n - 1) / KERNEL_SIZE - HALF, (n - 1) % KERNEL_SIZE - HALF)
  }

  /** The kernel-weighted sum over the 3x3 same-channel neighbourhood of (x, y). */
  function Gradient(input: seq<byte>, g: Geometry, channel: int, x: int, y: int,
                    kernel: seq<int>): int
    requires Fits(input, g, channel) && Interior(g, x, y) && IsKernel(kernel)
  {
    WindowSum(input, g, channel, x, y, kernel, KERNEL_SIZE * KERNEL_SIZE)
  }

  /** The output sample of interior pixel (x, y) in `channel`. */
  function EdgeValue(input: seq<byte>, g: Geometry, channel: int, x: int, y: int,
                     kernelX: seq<int>, kernelY: seq<int>): byte
    requires Fits(input, g, channel) && Interior(g, x, y)
    requires IsKernel(kernelX) && IsKernel(kernelY)
  {
    Magnitude(Gradient(input, g, channel, x, y, kernelX),
              Gradient(input, g, channel, x, y, kernelY)) as byte
  }

  /** Sample index i is one that the pass for `channel` writes: it carries
      that channel and belongs to an interior pixel. */
  predicate Written(g: Geometry, channel: int, i: int)
    requires g.channels > 0
  {
    g.width > 0 && ChannelOf(g, i) == channel && Interior(g, ColumnOf(g, i), RowOf(g, i))
  }

  /** The value the pass for `channel` leaves at a written index. */
  function EdgeAt(input: seq<byte>, g: Geometry, channel: int,
                  kernelX: seq<int>, kernelY: seq<int>, i: int): byte
    requires Fits(input, g, channel) && IsKernel(kernelX) && IsKernel(kernelY)
    requires Written(g, channel, i)
  {
    EdgeValue(input, g, channel, ColumnOf(g, i), RowOf(g, i), kernelX, kernelY)
  }

  /** Every interior pixel's sample in `channel` is a written index that
      decodes back to that pixel. */
  lemma InteriorSamplesWritten(g: Geometry, channel: int)
    requires 0 <= channel < g.channels
    ensures forall x, y | Interior(g, x, y) ::
              0 <= SampleIndex(g, x, y, channel) < g.Size()
              && Written(g, channel, SampleIndex(g, x, y, channel))
              && ColumnOf(g, SampleIndex(g, x, y, channel)) == x
              && RowOf(g, SampleIndex(g, x, y, channel)) == y
  {
    forall x, y | Interior(g, x, y)
      ensures 0 <= SampleIndex(g, x, y, channel) < g.Size()
      ensures Written(g, channel, SampleIndex(g, x, y, channel))
      ensures ColumnOf(g, SampleIndex(g, x, y, channel)) == x
      ensures RowOf(g, SampleIndex(g, x, y, channel)) == y
    {
      SampleIndexInBounds(g, x, y, channel);
      SampleIndexDecodes(g, x, y, channel);
    }
  }

  /** The buffer after the pass for `channel`: every written index holds the
      gradient magnitude of its pixel, every other index keeps its value. */
  function ConvolvedChannel(input: seq<byte>, before: seq<byte>, g: Geometry,
                            kernelX: seq<int>, kernelY: seq<int>, channel: int): (after: seq<byte>)
    requires Fits(input, g, channel) && |before| == g.Size()
    requires IsKernel(kernelX) && IsKernel(kernelY)
    ensures |after| == |before|
    ensures forall x, y | Interior(g, x, y) ::
              0 <= SampleIndex(g, x, y, channel) < |after|
              && after[SampleIndex(g, x, y, channel)] == EdgeValue(input, g, channel, x, y, kernelX, kernelY)
    ensures forall i | 0 <= i < |after| && !Written(g, channel, i) :: after[i] == before[i]
  {
    InteriorSamplesWritten(g, channel);
    seq(|before|, i requires 0 <= i < |before| =>
      if Written(g, channel, i) then EdgeAt(input, g, channel, kernelX, kernelY, i) else before[i])
  }

  /** `out` is `before` with the pass for `channel` carried out on every
      interior pixel that precedes (x, y) in row-major order. */
  ghost predicate DoneBefore(input: seq<byte>, before: seq<byte>, out: seq<byte>, g: Geometry,
                             kernelX: seq<int>, kernelY: seq<int>, channel: int, x: int, y: int)
    requires Fits(input, g, channel) && IsKernel(kernelX) && IsKernel(kernelY)
  {
    |before| == |out| == g.Size()
    && forall i | 0 <= i < |out| ::
         out[i] == if Written(g, channel, i) && (RowOf(g, i) < y || (RowOf(g, i) == y && ColumnOf(g, i) < x))
                   then EdgeAt(input, g, channel, kernelX, kernelY, i) else before[i]
  }

  /** Nothing is done before the first interior pixel. */
  lemma DoneBeforeStart(input: seq<byte>, before: seq<byte>, g: Geometry,
                        kernelX: seq<int>, kernelY: seq<int>, channel: int)
    requires Fits(input, g, channel) && IsKernel(kernelX) && IsKernel(kernelY) && |before| == g.Size()
    ensures DoneBefore(input, before, before, g, kernelX, kernelY, channel, HALF, HALF)
  {
  }

  /** Storing the magnitude of (x, y) advances the pass by one pixel. */
  lemma DoneBeforeStep(input: seq<byte>, before: seq<byte>, out: seq<byte>, g: Geometry,
                       kernelX: seq<int>, kernelY: seq<int>, channel: int, x: int, y: int)
    requires Fits(input, g, channel) && IsKernel(kernelX) && IsKernel(kernelY) && Interior(g, x, y)
    requires DoneBefore(input, before, out, g, kernelX, kernelY, channel, x, y)
    ensures 0 <= SampleIndex(g, x, y, channel) < |out|
    ensures DoneBefore(input, before,
                       out[SampleIndex(g, x, y, channel) := EdgeValue(input, g, channel, x, y, kernelX, kernelY)],
                       g, kernelX, kernelY, channel, x + 1, y)
  {
    var k := SampleIndex(g, x, y, channel);
    SampleIndexInBounds(g, x, y, channel);
    SampleIndexDecodes(g, x, y, channel);
    var out' := out[k := EdgeValue(input, g, channel, x, y, kernelX, kernelY)];
    forall i | 0 <= i < |out'|
      ensures out'[i] == if Written(g, channel, i) && (RowOf(g, i) < y || (RowOf(g, i) == y && ColumnOf(g, i) < x + 1))
                         then EdgeAt(input, g, channel, kernelX, kernelY, i) else before[i]
    {
      if i != k && Written(g, channel, i) && RowOf(g, i) == y && ColumnOf(g, i) == x {
        IndexDecodesInBounds(g, i);
        assert false;
      }
    }
  }

  /** Once the row's interior is finished, the pass continues on the next row. */
  lemma DoneBeforeNextRow(input: seq<byte>, before: seq<byte>, out: seq<byte>, g: Geometry,
                          kernelX: seq<int>, kernelY: seq<int>, channel: int, x: int, y: int)
    requires Fits(input, g, channel) && IsKernel(kernelX) && IsKernel(kernelY)
    requires x >= g.width - HALF
    requires DoneBefore(input, before, out, g, kernelX, kernelY, channel, x, y)
    ensures DoneBefore(input, before, out, g, kernelX, kernelY, channel, HALF, y + 1)
  {
  }

  /** Once every interior row is finished, the buffer is the whole pass. */
  lemma DoneBeforeEnd(input: seq<byte>, before: seq<byte>, out: seq<byte>, g: Geometry,
                      kernelX: seq<int>, kernelY: seq<int>, channel: int, y: int)
    requires Fits(input, g, channel) && IsKernel(kernelX) && IsKernel(kernelY)
    requires y >= g.height - HALF
    requires DoneBefore(input, before, out, g, kernelX, kernelY, channel, HALF, y)
    ensures out == ConvolvedChannel(input, before, g, kernelX, kernelY, channel)
  {
  }

  /** The window sum grows by one tap at a time, in visiting order. */
  lemma WindowSumNext(input: seq<byte>, g: Geometry, channel: int, x: int, y: int,
                      kernel: seq<int>, ky: int, kx: int)
    requires Fits(input, g, channel) && Interior(g, x, y) && IsKernel(kernel)
    requires -HALF <= ky <= HALF && -HALF <= kx <= HALF
    ensures 0 <= SampleIndex(g, x + kx, y + ky, channel) < |input|
    ensures WindowSum(input, g, channel, x, y, kernel, KernelIndex(ky, kx) + 1)
            == WindowSum(input, g, channel, x, y, kernel, KernelIndex(ky, kx))
               + input[SampleIndex(g, x + kx, y + ky, channel)] as int * kernel[KernelIndex(ky, kx)]
  {
    NeighbourInBounds(g, x, y, ky, kx, channel);
  }

  /** The inner two loops of `apply_convolution`: accumulate gx and gy over
      the 3x3 same-channel neighbourhood of interior pixel (x, y), visiting
      the taps with ky outer and kx inner. */
  method NeighbourhoodSums(input: seq<byte>, g: Geometry, channel: int, x: int, y: int,
                           kernelX: seq<int>, kernelY: seq<int>) returns (gx: int, gy: int)
    requires Fits(input, g, channel) && Interior(g, x, y)
    requires IsKernel(kernelX) && IsKernel(kernelY)
    ensures gx == Gradient(input, g, channel, x, y, kernelX)
    ensures gy == Gradient(input, g, channel, x, y, kernelY)
  {
    gx, gy := 0, 0;
    var ky := -HALF;
    while ky <= HALF
      invariant -HALF <= ky <= HALF + 1
      invariant gx == WindowSum(input, g, channel, x, y, kernelX, (ky + HALF) * KERNEL_SIZE)
      invariant gy == WindowSum(input, g, channel, x, y, kernelY, (ky + HALF) * KERNEL_SIZE)
    {
      var kx := -HALF;
      while kx <= HALF
        invariant -HALF <= kx <= HALF + 1
        invariant gx == WindowSum(input, g, channel, x, y, kernelX, (ky + HALF) * KERNEL_SIZE + (kx + HALF))
        invariant gy == WindowSum(input, g, channel, x, y, kernelY, (ky + HALF) * KERNEL_SIZE + (kx + HALF))
      {
        var pixelIndex := SampleIndex(g, x + kx, y + ky, channel);
        var kernelIndex := KernelIndex(ky, kx);
        NeighbourInBounds(g, x, y, ky, kx, channel);
        WindowSumNext(input, g, channel, x, y, kernelX, ky, kx);
        WindowSumNext(input, g, channel, x, y, kernelY, ky, kx);
        gx := gx + input[pixelIndex] as int * kernelX[kernelIndex];
        gy := gy + input[pixelIndex] as int * kernelY[kernelIndex];
        kx := kx + 1;
      }
      ky := ky + 1;
    }
  }

  /** `apply_convolution`: for every interior pixel, in row-major order,
      accumulate gx and gy over the 3x3 same-channel neighbourhood and store
      the clamped magnitude in `output`. `input` is a separate buffer. */
  method ApplyConvolution(input: seq<byte>, output: array<byte>, width: nat, height: nat,
                          kernelX: seq<int>, kernelY: seq<int>, channel: nat, channels: nat)
    requires |input| >= output.Length == width * height * channels
    requires channel < channels
    requires IsKernel(kernelX) && IsKernel(kernelY)
    modifies output
    ensures output[..] == ConvolvedChannel(input, old(output[..]), Geometry(width, height, channels),
                                           kernelX, kernelY, channel)
  {
    var g := Geometry(width, height, channels);
    ghost var before := output[..];
    DoneBeforeStart(input, before, g, kernelX, kernelY, channel);
    var y := HALF;
    while y < height - HALF
      invariant HALF <= y && (y <= height - HALF || y == HALF)
      invariant DoneBefore(input, before, output[..], g, kernelX, kernelY, channel, HALF, y)
    {
      var x := HALF;
      while x < width - HALF
        invariant HALF <= x && (x <= width - HALF || x == HALF)
        invariant DoneBefore(input, before, output[..], g, kernelX, kernelY, channel, x, y)
      {
        var gx, gy := NeighbourhoodSums(input, g, channel, x, y, kernelX, kernelY);
        DoneBeforeStep(input, before, output[..], g, kernelX, kernelY, channel, x, y);
        output[SampleIndex(g, x, y, channel)] := Magnitude(gx, gy) as byte;
        x := x + 1;
      }
      DoneBeforeNextRow(input, before, output[..], g, kernelX, kernelY, channel, x, y);
      y := y + 1;
    }
    DoneBeforeEnd(input, before, output[..], g, kernelX, kernelY, channel, y);
  }

  // Properties of one channel pass

  /** The pass writes only interior samples of its own channel: the border
      pixels of every channel and all samples of the other channels keep
      their values. */
  lemma ConvolvedChannelFrame(input: seq<byte>, before: seq<byte>, g: Geometry,
                              kernelX: seq<int>, kernelY: seq<int>, channel: int)
    requires Fits(input, g, channel) && |before| == g.Size()
    requires IsKernel(kernelX) && IsKernel(kernelY)
    ensures forall x, y, c | 0 <= x < g.width && 0 <= y < g.height && 0 <= c < g.channels
                             && (c != channel || !Interior(g, x, y)) ::
              var after := ConvolvedChannel(input, before, g, kernelX, kernelY, channel);
              0 <= SampleIndex(g, x, y, c) < |before|
              && after[SampleIndex(g, x, y, c)] == before[SampleIndex(g, x, y, c)]
  {
    forall x, y, c | 0 <= x < g.width && 0 <= y < g.height && 0 <= c < g.channels
                     && (c != channel || !Interior(g, x, y))
      ensures 0 <= SampleIndex(g, x, y, c) < |before|
      ensures ConvolvedChannel(input, before, g, kernelX, kernelY, channel)[SampleIndex(g, x, y, c)]
              == before[SampleIndex(g, x, y, c)]
    {
      SampleIndexInBounds(g, x, y, c);
      SampleIndexDecodes(g, x, y, c);
    }
  }

  /** An image narrower or shorter than three pixels has no interior pixel,
      so the pass leaves the output buffer as it was. */
  lemma SmallImageUnchanged(input: seq<byte>, before: seq<byte>, g: Geometry,
                            kernelX: seq<int>, kernelY: seq<int>, channel: int)
    requires Fits(input, g, channel) && |before| == g.Size()
    requires IsKernel(kernelX) && IsKernel(kernelY)
    requires g.width < 3 || g.height < 3
    ensures ConvolvedChannel(input, before, g, kernelX, kernelY, channel) == before
  {
    var after := ConvolvedChannel(input, before, g, kernelX, kernelY, channel);
    forall i | 0 <= i < |before|
      ensures after[i] == before[i]
    {
      assert !Written(g, channel, i);
    }
  }

  /** The values written depend only on `input`, so running the pass a second
      time changes nothing. */
  lemma ConvolvedChannelIdempotent(input: seq<byte>, before: seq<byte>, g: Geometry,
                                   kernelX: seq<int>, kernelY: seq<int>, channel: int)
    requires Fits(input, g, channel) && |before| == g.Size()
    requires IsKernel(kernelX) && IsKernel(kernelY)
    ensures var once := ConvolvedChannel(input, before, g, kernelX, kernelY, channel);
            ConvolvedChannel(input, once, g, kernelX, kernelY, channel) == once
  {
    var once := ConvolvedChannel(input, before, g, kernelX, kernelY, channel);
    var twice := ConvolvedChannel(input, once, g, kernelX, kernelY, channel);
    forall i | 0 <= i < |once|
      ensures twice[i] == once[i]
    {
      if Written(g, channel, i) {
        assert twice[i] == EdgeAt(input, g, channel, kernelX, kernelY, i) == once[i];
      }
    }
  }

  /** Two inputs, each holding at least the samples of `g`, agree on every
      sample of `channel` inside the image. */
  predicate SameChannel(input1: seq<byte>, input2: seq<byte>, g: Geometry, channel: int) {
    g.channels > 0 && |input1| >= g.Size() && |input2| >= g.Size()
    && forall i | 0 <= i < g.Size() && ChannelOf(g, i) == channel :: input1[i] == input2[i]
  }

  /** A partial window sum reads only samples of its own channel. */
  lemma {:induction false} WindowSumSameChannel(input1: seq<byte>, input2: seq<byte>, g: Geometry,
                                                channel: int, x: int, y: int, kernel: seq<int>, n: nat)
    requires Fits(input1, g, channel) && Fits(input2, g, channel) && Interior(g, x, y) && IsKernel(kernel)
    requires n <= KERNEL_SIZE * KERNEL_SIZE
    requires SameChannel(input1, input2, g, channel)
    ensures WindowSum(input1, g, channel, x, y, kernel, n) == WindowSum(input2, g, channel, x, y, kernel, n)
  {
    if n > 0 {
      WindowSumSameChannel(input1, input2, g, channel, x, y, kernel, n - 1);
      var ky, kx := (n - 1) / KERNEL_SIZE - HALF, (n - 1) % KERNEL_SIZE - HALF;
      SampleIndexInBounds(g, x + kx, y + ky, channel);
      SampleIndexDecodes(g, x + kx, y + ky, channel);
    }
  }

  /** Channel independence: the pass for `channel` reads only samples of
      `channel`, so inputs that differ only in other channels give the same
      buffer. */
  lemma ConvolvedChannelIndependent(input1: seq<byte>, input2: seq<byte>, before: seq<byte>, g: Geometry,
                                    kernelX: seq<int>, kernelY: seq<int>, channel: int)
    requires Fits(input1, g, channel) && Fits(input2, g, channel) && |before| == g.Size()
    requires IsKernel(kernelX) && IsKernel(kernelY)
    requires SameChannel(input1, input2, g, channel)
    ensures ConvolvedChannel(input1, before, g, kernelX, kernelY, channel)
            == ConvolvedChannel(input2, before, g, kernelX, kernelY, channel)
  {
    var after1 := ConvolvedChannel(input1, before, g, kernelX, kernelY, channel);
    var after2 := ConvolvedChannel(input2, before, g, kernelX, kernelY, channel);
    forall i | 0 <= i < |before|
      ensures after1[i] == after2[i]
    {
      if Written(g, channel, i) {
        var x, y := ColumnOf(g, i), RowOf(g, i);
        WindowSumSameChannel(input1, input2, g, channel, x, y, kernelX, KERNEL_SIZE * KERNEL_SIZE);
        WindowSumSameChannel(input1, input2, g, channel, x, y, kernelY, KERNEL_SIZE * KERNEL_SIZE);
      }
    }
  }

  /** On a 3x3 image the pass writes exactly one sample: that of the centre
      pixel (1, 1) in its channel; the eight border pixels keep their values. */
  lemma ThreeByThreeWritesCentreOnly(input: seq<byte>, before: seq<byte>, g: Geometry,
                                     kernelX: seq<int>, kernelY: seq<int>, channel: int)
    requires Fits(input, g, channel) && |before| == g.Size()
    requires IsKernel(kernelX) && IsKernel(kernelY)
    requires g.width == 3 && g.height == 3
    ensures var after := ConvolvedChannel(input, before, g, kernelX, kernelY, channel);
            forall i | 0 <= i < |before| && i != SampleIndex(g, 1, 1, channel) :: after[i] == before[i]
  {
    var after := ConvolvedChannel(input, before, g, kernelX, kernelY, channel);
    forall i | 0 <= i < |before| && i != SampleIndex(g, 1, 1, channel)
      ensures after[i] == before[i]
    {
      IndexDecodesInBounds(g, i);
    }
  }
}

/** Layout of the interleaved, row-major sample buffer that the convolution
    reads and writes: the sample of pixel (x, y) in channel c lives at index
    ((y * width + x) * channels + c). */
module Layout {

  /** An unsigned 8-bit sample (`unsigned char` in the source). */
  newtype byte = b: int | 0 <= b < 256

  /** Half the kernel size: the loops skip this many border pixels on each side. */
  const HALF: int := 1
  /** The side of the square kernel. */
  const KERNEL_SIZE: int := 3

  /** The dimensions of an image buffer. */
  datatype Geometry = Geometry(width: nat, height: nat, channels: nat)
  {
    /** Number of samples a buffer of this geometry holds. */
    function Size(): nat {
      width * height * channels
    }
  }

  /** Index of the sample of pixel (x, y), channel c. */
  function SampleIndex(g: Geometry, x: int, y: int, c: int): int {
    (y * g.width + x) * g.channels + c
  }

  /** Position of tap (ky, kx), both in [-HALF, HALF], in a row-major 3x3 kernel. */
  function KernelIndex(ky: int, kx: int): (k: int)
    requires -HALF <= ky <= HALF && -HALF <= kx <= HALF
    ensures 0 <= k < KERNEL_SIZE * KERNEL_SIZE
    ensures k / KERNEL_SIZE == ky + HALF && k % KERNEL_SIZE == kx + HALF
  {
    (ky + HALF) * KERNEL_SIZE + (kx + HALF)
  }

  /** The channel a sample index belongs to. */
  function ChannelOf(g: Geometry, i: int): int
    requires g.channels > 0
  {
    i % g.channels
  }

  /** The column of the pixel a sample index belongs to. */
  function ColumnOf(g: Geometry, i: int): int
    requires g.width > 0 && g.channels > 0
  {
    (i / g.channels) % g.width
  }

  /** The row of the pixel a sample index belongs to. */
  function RowOf(g: Geometry, i: int): int
    requires g.width > 0 && g.channels > 0
  {
    (i / g.channels) / g.width
  }

  /** A pixel with a full 3x3 neighbourhood inside the image. */
  predicate Interior(g: Geometry, x: int, y: int) {
    HALF <= x < g.width - HALF && HALF <= y < g.height - HALF
  }

  /** Multiplying by a non-negative factor keeps an inequality. */
  lemma MulMono(a: int, b: int, c: int)
    requires a <= b && c >= 0
    ensures a * c <= b * c
  {
  }

  /** Euclidean division is determined by quotient and remainder. */
  lemma DivModUnique(i: int, d: int, q: int, r: int)
    requires d > 0 && 0 <= r < d && i == q * d + r
    ensures i / d == q && i % d == r
  {
    var q', r' := i / d, i % d;
    assert i == q' * d + r' && 0 <= r' < d;
    var k := q - q';
    assert k * d == q * d - q' * d;
    assert k * d == r' - r;
    if k >= 1 {
      MulMono(1, k, d);
    } else if k <= -1 {
      MulMono(k, -1, d);
    }
    assert k == 0;
  }

  /** A sample index decodes back to its pixel coordinates and channel. */
  lemma SampleIndexDecodes(g: Geometry, x: int, y: int, c: int)
    requires 0 <= x < g.width && 0 <= y && 0 <= c < g.channels
    ensures ChannelOf(g, SampleIndex(g, x, y, c)) == c
    ensures ColumnOf(g, SampleIndex(g, x, y, c)) == x
    ensures RowOf(g, SampleIndex(g, x, y, c)) == y
  {
    var i := SampleIndex(g, x, y, c);
    DivModUnique(i, g.channels, y * g.width + x, c);
    DivModUnique(y * g.width + x, g.width, y, x);
  }

  /** Every pixel of the image has its samples inside the buffer. */
  lemma SampleIndexInBounds(g: Geometry, x: int, y: int, c: int)
    requires 0 <= x < g.width && 0 <= y < g.height && 0 <= c < g.channels
    ensures 0 <= SampleIndex(g, x, y, c) < g.Size()
  {
    var w, h, ch := g.width, g.height, g.channels;
    var p := y * w + x;
    MulMono(0, y, w);
    MulMono(y + 1, h, w);
    assert (y + 1) * w == y * w + w;
    assert 0 <= p < h * w;
    MulMono(0, p, ch);
    MulMono(p + 1, h * w, ch);
    assert (p + 1) * ch == p * ch + ch;
    assert h * w * ch == g.Size();
  }

  /** Every index of the buffer is the sample of some pixel and channel. */
  lemma IndexDecodesInBounds(g: Geometry, i: int)
    requires g.width > 0 && g.channels > 0 && 0 <= i < g.Size()
    ensures 0 <= ColumnOf(g, i) < g.width
    ensures 0 <= RowOf(g, i) < g.height
    ensures 0 <= ChannelOf(g, i) < g.channels
    ensures SampleIndex(g, ColumnOf(g, i), RowOf(g, i), ChannelOf(g, i)) == i
  {
    var w, h, ch := g.width, g.height, g.channels;
    var p := i / ch;
    assert i == p * ch + i % ch;
    assert p == RowOf(g, i) * w + ColumnOf(g, i);
    assert h * w * ch == g.Size();
    if p < 0 {
      MulMono(p, -1, ch);
    }
    if p >= h * w {
      MulMono(h * w, p, ch);
    }
    assert 0 <= p < h * w;
    if RowOf(g, i) >= h {
      MulMono(h, RowOf(g, i), w);
    }
  }
}

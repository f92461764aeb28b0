/** The parallel driver of photo.cpp (`parallel_filter`): one worker per
    channel, each running the convolution pass of its channel, all launched
    before any is joined. A worker's pass is a sequence of pixel steps (read
    the 3x3 neighbourhood from `input`, write one output sample); the
    threads' steps may interleave in any order. The interleaving is a
    parameter of the model: a schedule naming, step by step, which worker
    moves next. */
module Workers {
  import opened Layout
  import opened Convolution
  import opened Filters

  /** Number of interior pixels, i.e. of steps in one worker's pass. */
  function PixelCount(g: Geometry): nat {
    if g.width >= 3 && g.height >= 3 then
      MulMono(0, g.width - 2, g.height - 2);
      (g.width - 2) * (g.height - 2)
    else 0
  }

  /** Column of the k-th interior pixel in row-major order. */
  function PixelColumn(g: Geometry, k: int): int
    requires g.width >= 3
  {
    HALF + k % (g.width - 2)
  }

  /** Row of the k-th interior pixel in row-major order. */
  function PixelRow(g: Geometry, k: int): int
    requires g.width >= 3
  {
    HALF + k / (g.width - 2)
  }

  /** Position in row-major order, among the interior pixels, of the pixel
      that sample index i belongs to. */
  function Rank(g: Geometry, i: int): int
    requires g.width >= 3 && g.channels > 0
  {
    (RowOf(g, i) - HALF) * (g.width - 2) + (ColumnOf(g, i) - HALF)
  }

  /** The k-th step of a worker visits an interior pixel, and the sample it
      writes has rank k. */
  lemma RankedPixel(g: Geometry, k: int, c: int)
    requires 0 <= k < PixelCount(g) && 0 <= c < g.channels
    ensures g.width >= 3
    ensures Interior(g, PixelColumn(g, k), PixelRow(g, k))
    ensures 0 <= SampleIndex(g, PixelColumn(g, k), PixelRow(g, k), c) < g.Size()
    ensures Written(g, c, SampleIndex(g, PixelColumn(g, k), PixelRow(g, k), c))
    ensures Rank(g, SampleIndex(g, PixelColumn(g, k), PixelRow(g, k), c)) == k
  {
    var iw := g.width - 2;
    var q, r := k / iw, k % iw;
    assert k == q * iw + r;
    if q >= g.height - 2 {
      MulMono(g.height - 2, q, iw);
      assert false;
    }
    var x, y := PixelColumn(g, k), PixelRow(g, k);
    SampleIndexInBounds(g, x, y, c);
    SampleIndexDecodes(g, x, y, c);
  }

  /** Every written sample is the one some step of its worker writes. */
  lemma WrittenHasRank(g: Geometry, c: int, i: int)
    requires 0 <= c < g.channels && 0 <= i < g.Size() && Written(g, c, i)
    ensures g.width >= 3 && 0 <= Rank(g, i) < PixelCount(g)
    ensures i == SampleIndex(g, PixelColumn(g, Rank(g, i)), PixelRow(g, Rank(g, i)), c)
  {
    var iw := g.width - 2;
    var x, y := ColumnOf(g, i), RowOf(g, i);
    var r := Rank(g, i);
    assert r == (y - HALF) * iw + (x - HALF);
    DivModUnique(r, iw, y - HALF, x - HALF);
    assert PixelColumn(g, r) == x && PixelRow(g, r) == y;
    IndexDecodesInBounds(g, i);
    MulMono(0, y - HALF, iw);
    MulMono(y - HALF, g.height - 3, iw);
    assert (g.height - 3) * iw + iw == (g.height - 2) * iw == PixelCount(g);
  }

  /** No worker is scheduled for more steps than its pass has. */
  predicate ValidInterleaving(g: Geometry, schedule: seq<int>) {
    ValidOrder(g, schedule) && forall c | c in schedule :: multiset(schedule)[c] <= PixelCount(g)
  }

  /** Every worker has run to completion: the state at the join. */
  predicate Complete(g: Geometry, schedule: seq<int>) {
    ValidOrder(g, schedule) && forall c | 0 <= c < g.channels :: multiset(schedule)[c] == PixelCount(g)
  }

  /** Dropping the last step of a valid interleaving leaves a valid one, in
      which the dropped step's worker still had a pixel to do. */
  lemma InterleavingPrefix(g: Geometry, schedule: seq<int>)
    requires ValidInterleaving(g, schedule) && schedule != []
    ensures var prefix, c := schedule[..|schedule| - 1], schedule[|schedule| - 1];
            ValidInterleaving(g, prefix) && 0 <= c < g.channels
            && multiset(schedule) == multiset(prefix) + multiset{c}
            && multiset(prefix)[c] < PixelCount(g)
  {
    var prefix, c := schedule[..|schedule| - 1], schedule[|schedule| - 1];
    assert schedule == prefix + [c];
    assert multiset(schedule) == multiset(prefix) + multiset{c};
    assert c in schedule;
    forall d | d in prefix
      ensures multiset(prefix)[d] <= PixelCount(g)
    {
      assert d in schedule;
    }
    assert ValidOrder(g, prefix) by {
      forall k | 0 <= k < |prefix| ensures 0 <= prefix[k] < g.channels {
        assert prefix[k] == schedule[k];
      }
    }
  }

  /** Step t of a complete schedule: the worker it names exists and has a
      pixel left to do. */
  lemma ScheduleStep(g: Geometry, schedule: seq<int>, t: int)
    requires Complete(g, schedule) && 0 <= t < |schedule|
    ensures 0 <= schedule[t] < g.channels
    ensures multiset(schedule[..t + 1]) == multiset(schedule[..t]) + multiset{schedule[t]}
    ensures multiset(schedule[..t])[schedule[t]] < PixelCount(g)
  {
    var c := schedule[t];
    assert schedule[..t + 1] == schedule[..t] + [c];
    assert schedule == schedule[..t + 1] + schedule[t + 1..];
    assert multiset(schedule) == multiset(schedule[..t + 1]) + multiset(schedule[t + 1..]);
    assert multiset(schedule)[c] == PixelCount(g);
    assert multiset(schedule[..t + 1])[c] == multiset(schedule[..t])[c] + 1;
  }

  /** The output buffer after the steps of `schedule`: each entry c is the
      next step of worker c, which writes the magnitude of its next interior
      pixel into channel c. */
  function Interleaved(input: seq<byte>, before: seq<byte>, g: Geometry,
                       kernelX: seq<int>, kernelY: seq<int>, schedule: seq<int>): (out: seq<byte>)
    requires |input| >= |before| == g.Size() && IsKernel(kernelX) && IsKernel(kernelY)
    requires ValidInterleaving(g, schedule)
    ensures |out| == |before|
  {
    if schedule == [] then before
    else
      var prefix, c := schedule[..|schedule| - 1], schedule[|schedule| - 1];
      InterleavingPrefix(g, schedule);
      var k := multiset(prefix)[c];
      RankedPixel(g, k, c);
      var x, y := PixelColumn(g, k), PixelRow(g, k);
      Interleaved(input, before, g, kernelX, kernelY, prefix)
        [SampleIndex(g, x, y, c) := EdgeValue(input, g, c, x, y, kernelX, kernelY)]
  }

  /** The state after some steps, sample by sample: a written sample holds
      its magnitude exactly when its worker has got past it. */
  ghost predicate ProgressState(input: seq<byte>, before: seq<byte>, g: Geometry,
                                kernelX: seq<int>, kernelY: seq<int>, counts: multiset<int>, out: seq<byte>)
    requires |input| >= |before| == g.Size() && IsKernel(kernelX) && IsKernel(kernelY)
  {
    |out| == |before|
    && forall i | 0 <= i < |out| ::
         out[i] == if g.width >= 3 && g.channels > 0 && Written(g, ChannelOf(g, i), i)
                      && Rank(g, i) < counts[ChannelOf(g, i)]
                   then EdgeAt(input, g, ChannelOf(g, i), kernelX, kernelY, i) else before[i]
  }

  /** Before any step, the buffer is untouched. */
  lemma ProgressStart(input: seq<byte>, before: seq<byte>, g: Geometry,
                      kernelX: seq<int>, kernelY: seq<int>)
    requires |input| >= |before| == g.Size() && IsKernel(kernelX) && IsKernel(kernelY)
    ensures ProgressState(input, before, g, kernelX, kernelY, multiset{}, before)
  {
    forall i | 0 <= i < |before| && g.width >= 3 && g.channels > 0 && Written(g, ChannelOf(g, i), i)
      ensures Rank(g, i) >= 0
    {
      MulMono(0, RowOf(g, i) - HALF, g.width - 2);
    }
  }

  /** One step of worker c advances its progress by one pixel and changes
      nothing that belongs to another worker. */
  lemma ProgressStep(input: seq<byte>, before: seq<byte>, g: Geometry,
                     kernelX: seq<int>, kernelY: seq<int>, counts: multiset<int>, out: seq<byte>, c: int)
    requires |input| >= |before| == g.Size() && IsKernel(kernelX) && IsKernel(kernelY)
    requires 0 <= c < g.channels && counts[c] < PixelCount(g)
    requires ProgressState(input, before, g, kernelX, kernelY, counts, out)
    ensures g.width >= 3
    ensures var x, y := PixelColumn(g, counts[c]), PixelRow(g, counts[c]);
            Interior(g, x, y) && 0 <= SampleIndex(g, x, y, c) < |out|
            && ProgressState(input, before, g, kernelX, kernelY, counts + multiset{c},
                             out[SampleIndex(g, x, y, c) := EdgeValue(input, g, c, x, y, kernelX, kernelY)])
  {
    var k := counts[c];
    RankedPixel(g, k, c);
    var x, y := PixelColumn(g, k), PixelRow(g, k);
    var idx := SampleIndex(g, x, y, c);
    SampleIndexDecodes(g, x, y, c);
    var out' := out[idx := EdgeValue(input, g, c, x, y, kernelX, kernelY)];
    var counts' := counts + multiset{c};
    forall i | 0 <= i < |out'|
      ensures out'[i] == if g.width >= 3 && g.channels > 0 && Written(g, ChannelOf(g, i), i)
                            && Rank(g, i) < counts'[ChannelOf(g, i)]
                         then EdgeAt(input, g, ChannelOf(g, i), kernelX, kernelY, i) else before[i]
    {
      if i != idx && Written(g, ChannelOf(g, i), i) && ChannelOf(g, i) == c && Rank(g, i) == k {
        WrittenHasRank(g, c, i);
        assert false;
      }
    }
  }

  /** The buffer after any valid interleaving, sample by sample. */
  lemma {:induction false} InterleavedProgress(input: seq<byte>, before: seq<byte>, g: Geometry,
                                               kernelX: seq<int>, kernelY: seq<int>, schedule: seq<int>)
    requires |input| >= |before| == g.Size() && IsKernel(kernelX) && IsKernel(kernelY)
    requires ValidInterleaving(g, schedule)
    ensures ProgressState(input, before, g, kernelX, kernelY, multiset(schedule),
                          Interleaved(input, before, g, kernelX, kernelY, schedule))
  {
    if schedule != [] {
      var prefix, c := schedule[..|schedule| - 1], schedule[|schedule| - 1];
      InterleavingPrefix(g, schedule);
      var out := Interleaved(input, before, g, kernelX, kernelY, prefix);
      InterleavedProgress(input, before, g, kernelX, kernelY, prefix);
      ProgressStep(input, before, g, kernelX, kernelY, multiset(prefix), out, c);
      var k := multiset(prefix)[c];
      var x, y := PixelColumn(g, k), PixelRow(g, k);
      assert Interleaved(input, before, g, kernelX, kernelY, schedule)
             == out[SampleIndex(g, x, y, c) := EdgeValue(input, g, c, x, y, kernelX, kernelY)];
    } else {
      ProgressStart(input, before, g, kernelX, kernelY);
    }
  }

  /** Whatever the interleaving of the workers' steps, once every worker has
      finished the buffer is the one `sequential_filter` produces. */
  lemma InterleavingMatchesSequential(input: seq<byte>, before: seq<byte>, g: Geometry,
                                      kernelX: seq<int>, kernelY: seq<int>, schedule: seq<int>)
    requires |input| >= |before| == g.Size() && IsKernel(kernelX) && IsKernel(kernelY)
    requires Complete(g, schedule)
    ensures ValidInterleaving(g, schedule) && ValidOrder(g, ChannelRange(g.channels))
    ensures Interleaved(input, before, g, kernelX, kernelY, schedule)
            == ApplyInOrder(input, before, g, kernelX, kernelY, ChannelRange(g.channels))
  {
    forall c | c in schedule
      ensures multiset(schedule)[c] <= PixelCount(g)
    {
      var k :| 0 <= k < |schedule| && schedule[k] == c;
    }
    var out := Interleaved(input, before, g, kernelX, kernelY, schedule);
    InterleavedProgress(input, before, g, kernelX, kernelY, schedule);
    var all := ChannelRange(g.channels);
    ApplyInOrderFiltered(input, before, g, kernelX, kernelY, all);
    var expected := Filtered(input, before, g, kernelX, kernelY, Named(all));
    forall i | 0 <= i < |before|
      ensures out[i] == expected[i]
    {
      if g.channels > 0 && Written(g, ChannelOf(g, i), i) {
        IndexDecodesInBounds(g, i);
        WrittenHasRank(g, ChannelOf(g, i), i);
        assert all[ChannelOf(g, i)] == ChannelOf(g, i);
      }
    }
  }

  /** Step k of worker c: one iteration of the x loop of `apply_convolution`,
      which writes the magnitude of the k-th interior pixel in channel c. */
  method PixelStep(input: seq<byte>, output: array<byte>, g: Geometry,
                   kernelX: seq<int>, kernelY: seq<int>, c: int, k: int)
    requires |input| >= output.Length == g.Size() && IsKernel(kernelX) && IsKernel(kernelY)
    requires 0 <= c < g.channels && 0 <= k < PixelCount(g)
    modifies output
    ensures g.width >= 3 && Interior(g, PixelColumn(g, k), PixelRow(g, k))
    ensures 0 <= SampleIndex(g, PixelColumn(g, k), PixelRow(g, k), c) < output.Length
    ensures output[..] == old(output[..])[SampleIndex(g, PixelColumn(g, k), PixelRow(g, k), c)
                                          := EdgeValue(input, g, c, PixelColumn(g, k), PixelRow(g, k), kernelX, kernelY)]
  {
    RankedPixel(g, k, c);
    var x, y := HALF + k % (g.width - 2), HALF + k / (g.width - 2);
    var gx, gy := NeighbourhoodSums(input, g, c, x, y, kernelX, kernelY);
    output[SampleIndex(g, x, y, c)] := Magnitude(gx, gy) as byte;
  }

  /** `parallel_filter`: the workers' pixel steps, in the order `schedule`
      interleaves them, until every worker has finished (the join). Each
      step is one iteration of the x loop of `apply_convolution` for its
      worker's channel. */
  method ParallelFilter(input: seq<byte>, output: array<byte>, width: nat, height: nat,
                        channels: nat, kernelX: seq<int>, kernelY: seq<int>, schedule: seq<int>)
    requires |input| >= output.Length == width * height * channels
    requires IsKernel(kernelX) && IsKernel(kernelY)
    requires Complete(Geometry(width, height, channels), schedule)
    modifies output
    ensures ValidOrder(Geometry(width, height, channels), ChannelRange(channels))
    ensures output[..] == ApplyInOrder(input, old(output[..]), Geometry(width, height, channels),
                                       kernelX, kernelY, ChannelRange(channels))
  {
    var g := Geometry(width, height, channels);
    ghost var before := output[..];
    InterleavingMatchesSequential(input, before, g, kernelX, kernelY, schedule);
    var done := seq(channels, c => 0);  // steps each worker has taken
    ProgressStart(input, before, g, kernelX, kernelY);
    for t := 0 to |schedule|
      invariant |done| == channels
      invariant forall c | 0 <= c < channels :: done[c] == multiset(schedule[..t])[c]
      invariant ProgressState(input, before, g, kernelX, kernelY, multiset(schedule[..t]), output[..])
    {
      var c := schedule[t];
      ScheduleStep(g, schedule, t);
      ghost var counts := multiset(schedule[..t]);
      var k := done[c];
      ProgressStep(input, before, g, kernelX, kernelY, counts, output[..], c);
      PixelStep(input, output, g, kernelX, kernelY, c, k);
      done := done[c := k + 1];
    }
    assert schedule[..|schedule|] == schedule;
    InterleavedProgress(input, before, g, kernelX, kernelY, schedule);
    assert ProgressState(input, before, g, kernelX, kernelY, multiset(schedule),
                         Interleaved(input, before, g, kernelX, kernelY, schedule));
    ProgressStateUnique(input, before, g, kernelX, kernelY, multiset(schedule), output[..],
                        Interleaved(input, before, g, kernelX, kernelY, schedule));
  }

  /** A progress state determines the buffer. */
  lemma ProgressStateUnique(input: seq<byte>, before: seq<byte>, g: Geometry,
                            kernelX: seq<int>, kernelY: seq<int>, counts: multiset<int>,
                            out1: seq<byte>, out2: seq<byte>)
    requires |input| >= |before| == g.Size() && IsKernel(kernelX) && IsKernel(kernelY)
    requires ProgressState(input, before, g, kernelX, kernelY, counts, out1)
    requires ProgressState(input, before, g, kernelX, kernelY, counts, out2)
    ensures out1 == out2
  {
    assert forall i | 0 <= i < |out1| :: out1[i] == out2[i];
  }
}

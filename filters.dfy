/** The two drivers of photo.cpp: `sequential_filter` runs the channel
    passes one after another, `parallel_filter` runs them on independent
    workers. Both are given here a sequential meaning: a sequence of channel
    passes applied to the shared output buffer in some order. */
module Filters {
  import opened Layout
  import opened Convolution

  /** The channels 0, 1, ..., n - 1 in increasing order. */
  function ChannelRange(n: nat): seq<int> {
    seq(n, c => c)
  }

  /** The set of channels `order` names. */
  function Named(order: seq<int>): set<int> {
    set c | c in order
  }

  /** Every channel named in `order` is a channel of the image. */
  predicate ValidOrder(g: Geometry, order: seq<int>) {
    forall k | 0 <= k < |order| :: 0 <= order[k] < g.channels
  }

  /** The buffer after running the passes for the channels in `order`, first
      to last, starting from `before`. */
  function ApplyInOrder(input: seq<byte>, before: seq<byte>, g: Geometry,
                        kernelX: seq<int>, kernelY: seq<int>, order: seq<int>): (after: seq<byte>)
    requires |input| >= |before| == g.Size() && IsKernel(kernelX) && IsKernel(kernelY)
    requires ValidOrder(g, order)
    ensures |after| == |before|
  {
    if order == [] then before
    else
      var last := order[|order| - 1];
      ConvolvedChannel(input, ApplyInOrder(input, before, g, kernelX, kernelY, order[..|order| - 1]),
                       g, kernelX, kernelY, last)
  }

  /** The buffer in which exactly the channels in `done` have been filtered:
      interior samples of those channels hold their gradient magnitude, all
      other samples keep their value in `before`. */
  function Filtered(input: seq<byte>, before: seq<byte>, g: Geometry,
                    kernelX: seq<int>, kernelY: seq<int>, done: set<int>): seq<byte>
    requires |input| >= |before| == g.Size() && IsKernel(kernelX) && IsKernel(kernelY)
    requires forall c | c in done :: 0 <= c < g.channels
  {
    seq(|before|, i requires 0 <= i < |before| =>
      if g.channels > 0 && ChannelOf(g, i) in done && Written(g, ChannelOf(g, i), i)
      then EdgeAt(input, g, ChannelOf(g, i), kernelX, kernelY, i)
      else before[i])
  }

  /** Running the pass for channel c on a buffer in which the channels in
      `done` are filtered yields the buffer in which done + {c} are. */
  lemma FilteredStep(input: seq<byte>, before: seq<byte>, g: Geometry,
                     kernelX: seq<int>, kernelY: seq<int>, done: set<int>, c: int)
    requires |input| >= |before| == g.Size() && IsKernel(kernelX) && IsKernel(kernelY)
    requires forall d | d in done :: 0 <= d < g.channels
    requires 0 <= c < g.channels
    ensures ConvolvedChannel(input, Filtered(input, before, g, kernelX, kernelY, done), g, kernelX, kernelY, c)
            == Filtered(input, before, g, kernelX, kernelY, done + {c})
  {
    var mid := Filtered(input, before, g, kernelX, kernelY, done);
    var after := ConvolvedChannel(input, mid, g, kernelX, kernelY, c);
    var expected := Filtered(input, before, g, kernelX, kernelY, done + {c});
    forall i | 0 <= i < |before|
      ensures after[i] == expected[i]
    {
      if Written(g, c, i) {
        assert after[i] == EdgeAt(input, g, c, kernelX, kernelY, i);
      } else {
        assert after[i] == mid[i];
      }
    }
  }

  /** Running the passes of `order` in sequence yields the buffer in which
      exactly the channels named in `order` are filtered, whatever their
      order and however often each occurs. */
  lemma {:induction false} ApplyInOrderFiltered(input: seq<byte>, before: seq<byte>, g: Geometry,
                                                kernelX: seq<int>, kernelY: seq<int>, order: seq<int>)
    requires |input| >= |before| == g.Size() && IsKernel(kernelX) && IsKernel(kernelY)
    requires ValidOrder(g, order)
    ensures forall c | c in order :: 0 <= c < g.channels
    ensures ApplyInOrder(input, before, g, kernelX, kernelY, order)
            == Filtered(input, before, g, kernelX, kernelY, Named(order))
  {
    if order != [] {
      var prefix, last := order[..|order| - 1], order[|order| - 1];
      assert order == prefix + [last];
      ApplyInOrderFiltered(input, before, g, kernelX, kernelY, prefix);
      FilteredStep(input, before, g, kernelX, kernelY, Named(prefix), last);
      assert Named(order) == Named(prefix) + {last};
    }
  }

  /** Order independence: two schedules that name the same channels produce
      the same buffer. */
  lemma OrderIndependent(input: seq<byte>, before: seq<byte>, g: Geometry,
                         kernelX: seq<int>, kernelY: seq<int>, order1: seq<int>, order2: seq<int>)
    requires |input| >= |before| == g.Size() && IsKernel(kernelX) && IsKernel(kernelY)
    requires ValidOrder(g, order1) && ValidOrder(g, order2)
    requires forall c :: c in order1 <==> c in order2
    ensures ApplyInOrder(input, before, g, kernelX, kernelY, order1)
            == ApplyInOrder(input, before, g, kernelX, kernelY, order2)
  {
    ApplyInOrderFiltered(input, before, g, kernelX, kernelY, order1);
    ApplyInOrderFiltered(input, before, g, kernelX, kernelY, order2);
    assert Named(order1) == Named(order2);
  }

  /** The passes of two channels commute: they write disjoint samples and read
      only `input`. */
  lemma PassesCommute(input: seq<byte>, before: seq<byte>, g: Geometry,
                      kernelX: seq<int>, kernelY: seq<int>, c1: int, c2: int)
    requires |input| >= |before| == g.Size() && IsKernel(kernelX) && IsKernel(kernelY)
    requires 0 <= c1 < g.channels && 0 <= c2 < g.channels
    ensures ConvolvedChannel(input, ConvolvedChannel(input, before, g, kernelX, kernelY, c1), g, kernelX, kernelY, c2)
            == ConvolvedChannel(input, ConvolvedChannel(input, before, g, kernelX, kernelY, c2), g, kernelX, kernelY, c1)
  {
    assert [c1, c2][..1] == [c1] && [c2, c1][..1] == [c2];
    assert [c1][..0] == [] && [c2][..0] == [];
    OrderIndependent(input, before, g, kernelX, kernelY, [c1, c2], [c2, c1]);
  }

  /** Every channel of the image occurs in a schedule that is a permutation of
      the channels, and nothing else does. */
  lemma PermutationNamesAllChannels(g: Geometry, schedule: seq<int>)
    requires multiset(schedule) == multiset(ChannelRange(g.channels))
    ensures ValidOrder(g, schedule)
    ensures forall c :: c in schedule <==> c in ChannelRange(g.channels)
  {
    forall c
      ensures c in schedule <==> c in ChannelRange(g.channels)
    {
      assert c in schedule <==> c in multiset(schedule);
      assert c in ChannelRange(g.channels) <==> c in multiset(ChannelRange(g.channels));
    }
    forall k | 0 <= k < |schedule|
      ensures 0 <= schedule[k] < g.channels
    {
      assert schedule[k] in ChannelRange(g.channels);
    }
  }

  /** The sequential meaning of `parallel_filter`: whatever order the
      per-channel workers' passes take effect in, the buffer equals the one
      `sequential_filter` produces. */
  lemma ParallelMatchesSequential(input: seq<byte>, before: seq<byte>, g: Geometry,
                                  kernelX: seq<int>, kernelY: seq<int>, schedule: seq<int>)
    requires |input| >= |before| == g.Size() && IsKernel(kernelX) && IsKernel(kernelY)
    requires multiset(schedule) == multiset(ChannelRange(g.channels))
    ensures ValidOrder(g, schedule)
    ensures ApplyInOrder(input, before, g, kernelX, kernelY, schedule)
            == ApplyInOrder(input, before, g, kernelX, kernelY, ChannelRange(g.channels))
  {
    PermutationNamesAllChannels(g, schedule);
    OrderIndependent(input, before, g, kernelX, kernelY, schedule, ChannelRange(g.channels));
  }

  /** After all channel passes, every interior sample of every channel holds
      that channel's gradient magnitude and every border sample keeps its
      initial value. */
  lemma SequentialFilterAt(input: seq<byte>, before: seq<byte>, g: Geometry,
                           kernelX: seq<int>, kernelY: seq<int>)
    requires |input| >= |before| == g.Size() && IsKernel(kernelX) && IsKernel(kernelY)
    ensures ValidOrder(g, ChannelRange(g.channels))
    ensures forall x, y, c | 0 <= x < g.width && 0 <= y < g.height && 0 <= c < g.channels ::
              var after := ApplyInOrder(input, before, g, kernelX, kernelY, ChannelRange(g.channels));
              0 <= SampleIndex(g, x, y, c) < |after|
              && after[SampleIndex(g, x, y, c)]
                 == if Interior(g, x, y) then EdgeValue(input, g, c, x, y, kernelX, kernelY)
                    else before[SampleIndex(g, x, y, c)]
  {
    var all := ChannelRange(g.channels);
    ApplyInOrderFiltered(input, before, g, kernelX, kernelY, all);
    forall x, y, c | 0 <= x < g.width && 0 <= y < g.height && 0 <= c < g.channels
      ensures 0 <= SampleIndex(g, x, y, c) < g.Size()
      ensures ApplyInOrder(input, before, g, kernelX, kernelY, all)[SampleIndex(g, x, y, c)]
              == if Interior(g, x, y) then EdgeValue(input, g, c, x, y, kernelX, kernelY)
                 else before[SampleIndex(g, x, y, c)]
    {
      SampleIndexInBounds(g, x, y, c);
      SampleIndexDecodes(g, x, y, c);
      assert all[c] == c;
    }
  }

  /** Channel independence of the whole filter: if two inputs agree on every
      sample of channel d, the filtered buffers agree on every sample of d,
      whatever the inputs hold in the other channels. */
  lemma FilterChannelIndependent(input1: seq<byte>, input2: seq<byte>, before: seq<byte>, g: Geometry,
                                 kernelX: seq<int>, kernelY: seq<int>, d: int)
    requires |input1| >= |before| && |input2| >= |before| == g.Size() && IsKernel(kernelX) && IsKernel(kernelY)
    requires 0 <= d < g.channels && SameChannel(input1, input2, g, d)
    ensures ValidOrder(g, ChannelRange(g.channels))
    ensures forall i | 0 <= i < |before| && ChannelOf(g, i) == d ::
              ApplyInOrder(input1, before, g, kernelX, kernelY, ChannelRange(g.channels))[i]
              == ApplyInOrder(input2, before, g, kernelX, kernelY, ChannelRange(g.channels))[i]
  {
    var all := ChannelRange(g.channels);
    ApplyInOrderFiltered(input1, before, g, kernelX, kernelY, all);
    ApplyInOrderFiltered(input2, before, g, kernelX, kernelY, all);
    ConvolvedChannelIndependent(input1, input2, before, g, kernelX, kernelY, d);
    forall i | 0 <= i < |before| && ChannelOf(g, i) == d && Written(g, d, i)
      ensures EdgeAt(input1, g, d, kernelX, kernelY, i) == EdgeAt(input2, g, d, kernelX, kernelY, i)
    {
      assert ConvolvedChannel(input1, before, g, kernelX, kernelY, d)[i]
             == ConvolvedChannel(input2, before, g, kernelX, kernelY, d)[i];
    }
  }

  /** `sequential_filter`: run the pass for channels 0, 1, ..., channels - 1
      in increasing order on the shared output buffer. */
  method SequentialFilter(input: seq<byte>, output: array<byte>, width: nat, height: nat,
                          channels: nat, kernelX: seq<int>, kernelY: seq<int>)
    requires |input| >= output.Length == width * height * channels
    requires IsKernel(kernelX) && IsKernel(kernelY)
    modifies output
    ensures ValidOrder(Geometry(width, height, channels), ChannelRange(channels))
    ensures output[..] == ApplyInOrder(input, old(output[..]), Geometry(width, height, channels),
                                       kernelX, kernelY, ChannelRange(channels))
  {
    ghost var g := Geometry(width, height, channels);
    ghost var before := output[..];
    for c := 0 to channels
      invariant output[..] == ApplyInOrder(input, before, g, kernelX, kernelY, ChannelRange(c))
    {
      ApplyConvolution(input, output, width, height, kernelX, kernelY, c, channels);
      assert ChannelRange(c + 1)[..c] == ChannelRange(c);
    }
  }
}

# Sobel edge detection over an interleaved byte image

This project models the convolution engine of a small C++ edge detector
(`photo.cpp`). The image is a flat, row-major buffer of 8-bit samples
with interleaved channels: the sample of pixel (x, y) in channel c sits at
index `((y * width + x) * channels + c)`.

- `apply_convolution` handles one channel. For every interior pixel
  (1 <= x < width - 1, 1 <= y < height - 1) it takes the weighted sums of
  the pixel's 3x3 same-channel neighbourhood against a horizontal and a
  vertical kernel, giving gx and gy. It then stores sqrt(gx^2 + gy^2),
  clamped to [0, 255] and truncated, into the output buffer in place.
- `sequential_filter` runs that pass for channels 0, 1, ..., channels - 1
  in order on a shared output buffer.
- `parallel_filter` starts one worker thread per channel, each running the
  pass for its channel on the same output buffer, and then joins them all.

The kernels are the Sobel matrices of `main.cpp`.

Files:

- `layout.dfy` (module `Layout`): the `byte` type, the image geometry, and
  the index arithmetic. It proves that every index decodes back to its
  pixel and channel and stays inside the buffer.
- `convolution.dfy` (module `Convolution`): `apply_convolution`.
  - `ApplyConvolution` is a method over an `array<byte>` with the source's
    four nested loops. The ky/kx loops are split out as
    `NeighbourhoodSums`.
  - It is proved against the specification function `ConvolvedChannel`.
  - The lemmas state what a single pass guarantees: its frame, small
    images, idempotence, channel independence, and the 3x3 image.
- `filters.dfy` (module `Filters`): `sequential_filter` as a method with a
  loop over the channels. Channel passes applied in any order reach one
  closed form (`Filtered`), which gives order independence at the level
  of whole passes.
- `workers.dfy` (module `Workers`): `parallel_filter` at the level of
  individual pixel writes.
  - Each worker's pass is a sequence of pixel steps.
  - A schedule says which worker takes the next step, so it stands for
    any interleaving of the threads.
  - Once every worker has finished, which is the join, the buffer equals
    the one `sequential_filter` produces.
- `sobel.dfy` (module `Sobel`): the Sobel kernels and what they
  guarantee.
  - Gradients are bounded, which is the premise for the integer model of
    the float computation.
  - Flat regions give 0.
  - Strong edges saturate at 255.
  - Two golden values on a 5x5 image.

Numeric policy. The source computes gx and gy in single-precision float,
then `static_cast<unsigned char>(min(max(sqrt(gx*gx + gy*gy), 0), 255))`.
The model computes `min(isqrt(gx^2 + gy^2), 255)` on unbounded integers
(`Convolution.Magnitude`). What is proved, for the Sobel kernels and byte
samples, is the integer bound: every gradient satisfies |g| <= 1020 and
gx^2 + gy^2 <= 2,080,800 < 2^24 (`Sobel.SobelGradientsExact`). That the
float computation then agrees with the integer one is argued, not proved:
see the `Convolution.Magnitude` line under "## Left out".

Buffer lengths. The passes read only the first width * height * channels
samples of `input`, so every operation accepts an input at least that long.
This matters in practice. `load_png` reads the channel count
(photo.cpp:41) before it asks libpng to expand grey, palette and
transparency data (photo.cpp:46-52), and it sizes the buffer after that
(photo.cpp:54). For such images the buffer `main` passes is longer than
width * height * channels. The output buffer is allocated by `main` with
exactly width * height * channels samples (main.cpp:28-29), and the model
requires that length.

Behaviour worth knowing, as the code has it:

- **Uniform bright neighbourhood.** One might expect an all-white 3x3
  neighbourhood to clamp at 255. Both Sobel kernels sum to zero, so any
  uniform neighbourhood gives gradient 0 and output 0
  (`Sobel.FlatNeighbourhoodNoEdge`). Saturation comes from a step across
  an edge (`Sobel.VerticalEdgeSaturates`), or from any pair of gradients
  with gx^2 + gy^2 >= 255^2 (`Sobel.MagnitudeSaturates`).
- **5x5 bright square.** On a 5x5 image that is black except for a 3x3
  square of 200 centred at (2, 2), the centre pixel gives 0
  (`Sobel.BrightSquareCentre`). The middle of the square's left edge gives
  gx = 800 and output 255 (`Sobel.BrightSquareLeftEdge`).
- **No shape check.** Nothing in the code checks buffer lengths, and no
  error is reported. A too-short buffer would be read out of bounds. The
  model therefore states the lengths as preconditions and has no error
  path.

## Model

| member | source | states |
|---|---|---|
| Layout.KernelIndex | photo.cpp:134 | the kernel index of a tap (ky, kx) in [-1, 1]^2 lies in [0, 9) and decodes back to (ky + 1, kx + 1) as row and column |
| Layout.SampleIndexInBounds | photo.cpp:133 | the sample of any pixel inside the image, in any channel, lies inside a buffer of width * height * channels samples |
| Layout.SampleIndexDecodes | photo.cpp:142 | the index ((y * width + x) * channels + c) determines x, y and c: channel, column and row recovered from it by division are c, x, y |
| Layout.IndexDecodesInBounds | photo.cpp:142 | every buffer index is the sample of some pixel inside the image and some channel (that this pixel and channel are the only ones is Layout.SampleIndexDecodes) |
| Convolution.Isqrt | photo.cpp:141 | the result is the floor of the square root: r^2 <= n < (r + 1)^2 |
| Convolution.Magnitude | photo.cpp:141-142 | the output sample is in [0, 255]; its square is at most gx^2 + gy^2, and below 255 it is the largest such value (floor of the root, saturated at 255) |
| Convolution.NeighbourInBounds | photo.cpp:131-134 | for an interior pixel every neighbour read at pixel_index lies below width * height * channels, hence inside any input buffer at least that long |
| Convolution.InteriorSamplesWritten | photo.cpp:126-127 | every interior pixel's sample in the pass's channel is in range, is a written index, and decodes back to that pixel |
| Convolution.WindowSumNext | photo.cpp:136-137 | adding the tap (ky, kx), input sample times kernel weight, extends the window sum by one position in visiting order |
| Convolution.NeighbourhoodSums | photo.cpp:131-139 | the ky/kx loops leave gx and gy equal to the full kernel-weighted sums over the 3x3 same-channel neighbourhood |
| Convolution.ConvolvedChannel | photo.cpp:126-144 | after the pass, every interior pixel's sample in the channel holds the clamped gradient magnitude of that pixel; every other index keeps its value; the length is unchanged |
| Convolution.DoneBeforeStep | photo.cpp:126-143 | storing the magnitude of interior pixel (x, y) extends the finished region, in row-major order, by exactly that pixel |
| Convolution.ApplyConvolution | photo.cpp:121-145 | the four nested loops leave the output array equal to ConvolvedChannel of its old contents |
| Convolution.ConvolvedChannelFrame | photo.cpp:126-127 | border pixels of every channel, and all pixels of the other channels, keep their values |
| Convolution.SmallImageUnchanged | photo.cpp:126-127 | if width < 3 or height < 3 the pass leaves the buffer exactly as it was |
| Convolution.ConvolvedChannelIdempotent | photo.cpp:121-142 | running the pass a second time on its own result changes nothing |
| Convolution.WindowSumSameChannel | photo.cpp:133-137 | a window sum reads only samples carrying the pass's channel: inputs agreeing on that channel give equal sums |
| Convolution.ConvolvedChannelIndependent | photo.cpp:133-142 | inputs that differ only in other channels give the same output buffer for the pass |
| Convolution.ThreeByThreeWritesCentreOnly | photo.cpp:126-142 | on a 3x3 image the pass changes no sample except that of the centre pixel (1, 1) in its channel |
| Filters.ApplyInOrder | photo.cpp:156-158 | the passes for the channels of an order, applied first to last, keep the buffer's length; what they leave is stated by Filters.ApplyInOrderFiltered |
| Filters.FilteredStep | photo.cpp:157 | the pass for channel c turns the buffer in which the channels in `done` are filtered into the one in which done + {c} are |
| Filters.ApplyInOrderFiltered | photo.cpp:156-158 | running passes in any order yields the buffer in which exactly the named channels are filtered, regardless of order or repetition |
| Filters.OrderIndependent | photo.cpp:166-181 | two orders naming the same channels produce the same buffer |
| Filters.PassesCommute | photo.cpp:142 | the passes of any two channels commute |
| Filters.PermutationNamesAllChannels | photo.cpp:166 | a permutation of 0..channels-1 names exactly the image's channels |
| Filters.ParallelMatchesSequential | photo.cpp:161-182 | passes for all channels, completed in any permutation, give the buffer sequential_filter gives |
| Filters.SequentialFilterAt | photo.cpp:154-159 | after all passes, each interior sample of every channel holds that channel's gradient magnitude, and every border sample keeps its initial value |
| Filters.FilterChannelIndependent | photo.cpp:154-159 | inputs agreeing on channel d give filtered buffers agreeing on every sample of channel d |
| Filters.SequentialFilter | photo.cpp:154-159 | the loop over c leaves the output array equal to the passes for channels 0..channels-1 applied in order to its old contents |
| Workers.RankedPixel | photo.cpp:126-127 | the k-th step of a worker (k below the interior pixel count) visits an interior pixel whose sample is in range, is written by that worker, and has rank k |
| Workers.WrittenHasRank | photo.cpp:126-127 | every sample a worker writes is written by exactly its rank-th step |
| Workers.ProgressStep | photo.cpp:142 | one step of worker c writes its next pixel's magnitude, advances its progress by one, and touches nothing another worker owns |
| Workers.Interleaved | photo.cpp:161-182 | the workers' pixel writes, in the order a schedule interleaves them, keep the buffer's length; what they leave is stated by Workers.InterleavedProgress |
| Workers.InterleavedProgress | photo.cpp:161-182 | after any valid interleaving of steps, each sample holds its magnitude exactly when its worker has passed it, and its initial value otherwise |
| Workers.InterleavingMatchesSequential | photo.cpp:161-182 | once every worker has finished, any interleaving of their pixel writes gives the buffer sequential_filter gives |
| Workers.PixelStep | photo.cpp:127-143 | one x-loop iteration of a worker writes the magnitude of its k-th interior pixel and changes nothing else in the array |
| Workers.ParallelFilter | photo.cpp:161-182 | running the workers' steps in any complete interleaving leaves the output array equal to sequential_filter's result on its old contents |
| Sobel.WindowSumBounded | photo.cpp:136-137 | with byte samples, a window sum lies between -255 times the negative weight mass and 255 times the positive weight mass |
| Sobel.SobelGradientsExact | main.cpp:7-17 | with the Sobel kernels, gx and gy lie in [-1020, 1020] and gx^2 + gy^2 <= 2,080,800 < 2^24 (the integer bound on which the float argument under "## Left out" rests) |
| Sobel.FlatNeighbourhoodNoEdge | main.cpp:7-17 | a neighbourhood where every sample is equal gives zero gradients and output 0 |
| Sobel.MagnitudeSaturates | photo.cpp:141-142 | whenever gx^2 + gy^2 >= 255^2 the output sample is 255 instead of a wrapped-around byte |
| Sobel.OneGradientSaturates | photo.cpp:141-142 | a single gradient of magnitude at least 255 gives output 255, whatever the other gradient is |
| Sobel.VerticalEdgeGradient | main.cpp:7-11 | with columns a (left) and b (right), the Sobel horizontal gradient is 4 * (b - a), whatever the middle column holds |
| Sobel.VerticalEdgeSaturates | photo.cpp:141-142 | a vertical edge whose sides differ by at least 64 gives output 255 |
| Sobel.BrightSquareCentre | main.cpp:7-17 | on the 5x5 image with a 3x3 square of 200, the centre pixel (2, 2) gives 0 |
| Sobel.BrightSquareLeftEdge | main.cpp:7-17 | on the same image, pixel (1, 2) has gx = 800 and gives 255 |

## Left out

- `load_png` and `save_png` (photo.cpp:8-118) are file I/O through libpng, with setjmp error handling. They are foreign code and are not part of this model.
- `main` (main.cpp:6-48) is not part of this model: timing, console output, file names. It contributes only the Sobel constants. Its zero-initialised output buffers are generalised to an arbitrary initial buffer.
- `thread_convolution`, `ThreadData` and the pthread calls (photo.cpp:147-152, 163-181) are represented only by the schedule in `Workers`:
  - the schedule orders the workers' pixel writes;
  - within one pixel step, the reads of `input` are not interleaved, which is harmless because no thread writes `input`;
  - thread creation and join failures are not modelled. A worker that terminates abnormally is neither detected nor reported, and the code has no such check either.
- Workers.ParallelFilter: requires a complete schedule, meaning every worker has run to the end. That is the state after the join. A worker that aborts is not modelled.
- Convolution.Magnitude: models the float square root, clamp and truncation as a clamped integer square root. The equivalence is argued, not proved. The proved part is the bound gx^2 + gy^2 = n <= 2,080,800 < 2^24 for the Sobel kernels (`Sobel.SobelGradientsExact`). The argument has two steps:
  - Exact intermediates. Every product and partial sum at photo.cpp:136-141 is an integer below 2^24 in magnitude, so single precision represents it exactly.
  - Equal results. If n < k^2 for an integer k <= 255, then sqrt(n) <= sqrt(k^2 - 1) < k - 1/(2k), which is at least 1/510 below k. Half a float ulp near 255 is 2^-17, far smaller. The correctly rounded sqrt therefore never reaches the next integer, and truncation gives floor(sqrt(n)). If n >= 255^2, the clamp gives 255.
  - General float kernels, whose sums need not be exact, are not modelled.
- Convolution.ApplyConvolution: requires |input| >= output.Length == width * height * channels and channel < channels, as do `Filters.SequentialFilter` and `Workers.ParallelFilter`. The code does not check these. A shorter input, or an output of another length, would be read or written out of bounds, so no buffer-shape error path is modelled.
- `input` is a value (`seq<byte>`). The model therefore does not cover a caller passing the same vector as input and output; `main` never does.
- C++ `int` overflow in `pixel_index` for very large images is not modelled; all integers are unbounded.

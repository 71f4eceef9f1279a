# Harris corner post-processing: non-maxima suppression, threshold and input checks

This project models the discrete stage of the Harris corner detector in
`torchgeometry/feature/harris.py`:

- **Non-maxima suppression** (`NonMaximaSuppression2d`, `non_maxima_suppression2d`).
  A kernel size `(ky, kx)` gives a per-axis padding of `(k - 1) // 2`. A
  stride-1 max pool with that padding computes, for every pixel of every
  `[batch, channel]` slice, the maximum of its window. The result keeps an
  entry when it equals that maximum, so ties and plateaus all survive, and sets
  every other entry to 0.
- **The glue in `CornerHarris.forward`**: the input is refused with `TypeError`
  if it is not a tensor and with `ValueError` if its rank is not 4. The Harris
  scores are floored at `1e-6` by `torch.clamp`, then suppressed with a 3 x 3
  window.

Scores are modelled as `real`, because only comparisons, the clamp and a
multiplication by 0 or 1 are involved. A score map is a `Grid`, a rectangular
`seq<seq<real>>`. A rank-4 tensor is a `Batch`, a `seq<seq<Grid>>` indexed
`[batch][channel]`. Each slice is suppressed independently. The window of
pixel `(i, j)` is rows `i - py .. i - py + ky - 1` and columns
`j - px .. j - px + kx - 1`. Only in-bounds cells count, so padded cells never
become the maximum. This is the max-pooling convention of `nn.MaxPool2d`.
`nn.MaxPool2d` is a library call, so its code is not part of this model.

Files:

- `tensors.dfy` (module `Tensors`): grids, batches, tensors of rank 4 or
  another rank, the `kernel_size` argument, the errors and `Result`.
- `nms.dfy` (module `NonMaximaSuppression`): padding, window maxima, max
  pooling, the mask, suppression of a slice and of a batch, the constructor,
  `forward`, the functional form and their properties.
- `corner_harris.dfy` (module `CornerHarris`): the clamp, `forward` up to the
  suppression, and what that stage guarantees.

Two behaviours of the code are easy to misread; the model follows the code in
both:

- For an even kernel size the padding `(k - 1) // 2` makes the pooled map one
  cell shorter per axis (`PooledSizeMatchesIffOdd`). The comparison at line 40
  then works on tensors of different shapes and fails. An even window is
  therefore an error here (`ShapeMismatch`), not an accepted asymmetric window.
- The window maximum ignores padded cells, as max pooling does. It does not
  compare against zero padding. After the clamp every score is at least `1e-6`,
  so the two agree on the pipeline's own input. They differ only when
  suppression is called directly on maps with negative entries.

## Model

| member | source | states |
|---|---|---|
| `NonMaximaSuppression.Pad` | torchgeometry/feature/harris.py:28-29 | the padding `p` of a kernel size `k` is its floor half: `2p <= k - 1 < 2p + 2`, for every integer `k` |
| `NonMaximaSuppression.PooledSizeMatchesIffOdd` | torchgeometry/feature/harris.py:19-20 | a stride-1 pool with padding `Pad(k)` keeps an axis of `n` cells at `n` exactly when `k` is odd, and an even `k` gives `n - 1` |
| `NonMaximaSuppression.ComputeZeroPadding2d` | torchgeometry/feature/harris.py:22-32 | a `kernel_size` that is not a tuple, or is a tuple without two entries, fails its assertion; otherwise the result is the floor-half padding of each axis |
| `NonMaximaSuppression.WindowMax` | torchgeometry/feature/harris.py:37 | the pooled value of a pixel is at least every in-bounds cell of its window and equals one of them, and it is at least the pixel itself |
| `NonMaximaSuppression.EqualsWindowMaxIff` | torchgeometry/feature/harris.py:40-41 | an entry equals its window maximum if and only if no entry of its window is larger |
| `NonMaximaSuppression.MaxPool` | torchgeometry/feature/harris.py:37 | for odd kernels the pooled map has the input's shape, and each entry is the maximum of that pixel's window |
| `NonMaximaSuppression.Mask` | torchgeometry/feature/harris.py:40-41 | the mask has the input's shape, holds only 0 and 1, and holds 1 exactly where the input equals the pooled map |
| `NonMaximaSuppression.Suppress` | torchgeometry/feature/harris.py:37-43 | the result has the input's shape, and every entry is either exactly 0 or exactly the input's entry, never rescaled |
| `NonMaximaSuppression.SurvivesIffLocalMax` | torchgeometry/feature/harris.py:37-43 | an entry keeps its value if no entry of its window exceeds it, and becomes 0 otherwise; entries tied with the window maximum all survive |
| `NonMaximaSuppression.GlobalMaxSurvives` | torchgeometry/feature/harris.py:37-43 | an entry holding the slice's maximum always keeps its value |
| `NonMaximaSuppression.SomeMaximumSurvives` | torchgeometry/feature/harris.py:37-43 | a non-empty slice always keeps at least one entry, one that holds the slice maximum |
| `NonMaximaSuppression.FlatGridSurvives` | torchgeometry/feature/harris.py:37-43 | on a constant map every pixel is on the plateau and the map comes back unchanged |
| `NonMaximaSuppression.LargerNeighbourSuppresses` | torchgeometry/feature/harris.py:40-41 | an entry whose right-hand neighbour is larger is not a local maximum of a 3 x 3 window |
| `NonMaximaSuppression.SuppressIdempotent` | torchgeometry/feature/harris.py:37-43 | on a map with no negative entry, suppressing twice gives the same map as suppressing once |
| `NonMaximaSuppression.SuppressNotIdempotentOnNegatives` | torchgeometry/feature/harris.py:37-43 | without that condition idempotence fails: for `[[-1, -2]]` the second pass zeroes the -1 that the first pass kept |
| `NonMaximaSuppression.SuppressTranspose` | torchgeometry/feature/harris.py:37-43 | for odd window sizes, suppressing the transposed map with the transposed window gives the transpose of the suppressed map |
| `NonMaximaSuppression.SuppressFlipRows` | torchgeometry/feature/harris.py:37-43 | for odd window sizes, suppressing the map turned upside down gives the suppressed map turned upside down; together with the transpose this covers every reflection and quarter turn |
| `NonMaximaSuppression.SuppressBatch` | torchgeometry/feature/harris.py:34-43 | the 4-D result has the input's batch size, channel counts and slice shapes |
| `NonMaximaSuppression.SuppressBatchSuppresses` | torchgeometry/feature/harris.py:37-43 | in every `[batch, channel]` slice, an entry keeps its value if it is a local maximum of that slice and becomes 0 otherwise |
| `NonMaximaSuppression.SuppressedFromUnique` | torchgeometry/feature/harris.py:37-43 | that survive-or-zero description fixes the result: any tensor meeting it is the suppressed tensor |
| `NonMaximaSuppression.SuppressBatchIdempotent` | torchgeometry/feature/harris.py:37-43 | on a tensor with no negative entry, suppressing twice gives the same tensor as suppressing once |
| `NonMaximaSuppression.Construct` | torchgeometry/feature/harris.py:14-20 | the constructor fails exactly when `kernel_size` is not a pair, and otherwise stores the kernel size and its matching padding |
| `NonMaximaSuppression.Apply` | torchgeometry/feature/harris.py:34-43 | a tensor whose rank is not 4 fails the assertion before any pooling; a kernel size below 1 is rejected by the pooling; an even kernel size fails on the shape mismatch; otherwise the result is the suppressed tensor, and it succeeds exactly in that case |
| `NonMaximaSuppression.NonMaximaSuppression2d` | torchgeometry/feature/harris.py:154-158 | the kernel checks of the constructor come first, then the rank check; it succeeds exactly for a rank-4 tensor with an odd positive pair of kernel sizes, and then the result is the suppressed tensor (empty tensors and short axes: see Left out) |
| `CornerHarris.Clamp` | torchgeometry/feature/harris.py:132 | a clamped score is at least the floor; a score already at or above the floor is unchanged, and any other score becomes the floor |
| `CornerHarris.ClampBatch` | torchgeometry/feature/harris.py:130-132 | the clamped tensor has the input's shape; every score is at least `1e-6`; scores already at or above it are unchanged, and the rest are raised to it |
| `CornerHarris.Forward` | torchgeometry/feature/harris.py:103-135 | a non-tensor fails with `TypeError` and a tensor of rank other than 4 fails with `ValueError`, whatever the response would be; a rank-4 input always succeeds with the 3 x 3 suppression of its clamped response (empty inputs: see Left out) |
| `CornerHarris.SuppressedSlicePeaks` | torchgeometry/feature/harris.py:132-135 | after suppression, a slice floored at some value holds only zeros and values at or above the floor, and keeps at least one such value if it is not empty |
| `CornerHarris.ForwardKeepsPositivePeaks` | torchgeometry/feature/harris.py:132-139 | forward's map has the response's shape; every entry is 0 or at least `1e-6`; every non-empty slice keeps an entry of at least `1e-6`, so the division by the slice maximum at line 139 never divides by 0 |
| `CornerHarris.ForwardSuppressionIdempotent` | torchgeometry/feature/harris.py:132-135 | the clamped scores are non-negative, so suppressing forward's map once more changes nothing |

## Left out

- The gradient and blur collaborators, `spatial_gradient` and `gaussian_blur`
  (lines 7, 112 and 117-122), live in `torchgeometry.image`, which is not part
  of this model.
- The Harris score arithmetic `det - k * trace^2` (lines 124-128) is
  floating-point numerics over the blurred gradients. It is also left out.
  `CornerHarris.Forward` instead takes the whole response, from input tensor to
  score tensor, as its parameter `response`. The free parameter `k` (lines
  97-99) lives inside that function.
- `CornerHarris.Forward` stops after the suppression at line 135. The
  normalisation by `adaptive_max_pool2d` (lines 138-139) is a floating-point
  division and is not modelled. `ForwardKeepsPositivePeaks` shows that its
  divisor is positive for every non-empty slice.
- The `corner_harris` convenience wrapper (lines 145-151) is left out. So is
  the construction of `nn.Module` objects beyond their stored configuration.
- The 7 x 7 docstring example (lines 77-94) is left out. Its peaks depend on
  the floating-point gradient and blur values.
- Floating point itself is not modelled. Scores are reals, so NaN,
  infinities and negative zero do not occur. On floats, a NaN entry would
  never equal its window maximum, and `NaN * 0` would stay NaN.
- `NonMaximaSuppression.Apply`: in two corner cases of even kernel sizes,
  PyTorch does something other than a shape mismatch error. If an axis has
  two cells, the pooled axis has one cell and broadcasts in the comparison. If
  an axis has one cell, max pooling fails because its output would be empty.
  The model returns `ShapeMismatch` in both cases.
- `NonMaximaSuppression.Apply`: a tensor with an empty batch, zero channels,
  or slices with zero rows or columns gives an empty `Ok` result. The pooling
  library would reject such an input or an empty output. That check belongs to
  the library and is not modelled.
- `NonMaximaSuppression.NonMaximaSuppression2d`: it inherits both `Apply`
  corner cases above. With an even kernel and an axis of one or two cells it
  returns `ShapeMismatch` where PyTorch fails in the pooling or broadcasts.
  On an empty tensor, zero channels or empty slices it succeeds where the
  pooling would raise. Its "succeeds exactly" statement holds for non-empty
  inputs with axes of at least three cells.
- `CornerHarris.Forward`: for the same reason, "a rank-4 input always
  succeeds" holds for non-empty rank-4 inputs. On an empty batch, zero
  channels or an empty slice, the suppression at line 135 would raise in the
  pooling, and the model returns `Ok`.
- The model does not require the batch elements to share one channel count,
  nor the `[batch, channel]` slices to share one height and width, although a
  real tensor always does. Every property is stated per slice, so it also
  holds for regular tensors.
- The model assumes Python assertions are enabled. Under `python -O`, lines 25,
  26 and 35 are skipped and the failure would come later, from PyTorch.
- The model does not check that the entries of `kernel_size` are integers.

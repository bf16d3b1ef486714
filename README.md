# fractalbot: retry policy and bounding-box geometry in Dafny

This project models two parts of fractalbot, a generator of Julia-set images.

- **The upload retry policy** of the `fractalbot-post` crate (`Retrying`). A
  `Retry` value holds an attempt cap and an error predicate. `Handle` decides,
  for a failed attempt, whether to forward the error or to wait 2^attempt
  seconds before trying again. `AnnotateRetries` turns the final outcome
  into a result. On failure the message names the number of retries, with
  the noun pluralised correctly.
- **The bounding box** of the sampled Julia-set points, and the mapping from
  pixel cells to points of the plane (`BoundingBoxes`, over `Plane`). A box
  starts as the degenerate box at the origin. It grows by componentwise
  min/max over the points, left to right. It is then scaled for padding,
  and it derives the output image size from its aspect ratio. Finally it
  maps every cell `(x, y)` of a `width` × `height` grid to a point by linear
  interpolation on each axis.

Files:

- `wrappers.dfy`: `Option` and `Result`.
- `decimal.dfy`: how a `usize` is written in the failure message, with the
  parser that reads it back.
- `retrying.dfy`: `Retry`, `RetryPolicy`, `When`, `Any`, `Handle`, the
  partial-content predicate of the client, `RetriesWord`, `AnnotateRetries`.
- `plane.dfy`: `Complex` with `real` coordinates, and the `f64 as u32` cast.
- `bounding_box.dfy`: the `Bounds` value with its operations and lemmas. It
  also holds the `BoundingBox` class, whose `Update` and `Scale` overwrite
  the corners in place, the `FromIter` loop, and the `PixelsPoints` iterator.

Modelling decisions:

- **Coordinates are `real`.** `f64` min/max on non-NaN values is exact, so
  the accumulation facts carry over to the source as written. Scaling, the
  aspect ratio, `point_from_grid` and `fit` round in `f64`; here they are
  computed exactly, as an idealisation.
- **`as u32` saturates.** `AsU32` is 0 at or below zero, `u32::MAX` at or
  above it, and the floor in between. This matches Rust's float-to-int cast
  for non-NaN values.
- **Zero-width boxes in `height_for`.** A box of zero width has aspect ratio
  `0.0`. `height_for` then computes `1.0 / 0.0 = inf` in `f64`. `HeightFor`
  gives what the cast makes of `width * inf`: 0 when `width == 0` (NaN),
  `u32::MAX` otherwise.
- **The delay is `2u64.pow(attempt as u32)`, written out.** `Delay` keeps the
  low 32 bits of `attempt`. It then takes the power of two modulo 2^64,
  which is what a release build computes. The lemmas prove the delay is
  exact, so no wrap-around, whenever the cap is below 64. `Retry::when` always
  installs a cap of 5, and the fields are private, so every policy in the
  program has cap 5.
- **`handle` takes `&mut self` but writes no field.** `Handle` takes the
  policy by value and returns only a decision. So "the cap and the
  predicate are unchanged by the call" holds by construction.
- **The source does not guard its divisions.** `aspect_ratio` divides by the
  box height, and `point_from_grid` divides by the grid width and height.
  These are `requires` clauses: a non-zero box height, and a grid with
  positive sides. A degenerate box is not rejected: the code has no check,
  so the divisions are guarded by `requires`.
- **`fit` ignores one of the two requested sizes.** It keeps the requested
  side exactly and derives the other from the aspect ratio. The derived
  side is never larger than the kept one, but it can exceed the size
  requested for it (`FitIgnoresDerivedRequest`). `fit` does not keep the
  derived side within the size requested for it.
- **`PixelsPoints` walks cells in the image's order.** The image library
  fixes the enumeration order, so `PixelsPoints.Points` takes the cells as
  a sequence. Each cell must lie inside the grid. `Next` pairs each cell
  with `PointFromGrid` and returns the cell coordinates in place of the
  `&mut` pixel reference. The box is borrowed immutably for the whole walk,
  so the iterator holds its value. The ghost `yielded` records everything
  produced so far.

## Model

| member | source | states |
|---|---|---|
| `Retrying.When` | fractalbot-post/src/retry.rs:15-20 | the policy's cap is 5 whatever predicate is given, and the predicate is the one given |
| `Retrying.Any` | fractalbot-post/src/retry.rs:24-26 | cap 5 and a predicate that accepts every error |
| `Retrying.Handle` | fractalbot-post/src/retry.rs:76-92 | forwards exactly when past the cap or the predicate rejects, and forwards the same error; otherwise waits `Delay(attempt)` |
| `Retrying.ForwardsPastCap` | fractalbot-post/src/retry.rs:77-79 | past the cap the error is forwarded unchanged, whatever the predicate says |
| `Retrying.ForwardsRejected` | fractalbot-post/src/retry.rs:89-91 | within the cap, an error the predicate rejects is forwarded unchanged |
| `Retrying.WaitsExponentially` | fractalbot-post/src/retry.rs:81-88 | within a cap below 64, an accepted error waits exactly 2^attempt seconds, which fits in a `u64` |
| `Retrying.Delay` | fractalbot-post/src/retry.rs:82 | the delay always fits in a `u64`: it is below 2^64 whatever the attempt number |
| `Retrying.DelayExact` | fractalbot-post/src/retry.rs:82 | for attempts below 64 neither the `u32` cast nor `u64` wrap-around changes 2^attempt |
| `Retrying.DelayStrictlyIncreasing` | fractalbot-post/src/retry.rs:82 | a later attempt waits strictly longer (below 64) |
| `Retrying.WhenDelayBounded` | fractalbot-post/src/retry.rs:81-88 | under any `when` policy an accepted attempt waits exactly 2^attempt seconds, at most 32: no overflow |
| `Retrying.AnyForwardsOnlyPastCap` | fractalbot-post/src/retry.rs:24-26 | under `any`, an error is forwarded if and only if the attempt is past 5 |
| `Retrying.IsPartialContent` | fractalbot-post/src/client.rs:44-50 | an error is accepted if and only if it is the library's own error of the partial-content kind |
| `Retrying.PartialContentRetry` | fractalbot-post/src/client.rs:43-51 | the media-polling policy has cap 5 and retries exactly the partial-content errors |
| `Retrying.PartialContentDecision` | fractalbot-post/src/client.rs:43-51 | it waits if and only if the attempt is within 5 and the error is partial content; any other error is forwarded unchanged |
| `Retrying.RetriesWord` | fractalbot-post/src/retry.rs:33-39 | `"retry"` if and only if the count is 1, `"retries"` if and only if it is not |
| `Retrying.FailureMessage` | fractalbot-post/src/retry.rs:49-50 | the message starts with the fixed text, then holds the decimal count, a space and the pluralised noun, which ends it |
| `Retrying.FailureMessageCount` | fractalbot-post/src/retry.rs:48-51 | the retry count can be read back out of the failure message |
| `Retrying.AnnotateRetries` | fractalbot-post/src/retry.rs:41-52 | `Ok` gives back the success value unchanged; `Err` wraps the original error in a message that starts with the fixed text, carries the exact count and ends with the pluralised noun: it is exactly `FailureMessage` of the retry count |
| `Decimal.ParseShow` | fractalbot-post/src/retry.rs:50 | the decimal text of a count parses back to that count |
| `Decimal.Show` | fractalbot-post/src/retry.rs:50 | the text is non-empty digits, with no leading zero |
| `Plane.AsU32` | src/bounding_box.rs:42 | the float-to-`u32` cast: 0 at or below zero, `u32::MAX` at or above it, the floor in between |
| `BoundingBoxes.BoundingBox.Default` | src/bounding_box.rs:9-16 | a new box has both corners at the origin |
| `BoundingBoxes.Grow` | src/bounding_box.rs:19-24 | the grown box keeps min ≤ max, contains the new point, still contains every point of the old box, and is unchanged when the point was already inside |
| `BoundingBoxes.GrowLeast` | src/bounding_box.rs:19-24 | the grown box is the smallest one that encloses the old box and contains the point |
| `BoundingBoxes.BoundingBox.Update` | src/bounding_box.rs:19-24 | overwrites the corners with those of `Grow` |
| `BoundingBoxes.FoldInto` | src/bounding_box.rs:94-96 | folding keeps min ≤ max, encloses the start and contains every folded point |
| `BoundingBoxes.FoldIntoIdempotent` | src/bounding_box.rs:19-24 | folding points the box already contains leaves both corners unchanged |
| `BoundingBoxes.Accumulate` | src/bounding_box.rs:92-97 | the `from_iter` box is well formed and contains the origin and every point |
| `BoundingBoxes.FoldIntoLeast` | src/bounding_box.rs:94-96 | any box that encloses the start and contains every point encloses the fold |
| `BoundingBoxes.AccumulateSmallest` | src/bounding_box.rs:92-97 | the `from_iter` box is the smallest box containing the origin and every point |
| `BoundingBoxes.AccumulateOrderIndependent` | src/bounding_box.rs:92-97 | the result depends only on which points occur, not on their order or repetition |
| `BoundingBoxes.FromIter` | src/bounding_box.rs:92-97 | the loop yields a fresh box whose corners are those of `Accumulate` |
| `BoundingBoxes.Offset` | src/bounding_box.rs:26-28 | adding the offset back to `min` gives the point; a point inside the box has a non-negative offset |
| `BoundingBoxes.AbsDimension` | src/bounding_box.rs:30-32 | `min` plus the dimension is `max`; both components are non-negative if and only if the box is well formed |
| `BoundingBoxes.AspectRatio` | src/bounding_box.rs:34-37 | the ratio times the height is the width; it is non-negative for a well-formed box |
| `BoundingBoxes.WidthFor` | src/bounding_box.rs:39-43 | the width at a given height is the exact product truncated toward zero below `u32::MAX`, `u32::MAX` at or above it, and 0 when the product is not positive |
| `BoundingBoxes.HeightFor` | src/bounding_box.rs:45-49 | the height at a given width is the exact quotient truncated below `u32::MAX`, `u32::MAX` at or above it, and 0 when the quotient is not positive; for a zero-width box it is what `f64` infinity casts to |
| `BoundingBoxes.Fit` | src/bounding_box.rs:51-58 | a wider-than-tall box keeps the requested width, any other box keeps the requested height |
| `BoundingBoxes.FitWide` | src/bounding_box.rs:51-58 | when wide, the derived height is the truncated `width / ratio` and does not exceed the width |
| `BoundingBoxes.FitTall` | src/bounding_box.rs:51-58 | otherwise the derived width does not exceed the height, and is the truncated `height * ratio` whenever the ratio is non-negative |
| `BoundingBoxes.FitIgnoresDerivedRequest` | src/bounding_box.rs:51-58 | the derived height can exceed the requested height: the request for it is ignored |
| `BoundingBoxes.BoundingBox.Scale` | src/bounding_box.rs:60-63 | overwrites both corners with the corners times the factor |
| `BoundingBoxes.ScaledPositiveIff` | src/bounding_box.rs:60-63 | a positive factor keeps a well-formed box well formed and cannot make an ill-formed one well formed |
| `BoundingBoxes.Scaled` | src/bounding_box.rs:60-63 | both corners multiplied by the factor; a non-negative factor keeps min ≤ max (`ScaledPositiveIff` and `ScaledEncloses` state what else it keeps) |
| `BoundingBoxes.ScaledEncloses` | src/bounding_box.rs:60-63 | for a box containing the origin, a factor ≥ 1 gives a box that encloses the original and still contains the origin |
| `BoundingBoxes.PointFromGrid` | src/bounding_box.rs:65-73 | the cell at the grid's origin is placed at the `min` corner |
| `BoundingBoxes.PointFromGridLastCell` | src/bounding_box.rs:65-73 | cell (w−1, h−1) is `max` less one cell's extent on each axis |
| `BoundingBoxes.PointFromGridInside` | src/bounding_box.rs:65-73 | every cell of the grid maps into the box, strictly below `max` on an axis of positive extent: the half-open box `[min, max)` |
| `BoundingBoxes.PointFromGridMonotone` | src/bounding_box.rs:65-73 | a cell further right never maps further left, and maps strictly right on a box of positive width |
| `BoundingBoxes.PointFromGridRecoversCell` | src/bounding_box.rs:65-73 | a point's offset times the grid size equals the cell index times the box extent, on each axis, so the cell can be recovered from the point |
| `BoundingBoxes.PixelsPoints.Points` | src/bounding_box.rs:75-89 | the iterator starts over the image's cells with the box's current value and nothing yielded |
| `BoundingBoxes.PixelsPoints.Next` | src/bounding_box.rs:116-120 | yields the next cell paired with its `PointFromGrid` point, or `None` once the cells run out; every yielded point of a well-formed box lies in the box |

## Left out

- The async `retry` driver (fractalbot-post/src/retry.rs:55-68) is not modelled. It hands the policy to `futures_retry::FutureRetry`, which numbers the attempts and schedules them, so the model says nothing about where attempt numbering starts.
- The `warn!` and `info!` logging in `handle` and `annotate_retries` is a side effect and is not modelled.
- The `Repeat` decision of `futures_retry`'s `RetryPolicy` is not modelled: `handle` never returns it.
- `Retrying.Delay` models a release build. A debug build panics on the overflow instead of wrapping; the cap of 5 keeps both builds from overflowing.
- The megalodon error type is not modelled beyond what the client's predicate inspects: whether an error raised by the library itself has the partial-content kind.
- The model shows from the arguments that `handle` leaves the `Retry` fields unchanged; no separate lemma states it.
- NaN, infinities (except the zero-width `height_for` case) and `f64` rounding are not modelled: coordinates are exact reals.
- `BoundingBoxes.HeightFor`: for a box with negative height, the real `f64` value would be `-inf`, which casts to 0. The model treats every zero aspect ratio as `+0.0` instead. Boxes built by `from_iter` always have a non-negative height, so this case does not arise for them.
- `PixelsPoints` does not model the pixel buffer it hands out, or the order in which the image library enumerates its pixels. The cells are a parameter.
- The Mastodon client and posting flow (`fractalbot-post/src/client.rs`, `src/post.rs`) are network I/O over an external library. Only the retry predicate the client builds is modelled.
- The distance estimator, inverse iteration, parameter sampling, colour palette, command-line handling and the render loop with its parallel pixel writes (`src/distance_estimation.rs`, `src/inverse_iteration.rs`, `src/complex.rs`, `src/color.rs`, `src/env.rs`, `src/main.rs`) are not part of this model. They are floating-point numerics, randomness, concurrency and I/O.

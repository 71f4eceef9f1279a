/** The discrete part of CornerHarris.forward: the input checks, the
    threshold that floors every score at 1e-6 and the 3 x 3 non-maxima
    suppression of the thresholded scores. The Harris response itself
    (gradients, blur, det - k * trace^2) is a parameter. */
module CornerHarris {
  import opened Tensors
  import opened NonMaximaSuppression

  /** The threshold floor of the scores. */
  const ScoreFloor: real := 0.000001

  /** The fixed suppression window, kernel_size=(3, 3). */
  const SuppressionKernel: KernelArg := Tuple([3, 3])

  /** torch.clamp(x, min=floor) on one score. */
  function Clamp(x: real, floor: real): (y: real)
    ensures y >= floor
    ensures y == x || y == floor
    ensures x >= floor ==> y == x
  {
    if x < floor then floor else x
  }

  /** torch.clamp(scores, min=floor) on a whole tensor: every score ends at
      least at the floor, scores already there are unchanged and the others
      are raised to it exactly. */
  function ClampBatch(x: Batch, floor: real): (y: Batch)
    ensures SameBatchShape(y, x)
    ensures forall b, c, i, j {:trigger y[b][c][i][j]} :: InBatch(x, b, c) && InBounds(x[b][c], i, j) ==>
      && y[b][c][i][j] >= floor
      && (x[b][c][i][j] >= floor ==> y[b][c][i][j] == x[b][c][i][j])
      && (x[b][c][i][j] < floor ==> y[b][c][i][j] == floor)
  {
    seq(|x|, b requires 0 <= b < |x| =>
      seq(|x[b]|, c requires 0 <= c < |x[b]| =>
        var g := x[b][c];
        seq(Height(g), i requires 0 <= i < Height(g) =>
          seq(Width(g), j requires 0 <= j < Width(g) =>
            InBoundsIndex(g, i, j);
            Clamp(g[i][j], floor)))))
  }

  /** forward up to the suppression: a non-tensor is refused with TypeError
      and a tensor whose rank is not 4 with ValueError, before the response
      is computed; otherwise the response scores are clamped at the floor
      and suppressed with a 3 x 3 window, which cannot fail. */
  function Forward(input: Input, response: Batch -> Batch): (r: Result<Batch>)
    ensures input.NotATensor? ==> r == Err(TypeError)
    ensures input.AsTensor? && Rank(input.tensor) != 4 ==> r == Err(ValueError)
    ensures input.AsTensor? && input.tensor.Rank4? ==>
      && r.Ok?
      && SuppressedFrom(r.value, ClampBatch(response(input.tensor.slices), ScoreFloor), 3, 3)
  {
    if !input.AsTensor? then Err(TypeError)
    else if !input.tensor.Rank4? then Err(ValueError)
    else
      var scores := ClampBatch(response(input.tensor.slices), ScoreFloor);
      NonMaximaSuppression2d(Rank4(scores), SuppressionKernel)
  }

  /** A slice whose scores are all at least a floor keeps, after
      suppression, only zeros and scores at least the floor, and keeps one
      such score if it is not empty. */
  lemma SuppressedSlicePeaks(g: Grid, floor: real)
    requires forall i, j {:trigger g[i][j]} :: InBounds(g, i, j) ==> g[i][j] >= floor
    ensures forall i, j {:trigger Suppress(g, 3, 3)[i][j]} :: InBounds(g, i, j) ==>
      Suppress(g, 3, 3)[i][j] == 0.0 || Suppress(g, 3, 3)[i][j] >= floor
    ensures Height(g) > 0 && Width(g) > 0 ==>
      exists i, j {:trigger Suppress(g, 3, 3)[i][j]} :: InBounds(g, i, j) && Suppress(g, 3, 3)[i][j] >= floor
  {
    if Height(g) > 0 && Width(g) > 0 {
      SomeMaximumSurvives(g, 3, 3);
    }
  }

  /** Every entry of forward's map is 0 or a clamped score, so at least the
      floor; and every non-empty slice keeps one entry at least the floor
      (its maximum), so the division by the slice maximum that follows in
      forward never divides by 0. */
  lemma ForwardKeepsPositivePeaks(x: Batch, response: Batch -> Batch)
    ensures var r := Forward(AsTensor(Rank4(x)), response);
      && r.Ok?
      && SameBatchShape(r.value, response(x))
      && (forall b, c, i, j {:trigger r.value[b][c][i][j]} :: InBatch(r.value, b, c) && InBounds(r.value[b][c], i, j) ==>
            r.value[b][c][i][j] == 0.0 || r.value[b][c][i][j] >= ScoreFloor)
      && (forall b, c {:trigger r.value[b][c]} :: InBatch(r.value, b, c) && Height(r.value[b][c]) > 0 && Width(r.value[b][c]) > 0 ==>
            exists i, j {:trigger r.value[b][c][i][j]} :: InBounds(r.value[b][c], i, j) && r.value[b][c][i][j] >= ScoreFloor)
  {
    var scores := ClampBatch(response(x), ScoreFloor);
    SuppressedFromUnique(Forward(AsTensor(Rank4(x)), response).value, scores, 3, 3);
    ClampedPeaks(response(x));
  }

  /** ForwardKeepsPositivePeaks on the suppressed clamped scores themselves. */
  lemma ClampedPeaks(z: Batch)
    ensures var y := SuppressBatch(ClampBatch(z, ScoreFloor), 3, 3);
      && SameBatchShape(y, z)
      && (forall b, c, i, j {:trigger y[b][c][i][j]} :: InBatch(y, b, c) && InBounds(y[b][c], i, j) ==>
            y[b][c][i][j] == 0.0 || y[b][c][i][j] >= ScoreFloor)
      && (forall b, c {:trigger y[b][c]} :: InBatch(y, b, c) && Height(y[b][c]) > 0 && Width(y[b][c]) > 0 ==>
            exists i, j {:trigger y[b][c][i][j]} :: InBounds(y[b][c], i, j) && y[b][c][i][j] >= ScoreFloor)
  {
    var scores := ClampBatch(z, ScoreFloor);
    var y := SuppressBatch(scores, 3, 3);
    forall b, c | InBatch(y, b, c)
      ensures SameShape(y[b][c], z[b][c])
      ensures forall i, j {:trigger y[b][c][i][j]} :: InBounds(y[b][c], i, j) ==>
        y[b][c][i][j] == 0.0 || y[b][c][i][j] >= ScoreFloor
      ensures Height(y[b][c]) > 0 && Width(y[b][c]) > 0 ==>
        exists i, j {:trigger y[b][c][i][j]} :: InBounds(y[b][c], i, j) && y[b][c][i][j] >= ScoreFloor
    {
      assert InBatch(z, b, c) && y[b][c] == Suppress(scores[b][c], 3, 3);
      ClampedSlicePeaks(z, b, c);
    }
  }

  /** SuppressedSlicePeaks on one slice of the clamped scores, which is
      floored at ScoreFloor. */
  lemma ClampedSlicePeaks(x: Batch, b: int, c: int)
    requires InBatch(x, b, c)
    ensures InBatch(ClampBatch(x, ScoreFloor), b, c)
    ensures var s := Suppress(ClampBatch(x, ScoreFloor)[b][c], 3, 3);
      && SameShape(s, x[b][c])
      && (forall i, j {:trigger s[i][j]} :: InBounds(s, i, j) ==> s[i][j] == 0.0 || s[i][j] >= ScoreFloor)
      && (Height(s) > 0 && Width(s) > 0 ==>
            exists i, j {:trigger s[i][j]} :: InBounds(s, i, j) && s[i][j] >= ScoreFloor)
  {
    ClampedSliceFloored(x, b, c);
    SuppressedSlicePeaks(ClampBatch(x, ScoreFloor)[b][c], ScoreFloor);
  }

  /** Each slice of the clamped scores is floored at ScoreFloor. */
  lemma ClampedSliceFloored(x: Batch, b: int, c: int)
    requires InBatch(x, b, c)
    ensures InBatch(ClampBatch(x, ScoreFloor), b, c)
    ensures var g := ClampBatch(x, ScoreFloor)[b][c];
      && SameShape(g, x[b][c])
      && forall i, j {:trigger g[i][j]} :: InBounds(g, i, j) ==> g[i][j] >= ScoreFloor
  {
    var g := ClampBatch(x, ScoreFloor)[b][c];
    forall i, j | InBounds(g, i, j) ensures g[i][j] >= ScoreFloor {
      assert InBounds(x[b][c], i, j);
    }
  }

  /** The thresholded scores are non-negative, so suppressing forward's map
      once more changes nothing. */
  lemma ForwardSuppressionIdempotent(x: Batch, response: Batch -> Batch)
    ensures var r := Forward(AsTensor(Rank4(x)), response);
      r.Ok? && SuppressBatch(r.value, 3, 3) == r.value
  {
    var scores := ClampBatch(response(x), ScoreFloor);
    var y := Forward(AsTensor(Rank4(x)), response).value;
    SuppressedFromUnique(y, scores, 3, 3);
    forall b, c | InBatch(scores, b, c) ensures NonNegative(scores[b][c]) {
      forall i, j | InBounds(scores[b][c], i, j) ensures scores[b][c][i][j] >= 0.0 {
        assert InBatch(response(x), b, c) && InBounds(response(x)[b][c], i, j);
      }
    }
    SuppressBatchIdempotent(scores, 3, 3);
  }
}

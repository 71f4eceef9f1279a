/** The values the Harris post-processing works on: score maps, batches of
    them, the tensors that carry them and the errors the entry points raise. */
module Tensors {

  /** A score map of height x width entries, indexed [row][column]; every
      row has the same length, as in a dense tensor. */
  type Grid = g: seq<seq<real>> | IsRectangular(g)

  predicate IsRectangular(g: seq<seq<real>>) {
    forall i :: 0 <= i < |g| ==> |g[i]| == |g[0]|
  }

  function Height(g: Grid): nat {
    |g|
  }

  function Width(g: Grid): nat {
    if |g| == 0 then 0 else |g[0]|
  }

  predicate InBounds(g: Grid, i: int, j: int) {
    0 <= i < Height(g) && 0 <= j < Width(g)
  }

  /** Every in-bounds position of a grid indexes an existing entry. */
  lemma InBoundsIndex(g: Grid, i: int, j: int)
    requires InBounds(g, i, j)
    ensures j < |g[i]|
  {
  }

  predicate SameShape(a: Grid, b: Grid) {
    Height(a) == Height(b) && Width(a) == Width(b)
  }

  ghost predicate NonNegative(g: Grid) {
    forall i, j {:trigger g[i][j]} :: InBounds(g, i, j) ==> g[i][j] >= 0.0
  }

  /** A tensor of rank 4, as [batch][channel] slices of score maps. */
  type Batch = seq<seq<Grid>>

  predicate InBatch(x: Batch, b: int, c: int) {
    0 <= b < |x| && 0 <= c < |x[b]|
  }

  /** Same batch size, same channel count per batch element and same
      height and width per slice. */
  ghost predicate SameBatchShape(x: Batch, y: Batch) {
    && |x| == |y|
    && (forall b :: 0 <= b < |x| ==> |x[b]| == |y[b]|)
    && (forall b, c {:trigger x[b][c]} :: InBatch(x, b, c) ==> SameShape(x[b][c], y[b][c]))
  }

  /** A rank other than four. */
  type OtherRank = r: nat | r != 4 witness 0

  /** A tensor handed to an entry point: of rank four with its entries, or of
      some other rank, whose entries no operation here ever reads. */
  datatype Tensor = Rank4(slices: Batch) | OfRank(rank: OtherRank)

  function Rank(t: Tensor): (r: nat)
    ensures r == 4 <==> t.Rank4?
  {
    match t
    case Rank4(_) => 4
    case OfRank(n) => n
  }

  /** The argument of CornerHarris.forward, which may not be a tensor at all. */
  datatype Input = NotATensor | AsTensor(tensor: Tensor)

  /** The kernel_size argument: a tuple of integers, or some other value. */
  datatype KernelArg = NotATuple | Tuple(sizes: seq<int>)

  /** The exceptions raised on the way to a result. */
  datatype Error =
    | TypeError          // CornerHarris.forward: the input is not a tensor
    | ValueError         // CornerHarris.forward: the input is not of rank 4
    | KernelNotTuple     // assertion: kernel_size is not a tuple
    | KernelNotPair      // assertion: kernel_size does not have two entries
    | NotRank4           // assertion: the suppressed tensor is not of rank 4
    | KernelNotPositive  // max pooling rejects a kernel size below 1
    | ShapeMismatch      // the pooled map and the input differ in shape

  datatype Result<T> = Ok(value: T) | Err(error: Error)
}

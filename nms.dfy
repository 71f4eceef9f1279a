/** Non-maxima suppression of a score map: every entry that is not the
    maximum of the window around it becomes 0, every entry that is keeps its
    value. Models NonMaximaSuppression2d and non_maxima_suppression2d. */
module NonMaximaSuppression {
  import opened Tensors

  // ---------------------------------------------------------------------
  // Padding and pooled size
  // ---------------------------------------------------------------------

  /** The zero padding of one axis for a kernel of size k: (k - 1) // 2 with
      Python's floor division, which Dafny's division by 2 agrees with. */
  function Pad(k: int): (p: int)
    ensures 2 * p <= k - 1 < 2 * p + 2
  {
    (k - 1) / 2
  }

  /** The length of one axis of a stride-1 max pool over n cells with a
      kernel of size k and padding Pad(k) on both sides. */
  function PooledSize(n: int, k: int): int {
    n + 2 * Pad(k) - k + 1
  }

  /** The pooled map has the input's size exactly when the kernel size is
      odd; an even kernel loses one cell per axis. */
  lemma PooledSizeMatchesIffOdd(n: int, k: int)
    ensures PooledSize(n, k) == n <==> k % 2 == 1
    ensures k % 2 == 0 ==> PooledSize(n, k) == n - 1
  {
  }

  /** The padding of both axes, after the checks that kernel_size is a pair. */
  function ComputeZeroPadding2d(kernel: KernelArg): (r: Result<(int, int)>)
    ensures kernel.NotATuple? ==> r == Err(KernelNotTuple)
    ensures kernel.Tuple? && |kernel.sizes| != 2 ==> r == Err(KernelNotPair)
    ensures r.Ok? <==> kernel.Tuple? && |kernel.sizes| == 2
    ensures r.Ok? ==> 2 * r.value.0 <= kernel.sizes[0] - 1 < 2 * r.value.0 + 2
    ensures r.Ok? ==> 2 * r.value.1 <= kernel.sizes[1] - 1 < 2 * r.value.1 + 2
  {
    match kernel
    case NotATuple => Err(KernelNotTuple)
    case Tuple(sizes) =>
      if |sizes| != 2 then Err(KernelNotPair)
      else Ok((Pad(sizes[0]), Pad(sizes[1])))
  }

  // ---------------------------------------------------------------------
  // Windows and their maxima
  // ---------------------------------------------------------------------

  predicate OddKernel(k: int) {
    k >= 1 && k % 2 == 1
  }

  /** Cell (r, c) lies in the ky x kx window of pixel (i, j): rows
      i - Pad(ky) .. i - Pad(ky) + ky - 1 and the same for columns. */
  predicate InWindow(i: int, j: int, r: int, c: int, ky: int, kx: int) {
    && i - Pad(ky) <= r < i - Pad(ky) + ky
    && j - Pad(kx) <= c < j - Pad(kx) + kx
  }

  /** v is the maximum of the in-bounds cells of the window of (i, j):
      no such cell exceeds it and one of them equals it. Padded cells
      never count, as in max pooling. */
  ghost predicate IsWindowMax(g: Grid, i: int, j: int, ky: int, kx: int, v: real) {
    && (forall r, c {:trigger g[r][c]} :: InBounds(g, r, c) && InWindow(i, j, r, c, ky, kx) ==> g[r][c] <= v)
    && (exists r, c {:trigger g[r][c]} :: InBounds(g, r, c) && InWindow(i, j, r, c, ky, kx) && g[r][c] == v)
  }

  /** The entry at (i, j) is at least every in-bounds entry of its window. */
  ghost predicate IsLocalMax(g: Grid, i: int, j: int, ky: int, kx: int)
    requires InBounds(g, i, j)
  {
    forall r, c {:trigger g[r][c]} :: InBounds(g, r, c) && InWindow(i, j, r, c, ky, kx) ==> g[r][c] <= g[i][j]
  }

  /** The largest of row[c0 .. c1 - 1]. */
  function RowMax(row: seq<real>, c0: int, c1: int): (m: real)
    requires 0 <= c0 < c1 <= |row|
    ensures forall c :: c0 <= c < c1 ==> row[c] <= m
    ensures exists c :: c0 <= c < c1 && row[c] == m
    decreases c1 - c0
  {
    if c1 - c0 == 1 then row[c0]
    else
      var rest := RowMax(row, c0 + 1, c1);
      if row[c0] < rest then rest else row[c0]
  }

  /** The largest entry of rows r0 .. r1 - 1 and columns c0 .. c1 - 1. */
  function RectMax(g: Grid, r0: int, r1: int, c0: int, c1: int): (m: real)
    requires 0 <= r0 < r1 <= Height(g) && 0 <= c0 < c1 <= Width(g)
    ensures forall r, c :: r0 <= r < r1 && c0 <= c < c1 ==> g[r][c] <= m
    ensures exists r, c :: r0 <= r < r1 && c0 <= c < c1 && g[r][c] == m
    decreases r1 - r0
  {
    InBoundsIndex(g, r0, c1 - 1);
    var top := RowMax(g[r0], c0, c1);
    if r1 - r0 == 1 then top
    else
      var rest := RectMax(g, r0 + 1, r1, c0, c1);
      if top < rest then rest else top
  }

  /** The in-bounds cells of a window form the rectangle of rows r0 .. r1 - 1
      and columns c0 .. c1 - 1, the window clipped to the grid. */
  lemma ClippedWindow(g: Grid, i: int, j: int, ky: int, kx: int, r0: int, r1: int, c0: int, c1: int)
    requires InBounds(g, i, j) && ky >= 1 && kx >= 1
    requires r0 == (if i - Pad(ky) < 0 then 0 else i - Pad(ky))
    requires r1 == (if i - Pad(ky) + ky > Height(g) then Height(g) else i - Pad(ky) + ky)
    requires c0 == (if j - Pad(kx) < 0 then 0 else j - Pad(kx))
    requires c1 == (if j - Pad(kx) + kx > Width(g) then Width(g) else j - Pad(kx) + kx)
    ensures 0 <= r0 <= i < r1 <= Height(g) && 0 <= c0 <= j < c1 <= Width(g)
    ensures forall r, c :: InBounds(g, r, c) && InWindow(i, j, r, c, ky, kx) <==> r0 <= r < r1 && c0 <= c < c1
  {
  }

  /** The maximum of a rectangle is the maximum of any window whose
      in-bounds cells are exactly that rectangle. */
  lemma RectMaxIsWindowMax(g: Grid, i: int, j: int, ky: int, kx: int, r0: int, r1: int, c0: int, c1: int)
    requires 0 <= r0 < r1 <= Height(g) && 0 <= c0 < c1 <= Width(g)
    requires forall r, c :: InBounds(g, r, c) && InWindow(i, j, r, c, ky, kx) <==> r0 <= r < r1 && c0 <= c < c1
    ensures IsWindowMax(g, i, j, ky, kx, RectMax(g, r0, r1, c0, c1))
  {
    var m := RectMax(g, r0, r1, c0, c1);
    var r, c :| r0 <= r < r1 && c0 <= c < c1 && g[r][c] == m;
    assert InBounds(g, r, c) && InWindow(i, j, r, c, ky, kx);
  }

  /** The maximum of the window of (i, j), clipped to the grid. */
  function WindowMax(g: Grid, i: int, j: int, ky: int, kx: int): (m: real)
    requires InBounds(g, i, j) && ky >= 1 && kx >= 1
    ensures IsWindowMax(g, i, j, ky, kx, m)
    ensures g[i][j] <= m
  {
    var py, px := Pad(ky), Pad(kx);
    var r0 := if i - py < 0 then 0 else i - py;
    var r1 := if i - py + ky > Height(g) then Height(g) else i - py + ky;
    var c0 := if j - px < 0 then 0 else j - px;
    var c1 := if j - px + kx > Width(g) then Width(g) else j - px + kx;
    ClippedWindow(g, i, j, ky, kx, r0, r1, c0, c1);
    RectMaxIsWindowMax(g, i, j, ky, kx, r0, r1, c0, c1);
    RectMax(g, r0, r1, c0, c1)
  }

  /** An entry equals its window's maximum exactly when it is a local maximum. */
  lemma EqualsWindowMaxIff(g: Grid, i: int, j: int, ky: int, kx: int, v: real)
    requires InBounds(g, i, j) && ky >= 1 && kx >= 1
    requires IsWindowMax(g, i, j, ky, kx, v)
    ensures g[i][j] == v <==> IsLocalMax(g, i, j, ky, kx)
  {
    assert InWindow(i, j, i, j, ky, kx);
    if IsLocalMax(g, i, j, ky, kx) {
      var r, c :| InBounds(g, r, c) && InWindow(i, j, r, c, ky, kx) && g[r][c] == v;
      assert g[r][c] <= g[i][j];
    }
  }

  // ---------------------------------------------------------------------
  // One H x W slice
  // ---------------------------------------------------------------------

  /** Stride-1 max pooling with padding Pad(k): for an odd kernel the pooled
      map has the input's shape and holds each pixel's window maximum. */
  function MaxPool(g: Grid, ky: int, kx: int): (m: Grid)
    requires OddKernel(ky) && OddKernel(kx)
    ensures SameShape(m, g)
    ensures forall i, j {:trigger m[i][j]} :: InBounds(g, i, j) ==> IsWindowMax(g, i, j, ky, kx, m[i][j])
  {
    seq(Height(g), i requires 0 <= i < Height(g) =>
      seq(Width(g), j requires 0 <= j < Width(g) => WindowMax(g, i, j, ky, kx)))
  }

  /** 1 where the entry equals the pooled entry, 0 elsewhere. */
  function Mask(g: Grid, pooled: Grid): (mask: Grid)
    requires SameShape(pooled, g)
    ensures SameShape(mask, g)
    ensures forall i, j {:trigger mask[i][j]} :: InBounds(g, i, j) ==>
      (mask[i][j] == 1.0 <==> g[i][j] == pooled[i][j]) && (mask[i][j] == 0.0 || mask[i][j] == 1.0)
  {
    seq(Height(g), i requires 0 <= i < Height(g) =>
      seq(Width(g), j requires 0 <= j < Width(g) =>
        InBoundsIndex(g, i, j);
        InBoundsIndex(pooled, i, j);
        if g[i][j] == pooled[i][j] then 1.0 else 0.0))
  }

  /** The input masked by its local maxima: same shape, and every entry is
      either 0 or the input's entry at that position, never rescaled. */
  function Suppress(g: Grid, ky: int, kx: int): (s: Grid)
    requires OddKernel(ky) && OddKernel(kx)
    ensures SameShape(s, g)
    ensures forall i, j {:trigger s[i][j]} :: InBounds(g, i, j) ==> s[i][j] == 0.0 || s[i][j] == g[i][j]
  {
    var pooled := MaxPool(g, ky, kx);
    var mask := Mask(g, pooled);
    seq(Height(g), i requires 0 <= i < Height(g) =>
      seq(Width(g), j requires 0 <= j < Width(g) =>
        InBoundsIndex(g, i, j);
        InBoundsIndex(mask, i, j);
        g[i][j] * mask[i][j]))
  }

  /** An entry survives exactly when no entry of its window exceeds it;
      entries tied with the window maximum all survive, so plateaus stay. */
  lemma SurvivesIffLocalMax(g: Grid, ky: int, kx: int)
    requires OddKernel(ky) && OddKernel(kx)
    ensures forall i, j {:trigger Suppress(g, ky, kx)[i][j]} :: InBounds(g, i, j) ==>
      Suppress(g, ky, kx)[i][j] == if IsLocalMax(g, i, j, ky, kx) then g[i][j] else 0.0
  {
    forall i, j | InBounds(g, i, j)
      ensures Suppress(g, ky, kx)[i][j] == if IsLocalMax(g, i, j, ky, kx) then g[i][j] else 0.0
    {
      SurvivesIffLocalMaxAt(g, ky, kx, i, j);
    }
  }

  /** SurvivesIffLocalMax at one entry. */
  lemma SurvivesIffLocalMaxAt(g: Grid, ky: int, kx: int, i: int, j: int)
    requires OddKernel(ky) && OddKernel(kx) && InBounds(g, i, j)
    ensures Suppress(g, ky, kx)[i][j] == if IsLocalMax(g, i, j, ky, kx) then g[i][j] else 0.0
  {
    EqualsWindowMaxIff(g, i, j, ky, kx, MaxPool(g, ky, kx)[i][j]);
  }

  /** Suppression decides an entry from its value and whether it is a local
      maximum, so entries of two maps that agree on both agree after it. */
  lemma SuppressAgreesAt(a: Grid, ka: int, la: int, i: int, j: int,
                         b: Grid, kb: int, lb: int, r: int, c: int)
    requires OddKernel(ka) && OddKernel(la) && InBounds(a, i, j)
    requires OddKernel(kb) && OddKernel(lb) && InBounds(b, r, c)
    requires a[i][j] == b[r][c]
    requires IsLocalMax(a, i, j, ka, la) <==> IsLocalMax(b, r, c, kb, lb)
    ensures Suppress(a, ka, la)[i][j] == Suppress(b, kb, lb)[r][c]
  {
    SurvivesIffLocalMaxAt(a, ka, la, i, j);
    SurvivesIffLocalMaxAt(b, kb, lb, r, c);
  }

  /** Two grids of the same shape with the same entries are equal. */
  lemma GridsEqual(a: Grid, b: Grid)
    requires SameShape(a, b)
    requires forall i, j {:trigger a[i][j]} :: InBounds(a, i, j) ==> a[i][j] == b[i][j]
    ensures a == b
  {
    forall i | 0 <= i < Height(a) ensures a[i] == b[i] {
      assert |a[i]| == Width(a) == |b[i]|;
      forall j | 0 <= j < |a[i]| ensures a[i][j] == b[i][j] {
        assert InBounds(a, i, j);
      }
    }
  }

  /** An entry no larger than the slice's largest entry survives. */
  lemma GlobalMaxSurvives(g: Grid, ky: int, kx: int, i: int, j: int)
    requires OddKernel(ky) && OddKernel(kx)
    requires InBounds(g, i, j)
    requires forall r, c {:trigger g[r][c]} :: InBounds(g, r, c) ==> g[r][c] <= g[i][j]
    ensures Suppress(g, ky, kx)[i][j] == g[i][j]
  {
    SurvivesIffLocalMax(g, ky, kx);
  }

  /** A non-empty slice keeps at least one entry: one holding its maximum. */
  lemma SomeMaximumSurvives(g: Grid, ky: int, kx: int)
    requires OddKernel(ky) && OddKernel(kx)
    requires Height(g) > 0 && Width(g) > 0
    ensures exists i, j ::
      && InBounds(g, i, j)
      && (forall r, c {:trigger g[r][c]} :: InBounds(g, r, c) ==> g[r][c] <= g[i][j])
      && Suppress(g, ky, kx)[i][j] == g[i][j]
  {
    var m := RectMax(g, 0, Height(g), 0, Width(g));
    var i, j :| 0 <= i < Height(g) && 0 <= j < Width(g) && g[i][j] == m;
    GlobalMaxSurvives(g, ky, kx, i, j);
  }

  /** A flat map is a plateau: every entry is a local maximum and survives. */
  lemma FlatGridSurvives(g: Grid, ky: int, kx: int, v: real)
    requires OddKernel(ky) && OddKernel(kx)
    requires forall i, j {:trigger g[i][j]} :: InBounds(g, i, j) ==> g[i][j] == v
    ensures Suppress(g, ky, kx) == g
  {
    var s := Suppress(g, ky, kx);
    SurvivesIffLocalMax(g, ky, kx);
    forall i, j | InBounds(s, i, j) ensures s[i][j] == g[i][j] {
      assert IsLocalMax(g, i, j, ky, kx);
    }
    GridsEqual(s, g);
  }

  /** On a map without negative entries, suppressing twice is suppressing
      once: every survivor is still a local maximum among the survivors and
      the zeros. */
  lemma SuppressIdempotent(g: Grid, ky: int, kx: int)
    requires OddKernel(ky) && OddKernel(kx)
    requires NonNegative(g)
    ensures Suppress(Suppress(g, ky, kx), ky, kx) == Suppress(g, ky, kx)
  {
    var s := Suppress(g, ky, kx);
    var t := Suppress(s, ky, kx);
    SurvivesIffLocalMax(g, ky, kx);
    SurvivesIffLocalMax(s, ky, kx);
    forall i, j | InBounds(t, i, j) ensures t[i][j] == s[i][j] {
      if s[i][j] != 0.0 {
        assert s[i][j] == g[i][j] && IsLocalMax(g, i, j, ky, kx);
        forall r, c | InBounds(s, r, c) && InWindow(i, j, r, c, ky, kx)
          ensures s[r][c] <= s[i][j]
        {
          assert InBounds(g, r, c);
        }
      }
    }
    GridsEqual(t, s);
  }

  /** In [[-1, -2]] with a 3 x 3 window, -1 is a local maximum and -2 is not. */
  lemma NegativePairMaxima(g: Grid)
    requires g == [[-1.0, -2.0]]
    ensures InBounds(g, 0, 0) && IsLocalMax(g, 0, 0, 3, 3)
    ensures InBounds(g, 0, 1) && !IsLocalMax(g, 0, 1, 3, 3)
  {
    assert InWindow(0, 1, 0, 0, 3, 3);
  }

  /** An entry with a larger right-hand neighbour is not a local maximum
      of a 3 x 3 window. */
  lemma LargerNeighbourSuppresses(s: Grid, i: int, j: int)
    requires InBounds(s, i, j) && InBounds(s, i, j + 1)
    requires s[i][j] < s[i][j + 1]
    ensures !IsLocalMax(s, i, j, 3, 3)
  {
    assert InWindow(i, j, i, j + 1, 3, 3);
  }

  /** Without the non-negativity, suppression is not idempotent: in
      [[-1, -2]] the -1 survives the first pass, but the 0 left where -2 was
      then exceeds it. */
  lemma SuppressNotIdempotentOnNegatives(g: Grid)
    requires g == [[-1.0, -2.0]]
    ensures Suppress(Suppress(g, 3, 3), 3, 3) != Suppress(g, 3, 3)
  {
    var s := Suppress(g, 3, 3);
    NegativePairMaxima(g);
    SurvivesIffLocalMaxAt(g, 3, 3, 0, 0);
    SurvivesIffLocalMaxAt(g, 3, 3, 0, 1);
    assert s[0][0] == -1.0 && s[0][1] == 0.0;
    LargerNeighbourSuppresses(s, 0, 0);
    SurvivesIffLocalMaxAt(s, 3, 3, 0, 0);
    assert Suppress(s, 3, 3)[0][0] == 0.0;
  }

  // ---------------------------------------------------------------------
  // Symmetry: suppression commutes with the reflections of the grid
  // ---------------------------------------------------------------------

  /** The map read column by column: entry (i, j) moves to (j, i). */
  function Transpose(g: Grid): (t: Grid)
    ensures Height(t) == Width(g) && Width(t) == (if Width(g) == 0 then 0 else Height(g))
    ensures forall j, i :: InBounds(t, j, i) ==> InBounds(g, i, j)
    ensures forall j, i {:trigger t[j][i]} :: InBounds(t, j, i) ==> t[j][i] == g[i][j]
  {
    var t := seq(Width(g), j requires 0 <= j < Width(g) =>
      seq(Height(g), i requires 0 <= i < Height(g) =>
        InBoundsIndex(g, i, j);
        g[i][j]));
    assert forall j :: 0 <= j < |t| ==> |t[j]| == Height(g);
    assert Width(g) > 0 ==> Width(t) == Height(g);
    t
  }

  /** The map upside down: row i moves to row Height - 1 - i. */
  function FlipRows(g: Grid): (f: Grid)
    ensures SameShape(f, g)
    ensures forall i :: 0 <= i < Height(f) ==> f[i] == g[Height(g) - 1 - i]
  {
    seq(Height(g), i requires 0 <= i < Height(g) => g[Height(g) - 1 - i])
  }

  /** An odd window reaches equally far on both sides of its centre. */
  lemma OddPadIsHalf(k: int)
    requires OddKernel(k)
    ensures 2 * Pad(k) == k - 1
  {
  }

  /** Swapping the axes of the map and of the window keeps local maxima. */
  lemma LocalMaxTranspose(g: Grid, i: int, j: int, ky: int, kx: int)
    requires InBounds(g, i, j)
    ensures InBounds(Transpose(g), j, i)
    ensures IsLocalMax(Transpose(g), j, i, kx, ky) <==> IsLocalMax(g, i, j, ky, kx)
  {
    var t := Transpose(g);
    assert InBounds(t, j, i) && t[j][i] == g[i][j];
    if IsLocalMax(g, i, j, ky, kx) {
      forall c, r | InBounds(t, c, r) && InWindow(j, i, c, r, kx, ky) ensures t[c][r] <= t[j][i] {
        assert InBounds(g, r, c) && InWindow(i, j, r, c, ky, kx);
      }
    }
    if IsLocalMax(t, j, i, kx, ky) {
      forall r, c | InBounds(g, r, c) && InWindow(i, j, r, c, ky, kx) ensures g[r][c] <= g[i][j] {
        assert InBounds(t, c, r) && t[c][r] == g[r][c];
        assert InWindow(j, i, c, r, kx, ky);
      }
    }
  }

  /** For an odd window, turning the map upside down keeps local maxima:
      row i of the flipped map is a local maximum where row Height - 1 - i
      of the map is. */
  lemma LocalMaxFlipRows(g: Grid, i: int, j: int, ky: int, kx: int)
    requires OddKernel(ky) && InBounds(g, i, j)
    ensures InBounds(FlipRows(g), i, j) && InBounds(g, Height(g) - 1 - i, j)
    ensures IsLocalMax(FlipRows(g), i, j, ky, kx) <==> IsLocalMax(g, Height(g) - 1 - i, j, ky, kx)
  {
    var f := FlipRows(g);
    var h := Height(g);
    var i' := h - 1 - i;
    OddPadIsHalf(ky);
    assert f[i][j] == g[i'][j];
    if IsLocalMax(g, i', j, ky, kx) {
      forall r, c | InBounds(f, r, c) && InWindow(i, j, r, c, ky, kx) ensures f[r][c] <= f[i][j] {
        assert f[r][c] == g[h - 1 - r][c];
        assert InBounds(g, h - 1 - r, c) && InWindow(i', j, h - 1 - r, c, ky, kx);
      }
    }
    if IsLocalMax(f, i, j, ky, kx) {
      forall r, c | InBounds(g, r, c) && InWindow(i', j, r, c, ky, kx) ensures g[r][c] <= g[i'][j] {
        assert InBounds(f, h - 1 - r, c) && f[h - 1 - r][c] == g[r][c];
        assert InWindow(i, j, h - 1 - r, c, ky, kx);
      }
    }
  }

  /** One entry of SuppressTranspose. */
  lemma SuppressTransposeAt(g: Grid, ky: int, kx: int, i: int, j: int)
    requires OddKernel(ky) && OddKernel(kx) && InBounds(g, i, j)
    ensures InBounds(Transpose(g), j, i)
    ensures Suppress(Transpose(g), kx, ky)[j][i] == Suppress(g, ky, kx)[i][j]
  {
    LocalMaxTranspose(g, i, j, ky, kx);
    SuppressAgreesAt(Transpose(g), kx, ky, j, i, g, ky, kx, i, j);
  }

  /** Suppressing the transposed map with the transposed window is
      transposing the suppressed map. */
  lemma SuppressTranspose(g: Grid, ky: int, kx: int)
    requires OddKernel(ky) && OddKernel(kx)
    ensures Suppress(Transpose(g), kx, ky) == Transpose(Suppress(g, ky, kx))
  {
    var a := Suppress(Transpose(g), kx, ky);
    var b := Transpose(Suppress(g, ky, kx));
    forall j, i | InBounds(a, j, i) ensures a[j][i] == b[j][i] {
      SuppressTransposeAt(g, ky, kx, i, j);
    }
    GridsEqual(a, b);
  }

  /** One entry of SuppressFlipRows. */
  lemma SuppressFlipRowsAt(g: Grid, ky: int, kx: int, i: int, j: int)
    requires OddKernel(ky) && OddKernel(kx) && InBounds(g, i, j)
    ensures InBounds(FlipRows(g), i, j)
    ensures InBounds(FlipRows(Suppress(g, ky, kx)), i, j)
    ensures Suppress(FlipRows(g), ky, kx)[i][j] == FlipRows(Suppress(g, ky, kx))[i][j]
  {
    var i' := Height(g) - 1 - i;
    LocalMaxFlipRows(g, i, j, ky, kx);
    assert FlipRows(g)[i][j] == g[i'][j];
    SuppressAgreesAt(FlipRows(g), ky, kx, i, j, g, ky, kx, i', j);
  }

  /** For an odd window, suppressing the upside-down map is turning the
      suppressed map upside down. With SuppressTranspose this covers every
      reflection and quarter turn of the map. */
  lemma SuppressFlipRows(g: Grid, ky: int, kx: int)
    requires OddKernel(ky) && OddKernel(kx)
    ensures Suppress(FlipRows(g), ky, kx) == FlipRows(Suppress(g, ky, kx))
  {
    var a := Suppress(FlipRows(g), ky, kx);
    var b := FlipRows(Suppress(g, ky, kx));
    forall i, j | InBounds(a, i, j) ensures a[i][j] == b[i][j] {
      SuppressFlipRowsAt(g, ky, kx, i, j);
    }
    GridsEqual(a, b);
  }

  // ---------------------------------------------------------------------
  // The 4-D tensor: every [batch, channel] slice independently
  // ---------------------------------------------------------------------

  /** y is x with every entry that is not a local maximum of its slice
      replaced by 0. */
  ghost predicate SuppressedFrom(y: Batch, x: Batch, ky: int, kx: int) {
    && SameBatchShape(y, x)
    && forall b, c, i, j {:trigger y[b][c][i][j]} :: InBatch(x, b, c) && InBounds(x[b][c], i, j) ==>
         y[b][c][i][j] == if IsLocalMax(x[b][c], i, j, ky, kx) then x[b][c][i][j] else 0.0
  }

  function SuppressBatch(x: Batch, ky: int, kx: int): (y: Batch)
    requires OddKernel(ky) && OddKernel(kx)
    ensures SameBatchShape(y, x)
  {
    seq(|x|, b requires 0 <= b < |x| =>
      seq(|x[b]|, c requires 0 <= c < |x[b]| => Suppress(x[b][c], ky, kx)))
  }

  lemma SuppressBatchSuppresses(x: Batch, ky: int, kx: int)
    requires OddKernel(ky) && OddKernel(kx)
    ensures SuppressedFrom(SuppressBatch(x, ky, kx), x, ky, kx)
  {
    forall b, c | InBatch(x, b, c) {
      SurvivesIffLocalMax(x[b][c], ky, kx);
    }
  }

  /** SuppressedFrom determines its result: SuppressBatch is the only one. */
  lemma SuppressedFromUnique(y: Batch, x: Batch, ky: int, kx: int)
    requires OddKernel(ky) && OddKernel(kx)
    requires SuppressedFrom(y, x, ky, kx)
    ensures y == SuppressBatch(x, ky, kx)
  {
    var z := SuppressBatch(x, ky, kx);
    SuppressBatchSuppresses(x, ky, kx);
    forall b | 0 <= b < |x| ensures y[b] == z[b] {
      forall c | 0 <= c < |x[b]| ensures y[b][c] == z[b][c] {
        assert InBatch(x, b, c);
        forall i, j | InBounds(y[b][c], i, j) ensures y[b][c][i][j] == z[b][c][i][j] {
          assert InBounds(x[b][c], i, j);
        }
        GridsEqual(y[b][c], z[b][c]);
      }
    }
  }

  lemma SuppressBatchIdempotent(x: Batch, ky: int, kx: int)
    requires OddKernel(ky) && OddKernel(kx)
    requires forall b, c {:trigger x[b][c]} :: InBatch(x, b, c) ==> NonNegative(x[b][c])
    ensures SuppressBatch(SuppressBatch(x, ky, kx), ky, kx) == SuppressBatch(x, ky, kx)
  {
    var y := SuppressBatch(x, ky, kx);
    var z := SuppressBatch(y, ky, kx);
    forall b | 0 <= b < |x| ensures z[b] == y[b] {
      forall c | 0 <= c < |x[b]| ensures z[b][c] == y[b][c] {
        assert InBatch(x, b, c);
        SuppressIdempotent(x[b][c], ky, kx);
      }
    }
  }

  // ---------------------------------------------------------------------
  // The module and its functional form
  // ---------------------------------------------------------------------

  /** A constructed NonMaximaSuppression2d: its kernel size and the padding
      computed from it. */
  datatype Suppressor = Suppressor(kernelSize: (int, int), padding: (int, int)) {
    predicate Valid() {
      padding == (Pad(kernelSize.0), Pad(kernelSize.1))
    }
  }

  /** The constructor: stores kernel_size and its padding, after the checks
      that kernel_size is a pair. */
  function Construct(kernel: KernelArg): (r: Result<Suppressor>)
    ensures kernel.NotATuple? ==> r == Err(KernelNotTuple)
    ensures kernel.Tuple? && |kernel.sizes| != 2 ==> r == Err(KernelNotPair)
    ensures r.Ok? <==> kernel.Tuple? && |kernel.sizes| == 2
    ensures r.Ok? ==> r.value.Valid() && r.value.kernelSize == (kernel.sizes[0], kernel.sizes[1])
  {
    match ComputeZeroPadding2d(kernel)
    case Err(e) => Err(e)
    case Ok(padding) => Ok(Suppressor((kernel.sizes[0], kernel.sizes[1]), padding))
  }

  /** forward: the rank assertion, then max pooling (which rejects kernel
      sizes below 1), then the comparison of the input with the pooled map
      (which fails when an even kernel has shrunk it), then the mask. */
  function Apply(s: Suppressor, x: Tensor): (r: Result<Batch>)
    requires s.Valid()
    ensures Rank(x) != 4 ==> r == Err(NotRank4)
    ensures x.Rank4? && (s.kernelSize.0 < 1 || s.kernelSize.1 < 1) ==> r == Err(KernelNotPositive)
    ensures (x.Rank4? && s.kernelSize.0 >= 1 && s.kernelSize.1 >= 1
             && (s.kernelSize.0 % 2 == 0 || s.kernelSize.1 % 2 == 0)) ==> r == Err(ShapeMismatch)
    ensures r.Ok? <==> x.Rank4? && OddKernel(s.kernelSize.0) && OddKernel(s.kernelSize.1)
    ensures r.Ok? ==> SuppressedFrom(r.value, x.slices, s.kernelSize.0, s.kernelSize.1)
  {
    var (ky, kx) := s.kernelSize;
    if !x.Rank4? then Err(NotRank4)
    else if ky < 1 || kx < 1 then Err(KernelNotPositive)
    // an even kernel pools to one cell less per axis (PooledSizeMatchesIffOdd)
    else if ky % 2 == 0 || kx % 2 == 0 then Err(ShapeMismatch)
    else
      SuppressBatchSuppresses(x.slices, ky, kx);
      Ok(SuppressBatch(x.slices, ky, kx))
  }

  /** non_maxima_suppression2d(input, kernel_size): construct, then apply.
      The kernel checks of the constructor come before the rank check. */
  function NonMaximaSuppression2d(input: Tensor, kernel: KernelArg): (r: Result<Batch>)
    ensures kernel.NotATuple? ==> r == Err(KernelNotTuple)
    ensures kernel.Tuple? && |kernel.sizes| != 2 ==> r == Err(KernelNotPair)
    ensures kernel.Tuple? && |kernel.sizes| == 2 && Rank(input) != 4 ==> r == Err(NotRank4)
    ensures r.Ok? <==> (kernel.Tuple? && |kernel.sizes| == 2 && input.Rank4?
                        && OddKernel(kernel.sizes[0]) && OddKernel(kernel.sizes[1]))
    ensures r.Ok? ==> SuppressedFrom(r.value, input.slices, kernel.sizes[0], kernel.sizes[1])
  {
    match Construct(kernel)
    case Err(e) => Err(e)
    case Ok(s) => Apply(s, input)
  }
}

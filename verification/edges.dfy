// Sobel edge extraction, `simple_sobel_edges`, with its inner `conv2`.
// `conv2` pads the image by one cell on every side, repeating the border
// (`np.pad(..., mode="edge")`), and sets each output cell to the sum of the
// 3x3 patch under it multiplied cell by cell with the kernel: a correlation,
// the kernel is not flipped. The gradient magnitude `sqrt(gx^2 + gy^2)` is
// compared with the threshold; here the comparison is made on the squared
// magnitude with exact arithmetic (the float32 rounding of the root and of
// the threshold is not modelled), and the image samples are whole numbers
// (a greyscale image loaded as 0..255), so the sums are exact.

module Edges {
  import opened Grids

  /** A 3x3 kernel. */
  type Kernel = K: Grid<int> | IsRect(K, 3, 3) witness [[0, 0, 0], [0, 0, 0], [0, 0, 0]]

  /** The horizontal Sobel kernel. */
  const Kx: Kernel := [[-1, 0, 1], [-2, 0, 2], [-1, 0, 1]]

  /** The vertical Sobel kernel. */
  const Ky: Kernel := [[-1, -2, -1], [0, 0, 0], [1, 2, 1]]

  /** A row with its first and last entries repeated once outside it. */
  function PadRow(row: seq<int>): (r: seq<int>)
    requires |row| > 0
    ensures |r| == |row| + 2
    ensures forall j :: 0 <= j < |row| + 2 ==> r[j] == row[Clamp(j - 1, |row|)]
  {
    [row[0]] + row + [row[|row| - 1]]
  }

  /**
   * `np.pad(g, ((1, 1), (1, 1)), mode="edge")`: every row padded, and the
   * first and last padded rows repeated once above and below. The padded
   * grid reads the cell of `g` nearest to each position, so padding is the
   * same as clamping indices.
   */
  function EdgePad(g: Grid<int>, h: nat, w: nat): (p: Grid<int>)
    requires IsRect(g, h, w) && h > 0 && w > 0
    ensures IsRect(p, h + 2, w + 2)
    ensures forall i, j :: 0 <= i < h + 2 && 0 <= j < w + 2 ==>
              p[i][j] == g[Clamp(i - 1, h)][Clamp(j - 1, w)]
  {
    var rows := seq(h, i requires 0 <= i < h => PadRow(g[i]));
    [PadRow(g[0])] + rows + [PadRow(g[h - 1])]
  }

  /** `row[j..j + 3]` multiplied entry by entry with `k` and summed. */
  function Dot3(row: seq<int>, k: seq<int>, j: nat): int
    requires j + 2 < |row| && |k| == 3
  {
    row[j] * k[0] + row[j + 1] * k[1] + row[j + 2] * k[2]
  }

  /** `np.sum(padded[i:i+3, j:j+3] * K)`. */
  function PatchDot(p: Grid<int>, K: Kernel, i: nat, j: nat): int
    requires i + 2 < |p| && j + 2 < |p[i]| && j + 2 < |p[i + 1]| && j + 2 < |p[i + 2]|
  {
    Dot3(p[i], K[0], j) + Dot3(p[i + 1], K[1], j) + Dot3(p[i + 2], K[2], j)
  }

  /** Kernel entry (u, v) times the image cell it covers when centred on (i, j), with clamped indices. */
  function Tap(g: Grid<int>, h: nat, w: nat, K: Kernel, i: int, j: int, u: nat, v: nat): int
    requires IsRect(g, h, w) && h > 0 && w > 0 && u < 3 && v < 3
  {
    K[u][v] * g[Clamp(i + u - 1, h)][Clamp(j + v - 1, w)]
  }

  /**
   * The correlation of an `h` by `w` image with `K` at (i, j):
   * the sum over u, v in 0..2 of `K[u][v] * g[clamp(i + u - 1)][clamp(j + v - 1)]`.
   */
  function Correlate(g: Grid<int>, h: nat, w: nat, K: Kernel, i: int, j: int): int
    requires IsRect(g, h, w) && h > 0 && w > 0
  {
    Tap(g, h, w, K, i, j, 0, 0) + Tap(g, h, w, K, i, j, 0, 1) + Tap(g, h, w, K, i, j, 0, 2) +
    Tap(g, h, w, K, i, j, 1, 0) + Tap(g, h, w, K, i, j, 1, 1) + Tap(g, h, w, K, i, j, 1, 2) +
    Tap(g, h, w, K, i, j, 2, 0) + Tap(g, h, w, K, i, j, 2, 1) + Tap(g, h, w, K, i, j, 2, 2)
  }

  /** Row u of the padded patch under (i, j), against kernel row u, gives the three clamped taps of row u. */
  lemma PaddedRowDot(g: Grid<int>, h: nat, w: nat, K: Kernel, i: nat, j: nat, u: nat)
    requires IsRect(g, h, w) && h > 0 && w > 0 && i < h && j < w && u < 3
    ensures Dot3(EdgePad(g, h, w)[i + u], K[u], j) ==
            Tap(g, h, w, K, i, j, u, 0) + Tap(g, h, w, K, i, j, u, 1) + Tap(g, h, w, K, i, j, u, 2)
  {
    var row := EdgePad(g, h, w)[i + u];
    var src := g[Clamp(i + u - 1, h)];
    assert row[j] == src[Clamp(j - 1, w)];
    assert row[j + 1] == src[Clamp(j, w)];
    assert row[j + 2] == src[Clamp(j + 1, w)];
  }

  /** The patch of the edge-padded image under (i, j) gives the clamped correlation. */
  lemma PatchIsCorrelation(g: Grid<int>, h: nat, w: nat, K: Kernel, i: nat, j: nat)
    requires IsRect(g, h, w) && h > 0 && w > 0 && i < h && j < w
    ensures PatchDot(EdgePad(g, h, w), K, i, j) == Correlate(g, h, w, K, i, j)
  {
    PaddedRowDot(g, h, w, K, i, j, 0);
    PaddedRowDot(g, h, w, K, i, j, 1);
    PaddedRowDot(g, h, w, K, i, j, 2);
  }

  /**
   * `conv2(img, K)`: an output of the image's own shape whose cell (i, j)
   * is the correlation at (i, j). Edge padding of an image with an empty
   * axis fails.
   */
  method Conv2(img: array2<int>, K: Kernel) returns (r: Result<array2<int>>)
    ensures r.Err? <==> img.Length0 == 0 || img.Length1 == 0
    ensures r.Err? ==> r.error == EmptyPadAxis
    ensures r.Ok? ==>
      fresh(r.value) && r.value.Length0 == img.Length0 && r.value.Length1 == img.Length1 &&
      forall i, j :: 0 <= i < img.Length0 && 0 <= j < img.Length1 ==>
        r.value[i, j] == Correlate(Cells(img), img.Length0, img.Length1, K, i, j)
  {
    var h, w := img.Length0, img.Length1;
    if h == 0 || w == 0 {
      return Err(EmptyPadAxis);
    }
    var g := Cells(img);
    var padded := EdgePad(g, h, w);
    var out := new int[h, w]((_, _) => 0);
    for i := 0 to h
      invariant forall p, q :: 0 <= p < i && 0 <= q < w ==> out[p, q] == Correlate(g, h, w, K, p, q)
    {
      CorrelateRow(out, g, padded, K, i);
    }
    return Ok(out);
  }

  /** The inner loop of `conv2`: fills row i of `out` from the padded image, leaving the other rows alone. */
  method CorrelateRow(out: array2<int>, g: Grid<int>, padded: Grid<int>, K: Kernel, i: nat)
    requires IsRect(g, out.Length0, out.Length1) && out.Length0 > 0 && out.Length1 > 0 && i < out.Length0
    requires padded == EdgePad(g, out.Length0, out.Length1)
    modifies out
    ensures forall p, q :: 0 <= p < out.Length0 && 0 <= q < out.Length1 ==>
              out[p, q] == if p == i then Correlate(g, out.Length0, out.Length1, K, p, q) else old(out[p, q])
  {
    var h, w := out.Length0, out.Length1;
    for j := 0 to w
      invariant forall p, q :: 0 <= p < h && 0 <= q < w ==>
                  out[p, q] == if p == i && q < j then Correlate(g, h, w, K, p, q) else old(out[p, q])
    {
      PatchIsCorrelation(g, h, w, K, i, j);
      out[i, j] := PatchDot(padded, K, i, j);
    }
  }

  /** The correlation of every cell: what `conv2` returns, as a grid. */
  function Gradient(g: Grid<int>, h: nat, w: nat, K: Kernel): (d: Grid<int>)
    requires IsRect(g, h, w) && h > 0 && w > 0
    ensures IsRect(d, h, w)
  {
    seq(h, i requires 0 <= i < h => seq(w, j requires 0 <= j < w => Correlate(g, h, w, K, i, j)))
  }

  /** `gx * gx + gy * gy`, cell by cell: the squared gradient magnitude. */
  function Magnitude2(gx: Grid<int>, gy: Grid<int>, h: nat, w: nat): (m: Grid<int>)
    requires IsRect(gx, h, w) && IsRect(gy, h, w)
    ensures IsRect(m, h, w)
  {
    seq(h, i requires 0 <= i < h => seq(w, j requires 0 <= j < w => gx[i][j] * gx[i][j] + gy[i][j] * gy[i][j]))
  }

  /**
   * `(mag >= thresh) * 255` for a cell whose squared magnitude is `m2`:
   * a non-positive threshold passes every cell, a positive one is compared
   * squared.
   */
  function EdgeValue(m2: int, thresh: real): int
  {
    if thresh <= 0.0 || m2 as real >= thresh * thresh then 255 else 0
  }

  /**
   * For a non-negative `s` with `s * s == m2` (the square root `np.sqrt`
   * takes), the cell is 255 exactly when `s >= thresh`, and 0 otherwise.
   */
  lemma EdgeValueMatchesRoot(m2: int, s: real, thresh: real)
    requires s >= 0.0 && s * s == m2 as real
    ensures EdgeValue(m2, thresh) == 255 || EdgeValue(m2, thresh) == 0
    ensures EdgeValue(m2, thresh) == 255 <==> s >= thresh
  {
    if thresh > 0.0 {
      var square, cross, bound := s * s, s * thresh, thresh * thresh;
      if s >= thresh {
        assert square >= cross >= bound;
      } else {
        assert square <= cross < bound;
      }
    }
  }

  /** Raising the threshold can turn 255 cells into 0, never the reverse. */
  lemma ThresholdMonotone(m2: int, lo: real, hi: real)
    requires m2 >= 0 && lo <= hi
    ensures EdgeValue(m2, hi) == 255 ==> EdgeValue(m2, lo) == 255
  {
    if lo > 0.0 {
      var low, cross, high := lo * lo, lo * hi, hi * hi;
      assert low <= cross <= high;
    }
  }

  /** `mag_bin`: the thresholded squared magnitude, cell by cell. */
  function Threshold(m: Grid<int>, h: nat, w: nat, thresh: real): (b: Grid<int>)
    requires IsRect(m, h, w)
    ensures IsRect(b, h, w)
  {
    seq(h, i requires 0 <= i < h => seq(w, j requires 0 <= j < w => EdgeValue(m[i][j], thresh)))
  }

  /** What `simple_sobel_edges` returns: the 0/255 edge grid and the squared magnitude. */
  datatype SobelResult = SobelResult(edges: Grid<int>, mag2: Grid<int>)

  /** The reference result for an `h` by `w` image `g`. */
  function Sobel(g: Grid<int>, h: nat, w: nat, thresh: real): SobelResult
    requires IsRect(g, h, w) && h > 0 && w > 0
  {
    var m := Magnitude2(Gradient(g, h, w, Kx), Gradient(g, h, w, Ky), h, w);
    SobelResult(Threshold(m, h, w, thresh), m)
  }

  /**
   * `simple_sobel_edges(gray, thresh)`: both gradients by `conv2`, then the
   * squared magnitude and the threshold. An image with an empty axis fails
   * in the first `conv2`.
   */
  method SobelEdges(gray: array2<int>, thresh: real) returns (r: Result<SobelResult>)
    ensures gray.Length0 == 0 || gray.Length1 == 0 ==> r == Err(EmptyPadAxis)
    ensures gray.Length0 > 0 && gray.Length1 > 0 ==>
              r == Ok(Sobel(Cells(gray), gray.Length0, gray.Length1, thresh))
  {
    var h, w := gray.Length0, gray.Length1;
    // exactly the images on which the first `conv2` fails
    if h == 0 || w == 0 {
      return Err(EmptyPadAxis);
    }
    var gx := Conv2(gray, Kx);
    var gy := Conv2(gray, Ky);
    var g := Cells(gray);
    GridExt(Cells(gx.value), Gradient(g, h, w, Kx), h, w);
    GridExt(Cells(gy.value), Gradient(g, h, w, Ky), h, w);
    var m := Magnitude2(Cells(gx.value), Cells(gy.value), h, w);
    return Ok(SobelResult(Threshold(m, h, w, thresh), m));
  }

  /** Every cell of the edge grid is 0 or 255, and 255 exactly when its squared magnitude reaches the threshold. */
  lemma SobelEdgeCells(g: Grid<int>, h: nat, w: nat, thresh: real)
    requires IsRect(g, h, w) && h > 0 && w > 0
    ensures var s := Sobel(g, h, w, thresh);
      IsRect(s.edges, h, w) && IsRect(s.mag2, h, w) &&
      forall i, j :: 0 <= i < h && 0 <= j < w ==>
        s.mag2[i][j] >= 0 &&
        (s.edges[i][j] == 255 || s.edges[i][j] == 0) &&
        (thresh >= 0.0 ==> (s.edges[i][j] == 255 <==> s.mag2[i][j] as real >= thresh * thresh))
  {
    var s := Sobel(g, h, w, thresh);
    forall i, j | 0 <= i < h && 0 <= j < w
      ensures s.mag2[i][j] >= 0
    {
      var a, b := Gradient(g, h, w, Kx)[i][j], Gradient(g, h, w, Ky)[i][j];
      assert s.mag2[i][j] == a * a + b * b;
    }
  }

  /** Both kernels' entries sum to zero, so a constant image has zero gradient in both directions. */
  lemma ConstantImageFlat(g: Grid<int>, h: nat, w: nat, c: int, i: int, j: int)
    requires IsRect(g, h, w) && h > 0 && w > 0
    requires forall y, x :: 0 <= y < h && 0 <= x < w ==> g[y][x] == c
    ensures Correlate(g, h, w, Kx, i, j) == 0 && Correlate(g, h, w, Ky, i, j) == 0
  {
  }

  /** A constant image has no edges for any positive threshold. */
  lemma ConstantImageNoEdges(g: Grid<int>, h: nat, w: nat, c: int, thresh: real)
    requires IsRect(g, h, w) && h > 0 && w > 0
    requires forall y, x :: 0 <= y < h && 0 <= x < w ==> g[y][x] == c
    requires thresh > 0.0
    ensures forall i, j :: 0 <= i < h && 0 <= j < w ==> Sobel(g, h, w, thresh).edges[i][j] == 0
  {
    forall i, j | 0 <= i < h && 0 <= j < w
      ensures Sobel(g, h, w, thresh).edges[i][j] == 0
    {
      ConstantImageFlat(g, h, w, c, i, j);
      var m := Magnitude2(Gradient(g, h, w, Kx), Gradient(g, h, w, Ky), h, w);
      assert m[i][j] == 0;
      EdgeValueMatchesRoot(0, 0.0, thresh);
      assert Sobel(g, h, w, thresh).edges == Threshold(m, h, w, thresh);
      assert Threshold(m, h, w, thresh)[i][j] == EdgeValue(m[i][j], thresh);
    }
  }

  /** `Kx` is the transpose of `Ky`: the x-gradient of an image is the y-gradient of its transpose, transposed. */
  lemma GradientTranspose(g: Grid<int>, h: nat, w: nat, i: nat, j: nat)
    requires IsRect(g, h, w) && h > 0 && w > 0 && i < h && j < w
    ensures Correlate(g, h, w, Kx, i, j) == Correlate(Transpose(g, h, w), w, h, Ky, j, i)
  {
    var t := Transpose(g, h, w);
    assert forall u, v :: 0 <= u < 3 && 0 <= v < 3 ==> Tap(g, h, w, Kx, i, j, u, v) == Tap(t, w, h, Ky, j, i, v, u);
  }
}

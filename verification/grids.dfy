// Shared vocabulary: 2-D grids stored row-major, the error outcomes the
// pipeline can raise, and the small grid operations every component uses.

module Grids {

  /** A 2-D grid as a sequence of rows; `g[y][x]` is row y, column x. */
  type Grid<T> = seq<seq<T>>

  /** `g` has `h` rows of `w` cells each. */
  predicate IsRect<T>(g: Grid<T>, h: nat, w: nat)
  {
    |g| == h && forall y :: 0 <= y < h ==> |g[y]| == w
  }

  /** The ways a call into the pipeline can fail (each is an exception in the source). */
  datatype Error =
    | EmptyArgmax    // argmax of a grid without cells
    | ZeroStep       // an axis built with a step of zero
    | AxisTooShort   // the rho axis has fewer than two entries when a vote is computed
    | EmptyPadAxis   // edge padding of a grid with an empty axis

  datatype Result<T> = Ok(value: T) | Err(error: Error)

  /** The contents of a 2-D array as a grid value. */
  function Cells<T>(a: array2<T>): (g: Grid<T>)
    reads a
    ensures IsRect(g, a.Length0, a.Length1)
    ensures forall y, x :: 0 <= y < a.Length0 && 0 <= x < a.Length1 ==> g[y][x] == a[y, x]
  {
    seq(a.Length0, y requires 0 <= y < a.Length0 reads a =>
      seq(a.Length1, x requires 0 <= x < a.Length1 reads a => a[y, x]))
  }

  /** Two grids of the same shape with the same cells are equal. */
  lemma GridExt<T>(g: Grid<T>, f: Grid<T>, h: nat, w: nat)
    requires IsRect(g, h, w) && IsRect(f, h, w)
    requires forall y, x :: 0 <= y < h && 0 <= x < w ==> g[y][x] == f[y][x]
    ensures g == f
  {
    forall y | 0 <= y < h
      ensures g[y] == f[y]
    {
      assert forall x :: 0 <= x < w ==> g[y][x] == f[y][x];
    }
  }

  /** `g` with cell (y, x) replaced by `v`. */
  function SetCell<T>(g: Grid<T>, y: nat, x: nat, v: T): (r: Grid<T>)
    requires y < |g| && x < |g[y]|
    ensures |r| == |g| && forall p :: 0 <= p < |g| ==> |r[p]| == |g[p]|
    ensures forall p, q :: 0 <= p < |g| && 0 <= q < |g[p]| ==>
              r[p][q] == if p == y && q == x then v else g[p][q]
  {
    g[y := g[y][x := v]]
  }

  /** `i` clamped into `[0, n)`: the index an edge-replicated border reads. */
  function Clamp(i: int, n: nat): (r: nat)
    requires n > 0
    ensures r < n
  {
    if i < 0 then 0 else if i >= n then n - 1 else i
  }

  /** The transpose of an `h` by `w` grid: a `w` by `h` grid. */
  function Transpose<T>(g: Grid<T>, h: nat, w: nat): (t: Grid<T>)
    requires IsRect(g, h, w)
    ensures IsRect(t, w, h)
    ensures forall x, y :: 0 <= x < w && 0 <= y < h ==> t[x][y] == g[y][x]
  {
    seq(w, x requires 0 <= x < w => seq(h, y requires 0 <= y < h => g[y][x]))
  }
}

# Hough voting core in Dafny

This project models the core of a small Hough-transform toolkit. The toolkit finds straight lines and fixed-radius circles in a greyscale image. Its pipeline has three stages:

1. **Sobel edge extraction** (`simple_sobel_edges` with its inner `conv2`).
   - Two 3x3 correlations with edge-replicated padding give the gradients gx and gy.
   - A threshold on the gradient magnitude turns them into a 0/255 edge grid.
2. **Vote accumulation.**
   - Lines: `hough_space` builds a (rho, theta) grid.
   - Circles: `hough_circles` builds a grid of candidate centres, one cell per pixel.
   - Every edge pixel, as `np.nonzero` lists them, votes once per angle step. A vote is dropped when its cell lies outside the grid.
3. **Greedy peak extraction** (`find_peaks`, which both detectors carry).
   - It works on a copy of the accumulator.
   - Each round it takes the first maximal cell in row-major order.
   - It stops when that cell is below `min_votes`; otherwise it records the cell and zeroes it.

The model is split into modules:

- `Grids` (grids.dfy): grids as sequences of rows, and the contents of a 2-D array as a grid (`Cells`). It also holds the failure outcomes, as a `Result`:
  - `argmax` of an empty grid;
  - `np.arange` with step zero;
  - a rho axis too short to read its step;
  - edge padding of an empty axis.
- `Votes` (votes.dfy):
  - `NonZero` is `np.nonzero`.
  - `Tally(ps, hit)` is the number of votes the pixel list `ps` gives one cell. It is the function every accumulator cell is proved equal to.
  - `Sum`/`Sum2` are finite sums used to count all the votes in a grid.
- `Peaks` (peaks.dfy):
  - `FirstMax` is `np.argmax` followed by `np.unravel_index`.
  - `Greedy` is the reference definition of the extraction loop.
  - `FindPeaks` and `ExtractInPlace` are the loop itself over an array, proved equal to `Greedy`. `Residue` is the working copy the loop leaves behind.
  - The lemmas say what the returned peaks satisfy.
- `Lines` (lines.dfy): the rho and theta axes (`np.arange` with exact arithmetic) and the accumulator `HoughSpace`. The rounded rho index of pixel (x, y) for theta column t is a parameter `bin(x, y, t)`.
- `Circles` (circles.dfy): the accumulator `HoughCircles` and the circle `find_peaks`. The rounded centre for pixel (x, y), radius r and degree d is a parameter `centre(x, y, r, d)`.
- `Edges` (edges.dfy): `EdgePad`, `Conv2`, the squared-magnitude threshold and `SobelEdges`.

Each stage is written in the source's own form:
- Loops that fill arrays are methods over `array2` with loop invariants, proved equal to functions of the inputs.
- The element-wise magnitude and threshold steps are functions.

Behaviour of the code worth knowing, which the model keeps:
- **Grid with no rows or no columns.** `np.pad(..., mode="edge")` in `conv2` raises on an empty axis (src/hough_circles/edges.py:24). `Conv2` and `SobelEdges` return `Err(EmptyPadAxis)` for it.
- **Order of returned peaks.** Tied cells are returned with equal counts (src/hough_lines/hough_lines.py:40-45). The counts are therefore non-increasing, not strictly descending; `TiedCellsBothReturned` exhibits a tie.
- **Radius.** `hough_circles` does not check the radius (src/hough_circles/hough_circles.py:4-13), and neither does `HoughCircles`.
- **Resolution step.** A negative step gives `np.arange` an empty axis (src/hough_lines/hough_lines.py:15; see `ArangeBounds`). A positive `rho_res` of at least `2 * rho_max + 1` gives a rho axis of a single entry. In both cases, once an edge pixel exists, the read of `rhos[0]` and `rhos[1]` raises (src/hough_lines/hough_lines.py:26); `HoughSpace` returns `Err(AxisTooShort)`. A zero step fails in `np.arange` and gives `Err(ZeroStep)`.

## Model

| member | source | states |
|---|---|---|
| Peaks.FirstMaxSpec | src/hough_lines/hough_lines.py:40 | `FirstMax` returns a cell that no cell exceeds and that every earlier cell in row-major order is strictly below, i.e. the cell `np.argmax` of the flattened grid names |
| Peaks.FirstMaxUnique | src/hough_lines/hough_lines.py:40 | at most one cell is the first maximum, so the argmax cell is determined |
| Peaks.ZeroLowersMax | src/hough_lines/hough_lines.py:45 | zeroing a cell keeps the grid non-empty and can only lower the maximum |
| Peaks.FindPeaks | src/hough_lines/hough_lines.py:32-46 | with `k >= 1` and a grid with no cells the result is the argmax failure; otherwise the result is exactly the greedy reference `Greedy(acc, k, min_votes)`, and the caller's `acc` is left unmodified (no `modifies` clause) |
| Peaks.ExtractInPlace | src/hough_lines/hough_lines.py:38-45 | the loop over the private copy returns exactly `Greedy` of the copy's starting contents, and leaves the copy holding `Residue` of them (the same rounds, keeping the grid) |
| Peaks.ResidueCells | src/hough_lines/hough_lines.py:38-45 | the copy left by the loop is the caller's grid with exactly the returned cells set to 0: only chosen cells are zeroed, and only in the copy |
| Peaks.ZeroCell | src/hough_lines/hough_lines.py:45 | `acc_copy[idx] = 0` changes that cell to 0 and no other |
| Peaks.GreedyAtMostK | src/hough_lines/hough_lines.py:39-44 | at most `k` peaks, none when `k <= 0` |
| Peaks.GreedyAboveFloor | src/hough_lines/hough_lines.py:41-44 | every peak has at least `min_votes` votes and names a cell inside the grid |
| Peaks.GreedyBelowMax | src/hough_lines/hough_lines.py:40-41 | no peak has more votes than the accumulator's maximum |
| Peaks.GreedyNonIncreasing | src/hough_lines/hough_lines.py:40-45 | vote counts come out in non-increasing order |
| Peaks.GreedyExact | src/hough_lines/hough_lines.py:38-45 | with `min_votes >= 1` each peak's count equals the caller's accumulator at that (rho_idx, theta_idx) |
| Peaks.GreedyDistinct | src/hough_lines/hough_lines.py:40-45 | with `min_votes >= 1` no cell is returned twice |
| Peaks.GreedyComplete | src/hough_lines/hough_lines.py:39-45 | a cell that was not returned is below `min_votes` when fewer than `k` peaks came back, and at most the last peak's count when `k` did |
| Peaks.TiedCellsBothReturned | src/hough_lines/hough_lines.py:40-45 | two tied cells are both returned, first in row-major order first: counts need not strictly decrease |
| Peaks.ZeroFloorRepeatsCell | src/hough_lines/hough_lines.py:41-45 | with `min_votes <= 0` a zeroed cell can be taken again |
| Votes.NonZeroSpec | src/hough_lines/hough_lines.py:20 | `np.nonzero` lists exactly the nonzero cells, each once, in row-major order |
| Votes.NoEdgePixels | src/hough_circles/hough_circles.py:15 | a grid with no nonzero cell has no edge pixels |
| Votes.SilentGrid | src/hough_circles/hough_circles.py:13-23 | an edge grid with no nonzero cell gives no cell any vote, so the accumulator stays all zero (both accumulators) |
| Votes.TallyGrows | src/hough_circles/hough_circles.py:18-23 | the count of a cell after a prefix of the pixels never exceeds its final count: counts only grow during the loop |
| Votes.TallySplit | src/hough_lines/hough_lines.py:24-28 | counts over two runs of pixels add up |
| Lines.CeilSqrt | src/hough_lines/hough_lines.py:14 | the least r with r*r >= n, i.e. `ceil(sqrt(n))` |
| Lines.RhoMax | src/hough_lines/hough_lines.py:14 | `rho_max` is the least whole number whose square reaches H*H + W*W, i.e. `ceil(hypot(H, W))` |
| Lines.Ceil | src/hough_lines/hough_lines.py:15-16 | the least integer at or above a real |
| Lines.ArangeLen | src/hough_lines/hough_lines.py:15-16 | `np.arange` has `ceil((stop - start) / step)` entries, none when that is not positive |
| Lines.Arange | src/hough_lines/hough_lines.py:15-16 | entry i of `np.arange` is `start + i * step` |
| Lines.ArangeBounds | src/hough_lines/hough_lines.py:15-16 | with a positive step all entries lie in `[start, stop)` one step apart; a negative step on an increasing range gives an empty axis |
| Lines.UnitResolutionShape | src/hough_lines/hough_lines.py:14-18 | at unit resolution the accumulator has `2 * rho_max + 1` rows and 180 columns |
| Lines.HoughSpace | src/hough_lines/hough_lines.py:4-30 | a zero step fails; with edge pixels and a rho axis of fewer than two entries the read of `rhos[1]` fails; otherwise the accumulator has shape (len(rhos), len(thetas)), the axes are the `arange`s, and cell (rho, t) counts the edge pixels whose bin for column t is rho |
| Lines.AccumulateLines | src/hough_lines/hough_lines.py:24-28 | after the loop over the edge pixels each cell holds the tally of the pixels voting for it |
| Lines.CastLineVotes | src/hough_lines/hough_lines.py:25-28 | one pixel adds exactly one vote to cell (bin, t) in each column t whose bin lies on the rho axis, and nothing elsewhere |
| Lines.ColumnVotes | src/hough_lines/hough_lines.py:24-28 | the votes in one theta column sum to the number of pixels whose bin is on the axis, hence at most the number of edge pixels |
| Circles.DegreeHits | src/hough_circles/hough_circles.py:19-23 | one pixel gives a cell at most one vote per degree |
| Circles.HoughCircles | src/hough_circles/hough_circles.py:4-25 | the accumulator has the image's shape and cell (b, a) counts the (edge pixel, degree) pairs whose centre is (a, b) |
| Circles.AccumulateCircles | src/hough_circles/hough_circles.py:18-23 | starting from zero, after the pixel loop every cell holds its tally |
| Circles.CastCircleVotes | src/hough_circles/hough_circles.py:19-23 | one pixel adds, at row b and column a, one vote per degree whose centre is (a, b) inside the grid, and nothing for centres outside |
| Circles.DegreeSweep | src/hough_circles/hough_circles.py:19-23 | one pixel's votes over the whole grid add up to the number of degrees whose centre lands inside it |
| Circles.TotalCircleVotes | src/hough_circles/hough_circles.py:18-23 | all votes in the accumulator add up to the in-bounds (pixel, degree) pairs, at most 360 per edge pixel |
| Circles.AsCentres | src/hough_circles/hough_circles.py:35 | one reported centre per peak, in the same order, each `(idx[1], idx[0], votes)`: column first, then row |
| Circles.FindPeaks | src/hough_circles/hough_circles.py:27-37 | the greedy extraction of the shared loop, reported as (column, row, votes); the argmax failure on a grid with no cells when `k >= 1` |
| Circles.CentresSpec | src/hough_circles/hough_circles.py:30-35 | at most `k` centres, each inside the grid as (column a, row b) with at least `min_votes` votes; with `min_votes >= 1` each count is the accumulator's value at row b, column a |
| Edges.PadRow | src/hough_circles/edges.py:24 | a padded row reads its nearest original entry at each position |
| Edges.EdgePad | src/hough_circles/edges.py:23-24 | the edge-padded image is (H+2) by (W+2) and reads the original cell at clamped indices: edge padding is index clamping |
| Edges.PatchIsCorrelation | src/hough_circles/edges.py:26-29 | the patch of the padded image times the kernel gives the un-flipped correlation with clamped indices |
| Edges.Conv2 | src/hough_circles/edges.py:20-30 | an image with an empty axis fails in padding; otherwise the output has the input's shape and cell (i, j) is the clamped correlation at (i, j) |
| Edges.CorrelateRow | src/hough_circles/edges.py:27-29 | the inner loop sets row i to the correlation and leaves other rows unchanged |
| Edges.Gradient | src/hough_circles/edges.py:32-33 | the gradient grid has the image's shape |
| Edges.Magnitude2 | src/hough_circles/edges.py:34 | the squared magnitude grid has the image's shape |
| Edges.Threshold | src/hough_circles/edges.py:35 | the thresholded grid has the image's shape |
| Edges.EdgeValueMatchesRoot | src/hough_circles/edges.py:34-35 | for the non-negative square root s of the squared magnitude, the cell is 0 or 255, and 255 exactly when s >= thresh |
| Edges.ThresholdMonotone | src/hough_circles/edges.py:35 | raising the threshold can turn 255 into 0, never the reverse |
| Edges.SobelEdges | src/hough_circles/edges.py:16-36 | an empty axis fails; otherwise the result is the thresholded squared magnitude of the two correlations with Kx and Ky |
| Edges.SobelEdgeCells | src/hough_circles/edges.py:34-35 | every edge cell is 0 or 255 and, for `thresh >= 0`, 255 exactly when gx²+gy² >= thresh² |
| Edges.ConstantImageFlat | src/hough_circles/edges.py:17-29 | both kernels sum to zero, so a constant image has gx = gy = 0 everywhere |
| Edges.ConstantImageNoEdges | src/hough_circles/edges.py:17-35 | a constant image has no edge cell for any positive threshold |
| Edges.GradientTranspose | src/hough_circles/edges.py:17-18 | `Kx` is the transpose of `Ky`: gx of an image at (i, j) equals gy of its transpose at (j, i) |

## Left out

- Trigonometry and rounding are not modelled: `np.cos`, `np.sin`, `np.deg2rad` and `np.round`/`round` in `hough_space` and `hough_circles`. They are floating point. The rho bin and the circle centre of each (pixel, angle) are parameters, so no property that depends on their values is claimed (e.g. that every rho lands in range).
- The theta axis is kept in degrees. The `np.deg2rad` conversion of the returned `thetas` is not modelled.
- The axes are computed with exact rationals, not float32. `np.hypot` is taken as exact: `rho_max` is `ceil(sqrt(H*H + W*W))` over whole numbers.
- Accumulator counts are unbounded naturals. The `uint32` wrap-around after 2^32 votes in one cell is not modelled.
- `mag` (the square root of gx²+gy²) is returned as the squared magnitude `mag2`. The threshold is compared on squares, and `EdgeValueMatchesRoot` states that this agrees with comparing the root. A NaN threshold is not modelled.
- Image samples are integers, as `load_grayscale` produces them (0..255 stored as float32). The float32 correlation sums are therefore exact and modelled over `int`.
- Edges.SobelEdges: the float32 rounding of `mag` (a float32 `np.sqrt`) and of `thresh` (cast to float32 for `mag >= thresh`) is not modelled. The model compares gx²+gy² with thresh² exactly, so a threshold within float32 rounding of a cell's root can give a different cell value (e.g. gx = 100, gy = 0 with `thresh = 100.000001`: the code gives 255, the model 0).
- The default argument values are not modelled: `theta_res_deg = rho_res = 1.0`, `k`, `min_votes` and `thresh = 50.0`. Every argument is an explicit parameter.
- `conv2` is modelled for 3x3 kernels only, the only kernels the source passes it.
- `load_grayscale` and `normalize_uint8` (edges.py) are not modelled: one is file and image I/O, the other rescales floats for display only.
- The scripts under `scripts/` (argument parsing, drawing, plotting, file output) are not modelled.
- `line_endpoints_from_rho_theta` and a line-specific edges module are imported by the line script, but their source is not part of this model.

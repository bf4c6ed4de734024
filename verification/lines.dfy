// The (rho, theta) accumulator for straight lines, `hough_space`.
// Every edge pixel (x, y) votes, for each theta column t, for the rho bin
// `round((x cos theta_t + y sin theta_t - rhos[0]) / (rhos[1] - rhos[0]))`,
// and the vote is kept only when that bin lies inside the rho axis. The
// trigonometry and the rounding are floating point; here the bin a pixel
// falls into for column t is a parameter `bin(x, y, t)`, and everything
// else (the axes, the shape, the bounds check, the counting) is modelled.

module Lines {
  import opened Grids
  import opened Votes

  /** The smallest r with r * r >= n: `ceil(sqrt(n))` for a whole number n. */
  function CeilSqrt(n: nat): (r: nat)
    ensures r * r >= n
    ensures r == 0 || (r - 1) * (r - 1) < n
  {
    CeilSqrtFrom(n, 0)
  }

  /** Searches upwards from `r`, every value below which has a square below n. */
  function CeilSqrtFrom(n: nat, r: nat): (s: nat)
    requires r == 0 || (r - 1) * (r - 1) < n
    ensures s * s >= n
    ensures s == 0 || (s - 1) * (s - 1) < n
    decreases n - r * r
  {
    if r * r >= n then r
    else
      assert (r + 1) * (r + 1) > r * r;
      CeilSqrtFrom(n, r + 1)
  }

  /** `rho_max = ceil(hypot(H, W))`: the diagonal of an H by W image, rounded up. */
  function RhoMax(h: nat, w: nat): (m: nat)
    ensures m * m >= h * h + w * w
    ensures m == 0 || (m - 1) * (m - 1) < h * h + w * w
  {
    CeilSqrt(h * h + w * w)
  }

  /** The least integer not below x. */
  function Ceil(x: real): (c: int)
    ensures (c - 1) as real < x <= c as real
  {
    var f := x.Floor;
    if f as real == x then f else f + 1
  }

  /** The number of entries of `np.arange(start, stop, step)`. */
  function ArangeLen(start: real, stop: real, step: real): (n: nat)
    requires step != 0.0
    ensures n == 0 <==> (stop - start) / step <= 0.0
    ensures n > 0 ==> (n - 1) as real < (stop - start) / step <= n as real
  {
    var c := Ceil((stop - start) / step);
    if c < 0 then 0 else c
  }

  /** `np.arange(start, stop, step)`, with exact arithmetic in place of float32. */
  function Arange(start: real, stop: real, step: real): (a: seq<real>)
    requires step != 0.0
    ensures |a| == ArangeLen(start, stop, step)
    ensures forall i :: 0 <= i < |a| ==> a[i] == start + i as real * step
  {
    seq(ArangeLen(start, stop, step), i => start + i as real * step)
  }

  /** Scaling both sides of a strict inequality between non-negative reals by a positive factor. */
  lemma MulLess(x: real, y: real, s: real)
    requires 0.0 <= x < y && s > 0.0
    ensures 0.0 <= x * s < y * s
  {
  }

  /** With a positive step every entry lies in `[start, stop)`. */
  lemma ArangeInside(start: real, stop: real, step: real)
    requires step > 0.0
    ensures forall i :: 0 <= i < |Arange(start, stop, step)| ==>
              start <= Arange(start, stop, step)[i] < stop
  {
    var a := Arange(start, stop, step);
    var n := |a|;
    var q := (stop - start) / step;
    assert q * step == stop - start;
    forall i | 0 <= i < n
      ensures start <= a[i] < stop
    {
      assert i as real <= (n - 1) as real < q;
      MulLess(i as real, q, step);
    }
  }

  /**
   * With a positive step every entry lies in `[start, stop)`, consecutive
   * entries are one step apart; with a negative step and start < stop the
   * axis is empty.
   */
  lemma ArangeBounds(start: real, stop: real, step: real)
    requires step != 0.0
    ensures step > 0.0 ==> forall i :: 0 <= i < |Arange(start, stop, step)| ==>
              start <= Arange(start, stop, step)[i] < stop
    ensures forall i :: 0 < i < |Arange(start, stop, step)| ==>
              Arange(start, stop, step)[i] - Arange(start, stop, step)[i - 1] == step
    ensures step < 0.0 && start < stop ==> Arange(start, stop, step) == []
  {
    if step > 0.0 {
      ArangeInside(start, stop, step);
    }
    if step < 0.0 && start < stop {
      assert (stop - start) / step < 0.0;
    }
  }

  /** With unit step between whole numbers, `np.arange` has `stop - start` entries. */
  lemma ArangeUnitLen(start: int, stop: int)
    requires start <= stop
    ensures |Arange(start as real, stop as real, 1.0)| == stop - start
  {
    assert (stop as real - start as real) / 1.0 == (stop - start) as real;
  }

  /** The rho axis: `np.arange(-rho_max, rho_max + 1, rho_res)`. */
  function RhoAxis(h: nat, w: nat, rhoRes: real): seq<real>
    requires rhoRes != 0.0
  {
    var m := RhoMax(h, w);
    Arange(-(m as real), (m + 1) as real, rhoRes)
  }

  /** The theta axis in degrees: `np.arange(-90, 90, theta_res)`, before `np.deg2rad`. */
  function ThetaAxis(thetaRes: real): seq<real>
    requires thetaRes != 0.0
  {
    Arange(-90.0, 90.0, thetaRes)
  }

  /** At unit resolution the accumulator has `2 * rho_max + 1` rows and 180 columns. */
  lemma UnitResolutionShape(h: nat, w: nat)
    ensures |RhoAxis(h, w, 1.0)| == 2 * RhoMax(h, w) + 1
    ensures |ThetaAxis(1.0)| == 180
  {
    var m := RhoMax(h, w);
    ArangeUnitLen(-(m as int), m + 1);
    ArangeUnitLen(-90, 90);
  }

  /** `bin(x, y, t)`: the rounded rho index edge pixel (x, y) computes for theta column t. */
  type RhoBin = (nat, nat, nat) -> int

  /** The votes pixel p = (y, x) gives accumulator cell (rho, t): one if its bin is rho. */
  function LineHit(bin: RhoBin, rho: nat, t: nat): Pixel -> nat
  {
    (p: Pixel) => if bin(p.1, p.0, t) == rho then 1 else 0
  }

  /** What `hough_space` returns: the accumulator and both axes (theta in degrees). */
  datatype LineSpace = LineSpace(acc: array2<nat>, rhos: seq<real>, thetas: seq<real>)

  /**
   * `hough_space(edge_bin, theta_res_deg, rho_res)`. A zero step fails in
   * `np.arange`; the rho step is read as `rhos[1] - rhos[0]` once an edge
   * pixel exists, which fails on a rho axis of fewer than two entries.
   * Otherwise cell (rho, t) holds the number of edge pixels whose bin for
   * column t is rho; bins outside the rho axis are dropped.
   */
  method HoughSpace(edge: array2<int>, thetaRes: real, rhoRes: real, bin: RhoBin) returns (r: Result<LineSpace>)
    ensures rhoRes == 0.0 || thetaRes == 0.0 ==> r == Err(ZeroStep)
    ensures rhoRes != 0.0 && thetaRes != 0.0 ==>
      (r.Err? <==> NonZero(Cells(edge)) != [] && |RhoAxis(edge.Length0, edge.Length1, rhoRes)| < 2) &&
      (r.Err? ==> r.error == AxisTooShort)
    ensures r.Ok? ==>
      var s := r.value;
      fresh(s.acc) &&
      s.rhos == RhoAxis(edge.Length0, edge.Length1, rhoRes) && s.thetas == ThetaAxis(thetaRes) &&
      s.acc.Length0 == |s.rhos| && s.acc.Length1 == |s.thetas| &&
      forall rho, t :: 0 <= rho < s.acc.Length0 && 0 <= t < s.acc.Length1 ==>
        s.acc[rho, t] == Tally(NonZero(Cells(edge)), LineHit(bin, rho, t))
  {
    if rhoRes == 0.0 || thetaRes == 0.0 {
      return Err(ZeroStep);
    }
    var rhos := RhoAxis(edge.Length0, edge.Length1, rhoRes);
    var thetas := ThetaAxis(thetaRes);
    var rows, cols := |rhos|, |thetas|;
    var acc := new nat[rows, cols]((_, _) => 0);
    var ps := NonZero(Cells(edge));
    if ps != [] && rows < 2 {
      return Err(AxisTooShort);
    }
    AccumulateLines(acc, ps, bin);
    return Ok(LineSpace(acc, rhos, thetas));
  }

  /** The loop over the edge pixels `ps`, on an accumulator that starts at zero. */
  method AccumulateLines(acc: array2<nat>, ps: seq<Pixel>, bin: RhoBin)
    requires forall rho, t :: 0 <= rho < acc.Length0 && 0 <= t < acc.Length1 ==> acc[rho, t] == 0
    modifies acc
    ensures forall rho, t :: 0 <= rho < acc.Length0 && 0 <= t < acc.Length1 ==>
              acc[rho, t] == Tally(ps, LineHit(bin, rho, t))
  {
    var i := 0;
    while i < |ps|
      invariant 0 <= i <= |ps|
      invariant forall rho, t :: 0 <= rho < acc.Length0 && 0 <= t < acc.Length1 ==>
                  acc[rho, t] == Tally(ps[..i], LineHit(bin, rho, t))
    {
      var (y, x) := ps[i];
      CastLineVotes(acc, x, y, bin);
      forall rho, t | 0 <= rho < acc.Length0 && 0 <= t < acc.Length1
        ensures acc[rho, t] == Tally(ps[..i + 1], LineHit(bin, rho, t))
      {
        TallyStep(ps, i, LineHit(bin, rho, t));
      }
      i := i + 1;
    }
    assert ps[..i] == ps;
  }

  /**
   * One edge pixel's votes (the fancy-indexed `+= 1` of one loop round):
   * for every theta column whose bin lies on the rho axis, that one cell
   * gains one vote.
   */
  method CastLineVotes(acc: array2<nat>, x: nat, y: nat, bin: RhoBin)
    modifies acc
    ensures forall rho, t :: 0 <= rho < acc.Length0 && 0 <= t < acc.Length1 ==>
              acc[rho, t] == old(acc[rho, t]) + LineHit(bin, rho, t)((y, x))
  {
    var t := 0;
    while t < acc.Length1
      invariant 0 <= t <= acc.Length1
      invariant forall rho, u :: 0 <= rho < acc.Length0 && 0 <= u < acc.Length1 ==>
                  acc[rho, u] == old(acc[rho, u]) + (if u < t then LineHit(bin, rho, u)((y, x)) else 0)
    {
      var idx := bin(x, y, t);
      if 0 <= idx < acc.Length0 {
        acc[idx, t] := acc[idx, t] + 1;
      }
      t := t + 1;
    }
  }

  /** The votes pixel p gives column t as a whole: one if its bin lies on an axis of `rows` entries. */
  function InRange(bin: RhoBin, rows: nat, t: nat): Pixel -> nat
  {
    (p: Pixel) => if 0 <= bin(p.1, p.0, t) < rows then 1 else 0
  }

  /** The rho cells of column t, as a family indexed by rho. */
  function Column(bin: RhoBin, t: nat): nat -> Pixel -> nat
  {
    (rho: nat) => LineHit(bin, rho, t)
  }

  /**
   * Each pixel adds at most one vote per theta column: the votes of column t
   * sum to the number of pixels whose bin is on the axis, at most `|ps|`.
   * Entry rho of `Tallies(ps, Column(bin, t))` is `Tally(ps, LineHit(bin, rho, t))`,
   * exactly the value `HoughSpace` stores at (rho, t), so the sum is over
   * column t of the accumulator itself.
   */
  lemma ColumnVotes(ps: seq<Pixel>, bin: RhoBin, rows: nat, t: nat)
    ensures Sum(rows, Tallies(ps, Column(bin, t))) == Tally(ps, InRange(bin, rows, t))
    ensures Tally(ps, InRange(bin, rows, t)) <= |ps|
  {
    forall i | 0 <= i < |ps|
      ensures Sum(rows, VotesOf(Column(bin, t), ps[i])) == InRange(bin, rows, t)(ps[i])
    {
      var p := ps[i];
      SumIndicator(rows, VotesOf(Column(bin, t), p), bin(p.1, p.0, t));
    }
    TallySum(ps, rows, Column(bin, t), InRange(bin, rows, t));
    TallyBound(ps, InRange(bin, rows, t), 1);
  }
}

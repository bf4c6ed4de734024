// The fixed-radius circle accumulator, `hough_circles`, and the circle
// detector's `find_peaks`. Every edge pixel (x, y) votes, for each whole
// degree 0..359, for the candidate centre `(a, b)` obtained by rounding
// `(x - radius cos theta, y - radius sin theta)`; the vote is kept when the
// centre lies inside the image and is stored at row b, column a. The
// rounded centre is a parameter `centre(x, y, radius, deg)`; the loops, the
// bounds check and the counting are modelled.

module Circles {
  import opened Grids
  import opened Votes
  import Peaks

  /** `centre(x, y, radius, deg)`: the rounded candidate centre (a, b) for one edge pixel and one degree. */
  type CentreFn = (nat, nat, int, nat) -> (int, int)

  /** How many of the degrees `0 .. d - 1` send pixel p = (y, x) to centre (a, b). */
  function DegreeHits(centre: CentreFn, radius: int, p: Pixel, a: int, b: int, d: nat): (n: nat)
    ensures n <= d
  {
    if d == 0 then 0
    else DegreeHits(centre, radius, p, a, b, d - 1) + (if centre(p.1, p.0, radius, d - 1) == (a, b) then 1 else 0)
  }

  /** The votes pixel p gives cell (b, a) over the full circle of 360 degrees. */
  function CircleHit(centre: CentreFn, radius: int, a: int, b: int): Pixel -> nat
  {
    (p: Pixel) => DegreeHits(centre, radius, p, a, b, 360)
  }

  /**
   * `hough_circles(edge_bin, radius)`: an accumulator of the image's own
   * shape whose cell (b, a) counts the (edge pixel, degree) pairs whose
   * centre is (a, b). Centres outside the image are dropped; the radius is
   * not checked.
   */
  method HoughCircles(edge: array2<int>, radius: int, centre: CentreFn) returns (acc: array2<nat>)
    ensures fresh(acc)
    ensures acc.Length0 == edge.Length0 && acc.Length1 == edge.Length1
    ensures forall b, a :: 0 <= b < acc.Length0 && 0 <= a < acc.Length1 ==>
              acc[b, a] == Tally(NonZero(Cells(edge)), CircleHit(centre, radius, a, b))
  {
    acc := new nat[edge.Length0, edge.Length1]((_, _) => 0);
    var ps := NonZero(Cells(edge));
    AccumulateCircles(acc, ps, radius, centre);
  }

  /** The loop over the edge pixels `ps`, on an accumulator that starts at zero. */
  method AccumulateCircles(acc: array2<nat>, ps: seq<Pixel>, radius: int, centre: CentreFn)
    requires forall b, a :: 0 <= b < acc.Length0 && 0 <= a < acc.Length1 ==> acc[b, a] == 0
    modifies acc
    ensures forall b, a :: 0 <= b < acc.Length0 && 0 <= a < acc.Length1 ==>
              acc[b, a] == Tally(ps, CircleHit(centre, radius, a, b))
  {
    var i := 0;
    while i < |ps|
      invariant 0 <= i <= |ps|
      invariant forall b, a :: 0 <= b < acc.Length0 && 0 <= a < acc.Length1 ==>
                  acc[b, a] == Tally(ps[..i], CircleHit(centre, radius, a, b))
    {
      var (y, x) := ps[i];
      CastCircleVotes(acc, x, y, radius, centre);
      forall b, a | 0 <= b < acc.Length0 && 0 <= a < acc.Length1
        ensures acc[b, a] == Tally(ps[..i + 1], CircleHit(centre, radius, a, b))
      {
        TallyStep(ps, i, CircleHit(centre, radius, a, b));
      }
      i := i + 1;
    }
    assert ps[..i] == ps;
  }

  /** One edge pixel's 360 votes: each degree whose centre is inside the grid adds one to `acc[b, a]`. */
  method CastCircleVotes(acc: array2<nat>, x: nat, y: nat, radius: int, centre: CentreFn)
    modifies acc
    ensures forall b, a :: 0 <= b < acc.Length0 && 0 <= a < acc.Length1 ==>
              acc[b, a] == old(acc[b, a]) + DegreeHits(centre, radius, (y, x), a, b, 360)
  {
    var deg := 0;
    while deg < 360
      invariant 0 <= deg <= 360
      invariant forall b, a :: 0 <= b < acc.Length0 && 0 <= a < acc.Length1 ==>
                  acc[b, a] == old(acc[b, a]) + DegreeHits(centre, radius, (y, x), a, b, deg)
    {
      var (a, b) := centre(x, y, radius, deg);
      if 0 <= a < acc.Length1 && 0 <= b < acc.Length0 {
        acc[b, a] := acc[b, a] + 1;
      }
      deg := deg + 1;
    }
  }

  /** How many of the degrees `0 .. d - 1` send pixel p to a centre inside an `h` by `w` grid. */
  function InsideDegrees(centre: CentreFn, radius: int, h: nat, w: nat, p: Pixel, d: nat): (n: nat)
    ensures n <= d
  {
    if d == 0 then 0
    else
      var (a, b) := centre(p.1, p.0, radius, d - 1);
      InsideDegrees(centre, radius, h, w, p, d - 1) + (if 0 <= a < w && 0 <= b < h then 1 else 0)
  }

  /** The cells of the accumulator after the first `d` degrees, as a family indexed by (b, a). */
  function SweptCells(centre: CentreFn, radius: int, d: nat): (nat, nat) -> Pixel -> nat
  {
    (b: nat, a: nat) => (p: Pixel) => DegreeHits(centre, radius, p, a, b, d)
  }

  /** A single vote at cell (b0, a0), as a function over cells. */
  function Spot(b0: int, a0: int): (nat, nat) -> int
  {
    (b: nat, a: nat) => if b == b0 && a == a0 then 1 else 0
  }

  /** Over the first `d` degrees, one pixel's votes across the grid add up to the degrees that land inside it. */
  lemma {:induction false} DegreeSweep(centre: CentreFn, radius: int, h: nat, w: nat, p: Pixel, d: nat)
    ensures Sum2(h, w, VotesOf2(SweptCells(centre, radius, d), p)) == InsideDegrees(centre, radius, h, w, p, d)
  {
    if d == 0 {
      Sum2Indicator(h, w, VotesOf2(SweptCells(centre, radius, d), p), -1, -1);
    } else {
      DegreeSweep(centre, radius, h, w, p, d - 1);
      var (a0, b0) := centre(p.1, p.0, radius, d - 1);
      Sum2Indicator(h, w, Spot(b0, a0), b0, a0);
      Sum2Add(h, w, VotesOf2(SweptCells(centre, radius, d - 1), p), Spot(b0, a0),
              VotesOf2(SweptCells(centre, radius, d), p));
    }
  }

  /** The votes pixel p casts inside an `h` by `w` accumulator over the full circle. */
  function InsideVotes(centre: CentreFn, radius: int, h: nat, w: nat): Pixel -> nat
  {
    (p: Pixel) => InsideDegrees(centre, radius, h, w, p, 360)
  }

  /**
   * Total votes in the accumulator: the sum over all cells equals the number
   * of (edge pixel, degree) pairs whose centre lands inside, so at most 360
   * per edge pixel. Cell (b, a) of `Tallies2(ps, SweptCells(centre, radius, 360))`
   * is `Tally(ps, CircleHit(centre, radius, a, b))`, exactly the value
   * `HoughCircles` stores there, so the sum is over the accumulator itself.
   */
  lemma TotalCircleVotes(ps: seq<Pixel>, centre: CentreFn, radius: int, h: nat, w: nat)
    ensures Sum2(h, w, Tallies2(ps, SweptCells(centre, radius, 360))) == Tally(ps, InsideVotes(centre, radius, h, w))
    ensures Tally(ps, InsideVotes(centre, radius, h, w)) <= 360 * |ps|
  {
    forall i | 0 <= i < |ps|
      ensures Sum2(h, w, VotesOf2(SweptCells(centre, radius, 360), ps[i])) == InsideVotes(centre, radius, h, w)(ps[i])
    {
      DegreeSweep(centre, radius, h, w, ps[i], 360);
    }
    TallySum2(ps, h, w, SweptCells(centre, radius, 360), InsideVotes(centre, radius, h, w));
    TallyBound(ps, InsideVotes(centre, radius, h, w), 360);
  }

  /** A detected circle centre: column a, row b, and its vote count. */
  datatype CirclePeak = CirclePeak(a: nat, b: nat, votes: nat)

  /** Peaks reported as `(idx[1], idx[0], votes)`: column first, then row. */
  function AsCentres(ps: seq<Peaks.Peak>): (cs: seq<CirclePeak>)
    ensures |cs| == |ps|
    ensures forall i :: 0 <= i < |ps| ==> cs[i] == CirclePeak(ps[i].col, ps[i].row, ps[i].votes)
  {
    seq(|ps|, i requires 0 <= i < |ps| => CirclePeak(ps[i].col, ps[i].row, ps[i].votes))
  }

  /** `find_peaks` of the circle detector: the greedy extraction, reporting (column, row, votes). */
  method FindPeaks(acc: array2<nat>, k: int, minVotes: int) returns (r: Result<seq<CirclePeak>>)
    ensures k > 0 && (acc.Length0 == 0 || acc.Length1 == 0) ==> r == Err(EmptyArgmax)
    ensures k <= 0 || (acc.Length0 > 0 && acc.Length1 > 0) ==>
              r == Ok(AsCentres(Peaks.Greedy(Cells(acc), k, minVotes)))
  {
    var found := Peaks.FindPeaks(acc, k, minVotes);
    match found
    case Err(e) => return Err(e);
    case Ok(ps) => return Ok(AsCentres(ps));
  }

  /**
   * At most `k` centres, each with at least `minVotes` votes and inside the
   * grid as (column, row); with `minVotes >= 1` each count is the grid's
   * count at row b, column a.
   */
  lemma CentresSpec(g: Grid<nat>, k: int, minVotes: int)
    requires k > 0 ==> Peaks.NonEmpty(g)
    ensures var cs := AsCentres(Peaks.Greedy(g, k, minVotes));
      |cs| <= (if k < 0 then 0 else k) &&
      (forall i :: 0 <= i < |cs| ==> cs[i].votes >= minVotes && cs[i].b < |g| && cs[i].a < |g[cs[i].b]|) &&
      (minVotes >= 1 ==> forall i :: 0 <= i < |cs| ==> cs[i].votes == g[cs[i].b][cs[i].a])
  {
    Peaks.GreedyAtMostK(g, k, minVotes);
    Peaks.GreedyAboveFloor(g, k, minVotes);
    if minVotes >= 1 {
      Peaks.GreedyExact(g, k, minVotes);
    }
  }
}

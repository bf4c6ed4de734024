// Greedy peak extraction over a vote grid (`find_peaks`, which the line and
// circle detectors both carry). The loop works on a private copy of the
// accumulator: it repeatedly takes the first maximal cell in row-major order
// (what `np.argmax` on the flattened grid returns), stops once that maximum
// is below `minVotes`, and otherwise records the cell and zeroes it.
// `Greedy` is the reference definition of that loop; `FindPeaks` is the loop
// itself over an array, proved equal to it; the lemmas state what the
// extracted peaks satisfy.

module Peaks {
  import opened Grids
  import opened Votes

  /** One extracted peak: the cell's row and column, and its vote count when taken. */
  datatype Peak = Peak(row: nat, col: nat, votes: nat)

  /** A grid with at least one cell and rows of equal length. */
  predicate NonEmpty(g: Grid<nat>)
  {
    |g| > 0 && |g[0]| > 0 && IsRect(g, |g|, |g[0]|)
  }

  /** (y, x) is the cell `np.argmax` picks: a maximum, strictly above every cell before it. */
  ghost predicate IsFirstMax(g: Grid<nat>, y: nat, x: nat)
  {
    y < |g| && x < |g[y]| &&
    (forall p, q :: 0 <= p < |g| && 0 <= q < |g[p]| ==> g[p][q] <= g[y][x]) &&
    (forall p, q :: 0 <= p < |g| && 0 <= q < |g[p]| && RowMajorBefore(p, q, y, x) ==> g[p][q] < g[y][x])
  }

  /** The first maximal entry of a non-empty row. */
  function RowArgMax(row: seq<nat>): (x: nat)
    requires |row| > 0
    ensures x < |row|
    ensures forall q :: 0 <= q < |row| ==> row[q] <= row[x]
    ensures forall q :: 0 <= q < x ==> row[q] < row[x]
  {
    if |row| == 1 then 0
    else
      var x := RowArgMax(row[..|row| - 1]);
      if row[|row| - 1] > row[x] then |row| - 1 else x
  }

  /** `np.unravel_index(np.argmax(g), g.shape)`: a cell of `g` (FirstMaxSpec says which). */
  function FirstMax(g: Grid<nat>): (c: (nat, nat))
    requires NonEmpty(g)
    ensures c.0 < |g| && c.1 < |g[c.0]|
  {
    var y := |g| - 1;
    var x := RowArgMax(g[y]);
    if y == 0 then (0, x)
    else
      var c := FirstMax(g[..y]);
      if g[y][x] > g[c.0][c.1] then (y, x) else c
  }

  /** `FirstMax` picks the first maximal cell in row-major order. */
  lemma {:induction false} FirstMaxSpec(g: Grid<nat>)
    requires NonEmpty(g)
    ensures IsFirstMax(g, FirstMax(g).0, FirstMax(g).1)
  {
    var y := |g| - 1;
    if y > 0 {
      FirstMaxSpec(g[..y]);
    }
  }

  /** Only one cell is the first maximum. */
  lemma FirstMaxUnique(g: Grid<nat>, y: nat, x: nat, y': nat, x': nat)
    requires IsFirstMax(g, y, x) && IsFirstMax(g, y', x')
    ensures y == y' && x == x'
  {
    assert !RowMajorBefore(y, x, y', x') && !RowMajorBefore(y', x', y, x);
  }

  /** No cell exceeds the cell `FirstMax` picks. */
  lemma AtMostMax(g: Grid<nat>, y: nat, x: nat)
    requires NonEmpty(g) && y < |g| && x < |g[y]|
    ensures g[y][x] <= g[FirstMax(g).0][FirstMax(g).1]
  {
    FirstMaxSpec(g);
  }

  /** The largest vote count in the grid. */
  function MaxVotes(g: Grid<nat>): nat
    requires NonEmpty(g)
  {
    var c := FirstMax(g); g[c.0][c.1]
  }

  /** Zeroing a cell keeps the shape. */
  lemma ZeroKeepsShape(g: Grid<nat>, y: nat, x: nat)
    requires NonEmpty(g) && y < |g| && x < |g[y]|
    ensures NonEmpty(SetCell(g, y, x, 0))
  {
    assert |SetCell(g, y, x, 0)[0]| == |g[0]|;
  }

  /** Zeroing a cell can only lower the maximum. */
  lemma ZeroLowersMax(g: Grid<nat>, y: nat, x: nat)
    requires NonEmpty(g) && y < |g| && x < |g[y]|
    ensures NonEmpty(SetCell(g, y, x, 0))
    ensures MaxVotes(SetCell(g, y, x, 0)) <= MaxVotes(g)
  {
    var z := SetCell(g, y, x, 0);
    ZeroKeepsShape(g, y, x);
    FirstMaxSpec(g);
    var c := FirstMax(z);
    assert z[c.0][c.1] <= g[c.0][c.1];
  }

  /**
   * The peaks `find_peaks` returns for grid `g`: up to `k` rounds, each
   * taking the first maximal cell, stopping when it is below `minVotes`,
   * and otherwise zeroing it before the next round.
   */
  function Greedy(g: Grid<nat>, k: int, minVotes: int): seq<Peak>
    requires k > 0 ==> NonEmpty(g)
    decreases k
  {
    if k <= 0 then []
    else
      var c := FirstMax(g);
      var votes := g[c.0][c.1];
      if votes < minVotes then []
      else
        ZeroKeepsShape(g, c.0, c.1);
        [Peak(c.0, c.1, votes)] + Greedy(SetCell(g, c.0, c.1, 0), k - 1, minVotes)
  }

  /** The working copy once the greedy loop is over: the same rounds as `Greedy`, keeping the grid. */
  function Residue(g: Grid<nat>, k: int, minVotes: int): (r: Grid<nat>)
    requires k > 0 ==> NonEmpty(g)
    ensures |r| == |g| && forall p :: 0 <= p < |g| ==> |r[p]| == |g[p]|
    decreases k
  {
    if k <= 0 then g
    else
      var c := FirstMax(g);
      if g[c.0][c.1] < minVotes then g
      else
        ZeroKeepsShape(g, c.0, c.1);
        Residue(SetCell(g, c.0, c.1, 0), k - 1, minVotes)
  }

  /**
   * `find_peaks(acc, k, min_votes)`: copies `acc` and runs the greedy loop on
   * the copy. With `k >= 1`, an accumulator without cells makes `argmax` fail.
   * The caller's `acc` is not modified (the method has no `modifies` clause).
   */
  method FindPeaks(acc: array2<nat>, k: int, minVotes: int) returns (r: Result<seq<Peak>>)
    ensures k > 0 && (acc.Length0 == 0 || acc.Length1 == 0) ==> r == Err(EmptyArgmax)
    ensures k <= 0 || (acc.Length0 > 0 && acc.Length1 > 0) ==> r == Ok(Greedy(Cells(acc), k, minVotes))
  {
    if k > 0 && (acc.Length0 == 0 || acc.Length1 == 0) {
      return Err(EmptyArgmax);
    }
    var h, w := acc.Length0, acc.Length1;
    var work := new nat[h, w]((y, x) requires 0 <= y < h && 0 <= x < w reads acc => acc[y, x]);
    GridExt(Cells(work), Cells(acc), h, w);
    var peaks := ExtractInPlace(work, k, minVotes);
    return Ok(peaks);
  }

  /**
   * The loop of `find_peaks` on the working copy: at most `k` rounds, each
   * taking the first maximal cell, stopping below `minVotes`, and otherwise
   * recording and zeroing it.
   */
  method ExtractInPlace(work: array2<nat>, k: int, minVotes: int) returns (peaks: seq<Peak>)
    requires k > 0 ==> NonEmpty(Cells(work))
    modifies work
    ensures peaks == Greedy(old(Cells(work)), k, minVotes)
    ensures Cells(work) == Residue(old(Cells(work)), k, minVotes)
  {
    ghost var start := Cells(work);
    var h, w := work.Length0, work.Length1;
    peaks := [];
    var n := 0;
    // `n` rounds are done, `k - n` remain, and `cur` is the working copy
    ghost var cur := start;
    while n < k
      invariant k > 0 ==> 0 <= n <= k
      invariant Cells(work) == cur && IsRect(cur, h, w)
      invariant Pending(start, k, peaks, cur, k - n, minVotes)
      decreases k - n
    {
      var c := FirstMax(Cells(work));
      var votes := work[c.0, c.1];
      PendingRound(start, k, peaks, cur, k - n, minVotes);
      if votes < minVotes {
        return;
      }
      peaks := peaks + [Peak(c.0, c.1, votes)];
      ZeroCell(work, c.0, c.1);
      cur := Cells(work);
      n := n + 1;
    }
    PendingDone(start, k, peaks, cur, k - n, minVotes);
  }

  /** `acc_copy[idx] = 0`: the working copy with one cell zeroed. */
  method ZeroCell(work: array2<nat>, y: nat, x: nat)
    requires y < work.Length0 && x < work.Length1
    modifies work
    ensures Cells(work) == SetCell(old(Cells(work)), y, x, 0)
  {
    ghost var before := Cells(work);
    work[y, x] := 0;
    GridExt(Cells(work), SetCell(before, y, x, 0), work.Length0, work.Length1);
  }

  /**
   * The loop's bookkeeping: after the rounds that produced `peaks`, the
   * remaining `left` rounds on the working copy `g` complete both the peaks
   * and the final working copy of the whole run from `start`.
   */
  ghost predicate Pending(start: Grid<nat>, k: int, peaks: seq<Peak>, g: Grid<nat>, left: int, minVotes: int)
  {
    (k > 0 ==> NonEmpty(start)) && (left > 0 ==> NonEmpty(g)) &&
    peaks + Greedy(g, left, minVotes) == Greedy(start, k, minVotes) &&
    Residue(g, left, minVotes) == Residue(start, k, minVotes)
  }

  /** One round of the greedy loop: either it stops, or it records the first maximum and zeroes it. */
  lemma PendingRound(start: Grid<nat>, k: int, peaks: seq<Peak>, g: Grid<nat>, left: int, minVotes: int)
    requires left > 0 && Pending(start, k, peaks, g, left, minVotes)
    ensures var c := FirstMax(g);
      (g[c.0][c.1] < minVotes ==> peaks == Greedy(start, k, minVotes) && g == Residue(start, k, minVotes)) &&
      (g[c.0][c.1] >= minVotes ==>
         Pending(start, k, peaks + [Peak(c.0, c.1, g[c.0][c.1])], SetCell(g, c.0, c.1, 0), left - 1, minVotes))
  {
    var c := FirstMax(g);
    ZeroKeepsShape(g, c.0, c.1);
    if g[c.0][c.1] >= minVotes {
      var tail := Greedy(SetCell(g, c.0, c.1, 0), left - 1, minVotes);
      assert Greedy(g, left, minVotes) == [Peak(c.0, c.1, g[c.0][c.1])] + tail;
      assert (peaks + [Peak(c.0, c.1, g[c.0][c.1])]) + tail == peaks + ([Peak(c.0, c.1, g[c.0][c.1])] + tail);
    } else {
      assert peaks + [] == peaks;
    }
  }

  /** Once no rounds remain, the loop's results are the whole run's. */
  lemma PendingDone(start: Grid<nat>, k: int, peaks: seq<Peak>, g: Grid<nat>, left: int, minVotes: int)
    requires left <= 0 && Pending(start, k, peaks, g, left, minVotes)
    ensures peaks == Greedy(start, k, minVotes) && g == Residue(start, k, minVotes)
  {
    assert peaks + [] == peaks;
  }

  /** At most `k` peaks, and none when `k <= 0`. */
  lemma {:induction false} GreedyAtMostK(g: Grid<nat>, k: int, minVotes: int)
    requires k > 0 ==> NonEmpty(g)
    ensures |Greedy(g, k, minVotes)| <= if k < 0 then 0 else k
    decreases k
  {
    if k > 0 {
      var c := FirstMax(g);
      if g[c.0][c.1] >= minVotes {
        ZeroKeepsShape(g, c.0, c.1);
        GreedyAtMostK(SetCell(g, c.0, c.1, 0), k - 1, minVotes);
      }
    }
  }

  /** Every peak lies inside the grid and has at least `minVotes` votes. */
  lemma {:induction false} GreedyAboveFloor(g: Grid<nat>, k: int, minVotes: int)
    requires k > 0 ==> NonEmpty(g)
    ensures forall i :: 0 <= i < |Greedy(g, k, minVotes)| ==>
              var p := Greedy(g, k, minVotes)[i];
              p.votes >= minVotes && p.row < |g| && p.col < |g[p.row]|
    decreases k
  {
    if k > 0 {
      var c := FirstMax(g);
      if g[c.0][c.1] >= minVotes {
        ZeroKeepsShape(g, c.0, c.1);
        GreedyAboveFloor(SetCell(g, c.0, c.1, 0), k - 1, minVotes);
      }
    }
  }

  /** No peak has more votes than the grid's maximum. */
  lemma {:induction false} GreedyBelowMax(g: Grid<nat>, k: int, minVotes: int)
    requires NonEmpty(g)
    ensures forall i :: 0 <= i < |Greedy(g, k, minVotes)| ==> Greedy(g, k, minVotes)[i].votes <= MaxVotes(g)
    decreases k
  {
    if k > 0 {
      var c := FirstMax(g);
      if g[c.0][c.1] >= minVotes {
        ZeroLowersMax(g, c.0, c.1);
        GreedyBelowMax(SetCell(g, c.0, c.1, 0), k - 1, minVotes);
      }
    }
  }

  /** Vote counts come out in non-increasing order (equal counts are possible: see TiedCellsBothReturned). */
  lemma {:induction false} GreedyNonIncreasing(g: Grid<nat>, k: int, minVotes: int)
    requires k > 0 ==> NonEmpty(g)
    ensures forall i, j :: 0 <= i < j < |Greedy(g, k, minVotes)| ==>
              Greedy(g, k, minVotes)[i].votes >= Greedy(g, k, minVotes)[j].votes
    decreases k
  {
    if k > 0 {
      var c := FirstMax(g);
      if g[c.0][c.1] >= minVotes {
        var z := SetCell(g, c.0, c.1, 0);
        ZeroLowersMax(g, c.0, c.1);
        GreedyNonIncreasing(z, k - 1, minVotes);
        GreedyBelowMax(z, k - 1, minVotes);
      }
    }
  }

  /** One productive round of `Greedy`, unfolded. */
  lemma GreedyUnfold(g: Grid<nat>, k: int, minVotes: int)
    requires k > 0 && NonEmpty(g)
    requires var c := FirstMax(g); g[c.0][c.1] >= minVotes
    ensures var c := FirstMax(g);
      NonEmpty(SetCell(g, c.0, c.1, 0)) &&
      Greedy(g, k, minVotes) == [Peak(c.0, c.1, g[c.0][c.1])] + Greedy(SetCell(g, c.0, c.1, 0), k - 1, minVotes)
  {
    var c := FirstMax(g);
    ZeroKeepsShape(g, c.0, c.1);
  }

  /** Every peak names a cell of `g` and carries the count `g` holds there. */
  predicate CountsMatch(ps: seq<Peak>, g: Grid<nat>)
  {
    forall i :: 0 <= i < |ps| ==>
      ps[i].row < |g| && ps[i].col < |g[ps[i].row]| && ps[i].votes == g[ps[i].row][ps[i].col]
  }

  /** No cell appears twice among the peaks. */
  predicate DistinctCells(ps: seq<Peak>)
  {
    forall i, j :: 0 <= i < j < |ps| ==> (ps[i].row, ps[i].col) != (ps[j].row, ps[j].col)
  }

  /**
   * Peaks with positive counts read from `g` with cell (y, x) zeroed avoid
   * (y, x), and carry the same counts in `g` itself.
   */
  lemma ZeroedCellAvoided(ps: seq<Peak>, g: Grid<nat>, y: nat, x: nat)
    requires y < |g| && x < |g[y]|
    requires CountsMatch(ps, SetCell(g, y, x, 0))
    requires forall i :: 0 <= i < |ps| ==> ps[i].votes > 0
    ensures forall i :: 0 <= i < |ps| ==> (ps[i].row, ps[i].col) != (y, x)
    ensures CountsMatch(ps, g)
  {
  }

  /**
   * Peaks with at least `minVotes >= 1` votes that match `g` with (y, x)
   * zeroed, behind the peak taken at (y, x), all match `g`.
   */
  lemma CountsMatchCons(g: Grid<nat>, y: nat, x: nat, rest: seq<Peak>, minVotes: int)
    requires y < |g| && x < |g[y]| && minVotes >= 1
    requires CountsMatch(rest, SetCell(g, y, x, 0))
    requires forall i :: 0 <= i < |rest| ==> rest[i].votes >= minVotes
    ensures CountsMatch([Peak(y, x, g[y][x])] + rest, g)
  {
    ZeroedCellAvoided(rest, g, y, x);
    var ps := [Peak(y, x, g[y][x])] + rest;
    assert forall i :: 1 <= i < |ps| ==> ps[i] == rest[i - 1];
  }

  /** Putting a new cell in front of distinct cells keeps them distinct. */
  lemma DistinctCons(p: Peak, ps: seq<Peak>)
    requires DistinctCells(ps)
    requires forall i :: 0 <= i < |ps| ==> (ps[i].row, ps[i].col) != (p.row, p.col)
    ensures DistinctCells([p] + ps)
  {
    var qs := [p] + ps;
    forall i, j | 0 <= i < j < |qs|
      ensures (qs[i].row, qs[i].col) != (qs[j].row, qs[j].col)
    {
      assert qs[j] == ps[j - 1];
      if i > 0 {
        assert qs[i] == ps[i - 1];
      }
    }
  }

  /** With `minVotes >= 1`, every peak's count is the count the caller's grid holds at that cell. */
  lemma {:induction false} GreedyExact(g: Grid<nat>, k: int, minVotes: int)
    requires k > 0 ==> NonEmpty(g)
    requires minVotes >= 1
    ensures CountsMatch(Greedy(g, k, minVotes), g)
    decreases k
  {
    if k > 0 {
      var c := FirstMax(g);
      if g[c.0][c.1] >= minVotes {
        ZeroKeepsShape(g, c.0, c.1);
        GreedyExact(SetCell(g, c.0, c.1, 0), k - 1, minVotes);
        ExactStep(g, k, minVotes);
      }
    }
  }

  /** The step of `GreedyExact`: the first peak matches `g`, and so do the later ones, read from the zeroed grid. */
  lemma ExactStep(g: Grid<nat>, k: int, minVotes: int)
    requires k > 0 && NonEmpty(g) && minVotes >= 1
    requires var c := FirstMax(g); g[c.0][c.1] >= minVotes && NonEmpty(SetCell(g, c.0, c.1, 0))
    requires var c := FirstMax(g); var z := SetCell(g, c.0, c.1, 0);
      CountsMatch(Greedy(z, k - 1, minVotes), z)
    ensures CountsMatch(Greedy(g, k, minVotes), g)
  {
    var c := FirstMax(g);
    var z := SetCell(g, c.0, c.1, 0);
    GreedyUnfold(g, k, minVotes);
    GreedyAboveFloor(z, k - 1, minVotes);
    CountsMatchCons(g, c.0, c.1, Greedy(z, k - 1, minVotes), minVotes);
  }

  /** With `minVotes >= 1`, the peaks after the first round never name the cell that round zeroed. */
  lemma LaterPeaksAvoid(g: Grid<nat>, k: int, minVotes: int)
    requires k > 0 && NonEmpty(g) && minVotes >= 1
    requires var c := FirstMax(g); g[c.0][c.1] >= minVotes
    ensures var c := FirstMax(g);
      NonEmpty(SetCell(g, c.0, c.1, 0)) &&
      var rest := Greedy(SetCell(g, c.0, c.1, 0), k - 1, minVotes);
      forall i :: 0 <= i < |rest| ==> (rest[i].row, rest[i].col) != c
  {
    var c := FirstMax(g);
    var z := SetCell(g, c.0, c.1, 0);
    ZeroKeepsShape(g, c.0, c.1);
    GreedyExact(z, k - 1, minVotes);
    GreedyAboveFloor(z, k - 1, minVotes);
    ZeroedCellAvoided(Greedy(z, k - 1, minVotes), g, c.0, c.1);
  }

  /** With `minVotes >= 1`, no cell is returned twice: a zeroed cell never reaches the floor again. */
  lemma {:induction false} GreedyDistinct(g: Grid<nat>, k: int, minVotes: int)
    requires k > 0 ==> NonEmpty(g)
    requires minVotes >= 1
    ensures DistinctCells(Greedy(g, k, minVotes))
    decreases k
  {
    if k > 0 {
      var c := FirstMax(g);
      if g[c.0][c.1] >= minVotes {
        ZeroKeepsShape(g, c.0, c.1);
        GreedyDistinct(SetCell(g, c.0, c.1, 0), k - 1, minVotes);
        DistinctStep(g, k, minVotes);
      }
    }
  }

  /** The step of `GreedyDistinct`: the later peaks are distinct and avoid the first one's cell. */
  lemma DistinctStep(g: Grid<nat>, k: int, minVotes: int)
    requires k > 0 && NonEmpty(g) && minVotes >= 1
    requires var c := FirstMax(g); g[c.0][c.1] >= minVotes && NonEmpty(SetCell(g, c.0, c.1, 0))
    requires var c := FirstMax(g); DistinctCells(Greedy(SetCell(g, c.0, c.1, 0), k - 1, minVotes))
    ensures DistinctCells(Greedy(g, k, minVotes))
  {
    var c := FirstMax(g);
    GreedyUnfold(g, k, minVotes);
    LaterPeaksAvoid(g, k, minVotes);
    DistinctCons(Peak(c.0, c.1, g[c.0][c.1]), Greedy(SetCell(g, c.0, c.1, 0), k - 1, minVotes));
  }

  /** Cell (y, x) is one of the peaks. */
  predicate Returned(ps: seq<Peak>, y: nat, x: nat)
  {
    exists i :: 0 <= i < |ps| && ps[i].row == y && ps[i].col == x
  }

  /** A cell missing from `[p] + rest` is not p's cell and is missing from `rest`. */
  lemma NotReturnedTail(p: Peak, rest: seq<Peak>, y: nat, x: nat)
    requires !Returned([p] + rest, y, x)
    ensures (y, x) != (p.row, p.col) && !Returned(rest, y, x)
  {
    var ps := [p] + rest;
    assert ps[0] == p;
    assert forall i :: 0 <= i < |rest| ==> ps[i + 1] == rest[i];
  }

  /** A cell is returned by `[p] + rest` exactly when it is p's cell or is returned by `rest`. */
  lemma ReturnedCons(p: Peak, rest: seq<Peak>, y: nat, x: nat)
    ensures Returned([p] + rest, y, x) <==> (y, x) == (p.row, p.col) || Returned(rest, y, x)
  {
    var ps := [p] + rest;
    if (y, x) == (p.row, p.col) {
      assert ps[0] == p;
    } else if Returned(rest, y, x) {
      var i :| 0 <= i < |rest| && rest[i].row == y && rest[i].col == x;
      assert ps[i + 1] == rest[i];
    } else {
      forall i | 0 <= i < |ps|
        ensures !(ps[i].row == y && ps[i].col == x)
      {
        if i > 0 {
          assert ps[i] == rest[i - 1];
        }
      }
    }
  }

  /** `r` is `g` with exactly the cells `ps` returns set to 0. */
  predicate ZeroedAt(g: Grid<nat>, r: Grid<nat>, ps: seq<Peak>)
  {
    |r| == |g| &&
    forall y, x :: 0 <= y < |g| && 0 <= x < |g[y]| ==>
      x < |r[y]| && r[y][x] == if Returned(ps, y, x) then 0 else g[y][x]
  }

  /**
   * The working copy after the loop holds 0 at every returned cell and the
   * caller's count everywhere else: only the chosen cells are zeroed.
   */
  lemma {:induction false} ResidueCells(g: Grid<nat>, k: int, minVotes: int)
    requires k > 0 ==> NonEmpty(g)
    ensures ZeroedAt(g, Residue(g, k, minVotes), Greedy(g, k, minVotes))
    decreases k
  {
    if k <= 0 {
      NothingZeroed(g);
    } else {
      var c := FirstMax(g);
      if g[c.0][c.1] >= minVotes {
        ZeroKeepsShape(g, c.0, c.1);
        ResidueCells(SetCell(g, c.0, c.1, 0), k - 1, minVotes);
        ResidueStep(g, k, minVotes);
      } else {
        assert Residue(g, k, minVotes) == g && Greedy(g, k, minVotes) == [];
        NothingZeroed(g);
      }
    }
  }

  /** With no peaks returned the working copy is the caller's grid. */
  lemma NothingZeroed(g: Grid<nat>)
    ensures ZeroedAt(g, g, [])
  {
  }

  /** One productive round: the chosen cell is zeroed now, the rest by the later rounds. */
  lemma ResidueStep(g: Grid<nat>, k: int, minVotes: int)
    requires k > 0 && NonEmpty(g)
    requires var c := FirstMax(g); g[c.0][c.1] >= minVotes
    requires var c := FirstMax(g); NonEmpty(SetCell(g, c.0, c.1, 0))
    requires var c := FirstMax(g); var z := SetCell(g, c.0, c.1, 0);
      ZeroedAt(z, Residue(z, k - 1, minVotes), Greedy(z, k - 1, minVotes))
    ensures ZeroedAt(g, Residue(g, k, minVotes), Greedy(g, k, minVotes))
  {
    var c := FirstMax(g);
    var z := SetCell(g, c.0, c.1, 0);
    var p := Peak(c.0, c.1, g[c.0][c.1]);
    GreedyUnfold(g, k, minVotes);
    forall y, x | 0 <= y < |g| && 0 <= x < |g[y]|
      ensures x < |Residue(g, k, minVotes)[y]|
      ensures Residue(g, k, minVotes)[y][x] == if Returned(Greedy(g, k, minVotes), y, x) then 0 else g[y][x]
    {
      ReturnedCons(p, Greedy(z, k - 1, minVotes), y, x);
    }
  }

  /**
   * Every cell that was not returned is below `minVotes` if the loop stopped
   * early, and no higher than the last peak if all `k` rounds were used.
   */
  lemma {:induction false} GreedyComplete(g: Grid<nat>, k: int, minVotes: int, y: nat, x: nat)
    requires k > 0 ==> NonEmpty(g)
    requires y < |g| && x < |g[y]|
    requires !Returned(Greedy(g, k, minVotes), y, x)
    ensures var ps := Greedy(g, k, minVotes);
      (|ps| < k ==> g[y][x] < minVotes) &&
      (0 < |ps| == k ==> g[y][x] <= ps[|ps| - 1].votes)
    decreases k
  {
    if k > 0 {
      var c := FirstMax(g);
      AtMostMax(g, y, x);
      if g[c.0][c.1] >= minVotes {
        var z := SetCell(g, c.0, c.1, 0);
        GreedyUnfold(g, k, minVotes);
        NotReturnedTail(Peak(c.0, c.1, g[c.0][c.1]), Greedy(z, k - 1, minVotes), y, x);
        if k > 1 {
          assert z[y][x] == g[y][x];
          GreedyComplete(z, k - 1, minVotes, y, x);
        }
      }
    }
  }

  /** Two cells with the same count are both returned: vote counts need not strictly decrease. */
  lemma TiedCellsBothReturned()
    ensures Greedy([[7, 7]], 2, 1) == [Peak(0, 0, 7), Peak(0, 1, 7)]
  {
    var g: Grid<nat> := [[7, 7]];
    assert FirstMax(g) == (0, 0) by {
      FirstMaxSpec(g);
      FirstMaxUnique(g, FirstMax(g).0, FirstMax(g).1, 0, 0);
    }
    var z := SetCell(g, 0, 0, 0);
    GridExt(z, [[0, 7]], 1, 2);
    assert FirstMax(z) == (0, 1) by {
      FirstMaxSpec(z);
      FirstMaxUnique(z, FirstMax(z).0, FirstMax(z).1, 0, 1);
    }
  }

  /** With `minVotes <= 0` a zeroed cell can be taken again. */
  lemma ZeroFloorRepeatsCell()
    ensures Greedy([[0]], 2, 0) == [Peak(0, 0, 0), Peak(0, 0, 0)]
  {
    var g: Grid<nat> := [[0]];
    GridExt(SetCell(g, 0, 0, 0), g, 1, 1);
  }
}

// Edge pixels and vote counting, shared by the line and circle accumulators.
// Both accumulators visit the edge pixels in the order `np.nonzero` lists
// them, and every accumulator cell ends up holding the number of votes those
// pixels give it; `Tally` is that number, as a function of the pixel list.

module Votes {
  import opened Grids

  /** A pixel position (row y, column x), as `np.nonzero` returns it. */
  type Pixel = (nat, nat)

  /** (y, x) comes strictly before (y', x') in row-major order. */
  predicate RowMajorBefore(y: nat, x: nat, y': nat, x': nat)
  {
    y < y' || (y == y' && x < x')
  }

  /** The pixels `ps` are listed in strictly increasing row-major order. */
  predicate RowMajorSorted(ps: seq<Pixel>)
  {
    forall i, j :: 0 <= i < j < |ps| ==> RowMajorBefore(ps[i].0, ps[i].1, ps[j].0, ps[j].1)
  }

  /** Nonzero positions of row `y`, columns in increasing order. */
  function RowNonZero(row: seq<int>, y: nat): (ps: seq<Pixel>)
    ensures forall i :: 0 <= i < |ps| ==> ps[i].0 == y && ps[i].1 < |row| && row[ps[i].1] != 0
    ensures forall i, j :: 0 <= i < j < |ps| ==> ps[i].1 < ps[j].1
    ensures (forall x :: 0 <= x < |row| ==> row[x] == 0) ==> ps == []
  {
    if |row| == 0 then []
    else
      var x := |row| - 1;
      RowNonZero(row[..x], y) + (if row[x] != 0 then [(y, x)] else [])
  }

  /** Every nonzero entry of the row is listed. */
  lemma {:induction false} RowNonZeroComplete(row: seq<int>, y: nat)
    ensures forall x :: 0 <= x < |row| && row[x] != 0 ==> (y, x) in RowNonZero(row, y)
  {
    if |row| > 0 {
      var x := |row| - 1;
      RowNonZeroComplete(row[..x], y);
      assert forall q :: 0 <= q < x ==> row[..x][q] == row[q];
    }
  }

  /** `np.nonzero(g)`: the nonzero cells in row-major order. */
  function NonZero(g: Grid<int>): (ps: seq<Pixel>)
  {
    if |g| == 0 then [] else NonZero(g[..|g| - 1]) + RowNonZero(g[|g| - 1], |g| - 1)
  }

  /** Every pixel `NonZero(g)` lists is a nonzero cell of `g`. */
  lemma {:induction false} NonZeroSound(g: Grid<int>)
    ensures forall p :: p in NonZero(g) ==> p.0 < |g| && p.1 < |g[p.0]| && g[p.0][p.1] != 0
  {
    if |g| > 0 {
      var y := |g| - 1;
      NonZeroSound(g[..y]);
      var front := NonZero(g[..y]);
      var last := RowNonZero(g[y], y);
      assert NonZero(g) == front + last;
      forall p | p in front
        ensures p.0 < y && g[p.0][p.1] != 0
      {
        assert g[..y][p.0] == g[p.0];
      }
    }
  }

  /** Every nonzero cell of `g` is listed by `NonZero(g)`. */
  lemma {:induction false} NonZeroComplete(g: Grid<int>)
    ensures forall y, x :: 0 <= y < |g| && 0 <= x < |g[y]| && g[y][x] != 0 ==> (y, x) in NonZero(g)
  {
    if |g| > 0 {
      var y := |g| - 1;
      NonZeroComplete(g[..y]);
      var front := NonZero(g[..y]);
      var last := RowNonZero(g[y], y);
      RowNonZeroComplete(g[y], y);
      forall p, x | 0 <= p < |g| && 0 <= x < |g[p]| && g[p][x] != 0
        ensures (p, x) in front + last
      {
        if p < y {
          assert g[..y][p][x] == g[p][x];
        }
      }
    }
  }

  /** `NonZero(g)` lists pixels in strictly increasing row-major order (so each at most once). */
  lemma {:induction false} NonZeroOrdered(g: Grid<int>)
    ensures RowMajorSorted(NonZero(g))
  {
    if |g| > 0 {
      var y := |g| - 1;
      NonZeroOrdered(g[..y]);
      NonZeroSound(g[..y]);
      var front, last := NonZero(g[..y]), RowNonZero(g[y], y);
      var ps := NonZero(g);
      assert ps == front + last;
      assert |g[..y]| == y;
      assert RowMajorSorted(front);
      forall i, j | 0 <= i < j < |ps|
        ensures RowMajorBefore(ps[i].0, ps[i].1, ps[j].0, ps[j].1)
      {
        var n := |front|;
        if j < n {
          // both in the earlier rows
          assert ps[i] == front[i] && ps[j] == front[j];
          assert RowMajorBefore(front[i].0, front[i].1, front[j].0, front[j].1);
        } else if i >= n {
          // both in the last row
          assert ps[i] == last[i - n] && ps[j] == last[j - n];
        } else {
          // an earlier row comes before the last row
          assert ps[i] == front[i] && front[i] in front;
          assert front[i].0 < y;
          assert ps[j] == last[j - n] && last[j - n].0 == y;
        }
      }
    }
  }

  /** `NonZero(g)` lists exactly the nonzero cells of `g`, each once, in row-major order. */
  lemma NonZeroSpec(g: Grid<int>)
    ensures var ps := NonZero(g);
      (forall i :: 0 <= i < |ps| ==>
         ps[i].0 < |g| && ps[i].1 < |g[ps[i].0]| && g[ps[i].0][ps[i].1] != 0) &&
      (forall y, x :: 0 <= y < |g| && 0 <= x < |g[y]| && g[y][x] != 0 ==> (y, x) in ps) &&
      RowMajorSorted(ps)
  {
    NonZeroSound(g);
    NonZeroComplete(g);
    NonZeroOrdered(g);
  }

  /** A grid with no nonzero cell has no edge pixels. */
  lemma {:induction false} NoEdgePixels(g: Grid<int>)
    requires forall y, x :: 0 <= y < |g| && 0 <= x < |g[y]| ==> g[y][x] == 0
    ensures NonZero(g) == []
  {
    if |g| > 0 {
      var y := |g| - 1;
      NoEdgePixels(g[..y]);
    }
  }

  /** The votes the pixels `ps` give one cell, when pixel p gives it `hit(p)` votes. */
  function Tally(ps: seq<Pixel>, hit: Pixel -> nat): nat
  {
    if ps == [] then 0 else Tally(ps[..|ps| - 1], hit) + hit(ps[|ps| - 1])
  }

  /** Taking one more pixel adds exactly that pixel's votes. */
  lemma TallyStep(ps: seq<Pixel>, i: nat, hit: Pixel -> nat)
    requires i < |ps|
    ensures Tally(ps[..i + 1], hit) == Tally(ps[..i], hit) + hit(ps[i])
  {
    assert ps[..i + 1][..i] == ps[..i];
  }

  /** Tallies are additive in the pixel list: partial accumulators over a split of the pixels sum to the whole. */
  lemma {:induction false} TallySplit(ps: seq<Pixel>, qs: seq<Pixel>, hit: Pixel -> nat)
    ensures Tally(ps + qs, hit) == Tally(ps, hit) + Tally(qs, hit)
  {
    if qs != [] {
      var n := |qs| - 1;
      assert (ps + qs)[..|ps + qs| - 1] == ps + qs[..n];
      TallySplit(ps, qs[..n], hit);
    } else {
      assert ps + qs == ps;
    }
  }

  /** Counts only grow as pixels are processed: a prefix never holds more votes than the whole list. */
  lemma TallyGrows(ps: seq<Pixel>, n: nat, hit: Pixel -> nat)
    requires n <= |ps|
    ensures Tally(ps[..n], hit) <= Tally(ps, hit)
  {
    assert ps == ps[..n] + ps[n..];
    TallySplit(ps[..n], ps[n..], hit);
  }

  /** If no pixel gives more than `c` votes, the tally is at most `c` per pixel. */
  lemma {:induction false} TallyBound(ps: seq<Pixel>, hit: Pixel -> nat, c: nat)
    requires forall i :: 0 <= i < |ps| ==> hit(ps[i]) <= c
    ensures Tally(ps, hit) <= c * |ps|
  {
    if ps != [] {
      var n := |ps| - 1;
      TallyBound(ps[..n], hit, c);
      assert c * |ps| == c * n + c;
    }
  }

  /** `f(0) + ... + f(n - 1)`. */
  function Sum(n: nat, f: nat -> int): int
  {
    if n == 0 then 0 else Sum(n - 1, f) + f(n - 1)
  }

  lemma {:induction false} SumAdd(n: nat, f: nat -> int, g: nat -> int, h: nat -> int)
    requires forall i :: 0 <= i < n ==> h(i) == f(i) + g(i)
    ensures Sum(n, h) == Sum(n, f) + Sum(n, g)
  {
    if n > 0 {
      SumAdd(n - 1, f, g, h);
    }
  }

  /** Summing a 0/1 indicator of one index `c` over `[0, n)` gives 1 exactly when `c` is in range. */
  lemma {:induction false} SumIndicator(n: nat, f: nat -> int, c: int)
    requires forall i :: 0 <= i < n ==> f(i) == if i == c then 1 else 0
    ensures Sum(n, f) == if 0 <= c < n then 1 else 0
  {
    if n > 0 {
      SumIndicator(n - 1, f, c);
    }
  }

  /** The sum of `f(b, a)` over all cells of an `h` by `w` grid, row by row. */
  function Sum2(h: nat, w: nat, f: (nat, nat) -> int): int
  {
    if h == 0 then 0 else Sum2(h - 1, w, f) + Sum(w, (a: nat) => f(h - 1, a))
  }

  lemma {:induction false} Sum2Add(h: nat, w: nat, f: (nat, nat) -> int, g: (nat, nat) -> int, k: (nat, nat) -> int)
    requires forall b, a :: 0 <= b < h && 0 <= a < w ==> k(b, a) == f(b, a) + g(b, a)
    ensures Sum2(h, w, k) == Sum2(h, w, f) + Sum2(h, w, g)
  {
    if h > 0 {
      Sum2Add(h - 1, w, f, g, k);
      SumAdd(w, (a: nat) => f(h - 1, a), (a: nat) => g(h - 1, a), (a: nat) => k(h - 1, a));
    }
  }

  /** Summing a 0/1 indicator of one cell over a grid gives 1 exactly when the cell is inside it. */
  lemma {:induction false} Sum2Indicator(h: nat, w: nat, f: (nat, nat) -> int, b0: int, a0: int)
    requires forall b, a :: 0 <= b < h && 0 <= a < w ==> f(b, a) == if b == b0 && a == a0 then 1 else 0
    ensures Sum2(h, w, f) == if 0 <= b0 < h && 0 <= a0 < w then 1 else 0
  {
    if h > 0 {
      Sum2Indicator(h - 1, w, f, b0, a0);
      SumIndicator(w, (a: nat) => f(h - 1, a), if b0 == h - 1 then a0 else -1);
    }
  }

  /** A grid without nonzero cells gives no votes to any cell. */
  lemma SilentGrid(g: Grid<int>, hit: Pixel -> nat)
    requires forall y, x :: 0 <= y < |g| && 0 <= x < |g[y]| ==> g[y][x] == 0
    ensures Tally(NonZero(g), hit) == 0
  {
    NoEdgePixels(g);
  }

  /** Cell r's tally, for a family of cells indexed by r. */
  function Tallies(ps: seq<Pixel>, hit: nat -> Pixel -> nat): nat -> int
  {
    (r: nat) => Tally(ps, hit(r))
  }

  /** The votes pixel p gives cell r, for a family of cells indexed by r. */
  function VotesOf(hit: nat -> Pixel -> nat, p: Pixel): nat -> int
  {
    (r: nat) => hit(r)(p)
  }

  /**
   * Summing the tallies of `n` cells equals tallying, per pixel, the votes it
   * gives all `n` cells together (`total`).
   */
  lemma {:induction false} TallySum(ps: seq<Pixel>, n: nat, hit: nat -> Pixel -> nat, total: Pixel -> nat)
    requires forall i :: 0 <= i < |ps| ==> Sum(n, VotesOf(hit, ps[i])) == total(ps[i])
    ensures Sum(n, Tallies(ps, hit)) == Tally(ps, total)
  {
    if ps != [] {
      var front, last := ps[..|ps| - 1], ps[|ps| - 1];
      assert forall i :: 0 <= i < |front| ==> front[i] == ps[i];
      TallySum(front, n, hit, total);
      SumAdd(n, Tallies(front, hit), VotesOf(hit, last), Tallies(ps, hit));
    } else {
      forall r: nat | r < n
        ensures Tallies(ps, hit)(r) == 0
      {
        assert Tallies(ps, hit)(r) == Tally([], hit(r));
      }
      SumIndicator(n, Tallies(ps, hit), -1);
    }
  }

  /** Cell (b, a)'s tally, for a family of cells indexed by grid position. */
  function Tallies2(ps: seq<Pixel>, hit: (nat, nat) -> Pixel -> nat): (nat, nat) -> int
  {
    (b: nat, a: nat) => Tally(ps, hit(b, a))
  }

  /** The votes pixel p gives cell (b, a), for a family of cells indexed by grid position. */
  function VotesOf2(hit: (nat, nat) -> Pixel -> nat, p: Pixel): (nat, nat) -> int
  {
    (b: nat, a: nat) => hit(b, a)(p)
  }

  /** `TallySum` over the cells of an `h` by `w` grid. */
  lemma {:induction false} TallySum2(ps: seq<Pixel>, h: nat, w: nat, hit: (nat, nat) -> Pixel -> nat, total: Pixel -> nat)
    requires forall i :: 0 <= i < |ps| ==> Sum2(h, w, VotesOf2(hit, ps[i])) == total(ps[i])
    ensures Sum2(h, w, Tallies2(ps, hit)) == Tally(ps, total)
  {
    if ps != [] {
      var front, last := ps[..|ps| - 1], ps[|ps| - 1];
      assert forall i :: 0 <= i < |front| ==> front[i] == ps[i];
      TallySum2(front, h, w, hit, total);
      Sum2Add(h, w, Tallies2(front, hit), VotesOf2(hit, last), Tallies2(ps, hit));
    } else {
      forall b: nat, a: nat | b < h && a < w
        ensures Tallies2(ps, hit)(b, a) == 0
      {
        assert Tallies2(ps, hit)(b, a) == Tally([], hit(b, a));
      }
      Sum2Indicator(h, w, Tallies2(ps, hit), -1, -1);
    }
  }
}

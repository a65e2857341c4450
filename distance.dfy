/** Manhattan distance between two cells of a grid, the quantity every
    spatial-balance computation of the solver sums up. */
module Distance {

  /** Java's Math.abs on unbounded integers. */
  function Abs(x: int): (r: nat)
    ensures r == x || r == -x
  {
    if x < 0 then -x else x
  }

  /** |r1 - r2| + |c1 - c2|, the distance term added for one pair of cells. */
  function Manhattan(r1: int, c1: int, r2: int, c2: int): (d: nat)
    ensures d >= Abs(r1 - r2) && d >= Abs(c1 - c2)
  {
    Abs(r1 - r2) + Abs(c1 - c2)
  }

  /** The distance does not depend on which cell is named first. */
  lemma ManhattanSymmetric(r1: int, c1: int, r2: int, c2: int)
    ensures Manhattan(r1, c1, r2, c2) == Manhattan(r2, c2, r1, c1)
  {
  }

  /** The distance is zero exactly for a cell and itself. */
  lemma ManhattanZeroIff(r1: int, c1: int, r2: int, c2: int)
    ensures Manhattan(r1, c1, r2, c2) == 0 <==> (r1 == r2 && c1 == c2)
  {
  }

  /** Coordinates in 0..n-1 are at most n-1 apart on each axis, so one
      term is at most 2(n-1). */
  lemma ManhattanBound(n: nat, r1: int, c1: int, r2: int, c2: int)
    requires 0 <= r1 < n && 0 <= c1 < n && 0 <= r2 < n && 0 <= c2 < n
    ensures Abs(r1 - r2) <= n - 1 && Abs(c1 - c2) <= n - 1
    ensures Manhattan(r1, c1, r2, c2) <= 2 * (n - 1)
  {
  }
}

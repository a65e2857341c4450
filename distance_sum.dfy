/** The nested loops that add up the distance sum of one colour pair over a
    concrete grid: the inner part of the balance test and the verification
    figure printed after a solution. */
module DistanceSum {
  import opened Distance
  import opened Balance

  /** The two innermost loops of the balance test: the distances from cell
      (rA, cA) to every cell holding colour c2, summed in row-major order. */
  method DistanceFromCell(g: seq<seq<int>>, n: nat, rA: nat, cA: nat, c2: int) returns (dist: int)
    requires IsSquare(g, n) && rA < n && cA < n
    ensures dist == Sum(RowTerms(n, rA * n + cA, ColourCells(Flatten(g), c2)))
  {
    ghost var f := Flatten(g);
    ghost var i := rA * n + cA;
    FlattenLength(g, n);
    dist := 0;
    var rB := 0;
    while rB < n
      invariant 0 <= rB <= n && rB * n <= |f|
      invariant dist == DistUpTo(f, n, i, c2, rB * n)
    {
      dist := AddRowDistances(g, n, rA, cA, c2, rB, dist);
      RowContributionIsDistUpTo(g, n, rA, cA, c2, rB, n);
      assert rB * n + n == (rB + 1) * n;
      rB := rB + 1;
    }
    DistUpToIsRowTerms(f, n, i, c2, rB * n);
    assert CellsUpTo(f, c2, rB * n) == ColourCells(f, c2);
  }

  /** The distances from cell i to the cells among the first k of f that
      hold c2, added up one cell at a time. */
  ghost function DistUpTo(f: seq<int>, n: nat, i: int, c2: int, k: nat): int
    requires n > 0 && k <= |f|
  {
    if k == 0 then 0
    else DistUpTo(f, n, i, c2, k - 1) + (if f[k - 1] == c2 then CellTerm(n, i, k - 1) else 0)
  }

  /** Adding up cell by cell gives the distance sum of the specification. */
  lemma {:induction false} DistUpToIsRowTerms(f: seq<int>, n: nat, i: int, c2: int, k: nat)
    requires n > 0 && k <= |f|
    ensures DistUpTo(f, n, i, c2, k) == Sum(RowTerms(n, i, CellsUpTo(f, c2, k)))
  {
    if k > 0 {
      DistUpToIsRowTerms(f, n, i, c2, k - 1);
      CellsUpToStep(f, c2, k - 1);
      if f[k - 1] == c2 {
        RowTermsAppend(n, i, CellsUpTo(f, c2, k - 1), k - 1);
      }
    }
  }

  /** What the cells among the first m of row rB (its values are row) add
      to the sum: the distance to cell (rA, cA) of each cell holding c2. */
  function RowContribution(row: seq<int>, c2: int, rA: int, cA: int, rB: int, m: nat): int
    requires m <= |row|
  {
    if m == 0 then 0
    else
      RowContribution(row, c2, rA, cA, rB, m - 1)
        + (if row[m - 1] == c2 then Abs(rA - rB) + Abs(cA - (m - 1)) else 0)
  }

  /** The innermost loop: the cells of row rB that hold c2 add their
      distances to cell (rA, cA) to the running sum. */
  method AddRowDistances(g: seq<seq<int>>, n: nat, rA: nat, cA: nat, c2: int, rB: nat, dist0: int)
    returns (dist: int)
    requires IsSquare(g, n) && rB < n
    ensures dist == dist0 + RowContribution(g[rB], c2, rA, cA, rB, n)
  {
    dist := dist0;
    var cB := 0;
    while cB < n
      invariant 0 <= cB <= n
      invariant dist == dist0 + RowContribution(g[rB], c2, rA, cA, rB, cB)
    {
      if g[rB][cB] == c2 {
        dist := dist + Abs(rA - rB) + Abs(cA - cB);
      }
      cB := cB + 1;
    }
  }

  /** Row rB's contribution is what its cells add to the running sum over
      the flattened grid. */
  lemma {:induction false} RowContributionIsDistUpTo(g: seq<seq<int>>, n: nat, rA: nat, cA: nat, c2: int, rB: nat, m: nat)
    requires IsSquare(g, n) && rA < n && cA < n && rB < n && m <= n
    ensures |Flatten(g)| == n * n && rB * n + m <= n * n
    ensures DistUpTo(Flatten(g), n, rA * n + cA, c2, rB * n + m)
         == DistUpTo(Flatten(g), n, rA * n + cA, c2, rB * n) + RowContribution(g[rB], c2, rA, cA, rB, m)
    decreases m
  {
    FlattenLength(g, n);
    assert rB * n + n <= n * n by {
      MulMonotone(rB + 1, n, n);
    }
    if m > 0 {
      var j := rB * n + (m - 1);
      RowContributionIsDistUpTo(g, n, rA, cA, c2, rB, m - 1);
      FlattenAt(g, n, rB, m - 1);
      CellTermAt(n, rA, cA, rB, m - 1);
      assert j + 1 == rB * n + m;
    }
  }

  /** One step of PairDistanceSum's inner loop: flat cell i adds its
      distances to all cells of c2 when it holds c1, and nothing otherwise. */
  lemma PairStep(f: seq<int>, n: nat, c1: int, ys: seq<int>, i: nat)
    requires n > 0 && i < |f|
    ensures Sum(CrossTerms(n, CellsUpTo(f, c1, i + 1), ys))
         == Sum(CrossTerms(n, CellsUpTo(f, c1, i), ys)) + (if f[i] == c1 then Sum(RowTerms(n, i, ys)) else 0)
  {
    var xs := CellsUpTo(f, c1, i);
    CellsUpToStep(f, c1, i);
    if f[i] == c1 {
      CrossTermsAppend(n, xs, i, ys);
    }
  }

  /** The four nested loops of the balance test for one colour pair: the
      distance sum of colours c1 and c2. */
  method PairDistanceSum(g: seq<seq<int>>, n: nat, c1: int, c2: int) returns (dist: int)
    requires IsSquare(g, n) && n > 0
    ensures dist == PairDistance(g, n, c1, c2)
  {
    ghost var f := Flatten(g);
    ghost var ys := ColourCells(f, c2);
    FlattenLength(g, n);
    dist := 0;
    ghost var i := 0;
    var rA := 0;
    while rA < n
      invariant 0 <= rA <= n && i == rA * n && i <= |f|
      invariant dist == Sum(CrossTerms(n, CellsUpTo(f, c1, i), ys))
    {
      var cA := 0;
      while cA < n
        invariant 0 <= cA <= n && i == rA * n + cA && i <= |f|
        invariant dist == Sum(CrossTerms(n, CellsUpTo(f, c1, i), ys))
      {
        FlattenAt(g, n, rA, cA);
        assert f[i] == g[rA][cA];
        PairStep(f, n, c1, ys, i);
        if g[rA][cA] == c1 {
          var d := DistanceFromCell(g, n, rA, cA, c2);
          assert d == Sum(RowTerms(n, i, ys));
          dist := dist + d;
        }
        cA, i := cA + 1, i + 1;
      }
      assert rA * n + n == (rA + 1) * n;
      rA := rA + 1;
    }
  }
}

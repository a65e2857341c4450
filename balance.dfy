/** The balance statistic of a fully assigned grid.  A grid is given the way
    the solver hands it back, as n rows of n values; cell (r, c) also has the
    flat index r*n + c into the row-major flattening (the solver's flatGrid).
    The distance sum of two colours a and b is the sum, over every cell
    holding a and every cell holding b, of their Manhattan distance. */
module Balance {
  import opened Distance

  /** n rows of n values each; the values themselves are not restricted. */
  predicate IsSquare(g: seq<seq<int>>, n: nat)
  {
    |g| == n && forall r :: 0 <= r < n ==> |g[r]| == n
  }

  /** Row-major flattening: the rows laid end to end. */
  function Flatten(g: seq<seq<int>>): (f: seq<int>)
  {
    if |g| == 0 then [] else Flatten(g[..|g| - 1]) + g[|g| - 1]
  }

  /** The row of flat index i >= 0 in an n-column grid (i div n), by
      repeated subtraction of a row's length. */
  function RowOf(n: nat, i: int): int
    requires n > 0
    decreases i
  {
    if i < n then 0 else 1 + RowOf(n, i - n)
  }

  /** The column of flat index i >= 0 in an n-column grid (i mod n). */
  function ColOf(n: nat, i: int): int
    requires n > 0
    decreases i
  {
    if i < n then i else ColOf(n, i - n)
  }

  /** Row and column undo the flattening: r*n + c lies in row r, column c. */
  lemma {:induction false} SplitFlat(n: nat, r: int, c: int)
    requires 0 <= c < n && 0 <= r
    ensures RowOf(n, r * n + c) == r && ColOf(n, r * n + c) == c
    decreases r
  {
    if r > 0 {
      assert r * n + c - n == (r - 1) * n + c;
      SplitFlat(n, r - 1, c);
    }
  }

  /** Every flat index i >= 0 is row * n + column, with the column in 0..n-1. */
  lemma {:induction false} FlatSplits(n: nat, i: int)
    requires n > 0 && 0 <= i
    ensures 0 <= RowOf(n, i) && 0 <= ColOf(n, i) < n && RowOf(n, i) * n + ColOf(n, i) == i
    decreases i
  {
    if i >= n {
      FlatSplits(n, i - n);
      assert (RowOf(n, i - n) + 1) * n == RowOf(n, i - n) * n + n;
    }
  }

  lemma MulMonotone(a: int, b: int, n: nat)
    requires a <= b
    ensures a * n <= b * n
  {
    assert b * n - a * n == (b - a) * n;
  }

  /** A cell (r, c) of an n-column grid lies before row r + 1 begins. */
  lemma FlatIndexBound(n: nat, r: int, c: int, rows: nat)
    requires 0 <= r < rows && 0 <= c < n
    ensures 0 <= r * n + c < rows * n
  {
    assert (r + 1) * n <= rows * n;
  }

  lemma {:induction false} FlattenLength(g: seq<seq<int>>, n: nat)
    requires forall r :: 0 <= r < |g| ==> |g[r]| == n
    ensures |Flatten(g)| == |g| * n
  {
    if |g| > 0 {
      FlattenLength(g[..|g| - 1], n);
    }
  }

  /** Flat index r*n + c of the flattening holds cell (r, c). */
  lemma {:induction false} FlattenAt(g: seq<seq<int>>, n: nat, r: int, c: int)
    requires forall i :: 0 <= i < |g| ==> |g[i]| == n
    requires 0 <= r < |g| && 0 <= c < n
    ensures |Flatten(g)| == |g| * n
    ensures 0 <= r * n + c < |Flatten(g)| && Flatten(g)[r * n + c] == g[r][c]
  {
    FlattenLength(g, n);
    var init := g[..|g| - 1];
    FlattenLength(init, n);
    FlatIndexBound(n, r, c, |g|);
    if r < |g| - 1 {
      FlattenAt(init, n, r, c);
    } else {
      assert r * n + c == |Flatten(init)| + c;
    }
  }

  /** Distance between the cells with flat indices i and j. */
  function CellTerm(n: nat, i: int, j: int): nat
    requires n > 0
  {
    Manhattan(RowOf(n, i), ColOf(n, i), RowOf(n, j), ColOf(n, j))
  }

  /** The distance between cells (r1, c1) and (r2, c2) is the distance
      between their flat indices. */
  lemma CellTermAt(n: nat, r1: int, c1: int, r2: int, c2: int)
    requires 0 <= r1 && 0 <= c1 < n && 0 <= r2 && 0 <= c2 < n
    ensures CellTerm(n, r1 * n + c1, r2 * n + c2) == Manhattan(r1, c1, r2, c2)
  {
    SplitFlat(n, r1, c1);
    SplitFlat(n, r2, c2);
  }

  ghost predicate Increasing(s: seq<int>)
  {
    forall i, j :: 0 <= i < j < |s| ==> s[i] < s[j]
  }

  /** A chain of increasing neighbours is increasing. */
  lemma {:induction false} ChainIncreasing(s: seq<int>)
    requires forall k :: 0 < k < |s| ==> s[k - 1] < s[k]
    ensures Increasing(s)
  {
    if |s| > 1 {
      var init := s[..|s| - 1];
      ChainIncreasing(init);
      assert forall i :: 0 <= i < |s| - 1 ==> s[i] < s[|s| - 1] by {
        forall i | 0 <= i < |s| - 1 ensures s[i] < s[|s| - 1] {
          if i < |s| - 2 {
            assert init[i] < init[|s| - 2];
          }
        }
      }
    }
  }

  /** The flat indices j < m with f[j] == v, in increasing order. */
  function CellsUpTo(f: seq<int>, v: int, m: nat): (cs: seq<int>)
    requires m <= |f|
    ensures forall k :: 0 <= k < |cs| ==> 0 <= cs[k] < m && f[cs[k]] == v
  {
    if m == 0 then []
    else if f[m - 1] == v then CellsUpTo(f, v, m - 1) + [m - 1]
    else CellsUpTo(f, v, m - 1)
  }

  /** The list names every index below m that holds v, each once, in
      increasing order. */
  lemma {:induction false} CellsUpToExact(f: seq<int>, v: int, m: nat)
    requires m <= |f|
    ensures Increasing(CellsUpTo(f, v, m))
    ensures forall j :: 0 <= j < m ==> (f[j] == v <==> j in CellsUpTo(f, v, m))
  {
    if m > 0 {
      CellsUpToExact(f, v, m - 1);
    }
  }

  /** All cells of the flattened grid f that hold colour v. */
  function ColourCells(f: seq<int>, v: int): seq<int>
  {
    CellsUpTo(f, v, |f|)
  }

  /** A strictly increasing list of indices below m, each holding v, that is
      at least as long as the list of all such indices, is that list: it
      names every cell holding v exactly once, in increasing order. */
  lemma {:induction false} EnumeratesCells(f: seq<int>, v: int, m: nat, s: seq<int>)
    requires m <= |f|
    requires Increasing(s)
    requires forall k :: 0 <= k < |s| ==> 0 <= s[k] < m && f[s[k]] == v
    requires |s| >= |CellsUpTo(f, v, m)|
    ensures s == CellsUpTo(f, v, m)
    decreases m
  {
    if s == [] {
    } else if s[|s| - 1] == m - 1 {
      var init := s[..|s| - 1];
      BelowLast(s, m - 1);
      EnumeratesCells(f, v, m - 1, init);
      assert s == init + [m - 1];
    } else {
      BelowLast(s, m);
      EnumeratesCells(f, v, m - 1, s);
    }
  }

  /** Below the last element of an increasing list bounded by m lie only
      elements below m - 1, except the last one itself when it is m - 1. */
  lemma BelowLast(s: seq<int>, m: int)
    requires s != [] ==> s[|s| - 1] <= m
    requires Increasing(s)
    ensures s != [] && s[|s| - 1] == m ==>
      Increasing(s[..|s| - 1]) && forall k :: 0 <= k < |s| - 1 ==> s[k] < m
    ensures forall k :: 0 <= k < |s| ==> s[k] <= s[|s| - 1]
  {
  }

  /** The terms added for one cell i of the first colour: its distance to
      each cell of ys, in the order of ys. */
  function RowTerms(n: nat, i: int, ys: seq<int>): (ts: seq<int>)
    requires n > 0
    ensures |ts| == |ys|
  {
    if ys == [] then [] else RowTerms(n, i, ys[..|ys| - 1]) + [CellTerm(n, i, ys[|ys| - 1])]
  }

  /** The terms of a colour pair, cell of the first colour major, cell of
      the second colour minor. */
  function CrossTerms(n: nat, xs: seq<int>, ys: seq<int>): (ts: seq<int>)
    requires n > 0
  {
    if xs == [] then [] else CrossTerms(n, xs[..|xs| - 1], ys) + RowTerms(n, xs[|xs| - 1], ys)
  }

  function Sum(s: seq<int>): int
  {
    if s == [] then 0 else Sum(s[..|s| - 1]) + s[|s| - 1]
  }

  lemma {:induction false} SumConcat(a: seq<int>, b: seq<int>)
    ensures Sum(a + b) == Sum(a) + Sum(b)
  {
    if b != [] {
      var init := b[..|b| - 1];
      assert (a + b)[..|a + b| - 1] == a + init;
      calc {
        Sum(a + b);
        Sum(a + init) + b[|b| - 1];
        { SumConcat(a, init); }
        Sum(a) + Sum(init) + b[|b| - 1];
        Sum(a) + Sum(b);
      }
    } else {
      assert a + b == a;
    }
  }

  /** A sum of non-negative terms, each at most bound, lies in [0, |s| * bound]. */
  lemma {:induction false} SumBounds(s: seq<int>, bound: int)
    requires forall k :: 0 <= k < |s| ==> 0 <= s[k] <= bound
    ensures 0 <= Sum(s) <= |s| * bound
  {
    if s != [] {
      SumBounds(s[..|s| - 1], bound);
    }
  }

  /** One more index j: it joins the list exactly when it holds v. */
  lemma CellsUpToStep(f: seq<int>, v: int, j: nat)
    requires j < |f|
    ensures CellsUpTo(f, v, j + 1) == if f[j] == v then CellsUpTo(f, v, j) + [j] else CellsUpTo(f, v, j)
  {
  }

  /** Adding a cell j of the second colour adds its distance to cell i. */
  lemma RowTermsAppend(n: nat, i: int, ys: seq<int>, j: int)
    requires n > 0
    ensures Sum(RowTerms(n, i, ys + [j])) == Sum(RowTerms(n, i, ys)) + CellTerm(n, i, j)
  {
    assert (ys + [j])[..|ys|] == ys;
    var ts := RowTerms(n, i, ys + [j]);
    assert ts[..|ts| - 1] == RowTerms(n, i, ys);
  }

  /** Adding a cell i of the first colour adds its distances to all of ys. */
  lemma CrossTermsAppend(n: nat, xs: seq<int>, i: int, ys: seq<int>)
    requires n > 0
    ensures Sum(CrossTerms(n, xs + [i], ys)) == Sum(CrossTerms(n, xs, ys)) + Sum(RowTerms(n, i, ys))
  {
    assert (xs + [i])[..|xs|] == xs;
    SumConcat(CrossTerms(n, xs, ys), RowTerms(n, i, ys));
  }

  /** The distance sum of colours a and b in the n-by-n grid g. */
  function PairDistance(g: seq<seq<int>>, n: nat, a: int, b: int): int
    requires IsSquare(g, n) && n > 0
  {
    var f := Flatten(g);
    Sum(CrossTerms(n, ColourCells(f, a), ColourCells(f, b)))
  }

  /** Every distance sum is non-negative (so it never equals a -1 sentinel). */
  lemma PairDistanceNonNegative(g: seq<seq<int>>, n: nat, a: int, b: int)
    requires IsSquare(g, n) && n > 0
    ensures PairDistance(g, n, a, b) >= 0
  {
    var f := Flatten(g);
    CrossTermsNonNegative(n, ColourCells(f, a), ColourCells(f, b));
    SumNonNegative(CrossTerms(n, ColourCells(f, a), ColourCells(f, b)));
  }

  lemma {:induction false} SumNonNegative(s: seq<int>)
    requires forall k :: 0 <= k < |s| ==> 0 <= s[k]
    ensures 0 <= Sum(s)
  {
    if s != [] {
      SumNonNegative(s[..|s| - 1]);
    }
  }

  lemma {:induction false} RowTermsNonNegative(n: nat, i: int, ys: seq<int>)
    requires n > 0
    ensures forall k :: 0 <= k < |RowTerms(n, i, ys)| ==> RowTerms(n, i, ys)[k] >= 0
  {
    if ys != [] {
      RowTermsNonNegative(n, i, ys[..|ys| - 1]);
    }
  }

  lemma {:induction false} CrossTermsNonNegative(n: nat, xs: seq<int>, ys: seq<int>)
    requires n > 0
    ensures forall k :: 0 <= k < |CrossTerms(n, xs, ys)| ==> CrossTerms(n, xs, ys)[k] >= 0
  {
    if xs != [] {
      CrossTermsNonNegative(n, xs[..|xs| - 1], ys);
      RowTermsNonNegative(n, xs[|xs| - 1], ys);
    }
  }

  /** A grid is balanced when every colour pair 1 <= c1 < c2 <= n has the
      distance sum of the pair (1, 2); with at most one pair there is
      nothing to compare. */
  ghost predicate IsBalanced(g: seq<seq<int>>, n: nat)
  {
    && IsSquare(g, n)
    && (n >= 2 ==>
          forall c1, c2 :: 1 <= c1 < c2 <= n ==> PairDistance(g, n, c1, c2) == PairDistance(g, n, 1, 2))
  }

  /** The first common sum is the shared K. */
  ghost predicate BalancedWith(g: seq<seq<int>>, n: nat, k: int)
    requires IsSquare(g, n)
  {
    forall c1, c2 :: 1 <= c1 < c2 <= n ==> PairDistance(g, n, c1, c2) == k
  }

  /** Orders 0, 1 and 2 have at most one colour pair: every grid is balanced. */
  lemma SmallOrdersBalanced(g: seq<seq<int>>, n: nat)
    requires IsSquare(g, n) && n <= 2
    ensures IsBalanced(g, n)
  {
  }

  /** Balance with some common sum K is the same as balance, and then K is
      the sum of the pair (1, 2). */
  lemma BalancedWithIff(g: seq<seq<int>>, n: nat, k: int)
    requires IsSquare(g, n) && n >= 2
    ensures BalancedWith(g, n, k) <==> IsBalanced(g, n) && k == PairDistance(g, n, 1, 2)
  {
  }
}

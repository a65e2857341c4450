/** The Latin-square part of both encodings: variables over 1..n, every
    row and every column all-different, and the two symmetry-breaking facts
    posted on the first row and the first column. */
module Latin {
  import opened Balance

  predicate AllDifferent(s: seq<int>)
  {
    forall i, j :: 0 <= i < j < |s| ==> s[i] != s[j]
  }

  /** Column j of g, top to bottom. */
  function Column(g: seq<seq<int>>, j: nat): (col: seq<int>)
    requires forall r :: 0 <= r < |g| ==> j < |g[r]|
  {
    seq(|g|, r requires 0 <= r < |g| => g[r][j])
  }

  /** Every value of the grid lies in the variables' domain 1..n. */
  ghost predicate ValuesInDomain(g: seq<seq<int>>, n: nat)
    requires IsSquare(g, n)
  {
    forall r, c :: 0 <= r < n && 0 <= c < n ==> 1 <= g[r][c] <= n
  }

  /** The posted all-different constraints: each row, each column. */
  ghost predicate IsLatin(g: seq<seq<int>>, n: nat)
  {
    && IsSquare(g, n)
    && ValuesInDomain(g, n)
    && (forall r :: 0 <= r < n ==> AllDifferent(g[r]))
    && (forall j :: 0 <= j < n ==> AllDifferent(Column(g, j)))
  }

  /** First row fixed to 1, 2, ..., n. */
  ghost predicate FirstRowFixed(g: seq<seq<int>>, n: nat)
    requires IsSquare(g, n)
  {
    forall j :: 0 <= j < n ==> g[0][j] == j + 1
  }

  /** grid[0][1] < grid[1][0], posted only for n > 2. */
  ghost predicate TieBreak(g: seq<seq<int>>, n: nat)
    requires IsSquare(g, n)
  {
    n > 2 ==> g[0][1] < g[1][0]
  }

  /** Everything the generate-and-test model posts. */
  ghost predicate LatinModel(g: seq<seq<int>>, n: nat)
  {
    IsLatin(g, n) && FirstRowFixed(g, n) && TieBreak(g, n)
  }

  /** Every row and every column of a Latin square holds each colour
      1..n: the n all-different values of 1..n take every value. */
  lemma LatinLinesCover(g: seq<seq<int>>, n: nat, i: nat, v: int)
    requires IsLatin(g, n) && i < n && 1 <= v <= n
    ensures v in g[i]
    ensures v in Column(g, i)
  {
    AllDifferentCovers(g[i], 1);
    AllDifferentCovers(Column(g, i), 1);
  }

  /** Row r contributes at most one cell of colour v: after the first r rows
      and c cells of row r, at most r cells hold v, plus one if v is among
      those c cells. */
  lemma {:induction false} CountPrefix(g: seq<seq<int>>, n: nat, v: int, r: nat, c: nat)
    requires IsLatin(g, n)
    requires r < n && c <= n
    ensures |Flatten(g)| == n * n
    ensures r * n + c <= |Flatten(g)|
    ensures |CellsUpTo(Flatten(g), v, r * n + c)| <= r + (if v in g[r][..c] then 1 else 0)
    ensures 1 <= v <= n ==> |CellsUpTo(Flatten(g), v, r * n + c)| == r + (if v in g[r][..c] then 1 else 0)
    decreases r, c
  {
    var f := Flatten(g);
    FlattenLength(g, n);
    RowPrefixBound(n, r, c);
    if c == 0 {
      if r > 0 {
        CountPrefix(g, n, v, r - 1, n);
        assert g[r - 1][..n] == g[r - 1];
        if 1 <= v <= n {
          AllDifferentCovers(g[r - 1], 1);
        }
      }
    } else {
      var j := r * n + (c - 1);
      FlattenAt(g, n, r, c - 1);
      CountPrefix(g, n, v, r, c - 1);
      assert g[r][..c] == g[r][..c - 1] + [g[r][c - 1]];
      if g[r][c - 1] == v {
        assert v !in g[r][..c - 1];
      }
    }
  }

  /** The index arithmetic of CountPrefix: cells r*n .. r*n + n - 1 form
      row r, and row r - 1 ends where row r begins. */
  lemma RowPrefixBound(n: nat, r: nat, c: nat)
    requires r < n && c <= n
    ensures 0 <= r * n + c <= r * n + n <= n * n
    ensures r > 0 ==> (r - 1) * n + n == r * n
  {
    MulMonotone(r + 1, n, n);
  }

  /** In a Latin square of order n no colour holds more than n cells. */
  lemma ColourCountAtMostN(g: seq<seq<int>>, n: nat, v: int)
    requires IsLatin(g, n)
    ensures |ColourCells(Flatten(g), v)| <= n
  {
    FlattenLength(g, n);
    if n > 0 {
      CountPrefix(g, n, v, n - 1, n);
      assert (n - 1) * n + n == n * n;
    }
  }
  /** In a Latin square of order n each colour 1..n holds exactly n cells:
      one per row. */
  lemma ColourCountExactlyN(g: seq<seq<int>>, n: nat, v: int)
    requires IsLatin(g, n) && 1 <= v <= n
    ensures |ColourCells(Flatten(g), v)| == n
  {
    FlattenLength(g, n);
    CountPrefix(g, n, v, n - 1, n);
    assert (n - 1) * n + n == n * n;
    assert g[n - 1][..n] == g[n - 1];
    AllDifferentCovers(g[n - 1], 1);
  }

  /** A sequence without repeats has as many distinct values as elements. */
  lemma {:induction false} DistinctValueCount(s: seq<int>)
    requires AllDifferent(s)
    ensures |set x | x in s| == |s|
  {
    if s != [] {
      var init := s[..|s| - 1];
      assert AllDifferent(init);
      DistinctValueCount(init);
      assert (set x | x in s) == (set x | x in init) + {s[|s| - 1]};
    }
  }

  /** The integers lo .. lo + n - 1. */
  function Range(lo: int, n: nat): set<int>
  {
    if n == 0 then {} else Range(lo, n - 1) + {lo + n - 1}
  }

  lemma {:induction false} RangeMembers(lo: int, n: nat)
    ensures forall v :: v in Range(lo, n) <==> lo <= v < lo + n
  {
    if n > 0 {
      RangeMembers(lo, n - 1);
    }
  }

  lemma {:induction false} RangeCount(lo: int, n: nat)
    ensures |Range(lo, n)| == n
  {
    if n > 0 {
      RangeCount(lo, n - 1);
      RangeMembers(lo, n - 1);
    }
  }

  /** Pigeonhole: n distinct values drawn from a range of n values take
      every value of the range. */
  lemma AllDifferentCovers(s: seq<int>, lo: int)
    requires AllDifferent(s)
    requires forall k :: 0 <= k < |s| ==> lo <= s[k] < lo + |s|
    ensures forall v :: lo <= v < lo + |s| ==> v in s
  {
    var values := set x | x in s;
    var range := Range(lo, |s|);
    DistinctValueCount(s);
    RangeCount(lo, |s|);
    RangeMembers(lo, |s|);
    assert values <= range;
    assert range * values == values && range + values == range && values - range == {};
    assert |range - values| == 0;
    forall v | lo <= v < lo + |s|
      ensures v in s
    {
      assert v in range;
      assert v in values;
    }
  }
}

/** The constraint model both solver programs post for order n, read as a
    predicate on one concrete assignment of its variables: the grid, the
    coordinates (rowsOfColor, colsOfColor) of the k-th occurrence of each
    colour, and the balance constant K.  The auxiliary variables of the
    balance constraint (row and column differences, one distance term per
    pair of occurrences) are determined by the others and appear as
    functions of them, together with the domains they are declared with. */
module Encoding {
  import opened Distance
  import opened Balance
  import opened Latin

  datatype Assignment = Assignment(
    grid: seq<seq<int>>,
    rowsOfColor: seq<seq<int>>,
    colsOfColor: seq<seq<int>>,
    k: int)

  /** The upper bound of K's domain, 2n^3. */
  function MaxDist(n: nat): nat
  {
    2 * n * n * n
  }

  /** The variable arrays have the declared sizes: an n-by-n grid and, for
      each of the n colours, n row and n column variables. */
  predicate Shaped(asg: Assignment, n: nat)
  {
    && IsSquare(asg.grid, n)
    && IsSquare(asg.rowsOfColor, n)
    && IsSquare(asg.colsOfColor, n)
  }

  /** Every occurrence coordinate lies in 0..n-1. */
  ghost predicate CoordinatesInRange(asg: Assignment, n: nat)
    requires Shaped(asg, n)
  {
    forall c, k :: 0 <= c < n && 0 <= k < n ==>
      0 <= asg.rowsOfColor[c][k] <= n - 1 && 0 <= asg.colsOfColor[c][k] <= n - 1
  }

  /** The declared domains of the coordinates and of K, 0..2n^3 (the
      grid's domain 1..n is part of IsLatin). */
  ghost predicate CoordinateDomains(asg: Assignment, n: nat)
    requires Shaped(asg, n)
  {
    CoordinatesInRange(asg, n) && 0 <= asg.k <= MaxDist(n)
  }

  /** Flat index row*n + col of the k-th occurrence of colour c. */
  function OccurrenceIndex(asg: Assignment, n: nat, c: int, k: int): int
    requires Shaped(asg, n) && 1 <= c <= n && 0 <= k < n
  {
    asg.rowsOfColor[c - 1][k] * n + asg.colsOfColor[c - 1][k]
  }

  /** Channeling: each occurrence index is a valid index of flatGrid (the
      element constraint with offset 0) and flatGrid holds c there. */
  ghost predicate Channeling(asg: Assignment, n: nat)
    requires Shaped(asg, n)
  {
    forall c, k :: 1 <= c <= n && 0 <= k < n ==>
      var idx := OccurrenceIndex(asg, n, c, k);
      0 <= idx < n * n && idx < |Flatten(asg.grid)| && Flatten(asg.grid)[idx] == c
  }

  /** The occurrence indices of one colour strictly increase with k. */
  ghost predicate OccurrencesOrdered(asg: Assignment, n: nat)
    requires Shaped(asg, n)
  {
    forall c, k :: 1 <= c <= n && 0 < k < n ==>
      OccurrenceIndex(asg, n, c, k - 1) < OccurrenceIndex(asg, n, c, k)
  }

  /** The distance term for occurrence kA of colour a and occurrence kB of
      colour b: rDiff + cDiff with rDiff = |rDelta|, cDiff = |cDelta|. */
  function DistanceTerm(asg: Assignment, n: nat, a: int, b: int, kA: int, kB: int): int
    requires Shaped(asg, n) && 1 <= a <= n && 1 <= b <= n && 0 <= kA < n && 0 <= kB < n
  {
    Abs(asg.rowsOfColor[a - 1][kA] - asg.rowsOfColor[b - 1][kB])
      + Abs(asg.colsOfColor[a - 1][kA] - asg.colsOfColor[b - 1][kB])
  }

  /** The auxiliary variables of one term fit their declared domains:
      rDiff and cDiff in 0..n, the term in 0..2n. */
  ghost predicate TermInDomain(asg: Assignment, n: nat, a: int, b: int, kA: int, kB: int)
    requires Shaped(asg, n) && 1 <= a <= n && 1 <= b <= n && 0 <= kA < n && 0 <= kB < n
  {
    && Abs(asg.rowsOfColor[a - 1][kA] - asg.rowsOfColor[b - 1][kB]) <= n
    && Abs(asg.colsOfColor[a - 1][kA] - asg.colsOfColor[b - 1][kB]) <= n
    && DistanceTerm(asg, n, a, b, kA, kB) <= 2 * n
  }

  /** Every term of pair (a, b) fits its aux domains. */
  ghost predicate TermsInDomain(asg: Assignment, n: nat, a: int, b: int)
    requires Shaped(asg, n) && 1 <= a <= n && 1 <= b <= n
  {
    forall kA, kB :: 0 <= kA < n && 0 <= kB < n ==> TermInDomain(asg, n, a, b, kA, kB)
  }

  /** Terms kB' < m of row kA of the distances array. */
  function TermRow(asg: Assignment, n: nat, a: int, b: int, kA: int, m: nat): (ts: seq<int>)
    requires Shaped(asg, n) && 1 <= a <= n && 1 <= b <= n && 0 <= kA < n && m <= n
    ensures |ts| == m
  {
    if m == 0 then [] else TermRow(asg, n, a, b, kA, m - 1) + [DistanceTerm(asg, n, a, b, kA, m - 1)]
  }

  /** The first m rows (kA < m) of the distances array, kA major. */
  function TermsUpTo(asg: Assignment, n: nat, a: int, b: int, m: nat): seq<int>
    requires Shaped(asg, n) && 1 <= a <= n && 1 <= b <= n && m <= n
  {
    if m == 0 then [] else TermsUpTo(asg, n, a, b, m - 1) + TermRow(asg, n, a, b, m - 1, n)
  }

  /** The n^2 terms whose sum the model constrains to K for the pair (a, b). */
  function PairTerms(asg: Assignment, n: nat, a: int, b: int): seq<int>
    requires Shaped(asg, n) && 1 <= a <= n && 1 <= b <= n
  {
    TermsUpTo(asg, n, a, b, n)
  }

  /** For every pair a < b each term fits its aux domains and the terms sum
      to K.  No pair exists, and nothing is posted, when n < 2. */
  ghost predicate BalanceConstraint(asg: Assignment, n: nat)
    requires Shaped(asg, n)
  {
    forall a, b :: 1 <= a < b <= n ==>
      && TermsInDomain(asg, n, a, b)
      && Sum(PairTerms(asg, n, a, b)) == asg.k
  }

  /** Everything solveSBLS posts, for an assignment of all its variables. */
  ghost predicate Satisfies(asg: Assignment, n: nat)
  {
    && Shaped(asg, n)
    && CoordinateDomains(asg, n)
    && IsLatin(asg.grid, n)
    && Channeling(asg, n)
    && OccurrencesOrdered(asg, n)
    && BalanceConstraint(asg, n)
    && FirstRowFixed(asg.grid, n)
    && TieBreak(asg.grid, n)
  }

  /** The occurrence indices of colour c, k = 0..n-1. */
  function Occurrences(asg: Assignment, n: nat, c: int): (s: seq<int>)
    requires Shaped(asg, n) && 1 <= c <= n
  {
    seq(n, k requires 0 <= k < n => OccurrenceIndex(asg, n, c, k))
  }

  /** The construction of one pair's distances array, filled through the
      running index idx = kA*n + kB. */
  method BuildDistances(asg: Assignment, n: nat, a: int, b: int) returns (distances: array<int>)
    requires Shaped(asg, n) && 1 <= a < b <= n
    ensures fresh(distances)
    ensures distances.Length == n * n
    ensures distances[..] == PairTerms(asg, n, a, b)
  {
    distances := new int[n * n];
    var idx := 0;
    var kA := 0;
    while kA < n
      invariant 0 <= kA <= n && idx == kA * n && idx <= n * n
      invariant distances[..idx] == TermsUpTo(asg, n, a, b, kA)
    {
      NextRowStart(n, kA);
      idx := FillRow(distances, asg, n, a, b, kA, idx);
      kA := kA + 1;
    }
    assert distances[..] == distances[..idx];
  }

  /** The inner loop of the construction: the n terms of row kA go to
      indices kA*n .. kA*n + n - 1; the running index after the row is
      returned. */
  method FillRow(distances: array<int>, asg: Assignment, n: nat, a: int, b: int, kA: int, start: int)
    returns (idx: int)
    modifies distances
    requires Shaped(asg, n) && 1 <= a < b <= n && 0 <= kA < n
    requires distances.Length == n * n && start == kA * n && start + n <= n * n
    ensures idx == start + n
    ensures distances[..idx] == old(distances[..start]) + TermRow(asg, n, a, b, kA, n)
    ensures distances[idx..] == old(distances[idx..])
  {
    ghost var before := distances[..start];
    idx := start;
    var kB := 0;
    while kB < n
      invariant 0 <= kB <= n && idx == start + kB
      invariant distances[..idx] == before + TermRow(asg, n, a, b, kA, kB)
      invariant distances[start + n..] == old(distances[start + n..])
    {
      var term := DistanceTerm(asg, n, a, b, kA, kB);
      ghost var row := TermRow(asg, n, a, b, kA, kB);
      distances[idx] := term;
      assert distances[..idx + 1] == before + row + [term];
      idx := idx + 1;
      kB := kB + 1;
    }
  }

  lemma NextRowStart(n: nat, kA: nat)
    requires kA < n
    ensures kA * n + n == (kA + 1) * n <= n * n
  {
    MulMonotone(kA + 1, n, n);
  }

  // ---------------------------------------------------------------------
  // Domains of the auxiliary variables and of K
  // ---------------------------------------------------------------------

  /** The aux domains never cut off a real value: with coordinates in
      0..n-1 each difference is at most n-1 <= n and each term at most
      2(n-1) <= 2n. */
  lemma AuxDomainsSuffice(asg: Assignment, n: nat, a: int, b: int, kA: int, kB: int)
    requires Shaped(asg, n) && CoordinatesInRange(asg, n)
    requires 1 <= a <= n && 1 <= b <= n && 0 <= kA < n && 0 <= kB < n
    ensures TermInDomain(asg, n, a, b, kA, kB)
    ensures 0 <= DistanceTerm(asg, n, a, b, kA, kB) <= 2 * (n - 1)
  {
    ManhattanBound(n, asg.rowsOfColor[a - 1][kA], asg.colsOfColor[a - 1][kA],
                   asg.rowsOfColor[b - 1][kB], asg.colsOfColor[b - 1][kB]);
  }

  lemma {:induction false} TermsUpToFacts(asg: Assignment, n: nat, a: int, b: int, m: nat)
    requires Shaped(asg, n) && CoordinatesInRange(asg, n) && 1 <= a <= n && 1 <= b <= n && m <= n
    ensures |TermsUpTo(asg, n, a, b, m)| == m * n
    ensures forall i :: 0 <= i < |TermsUpTo(asg, n, a, b, m)| ==> 0 <= TermsUpTo(asg, n, a, b, m)[i] <= 2 * n
  {
    if m > 0 {
      TermsUpToFacts(asg, n, a, b, m - 1);
      TermRowFacts(asg, n, a, b, m - 1, n);
      assert (m - 1) * n + n == m * n;
    }
  }

  lemma {:induction false} TermRowFacts(asg: Assignment, n: nat, a: int, b: int, kA: int, m: nat)
    requires Shaped(asg, n) && CoordinatesInRange(asg, n) && 1 <= a <= n && 1 <= b <= n && 0 <= kA < n && m <= n
    ensures forall i :: 0 <= i < m ==> 0 <= TermRow(asg, n, a, b, kA, m)[i] <= 2 * n
  {
    if m > 0 {
      TermRowFacts(asg, n, a, b, kA, m - 1);
      AuxDomainsSuffice(asg, n, a, b, kA, m - 1);
    }
  }

  /** Every pair's term sum lies in 0..2n^3, so K's domain 0..maxDist never
      excludes the common sum of an assignment within the coordinate
      domains. */
  lemma PairSumWithinMaxDist(asg: Assignment, n: nat, a: int, b: int)
    requires Shaped(asg, n) && CoordinatesInRange(asg, n) && 1 <= a <= n && 1 <= b <= n
    ensures |PairTerms(asg, n, a, b)| == n * n
    ensures 0 <= Sum(PairTerms(asg, n, a, b)) <= MaxDist(n)
  {
    TermsUpToFacts(asg, n, a, b, n);
    TermSumBound(PairTerms(asg, n, a, b), n);
  }

  /** n^2 terms, each in 0..2n, sum to at most maxDist. */
  lemma TermSumBound(ts: seq<int>, n: nat)
    requires |ts| == n * n
    requires forall k :: 0 <= k < |ts| ==> 0 <= ts[k] <= 2 * n
    ensures 0 <= Sum(ts) <= MaxDist(n)
  {
    SumBounds(ts, 2 * n);
    assert |ts| * (2 * n) == MaxDist(n);
  }

  /** With coordinates in 0..n-1 every occurrence index lies in 0..n^2-1. */
  lemma OccurrenceIndexInRange(asg: Assignment, n: nat, c: int, k: int)
    requires Shaped(asg, n) && CoordinatesInRange(asg, n) && 1 <= c <= n && 0 <= k < n
    ensures 0 <= OccurrenceIndex(asg, n, c, k) < n * n
  {
    FlatIndexBound(n, asg.rowsOfColor[c - 1][k], asg.colsOfColor[c - 1][k], n);
  }

  // ---------------------------------------------------------------------
  // Soundness of the encoding
  // ---------------------------------------------------------------------

  /** The n channelled, strictly increasing occurrences of colour c list
      exactly the cells holding c, in increasing order; in particular c
      occupies exactly n cells. */
  lemma OccurrencesAreColourCells(asg: Assignment, n: nat, c: int)
    requires Satisfies(asg, n) && 1 <= c <= n
    ensures Occurrences(asg, n, c) == ColourCells(Flatten(asg.grid), c)
    ensures |ColourCells(Flatten(asg.grid), c)| == n
  {
    var f := Flatten(asg.grid);
    var s := Occurrences(asg, n, c);
    FlattenLength(asg.grid, n);
    ChainIncreasing(s);
    ColourCountAtMostN(asg.grid, n, c);
    EnumeratesCells(f, c, |f|, s);
  }

  lemma {:induction false} TermRowIsRowTerms(asg: Assignment, n: nat, a: int, b: int, kA: int, m: nat)
    requires Shaped(asg, n) && CoordinatesInRange(asg, n) && n > 0
    requires 1 <= a <= n && 1 <= b <= n && 0 <= kA < n && m <= n
    ensures TermRow(asg, n, a, b, kA, m)
         == RowTerms(n, Occurrences(asg, n, a)[kA], Occurrences(asg, n, b)[..m])
  {
    if m > 0 {
      var ys := Occurrences(asg, n, b);
      TermRowIsRowTerms(asg, n, a, b, kA, m - 1);
      assert ys[..m][..m - 1] == ys[..m - 1];
      OccurrenceCellTerm(asg, n, a, b, kA, m - 1);
    }
  }

  /** A distance term is the distance between the two occurrence cells. */
  lemma OccurrenceCellTerm(asg: Assignment, n: nat, a: int, b: int, kA: int, kB: int)
    requires Shaped(asg, n) && CoordinatesInRange(asg, n) && n > 0
    requires 1 <= a <= n && 1 <= b <= n && 0 <= kA < n && 0 <= kB < n
    ensures CellTerm(n, OccurrenceIndex(asg, n, a, kA), OccurrenceIndex(asg, n, b, kB))
         == DistanceTerm(asg, n, a, b, kA, kB)
  {
    OccurrenceSplit(asg, n, a, kA);
    OccurrenceSplit(asg, n, b, kB);
  }

  /** An occurrence index lies in the occurrence's row and column. */
  lemma OccurrenceSplit(asg: Assignment, n: nat, c: int, k: int)
    requires Shaped(asg, n) && CoordinatesInRange(asg, n) && n > 0 && 1 <= c <= n && 0 <= k < n
    ensures RowOf(n, OccurrenceIndex(asg, n, c, k)) == asg.rowsOfColor[c - 1][k]
    ensures ColOf(n, OccurrenceIndex(asg, n, c, k)) == asg.colsOfColor[c - 1][k]
  {
    SplitFlat(n, asg.rowsOfColor[c - 1][k], asg.colsOfColor[c - 1][k]);
  }

  lemma {:induction false} TermsUpToIsCrossTerms(asg: Assignment, n: nat, a: int, b: int, m: nat)
    requires Shaped(asg, n) && CoordinatesInRange(asg, n) && n > 0
    requires 1 <= a <= n && 1 <= b <= n && m <= n
    ensures TermsUpTo(asg, n, a, b, m)
         == CrossTerms(n, Occurrences(asg, n, a)[..m], Occurrences(asg, n, b))
  {
    if m > 0 {
      var xs, ys := Occurrences(asg, n, a), Occurrences(asg, n, b);
      TermsUpToIsCrossTerms(asg, n, a, b, m - 1);
      TermRowIsRowTerms(asg, n, a, b, m - 1, n);
      assert xs[..m][..m - 1] == xs[..m - 1];
      assert ys[..n] == ys;
    }
  }

  /** The distances array of the pair (a, b) of a satisfying assignment is
      exactly the list of terms the balance test adds for that pair, in the
      same order; so its sum, K, is the pair's distance sum. */
  lemma PairTermsAreGridTerms(asg: Assignment, n: nat, a: int, b: int)
    requires Satisfies(asg, n) && 1 <= a <= n && 1 <= b <= n
    ensures PairTerms(asg, n, a, b)
         == CrossTerms(n, ColourCells(Flatten(asg.grid), a), ColourCells(Flatten(asg.grid), b))
    ensures Sum(PairTerms(asg, n, a, b)) == PairDistance(asg.grid, n, a, b)
  {
    OccurrencesAreColourCells(asg, n, a);
    OccurrencesAreColourCells(asg, n, b);
    TermsUpToIsCrossTerms(asg, n, a, b, n);
    assert Occurrences(asg, n, a)[..n] == Occurrences(asg, n, a);
  }

  /** Soundness: any assignment satisfying the encoding is a Latin square
      with the posted symmetry breaking, in which every colour pair has
      distance sum K; hence the balance test accepts its grid. */
  lemma EncodingSound(asg: Assignment, n: nat)
    requires Satisfies(asg, n)
    ensures LatinModel(asg.grid, n)
    ensures BalancedWith(asg.grid, n, asg.k)
    ensures IsBalanced(asg.grid, n)
    ensures n >= 2 ==> asg.k == PairDistance(asg.grid, n, 1, 2)
  {
    forall a, b | 1 <= a < b <= n
      ensures PairDistance(asg.grid, n, a, b) == asg.k
    {
      PairTermsAreGridTerms(asg, n, a, b);
    }
    if n >= 2 {
      BalancedWithIff(asg.grid, n, asg.k);
    }
  }
  // ---------------------------------------------------------------------
  // Completeness of the encoding
  // ---------------------------------------------------------------------

  /** Row (when byRow) or column of the k-th cell holding colour c + 1. */
  function Coordinate(g: seq<seq<int>>, n: nat, c: int, k: int, byRow: bool): int
  {
    var cells := ColourCells(Flatten(g), c + 1);
    if n > 0 && 0 <= k < |cells| then (if byRow then RowOf(n, cells[k]) else ColOf(n, cells[k])) else 0
  }

  /** The assignment a solver run would produce for grid g: the occurrence
      coordinates list each colour's cells in increasing order, and K is the
      sum of the pair (1, 2). */
  function AssignmentFor(g: seq<seq<int>>, n: nat): (asg: Assignment)
    ensures asg.grid == g && Shaped(asg, n) == IsSquare(g, n)
  {
    Assignment(
      g,
      seq(n, c => seq(n, k => Coordinate(g, n, c, k, true))),
      seq(n, c => seq(n, k => Coordinate(g, n, c, k, false))),
      if n >= 2 && IsSquare(g, n) then PairDistance(g, n, 1, 2) else 0)
  }

  /** A flat index below n^2 splits into a row and a column in 0..n-1. */
  lemma SplitIndex(n: nat, j: int)
    requires 0 <= j < n * n
    ensures 0 <= RowOf(n, j) < n && 0 <= ColOf(n, j) < n && RowOf(n, j) * n + ColOf(n, j) == j
  {
    FlatSplits(n, j);
    if RowOf(n, j) >= n {
      MulMonotone(n, RowOf(n, j), n);
    }
  }

  /** The coordinates of the occurrences of colour c + 1 lie in 0..n-1. */
  ghost predicate ColourInRange(asg: Assignment, n: nat, c: int)
    requires Shaped(asg, n) && 0 <= c < n
  {
    forall k :: 0 <= k < n ==>
      0 <= asg.rowsOfColor[c][k] <= n - 1 && 0 <= asg.colsOfColor[c][k] <= n - 1
  }

  /** In AssignmentFor, the occurrences of a colour c with exactly n cells
      (every colour of a Latin square) are its cells, with coordinates in
      range. */
  lemma AssignmentOccurrences(g: seq<seq<int>>, n: nat, c: int)
    requires IsSquare(g, n) && 1 <= c <= n && |ColourCells(Flatten(g), c)| == n
    ensures Shaped(AssignmentFor(g, n), n)
    ensures ColourInRange(AssignmentFor(g, n), n, c - 1)
    ensures Occurrences(AssignmentFor(g, n), n, c) == ColourCells(Flatten(g), c)
  {
    var asg := AssignmentFor(g, n);
    var f := Flatten(g);
    var cells := ColourCells(f, c);
    var occ := Occurrences(asg, n, c);
    FlattenLength(g, n);
    forall k | 0 <= k < n
      ensures 0 <= asg.rowsOfColor[c - 1][k] <= n - 1 && 0 <= asg.colsOfColor[c - 1][k] <= n - 1
      ensures occ[k] == cells[k]
    {
      SplitIndex(n, cells[k]);
      assert asg.rowsOfColor[c - 1][k] == RowOf(n, cells[k]);
      assert asg.colsOfColor[c - 1][k] == ColOf(n, cells[k]);
      assert occ[k] == OccurrenceIndex(asg, n, c, k);
    }
    assert |occ| == n == |cells|;
  }

  /** Every colour 1..n fills exactly n cells of the square. */
  ghost predicate ColoursFilled(g: seq<seq<int>>, n: nat)
  {
    IsSquare(g, n) && forall c :: 1 <= c <= n ==> |ColourCells(Flatten(g), c)| == n
  }

  lemma LatinColoursFilled(g: seq<seq<int>>, n: nat)
    requires IsLatin(g, n)
    ensures ColoursFilled(g, n)
  {
    forall c | 1 <= c <= n
      ensures |ColourCells(Flatten(g), c)| == n
    {
      ColourCountExactlyN(g, n, c);
    }
  }

  lemma AssignmentInRange(g: seq<seq<int>>, n: nat)
    requires ColoursFilled(g, n)
    ensures Shaped(AssignmentFor(g, n), n) && CoordinatesInRange(AssignmentFor(g, n), n)
  {
    var asg := AssignmentFor(g, n);
    forall c, k | 0 <= c < n && 0 <= k < n
      ensures 0 <= asg.rowsOfColor[c][k] <= n - 1 && 0 <= asg.colsOfColor[c][k] <= n - 1
    {
      AssignmentOccurrences(g, n, c + 1);
    }
  }

  /** In AssignmentFor, the term sum of a pair is its distance sum. */
  lemma AssignmentPairSum(g: seq<seq<int>>, n: nat, a: int, b: int)
    requires ColoursFilled(g, n) && 1 <= a <= n && 1 <= b <= n
    ensures Shaped(AssignmentFor(g, n), n)
    ensures Sum(PairTerms(AssignmentFor(g, n), n, a, b)) == PairDistance(g, n, a, b)
  {
    var asg := AssignmentFor(g, n);
    AssignmentInRange(g, n);
    AssignmentOccurrences(g, n, a);
    AssignmentOccurrences(g, n, b);
    TermsUpToIsCrossTerms(asg, n, a, b, n);
    assert Occurrences(asg, n, a)[..n] == Occurrences(asg, n, a);
  }

  /** In AssignmentFor, the occurrence indices point at cells of their
      colour, in increasing order. */
  lemma AssignmentChanneling(g: seq<seq<int>>, n: nat)
    requires ColoursFilled(g, n)
    ensures Shaped(AssignmentFor(g, n), n)
    ensures Channeling(AssignmentFor(g, n), n) && OccurrencesOrdered(AssignmentFor(g, n), n)
  {
    var asg := AssignmentFor(g, n);
    var f := Flatten(g);
    FlattenLength(g, n);
    AssignmentInRange(g, n);
    forall c, k | 1 <= c <= n && 0 <= k < n
      ensures 0 <= OccurrenceIndex(asg, n, c, k) < n * n
      ensures OccurrenceIndex(asg, n, c, k) < |f| && f[OccurrenceIndex(asg, n, c, k)] == c
      ensures 0 < k ==> OccurrenceIndex(asg, n, c, k - 1) < OccurrenceIndex(asg, n, c, k)
    {
      AssignmentOccurrenceAt(g, n, c, k);
    }
  }

  /** One occurrence of AssignmentFor: its index is a cell of its colour,
      above the index of the previous occurrence. */
  lemma AssignmentOccurrenceAt(g: seq<seq<int>>, n: nat, c: int, k: int)
    requires ColoursFilled(g, n) && 1 <= c <= n && 0 <= k < n
    ensures Shaped(AssignmentFor(g, n), n) && |Flatten(g)| == n * n
    ensures 0 <= OccurrenceIndex(AssignmentFor(g, n), n, c, k) < n * n
    ensures Flatten(g)[OccurrenceIndex(AssignmentFor(g, n), n, c, k)] == c
    ensures 0 < k ==> OccurrenceIndex(AssignmentFor(g, n), n, c, k - 1) < OccurrenceIndex(AssignmentFor(g, n), n, c, k)
  {
    var asg := AssignmentFor(g, n);
    var f := Flatten(g);
    var occ := Occurrences(asg, n, c);
    FlattenLength(g, n);
    AssignmentInRange(g, n);
    AssignmentOccurrences(g, n, c);
    CellsUpToExact(f, c, |f|);
    assert occ[k] == OccurrenceIndex(asg, n, c, k);
    OccurrenceIndexInRange(asg, n, c, k);
    if 0 < k {
      assert occ[k - 1] == OccurrenceIndex(asg, n, c, k - 1);
      assert occ[k - 1] < occ[k];
    }
  }

  /** In AssignmentFor of a balanced square, every pair's terms fit their
      domains and sum to K. */
  lemma AssignmentBalance(g: seq<seq<int>>, n: nat)
    requires ColoursFilled(g, n) && IsBalanced(g, n)
    ensures Shaped(AssignmentFor(g, n), n)
    ensures BalanceConstraint(AssignmentFor(g, n), n)
  {
    var asg := AssignmentFor(g, n);
    AssignmentInRange(g, n);
    forall a, b | 1 <= a < b <= n
      ensures TermsInDomain(asg, n, a, b)
      ensures Sum(PairTerms(asg, n, a, b)) == asg.k
    {
      forall kA, kB | 0 <= kA < n && 0 <= kB < n
        ensures TermInDomain(asg, n, a, b, kA, kB)
      {
        AuxDomainsSuffice(asg, n, a, b, kA, kB);
      }
      AssignmentPairSum(g, n, a, b);
      assert PairDistance(g, n, a, b) == PairDistance(g, n, 1, 2) == asg.k;
    }
  }

  /** Completeness: every Latin square with the posted symmetry breaking
      that the balance test accepts satisfies the encoding, with the
      coordinates and K of AssignmentFor. */
  lemma EncodingComplete(g: seq<seq<int>>, n: nat)
    requires LatinModel(g, n) && IsBalanced(g, n)
    ensures Satisfies(AssignmentFor(g, n), n)
  {
    var asg := AssignmentFor(g, n);
    LatinColoursFilled(g, n);
    AssignmentInRange(g, n);
    AssignmentChanneling(g, n);
    AssignmentBalance(g, n);
    if n >= 2 {
      PairSumWithinMaxDist(asg, n, 1, 2);
      AssignmentPairSum(g, n, 1, 2);
    }
  }

  /** The encoding is exact: a grid belongs to some satisfying assignment
      if and only if it is a Latin square with the posted symmetry breaking
      that the balance test accepts. */
  lemma EncodingExact(g: seq<seq<int>>, n: nat)
    ensures (exists asg :: Satisfies(asg, n) && asg.grid == g) <==> LatinModel(g, n) && IsBalanced(g, n)
  {
    if asg :| Satisfies(asg, n) && asg.grid == g {
      EncodingSound(asg, n);
    }
    if LatinModel(g, n) && IsBalanced(g, n) {
      EncodingComplete(g, n);
      assert Satisfies(AssignmentFor(g, n), n) && AssignmentFor(g, n).grid == g;
    }
  }
}

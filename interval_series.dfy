/** The all-interval series of order N: pitches P[0..N-1] in 0..N-1 and
    intervals I[0..M-1] in 1..M (M = N - 1), both all different, with
    I[k] = |P[k+1] - P[k]| and P[0] = 0.  Two encodings of the interval
    relation are offered, an arithmetic decomposition and a table. */
module IntervalSeries {
  import opened Distance
  import opened Latin
  import opened Stats
  import opened Tuples

  /** The order both interval-series programs solve. */
  const N: nat := 12
  const M: int := N - 1

  /** For the programs' order N = 12 (M = 11) the interval table lists
      the 132 ordered pairs of distinct pitches. */
  lemma ProgramTableSize()
    ensures |Table(N, N, 1, M)| == 132
  {
    IntervalTableFacts(N, Triple(0, 0, 0));
  }

  /** The table propagation algorithm for a consistency level, or None for
      the library's default. */
  function GetAlgorithm(kind: string): (algo: Option<string>)
    ensures kind == "AC_regin" <==> algo == Some("AC_REGIN")
    ensures kind == "AC" <==> algo == Some("CT+")
    ensures kind == "AC_zhang" <==> algo == Some("GAC3rm")
    ensures algo == None <==> kind != "AC_regin" && kind != "AC" && kind != "AC_zhang"
  {
    if kind == "AC_regin" then Some("AC_REGIN")
    else if kind == "AC" then Some("CT+")
    else if kind == "AC_zhang" then Some("GAC3rm")
    else None
  }

  /** Distinct levels that name an algorithm name distinct algorithms. */
  lemma GetAlgorithmInjective(k1: string, k2: string)
    requires GetAlgorithm(k1).Some? && GetAlgorithm(k1) == GetAlgorithm(k2)
    ensures k1 == k2
  {
  }

  /** The variable domains: P over 0..n-1, I over 1..n-1. */
  ghost predicate InDomains(p: seq<int>, i: seq<int>, n: nat)
  {
    && n >= 1 && |p| == n && |i| == n - 1
    && (forall k :: 0 <= k < n ==> 0 <= p[k] <= n - 1)
    && (forall k :: 0 <= k < n - 1 ==> 1 <= i[k] <= n - 1)
  }

  /** The arithmetic decomposition for one step, with M = m: the difference
      variable D = b - a must lie in -m..m and c = |D|. */
  predicate ArithmStep(a: int, b: int, c: int, m: int)
  {
    -m <= b - a <= m && c == Abs(b - a)
  }

  /** The constraints shared by both encodings, and the symmetry break. */
  ghost predicate Common(p: seq<int>, i: seq<int>, n: nat)
  {
    InDomains(p, i, n) && AllDifferent(p) && AllDifferent(i) && p[0] == 0
  }

  /** A solution under the arithmetic option. */
  ghost predicate ArithmModel(p: seq<int>, i: seq<int>, n: nat)
  {
    Common(p, i, n) && forall k :: 0 <= k < n - 1 ==> ArithmStep(p[k], p[k + 1], i[k], n - 1)
  }

  /** A solution under the table option: each (P[k], P[k+1], I[k]) is a
      tuple of the interval table. */
  ghost predicate TableModel(p: seq<int>, i: seq<int>, n: nat)
  {
    Common(p, i, n) && forall k :: 0 <= k < n - 1 ==> Triple(p[k], p[k + 1], i[k]) in Table(n, n, 1, n - 1)
  }

  /** Within the domains, one step of the arithmetic decomposition and the
      table accept the same triples. */
  lemma StepsAgree(n: nat, a: int, b: int, c: int)
    requires 0 <= a < n && 0 <= b < n && 1 <= c <= n - 1
    ensures ArithmStep(a, b, c, n - 1) <==> Triple(a, b, c) in Table(n, n, 1, n - 1)
  {
    IntervalTableFacts(n, Triple(a, b, c));
    ManhattanBound(n, a, 0, b, 0);
  }

  /** The two modelling options have the same solutions. */
  lemma ModelsAgree(p: seq<int>, i: seq<int>, n: nat)
    ensures ArithmModel(p, i, n) <==> TableModel(p, i, n)
  {
    if Common(p, i, n) {
      forall k | 0 <= k < n - 1
        ensures ArithmStep(p[k], p[k + 1], i[k], n - 1) <==> Triple(p[k], p[k + 1], i[k]) in Table(n, n, 1, n - 1)
      {
        StepsAgree(n, p[k], p[k + 1], i[k]);
      }
    }
  }

  /** What a solution of the table option promises: each interval is the
      distance between consecutive pitches (so they differ), P is a
      permutation of 0..n-1 starting at 0, and I one of 1..n-1. */
  lemma TableSolution(p: seq<int>, i: seq<int>, n: nat)
    requires TableModel(p, i, n)
    ensures forall k :: 0 <= k < n - 1 ==> i[k] == Abs(p[k + 1] - p[k]) && p[k] != p[k + 1]
    ensures forall v :: 0 <= v < n ==> v in p
    ensures forall v :: 1 <= v < n ==> v in i
    ensures p[0] == 0
  {
    forall k | 0 <= k < n - 1
      ensures i[k] == Abs(p[k + 1] - p[k]) && p[k] != p[k + 1]
    {
      IntervalTableFacts(n, Triple(p[k], p[k + 1], i[k]));
    }
    AllDifferentCovers(p, 0);
    AllDifferentCovers(i, 1);
  }
}

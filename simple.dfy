/** The generate-and-test baseline: enumerate Latin squares and test each
    for spatial balance after the fact. */
module SBLSSimple {
  import opened Distance
  import opened Balance
  import opened Latin
  import opened Stats
  import opened DistanceSum

  /** Pair (x, y) comes before pair (c1, c2) in the order the test visits
      pairs: c1 ascending, then c2 ascending. */
  predicate PairBefore(x: int, y: int, c1: int, c2: int)
  {
    x < c1 || (x == c1 && y < c2)
  }

  /** Every colour pair visited before (c1, c2) has distance sum k. */
  ghost predicate MatchesBefore(g: seq<seq<int>>, n: nat, k: int, c1: int, c2: int)
    requires IsSquare(g, n)
  {
    forall x, y :: 1 <= x < y <= n && PairBefore(x, y, c1, c2) ==> PairDistance(g, n, x, y) == k
  }

  /** (c1, c2) is the first visited pair whose sum differs from that of the
      pair (1, 2). */
  ghost predicate FirstMismatch(g: seq<seq<int>>, n: nat, c1: int, c2: int)
    requires IsSquare(g, n)
  {
    && 1 <= c1 < c2 <= n
    && PairDistance(g, n, c1, c2) != PairDistance(g, n, 1, 2)
    && MatchesBefore(g, n, PairDistance(g, n, 1, 2), c1, c2)
  }

  /** The loops of the balance test: true exactly when every colour pair
      has the sum of the first pair (1, 2).  They stop at the first pair
      that differs and report that pair (ghost), so no later pair is
      examined. */
  method ScanPairs(g: seq<seq<int>>, n: nat) returns (balanced: bool, ghost bad1: int, ghost bad2: int)
    requires IsSquare(g, n)
    ensures balanced <==> IsBalanced(g, n)
    ensures !balanced ==> FirstMismatch(g, n, bad1, bad2)
  {
    bad1, bad2 := 0, 0;
    var targetK := -1;
    var c1 := 1;
    while c1 <= n
      invariant 1 <= c1 <= n + 1
      invariant targetK == -1 ==> c1 == 1 || n < 2
      invariant targetK != -1 ==> n >= 2 && targetK == PairDistance(g, n, 1, 2)
      invariant MatchesBefore(g, n, targetK, c1, 0)
    {
      var c2 := c1 + 1;
      while c2 <= n
        invariant c1 + 1 <= c2 <= n + 1
        invariant targetK == -1 ==> c1 == 1 && c2 == 2
        invariant targetK != -1 ==> n >= 2 && targetK == PairDistance(g, n, 1, 2)
        invariant MatchesBefore(g, n, targetK, c1, c2)
      {
        var dist := PairDistanceSum(g, n, c1, c2);
        if targetK == -1 {
          PairDistanceNonNegative(g, n, c1, c2);
          targetK := dist;
        } else if dist != targetK {
          bad1, bad2 := c1, c2;
          return false, bad1, bad2;
        }
        c2 := c2 + 1;
      }
      c1 := c1 + 1;
    }
    return true, bad1, bad2;
  }

  /** The balance test as the search calls it: true exactly when the
      grid is spatially balanced. */
  method CheckSpatialBalance(g: seq<seq<int>>, n: nat) returns (balanced: bool)
    requires IsSquare(g, n)
    ensures balanced <==> IsBalanced(g, n)
  {
    ghost var bad1, bad2;
    balanced, bad1, bad2 := ScanPairs(g, n);
  }

  /** Every candidate satisfies the posted Latin model; stated one
      candidate at a time, from the last one back. */
  ghost predicate AllLatinModels(candidates: seq<seq<seq<int>>>, n: nat)
    decreases |candidates|
  {
    |candidates| == 0 ||
    (AllLatinModels(candidates[..|candidates| - 1], n) && LatinModel(candidates[|candidates| - 1], n))
  }

  lemma {:induction false} AllLatinModelsIff(candidates: seq<seq<seq<int>>>, n: nat)
    ensures AllLatinModels(candidates, n) <==> forall i :: 0 <= i < |candidates| ==> LatinModel(candidates[i], n)
    decreases |candidates|
  {
    if |candidates| > 0 {
      var front := candidates[..|candidates| - 1];
      AllLatinModelsIff(front, n);
      assert forall i :: 0 <= i < |front| ==> front[i] == candidates[i];
    }
  }

  lemma AllLatinModelsAt(candidates: seq<seq<seq<int>>>, n: nat, i: int)
    requires AllLatinModels(candidates, n) && 0 <= i < |candidates|
    ensures LatinModel(candidates[i], n) && IsSquare(candidates[i], n)
  {
    AllLatinModelsIff(candidates, n);
  }

  lemma AllLatinModelsSquare(candidates: seq<seq<seq<int>>>, n: nat, i: int)
    requires AllLatinModels(candidates, n) && 0 <= i < |candidates|
    ensures IsSquare(candidates[i], n)
  {
    AllLatinModelsAt(candidates, n, i);
  }

  /** The first m candidates failed the balance test, each before the
      deadline had passed; stated one candidate at a time. */
  ghost predicate RejectedBefore(candidates: seq<seq<seq<int>>>, deadlinePassed: seq<bool>, n: nat, m: nat)
    requires m <= |candidates| && m <= |deadlinePassed|
    decreases m
  {
    m == 0 ||
    (RejectedBefore(candidates, deadlinePassed, n, m - 1)
     && !IsBalanced(candidates[m - 1], n) && !deadlinePassed[m - 1])
  }

  lemma {:induction false} RejectedBeforeAll(candidates: seq<seq<seq<int>>>, deadlinePassed: seq<bool>, n: nat, m: nat)
    requires m <= |candidates| && m <= |deadlinePassed|
    requires RejectedBefore(candidates, deadlinePassed, n, m)
    ensures forall i :: 0 <= i < m ==> !IsBalanced(candidates[i], n) && !deadlinePassed[i]
    decreases m
  {
    if m > 0 {
      RejectedBeforeAll(candidates, deadlinePassed, n, m - 1);
    }
  }

  lemma RejectedBeforeStep(candidates: seq<seq<seq<int>>>, deadlinePassed: seq<bool>, n: nat, m: nat)
    requires m < |candidates| && m < |deadlinePassed|
    requires RejectedBefore(candidates, deadlinePassed, n, m)
    requires !IsBalanced(candidates[m], n) && !deadlinePassed[m]
    ensures RejectedBefore(candidates, deadlinePassed, n, m + 1)
  {
  }

  /** The baseline's search loop.  The solver is an oracle: candidates are
      the complete solutions it returns one after another (each satisfies
      the posted Latin model), and deadlinePassed[i] is the outcome of the
      clock test after the i-th candidate failed the balance test. */
  method SolveSimple(n: nat, candidates: seq<seq<seq<int>>>, deadlinePassed: seq<bool>) returns (stats: RunStats)
    requires |deadlinePassed| == |candidates|
    requires AllLatinModels(candidates, n)
    ensures stats.nodes <= |candidates|
    ensures forall i :: 0 <= i < stats.nodes - 1 ==> !IsBalanced(candidates[i], n) && !deadlinePassed[i]
    ensures stats.solved ==>
      stats.nodes >= 1 && LatinModel(candidates[stats.nodes - 1], n) && IsBalanced(candidates[stats.nodes - 1], n)
    ensures !stats.solved ==>
      && (stats.nodes >= 1 ==> !IsBalanced(candidates[stats.nodes - 1], n))
      && (stats.nodes == |candidates| || (stats.nodes >= 1 && deadlinePassed[stats.nodes - 1]))
  {
    var nodes := 0;
    var found := false;
    while nodes < |candidates|
      invariant 0 <= nodes <= |candidates|
      invariant RejectedBefore(candidates, deadlinePassed, n, nodes)
    {
      var grid := candidates[nodes];
      AllLatinModelsSquare(candidates, n, nodes);
      nodes := nodes + 1;
      var balanced := CheckSpatialBalance(grid, n);
      if balanced {
        found := true;
        break;
      }
      if deadlinePassed[nodes - 1] {
        break;
      }
      RejectedBeforeStep(candidates, deadlinePassed, n, nodes - 1);
    }
    stats := RunStats(nodes, found);
    SimpleOutcome(candidates, deadlinePassed, n, nodes, found);
  }

  /** How the search loop ends: every candidate before the last one tried
      was rejected in time, and the last one either passed the balance test
      or failed it with the deadline passed or the candidates exhausted. */
  lemma SimpleOutcome(candidates: seq<seq<seq<int>>>, deadlinePassed: seq<bool>, n: nat, nodes: nat, found: bool)
    requires |deadlinePassed| == |candidates| && nodes <= |candidates|
    requires AllLatinModels(candidates, n)
    requires nodes >= 1 ==> RejectedBefore(candidates, deadlinePassed, n, nodes - 1)
    requires found ==> nodes >= 1 && IsBalanced(candidates[nodes - 1], n)
    requires !found ==> nodes == |candidates| || (nodes >= 1 && deadlinePassed[nodes - 1])
    requires !found && nodes >= 1 ==> !IsBalanced(candidates[nodes - 1], n)
    ensures forall i :: 0 <= i < nodes - 1 ==> !IsBalanced(candidates[i], n) && !deadlinePassed[i]
    ensures found ==> LatinModel(candidates[nodes - 1], n)
  {
    if nodes > 0 {
      RejectedBeforeAll(candidates, deadlinePassed, n, nodes - 1);
      AllLatinModelsAt(candidates, n, nodes - 1);
    }
  }
}

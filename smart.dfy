/** What the two solver programs do around the constraint model: the
    verification figure printed with a solution and the main loop over
    increasing orders.  The solver itself is an oracle: outcomes[i] is
    whether it found a square of order i + 2 within its time limit. */
module SBLSSmart {
  import opened Balance
  import opened Latin
  import opened Stats
  import opened Encoding
  import opened DistanceSum

  /** The spot check printed after a solution: the distance sum between
      colours 1 and 2, computed only when n > 1. */
  method VerificationSum(g: seq<seq<int>>, n: nat) returns (computed: bool, distSum: int)
    requires IsSquare(g, n)
    ensures computed <==> n > 1
    ensures computed ==> distSum == PairDistance(g, n, 1, 2)
  {
    computed, distSum := false, 0;
    if n > 1 {
      distSum := PairDistanceSum(g, n, 1, 2);
      computed := true;
    }
  }

  /** One solver run for order n.  The oracle's answer is a complete
      assignment of the model's variables, or None when the search failed
      or hit its time limit; nodeCount is the engine's node counter.  On
      success the grid is reported and the verification sum of colours 1
      and 2, printed for n > 1, equals the balance constant K. */
  method SolveSBLS(n: nat, answer: Option<Assignment>, nodeCount: nat)
    returns (stats: RunStats, computed: bool, distSum: int)
    requires answer.Some? ==> Satisfies(answer.value, n)
    ensures stats.nodes == nodeCount
    ensures stats.solved <==> answer.Some?
    ensures stats.solved ==> LatinModel(answer.value.grid, n) && IsBalanced(answer.value.grid, n)
    ensures computed <==> stats.solved && n > 1
    ensures computed ==> distSum == answer.value.k
  {
    computed, distSum := false, 0;
    if answer.Some? {
      var asg := answer.value;
      EncodingSound(asg, n);
      computed, distSum := VerificationSum(asg.grid, n);
    }
    stats := RunStats(nodeCount, answer.Some?);
  }

  /** The main loop: start at order 2, move to the next order after each
      success, stop at the first failure and report n - 1 as the highest
      order found.  attempted lists the orders tried; when the outcomes
      run out before a failure, stopped is false. */
  method SearchOrders(outcomes: seq<bool>) returns (attempted: seq<nat>, stopped: bool, highest: int)
    ensures |attempted| <= |outcomes|
    ensures forall i :: 0 <= i < |attempted| ==> attempted[i] == i + 2
    ensures forall i :: 0 <= i < |attempted| - 1 ==> outcomes[i]
    ensures stopped <==> exists i :: 0 <= i < |outcomes| && !outcomes[i]
    ensures stopped ==>
      && |attempted| >= 1
      && !outcomes[|attempted| - 1]
      && highest == attempted[|attempted| - 1] - 1
      && (forall i :: 0 <= i < highest - 1 ==> outcomes[i])
    ensures !stopped ==> |attempted| == |outcomes|
  {
    var n := 2;
    var solutionFound := true;
    attempted, highest := [], 1;
    while solutionFound && n - 2 < |outcomes|
      invariant 2 <= n <= |outcomes| + 2
      invariant |attempted| == n - 2 + (if solutionFound then 0 else 1)
      invariant forall i :: 0 <= i < |attempted| ==> attempted[i] == i + 2
      invariant forall i :: 0 <= i < n - 2 ==> outcomes[i]
      invariant !solutionFound ==> n - 2 < |outcomes| && !outcomes[n - 2] && highest == n - 1
      decreases |outcomes| - n + (if solutionFound then 1 else 0)
    {
      attempted := attempted + [n];
      solutionFound := outcomes[n - 2];
      if solutionFound {
        n := n + 1;
      } else {
        highest := n - 1;
      }
    }
    stopped := !solutionFound;
  }
}

/** The benchmark driver: for n = 2, 3, ... run the smart method, run the
    simple method only while n < 7, record one row per order, and stop
    after the first order the smart method fails on.  Both methods are
    oracles here: smartRuns[i] and simpleRuns[i] are what they would
    report for order i + 2.  The printed simple status says "SKIP" only
    from order 31 on (SimpleStatus); each row also records the column as
    the skip rule intends it, "SKIP" from order 7 on (IntendedSimpleStatus),
    which is not printed. */
module Benchmark {
  import opened Stats

  /** The text of a status column: "OK", "FAIL" or "SKIP". */
  datatype Status = OK | FAIL | SKIP

  /** One printed row: the order, both runs and both status columns, with
      the simple status the skip rule intends beside the one printed. */
  datatype Row = Row(order: nat, smart: RunStats, smartStatus: Status, simple: RunStats, simpleStatus: Status,
                     intendedSimpleStatus: Status)

  /** The smart status column. */
  function SmartStatus(solved: bool): (s: Status)
    ensures s == OK <==> solved
    ensures s == FAIL <==> !solved
  {
    if solved then OK else FAIL
  }

  /** The simple status column: "SKIP" only from order 31 on, otherwise
      the run's own outcome. */
  function SimpleStatus(n: int, solved: bool): (s: Status)
    ensures s == SKIP <==> n >= 31
    ensures s == OK <==> n < 31 && solved
    ensures s == FAIL <==> n < 31 && !solved
  {
    if n >= 31 then SKIP else if solved then OK else FAIL
  }

  /** The simple method runs only below order 7; above, its stats are the
      placeholder (0 nodes, unsolved). */
  function SimpleRun(n: int, run: RunStats): (r: RunStats)
    ensures n < 7 ==> r == run
    ensures n >= 7 ==> r.nodes == 0 && !r.solved
  {
    if n < 7 then run else RunStats(0, false)
  }

  /** From order 7 to order 30 the simple method is skipped, yet its row
      says "FAIL", not "SKIP". */
  lemma SkippedRunReportsFail(n: int, run: RunStats)
    requires 7 <= n < 31
    ensures SimpleStatus(n, SimpleRun(n, run).solved) == FAIL
  {
  }

  /** The simple status column as the skip rule intends it: "SKIP" exactly
      for the orders the simple method is not run on, otherwise the run's
      own outcome. */
  function IntendedSimpleStatus(n: int, solved: bool): (s: Status)
    ensures s == SKIP <==> n >= 7
    ensures s == OK <==> n < 7 && solved
    ensures s == FAIL <==> n < 7 && !solved
  {
    if n >= 7 then SKIP else if solved then OK else FAIL
  }

  /** The column as printed and the column as intended differ exactly on
      the orders 7..30: there the printed "FAIL" should be "SKIP". On every
      other order they agree, and a skipped run is never reported as a
      failure by the intended column. */
  lemma {:induction false} StatusColumnsAgreeOutsideGap(n: int, run: RunStats)
    ensures SimpleStatus(n, SimpleRun(n, run).solved) == IntendedSimpleStatus(n, SimpleRun(n, run).solved)
      <==> !(7 <= n < 31)
    ensures n >= 7 ==> IntendedSimpleStatus(n, SimpleRun(n, run).solved) != FAIL
  {
    if 7 <= n < 31 {
      SkippedRunReportsFail(n, run);
    }
  }

  /** The row printed for order n: the smart column reports the smart run;
      below order 7 the simple columns report the simple run; from order 7
      on the simple run is the placeholder (0 nodes, unsolved), printed as
      "FAIL" up to order 30 and as "SKIP" from order 31 on, while the
      intended column says "SKIP" from order 7 on. */
  function RowFor(n: nat, smart: RunStats, simple: RunStats): (row: Row)
    ensures row.order == n && row.smart == smart
    ensures row.smartStatus == OK <==> smart.solved
    ensures row.smartStatus == FAIL <==> !smart.solved
    ensures n < 7 ==> row.simple == simple
    ensures n < 7 ==> (row.simpleStatus == OK <==> simple.solved)
    ensures n < 7 ==> (row.simpleStatus == FAIL <==> !simple.solved)
    ensures n < 7 ==> row.intendedSimpleStatus == row.simpleStatus
    ensures n >= 7 ==> row.simple.nodes == 0 && !row.simple.solved && row.intendedSimpleStatus == SKIP
    ensures 7 <= n < 31 ==> row.simpleStatus == FAIL
    ensures n >= 31 ==> row.simpleStatus == SKIP
  {
    var simpleStats := SimpleRun(n, simple);
    Row(n, smart, SmartStatus(smart.solved), simpleStats, SimpleStatus(n, simpleStats.solved),
        IntendedSimpleStatus(n, simpleStats.solved))
  }

  /** The driver loop.  Every attempted order gets a row, the failing one
      included; the loop stops right after the first smart failure (or when
      the oracle runs out). */
  method Run(smartRuns: seq<RunStats>, simpleRuns: seq<RunStats>) returns (rows: seq<Row>)
    requires |simpleRuns| == |smartRuns|
    ensures |rows| <= |smartRuns|
    ensures forall i :: 0 <= i < |rows| ==> rows[i] == RowFor(i + 2, smartRuns[i], simpleRuns[i])
    ensures forall i :: 0 <= i < |rows| - 1 ==> smartRuns[i].solved
    ensures |rows| < |smartRuns| ==> |rows| >= 1 && !smartRuns[|rows| - 1].solved
    ensures |rows| == |smartRuns| && |rows| >= 1 && smartRuns[|rows| - 1].solved ==>
      forall i :: 0 <= i < |smartRuns| ==> smartRuns[i].solved
  {
    var n := 2;
    var smartMethodAlive := true;
    rows := [];
    while smartMethodAlive && n - 2 < |smartRuns|
      invariant 2 <= n <= |smartRuns| + 2
      invariant |rows| == n - 2 + (if smartMethodAlive then 0 else 1)
      invariant |rows| <= |smartRuns|
      invariant forall i :: 0 <= i < |rows| ==> rows[i] == RowFor(i + 2, smartRuns[i], simpleRuns[i])
      invariant forall i :: 0 <= i < n - 2 ==> smartRuns[i].solved
      invariant !smartMethodAlive ==> n - 2 < |smartRuns| && !smartRuns[n - 2].solved
      decreases |smartRuns| - n + (if smartMethodAlive then 1 else 0)
    {
      var smart := smartRuns[n - 2];
      var simple;
      if n < 7 {
        simple := simpleRuns[n - 2];
      } else {
        simple := RunStats(0, false);
      }
      rows := rows + [Row(n, smart, SmartStatus(smart.solved), simple,
                          if n >= 31 then SKIP else if simple.solved then OK else FAIL,
                          if n >= 7 then SKIP else if simple.solved then OK else FAIL)];
      if !smart.solved {
        smartMethodAlive := false;
      } else {
        n := n + 1;
      }
    }
  }
}

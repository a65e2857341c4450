# Spatially balanced Latin squares: a verified model

The repository searches for spatially balanced Latin squares (SBLS) with a
constraint solver. An SBLS of order n is an n-by-n Latin square over the
colours 1..n in which every pair of colours has the same total Manhattan
distance between their cells. A smart method posts an encoding of the
whole problem. A simple method enumerates Latin squares and tests each one
for balance afterwards. A benchmark runs both for growing n. Small
companion programs build tuple tables for the relation z = |y - x|: the
all-interval-series models and a 0..4 table example.

This Dafny project models the logic around the solver and proves it:

- **The balance test** (`SBLSSimple.CheckSpatialBalance`, whose loops are `SBLSSimple.ScanPairs`).
  - It is the source's nested loops, with early exit on the first pair whose
    sum differs.
  - It is proved equal to a functional definition, `Balance.IsBalanced`.
  - That definition is built from the distance sums `Balance.PairDistance`,
    summed over the cells of each colour in row-major order.
- **The printed verification sum** for colours 1 and 2
  (`SBLSSmart.VerificationSum`).
- **The SBLS constraint encoding**, read as a predicate over one concrete
  assignment of the model's variables (`Encoding.Satisfies`). The variables
  are the grid, the row and column of the k-th occurrence of each colour, and
  K.
  - Both directions are proved: every satisfying assignment is a balanced
    Latin square with common sum K, and every balanced Latin square with the
    posted symmetry breaking has a satisfying assignment.
  - The domain bounds are proved too: every |delta| ≤ n − 1, every term
    ≤ 2(n − 1), and every pair sum ≤ 2n³.
- **The driver loops.** These are the generate-and-test loop, the "increase n
  until the first failure" main loops, and the benchmark loop with its status
  columns. The solver is an oracle: a sequence of candidate grids, or of
  outcomes.
- **The tuple-table loops.**
  - Their exact contents, order and size are proved.
  - So is the `getAlgorithm` mapping.
  - So is the equivalence between the arithmetic and the table formulation of
    the all-interval series.

Cells are handled through their row-major flat index r·n + c, which is the
solver's `flatGrid`. The list of cells holding a colour is
`Balance.ColourCells`, the strictly increasing list of flat indices that hold
it. The row and column of a flat index i are `Balance.RowOf` and
`Balance.ColOf`, i div n and i mod n, written as repeated subtraction of n.

The benchmark's status columns are the datatype `Benchmark.Status`, whose
constructors `OK`, `FAIL` and `SKIP` stand for the strings printed.

## Model

| member | source | states |
|---|---|---|
| `Balance.PairDistance` | SBLS/examples/src/main/java/org/chocosolver/examples/SBLS/SBLS_Simple.java:51-64 | The distance sum of colours a and b: the Manhattan distance of every cell holding a to every cell holding b, added up with the cells of a in row-major order, each against the cells of b in row-major order |
| `Balance.IsBalanced` | SBLS/examples/src/main/java/org/chocosolver/examples/SBLS/SBLS_Simple.java:47-70 | A square grid is balanced when every colour pair 1 ≤ c1 < c2 ≤ n has the distance sum of pair (1, 2); with fewer than two colours nothing is compared |
| `Latin.IsLatin` | SBLS/examples/src/main/java/org/chocosolver/examples/SBLS/SBLS_Simple.java:13-19 | The grid is n by n with values in 1..n, and every row and every column is all-different |
| `Latin.LatinModel` | SBLS/examples/src/main/java/org/chocosolver/examples/SBLS/SBLS_Simple.java:13-23 | The Latin constraints plus the symmetry breaking: first row 1..n, and grid[0][1] < grid[1][0] only when n > 2 |
| `Encoding.Satisfies` | SBLS/examples/src/main/java/org/chocosolver/examples/SBLS/SBLS_Smart.java:51-116 | An assignment meets every posted constraint: the declared shapes and domains (coordinates 0..n-1, K in 0..2n³), the Latin constraints, channeling of each occurrence index into flatGrid, strictly increasing occurrence indices, for every pair a < b the n² terms within their domains and summing to K, and the symmetry breaking |
| `Tuples.Table` | SBLS/examples/src/main/java/org/chocosolver/examples/NewIntervalSeries.java:49-58 | The tuples (a, b, abs(b-a)) for a and b in 0..size-1, a major and b minor, kept when the distance lies in the filter lo..hi |
| `IntervalSeries.ArithmModel` | SBLS/examples/src/main/java/org/chocosolver/examples/NewIntervalSeries.java:26-75 | The arithmetic option: P in 0..N-1 and I in 1..N-1, both all-different, P[0] = 0, and for each k a difference D = P[k+1] - P[k] in -M..M with I[k] = abs(D) |
| `IntervalSeries.TableModel` | SBLS/examples/src/main/java/org/chocosolver/examples/NewIntervalSeries.java:26-75 | The table option: the same domains, all-different constraints and P[0] = 0, and each (P[k], P[k+1], I[k]) a tuple of the interval table |
| `Distance.Manhattan` | SBLS/examples/src/main/java/org/chocosolver/examples/SBLS/SBLS_Simple.java:58 | One distance term is a natural number at least as large as each of its row and column differences |
| `Distance.ManhattanSymmetric` | SBLS/examples/src/main/java/org/chocosolver/examples/SBLS/SBLS_Simple.java:58 | A term does not depend on which of the two cells is named first |
| `Distance.ManhattanZeroIff` | SBLS/examples/src/main/java/org/chocosolver/examples/SBLS/SBLS_Simple.java:58 | A term is zero exactly for a cell and itself |
| `Distance.ManhattanBound` | SBLS/examples/src/main/java/org/chocosolver/examples/SBLS/SBLS_Smart.java:94-106 | With coordinates in 0..n-1 each difference is at most n-1 and each term at most 2(n-1) |
| `Balance.SplitFlat` | SBLS/examples/src/main/java/org/chocosolver/examples/SBLS/SBLS_Smart.java:77 | The flat index r·n + c of cell (r, c) lies in row r and column c |
| `Balance.FlatSplits` | SBLS/examples/src/main/java/org/chocosolver/examples/SBLS/SBLS_Smart.java:77 | Every flat index i ≥ 0 is row·n + column, with the column in 0..n-1 |
| `Balance.CellTermAt` | SBLS/examples/src/main/java/org/chocosolver/examples/SBLS/SBLS_Simple.java:58 | The term between two flat indices is the Manhattan distance between their cells |
| `Balance.FlattenAt` | SBLS/examples/src/main/java/org/chocosolver/examples/SBLS/SBLS_Smart.java:53 | The flattened grid has n·n entries and index r·n+c holds cell (r, c) |
| `Balance.CellsUpToExact` | SBLS/examples/src/main/java/org/chocosolver/examples/SBLS/SBLS_Simple.java:52-57 | The cell list of a colour is strictly increasing and contains an index exactly when that cell holds the colour |
| `Balance.EnumeratesCells` | SBLS/examples/src/main/java/org/chocosolver/examples/SBLS/SBLS_Smart.java:79-82 | A strictly increasing list of cells of one colour that is at least as long as the colour's cell list is that list |
| `Balance.SumBounds` | SBLS/examples/src/main/java/org/chocosolver/examples/SBLS/SBLS_Smart.java:110 | A sum of terms in 0..b lies in 0..length·b |
| `Balance.PairDistanceNonNegative` | SBLS/examples/src/main/java/org/chocosolver/examples/SBLS/SBLS_Simple.java:48-65 | Every pair's distance sum is at least 0, so it never equals the -1 sentinel |
| `Balance.SmallOrdersBalanced` | SBLS/examples/src/main/java/org/chocosolver/examples/SBLS/SBLS_Simple.java:49-69 | For n ≤ 2 there is at most one pair and every square grid is balanced |
| `Balance.BalancedWithIff` | SBLS/examples/src/main/java/org/chocosolver/examples/SBLS/SBLS_Smart.java:87-111 | All pairs share a sum K exactly when the grid is balanced and K is the sum of pair (1, 2) |
| `DistanceSum.DistanceFromCell` | SBLS/examples/src/main/java/org/chocosolver/examples/SBLS/SBLS_Simple.java:55-61 | The inner double loop adds the distances from one cell to every cell of the second colour |
| `DistanceSum.AddRowDistances` | SBLS/examples/src/main/java/org/chocosolver/examples/SBLS/SBLS_Simple.java:56-60 | The innermost loop adds to the running sum the distance to cell (rA, cA) of each cell of row rB that holds the second colour (`RowContribution`) |
| `DistanceSum.RowContributionIsDistUpTo` | SBLS/examples/src/main/java/org/chocosolver/examples/SBLS/SBLS_Simple.java:55-61 | Row rB's contribution is exactly what its n cells add to the cell-by-cell running sum over the flattened grid (`DistUpTo`) |
| `DistanceSum.DistUpToIsRowTerms` | SBLS/examples/src/main/java/org/chocosolver/examples/SBLS/SBLS_Simple.java:55-61 | Adding up cell by cell over the first k flat cells gives the specification's sum of distances to the cells of the second colour among them |
| `DistanceSum.PairDistanceSum` | SBLS/examples/src/main/java/org/chocosolver/examples/SBLS/SBLS_Simple.java:51-64 | The four nested loops compute the distance sum of colours c1 and c2 |
| `SBLSSimple.ScanPairs` | SBLS/examples/src/main/java/org/chocosolver/examples/SBLS/SBLS_Simple.java:47-70 | Returns true iff every pair c1 < c2 has the sum of pair (1, 2); on false, the pair it stopped at is the first pair in visiting order that differs |
| `SBLSSimple.CheckSpatialBalance` | SBLS/examples/src/main/java/org/chocosolver/examples/SBLS/SBLS_Simple.java:47-70 | Returns true iff the grid is spatially balanced: every colour pair has the same distance sum |
| `SBLSSimple.SolveSimple` | SBLS/examples/src/main/java/org/chocosolver/examples/SBLS/SBLS_Simple.java:28-44 | nodes counts the candidates tested, the accepting one included. found means the last one was balanced, and it satisfies the posted Latin model. Every earlier candidate was unbalanced and came before the deadline. An unsuccessful run ended on an exhausted stream or a passed deadline |
| `SBLSSimple.AllLatinModelsIff` | SBLS/examples/src/main/java/org/chocosolver/examples/SBLS/SBLS_Simple.java:12-23 | The candidate-by-candidate statement that the stream satisfies the posted model holds iff every candidate satisfies it |
| `SBLSSimple.SimpleOutcome` | SBLS/examples/src/main/java/org/chocosolver/examples/SBLS/SBLS_Simple.java:32-44 | When the search stops, every candidate before the last one tried was unbalanced and came before the deadline, and an accepted last candidate satisfies the posted Latin model |
| `SBLSSimple.RejectedBeforeAll` | SBLS/examples/src/main/java/org/chocosolver/examples/SBLS/SBLS_Simple.java:32-41 | Candidates rejected one at a time, each before the deadline, are all unbalanced and all came before the deadline |
| `Latin.LatinLinesCover` | SBLS/examples/src/main/java/org/chocosolver/examples/SBLS/SBLS_Simple.java:13-19 | In a square meeting the posted row and column all-different constraints over 1..n, every row and every column holds each colour 1..n |
| `Latin.CountPrefix` | SBLS/examples/src/main/java/org/chocosolver/examples/SBLS/SBLS_Smart.java:67 | After r full rows and c cells of row r, a value occurs at most r times plus one if it is among those c cells, and exactly that often when it is a colour 1..n |
| `Latin.ColourCountAtMostN` | SBLS/examples/src/main/java/org/chocosolver/examples/SBLS/SBLS_Smart.java:67-72 | In a Latin square no value occupies more than n cells |
| `Latin.ColourCountExactlyN` | SBLS/examples/src/main/java/org/chocosolver/examples/SBLS/SBLS.java:73-85 | In a Latin square each colour 1..n occupies exactly n cells |
| `Latin.AllDifferentCovers` | SBLS/examples/src/main/java/org/chocosolver/examples/all_interval_series/AllIntervalSeries.java:20-24 | n distinct values from a range of n values take every value of the range |
| `Encoding.BuildDistances` | SBLS/examples/src/main/java/org/chocosolver/examples/SBLS/SBLS_Smart.java:89-109 | The idx-counter loop fills an n·n array with the pair's distance terms, kA major, kB minor |
| `Encoding.FillRow` | SBLS/examples/src/main/java/org/chocosolver/examples/SBLS/SBLS_Smart.java:92-108 | The kB loop writes row kA's n distance terms at indices kA·n .. kA·n + n - 1, leaves the entries before and after them unchanged, and advances idx by n |
| `Encoding.AuxDomainsSuffice` | SBLS/examples/src/main/java/org/chocosolver/examples/SBLS/SBLS_Smart.java:94-106 | The rDiff, cDiff (0..n) and term (0..2n) domains never exclude a value the coordinates produce |
| `Encoding.PairSumWithinMaxDist` | SBLS/examples/src/main/java/org/chocosolver/examples/SBLS/SBLS_Smart.java:54-55 | Each pair has n² terms whose sum lies in 0..2n³, the domain of K |
| `Encoding.TermSumBound` | SBLS/examples/src/main/java/org/chocosolver/examples/SBLS/SBLS_Smart.java:105-110 | n² terms, each in 0..2n, sum to a value in 0..2n³ |
| `Encoding.OccurrenceIndexInRange` | SBLS/examples/src/main/java/org/chocosolver/examples/SBLS/SBLS_Smart.java:59-62 | With coordinates in 0..n-1 every flat occurrence index lies in 0..n²-1 |
| `Encoding.OccurrencesAreColourCells` | SBLS/examples/src/main/java/org/chocosolver/examples/SBLS/SBLS_Smart.java:75-84 | In a satisfying assignment the n channelled, increasing occurrences of a colour are exactly its cells, and there are n of them |
| `Encoding.OccurrenceSplit` | SBLS/examples/src/main/java/org/chocosolver/examples/SBLS/SBLS_Smart.java:77 | The index of an occurrence lies in the occurrence's row and column |
| `Encoding.OccurrenceCellTerm` | SBLS/examples/src/main/java/org/chocosolver/examples/SBLS/SBLS_Smart.java:95-106 | A distance term is the distance between the two occurrence cells |
| `Encoding.TermRowIsRowTerms` | SBLS/examples/src/main/java/org/chocosolver/examples/SBLS/SBLS.java:125-144 | One row of the encoding's distance terms equals the balance test's distances from one cell |
| `Encoding.TermsUpToIsCrossTerms` | SBLS/examples/src/main/java/org/chocosolver/examples/SBLS/SBLS.java:121-145 | The encoding's distance terms equal the balance test's terms for the occurrence lists |
| `Encoding.PairTermsAreGridTerms` | SBLS/examples/src/main/java/org/chocosolver/examples/SBLS/SBLS_Smart.java:87-111 | In a satisfying assignment each pair's terms are the balance test's terms, so their sum is the pair's distance sum |
| `Encoding.EncodingSound` | SBLS/examples/src/main/java/org/chocosolver/examples/SBLS/SBLS_Smart.java:51-116 | A satisfying assignment is a Latin square with the symmetry breaking, every pair has sum K, the balance test's predicate holds, and K is the sum of pair (1, 2) |
| `Encoding.AssignmentFor` | SBLS/examples/src/main/java/org/chocosolver/examples/SBLS/SBLS.java:56-67 | The occurrence coordinates read off a grid form n-by-n arrays exactly when the grid is square |
| `Encoding.SplitIndex` | SBLS/examples/src/main/java/org/chocosolver/examples/SBLS/SBLS.java:97-98 | A flat index below n² is row·n + column with row and column in 0..n-1 |
| `Encoding.LatinColoursFilled` | SBLS/examples/src/main/java/org/chocosolver/examples/SBLS/SBLS_Smart.java:66-72 | In a Latin square every colour 1..n fills exactly n cells |
| `Encoding.AssignmentOccurrences` | SBLS/examples/src/main/java/org/chocosolver/examples/SBLS/SBLS_Smart.java:59-62 | In the assignment read off a grid, the occurrences of a colour with n cells are its cells, with coordinates in 0..n-1 |
| `Encoding.AssignmentInRange` | SBLS/examples/src/main/java/org/chocosolver/examples/SBLS/SBLS_Smart.java:59-64 | The assignment read off a Latin-filled grid keeps every coordinate in its domain 0..n-1 |
| `Encoding.AssignmentChanneling` | SBLS/examples/src/main/java/org/chocosolver/examples/SBLS/SBLS_Smart.java:75-84 | In that assignment each occurrence index points at a cell of its colour, and the indices of a colour increase |
| `Encoding.AssignmentPairSum` | SBLS/examples/src/main/java/org/chocosolver/examples/SBLS/SBLS_Smart.java:87-110 | In that assignment each pair's term sum is the pair's distance sum |
| `Encoding.AssignmentBalance` | SBLS/examples/src/main/java/org/chocosolver/examples/SBLS/SBLS_Smart.java:87-111 | For a balanced grid that assignment fits every auxiliary domain and gives every pair the sum K |
| `Encoding.EncodingComplete` | SBLS/examples/src/main/java/org/chocosolver/examples/SBLS/SBLS.java:46-163 | Every balanced Latin square with the symmetry breaking satisfies every posted constraint with the coordinates of its cells and K = sum of pair (1, 2) |
| `Encoding.EncodingExact` | SBLS/examples/src/main/java/org/chocosolver/examples/SBLS/SBLS.java:39-163 | A grid belongs to a satisfying assignment iff it is a balanced Latin square with the symmetry breaking |
| `SBLSSmart.VerificationSum` | SBLS/examples/src/main/java/org/chocosolver/examples/SBLS/SBLS_Smart.java:153-170 | Computed only when n > 1, and then equal to the distance sum of colours 1 and 2 |
| `SBLSSmart.SolveSBLS` | SBLS/examples/src/main/java/org/chocosolver/examples/SBLS/SBLS_Smart.java:130-141 | solved iff the oracle returned an assignment. The reported grid is then a balanced Latin square, and the verification sum printed for n > 1 equals K |
| `SBLSSmart.SearchOrders` | SBLS/examples/src/main/java/org/chocosolver/examples/SBLS/SBLS_Smart.java:23-46 | Orders are tried from 2 upward and every order before the last succeeded. It stops iff some order fails. Then the last order tried failed, highest = that order - 1, and all orders 2..highest succeeded |
| `Benchmark.SmartStatus` | SBLS/examples/src/main/java/org/chocosolver/examples/SBLS/Benchmark.java:32 | "OK" iff solved, "FAIL" iff not |
| `Benchmark.SimpleStatus` | SBLS/examples/src/main/java/org/chocosolver/examples/SBLS/Benchmark.java:33 | "SKIP" iff n ≥ 31. Otherwise "OK" iff solved and "FAIL" iff not |
| `Benchmark.SimpleRun` | SBLS/examples/src/main/java/org/chocosolver/examples/SBLS/Benchmark.java:22-27 | Below order 7 the simple run's stats; from 7 on 0 nodes and unsolved |
| `Benchmark.SkippedRunReportsFail` | SBLS/examples/src/main/java/org/chocosolver/examples/SBLS/Benchmark.java:22-33 | For 7 ≤ n < 31 the skipped simple run is reported as "FAIL" |
| `Benchmark.IntendedSimpleStatus` | SBLS/examples/src/main/java/org/chocosolver/examples/SBLS/Benchmark.java:22-33 | SKIP exactly from order 7 on, where the simple method is not run. Below 7, OK exactly when solved and FAIL exactly when not |
| `Benchmark.StatusColumnsAgreeOutsideGap` | SBLS/examples/src/main/java/org/chocosolver/examples/SBLS/Benchmark.java:22-33 | The printed column and the intended column agree exactly outside orders 7..30. From order 7 on the intended column never says FAIL |
| `Benchmark.RowFor` | SBLS/examples/src/main/java/org/chocosolver/examples/SBLS/Benchmark.java:22-34 | The smart status is OK exactly when the smart run solved and FAIL otherwise. Below order 7 the simple columns report the simple run, OK exactly when it solved. From order 7 on they report 0 nodes and unsolved, with the printed status FAIL for orders 7..30 and SKIP from 31 on. The row also records the intended status, SKIP from order 7 on (see Findings) |
| `Benchmark.Run` | SBLS/examples/src/main/java/org/chocosolver/examples/SBLS/Benchmark.java:12-42 | Row i is the row of order i + 2, with the columns as printed, and every order attempted gets a row, the failing one included. Every order but the last succeeded. The loop ends at the first smart failure or when the runs run out |
| `Tuples.BuildIntervalTable` | SBLS/examples/src/main/java/org/chocosolver/examples/NewIntervalSeries.java:49-58 | The double loop builds exactly the table (a, b, abs(b-a)) with 1 ≤ abs(b-a) ≤ M, a major, b minor (the same loop as AllIntervalSeries.java lines 31-40) |
| `Tuples.TableMembership` | SBLS/examples/src/main/java/org/chocosolver/examples/all_interval_series/AllIntervalSeries.java:33-39 | A tuple is in the table iff a, b lie in 0..N-1, its third component is abs(b-a) and that distance passes the filter |
| `Tuples.TableOrdered` | SBLS/examples/src/main/java/org/chocosolver/examples/NewIntervalSeries.java:51-57 | Tuples appear in strictly increasing (a, b) order, so no pair appears twice |
| `Tuples.TableLength` | SBLS/examples/src/main/java/org/chocosolver/examples/all_interval_series/AllIntervalSeries.java:33-40 | With the filter's upper end at least N-1 the table has N·(N-1) tuples when the lower end is 1 and N·N when it is at most 0 |
| `Tuples.IntervalTableFacts` | SBLS/examples/src/main/java/org/chocosolver/examples/NewIntervalSeries.java:13-14 | With M = N-1: N·(N-1) tuples, exactly the pairs a ≠ b with their distance, every distance in 1..M, a-major order |
| `Tuples.BuildAbsTable` | SBLS/examples/src/main/java/org/chocosolver/examples/ConstraintInteger.java:24-31 | The unfiltered double loop over 0..AbsMax, AbsMax = 4, builds exactly the table (x, y, abs(x-y)) |
| `Tuples.AbsTableFacts` | SBLS/examples/src/main/java/org/chocosolver/examples/ConstraintInteger.java:16-31 | The table has 25 tuples and contains a triple iff x, y lie in 0..4 and z = abs(x-y). Every z lies in z's domain 0..4. The diagonal is included with z = 0, in (x, y) order |
| `Tuples.OrderedIsFunctional` | SBLS/examples/src/main/java/org/chocosolver/examples/ConstraintInteger.java:26-30 | In an ordered table each (x, y) determines one position and one z |
| `IntervalSeries.ProgramTableSize` | SBLS/examples/src/main/java/org/chocosolver/examples/NewIntervalSeries.java:13-14 | For N = 12 the interval table holds 132 tuples |
| `IntervalSeries.GetAlgorithm` | SBLS/examples/src/main/java/org/chocosolver/examples/NewIntervalSeries.java:132-144 | "AC_regin" maps to AC_REGIN, "AC" to CT+ and "AC_zhang" to GAC3rm. Each holds in both directions, and every other string maps to None |
| `IntervalSeries.GetAlgorithmInjective` | SBLS/examples/src/main/java/org/chocosolver/examples/NewIntervalSeries.java:134-142 | Two levels that give the same algorithm are the same level |
| `IntervalSeries.StepsAgree` | SBLS/examples/src/main/java/org/chocosolver/examples/NewIntervalSeries.java:39-58 | Within the domains, D = b - a in -M..M with c = abs(D) holds iff (a, b, c) is a table tuple |
| `IntervalSeries.ModelsAgree` | SBLS/examples/src/main/java/org/chocosolver/examples/NewIntervalSeries.java:26-75 | The arithmetic option and the table option have the same solutions |
| `IntervalSeries.TableSolution` | SBLS/examples/src/main/java/org/chocosolver/examples/all_interval_series/AllIntervalSeries.java:20-51 | A solution has I[k] = abs(P[k+1]-P[k]) with distinct neighbours, P a permutation of 0..N-1 with P[0] = 0, and I a permutation of 1..N-1 |

## Findings

| source | as written | input that shows it | evidently intended | confidence | as-written member | corrected member |
|---|---|---|---|---|---|---|
| SBLS/examples/src/main/java/org/chocosolver/examples/SBLS/Benchmark.java:33 | The simple status prints "SKIP" only when n ≥ 31 and otherwise OK or FAIL from the run, although lines 22-27 stop running the simple method from n = 7 on and substitute an unsolved placeholder | n = 7: the simple method is not run, and the row prints "FAIL" | "SKIP" exactly for the orders the simple method is skipped on, n ≥ 7 | not executed | `Benchmark.SimpleStatus`, `Benchmark.SkippedRunReportsFail` | `Benchmark.IntendedSimpleStatus`, `Benchmark.StatusColumnsAgreeOutsideGap` |

## Left out

- The constraint solver itself is not modelled: propagation (`allDifferent`, `element`, `absolute`, `sum`, `table`) and search strategies. Each `solve()` call is an oracle parameter: a candidate grid sequence, an optional assignment, or an outcome sequence. The candidates handed to `SBLSSimple.SolveSimple` are assumed to satisfy the posted Latin model, because propagation guarantees that.
- The search-strategy `switch` statements and `setSearch` calls are not modelled: they only choose among solver objects.
- The expected result of a search strategy is not modelled.
- Clocks are not modelled: `System.nanoTime`, the 10-second cutoff and `limitTime("5m")`. The cutoff is a per-candidate boolean "deadline passed", and the time limit is part of the oracle's answer.
- Elapsed times, floating-point values, are not modelled: run statistics carry only the node count and the solved flag.
- The node count of the smart method is the engine's counter. It is an input of `SBLSSmart.SolveSBLS`.
- All console output is not modelled: headers, grid printing and `printf` formatting. Only the values printed are modelled, such as the verification sum and the highest order.
- Java `int` and `long` overflow is not modelled, for example 2·n³ or `distSum` for very large n. Integers are unbounded.
- The loops that create the solver variables (rowsOfColor, colsOfColor, K, the grid) are not modelled as loops. They appear as the shape and domain predicates `Encoding.Shaped` and `Encoding.CoordinateDomains`.
- The intermediate solver variables (index, rDelta, cDelta, rDiff, cDiff) appear as the functions `Encoding.OccurrenceIndex` and `Encoding.DistanceTerm`.
- The table algorithm that `getAlgorithm` selects changes only how the solver propagates, not which tuples are allowed. So `IntervalSeries.TableModel` does not depend on it.
- `SBLSSmart.SolveSBLS` also stands for the variant in SBLS.java that returns only a boolean. That variant's result is `stats.solved`.
- `SBLSSmart.SearchOrders` models both main loops, SBLS.java lines 11-34 and SBLS_Smart.java lines 23-46. The source loops for as long as the solver keeps succeeding. The model's outcome sequence is finite, and `stopped` is false when it runs out.
- `Benchmark.Run`: the simple method's results are inputs, one per order, and are consulted only below order 7. The model does not connect them to `SBLSSimple.SolveSimple`.
- ConstraintInteger.java's loop that enumerates every solution of the table is a solver run and is not modelled. Its table is modelled in `Tuples.BuildAbsTable`.
- The printing of the pitch and interval series is not modelled.

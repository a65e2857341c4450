/** The tuple tables posted as extensional constraints for the relation
    z = |y - x|: the interval table of the all-interval-series programs
    (pairs with 1 <= d <= M) and the full table over 0..4. */
module Tuples {
  import opened Distance

  /** The upper end of the domains 0..4 of x, y and z in the full table. */
  const AbsMax: nat := 4

  /** One allowed tuple (x, y, z). */
  datatype Triple = Triple(x: int, y: int, z: int)

  /** The tuples (a, b, |b - a|) for b = 0 .. cols - 1, in that order,
      keeping those whose third component lies in lo..hi. */
  function TableRow(a: int, cols: nat, lo: int, hi: int): seq<Triple>
  {
    if cols == 0 then []
    else
      var b := cols - 1;
      TableRow(a, b, lo, hi) + (if lo <= Abs(b - a) <= hi then [Triple(a, b, Abs(b - a))] else [])
  }

  /** The rows a = 0 .. rows - 1, each over b = 0 .. size - 1. */
  function Table(size: nat, rows: nat, lo: int, hi: int): seq<Triple>
  {
    if rows == 0 then [] else Table(size, rows - 1, lo, hi) + TableRow(rows - 1, size, lo, hi)
  }

  /** Tuple s is visited before tuple t: first component ascending, then second. */
  predicate Before(s: Triple, t: Triple)
  {
    s.x < t.x || (s.x == t.x && s.y < t.y)
  }

  /** The tuples appear in strictly increasing (x, y) order, so no pair
      (x, y) occurs twice. */
  ghost predicate Ordered(ts: seq<Triple>)
  {
    forall i, j :: 0 <= i < j < |ts| ==> Before(ts[i], ts[j])
  }

  /** The interval-table loop: a and b range over 0..n-1, and (a, b, d)
      with d = |b - a| is added when 1 <= d <= m. */
  method BuildIntervalTable(n: nat, m: int) returns (t: seq<Triple>)
    ensures t == Table(n, n, 1, m)
  {
    t := [];
    var a := 0;
    while a < n
      invariant 0 <= a <= n
      invariant t == Table(n, a, 1, m)
    {
      var b := 0;
      while b < n
        invariant 0 <= b <= n
        invariant t == Table(n, a, 1, m) + TableRow(a, b, 1, m)
      {
        var d := Abs(b - a);
        if d >= 1 && d <= m {
          t := t + [Triple(a, b, d)];
        }
        b := b + 1;
      }
      a := a + 1;
    }
  }

  /** The full-table loop: every (xv, yv) in 0..4 x 0..4 gets the tuple
      (xv, yv, |xv - yv|), with no filter. */
  method BuildAbsTable() returns (t: seq<Triple>)
    ensures t == Table(AbsMax + 1, AbsMax + 1, 0, AbsMax)
  {
    t := [];
    var xv := 0;
    while xv <= AbsMax
      invariant 0 <= xv <= AbsMax + 1
      invariant t == Table(AbsMax + 1, xv, 0, AbsMax)
    {
      var yv := 0;
      while yv <= AbsMax
        invariant 0 <= yv <= AbsMax + 1
        invariant t == Table(AbsMax + 1, xv, 0, AbsMax) + TableRow(xv, yv, 0, AbsMax)
      {
        var zv := Abs(xv - yv);
        ManhattanBound(AbsMax + 1, xv, 0, yv, 0);
        assert TableRow(xv, yv + 1, 0, AbsMax) == TableRow(xv, yv, 0, AbsMax) + [Triple(xv, yv, zv)];
        t := t + [Triple(xv, yv, zv)];
        yv := yv + 1;
      }
      assert Table(AbsMax + 1, xv + 1, 0, AbsMax) == Table(AbsMax + 1, xv, 0, AbsMax) + TableRow(xv, AbsMax + 1, 0, AbsMax);
      xv := xv + 1;
    }
  }

  lemma {:induction false} RowMembership(a: int, cols: nat, lo: int, hi: int, t: Triple)
    ensures t in TableRow(a, cols, lo, hi) <==>
      t.x == a && 0 <= t.y < cols && t.z == Abs(t.y - a) && lo <= t.z <= hi
  {
    if cols > 0 {
      RowMembership(a, cols - 1, lo, hi, t);
    }
  }

  /** A tuple is in the table exactly when its pair lies in the grid, its
      third component is the distance and that distance passes the filter. */
  lemma {:induction false} TableMembership(size: nat, rows: nat, lo: int, hi: int, t: Triple)
    ensures t in Table(size, rows, lo, hi) <==>
      0 <= t.x < rows && 0 <= t.y < size && t.z == Abs(t.y - t.x) && lo <= t.z <= hi
  {
    if rows > 0 {
      var prefix, row := Table(size, rows - 1, lo, hi), TableRow(rows - 1, size, lo, hi);
      TableMembership(size, rows - 1, lo, hi, t);
      RowMembership(rows - 1, size, lo, hi, t);
      assert Table(size, rows, lo, hi) == prefix + row;
      assert t in prefix + row <==> t in prefix || t in row;
    }
  }

  lemma OrderedConcat(s: seq<Triple>, r: seq<Triple>)
    requires Ordered(s) && Ordered(r)
    requires forall i, j :: 0 <= i < |s| && 0 <= j < |r| ==> Before(s[i], r[j])
    ensures Ordered(s + r)
  {
    forall i, j | 0 <= i < j < |s + r|
      ensures Before((s + r)[i], (s + r)[j])
    {
      if j < |s| {
      } else if i < |s| {
        assert (s + r)[j] == r[j - |s|];
      } else {
        assert (s + r)[i] == r[i - |s|] && (s + r)[j] == r[j - |s|];
      }
    }
  }

  lemma {:induction false} RowOrdered(a: int, cols: nat, lo: int, hi: int)
    ensures Ordered(TableRow(a, cols, lo, hi))
  {
    if cols > 0 {
      var b := cols - 1;
      var prefix := TableRow(a, b, lo, hi);
      var last := if lo <= Abs(b - a) <= hi then [Triple(a, b, Abs(b - a))] else [];
      RowOrdered(a, b, lo, hi);
      forall i, j | 0 <= i < |prefix| && 0 <= j < |last|
        ensures Before(prefix[i], last[j])
      {
        RowMembership(a, b, lo, hi, prefix[i]);
      }
      OrderedConcat(prefix, last);
    }
  }

  /** The table lists its tuples in a-major, b-minor order. */
  lemma {:induction false} TableOrdered(size: nat, rows: nat, lo: int, hi: int)
    ensures Ordered(Table(size, rows, lo, hi))
  {
    if rows > 0 {
      var prefix := Table(size, rows - 1, lo, hi);
      var row := TableRow(rows - 1, size, lo, hi);
      TableOrdered(size, rows - 1, lo, hi);
      RowOrdered(rows - 1, size, lo, hi);
      forall i, j | 0 <= i < |prefix| && 0 <= j < |row|
        ensures Before(prefix[i], row[j])
      {
        TableMembership(size, rows - 1, lo, hi, prefix[i]);
        RowMembership(rows - 1, size, lo, hi, row[j]);
      }
      OrderedConcat(prefix, row);
    }
  }

  /** Inside the grid every distance is at most size - 1, so with
      hi >= size - 1 the filter drops only the diagonal pair when lo = 1,
      and nothing when lo <= 0. */
  lemma {:induction false} RowLength(a: int, cols: nat, size: nat, lo: int, hi: int)
    requires 0 <= a < size && cols <= size
    requires lo <= 1 && hi >= size - 1
    ensures |TableRow(a, cols, lo, hi)| == cols - (if lo == 1 && a < cols then 1 else 0)
  {
    if cols > 0 {
      RowLength(a, cols - 1, size, lo, hi);
      ManhattanBound(size, a, 0, cols - 1, 0);
    }
  }

  lemma {:induction false} TableLength(size: nat, rows: nat, lo: int, hi: int)
    requires rows <= size && lo <= 1 && hi >= size - 1
    ensures |Table(size, rows, lo, hi)| == rows * (if lo == 1 then size - 1 else size)
  {
    if rows > 0 {
      var k := if lo == 1 then size - 1 else size;
      TableLength(size, rows - 1, lo, hi);
      RowLength(rows - 1, size, size, lo, hi);
      assert (rows - 1) * k + k == rows * k;
    }
  }

  /** The interval table for order n with m = n - 1: exactly the n(n - 1)
      ordered pairs a != b, each with its distance, in a-major order. */
  lemma IntervalTableFacts(n: nat, t: Triple)
    ensures |Table(n, n, 1, n - 1)| == n * (n - 1)
    ensures t in Table(n, n, 1, n - 1) <==>
      0 <= t.x < n && 0 <= t.y < n && t.x != t.y && t.z == Abs(t.y - t.x)
    ensures t in Table(n, n, 1, n - 1) ==> 1 <= t.z <= n - 1
    ensures Ordered(Table(n, n, 1, n - 1))
  {
    if n > 0 {
      TableLength(n, n, 1, n - 1);
    }
    TableMembership(n, n, 1, n - 1, t);
    if 0 <= t.x < n && 0 <= t.y < n {
      ManhattanBound(n, t.x, 0, t.y, 0);
    }
    TableOrdered(n, n, 1, n - 1);
  }

  /** The full table over 0..4: 25 tuples, one per pair, the diagonal
      included with distance 0, every third component within 0..4. */
  lemma AbsTableFacts(t: Triple)
    ensures |Table(AbsMax + 1, AbsMax + 1, 0, AbsMax)| == 25
    ensures t in Table(AbsMax + 1, AbsMax + 1, 0, AbsMax) <==> 0 <= t.x <= 4 && 0 <= t.y <= 4 && t.z == Abs(t.x - t.y)
    ensures t in Table(AbsMax + 1, AbsMax + 1, 0, AbsMax) ==> 0 <= t.z <= 4
    ensures 0 <= t.x <= 4 ==> Triple(t.x, t.x, 0) in Table(AbsMax + 1, AbsMax + 1, 0, AbsMax)
    ensures Ordered(Table(AbsMax + 1, AbsMax + 1, 0, AbsMax))
  {
    TableLength(AbsMax + 1, AbsMax + 1, 0, AbsMax);
    TableMembership(AbsMax + 1, AbsMax + 1, 0, AbsMax, t);
    TableMembership(AbsMax + 1, AbsMax + 1, 0, AbsMax, Triple(t.x, t.x, 0));
    if 0 <= t.x <= AbsMax && 0 <= t.y <= AbsMax {
      ManhattanBound(AbsMax + 1, t.x, 0, t.y, 0);
    }
    TableOrdered(AbsMax + 1, AbsMax + 1, 0, AbsMax);
  }

  /** In an ordered table each pair (x, y) has a single third component. */
  lemma OrderedIsFunctional(ts: seq<Triple>, i: int, j: int)
    requires Ordered(ts) && 0 <= i < |ts| && 0 <= j < |ts|
    requires ts[i].x == ts[j].x && ts[i].y == ts[j].y
    ensures i == j && ts[i].z == ts[j].z
  {
  }
}

/**
 * Flat buffer indexing and the interleaved stripes the filter hands to its
 * worker threads.
 *
 * A stripe is the set of rows `start, start+delta, start+2*delta, ...`.
 * Running one stripe of a pass overwrites exactly the buffer cells whose
 * owning row lies in that stripe with the pass's result, and leaves every
 * other cell alone.  The worker pool is modelled as running the stripes
 * one after another; the lemmas here show that the order is irrelevant.
 */
module Stripes {
  import opened Pixels

  /** Offset of cell (major, minor) in a flat buffer whose minor extent is n:
      `y*width + x` for a row-major cell, `x*height + y` for a transposed one. */
  function Flat(major: int, minor: int, n: int): int
  {
    major * n + minor
  }

  /** The next major coordinate is n cells further on. */
  lemma FlatSucc(major: int, minor: int, n: int)
    ensures Flat(major + 1, minor, n) == Flat(major, minor, n) + n
  {
  }

  /** Each cell of an m-by-n grid lands inside the buffer, and its coordinates
      can be read back from the offset: the map is injective. */
  lemma FlatInRange(major: int, minor: int, m: int, n: int)
    requires 0 <= major < m && 0 <= minor < n
    ensures 0 <= Flat(major, minor, n) < m * n
    ensures Flat(major, minor, n) / n == major && Flat(major, minor, n) % n == minor
  {
    DivModUnique(Flat(major, minor, n), n, major, minor);
    MulMonotone(major, m - 1, n);
  }

  lemma MulMonotone(a: int, b: int, n: int)
    requires 0 <= a <= b && n >= 0
    ensures a * n <= b * n
  {
  }

  /** Every offset of an m-by-n buffer is the offset of some cell: the map is onto. */
  lemma FlatOnto(j: int, m: nat, n: int)
    requires 0 <= j < m * n
    ensures n > 0 && 0 <= j / n < m && 0 <= j % n < n
    ensures Flat(j / n, j % n, n) == j
  {
    if n <= 0 {
      MulMonotone(0, m, -n);
      assert false;
    }
    var q := j / n;
    if q < 0 {
      MulMonotone(1, -q, n);
      assert false;
    }
    if q >= m {
      MulMonotone(m, q, n);
      assert false;
    }
  }

  /** Two cells with the same offset are the same cell. */
  lemma FlatInjective(x1: int, y1: int, x2: int, y2: int, m: int, n: int)
    requires 0 <= x1 < m && 0 <= y1 < n && 0 <= x2 < m && 0 <= y2 < n
    requires Flat(x1, y1, n) == Flat(x2, y2, n)
    ensures x1 == x2 && y1 == y2
  {
    FlatInRange(x1, y1, m, n);
    FlatInRange(x2, y2, m, n);
  }

  /** The major coordinate of every cell of an m-by-n buffer, by offset. */
  function Majors(m: nat, n: nat): (s: seq<int>)
    ensures |s| == m * n
    ensures forall j :: 0 <= j < |s| ==> 0 <= s[j] < m
  {
    seq(m * n, j requires 0 <= j < m * n => (FlatOnto(j, m, n); j / n))
  }

  /** The minor coordinate of every cell of an m-by-n buffer, by offset. */
  function Minors(m: nat, n: nat): (s: seq<int>)
    ensures |s| == m * n
    ensures forall j :: 0 <= j < |s| ==> 0 <= s[j] < n
  {
    seq(m * n, j requires 0 <= j < m * n => (FlatOnto(j, m, n); j % n))
  }

  /** Offset j is the cell (Majors[j], Minors[j]). */
  lemma CellAt(m: nat, n: nat, j: int)
    requires 0 <= j < m * n
    ensures Flat(Majors(m, n)[j], Minors(m, n)[j], n) == j
  {
    FlatOnto(j, m, n);
  }

  /** The cell (x, y) is at an offset whose coordinates are (x, y). */
  lemma CellOf(m: nat, n: nat, x: int, y: int)
    requires 0 <= x < m && 0 <= y < n
    ensures 0 <= Flat(x, y, n) < m * n
    ensures Majors(m, n)[Flat(x, y, n)] == x && Minors(m, n)[Flat(x, y, n)] == y
  {
    FlatInRange(x, y, m, n);
  }

  /** The cell (x, y) is the only offset whose coordinates are (x, y). */
  lemma CellUnique(m: nat, n: nat, x: int, y: int)
    requires 0 <= x < m && 0 <= y < n
    ensures 0 <= Flat(x, y, n) < m * n
    ensures forall j :: 0 <= j < m * n ==> (Majors(m, n)[j] == x && Minors(m, n)[j] == y <==> j == Flat(x, y, n))
  {
    CellOf(m, n, x, y);
    forall j | 0 <= j < m * n && Majors(m, n)[j] == x && Minors(m, n)[j] == y
      ensures j == Flat(x, y, n)
    {
      CellAt(m, n, j);
    }
  }

  /** Row y is among the rows `start, start+delta, ...`. */
  predicate InStripe(y: int, start: int, delta: int)
    requires delta >= 1
  {
    start <= y && (y - start) % delta == 0
  }

  /** With stripe indices 0..delta-1 the stripes partition the rows: row y
      belongs to stripe `y % delta` and to no other. */
  lemma StripeOwner(y: int, delta: int)
    requires y >= 0 && delta >= 1
    ensures 0 <= y % delta < delta && InStripe(y, y % delta, delta)
    ensures forall s :: 0 <= s < delta && InStripe(y, s, delta) ==> s == y % delta
  {
    var q := y / delta;
    DivModUnique(y - y % delta, delta, q, 0);
    if q < 0 {
      MulMonotone(1, -q, delta);
      assert false;
    }
    MulMonotone(0, q, delta);
    forall s | 0 <= s < delta && InStripe(y, s, delta)
      ensures s == y % delta
    {
      var k := (y - s) / delta;
      assert y - s == k * delta;
      DivModUnique(y, delta, k, s);
    }
  }

  /** The rows one stripe visits, in the order its loop visits them: the k-th
      visited row is in the stripe, and no stripe row lies between two
      consecutive visits. */
  lemma StripeStep(start: int, delta: int, k: int, yy: int)
    requires delta >= 1 && k >= 0
    ensures InStripe(start + k * delta, start, delta)
    ensures start + k * delta < yy < start + k * delta + delta ==> !InStripe(yy, start, delta)
  {
    MulMonotone(0, k, delta);
    DivModUnique(k * delta, delta, k, 0);
    if start + k * delta < yy < start + k * delta + delta {
      DivModUnique(yy - start, delta, k, yy - start - k * delta);
    }
  }

  /** The buffer after one stripe of a pass: cells whose owning row is in the
      stripe take the pass's result, the others keep their value. */
  function ApplyStripe<T>(cur: seq<T>, target: seq<T>, rows: seq<int>, start: int, delta: int): (r: seq<T>)
    requires |cur| == |target| == |rows| && delta >= 1
    ensures |r| == |cur|
  {
    seq(|cur|, i requires 0 <= i < |cur| => if InStripe(rows[i], start, delta) then target[i] else cur[i])
  }

  /** How far one stripe's loop has got when it is at row y, column x: the
      cells of stripe rows before y, and of row y before column x, hold the
      pass's result; every other cell holds its value from before the stripe. */
  ghost predicate Progress<T>(cur: seq<T>, target: seq<T>, before: seq<T>, rows: seq<int>, cols: seq<int>,
                              start: int, delta: int, y: int, x: int)
    requires |cur| == |target| == |before| == |rows| == |cols| && delta >= 1
  {
    forall j :: 0 <= j < |cur| ==>
      cur[j] == if InStripe(rows[j], start, delta) && (rows[j] < y || (rows[j] == y && cols[j] < x))
                then target[j] else before[j]
  }

  /** Before the first row nothing has been written. */
  lemma ProgressStart<T>(target: seq<T>, before: seq<T>, rows: seq<int>, cols: seq<int>, start: int, delta: int)
    requires |target| == |before| == |rows| == |cols| && delta >= 1
    requires forall j :: 0 <= j < |cols| ==> cols[j] >= 0
    ensures Progress(before, target, before, rows, cols, start, delta, start, 0)
  {
  }

  /** Writing the result for the cell at row y, column x of a stripe row. */
  lemma ProgressWrite<T>(cur: seq<T>, target: seq<T>, before: seq<T>, rows: seq<int>, cols: seq<int>,
                         start: int, delta: int, y: int, x: int, index: int)
    requires |cur| == |target| == |before| == |rows| == |cols| && delta >= 1
    requires Progress(cur, target, before, rows, cols, start, delta, y, x)
    requires InStripe(y, start, delta) && 0 <= index < |cur|
    requires forall j :: 0 <= j < |cur| ==> (rows[j] == y && cols[j] == x <==> j == index)
    ensures Progress(cur[index := target[index]], target, before, rows, cols, start, delta, y, x + 1)
  {
    var next := cur[index := target[index]];
    forall j | 0 <= j < |cur|
      ensures next[j] == if InStripe(rows[j], start, delta) && (rows[j] < y || (rows[j] == y && cols[j] < x + 1))
                         then target[j] else before[j]
    {
      if j != index {
        assert next[j] == cur[j];
      }
    }
  }

  /** `ProgressWrite` for a row-major buffer of m rows of n cells: row y, column x is at `Flat(y, x, n)`. */
  lemma ProgressWriteRowMajor<T>(cur: seq<T>, target: seq<T>, before: seq<T>, m: nat, n: nat,
                                 start: int, delta: int, y: int, x: int)
    requires |cur| == |target| == |before| == m * n && delta >= 1
    requires Progress(cur, target, before, Majors(m, n), Minors(m, n), start, delta, y, x)
    requires InStripe(y, start, delta) && 0 <= y < m && 0 <= x < n
    ensures 0 <= Flat(y, x, n) < m * n
    ensures Progress(cur[Flat(y, x, n) := target[Flat(y, x, n)]], target, before, Majors(m, n), Minors(m, n),
                     start, delta, y, x + 1)
  {
    CellUnique(m, n, y, x);
    ProgressWrite(cur, target, before, Majors(m, n), Minors(m, n), start, delta, y, x, Flat(y, x, n));
  }

  /** `ProgressWrite` for a transposed buffer of m columns of n cells: row y, column x is at `Flat(x, y, n)`. */
  lemma ProgressWriteColumnMajor<T>(cur: seq<T>, target: seq<T>, before: seq<T>, m: nat, n: nat,
                                    start: int, delta: int, y: int, x: int)
    requires |cur| == |target| == |before| == m * n && delta >= 1
    requires Progress(cur, target, before, Minors(m, n), Majors(m, n), start, delta, y, x)
    requires InStripe(y, start, delta) && 0 <= x < m && 0 <= y < n
    ensures 0 <= Flat(x, y, n) < m * n
    ensures Progress(cur[Flat(x, y, n) := target[Flat(x, y, n)]], target, before, Minors(m, n), Majors(m, n),
                     start, delta, y, x + 1)
  {
    CellUnique(m, n, x, y);
    ProgressWrite(cur, target, before, Minors(m, n), Majors(m, n), start, delta, y, x, Flat(x, y, n));
  }

  /** Finishing row y moves on to the next row of the stripe. */
  lemma ProgressRow<T>(cur: seq<T>, target: seq<T>, before: seq<T>, rows: seq<int>, cols: seq<int>,
                       start: int, delta: int, y: int, x: int)
    requires |cur| == |target| == |before| == |rows| == |cols| && delta >= 1
    requires Progress(cur, target, before, rows, cols, start, delta, y, x)
    requires forall j :: 0 <= j < |cols| ==> 0 <= cols[j] < x
    requires InStripe(y, start, delta)
    ensures Progress(cur, target, before, rows, cols, start, delta, y + delta, 0)
  {
    var k := (y - start) / delta;
    assert y == start + k * delta;
    forall yy | y < yy < y + delta
      ensures !InStripe(yy, start, delta)
    {
      StripeStep(start, delta, k, yy);
    }
    forall j | 0 <= j < |cur|
      ensures cur[j] == if InStripe(rows[j], start, delta) && (rows[j] < y + delta || (rows[j] == y + delta && cols[j] < 0))
                        then target[j] else before[j]
    {
      if y < rows[j] < y + delta {
        assert !InStripe(rows[j], start, delta);
      }
    }
  }

  /** Past the last row the buffer is the one-stripe result. */
  lemma ProgressDone<T>(cur: seq<T>, target: seq<T>, before: seq<T>, rows: seq<int>, cols: seq<int>,
                        start: int, delta: int, y: int)
    requires |cur| == |target| == |before| == |rows| == |cols| && delta >= 1
    requires Progress(cur, target, before, rows, cols, start, delta, y, 0)
    requires forall j :: 0 <= j < |rows| ==> rows[j] < y
    ensures cur == ApplyStripe(before, target, rows, start, delta)
  {
    var r := ApplyStripe(before, target, rows, start, delta);
    forall j | 0 <= j < |cur|
      ensures cur[j] == r[j]
    {
    }
  }

  /** The buffer after the stripes of `order` ran one after another, in that order. */
  function RunOrder<T>(cur: seq<T>, target: seq<T>, rows: seq<int>, order: seq<int>, delta: int): (r: seq<T>)
    requires |cur| == |target| == |rows|
    requires forall k :: 0 <= k < |order| ==> 0 <= order[k] < delta
    ensures |r| == |cur|
    decreases |order|
  {
    if order == [] then cur
    else
      ApplyStripe(RunOrder(cur, target, rows, order[..|order| - 1], delta), target, rows, order[|order| - 1], delta)
  }

  /** After any sequence of stripes, a cell holds the pass's result exactly
      when some stripe that ran owns its row, and its old value otherwise. */
  lemma {:induction false} RunOrderAt<T>(cur: seq<T>, target: seq<T>, rows: seq<int>, order: seq<int>, delta: int, i: int)
    requires |cur| == |target| == |rows|
    requires forall k :: 0 <= k < |order| ==> 0 <= order[k] < delta
    requires 0 <= i < |cur|
    ensures RunOrder(cur, target, rows, order, delta)[i] ==
      if exists k :: 0 <= k < |order| && InStripe(rows[i], order[k], delta) then target[i] else cur[i]
  {
    if order != [] {
      var init := order[..|order| - 1];
      RunOrderAt(cur, target, rows, init, delta, i);
      var last := order[|order| - 1];
      if InStripe(rows[i], last, delta) {
        assert 0 <= |order| - 1 < |order| && InStripe(rows[i], order[|order| - 1], delta);
      } else {
        forall k | 0 <= k < |order| && InStripe(rows[i], order[k], delta)
          ensures 0 <= k < |init| && InStripe(rows[i], init[k], delta)
        {
        }
      }
    }
  }

  /** Whatever the order in which the worker threads run, once every stripe
      0..delta-1 has run the buffer holds the pass's result in every cell,
      so the outcome does not depend on scheduling. */
  lemma {:induction false} AnyOrderCovers<T>(cur: seq<T>, target: seq<T>, rows: seq<int>, order: seq<int>, delta: int)
    requires |cur| == |target| == |rows| && delta >= 1
    requires forall i :: 0 <= i < |rows| ==> rows[i] >= 0
    requires forall k :: 0 <= k < |order| ==> 0 <= order[k] < delta
    requires forall s :: 0 <= s < delta ==> s in order
    ensures RunOrder(cur, target, rows, order, delta) == target
  {
    var r := RunOrder(cur, target, rows, order, delta);
    forall i | 0 <= i < |cur|
      ensures r[i] == target[i]
    {
      RunOrderAt(cur, target, rows, order, delta, i);
      StripeOwner(rows[i], delta);
      var s := rows[i] % delta;
      assert s in order;
      var k :| 0 <= k < |order| && order[k] == s;
      assert InStripe(rows[i], order[k], delta);
    }
  }

  /** The stripe indices a pool of n threads is given, in submission order. */
  function Iota(n: nat): (r: seq<int>)
    ensures |r| == n && forall k :: 0 <= k < n ==> r[k] == k
  {
    seq(n, k => k)
  }

  /** No stripe appears twice in `order`. */
  predicate Distinct(order: seq<int>)
  {
    forall k, l :: 0 <= k < l < |order| ==> order[k] != order[l]
  }

  /** The submission order 0, 1, ..., n-1 names every stripe exactly once. */
  lemma IotaPermutation(n: nat)
    ensures Distinct(Iota(n)) && forall s :: 0 <= s < n ==> s in Iota(n)
  {
    forall s | 0 <= s < n
      ensures s in Iota(n)
    {
      assert Iota(n)[s] == s;
    }
  }

  /** Running the stripes 0, 1, ..., n-1 of a pass split n ways completes the pass. */
  lemma IotaCovers<T>(cur: seq<T>, target: seq<T>, rows: seq<int>, n: nat)
    requires |cur| == |target| == |rows| && n >= 1
    requires forall i :: 0 <= i < |rows| ==> rows[i] >= 0
    ensures RunOrder(cur, target, rows, Iota(n), n) == target
  {
    IotaPermutation(n);
    AnyOrderCovers(cur, target, rows, Iota(n), n);
  }

  /** Submitting stripe n after stripes 0..n-1. */
  lemma IotaSnoc<T>(cur: seq<T>, target: seq<T>, rows: seq<int>, n: nat, delta: int)
    requires |cur| == |target| == |rows| && n < delta
    ensures RunOrder(cur, target, rows, Iota(n + 1), delta) ==
      ApplyStripe(RunOrder(cur, target, rows, Iota(n), delta), target, rows, n, delta)
  {
    assert Iota(n + 1)[..n] == Iota(n);
  }
}

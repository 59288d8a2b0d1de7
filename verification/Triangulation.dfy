/** What triangulation computes, as a property of the sparse rows.

    A row of the system is a list of distinct sparse columns. Triangulation picks main rows
    and main columns so that, read backwards, they form a lower triangular matrix; the rows
    left over are the gap. */
module Triangulation {
  import opened Lists

  // Every row has distinct columns below sparseSize, and at least one of them.
  ghost predicate GoodRows(rows: seq<seq<nat>>, sparseSize: nat)
  {
    forall i :: 0 <= i < |rows| ==> GoodRow(rows[i], sparseSize)
  }

  ghost predicate GoodRow(row: seq<nat>, sparseSize: nat)
  {
    0 < |row| && Distinct(row) && forall j :: 0 <= j < |row| ==> row[j] < sparseSize
  }

  // gapRows holds pairs (row, main row selected for the same column).
  datatype Triangle = Triangle(mainRows: seq<nat>, mainCols: seq<nat>, gapRows: seq<(nat, nat)>)
  {
    // Every row, main or gap.
    function Rows(): (s: seq<nat>)
      ensures |s| == |mainRows| + |gapRows|
    {
      mainRows + seq(|gapRows|, i requires 0 <= i < |gapRows| => gapRows[i].0)
    }
  }

  // Main column k is in main row k and in no row selected after step k.
  ghost predicate MainOk(rows: seq<seq<nat>>, mainRows: seq<nat>, mainCols: seq<nat>, k: nat)
    requires |mainRows| == |mainCols| && k < |mainRows|
  {
    && mainRows[k] < |rows|
    && mainCols[k] in rows[mainRows[k]]
    && forall k' :: 0 <= k' < k ==> mainCols[k'] !in rows[mainRows[k]]
  }

  // A gap row was met in the column of its main row, and has no earlier main column.
  ghost predicate GapOk(rows: seq<seq<nat>>, mainRows: seq<nat>, mainCols: seq<nat>, gap: (nat, nat))
    requires |mainRows| == |mainCols|
  {
    && gap.0 < |rows|
    && exists k :: 0 <= k < |mainRows| && gap.1 == mainRows[k] && GapAt(rows, mainCols, gap.0, k)
  }

  ghost predicate GapAt(rows: seq<seq<nat>>, mainCols: seq<nat>, r: nat, k: nat)
    requires r < |rows| && k < |mainCols|
  {
    mainCols[k] in rows[r] && forall k' :: 0 <= k' < k ==> mainCols[k'] !in rows[r]
  }

  /** The result of a complete triangulation. */
  ghost predicate Triangular(rows: seq<seq<nat>>, sparseSize: nat, t: Triangle)
  {
    && PartlyTriangular(rows, sparseSize, t)
    && forall i :: 0 <= i < |rows| ==> i in t.Rows()
  }

  ghost predicate PartlyTriangular(rows: seq<seq<nat>>, sparseSize: nat, t: Triangle)
  {
    && |t.mainRows| == |t.mainCols|
    && Distinct(t.Rows()) && Distinct(t.mainCols)
    && (forall i :: 0 <= i < |t.Rows()| ==> t.Rows()[i] < |rows|)
    && (forall k :: 0 <= k < |t.mainCols| ==> t.mainCols[k] < sparseSize)
    && (forall k :: 0 <= k < |t.mainRows| ==> MainOk(rows, t.mainRows, t.mainCols, k))
    && (forall g :: 0 <= g < |t.gapRows| ==> GapOk(rows, t.mainRows, t.mainCols, t.gapRows[g]))
  }

  // ----- Counting the rows of a column -----

  // The rows below n that contain column c, in increasing order.
  function RowsWith(rows: seq<seq<nat>>, c: nat, n: nat): (s: seq<nat>)
    requires n <= |rows|
  {
    if n == 0 then [] else RowsWith(rows, c, n - 1) + (if c in rows[n - 1] then [n - 1] else [])
  }

  lemma {:induction false} RowsWithMembers(rows: seq<seq<nat>>, c: nat, n: nat)
    requires n <= |rows|
    ensures forall i :: i in RowsWith(rows, c, n) <==> 0 <= i < n && c in rows[i]
  {
    if n > 0 {
      RowsWithMembers(rows, c, n - 1);
    }
  }

  // The number of rows below n that contain column c and are not set.
  function Unset(rows: seq<seq<nat>>, rowSet: seq<bool>, c: nat, n: nat): nat
    requires n <= |rows| == |rowSet|
  {
    if n == 0 then 0 else Unset(rows, rowSet, c, n - 1) + if !rowSet[n - 1] && c in rows[n - 1] then 1 else 0
  }

  lemma {:induction false} UnsetInitially(rows: seq<seq<nat>>, rowSet: seq<bool>, c: nat, n: nat)
    requires n <= |rows| == |rowSet| && forall i :: 0 <= i < n ==> !rowSet[i]
    ensures Unset(rows, rowSet, c, n) == |RowsWith(rows, c, n)|
  {
    if n > 0 {
      UnsetInitially(rows, rowSet, c, n - 1);
    }
  }

  lemma {:induction false} UnsetAfterSetting(rows: seq<seq<nat>>, rowSet: seq<bool>, r: nat, c: nat, n: nat)
    requires n <= |rows| == |rowSet| && r < |rows| && !rowSet[r]
    ensures Unset(rows, rowSet, c, n) == Unset(rows, rowSet[r := true], c, n) + if r < n && c in rows[r] then 1 else 0
  {
    if n > 0 {
      UnsetAfterSetting(rows, rowSet, r, c, n - 1);
    }
  }

  lemma {:induction false} UnsetPositive(rows: seq<seq<nat>>, rowSet: seq<bool>, c: nat, n: nat)
    requires n <= |rows| == |rowSet|
    ensures 0 < Unset(rows, rowSet, c, n) <==> exists i :: 0 <= i < n && !rowSet[i] && c in rows[i]
  {
    if n > 0 {
      UnsetPositive(rows, rowSet, c, n - 1);
    }
  }

  // A list of distinct numbers below n has at most n of them.
  lemma {:induction false} DistinctBound(s: seq<nat>, n: nat)
    requires Distinct(s) && forall i :: 0 <= i < |s| ==> s[i] < n
    ensures |s| <= n
  {
    if s != [] {
      assert s[0] < n;
      if n - 1 in s {
        var k :| 0 <= k < |s| && s[k] == n - 1;
        var s' := s[..k] + s[k + 1..];
        DistinctBound(s', n - 1);
      } else {
        DistinctBound(s, n - 1);
      }
    }
  }

  // ----- Extending a triangulation -----

  // Row r becomes main row for column c.
  lemma AddMain(rows: seq<seq<nat>>, sparseSize: nat, t: Triangle, r: nat, c: nat)
    requires PartlyTriangular(rows, sparseSize, t)
    requires r < |rows| && r !in t.Rows() && c < sparseSize && c !in t.mainCols && c in rows[r]
    requires forall k :: 0 <= k < |t.mainCols| ==> t.mainCols[k] !in rows[r]
    ensures PartlyTriangular(rows, sparseSize, Triangle(t.mainRows + [r], t.mainCols + [c], t.gapRows))
    ensures forall i :: i in Triangle(t.mainRows + [r], t.mainCols + [c], t.gapRows).Rows() <==> i == r || i in t.Rows()
  {
    var t' := Triangle(t.mainRows + [r], t.mainCols + [c], t.gapRows);
    AddMainRows(t, t', r, c);
    forall k | 0 <= k < |t'.mainRows| ensures MainOk(rows, t'.mainRows, t'.mainCols, k) {
      assert k < |t.mainRows| ==> MainOk(rows, t.mainRows, t.mainCols, k);
    }
    forall g | 0 <= g < |t'.gapRows| ensures GapOk(rows, t'.mainRows, t'.mainCols, t'.gapRows[g]) {
      AddMainGap(rows, t.mainRows, t.mainCols, t.gapRows[g], r, c);
    }
    assert forall i :: 0 <= i < |t'.Rows()| ==> t'.Rows()[i] in t'.Rows();
  }

  lemma AddMainRows(t: Triangle, t': Triangle, r: nat, c: nat)
    requires Distinct(t.Rows()) && r !in t.Rows()
    requires t' == Triangle(t.mainRows + [r], t.mainCols + [c], t.gapRows)
    ensures Distinct(t'.Rows())
    ensures forall i :: i in t'.Rows() <==> i == r || i in t.Rows()
  {
    var m := |t.mainRows|;
    assert t'.Rows() == t.mainRows + [r] + t.Rows()[m..];
    assert t.Rows() == t.mainRows + t.Rows()[m..];
  }

  lemma AddMainGap(rows: seq<seq<nat>>, mainRows: seq<nat>, mainCols: seq<nat>, gap: (nat, nat), r: nat, c: nat)
    requires |mainRows| == |mainCols| && GapOk(rows, mainRows, mainCols, gap)
    ensures GapOk(rows, mainRows + [r], mainCols + [c], gap)
  {
    var k :| 0 <= k < |mainRows| && gap.1 == mainRows[k] && GapAt(rows, mainCols, gap.0, k);
    assert (mainRows + [r])[k] == mainRows[k] && GapAt(rows, mainCols + [c], gap.0, k);
  }

  // Row r goes to the gap of the last main row.
  lemma AddGap(rows: seq<seq<nat>>, sparseSize: nat, t: Triangle, r: nat)
    requires PartlyTriangular(rows, sparseSize, t) && t.mainRows != []
    requires r < |rows| && r !in t.Rows() && GapAt(rows, t.mainCols, r, |t.mainCols| - 1)
    ensures PartlyTriangular(rows, sparseSize, t.(gapRows := t.gapRows + [(r, t.mainRows[|t.mainRows| - 1])]))
    ensures forall i :: i in t.(gapRows := t.gapRows + [(r, t.mainRows[|t.mainRows| - 1])]).Rows() <==>
      i == r || i in t.Rows()
  {
    var gap := (r, t.mainRows[|t.mainRows| - 1]);
    var t' := t.(gapRows := t.gapRows + [gap]);
    assert t'.Rows() == t.Rows() + [r];
    assert GapOk(rows, t.mainRows, t.mainCols, gap);
  }

  // ----- Taking columns -----

  // The rows of column c that t has not taken, in increasing order.
  function LeftIn(rows: seq<seq<nat>>, t: Triangle, c: nat): seq<nat>
  {
    Without(RowsWith(rows, c, |rows|), t.Rows())
  }

  lemma {:induction false} WithoutMembers(s: seq<nat>, u: seq<nat>)
    ensures forall i :: i in Without(s, u) <==> i in s && i !in u
    ensures Distinct(s) ==> Distinct(Without(s, u))
  {
    if s != [] {
      WithoutMembers(s[..|s| - 1], u);
      assert s == s[..|s| - 1] + [s[|s| - 1]];
    }
  }

  lemma {:induction false} RowsWithIncrease(rows: seq<seq<nat>>, c: nat, n: nat)
    requires n <= |rows|
    ensures forall p, q :: 0 <= p < q < |RowsWith(rows, c, n)| ==> RowsWith(rows, c, n)[p] < RowsWith(rows, c, n)[q]
  {
    if n > 0 {
      RowsWithIncrease(rows, c, n - 1);
      RowsWithMembers(rows, c, n - 1);
      var w := RowsWith(rows, c, n - 1);
      assert forall p :: 0 <= p < |w| ==> w[p] in w;
    }
  }

  lemma {:induction false} RowsWithDistinct(rows: seq<seq<nat>>, c: nat, n: nat)
    requires n <= |rows|
    ensures Distinct(RowsWith(rows, c, n))
  {
    if n > 0 {
      RowsWithDistinct(rows, c, n - 1);
      RowsWithMembers(rows, c, n - 1);
      assert n - 1 !in RowsWith(rows, c, n - 1);
    }
  }

  lemma LeftMembers(rows: seq<seq<nat>>, t: Triangle, c: nat)
    ensures forall i :: i in LeftIn(rows, t, c) <==> 0 <= i < |rows| && c in rows[i] && i !in t.Rows()
    ensures Distinct(LeftIn(rows, t, c))
  {
    RowsWithMembers(rows, c, |rows|);
    RowsWithDistinct(rows, c, |rows|);
    WithoutMembers(RowsWith(rows, c, |rows|), t.Rows());
  }

  // The weight of a column is the number of its rows that are left.
  lemma {:induction false} UnsetIsLeft(rows: seq<seq<nat>>, rowSet: seq<bool>, t: Triangle, c: nat, n: nat)
    requires n <= |rows| == |rowSet| && forall i :: 0 <= i < |rows| ==> (rowSet[i] <==> i in t.Rows())
    ensures Unset(rows, rowSet, c, n) == |Without(RowsWith(rows, c, n), t.Rows())|
  {
    if n > 0 {
      UnsetIsLeft(rows, rowSet, t, c, n - 1);
      var before, all := RowsWith(rows, c, n - 1), RowsWith(rows, c, n);
      if c in rows[n - 1] {
        assert all[..|all| - 1] == before;
      } else {
        assert all == before;
      }
    }
  }

  // The first of these rows becomes the main row of column c, the others go to its gap.
  function Taken(t: Triangle, c: nat, left: seq<nat>): Triangle
  {
    if left == [] then t else
      Triangle(t.mainRows + [left[0]], t.mainCols + [c],
               t.gapRows + seq(|left| - 1, i requires 0 <= i < |left| - 1 => (left[i + 1], left[0])))
  }

  lemma TakenNext(t: Triangle, c: nat, left: seq<nat>, r: nat)
    ensures left == [] ==>
      Taken(t, c, left) == t && Taken(t, c, left + [r]) == Triangle(t.mainRows + [r], t.mainCols + [c], t.gapRows)
    ensures left != [] ==> var t' := Taken(t, c, left);
      t'.mainRows != [] &&
      Taken(t, c, left + [r]) == t'.(gapRows := t'.gapRows + [(r, t'.mainRows[|t'.mainRows| - 1])])
  {
  }

  lemma TakenRows(t: Triangle, c: nat, left: seq<nat>, i: nat)
    ensures i in Taken(t, c, left).Rows() <==> i in t.Rows() || i in left
  {
    if left != [] {
      var t' := Taken(t, c, left);
      var gaps, more := seq(|t.gapRows|, k requires 0 <= k < |t.gapRows| => t.gapRows[k].0), left[1..];
      assert t'.Rows() == t.mainRows + [left[0]] + gaps + more;
      assert t.Rows() == t.mainRows + gaps;
      assert left == [left[0]] + more;
    }
  }

  // Column c has rows left, and no column that has any has fewer.
  ghost predicate Least(rows: seq<seq<nat>>, sparseSize: nat, t: Triangle, c: nat)
  {
    && c < sparseSize && LeftIn(rows, t, c) != []
    && forall d: nat :: d < sparseSize && LeftIn(rows, t, d) != [] ==> |LeftIn(rows, t, c)| <= |LeftIn(rows, t, d)|
  }

  // t is what taking a column of least weight time and again leads to.
  ghost predicate ByLeastWeight(rows: seq<seq<nat>>, sparseSize: nat, t: Triangle)
    decreases |t.mainCols|
  {
    if t.mainCols == [] then t == Triangle([], [], []) else
      exists t0: Triangle :: |t0.mainCols| < |t.mainCols| && ByLeastWeight(rows, sparseSize, t0) &&
        TakesLeast(rows, sparseSize, t0, t)
  }

  ghost predicate TakesLeast(rows: seq<seq<nat>>, sparseSize: nat, t0: Triangle, t: Triangle)
  {
    && t.mainCols != []
    && var c := t.mainCols[|t.mainCols| - 1];
       Least(rows, sparseSize, t0, c) && t == Taken(t0, c, LeftIn(rows, t0, c))
  }

  // Both rows are gap rows, or one is the other's main row.
  ghost predicate Together(t: Triangle, i: nat, j: nat)
  {
    || (exists g :: 0 <= g < |t.gapRows| && (t.gapRows[g] == (i, j) || t.gapRows[g] == (j, i)))
    || (IsGapRow(t, i) && IsGapRow(t, j))
  }

  ghost predicate IsGapRow(t: Triangle, i: nat)
  {
    exists g :: 0 <= g < |t.gapRows| && t.gapRows[g].0 == i
  }

  // Two rows with the same columns are taken at the same time.
  lemma {:induction false} TakenTogether(rows: seq<seq<nat>>, sparseSize: nat, t: Triangle, i: nat, j: nat)
    requires ByLeastWeight(rows, sparseSize, t) && i < |rows| && j < |rows| && i != j && rows[i] == rows[j]
    ensures i in t.Rows() <==> j in t.Rows()
    ensures i in t.Rows() ==> Together(t, i, j)
    decreases |t.mainCols|
  {
    if t.mainCols == [] {
      assert t.Rows() == [];
    } else {
      var t0: Triangle :| |t0.mainCols| < |t.mainCols| && ByLeastWeight(rows, sparseSize, t0) &&
          TakesLeast(rows, sparseSize, t0, t);
      var c := t.mainCols[|t.mainCols| - 1];
      TakenTogether(rows, sparseSize, t0, i, j);
      TogetherNext(rows, t0, c, i, j);
    }
  }

  lemma TogetherNext(rows: seq<seq<nat>>, t0: Triangle, c: nat, i: nat, j: nat)
    requires i < |rows| && j < |rows| && i != j && rows[i] == rows[j]
    requires (i in t0.Rows() <==> j in t0.Rows()) && (i in t0.Rows() ==> Together(t0, i, j))
    ensures var t := Taken(t0, c, LeftIn(rows, t0, c));
      (i in t.Rows() <==> j in t.Rows()) && (i in t.Rows() ==> Together(t, i, j))
  {
    hide LeftIn, Taken, Together, Triangle.Rows;
    var left := LeftIn(rows, t0, c);
    var t := Taken(t0, c, left);
    LeftMembers(rows, t0, c);
    TakenRows(t0, c, left, i);
    TakenRows(t0, c, left, j);
    if i in t0.Rows() {
      StaysTogether(t0, c, left, i, j);
    } else if i in left {
      var a: nat :| a < |left| && left[a] == i;
      var b: nat :| b < |left| && left[b] == j;
      NowTogether(t0, c, left, a, b);
    }
  }

  lemma StaysTogether(t0: Triangle, c: nat, left: seq<nat>, i: nat, j: nat)
    requires Together(t0, i, j)
    ensures Together(Taken(t0, c, left), i, j)
  {
    var t := Taken(t0, c, left);
    assert forall g :: 0 <= g < |t0.gapRows| ==> t.gapRows[g] == t0.gapRows[g];
  }

  lemma NowTogether(t0: Triangle, c: nat, left: seq<nat>, a: nat, b: nat)
    requires a < |left| && b < |left| && a != b
    ensures Together(Taken(t0, c, left), left[a], left[b])
  {
    var t, m := Taken(t0, c, left), |t0.gapRows|;
    assert forall q: nat :: 0 < q < |left| ==>
      m + (q - 1) < |t.gapRows| && t.gapRows[m + (q - 1)] == (left[q], left[0]);
    if a == 0 {
      assert t.gapRows[m + (b - 1)] == (left[b], left[a]);
    } else if b == 0 {
      assert t.gapRows[m + (a - 1)] == (left[a], left[b]);
    } else {
      assert t.gapRows[m + (a - 1)].0 == left[a] && t.gapRows[m + (b - 1)].0 == left[b];
    }
  }

  // ----- Peeling -----

  // Another row of s besides i contains column c.
  ghost predicate Again(rows: seq<seq<nat>>, s: set<nat>, i: nat, c: nat)
    requires forall j :: j in s ==> j < |rows|
  {
    exists j :: j in s && j != i && c in rows[j]
  }

  // A set of rows in which no column occurs just once.
  ghost predicate IsCore(rows: seq<seq<nat>>, s: set<nat>)
  {
    && s != {} && (forall i :: i in s ==> i < |rows|)
    && forall i, c :: i in s && c in rows[i] ==> Again(rows, s, i, c)
  }

  ghost predicate HasCore(rows: seq<seq<nat>>)
  {
    exists s: set<nat> :: IsCore(rows, s)
  }

  // If the column of least weight has two rows left, all rows that are left form a core.
  lemma LeastIsCore(rows: seq<seq<nat>>, sparseSize: nat, t: Triangle, c: nat)
    requires GoodRows(rows, sparseSize) && Least(rows, sparseSize, t, c) && 2 <= |LeftIn(rows, t, c)|
    ensures HasCore(rows)
  {
    hide LeftIn;
    var s := set i: nat | i < |rows| && i !in t.Rows();
    LeftMembers(rows, t, c);
    assert LeftIn(rows, t, c)[0] in LeftIn(rows, t, c);
    assert LeftIn(rows, t, c)[0] in s;
    forall i, d | i in s && d in rows[i] ensures Again(rows, s, i, d) {
      assert GoodRow(rows[i], sparseSize);
      LeftMembers(rows, t, d);
      assert i in LeftIn(rows, t, d);
      var l := LeftIn(rows, t, d);
      var j := if l[0] == i then l[1] else l[0];
      assert j in l && j in s;
    }
    assert IsCore(rows, s);
  }

  // The first main row that is in s.
  lemma {:induction false} FirstIn(mainRows: seq<nat>, s: set<nat>, k: nat) returns (f: nat)
    requires k < |mainRows| && mainRows[k] in s
    ensures f < |mainRows| && mainRows[f] in s && forall q :: 0 <= q < f ==> mainRows[q] !in s
  {
    if q: nat :| q < k && mainRows[q] in s {
      f := FirstIn(mainRows, s, q);
    } else {
      f := k;
    }
  }

  /** A core cannot be peeled away: every triangulation has a gap. */
  lemma CoreHasGap(rows: seq<seq<nat>>, sparseSize: nat, t: Triangle)
    requires Triangular(rows, sparseSize, t) && HasCore(rows)
    ensures t.gapRows != []
  {
    var s: set<nat> :| IsCore(rows, s);
    if t.gapRows == [] {
      assert t.Rows() == t.mainRows;
      MainIsNoCore(rows, t.mainRows, t.mainCols, s);
    }
  }

  lemma MainIsNoCore(rows: seq<seq<nat>>, mainRows: seq<nat>, mainCols: seq<nat>, s: set<nat>)
    requires |mainRows| == |mainCols| && forall k :: 0 <= k < |mainRows| ==> MainOk(rows, mainRows, mainCols, k)
    requires forall i :: i in s ==> i < |rows| && i in mainRows
    ensures !IsCore(rows, s)
  {
    if i :| i in s {
      var k :| 0 <= k < |mainRows| && mainRows[k] == i;
      var f := FirstIn(mainRows, s, k);
      assert MainOk(rows, mainRows, mainCols, f);
      forall j | j in s && j != mainRows[f] ensures mainCols[f] !in rows[j] {
        var k' :| 0 <= k' < |mainRows| && mainRows[k'] == j;
        assert MainOk(rows, mainRows, mainCols, k');
      }
      assert !Again(rows, s, mainRows[f], mainCols[f]);
    }
  }
}

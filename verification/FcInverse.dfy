/** The symbolic elimination of the gap rows (getFCInv in PaxosImpl.h). */
module FcInverse {
  import opened Lists
  import opened Triangulation

  // ----- Exclusive-or of sparse rows -----

  function Toggle(s: set<nat>, c: nat): set<nat>
  {
    if c in s then s - {c} else s + {c}
  }

  function ToggleAll(s: set<nat>, cols: seq<nat>): set<nat>
  {
    if cols == [] then s else Toggle(ToggleAll(s, cols[..|cols| - 1]), cols[|cols| - 1])
  }

  // The columns that occur an odd number of times in the listed rows.
  function XorRows(rows: seq<seq<nat>>, list: seq<nat>): set<nat>
    requires forall i :: 0 <= i < |list| ==> list[i] < |rows|
  {
    if list == [] then {} else ToggleAll(XorRows(rows, list[..|list| - 1]), rows[list[|list| - 1]])
  }

  lemma {:induction false} ToggleDistinct(s: set<nat>, cols: seq<nat>, x: nat)
    requires Distinct(cols)
    ensures x in ToggleAll(s, cols) <==> (x in s) != (x in cols)
  {
    if cols != [] {
      var init, last := cols[..|cols| - 1], cols[|cols| - 1];
      ToggleDistinct(s, init, x);
      assert cols == init + [last];
      assert last !in init;
    }
  }

  /** Adding the listed main rows to the gap row leaves zero in every main column. */
  ghost predicate ClearsMain(rows: seq<seq<nat>>, t: Triangle, gap: nat, list: seq<nat>)
  {
    && gap < |rows| && (forall i :: 0 <= i < |list| ==> list[i] < |rows| && list[i] in t.mainRows)
    && forall k :: 0 <= k < |t.mainCols| ==> t.mainCols[k] !in XorRows(rows, [gap] + list)
  }

  lemma XorRowsStep(rows: seq<seq<nat>>, gap: nat, list: seq<nat>, r: nat)
    requires gap < |rows| && r < |rows| && forall i :: 0 <= i < |list| ==> list[i] < |rows|
    ensures XorRows(rows, [gap] + (list + [r])) == ToggleAll(XorRows(rows, [gap] + list), rows[r])
  {
    var all := [gap] + (list + [r]);
    assert all[..|all| - 1] == [gap] + list;
  }

  lemma XorRowsOne(rows: seq<seq<nat>>, gap: nat, sparseSize: nat)
    requires GoodRows(rows, sparseSize) && gap < |rows|
    ensures forall x: nat :: x in XorRows(rows, [gap]) <==> x in rows[gap]
  {
    assert [gap][..0] == [];
    assert GoodRow(rows[gap], sparseSize);
    forall x: nat ensures x in XorRows(rows, [gap]) <==> x in rows[gap] {
      ToggleDistinct({}, rows[gap], x);
    }
  }

  // ----- The elimination -----

  // colMapping sends a main column of H to its column in C, which lists them backwards.
  ghost predicate IsMapping(t: Triangle, sparseSize: nat, colMapping: seq<int>)
  {
    && |colMapping| == sparseSize && |t.mainRows| == |t.mainCols|
    && (forall k :: 0 <= k < |t.mainCols| ==>
        t.mainCols[k] < sparseSize && colMapping[t.mainCols[k]] == |t.mainCols| - 1 - k)
    && (forall c :: 0 <= c < sparseSize && c !in t.mainCols ==> colMapping[c] == -1)
  }

  method BuildMapping(t: Triangle, sparseSize: nat) returns (colMapping: seq<int>)
    requires |t.mainRows| == |t.mainCols| && Distinct(t.mainCols)
    requires forall k :: 0 <= k < |t.mainCols| ==> t.mainCols[k] < sparseSize
    ensures IsMapping(t, sparseSize, colMapping)
  {
    var m := |t.mainCols|;
    colMapping := seq(sparseSize, _ => -1);
    for i := 0 to m
      invariant |colMapping| == sparseSize
      invariant forall k :: m - i <= k < m ==> colMapping[t.mainCols[k]] == m - 1 - k
      invariant forall c :: 0 <= c < sparseSize && c !in t.mainCols ==> colMapping[c] == -1
    {
      colMapping := colMapping[t.mainCols[m - 1 - i] := i];
    }
  }

  // `row` holds, as columns of C, the main columns of the set `sum` of columns of H.
  ghost predicate Represents(t: Triangle, row: set<nat>, sum: set<nat>)
  {
    var m := |t.mainCols|;
    && (forall i :: i in row ==> i < m)
    && forall i :: 0 <= i < m ==> (i in row <==> t.mainCols[m - 1 - i] in sum)
  }

  lemma MappingSize(t: Triangle, sparseSize: nat, colMapping: seq<int>)
    requires IsMapping(t, sparseSize, colMapping)
    ensures |colMapping| == sparseSize
  {
  }

  // Toggling one column of H toggles its column of C, if it has one.
  lemma ToggleOne(t: Triangle, sparseSize: nat, colMapping: seq<int>, row: set<nat>, sum: set<nat>, x: nat)
    requires IsMapping(t, sparseSize, colMapping) && Distinct(t.mainCols) && x < sparseSize && Represents(t, row, sum)
    ensures var c := colMapping[x]; c == -1 || 0 <= c
    ensures var c := colMapping[x]; Represents(t, if c == -1 then row else Toggle(row, c), Toggle(sum, x))
  {
    if x in t.mainCols {
      var k :| 0 <= k < |t.mainCols| && t.mainCols[k] == x;
      ToggleAt(t, row, sum, k);
    }
  }

  lemma ToggleAt(t: Triangle, row: set<nat>, sum: set<nat>, k: nat)
    requires k < |t.mainCols| && Distinct(t.mainCols) && Represents(t, row, sum)
    ensures Represents(t, Toggle(row, |t.mainCols| - 1 - k), Toggle(sum, t.mainCols[k]))
  {
    var m := |t.mainCols|;
    var row', sum' := Toggle(row, m - 1 - k), Toggle(sum, t.mainCols[k]);
    forall i | 0 <= i < m ensures i in row' <==> t.mainCols[m - 1 - i] in sum' {
      assert i in row <==> t.mainCols[m - 1 - i] in sum;
      var k' := m - 1 - i;
      assert t.mainCols[k'] == t.mainCols[k] <==> k' == k;
    }
  }

  // The loop that inserts or xors one row of H, restricted to C, into the current row.
  method XorIntoRow(t: Triangle, sparseSize: nat, colMapping: seq<int>, cols: seq<nat>, row0: set<nat>,
      ghost sum: set<nat>) returns (row: set<nat>)
    requires IsMapping(t, sparseSize, colMapping) && Distinct(t.mainCols) && GoodRow(cols, sparseSize)
    requires Represents(t, row0, sum)
    ensures Represents(t, row, ToggleAll(sum, cols))
  {
    hide Represents, IsMapping;
    assert |colMapping| == sparseSize by { MappingSize(t, sparseSize, colMapping); }
    row := row0;
    var j := 0;
    assert cols[..0] == [];
    while j < |cols|
      invariant j <= |cols| && Represents(t, row, ToggleAll(sum, cols[..j]))
    {
      assert cols[..j + 1][..j] == cols[..j];
      ToggleOne(t, sparseSize, colMapping, row, ToggleAll(sum, cols[..j]), cols[j]);
      var c := colMapping[cols[j]];
      if c != -1 {
        row := if c in row then row - {c} else row + {c};
      }
      j := j + 1;
    }
    assert cols[..j] == cols;
  }

  lemma {:induction false} HasMax(s: set<nat>) returns (m: nat)
    requires s != {}
    ensures m in s && forall x :: x in s ==> x <= m
    decreases |s|
  {
    var x := SomeMember(s);
    var rest := s - {x};
    if rest == {} {
      m := x;
      assert forall y :: y in s ==> y in rest || y == x;
    } else {
      var r := HasMax(rest);
      m := if r < x then x else r;
      assert forall y :: y in s ==> y in rest || y == x;
    }
  }

  // The first element of a set ordered from greatest to least.
  method First(s: set<nat>) returns (m: nat)
    requires s != {}
    ensures m in s && forall x :: x in s ==> x <= m
  {
    ghost var w := HasMax(s);
    assert exists m: nat :: m in s && forall x :: x in s ==> x <= m;
    m :| m in s && forall x :: x in s ==> x <= m;
  }

  // No main row selected at step k contains an earlier main column; this is the assertion
  // that every column met is at most the one being cancelled.
  lemma LowerTriangular(rows: seq<seq<nat>>, sparseSize: nat, t: Triangle, colMapping: seq<int>, k: nat, j: nat)
    requires PartlyTriangular(rows, sparseSize, t) && GoodRows(rows, sparseSize)
    requires IsMapping(t, sparseSize, colMapping) && k < |t.mainRows|
    requires t.mainRows[k] < |rows| && j < |rows[t.mainRows[k]]|
    ensures rows[t.mainRows[k]][j] < sparseSize
    ensures colMapping[rows[t.mainRows[k]][j]] <= |t.mainRows| - 1 - k
  {
    assert MainOk(rows, t.mainRows, t.mainCols, k);
    assert GoodRow(rows[t.mainRows[k]], sparseSize);
    var c := rows[t.mainRows[k]][j];
    if c in t.mainCols {
      var k' :| 0 <= k' < |t.mainCols| && t.mainCols[k'] == c;
      assert k <= k';
    }
  }

  // Adding main row k = m - 1 - top to a row whose greatest entry is top removes top and
  // brings in smaller entries only.
  lemma TopCancelled(rows: seq<seq<nat>>, sparseSize: nat, t: Triangle, sum: set<nat>, row: set<nat>, row': set<nat>,
      top: nat)
    requires PartlyTriangular(rows, sparseSize, t) && GoodRows(rows, sparseSize)
    requires top < |t.mainCols| && t.mainRows[|t.mainCols| - 1 - top] < |rows|
    requires Represents(t, row, sum) && top in row && forall x :: x in row ==> x <= top
    requires Represents(t, row', ToggleAll(sum, rows[t.mainRows[|t.mainCols| - 1 - top]]))
    ensures forall x :: x in row' ==> x < top
  {
    var m := |t.mainCols|;
    var k := m - 1 - top;
    var cols := rows[t.mainRows[k]];
    assert MainOk(rows, t.mainRows, t.mainCols, k);
    assert GoodRow(cols, sparseSize);
    forall x: nat | top <= x < m ensures x !in row' {
      ToggleDistinct(sum, cols, t.mainCols[m - 1 - x]);
      assert x == top || x !in row;
    }
  }

  // What the elimination keeps: the list so far, and what is left of the gap row.
  ghost predicate Cancelling(rows: seq<seq<nat>>, t: Triangle, gap: nat, row: set<nat>, list: seq<nat>)
  {
    && gap < |rows| && (forall i :: 0 <= i < |list| ==> list[i] < |rows| && list[i] in t.mainRows)
    && Represents(t, row, XorRows(rows, [gap] + list))
  }

  method CancelTop(rows: seq<seq<nat>>, sparseSize: nat, t: Triangle, colMapping: seq<int>, ghost gap: nat,
      row: set<nat>, list: seq<nat>)
    returns (row': set<nat>, list': seq<nat>, ghost top: nat)
    requires PartlyTriangular(rows, sparseSize, t) && GoodRows(rows, sparseSize)
    requires IsMapping(t, sparseSize, colMapping) && row != {}
    requires Cancelling(rows, t, gap, row, list)
    ensures Cancelling(rows, t, gap, row', list')
    ensures top in row && forall x :: x in row' ==> x < top
  {
    var cCol := First(row);
    var m := |t.mainRows|;
    assert MainOk(rows, t.mainRows, t.mainCols, m - 1 - cCol);
    var hRow := t.mainRows[m - 1 - cCol];
    list' := list + [hRow];
    XorRowsStep(rows, gap, list, hRow);
    assert GoodRow(rows[hRow], sparseSize);
    row' := XorIntoRow(t, sparseSize, colMapping, rows[hRow], row, XorRows(rows, [gap] + list));
    TopCancelled(rows, sparseSize, t, XorRows(rows, [gap] + list), row, row', cCol);
    top := cCol;
  }

  /** The general case: cancel main columns from the greatest down. */
  method Eliminate(rows: seq<seq<nat>>, sparseSize: nat, t: Triangle, colMapping: seq<int>, gap: nat)
    returns (list: seq<nat>)
    requires PartlyTriangular(rows, sparseSize, t) && GoodRows(rows, sparseSize)
    requires IsMapping(t, sparseSize, colMapping) && gap < |rows|
    ensures ClearsMain(rows, t, gap, list)
  {
    var row: set<nat> := StartRow(rows, sparseSize, t, colMapping, gap);
    list := [];
    ghost var bound := |t.mainCols|;
    while row != {}
      invariant Cancelling(rows, t, gap, row, list)
      invariant forall x :: x in row ==> x < bound
      decreases bound
    {
      row, list, bound := CancelTop(rows, sparseSize, t, colMapping, gap, row, list);
    }
    forall k | 0 <= k < |t.mainCols| ensures t.mainCols[k] !in XorRows(rows, [gap] + list) {
      assert |t.mainCols| - 1 - k !in row;
    }
  }

  // The current row starts as the gap row restricted to the main columns. Its columns are
  // distinct, so inserting them is the same as toggling them.
  method StartRow(rows: seq<seq<nat>>, sparseSize: nat, t: Triangle, colMapping: seq<int>, gap: nat)
    returns (row: set<nat>)
    requires PartlyTriangular(rows, sparseSize, t) && GoodRows(rows, sparseSize)
    requires IsMapping(t, sparseSize, colMapping) && gap < |rows|
    ensures Cancelling(rows, t, gap, row, [])
    ensures forall x :: x in row ==> x < |t.mainCols|
  {
    assert [gap] + [] == [gap] && [gap][..0] == [];
    assert GoodRow(rows[gap], sparseSize);
    row := XorIntoRow(t, sparseSize, colMapping, rows[gap], {}, {});
  }

  /** getFCInv: for every gap row the main rows that cancel its main columns. */
  method GetFCInv(rows: seq<seq<nat>>, sparseSize: nat, t: Triangle) returns (mtx: seq<seq<nat>>)
    requires Triangular(rows, sparseSize, t) && GoodRows(rows, sparseSize)
    ensures |mtx| == |t.gapRows|
    ensures forall i :: 0 <= i < |mtx| ==> ClearsMain(rows, t, t.gapRows[i].0, mtx[i])
  {
    var colMapping := BuildMapping(t, sparseSize);
    mtx := [];
    for i := 0 to |t.gapRows|
      invariant |mtx| == i
      invariant forall q :: 0 <= q < i ==> ClearsMain(rows, t, t.gapRows[q].0, mtx[q])
    {
      var gap := t.gapRows[i];
      assert GapOk(rows, t.mainRows, t.mainCols, gap);
      ghost var k :| 0 <= k < |t.mainRows| && gap.1 == t.mainRows[k] && GapAt(rows, t.mainCols, gap.0, k);
      assert MainOk(rows, t.mainRows, t.mainCols, k);
      var list;
      if rows[gap.0] == rows[gap.1] {
        DuplicateClears(rows, sparseSize, t, gap);
        list := [gap.1];
      } else {
        list := Eliminate(rows, sparseSize, t, colMapping, gap.0);
      }
      mtx := mtx + [list];
    }
  }

  // The shortcut: a gap row with the columns of its main row cancels against it alone.
  lemma DuplicateClears(rows: seq<seq<nat>>, sparseSize: nat, t: Triangle, gap: (nat, nat))
    requires PartlyTriangular(rows, sparseSize, t) && GoodRows(rows, sparseSize)
    requires GapOk(rows, t.mainRows, t.mainCols, gap) && gap.1 < |rows| && rows[gap.0] == rows[gap.1]
    ensures ClearsMain(rows, t, gap.0, [gap.1])
  {
    XorRowsOne(rows, gap.0, sparseSize);
    assert [gap.0] + ([] + [gap.1]) == [gap.0] + [gap.1] && [gap.0] + [] == [gap.0];
    XorRowsStep(rows, gap.0, [], gap.1);
    assert GoodRow(rows[gap.1], sparseSize);
    forall k | 0 <= k < |t.mainCols| ensures t.mainCols[k] !in XorRows(rows, [gap.0] + [gap.1]) {
      ToggleDistinct(XorRows(rows, [gap.0]), rows[gap.1], t.mainCols[k]);
    }
  }

  // ----- The combination is unique -----

  // The rows listed an odd number of times.
  ghost function Odd(list: seq<nat>): set<nat>
  {
    if list == [] then {} else Toggle(Odd(list[..|list| - 1]), list[|list| - 1])
  }

  lemma {:induction false} OddListed(list: seq<nat>, x: nat)
    ensures x in Odd(list) ==> x in list
  {
    if list != [] {
      OddListed(list[..|list| - 1], x);
      assert list == list[..|list| - 1] + [list[|list| - 1]];
    }
  }

  lemma {:induction false} OddConcat(a: seq<nat>, b: seq<nat>, x: nat)
    ensures x in Odd(a + b) <==> (x in Odd(a)) != (x in Odd(b))
  {
    if b == [] {
      assert a + b == a;
    } else {
      OddConcat(a, b[..|b| - 1], x);
      assert (a + b)[..|a + b| - 1] == a + b[..|b| - 1];
    }
  }

  lemma {:induction false} XorConcat(rows: seq<seq<nat>>, sparseSize: nat, a: seq<nat>, b: seq<nat>, c: nat)
    requires GoodRows(rows, sparseSize) && forall i :: 0 <= i < |a + b| ==> (a + b)[i] < |rows|
    ensures forall i :: 0 <= i < |a| ==> a[i] < |rows|
    ensures forall i :: 0 <= i < |b| ==> b[i] < |rows|
    ensures c in XorRows(rows, a + b) <==> (c in XorRows(rows, a)) != (c in XorRows(rows, b))
  {
    assert forall i :: 0 <= i < |a| ==> (a + b)[i] == a[i];
    assert forall i :: 0 <= i < |b| ==> (a + b)[|a| + i] == b[i];
    if b == [] {
      assert a + b == a;
    } else {
      var init, z := b[..|b| - 1], b[|b| - 1];
      assert (a + b)[..|a + b| - 1] == a + init;
      assert forall i :: 0 <= i < |a + init| ==> (a + init)[i] == (a + b)[i];
      XorConcat(rows, sparseSize, a, init, c);
      assert GoodRow(rows[z], sparseSize);
      ToggleDistinct(XorRows(rows, a + init), rows[z], c);
      ToggleDistinct(XorRows(rows, init), rows[z], c);
    }
  }

  // The rows of s that contain column c.
  ghost function Holders(rows: seq<seq<nat>>, s: set<nat>, c: nat): set<nat>
  {
    set r | r in s && r < |rows| && c in rows[r]
  }

  lemma ToggleFlips(s: set<nat>, x: nat)
    ensures (|Toggle(s, x)| % 2 == 1) == (|s| % 2 != 1)
  {
    if x in s {
      assert s == Toggle(s, x) + {x};
    }
  }

  // Only rows listed an odd number of times decide what their exclusive-or contains.
  lemma {:induction false} XorParity(rows: seq<seq<nat>>, sparseSize: nat, list: seq<nat>, c: nat)
    requires GoodRows(rows, sparseSize) && forall i :: 0 <= i < |list| ==> list[i] < |rows|
    ensures c in XorRows(rows, list) <==> |Holders(rows, Odd(list), c)| % 2 == 1
  {
    if list != [] {
      var init, z := list[..|list| - 1], list[|list| - 1];
      XorParity(rows, sparseSize, init, c);
      assert GoodRow(rows[z], sparseSize);
      ToggleDistinct(XorRows(rows, init), rows[z], c);
      var before, after := Holders(rows, Odd(init), c), Holders(rows, Odd(list), c);
      if c in rows[z] {
        assert after == Toggle(before, z);
        ToggleFlips(before, z);
      } else {
        assert after == before;
      }
    }
  }

  // Of the main rows from f on, only row f contains main column f.
  lemma OnlyHolder(rows: seq<seq<nat>>, mainRows: seq<nat>, mainCols: seq<nat>, s: set<nat>, f: nat)
    requires |mainRows| == |mainCols| && forall k :: 0 <= k < |mainRows| ==> MainOk(rows, mainRows, mainCols, k)
    requires f < |mainRows| && mainRows[f] in s && forall q :: 0 <= q < f ==> mainRows[q] !in s
    requires forall r :: r in s ==> r in mainRows
    ensures Holders(rows, s, mainCols[f]) == {mainRows[f]}
  {
    assert MainOk(rows, mainRows, mainCols, f);
    forall r | r in Holders(rows, s, mainCols[f]) ensures r == mainRows[f] {
      var q :| 0 <= q < |mainRows| && mainRows[q] == r;
      assert MainOk(rows, mainRows, mainCols, q);
    }
  }

  // Main rows that cancel on every main column are listed an even number of times each.
  lemma ClearedIsEven(rows: seq<seq<nat>>, sparseSize: nat, t: Triangle, list: seq<nat>)
    requires GoodRows(rows, sparseSize) && PartlyTriangular(rows, sparseSize, t)
    requires forall i :: 0 <= i < |list| ==> list[i] < |rows| && list[i] in t.mainRows
    requires forall k :: 0 <= k < |t.mainCols| ==> t.mainCols[k] !in XorRows(rows, list)
    ensures Odd(list) == {}
  {
    hide XorRows, Odd, Holders, GoodRows, MainOk, GapOk, Triangle.Rows;
    forall x | x in Odd(list) ensures x in t.mainRows {
      OddListed(list, x);
    }
    forall x | x in Odd(list) ensures false {
      var k :| 0 <= k < |t.mainRows| && t.mainRows[k] == x;
      var f := FirstIn(t.mainRows, Odd(list), k);
      OnlyHolder(rows, t.mainRows, t.mainCols, Odd(list), f);
      XorParity(rows, sparseSize, list, t.mainCols[f]);
    }
  }

  /** Two gap rows with the same columns are cleared by the same main rows, up to repetition. */
  lemma SameCombination(rows: seq<seq<nat>>, sparseSize: nat, t: Triangle, g: nat, list: seq<nat>, g': nat,
      list': seq<nat>)
    requires GoodRows(rows, sparseSize) && PartlyTriangular(rows, sparseSize, t)
    requires ClearsMain(rows, t, g, list) && ClearsMain(rows, t, g', list') && rows[g] == rows[g']
    ensures Odd(list) == Odd(list')
  {
    var all := list + list';
    assert forall i :: 0 <= i < |all| ==> all[i] == if i < |list| then list[i] else list'[i - |list|];
    forall k | 0 <= k < |t.mainCols| ensures t.mainCols[k] !in XorRows(rows, all) {
      var c := t.mainCols[k];
      XorConcat(rows, sparseSize, list, list', c);
      XorConcat(rows, sparseSize, [g], list, c);
      XorConcat(rows, sparseSize, [g'], list', c);
      XorRowsOne(rows, g, sparseSize);
      XorRowsOne(rows, g', sparseSize);
    }
    ClearedIsEven(rows, sparseSize, t, all);
    forall x: nat ensures x in Odd(list) <==> x in Odd(list') {
      OddConcat(list, list', x);
    }
  }
}

/** Encoding: the dense system for the gap rows, then back substitution
    (backfillGf128, backfillBinary and encode in PaxosImpl.h). */
module Backfill {
  import opened Lists
  import opened Algebra
  import opened GaussJordan
  import opened Triangulation
  import opened FcInverse
  import opened Decoding
  import opened OkvsTheory
  import opened PaxosState

  // ----- The dense system -----

  // The entries of v at the chosen columns.
  function Select<T>(v: seq<T>, cols: seq<nat>): (s: seq<T>)
    requires forall j :: 0 <= j < |cols| ==> cols[j] < |v|
    ensures |s| == |cols|
  {
    seq(|cols|, j requires 0 <= j < |cols| => v[cols[j]])
  }

  lemma {:induction false} DotCongruence<K(!new), V(!new)>(sp: Space<K, V>, a: seq<K>, b: seq<K>, u: seq<V>,
      v: seq<V>, n: nat)
    requires n <= |a| && n <= |b| && n <= |u| && n <= |v|
    requires forall k :: 0 <= k < n ==> a[k] == b[k] && u[k] == v[k]
    ensures sp.Dot(a, u, n) == sp.Dot(b, v, n)
  {
    if n > 0 {
      DotCongruence(sp, a, b, u, v, n - 1);
    }
  }

  // Changing a zero entry of v adds one product.
  lemma {:induction false} DotUpdate<K(!new), V(!new)>(sp: Space<K, V>, row: seq<K>, v: seq<V>, c: nat, y: V, n: nat)
    requires sp.IsSpace() && n <= |row| && n <= |v| && c < |v| && c < |row| && v[c] == sp.nil
    ensures sp.Dot(row, v[c := y], n) ==
        if c < n then sp.Plus(sp.Dot(row, v, n), sp.Act(row[c], y)) else sp.Dot(row, v, n)
  {
    if n > 0 {
      DotUpdate(sp, row, v, c, y, n - 1);
      var a, x, z := sp.Dot(row, v, n - 1), sp.Act(row[c], y), sp.Act(row[n - 1], v[n - 1]);
      assert sp.ValueLaws(a, x, z) && sp.ValueLaws(a, z, x) && sp.ValueLaws(x, z, x);
      assert sp.ActLaws(row[c], row[c], y, y) && sp.ValueLaws(a, sp.nil, sp.nil);
    }
  }

  lemma ZeroOffInit<K(!new), V(!new)>(sp: Space<K, V>, v: seq<V>, cols: seq<nat>)
    requires cols != [] && Distinct(cols) && forall j :: 0 <= j < |cols| ==> cols[j] < |v|
    requires forall c: nat :: c < |v| && c !in cols ==> v[c] == sp.nil
    ensures var init, l := cols[..|cols| - 1], cols[|cols| - 1];
      Distinct(init) && l !in init && forall c: nat :: c < |v| && c !in init ==> v[l := sp.nil][c] == sp.nil
  {
    var init, l := cols[..|cols| - 1], cols[|cols| - 1];
    assert cols == init + [l];
  }

  // When v is zero off the chosen columns, only they contribute.
  lemma {:induction false} DotSelect<K(!new), V(!new)>(sp: Space<K, V>, row: seq<K>, v: seq<V>, cols: seq<nat>)
    requires sp.IsSpace() && |row| == |v| && Distinct(cols)
    requires forall j :: 0 <= j < |cols| ==> cols[j] < |v|
    requires forall c: nat :: c < |v| && c !in cols ==> v[c] == sp.nil
    ensures sp.Dot(row, v, |v|) == sp.Dot(Select(row, cols), Select(v, cols), |cols|)
    decreases |cols|
  {
    if cols == [] {
      sp.DotNil(row, v, |v|);
    } else {
      var init, l := cols[..|cols| - 1], cols[|cols| - 1];
      var v' := v[l := sp.nil];
      ZeroOffInit(sp, v, cols);
      hide Space.IsSpace;
      DotSelect(sp, row, v', init);
      DotUpdate(sp, row, v', l, v[l], |v|);
      assert v'[l := v[l]] == v;
      DotCongruence(sp, Select(row, init), Select(row, cols), Select(v', init), Select(v, cols), |init|);
    }
  }

  // The gap rows after their main columns have been eliminated: gap i and its main rows.
  ghost predicate GapLists<K(!new), V(!new)>(sys: System<K, V>, t: Triangle, lists: seq<seq<nat>>)
  {
    && sys.Good() && |lists| == |t.gapRows|
    && forall i :: 0 <= i < |lists| ==> ClearsMain(sys.rows, t, t.gapRows[i].0, lists[i])
  }

  // E' restricted to the chosen dense columns, and its right-hand side.
  ghost predicate GapMatrix<K(!new), V(!new)>(sys: System<K, V>, t: Triangle, lists: seq<seq<nat>>, gapCols: seq<nat>,
      ee: seq<seq<K>>)
  {
    && GapLists(sys, t, lists) && IsSquare(ee, |lists|) && |gapCols| == |lists|
    && (forall j :: 0 <= j < |gapCols| ==> gapCols[j] < sys.denseSize)
    && forall i :: 0 <= i < |lists| ==> ee[i] == Select(sys.SumCoeffs([t.gapRows[i].0] + lists[i]), gapCols)
  }

  // E' as a function of the triangle, the added main rows and the chosen columns.
  ghost function EPrimeOf<K(!new), V(!new)>(sys: System<K, V>, t: Triangle, lists: seq<seq<nat>>, gapCols: seq<nat>):
      (ee: seq<seq<K>>)
    requires GapLists(sys, t, lists) && |gapCols| == |lists|
    requires forall j :: 0 <= j < |gapCols| ==> gapCols[j] < sys.denseSize
    ensures GapMatrix(sys, t, lists, gapCols, ee)
  {
    seq(|lists|, i requires 0 <= i < |lists| =>
      assert ClearsMain(sys.rows, t, t.gapRows[i].0, lists[i]);
      Select(sys.SumCoeffs([t.gapRows[i].0] + lists[i]), gapCols))
  }

  lemma EPrimeUnique<K(!new), V(!new)>(sys: System<K, V>, t: Triangle, lists: seq<seq<nat>>, gapCols: seq<nat>,
      ee: seq<seq<K>>)
    requires GapMatrix(sys, t, lists, gapCols, ee)
    ensures ee == EPrimeOf(sys, t, lists, gapCols)
  {
    var want := EPrimeOf(sys, t, lists, gapCols);
    forall i | 0 <= i < |ee| ensures ee[i] == want[i] {
    }
  }

  ghost predicate GapValues<K(!new), V(!new)>(sys: System<K, V>, t: Triangle, lists: seq<seq<nat>>, xx: seq<V>)
  {
    && GapLists(sys, t, lists) && |xx| == |lists|
    && forall i :: 0 <= i < |lists| ==> xx[i] == sys.SumValues([t.gapRows[i].0] + lists[i])
  }

  // The dense part after multiplying the right-hand side by the inverse of E'.
  ghost predicate DensePart<K(!new), V(!new)>(sys: System<K, V>, gapCols: seq<nat>, inv: seq<seq<K>>, xx: seq<V>,
      p2: seq<V>)
  {
    && |p2| == sys.denseSize && IsSquare(inv, |gapCols|) && |xx| == |gapCols| && Distinct(gapCols)
    && (forall j :: 0 <= j < |gapCols| ==> gapCols[j] < |p2| && p2[gapCols[j]] == sys.sp.Dot(inv[j], xx, |xx|))
    && forall c: nat :: c < |p2| && c !in gapCols ==> p2[c] == sys.sp.nil
  }

  /** The dense part solves every eliminated gap row. */
  lemma DensePartSolvesGap<K(!new), V(!new)>(sys: System<K, V>, t: Triangle, lists: seq<seq<nat>>, gapCols: seq<nat>,
      ee: seq<seq<K>>, inv: seq<seq<K>>, xx: seq<V>, p2: seq<V>, i: nat)
    requires GapMatrix(sys, t, lists, gapCols, ee) && GapValues(sys, t, lists, xx) && i < |lists|
    requires IsInverse(sys.sp, |lists|, ee, inv) && DensePart(sys, gapCols, inv, xx, p2)
    ensures sys.GapSolved(t.gapRows[i].0, lists[i], p2)
  {
    var q := Select(p2, gapCols);
    var g := |lists|;
    forall j | 0 <= j < g ensures q[j] == MatVec(sys.sp, inv, xx, g)[j] {
    }
    assert q == MatVec(sys.sp, inv, xx, g);
    assert MatVec(sys.sp, ee, q, g) == xx;
    assert MatVec(sys.sp, ee, q, g)[i] == xx[i];
    assert ClearsMain(sys.rows, t, t.gapRows[i].0, lists[i]);
    DotSelect(sys.sp, sys.SumCoeffs([t.gapRows[i].0] + lists[i]), p2, gapCols);
  }

  /** Dense part and back substitution together solve the whole system. */
  lemma AllRowsSolved<K(!new), V(!new)>(sys: System<K, V>, t: Triangle, lists: seq<seq<nat>>, p: seq<V>)
    requires Triangular(sys.rows, sys.sparseSize, t) && GapLists(sys, t, lists) && sys.MainSolved(t, p, 0)
    requires forall i :: 0 <= i < |lists| ==> sys.GapSolved(t.gapRows[i].0, lists[i], p[sys.sparseSize..])
    ensures sys.Solved(p)
  {
    forall r | 0 <= r < |sys.rows| ensures sys.DecodeRow(p, r) == sys.values[r] {
      assert r in t.Rows();
      if r in t.mainRows {
        var q :| 0 <= q < |t.mainRows| && t.mainRows[q] == r;
      } else {
        var i := GapIndex(t, r);
        sys.GapRowSolved(t, p, r, lists[i]);
      }
    }
  }

  lemma GapIndex(t: Triangle, r: nat) returns (i: nat)
    requires r in t.Rows() && r !in t.mainRows
    ensures i < |t.gapRows| && t.gapRows[i].0 == r
  {
    var k :| 0 <= k < |t.Rows()| && t.Rows()[k] == r;
    i := k - |t.mainRows|;
  }

  // ----- Back substitution -----

  // Adds the sparse entries of a row to y.
  method AddSparse<K(!new), V(!new)>(sp: Space<K, V>, y0: V, cols: seq<nat>, p: array<V>) returns (y: V)
    requires sp.IsSpace() && forall j :: 0 <= j < |cols| ==> cols[j] < p.Length
    ensures y == sp.Plus(y0, SparseSum(sp, p[..], cols))
  {
    y := y0;
    assert sp.ValueLaws(y0, sp.nil, sp.nil) && cols[..0] == [];
    var j := 0;
    while j < |cols|
      invariant j <= |cols| && y == sp.Plus(y0, SparseSum(sp, p[..], cols[..j]))
    {
      assert cols[..j + 1][..j] == cols[..j];
      assert sp.ValueLaws(y0, SparseSum(sp, p[..], cols[..j]), p[cols[j]]);
      y := sp.Plus(y, p[cols[j]]);
      j := j + 1;
    }
    assert cols[..j] == cols;
  }

  // The coefficients of every row with the GF128 dense type.
  function PowerRows<K(!new), V(!new)>(sp: Space<K, V>, dense: seq<K>, m: nat): (s: seq<seq<K>>)
    ensures |s| == |dense|
    ensures forall i :: 0 <= i < |s| ==> |s[i]| == m
  {
    seq(|dense|, i requires 0 <= i < |dense| => Powers(sp, dense[i], m))
  }

  ghost predicate IsGf128System<K(!new), V(!new)>(sys: System<K, V>, dense: seq<K>)
  {
    sys.Good() && 0 < sys.denseSize && sys.coeffs == PowerRows(sys.sp, dense, sys.denseSize)
  }

  // The new value of main column k: everything but its own entry is already in place.
  method SubstituteGf128<K(!new), V(!new)>(sys: System<K, V>, dense: seq<K>, r: nat, p: array<V>, doDense: bool)
    returns (y: V)
    requires IsGf128System(sys, dense) && r < |sys.rows| && p.Length == sys.sparseSize + sys.denseSize
    requires !doDense ==> forall c :: sys.sparseSize <= c < p.Length ==> p[c] == sys.sp.nil
    ensures y == sys.sp.Plus(sys.values[r], sys.DecodeRow(p[..], r))
  {
    assert GoodRow(sys.rows[r], sys.sparseSize);
    y := AddSparse(sys.sp, sys.values[r], sys.rows[r], p);
    ghost var s := SparseSum(sys.sp, p[..], sys.rows[r]);
    ghost var d := sys.sp.Dot(sys.coeffs[r], p[..][sys.sparseSize..], sys.denseSize);
    assert sys.sp.ValueLaws(sys.values[r], s, d) && sys.sp.ValueLaws(s, sys.sp.nil, s);
    if doDense {
      y := AddDensePowers(sys.sp, y, dense[r], sys.denseSize, p[sys.sparseSize..]);
      assert p[sys.sparseSize..] == p[..][sys.sparseSize..];
    } else {
      sys.sp.DotNil(sys.coeffs[r], p[..][sys.sparseSize..], sys.denseSize);
    }
  }

  method BackSubstituteGf128<K(!new), V(!new)>(sys: System<K, V>, dense: seq<K>, t: Triangle, p: array<V>,
      doDense: bool)
    requires IsGf128System(sys, dense) && PartlyTriangular(sys.rows, sys.sparseSize, t)
    requires sys.MainSolved(t, p[..], |t.mainRows|)
    requires !doDense ==> forall c :: sys.sparseSize <= c < p.Length ==> p[c] == sys.sp.nil
    modifies p
    ensures sys.MainSolved(t, p[..], 0) && p[sys.sparseSize..] == old(p[sys.sparseSize..])
  {
    var k := |t.mainRows|;
    while k > 0
      invariant 0 <= k <= |t.mainRows| && sys.MainSolved(t, p[..], k)
      invariant p[sys.sparseSize..] == old(p[sys.sparseSize..])
    {
      k := k - 1;
      assert MainOk(sys.rows, t.mainRows, t.mainCols, k);
      var r, c := t.mainRows[k], t.mainCols[k];
      forall q | sys.sparseSize <= q < p.Length && !doDense ensures p[q] == sys.sp.nil {
        assert p[q] == p[sys.sparseSize..][q - sys.sparseSize];
      }
      var y := SubstituteGf128(sys, dense, r, p, doDense);
      sys.StepSolved(t, p[..], k, y);
      ghost var before := p[..];
      p[c] := y;
      assert p[..] == before[c := y];
    }
  }

  // ----- The gap with the GF128 dense type -----

  // d, d^2, ..., d^g computed by repeated multiplication.
  method PowersOf<K(!new), V(!new)>(sp: Space<K, V>, d: K, g: nat) returns (s: seq<K>)
    ensures s == Powers(sp, d, g)
  {
    s := [];
    if 0 < g {
      s := [d];
      var ej := d;
      var j := 1;
      while j < g
        invariant 1 <= j <= g && s == Powers(sp, d, j) && ej == s[j - 1]
      {
        ej := sp.Mul(ej, d);
        s := s + [ej];
        j := j + 1;
      }
    }
  }

  lemma SumCoeffsPrefixOne<K(!new), V(!new)>(sys: System<K, V>, gap: nat, g: nat)
    requires sys.Good() && gap < |sys.rows| && g <= sys.denseSize
    ensures sys.SumCoeffs([gap])[..g] == sys.coeffs[gap][..g]
    ensures sys.SumValues([gap]) == sys.values[gap]
  {
    assert [gap][..0] == [];
    forall k | 0 <= k < g ensures sys.SumCoeffs([gap])[k] == sys.coeffs[gap][k] {
      var x := sys.coeffs[gap][k];
      assert sys.sp.ScalarLaws(sys.sp.zero, x, x) && sys.sp.ScalarLaws(x, x, x);
    }
    var v := sys.values[gap];
    assert sys.sp.ValueLaws(sys.sp.nil, v, v) && sys.sp.ValueLaws(v, v, v);
  }

  lemma SumStep<K(!new), V(!new)>(sys: System<K, V>, gap: nat, list: seq<nat>, q: nat)
    requires sys.Good() && q < |list| && sys.Listed([gap] + list)
    ensures sys.Listed([gap] + list[..q]) && sys.Listed([gap] + list[..q + 1])
    ensures list[q] < |sys.rows|
    ensures forall k :: 0 <= k < sys.denseSize ==>
      sys.SumCoeffs([gap] + list[..q + 1])[k] == sys.sp.Add(sys.SumCoeffs([gap] + list[..q])[k], sys.coeffs[list[q]][k])
    ensures sys.SumValues([gap] + list[..q + 1]) == sys.sp.Plus(sys.SumValues([gap] + list[..q]), sys.values[list[q]])
  {
    var all := [gap] + list[..q + 1];
    assert all[..|all| - 1] == [gap] + list[..q];
    assert list[q] == ([gap] + list)[q + 1];
    forall i | 0 <= i < |all| ensures all[i] < |sys.rows| {
      assert all[i] == ([gap] + list)[i];
    }
    forall i | 0 <= i < |[gap] + list[..q]| ensures ([gap] + list[..q])[i] < |sys.rows| {
      assert ([gap] + list[..q])[i] == ([gap] + list)[i];
    }
  }

  // One row of E' and its right-hand side.
  method GapRowGf128<K(!new), V(!new)>(sys: System<K, V>, dense: seq<K>, gap: nat, list: seq<nat>, g: nat)
    returns (row: seq<K>, x: V)
    requires IsGf128System(sys, dense) && g <= sys.denseSize && sys.Listed([gap] + list) && gap < |sys.rows|
    ensures row == sys.SumCoeffs([gap] + list)[..g]
    ensures x == sys.SumValues([gap] + list)
  {
    row := PowersOf(sys.sp, dense[gap], g);
    PowersPrefix(sys.sp, dense[gap], g, sys.denseSize);
    x := sys.values[gap];
    SumCoeffsPrefixOne(sys, gap, g);
    assert [gap] + list[..0] == [gap];
    var q := 0;
    while q < |list|
      invariant 0 <= q <= |list| && sys.Listed([gap] + list[..q])
      invariant row == sys.SumCoeffs([gap] + list[..q])[..g]
      invariant x == sys.SumValues([gap] + list[..q])
    {
      SumStep(sys, gap, list, q);
      var d := PowersOf(sys.sp, dense[list[q]], g);
      PowersPrefix(sys.sp, dense[list[q]], g, sys.denseSize);
      var sum := AddRows(sys.sp, row, d);
      row := sum;
      x := sys.sp.Plus(x, sys.values[list[q]]);
      q := q + 1;
    }
    assert list[..q] == list;
  }

  method AddRows<K(!new), V(!new)>(sp: Space<K, V>, a: seq<K>, b: seq<K>) returns (s: seq<K>)
    requires |a| == |b|
    ensures |s| == |a| && forall k :: 0 <= k < |a| ==> s[k] == sp.Add(a[k], b[k])
  {
    s := seq(|a|, k requires 0 <= k < |a| => sp.Add(a[k], b[k]));
  }

  // The columns of the gap with the GF128 dense type: the first g dense columns.
  function FirstColumns(g: nat): (s: seq<nat>)
    ensures |s| == g && Distinct(s) && forall j :: 0 <= j < g ==> s[j] == j
  {
    seq(g, j => j)
  }

  // Row q of E' for the first dense columns, and its right-hand side.
  ghost predicate IsGapRow<K(!new), V(!new)>(sys: System<K, V>, t: Triangle, lists: seq<seq<nat>>, q: nat, row: seq<K>,
      x: V)
    requires GapLists(sys, t, lists) && q < |lists| <= sys.denseSize
  {
    && ClearsMain(sys.rows, t, t.gapRows[q].0, lists[q])
    && row == Select(sys.SumCoeffs([t.gapRows[q].0] + lists[q]), FirstColumns(|lists|))
    && x == sys.SumValues([t.gapRows[q].0] + lists[q])
  }

  lemma GapRowDone<K(!new), V(!new)>(sys: System<K, V>, t: Triangle, lists: seq<seq<nat>>, q: nat, row: seq<K>, x: V)
    requires GapLists(sys, t, lists) && q < |lists| <= sys.denseSize && t.gapRows[q].0 < |sys.rows|
    requires ClearsMain(sys.rows, t, t.gapRows[q].0, lists[q]) && sys.Listed([t.gapRows[q].0] + lists[q])
    requires row == sys.SumCoeffs([t.gapRows[q].0] + lists[q])[..|lists|]
    requires x == sys.SumValues([t.gapRows[q].0] + lists[q])
    ensures IsGapRow(sys, t, lists, q, row, x)
  {
    assert row == Select(sys.SumCoeffs([t.gapRows[q].0] + lists[q]), FirstColumns(|lists|));
  }

  lemma GapRowsTogether<K(!new), V(!new)>(sys: System<K, V>, t: Triangle, lists: seq<seq<nat>>, ee: seq<seq<K>>,
      xx: seq<V>)
    requires GapLists(sys, t, lists) && |ee| == |xx| == |lists| <= sys.denseSize
    requires forall q :: 0 <= q < |lists| ==> IsGapRow(sys, t, lists, q, ee[q], xx[q])
    ensures GapMatrix(sys, t, lists, FirstColumns(|lists|), ee) && GapValues(sys, t, lists, xx)
  {
    forall q | 0 <= q < |lists|
      ensures ClearsMain(sys.rows, t, t.gapRows[q].0, lists[q])
      ensures ee[q] == Select(sys.SumCoeffs([t.gapRows[q].0] + lists[q]), FirstColumns(|lists|))
      ensures xx[q] == sys.SumValues([t.gapRows[q].0] + lists[q])
    {
      assert IsGapRow(sys, t, lists, q, ee[q], xx[q]);
    }
  }

  method BuildGapGf128<K(!new), V(!new)>(sys: System<K, V>, dense: seq<K>, t: Triangle, lists: seq<seq<nat>>)
    returns (ee: seq<seq<K>>, xx: seq<V>)
    requires IsGf128System(sys, dense) && GapLists(sys, t, lists) && |lists| <= sys.denseSize
    ensures GapMatrix(sys, t, lists, FirstColumns(|lists|), ee) && GapValues(sys, t, lists, xx)
  {
    hide GapMatrix, GapValues, IsGapRow;
    var g := |lists|;
    ee, xx := [], [];
    var i := 0;
    while i < g
      invariant 0 <= i <= g && |ee| == i && |xx| == i
      invariant forall q :: 0 <= q < i ==> IsGapRow(sys, t, lists, q, ee[q], xx[q])
    {
      assert ClearsMain(sys.rows, t, t.gapRows[i].0, lists[i]);
      var row, x := GapRowGf128(sys, dense, t.gapRows[i].0, lists[i], g);
      GapRowDone(sys, t, lists, i, row, x);
      ee, xx := ee + [row], xx + [x];
      i := i + 1;
    }
    GapRowsTogether(sys, t, lists, ee, xx);
  }

  // The dense entries: row j of the inverse times the right-hand side, added to the zero entry
  // at the j-th chosen column.
  method FillDense<K(==, !new), V(!new)>(sys: System<K, V>, gapCols: seq<nat>, inv: seq<seq<K>>, xx: seq<V>,
      p: array<V>)
    requires sys.sp.IsSpace() && p.Length == sys.sparseSize + sys.denseSize
    requires IsSquare(inv, |gapCols|) && |xx| == |gapCols| && Distinct(gapCols)
    requires forall j :: 0 <= j < |gapCols| ==> gapCols[j] < sys.denseSize
    requires forall c :: 0 <= c < p.Length ==> p[c] == sys.sp.nil
    modifies p
    ensures DensePart(sys, gapCols, inv, xx, p[sys.sparseSize..])
    ensures forall c :: 0 <= c < sys.sparseSize ==> p[c] == sys.sp.nil
  {
    var i := 0;
    while i < |gapCols|
      invariant 0 <= i <= |gapCols|
      invariant forall j :: 0 <= j < i ==> p[sys.sparseSize + gapCols[j]] == sys.sp.Dot(inv[j], xx, |xx|)
      invariant forall c: nat :: c < p.Length && (forall j :: 0 <= j < i ==> c != sys.sparseSize + gapCols[j]) ==>
          p[c] == sys.sp.nil
    {
      var at := sys.sparseSize + gapCols[i];
      assert p[at] == sys.sp.nil;
      AccumulateRow(sys.sp, inv[i], xx, p, at);
      i := i + 1;
    }
    ghost var p2 := p[sys.sparseSize..];
    forall c: nat | c < |p2| && c !in gapCols ensures p2[c] == sys.sp.nil {
      assert p2[c] == p[sys.sparseSize + c];
    }
  }

  method AccumulateRow<K(==, !new), V(!new)>(sp: Space<K, V>, row: seq<K>, xx: seq<V>, p: array<V>, at: nat)
    requires sp.IsSpace() && |row| == |xx| && at < p.Length && p[at] == sp.nil
    modifies p
    ensures p[..] == old(p[..])[at := sp.Dot(row, xx, |xx|)]
  {
    ghost var before := p[..];
    var j := 0;
    while j < |xx|
      invariant 0 <= j <= |xx| && p[..] == before[at := sp.Dot(row, xx, j)]
    {
      assert p[at] == p[..][at];
      p[at] := sp.Plus(p[at], sp.Act(row[j], xx[j]));
      j := j + 1;
    }
  }

  // ----- Encoding with the GF128 dense type -----

  // What an encoding computes before the gap is solved: the triangle and, for every gap row, the
  // main rows added to it; or what it has triangulated when it meets two keys with the same dense
  // part, and the column it is taking.
  datatype Trace =
    | Complete(t: Triangle, lists: seq<seq<nat>>)
    | Interrupted(t: Triangle, col: nat)

  // The lists are computed only for a gap that is neither empty nor too large.
  ghost predicate Traced<K(!new), V(!new)>(sys: System<K, V>, limit: nat, tr: Trace)
  {
    && tr.Complete? && sys.Good() && Triangular(sys.rows, sys.sparseSize, tr.t)
    && (0 < |tr.t.gapRows| <= limit ==> GapLists(sys, tr.t, tr.lists))
  }

  function ErrorOf<T>(res: Result<T>): Option<Error>
  {
    if res.Ok? then None else Some(res.error)
  }

  // The error the gap of a trace leads to: the elimination of E' decides.
  ghost function GapError<K(!new), V(!new)>(sys: System<K, V>, tr: Trace): Option<Error>
    requires Traced(sys, sys.denseSize, tr)
  {
    var g := |tr.t.gapRows|;
    if sys.denseSize < g then Some(GapTooLarge)
    else if g == 0 then None
    else
      match Eliminated(sys.sp, g, EPrimeOf(sys, tr.t, tr.lists, FirstColumns(g)), g)
      case Reached(_, _) => None
      case OutOfPivots => Some(NotInvertible)
      case OutOfInverses => Some(InverseFailed)
  }

  // A gap is too large exactly if it exceeds the dense part, and an empty one is no error.
  lemma GapFits<K(!new), V(!new)>(sys: System<K, V>, tr: Trace)
    requires Traced(sys, sys.denseSize, tr)
    ensures GapError(sys, tr) == Some(GapTooLarge) <==> sys.denseSize < |tr.t.gapRows|
    ensures tr.t.gapRows == [] ==> GapError(sys, tr) == None
  {
  }

  /** A gap that fits is solved whenever E' is invertible, unless the elimination overlooks a pivot
      or does not find the inverse of one; and only then. */
  lemma GapSolvedIff<K(!new)>(sys: System<K, K>, tr: Trace)
    requires Traced(sys, sys.denseSize, tr) && 0 < |tr.t.gapRows| <= sys.denseSize
    requires IsSelfSpace(sys.sp) && sys.sp.one != sys.sp.zero
    ensures var g := |tr.t.gapRows|; var ee := EPrimeOf(sys, tr.t, tr.lists, FirstColumns(g));
      GapError(sys, tr) == None <==>
        && !IsSingular(sys.sp, g, ee)
        && (forall i: nat :: !Overlooks(sys.sp, g, ee, i))
        && forall i: nat :: !LacksInverse(sys.sp, g, ee, i)
  {
    hide IsSingular, Overlooks, LacksInverse, Eliminated;
    EmptyIff(sys.sp, |tr.t.gapRows|, EPrimeOf(sys, tr.t, tr.lists, FirstColumns(|tr.t.gapRows|)));
  }

  method SolveGapGf128<K(==, !new), V(!new)>(sys: System<K, V>, dense: seq<K>, t: Triangle, p: array<V>)
    returns (res: Result<()>, ghost lists: seq<seq<nat>>)
    requires IsGf128System(sys, dense) && Triangular(sys.rows, sys.sparseSize, t) && sys.sp.one != sys.sp.zero
    requires p.Length == sys.sparseSize + sys.denseSize && 0 < |t.gapRows| <= sys.denseSize
    requires forall c :: 0 <= c < p.Length ==> p[c] == sys.sp.nil
    modifies p
    ensures GapLists(sys, t, lists) && ErrorOf(res) == GapError(sys, Complete(t, lists))
    ensures res.Ok? ==> forall i :: 0 <= i < |lists| ==> sys.GapSolved(t.gapRows[i].0, lists[i], p[sys.sparseSize..])
    ensures res.Ok? ==> forall c :: 0 <= c < sys.sparseSize ==> p[c] == sys.sp.nil
  {
    hide Eliminated, Triangular;
    var fcinv := GetFCInv(sys.rows, sys.sparseSize, t);
    lists := fcinv;
    var ee, xx := BuildGapGf128(sys, dense, t, fcinv);
    EPrimeUnique(sys, t, fcinv, FirstColumns(|fcinv|), ee);
    var inv := InvertGf128(sys.sp, |fcinv|, ee);
    match inv {
      case NoPivot =>
        return Err(NotInvertible), lists;
      case CheckFailed =>
        return Err(InverseFailed), lists;
      case Inverse(rows) =>
        FillDense(sys, FirstColumns(|fcinv|), rows, xx, p);
        forall i | 0 <= i < |lists| ensures sys.GapSolved(t.gapRows[i].0, lists[i], p[sys.sparseSize..]) {
          DensePartSolvesGap(sys, t, lists, FirstColumns(|fcinv|), ee, rows, xx, p[sys.sparseSize..], i);
        }
        return Ok(()), lists;
    }
  }

  /** backfillGf128: it succeeds exactly if the gap fits the dense part and E' is eliminated, and
      then the output encodes the values. */
  method BackfillGf128<K(==, !new), V(!new)>(sys: System<K, V>, dense: seq<K>, t: Triangle, p: array<V>)
    returns (res: Result<()>, ghost lists: seq<seq<nat>>)
    requires IsGf128System(sys, dense) && Triangular(sys.rows, sys.sparseSize, t) && sys.sp.one != sys.sp.zero
    requires p.Length == sys.sparseSize + sys.denseSize
    requires forall c :: 0 <= c < p.Length ==> p[c] == sys.sp.nil
    modifies p
    ensures res.Ok? ==> sys.Solved(p[..])
    ensures Traced(sys, sys.denseSize, Complete(t, lists)) && ErrorOf(res) == GapError(sys, Complete(t, lists))
  {
    lists := [];
    if sys.denseSize < |t.gapRows| {
      return Err(GapTooLarge), lists;
    }
    if |t.gapRows| != 0 {
      res, lists := SolveGapGf128(sys, dense, t, p);
      if res.Err? {
        return;
      }
    }
    assert t.mainCols[|t.mainRows|..] == [];
    BackSubstituteGf128(sys, dense, t, p, |t.gapRows| != 0);
    assert p[..][sys.sparseSize..] == p[sys.sparseSize..];
    AllRowsSolved(sys, t, lists, p[..]);
    return Ok(()), lists;
  }

  method ZeroFill<V>(p: array<V>, nil: V)
    modifies p
    ensures forall c :: 0 <= c < p.Length ==> p[c] == nil
  {
    for c := 0 to p.Length
      invariant forall q :: 0 <= q < c ==> p[q] == nil
    {
      p[c] := nil;
    }
  }

  // How an encoding ends, by what it computes on the way. Rows that can be peeled away have no
  // gap and always succeed; two keys with the same dense part may be met while peeling the rest.
  ghost predicate EncodeEnds<K(!new), V(!new)>(sys: System<K, V>, dense: seq<K>, tr: Trace, err: Option<Error>)
  {
    match tr
    case Interrupted(t, col) =>
      && err.Some? && MeetsDuplicate(sys.rows, sys.sparseSize, dense, t, col, err.value)
      && IsDuplicate(dense, err.value) && HasCore(sys.rows)
    case Complete(t, _) =>
      && Traced(sys, sys.denseSize, tr) && err == GapError(sys, tr)
      && ByLeastWeight(sys.rows, sys.sparseSize, t) && DistinctGaps(dense, t.gapRows)
      && (t.gapRows == [] <==> !HasCore(sys.rows))
  }

  // The system behind some rows, for the GF128 dense type.
  function Gf128System<K(!new), V(!new)>(sp: Space<K, V>, rows: seq<seq<nat>>, dense: seq<K>, values: seq<V>,
      sparseSize: nat, denseSize: nat): System<K, V>
  {
    System(sp, rows, PowerRows(sp, dense, denseSize), values, sparseSize, denseSize)
  }

  /** encode with the GF128 dense type and no randomness: on success every key decodes to its
      value, and the keys can be encoded again. It succeeds exactly if the vector has the right
      size and what it computes goes through; rows without a core always do. */
  method EncodeGf128<K(==, !new), V(!new)>(px: Paxos<K>, sp: Space<K, V>, values: seq<V>, output: array<V>)
    returns (res: Result<()>, ghost tr: Trace)
    requires px.Valid() && px.Ready() && sp.IsSpace() && sp.one != sp.zero && 0 < px.denseSize
    requires |values| == px.numItems
    requires {output as object} !! {px.cols as object, px.colBacking as object, px.weightSets.nodes as object}
    modifies px.weightSets, px.weightSets.nodes, output
    ensures res.Ok? ==> px.Valid() && px.Ready()
    ensures res.Ok? ==> output.Length == px.sparseSize + px.denseSize
    ensures res.Ok? ==> Gf128System(sp, px.rows, px.dense, values, px.sparseSize, px.denseSize).Solved(output[..])
    ensures res == Err(SizeMismatch) <==> output.Length != px.sparseSize + px.denseSize
    ensures output.Length == px.sparseSize + px.denseSize ==>
      EncodeEnds(Gf128System(sp, px.rows, px.dense, values, px.sparseSize, px.denseSize), px.dense, tr, ErrorOf(res))
    ensures output.Length == px.sparseSize + px.denseSize && !HasCore(px.rows) ==> res.Ok?
  {
    hide HasCore, IsDuplicate, GapError, GapLists, EncodeEnds, ByLeastWeight, MeetsDuplicate, DistinctGaps;
    tr := Complete(Triangle([], [], []), []);
    if output.Length != px.sparseSize + px.denseSize {
      return Err(SizeMismatch), tr;
    }
    ghost var t0, c;
    var t;
    t, t0, c := px.Triangulate();
    if t.Err? {
      tr := Interrupted(t0, c);
      DuplicateEnds(Gf128System(sp, px.rows, px.dense, values, px.sparseSize, px.denseSize), px.dense, tr, t.error);
      return Err(t.error), tr;
    }
    ZeroFill(output, sp.nil);
    var sys := Gf128System(sp, px.rows, px.dense, values, px.sparseSize, px.denseSize);
    ghost var lists;
    res, lists := BackfillGf128(sys, px.dense, t.value, output);
    tr := Complete(t.value, lists);
    PeeledEnds(sys, px.dense, tr, ErrorOf(res));
  }

  lemma PeeledEnds<K(!new), V(!new)>(sys: System<K, V>, dense: seq<K>, tr: Trace, err: Option<Error>)
    requires Traced(sys, sys.denseSize, tr) && err == GapError(sys, tr)
    requires ByLeastWeight(sys.rows, sys.sparseSize, tr.t) && (tr.t.gapRows == [] <==> !HasCore(sys.rows))
    requires DistinctGaps(dense, tr.t.gapRows)
    ensures EncodeEnds(sys, dense, tr, err) && (!HasCore(sys.rows) ==> err == None) && err != Some(SizeMismatch)
  {
  }

  lemma DuplicateEnds<K(!new), V(!new)>(sys: System<K, V>, dense: seq<K>, tr: Trace, e: Error)
    requires HasCore(sys.rows) && IsDuplicate(dense, e) && tr.Interrupted?
    requires MeetsDuplicate(sys.rows, sys.sparseSize, dense, tr.t, tr.col, e)
    ensures EncodeEnds(sys, dense, tr, Some(e)) && e != SizeMismatch
  {
  }

  // ----- Exactly when an encoding succeeds -----

  /** E' depends on the triangle alone, whatever lists of main rows clear its gap rows; and so does
      the error it leads to. */
  lemma EPrimeOfTriangle<K(!new), V(!new)>(sys: System<K, V>, t: Triangle, lists: seq<seq<nat>>,
      lists': seq<seq<nat>>, gapCols: seq<nat>)
    requires PartlyTriangular(sys.rows, sys.sparseSize, t) && GapLists(sys, t, lists) && GapLists(sys, t, lists')
    requires |gapCols| == |lists| && forall j :: 0 <= j < |gapCols| ==> gapCols[j] < sys.denseSize
    ensures EPrimeOf(sys, t, lists, gapCols) == EPrimeOf(sys, t, lists', gapCols)
  {
    var ee, ee' := EPrimeOf(sys, t, lists, gapCols), EPrimeOf(sys, t, lists', gapCols);
    forall i | 0 <= i < |lists| ensures ee[i] == ee'[i] {
      var g := t.gapRows[i].0;
      assert ClearsMain(sys.rows, t, g, lists[i]) && ClearsMain(sys.rows, t, g, lists'[i]);
      sys.SameEliminated(t, g, lists[i], g, lists'[i]);
    }
  }

  lemma GapErrorOfTriangle<K(!new), V(!new)>(sys: System<K, V>, t: Triangle, lists: seq<seq<nat>>,
      lists': seq<seq<nat>>)
    requires Traced(sys, sys.denseSize, Complete(t, lists)) && Traced(sys, sys.denseSize, Complete(t, lists'))
    ensures GapError(sys, Complete(t, lists)) == GapError(sys, Complete(t, lists'))
  {
    var g := |t.gapRows|;
    if 0 < g <= sys.denseSize {
      EPrimeOfTriangle(sys, t, lists, lists', FirstColumns(g));
    }
  }

  // Two gap rows with the same columns and coefficients give equal rows of E'.
  lemma EqualGapRows<K(!new), V(!new)>(sys: System<K, V>, t: Triangle, lists: seq<seq<nat>>, gapCols: seq<nat>, p: nat,
      q: nat)
    requires PartlyTriangular(sys.rows, sys.sparseSize, t) && GapLists(sys, t, lists) && |gapCols| == |lists|
    requires forall j :: 0 <= j < |gapCols| ==> gapCols[j] < sys.denseSize
    requires p < |lists| && q < |lists| && t.gapRows[p].0 < |sys.rows| && t.gapRows[q].0 < |sys.rows|
    requires sys.rows[t.gapRows[p].0] == sys.rows[t.gapRows[q].0]
    requires sys.coeffs[t.gapRows[p].0] == sys.coeffs[t.gapRows[q].0]
    ensures EPrimeOf(sys, t, lists, gapCols)[p] == EPrimeOf(sys, t, lists, gapCols)[q]
  {
    assert ClearsMain(sys.rows, t, t.gapRows[p].0, lists[p]) && ClearsMain(sys.rows, t, t.gapRows[q].0, lists[q]);
    sys.SameEliminated(t, t.gapRows[p].0, lists[p], t.gapRows[q].0, lists[q]);
  }

  // Where triangulation has not met a repeated key, both its rows are in the gap.
  lemma RepeatedInGap<D>(rows: seq<seq<nat>>, sparseSize: nat, dense: seq<D>, t: Triangle, i: nat, j: nat)
    returns (p: nat, q: nat)
    requires Triangular(rows, sparseSize, t) && ByLeastWeight(rows, sparseSize, t) && DistinctGaps(dense, t.gapRows)
    requires i < |rows| && j < |rows| && i != j && rows[i] == rows[j]
    requires i < |dense| && j < |dense| && dense[i] == dense[j]
    ensures p < |t.gapRows| && q < |t.gapRows| && t.gapRows[p].0 == i && t.gapRows[q].0 == j
  {
    hide ByLeastWeight, PartlyTriangular;
    TakenTogether(rows, sparseSize, t, i, j);
    assert i in t.Rows();
    assert forall g :: 0 <= g < |t.gapRows| ==> t.gapRows[g] != (i, j) && t.gapRows[g] != (j, i);
    p :| 0 <= p < |t.gapRows| && t.gapRows[p].0 == i;
    q :| 0 <= q < |t.gapRows| && t.gapRows[q].0 == j;
  }

  /** A repeated key never encodes, whatever its values. */
  lemma RepeatedKeyFails<K(!new), V(!new)>(sys: System<K, V>, dense: seq<K>, tr: Trace, err: Option<Error>, i: nat,
      j: nat, x: V)
    requires EncodeEnds(sys, dense, tr, err) && x != sys.sp.nil
    requires i < |sys.rows| && j < |sys.rows| && i != j && sys.rows[i] == sys.rows[j]
    requires |dense| == |sys.coeffs| == |sys.rows| && dense[i] == dense[j] && sys.coeffs[i] == sys.coeffs[j]
    ensures err != None
  {
    hide ByLeastWeight, Eliminated, HasCore, DistinctGaps, MeetsDuplicate, IsDuplicate;
    if tr.Complete? {
      var g := |tr.t.gapRows|;
      var p, q := RepeatedInGap(sys.rows, sys.sparseSize, dense, tr.t, i, j);
      if g <= sys.denseSize {
        EqualGapRows(sys, tr.t, tr.lists, FirstColumns(g), p, q);
        EqualRowsStop(sys.sp, g, EPrimeOf(sys, tr.t, tr.lists, FirstColumns(g)), p, q, x);
      }
    }
  }

  /** Where the dense part determines the row, as for rows and dense parts hashed from a key, an
      encoding succeeds exactly if no dense part is repeated and the gap is solved. */
  lemma EncodesIff<K(!new), V(!new)>(sys: System<K, V>, dense: seq<K>, tr: Trace, err: Option<Error>, x: V)
    requires EncodeEnds(sys, dense, tr, err) && x != sys.sp.nil && |dense| == |sys.coeffs| == |sys.rows|
    requires forall i, j :: 0 <= i < |dense| && 0 <= j < |dense| && dense[i] == dense[j] ==>
      sys.rows[i] == sys.rows[j] && sys.coeffs[i] == sys.coeffs[j]
    ensures Distinct(dense) ==> tr.Complete?
    ensures err == None <==> Distinct(dense) && tr.Complete? && GapError(sys, tr) == None
  {
    hide ByLeastWeight, HasCore, DistinctGaps, MeetsDuplicate, GapError;
    if err == None {
      forall i, j | 0 <= i < j < |dense| ensures dense[i] != dense[j] {
        if dense[i] == dense[j] {
          RepeatedKeyFails(sys, dense, tr, err, i, j, x);
        }
      }
    }
  }
}

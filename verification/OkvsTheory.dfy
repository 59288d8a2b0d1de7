/** Why back substitution solves every row, main and gap. */
module OkvsTheory {
  import opened Lists
  import opened Algebra
  import opened Triangulation
  import opened FcInverse
  import opened Decoding

  // The system: sparse rows, the dense coefficients of each row, and the values to encode.
  datatype System<!K(!new), !V(!new)> = System(
    sp: Space<K, V>,
    rows: seq<seq<nat>>,
    coeffs: seq<seq<K>>,
    values: seq<V>,
    sparseSize: nat,
    denseSize: nat)
  {
    ghost predicate Good()
    {
      && sp.IsSpace() && GoodRows(rows, sparseSize)
      && |coeffs| == |rows| == |values|
      && forall i :: 0 <= i < |coeffs| ==> |coeffs[i]| == denseSize
    }

    ghost predicate Listed(list: seq<nat>)
    {
      forall i :: 0 <= i < |list| ==> list[i] < |rows|
    }

    function DecodeRow(p: seq<V>, i: nat): V
      requires Good() && |p| == sparseSize + denseSize && i < |rows|
    {
      assert GoodRow(rows[i], sparseSize);
      Decode(sp, rows[i], coeffs[i], p, sparseSize)
    }

    // p encodes the values: decoding any key gives its value.
    ghost predicate Solved(p: seq<V>)
    {
      Good() && |p| == sparseSize + denseSize && forall i :: 0 <= i < |rows| ==> DecodeRow(p, i) == values[i]
    }

    // ----- Sums over a list of rows -----

    function SumValues(list: seq<nat>): V
      requires Good() && Listed(list)
    {
      if list == [] then sp.nil else sp.Plus(SumValues(list[..|list| - 1]), values[list[|list| - 1]])
    }

    function SumDecodes(p: seq<V>, list: seq<nat>): V
      requires Good() && |p| == sparseSize + denseSize && Listed(list)
    {
      if list == [] then sp.nil else sp.Plus(SumDecodes(p, list[..|list| - 1]), DecodeRow(p, list[|list| - 1]))
    }

    // The sum of the dense coefficients of the listed rows.
    function SumCoeffs(list: seq<nat>): (s: seq<K>)
      requires Good() && Listed(list)
      ensures |s| == denseSize
    {
      if list == [] then seq(denseSize, _ => sp.zero) else
        var s := SumCoeffs(list[..|list| - 1]);
        seq(denseSize, k requires 0 <= k < denseSize => sp.Add(s[k], coeffs[list[|list| - 1]][k]))
    }

    // The sum of the entries of p below n at the columns of a set.
    ghost function SetSum(p: seq<V>, s: set<nat>, n: nat): V
      requires n <= |p|
    {
      if n == 0 then sp.nil
      else if n - 1 in s then sp.Plus(SetSum(p, s, n - 1), p[n - 1])
      else SetSum(p, s, n - 1)
    }

    lemma {:induction false} SetSumToggle(p: seq<V>, s: set<nat>, c: nat, n: nat)
      requires sp.IsSpace() && n <= |p|
      ensures SetSum(p, Toggle(s, c), n) == if c < n then sp.Plus(SetSum(p, s, n), p[c]) else SetSum(p, s, n)
    {
      if n > 0 {
        SetSumToggle(p, s, c, n - 1);
        var a, x, y := SetSum(p, s, n - 1), p[n - 1], if c < |p| then p[c] else p[0];
        assert sp.ValueLaws(a, x, y) && sp.ValueLaws(a, y, x) && sp.ValueLaws(x, y, x);
        assert sp.ValueLaws(a, x, x);
      }
    }

    lemma {:induction false} SetSumToggleAll(p: seq<V>, s: set<nat>, cols: seq<nat>, n: nat)
      requires sp.IsSpace() && n <= |p| && forall j :: 0 <= j < |cols| ==> cols[j] < n
      ensures SetSum(p, ToggleAll(s, cols), n) == sp.Plus(SetSum(p, s, n), SparseSum(sp, p, cols))
    {
      if cols == [] {
        assert sp.ValueLaws(SetSum(p, s, n), sp.nil, sp.nil);
      } else {
        var init, c := cols[..|cols| - 1], cols[|cols| - 1];
        SetSumToggleAll(p, s, init, n);
        SetSumToggle(p, ToggleAll(s, init), c, n);
        assert sp.ValueLaws(SetSum(p, s, n), SparseSum(sp, p, init), p[c]);
      }
    }

    lemma {:induction false} SetSumNil(p: seq<V>, s: set<nat>, n: nat)
      requires sp.IsSpace() && n <= |p| && forall c :: 0 <= c < n && c in s ==> p[c] == sp.nil
      ensures SetSum(p, s, n) == sp.nil
    {
      if n > 0 {
        SetSumNil(p, s, n - 1);
        assert sp.ValueLaws(sp.nil, sp.nil, sp.nil);
      }
    }

    // Summing decodes: the sparse parts meet in the xor of the rows, the dense parts in the
    // sum of the coefficients.
    lemma {:induction false} SumDecodesSplits(p: seq<V>, list: seq<nat>)
      requires Good() && |p| == sparseSize + denseSize && Listed(list)
      ensures SumDecodes(p, list) == sp.Plus(
        SetSum(p, XorRows(rows, list), sparseSize), sp.Dot(SumCoeffs(list), p[sparseSize..], denseSize))
    {
      var p2 := p[sparseSize..];
      if list == [] {
        sp.DotNil(SumCoeffs(list), p2, denseSize);
        SetSumNil(p, {}, sparseSize);
        assert sp.ValueLaws(sp.nil, sp.nil, sp.nil);
      } else {
        var init, r := list[..|list| - 1], list[|list| - 1];
        SumDecodesSplits(p, init);
        assert GoodRow(rows[r], sparseSize);
        SetSumToggleAll(p, XorRows(rows, init), rows[r], sparseSize);
        DotSum(SumCoeffs(init), coeffs[r], SumCoeffs(list), p2);
        sp.Swap4(SetSum(p, XorRows(rows, init), sparseSize), sp.Dot(SumCoeffs(init), p2, denseSize),
                 SparseSum(sp, p, rows[r]), sp.Dot(coeffs[r], p2, denseSize));
      }
    }

    lemma DotSum(a: seq<K>, b: seq<K>, s: seq<K>, v: seq<V>)
      requires sp.IsSpace() && |a| == |b| == |s| == |v| == denseSize
      requires forall k :: 0 <= k < denseSize ==> s[k] == sp.Add(a[k], b[k])
      ensures sp.Dot(s, v, denseSize) == sp.Plus(sp.Dot(a, v, denseSize), sp.Dot(b, v, denseSize))
    {
      forall k | 0 <= k < denseSize ensures s[k] == sp.Add(a[k], sp.Mul(b[k], sp.one)) {
        assert sp.ScalarLaws(b[k], sp.one, sp.one);
      }
      sp.DotAddScaled(a, b, s, sp.one, v, denseSize);
      var x := sp.Dot(b, v, denseSize);
      assert sp.ActLaws(sp.one, sp.one, x, x);
    }

    // ----- From main rows to all rows -----

    // Main rows k and later decode to their values, and all sparse columns but main columns k
    // and later are zero.
    ghost predicate MainSolved(t: Triangle, p: seq<V>, k: nat)
    {
      && Good() && |p| == sparseSize + denseSize && |t.mainRows| == |t.mainCols| && k <= |t.mainRows|
      && (forall q :: k <= q < |t.mainRows| ==>
        t.mainRows[q] < |rows| && DecodeRow(p, t.mainRows[q]) == values[t.mainRows[q]])
      && (forall c: nat :: c < sparseSize && c !in t.mainCols[k..] ==> p[c] == sp.nil)
    }

    // The dense entries solve the gap rows after their main columns have been eliminated.
    ghost predicate GapSolved(gap: nat, list: seq<nat>, p2: seq<V>)
    {
      && Good() && |p2| == denseSize && gap < |rows| && Listed([gap] + list)
      && sp.Dot(SumCoeffs([gap] + list), p2, denseSize) == SumValues([gap] + list)
    }

    lemma {:induction false} SumsAgree(p: seq<V>, gap: nat, list: seq<nat>)
      requires Good() && |p| == sparseSize + denseSize && gap < |rows| && Listed(list)
      requires forall i :: 0 <= i < |list| ==> DecodeRow(p, list[i]) == values[list[i]]
      requires SumDecodes(p, [gap] + list) == SumValues([gap] + list)
      ensures DecodeRow(p, gap) == values[gap]
    {
      var all := [gap] + list;
      if list == [] {
        assert all[..0] == [];
        var x, y := DecodeRow(p, gap), values[gap];
        assert sp.ValueLaws(sp.nil, x, x) && sp.ValueLaws(sp.nil, y, y);
        assert sp.ValueLaws(x, x, x) && sp.ValueLaws(y, y, y);
      } else {
        var init, r := list[..|list| - 1], list[|list| - 1];
        assert all[..|all| - 1] == [gap] + init;
        var a, b, x := SumDecodes(p, [gap] + init), SumValues([gap] + init), values[r];
        assert sp.ValueLaws(a, x, x) && sp.ValueLaws(b, x, x);
        assert sp.ValueLaws(x, x, x) && sp.ValueLaws(a, a, a) && sp.ValueLaws(b, b, b);
        SumsAgree(p, gap, init);
      }
    }

    /** If back substitution solved the main rows and the dense part solves the eliminated gap
        rows, then every key decodes to its value. */
    lemma GapRowSolved(t: Triangle, p: seq<V>, gap: nat, list: seq<nat>)
      requires MainSolved(t, p, 0)
      requires ClearsMain(rows, t, gap, list) && GapSolved(gap, list, p[sparseSize..])
      ensures DecodeRow(p, gap) == values[gap]
    {
      var all := [gap] + list;
      SumDecodesSplits(p, all);
      assert t.mainCols[0..] == t.mainCols;
      SetSumNil(p, XorRows(rows, all), sparseSize);
      var x := SumValues(all);
      assert sp.ValueLaws(sp.nil, x, x) && sp.ValueLaws(x, sp.nil, x);
      forall i | 0 <= i < |list| ensures DecodeRow(p, list[i]) == values[list[i]] {
        var q :| 0 <= q < |t.mainRows| && t.mainRows[q] == list[i];
      }
      SumsAgree(p, gap, list);
    }

    // ----- Sums depend on the rows listed an odd number of times -----

    // The k-th coefficients of the rows below n in s, added up.
    ghost function OddCoeff(s: set<nat>, k: nat, n: nat): K
      requires Good() && k < denseSize && n <= |rows|
    {
      if n == 0 then sp.zero
      else if n - 1 in s then sp.Add(OddCoeff(s, k, n - 1), coeffs[n - 1][k])
      else OddCoeff(s, k, n - 1)
    }

    lemma {:induction false} OddCoeffToggle(s: set<nat>, r: nat, k: nat, n: nat)
      requires Good() && k < denseSize && n <= |rows| && r < |rows|
      ensures OddCoeff(Toggle(s, r), k, n) ==
          if r < n then sp.Add(OddCoeff(s, k, n), coeffs[r][k]) else OddCoeff(s, k, n)
    {
      if n > 0 {
        OddCoeffToggle(s, r, k, n - 1);
        var a, x, y := OddCoeff(s, k, n - 1), coeffs[n - 1][k], coeffs[r][k];
        assert sp.ScalarLaws(a, x, y) && sp.ScalarLaws(a, y, x) && sp.ScalarLaws(x, y, x) && sp.ScalarLaws(a, x, x);
      }
    }

    lemma {:induction false} OddCoeffNone(k: nat, n: nat)
      requires Good() && k < denseSize && n <= |rows|
      ensures OddCoeff({}, k, n) == sp.zero
    {
      if n > 0 {
        OddCoeffNone(k, n - 1);
      }
    }

    lemma {:induction false} SumIsOdd(list: seq<nat>, k: nat)
      requires Good() && Listed(list) && k < denseSize
      ensures SumCoeffs(list)[k] == OddCoeff(Odd(list), k, |rows|)
    {
      if list == [] {
        OddCoeffNone(k, |rows|);
      } else {
        var init, r := list[..|list| - 1], list[|list| - 1];
        SumIsOdd(init, k);
        OddCoeffToggle(Odd(init), r, k, |rows|);
      }
    }

    lemma {:induction false} SumHead(g: nat, list: seq<nat>, k: nat)
      requires Good() && g < |rows| && Listed(list) && Listed([g] + list) && k < denseSize
      ensures SumCoeffs([g] + list)[k] == sp.Add(coeffs[g][k], SumCoeffs(list)[k])
    {
      if list == [] {
        assert [g] + list == [g] && [g][..0] == [];
        assert sp.ScalarLaws(sp.zero, coeffs[g][k], sp.zero);
      } else {
        var init, r := list[..|list| - 1], list[|list| - 1];
        assert ([g] + list)[..|list|] == [g] + init;
        assert forall i :: 0 <= i < |[g] + init| ==> ([g] + init)[i] == ([g] + list)[i];
        SumHead(g, init, k);
        assert sp.ScalarLaws(coeffs[g][k], SumCoeffs(init)[k], coeffs[r][k]);
      }
    }

    /** Two gap rows with the same columns and coefficients have the same eliminated row, whatever
        lists of main rows clear them. */
    lemma SameEliminated(t: Triangle, g: nat, list: seq<nat>, g': nat, list': seq<nat>)
      requires Good() && PartlyTriangular(rows, sparseSize, t)
      requires ClearsMain(rows, t, g, list) && ClearsMain(rows, t, g', list')
      requires rows[g] == rows[g'] && coeffs[g] == coeffs[g']
      ensures Listed([g] + list) && Listed([g'] + list') && SumCoeffs([g] + list) == SumCoeffs([g'] + list')
    {
      SameCombination(rows, sparseSize, t, g, list, g', list');
      forall k | 0 <= k < denseSize ensures SumCoeffs([g] + list)[k] == SumCoeffs([g'] + list')[k] {
        SumHead(g, list, k);
        SumHead(g', list', k);
        SumIsOdd(list, k);
        SumIsOdd(list', k);
      }
    }

    // ----- One step of back substitution -----

    lemma {:induction false} SparseSumUpdate(p: seq<V>, c: nat, y: V, cols: seq<nat>)
      requires sp.IsSpace() && c < |p| && p[c] == sp.nil && Distinct(cols)
      requires forall j :: 0 <= j < |cols| ==> cols[j] < |p|
      ensures SparseSum(sp, p[c := y], cols)
           == if c in cols then sp.Plus(SparseSum(sp, p, cols), y) else SparseSum(sp, p, cols)
    {
      if cols != [] {
        var init, l := cols[..|cols| - 1], cols[|cols| - 1];
        assert cols == init + [l] && l !in init;
        SparseSumUpdate(p, c, y, init);
        var a := SparseSum(sp, p, init);
        assert sp.ValueLaws(a, y, p[l]) && sp.ValueLaws(a, p[l], y) && sp.ValueLaws(y, p[l], y);
        assert sp.ValueLaws(a, sp.nil, sp.nil);
      }
    }

    lemma DecodeUpdate(p: seq<V>, c: nat, y: V, i: nat)
      requires Good() && |p| == sparseSize + denseSize && i < |rows| && c < sparseSize && p[c] == sp.nil
      ensures DecodeRow(p[c := y], i) == if c in rows[i] then sp.Plus(DecodeRow(p, i), y) else DecodeRow(p, i)
    {
      assert GoodRow(rows[i], sparseSize);
      SparseSumUpdate(p, c, y, rows[i]);
      assert p[c := y][sparseSize..] == p[sparseSize..];
      var a, d := SparseSum(sp, p, rows[i]), sp.Dot(coeffs[i], p[sparseSize..], denseSize);
      assert sp.ValueLaws(a, y, d) && sp.ValueLaws(a, d, y) && sp.ValueLaws(y, d, y);
    }

    // Assigning main column k the difference between the value of its row and what the row
    // decodes to so far solves row k and disturbs no later row.
    lemma StepSolved(t: Triangle, p: seq<V>, k: nat, y: V)
      requires PartlyTriangular(rows, sparseSize, t) && k < |t.mainRows| && MainSolved(t, p, k + 1)
      requires t.mainRows[k] < |rows| && y == sp.Plus(values[t.mainRows[k]], DecodeRow(p, t.mainRows[k]))
      ensures t.mainCols[k] < sparseSize && MainSolved(t, p[t.mainCols[k] := y], k)
    {
      var c, r := t.mainCols[k], t.mainRows[k];
      assert c !in t.mainCols[k + 1..];
      assert t.mainCols[k..] == [c] + t.mainCols[k + 1..];
      assert MainOk(rows, t.mainRows, t.mainCols, k);
      DecodeUpdate(p, c, y, r);
      var a, x := DecodeRow(p, r), values[r];
      assert sp.ValueLaws(x, a, a) && sp.ValueLaws(a, y, a) && sp.ValueLaws(a, a, x) && sp.ValueLaws(x, sp.nil, x);
      forall q | k < q < |t.mainRows| ensures DecodeRow(p[c := y], t.mainRows[q]) == values[t.mainRows[q]] {
        assert MainOk(rows, t.mainRows, t.mainCols, q);
        DecodeUpdate(p, c, y, t.mainRows[q]);
      }
    }
  }
}

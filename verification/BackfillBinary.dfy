/** Encoding with the Binary dense type: the gap columns are searched for among the dense
    columns (getGapCols, getX2Prime, getEPrime and backfillBinary in PaxosImpl.h). */
module BackfillBinary {
  import opened Lists
  import opened Algebra
  import opened GaussJordan
  import opened Triangulation
  import opened FcInverse
  import opened Decoding
  import opened OkvsTheory
  import opened PaxosState
  import opened Backfill
  import opened Combination

  // The dense part of a key is a block of bits; its first denseSize bits are coefficients.
  function BitRows(dense: seq<seq<bool>>, m: nat): (s: seq<seq<bool>>)
    requires forall i :: 0 <= i < |dense| ==> m <= |dense[i]|
    ensures |s| == |dense| && forall i :: 0 <= i < |s| ==> |s[i]| == m
  {
    seq(|dense|, i requires 0 <= i < |dense| => dense[i][..m])
  }

  ghost predicate IsBinarySystem<V(!new)>(sys: System<bool, V>, self: Space<bool, bool>)
  {
    sys.Good() && BitSpaces(sys.sp, self)
  }

  ghost predicate ChoiceFails<V(!new)>(sys: System<bool, V>, self: Space<bool, bool>, t: Triangle,
      lists: seq<seq<nat>>, cols: seq<nat>)
    requires GapLists(sys, t, lists) && IsSubset(cols, sys.denseSize, |lists|)
  {
    IsSingular(self, |lists|, EPrimeOf(sys, t, lists, cols))
  }

  // The dense bits of a gap row with those of its main rows xored in.
  method GapBits<V(!new)>(sys: System<bool, V>, ghost self: Space<bool, bool>, gap: nat, list: seq<nat>)
    returns (row: seq<bool>)
    requires IsBinarySystem(sys, self) && gap < |sys.rows| && sys.Listed([gap] + list)
    ensures row == sys.SumCoeffs([gap] + list)
  {
    row := sys.coeffs[gap];
    SumCoeffsPrefixOne(sys, gap, sys.denseSize);
    assert sys.coeffs[gap][..sys.denseSize] == sys.coeffs[gap];
    assert [gap] + list[..0] == [gap];
    var q := 0;
    while q < |list|
      invariant 0 <= q <= |list| && sys.Listed([gap] + list[..q])
      invariant row == sys.SumCoeffs([gap] + list[..q])
    {
      SumStep(sys, gap, list, q);
      row := AddRows(sys.sp, row, sys.coeffs[list[q]]);
      q := q + 1;
    }
    assert list[..q] == list;
  }

  /** getEPrime. */
  method GetEPrime<V(!new)>(sys: System<bool, V>, ghost self: Space<bool, bool>, t: Triangle, lists: seq<seq<nat>>,
      gapCols: seq<nat>) returns (ee: seq<seq<bool>>)
    requires IsBinarySystem(sys, self) && GapLists(sys, t, lists) && IsSubset(gapCols, sys.denseSize, |lists|)
    ensures ee == EPrimeOf(sys, t, lists, gapCols)
  {
    ee := [];
    ghost var want := EPrimeOf(sys, t, lists, gapCols);
    for i := 0 to |lists|
      invariant |ee| == i && forall q :: 0 <= q < i ==> ee[q] == want[q]
    {
      assert ClearsMain(sys.rows, t, t.gapRows[i].0, lists[i]);
      var row := GapBits(sys, self, t.gapRows[i].0, lists[i]);
      ee := ee + [Select(row, gapCols)];
    }
  }

  /** getX2Prime without randomness. */
  method GetX2Prime<V(!new)>(sys: System<bool, V>, t: Triangle, lists: seq<seq<nat>>) returns (xx: seq<V>)
    requires GapLists(sys, t, lists)
    ensures GapValues(sys, t, lists, xx)
  {
    xx := [];
    for i := 0 to |lists|
      invariant |xx| == i
      invariant forall q :: 0 <= q < i ==>
        ClearsMain(sys.rows, t, t.gapRows[q].0, lists[q]) && xx[q] == sys.SumValues([t.gapRows[q].0] + lists[q])
    {
      assert ClearsMain(sys.rows, t, t.gapRows[i].0, lists[i]);
      var gap, list := t.gapRows[i].0, lists[i];
      var x := sys.values[gap];
      SumCoeffsPrefixOne(sys, gap, 0);
      assert [gap] + list[..0] == [gap];
      var q := 0;
      while q < |list|
        invariant 0 <= q <= |list| && sys.Listed([gap] + list[..q]) && x == sys.SumValues([gap] + list[..q])
      {
        SumStep(sys, gap, list, q);
        x := sys.sp.Plus(x, sys.values[list[q]]);
        q := q + 1;
      }
      assert list[..q] == list;
      xx := xx + [x];
    }
  }

  lemma ChoiceSingular<V(!new)>(sys: System<bool, V>, self: Space<bool, bool>, t: Triangle, lists: seq<seq<nat>>,
      cols: seq<nat>)
    requires GapLists(sys, t, lists) && IsSubset(cols, sys.denseSize, |lists|)
    ensures ChoiceFails(sys, self, t, lists, cols) <==> IsSingular(self, |lists|, EPrimeOf(sys, t, lists, cols))
  {
  }

  /** getGapCols: tries the subsets of dense columns one after the other. It succeeds with the
      first columns for which E' is invertible, and fails only when there are none. */
  method GetGapCols<V(!new)>(sys: System<bool, V>, ghost self: Space<bool, bool>, t: Triangle, lists: seq<seq<nat>>)
    returns (res: Option<seq<nat>>)
    requires IsBinarySystem(sys, self) && GapLists(sys, t, lists) && |lists| <= sys.denseSize
    ensures res.Some? ==> IsSubset(res.value, sys.denseSize, |lists|) && !ChoiceFails(sys, self, t, lists, res.value)
    ensures res.None? ==> forall cols | IsSubset(cols, sys.denseSize, |lists|) :: ChoiceFails(sys, self, t, lists, cols)
    ensures res.Some? ==> forall cols | IsSubset(cols, sys.denseSize, |lists|) :: Rank(cols) < Rank(res.value) ==>
      ChoiceFails(sys, self, t, lists, cols)
  {
    hide ChoiceFails, GapLists, Rank, IsSingular;
    var g := |lists|;
    var e := Choose(sys.denseSize, g);
    var ci := 0;
    while ci < e
      invariant 0 <= ci <= e
      invariant forall cols | IsSubset(cols, sys.denseSize, g) :: Rank(cols) < ci ==>
          ChoiceFails(sys, self, t, lists, cols)
    {
      var gapCols := IthCombination(ci, sys.denseSize, g);
      var ee := GetEPrime(sys, self, t, lists, gapCols);
      var inv := InvertBits(sys.sp, self, g, ee);
      ChoiceSingular(sys, self, t, lists, gapCols);
      if inv.Inverse? {
        return Some(gapCols);
      }
      forall cols | IsSubset(cols, sys.denseSize, g) && Rank(cols) == ci ensures cols == gapCols {
        RankInjective(cols, gapCols, sys.denseSize, g);
      }
      ci := ci + 1;
    }
    forall cols | IsSubset(cols, sys.denseSize, g) ensures ChoiceFails(sys, self, t, lists, cols) {
      RankBound(cols, sys.denseSize, g);
    }
    return None;
  }

  // Adds the right-hand side entries selected by a row of bits to the zero entry at `at`.
  method AccumulateBits<V(!new)>(sp: Space<bool, V>, row: seq<bool>, xx: seq<V>, p: array<V>, at: nat)
    requires sp.IsSpace() && !sp.zero && sp.one && |row| == |xx| && at < p.Length && p[at] == sp.nil
    modifies p
    ensures p[..] == old(p[..])[at := sp.Dot(row, xx, |xx|)]
  {
    ghost var before := p[..];
    for j := 0 to |xx|
      invariant p[..] == before[at := sp.Dot(row, xx, j)]
    {
      assert p[at] == p[..][at];
      assert sp.ActLaws(true, true, xx[j], xx[j]) && sp.ValueLaws(p[at], sp.nil, sp.nil);
      if row[j] {
        p[at] := sp.Plus(p[at], xx[j]);
      }
    }
  }

  method FillDenseBits<V(!new)>(sys: System<bool, V>, ghost self: Space<bool, bool>, gapCols: seq<nat>,
      inv: seq<seq<bool>>, xx: seq<V>, p: array<V>)
    requires IsBinarySystem(sys, self) && p.Length == sys.sparseSize + sys.denseSize
    requires IsSquare(inv, |gapCols|) && |xx| == |gapCols| && IsSubset(gapCols, sys.denseSize, |gapCols|)
    requires forall c :: 0 <= c < p.Length ==> p[c] == sys.sp.nil
    modifies p
    ensures DensePart(sys, gapCols, inv, xx, p[sys.sparseSize..])
    ensures forall c :: 0 <= c < sys.sparseSize ==> p[c] == sys.sp.nil
  {
    for i := 0 to |gapCols|
      invariant forall j :: 0 <= j < i ==> p[sys.sparseSize + gapCols[j]] == sys.sp.Dot(inv[j], xx, |xx|)
      invariant forall c: nat :: c < p.Length && (forall j :: 0 <= j < i ==> c != sys.sparseSize + gapCols[j]) ==>
          p[c] == sys.sp.nil
    {
      var at := sys.sparseSize + gapCols[i];
      assert p[at] == sys.sp.nil;
      AccumulateBits(sys.sp, inv[i], xx, p, at);
    }
    ghost var p2 := p[sys.sparseSize..];
    forall c: nat | c < |p2| && c !in gapCols ensures p2[c] == sys.sp.nil {
      assert p2[c] == p[sys.sparseSize + c];
    }
  }

  // Dense entries are zero off the gap columns.
  ghost predicate ZeroOffGap<V(!new)>(sys: System<bool, V>, gapCols: seq<nat>, p2: seq<V>)
  {
    && |p2| == sys.denseSize && IsSubset(gapCols, |p2|, |gapCols|)
    && forall c: nat :: c < |p2| && c !in gapCols ==> p2[c] == sys.sp.nil
  }

  // The loop that adds the dense entries a row's bits select among the gap columns.
  method AddMasked<V(!new)>(sys: System<bool, V>, ghost self: Space<bool, bool>, y0: V, bits: seq<bool>,
      gapCols: seq<nat>, p2: seq<V>) returns (y: V)
    requires IsBinarySystem(sys, self) && |bits| == sys.denseSize && ZeroOffGap(sys, gapCols, p2)
    ensures y == sys.sp.Plus(y0, sys.sp.Dot(bits, p2, sys.denseSize))
  {
    var sp := sys.sp;
    ghost var a, v := Select(bits, gapCols), Select(p2, gapCols);
    y := y0;
    assert sp.ValueLaws(y0, sp.nil, sp.nil);
    for j := 0 to |gapCols|
      invariant y == sp.Plus(y0, sp.Dot(a, v, j))
    {
      assert sp.ActLaws(true, true, v[j], v[j]) && sp.ValueLaws(sp.Dot(a, v, j), sp.nil, sp.nil);
      assert sp.ValueLaws(y0, sp.Dot(a, v, j), v[j]);
      if bits[gapCols[j]] {
        y := sp.Plus(y, p2[gapCols[j]]);
      }
    }
    DotSelect(sp, bits, p2, gapCols);
  }

  method SubstituteBinary<V(!new)>(sys: System<bool, V>, ghost self: Space<bool, bool>, r: nat, gapCols: seq<nat>,
      p: array<V>) returns (y: V)
    requires IsBinarySystem(sys, self) && r < |sys.rows| && p.Length == sys.sparseSize + sys.denseSize
    requires ZeroOffGap(sys, gapCols, p[sys.sparseSize..])
    ensures y == sys.sp.Plus(sys.values[r], sys.DecodeRow(p[..], r))
  {
    assert GoodRow(sys.rows[r], sys.sparseSize);
    y := AddSparse(sys.sp, sys.values[r], sys.rows[r], p);
    ghost var s := SparseSum(sys.sp, p[..], sys.rows[r]);
    ghost var d := sys.sp.Dot(sys.coeffs[r], p[..][sys.sparseSize..], sys.denseSize);
    assert sys.sp.ValueLaws(sys.values[r], s, d);
    y := AddMasked(sys, self, y, sys.coeffs[r], gapCols, p[sys.sparseSize..]);
    assert p[sys.sparseSize..] == p[..][sys.sparseSize..];
  }

  method BackSubstituteBinary<V(!new)>(sys: System<bool, V>, ghost self: Space<bool, bool>, t: Triangle,
      gapCols: seq<nat>, p: array<V>)
    requires IsBinarySystem(sys, self) && PartlyTriangular(sys.rows, sys.sparseSize, t)
    requires sys.MainSolved(t, p[..], |t.mainRows|) && ZeroOffGap(sys, gapCols, p[sys.sparseSize..])
    modifies p
    ensures sys.MainSolved(t, p[..], 0) && p[sys.sparseSize..] == old(p[sys.sparseSize..])
  {
    var k := |t.mainRows|;
    while k > 0
      invariant 0 <= k <= |t.mainRows| && sys.MainSolved(t, p[..], k)
      invariant p[sys.sparseSize..] == old(p[sys.sparseSize..])
    {
      k := k - 1;
      assert MainOk(sys.rows, t.mainRows, t.mainCols, k);
      var r, c := t.mainRows[k], t.mainCols[k];
      var y := SubstituteBinary(sys, self, r, gapCols, p);
      sys.StepSolved(t, p[..], k, y);
      ghost var before := p[..];
      p[c] := y;
      assert p[..] == before[c := y];
    }
  }

  // The error the gap of a trace leads to: some choice of gap columns has to make E' invertible.
  ghost function GapErrorBits<V(!new)>(sys: System<bool, V>, self: Space<bool, bool>, gapLimit: nat, tr: Trace):
      Option<Error>
    requires Traced(sys, gapLimit, tr)
  {
    var g := |tr.t.gapRows|;
    if gapLimit < g then Some(GapTooLarge)
    else if g == 0 then None
    else if exists cols :: IsSubset(cols, sys.denseSize, g) && !ChoiceFails(sys, self, tr.t, tr.lists, cols) then None
    else Some(NotInvertible)
  }

  method SolveGapBinary<V(!new)>(sys: System<bool, V>, ghost self: Space<bool, bool>, ghost gapLimit: nat, t: Triangle,
      p: array<V>) returns (res: Result<seq<nat>>, ghost lists: seq<seq<nat>>)
    requires IsBinarySystem(sys, self) && Triangular(sys.rows, sys.sparseSize, t)
    requires p.Length == sys.sparseSize + sys.denseSize && 0 < |t.gapRows| <= gapLimit <= sys.denseSize
    requires forall c :: 0 <= c < p.Length ==> p[c] == sys.sp.nil
    modifies p
    ensures GapLists(sys, t, lists) && ErrorOf(res) == GapErrorBits(sys, self, gapLimit, Complete(t, lists))
    ensures res.Ok? ==> ZeroOffGap(sys, res.value, p[sys.sparseSize..])
    ensures res.Ok? ==> forall i :: 0 <= i < |lists| ==> sys.GapSolved(t.gapRows[i].0, lists[i], p[sys.sparseSize..])
    ensures res.Ok? ==> forall c :: 0 <= c < sys.sparseSize ==> p[c] == sys.sp.nil
  {
    var fcinv := GetFCInv(sys.rows, sys.sparseSize, t);
    lists := fcinv;
    var gapCols := GetGapCols(sys, self, t, fcinv);
    if gapCols.None? {
      return Err(NotInvertible), lists;
    }
    var xx := GetX2Prime(sys, t, fcinv);
    var ee := GetEPrime(sys, self, t, fcinv, gapCols.value);
    var inv := InvertBits(sys.sp, self, |fcinv|, ee);
    FillDenseBits(sys, self, gapCols.value, inv.rows, xx, p);
    forall i | 0 <= i < |lists| ensures sys.GapSolved(t.gapRows[i].0, lists[i], p[sys.sparseSize..]) {
      DensePartSolvesGap(sys, t, lists, gapCols.value, ee, inv.rows, xx, p[sys.sparseSize..], i);
    }
    return Ok(gapCols.value), lists;
  }

  /** backfillBinary: it succeeds exactly if the gap is within the limit and some choice of gap
      columns makes E' invertible, and then the output encodes the values. */
  method BackfillBinary<V(!new)>(sys: System<bool, V>, ghost self: Space<bool, bool>, gapLimit: nat, t: Triangle,
      p: array<V>) returns (res: Result<()>, ghost lists: seq<seq<nat>>)
    requires IsBinarySystem(sys, self) && Triangular(sys.rows, sys.sparseSize, t) && gapLimit <= sys.denseSize
    requires p.Length == sys.sparseSize + sys.denseSize
    requires forall c :: 0 <= c < p.Length ==> p[c] == sys.sp.nil
    modifies p
    ensures res.Ok? ==> sys.Solved(p[..])
    ensures Traced(sys, gapLimit, Complete(t, lists))
    ensures ErrorOf(res) == GapErrorBits(sys, self, gapLimit, Complete(t, lists))
  {
    lists := [];
    if gapLimit < |t.gapRows| {
      return Err(GapTooLarge), lists;
    }
    var gapCols := [];
    if |t.gapRows| != 0 {
      var r;
      r, lists := SolveGapBinary(sys, self, gapLimit, t, p);
      if r.Err? {
        return Err(r.error), lists;
      }
      gapCols := r.value;
    }
    assert t.mainCols[|t.mainRows|..] == [];
    BackSubstituteBinary(sys, self, t, gapCols, p);
    assert p[..][sys.sparseSize..] == p[sys.sparseSize..];
    AllRowsSolved(sys, t, lists, p[..]);
    return Ok(()), lists;
  }

  /** A gap is too large exactly if it exceeds the limit; one that does not is solved exactly if
      some choice of dense columns makes E' invertible. */
  lemma GapSolvedIffBits<V(!new)>(sys: System<bool, V>, self: Space<bool, bool>, gapLimit: nat, tr: Trace)
    requires Traced(sys, gapLimit, tr)
    ensures var g, err := |tr.t.gapRows|, GapErrorBits(sys, self, gapLimit, tr);
      && (err == Some(GapTooLarge) <==> gapLimit < g)
      && (g == 0 ==> err == None)
      && (0 < g <= gapLimit ==> (err == None <==> exists cols ::
           IsSubset(cols, sys.denseSize, g) && !IsSingular(self, g, EPrimeOf(sys, tr.t, tr.lists, cols))))
  {
    hide IsSingular, EPrimeOf;
    var g := |tr.t.gapRows|;
    if 0 < g <= gapLimit {
      forall cols | IsSubset(cols, sys.denseSize, g)
        ensures ChoiceFails(sys, self, tr.t, tr.lists, cols) <==>
          IsSingular(self, g, EPrimeOf(sys, tr.t, tr.lists, cols))
      {
        ChoiceSingular(sys, self, tr.t, tr.lists, cols);
      }
    }
  }

  // How an encoding ends, by what it computes on the way.
  ghost predicate EncodeEndsBits<V(!new)>(sys: System<bool, V>, self: Space<bool, bool>, gapLimit: nat,
      dense: seq<seq<bool>>, tr: Trace, err: Option<Error>)
  {
    match tr
    case Interrupted(t, col) =>
      && err.Some? && MeetsDuplicate(sys.rows, sys.sparseSize, dense, t, col, err.value)
      && IsDuplicate(dense, err.value) && HasCore(sys.rows)
    case Complete(t, _) =>
      && Traced(sys, gapLimit, tr) && err == GapErrorBits(sys, self, gapLimit, tr)
      && ByLeastWeight(sys.rows, sys.sparseSize, t) && DistinctGaps(dense, t.gapRows)
      && (t.gapRows == [] <==> !HasCore(sys.rows))
  }

  lemma PeeledEndsBits<V(!new)>(sys: System<bool, V>, self: Space<bool, bool>, gapLimit: nat, dense: seq<seq<bool>>,
      tr: Trace, err: Option<Error>)
    requires Traced(sys, gapLimit, tr) && err == GapErrorBits(sys, self, gapLimit, tr)
    requires ByLeastWeight(sys.rows, sys.sparseSize, tr.t) && (tr.t.gapRows == [] <==> !HasCore(sys.rows))
    requires DistinctGaps(dense, tr.t.gapRows)
    ensures EncodeEndsBits(sys, self, gapLimit, dense, tr, err) && (!HasCore(sys.rows) ==> err == None)
    ensures err != Some(SizeMismatch)
  {
  }

  lemma DuplicateEndsBits<V(!new)>(sys: System<bool, V>, self: Space<bool, bool>, gapLimit: nat,
      dense: seq<seq<bool>>, tr: Trace, e: Error)
    requires HasCore(sys.rows) && IsDuplicate(dense, e) && tr.Interrupted?
    requires MeetsDuplicate(sys.rows, sys.sparseSize, dense, tr.t, tr.col, e)
    ensures EncodeEndsBits(sys, self, gapLimit, dense, tr, Some(e)) && e != SizeMismatch
  {
  }

  /** A repeated key never encodes: it leaves every choice of gap columns singular. */
  lemma RepeatedKeyFailsBits<V(!new)>(sys: System<bool, V>, self: Space<bool, bool>, gapLimit: nat,
      dense: seq<seq<bool>>, tr: Trace, err: Option<Error>, i: nat, j: nat)
    requires IsBinarySystem(sys, self) && EncodeEndsBits(sys, self, gapLimit, dense, tr, err)
    requires gapLimit <= sys.denseSize && i < |sys.rows| && j < |sys.rows| && i != j && sys.rows[i] == sys.rows[j]
    requires |dense| == |sys.coeffs| == |sys.rows| && dense[i] == dense[j] && sys.coeffs[i] == sys.coeffs[j]
    ensures err != None
  {
    hide ByLeastWeight, HasCore, DistinctGaps, MeetsDuplicate, IsDuplicate, IsSingular;
    if tr.Complete? {
      var g := |tr.t.gapRows|;
      var p, q := RepeatedInGap(sys.rows, sys.sparseSize, dense, tr.t, i, j);
      if g <= gapLimit {
        forall cols | IsSubset(cols, sys.denseSize, g) ensures ChoiceFails(sys, self, tr.t, tr.lists, cols) {
          EqualGapRows(sys, tr.t, tr.lists, cols, p, q);
          EqualRowsSingular(self, g, EPrimeOf(sys, tr.t, tr.lists, cols), p, q);
        }
      }
    }
  }

  /** Where the dense part determines the row, an encoding succeeds exactly if no dense part is
      repeated and some choice of gap columns works. */
  lemma EncodesIffBits<V(!new)>(sys: System<bool, V>, self: Space<bool, bool>, gapLimit: nat, dense: seq<seq<bool>>,
      tr: Trace, err: Option<Error>)
    requires IsBinarySystem(sys, self) && EncodeEndsBits(sys, self, gapLimit, dense, tr, err)
    requires gapLimit <= sys.denseSize && |dense| == |sys.coeffs| == |sys.rows|
    requires forall i, j :: 0 <= i < |dense| && 0 <= j < |dense| && dense[i] == dense[j] ==>
      sys.rows[i] == sys.rows[j] && sys.coeffs[i] == sys.coeffs[j]
    ensures Distinct(dense) ==> tr.Complete?
    ensures err == None <==> Distinct(dense) && tr.Complete? && var g := |tr.t.gapRows|;
      g == 0 || (g <= gapLimit && exists cols ::
        IsSubset(cols, sys.denseSize, g) && !IsSingular(self, g, EPrimeOf(sys, tr.t, tr.lists, cols)))
  {
    hide ByLeastWeight, HasCore, DistinctGaps, MeetsDuplicate, GapErrorBits, IsSingular, EPrimeOf;
    if tr.Complete? {
      GapSolvedIffBits(sys, self, gapLimit, tr);
    }
    if err == None {
      forall i, j | 0 <= i < j < |dense| ensures dense[i] != dense[j] {
        if dense[i] == dense[j] {
          RepeatedKeyFailsBits(sys, self, gapLimit, dense, tr, err, i, j);
        }
      }
    }
  }

  // The system behind some rows, for the Binary dense type.
  function BinarySystem<V(!new)>(sp: Space<bool, V>, rows: seq<seq<nat>>, dense: seq<seq<bool>>, values: seq<V>,
      sparseSize: nat, denseSize: nat): System<bool, V>
    requires forall i :: 0 <= i < |dense| ==> denseSize <= |dense[i]|
  {
    System(sp, rows, BitRows(dense, denseSize), values, sparseSize, denseSize)
  }

  /** encode with the Binary dense type and no randomness: on success every key decodes to its
      value. It succeeds exactly if the vector has the right size and what it computes goes
      through; rows without a core always do. */
  method EncodeBinary<V(!new)>(px: Paxos<seq<bool>>, sp: Space<bool, V>, ghost self: Space<bool, bool>, gapLimit: nat,
      values: seq<V>, output: array<V>) returns (res: Result<()>, ghost tr: Trace)
    requires px.Valid() && px.Ready() && BitSpaces(sp, self) && gapLimit <= px.denseSize
    requires |values| == px.numItems && forall i :: 0 <= i < |px.dense| ==> px.denseSize <= |px.dense[i]|
    requires {output as object} !! {px.cols as object, px.colBacking as object, px.weightSets.nodes as object}
    modifies px.weightSets, px.weightSets.nodes, output
    ensures res.Ok? ==> px.Valid() && px.Ready()
    ensures res.Ok? ==> output.Length == px.sparseSize + px.denseSize
    ensures res.Ok? ==> BinarySystem(sp, px.rows, px.dense, values, px.sparseSize, px.denseSize).Solved(output[..])
    ensures res == Err(SizeMismatch) <==> output.Length != px.sparseSize + px.denseSize
    ensures output.Length == px.sparseSize + px.denseSize ==>
      EncodeEndsBits(BinarySystem(sp, px.rows, px.dense, values, px.sparseSize, px.denseSize), self, gapLimit,
          px.dense, tr, ErrorOf(res))
    ensures output.Length == px.sparseSize + px.denseSize && !HasCore(px.rows) ==> res.Ok?
    ensures output.Length == px.sparseSize + px.denseSize && tr.Complete? ==>
      var sys := BinarySystem(sp, px.rows, px.dense, values, px.sparseSize, px.denseSize);
      var g := |tr.t.gapRows|;
      && (res == Err(GapTooLarge) <==> gapLimit < g)
      && (0 < g <= gapLimit ==> GapLists(sys, tr.t, tr.lists) && (res.Ok? <==> exists cols ::
           IsSubset(cols, sys.denseSize, g) && !IsSingular(self, g, EPrimeOf(sys, tr.t, tr.lists, cols))))
  {
    hide HasCore, IsDuplicate, GapErrorBits, GapLists, EncodeEndsBits, ByLeastWeight, MeetsDuplicate, DistinctGaps;
    hide IsSingular, EPrimeOf;
    tr := Complete(Triangle([], [], []), []);
    if output.Length != px.sparseSize + px.denseSize {
      return Err(SizeMismatch), tr;
    }
    var sys := BinarySystem(sp, px.rows, px.dense, values, px.sparseSize, px.denseSize);
    ghost var t0, c;
    var t;
    t, t0, c := px.Triangulate();
    if t.Err? {
      tr := Interrupted(t0, c);
      DuplicateEndsBits(sys, self, gapLimit, px.dense, tr, t.error);
      return Err(t.error), tr;
    }
    ZeroFill(output, sp.nil);
    ghost var lists;
    res, lists := BackfillBinary(sys, self, gapLimit, t.value, output);
    tr := Complete(t.value, lists);
    PeeledEndsBits(sys, self, gapLimit, px.dense, tr, ErrorOf(res));
    GapSolvedIffBits(sys, self, gapLimit, tr);
  }
}

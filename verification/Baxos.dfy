/** The binned OKVS: one Paxos instance per bin, and batched decoding (rr22/okvs/baxos.cc and
    Decode32 in rr22/okvs/paxos.cc). */
module Baxos {
  import opened Lists
  import opened Algebra
  import opened Arithmetic
  import opened PaxosState
  import opened Triangulation
  import opened Decoding
  import opened Backfill
  import opened BackfillBinary
  import opened MaskedDecoding
  import opened Binning

  // The slice of bin b.
  function Slice<K>(p: seq<K>, size: nat, b: nat): (s: seq<K>)
    requires size * b + size <= |p|
    ensures |s| == size
  {
    p[size * b..size * b + size]
  }

  // Decoding a hash in the slice of its bin.
  ghost function BinAt<K(!new)>(sp: Space<K, K>, o: Okvs<K>, p: seq<K>, x: K, b: nat): K
    requires o.Good() && o.Size() * b + o.Size() <= |p|
  {
    At(sp, o, Slice(p, o.Size(), b), x)
  }

  // Bin b's items decode to their values.
  ghost predicate BinSolved<K(!new)>(sp: Space<K, K>, o: Okvs<K>, x: Inputs<K, K>, p: seq<K>, b: nat)
    requires o.Good() && |x.hashes| == |x.values| == |x.binOf| && o.Size() * b + o.Size() <= |p|
  {
    forall i :: 0 <= i < |x.binOf| && x.binOf[i] == b ==> BinAt(sp, o, p, x.hashes[i], b) == x.values[i]
  }

  // The hashes and values of bin b, in input order.
  ghost function BinInputs<K>(x: Inputs<K, K>, b: nat): (m: Keyed<K>)
    requires |x.hashes| == |x.values| == |x.binOf|
    ensures |m.hashes| == |m.values|
  {
    var m := Mapped(x.binOf, 0, |x.binOf|, b);
    Keyed(seq(|m|, k requires 0 <= k < |m| => x.hashes[m[k]]), seq(|m|, k requires 0 <= k < |m| => x.values[m[k]]))
  }

  datatype Keyed<K> = Keyed(hashes: seq<K>, values: seq<K>)

  // How solving bin b ends.
  ghost predicate BinEnds<K(!new)>(sp: Space<K, K>, o: Okvs<K>, x: Inputs<K, K>, itemsPerBin: nat, b: nat, tr: Trace,
      err: Option<Error>)
    requires |x.hashes| == |x.values| == |x.binOf|
  {
    var m := BinInputs(x, b);
    if itemsPerBin < |m.hashes| then err == Some(SizeMismatch) else SolveEnds(sp, o, m.hashes, m.values, tr, err)
  }

  // Bin b is not too full and can be peeled.
  ghost predicate BinPeelable<K(!new)>(o: Okvs<K>, x: Inputs<K, K>, itemsPerBin: nat, b: nat)
    requires |x.hashes| == |x.values| == |x.binOf|
  {
    |BinInputs(x, b).hashes| <= itemsPerBin && Peelable(o, BinInputs(x, b).hashes)
  }

  // The inputs of bin b.
  ghost function BinSet(binOf: seq<nat>, b: nat): set<nat>
  {
    set i: nat | i < |binOf| && binOf[i] == b
  }

  lemma BinInputsSize<K>(x: Inputs<K, K>, b: nat)
    requires |x.hashes| == |x.values| == |x.binOf|
    ensures |BinInputs(x, b).hashes| == |BinSet(x.binOf, b)|
  {
    var m := Mapped(x.binOf, 0, |x.binOf|, b);
    forall i: nat | i in BinSet(x.binOf, b) ensures i in m {
      MappedOnce(x.binOf, |x.binOf|, i);
    }
    if |x.binOf| > 0 {
      MappedOnce(x.binOf, |x.binOf|, 0);
    }
    ElementsSize(m);
    assert Elements(m) == BinSet(x.binOf, b);
  }

  /** A bin is refused for its size exactly if more inputs than allowed fall into it, and always
      solved if it is not, no column of its keys has 200 rows and they have no core. */
  lemma BinEndsIff<K(!new)>(sp: Space<K, K>, o: Okvs<K>, x: Inputs<K, K>, itemsPerBin: nat, b: nat, tr: Trace,
      err: Option<Error>)
    requires |x.hashes| == |x.values| == |x.binOf| && BinEnds(sp, o, x, itemsPerBin, b, tr, err)
    ensures err == Some(SizeMismatch) <==> itemsPerBin < |BinSet(x.binOf, b)|
    ensures var rows := KeyRows(o, BinInputs(x, b).hashes);
      |BinSet(x.binOf, b)| <= itemsPerBin && !HasCore(rows) && err.Some? ==>
        exists c: nat :: c < o.sparseSize && 200 <= |RowSet(rows, c)|
  {
    hide SolveEnds, Peelable, HasCore;
    var m := BinInputs(x, b);
    BinInputsSize(x, b);
    PeelableIff(o, m.hashes);
    if |m.hashes| <= itemsPerBin {
      PeelableSolves(sp, o, m.hashes, m.values, tr, err);
    }
  }

  // The bins are solved in order up to the first that fails.
  ghost predicate BinsEnd<K(!new)>(sp: Space<K, K>, o: Okvs<K>, x: Inputs<K, K>, itemsPerBin: nat, bins: nat,
      trs: seq<Trace>, err: Option<Error>)
    requires |x.hashes| == |x.values| == |x.binOf|
  {
    && |trs| <= bins && (err == None ==> |trs| == bins) && (err.Some? ==> 0 < |trs|)
    && forall b: nat :: b < |trs| ==>
      BinEnds(sp, o, x, itemsPerBin, b, trs[b], if b + 1 < |trs| then None else err)
  }

  // The items of one bin, taken from the backing arrays and solved.
  method SolveBin<K(==, !new)>(sp: Space<K, K>, o: Okvs<K>, x: Inputs<K, K>, bins: Bins<K, K>, b: nat,
      itemsPerBin: nat) returns (res: Result<seq<K>>, ghost tr: Trace)
    requires sp.IsSpace() && sp.one != sp.zero && o.Good() && itemsPerBin + 2 <= o.sparseSize
    requires bins.Shaped() && 0 < bins.sh.threads && x.Good(bins.sh.bins) && bins.sh.Fits(x.binOf) && b < bins.sh.bins
    requires BinParts(x, bins.sh, bins.hashBacking[..], bins.valBacking[..], b, 0)
    requires forall t: nat :: bins.sh.Thread(t, b) ==> bins.sizes[t, b] == |Part(x.binOf, bins.sh.threads, t, b)|
    modifies bins.hashBacking, bins.valBacking
    ensures res.Ok? ==> |res.value| == o.Size() && forall i :: 0 <= i < |x.binOf| && x.binOf[i] == b ==>
        At(sp, o, res.value, x.hashes[i]) == x.values[i]
    ensures BinEnds(sp, o, x, itemsPerBin, b, tr, ErrorOf(res))
    ensures BinPeelable(o, x, itemsPerBin, b) ==> res.Ok?
    ensures forall c: nat ::
      c < bins.sh.bins && c != b && old(BinParts(x, bins.sh, bins.hashBacking[..], bins.valBacking[..], c, 0)) ==>
        BinParts(x, bins.sh, bins.hashBacking[..], bins.valBacking[..], c, 0)
  {
    hide BinParts, Okvs.Good, SolveEnds, Peelable;
    tr := Complete(Triangle([], [], []), []);
    var binSize := bins.Merge(x, b);
    if itemsPerBin < binSize {
      return Err(SizeMismatch), tr;
    }
    var begin := bins.sh.Place(0, b, 0);
    var hashes, values := bins.hashBacking[begin..begin + binSize], bins.valBacking[begin..begin + binSize];
    assert Keyed(hashes, values) == BinInputs(x, b);
    res, tr := Solve(sp, o, hashes, values);
    if res.Ok? {
      AllOfBin(sp, o, x, hashes, values, res.value, b);
    }
  }

  // The merged bin is all inputs of the bin.
  lemma AllOfBin<K(!new)>(sp: Space<K, K>, o: Okvs<K>, x: Inputs<K, K>, hashes: seq<K>, values: seq<K>, p: seq<K>,
      b: nat)
    requires |x.hashes| == |x.values| == |x.binOf| && |hashes| == |values| && o.Good() && |p| == o.Size() &&
        Encodes(sp, o, p, hashes, values)
    requires var m := Mapped(x.binOf, 0, |x.binOf|, b);
      |m| == |hashes| && forall k :: 0 <= k < |m| ==> hashes[k] == x.hashes[m[k]] && values[k] == x.values[m[k]]
    ensures forall i :: 0 <= i < |x.binOf| && x.binOf[i] == b ==> At(sp, o, p, x.hashes[i]) == x.values[i]
  {
    var m := Mapped(x.binOf, 0, |x.binOf|, b);
    forall i | 0 <= i < |x.binOf| && x.binOf[i] == b ensures At(sp, o, p, x.hashes[i]) == x.values[i] {
      MappedOnce(x.binOf, |x.binOf|, i);
      var k :| 0 <= k < |m| && m[k] == i;
      assert At(sp, o, p, hashes[k]) == values[k];
    }
  }

  // The bins one after another.
  method SolveBins<K(==, !new)>(sp: Space<K, K>, o: Okvs<K>, x: Inputs<K, K>, sh: Shape, itemsPerBin: nat)
    returns (res: Result<seq<K>>, ghost trs: seq<Trace>)
    requires sp.IsSpace() && sp.one != sp.zero && o.Good() && itemsPerBin + 2 <= o.sparseSize
    requires 0 < sh.threads && x.Good(sh.bins) && sh.Fits(x.binOf)
    ensures res.Ok? ==> |res.value| == o.Size() * sh.bins
    ensures res.Ok? ==> forall i :: 0 <= i < |x.binOf| ==>
      o.Size() * x.binOf[i] + o.Size() <= |res.value| && BinAt(sp, o, res.value, x.hashes[i], x.binOf[i]) == x.values[i]
    ensures BinsEnd(sp, o, x, itemsPerBin, sh.bins, trs, ErrorOf(res))
    ensures (forall b: nat :: b < sh.bins ==> BinPeelable(o, x, itemsPerBin, b)) ==> res.Ok?
  {
    hide BinParts, SliceSolved, Okvs.Good, Part, Bins.AllParts, BinEnds, BinPeelable;
    var bins := new Bins<K, K>(sh, sp.zero, sp.zero);
    bins.MapAll(x);
    PartsInPlace(x, bins);
    var p := [];
    trs := [];
    for b := 0 to sh.bins
      invariant |p| == o.Size() * b && |trs| == b
      invariant forall c: nat :: c < b ==> BinEnds(sp, o, x, itemsPerBin, c, trs[c], None)
      invariant forall t: nat, c: nat :: sh.Thread(t, c) ==> bins.sizes[t, c] == |Part(x.binOf, sh.threads, t, c)|
      invariant forall c: nat :: b <= c < sh.bins ==> BinParts(x, sh, bins.hashBacking[..], bins.valBacking[..], c, 0)
      invariant forall c: nat :: c < b ==> SliceSolved(sp, o, x, p, c)
    {
      var solved;
      ghost var tr;
      solved, tr := SolveBin(sp, o, x, bins, b, itemsPerBin);
      trs := trs + [tr];
      if solved.Err? {
        return Err(solved.error), trs;
      }
      AppendSlice(sp, o, x, p, solved.value, b);
      p := p + solved.value;
    }
    AllSlices(sp, o, x, sh.bins, p);
    res := Ok(p);
  }

  // How the solver ends: a single bin is solved as it is.
  ghost predicate ParEnds<K(!new)>(sp: Space<K, K>, o: Okvs<K>, x: Inputs<K, K>, itemsPerBin: nat, bins: nat,
      trs: seq<Trace>, err: Option<Error>)
    requires |x.hashes| == |x.values| == |x.binOf|
  {
    if bins == 1 then |trs| == 1 && SolveEnds(sp, o, x.hashes, x.values, trs[0], err)
    else BinsEnd(sp, o, x, itemsPerBin, bins, trs, err)
  }

  // The rows that are solved together can be peeled.
  ghost predicate ParPeelable<K(!new)>(o: Okvs<K>, x: Inputs<K, K>, itemsPerBin: nat, bins: nat)
    requires |x.hashes| == |x.values| == |x.binOf|
  {
    if bins == 1 then Peelable(o, x.hashes) else forall b: nat :: b < bins ==> BinPeelable(o, x, itemsPerBin, b)
  }

  /** ImplParSolve: for any number of threads, on success every input decodes in the slice of its
      bin to its value. It succeeds exactly if no bin is too full and every bin is solved; a
      single bin may be as full as it likes. */
  method ImplParSolve<K(==, !new)>(sp: Space<K, K>, o: Okvs<K>, x: Inputs<K, K>, sh: Shape, itemsPerBin: nat)
    returns (res: Result<seq<K>>, ghost trs: seq<Trace>)
    requires sp.IsSpace() && sp.one != sp.zero && o.Good() && 0 < sh.threads && x.Good(sh.bins)
    requires if sh.bins == 1 then |x.hashes| + 2 <= o.sparseSize
             else itemsPerBin + 2 <= o.sparseSize && sh.Fits(x.binOf)
    ensures res.Ok? ==> |res.value| == o.Size() * sh.bins
    ensures res.Ok? ==> forall i :: 0 <= i < |x.binOf| ==>
      o.Size() * x.binOf[i] + o.Size() <= |res.value| && BinAt(sp, o, res.value, x.hashes[i], x.binOf[i]) == x.values[i]
    ensures ParEnds(sp, o, x, itemsPerBin, sh.bins, trs, ErrorOf(res))
    ensures ParPeelable(o, x, itemsPerBin, sh.bins) ==> res.Ok?
  {
    hide Okvs.Good, BinsEnd, SolveEnds, Peelable, BinPeelable, Encodes;
    if sh.bins == 1 {
      ghost var tr;
      res, tr := Solve(sp, o, x.hashes, x.values);
      trs := [tr];
      if res.Ok? {
        SingleSlice(sp, o, x, res.value);
      }
    } else {
      res, trs := SolveBins(sp, o, x, sh, itemsPerBin);
    }
  }

  lemma SingleSlice<K(!new)>(sp: Space<K, K>, o: Okvs<K>, x: Inputs<K, K>, p: seq<K>)
    requires o.Good() && x.Good(1) && |p| == o.Size() && Encodes(sp, o, p, x.hashes, x.values)
    ensures forall i :: 0 <= i < |x.binOf| ==>
      o.Size() * x.binOf[i] + o.Size() <= |p| && BinAt(sp, o, p, x.hashes[i], x.binOf[i]) == x.values[i]
  {
    assert Slice(p, o.Size(), 0) == p;
    forall i | 0 <= i < |x.binOf|
      ensures o.Size() * x.binOf[i] + o.Size() <= |p| && BinAt(sp, o, p, x.hashes[i], x.binOf[i]) == x.values[i]
    {
      assert At(sp, o, p, x.hashes[i]) == x.values[i] && x.binOf[i] == 0;
    }
  }

  lemma AllSlices<K(!new)>(sp: Space<K, K>, o: Okvs<K>, x: Inputs<K, K>, bins: nat, p: seq<K>)
    requires o.Good() && x.Good(bins) && forall c: nat :: c < bins ==> SliceSolved(sp, o, x, p, c)
    ensures forall i :: 0 <= i < |x.binOf| ==>
      o.Size() * x.binOf[i] + o.Size() <= |p| && BinAt(sp, o, p, x.hashes[i], x.binOf[i]) == x.values[i]
  {
    forall i | 0 <= i < |x.binOf|
      ensures o.Size() * x.binOf[i] + o.Size() <= |p| && BinAt(sp, o, p, x.hashes[i], x.binOf[i]) == x.values[i]
    {
      assert SliceSolved(sp, o, x, p, x.binOf[i]);
    }
  }

  ghost predicate SliceSolved<K(!new)>(sp: Space<K, K>, o: Okvs<K>, x: Inputs<K, K>, p: seq<K>, b: nat)
    requires o.Good() && |x.hashes| == |x.values| == |x.binOf|
  {
    o.Size() * b + o.Size() <= |p| && BinSolved(sp, o, x, p, b)
  }

  lemma PartsInPlace<K>(x: Inputs<K, K>, bins: Bins<K, K>)
    requires bins.Shaped() && 0 < bins.sh.threads && x.Good(bins.sh.bins)
    requires bins.AllParts(x, Ends(|x.binOf|, bins.sh.threads))
    ensures forall c: nat :: c < bins.sh.bins ==> BinParts(x, bins.sh, bins.hashBacking[..], bins.valBacking[..], c, 0)
    ensures forall t: nat, b: nat :: bins.sh.Thread(t, b) ==> bins.sizes[t, b] == |Part(x.binOf, bins.sh.threads, t, b)|
  {
    forall t: nat, b: nat | bins.sh.Thread(t, b)
      ensures bins.sizes[t, b] == |Part(x.binOf, bins.sh.threads, t, b)|
      ensures Holds(x, bins.hashBacking[..], bins.valBacking[..], bins.sh.Place(t, b, 0),
          Part(x.binOf, bins.sh.threads, t, b))
    {
      assert PartOk(x, bins.sh, bins.hashBacking[..], bins.valBacking[..], bins.sizes[t, b], t, b,
          Ends(|x.binOf|, bins.sh.threads)[t]);
    }
    forall c: nat, t: nat | c < bins.sh.bins && t < bins.sh.threads
      ensures Holds(x, bins.hashBacking[..], bins.valBacking[..], bins.sh.Place(t, c, 0),
          Part(x.binOf, bins.sh.threads, t, c))
    {
      assert bins.sh.Thread(t, c);
    }
  }

  lemma AppendSlice<K(!new)>(sp: Space<K, K>, o: Okvs<K>, x: Inputs<K, K>, p: seq<K>, q: seq<K>, b: nat)
    requires o.Good() && |x.hashes| == |x.values| == |x.binOf| && |p| == o.Size() * b && |q| == o.Size()
    requires forall c: nat :: c < b ==> SliceSolved(sp, o, x, p, c)
    requires forall i :: 0 <= i < |x.binOf| && x.binOf[i] == b ==> At(sp, o, q, x.hashes[i]) == x.values[i]
    ensures |p + q| == o.Size() * (b + 1) && forall c: nat :: c < b + 1 ==> SliceSolved(sp, o, x, p + q, c)
  {
    var size := o.Size();
    assert size * (b + 1) == size * b + size;
    forall c: nat | c < b + 1 ensures SliceSolved(sp, o, x, p + q, c) {
      if c < b {
        assert SliceSolved(sp, o, x, p, c);
        assert Slice(p + q, size, c) == Slice(p, size, c);
      } else {
        assert Slice(p + q, size, c) == q;
      }
    }
  }

  // ----- Decoding many keys at once -----

  // The value of one key with j columns added.
  ghost predicate SparseTo<K(!new), V(!new)>(sp: Space<K, V>, p: seq<V>, row: seq<nat>, j: nat, value: V)
  {
    j <= |row| && (forall c :: 0 <= c < |row| ==> row[c] < |p|) && value == SparseSum(sp, p, row[..j])
  }

  lemma SparseAll<K(!new), V(!new)>(sp: Space<K, V>, p: seq<V>, row: seq<nat>, value: V)
    requires SparseTo(sp, p, row, |row|, value)
    ensures value == SparseSum(sp, p, row)
  {
    assert row[..|row|] == row;
  }

  lemma SparseFirst<K(!new), V(!new)>(sp: Space<K, V>, p: seq<V>, row: seq<nat>)
    requires sp.IsSpace() && 0 < |row| && forall c :: 0 <= c < |row| ==> row[c] < |p|
    ensures SparseTo(sp, p, row, 1, p[row[0]])
  {
    assert row[..1][..0] == [];
    assert sp.ValueLaws(sp.nil, p[row[0]], sp.nil) && sp.ValueLaws(p[row[0]], sp.nil, sp.nil);
  }

  lemma SparseNext<K(!new), V(!new)>(sp: Space<K, V>, p: seq<V>, row: seq<nat>, j: nat, value: V)
    requires SparseTo(sp, p, row, j, value) && j < |row|
    ensures row[j] < |p| && SparseTo(sp, p, row, j + 1, sp.Plus(value, p[row[j]]))
    ensures j + 1 == |row| ==> sp.Plus(value, p[row[j]]) == SparseSum(sp, p, row)
  {
    assert row[..j + 1][..j] == row[..j];
    if j + 1 == |row| {
      assert row[..j + 1] == row;
    }
  }

  // The sparse columns of all keys, one column of every key at a time.
  method SparseTogether<K(!new), V(!new)>(sp: Space<K, V>, weight: nat, rows: seq<seq<nat>>, p: seq<V>)
    returns (values: seq<V>)
    requires sp.IsSpace() && 0 < weight && forall k :: 0 <= k < |rows| ==> |rows[k]| == weight
    requires forall k, c :: 0 <= k < |rows| && 0 <= c < |rows[k]| ==> rows[k][c] < |p|
    ensures |values| == |rows| && forall k :: 0 <= k < |rows| ==> values[k] == SparseSum(sp, p, rows[k])
  {
    hide SparseTo;
    values := [];
    for k := 0 to |rows|
      invariant |values| == k && forall q :: 0 <= q < k ==> SparseTo(sp, p, rows[q], 1, values[q])
    {
      SparseFirst(sp, p, rows[k]);
      values := values + [p[rows[k][0]]];
    }
    for j := 1 to weight
      invariant |values| == |rows| && forall k :: 0 <= k < |rows| ==> SparseTo(sp, p, rows[k], j, values[k])
    {
      for k := 0 to |rows|
        invariant |values| == |rows|
        invariant forall q :: 0 <= q < |rows| ==> SparseTo(sp, p, rows[q], if q < k then j + 1 else j, values[q])
      {
        SparseNext(sp, p, rows[k], j, values[k]);
        values := values[k := sp.Plus(values[k], p[rows[k][j]])];
      }
    }
    forall k | 0 <= k < |rows| ensures values[k] == SparseSum(sp, p, rows[k]) {
      SparseAll(sp, p, rows[k], values[k]);
    }
  }

  // The columns of some keys, in the vector of a bin.
  ghost predicate RowsFit<K(!new)>(o: Okvs<K>, rows: seq<seq<nat>>, dense: seq<K>, p: seq<K>)
  {
    && |rows| == |dense| && 0 < o.denseSize && |p| == o.Size()
    && forall k :: 0 <= k < |rows| ==> |rows[k]| == o.weight && GoodRow(rows[k], o.sparseSize)
  }

  // Decode32 with the GF128 dense type: the sums of all keys grow together, one column and one dense entry at a time.
  method DecodeTogether<K(!new)>(sp: Space<K, K>, o: Okvs<K>, rows: seq<seq<nat>>, dense: seq<K>, p: seq<K>)
    returns (values: seq<K>)
    requires sp.IsSpace() && 0 < o.weight && RowsFit(o, rows, dense, p)
    ensures |values| == |rows| && forall k :: 0 <= k < |rows| ==>
      values[k] == Decode(sp, rows[k], Powers(sp, dense[k], o.denseSize), p, o.sparseSize)
  {
    hide DenseTo, RowsFit, Decode;
    FitInRange(o, rows, dense, p);
    values := SparseTogether(sp, o.weight, rows, p);
    ghost var sparse := values;
    var p2 := p[o.sparseSize..];
    var xx := dense;
    forall k | 0 <= k < |rows| ensures DenseTo(sp, o, dense[k], p2, sparse[k], 0, xx[k], values[k]) {
      DenseStart(sp, o, dense[k], p2, sparse[k]);
    }
    for i := 0 to o.denseSize
      invariant |values| == |rows| && |xx| == |rows|
      invariant forall k :: 0 <= k < |rows| ==> DenseTo(sp, o, dense[k], p2, sparse[k], i, xx[k], values[k])
    {
      for k := 0 to |rows|
        invariant |values| == |rows| && |xx| == |rows|
        invariant forall j :: 0 <= j < |rows| ==>
          DenseTo(sp, o, dense[j], p2, sparse[j], if j < k then i + 1 else i, xx[j], values[j])
      {
        DenseNext(sp, o, dense[k], p2, sparse[k], i, xx[k], values[k]);
        xx := xx[k := if i == 0 then xx[k] else sp.Mul(xx[k], dense[k])];
        values := values[k := sp.Plus(values[k], sp.Act(xx[k], p2[i]))];
      }
    }
    forall k | 0 <= k < |rows|
      ensures GoodRow(rows[k], o.sparseSize) && |p| == o.Size()
      ensures values[k] == Decode(sp, rows[k], Powers(sp, dense[k], o.denseSize), p, o.sparseSize)
    {
      DenseEnd(sp, o, rows, dense, p, k, sparse[k], xx[k], values[k]);
    }
  }

  lemma FitInRange<K(!new)>(o: Okvs<K>, rows: seq<seq<nat>>, dense: seq<K>, p: seq<K>)
    requires RowsFit(o, rows, dense, p)
    ensures |rows| == |dense| && |p| == o.Size()
    ensures forall k :: 0 <= k < |rows| ==> |rows[k]| == o.weight
    ensures forall k, c :: 0 <= k < |rows| && 0 <= c < |rows[k]| ==> rows[k][c] < |p|
  {
    forall k, c | 0 <= k < |rows| && 0 <= c < |rows[k]| ensures rows[k][c] < |p| {
      assert GoodRow(rows[k], o.sparseSize);
    }
  }

  lemma DenseStart<K(!new)>(sp: Space<K, K>, o: Okvs<K>, d: K, p2: seq<K>, sparse: K)
    requires sp.IsSpace() && o.denseSize == |p2|
    ensures DenseTo(sp, o, d, p2, sparse, 0, d, sparse)
  {
    assert sp.ValueLaws(sparse, sp.nil, sp.nil);
  }

  lemma DenseEnd<K(!new)>(sp: Space<K, K>, o: Okvs<K>, rows: seq<seq<nat>>, dense: seq<K>, p: seq<K>, k: nat,
      sparse: K, x: K, value: K)
    requires RowsFit(o, rows, dense, p) && k < |rows| && sparse == SparseSum(sp, p, rows[k])
    requires DenseTo(sp, o, dense[k], p[o.sparseSize..], sparse, o.denseSize, x, value)
    ensures GoodRow(rows[k], o.sparseSize) && |p| == o.Size()
    ensures value == Decode(sp, rows[k], Powers(sp, dense[k], o.denseSize), p, o.sparseSize)
  {
  }

  // The value of one key with i dense entries added, and the power used last.
  ghost predicate DenseTo<K(!new)>(sp: Space<K, K>, o: Okvs<K>, d: K, p2: seq<K>, sparse: K, i: nat, x: K, value: K)
  {
    && i <= o.denseSize == |p2|
    && value == sp.Plus(sparse, sp.Dot(Powers(sp, d, o.denseSize), p2, i))
    && x == if i == 0 then d else Powers(sp, d, o.denseSize)[i - 1]
  }

  lemma DenseNext<K(!new)>(sp: Space<K, K>, o: Okvs<K>, d: K, p2: seq<K>, sparse: K, i: nat, x: K, value: K)
    requires sp.IsSpace() && i < o.denseSize && DenseTo(sp, o, d, p2, sparse, i, x, value)
    ensures var x' := if i == 0 then x else sp.Mul(x, d);
      DenseTo(sp, o, d, p2, sparse, i + 1, x', sp.Plus(value, sp.Act(x', p2[i])))
  {
    var coeffs := Powers(sp, d, o.denseSize);
    PowersPrefix(sp, d, i + 1, o.denseSize);
    assert coeffs[i] == coeffs[..i + 1][i];
    if i > 0 {
      assert coeffs[i - 1] == coeffs[..i + 1][i - 1];
    }
    assert sp.ValueLaws(sparse, sp.Dot(coeffs, p2, i), sp.Act(coeffs[i], p2[i]));
  }

  // The value of one key with i dense bits added.
  ghost predicate BitsTo<V(!new)>(sp: Space<bool, V>, bits: seq<bool>, p2: seq<V>, sparse: V, i: nat, value: V)
  {
    i <= |bits| == |p2| && value == sp.Plus(sparse, sp.Dot(bits, p2, i))
  }

  lemma BitNext<V(!new)>(sp: Space<bool, V>, bits: seq<bool>, p2: seq<V>, sparse: V, i: nat, value: V)
    requires sp.IsSpace() && i < |bits| && BitsTo(sp, bits, p2, sparse, i, value)
    ensures BitsTo(sp, bits, p2, sparse, i + 1, sp.Plus(value, sp.Act(bits[i], p2[i])))
  {
    assert sp.ValueLaws(sparse, sp.Dot(bits, p2, i), sp.Act(bits[i], p2[i]));
  }

  // Decode32 with the Binary dense type: after the sparse columns the keys are taken eight at a
  // time, and within a group one dense bit of each key at a time. The bits of a key are those of
  // the half word the code reads, so there are at most 64.
  method DecodeTogetherBits<V(!new)>(sp: Space<bool, V>, weight: nat, sparseSize: nat, denseSize: nat,
      rows: seq<seq<nat>>, dense: seq<seq<bool>>, p: seq<V>) returns (values: seq<V>)
    requires sp.IsSpace() && 0 < weight && |rows| == |dense| && |p| == sparseSize + denseSize && denseSize <= 64
    requires forall k :: 0 <= k < |rows| ==> |rows[k]| == weight && GoodRow(rows[k], sparseSize)
    requires forall k :: 0 <= k < |dense| ==> denseSize <= |dense[k]|
    ensures |values| == |rows| && forall k :: 0 <= k < |rows| ==>
      GoodRow(rows[k], sparseSize) && values[k] == Decode(sp, rows[k], BitRows(dense, denseSize)[k], p, sparseSize)
  {
    hide BitsTo;
    values := SparseTogether(sp, weight, rows, p);
    ghost var sparse := values;
    var p2, bits := p[sparseSize..], BitRows(dense, denseSize);
    var lo := 0;
    while lo < |rows|
      invariant lo <= |rows| == |values|
      invariant forall k :: 0 <= k < |rows| ==>
        if k < lo then BitsTo(sp, bits[k], p2, sparse[k], denseSize, values[k]) else values[k] == sparse[k]
    {
      var hi := if lo + 8 <= |rows| then lo + 8 else |rows|;
      values := GroupBits(sp, denseSize, bits, p2, sparse, values, lo, hi);
      lo := hi;
    }
    forall k | 0 <= k < |rows| ensures values[k] == Decode(sp, rows[k], bits[k], p, sparseSize) {
      BitsAll(sp, bits[k], p2, sparse[k], values[k]);
    }
  }

  lemma BitsAll<V(!new)>(sp: Space<bool, V>, bits: seq<bool>, p2: seq<V>, sparse: V, value: V)
    requires BitsTo(sp, bits, p2, sparse, |bits|, value)
    ensures value == sp.Plus(sparse, sp.Dot(bits, p2, |bits|))
  {
  }

  lemma NoBits<V(!new)>(sp: Space<bool, V>, bits: seq<bool>, p2: seq<V>, sparse: V)
    requires sp.IsSpace() && |bits| == |p2|
    ensures BitsTo(sp, bits, p2, sparse, 0, sparse)
  {
    assert sp.ValueLaws(sparse, sp.nil, sp.nil);
  }

  // The dense bits of the keys from lo to hi.
  method GroupBits<V(!new)>(sp: Space<bool, V>, denseSize: nat, bits: seq<seq<bool>>, p2: seq<V>, ghost sparse: seq<V>,
      values: seq<V>, lo: nat, hi: nat) returns (out: seq<V>)
    requires sp.IsSpace() && lo <= hi <= |values| == |bits| == |sparse| && |p2| == denseSize
    requires forall k :: 0 <= k < |bits| ==> |bits[k]| == denseSize
    requires forall k :: lo <= k < hi ==> values[k] == sparse[k]
    ensures |out| == |values|
    ensures forall k :: 0 <= k < |out| ==>
      if lo <= k < hi then BitsTo(sp, bits[k], p2, sparse[k], denseSize, out[k]) else out[k] == values[k]
  {
    hide BitsTo;
    out := values;
    forall k | lo <= k < hi ensures BitsTo(sp, bits[k], p2, sparse[k], 0, out[k]) {
      NoBits(sp, bits[k], p2, sparse[k]);
    }
    for i := 0 to denseSize
      invariant |out| == |values|
      invariant forall k :: 0 <= k < |out| ==>
        if lo <= k < hi then BitsTo(sp, bits[k], p2, sparse[k], i, out[k]) else out[k] == values[k]
    {
      for j := lo to hi
        invariant |out| == |values|
        invariant forall k :: 0 <= k < |out| ==>
          if lo <= k < hi then BitsTo(sp, bits[k], p2, sparse[k], if k < j then i + 1 else i, out[k])
          else out[k] == values[k]
      {
        BitNext(sp, bits[j], p2, sparse[j], i, out[j]);
        out := out[j := sp.Plus(out[j], sp.Act(bits[j][i], p2[i]))];
      }
    }
  }
}

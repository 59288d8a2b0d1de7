/** Masks that two parties derive from an OKVS vector under a VOLE correlation: the core of the
    set intersection in rr22/rr22.cc and of the oblivious PRF in RsOprf.cpp. */
module MaskedDecoding {
  import opened Lists
  import opened Algebra
  import opened Triangulation
  import opened PaxosState
  import opened Decoding
  import opened OkvsTheory
  import opened Backfill

  // How keys are hashed to rows: distinct sparse columns and a dense part.
  datatype Okvs<!K(!new)> = Okvs(weight: nat, sparseSize: nat, denseSize: nat, cols: K -> seq<nat>, dense: K -> K)
  {
    function Cols(x: K): seq<nat> { cols(x) }

    function Dense(x: K): K { dense(x) }

    function Size(): nat { sparseSize + denseSize }

    ghost predicate Good()
    {
      0 < denseSize && forall x :: GoodRow(Cols(x), sparseSize) && |Cols(x)| == weight
    }
  }

  // Decoding a key.
  ghost function At<K(!new)>(sp: Space<K, K>, o: Okvs<K>, p: seq<K>, x: K): K
    requires o.Good() && |p| == o.Size()
  {
    assert GoodRow(o.Cols(x), o.sparseSize);
    Decode(sp, o.Cols(x), Powers(sp, o.Dense(x), o.denseSize), p, o.sparseSize)
  }

  ghost predicate Encodes<K(!new)>(sp: Space<K, K>, o: Okvs<K>, p: seq<K>, keys: seq<K>, values: seq<K>)
    requires o.Good() && |p| == o.Size() && |keys| == |values|
  {
    forall i :: 0 <= i < |keys| ==> At(sp, o, p, keys[i]) == values[i]
  }

  function KeyRows<K(!new)>(o: Okvs<K>, keys: seq<K>): (rows: seq<seq<nat>>)
    ensures |rows| == |keys|
  {
    seq(|keys|, i requires 0 <= i < |keys| => o.Cols(keys[i]))
  }

  function KeyDense<K(!new)>(o: Okvs<K>, keys: seq<K>): (dense: seq<K>)
    ensures |dense| == |keys|
  {
    seq(|keys|, i requires 0 <= i < |keys| => o.Dense(keys[i]))
  }

  // No column of the keys is too heavy, and their rows can be peeled away.
  ghost predicate Peelable<K(!new)>(o: Okvs<K>, keys: seq<K>)
  {
    Light(KeyRows(o, keys), o.sparseSize) && !HasCore(KeyRows(o, keys))
  }

  // The same without the names.
  lemma PeelableIff<K(!new)>(o: Okvs<K>, keys: seq<K>)
    ensures Peelable(o, keys) <==>
      && (forall c: nat :: c < o.sparseSize ==> |RowSet(KeyRows(o, keys), c)| < 200)
      && !HasCore(KeyRows(o, keys))
  {
    hide HasCore;
    LightIff(KeyRows(o, keys), o.sparseSize);
  }

  // How solving ends, by what the encoding computes on the way.
  ghost predicate SolveEnds<K(!new)>(sp: Space<K, K>, o: Okvs<K>, keys: seq<K>, values: seq<K>, tr: Trace,
      err: Option<Error>)
  {
    var rows, dense := KeyRows(o, keys), KeyDense(o, keys);
    if !Light(rows, o.sparseSize) then err == Some(TooManyInColumn) else
      EncodeEnds(Gf128System(sp, rows, dense, values, o.sparseSize, o.denseSize), dense, tr, err)
  }

  lemma PeelableSolves<K(!new)>(sp: Space<K, K>, o: Okvs<K>, keys: seq<K>, values: seq<K>, tr: Trace,
      err: Option<Error>)
    requires SolveEnds(sp, o, keys, values, tr, err)
    ensures Peelable(o, keys) ==> err == None
    ensures err != Some(SizeMismatch)
    ensures err == Some(TooManyInColumn) <==> !Light(KeyRows(o, keys), o.sparseSize)
    ensures !HasCore(KeyRows(o, keys)) && err.Some? ==> err == Some(TooManyInColumn)
  {
  }

  // The system behind some keys.
  function KeySystem<K(!new)>(sp: Space<K, K>, o: Okvs<K>, keys: seq<K>, values: seq<K>): System<K, K>
  {
    Gf128System(sp, KeyRows(o, keys), KeyDense(o, keys), values, o.sparseSize, o.denseSize)
  }

  /** Keys whose dense parts differ are solved for exactly if no column is too heavy, no key is
      given twice, and the gap of what is computed is solved. */
  lemma SolvesIff<K(!new)>(sp: Space<K, K>, o: Okvs<K>, keys: seq<K>, values: seq<K>, tr: Trace, err: Option<Error>)
    requires sp.one != sp.zero && SolveEnds(sp, o, keys, values, tr, err)
    requires forall i, j :: 0 <= i < |keys| && 0 <= j < |keys| && o.Dense(keys[i]) == o.Dense(keys[j]) ==>
      keys[i] == keys[j]
    ensures Light(KeyRows(o, keys), o.sparseSize) && Distinct(keys) ==> tr.Complete?
    ensures err == None <==>
      && Light(KeyRows(o, keys), o.sparseSize) && Distinct(keys)
      && Traced(KeySystem(sp, o, keys, values), o.denseSize, tr) && GapError(KeySystem(sp, o, keys, values), tr) == None
  {
    hide GapError, Traced, HasCore;
    var rows, dense := KeyRows(o, keys), KeyDense(o, keys);
    if Light(rows, o.sparseSize) {
      var x := if sp.one != sp.nil then sp.one else sp.zero;
      forall i, j | 0 <= i < |dense| && 0 <= j < |dense| && dense[i] == dense[j]
        ensures rows[i] == rows[j]
      {
        assert o.Dense(keys[i]) == dense[i] && o.Dense(keys[j]) == dense[j];
      }
      EncodesIff(KeySystem(sp, o, keys, values), dense, tr, err, x);
      SameRepetition(o, keys);
    }
  }

  lemma SameRepetition<K(!new)>(o: Okvs<K>, keys: seq<K>)
    requires forall i, j :: 0 <= i < |keys| && 0 <= j < |keys| && o.Dense(keys[i]) == o.Dense(keys[j]) ==>
      keys[i] == keys[j]
    ensures Distinct(KeyDense(o, keys)) <==> Distinct(keys)
  {
    var dense := KeyDense(o, keys);
    forall i, j | 0 <= i < j < |keys| ensures dense[i] == dense[j] <==> keys[i] == keys[j] {
      assert o.Dense(keys[i]) == dense[i] && o.Dense(keys[j]) == dense[j];
    }
  }

  // A key that is given twice is never solved for.
  lemma RepeatedKeyUnsolved<K(!new)>(sp: Space<K, K>, o: Okvs<K>, keys: seq<K>, values: seq<K>, tr: Trace,
      err: Option<Error>)
    requires sp.one != sp.zero && SolveEnds(sp, o, keys, values, tr, err)
    ensures err == None ==> Distinct(keys)
  {
    hide EncodeEnds, HasCore;
    var x := if sp.one != sp.nil then sp.one else sp.zero;
    if err == None {
      forall i, j | 0 <= i < j < |keys| ensures keys[i] != keys[j] {
        if keys[i] == keys[j] {
          RepeatedKeyFails(KeySystem(sp, o, keys, values), KeyDense(o, keys), tr, err, i, j, x);
        }
      }
    }
  }

  /** solve: on success every key decodes to its value. Peelable keys always succeed; otherwise
      the gap that is left decides. */
  method Solve<K(==, !new)>(sp: Space<K, K>, o: Okvs<K>, keys: seq<K>, values: seq<K>)
    returns (res: Result<seq<K>>, ghost tr: Trace)
    requires sp.IsSpace() && sp.one != sp.zero && o.Good() && |values| == |keys| && |keys| + 2 <= o.sparseSize
    ensures res.Ok? ==> |res.value| == o.Size() && Encodes(sp, o, res.value, keys, values)
    ensures SolveEnds(sp, o, keys, values, tr, ErrorOf(res))
    ensures Peelable(o, keys) ==> res.Ok?
    ensures res.Ok? ==> Distinct(keys)
    ensures res != Err(SizeMismatch)
    ensures res == Err(TooManyInColumn) <==>
      exists c: nat :: c < o.sparseSize && 200 <= |RowSet(KeyRows(o, keys), c)|
    ensures !HasCore(KeyRows(o, keys)) && res.Err? ==> res.error == TooManyInColumn
  {
    LightIff(KeyRows(o, keys), o.sparseSize);
    var rows, dense := [], [];
    for i := 0 to |keys|
      invariant |rows| == |dense| == i
      invariant forall j :: 0 <= j < i ==> rows[j] == o.Cols(keys[j]) && dense[j] == o.Dense(keys[j])
    {
      rows, dense := rows + [o.Cols(keys[i])], dense + [o.Dense(keys[i])];
    }
    assert rows == KeyRows(o, keys) && dense == KeyDense(o, keys);
    assert GoodRows(rows, o.sparseSize) by {
      forall i | 0 <= i < |rows| ensures GoodRow(rows[i], o.sparseSize) {
        assert GoodRow(o.Cols(keys[i]), o.sparseSize);
      }
    }
    hide EncodeEnds, HasCore, Light;
    var px := new Paxos<K>(|keys|, o.weight, o.sparseSize, o.denseSize);
    var output := new K[o.Size()](_ => sp.zero);
    res, tr := EncodeRows(px, sp, o, rows, dense, values, output);
    if res.Ok? {
      RowsAreKeys(sp, o, keys, rows, dense, values, res.value);
    }
    PeelableSolves(sp, o, keys, values, tr, ErrorOf(res));
    RepeatedKeyUnsolved(sp, o, keys, values, tr, ErrorOf(res));
  }

  method EncodeRows<K(==, !new)>(px: Paxos<K>, sp: Space<K, K>, o: Okvs<K>, rows: seq<seq<nat>>, dense: seq<K>,
      values: seq<K>, output: array<K>) returns (res: Result<seq<K>>, ghost tr: Trace)
    requires sp.IsSpace() && sp.one != sp.zero && 0 < o.denseSize
    requires px.numItems == |rows| == |dense| == |values| && px.weight == o.weight && px.sparseSize == o.sparseSize &&
        px.denseSize == o.denseSize
    requires px.cols.Length == px.sparseSize && px.colBacking.Length == px.numItems * px.weight &&
        px.weightSets.nodes.Length == px.sparseSize
    requires {output as object} !! {px.cols as object, px.colBacking as object, px.weightSets.nodes as object} &&
        output.Length == o.Size()
    requires |rows| + 2 <= o.sparseSize && GoodRows(rows, o.sparseSize) && forall i :: 0 <= i < |rows| ==>
        |rows[i]| == o.weight
    modifies px, px.cols, px.colBacking, px.weightSets, px.weightSets.nodes, output
    ensures res.Ok? ==> Gf128System(sp, rows, dense, values, o.sparseSize, o.denseSize).Solved(res.value)
    ensures if !Light(rows, o.sparseSize) then res == Err(TooManyInColumn) else
      EncodeEnds(Gf128System(sp, rows, dense, values, o.sparseSize, o.denseSize), dense, tr, ErrorOf(res))
  {
    hide EncodeEnds, HasCore, Light;
    tr := Complete(Triangle([], [], []), []);
    var set' := px.SetInput(rows, dense);
    if set'.Err? {
      return Err(set'.error), tr;
    }
    assert Light(rows, o.sparseSize);
    var r;
    r, tr := EncodeGf128(px, sp, values, output);
    res := if r.Ok? then Ok(output[..]) else Err(r.error);
  }

  lemma RowsAreKeys<K(!new)>(sp: Space<K, K>, o: Okvs<K>, keys: seq<K>, rows: seq<seq<nat>>, dense: seq<K>,
      values: seq<K>, p: seq<K>)
    requires o.Good() && |keys| == |rows| == |dense| == |values|
    requires forall j :: 0 <= j < |keys| ==> rows[j] == o.Cols(keys[j]) && dense[j] == o.Dense(keys[j])
    requires Gf128System(sp, rows, dense, values, o.sparseSize, o.denseSize).Solved(p)
    ensures |p| == o.Size() && Encodes(sp, o, p, keys, values)
  {
    var sys := Gf128System(sp, rows, dense, values, o.sparseSize, o.denseSize);
    forall i | 0 <= i < |keys| ensures At(sp, o, p, keys[i]) == values[i] {
      assert sys.DecodeRow(p, i) == values[i];
    }
  }

  // decode, one key at a time.
  method DecodeAll<K(!new)>(sp: Space<K, K>, o: Okvs<K>, keys: seq<K>, p: seq<K>) returns (out: seq<K>)
    requires sp.IsSpace() && o.Good() && |p| == o.Size()
    ensures |out| == |keys| && Encodes(sp, o, p, keys, out)
  {
    out := [];
    for i := 0 to |keys|
      invariant |out| == i && forall j :: 0 <= j < i ==> At(sp, o, p, keys[j]) == out[j]
    {
      assert GoodRow(o.Cols(keys[i]), o.sparseSize);
      var v := Decode1Gf128(sp, o.Cols(keys[i]), o.Dense(keys[i]), o.denseSize, p, o.sparseSize);
      out := out + [v];
    }
  }

  // ----- The masks -----

  // One party holds a and c, the other b and delta.
  ghost predicate Correlated<K(!new)>(sp: Space<K, K>, delta: K, a: seq<K>, b: seq<K>, c: seq<K>)
  {
    |a| == |b| == |c| && forall i :: 0 <= i < |a| ==> c[i] == sp.Plus(b[i], sp.Act(delta, a[i]))
  }

  // The vector the holder of delta ends with when it receives a + p.
  ghost predicate Shifted<K(!new)>(sp: Space<K, K>, delta: K, a: seq<K>, b: seq<K>, p: seq<K>, k: seq<K>)
  {
    && |a| == |b| == |p| == |k|
    && forall i :: 0 <= i < |a| ==> k[i] == sp.Plus(b[i], sp.Act(delta, sp.Plus(a[i], p[i])))
  }

  // k is c with delta times p added.
  lemma ShiftedIsSum<K(!new)>(sp: Space<K, K>, delta: K, a: seq<K>, b: seq<K>, c: seq<K>, p: seq<K>, k: seq<K>, i: nat)
    requires sp.IsSpace() && Correlated(sp, delta, a, b, c) && Shifted(sp, delta, a, b, p, k) && i < |a|
    ensures k[i] == sp.Plus(c[i], sp.Act(delta, p[i]))
  {
    assert sp.ActLaws(delta, delta, a[i], p[i]);
    assert sp.ValueLaws(b[i], sp.Act(delta, a[i]), sp.Act(delta, p[i]));
  }

  /** The masks of a key differ by delta times the error of decoding the key from p. */
  lemma MaskDifference<K(!new)>(sp: Space<K, K>, o: Okvs<K>, delta: K, a: seq<K>, b: seq<K>, c: seq<K>, p: seq<K>,
      k: seq<K>, x: K, v: K)
    requires sp.IsSpace() && o.Good() && |a| == o.Size()
    requires Correlated(sp, delta, a, b, c) && Shifted(sp, delta, a, b, p, k)
    ensures sp.Plus(At(sp, o, k, x), sp.Act(delta, v)) == sp.Plus(At(sp, o, c, x), sp.Act(delta, sp.Plus(At(sp, o, p,
        x), v)))
  {
    var cols, coeffs := o.Cols(x), Powers(sp, o.Dense(x), o.denseSize);
    assert GoodRow(cols, o.sparseSize);
    var scaled := seq(|p|, i requires 0 <= i < |p| => sp.Act(delta, p[i]));
    forall i | 0 <= i < |k| ensures k[i] == sp.Plus(c[i], scaled[i]) {
      ShiftedIsSum(sp, delta, a, b, c, p, k, i);
    }
    DecodePlus(sp, cols, coeffs, c, scaled, k, o.sparseSize);
    DecodeAct(sp, cols, coeffs, delta, p, scaled, o.sparseSize);
    var d := At(sp, o, p, x);
    assert sp.ValueLaws(At(sp, o, c, x), sp.Act(delta, d), sp.Act(delta, v));
    assert sp.ActLaws(delta, delta, d, v);
  }

  /** For an invertible delta the masks of a key agree exactly if the key was encoded with v. */
  lemma MasksAgreeIff<K(!new)>(sp: Space<K, K>, o: Okvs<K>, delta: K, a: seq<K>, b: seq<K>, c: seq<K>, p: seq<K>,
      k: seq<K>, x: K, v: K)
    requires sp.IsSpace() && o.Good() && |a| == o.Size() && sp.Inv(delta).Some?
    requires Correlated(sp, delta, a, b, c) && Shifted(sp, delta, a, b, p, k)
    ensures sp.Plus(At(sp, o, k, x), sp.Act(delta, v)) == At(sp, o, c, x) <==> At(sp, o, p, x) == v
  {
    MaskDifference(sp, o, delta, a, b, c, p, k, x, v);
    var d, m := sp.Plus(At(sp, o, p, x), v), At(sp, o, c, x);
    Undo(sp, m, sp.Act(delta, d));
    Undo(sp, v, At(sp, o, p, x));
    var inv := sp.Inv(delta).value;
    assert sp.ScalarLaws(delta, inv, inv);
    assert sp.ScalarLaws(inv, delta, delta);
    assert sp.ActLaws(inv, delta, d, d) && sp.ActLaws(sp.one, sp.one, d, d) && sp.ActLaws(inv, inv, d, d) &&
        sp.ActLaws(delta, delta, d, d);
  }

  // Adding d changes nothing exactly if d is nil; two values are equal if they cancel.
  lemma Undo<K(!new), V(!new)>(sp: Space<K, V>, m: V, d: V)
    requires sp.IsSpace()
    ensures sp.Plus(m, d) == m <==> d == sp.nil
    ensures sp.Plus(d, m) == sp.nil <==> d == m
  {
    assert sp.ValueLaws(m, m, d) && sp.ValueLaws(d, sp.nil, d) && sp.ValueLaws(m, d, m) && sp.ValueLaws(m, sp.nil, d);
    assert sp.ValueLaws(d, m, m) && sp.ValueLaws(sp.nil, m, m) && sp.ValueLaws(sp.nil, d, d);
  }

  // An encoded key has the same mask on both sides, whatever delta is.
  lemma MasksAgree<K(!new)>(sp: Space<K, K>, o: Okvs<K>, delta: K, a: seq<K>, b: seq<K>, c: seq<K>, p: seq<K>,
      k: seq<K>, x: K)
    requires sp.IsSpace() && o.Good() && |a| == o.Size()
    requires Correlated(sp, delta, a, b, c) && Shifted(sp, delta, a, b, p, k)
    ensures sp.Plus(At(sp, o, k, x), sp.Act(delta, At(sp, o, p, x))) == At(sp, o, c, x)
  {
    var v, m := At(sp, o, p, x), At(sp, o, c, x);
    MaskDifference(sp, o, delta, a, b, c, p, k, x, v);
    assert sp.ValueLaws(v, v, v) && sp.ActLaws(delta, delta, v, v) && sp.ValueLaws(m, m, m);
  }
}

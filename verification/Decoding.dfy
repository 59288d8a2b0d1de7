/** Decoding a key is an inner product with the OKVS vector (decode1 in PaxosImpl.h). */
module Decoding {
  import opened Algebra

  // The exclusive-or of the entries of p at the given sparse columns.
  function SparseSum<K(!new), V(!new)>(sp: Space<K, V>, p: seq<V>, cols: seq<nat>): V
    requires forall j :: 0 <= j < |cols| ==> cols[j] < |p|
  {
    if cols == [] then sp.nil else
      sp.Plus(SparseSum(sp, p, cols[..|cols| - 1]), p[cols[|cols| - 1]])
  }

  // A key's row fits a vector of sparseSize sparse and |coeffs| dense entries.
  ghost predicate Fits<K, V>(cols: seq<nat>, coeffs: seq<K>, p: seq<V>, sparseSize: nat)
  {
    && |p| == sparseSize + |coeffs|
    && forall j :: 0 <= j < |cols| ==> cols[j] < sparseSize
  }

  function Decode<K(!new), V(!new)>(sp: Space<K, V>, cols: seq<nat>, coeffs: seq<K>, p: seq<V>, sparseSize: nat): V
    requires Fits(cols, coeffs, p, sparseSize)
  {
    sp.Plus(SparseSum(sp, p, cols), sp.Dot(coeffs, p[sparseSize..], |coeffs|))
  }

  // ----- Linearity -----

  lemma {:induction false} SparseSumPlus<K(!new), V(!new)>(sp: Space<K, V>, p: seq<V>, q: seq<V>, s: seq<V>,
      cols: seq<nat>)
    requires sp.IsSpace() && |p| == |q| == |s| && forall j :: 0 <= j < |cols| ==> cols[j] < |p|
    requires forall c :: 0 <= c < |p| ==> s[c] == sp.Plus(p[c], q[c])
    ensures SparseSum(sp, s, cols) == sp.Plus(SparseSum(sp, p, cols), SparseSum(sp, q, cols))
  {
    if cols == [] {
      assert sp.ValueLaws(sp.nil, sp.nil, sp.nil);
    } else {
      var init, c := cols[..|cols| - 1], cols[|cols| - 1];
      SparseSumPlus(sp, p, q, s, init);
      sp.Swap4(SparseSum(sp, p, init), SparseSum(sp, q, init), p[c], q[c]);
    }
  }

  lemma {:induction false} SparseSumAct<K(!new), V(!new)>(sp: Space<K, V>, a: K, p: seq<V>, s: seq<V>, cols: seq<nat>)
    requires sp.IsSpace() && |p| == |s| && forall j :: 0 <= j < |cols| ==> cols[j] < |p|
    requires forall c :: 0 <= c < |p| ==> s[c] == sp.Act(a, p[c])
    ensures SparseSum(sp, s, cols) == sp.Act(a, SparseSum(sp, p, cols))
  {
    if cols == [] {
      assert sp.ActLaws(a, a, sp.nil, sp.nil);
    } else {
      var init, c := cols[..|cols| - 1], cols[|cols| - 1];
      SparseSumAct(sp, a, p, s, init);
      assert sp.ActLaws(a, a, SparseSum(sp, p, init), p[c]);
    }
  }

  /** Decoding is linear in the vector. */
  lemma DecodePlus<K(!new), V(!new)>(sp: Space<K, V>, cols: seq<nat>, coeffs: seq<K>, p: seq<V>, q: seq<V>, s: seq<V>,
      sparseSize: nat)
    requires sp.IsSpace()
    requires Fits(cols, coeffs, p, sparseSize) && Fits(cols, coeffs, q, sparseSize) && |s| == |p|
    requires forall c :: 0 <= c < |p| ==> s[c] == sp.Plus(p[c], q[c])
    ensures Decode(sp, cols, coeffs, s, sparseSize)
         == sp.Plus(Decode(sp, cols, coeffs, p, sparseSize), Decode(sp, cols, coeffs, q, sparseSize))
  {
    SparseSumPlus(sp, p, q, s, cols);
    sp.DotPlus(coeffs, p[sparseSize..], q[sparseSize..], s[sparseSize..], |coeffs|);
    sp.Swap4(SparseSum(sp, p, cols), SparseSum(sp, q, cols),
             sp.Dot(coeffs, p[sparseSize..], |coeffs|), sp.Dot(coeffs, q[sparseSize..], |coeffs|));
  }

  lemma DecodeAct<K(!new), V(!new)>(sp: Space<K, V>, cols: seq<nat>, coeffs: seq<K>, a: K, p: seq<V>, s: seq<V>,
      sparseSize: nat)
    requires sp.IsSpace() && Fits(cols, coeffs, p, sparseSize) && |s| == |p|
    requires forall c :: 0 <= c < |p| ==> s[c] == sp.Act(a, p[c])
    ensures Decode(sp, cols, coeffs, s, sparseSize) == sp.Act(a, Decode(sp, cols, coeffs, p, sparseSize))
  {
    SparseSumAct(sp, a, p, s, cols);
    sp.DotAct(coeffs, a, p[sparseSize..], s[sparseSize..], |coeffs|);
    assert sp.ActLaws(a, a, SparseSum(sp, p, cols), sp.Dot(coeffs, p[sparseSize..], |coeffs|));
  }

  // ----- Dense coefficients -----

  // d, d^2, ..., d^n.
  function Powers<K(!new), V(!new)>(sp: Space<K, V>, d: K, n: nat): (s: seq<K>)
    ensures |s| == n
  {
    if n == 0 then [] else
      var s := Powers(sp, d, n - 1);
      s + [if n == 1 then d else sp.Mul(s[n - 2], d)]
  }

  lemma {:induction false} PowersPrefix<K(!new), V(!new)>(sp: Space<K, V>, d: K, m: nat, n: nat)
    requires m <= n
    ensures Powers(sp, d, n)[..m] == Powers(sp, d, m)
    decreases n
  {
    if m < n {
      PowersPrefix(sp, d, m, n - 1);
      assert Powers(sp, d, n)[..n - 1] == Powers(sp, d, n - 1);
      assert Powers(sp, d, n)[..m] == Powers(sp, d, n)[..n - 1][..m];
    }
  }

  // decode1 with the GF128 dense type: the powers of the hash are computed on the way.
  method Decode1Gf128<K(!new), V(!new)>(sp: Space<K, V>, cols: seq<nat>, dense: K, denseSize: nat, p: seq<V>,
      sparseSize: nat) returns (v: V)
    requires sp.IsSpace() && 0 < |cols| && 0 < denseSize
    requires Fits(cols, Powers(sp, dense, denseSize), p, sparseSize)
    ensures v == Decode(sp, cols, Powers(sp, dense, denseSize), p, sparseSize)
  {
    ghost var coeffs := Powers(sp, dense, denseSize);
    v := SumSparse(sp, cols, p);
    v := AddDensePowers(sp, v, dense, denseSize, p[sparseSize..]);
  }

  method SumSparse<K(!new), V(!new)>(sp: Space<K, V>, cols: seq<nat>, p: seq<V>) returns (v: V)
    requires sp.IsSpace() && 0 < |cols| && forall j :: 0 <= j < |cols| ==> cols[j] < |p|
    ensures v == SparseSum(sp, p, cols)
  {
    v := p[cols[0]];
    assert sp.ValueLaws(sp.nil, v, v) && sp.ValueLaws(v, sp.nil, sp.nil) && cols[..1][..0] == [];
    var j := 1;
    while j < |cols|
      invariant 1 <= j <= |cols| && v == SparseSum(sp, p, cols[..j])
    {
      assert cols[..j + 1][..j] == cols[..j];
      v := sp.Plus(v, p[cols[j]]);
      j := j + 1;
    }
    assert cols[..j] == cols;
  }

  // The loop that multiplies the running power by d and adds its multiple of the next entry.
  method AddDensePowers<K(!new), V(!new)>(sp: Space<K, V>, v0: V, d: K, denseSize: nat, p2: seq<V>) returns (v: V)
    requires sp.IsSpace() && 0 < denseSize == |p2|
    ensures v == sp.Plus(v0, sp.Dot(Powers(sp, d, denseSize), p2, denseSize))
  {
    ghost var coeffs := Powers(sp, d, denseSize);
    var x := d;
    PowersPrefix(sp, d, 1, denseSize);
    assert coeffs[0] == coeffs[..1][0];
    v := sp.Plus(v0, sp.Act(x, p2[0]));
    assert sp.ValueLaws(sp.nil, sp.Act(x, p2[0]), sp.nil) && sp.ValueLaws(sp.Act(x, p2[0]), sp.nil, sp.nil);
    var i := 1;
    while i < denseSize
      invariant 1 <= i <= denseSize && x == coeffs[i - 1]
      invariant v == sp.Plus(v0, sp.Dot(coeffs, p2, i))
    {
      PowersPrefix(sp, d, i + 1, denseSize);
      assert coeffs[i] == coeffs[..i + 1][i] && coeffs[i - 1] == coeffs[..i + 1][i - 1];
      x := sp.Mul(x, d);
      assert sp.ValueLaws(v0, sp.Dot(coeffs, p2, i), sp.Act(x, p2[i]));
      v := sp.Plus(v, sp.Act(x, p2[i]));
      i := i + 1;
    }
  }

  // decode1 with the Binary dense type: entries are added where the hash has a bit.
  method Decode1Binary<V(!new)>(sp: Space<bool, V>, cols: seq<nat>, bits: seq<bool>, p: seq<V>, sparseSize: nat)
    returns (v: V)
    requires sp.IsSpace() && !sp.zero && sp.one && 0 < |cols| && Fits(cols, bits, p, sparseSize)
    ensures v == Decode(sp, cols, bits, p, sparseSize)
  {
    var s := SumSparse(sp, cols, p);
    v := s;
    assert sp.ValueLaws(s, sp.nil, sp.nil);
    ghost var p2 := p[sparseSize..];
    var i := 0;
    while i < |bits|
      invariant i <= |bits| && v == sp.Plus(s, sp.Dot(bits, p2, i))
    {
      assert sp.ActLaws(true, true, p2[i], p2[i]) && sp.ValueLaws(sp.Dot(bits, p2, i), sp.nil, sp.nil);
      assert sp.ValueLaws(s, sp.Dot(bits, p2, i), p2[i]);
      if bits[i] {
        v := sp.Plus(v, p[i + sparseSize]);
      }
      i := i + 1;
    }
  }
}

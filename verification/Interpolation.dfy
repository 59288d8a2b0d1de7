/** Polynomial interpolation over a field (Interpolate and Evaluate in psu/krtw19_psu.cc). */
module Interpolation {
  import opened Lists
  import opened Algebra

  ghost predicate IsField<K(!new)>(sp: Space<K, K>)
  {
    sp.IsSpace() && sp.one != sp.zero && forall a :: a != sp.zero ==> sp.Inv(a).Some?
  }

  // The value of a polynomial, coefficients from the lowest.
  function Value<K(!new)>(sp: Space<K, K>, cs: seq<K>, x: K): K
  {
    if cs == [] then sp.zero else sp.Add(sp.Mul(Value(sp, cs[1..], x), x), cs[0])
  }

  /** Evaluate: Horner's rule from the highest coefficient. */
  method Evaluate<K(!new)>(sp: Space<K, K>, cs: array<K>, x: K) returns (y: K)
    requires sp.IsSpace() && 0 < cs.Length
    ensures y == Value(sp, cs[..], x)
  {
    var idx := cs.Length - 1;
    y := cs[idx];
    assert cs[idx..][1..] == [];
    assert sp.ScalarLaws(x, y, y) && sp.ScalarLaws(sp.zero, x, y) && sp.ScalarLaws(y, sp.zero, y) &&
        sp.ScalarLaws(sp.zero, y, y);
    while idx > 0
      invariant 0 <= idx < cs.Length && y == Value(sp, cs[idx..], x)
    {
      assert cs[idx - 1..][1..] == cs[idx..];
      y := sp.Add(sp.Mul(y, x), cs[idx - 1]);
      idx := idx - 1;
    }
    assert cs[0..] == cs[..];
  }

  // ----- Products of linear factors -----

  // The coefficients of (X + a) times a polynomial, cut to the same length.
  function MulLinear<K(!new)>(sp: Space<K, K>, cs: seq<K>, a: K): (s: seq<K>)
    ensures |s| == |cs|
  {
    seq(|cs|, k requires 0 <= k < |cs| => sp.Add(sp.Mul(cs[k], a), if k == 0 then sp.zero else cs[k - 1]))
  }

  // The coefficients of the product of all X + xs[i].
  function PolyOf<K(!new)>(sp: Space<K, K>, xs: seq<K>, size: nat): (s: seq<K>)
    ensures |s| == size
  {
    if xs == [] then seq(size, k => if k == 0 then sp.one else sp.zero)
    else MulLinear(sp, PolyOf(sp, xs[..|xs| - 1], size), xs[|xs| - 1])
  }

  function Product<K(!new)>(sp: Space<K, K>, xs: seq<K>, x: K): K
  {
    if xs == [] then sp.one else sp.Mul(Product(sp, xs[..|xs| - 1], x), sp.Add(x, xs[|xs| - 1]))
  }

  lemma {:induction false} ValueOfZeros<K(!new)>(sp: Space<K, K>, cs: seq<K>, x: K)
    requires sp.IsSpace() && forall k :: 0 <= k < |cs| ==> cs[k] == sp.zero
    ensures Value(sp, cs, x) == sp.zero
  {
    if cs != [] {
      ValueOfZeros(sp, cs[1..], x);
      assert sp.ScalarLaws(x, sp.zero, sp.zero) && sp.ScalarLaws(sp.zero, x, x) && sp.ScalarLaws(sp.zero, sp.zero,
          sp.zero);
    }
  }

  // Adding a multiple of one polynomial to another.
  lemma {:induction false} ValueAddScaled<K(!new)>(sp: Space<K, K>, cs: seq<K>, ds: seq<K>, s: seq<K>, c: K, x: K)
    requires sp.IsSpace() && |cs| == |ds| == |s| && forall k :: 0 <= k < |cs| ==>
        s[k] == sp.Add(cs[k], sp.Mul(ds[k], c))
    ensures Value(sp, s, x) == sp.Add(Value(sp, cs, x), sp.Mul(Value(sp, ds, x), c))
  {
    if cs == [] {
      assert sp.ScalarLaws(c, sp.zero, sp.zero) && sp.ScalarLaws(sp.zero, c, c) && sp.ScalarLaws(sp.zero, sp.zero,
          sp.zero);
    } else {
      ValueAddScaled(sp, cs[1..], ds[1..], s[1..], c, x);
      HornerStep(sp, Value(sp, cs[1..], x), Value(sp, ds[1..], x), cs[0], ds[0], c, x);
    }
  }

  lemma HornerStep<K(!new)>(sp: Space<K, K>, p: K, q: K, a: K, b: K, c: K, x: K)
    requires sp.IsSpace()
    ensures sp.Add(sp.Mul(sp.Add(p, sp.Mul(q, c)), x), sp.Add(a, sp.Mul(b, c)))
         == sp.Add(sp.Add(sp.Mul(p, x), a), sp.Mul(sp.Add(sp.Mul(q, x), b), c))
  {
    var qc, bc := sp.Mul(q, c), sp.Mul(b, c);
    assert sp.ScalarLaws(x, p, qc) && sp.ScalarLaws(p, x, x) && sp.ScalarLaws(sp.Add(p, qc), x, x) &&
        sp.ScalarLaws(qc, x, x);
    assert sp.ScalarLaws(q, c, x) && sp.ScalarLaws(q, x, c) && sp.ScalarLaws(c, x, x);
    var qx := sp.Mul(q, x);
    assert sp.ScalarLaws(c, qx, b) && sp.ScalarLaws(c, sp.Add(qx, b), b) && sp.ScalarLaws(c, b, b);
    AddSwap(sp, sp.Mul(p, x), sp.Mul(qx, c), a, bc);
  }

  lemma AddSwap<K(!new)>(sp: Space<K, K>, p: K, q: K, r: K, s: K)
    requires sp.IsSpace()
    ensures sp.Add(sp.Add(p, q), sp.Add(r, s)) == sp.Add(sp.Add(p, r), sp.Add(q, s))
  {
    assert sp.ScalarLaws(p, q, sp.Add(r, s)) && sp.ScalarLaws(q, r, s) && sp.ScalarLaws(r, q, s) &&
        sp.ScalarLaws(p, r, sp.Add(q, s));
  }

  // Shifting a polynomial up by one place and dropping a zero at its top.
  lemma {:induction false} ValueShift<K(!new)>(sp: Space<K, K>, cs: seq<K>, s: seq<K>, c: K, x: K)
    requires sp.IsSpace() && |cs| == |s| && 0 < |cs| && cs[|cs| - 1] == sp.zero && s[0] == c
    requires forall k :: 0 < k < |cs| ==> s[k] == cs[k - 1]
    ensures Value(sp, s, x) == sp.Add(sp.Mul(Value(sp, cs, x), x), c)
  {
    if |cs| == 1 {
      assert s[1..] == [] == cs[1..];
      assert sp.ScalarLaws(x, sp.zero, sp.zero) && sp.ScalarLaws(sp.zero, x, x) && sp.ScalarLaws(sp.zero, sp.zero,
          sp.zero);
    } else {
      ValueShift(sp, cs[1..], s[1..], cs[0], x);
    }
  }

  lemma ValueMulLinear<K(!new)>(sp: Space<K, K>, cs: seq<K>, a: K, x: K)
    requires sp.IsSpace() && 0 < |cs| && cs[|cs| - 1] == sp.zero
    ensures Value(sp, MulLinear(sp, cs, a), x) == sp.Mul(Value(sp, cs, x), sp.Add(x, a))
  {
    var shifted := seq(|cs|, k requires 0 <= k < |cs| => if k == 0 then sp.zero else cs[k - 1]);
    var v := Value(sp, cs, x);
    ValueShift(sp, cs, shifted, sp.zero, x);
    assert sp.ScalarLaws(sp.Mul(v, x), sp.zero, sp.zero);
    forall k | 0 <= k < |cs| ensures MulLinear(sp, cs, a)[k] == sp.Add(shifted[k], sp.Mul(cs[k], a)) {
      assert sp.ScalarLaws(sp.Mul(cs[k], a), shifted[k], a);
    }
    ValueAddScaled(sp, shifted, cs, MulLinear(sp, cs, a), a, x);
    assert sp.ScalarLaws(v, x, a);
  }

  // The product has degree |xs| and leading coefficient one; its values are products.
  lemma {:induction false} PolyOfShape<K(!new)>(sp: Space<K, K>, xs: seq<K>, size: nat)
    requires sp.IsSpace() && |xs| < size
    ensures PolyOf(sp, xs, size)[|xs|] == sp.one
    ensures forall k :: |xs| < k < size ==> PolyOf(sp, xs, size)[k] == sp.zero
  {
    if xs != [] {
      var init, a := xs[..|xs| - 1], xs[|xs| - 1];
      PolyOfShape(sp, init, size);
      assert sp.ScalarLaws(a, sp.zero, sp.zero) && sp.ScalarLaws(sp.zero, a, a) && sp.ScalarLaws(sp.zero, sp.zero,
          sp.zero);
      assert sp.ScalarLaws(sp.zero, sp.one, sp.one) && sp.ScalarLaws(sp.one, sp.zero, sp.zero);
    }
  }

  lemma {:induction false} PolyOfValue<K(!new)>(sp: Space<K, K>, xs: seq<K>, size: nat, x: K)
    requires sp.IsSpace() && |xs| < size
    ensures Value(sp, PolyOf(sp, xs, size), x) == Product(sp, xs, x)
  {
    if xs == [] {
      var cs := PolyOf(sp, xs, size);
      ValueOfZeros(sp, cs[1..], x);
      assert sp.ScalarLaws(x, sp.zero, sp.zero) && sp.ScalarLaws(sp.zero, x, x) && sp.ScalarLaws(sp.zero, sp.one,
          sp.one) && sp.ScalarLaws(sp.one, sp.zero, sp.zero);
    } else {
      var init := xs[..|xs| - 1];
      PolyOfShape(sp, init, size);
      PolyOfValue(sp, init, size, x);
      ValueMulLinear(sp, PolyOf(sp, init, size), xs[|xs| - 1], x);
    }
  }

  // A longer list of coefficients only gains zeros.
  lemma {:induction false} PolyOfLonger<K(!new)>(sp: Space<K, K>, xs: seq<K>, size: nat)
    requires sp.IsSpace() && |xs| < size
    ensures PolyOf(sp, xs, size + 1) == PolyOf(sp, xs, size) + [sp.zero]
  {
    if xs != [] {
      var init, a := xs[..|xs| - 1], xs[|xs| - 1];
      PolyOfLonger(sp, init, size);
      PolyOfShape(sp, init, size);
      MulLonger(sp, PolyOf(sp, init, size), a);
    }
  }

  lemma MulLonger<K(!new)>(sp: Space<K, K>, cs: seq<K>, a: K)
    requires sp.IsSpace() && 0 < |cs| && cs[|cs| - 1] == sp.zero
    ensures MulLinear(sp, cs + [sp.zero], a) == MulLinear(sp, cs, a) + [sp.zero]
  {
    assert sp.ScalarLaws(a, sp.zero, sp.zero) && sp.ScalarLaws(sp.zero, a, a) && sp.ScalarLaws(sp.zero, sp.zero,
        sp.zero);
  }

  lemma MulLinearCommutes<K(!new)>(sp: Space<K, K>, cs: seq<K>, a: K, b: K)
    requires sp.IsSpace()
    ensures MulLinear(sp, MulLinear(sp, cs, a), b) == MulLinear(sp, MulLinear(sp, cs, b), a)
  {
    forall k | 0 <= k < |cs|
      ensures MulLinear(sp, MulLinear(sp, cs, a), b)[k] == MulLinear(sp, MulLinear(sp, cs, b), a)[k]
    {
      var c0 := cs[k];
      var c1 := if k == 0 then sp.zero else cs[k - 1];
      var c2 := if k <= 1 then sp.zero else cs[k - 2];
      CommuteStep(sp, c0, c1, c2, a, b);
      if k == 0 {
        assert sp.ScalarLaws(a, sp.zero, sp.zero) && sp.ScalarLaws(sp.zero, a, a) && sp.ScalarLaws(sp.zero, sp.zero,
            sp.zero);
        assert sp.ScalarLaws(b, sp.zero, sp.zero) && sp.ScalarLaws(sp.zero, b, b);
      }
    }
  }

  lemma CommuteStep<K(!new)>(sp: Space<K, K>, c0: K, c1: K, c2: K, a: K, b: K)
    requires sp.IsSpace()
    ensures sp.Add(sp.Mul(sp.Add(sp.Mul(c0, a), c1), b), sp.Add(sp.Mul(c1, a), c2))
         == sp.Add(sp.Mul(sp.Add(sp.Mul(c0, b), c1), a), sp.Add(sp.Mul(c1, b), c2))
  {
    Expand(sp, c0, c1, a, b);
    Expand(sp, c0, c1, b, a);
    assert sp.ScalarLaws(c0, a, b) && sp.ScalarLaws(c0, b, a) && sp.ScalarLaws(a, b, b);
    var p, q, r := sp.Mul(sp.Mul(c0, a), b), sp.Mul(c1, b), sp.Mul(c1, a);
    assert sp.ScalarLaws(p, q, sp.Add(r, c2)) && sp.ScalarLaws(q, r, c2) && sp.ScalarLaws(p, r, sp.Add(q, c2)) &&
        sp.ScalarLaws(r, q, c2);
  }

  lemma Expand<K(!new)>(sp: Space<K, K>, c0: K, c1: K, a: K, b: K)
    requires sp.IsSpace()
    ensures sp.Mul(sp.Add(sp.Mul(c0, a), c1), b) == sp.Add(sp.Mul(sp.Mul(c0, a), b), sp.Mul(c1, b))
  {
    var m := sp.Mul(c0, a);
    assert sp.ScalarLaws(b, m, c1) && sp.ScalarLaws(sp.Add(m, c1), b, b) && sp.ScalarLaws(m, b, b) &&
        sp.ScalarLaws(c1, b, b);
  }

  function Others<K>(xs: seq<K>, i: nat): (s: seq<K>)
    requires i < |xs|
    ensures |s| == |xs| - 1
  {
    xs[..i] + xs[i + 1..]
  }

  // Any factor may be taken out last.
  lemma {:induction false} TakeOut<K(!new)>(sp: Space<K, K>, xs: seq<K>, i: nat, size: nat)
    requires sp.IsSpace() && i < |xs|
    ensures PolyOf(sp, xs, size) == MulLinear(sp, PolyOf(sp, Others(xs, i), size), xs[i])
    decreases |xs|
  {
    hide MulLinear;
    var n := |xs| - 1;
    if i == n {
      assert Others(xs, i) == xs[..n];
    } else {
      TakeOut(sp, xs[..n], i, size);
      var rest := Others(xs[..n], i);
      assert Others(xs, i) == rest + [xs[n]];
      assert (rest + [xs[n]])[..n - 1] == rest;
      assert PolyOf(sp, rest + [xs[n]], size) == MulLinear(sp, PolyOf(sp, rest, size), xs[n]);
      MulLinearCommutes(sp, PolyOf(sp, rest, size), xs[i], xs[n]);
    }
  }

  // ----- Roots -----

  lemma {:induction false} ProductAtRoot<K(!new)>(sp: Space<K, K>, xs: seq<K>, x: K)
    requires sp.IsSpace() && x in xs
    ensures Product(sp, xs, x) == sp.zero
  {
    var init, a := xs[..|xs| - 1], xs[|xs| - 1];
    var p, d := Product(sp, init, x), sp.Add(x, a);
    assert sp.ScalarLaws(p, sp.zero, sp.zero) && sp.ScalarLaws(d, sp.zero, sp.zero) && sp.ScalarLaws(sp.zero, d, d) &&
        sp.ScalarLaws(x, x, x);
    if x != a {
      assert xs == init + [a];
      ProductAtRoot(sp, init, x);
    }
  }

  lemma {:induction false} ProductOffRoots<K(!new)>(sp: Space<K, K>, xs: seq<K>, x: K)
    requires IsField(sp) && x !in xs
    ensures Product(sp, xs, x) != sp.zero
  {
    if xs != [] {
      var init, a := xs[..|xs| - 1], xs[|xs| - 1];
      assert xs == init + [a];
      ProductOffRoots(sp, init, x);
      assert sp.ScalarLaws(x, a, a) && sp.ScalarLaws(sp.zero, a, a) && sp.ScalarLaws(a, sp.zero, sp.zero) &&
          sp.ScalarLaws(x, sp.zero, sp.zero) && sp.ScalarLaws(a, a, a);
      NoZeroDivisors(sp, Product(sp, init, x), sp.Add(x, a));
    }
  }

  lemma NoZeroDivisors<K(!new)>(sp: Space<K, K>, p: K, d: K)
    requires IsField(sp) && p != sp.zero && d != sp.zero
    ensures sp.Mul(p, d) != sp.zero
  {
    var inv := sp.Inv(d).value;
    assert sp.ScalarLaws(p, d, inv) && sp.ScalarLaws(d, inv, inv) && sp.ScalarLaws(p, sp.one, sp.one);
    assert sp.ScalarLaws(inv, sp.zero, sp.zero) && sp.ScalarLaws(sp.zero, inv, inv);
  }

  // ----- Interpolate -----

  // poly times X + a in place: each old coefficient is carried to the next place.
  method MulInPlace<K(!new)>(sp: Space<K, K>, poly: array<K>, j: nat, a: K)
    requires sp.IsSpace() && j + 1 < poly.Length && forall k :: j < k < poly.Length ==> poly[k] == sp.zero
    modifies poly
    ensures poly[..] == MulLinear(sp, old(poly[..]), a)
  {
    hide MulLinear, Space.IsSpace;
    ghost var before, next := poly[..], MulLinear(sp, poly[..], a);
    MulTail(sp, before, j, a);
    var sum, k := sp.zero, 0;
    while k <= j + 1
      invariant 0 <= k <= j + 2 && sum == if k == 0 then sp.zero else before[k - 1]
      invariant forall q :: 0 <= q < poly.Length ==> poly[q] == if q < k then next[q] else before[q]
    {
      MulEntry(sp, before, a, k);
      var carried := poly[k];
      poly[k] := sp.Add(sp.Mul(poly[k], a), sum);
      sum := carried;
      k := k + 1;
    }
  }

  lemma MulEntry<K(!new)>(sp: Space<K, K>, cs: seq<K>, a: K, k: nat)
    requires k < |cs|
    ensures MulLinear(sp, cs, a)[k] == sp.Add(sp.Mul(cs[k], a), if k == 0 then sp.zero else cs[k - 1])
  {
  }

  lemma MulTail<K(!new)>(sp: Space<K, K>, cs: seq<K>, j: nat, a: K)
    requires sp.IsSpace() && forall k :: j < k < |cs| ==> cs[k] == sp.zero
    ensures forall k :: j + 1 < k < |cs| ==> MulLinear(sp, cs, a)[k] == cs[k]
  {
    assert sp.ScalarLaws(a, sp.zero, sp.zero) && sp.ScalarLaws(sp.zero, a, a) && sp.ScalarLaws(sp.zero, sp.zero,
        sp.zero);
  }

  method BuildProduct<K(!new)>(sp: Space<K, K>, xs: seq<K>) returns (poly: array<K>)
    requires sp.IsSpace()
    ensures fresh(poly) && poly[..] == PolyOf(sp, xs, |xs| + 1)
  {
    hide PolyOf, MulLinear;
    var size := |xs|;
    poly := new K[size + 1](k => if k == 0 then sp.one else sp.zero);
    PolyOfNone(sp, size + 1);
    for j := 0 to size
      invariant poly[..] == PolyOf(sp, xs[..j], size + 1)
    {
      PolyOfShape(sp, xs[..j], size + 1);
      PolyOfNext(sp, xs, j, size + 1);
      assert forall k :: j < k < poly.Length ==> poly[k] == poly[..][k];
      MulInPlace(sp, poly, j, xs[j]);
    }
    assert xs[..size] == xs;
  }

  lemma PolyOfNone<K(!new)>(sp: Space<K, K>, size: nat)
    ensures PolyOf(sp, [], size) == seq(size, k => if k == 0 then sp.one else sp.zero)
  {
  }

  lemma PolyOfNext<K(!new)>(sp: Space<K, K>, xs: seq<K>, j: nat, size: nat)
    requires j < |xs|
    ensures PolyOf(sp, xs[..j + 1], size) == MulLinear(sp, PolyOf(sp, xs[..j], size), xs[j])
  {
    assert xs[..j + 1][..j] == xs[..j];
  }

  /** Dividing the product by one of its factors gives the product of the others. */
  method Divide<K(!new)>(sp: Space<K, K>, xs: seq<K>, poly: array<K>, i: nat) returns (subpoly: array<K>)
    requires sp.IsSpace() && i < |xs| && poly[..] == PolyOf(sp, xs, |xs| + 1)
    ensures fresh(subpoly) && subpoly[..] == PolyOf(sp, Others(xs, i), |xs|)
  {
    hide PolyOf, MulLinear;
    var size, xi := |xs|, xs[i];
    ghost var want := PolyOf(sp, Others(xs, i), size);
    subpoly := new K[size](_ => sp.zero);
    subpoly[size - 1] := sp.one;
    PolyOfShape(sp, Others(xs, i), size);
    var k := size - 2;
    while k >= 0
      invariant -1 <= k <= size - 2
      invariant forall q :: k < q < size ==> subpoly[q] == want[q]
    {
      DivideStep(sp, xs, i, k);
      subpoly[k] := sp.Add(poly[k + 1], sp.Mul(subpoly[k + 1], xi));
      assert poly[k + 1] == poly[..][k + 1];
      k := k - 1;
    }
  }

  lemma DivideStep<K(!new)>(sp: Space<K, K>, xs: seq<K>, i: nat, k: nat)
    requires sp.IsSpace() && i < |xs| && k + 1 < |xs|
    ensures var q := PolyOf(sp, Others(xs, i), |xs|);
      q[k] == sp.Add(PolyOf(sp, xs, |xs| + 1)[k + 1], sp.Mul(q[k + 1], xs[i]))
  {
    hide PolyOf, MulLinear, Others, Space.IsSpace;
    var q, a := PolyOf(sp, Others(xs, i), |xs|), xs[i];
    TakeOut(sp, xs, i, |xs| + 1);
    PolyOfLonger(sp, Others(xs, i), |xs|);
    Quotient(sp, q, a, k);
  }

  // The division recovers the coefficients of the other factor.
  lemma Quotient<K(!new)>(sp: Space<K, K>, q: seq<K>, a: K, k: nat)
    requires sp.IsSpace() && k + 1 < |q|
    ensures q[k] == sp.Add(MulLinear(sp, q + [sp.zero], a)[k + 1], sp.Mul(q[k + 1], a))
  {
    var m := sp.Mul(q[k + 1], a);
    assert MulLinear(sp, q + [sp.zero], a)[k + 1] == sp.Add(m, q[k]);
    assert sp.ScalarLaws(m, q[k], m) && sp.ScalarLaws(q[k], m, m) && sp.ScalarLaws(m, m, m) &&
        sp.ScalarLaws(q[k], sp.zero, sp.zero);
  }

  // The accumulated polynomial has the wanted values at the first i points and zero at the rest.
  ghost predicate Fitted<K(!new)>(sp: Space<K, K>, cs: seq<K>, xs: seq<K>, ys: seq<K>, i: nat)
    requires |xs| == |ys|
  {
    forall j :: 0 <= j < |xs| ==> Value(sp, cs, xs[j]) == if j < i then ys[j] else sp.zero
  }

  lemma FitNext<K(!new)>(sp: Space<K, K>, cs: seq<K>, sub: seq<K>, s: seq<K>, xs: seq<K>, ys: seq<K>, i: nat, c: K)
    requires IsField(sp) && |xs| == |ys| && i < |xs| && Distinct(xs) && Fitted(sp, cs, xs, ys, i)
    requires sub == PolyOf(sp, Others(xs, i), |xs|) && |cs| == |s| == |xs|
    requires Value(sp, sub, xs[i]) != sp.zero && c == sp.Mul(ys[i], sp.Inv(Value(sp, sub, xs[i])).value)
    requires forall k :: 0 <= k < |cs| ==> s[k] == sp.Add(cs[k], sp.Mul(sub[k], c))
    ensures Fitted(sp, s, xs, ys, i + 1)
  {
    hide PolyOf;
    forall j | 0 <= j < |xs| ensures Value(sp, s, xs[j]) == if j < i + 1 then ys[j] else sp.zero {
      var v, w := Value(sp, sub, xs[j]), Value(sp, cs, xs[j]);
      ValueAddScaled(sp, cs, sub, s, c, xs[j]);
      if j == i {
        var inv := sp.Inv(v).value;
        assert sp.ScalarLaws(ys[i], inv, v) && sp.ScalarLaws(v, inv, inv) && sp.ScalarLaws(inv, v, v) &&
            sp.ScalarLaws(ys[i], sp.one, sp.one);
        assert sp.ScalarLaws(c, v, v) && sp.ScalarLaws(sp.zero, ys[i], ys[i]) && sp.ScalarLaws(ys[i], sp.zero, sp.zero);
      } else {
        assert Others(xs, i)[if j < i then j else j - 1] == xs[j];
        PolyOfValue(sp, Others(xs, i), |xs|, xs[j]);
        ProductAtRoot(sp, Others(xs, i), xs[j]);
        assert sp.ScalarLaws(c, sp.zero, sp.zero) && sp.ScalarLaws(sp.zero, c, c) && sp.ScalarLaws(w, sp.zero, sp.zero);
      }
    }
  }

  lemma SubpolyOffRoot<K(!new)>(sp: Space<K, K>, xs: seq<K>, i: nat)
    requires IsField(sp) && i < |xs| && Distinct(xs)
    ensures Value(sp, PolyOf(sp, Others(xs, i), |xs|), xs[i]) != sp.zero
  {
    var rest := Others(xs, i);
    forall j | 0 <= j < |rest| ensures rest[j] != xs[i] {
      assert rest[j] == xs[if j < i then j else j + 1];
    }
    PolyOfValue(sp, rest, |xs|, xs[i]);
    ProductOffRoots(sp, rest, xs[i]);
  }

  /** Interpolate: for distinct points the polynomial has the given values, whatever their
      number. */
  method Interpolate<K(!new)>(sp: Space<K, K>, xs: seq<K>, ys: seq<K>) returns (coeffs: array<K>)
    requires IsField(sp) && |xs| == |ys| && Distinct(xs)
    ensures fresh(coeffs) && coeffs.Length == |xs|
    ensures forall i :: 0 <= i < |xs| ==> Value(sp, coeffs[..], xs[i]) == ys[i]
  {
    var poly := BuildProduct(sp, xs);
    coeffs := new K[|xs|](_ => sp.zero);
    forall j | 0 <= j < |xs| ensures Value(sp, coeffs[..], xs[j]) == sp.zero {
      ValueOfZeros(sp, coeffs[..], xs[j]);
    }
    for i := 0 to |xs|
      invariant poly[..] == PolyOf(sp, xs, |xs| + 1) && Fitted(sp, coeffs[..], xs, ys, i)
    {
      AddTerm(sp, xs, ys, poly, coeffs, i);
    }
  }

  // The term for one point.
  method AddTerm<K(!new)>(sp: Space<K, K>, xs: seq<K>, ys: seq<K>, poly: array<K>, coeffs: array<K>, i: nat)
    requires IsField(sp) && |xs| == |ys| == coeffs.Length && Distinct(xs) && i < |xs| && poly != coeffs
    requires poly[..] == PolyOf(sp, xs, |xs| + 1) && Fitted(sp, coeffs[..], xs, ys, i)
    modifies coeffs
    ensures Fitted(sp, coeffs[..], xs, ys, i + 1)
  {
    hide PolyOf, Fitted;
    var subpoly := Divide(sp, xs, poly, i);
    SubpolyOffRoot(sp, xs, i);
    var v := Evaluate(sp, subpoly, xs[i]);
    var prod := sp.Mul(ys[i], sp.Inv(v).value);
    ghost var before, sub := coeffs[..], subpoly[..];
    for k := 0 to |xs|
      invariant subpoly[..] == sub
      invariant forall q :: 0 <= q < |xs| ==>
        coeffs[q] == if q < k then sp.Add(before[q], sp.Mul(sub[q], prod)) else before[q]
    {
      coeffs[k] := sp.Add(coeffs[k], sp.Mul(subpoly[k], prod));
    }
    FitNext(sp, before, sub, coeffs[..], xs, ys, i, prod);
  }

  // ----- Few roots -----

  // The coefficients of the other factor when a polynomial is divided by X + a.
  function Cofactor<K(!new)>(sp: Space<K, K>, cs: seq<K>, a: K): (q: seq<K>)
    ensures |q| == if cs == [] then 0 else |cs| - 1
  {
    if |cs| <= 1 then [] else [Value(sp, cs[1..], a)] + Cofactor(sp, cs[1..], a)
  }

  lemma {:induction false} CofactorValue<K(!new)>(sp: Space<K, K>, cs: seq<K>, a: K, y: K)
    requires sp.IsSpace()
    ensures Value(sp, cs, y) == sp.Add(sp.Mul(Value(sp, Cofactor(sp, cs, a), y), sp.Add(y, a)), Value(sp, cs, a))
  {
    var s := sp.Add(y, a);
    assert sp.ScalarLaws(s, sp.zero, sp.zero) && sp.ScalarLaws(sp.zero, s, s);
    if |cs| <= 1 {
      assert cs != [] ==> cs[1..] == [];
      assert sp.ScalarLaws(y, sp.zero, sp.zero) && sp.ScalarLaws(sp.zero, y, y) && sp.ScalarLaws(a, sp.zero, sp.zero)
          && sp.ScalarLaws(sp.zero, a, a) && sp.ScalarLaws(sp.zero, Value(sp, cs, y), s) &&
          sp.ScalarLaws(Value(sp, cs, y), sp.zero, s);
    } else {
      var q := Cofactor(sp, cs[1..], a);
      CofactorValue(sp, cs[1..], a, y);
      assert ([Value(sp, cs[1..], a)] + q)[1..] == q;
      Deflate(sp, Value(sp, q, y), Value(sp, cs[1..], a), y, a, cs[0]);
    }
  }

  lemma Deflate<K(!new)>(sp: Space<K, K>, q: K, t: K, y: K, a: K, c: K)
    requires sp.IsSpace()
    ensures sp.Add(sp.Mul(sp.Add(sp.Mul(q, sp.Add(y, a)), t), y), c)
         == sp.Add(sp.Mul(sp.Add(sp.Mul(q, y), t), sp.Add(y, a)), sp.Add(sp.Mul(t, a), c))
  {
    var s, ty, ta := sp.Add(y, a), sp.Mul(t, y), sp.Mul(t, a);
    Expand(sp, q, t, s, y);
    Expand(sp, q, t, y, s);
    assert sp.ScalarLaws(q, s, y) && sp.ScalarLaws(q, y, s) && sp.ScalarLaws(s, y, y) && sp.ScalarLaws(t, y, a);
    AddTwice(sp, sp.Mul(sp.Mul(q, y), s), ty, ta, c);
  }

  lemma AddTwice<K(!new)>(sp: Space<K, K>, p: K, u: K, v: K, c: K)
    requires sp.IsSpace()
    ensures sp.Add(sp.Add(p, sp.Add(u, v)), sp.Add(v, c)) == sp.Add(sp.Add(p, u), c)
  {
    AddSwap(sp, p, sp.Add(u, v), v, c);
    assert sp.ScalarLaws(u, v, v) && sp.ScalarLaws(v, v, v) && sp.ScalarLaws(u, sp.zero, sp.zero);
    assert sp.ScalarLaws(sp.Add(u, v), v, v) && sp.ScalarLaws(sp.Add(p, sp.Add(u, v)), v, c);
    assert sp.ScalarLaws(p, sp.Add(u, v), v) && sp.ScalarLaws(p, u, c);
  }

  lemma {:induction false} ZeroCofactor<K(!new)>(sp: Space<K, K>, cs: seq<K>, a: K)
    requires sp.IsSpace() && Value(sp, cs, a) == sp.zero
    requires forall k :: 0 <= k < |cs| - 1 ==> Cofactor(sp, cs, a)[k] == sp.zero
    ensures forall k :: 0 <= k < |cs| ==> cs[k] == sp.zero
  {
    if cs != [] {
      assert sp.ScalarLaws(a, sp.zero, sp.zero) && sp.ScalarLaws(sp.zero, a, a);
      assert sp.ScalarLaws(sp.zero, cs[0], a) && sp.ScalarLaws(cs[0], sp.zero, a);
      if |cs| == 1 {
        assert cs[1..] == [];
      } else {
        var q := Cofactor(sp, cs[1..], a);
        assert Cofactor(sp, cs, a)[0] == Value(sp, cs[1..], a);
        forall k | 0 <= k < |cs| - 2 ensures q[k] == sp.zero {
          assert Cofactor(sp, cs, a)[k + 1] == q[k];
        }
        ZeroCofactor(sp, cs[1..], a);
        forall k | 0 <= k < |cs| ensures cs[k] == sp.zero {
          assert k > 0 ==> cs[1..][k - 1] == cs[k];
        }
      }
    }
  }

  ghost predicate IsUnit<K(!new)>(sp: Space<K, K>, a: K)
  {
    exists w :: sp.Mul(a, w) == sp.one
  }

  lemma UnitCancels<K(!new)>(sp: Space<K, K>, v: K, a: K)
    requires sp.IsSpace() && IsUnit(sp, a) && sp.Mul(v, a) == sp.zero
    ensures v == sp.zero
  {
    var w :| sp.Mul(a, w) == sp.one;
    assert sp.ScalarLaws(v, a, w) && sp.ScalarLaws(v, sp.one, w);
    assert sp.ScalarLaws(w, sp.zero, sp.zero) && sp.ScalarLaws(sp.zero, w, w);
  }

  /** A polynomial with as many roots as coefficients, whose differences are units, is zero. */
  lemma {:induction false} FewRoots<K(!new)>(sp: Space<K, K>, cs: seq<K>, xs: seq<K>)
    requires sp.IsSpace() && |cs| <= |xs|
    requires forall i :: 0 <= i < |xs| ==> Value(sp, cs, xs[i]) == sp.zero
    requires forall i, j :: 0 <= i < j < |xs| ==> IsUnit(sp, sp.Add(xs[j], xs[i]))
    ensures forall k :: 0 <= k < |cs| ==> cs[k] == sp.zero
    decreases |cs|
  {
    if cs != [] {
      var a, q := xs[0], Cofactor(sp, cs, xs[0]);
      forall i | 0 <= i < |xs| - 1 ensures Value(sp, q, xs[1..][i]) == sp.zero {
        var y := xs[i + 1];
        CofactorValue(sp, cs, a, y);
        var m := sp.Mul(Value(sp, q, y), sp.Add(y, a));
        assert sp.ScalarLaws(m, sp.zero, sp.zero);
        UnitCancels(sp, Value(sp, q, y), sp.Add(y, a));
      }
      FewRoots(sp, q, xs[1..]);
      ZeroCofactor(sp, cs, a);
    }
  }
}

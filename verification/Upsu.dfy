/** The updatable private set union: what the two parties compute in a round
    (examples/upsu/upsu.cc). */
module Upsu {
  import opened Lists
  import opened Arithmetic

  // ----- Points: H(base) raised to an exponent modulo the group order -----

  datatype Point<E> = Point(base: E, exp: nat)

  // ComputeSinglePRF, RaiseToKey and StripKey (with the inverse key).
  function Raise<E>(q: nat, v: Point<E>, k: nat): Point<E>
    requires 0 < q
  {
    Point(v.base, v.exp * k % q)
  }

  function HashToCurve<E>(x: E): Point<E> { Point(x, 1) }

  ghost predicate IsKey(q: nat, k: nat, kinv: nat)
  {
    1 < q && k < q && k * kinv % q == 1
  }

  // Raising to a key and stripping it again.
  lemma StripRaised(q: nat, e: nat, k: nat, kinv: nat)
    requires IsKey(q, k, kinv) && e < q
    ensures (e * k % q) * kinv % q == e
  {
    Rotate(e, k, kinv);
    StripProduct(q, e, kinv, e * k, k * kinv);
  }

  lemma StripProduct(q: nat, e: nat, kinv: nat, x: nat, y: nat)
    requires e < q && x * kinv == y * e && y % q == 1
    ensures (x % q) * kinv % q == e
  {
    ModCancel(q, x, kinv);
    ModCancel(q, y, e);
    assert 1 * e == e;
    DivModUnique(e, q, 0, e);
  }

  // Raising a doubly keyed point once more to a key other than one always moves it.
  lemma RaisedAgainMoves(q: nat, k: nat, kinv: nat, p: nat, pinv: nat)
    requires IsKey(q, k, kinv) && IsKey(q, p, pinv) && k != 1
    ensures (p * k % q) * k % q != p * k % q
  {
    var kk := p * k % q;
    StripRaised(q, kk, k, kinv);
    StripRaised(q, p, k, kinv);
    StripRaised(q, k, p, pinv);
    assert p * k == k * p;
  }

  // ----- Lists under one exponent -----

  // Filtering points under one exponent filters their elements.
  lemma {:induction false} CommonUnder<E>(s: seq<E>, t: seq<E>, e: nat, p: seq<Point<E>>)
    requires forall x :: x in s ==> (Point(x, e) in p <==> x in t)
    ensures Common(Under(s, e), p) == Under(Common(s, t), e)
  {
    if s != [] {
      var init, x := s[..|s| - 1], s[|s| - 1];
      forall y | y in init ensures Point(y, e) in p <==> y in t {
        assert y in s;
      }
      CommonUnder(init, t, e, p);
      assert Under(s, e)[..|s| - 1] == Under(init, e);
      assert x in s;
    }
  }

  lemma {:induction false} WithoutUnder<E(!new)>(s: seq<E>, t: seq<E>, e: nat)
    ensures Without(Under(s, e), Under(t, e)) == Under(Without(s, t), e)
  {
    if s != [] {
      WithoutUnder(s[..|s| - 1], t, e);
      assert Under(s, e)[..|s| - 1] == Under(s[..|s| - 1], e);
      InUnder(t, e);
    }
  }

  // The points of a list under one exponent.
  function Under<E>(s: seq<E>, e: nat): (p: seq<Point<E>>)
    ensures |p| == |s|
  {
    seq(|s|, i requires 0 <= i < |s| => Point(s[i], e))
  }

  lemma InUnder<E(!new)>(s: seq<E>, e: nat)
    ensures forall p :: p in Under(s, e) <==> p.exp == e && p.base in s
  {
    forall p | p in Under(s, e) ensures p.exp == e && p.base in s {
      var i :| 0 <= i < |s| && Under(s, e)[i] == p;
      assert s[i] == p.base;
    }
    forall p: Point<E> | p.exp == e && p.base in s ensures p in Under(s, e) {
      var i :| 0 <= i < |s| && s[i] == p.base;
      assert Under(s, e)[i] == p;
    }
  }
}

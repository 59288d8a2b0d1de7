/** Scalars that act on values.

    Every vector operation of the repository is a combination of two things: an exclusive-or
    of values and a product of a value with a scalar.  With the GF128 dense type scalars and
    values are both field elements; with the Binary dense type a scalar is a single bit and a
    value is any block.  A `Space` packages the operations, `IsSpace` states the laws, and
    everything else in the project is proved from the laws alone.
 */
module Algebra {

  datatype Option<+T> = None | Some(value: T)

  datatype Space<!K(!new), !V(!new)> = Space(
    zero: K,
    one: K,
    add: (K, K) -> K,
    mul: (K, K) -> K,
    inv: K -> Option<K>,
    nil: V,
    plus: (V, V) -> V,
    act: (K, V) -> V)
  {
    function Add(a: K, b: K): K { add(a, b) }

    function Mul(a: K, b: K): K { mul(a, b) }

    function Inv(a: K): Option<K> { inv(a) }

    function Plus(u: V, v: V): V { plus(u, v) }

    function Act(a: K, v: V): V { act(a, v) }

    // The laws of a commutative ring in which a + a is zero, at three given points.
    ghost predicate ScalarLaws(a: K, b: K, c: K)
    {
      && Add(a, b) == Add(b, a)
      && Add(Add(a, b), c) == Add(a, Add(b, c))
      && Add(a, zero) == a
      && Add(a, a) == zero
      && Mul(a, b) == Mul(b, a)
      && Mul(Mul(a, b), c) == Mul(a, Mul(b, c))
      && Mul(a, one) == a
      && Mul(a, zero) == zero
      && Mul(a, Add(b, c)) == Add(Mul(a, b), Mul(a, c))
      && (Inv(a).Some? ==> Mul(a, Inv(a).value) == one)
    }

    // The laws of exclusive-or.
    ghost predicate ValueLaws(u: V, v: V, w: V)
    {
      && Plus(u, v) == Plus(v, u)
      && Plus(Plus(u, v), w) == Plus(u, Plus(v, w))
      && Plus(u, nil) == u
      && Plus(u, u) == nil
    }

    // The laws that tie the two together.
    ghost predicate ActLaws(a: K, b: K, u: V, v: V)
    {
      && Act(zero, u) == nil
      && Act(one, u) == u
      && Act(a, nil) == nil
      && Act(Mul(a, b), u) == Act(a, Act(b, u))
      && Act(Add(a, b), u) == Plus(Act(a, u), Act(b, u))
      && Act(a, Plus(u, v)) == Plus(Act(a, u), Act(a, v))
    }

    ghost predicate IsSpace()
    {
      && (forall a, b, c :: ScalarLaws(a, b, c))
      && (forall u, v, w :: ValueLaws(u, v, w))
      && (forall a, b, u, v :: ActLaws(a, b, u, v))
    }

    // The inner product of the first n coefficients with the first n values.
    function Dot(row: seq<K>, v: seq<V>, n: nat): V
      requires n <= |row| && n <= |v|
    {
      if n == 0 then nil else Plus(Dot(row, v, n - 1), Act(row[n - 1], v[n - 1]))
    }

    lemma Swap4(p: V, q: V, r: V, s: V)
      requires IsSpace()
      ensures Plus(Plus(p, q), Plus(r, s)) == Plus(Plus(p, r), Plus(q, s))
    {
      assert ValueLaws(p, q, Plus(r, s));
      assert ValueLaws(q, r, s);
      assert ValueLaws(q, r, r);
      assert ValueLaws(r, q, s);
      assert ValueLaws(p, r, Plus(q, s));
    }

    lemma {:induction false} DotAddScaled(row: seq<K>, other: seq<K>, sum: seq<K>, c: K, v: seq<V>, n: nat)
      requires IsSpace()
      requires n <= |row| && n <= |other| && n <= |sum| && n <= |v|
      requires forall k :: 0 <= k < n ==> sum[k] == Add(row[k], Mul(other[k], c))
      ensures Dot(sum, v, n) == Plus(Dot(row, v, n), Act(c, Dot(other, v, n)))
    {
      if n == 0 {
        assert ActLaws(c, c, nil, nil) && ValueLaws(nil, nil, nil);
      } else {
        var k := n - 1;
        DotAddScaled(row, other, sum, c, v, k);
        assert ScalarLaws(other[k], c, c);
        assert ActLaws(c, other[k], v[k], v[k]);
        assert ActLaws(row[k], Mul(other[k], c), v[k], v[k]);
        assert ActLaws(c, c, Dot(other, v, k), Act(other[k], v[k]));
        Swap4(Dot(row, v, k), Act(c, Dot(other, v, k)), Act(row[k], v[k]), Act(c, Act(other[k], v[k])));
      }
    }

    lemma {:induction false} DotScaled(row: seq<K>, scaled: seq<K>, c: K, v: seq<V>, n: nat)
      requires IsSpace()
      requires n <= |row| && n <= |scaled| && n <= |v|
      requires forall k :: 0 <= k < n ==> scaled[k] == Mul(row[k], c)
      ensures Dot(scaled, v, n) == Act(c, Dot(row, v, n))
    {
      if n == 0 {
        assert ActLaws(c, c, nil, nil);
      } else {
        var k := n - 1;
        DotScaled(row, scaled, c, v, k);
        assert ScalarLaws(row[k], c, c);
        assert ActLaws(c, row[k], v[k], v[k]);
        assert ActLaws(c, c, Dot(row, v, k), Act(row[k], v[k]));
      }
    }

    // A row that is one at i and zero elsewhere selects v[i].
    lemma {:induction false} DotUnit(row: seq<K>, i: nat, v: seq<V>, n: nat)
      requires IsSpace()
      requires n <= |row| && n <= |v|
      requires forall k :: 0 <= k < n ==> row[k] == if k == i then one else zero
      ensures Dot(row, v, n) == if i < n then v[i] else nil
    {
      if n != 0 {
        var k := n - 1;
        DotUnit(row, i, v, k);
        assert ActLaws(one, one, v[k], v[k]);
        assert ValueLaws(nil, v[k], nil);
        assert ValueLaws(v[k], nil, nil) && ValueLaws(Dot(row, v, k), nil, nil);
      }
    }

    // The inner product is additive in the values: this is what makes decoding linear.
    lemma {:induction false} DotPlus(row: seq<K>, u: seq<V>, v: seq<V>, s: seq<V>, n: nat)
      requires IsSpace()
      requires n <= |row| && n <= |u| && n <= |v| && n <= |s|
      requires forall k :: 0 <= k < n ==> s[k] == Plus(u[k], v[k])
      ensures Dot(row, s, n) == Plus(Dot(row, u, n), Dot(row, v, n))
    {
      if n == 0 {
        assert ValueLaws(nil, nil, nil);
      } else {
        var k := n - 1;
        DotPlus(row, u, v, s, k);
        assert ActLaws(row[k], row[k], u[k], v[k]);
        Swap4(Dot(row, u, k), Dot(row, v, k), Act(row[k], u[k]), Act(row[k], v[k]));
      }
    }

    // ... and compatible with a common scalar.
    lemma {:induction false} DotAct(row: seq<K>, c: K, v: seq<V>, s: seq<V>, n: nat)
      requires IsSpace()
      requires n <= |row| && n <= |v| && n <= |s|
      requires forall k :: 0 <= k < n ==> s[k] == Act(c, v[k])
      ensures Dot(row, s, n) == Act(c, Dot(row, v, n))
    {
      if n == 0 {
        assert ActLaws(c, c, nil, nil);
      } else {
        var k := n - 1;
        DotAct(row, c, v, s, k);
        assert ScalarLaws(row[k], c, c);
        assert ActLaws(row[k], c, v[k], v[k]) && ActLaws(c, row[k], v[k], v[k]);
        assert ActLaws(c, c, Dot(row, v, k), Act(row[k], v[k]));
      }
    }

    lemma {:induction false} DotNil(row: seq<K>, v: seq<V>, n: nat)
      requires IsSpace()
      requires n <= |row| && n <= |v|
      requires forall k :: 0 <= k < n ==> v[k] == nil || row[k] == zero
      ensures Dot(row, v, n) == nil
    {
      if n != 0 {
        var k := n - 1;
        DotNil(row, v, k);
        assert ActLaws(row[k], row[k], v[k], v[k]);
        assert ValueLaws(nil, nil, nil);
      }
    }

    // Trailing zero values do not contribute.
    lemma {:induction false} DotCut(row: seq<K>, v: seq<V>, i: nat, n: nat)
      requires IsSpace()
      requires i <= n <= |row| && n <= |v|
      requires forall c :: i <= c < n ==> v[c] == nil
      ensures Dot(row, v, n) == Dot(row, v, i)
    {
      if i < n {
        DotCut(row, v, i, n - 1);
        assert ActLaws(row[n - 1], zero, nil, nil);
        assert ValueLaws(Dot(row, v, i), nil, nil);
      }
    }
  }
}

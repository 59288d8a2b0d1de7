/** Polynomials over bits, lowest coefficient first, and their residues modulo x^n + r. */
module BitPolynomials {

  function Zeros(n: nat): (s: seq<bool>)
    ensures |s| == n
  {
    seq(n, _ => false)
  }

  function Xor(a: seq<bool>, b: seq<bool>): (s: seq<bool>)
    requires |a| == |b|
    ensures |s| == |a|
  {
    seq(|a|, i requires 0 <= i < |a| => a[i] != b[i])
  }

  function Times(c: bool, a: seq<bool>): (s: seq<bool>)
    ensures |s| == |a|
  {
    if c then a else Zeros(|a|)
  }

  // x^k, in n places.
  function Unit(n: nat, k: nat): (s: seq<bool>)
    ensures |s| == n
  {
    seq(n, i => i == k)
  }

  lemma XorLaws(a: seq<bool>, b: seq<bool>, c: seq<bool>)
    requires |a| == |b| == |c|
    ensures Xor(a, b) == Xor(b, a) && Xor(Xor(a, b), c) == Xor(a, Xor(b, c))
    ensures Xor(a, a) == Zeros(|a|) && Xor(a, Zeros(|a|)) == a && Xor(Zeros(|a|), a) == a
  {
    assert Xor(Xor(a, b), c) == Xor(a, Xor(b, c));
    assert Xor(a, b) == Xor(b, a);
  }

  lemma Xor4(a: seq<bool>, b: seq<bool>, c: seq<bool>, d: seq<bool>)
    requires |a| == |b| == |c| == |d|
    ensures Xor(Xor(a, b), Xor(c, d)) == Xor(Xor(a, c), Xor(b, d))
  {
  }

  // ----- Residues modulo x^n + r, n = |r| -----

  // x times a residue: a shift, and r where the top coefficient drops out.
  function Xt(r: seq<bool>, v: seq<bool>): (s: seq<bool>)
    requires 0 < |r| == |v|
    ensures |s| == |r|
  {
    seq(|r|, i requires 0 <= i < |r| => (0 < i && v[i - 1]) != (v[|r| - 1] && r[i]))
  }

  // x^k times a residue.
  function XtTimes(r: seq<bool>, v: seq<bool>, k: nat): (s: seq<bool>)
    requires 0 < |r| == |v|
    ensures |s| == |r|
    decreases k
  {
    if k == 0 then v else XtTimes(r, Xt(r, v), k - 1)
  }

  // The sum of all x^i a where b has coefficient one at i; b may have any length.
  function MulBy(r: seq<bool>, a: seq<bool>, b: seq<bool>): (s: seq<bool>)
    requires 0 < |r| == |a|
    ensures |s| == |r|
    decreases |b|
  {
    if b == [] then Zeros(|r|) else Xor(Times(b[0], a), MulBy(r, Xt(r, a), b[1..]))
  }

  // The residue of a polynomial.
  function Rem(r: seq<bool>, w: seq<bool>): (s: seq<bool>)
    requires 0 < |r|
    ensures |s| == |r|
  {
    MulBy(r, Unit(|r|, 0), w)
  }

  lemma XtXor(r: seq<bool>, a: seq<bool>, b: seq<bool>)
    requires 0 < |r| == |a| == |b|
    ensures Xt(r, Xor(a, b)) == Xor(Xt(r, a), Xt(r, b))
    ensures Xt(r, Zeros(|r|)) == Zeros(|r|)
  {
  }

  lemma {:induction false} XtMul(r: seq<bool>, a: seq<bool>, b: seq<bool>)
    requires 0 < |r| == |a|
    ensures Xt(r, MulBy(r, a, b)) == MulBy(r, Xt(r, a), b)
    decreases |b|
  {
    if b == [] {
      XtXor(r, a, a);
    } else {
      XtMul(r, Xt(r, a), b[1..]);
      XtXor(r, Times(b[0], a), MulBy(r, Xt(r, a), b[1..]));
      XtXor(r, a, a);
    }
  }

  // Horner's rule.
  lemma MulHorner(r: seq<bool>, a: seq<bool>, c: bool, b: seq<bool>)
    requires 0 < |r| == |a|
    ensures MulBy(r, a, [c] + b) == Xor(Times(c, a), Xt(r, MulBy(r, a, b)))
  {
    assert ([c] + b)[1..] == b;
    XtMul(r, a, b);
  }

  lemma TimesXor(c: bool, a: seq<bool>, b: seq<bool>)
    requires |a| == |b|
    ensures Times(c, Xor(a, b)) == Xor(Times(c, a), Times(c, b))
  {
    XorLaws(Zeros(|a|), Zeros(|a|), Zeros(|a|));
  }

  lemma {:induction false} MulXorLeft(r: seq<bool>, a: seq<bool>, a': seq<bool>, b: seq<bool>)
    requires 0 < |r| == |a| == |a'|
    ensures MulBy(r, Xor(a, a'), b) == Xor(MulBy(r, a, b), MulBy(r, a', b))
    decreases |b|
  {
    if b == [] {
      XorLaws(Zeros(|r|), Zeros(|r|), Zeros(|r|));
    } else {
      XtXor(r, a, a');
      MulXorLeft(r, Xt(r, a), Xt(r, a'), b[1..]);
      TimesXor(b[0], a, a');
      Xor4(Times(b[0], a), Times(b[0], a'), MulBy(r, Xt(r, a), b[1..]), MulBy(r, Xt(r, a'), b[1..]));
    }
  }

  lemma {:induction false} MulXorRight(r: seq<bool>, a: seq<bool>, b: seq<bool>, b': seq<bool>)
    requires 0 < |r| == |a| && |b| == |b'|
    ensures MulBy(r, a, Xor(b, b')) == Xor(MulBy(r, a, b), MulBy(r, a, b'))
    decreases |b|
  {
    if b == [] {
      XorLaws(Zeros(|r|), Zeros(|r|), Zeros(|r|));
    } else {
      MulXorRight(r, Xt(r, a), b[1..], b'[1..]);
      assert Xor(b, b')[1..] == Xor(b[1..], b'[1..]);
      assert Times(b[0] != b'[0], a) == Xor(Times(b[0], a), Times(b'[0], a)) by { XorLaws(a, a, a); }
      Xor4(Times(b[0], a), Times(b'[0], a), MulBy(r, Xt(r, a), b[1..]), MulBy(r, Xt(r, a), b'[1..]));
    }
  }

  lemma {:induction false} MulZero(r: seq<bool>, b: seq<bool>)
    requires 0 < |r|
    ensures MulBy(r, Zeros(|r|), b) == Zeros(|r|)
    decreases |b|
  {
    if b != [] {
      XtXor(r, Zeros(|r|), Zeros(|r|));
      MulZero(r, b[1..]);
      XorLaws(Zeros(|r|), Zeros(|r|), Zeros(|r|));
    }
  }

  lemma {:induction false} MulByZeros(r: seq<bool>, a: seq<bool>, n: nat)
    requires 0 < |r| == |a|
    ensures MulBy(r, a, Zeros(n)) == Zeros(|r|)
    decreases n
  {
    if n > 0 {
      assert Zeros(n)[1..] == Zeros(n - 1);
      MulByZeros(r, Xt(r, a), n - 1);
      XorLaws(Zeros(|r|), Zeros(|r|), Zeros(|r|));
    }
  }

  /** Factors may be multiplied in either order. */
  lemma {:induction false} MulSwap(r: seq<bool>, c: seq<bool>, a: seq<bool>, b: seq<bool>)
    requires 0 < |r| == |c|
    ensures MulBy(r, MulBy(r, c, a), b) == MulBy(r, MulBy(r, c, b), a)
    decreases |a|
  {
    if a == [] {
      MulZero(r, b);
    } else {
      var head, rest := Times(a[0], c), MulBy(r, Xt(r, c), a[1..]);
      MulXorLeft(r, head, rest, b);
      MulSwap(r, Xt(r, c), a[1..], b);
      XtMul(r, c, b);
      assert MulBy(r, head, b) == Times(a[0], MulBy(r, c, b)) by { MulZero(r, b); }
    }
  }

  // ----- Concatenation: low coefficients first -----

  lemma {:induction false} XtTimesXor(r: seq<bool>, a: seq<bool>, b: seq<bool>, k: nat)
    requires 0 < |r| == |a| == |b|
    ensures XtTimes(r, Xor(a, b), k) == Xor(XtTimes(r, a, k), XtTimes(r, b, k))
    decreases k
  {
    if k > 0 {
      XtXor(r, a, b);
      XtTimesXor(r, Xt(r, a), Xt(r, b), k - 1);
    }
  }

  lemma {:induction false} XtTimesMul(r: seq<bool>, a: seq<bool>, b: seq<bool>, k: nat)
    requires 0 < |r| == |a|
    ensures XtTimes(r, MulBy(r, a, b), k) == MulBy(r, XtTimes(r, a, k), b)
    decreases k
  {
    if k > 0 {
      XtMul(r, a, b);
      XtTimesMul(r, Xt(r, a), b, k - 1);
    }
  }

  lemma {:induction false} XtTimesSum(r: seq<bool>, a: seq<bool>, k: nat, l: nat)
    requires 0 < |r| == |a|
    ensures XtTimes(r, XtTimes(r, a, k), l) == XtTimes(r, a, k + l)
    decreases k
  {
    if k > 0 {
      XtTimesSum(r, Xt(r, a), k - 1, l);
    }
  }

  lemma {:induction false} MulConcat(r: seq<bool>, a: seq<bool>, u: seq<bool>, v: seq<bool>)
    requires 0 < |r| == |a|
    ensures MulBy(r, a, u + v) == Xor(MulBy(r, a, u), XtTimes(r, MulBy(r, a, v), |u|))
    decreases |u|
  {
    if u == [] {
      assert u + v == v;
      XorLaws(MulBy(r, a, v), MulBy(r, a, v), MulBy(r, a, v));
    } else {
      assert (u + v)[1..] == u[1..] + v;
      MulConcat(r, Xt(r, a), u[1..], v);
      XtMul(r, a, v);
      XorLaws(Times(u[0], a), MulBy(r, Xt(r, a), u[1..]), XtTimes(r, MulBy(r, a, v), |u|));
    }
  }

  // ----- Powers of x -----

  lemma XtUnit(r: seq<bool>, k: nat)
    requires k < |r|
    ensures Xt(r, Unit(|r|, k)) == if k + 1 < |r| then Unit(|r|, k + 1) else r
  {
  }

  // b, moved up by k places, in n places.
  function Placed(n: nat, k: nat, b: seq<bool>): (s: seq<bool>)
    requires k + |b| <= n
    ensures |s| == n
  {
    seq(n, i requires 0 <= i < n => k <= i < k + |b| && b[i - k])
  }

  lemma PlacedStep(n: nat, k: nat, b: seq<bool>)
    requires k + |b| <= n && b != []
    ensures Xor(Times(b[0], Unit(n, k)), Placed(n, k + 1, b[1..])) == Placed(n, k, b)
  {
  }

  // A polynomial of degree below n is its own residue.
  lemma {:induction false} MulUnit(r: seq<bool>, b: seq<bool>, k: nat)
    requires 0 < |r| && k + |b| <= |r| && k < |r|
    ensures MulBy(r, Unit(|r|, k), b) == Placed(|r|, k, b)
    decreases |b|
  {
    hide Xt, Unit, Times, Xor;
    if b == [] {
      assert Placed(|r|, k, b) == Zeros(|r|);
    } else {
      XtUnit(r, k);
      PlacedStep(|r|, k, b);
      if k + 1 < |r| {
        MulUnit(r, b[1..], k + 1);
      } else {
        assert b[1..] == [];
        assert Placed(|r|, k + 1, b[1..]) == Zeros(|r|);
      }
    }
  }

  lemma RemShort(r: seq<bool>, b: seq<bool>)
    requires 0 < |r| && |b| <= |r|
    ensures Rem(r, b) == b + Zeros(|r| - |b|)
    ensures |b| == |r| ==> Rem(r, b) == b
  {
    MulUnit(r, b, 0);
    assert Placed(|r|, 0, b) == b + Zeros(|r| - |b|);
    if |b| == |r| {
      assert b + Zeros(0) == b;
    }
  }

  lemma {:induction false} XtTimesUnit(r: seq<bool>, j: nat, k: nat)
    requires j + k < |r|
    ensures XtTimes(r, Unit(|r|, j), k) == Unit(|r|, j + k)
    decreases k
  {
    if k > 0 {
      XtUnit(r, j);
      XtTimesUnit(r, j + 1, k - 1);
    }
  }

  // x^n is r.
  lemma TopPower(r: seq<bool>)
    requires 0 < |r|
    ensures XtTimes(r, Unit(|r|, 0), |r|) == r
  {
    hide Xt, Unit;
    XtTimesUnit(r, 0, |r| - 1);
    XtTimesSum(r, Unit(|r|, 0), |r| - 1, 1);
    XtUnit(r, |r| - 1);
  }

  // ----- The ring -----

  /** Residues form a commutative ring with Unit(n, 0) as one. */
  lemma RingLaws(r: seq<bool>, a: seq<bool>, b: seq<bool>, c: seq<bool>)
    requires 0 < |r| == |a| == |b| == |c|
    ensures MulBy(r, a, b) == MulBy(r, b, a)
    ensures MulBy(r, MulBy(r, a, b), c) == MulBy(r, a, MulBy(r, b, c))
    ensures MulBy(r, a, Unit(|r|, 0)) == a
    ensures MulBy(r, a, Zeros(|r|)) == Zeros(|r|)
    ensures MulBy(r, a, Xor(b, c)) == Xor(MulBy(r, a, b), MulBy(r, a, c))
  {
    Commutes(r, a, b);
    Commutes(r, a, MulBy(r, b, c));
    Commutes(r, a, Unit(|r|, 0));
    MulSwap(r, b, a, c);
    RemShort(r, a);
    MulByZeros(r, a, |r|);
    MulXorRight(r, a, b, c);
  }

  lemma Commutes(r: seq<bool>, a: seq<bool>, b: seq<bool>)
    requires 0 < |r| == |a| == |b|
    ensures MulBy(r, a, b) == MulBy(r, b, a)
  {
    MulSwap(r, Unit(|r|, 0), a, b);
    RemShort(r, a);
    RemShort(r, b);
  }

  // ----- Products without reduction -----

  // The carry-less product.
  function Clmul(a: seq<bool>, b: seq<bool>): (s: seq<bool>)
    ensures |s| == |a| + |b|
  {
    if a == [] then Zeros(|b|) else
      Xor(Times(a[0], b) + Zeros(|a|), [false] + Clmul(a[1..], b))
  }

  // The product of a polynomial in two parts.
  lemma {:induction false} ClmulLeft(u: seq<bool>, v: seq<bool>, b: seq<bool>)
    ensures Clmul(u + v, b) == Xor(Clmul(u, b) + Zeros(|v|), Zeros(|u|) + Clmul(v, b))
    decreases |u|
  {
    if u == [] {
      assert u + v == v && Zeros(0) + Clmul(v, b) == Clmul(v, b) && Zeros(|b|) + Zeros(|v|) == Zeros(|b| + |v|);
      XorLaws(Clmul(v, b), Clmul(v, b), Clmul(v, b));
      assert |Clmul(v, b)| == |b| + |v|;
    } else {
      assert (u + v)[1..] == u[1..] + v && (u + v)[0] == u[0];
      ClmulLeft(u[1..], v, b);
      var head, rest, low := Times(u[0], b), Clmul(u[1..], b), Clmul(v, b);
      LeftStep(head, |u|, rest, |v|, low);
    }
  }

  lemma LeftStep(head: seq<bool>, n: nat, rest: seq<bool>, m: nat, low: seq<bool>)
    requires 0 < n && |rest| == n - 1 + |head| && |low| == m + |head|
    ensures Xor(head + Zeros(n + m), [false] + Xor(rest + Zeros(m), Zeros(n - 1) + low))
         == Xor(Xor(head + Zeros(n), [false] + rest) + Zeros(m), Zeros(n) + low)
  {
  }

  lemma {:induction false} ClmulRight(a: seq<bool>, u: seq<bool>, v: seq<bool>)
    ensures Clmul(a, u + v) == Xor(Clmul(a, u) + Zeros(|v|), Zeros(|u|) + Clmul(a, v))
    decreases |a|
  {
    if a == [] {
      assert Zeros(|u|) + Zeros(|v|) == Zeros(|u| + |v|);
      XorLaws(Zeros(|u| + |v|), Zeros(|u| + |v|), Zeros(|u| + |v|));
    } else {
      ClmulRight(a[1..], u, v);
      var c, x, y := a[0], Clmul(a[1..], u), Clmul(a[1..], v);
      assert Times(c, u + v) == Times(c, u) + Times(c, v);
      RightStep(Times(c, u), Times(c, v), |a|, x, y);
    }
  }

  lemma RightStep(p: seq<bool>, q: seq<bool>, n: nat, x: seq<bool>, y: seq<bool>)
    requires 0 < n && |x| == n - 1 + |p| && |y| == n - 1 + |q|
    ensures Xor(p + q + Zeros(n), [false] + Xor(x + Zeros(|q|), Zeros(|p|) + y))
         == Xor(Xor(p + Zeros(n), [false] + x) + Zeros(|q|), Zeros(|p|) + Xor(q + Zeros(n), [false] + y))
  {
  }

  /** Reducing a product is multiplying by the residue. */
  lemma {:induction false} RemClmul(r: seq<bool>, a: seq<bool>, b: seq<bool>)
    requires 0 < |r|
    ensures Rem(r, Clmul(a, b)) == MulBy(r, Rem(r, b), a)
    decreases |a|
  {
    var one := Unit(|r|, 0);
    if a == [] {
      MulByZeros(r, one, |b|);
    } else {
      var head, rest := Times(a[0], b) + Zeros(|a|), Clmul(a[1..], b);
      MulXorRight(r, one, head, [false] + rest);
      RemPadded(r, Times(a[0], b), |a|);
      if !a[0] {
        MulByZeros(r, one, |b|);
      }
      MulHorner(r, one, false, rest);
      XorLaws(Xt(r, Rem(r, rest)), one, one);
      RemClmul(r, a[1..], b);
      XtMul(r, Rem(r, b), a[1..]);
    }
  }

  lemma RemConcat(r: seq<bool>, u: seq<bool>, v: seq<bool>)
    requires 0 < |r|
    ensures Rem(r, u + v) == Xor(Rem(r, u), XtTimes(r, Rem(r, v), |u|))
  {
    MulConcat(r, Unit(|r|, 0), u, v);
  }

  lemma RemPadded(r: seq<bool>, b: seq<bool>, n: nat)
    requires 0 < |r|
    ensures Rem(r, b + Zeros(n)) == Rem(r, b)
  {
    var one := Unit(|r|, 0);
    MulConcat(r, one, b, Zeros(n));
    MulByZeros(r, one, n);
    XtTimesZeros(r, |b|);
    XorLaws(Rem(r, b), one, one);
  }

  lemma {:induction false} XtTimesZeros(r: seq<bool>, k: nat)
    requires 0 < |r|
    ensures XtTimes(r, Zeros(|r|), k) == Zeros(|r|)
    decreases k
  {
    if k > 0 {
      XtXor(r, Zeros(|r|), Zeros(|r|));
      XtTimesZeros(r, k - 1);
    }
  }

  // x^n times the residue of h is the residue of h r.
  lemma FoldTop(r: seq<bool>, h: seq<bool>, mod: seq<bool>)
    requires 0 < |r| && Rem(r, mod) == r
    ensures XtTimes(r, Rem(r, h), |r|) == Rem(r, Clmul(h, mod))
  {
    XtTimesMul(r, Unit(|r|, 0), h, |r|);
    TopPower(r);
    RemClmul(r, h, mod);
  }

  // ----- Division with remainder -----

  function Coef(p: seq<bool>, k: nat): bool { k < |p| && p[k] }

  // A coefficient of the carry-less product, for any two polynomials.
  function ProductBit(a: seq<bool>, b: seq<bool>, k: nat): bool
    decreases |a|
  {
    a != [] && ((a[0] && Coef(b, k)) != (0 < k && ProductBit(a[1..], b, k - 1)))
  }

  lemma {:induction false} ClmulBits(a: seq<bool>, b: seq<bool>, k: nat)
    ensures Coef(Clmul(a, b), k) == ProductBit(a, b, k)
    decreases |a|
  {
    if a != [] && k > 0 {
      ClmulBits(a[1..], b, k - 1);
    }
  }

  function Quotient(r: seq<bool>, w: seq<bool>): seq<bool>
    requires 0 < |r|
  {
    if w == [] then [] else [Rem(r, w[1..])[|r| - 1]] + Quotient(r, w[1..])
  }

  /** Rem is the remainder of division by x^n + r. */
  lemma {:induction false} DivisionWithRemainder(r: seq<bool>, w: seq<bool>, k: nat)
    requires 0 < |r|
    ensures Coef(w, k) == (ProductBit(Quotient(r, w), r + [true], k) != Coef(Rem(r, w), k))
    decreases |w|
  {
    if w == [] {
      assert Rem(r, w) == Zeros(|r|);
    } else {
      var rest, q := w[1..], Quotient(r, w[1..]);
      assert w == [w[0]] + rest;
      MulHorner(r, Unit(|r|, 0), w[0], rest);
      assert Quotient(r, w)[1..] == q;
      if k > 0 {
        DivisionWithRemainder(r, rest, k - 1);
      }
    }
  }
}

/** The words of 128 bits are a field: every word but zero has the inverse that Galois128::Inv
    computes. x^128 + x^7 + x^2 + x + 1 is irreducible. */
module FiniteField {
  import opened Algebra
  import opened BitPolynomials
  import opened Galois128
  import opened MachineWords
  import opened Frobenius
  import opened Interpolation
  import opened Instances
  import opened Backfill
  import opened PaxosState
  import opened OkvsTheory
  import GaussJordan

  // ----- A word as a polynomial in x -----

  function Coefficients(b: seq<bool>): (cs: seq<Word>)
    ensures |cs| == |b|
  {
    seq(|b|, k requires 0 <= k < |b| => Bit(b[k]))
  }

  function At(b: seq<bool>, y: Word): Word { Value(Gf128(), Coefficients(b), y) }

  lemma AtStep(b: seq<bool>, y: Word)
    requires b != []
    ensures At(b, y) == Xor(Mul(At(b[1..], y), y), Bit(b[0]))
  {
    hide Mul;
    assert Coefficients(b)[1..] == Coefficients(b[1..]);
  }

  lemma {:induction false} AtX(b: seq<bool>)
    ensures At(b, X()) == Rem(Modulus(), b)
    decreases |b|
  {
    hide Mul, Value;
    if b == [] {
      AtNone(X());
    } else {
      AtStep(b, X());
      AtX(b[1..]);
      assert [b[0]] + b[1..] == b;
      MulHorner(Modulus(), One(), b[0], b[1..]);
      TimesOfX(At(b[1..], X()));
      XorLaws(Bit(b[0]), Xt(Modulus(), Rem(Modulus(), b[1..])), One());
    }
  }

  lemma AtNone(y: Word)
    ensures At([], y) == Zeros(128)
  {
  }

  lemma TimesOfX(v: Word)
    ensures Mul(v, X()) == Xt(Modulus(), v)
  {
    hide Mul;
    UnitTimes(v, 1);
    assert Up(v, 1) == Xt(Modulus(), v);
  }

  lemma WordAtX(e: Word)
    ensures At(e, X()) == e
  {
    AtX(e);
    RemShort(Modulus(), e);
  }

  // Squaring the argument squares the value.
  lemma {:induction false} AtSquare(b: seq<bool>, y: Word)
    ensures At(b, Mul(y, y)) == Mul(At(b, y), At(b, y))
    decreases |b|
  {
    hide Mul, Xor, Value, At;
    if b == [] {
      AtNone(y);
      AtNone(Mul(y, y));
      MulLaws(Zeros(128), Zeros(128), Zeros(128));
    } else {
      var v, c := At(b[1..], y), Bit(b[0]);
      AtStep(b, y);
      AtStep(b, Mul(y, y));
      AtSquare(b[1..], y);
      SquareXor(Mul(v, y), c);
      BitIdempotent(b[0]);
      MulLaws(v, y, Mul(v, y));
      MulLaws(v, v, Mul(y, y));
      MulLaws(y, v, y);
      MulLaws(v, y, y);
      assert Mul(Mul(v, y), Mul(v, y)) == Mul(Mul(v, v), Mul(y, y));
    }
  }

  lemma BitIdempotent(c: bool)
    ensures Mul(Bit(c), Bit(c)) == Bit(c)
  {
    hide Mul;
    MulLaws(One(), One(), One());
    MulLaws(Zeros(128), Zeros(128), Zeros(128));
  }

  lemma {:induction false} AtSquared(b: seq<bool>, y: Word, n: nat)
    ensures At(b, Squared(y, n)) == Squared(At(b, y), n)
    decreases n
  {
    hide Mul, At;
    if n > 0 {
      AtSquared(b, y, n - 1);
      AtSquare(b, Squared(y, n - 1));
    }
  }

  /** Squaring any word 128 times gives it back. */
  lemma FrobeniusFixes(a: Word)
    ensures Squared(a, 128) == a
  {
    hide Squared, At;
    WordAtX(a);
    AtSquared(a, X(), 128);
    FrobeniusOfX();
  }

  // ----- Differences of conjugates of x -----

  ghost predicate Unitary(a: Word) { exists w: Word :: Mul(a, w) == One() }

  lemma DivisorOfUnit(a: Word, b: Word)
    requires Unitary(Mul(a, b))
    ensures Unitary(a)
  {
    hide Mul;
    var w: Word :| Mul(Mul(a, b), w) == One();
    MulLaws(a, b, w);
    assert Mul(a, Mul(b, w)) == One();
  }

  lemma {:induction false} SquaredUnit(a: Word, n: nat)
    requires Unitary(a)
    ensures Unitary(Squared(a, n))
    decreases n
  {
    hide Mul;
    if n > 0 {
      SquaredUnit(a, n - 1);
      var s := Squared(a, n - 1);
      var w: Word :| Mul(s, w) == One();
      MulLaws(Mul(s, s), w, w);
      MulLaws(s, s, w);
      MulLaws(s, One(), One());
      assert Mul(Mul(s, s), Mul(w, w)) == One();
    }
  }

  lemma {:induction false} SquaredAdd(a: Word, b: Word, n: nat)
    ensures Squared(Xor(a, b), n) == Xor(Squared(a, n), Squared(b, n))
    decreases n
  {
    hide Mul, Xor;
    if n > 0 {
      SquaredAdd(a, b, n - 1);
      SquareXor(Squared(a, n - 1), Squared(b, n - 1));
    }
  }

  // A power is a multiple.
  lemma {:induction false} SquaredMultiple(a: Word, n: nat) returns (c: Word)
    ensures Squared(a, n) == Mul(a, c)
    decreases n
  {
    hide Mul;
    if n == 0 {
      c := One();
      MulLaws(a, One(), One());
    } else {
      var b := SquaredMultiple(a, n - 1);
      c := Mul(b, Mul(a, b));
      MulLaws(a, b, Mul(a, b));
    }
  }

  function Difference(r: nat): Word { Xor(X(), Squared(X(), r)) }

  lemma DifferenceDoubles(r: nat)
    requires Unitary(Difference(2 * r))
    ensures Unitary(Difference(r))
  {
    hide Mul, Xor, Squared;
    var d, x1, x2 := Difference(r), Squared(X(), r), Squared(X(), 2 * r);
    SquaredAdd(X(), x1, r);
    SquaredSum(X(), r, r);
    var c := SquaredMultiple(d, r);
    MiddleCancels(X(), x1, x2);
    MulLaws(d, One(), One());
    MulLaws(d, One(), c);
    assert Difference(2 * r) == Mul(d, Xor(One(), c));
    DivisorOfUnit(d, Xor(One(), c));
  }

  lemma {:induction false} Periodic(r: nat, m: nat)
    ensures Squared(X(), r + 128 * m) == Squared(X(), r)
    decreases m
  {
    hide Mul, Squared;
    if m > 0 {
      Periodic(r, m - 1);
      SquaredSum(X(), r + 128 * (m - 1), 128);
      FrobeniusFixes(Squared(X(), r + 128 * (m - 1)));
    }
  }

  predicate SmallPower(p: nat) { p in {1, 2, 4, 8, 16, 32, 64} }

  // r is an odd number times a power of two.
  lemma OddPart(r: nat) returns (m: nat, p: nat)
    requires 0 < r < 128
    ensures m % 2 == 1 && SmallPower(p) && r == p * m
  {
    if r % 2 == 1 {
      return r, 1;
    }
    var q;
    m, q := OddPart(r / 2);
    p := 2 * q;
    assert q <= q * m;
  }

  // Doubling r until it is 64 times an odd number.
  lemma {:induction false} DifferenceOdd(p: nat, m: nat)
    requires SmallPower(p) && m % 2 == 1
    ensures Unitary(Difference(p * m))
    decreases 64 - p
  {
    hide Mul, Squared, Unitary, Difference;
    if p == 64 {
      AtHalfWay(m / 2);
    } else {
      DifferenceOdd(2 * p, m);
      assert 2 * p * m == 2 * (p * m);
      DifferenceDoubles(p * m);
    }
  }

  lemma AtHalfWay(n: nat)
    ensures Unitary(Difference(64 * (2 * n + 1)))
  {
    hide Mul, Squared;
    assert 64 * (2 * n + 1) == 64 + 128 * n;
    Periodic(64, n);
    HalfWayUnit();
  }

  lemma ConjugatesApart(i: nat, j: nat)
    requires i < j < 128
    ensures Unitary(Xor(Squared(X(), j), Squared(X(), i)))
  {
    hide Mul, Squared, Unitary, Xor;
    var m, p := OddPart(j - i);
    DifferenceOdd(p, m);
    SquaredUnit(Difference(j - i), i);
    SquaredAdd(X(), Squared(X(), j - i), i);
    SquaredSum(X(), j - i, i);
    XorLaws(Squared(X(), j), Squared(X(), i), One());
  }

  // ----- Idempotents -----

  // The polynomial of e, with e added to it.
  function Shifted(e: Word): (cs: seq<Word>)
    ensures |cs| == 128
  {
    var cs := Coefficients(e);
    cs[0 := Xor(cs[0], e)]
  }

  lemma ShiftedValue(e: Word, y: Word)
    ensures Value(Gf128(), Shifted(e), y) == Xor(At(e, y), e)
  {
    hide Mul, Xor;
    var cs := Coefficients(e);
    assert Shifted(e)[1..] == cs[1..];
    XorLaws(Mul(Value(Gf128(), cs[1..], y), y), cs[0], e);
  }

  /** Only zero and one are their own squares: the polynomial of any other word, with the word
      added, would have the 128 conjugates of x as roots. */
  lemma IdempotentsTrivial(e: Word)
    requires Mul(e, e) == e
    ensures e == Zeros(128) || e == One()
  {
    hide Mul, Squared, Xor, At, Shifted, Value;
    var sp, cs := Gf128(), Shifted(e);
    var xs: seq<Word> := seq(128, i requires 0 <= i < 128 => Squared(X(), i));
    Gf128IsSpace();
    forall i | 0 <= i < 128 ensures Value(sp, cs, xs[i]) == sp.zero {
      AtSquared(e, X(), i);
      WordAtX(e);
      SelfSquared(e, i);
      ShiftedValue(e, xs[i]);
      XorLaws(e, e, e);
    }
    forall i, j | 0 <= i < j < 128 ensures IsUnit(sp, sp.Add(xs[j], xs[i])) {
      ConjugatesApart(i, j);
      UnitaryIsUnit(Xor(xs[j], xs[i]));
    }
    FewRoots(sp, cs, xs);
    OnlyFirst(e);
  }

  lemma {:induction false} SelfSquared(e: Word, n: nat)
    requires Mul(e, e) == e
    ensures Squared(e, n) == e
  {
    hide Mul;
    if n > 0 {
      SelfSquared(e, n - 1);
    }
  }

  lemma UnitaryIsUnit(a: Word)
    requires Unitary(a)
    ensures IsUnit(Gf128(), a)
  {
    hide Mul;
    var w: Word :| Mul(a, w) == One();
    assert Gf128().Mul(a, w) == Gf128().one;
  }

  lemma OnlyFirst(e: Word)
    requires forall k :: 0 <= k < 128 ==> Shifted(e)[k] == Zeros(128)
    ensures e == Zeros(128) || e == One()
  {
    forall k | 1 <= k < 128 ensures !e[k] {
      assert Shifted(e)[k] == Bit(e[k]) == Zeros(128);
      assert One()[0] != Zeros(128)[0];
    }
    if e[0] {
      assert e == One();
    } else {
      assert e == Zeros(128);
    }
  }

  // ----- Inverses -----

  /** Inv finds an inverse for every word but zero. */
  lemma InverseIff(a: Word)
    ensures InvOf(a).Some? <==> a != Zeros(128)
  {
    hide Mul, Power, Squared;
    var t: nat := Two(128);
    assert t == 2 * Two(127) && Two(127) > 0;
    var c, e := Power(a, t - 2), Power(a, t - 1);
    PowerTwo(a);
    PowerSum(a, 1, t - 2);
    PowerSum(a, 1, t - 1);
    PowerSum(a, t - 1, t - 1);
    PowerSum(a, t, t - 2);
    PowerIsSquared(a, 128);
    FrobeniusFixes(a);
    assert e == Mul(a, c) && Mul(a, e) == a && Mul(e, e) == e;
    IdempotentsTrivial(e);
    MulLaws(a, a, a);
    MulLaws(Zeros(128), c, c);
    MulLaws(c, Zeros(128), c);
    assert One()[0] != Zeros(128)[0];
  }

  // ----- The modulus -----

  lemma {:induction false} ProductOfZeros(a: seq<bool>, b: seq<bool>, k: nat)
    requires (forall i :: 0 <= i < |a| ==> !a[i]) || (forall i :: 0 <= i < |b| ==> !b[i])
    ensures !ProductBit(a, b, k)
    decreases |a|
  {
    if a != [] && k > 0 {
      ProductOfZeros(a[1..], b, k - 1);
    }
  }

  lemma ProductNotZero(a: Word, b: Word)
    requires a != Zeros(128) && b != Zeros(128)
    ensures Mul(a, b) != Zeros(128)
  {
    hide Mul, InvOf;
    InverseIff(b);
    var w := InvOf(b).value;
    assert Mul(b, w) == One() by { InverseChecks(b); }
    MulLaws(a, b, w);
    MulLaws(a, One(), One());
    MulLaws(Zeros(128), w, w);
    MulLaws(w, Zeros(128), w);
  }

  lemma InverseChecks(b: Word)
    requires InvOf(b).Some?
    ensures Mul(b, InvOf(b).value) == One()
  {
  }

  function Padded(a: seq<bool>): Word
    requires |a| <= 128
  {
    a + Zeros(128 - |a|)
  }

  /** x^128 + x^7 + x^2 + x + 1 is not the product of two polynomials of lower degree. */
  lemma ModulusIrreducible(a: seq<bool>, b: seq<bool>)
    requires |a| <= 128 && |b| <= 128
    ensures exists k: nat :: ProductBit(a, b, k) != Coef(Modulus() + [true], k)
  {
    hide Mul, ProductBit, Modulus, Padded;
    assert Coef(Modulus() + [true], 128);
    if forall k: nat :: ProductBit(a, b, k) == Coef(Modulus() + [true], k) {
      ResiduesVanish(a, b);
      if Padded(a) == Zeros(128) || Padded(b) == Zeros(128) {
        NoProduct(a, b);
      } else {
        ProductNotZero(Padded(b), Padded(a));
      }
    }
  }

  lemma NoProduct(a: seq<bool>, b: seq<bool>)
    requires |a| <= 128 && |b| <= 128 && (Padded(a) == Zeros(128) || Padded(b) == Zeros(128))
    ensures !ProductBit(a, b, 128)
  {
    assert forall i :: 0 <= i < |a| ==> a[i] == Padded(a)[i];
    assert forall i :: 0 <= i < |b| ==> b[i] == Padded(b)[i];
    ProductOfZeros(a, b, 128);
  }

  lemma ResiduesVanish(a: seq<bool>, b: seq<bool>)
    requires |a| <= 128 && |b| <= 128 && forall k: nat :: ProductBit(a, b, k) == Coef(Modulus() + [true], k)
    ensures Mul(Padded(b), Padded(a)) == Zeros(128)
  {
    hide *;
    ProductIsModulus(a, b);
    RemClmul(Modulus(), a, b);
    RemPadding(b);
    MulPadded(Padded(b), a);
    MulIsMulBy(Padded(b), Padded(a));
  }

  lemma RemPadding(b: seq<bool>)
    requires |b| <= 128
    ensures Rem(Modulus(), b) == Padded(b)
  {
    RemShort(Modulus(), b);
  }

  lemma ProductIsModulus(a: seq<bool>, b: seq<bool>)
    requires forall k: nat :: ProductBit(a, b, k) == Coef(Modulus() + [true], k)
    ensures Rem(Modulus(), Clmul(a, b)) == Zeros(128)
  {
    hide Rem, Clmul, Modulus, ProductBit;
    var p := Clmul(a, b);
    forall k: nat ensures Coef(p, k) == Coef(Modulus() + [true], k) {
      ClmulBits(a, b, k);
    }
    SamePolynomial(p, Modulus() + [true]);
    RemPadded(Modulus(), Modulus() + [true], |p| - 129);
    ModulusVanishes();
  }

  lemma SamePolynomial(p: seq<bool>, m: seq<bool>)
    requires m != [] && m[|m| - 1] && forall k: nat :: Coef(p, k) == Coef(m, k)
    ensures |m| <= |p| && p == m + Zeros(|p| - |m|)
  {
    assert Coef(m, |m| - 1);
    forall k | 0 <= k < |p| ensures p[k] == (m + Zeros(|p| - |m|))[k] {
      assert Coef(p, k) == Coef(m, k);
    }
  }

  lemma ModulusVanishes()
    ensures Rem(Modulus(), Modulus() + [true]) == Zeros(128)
  {
    hide Rem, Modulus;
    var r := Modulus();
    RemConcat(r, r, [true]);
    RemShort(r, r);
    RemPadding([true]);
    assert Padded([true]) == Unit(128, 0);
    TopPower(r);
    XorLaws(r, r, r);
  }

  lemma MulPadded(v: Word, a: seq<bool>)
    requires |a| <= 128
    ensures MulBy(Modulus(), v, Padded(a)) == MulBy(Modulus(), v, a)
  {
    hide Modulus;
    var n := 128 - |a|;
    MulConcat(Modulus(), v, a, Zeros(n));
    MulByZeros(Modulus(), v, n);
    XtTimesZeros(Modulus(), |a|);
    XorLaws(MulBy(Modulus(), v, a), v, v);
  }

  /** The words are a field. */
  lemma Gf128IsField()
    ensures IsField(Gf128()) && GaussJordan.AllInvertible(Gf128())
  {
    hide Mul, Power, InvOf;
    Gf128IsSpace();
    forall a: Word | a != Gf128().zero ensures Gf128().Inv(a).Some? {
      InverseIff(a);
    }
  }

  /** Over the words the elimination never fails for want of an inverse: a gap that fits is solved
      exactly if E' is invertible and no pivot is overlooked. */
  lemma GapOverGf128(sys: System<Word, Word>, dense: seq<Word>, tr: Trace, err: Option<Error>)
    requires sys.sp == Gf128() && EncodeEnds(sys, dense, tr, err)
    ensures err != Some(InverseFailed)
    ensures tr.Complete? && 0 < |tr.t.gapRows| <= sys.denseSize ==>
      var g := |tr.t.gapRows|; var ee := EPrimeOf(sys, tr.t, tr.lists, FirstColumns(g));
      err == None <==>
        !GaussJordan.IsSingular(sys.sp, g, ee) && forall i: nat :: !GaussJordan.Overlooks(sys.sp, g, ee, i)
  {
    hide GaussJordan.Eliminated, GaussJordan.IsSingular, GaussJordan.Overlooks, GaussJordan.LacksInverse, EPrimeOf;
    hide Gf128, Space.IsSpace, GaussJordan.AllInvertible, GaussJordan.IsSelfSpace;
    Gf128IsField();
    Gf128IsSpace();
    if tr.Complete? && 0 < |tr.t.gapRows| <= sys.denseSize {
      var g := |tr.t.gapRows|;
      var ee := EPrimeOf(sys, tr.t, tr.lists, FirstColumns(g));
      GapSolvedIff(sys, tr);
      GaussJordan.EmptyIff(sys.sp, g, ee);
      GaussJordan.EndsIff(sys.sp, g, ee);
    }
  }
}

/** The two dense types of the OKVS as instances of the algebra: GF128, and bits that select
    blocks. */
module Instances {
  import opened Algebra
  import opened BitPolynomials
  import opened Galois128
  import GaussJordan
  import Decoding

  function WordAdd(): (Word, Word) -> Word { (a, b) => Add(a, b) }

  function WordMul(): (Word, Word) -> Word { (a, b) => Mul(a, b) }

  function WordInv(): Word -> Option<Word> { a => InvOf(a) }

  function WordNil(): Word { Zeros(128) }

  function Gf128(): Space<Word, Word>
  {
    Space(WordNil(), One(), WordAdd(), WordMul(), WordInv(), WordNil(), WordAdd(), WordMul())
  }

  /** Everything proved for a space holds for GF128 scalars and values. */
  lemma Gf128IsSpace()
    ensures Gf128().IsSpace() && GaussJordan.IsSelfSpace(Gf128()) && Gf128().one != Gf128().zero
  {
    hide Mul;
    var sp := Gf128();
    forall a: Word, b: Word, c: Word ensures sp.ScalarLaws(a, b, c) {
      MulLaws(a, b, c);
      XorLaws(a, b, c);
    }
    forall u: Word, v: Word, w: Word ensures sp.ValueLaws(u, v, w) {
      XorLaws(u, v, w);
    }
    forall a: Word, b: Word, u: Word, v: Word ensures sp.ActLaws(a, b, u, v) {
      MulLaws(a, b, u);
      MulLaws(u, a, b);
      MulLaws(a, u, v);
      MulLaws(b, u, v);
      MulLaws(Zeros(128), u, u);
      MulLaws(u, Zeros(128), u);
      MulLaws(u, One(), One());
      MulLaws(One(), u, u);
      MulLaws(Add(a, b), u, u);
    }
    assert One()[0] != Zeros(128)[0];
  }

  /** The coefficients of a dense part are its powers from the first on. */
  lemma {:induction false} PowersOfDense(d: Word, n: nat, i: nat)
    requires i < n
    ensures Decoding.Powers(Gf128(), d, n)[i] == Power(d, i + 1)
    decreases n
  {
    hide Mul;
    if i < n - 1 {
      PowersOfDense(d, n - 1, i);
    } else if n == 1 {
      PowerTwo(d);
    } else {
      PowersOfDense(d, n - 1, n - 2);
    }
  }

  // x^127 + x^6 + x + 1.
  function InverseOfX(): Word { seq(128, i => i == 0 || i == 1 || i == 6 || i == 127) }

  lemma XInvertible()
    ensures Mul(X(), InverseOfX()) == One() && X() != One()
  {
    assert X()[0] != One()[0];
    hide Mul, Modulus, X, InverseOfX, One, Xt;
    var b := InverseOfX();
    MulLaws(X(), b, b);
    MulIsMulBy(b, X());
    TimesX(b);
    TopReduced();
  }

  lemma TopReduced()
    ensures Xt(Modulus(), InverseOfX()) == One()
  {
    var v := Xt(Modulus(), InverseOfX());
    forall i | 0 <= i < 128 ensures v[i] == One()[i] {
    }
  }

  lemma TimesX(b: Word)
    ensures MulBy(Modulus(), b, X()) == Xt(Modulus(), b)
  {
    hide Xt;
    var v, rest := Xt(Modulus(), b), X()[1..];
    assert rest[1..] == Zeros(126);
    MulByZeros(Modulus(), Xt(Modulus(), v), 126);
    XorLaws(v, v, v);
    XorLaws(Zeros(128), v, v);
    XorLaws(v, Zeros(128), v);
    assert Times(X()[0], b) == Zeros(128) && Times(rest[0], v) == v;
    assert Xor(v, Zeros(128)) == v;
  }

  /** Over GF128 itself an invertible matrix is reported as having no inverse. */
  lemma PivotMissedOverGf128()
    ensures var m := [[WordNil(), One()], [X(), WordNil()]];
      GaussJordan.IsInverse(Gf128(), 2, m, [[WordNil(), InverseOfX()], [One(), WordNil()]])
      && GaussJordan.Overlooks(Gf128(), 2, m, 0)
      && GaussJordan.Eliminated(Gf128(), 2, m, 2).Outcome() == GaussJordan.NoPivot
  {
    hide Mul, GaussJordan.IsInverse, GaussJordan.Eliminated, GaussJordan.Overlooks;
    Gf128IsSpace();
    XInvertible();
    GaussJordan.PivotMissed(Gf128(), X(), InverseOfX());
  }

  // Bits that act on words, and on bits.
  function BitAdd(): (bool, bool) -> bool { (a, b) => a != b }

  function BitMul(): (bool, bool) -> bool { (a, b) => a && b }

  function BitSelect(): (bool, Word) -> Word { (a, v) => Times(a, v) }

  function Bits(): Space<bool, Word>
  {
    Space(false, true, BitAdd(), BitMul(), a => if a then Some(true) else None,
          WordNil(), WordAdd(), BitSelect())
  }

  function BitsOnBits(): Space<bool, bool>
  {
    Space(false, true, BitAdd(), BitMul(), a => if a then Some(true) else None, false, BitAdd(), BitMul())
  }

  lemma BitsAreSpaces()
    ensures GaussJordan.BitSpaces(Bits(), BitsOnBits())
  {
    var sp := Bits();
    forall u: Word, v: Word, w: Word ensures sp.ValueLaws(u, v, w) {
      XorLaws(u, v, w);
    }
    forall a: bool, b: bool, u: Word, v: Word ensures sp.ActLaws(a, b, u, v) {
      XorLaws(Times(a, u), Times(b, u), u);
      XorLaws(u, v, u);
      TimesXor(a, u, v);
    }
  }
}

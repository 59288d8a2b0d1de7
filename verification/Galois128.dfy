/** Arithmetic in GF(2)[x] modulo x^128 + x^7 + x^2 + x + 1 (rr22/okvs/galois128.cc).

    A 128-bit word is the list of its bits, least significant first. */
module Galois128 {
  import opened Algebra
  import opened BitPolynomials

  type Word = w: seq<bool> | |w| == 128 witness Zeros(128)

  // The constant 0x87.
  function Modulus(): Word { seq(128, i => i == 0 || i == 1 || i == 2 || i == 7) }

  function One(): Word { Unit(128, 0) }

  function X(): Word { Unit(128, 1) }

  function Add(a: Word, b: Word): Word { Xor(a, b) }

  // The residue of the polynomial product.
  function Mul(a: Word, b: Word): Word { Rem(Modulus(), Clmul(a, b)) }

  lemma MulIsMulBy(a: Word, b: Word)
    ensures Mul(a, b) == MulBy(Modulus(), a, b)
  {
    RemClmul(Modulus(), a, b);
    RemShort(Modulus(), b);
    Commutes(Modulus(), a, b);
  }

  // ----- Shift and add -----

  function ShiftLeft(v: Word): Word { [false] + v[..127] }

  /** cc_gf128Mul: the 128-step loop computes the residue of the product. */
  method CcGf128Mul(a: Word, b: Word) returns (z: Word)
    ensures z == Mul(a, b)
  {
    z := Zeros(128);
    var v: Word := a;
    assert b[0..] == b;
    XorLaws(z, MulBy(Modulus(), a, b), z);
    for i := 0 to 128
      invariant Xor(z, MulBy(Modulus(), v, b[i..])) == MulBy(Modulus(), a, b)
    {
      ghost var rest := MulBy(Modulus(), Xt(Modulus(), v), b[i + 1..]);
      assert b[i..][1..] == b[i + 1..];
      XorLaws(z, Times(b[i], v), rest);
      XorLaws(z, z, z);
      ShiftIsXt(v);
      if b[i] {
        z := Xor(z, v);
      }
      v := if v[127] then Xor(ShiftLeft(v), Modulus()) else ShiftLeft(v);
    }
    assert b[128..] == [];
    XorLaws(z, z, z);
    MulIsMulBy(a, b);
  }

  lemma ShiftIsXt(v: Word)
    ensures Xt(Modulus(), v) == if v[127] then Xor(ShiftLeft(v), Modulus()) else ShiftLeft(v)
  {
  }

  // ----- Four carry-less products and two folds -----

  function Low(x: Word): seq<bool> { x[..64] }

  function High(x: Word): seq<bool> { x[64..] }

  // Shifts by eight bytes, _mm_slli_si128 and _mm_srli_si128.
  function BytesUp(x: Word): Word { Zeros(64) + x[..64] }

  function BytesDown(x: Word): Word { x[64..] + Zeros(64) }

  /** mm_gf128Mul: two words that hold the product. */
  method MmGf128Mul(x: Word, y: Word) returns (xy1: Word, xy2: Word)
    ensures xy1 + xy2 == Clmul(x, y)
  {
    hide Clmul, Xor, BytesUp, BytesDown, Combined;
    var t1: Word := Clmul(Low(x), Low(y));
    var t2: Word := Clmul(Low(x), High(y));
    var t3: Word := Clmul(High(x), Low(y));
    var t4: Word := Clmul(High(x), High(y));
    FourProducts(x, y);
    Halves(t1, t2, t3, t4);
    t2 := Xor(t2, t3);
    t3 := BytesUp(t2);
    t2 := BytesDown(t2);
    t1 := Xor(t1, t3);
    t4 := Xor(t4, t2);
    xy1, xy2 := t1, t4;
  }

  lemma Halves(p1: Word, p2: Word, p3: Word, p4: Word)
    ensures Xor(p1, BytesUp(Xor(p2, p3))) + Xor(p4, BytesDown(Xor(p2, p3))) == Combined(p1, p2, p3, p4)
  {
    var low, high := Xor(p1, BytesUp(Xor(p2, p3))), Xor(p4, BytesDown(Xor(p2, p3)));
    var all := Combined(p1, p2, p3, p4);
    assert low == all[..128];
    assert high == all[128..];
  }

  // The four partial products at their places.
  function Combined(p1: Word, p2: Word, p3: Word, p4: Word): (s: seq<bool>)
    ensures |s| == 256
  {
    Xor(Xor(p1 + Zeros(64), Zeros(64) + p2) + Zeros(64), Zeros(64) + Xor(p3 + Zeros(64), Zeros(64) + p4))
  }

  lemma FourProducts(x: Word, y: Word)
    ensures Clmul(x, y) == Combined(Clmul(Low(x), Low(y)), Clmul(Low(x), High(y)), Clmul(High(x), Low(y)),
        Clmul(High(x), High(y)))
  {
    assert Low(x) + High(x) == x && Low(y) + High(y) == y;
    ClmulLeft(Low(x), High(x), y);
    ClmulRight(Low(x), Low(y), High(y));
    ClmulRight(High(x), Low(y), High(y));
  }

  /** mm_gf128Reduce: folding the upper word down twice leaves the residue. */
  method MmGf128Reduce(x: Word, x1: Word) returns (low: Word)
    ensures low == Rem(Modulus(), x + x1)
  {
    var mul256Low, mul256High := x, x1;
    var modulus := Low(Modulus());
    var tmp: Word := Clmul(High(mul256High), modulus);
    ghost var t1 := tmp;
    mul256Low := Xor(mul256Low, BytesUp(tmp));
    mul256High := Xor(mul256High, BytesDown(tmp));
    tmp := Clmul(Low(mul256High), modulus);
    low := Xor(mul256Low, tmp);
    assert Low(mul256High) == Xor(Low(x1), t1[64..]);
    assert Low(x1) + High(x1) == x1 && modulus + Zeros(64) == Modulus();
    TwoFolds(Modulus(), modulus, x, Low(x1), High(x1));
  }

  lemma TwoFolds(r: seq<bool>, mod: seq<bool>, lo: seq<bool>, h0: seq<bool>, h1: seq<bool>)
    requires 0 < |mod| == |h0| == |h1| && |lo| == |r| == 2 * |mod| && r == mod + Zeros(|mod|)
    ensures var t := Clmul(h1, mod); var h := |mod|;
      Rem(r, lo + (h0 + h1)) == Xor(Xor(lo, Zeros(h) + t[..h]), Clmul(Xor(h0, t[h..]), mod))
  {
    hide Xor, Clmul, MulBy, XtTimes, Xt, Rem, Zeros;
    var t, h := Clmul(h1, mod), |mod|;
    ThreeParts(r, mod, lo, h0, h1);
    assert t == t[..h] + t[h..];
    BothFolds(r, mod, lo, h0, t[..h], t[h..]);
  }

  lemma BothFolds(r: seq<bool>, mod: seq<bool>, lo: seq<bool>, h0: seq<bool>, tLo: seq<bool>, tHi: seq<bool>)
    requires 0 < |mod| == |h0| == |tLo| == |tHi| && |lo| == |r| == 2 * |mod| && r == mod + Zeros(|mod|)
    ensures Xor(lo, Xor(Rem(r, Clmul(h0, mod)), XtTimes(r, Rem(r, tLo + tHi), |mod|)))
         == Xor(Xor(lo, Zeros(|mod|) + tLo), Clmul(Xor(h0, tHi), mod))
  {
    hide Xor, Clmul, MulBy, XtTimes, Xt, Rem, Zeros;
    assert Rem(r, mod) == r by { RemShort(r, mod); }
    FirstFold(r, mod, tLo, tHi);
    SecondFold(r, mod, h0, tHi);
    Regroup(lo, Rem(r, Clmul(h0, mod)), Zeros(|mod|) + tLo, Rem(r, Clmul(tHi, mod)));
  }

  lemma ThreeParts(r: seq<bool>, mod: seq<bool>, lo: seq<bool>, h0: seq<bool>, h1: seq<bool>)
    requires 0 < |mod| == |h0| == |h1| && |lo| == |r| == 2 * |mod| && r == mod + Zeros(|mod|)
    ensures Rem(r, lo + (h0 + h1)) == Xor(lo, Xor(Rem(r, Clmul(h0, mod)), XtTimes(r, Rem(r, Clmul(h1, mod)), |mod|)))
  {
    hide Xor, Clmul, MulBy, XtTimes, Xt, Rem, Zeros;
    var h := |mod|;
    RemShort(r, mod);
    RemShort(r, lo);
    RemConcat(r, lo, h0 + h1);
    RemConcat(r, h0, h1);
    XtTimesXor(r, Rem(r, h0), XtTimes(r, Rem(r, h1), h), 2 * h);
    XtTimesSum(r, Rem(r, h1), h, 2 * h);
    XtTimesSum(r, Rem(r, h1), 2 * h, h);
    FoldTop(r, h0, mod);
    FoldTop(r, h1, mod);
  }

  lemma FirstFold(r: seq<bool>, mod: seq<bool>, tLo: seq<bool>, tHi: seq<bool>)
    requires 0 < |mod| == |tLo| == |tHi| && |r| == 2 * |mod| && Rem(r, mod) == r
    ensures XtTimes(r, Rem(r, tLo + tHi), |mod|) == Xor(Zeros(|mod|) + tLo, Rem(r, Clmul(tHi, mod)))
  {
    hide Xor, Clmul, MulBy, XtTimes, Xt, Rem, Zeros;
    var h := |mod|;
    RemConcat(r, tLo, tHi);
    XtTimesXor(r, Rem(r, tLo), XtTimes(r, Rem(r, tHi), h), h);
    XtTimesSum(r, Rem(r, tHi), h, h);
    ShiftedUp(r, tLo);
    FoldTop(r, tHi, mod);
  }

  lemma SecondFold(r: seq<bool>, mod: seq<bool>, h0: seq<bool>, tHi: seq<bool>)
    requires 0 < |mod| == |h0| == |tHi| && |r| == 2 * |mod| && r == mod + Zeros(|mod|)
    ensures Clmul(Xor(h0, tHi), mod) == Xor(Rem(r, Clmul(h0, mod)), Rem(r, Clmul(tHi, mod)))
  {
    hide Xor, Clmul, MulBy, XtTimes, Xt, Rem, Zeros;
    RemClmul(r, h0, mod);
    RemClmul(r, tHi, mod);
    RemClmul(r, Xor(h0, tHi), mod);
    MulXorRight(r, Rem(r, mod), h0, tHi);
    RemShort(r, Clmul(Xor(h0, tHi), mod));
  }

  lemma ShiftedUp(r: seq<bool>, t: seq<bool>)
    requires 0 < |t| && |r| == 2 * |t|
    ensures XtTimes(r, Rem(r, t), |t|) == Zeros(|t|) + t
  {
    var one := Unit(|r|, 0);
    RemShort(r, Zeros(|t|) + t);
    MulConcat(r, one, Zeros(|t|), t);
    MulByZeros(r, one, |t|);
    XorLaws(XtTimes(r, Rem(r, t), |t|), one, one);
  }

  lemma Regroup(a: seq<bool>, b: seq<bool>, c: seq<bool>, d: seq<bool>)
    requires |a| == |b| == |c| == |d|
    ensures Xor(a, Xor(b, Xor(c, d))) == Xor(Xor(a, c), Xor(b, d))
  {
  }

  /** Galois128::Mul on a processor with carry-less multiplication agrees with the loop. */
  method MulByClmul(x: Word, y: Word) returns (z: Word)
    ensures z == Mul(x, y)
  {
    var xy1, xy2 := MmGf128Mul(x, y);
    z := MmGf128Reduce(xy1, xy2);
  }

  // ----- Powers and inverses -----

  lemma MulLaws(a: Word, b: Word, c: Word)
    ensures Mul(a, b) == Mul(b, a) && Mul(Mul(a, b), c) == Mul(a, Mul(b, c))
    ensures Mul(a, One()) == a && Mul(a, Zeros(128)) == Zeros(128)
    ensures Mul(a, Add(b, c)) == Add(Mul(a, b), Mul(a, c))
  {
    MulIsMulBy(a, b);
    MulIsMulBy(b, a);
    MulIsMulBy(Mul(a, b), c);
    MulIsMulBy(b, c);
    MulIsMulBy(a, Mul(b, c));
    MulIsMulBy(a, One());
    MulIsMulBy(a, Zeros(128));
    MulIsMulBy(a, Add(b, c));
    MulIsMulBy(a, c);
    RingLaws(Modulus(), a, b, c);
  }

  function Power(x: Word, i: nat): Word
  {
    if i == 0 then One() else Mul(Power(x, i - 1), x)
  }

  lemma {:induction false} PowerSum(x: Word, i: nat, j: nat)
    ensures Power(x, i + j) == Mul(Power(x, i), Power(x, j))
    decreases j
  {
    hide Mul;
    if j == 0 {
      MulLaws(Power(x, i), x, x);
    } else {
      PowerSum(x, i, j - 1);
      MulLaws(Power(x, i), Power(x, j - 1), x);
    }
  }

  lemma {:induction false} PowerProduct(x: Word, i: nat, j: nat)
    ensures Power(Power(x, i), j) == Power(x, i * j)
    decreases j
  {
    hide Mul;
    if j == 0 {
      assert i * j == 0;
    } else {
      PowerProduct(x, i, j - 1);
      assert i * j == i * (j - 1) + i;
      PowerSum(x, i * (j - 1), i);
    }
  }

  /** Pow: square and multiply; the power of zero is zero even for the exponent zero. */
  method Pow(x: Word, exponent: nat) returns (s: Word)
    ensures s == if x == Zeros(128) then Zeros(128) else Power(x, exponent)
  {
    hide Mul;
    var pow2, i := x, exponent;
    if x == Zeros(128) {
      return Zeros(128);
    }
    s := One();
    MulLaws(Power(x, exponent), One(), One());
    MulLaws(One(), Power(x, exponent), One());
    while i != 0
      invariant Mul(s, Power(pow2, i)) == Power(x, exponent)
      decreases i
    {
      ghost var half := i / 2;
      PowerProduct(pow2, 2, half);
      PowerTwo(pow2);
      PowerSum(pow2, 1, 2 * half);
      PowerSum(pow2, 0, 1);
      MulLaws(pow2, One(), One());
      MulLaws(One(), pow2, One());
      MulLaws(s, pow2, Power(pow2, 2 * half));
      if i % 2 == 1 {
        s := Mul(s, pow2);
      }
      pow2 := Mul(pow2, pow2);
      i := i / 2;
    }
    MulLaws(s, One(), One());
  }

  lemma PowerTwo(x: Word)
    ensures Power(x, 1) == x && Power(x, 2) == Mul(x, x)
  {
    hide Mul;
    MulLaws(One(), x, x);
    MulLaws(x, One(), One());
    assert Power(x, 1) == Mul(Power(x, 0), x);
    assert Power(x, 2) == Mul(Power(x, 1), x);
  }

  function Two(n: nat): (p: nat)
    ensures 0 < p
  {
    if n == 0 then 1 else 2 * Two(n - 1)
  }

  // v, squared n times.
  function Squared(v: Word, n: nat): Word
  {
    if n == 0 then v else Mul(Squared(v, n - 1), Squared(v, n - 1))
  }

  lemma {:induction false} PowerIsSquared(a: Word, n: nat)
    ensures Power(a, Two(n)) == Squared(a, n)
    decreases n
  {
    hide Mul, Power;
    if n == 0 {
      PowerTwo(a);
    } else {
      PowerIsSquared(a, n - 1);
      PowerSum(a, Two(n - 1), Two(n - 1));
    }
  }

  lemma {:induction false} TwoSum(m: nat, n: nat)
    ensures Two(m + n) == Two(m) * Two(n)
    decreases m
  {
    if m > 0 {
      TwoSum(m - 1, n);
      assert Two(m) * Two(n) == 2 * (Two(m - 1) * Two(n));
    } else {
      assert Two(m) * Two(n) == Two(n);
    }
  }

  // The inverse, if x^(2^128 - 2) is one.
  function InvOf(x: Word): Option<Word>
  {
    var c := Power(x, Two(128) - 2);
    if Mul(x, c) == One() then Some(c) else None
  }

  // a = x^(T - 1) and b = a^T, T = 2^(2^i), make the next a and result.
  lemma ChainStep(x: Word, t: nat, a: Word, b: Word, result: Word)
    requires 2 <= t && a == Power(x, t - 1) && b == Power(a, t) && (t == 2 || result == Power(x, t - 2))
    ensures Mul(a, b) == Power(x, t * t - 1)
    ensures t == 2 ==> b == Power(x, t * t - 2)
    ensures t > 2 ==> Mul(result, b) == Power(x, t * t - 2)
  {
    hide Mul, Power;
    var e := (t - 1) * t;
    PowerProduct(x, t - 1, t);
    assert t - 1 + e == t * t - 1;
    PowerSum(x, t - 1, e);
    assert t - 2 + e == t * t - 2;
    PowerSum(x, t - 2, e);
  }

  lemma Tower(i: nat)
    ensures Two(Two(i + 1)) == Two(Two(i)) * Two(Two(i))
    ensures 2 <= Two(Two(i)) && (Two(Two(i)) == 2 <==> i == 0)
  {
    TwoSum(Two(i), Two(i));
    assert Two(i + 1) == Two(i) + Two(i);
    assert Two(Two(i)) == 2 * Two(Two(i) - 1);
    if i > 0 {
      assert Two(i) == 2 * Two(i - 1);
      assert Two(Two(i) - 1) == 2 * Two(Two(i) - 2);
    }
  }

  // Squaring 2^i times.
  method SquareRepeatedly(a: Word, i: nat) returns (b: Word)
    ensures b == Power(a, Two(Two(i)))
  {
    hide Mul;
    b := a;
    PowerTwo(a);
    for j := 0 to Two(i)
      invariant b == Power(a, Two(j))
    {
      PowerSum(a, Two(j), Two(j));
      assert Two(j + 1) == Two(j) + Two(j);
      b := Mul(b, b);
    }
  }

  /** Inv: the addition chain computes x^(2^128 - 2), and the check keeps only true inverses. */
  method Inv(x: Word) returns (inverse: Option<Word>)
    ensures inverse == InvOf(x)
    ensures inverse.Some? ==> Mul(x, inverse.value) == One()
  {
    hide Mul, Power, Two;
    var a, result: Word := x, Zeros(128);
    FirstTower(x);
    for i := 0 to 7
      invariant 2 <= Two(Two(i)) && a == Power(x, Two(Two(i)) - 1)
      invariant i == 0 || result == Power(x, Two(Two(i)) - 2)
    {
      Tower(i);
      Tower(i + 1);
      var b := SquareRepeatedly(a, i);
      ChainStep(x, Two(Two(i)), a, b, result);
      a := Mul(a, b);
      result := if i == 0 then b else Mul(result, b);
    }
    LastTower();
    inverse := if Mul(x, result) == One() then Some(result) else None;
  }

  lemma FirstTower(x: Word)
    ensures Two(Two(0)) == 2 && Power(x, 1) == x
  {
    PowerTwo(x);
  }

  lemma LastTower()
    ensures Two(7) == 128
  {
    assert Two(3) == 8;
    assert Two(5) == 32;
  }
}

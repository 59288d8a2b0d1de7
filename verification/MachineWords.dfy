/** Squares in GF(2)[x] modulo x^128 + x^7 + x^2 + x + 1, computed on machine words. */
module MachineWords {
  import opened BitPolynomials
  import opened Galois128

  // x^k times a residue.
  function Up(v: Word, k: nat): Word { XtTimes(Modulus(), v, k) }

  lemma UpSum(y: Word, k: nat, l: nat)
    ensures Up(Up(y, k), l) == Up(y, k + l)
  {
    XtTimesSum(Modulus(), y, k, l);
  }

  lemma UpXor(u: Word, v: Word, k: nat)
    ensures Up(Xor(u, v), k) == Xor(Up(u, k), Up(v, k))
  {
    XtTimesXor(Modulus(), u, v, k);
  }

  lemma UpMul(u: Word, v: Word, k: nat)
    ensures Up(Mul(u, v), k) == Mul(Up(u, k), v)
  {
    MulIsMulBy(u, v);
    MulIsMulBy(Up(u, k), v);
    XtTimesMul(Modulus(), u, v, k);
  }

  // ----- Machine words -----

  function Half(a: bv64): bv64 { a >> 1 }

  predicate Odd(a: bv64) { a & 1 == 1 }

  function Sum(a: bv64, b: bv64): bv64 { a ^ b }

  function Bit(c: bool): Word { Times(c, One()) }

  // The residue that a half word stands for.
  function Element(a: bv64): (w: Word)
    decreases a
  {
    if a == 0 then Zeros(128) else Xor(Bit(Odd(a)), Up(Element(Half(a)), 1))
  }

  lemma ElementStep(a: bv64)
    ensures Element(a) == Xor(Bit(Odd(a)), Up(Element(Half(a)), 1))
  {
    if a == 0 {
      XtTimesZeros(Modulus(), 1);
      XorLaws(Zeros(128), Zeros(128), Zeros(128));
    }
  }

  lemma {:induction false} ElementSum(a: bv64, b: bv64)
    ensures Element(Sum(a, b)) == Xor(Element(a), Element(b))
    decreases Size(a) + Size(b)
  {
    hide *;
    if a == 0 && b == 0 {
      ElementSumZero();
    } else {
      ElementStep(a);
      ElementStep(b);
      ElementStep(Sum(a, b));
      HalfOfSum(a, b);
      Smaller(a);
      Smaller(b);
      ElementSum(Half(a), Half(b));
      BitSum(a, b);
      SumStep(Bit(Odd(a)), Bit(Odd(b)), Element(Half(a)), Element(Half(b)));
    }
  }

  lemma ElementSumZero()
    ensures Element(Sum(0, 0)) == Xor(Element(0), Element(0))
  {
    XorLaws(Zeros(128), Zeros(128), Zeros(128));
  }

  lemma HalfOfSum(a: bv64, b: bv64)
    ensures Half(Sum(a, b)) == Sum(Half(a), Half(b))
  {
  }

  function Size(a: bv64): nat
    decreases a
  {
    if a == 0 then 0 else 1 + Size(Half(a))
  }

  lemma Smaller(a: bv64)
    ensures if a == 0 then Half(a) == 0 else Size(Half(a)) < Size(a)
  {
  }

  lemma BitSum(a: bv64, b: bv64)
    ensures Bit(Odd(Sum(a, b))) == Xor(Bit(Odd(a)), Bit(Odd(b)))
  {
    XorLaws(One(), One(), One());
    XorLaws(Zeros(128), Zeros(128), Zeros(128));
    assert Odd(Sum(a, b)) == (Odd(a) != Odd(b));
  }

  lemma SumStep(c: Word, d: Word, u: Word, v: Word)
    ensures Xor(Xor(c, d), Up(Xor(u, v), 1)) == Xor(Xor(c, Up(u, 1)), Xor(d, Up(v, 1)))
  {
    UpXor(u, v, 1);
    Xor4(c, d, Up(u, 1), Up(v, 1));
  }

  // ----- Powers of x -----

  lemma ElementOfOne()
    ensures Element(1) == One()
  {
    assert Half(1) == 0;
    XtTimesZeros(Modulus(), 1);
    XorLaws(One(), One(), One());
  }

  lemma ElementEven(a: bv64)
    requires !Odd(a)
    ensures Element(a) == Up(Element(Half(a)), 1)
  {
    ElementStep(a);
    XorLaws(Up(Element(Half(a)), 1), One(), One());
  }

  // a / 2^n, where 2^n divides a.
  function Down(a: bv64, n: nat): bv64
    decreases n
  {
    if n == 0 then a else Down(Half(a), n - 1)
  }

  predicate Even(a: bv64, n: nat)
    decreases n
  {
    n > 0 ==> !Odd(a) && Even(Half(a), n - 1)
  }

  lemma {:induction false} ElementDown(a: bv64, n: nat)
    requires Even(a, n)
    ensures Element(a) == Up(Element(Down(a, n)), n)
    decreases n
  {
    hide Half, Odd, Element, Xt;
    if n > 0 {
      ElementEven(a);
      ElementDown(Half(a), n - 1);
      UpSum(Element(Down(Half(a), n - 1)), n - 1, 1);
    }
  }

  const TOP: bv64 := 0x80000000_00000000

  lemma ElementOfTop()
    ensures Element(TOP) == Up(One(), 63)
  {
    hide *;
    var y := One();
    ElementOfOne();
    TopDown();
    TopDownMore();
    ElementDown(0x80000000_00000000, 9);
    ElementDown(0x400000_00000000, 9);
    ElementDown(0x2000_00000000, 9);
    ElementDown(0x10_00000000, 9);
    ElementDown(0x8000000, 9);
    ElementDown(0x40000, 9);
    ElementDown(0x200, 9);
    UpSum(y, 9, 9);
    UpSum(y, 18, 9);
    UpSum(y, 27, 9);
    UpSum(y, 36, 9);
    UpSum(y, 45, 9);
    UpSum(y, 54, 9);
  }

  lemma TopDown()
    ensures TOP == 0x80000000_00000000
    ensures Even(0x80000000_00000000, 9) && Down(0x80000000_00000000, 9) == 0x400000_00000000
    ensures Even(0x2000_00000000, 9) && Down(0x2000_00000000, 9) == 0x10_00000000
    ensures Even(0x8000000, 9) && Down(0x8000000, 9) == 0x40000
    ensures Even(0x200, 9) && Down(0x200, 9) == 1
  {
  }

  lemma TopDownMore()
    ensures Even(0x400000_00000000, 9) && Down(0x400000_00000000, 9) == 0x2000_00000000
    ensures Even(0x10_00000000, 9) && Down(0x10_00000000, 9) == 0x8000000
    ensures Even(0x40000, 9) && Down(0x40000, 9) == 0x200
  {
  }

  lemma UpUnit(j: nat, k: nat)
    requires j + k < 128
    ensures Up(Unit(128, j), k) == Unit(128, j + k)
  {
    XtTimesUnit(Modulus(), j, k);
  }

  // 0x87 is x^128.
  lemma ElementOf87()
    ensures Element(0x87) == Up(One(), 128)
    ensures Element(0x87) == Xor(One(), Up(Element(0x43), 1))
  {
    hide *;
    var u1, u2, u5, u6, u7 := Unit(128, 1), Unit(128, 2), Unit(128, 5), Unit(128, 6), Unit(128, 7);
    Bits87();
    ElementStep(0x87);
    ElementStep(0x43);
    ElementStep(0x21);
    ElementDown(0x10, 4);
    ElementOfOne();
    OneBit();
    UpUnit(0, 4);
    UpUnit(4, 1);
    UpUnit(0, 1);
    UpUnit(5, 1);
    UpUnit(1, 1);
    UpUnit(6, 1);
    UpXor(One(), u5, 1);
    UpXor(One(), Xor(u1, u6), 1);
    UpXor(u1, u6, 1);
    ModulusBits();
  }

  lemma OneBit()
    ensures Bit(true) == One() && One() == Unit(128, 0)
  {
  }

  lemma ModulusBits()
    ensures Xor(Unit(128, 0), Xor(Unit(128, 1), Xor(Unit(128, 2), Unit(128, 7)))) == Up(One(), 128)
  {
    TopPower(Modulus());
    hide Up, XtTimes;
    assert Xor(Unit(128, 0), Xor(Unit(128, 1), Xor(Unit(128, 2), Unit(128, 7)))) == Modulus();
  }

  lemma Bits87()
    ensures Odd(0x87) && Half(0x87) == 0x43 && Odd(0x43) && Half(0x43) == 0x21 && Odd(0x21) && Half(0x21) == 0x10
    ensures Even(0x10, 4) && Down(0x10, 4) == 1
  {
  }

  // ----- Two half words -----

  datatype Block = Block(lo: bv64, hi: bv64)

  function Residue(b: Block): Word { Xor(Element(b.lo), Up(Element(b.hi), 64)) }

  function BlockSum(a: Block, b: Block): Block { Block(Sum(a.lo, b.lo), Sum(a.hi, b.hi)) }

  function BlockHalf(b: Block): Block { Block(if Odd(b.hi) then Sum(Half(b.lo), TOP) else Half(b.lo), Half(b.hi)) }

  lemma ValueSum(a: Block, b: Block)
    ensures Residue(BlockSum(a, b)) == Xor(Residue(a), Residue(b))
  {
    hide Element, Up, Xor, Sum;
    ElementSum(a.lo, b.lo);
    ElementSum(a.hi, b.hi);
    UpXor(Element(a.hi), Element(b.hi), 64);
    Xor4(Element(a.lo), Element(b.lo), Up(Element(a.hi), 64), Up(Element(b.hi), 64));
  }

  lemma ValueHalf(b: Block)
    ensures Residue(b) == Xor(Bit(Odd(b.lo)), Up(Residue(BlockHalf(b)), 1))
  {
    hide Element, Up, Xor, Sum, Half, Odd, Bit;
    var lo, hi := Half(b.lo), Half(b.hi);
    ElementStep(b.lo);
    ElementStep(b.hi);
    TopPart(lo, Odd(b.hi));
    UpXor(Bit(Odd(b.hi)), Up(Element(hi), 1), 64);
    UpSum(Element(hi), 1, 64);
    UpSum(Element(hi), 64, 1);
    UpXor(Xor(Element(lo), Up(Bit(Odd(b.hi)), 63)), Up(Element(hi), 64), 1);
    UpXor(Element(lo), Up(Bit(Odd(b.hi)), 63), 1);
    UpSum(Bit(Odd(b.hi)), 63, 1);
    Group(Bit(Odd(b.lo)), Up(Element(lo), 1), Up(Bit(Odd(b.hi)), 64), Up(Element(hi), 65));
  }

  lemma TopPart(lo: bv64, c: bool)
    ensures Element(if c then Sum(lo, TOP) else lo) == Xor(Element(lo), Up(Bit(c), 63))
  {
    hide Element, Up, Sum;
    ElementOfTop();
    ElementSum(lo, TOP);
    ZerosUp(63);
    XorLaws(Element(lo), One(), One());
  }

  lemma ZerosUp(k: nat)
    ensures Up(Zeros(128), k) == Zeros(128)
  {
    XtTimesZeros(Modulus(), k);
  }

  lemma Group(a: Word, b: Word, c: Word, d: Word)
    ensures Xor(Xor(a, b), Xor(c, d)) == Xor(a, Xor(Xor(b, c), d))
  {
  }

  // ----- Squares -----

  lemma SquareXor(u: Word, v: Word)
    ensures Mul(Xor(u, v), Xor(u, v)) == Xor(Mul(u, u), Mul(v, v))
  {
    hide Mul, Xor;
    MulLaws(Xor(u, v), u, v);
    MulLaws(u, Xor(u, v), v);
    MulLaws(v, Xor(u, v), v);
    MulLaws(u, u, v);
    MulLaws(v, u, v);
    MiddleCancels(Mul(u, u), Mul(u, v), Mul(v, v));
  }

  lemma MiddleCancels(a: Word, b: Word, c: Word)
    ensures Xor(Xor(a, b), Xor(b, c)) == Xor(a, c)
  {
  }

  lemma SquareUp(v: Word, k: nat)
    ensures Mul(Up(v, k), Up(v, k)) == Up(Mul(v, v), 2 * k)
  {
    hide Mul, Up;
    UpMul(v, Up(v, k), k);
    UpMul(v, v, k);
    MulLaws(v, Up(v, k), v);
    UpSum(Mul(v, v), k, k);
  }

  // The low half of a half word with a zero after every bit.
  function Spread(x: bv64): bv64
  {
    var a := (x ^ (x << 16)) & 0x0000FFFF_0000FFFF;
    var b := (a ^ (a << 8)) & 0x00FF00FF_00FF00FF;
    var c := (b ^ (b << 4)) & 0x0F0F0F0F_0F0F0F0F;
    var d := (c ^ (c << 2)) & 0x33333333_33333333;
    (d ^ (d << 1)) & 0x55555555_55555555
  }

  function LowBits(a: bv64): bv64 { a & 0xFFFFFFFF }

  function HighBits(a: bv64): bv64 { a >> 32 }

  function Spaced(a: bv64): Block { Block(Spread(LowBits(a)), Spread(HighBits(a))) }

  lemma SpacedHalf(a: bv64)
    ensures Odd(Spaced(a).lo) == Odd(a) && !Odd(BlockHalf(Spaced(a)).lo)
    ensures BlockHalf(BlockHalf(Spaced(a))) == Spaced(Half(a))
  {
    hide *;
    var low, high := LowBits(a), HighBits(a);
    LowSmall(a);
    HighSmall(a);
    SpreadHalf(low);
    SpreadHalf(high);
    SpacedParts(a);
    HalfParts(Spread(low), Spread(high));
    OddTop(Half(Spread(low)));
    HalfOfSum(Half(Spread(low)), TOP);
    MovesDown(a);
  }

  lemma SpacedParts(a: bv64)
    ensures Spaced(a) == Block(Spread(LowBits(a)), Spread(HighBits(a)))
    ensures Spaced(Half(a)) == Block(Spread(LowBits(Half(a))), Spread(HighBits(Half(a))))
  {
  }

  // Two halvings of a block whose second bits are clear.
  lemma HalfParts(lo: bv64, hi: bv64)
    ensures BlockHalf(Block(lo, hi)).lo == if Odd(hi) then Sum(Half(lo), TOP) else Half(lo)
    ensures !Odd(Half(hi)) ==>
      BlockHalf(BlockHalf(Block(lo, hi))) == Block(Half(BlockHalf(Block(lo, hi)).lo), Half(Half(hi)))
  {
    hide Odd, Sum, Half;
  }

  lemma LowSmall(a: bv64)
    ensures LowBits(LowBits(a)) == LowBits(a) && Odd(LowBits(a)) == Odd(a)
  {
  }

  lemma HighSmall(a: bv64)
    ensures LowBits(HighBits(a)) == HighBits(a) && HighBits(Half(a)) == Half(HighBits(a))
  {
  }

  lemma OddTop(a: bv64)
    ensures Odd(Sum(a, TOP)) == Odd(a)
  {
  }

  lemma SpreadHalf(x: bv64)
    requires LowBits(x) == x
    ensures Half(Half(Spread(x))) == Spread(Half(x))
    ensures Odd(Spread(x)) == Odd(x) && !Odd(Half(Spread(x)))
  {
    hide *;
    SpreadShift(x);
    SpreadOdd(x);
    OddLow(x);
  }

  lemma SpreadShift(x: bv64)
    ensures Half(Half(Spread(LowBits(x)))) == Spread(Half(LowBits(x)))
  {
    hide Spread, Half, LowBits;
    HalvesOfLow(x);
    HalfTwice(Spread(x & 0xFFFFFFFF));
    SpreadMoves(x);
  }

  lemma HalfTwice(a: bv64)
    ensures Half(Half(a)) == (a >> 1) >> 1
  {
  }

  lemma SpreadMoves(x: bv64)
    ensures (Spread(x & 0xFFFFFFFF) >> 1) >> 1 == Spread((x & 0xFFFFFFFF) >> 1)
  {
  }

  lemma SpreadOdd(x: bv64)
    ensures !Odd(Half(Spread(LowBits(x))))
  {
  }

  lemma OddLow(x: bv64)
    ensures Odd(Spread(LowBits(x))) == Odd(x)
  {
  }

  // The bit that a shift moves from the high half to the low half.
  lemma MovesDown(a: bv64)
    ensures Spread(LowBits(Half(a))) ==
      if Odd(HighBits(a)) then Sum(Spread(Half(LowBits(a))), Half(TOP)) else Spread(Half(LowBits(a)))
  {
    hide Spread;
    HalvesOfLow(a);
    if Odd(HighBits(a)) {
      MovesBit(a);
    } else {
      MovesNothing(a);
    }
  }

  lemma HalvesOfLow(a: bv64)
    ensures LowBits(a) == a & 0xFFFFFFFF
    ensures LowBits(Half(a)) == (a >> 1) & 0xFFFFFFFF && Half(LowBits(a)) == (a & 0xFFFFFFFF) >> 1
  {
  }

  lemma MovesBit(a: bv64)
    requires (a >> 32) & 1 == 1
    ensures Spread((a >> 1) & 0xFFFFFFFF) == Spread((a & 0xFFFFFFFF) >> 1) ^ 0x40000000_00000000
  {
  }

  lemma MovesNothing(a: bv64)
    requires (a >> 32) & 1 == 0
    ensures Spread((a >> 1) & 0xFFFFFFFF) == Spread((a & 0xFFFFFFFF) >> 1)
  {
  }

  // Spacing the bits out squares.
  lemma {:induction false} SpacedSquares(a: bv64)
    ensures Residue(Spaced(a)) == Mul(Element(a), Element(a))
    decreases Size(a)
  {
    hide *;
    if a == 0 {
      SpacedZero();
    } else {
      Smaller(a);
      SpacedSquares(Half(a));
      SpacedHalf(a);
      ValueHalf(Spaced(a));
      ValueHalf(BlockHalf(Spaced(a)));
      ElementStep(a);
      SquareStep(Odd(a), Element(Half(a)), Residue(BlockHalf(BlockHalf(Spaced(a)))));
    }
  }

  lemma SpacedZero()
    ensures Residue(Spaced(0)) == Mul(Element(0), Element(0))
  {
    assert Spaced(0) == Block(0, 0);
    ZerosUp(64);
    XorLaws(Zeros(128), Zeros(128), Zeros(128));
    MulLaws(Zeros(128), Zeros(128), Zeros(128));
  }

  lemma SquareStep(c: bool, u: Word, v: Word)
    requires v == Mul(u, u)
    ensures Xor(Bit(c), Up(Xor(Bit(false), Up(v, 1)), 1)) == Mul(Xor(Bit(c), Up(u, 1)), Xor(Bit(c), Up(u, 1)))
  {
    hide Mul, Up, Xor;
    SquareXor(Bit(c), Up(u, 1));
    SquareUp(u, 1);
    XorLaws(Up(v, 1), One(), One());
    UpSum(v, 1, 1);
    MulLaws(One(), One(), One());
    MulLaws(Zeros(128), Zeros(128), Zeros(128));
  }

  // ----- Reduction -----

  lemma UnitTimes(y: Word, k: nat)
    requires k < 128
    ensures Mul(y, Unit(128, k)) == Up(y, k)
  {
    hide *;
    OneBit();
    UpUnit(0, k);
    UpMul(One(), y, k);
    MulLaws(y, Unit(128, k), y);
    MulLaws(One(), y, y);
    MulLaws(y, One(), y);
  }

  // x^128 is x^7 + x^2 + x + 1.
  lemma TopTimes(y: Word)
    ensures Up(y, 128) == Xor(Xor(Xor(y, Up(y, 1)), Up(y, 2)), Up(y, 7))
  {
    hide Mul, Up, Xor, Unit, One;
    var u0, u1, u2, u7 := Unit(128, 0), Unit(128, 1), Unit(128, 2), Unit(128, 7);
    ModulusBits();
    OneBit();
    UpMul(One(), y, 128);
    MulLaws(One(), y, y);
    MulLaws(y, One(), y);
    MulLaws(Up(One(), 128), y, y);
    MulLaws(y, u0, Xor(u1, Xor(u2, u7)));
    MulLaws(y, u1, Xor(u2, u7));
    MulLaws(y, u2, u7);
    UnitTimes(y, 1);
    UnitTimes(y, 2);
    UnitTimes(y, 7);
    Regroup(y, Up(y, 1), Up(y, 2), Up(y, 7));
  }

  lemma Regroup(a: Word, b: Word, c: Word, d: Word)
    ensures Xor(a, Xor(b, Xor(c, d))) == Xor(Xor(Xor(a, b), c), d)
  {
  }

  function Double(a: bv64): bv64 { a << 1 }

  function Top(a: bv64): bv64 { a >> 63 }

  function BlockDouble(b: Block): Block { Block(Double(b.lo), Sum(Double(b.hi), Top(b.lo))) }

  lemma ValueDouble(b: Block)
    requires Top(b.hi) == 0
    ensures Residue(BlockDouble(b)) == Up(Residue(b), 1)
  {
    hide Residue, Up, Top, BlockDouble, BlockHalf, Odd;
    ValueHalf(BlockDouble(b));
    HalfOfDouble(b);
    XorLaws(Up(Residue(b), 1), One(), One());
  }

  lemma HalfOfDouble(b: Block)
    requires Top(b.hi) == 0
    ensures BlockHalf(BlockDouble(b)) == b && !Odd(BlockDouble(b).lo)
  {
    hide Half, Sum, Odd, Double, Top;
    HalfDouble(b.hi);
    HalfTop(b.lo);
    HalfOfSum(Double(b.hi), Top(b.lo));
    OddSum(Double(b.hi), Top(b.lo));
    OddSum(b.hi, b.lo);
    TopMoves(b.lo);
  }

  lemma HalfDouble(a: bv64)
    requires Top(a) == 0
    ensures Half(Double(a)) == a && !Odd(Double(a))
  {
  }

  lemma HalfTop(a: bv64)
    ensures Half(Top(a)) == 0
  {
  }

  lemma OddSum(a: bv64, b: bv64)
    ensures Odd(Sum(a, b)) == (Odd(a) != Odd(b)) && Sum(a, 0) == a
  {
  }

  lemma TopMoves(a: bv64)
    ensures !Odd(Double(a))
    ensures (if Odd(Top(a)) then Sum(Half(Double(a)), TOP) else Half(Double(a))) == a
  {
    if Odd(Top(a)) {
      TopSet(a);
    } else {
      TopClear(a);
    }
  }

  lemma TopSet(a: bv64)
    requires (a >> 63) & 1 == 1
    ensures ((a << 1) >> 1) ^ 0x80000000_00000000 == a
  {
  }

  lemma TopClear(a: bv64)
    requires (a >> 63) & 1 == 0
    ensures (a << 1) >> 1 == a
  {
  }

  // h, shifted by one, two and seven places.
  function Shift1(h: bv64): Block { Block(h << 1, h >> 63) }

  function Shift2(h: bv64): Block { Block(h << 2, h >> 62) }

  function Shift7(h: bv64): Block { Block(h << 7, h >> 57) }

  // x^128 times a half word, that is x^7 + x^2 + x + 1 times it.
  function Fold(h: bv64): Block
  {
    Block(Sum(Sum(Sum(h, h << 1), h << 2), h << 7), Sum(Sum(Sum(0, h >> 63), h >> 62), h >> 57))
  }

  lemma Shifts(h: bv64)
    ensures Residue(Block(h, 0)) == Element(h)
    ensures Residue(Shift1(h)) == Up(Element(h), 1)
    ensures Residue(Shift2(h)) == Up(Element(h), 2)
    ensures Residue(Shift7(h)) == Up(Element(h), 7)
  {
    hide Up, Xor, BlockDouble, Top, Element, Residue;
    var b, y := Block(h, 0), Element(h);
    JustLow(h);
    Doubles(h);
    Clear(h);
    ValueDouble(b);
    ValueDouble(Shift1(h));
    ValueDouble(Shift2(h));
    ValueDouble(Block(h << 3, h >> 61));
    ValueDouble(Block(h << 4, h >> 60));
    ValueDouble(Block(h << 5, h >> 59));
    ValueDouble(Block(h << 6, h >> 58));
    UpSum(y, 1, 1);
    UpSum(y, 2, 1);
    UpSum(y, 3, 1);
    UpSum(y, 4, 1);
    UpSum(y, 5, 1);
    UpSum(y, 6, 1);
  }

  lemma JustLow(h: bv64)
    ensures Residue(Block(h, 0)) == Element(h)
  {
    ZerosUp(64);
    XorLaws(Element(h), One(), One());
  }

  // The blocks that the doublings from h go through.
  lemma Doubles(h: bv64)
    ensures BlockDouble(Block(h, 0)) == Shift1(h)
    ensures BlockDouble(Shift1(h)) == Shift2(h)
    ensures BlockDouble(Shift2(h)) == Block(h << 3, h >> 61)
    ensures BlockDouble(Block(h << 3, h >> 61)) == Block(h << 4, h >> 60)
    ensures BlockDouble(Block(h << 4, h >> 60)) == Block(h << 5, h >> 59)
    ensures BlockDouble(Block(h << 5, h >> 59)) == Block(h << 6, h >> 58)
    ensures BlockDouble(Block(h << 6, h >> 58)) == Shift7(h)
  {
    hide Sum, Double, Top;
    LowDoubles(h);
    HighDoubles(h);
    HighDoublesMore(h);
  }

  lemma LowDoubles(h: bv64)
    ensures Double(h) == h << 1 && Double(h << 1) == h << 2 && Double(h << 2) == h << 3
    ensures Double(h << 3) == h << 4 && Double(h << 4) == h << 5 && Double(h << 5) == h << 6
    ensures Double(h << 6) == h << 7
  {
  }

  lemma HighDoubles(h: bv64)
    ensures Sum(Double(0), Top(h)) == h >> 63
    ensures Sum(Double(h >> 63), Top(h << 1)) == h >> 62
    ensures Sum(Double(h >> 62), Top(h << 2)) == h >> 61
    ensures Sum(Double(h >> 61), Top(h << 3)) == h >> 60
    ensures Sum(Double(h >> 60), Top(h << 4)) == h >> 59
  {
  }

  lemma HighDoublesMore(h: bv64)
    ensures Sum(Double(h >> 59), Top(h << 5)) == h >> 58
    ensures Sum(Double(h >> 58), Top(h << 6)) == h >> 57
  {
  }

  lemma Clear(h: bv64)
    ensures Top(0) == 0 && Top(h >> 63) == 0 && Top(h >> 62) == 0 && Top(h >> 61) == 0
    ensures Top(h >> 60) == 0 && Top(h >> 59) == 0 && Top(h >> 58) == 0
  {
  }

  lemma FoldReduces(h: bv64)
    ensures Residue(Fold(h)) == Up(Element(h), 128)
  {
    hide Residue, Up, Xor, Element, Sum;
    TopTimes(Element(h));
    Shifts(h);
    var b0, b1, b2 := Block(h, 0), Shift1(h), Shift2(h);
    ValueSum(BlockSum(BlockSum(b0, b1), b2), Shift7(h));
    ValueSum(BlockSum(b0, b1), b2);
    ValueSum(b0, b1);
  }

  // The square: what lies above 128 bits is folded down, and its overflow once more.
  function Square(b: Block): Block
  {
    var low, high := Spaced(b.lo), Spaced(b.hi);
    var f0, f1 := Fold(high.lo), Fold(high.hi);
    var f2 := Fold(f1.hi);
    Block(Sum(Sum(low.lo, f0.lo), Sum(0, f2.lo)), Sum(Sum(low.hi, f0.hi), Sum(f1.lo, f2.hi)))
  }

  lemma SquareSquares(b: Block)
    ensures Residue(Square(b)) == Mul(Residue(b), Residue(b))
  {
    hide Spaced, Fold, Element, Up, Xor, Mul, Sum;
    var low, high := Spaced(b.lo), Spaced(b.hi);
    var f := Fold(high.hi);
    SquareXor(Element(b.lo), Up(Element(b.hi), 64));
    SquareUp(Element(b.hi), 64);
    SpacedSquares(b.lo);
    SpacedSquares(b.hi);
    FoldReduces(high.lo);
    FoldReduces(high.hi);
    FoldReduces(f.hi);
    JustHigh(f.lo);
    ValueSum(low, Fold(high.lo));
    ValueSum(Block(0, f.lo), Fold(f.hi));
    ValueSum(BlockSum(low, Fold(high.lo)), BlockSum(Block(0, f.lo), Fold(f.hi)));
    UpXor(Element(high.lo), Up(Element(high.hi), 64), 128);
    UpSum(Element(high.hi), 64, 128);
    UpSum(Element(high.hi), 128, 64);
    UpXor(Element(f.lo), Up(Element(f.hi), 64), 64);
    UpSum(Element(f.hi), 64, 64);
    Xors(Residue(low), Residue(Fold(high.lo)), Up(Element(f.lo), 64), Residue(Fold(f.hi)));
  }

  lemma Xors(a: Word, b: Word, c: Word, d: Word)
    ensures Xor(Xor(a, b), Xor(c, d)) == Xor(a, Xor(b, Xor(c, d)))
  {
  }

  lemma JustHigh(h: bv64)
    ensures Residue(Block(0, h)) == Up(Element(h), 64)
  {
    XorLaws(Up(Element(h), 64), One(), One());
  }
}

/** x squared 128 times is x again, and x plus x squared 64 times divides one: both are computed on
    machine words. */
module Frobenius {
  import opened BitPolynomials
  import opened Galois128
  import opened MachineWords

  // ----- Squaring x -----

  function Square8(b: Block): Block { Square(Square(Square(Square(Square(Square(Square(Square(b)))))))) }

  lemma Squares8()
    ensures Square8(Block(0x2, 0x0)) == Block(0x4015, 0x0)
  {
  }

  lemma Squares16()
    ensures Square8(Block(0x4015, 0x0)) == Block(0x118fe619_6978ef70, 0x10010011_11110961)
  {
  }

  lemma Squares24()
    ensures Square8(Block(0x118fe619_6978ef70, 0x10010011_11110961)) == Block(0x1a97936b_620f481d, 0xc7f8a417_56ad614d)
  {
  }

  lemma Squares32()
    ensures Square8(Block(0x1a97936b_620f481d, 0xc7f8a417_56ad614d)) == Block(0x21777af8_0695052a, 0x782d0a99_5dd3b018)
  {
  }

  lemma Squares40()
    ensures Square8(Block(0x21777af8_0695052a, 0x782d0a99_5dd3b018)) == Block(0x1794c9c6_116bca12, 0x1854548b_b6f4de8e)
  {
  }

  lemma Squares48()
    ensures Square8(Block(0x1794c9c6_116bca12, 0x1854548b_b6f4de8e)) == Block(0xfe1d7816_d9eb81fd, 0xe316b617_72920218)
  {
  }

  lemma Squares56()
    ensures Square8(Block(0xfe1d7816_d9eb81fd, 0xe316b617_72920218)) == Block(0xe213b075_ac781973, 0x74025243_5434bd93)
  {
  }

  lemma Squares64()
    ensures Square8(Block(0xe213b075_ac781973, 0x74025243_5434bd93)) == Block(0x44e598a7_95a299f6, 0x61651fea_6b5832b9)
  {
  }

  lemma Squares72()
    ensures Square8(Block(0x44e598a7_95a299f6, 0x61651fea_6b5832b9)) == Block(0xf9104edc_7cd7c419, 0xcafd0f1d_ee4b13f4)
  {
  }

  lemma Squares80()
    ensures Square8(Block(0xf9104edc_7cd7c419, 0xcafd0f1d_ee4b13f4)) == Block(0x042a87c2_811ee47a, 0x79a3d532_b4dca977)
  {
  }

  lemma Squares88()
    ensures Square8(Block(0x042a87c2_811ee47a, 0x79a3d532_b4dca977)) == Block(0x494fdfab_6df42306, 0x92c0cf34_3ae063ad)
  {
  }

  lemma Squares96()
    ensures Square8(Block(0x494fdfab_6df42306, 0x92c0cf34_3ae063ad)) == Block(0xdca8758e_d620dd7b, 0x40e2dfc1_450698ca)
  {
  }

  lemma Squares104()
    ensures Square8(Block(0xdca8758e_d620dd7b, 0x40e2dfc1_450698ca)) == Block(0xaba9209e_72802626, 0x18fb3bc8_96b15739)
  {
  }

  lemma Squares112()
    ensures Square8(Block(0xaba9209e_72802626, 0x18fb3bc8_96b15739)) == Block(0x46bdf85b_5f5764d5, 0xc77a431b_17442dc2)
  {
  }

  lemma Squares120()
    ensures Square8(Block(0x46bdf85b_5f5764d5, 0xc77a431b_17442dc2)) == Block(0x8a24abe2_7faf17b9, 0x08216569_34ab0df9)
  {
  }

  lemma Squares128()
    ensures Square8(Block(0x8a24abe2_7faf17b9, 0x08216569_34ab0df9)) == Block(0x2, 0x0)
  {
  }

  lemma {:induction false} SquaredSum(v: Word, m: nat, n: nat)
    ensures Squared(Squared(v, m), n) == Squared(v, m + n)
    decreases n
  {
    hide Mul;
    if n > 0 {
      SquaredSum(v, m, n - 1);
    }
  }

  lemma Square8Squares(b: Block)
    ensures Residue(Square8(b)) == Squared(Residue(b), 8)
  {
    hide Mul, Square, Residue;
    assert Squared(Residue(b), 0) == Residue(b);
    var v := Residue(b);
    var s1 := Square(b);
    SquareNext(b, v, 0);
    var s2 := Square(s1);
    SquareNext(s1, v, 1);
    var s3 := Square(s2);
    SquareNext(s2, v, 2);
    var s4 := Square(s3);
    SquareNext(s3, v, 3);
    var s5 := Square(s4);
    SquareNext(s4, v, 4);
    var s6 := Square(s5);
    SquareNext(s5, v, 5);
    var s7 := Square(s6);
    SquareNext(s6, v, 6);
    SquareNext(s7, v, 7);
  }

  lemma SquareNext(b: Block, v: Word, n: nat)
    requires Residue(b) == Squared(v, n)
    ensures Residue(Square(b)) == Squared(v, n + 1)
  {
    hide Mul, Square, Residue;
    SquareSquares(b);
  }

  // b is x squared k times.
  ghost predicate Reached(b: Block, k: nat)
  {
    Residue(b) == Squared(X(), k)
  }

  lemma NextEight(b: Block, k: nat)
    requires Reached(b, k)
    ensures Reached(Square8(b), k + 8)
  {
    hide Squared, Residue, Square8;
    Square8Squares(b);
    SquaredSum(X(), k, 8);
  }

  lemma ValueOfX()
    ensures Residue(Block(2, 0)) == X()
  {
    hide Up, Xor, Element;
    assert Even(2, 1) && Down(2, 1) == 1;
    ElementDown(2, 1);
    ElementOfOne();
    UpUnit(0, 1);
    JustLow(2);
  }

  lemma HalfWay()
    ensures Reached(Block(0x44e598a7_95a299f6, 0x61651fea_6b5832b9), 64)
  {
    hide *;
    Start();
    Squares8();
    NextEight(Block(0x2, 0x0), 0);
    Squares16();
    NextEight(Block(0x4015, 0x0), 8);
    Squares24();
    NextEight(Block(0x118fe619_6978ef70, 0x10010011_11110961), 16);
    Squares32();
    NextEight(Block(0x1a97936b_620f481d, 0xc7f8a417_56ad614d), 24);
    Squares40();
    NextEight(Block(0x21777af8_0695052a, 0x782d0a99_5dd3b018), 32);
    Squares48();
    NextEight(Block(0x1794c9c6_116bca12, 0x1854548b_b6f4de8e), 40);
    Squares56();
    NextEight(Block(0xfe1d7816_d9eb81fd, 0xe316b617_72920218), 48);
    Squares64();
    NextEight(Block(0xe213b075_ac781973, 0x74025243_5434bd93), 56);
  }

  lemma Start()
    ensures Reached(Block(2, 0), 0)
  {
    hide Residue;
    ValueOfX();
    assert Squared(X(), 0) == X();
  }

  /** Squaring x 128 times gives x. */
  lemma FrobeniusOfX()
    ensures Squared(X(), 128) == X()
  {
    hide Squared, Residue, Square8;
    HalfWay();
    Squares72();
    NextEight(Block(0x44e598a7_95a299f6, 0x61651fea_6b5832b9), 64);
    Squares80();
    NextEight(Block(0xf9104edc_7cd7c419, 0xcafd0f1d_ee4b13f4), 72);
    Squares88();
    NextEight(Block(0x042a87c2_811ee47a, 0x79a3d532_b4dca977), 80);
    Squares96();
    NextEight(Block(0x494fdfab_6df42306, 0x92c0cf34_3ae063ad), 88);
    Squares104();
    NextEight(Block(0xdca8758e_d620dd7b, 0x40e2dfc1_450698ca), 96);
    Squares112();
    NextEight(Block(0xaba9209e_72802626, 0x18fb3bc8_96b15739), 104);
    Squares120();
    NextEight(Block(0x46bdf85b_5f5764d5, 0xc77a431b_17442dc2), 112);
    Squares128();
    NextEight(Block(0x8a24abe2_7faf17b9, 0x08216569_34ab0df9), 120);
    ValueOfX();
  }

  // ----- A multiple that is one -----

  const D := Block(0x44e598a7_95a299f4, 0x61651fea_6b5832b9)

  function OverX(b: Block): Block { if Odd(b.lo) then BlockSum(BlockHalf(b), Block(0x43, TOP)) else BlockHalf(b) }

  function Next(b: Block, w: bv64): Block { if Odd(w) then BlockSum(OverX(b), D) else OverX(b) }

  function Next8(b: Block, w: bv64): Block
  {
    Next(Next(Next(Next(Next(Next(Next(Next(b, w), w >> 1), w >> 2), w >> 3), w >> 4), w >> 5), w >> 6), w >> 7)
  }

  lemma Multiples1()
    ensures Next8(Block(0x0, 0x0), 0xd6) == Block(0xe13f5d47_0f3c18d3, 0xcf758f62_e9688ced)
    ensures Next8(Block(0xe13f5d47_0f3c18d3, 0xcf758f62_e9688ced), 0x1d) ==
            Block(0xe99d3237_bf671766, 0x4c3c654c_0ebb9c00)
    ensures Next8(Block(0xe99d3237_bf671766, 0x4c3c654c_0ebb9c00), 0x98) ==
            Block(0xf8deef0b_29f3845f, 0x5113d18c_cc880c59)
    ensures Next8(Block(0xf8deef0b_29f3845f, 0x5113d18c_cc880c59), 0xc6) ==
            Block(0x905b30bc_f6a1b83e, 0x6a083f4e_28cf02b6)
  {
  }

  lemma Multiples2()
    ensures Next8(Block(0x905b30bc_f6a1b83e, 0x6a083f4e_28cf02b6), 0x32) ==
            Block(0x2a26186f_357cdece, 0xb79a7847_3038a531)
    ensures Next8(Block(0x2a26186f_357cdece, 0xb79a7847_3038a531), 0x85) ==
            Block(0xcd61594b_8911b4fa, 0x381b6752_abe47bec)
    ensures Next8(Block(0xcd61594b_8911b4fa, 0x381b6752_abe47bec), 0x1f) ==
            Block(0x0da2fa51_2db7b0a4, 0x5e4e9fdb_9754703d)
    ensures Next8(Block(0x0da2fa51_2db7b0a4, 0x5e4e9fdb_9754703d), 0x88) ==
            Block(0xeda663d7_bdd507fc, 0x2b2d008b_167ae5e2)
  {
  }

  lemma Multiples3()
    ensures Next8(Block(0xeda663d7_bdd507fc, 0x2b2d008b_167ae5e2), 0xcb) ==
            Block(0x07aef64e_20e9e6b6, 0xbaadb2a1_0e2c0284)
    ensures Next8(Block(0x07aef64e_20e9e6b6, 0xbaadb2a1_0e2c0284), 0x27) ==
            Block(0x8883b949_46989430, 0x78af9cf7_15f93196)
    ensures Next8(Block(0x8883b949_46989430, 0x78af9cf7_15f93196), 0x3b) ==
            Block(0xecf9525d_f6bd8b53, 0x8b5c4425_fb66a04c)
    ensures Next8(Block(0xecf9525d_f6bd8b53, 0x8b5c4425_fb66a04c), 0x67) ==
            Block(0xe21a22be_9f9f8cac, 0x5f2ce2f4_a4a06268)
  {
  }

  lemma Multiples4()
    ensures Next8(Block(0xe21a22be_9f9f8cac, 0x5f2ce2f4_a4a06268), 0xda) ==
            Block(0xd7b4322a_f454ba34, 0xbe37da81_e8236e31)
    ensures Next8(Block(0xd7b4322a_f454ba34, 0xbe37da81_e8236e31), 0x3d) ==
            Block(0x6492df71_37f4d9ea, 0xf51460e3_776cdb4c)
    ensures Next8(Block(0x6492df71_37f4d9ea, 0xf51460e3_776cdb4c), 0x44) ==
            Block(0x24317249_874bacb8, 0x9d4cb36a_8581b412)
    ensures Next8(Block(0x24317249_874bacb8, 0x9d4cb36a_8581b412), 0x7f) == Block(0x1, 0x0)
  {
  }

  ghost predicate IsMultiple(b: Block)
  {
    exists w: Word :: Residue(b) == Mul(Residue(D), w)
  }

  // x^127 + x^6 + x + 1 is the inverse of x.
  lemma InverseOfX()
    ensures Up(Residue(Block(0x43, TOP)), 1) == One()
  {
    hide *;
    var v, y := Element(0x43), One();
    ElementOf87();
    ElementOfTop();
    BlockValue(0x43, TOP);
    UpSum(y, 63, 64);
    UpXor(v, Up(y, 127), 1);
    UpSum(y, 127, 1);
    XorLaws(Up(v, 1), One(), One());
    XorLaws(One(), Up(v, 1), Up(v, 1));
    XorLaws(Up(v, 1), Up(v, 1), One());
    XorLaws(Up(v, 1), Xor(One(), Up(v, 1)), One());
    XorLaws(Up(v, 1), One(), Up(v, 1));
  }

  lemma BlockValue(lo: bv64, hi: bv64)
    ensures Residue(Block(lo, hi)) == Xor(Element(lo), Up(Element(hi), 64))
  {
  }

  // Dividing by x: where the lowest bit is set, it is one, and x times the inverse of x.
  lemma OverXValue(b: Block)
    ensures Up(Residue(OverX(b)), 1) == Residue(b)
  {
    hide Residue, Up, Xor, BlockHalf, BlockSum, Odd, One;
    var h, i := BlockHalf(b), Block(0x43, TOP);
    ValueHalf(b);
    ValueSum(h, i);
    InverseOfX();
    UpXor(Residue(h), Residue(i), 1);
    XorLaws(Up(Residue(h), 1), One(), One());
    XorLaws(Up(Residue(h), 1), Zeros(128), One());
  }

  lemma OverXMultiple(b: Block)
    requires IsMultiple(b)
    ensures IsMultiple(OverX(b))
  {
    hide Residue, Up, OverX, Mul;
    var w: Word :| Residue(b) == Mul(Residue(D), w);
    var i, z := Residue(Block(0x43, TOP)), Residue(OverX(b));
    OverXValue(b);
    InverseOfX();
    UpMul(i, z, 1);
    UpMul(z, i, 1);
    MulLaws(One(), z, z);
    MulLaws(z, One(), z);
    MulLaws(i, z, z);
    MulLaws(Residue(D), w, i);
    assert z == Mul(Residue(D), Mul(w, i));
  }

  lemma NextMultiple(b: Block, w: bv64)
    requires IsMultiple(b)
    ensures IsMultiple(Next(b, w))
  {
    hide Residue, OverX, Mul, BlockSum;
    OverXMultiple(b);
    var v: Word :| Residue(OverX(b)) == Mul(Residue(D), v);
    ValueSum(OverX(b), D);
    MulLaws(Residue(D), v, One());
    if Odd(w) {
      assert Residue(Next(b, w)) == Mul(Residue(D), Add(v, One()));
    }
  }

  lemma Next8Multiple(b: Block, w: bv64)
    requires IsMultiple(b)
    ensures IsMultiple(Next8(b, w))
  {
    hide IsMultiple, Next;
    var n1 := Next(b, w);
    NextMultiple(b, w);
    var n2 := Next(n1, w >> 1);
    NextMultiple(n1, w >> 1);
    var n3 := Next(n2, w >> 2);
    NextMultiple(n2, w >> 2);
    var n4 := Next(n3, w >> 3);
    NextMultiple(n3, w >> 3);
    var n5 := Next(n4, w >> 4);
    NextMultiple(n4, w >> 4);
    var n6 := Next(n5, w >> 5);
    NextMultiple(n5, w >> 5);
    var n7 := Next(n6, w >> 6);
    NextMultiple(n6, w >> 6);
    NextMultiple(n7, w >> 7);
  }

  lemma ZeroMultiple()
    ensures IsMultiple(Block(0, 0))
  {
    JustLow(0);
    MulLaws(Residue(D), One(), One());
    assert Residue(Block(0, 0)) == Mul(Residue(D), Zeros(128));
  }

  /** x plus x squared 64 times divides one. */
  lemma HalfWayUnit()
    ensures exists w: Word :: Mul(Add(X(), Squared(X(), 64)), w) == One()
  {
    hide Next8, Mul, Residue, IsMultiple, Squared;
    ZeroMultiple();
    Multiples1();
    Next8Multiple(Block(0x0, 0x0), 0xd6);
    Next8Multiple(Block(0xe13f5d47_0f3c18d3, 0xcf758f62_e9688ced), 0x1d);
    Next8Multiple(Block(0xe99d3237_bf671766, 0x4c3c654c_0ebb9c00), 0x98);
    Next8Multiple(Block(0xf8deef0b_29f3845f, 0x5113d18c_cc880c59), 0xc6);
    Multiples2();
    Next8Multiple(Block(0x905b30bc_f6a1b83e, 0x6a083f4e_28cf02b6), 0x32);
    Next8Multiple(Block(0x2a26186f_357cdece, 0xb79a7847_3038a531), 0x85);
    Next8Multiple(Block(0xcd61594b_8911b4fa, 0x381b6752_abe47bec), 0x1f);
    Next8Multiple(Block(0x0da2fa51_2db7b0a4, 0x5e4e9fdb_9754703d), 0x88);
    Multiples3();
    Next8Multiple(Block(0xeda663d7_bdd507fc, 0x2b2d008b_167ae5e2), 0xcb);
    Next8Multiple(Block(0x07aef64e_20e9e6b6, 0xbaadb2a1_0e2c0284), 0x27);
    Next8Multiple(Block(0x8883b949_46989430, 0x78af9cf7_15f93196), 0x3b);
    Next8Multiple(Block(0xecf9525d_f6bd8b53, 0x8b5c4425_fb66a04c), 0x67);
    Multiples4();
    Next8Multiple(Block(0xe21a22be_9f9f8cac, 0x5f2ce2f4_a4a06268), 0xda);
    Next8Multiple(Block(0xd7b4322a_f454ba34, 0xbe37da81_e8236e31), 0x3d);
    Next8Multiple(Block(0x6492df71_37f4d9ea, 0xf51460e3_776cdb4c), 0x44);
    Next8Multiple(Block(0x24317249_874bacb8, 0x9d4cb36a_8581b412), 0x7f);
    OneMultiple();
    DifferenceValue();
  }

  lemma OneMultiple()
    requires IsMultiple(Block(1, 0))
    ensures exists w: Word :: Mul(Residue(D), w) == One()
  {
    hide Residue, Mul;
    JustLow(1);
    ElementOfOne();
    var w: Word :| Residue(Block(1, 0)) == Mul(Residue(D), w);
  }

  lemma DifferenceValue()
    ensures Residue(D) == Add(X(), Squared(X(), 64))
  {
    hide Residue, Squared;
    HalfWay();
    ValueOfX();
    ValueSum(Block(2, 0), Block(0x44e598a7_95a299f6, 0x61651fea_6b5832b9));
    assert BlockSum(Block(2, 0), Block(0x44e598a7_95a299f6, 0x61651fea_6b5832b9)) == D;
  }
}

/**
 * Bursts of 32 bits across the border between a message and its CRC, when the CRC is stored most significant byte
 * first: which windows let some damage through.
 */
module BurstWindows {
  import opened Crc32

  function And(a: bv32, b: bv32): bv32 { a & b }

  /** The order of the bytes, reversed. */
  function Swap(w: bv32): bv32 {
    (w << 24) | ((w & 0xFF00) << 8) | ((w >> 8) & 0xFF00) | (w >> 24)
  }

  /**
   * Damage to the last four bytes of a message and to its stored CRC, both as words whose lowest bit comes first,
   * that keeps to a window with j bits in the message.
   */
  predicate Fits(j: nat, d: bv32, c: bv32)
    requires j <= 32
  {
    And(d, Ones(32 - j)) == 0 && Within(c, Ones(32 - j))
  }

  /** The damage to the CRC is the change of the CRC. */
  predicate Silent(d: bv32, c: bv32) { Swap(c) == Steps(32, d) }

  /** The windows that let some damage through, by the number of their bits in the message. */
  predicate Blind(j: int) {
    1 <= j <= 2 || 12 <= j <= 17 || 20 <= j <= 22 || 26 <= j <= 27 || 29 <= j <= 31
  }

  function Raw32(s: bv32): bv32 { Steps8(Steps8(Steps8(Steps8(s)))) }

  lemma {:induction false} StepsMore(n: nat, s: bv32)
    ensures Steps(n + 8, s) == Steps(n, Steps8(s))
  {
    hide Steps, RawStep;
    StepsFour(n + 4, s);
    StepsFour(n, Raw4(s));
  }

  lemma {:induction false} StepsAll(s: bv32)
    ensures Steps(32, s) == Raw32(s)
  {
    hide Steps, Steps8;
    StepsMore(24, s);
    StepsMore(16, Steps8(s));
    StepsMore(8, Steps8(Steps8(s)));
    StepsEight(Steps8(Steps8(Steps8(s))));
  }

  // Damage that fits in a window and goes unnoticed.

  function BodyDamage(j: nat): bv32 {
    if j == 1 then 0x80000000
    else if j == 2 then 0x80000000
    else if j == 12 then 0xB1900000
    else if j == 13 then 0x39080000
    else if j == 14 then 0x1C840000
    else if j == 15 then 0x1C840000
    else if j == 16 then 0xD8610000
    else if j == 17 then 0x6C308000
    else if j == 20 then 0xC7CDB000
    else if j == 21 then 0x63E6D800
    else if j == 22 then 0x37641400
    else if j == 26 then 0xF3AF7AC0
    else if j == 27 then 0x79D7BD60
    else if j == 29 then 0xFC0DB708
    else if j == 30 then 0x7E06DB84
    else if j == 31 then 0x3F036DC2
    else 0
  }

  function StoredDamage(j: nat): bv32 {
    if j == 1 then 0x2083B8ED
    else if j == 2 then 0x2083B8ED
    else if j == 12 then 0x927CD
    else if j == 13 then 0x2DC97
    else if j == 14 then 0x1EE4B
    else if j == 15 then 0x1EE4B
    else if j == 16 then 0xEEF4
    else if j == 17 then 0x777A
    else if j == 20 then 0xABE
    else if j == 21 then 0x55F
    else if j == 22 then 0x3A2
    else if j == 26 then 0x22
    else if j == 27 then 0x11
    else if j == 29 then 0x4
    else if j == 30 then 0x2
    else if j == 31 then 0x1
    else 0
  }

  lemma {:induction false} Found(j: nat, m: bv32, d: bv32, c: bv32)
    requires j <= 32 && Ones(32 - j) == m && d & m == 0 && c | m == m && Swap(c) == Raw32(d)
    ensures Fits(j, d, c) && Silent(d, c)
  {
    hide Raw32, Swap, Ones;
    StepsAll(d);
  }

  lemma OnesTable()

    ensures Ones(0) == 0 && Ones(1) == 0x1 && Ones(2) == 0x3 && Ones(3) == 0x7
    ensures Ones(4) == 0xF && Ones(5) == 0x1F && Ones(6) == 0x3F && Ones(7) == 0x7F
    ensures Ones(8) == 0xFF && Ones(9) == 0x1FF && Ones(10) == 0x3FF && Ones(11) == 0x7FF
    ensures Ones(12) == 0xFFF && Ones(13) == 0x1FFF && Ones(14) == 0x3FFF && Ones(15) == 0x7FFF
    ensures Ones(16) == 0xFFFF && Ones(17) == 0x1FFFF && Ones(18) == 0x3FFFF && Ones(19) == 0x7FFFF
    ensures Ones(20) == 0xFFFFF && Ones(21) == 0x1FFFFF && Ones(22) == 0x3FFFFF && Ones(23) == 0x7FFFFF
    ensures Ones(24) == 0xFFFFFF && Ones(25) == 0x1FFFFFF && Ones(26) == 0x3FFFFFF && Ones(27) == 0x7FFFFFF
    ensures Ones(28) == 0xFFFFFFF && Ones(29) == 0x1FFFFFFF && Ones(30) == 0x3FFFFFFF && Ones(31) == 0x7FFFFFFF
    ensures Ones(32) == 0xFFFFFFFF
  {
    hide Ones;
    OnesZero();

    OnesNext(0);
    OnesNext(1);
    OnesNext(2);
    OnesNext(3);
    OnesNext(4);
    OnesNext(5);
    OnesNext(6);
    OnesNext(7);
    OnesNext(8);
    OnesNext(9);
    OnesNext(10);
    OnesNext(11);
    OnesNext(12);
    OnesNext(13);
    OnesNext(14);
    OnesNext(15);
    OnesNext(16);
    OnesNext(17);
    OnesNext(18);
    OnesNext(19);
    OnesNext(20);
    OnesNext(21);
    OnesNext(22);
    OnesNext(23);
    OnesNext(24);
    OnesNext(25);
    OnesNext(26);
    OnesNext(27);
    OnesNext(28);
    OnesNext(29);
    OnesNext(30);
    OnesNext(31);
  }

  /** Each of the blind windows lets some damage through. */
  lemma {:induction false} LetsThrough(j: nat)
    requires Blind(j)
    ensures BodyDamage(j) != 0 && Fits(j, BodyDamage(j), StoredDamage(j)) && Silent(BodyDamage(j), StoredDamage(j))
  {
    if j < 14 {
      LetsThroughTo13(j);
    } else if j < 18 {
      LetsThroughTo17(j);
    } else if j < 26 {
      LetsThroughTo22(j);
    } else {
      LetsThroughTo31(j);
    }
  }

  lemma LetsThroughTo13(j: nat)
    requires Blind(j) && 1 <= j <= 13
    ensures BodyDamage(j) != 0 && Fits(j, BodyDamage(j), StoredDamage(j)) && Silent(BodyDamage(j), StoredDamage(j))
  {
    hide Ones, Fits, Silent;
    OnesTable();
    if j == 1 {
      Found(1, 0x7FFFFFFF, 0x80000000, 0x2083B8ED);
    } else if j == 2 {
      Found(2, 0x3FFFFFFF, 0x80000000, 0x2083B8ED);
    } else if j == 12 {
      Found(12, 0xFFFFF, 0xB1900000, 0x927CD);
    } else if j == 13 {
      Found(13, 0x7FFFF, 0x39080000, 0x2DC97);
    }
  }

  lemma LetsThroughTo17(j: nat)
    requires Blind(j) && 14 <= j <= 17
    ensures BodyDamage(j) != 0 && Fits(j, BodyDamage(j), StoredDamage(j)) && Silent(BodyDamage(j), StoredDamage(j))
  {
    hide Ones, Fits, Silent;
    OnesTable();
    if j == 14 {
      Found(14, 0x3FFFF, 0x1C840000, 0x1EE4B);
    } else if j == 15 {
      Found(15, 0x1FFFF, 0x1C840000, 0x1EE4B);
    } else if j == 16 {
      Found(16, 0xFFFF, 0xD8610000, 0xEEF4);
    } else if j == 17 {
      Found(17, 0x7FFF, 0x6C308000, 0x777A);
    }
  }

  lemma LetsThroughTo22(j: nat)
    requires Blind(j) && 20 <= j <= 22
    ensures BodyDamage(j) != 0 && Fits(j, BodyDamage(j), StoredDamage(j)) && Silent(BodyDamage(j), StoredDamage(j))
  {
    hide Ones, Fits, Silent;
    OnesTable();
    if j == 20 {
      Found(20, 0xFFF, 0xC7CDB000, 0xABE);
    } else if j == 21 {
      Found(21, 0x7FF, 0x63E6D800, 0x55F);
    } else if j == 22 {
      Found(22, 0x3FF, 0x37641400, 0x3A2);
    }
  }

  lemma LetsThroughTo31(j: nat)
    requires Blind(j) && 26 <= j <= 31
    ensures BodyDamage(j) != 0 && Fits(j, BodyDamage(j), StoredDamage(j)) && Silent(BodyDamage(j), StoredDamage(j))
  {
    hide Ones, Fits, Silent;
    OnesTable();
    if j == 26 {
      Found(26, 0x3F, 0xF3AF7AC0, 0x22);
    } else if j == 27 {
      Found(27, 0x1F, 0x79D7BD60, 0x11);
    } else if j == 29 {
      Found(29, 0x7, 0xFC0DB708, 0x4);
    } else if j == 30 {
      Found(30, 0x3, 0x7E06DB84, 0x2);
    } else if j == 31 {
      Found(31, 0x1, 0x3F036DC2, 0x1);
    }
  }

  // All other windows. With few bits in the message, the change of the CRC does not fit.

  lemma Shut3(d: bv32, c: bv32)
    requires d & 0x1FFFFFFF == 0 && c | 0x1FFFFFFF == 0x1FFFFFFF && Swap(c) == Raw32(d)
    ensures d == 0
  {}

  lemma Shut4(d: bv32, c: bv32)
    requires d & 0xFFFFFFF == 0 && c | 0xFFFFFFF == 0xFFFFFFF && Swap(c) == Raw32(d)
    ensures d == 0
  {}

  lemma Shut5(d: bv32, c: bv32)
    requires d & 0x7FFFFFF == 0 && c | 0x7FFFFFF == 0x7FFFFFF && Swap(c) == Raw32(d)
    ensures d == 0
  {}

  lemma Shut6(d: bv32, c: bv32)
    requires d & 0x3FFFFFF == 0 && c | 0x3FFFFFF == 0x3FFFFFF && Swap(c) == Raw32(d)
    ensures d == 0
  {}

  lemma Shut7(d: bv32, c: bv32)
    requires d & 0x1FFFFFF == 0 && c | 0x1FFFFFF == 0x1FFFFFF && Swap(c) == Raw32(d)
    ensures d == 0
  {}

  lemma Shut8(d: bv32, c: bv32)
    requires d & 0xFFFFFF == 0 && c | 0xFFFFFF == 0xFFFFFF && Swap(c) == Raw32(d)
    ensures d == 0
  {}

  lemma Shut9(d: bv32, c: bv32)
    requires d & 0x7FFFFF == 0 && c | 0x7FFFFF == 0x7FFFFF && Swap(c) == Raw32(d)
    ensures d == 0
  {}

  lemma Shut10(d: bv32, c: bv32)
    requires d & 0x3FFFFF == 0 && c | 0x3FFFFF == 0x3FFFFF && Swap(c) == Raw32(d)
    ensures d == 0
  {}

  lemma Shut11(d: bv32, c: bv32)
    requires d & 0x1FFFFF == 0 && c | 0x1FFFFF == 0x1FFFFF && Swap(c) == Raw32(d)
    ensures d == 0
  {}

  // With few bits in the CRC, it is the other way around: these are the words that lead to a single bit of it.

  function Column(i: nat): bv32 {
    if i == 0 then 0x3F036DC2
    else if i == 1 then 0x7E06DB84
    else if i == 2 then 0xFC0DB708
    else if i == 3 then 0x236A6851
    else if i == 4 then 0x46D4D0A2
    else if i == 5 then 0x8DA9A144
    else if i == 6 then 0xC02244C9
    else if i == 7 then 0x5B358FD3
    else if i == 8 then 0x7555A0F1
    else if i == 9 then 0xEAAB41E2
    else if i == 10 then 0xE278585
    else if i == 11 then 0x1C4F0B0A
    else if i == 12 then 0x389E1614
    else if i == 13 then 0x713C2C28
    else 0
  }

  lemma {:induction false} Single(v: bv32, b: bv32)
    requires Raw32(v) == Swap(b)
    ensures Steps(32, v) == Swap(b)
  {
    hide Raw32, Swap;
    StepsAll(v);
  }

  function Pick(c: bv32, b: bv32, v: bv32): bv32 { if c & b != 0 then v else 0 }

  /** The sum of the first columns that the bits of a word select. */
  function Back(n: nat, c: bv32): bv32 {
    if n == 0 then 0 else Xor(Back(n - 1, c), Pick(c, Doubles(n - 1, 1), Column(n - 1)))
  }

  lemma UnitTable()
    ensures Doubles(0, 1) == 1 && Doubles(1, 1) == 2 && Doubles(2, 1) == 4 && Doubles(3, 1) == 8
    ensures Doubles(4, 1) == 0x10 && Doubles(5, 1) == 0x20 && Doubles(6, 1) == 0x40 && Doubles(7, 1) == 0x80
    ensures Doubles(8, 1) == 0x100 && Doubles(9, 1) == 0x200 && Doubles(10, 1) == 0x400 && Doubles(11, 1) == 0x800
    ensures Doubles(12, 1) == 0x1000 && Doubles(13, 1) == 0x2000
  {
    hide Doubles;

    DoublesNone();
    DoublesNext(0);
    DoublesNext(1);
    DoublesNext(2);
    DoublesNext(3);
    DoublesNext(4);
    DoublesNext(5);
    DoublesNext(6);
    DoublesNext(7);
    DoublesNext(8);
    DoublesNext(9);
    DoublesNext(10);
    DoublesNext(11);
    DoublesNext(12);
  }

  lemma DoublesNone()
    ensures Doubles(0, 1) == 1
  {}

  lemma DoublesNext(k: nat)
    ensures Doubles(k + 1, 1) == Double(Doubles(k, 1))
  {}

  lemma {:induction false} ColumnSteps(i: nat)
    requires i < 14
    ensures Steps(32, Column(i)) == Swap(Doubles(i, 1))
  {
    hide Steps, Doubles;
    UnitTable();
    if i == 0 {
      Single(0x3F036DC2, 0x1);
    } else if i == 1 {
      Single(0x7E06DB84, 0x2);
    } else if i == 2 {
      Single(0xFC0DB708, 0x4);
    } else if i == 3 {
      Single(0x236A6851, 0x8);
    } else if i == 4 {
      Single(0x46D4D0A2, 0x10);
    } else if i == 5 {
      Single(0x8DA9A144, 0x20);
    } else if i == 6 {
      Single(0xC02244C9, 0x40);
    } else if i == 7 {
      Single(0x5B358FD3, 0x80);
    } else if i == 8 {
      Single(0x7555A0F1, 0x100);
    } else if i == 9 {
      Single(0xEAAB41E2, 0x200);
    } else if i == 10 {
      Single(0xE278585, 0x400);
    } else if i == 11 {
      Single(0x1C4F0B0A, 0x800);
    } else if i == 12 {
      Single(0x389E1614, 0x1000);
    } else if i == 13 {
      Single(0x713C2C28, 0x2000);
    }
  }

  lemma {:induction false} PickSteps(c: bv32, b: bv32, v: bv32)
    ensures Steps(32, Pick(c, b, v)) == Pick(c, b, Steps(32, v))
  {
    hide Steps;
    StepsNonzero(32, 0);
  }

  /** The lowest bits of a word, one more at a time. */
  lemma {:induction false} OneMore(i: nat, c: bv32)
    requires i < 14
    ensures Swap(And(c, Ones(i + 1))) == Xor(Swap(And(c, Ones(i))), Pick(c, Doubles(i, 1), Swap(Doubles(i, 1))))
  {
    hide Swap, Ones, Doubles, Pick;
    OneBit(i, c);
    SwapMore(c, Ones(i), Doubles(i, 1));
  }

  lemma OneBit(i: nat, c: bv32)
    requires i < 14
    ensures Ones(i + 1) == Xor(Ones(i), Doubles(i, 1))
    ensures And(c, Doubles(i, 1)) == 0 || And(c, Doubles(i, 1)) == Doubles(i, 1)
  {
    hide Ones, Doubles;
    OnesTable();
    UnitTable();
  }

  lemma SwapMore(c: bv32, o: bv32, u: bv32)
    requires And(c, u) == 0 || And(c, u) == u
    ensures Swap(And(c, Xor(o, u))) == Xor(Swap(And(c, o)), Pick(c, u, Swap(u)))
  {
    hide Swap, And, Xor, Pick;
    AndXor(c, o, u);
    SwapXor(And(c, o), And(c, u));
    SwapZero(0);
    XorZero(Swap(And(c, o)));
    PickIs(c, u, Swap(u));
  }

  lemma PickIs(c: bv32, u: bv32, v: bv32)
    ensures Pick(c, u, v) == if And(c, u) == 0 then 0 else v
  {}

  lemma AndXor(c: bv32, o: bv32, u: bv32)
    ensures And(c, Xor(o, u)) == Xor(And(c, o), And(c, u))
  {
    calc {
      And(c, Xor(o, u));
      c & (o ^ u);
      { AndXorBits(c, o, u); }
      (c & o) ^ (c & u);
      Xor(And(c, o), And(c, u));
    }
  }

  lemma AndXorBits(c: bv32, o: bv32, u: bv32)
    ensures c & (o ^ u) == (c & o) ^ (c & u)
  {}

  lemma SwapXor(a: bv32, b: bv32)
    ensures Swap(Xor(a, b)) == Xor(Swap(a), Swap(b))
  {}

  lemma {:induction false} BackSteps(n: nat, c: bv32)
    requires n <= 14
    ensures Steps(32, Back(n, c)) == Swap(And(c, Ones(n)))
  {
    hide Steps, Xor, Pick, Swap, Column, Doubles, Ones;
    OnesTable();
    if n == 0 {
      StepsNonzero(32, 0);
      SwapZero(0);
    } else {
      var u := Doubles(n - 1, 1);
      BackSteps(n - 1, c);
      ColumnSteps(n - 1);
      PickSteps(c, u, Column(n - 1));
      StepsXor(32, Back(n - 1, c), Pick(c, u, Column(n - 1)));
      OneMore(n - 1, c);
    }
  }


  function Flat(c: bv32): bv32 {
    var s2 := Xor(Pick(c, 0x1, 0x3F036DC2), Pick(c, 0x2, 0x7E06DB84));
    var s4 := Xor(Xor(s2, Pick(c, 0x4, 0xFC0DB708)), Pick(c, 0x8, 0x236A6851));
    var s6 := Xor(Xor(s4, Pick(c, 0x10, 0x46D4D0A2)), Pick(c, 0x20, 0x8DA9A144));
    var s8 := Xor(Xor(s6, Pick(c, 0x40, 0xC02244C9)), Pick(c, 0x80, 0x5B358FD3));
    var s10 := Xor(Xor(s8, Pick(c, 0x100, 0x7555A0F1)), Pick(c, 0x200, 0xEAAB41E2));
    var s12 := Xor(Xor(s10, Pick(c, 0x400, 0xE278585)), Pick(c, 0x800, 0x1C4F0B0A));
    Xor(Xor(s12, Pick(c, 0x1000, 0x389E1614)), Pick(c, 0x2000, 0x713C2C28))
  }

  lemma {:induction false} Unrolled(c: bv32)
    ensures Back(14, c) == Flat(c)
  {
    hide Back, Pick, Doubles, Xor, Column;
    UnitTable();
    ColumnTable();
    BackNone(c);
    XorZero(Pick(c, 0x1, 0x3F036DC2));
    BackNext(0, c);
    BackNext(1, c);
    BackNext(2, c);
    BackNext(3, c);
    BackNext(4, c);
    BackNext(5, c);
    BackNext(6, c);
    BackNext(7, c);
    BackNext(8, c);
    BackNext(9, c);
    BackNext(10, c);
    BackNext(11, c);
    BackNext(12, c);
    BackNext(13, c);
  }

  lemma ColumnTable()
    ensures Column(0) == 0x3F036DC2 && Column(1) == 0x7E06DB84 && Column(2) == 0xFC0DB708 && Column(3) == 0x236A6851
    ensures Column(4) == 0x46D4D0A2 && Column(5) == 0x8DA9A144 && Column(6) == 0xC02244C9 && Column(7) == 0x5B358FD3
    ensures Column(8) == 0x7555A0F1 && Column(9) == 0xEAAB41E2 && Column(10) == 0xE278585 && Column(11) == 0x1C4F0B0A
    ensures Column(12) == 0x389E1614 && Column(13) == 0x713C2C28
  {}

  lemma {:induction false} BackNone(c: bv32)
    ensures Back(0, c) == 0
  {}

  lemma BackNext(n: nat, c: bv32)
    ensures Back(n + 1, c) == Xor(Back(n, c), Pick(c, Doubles(n, 1), Column(n)))
  {}

  /** The only word that leads to a given change of the low bits. */
  lemma {:induction false} Origin(d: bv32, c: bv32)
    requires c | 0x3FFF == 0x3FFF && Swap(c) == Steps(32, d)
    ensures d == Flat(c)
  {
    hide Flat, Steps, Back, Swap, Ones;
    OnesTable();
    BackSteps(14, c);
    Unrolled(c);
    AllBits(c);
    StepsInjective(32, d, Back(14, c));
  }

  lemma AllBits(c: bv32)
    requires c | 0x3FFF == 0x3FFF
    ensures And(c, 0x3FFF) == c
  {}

  lemma Shut18(c: bv32)
    requires c | 0x3FFF == 0x3FFF && Flat(c) & 0x3FFF == 0
    ensures c == 0
  {}

  lemma Shut19(c: bv32)
    requires c | 0x1FFF == 0x1FFF && Flat(c) & 0x1FFF == 0
    ensures c == 0
  {}

  lemma Shut23(c: bv32)
    requires c | 0x1FF == 0x1FF && Flat(c) & 0x1FF == 0
    ensures c == 0
  {}

  lemma Shut24(c: bv32)
    requires c | 0xFF == 0xFF && Flat(c) & 0xFF == 0
    ensures c == 0
  {}

  lemma Shut25(c: bv32)
    requires c | 0x7F == 0x7F && Flat(c) & 0x7F == 0
    ensures c == 0
  {}

  lemma Shut28(c: bv32)
    requires c | 0xF == 0xF && Flat(c) & 0xF == 0
    ensures c == 0
  {}

  /** No other window lets any damage through. */
  lemma {:induction false} StopsAll(j: nat, d: bv32, c: bv32)
    requires j <= 32 && !Blind(j) && Fits(j, d, c) && Silent(d, c)
    ensures d == 0 && c == 0
  {
    hide Ones, Steps, Swap, Raw32, Flat;
    OnesTable();
    StepsAll(d);
    if j >= 18 {
      StopsNarrow(j, d, c);
    } else {
      StopsWide(j, d, c);
    }
    SwapZero(c);
    StepsNonzero(32, d);
  }

  lemma SwapZero(c: bv32)
    ensures Swap(c) == 0 <==> c == 0
  {}

  lemma StopsWide(j: nat, d: bv32, c: bv32)
    requires j < 18 && !Blind(j) && Fits(j, d, c) && Silent(d, c)
    ensures d == 0
  {
    hide Ones, Steps, Swap, Raw32;
    OnesTable();
    StepsAll(d);

    if j == 3 {
      Shut3(d, c);
    } else if j == 4 {
      Shut4(d, c);
    } else if j == 5 {
      Shut5(d, c);
    } else if j == 6 {
      Shut6(d, c);
    } else if j == 7 {
      Shut7(d, c);
    } else if j == 8 {
      Shut8(d, c);
    } else if j == 9 {
      Shut9(d, c);
    } else if j == 10 {
      Shut10(d, c);
    } else if j == 11 {
      Shut11(d, c);
    }
  }

  lemma StopsNarrow(j: nat, d: bv32, c: bv32)
    requires 18 <= j <= 32 && !Blind(j) && Fits(j, d, c) && Silent(d, c)
    ensures c == 0
  {
    hide Ones, Steps, Swap, Flat;
    OnesTable();
    FewBits(c, Ones(32 - j));
    Origin(d, c);

    if j == 18 {
      Shut18(c);
    } else if j == 19 {
      Shut19(c);
    } else if j == 23 {
      Shut23(c);
    } else if j == 24 {
      Shut24(c);
    } else if j == 25 {
      Shut25(c);
    } else if j == 28 {
      Shut28(c);
    }
  }

  lemma FewBits(c: bv32, m: bv32)
    requires c | m == m && m | 0x3FFF == 0x3FFF
    ensures c | 0x3FFF == 0x3FFF
  {}

  // Narrower windows, of 30 bits: those that lie in three blind ones.

  lemma Shut12Both(d: bv32, c: bv32)
    requires d & 0xFFFFF == 0 && c | 0x3FFFF == 0x3FFFF && Swap(c) == Raw32(d)
    ensures d == 0
  {}

  lemma Shut13Both(d: bv32, c: bv32)
    requires d & 0x7FFFF == 0 && c | 0x1FFFF == 0x1FFFF && Swap(c) == Raw32(d)
    ensures d == 0
  {}

  lemma Shut14Both(d: bv32, c: bv32)
    requires d & 0x3FFFF == 0 && c | 0xFFFF == 0xFFFF && Swap(c) == Raw32(d)
    ensures d == 0
  {}

  lemma Shut15Both(d: bv32, c: bv32)
    requires d & 0x1FFFF == 0 && c | 0x7FFF == 0x7FFF && Swap(c) == Raw32(d)
    ensures d == 0
  {}

  lemma Shut20Both(c: bv32)
    requires c | 0x3FF == 0x3FF && Flat(c) & 0xFFF == 0
    ensures c == 0
  {}

  lemma Shut29Both(c: bv32)
    requires c | 0x1 == 0x1 && Flat(c) & 0x7 == 0
    ensures c == 0
  {}

  /** Damage that fits in both ends of three blind windows in a row does not get through. */
  lemma {:induction false} StopsBoth(j: nat, d: bv32, c: bv32)
    requires Blind(j) && Blind(j + 1) && Blind(j + 2) && Fits(j, d, c) && Fits(j + 2, d, c) && Silent(d, c)
    ensures d == 0 && c == 0
  {
    hide Ones, Steps, Swap, Raw32, Flat;
    OnesTable();
    StepsAll(d);
    if j >= 20 {
      FewBits(c, Ones(30 - j));
      Origin(d, c);
      if j == 20 {
        Shut20Both(c);
      } else {
        Shut29Both(c);
      }
    } else if j == 12 {
      Shut12Both(d, c);
    } else if j == 13 {
      Shut13Both(d, c);
    } else if j == 14 {
      Shut14Both(d, c);
    } else {
      Shut15Both(d, c);
    }
    SwapZero(c);
    StepsNonzero(32, d);
  }

  // Words and their bits.

  lemma AndGrow(z: bv32, o: bv32)
    ensures And(z, Grow(o)) == 0 <==> Low(z) == 0 && And(Half(z), o) == 0
  {
    hide And, Grow, Low, Half;
    AndUnfolded(z, o);
    if z & ((o << 1) | 1) == 0 {
      AndTail(z, o);
    } else if z & 1 == 0 && (z >> 1) & o == 0 {
      AndWhole(z, o);
    }
  }

  lemma AndUnfolded(z: bv32, o: bv32)
    ensures And(z, Grow(o)) == z & ((o << 1) | 1)
    ensures Low(z) == z & 1
    ensures And(Half(z), o) == (z >> 1) & o
  {}

  lemma AndTail(z: bv32, o: bv32)
    requires z & ((o << 1) | 1) == 0
    ensures z & 1 == 0 && (z >> 1) & o == 0
  {}

  lemma AndWhole(z: bv32, o: bv32)
    requires z & 1 == 0 && (z >> 1) & o == 0
    ensures z & ((o << 1) | 1) == 0
  {}

  lemma WithinGrow(z: bv32, o: bv32)
    requires Within(o, 0x7FFF_FFFF)
    ensures Within(z, Grow(o)) <==> Within(Half(z), o)
  {
    hide Within, Grow, Half;
    if Within(z, Grow(o)) {
      HalfWithin(z, o);
    }
    if Within(Half(z), o) {
      GrowWithin(Half(z), o);
      GrownHalf(z);
      WithinTrans(z, Grow(Half(z)), Grow(o));
    }
  }

  lemma GrownHalf(z: bv32)
    ensures Within(z, Grow(Half(z)))
  {
    assert z | (((z >> 1) << 1) | 1) == ((z >> 1) << 1) | 1;
  }

  lemma LowBitXor(u: bv32, v: bv32)
    ensures Low(Xor(u, v)) == 0 <==> Low(u) == Low(v)
    ensures Half(Xor(u, v)) == Xor(Half(u), Half(v))
  {
    hide Low, Half, Xor;
    XorHalves(u, v);
    XorLows(u, v);
    XorLaws(Low(u), Low(v));
  }

  /** Two words agree in their lowest bits if nothing is left of these bits in their sum. */
  lemma {:induction false} SameLow(n: nat, k: nat, u: bv32, v: bv32)
    requires k <= n
    ensures Agree(LowBits(n, u), LowBits(n, v), 0, k) <==> And(Xor(u, v), Ones(k)) == 0
    decreases k
  {
    hide Low, Half, Xor, Grow, And, Agree;
    if k == 0 {
      AndZero(Xor(u, v));
      AgreeNone(LowBits(n, u), LowBits(n, v));
    } else {
      SameLow(n - 1, k - 1, Half(u), Half(v));
      LowBitXor(u, v);
      LowBit(u);
      LowBit(v);
      AndGrow(Xor(u, v), Ones(k - 1));
      AgreeMore(Low(u) == 1, Low(v) == 1, LowBits(n - 1, Half(u)), LowBits(n - 1, Half(v)), k);
    }
  }

  lemma AndZero(z: bv32)
    ensures And(z, 0) == 0
  {}

  /** Two sequences agree in a range. */
  predicate Agree(s: seq<bool>, t: seq<bool>, lo: nat, hi: nat)
    requires hi <= |s| == |t|
  {
    forall i :: lo <= i < hi ==> s[i] == t[i]
  }

  lemma AgreeNone(s: seq<bool>, t: seq<bool>)
    requires |s| == |t|
    ensures Agree(s, t, 0, 0)
  {}

  lemma AgreeAll(s: seq<bool>, t: seq<bool>)
    requires |s| == |t|
    ensures Agree(s, t, 0, |s|) <==> s == t
  {
    if Agree(s, t, 0, |s|) {
      assert forall i :: 0 <= i < |s| ==> s[i] == t[i];
    }
  }

  lemma AgreeMore(x: bool, y: bool, s: seq<bool>, t: seq<bool>, k: nat)
    requires 0 < k <= |s| + 1 && |s| == |t|
    ensures Agree([x] + s, [y] + t, 0, k) <==> x == y && Agree(s, t, 0, k - 1)
    ensures Agree([x] + s, [y] + t, k, |s| + 1) <==> Agree(s, t, k - 1, |s|)
  {
    assert ([x] + s)[0] == x && ([y] + t)[0] == y;
    assert forall i :: 0 <= i < |s| ==> s[i] == ([x] + s)[i + 1] && t[i] == ([y] + t)[i + 1];
  }

  /** Two words agree in all other bits if nothing but their lowest bits is left in their sum. */
  lemma {:induction false} SameHigh(n: nat, k: nat, u: bv32, v: bv32)
    requires k <= n <= 32 && Within(u, Ones(n)) && Within(v, Ones(n))
    ensures Agree(LowBits(n, u), LowBits(n, v), k, n) <==> Within(Xor(u, v), Ones(k))
    decreases k
  {
    hide Low, Half, Xor, Grow, Within, Agree;
    if k == 0 {
      LowBitsInjective(n, u, v);
      XorLaws(u, v);
      WithinSelf(0);
      if Within(Xor(u, v), 0) {
        WithinZero(Xor(u, v));
      }
      AgreeAll(LowBits(n, u), LowBits(n, v));
    } else {
      SmallOnes(n - 1);
      SmallOnes(k - 1);
      HalfWithin(u, Ones(n - 1));
      HalfWithin(v, Ones(n - 1));
      SameHigh(n - 1, k - 1, Half(u), Half(v));
      LowBitXor(u, v);
      WithinGrow(Xor(u, v), Ones(k - 1));
      AgreeMore(Low(u) == 1, Low(v) == 1, LowBits(n - 1, Half(u)), LowBits(n - 1, Half(v)), k);
    }
  }

  lemma {:induction false} SmallOnes(n: nat)
    requires n <= 31
    ensures Within(Ones(n), 0x7FFF_FFFF)
  {
    hide Within;
    OnesWithin(n, 31);
    OnesTop();
  }

  lemma {:induction false} LowBitsInjective(n: nat, u: bv32, v: bv32)
    requires n <= 32 && Within(u, Ones(n)) && Within(v, Ones(n))
    ensures LowBits(n, u) == LowBits(n, v) <==> u == v
  {
    hide Ones, LowBits;
    PackLowBits(n, u);
    PackLowBits(n, v);
  }

  lemma {:induction false} LowBitsSplit(a: nat, n: nat, w: bv32)
    ensures LowBits(a + n, w) == LowBits(a, w) + LowBits(n, Halves(a, w))
  {
    hide Low, Half;
    if a == 0 {
      assert LowBits(0, w) + LowBits(n, w) == LowBits(n, w);
    } else {
      LowBitsSplit(a - 1, n, Half(w));
      HalvesShift(a - 1, w);
    }
  }

  lemma {:induction false} HalvesShift(j: nat, c: bv32)
    ensures Halves(j, Half(c)) == Halves(j + 1, c)
  {
    hide Half;
    if j != 0 {
      HalvesShift(j - 1, c);
    }
  }

  function Halves(j: nat, c: bv32): bv32 {
    if j == 0 then c else Half(Halves(j - 1, c))
  }

  // Four bytes as a word, the first byte lowest.

  function Little(s: seq<bv8>): bv32
    requires |s| == 4
  {
    Widen(s[0]) | (Widen(s[1]) << 8) | (Widen(s[2]) << 16) | (Widen(s[3]) << 24)
  }

  function Four(w: bv32): (r: seq<bv8>)
    ensures |r| == 4
  {
    [(w & 0xFF) as bv8, ((w >> 8) & 0xFF) as bv8, ((w >> 16) & 0xFF) as bv8, (w >> 24) as bv8]
  }

  lemma LittleOfFour(w: bv32)
    ensures Little(Four(w)) == w
  {}

  function Next(w: bv32): bv32 { w >> 8 }

  lemma {:induction false} HalvesEight(w: bv32)
    ensures Halves(8, w) == Next(w)
  {
    hide Half;
    var h2 := Half(Half(w));
    assert Halves(2, w) == Half(Halves(1, w)) == h2;
    assert Halves(4, w) == Half(Half(Halves(2, w)));
    assert Halves(6, w) == Half(Half(Halves(4, w)));
    assert Halves(8, w) == Half(Half(Halves(6, w)));
    HalvedShift(w);
  }

  lemma HalvedShift(w: bv32)
    ensures Half(Half(Half(Half(Half(Half(Half(Half(w)))))))) == Next(w)
  {}

  /** The lowest byte of a word. */
  lemma {:induction false} FirstByte(w: bv32, b: bv8)
    requires LowByte(w) == Widen(b)
    ensures LowBits(8, w) == Bits8(b)
  {
    hide LowBits, And, Xor, Ones, LowByte, Widen, Agree;
    OnesEight();
    SameLow(8, 8, w, Widen(b));
    LowByteSame(w);
    AgreeAll(LowBits(8, w), LowBits(8, Widen(b)));
    Bits8Widen(b);
  }

  lemma LowByteSame(w: bv32)
    ensures And(Xor(w, LowByte(w)), 255) == 0
  {}

  lemma Bits8Widen(x: bv8)
    ensures Bits8(x) == LowBits(8, Widen(x))
  {
    hide LowBits;
  }

  lemma LittleBytes(s: seq<bv8>)
    requires |s| == 4
    ensures
      var w := Little(s);
      && LowByte(w) == Widen(s[0]) && LowByte(Next(w)) == Widen(s[1])
      && LowByte(Next(Next(w))) == Widen(s[2]) && LowByte(Next(Next(Next(w)))) == Widen(s[3])
  {}

  lemma {:induction false} BitsOfLittle(s: seq<bv8>)
    requires |s| == 4
    ensures Bits(s) == LowBits(32, Little(s))
  {
    hide Little, LowBits, Bits8, LowByte, Next, Halves;
    var w := Little(s);
    LittleBytes(s);
    HalvesEight(w);
    HalvesEight(Next(w));
    HalvesEight(Next(Next(w)));
    LowBitsSplit(8, 24, w);
    LowBitsSplit(8, 16, Next(w));
    LowBitsSplit(8, 8, Next(Next(w)));
    FirstByte(w, s[0]);
    FirstByte(Next(w), s[1]);
    FirstByte(Next(Next(w)), s[2]);
    FirstByte(Next(Next(Next(w))), s[3]);
    FourBytes(s);
  }

  lemma {:induction false} FourBytes(s: seq<bv8>)
    requires |s| == 4
    ensures Bits(s) == Bits8(s[0]) + (Bits8(s[1]) + (Bits8(s[2]) + Bits8(s[3])))
  {
    hide Bits8;
    assert Bits(s[3..]) == Bits8(s[3]) + Bits([]) == Bits8(s[3]);
    assert Bits(s[2..]) == Bits8(s[2]) + Bits(s[3..]);
    assert Bits(s[1..]) == Bits8(s[1]) + Bits(s[2..]);
  }

  lemma {:induction false} PackLittle(s: seq<bv8>)
    requires |s| == 4
    ensures Pack(Bits(s)) == Little(s)
  {
    hide Little, LowBits, Ones, Pack, Bits;
    BitsOfLittle(s);
    OnesTable();
    AllWithin(Little(s));
    PackLowBits(32, Little(s));
  }

  lemma AllWithin(w: bv32)
    ensures Within(w, 0xFFFF_FFFF)
  {}

  /** Four bytes agree with four others outside of the part of a window that lies in them. */
  lemma {:induction false} SameBits(k: nat, s: seq<bv8>, t: seq<bv8>)
    requires |s| == |t| == 4 && k <= 32
    ensures Agree(Bits(s), Bits(t), 0, k) <==> And(Xor(Little(s), Little(t)), Ones(k)) == 0
    ensures Agree(Bits(s), Bits(t), k, 32) <==> Within(Xor(Little(s), Little(t)), Ones(k))
  {
    hide Little, LowBits, Ones, Bits, And, Within, Xor, Agree;
    BitsOfLittle(s);
    BitsOfLittle(t);
    OnesTable();
    AllWithin(Little(s));
    AllWithin(Little(t));
    SameLow(32, k, Little(s), Little(t));
    SameHigh(32, k, Little(s), Little(t));
  }
}

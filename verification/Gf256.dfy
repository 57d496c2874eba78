/** Arithmetic of GF(2^8) with the primitive polynomial 1 + x^2 + x^3 + x^4 + x^8. */
module Gf256 {
  function Add(a: bv8, b: bv8): bv8 { a ^ b }

  function Xtime(a: bv8): bv8 {
    var t := a >> 7;
    (a << 1) ^ t ^ (t << 2) ^ (t << 3) ^ (t << 4)
  }

  function Shift(n: nat, a: bv8): bv8 {
    if n == 0 then a else Shift(n - 1, Xtime(a))
  }

  function Pow(n: nat): bv8 { Shift(n, 1) }

  lemma AddAssoc(a: bv8, b: bv8, c: bv8)
    ensures Add(Add(a, b), c) == Add(a, Add(b, c))
  {
    assert (a ^ b) ^ c == a ^ (b ^ c);
  }

  lemma AddLaws(a: bv8, b: bv8)
    ensures Add(a, b) == Add(b, a)
    ensures Add(a, 0) == a && Add(0, a) == a
    ensures Add(a, a) == 0
    ensures Add(Add(a, b), b) == a
    ensures Add(a, b) == 0 <==> a == b
  {
    assert (a ^ b) ^ b == a;
  }

  lemma AddSwap(a: bv8, b: bv8, c: bv8, d: bv8)
    ensures Add(Add(a, b), Add(c, d)) == Add(Add(a, c), Add(b, d))
  {
    assert (a ^ b) ^ (c ^ d) == (a ^ c) ^ (b ^ d);
  }

  lemma XtimeXor(a: bv8, b: bv8)
    ensures Xtime(Add(a, b)) == Add(Xtime(a), Xtime(b))
  {}

  lemma XtimeOne()
    ensures Xtime(1) == 2
  {}

  lemma XtimeNonzero(a: bv8)
    ensures Xtime(a) == 0 <==> a == 0
  {}

  lemma {:induction false} ShiftAdd(m: nat, n: nat, a: bv8)
    ensures Shift(m + n, a) == Shift(m, Shift(n, a))
  {
    hide Xtime;
    if n != 0 { ShiftAdd(m, n - 1, Xtime(a)); }
  }

  lemma {:induction false} ShiftXor(n: nat, a: bv8, b: bv8)
    ensures Shift(n, Add(a, b)) == Add(Shift(n, a), Shift(n, b))
  {
    hide Xtime, Add;
    if n != 0 {
      XtimeXor(a, b);
      ShiftXor(n - 1, Xtime(a), Xtime(b));
    }
  }

  lemma {:induction false} ShiftNonzero(n: nat, a: bv8)
    ensures Shift(n, a) == 0 <==> a == 0
  {
    hide Xtime;
    if n != 0 {
      XtimeNonzero(a);
      ShiftNonzero(n - 1, Xtime(a));
    }
  }

  // The order of alpha.

  function X5(a: bv8): bv8 { Xtime(Xtime(Xtime(Xtime(Xtime(a))))) }

  function X25(a: bv8): bv8 { X5(X5(X5(X5(X5(a))))) }

  predicate Avoids(n: nat, a: bv8) {
    n == 0 || (a != 1 && Avoids(n - 1, Xtime(a)))
  }

  predicate Avoids5(a: bv8) {
    a != 1 && Xtime(a) != 1 && Xtime(Xtime(a)) != 1 && Xtime(Xtime(Xtime(a))) != 1 && Xtime(Xtime(Xtime(Xtime(a)))) != 1
  }

  predicate Avoids25(a: bv8) {
    Avoids5(a) && Avoids5(X5(a)) && Avoids5(X5(X5(a))) && Avoids5(X5(X5(X5(a)))) && Avoids5(X5(X5(X5(X5(a)))))
  }

  lemma {:induction false} Unroll1(n: nat, a: bv8)
    ensures Shift(n + 1, a) == Shift(n, Xtime(a))
    ensures Avoids(n + 1, a) <==> a != 1 && Avoids(n, Xtime(a))
  {}

  lemma {:induction false} Unroll5(n: nat, a: bv8)
    ensures Shift(n + 5, a) == Shift(n, X5(a))
    ensures Avoids5(a) && Avoids(n, X5(a)) ==> Avoids(n + 5, a)
  {
    hide Xtime, Shift, Avoids;
    Unroll1(n + 4, a);
    Unroll1(n + 3, Xtime(a));
    Unroll1(n + 2, Xtime(Xtime(a)));
    Unroll1(n + 1, Xtime(Xtime(Xtime(a))));
    Unroll1(n, Xtime(Xtime(Xtime(Xtime(a)))));
  }

  lemma {:induction false} Unroll25(n: nat, a: bv8)
    ensures Shift(n + 25, a) == Shift(n, X25(a))
    ensures Avoids25(a) && Avoids(n, X25(a)) ==> Avoids(n + 25, a)
  {
    hide Xtime, X5, Avoids5;
    Unroll5(n + 20, a);
    Unroll5(n + 15, X5(a));
    Unroll5(n + 10, X5(X5(a)));
    Unroll5(n + 5, X5(X5(X5(a))));
    Unroll5(n, X5(X5(X5(X5(a)))));
  }

  lemma Blocks0()
    ensures X25(2) == 6 && Avoids25(2)
    ensures X25(6) == 10 && Avoids25(6)
    ensures X25(10) == 30 && Avoids25(10)
  {}

  lemma Blocks1()
    ensures X25(30) == 34 && Avoids25(30)
    ensures X25(34) == 102 && Avoids25(34)
    ensures X25(102) == 170 && Avoids25(102)
  {}

  lemma Blocks2()
    ensures X25(170) == 227 && Avoids25(170)
    ensures X25(227) == 56 && Avoids25(227)
  {}

  lemma Blocks3()
    ensures X25(56) == 72 && Avoids25(56)
    ensures X25(72) == 216 && Avoids25(72)
    ensures Shift(4, 216) == 1 && Avoids(4, 216)
  {}

  /** alpha has order exactly 255: it is a primitive element. */
  lemma Primitive()
    ensures Pow(255) == 1
    ensures Avoids(254, 2)
  {
    hide Shift, Avoids, Xtime, X25, Avoids25;
    Blocks0();
    Blocks1();
    Blocks2();
    Blocks3();
    Unroll25(229, 2);
    Unroll25(204, 6);
    Unroll25(179, 10);
    Unroll25(154, 30);
    Unroll25(129, 34);
    Unroll25(104, 102);
    Unroll25(79, 170);
    Unroll25(54, 227);
    Unroll25(29, 56);
    Unroll25(4, 72);
    Unroll1(254, 1);
    assert Xtime(1) == 2 by { XtimeOne(); }
  }

  lemma {:induction false} AvoidsAll(n: nat, a: bv8, d: nat)
    requires Avoids(n, a) && d < n
    ensures Shift(d, a) != 1
  {
    hide Xtime;
    if d != 0 { AvoidsAll(n - 1, Xtime(a), d - 1); }
  }

  lemma {:induction false} PowInjective(i: nat, j: nat)
    requires i < j < 255
    ensures Pow(i) != Pow(j)
  {
    hide Xtime, Add;
    Primitive();
    AvoidsAll(254, 2, j - i - 1);
    assert Pow(j - i) == Shift(j - i - 1, 2) by { XtimeOne(); Unroll1(j - i - 1, 1); }
    ShiftAdd(i, j - i, 1);
    if Pow(i) == Pow(j) {
      ShiftXor(i, Pow(j - i), 1);
      AddLaws(Pow(i), Pow(j));
      AddLaws(Pow(j - i), 1);
      ShiftNonzero(i, Add(Pow(j - i), 1));
    }
  }

  // A list of n distinct numbers from 1..n contains every one of them.

  ghost predicate Distinct<T>(s: seq<T>) {
    forall i, j :: 0 <= i < j < |s| ==> s[i] != s[j]
  }

  ghost function Elements(s: seq<nat>): (r: set<nat>)
    requires Distinct(s)
    ensures |r| == |s|
    ensures forall x :: x in r <==> x in s
  {
    if s == [] then {} else
      var front := s[..|s| - 1];
      assert s == front + [s[|s| - 1]];
      Elements(front) + {s[|s| - 1]}
  }

  ghost function Upto(n: nat): (r: set<nat>)
    ensures |r| == n
    ensures forall x :: x in r <==> 1 <= x <= n
  {
    if n == 0 then {} else Upto(n - 1) + {n}
  }

  lemma Pigeonhole(s: seq<nat>, v: nat)
    requires forall i :: 0 <= i < |s| ==> 1 <= s[i] <= |s|
    requires Distinct(s)
    requires 1 <= v <= |s|
    ensures v in s
  {
    var members := Elements(s);
    var range := Upto(|s|);
    if v !in s {
      assert members <= range - {v};
      SubsetCount(members, range - {v});
    }
  }

  lemma {:induction false} SubsetCount<T>(a: set<T>, b: set<T>)
    requires a <= b
    ensures |a| <= |b|
    ensures |a| == |b| ==> a == b
  {
    if a == {} {
      assert |b| == 0 ==> b == {};
    } else {
      var x :| x in a;
      SubsetCount(a - {x}, b - {x});
      assert a == (a - {x}) + {x} && b == (b - {x}) + {x};
    }
  }

  /** A byte as an index into a table. */
  function Index(a: bv8): nat { a as int }

  /** The byte at a table position. */
  function Byte(i: nat): bv8
    requires i < 256
  {
    i as bv8
  }

  lemma IndexLaws(a: bv8, b: bv8)
    ensures Index(a) < 256 && Byte(Index(a)) == a
    ensures Index(a) == 0 <==> a == 0
    ensures Index(a) == Index(b) ==> a == b
  {}

  lemma ByteLaws(i: nat)
    requires i < 256
    ensures Index(Byte(i)) == i
    ensures Byte(i) == 0 <==> i == 0
    ensures Byte(i) == 1 <==> i == 1
  {}

  lemma PowOnto(a: bv8)
    requires a != 0
    ensures exists i: nat :: i < 255 && Pow(i) == a
  {
    hide Pow, Index;
    var powers := seq(255, i requires 0 <= i < 255 => Index(Pow(i)));
    forall i | 0 <= i < 255 ensures 1 <= powers[i] <= 255 {
      IndexLaws(Pow(i), 0);
      PowNonzero(i);
    }
    forall i, j | 0 <= i < j < 255 ensures powers[i] != powers[j] {
      PowInjective(i, j);
      IndexLaws(Pow(i), Pow(j));
    }
    IndexLaws(a, 0);
    Pigeonhole(powers, Index(a));
    var i :| 0 <= i < 255 && powers[i] == Index(a);
    IndexLaws(Pow(i), a);
  }

  lemma PowNonzero(n: nat)
    ensures Pow(n) != 0
  {
    ShiftNonzero(n, 1);
  }

  /** The discrete logarithm to base alpha. */
  ghost function Log(a: bv8): (n: nat)
    requires a != 0
    ensures n < 255 && Pow(n) == a
  {
    PowOnto(a);
    var n: nat :| n < 255 && Pow(n) == a;
    n
  }

  /** Multiplication through logarithms, the way the lookup tables do it. */
  ghost function Mul(a: bv8, b: bv8): bv8 {
    if a == 0 || b == 0 then 0 else Pow(Log(a) + Log(b))
  }

  ghost function Inv(a: bv8): bv8 {
    if a == 0 then 0 else Pow(255 - Log(a))
  }

  lemma {:induction false} PowMod(n: nat)
    ensures Pow(n) == Pow(n % 255)
    decreases n
  {
    hide Xtime;
    if n >= 255 {
      Primitive();
      ShiftAdd(n - 255, 255, 1);
      PowMod(n - 255);
    }
  }

  lemma PowAdd(m: nat, n: nat)
    ensures Pow(m + n) == Shift(m, Pow(n)) == Shift(n, Pow(m))
  {
    ShiftAdd(m, n, 1);
    ShiftAdd(n, m, 1);
  }

  lemma LogPow(n: nat)
    requires Pow(n) != 0
    ensures Log(Pow(n)) == n % 255
  {
    hide Pow;
    PowMod(n);
    var l, m := Log(Pow(n)), n % 255;
    if l < m { PowInjective(l, m); } else if m < l { PowInjective(m, l); }
  }

  lemma {:induction false} MulPow(n: nat, b: bv8)
    ensures Mul(Pow(n), b) == Shift(n, b)
  {
    hide Shift;
    PowNonzero(n);
    ShiftNonzero(n, b);
    if b != 0 {
      LogPow(n);
      PowMod(n);
      PowAdd(n % 255, Log(b));
      PowAdd(n, Log(b));
    }
  }

  lemma MulComm(a: bv8, b: bv8)
    ensures Mul(a, b) == Mul(b, a)
  {}

  lemma MulZero(a: bv8)
    ensures Mul(a, 0) == 0 && Mul(0, a) == 0
  {}

  lemma MulOne(a: bv8)
    ensures Mul(1, a) == a && Mul(a, 1) == a
  {
    MulPow(0, a);
  }

  lemma MulDistrib(a: bv8, b: bv8, c: bv8)
    ensures Mul(a, Add(b, c)) == Add(Mul(a, b), Mul(a, c))
    ensures Mul(Add(b, c), a) == Add(Mul(b, a), Mul(c, a))
  {
    hide Add, Pow;
    if a == 0 {
      AddLaws(0, 0);
    } else {
      var n := Log(a);
      MulPow(n, b);
      MulPow(n, c);
      MulPow(n, Add(b, c));
      ShiftXor(n, b, c);
    }
  }

  lemma MulAssoc(a: bv8, b: bv8, c: bv8)
    ensures Mul(Mul(a, b), c) == Mul(a, Mul(b, c))
  {
    hide Shift;
    if a != 0 && b != 0 {
      var m, n := Log(a), Log(b);
      MulPow(m + n, c);
      MulPow(n, c);
      MulPow(m, Shift(n, c));
      ShiftAdd(m, n, c);
    }
  }

  lemma MulInv(a: bv8)
    requires a != 0
    ensures Mul(a, Inv(a)) == 1 && Mul(Inv(a), a) == 1
    ensures Inv(a) != 0
  {
    hide Shift;
    var n := Log(a);
    PowNonzero(255 - n);
    MulPow(n, Pow(255 - n));
    PowAdd(n, 255 - n);
    Primitive();
  }

  lemma MulNonzero(a: bv8, b: bv8)
    ensures Mul(a, b) == 0 <==> a == 0 || b == 0
  {
    if a != 0 && b != 0 { PowNonzero(Log(a) + Log(b)); }
  }

  /** Shift-and-add multiplication of polynomials over GF(2), reduced as it goes: the textbook product. */
  function Peasant(a: bv8, b: bv8, bits: nat): bv8
    decreases bits
  {
    if bits == 0 then 0
    else Add(if a & 1 == 1 then b else 0, Peasant(a >> 1, Xtime(b), bits - 1))
  }

  predicate Fits(a: bv8, bits: nat)
    decreases bits
  {
    if bits == 0 then a == 0 else Fits(a >> 1, bits - 1)
  }

  lemma XtimeHalf(a: bv8)
    ensures a == Add(Xtime(a >> 1), if a & 1 == 1 then 1 else 0)
  {}

  lemma {:induction false} PeasantIsMul(a: bv8, b: bv8, bits: nat)
    requires Fits(a, bits)
    ensures Peasant(a, b, bits) == Mul(a, b)
    decreases bits
  {
    hide Xtime, Add, Mul;
    if bits == 0 {
      MulZero(b);
    } else {
      var h, l := a >> 1, (if a & 1 == 1 then 1 else 0) as bv8;
      PeasantIsMul(h, Xtime(b), bits - 1);
      XtimeHalf(a);
      MulDistrib(b, Xtime(h), l);
      MulXtime(h, b);
      AddLaws(Mul(Xtime(h), b), Mul(l, b));
      MulOne(b);
      MulZero(b);
    }
  }

  lemma MulXtime(a: bv8, b: bv8)
    ensures Mul(Xtime(a), b) == Mul(a, Xtime(b))
  {
    hide Xtime, Mul;
    XtimeIsMul(a);
    XtimeIsMul(b);
    MulAssoc(a, 2, b);
    MulComm(2, a);
  }

  lemma XtimeIsMul(a: bv8)
    ensures Xtime(a) == Mul(2, a)
  {
    hide Xtime, Mul;
    XtimeOne();
    MulPow(1, a);
  }

  /** The table product is the product of polynomials modulo 1 + x^2 + x^3 + x^4 + x^8. */
  lemma {:induction false} MulIsPolynomialProduct(a: bv8, b: bv8)
    ensures Mul(a, b) == Peasant(a, b, 8)
  {
    hide Mul, Peasant, Fits;
    FitsByte(a);
    PeasantIsMul(a, b, 8);
  }

  lemma {:induction false} FitsByte(a: bv8)
    ensures Fits(a, 8)
  {
    var a4 := (((a >> 1) >> 1) >> 1) >> 1;
    assert ((((a4 >> 1) >> 1) >> 1) >> 1) == 0;
    assert Fits(a4, 4);
    assert Fits((a >> 1) >> 1, 6);
  }
}

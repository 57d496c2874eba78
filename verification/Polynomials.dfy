/** Polynomials over GF(2^8), coefficients from the constant term upwards. */
module Polynomials {
  import opened Gf256
  import opened LinearAlgebra

  /** Horner's rule. */
  ghost function Eval(c: Vec, x: bv8): bv8 {
    if c == [] then 0 else Add(c[0], Mul(x, Eval(c[1..], x)))
  }

  /** The quotient of synthetic division by (X - r). */
  ghost function Quotient(c: Vec, r: bv8): (q: Vec)
    ensures |q| == if c == [] then 0 else |c| - 1
    ensures forall i :: 0 <= i < |q| ==> q[i] == Eval(c[i + 1..], r)
  {
    if |c| <= 1 then [] else [Eval(c[1..], r)] + Quotient(c[1..], r)
  }

  ghost function Power(x: bv8, n: nat): bv8 {
    if n == 0 then 1 else Mul(x, Power(x, n - 1))
  }

  /** A row of a Vandermonde matrix. */
  ghost function Powers(x: bv8, k: nat): (r: Vec)
    ensures |r| == k && forall j :: 0 <= j < k ==> r[j] == Power(x, j)
  {
    seq(k, j requires 0 <= j => Power(x, j))
  }

  lemma {:induction false} EvalIsDot(c: Vec, x: bv8)
    ensures Eval(c, x) == Dot(Powers(x, |c|), c)
  {
    hide Add, Mul;
    if c != [] {
      EvalIsDot(c[1..], x);
      assert Powers(x, |c|)[1..] == Scale(x, Powers(x, |c| - 1));
      DotScale(c[1..], x, Powers(x, |c| - 1));
      MulOne(c[0]);
    }
  }

  lemma {:induction false} EvalPlus(c: Vec, d: Vec, x: bv8)
    requires |c| == |d|
    ensures Eval(Plus(c, d), x) == Add(Eval(c, x), Eval(d, x))
  {
    hide *;
    EvalIsDot(c, x);
    EvalIsDot(d, x);
    EvalIsDot(Plus(c, d), x);
    DotPlus(Powers(x, |c|), c, d);
  }

  lemma {:induction false} EvalScale(a: bv8, c: Vec, x: bv8)
    ensures Eval(Scale(a, c), x) == Mul(a, Eval(c, x))
  {
    hide *;
    EvalIsDot(c, x);
    EvalIsDot(Scale(a, c), x);
    DotScale(Powers(x, |c|), a, c);
  }

  lemma {:induction false} EvalPad(c: Vec, x: bv8)
    ensures Eval(c + [0], x) == Eval(c, x)
    ensures Eval([0] + c, x) == Mul(x, Eval(c, x))
  {
    hide Add, Mul;
    AddLaws(Mul(x, Eval(c, x)), 0);
    assert ([0] + c)[1..] == c;
    if c == [] {
      MulZero(x);
      AddLaws(0, 0);
    } else {
      EvalPad(c[1..], x);
      assert (c + [0])[1..] == c[1..] + [0];
    }
  }

  /** c(x) == (x - r) * quotient(x) + c(r). */
  lemma {:induction false} Division(c: Vec, r: bv8, x: bv8)
    ensures Eval(c, x) == Add(Mul(Add(x, r), Eval(Quotient(c, r), x)), Eval(c, r))
  {
    hide Add, Mul;
    MulZero(Add(x, r));
    MulZero(x);
    MulZero(r);
    if |c| <= 1 {
      AddLaws(Eval(c, r), 0);
    } else {
      Division(c[1..], r, x);
      var e, q := Eval(c[1..], r), Eval(Quotient(c[1..], r), x);
      assert Quotient(c, r)[1..] == Quotient(c[1..], r);
      DivisionStep(c[0], e, q, r, x);
    }
  }

  lemma DivisionStep(c0: bv8, e: bv8, q: bv8, r: bv8, x: bv8)
    ensures Add(c0, Mul(x, Add(Mul(Add(x, r), q), e)))
         == Add(Mul(Add(x, r), Add(e, Mul(x, q))), Add(c0, Mul(r, e)))
  {
    hide Add, Mul;
    var s := Add(x, r);
    var sxq, xe, re := Mul(x, Mul(s, q)), Mul(x, e), Mul(r, e);
    MulDistrib(x, Mul(s, q), e);
    MulDistrib(s, e, Mul(x, q));
    MulDistrib(e, x, r);
    MulAssoc(s, x, q);
    MulAssoc(x, s, q);
    MulComm(s, x);
    // left: c0 + (sxq + xe); right: ((xe + re) + sxq) + (c0 + re)
    Cancel(c0, sxq, xe, re);
  }

  lemma Cancel(a: bv8, b: bv8, c: bv8, d: bv8)
    ensures Add(a, Add(b, c)) == Add(Add(Add(c, d), b), Add(a, d))
  {
    assert a ^ (b ^ c) == ((c ^ d) ^ b) ^ (a ^ d);
  }

  /** A polynomial with at least as many distinct roots as coefficients is zero. */
  lemma {:induction false} Roots(c: Vec, xs: seq<bv8>)
    requires Distinct(xs) && |xs| == |c|
    requires forall i :: 0 <= i < |xs| ==> Eval(c, xs[i]) == 0
    ensures c == Zeros(|c|)
    decreases |c|
  {
    hide Add, Mul;
    if c != [] {
      var r, q := xs[0], Quotient(c, xs[0]);
      forall i | 0 <= i < |q|
        ensures Eval(q, xs[1..][i]) == 0
      {
        var x := xs[i + 1];
        Division(c, r, x);
        AddLaws(Mul(Add(x, r), Eval(q, x)), 0);
        AddLaws(x, r);
        MulNonzero(Add(x, r), Eval(q, x));
      }
      Roots(q, xs[1..]);
      ZeroQuotient(c, r);
    }
  }

  lemma {:induction false} ZeroQuotient(c: Vec, r: bv8)
    requires c != [] && Quotient(c, r) == Zeros(|c| - 1) && Eval(c, r) == 0
    ensures c == Zeros(|c|)
  {
    hide Add, Mul;
    MulZero(r);
    AddLaws(c[0], 0);
    if |c| > 1 {
      assert Quotient(c, r)[0] == 0;
      assert Quotient(c[1..], r) == Quotient(c, r)[1..];
      ZeroQuotient(c[1..], r);
      assert c == [c[0]] + c[1..];
    }
  }

  /** The product of a monic polynomial, whose leading 1 is implicit, with (X - p). */
  ghost function Times(c: Vec, p: bv8): (r: Vec)
    ensures |r| == |c| + 1
  {
    Plus([0] + c, Scale(p, c + [1]))
  }

  lemma {:induction false} EvalTimes(c: Vec, p: bv8, x: bv8)
    ensures Eval(Times(c, p) + [1], x) == Mul(Add(x, p), Eval(c + [1], x))
  {
    hide Add, Mul, Eval;
    var d := c + [1];
    var up, scaled := [0] + d, Scale(p, d);
    AddLaws(1, 0);
    assert Times(c, p) + [1] == Plus(up, scaled + [0]);
    EvalPlus(up, scaled + [0], x);
    EvalScale(p, d, x);
    EvalPad(d, x);
    EvalPad(scaled, x);
    MulDistrib(Eval(d, x), x, p);
  }

  /** The coefficients of the monic polynomial whose roots are ps. */
  ghost function Product(ps: seq<bv8>): (r: Vec)
    ensures |r| == |ps|
  {
    if ps == [] then [] else Times(Product(ps[..|ps| - 1]), ps[|ps| - 1])
  }

  lemma {:induction false} ProductRoots(ps: seq<bv8>, i: nat)
    requires i < |ps|
    ensures Eval(Product(ps) + [1], ps[i]) == 0
  {
    hide Add, Mul, Eval, Times;
    var front, last := ps[..|ps| - 1], ps[|ps| - 1];
    EvalTimes(Product(front), last, ps[i]);
    if i == |ps| - 1 {
      AddLaws(last, last);
    } else {
      ProductRoots(front, i);
    }
    MulZero(Add(ps[i], last));
    MulZero(Eval(Product(front) + [1], ps[i]));
  }
}

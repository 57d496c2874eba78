/** The closed-form inverse of a Vandermonde matrix, as the source computes it. */
module Vandermonde {
  import opened Gf256
  import opened LinearAlgebra
  import opened Elimination
  import opened Polynomials

  ghost function Matrix(ps: seq<bv8>): (r: Mat)
    ensures Shape(r, |ps|, |ps|) && forall i :: 0 <= i < |ps| ==> r[i] == Powers(ps[i], |ps|)
  {
    seq(|ps|, i requires 0 <= i < |ps| => Powers(ps[i], |ps|))
  }

  lemma MatrixNonsingular(ps: seq<bv8>)
    requires Distinct(ps)
    ensures Nonsingular(Matrix(ps), |ps|)
  {
    hide Add, Mul, Dot, Eval;
    var k := |ps|;
    forall x: Vec | |x| == k && Solves(Matrix(ps), k, x, Zeros(k))
      ensures x == Zeros(k)
    {
      forall i | 0 <= i < k
        ensures Eval(x, ps[i]) == 0
      {
        EvalIsDot(x, ps[i]);
      }
      Roots(x, ps);
    }
  }

  /**
   * The coefficients the source accumulates: like the product of the (X - p), except that every
   * stage after the first leaves the new constant term at zero.
   */
  ghost function Skewed(ps: seq<bv8>): (r: Vec)
    ensures |r| == |ps|
  {
    if |ps| <= 1 then ps else Times(Skewed(ps[..|ps| - 1]), ps[|ps| - 1])[0 := 0]
  }

  /** Where the skewed product and the true product agree. */
  lemma {:induction false} SkewedGap(ps: seq<bv8>)
    requires |ps| >= 1
    ensures Skewed(ps)[|ps| - 1] == Product(ps)[|ps| - 1]
    ensures |ps| >= 3 ==> Add(Skewed(ps)[|ps| - 2], Product(ps)[|ps| - 2]) == Mul(ps[0], ps[1])
  {
    hide Add, Mul;
    var n := |ps|;
    var front, p := ps[..n - 1], ps[n - 1];
    MulOne(p);
    if n == 1 {
      assert Product(front) == [];
      AddLaws(p, 0);
    } else {
      SkewedGap(front);
      if n >= 3 {
        var c, d := Skewed(front), Product(front);
        if n == 3 {
          assert c == Times([ps[0]], ps[1])[0 := 0] by { assert front[..1] == [ps[0]]; }
          SmallProduct(ps[0], ps[1]);
          assert front == [ps[0], ps[1]];
        }
        AddSwap(c[n - 3], Mul(p, c[n - 2]), d[n - 3], Mul(p, d[n - 2]));
        AddLaws(Mul(p, c[n - 2]), 0);
        AddLaws(Mul(ps[0], ps[1]), 0);
      }
    }
  }

  lemma SmallProduct(p: bv8, q: bv8)
    ensures Product([p]) == [p]
    ensures Product([p, q]) == [Mul(p, q), Add(p, q)]
  {
    hide Add, Mul;
    MulOne(p);
    MulOne(q);
    AddLaws(p, 0);
    AddLaws(Mul(p, q), 0);
    MulComm(p, q);
    assert [p][..0] == [] && [p, q][..1] == [p];
    assert Product([]) == [];
    assert [0] + [p] == [0, p] && [p] + [1] == [p, 1];
  }

  lemma {:induction false} SkewedExact(ps: seq<bv8>)
    requires |ps| >= 2 && (ps[0] == 0 || ps[1] == 0)
    ensures Skewed(ps) == Product(ps) && Skewed(ps)[0] == 0
  {
    hide Add, Mul;
    var n := |ps|;
    var front, p := ps[..n - 1], ps[n - 1];
    if n == 2 {
      assert front == [ps[0]] && ps == [ps[0], ps[1]];
      SmallProduct(ps[0], ps[1]);
      MulZero(ps[0]);
      MulZero(ps[1]);
    } else {
      SkewedExact(front);
      MulZero(p);
      AddLaws(0, 0);
      assert Product(ps)[0] == Add(0, Mul(p, 0));
    }
  }

  /** The column the source stores for the point x, given the accumulated coefficients. */
  ghost function LagrangeColumn(c: Vec, x: bv8): (r: Vec)
    ensures |r| == |c|
  {
    var b := Quotient(c + [1], x);
    Scale(Inv(Eval(b, x)), b)
  }

  /** What the source leaves in place of the Vandermonde matrix of the points ps. */
  ghost function Stored(ps: seq<bv8>): (r: Mat)
    ensures Shape(r, |ps|, |ps|)
    ensures forall i, j :: 0 <= i < |ps| && 0 <= j < |ps| ==> r[i][j] == LagrangeColumn(Skewed(ps), ps[j])[i]
  {
    seq(|ps|, i requires 0 <= i < |ps| =>
      seq(|ps|, j requires 0 <= j < |ps| => LagrangeColumn(Skewed(ps), ps[j])[i]))
  }

  /** With the exact product, each column is a Lagrange basis polynomial of the points. */
  lemma {:induction false} LagrangeBasis(ps: seq<bv8>, r: nat, i: nat)
    requires Distinct(ps) && r < |ps| && i < |ps|
    ensures Eval(LagrangeColumn(Product(ps), ps[r]), ps[i]) == if i == r then 1 else 0
    ensures Eval(Quotient(Product(ps) + [1], ps[r]), ps[r]) != 0
  {
    hide Add, Mul, Eval, Inv;
    var c, x := Product(ps) + [1], ps[r];
    var b := Quotient(c, x);
    var t := Eval(b, x);
    forall j | 0 <= j < |ps| && j != r
      ensures Eval(b, ps[j]) == 0
    {
      ProductRoots(ps, j);
      ProductRoots(ps, r);
      Division(c, x, ps[j]);
      AddLaws(Mul(Add(ps[j], x), Eval(b, ps[j])), 0);
      AddLaws(ps[j], x);
      MulNonzero(Add(ps[j], x), Eval(b, ps[j]));
    }
    assert b[|ps| - 1] == 1 by {
      assert c[|ps|..] == [1];
      EvalOne(x);
    }
    if t == 0 { Roots(b, ps); }
    MulInv(t);
    MulZero(Inv(t));
    EvalScale(Inv(t), b, ps[i]);
  }

  lemma {:induction false} EvalOne(x: bv8)
    ensures Eval([1], x) == 1
  {
    MulZero(x);
    AddLaws(1, 0);
  }

  /** A right inverse of a nonsingular matrix is its inverse. */
  lemma RightInverse(a: Mat, b: Mat, k: nat)
    requires Shape(a, k, k) && Shape(b, k, k) && Nonsingular(a, k)
    requires forall i, j :: 0 <= i < k && 0 <= j < k ==> Dot(a[i], Column(b, k, k, j)) == if i == j then 1 else 0
    ensures Inverse(a, b, k)
  {
    hide Dot, Add, Mul;
    forall x: Vec, y: Vec | |x| == |y| == k
      ensures Solves(a, k, x, y) <==> Solves(b, k, y, x)
    {
      var x' := Apply(b, k, y);
      forall i | 0 <= i < k
        ensures Dot(a[i], x') == y[i]
      {
        assert RowTimes(a[i], b, k) == Unit(k, i);
        DotAssoc(a[i], b, k, y);
        DotUnit(y, i);
      }
      assert Solves(b, k, y, x) ==> x == x';
      if Solves(a, k, x, y) {
        Injective(a, k, x, x', y);
      }
    }
  }

  lemma Injective(a: Mat, k: nat, x: Vec, x': Vec, y: Vec)
    requires Shape(a, k, k) && |x| == |x'| == |y| == k && Nonsingular(a, k)
    requires Solves(a, k, x, y) && Solves(a, k, x', y)
    ensures x == x'
  {
    hide Dot, Add, Mul;
    var d := Plus(x, x');
    forall i | 0 <= i < k
      ensures Dot(a[i], d) == 0
    {
      DotPlus(a[i], x, x');
      AddLaws(y[i], y[i]);
    }
    assert Solves(a, k, d, Zeros(k));
    forall i | 0 <= i < k
      ensures x[i] == x'[i]
    {
      assert d[i] == 0;
      AddLaws(x[i], x'[i]);
    }
  }

  /** The stored matrix is the inverse exactly when no constant term that mattered was dropped. */
  lemma StoredIsInverse(ps: seq<bv8>)
    requires Distinct(ps) && |ps| >= 1
    ensures Inverse(Matrix(ps), Stored(ps), |ps|) <==> |ps| <= 2 || ps[0] == 0 || ps[1] == 0
  {
    hide Dot, Add, Mul, Eval, Solves, Inverse;
    if |ps| <= 2 || ps[0] == 0 || ps[1] == 0 {
      StoredInverts(ps);
    } else {
      StoredFails(ps);
    }
  }

  lemma StoredInverts(ps: seq<bv8>)
    requires Distinct(ps) && |ps| >= 1
    requires |ps| <= 2 || ps[0] == 0 || ps[1] == 0
    ensures Inverse(Matrix(ps), Stored(ps), |ps|)
  {
    hide Dot, Add, Mul, Eval, Solves;
    var k := |ps|;
    MatrixNonsingular(ps);
    forall i, j | 0 <= i < k && 0 <= j < k
      ensures Dot(Matrix(ps)[i], Column(Stored(ps), k, k, j)) == if i == j then 1 else 0
    {
      SameColumn(ps, ps[j]);
      assert Column(Stored(ps), k, k, j) == LagrangeColumn(Product(ps), ps[j]);
      LagrangeBasis(ps, j, i);
      EvalIsDot(LagrangeColumn(Product(ps), ps[j]), ps[i]);
    }
    RightInverse(Matrix(ps), Stored(ps), k);
  }

  lemma {:induction false} SameColumn(ps: seq<bv8>, x: bv8)
    requires |ps| >= 1
    requires |ps| <= 2 || ps[0] == 0 || ps[1] == 0
    ensures LagrangeColumn(Skewed(ps), x) == LagrangeColumn(Product(ps), x)
  {
    hide Add, Mul, Inv, Eval, Quotient, Skewed, Product;
    var c, d := Skewed(ps), Product(ps);
    if |ps| >= 3 {
      SkewedExact(ps);
    } else {
      SkewedGap(ps);
      SameTail(c, d, x);
    }
  }

  lemma {:induction false} SameTail(c: Vec, d: Vec, x: bv8)
    requires 1 <= |c| == |d| <= 2 && c[|c| - 1] == d[|c| - 1]
    ensures Quotient(c + [1], x) == Quotient(d + [1], x)
  {
    hide Eval;
    assert (c + [1])[1..] == (d + [1])[1..];
  }

  lemma StoredFails(ps: seq<bv8>)
    requires Distinct(ps) && |ps| >= 3 && ps[0] != 0 && ps[1] != 0
    ensures !Inverse(Matrix(ps), Stored(ps), |ps|)
  {
    hide Dot, Add, Mul, Eval, Solves, Quotient;
    var k := |ps|;
    var x := ps[0];
    var wrong, right := LagrangeColumn(Skewed(ps), x), LagrangeColumn(Product(ps), x);
    if Inverse(Matrix(ps), Stored(ps), k) {
      var diff := Plus(wrong, right);
      assert Column(Stored(ps), k, k, 0) == wrong;
      forall i | 0 <= i < k
        ensures Eval(diff, ps[i]) == 0
      {
        InverseProducts(Matrix(ps), Stored(ps), k, i, 0);
        EvalIsDot(wrong, ps[i]);
        LagrangeBasis(ps, 0, i);
        EvalPlus(wrong, right, ps[i]);
        AddLaws(Eval(right, ps[i]), 0);
      }
      Roots(diff, ps);
      forall i | 0 <= i < k
        ensures wrong[i] == right[i]
      {
        assert diff[i] == 0;
        AddLaws(wrong[i], right[i]);
      }
      ColumnsDiffer(ps);
    }
  }

  lemma {:induction false} ColumnsDiffer(ps: seq<bv8>)
    requires Distinct(ps) && |ps| >= 3 && ps[0] != 0 && ps[1] != 0
    ensures LagrangeColumn(Skewed(ps), ps[0]) != LagrangeColumn(Product(ps), ps[0])
  {
    hide Add, Mul, Inv, Eval, Quotient, Skewed, Product;
    var k := |ps|;
    var x := ps[0];
    var c, d := Skewed(ps), Product(ps);
    var b, e := Quotient(c + [1], x), Quotient(d + [1], x);
    var s, t := Inv(Eval(b, x)), Inv(Eval(e, x));
    SkewedGap(ps);
    MulNonzero(ps[0], ps[1]);
    AddLaws(c[k - 2], d[k - 2]);
    LagrangeBasis(ps, 0, 0);
    MulInv(Eval(e, x));
    TopCoefficients(c, x);
    TopCoefficients(d, x);
    var rest := Mul(x, Add(c[k - 1], x));
    if Scale(s, b) == Scale(t, e) {
      assert Mul(s, 1) == Scale(s, b)[k - 1] == Scale(t, e)[k - 1] == Mul(t, 1);
      MulOne(s);
      MulOne(t);
      assert Mul(t, Add(c[k - 2], rest)) == Scale(t, b)[k - 3] == Scale(t, e)[k - 3] == Mul(t, Add(d[k - 2], rest));
      MulDistrib(t, Add(c[k - 2], rest), Add(d[k - 2], rest));
      AddLaws(Mul(t, Add(c[k - 2], rest)), Mul(t, Add(d[k - 2], rest)));
      AddSwap(c[k - 2], rest, d[k - 2], rest);
      AddLaws(rest, rest);
      AddLaws(Add(c[k - 2], d[k - 2]), 0);
      MulNonzero(t, Add(c[k - 2], d[k - 2]));
    }
  }

  lemma {:induction false} TopCoefficients(c: Vec, x: bv8)
    requires |c| >= 3
    ensures Quotient(c + [1], x)[|c| - 1] == 1
    ensures Quotient(c + [1], x)[|c| - 3] == Add(c[|c| - 2], Mul(x, Add(c[|c| - 1], x)))
  {
    hide Add, Mul, Quotient;
    var k := |c|;
    var d := c + [1];
    var d1, d2 := d[k - 1..], d[k - 2..];
    assert d[k..] == [1] == d1[1..];
    EvalOne(x);
    MulOne(x);
    assert Eval(d1, x) == Add(c[k - 1], x);
    assert d2[1..] == d1;
  }
}

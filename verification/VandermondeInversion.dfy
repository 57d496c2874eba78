/** invert_vdm of lib/libfec.c. */
module VandermondeInversion {
  import opened Gf256
  import opened LinearAlgebra
  import opened Polynomials
  import opened Vandermonde
  import opened FecTables
  import opened FecMatrix

  /** One stage of the accumulation, by position. */
  lemma SkewedStep(ps: seq<bv8>, i: nat, next: Vec)
    requires 1 <= i < |ps| && |next| == i + 1 && next[0] == 0
    requires var c := Skewed(ps[..i]);
      && next[i] == Add(c[i - 1], ps[i])
      && forall q :: 1 <= q < i ==> next[q] == Add(c[q - 1], Mul(ps[i], c[q]))
    ensures next == Skewed(ps[..i + 1])
  {
    hide Add, Mul, Skewed;
    var c, p := Skewed(ps[..i]), ps[i];
    MulOne(p);
    SkewedNext(ps[..i + 1], i);
    assert ps[..i + 1][..i] == ps[..i];
    var t := Times(c, p)[0 := 0];
    forall q | 0 <= q <= i
      ensures next[q] == t[q]
    {
      if q > 0 {
        assert ([0] + c)[q] == c[q - 1];
      }
    }
  }

  lemma {:induction false} SkewedNext(ps: seq<bv8>, i: nat)
    requires |ps| == i + 1 >= 2
    ensures Skewed(ps) == Times(Skewed(ps[..i]), ps[i])[0 := 0]
  {
    hide Times;
  }

  method Coefficients(t: Tables, p: array<bv8>, c: array<bv8>, k: nat)
    requires t.Valid() && t.Apart(c) && c != p
    requires p.Length == c.Length == k && 2 <= k && forall i :: 0 <= i < k ==> c[i] == 0
    modifies c
    ensures c[..] == Skewed(p[..])
  {
    hide Add, Mul, Skewed, Tables.Valid;
    ghost var ps := p[..];
    c[k - 1] := p[0];
    SkewedBase(ps);
    for i := 1 to k
      invariant t.Valid() && p[..] == ps
      invariant c[k - i..] == Skewed(ps[..i])
      invariant forall q :: 0 <= q < k - i ==> c[q] == 0
    {
      ghost var old_c := c[k - i..];
      var p_i := p[i];
      for j := k - i to k - 1
        invariant t.Valid() && p[..] == ps
        invariant forall q :: 0 <= q < k - i ==> c[q] == 0
        invariant forall q :: k - i <= q < j ==> c[q] == Add(old_c[q - (k - i)], Mul(p_i, old_c[q + 1 - (k - i)]))
        invariant forall q :: j <= q < k ==> c[q] == old_c[q - (k - i)]
      {
        c[j] := Add(c[j], t.Times(p_i, c[j + 1]));
      }
      c[k - 1] := Add(c[k - 1], p_i);
      SkewedStep(ps, i, c[k - 1 - i..]);
    }
    assert c[0..] == c[..] && ps[..k] == ps;
  }

  lemma SkewedBase(ps: seq<bv8>)
    requires |ps| >= 1
    ensures Skewed(ps[..1]) == [ps[0]]
  {
    assert ps[..1] == [ps[0]];
  }

  lemma {:induction false} QuotientStep(c: Vec, x: bv8, i: nat)
    requires |c| >= 2 && i < |c| - 1
    ensures Quotient(c, x)[i] == Add(c[i + 1], if i + 2 < |c| then Mul(x, Quotient(c, x)[i + 1]) else 0)
  {
    hide Add, Mul;
    MulZero(x);
    assert c[i + 1..][1..] == c[i + 2..];
    assert Eval(c[i + 1..], x) == Add(c[i + 1], Mul(x, Eval(c[i + 2..], x)));
  }

  /** Synthetic division by (X - xx), with the value of the quotient at xx gathered on the way. */
  method Divide(t: Tables, c: array<bv8>, b: array<bv8>, k: nat, xx: bv8) returns (v: bv8)
    requires t.Valid() && t.Apart(b) && b != c && b.Length == c.Length == k && 2 <= k
    modifies b
    ensures b[..] == Quotient(c[..] + [1], xx) && v == Eval(b[..], xx)
  {
    hide Add, Mul, Eval, Quotient, Tables.Valid;
    ghost var full := c[..] + [1];
    ghost var q := Quotient(full, xx);
    v := 1;
    b[k - 1] := 1;
    QuotientStep(full, xx, k - 1);
    AddLaws(1, 0);
    EvalOne(xx);
    assert b[k - 1..] == [1];
    var i := k - 2;
    while i >= 0
      invariant -1 <= i <= k - 2
      invariant t.Valid() && c[..] + [1] == full
      invariant forall j :: i + 1 <= j < k ==> b[j] == q[j]
      invariant v == Eval(b[i + 1..], xx)
    {
      QuotientStep(full, xx, i);
      ghost var rest := b[i + 1..];
      b[i] := Add(c[i + 1], t.Times(xx, b[i + 1]));
      assert b[i..] == [b[i]] + rest;
      EvalCons(b[i], rest, xx);
      v := Add(t.Times(xx, v), b[i]);
      i := i - 1;
    }
    assert b[0..] == b[..];
  }

  lemma {:induction false} EvalCons(a: bv8, c: Vec, x: bv8)
    ensures Eval([a] + c, x) == Add(Mul(x, Eval(c, x)), a)
  {
    hide Add, Mul;
    assert ([a] + c)[1..] == c;
    AddLaws(a, Mul(x, Eval(c, x)));
  }

  method StoreColumn(t: Tables, src: array<bv8>, k: nat, row: nat, b: array<bv8>, q: bv8)
    requires t.Valid() && t.Apart(src) && src != b && b.Length == k && row < k && Offset(k, k) <= src.Length
    modifies src
    ensures forall p :: Offset(k, k) <= p < src.Length ==> src[p] == old(src[p])
    ensures forall i :: 0 <= i < k ==>
      Rows(src[..], 0, k, k)[i] == old(Rows(src[..], 0, k, k))[i][row := Mul(q, b[i])]
  {
    hide Mul, Row, Rows, Offset, Tables.Valid;
    ghost var m := Rows(src[..], 0, k, k);
    ghost var bs := b[..];
    for col := 0 to k
      invariant t.Valid() && b[..] == bs
      invariant forall p :: Offset(k, k) <= p < src.Length ==> src[p] == old(src[p])
      invariant forall i :: 0 <= i < k ==>
        Rows(src[..], 0, k, k)[i] == if i < col then m[i][row := Mul(q, bs[i])] else m[i]
    {
      ghost var before := src[..];
      RowFits(col, k, k);
      var cell := Offset(col, k) + row;
      src[cell] := t.Times(q, b[col]);
      CellStored(before, src[..], k, col, row, src[cell]);
    }
  }

  /** Storing one entry of a matrix. */
  lemma CellStored(before: Vec, after: Vec, k: nat, col: nat, row: nat, v: bv8)
    requires col < k && row < k && Offset(k, k) <= |before| && Offset(col, k) + k <= |before|
    requires after == before[Offset(col, k) + row := v]
    ensures Rows(after, 0, k, k) == Rows(before, 0, k, k)[col := Rows(before, 0, k, k)[col][row := v]]
  {
    hide Row, Offset;
    RowAt(before, 0, k, k, col);
    RowChanged(before, after, 0, k, k, col);
    StoredCell(before, Offset(col, k), k, row, v);
  }

  /** Copy the points from the second column, and clear the coefficients. */
  method ReadPoints(src: array<bv8>, c: array<bv8>, p: array<bv8>, k: nat, ghost ps: seq<bv8>)
    requires 2 <= k == |ps| == c.Length == p.Length && Offset(k, k) <= src.Length
    requires c != src && p != src && c != p && Rows(src[..], 0, k, k) == Matrix(ps)
    modifies c, p
    ensures p[..] == ps && c[..] == Zeros(k)
  {
    hide Row, Offset, Power;
    ghost var s := src[..];
    var j := 1;
    OffsetStart(k);
    for i := 0 to k
      invariant j == Offset(i, k) + 1 && src[..] == s
      invariant forall q :: 0 <= q < i ==> c[q] == 0 && p[q] == ps[q]
    {
      c[i] := 0;
      RowAt(s, 0, k, k, i);
      PowersSecond(ps[i], k);
      p[i] := src[j];
      OffsetNext(i, k);
      j := j + k;
    }
  }

  method StoreInverse(t: Tables, src: array<bv8>, k: nat, c: array<bv8>, p: array<bv8>)
    requires t.Valid() && t.Apart(src) && src != c && src != p
    requires 2 <= k == c.Length == p.Length && Offset(k, k) <= src.Length && c[..] == Skewed(p[..])
    modifies src
    ensures forall q :: Offset(k, k) <= q < src.Length ==> src[q] == old(src[q])
    ensures Rows(src[..], 0, k, k) == Stored(p[..])
  {
    hide Row, Offset, Skewed, Quotient, Eval, LagrangeColumn, Mul, Inv, Tables.Valid;
    var b := new bv8[k];
    ghost var ps, cs := p[..], c[..];
    for row := 0 to k
      invariant t.Valid() && p[..] == ps && c[..] == cs
      invariant forall q :: Offset(k, k) <= q < src.Length ==> src[q] == old(src[q])
      invariant forall i, l :: 0 <= i < k && 0 <= l < row ==>
        Rows(src[..], 0, k, k)[i][l] == LagrangeColumn(cs, ps[l])[i]
    {
      var v := Divide(t, c, b, k, p[row]);
      ColumnIs(cs, ps[row], b[..], v);
      StoreColumn(t, src, k, row, b, t.Inverse(v));
    }
    forall i | 0 <= i < k
      ensures Rows(src[..], 0, k, k)[i] == Stored(ps)[i]
    {}
  }

  /**
   * Replace the Vandermonde matrix of the points ps in the first rows of src. Only the second
   * column, which holds the points, is read.
   */
  method InvertVdm(t: Tables, src: array<bv8>, k: nat, ghost ps: seq<bv8>)
    requires t.Valid() && t.Apart(src) && 1 <= k == |ps| && Offset(k, k) <= src.Length
    requires Rows(src[..], 0, k, k) == Matrix(ps)
    modifies src
    ensures forall p :: Offset(k, k) <= p < src.Length ==> src[p] == old(src[p])
    ensures Rows(src[..], 0, k, k) == Stored(ps)
    ensures Distinct(ps) ==>
      (Inverse(Matrix(ps), Rows(src[..], 0, k, k), k) <==> k <= 2 || ps[0] == 0 || ps[1] == 0)
  {
    hide Row, Rows, Offset, Skewed, Matrix, Stored, Inverse, Tables.Valid;
    if Distinct(ps) { StoredIsInverse(ps); }
    if k == 1 {
      StoredSingle(ps);
      return;
    }
    var c, p := new bv8[k], new bv8[k];
    ReadPoints(src, c, p, k, ps);
    Coefficients(t, p, c, k);
    StoreInverse(t, src, k, c, p);
  }

  lemma {:induction false} ColumnIs(c: Vec, x: bv8, b: Vec, v: bv8)
    requires b == Quotient(c + [1], x) && v == Eval(b, x)
    ensures forall i :: 0 <= i < |c| ==> LagrangeColumn(c, x)[i] == Mul(Inv(v), b[i])
  {
    hide Mul, Inv, Eval, Quotient;
  }

  lemma OffsetStart(k: nat)
    ensures Offset(0, k) == 0
  {}

  lemma OffsetNext(i: nat, k: nat)
    ensures Offset(i + 1, k) == Offset(i, k) + k
  {}

  lemma PowersSecond(x: bv8, k: nat)
    requires k >= 2
    ensures Powers(x, k)[1] == x
  {
    hide Mul;
    MulOne(x);
    assert Power(x, 1) == Mul(x, Power(x, 0));
  }

  lemma StoredSingle(ps: seq<bv8>)
    requires |ps| == 1
    ensures Stored(ps) == Matrix(ps)
  {
    hide Add, Mul, Inv;
    var x := ps[0];
    assert ([x] + [1])[1..] == [1];
    EvalOne(x);
    MulInv(1);
    MulOne(Inv(1));
    assert ps == [x];
    assert Quotient([x, 1], x) == [1];
    assert [x] + [1] == [x, 1];
    assert LagrangeColumn(Skewed(ps), x) == [1];
    assert Power(x, 0) == 1;
    assert Stored(ps)[0] == [1] == Matrix(ps)[0];
  }
}

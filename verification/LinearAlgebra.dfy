/** Vectors and matrices over GF(2^8), and the pivot exchange at the heart of Gauss-Jordan. */
module LinearAlgebra {
  import opened Gf256

  type Vec = seq<bv8>
  type Mat = seq<Vec>

  predicate Shape(a: Mat, rows: nat, cols: nat) {
    |a| == rows && forall i :: 0 <= i < rows ==> |a[i]| == cols
  }

  ghost function Dot(a: Vec, b: Vec): bv8
    requires |a| == |b|
  {
    if a == [] then 0 else Add(Mul(a[0], b[0]), Dot(a[1..], b[1..]))
  }

  function Plus(a: Vec, b: Vec): (r: Vec)
    requires |a| == |b|
    ensures |r| == |a| && forall i :: 0 <= i < |a| ==> r[i] == Add(a[i], b[i])
  {
    seq(|a|, i requires 0 <= i < |a| => Add(a[i], b[i]))
  }

  ghost function Scale(c: bv8, a: Vec): (r: Vec)
    ensures |r| == |a| && forall i :: 0 <= i < |a| ==> r[i] == Mul(c, a[i])
  {
    seq(|a|, i requires 0 <= i < |a| => Mul(c, a[i]))
  }

  function Zeros(k: nat): (r: Vec)
    ensures |r| == k && forall i :: 0 <= i < k ==> r[i] == 0
  {
    seq(k, _ => 0)
  }

  function Unit(k: nat, i: nat): (r: Vec)
    requires i < k
    ensures |r| == k && forall j :: 0 <= j < k ==> r[j] == if j == i then 1 else 0
  {
    Zeros(k)[i := 1]
  }

  ghost function Column(a: Mat, rows: nat, cols: nat, c: nat): (r: Vec)
    requires Shape(a, rows, cols) && c < cols
    ensures |r| == rows && forall i :: 0 <= i < rows ==> r[i] == a[i][c]
  {
    seq(rows, i requires 0 <= i < rows => a[i][c])
  }

  ghost function Apply(a: Mat, rows: nat, x: Vec): (r: Vec)
    requires Shape(a, rows, |x|)
    ensures |r| == rows && forall i :: 0 <= i < rows ==> r[i] == Dot(a[i], x)
  {
    seq(rows, i requires 0 <= i < rows => Dot(a[i], x))
  }

  /** The row vector v times the matrix a. */
  ghost function RowTimes(v: Vec, a: Mat, cols: nat): (r: Vec)
    requires Shape(a, |v|, cols)
    ensures |r| == cols && forall c :: 0 <= c < cols ==> r[c] == Dot(v, Column(a, |v|, cols, c))
  {
    seq(cols, c requires 0 <= c < cols => Dot(v, Column(a, |v|, cols, c)))
  }

  lemma {:induction false} DotComm(a: Vec, b: Vec)
    requires |a| == |b|
    ensures Dot(a, b) == Dot(b, a)
  {
    hide Add, Mul;
    if a != [] {
      DotComm(a[1..], b[1..]);
      MulComm(a[0], b[0]);
    }
  }

  lemma {:induction false} DotPlus(a: Vec, b: Vec, c: Vec)
    requires |a| == |b| == |c|
    ensures Dot(a, Plus(b, c)) == Add(Dot(a, b), Dot(a, c))
    ensures Dot(Plus(b, c), a) == Add(Dot(b, a), Dot(c, a))
  {
    hide Add, Mul;
    if a == [] {
      AddLaws(0, 0);
    } else {
      assert Plus(b, c)[1..] == Plus(b[1..], c[1..]);
      DotPlus(a[1..], b[1..], c[1..]);
      MulDistrib(a[0], b[0], c[0]);
      AddSwap(Mul(a[0], b[0]), Mul(a[0], c[0]), Dot(a[1..], b[1..]), Dot(a[1..], c[1..]));
    }
    DotComm(a, b);
    DotComm(a, c);
    DotComm(a, Plus(b, c));
  }

  lemma {:induction false} DotScale(a: Vec, c: bv8, b: Vec)
    requires |a| == |b|
    ensures Dot(a, Scale(c, b)) == Mul(c, Dot(a, b))
    ensures Dot(Scale(c, b), a) == Mul(c, Dot(b, a))
  {
    hide Add, Mul;
    if a == [] {
      MulZero(c);
    } else {
      assert Scale(c, b)[1..] == Scale(c, b[1..]);
      DotScale(a[1..], c, b[1..]);
      MulAssoc(a[0], c, b[0]);
      MulAssoc(c, a[0], b[0]);
      MulComm(a[0], c);
      MulDistrib(c, Mul(a[0], b[0]), Dot(a[1..], b[1..]));
    }
    DotComm(a, b);
    DotComm(a, Scale(c, b));
  }

  lemma {:induction false} DotZeros(a: Vec, z: Vec)
    requires |a| == |z| && forall i :: 0 <= i < |z| ==> z[i] == 0
    ensures Dot(a, z) == 0 && Dot(z, a) == 0
  {
    hide Add, Mul;
    if a != [] {
      DotZeros(a[1..], z[1..]);
      MulZero(a[0]);
      AddLaws(0, 0);
    }
    DotComm(a, z);
  }

  /** The contribution of position c to an inner product, separated from the rest. */
  lemma {:induction false} DotSplit(a: Vec, z: Vec, c: nat, u: bv8)
    requires |a| == |z| && c < |a|
    ensures Dot(a, z) == Add(Mul(a[c], z[c]), Dot(a[c := 0], z))
    ensures Dot(a[c := 0], z[c := u]) == Dot(a[c := 0], z)
  {
    hide Add, Mul;
    MulZero(z[c]);
    MulZero(u);
    AddLaws(Dot(a[1..], z[1..]), 0);
    if c != 0 {
      DotSplit(a[1..], z[1..], c - 1, u);
      assert a[c := 0][1..] == a[1..][c - 1 := 0];
      assert z[c := u][1..] == z[1..][c - 1 := u];
      var p, q, r := Mul(a[0], z[0]), Mul(a[c], z[c]), Dot(a[1..][c - 1 := 0], z[1..]);
      AddAssoc(p, q, r);
      AddAssoc(q, p, r);
      AddLaws(p, q);
    } else {
      assert a[c := 0][1..] == a[1..];
      assert z[c := u][1..] == z[1..];
    }
  }

  lemma {:induction false} DotUnit(a: Vec, i: nat)
    requires i < |a|
    ensures Dot(a, Unit(|a|, i)) == a[i] && Dot(Unit(|a|, i), a) == a[i]
  {
    hide Add, Mul;
    var e := Unit(|a|, i);
    DotSplit(e, a, i, 0);
    DotZeros(a, e[i := 0]);
    MulOne(a[i]);
    AddLaws(a[i], 0);
    DotComm(a, e);
  }

  /** (v * a) * x == v * (a * x). */
  lemma {:induction false} DotAssoc(v: Vec, a: Mat, cols: nat, x: Vec)
    requires Shape(a, |v|, cols) && |x| == cols
    ensures Dot(RowTimes(v, a, cols), x) == Dot(v, Apply(a, |v|, x))
  {
    hide Add, Mul;
    if v == [] {
      DotZeros(x, RowTimes(v, a, cols));
    } else {
      var rest := RowTimes(v[1..], a[1..], cols);
      forall c | 0 <= c < cols
        ensures RowTimes(v, a, cols)[c] == Plus(Scale(v[0], a[0]), rest)[c]
      {
        assert Column(a, |v|, cols, c)[1..] == Column(a[1..], |v| - 1, cols, c);
      }
      assert RowTimes(v, a, cols) == Plus(Scale(v[0], a[0]), rest);
      DotPlus(x, Scale(v[0], a[0]), rest);
      DotScale(x, v[0], a[0]);
      DotAssoc(v[1..], a[1..], cols, x);
      assert Apply(a, |v|, x)[1..] == Apply(a[1..], |v| - 1, x);
    }
  }

  // Systems of equations.

  ghost predicate Solves(a: Mat, k: nat, x: Vec, y: Vec)
    requires Shape(a, k, k) && |x| == |y| == k
  {
    forall i :: 0 <= i < k ==> y[i] == Dot(a[i], x)
  }

  /** Only the zero vector is mapped to zero. */
  ghost predicate Nonsingular(a: Mat, k: nat)
    requires Shape(a, k, k)
  {
    forall x: Vec :: |x| == k && Solves(a, k, x, Zeros(k)) ==> x == Zeros(k)
  }

  /** b undoes a, from both sides. */
  ghost predicate Inverse(a: Mat, b: Mat, k: nat)
    requires Shape(a, k, k) && Shape(b, k, k)
  {
    forall x: Vec, y: Vec :: |x| == |y| == k ==> (Solves(a, k, x, y) <==> Solves(b, k, y, x))
  }

  /** The pivot row after scaling, and the matrix after eliminating column c with it, in place. */
  ghost function PivotRow(row: Vec, c: nat): Vec
    requires c < |row|
  {
    Scale(Inv(row[c]), row[c := 1])
  }

  ghost function Sweep(b: Mat, k: nat, c: nat): (r: Mat)
    requires Shape(b, k, k) && c < k
    ensures Shape(r, k, k)
    ensures r[c] == PivotRow(b[c], c)
    ensures forall i :: 0 <= i < k && i != c ==> r[i] == Plus(b[i][c := 0], Scale(b[i][c], PivotRow(b[c], c)))
  {
    seq(k, i requires 0 <= i < k =>
      if i == c then PivotRow(b[c], c) else Plus(b[i][c := 0], Scale(b[i][c], PivotRow(b[c], c))))
  }

  lemma PivotRowSolves(row: Vec, z: Vec, c: nat, w: bv8)
    requires |row| == |z| && c < |row| && row[c] != 0
    ensures w == Dot(row, z) <==> z[c] == Dot(PivotRow(row, c), z[c := w])
  {
    hide Add, Mul, Inv, Dot;
    var p, rest := row[c], Dot(row[c := 0], z);
    var q := Inv(p);
    DotSplit(row, z, c, w);
    DotSplit(row[c := 1], z[c := w], c, w);
    assert row[c := 1][c := 0] == row[c := 0];
    DotScale(z[c := w], q, row[c := 1]);
    MulOne(w);
    MulInv(p);
    assert Dot(row, z) == Add(Mul(p, z[c]), rest);
    assert Dot(PivotRow(row, c), z[c := w]) == Mul(q, Add(w, rest));
    // w == p * z[c] + rest  <==>  w + rest == p * z[c]  <==>  q * (w + rest) == z[c]
    AddLaws(Mul(p, z[c]), rest);
    AddLaws(w, rest);
    MulAssoc(q, p, z[c]);
    MulAssoc(p, q, Add(w, rest));
    MulOne(z[c]);
    MulOne(Add(w, rest));
  }

  /** Pivoting on (c, c) exchanges the unknown z[c] with the right-hand side w[c]. */
  lemma Exchange(b: Mat, k: nat, c: nat, z: Vec, w: Vec)
    requires Shape(b, k, k) && c < k && b[c][c] != 0 && |z| == |w| == k
    ensures Solves(b, k, z, w) <==> Solves(Sweep(b, k, c), k, z[c := w[c]], w[c := z[c]])
  {
    hide Add, Mul, Dot, PivotRow;
    var s, z', w' := Sweep(b, k, c), z[c := w[c]], w[c := z[c]];
    PivotRowSolves(b[c], z, c, w[c]);
    assert w[c] == Dot(b[c], z) <==> w'[c] == Dot(s[c], z');
    if w[c] == Dot(b[c], z) {
      forall i | 0 <= i < k && i != c
        ensures Dot(b[i], z) == Dot(s[i], z')
      {
        var pr := PivotRow(b[c], c);
        DotPlus(z', b[i][c := 0], Scale(b[i][c], pr));
        DotScale(z', b[i][c], pr);
        DotSplit(b[i], z, c, w[c]);
        AddLaws(Mul(b[i][c], z[c]), Dot(b[i][c := 0], z));
      }
    }
  }
}

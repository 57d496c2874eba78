/** fec_new, fec_encode and fec_decode of lib/libfec.c. */
module Fec {
  import opened Gf256
  import opened LinearAlgebra
  import opened Polynomials
  import opened Vandermonde
  import opened ErasureCode
  import opened FecTables
  import opened FecMatrix
  import opened VandermondeInversion

  /** A code descriptor: the parameters and the encoding matrix. */
  class FecParms {
    const k: nat
    const n: nat
    const encMatrix: array<bv8>

    ghost predicate Valid()
      reads encMatrix
    {
      && 1 <= k <= n <= 256
      && encMatrix.Length == Offset(n, k)
      && Rows(encMatrix[..], 0, n, k) == Encoder(k, n)
    }

    constructor (k: nat, n: nat, encMatrix: array<bv8>)
      ensures this.k == k && this.n == n && this.encMatrix == encMatrix
    {
      this.k, this.n, this.encMatrix := k, n, encMatrix;
    }
  }

  lemma {:induction false} PowerOfPow(row: nat, col: nat)
    ensures Power(Pow(row), col) == Pow(row * col)
  {
    hide Pow, Mul;
    if col == 0 {
      assert row * 0 == 0;
      PowZero();
    } else {
      PowerOfPow(row, col - 1);
      assert row * col == row * (col - 1) + row;
      PowProduct(row, row * (col - 1));
    }
  }

  lemma PowZero()
    ensures Pow(0) == 1
  {}

  lemma PowProduct(m: nat, n: nat)
    ensures Mul(Pow(m), Pow(n)) == Pow(n + m)
  {
    hide Shift;
    MulPow(m, Pow(n));
    PowAdd(m, n);
  }

  lemma {:induction false} PowerOfZero(j: nat)
    ensures Power(0, j) == if j == 0 then 1 else 0
  {
    hide Mul;
    if j != 0 { MulZero(Power(0, j - 1)); }
  }

  /** Fill m with n rows of powers of the evaluation points. */
  method FillPowers(t: Tables, m: array<bv8>, k: nat, n: nat)
    requires t.Valid() && t.Apart(m) && 1 <= k <= n <= 256 && m.Length == Offset(n, k)
    modifies m
    ensures forall i :: 0 <= i < n ==> Rows(m[..], 0, n, k)[i] == Powers(Points(n)[i], k)
  {
    hide Row, Rows, Offset, Powers, Pow, Tables.Valid;
    FillFirst(m, k, n);
    var p := k;
    OffsetStart(k);
    OffsetNext(0, k);
    for row := 0 to n - 1
      invariant t.Valid() && p == Offset(row + 1, k)
      invariant forall i :: 0 <= i <= row ==> Rows(m[..], 0, n, k)[i] == Powers(Points(n)[i], k)
    {
      RowFits(row + 1, n, k);
      ghost var before := m[..];
      FillRow(t, m, p, k, row);
      RowChanged(before, m[..], 0, n, k, row + 1);
      OffsetNext(row + 1, k);
      p := p + k;
    }
  }

  /** The first row, for the point 0, cannot be computed with the tables. */
  method FillFirst(m: array<bv8>, k: nat, n: nat)
    requires 1 <= k <= n && m.Length == Offset(n, k)
    modifies m
    ensures Rows(m[..], 0, n, k)[0] == Powers(0, k)
  {
    hide Row, Offset, Power;
    RowFits(0, n, k);
    OffsetStart(k);
    m[0] := 1;
    PowerOfZero(0);
    for col := 1 to k
      invariant forall j :: 0 <= j < col ==> m[j] == Power(0, j)
    {
      PowerOfZero(col);
      m[col] := 0;
    }
    RowAt(m[..], 0, n, k, 0);
  }

  method FillRow(t: Tables, m: array<bv8>, p: nat, k: nat, row: nat)
    requires t.Valid() && t.Apart(m) && p + k <= m.Length
    modifies m
    ensures m[p..p + k] == Powers(Pow(row), k)
    ensures forall q :: 0 <= q < m.Length && !(p <= q < p + k) ==> m[q] == old(m[q])
  {
    hide Power, Pow, Tables.Valid;
    for col := 0 to k
      invariant t.Valid()
      invariant forall q :: 0 <= q < m.Length && !(p <= q < p + k) ==> m[q] == old(m[q])
      invariant forall q :: p <= q < p + col ==> m[q] == Power(Pow(row), q - p)
    {
      ProductSign(row, col);
      var e := ModNN(row * col);
      PowerOfPow(row, col);
      PowMod(row * col);
      ExpLookup(t, e);
      m[p + col] := t.exp[e];
    }
  }

  lemma ProductSign(a: nat, b: nat)
    ensures a * b >= 0
  {}

  lemma ExpLookup(t: Tables, e: nat)
    requires t.Valid() && e < 255
    ensures t.exp.Length == 510 && t.exp[e] == Pow(e)
  {}

  /** Part of a buffer as rows, whatever comes before it. */
  lemma RowsBelow(s: Vec, n: nat, k: nat, m: nat, r: nat)
    requires k <= n && r < n - k && Offset(n, m) <= |s|
    ensures Offset(k, m) + Offset(n - k, m) == Offset(n, m)
    ensures Rows(s, Offset(k, m), n - k, m)[r] == Rows(s, 0, n, m)[k + r]
  {
    OffsetSum(k, n - k, m);
    OffsetSum(k, r, m);
    hide Offset;
    RowAt(s, Offset(k, m), n - k, m, r);
    RowAt(s, 0, n, m, k + r);
  }

  lemma OffsetSum(a: nat, b: nat, m: nat)
    ensures Offset(a, m) + Offset(b, m) == Offset(a + b, m)
  {}

  /** Write the identity into the first k rows. */
  method WriteIdentity(m: array<bv8>, k: nat, n: nat)
    requires k <= n && m.Length == Offset(n, k)
    modifies m
    ensures forall i :: 0 <= i < k ==> Rows(m[..], 0, n, k)[i] == Unit(k, i)
    ensures forall i :: k <= i < n ==> Rows(m[..], 0, n, k)[i] == old(Rows(m[..], 0, n, k))[i]
  {
    hide Row, Offset;
    ghost var before := m[..];
    OffsetSum(k, n - k, k);
    for p := 0 to Offset(k, k)
      invariant forall q :: 0 <= q < p ==> m[q] == 0
      invariant m[p..] == before[p..]
    {
      m[p] := 0;
    }
    ghost var cleared := m[..];
    RowsKept(before, cleared, k, n);
    RowsCleared(cleared, k, n);
    for col := 0 to k
      invariant forall i :: 0 <= i < n ==>
        Rows(m[..], 0, n, k)[i] == if i < col then Unit(k, i) else Rows(cleared, 0, n, k)[i]
    {
      SetInRow(m, k, n, col, col);
    }
  }

  /** Set one entry to 1. */
  method SetInRow(m: array<bv8>, k: nat, n: nat, row: nat, col: nat)
    requires m.Length == Offset(n, k) && row < n && col < k
    modifies m
    ensures Rows(m[..], 0, n, k) == var r := old(Rows(m[..], 0, n, k)); r[row := r[row][col := 1]]
  {
    hide Row, Offset;
    ghost var before := m[..];
    RowAt(before, 0, n, k, row);
    var p := Offset(row, k);
    m[p + col] := 1;
    RowChanged(before, m[..], 0, n, k, row);
    assert m[..][p..p + k] == before[p..p + k][col := 1];
  }

  lemma RowsCleared(s: Vec, k: nat, n: nat)
    requires k <= n && |s| == Offset(n, k) && Offset(k, k) <= |s|
    requires forall q :: 0 <= q < Offset(k, k) ==> s[q] == 0
    ensures forall i :: 0 <= i < k ==> Rows(s, 0, n, k)[i] == Zeros(k)
  {
    hide Row, Offset;
    forall i | 0 <= i < k
      ensures Rows(s, 0, n, k)[i] == Zeros(k)
    {
      RowFits(i, k, k);
      RowAt(s, 0, n, k, i);
    }
  }

  /** Powers of all n points, the top square of them inverted in place. */
  method InvertTop(t: Tables, m: array<bv8>, k: nat, n: nat)
    requires t.Valid() && t.Apart(m) && 1 <= k <= n <= 256 && m.Length == Offset(n, k)
    modifies m
    ensures Offset(k, k) <= m.Length && Rows(m[..], 0, k, k) == Stored(Points(k))
    ensures forall i :: k <= i < n ==> Rows(m[..], 0, n, k)[i] == Powers(Points(n)[i], k)
  {
    hide Row, Rows, Offset, Powers, Power, Pow, Points, Matrix, Stored, Inverse, Distinct, Tables.Valid;
    FillPowers(t, m, k, n);
    ghost var before := m[..];
    OffsetSum(k, n - k, k);
    TopPowers(before, k, n);
    InvertVdm(t, m, k, Points(k));
    RowsKept(before, m[..], k, n);
  }

  /** Build the encoding matrix: the identity, and the lower powers times the inverse of the top ones. */
  method BuildEncoder(t: Tables, enc: array<bv8>, m: array<bv8>, k: nat, n: nat)
    requires t.Valid() && t.Apart(enc) && t.Apart(m) && enc != m
    requires 1 <= k <= n <= 256 && enc.Length == m.Length == Offset(n, k)
    modifies enc, m
    ensures Rows(enc[..], 0, n, k) == Encoder(k, n)
  {
    hide Row, Offset, Power, Pow, Stored, RowTimes, Encoder, Tables.Valid;
    InvertTop(t, m, k, n);
    OffsetSum(k, n - k, k);
    MatMul(t, m, Offset(k, k), m, enc, Offset(k, k), n - k, k, k);
    BottomRows(m[..], enc[..], k, n, n - k);
    WriteIdentity(enc, k, n);
    RowsAreEncoder(Rows(enc[..], 0, n, k), k, n);
  }

  /** Create a code for k source packets and n packets in all; null for invalid parameters. */
  method FecNew(t: Tables, k: int, n: int) returns (code: FecParms?)
    requires t.Valid() && (k <= n <= GF_SIZE + 1 ==> 1 <= k)
    ensures code == null <==> k > GF_SIZE + 1 || n > GF_SIZE + 1 || k > n
    ensures code != null ==> fresh(code) && fresh(code.encMatrix) && code.Valid() && code.k == k && code.n == n
  {
    hide Row, Offset, Encoder;
    if k > GF_SIZE + 1 || n > GF_SIZE + 1 || k > n {
      return null;
    }
    var enc := new bv8[Offset(n, k)];
    var m := new bv8[Offset(n, k)];
    BuildEncoder(t, enc, m, k, n);
    code := new FecParms(k, n, enc);
  }

  lemma TopPowers(s: Vec, k: nat, n: nat)
    requires k <= n && Offset(n, k) <= |s|
    requires forall i :: 0 <= i < n ==> Rows(s, 0, n, k)[i] == Powers(Points(n)[i], k)
    ensures Offset(k, k) <= |s| && Rows(s, 0, k, k) == Matrix(Points(k))
  {
    OffsetSum(k, n - k, k);
    hide Offset, Row, Power, Pow;
    forall i | 0 <= i < k
      ensures Rows(s, 0, k, k)[i] == Matrix(Points(k))[i]
    {
      RowAt(s, 0, k, k, i);
      RowAt(s, 0, n, k, i);
      assert Points(n)[i] == Points(k)[i];
    }
  }

  /** Rows beyond the top square depend only on what is stored after it. */
  lemma RowsKept(s: Vec, s': Vec, k: nat, n: nat)
    requires k <= n && |s| == |s'| == Offset(n, k)
    requires forall p :: Offset(k, k) <= p < |s| ==> s'[p] == s[p]
    ensures forall i :: k <= i < n ==> Rows(s', 0, n, k)[i] == Rows(s, 0, n, k)[i]
  {
    hide Row, Offset;
    forall i | k <= i < n
      ensures Rows(s', 0, n, k)[i] == Rows(s, 0, n, k)[i]
    {
      RowAt(s, 0, n, k, i);
      RowAt(s', 0, n, k, i);
      if i > k { RowFits(k, i, k); }
    }
  }

  /** The rows below the identity after the multiplication. */
  lemma BottomRows(m: Vec, enc: Vec, k: nat, n: nat, d: nat)
    requires k + d == n && |m| == |enc| == Offset(n, k) && Offset(k, k) + Offset(d, k) == Offset(n, k)
    requires forall i :: k <= i < n ==> Rows(m, 0, n, k)[i] == Powers(Points(n)[i], k)
    requires Rows(m, 0, k, k) == Stored(Points(k))
    requires forall r :: 0 <= r < d ==>
      Rows(enc, Offset(k, k), d, k)[r] == RowTimes(Rows(m, Offset(k, k), d, k)[r], Rows(m, 0, k, k), k)
    ensures forall i :: k <= i < n ==> Rows(enc, 0, n, k)[i] == RowTimes(Powers(Points(n)[i], k), Stored(Points(k)), k)
  {
    hide Row, Offset, Power, Pow, Stored, RowTimes;
    forall i | k <= i < n
      ensures Rows(enc, 0, n, k)[i] == RowTimes(Powers(Points(n)[i], k), Stored(Points(k)), k)
    {
      RowsBelow(enc, n, k, k, i - k);
      RowsBelow(m, n, k, k, i - k);
    }
  }

  lemma RowsAreEncoder(r: Mat, k: nat, n: nat)
    requires k <= n && Shape(r, n, k)
    requires forall i :: 0 <= i < k ==> r[i] == Unit(k, i)
    requires forall i :: k <= i < n ==> r[i] == RowTimes(Powers(Points(n)[i], k), Stored(Points(k)), k)
    ensures r == Encoder(k, n)
  {
    hide Power, Pow, Stored, RowTimes;
  }
}

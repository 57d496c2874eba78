/** Flat row-major matrices, and the linear algebra loops of lib/libfec.c on them. */
module FecMatrix {
  import opened Gf256
  import opened LinearAlgebra
  import opened FecTables

  /** Where a row starts in a row-major matrix. */
  function Offset(row: nat, width: nat): nat { row * width }

  lemma RowFits(i: nat, n: nat, k: nat)
    requires i < n
    ensures Offset(i, k) + k <= Offset(n, k)
  {
    assert n * k == i * k + k + (n - i - 1) * k;
    assert (n - i - 1) * k >= 0;
  }

  ghost function Row(s: Vec, off: nat, n: nat, k: nat, i: nat): (r: Vec)
    requires off + Offset(n, k) <= |s| && i < n
    ensures |r| == k
  {
    hide Offset;
    RowFits(i, n, k);
    s[off + Offset(i, k)..off + Offset(i, k) + k]
  }

  /** The matrix of n rows of k entries stored from off on. */
  ghost function Rows(s: Vec, off: nat, n: nat, k: nat): (r: Mat)
    requires off + Offset(n, k) <= |s|
    ensures Shape(r, n, k) && forall i :: 0 <= i < n ==> r[i] == Row(s, off, n, k, i)
  {
    hide Row, Offset;
    seq(n, i requires 0 <= i < n => Row(s, off, n, k, i))
  }

  lemma RowAt(s: Vec, off: nat, n: nat, k: nat, i: nat)
    requires off + Offset(n, k) <= |s| && i < n
    ensures off + Offset(i, k) + k <= |s|
    ensures Rows(s, off, n, k)[i] == s[off + Offset(i, k)..off + Offset(i, k) + k]
    ensures forall c :: 0 <= c < k ==> Rows(s, off, n, k)[i][c] == s[off + Offset(i, k) + c]
  {
    hide Offset;
    RowFits(i, n, k);
  }

  lemma SameSlice(s: Vec, t: Vec, p: nat, q: nat, k: nat)
    requires p + k <= |s| && q + k <= |t| && forall i :: p <= i < p + k ==> s[i] == t[i - p + q]
    ensures s[p..p + k] == t[q..q + k]
  {}

  lemma StoredCell(s: Vec, p: nat, k: nat, c: nat, v: bv8)
    requires p + k <= |s| && c < k
    ensures s[p + c := v][p..p + k] == s[p..p + k][c := v]
  {}

  /** Storing in one slice of a buffer changes it there, and leaves other slices alone. */
  lemma StoredSlice(s: Vec, p: nat, k: nat, c: nat, v: bv8, q: nat)
    requires p + k <= |s| && q + k <= |s| && c < k && (p + k <= q || q + k <= p)
    ensures s[p + c := v][p..p + k] == s[p..p + k][c := v]
    ensures s[p + c := v][q..q + k] == s[q..q + k]
  {}

  /** Changing a buffer inside one row changes that row only. */
  lemma RowChanged(s: Vec, s': Vec, off: nat, n: nat, k: nat, i: nat)
    requires off + Offset(n, k) <= |s| == |s'| && i < n
    requires forall p :: 0 <= p < |s| && !(off + Offset(i, k) <= p < off + Offset(i, k) + k) ==> s'[p] == s[p]
    ensures off + Offset(i, k) + k <= |s|
    ensures Rows(s', off, n, k) == Rows(s, off, n, k)[i := s'[off + Offset(i, k)..off + Offset(i, k) + k]]
  {
    hide Offset, Row;
    RowAt(s', off, n, k, i);
    forall j | 0 <= j < n && j != i
      ensures Rows(s', off, n, k)[j] == Rows(s, off, n, k)[j]
    {
      RowAt(s, off, n, k, j);
      RowAt(s', off, n, k, j);
      if j < i { RowFits(j, i, k); } else { RowFits(i, j, k); }
    }
  }

  /** dst[d..d+sz] ^= c * src[s..s+sz], sixteen at a time and then one by one. */
  method AddMul1(t: Tables, dst: array<bv8>, d: nat, src: array<bv8>, s: nat, c: bv8, sz: nat)
    requires t.Valid() && t.Apart(dst)
    requires d + sz <= dst.Length && s + sz <= src.Length
    requires dst == src ==> d + sz <= s || s + sz <= d
    modifies dst
    ensures forall p :: 0 <= p < dst.Length && !(d <= p < d + sz) ==> dst[p] == old(dst[p])
    ensures dst[d..d + sz] == Plus(old(dst[d..d + sz]), Scale(c, old(src[s..s + sz])))
  {
    hide Add, Mul, Tables.Valid;
    var i := 0;
    while i < sz - 15
      invariant 0 <= i <= sz
      invariant forall p :: 0 <= p < dst.Length ==>
        dst[p] == if d <= p < d + i then Add(old(dst[p]), Mul(c, old(src[p - d + s]))) else old(dst[p])
    {
      for j := 0 to 16
        invariant forall p :: 0 <= p < dst.Length ==>
          dst[p] == if d <= p < d + i + j then Add(old(dst[p]), Mul(c, old(src[p - d + s]))) else old(dst[p])
      {
        dst[d + i + j] := Add(dst[d + i + j], t.Times(c, src[s + i + j]));
      }
      i := i + 16;
    }
    while i < sz
      invariant 0 <= i <= sz
      invariant forall p :: 0 <= p < dst.Length ==>
        dst[p] == if d <= p < d + i then Add(old(dst[p]), Mul(c, old(src[p - d + s]))) else old(dst[p])
    {
      dst[d + i] := Add(dst[d + i], t.Times(c, src[s + i]));
      i := i + 1;
    }
  }

  /** The addmul macro: nothing to do when c is 0. */
  method AddMul(t: Tables, dst: array<bv8>, d: nat, src: array<bv8>, s: nat, c: bv8, sz: nat)
    requires t.Valid() && t.Apart(dst)
    requires d + sz <= dst.Length && s + sz <= src.Length
    requires dst == src ==> d + sz <= s || s + sz <= d
    modifies dst
    ensures forall p :: 0 <= p < dst.Length && !(d <= p < d + sz) ==> dst[p] == old(dst[p])
    ensures dst[d..d + sz] == Plus(old(dst[d..d + sz]), Scale(c, old(src[s..s + sz])))
  {
    if c != 0 {
      AddMul1(t, dst, d, src, s, c, sz);
    } else {
      PlusNothing(dst[d..d + sz], src[s..s + sz]);
    }
  }

  lemma PlusNothing(a: Vec, b: Vec)
    requires |a| == |b|
    ensures Plus(a, Scale(0, b)) == a
  {
    hide Add, Mul;
    forall i | 0 <= i < |a|
      ensures Plus(a, Scale(0, b))[i] == a[i]
    {
      MulZero(b[i]);
      AddLaws(a[i], 0);
    }
  }

  lemma {:induction false} DotSnoc(a: Vec, b: Vec, x: bv8, y: bv8)
    requires |a| == |b|
    ensures Dot(a + [x], b + [y]) == Add(Dot(a, b), Mul(x, y))
  {
    hide Add, Mul;
    if a == [] {
      AddLaws(Mul(x, y), 0);
    } else {
      DotSnoc(a[1..], b[1..], x, y);
      assert (a + [x])[1..] == a[1..] + [x] && (b + [y])[1..] == b[1..] + [y];
      AddAssoc(Mul(a[0], b[0]), Dot(a[1..], b[1..]), Mul(x, y));
    }
  }

  /** The inner product of a row of a and a column of b, by position. */
  method DotProduct(t: Tables, a: array<bv8>, ao: nat, b: array<bv8>, k: nat, m: nat, col: nat) returns (acc: bv8)
    requires t.Valid()
    requires ao + k <= a.Length && Offset(k, m) <= b.Length && col < m
    ensures acc == Dot(a[ao..ao + k], Column(Rows(b[..], 0, k, m), k, m, col))
  {
    hide Add, Mul, Dot, Offset, Row, Tables.Valid;
    ghost var row, column := a[ao..ao + k], Column(Rows(b[..], 0, k, m), k, m, col);
    acc := 0;
    DotEmpty();
    for i := 0 to k
      invariant t.Valid() && acc == Dot(row[..i], column[..i])
    {
      RowAt(b[..], 0, k, m, i);
      DotSnoc(row[..i], column[..i], row[i], column[i]);
      assert row[..i] + [row[i]] == row[..i + 1] && column[..i] + [column[i]] == column[..i + 1];
      acc := Add(acc, t.Times(a[ao + i], b[Offset(i, m) + col]));
    }
    assert row[..k] == row && column[..k] == column;
  }

  lemma DotEmpty()
    ensures Dot([], []) == 0
  {}

  /** c = a * b, for n rows of a. */
  method MatMul(t: Tables, a: array<bv8>, ao: nat, b: array<bv8>, c: array<bv8>, co: nat, n: nat, k: nat, m: nat)
    requires t.Valid() && t.Apart(c) && c != a && c != b
    requires ao + Offset(n, k) <= a.Length && Offset(k, m) <= b.Length && co + Offset(n, m) <= c.Length
    modifies c
    ensures forall r :: 0 <= r < n ==>
      Rows(c[..], co, n, m)[r] == RowTimes(Rows(a[..], ao, n, k)[r], Rows(b[..], 0, k, m), m)
  {
    hide Add, Mul, Dot, Offset, Row, Tables.Valid;
    for row := 0 to n
      invariant forall r :: 0 <= r < row ==>
        Rows(c[..], co, n, m)[r] == RowTimes(Rows(a[..], ao, n, k)[r], Rows(b[..], 0, k, m), m)
    {
      RowFits(row, n, k);
      RowFits(row, n, m);
      ghost var before := c[..];
      ghost var product := RowTimes(Rows(a[..], ao, n, k)[row], Rows(b[..], 0, k, m), m);
      for col := 0 to m
        invariant forall p :: 0 <= p < c.Length && !(co + Offset(row, m) <= p < co + Offset(row, m) + m) ==>
          c[p] == before[p]
        invariant forall q :: 0 <= q < col ==> c[co + Offset(row, m) + q] == product[q]
      {
        RowAt(a[..], ao, n, k, row);
        c[co + Offset(row, m) + col] := DotProduct(t, a, ao + Offset(row, k), b, k, m, col);
      }
      RowChanged(before, c[..], co, n, m, row);
      assert c[co + Offset(row, m)..co + Offset(row, m) + m] == product;
    }
  }
}

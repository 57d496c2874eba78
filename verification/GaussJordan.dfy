/** invert_mat of lib/libfec.c: in-place Gauss-Jordan inversion. */
module GaussJordan {
  import opened Gf256
  import opened LinearAlgebra
  import opened Elimination
  import opened FecTables
  import opened FecMatrix

  ghost predicate Flags(ipiv: seq<int>, used: seq<bool>) {
    |ipiv| == |used| && forall i :: 0 <= i < |ipiv| ==> ipiv[i] == if used[i] then 1 else 0
  }

  /** The diagonal first, and then any entry in a row and a column not used yet. */
  method FindPivot(m: array<bv8>, k: nat, ipiv: array<int>, col: nat, ghost used: seq<bool>)
    returns (irow: int, icol: int)
    requires m.Length == Offset(k, k) && ipiv.Length == k && col < k && Flags(ipiv[..], used)
    ensures icol == -1 ==>
      forall i, j :: 0 <= i < k && 0 <= j < k && !used[i] && !used[j] ==> Rows(m[..], 0, k, k)[i][j] == 0
    ensures icol != -1 ==>
      && 0 <= irow < k && 0 <= icol < k && !used[irow] && !used[icol]
      && Rows(m[..], 0, k, k)[irow][icol] != 0
  {
    hide Row, Offset;
    ghost var b := Rows(m[..], 0, k, k);
    irow, icol := -1, -1;
    RowAt(m[..], 0, k, k, col);
    if ipiv[col] != 1 && m[Offset(col, k) + col] != 0 {
      return col, col;
    }
    for row := 0 to k
      invariant irow == icol == -1
      invariant forall i, j :: 0 <= i < row && 0 <= j < k && !used[i] && !used[j] ==> b[i][j] == 0
    {
      if ipiv[row] != 1 {
        RowAt(m[..], 0, k, k, row);
        for ix := 0 to k
          invariant irow == icol == -1
          invariant forall j :: 0 <= j < ix && !used[j] ==> b[row][j] == 0
        {
          if ipiv[ix] == 0 {
            if m[Offset(row, k) + ix] != 0 {
              return row, ix;
            }
          } else if ipiv[ix] > 1 {
            assert false;
          }
        }
      }
    }
  }

  method SwapRows(m: array<bv8>, k: nat, i: nat, j: nat)
    requires m.Length == Offset(k, k) && i < k && j < k && i != j
    modifies m
    ensures Rows(m[..], 0, k, k) == Swap(old(Rows(m[..], 0, k, k)), i, j)
  {
    hide Row, Offset;
    ghost var before := m[..];
    RowsApart(k, i, j);
    SwapCells(m, Offset(i, k), Offset(j, k), k);
    RowsSwapped(before, m[..], k, i, j);
  }

  lemma RowsApart(k: nat, i: nat, j: nat)
    requires i < k && j < k && i != j
    ensures Offset(i, k) + k <= Offset(k, k) && Offset(j, k) + k <= Offset(k, k)
    ensures Offset(i, k) + k <= Offset(j, k) || Offset(j, k) + k <= Offset(i, k)
  {
    hide Offset;
    RowFits(i, k, k);
    RowFits(j, k, k);
    if i < j { RowFits(i, j, k); } else { RowFits(j, i, k); }
  }

  method SwapCells(m: array<bv8>, a: nat, b: nat, k: nat)
    requires a + k <= m.Length && b + k <= m.Length && (a + k <= b || b + k <= a)
    modifies m
    ensures m[a..a + k] == old(m[b..b + k]) && m[b..b + k] == old(m[a..a + k])
    ensures forall p :: 0 <= p < m.Length && !(a <= p < a + k) && !(b <= p < b + k) ==> m[p] == old(m[p])
  {
    ghost var r, s := m[a..a + k], m[b..b + k];
    for ix := 0 to k
      invariant forall p :: a <= p < a + k ==> m[p] == if p < a + ix then s[p - a] else r[p - a]
      invariant forall p :: b <= p < b + k ==> m[p] == if p < b + ix then r[p - b] else s[p - b]
      invariant forall p :: 0 <= p < m.Length && !(a <= p < a + k) && !(b <= p < b + k) ==> m[p] == old(m[p])
    {
      m[a + ix], m[b + ix] := m[b + ix], m[a + ix];
    }
  }

  predicate InRow(p: nat, i: nat, k: nat) {
    Offset(i, k) <= p < Offset(i, k) + k
  }

  lemma RowsSwapped(s: Vec, s': Vec, k: nat, i: nat, j: nat)
    requires |s| == |s'| == Offset(k, k) && i < k && j < k && i != j
    requires Offset(i, k) + k <= Offset(k, k) && Offset(j, k) + k <= Offset(k, k)
    requires s'[Offset(i, k)..Offset(i, k) + k] == s[Offset(j, k)..Offset(j, k) + k]
    requires s'[Offset(j, k)..Offset(j, k) + k] == s[Offset(i, k)..Offset(i, k) + k]
    requires forall p :: 0 <= p < Offset(k, k) && !InRow(p, i, k) && !InRow(p, j, k) ==> s'[p] == s[p]
    ensures Rows(s', 0, k, k) == Swap(Rows(s, 0, k, k), i, j)
  {
    hide Row, Offset;
    RowsApart(k, i, j);
    var a, b := Offset(i, k), Offset(j, k);
    var half := s[..a] + s'[a..a + k] + s[a + k..];
    RowChanged(s, half, 0, k, k, i);
    RowChanged(half, s', 0, k, k, j);
    RowAt(s, 0, k, k, i);
    RowAt(s, 0, k, k, j);
    assert half[a..a + k] == s'[a..a + k];
  }

  /** Divide the pivot row by the pivot, the pivot itself becoming its inverse. */
  method ScalePivot(t: Tables, m: array<bv8>, k: nat, c: nat)
    requires t.Valid() && t.Apart(m)
    requires m.Length == Offset(k, k) && c < k && Rows(m[..], 0, k, k)[c][c] != 0
    modifies m
    ensures Rows(m[..], 0, k, k) == old(Rows(m[..], 0, k, k))[c := PivotRow(old(Rows(m[..], 0, k, k))[c], c)]
  {
    hide Add, Mul, Row, Offset, Inv, Scale, Tables.Valid;
    ghost var before := m[..];
    ghost var row := Rows(before, 0, k, k)[c];
    RowAt(before, 0, k, k, c);
    var pivot := Offset(c, k);
    var p := m[pivot + c];
    if p == 0 {
      assert false;
    }
    if p != 1 {
      var q := t.Inverse(p);
      m[pivot + c] := 1;
      assert m[pivot..pivot + k] == row[c := 1];
      ScaleCells(t, m, pivot, k, q);
      RowChanged(before, m[..], 0, k, k, c);
    } else {
      UnitPivot(row, c);
      assert Rows(m[..], 0, k, k)[c := row] == Rows(m[..], 0, k, k);
    }
  }

  method ScaleCells(t: Tables, m: array<bv8>, a: nat, k: nat, q: bv8)
    requires t.Valid() && t.Apart(m) && a + k <= m.Length
    modifies m
    ensures m[a..a + k] == Scale(q, old(m[a..a + k]))
    ensures forall p :: 0 <= p < m.Length && !(a <= p < a + k) ==> m[p] == old(m[p])
  {
    hide Mul, Tables.Valid;
    for ix := 0 to k
      invariant forall p :: 0 <= p < m.Length ==> m[p] == if a <= p < a + ix then Mul(q, old(m[p])) else old(m[p])
    {
      m[a + ix] := t.Times(q, m[a + ix]);
    }
  }

  lemma UnitPivot(row: Vec, c: nat)
    requires c < |row| && row[c] == 1
    ensures PivotRow(row, c) == row
  {
    hide Mul, Inv;
    MulInv(1);
    MulOne(Inv(1));
    forall j | 0 <= j < |row|
      ensures PivotRow(row, c)[j] == row[j]
    {
      MulOne(row[j]);
    }
  }

  /** Subtract multiples of the pivot row from all other rows, unless it is a unit vector. */
  method EliminateRows(t: Tables, m: array<bv8>, k: nat, c: nat, idRow: array<bv8>, ghost b: Mat)
    requires t.Valid() && t.Apart(m) && m != idRow
    requires m.Length == Offset(k, k) && c < k && Shape(b, k, k)
    requires idRow[..] == Unit(k, c)
    requires Rows(m[..], 0, k, k) == b[c := PivotRow(b[c], c)]
    modifies m
    ensures Rows(m[..], 0, k, k) == Sweep(b, k, c)
  {
    hide Add, Mul, Row, Offset, Inv, PivotRow, Tables.Valid;
    RowAt(m[..], 0, k, k, c);
    var pivot := Offset(c, k);
    if m[pivot..pivot + k] != idRow[..] {
      ghost var s := Sweep(b, k, c);
      for ix := 0 to k
        invariant forall i :: 0 <= i < k ==>
          Rows(m[..], 0, k, k)[i] == if i < ix || i == c then s[i] else b[i]
      {
        if ix != c {
          EliminateRow(t, m, k, c, ix);
        }
      }
      assert Rows(m[..], 0, k, k) == s;
    } else {
      forall i | 0 <= i < k && i != c
        ensures Sweep(b, k, c)[i] == b[i]
      {
        UnitSweep(b[i], c);
      }
    }
  }

  method EliminateRow(t: Tables, m: array<bv8>, k: nat, c: nat, i: nat)
    requires t.Valid() && t.Apart(m)
    requires m.Length == Offset(k, k) && c < k && i < k && i != c
    modifies m
    ensures Rows(m[..], 0, k, k) == var b := old(Rows(m[..], 0, k, k));
      b[i := Plus(b[i][c := 0], Scale(b[i][c], b[c]))]
  {
    hide Add, Mul, Row, Rows, Offset, Tables.Valid, Plus, Scale;
    ghost var before := m[..];
    RowsApart(k, i, c);
    var p, pivot := Offset(i, k), Offset(c, k);
    var f := m[p + c];
    m[p + c] := 0;
    assert m[..] == before[p + c := 0];
    AddMul(t, m, p, m, pivot, f, k);
    RowEliminated(before, m[..], k, i, c);
  }

  lemma RowEliminated(s: Vec, t: Vec, k: nat, i: nat, c: nat)
    requires |s| == |t| == Offset(k, k) && i < k && c < k && i != c
    requires Offset(i, k) + k <= Offset(k, k) && Offset(c, k) + k <= Offset(k, k)
    requires forall q :: 0 <= q < |s| && !(Offset(i, k) <= q < Offset(i, k) + k) ==> t[q] == s[Offset(i, k) + c := 0][q]
    requires var z := s[Offset(i, k) + c := 0];
      t[Offset(i, k)..Offset(i, k) + k]
        == Plus(z[Offset(i, k)..Offset(i, k) + k], Scale(s[Offset(i, k) + c], z[Offset(c, k)..Offset(c, k) + k]))
    ensures var b := Rows(s, 0, k, k);
      Rows(t, 0, k, k) == b[i := Plus(b[i][c := 0], Scale(b[i][c], b[c]))]
  {
    hide Add, Mul, Row, Rows, Offset, Plus, Scale;
    RowsApart(k, i, c);
    StoredSlice(s, Offset(i, k), k, c, 0, Offset(c, k));
    RowAt(s, 0, k, k, i);
    RowAt(s, 0, k, k, c);
    RowChanged(s, t, 0, k, k, i);
  }

  /** Eliminating with a unit row changes nothing. */
  lemma UnitSweep(row: Vec, c: nat)
    requires c < |row|
    ensures Plus(row[c := 0], Scale(row[c], Unit(|row|, c))) == row
  {
    hide Add, Mul;
    forall j | 0 <= j < |row|
      ensures Plus(row[c := 0], Scale(row[c], Unit(|row|, c)))[j] == row[j]
    {
      MulZero(row[c]);
      MulOne(row[c]);
      AddLaws(row[j], 0);
    }
  }

  method SwapCols(m: array<bv8>, k: nat, i: nat, j: nat)
    requires m.Length == Offset(k, k) && i < k && j < k && i != j
    modifies m
    ensures Rows(m[..], 0, k, k) == SwapColumns(old(Rows(m[..], 0, k, k)), k, k, i, j)
  {
    hide Row, Offset, Swap;
    ghost var b := Rows(m[..], 0, k, k);
    for row := 0 to k
      invariant forall r :: 0 <= r < k ==> Rows(m[..], 0, k, k)[r] == if r < row then Swap(b[r], i, j) else b[r]
    {
      SwapInRow(m, k, row, i, j);
    }
    assert Rows(m[..], 0, k, k) == SwapColumns(b, k, k, i, j);
  }

  method SwapInRow(m: array<bv8>, k: nat, row: nat, i: nat, j: nat)
    requires m.Length == Offset(k, k) && row < k && i < k && j < k && i != j
    modifies m
    ensures Rows(m[..], 0, k, k) == var b := old(Rows(m[..], 0, k, k)); b[row := Swap(b[row], i, j)]
  {
    hide Row, Rows, Offset, Swap;
    ghost var before := m[..];
    RowAt(before, 0, k, k, row);
    var p := Offset(row, k);
    m[p + i], m[p + j] := m[p + j], m[p + i];
    RowChanged(before, m[..], 0, k, k, row);
    SwapSlice(before, m[..], p, k, i, j);
  }

  lemma SwapSlice(s: Vec, s': Vec, p: nat, k: nat, i: nat, j: nat)
    requires p + k <= |s| && i < k && j < k && i != j
    requires s' == s[p + i := s[p + j]][p + j := s[p + i]]
    ensures s'[p..p + k] == Swap(s[p..p + k], i, j)
  {}

  /** The permutations reached by the row swaps made so far, one for each pivot. */
  ghost predicate Trail(perms: seq<seq<nat>>, indxr: seq<int>, indxc: seq<int>, k: nat, n: nat) {
    && |indxr| == |indxc| == k && n <= k && |perms| == n + 1 && perms[0] == Identity(k)
    && (forall i :: 0 <= i <= n ==> Indices(perms[i], k))
    && (forall i :: 0 <= i < n ==> 0 <= indxr[i] < k && 0 <= indxc[i] < k)
    && (forall i :: 0 <= i < n ==> perms[i + 1] == Swap(perms[i], indxr[i], indxc[i]))
  }

  lemma TrailStep(perms: seq<seq<nat>>, indxr: seq<int>, indxc: seq<int>, k: nat, n: nat, i: nat, j: nat)
    requires Trail(perms, indxr, indxc, k, n) && n < k && i < k && j < k
    ensures Trail(perms + [Swap(perms[n], i, j)], indxr[n := i], indxc[n := j], k, n + 1)
  {}

  /** The bookkeeping of the elimination after n columns. */
  ghost predicate Progress(a: Mat, b: Mat, k: nat, n: nat, ipiv: seq<int>, indxr: seq<int>, indxc: seq<int>,
    used: seq<bool>, perms: seq<seq<nat>>)
  {
    && |used| == k && Flags(ipiv, used) && Count(used) == n
    && Trail(perms, indxr, indxc, k, n)
    && Partial(a, b, k, used, perms[n])
  }

  /** Normalise the pivot on the diagonal and clear its column. */
  method ClearColumn(t: Tables, m: array<bv8>, k: nat, c: nat, idRow: array<bv8>)
    requires t.Valid() && t.Apart(m) && t.Apart(idRow) && m != idRow && m.Length == Offset(k, k)
    requires idRow[..] == Zeros(k) && c < k && Rows(m[..], 0, k, k)[c][c] != 0
    modifies m, idRow
    ensures idRow[..] == Zeros(k)
    ensures Rows(m[..], 0, k, k) == Sweep(old(Rows(m[..], 0, k, k)), k, c)
  {
    hide Row, Offset, Sweep, PivotRow, Tables.Valid;
    ghost var b := Rows(m[..], 0, k, k);
    ScalePivot(t, m, k, c);
    idRow[c] := 1;
    EliminateRows(t, m, k, c, idRow, b);
    idRow[c] := 0;
  }

  /** Find a pivot, bring it to the diagonal, and clear its column. */
  method ReduceColumn(t: Tables, m: array<bv8>, k: nat, col: nat, ipiv: array<int>, indxr: array<int>,
    indxc: array<int>, idRow: array<bv8>, ghost a: Mat, ghost used: seq<bool>, ghost perms: seq<seq<nat>>)
    returns (found: bool, ghost used': seq<bool>, ghost perms': seq<seq<nat>>)
    requires t.Valid() && t.Apart(m) && t.Apart(idRow) && m != idRow && m.Length == Offset(k, k)
    requires ipiv != indxr && ipiv != indxc && indxr != indxc
    requires t.Apart(ipiv) && t.Apart(indxr) && t.Apart(indxc)
    requires ipiv as object != m && indxr as object != m && indxc as object != m
    requires ipiv as object != idRow && indxr as object != idRow && indxc as object != idRow
    requires ipiv.Length == indxr.Length == indxc.Length == k && idRow[..] == Zeros(k) && col < k
    requires Progress(a, Rows(m[..], 0, k, k), k, col, ipiv[..], indxr[..], indxc[..], used, perms)
    modifies m, ipiv, indxr, indxc, idRow
    ensures t.Valid() && idRow[..] == Zeros(k)
    ensures found ==> Progress(a, Rows(m[..], 0, k, k), k, col + 1, ipiv[..], indxr[..], indxc[..], used', perms')
    ensures !found ==> !Nonsingular(a, k)
  {
    hide Row, Rows, Offset, Nonsingular, Progress, Sweep, Tables.Valid;
    ghost var b := Rows(m[..], 0, k, k);
    ProgressFacts(a, b, k, col, ipiv[..], indxr[..], indxc[..], used, perms);
    var irow, icol := FindPivot(m, k, ipiv, col, used);
    if icol == -1 {
      ProgressStuck(a, b, k, col, ipiv[..], indxr[..], indxc[..], used, perms);
      return false, used, perms;
    }
    ghost var ipiv', indxr', indxc' := ipiv[..][icol := 1], indxr[..][col := irow], indxc[..][col := icol];
    ProgressStep(a, b, k, col, ipiv[..], indxr[..], indxc[..], used, perms, irow, icol);
    ipiv[icol] := ipiv[icol] + 1;
    if irow != icol {
      SwapRows(m, k, irow, icol);
    }
    indxr[col] := irow;
    indxc[col] := icol;
    assert ipiv[..] == ipiv' && indxr[..] == indxr' && indxc[..] == indxc';
    assert Rows(m[..], 0, k, k) == Swap(b, irow, icol);
    ClearColumn(t, m, k, icol, idRow);
    return true, used[icol := true], perms + [Swap(perms[col], irow, icol)];
  }

  lemma ProgressFacts(a: Mat, b: Mat, k: nat, n: nat, ipiv: seq<int>, indxr: seq<int>, indxc: seq<int>,
    used: seq<bool>, perms: seq<seq<nat>>)
    requires Progress(a, b, k, n, ipiv, indxr, indxc, used, perms)
    ensures Shape(b, k, k) && |used| == k && Flags(ipiv, used) && |perms| == n + 1 && |perms[n]| == k
  {}

  lemma ProgressStep(a: Mat, b: Mat, k: nat, n: nat, ipiv: seq<int>, indxr: seq<int>, indxc: seq<int>,
    used: seq<bool>, perms: seq<seq<nat>>, i: nat, j: nat)
    requires Progress(a, b, k, n, ipiv, indxr, indxc, used, perms)
    requires n < k && i < k && j < k && !used[i] && !used[j] && b[i][j] != 0
    ensures Progress(a, Sweep(Swap(b, i, j), k, j), k, n + 1, ipiv[j := 1], indxr[n := i], indxc[n := j],
              used[j := true], perms + [Swap(perms[n], i, j)])
  {
    hide Partial, Sweep, Trail;
    ProgressFacts(a, b, k, n, ipiv, indxr, indxc, used, perms);
    PartialSwap(a, b, k, used, perms[n], i, j);
    PartialPivot(a, Swap(b, i, j), k, used, Swap(perms[n], i, j), j);
    TrailStep(perms, indxr, indxc, k, n, i, j);
    CountSet(used, j);
  }

  lemma ProgressStuck(a: Mat, b: Mat, k: nat, n: nat, ipiv: seq<int>, indxr: seq<int>, indxc: seq<int>,
    used: seq<bool>, perms: seq<seq<nat>>)
    requires Progress(a, b, k, n, ipiv, indxr, indxc, used, perms) && n < k
    requires forall i, j :: 0 <= i < k && 0 <= j < k && !used[i] && !used[j] ==> b[i][j] == 0
    ensures !Nonsingular(a, k)
  {
    hide Partial, Nonsingular;
    var c := FindUnused(used);
    Stuck(a, b, k, used, perms[n], c);
  }

  /** Undo the row swaps on the columns, the last one first. */
  method UnscrambleColumns(m: array<bv8>, k: nat, indxr: array<int>, indxc: array<int>, ghost a: Mat,
    ghost perms: seq<seq<nat>>)
    requires m.Length == Offset(k, k) && indxr.Length == indxc.Length == k
    requires indxr as object != m && indxc as object != m
    requires Trail(perms, indxr[..], indxc[..], k, k)
    requires Scrambled(a, Rows(m[..], 0, k, k), k, perms[k])
    modifies m
    ensures Inverse(a, Rows(m[..], 0, k, k), k)
  {
    hide Row, Offset, Inverse, Scrambled, Trail, Swap;
    TrailLength(perms, indxr[..], indxc[..], k, k);
    var col := k - 1;
    while col >= 0
      invariant -1 <= col < k
      invariant Scrambled(a, Rows(m[..], 0, k, k), k, perms[col + 1])
    {
      TrailBack(perms, indxr[..], indxc[..], k, col);
      if indxr[col] < 0 || indxr[col] >= k || indxc[col] < 0 || indxc[col] >= k {
        assert false;
      }
      Unscramble(a, Rows(m[..], 0, k, k), k, perms[col + 1], indxr[col], indxc[col]);
      if indxr[col] != indxc[col] {
        SwapCols(m, k, indxr[col], indxc[col]);
      } else {
        SwapNothing(Rows(m[..], 0, k, k), k, indxr[col]);
      }
      col := col - 1;
    }
    TrailBase(perms, indxr[..], indxc[..], k);
    Unscrambled(a, Rows(m[..], 0, k, k), k);
  }

  lemma SwapNothing(b: Mat, k: nat, i: nat)
    requires Shape(b, k, k) && i < k
    ensures SwapColumns(b, k, k, i, i) == b
  {
    forall r | 0 <= r < k
      ensures SwapColumns(b, k, k, i, i)[r] == b[r]
    {}
  }

  /**
   * Invert the k * k matrix m in place. A result of 0 means success; it is returned exactly for a
   * nonsingular matrix.
   */
  method InvertMat(t: Tables, m: array<bv8>, k: nat) returns (error: int)
    requires t.Valid() && t.Apart(m) && m.Length == Offset(k, k)
    modifies m
    ensures error == 0 <==> Nonsingular(old(Rows(m[..], 0, k, k)), k)
    ensures error == 0 ==> Inverse(old(Rows(m[..], 0, k, k)), Rows(m[..], 0, k, k), k)
  {
    hide Dot, Row, Offset, Solves, Nonsingular, Inverse, Progress, Scrambled, Trail, Tables.Valid;
    ghost var a := Rows(m[..], 0, k, k);
    var indxc, indxr, ipiv := new int[k], new int[k], new int[k];
    var idRow := new bv8[k](_ => 0);
    assert idRow[..] == Zeros(k);
    for i := 0 to k
      invariant forall j :: 0 <= j < i ==> ipiv[j] == 0
      invariant Rows(m[..], 0, k, k) == a && idRow[..] == Zeros(k)
    {
      ipiv[i] := 0;
    }
    ghost var used, perms := NoneUsed(k), [Identity(k)];
    ProgressStart(a, k, ipiv[..], indxr[..], indxc[..]);
    for col := 0 to k
      invariant t.Valid() && idRow[..] == Zeros(k)
      invariant Progress(a, Rows(m[..], 0, k, k), k, col, ipiv[..], indxr[..], indxc[..], used, perms)
    {
      var found;
      found, used, perms := ReduceColumn(t, m, k, col, ipiv, indxr, indxc, idRow, a, used, perms);
      if !found {
        return 1;
      }
    }
    ProgressDone(a, Rows(m[..], 0, k, k), k, ipiv[..], indxr[..], indxc[..], used, perms);
    UnscrambleColumns(m, k, indxr, indxc, a, perms);
    InverseNonsingular(a, Rows(m[..], 0, k, k), k);
    error := 0;
  }

  lemma ProgressStart(a: Mat, k: nat, ipiv: seq<int>, indxr: seq<int>, indxc: seq<int>)
    requires Shape(a, k, k) && |ipiv| == |indxr| == |indxc| == k && forall i :: 0 <= i < k ==> ipiv[i] == 0
    ensures Progress(a, a, k, 0, ipiv, indxr, indxc, NoneUsed(k), [Identity(k)])
  {
    hide Partial;
    PartialStart(a, k);
    CountNone(NoneUsed(k));
  }

  lemma ProgressDone(a: Mat, b: Mat, k: nat, ipiv: seq<int>, indxr: seq<int>, indxc: seq<int>,
    used: seq<bool>, perms: seq<seq<nat>>)
    requires Progress(a, b, k, k, ipiv, indxr, indxc, used, perms)
    ensures Trail(perms, indxr, indxc, k, k) && Scrambled(a, b, k, perms[k])
  {
    hide Partial, Scrambled;
    CountFull(used);
    PartialDone(a, b, k, used, perms[k]);
  }

  lemma TrailLength(perms: seq<seq<nat>>, indxr: seq<int>, indxc: seq<int>, k: nat, n: nat)
    requires Trail(perms, indxr, indxc, k, n)
    ensures |perms| == n + 1 && |perms[n]| == k
  {}

  lemma TrailBase(perms: seq<seq<nat>>, indxr: seq<int>, indxc: seq<int>, k: nat)
    requires Trail(perms, indxr, indxc, k, k)
    ensures perms[0] == Identity(k)
  {}

  lemma TrailBack(perms: seq<seq<nat>>, indxr: seq<int>, indxc: seq<int>, k: nat, i: nat)
    requires Trail(perms, indxr, indxc, k, k) && i < k
    ensures 0 <= indxr[i] < k && 0 <= indxc[i] < k && |perms[i + 1]| == k
    ensures Swap(perms[i + 1], indxr[i], indxc[i]) == perms[i]
  {}
}

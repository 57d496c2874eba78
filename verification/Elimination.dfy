/** What each step of an in-place Gauss-Jordan inversion with full pivoting preserves. */
module Elimination {
  import opened Gf256
  import opened LinearAlgebra

  function Swap<T>(s: seq<T>, i: nat, j: nat): (r: seq<T>)
    requires i < |s| && j < |s|
    ensures |r| == |s| && r[i] == s[j] && r[j] == s[i]
    ensures forall k :: 0 <= k < |s| && k != i && k != j ==> r[k] == s[k]
  {
    s[i := s[j]][j := s[i]]
  }

  function SwapColumns(a: Mat, rows: nat, cols: nat, i: nat, j: nat): (r: Mat)
    requires Shape(a, rows, cols) && i < cols && j < cols
    ensures Shape(r, rows, cols) && forall k :: 0 <= k < rows ==> r[k] == Swap(a[k], i, j)
  {
    seq(rows, k requires 0 <= k < rows => Swap(a[k], i, j))
  }

  function Pick<T>(which: seq<bool>, yes: seq<T>, no: seq<T>): (r: seq<T>)
    requires |which| == |yes| == |no|
    ensures |r| == |which| && forall i :: 0 <= i < |r| ==> r[i] == if which[i] then yes[i] else no[i]
  {
    seq(|which|, i requires 0 <= i < |which| => if which[i] then yes[i] else no[i])
  }

  predicate Indices(perm: seq<nat>, k: nat) {
    |perm| == k && forall i :: 0 <= i < k ==> perm[i] < k
  }

  function Permute(y: Vec, perm: seq<nat>): (r: Vec)
    requires Indices(perm, |y|)
    ensures |r| == |y| && forall i :: 0 <= i < |y| ==> r[i] == y[perm[i]]
  {
    seq(|y|, i requires 0 <= i < |y| => y[perm[i]])
  }

  function Identity(k: nat): (r: seq<nat>)
    ensures Indices(r, k) && forall i :: 0 <= i < k ==> r[i] == i
  {
    seq(k, i => i)
  }

  /**
   * The loop invariant of the elimination. The matrix b describes the same relation between x and
   * y as a does, except that at every pivot already used the unknown and the right-hand side have
   * changed places, and the right-hand sides have been permuted by the row swaps so far.
   */
  ghost predicate Partial(a: Mat, b: Mat, k: nat, used: seq<bool>, perm: seq<nat>) {
    && Shape(a, k, k) && Shape(b, k, k) && |used| == k && Indices(perm, k)
    && forall x: Vec, y: Vec :: |x| == |y| == k ==>
      (Solves(a, k, x, y) <==> Solves(b, k, Pick(used, Permute(y, perm), x), Pick(used, x, Permute(y, perm))))
  }

  function NoneUsed(k: nat): (r: seq<bool>)
    ensures |r| == k && forall i :: 0 <= i < k ==> !r[i]
  {
    seq(k, _ => false)
  }

  lemma PartialStart(a: Mat, k: nat)
    requires Shape(a, k, k)
    ensures Partial(a, a, k, NoneUsed(k), Identity(k))
  {
    var none := NoneUsed(k);
    forall x: Vec, y: Vec | |x| == |y| == k
      ensures Pick(none, Permute(y, Identity(k)), x) == x && Pick(none, x, Permute(y, Identity(k))) == y
    {}
  }

  lemma PartialSwap(a: Mat, b: Mat, k: nat, used: seq<bool>, perm: seq<nat>, i: nat, j: nat)
    requires Partial(a, b, k, used, perm)
    requires i < k && j < k && !used[i] && !used[j]
    ensures Partial(a, Swap(b, i, j), k, used, Swap(perm, i, j))
  {
    hide Dot, Add, Mul;
    forall x: Vec, y: Vec | |x| == |y| == k
      ensures Solves(a, k, x, y) <==> Solves(Swap(b, i, j), k,
                Pick(used, Permute(y, Swap(perm, i, j)), x), Pick(used, x, Permute(y, Swap(perm, i, j))))
    {
      var u, u' := Permute(y, perm), Permute(y, Swap(perm, i, j));
      assert u' == Swap(u, i, j);
      assert Pick(used, u', x) == Pick(used, u, x);
      assert Pick(used, x, u') == Swap(Pick(used, x, u), i, j);
      SwapRowsSolves(b, k, Pick(used, u, x), Pick(used, x, u), i, j);
    }
  }

  lemma SwapRowsSolves(b: Mat, k: nat, z: Vec, w: Vec, i: nat, j: nat)
    requires Shape(b, k, k) && |z| == |w| == k && i < k && j < k
    ensures Solves(b, k, z, w) <==> Solves(Swap(b, i, j), k, z, Swap(w, i, j))
  {
    hide Dot;
    var b', w' := Swap(b, i, j), Swap(w, i, j);
    assert b == Swap(b', i, j) && w == Swap(w', i, j);
  }

  lemma PartialPivot(a: Mat, b: Mat, k: nat, used: seq<bool>, perm: seq<nat>, c: nat)
    requires Partial(a, b, k, used, perm)
    requires c < k && !used[c] && b[c][c] != 0
    ensures Partial(a, Sweep(b, k, c), k, used[c := true], perm)
  {
    hide Dot, Add, Mul, Sweep, Solves;
    var used' := used[c := true];
    forall x: Vec, y: Vec | |x| == |y| == k
      ensures Solves(a, k, x, y) <==>
        Solves(Sweep(b, k, c), k, Pick(used', Permute(y, perm), x), Pick(used', x, Permute(y, perm)))
    {
      var u := Permute(y, perm);
      var z, w := Pick(used, u, x), Pick(used, x, u);
      Exchange(b, k, c, z, w);
      assert Pick(used', u, x) == z[c := w[c]];
      assert Pick(used', x, u) == w[c := z[c]];
    }
  }

  /** No pivot left although column c is still unused: then some nonzero x is mapped to zero. */
  lemma Stuck(a: Mat, b: Mat, k: nat, used: seq<bool>, perm: seq<nat>, c: nat)
    requires Partial(a, b, k, used, perm)
    requires c < k && !used[c]
    requires forall i, j :: 0 <= i < k && 0 <= j < k && !used[i] && !used[j] ==> b[i][j] == 0
    ensures !Nonsingular(a, k)
  {
    hide Dot, Solves;
    var y, col := Zeros(k), Column(b, k, k, c);
    var x := Pick(used, col, Unit(k, c));
    var u := Permute(y, perm);
    assert u == y;
    UnitSolution(b, k, c);
    assert Pick(used, u, x) == Unit(k, c);
    assert Pick(used, x, u) == col;
    assert Solves(a, k, x, y);
    assert x[c] != y[c];
  }

  /** All pivots used; what remains is to undo the row swaps on the columns. */
  ghost predicate Scrambled(a: Mat, b: Mat, k: nat, perm: seq<nat>) {
    && Shape(a, k, k) && Shape(b, k, k) && Indices(perm, k)
    && forall x: Vec, y: Vec :: |x| == |y| == k ==>
      (Solves(a, k, x, y) <==> Solves(b, k, Permute(y, perm), x))
  }

  lemma PartialDone(a: Mat, b: Mat, k: nat, used: seq<bool>, perm: seq<nat>)
    requires Partial(a, b, k, used, perm)
    requires forall i :: 0 <= i < k ==> used[i]
    ensures Scrambled(a, b, k, perm)
  {
    forall x: Vec, y: Vec | |x| == |y| == k
      ensures Pick(used, Permute(y, perm), x) == Permute(y, perm) && Pick(used, x, Permute(y, perm)) == x
    {}
  }

  lemma {:induction false} DotSwap(a: Vec, z: Vec, i: nat, j: nat)
    requires |a| == |z| && i < |a| && j < |a|
    ensures Dot(Swap(a, i, j), Swap(z, i, j)) == Dot(a, z)
  {
    hide Dot, Add, Mul;
    var a', z' := Swap(a, i, j), Swap(z, i, j);
    if i != j {
      var r, r' := a[i := 0], a'[i := 0];
      DotSplit(a, z, i, 0);
      DotSplit(a', z', i, 0);
      DotSplit(r, z, j, 0);
      DotSplit(r', z', j, 0);
      DotSplit(r[j := 0], z, i, z[j]);
      DotSplit(r[j := 0], z[i := z[j]], j, z[i]);
      assert r[j := 0][i := 0] == r[j := 0] == r[j := 0][j := 0] == r'[j := 0];
      assert z[i := z[j]][j := z[i]] == z';
      var p, q, s := Mul(a[i], z[i]), Mul(a[j], z[j]), Dot(r[j := 0], z);
      AddAssoc(p, q, s);
      AddAssoc(q, p, s);
      AddLaws(p, q);
    } else {
      assert a' == a && z' == z;
    }
  }

  lemma Unscramble(a: Mat, b: Mat, k: nat, perm: seq<nat>, i: nat, j: nat)
    requires Scrambled(a, b, k, perm) && i < k && j < k
    ensures Scrambled(a, SwapColumns(b, k, k, i, j), k, Swap(perm, i, j))
  {
    hide Dot, Add, Mul;
    var b', perm' := SwapColumns(b, k, k, i, j), Swap(perm, i, j);
    forall x: Vec, y: Vec | |x| == |y| == k
      ensures Solves(a, k, x, y) <==> Solves(b', k, Permute(y, perm'), x)
    {
      var u, u' := Permute(y, perm), Permute(y, perm');
      assert u' == Swap(u, i, j);
      forall r | 0 <= r < k
        ensures Dot(b'[r], u') == Dot(b[r], u)
      {
        DotSwap(b[r], u, i, j);
      }
    }
  }

  lemma Unscrambled(a: Mat, b: Mat, k: nat)
    requires Scrambled(a, b, k, Identity(k))
    ensures Inverse(a, b, k)
  {
    forall y: Vec | |y| == k
      ensures Permute(y, Identity(k)) == y
    {}
  }

  lemma InverseNonsingular(a: Mat, b: Mat, k: nat)
    requires Shape(a, k, k) && Shape(b, k, k) && Inverse(a, b, k)
    ensures Nonsingular(a, k)
  {
    hide Dot;
    forall x: Vec | |x| == k && Solves(a, k, x, Zeros(k))
      ensures x == Zeros(k)
    {
      assert Solves(b, k, Zeros(k), x);
      forall i | 0 <= i < k
        ensures x[i] == 0
      {
        DotZeros(b[i], Zeros(k));
      }
    }
  }

  /** Both matrix products of a matrix with its inverse are the identity. */
  lemma InverseProducts(a: Mat, b: Mat, k: nat, i: nat, c: nat)
    requires Shape(a, k, k) && Shape(b, k, k) && Inverse(a, b, k) && i < k && c < k
    ensures Dot(a[i], Column(b, k, k, c)) == if i == c then 1 else 0
    ensures Dot(b[i], Column(a, k, k, c)) == if i == c then 1 else 0
  {
    hide Dot;
    UnitSolution(a, k, c);
    UnitSolution(b, k, c);
    assert Solves(a, k, Column(b, k, k, c), Unit(k, c));
    assert Solves(b, k, Column(a, k, k, c), Unit(k, c));
  }

  lemma UnitSolution(b: Mat, k: nat, c: nat)
    requires Shape(b, k, k) && c < k
    ensures Solves(b, k, Unit(k, c), Column(b, k, k, c))
  {
    hide Dot;
    forall i | 0 <= i < k
      ensures Column(b, k, k, c)[i] == Dot(b[i], Unit(k, c))
    {
      DotUnit(b[i], c);
    }
  }

  // Counting the columns already used as pivots.

  ghost function Count(s: seq<bool>): nat {
    if s == [] then 0 else Count(s[..|s| - 1]) + if s[|s| - 1] then 1 else 0
  }

  lemma {:induction false} CountSet(s: seq<bool>, c: nat)
    requires c < |s| && !s[c]
    ensures Count(s[c := true]) == Count(s) + 1
  {
    var n := |s| - 1;
    if c < n {
      CountSet(s[..n], c);
      assert s[c := true][..n] == s[..n][c := true];
    } else {
      assert s[c := true][..n] == s[..n];
    }
  }

  lemma {:induction false} CountFull(s: seq<bool>)
    ensures Count(s) <= |s|
    ensures Count(s) == |s| ==> forall i :: 0 <= i < |s| ==> s[i]
  {
    if s != [] { CountFull(s[..|s| - 1]); }
  }

  lemma {:induction false} CountNone(s: seq<bool>)
    requires forall i :: 0 <= i < |s| ==> !s[i]
    ensures Count(s) == 0
  {
    if s != [] { CountNone(s[..|s| - 1]); }
  }

  lemma {:induction false} FindUnused(s: seq<bool>) returns (i: nat)
    requires Count(s) < |s|
    ensures i < |s| && !s[i]
  {
    i := |s| - 1;
    if s[i] { i := FindUnused(s[..i]); }
  }

  /** Elimination as a proof: a nonsingular matrix can be reduced completely, so it is onto. */
  lemma {:induction false} NonsingularReduces(a: Mat, b: Mat, k: nat, used: seq<bool>, perm: seq<nat>)
    returns (c: Mat, perm': seq<nat>)
    requires Partial(a, b, k, used, perm) && Nonsingular(a, k)
    ensures Scrambled(a, c, k, perm')
    decreases k - Count(used)
  {
    hide Partial, Nonsingular, Sweep, Scrambled;
    PartialShape(a, b, k, used, perm);
    CountFull(used);
    if Count(used) == k {
      PartialDone(a, b, k, used, perm);
      return b, perm;
    }
    var l := FindUnused(used);
    if forall i, j :: 0 <= i < k && 0 <= j < k && !used[i] && !used[j] ==> b[i][j] == 0 {
      Stuck(a, b, k, used, perm, l);
    } else {
      var i: nat, j: nat :| i < k && j < k && !used[i] && !used[j] && b[i][j] != 0;
      PartialSwap(a, b, k, used, perm, i, j);
      PartialPivot(a, Swap(b, i, j), k, used, Swap(perm, i, j), j);
      CountSet(used, j);
      CountFull(used[j := true]);
      c, perm' := NonsingularReduces(a, Sweep(Swap(b, i, j), k, j), k, used[j := true], Swap(perm, i, j));
    }
  }

  lemma PartialShape(a: Mat, b: Mat, k: nat, used: seq<bool>, perm: seq<nat>)
    requires Partial(a, b, k, used, perm)
    ensures Shape(b, k, k) && |used| == k && |perm| == k
  {}

  lemma NonsingularOnto(a: Mat, k: nat, y: Vec)
    requires Shape(a, k, k) && Nonsingular(a, k) && |y| == k
    ensures exists x: Vec :: |x| == k && Solves(a, k, x, y)
  {
    hide Dot, Nonsingular, Partial;
    PartialStart(a, k);
    var c, perm := NonsingularReduces(a, a, k, NoneUsed(k), Identity(k));
    assert Solves(c, k, Permute(y, perm), Apply(c, k, Permute(y, perm)));
  }
}

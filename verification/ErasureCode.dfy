/** The erasure code itself: any k rows of its encoding matrix determine the source. */
module ErasureCode {
  import opened Gf256
  import opened LinearAlgebra
  import opened Elimination
  import opened Polynomials
  import opened Vandermonde

  /** The evaluation points: 0 and the powers of alpha. */
  ghost function Points(n: nat): (r: seq<bv8>)
    ensures |r| == n && forall i :: 0 <= i < n ==> r[i] == if i == 0 then 0 else Pow(i - 1)
  {
    seq(n, i requires 0 <= i => if i == 0 then 0 else Pow(i - 1))
  }

  lemma PointsDistinct(n: nat)
    requires n <= 256
    ensures Distinct(Points(n))
  {
    hide Pow;
    forall i, j | 0 <= i < j < n
      ensures Points(n)[i] != Points(n)[j]
    {
      PowNonzero(j - 1);
      if i > 0 { PowInjective(i - 1, j - 1); }
    }
  }

  /** The systematic encoding matrix: the identity on top, the remaining rows recombined. */
  ghost function Encoder(k: nat, n: nat): (r: Mat)
    requires k <= n
    ensures Shape(r, n, k)
    ensures forall i :: 0 <= i < k ==> r[i] == Unit(k, i)
    ensures forall i :: k <= i < n ==> r[i] == RowTimes(Powers(Points(n)[i], k), Stored(Points(k)), k)
  {
    seq(n, i requires 0 <= i < n =>
      if i < k then Unit(k, i) else RowTimes(Powers(Points(n)[i], k), Stored(Points(k)), k))
  }

  /** The packet with the given index, for the source packets src. */
  ghost function Packet(k: nat, n: nat, index: nat, src: Mat, sz: nat): (r: Vec)
    requires k <= n && index < n && Shape(src, k, sz)
    ensures |r| == sz
  {
    RowTimes(Encoder(k, n)[index], src, sz)
  }

  /** The code is systematic: packets below k are the source packets. */
  lemma Systematic(k: nat, n: nat, index: nat, src: Mat, sz: nat)
    requires index < k <= n && Shape(src, k, sz)
    ensures Packet(k, n, index, src, sz) == src[index]
  {
    hide Dot;
    forall c | 0 <= c < sz
      ensures Packet(k, n, index, src, sz)[c] == src[index][c]
    {
      DotUnit(Column(src, k, sz, c), index);
    }
  }

  /** Every row is a row of powers times the stored inverse, the top rows included. */
  lemma EncoderRow(k: nat, n: nat, i: nat)
    requires 1 <= k <= n <= 256 && i < n
    ensures Encoder(k, n)[i] == RowTimes(Powers(Points(n)[i], k), Stored(Points(k)), k)
  {
    hide Dot, Stored, Pow;
    if i < k {
      PointsDistinct(k);
      StoredIsInverse(Points(k));
      assert Points(k)[i] == Points(n)[i];
      forall c | 0 <= c < k
        ensures RowTimes(Powers(Points(n)[i], k), Stored(Points(k)), k)[c] == Unit(k, i)[c]
      {
        InverseProducts(Matrix(Points(k)), Stored(Points(k)), k, i, c);
      }
    }
  }

  ghost function Selected(k: nat, n: nat, index: seq<nat>): (r: Mat)
    requires k <= n && |index| == k && forall i :: 0 <= i < k ==> index[i] < n
    ensures Shape(r, k, k) && forall i :: 0 <= i < k ==> r[i] == Encoder(k, n)[index[i]]
  {
    var e := Encoder(k, n);
    assert Shape(e, n, k);
    seq(k, i requires 0 <= i < k => e[index[i]])
  }

  /** The defining property: the rows selected by k indices are independent exactly if the indices differ. */
  lemma AnyRowsIndependent(k: nat, n: nat, index: seq<nat>)
    requires 1 <= k <= n <= 256 && |index| == k && forall i :: 0 <= i < k ==> index[i] < n
    ensures Nonsingular(Selected(k, n, index), k) <==> Distinct(index)
  {
    hide Nonsingular;
    if Distinct(index) {
      DistinctRows(k, n, index);
    } else {
      var i, j :| 0 <= i < j < k && index[i] == index[j];
      EqualRows(Selected(k, n, index), k, i, j);
    }
  }

  lemma DistinctRows(k: nat, n: nat, index: seq<nat>)
    requires 1 <= k <= n <= 256 && |index| == k && forall i :: 0 <= i < k ==> index[i] < n
    requires Distinct(index)
    ensures Nonsingular(Selected(k, n, index), k)
  {
    hide Dot, Stored, Pow, Eval, Encoder;
    var a, w := Selected(k, n, index), Stored(Points(k));
    var xs := seq(k, i requires 0 <= i < k => Points(n)[index[i]]);
    PointsDistinct(n);
    forall x: Vec | |x| == k && Solves(a, k, x, Zeros(k))
      ensures x == Zeros(k)
    {
      var c := Apply(w, k, x);
      forall i | 0 <= i < k
        ensures Eval(c, xs[i]) == 0
      {
        EncoderRow(k, n, index[i]);
        DotAssoc(Powers(xs[i], k), w, k, x);
        EvalIsDot(c, xs[i]);
      }
      Roots(c, xs);
      forall i | 0 <= i < k
        ensures x[i] == 0
      {
        EncoderRow(k, k, i);
        DotAssoc(Powers(Points(k)[i], k), w, k, x);
        DotZeros(Powers(Points(k)[i], k), c);
        TopRow(k, i);
        DotUnit(x, i);
      }
    }
  }

  lemma TopRow(k: nat, i: nat)
    requires i < k
    ensures Encoder(k, k)[i] == Unit(k, i)
  {}

  /** Equal rows force equal right-hand sides, so the matrix cannot be onto. */
  lemma EqualRows(a: Mat, k: nat, i: nat, j: nat)
    requires Shape(a, k, k) && i < j < k && a[i] == a[j]
    ensures !Nonsingular(a, k)
  {
    hide Dot, Nonsingular;
    if Nonsingular(a, k) {
      NonsingularOnto(a, k, Unit(k, i));
    }
  }
}

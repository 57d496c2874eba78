/** The lookup tables of lib/libfec.c and the loops that fill them. */
module FecTables {
  import opened Gf256

  const GF_SIZE: int := 255
  const PP := "101110001"

  /** x modulo GF_SIZE without a division by GF_SIZE. */
  method ModNN(x: int) returns (r: int)
    requires 0 <= x
    ensures r == x % GF_SIZE
  {
    r := x;
    while r >= GF_SIZE
      invariant 0 <= r && r % GF_SIZE == x % GF_SIZE
    {
      r := r - GF_SIZE;
      FoldMod(r);
      r := r / 256 + r % 256;
    }
  }

  lemma FoldMod(y: int)
    requires 0 <= y
    ensures (y / 256 + y % 256) % GF_SIZE == (y + GF_SIZE) % GF_SIZE
    ensures y / 256 + y % 256 <= y
  {
    assert y + 255 == 255 * (y / 256 + 1) + (y / 256 + y % 256);
  }

  // The first eight powers of alpha, and the low bits of the polynomial gathered after i of them.

  function Mask(i: nat): bv8
    requires i <= 8
  {
    [1, 2, 4, 8, 16, 32, 64, 128, 0][i]
  }

  function Taps(i: nat): bv8
    requires i <= 8
  {
    [0, 1, 1, 5, 13, 29, 29, 29, 29][i]
  }

  lemma MaskLaws(i: nat)
    requires i < 8
    ensures Mask(i) == Pow(i)
    ensures Mask(i + 1) == Mask(i) << 1
    ensures Taps(i + 1) == if PP[i] == '1' then Taps(i) ^ Mask(i) else Taps(i)
  {
    PowNext(0); PowNext(1); PowNext(2); PowNext(3); PowNext(4); PowNext(5); PowNext(6);
  }

  lemma PowNext(n: nat)
    ensures Pow(n + 1) == Xtime(Pow(n))
  {
    hide Xtime;
    ShiftAdd(1, n, 1);
  }

  /** The branch the source takes to multiply by alpha. */
  lemma XtimeBranch(a: bv8)
    ensures Xtime(a) == if a >= 128 then 29 ^ ((a ^ 128) << 1) else a << 1
  {}

  lemma PowEight()
    ensures Pow(8) == 29
  {
    hide Pow, Xtime;
    MaskLaws(7);
    PowNext(7);
    assert Xtime(128) == 29 by { XtimeBranch(128); }
  }

  ghost predicate LogsUpTo(log: seq<int>, n: nat) {
    |log| == 256 && n <= 255 && forall j: nat :: j < n ==> log[Index(Pow(j))] == j
  }

  lemma LogStore(log: seq<int>, n: nat)
    requires LogsUpTo(log, n) && n < 255
    ensures Index(Pow(n)) < 256 && LogsUpTo(log[Index(Pow(n)) := n], n + 1)
  {
    hide Pow, Index;
    IndexLaws(Pow(n), 0);
    forall j: nat | j < n
      ensures 0 <= Index(Pow(j)) < 256 && Index(Pow(j)) != Index(Pow(n))
    {
      PowInjective(j, n);
      IndexLaws(Pow(j), Pow(n));
    }
  }

  ghost predicate ExpUpTo(exp: seq<bv8>, n: nat) {
    n <= |exp| && forall j: nat :: j < n ==> exp[j] == Pow(j)
  }

  /** One more tap of the polynomial, and the next bit. */
  method NextBit(i: nat, mask: bv8, taps: bv8) returns (mask': bv8, taps': bv8)
    requires i < 8 && mask == Mask(i) && taps == Taps(i)
    ensures mask' == Mask(i + 1) && taps' == Taps(i + 1)
  {
    MaskLaws(i);
    taps' := if PP[i] == '1' then taps ^ mask else taps;
    mask' := mask << 1;
  }

  /** alpha times a power of alpha, where taps is alpha ** 8 and mask the top bit. */
  method NextPower(prev: bv8, taps: bv8, mask: bv8) returns (r: bv8)
    requires taps == 29 && mask == 128
    ensures r == Xtime(prev)
  {
    XtimeBranch(prev);
    if prev >= mask {
      r := taps ^ ((prev ^ mask) << 1);
    } else {
      r := prev << 1;
    }
  }

  method FirstPowers(exp: array<bv8>, log: array<int>)
    requires exp.Length == 2 * GF_SIZE && log.Length == GF_SIZE + 1
    modifies exp, log
    ensures ExpUpTo(exp[..], 9) && LogsUpTo(log[..], 9)
  {
    hide Pow, Index, Xtime, Mask, Taps;
    var mask: bv8 := 1;
    exp[8] := 0;
    TableEnds();
    for i := 0 to 8
      invariant mask == Mask(i) && exp[8] == Taps(i)
      invariant ExpUpTo(exp[..], i) && LogsUpTo(log[..], i)
    {
      MaskIsPow(i);
      LogStore(log[..], i);
      exp[i] := mask;
      log[Index(exp[i])] := i;
      mask, exp[8] := NextBit(i, mask, exp[8]);
    }
    LogStore(log[..], 8);
    log[Index(exp[8])] := 8;
  }

  lemma TableEnds()
    ensures Mask(0) == 1 && Taps(0) == 0 && Taps(8) == 29 == Pow(8)
  {
    PowEight();
  }

  lemma MaskIsPow(i: nat)
    requires i < 8
    ensures Mask(i) == Pow(i)
  {
    MaskLaws(i);
  }

  /** The powers of alpha: the shifted bits first, then the recurrence. */
  method GeneratePowers(exp: array<bv8>, log: array<int>)
    requires exp.Length == 2 * GF_SIZE && log.Length == GF_SIZE + 1
    modifies exp, log
    ensures ExpUpTo(exp[..], GF_SIZE) && LogsUpTo(log[..], GF_SIZE)
  {
    hide Pow, Index, Xtime;
    FirstPowers(exp, log);
    PowEight();
    var mask: bv8 := 128;
    for i := 9 to GF_SIZE
      invariant exp[8] == 29
      invariant ExpUpTo(exp[..], i) && LogsUpTo(log[..], i)
    {
      PowNext(i - 1);
      LogStore(log[..], i);
      exp[i] := NextPower(exp[i - 1], exp[8], mask);
      log[Index(exp[i])] := i;
    }
  }

  // Views of the finished tables.

  ghost predicate LogTable(log: seq<int>) {
    |log| == 256 && log[0] == GF_SIZE && forall i :: 1 <= i < 256 && Byte(i) != 0 ==> log[i] == Log(Byte(i))
  }

  ghost predicate InverseUpTo(inverse: seq<bv8>, n: nat) {
    |inverse| == 256 && n <= 256 && forall i :: 0 <= i < n ==> inverse[i] == Inv(Byte(i))
  }

  lemma LogsComplete(log: seq<int>)
    requires LogsUpTo(log, GF_SIZE)
    ensures LogTable(log[0 := GF_SIZE])
  {
    hide Pow, Index, Byte;
    forall i | 1 <= i < 256 && Byte(i) != 0
      ensures log[i] == Log(Byte(i))
    {
      ByteLaws(i);
      assert log[Index(Pow(Log(Byte(i))))] == Log(Byte(i));
    }
  }

  lemma InverseOne()
    ensures Inv(0) == 0 && Inv(1) == 1
  {
    hide Pow;
    MulInv(1);
    MulOne(Inv(1));
  }

  lemma InverseLookup(i: nat)
    requires 2 <= i < 256
    ensures Byte(i) != 0 && Inv(Byte(i)) == Pow(255 - Log(Byte(i)))
  {
    hide Pow, Byte;
    ByteLaws(i);
  }

  method GenerateGf(exp: array<bv8>, log: array<int>, inverse: array<bv8>)
    requires exp.Length == 2 * GF_SIZE && log.Length == inverse.Length == GF_SIZE + 1
    requires exp != inverse && log as object != exp && log as object != inverse
    modifies exp, log, inverse
    ensures ExpUpTo(exp[..], 2 * GF_SIZE) && LogTable(log[..]) && InverseUpTo(inverse[..], GF_SIZE + 1)
  {
    hide Pow, Inv, Byte;
    GeneratePowers(exp, log);
    LogsComplete(log[..]);
    ghost var complete := log[..][0 := GF_SIZE];
    log[0] := GF_SIZE;
    assert log[..] == complete;
    for i := 0 to GF_SIZE
      invariant ExpUpTo(exp[..], GF_SIZE + i) && log[..] == complete
    {
      PowMod(i + GF_SIZE);
      PowMod(i);
      exp[i + GF_SIZE] := exp[i];
    }
    InverseOne();
    ByteLaws(0);
    ByteLaws(1);
    inverse[0] := 0;
    inverse[1] := 1;
    for i := 2 to GF_SIZE + 1
      invariant ExpUpTo(exp[..], 2 * GF_SIZE) && log[..] == complete && InverseUpTo(inverse[..], i)
    {
      InverseLookup(i);
      inverse[i] := exp[GF_SIZE - log[i]];
    }
  }

  /** The static tables; they are filled once and read ever after. */
  class Tables {
    const exp: array<bv8>
    const log: array<int>
    const inverse: array<bv8>
    const mul: array2<bv8>

    ghost predicate Sized()
    {
      && exp.Length == 2 * GF_SIZE && log.Length == inverse.Length == GF_SIZE + 1
      && mul.Length0 == mul.Length1 == GF_SIZE + 1
    }

    ghost predicate Generated()
      reads exp, log, inverse
    {
      && Sized()
      && ExpUpTo(exp[..], 2 * GF_SIZE) && LogTable(log[..]) && InverseUpTo(inverse[..], GF_SIZE + 1)
    }

    ghost predicate Valid()
      reads Footprint()
    {
      && Generated()
      && forall i, j :: 0 <= i < 256 && 0 <= j < 256 ==> mul[i, j] == Mul(Byte(i), Byte(j))
    }

    ghost function Footprint(): set<object> {
      {exp, log, inverse, mul}
    }

    /** An array that is not one of the tables. */
    ghost predicate Apart(a: object) {
      a !in Footprint()
    }

    constructor ()
      ensures Valid() && fresh(exp) && fresh(log) && fresh(inverse) && fresh(mul)
    {
      exp := new bv8[2 * GF_SIZE];
      log := new int[GF_SIZE + 1];
      inverse := new bv8[GF_SIZE + 1];
      mul := new bv8[GF_SIZE + 1, GF_SIZE + 1];
      new;
      GenerateGf(exp, log, inverse);
      InitMulTable();
    }

    method InitMulTable()
      requires Generated()
      modifies mul
      ensures Valid()
    {
      hide Pow, Byte, Mul;
      FillProducts();
      ByteLaws(0);
      for j := 0 to GF_SIZE + 1
        invariant forall r, c :: 1 <= r < 256 && 1 <= c < 256 ==> mul[r, c] == Mul(Byte(r), Byte(c))
        invariant forall c :: 0 <= c < j ==> mul[0, c] == 0 == mul[c, 0]
      {
        mul[0, j], mul[j, 0] := 0, 0;
      }
      forall i | 0 <= i < 256
        ensures Mul(Byte(i), Byte(0)) == 0 == Mul(Byte(0), Byte(i))
      {
        MulZero(Byte(i));
      }
    }

    /** All products through the logarithms; row and column 0 are not products yet. */
    method FillProducts()
      requires Generated()
      modifies mul
      ensures forall r, c :: 1 <= r < 256 && 1 <= c < 256 ==> mul[r, c] == Mul(Byte(r), Byte(c))
    {
      hide Pow, Byte, Mul;
      for i := 0 to GF_SIZE + 1
        invariant forall r, c :: 1 <= r < i && 1 <= c < 256 ==> mul[r, c] == Mul(Byte(r), Byte(c))
      {
        for j := 0 to GF_SIZE + 1
          invariant forall r, c :: 1 <= r < i && 1 <= c < 256 ==> mul[r, c] == Mul(Byte(r), Byte(c))
          invariant forall c :: 1 <= i && 1 <= c < j ==> mul[i, c] == Mul(Byte(i), Byte(c))
        {
          LogLookup(log[..], i, j);
          var m := ModNN(log[i] + log[j]);
          mul[i, j] := exp[m];
        }
      }
    }

    function Times(a: bv8, b: bv8): (r: bv8)
      requires Valid()
      reads Footprint()
      ensures r == Mul(a, b)
    {
      IndexLaws(a, b);
      IndexLaws(b, a);
      mul[Index(a), Index(b)]
    }

    function Inverse(a: bv8): (r: bv8)
      requires Valid()
      reads Footprint()
      ensures r == Inv(a)
    {
      IndexLaws(a, a);
      inverse[Index(a)]
    }
  }

  lemma LogLookup(log: seq<int>, i: nat, j: nat)
    requires LogTable(log) && i < 256 && j < 256
    ensures 0 <= log[i] <= 255 && 0 <= log[j] <= 255
    ensures i != 0 && j != 0 ==> Mul(Byte(i), Byte(j)) == Pow((log[i] + log[j]) % GF_SIZE)
  {
    hide Pow, Byte;
    ByteLaws(i);
    ByteLaws(j);
    if i != 0 && j != 0 { PowMod(log[i] + log[j]); }
  }
}

/** What the checksum of a UBI header notices, and what it does not. */
module UbiDamage {
  import opened BurstWindows
  import opened Crc32
  import opened UbiMedia

  // Damage anywhere.

  /** The bits in which two messages differ. */
  function Difference(u: seq<bool>, v: seq<bool>): (r: seq<bool>)
    requires |u| == |v|
    ensures |r| == |u|
  {
    if u == [] then [] else [u[0] != v[0]] + Difference(u[1..], v[1..])
  }

  lemma BitXor(x: bool, y: bool)
    ensures Xor(Bit(x), Bit(y)) == Bit(x != y)
  {}

  lemma XorFour(s: bv32, t: bv32, a: bv32, b: bv32)
    ensures Xor(Xor(s, a), Xor(t, b)) == Xor(Xor(s, t), Xor(a, b))
  {
    hide Xor;
    XorAssoc(s, a, Xor(t, b));
    XorAssoc(a, t, b);
    XorComm(a, t);
    XorAssoc(t, a, b);
    XorAssoc(s, t, Xor(a, b));
  }

  /** The division is linear. */
  lemma {:induction false} FeedLinear(s: bv32, t: bv32, u: seq<bool>, v: seq<bool>)
    requires |u| == |v|
    ensures Xor(Feed(s, u), Feed(t, v)) == Feed(Xor(s, t), Difference(u, v))
    decreases |u|
  {
    hide Xor, Bit, Step;
    if u != [] {
      var a, b := Xor(s, Bit(u[0])), Xor(t, Bit(v[0]));
      StepXor(a, b);
      XorFour(s, t, Bit(u[0]), Bit(v[0]));
      BitXor(u[0], v[0]);
      FeedLinear(Step(a), Step(b), u[1..], v[1..]);
    }
  }

  /**
   * Damage to a sealed header goes unnoticed exactly when the change of the stored checksum is the remainder of the
   * change of the bits; it depends on the damage alone.
   */
  lemma {:induction false} UnnoticedExactly(b: Bytes, crc: Bytes, b': Bytes, crc': Bytes)
    requires |b| == |b'| && |crc| == |crc'| == 4 && Sealed(b + crc)
    ensures Sealed(b' + crc') <==> Xor(Word4(crc), Word4(crc')) == Feed(0, Difference(Bits(b), Bits(b')))
  {
    hide Xor, Feed, Bits, Word4, Difference;
    Parts(b, crc);
    Parts(b', crc');
    FeedLinear(CRC32_INIT, CRC32_INIT, Bits(b), Bits(b'));
    XorZero(CRC32_INIT);
    SameSum(Word4(crc), Word4(crc'), Crc(CRC32_INIT, b'));
  }

  lemma SameSum(x: bv32, y: bv32, z: bv32)
    ensures Xor(x, y) == Xor(x, z) <==> y == z
  {
    hide Xor;
    XorLaws(y, x);
    XorLaws(z, x);
    XorComm(x, y);
    XorComm(x, z);
  }

  lemma Parts(b: Bytes, crc: Bytes)
    requires |crc| == 4
    ensures (b + crc)[..|b + crc| - 4] == b && (b + crc)[|b + crc| - 4..] == crc
    ensures Sealed(b + crc) <==> Word4(crc) == Crc(CRC32_INIT, b)
  {}

  /** A burst of at most 32 bits in the bytes under the checksum is noticed. */
  lemma {:induction false} BurstInBody(b: Bytes, d: Bytes, crc: Bytes, lo: nat)
    requires |b| == |d| && b != d && |crc| == 4 && Sealed(b + crc)
    requires forall i :: 0 <= i < 8 * |b| && !(lo <= i < lo + 32) ==> Bits(b)[i] == Bits(d)[i]
    ensures !Sealed(d + crc)
  {
    hide Crc, Bits, Word4;
    Parts(b, crc);
    Parts(d, crc);
    BurstDetected(CRC32_INIT, b, d, lo);
  }

  /** Any damage to the checksum alone is noticed. */
  lemma DamagedChecksum(b: Bytes, crc: Bytes, d: Bytes)
    requires |crc| == |d| == 4 && crc != d && Sealed(b + crc)
    ensures !Sealed(b + d)
  {
    hide Crc, Word4;
    Parts(b, crc);
    Parts(b, d);
    BytesOfWord(crc);
    BytesOfWord(d);
  }

  // Damage in the last four bytes under the checksum, and in the checksum.

  lemma WordIsSwapped(s: Bytes)
    requires |s| == 4
    ensures Word4(s) == Swap(Little(s))
  {}

  lemma {:induction false} CrcOfFour(a: Bytes, x: Bytes)
    requires |x| == 4
    ensures Crc(CRC32_INIT, a + x) == Steps(32, Xor(Crc(CRC32_INIT, a), Little(x)))
  {
    hide Xor, Feed, Bits, Pack, Steps, Little;
    CrcConcat(CRC32_INIT, a, x);
    FeedPacked(Feed(CRC32_INIT, Bits(a)), Bits(x));
    PackLittle(x);
  }

  lemma {:induction false} TailUnnoticed(a: Bytes, x: Bytes, y: Bytes, x': Bytes, y': Bytes)
    requires |x| == |y| == |x'| == |y'| == 4 && Sealed(a + x + y)
    ensures Sealed(a + x' + y') <==> Silent(Xor(Little(x), Little(x')), Xor(Little(y), Little(y')))
  {
    hide Xor, Crc, Word4, Steps, Little, Swap;
    var s := Crc(CRC32_INIT, a);
    Parts(a + x, y);
    Parts(a + x', y');
    CrcOfFour(a, x);
    CrcOfFour(a, x');
    WordIsSwapped(y);
    WordIsSwapped(y');
    SwapXor(Little(y), Little(y'));
    StepsXor(32, Xor(s, Little(x)), Xor(s, Little(x')));
    XorFour(s, s, Little(x), Little(x'));
    XorZero(s);
    XorZero(Xor(Little(x), Little(x')));
    SameSum(Word4(y), Word4(y'), Crc(CRC32_INIT, a + x'));
  }

  // Bursts.

  /** The same bits outside of a window of 32 bits. */
  predicate SameAround(s: seq<bool>, t: seq<bool>, lo: nat)
    requires |s| == |t|
  {
    forall i :: 0 <= i < |s| && !(lo <= i < lo + 32) ==> t[i] == s[i]
  }

  /** The same header but for a window of 32 bits. */
  predicate Burst(g: Bytes, h: Bytes, lo: nat) {
    |g| == |h| && SameAround(Bits(h), Bits(g), lo)
  }

  /** Every burst in a window makes a header invalid. */
  ghost predicate Noticed(h: Bytes, lo: nat) {
    forall g :: Burst(g, h, lo) && g != h ==> !Sealed(g)
  }

  /** Where the bits of the last eight bytes are. */
  lemma {:induction false} ThreeParts(a: Bytes, x: Bytes, y: Bytes)
    requires |x| == |y| == 4
    ensures Bits(a + x + y) == Bits(a) + Bits(x) + Bits(y)
  {
    hide Bits;
    BitsConcat(a + x, y);
    BitsConcat(a, x);
  }

  /** A window that starts in the second of three parts. */
  lemma WindowParts(a: seq<bool>, x: seq<bool>, y: seq<bool>, a': seq<bool>, x': seq<bool>, y': seq<bool>, k: nat)
    requires |a| == |a'| && |x| == |x'| == |y| == |y'| == 32 && k <= 32
    ensures SameAround(a + x + y, a' + x' + y', |a| + k) <==> a' == a && Agree(x, x', 0, k) && Agree(y, y', k, 32)
  {
    var s, t := a + x + y, a' + x' + y';
    if SameAround(s, t, |a| + k) {
      AroundParts(a, x, y, s, a', x', y', t, k);
    }
    if a' == a && Agree(x, x', 0, k) && Agree(y, y', k, 32) {
      forall i | 0 <= i < |s| && !(|a| + k <= i < |a| + k + 32)
        ensures t[i] == s[i]
      {
        AroundAt(a, x, y, x', y', k, i);
      }
    }
  }

  lemma AroundAt(a: seq<bool>, x: seq<bool>, y: seq<bool>, x': seq<bool>, y': seq<bool>, k: nat, i: nat)
    requires |x| == |x'| == |y| == |y'| == 32 && k <= 32 && Agree(x, x', 0, k) && Agree(y, y', k, 32)
    requires i < |a| + 64 && !(|a| + k <= i < |a| + k + 32)
    ensures (a + x' + y')[i] == (a + x + y)[i]
  {
    if |a| <= i < |a| + 32 {
      assert x[i - |a|] == x'[i - |a|];
    } else if i >= |a| + 32 {
      assert y[i - |a| - 32] == y'[i - |a| - 32];
    }
  }

  lemma AroundParts(a: seq<bool>, x: seq<bool>, y: seq<bool>, s: seq<bool>, a': seq<bool>, x': seq<bool>, y': seq<bool>,
                    t: seq<bool>, k: nat)
    requires |a| == |a'| && |x| == |x'| == |y| == |y'| == 32 && k <= 32
    requires s == a + x + y && t == a' + x' + y' && SameAround(s, t, |a| + k)
    ensures a' == a && Agree(x, x', 0, k) && Agree(y, y', k, 32)
  {
    forall i | 0 <= i < |a|
      ensures a'[i] == a[i]
    {
      assert s[i] == a[i] && t[i] == a'[i];
    }
    forall i | 0 <= i < k
      ensures x[i] == x'[i]
    {
      assert s[|a| + i] == x[i] && t[|a| + i] == x'[i];
    }
    forall i | k <= i < 32
      ensures y[i] == y'[i]
    {
      assert s[|a| + 32 + i] == y[i] && t[|a| + 32 + i] == y'[i];
    }
  }

  /** A burst near the end of a header, with j bits of its window in front of the checksum. */
  lemma {:induction false} BurstParts(a: Bytes, x: Bytes, y: Bytes, a': Bytes, x': Bytes, y': Bytes, j: nat)
    requires |a| == |a'| && |x| == |y| == |x'| == |y'| == 4 && j <= 32
    ensures Burst(a' + x' + y', a + x + y, 8 * |a| + 32 - j) <==>
      a == a' && Fits(j, Xor(Little(x), Little(x')), Xor(Little(y), Little(y')))
  {
    hide Bits, Xor, Little, Ones, And, Within, Agree, SameAround;
    ThreeParts(a, x, y);
    ThreeParts(a', x', y');
    WindowParts(Bits(a), Bits(x), Bits(y), Bits(a'), Bits(x'), Bits(y'), 32 - j);
    SameBits(32 - j, x, x');
    SameBits(32 - j, y, y');
    if Bits(a) == Bits(a') {
      BitsInjective(a', a);
    }
  }

  lemma LittleSame(s: Bytes, t: Bytes)
    requires |s| == |t| == 4
    ensures Xor(Little(s), Little(t)) == 0 <==> s == t
  {
    hide Xor, Little;
    XorLaws(Little(s), Little(t));
    FourOfLittle(s);
    FourOfLittle(t);
  }

  lemma FourOfLittle(s: Bytes)
    requires |s| == 4
    ensures Four(Little(s)) == s
  {}

  /** Four bytes with some bits flipped. */
  function Flipped(s: Bytes, w: bv32): (r: Bytes)
    requires |s| == 4
    ensures |r| == 4
  {
    Four(Xor(Little(s), w))
  }

  lemma FlippedBy(s: Bytes, w: bv32)
    requires |s| == 4
    ensures Xor(Little(s), Little(Flipped(s, w))) == w
  {
    hide Xor, Little, Four;
    LittleOfFour(Xor(Little(s), w));
    XorLaws(w, Little(s));
    XorComm(Little(s), Xor(Little(s), w));
    XorComm(Little(s), w);
  }

  /** The damage that gets through a blind window; it is the same in every header. */
  function Tainted(h: Bytes, j: nat): (r: Bytes)
    requires |h| >= 8
    ensures |r| == |h|
  {
    var n := |h|;
    h[..n - 8] + Flipped(h[n - 8..n - 4], BodyDamage(j)) + Flipped(h[n - 4..], StoredDamage(j))
  }

  lemma {:induction false} TaintedUnnoticed(h: Bytes, j: nat)
    requires |h| >= 8 && Sealed(h) && Blind(j)
    ensures Sealed(Tainted(h, j)) && Tainted(h, j) != h && Burst(Tainted(h, j), h, 8 * |h| - 32 - j)
  {
    hide Xor, Little, Sealed, Silent, Fits, Burst, Flipped, BodyDamage, StoredDamage, Blind;
    BlindInside(j);
    var n := |h|;
    var a, x, y := h[..n - 8], h[n - 8..n - 4], h[n - 4..];
    var x', y' := Flipped(x, BodyDamage(j)), Flipped(y, StoredDamage(j));
    assert h == a + x + y;
    FlippedBy(x, BodyDamage(j));
    FlippedBy(y, StoredDamage(j));
    LetsThrough(j);
    TailUnnoticed(a, x, y, x', y');
    BurstParts(a, x, y, a, x', y', j);
    LittleSame(x, x');
    assert Tainted(h, j)[n - 8..n - 4] == x';
  }

  lemma BlindInside(j: int)
    ensures Blind(j) ==> 1 <= j <= 31
  {}

  lemma {:induction false} BorderNoticed(h: Bytes, g: Bytes, j: nat)
    requires |h| >= 8 && Sealed(h) && j <= 32 && !Blind(j) && Burst(g, h, 8 * |h| - 32 - j) && g != h
    ensures !Sealed(g)
  {
    hide Xor, Little, Sealed, Silent, Fits, Burst, Blind;
    var n := |h|;
    BurstLength(g, h, 8 * n - 32 - j);
    var a, x, y := h[..n - 8], h[n - 8..n - 4], h[n - 4..];
    var a', x', y' := g[..n - 8], g[n - 8..n - 4], g[n - 4..];
    assert h == a + x + y && g == a' + x' + y';
    BurstParts(a, x, y, a', x', y', j);
    TailUnnoticed(a, x, y, x', y');
    if Sealed(g) {
      StopsAll(j, Xor(Little(x), Little(x')), Xor(Little(y), Little(y')));
      LittleSame(x, x');
      LittleSame(y, y');
    }
  }

  lemma BurstLength(g: Bytes, h: Bytes, lo: nat)
    requires Burst(g, h, lo)
    ensures |g| == |h|
  {}

  /** A window in front of the checksum. */
  lemma {:induction false} BodyNoticed(h: Bytes, g: Bytes, lo: nat)
    requires |h| >= 4 && Sealed(h) && lo + 64 <= 8 * |h| && Burst(g, h, lo) && g != h
    ensures !Sealed(g)
  {
    hide Sealed, Bits;
    var n := |h| - 4;
    var b, d, crc, crc' := h[..n], g[..n], h[n..], g[n..];
    assert h == b + crc && g == d + crc';
    BitsConcat(b, crc);
    BitsConcat(d, crc');
    assert forall i :: 0 <= i < 32 ==> Bits(crc)[i] == Bits(h)[8 * n + i] && Bits(crc')[i] == Bits(g)[8 * n + i];
    assert Bits(crc) == Bits(crc');
    BitsInjective(crc, crc');
    assert forall i :: 0 <= i < 8 * n ==> Bits(b)[i] == Bits(h)[i] && Bits(d)[i] == Bits(g)[i];
    BurstInBody(b, d, crc, lo);
  }

  /**
   * In every header, all bursts in a window of 32 bits are noticed if and only if the number of bits of the window in
   * front of the checksum is not one of those in Blind.
   */
  lemma {:induction false} BurstsNoticed(h: Bytes, lo: nat)
    requires |h| >= 8 && Sealed(h) && lo + 32 <= 8 * |h|
    ensures Noticed(h, lo) <==> !Blind(8 * |h| - 32 - lo)
  {
    hide Sealed, Burst, Blind, Tainted;
    var j := 8 * |h| - 32 - lo;
    BlindInside(j);
    if Blind(j) {
      TaintedUnnoticed(h, j);
    } else {
      forall g | Burst(g, h, lo) && g != h
        ensures !Sealed(g)
      {
        if j <= 32 {
          BorderNoticed(h, g, j);
        } else {
          BodyNoticed(h, g, lo);
        }
      }
    }
  }

  /** The same header but for a window of some width. */
  predicate Confined(g: Bytes, h: Bytes, lo: nat, width: nat) {
    |g| == |h| && forall i :: 0 <= i < 8 * |h| && !(lo <= i < lo + width) ==> Bits(g)[i] == Bits(h)[i]
  }

  lemma ConfinedWider(g: Bytes, h: Bytes, lo: nat, width: nat, w: nat)
    requires Confined(g, h, lo, width) && w <= lo && (lo + width <= w + 32 || 8 * |h| <= w + 32)
    ensures Burst(g, h, w)
  {
    hide Bits;
  }

  /** Three blind windows in a row. */
  lemma {:induction false} InnerNoticed(h: Bytes, g: Bytes, j: nat)
    requires |h| >= 8 && Sealed(h) && Blind(j) && Blind(j + 1) && Blind(j + 2) && g != h
    requires Burst(g, h, 8 * |h| - 32 - j) && Burst(g, h, 8 * |h| - 34 - j)
    ensures !Sealed(g)
  {
    hide Xor, Little, Sealed, Silent, Fits, Burst, Blind;
    BlindInside(j + 2);
    var n := |h|;
    BurstLength(g, h, 8 * n - 32 - j);
    var a, x, y := h[..n - 8], h[n - 8..n - 4], h[n - 4..];
    var a', x', y' := g[..n - 8], g[n - 8..n - 4], g[n - 4..];
    assert h == a + x + y && g == a' + x' + y';
    BurstParts(a, x, y, a', x', y', j);
    BurstParts(a, x, y, a', x', y', j + 2);
    TailUnnoticed(a, x, y, x', y');
    if Sealed(g) {
      StopsBoth(j, Xor(Little(x), Little(x')), Xor(Little(y), Little(y')));
      LittleSame(x, x');
      LittleSame(y, y');
    }
  }

  /** Every burst of at most 30 bits is noticed, wherever it lies. */
  lemma {:induction false} ShortBurstsNoticed(h: Bytes, g: Bytes, lo: nat)
    requires |h| >= 8 && Sealed(h) && Confined(g, h, lo, 30) && g != h
    ensures !Sealed(g)
  {
    hide Sealed, Burst, Confined, Blind;
    var n := 8 * |h|;
    if lo + 32 >= n {
      ConfinedWider(g, h, lo, 30, n - 32);
      BurstsNoticed(h, n - 32);
      BlindInside(0);
    } else {
      var j := n - 32 - lo;
      BlindInside(j);
      BlindInside(j + 1);
      ConfinedWider(g, h, lo, 30, lo);
      BurstsNoticed(h, lo);
      if Blind(j) {
        ConfinedWider(g, h, lo, 30, lo - 1);
        BurstsNoticed(h, lo - 1);
        if Blind(j + 1) {
          ConfinedWider(g, h, lo, 30, lo - 2);
          BurstsNoticed(h, lo - 2);
          if Blind(j + 2) {
            InnerNoticed(h, g, j);
          }
        }
      }
    }
  }

  /** In every header, one burst of 31 bits is not. */
  lemma {:induction false} LongerBurstMissed(h: Bytes)
    requires |h| >= 8 && Sealed(h)
    ensures Sealed(Tainted(h, 1)) && Tainted(h, 1) != h && Confined(Tainted(h, 1), h, 8 * |h| - 33, 31)
  {
    hide Sealed, Flipped, Bits;
    TaintedUnnoticed(h, 1);
    TaintedUnnoticed(h, 2);
    assert Tainted(h, 1) == Tainted(h, 2);
  }
}

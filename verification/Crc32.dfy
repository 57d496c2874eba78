/** The table-driven CRC-32 of lib/libcrc32.c and the polynomial division it stands for. */
module Crc32 {
  // Bit-at-a-time division by the reflected polynomial, section 8 of RFC 1952.

  const POLYNOMIAL: bv32 := 0xEDB88320

  function Xor(a: bv32, b: bv32): bv32 { a ^ b }

  function Half(s: bv32): bv32 { s >> 1 }

  function Double(s: bv32): bv32 { s << 1 }

  function Low(s: bv32): bv32 { s & 1 }

  function Bit(b: bool): bv32 { if b then 1 else 0 }

  function Step(s: bv32): bv32 {
    if Low(s) == 1 then Xor(Half(s), POLYNOMIAL) else Half(s)
  }

  function Steps(n: nat, s: bv32): bv32 {
    if n == 0 then s else Steps(n - 1, Step(s))
  }

  /** Feed message bits into the register, the least significant bit of each byte first. */
  function Feed(s: bv32, bits: seq<bool>): bv32
    decreases |bits|
  {
    if bits == [] then s else Feed(Step(Xor(s, Bit(bits[0]))), bits[1..])
  }

  /** The n lowest bits of a word, the least significant first. */
  function LowBits(n: nat, c: bv32): (r: seq<bool>)
    ensures |r| == n
  {
    if n == 0 then [] else [Low(c) == 1] + LowBits(n - 1, Half(c))
  }

  function Bits8(b: bv8): (r: seq<bool>)
    ensures |r| == 8
  {
    LowBits(8, b as bv32)
  }

  function Bits(m: seq<bv8>): (r: seq<bool>)
    ensures |r| == 8 * |m|
  {
    if m == [] then [] else Bits8(m[0]) + Bits(m[1..])
  }

  /** The CRC of a message, from a given start value. */
  function Crc(s: bv32, m: seq<bv8>): bv32 { Feed(s, Bits(m)) }

  lemma XorLaws(a: bv32, b: bv32)
    ensures Xor(a, b) == Xor(b, a)
    ensures Xor(a, 0) == a && Xor(0, a) == a
    ensures Xor(Xor(a, b), b) == a && Xor(Xor(b, a), b) == a
    ensures Xor(a, b) == 0 <==> a == b
  {
    hide Xor;
    XorBack(a, b);
    XorComm(a, b);
    XorZero(a);
    if Xor(a, b) == 0 { XorCancel(a, b); }
  }

  lemma XorZero(a: bv32)
    ensures Xor(a, 0) == a && Xor(0, a) == a && Xor(a, a) == 0
  {}

  lemma XorBack(a: bv32, b: bv32)
    ensures Xor(Xor(a, b), b) == a
  {
    assert (a ^ b) ^ b == a;
  }

  lemma XorComm(a: bv32, b: bv32)
    ensures Xor(a, b) == Xor(b, a)
  {}

  lemma XorCancel(a: bv32, b: bv32)
    requires Xor(a, b) == 0
    ensures a == b
  {
    assert (a ^ b) ^ b == a;
  }

  lemma XorAssoc(a: bv32, b: bv32, c: bv32)
    ensures Xor(Xor(a, b), c) == Xor(a, Xor(b, c))
  {
    assert (a ^ b) ^ c == a ^ (b ^ c);
  }

  lemma XorHalves(a: bv32, b: bv32)
    ensures Half(Xor(a, b)) == Xor(Half(a), Half(b))
  {
    calc {
      Half(Xor(a, b));
      (a ^ b) >> 1;
      (a >> 1) ^ (b >> 1);
      Xor(Half(a), Half(b));
    }
  }

  lemma XorLows(a: bv32, b: bv32)
    ensures Low(Xor(a, b)) == Xor(Low(a), Low(b))
  {
    calc {
      Low(Xor(a, b));
      (a ^ b) & 1;
      (a & 1) ^ (b & 1);
      Xor(Low(a), Low(b));
    }
  }

  lemma LowBit(a: bv32)
    ensures Low(a) == 0 || Low(a) == 1
  {}

  lemma XorBits()
    ensures Xor(0, 0) == 0 && Xor(0, 1) == 1 && Xor(1, 0) == 1 && Xor(1, 1) == 0
  {}

  lemma XorShuffle(u: bv32, v: bv32, p: bv32)
    ensures Xor(Xor(u, p), v) == Xor(Xor(u, v), p)
    ensures Xor(u, Xor(v, p)) == Xor(Xor(u, v), p)
    ensures Xor(Xor(u, p), Xor(v, p)) == Xor(u, v)
  {
    hide Xor;
    XorAssoc(u, v, p);
    XorAssoc(u, p, v);
    XorAssoc(u, p, Xor(v, p));
    XorLaws(v, p);
    XorLaws(p, v);
    XorBack(v, p);
    XorComm(p, Xor(v, p));
  }

  lemma StepXor(a: bv32, b: bv32)
    ensures Step(Xor(a, b)) == Xor(Step(a), Step(b))
  {
    hide Xor, Half, Low;
    XorShuffle(Half(a), Half(b), POLYNOMIAL);
    XorHalves(a, b);
    XorLows(a, b);
    LowBit(a);
    LowBit(b);
    XorBits();
    if Low(a) == 1 {
      if Low(b) == 1 {
        assert Step(Xor(a, b)) == Xor(Half(a), Half(b));
      } else {
        assert Step(Xor(a, b)) == Xor(Xor(Half(a), Half(b)), POLYNOMIAL);
      }
    }
  }

  lemma StepNonzero(s: bv32)
    ensures Step(s) == 0 <==> s == 0
  {}

  lemma {:induction false} StepsXor(n: nat, a: bv32, b: bv32)
    ensures Steps(n, Xor(a, b)) == Xor(Steps(n, a), Steps(n, b))
  {
    hide Step, Xor;
    if n != 0 {
      StepXor(a, b);
      StepsXor(n - 1, Step(a), Step(b));
    }
  }

  lemma {:induction false} StepsNonzero(n: nat, s: bv32)
    ensures Steps(n, s) == 0 <==> s == 0
  {
    hide Step;
    if n != 0 {
      StepNonzero(s);
      StepsNonzero(n - 1, Step(s));
    }
  }

  lemma {:induction false} StepsInjective(n: nat, a: bv32, b: bv32)
    ensures Steps(n, a) == Steps(n, b) <==> a == b
  {
    hide Step, Xor;
    StepsXor(n, a, b);
    StepsNonzero(n, Xor(a, b));
    XorLaws(a, b);
    XorLaws(Steps(n, a), Steps(n, b));
  }

  lemma {:induction false} FeedConcat(s: bv32, a: seq<bool>, b: seq<bool>)
    ensures Feed(s, a + b) == Feed(Feed(s, a), b)
    decreases |a|
  {
    hide Step, Xor, Bit;
    if a == [] {
      assert a + b == b;
    } else {
      assert (a + b)[1..] == a[1..] + b;
      FeedConcat(Step(Xor(s, Bit(a[0]))), a[1..], b);
    }
  }

  lemma {:induction false} BitsConcat(a: seq<bv8>, b: seq<bv8>)
    ensures Bits(a + b) == Bits(a) + Bits(b)
  {
    hide Bits8;
    if a == [] {
      assert a + b == b;
    } else {
      assert (a + b)[1..] == a[1..] + b;
      BitsConcat(a[1..], b);
    }
  }

  /** A CRC can be continued: the second part is seeded by the first. */
  lemma CrcConcat(s: bv32, a: seq<bv8>, b: seq<bv8>)
    ensures Crc(s, a + b) == Crc(Crc(s, a), b)
  {
    BitsConcat(a, b);
    FeedConcat(s, Bits(a), Bits(b));
  }

  // Up to 32 bits can be added to the register at once, before stepping.

  function Pack(bits: seq<bool>): bv32
    decreases |bits|
  {
    if bits == [] then 0 else Xor(Bit(bits[0]), Double(Pack(bits[1..])))
  }

  function Grow(u: bv32): bv32 { (u << 1) | 1 }

  /** The number with the n lowest bits set. */
  function Ones(n: nat): bv32 {
    if n == 0 then 0 else Grow(Ones(n - 1))
  }

  predicate Within(p: bv32, u: bv32) { p | u == u }

  lemma GrowWithin(p: bv32, u: bv32)
    requires Within(p, u)
    ensures Within(Grow(p), Grow(u))
  {
    OrShift(p, u);
  }

  lemma OrShift(a: bv32, b: bv32)
    requires a | b == b
    ensures ((a << 1) | 1) | ((b << 1) | 1) == ((b << 1) | 1)
  {
    assert (a << 1) | (b << 1) == (a | b) << 1;
  }

  lemma WithoutLow(p: bv32, w: bv32)
    requires ((p << 1) | 1) | w == w
    ensures (p << 1) | w == w
  {}

  lemma WithLow(p: bv32, w: bv32)
    requires ((p << 1) | 1) | w == w
    ensures (1 ^ (p << 1)) | w == w
  {}

  lemma PackStep(b: bool, p: bv32, w: bv32)
    requires Within(Grow(p), w)
    ensures Within(Xor(Bit(b), Double(p)), w)
  {
    if b { PackStepOne(p, w); } else { PackStepZero(p, w); }
  }

  lemma PackStepOne(p: bv32, w: bv32)
    requires Within(Grow(p), w)
    ensures Within(Xor(1, Double(p)), w)
  {
    WithLow(p, w);
    assert Xor(1, Double(p)) == 1 ^ (p << 1);
  }

  lemma PackStepZero(p: bv32, w: bv32)
    requires Within(Grow(p), w)
    ensures Within(Xor(0, Double(p)), w)
  {
    hide Xor;
    WithoutLow(p, w);
    XorZero(Double(p));
  }

  lemma WithinSelf(u: bv32)
    ensures Within(0, u) && Within(u, u)
  {}

  lemma WithinTrans(p: bv32, u: bv32, w: bv32)
    requires Within(p, u) && Within(u, w)
    ensures Within(p, w)
  {
    assert p | (u | w) == (p | u) | w;
  }

  lemma {:induction false} OnesWithin(n: nat, m: nat)
    requires n <= m
    ensures Within(Ones(n), Ones(m))
  {
    hide Within, Grow;
    if n == 0 {
      WithinSelf(Ones(m));
    } else {
      OnesWithin(n - 1, m - 1);
      GrowWithin(Ones(n - 1), Ones(m - 1));
    }
  }

  lemma {:induction false} PackWithin(bits: seq<bool>)
    ensures Within(Pack(bits), Ones(|bits|))
  {
    hide Xor, Bit, Within, Grow;
    if bits == [] {
      WithinSelf(0);
    } else {
      PackWithin(bits[1..]);
      GrowWithin(Pack(bits[1..]), Ones(|bits| - 1));
      PackStep(bits[0], Pack(bits[1..]), Ones(|bits|));
    }
  }

  lemma OnesNext(n: nat)
    ensures Ones(n + 1) == Grow(Ones(n))
  {}

  function Grow4(u: bv32): bv32 { Grow(Grow(Grow(Grow(u)))) }

  lemma OnesNext4(n: nat)
    ensures Ones(n + 4) == Grow4(Ones(n))
  {
    hide Ones, Grow;
    OnesNext(n);
    OnesNext(n + 1);
    OnesNext(n + 2);
    OnesNext(n + 3);
  }

  lemma OnesTop()
    ensures Ones(31) == 0x7FFF_FFFF
  {
    hide Ones;
    OnesZero();
    OnesNext(0);
    OnesNext(1);
    OnesNext(2);
    OnesNext4(3);
    OnesNext4(7);
    OnesNext4(11);
    OnesNext4(15);
    OnesNext4(19);
    OnesNext4(23);
    OnesNext4(27);
  }

  lemma OnesZero()
    ensures Ones(0) == 0
  {}

  /** Doubling loses nothing when the top bit is clear. */
  lemma DoubleHalf(p: bv32)
    requires Within(p, 0x7FFF_FFFF)
    ensures Half(Double(p)) == p && Low(Double(p)) == 0
  {}

  lemma StepDouble(p: bv32)
    requires Within(p, 0x7FFF_FFFF)
    ensures Step(Double(p)) == p
  {
    hide Half, Low, Double, Within;
    DoubleHalf(p);
  }

  lemma PackTail(bits: seq<bool>)
    requires 1 <= |bits| <= 32
    ensures Within(Pack(bits[1..]), 0x7FFF_FFFF)
  {
    hide Within;
    PackWithin(bits[1..]);
    OnesWithin(|bits| - 1, 31);
    OnesTop();
    WithinTrans(Pack(bits[1..]), Ones(|bits| - 1), Ones(31));
  }

  /** Feeding at most 32 bits is adding them all and stepping. */
  lemma {:induction false} FeedPacked(s: bv32, bits: seq<bool>)
    requires |bits| <= 32
    ensures Feed(s, bits) == Steps(|bits|, Xor(s, Pack(bits)))
    decreases |bits|
  {
    hide Xor, Bit, Step, Double, Within;
    if bits == [] {
      XorZero(s);
    } else {
      var b, p := Bit(bits[0]), Pack(bits[1..]);
      FeedPacked(Step(Xor(s, b)), bits[1..]);
      PackTail(bits);
      StepDouble(p);
      StepXor(Xor(s, b), Double(p));
      XorAssoc(s, b, Double(p));
    }
  }

  lemma {:induction false} PackInjective(a: seq<bool>, b: seq<bool>)
    requires |a| == |b| <= 32 && Pack(a) == Pack(b)
    ensures a == b
    decreases |a|
  {
    hide Xor, Bit, Half, Low, Double;
    if a != [] {
      PackTail(a);
      PackTail(b);
      PackParts(a[0], Pack(a[1..]));
      PackParts(b[0], Pack(b[1..]));
      PackInjective(a[1..], b[1..]);
    }
  }

  lemma PackParts(b: bool, p: bv32)
    requires Within(p, 0x7FFF_FFFF)
    ensures Low(Xor(Bit(b), Double(p))) == Bit(b)
    ensures Half(Xor(Bit(b), Double(p))) == p
    ensures Bit(true) != Bit(false)
  {
    hide Xor, Bit, Half, Low, Double, Within;
    DoubleHalf(p);
    BitParts(b);
    XorHalves(Bit(b), Double(p));
    XorLows(Bit(b), Double(p));
    XorZero(Bit(b));
    XorZero(p);
  }

  lemma BitParts(b: bool)
    ensures Low(Bit(b)) == Bit(b) && Half(Bit(b)) == 0
    ensures Bit(true) != Bit(false)
  {}

  /** Different registers stay different, whatever is fed to both. */
  lemma {:induction false} FeedInjective(s: bv32, t: bv32, bits: seq<bool>)
    requires Feed(s, bits) == Feed(t, bits)
    ensures s == t
    decreases |bits|
  {
    hide Xor, Bit, Step;
    if bits != [] {
      var b := Bit(bits[0]);
      FeedInjective(Step(Xor(s, b)), Step(Xor(t, b)), bits[1..]);
      StepXor(Xor(s, b), Xor(t, b));
      XorLaws(Step(Xor(s, b)), Step(Xor(t, b)));
      StepNonzero(Xor(Xor(s, b), Xor(t, b)));
      XorLaws(Xor(s, b), Xor(t, b));
      XorLaws(s, b);
      XorLaws(t, b);
    }
  }

  lemma {:induction false} BitsInjective(a: seq<bv8>, b: seq<bv8>)
    requires |a| == |b| && Bits(a) == Bits(b)
    ensures a == b
  {
    hide Bits8;
    if a != [] {
      assert Bits8(a[0]) == Bits(a)[..8] && Bits8(b[0]) == Bits(b)[..8];
      assert Bits(a[1..]) == Bits(a)[8..] && Bits(b[1..]) == Bits(b)[8..];
      Bits8Injective(a[0], b[0]);
      BitsInjective(a[1..], b[1..]);
    }
  }

  lemma Bits8Injective(a: bv8, b: bv8)
    requires Bits8(a) == Bits8(b)
    ensures a == b
  {
    hide LowBits, Pack;
    PackByte(a);
    PackByte(b);
    WidenInjective(a, b);
  }

  lemma WidenInjective(a: bv8, b: bv8)
    requires a as bv32 == b as bv32
    ensures a == b
  {}

  /** Packing the bits of a byte gives the byte. */
  lemma PackByte(b: bv8)
    ensures Pack(Bits8(b)) == b as bv32
  {
    hide LowBits, Pack, Ones, Grow;
    OnesEight();
    WidenWithin(b);
    PackLowBits(8, b as bv32);
  }

  lemma OnesEight()
    ensures Ones(8) == 255
  {
    hide Ones;
    OnesZero();
    OnesNext4(0);
    OnesNext4(4);
  }

  lemma WidenWithin(b: bv8)
    ensures Within(b as bv32, 255)
  {}

  lemma {:induction false} PackLowBits(n: nat, c: bv32)
    requires n <= 32 && Within(c, Ones(n))
    ensures Pack(LowBits(n, c)) == c
  {
    hide Xor, Low, Half, Double, Within, Grow, Bit;
    if n == 0 {
      OnesZero();
      WithinZero(c);
    } else {
      OnesWithin(n - 1, 31);
      OnesTop();
      HalfWithin(c, Ones(n - 1));
      PackLowBits(n - 1, Half(c));
      assert LowBits(n, c)[1..] == LowBits(n - 1, Half(c));
      Reassemble(c);
    }
  }

  lemma WithinZero(c: bv32)
    requires Within(c, 0)
    ensures c == 0
  {}

  lemma HalfWithin(c: bv32, u: bv32)
    requires Within(c, Grow(u)) && Within(u, 0x7FFF_FFFF)
    ensures Within(Half(c), u)
  {
    hide Half, Grow;
    GrowHalf(u);
    OrHalf(c, Grow(u));
  }

  lemma GrowHalf(u: bv32)
    requires u | 0x7FFF_FFFF == 0x7FFF_FFFF
    ensures Half(Grow(u)) == u
  {}

  lemma OrHalf(c: bv32, w: bv32)
    requires c | w == w
    ensures Half(c) | Half(w) == Half(w)
  {
    assert (c >> 1) | (w >> 1) == (c | w) >> 1;
  }

  lemma Reassemble(c: bv32)
    ensures Xor(Bit(Low(c) == 1), Double(Half(c))) == c
  {
    hide Xor;
    LowBit(c);
    BitOfLow(c);
    LowHalf(c);
  }

  lemma BitOfLow(c: bv32)
    ensures Bit(Low(c) == 1) == Low(c)
  {
    LowBit(c);
  }

  lemma LowHalf(c: bv32)
    ensures Xor(Low(c), Double(Half(c))) == c
  {
    assert (c & 1) ^ ((c >> 1) << 1) == c;
  }

  /** Different words of at most 32 bits lead to different registers. */
  lemma {:induction false} FeedDiffers(t: bv32, v: seq<bool>, w: seq<bool>)
    requires |v| == |w| <= 32 && Feed(t, v) == Feed(t, w)
    ensures v == w
  {
    hide Feed, Xor, Pack, Steps;
    FeedPacked(t, v);
    FeedPacked(t, w);
    StepsInjective(|v|, Xor(t, Pack(v)), Xor(t, Pack(w)));
    XorLaws(Pack(v), t);
    XorLaws(Pack(w), t);
    XorLaws(t, Pack(v));
    XorLaws(t, Pack(w));
    PackInjective(v, w);
  }

  lemma {:induction false} FeedWindow(s: bv32, p: seq<bool>, v: seq<bool>, w: seq<bool>, q: seq<bool>)
    requires |v| == |w| <= 32 && Feed(s, p + v + q) == Feed(s, p + w + q)
    ensures v == w
  {
    hide Feed;
    FeedConcat(s, p + v, q);
    FeedConcat(s, p + w, q);
    FeedConcat(s, p, v);
    FeedConcat(s, p, w);
    FeedInjective(Feed(Feed(s, p), v), Feed(Feed(s, p), w), q);
    FeedDiffers(Feed(s, p), v, w);
  }

  /**
   * Every burst of at most 32 bits is detected: two messages of equal length that differ, but only
   * inside a window of 32 bits, have different CRCs.
   */
  lemma {:induction false} BurstDetected(s: bv32, a: seq<bv8>, b: seq<bv8>, lo: nat)
    requires |a| == |b| && a != b
    requires forall i :: 0 <= i < 8 * |a| && !(lo <= i < lo + 32) ==> Bits(a)[i] == Bits(b)[i]
    ensures Crc(s, a) != Crc(s, b)
  {
    hide Feed, Bits;
    var x, y := Bits(a), Bits(b);
    var l, h := if lo < |x| then lo else |x|, if lo + 32 < |x| then lo + 32 else |x|;
    SplitWindow(x, y, l, h);
    if Crc(s, a) == Crc(s, b) {
      FeedWindow(s, x[..l], x[l..h], y[l..h], x[h..]);
      BitsInjective(a, b);
    }
  }

  lemma SplitWindow(x: seq<bool>, y: seq<bool>, l: nat, h: nat)
    requires l <= h <= |x| == |y| && forall i :: 0 <= i < |x| && !(l <= i < h) ==> x[i] == y[i]
    ensures x == x[..l] + x[l..h] + x[h..]
    ensures y == x[..l] + y[l..h] + x[h..]
  {}

  /** So is every change of at most four neighbouring bytes. */
  lemma {:induction false} PartDetected(s: bv32, p: seq<bv8>, x: seq<bv8>, y: seq<bv8>, q: seq<bv8>)
    requires |x| == |y| <= 4 && Crc(s, p + x + q) == Crc(s, p + y + q)
    ensures x == y
  {
    hide Feed, Bits;
    BitsConcat(p + x, q);
    BitsConcat(p + y, q);
    BitsConcat(p, x);
    BitsConcat(p, y);
    FeedWindow(s, Bits(p), Bits(x), Bits(y), Bits(q));
    BitsInjective(x, y);
  }

  // The table itself, in rows of eight.

  function TableRow(h: nat): (r: seq<bv32>)
    requires h < 32
    ensures |r| == 8
  {
    if h == 0 then
      [0x00000000, 0x77073096, 0xEE0E612C, 0x990951BA, 0x076DC419, 0x706AF48F, 0xE963A535, 0x9E6495A3]
    else if h == 1 then
      [0x0EDB8832, 0x79DCB8A4, 0xE0D5E91E, 0x97D2D988, 0x09B64C2B, 0x7EB17CBD, 0xE7B82D07, 0x90BF1D91]
    else if h == 2 then
      [0x1DB71064, 0x6AB020F2, 0xF3B97148, 0x84BE41DE, 0x1ADAD47D, 0x6DDDE4EB, 0xF4D4B551, 0x83D385C7]
    else if h == 3 then
      [0x136C9856, 0x646BA8C0, 0xFD62F97A, 0x8A65C9EC, 0x14015C4F, 0x63066CD9, 0xFA0F3D63, 0x8D080DF5]
    else if h == 4 then
      [0x3B6E20C8, 0x4C69105E, 0xD56041E4, 0xA2677172, 0x3C03E4D1, 0x4B04D447, 0xD20D85FD, 0xA50AB56B]
    else if h == 5 then
      [0x35B5A8FA, 0x42B2986C, 0xDBBBC9D6, 0xACBCF940, 0x32D86CE3, 0x45DF5C75, 0xDCD60DCF, 0xABD13D59]
    else if h == 6 then
      [0x26D930AC, 0x51DE003A, 0xC8D75180, 0xBFD06116, 0x21B4F4B5, 0x56B3C423, 0xCFBA9599, 0xB8BDA50F]
    else if h == 7 then
      [0x2802B89E, 0x5F058808, 0xC60CD9B2, 0xB10BE924, 0x2F6F7C87, 0x58684C11, 0xC1611DAB, 0xB6662D3D]
    else if h == 8 then
      [0x76DC4190, 0x01DB7106, 0x98D220BC, 0xEFD5102A, 0x71B18589, 0x06B6B51F, 0x9FBFE4A5, 0xE8B8D433]
    else if h == 9 then
      [0x7807C9A2, 0x0F00F934, 0x9609A88E, 0xE10E9818, 0x7F6A0DBB, 0x086D3D2D, 0x91646C97, 0xE6635C01]
    else if h == 10 then
      [0x6B6B51F4, 0x1C6C6162, 0x856530D8, 0xF262004E, 0x6C0695ED, 0x1B01A57B, 0x8208F4C1, 0xF50FC457]
    else if h == 11 then
      [0x65B0D9C6, 0x12B7E950, 0x8BBEB8EA, 0xFCB9887C, 0x62DD1DDF, 0x15DA2D49, 0x8CD37CF3, 0xFBD44C65]
    else if h == 12 then
      [0x4DB26158, 0x3AB551CE, 0xA3BC0074, 0xD4BB30E2, 0x4ADFA541, 0x3DD895D7, 0xA4D1C46D, 0xD3D6F4FB]
    else if h == 13 then
      [0x4369E96A, 0x346ED9FC, 0xAD678846, 0xDA60B8D0, 0x44042D73, 0x33031DE5, 0xAA0A4C5F, 0xDD0D7CC9]
    else if h == 14 then
      [0x5005713C, 0x270241AA, 0xBE0B1010, 0xC90C2086, 0x5768B525, 0x206F85B3, 0xB966D409, 0xCE61E49F]
    else if h == 15 then
      [0x5EDEF90E, 0x29D9C998, 0xB0D09822, 0xC7D7A8B4, 0x59B33D17, 0x2EB40D81, 0xB7BD5C3B, 0xC0BA6CAD]
    else if h == 16 then
      [0xEDB88320, 0x9ABFB3B6, 0x03B6E20C, 0x74B1D29A, 0xEAD54739, 0x9DD277AF, 0x04DB2615, 0x73DC1683]
    else if h == 17 then
      [0xE3630B12, 0x94643B84, 0x0D6D6A3E, 0x7A6A5AA8, 0xE40ECF0B, 0x9309FF9D, 0x0A00AE27, 0x7D079EB1]
    else if h == 18 then
      [0xF00F9344, 0x8708A3D2, 0x1E01F268, 0x6906C2FE, 0xF762575D, 0x806567CB, 0x196C3671, 0x6E6B06E7]
    else if h == 19 then
      [0xFED41B76, 0x89D32BE0, 0x10DA7A5A, 0x67DD4ACC, 0xF9B9DF6F, 0x8EBEEFF9, 0x17B7BE43, 0x60B08ED5]
    else if h == 20 then
      [0xD6D6A3E8, 0xA1D1937E, 0x38D8C2C4, 0x4FDFF252, 0xD1BB67F1, 0xA6BC5767, 0x3FB506DD, 0x48B2364B]
    else if h == 21 then
      [0xD80D2BDA, 0xAF0A1B4C, 0x36034AF6, 0x41047A60, 0xDF60EFC3, 0xA867DF55, 0x316E8EEF, 0x4669BE79]
    else if h == 22 then
      [0xCB61B38C, 0xBC66831A, 0x256FD2A0, 0x5268E236, 0xCC0C7795, 0xBB0B4703, 0x220216B9, 0x5505262F]
    else if h == 23 then
      [0xC5BA3BBE, 0xB2BD0B28, 0x2BB45A92, 0x5CB36A04, 0xC2D7FFA7, 0xB5D0CF31, 0x2CD99E8B, 0x5BDEAE1D]
    else if h == 24 then
      [0x9B64C2B0, 0xEC63F226, 0x756AA39C, 0x026D930A, 0x9C0906A9, 0xEB0E363F, 0x72076785, 0x05005713]
    else if h == 25 then
      [0x95BF4A82, 0xE2B87A14, 0x7BB12BAE, 0x0CB61B38, 0x92D28E9B, 0xE5D5BE0D, 0x7CDCEFB7, 0x0BDBDF21]
    else if h == 26 then
      [0x86D3D2D4, 0xF1D4E242, 0x68DDB3F8, 0x1FDA836E, 0x81BE16CD, 0xF6B9265B, 0x6FB077E1, 0x18B74777]
    else if h == 27 then
      [0x88085AE6, 0xFF0F6A70, 0x66063BCA, 0x11010B5C, 0x8F659EFF, 0xF862AE69, 0x616BFFD3, 0x166CCF45]
    else if h == 28 then
      [0xA00AE278, 0xD70DD2EE, 0x4E048354, 0x3903B3C2, 0xA7672661, 0xD06016F7, 0x4969474D, 0x3E6E77DB]
    else if h == 29 then
      [0xAED16A4A, 0xD9D65ADC, 0x40DF0B66, 0x37D83BF0, 0xA9BCAE53, 0xDEBB9EC5, 0x47B2CF7F, 0x30B5FFE9]
    else if h == 30 then
      [0xBDBDF21C, 0xCABAC28A, 0x53B39330, 0x24B4A3A6, 0xBAD03605, 0xCDD70693, 0x54DE5729, 0x23D967BF]
    else
      [0xB3667A2E, 0xC4614AB8, 0x5D681B02, 0x2A6F2B94, 0xB40BBE37, 0xC30C8EA1, 0x5A05DF1B, 0x2D02EF8D]
  }

  /** The step written out in machine operations. */
  function RawStep(s: bv32): bv32 { if s & 1 == 1 then (s >> 1) ^ POLYNOMIAL else s >> 1 }

  function Steps8(s: bv32): bv32 {
    RawStep(RawStep(RawStep(RawStep(RawStep(RawStep(RawStep(RawStep(s))))))))
  }

  function Three(j: nat): bv32
    requires j < 8
  {
    if j == 0 then 0 else if j == 1 then 1 else if j == 2 then 2 else if j == 3 then 3
    else if j == 4 then 4 else if j == 5 then 5 else if j == 6 then 6 else 7
  }

  function At(first: bv32, j: nat): bv32
    requires j < 8
  {
    first | Three(j)
  }

  /** Eight consecutive entries are what eight steps make of their positions. */
  predicate RowFrom(r: seq<bv32>, first: bv32) {
    && |r| == 8
    && r[0] == Steps8(At(first, 0)) && r[1] == Steps8(At(first, 1)) && r[2] == Steps8(At(first, 2))
    && r[3] == Steps8(At(first, 3)) && r[4] == Steps8(At(first, 4)) && r[5] == Steps8(At(first, 5))
    && r[6] == Steps8(At(first, 6)) && r[7] == Steps8(At(first, 7))
  }

  lemma Row0() ensures RowFrom(TableRow(0), 0x00) {}

  lemma Row1() ensures RowFrom(TableRow(1), 0x08) {}

  lemma Row2() ensures RowFrom(TableRow(2), 0x10) {}

  lemma Row3() ensures RowFrom(TableRow(3), 0x18) {}

  lemma Row4() ensures RowFrom(TableRow(4), 0x20) {}

  lemma Row5() ensures RowFrom(TableRow(5), 0x28) {}

  lemma Row6() ensures RowFrom(TableRow(6), 0x30) {}

  lemma Row7() ensures RowFrom(TableRow(7), 0x38) {}

  lemma Row8() ensures RowFrom(TableRow(8), 0x40) {}

  lemma Row9() ensures RowFrom(TableRow(9), 0x48) {}

  lemma Row10() ensures RowFrom(TableRow(10), 0x50) {}

  lemma Row11() ensures RowFrom(TableRow(11), 0x58) {}

  lemma Row12() ensures RowFrom(TableRow(12), 0x60) {}

  lemma Row13() ensures RowFrom(TableRow(13), 0x68) {}

  lemma Row14() ensures RowFrom(TableRow(14), 0x70) {}

  lemma Row15() ensures RowFrom(TableRow(15), 0x78) {}

  lemma Row16() ensures RowFrom(TableRow(16), 0x80) {}

  lemma Row17() ensures RowFrom(TableRow(17), 0x88) {}

  lemma Row18() ensures RowFrom(TableRow(18), 0x90) {}

  lemma Row19() ensures RowFrom(TableRow(19), 0x98) {}

  lemma Row20() ensures RowFrom(TableRow(20), 0xA0) {}

  lemma Row21() ensures RowFrom(TableRow(21), 0xA8) {}

  lemma Row22() ensures RowFrom(TableRow(22), 0xB0) {}

  lemma Row23() ensures RowFrom(TableRow(23), 0xB8) {}

  lemma Row24() ensures RowFrom(TableRow(24), 0xC0) {}

  lemma Row25() ensures RowFrom(TableRow(25), 0xC8) {}

  lemma Row26() ensures RowFrom(TableRow(26), 0xD0) {}

  lemma Row27() ensures RowFrom(TableRow(27), 0xD8) {}

  lemma Row28() ensures RowFrom(TableRow(28), 0xE0) {}

  lemma Row29() ensures RowFrom(TableRow(29), 0xE8) {}

  lemma Row30() ensures RowFrom(TableRow(30), 0xF0) {}

  lemma Row31() ensures RowFrom(TableRow(31), 0xF8) {}


  lemma RowOf(h: bv32)
    requires h < 32
    ensures RowFrom(TableRow(h as nat), h << 3)
  {
    hide RowFrom, TableRow, Steps8;
    if h == 0 { Row0();
    } else if h == 1 { Row1();
    } else if h == 2 { Row2();
    } else if h == 3 { Row3();
    } else if h == 4 { Row4();
    } else if h == 5 { Row5();
    } else if h == 6 { Row6();
    } else if h == 7 { Row7();
    } else if h == 8 { Row8();
    } else if h == 9 { Row9();
    } else if h == 10 { Row10();
    } else if h == 11 { Row11();
    } else if h == 12 { Row12();
    } else if h == 13 { Row13();
    } else if h == 14 { Row14();
    } else if h == 15 { Row15();
    } else if h == 16 { Row16();
    } else if h == 17 { Row17();
    } else if h == 18 { Row18();
    } else if h == 19 { Row19();
    } else if h == 20 { Row20();
    } else if h == 21 { Row21();
    } else if h == 22 { Row22();
    } else if h == 23 { Row23();
    } else if h == 24 { Row24();
    } else if h == 25 { Row25();
    } else if h == 26 { Row26();
    } else if h == 27 { Row27();
    } else if h == 28 { Row28();
    } else if h == 29 { Row29();
    } else if h == 30 { Row30();
    } else { Row31();
    }
  }

  function Table(x: bv32): bv32
    requires x < 256
  {
    TableRow((x >> 3) as nat)[(x & 7) as nat]
  }

  /** Every entry of the table is its position, divided for eight bits. */
  lemma {:induction false} TableIsDivision(x: bv32)
    requires x < 256
    ensures Table(x) == Steps(8, x)
  {
    hide Steps8, TableRow, Steps, Three;
    var h, j := x >> 3, x & 7;
    RowOf(h);
    RowPick(TableRow(h as nat), h << 3, j as nat);
    ThreeOf(j);
    SplitLow3(x);
    StepsEight(x);
  }

  lemma SplitLow3(x: bv32)
    ensures ((x >> 3) << 3) | (x & 7) == x
  {}

  lemma ThreeOf(j: bv32)
    requires j < 8
    ensures Three(j as nat) == j
  {}

  lemma RowPick(r: seq<bv32>, first: bv32, j: nat)
    requires RowFrom(r, first) && j < 8
    ensures r[j] == Steps8(At(first, j))
  {
    hide Steps8, At;
  }

  lemma RawStepIs(s: bv32)
    ensures RawStep(s) == Step(s)
  {}

  lemma {:induction false} StepsNext(n: nat, s: bv32)
    ensures Steps(n + 1, s) == Steps(n, Step(s))
  {}

  function Raw4(s: bv32): bv32 { RawStep(RawStep(RawStep(RawStep(s)))) }

  lemma {:induction false} StepsFour(n: nat, s: bv32)
    ensures Steps(n + 4, s) == Steps(n, Raw4(s))
  {
    hide Steps, Step, RawStep;
    RawStepIs(s);
    StepsNext(n + 3, s);
    RawStepIs(RawStep(s));
    StepsNext(n + 2, RawStep(s));
    RawStepIs(RawStep(RawStep(s)));
    StepsNext(n + 1, RawStep(RawStep(s)));
    RawStepIs(RawStep(RawStep(RawStep(s))));
    StepsNext(n, RawStep(RawStep(RawStep(s))));
  }

  lemma {:induction false} StepsEight(s: bv32)
    ensures Steps(8, s) == Steps8(s)
  {
    hide RawStep, Step;
    StepsFour(4, s);
    StepsFour(0, Raw4(s));
  }

  function Doubles(k: nat, z: bv32): bv32 {
    if k == 0 then z else Double(Doubles(k - 1, z))
  }

  lemma DoubleWithin(p: bv32, u: bv32)
    requires Within(p, u)
    ensures Within(Double(p), Grow(u))
  {
    hide Xor, Double, Grow, Within;
    GrowWithin(p, u);
    PackStepZero(p, Grow(u));
    XorZero(Double(p));
  }

  lemma {:induction false} DoublesWithin(k: nat, z: bv32, n: nat)
    requires Within(z, Ones(n))
    ensures Within(Doubles(k, z), Ones(n + k))
  {
    hide Double, Grow, Within;
    if k != 0 {
      DoublesWithin(k - 1, z, n);
      DoubleWithin(Doubles(k - 1, z), Ones(n + k - 1));
    }
  }

  /** Stepping brings a word back that was doubled as often, if nothing was lost. */
  lemma {:induction false} StepsUndo(k: nat, z: bv32, n: nat)
    requires Within(z, Ones(n)) && n + k <= 32
    ensures Steps(k, Doubles(k, z)) == z
  {
    hide Double, Step, Within;
    if k != 0 {
      DoublesWithin(k - 1, z, n);
      OnesWithin(n + k - 1, 31);
      OnesTop();
      WithinTrans(Doubles(k - 1, z), Ones(n + k - 1), Ones(31));
      StepDouble(Doubles(k - 1, z));
      StepsUndo(k - 1, z, n);
    }
  }

  lemma {:induction false} DoubleEight(z: bv32)
    ensures Doubles(8, z) == z << 8
  {
    hide Double;
    var d2 := Double(Double(z));
    assert Doubles(2, z) == Double(Doubles(1, z)) == d2;
    assert Doubles(4, z) == Double(Double(Doubles(2, z)));
    assert Doubles(6, z) == Double(Double(Doubles(4, z)));
    assert Doubles(8, z) == Double(Double(Doubles(6, z)));
    DoubledShift(z);
  }

  lemma DoubledShift(z: bv32)
    ensures Double(Double(Double(Double(Double(Double(Double(Double(z)))))))) == z << 8
  {}

  function LowByte(y: bv32): (r: bv32)
    ensures r < 256
  {
    y & 0xFF
  }

  function Rest(y: bv32): bv32 { y >> 8 }

  function Raised(z: bv32): bv32 { z << 8 }

  function Widen(b: bv8): bv32 { b as bv32 }

  /** One round of the loop in the source. */
  function Update(val: bv32, b: bv8): bv32 {
    Xor(Table(LowByte(Xor(val, Widen(b)))), Rest(val))
  }

  /** A table lookup divides a whole byte. */
  lemma {:induction false} UpdateIsFeed(val: bv32, b: bv8)
    ensures Update(val, b) == Feed(val, Bits8(b))
  {
    hide Xor, Table, Feed, Pack, Bits8, Steps, LowByte, Rest, Raised, Widen;
    var y := Xor(val, Widen(b));
    FeedPacked(val, Bits8(b));
    PackWiden(b);
    SplitByte(y);
    StepsXor(8, LowByte(y), Raised(Rest(y)));
    TableIsDivision(LowByte(y));
    UndoEight(Rest(y));
    UpperUnchanged(val, b);
  }

  lemma PackWiden(b: bv8)
    ensures Pack(Bits8(b)) == Widen(b)
  {
    hide Pack, Bits8;
    PackByte(b);
  }

  lemma UndoEight(z: bv32)
    requires Within(z, 0xFF_FFFF)
    ensures Steps(8, Raised(z)) == z
  {
    hide Steps, Ones, Doubles, Within;
    OnesTwentyFour();
    StepsUndo(8, z, 24);
    DoubleEight(z);
  }

  lemma OnesTwentyFour()
    ensures Ones(24) == 0xFF_FFFF
  {
    hide Ones;
    OnesEight();
    OnesNext4(8);
    OnesNext4(12);
    OnesNext4(16);
    OnesNext4(20);
  }

  lemma SplitByte(y: bv32)
    ensures Xor(LowByte(y), Raised(Rest(y))) == y
    ensures Within(Rest(y), 0xFF_FFFF)
  {
    assert (y & 0xFF) ^ ((y >> 8) << 8) == y;
  }

  lemma UpperUnchanged(val: bv32, b: bv8)
    ensures Rest(Xor(val, Widen(b))) == Rest(val)
  {
    calc {
      Rest(Xor(val, Widen(b)));
      (val ^ (b as bv32)) >> 8;
      val >> 8;
      Rest(val);
    }
  }

  /** The loop of mtd_crc32 divides the message by the polynomial. */
  method MtdCrc32(val: bv32, s: seq<bv8>) returns (r: bv32)
    ensures r == Crc(val, s)
  {
    hide Xor, Table, Feed, Bits8, Rest;
    r := val;
    var i := 0;
    assert s[..0] == [];
    CrcNothing(val);
    while i < |s|
      invariant 0 <= i <= |s| && r == Crc(val, s[..i])
    {
      UpdateIsFeed(r, s[i]);
      CrcSnoc(val, s[..i], s[i]);
      assert s[..i] + [s[i]] == s[..i + 1];
      r := Update(r, s[i]);
      i := i + 1;
    }
    assert s[..|s|] == s;
  }

  lemma CrcNothing(val: bv32)
    ensures Crc(val, []) == val
  {}

  lemma CrcSnoc(val: bv32, m: seq<bv8>, b: bv8)
    ensures Crc(val, m + [b]) == Feed(Crc(val, m), Bits8(b))
  {
    hide Feed, Bits8;
    CrcConcat(val, m, [b]);
    assert Bits([b]) == Bits8(b) + Bits([]);
    assert Bits8(b) + [] == Bits8(b);
  }
}

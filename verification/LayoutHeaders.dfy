/** Erase counter headers that share their bytes with the volume header of a layout block: libubigen.c. */
module LayoutHeaders {
  import opened Crc32
  import opened Octets
  import opened UbiGen
  import opened UbiMedia
  import opened UbiScan

  lemma TableSize(ui: UbigenInfo)
    requires ui.Usable()
    ensures |Records(ui.maxVolumes)| == ui.vtblSize
  {}

  /** A layout block with an empty volume table. */
  function Written(ui: UbigenInfo, ec: nat, lnum: nat): (r: Bytes)
    requires ui.Usable() && ui.Fits() && ec < Room(8) && lnum < Room(4)
    ensures |r| == ui.pebSize >= EC_HDR_SIZE
  {
    TableSize(ui);
    LayoutBlock(ui, Records(ui.maxVolumes), ec, lnum)
  }

  /**
   * The header of a layout block survives the volume header that is put into the same eraseblock: the fields that a
   * scan compares are left, and the checksum, or what is now in its place, fits the bytes in front of it.
   */
  ghost predicate LayoutHeaderGood(ui: UbigenInfo, ec: nat, lnum: nat)
    requires ui.Usable() && ui.Fits() && ec < Room(8) && lnum < Room(4)
  {
    && ui.vidHdrOffs >= 20
    && Written(ui, ec, lnum)[20..24] == BigEndian(4, ui.dataOffs)
    && GoodEcHdr(Written(ui, ec, lnum))
  }

  /** The volume header of a layout block. */
  function VolumeHeader(version: bv8, lnum: nat): (r: Bytes)
    requires lnum < Room(4)
    ensures |r| == VID_HDR_SIZE
  {
    RoomOf();
    VidHdr(version, LAYOUT_VOLUME, lnum, [])
  }

  /** What a layout block starts with. */
  lemma WrittenStarts(ui: UbigenInfo, ec: nat, lnum: nat)
    requires ui.Usable() && ui.Fits() && ec < Room(8) && lnum < Room(4)
    ensures
      var h, v := EcHdr(ui.Geometry(), ec), VolumeHeader(ui.Geometry().version, lnum);
      var b, o := Written(ui, ec, lnum), ui.vidHdrOffs;
      && o + VID_HDR_SIZE <= |b| && b[o..o + VID_HDR_SIZE] == v
      && b[..EC_HDR_SIZE] == if o < EC_HDR_SIZE then Front(h, v, o) else h
  {
    hide Room, EcHdr, VidHdr, LayoutBlock, Records;
    TableSize(ui);
    RoomOf();
    LayoutSizes(ui);
    LayoutBlockReads(ui, Records(ui.maxVolumes), ec, lnum);
    var h, v := EcHdr(ui.Geometry(), ec), VolumeHeader(ui.Geometry().version, lnum);
    var b, o := Written(ui, ec, lnum), ui.vidHdrOffs;
    if o < EC_HDR_SIZE {
      assert b[o..o + VID_HDR_SIZE][..EC_HDR_SIZE - o] == b[o..EC_HDR_SIZE];
      assert b[..EC_HDR_SIZE] == b[..o] + b[o..EC_HDR_SIZE];
    } else {
      assert h[..EC_HDR_SIZE] == h;
    }
  }

  /** A header whose end the volume header covers. */
  function Front(h: Bytes, v: Bytes, o: nat): (r: Bytes)
    requires |h| == EC_HDR_SIZE && |v| == VID_HDR_SIZE && o < EC_HDR_SIZE
    ensures |r| == EC_HDR_SIZE
    ensures forall i :: 0 <= i < EC_HDR_SIZE ==> r[i] == if i < o then h[i] else v[i - o]
  {
    h[..o] + v[..EC_HDR_SIZE - o]
  }

  /** The fields of an erase counter header, as bytes. */
  lemma {:induction false} HeaderBytes(g: Geometry, ec: nat)
    requires g.Fits() && ec < Room(8) && EC_HDR_MAGIC < Room(4)
    ensures EcHdr(g, ec)[20..24] == BigEndian(4, g.dataOffs)
    ensures
      var h := EcHdr(g, ec);
      && h[..8] == BigEndian(4, EC_HDR_MAGIC) + [g.version] + Zeros(3) && h[8..16] == BigEndian(8, ec)
      && h[16..60] == BigEndian(4, g.vidHdrOffs) + BigEndian(4, g.dataOffs) + BigEndian(4, g.imageSeq) + Zeros(32)
  {
    hide BigEndian, Crc, Bytes4, Room, Zeros;
    var h, b := EcHdr(g, ec), EcHdrBody(g, ec);
    assert h[..8] == b[..8] && h[8..16] == b[8..16] && h[16..60] == b[16..60] && h[20..24] == b[20..24];
  }

  /** A number of four bytes, and a number as four bytes. */
  lemma FourBytes(a: bv8, b: bv8, c: bv8, d: bv8)
    ensures Number([a, b, c, d]) == ((Val(a) * 256 + Val(b)) * 256 + Val(c)) * 256 + Val(d)
    ensures Number([a, b, c, d]) < Room(4) && BigEndian(4, Number([a, b, c, d])) == [a, b, c, d]
  {
    hide Val, BigEndian, Room, Number;
    var s := [a, b, c, d];
    BigEndianOfNumber(s);
    NumberParts(s);
    NumberParts([a, b, c]);
    NumberParts([a, b]);
    NumberParts([a]);
    NoDigits();
    assert s[..3] == [a, b, c] && [a, b, c][..2] == [a, b] && [a, b][..1] == [a] && [a][..0] == [];
  }

  // The bytes "UBI!" that a volume header starts with.
  const VID_HDR_MAGIC_BYTES: Bytes := [0x55, 0x42, 0x49, 0x21]

  lemma MagicBytes()
    ensures EC_HDR_MAGIC < Room(4) && VID_HDR_MAGIC < Room(4) && 1 < Room(4)
    ensures BigEndian(4, EC_HDR_MAGIC) == [0x55, 0x42, 0x49, 0x23]
    ensures BigEndian(4, VID_HDR_MAGIC) == VID_HDR_MAGIC_BYTES
    ensures BigEndian(4, 0) == [0, 0, 0, 0] && BigEndian(4, 1) == [0, 0, 0, 1]
  {
    hide Number, BigEndian, Room;
    RoomOf();
    FourBytes(0x55, 0x42, 0x49, 0x23);
    FourBytes(0x55, 0x42, 0x49, 0x21);
    FourBytes(0, 0, 0, 0);
    FourBytes(0, 0, 0, 1);
  }

  /** Above its checksum, the volume header of a layout block. */
  lemma VolumeBytes(version: bv8, lnum: nat)
    requires lnum < 2 && 1 < Room(4)
    ensures
      var v := VolumeHeader(version, lnum);
      && v[..4] == VID_HDR_MAGIC_BYTES && v[4..8] == [version, VID_DYNAMIC, 0, COMPAT_REJECT]
      && v[12..16] == [0, 0, 0, lnum as bv8] && v[16..60] == Zeros(44)
    ensures VolumeHeader(version, 0)[8..12] == VolumeHeader(version, lnum)[8..12]
  {
    hide BigEndian, Crc, Bytes4, Room, Zeros;
    MagicBytes();
    RoomOf();
    var v, b := VolumeHeader(version, lnum), VidHdrBody(version, LAYOUT_VOLUME, lnum, []);
    assert Zeros(4) + Zeros(8) + BigEndian(4, 0) + Zeros(4) + Zeros(24) == Zeros(44);
    assert v[..4] == b[..4] && v[4..8] == b[4..8] && v[12..16] == b[12..16] && v[16..60] == b[16..60];
  }

  // Where the volume header leaves the fields of the first one.

  /** In front of the data offset it leaves nothing that a scan could take for right. */
  lemma {:induction false} OverlapMisread(ui: UbigenInfo, ec: nat, lnum: nat)
    requires ui.Usable() && ui.Fits() && ec < Room(8) && lnum < 2 && 1 < Room(4) && ui.vidHdrOffs < 20
    ensures
      var b := Written(ui, ec, lnum);
      || Magic(b) != EC_HDR_MAGIC || Counter(b) > EC_MAX
      || (VidHdrOffset(b) != ui.vidHdrOffs && VidHdrOffset(b) != 0xFFFF_FFFF)
  {
    hide Room, EcHdr, VolumeHeader, Written, Number, BigEndian, Magic, Counter, VidHdrOffset;
    var o, b, g := ui.vidHdrOffs, Written(ui, ec, lnum), ui.Geometry();
    var v := VolumeHeader(g.version, lnum);
    WrittenStarts(ui, ec, lnum);
    VolumeBytes(g.version, lnum);
    assert b[o..EC_HDR_SIZE] == b[..EC_HDR_SIZE][o..] == v[..EC_HDR_SIZE - o];
    CoveredMisread(b, v, o);
  }

  lemma {:induction false} CoveredMisread(b: Bytes, v: Bytes, o: nat)
    requires |b| >= EC_HDR_SIZE && |v| == VID_HDR_SIZE && o < 20 && b[o..EC_HDR_SIZE] == v[..EC_HDR_SIZE - o]
    requires v[..4] == VID_HDR_MAGIC_BYTES && v[4..8][1] == VID_DYNAMIC
    ensures Magic(b) != EC_HDR_MAGIC || Counter(b) > EC_MAX
      || (VidHdrOffset(b) != o && VidHdrOffset(b) != 0xFFFF_FFFF)
  {
    hide Number, BigEndian, Room;
    if o < 4 {
      BigEndianOfNumber(b[..4]);
      MagicBytes();
      Covering(b, v, o, 3);
      Covering(b, v, o, o);
      assert b[3] == b[..4][3] && b[o] == b[..4][o];
    } else if o < 12 {
      var i := if o == 4 then 9 else if o < 8 then 8 else o;
      Covering(b, v, o, i);
      assert b[8..16][i - 8] == b[i];
      LargeNumber(b[8..16], i - 8);
    } else {
      var i := if o == 12 then 17 else if o < 16 then 16 else o;
      Covering(b, v, o, i);
      assert b[16..20][i - 16] == b[i];
      SmallOffset(b[16..20], o, i - 16);
    }
  }

  /** One byte of the volume header, in one of the places that matter. */
  lemma Covering(b: Bytes, v: Bytes, o: nat, i: nat)
    requires |b| >= EC_HDR_SIZE && |v| == VID_HDR_SIZE && o <= i < EC_HDR_SIZE
    requires b[o..EC_HDR_SIZE] == v[..EC_HDR_SIZE - o]
    requires v[..4] == VID_HDR_MAGIC_BYTES && v[4..8][1] == VID_DYNAMIC
    requires i - o < 4 || i - o == 5
    ensures b[i] == if i - o == 5 then 1 else VID_HDR_MAGIC_BYTES[i - o]
  {
    assert b[i] == b[o..EC_HDR_SIZE][i - o] == v[i - o];
    if i - o < 4 {
      assert v[i - o] == v[..4][i - o];
    } else {
      assert v[5] == v[4..8][1];
    }
  }

  /** A number of eight bytes exceeds every counter when one of the first four is not zero. */
  lemma {:induction false} LargeNumber(s: Bytes, i: nat)
    requires |s| == 8 && i < 4 && s[i] != 0
    ensures Number(s) > EC_MAX
  {
    hide Number, BigEndian, Room;
    RoomOf();
    if Number(s) < Room(4) {
      BigEndianOfNumber(s);
      HighZeros(Number(s));
    }
  }

  /** The offset of the volume header, and the erased value, have four bytes of a simple kind. */
  lemma {:induction false} SmallOffset(s: Bytes, o: nat, i: nat)
    requires |s| == 4 && o < 20 && i < 4 && s[i] != 0 && s[i] != 0xFF && (s[i] == 0x55 || i < 3)
    ensures Number(s) != o && Number(s) != 0xFFFF_FFFF
  {
    hide Number, BigEndian, Room, Val;
    Ends();
    LetterU();
    FourBytes(s[0], s[1], s[2], s[3]);
    assert s == [s[0], s[1], s[2], s[3]];
    ByteVal(s[i]);
    ByteVal(0);
    ByteVal(0xFF);
  }

  lemma LetterU()
    ensures Val(0x55) == 85
  {}

  /** A counter of 32 bits leaves the upper four bytes of its field zero. */
  lemma {:induction false} HighZeros(n: nat)
    requires n < Room(4)
    ensures n < Room(8) && BigEndian(8, n) == [0, 0, 0, 0] + BigEndian(4, n)
  {
    hide BigEndian;
    RoomOf();
    OneZeroMore(4, n);
    OneZeroMore(5, n);
    OneZeroMore(6, n);
    OneZeroMore(7, n);
  }

  lemma {:induction false} OneZeroMore(k: nat, n: nat)
    requires n < Room(k)
    ensures n < Room(k + 1) && BigEndian(k + 1, n) == [0] + BigEndian(k, n)
  {
    if k > 0 {
      OneZeroMore(k - 1, n / 256);
    }
  }

  /** Apart from their numbers, both volume headers are the same up to their checksums. */
  lemma VolumeHeadersDiffer(version: bv8)
    requires 1 < Room(4)
    ensures
      var u, v := VolumeHeader(version, 0), VolumeHeader(version, 1);
      u[15] != v[15] && forall i {:trigger u[i]} {:trigger v[i]} :: 0 <= i < 60 && i != 15 ==> u[i] == v[i]
  {
    hide VolumeHeader, Room;
    VolumeBytes(version, 0);
    VolumeBytes(version, 1);
    var u, v := VolumeHeader(version, 0), VolumeHeader(version, 1);
    VolumeFields(u);
    VolumeFields(v);
  }

  lemma VolumeFields(v: Bytes)
    requires |v| == VID_HDR_SIZE
    ensures forall i {:trigger v[i]} :: 0 <= i < 60 ==>
      v[i] == if i < 4 then v[..4][i] else if i < 8 then v[4..8][i - 4] else if i < 12 then v[8..12][i - 8]
              else if i < 16 then v[12..16][i - 12] else v[16..60][i - 16]
  {}

  // What a scan reads.

  lemma FieldsLeft(ui: UbigenInfo, ec: nat, lnum: nat)
    requires ui.Usable() && ui.Fits() && ec < Room(8) && lnum < Room(4) && ui.vidHdrOffs >= 20
    ensures
      var b := Written(ui, ec, lnum);
      Magic(b) == EC_HDR_MAGIC && Counter(b) == ec && VidHdrOffset(b) == ui.vidHdrOffs
    ensures ui.vidHdrOffs >= 24 ==> Written(ui, ec, lnum)[20..24] == BigEndian(4, ui.dataOffs)
  {
    hide Room, EcHdr, VolumeHeader, Written, Number, BigEndian, Magic, Counter, VidHdrOffset, GoodEcHdr;
    var b, g := Written(ui, ec, lnum), ui.Geometry();
    var h := EcHdr(g, ec);
    WrittenStarts(ui, ec, lnum);
    EcHdrReadsBack(g, ec);
    GoodMagic(h);
    assert b[..20] == b[..EC_HDR_SIZE][..20] == h[..20];
    SameFields(b, h);
    if ui.vidHdrOffs >= 24 {
      MagicBytes();
      HeaderBytes(g, ec);
      assert b[..24] == b[..EC_HDR_SIZE][..24] == h[..24];
      assert b[20..24] == b[..24][20..] == h[..24][20..] == h[20..24];
    }
  }

  /** Up to the offset of the volume header, a header has its fields in its first 20 bytes. */
  lemma SameFields(b: Bytes, h: Bytes)
    requires |b| >= EC_HDR_SIZE && |h| >= EC_HDR_SIZE && b[..20] == h[..20]
    ensures Magic(b) == Magic(h) && Counter(b) == Counter(h) && VidHdrOffset(b) == VidHdrOffset(h)
  {
    hide Number;
    assert b[..4] == b[..20][..4] == h[..20][..4] == h[..4];
    assert b[8..16] == b[..20][8..16] == h[..20][8..16] == h[8..16];
    assert b[16..20] == b[..20][16..20] == h[..20][16..20] == h[16..20];
  }

  /** A header that survives reads as it was built. */
  lemma LayoutReads(ui: UbigenInfo, ec: nat, lnum: nat)
    requires ui.Usable() && ui.Fits() && ec < Room(8) && lnum < Room(4) && LayoutHeaderGood(ui, ec, lnum)
    ensures ReadsAs(Written(ui, ec, lnum), ui.Geometry(), ec)
  {
    hide Room, Written, Number, BigEndian, GoodEcHdr;
    FieldsLeft(ui, ec, lnum);
    NumberOfBigEndian(4, ui.dataOffs);
  }

  /** With the headers apart, it always does. */
  lemma LayoutApart(ui: UbigenInfo, ec: nat, lnum: nat)
    requires ui.Usable() && ui.Fits() && ui.vidHdrOffs >= EC_HDR_SIZE && ec < Room(8) && lnum < Room(4)
    ensures LayoutHeaderGood(ui, ec, lnum)
  {
    hide Room, EcHdr, VolumeHeader, Written, GoodEcHdr, BigEndian;
    WrittenStarts(ui, ec, lnum);
    FieldsLeft(ui, ec, lnum);
    EcHdrReadsBack(ui.Geometry(), ec);
    HeaderOnly(Written(ui, ec, lnum), EcHdr(ui.Geometry(), ec));
  }

  /** A scan that finds the counter and the offsets of a layout block has read a header that survived. */
  lemma {:induction false} FoundGood(ui: UbigenInfo, ec: nat, lnum: nat, f: Found)
    requires ui.Usable() && ui.Fits() && ec < Room(8) && lnum < 2 && 1 < Room(4)
    requires ui.pebSize < 0x8000_0000 && ec <= EC_MAX && HeaderOf(Written(ui, ec, lnum), f, ec)
    requires f.vidHdrOffs == -1 || (f.vidHdrOffs == ui.vidHdrOffs && f.dataOffs == ui.dataOffs)
    ensures LayoutHeaderGood(ui, ec, lnum)
  {
    hide Room, Written, GoodEcHdr, Number, BigEndian;
    var b := Written(ui, ec, lnum);
    GoodMagic(b);
    BigEndianOfNumber(b[16..20]);
    BigEndianOfNumber(b[20..24]);
    RoomOf();
    if ui.vidHdrOffs < 20 {
      OverlapMisread(ui, ec, lnum);
    } else {
      FieldsLeft(ui, ec, lnum);
    }
  }

  // For which counters a header survives an overlap.

  /** What the checksum is compared with, and what it is computed over. */
  lemma GoodExactly(ui: UbigenInfo, ec: nat, lnum: nat)
    requires ui.Usable() && ui.Fits() && ui.vidHdrOffs < EC_HDR_SIZE && ec < Room(8) && lnum < Room(4)
    ensures
      var f := Front(EcHdr(ui.Geometry(), ec), VolumeHeader(ui.Geometry().version, lnum), ui.vidHdrOffs);
      && (LayoutHeaderGood(ui, ec, lnum) ==> ui.vidHdrOffs >= 20 && f[60..] == Bytes4(Crc(CRC32_INIT, f[..60])))
      && (ui.vidHdrOffs >= 24 && f[60..] == Bytes4(Crc(CRC32_INIT, f[..60])) ==> LayoutHeaderGood(ui, ec, lnum))
  {
    hide Room, EcHdr, VolumeHeader, Written, Number, BigEndian, Crc, Front, Bytes4, Word4;
    var f := Front(EcHdr(ui.Geometry(), ec), VolumeHeader(ui.Geometry().version, lnum), ui.vidHdrOffs);
    WrittenStarts(ui, ec, lnum);
    if ui.vidHdrOffs >= 20 {
      FieldsLeft(ui, ec, lnum);
    }
    BytesOfWord(f[60..]);
    WordOfBytes(Crc(CRC32_INIT, f[..60]));
  }

  /**
   * At the offsets up to 48, the same counter never leaves both layout blocks a valid header; behind them it leaves it
   * to both or to none.
   */
  lemma {:induction false} SameCounter(ui: UbigenInfo, ec: nat)
    requires ui.Usable() && ui.Fits() && ec < Room(8) && 1 < Room(4)
    ensures ui.vidHdrOffs <= 48 ==> !(LayoutHeaderGood(ui, ec, 0) && LayoutHeaderGood(ui, ec, 1))
    ensures ui.vidHdrOffs > 48 ==> (LayoutHeaderGood(ui, ec, 0) <==> LayoutHeaderGood(ui, ec, 1))
  {
    hide Room, EcHdr, VolumeHeader, LayoutHeaderGood, Crc, Bytes4;
    var o, h := ui.vidHdrOffs, EcHdr(ui.Geometry(), ec);
    if o >= EC_HDR_SIZE {
      LayoutApart(ui, ec, 0);
      LayoutApart(ui, ec, 1);
    } else {
      var u, v := VolumeHeader(ui.Geometry().version, 0), VolumeHeader(ui.Geometry().version, 1);
      GoodExactly(ui, ec, 0);
      GoodExactly(ui, ec, 1);
      VolumeHeadersDiffer(ui.Geometry().version);
      if o >= 20 {
        FrontsDiffer(h, u, v, o);
      }
    }
  }

  /** Two fronts that differ in one byte of the volume header, at most. */
  lemma {:induction false} FrontsDiffer(h: Bytes, u: Bytes, v: Bytes, o: nat)
    requires |h| == EC_HDR_SIZE && |u| == |v| == VID_HDR_SIZE && 20 <= o < EC_HDR_SIZE
    requires u[15] != v[15] && forall i {:trigger u[i]} {:trigger v[i]} :: 0 <= i < 60 && i != 15 ==> u[i] == v[i]
    ensures o > 48 ==> Front(h, u, o) == Front(h, v, o)
    ensures o <= 48 ==>
      !(Front(h, u, o)[60..] == Bytes4(Crc(CRC32_INIT, Front(h, u, o)[..60]))
        && Front(h, v, o)[60..] == Bytes4(Crc(CRC32_INIT, Front(h, v, o)[..60])))
  {
    hide Crc, Bytes4, Front;
    var f, g := Front(h, u, o), Front(h, v, o);
    if o <= 48 {
      OneByteDiffers(f, g, o + 15);
    }
  }

  lemma {:induction false} OneByteDiffers(f: Bytes, g: Bytes, k: nat)
    requires |f| == |g| == EC_HDR_SIZE && k < EC_HDR_SIZE && f[k] != g[k]
    requires forall i {:trigger f[i]} {:trigger g[i]} :: 0 <= i < EC_HDR_SIZE && i != k ==> f[i] == g[i]
    ensures !(f[60..] == Bytes4(Crc(CRC32_INIT, f[..60])) && g[60..] == Bytes4(Crc(CRC32_INIT, g[..60])))
  {
    hide Crc, Bytes4;
    WordOfBytes(Crc(CRC32_INIT, f[..60]));
    WordOfBytes(Crc(CRC32_INIT, g[..60]));
    if k >= 60 {
      assert f[..60] == g[..60];
      assert f[60..][k - 60] != g[60..][k - 60];
    } else {
      assert f[60..] == g[60..];
      assert f[..60] == f[..k] + [f[k]] + f[k + 1..60];
      assert g[..60] == f[..k] + [g[k]] + f[k + 1..60];
      if Crc(CRC32_INIT, f[..60]) == Crc(CRC32_INIT, g[..60]) {
        PartDetected(CRC32_INIT, f[..k], [f[k]], [g[k]], f[k + 1..60]);
        assert false;
      }
    }
  }

  /** With the whole checksum under the volume header, at most one counter of 32 bits leaves a block a valid header. */
  lemma {:induction false} OneCounter(ui: UbigenInfo, ec: nat, ec': nat, lnum: nat)
    requires ui.Usable() && ui.Fits() && ui.vidHdrOffs <= 60 && lnum < Room(4)
    requires ec < Room(4) && ec' < Room(4) && ec < Room(8) && ec' < Room(8)
    requires LayoutHeaderGood(ui, ec, lnum) && LayoutHeaderGood(ui, ec', lnum)
    ensures ec == ec'
  {
    hide Room, EcHdr, VolumeHeader, Crc, Bytes4, Word4, BigEndian, LayoutHeaderGood;
    GoodExactly(ui, ec, lnum);
    GoodExactly(ui, ec', lnum);
    SameChecksum(ui.Geometry(), ec, ec', VolumeHeader(ui.Geometry().version, lnum), ui.vidHdrOffs);
  }

  lemma {:induction false} SameChecksum(g: Geometry, ec: nat, ec': nat, v: Bytes, o: nat)
    requires g.Fits() && ec < Room(4) && ec' < Room(4) && ec < Room(8) && ec' < Room(8)
    requires |v| == VID_HDR_SIZE && 20 <= o <= 60
    requires Front(EcHdr(g, ec), v, o)[60..] == Bytes4(Crc(CRC32_INIT, Front(EcHdr(g, ec), v, o)[..60]))
    requires Front(EcHdr(g, ec'), v, o)[60..] == Bytes4(Crc(CRC32_INIT, Front(EcHdr(g, ec'), v, o)[..60]))
    ensures ec == ec'
  {
    hide Room, EcHdr, Crc, Bytes4, Word4, BigEndian, Front;
    var f, f' := Front(EcHdr(g, ec), v, o), Front(EcHdr(g, ec'), v, o);
    FrontAround(g, ec, v, o);
    FrontAround(g, ec', v, o);
    WordOfBytes(Crc(CRC32_INIT, f[..60]));
    WordOfBytes(Crc(CRC32_INIT, f'[..60]));
    PartDetected(CRC32_INIT, Before(g), BigEndian(4, ec), BigEndian(4, ec'), Behind(g, v, o));
    NumberOfBigEndian(4, ec);
    NumberOfBigEndian(4, ec');
  }

  function Before(g: Geometry): Bytes {
    MagicBytes();
    BigEndian(4, EC_HDR_MAGIC) + [g.version] + Zeros(3) + Zeros(4)
  }

  /** The bytes under the checksum that follow the counter, without those of the volume header. */
  function Behind(g: Geometry, v: Bytes, o: nat): Bytes
    requires g.Fits() && |v| == VID_HDR_SIZE && 20 <= o <= 60
  {
    MagicBytes();
    (BigEndian(4, g.vidHdrOffs) + BigEndian(4, g.dataOffs) + BigEndian(4, g.imageSeq) + Zeros(32))[..o - 16]
    + v[..60 - o]
  }

  lemma {:induction false} FrontAround(g: Geometry, ec: nat, v: Bytes, o: nat)
    requires g.Fits() && ec < Room(4) && ec < Room(8) && |v| == VID_HDR_SIZE && 20 <= o <= 60
    ensures var f := Front(EcHdr(g, ec), v, o);
      f[..60] == Before(g) + BigEndian(4, ec) + Behind(g, v, o) && f[60..] == v[60 - o..64 - o]
  {
    hide Room, EcHdr, BigEndian, Front;
    var h := EcHdr(g, ec);
    MagicBytes();
    HeaderBytes(g, ec);
    HighZeros(ec);
    assert h[8..12] == h[8..16][..4] && h[12..16] == h[8..16][4..];
    assert h[..12] == h[..8] + h[8..12];
    assert Before(g) == h[..12];
    FrontStarts(h, v, o);
    ThreeSlices(h, 12, 16, o);
    PartStarts(h, 16, 60, o);
  }

  lemma PartStarts(s: Bytes, a: nat, b: nat, c: nat)
    requires a <= c <= b <= |s|
    ensures s[a..c] == s[a..b][..c - a]
  {}

  lemma FrontStarts(h: Bytes, v: Bytes, o: nat)
    requires |h| == EC_HDR_SIZE && |v| == VID_HDR_SIZE && o <= 60
    ensures Front(h, v, o)[..60] == h[..o] + v[..60 - o] && Front(h, v, o)[60..] == v[60 - o..64 - o]
  {
    hide Front;
  }

  lemma ThreeSlices(s: Bytes, a: nat, b: nat, c: nat)
    requires a <= b <= c <= |s|
    ensures s[..c] == s[..a] + s[a..b] + s[b..c]
  {}

  /** Within the checksum, a header survives if and only if the checksum ends as the volume header starts. */
  lemma {:induction false} ChecksumEnds(ui: UbigenInfo, ec: nat, lnum: nat)
    requires ui.Usable() && ui.Fits() && 60 <= ui.vidHdrOffs < EC_HDR_SIZE && ec < Room(8) && lnum < 2 && 1 < Room(4)
    ensures LayoutHeaderGood(ui, ec, lnum)
      <==> EcHdr(ui.Geometry(), ec)[ui.vidHdrOffs..] == VID_HDR_MAGIC_BYTES[..EC_HDR_SIZE - ui.vidHdrOffs]
  {
    hide Room, EcHdrBody, VolumeHeader, Crc, Bytes4, BigEndian, LayoutHeaderGood;
    var o, g := ui.vidHdrOffs, ui.Geometry();
    var h, v := EcHdr(g, ec), VolumeHeader(g.version, lnum);
    GoodExactly(ui, ec, lnum);
    VolumeBytes(g.version, lnum);
    var f := Front(h, v, o);
    assert f[..60] == h[..60] == EcHdrBody(g, ec);
    assert v[..EC_HDR_SIZE - o] == v[..4][..EC_HDR_SIZE - o];
    assert h == h[..o] + h[o..] && f == h[..o] + v[..EC_HDR_SIZE - o];
    assert h == h[..60] + h[60..] && f == f[..60] + f[60..];
    assert f[o..] == v[..EC_HDR_SIZE - o];
  }
}

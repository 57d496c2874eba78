/** The on-flash headers of UBI: include/mtd/ubi-media.h and the code that builds and re-stamps them. */
module UbiMedia {
  import opened Crc32
  import opened Octets

  type Bytes = seq<bv8>

  const CRC32_INIT: bv32 := 0xFFFFFFFF
  const EC_HDR_MAGIC: nat := 0x55424923
  const VID_HDR_MAGIC: nat := 0x55424921
  const EC_HDR_SIZE: nat := 64
  const VID_HDR_SIZE: nat := 64

  // Big-endian numbers.

  /** How many numbers fit in k bytes. */
  function Room(k: nat): (r: nat)
    ensures r > 0
  {
    if k == 0 then 1 else 256 * Room(k - 1)
  }

  /** cpu_to_be32 and its relatives: a number as k bytes, the most significant first. */
  function BigEndian(k: nat, n: nat): (r: Bytes)
    requires n < Room(k)
    ensures |r| == k
  {
    if k == 0 then [] else BigEndian(k - 1, n / 256) + [ByteOf(n % 256)]
  }

  /** be32_to_cpu and its relatives. */
  function Number(s: Bytes): nat {
    if s == [] then 0 else 256 * Number(s[..|s| - 1]) + Val(s[|s| - 1])
  }

  lemma {:induction false} NumberOfBigEndian(k: nat, n: nat)
    requires n < Room(k)
    ensures Number(BigEndian(k, n)) == n
  {
    hide Val, ByteOf;
    if k > 0 {
      NumberOfBigEndian(k - 1, n / 256);
      ValByte(n % 256);
      assert BigEndian(k, n)[..k - 1] == BigEndian(k - 1, n / 256);
    }
  }

  lemma {:induction false} BigEndianOfNumber(s: Bytes)
    ensures Number(s) < Room(|s|)
    ensures BigEndian(|s|, Number(s)) == s
  {
    hide Val, ByteOf, Number, BigEndian, Room;
    if s == [] {
      NoDigits();
    } else {
      var t, b := s[..|s| - 1], s[|s| - 1];
      BigEndianOfNumber(t);
      ByteVal(b);
      NumberParts(s);
      RoomMore(|t|);
      LastDigit(Number(t), Val(b), Room(|t|));
      BigEndianParts(|s|, Number(s));
      assert s == t + [b];
    }
  }

  lemma NoDigits()
    ensures Number([]) == 0 && Room(0) == 1 && BigEndian(0, 0) == []
  {}

  lemma {:induction false} NumberParts(s: Bytes)
    requires s != []
    ensures Number(s) == 256 * Number(s[..|s| - 1]) + Val(s[|s| - 1])
  {}

  lemma RoomMore(k: nat)
    ensures Room(k + 1) == 256 * Room(k)
  {}

  lemma BigEndianParts(k: nat, n: nat)
    requires 0 < k && n < Room(k)
    ensures n / 256 < Room(k - 1) && BigEndian(k, n) == BigEndian(k - 1, n / 256) + [ByteOf(n % 256)]
  {}

  /** The last digit to the base 256, and the others. */
  lemma LastDigit(n: nat, v: nat, room: nat)
    requires v < 256 && n < room
    ensures (256 * n + v) / 256 == n && (256 * n + v) % 256 == v && 256 * n + v < 256 * room
  {}

  lemma RoomOf()
    ensures Room(4) == 0x1_0000_0000 && Room(8) == 0x1_0000_0000_0000_0000
  {
    assert Room(2) == 65536;
    assert Room(4) == 65536 * 65536;
    assert Room(6) == 65536 * Room(4);
  }

  // Checksums, stored big-endian as well.

  function Bytes4(w: bv32): (r: Bytes)
    ensures |r| == 4
  {
    [(w >> 24) as bv8, ((w >> 16) & 0xFF) as bv8, ((w >> 8) & 0xFF) as bv8, (w & 0xFF) as bv8]
  }

  function Word4(s: Bytes): bv32
    requires |s| == 4
  {
    ((s[0] as bv32) << 24) | ((s[1] as bv32) << 16) | ((s[2] as bv32) << 8) | (s[3] as bv32)
  }

  lemma WordOfBytes(w: bv32)
    ensures Word4(Bytes4(w)) == w
  {}

  lemma BytesOfWord(s: Bytes)
    requires |s| == 4
    ensures Bytes4(Word4(s)) == s
  {}

  /** The last four bytes hold the checksum of all the others. */
  ghost predicate Sealed(h: Bytes) {
    |h| >= 4 && Word4(h[|h| - 4..]) == Crc(CRC32_INIT, h[..|h| - 4])
  }

  function Seal(body: Bytes): (r: Bytes)
    ensures |r| == |body| + 4
  {
    body + Bytes4(Crc(CRC32_INIT, body))
  }

  lemma SealSealed(body: Bytes)
    ensures Sealed(Seal(body))
    ensures Seal(body)[..|body|] == body
  {
    hide Crc, Bytes4, Word4;
    var h := Seal(body);
    assert h[..|body|] == body && h[|body|..] == Bytes4(Crc(CRC32_INIT, body));
    WordOfBytes(Crc(CRC32_INIT, body));
  }

  function Zeros(n: nat): (r: Bytes)
    ensures |r| == n && forall i :: 0 <= i < n ==> r[i] == 0
  {
    seq(n, _ => 0)
  }

  /** A buffer with some of its bytes replaced. */
  function Splice(s: Bytes, offs: nat, data: Bytes): (r: Bytes)
    requires offs + |data| <= |s|
    ensures |r| == |s|
    ensures forall i :: 0 <= i < |s| ==> r[i] == if offs <= i < offs + |data| then data[i - offs] else s[i]
  {
    s[..offs] + data + s[offs + |data|..]
  }

  // The erase counter header.

  function Magic(h: Bytes): nat
    requires |h| >= EC_HDR_SIZE
  {
    Number(h[..4])
  }

  function Counter(h: Bytes): nat
    requires |h| >= EC_HDR_SIZE
  {
    Number(h[8..16])
  }

  function VidHdrOffset(h: Bytes): nat
    requires |h| >= EC_HDR_SIZE
  {
    Number(h[16..20])
  }

  function DataOffset(h: Bytes): nat
    requires |h| >= EC_HDR_SIZE
  {
    Number(h[20..24])
  }

  function ImageSeq(h: Bytes): nat
    requires |h| >= EC_HDR_SIZE
  {
    Number(h[24..28])
  }

  /** A buffer that starts with a valid erase counter header. */
  ghost predicate GoodEcHdr(h: Bytes) {
    |h| >= EC_HDR_SIZE && Magic(h) == EC_HDR_MAGIC && Sealed(h[..EC_HDR_SIZE])
  }

  /** What an erase counter header records besides its counter. */
  datatype Geometry = Geometry(version: bv8, vidHdrOffs: nat, dataOffs: nat, imageSeq: nat) {
    ghost predicate Fits() {
      vidHdrOffs < Room(4) && dataOffs < Room(4) && imageSeq < Room(4)
    }
  }

  function EcHdrBody(g: Geometry, ec: nat): (r: Bytes)
    requires g.Fits() && ec < Room(8)
    ensures |r| == EC_HDR_SIZE - 4
  {
    RoomOf();
    BigEndian(4, EC_HDR_MAGIC) + [g.version] + Zeros(3) + BigEndian(8, ec)
    + BigEndian(4, g.vidHdrOffs) + BigEndian(4, g.dataOffs) + BigEndian(4, g.imageSeq) + Zeros(32)
  }

  function EcHdr(g: Geometry, ec: nat): (r: Bytes)
    requires g.Fits() && ec < Room(8)
    ensures |r| == EC_HDR_SIZE
  {
    Seal(EcHdrBody(g, ec))
  }

  /** A header that was built reads back as valid, with the values it was built from. */
  lemma EcHdrReadsBack(g: Geometry, ec: nat)
    requires g.Fits() && ec < Room(8)
    ensures GoodEcHdr(EcHdr(g, ec))
    ensures Counter(EcHdr(g, ec)) == ec && ImageSeq(EcHdr(g, ec)) == g.imageSeq
    ensures VidHdrOffset(EcHdr(g, ec)) == g.vidHdrOffs && DataOffset(EcHdr(g, ec)) == g.dataOffs
    ensures EcHdr(g, ec)[4] == g.version
    ensures forall i :: 5 <= i < 8 || 28 <= i < 60 ==> EcHdr(g, ec)[i] == 0
  {
    hide Number, BigEndian, Crc, Bytes4, Word4, Sealed, Room;
    RoomOf();
    var h, b := EcHdr(g, ec), EcHdrBody(g, ec);
    SealSealed(b);
    assert h[..EC_HDR_SIZE] == h;
    assert h[..4] == b[..4] == BigEndian(4, EC_HDR_MAGIC);
    assert h[8..16] == b[8..16] == BigEndian(8, ec);
    assert h[16..20] == b[16..20] == BigEndian(4, g.vidHdrOffs);
    assert h[20..24] == b[20..24] == BigEndian(4, g.dataOffs);
    assert h[24..28] == b[24..28] == BigEndian(4, g.imageSeq);
    NumberOfBigEndian(4, EC_HDR_MAGIC);
    NumberOfBigEndian(8, ec);
    NumberOfBigEndian(4, g.vidHdrOffs);
    NumberOfBigEndian(4, g.dataOffs);
    NumberOfBigEndian(4, g.imageSeq);
  }

  // The volume identifier header.

  const VID_STATIC: bv8 := 2

  datatype VolInfo = VolInfo(volType: bv8, id: nat, compat: bv8, dataPad: nat, usedEbs: nat) {
    ghost predicate Fits() {
      id < Room(4) && dataPad < Room(4) && usedEbs < Room(4)
    }
  }

  function VidHdrBody(version: bv8, vi: VolInfo, lnum: nat, data: Bytes): (r: Bytes)
    requires vi.Fits() && lnum < Room(4) && |data| < Room(4)
    ensures |r| == VID_HDR_SIZE - 4
  {
    RoomOf();
    BigEndian(4, VID_HDR_MAGIC) + [version, vi.volType, 0, vi.compat] + BigEndian(4, vi.id) + BigEndian(4, lnum)
    + Zeros(4) + (if vi.volType == VID_STATIC then BigEndian(4, |data|) + BigEndian(4, vi.usedEbs) else Zeros(8))
    + BigEndian(4, vi.dataPad) + (if vi.volType == VID_STATIC then Bytes4(Crc(CRC32_INIT, data)) else Zeros(4))
    + Zeros(24)
  }

  function VidHdr(version: bv8, vi: VolInfo, lnum: nat, data: Bytes): (r: Bytes)
    requires vi.Fits() && lnum < Room(4) && |data| < Room(4)
    ensures |r| == VID_HDR_SIZE
  {
    Seal(VidHdrBody(version, vi, lnum, data))
  }

  /** A volume identifier header reads back as it was built; a static volume's data is under a checksum too. */
  lemma VidHdrReadsBack(version: bv8, vi: VolInfo, lnum: nat, data: Bytes)
    requires vi.Fits() && lnum < Room(4) && |data| < Room(4)
    ensures
      var h := VidHdr(version, vi, lnum, data);
      && Sealed(h) && Number(h[..4]) == VID_HDR_MAGIC
      && h[4] == version && h[5] == vi.volType && h[7] == vi.compat
      && Number(h[8..12]) == vi.id && Number(h[12..16]) == lnum && Number(h[28..32]) == vi.dataPad
      && h[6] == 0 && (forall i :: 16 <= i < 20 || 36 <= i < 60 ==> h[i] == 0)
      && (vi.volType != VID_STATIC ==> forall i :: 20 <= i < 28 || 32 <= i < 36 ==> h[i] == 0)
      && (vi.volType == VID_STATIC ==>
          && Number(h[20..24]) == |data| && Number(h[24..28]) == vi.usedEbs
          && Word4(h[32..36]) == Crc(CRC32_INIT, data))
  {
    hide Number, BigEndian, Crc, Bytes4, Word4, Sealed, Room;
    RoomOf();
    var h, b := VidHdr(version, vi, lnum, data), VidHdrBody(version, vi, lnum, data);
    SealSealed(b);
    assert h[..4] == b[..4] == BigEndian(4, VID_HDR_MAGIC);
    assert h[8..12] == b[8..12] == BigEndian(4, vi.id);
    assert h[12..16] == b[12..16] == BigEndian(4, lnum);
    assert h[28..32] == b[28..32] == BigEndian(4, vi.dataPad);
    NumberOfBigEndian(4, VID_HDR_MAGIC);
    NumberOfBigEndian(4, vi.id);
    NumberOfBigEndian(4, lnum);
    NumberOfBigEndian(4, vi.dataPad);
    if vi.volType == VID_STATIC {
      assert h[20..24] == b[20..24] == BigEndian(4, |data|);
      assert h[24..28] == b[24..28] == BigEndian(4, vi.usedEbs);
      assert h[32..36] == b[32..36] == Bytes4(Crc(CRC32_INIT, data));
      NumberOfBigEndian(4, |data|);
      NumberOfBigEndian(4, vi.usedEbs);
      WordOfBytes(Crc(CRC32_INIT, data));
    }
  }

  // Re-stamping.

  function Reseal(s: Bytes): (r: Bytes)
    requires |s| >= EC_HDR_SIZE
    ensures |r| == |s|
  {
    Splice(s, EC_HDR_SIZE - 4, Bytes4(Crc(CRC32_INIT, s[..EC_HDR_SIZE - 4])))
  }

  /** A buffer that starts with a header, with a new image sequence number and counter in it. */
  function Restamp(s: Bytes, imageSeq: nat, ec: nat): (r: Bytes)
    requires |s| >= EC_HDR_SIZE && imageSeq < Room(4) && ec < Room(8)
    ensures |r| == |s|
  {
    Reseal(Splice(Splice(s, 24, BigEndian(4, imageSeq)), 8, BigEndian(8, ec)))
  }

  predicate Stamped(i: nat) {
    8 <= i < 16 || 24 <= i < 28 || EC_HDR_SIZE - 4 <= i < EC_HDR_SIZE
  }

  lemma ResealSealed(s: Bytes)
    requires |s| >= EC_HDR_SIZE
    ensures Sealed(Reseal(s)[..EC_HDR_SIZE])
  {
    hide Crc, Bytes4, Word4;
    var b := s[..EC_HDR_SIZE - 4];
    assert Reseal(s)[..EC_HDR_SIZE] == Seal(b);
    SealSealed(b);
  }

  /** Re-stamping a valid header gives a valid header that differs only in the stamped fields. */
  lemma RestampKeeps(s: Bytes, imageSeq: nat, ec: nat)
    requires GoodEcHdr(s) && imageSeq < Room(4) && ec < Room(8)
    ensures GoodEcHdr(Restamp(s, imageSeq, ec))
    ensures Counter(Restamp(s, imageSeq, ec)) == ec && ImageSeq(Restamp(s, imageSeq, ec)) == imageSeq
    ensures VidHdrOffset(Restamp(s, imageSeq, ec)) == VidHdrOffset(s)
    ensures DataOffset(Restamp(s, imageSeq, ec)) == DataOffset(s)
    ensures forall i :: 0 <= i < |s| && !Stamped(i) ==> Restamp(s, imageSeq, ec)[i] == s[i]
  {
    hide Number, BigEndian, Crc, Bytes4, Sealed, Room;
    var t := Splice(Splice(s, 24, BigEndian(4, imageSeq)), 8, BigEndian(8, ec));
    var r := Restamp(s, imageSeq, ec);
    ResealSealed(t);
    assert r[..4] == s[..4];
    assert r[8..16] == BigEndian(8, ec);
    assert r[16..20] == s[16..20];
    assert r[20..24] == s[20..24];
    assert r[24..28] == BigEndian(4, imageSeq);
    NumberOfBigEndian(8, ec);
    NumberOfBigEndian(4, imageSeq);
  }

  /** The last stamp counts: a buffer that is written again after a failure keeps nothing of the first one. */
  lemma RestampTwice(s: Bytes, q: nat, ec: nat, q': nat, ec': nat)
    requires |s| >= EC_HDR_SIZE
    requires q < Room(4) && ec < Room(8) && q' < Room(4) && ec' < Room(8)
    ensures Restamp(Restamp(s, q, ec), q', ec') == Restamp(s, q', ec')
  {
    hide BigEndian, Crc, Bytes4, Room;
    var t := Splice(Splice(s, 24, BigEndian(4, q')), 8, BigEndian(8, ec'));
    var u := Splice(Splice(Restamp(s, q, ec), 24, BigEndian(4, q')), 8, BigEndian(8, ec'));
    assert t[..EC_HDR_SIZE - 4] == u[..EC_HDR_SIZE - 4];
    assert Reseal(t) == Reseal(u);
  }

  /** Re-stamping a freshly built header is building it with the new values. */
  lemma RestampFresh(g: Geometry, ec: nat, rest: Bytes, imageSeq: nat, ec': nat)
    requires g.Fits() && ec < Room(8) && imageSeq < Room(4) && ec' < Room(8)
    ensures Restamp(EcHdr(g, ec) + rest, imageSeq, ec') == EcHdr(g.(imageSeq := imageSeq), ec') + rest
  {
    hide BigEndian, Crc, Bytes4, Room, Zeros;
    RoomOf();
    var s := EcHdr(g, ec) + rest;
    var t := Splice(Splice(s, 24, BigEndian(4, imageSeq)), 8, BigEndian(8, ec'));
    assert t[..EC_HDR_SIZE - 4] == EcHdrBody(g.(imageSeq := imageSeq), ec');
    assert Reseal(t) == EcHdr(g.(imageSeq := imageSeq), ec') + rest;
  }
}

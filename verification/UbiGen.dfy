/** Building UBI headers and the layout volume: libubigen.c. */
module UbiGen {
  import opened Crc32
  import opened Division
  import opened Flash
  import opened Octets
  import opened UbiMedia

  const VID_DYNAMIC: bv8 := 1
  const COMPAT_REJECT: bv8 := 5
  const LAYOUT_VOLUME_ID: nat := 0x7FFFFFFF - 4096
  const VTBL_RECORD_SIZE: nat := 172
  const MAX_VOLUMES: nat := 128

  /** Integer division that truncates toward zero. */
  function Quotient(a: int, b: nat): int
    requires b > 0
  {
    if a >= 0 then a / b else -(-a / b)
  }

  class UbigenInfo {
    const pebSize: nat
    const minIoSize: nat
    const vidHdrOffs: nat
    const dataOffs: nat
    const lebSize: int
    const ubiVer: nat
    const imageSeq: nat
    const maxVolumes: int
    const vtblSize: int

    /** ubigen_info_init. */
    constructor (pebSize: nat, minIoSize: nat, subpageSize: nat, vidHdrOffs: nat, ubiVer: nat, imageSeq: nat)
      requires minIoSize > 0 && (subpageSize > 0 || vidHdrOffs != 0)
      ensures this.pebSize == pebSize && this.minIoSize == minIoSize
      ensures this.ubiVer == ubiVer && this.imageSeq == imageSeq
      ensures this.vidHdrOffs == if vidHdrOffs != 0 then vidHdrOffs else RoundUp(EC_HDR_SIZE, subpageSize)
      ensures this.dataOffs == RoundUp(this.vidHdrOffs + VID_HDR_SIZE, minIoSize)
      ensures lebSize == pebSize - this.dataOffs
      ensures lebSize >= 0 ==> Usable()
    {
      var vid := vidHdrOffs;
      if vid == 0 {
        vid := EC_HDR_SIZE + subpageSize - 1;
        vid := vid / subpageSize;
        vid := vid * subpageSize;
      }
      var data := vid + VID_HDR_SIZE + minIoSize - 1;
      data := data / minIoSize;
      data := data * minIoSize;
      var volumes := Quotient(pebSize - data, VTBL_RECORD_SIZE);
      if volumes > MAX_VOLUMES {
        volumes := MAX_VOLUMES;
      }
      this.pebSize, this.minIoSize, this.vidHdrOffs, this.dataOffs := pebSize, minIoSize, vid, data;
      lebSize, this.ubiVer, this.imageSeq := pebSize - data, ubiVer, imageSeq;
      maxVolumes, vtblSize := volumes, volumes * VTBL_RECORD_SIZE;
      RoundUpLeast(vid + VID_HDR_SIZE, minIoSize);
    }

    /** Both headers and the largest volume table that a logical eraseblock holds fit in an eraseblock. */
    ghost predicate Usable() {
      && vidHdrOffs + VID_HDR_SIZE <= dataOffs
      && minIoSize > 0 && dataOffs % minIoSize == 0
      && lebSize == pebSize - dataOffs
      && 0 <= maxVolumes <= MAX_VOLUMES && vtblSize == maxVolumes * VTBL_RECORD_SIZE <= lebSize
      && (maxVolumes < MAX_VOLUMES ==> lebSize < vtblSize + VTBL_RECORD_SIZE)
    }

    ghost predicate Fits() {
      vidHdrOffs < Room(4) && dataOffs < Room(4) && imageSeq < Room(4)
    }

    /** A byte of a layout block outside of its volume header and its table. */
    ghost predicate Unused(i: nat) {
      !(vidHdrOffs <= i < vidHdrOffs + VID_HDR_SIZE) && !(dataOffs <= i < dataOffs + vtblSize)
    }

    function Geometry(): (g: Geometry)
      ensures Fits() ==> g.Fits()
    {
      UbiMedia.Geometry.Geometry(ByteOf(ubiVer % 256), vidHdrOffs, dataOffs, imageSeq)
    }
  }

  method Store(buf: array<bv8>, offs: nat, data: Bytes)
    requires offs + |data| <= buf.Length
    modifies buf
    ensures buf[..] == Splice(old(buf[..]), offs, data)
  {
    for i := 0 to |data|
      invariant forall j :: 0 <= j < buf.Length ==>
        buf[j] == if offs <= j < offs + i then data[j - offs] else old(buf[j])
    {
      buf[offs + i] := data[i];
    }
  }

  lemma SpliceParts(s: Bytes, offs: nat, data: Bytes)
    requires offs + |data| <= |s|
    ensures Splice(s, offs, data)[..offs + |data|] == s[..offs] + data
    ensures Splice(s, offs, data)[offs + |data|..] == s[offs + |data|..]
  {}

  /** The stores of ubigen_init_ec_hdr, one after the other. */
  lemma {:induction false} EcHdrStores(s: Bytes, g: Geometry, ec: nat)
    requires g.Fits() && ec < Room(8) && |s| >= EC_HDR_SIZE && s[..EC_HDR_SIZE] == Zeros(EC_HDR_SIZE)
    requires EC_HDR_MAGIC < Room(4)
    ensures
      var a := Splice(Splice(s, 0, BigEndian(4, EC_HDR_MAGIC)), 4, [g.version]);
      var b := Splice(Splice(a, 8, BigEndian(8, ec)), 16, BigEndian(4, g.vidHdrOffs));
      var c := Splice(Splice(b, 20, BigEndian(4, g.dataOffs)), 24, BigEndian(4, g.imageSeq));
      c[..EC_HDR_SIZE - 4] == EcHdrBody(g, ec) && c[EC_HDR_SIZE..] == s[EC_HDR_SIZE..]
  {
    hide BigEndian, Crc, Bytes4, Room, Splice;
    var m := Splice(s, 0, BigEndian(4, EC_HDR_MAGIC));
    SpliceParts(s, 0, BigEndian(4, EC_HDR_MAGIC));
    var a := Splice(m, 4, [g.version]);
    SpliceParts(m, 4, [g.version]);
    assert a[..8] == BigEndian(4, EC_HDR_MAGIC) + [g.version] + Zeros(3);
    var e := Splice(a, 8, BigEndian(8, ec));
    SpliceParts(a, 8, BigEndian(8, ec));
    var b := Splice(e, 16, BigEndian(4, g.vidHdrOffs));
    SpliceParts(e, 16, BigEndian(4, g.vidHdrOffs));
    var d := Splice(b, 20, BigEndian(4, g.dataOffs));
    SpliceParts(b, 20, BigEndian(4, g.dataOffs));
    var c := Splice(d, 24, BigEndian(4, g.imageSeq));
    SpliceParts(d, 24, BigEndian(4, g.imageSeq));
    assert e[..16] == BigEndian(4, EC_HDR_MAGIC) + [g.version] + Zeros(3) + BigEndian(8, ec);
    assert b[..20] == e[..16] + BigEndian(4, g.vidHdrOffs);
    assert d[..24] == b[..20] + BigEndian(4, g.dataOffs);
    assert c[..28] == d[..24] + BigEndian(4, g.imageSeq);
    assert c[28..EC_HDR_SIZE] == s[28..EC_HDR_SIZE] == Zeros(36);
    assert c[28..EC_HDR_SIZE - 4] == Zeros(32);
    assert c[..EC_HDR_SIZE - 4] == c[..28] + c[28..EC_HDR_SIZE - 4];
  }

  /** ubigen_init_ec_hdr, on the buffer that the header starts. */
  method InitEcHdr(ui: UbigenInfo, hdr: array<bv8>, ec: nat)
    requires ui.Fits() && ec < Room(8) && hdr.Length >= EC_HDR_SIZE
    modifies hdr
    ensures hdr[..] == EcHdr(ui.Geometry(), ec) + old(hdr[..])[EC_HDR_SIZE..]
  {
    hide BigEndian, Crc, Bytes4, Room, Splice, EcHdrBody;
    RoomOf();
    ghost var g := ui.Geometry();
    Store(hdr, 0, Zeros(EC_HDR_SIZE));
    SpliceParts(old(hdr[..]), 0, Zeros(EC_HDR_SIZE));
    EcHdrStores(hdr[..], g, ec);
    Store(hdr, 0, BigEndian(4, EC_HDR_MAGIC));
    Store(hdr, 4, [ByteOf(ui.ubiVer % 256)]);
    Store(hdr, 8, BigEndian(8, ec));
    Store(hdr, 16, BigEndian(4, ui.vidHdrOffs));
    Store(hdr, 20, BigEndian(4, ui.dataOffs));
    Store(hdr, 24, BigEndian(4, ui.imageSeq));
    ghost var body := hdr[..];
    var crc := MtdCrc32(CRC32_INIT, hdr[..EC_HDR_SIZE - 4]);
    Store(hdr, EC_HDR_SIZE - 4, Bytes4(crc));
    SpliceParts(body, EC_HDR_SIZE - 4, Bytes4(crc));
    assert hdr[..] == hdr[..][..EC_HDR_SIZE] + hdr[..][EC_HDR_SIZE..];
    assert hdr[..][..EC_HDR_SIZE] == EcHdr(g, ec);
  }

  lemma SpliceTwice(s: Bytes, offs: nat, h: Bytes, at: nat, data: Bytes)
    requires offs + |h| <= |s| && at + |data| <= |h|
    ensures Splice(Splice(s, offs, h), offs + at, data) == Splice(s, offs, Splice(h, at, data))
  {}

  /** Store a field of a header that lies somewhere in a buffer. */
  method StoreField(buf: array<bv8>, offs: nat, at: nat, data: Bytes, ghost was: Bytes, ghost hdr: Bytes)
    requires offs + |hdr| <= |was| && at + |data| <= |hdr| && buf[..] == Splice(was, offs, hdr)
    modifies buf
    ensures buf[..] == Splice(was, offs, Splice(hdr, at, data))
  {
    hide Splice;
    Store(buf, offs + at, data);
    SpliceTwice(was, offs, hdr, at, data);
  }

  function WithStatic(h: Bytes, vi: VolInfo, data: Bytes): (r: Bytes)
    requires |h| == VID_HDR_SIZE && vi.Fits() && |data| < Room(4)
    ensures |r| == |h|
  {
    if vi.volType == VID_STATIC then
      Splice(Splice(Splice(h, 20, BigEndian(4, |data|)), 24, BigEndian(4, vi.usedEbs)), 32,
        Bytes4(Crc(CRC32_INIT, data)))
    else
      h
  }

  function CommonFields(version: bv8, vi: VolInfo, lnum: nat): (r: Bytes)
    requires vi.Fits() && lnum < Room(4) && VID_HDR_MAGIC < Room(4)
    ensures |r| == VID_HDR_SIZE
  {
    var a := Splice(Splice(Zeros(VID_HDR_SIZE), 0, BigEndian(4, VID_HDR_MAGIC)), 4, [version]);
    var b := Splice(Splice(a, 5, [vi.volType]), 8, BigEndian(4, vi.id));
    var c := Splice(Splice(b, 12, BigEndian(4, lnum)), 28, BigEndian(4, vi.dataPad));
    Splice(c, 7, [vi.compat])
  }

  lemma {:induction false} CommonStores(version: bv8, vi: VolInfo, lnum: nat)
    requires vi.Fits() && lnum < Room(4) && VID_HDR_MAGIC < Room(4)
    ensures CommonFields(version, vi, lnum)
      == BigEndian(4, VID_HDR_MAGIC) + [version, vi.volType, 0, vi.compat] + BigEndian(4, vi.id) + BigEndian(4, lnum)
         + Zeros(12) + BigEndian(4, vi.dataPad) + Zeros(32)
  {
    hide BigEndian, Room, Splice;
    var m := BigEndian(4, VID_HDR_MAGIC);
    var a := Splice(Splice(Zeros(VID_HDR_SIZE), 0, m), 4, [version]);
    assert a == m + [version] + Zeros(59);
    var b := Splice(Splice(a, 5, [vi.volType]), 8, BigEndian(4, vi.id));
    assert b == m + [version, vi.volType, 0, 0] + BigEndian(4, vi.id) + Zeros(52);
    var e := Splice(b, 12, BigEndian(4, lnum));
    SpliceParts(b, 12, BigEndian(4, lnum));
    assert e[16..] == Zeros(48) && e[..12] == b[..12] && e[12..16] == BigEndian(4, lnum);
    var c := Splice(e, 28, BigEndian(4, vi.dataPad));
    SpliceParts(e, 28, BigEndian(4, vi.dataPad));
    assert c[..12] == e[..12];
    assert c[12..] == BigEndian(4, lnum) + Zeros(12) + BigEndian(4, vi.dataPad) + Zeros(32);
    assert c == c[..12] + c[12..];
  }

  /** The stores of ubigen_init_vid_hdr, one after the other. */
  lemma VidHdrStores(version: bv8, vi: VolInfo, lnum: nat, data: Bytes)
    requires vi.Fits() && lnum < Room(4) && |data| < Room(4) && VID_HDR_MAGIC < Room(4)
    ensures WithStatic(CommonFields(version, vi, lnum), vi, data)[..VID_HDR_SIZE - 4]
      == VidHdrBody(version, vi, lnum, data)
  {
    hide BigEndian, Crc, Bytes4, Room, Splice, CommonFields;
    var d := CommonFields(version, vi, lnum);
    var r := WithStatic(d, vi, data);
    CommonStores(version, vi, lnum);
    assert d[..16] == BigEndian(4, VID_HDR_MAGIC) + [version, vi.volType, 0, vi.compat] + BigEndian(4, vi.id)
      + BigEndian(4, lnum);
    assert d[16..] == Zeros(12) + BigEndian(4, vi.dataPad) + Zeros(32);
    assert r[..16] == d[..16];
    if vi.volType == VID_STATIC {
      assert r[16..] == Zeros(4) + BigEndian(4, |data|) + BigEndian(4, vi.usedEbs) + BigEndian(4, vi.dataPad)
        + Bytes4(Crc(CRC32_INIT, data)) + Zeros(28);
    } else {
      assert r[16..] == Zeros(4) + Zeros(8) + BigEndian(4, vi.dataPad) + Zeros(4) + Zeros(28);
    }
    assert r[..60] == r[..16] + r[16..][..44];
  }

  /** ubigen_init_vid_hdr, on a header somewhere in a buffer. */
  method InitVidHdr(ui: UbigenInfo, vi: VolInfo, buf: array<bv8>, offs: nat, lnum: nat, data: Bytes)
    requires vi.Fits() && lnum < Room(4) && |data| < Room(4) && offs + VID_HDR_SIZE <= buf.Length
    modifies buf
    ensures buf[..] == Splice(old(buf[..]), offs, VidHdr(ui.Geometry().version, vi, lnum, data))
  {
    hide BigEndian, Crc, Bytes4, Room, Splice, VidHdrBody;
    RoomOf();
    ghost var was, h := buf[..], Zeros(VID_HDR_SIZE);
    var version := ByteOf(ui.ubiVer % 256);
    VidHdrStores(version, vi, lnum, data);
    Store(buf, offs, Zeros(VID_HDR_SIZE));
    StoreField(buf, offs, 0, BigEndian(4, VID_HDR_MAGIC), was, h);
    h := Splice(h, 0, BigEndian(4, VID_HDR_MAGIC));
    StoreField(buf, offs, 4, [version], was, h);
    h := Splice(h, 4, [version]);
    StoreField(buf, offs, 5, [vi.volType], was, h);
    h := Splice(h, 5, [vi.volType]);
    StoreField(buf, offs, 8, BigEndian(4, vi.id), was, h);
    h := Splice(h, 8, BigEndian(4, vi.id));
    StoreField(buf, offs, 12, BigEndian(4, lnum), was, h);
    h := Splice(h, 12, BigEndian(4, lnum));
    StoreField(buf, offs, 28, BigEndian(4, vi.dataPad), was, h);
    h := Splice(h, 28, BigEndian(4, vi.dataPad));
    StoreField(buf, offs, 7, [vi.compat], was, h);
    h := Splice(h, 7, [vi.compat]);
    if vi.volType == VID_STATIC {
      StoreField(buf, offs, 20, BigEndian(4, |data|), was, h);
      StoreField(buf, offs, 24, BigEndian(4, vi.usedEbs), was, Splice(h, 20, BigEndian(4, |data|)));
      var crc := MtdCrc32(CRC32_INIT, data);
      StoreField(buf, offs, 32, Bytes4(crc), was,
        Splice(Splice(h, 20, BigEndian(4, |data|)), 24, BigEndian(4, vi.usedEbs)));
    }
    h := WithStatic(h, vi, data);
    SplicePart(was, offs, h);
    var crc := MtdCrc32(CRC32_INIT, buf[offs..offs + VID_HDR_SIZE - 4]);
    StoreField(buf, offs, VID_HDR_SIZE - 4, Bytes4(crc), was, h);
    SpliceParts(h, VID_HDR_SIZE - 4, Bytes4(crc));
  }

  lemma SplicePart(s: Bytes, offs: nat, h: Bytes)
    requires offs + |h| <= |s| && |h| == VID_HDR_SIZE
    ensures Splice(s, offs, h)[offs..offs + VID_HDR_SIZE - 4] == h[..VID_HDR_SIZE - 4]
  {}

  // The volume table.

  function EmptyRecord(): (r: Bytes)
    ensures |r| == VTBL_RECORD_SIZE
  {
    Seal(Zeros(VTBL_RECORD_SIZE - 4))
  }

  function Records(n: nat): (r: Bytes)
    ensures |r| == VTBL_RECORD_SIZE * n
  {
    if n == 0 then [] else Records(n - 1) + EmptyRecord()
  }

  /** Every record of the table is an empty one with a valid checksum. */
  lemma {:induction false} RecordsSealed(n: nat, i: nat)
    requires i < n
    ensures Sealed(Records(n)[VTBL_RECORD_SIZE * i..VTBL_RECORD_SIZE * (i + 1)])
    ensures Records(n)[VTBL_RECORD_SIZE * i..VTBL_RECORD_SIZE * (i + 1) - 4] == Zeros(VTBL_RECORD_SIZE - 4)
  {
    hide Sealed, EmptyRecord;
    if i == n - 1 {
      assert Records(n)[VTBL_RECORD_SIZE * i..VTBL_RECORD_SIZE * (i + 1)] == EmptyRecord();
      EmptyRecordSealed();
      assert Records(n)[VTBL_RECORD_SIZE * i..VTBL_RECORD_SIZE * (i + 1) - 4] == EmptyRecord()[..VTBL_RECORD_SIZE - 4];
    } else {
      RecordsSealed(n - 1, i);
      assert Records(n)[VTBL_RECORD_SIZE * i..VTBL_RECORD_SIZE * (i + 1)]
        == Records(n - 1)[VTBL_RECORD_SIZE * i..VTBL_RECORD_SIZE * (i + 1)];
      assert Records(n)[VTBL_RECORD_SIZE * i..VTBL_RECORD_SIZE * (i + 1) - 4]
        == Records(n - 1)[VTBL_RECORD_SIZE * i..VTBL_RECORD_SIZE * (i + 1) - 4];
    }
  }

  lemma EmptyRecordSealed()
    ensures Sealed(EmptyRecord())
    ensures EmptyRecord()[..VTBL_RECORD_SIZE - 4] == Zeros(VTBL_RECORD_SIZE - 4)
  {
    hide Sealed, Seal;
    SealSealed(Zeros(VTBL_RECORD_SIZE - 4));
  }

  /** ubigen_create_empty_vtbl. */
  method CreateEmptyVtbl(ui: UbigenInfo) returns (vtbl: array<bv8>)
    requires ui.Usable()
    ensures fresh(vtbl) && vtbl.Length == ui.vtblSize && vtbl[..] == Records(ui.maxVolumes)
  {
    hide Crc, Bytes4, Records, Splice;
    vtbl := new bv8[ui.vtblSize](_ => 0);
    NoRecords(vtbl[..], ui.maxVolumes);
    for i := 0 to ui.maxVolumes
      invariant vtbl[..] == Records(i) + Zeros(VTBL_RECORD_SIZE * (ui.maxVolumes - i))
    {
      var at := VTBL_RECORD_SIZE * i;
      NextRecord(vtbl[..], i, ui.maxVolumes);
      var crc := MtdCrc32(CRC32_INIT, vtbl[..][at..at + VTBL_RECORD_SIZE - 4]);
      Store(vtbl, at + VTBL_RECORD_SIZE - 4, Bytes4(crc));
    }
  }

  lemma NoRecords(s: Bytes, n: nat)
    requires |s| == VTBL_RECORD_SIZE * n && forall i :: 0 <= i < |s| ==> s[i] == 0
    ensures s == Records(0) + Zeros(VTBL_RECORD_SIZE * n)
  {}

  lemma NextRecord(was: Bytes, i: nat, n: nat)
    requires i < n && was == Records(i) + Zeros(VTBL_RECORD_SIZE * (n - i))
    ensures was[VTBL_RECORD_SIZE * i..VTBL_RECORD_SIZE * i + VTBL_RECORD_SIZE - 4] == Zeros(VTBL_RECORD_SIZE - 4)
    ensures
      Splice(was, VTBL_RECORD_SIZE * i + VTBL_RECORD_SIZE - 4, Bytes4(Crc(CRC32_INIT, Zeros(VTBL_RECORD_SIZE - 4))))
      == Records(i + 1) + Zeros(VTBL_RECORD_SIZE * (n - i - 1))
  {
    hide Crc, Bytes4, Splice;
    var at := VTBL_RECORD_SIZE * i;
    var crc := Bytes4(Crc(CRC32_INIT, Zeros(VTBL_RECORD_SIZE - 4)));
    var now := Splice(was, at + VTBL_RECORD_SIZE - 4, crc);
    SpliceParts(was, at + VTBL_RECORD_SIZE - 4, crc);
    assert was[..at + VTBL_RECORD_SIZE - 4] == Records(i) + Zeros(VTBL_RECORD_SIZE - 4);
    assert Records(i + 1) == Records(i) + Zeros(VTBL_RECORD_SIZE - 4) + crc;
    assert was[at + VTBL_RECORD_SIZE..] == Zeros(VTBL_RECORD_SIZE * (n - i - 1));
    assert now == now[..at + VTBL_RECORD_SIZE] + now[at + VTBL_RECORD_SIZE..];
  }

  // The layout volume.

  const LAYOUT_VOLUME: VolInfo := VolInfo(VID_DYNAMIC, LAYOUT_VOLUME_ID, COMPAT_REJECT, 0, 0)

  function LayoutBase(ui: UbigenInfo, vtbl: Bytes): (r: Bytes)
    requires ui.Usable() && |vtbl| == ui.vtblSize
    ensures |r| == ui.pebSize
  {
    Blank(ui.dataOffs) + vtbl + Blank(ui.pebSize - ui.dataOffs - ui.vtblSize)
  }

  /** An eraseblock of the layout volume. */
  function LayoutBlock(ui: UbigenInfo, vtbl: Bytes, ec: nat, lnum: nat): (r: Bytes)
    requires ui.Usable() && ui.Fits() && |vtbl| == ui.vtblSize && ec < Room(8) && lnum < Room(4)
    ensures |r| == ui.pebSize
  {
    RoomOf();
    Splice(Splice(LayoutBase(ui, vtbl), 0, EcHdr(ui.Geometry(), ec)), ui.vidHdrOffs,
      VidHdr(ui.Geometry().version, LAYOUT_VOLUME, lnum, []))
  }

  /**
   * A layout block holds its volume header and its table where they belong, and the erase counter header as far as the
   * volume header does not overwrite it.
   */
  lemma LayoutBlockReads(ui: UbigenInfo, vtbl: Bytes, ec: nat, lnum: nat)
    requires ui.Usable() && ui.Fits() && |vtbl| == ui.vtblSize && ec < Room(8) && lnum < Room(4)
    ensures LAYOUT_VOLUME.Fits() && 0 < Room(4)
    ensures
      var b, k := LayoutBlock(ui, vtbl, ec, lnum), if ui.vidHdrOffs < EC_HDR_SIZE then ui.vidHdrOffs else EC_HDR_SIZE;
      && b[..k] == EcHdr(ui.Geometry(), ec)[..k]
      && b[ui.vidHdrOffs..ui.vidHdrOffs + VID_HDR_SIZE] == VidHdr(ui.Geometry().version, LAYOUT_VOLUME, lnum, [])
      && b[ui.dataOffs..ui.dataOffs + ui.vtblSize] == vtbl
      && forall i :: EC_HDR_SIZE <= i < |b| && ui.Unused(i) ==> b[i] == ERASED
  {
    hide Room, EcHdr, VidHdr, Splice;
    RoomOf();
  }

  /** The headers of a device carry the version, the offsets and the number that were asked for. */
  lemma BuiltFor(ui: UbigenInfo, vi: VolInfo, ec: nat, lnum: nat)
    requires ui.Fits() && vi.Fits() && ec < Room(8) && lnum < Room(4)
    ensures 0 < Room(4)
    ensures
      var h, v := EcHdr(ui.Geometry(), ec), VidHdr(ui.Geometry().version, vi, lnum, []);
      && Val(h[4]) == Val(v[4]) == ui.ubiVer % 256
      && VidHdrOffset(h) == ui.vidHdrOffs && DataOffset(h) == ui.dataOffs && ImageSeq(h) == ui.imageSeq
  {
    hide Room, EcHdr, VidHdr, Number, Crc, Sealed, Bytes4, Word4, Val, ByteOf;
    RoomOf();
    EcHdrReadsBack(ui.Geometry(), ec);
    VidHdrReadsBack(ui.Geometry().version, vi, lnum, []);
    ValByte(ui.ubiVer % 256);
  }

  /** Building the second block over the first leaves nothing of it. */
  lemma LayoutAgain(ui: UbigenInfo, vtbl: Bytes, ec: nat, lnum: nat, ec': nat, lnum': nat)
    requires ui.Usable() && ui.Fits() && |vtbl| == ui.vtblSize
    requires ec < Room(8) && lnum < Room(4) && ec' < Room(8) && lnum' < Room(4)
    requires LAYOUT_VOLUME.Fits() && 0 < Room(4)
    ensures
      Splice(Splice(LayoutBlock(ui, vtbl, ec, lnum), 0, EcHdr(ui.Geometry(), ec')), ui.vidHdrOffs,
        VidHdr(ui.Geometry().version, LAYOUT_VOLUME, lnum', []))
      == LayoutBlock(ui, vtbl, ec', lnum')
  {
    hide Room, EcHdr, VidHdr, Splice, LayoutBase;
  }

  /** ubigen_write_layout_vol. */
  method WriteLayoutVol(ui: UbigenInfo, peb1: nat, peb2: nat, ec1: nat, ec2: nat, vtbl: array<bv8>, dev: Device)
    returns (ret: int)
    requires dev.Valid() && ui.Usable() && ui.Fits() && ui.pebSize == dev.ebSize && vtbl.Length == ui.vtblSize
    requires peb1 < dev.ebCnt && peb2 < dev.ebCnt && peb1 != peb2 && ec1 < Room(8) && ec2 < Room(8)
    modifies dev`blocks, dev`faults
    ensures dev.Valid() && 1 < Room(4) && (ret == 0 || ret == -1)
    ensures old(dev.faults) <= dev.faults && (ret == -1 <==> Fatal(old(dev.faults), dev.faults, dev.bbAllowed))
    ensures ret == 0 ==> dev.blocks == old(dev.blocks)
      [peb1 := Programmed(old(dev.blocks)[peb1], 0, LayoutBlock(ui, vtbl[..], ec1, 0))]
      [peb2 := Programmed(old(dev.blocks)[peb2], 0, LayoutBlock(ui, vtbl[..], ec2, 1))]
    ensures forall b :: 0 <= b < dev.ebCnt && b != peb1 && b != peb2 ==> dev.blocks[b] == old(dev.blocks)[b]
  {
    hide Room, EcHdr, VidHdr, Splice, LayoutBlock, LayoutBase, UbigenInfo.Usable, Fatal;
    RoomOf();
    LayoutSizes(ui);
    MultipleOf(dev.ebSize, dev.minIo, dev.subpage);
    ghost var faults := dev.faults;
    NothingNew(faults, dev.bbAllowed);
    OnlyTable(faults, peb1, peb2, dev.bbAllowed);
    var outbuf := new bv8[ui.pebSize](_ => ERASED);
    Store(outbuf, ui.dataOffs, vtbl[..]);
    LayoutStart(ui, outbuf[..], vtbl[..]);
    InitEcHdr(ui, outbuf, ec1);
    FrontSplice(LayoutBase(ui, vtbl[..]), EcHdr(ui.Geometry(), ec1));
    InitVidHdr(ui, LAYOUT_VOLUME, outbuf, ui.vidHdrOffs, 0, []);
    LayoutIs(ui, vtbl[..], ec1, 0);
    ghost var first := outbuf[..];
    var st := dev.Write(peb1, 0, outbuf[..], Table);
    if st != Done {
      return -1;
    }
    InitEcHdr(ui, outbuf, ec2);
    FrontSplice(first, EcHdr(ui.Geometry(), ec2));
    InitVidHdr(ui, LAYOUT_VOLUME, outbuf, ui.vidHdrOffs, 1, []);
    LayoutAgain(ui, vtbl[..], ec1, 0, ec2, 1);
    st := dev.Write(peb2, 0, outbuf[..], Table);
    if st != Done {
      return -1;
    }
    return 0;
  }

  lemma OnlyTable(faults: seq<Fault>, peb1: nat, peb2: nat, marks: bool)
    ensures forall eio ::
      Fatal(faults, faults + [Fault(Writing, peb1, eio, Table)], marks)
      && Fatal(faults, faults + [Fault(Writing, peb2, eio, Table)], marks)
  {
    forall eio: bool
      ensures Fatal(faults, faults + [Fault(Writing, peb1, eio, Table)], marks)
      ensures Fatal(faults, faults + [Fault(Writing, peb2, eio, Table)], marks)
    {
      OneMore(faults, Fault(Writing, peb1, eio, Table), marks);
      OneMore(faults, Fault(Writing, peb2, eio, Table), marks);
    }
  }

  lemma LayoutSizes(ui: UbigenInfo)
    requires ui.Usable() && Room(4) == 0x1_0000_0000
    ensures ui.vidHdrOffs + VID_HDR_SIZE <= ui.pebSize && ui.dataOffs + ui.vtblSize <= ui.pebSize
    ensures EC_HDR_SIZE <= ui.pebSize && LAYOUT_VOLUME.Fits()
  {}

  lemma LayoutStart(ui: UbigenInfo, s: Bytes, vtbl: Bytes)
    requires ui.Usable() && |vtbl| == ui.vtblSize && s == Splice(Blank(ui.pebSize), ui.dataOffs, vtbl)
    ensures s == LayoutBase(ui, vtbl)
  {}

  lemma LayoutIs(ui: UbigenInfo, vtbl: Bytes, ec: nat, lnum: nat)
    requires ui.Usable() && ui.Fits() && |vtbl| == ui.vtblSize && ec < Room(8) && lnum < Room(4)
    requires LAYOUT_VOLUME.Fits() && 0 < Room(4)
    ensures LayoutBlock(ui, vtbl, ec, lnum) ==
      Splice(Splice(LayoutBase(ui, vtbl), 0, EcHdr(ui.Geometry(), ec)), ui.vidHdrOffs,
        VidHdr(ui.Geometry().version, LAYOUT_VOLUME, lnum, []))
  {
    hide Room, EcHdr, VidHdr, Splice, LayoutBase;
  }

  lemma FrontSplice(s: Bytes, h: Bytes)
    requires |h| <= |s|
    ensures Splice(s, 0, h) == h + s[|h|..]
  {}

  lemma WholeWrite(b: Block, data: Bytes)
    requires |b| == |data| && b == Blank(|b|)
    ensures Programmed(b, 0, data) == data
  {
    ProgrammedErased(b, 0, data);
  }
}

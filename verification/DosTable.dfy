/** Partition entries, table sectors and cylinder addresses: the data of busybox/fdisk.c. */
module DosTable {
  import opened Division

  const EXTENDED: nat := 0x05
  const WIN98_EXTENDED: nat := 0x0f
  const LINUX_NATIVE: nat := 0x83
  const LINUX_EXTENDED: nat := 0x85

  predicate IsExtended(sysInd: nat) {
    sysInd == EXTENDED || sysInd == WIN98_EXTENDED || sysInd == LINUX_EXTENDED
  }

  const SECTORS: nat := 0x1_0000_0000

  /** Sector numbers and counts are 32 bits wide. */
  type SectorNo = x: int | 0 <= x < SECTORS

  function Wrap(x: int): (r: SectorNo)
    ensures 0 <= x < SECTORS ==> r == x
  {
    x % SECTORS
  }

  /** Subtracting an offset and adding it again. */
  lemma WrapBack(x: int, e: int)
    ensures Wrap(e + Wrap(x - e)) == Wrap(x)
  {}

  /** The three bytes of a cylinder, head and sector address. */
  datatype Chs = Chs(head: nat, sector: nat, cyl: nat)

  datatype Partition = Partition(bootInd: nat, first: Chs, sysInd: nat, last: Chs, start: SectorNo, size: SectorNo)

  const CLEARED: Partition := Partition(0, Chs(0, 0, 0), 0, Chs(0, 0, 0), 0, 0)

  /** A sector with four entries, between boot code and a signature. */
  datatype SectorData = SectorData(code: seq<bv8>, parts: seq<Partition>, flagged: bool)

  // Cylinder addresses.

  function Cylinder(sector: nat, heads: nat, sectors: nat): nat
    requires heads > 0 && sectors > 0
  {
    sector / sectors / heads
  }

  /** The bitwise or of two numbers of two bits. */
  function Or(x: nat, y: nat): (r: nat)
    requires x < 4 && y < 4
    ensures r < 4 && (x == 0 ==> r == y)
  {
    (if x % 2 == 1 || y % 2 == 1 then 1 else 0) + (if x / 2 == 1 || y / 2 == 1 then 2 else 0)
  }

  /**
   * set_hsc: six bits of the sector byte belong to the sector, and two bits of the cylinder are or-ed to them. What
   * does not fit in a byte is cut off.
   */
  function SetHsc(sector: nat, heads: nat, sectors: nat): (a: Chs)
    requires heads > 0 && sectors > 0
    ensures a.head < 256 && a.sector < 256 && a.cyl < 256
  {
    var c := Cylinder(sector, heads, sectors);
    var s := (sector % sectors + 1) % 256;
    Chs(sector / sectors % heads % 256, s % 64 + 64 * Or(s / 64, c / 256 % 4), c % 256)
  }

  /** With up to 63 sectors per track the two bits are free. */
  lemma SetHscParts(sector: nat, heads: nat, sectors: nat)
    requires heads > 0 && 0 < sectors <= 63
    ensures SetHsc(sector, heads, sectors) == Chs(sector / sectors % heads % 256,
      sector % sectors + 1 + 64 * (Cylinder(sector, heads, sectors) / 256 % 4), Cylinder(sector, heads, sectors) % 256)
  {
    hide Cylinder, Or;
    SixBits(sector % sectors + 1, Cylinder(sector, heads, sectors) / 256 % 4);
  }

  lemma SixBits(x: nat, q: nat)
    requires x <= 63 && q < 4
    ensures x % 256 % 64 + 64 * Or(x % 256 / 64, q) == x + 64 * q
  {}

  /** The cylinder, head and sector that check_consistency reads from an entry. */
  function ReadChs(a: Chs): (nat, nat, nat) {
    (a.cyl + 256 * (a.sector / 64), a.head, a.sector % 64)
  }

  /** linear2chs. */
  method Linear2Chs(ls: nat, heads: nat, sectors: nat) returns (c: nat, h: nat, s: nat)
    requires heads > 0 && sectors > 0
    ensures c == Cylinder(ls, heads, sectors) && h == ls / sectors % heads && s == ls % sectors + 1
  {
    var spc := heads * sectors;
    c := ls / spc;
    var rest := ls % spc;
    h := rest / sectors;
    s := rest % sectors + 1;
    SplitSector(ls, heads, sectors);
  }

  lemma SplitSector(ls: nat, heads: nat, sectors: nat)
    requires heads > 0 && sectors > 0
    ensures heads * sectors > 0
    ensures ls / (heads * sectors) == Cylinder(ls, heads, sectors)
    ensures ls % (heads * sectors) / sectors == ls / sectors % heads
    ensures ls % (heads * sectors) % sectors == ls % sectors
  {
    var q, r := ls / sectors, ls % sectors;
    var c, t := q / heads, q % heads;
    DivIdentity(ls, sectors);
    DivIdentity(q, heads);
    MulAtLeast(heads, sectors);
    assert ls == c * (heads * sectors) + (t * sectors + r) by {
      assert (c * heads + t) * sectors == c * heads * sectors + t * sectors;
      assert c * heads * sectors == c * (heads * sectors);
    }
    assert t * sectors + r < heads * sectors by {
      MulAtLeast(heads - t, sectors);
      assert (heads - t) * sectors == heads * sectors - t * sectors;
    }
    DivOf(ls, c, heads * sectors, t * sectors + r);
    DivOf(t * sectors + r, t, sectors, r);
  }

  /** An address reads back as its sector, if and only if each of the parts fits in its ten, eight or six bits. */
  lemma ChsReadsBack(sector: nat, heads: nat, sectors: nat)
    requires heads > 0 && sectors > 0
    ensures ReadChs(SetHsc(sector, heads, sectors))
        == (Cylinder(sector, heads, sectors), sector / sectors % heads, sector % sectors + 1)
      <==> Cylinder(sector, heads, sectors) <= 1023 && sector / sectors % heads <= 255 && sector % sectors + 1 <= 63
  {
    var c := Cylinder(sector, heads, sectors);
    var s := sector % sectors + 1;
    var b := SetHsc(sector, heads, sectors).sector;
    assert b / 64 == Or(s % 256 / 64, c / 256 % 4) && b % 64 == s % 256 % 64;
    assert c == 256 * (c / 256) + c % 256;
  }

  /** In DOS compatible mode an address beyond the last cylinder stands for the last sector. */
  function Clamped(sector: nat, heads: nat, sectors: nat, dos: bool): nat
    requires heads > 0 && sectors > 0
  {
    if dos && sector / (sectors * heads) > 1023 then heads * sectors * 1024 - 1 else sector
  }

  lemma ClampedCylinder(sector: nat, heads: nat, sectors: nat)
    requires heads > 0 && sectors > 0
    ensures Cylinder(Clamped(sector, heads, sectors, true), heads, sectors) <= 1023
  {
    var spc := heads * sectors;
    SplitSector(sector, heads, sectors);
    if sector / (sectors * heads) > 1023 {
      LastAddressed(heads, sectors);
    } else {
      assert sectors * heads == spc;
    }
  }

  /** A sector with an address is left alone, and any other becomes the last one that has an address. */
  lemma ClampedExactly(sector: nat, heads: nat, sectors: nat)
    requires heads > 0 && sectors > 0
    ensures Clamped(sector, heads, sectors, false) == sector
    ensures
      var s := Clamped(sector, heads, sectors, true);
      if Cylinder(sector, heads, sectors) <= 1023 then s == sector
      else Cylinder(s, heads, sectors) == 1023 && Cylinder(s + 1, heads, sectors) == 1024 && s < sector
  {
    var spc := heads * sectors;
    SplitSector(sector, heads, sectors);
    assert sectors * heads == spc;
    LastAddressed(heads, sectors);
    SplitSector(spc * 1024, heads, sectors);
    DivOf(spc * 1024, 1024, spc, 0);
    if Cylinder(sector, heads, sectors) > 1023 {
      DivIdentity(sector, spc);
      MulOrder(sector / spc, 1024, spc);
    }
  }

  lemma LastAddressed(heads: nat, sectors: nat)
    requires heads > 0 && sectors > 0
    ensures heads * sectors * 1024 > 0 && Cylinder(heads * sectors * 1024 - 1, heads, sectors) == 1023
  {
    var spc := heads * sectors;
    MulAtLeast(heads, sectors);
    SplitSector(spc * 1024 - 1, heads, sectors);
    DivOf(spc * 1024 - 1, 1023, spc, spc - 1);
  }
}

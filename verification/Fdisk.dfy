/** Editing a DOS partition table: the global state of busybox/fdisk.c and the functions that change it. */
module Fdisk {
  import opened Allocation
  import opened DosTable
  import opened LogicalChain
  import opened Wrappers

  class Editor {
    var disk: Disk
    var mbr: SectorData
    var ptes: seq<Pte>
    var gPartitions: nat
    var extIndex: nat
    var extendedOffset: SectorNo
    const heads: nat
    const sectors: nat
    const cylinders: nat
    const dosCompatible: bool
    const inCylinders: bool
    const sectorOffset: nat
    const totalSectors: nat

    /** The table before anything of the disk but its first sector has been looked at. */
    constructor (disk: Disk, mbr: SectorData, heads: nat, sectors: nat, cylinders: nat, dosCompatible: bool,
                 inCylinders: bool, sectorOffset: nat, totalSectors: nat)
      requires |mbr.parts| == 4
      ensures Shaped() && gPartitions == 4 && extendedOffset == 0
      ensures this.disk == disk && this.mbr == mbr
      ensures forall i :: 0 <= i < 4 ==> !ptes[i].changed && ptes[i].offset == 0
      ensures this.heads == heads && this.sectors == sectors && this.cylinders == cylinders
      ensures this.dosCompatible == dosCompatible && this.inCylinders == inCylinders
      ensures this.sectorOffset == sectorOffset && this.totalSectors == totalSectors
    {
      this.disk, this.mbr := disk, mbr;
      ptes := seq(MAXIMUM_PARTS, i => Pte(if i < 4 then i else 0, -1, 0, mbr, false));
      gPartitions, extIndex, extendedOffset := 4, 0, 0;
      this.heads, this.sectors, this.cylinders := heads, sectors, cylinders;
      this.dosCompatible, this.inCylinders := dosCompatible, inCylinders;
      this.sectorOffset, this.totalSectors := sectorOffset, totalSectors;
    }

    /** The logical partitions; the primary ones are the entries of the first sector. */
    function Logical(): seq<Pte>
      requires 4 <= gPartitions <= |ptes|
      reads this
    {
      ptes[4..gPartitions]
    }

    predicate Shaped()
      reads this
    {
      && |ptes| == MAXIMUM_PARTS && 4 <= gPartitions <= MAXIMUM_PARTS && |mbr.parts| == 4 && extIndex < 4
      && AllShaped(Logical())
    }

    /** warn_geometry. */
    predicate KnownGeometry() {
      heads != 0 && sectors != 0 && cylinders != 0
    }

    /**
     * A table that describes its disk: the extended partition leads to a well-formed chain, and what is not
     * marked as changed is on the disk.
     */
    ghost predicate Valid()
      reads this
    {
      && Shaped()
      && (extendedOffset == 0 <==> gPartitions == 4)
      && (extendedOffset != 0 ==>
          && IsExtended(mbr.parts[extIndex].sysInd) && mbr.parts[extIndex].start == extendedOffset
          && Linked(Logical(), extendedOffset) && Filled(Logical())
          && forall j :: 0 <= j < |Logical()| ==> Logical()[j].offset != 0)
      && Synced(Logical(), disk)
      && (forall i :: 0 <= i < 4 ==> ptes[i].offset == 0)
      && ((forall i :: 0 <= i < 4 ==> !ptes[i].changed) ==> 0 in disk && disk[0] == mbr)
    }

    /** The shift at the end of delete_partition. */
    method MoveDown(from: nat)
      requires |ptes| == MAXIMUM_PARTS && 4 <= from <= gPartitions < MAXIMUM_PARTS
      modifies this`ptes
      ensures |ptes| == MAXIMUM_PARTS && ptes[..gPartitions] == old(ptes[..from] + ptes[from + 1..gPartitions + 1])
    {
      var i := from;
      while i < gPartitions
        invariant from <= i <= gPartitions && |ptes| == MAXIMUM_PARTS
        invariant forall k :: 0 <= k < MAXIMUM_PARTS ==> ptes[k] == old(ptes)[if from <= k < i then k + 1 else k]
      {
        ptes := ptes[i := ptes[i + 1]];
        i := i + 1;
      }
    }

    method SetChanged(i: nat)
      requires i < |ptes|
      modifies this`ptes
      ensures ptes == old(ptes)[i := old(ptes)[i].(changed := true)]
    {
      ptes := ptes[i := ptes[i].(changed := true)];
    }

    /**
     * Deleting keeps a table valid, takes out the partition that was asked for and leaves the others where
     * they are.
     */
    method DeleteFromTable(which: nat)
      requires Valid() && which < gPartitions && KnownGeometry()
      modifies this
      ensures Valid() && disk == old(disk)
      ensures which < 4 ==> mbr == old(mbr).(parts := old(mbr.parts)[which := CLEARED])
      ensures which < 4 && (which != extIndex || !IsExtended(old(mbr.parts[which].sysInd))) ==>
        Logical() == old(Logical())
      ensures which >= 4 ==> mbr == old(mbr) && extendedOffset == old(extendedOffset)
      ensures which >= 4 ==>
        var was := Logicals(old(Logical()));
        && (was == [] ==> Logicals(Logical()) == [])
        && (was != [] ==>
            && |was| == old(gPartitions) - 4
            && Logicals(Logical()) == was[..which - 4] + was[which - 3..])
    {
      hide Linked, Filled, Logicals, IsExtended;
      ghost var l, base, j := Logical(), extendedOffset, which - 4;
      DeletePartition(which);
      if which >= 4 {
        DeleteLinked(l, base, j);
        DeleteKeeps(l, base, j);
        DeleteMarks(l, base, j, disk);
        DeletePlaces(l, base, j);
        assert forall i :: 0 <= i < 4 ==> ptes[i] == ptes[..4][i] == old(ptes)[..4][i];
      } else {
        assert ptes[which].changed;
        if gPartitions == old(gPartitions) {
          assert Logical() == l;
        }
      }
    }

    /** delete_partition. */
    method DeletePartition(which: nat)
      requires Shaped() && which < gPartitions
      modifies this
      ensures Shaped() && disk == old(disk) && extIndex == old(extIndex)
      ensures !KnownGeometry() ==>
        && ptes == old(ptes) && mbr == old(mbr)
        && gPartitions == old(gPartitions) && extendedOffset == old(extendedOffset)
      ensures KnownGeometry() && which >= 4 ==>
        && Logical() == DeleteAt(old(Logical()), extendedOffset, which - 4)
        && ptes[..4] == old(ptes[..4]) && mbr == old(mbr) && extendedOffset == old(extendedOffset)
      ensures KnownGeometry() && which < 4 ==>
        && mbr == old(mbr).(parts := old(mbr.parts)[which := CLEARED])
        && ptes[which].changed && ptes[which].offset == old(ptes[which].offset)
        && (forall k :: 0 <= k < MAXIMUM_PARTS && k != which ==> ptes[k] == old(ptes[k]))
        && if IsExtended(old(mbr.parts[which].sysInd)) && which == extIndex then gPartitions == 4 && extendedOffset == 0
           else gPartitions == old(gPartitions) && extendedOffset == old(extendedOffset)
    {
      if !KnownGeometry() {
        return;
      }
      var i := which;
      if i < 4 {
        SetChanged(i);
        if IsExtended(mbr.parts[i].sysInd) && i == extIndex {
          gPartitions := 4;
          ptes := ptes[extIndex := ptes[extIndex].(ext := -1)];
          extendedOffset := 0;
        }
        mbr := mbr.(parts := mbr.parts[i := CLEARED]);
        return;
      }
      DeleteLogical(i);
    }

    /** The rest of delete_partition, for a logical partition. */
    method DeleteLogical(which: nat)
      requires Shaped() && 4 <= which < gPartitions
      modifies this`ptes, this`gPartitions
      ensures Shaped() && ptes[..4] == old(ptes[..4])
      ensures Logical() == DeleteAt(old(Logical()), extendedOffset, which - 4)
    {
      hide Rebased, Wrap, Pte.SetExt, Pte.SetPart;
      ghost var l, j := Logical(), which - 4;
      var q := ptes[which].Ext();
      SetChanged(which);
      assert Logical() == l[j := l[j].(changed := true)];
      if q.sysInd == 0 && which > 4 {
        DropEnd(which);
      } else {
        Relink(which, q);
        TakeOut(which);
      }
    }

    /** The last one in the chain: just delete it. */
    method DropEnd(which: nat)
      requires Shaped() && 4 < which < gPartitions
      modifies this`ptes, this`gPartitions
      ensures Shaped() && ptes[..4] == old(ptes[..4])
      ensures var l, j := old(Logical()), which - 4;
        Logical() == l[j - 1 := l[j - 1].SetExt(CLEARED).(changed := true)][..|l| - 1]
    {
      hide Pte.SetExt;
      ghost var l, j := Logical(), which - 4;
      gPartitions := gPartitions - 1;
      var i := which - 1;
      ghost var was := ptes;
      ptes := ptes[i := ptes[i].SetExt(CLEARED).(changed := true)];
      OneFewer(was, gPartitions, i, ptes[i]);
    }

    lemma OneFewer(p: seq<Pte>, n: nat, i: nat, pe: Pte)
      requires 4 <= i < n < |p|
      ensures p[i := pe][4..n] == p[4..n + 1][i - 4 := pe][..n - 4]
    {}

    /** Not the last one: the link before it, or the table sector behind it, takes its place. */
    method Relink(which: nat, q: Partition)
      requires Shaped() && 4 <= which < gPartitions
      modifies this`ptes
      ensures Shaped() && ptes[..4] == old(ptes[..4])
      ensures var l, j := old(Logical()), which - 4;
        Logical() ==
          if j > 0 then l[j - 1 := l[j - 1].SetExt(q).(changed := true)]
          else if |l| > 1 then l[1 := Rebased(l[1], extendedOffset)]
          else l
    {
      hide Rebased, Pte.SetExt;
      ghost var l, j := Logical(), which - 4;
      if which > 4 {
        ptes := ptes[which - 1 := ptes[which - 1].SetExt(q).(changed := true)];
        assert Logical() == l[j - 1 := l[j - 1].SetExt(q).(changed := true)];
      } else if gPartitions > 5 {
        ptes := ptes[5 := Rebased(ptes[5], extendedOffset)];
        assert Logical() == l[1 := Rebased(l[1], extendedOffset)];
      }
    }

    /** The partitions behind it move down; the only one is cleared. */
    method TakeOut(which: nat)
      requires Shaped() && 4 <= which < gPartitions
      modifies this`ptes, this`gPartitions
      ensures Shaped() && ptes[..4] == old(ptes[..4])
      ensures var l, j := old(Logical()), which - 4;
        Logical() == if |l| > 1 then l[..j] + l[j + 1..] else [l[0].SetPart(CLEARED)]
    {
      hide Pte.SetPart;
      ghost var l, j := Logical(), which - 4;
      if gPartitions > 5 {
        gPartitions := gPartitions - 1;
        MoveDown(which);
        assert Logical() == l[..j] + l[j + 1..];
      } else {
        ptes := ptes[which := ptes[which].SetPart(CLEARED)];
      }
    }

    // Reading.

    /** Which entries of a table sector hold the partition and the link. */
    method Locate(parts: seq<Partition>) returns (part: int, ext: int)
      requires |parts| == 4
      ensures (part, ext) == Located(FindData(parts, 0), FindLink(parts, 0))
    {
      part, ext := -1, -1;
      for i := 0 to 4
        invariant FindData(parts, 0) == if part != -1 then part else FindData(parts, i)
        invariant FindLink(parts, 0) == if ext != -1 then ext else FindLink(parts, i)
      {
        if parts[i].size != 0 {
          if IsExtended(parts[i].sysInd) {
            if ext == -1 {
              ext := i;
            }
          } else if parts[i].sysInd != 0 {
            if part == -1 {
              part := i;
            }
          }
        }
      }
      if part == -1 {
        part := if 0 != ext then 0 else 1;
      }
      if ext == -1 {
        ext := if 0 != part then 0 else 1;
      }
    }

    /** read_extended; false when a sector cannot be read, which ends the program. */
    method ReadExtended(ext: nat) returns (ok: bool)
      requires Shaped() && ext < 4 && gPartitions == 4 && extendedOffset == 0
      requires IsExtended(mbr.parts[ext].sysInd) && ReadEnds(disk, mbr.parts[ext].start, KnownGeometry())
      modifies this
      ensures Shaped() && disk == old(disk) && mbr == old(mbr) && extIndex == ext
      ensures mbr.parts[ext].start == 0 ==> ok && gPartitions == 4 && extendedOffset == 0
      ensures mbr.parts[ext].start != 0 ==> ok == ReadChain(disk, mbr.parts[ext].start).Some?
      ensures mbr.parts[ext].start != 0 && ok ==>
        extendedOffset == mbr.parts[ext].start && Logical() == ReadChain(disk, extendedOffset).value
      ensures forall i :: 0 <= i < 4 && i != ext ==> ptes[i] == old(ptes[i])
      ensures ptes[ext] == old(ptes[ext]).(ext := old(ptes[ext]).part)
    {
      hide Chain, RemoveEmpty, Cut, Leads, AllShaped;
      extIndex := ext;
      ptes := ptes[ext := ptes[ext].(ext := ptes[ext].part)];
      var p := mbr.parts[ext];
      if p.start == 0 {
        return true;
      }
      var cut;
      ok, cut := FollowLinks(p);
      if ok && !cut {
        RemoveEmptyLinks();
      }
    }

    /** Take in the table sector for the next partition, and the link in it. */
    method TakeSector(off: SectorNo) returns (p: Partition)
      requires Shaped() && gPartitions < MAXIMUM_PARTS && off in disk
      modifies this`ptes, this`gPartitions
      ensures Shaped() && ptes[..4] == old(ptes[..4])
      ensures Logical() == old(Logical()) + [Taken(off, disk[off])] && p == Taken(off, disk[off]).Ext()
    {
      hide FindData, FindLink;
      var buf := disk[off];
      var part, ext := Locate(buf.parts);
      var pe := Pte(part, ext, off, buf, false);
      assert pe == Taken(off, disk[off]);
      ptes := ptes[gPartitions := pe];
      p := buf.parts[ext];
      gPartitions := gPartitions + 1;
      assert Logical() == old(Logical()) + [pe];
    }

    /** There is no room for more partitions: what the last link leads to is given up. */
    method CutOff()
      requires Shaped() && gPartitions > 4
      modifies this`ptes
      ensures Shaped() && ptes[..4] == old(ptes[..4]) && Logical() == Cut(old(Logical()))
      ensures var l, r := old(Logical()), Logical();
        && |r| == |l| && r[..|r| - 1] == l[..|l| - 1] && r[|r| - 1].changed && r[|r| - 1].Ext() == CLEARED
        && (l[|l| - 1].part != l[|l| - 1].ext ==> r[|r| - 1].Part() == l[|l| - 1].Part())
    {
      ptes := ptes[gPartitions - 1 := ptes[gPartitions - 1].SetExt(CLEARED).(changed := true)];
      assert Logical() == Cut(old(Logical()));
    }

    /** The first loop of read_extended. */
    method FollowLinks(first: Partition) returns (ok: bool, cut: bool)
      requires Shaped() && gPartitions == 4 && extendedOffset == 0 && first.start != 0 && IsExtended(first.sysInd)
      modifies this`ptes, this`gPartitions, this`extendedOffset
      ensures Shaped() && ptes[..4] == old(ptes[..4])
      ensures ok == Chain(disk, first.start, first.start, MAXIMUM_PARTS - 4).Some?
      ensures ok ==>
        var l := Chain(disk, first.start, first.start, MAXIMUM_PARTS - 4).value;
        extendedOffset == first.start && l != [] && cut == Leads(l) && Logical() == if cut then Cut(l) else l
    {
      hide Taken, Chain, Cut, Reading;
      ghost var base, next := first.start, first.start;
      var p := first;
      ReadingStart(disk, base);
      while IsExtended(p.sysInd)
        invariant Shaped() && ptes[..4] == old(ptes[..4])
        invariant Reading(disk, base, Logical(), next, IsExtended(p.sysInd))
        invariant IsExtended(p.sysInd) ==> next == Wrap(extendedOffset + p.start)
        invariant if gPartitions == 4 then extendedOffset == 0 && p == first
          else extendedOffset == base && p == Logical()[gPartitions - 5].Ext()
        decreases MAXIMUM_PARTS - gPartitions
      {
        if gPartitions >= MAXIMUM_PARTS {
          ReadingEnds(disk, base, Logical(), next, true);
          CutOff();
          return true, true;
        }
        var off := Wrap(extendedOffset + p.start);
        ReadingMore(disk, base, Logical(), next);
        if off !in disk {
          return false, false;
        }
        if extendedOffset == 0 {
          extendedOffset := p.start;
        }
        p := TakeSector(off);
        next := NextOffset(base, Taken(off, disk[off]));
      }
      ReadingEnds(disk, base, Logical(), next, false);
      return true, false;
    }

    /** The second loop of read_extended: empty links are removed, one after the other. */
    method RemoveEmptyLinks()
      requires Shaped() && gPartitions > 4 && (KnownGeometry() || FirstEmpty(Logical(), 0) == -1)
      modifies this
      ensures Shaped() && disk == old(disk) && mbr == old(mbr) && extIndex == old(extIndex)
      ensures ptes[..4] == old(ptes[..4]) && extendedOffset == old(extendedOffset)
      ensures Logical() == RemoveEmpty(old(Logical()), extendedOffset)
    {
      hide DeleteAt;
      var done := false;
      while !done
        invariant Shaped() && gPartitions > 4 && (KnownGeometry() || FirstEmpty(Logical(), 0) == -1)
        invariant disk == old(disk) && mbr == old(mbr) && extIndex == old(extIndex)
        invariant ptes[..4] == old(ptes[..4]) && extendedOffset == old(extendedOffset)
        invariant RemoveEmpty(Logical(), extendedOffset) == RemoveEmpty(old(Logical()), extendedOffset)
        invariant done ==> FirstEmpty(Logical(), 0) == -1
        decreases gPartitions, if Logical()[0].Part().sysInd != 0 then 1 else 0, if done then 0 else 1
      {
        OnlyCleared(Logical(), extendedOffset);
        done := RemoveOne();
      }
    }

    /**
     * One round of that loop, which ends it or starts it again. Without a geometry nothing is deleted, so that the
     * next round finds the same table.
     */
    method RemoveOne() returns (done: bool)
      requires Shaped() && gPartitions > 4
      modifies this
      ensures Shaped() && gPartitions > 4 && disk == old(disk) && mbr == old(mbr) && extIndex == old(extIndex)
      ensures ptes[..4] == old(ptes[..4]) && extendedOffset == old(extendedOffset)
      ensures done <==> old(FirstEmpty(Logical(), 0) == -1)
      ensures done || !KnownGeometry() ==> ptes == old(ptes) && gPartitions == old(gPartitions)
      ensures !done && KnownGeometry() ==>
        Logical() == DeleteAt(old(Logical()), extendedOffset, old(FirstEmpty(Logical(), 0)))
    {
      hide DeleteAt;
      for i := 4 to gPartitions
        invariant FirstEmpty(Logical(), 0) == FirstEmpty(Logical(), i - 4)
        invariant Shaped() && ptes == old(ptes) && gPartitions == old(gPartitions)
        invariant mbr == old(mbr) && disk == old(disk)
        invariant extIndex == old(extIndex) && extendedOffset == old(extendedOffset)
      {
        if ptes[i].Part().size == 0 && (gPartitions > 5 || ptes[4].Part().sysInd != 0) {
          assert ptes[i] == Logical()[i - 4] && ptes[4] == Logical()[0];
          assert FirstEmpty(Logical(), 0) == i - 4;
          DeletePartition(i);
          return false;
        }
      }
      return true;
    }

    // Writing.

    /** The sector of the primary partitions, which all four of them mark as changed. */
    method WritePrimary()
      requires Shaped()
      modifies this`disk, this`ptes, this`mbr
      ensures Shaped() && Logical() == old(Logical()) && mbr.parts == old(mbr.parts)
      ensures forall k :: 0 <= k < 4 ==> ptes[k].offset == old(ptes[k].offset)
      ensures
        if exists k :: 0 <= k < 4 && old(ptes[k].changed)
          then mbr == old(mbr).(flagged := true) && disk == old(disk)[ptes[3].offset := mbr]
          else mbr == old(mbr) && disk == old(disk)
    {
      for i := 0 to 3
        invariant Shaped() && mbr == old(mbr) && disk == old(disk) && gPartitions == old(gPartitions)
        invariant forall k :: 0 <= k < MAXIMUM_PARTS && k != 3 ==> ptes[k] == old(ptes[k])
        invariant ptes[3]
          == old(ptes[3]).(changed := old(ptes[3].changed) || exists k :: 0 <= k < i && old(ptes[k].changed))
      {
        if ptes[i].changed {
          ptes := ptes[3 := ptes[3].(changed := true)];
        }
      }
      if ptes[3].changed {
        mbr := mbr.(flagged := true);
        disk := disk[ptes[3].offset := mbr];
      }
    }

    /** The table sectors of the logical partitions. */
    method WriteLogical()
      requires Shaped() && forall i, j :: 4 <= i < j < gPartitions ==> ptes[i].offset != ptes[j].offset
      requires Synced(Logical(), disk)
      modifies this`disk, this`ptes
      ensures Shaped() && ptes[..4] == old(ptes[..4])
      ensures AllSigned(old(Logical()), Logical()) && Stored(Logical(), disk)
      ensures forall k :: (forall i :: 4 <= i < gPartitions ==> k != ptes[i].offset) && k in old(disk) ==>
        k in disk && disk[k] == old(disk)[k]
    {
      hide Flushing, Synced, Stored, AllSigned, Signed;
      ghost var was, before := ptes, disk;
      FlushingStart();
      for i := 4 to gPartitions
        invariant Shaped() && Flushing(was, ptes, gPartitions, before, disk, i)
      {
        FlushingPart(was, ptes, gPartitions, before, disk, i);
        FlushingNext(was, ptes, gPartitions, before, disk, i);
        FlushSector(i);
      }
      FlushingEnd(was, before);
    }

    lemma FlushingStart()
      requires Shaped() && Synced(Logical(), disk)
      ensures Flushing(ptes, ptes, gPartitions, disk, disk, 4)
    {
      SamePlaces(Logical());
    }

    lemma FlushingEnd(was: seq<Pte>, before: Disk)
      requires Shaped() && Flushing(was, ptes, gPartitions, before, disk, gPartitions)
      ensures ptes[..4] == was[..4] && AllSigned(was[4..gPartitions], Logical()) && Stored(Logical(), disk)
      ensures forall k :: (forall i :: 4 <= i < gPartitions ==> k != ptes[i].offset) && k in before ==>
        k in disk && disk[k] == before[k]
    {
      SamePlaces(Logical());
      assert forall i :: 4 <= i < gPartitions ==> ptes[i].offset == was[i].offset;
    }

    /** The table sectors below the i-th one have been written. */
    ghost predicate Flushing(was: seq<Pte>, now: seq<Pte>, n: nat, before: Disk, after: Disk, i: nat) {
      && 4 <= i <= n <= |was| == |now|
      && (forall k :: 0 <= k < |was| ==> now[k] == if 4 <= k < i then Signed(was[k]) else was[k])
      && (forall k :: 4 <= k < n && (k < i || !was[k].changed) ==> OnDisk(now[k], after))
      && (forall k :: k in before && (forall j :: 4 <= j < n ==> k != was[j].offset) ==>
          k in after && after[k] == before[k])
    }

    predicate OnDisk(pe: Pte, disk: Disk) {
      pe.offset in disk && disk[pe.offset] == pe.buf
    }

    lemma FlushingPart(was: seq<Pte>, now: seq<Pte>, n: nat, before: Disk, after: Disk, i: nat)
      requires Flushing(was, now, n, before, after, i) && i < n && AllShaped(now[4..n])
      ensures now[i].Shaped()
    {
      assert now[i] == now[4..n][i - 4];
    }

    lemma FlushingNext(was: seq<Pte>, now: seq<Pte>, n: nat, before: Disk, after: Disk, i: nat)
      requires Flushing(was, now, n, before, after, i) && i < n && now[i].Shaped()
      requires forall j, k :: 4 <= j < k < n ==> was[j].offset != was[k].offset
      ensures var pe := Signed(now[i]);
        && |pe.buf.parts| == 4
        && Flushing(was, now[i := pe], n, before, if pe.changed then after[pe.offset := pe.buf] else after, i + 1)
    {}

    method FlushSector(i: nat)
      requires Shaped() && 4 <= i < gPartitions
      modifies this`disk, this`ptes
      ensures Shaped() && ptes == old(ptes)[i := Signed(old(ptes[i]))]
      ensures disk == if ptes[i].changed then old(disk)[ptes[i].offset := ptes[i].buf] else old(disk)
    {
      if ptes[i].changed {
        ptes := ptes[i := ptes[i].(buf := ptes[i].buf.(flagged := true))];
        disk := disk[ptes[i].offset := ptes[i].buf];
      }
    }

    /**
     * write_table: the changed sectors get their signature and go to the disk. For a valid table this leaves
     * everything on the disk, so every sector that was modified was marked as changed.
     */
    method WriteTable()
      requires Valid()
      modifies this`disk, this`ptes, this`mbr
      ensures Valid() && Stored(Logical(), disk) && 0 in disk && disk[0] == mbr
      ensures mbr.parts == old(mbr.parts) && Logicals(Logical()) == Logicals(old(Logical()))
      ensures forall j :: 0 <= j < |old(Logical())| ==>
        var pe := old(Logical())[j];
        && pe.offset in disk && (!pe.changed ==> pe.offset in old(disk))
        && disk[pe.offset] == if pe.changed then pe.buf.(flagged := true) else old(disk)[pe.offset]
      ensures disk[0] == old(mbr) || (exists k :: 0 <= k < 4 && old(ptes[k].changed))
      ensures (exists k :: 0 <= k < 4 && old(ptes[k].changed)) ==> disk[0] == old(mbr).(flagged := true)
      ensures forall k :: k in old(disk) && k != 0 && !Occupied(old(Logical()), k) ==>
        k in disk && disk[k] == old(disk)[k]
    {
      hide Linked, Filled, Logicals, Synced, Stored, AllSigned, AllShaped;
      ghost var l, base := Logical(), extendedOffset;
      Apart();
      ghost var before := disk;
      WriteFirst();
      ghost var primary, between := ptes[..4], disk;
      WriteLogical();
      SignedOnDisk(l, Logical(), between, disk);
      SamePlaces(Logical());
      Written(l, base);
      StoredSynced(Logical(), disk);
      assert forall k :: 0 <= k < 4 ==> ptes[k] == ptes[..4][k] == primary[k];
    }

    /** One of the table sectors. */
    ghost predicate Occupied(l: seq<Pte>, k: SectorNo) {
      exists j :: 0 <= j < |l| && l[j].offset == k
    }

    /** The first part of write_table leaves the first sector on the disk, and the others as they were. */
    method WriteFirst()
      requires Valid()
      modifies this`disk, this`ptes, this`mbr
      ensures Shaped() && Logical() == old(Logical()) && mbr.parts == old(mbr.parts) && Synced(Logical(), disk)
      ensures 0 in disk && disk[0] == mbr
      ensures mbr == if exists k :: 0 <= k < 4 && old(ptes[k].changed) then old(mbr).(flagged := true) else old(mbr)
      ensures disk == if exists k :: 0 <= k < 4 && old(ptes[k].changed) then old(disk)[0 := mbr] else old(disk)
      ensures forall k :: 0 <= k < 4 ==> ptes[k].offset == 0
      ensures forall k :: 4 <= k < gPartitions ==> ptes[k] == old(ptes[k])
    {
      hide Linked, Filled, Logicals, Synced;
      ghost var l, before := Logical(), disk;
      Apart();
      WritePrimary();
      SamePlaces(l);
      KeepsSynced(l, before, disk);
    }

    /** No two tables share a sector, and none lies in the first one. */
    lemma {:induction false} Apart()
      requires Valid()
      ensures forall i, j :: 4 <= i < j < gPartitions ==> ptes[i].offset != ptes[j].offset
      ensures forall i :: 4 <= i < gPartitions ==> ptes[i].offset != 0
    {
      hide Filled, Synced;
      assert forall k :: 4 <= k < gPartitions ==> ptes[k] == Logical()[k - 4];
      if gPartitions > 4 {
        LinkedApart(Logical(), extendedOffset);
      }
    }

    lemma SamePlaces(l: seq<Pte>)
      requires Shaped() && Logical() == l
      ensures forall k :: 4 <= k < gPartitions ==> ptes[k] == l[k - 4]
    {}

    lemma {:induction false} Written(l: seq<Pte>, base: SectorNo)
      requires Shaped() && AllShaped(l) && AllSigned(l, Logical()) && (l != [] ==> Linked(l, base))
      ensures Logicals(Logical()) == Logicals(l) && (Filled(l) ==> Filled(Logical()))
      ensures l != [] ==> Linked(Logical(), base)
      ensures forall j :: 0 <= j < |l| ==> Logical()[j].offset == l[j].offset
    {
      hide Linked, Filled, Logicals;
      SignedLogicals(l, Logical());
      if l != [] {
        SignedLinked(l, Logical(), base);
      }
    }

    // Adding.

    function PartOf(i: nat): Partition
      requires Shaped() && i < gPartitions
      reads this
    {
      if i < 4 then mbr.parts[i] else ptes[i].Part()
    }

    /** A sector of partition i. One that reaches beyond 32 bits has none, and neither has an extended one. */
    predicate Holds(i: nat, x: int)
      requires Shaped() && i < gPartitions
      reads this
    {
      var p, s := PartOf(i), if i < 4 then Wrap(ptes[i].offset + PartOf(i).start) else ptes[i].Absolute().start;
      p.sysInd != 0 && !IsExtended(p.sysInd) && s + p.size <= SECTORS && s <= x < s + p.size
    }

    /** A sector of the extended partition. */
    predicate ExtendedHolds(x: int)
      requires Shaped()
      reads this
    {
      var q := mbr.parts[extIndex];
      extendedOffset != 0 && q.start + q.size <= SECTORS && q.start <= x < q.start + q.size
    }

    /** Where partition i lies, as add_partition sees it; the extended partition counts as one. */
    function BoundsOf(i: nat): Bounds
      requires Shaped() && i < gPartitions
      reads this
    {
      var p := PartOf(i);
      if i == extIndex && extendedOffset != 0 then
        Bounds(extendedOffset, Wrap(mbr.parts[extIndex].start + mbr.parts[extIndex].size - 1))
      else if p.sysInd == 0 || IsExtended(p.sysInd) then UNDEFINED
      else
        var first := Wrap(ptes[i].offset + p.start);
        Bounds(first, Wrap(first + p.size - 1))
    }

    /** update_units: how many sectors the numbers in the dialogue stand for. */
    function Unit(): (u: nat)
      ensures u > 0
    {
      if inCylinders && heads * sectors > 0 then heads * sectors else 1
    }

    lemma UnitIs()
      requires KnownGeometry()
      ensures Unit() == if inCylinders then heads * sectors else 1
    {
      assert heads * sectors > 0;
    }

    /** In units of cylinders a partition counts from the start of its first cylinder. */
    function InUnits(b: Bounds): (r: Bounds)
      ensures r.last == b.last && r.first <= b.first && r.first % Unit() == 0
      ensures Unit() == 1 ==> r == b
    {
      UnitBelow(b.first, Unit());
      Bounds(b.first / Unit() * Unit(), b.last)
    }

    /** The last sector of the disk, or of its last cylinder. */
    function Limit(): SectorNo {
      Wrap((if inCylinders || totalSectors == 0 then heads * sectors * cylinders else totalSectors) - 1)
    }

    lemma LimitInside()
      requires KnownGeometry()
      ensures
        var n := if inCylinders || totalSectors == 0 then heads * sectors * cylinders else totalSectors;
        Limit() < n && (n <= SECTORS ==> Limit() == n - 1)
    {
      assert heads * sectors > 0;
      assert heads * sectors * cylinders > 0;
    }

    /** The bounds of all partitions, for adding a primary one. */
    function ThisLayout(): (r: Layout)
      requires Shaped()
      reads this
      ensures |r.bounds| == |r.tables| == gPartitions
      ensures r.gap == sectorOffset && r.limit == Limit() && r.unit == Unit()
      ensures forall i :: 0 <= i < gPartitions ==> r.bounds[i] == InUnits(BoundsOf(i)) && r.tables[i] == ptes[i].offset
    {
      Layout(Places(gPartitions), Tables(gPartitions), sectorOffset, Limit(), Unit())
    }

    function Places(n: nat): (r: seq<Bounds>)
      requires Shaped() && n <= gPartitions
      reads this
      ensures |r| == n && forall i :: 0 <= i < n ==> r[i] == InUnits(BoundsOf(i))
    {
      if n == 0 then [] else Places(n - 1) + [InUnits(BoundsOf(n - 1))]
    }

    function Tables(n: nat): (r: seq<nat>)
      requires Shaped() && n <= gPartitions
      reads this
      ensures |r| == n && forall i :: 0 <= i < n ==> r[i] == ptes[i].offset
    {
      if n == 0 then [] else Tables(n - 1) + [ptes[n - 1].offset]
    }

    /** fill_bounds, and what add_partition does to its result. */
    method FillBounds() returns (lay: Layout)
      requires Shaped()
      ensures lay == ThisLayout()
    {
      hide Wrap, IsExtended;
      var bounds, tables := [], [];
      for i := 0 to gPartitions
        invariant |bounds| == i && forall k :: 0 <= k < i ==>
          bounds[k] == if k == extIndex && extendedOffset != 0 then bounds[k] else BoundsOf(k)
        invariant |tables| == i && forall k :: 0 <= k < i ==> tables[k] == ptes[k].offset
      {
        var p := PartOf(i);
        if p.sysInd == 0 || IsExtended(p.sysInd) {
          bounds := bounds + [UNDEFINED];
        } else {
          var first := Wrap(ptes[i].offset + p.start);
          bounds := bounds + [Bounds(first, Wrap(first + p.size - 1))];
        }
        tables := tables + [ptes[i].offset];
      }
      if extendedOffset != 0 {
        var q := mbr.parts[extIndex];
        bounds := bounds[extIndex := Bounds(extendedOffset, Wrap(q.start + q.size - 1))];
      }
      bounds := RoundBounds(bounds);
      assert bounds == Places(gPartitions) && tables == Tables(gPartitions);
      lay := Layout(bounds, tables, sectorOffset, Limit(), Unit());
    }

    /** In units of cylinders, all bounds are rounded down. */
    method RoundBounds(was: seq<Bounds>) returns (bounds: seq<Bounds>)
      ensures |bounds| == |was| && forall i :: 0 <= i < |was| ==> bounds[i] == InUnits(was[i])
    {
      bounds := was;
      if inCylinders {
        for i := 0 to |was|
          invariant |bounds| == |was|
          invariant forall k :: 0 <= k < |was| ==> bounds[k] == if k < i then InUnits(was[k]) else was[k]
        {
          bounds := bounds[i := Bounds((bounds[i].first / Unit() + 1 - 1) * Unit(), bounds[i].last)];
        }
      }
    }

    /** A partition without a single sector; at sector 0 its last sector would be that of the whole disk. */
    predicate Empty(i: nat)
      requires Shaped() && i < gPartitions
      reads this
    {
      PartOf(i).sysInd != 0 && !IsExtended(PartOf(i).sysInd) && PartOf(i).size == 0
    }

    /** The bounds of a partition hold exactly its sectors, and in their place those of the extended partition. */
    lemma BoundsExactly(i: nat, x: nat)
      requires Shaped() && i < gPartitions && !Empty(i)
      requires extendedOffset != 0 ==> mbr.parts[extIndex].start == extendedOffset
      ensures BoundsOf(i).Contains(x) <==>
        if i == extIndex && extendedOffset != 0 then ExtendedHolds(x) else Holds(i, x)
    {
      hide IsExtended, Wrap;
      if i == extIndex && extendedOffset != 0 {
        LastSector(mbr.parts[extIndex].start, mbr.parts[extIndex].size);
      } else if PartOf(i).sysInd != 0 && !IsExtended(PartOf(i).sysInd) {
        var s := Wrap(ptes[i].offset + PartOf(i).start);
        assert i >= 4 ==> ptes[i] == Logical()[i - 4];
        LastSector(s, PartOf(i).size);
      }
    }

    /** The last sector of a partition, in 32 bits; there is none in front of the first one. */
    lemma LastSector(s: SectorNo, size: SectorNo)
      ensures s + size <= SECTORS && s + size > 0 ==> Wrap(s + size - 1) == s + size - 1
      ensures s + size > SECTORS ==> Wrap(s + size - 1) < s
      ensures s + size == 0 ==> Wrap(s + size - 1) == SECTORS - 1
    {}

    /** The bounds of an entry without a sector hold none, unless it begins at sector 0: then they hold all. */
    lemma EmptyBounds(i: nat, x: SectorNo)
      requires Shaped() && i < gPartitions && Empty(i) && (i != extIndex || extendedOffset == 0)
      ensures BoundsOf(i).Contains(x) <==> Wrap(ptes[i].offset + PartOf(i).start) == 0
    {
      hide IsExtended, Wrap;
      LastSector(Wrap(ptes[i].offset + PartOf(i).start), 0);
    }

    /** For adding a logical partition, the bounds hold the sectors of a partition and a gap behind them. */
    lemma GapBoundsExactly(i: nat, x: nat)
      requires Shaped() && i < gPartitions && PartOf(i).size > 0 && (exists y :: Holds(i, y))
      ensures GapBounds(i).Contains(x) <==> exists y :: Holds(i, y) && y <= x <= y + sectorOffset
    {
      hide IsExtended, Wrap;
      var s := Wrap(ptes[i].offset + PartOf(i).start);
      assert i >= 4 ==> ptes[i] == Logical()[i - 4];
      LastSector(s, PartOf(i).size);
      if GapBounds(i).Contains(x) {
        var y := if x < s + PartOf(i).size then x else s + PartOf(i).size - 1;
        assert Holds(i, y);
      }
    }

    /** The sectors from start to stop belong to no partition, and not to the extended one. */
    ghost predicate SharesNothing(start: nat, stop: nat)
      requires Shaped()
      reads this
    {
      && (forall x :: start <= x <= stop ==> !ExtendedHolds(x))
      && forall i, x :: 0 <= i < gPartitions && start <= x <= stop ==> !Holds(i, x)
    }

    /** They belong to no partition, and are not within the gap behind one. */
    ghost predicate KeepsOff(start: nat, stop: nat)
      requires Shaped()
      reads this
    {
      forall i, y :: 0 <= i < gPartitions && Holds(i, y) ==> !(start <= y <= stop) && !(y < start <= y + sectorOffset)
    }

    /** They all belong to the extended partition. */
    ghost predicate InsideExtended(first: nat, last: nat)
      requires Shaped()
      reads this
    {
      forall x :: first <= x <= last ==> ExtendedHolds(x)
    }

    /** A place that is apart from the rounded bounds is apart from the partitions themselves. */
    lemma ApartFromAll(start: nat, stop: nat)
      requires Shaped() && start <= stop
      requires extendedOffset != 0 ==> mbr.parts[extIndex].start == extendedOffset
      requires extendedOffset != 0 ==> IsExtended(mbr.parts[extIndex].sysInd)
      ensures ThisLayout().Apart(start, stop) ==> SharesNothing(start, stop)
      ensures LogicalLayout().Apart(start, stop) ==> KeepsOff(start, stop)
    {
      hide BoundsOf, GapBounds, InUnits, Unit, Holds, ExtendedHolds, IsExtended;
      var one, two := ThisLayout(), LogicalLayout();
      if one.Apart(start, stop) {
        forall x | start <= x <= stop
          ensures !ExtendedHolds(x)
        {
          NotIn(one, start, stop, x);
        }
        forall i, x | 0 <= i < gPartitions && start <= x <= stop
          ensures !Holds(i, x)
        {
          NotIn(one, start, stop, x);
        }
      }
      if two.Apart(start, stop) {
        forall i, y | 0 <= i < gPartitions && Holds(i, y)
          ensures !(start <= y <= stop) && !(y < start <= y + sectorOffset)
        {
          NotBehind(two, start, stop, i, y);
        }
      }
    }

    lemma NotIn(lay: Layout, start: nat, stop: nat, x: nat)
      requires Shaped() && lay == ThisLayout() && lay.Apart(start, stop) && start <= x <= stop
      requires extendedOffset != 0 ==> mbr.parts[extIndex].start == extendedOffset
      requires extendedOffset != 0 ==> IsExtended(mbr.parts[extIndex].sysInd)
      ensures !ExtendedHolds(x) && forall i :: 0 <= i < gPartitions ==> !Holds(i, x)
    {
      hide BoundsOf, InUnits, Unit;
      forall i | 0 <= i < gPartitions
        ensures !BoundsOf(i).Contains(x)
      {
        assert Allocation.Disjoint(Bounds(start, stop), lay.bounds[i]) && lay.bounds[i] == InUnits(BoundsOf(i));
      }
      forall i | 0 <= i < gPartitions
        ensures !Holds(i, x)
      {
        if !Empty(i) {
          BoundsExactly(i, x);
        }
      }
      if extendedOffset != 0 {
        BoundsExactly(extIndex, x);
      }
    }

    lemma NotBehind(lay: Layout, start: nat, stop: nat, i: nat, y: int)
      requires Shaped() && lay == LogicalLayout() && lay.Apart(start, stop) && start <= stop
      requires i < gPartitions && Holds(i, y)
      ensures !(start <= y <= stop) && !(y < start <= y + sectorOffset)
    {
      hide InUnits, Unit, GapBounds;
      assert Allocation.Disjoint(Bounds(start, stop), lay.bounds[i]) && lay.bounds[i] == InUnits(GapBounds(i));
      if start <= y <= stop || y < start <= y + sectorOffset {
        GapBoundsExactly(i, if start <= y then y else start);
      }
    }

    /** In units of sectors, being apart is nothing but sharing no sector with a partition or a table. */
    lemma ApartExactly(start: nat, stop: nat)
      requires Shaped() && start <= stop && Unit() == 1 && forall i :: 0 <= i < gPartitions ==> !Empty(i)
      requires extendedOffset != 0 ==> mbr.parts[extIndex].start == extendedOffset
      requires extendedOffset != 0 ==> IsExtended(mbr.parts[extIndex].sysInd)
      ensures ThisLayout().Apart(start, stop) <==>
        forall x :: start <= x <= stop ==> Unused(x)
    {
      hide BoundsOf, InUnits, Unit, Holds, ExtendedHolds, IsExtended;
      var lay := ThisLayout();
      if lay.Apart(start, stop) {
        forall x | start <= x <= stop
          ensures Unused(x)
        {
          NotIn(lay, start, stop, x);
        }
      } else {
        if i :| 0 <= i < gPartitions && !Allocation.Disjoint(Bounds(start, stop), lay.bounds[i]) {
          var x := if start <= lay.bounds[i].first then lay.bounds[i].first else start;
          BoundsExactly(i, x);
          assert !Unused(x);
        } else {
          var i :| 0 <= i < gPartitions && start <= lay.tables[i] <= stop;
          assert !Unused(lay.tables[i]);
        }
      }
    }

    /** A sector that belongs to no partition and holds no table. */
    predicate Unused(x: int)
      requires Shaped()
      reads this
    {
      !ExtendedHolds(x) && forall i :: 0 <= i < gPartitions ==> !Holds(i, x) && ptes[i].offset != x
    }

    /** An entry that describes a partition holds exactly its sectors. */
    lemma DescribedHolds(i: nat, start: SectorNo, stop: SectorNo, sysInd: nat)
      requires Shaped() && KnownGeometry() && i < 4 && ptes[i].offset == 0 && 0 < start <= stop
      requires Describes(mbr.parts[i], 0, start, stop, sysInd) && sysInd != 0 && !IsExtended(sysInd)
      ensures forall x :: Holds(i, x) <==> start <= x <= stop
    {
      hide Addresses, IsExtended;
    }

    /** So does one that describes the extended partition. */
    lemma DescribedExtended(start: SectorNo, stop: SectorNo, sysInd: nat)
      requires Shaped() && KnownGeometry() && extendedOffset != 0 && 0 < start <= stop
      requires Describes(mbr.parts[extIndex], 0, start, stop, sysInd)
      ensures forall x :: ExtendedHolds(x) <==> start <= x <= stop
    {
      hide Addresses, IsExtended;
    }

    /** set_partition, for a primary partition. */
    method SetPartition(i: nat, start: SectorNo, stop: SectorNo, sysInd: nat)
      requires Shaped() && KnownGeometry() && i < 4 && start <= stop && ptes[i].offset == 0
      modifies this`mbr, this`ptes
      ensures Shaped() && ptes == old(ptes)[i := old(ptes)[i].(changed := true)]
      ensures mbr == old(mbr).(parts := old(mbr.parts)[i := mbr.parts[i]])
      ensures Describes(mbr.parts[i], 0, start, stop, sysInd)
    {
      hide Describes;
      DescribesExactly(NewPartition(start, stop, 0, sysInd), 0, start, stop, sysInd);
      mbr := mbr.(parts := mbr.parts[i := NewPartition(start, stop, 0, sysInd)]);
      ptes := ptes[i := ptes[i].(changed := true)];
    }

    /** The entry that set_partition makes, with its start relative to an offset. */
    function NewPartition(start: SectorNo, stop: SectorNo, offset: SectorNo, sysInd: nat): Partition
      requires KnownGeometry() && start <= stop
    {
      Partition(0, SetHsc(Clamped(start, heads, sectors, dosCompatible), heads, sectors), sysInd,
        SetHsc(Clamped(stop, heads, sectors, dosCompatible), heads, sectors),
        Wrap(start - offset), Wrap(stop - start + 1))
    }

    /** An entry of which the other parts of the program read that it reaches from start to stop. */
    predicate Describes(p: Partition, offset: SectorNo, start: SectorNo, stop: SectorNo, sysInd: nat)
      requires KnownGeometry()
    {
      && p.bootInd == 0 && p.sysInd == sysInd
      && Wrap(offset + p.start) == start && Wrap(start + p.size - 1) == stop
      && Addresses(p.first, start) && Addresses(p.last, stop)
    }

    /** The address of a sector, or in DOS compatible mode of the last one that has an address. */
    predicate Addresses(a: Chs, sector: SectorNo)
      requires KnownGeometry()
    {
      var s := Clamped(sector, heads, sectors, dosCompatible);
      if sectors <= 63 then
        a.cyl < 256 && ReadChs(a) == (Cylinder(s, heads, sectors) % 1024, s / sectors % heads % 256, s % sectors + 1)
      else a == SetHsc(s, heads, sectors)
    }

    /** Exactly the entry that set_partition makes is read that way. */
    lemma DescribesExactly(p: Partition, offset: SectorNo, start: SectorNo, stop: SectorNo, sysInd: nat)
      requires KnownGeometry() && start <= stop
      ensures Describes(p, offset, start, stop, sysInd) <==> p == NewPartition(start, stop, offset, sysInd)
    {
      hide SetHsc, Clamped, Addresses, Wrap;
      AddressExactly(p.first, start);
      AddressExactly(p.last, stop);
      WrapMoved(offset, p.start, start);
      WrapMoved(start - 1, p.size, stop);
    }

    lemma WrapMoved(a: int, x: SectorNo, y: SectorNo)
      ensures Wrap(a + x) == y <==> x == Wrap(y - a)
    {}

    lemma AddressExactly(a: Chs, sector: SectorNo)
      requires KnownGeometry()
      ensures Addresses(a, sector) <==> a == SetHsc(Clamped(sector, heads, sectors, dosCompatible), heads, sectors)
    {
      var s := Clamped(sector, heads, sectors, dosCompatible);
      hide SetHsc, Clamped;
      if sectors <= 63 {
        SetHscParts(s, heads, sectors);
        Split(a, Cylinder(s, heads, sectors), s % sectors + 1);
      }
    }

    /** Two bits of the sector byte and eight bits of their own are ten bits of a cylinder. */
    lemma Split(a: Chs, c: nat, s: nat)
      requires s < 64
      ensures a.cyl < 256 && a.cyl + 256 * (a.sector / 64) == c % 1024 && a.sector % 64 == s
        <==> a.cyl == c % 256 && a.sector == s + 64 * (c / 256 % 4)
    {
      var q := c / 256 % 4;
      assert c % 1024 == c % 256 + 256 * q;
      if a.sector == s + 64 * q {
        assert a.sector / 64 == q && a.sector % 64 == s;
      }
    }

    /** In DOS compatible mode every address reads back as the sector that it stands for. */
    lemma DosAddress(a: Chs, sector: SectorNo)
      requires KnownGeometry() && sectors <= 63 && dosCompatible && Addresses(a, sector)
      ensures
        var s := Clamped(sector, heads, sectors, true);
        ReadChs(a) == (Cylinder(s, heads, sectors), s / sectors % heads % 256, s % sectors + 1)
    {
      ClampedCylinder(sector, heads, sectors);
    }

    /**
     * add_partition for a primary partition, in units of sectors or of cylinders. Whatever the answers are, the
     * partition ends up within the disk, and apart from all others and their tables unless an answer can go astray.
     */
    method AddPartition(n: nat, sys: nat)
      returns (added: bool, ghost start: nat, ghost stop: nat, ghost answers: seq<nat>, ghost last: nat)
      requires Valid() && KnownGeometry() && n < 4 && 0 < sectorOffset
      requires sys != 0 && (IsExtended(sys) ==> extendedOffset == 0)
      requires ThisLayout().InRange(sectorOffset)
      modifies this
      ensures Valid() && disk == old(disk)
      ensures !added ==> mbr == old(mbr) && ptes == old(ptes) && gPartitions == old(gPartitions)
      ensures added ==> old(mbr.parts[n].sysInd) == 0 && sectorOffset <= start <= stop <= Limit()
      ensures added ==> mbr == old(mbr).(parts := old(mbr.parts)[n := mbr.parts[n]])
      ensures added ==> Describes(mbr.parts[n], 0, start, stop, sys)
      ensures added && !IsExtended(sys) ==> Logical() == old(Logical()) && extendedOffset == old(extendedOffset)
      ensures added && IsExtended(sys) ==> extendedOffset == start && extIndex == n && Logicals(Logical()) == []
      ensures old(mbr.parts[n].sysInd) == 0 ==> old(ThisLayout()).Leads(sectorOffset, answers, start)
      ensures added <==> old(mbr.parts[n].sysInd) == 0 && start <= Limit()
      ensures var lay := old(ThisLayout());
        && (added ==> (lay.Clear(start) <==> lay.Apart(start, stop)))
        && (added && lay.Steady(lay.Free(sectorOffset)) ==> lay.Apart(start, stop))
      ensures added && old(ThisLayout()).Apart(start, stop) ==> old(SharesNothing(start, stop))
      ensures added ==> forall x ::
        (if IsExtended(sys) then ExtendedHolds(x) else Holds(n, x)) <==> start <= x <= stop
      ensures added ==> EndsAt(start, old(ThisLayout()).Narrow(start, Limit(), 0), last, stop)
      ensures
        var n := if inCylinders || totalSectors == 0 then heads * sectors * cylinders else totalSectors;
        Limit() < n && (n <= SECTORS ==> Limit() == n - 1)
    {
      hide Linked, Filled, Synced, Logicals, Layout.Free, Layout.Steady, Layout.Clear, Layout.Apart, Layout.InRange,
        Layout.Leads, ThisLayout, BoundsOf, Addresses, SharesNothing, EndsAt, Layout.Narrow, Limit,
        LogicalLayout, KeepsOff, Holds, ExtendedHolds;
      ApartEverywhere();
      LimitInside();
      added, start, stop, answers, last := false, 0, 0, [], 0;
      if mbr.parts[n].sysInd != 0 {
        return;
      }
      var found, from, to;
      found, from, to, answers, last := ChoosePlace();
      start := from;
      if !found {
        return;
      }
      added, stop := true, to;
      ghost var l := Logical();
      SetPartition(n, from, to, sys);
      if IsExtended(sys) {
        StartChain(n, from);
      } else {
        assert Logical() == l;
      }
      assert ptes[n].changed;
      if IsExtended(sys) {
        DescribedExtended(from, to, sys);
      } else {
        DescribedHolds(n, from, to, sys);
      }
    }

    /** Ask for the start and the end of a primary partition. */
    method ChoosePlace()
      returns (found: bool, start: nat, stop: nat, ghost answers: seq<nat>, ghost last: nat)
      requires Shaped() && 0 < sectorOffset
      ensures found ==> sectorOffset <= start <= stop <= Limit()
      ensures ThisLayout().Leads(sectorOffset, answers, start) && (found <==> start <= Limit())
      ensures var lay := ThisLayout();
        && (found ==> (lay.Clear(start) <==> lay.Apart(start, stop)))
        && (found && lay.Steady(lay.Free(sectorOffset)) ==> lay.Apart(start, stop))
        && (found ==> EndsAt(start, lay.Narrow(start, lay.limit, 0), last, stop))
    {
      hide Layout.Free, Layout.Steady, Layout.Clear, Layout.Apart, Layout.Leads, Layout.Narrow, BoundsOf, EndsAt;
      stop, last := 0, 0;
      var lay := FillBounds();
      start, answers := FindStart(lay, sectorOffset);
      var limit := NarrowLimit(lay, start);
      lay.NarrowAtLeast(start, lay.limit, 0);
      if start > limit {
        return false, start, stop, answers, last;
      }
      stop, last := ReadEnd(start, limit);
      SteadyIsClear(lay, sectorOffset, answers, start);
      lay.ClearIsApart(start, stop);
      return true, start, stop, answers, last;
    }

    /** The end that an answer stands for: the last sector of a sector or a cylinder counted from one, or the limit. */
    predicate EndsAt(start: nat, limit: int, answer: nat, stop: nat) {
      if start / Unit() == limit / Unit() then stop == limit
      else
        && start / Unit() + 1 <= answer <= limit / Unit() + 1
        && stop == if answer * Unit() - 1 <= limit then answer * Unit() - 1 else limit
    }

    /**
     * Ask for the last sector, or the last cylinder, of a partition. Nobody is asked if there is only one to choose;
     * otherwise the end is that of the answer, cut off at the limit.
     */
    method ReadEnd(start: nat, limit: nat) returns (stop: nat, ghost answer: nat)
      requires start <= limit
      ensures start <= stop <= limit
      ensures EndsAt(start, limit, answer, stop)
    {
      hide Unit;
      UnitsOrdered(start, limit, Unit());
      answer := 0;
      if start / Unit() == limit / Unit() {
        return limit, answer;
      }
      var c := ReadInt(start / Unit() + 1, limit / Unit() + 1);
      answer := c;
      UnitEnd(c, start, Unit());
      stop := c * Unit() - 1;
      if stop > limit {
        stop := limit;
      }
    }

    /** What add_partition sets up for the logical partitions to come. */
    method StartChain(n: nat, start: SectorNo)
      requires Shaped() && n < 4 && gPartitions == 4 && start != 0
      modifies this`ptes, this`extIndex, this`extendedOffset, this`gPartitions
      ensures Shaped() && extIndex == n && extendedOffset == start && gPartitions == 5
      ensures Linked(Logical(), start) && Filled(Logical()) && Synced(Logical(), disk) && Logicals(Logical()) == []
      ensures forall j :: 0 <= j < |Logical()| ==> Logical()[j].offset == start
      ensures forall i :: 0 <= i < 4 ==>
        ptes[i].offset == old(ptes[i].offset) && ptes[i].changed == old(ptes[i].changed)
    {
      extIndex := n;
      ptes := ptes[n := ptes[n].(ext := ptes[n].part)];
      extendedOffset := start;
      var pe := Pte(0, 1, start, SectorData(seq(446, _ => 0), [CLEARED, CLEARED, CLEARED, CLEARED], false), true);
      ptes := ptes[4 := pe];
      gPartitions := 5;
      assert Logical() == [pe];
      assert pe.buf.parts[0 := CLEARED] == pe.buf.parts;
      ClearedLogicals(pe);
    }

    lemma {:induction false} SteadyIsClear(lay: Layout, from: nat, answers: seq<nat>, start: nat)
      requires |lay.bounds| == |lay.tables| && lay.gap > 0 && start <= lay.limit && lay.Leads(from, answers, start)
      ensures lay.Steady(lay.Free(from)) ==> lay.Clear(start)
    {
      hide Layout.Free, Layout.Clear, Layout.Steady, Layout.Dialogue;
      if lay.Steady(lay.Free(from)) {
        lay.AlwaysFree(from, answers);
      }
    }

    method NarrowLimit(lay: Layout, start: nat) returns (limit: int)
      requires |lay.bounds| == |lay.tables|
      ensures limit == lay.Narrow(start, lay.limit, 0)
    {
      limit := lay.limit;
      for i := 0 to |lay.bounds|
        invariant lay.Narrow(start, limit, i) == lay.Narrow(start, lay.limit, 0)
      {
        if start < lay.tables[i] && limit >= lay.tables[i] {
          limit := lay.tables[i] - 1;
        }
        if start < lay.bounds[i].first && limit >= lay.bounds[i].first {
          limit := lay.bounds[i].first - 1;
        }
      }
    }

    // Adding a logical partition.

    /** The bounds of partition i for adding a logical one: a gap is kept behind every partition. */
    function GapBounds(i: nat): Bounds
      requires Shaped() && i < gPartitions
      reads this
    {
      var p := PartOf(i);
      if p.sysInd == 0 || IsExtended(p.sysInd) then Bounds(UNDEFINED.first, UNDEFINED.last + sectorOffset)
      else
        var first := Wrap(ptes[i].offset + p.start);
        Bounds(first, Wrap(first + p.size - 1) + sectorOffset)
    }

    /** The last sector of the extended partition. */
    function ExtendedEnd(): SectorNo
      requires Shaped()
      reads this
    {
      Wrap(mbr.parts[extIndex].start + mbr.parts[extIndex].size - 1)
    }

    /** The bounds of all partitions, for adding a logical one. */
    function LogicalLayout(): (r: Layout)
      requires Shaped()
      reads this
      ensures |r.bounds| == |r.tables| == gPartitions
      ensures r.gap == sectorOffset && r.limit == ExtendedEnd() && r.unit == Unit()
      ensures forall i :: 0 <= i < gPartitions ==> r.bounds[i] == InUnits(GapBounds(i)) && r.tables[i] == ptes[i].offset
    {
      Layout(GapPlaces(gPartitions), Tables(gPartitions), sectorOffset, ExtendedEnd(), Unit())
    }

    function GapPlaces(n: nat): (r: seq<Bounds>)
      requires Shaped() && n <= gPartitions
      reads this
      ensures |r| == n && forall i :: 0 <= i < n ==> r[i] == InUnits(GapBounds(i))
    {
      if n == 0 then [] else GapPlaces(n - 1) + [InUnits(GapBounds(n - 1))]
    }

    /** The bounds of an entry that is not in use. */
    function NoBounds(): Bounds {
      InUnits(Bounds(UNDEFINED.first, UNDEFINED.last + sectorOffset))
    }

    method FillGapBounds() returns (lay: Layout)
      requires Shaped()
      ensures lay == LogicalLayout()
    {
      hide Wrap, IsExtended;
      var bounds, tables := [], [];
      for i := 0 to gPartitions
        invariant |bounds| == i && forall k :: 0 <= k < i ==> bounds[k] == GapBounds(k)
        invariant |tables| == i && forall k :: 0 <= k < i ==> tables[k] == ptes[k].offset
      {
        var p := PartOf(i);
        if p.sysInd == 0 || IsExtended(p.sysInd) {
          bounds := bounds + [Bounds(UNDEFINED.first, UNDEFINED.last + sectorOffset)];
        } else {
          var first := Wrap(ptes[i].offset + p.start);
          bounds := bounds + [Bounds(first, Wrap(first + p.size - 1) + sectorOffset)];
        }
        tables := tables + [ptes[i].offset];
      }
      bounds := RoundBounds(bounds);
      assert bounds == GapPlaces(gPartitions) && tables == Tables(gPartitions);
      lay := Layout(bounds, tables, sectorOffset, ExtendedEnd(), Unit());
    }

    /** A table sector for one more logical partition, as add_logical makes it. */
    function BlankPte(offset: SectorNo): (r: Pte)
      ensures r.Shaped() && Plain(r) && r.Part() == r.Ext() == CLEARED && r.offset == offset && r.changed
    {
      Pte(0, 1, offset, SectorData(seq(446, _ => 0), [CLEARED, CLEARED, CLEARED, CLEARED], false), true)
    }

    /**
     * Where a logical partition and the table in front of it go. A table that would lie at the very start of the
     * extended partition is moved one sector further, and with a gap of one sector the partition moves along.
     */
    method ChooseLogicalPlace(lay: Layout, n: nat)
      returns (found: bool, table: nat, start: nat, stop: nat, ghost answers: seq<nat>, ghost asked: nat,
               ghost last: nat)
      requires Shaped() && lay == LogicalLayout() && sectorOffset > 0 && 4 <= n < gPartitions
      requires n > 4 ==> ptes[n].offset == 0
      ensures lay.Leads(extendedOffset + sectorOffset, answers, asked) && asked >= extendedOffset + sectorOffset
      ensures table == if n > 4 then lay.TableFor(extendedOffset, asked) else extendedOffset
      ensures start == if n > 4 then lay.StartFor(extendedOffset, asked) else asked
      ensures found <==> start <= lay.limit
      ensures found ==> extendedOffset <= table < start <= stop <= lay.limit
      ensures found ==> EndsAt(start, lay.Narrow(start, lay.limit, 0), last, stop)
      ensures found ==> (lay.Clear(start) <==> lay.Apart(start, stop))
      ensures found && start == asked && lay.Steady(lay.Free(extendedOffset + sectorOffset)) ==> lay.Apart(start, stop)
    {
      hide Layout.Steady, Layout.Free, Layout.Leads, Layout.Narrow, Layout.Clear, Layout.Apart, GapBounds, ExtendedEnd,
        EndsAt;
      table, stop, found, last := extendedOffset, 0, false, 0;
      var from := extendedOffset + sectorOffset;
      start, answers := FindStart(lay, from);
      asked := start;
      var known := lay;
      if n > 4 {
        table := start - sectorOffset;
        if table == extendedOffset {
          table := table + 1;
          if sectorOffset == 1 {
            start := start + 1;
          }
        }
        known := lay.(tables := lay.tables[n := table]);
      }
      var limit := NarrowLimit(known, start);
      known.NarrowAtLeast(start, known.limit, 0);
      if start > limit {
        return;
      }
      stop, last := ReadEnd(start, limit);
      found := true;
      if asked == start {
        SteadyIsClear(lay, from, answers, start);
      }
      known.ClearIsApart(start, stop);
      SameClear(lay, known, n, table, start, stop);
      if n > 4 {
        NarrowSame(lay, known, n, start, lay.limit, 0);
      }
    }

    lemma {:induction false} NarrowSame(lay: Layout, known: Layout, n: nat, start: nat, max: int, i: nat)
      requires i <= |lay.bounds| == |lay.tables| && n < |lay.tables| && known.bounds == lay.bounds
      requires |known.tables| == |lay.tables| && known.tables[n] <= start && lay.tables[n] <= start
      requires forall j :: 0 <= j < |lay.tables| && j != n ==> known.tables[j] == lay.tables[j]
      ensures known.Narrow(start, max, i) == lay.Narrow(start, max, i)
      decreases |lay.bounds| - i
    {
      if i < |lay.bounds| {
        var m := if start < lay.tables[i] <= max then lay.tables[i] - 1 else max;
        NarrowSame(lay, known, n, start,
          if start < lay.bounds[i].first <= m then lay.bounds[i].first - 1 else m, i + 1);
      }
    }

    /** A table in front of a partition does not matter to it. */
    lemma SameClear(lay: Layout, known: Layout, n: nat, table: nat, start: nat, stop: nat)
      requires |lay.bounds| == |lay.tables| && n < |lay.tables| && table < start <= stop
      requires known == lay || (lay.tables[n] == 0 && known == lay.(tables := lay.tables[n := table]))
      ensures known.Clear(start) <==> lay.Clear(start)
      ensures known.Apart(start, stop) <==> lay.Apart(start, stop)
    {
      assert forall i :: 0 <= i < |lay.tables| && i != n ==> known.tables[i] == lay.tables[i];
    }

    /** add_logical makes room for one more table, unless the only one is not in use. */
    method MakeRoom() returns (n: nat)
      requires Shaped() && 4 < gPartitions < MAXIMUM_PARTS
      modifies this`ptes, this`gPartitions
      ensures Shaped() && n == gPartitions - 1 && ptes[..4] == old(ptes[..4])
      ensures
        if old(gPartitions > 5 || ptes[4].Part().sysInd != 0)
          then n == old(gPartitions) && Logical() == old(Logical()) + [BlankPte(0)]
          else n == 4 && Logical() == old(Logical())
      ensures n > 4 ==> ptes[n].offset == 0
      ensures LogicalLayout() == if n > 4 then old(LogicalLayout()).WithBlank(NoBounds()) else old(LogicalLayout())
    {
      hide GapBounds, InUnits, Unit, BlankPte;
      ghost var lay := LogicalLayout();
      if gPartitions > 5 || ptes[4].Part().sysInd != 0 {
        AddBlank();
        assert LogicalLayout().bounds == lay.WithBlank(NoBounds()).bounds;
        assert LogicalLayout().tables == lay.WithBlank(NoBounds()).tables;
      }
      n := gPartitions - 1;
    }

    method AddBlank()
      requires Shaped() && 4 < gPartitions < MAXIMUM_PARTS
      modifies this`ptes, this`gPartitions
      ensures Shaped() && gPartitions == old(gPartitions) + 1 && ptes[gPartitions - 1] == BlankPte(0)
      ensures forall i :: 0 <= i < old(gPartitions) ==> ptes[i] == old(ptes[i])
      ensures ptes[..4] == old(ptes[..4]) && Logical() == old(Logical()) + [BlankPte(0)]
      ensures forall i :: 0 <= i < old(gPartitions) ==> GapBounds(i) == old(GapBounds(i))
      ensures InUnits(GapBounds(gPartitions - 1)) == NoBounds()
    {
      hide Wrap, IsExtended, InUnits, Unit;
      ghost var l := Logical();
      ptes := ptes[gPartitions := BlankPte(0)];
      gPartitions := gPartitions + 1;
      assert Logical() == l + [BlankPte(0)];
    }

    /** set_partition, for a logical partition. */
    method SetLogical(n: nat, start: SectorNo, stop: SectorNo, sysInd: nat)
      requires Shaped() && KnownGeometry() && 4 <= n < gPartitions && start <= stop
      modifies this`ptes
      ensures Shaped()
      ensures ptes == old(ptes)[n := old(ptes)[n].(changed := true)
        .SetPart(NewPartition(start, stop, old(ptes)[n].offset, sysInd))]
    {
      hide NewPartition, Pte.SetPart;
      var p := NewPartition(start, stop, ptes[n].offset, sysInd);
      ptes := ptes[n := ptes[n].(changed := true).SetPart(p)];
    }

    /** set_partition, for the link to a logical partition. */
    method SetLink(n: nat, start: SectorNo, stop: SectorNo)
      requires Shaped() && KnownGeometry() && 4 <= n < gPartitions && start <= stop
      modifies this`ptes
      ensures Shaped()
      ensures ptes == old(ptes)[n := old(ptes)[n].SetExt(NewPartition(start, stop, extendedOffset, EXTENDED))
        .(changed := true)]
    {
      hide NewPartition, Pte.SetExt;
      var link := NewPartition(start, stop, extendedOffset, EXTENDED);
      ptes := ptes[n := ptes[n].SetExt(link).(changed := true)];
    }

    lemma BlankMoved(table: SectorNo)
      ensures BlankPte(0).(offset := table).(changed := true) == BlankPte(table)
    {}

    lemma ExtendedPtes(p: seq<Pte>, n: nat, link: Partition, pe: Pte)
      requires 4 < n < |p| && AllShaped(p[4..n]) && p[n - 1].Shaped() && pe.Shaped()
      ensures p[n := pe][n - 1 := p[n - 1].SetExt(link).(changed := true)][4..n + 1] == Extended(p[4..n], link, pe)
    {
      hide Pte.SetExt;
    }

    /** Put the new partition at the end of the chain. */
    method Append(n: nat, table: SectorNo, start: SectorNo, stop: SectorNo, ghost l: seq<Pte>)
      requires Shaped() && KnownGeometry() && 4 < n == gPartitions - 1 && table <= start <= stop
      requires AllShaped(l) && l != [] && Logical() == l + [BlankPte(0)]
      modifies this`ptes
      ensures Shaped() && ptes[..4] == old(ptes[..4])
      ensures Logical() == Extended(l, NewPartition(table, stop, extendedOffset, EXTENDED),
        BlankPte(table).SetPart(NewPartition(start, stop, table, LINUX_NATIVE)))
    {
      hide NewPartition, Pte.SetExt, Pte.SetPart, BlankPte, Extended;
      ghost var was := ptes;
      LastOf(was, n, l, BlankPte(0));
      ptes := ptes[n := ptes[n].(offset := table)];
      BlankMoved(table);
      SetLogical(n, start, stop, LINUX_NATIVE);
      SetLink(n - 1, table, stop);
      ExtendedPtes(was, n, NewPartition(table, stop, extendedOffset, EXTENDED),
        BlankPte(table).SetPart(NewPartition(start, stop, table, LINUX_NATIVE)));
    }

    lemma LastOf(p: seq<Pte>, n: nat, l: seq<Pte>, pe: Pte)
      requires 4 < n < |p| && p[4..n + 1] == l + [pe] && AllShaped(l)
      ensures p[4..n] == l && p[n] == pe && p[n - 1].Shaped()
    {
      assert p[n] == p[4..n + 1][n - 4];
      assert p[4..n] == p[4..n + 1][..n - 4];
      assert p[n - 1] == p[4..n][n - 5];
    }

    lemma NewAbsolute(start: SectorNo, stop: SectorNo, table: SectorNo)
      requires KnownGeometry() && 0 < start <= stop
      ensures var p := NewPartition(start, stop, table, LINUX_NATIVE);
        IsData(p) && p.(start := Wrap(table + p.start)) == NewPartition(start, stop, 0, LINUX_NATIVE)
      ensures 0 < table <= start ==> IsLink(NewPartition(table, stop, extendedOffset, EXTENDED))
      ensures Wrap(extendedOffset + NewPartition(start, stop, extendedOffset, EXTENDED).start) == start
    {
      WrapBack(start, table);
      WrapBack(start, extendedOffset);
    }

    lemma {:induction false} FirstUse(l: seq<Pte>, base: SectorNo)
      requires AllShaped(l) && Linked(l, base) && Filled(l)
      ensures l[0].offset == base
      ensures |l| > 1 ==> l[0].Part().sysInd != 0
      ensures |l| == 1 && l[0].Part().sysInd == 0 ==> Logicals(l) == []
    {
      if |l| == 1 {
        ClearedLogicals(l[0]);
        assert l == [l[0]];
      }
    }

    lemma BlankPlain(table: SectorNo, p: Partition)
      ensures var pe := BlankPte(table).SetPart(p);
        && Plain(pe) && pe.Part() == p && pe.Ext().sysInd == 0 && pe.offset == table && pe.changed
        && pe.Absolute() == p.(start := Wrap(table + p.start))
    {
      hide Wrap;
    }

    /** What of a valid table does not concern the chain. */
    ghost predicate PrimaryValid()
      requires Shaped()
      reads this
    {
      && (extendedOffset == 0 <==> gPartitions == 4)
      && (extendedOffset != 0 ==> IsExtended(mbr.parts[extIndex].sysInd) && mbr.parts[extIndex].start == extendedOffset)
      && (forall i :: 0 <= i < 4 ==> ptes[i].offset == 0)
      && ((forall i :: 0 <= i < 4 ==> !ptes[i].changed) ==> 0 in disk && disk[0] == mbr)
    }

    /** Write a logical partition into the table, at the end of the chain or as the first one. */
    method PlaceLogical(n: nat, table: SectorNo, start: SectorNo, stop: SectorNo, ghost l: seq<Pte>)
      requires Shaped() && KnownGeometry() && PrimaryValid() && 4 <= n == gPartitions - 1 && extendedOffset != 0
      requires AllShaped(l) && Linked(l, extendedOffset) && Filled(l) && Synced(l, disk)
      requires l[0].offset == extendedOffset
      requires forall j :: 0 <= j < |l| ==> l[j].offset != 0
      requires if n > 4 then l[0].Part().sysInd != 0 && Logical() == l + [BlankPte(0)]
        else |l| == 1 && Logical() == l && table == extendedOffset && Logicals(l) == []
      requires 0 < table < start <= stop
      modifies this`ptes
      ensures Shaped()
      ensures Logicals(Logical()) == Logicals(l) + [NewPartition(start, stop, 0, LINUX_NATIVE)]
      ensures Valid() <==> Logicals(l) == [] || forall j :: 0 <= j < |l| ==> l[j].offset != table
    {
      hide Linked, Filled, Synced, Logicals, NewPartition, Extended, Wrap, Pte.SetPart, Pte.SetExt, IsExtended;
      hide BlankPte, IsLink, IsData, Plain;
      ghost var primary := ptes[..4];
      if n > 4 {
        ghost var link := NewPartition(table, stop, extendedOffset, EXTENDED);
        ghost var p := NewPartition(start, stop, table, LINUX_NATIVE);
        BlankPlain(table, p);
        NewAbsolute(start, stop, table);
        NewAbsolute(table, stop, extendedOffset);
        Grown(l, extendedOffset, link, BlankPte(table).SetPart(p), disk);
        Append(n, table, start, stop, l);
      } else {
        NewAbsolute(start, stop, table);
        FirstLogical(l, extendedOffset, NewPartition(start, stop, table, LINUX_NATIVE));
        FirstPlaces(l, NewPartition(start, stop, table, LINUX_NATIVE), disk);
        OnlyOf(ptes, l);
        SetLogical(4, start, stop, LINUX_NATIVE);
        assert Logical() == [l[0].(changed := true).SetPart(NewPartition(start, stop, table, LINUX_NATIVE))];
      }
      assert forall i :: 0 <= i < 4 ==> ptes[i] == ptes[..4][i] == primary[i];
      assert PrimaryValid();
    }

    lemma OnlyOf(p: seq<Pte>, l: seq<Pte>)
      requires |p| > 5 && p[4..5] == l
      ensures p[4] == l[0]
    {
      assert p[4] == p[4..5][0];
    }

    lemma FirstPlaces(l: seq<Pte>, p: Partition, disk: Disk)
      requires AllShaped(l) && |l| == 1 && l[0].offset != 0
      ensures var r := [l[0].(changed := true).SetPart(p)];
        Synced(r, disk) && forall j :: 0 <= j < |r| ==> r[j].offset != 0
    {}

    /**
     * add_logical, in units of sectors or of cylinders. The partition lies within the extended one, and nothing else
     * is moved; the table stays valid exactly if the sector in front of the partition is not yet in use for a table.
     * The partition is apart from the others and from all tables exactly if its first sector is, and that one is
     * unless an answer can go astray or the partition has to move along with its table.
     */
    method AddLogical()
      returns (added: bool, ghost table: nat, ghost start: nat, ghost stop: nat, ghost answers: seq<nat>,
               ghost asked: nat)
      requires Valid() && KnownGeometry() && extendedOffset != 0 && gPartitions < MAXIMUM_PARTS
      requires 0 < sectorOffset && !NoBounds().Live() && LogicalLayout().InRange(extendedOffset + sectorOffset)
      modifies this
      ensures Shaped() && disk == old(disk) && mbr == old(mbr) && extendedOffset == old(extendedOffset)
      ensures !added ==> Valid() && Logical() == old(Logical())
      ensures added <==> start <= ExtendedEnd()
      ensures added ==> extendedOffset <= table < start <= stop <= ExtendedEnd()
      ensures added ==> Logicals(Logical()) == Logicals(old(Logical())) + [NewPartition(start, stop, 0, LINUX_NATIVE)]
      ensures old(LogicalLayout()).Leads(extendedOffset + sectorOffset, answers, asked)
      ensures asked >= extendedOffset + sectorOffset
      ensures var lay, first := old(LogicalLayout()), Logicals(old(Logical())) == [];
        && table == (if first then extendedOffset else lay.TableFor(extendedOffset, asked))
        && start == (if first then asked else lay.StartFor(extendedOffset, asked))
        && (added ==> (Valid() <==> first || !lay.TableTaken(extendedOffset, asked)))
        && (!first && added ==>
            table == if asked == extendedOffset + sectorOffset then extendedOffset + 1 else asked - sectorOffset)
        && (!first && added ==>
            start == if sectorOffset == 1 && asked == extendedOffset + 1 then asked + 1 else asked)
        && (added && start != asked ==> sectorOffset == 1 && asked == extendedOffset + 1 == lay.Free(asked))
      ensures var lay := old(LogicalLayout());
        && (added ==> (lay.Clear(start) <==> lay.Apart(start, stop)))
        && (added && start == asked && lay.Steady(lay.Free(extendedOffset + sectorOffset)) ==> lay.Apart(start, stop))
      ensures added && old(LogicalLayout()).Apart(start, stop) ==> old(KeepsOff(start, stop))
      ensures added ==> old(InsideExtended(table, stop))
    {
      hide Linked, Filled, Synced, Logicals, NewPartition, GapBounds, Wrap, BlankPte, LogicalLayout, KeepsOff,
        SharesNothing, InsideExtended, ThisLayout, Layout.Steady,
        Layout.Free, Layout.Clear, Layout.Apart, Layout.InRange, Layout.Leads, Layout.TableTaken, Layout.TableFor,
        Layout.StartFor;
      added, stop := false, 0;
      ghost var l, lay, primary := Logical(), LogicalLayout(), ptes[..4];
      InExtended();
      ApartEverywhere();
      FirstUse(l, extendedOffset);
      if gPartitions > 5 || ptes[4].Part().sysInd != 0 {
        LogicalsSome(l);
      }
      var found, n, at, from, to;
      found, n, at, from, to, answers, asked := OfferPlace();
      lay.MovedAlong(extendedOffset, answers, asked);
      PlacedAt(lay, asked);
      table, start := at, from;
      assert forall i :: 0 <= i < 4 ==> ptes[i] == ptes[..4][i] == primary[i];
      if found {
        added, stop := true, to;
        PlaceLogical(n, at, from, to, l);
        TakenTables(l, lay, asked, at);
      }
    }

    lemma InExtended()
      requires Shaped() && extendedOffset != 0 && mbr.parts[extIndex].start == extendedOffset
      ensures forall first: nat, last: nat :: extendedOffset <= first && last <= ExtendedEnd() ==>
        InsideExtended(first, last)
    {
      hide Wrap;
      LastSector(mbr.parts[extIndex].start, mbr.parts[extIndex].size);
    }

    lemma ApartEverywhere()
      requires Valid()
      ensures forall start: nat, stop: nat :: start <= stop && LogicalLayout().Apart(start, stop) ==>
        KeepsOff(start, stop)
      ensures forall start: nat, stop: nat :: start <= stop && ThisLayout().Apart(start, stop) ==>
        SharesNothing(start, stop)
    {
      hide Linked, Filled, Synced, Layout.Apart, LogicalLayout, ThisLayout, KeepsOff, SharesNothing;
      forall start: nat, stop: nat | start <= stop
        ensures LogicalLayout().Apart(start, stop) ==> KeepsOff(start, stop)
        ensures ThisLayout().Apart(start, stop) ==> SharesNothing(start, stop)
      {
        ApartFromAll(start, stop);
      }
    }

    lemma PlacedAt(lay: Layout, asked: nat)
      requires lay.gap == sectorOffset && asked >= extendedOffset + sectorOffset
      ensures lay.TableFor(extendedOffset, asked)
        == if asked == extendedOffset + sectorOffset then extendedOffset + 1 else asked - sectorOffset
      ensures lay.StartFor(extendedOffset, asked)
        == if sectorOffset == 1 && asked == extendedOffset + 1 then asked + 1 else asked
    {}

    /** The tables of the layout are the sectors of the chain. */
    lemma TakenTables(l: seq<Pte>, lay: Layout, asked: nat, table: nat)
      requires |lay.bounds| == |lay.tables| == |l| + 4 && forall j :: 0 <= j < |l| ==> lay.tables[j + 4] == l[j].offset
      requires asked >= lay.gap
      ensures table == lay.TableFor(extendedOffset, asked) ==>
        (lay.TableTaken(extendedOffset, asked) <==> !forall j :: 0 <= j < |l| ==> l[j].offset != table)
    {
      hide Layout.TableFor;
      if lay.TableTaken(extendedOffset, asked) {
        var j :| 4 <= j < |lay.tables| && lay.tables[j] == lay.TableFor(extendedOffset, asked);
        assert l[j - 4].offset == lay.tables[j - 4 + 4];
      }
    }

    /** Room for one more table, and a place for the partition; without a place, the room is given up. */
    method OfferPlace()
      returns (found: bool, n: nat, table: nat, start: nat, stop: nat, ghost answers: seq<nat>, ghost asked: nat)
      requires Shaped() && 4 < gPartitions < MAXIMUM_PARTS && 0 < sectorOffset && !NoBounds().Live()
      modifies this`ptes, this`gPartitions
      ensures Shaped() && ptes[..4] == old(ptes[..4])
      ensures !found ==> Logical() == old(Logical())
      ensures found <==> start <= ExtendedEnd()
      ensures found ==> 4 <= n == gPartitions - 1 && extendedOffset <= table < start <= stop <= ExtendedEnd()
      ensures n > 4 <==> old(gPartitions > 5 || ptes[4].Part().sysInd != 0)
      ensures found ==> Logical() == if n > 4 then old(Logical()) + [BlankPte(0)] else old(Logical())
      ensures old(LogicalLayout()).Leads(extendedOffset + sectorOffset, answers, asked)
      ensures asked >= extendedOffset + sectorOffset
      ensures var lay := old(LogicalLayout());
        && table == (if n > 4 then lay.TableFor(extendedOffset, asked) else extendedOffset)
        && start == (if n > 4 then lay.StartFor(extendedOffset, asked) else asked)
        && (found ==> (lay.Clear(start) <==> lay.Apart(start, stop)))
        && (found && start == asked && lay.Steady(lay.Free(extendedOffset + sectorOffset)) ==> lay.Apart(start, stop))
    {
      hide GapBounds, Wrap, BlankPte, Extended, Layout.Steady, Layout.Free, Layout.Clear, Layout.Apart, Layout.Leads,
        Layout.Narrow, Layout.TableFor, Layout.StartFor, EndsAt, Unit, InUnits;
      ghost var l, was := Logical(), LogicalLayout();
      n := MakeRoom();
      var lay := FillGapBounds();
      ghost var last;
      found, table, start, stop, answers, asked, last := ChooseLogicalPlace(lay, n);
      was.BlankChanges(NoBounds(), extendedOffset + sectorOffset, answers, asked, start, stop);
      was.BlankPlaces(NoBounds(), extendedOffset, asked);
      if !found && n > 4 {
        LastOf(ptes, n, l, BlankPte(0));
        gPartitions := gPartitions - 1;
      }
    }

    // The order of the partitions.

    function StartOf(i: nat): SectorNo
      requires Shaped() && i < gPartitions
      reads this
    {
      Wrap(ptes[i].offset + PartOf(i).start)
    }

    /** It is the sector at which the partition begins, for a primary and for a logical one. */
    lemma StartIs(i: nat)
      requires Valid() && i < gPartitions
      ensures StartOf(i) == if i < 4 then mbr.parts[i].start else ptes[i].Absolute().start
    {
      hide Linked, Synced, Filled;
      assert i >= 4 ==> ptes[i] == Logical()[i - 4];
    }

    /** The partitions defined in a range of entries are in the order of the disk. */
    predicate Ordered(lo: nat, hi: nat)
      requires Shaped() && hi <= gPartitions
      reads this
    {
      forall a, b :: lo <= a < b < hi && PartOf(a).sysInd != 0 && PartOf(b).sysInd != 0 ==> StartOf(a) <= StartOf(b)
    }

    /** wrong_p_order: 0, or a partition that should have been earlier. */
    method WrongPOrder() returns (wrong: nat, prev: nat)
      requires Shaped()
      ensures wrong == 0 <==> Ordered(0, 4) && Ordered(4, gPartitions)
      ensures wrong != 0 ==> prev < wrong < gPartitions && PartOf(wrong).sysInd != 0 && StartOf(wrong) < StartOf(prev)
    {
      hide Wrap, IsExtended;
      var lastStart: SectorNo := 0;
      prev := 0;
      for i := 0 to gPartitions
        invariant i <= 4 ==> Ordered(0, i)
        invariant i > 4 ==> Ordered(0, 4) && Ordered(4, i)
        invariant forall k :: (if i <= 4 then 0 else 4) <= k < i && PartOf(k).sysInd != 0 ==> StartOf(k) <= lastStart
        invariant lastStart == 0 ||
          ((if i <= 4 then 0 else 4) <= prev < i && PartOf(prev).sysInd != 0 && StartOf(prev) == lastStart)
      {
        if i == 4 {
          prev := 4;
          lastStart := 0;
        }
        if PartOf(i).sysInd != 0 {
          var start := StartOf(i);
          if lastStart > start {
            assert StartOf(i) < StartOf(prev) && PartOf(i).sysInd != 0 && PartOf(prev).sysInd != 0;
            return i, prev;
          }
          lastStart := start;
          prev := i;
        }
      }
      return 0, prev;
    }

    /** With the primary partitions in order, a primary partition that is added never overlaps another one. */
    lemma {:induction false} OrderedApart(low: nat)
      requires Valid() && Ordered(0, 4) && ThisLayout().Nested() && low > 0 && !InUnits(UNDEFINED).Live()
      ensures ThisLayout().Steady(low)
    {
      hide Linked, Filled, Synced, AllShaped, Wrap, Layout.Steady, Layout.Nested, Unit, BoundsOf, StartOf;
      var lay := ThisLayout();
      forall k, i | 0 <= k < i < 4 && lay.bounds[k].Live() && lay.bounds[i].Live()
        ensures lay.bounds[k].first <= lay.bounds[i].first
      {
        LiveInUnits(k);
        LiveInUnits(i);
        UnitStarts(BoundsOf(k).first, BoundsOf(i).first, Unit());
      }
      lay.OrderedSteady(low);
    }

    /** A partition that is in use, in spite of the rounding. */
    lemma LiveInUnits(i: nat)
      requires Valid() && i < 4 && InUnits(BoundsOf(i)).Live() && !InUnits(UNDEFINED).Live()
      ensures PartOf(i).sysInd != 0 && BoundsOf(i).first == StartOf(i)
    {
      hide Linked, Filled, Synced, AllShaped, Wrap, InUnits, Unit;
    }
  }

  /**
   * Deleting a logical partition, writing the table and looking at the disk again: what is found are exactly
   * the other logical partitions, where they were before.
   */
  method DeleteAndReopen(ed: Editor, which: nat) returns (again: Editor)
    requires ed.Valid() && ed.KnownGeometry() && 4 <= which < ed.gPartitions
    modifies ed
    ensures ed.disk == again.disk && again.Shaped()
    ensures
      var was := Logicals(old(ed.Logical()));
      && (was == [] ==> Logicals(again.Logical()) == [])
      && (was != [] ==>
          && |was| == old(ed.gPartitions) - 4
          && Logicals(again.Logical()) == was[..which - 4] + was[which - 3..])
  {
    hide Linked, Filled, Synced, Stored, Logicals, ReadChain;
    ed.DeleteFromTable(which);
    ghost var left := Logicals(ed.Logical());
    ed.WriteTable();
    ReadChainBack(ed.disk, ed.extendedOffset, ed.Logical());
    again := new Editor(ed.disk, ed.disk[0], ed.heads, ed.sectors, ed.cylinders, ed.dosCompatible, ed.inCylinders,
      ed.sectorOffset, ed.totalSectors);
    var ok := again.ReadExtended(ed.extIndex);
    assert ok && Logicals(again.Logical()) == left;
  }
}

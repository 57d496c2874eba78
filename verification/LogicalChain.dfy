/** The chain of logical partitions inside an extended partition, on the disk and in memory. */
module LogicalChain {
  import opened DosTable
  import opened Wrappers

  const MAXIMUM_PARTS: nat := 60

  /** A table sector in memory, the entries in use in it, and whether it has to be written. */
  datatype Pte = Pte(part: int, ext: int, offset: SectorNo, buf: SectorData, changed: bool) {
    predicate Shaped() {
      |buf.parts| == 4 && 0 <= part < 4 && 0 <= ext < 4
    }

    function Part(): Partition
      requires Shaped()
    {
      buf.parts[part]
    }

    function Ext(): Partition
      requires Shaped()
    {
      buf.parts[ext]
    }

    function SetPart(p: Partition): (r: Pte)
      requires Shaped()
      ensures r.Shaped() && r.Part() == p && (ext != part ==> r.Ext() == Ext())
    {
      this.(buf := buf.(parts := buf.parts[part := p]))
    }

    function SetExt(p: Partition): (r: Pte)
      requires Shaped()
      ensures r.Shaped() && r.Ext() == p && (ext != part ==> r.Part() == Part())
    {
      this.(buf := buf.(parts := buf.parts[ext := p]))
    }

    /** The partition, with the sector of the disk at which it starts. */
    function Absolute(): Partition
      requires Shaped()
    {
      Part().(start := Wrap(offset + Part().start))
    }
  }

  predicate AllShaped(l: seq<Pte>) {
    forall j :: 0 <= j < |l| ==> l[j].Shaped()
  }

  // Which entries of a sector read_extended takes.

  predicate IsData(p: Partition) {
    p.size != 0 && !IsExtended(p.sysInd) && p.sysInd != 0
  }

  predicate IsLink(p: Partition) {
    p.size != 0 && IsExtended(p.sysInd)
  }

  /** The first of the remaining entries with a partition in it, or -1. */
  function FindData(parts: seq<Partition>, i: nat): (r: int)
    ensures r == -1 || i <= r < |parts|
    decreases |parts| - i
  {
    if i >= |parts| then -1 else if IsData(parts[i]) then i else FindData(parts, i + 1)
  }

  function FindLink(parts: seq<Partition>, i: nat): (r: int)
    ensures r == -1 || i <= r < |parts|
    decreases |parts| - i
  {
    if i >= |parts| then -1 else if IsLink(parts[i]) then i else FindLink(parts, i + 1)
  }

  /** What is missing is looked for in the first entry that is not taken. */
  function Located(data: int, link: int): (int, int) {
    var part := if data != -1 then data else if link != 0 then 0 else 1;
    (part, if link != -1 then link else if part != 0 then 0 else 1)
  }

  /** A table sector as read_extended takes it in. */
  function Taken(offset: SectorNo, buf: SectorData): (r: Pte)
    requires |buf.parts| == 4
    ensures r.Shaped()
  {
    var e := Located(FindData(buf.parts, 0), FindLink(buf.parts, 0));
    Pte(e.0, e.1, offset, buf, false)
  }

  /**
   * The entry for the partition is the first one with a partition, and without any the first one that is not the link;
   * the entry for the link likewise.
   */
  lemma {:induction false} TakenExactly(offset: SectorNo, buf: SectorData)
    requires |buf.parts| == 4
    ensures
      var pe := Taken(offset, buf);
      && pe.offset == offset && pe.buf == buf && !pe.changed && pe.part != pe.ext
      && (if exists i :: 0 <= i < 4 && IsData(buf.parts[i])
          then IsData(pe.Part()) && forall i :: 0 <= i < pe.part ==> !IsData(buf.parts[i])
          else pe.part == if pe.ext == 0 then 1 else 0)
      && (if exists i :: 0 <= i < 4 && IsLink(buf.parts[i])
          then IsLink(pe.Ext()) && forall i :: 0 <= i < pe.ext ==> !IsLink(buf.parts[i])
          else pe.ext == if pe.part == 0 then 1 else 0)
  {
    hide IsData, IsLink;
    FindDataFirst(buf.parts, 0);
    FindLinkFirst(buf.parts, 0);
    DataIsNoLink(buf.parts);
  }

  lemma {:induction false} FindDataFirst(parts: seq<Partition>, i: nat)
    requires i <= |parts|
    ensures var r := FindData(parts, i);
      if r == -1 then forall k :: i <= k < |parts| ==> !IsData(parts[k])
      else IsData(parts[r]) && forall k :: i <= k < r ==> !IsData(parts[k])
    decreases |parts| - i
  {
    if i < |parts| {
      FindDataFirst(parts, i + 1);
    }
  }

  lemma {:induction false} FindLinkFirst(parts: seq<Partition>, i: nat)
    requires i <= |parts|
    ensures var r := FindLink(parts, i);
      if r == -1 then forall k :: i <= k < |parts| ==> !IsLink(parts[k])
      else IsLink(parts[r]) && forall k :: i <= k < r ==> !IsLink(parts[k])
    decreases |parts| - i
  {
    if i < |parts| {
      FindLinkFirst(parts, i + 1);
    }
  }

  lemma DataIsNoLink(parts: seq<Partition>)
    ensures forall i :: 0 <= i < |parts| ==> !(IsData(parts[i]) && IsLink(parts[i]))
  {}

  type Disk = d: map<SectorNo, SectorData> | forall k :: k in d ==> |d[k].parts| == 4 witness map[]

  /** The next table sector that a table sector points to. */
  function NextOffset(base: SectorNo, pe: Pte): SectorNo
    requires pe.Shaped()
  {
    Wrap(base + pe.Ext().start)
  }

  /** The chain from a table sector on, but not more than n of them; None when a sector cannot be read. */
  function Chain(disk: Disk, base: SectorNo, offset: SectorNo, n: nat): (r: Option<seq<Pte>>)
    ensures r.Some? ==> AllShaped(r.value) && |r.value| <= n && (n > 0 ==> r.value != [])
    decreases n
  {
    if n == 0 then Some([])
    else if offset !in disk then None
    else
      var pe := Taken(offset, disk[offset]);
      if !IsExtended(pe.Ext().sysInd) then Some([pe])
      else
        match Chain(disk, base, NextOffset(base, pe), n - 1)
        case None => None
        case Some(rest) => Some([pe] + rest)
  }

  /** Table sectors as they are on the disk, each of which leads to the next. */
  ghost predicate Follows(disk: Disk, base: SectorNo, offset: SectorNo, l: seq<Pte>)
  {
    && (forall j :: 0 <= j < |l| ==> l[j].offset in disk && l[j] == Taken(l[j].offset, disk[l[j].offset]))
    && (l != [] ==> l[0].offset == offset)
    && forall j :: 0 <= j < |l| - 1 ==> Continues(base, l[j], l[j + 1].offset)
  }

  /** A table sector with a link to some place. */
  ghost predicate Continues(base: SectorNo, pe: Pte, next: SectorNo) {
    pe.Shaped() && IsExtended(pe.Ext().sysInd) && next == Wrap(base + pe.Ext().start)
  }

  /** Where the chain goes on behind some table sectors. */
  ghost predicate GoesOn(base: SectorNo, offset: SectorNo, l: seq<Pte>, next: SectorNo) {
    if l == [] then next == offset else Continues(base, l[|l| - 1], next)
  }

  /** A chain that is read ends with a table sector without a link, or when there is no room for more. */
  lemma {:induction false} ChainFollows(disk: Disk, base: SectorNo, offset: SectorNo, n: nat)
    requires Chain(disk, base, offset, n).Some?
    ensures var l := Chain(disk, base, offset, n).value;
      && Follows(disk, base, offset, l) && |l| <= n
      && (|l| < n ==> l != [] && l[|l| - 1].Shaped() && !IsExtended(l[|l| - 1].Ext().sysInd))
    decreases n
  {
    hide Taken, Follows;
    if n == 0 {
      NothingFollows(disk, base, offset);
    } else {
      var pe := Taken(offset, disk[offset]);
      NothingFollows(disk, base, NextOffset(base, pe));
      if IsExtended(pe.Ext().sysInd) {
        var next := NextOffset(base, pe);
        ChainFollows(disk, base, next, n - 1);
        Prepended(disk, base, offset, Chain(disk, base, next, n - 1).value);
      } else {
        OneFollows(disk, base, offset);
      }
    }
  }

  /** A chain cannot be read if and only if it leads, in time, to a sector that cannot be read. */
  lemma {:induction false} ChainFails(disk: Disk, base: SectorNo, offset: SectorNo, n: nat)
    ensures Chain(disk, base, offset, n).None? <==> exists l, next ::
      Follows(disk, base, offset, l) && |l| < n && GoesOn(base, offset, l, next) && next !in disk
    decreases n
  {
    hide Taken, Follows, GoesOn;
    NothingFollows(disk, base, offset);
    if n > 0 && offset in disk {
      var pe := Taken(offset, disk[offset]);
      if IsExtended(pe.Ext().sysInd) && Chain(disk, base, NextOffset(base, pe), n - 1).None? {
        var next := NextOffset(base, pe);
        ChainFails(disk, base, next, n - 1);
        var l, end :| Follows(disk, base, next, l) && |l| < n - 1 && GoesOn(base, next, l, end) && end !in disk;
        Prepended(disk, base, offset, l);
        assert Follows(disk, base, offset, [pe] + l) && GoesOn(base, offset, [pe] + l, end);
      } else {
        forall l, end | Follows(disk, base, offset, l) && |l| < n && GoesOn(base, offset, l, end)
          ensures end in disk
        {
          RestFollows(disk, base, offset, l, end);
          if l != [] {
            ChainFails(disk, base, NextOffset(base, pe), n - 1);
          }
        }
      }
    } else if n > 0 {
      assert Follows(disk, base, offset, []) && GoesOn(base, offset, [], offset);
    }
  }

  lemma NothingFollows(disk: Disk, base: SectorNo, offset: SectorNo)
    ensures Follows(disk, base, offset, []) && forall next :: GoesOn(base, offset, [], next) <==> next == offset
  {}

  lemma OneFollows(disk: Disk, base: SectorNo, offset: SectorNo)
    requires offset in disk
    ensures Follows(disk, base, offset, [Taken(offset, disk[offset])])
  {}

  lemma Prepended(disk: Disk, base: SectorNo, offset: SectorNo, l: seq<Pte>)
    requires offset in disk && IsExtended(Taken(offset, disk[offset]).Ext().sysInd)
    requires Follows(disk, base, NextOffset(base, Taken(offset, disk[offset])), l)
    ensures Follows(disk, base, offset, [Taken(offset, disk[offset])] + l)
    ensures forall next :: GoesOn(base, NextOffset(base, Taken(offset, disk[offset])), l, next) ==>
      GoesOn(base, offset, [Taken(offset, disk[offset])] + l, next)
  {
    var pe := Taken(offset, disk[offset]);
    hide Taken;
    var m := [pe] + l;
    forall j | 0 <= j < |m| - 1
      ensures Continues(base, m[j], m[j + 1].offset)
    {
      if j > 0 {
        assert Continues(base, l[j - 1], l[j - 1 + 1].offset);
      }
    }
    assert l != [] ==> m[|m| - 1] == l[|l| - 1];
  }

  lemma {:induction false} RestFollows(disk: Disk, base: SectorNo, offset: SectorNo, l: seq<Pte>, end: SectorNo)
    requires Follows(disk, base, offset, l) && GoesOn(base, offset, l, end) && offset in disk
    ensures var pe := Taken(offset, disk[offset]);
      if l == [] then end == offset
      else
        && l[0] == pe && IsExtended(pe.Ext().sysInd)
        && Follows(disk, base, NextOffset(base, pe), l[1..]) && GoesOn(base, NextOffset(base, pe), l[1..], end)
  {
    hide Taken;
    if |l| > 1 {
      var m := l[1..];
      assert Continues(base, l[0], l[0 + 1].offset);
      forall j | 0 <= j < |m| - 1
        ensures Continues(base, m[j], m[j + 1].offset)
      {
        assert Continues(base, l[j + 1], l[j + 1 + 1].offset);
      }
    }
  }

  // Deleting.

  /** What delete_partition does to the logical partitions. */
  function DeleteAt(l: seq<Pte>, base: SectorNo, j: nat): (r: seq<Pte>)
    requires AllShaped(l) && j < |l|
    ensures AllShaped(r)
    ensures |r| == if |l| > 1 then |l| - 1 else 1
  {
    var l1 := l[j := l[j].(changed := true)];
    if l[j].Ext().sysInd == 0 && j > 0 then
      l1[j - 1 := l1[j - 1].SetExt(CLEARED).(changed := true)][..|l| - 1]
    else if |l| == 1 then
      [l1[0].SetPart(CLEARED)]
    else
      var l2 :=
        if j > 0 then l1[j - 1 := l1[j - 1].SetExt(l[j].Ext()).(changed := true)] else l1[1 := Rebased(l[1], base)];
      l2[..j] + l2[j + 1..]
  }

  /** The second table sector, when it moves to where the first one was. */
  function Rebased(pe: Pte, base: SectorNo): (r: Pte)
    requires pe.Shaped()
    ensures r.Shaped()
  {
    pe.SetPart(pe.Part().(start := Wrap(pe.Absolute().start - base))).(offset := base, changed := true)
  }

  lemma RebasedAbsolute(pe: Pte, base: SectorNo)
    requires pe.Shaped()
    ensures Rebased(pe, base).Absolute() == pe.Absolute()
  {
    WrapBack(pe.offset + pe.Part().start, base);
    assert Wrap(pe.Absolute().start - base) == Wrap(pe.offset + pe.Part().start - base);
  }

  // Well-formed chains.

  /** A table sector as fdisk itself makes it: two entries in use, the others empty. */
  predicate Plain(pe: Pte) {
    && pe.Shaped() && pe.part + pe.ext == 1
    && pe.buf.parts[2].size == 0 && pe.buf.parts[3].size == 0
  }

  /** A chain in which every table sector leads to the next one and the last one leads nowhere. */
  ghost predicate Linked(l: seq<Pte>, base: SectorNo) {
    && l != [] && l[0].offset == base
    && (forall j :: 0 <= j < |l| ==> Plain(l[j]))
    && (forall j :: 0 <= j < |l| - 1 ==> IsLink(l[j].Ext()) && l[j + 1].offset == NextOffset(base, l[j]))
    && l[|l| - 1].Ext().sysInd == 0
    && (forall i, j :: 0 <= i < j < |l| ==> l[i].offset != l[j].offset)
  }

  /** Every table sector holds a partition, unless there is only one and it holds none. */
  predicate Filled(l: seq<Pte>)
    requires AllShaped(l)
  {
    || (forall j :: 0 <= j < |l| ==> IsData(l[j].Part()))
    || (|l| == 1 && l[0].Part().sysInd == 0)
  }

  /** The partitions in a chain, where they lie on the disk. */
  function Logicals(l: seq<Pte>): (r: seq<Partition>)
    requires AllShaped(l)
  {
    if l == [] then []
    else if l[0].Part().sysInd == 0 then Logicals(l[1..])
    else [l[0].Absolute()] + Logicals(l[1..])
  }

  lemma {:induction false} LogicalsAll(l: seq<Pte>)
    requires AllShaped(l) && forall j :: 0 <= j < |l| ==> l[j].Part().sysInd != 0
    ensures |Logicals(l)| == |l| && forall j :: 0 <= j < |l| ==> Logicals(l)[j] == l[j].Absolute()
  {
    if l != [] {
      LogicalsAll(l[1..]);
    }
  }

  // The four ways to delete.

  function DropFirst(l: seq<Pte>, base: SectorNo): (r: seq<Pte>)
    requires AllShaped(l) && |l| > 1
    ensures AllShaped(r)
  {
    [Rebased(l[1], base)] + l[2..]
  }

  function Bypass(l: seq<Pte>, j: nat, link: Partition): (r: seq<Pte>)
    requires AllShaped(l) && 0 < j < |l|
    ensures AllShaped(r)
  {
    l[..j - 1] + [l[j - 1].SetExt(link).(changed := true)] + l[j + 1..]
  }

  lemma DeleteCases(l: seq<Pte>, base: SectorNo, j: nat)
    requires Linked(l, base) && AllShaped(l) && j < |l|
    ensures DeleteAt(l, base, j) ==
      if |l| == 1 then [l[0].(changed := true).SetPart(CLEARED)]
      else if j == 0 then DropFirst(l, base)
      else Bypass(l, j, if j == |l| - 1 then CLEARED else l[j].Ext())
  {
    hide Wrap, NextOffset, Rebased, Plain, Pte.SetPart, Pte.SetExt;
    EndOfChain(l, base, j);
    if |l| == 1 {
      assert l[0 := l[0].(changed := true)][0] == l[0].(changed := true);
    } else if j == 0 {
      FirstOut(l, base);
    } else {
      OthersOut(l, base, j);
    }
  }

  lemma EndOfChain(l: seq<Pte>, base: SectorNo, j: nat)
    requires Linked(l, base) && AllShaped(l) && j < |l|
    ensures l[j].Ext().sysInd == 0 <==> j == |l| - 1
  {
    if j < |l| - 1 {
      assert IsLink(l[j].Ext());
    }
  }

  lemma FirstOut(l: seq<Pte>, base: SectorNo)
    requires AllShaped(l) && |l| > 1
    ensures DeleteAt(l, base, 0) == DropFirst(l, base)
  {
    hide Wrap, Rebased, Pte.SetPart, Pte.SetExt;
    var l1 := l[0 := l[0].(changed := true)];
    var l2 := l1[1 := Rebased(l[1], base)];
    assert l2[..0] + l2[0 + 1..] == [Rebased(l[1], base)] + l[2..];
  }

  lemma OthersOut(l: seq<Pte>, base: SectorNo, j: nat)
    requires AllShaped(l) && 0 < j < |l| && (l[j].Ext().sysInd == 0 <==> j == |l| - 1)
    ensures DeleteAt(l, base, j) == Bypass(l, j, if j == |l| - 1 then CLEARED else l[j].Ext())
  {
    hide Wrap, Rebased, Pte.SetPart, Pte.SetExt;
    var l1 := l[j := l[j].(changed := true)];
    assert l1[j - 1] == l[j - 1];
    var link := if j == |l| - 1 then CLEARED else l[j].Ext();
    var l2 := l1[j - 1 := l1[j - 1].SetExt(link).(changed := true)];
    assert l2[..j] == l[..j - 1] + [l[j - 1].SetExt(link).(changed := true)];
    assert l2[j + 1..] == l[j + 1..];
    if j == |l| - 1 {
      assert l2[..|l| - 1] == l2[..j] + [] && l[j + 1..] == [];
    }
  }

  lemma DropFirstLinked(l: seq<Pte>, base: SectorNo)
    requires Linked(l, base) && AllShaped(l) && |l| > 1
    ensures Linked(DropFirst(l, base), base)
  {
    hide IsLink, NextOffset, Wrap, Pte.SetPart;
    var r := DropFirst(l, base);
    RebasedKeeps(l[1], base);
    forall i | 0 <= i < |r|
      ensures Plain(r[i]) && r[i].Ext() == l[i + 1].Ext() && r[i].offset == if i == 0 then base else l[i + 1].offset
    {
    }
    SameLinks(l, r, base);
  }

  lemma RebasedKeeps(pe: Pte, base: SectorNo)
    requires Plain(pe)
    ensures Plain(Rebased(pe, base)) && Rebased(pe, base).Ext() == pe.Ext() && Rebased(pe, base).offset == base
    ensures Rebased(pe, base).Absolute() == pe.Absolute()
    ensures IsData(Rebased(pe, base).Part()) <==> IsData(pe.Part())
  {
    hide Wrap;
    RebasedAbsolute(pe, base);
  }

  /** A chain from which the first sector was taken. */
  lemma SameLinks(l: seq<Pte>, r: seq<Pte>, base: SectorNo)
    requires Linked(l, base) && AllShaped(l) && AllShaped(r) && |r| == |l| - 1 > 0
    requires forall i :: 0 <= i < |r| ==> Plain(r[i]) && r[i].Ext() == l[i + 1].Ext()
    requires forall i :: 0 <= i < |r| ==> r[i].offset == if i == 0 then base else l[i + 1].offset
    ensures Linked(r, base)
  {
    hide IsLink, Plain, Wrap;
    forall i | 0 <= i < |r| - 1
      ensures IsLink(r[i].Ext()) && r[i + 1].offset == NextOffset(base, r[i])
    {
      assert IsLink(l[i + 1].Ext()) && l[i + 1 + 1].offset == NextOffset(base, l[i + 1]);
    }
  }

  lemma BypassLinked(l: seq<Pte>, base: SectorNo, j: nat)
    requires Linked(l, base) && AllShaped(l) && 0 < j < |l|
    ensures Linked(Bypass(l, j, if j == |l| - 1 then CLEARED else l[j].Ext()), base)
  {
    hide IsLink, Wrap, Plain, Bypass;
    var link := if j == |l| - 1 then CLEARED else l[j].Ext();
    var r := Bypass(l, j, link);
    RelinkedPlain(l[j - 1], link);
    BypassAt(l, j, link);
    forall i | 0 <= i < |r| - 1
      ensures IsLink(r[i].Ext()) && r[i + 1].offset == NextOffset(base, r[i])
    {
      if i >= j - 1 {
        assert IsLink(l[i + 1].Ext()) && l[i + 1 + 1].offset == NextOffset(base, l[i + 1]);
      } else {
        assert IsLink(l[i].Ext()) && l[i + 1].offset == NextOffset(base, l[i]);
      }
    }
  }

  lemma RelinkedPlain(pe: Pte, link: Partition)
    requires Plain(pe)
    ensures Plain(pe.SetExt(link).(changed := true)) && pe.SetExt(link).Part() == pe.Part()
    ensures pe.SetExt(link).(changed := true).Ext() == link && pe.SetExt(link).offset == pe.offset
  {}

  /** Deleting keeps a chain well-formed. */
  lemma DeleteLinked(l: seq<Pte>, base: SectorNo, j: nat)
    requires Linked(l, base) && AllShaped(l) && j < |l|
    ensures Linked(DeleteAt(l, base, j), base)
  {
    hide DeleteAt, DropFirst, Bypass, IsLink, NextOffset;
    DeleteCases(l, base, j);
    if |l| > 1 {
      if j == 0 {
        DropFirstLinked(l, base);
      } else {
        BypassLinked(l, base, j);
      }
    }
  }

  /** Deleting takes one partition out and leaves all the others where they are. */
  lemma {:induction false} DeleteKeeps(l: seq<Pte>, base: SectorNo, j: nat)
    requires Linked(l, base) && AllShaped(l) && Filled(l) && j < |l|
    ensures Filled(DeleteAt(l, base, j))
    ensures Logicals(l) == [] ==> Logicals(DeleteAt(l, base, j)) == []
    ensures Logicals(l) != [] ==> |Logicals(l)| == |l|
    ensures Logicals(l) != [] ==> Logicals(DeleteAt(l, base, j)) == Logicals(l)[..j] + Logicals(l)[j + 1..]
  {
    hide DeleteAt, Linked, IsLink, NextOffset, Logicals, Wrap, Rebased;
    DeleteCases(l, base, j);
    LinkedPlain(l, base);
    if |l| == 1 {
      OnlyOneCleared(l);
    } else {
      OneLess(l, base, j);
    }
  }

  lemma {:induction false} OnlyOneCleared(l: seq<Pte>)
    requires AllShaped(l) && Filled(l) && |l| == 1
    ensures var r := [l[0].(changed := true).SetPart(CLEARED)];
      && Filled(r) && Logicals(r) == []
      && (Logicals(l) != [] ==> |Logicals(l)| == 1)
  {
    hide Pte.SetPart, Wrap;
    var r := [l[0].(changed := true).SetPart(CLEARED)];
    assert r[0].Part() == CLEARED;
    ClearedLogicals(l[0].(changed := true));
    ClearedLogicals(l[0]);
    assert l == [l[0]];
    if l[0].Part().sysInd != 0 {
      LogicalsAll(l);
    }
  }

  /** A table sector that holds the same partition at the same place. */
  predicate SameData(pe: Pte, was: Pte) {
    pe.Shaped() && was.Shaped() && IsData(pe.Part()) && pe.Absolute() == was.Absolute()
  }

  lemma {:induction false} DropsOne(l: seq<Pte>, r: seq<Pte>, j: nat)
    requires AllShaped(l) && AllShaped(r) && j < |l| == |r| + 1 && |l| > 1 && Filled(l)
    requires forall i :: 0 <= i < |r| ==> SameData(r[i], l[if i < j then i else i + 1])
    ensures Filled(r) && |Logicals(l)| == |l| && Logicals(r) == Logicals(l)[..j] + Logicals(l)[j + 1..]
  {
    hide Logicals, Pte.Absolute;
    LogicalsAll(l);
    assert forall i :: 0 <= i < |r| ==> SameData(r[i], l[if i < j then i else i + 1]) && IsData(r[i].Part());
    LogicalsAll(r);
  }

  lemma SameSelf(pe: Pte)
    requires pe.Shaped() && IsData(pe.Part())
    ensures SameData(pe, pe)
  {}

  lemma SameRelinked(pe: Pte, link: Partition)
    requires Plain(pe) && IsData(pe.Part())
    ensures SameData(pe.SetExt(link).(changed := true), pe)
  {}

  lemma SameRebased(pe: Pte, base: SectorNo)
    requires Plain(pe) && IsData(pe.Part())
    ensures SameData(Rebased(pe, base), pe)
  {
    hide Pte.Absolute, Rebased;
    RebasedKeeps(pe, base);
  }

  lemma BypassAt(l: seq<Pte>, j: nat, link: Partition)
    requires AllShaped(l) && 0 < j < |l|
    ensures |Bypass(l, j, link)| == |l| - 1
    ensures Bypass(l, j, link)[j - 1] == l[j - 1].SetExt(link).(changed := true)
    ensures forall i :: 0 <= i < j - 1 ==> Bypass(l, j, link)[i] == l[i]
    ensures forall i :: j <= i < |l| - 1 ==> Bypass(l, j, link)[i] == l[i + 1]
  {
    hide Pte.SetExt;
  }

  lemma {:induction false} FirstLess(l: seq<Pte>, base: SectorNo)
    requires AllShaped(l) && Filled(l) && |l| > 1 && Plain(l[1])
    ensures var r := DropFirst(l, base);
      AllShaped(r) && Filled(r) && |Logicals(l)| == |l| && Logicals(r) == Logicals(l)[1..]
  {
    hide Logicals, Rebased, SameData, IsData, Pte.Absolute, Plain;
    var r := DropFirst(l, base);
    SameRebased(l[1], base);
    SameDataShaped(r[0], l[1]);
    forall i | 1 <= i < |r|
      ensures SameData(r[i], l[i + 1])
    {
      SameSelf(l[i + 1]);
    }
    DropsOne(l, r, 0);
    assert Logicals(l)[..0] + Logicals(l)[1..] == Logicals(l)[1..];
  }

  lemma SameDataShaped(pe: Pte, was: Pte)
    requires SameData(pe, was)
    ensures pe.Shaped() && was.Shaped()
  {}

  lemma {:induction false} OtherLess(l: seq<Pte>, j: nat, link: Partition)
    requires AllShaped(l) && Filled(l) && 0 < j < |l| && Plain(l[j - 1])
    ensures var r := Bypass(l, j, link);
      AllShaped(r) && Filled(r) && |Logicals(l)| == |l| && Logicals(r) == Logicals(l)[..j] + Logicals(l)[j + 1..]
  {
    hide Logicals, SameData, IsData, Pte.SetExt, Pte.Absolute, Plain, Bypass;
    var r := Bypass(l, j, link);
    BypassAt(l, j, link);
    SameRelinked(l[j - 1], link);
    SameDataShaped(r[j - 1], l[j - 1]);
    forall i | 0 <= i < |r| && i != j - 1
      ensures SameData(r[i], l[if i < j then i else i + 1])
    {
      SameSelf(l[if i < j then i else i + 1]);
    }
    DropsOne(l, r, j);
  }

  lemma OneLess(l: seq<Pte>, base: SectorNo, j: nat)
    requires AllShaped(l) && Filled(l) && j < |l| && |l| > 1 && forall i :: 0 <= i < |l| ==> Plain(l[i])
    ensures var r := if j == 0 then DropFirst(l, base) else Bypass(l, j, if j == |l| - 1 then CLEARED else l[j].Ext());
      && AllShaped(r) && Filled(r)
      && |Logicals(l)| == |l| && Logicals(r) == Logicals(l)[..j] + Logicals(l)[j + 1..]
  {
    hide Logicals, Filled, DropFirst, Bypass, Plain;
    if j == 0 {
      FirstLess(l, base);
      assert Logicals(l)[..0] + Logicals(l)[1..] == Logicals(l)[1..];
    } else {
      OtherLess(l, j, if j == |l| - 1 then CLEARED else l[j].Ext());
    }
  }

  lemma LinkedPlain(l: seq<Pte>, base: SectorNo)
    requires Linked(l, base)
    ensures l != [] && forall j :: 0 <= j < |l| ==> Plain(l[j])
  {}

  lemma ClearedLogicals(pe: Pte)
    requires pe.Shaped()
    ensures Logicals([pe.SetPart(CLEARED)]) == []
    ensures pe.Part().sysInd == 0 ==> Logicals([pe]) == []
  {
    assert [pe.SetPart(CLEARED)][1..] == [] && [pe][1..] == [];
  }

  // Reading a chain back.

  function Clean(l: seq<Pte>): (r: seq<Pte>)
    ensures |r| == |l| && forall j :: 0 <= j < |l| ==> r[j] == l[j].(changed := false)
  {
    seq(|l|, j requires 0 <= j < |l| => l[j].(changed := false))
  }

  /** The disk holds the table sectors as they are in memory. */
  predicate Stored(l: seq<Pte>, disk: Disk) {
    forall j :: 0 <= j < |l| ==> l[j].offset in disk && disk[l[j].offset] == l[j].buf
  }

  lemma {:induction false} FindDataIs(parts: seq<Partition>, i: nat)
    requires |parts| == 4 && i < 2 && IsData(parts[i]) && (i == 1 ==> !IsData(parts[0]))
    ensures FindData(parts, 0) == i
  {}

  lemma {:induction false} NoData(parts: seq<Partition>)
    requires |parts| == 4 && parts[2].size == 0 && parts[3].size == 0 && !IsData(parts[0]) && !IsData(parts[1])
    ensures FindData(parts, 0) == -1
  {
    assert FindData(parts, 2) == FindData(parts, 3) == -1;
  }

  lemma {:induction false} FindLinkIs(parts: seq<Partition>, i: nat)
    requires |parts| == 4 && i < 2 && IsLink(parts[i]) && (i == 1 ==> !IsLink(parts[0]))
    ensures FindLink(parts, 0) == i
  {}

  lemma {:induction false} NoLink(parts: seq<Partition>)
    requires |parts| == 4 && parts[2].size == 0 && parts[3].size == 0 && !IsLink(parts[0]) && !IsLink(parts[1])
    ensures FindLink(parts, 0) == -1
  {
    assert FindLink(parts, 2) == FindLink(parts, 3) == -1;
  }

  /** A sector of a well-formed chain is taken in as it was. */
  lemma TakenAgain(pe: Pte)
    requires Plain(pe) && IsData(pe.Part()) && (IsLink(pe.Ext()) || pe.Ext().sysInd == 0)
    ensures Taken(pe.offset, pe.buf) == pe.(changed := false)
  {
    hide FindData, FindLink;
    FindDataIs(pe.buf.parts, pe.part);
    if IsLink(pe.Ext()) {
      FindLinkIs(pe.buf.parts, pe.ext);
    } else {
      NoLink(pe.buf.parts);
    }
  }

  lemma {:induction false} ChainFrom(disk: Disk, base: SectorNo, l: seq<Pte>, k: nat, n: nat)
    requires Linked(l, base) && AllShaped(l) && Stored(l, disk) && k < |l| && |l| - k <= n
    requires forall j :: 0 <= j < |l| ==> IsData(l[j].Part())
    ensures Chain(disk, base, l[k].offset, n) == Some(Clean(l[k..]))
    decreases |l| - k
  {
    hide Taken, NextOffset, Linked, Chain, IsLink, IsData, Plain, IsExtended;
    LinkAt(l, base, k);
    TakenAgain(l[k]);
    ChainStep(disk, base, l[k].offset, n);
    if k < |l| - 1 {
      ChainFrom(disk, base, l, k + 1, n - 1);
      SameNext(base, l[k]);
      assert Clean(l[k..]) == [l[k].(changed := false)] + Clean(l[k + 1..]);
    } else {
      assert Clean(l[k..]) == [l[k].(changed := false)];
    }
  }

  lemma LinkAt(l: seq<Pte>, base: SectorNo, k: nat)
    requires Linked(l, base) && AllShaped(l) && k < |l|
    ensures Plain(l[k])
    ensures k < |l| - 1 ==>
      IsLink(l[k].Ext()) && IsExtended(l[k].Ext().sysInd) && l[k + 1].offset == NextOffset(base, l[k])
    ensures k == |l| - 1 ==> l[k].Ext().sysInd == 0 && !IsExtended(l[k].Ext().sysInd)
  {
    hide NextOffset, Plain;
  }

  lemma {:induction false} ChainStep(disk: Disk, base: SectorNo, offset: SectorNo, n: nat)
    requires n > 0 && offset in disk
    ensures
      var pe := Taken(offset, disk[offset]);
      Chain(disk, base, offset, n) ==
        if !IsExtended(pe.Ext().sysInd) then Some([pe])
        else match Chain(disk, base, NextOffset(base, pe), n - 1)
          case None => None
          case Some(rest) => Some([pe] + rest)
  {
    hide Taken, NextOffset, IsExtended;
  }

  lemma SameNext(base: SectorNo, pe: Pte)
    requires pe.Shaped()
    ensures NextOffset(base, pe.(changed := false)) == NextOffset(base, pe)
  {}

  /**
   * Reading a stored well-formed chain gives back all of its partitions, and nothing else; if it holds any,
   * the table sectors are the same, too.
   */
  lemma {:induction false} ReadBack(disk: Disk, base: SectorNo, l: seq<Pte>, n: nat)
    requires Linked(l, base) && AllShaped(l) && Filled(l) && Stored(l, disk) && |l| <= n
    ensures
      var r := Chain(disk, base, base, n);
      && r.Some? && |r.value| == |l| && Logicals(r.value) == Logicals(l)
      && (Logicals(l) != [] ==> r.value == Clean(l))
      && Filled(r.value) && !IsExtended(r.value[|l| - 1].Ext().sysInd)
  {
    hide IsLink, NextOffset;
    EndOfChain(l, base, |l| - 1);
    if |l| == 1 && l[0].Part().sysInd == 0 {
      hide FindData, FindLink, Linked, Chain;
      var parts := l[0].buf.parts;
      LinkedPlain(l, base);
      NoneTaken(l[0]);
      OneSector(disk, base, l[0].offset, n);
      ClearedLogicals(l[0]);
      ClearedLogicals(Taken(l[0].offset, l[0].buf));
      assert l == [l[0]];
    } else {
      assert forall j :: 0 <= j < |l| ==> IsData(l[j].Part());
      ChainFrom(disk, base, l, 0, n);
      assert l[0..] == l;
      CleanLogicals(l);
    }
  }

  lemma NoneTaken(pe: Pte)
    requires Plain(pe) && pe.Part().sysInd == 0 && pe.Ext().sysInd == 0
    ensures Taken(pe.offset, pe.buf).Part().sysInd == 0 && Taken(pe.offset, pe.buf).Ext().sysInd == 0
  {
    hide FindData, FindLink;
    NoData(pe.buf.parts);
    NoLink(pe.buf.parts);
  }

  lemma {:induction false} OneSector(disk: Disk, base: SectorNo, offset: SectorNo, n: nat)
    requires n > 0 && offset in disk && !IsExtended(Taken(offset, disk[offset]).Ext().sysInd)
    ensures Chain(disk, base, offset, n) == Some([Taken(offset, disk[offset])])
  {}

  lemma {:induction false} CleanLogicals(l: seq<Pte>)
    requires AllShaped(l)
    ensures AllShaped(Clean(l)) && Logicals(Clean(l)) == Logicals(l)
  {
    hide Wrap;
    if l != [] {
      CleanLogicals(l[1..]);
      assert Clean(l)[1..] == Clean(l[1..]);
    }
  }

  // Empty table sectors.

  /** The first table sector without a partition that read_extended removes, or -1. */
  function FirstEmpty(l: seq<Pte>, j: nat): (r: int)
    requires AllShaped(l)
    ensures r == -1 || j <= r < |l|
    ensures r != -1 ==> l[r].Part().size == 0 && (|l| > 1 || l[0].Part().sysInd != 0)
    decreases |l| - j
  {
    if j >= |l| then -1
    else if l[j].Part().size == 0 && (|l| > 1 || l[0].Part().sysInd != 0) then j
    else FirstEmpty(l, j + 1)
  }

  function RemoveEmpty(l: seq<Pte>, base: SectorNo): (r: seq<Pte>)
    requires AllShaped(l)
    ensures AllShaped(r)
    decreases |l|, if |l| > 0 && l[0].Part().sysInd != 0 then 1 else 0
  {
    var j := FirstEmpty(l, 0);
    if j == -1 then l else RemoveEmpty(DeleteAt(l, base, j), base)
  }

  /** The partitions that have a sector, where they lie on the disk. */
  function Sized(l: seq<Pte>): (r: seq<Partition>)
    requires AllShaped(l)
  {
    if l == [] then []
    else if l[0].Part().size == 0 then Sized(l[1..])
    else [l[0].Absolute()] + Sized(l[1..])
  }

  lemma {:induction false} SizedParts(a: seq<Pte>, b: seq<Pte>)
    requires AllShaped(a) && AllShaped(b)
    ensures AllShaped(a + b) && Sized(a + b) == Sized(a) + Sized(b)
  {
    hide Pte.Absolute;
    if a == [] {
      assert a + b == b;
    } else {
      assert (a + b)[1..] == a[1..] + b;
      SizedParts(a[1..], b);
    }
  }

  lemma SizedOne(pe: Pte)
    requires pe.Shaped()
    ensures Sized([pe]) == if pe.Part().size == 0 then [] else [pe.Absolute()]
  {
    assert [pe][1..] == [];
  }

  /** Deleting an empty table sector leaves all partitions where they are. */
  lemma {:induction false} DeleteEmptyKeeps(l: seq<Pte>, base: SectorNo, j: nat)
    requires Linked(l, base) && AllShaped(l) && j < |l| && l[j].Part().size == 0
    ensures Sized(DeleteAt(l, base, j)) == Sized(l)
  {
    hide DeleteAt, Linked, IsLink, NextOffset, Sized, Wrap, Rebased, Pte.Absolute, Plain, Bypass, DropFirst;
    DeleteCases(l, base, j);
    LinkedPlain(l, base);
    SizedOne(l[j]);
    if |l| == 1 {
      SizedOne(l[0].(changed := true).SetPart(CLEARED));
      assert l == [l[0]];
    } else if j == 0 {
      FirstEmptied(l, base);
    } else {
      OtherEmptied(l, j, if j == |l| - 1 then CLEARED else l[j].Ext());
    }
  }

  lemma {:induction false} FirstEmptied(l: seq<Pte>, base: SectorNo)
    requires AllShaped(l) && |l| > 1 && Plain(l[1]) && l[0].Part().size == 0
    ensures Sized(DropFirst(l, base)) == Sized(l)
  {
    hide Sized, Wrap, Pte.Absolute;
    var pe := Rebased(l[1], base);
    RebasedAbsolute(l[1], base);
    SizedOne(l[0]);
    SizedOne(l[1]);
    SizedOne(pe);
    SizedParts([pe], l[2..]);
    SizedParts([l[1]], l[2..]);
    SizedParts([l[0]], [l[1]] + l[2..]);
    assert l == [l[0]] + ([l[1]] + l[2..]);
  }

  lemma {:induction false} OtherEmptied(l: seq<Pte>, j: nat, link: Partition)
    requires AllShaped(l) && 0 < j < |l| && Plain(l[j - 1]) && l[j].Part().size == 0
    ensures Sized(Bypass(l, j, link)) == Sized(l)
  {
    hide Sized, Wrap;
    var pe, a, b := l[j - 1].SetExt(link).(changed := true), l[..j - 1], l[j + 1..];
    assert pe.Absolute() == l[j - 1].Absolute();
    SizedOne(pe);
    SizedOne(l[j - 1]);
    SizedOne(l[j]);
    SizedParts(a, [pe]);
    SizedParts(a + [pe], b);
    SizedParts(a, [l[j - 1]]);
    SizedParts([l[j]], b);
    SizedParts(a + [l[j - 1]], [l[j]] + b);
    assert l == a + [l[j - 1]] + ([l[j]] + b);
  }

  /** A chain from which the empty table sectors were removed is well-formed, and has the same partitions. */
  lemma {:induction false} RemoveEmptyKeeps(l: seq<Pte>, base: SectorNo)
    requires Linked(l, base) && AllShaped(l)
    ensures var r := RemoveEmpty(l, base);
      Linked(r, base) && Sized(r) == Sized(l) && FirstEmpty(r, 0) == -1
    decreases |l|, if |l| > 0 && l[0].Part().sysInd != 0 then 1 else 0
  {
    hide DeleteAt, Linked, Sized;
    var j := FirstEmpty(l, 0);
    if j != -1 {
      DeleteLinked(l, base, j);
      DeleteEmptyKeeps(l, base, j);
      OnlyCleared(l, base);
      assert |l| == 1 ==> j == 0;
      RemoveEmptyKeeps(DeleteAt(l, base, j), base);
    }
  }

  /** No table sector is empty, but for a single one without a partition. */
  lemma {:induction false} FirstEmptyExactly(l: seq<Pte>, j: nat)
    requires AllShaped(l)
    ensures FirstEmpty(l, j) == -1 <==>
      forall i :: j <= i < |l| ==> l[i].Part().size != 0 || (|l| == 1 && l[0].Part().sysInd == 0)
    decreases |l| - j
  {
    if j < |l| {
      FirstEmptyExactly(l, j + 1);
    }
  }

  /**
   * The removal of empty links after at most n restarts, or None when it has not ended by then. Without a geometry
   * deleting does nothing.
   */
  function Removal(l: seq<Pte>, base: SectorNo, known: bool, n: nat): (r: Option<seq<Pte>>)
    requires AllShaped(l)
    decreases n
  {
    var j := FirstEmpty(l, 0);
    if j == -1 then Some(l)
    else if n == 0 then None
    else Removal(if known then DeleteAt(l, base, j) else l, base, known, n - 1)
  }

  /** It ends if and only if the geometry is known or there is nothing to remove. */
  lemma {:induction false} RemovalEnds(l: seq<Pte>, base: SectorNo, known: bool)
    requires AllShaped(l)
    ensures (exists n :: Removal(l, base, known, n).Some?) <==> known || FirstEmpty(l, 0) == -1
    ensures forall n :: Removal(l, base, known, n).Some? ==> Removal(l, base, known, n).value == RemoveEmpty(l, base)
  {
    if known {
      var n := RestartsNeeded(l, base);
      assert Removal(l, base, known, n).Some?;
      assert exists n :: Removal(l, base, known, n).Some?;
    } else if FirstEmpty(l, 0) == -1 {
      assert Removal(l, base, known, 0).Some?;
      assert exists n :: Removal(l, base, known, n).Some?;
    } else {
      forall n: nat
        ensures !Removal(l, base, known, n).Some?
      {
        NeverRemoved(l, base, n);
      }
      assert !exists n :: Removal(l, base, known, n).Some?;
    }
    forall n: nat | Removal(l, base, known, n).Some?
      ensures Removal(l, base, known, n).value == RemoveEmpty(l, base)
    {
      RemovalIs(l, base, known, n);
    }
  }

  lemma {:induction false} RestartsNeeded(l: seq<Pte>, base: SectorNo) returns (n: nat)
    requires AllShaped(l)
    ensures Removal(l, base, true, n).Some?
    decreases |l|, if |l| > 0 && l[0].Part().sysInd != 0 then 1 else 0
  {
    hide DeleteAt;
    n := 0;
    var j := FirstEmpty(l, 0);
    if j != -1 {
      OnlyCleared(l, base);
      n := RestartsNeeded(DeleteAt(l, base, j), base);
      n := n + 1;
    }
  }

  lemma {:induction false} OnlyCleared(l: seq<Pte>, base: SectorNo)
    requires AllShaped(l)
    ensures |l| == 1 ==> DeleteAt(l, base, 0)[0].Part().sysInd == 0
  {}

  lemma {:induction false} NeverRemoved(l: seq<Pte>, base: SectorNo, n: nat)
    requires AllShaped(l) && FirstEmpty(l, 0) != -1
    ensures Removal(l, base, false, n).None?
  {
    if n > 0 {
      NeverRemoved(l, base, n - 1);
    }
  }

  lemma {:induction false} RemovalIs(l: seq<Pte>, base: SectorNo, known: bool, n: nat)
    requires AllShaped(l) && Removal(l, base, known, n).Some?
    ensures Removal(l, base, known, n).value == RemoveEmpty(l, base)
    decreases n
  {
    hide DeleteAt;
    var j := FirstEmpty(l, 0);
    if j != -1 {
      if known {
        RemovalIs(DeleteAt(l, base, j), base, known, n - 1);
      } else {
        NeverRemoved(l, base, n);
      }
    }
  }

  lemma {:induction false} NoneEmpty(l: seq<Pte>, j: nat)
    requires AllShaped(l) && Filled(l)
    ensures FirstEmpty(l, j) == -1
    decreases |l| - j
  {
    if j < |l| {
      NoneEmpty(l, j + 1);
    }
  }

  /** What deleting changes, it marks as changed. */
  lemma {:induction false} DeleteMarks(l: seq<Pte>, base: SectorNo, j: nat, disk: Disk)
    requires Linked(l, base) && AllShaped(l) && j < |l| && Synced(l, disk)
    ensures Synced(DeleteAt(l, base, j), disk)
  {
    hide DeleteAt, Linked, IsLink, NextOffset, Rebased, Pte.SetExt, Pte.SetPart;
    DeleteCases(l, base, j);
    if |l| > 1 && j == 0 {
      RebasedChanged(l[1], base);
    }
    if |l| == 1 {
      ClearedChanged(l[0].(changed := true));
    }
  }

  lemma DeletePlaces(l: seq<Pte>, base: SectorNo, j: nat)
    requires Linked(l, base) && AllShaped(l) && j < |l| && base != 0 && forall i :: 0 <= i < |l| ==> l[i].offset != 0
    ensures forall i :: 0 <= i < |DeleteAt(l, base, j)| ==> DeleteAt(l, base, j)[i].offset != 0
  {
    hide DeleteAt, Linked, IsLink, NextOffset, Wrap;
    DeleteCases(l, base, j);
  }

  lemma RebasedChanged(pe: Pte, base: SectorNo)
    requires pe.Shaped()
    ensures Rebased(pe, base).changed
  {}

  lemma ClearedChanged(pe: Pte)
    requires pe.Shaped()
    ensures pe.SetPart(CLEARED).changed == pe.changed
  {}

  /** A table sector that is not marked as changed is on the disk as it is in memory. */
  predicate Synced(l: seq<Pte>, disk: Disk) {
    forall j :: 0 <= j < |l| && !l[j].changed ==> l[j].offset in disk && disk[l[j].offset] == l[j].buf
  }

  // Reading, step by step.

  /** A chain that was cut off because there is no room for more: its last link is cleared. */
  function Cut(l: seq<Pte>): (r: seq<Pte>)
    requires AllShaped(l) && l != []
    ensures AllShaped(r) && |r| == |l|
  {
    l[|l| - 1 := l[|l| - 1].SetExt(CLEARED).(changed := true)]
  }

  predicate Leads(l: seq<Pte>)
    requires AllShaped(l) && l != []
  {
    IsExtended(l[|l| - 1].Ext().sysInd)
  }

  /** What read_extended makes of the disk; None when it cannot read a sector. */
  function ReadChain(disk: Disk, base: SectorNo): (r: Option<seq<Pte>>)
    ensures r.Some? ==> AllShaped(r.value)
  {
    match Chain(disk, base, base, MAXIMUM_PARTS - 4)
    case None => None
    case Some(l) => Some(if Leads(l) then Cut(l) else RemoveEmpty(l, base))
  }

  /** read_extended ends: no geometry is needed for a chain that cannot be read, is too long, or has no empty link. */
  predicate ReadEnds(disk: Disk, base: SectorNo, known: bool) {
    known || base == 0 ||
    match Chain(disk, base, base, MAXIMUM_PARTS - 4)
    case None => true
    case Some(l) => Leads(l) || FirstEmpty(l, 0) == -1
  }

  /** A disk with a table sector that holds no partition but leads to a second one. */
  function EmptyFirst(code: seq<bv8>): Disk {
    var link := CLEARED.(sysInd := EXTENDED, start := 50, size := 50);
    var data := CLEARED.(sysInd := LINUX_NATIVE, start := 1, size := 49);
    map[100 := SectorData(code, [CLEARED, link, CLEARED, CLEARED], true),
      150 := SectorData(code, [data, CLEARED, CLEARED, CLEARED], true)]
  }

  /** On that disk, read_extended ends only if the geometry is known. */
  lemma {:induction false} EmptyFirstEnds(code: seq<bv8>, known: bool)
    ensures ReadEnds(EmptyFirst(code), 100, known) <==> known
  {
    hide FindData, FindLink, Taken, Chain;
    var disk := EmptyFirst(code);
    var one, two := disk[100], disk[150];
    FirstIsLink(one.parts);
    FirstIsData(two.parts);
    TakenAt(100, one, 0, 1);
    TakenAt(150, two, 0, 1);
    ChainEnds(disk, 100, 150, 55);
    ChainGoesOn(disk, 100, 100, 56);
    assert [Taken(100, one)] + [Taken(150, two)] == [Taken(100, one), Taken(150, two)];
  }

  lemma {:induction false} FirstIsLink(parts: seq<Partition>)
    requires |parts| == 4 && parts[0] == parts[2] == parts[3] == CLEARED && IsLink(parts[1])
    ensures FindData(parts, 0) == -1 && FindLink(parts, 0) == 1
  {
    assert FindData(parts, 2) == -1;
  }

  lemma {:induction false} FirstIsData(parts: seq<Partition>)
    requires |parts| == 4 && parts[1] == parts[2] == parts[3] == CLEARED && IsData(parts[0])
    ensures FindData(parts, 0) == 0 && FindLink(parts, 0) == -1
  {
    assert FindLink(parts, 2) == -1;
  }

  lemma TakenAt(offset: SectorNo, buf: SectorData, part: nat, ext: nat)
    requires |buf.parts| == 4 && Located(FindData(buf.parts, 0), FindLink(buf.parts, 0)) == (part, ext)
    requires part < 4 && ext < 4
    ensures Taken(offset, buf).Part() == buf.parts[part] && Taken(offset, buf).Ext() == buf.parts[ext]
  {}

  lemma {:induction false} ChainEnds(disk: Disk, base: SectorNo, offset: SectorNo, n: nat)
    requires n > 0 && offset in disk && !IsExtended(Taken(offset, disk[offset]).Ext().sysInd)
    ensures Chain(disk, base, offset, n) == Some([Taken(offset, disk[offset])])
  {}

  lemma ChainGoesOn(disk: Disk, base: SectorNo, offset: SectorNo, n: nat)
    requires n > 0 && offset in disk && IsExtended(Taken(offset, disk[offset]).Ext().sysInd)
    requires Chain(disk, base, NextOffset(base, Taken(offset, disk[offset])), n - 1).Some?
    ensures Chain(disk, base, offset, n) == Some([Taken(offset, disk[offset])]
      + Chain(disk, base, NextOffset(base, Taken(offset, disk[offset])), n - 1).value)
  {}

  /** The part of a chain that has been read, and the link that comes next. */
  ghost predicate Reading(disk: Disk, base: SectorNo, l: seq<Pte>, next: SectorNo, more: bool)
    requires |l| <= MAXIMUM_PARTS - 4
  {
    Chain(disk, base, base, MAXIMUM_PARTS - 4) ==
      if !more then Some(l)
      else match Chain(disk, base, next, MAXIMUM_PARTS - 4 - |l|)
        case None => None
        case Some(rest) => Some(l + rest)
  }

  lemma {:induction false} ReadingStart(disk: Disk, base: SectorNo)
    ensures Reading(disk, base, [], base, true)
  {
    hide Chain;
    assert forall rest: seq<Pte> :: [] + rest == rest;
  }

  lemma {:induction false} ReadingMore(disk: Disk, base: SectorNo, l: seq<Pte>, next: SectorNo)
    requires |l| < MAXIMUM_PARTS - 4 && Reading(disk, base, l, next, true)
    ensures next !in disk ==> Chain(disk, base, base, MAXIMUM_PARTS - 4) == None
    ensures next in disk ==>
      var pe := Taken(next, disk[next]);
      Reading(disk, base, l + [pe], NextOffset(base, pe), IsExtended(pe.Ext().sysInd))
  {
    hide Taken, NextOffset, IsExtended;
    if next in disk {
      var pe := Taken(next, disk[next]);
      if IsExtended(pe.Ext().sysInd) {
        match Chain(disk, base, NextOffset(base, pe), MAXIMUM_PARTS - 4 - |l| - 1)
        case None =>
        case Some(rest) =>
          assert l + ([pe] + rest) == l + [pe] + rest;
      }
    }
  }

  lemma {:induction false} ReadingEnds(disk: Disk, base: SectorNo, l: seq<Pte>, next: SectorNo, more: bool)
    requires |l| <= MAXIMUM_PARTS - 4 && Reading(disk, base, l, next, more)
    requires more ==> |l| == MAXIMUM_PARTS - 4
    ensures Chain(disk, base, base, MAXIMUM_PARTS - 4) == Some(l)
  {
    assert l + [] == l;
  }

  /**
   * After a table was written, reading the chain again gives exactly the partitions that were in memory.
   */
  lemma {:induction false} ReadChainBack(disk: Disk, base: SectorNo, l: seq<Pte>)
    requires Linked(l, base) && AllShaped(l) && Filled(l) && Stored(l, disk) && |l| <= MAXIMUM_PARTS - 4
    ensures
      var r := ReadChain(disk, base);
      && r.Some? && Logicals(r.value) == Logicals(l)
      && (Logicals(l) != [] ==> r.value == Clean(l))
  {
    hide Linked, Chain, Stored, Filled, Logicals;
    ReadBack(disk, base, l, MAXIMUM_PARTS - 4);
    NoneEmpty(Chain(disk, base, base, MAXIMUM_PARTS - 4).value, 0);
  }

  // Writing.

  /** A table sector after it was written. */
  function Signed(pe: Pte): Pte {
    if pe.changed then pe.(buf := pe.buf.(flagged := true)) else pe
  }

  predicate AllSigned(l: seq<Pte>, r: seq<Pte>) {
    |r| == |l| && forall j :: 0 <= j < |l| ==> r[j] == Signed(l[j])
  }

  /** What goes to the disk: a changed sector with its signature, and otherwise as it was. */
  lemma SignedOnDisk(l: seq<Pte>, r: seq<Pte>, before: Disk, disk: Disk)
    requires AllSigned(l, r) && Stored(r, disk) && Synced(l, before)
    ensures forall j :: 0 <= j < |l| ==>
      && l[j].offset in disk && (!l[j].changed ==> l[j].offset in before)
      && disk[l[j].offset] == if l[j].changed then l[j].buf.(flagged := true) else before[l[j].offset]
  {
    forall j | 0 <= j < |l|
      ensures l[j].offset in disk && (!l[j].changed ==> l[j].offset in before)
      ensures disk[l[j].offset] == if l[j].changed then l[j].buf.(flagged := true) else before[l[j].offset]
    {
      assert r[j] == Signed(l[j]);
    }
  }

  lemma {:induction false} SignedLogicals(l: seq<Pte>, r: seq<Pte>)
    requires AllShaped(l) && AllSigned(l, r)
    ensures AllShaped(r) && Logicals(r) == Logicals(l)
    ensures Filled(l) ==> Filled(r)
  {
    hide Wrap;
    assert forall j :: 0 <= j < |r| ==> r[j].Shaped() && r[j].Part() == l[j].Part();
    if l != [] {
      SignedLogicals(l[1..], r[1..]);
    }
  }

  lemma SignedLinked(l: seq<Pte>, r: seq<Pte>, base: SectorNo)
    requires Linked(l, base) && AllSigned(l, r)
    ensures Linked(r, base)
  {
    hide IsLink, Wrap;
    forall j | 0 <= j < |r|
      ensures Plain(r[j]) && r[j].Ext() == l[j].Ext() && r[j].offset == l[j].offset
    {
      assert Plain(l[j]);
    }
    forall j | 0 <= j < |r| - 1
      ensures IsLink(r[j].Ext()) && r[j + 1].offset == NextOffset(base, r[j])
    {
      assert IsLink(l[j].Ext()) && l[j + 1].offset == NextOffset(base, l[j]);
    }
  }

  lemma LinkedApart(l: seq<Pte>, base: SectorNo)
    requires Linked(l, base)
    ensures forall i, j :: 0 <= i < j < |l| ==> l[i].offset != l[j].offset
  {}

  lemma {:induction false} StoredSynced(l: seq<Pte>, disk: Disk)
    requires Stored(l, disk)
    ensures Synced(l, disk)
  {}

  /** Writing other sectors does not matter. */
  lemma {:induction false} KeepsSynced(l: seq<Pte>, before: Disk, after: Disk)
    requires Synced(l, before)
    requires forall k :: k in before && k != 0 ==> k in after && after[k] == before[k]
    requires forall j :: 0 <= j < |l| ==> l[j].offset != 0
    ensures Synced(l, after)
  {}

  // Adding.

  /** One more table sector at the end of the chain, which the last one now links to. */
  function Extended(l: seq<Pte>, link: Partition, pe: Pte): (r: seq<Pte>)
    requires AllShaped(l) && l != [] && pe.Shaped()
    ensures AllShaped(r) && |r| == |l| + 1
  {
    l[|l| - 1 := l[|l| - 1].SetExt(link).(changed := true)] + [pe]
  }

  /** A chain grows by a table sector that is not part of it yet. */
  lemma ExtendedLinked(l: seq<Pte>, base: SectorNo, link: Partition, pe: Pte)
    requires Linked(l, base) && AllShaped(l) && IsLink(link)
    requires pe.Shaped() && Plain(pe) && pe.Ext().sysInd == 0 && pe.offset == Wrap(base + link.start)
    requires forall j :: 0 <= j < |l| ==> l[j].offset != pe.offset
    ensures Linked(Extended(l, link, pe), base)
  {
    hide IsLink, Wrap, Plain, Pte.SetExt;
    var n := |l| - 1;
    var r := Extended(l, link, pe);
    RelinkedPlain(l[n], link);
    assert r[n] == l[n].SetExt(link).(changed := true) && r[n + 1] == pe;
    assert forall j :: 0 <= j < n ==> r[j] == l[j];
    forall j | 0 <= j < |r| - 1
      ensures IsLink(r[j].Ext()) && r[j + 1].offset == NextOffset(base, r[j])
    {
      if j < n {
        assert IsLink(l[j].Ext()) && l[j + 1].offset == NextOffset(base, l[j]);
      }
    }
  }

  /** The partitions are those from before and the new one. */
  lemma {:induction false} ExtendedLogicals(l: seq<Pte>, base: SectorNo, link: Partition, pe: Pte)
    requires Linked(l, base) && AllShaped(l) && l[0].Part().sysInd != 0 && Filled(l) && pe.Shaped() && IsData(pe.Part())
    ensures Filled(Extended(l, link, pe))
    ensures Logicals(Extended(l, link, pe)) == Logicals(l) + [pe.Absolute()]
  {
    hide Logicals, SameData, Pte.SetExt, Pte.Absolute, Plain, Linked;
    LinkedPlain(l, base);
    var n := |l| - 1;
    var r := Extended(l, link, pe);
    SameRelinked(l[n], link);
    SameAbsolute(r[n], l[n]);
    assert forall j :: 0 <= j < n ==> r[j] == l[j];
    LogicalsAll(l);
    LogicalsAll(r);
  }

  lemma SameAbsolute(pe: Pte, was: Pte)
    requires SameData(pe, was)
    ensures pe.Shaped() && was.Shaped() && IsData(pe.Part()) && pe.Absolute() == was.Absolute()
  {}

  /** The table sector of a new extended partition takes in the first partition. */
  lemma FirstLogical(l: seq<Pte>, base: SectorNo, p: Partition)
    requires Linked(l, base) && AllShaped(l) && |l| == 1 && IsData(p)
    ensures var r := [l[0].(changed := true).SetPart(p)];
      && Linked(r, base) && AllShaped(r) && Filled(r)
      && Logicals(r) == [p.(start := Wrap(base + p.start))]
  {
    hide Wrap;
    var pe := l[0].(changed := true).SetPart(p);
    assert Plain(l[0]);
    assert [pe][1..] == [];
    assert Logicals([pe]) == [pe.Absolute()] + Logicals([]);
  }

  /** Two tables in one sector do not make a chain. */
  lemma ExtendedClash(l: seq<Pte>, base: SectorNo, link: Partition, pe: Pte, j: nat)
    requires AllShaped(l) && l != [] && pe.Shaped() && j < |l| && l[j].offset == pe.offset
    ensures !Linked(Extended(l, link, pe), base)
  {
    hide Wrap, IsLink, Plain;
    var r := Extended(l, link, pe);
    assert r[j].offset == l[j].offset && r[|l|].offset == pe.offset;
  }

  lemma ExtendedSynced(l: seq<Pte>, disk: Disk, link: Partition, pe: Pte)
    requires AllShaped(l) && l != [] && pe.Shaped() && Synced(l, disk) && pe.changed
    ensures Synced(Extended(l, link, pe), disk)
  {
    hide Pte.SetExt;
    var r := Extended(l, link, pe);
    assert r[|l| - 1].changed && r[|l|] == pe;
    assert forall j :: 0 <= j < |l| - 1 ==> r[j] == l[j];
  }

  lemma ExtendedPlaces(l: seq<Pte>, link: Partition, pe: Pte)
    requires AllShaped(l) && l != [] && pe.Shaped() && pe.offset != 0 && forall j :: 0 <= j < |l| ==> l[j].offset != 0
    ensures forall j :: 0 <= j <= |l| ==> Extended(l, link, pe)[j].offset != 0
  {
    var r := Extended(l, link, pe);
    assert r[|l| - 1].offset == l[|l| - 1].offset;
  }

  /** What growing by a table sector does to a chain that holds partitions. */
  lemma {:induction false} Grown(l: seq<Pte>, base: SectorNo, link: Partition, pe: Pte, disk: Disk)
    requires AllShaped(l) && Linked(l, base) && Filled(l) && l[0].Part().sysInd != 0 && Synced(l, disk)
    requires forall j :: 0 <= j < |l| ==> l[j].offset != 0
    requires pe.Shaped() && Plain(pe) && pe.Ext().sysInd == 0 && IsData(pe.Part()) && pe.changed && pe.offset != 0
    requires IsLink(link) && pe.offset == Wrap(base + link.start)
    ensures Filled(Extended(l, link, pe)) && Synced(Extended(l, link, pe), disk)
    ensures forall j :: 0 <= j <= |l| ==> Extended(l, link, pe)[j].offset != 0
    ensures Logicals(Extended(l, link, pe)) == Logicals(l) + [pe.Absolute()] && Logicals(l) != []
    ensures Linked(Extended(l, link, pe), base) <==> forall j :: 0 <= j < |l| ==> l[j].offset != pe.offset
  {
    hide Extended, Linked, Filled, Synced, Logicals, IsLink, IsData, Wrap, Plain;
    LinkedPlain(l, base);
    ExtendedLogicals(l, base, link, pe);
    ExtendedSynced(l, disk, link, pe);
    ExtendedPlaces(l, link, pe);
    LogicalsSome(l);
    if forall j :: 0 <= j < |l| ==> l[j].offset != pe.offset {
      ExtendedLinked(l, base, link, pe);
    } else {
      var j :| 0 <= j < |l| && l[j].offset == pe.offset;
      ExtendedClash(l, base, link, pe, j);
    }
  }

  lemma {:induction false} LogicalsSome(l: seq<Pte>)
    requires AllShaped(l) && l != [] && l[0].Part().sysInd != 0
    ensures Logicals(l) != []
  {}
}

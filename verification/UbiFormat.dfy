/** Flashing a UBI image and formatting the rest of a device: ubiformat.c. */
module UbiFormat {
  import opened Division
  import opened Files
  import opened Flash
  import opened LayoutHeaders
  import opened UbiGen
  import opened UbiMedia
  import opened UbiScan
  import opened Wrappers

  const MAX_CONSECUTIVE_BAD_BLOCKS: nat := 4

  datatype Options = Options(yes: bool, overrideEc: bool, ec: nat)

  /** The erase counter that an eraseblock gets, from its entry in the table. */
  function ChooseEc(o: Options, e: nat, mean: nat): nat {
    if o.overrideEc then o.ec else if e <= EC_MAX then e + 1 else mean
  }

  function Chosen(o: Options, table: seq<nat>, mean: nat): (r: seq<nat>)
    ensures |r| == |table| && forall b :: 0 <= b < |table| ==> r[b] == ChooseEc(o, table[b], mean)
  {
    seq(|table|, b requires 0 <= b < |table| => ChooseEc(o, table[b], mean))
  }

  lemma EcRoom(o: Options, e: nat, mean: nat)
    requires o.ec < Room(8) && mean <= EC_MAX
    ensures ChooseEc(o, e, mean) < Room(8)
  {
    RoomOf();
  }

  // Buffers.

  /** change_ech. */
  method ChangeEch(buf: array<bv8>, imageSeq: nat, ec: nat) returns (err: int)
    requires buf.Length >= EC_HDR_SIZE && imageSeq < Room(4) && ec < Room(8)
    modifies buf
    ensures err == 0 || err == -1
    ensures err == 0 <==> GoodEcHdr(old(buf[..]))
    ensures buf[..] == if err == 0 then Restamp(old(buf[..]), imageSeq, ec) else old(buf[..])
  {
    hide Number, BigEndian, Crc32.Crc, Bytes4, Word4, Room, Splice;
    ghost var was := buf[..];
    if Number(buf[..4]) != EC_HDR_MAGIC {
      assert buf[..4] == was[..4];
      return -1;
    }
    var crc := Crc32.MtdCrc32(CRC32_INIT, buf[..EC_HDR_SIZE - 4]);
    HeaderParts(was);
    assert buf[..4] == was[..4] && buf[..EC_HDR_SIZE - 4] == was[..EC_HDR_SIZE - 4];
    assert buf[EC_HDR_SIZE - 4..EC_HDR_SIZE] == was[EC_HDR_SIZE - 4..EC_HDR_SIZE];
    if Word4(buf[EC_HDR_SIZE - 4..EC_HDR_SIZE]) != crc {
      return -1;
    }
    Store(buf, 24, BigEndian(4, imageSeq));
    Store(buf, 8, BigEndian(8, ec));
    ghost var t := buf[..];
    assert buf[..EC_HDR_SIZE - 4] == t[..EC_HDR_SIZE - 4];
    crc := Crc32.MtdCrc32(CRC32_INIT, buf[..EC_HDR_SIZE - 4]);
    Store(buf, EC_HDR_SIZE - 4, Bytes4(crc));
    return 0;
  }

  lemma HeaderParts(s: Bytes)
    requires |s| >= EC_HDR_SIZE
    ensures Sealed(s[..EC_HDR_SIZE]) <==>
      Word4(s[EC_HDR_SIZE - 4..EC_HDR_SIZE]) == Crc32.Crc(CRC32_INIT, s[..EC_HDR_SIZE - 4])
  {
    var h := s[..EC_HDR_SIZE];
    assert h[|h| - 4..] == s[EC_HDR_SIZE - 4..EC_HDR_SIZE] && h[..|h| - 4] == s[..EC_HDR_SIZE - 4];
  }

  /** drop_ffs: the least multiple of the unit that leaves nothing but erased bytes behind it. */
  method DropFfs(minIo: nat, buf: array<bv8>, len: nat) returns (n: nat)
    requires minIo > 0 && len <= buf.Length
    ensures n % minIo == 0 && IsBlank(buf[AtMost(n, len)..len])
    ensures forall m: nat :: m % minIo == 0 && IsBlank(buf[AtMost(m, len)..len]) ==> n <= m
    ensures len % minIo == 0 ==> n <= len
  {
    hide IsBlank;
    ghost var s := buf[..len];
    BlankEnd(s);
    var i: int := len - 1;
    while i >= 0 && buf[i] == ERASED
      invariant -1 <= i < len && IsBlank(s[i + 1..])
    {
      BlankStep(s, i);
      i := i - 1;
    }
    RoundUpLeast(i + 1, minIo);
    n := i + 1;
    n := (n + minIo - 1) / minIo;
    n := n * minIo;
    assert n == RoundUp(i + 1, minIo);
    forall m: nat | m % minIo == 0 && IsBlank(buf[AtMost(m, len)..len])
      ensures n <= m
    {
      assert s[AtMost(m, len)..] == buf[AtMost(m, len)..len];
      if i >= 0 {
        BlankBelow(s, i, AtMost(m, len));
      }
    }
    StillBlank(s, i + 1, AtMost(n, len));
    assert s[AtMost(n, len)..] == buf[AtMost(n, len)..len];
  }

  function AtMost(n: nat, len: nat): (r: nat)
    ensures r <= len
  {
    if n < len then n else len
  }

  lemma BlankEnd(s: Bytes)
    ensures IsBlank(s[|s|..])
  {}

  lemma BlankStep(s: Bytes, i: nat)
    requires i < |s| && s[i] == ERASED && IsBlank(s[i + 1..])
    ensures IsBlank(s[i..])
  {
    assert s[i..] == [s[i]] + s[i + 1..];
  }

  lemma StillBlank(s: Bytes, i: nat, n: nat)
    requires i <= n <= |s| && IsBlank(s[i..])
    ensures IsBlank(s[n..])
  {
    assert forall j :: 0 <= j < |s| - n ==> s[n..][j] == s[i..][n - i + j];
  }

  lemma BlankBelow(s: Bytes, i: nat, m: nat)
    requires i < |s| && s[i] != ERASED && m <= |s|
    ensures IsBlank(s[m..]) ==> i < m
  {
    if i >= m {
      assert s[m..][i - m] == s[i];
    }
  }

  /** Writing only the part before the trailing erased bytes stores the whole buffer in an erased block. */
  lemma WriteDropped(b: Block, s: Bytes, n: nat)
    requires b == Blank(|s|) && n <= |s| && IsBlank(s[n..])
    ensures Programmed(b, 0, s[..n]) == s
  {
    ProgrammedErased(b, 0, s[..n]);
    assert forall i :: n <= i < |s| ==> s[i] == s[n..][i - n];
  }

  // Runs of bad blocks.

  /** How many of the last marks were on consecutive blocks. */
  function TrailingRun(marks: seq<nat>): (r: nat)
    ensures r <= |marks|
  {
    if |marks| <= 1 then |marks|
    else if marks[|marks| - 1] == marks[|marks| - 2] + 1 then TrailingRun(marks[..|marks| - 1]) + 1
    else 1
  }

  lemma {:induction false} TrailingRunMore(marks: seq<nat>, eb: nat)
    ensures TrailingRun(marks + [eb])
      == if marks != [] && eb == marks[|marks| - 1] + 1 then TrailingRun(marks) + 1 else 1
    ensures marks != [] ==> TrailingRun(marks) >= 1
  {
    assert (marks + [eb])[..|marks|] == marks;
  }

  /** A run of k marks at the end: each is one behind the one before it. */
  lemma {:induction false} TrailingRunExactly(marks: seq<nat>, k: nat)
    requires k > 0
    ensures TrailingRun(marks) >= k
      <==> k <= |marks| && forall i :: |marks| - k < i < |marks| ==> marks[i] == marks[i - 1] + 1
    decreases |marks|
  {
    var n := |marks|;
    if n > 1 && k > 1 {
      var t := marks[..n - 1];
      TrailingRunExactly(t, k - 1);
      if marks[n - 1] == marks[n - 2] + 1 {
        assert k <= n && (forall i :: n - k < i < n ==> marks[i] == marks[i - 1] + 1)
          <==> k - 1 <= n - 1 && forall i :: n - k < i < n - 1 ==> t[i] == t[i - 1] + 1;
      } else if k <= n {
        assert marks[n - 1] != marks[n - 1 - 1] + 1;
      }
    }
  }

  lemma {:induction false} CountMarked(s: seq<nat>, b: nat)
    requires b < |s| && s[b] != EB_BAD
    ensures Count(s[b := EB_BAD], EB_BAD, EB_BAD) == Count(s, EB_BAD, EB_BAD) + 1
  {
    var n := |s| - 1;
    var t := s[b := EB_BAD];
    if b == n {
      assert t[..n] == s[..n];
    } else {
      CountMarked(s[..n], b);
      assert t[..n] == s[..n][b := EB_BAD];
    }
  }

  // Where the image ends up.

  /** A part of the image, but for the stamped fields of its header. */
  ghost predicate StoredFrom(b: Bytes, image: Bytes, offs: nat) {
    offs + |b| <= |image| && forall i :: 0 <= i < |b| && !Stamped(i) ==> b[i] == image[offs + i]
  }

  /** How many of the first n blocks are usable. */
  function Rank(bad: seq<bool>, n: nat): (r: nat)
    requires n <= |bad|
    ensures r <= n
  {
    if n == 0 then 0 else Rank(bad, n - 1) + if bad[n - 1] then 0 else 1
  }

  lemma {:induction false} RankSame(bad: seq<bool>, bad': seq<bool>, n: nat)
    requires n <= |bad| == |bad'| && bad[..n] == bad'[..n]
    ensures Rank(bad, n) == Rank(bad', n)
  {
    if n != 0 {
      assert bad[..n - 1] == bad[..n][..n - 1] && bad'[..n - 1] == bad'[..n][..n - 1];
      assert bad[n - 1] == bad[..n][n - 1] == bad'[..n][n - 1];
      RankSame(bad, bad', n - 1);
    }
  }

  lemma RankNext(bad: seq<bool>, n: nat)
    requires n < |bad|
    ensures Rank(bad, n + 1) == Rank(bad, n) + if bad[n] then 0 else 1
  {}

  function ImageOffset(k: nat, eb: nat): nat { k * eb }

  lemma ImageOffsets(k: nat, eb: nat)
    ensures ImageOffset(0, eb) == 0 && ImageOffset(k + 1, eb) == ImageOffset(k, eb) + eb
  {}

  lemma WholeImage(size: nat, k: nat, eb: nat)
    requires eb > 0 && size % eb == 0
    ensures ImageOffset(k, eb) <= size <==> k <= size / eb
    ensures ImageOffset(size / eb, eb) == size
  {
    DivIdentity(size, eb);
    MulOrder(size / eb, k, eb);
  }

  /** What is to be written: an image, in eraseblocks, stamped with a sequence number and counters. */
  datatype Plan = Plan(image: Bytes, eb: nat, imageSeq: nat, chosen: seq<nat>) {
    ghost predicate Fits() {
      eb >= EC_HDR_SIZE && imageSeq < Room(4) && forall b :: 0 <= b < |chosen| ==> chosen[b] < Room(8)
    }

    /** The k-th eraseblock of the image. */
    function Chunk(k: nat): (r: Bytes)
      requires ImageOffset(k, eb) + eb <= |image|
      ensures |r| == eb
    {
      image[ImageOffset(k, eb)..ImageOffset(k, eb) + eb]
    }

    /** A block that holds the k-th eraseblock of the image but for the stamp in its header. */
    ghost predicate Holds(b: Bytes, k: nat, ec: nat)
      requires Fits()
    {
      && ec < Room(8) && ImageOffset(k, eb) + eb <= |image|
      && GoodEcHdr(Chunk(k)) && b == Restamp(Chunk(k), imageSeq, ec)
    }

    /** The usable blocks below n hold the eraseblocks of the image, in order, each with its own counter. */
    ghost predicate Placed(blocks: seq<Block>, bad: seq<bool>, n: nat)
      requires Fits()
    {
      && n <= |blocks| == |bad| == |chosen|
      && forall b :: 0 <= b < n && !bad[b] ==> Holds(blocks[b], Rank(bad, b), chosen[b])
    }

    lemma {:induction false} PlacedSame(blocks: seq<Block>, bad: seq<bool>, blocks': seq<Block>, bad': seq<bool>,
                                        n: nat)
      requires Fits() && Placed(blocks, bad, n) && n <= |blocks| == |bad| == |blocks'| == |bad'|
      requires forall b :: 0 <= b < n ==> blocks'[b] == blocks[b] && bad'[b] == bad[b]
      ensures Placed(blocks', bad', n) && Rank(bad', n) == Rank(bad, n)
    {
      hide Holds, Rank, Fits;
      forall b | 0 <= b <= n
        ensures Rank(bad', b) == Rank(bad, b)
      {
        assert bad[..b] == bad'[..b];
        RankSame(bad, bad', b);
      }
    }

    lemma PlacedMore(blocks: seq<Block>, bad: seq<bool>, blocks': seq<Block>, bad': seq<bool>, n: nat)
      requires Fits() && Placed(blocks, bad, n) && n < |blocks| == |blocks'| == |bad'|
      requires forall b :: 0 <= b < n ==> blocks'[b] == blocks[b] && bad'[b] == bad[b]
      requires bad'[n] || Holds(blocks'[n], Rank(bad, n), chosen[n])
      ensures Placed(blocks', bad', n + 1)
      ensures Rank(bad', n + 1) == Rank(bad, n) + if bad'[n] then 0 else 1
    {
      hide Holds, Rank, Fits;
      PlacedSame(blocks, bad, blocks', bad', n);
      RankNext(bad', n);
    }

    /** An eraseblock of the image carries the counter that was chosen. */
    lemma {:induction false} PlacedCounter(blocks: seq<Block>, bad: seq<bool>, n: nat, b: nat)
      requires Fits() && Placed(blocks, bad, n) && b < n <= |bad| && !bad[b]
      ensures b < |blocks| == |chosen| && GoodEcHdr(blocks[b]) && Counter(blocks[b]) == chosen[b]
      ensures ImageSeq(blocks[b]) == imageSeq && StoredFrom(blocks[b], image, ImageOffset(Rank(bad, b), eb))
    {
      hide GoodEcHdr, Counter, Room, Restamp, Rank;
      RestampKeeps(Chunk(Rank(bad, b)), imageSeq, chosen[b]);
    }

    /** A buffer that is stamped once more still holds its eraseblock of the image. */
    lemma StampAgain(b: Bytes, k: nat, ec: nat, ec': nat)
      requires Fits() && Holds(b, k, ec) && ec' < Room(8)
      ensures |b| == eb && GoodEcHdr(b)
      ensures Holds(Restamp(b, imageSeq, ec'), k, ec')
    {
      hide GoodEcHdr, Room, Restamp;
      RestampKeeps(Chunk(k), imageSeq, ec);
      RestampTwice(Chunk(k), imageSeq, ec, imageSeq, ec');
    }

    /** How far flash_image has come when it is about to look at an eraseblock. */
    ghost predicate Reached(s: Stage, o: Options, mean: nat, n: nat)
      requires Fits()
    {
      && Placed(s.blocks, s.bad, n)
      && s.written == Rank(s.bad, n)
      && s.pos == ImageOffset(s.written + if s.skip then 1 else 0, eb)
      && (s.skip ==> Holds(s.buf, s.written, s.stamp))
      && |s.table| == |chosen|
      && forall b :: n <= b < |chosen| ==> chosen[b] == ChooseEc(o, s.table[b], mean)
    }

    lemma ReachedStart(s: Stage, o: Options, mean: nat)
      requires Fits() && chosen == Chosen(o, s.table, mean) && |s.blocks| == |s.bad| == |s.table|
      requires s.written == s.pos == 0 && !s.skip
      ensures Reached(s, o, mean, 0)
    {}

    /** An eraseblock that is bad, or turns out to be, does not count. */
    lemma PassOver(s: Stage, t: Stage, o: Options, mean: nat, n: nat)
      requires Fits() && Reached(s, o, mean, n) && n < |s.bad|
      requires OnlyAt(n, s, t) && t.bad[n]
      requires t.pos == s.pos && t.buf == s.buf && t.skip == s.skip && t.written == s.written && t.stamp == s.stamp
      ensures Reached(t, o, mean, n + 1)
    {
      hide Holds, Placed, Rank, ChooseEc, Fits;
      PlacedParts(s, n);
      PlacedMore(s.blocks, s.bad, t.blocks, t.bad, n);
    }

    /** What the eraseblock to be written contains does not matter. */
    lemma Erased(s: Stage, t: Stage, o: Options, mean: nat, n: nat)
      requires Fits() && Reached(s, o, mean, n) && OnlyAt(n, s, t) && t.bad == s.bad && t.table == s.table
      requires t.pos == s.pos && t.buf == s.buf && t.skip == s.skip && t.written == s.written && t.stamp == s.stamp
      ensures Reached(t, o, mean, n)
    {
      hide Holds, Rank, ChooseEc, Fits;
    }

    lemma ReachedChoice(s: Stage, o: Options, mean: nat, n: nat)
      requires Fits() && Reached(s, o, mean, n) && n < |s.table|
      ensures n < |chosen| && chosen[n] == ChooseEc(o, s.table[n], mean)
      ensures !s.skip ==> s.pos == ImageOffset(s.written, eb)
    {}

    lemma {:induction false} ReachedParts(s: Stage, o: Options, mean: nat, n: nat)
      requires Fits() && Reached(s, o, mean, n)
      ensures Placed(s.blocks, s.bad, n) && s.written == Rank(s.bad, n)
    {}

    lemma PlacedParts(s: Stage, n: nat)
      requires Fits() && Placed(s.blocks, s.bad, n)
      ensures n <= |s.blocks| == |s.bad| == |chosen|
    {}

    /** An eraseblock read from the image and stamped is one that still has to be written. */
    lemma Load(s: Stage, o: Options, mean: nat, n: nat, raw: Bytes, ec: nat)
      requires Fits() && Reached(s, o, mean, n) && !s.skip && ec < Room(8)
      requires s.pos + eb <= |image| && raw == image[s.pos..s.pos + eb] && GoodEcHdr(raw)
      ensures |raw| == eb
      ensures Reached(s.(pos := s.pos + eb, buf := Restamp(raw, imageSeq, ec), skip := true, stamp := ec), o, mean, n)
    {
      hide GoodEcHdr, Placed, Room, Rank, Restamp;
      ImageOffsets(s.written, eb);
    }

    lemma Reload(s: Stage, o: Options, mean: nat, n: nat, ec: nat)
      requires Fits() && Reached(s, o, mean, n) && s.skip && ec < Room(8)
      ensures |s.buf| == eb && GoodEcHdr(s.buf)
      ensures Reached(s.(buf := Restamp(s.buf, imageSeq, ec), stamp := ec), o, mean, n)
    {
      hide GoodEcHdr, Holds, Placed, Room, Rank, Restamp, Fits;
      StampAgain(s.buf, s.written, s.stamp, ec);
    }

    /** The buffer has reached the device. */
    lemma StoreBuffer(s: Stage, t: Stage, o: Options, mean: nat, n: nat)
      requires Fits() && Reached(s, o, mean, n) && s.skip && n < |s.bad| && s.stamp == chosen[n]
      requires OnlyAt(n, s, t) && !t.bad[n] && t.blocks[n] == s.buf && t.table == s.table
      requires t.pos == s.pos && !t.skip && t.written == s.written + 1
      ensures Reached(t, o, mean, n + 1)
    {
      hide Holds, Placed, Rank, ChooseEc, Fits;
      PlacedParts(s, n);
      PlacedMore(s.blocks, s.bad, t.blocks, t.bad, n);
    }

    /** Once everything is written: nothing of the image is left. */
    lemma ReachedBound(s: Stage, o: Options, mean: nat, n: nat)
      requires Fits() && Reached(s, o, mean, n) && |image| % eb == 0 && s.pos <= |image|
      ensures s.written <= |image| / eb
      ensures s.skip ==> s.written < |image| / eb
    {
      hide Holds, Placed, Rank, ChooseEc;
      WholeImage(|image|, s.written + if s.skip then 1 else 0, eb);
    }
  }

  /** The variables of flash_image: the device, the table, the input and the buffer. */
  datatype Stage = Stage(blocks: seq<Block>, bad: seq<bool>, table: seq<nat>, pos: nat, buf: Bytes, skip: bool,
                         written: nat, stamp: nat)

  /** Only one eraseblock and its entry differ. */
  ghost predicate OnlyAt(n: nat, s: Stage, t: Stage) {
    && |t.blocks| == |s.blocks| && |t.bad| == |s.bad| && |t.table| == |s.table|
    && n < |s.blocks| == |s.bad| == |s.table|
    && forall b :: 0 <= b < |s.bad| && b != n ==>
        t.blocks[b] == s.blocks[b] && t.bad[b] == s.bad[b] && t.table[b] == s.table[b]
  }

  // What format leaves behind.

  lemma AllBlank(s: Bytes)
    requires forall i :: 0 <= i < |s| ==> s[i] == ERASED
    ensures IsBlank(s)
  {}

  lemma HeaderWritten(eb: nat, hdr: Bytes, h: Bytes)
    requires |h| <= |hdr| <= eb && hdr[..|h|] == h && IsBlank(hdr[|h|..])
    ensures Programmed(Blank(eb), 0, hdr) == h + Blank(eb - |h|)
  {
    ProgrammedErased(Blank(eb), 0, hdr);
    assert hdr == h + hdr[|h|..];
  }

  /** There are two usable eraseblocks from some point on. */
  ghost predicate Pair(bad: seq<bool>, from: nat) {
    exists a, b :: from <= a < b < |bad| && !bad[a] && !bad[b]
  }

  /** The first usable eraseblock from some point on. */
  function FirstGood(bad: seq<bool>, from: nat): nat
    decreases |bad| - from
  {
    if from >= |bad| || !bad[from] then from else FirstGood(bad, from + 1)
  }

  lemma {:induction false} FirstGoodIs(bad: seq<bool>, from: nat, k: nat)
    requires from <= k < |bad| && !bad[k] && forall b :: from <= b < k ==> bad[b]
    ensures FirstGood(bad, from) == k
    decreases k - from
  {
    if from < k {
      FirstGoodIs(bad, from + 1, k);
    }
  }

  /** A formatted device in the making: the parameters and how far it has come. */
  datatype Formatting = Formatting(g: Geometry, eb: nat, chosen: seq<nat>, start: nat, novtbl: bool) {
    ghost predicate Fits() {
      g.Fits() && eb >= EC_HDR_SIZE && forall b :: 0 <= b < |chosen| ==> chosen[b] < Room(8)
    }

    /** An eraseblock with nothing but an erase counter header. */
    ghost predicate Headed(b: Block, ec: nat)
      requires Fits()
    {
      ec < Room(8) && b == EcHdr(g, ec) + Blank(eb - EC_HDR_SIZE)
    }

    lemma HeadedStarts(b: Block, ec: nat)
      requires Fits() && Headed(b, ec)
      ensures ec < Room(8) && |b| >= EC_HDR_SIZE && b[..EC_HDR_SIZE] == EcHdr(g, ec)
    {
      hide EcHdr;
    }

    /** From the start, all usable eraseblocks but the reserved ones have their headers. */
    ghost predicate Done(blocks: seq<Block>, bad: seq<bool>, n: nat, eb1: int, eb2: int)
      requires Fits()
    {
      && n <= |blocks| == |bad| == |chosen|
      && forall b :: start <= b < n && !bad[b] && b != eb1 && b != eb2 ==> Headed(blocks[b], chosen[b])
    }

    /** The first usable eraseblocks are reserved, unless no volume table is wanted. */
    ghost predicate Reserved(blocks: seq<Block>, bad: seq<bool>, n: nat, eb1: int, eb2: int) {
      && n <= |blocks| == |bad| == |chosen|
      && (novtbl ==> eb1 == eb2 == -1)
      && (eb1 == -1 ==> eb2 == -1)
      && (eb1 != -1 ==> start <= eb1 < n && !bad[eb1] && blocks[eb1] == Blank(eb))
      && (eb2 != -1 ==> eb1 < eb2 < n && !bad[eb2] && blocks[eb2] == Blank(eb))
      && (!novtbl ==> forall b :: start <= b < (if eb2 != -1 then eb2 else n) && b != eb1 ==> bad[b])
    }

    /**
     * What format promises: every usable eraseblock from the start on has its header, except that the two
     * lowest ones hold the layout volume when there is one.
     */
    ghost predicate Finished(blocks: seq<Block>, bad: seq<bool>, ui: UbigenInfo)
      requires Fits() && ui.Usable() && ui.Fits() && 1 < Room(4)
    {
      && |blocks| == |bad| == |chosen|
      && if novtbl then Done(blocks, bad, |bad|, -1, -1) else
          var eb1 := FirstGood(bad, start);
          var eb2 := FirstGood(bad, eb1 + 1);
          && start <= eb1 < eb2 < |bad| && !bad[eb1] && !bad[eb2]
          && Done(blocks, bad, |bad|, eb1, eb2)
          && chosen[eb1] < Room(8) && blocks[eb1] == LayoutBlock(ui, Records(ui.maxVolumes), chosen[eb1], 0)
          && chosen[eb2] < Room(8) && blocks[eb2] == LayoutBlock(ui, Records(ui.maxVolumes), chosen[eb2], 1)
    }

    /** With two eraseblocks reserved there is such a pair, and otherwise there is none. */
    lemma PairReserved(blocks: seq<Block>, bad: seq<bool>, eb1: int, eb2: int)
      requires Reserved(blocks, bad, |bad|, eb1, eb2) && !novtbl
      ensures Pair(bad, start) <==> eb1 != -1 && eb2 != -1
    {}

    /** An eraseblock whose header a layout volume has not spoilt. */
    ghost predicate Readable(bad: seq<bool>, ui: UbigenInfo, b: nat)
      requires Fits() && ui.Usable() && ui.Fits() && 1 < Room(4)
    {
      var eb1 := FirstGood(bad, start);
      && (!novtbl && b == eb1 ==> b < |chosen| && LayoutHeaderGood(ui, chosen[b], 0))
      && (!novtbl && b == FirstGood(bad, eb1 + 1) ==> b < |chosen| && LayoutHeaderGood(ui, chosen[b], 1))
    }

    lemma {:induction false} FinishedHeader(blocks: seq<Block>, bad: seq<bool>, ui: UbigenInfo, b: nat)
      requires Fits() && ui.Usable() && ui.Fits() && 1 < Room(4) && Finished(blocks, bad, ui)
      requires g == ui.Geometry() && start <= b < |blocks| && b < |bad| && !bad[b] && Readable(bad, ui, b)
      ensures |bad| == |chosen| && ReadsAs(blocks[b], g, chosen[b])
    {
      hide Room, EcHdr, LayoutBlock, Records, FirstGood, UbigenInfo.Usable, UbigenInfo.Fits, Headed, LayoutHeaderGood;
      hide ReadsAs;
      var eb1 := FirstGood(bad, start);
      if !novtbl && b == eb1 {
        LayoutReads(ui, chosen[b], 0);
      } else if !novtbl && b == FirstGood(bad, eb1 + 1) {
        LayoutReads(ui, chosen[b], 1);
      } else {
        HeadedStarts(blocks[b], chosen[b]);
        BuiltReads(blocks[b], g, chosen[b]);
      }
    }

    lemma FinishedCounters(blocks: seq<Block>, bad: seq<bool>, ui: UbigenInfo)
      requires Fits() && ui.Usable() && ui.Fits() && 1 < Room(4) && Finished(blocks, bad, ui) && g == ui.Geometry()
      ensures |blocks| == |bad| == |chosen|
      ensures forall b :: start <= b < |bad| && !bad[b] && Readable(bad, ui, b) ==>
        && GoodEcHdr(blocks[b]) && Counter(blocks[b]) == chosen[b]
        && VidHdrOffset(blocks[b]) == ui.vidHdrOffs && DataOffset(blocks[b]) == ui.dataOffs
    {
      hide Readable, Room, FirstGood, UbigenInfo.Usable, UbigenInfo.Fits, Headed, Sealed, Number, LayoutBlock, Records;
      forall b | start <= b < |bad| && !bad[b] && Readable(bad, ui, b)
        ensures GoodEcHdr(blocks[b]) && Counter(blocks[b]) == chosen[b]
        ensures VidHdrOffset(blocks[b]) == ui.vidHdrOffs && DataOffset(blocks[b]) == ui.dataOffs
      {
        FinishedHeader(blocks, bad, ui, b);
      }
    }

    lemma HeadersOf(blocks: seq<Block>, bad: seq<bool>, ui: UbigenInfo, job: Formatting)
      requires Fits() && ui.Usable() && ui.Fits() && 1 < Room(4) && novtbl && Finished(blocks, bad, ui)
      requires job.Fits() && job.g == g && job.eb == eb
      ensures |blocks| == |bad| == |chosen|
      ensures forall b :: start <= b < |bad| && !bad[b] ==> job.Headed(blocks[b], chosen[b])
    {
      hide Room, Fits, EcHdr;
    }

    lemma FinishedWithout(blocks: seq<Block>, bad: seq<bool>, ui: UbigenInfo, eb1: int, eb2: int)
      requires Fits() && ui.Usable() && ui.Fits() && 1 < Room(4) && novtbl
      requires Done(blocks, bad, |bad|, eb1, eb2) && Reserved(blocks, bad, |bad|, eb1, eb2)
      ensures Finished(blocks, bad, ui)
    {}

    lemma FinishedWith(blocks: seq<Block>, bad: seq<bool>, ui: UbigenInfo, eb1: int, eb2: int, blocks': seq<Block>)
      requires Fits() && ui.Usable() && ui.Fits() && 1 < Room(4) && !novtbl && eb1 != -1 && eb2 != -1
      requires Done(blocks, bad, |bad|, eb1, eb2) && Reserved(blocks, bad, |bad|, eb1, eb2)
      requires chosen[eb1] < Room(8) && chosen[eb2] < Room(8) && |Records(ui.maxVolumes)| == ui.vtblSize
      requires blocks' == blocks[eb1 := LayoutBlock(ui, Records(ui.maxVolumes), chosen[eb1], 0)]
        [eb2 := LayoutBlock(ui, Records(ui.maxVolumes), chosen[eb2], 1)]
      ensures Finished(blocks', bad, ui)
    {
      hide Headed, Fits, LayoutBlock, Records, Room, UbigenInfo.Fits, UbigenInfo.Usable;
      FirstGoodIs(bad, start, eb1);
      FirstGoodIs(bad, eb1 + 1, eb2);
    }

    predicate Pending(eb1: int, eb2: int) {
      (eb1 == -1 || eb2 == -1) && !novtbl
    }

    ghost predicate Only(n: nat, blocks: seq<Block>, bad: seq<bool>, blocks': seq<Block>, bad': seq<bool>) {
      && n < |blocks| == |bad| == |chosen| && |blocks'| == |bad'| == |chosen|
      && forall b :: 0 <= b < |chosen| && b != n ==> blocks'[b] == blocks[b] && bad'[b] == bad[b]
    }

    lemma ReservedParts(blocks: seq<Block>, bad: seq<bool>, n: nat, eb1: int, eb2: int)
      requires Reserved(blocks, bad, n, eb1, eb2) && eb1 != -1 && eb2 != -1
      ensures start <= eb1 < eb2 < |blocks| && blocks[eb1] == blocks[eb2] == Blank(eb)
    {}

    lemma Start(blocks: seq<Block>, bad: seq<bool>)
      requires Fits() && |blocks| == |bad| == |chosen|
      ensures var n := if start <= |bad| then start else |bad|;
        Done(blocks, bad, n, -1, -1) && Reserved(blocks, bad, n, -1, -1)
    {}

    /** An eraseblock that is bad, or has got its header. */
    lemma HeaderNext(blocks: seq<Block>, bad: seq<bool>, blocks': seq<Block>, bad': seq<bool>, n: nat,
                     eb1: int, eb2: int)
      requires Fits() && Done(blocks, bad, n, eb1, eb2) && Reserved(blocks, bad, n, eb1, eb2)
      requires Only(n, blocks, bad, blocks', bad') && start <= n
      requires bad'[n] || (!Pending(eb1, eb2) && Headed(blocks'[n], chosen[n]))
      ensures Done(blocks', bad', n + 1, eb1, eb2) && Reserved(blocks', bad', n + 1, eb1, eb2)
    {
      hide Headed, Fits;
    }

    /** An eraseblock that is kept for the volume table. */
    lemma ReserveNext(blocks: seq<Block>, bad: seq<bool>, blocks': seq<Block>, bad': seq<bool>, n: nat,
                      eb1: int, eb2: int)
      requires Fits() && Done(blocks, bad, n, eb1, eb2) && Reserved(blocks, bad, n, eb1, eb2)
      requires Only(n, blocks, bad, blocks', bad') && start <= n && Pending(eb1, eb2)
      requires !bad'[n] && blocks'[n] == Blank(eb)
      ensures var one, two := if eb1 == -1 then n else eb1, if eb1 == -1 then eb2 else n;
        Done(blocks', bad', n + 1, one, two) && Reserved(blocks', bad', n + 1, one, two)
    {
      hide Headed, Fits;
    }
  }

  /** A device that was formatted from its first eraseblock on. */
  ghost predicate FormattedDevice(job: Formatting, blocks: seq<Block>, bad: seq<bool>, ui: UbigenInfo) {
    && job.Fits() && ui.Usable() && ui.Fits() && 1 < Room(4)
    && job.start == 0 && job.g == ui.Geometry() && job.eb == ui.pebSize
    && job.Finished(blocks, bad, ui) && |blocks| == |bad| == |job.chosen|
    && forall b :: 0 <= b < |blocks| ==> |blocks[b]| == job.eb
  }

  /** The layout volume does not keep its eraseblocks from being found. */
  ghost predicate TableReadable(job: Formatting, bad: seq<bool>, ui: UbigenInfo)
    requires job.Fits() && ui.Usable() && ui.Fits() && 1 < Room(4)
  {
    job.novtbl ||
    var eb1 := FirstGood(bad, job.start);
    var eb2 := FirstGood(bad, eb1 + 1);
    && eb1 < |job.chosen| && LayoutHeaderGood(ui, job.chosen[eb1], 0)
    && eb2 < |job.chosen| && LayoutHeaderGood(ui, job.chosen[eb2], 1)
  }

  /** It does not when the headers are apart, as they are for all offsets from 64 on. */
  lemma TableApart(job: Formatting, blocks: seq<Block>, bad: seq<bool>, ui: UbigenInfo)
    requires FormattedDevice(job, blocks, bad, ui) && ui.vidHdrOffs >= EC_HDR_SIZE
    ensures TableReadable(job, bad, ui)
  {
    hide Room, EcHdr, LayoutBlock, Records, FirstGood, LayoutHeaderGood, UbigenInfo.Usable, UbigenInfo.Fits;
    if !job.novtbl {
      var eb1 := FirstGood(bad, job.start);
      LayoutApart(ui, job.chosen[eb1], 0);
      LayoutApart(ui, job.chosen[FirstGood(bad, eb1 + 1)], 1);
    }
  }

  lemma {:induction false} StartsWithHeader(job: Formatting, blocks: seq<Block>, bad: seq<bool>, ui: UbigenInfo, b: nat)
    requires FormattedDevice(job, blocks, bad, ui) && b < |blocks| == |bad| == |job.chosen| && !bad[b]
    requires TableReadable(job, bad, ui)
      || (b != FirstGood(bad, job.start) && b != FirstGood(bad, FirstGood(bad, job.start) + 1))
    ensures job.g.Fits() && ReadsAs(blocks[b], job.g, job.chosen[b])
  {
    hide Room, FirstGood, UbigenInfo.Usable, UbigenInfo.Fits, LayoutHeaderGood, ReadsAs, Formatting.Finished;
    job.FinishedHeader(blocks, bad, ui, b);
  }

  lemma FormattedHeaders(job: Formatting, blocks: seq<Block>, bad: seq<bool>, ui: UbigenInfo)
    requires FormattedDevice(job, blocks, bad, ui) && TableReadable(job, bad, ui)
    ensures Formatted(blocks, bad, job.g, job.chosen)
  {
    hide Room, EcHdr, Formatting.Finished, TableReadable, ReadsAs;
    forall b | 0 <= b < |blocks| && !bad[b]
      ensures ReadsAs(blocks[b], job.g, job.chosen[b])
    {
      StartsWithHeader(job, blocks, bad, ui, b);
    }
  }

  /** A scan that finds everything has read valid headers in the layout blocks. */
  lemma {:induction false} FoundReadable(job: Formatting, blocks: seq<Block>, bad: seq<bool>, ui: UbigenInfo, f: Found,
                                         b: nat, lnum: nat)
    requires job.Fits() && ui.Usable() && ui.Fits() && job.g == ui.Geometry() && ui.pebSize < 0x8000_0000
    requires |blocks| == |bad| && |job.chosen| == |bad| && b < |bad| && !bad[b] && lnum < 2 && 1 < Room(4)
    requires job.chosen[b] <= EC_MAX && job.chosen[b] < Room(8) && |Records(ui.maxVolumes)| == ui.vtblSize
    requires blocks[b] == LayoutBlock(ui, Records(ui.maxVolumes), job.chosen[b], lnum)
    requires Faithful(f, blocks, bad, |bad|) && Recovered(f, bad, job.g, job.chosen, |bad|)
    ensures LayoutHeaderGood(ui, job.chosen[b], lnum)
  {
    hide Room, LayoutBlock, Records, GoodEcHdr, VidHdrOffset, DataOffset, Counter, LayoutHeaderGood, Agrees;
    hide UbigenInfo.Usable, UbigenInfo.Fits;
    assert f.ec[b] == job.chosen[b];
    FoundGood(ui, job.chosen[b], lnum, f);
  }

  /**
   * A scan after formatting a whole device finds every usable eraseblock in order, with exactly the counter that was
   * chosen for it, if and only if no chosen counter exceeds the largest one and the volume headers have left the
   * headers of the layout blocks valid.
   */
  lemma {:induction false} FormatThenScan(job: Formatting, blocks: seq<Block>, bad: seq<bool>, ui: UbigenInfo)
    requires FormattedDevice(job, blocks, bad, ui)
    requires ui.pebSize < 0x8000_0000 && ui.minIoSize > 0 && |blocks| == |bad| && |job.chosen| == |bad|
    ensures var r := Scan(blocks, bad, ui.minIoSize, |blocks|);
      && (TableReadable(job, bad, ui) ==> (r.Some? <==> Countable(bad, job.chosen, |blocks|)))
      && (TableReadable(job, bad, ui) && r.Some? ==> Recovered(r.value, bad, job.g, job.chosen, |blocks|))
      && (Countable(bad, job.chosen, |blocks|) ==>
          (r.Some? && Recovered(r.value, bad, job.g, job.chosen, |blocks|) <==> TableReadable(job, bad, ui)))
  {
    hide Room, EcHdr, LayoutBlock, Records, FirstGood, TableReadable, Recovered, Faithful, Formatting.Headed;
    hide LayoutHeaderGood, Scan;
    var r := Scan(blocks, bad, ui.minIoSize, |blocks|);
    if TableReadable(job, bad, ui) {
      FormattedHeaders(job, blocks, bad, ui);
      ScanFormatted(blocks, bad, ui.minIoSize, job.g, job.chosen, |blocks|);
    } else if Countable(bad, job.chosen, |blocks|) && r.Some? && Recovered(r.value, bad, job.g, job.chosen, |blocks|) {
      ScanFaithful(blocks, bad, ui.minIoSize, |blocks|);
      FoundTable(job, blocks, bad, ui, r.value);
    }
  }

  lemma {:induction false} FoundTable(job: Formatting, blocks: seq<Block>, bad: seq<bool>, ui: UbigenInfo, f: Found)
    requires FormattedDevice(job, blocks, bad, ui) && ui.pebSize < 0x8000_0000 && |blocks| == |bad|
    requires |job.chosen| == |bad| && Countable(bad, job.chosen, |bad|)
    requires Faithful(f, blocks, bad, |bad|) && Recovered(f, bad, job.g, job.chosen, |bad|)
    ensures TableReadable(job, bad, ui)
  {
    hide Room, EcHdr, LayoutBlock, Records, FirstGood, Recovered, Faithful, LayoutHeaderGood, UbigenInfo.Usable;
    hide UbigenInfo.Fits;
    if !job.novtbl {
      var eb1 := FirstGood(bad, job.start);
      var eb2 := FirstGood(bad, eb1 + 1);
      TableSize(ui);
      FoundReadable(job, blocks, bad, ui, f, eb1, 0);
      FoundReadable(job, blocks, bad, ui, f, eb2, 1);
    }
  }

  /**
   * The layout blocks are never both found when the volume header starts in front of the data offset, nor up to the
   * offset 48 when both have the same counter, as they have on a device that was blank.
   */
  lemma {:induction false} OverlapNeverFound(job: Formatting, blocks: seq<Block>, bad: seq<bool>, ui: UbigenInfo)
    requires FormattedDevice(job, blocks, bad, ui) && !job.novtbl
    requires ui.pebSize < 0x8000_0000 && ui.minIoSize > 0 && |blocks| == |bad| && |job.chosen| == |bad|
    requires Countable(bad, job.chosen, |blocks|)
    requires
      var eb1 := FirstGood(bad, job.start);
      var eb2 := FirstGood(bad, eb1 + 1);
      ui.vidHdrOffs < 20
      || (ui.vidHdrOffs <= 48 && eb1 < |bad| && eb2 < |bad| && job.chosen[eb1] == job.chosen[eb2])
    ensures var r := Scan(blocks, bad, ui.minIoSize, |blocks|);
      r.Some? ==> !Recovered(r.value, bad, job.g, job.chosen, |blocks|)
  {
    hide Room, EcHdr, Written, Records, FirstGood, Recovered, Scan, Countable, Formatting.Finished;
    FormatThenScan(job, blocks, bad, ui);
    var eb1 := FirstGood(bad, job.start);
    if eb1 < |bad| && ui.vidHdrOffs >= 20 {
      SameCounter(ui, job.chosen[eb1]);
    }
  }

  /** One eraseblock with the largest counter is enough to make the device unreadable for the next scan. */
  lemma {:induction false} CounterOverflow(job: Formatting, blocks: seq<Block>, bad: seq<bool>, ui: UbigenInfo,
                                           o: Options, table: seq<nat>, mean: nat, b: nat)
    requires FormattedDevice(job, blocks, bad, ui) && |blocks| == |bad| && ui.minIoSize > 0
    requires |table| == |bad| && job.chosen == Chosen(o, table, mean)
    requires b < |bad| && !bad[b] && !o.overrideEc && table[b] == EC_MAX
    requires TableReadable(job, bad, ui)
      || (b != FirstGood(bad, job.start) && b != FirstGood(bad, FirstGood(bad, job.start) + 1))
    ensures Scan(blocks, bad, ui.minIoSize, |blocks|) == None
  {
    hide Room, FormattedDevice, Scan, TableReadable, FirstGood, GoodEcHdr, VidHdrOffset, DataOffset, Counter;
    SameSizes(job, blocks, bad, ui);
    StartsWithHeader(job, blocks, bad, ui, b);
    assert job.chosen[b] > EC_MAX;
    LargeCounter(blocks, bad, ui.minIoSize, b, |blocks|);
  }

  lemma SameSizes(job: Formatting, blocks: seq<Block>, bad: seq<bool>, ui: UbigenInfo)
    requires FormattedDevice(job, blocks, bad, ui)
    ensures |blocks| == |bad| == |job.chosen|
  {}

  // What makes the program give up.

  /** What has gone wrong so far: refused operations, refusals by the user, and the eraseblocks that were marked. */
  datatype History = History(faults: seq<Fault>, refusals: nat, marks: seq<nat>) {
    ghost predicate Before(c: History) {
      faults <= c.faults && refusals <= c.refusals && marks <= c.marks
    }

    /** Something that ends the program: a failure, a refusal, or four marks in a row. */
    ghost predicate Trouble(c: History, marking: bool) {
      || Fatal(faults, c.faults, marking) || c.refusals > refusals
      || (c.marks != marks && TrailingRun(c.marks) >= MAX_CONSECUTIVE_BAD_BLOCKS)
    }

    lemma NoTrouble(marking: bool)
      ensures Before(this) && !Trouble(this, marking)
    {
      NothingNew(faults, marking);
    }

    lemma Later(b: History, c: History, marking: bool)
      requires Before(b) && b.Before(c) && !Trouble(b, marking)
      ensures Before(c) && (Trouble(c, marking) <==> b.Trouble(c, marking))
    {
      hide Fatal, TrailingRun;
      FatalParts(faults, b.faults, c.faults, marking);
      assert c.marks == marks ==> b.marks == marks;
    }

    /** A refused operation. */
    lemma Failed(f: Fault, marking: bool)
      ensures var c := this.(faults := faults + [f]);
        Before(c) && (Trouble(c, marking) <==> Stops(f, marking))
    {
      hide Fatal;
      OneMore(faults, f, marking);
    }
  }

  class Formatter {
    const dev: Device
    const ui: UbigenInfo
    const si: ScanInfo
    const opts: Options
    // The static variables of consecutive_bad_check.
    var consecutive: nat
    var prev: int
    ghost var marks: seq<nat>
    // How often the user did not want an eraseblock to be marked.
    ghost var refusals: nat

    ghost function Log(): History
      reads this`refusals, this`marks, dev`faults
    {
      History(dev.faults, refusals, marks)
    }

    ghost predicate Wired()
      reads this`consecutive, this`prev, this`marks
    {
      && consecutive == (if marks == [] then 1 else TrailingRun(marks))
      && prev == (if marks == [] then -1 else marks[|marks| - 1])
    }

    ghost predicate Valid()
      reads this, dev`blocks, dev`bad, si, si.ec
    {
      && Wired()
      && dev.Valid() && EC_HDR_SIZE <= dev.ebSize
      && ui.Usable() && ui.Fits() && ui.pebSize == dev.ebSize
      && si.ec.Length == dev.ebCnt
      && si.badCnt == Count(si.ec[..], EB_BAD, EB_BAD)
      && (forall b :: 0 <= b < dev.ebCnt ==> (si.ec[b] == EB_BAD <==> dev.bad[b]))
      && si.meanEc <= EC_MAX && opts.ec < Room(8)
    }

    /** After a scan of the device. */
    constructor (dev: Device, ui: UbigenInfo, si: ScanInfo, opts: Options)
      requires dev.Valid() && EC_HDR_SIZE <= dev.ebSize
      requires ui.Usable() && ui.Fits() && ui.pebSize == dev.ebSize && opts.ec < Room(8)
      requires si.Summary(dev) && Faithful(si.View(dev.ebCnt), dev.blocks, dev.bad, dev.ebCnt)
      ensures Valid() && marks == []
      ensures this.dev == dev && this.ui == ui && this.si == si && this.opts == opts
    {
      hide Count, Sum, Room, UbigenInfo.Usable, UbigenInfo.Fits;
      this.dev, this.ui, this.si, this.opts := dev, ui, si, opts;
      consecutive, prev, marks, refusals := 1, -1, [], 0;
      assert si.ec[..si.ec.Length] == si.ec[..];
      if si.okCnt != 0 {
        MeanBetween(si.ec[..], 0, EC_MAX);
      }
    }

    /** consecutive_bad_check. */
    method ConsecutiveBadCheck(eb: nat) returns (ret: int)
      requires Wired()
      modifies this
      ensures Wired() && marks == old(marks) + [eb] && refusals == old(refusals)
      ensures ret == if TrailingRun(marks) >= MAX_CONSECUTIVE_BAD_BLOCKS then -1 else 0
    {
      hide TrailingRun;
      TrailingRunMore(marks, eb);
      if prev == -1 {
        prev := eb;
      }
      if eb == prev + 1 {
        consecutive := consecutive + 1;
      } else {
        consecutive := 1;
      }
      prev := eb;
      marks := marks + [eb];
      return if consecutive >= MAX_CONSECUTIVE_BAD_BLOCKS then -1 else 0;
    }

    /** mark_bad; the user may refuse, and so may the device. */
    method MarkBad(eb: nat) returns (ret: int)
      requires Valid() && eb < dev.ebCnt && !dev.bad[eb]
      modifies this, dev`bad, dev`faults, si`badCnt, si.ec
      ensures Valid() && (ret == 0 || ret == -1)
      ensures old(Log()).Before(Log())
      ensures ret == -1 <==> !dev.bbAllowed || old(Log()).Trouble(Log(), dev.bbAllowed)
      ensures dev.bad == old(dev.bad) || dev.bad == old(dev.bad)[eb := true]
      ensures ret == 0 ==> dev.bad == old(dev.bad)[eb := true] && TrailingRun(marks) < MAX_CONSECUTIVE_BAD_BLOCKS
      ensures marks == old(marks) + if dev.bad == old(dev.bad) then [] else [eb]
      ensures forall b :: 0 <= b < dev.ebCnt && b != eb ==> si.ec[b] == old(si.ec[b])
    {
      hide Count, Room, UbigenInfo.Usable, UbigenInfo.Fits, TrailingRun, Fatal;
      NothingNew(dev.faults, dev.bbAllowed);
      OneMore(dev.faults, Fault(Marking, eb, false, Usual), dev.bbAllowed);
      if !opts.yes {
        var yes: bool := *;
        if !yes {
          refusals := refusals + 1;
          return -1;
        }
      }
      if !dev.bbAllowed {
        return -1;
      }
      var ok := dev.MarkBad(eb);
      if !ok {
        return -1;
      }
      CountMarked(si.ec[..], eb);
      si.badCnt := si.badCnt + 1;
      si.ec[eb] := EB_BAD;
      assert si.ec[..] == old(si.ec[..])[eb := EB_BAD];
      ret := ConsecutiveBadCheck(eb);
    }

    /** After an I/O error, marking decides whether the program goes on. */
    lemma MarkedThen(log: History, failed: History, marked: History)
      requires log.Before(failed) && failed == log.(faults := failed.faults) && failed.Before(marked)
      requires log.Trouble(failed, dev.bbAllowed) <==> !dev.bbAllowed
      ensures log.Before(marked)
      ensures log.Trouble(marked, dev.bbAllowed) <==> !dev.bbAllowed || failed.Trouble(marked, dev.bbAllowed)
    {
      hide Fatal, TrailingRun;
      FatalParts(log.faults, failed.faults, marked.faults, dev.bbAllowed);
      if dev.bbAllowed {
        log.Later(failed, marked, dev.bbAllowed);
      }
    }

    /** What fails in the torture test does not count. */
    lemma TestedThen(log: History, failed: History, tested: History)
      requires log.Before(failed) && tested == failed.(faults := tested.faults)
      requires dev.Tested(failed.faults, tested.faults)
      ensures log.Before(tested) && (log.Trouble(tested, dev.bbAllowed) <==> log.Trouble(failed, dev.bbAllowed))
    {
      hide TrailingRun;
      FatalParts(log.faults, failed.faults, tested.faults, dev.bbAllowed);
    }

    /** What flash_image is to write. */
    function ImagePlan(image: Bytes): Plan
      reads this, dev`blocks, dev`bad, si, si.ec
    {
      Plan(image, dev.ebSize, ui.imageSeq, Chosen(opts, si.ec[..], si.meanEc))
    }

    lemma ImagePlanFits(image: Bytes)
      requires Valid()
      ensures ImagePlan(image).Fits()
    {
      hide Count;
      RoomOf();
    }

    ghost function Now(fd: Input, buf: array<bv8>, skip: bool, written: nat, stamp: nat): Stage
      reads dev`blocks, dev`bad, si, si.ec, fd`pos, buf
    {
      Stage(dev.blocks, dev.bad, si.ec[..], fd.pos, buf[..], skip, written, stamp)
    }

    ghost predicate Wanted(p: Plan, fd: Input, buf: array<bv8>)
      reads this, dev`blocks, dev`bad, si, si.ec, fd`pos
    {
      && Valid() && fd.Valid() && p.Fits() && |p.chosen| == dev.ebCnt
      && p.image == fd.content && p.eb == dev.ebSize == buf.Length && p.imageSeq == ui.imageSeq
    }

    /** The body of the loop of flash_image. */
    method FlashBlock(eb: nat, fd: Input, buf: array<bv8>, skip: bool,
                      ghost p: Plan, ghost written: nat, ghost stamp: nat)
      returns (out: Outcome, skipNext: bool, ghost writtenNext: nat, ghost stampNext: nat)
      requires Wanted(p, fd, buf) && eb < dev.ebCnt
      requires p.Reached(Now(fd, buf, skip, written, stamp), opts, si.meanEc, eb)
      requires buf as object != fd && buf as object != si.ec
      modifies this, dev, si, si.ec, fd, buf
      ensures Wanted(p, fd, buf) && si.meanEc == old(si.meanEc)
      ensures OnlyAt(eb, old(Now(fd, buf, skip, written, stamp)), Now(fd, buf, skipNext, writtenNext, stampNext))
      ensures out != Aborted ==> p.Reached(Now(fd, buf, skipNext, writtenNext, stampNext), opts, si.meanEc, eb + 1)
      ensures out != Aborted ==> writtenNext == written + if out == Settled then 1 else 0
      ensures out == Settled ==> !skipNext && !dev.bad[eb]
      ensures old(Log()).Before(Log()) && fd.failures >= old(fd.failures)
      ensures out != Aborted ==> !old(Log()).Trouble(Log(), dev.bbAllowed) && fd.failures == old(fd.failures)
      ensures out == Aborted ==>
        || old(Log()).Trouble(Log(), dev.bbAllowed) || fd.failures > old(fd.failures)
        || NotUsable(p, old(fd.pos), skip)
    {
      hide Count, Room, Rank, Plan.Reached, Plan.Fits, UbigenInfo.Usable, UbigenInfo.Fits, ChooseEc, Wired,
        History.Trouble, NotUsable;
      ghost var log := Log();
      skipNext, writtenNext, stampNext := skip, written, stamp;
      out := ClearBlock(eb, fd, buf, skip, p, written, stamp);
      if out != Settled {
        return out, skipNext, writtenNext, stampNext;
      }
      ghost var cleared := Log();
      var ok;
      ok, stampNext := LoadBuffer(eb, fd, buf, skip, p, written, stamp);
      if !ok {
        return Aborted, skipNext, writtenNext, stampNext;
      }
      out := WriteBuffer(eb, fd, buf, p, written, stampNext);
      log.Later(cleared, Log(), dev.bbAllowed);
      skipNext := out == PassedOver;
      writtenNext := if out == Settled then written + 1 else written;
    }

    /** Pass over an eraseblock that is bad, and erase any other. */
    method ClearBlock(eb: nat, fd: Input, buf: array<bv8>, skip: bool,
                      ghost p: Plan, ghost written: nat, ghost stamp: nat)
      returns (out: Outcome)
      requires Wanted(p, fd, buf) && eb < dev.ebCnt
      requires p.Reached(Now(fd, buf, skip, written, stamp), opts, si.meanEc, eb)
      requires buf as object != fd && buf as object != si.ec
      modifies this, dev, si, si.ec
      ensures Wanted(p, fd, buf) && si.meanEc == old(si.meanEc)
      ensures OnlyAt(eb, old(Now(fd, buf, skip, written, stamp)), Now(fd, buf, skip, written, stamp))
      ensures out == PassedOver ==> p.Reached(Now(fd, buf, skip, written, stamp), opts, si.meanEc, eb + 1)
      ensures out == Settled ==> p.Reached(Now(fd, buf, skip, written, stamp), opts, si.meanEc, eb)
      ensures out == Settled ==> !dev.bad[eb] && dev.blocks[eb] == Blank(dev.ebSize)
      ensures old(Log()).Before(Log()) && (out == Aborted <==> old(Log()).Trouble(Log(), dev.bbAllowed))
    {
      hide Count, Room, Rank, Plan.Reached, Plan.Fits, UbigenInfo.Usable, UbigenInfo.Fits, ChooseEc, Wired,
        History.Trouble;
      ghost var s, log := Now(fd, buf, skip, written, stamp), Log();
      log.NoTrouble(dev.bbAllowed);
      log.Failed(Fault(Erasing, eb, true, Usual), dev.bbAllowed);
      log.Failed(Fault(Erasing, eb, false, Usual), dev.bbAllowed);
      if si.ec[eb] == EB_BAD {
        p.PassOver(s, s, opts, si.meanEc, eb);
        return PassedOver;
      }
      var st := dev.Erase(eb);
      if st != Done {
        if st != Eio {
          return Aborted;
        }
        ghost var failed := Log();
        var ret := MarkBad(eb);
        MarkedThen(log, failed, Log());
        if ret != 0 {
          return Aborted;
        }
        p.PassOver(s, Now(fd, buf, skip, written, stamp), opts, si.meanEc, eb);
        return PassedOver;
      }
      p.Erased(s, Now(fd, buf, skip, written, stamp), opts, si.meanEc, eb);
      return Settled;
    }

    /** Read the next eraseblock of the image, unless the buffer still has to be written, and stamp it. */
    method LoadBuffer(eb: nat, fd: Input, buf: array<bv8>, skip: bool,
                      ghost p: Plan, ghost written: nat, ghost stamp: nat)
      returns (ok: bool, ghost stampNext: nat)
      requires Wanted(p, fd, buf) && eb < dev.ebCnt
      requires p.Reached(Now(fd, buf, skip, written, stamp), opts, si.meanEc, eb)
      requires buf as object != fd && buf as object != si.ec
      modifies fd, buf
      ensures Wanted(p, fd, buf)
      ensures ok ==> eb < |p.chosen| && stampNext == p.chosen[eb]
      ensures !ok <==> fd.failures > old(fd.failures) || NotUsable(p, old(fd.pos), skip)
      ensures fd.failures >= old(fd.failures)
      ensures ok ==> p.Reached(Now(fd, buf, true, written, stampNext), opts, si.meanEc, eb)
    {
      hide Count, Room, Rank, Plan.Reached, UbigenInfo.Usable, UbigenInfo.Fits, Wired, GoodEcHdr, Restamp, IsBlank;
      ghost var s0 := Now(fd, buf, skip, written, stamp);
      stampNext := stamp;
      SkippedGood(p, s0, eb);
      if !skip {
        var err := ReadAll(fd, buf, dev.ebSize);
        if err != 0 {
          return false, stampNext;
        }
        assert buf[..dev.ebSize] == buf[..];
      }
      var ec := ChooseEc(opts, si.ec[eb], si.meanEc);
      stampNext := ec;
      p.ReachedChoice(s0, opts, si.meanEc, eb);
      ghost var raw := buf[..];
      EcRoom(opts, si.ec[eb], si.meanEc);
      var err := ChangeEch(buf, ui.imageSeq, ec);
      if err != 0 {
        return false, stampNext;
      }
      if skip {
        p.Reload(s0, opts, si.meanEc, eb, ec);
      } else {
        p.Load(s0, opts, si.meanEc, eb, raw, ec);
      }
      return true, stampNext;
    }

    /** There is no next eraseblock in the image, or it does not start with a valid header. */
    ghost predicate NotUsable(p: Plan, pos: nat, skip: bool) {
      !skip && (pos + p.eb > |p.image| || !GoodEcHdr(p.image[pos..pos + p.eb]))
    }

    lemma SkippedGood(p: Plan, s: Stage, eb: nat)
      requires p.Fits() && p.Reached(s, opts, si.meanEc, eb)
      ensures s.skip ==> GoodEcHdr(s.buf)
    {
      hide GoodEcHdr, Room, Restamp, Rank, ChooseEc;
      if s.skip {
        p.StampAgain(s.buf, s.written, s.stamp, 0);
      }
    }

    /** Write the buffer to an erased eraseblock. */
    method WriteBuffer(eb: nat, fd: Input, buf: array<bv8>, ghost p: Plan, ghost written: nat, ghost stamp: nat)
      returns (out: Outcome)
      requires Wanted(p, fd, buf) && eb < dev.ebCnt
      requires p.Reached(Now(fd, buf, true, written, stamp), opts, si.meanEc, eb)
      requires !dev.bad[eb] && dev.blocks[eb] == Blank(dev.ebSize) && stamp == p.chosen[eb]
      requires buf as object != fd && buf as object != si.ec
      modifies this, dev, si, si.ec
      ensures Wanted(p, fd, buf) && si.meanEc == old(si.meanEc)
      ensures OnlyAt(eb, old(Now(fd, buf, true, written, stamp)), Now(fd, buf, true, written, stamp))
      ensures out == Settled ==>
        p.Reached(Now(fd, buf, false, written + 1, stamp), opts, si.meanEc, eb + 1) && !dev.bad[eb]
      ensures old(Log()).Before(Log()) && (out == Aborted <==> old(Log()).Trouble(Log(), dev.bbAllowed))
      ensures out == PassedOver ==> p.Reached(Now(fd, buf, true, written, stamp), opts, si.meanEc, eb + 1)
    {
      hide Count, Room, Rank, Plan.Reached, Plan.Fits, UbigenInfo.Usable, UbigenInfo.Fits, ChooseEc, Wired, GoodEcHdr,
        Restamp;
      hide IsBlank, History.Trouble;
      ghost var s0, log := Now(fd, buf, true, written, stamp), Log();
      log.NoTrouble(dev.bbAllowed);
      log.Failed(Fault(Writing, eb, true, Usual), dev.bbAllowed);
      log.Failed(Fault(Writing, eb, false, Usual), dev.bbAllowed);
      MultipleOf(dev.ebSize, dev.minIo, dev.subpage);
      var newLen := DropFfs(dev.minIo, buf, dev.ebSize);
      MultipleOf(newLen, dev.minIo, dev.subpage);
      var st := dev.Write(eb, 0, buf[..newLen]);
      if st != Done {
        if st != Eio {
          return Aborted;
        }
        ghost var failed := Log();
        var err := dev.Torture(eb);
        ghost var tested := Log();
        TestedThen(log, failed, tested);
        if err != 0 {
          var ret := MarkBad(eb);
          MarkedThen(log, tested, Log());
          if ret != 0 {
            return Aborted;
          }
        }
        p.PassOver(s0, Now(fd, buf, true, written, stamp), opts, si.meanEc, eb);
        return PassedOver;
      }
      assert buf[..newLen] == buf[..][..newLen] && buf[newLen..dev.ebSize] == buf[..][newLen..];
      WriteDropped(Blank(dev.ebSize), buf[..], newLen);
      p.StoreBuffer(s0, Now(fd, buf, false, written + 1, stamp), opts, si.meanEc, eb);
      return Settled;
    }

    /** Nothing has happened from block n on. */
    ghost predicate Untouched(n: nat, blocks: seq<Block>, bad: seq<bool>, ec: seq<nat>)
      requires |blocks| == |bad| == |ec|
      reads dev`blocks, dev`bad, si, si.ec
    {
      && |dev.blocks| == |dev.bad| == si.ec.Length == |ec|
      && forall b :: n <= b < |ec| ==> dev.blocks[b] == blocks[b] && dev.bad[b] == bad[b] && si.ec[b] == ec[b]
    }

    lemma UntouchedNext(n: nat, blocks: seq<Block>, bad: seq<bool>, ec: seq<nat>, s: Stage, t: Stage)
      requires |blocks| == |bad| == |ec| == |s.blocks| && OnlyAt(n, s, t)
      requires forall b :: n <= b < |ec| ==> s.blocks[b] == blocks[b] && s.bad[b] == bad[b] && s.table[b] == ec[b]
      requires t.blocks == dev.blocks && t.bad == dev.bad && t.table == si.ec[..]
      ensures Untouched(n + 1, blocks, bad, ec)
    {}

    /**
     * flash_image. A result up to the number of eraseblocks says that all eraseblocks of the image have
     * been placed, and how many eraseblocks of the device that took; one more says that the device was
     * too small for it.
     */
    method FlashImage(fd: Input) returns (ret: int)
      requires Valid() && fd.Valid() && fd.pos == 0
      modifies this, dev, si, si.ec, fd
      ensures Valid() && -1 <= ret <= dev.ebCnt + 1 && ret != 0 && si.meanEc == old(si.meanEc)
      ensures ret > 0 ==> |fd.content| % dev.ebSize == 0 && |fd.content| / dev.ebSize <= old(si.goodCnt)
      ensures var p := old(ImagePlan(fd.content));
        p.Fits() && (ret > 0 ==> p.Placed(dev.blocks, dev.bad, if ret <= dev.ebCnt then ret else dev.ebCnt))
      ensures 0 < ret <= dev.ebCnt ==> Rank(dev.bad, ret) == |fd.content| / dev.ebSize
      ensures ret == dev.ebCnt + 1 ==> Rank(dev.bad, dev.ebCnt) < |fd.content| / dev.ebSize || fd.content == []
      ensures ret > 0 ==> Untouched(ret, old(dev.blocks), old(dev.bad), old(si.ec[..]))
      ensures ret > 0 ==> forall b :: 0 <= b < ret && b < dev.ebCnt && !dev.bad[b] ==>
        && GoodEcHdr(dev.blocks[b]) && ImageSeq(dev.blocks[b]) == ui.imageSeq && |dev.blocks[b]| == dev.ebSize
        && StoredFrom(dev.blocks[b], fd.content, ImageOffset(Rank(dev.bad, b), dev.ebSize))
        && Counter(dev.blocks[b]) == if opts.overrideEc then opts.ec
          else if old(si.ec[b]) <= EC_MAX then old(si.ec[b]) + 1 else si.meanEc
      ensures ret > 0 ==> !old(Log()).Trouble(Log(), dev.bbAllowed) && fd.failures == old(fd.failures)
      ensures ret == -1 ==>
        || |fd.content| / dev.ebSize > old(si.goodCnt) || |fd.content| % dev.ebSize != 0 || fd.content == []
        || old(Log()).Trouble(Log(), dev.bbAllowed) || fd.failures > old(fd.failures)
        || BadImage(fd.content)
      ensures old(Log()).Before(Log())
    {
      hide Count, Room, Rank, Plan.Reached, Plan.Placed, Plan.Fits, UbigenInfo.Usable, UbigenInfo.Fits, Wired,
        History.Trouble, GoodEcHdr, Counter, ImageSeq, StoredFrom;
      Log().NoTrouble(dev.bbAllowed);
      ghost var table := si.ec[..];
      ghost var p := ImagePlan(fd.content);
      ImagePlanFits(fd.content);
      var imgEbs := |fd.content| / dev.ebSize;
      if imgEbs > si.goodCnt {
        return -1;
      }
      if |fd.content| % dev.ebSize != 0 {
        return -1;
      }
      var buf := new bv8[dev.ebSize];
      p.ReachedStart(Now(fd, buf, false, 0, 0), opts, si.meanEc);
      ret := FlashAll(fd, buf, imgEbs, p);
      if ret > 0 {
        forall b | 0 <= b < ret && b < dev.ebCnt && !dev.bad[b]
          ensures GoodEcHdr(dev.blocks[b]) && Counter(dev.blocks[b]) == p.chosen[b]
          ensures ImageSeq(dev.blocks[b]) == p.imageSeq
          ensures StoredFrom(dev.blocks[b], p.image, ImageOffset(Rank(dev.bad, b), p.eb))
        {
          p.PlacedCounter(dev.blocks, dev.bad, Within(ret), b);
        }
      }
    }

    /** Some eraseblock of the image does not start with a valid header. */
    ghost predicate BadImage(image: Bytes) {
      exists pos :: BadAt(image, pos)
    }

    ghost predicate BadAt(image: Bytes, pos: nat) {
      pos + dev.ebSize <= |image| && !GoodEcHdr(image[pos..pos + dev.ebSize])
    }

    /** The loop of flash_image. */
    method FlashAll(fd: Input, buf: array<bv8>, imgEbs: nat, ghost p: Plan) returns (ret: int)
      requires Wanted(p, fd, buf) && |fd.content| % dev.ebSize == 0 && imgEbs == |fd.content| / dev.ebSize
      requires p.Reached(Now(fd, buf, false, 0, 0), opts, si.meanEc, 0)
      requires buf as object != fd && buf as object != si.ec
      modifies this, dev, si, si.ec, fd, buf
      ensures Valid() && -1 <= ret <= dev.ebCnt + 1 && ret != 0 && si.meanEc == old(si.meanEc)
      ensures ret > 0 ==> p.Placed(dev.blocks, dev.bad, if ret <= dev.ebCnt then ret else dev.ebCnt)
      ensures 0 < ret <= dev.ebCnt ==> Rank(dev.bad, ret) == imgEbs
      ensures ret == dev.ebCnt + 1 ==> Rank(dev.bad, dev.ebCnt) < imgEbs || imgEbs == 0
      ensures ret > 0 ==> Untouched(ret, old(dev.blocks), old(dev.bad), old(si.ec[..]))
      ensures ret > 0 ==> !old(Log()).Trouble(Log(), dev.bbAllowed) && fd.failures == old(fd.failures)
      ensures ret == -1 ==>
        || fd.content == [] || BadImage(fd.content)
        || old(Log()).Trouble(Log(), dev.bbAllowed) || fd.failures > old(fd.failures)
      ensures old(Log()).Before(Log())
    {
      hide Count, Room, Rank, Plan.Reached, Plan.Placed, Plan.Fits, UbigenInfo.Usable, UbigenInfo.Fits, ChooseEc, Wired,
        OnlyAt, History.Trouble, NotUsable, BadImage;
      Log().NoTrouble(dev.bbAllowed);
      var eb, writtenEbs, skip := 0, 0, false;
      ghost var stamp := 0;
      while eb < dev.ebCnt
        invariant Wanted(p, fd, buf) && eb <= dev.ebCnt && si.meanEc == old(si.meanEc)
        invariant p.Reached(Now(fd, buf, skip, writtenEbs, stamp), opts, si.meanEc, eb)
        invariant writtenEbs < imgEbs || writtenEbs == imgEbs == 0
        invariant old(Log()).Before(Log()) && !old(Log()).Trouble(Log(), dev.bbAllowed)
        invariant fd.failures == old(fd.failures)
        invariant Untouched(eb, old(dev.blocks), old(dev.bad), old(si.ec[..]))
        decreases dev.ebCnt - eb
      {
        ghost var s, log := Now(fd, buf, skip, writtenEbs, stamp), Log();
        NextUsable(p, s, eb, imgEbs);
        var out;
        ghost var written;
        out, skip, written, stamp := FlashBlock(eb, fd, buf, skip, p, writtenEbs, stamp);
        old(Log()).Later(log, Log(), dev.bbAllowed);
        if out == Aborted {
          return -1;
        }
        ghost var t := Now(fd, buf, skip, written, stamp);
        p.ReachedBound(t, opts, si.meanEc, eb + 1);
        UntouchedNext(eb, old(dev.blocks), old(dev.bad), old(si.ec[..]), s, t);
        if out == Settled {
          writtenEbs := writtenEbs + 1;
          if writtenEbs >= imgEbs {
            p.ReachedParts(t, opts, si.meanEc, eb + 1);
            return eb + 1;
          }
        }
        eb := eb + 1;
      }
      p.ReachedParts(Now(fd, buf, skip, writtenEbs, stamp), opts, si.meanEc, eb);
      return eb + 1;
    }

    /** As long as the image is not written out, its next eraseblock exists. */
    lemma NextUsable(p: Plan, s: Stage, eb: nat, imgEbs: nat)
      requires p.Fits() && p.eb == dev.ebSize && p.Reached(s, opts, si.meanEc, eb)
      requires |p.image| % p.eb == 0 && imgEbs == |p.image| / p.eb && (s.written < imgEbs || s.written == imgEbs == 0)
      ensures NotUsable(p, s.pos, s.skip) ==> p.image == [] || BadImage(p.image)
    {
      hide Count, Room, Rank, Plan.Placed, Plan.Holds, GoodEcHdr, ChooseEc;
      if !s.skip && s.written < imgEbs {
        WholeImage(|p.image|, s.written + 1, p.eb);
        ImageOffsets(s.written, p.eb);
        assert NotUsable(p, s.pos, s.skip) ==> BadAt(p.image, s.pos);
      }
    }

    /** What format is to do. */
    function FormatJob(start: nat, novtbl: bool): Formatting
      reads this, dev`blocks, dev`bad, si, si.ec
    {
      Formatting(ui.Geometry(), dev.ebSize, Chosen(opts, si.ec[..], si.meanEc), start, novtbl)
    }

    /** The body of the loop of format, for an eraseblock that is not known to be bad. */
    method FormatBlock(eb: nat, hdr: array<bv8>, reserve: bool) returns (out: Outcome, ec: nat)
      requires Valid() && eb < dev.ebCnt && !dev.bad[eb]
      requires hdr.Length <= dev.ebSize && hdr.Length % dev.subpage == 0
      requires EC_HDR_SIZE <= hdr.Length && IsBlank(hdr[EC_HDR_SIZE..]) && hdr as object != si.ec
      modifies this, dev, si, si.ec, hdr
      ensures Valid() && si.meanEc == old(si.meanEc) && IsBlank(hdr[EC_HDR_SIZE..])
      ensures forall b :: 0 <= b < dev.ebCnt && b != eb ==>
        dev.blocks[b] == old(dev.blocks)[b] && dev.bad[b] == old(dev.bad)[b] && si.ec[b] == old(si.ec[b])
      ensures ec == ChooseEc(opts, old(si.ec[eb]), si.meanEc) < Room(8)
      ensures ec == if opts.overrideEc then opts.ec
        else if old(si.ec[eb]) <= EC_MAX then old(si.ec[eb]) + 1 else si.meanEc
      ensures old(Log()).Before(Log()) && (out == Aborted <==> old(Log()).Trouble(Log(), dev.bbAllowed))
      ensures out == PassedOver ==> dev.bad[eb]
      ensures out == Settled ==> !dev.bad[eb]
      ensures out == Settled && reserve ==> dev.blocks[eb] == Blank(dev.ebSize)
      ensures out == Settled && !reserve ==>
        dev.blocks[eb] == EcHdr(ui.Geometry(), ec) + Blank(dev.ebSize - EC_HDR_SIZE)
    {
      hide Count, Room, UbigenInfo.Usable, Wired, EcHdr, History.Trouble;
      ghost var log := Log();
      log.NoTrouble(dev.bbAllowed);
      log.Failed(Fault(Erasing, eb, true, Usual), dev.bbAllowed);
      log.Failed(Fault(Erasing, eb, false, Usual), dev.bbAllowed);
      log.Failed(Fault(Writing, eb, true, Usual), dev.bbAllowed);
      log.Failed(Fault(Writing, eb, false, Usual), dev.bbAllowed);
      EcRoom(opts, si.ec[eb], si.meanEc);
      ec := ChooseEc(opts, si.ec[eb], si.meanEc);
      ghost var tail := hdr[..][EC_HDR_SIZE..];
      InitEcHdr(ui, hdr, ec);
      assert hdr[EC_HDR_SIZE..] == hdr[..][EC_HDR_SIZE..] == tail;
      var st := dev.Erase(eb);
      if st != Done {
        if st != Eio {
          return Aborted, ec;
        }
        ghost var failed := Log();
        var ret := MarkBad(eb);
        MarkedThen(log, failed, Log());
        return if ret != 0 then Aborted else PassedOver, ec;
      }
      if reserve {
        return Settled, ec;
      }
      st := dev.Write(eb, 0, hdr[..]);
      if st != Done {
        if st != Eio {
          return Aborted, ec;
        }
        ghost var failed := Log();
        var err := dev.Torture(eb);
        ghost var tested := Log();
        TestedThen(log, failed, tested);
        if err != 0 {
          var ret := MarkBad(eb);
          MarkedThen(log, tested, Log());
          if ret != 0 {
            return Aborted, ec;
          }
        }
        return PassedOver, ec;
      }
      HeaderWritten(dev.ebSize, hdr[..], EcHdr(ui.Geometry(), ec));
      return Settled, ec;
    }

    /** format. */
    method Format(start: nat, novtbl: bool) returns (ret: int)
      requires Valid()
      modifies this, dev, si, si.ec
      ensures Valid() && (ret == 0 || ret == -1) && si.meanEc == old(si.meanEc)
      ensures var job := old(FormatJob(start, novtbl));
        1 < Room(4) && job.Fits() && (ret == 0 ==> job.Finished(dev.blocks, dev.bad, ui))
      ensures var job := old(FormatJob(start, novtbl));
        ret == 0 ==> forall b :: start <= b < dev.ebCnt && !dev.bad[b] && job.Readable(dev.bad, ui, b) ==>
          && GoodEcHdr(dev.blocks[b])
          && VidHdrOffset(dev.blocks[b]) == ui.vidHdrOffs && DataOffset(dev.blocks[b]) == ui.dataOffs
          && Counter(dev.blocks[b]) == if opts.overrideEc then opts.ec
            else if old(si.ec[b]) <= EC_MAX then old(si.ec[b]) + 1 else si.meanEc
      ensures old(Log()).Before(Log())
      ensures ret == -1 <==>
        old(Log()).Trouble(Log(), dev.bbAllowed) || (!novtbl && !Pair(dev.bad, start))
      ensures Before(start, old(dev.blocks), old(dev.bad), old(si.ec[..]))
    {
      hide Count, Room, Formatting.Done, Formatting.Reserved, Formatting.Fits, UbigenInfo.Usable, UbigenInfo.Fits;
      hide Wired, EcHdr, FirstGood, IsBlank, History.Trouble, Formatting.Finished, Formatting.Readable, GoodEcHdr,
        Counter;
      ghost var job := FormatJob(start, novtbl);
      JobFits(start, novtbl);
      RoomOf();
      var writeSize := EC_HDR_SIZE + dev.subpage - 1;
      writeSize := writeSize / dev.subpage;
      writeSize := writeSize * dev.subpage;
      RoundUpLeast(EC_HDR_SIZE, dev.subpage);
      var hdr := new bv8[writeSize](_ => ERASED);
      AllBlank(hdr[EC_HDR_SIZE..]);
      MultipleOf(dev.ebSize, dev.minIo, dev.subpage);
      ret := FormatAll(start, novtbl, hdr, job);
      if ret == 0 {
        job.FinishedCounters(dev.blocks, dev.bad, ui);
      }
    }

    /** The loop of format, and the volume table after it. */
    method FormatAll(start: nat, novtbl: bool, hdr: array<bv8>, ghost job: Formatting) returns (ret: int)
      requires Valid() && job.Fits() && job == FormatJob(start, novtbl)
      requires hdr.Length <= dev.ebSize && hdr.Length % dev.subpage == 0
      requires EC_HDR_SIZE <= hdr.Length && IsBlank(hdr[EC_HDR_SIZE..]) && hdr as object != si.ec
      modifies this, dev, si, si.ec, hdr
      ensures Valid() && (ret == 0 || ret == -1) && si.meanEc == old(si.meanEc)
      ensures 1 < Room(4) && (ret == 0 ==> job.Finished(dev.blocks, dev.bad, ui))
      ensures old(Log()).Before(Log())
      ensures ret == -1 <==>
        old(Log()).Trouble(Log(), dev.bbAllowed) || (!novtbl && !Pair(dev.bad, start))
      ensures Before(start, old(dev.blocks), old(dev.bad), old(si.ec[..]))
    {
      hide Count, Room, Formatting.Done, Formatting.Reserved, Formatting.Fits, UbigenInfo.Usable, UbigenInfo.Fits;
      hide ChooseEc, Wired, EcHdr, FirstGood, IsBlank, Formatting.Finished, History.Trouble, Pair;
      Log().NoTrouble(dev.bbAllowed);
      RoomOf();
      var eb1: int, eb2: int, ec1: int, ec2: int := -1, -1, -1, -1;
      var eb: nat := start;
      job.Start(dev.blocks, dev.bad);
      while eb < dev.ebCnt
        invariant Valid() && si.meanEc == old(si.meanEc) && IsBlank(hdr[EC_HDR_SIZE..])
        invariant start <= eb && Before(start, old(dev.blocks), old(dev.bad), old(si.ec[..]))
        invariant job.Done(dev.blocks, dev.bad, Within(eb), eb1, eb2)
        invariant job.Reserved(dev.blocks, dev.bad, Within(eb), eb1, eb2)
        invariant old(Log()).Before(Log()) && !old(Log()).Trouble(Log(), dev.bbAllowed)
        invariant Rated(job, eb1, ec1) && Rated(job, eb2, ec2)
        invariant forall b :: eb <= b < dev.ebCnt ==> si.ec[b] == old(si.ec[b])
        decreases dev.ebCnt - eb
      {
        ghost var blocks, bad, log := dev.blocks, dev.bad, Log();
        if si.ec[eb] == EB_BAD {
          job.HeaderNext(blocks, bad, blocks, bad, eb, eb1, eb2);
          eb := eb + 1;
          continue;
        }
        var reserve := (eb1 == -1 || eb2 == -1) && !novtbl;
        var out, ec := FormatBlock(eb, hdr, reserve);
        old(Log()).Later(log, Log(), dev.bbAllowed);
        if out == Aborted {
          return -1;
        }
        if reserve && out == Settled {
          job.ReserveNext(blocks, bad, dev.blocks, dev.bad, eb, eb1, eb2);
          if eb1 == -1 {
            eb1, ec1 := eb, ec;
          } else if eb2 == -1 {
            eb2, ec2 := eb, ec;
          }
        } else {
          assert out == Settled ==> job.Headed(dev.blocks[eb], job.chosen[eb]);
          job.HeaderNext(blocks, bad, dev.blocks, dev.bad, eb, eb1, eb2);
        }
        eb := eb + 1;
      }
      if novtbl {
        job.FinishedWithout(dev.blocks, dev.bad, ui, eb1, eb2);
        return 0;
      }
      job.PairReserved(dev.blocks, dev.bad, eb1, eb2);
      if eb1 == -1 || eb2 == -1 {
        return -1;
      }
      ghost var log := Log();
      ret := WriteVolumeTable(eb1, eb2, ec1, ec2, job);
      old(Log()).Later(log, Log(), dev.bbAllowed);
    }

    /** The end of format: the layout volume, in the two eraseblocks that were kept for it. */
    method WriteVolumeTable(eb1: int, eb2: int, ec1: int, ec2: int, ghost job: Formatting) returns (ret: int)
      requires Valid() && job.Fits() && job.eb == dev.ebSize && !job.novtbl && eb1 != -1 && eb2 != -1
      requires job.g == ui.Geometry()
      requires job.Done(dev.blocks, dev.bad, dev.ebCnt, eb1, eb2)
      requires job.Reserved(dev.blocks, dev.bad, dev.ebCnt, eb1, eb2)
      requires Rated(job, eb1, ec1) && Rated(job, eb2, ec2)
      modifies dev`blocks, dev`faults
      ensures old(Log()).Before(Log()) && (ret == -1 <==> old(Log()).Trouble(Log(), dev.bbAllowed))
      ensures Valid() && (ret == 0 || ret == -1)
      ensures 1 < Room(4) && (ret == 0 ==> job.Finished(dev.blocks, dev.bad, ui))
      ensures forall b :: 0 <= b < dev.ebCnt && b < job.start ==> dev.blocks[b] == old(dev.blocks)[b]
    {
      hide Count, Room, Formatting.Done, Formatting.Reserved, Formatting.Fits, UbigenInfo.Usable, UbigenInfo.Fits;
      hide Wired, Formatting.Finished, LayoutBlock, Records, ChooseEc, Fatal;
      RoomOf();
      job.ReservedParts(dev.blocks, dev.bad, dev.ebCnt, eb1, eb2);
      JobRoom(job, eb1);
      JobRoom(job, eb2);
      var vtbl := CreateEmptyVtbl(ui);
      ghost var blocks := dev.blocks;
      ret := WriteLayoutVol(ui, eb1, eb2, ec1, ec2, vtbl, dev);
      if ret != 0 {
        return -1;
      }
      WholeWrite(blocks[eb1], LayoutBlock(ui, Records(ui.maxVolumes), ec1, 0));
      WholeWrite(blocks[eb2], LayoutBlock(ui, Records(ui.maxVolumes), ec2, 1));
      job.FinishedWith(blocks, dev.bad, ui, eb1, eb2, dev.blocks);
    }

    lemma JobRoom(job: Formatting, eb: nat)
      requires job.Fits() && eb < |job.chosen|
      ensures job.chosen[eb] < Room(8)
    {}

    function Within(eb: nat): (r: nat)
      ensures r <= dev.ebCnt
    {
      if eb <= dev.ebCnt then eb else dev.ebCnt
    }

    /** A reserved eraseblock is going to get the counter that was chosen for it. */
    predicate Rated(job: Formatting, eb: int, ec: int) {
      eb != -1 ==> 0 <= eb < |job.chosen| && ec == job.chosen[eb]
    }

    /** Nothing has happened below block n. */
    ghost predicate Before(n: nat, blocks: seq<Block>, bad: seq<bool>, ec: seq<nat>)
      reads dev`blocks, dev`bad, si, si.ec
    {
      && |dev.blocks| == |dev.bad| == si.ec.Length == |ec| == |blocks| == |bad|
      && forall b :: 0 <= b < |ec| && b < n ==> dev.blocks[b] == blocks[b] && dev.bad[b] == bad[b] && si.ec[b] == ec[b]
    }

    lemma JobFits(start: nat, novtbl: bool)
      requires Valid()
      ensures FormatJob(start, novtbl).Fits()
    {
      hide Count;
      RoomOf();
    }

    /**
     * The end of ubiformat_main. When it succeeds with an image that did not run out of eraseblocks, the
     * whole image is on the device in order, and every usable eraseblock behind it has a header. When the
     * image did run out of eraseblocks, the program succeeds all the same.
     */
    method FlashAndFormat(fd: Input) returns (ret: int, ghost reached: int)
      requires Valid() && fd.Valid() && fd.pos == 0
      modifies this, dev, si, si.ec, fd
      ensures Valid() && (ret == 0 || ret == -1) && old(ImagePlan(fd.content)).Fits() && old(FormatJob(0, true)).Fits()
      ensures ret == 0 ==> 0 < reached <= dev.ebCnt + 1
      ensures ret == 0 ==> old(ImagePlan(fd.content)).Placed(dev.blocks, dev.bad, Within(reached))
      ensures ret == 0 ==>
        && (reached <= dev.ebCnt ==> Rank(dev.bad, reached) == |fd.content| / dev.ebSize)
        && (reached > dev.ebCnt ==> Rank(dev.bad, dev.ebCnt) < |fd.content| / dev.ebSize || fd.content == [])
      ensures ret == 0 ==> forall b :: reached <= b < dev.ebCnt && !dev.bad[b] ==>
        old(FormatJob(0, true)).Headed(dev.blocks[b], if opts.overrideEc then opts.ec
          else if old(si.ec[b]) <= EC_MAX then old(si.ec[b]) + 1 else old(si.meanEc))
      ensures ret == 0 ==> !old(Log()).Trouble(Log(), dev.bbAllowed) && fd.failures == old(fd.failures)
      ensures ret == -1 ==>
        || |fd.content| / dev.ebSize > old(si.goodCnt) || |fd.content| % dev.ebSize != 0 || fd.content == []
        || old(Log()).Trouble(Log(), dev.bbAllowed) || fd.failures > old(fd.failures)
        || BadImage(fd.content)
    {
      hide Count, Room, Rank, Plan.Placed, Plan.Fits, Formatting.Fits, Formatting.Headed, UbigenInfo.Usable,
        UbigenInfo.Fits;
      hide Wired, History.Trouble, BadImage, Formatting.Finished, Formatting.Readable, GoodEcHdr, Counter;
      ghost var p, job := ImagePlan(fd.content), FormatJob(0, true);
      ImagePlanFits(fd.content);
      JobFits(0, true);
      ret := FlashImage(fd);
      reached := ret;
      if ret < 0 {
        return -1, reached;
      }
      ghost var mid, blocks, bad, log := FormatJob(reached, true), dev.blocks, dev.bad, Log();
      ret := Format(ret, true);
      old(Log()).Later(log, Log(), dev.bbAllowed);
      if ret != 0 {
        return -1, reached;
      }
      p.PlacedSame(blocks, bad, dev.blocks, dev.bad, Within(reached));
      mid.HeadersOf(dev.blocks, dev.bad, ui, job);
    }
  }

  /** What became of an eraseblock. */
  datatype Outcome = Aborted | PassedOver | Settled
}

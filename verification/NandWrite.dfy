/** The main loop of nandwrite.c, as ofgwrite runs it: nandwrite -pm on a regular file. */
module NandWrite {
  import opened Division
  import opened Files
  import opened Flash

  // What the device is meant to hold.

  function Tail(n: nat, page: nat): nat
    requires page > 0
  {
    (page - n % page) % page
  }

  /** A byte string padded with erased bytes to whole pages. */
  function Padded(s: seq<bv8>, page: nat): seq<bv8>
    requires page > 0
  {
    s + Blank(Tail(|s|, page))
  }

  function Start(block: nat, eb: nat): nat { block * eb }

  /** The contents of the first n blocks that are not marked bad, in order. */
  ghost function Good(blocks: seq<Block>, bad: seq<bool>, n: nat): seq<bv8>
    requires n <= |blocks| == |bad|
  {
    if n == 0 then [] else Good(blocks, bad, n - 1) + if bad[n - 1] then [] else blocks[n - 1]
  }

  /** What has been written below an offset into a device with blocks of eb bytes. */
  ghost function Written(blocks: seq<Block>, bad: seq<bool>, block: nat, offset: nat): seq<bv8>
    requires block <= |blocks| == |bad| && (offset > 0 ==> block < |blocks| && offset <= |blocks[block]|)
  {
    Good(blocks, bad, block) + if offset == 0 then [] else blocks[block][..offset]
  }

  lemma {:induction false} GoodSame(blocks: seq<Block>, bad: seq<bool>, blocks': seq<Block>, bad': seq<bool>, n: nat)
    requires n <= |blocks| == |bad| == |blocks'| == |bad'|
    requires forall b :: 0 <= b < n ==> blocks'[b] == blocks[b] && bad'[b] == bad[b]
    ensures Good(blocks', bad', n) == Good(blocks, bad, n)
  {
    if n != 0 { GoodSame(blocks, bad, blocks', bad', n - 1); }
  }

  /** How many of the first n blocks are not marked bad. */
  function Usable(bad: seq<bool>, n: nat): nat
    requires n <= |bad|
  {
    if n == 0 then 0 else Usable(bad, n - 1) + if bad[n - 1] then 0 else 1
  }

  lemma {:induction false} UsableMore(bad: seq<bool>, m: nat, n: nat)
    requires m <= n <= |bad|
    ensures Usable(bad, m) <= Usable(bad, n)
    ensures m < n && !bad[m] ==> Usable(bad, m) < Usable(bad, n)
  {
    if m < n {
      UsableMore(bad, m, n - 1);
    }
  }

  lemma {:induction false} GoodLength(blocks: seq<Block>, bad: seq<bool>, n: nat, eb: nat)
    requires n <= |blocks| == |bad| && forall b :: 0 <= b < n ==> |blocks[b]| == eb
    ensures |Good(blocks, bad, n)| == Start(Usable(bad, n), eb)
  {
    if n != 0 {
      GoodLength(blocks, bad, n - 1, eb);
    }
  }

  lemma StartMore(m: nat, n: nat, eb: nat)
    requires m <= n
    ensures Start(m, eb) <= Start(n, eb)
    ensures m < n ==> Start(m, eb) + eb <= Start(n, eb)
  {
    assert Start(n, eb) == Start(m, eb) + (n - m) * eb;
    if m < n {
      MulAtLeast(n - m, eb);
    }
  }

  /** How many bytes the program wants to write for a file of a given size: even an empty one asks for a page. */
  function Needed(size: nat, page: nat): nat
    requires page > 0
  {
    RoundUp(if size == 0 then 1 else size, page)
  }

  /** A block on which a write has failed with an I/O error since then. */
  predicate Refused(was: seq<Fault>, now: seq<Fault>, b: nat) {
    exists i :: |was| <= i < |now| && now[i] == Fault(Writing, b, true, Usual)
  }

  /** New failures explain the new bad blocks. */
  ghost predicate Explained(was: seq<Fault>, bad: seq<bool>, now: seq<Fault>, bad': seq<bool>) {
    && was <= now && |bad| == |bad'|
    && forall b :: 0 <= b < |bad| && bad'[b] != bad[b] ==> Refused(was, now, b)
  }

  lemma ExplainedMore(f: seq<Fault>, x: seq<bool>, f': seq<Fault>, x': seq<bool>, f'': seq<Fault>, x'': seq<bool>)
    requires Explained(f, x, f', x') && Explained(f', x', f'', x'')
    ensures Explained(f, x, f'', x'')
  {
    forall b | 0 <= b < |x| && x''[b] != x[b]
      ensures Refused(f, f'', b)
    {
      if x'[b] != x[b] {
        var i :| |f| <= i < |f'| && f'[i] == Fault(Writing, b, true, Usual);
        assert f''[i] == f'[i];
      } else {
        var i :| |f'| <= i < |f''| && f''[i] == Fault(Writing, b, true, Usual);
      }
    }
  }

  lemma NothingExplained(faults: seq<Fault>, bad: seq<bool>)
    ensures forall bad' :: Explained(faults, bad, faults, bad') ==> bad' == bad
  {}

  lemma SameExplained(was: seq<Fault>, bad: seq<bool>, now: seq<Fault>)
    requires was <= now
    ensures Explained(was, bad, now, bad)
  {}

  /** A block that is given up after its write has failed. */
  lemma GivenUp(was: seq<Fault>, bad: seq<bool>, b: nat, now: seq<Fault>)
    requires b < |bad| && was + [Fault(Writing, b, true, Usual)] <= now
    ensures Explained(was, bad, now, bad[b := true])
  {
    assert now[|was|] == (was + [Fault(Writing, b, true, Usual)])[|was|];
    assert was <= was + [Fault(Writing, b, true, Usual)];
  }

  lemma StartParts(block: nat, eb: nat, offset: nat)
    requires offset < eb
    ensures (Start(block, eb) + offset) / eb == block && (Start(block, eb) + offset) % eb == offset
    ensures Start(block + 1, eb) == Start(block, eb) + eb
  {
    DivOf(Start(block, eb) + offset, block, eb, offset);
  }

  /** One more page of input, padded if the input ends in it. */
  lemma PaddedMore(s: seq<bv8>, pos: nat, cnt: nat, page: nat)
    requires page > 0 && pos % page == 0 && 0 < cnt <= page && pos + cnt <= |s|
    ensures Padded(s[..pos + cnt], page) == Padded(s[..pos], page) + s[pos..pos + cnt] + Blank(page - cnt)
    ensures cnt == page ==> (pos + cnt) % page == 0
  {
    TailMore(pos, cnt, page);
    assert s[..pos + cnt] == s[..pos] + s[pos..pos + cnt];
  }

  lemma TailMore(pos: nat, cnt: nat, page: nat)
    requires page > 0 && pos % page == 0 && 0 < cnt <= page
    ensures Tail(pos, page) == 0 && Tail(pos + cnt, page) == page - cnt
    ensures cnt == page ==> (pos + cnt) % page == 0
  {
    NextUnit(pos, cnt, page);
    assert (page - 0) % page == 0;
  }

  // The state of the writer between two steps of its loop, as a value.

  datatype Shape = Shape(eb: nat, page: nat, cnt: nat) {
    ghost predicate Valid() {
      0 < page <= eb && eb % page == 0
    }
  }

  datatype View = View(
    blocks: seq<Block>,
    bad: seq<bool>,
    buf: seq<bv8>,
    len: nat,         // filebuf_len
    wb: int,          // writebuf - filebuf, or -1 for NULL
    start: int,       // blockstart
    block: nat,       // the block that mtdoffset lies in
    offset: nat,      // and the offset inside it
    pos: nat          // bytes of input consumed
  ) {
    function Mtd(g: Shape): nat { Start(block, g.eb) + offset }

    ghost predicate Typed(g: Shape, content: seq<bv8>) {
      && g.Valid() && |blocks| == |bad| == g.cnt && |buf| == g.eb
      && (forall b :: 0 <= b < g.cnt ==> |blocks[b]| == g.eb)
      && block <= g.cnt && offset < g.eb && (block == g.cnt ==> offset == 0)
      && len <= g.eb && offset % g.page == 0 && len % g.page == 0
      && pos <= |content| && (pos % g.page == 0 || pos == |content|)
      && forall b :: block < b < g.cnt && !bad[b] ==> IsBlank(blocks[b])
    }

    /** The invariant about the data: what the good blocks hold, then what the buffer holds, is the input so far. */
    ghost predicate Carries(g: Shape, content: seq<bv8>, held: seq<bv8>)
      requires Typed(g, content)
    {
      Good(blocks, bad, block) + held == Padded(content[..pos], g.page)
    }

    /** Writing into the current block: the buffer holds what the block holds, and maybe more. */
    ghost predicate Inside(g: Shape, content: seq<bv8>) {
      && Typed(g, content) && block < g.cnt && !bad[block]
      && start == Start(block, g.eb) && 0 <= wb == offset <= len
      && blocks[block][..offset] == buf[..offset] && IsBlank(blocks[block][offset..])
      && Carries(g, content, buf[..len])
    }

    /** The current block is untouched, unless it is bad. */
    ghost predicate Untouched(g: Shape, content: seq<bv8>) {
      && Typed(g, content) && offset == 0
      && (block < g.cnt && !bad[block] ==> IsBlank(blocks[block]))
    }

    /** Before the first block, or after a full one: the buffer is stale. */
    ghost predicate Fresh(g: Shape, content: seq<bv8>) {
      && Untouched(g, content) && start < Start(block, g.eb) && wb != 0 && (wb < 0 ==> len == pos == 0)
      && (wb > 0 ==> wb >= len)
      && Carries(g, content, [])
    }

    /** After a skipped block: the buffer is still to be written. */
    ghost predicate Rewound(g: Shape, content: seq<bv8>) {
      && Untouched(g, content) && start < Start(block, g.eb) && wb == 0
      && Carries(g, content, buf[..len])
    }

    /** In a block whose badness is not known yet. */
    ghost predicate Entering(g: Shape, content: seq<bv8>) {
      && Untouched(g, content) && start == Start(block, g.eb) && wb == 0
      && Carries(g, content, buf[..len])
    }

    ghost predicate Sound(g: Shape, content: seq<bv8>) {
      Inside(g, content) || Fresh(g, content) || Rewound(g, content)
    }
  }

  lemma EnterFresh(v: View, g: Shape, content: seq<bv8>, buf: seq<bv8>)
    requires v.Fresh(g, content) && |buf| == g.eb
    ensures v.(start := Start(v.block, g.eb), wb := 0, len := 0, buf := buf).Entering(g, content)
  {
    hide Padded, Start, Good, IsBlank;
  }

  lemma EnterRewound(v: View, g: Shape, content: seq<bv8>)
    requires v.Rewound(g, content)
    ensures v.(start := Start(v.block, g.eb)).Entering(g, content)
  {
    hide Padded, Start, Good, IsBlank;
  }

  lemma EnteringParts(v: View, g: Shape, content: seq<bv8>)
    requires v.Entering(g, content)
    ensures v.block <= g.cnt && v.offset == 0 && v.start == v.Mtd(g) && v.start / g.eb == v.block
  {
    hide Padded, Start, Good, IsBlank;
    StartParts(v.block, g.eb, 0);
  }

  lemma EnterGood(v: View, g: Shape, content: seq<bv8>)
    requires v.Entering(g, content) && v.block < g.cnt && !v.bad[v.block]
    ensures v.Inside(g, content) && v.Sound(g, content)
  {
    hide Padded, Start, Good;
  }

  lemma EnterBad(v: View, g: Shape, content: seq<bv8>)
    requires v.Entering(g, content) && v.block < g.cnt && v.bad[v.block]
    ensures v.(block := v.block + 1).Sound(g, content)
    ensures v.(block := v.block + 1).Mtd(g) == v.start + g.eb && v.offset == 0
  {
    hide Padded, Start;
    StartParts(v.block, g.eb, 0);
  }

  /** A page of input has arrived in the buffer, padded at the end of the file. */
  lemma PageRead(v: View, g: Shape, content: seq<bv8>, buf: seq<bv8>, cnt: nat)
    requires v.Inside(g, content) && v.len == v.offset && |buf| == g.eb && 0 < cnt <= g.page
    requires v.pos + cnt <= |content| && (cnt < g.page ==> v.pos + cnt == |content|)
    requires v.offset + g.page <= g.eb
    requires buf[..v.offset] == v.buf[..v.offset]
    requires buf[v.offset..v.offset + g.page] == content[v.pos..v.pos + cnt] + Blank(g.page - cnt)
    ensures v.(buf := buf, len := v.len + g.page, pos := v.pos + cnt).Inside(g, content)
  {
    hide Padded, Start, Good, IsBlank, Program;
    var page := content[v.pos..v.pos + cnt] + Blank(g.page - cnt);
    var good := Good(v.blocks, v.bad, v.block);
    assert v.pos % g.page == 0;
    PaddedMore(content, v.pos, cnt, g.page);
    NextPage(v.len, g.page);
    JoinPage(good, buf, v.buf[..v.len], page, v.len);
    assert Padded(content[..v.pos + cnt], g.page) == Padded(content[..v.pos], g.page) + page;
  }

  lemma JoinPage(good: seq<bv8>, buf: seq<bv8>, held: seq<bv8>, page: seq<bv8>, n: nat)
    requires n + |page| <= |buf| && buf[..n] == held && buf[n..n + |page|] == page
    ensures good + buf[..n + |page|] == good + held + page
  {
    assert buf[..n + |page|] == buf[..n] + buf[n..n + |page|];
  }

  lemma NextPage(n: nat, page: nat)
    requires page > 0 && n % page == 0
    ensures (n + page) % page == 0
  {
    NextUnit(n, page, page);
  }

  /** Multiples of a page do not come closer than a page. */
  lemma PagesApart(a: nat, b: nat, page: nat)
    requires page > 0 && a % page == 0 && b % page == 0 && a < b
    ensures a + page <= b
  {
    DivIdentity(a, page);
    DivIdentity(b, page);
    var p, q := a / page, b / page;
    assert (q - p) * page == q * page - p * page;
    if p > q {
      MulAtLeast(p - q, page);
    }
    MulAtLeast(q - p, page);
  }

  /** A page has been written, and the block is not full. */
  lemma PageWritten(v: View, g: Shape, content: seq<bv8>)
    requires v.Inside(g, content) && v.offset + g.page <= v.len && v.offset + g.page < g.eb
    ensures var b := Programmed(v.blocks[v.block], v.offset, v.buf[v.offset..v.offset + g.page]);
      var v' := v.(blocks := v.blocks[v.block := b], offset := v.offset + g.page, wb := v.wb + g.page);
      v'.Sound(g, content) && v'.Mtd(g) == v.Mtd(g) + g.page
  {
    hide Padded, Start, Programmed;
    var old_b, page := v.blocks[v.block], v.buf[v.offset..v.offset + g.page];
    BlankPart(old_b, v.offset, g.page);
    ProgrammedErased(old_b, v.offset, page);
    var b := Programmed(old_b, v.offset, page);
    GoodSame(v.blocks, v.bad, v.blocks[v.block := b], v.bad, v.block);
    NextPage(v.offset, g.page);
    assert b[..v.offset + g.page] == v.buf[..v.offset + g.page];
    assert b[v.offset + g.page..] == old_b[v.offset + g.page..];
  }

  lemma BlankPart(b: Block, offset: nat, n: nat)
    requires offset + n <= |b| && IsBlank(b[offset..])
    ensures IsBlank(b[offset..offset + n]) && IsBlank(b[offset + n..])
  {
    var rest := b[offset..];
    assert b[offset..offset + n] == rest[..n];
    assert b[offset + n..] == rest[n..];
  }

  /** The last page of a block has been written. */
  lemma BlockWritten(v: View, g: Shape, content: seq<bv8>)
    requires v.Inside(g, content) && v.offset + g.page <= v.len && v.offset + g.page == g.eb
    ensures var b := Programmed(v.blocks[v.block], v.offset, v.buf[v.offset..v.offset + g.page]);
      var v' := v.(blocks := v.blocks[v.block := b], block := v.block + 1, offset := 0, wb := v.wb + g.page);
      v'.Sound(g, content) && v'.Mtd(g) == v.Mtd(g) + g.page
  {
    hide Padded, Start, Programmed;
    var old_b, page := v.blocks[v.block], v.buf[v.offset..v.offset + g.page];
    BlankPart(old_b, v.offset, g.page);
    ProgrammedErased(old_b, v.offset, page);
    var b := Programmed(old_b, v.offset, page);
    GoodSame(v.blocks, v.bad, v.blocks[v.block := b], v.bad, v.block);
    StartParts(v.block, g.eb, 0);
    assert b == v.buf;
  }

  /** The write failed: the block is given up, and the buffer is to be written again. */
  lemma BlockAbandoned(v: View, g: Shape, content: seq<bv8>, blocks: seq<Block>)
    requires v.Inside(g, content) && |blocks| == g.cnt && |blocks[v.block]| == g.eb
    requires forall b :: 0 <= b < g.cnt && b != v.block ==> blocks[b] == v.blocks[b]
    ensures var v' := v.(blocks := blocks, bad := v.bad[v.block := true], block := v.block + 1, offset := 0, wb := 0);
      v'.Sound(g, content) && v'.Mtd(g) == v.start + g.eb
  {
    hide Padded, Start, IsBlank;
    GoodSame(v.blocks, v.bad, blocks, v.bad[v.block := true], v.block);
    StartParts(v.block, g.eb, 0);
  }

  /** Nothing left in the buffer: the device holds the input so far. */
  lemma Finished(v: View, g: Shape, content: seq<bv8>)
    requires v.Sound(g, content) && v.wb >= v.len
    ensures Written(v.blocks, v.bad, v.block, v.offset) == Padded(content[..v.pos], g.page)
  {
    hide Padded, Start;
  }

  datatype PageResult = Ready | EndOfFile | ReadError

  datatype Round = GoOn | NoMore | Abort

  /** The writer: the variables of the loop, over a device and an input file. */
  class NandWriter {
    const dev: Device
    const input: Input
    const filebuf: array<bv8>
    const size: nat
    var mtdoffset: nat
    var blockstart: int
    var writebuf: int
    var filebufLen: nat
    var imglen: int
    ghost var block: nat
    ghost var offset: nat

    ghost function Geometry(): Shape { Shape(dev.ebSize, dev.minIo, dev.ebCnt) }

    ghost function Now(): View
      reads this, dev`blocks, dev`bad, input`pos, filebuf
    {
      View(dev.blocks, dev.bad, filebuf[..], filebufLen, writebuf, blockstart, block, offset, input.pos)
    }

    ghost predicate Wired()
      reads this, dev`blocks, dev`bad, input`pos, filebuf
    {
      Connected() && imglen == size - input.pos
    }

    ghost predicate Connected()
      reads this, dev`blocks, dev`bad, input`pos, filebuf
    {
      && dev.Valid() && input.Valid() && filebuf.Length == dev.ebSize && dev.minIo > 0
      && filebuf as object != dev && filebuf as object != input && filebuf as object != this
      && dev as object != input && dev as object != this && input as object != this
      && mtdoffset == Now().Mtd(Geometry())
    }

    ghost predicate Valid()
      reads this, dev`blocks, dev`bad, input`pos, filebuf
    {
      Wired() && Now().Sound(Geometry(), input.content)
    }

    /** Nothing has been read yet. */
    ghost predicate Unstarted()
      reads this
    {
      writebuf == -1 && filebufLen == 0 && block == 0
    }

    /** size is the length of the file as fstat reports it. */
    constructor (dev: Device, input: Input, size: nat)
      requires dev.Valid() && input.Valid() && dev as object != input && input.pos == 0
      requires forall b :: 0 <= b < dev.ebCnt && !dev.bad[b] ==> IsBlank(dev.blocks[b])
      ensures this.dev == dev && this.input == input && this.size == size && fresh(filebuf)
      ensures Valid() && Unstarted()
    {
      this.dev, this.input, this.size := dev, input, size;
      filebuf := new bv8[dev.ebSize](_ => ERASED);
      mtdoffset, blockstart, writebuf, filebufLen, imglen := 0, -1, -1, 0, size;
      block, offset := 0, 0;
      new;
      StartFresh(Now(), Geometry(), input.content);
    }

    /** erase_buffer on part of the buffer. */
    method EraseBuffer(offs: nat, n: nat)
      requires offs + n <= filebuf.Length
      modifies filebuf
      ensures forall i :: 0 <= i < filebuf.Length ==>
        filebuf[i] == if offs <= i < offs + n then ERASED else old(filebuf[i])
    {
      for i := 0 to n
        invariant forall j :: 0 <= j < filebuf.Length ==>
          filebuf[j] == if offs <= j < offs + i then ERASED else old(filebuf[j])
      {
        filebuf[offs + i] := ERASED;
      }
    }

    /** One round of the inner loop: look at the block that starts here, and skip it if it is bad. */
    method TryBlock() returns (ok: bool)
      requires Valid() && blockstart != mtdoffset - mtdoffset % dev.ebSize
      modifies this, filebuf, dev`faults
      ensures ok ==> Valid() && block <= dev.ebCnt && dev.faults == old(dev.faults)
      ensures ok ==>
        block == old(block) + 1 || (block == old(block) && blockstart == mtdoffset - mtdoffset % dev.ebSize)
      ensures !ok && dev.faults == old(dev.faults) ==>
        Connected() && Now().Entering(Geometry(), input.content) && block == dev.ebCnt
      ensures Queried(old(dev.faults), dev.faults)
      ensures mtdoffset >= old(mtdoffset) && imglen == old(imglen)
      ensures writebuf == 0 && filebufLen == if old(writebuf) == 0 then old(filebufLen) else 0
    {
      hide View.Inside, View.Entering, View.Sound, Start;
      ghost var g, content := Geometry(), input.content;
      var eb := dev.ebSize;
      StartBlock();
      EnteringParts(Now(), g, content);
      var ret := dev.IsBad(blockstart / eb);
      if ret < 0 {
        return false;
      }
      if ret == 1 {
        EnterBad(Now(), g, content);
        StartMore(block + 1, dev.ebCnt, eb);
        mtdoffset := blockstart + eb;
        block := block + 1;
        if mtdoffset > Start(dev.ebCnt, eb) {
          return false;
        }
      } else {
        EnterGood(Now(), g, content);
      }
      return true;
    }

    ghost predicate Queried(was: seq<Fault>, now: seq<Fault>) {
      now == was || exists eb :: now == was + [Fault(Query, eb, false, Usual)]
    }

    lemma Asked(was: seq<Fault>, now: seq<Fault>, marks: bool)
      requires Queried(was, now)
      ensures was <= now && (now == was || Fatal(was, now, marks))
    {
      if now != was {
        var eb :| now == was + [Fault(Query, eb, false, Usual)];
        OneMore(was, Fault(Query, eb, false, Usual), marks);
      }
    }

    /** Arrive at the start of a block, with a buffer to be replayed or an empty one. */
    method StartBlock()
      requires Valid() && blockstart != mtdoffset - mtdoffset % dev.ebSize
      modifies this`blockstart, this`filebufLen, this`writebuf, filebuf
      ensures Wired() && Now().Entering(Geometry(), input.content)
      ensures blockstart == mtdoffset == mtdoffset - mtdoffset % dev.ebSize
      ensures writebuf == 0 && filebufLen == if old(writebuf) == 0 then old(filebufLen) else 0
    {
      hide View.Inside, View.Fresh, View.Rewound, View.Entering, View.Sound, Start;
      ghost var g, content, v := Geometry(), input.content, Now();
      Outside(v, g, content);
      blockstart := mtdoffset - mtdoffset % dev.ebSize;
      if writebuf != 0 {
        EraseBuffer(0, filebufLen);
        filebufLen := 0;
        writebuf := 0;
        EnterFresh(v, g, content, filebuf[..]);
      } else {
        EnterRewound(v, g, content);
      }
    }

    /** The inner loop: go on to the next block that is not bad, keeping a buffer to be replayed. */
    method EnterBlock() returns (ok: bool)
      requires Valid()
      modifies this, filebuf, dev`faults
      ensures ok ==> Wired() && Now().Inside(Geometry(), input.content) && dev.faults == old(dev.faults)
      ensures !ok && dev.faults == old(dev.faults) ==>
        Connected() && Now().Entering(Geometry(), input.content) && block == dev.ebCnt
      ensures old(dev.faults) <= dev.faults
      ensures dev.faults == old(dev.faults) || Fatal(old(dev.faults), dev.faults, dev.bbAllowed)
      ensures dev.faults == old(dev.faults) || !ok
      ensures mtdoffset >= old(mtdoffset) && imglen == old(imglen)
      ensures old(writebuf) < 0 || old(writebuf) >= old(filebufLen) || filebufLen > writebuf
    {
      hide View.Sound, View.Inside, View.Entering, Start, Fatal, Queried;
      ghost var v, g, content := Now(), Geometry(), input.content;
      BlockBound(v, g, content);
      while blockstart != mtdoffset - mtdoffset % dev.ebSize
        invariant Valid() && block <= dev.ebCnt && mtdoffset >= old(mtdoffset) && imglen == old(imglen)
        invariant dev.faults == old(dev.faults)
        invariant old(writebuf) < 0 || old(writebuf) >= old(filebufLen) || filebufLen > writebuf
        invariant (writebuf == old(writebuf) && filebufLen == old(filebufLen)) || writebuf == 0
        decreases dev.ebCnt + 1 - block, if blockstart == mtdoffset - mtdoffset % dev.ebSize then 0 else 1
      {
        Outside(Now(), g, content);
        Stale(Now(), g, content);
        ok := TryBlock();
        if !ok {
          Asked(old(dev.faults), dev.faults, dev.bbAllowed);
          return;
        }
      }
      AtHome(Now(), g, content);
      return true;
    }

    /** Read a page of input into the buffer unless it is there already. */
    method FillPage() returns (res: PageResult)
      requires Wired() && Now().Inside(Geometry(), input.content) && input.pos <= Needed(size, dev.minIo)
      requires writebuf < filebufLen || imglen > 0 || input.pos == 0
      modifies this`filebufLen, this`imglen, filebuf, input
      ensures res != ReadError ==> Wired() && Now().Inside(Geometry(), input.content)
      ensures res == Ready ==> writebuf + dev.minIo <= filebufLen && 0 < input.pos <= Needed(size, dev.minIo)
      ensures res == EndOfFile ==> input.pos == old(input.pos) == |input.content| && writebuf == filebufLen
      ensures res == EndOfFile ==> imglen == old(imglen)
      ensures Disturbed(old(input.failures), old(input.interrupts)) <==> res == ReadError
    {
      hide View.Inside, Start;
      ghost var g, content, v := Geometry(), input.content, Now();
      PageRoom(v, g, content);
      if writebuf + dev.minIo > filebufLen {
        var readlen, alreadyread := dev.minIo, filebufLen - writebuf;
        var tinycnt := ReadUpTo(alreadyread, readlen);
        if tinycnt < 0 {
          return ReadError;
        }
        if tinycnt == 0 {
          NothingRead(v, g, content, filebuf[..]);
          return EndOfFile;
        }
        PageNeeded(v, g, content, tinycnt, size);
        PageArrived(v.buf, filebuf[..], writebuf, tinycnt, content, v.pos);
        TakePage(tinycnt, readlen, alreadyread, v);
      }
      SomethingHeld(Now(), g, content);
      return Ready;
    }

    /** A read of the input has failed or has been interrupted. */
    ghost predicate Disturbed(failures: nat, interrupts: nat)
      reads input
    {
      input.failures != failures || input.interrupts != interrupts
    }

    /** A page that has arrived in the buffer, or its first part at the end of the file. */
    method TakePage(tinycnt: nat, readlen: nat, alreadyread: nat, ghost v: View)
      requires v.Inside(Geometry(), input.content) && v.len == v.offset && readlen == dev.minIo && alreadyread == 0
      requires Connected() && Now() == v.(buf := filebuf[..], pos := v.pos + tinycnt) && imglen == size - v.pos
      requires v.offset + dev.minIo <= dev.ebSize && |v.buf| == dev.ebSize && 0 <= writebuf == v.offset
      requires 0 < tinycnt <= readlen && (tinycnt < readlen ==> input.pos == |input.content|)
      requires filebuf[..writebuf] == v.buf[..writebuf]
      requires filebuf[writebuf..writebuf + tinycnt] == input.content[v.pos..v.pos + tinycnt]
      modifies this`filebufLen, this`imglen, filebuf
      ensures Wired() && Now().Inside(Geometry(), input.content) && writebuf + dev.minIo <= filebufLen
    {
      hide View.Inside, Start;
      PadPage(tinycnt, readlen);
      PageRead(v, Geometry(), input.content, filebuf[..], tinycnt);
      filebufLen := filebufLen + readlen - alreadyread;
      imglen := imglen - (tinycnt - alreadyread);
    }

    /** Erase what is left of a page in the buffer. */
    method PadPage(tinycnt: nat, readlen: nat)
      requires 0 <= writebuf && writebuf + readlen <= filebuf.Length && tinycnt <= readlen
      modifies filebuf
      ensures filebuf[..writebuf] == old(filebuf[..writebuf])
      ensures filebuf[writebuf..writebuf + readlen]
        == old(filebuf[writebuf..writebuf + tinycnt]) + Blank(readlen - tinycnt)
    {
      ghost var raw := filebuf[..];
      if tinycnt < readlen {
        EraseBuffer(writebuf + tinycnt, readlen - tinycnt);
      }
      PaddedPage(raw, filebuf[..], writebuf, tinycnt, readlen);
    }

    /** The read loop: go on until there are readlen bytes, or the file ends; negative on an error. */
    method ReadUpTo(already: nat, readlen: nat) returns (tinycnt: int)
      requires Wired() && already <= readlen && 0 <= writebuf && writebuf + readlen <= filebuf.Length
      modifies filebuf, input
      ensures input.Valid() && tinycnt <= readlen
      ensures tinycnt < 0 <==> Disturbed(old(input.failures), old(input.interrupts))
      ensures tinycnt >= 0 ==> already <= tinycnt && input.pos == old(input.pos) + tinycnt - already
      ensures 0 <= tinycnt < readlen ==> input.pos == |input.content|
      ensures tinycnt >= 0 ==> forall i :: 0 <= i < filebuf.Length ==>
        filebuf[i] == if writebuf + already <= i < writebuf + tinycnt
          then input.content[old(input.pos) + i - (writebuf + already)] else old(filebuf[i])
    {
      ghost var at, pos0 := writebuf + already, input.pos;
      tinycnt := already;
      while tinycnt < readlen
        invariant input.Valid() && already <= tinycnt <= readlen && input.pos == pos0 + tinycnt - already
        invariant !Disturbed(old(input.failures), old(input.interrupts))
        invariant forall i :: 0 <= i < filebuf.Length ==>
          filebuf[i] == if at <= i < writebuf + tinycnt then input.content[pos0 + i - at] else old(filebuf[i])
      {
        var cnt, eintr := input.Read(filebuf, writebuf + tinycnt, readlen - tinycnt);
        if cnt == 0 {
          break;
        }
        if cnt < 0 {
          return -1;
        }
        tinycnt := tinycnt + cnt;
      }
    }

    /** Write the current page; on an I/O error give the block up and rewind. False: stop. */
    method WriteOut() returns (ok: bool)
      requires Wired() && Now().Inside(Geometry(), input.content) && writebuf + dev.minIo <= filebufLen
      modifies this, dev
      ensures ok ==> Valid() && mtdoffset > old(mtdoffset) && imglen == old(imglen) && writebuf >= 0
      ensures ok <==> !Fatal(old(dev.faults), dev.faults, dev.bbAllowed)
      ensures Logged(old(dev.faults), old(dev.bad)) && old(dev.faults) <= dev.faults
      ensures Kept(old(dev.blocks), old(dev.bad), dev.blocks, dev.bad)
    {
      hide View.Inside, View.Fresh, View.Rewound, View.Sound, Start, Fatal, Refused, Explained;
      ghost var g, content, v, faults := Geometry(), input.content, Now(), dev.faults;
      PageRoom(v, g, content);
      InsideParts(v, g, content);
      NothingNew(faults, dev.bbAllowed);
      SameExplained(faults, dev.bad, faults);
      Aligned(v, g, content, dev.subpage);
      OneMore(faults, Fault(Writing, block, true, Usual), dev.bbAllowed);
      OneMore(faults, Fault(Writing, block, false, Usual), dev.bbAllowed);
      SameExplained(faults, dev.bad, faults + [Fault(Writing, block, false, Usual)]);
      var st := dev.Write(mtdoffset / dev.ebSize, mtdoffset % dev.ebSize, filebuf[writebuf..writebuf + dev.minIo]);
      if st != Done {
        if st != Eio {
          return false;
        }
        ghost var refused := dev.faults;
        ok := GiveUp(v);
        FatalParts(faults, refused, dev.faults, dev.bbAllowed);
        if ok {
          GivenUp(faults, v.bad, v.block, dev.faults);
        } else {
          SameExplained(faults, v.bad, dev.faults);
        }
        return;
      }
      mtdoffset := mtdoffset + dev.minIo;
      writebuf := writebuf + dev.minIo;
      if offset + dev.minIo == dev.ebSize {
        BlockWritten(v, g, content);
        block, offset := block + 1, 0;
      } else {
        PageWritten(v, g, content);
        offset := offset + dev.minIo;
      }
      return true;
    }

    /** After an I/O error: try to erase the block, mark it bad, and go on behind it with the same data. */
    method GiveUp(ghost v: View) returns (ok: bool)
      requires Wired() && v.Inside(Geometry(), input.content) && Now() == v.(blocks := dev.blocks)
      requires |v.blocks| == dev.ebCnt
      requires forall b :: 0 <= b < dev.ebCnt && b != v.block ==> dev.blocks[b] == v.blocks[b]
      modifies this, dev
      ensures ok ==> Valid() && mtdoffset > old(mtdoffset) && imglen == old(imglen) && writebuf >= 0
      ensures old(dev.faults) <= dev.faults
      ensures ok <==> dev.bbAllowed && !Fatal(old(dev.faults), dev.faults, dev.bbAllowed)
      ensures !ok ==> dev.bad == old(dev.bad)
      ensures ok ==> dev.bad == old(dev.bad)[v.block := true]
      ensures |dev.blocks| == |dev.bad| == dev.ebCnt
      ensures forall b :: 0 <= b < dev.ebCnt && b != v.block ==>
        dev.blocks[b] == old(dev.blocks)[b] && dev.bad[b] == old(dev.bad)[b]
    {
      hide View.Inside, View.Fresh, View.Rewound, View.Sound, Start, Fatal;
      ghost var g, content, faults := Geometry(), input.content, dev.faults;
      InsideParts(v, g, content);
      NothingNew(faults, dev.bbAllowed);
      OneMore(faults, Fault(Erasing, block, true, Usual), dev.bbAllowed);
      OneMore(faults, Fault(Erasing, block, false, Usual), dev.bbAllowed);
      writebuf := 0;
      var est := dev.Erase(blockstart / dev.ebSize);
      if est == Failed {
        return false;
      }
      ghost var erased := dev.faults;
      NothingNew(erased, dev.bbAllowed);
      OneMore(erased, Fault(Marking, block, false, Usual), dev.bbAllowed);
      FatalParts(faults, erased, erased + [Fault(Marking, block, false, Usual)], dev.bbAllowed);
      var marked := dev.MarkBad(mtdoffset / dev.ebSize);
      if !marked {
        return false;
      }
      BlockAbandoned(v, g, content, dev.blocks);
      mtdoffset := blockstart + dev.ebSize;
      block, offset := block + 1, 0;
      return true;
    }

    /** The new failures explain the new bad blocks. */
    ghost predicate Logged(faults: seq<Fault>, bad: seq<bool>)
      reads dev`faults, dev`bad
    {
      Explained(faults, bad, dev.faults, dev.bad)
    }

    lemma KeptSelf()
      requires dev.Valid()
      ensures Kept(dev.blocks, dev.bad, dev.blocks, dev.bad) && |dev.bad| == dev.ebCnt
    {}

    /** One round of the loop: find a block, fill a page, and write it. */
    method WritePage() returns (round: Round)
      requires Valid() && input.pos <= Needed(size, dev.minIo)
      requires if writebuf < 0 then input.pos == 0 else input.pos > 0
      requires imglen > 0 || writebuf < filebufLen
      modifies this, filebuf, input, dev
      ensures Kept(old(dev.blocks), old(dev.bad), dev.blocks, dev.bad)
      ensures Logged(old(dev.faults), old(dev.bad)) && old(dev.faults) <= dev.faults
      ensures round != Abort ==> Valid() && input.pos <= Needed(size, dev.minIo) && writebuf >= 0
      ensures round != Abort ==> !Fatal(old(dev.faults), dev.faults, dev.bbAllowed)
      ensures round != Abort ==> !Disturbed(old(input.failures), old(input.interrupts))
      ensures round == Abort ==>
        || Fatal(old(dev.faults), dev.faults, dev.bbAllowed) || Disturbed(old(input.failures), old(input.interrupts))
        || |input.content| < size
        || (|dev.bad| == dev.ebCnt && Start(Usable(dev.bad, dev.ebCnt), dev.ebSize) < Needed(size, dev.minIo))
      ensures round == GoOn ==> input.pos > 0 && mtdoffset > old(mtdoffset)
      ensures round == NoMore ==>
        && Now().Inside(Geometry(), input.content) && input.pos == |input.content| && writebuf == filebufLen
    {
      hide View.Inside, View.Sound, View.Entering, Start, Fatal, Needed, Usable, Explained;
      ghost var faults, bad := dev.faults, dev.bad;
      var ok := EnterBlock();
      SameExplained(faults, bad, dev.faults);
      if !ok {
        if dev.faults == faults {
          EnteringOutOfRoom(Now(), Geometry(), input.content, size);
        }
        return Abort;
      }
      NothingNew(faults, dev.bbAllowed);
      var page := FillPage();
      if page == ReadError {
        return Abort;
      }
      if page == EndOfFile {
        InsideSound(Now(), Geometry(), input.content);
        return NoMore;
      }
      ok := WriteOut();
      return if ok then GoOn else Abort;
    }

    /**
     * The whole loop. The result is the condition under which the program reports that data was
     * only partially written; otherwise the good blocks, read in order, hold the input, padded with
     * erased bytes to whole pages. It reports it if and only if an operation has failed for good, the file has
     * ended early, or the blocks that are not bad are too few.
     */
    method Run() returns (partial: bool)
      requires Valid() && Unstarted() && dev.ebCnt > 0
      modifies this, filebuf, input, dev
      ensures Kept(old(dev.blocks), old(dev.bad), dev.blocks, dev.bad)
      ensures Logged(old(dev.faults), old(dev.bad)) && |dev.bad| == dev.ebCnt && dev.minIo > 0
      ensures dev.faults == old(dev.faults) ==> dev.bad == old(dev.bad)
      ensures partial <==>
        || Fatal(old(dev.faults), dev.faults, dev.bbAllowed) || Disturbed(old(input.failures), old(input.interrupts))
        || |input.content| < size || Start(Usable(dev.bad, dev.ebCnt), dev.ebSize) < Needed(size, dev.minIo)
      ensures !partial ==>
        && block <= dev.ebCnt && offset < dev.ebSize && (offset > 0 ==> block < dev.ebCnt)
        && dev.Valid() && input.pos <= |input.content|
        && mtdoffset == Start(block, dev.ebSize) + offset
      ensures !partial ==>
        Written(dev.blocks, dev.bad, block, offset) == Padded(input.content[..input.pos], dev.minIo)
      ensures !partial ==> input.pos >= size
      ensures !partial && size >= |input.content| ==>
        Written(dev.blocks, dev.bad, block, offset) == Padded(input.content, dev.minIo)
    {
      hide View.Inside, View.Sound, Start, Good, Padded, Written, Fatal, Needed, Usable, Explained, IsBlank, Kept;
      KeptSelf();
      NothingNew(dev.faults, dev.bbAllowed);
      NothingExplained(dev.faults, dev.bad);
      SameExplained(dev.faults, dev.bad, dev.faults);
      StartSizes(Now(), Geometry(), input.content, size);
      if (imglen / dev.minIo) * dev.minIo > Start(dev.ebCnt, dev.ebSize) {
        return true;
      }
      var failed;
      ghost var home;
      failed, home := WriteAll();
      if failed {
        return true;
      }
      if imglen > 0 || writebuf < filebufLen {
        if !home && |input.content| >= size {
          SoundOutOfRoom(Now(), Geometry(), input.content, size);
        }
        return true;
      }
      Finished(Now(), Geometry(), input.content);
      SoundParts(Now(), Geometry(), input.content);
      EnoughRoom(Now(), Geometry(), input.content, size);
      assert size >= |input.content| ==> input.content[..input.pos] == input.content;
      return false;
    }

    /** The loop; at home, it has ended inside a block, because the input has. */
    method WriteAll() returns (failed: bool, ghost home: bool)
      requires Valid() && input.pos <= Needed(size, dev.minIo)
      requires writebuf < 0 && filebufLen == input.pos == 0
      modifies this, filebuf, input, dev
      ensures Kept(old(dev.blocks), old(dev.bad), dev.blocks, dev.bad)
      ensures Logged(old(dev.faults), old(dev.bad)) && |dev.bad| == dev.ebCnt
      ensures failed ==>
        || Fatal(old(dev.faults), dev.faults, dev.bbAllowed) || Disturbed(old(input.failures), old(input.interrupts))
        || |input.content| < size
        || Start(Usable(dev.bad, dev.ebCnt), dev.ebSize) < Needed(size, dev.minIo)
      ensures !failed ==>
        && Valid() && !Fatal(old(dev.faults), dev.faults, dev.bbAllowed)
        && !Disturbed(old(input.failures), old(input.interrupts)) && input.pos <= Needed(size, dev.minIo)
      ensures !failed && home ==>
        Now().Inside(Geometry(), input.content) && input.pos == |input.content| && writebuf == filebufLen
      ensures !failed && !home ==>
        && ((imglen <= 0 && writebuf >= filebufLen) || mtdoffset >= Start(dev.ebCnt, dev.ebSize))
        && if writebuf < 0 then input.pos == 0 else input.pos > 0
    {
      hide View.Inside, View.Sound, Start, Fatal, Needed, Usable, Explained, IsBlank, Kept;
      KeptSelf();
      NothingNew(dev.faults, dev.bbAllowed);
      SameExplained(dev.faults, dev.bad, dev.faults);
      while (imglen > 0 || writebuf < filebufLen) && mtdoffset < Start(dev.ebCnt, dev.ebSize)
        invariant Valid() && Kept(old(dev.blocks), old(dev.bad), dev.blocks, dev.bad)
        invariant Logged(old(dev.faults), old(dev.bad)) && old(dev.faults) <= dev.faults && |dev.bad| == dev.ebCnt
        invariant !Fatal(old(dev.faults), dev.faults, dev.bbAllowed)
        invariant !Disturbed(old(input.failures), old(input.interrupts))
        invariant input.pos <= Needed(size, dev.minIo)
        invariant if writebuf < 0 then input.pos == 0 else input.pos > 0
        decreases Start(dev.ebCnt, dev.ebSize) - mtdoffset
      {
        ghost var blocks, faults, bad := dev.blocks, dev.faults, dev.bad;
        var round := WritePage();
        KeptMore(old(dev.blocks), old(dev.bad), blocks, bad, dev.blocks, dev.bad);
        FatalParts(old(dev.faults), faults, dev.faults, dev.bbAllowed);
        ExplainedMore(old(dev.faults), old(dev.bad), faults, bad, dev.faults, dev.bad);
        if round != GoOn {
          return round == Abort, true;
        }
      }
      return false, false;
    }
  }

  lemma PaddedLength(s: seq<bv8>, page: nat)
    requires page > 0
    ensures |s| <= |Padded(s, page)| && |Padded(s, page)| % page == 0
  {
    var m := |s| % page;
    DivIdentity(|s|, page);
    if m == 0 {
      assert (page - 0) % page == 0;
    } else {
      DivOf(page - m, 0, page, page - m);
      assert |s| + (page - m) == (|s| / page + 1) * page;
      DivOf(|s| + (page - m), |s| / page + 1, page, 0);
    }
  }

  lemma NeededPages(size: nat, page: nat)
    requires page > 0
    ensures Needed(size, page) % page == 0 && size <= Needed(size, page) && page <= Needed(size, page)
    ensures forall n: nat :: size <= n && 0 < n && n % page == 0 ==> Needed(size, page) <= n
  {
    hide RoundUp;
    var n := if size == 0 then 1 else size;
    RoundUpLeast(n, page);
    PagesApart(0, RoundUp(n, page), page);
  }

  /** At the start: an image that is too large for the device is too large for its good blocks. */
  lemma StartSizes(v: View, g: Shape, content: seq<bv8>, size: nat)
    requires v.Sound(g, content) && v.wb < 0
    ensures g.Valid() && v.pos == 0 && |v.bad| == g.cnt && 0 <= Needed(size, g.page)
    ensures (size / g.page) * g.page > Start(g.cnt, g.eb) ==> Start(Usable(v.bad, g.cnt), g.eb) < Needed(size, g.page)
  {
    hide Start, Needed, Padded, Good;
    NeededPages(size, g.page);
    DivIdentity(size, g.page);
    UsableAtMost(v.bad, g.cnt);
    StartMore(Usable(v.bad, g.cnt), g.cnt, g.eb);
  }

  lemma {:induction false} UsableAtMost(bad: seq<bool>, n: nat)
    requires n <= |bad|
    ensures Usable(bad, n) <= n
  {
    if n > 0 {
      UsableAtMost(bad, n - 1);
    }
  }

  /** Behind the last block, with something left to write: the good blocks are too few. */
  lemma OutOfRoom(v: View, g: Shape, content: seq<bv8>, held: seq<bv8>, size: nat)
    requires v.Typed(g, content) && v.block == g.cnt && v.Carries(g, content, held)
    requires v.pos <= Needed(size, g.page) && size <= |content| && (|held| > 0 || v.pos < size || v.pos == 0)
    ensures Start(Usable(v.bad, g.cnt), g.eb) < Needed(size, g.page)
  {
    hide Start, Needed, Good, IsBlank;
    GoodLength(v.blocks, v.bad, g.cnt, g.eb);
    NeededPages(size, g.page);
    TailLength(content, v.pos, g.page);
  }

  /** Up to a page boundary there is no padding, and at the end of the file it goes up to the next boundary. */
  lemma TailLength(content: seq<bv8>, pos: nat, page: nat)
    requires page > 0 && pos <= |content|
    ensures pos % page == 0 ==> |Padded(content[..pos], page)| == pos
    ensures forall n: nat :: pos <= n && n % page == 0 ==> |Padded(content[..pos], page)| <= n
  {
    PaddedLength(content[..pos], page);
    PaddedShort(content[..pos], page);
    forall n: nat | pos <= n && n % page == 0
      ensures |Padded(content[..pos], page)| <= n
    {
      if n < |Padded(content[..pos], page)| {
        PagesApart(n, |Padded(content[..pos], page)|, page);
      }
    }
    assert pos % page == 0 ==> (page - 0) % page == 0;
  }

  lemma PaddedShort(s: seq<bv8>, page: nat)
    requires page > 0
    ensures |Padded(s, page)| < |s| + page
  {}

  lemma EnteringOutOfRoom(v: View, g: Shape, content: seq<bv8>, size: nat)
    requires v.Entering(g, content) && v.block == g.cnt && v.pos <= Needed(size, g.page)
    requires v.len > v.wb || v.pos < size || v.pos == 0
    ensures size <= |content| ==> Start(Usable(v.bad, g.cnt), g.eb) < Needed(size, g.page)
  {
    hide Start, Needed, Good, IsBlank, Padded, Usable;
    if size <= |content| {
      OutOfRoom(v, g, content, v.buf[..v.len], size);
    }
  }

  lemma SoundOutOfRoom(v: View, g: Shape, content: seq<bv8>, size: nat)
    requires v.Sound(g, content) && v.Mtd(g) >= Start(g.cnt, g.eb) && v.pos <= Needed(size, g.page)
    requires (v.wb < v.len || v.pos < size) && size <= |content|
    ensures Start(Usable(v.bad, g.cnt), g.eb) < Needed(size, g.page)
  {
    hide Start, Needed, Good, IsBlank, Padded, Usable;
    if v.block < g.cnt {
      StartMore(v.block + 1, g.cnt, g.eb);
      StartParts(v.block, g.eb, v.offset);
    }
    if v.Fresh(g, content) {
      OutOfRoom(v, g, content, [], size);
    } else {
      OutOfRoom(v, g, content, v.buf[..v.len], size);
    }
  }

  /** When all is written, the good blocks were enough. */
  lemma EnoughRoom(v: View, g: Shape, content: seq<bv8>, size: nat)
    requires v.Sound(g, content) && v.wb >= v.len && v.pos >= size && (v.pos > 0 || v.Inside(g, content))
    ensures Needed(size, g.page) <= Start(Usable(v.bad, g.cnt), g.eb)
  {
    hide Start, Needed, IsBlank, Padded, Usable;
    Finished(v, g, content);
    NeededPages(size, g.page);
    PaddedLength(content[..v.pos], g.page);
    GoodLength(v.blocks, v.bad, v.block, g.eb);
    UsableMore(v.bad, v.block, g.cnt);
    StartMore(Usable(v.bad, v.block), Usable(v.bad, g.cnt), g.eb);
    if v.pos == 0 {
      PagesApart(0, g.eb, g.page);
      StartMore(0, Usable(v.bad, v.block), g.eb);
    }
  }

  /** A page that is in the buffer has been read. */
  lemma SomethingHeld(v: View, g: Shape, content: seq<bv8>)
    requires v.Inside(g, content)
    ensures v.len > 0 ==> v.pos > 0
  {
    hide Start, Good, IsBlank;
    if v.pos == 0 {
      assert content[..0] == [];
      TailLength(content, 0, g.page);
    }
  }

  /** Nothing is read that is not needed. */
  lemma PageNeeded(v: View, g: Shape, content: seq<bv8>, cnt: nat, size: nat)
    requires v.Inside(g, content) && v.pos <= Needed(size, g.page) && (v.pos < size || v.pos == 0)
    requires 0 < cnt <= g.page && v.pos + cnt <= |content|
    ensures v.pos + cnt <= Needed(size, g.page)
  {
    hide Start, Good, IsBlank, Padded, Needed;
    NeededPages(size, g.page);
    PagesApart(v.pos, Needed(size, g.page), g.page);
  }

  lemma InsideSound(v: View, g: Shape, content: seq<bv8>)
    requires v.Inside(g, content)
    ensures v.Sound(g, content)
  {}

  lemma SoundParts(v: View, g: Shape, content: seq<bv8>)
    requires v.Sound(g, content)
    ensures v.block <= g.cnt && v.offset < g.eb && (v.offset > 0 ==> v.block < g.cnt) && v.pos <= |content|
  {}

  /** Bad blocks stay bad and are never touched. */
  ghost predicate Kept(blocks: seq<Block>, bad: seq<bool>, blocks': seq<Block>, bad': seq<bool>) {
    && |blocks| == |bad| == |blocks'| == |bad'|
    && forall b :: 0 <= b < |bad| && bad[b] ==> bad'[b] && blocks'[b] == blocks[b]
  }

  lemma KeptMore(blocks: seq<Block>, bad: seq<bool>, blocks': seq<Block>, bad': seq<bool>, blocks'': seq<Block>,
                 bad'': seq<bool>)
    requires Kept(blocks, bad, blocks', bad') && Kept(blocks', bad', blocks'', bad'')
    ensures Kept(blocks, bad, blocks'', bad'') && |bad''| == |bad|
  {}

  lemma InsideParts(v: View, g: Shape, content: seq<bv8>)
    requires v.Inside(g, content)
    ensures v.block < g.cnt && v.offset < g.eb && v.start == Start(v.block, g.eb) && !v.bad[v.block]
    ensures v.Mtd(g) / g.eb == v.block && v.Mtd(g) % g.eb == v.offset && v.start / g.eb == v.block
    ensures v.start + g.eb > v.Mtd(g)
  {
    hide Start, Good, Padded, IsBlank;
    StartParts(v.block, g.eb, v.offset);
    StartParts(v.block, g.eb, 0);
  }

  /** A page always fits in the buffer, and the buffer ends either here or at least a page further on. */
  lemma PageRoom(v: View, g: Shape, content: seq<bv8>)
    requires v.Inside(g, content)
    ensures g.Valid() && 0 <= v.wb == v.offset <= v.len <= g.eb == |v.buf| && v.offset + g.page <= g.eb
    ensures v.wb + g.page > v.len ==> v.len == v.wb
  {
    hide Start, Good, Padded, IsBlank;
    PagesApart(v.offset, g.eb, g.page);
    if v.offset < v.len { PagesApart(v.offset, v.len, g.page); }
  }

  lemma Aligned(v: View, g: Shape, content: seq<bv8>, subpage: nat)
    requires v.Inside(g, content) && 0 < subpage && g.page % subpage == 0
    ensures v.offset % subpage == 0
  {
    hide Start, Good, Padded, IsBlank;
    MultipleOf(v.offset, g.page, subpage);
  }

  lemma NothingRead(v: View, g: Shape, content: seq<bv8>, buf: seq<bv8>)
    requires v.Inside(g, content) && buf == v.buf
    ensures v.(buf := buf).Inside(g, content)
  {}

  lemma PageArrived(was: seq<bv8>, now: seq<bv8>, at: nat, cnt: nat, content: seq<bv8>, pos: nat)
    requires |was| == |now| && at + cnt <= |now| && pos + cnt <= |content|
    requires forall i :: 0 <= i < |now| ==> now[i] == if at <= i < at + cnt then content[pos + i - at] else was[i]
    ensures now[..at] == was[..at] && now[at..at + cnt] == content[pos..pos + cnt]
  {}

  lemma PaddedPage(raw: seq<bv8>, buf: seq<bv8>, at: nat, cnt: nat, page: nat)
    requires |raw| == |buf| && at + page <= |buf| && cnt <= page
    requires forall i :: 0 <= i < |buf| ==> buf[i] == if at + cnt <= i < at + page then ERASED else raw[i]
    ensures buf[at..at + page] == raw[at..at + cnt] + Blank(page - cnt)
    ensures buf[..at] == raw[..at]
  {}

  lemma BlockBound(v: View, g: Shape, content: seq<bv8>)
    requires v.Sound(g, content)
    ensures v.block <= g.cnt && g.Valid()
  {}

  lemma StartFresh(v: View, g: Shape, content: seq<bv8>)
    requires g.Valid() && |v.blocks| == |v.bad| == g.cnt && |v.buf| == g.eb
    requires forall b :: 0 <= b < g.cnt ==> |v.blocks[b]| == g.eb && (!v.bad[b] ==> IsBlank(v.blocks[b]))
    requires v.len == 0 && v.wb == v.start == -1 && v.block == v.offset == v.pos == 0
    ensures v.Fresh(g, content) && v.Mtd(g) == 0
  {
    hide IsBlank;
    assert content[..0] == [];
    assert Tail(0, g.page) == 0;
  }

  /** At a boundary, something is left in the buffer only if it is to be replayed. */
  lemma Stale(v: View, g: Shape, content: seq<bv8>)
    requires v.Fresh(g, content) || v.Rewound(g, content)
    ensures v.wb < 0 || v.wb >= v.len || v.wb == 0
  {}

  /** A state whose block start matches its offset is inside the block. */
  lemma AtHome(v: View, g: Shape, content: seq<bv8>)
    requires v.Sound(g, content) && v.start == v.Mtd(g) - v.Mtd(g) % g.eb
    ensures v.Inside(g, content)
  {
    hide Start, Good, Padded;
    StartParts(v.block, g.eb, v.offset);
  }

  /** Away from the start of the current block, the state is one of the two at a boundary. */
  lemma Outside(v: View, g: Shape, content: seq<bv8>)
    requires v.Sound(g, content) && v.start != v.Mtd(g) - v.Mtd(g) % g.eb
    ensures v.wb == 0 ==> v.Rewound(g, content)
    ensures v.wb != 0 ==> v.Fresh(g, content)
    ensures v.Mtd(g) - v.Mtd(g) % g.eb == v.Mtd(g) == Start(v.block, g.eb)
    ensures v.Mtd(g) / g.eb == v.block <= g.cnt && v.len <= g.eb
  {
    hide Start, Good, Padded;
    StartParts(v.block, g.eb, v.offset);
  }
}

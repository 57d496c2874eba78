/** An MTD device: eraseblocks with a bad flag, and operations that may fail. */
module Flash {
  type Block = seq<bv8>

  /** Success, an I/O error (EIO), or any other error. */
  datatype Status = Done | Eio | Failed

  datatype Operation = Query | Reading | Marking | Erasing | Writing

  /** What an operation is for: the torture test and the layout volume treat failures in their own ways. */
  datatype Purpose = Usual | Test | Table

  /** An operation on an eraseblock that the driver has refused. */
  datatype Fault = Fault(op: Operation, eb: nat, eio: bool, why: Purpose)

  /**
   * A failure after which the programs give up. Usually, an I/O error of a write or an erase is not one if the device
   * lets blocks be marked bad.
   */
  predicate Stops(f: Fault, marks: bool) {
    f.why == Table || (f.why == Usual && (!f.eio || !marks))
  }

  /** There has been such a failure since then. */
  predicate Fatal(was: seq<Fault>, now: seq<Fault>, marks: bool) {
    exists i :: |was| <= i < |now| && Stops(now[i], marks)
  }

  lemma FatalParts(a: seq<Fault>, b: seq<Fault>, c: seq<Fault>, marks: bool)
    requires a <= b <= c
    ensures a <= c && (Fatal(a, c, marks) <==> Fatal(a, b, marks) || Fatal(b, c, marks))
  {
    if Fatal(a, c, marks) {
      var i :| |a| <= i < |c| && Stops(c[i], marks);
      assert i < |b| ==> b[i] == c[i];
    }
    if Fatal(a, b, marks) {
      var i :| |a| <= i < |b| && Stops(b[i], marks);
      assert b[i] == c[i];
    }
  }

  lemma NothingNew(a: seq<Fault>, marks: bool)
    ensures !Fatal(a, a, marks)
  {}

  lemma OneMore(a: seq<Fault>, f: Fault, marks: bool)
    ensures a <= a + [f] && (Fatal(a, a + [f], marks) <==> Stops(f, marks))
  {
    assert (a + [f])[|a|] == f;
  }

  const ERASED: bv8 := 0xFF

  /** Programming can only clear bits. */
  function Program(cell: bv8, data: bv8): bv8 { cell & data }

  lemma ProgramErased(data: bv8)
    ensures Program(ERASED, data) == data
    ensures Program(data, ERASED) == data
  {}

  function Blank(n: nat): (r: Block)
    ensures |r| == n && forall i :: 0 <= i < n ==> r[i] == ERASED
  {
    seq(n, _ => ERASED)
  }

  ghost predicate IsBlank(s: Block) {
    forall i :: 0 <= i < |s| ==> s[i] == ERASED
  }

  /** The contents of a block after a successful write. */
  function Programmed(b: Block, offs: nat, data: seq<bv8>): (r: Block)
    requires offs + |data| <= |b|
    ensures |r| == |b|
    ensures forall i :: 0 <= i < |b| ==>
      r[i] == if offs <= i < offs + |data| then Program(b[i], data[i - offs]) else b[i]
  {
    seq(|b|, i requires 0 <= i < |b| => if offs <= i < offs + |data| then Program(b[i], data[i - offs]) else b[i])
  }

  /** Writing to erased cells stores the data. */
  lemma ProgrammedErased(b: Block, offs: nat, data: seq<bv8>)
    requires offs + |data| <= |b| && IsBlank(b[offs..offs + |data|])
    ensures Programmed(b, offs, data) == b[..offs] + data + b[offs + |data|..]
  {
    hide Program;
    forall i | 0 <= i < |b|
      ensures Programmed(b, offs, data)[i] == (b[..offs] + data + b[offs + |data|..])[i]
    {
      if offs <= i < offs + |data| {
        assert b[i] == b[offs..offs + |data|][i - offs];
        ProgramErased(data[i - offs]);
      }
    }
  }

  // Reading from a file that may deliver less than it is asked for.

  /** The eraseblocks as one file. */
  function Joined(bs: seq<Block>): seq<bv8> {
    if bs == [] then [] else bs[0] + Joined(bs[1..])
  }

  function Total(sizes: seq<nat>): nat {
    if sizes == [] then 0 else Total(sizes[..|sizes| - 1]) + sizes[|sizes| - 1]
  }

  /** The sizes of the first reads of a loop: none exceeds the buffer, and only the last one may bring enough bytes. */
  predicate Started(sizes: seq<nat>, len: nat) {
    && (forall i :: 0 <= i < |sizes| ==> 0 < sizes[i] <= len)
    && (sizes != [] ==> Total(sizes[..|sizes| - 1]) < len)
  }

  /** The sizes of all of them. */
  predicate Pieces(sizes: seq<nat>, len: nat) {
    Started(sizes, len) && len <= Total(sizes)
  }

  /** The reads before the last one. */
  lemma {:induction false} TotalGrows(sizes: seq<nat>)
    requires sizes != []
    ensures forall len :: Started(sizes, len) ==> Started(sizes[..|sizes| - 1], len)
  {
    var t := sizes[..|sizes| - 1];
    assert t != [] ==> Total(t) >= Total(t[..|t| - 1]);
  }

  /** What a buffer holds after reads of these sizes, each of them into its beginning. */
  function Overlaid(buf: seq<bv8>, file: seq<bv8>, sizes: seq<nat>): (r: seq<bv8>)
    requires Total(sizes) <= |file| && Started(sizes, |buf|)
    ensures |r| == |buf|
    decreases |sizes|
  {
    if sizes == [] then buf else
    var n := |sizes| - 1;
    var done := Total(sizes[..n]);
    TotalGrows(sizes);
    file[done..done + sizes[n]] + Overlaid(buf, file, sizes[..n])[sizes[n]..]
  }

  /** Whatever the file holds, the buffer ends up with what was asked for if and only if one read delivers it. */
  lemma {:induction false} OverlaidRight(sizes: seq<nat>, len: nat)
    requires Pieces(sizes, len)
    ensures (forall buf, file :: |buf| == len && Total(sizes) <= |file| ==> Overlaid(buf, file, sizes) == file[..len])
      <==> len == 0 || sizes == [len]
  {
    hide Overlaid;
    if len == 0 || sizes == [len] {
      forall buf, file | |buf| == len && Total(sizes) <= |file|
        ensures Overlaid(buf, file, sizes) == file[..len]
      {
        OverlaidWhole(buf, file, sizes);
      }
    } else {
      SeveralPieces(sizes, len);
      var n := |sizes| - 1;
      var done := Total(sizes[..n]);
      var buf, file: seq<bv8> := Blank(len), seq(Total(sizes), i => if i == done then 1 else 0);
      LastPiece(buf, file, sizes);
      assert Overlaid(buf, file, sizes)[0] == file[done] != file[0];
    }
  }

  lemma {:induction false} OverlaidWhole(buf: seq<bv8>, file: seq<bv8>, sizes: seq<nat>)
    requires Pieces(sizes, |buf|) && Total(sizes) <= |file| && (|buf| == 0 || sizes == [|buf|])
    ensures Overlaid(buf, file, sizes) == file[..|buf|]
  {
    if sizes != [] {
      assert sizes[..0] == [];
    }
  }

  lemma {:induction false} SeveralPieces(sizes: seq<nat>, len: nat)
    requires Pieces(sizes, len) && len != 0 && sizes != [len]
    ensures |sizes| >= 2 && 0 < Total(sizes[..|sizes| - 1]) < len
  {
    var n := |sizes| - 1;
    if n >= 1 {
      assert Total(sizes[..n]) >= sizes[..n][n - 1] > 0;
    } else {
      assert false;
    }
  }

  lemma {:induction false} LastPiece(buf: seq<bv8>, file: seq<bv8>, sizes: seq<nat>)
    requires sizes != [] && Total(sizes) <= |file| && Started(sizes, |buf|)
    ensures Total(sizes[..|sizes| - 1]) < |file|
    ensures Overlaid(buf, file, sizes)[0] == file[Total(sizes[..|sizes| - 1])]
  {}

  lemma {:induction false} OverlaidMore(buf: seq<bv8>, file: seq<bv8>, sizes: seq<nat>, n: nat)
    requires Started(sizes, |buf|) && Total(sizes) < |buf| && Total(sizes) + n <= |file| && 0 < n <= |buf|
    ensures Started(sizes + [n], |buf|) && Total(sizes + [n]) == Total(sizes) + n
    ensures Overlaid(buf, file, sizes + [n])
      == file[Total(sizes)..Total(sizes) + n] + Overlaid(buf, file, sizes)[n..]
  {
    assert (sizes + [n])[..|sizes|] == sizes;
  }

  lemma {:induction false} NoPieces(buf: seq<bv8>, file: seq<bv8>)
    ensures Total([]) == 0 && Started([], |buf|) && Overlaid(buf, file, []) == buf
  {}

  lemma {:induction false} JoinedStarts(bs: seq<Block>, eb: nat)
    requires eb < |bs|
    ensures |Joined(bs[eb..])| >= |bs[eb]| && Joined(bs[eb..])[..|bs[eb]|] == bs[eb]
  {}

  /** One read(2) into the beginning of a buffer of which the first len bytes are wanted. */
  method Deliver(data: seq<bv8>, buf: array<bv8>, ghost len: nat)
    requires |data| <= len <= buf.Length
    modifies buf
    ensures buf[..len] == data + old(buf[..len])[|data|..] && buf[len..] == old(buf[len..])
  {
    for i := 0 to |data|
      invariant forall j :: 0 <= j < buf.Length ==> buf[j] == if j < i then data[j] else old(buf[j])
    {
      buf[i] := data[i];
    }
  }

  /** The loop of mtd_read: after a short read, the next one starts again at the beginning of the buffer. */
  method ReadOn(file: seq<bv8>, buf: array<bv8>, len: nat) returns (ok: bool, ghost sizes: seq<nat>)
    requires len <= buf.Length && len <= |file|
    modifies buf
    ensures ok ==> Pieces(sizes, len) && Total(sizes) <= |file|
    ensures ok ==> buf[..len] == Overlaid(old(buf[..len]), file, sizes)
    ensures ok && (len == 0 || sizes == [len]) ==> buf[..len] == file[..len]
    ensures buf[len..] == old(buf[len..])
  {
    hide Overlaid, Total, Started;
    sizes := [];
    var done := 0;
    NoPieces(buf[..len], file);
    while done < len
      invariant done == Total(sizes) <= |file| && Started(sizes, len)
      invariant buf[..len] == Overlaid(old(buf[..len]), file, sizes) && buf[len..] == old(buf[len..])
      decreases len - done
    {
      if * {
        return false, sizes;
      }
      var cnt: nat := *;
      if cnt < 1 || cnt > len || done + cnt > |file| {
        cnt := 1;
      }
      OverlaidMore(old(buf[..len]), file, sizes, cnt);
      sizes := sizes + [cnt];
      Deliver(file[done..done + cnt], buf, len);
      done := done + cnt;
    }
    if len == 0 || sizes == [len] {
      OverlaidWhole(old(buf[..len]), file, sizes);
    }
    return true, sizes;
  }

  class Device {
    const ebSize: nat
    const ebCnt: nat
    const minIo: nat
    const subpage: nat
    const bbAllowed: bool
    var blocks: seq<Block>
    var bad: seq<bool>
    // Every operation that the driver has refused, in order.
    ghost var faults: seq<Fault>

    ghost predicate Valid()
      reads this`blocks, this`bad
    {
      && 0 < subpage <= minIo <= ebSize && minIo % subpage == 0 && ebSize % minIo == 0
      && |blocks| == |bad| == ebCnt
      && (forall b :: 0 <= b < ebCnt ==> |blocks[b]| == ebSize)
      && (!bbAllowed ==> forall b :: 0 <= b < ebCnt ==> !bad[b])
    }

    ghost predicate Exists(eb: int) {
      0 <= eb < ebCnt
    }

    /** mtd_is_bad: 1 or 0, or -1 if the block does not exist or the driver refuses. */
    method IsBad(eb: int) returns (ret: int)
      requires Valid()
      modifies this`faults
      ensures ret == -1 || (Exists(eb) && ret == if bad[eb] then 1 else 0)
      ensures faults == if ret == -1 && Exists(eb) then old(faults) + [Fault(Query, eb, false, Usual)] else old(faults)
    {
      if eb < 0 || eb >= ebCnt {
        return -1;
      }
      if !bbAllowed {
        return 0;
      }
      if * {
        faults := faults + [Fault(Query, eb, false, Usual)];
        return -1;
      }
      return if bad[eb] then 1 else 0;
    }

    /** The device file from a place in an eraseblock on. */
    function From(eb: nat, offs: nat): (file: seq<bv8>)
      requires Valid() && eb < ebCnt && offs <= ebSize
      reads this`blocks, this`bad
      ensures |file| >= ebSize - offs && file[..ebSize - offs] == blocks[eb][offs..]
    {
      JoinedStarts(blocks, eb);
      Joined(blocks[eb..])[offs..]
    }

    /** mtd_read. */
    method Read(eb: int, offs: int, buf: array<bv8>, len: nat, ghost why: Purpose := Usual)
      returns (ok: bool, ghost sizes: seq<nat>)
      requires Valid() && len <= buf.Length && buf as object != this
      modifies buf, this`faults
      ensures ok ==> Exists(eb) && 0 <= offs && offs + len <= ebSize && Pieces(sizes, len)
      ensures faults == if !ok && Exists(eb) && 0 <= offs && offs + len <= ebSize
        then old(faults) + [Fault(Reading, eb, false, why)] else old(faults)
      ensures ok ==> Total(sizes) <= |From(eb, offs)| && buf[..len] == Overlaid(old(buf[..len]), From(eb, offs), sizes)
      ensures ok && (len == 0 || sizes == [len]) ==> buf[..len] == blocks[eb][offs..offs + len]
      ensures buf[len..] == old(buf[len..])
    {
      hide Overlaid, Total, Started, From;
      if eb < 0 || eb >= ebCnt || offs < 0 || offs + len > ebSize {
        return false, [];
      }
      ok, sizes := ReadOn(From(eb, offs), buf, len);
      assert From(eb, offs)[..len] == From(eb, offs)[..ebSize - offs][..len];
      if !ok {
        faults := faults + [Fault(Reading, eb, false, why)];
      }
    }

    /** mtd_mark_bad. */
    method MarkBad(eb: int) returns (ok: bool)
      requires Valid()
      modifies this`bad, this`faults
      ensures Valid()
      ensures ok ==> Exists(eb) && bbAllowed && bad == old(bad)[eb := true]
      ensures !ok ==> bad == old(bad)
      ensures faults == if !ok && Exists(eb) && bbAllowed
        then old(faults) + [Fault(Marking, eb, false, Usual)] else old(faults)
    {
      if !bbAllowed || eb < 0 || eb >= ebCnt {
        return false;
      }
      if * {
        faults := faults + [Fault(Marking, eb, false, Usual)];
        return false;
      }
      bad := bad[eb := true];
      return true;
    }

    /** mtd_erase; a failed erase leaves the block in an unknown state. */
    method Erase(eb: int, ghost why: Purpose := Usual) returns (st: Status)
      requires Valid()
      modifies this`blocks, this`faults
      ensures Valid()
      ensures st.Done? ==> Exists(eb) && blocks == old(blocks)[eb := Blank(ebSize)]
      ensures st.Eio? ==> Exists(eb)
      ensures faults == if !st.Done? && Exists(eb)
        then old(faults) + [Fault(Erasing, eb, st.Eio?, why)] else old(faults)
      ensures forall b :: 0 <= b < ebCnt && b != eb ==> blocks[b] == old(blocks)[b]
    {
      if eb < 0 || eb >= ebCnt {
        return Failed;
      }
      if * {
        blocks := blocks[eb := Blank(ebSize)];
        return Done;
      }
      Scramble(eb);
      var eio: bool := *;
      st := if eio then Eio else Failed;
      faults := faults + [Fault(Erasing, eb, st.Eio?, why)];
    }

    /** What mtd_write demands of its arguments. */
    ghost predicate Writable(eb: int, offs: int, len: nat) {
      Exists(eb) && 0 <= offs && offs + len <= ebSize && subpage > 0 && offs % subpage == 0 && len % subpage == 0
    }

    /** mtd_write; a failed write leaves the block in an unknown state. */
    method Write(eb: int, offs: int, data: seq<bv8>, ghost why: Purpose := Usual) returns (st: Status)
      requires Valid()
      modifies this`blocks, this`faults
      ensures Valid()
      ensures st.Done? ==>
        Writable(eb, offs, |data|) && blocks == old(blocks)[eb := Programmed(old(blocks)[eb], offs, data)]
      ensures st.Eio? ==> Writable(eb, offs, |data|)
      ensures faults == if !st.Done? && Writable(eb, offs, |data|)
        then old(faults) + [Fault(Writing, eb, st.Eio?, why)] else old(faults)
      ensures forall b :: 0 <= b < ebCnt && b != eb ==> blocks[b] == old(blocks)[b]
    {
      if eb < 0 || eb >= ebCnt || offs < 0 || offs + |data| > ebSize || offs % subpage != 0 || |data| % subpage != 0 {
        return Failed;
      }
      if * {
        blocks := blocks[eb := Programmed(blocks[eb], offs, data)];
        return Done;
      }
      Scramble(eb);
      var eio: bool := *;
      st := if eio then Eio else Failed;
      faults := faults + [Fault(Writing, eb, st.Eio?, why)];
    }

    /** Whatever an interrupted operation leaves behind. */
    method Scramble(eb: nat)
      requires Valid() && eb < ebCnt
      modifies this`blocks
      ensures Valid()
      ensures forall b :: 0 <= b < ebCnt && b != eb ==> blocks[b] == old(blocks)[b]
    {
      var junk: Block := *;
      if |junk| == ebSize {
        blocks := blocks[eb := junk];
      }
    }

    /** The only new failures are those of the torture test. */
    ghost predicate Tested(was: seq<Fault>, now: seq<Fault>) {
      was <= now && forall i :: |was| <= i < |now| ==> now[i].why == Test
    }

    /** A read of a whole eraseblock, and check_pattern. */
    method ReadsAll(eb: int, buf: array<bv8>, patt: bv8) returns (same: bool)
      requires Valid() && buf.Length == ebSize && buf as object != this
      modifies buf, this`faults
      ensures Tested(old(faults), faults)
    {
      hide Overlaid, Total, Pieces, From;
      var ok;
      ghost var sizes;
      ok, sizes := Read(eb, 0, buf, ebSize, Test);
      return ok && forall i | 0 <= i < ebSize :: buf[i] == patt;
    }

    /** mtd_torture erases and rewrites the block with patterns, and fails even when the block passes. */
    method Torture(eb: int) returns (ret: int)
      requires Valid()
      modifies this`blocks, this`faults
      ensures Valid() && ret == -1 && Tested(old(faults), faults)
      ensures forall b :: 0 <= b < ebCnt && b != eb ==> blocks[b] == old(blocks)[b]
    {
      var patterns: seq<bv8> := [0xA5, 0x5A, 0x00];
      var buf := new bv8[ebSize];
      for i := 0 to 3
        invariant Valid() && Tested(old(faults), faults)
        invariant forall b :: 0 <= b < ebCnt && b != eb ==> blocks[b] == old(blocks)[b]
      {
        var st := Erase(eb, Test);
        if st != Done {
          return -1;
        }
        var same := ReadsAll(eb, buf, ERASED);
        if !same {
          return -1;
        }
        st := Write(eb, 0, seq(ebSize, _ => patterns[i]), Test);
        if st != Done {
          return -1;
        }
        Deliver(seq(ebSize, _ => !patterns[i]), buf, ebSize);
        same := ReadsAll(eb, buf, patterns[i]);
        if !same {
          return -1;
        }
      }
      return -1;
    }
  }
}

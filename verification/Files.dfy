/** Regular files, read from the start. */
module Files {
  /** A regular file that is open for reading; reads may be short, interrupted or fail. */
  class Input {
    const content: seq<bv8>
    var pos: nat
    // How many reads are still to be interrupted, and how many have failed for another reason.
    var interrupts: nat
    ghost var failures: nat

    ghost predicate Valid()
      reads this`pos
    {
      pos <= |content|
    }

    constructor (content: seq<bv8>, interrupts: nat)
      ensures this.content == content && pos == 0 && Valid()
      ensures this.interrupts == interrupts && failures == 0
    {
      this.content, pos, this.interrupts, failures := content, 0, interrupts, 0;
    }

    /** read(2) into part of a buffer: a count, 0 at the end of the file, or -1, with or without EINTR. */
    method Read(buf: array<bv8>, offs: nat, n: nat) returns (cnt: int, eintr: bool)
      requires Valid() && 0 < n && offs + n <= buf.Length && buf as object != this
      modifies this, buf
      ensures Valid() && -1 <= cnt <= n
      ensures cnt < 0 ==> pos == old(pos)
      ensures cnt >= 0 ==> pos == old(pos) + cnt && !eintr
      ensures failures == old(failures) + if cnt < 0 && !eintr then 1 else 0
      ensures interrupts == old(interrupts) - if eintr then 1 else 0
      ensures cnt == 0 ==> pos == |content|
      ensures forall i :: 0 <= i < buf.Length ==>
        buf[i] == if offs <= i < offs + cnt then content[old(pos) + i - offs] else old(buf[i])
    {
      eintr := *;
      if eintr && interrupts > 0 {
        interrupts := interrupts - 1;
        return -1, true;
      }
      if * {
        failures := failures + 1;
        return -1, false;
      }
      eintr := false;
      var left := |content| - pos;
      var want := if n < left then n else left;
      cnt := *;
      if cnt < 1 || cnt > want {
        cnt := want;
      }
      for i := 0 to cnt
        invariant pos == old(pos) && failures == old(failures) && interrupts == old(interrupts)
        invariant forall j :: 0 <= j < buf.Length ==>
          buf[j] == if offs <= j < offs + i then content[pos + j - offs] else old(buf[j])
      {
        buf[offs + i] := content[pos + i];
      }
      pos := pos + cnt;
    }
  }

  /** read_all of ubiformat.c: read exactly so many bytes, trying again after an interruption. */
  method ReadAll(fd: Input, buf: array<bv8>, len: nat) returns (err: int)
    requires fd.Valid() && len <= buf.Length && buf as object != fd
    modifies fd, buf
    ensures fd.Valid() && (err == 0 || err == -1)
    ensures err == 0 ==> fd.pos == old(fd.pos) + len && buf[..len] == fd.content[old(fd.pos)..fd.pos]
    ensures err == 0 ==> buf[len..] == old(buf[len..])
    ensures err == -1 <==> old(fd.pos) + len > |fd.content| || fd.failures > old(fd.failures)
    ensures fd.failures >= old(fd.failures)
  {
    var done := 0;
    while done < len
      invariant fd.Valid() && done <= len && fd.pos == old(fd.pos) + done && fd.failures == old(fd.failures)
      invariant forall i :: 0 <= i < done ==> buf[i] == fd.content[old(fd.pos) + i]
      invariant forall i :: len <= i < buf.Length ==> buf[i] == old(buf[i])
      decreases len - done, fd.interrupts
    {
      var l, eintr := fd.Read(buf, done, len - done);
      if l == 0 {
        return -1;
      } else if l > 0 {
        done := done + l;
      } else if !eintr {
        return -1;
      }
    }
    return 0;
  }
}

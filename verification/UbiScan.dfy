/** Scanning a device for erase counter headers: libscan.c. */
module UbiScan {
  import opened BurstWindows
  import opened Crc32
  import opened Division
  import opened Flash
  import opened UbiDamage
  import opened UbiMedia
  import opened Wrappers

  const EB_EMPTY: nat := 0xFFFFFFFF
  const EB_CORRUPTED: nat := 0xFFFFFFFE
  const EB_ALIEN: nat := 0xFFFFFFFD
  const EB_BAD: nat := 0xFFFFFFFC
  const EC_MAX: nat := 0x7FFFFFFF

  /** The table of counters, and the offsets that the headers agree on; -1 while they are not known. */
  datatype Found = Found(ec: seq<nat>, vidHdrOffs: int, dataOffs: int) {
    function Note(e: nat): Found { this.(ec := ec + [e]) }
  }

  /** An unsigned 32-bit number stored in an int. */
  function AsInt(n: nat): (r: int)
    ensures n < 0x1_0000_0000 ==> -0x8000_0000 <= r < 0x8000_0000 && (r == n || r + 0x1_0000_0000 == n)
  {
    if n < 0x8000_0000 then n else n - 0x1_0000_0000
  }

  /** What one more eraseblock adds; None when the scan gives up. */
  ghost function Look(f: Found, bad: bool, b: Block, minIo: nat): Option<Found>
    requires minIo > 0
  {
    if bad then Some(f.Note(EB_BAD))
    else if |b| < EC_HDR_SIZE then None else
    var v, d := AsInt(VidHdrOffset(b)), AsInt(DataOffset(b));
    if Magic(b) != EC_HDR_MAGIC then Some(f.Note(if IsBlank(b[..EC_HDR_SIZE]) then EB_EMPTY else EB_ALIEN))
    else if !GoodEcHdr(b) then Some(f.Note(EB_CORRUPTED))
    else if Counter(b) > EC_MAX then None
    else if f.vidHdrOffs == -1 then
      Some(Found(f.ec + [if d % minIo != 0 then EB_CORRUPTED else Counter(b)], v, d))
    else if v != f.vidHdrOffs || d != f.dataOffs then Some(f.Note(EB_CORRUPTED))
    else Some(f.Note(Counter(b)))
  }

  /** What the first n eraseblocks tell. */
  ghost function Scan(blocks: seq<Block>, bad: seq<bool>, minIo: nat, n: nat): Option<Found>
    requires |blocks| == |bad| && n <= |blocks| && minIo > 0
  {
    if n == 0 then Some(Found([], -1, -1)) else
    match Scan(blocks, bad, minIo, n - 1)
    case None => None
    case Some(f) => Look(f, bad[n - 1], blocks[n - 1], minIo)
  }

  // Counting.

  function Count(s: seq<nat>, lo: nat, hi: nat): (r: nat)
    ensures r <= |s|
  {
    if s == [] then 0 else
    Count(s[..|s| - 1], lo, hi) + if lo <= s[|s| - 1] <= hi then 1 else 0
  }

  function Sum(s: seq<nat>): nat {
    if s == [] then 0 else Sum(s[..|s| - 1]) + if s[|s| - 1] <= EC_MAX then s[|s| - 1] else 0
  }

  lemma {:induction false} CountSnoc(s: seq<nat>, e: nat, lo: nat, hi: nat)
    ensures Count(s + [e], lo, hi) == Count(s, lo, hi) + if lo <= e <= hi then 1 else 0
  {
    assert (s + [e])[..|s|] == s;
  }

  lemma {:induction false} SumSnoc(s: seq<nat>, e: nat)
    ensures Sum(s + [e]) == Sum(s) + if e <= EC_MAX then e else 0
  {
    assert (s + [e])[..|s|] == s;
  }

  /** A counter or one of the four marks. */
  predicate Entry(e: nat) {
    e <= EC_MAX || e == EB_EMPTY || e == EB_CORRUPTED || e == EB_ALIEN || e == EB_BAD
  }

  /** The marks exceed every counter, so the five kinds of entry partition the table. */
  lemma {:induction false} KindsPartition(s: seq<nat>)
    requires forall i :: 0 <= i < |s| ==> Entry(s[i])
    ensures Count(s, 0, EC_MAX) + Count(s, EB_EMPTY, EB_EMPTY) + Count(s, EB_CORRUPTED, EB_CORRUPTED)
      + Count(s, EB_ALIEN, EB_ALIEN) + Count(s, EB_BAD, EB_BAD) == |s|
  {
    if s != [] {
      KindsPartition(s[..|s| - 1]);
      assert Entry(s[|s| - 1]);
    }
  }

  lemma {:induction false} SumBetween(s: seq<nat>, least: nat, greatest: nat)
    requires forall i :: 0 <= i < |s| && s[i] <= EC_MAX ==> least <= s[i] <= greatest
    ensures least * Count(s, 0, EC_MAX) <= Sum(s) <= greatest * Count(s, 0, EC_MAX)
  {
    if s != [] {
      var t, e := s[..|s| - 1], s[|s| - 1];
      SumBetween(t, least, greatest);
      assert least * (Count(t, 0, EC_MAX) + 1) == least * Count(t, 0, EC_MAX) + least;
      assert greatest * (Count(t, 0, EC_MAX) + 1) == greatest * Count(t, 0, EC_MAX) + greatest;
    }
  }

  lemma QuotientBetween(sum: nat, cnt: nat, least: nat, greatest: nat)
    requires cnt > 0 && least * cnt <= sum <= greatest * cnt
    ensures least <= sum / cnt <= greatest
  {
    var q := sum / cnt;
    DivIdentity(sum, cnt);
    assert (q + 1) * cnt == q * cnt + cnt;
    MulOrder(least - 1, q, cnt);
    MulOrder(q, greatest + 1, cnt);
  }

  /** The mean lies between the least and the greatest counter. */
  lemma {:induction false} MeanBetween(s: seq<nat>, least: nat, greatest: nat)
    requires forall i :: 0 <= i < |s| && s[i] <= EC_MAX ==> least <= s[i] <= greatest
    requires Count(s, 0, EC_MAX) > 0
    ensures least <= Sum(s) / Count(s, 0, EC_MAX) <= greatest
  {
    SumBetween(s, least, greatest);
    QuotientBetween(Sum(s), Count(s, 0, EC_MAX), least, greatest);
  }

  // What a scan establishes.

  /** The header of an eraseblock carries the offsets that the scan settled on. */
  ghost predicate Agrees(b: Block, f: Found)
    requires |b| >= EC_HDR_SIZE
  {
    AsInt(VidHdrOffset(b)) == -1 || (AsInt(VidHdrOffset(b)) == f.vidHdrOffs && AsInt(DataOffset(b)) == f.dataOffs)
  }

  /** A valid header with a given counter. */
  ghost predicate HeaderOf(b: Block, f: Found, e: nat) {
    GoodEcHdr(b) && Counter(b) == e && Agrees(b, f)
  }

  /**
   * Bad eraseblocks and only those are marked bad, and an eraseblock counts as OK only with a valid
   * header whose counter is the one in the table.
   */
  ghost predicate Faithful(f: Found, blocks: seq<Block>, bad: seq<bool>, n: nat)
    requires |blocks| == |bad| && n <= |blocks|
  {
    && |f.ec| == n
    && forall b :: 0 <= b < n ==>
        && Entry(f.ec[b])
        && (f.ec[b] == EB_BAD <==> bad[b])
        && (f.ec[b] <= EC_MAX ==> HeaderOf(blocks[b], f, f.ec[b]))
  }

  /** The offsets change only while they are unknown. */
  lemma LookKeeps(f: Found, bad: bool, b: Block, minIo: nat, other: Block)
    requires minIo > 0 && Look(f, bad, b, minIo).Some?
    ensures forall e :: HeaderOf(other, f, e) ==> HeaderOf(other, Look(f, bad, b, minIo).value, e)
  {
    hide GoodEcHdr, VidHdrOffset, DataOffset, Counter, Magic, AsInt;
  }

  lemma LookNotes(f: Found, bad: bool, b: Block, minIo: nat)
    requires minIo > 0 && Look(f, bad, b, minIo).Some?
    ensures
      var g := Look(f, bad, b, minIo).value;
      && |g.ec| == |f.ec| + 1 && g.ec[..|f.ec|] == f.ec
      && (var e := g.ec[|f.ec|];
          && Entry(e) && (e == EB_BAD <==> bad)
          && (e <= EC_MAX ==> HeaderOf(b, g, e)))
  {
    hide GoodEcHdr, VidHdrOffset, DataOffset, Counter, Magic, AsInt;
  }

  lemma {:induction false} ScanFaithful(blocks: seq<Block>, bad: seq<bool>, minIo: nat, n: nat)
    requires |blocks| == |bad| && n <= |blocks| && minIo > 0
    ensures var r := Scan(blocks, bad, minIo, n); r.Some? ==> Faithful(r.value, blocks, bad, n)
  {
    hide Look, HeaderOf, Entry;
    if n != 0 && Scan(blocks, bad, minIo, n).Some? {
      ScanFaithful(blocks, bad, minIo, n - 1);
      var f, g := Scan(blocks, bad, minIo, n - 1).value, Scan(blocks, bad, minIo, n).value;
      LookNotes(f, bad[n - 1], blocks[n - 1], minIo);
      forall b | 0 <= b < n
        ensures Entry(g.ec[b]) && (g.ec[b] == EB_BAD <==> bad[b])
        ensures g.ec[b] <= EC_MAX ==> HeaderOf(blocks[b], g, g.ec[b])
      {
        if b < n - 1 {
          assert g.ec[b] == g.ec[..n - 1][b] == f.ec[b];
          if f.ec[b] <= EC_MAX {
            LookKeeps(f, bad[n - 1], blocks[n - 1], minIo, blocks[b]);
          }
        }
      }
    }
  }

  // What the entries of the table mean.

  /** The offsets are known before an eraseblock if an earlier valid header has set them. */
  ghost predicate Known(blocks: seq<Block>, bad: seq<bool>, n: nat)
    requires n <= |blocks| == |bad|
  {
    exists c :: 0 <= c < n && !bad[c] && Leads(blocks[c])
  }

  /** A valid header whose offset for the volume header is not that of erased bytes. */
  ghost predicate Leads(b: Block) {
    GoodEcHdr(b) && AsInt(VidHdrOffset(b)) != -1
  }

  /** A valid header with other offsets than the agreed ones, or the one to agree on with a misaligned data offset. */
  ghost predicate Rejected(b: Block, f: Found, known: bool, minIo: nat)
    requires |b| >= EC_HDR_SIZE && minIo > 0
  {
    if known then AsInt(VidHdrOffset(b)) != f.vidHdrOffs || AsInt(DataOffset(b)) != f.dataOffs
    else AsInt(DataOffset(b)) % minIo != 0
  }

  /** Exactly which entry an eraseblock that is not bad has in the table. */
  ghost predicate Classified(b: Block, e: nat, f: Found, known: bool, minIo: nat)
    requires minIo > 0
  {
    && |b| >= EC_HDR_SIZE
    && (e == EB_EMPTY <==> IsBlank(b[..EC_HDR_SIZE]))
    && (e == EB_ALIEN <==> Magic(b) != EC_HDR_MAGIC && !IsBlank(b[..EC_HDR_SIZE]))
    && (e == EB_CORRUPTED <==> Magic(b) == EC_HDR_MAGIC && (!GoodEcHdr(b) || Rejected(b, f, known, minIo)))
    && (e <= EC_MAX <==> GoodEcHdr(b) && !Rejected(b, f, known, minIo))
    && (e <= EC_MAX ==> e == Counter(b))
  }

  /** The whole table, and the offsets that the first header to agree on carries. */
  ghost predicate AllClassified(f: Found, blocks: seq<Block>, bad: seq<bool>, minIo: nat, n: nat)
    requires n <= |blocks| == |bad| && minIo > 0
  {
    && |f.ec| == n && (f.vidHdrOffs != -1 <==> Known(blocks, bad, n))
    && forall b :: 0 <= b < n ==>
        if bad[b] then f.ec[b] == EB_BAD
        else && Classified(blocks[b], f.ec[b], f, Known(blocks, bad, b), minIo)
             && (Leads(blocks[b]) && !Known(blocks, bad, b) ==> OffsetsOf(blocks[b], f))
  }

  ghost predicate OffsetsOf(b: Block, f: Found) {
    |b| >= EC_HDR_SIZE && f.vidHdrOffs == AsInt(VidHdrOffset(b)) && f.dataOffs == AsInt(DataOffset(b))
  }

  /** Erased bytes are not the magic number. */
  lemma {:induction false} BlankMagic(b: Block)
    requires |b| >= EC_HDR_SIZE && IsBlank(b[..EC_HDR_SIZE])
    ensures Magic(b) != EC_HDR_MAGIC
  {
    hide Number;
    var s := b[..4];
    assert forall i :: 0 <= i < 4 ==> s[i] == b[..EC_HDR_SIZE][i];
    NumberParts(s);
  }

  /** What one more eraseblock becomes. */
  lemma {:induction false} LookClassifies(f: Found, bad: bool, b: Block, minIo: nat)
    requires minIo > 0 && Look(f, bad, b, minIo).Some?
    ensures var g := Look(f, bad, b, minIo).value;
      && |g.ec| == |f.ec| + 1 && g.ec[..|f.ec|] == f.ec
      && (bad ==> g.ec[|f.ec|] == EB_BAD)
      && (!bad ==> Classified(b, g.ec[|f.ec|], g, f.vidHdrOffs != -1, minIo))
      && (f.vidHdrOffs != -1 ==> g.vidHdrOffs == f.vidHdrOffs && g.dataOffs == f.dataOffs)
      && (f.vidHdrOffs == -1 ==> (g.vidHdrOffs != -1 <==> !bad && Leads(b)))
      && (f.vidHdrOffs == -1 && !bad && Leads(b) ==> OffsetsOf(b, g))
  {
    hide Sealed, Number, AsInt, IsBlank;
    if !bad && IsBlank(b[..EC_HDR_SIZE]) {
      BlankMagic(b);
    }
  }

  /** A finished scan classifies every eraseblock. */
  lemma {:induction false} ScanClassifies(blocks: seq<Block>, bad: seq<bool>, minIo: nat, n: nat)
    requires |blocks| == |bad| && n <= |blocks| && minIo > 0 && Scan(blocks, bad, minIo, n).Some?
    ensures AllClassified(Scan(blocks, bad, minIo, n).value, blocks, bad, minIo, n)
  {
    hide Look, Classified, Leads, OffsetsOf;
    if n != 0 {
      ScanClassifies(blocks, bad, minIo, n - 1);
      var f, g := Scan(blocks, bad, minIo, n - 1).value, Scan(blocks, bad, minIo, n).value;
      LookClassifies(f, bad[n - 1], blocks[n - 1], minIo);
      assert Known(blocks, bad, n) <==> Known(blocks, bad, n - 1) || (!bad[n - 1] && Leads(blocks[n - 1]));
      forall b | 0 <= b < n - 1
        ensures g.ec[b] == f.ec[b]
        ensures !bad[b] ==> Classified(blocks[b], g.ec[b], g, Known(blocks, bad, b), minIo)
        ensures !bad[b] && Leads(blocks[b]) && !Known(blocks, bad, b) ==> OffsetsOf(blocks[b], g)
      {
        assert g.ec[b] == g.ec[..n - 1][b];
        if !bad[b] {
          assert Known(blocks, bad, b) ==> Known(blocks, bad, n - 1);
          SameClass(blocks[b], f.ec[b], f, g, Known(blocks, bad, b), minIo);
        }
      }
    }
  }

  lemma SameClass(b: Block, e: nat, f: Found, g: Found, known: bool, minIo: nat)
    requires minIo > 0 && Classified(b, e, f, known, minIo)
    ensures (known ==> f.vidHdrOffs == g.vidHdrOffs && f.dataOffs == g.dataOffs) ==> Classified(b, e, g, known, minIo)
    ensures f.vidHdrOffs == g.vidHdrOffs && f.dataOffs == g.dataOffs && OffsetsOf(b, f) ==> OffsetsOf(b, g)
  {
    hide Sealed, Number, AsInt, IsBlank;
  }

  /** What ends a scan: an eraseblock without room for a header, or a valid header with a counter that is too large. */
  ghost predicate EndsScan(b: Block) {
    |b| < EC_HDR_SIZE || (GoodEcHdr(b) && Counter(b) > EC_MAX)
  }

  lemma {:induction false} ScanEnds(blocks: seq<Block>, bad: seq<bool>, minIo: nat, n: nat)
    requires |blocks| == |bad| && n <= |blocks| && minIo > 0
    ensures Scan(blocks, bad, minIo, n).None? <==> exists b :: 0 <= b < n && !bad[b] && EndsScan(blocks[b])
  {
    hide EndsScan, Look;
    if n != 0 {
      ScanEnds(blocks, bad, minIo, n - 1);
      var r := Scan(blocks, bad, minIo, n - 1);
      if r.Some? {
        LookEnds(r.value, bad[n - 1], blocks[n - 1], minIo);
      }
    }
  }

  lemma LookEnds(f: Found, bad: bool, b: Block, minIo: nat)
    requires minIo > 0
    ensures Look(f, bad, b, minIo).None? <==> !bad && EndsScan(b)
  {
    hide Sealed, Number, AsInt, IsBlank;
  }

  // Formatted devices.

  /** An eraseblock with a valid header that carries a counter and the offsets of a geometry. */
  ghost predicate ReadsAs(b: Bytes, g: Geometry, ec: nat) {
    && GoodEcHdr(b) && Counter(b) == ec
    && VidHdrOffset(b) == g.vidHdrOffs && DataOffset(b) == g.dataOffs
  }

  /** A device on which every eraseblock that is not bad has such a header. */
  ghost predicate Formatted(blocks: seq<Block>, bad: seq<bool>, g: Geometry, ec: seq<nat>) {
    && |blocks| == |bad| && |ec| == |blocks|
    && forall b :: 0 <= b < |blocks| && !bad[b] ==> ReadsAs(blocks[b], g, ec[b])
  }

  /** An eraseblock that starts with a header built for it reads that way. */
  lemma BuiltReads(b: Bytes, g: Geometry, ec: nat)
    requires g.Fits() && ec < Room(8) && |b| >= EC_HDR_SIZE && b[..EC_HDR_SIZE] == EcHdr(g, ec)
    ensures ReadsAs(b, g, ec)
  {
    hide EcHdr, GoodEcHdr, VidHdrOffset, DataOffset, Counter, Room;
    EcHdrReadsBack(g, ec);
    HeaderOnly(b, EcHdr(g, ec));
  }

  /** What the scan looks at are the first bytes. */
  lemma HeaderOnly(b: Block, h: Bytes)
    requires |b| >= EC_HDR_SIZE && |h| == EC_HDR_SIZE && b[..EC_HDR_SIZE] == h
    ensures Magic(b) == Magic(h) && Counter(b) == Counter(h)
    ensures VidHdrOffset(b) == VidHdrOffset(h) && DataOffset(b) == DataOffset(h) && ImageSeq(b) == ImageSeq(h)
    ensures GoodEcHdr(b) <==> GoodEcHdr(h)
  {
    hide Number, Sealed;
    assert b[..4] == h[..4] && b[8..16] == h[8..16] && b[16..20] == h[16..20];
    assert b[20..24] == h[20..24] && b[24..28] == h[24..28];
    assert h[..EC_HDR_SIZE] == h;
  }

  /** What a scan tells of a formatted device. */
  ghost predicate Recovered(f: Found, bad: seq<bool>, g: Geometry, ec: seq<nat>, n: nat)
    requires n <= |bad| == |ec|
  {
    && |f.ec| == n
    && (forall b :: 0 <= b < n ==> f.ec[b] == if bad[b] then EB_BAD else ec[b])
    && (f.vidHdrOffs == -1 || (f.vidHdrOffs == g.vidHdrOffs && f.dataOffs == g.dataOffs))
  }

  ghost predicate Countable(bad: seq<bool>, ec: seq<nat>, n: nat)
    requires n <= |bad| == |ec|
  {
    forall b :: 0 <= b < n && !bad[b] ==> ec[b] <= EC_MAX
  }

  lemma LookFormatted(f: Found, b: Block, minIo: nat, g: Geometry, ec: nat)
    requires minIo > 0 && ReadsAs(b, g, ec)
    requires g.vidHdrOffs < 0x8000_0000 && g.dataOffs < 0x8000_0000 && g.dataOffs % minIo == 0
    requires f.vidHdrOffs == -1 || (f.vidHdrOffs == g.vidHdrOffs && f.dataOffs == g.dataOffs)
    ensures Look(f, false, b, minIo)
      == if ec <= EC_MAX then Some(Found(f.ec + [ec], g.vidHdrOffs, g.dataOffs)) else None
  {
    hide GoodEcHdr, VidHdrOffset, DataOffset, Counter, Magic;
    GoodMagic(b);
  }

  lemma GoodMagic(b: Bytes)
    requires GoodEcHdr(b)
    ensures |b| >= EC_HDR_SIZE && Magic(b) == EC_HDR_MAGIC
  {}

  /**
   * Scanning a formatted device gives back exactly the counters that it was formatted with, if and only
   * if none of them exceeds the largest counter; otherwise the scan fails.
   */
  lemma {:induction false} ScanFormatted(blocks: seq<Block>, bad: seq<bool>, minIo: nat, g: Geometry, ec: seq<nat>,
                                         n: nat)
    requires Formatted(blocks, bad, g, ec) && minIo > 0 && n <= |blocks|
    requires g.vidHdrOffs < 0x8000_0000 && g.dataOffs < 0x8000_0000 && g.dataOffs % minIo == 0
    ensures Scan(blocks, bad, minIo, n).Some? <==> Countable(bad, ec, n)
    ensures Scan(blocks, bad, minIo, n).Some? ==> Recovered(Scan(blocks, bad, minIo, n).value, bad, g, ec, n)
  {
    hide Look, ReadsAs;
    if n != 0 {
      ScanFormatted(blocks, bad, minIo, g, ec, n - 1);
      var r := Scan(blocks, bad, minIo, n - 1);
      if r.Some? {
        if bad[n - 1] {
          LookBad(r.value, blocks[n - 1], minIo);
        } else {
          LookFormatted(r.value, blocks[n - 1], minIo, g, ec[n - 1]);
        }
      }
    }
  }

  /** A counter that is too large ends every scan that gets to it. */
  lemma {:induction false} LargeCounter(blocks: seq<Block>, bad: seq<bool>, minIo: nat, b: nat, n: nat)
    requires |blocks| == |bad| && minIo > 0 && b < n <= |blocks|
    requires !bad[b] && GoodEcHdr(blocks[b]) && Counter(blocks[b]) > EC_MAX
    ensures Scan(blocks, bad, minIo, n) == None
  {
    hide GoodEcHdr, VidHdrOffset, DataOffset, Counter, Magic;
    GoodMagic(blocks[b]);
    if b < n - 1 {
      LargeCounter(blocks, bad, minIo, b, n - 1);
    }
  }

  lemma LookBad(f: Found, b: Block, minIo: nat)
    requires minIo > 0
    ensures Look(f, true, b, minIo) == Some(f.Note(EB_BAD))
  {}

  // Damaged headers.

  /** The header of an eraseblock, replaced. */
  function Replaced(blocks: seq<Block>, b: nat, g: Bytes): (r: seq<Block>)
    requires b < |blocks| && |blocks[b]| >= EC_HDR_SIZE == |g|
    ensures |r| == |blocks| && |r[b]| == |blocks[b]| && r[b][..EC_HDR_SIZE] == g
  {
    blocks[b := g + blocks[b][EC_HDR_SIZE..]]
  }

  /** The scan fails, or does not count the eraseblock as OK. */
  ghost predicate NotOk(blocks: seq<Block>, bad: seq<bool>, minIo: nat, b: nat)
    requires |blocks| == |bad| && minIo > 0 && b < |blocks|
  {
    var r := Scan(blocks, bad, minIo, |blocks|); r.Some? ==> b < |r.value.ec| && r.value.ec[b] > EC_MAX
  }

  lemma {:induction false} UnsealedNotOk(blocks: seq<Block>, bad: seq<bool>, minIo: nat, b: nat)
    requires |blocks| == |bad| && minIo > 0 && b < |blocks|
    requires |blocks[b]| >= EC_HDR_SIZE && !Sealed(blocks[b][..EC_HDR_SIZE])
    ensures NotOk(blocks, bad, minIo, b)
  {
    hide Look, Sealed;
    ScanFaithful(blocks, bad, minIo, |blocks|);
  }

  lemma LookSame(f: Found, bad: bool, b: Block, b': Block, minIo: nat)
    requires GoodEcHdr(b) && GoodEcHdr(b') && b[..24] == b'[..24] && minIo > 0
    ensures Look(f, bad, b', minIo) == Look(f, bad, b, minIo)
  {
    hide Number, Sealed, AsInt;
    assert b[8..16] == b[..24][8..16] == b'[8..16];
    assert b[16..20] == b[..24][16..20] == b'[16..20];
    assert b[20..24] == b[..24][20..24] == b'[20..24];
  }

  lemma {:induction false} ScanSame(blocks: seq<Block>, blocks': seq<Block>, bad: seq<bool>, minIo: nat, b: nat, n: nat)
    requires |blocks| == |bad| && |blocks'| == |bad| && minIo > 0 && n <= |blocks| && b < |blocks|
    requires forall i :: 0 <= i < |blocks| && i != b ==> blocks'[i] == blocks[i]
    requires GoodEcHdr(blocks[b]) && GoodEcHdr(blocks'[b]) && blocks[b][..24] == blocks'[b][..24]
    ensures Scan(blocks', bad, minIo, n) == Scan(blocks, bad, minIo, n)
  {
    hide Look, GoodEcHdr;
    if n != 0 {
      ScanSame(blocks, blocks', bad, minIo, b, n - 1);
      var r := Scan(blocks, bad, minIo, n - 1);
      if r.Some? && n - 1 == b {
        LookSame(r.value, bad[b], blocks[b], blocks'[b], minIo);
      }
    }
  }

  /** Damage that gets through leaves the rest of the header alone. */
  lemma {:induction false} TaintedGood(h: Bytes, j: nat)
    requires |h| == EC_HDR_SIZE && GoodEcHdr(h) && Blind(j)
    ensures GoodEcHdr(Tainted(h, j)) && Tainted(h, j)[..24] == h[..24]
  {
    hide Sealed, Number, Flipped, Blind, Burst;
    assert h[..EC_HDR_SIZE] == h && Tainted(h, j)[..EC_HDR_SIZE] == Tainted(h, j);
    TaintedUnnoticed(h, j);
    assert Tainted(h, j)[..4] == h[..4];
  }

  /**
   * Bursts in a window of 32 bits of a header that counts as OK keep it from counting as OK, all of them, if and only
   * if the window is not one of the blind ones.
   */
  lemma {:induction false} BurstsScanned(blocks: seq<Block>, bad: seq<bool>, minIo: nat, b: nat, lo: nat)
    requires |blocks| == |bad| && minIo > 0 && b < |blocks| && |blocks[b]| >= EC_HDR_SIZE
    requires !NotOk(blocks, bad, minIo, b)
    requires lo + 32 <= 8 * EC_HDR_SIZE
    ensures
      var h := blocks[b][..EC_HDR_SIZE];
      (forall g :: |g| == EC_HDR_SIZE && Burst(g, h, lo) && g != h ==> NotOk(Replaced(blocks, b, g), bad, minIo, b))
      <==> !Blind(8 * EC_HDR_SIZE - 32 - lo)
  {
    hide Sealed, Burst, Blind, Tainted, NotOk, Replaced;
    var h, j := blocks[b][..EC_HDR_SIZE], 8 * EC_HDR_SIZE - 32 - lo;
    OkIsGood(blocks, bad, minIo, b);
    BurstsNoticed(h, lo);
    BlindInside(j);
    if Blind(j) {
      TaintedUnnoticed(h, j);
      TaintedStaysOk(blocks, bad, minIo, b, j);
    } else {
      forall g | |g| == EC_HDR_SIZE && Burst(g, h, lo) && g != h
        ensures NotOk(Replaced(blocks, b, g), bad, minIo, b)
      {
        UnsealedNotOk(Replaced(blocks, b, g), bad, minIo, b);
      }
    }
  }

  /** An eraseblock that counts as OK has a valid header. */
  lemma {:induction false} OkIsGood(blocks: seq<Block>, bad: seq<bool>, minIo: nat, b: nat)
    requires |blocks| == |bad| && minIo > 0 && b < |blocks| && !NotOk(blocks, bad, minIo, b)
    ensures GoodEcHdr(blocks[b]) && Sealed(blocks[b][..EC_HDR_SIZE]) && GoodEcHdr(blocks[b][..EC_HDR_SIZE])
  {
    hide Sealed, Scan, Counter, Agrees, Number;
    ScanFaithful(blocks, bad, minIo, |blocks|);
    var r := Scan(blocks, bad, minIo, |blocks|).value;
    assert HeaderOf(blocks[b], r, r.ec[b]);
    HeaderOnly(blocks[b], blocks[b][..EC_HDR_SIZE]);
  }

  lemma {:induction false} TaintedStaysOk(blocks: seq<Block>, bad: seq<bool>, minIo: nat, b: nat, j: nat)
    requires |blocks| == |bad| && minIo > 0 && b < |blocks| && !NotOk(blocks, bad, minIo, b)
    requires GoodEcHdr(blocks[b]) && GoodEcHdr(blocks[b][..EC_HDR_SIZE]) && Blind(j)
    ensures !NotOk(Replaced(blocks, b, Tainted(blocks[b][..EC_HDR_SIZE], j)), bad, minIo, b)
  {
    hide Sealed, Blind, Scan, Tainted, GoodEcHdr;
    GoodMagic(blocks[b]);
    var h := blocks[b][..EC_HDR_SIZE];
    var g := Tainted(h, j);
    TaintedGood(h, j);
    var blocks' := Replaced(blocks, b, g);
    HeaderOnly(blocks'[b], g);
    assert blocks[b][..24] == h[..24] && blocks'[b][..24] == blocks'[b][..EC_HDR_SIZE][..24] == g[..24];
    ScanSame(blocks, blocks', bad, minIo, b, |blocks|);
  }

  /**
   * An eraseblock whose header is damaged by a burst of at most 30 bits wherever it lies, or of 32 bits in a window
   * that is not blind, never counts as OK.
   */
  lemma {:induction false} DamagedNotOk(blocks: seq<Block>, bad: seq<bool>, minIo: nat, b: nat, whole: Bytes, lo: nat)
    requires |blocks| == |bad| && minIo > 0 && b < |blocks| && |blocks[b]| >= EC_HDR_SIZE
    requires |whole| == EC_HDR_SIZE && Sealed(whole) && blocks[b][..EC_HDR_SIZE] != whole
    requires
      || Confined(blocks[b][..EC_HDR_SIZE], whole, lo, 30)
      || (lo + 32 <= 8 * EC_HDR_SIZE && Burst(blocks[b][..EC_HDR_SIZE], whole, lo) && !Blind(8 * EC_HDR_SIZE - 32 - lo))
    ensures NotOk(blocks, bad, minIo, b)
  {
    hide Look, Sealed, Confined, NotOk, Burst, Blind;
    if Confined(blocks[b][..EC_HDR_SIZE], whole, lo, 30) {
      ShortBurstsNoticed(whole, blocks[b][..EC_HDR_SIZE], lo);
    } else {
      BurstsNoticed(whole, lo);
    }
    UnsealedNotOk(blocks, bad, minIo, b);
  }

  // The scan itself.

  method AllFf(buf: seq<bv8>) returns (r: bool)
    ensures r <==> IsBlank(buf)
  {
    for i := 0 to |buf|
      invariant IsBlank(buf[..i])
    {
      if buf[i] != ERASED {
        return false;
      }
    }
    assert buf[..|buf|] == buf;
    return true;
  }

  datatype Tally = Tally(ok: nat, empty: nat, corrupted: nat, alien: nat, bad: nat) {
    ghost predicate Of(s: seq<nat>) {
      && ok == Count(s, 0, EC_MAX)
      && empty == Count(s, EB_EMPTY, EB_EMPTY)
      && corrupted == Count(s, EB_CORRUPTED, EB_CORRUPTED)
      && alien == Count(s, EB_ALIEN, EB_ALIEN)
      && bad == Count(s, EB_BAD, EB_BAD)
    }
  }

  /** The counts after one more entry. */
  lemma TallyMore(t: Tally, s: seq<nat>, e: nat)
    requires t.Of(s) && Entry(e)
    ensures
      (if e <= EC_MAX then t.(ok := t.ok + 1)
       else if e == EB_EMPTY then t.(empty := t.empty + 1)
       else if e == EB_CORRUPTED then t.(corrupted := t.corrupted + 1)
       else if e == EB_ALIEN then t.(alien := t.alien + 1)
       else t.(bad := t.bad + 1)).Of(s + [e])
  {
    hide Count;
    CountSnoc(s, e, 0, EC_MAX);
    CountSnoc(s, e, EB_EMPTY, EB_EMPTY);
    CountSnoc(s, e, EB_CORRUPTED, EB_CORRUPTED);
    CountSnoc(s, e, EB_ALIEN, EB_ALIEN);
    CountSnoc(s, e, EB_BAD, EB_BAD);
  }

  class ScanInfo {
    const ec: array<nat>
    var meanEc: nat
    var okCnt: nat
    var emptyCnt: nat
    var corruptedCnt: nat
    var alienCnt: nat
    var badCnt: nat
    var goodCnt: int
    var vidHdrOffs: int
    var dataOffs: int

    constructor (ebCnt: nat)
      ensures fresh(ec) && ec.Length == ebCnt && (forall b :: 0 <= b < ebCnt ==> ec[b] == 0)
      ensures meanEc == okCnt == emptyCnt == corruptedCnt == alienCnt == badCnt == 0
      ensures vidHdrOffs == dataOffs == -1 && goodCnt == 0
    {
      ec := new nat[ebCnt](_ => 0);
      meanEc, okCnt, emptyCnt, corruptedCnt, alienCnt, badCnt := 0, 0, 0, 0, 0, 0;
      goodCnt, vidHdrOffs, dataOffs := 0, -1, -1;
    }

    function Counts(): Tally
      reads this
    {
      Tally(okCnt, emptyCnt, corruptedCnt, alienCnt, badCnt)
    }

    ghost predicate Counted(n: nat)
      requires n <= ec.Length
      reads this, ec
    {
      Counts().Of(ec[..n])
    }

    function View(n: nat): Found
      requires n <= ec.Length
      reads this, ec
    {
      Found(ec[..n], vidHdrOffs, dataOffs)
    }

    /** The body of the loop of ubi_scan; it ends the scan when it returns false. */
    method ScanBlock(dev: Device, eb: nat) returns (ok: bool, ghost head: Bytes, ghost sizes: seq<nat>)
      requires dev.Valid() && eb < dev.ebCnt == ec.Length && Counted(eb)
      requires dev as object != this
      modifies this, ec, dev`faults
      ensures meanEc == old(meanEc) && goodCnt == old(goodCnt)
      ensures ok ==> Counted(eb + 1) && dev.faults == old(dev.faults)
      ensures ok && !dev.bad[eb] ==> HeaderRead(dev, eb, head, sizes)
      ensures ok ==> Look(old(View(eb)), dev.bad[eb], head, dev.minIo) == Some(View(eb + 1))
      ensures !ok ==> Refused(old(dev.faults), dev.faults) || Ended(dev, eb, head, sizes)
      ensures !ok && dev.faults != old(dev.faults) ==> Refused(old(dev.faults), dev.faults)
    {
      hide Sealed, Number, Crc, IsBlank, Tally.Of, Pieces, Total, Overlaid, Device.From;
      head, sizes := [], [];
      ghost var t, was, faults := Counts(), ec[..eb], dev.faults;
      var ret := dev.IsBad(eb);
      if ret == -1 {
        return false, head, sizes;
      }
      if ret != 0 {
        badCnt := badCnt + 1;
        ec[eb] := EB_BAD;
        TallyMore(t, was, EB_BAD);
        assert ec[..eb + 1] == was + [EB_BAD];
        return true, head, sizes;
      }
      var buf := new bv8[EC_HDR_SIZE];
      ghost var unset := buf[..];
      var read;
      read, sizes := dev.Read(eb, 0, buf, EC_HDR_SIZE);
      if !read {
        return false, head, sizes;
      }
      var ech := buf[..];
      assert buf[..EC_HDR_SIZE] == ech && unset[..EC_HDR_SIZE] == unset;
      HeaderIsRead(dev, eb, unset, ech, sizes);
      head := ech;
      ok := TakeHeader(dev, eb, ech);
    }

    /** What the header of an eraseblock that is not bad makes of it. */
    method TakeHeader(dev: Device, eb: nat, ech: Bytes) returns (ok: bool)
      requires dev.Valid() && EC_HDR_SIZE <= dev.ebSize && eb < dev.ebCnt == ec.Length && Counted(eb)
      requires dev as object != this && !dev.bad[eb] && |ech| == EC_HDR_SIZE
      modifies this, ec
      ensures meanEc == old(meanEc) && goodCnt == old(goodCnt)
      ensures ok ==> Counted(eb + 1) && Look(old(View(eb)), false, ech, dev.minIo) == Some(View(eb + 1))
      ensures !ok ==> EndsScan(ech)
    {
      hide Sealed, Number, Crc, IsBlank, Tally.Of;
      ghost var t, was := Counts(), ec[..eb];
      assert ech[..EC_HDR_SIZE] == ech;
      if Magic(ech) != EC_HDR_MAGIC {
        var blank := AllFf(ech);
        if blank {
          emptyCnt := emptyCnt + 1;
          ec[eb] := EB_EMPTY;
          TallyMore(t, was, EB_EMPTY);
          assert ec[..eb + 1] == was + [EB_EMPTY];
        } else {
          alienCnt := alienCnt + 1;
          ec[eb] := EB_ALIEN;
          TallyMore(t, was, EB_ALIEN);
          assert ec[..eb + 1] == was + [EB_ALIEN];
        }
        return true;
      }
      var crc := MtdCrc32(CRC32_INIT, ech[..EC_HDR_SIZE - 4]);
      SealedBy(ech, crc);
      if Word4(ech[EC_HDR_SIZE - 4..]) != crc {
        corruptedCnt := corruptedCnt + 1;
        ec[eb] := EB_CORRUPTED;
        TallyMore(t, was, EB_CORRUPTED);
        assert ec[..eb + 1] == was + [EB_CORRUPTED];
        return true;
      }
      if Counter(ech) > EC_MAX {
        return false;
      }
      ok := CheckOffsets(dev, eb, ech);
    }

    /** The offsets of the first header decide what the others must carry. */
    method CheckOffsets(dev: Device, eb: nat, ech: Bytes) returns (ok: bool)
      requires dev.Valid() && EC_HDR_SIZE <= dev.ebSize && eb < dev.ebCnt == ec.Length && Counted(eb)
      requires dev as object != this && !dev.bad[eb]
      requires |ech| == EC_HDR_SIZE && GoodEcHdr(ech) && Counter(ech) <= EC_MAX
      modifies this, ec
      ensures meanEc == old(meanEc) && goodCnt == old(goodCnt)
      ensures ok && Counted(eb + 1)
      ensures Look(old(View(eb)), dev.bad[eb], ech, dev.minIo) == Some(View(eb + 1))
    {
      hide Sealed, Number, Crc, IsBlank, Tally.Of;
      ghost var t, was := Counts(), ec[..eb];
      assert ech[..EC_HDR_SIZE] == ech;
      if vidHdrOffs == -1 {
        vidHdrOffs := AsInt(VidHdrOffset(ech));
        dataOffs := AsInt(DataOffset(ech));
        if dataOffs % dev.minIo != 0 {
          corruptedCnt := corruptedCnt + 1;
          ec[eb] := EB_CORRUPTED;
          TallyMore(t, was, EB_CORRUPTED);
          assert ec[..eb + 1] == was + [EB_CORRUPTED];
          return true;
        }
      } else {
        if AsInt(VidHdrOffset(ech)) != vidHdrOffs {
          corruptedCnt := corruptedCnt + 1;
          ec[eb] := EB_CORRUPTED;
          TallyMore(t, was, EB_CORRUPTED);
          assert ec[..eb + 1] == was + [EB_CORRUPTED];
          return true;
        }
        if AsInt(DataOffset(ech)) != dataOffs {
          corruptedCnt := corruptedCnt + 1;
          ec[eb] := EB_CORRUPTED;
          TallyMore(t, was, EB_CORRUPTED);
          assert ec[..eb + 1] == was + [EB_CORRUPTED];
          return true;
        }
      }
      okCnt := okCnt + 1;
      ec[eb] := Counter(ech);
      TallyMore(t, was, Counter(ech));
      assert ec[..eb + 1] == was + [Counter(ech)];
      return true;
    }

    /** The second pass of ubi_scan: entries that are not counters do not contribute to the mean. */
    method Average()
      requires Counted(ec.Length)
      modifies this`meanEc
      ensures okCnt != 0 ==> meanEc == Sum(ec[..]) / okCnt
      ensures okCnt == 0 ==> meanEc == old(meanEc)
    {
      if okCnt != 0 {
        var sum := 0;
        for eb := 0 to ec.Length
          invariant sum == Sum(ec[..eb])
        {
          assert ec[..eb + 1] == ec[..eb] + [ec[eb]];
          SumSnoc(ec[..eb], ec[eb]);
          if ec[eb] <= EC_MAX {
            sum := sum + ec[eb];
          }
        }
        assert ec[..ec.Length] == ec[..];
        meanEc := sum / okCnt;
      }
    }

    /**
     * The summary of a finished scan: the counts are those of the table, and the mean is that of the
     * counters in it.
     */
    ghost predicate Summary(dev: Device)
      reads this, ec
    {
      && ec.Length == dev.ebCnt && Counted(ec.Length)
      && okCnt + emptyCnt + corruptedCnt + alienCnt + badCnt == ec.Length
      && goodCnt == ec.Length - badCnt
      && (okCnt != 0 ==> meanEc == Sum(ec[..]) / okCnt)
      && (okCnt == 0 ==> meanEc == 0)
    }
  }

  lemma SealedBy(h: Bytes, crc: bv32)
    requires |h| == EC_HDR_SIZE && crc == Crc(CRC32_INIT, h[..EC_HDR_SIZE - 4])
    ensures h[..EC_HDR_SIZE] == h
    ensures Sealed(h) <==> Word4(h[EC_HDR_SIZE - 4..]) == crc
  {}

  /** A header as it was read, in pieces of these sizes. */
  ghost predicate HeaderRead(dev: Device, eb: nat, head: Bytes, sizes: seq<nat>)
    requires dev.Valid() && eb < dev.ebCnt
    reads dev`blocks, dev`bad
  {
    && |head| == EC_HDR_SIZE <= dev.ebSize && Pieces(sizes, EC_HDR_SIZE) && Total(sizes) <= |dev.From(eb, 0)|
    && exists unset :: |unset| == EC_HDR_SIZE && head == Overlaid(unset, dev.From(eb, 0), sizes)
  }

  /** A query or a read has been refused. */
  ghost predicate Refused(was: seq<Fault>, now: seq<Fault>) {
    exists f: Fault :: now == was + [f] && f.why == Usual && (f.op == Query || f.op == Reading)
  }

  /** The header of an eraseblock that ends the scan. */
  ghost predicate Ended(dev: Device, eb: nat, head: Bytes, sizes: seq<nat>)
    requires dev.Valid() && eb < dev.ebCnt
    reads dev`blocks, dev`bad
  {
    !dev.bad[eb] && EndsScan(head) && (EC_HDR_SIZE <= dev.ebSize ==> HeaderRead(dev, eb, head, sizes))
  }

  lemma {:induction false} HeaderIsRead(dev: Device, eb: nat, unset: Bytes, head: Bytes, sizes: seq<nat>)
    requires dev.Valid() && eb < dev.ebCnt && |unset| == EC_HDR_SIZE <= dev.ebSize
    requires Pieces(sizes, EC_HDR_SIZE) && Total(sizes) <= |dev.From(eb, 0)|
    requires head == Overlaid(unset, dev.From(eb, 0), sizes)
    ensures HeaderRead(dev, eb, head, sizes)
  {
    hide Pieces, Total, Overlaid, Device.From;
  }

  lemma {:induction false} WholeHeader(dev: Device, eb: nat, head: Bytes)
    requires dev.Valid() && eb < dev.ebCnt && HeaderRead(dev, eb, head, [EC_HDR_SIZE])
    ensures head == dev.blocks[eb][..EC_HDR_SIZE]
  {
    hide Total, Overlaid, Device.From;
    var unset :| |unset| == EC_HDR_SIZE && head == Overlaid(unset, dev.From(eb, 0), [EC_HDR_SIZE]);
    OverlaidWhole(unset, dev.From(eb, 0), [EC_HDR_SIZE]);
    assert dev.From(eb, 0)[..EC_HDR_SIZE] == dev.From(eb, 0)[..dev.ebSize][..EC_HDR_SIZE];
  }

  /** A scan sees no more of the eraseblocks than their headers. */
  lemma {:induction false} ScanHeads(blocks: seq<Block>, heads: seq<Bytes>, bad: seq<bool>, minIo: nat, n: nat)
    requires |blocks| == |heads| == |bad| && minIo > 0 && n <= |blocks|
    requires forall b :: 0 <= b < n && !bad[b] ==> |blocks[b]| >= EC_HDR_SIZE && heads[b] == blocks[b][..EC_HDR_SIZE]
    ensures Scan(blocks, bad, minIo, n) == Scan(heads, bad, minIo, n)
  {
    hide GoodEcHdr, Magic, Counter, VidHdrOffset, DataOffset;
    if n != 0 {
      ScanHeads(blocks, heads, bad, minIo, n - 1);
      if !bad[n - 1] {
        HeaderOnly(blocks[n - 1], heads[n - 1]);
        assert heads[n - 1][..EC_HDR_SIZE] == heads[n - 1];
      }
    }
  }

  /**
   * ubi_scan. The result is that of the headers as they were read, and that of the eraseblocks themselves if every
   * read delivered all of its header. It fails if and only if the driver refuses a query or a read, or there is an
   * eraseblock that ends the scan.
   */
  method UbiScan(dev: Device) returns (ret: int, si: ScanInfo?, ghost heads: seq<Bytes>, ghost sizes: seq<seq<nat>>)
    requires dev.Valid()
    modifies dev`faults
    ensures dev.minIo > 0 && |dev.blocks| == |dev.bad| == dev.ebCnt && |heads| == |sizes| <= dev.ebCnt
    ensures forall b :: 0 <= b < |heads| - (if ret == 0 then 0 else 1) && !dev.bad[b] ==>
      HeaderRead(dev, b, heads[b], sizes[b])
    ensures ret == 0 ==> si != null && fresh(si) && fresh(si.ec) && si.Summary(dev)
    ensures ret == 0 ==> |heads| == dev.ebCnt && dev.faults == old(dev.faults)
    ensures ret == 0 ==> Scan(heads, dev.bad, dev.minIo, dev.ebCnt) == Some(si.View(dev.ebCnt))
    ensures ret == 0 ==> Faithful(si.View(dev.ebCnt), heads, dev.bad, dev.ebCnt)
    ensures ret == 0 ==> AllClassified(si.View(dev.ebCnt), heads, dev.bad, dev.minIo, dev.ebCnt)
    ensures ret == 0 && (forall b :: 0 <= b < dev.ebCnt && !dev.bad[b] ==> sizes[b] == [EC_HDR_SIZE]) ==>
      && Scan(dev.blocks, dev.bad, dev.minIo, dev.ebCnt) == Some(si.View(dev.ebCnt))
      && Faithful(si.View(dev.ebCnt), dev.blocks, dev.bad, dev.ebCnt)
      && AllClassified(si.View(dev.ebCnt), dev.blocks, dev.bad, dev.minIo, dev.ebCnt)
    ensures ret != 0 ==> ret == -1 && si == null
    ensures ret != 0 ==>
      || Refused(old(dev.faults), dev.faults)
      || (heads != [] && Ended(dev, |heads| - 1, heads[|heads| - 1], sizes[|heads| - 1]))
  {
    hide Look, Scan, Faithful, Tally.Of, GoodEcHdr, Agrees, Counter, HeaderRead, AllClassified, Refused, Ended;
    var info := new ScanInfo(dev.ebCnt);
    NothingCounted(info);
    heads, sizes := [], [];
    NothingScanned(dev.bad, dev.minIo, info.View(0), heads);
    for eb := 0 to dev.ebCnt
      invariant info.ec.Length == dev.ebCnt && info.Counted(eb) && info.meanEc == 0
      invariant |heads| == |sizes| == eb && dev.faults == old(dev.faults)
      invariant forall b :: 0 <= b < eb && !dev.bad[b] ==> HeaderRead(dev, b, heads[b], sizes[b])
      invariant Scan(heads, dev.bad[..eb], dev.minIo, eb) == Some(info.View(eb))
    {
      ghost var f := info.View(eb);
      var ok;
      ghost var head, pieces;
      ok, head, pieces := info.ScanBlock(dev, eb);
      ScanMore(heads, dev.bad[..eb], dev.minIo, f, head, dev.bad[eb]);
      heads, sizes := heads + [head], sizes + [pieces];
      if !ok {
        return -1, null, heads, sizes;
      }
      assert dev.bad[..eb + 1] == dev.bad[..eb] + [dev.bad[eb]];
    }
    info.Average();
    info.goodCnt := dev.ebCnt - info.badCnt;
    assert dev.bad[..dev.ebCnt] == dev.bad;
    ScanFaithful(heads, dev.bad, dev.minIo, dev.ebCnt);
    ScanClassifies(heads, dev.bad, dev.minIo, dev.ebCnt);
    FaithfulEntries(info.View(dev.ebCnt), heads, dev.bad);
    AllCounted(info);
    WholeScan(dev, heads, sizes);
    return 0, info, heads, sizes;
  }

  lemma {:induction false} NothingScanned(bad: seq<bool>, minIo: nat, f: Found, heads: seq<Bytes>)
    requires minIo > 0 && f == Found([], -1, -1) && heads == []
    ensures Scan(heads, bad[..0], minIo, 0) == Some(f)
  {}

  lemma {:induction false} ScanMore(heads: seq<Bytes>, bad: seq<bool>, minIo: nat, f: Found, head: Bytes, mark: bool)
    requires |heads| == |bad| && minIo > 0 && Scan(heads, bad, minIo, |heads|) == Some(f)
    ensures Scan(heads + [head], bad + [mark], minIo, |heads| + 1) == Look(f, mark, head, minIo)
  {
    hide Look;
    ScanPrefix(heads, bad, minIo, [head], [mark], |heads|);
  }

  lemma {:induction false} ScanPrefix(heads: seq<Bytes>, bad: seq<bool>, minIo: nat, more: seq<Bytes>, marks: seq<bool>,
                                      n: nat)
    requires |heads| == |bad| && |more| == |marks| && minIo > 0 && n <= |heads|
    ensures Scan(heads + more, bad + marks, minIo, n) == Scan(heads, bad, minIo, n)
  {
    hide Look;
    if n != 0 {
      ScanPrefix(heads, bad, minIo, more, marks, n - 1);
    }
  }

  lemma FaithfulEntries(f: Found, heads: seq<Bytes>, bad: seq<bool>)
    requires |heads| == |bad| && Faithful(f, heads, bad, |heads|)
    ensures forall b :: 0 <= b < |heads| ==> Entry(f.ec[b])
  {
    hide HeaderOf;
  }

  /** With every header read at once, the scan is one of the eraseblocks. */
  lemma {:induction false} WholeScan(dev: Device, heads: seq<Bytes>, sizes: seq<seq<nat>>)
    requires dev.Valid() && dev.minIo > 0 && |heads| == |sizes| == dev.ebCnt
    requires forall b :: 0 <= b < dev.ebCnt && !dev.bad[b] ==> HeaderRead(dev, b, heads[b], sizes[b])
    ensures (forall b :: 0 <= b < dev.ebCnt && !dev.bad[b] ==> sizes[b] == [EC_HDR_SIZE]) ==>
      var r := Scan(heads, dev.bad, dev.minIo, dev.ebCnt);
      && Scan(dev.blocks, dev.bad, dev.minIo, dev.ebCnt) == r
      && (r.Some? ==> Faithful(r.value, dev.blocks, dev.bad, dev.ebCnt))
      && (r.Some? ==> AllClassified(r.value, dev.blocks, dev.bad, dev.minIo, dev.ebCnt))
  {
    hide Scan, Faithful, HeaderRead, AllClassified;
    if forall b :: 0 <= b < dev.ebCnt && !dev.bad[b] ==> sizes[b] == [EC_HDR_SIZE] {
      forall b | 0 <= b < dev.ebCnt && !dev.bad[b]
        ensures |dev.blocks[b]| >= EC_HDR_SIZE && heads[b] == dev.blocks[b][..EC_HDR_SIZE]
      {
        assert HeaderRead(dev, b, heads[b], sizes[b]);
        BigEnough(dev, b, heads[b], sizes[b]);
        WholeHeader(dev, b, heads[b]);
      }
      ScanHeads(dev.blocks, heads, dev.bad, dev.minIo, dev.ebCnt);
      ScanFaithful(dev.blocks, dev.bad, dev.minIo, dev.ebCnt);
      if Scan(dev.blocks, dev.bad, dev.minIo, dev.ebCnt).Some? {
        ScanClassifies(dev.blocks, dev.bad, dev.minIo, dev.ebCnt);
      }
    }
  }

  lemma BigEnough(dev: Device, eb: nat, head: Bytes, sizes: seq<nat>)
    requires dev.Valid() && eb < dev.ebCnt && HeaderRead(dev, eb, head, sizes)
    ensures |dev.blocks[eb]| >= EC_HDR_SIZE
  {}

  lemma NothingCounted(si: ScanInfo)
    requires si.okCnt == si.emptyCnt == si.corruptedCnt == si.alienCnt == si.badCnt == 0
    ensures si.Counted(0)
  {}

  lemma AllCounted(si: ScanInfo)
    requires si.Counted(si.ec.Length) && forall b :: 0 <= b < si.ec.Length ==> Entry(si.ec[b])
    ensures si.okCnt + si.emptyCnt + si.corruptedCnt + si.alienCnt + si.badCnt == si.ec.Length
  {
    hide Count;
    KindsPartition(si.ec[..si.ec.Length]);
  }
}

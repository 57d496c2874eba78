/** Encoding and decoding of packets with lib/libfec.c. */
module FecCodec {
  import opened Gf256
  import opened LinearAlgebra
  import opened Vandermonde
  import opened ErasureCode
  import opened FecTables
  import opened FecMatrix
  import opened GaussJordan
  import opened Shuffling
  import opened Fec

  ghost predicate Buffers(bufs: seq<array<bv8>>, sz: nat) {
    forall i :: 0 <= i < |bufs| ==> bufs[i].Length >= sz
  }

  /** The first sz bytes of each buffer. */
  ghost function Contents(bufs: seq<array<bv8>>, sz: nat): (r: Mat)
    requires Buffers(bufs, sz)
    reads bufs
    ensures Shape(r, |bufs|, sz) && forall i :: 0 <= i < |r| ==> r[i] == bufs[i][..sz]
  {
    seq(|bufs|, i requires 0 <= i < |bufs| reads bufs => bufs[i][..sz])
  }

  lemma RowTimesSnoc(v: Vec, c: bv8, a: Mat, r: Vec, sz: nat)
    requires Shape(a, |v|, sz) && |r| == sz
    ensures Shape(a + [r], |v| + 1, sz)
    ensures RowTimes(v + [c], a + [r], sz) == Plus(RowTimes(v, a, sz), Scale(c, r))
  {
    hide Add, Mul, Dot;
    forall j | 0 <= j < sz
      ensures RowTimes(v + [c], a + [r], sz)[j] == Plus(RowTimes(v, a, sz), Scale(c, r))[j]
    {
      assert Column(a + [r], |v| + 1, sz, j) == Column(a, |v|, sz, j) + [r[j]];
      DotSnoc(v, Column(a, |v|, sz, j), c, r[j]);
    }
  }

  lemma RowTimesNone(sz: nat)
    ensures RowTimes([], [], sz) == Zeros(sz)
  {}

  /** dst becomes the combination of the buffers with the k coefficients stored from co on. */
  method Combine(t: Tables, dst: array<bv8>, bufs: seq<array<bv8>>, coeffs: array<bv8>, co: nat, sz: nat)
    requires t.Valid() && t.Apart(dst) && dst != coeffs && dst !in bufs
    requires dst.Length >= sz && Buffers(bufs, sz) && co + |bufs| <= coeffs.Length
    modifies dst
    ensures dst[..sz] == RowTimes(coeffs[co..co + |bufs|], Contents(bufs, sz), sz)
    ensures dst[sz..] == old(dst[sz..])
  {
    hide Add, Mul, Dot, Plus, Scale, RowTimes, Tables.Valid;
    ghost var v, a, rest := coeffs[co..co + |bufs|], Contents(bufs, sz), dst[sz..];
    for p := 0 to sz
      invariant dst[sz..] == rest && forall q :: 0 <= q < p ==> dst[q] == 0
    {
      dst[p] := 0;
    }
    assert dst[..sz] == Zeros(sz);
    RowTimesNone(sz);
    for i := 0 to |bufs|
      invariant t.Valid() && Contents(bufs, sz) == a && coeffs[co..co + |bufs|] == v
      invariant dst[sz..] == rest
      invariant dst[..sz] == RowTimes(v[..i], a[..i], sz)
    {
      RowTimesSnoc(v[..i], v[i], a[..i], a[i], sz);
      assert v[..i] + [v[i]] == v[..i + 1] && a[..i] + [a[i]] == a[..i + 1];
      AddMul(t, dst, 0, bufs[i], 0, coeffs[co + i], sz);
      assert dst[..sz] == dst[0..sz];
    }
    assert v[..|bufs|] == v && a[..|bufs|] == a;
  }

  /** Write the packet with the given index into fec; an index out of range leaves fec alone. */
  method FecEncode(t: Tables, code: FecParms, src: seq<array<bv8>>, fec: array<bv8>, index: nat, sz: nat)
    requires t.Valid() && code.Valid() && |src| == code.k && Buffers(src, sz) && fec.Length >= sz
    requires t.Apart(fec) && fec != code.encMatrix && fec !in src
    modifies fec
    ensures index < code.n ==> fec[..sz] == Packet(code.k, code.n, index, Contents(src, sz), sz)
    ensures index >= code.n ==> fec[..] == old(fec[..])
    ensures fec[sz..] == old(fec[sz..])
  {
    hide Row, Rows, Offset, Encoder, RowTimes, Tables.Valid, Packet, FecParms.Valid, Contents;
    ghost var data := Contents(src, sz);
    CodeSizes(code);
    if index < code.k {
      Systematic(code.k, code.n, index, data, sz);
      CopyPrefix(fec, src[index], sz);
    } else if index < code.n {
      EncodeRow(t, code, src, fec, index, sz);
      PacketIs(code.k, code.n, index, data, sz);
    }
    assert Contents(src, sz) == data;
  }

  method EncodeRow(t: Tables, code: FecParms, src: seq<array<bv8>>, fec: array<bv8>, index: nat, sz: nat)
    requires t.Valid() && code.Valid() && |src| == code.k && Buffers(src, sz) && fec.Length >= sz
    requires t.Apart(fec) && fec != code.encMatrix && fec !in src && index < code.n
    modifies fec
    ensures fec[..sz] == RowTimes(Encoder(code.k, code.n)[index], Contents(src, sz), sz) && fec[sz..] == old(fec[sz..])
  {
    hide Row, Rows, Offset, Encoder, RowTimes, Tables.Valid, FecParms.Valid, Contents, Buffers,
      Tables.Apart, Shape;
    CodeSizes(code);
    ghost var at, row := Offset(index, code.k), Encoder(code.k, code.n)[index];
    RowStored(code, index);
    Combine(t, fec, src, code.encMatrix, Offset(index, code.k), sz);
    assert code.encMatrix[at..at + code.k] == row;
  }

  lemma CodeSizes(code: FecParms)
    requires code.Valid()
    ensures 1 <= code.k <= code.n <= 256 && code.encMatrix.Length == Offset(code.n, code.k)
    ensures |Encoder(code.k, code.n)| == code.n
  {
    hide Encoder, Rows, Offset;
  }

  lemma RowStored(code: FecParms, index: nat)
    requires code.Valid() && index < code.n
    ensures Offset(index, code.k) + code.k <= code.encMatrix.Length
    ensures code.encMatrix[Offset(index, code.k)..Offset(index, code.k) + code.k] == Encoder(code.k, code.n)[index]
  {
    hide Encoder, Rows, Row, Offset;
    RowAt(code.encMatrix[..], 0, code.n, code.k, index);
    assert code.encMatrix[..][Offset(index, code.k)..Offset(index, code.k) + code.k]
      == code.encMatrix[Offset(index, code.k)..Offset(index, code.k) + code.k];
  }

  lemma PacketIs(k: nat, n: nat, index: nat, src: Mat, sz: nat)
    requires k <= n && index < n && Shape(src, k, sz)
    ensures Packet(k, n, index, src, sz) == RowTimes(Encoder(k, n)[index], src, sz)
  {}

  method CopyPrefix(dst: array<bv8>, src: array<bv8>, sz: nat)
    requires dst != src && dst.Length >= sz && src.Length >= sz
    modifies dst
    ensures dst[..sz] == src[..sz] && dst[sz..] == old(dst[sz..])
  {
    for p := 0 to sz
      invariant dst[..p] == src[..p] && dst[sz..] == old(dst[sz..])
    {
      dst[p] := src[p];
    }
  }

  ghost predicate InRange(index: seq<int>, n: nat) {
    forall i :: 0 <= i < |index| ==> 0 <= index[i] < n
  }

  /** The rows of the encoding matrix for shuffled indices. */
  ghost function Received(k: nat, n: nat, index: seq<int>): (r: Mat)
    requires k <= n && |index| == k && InRange(index, n)
    ensures Shape(r, k, k) && forall i :: 0 <= i < k ==> r[i] == Encoder(k, n)[index[i]]
  {
    hide Encoder;
    Selected(k, n, index)
  }

  lemma ReceivedIndependent(k: nat, n: nat, index: seq<int>)
    requires 1 <= k <= n <= 256 && |index| == k && InRange(index, n)
    ensures Nonsingular(Received(k, n, index), k) <==> Distinct(index)
  {
    hide Nonsingular;
    var naturals: seq<nat> := index;
    AnyRowsIndependent(k, n, naturals);
  }

  /**
   * The inverse of the received rows, or null if an index is too large or two indices are equal.
   * The indices must have been shuffled.
   */
  method BuildDecodeMatrix(t: Tables, code: FecParms, index: seq<int>) returns (matrix: array?<bv8>)
    requires t.Valid() && code.Valid() && |index| == code.k && Natural(index) && InPlace(index, code.k, code.k)
    ensures t.Valid()
    ensures matrix != null <==> InRange(index, code.n) && Distinct(index)
    ensures matrix != null ==> fresh(matrix) && matrix.Length == Offset(code.k, code.k)
    ensures matrix != null ==> Inverse(Received(code.k, code.n, index), Rows(matrix[..], 0, code.k, code.k), code.k)
  {
    hide Row, Rows, Offset, Encoder, Inverse, Nonsingular, Distinct;
    var k := code.k;
    var m := new bv8[Offset(k, k)];
    for i := 0 to k
      invariant t.Valid() && code.Valid() && Natural(index) && InPlace(index, k, k)
      invariant forall j :: 0 <= j < i ==> index[j] < code.n && Rows(m[..], 0, k, k)[j] == Encoder(k, code.n)[index[j]]
    {
      if index[i] < k {
        ClearUnit(m, k, i);
      } else if index[i] < code.n {
        CopyRow(m, k, i, code.encMatrix, code.n, index[i]);
      } else {
        assert !InRange(index, code.n) by { assert index[i] >= code.n; }
        return null;
      }
    }
    assert Rows(m[..], 0, k, k) == Received(k, code.n, index);
    ReceivedIndependent(k, code.n, index);
    var error := InvertMat(t, m, k);
    if error != 0 {
      return null;
    }
    return m;
  }

  method ClearUnit(m: array<bv8>, k: nat, i: nat)
    requires m.Length == Offset(k, k) && i < k
    modifies m
    ensures Rows(m[..], 0, k, k) == old(Rows(m[..], 0, k, k))[i := Unit(k, i)]
  {
    hide Row, Rows, Offset;
    ghost var before := m[..];
    RowFits(i, k, k);
    var p := Offset(i, k);
    for c := 0 to k
      invariant forall q :: 0 <= q < m.Length && !(p <= q < p + k) ==> m[q] == before[q]
      invariant forall q :: p <= q < p + c ==> m[q] == 0
    {
      m[p + c] := 0;
    }
    assert m[p..p + k] == Zeros(k);
    m[p + i] := 1;
    RowChanged(before, m[..], 0, k, k, i);
    assert m[p..p + k] == Zeros(k)[i := 1];
  }

  method CopyRow(m: array<bv8>, k: nat, i: nat, enc: array<bv8>, n: nat, r: nat)
    requires m.Length == Offset(k, k) && i < k && enc.Length == Offset(n, k) && r < n && m != enc
    modifies m
    ensures Rows(m[..], 0, k, k) == old(Rows(m[..], 0, k, k))[i := Rows(enc[..], 0, n, k)[r]]
  {
    hide Row, Offset;
    ghost var before := m[..];
    RowFits(i, k, k);
    RowAt(enc[..], 0, n, k, r);
    var p, s := Offset(i, k), Offset(r, k);
    for c := 0 to k
      invariant forall q :: 0 <= q < m.Length && !(p <= q < p + k) ==> m[q] == before[q]
      invariant forall q :: p <= q < p + c ==> m[q] == enc[q - p + s]
    {
      m[p + c] := enc[s + c];
    }
    RowChanged(before, m[..], 0, k, k, i);
    SameSlice(m[..], enc[..], p, s, k);
  }

  // Decoding.

  /** The decoded packets, for the decoding matrix d and the received packets y. */
  ghost function Decoded(d: Mat, k: nat, index: seq<int>, y: Mat, sz: nat): (r: Mat)
    requires Shape(d, k, k) && Shape(y, k, sz) && |index| == k
    ensures Shape(r, k, sz)
    ensures forall i :: 0 <= i < k ==> r[i] == if index[i] >= k then RowTimes(d[i], y, sz) else y[i]
  {
    seq(k, i requires 0 <= i < k => if index[i] >= k then RowTimes(d[i], y, sz) else y[i])
  }

  /** Encoding the decoded packets again gives back what was received. */
  lemma DecodedEncodes(k: nat, n: nat, index: seq<int>, d: Mat, y: Mat, sz: nat)
    requires 1 <= k <= n <= 256 && |index| == k && InRange(index, n) && InPlace(index, k, k)
    requires Shape(d, k, k) && Shape(y, k, sz) && Inverse(Received(k, n, index), d, k)
    ensures forall i :: 0 <= i < k ==> y[i] == Packet(k, n, index[i], Decoded(d, k, index, y, sz), sz)
  {
    hide Dot, Encoder;
    var a, x := Received(k, n, index), Decoded(d, k, index, y, sz);
    forall c | 0 <= c < sz
      ensures forall i :: 0 <= i < k ==> y[i][c] == Dot(a[i], Column(x, k, sz, c))
    {
      var yc := Column(y, k, sz, c);
      var xc := Apply(d, k, yc);
      assert Solves(d, k, yc, xc);
      assert Solves(a, k, xc, yc);
      forall i | 0 <= i < k
        ensures x[i][c] == xc[i]
      {
        if index[i] < k {
          EncoderTop(k, n, i);
          DotUnit(xc, i);
        }
      }
      assert Column(x, k, sz, c) == xc;
    }
    forall i | 0 <= i < k
      ensures y[i] == Packet(k, n, index[i], x, sz)
    {
      PacketIs(k, n, index[i], x, sz);
    }
  }

  lemma EncoderTop(k: nat, n: nat, i: nat)
    requires i < k <= n
    ensures Encoder(k, n)[i] == Unit(k, i)
  {}

  /** Any k different packets determine the source. */
  lemma SourceUnique(k: nat, n: nat, index: seq<nat>, x: Mat, x': Mat, sz: nat)
    requires 1 <= k <= n <= 256 && |index| == k && Distinct(index) && forall i :: 0 <= i < k ==> index[i] < n
    requires Shape(x, k, sz) && Shape(x', k, sz)
    requires forall i :: 0 <= i < k ==> Packet(k, n, index[i], x, sz) == Packet(k, n, index[i], x', sz)
    ensures x == x'
  {
    forall i | 0 <= i < k
      ensures x[i] == x'[i]
    {
      forall c | 0 <= c < sz
        ensures x[i][c] == x'[i][c]
      {
        ColumnUnique(k, n, index, x, x', sz, c);
        assert Column(x, k, sz, c)[i] == Column(x', k, sz, c)[i];
      }
    }
  }

  lemma ColumnUnique(k: nat, n: nat, index: seq<nat>, x: Mat, x': Mat, sz: nat, c: nat)
    requires 1 <= k <= n <= 256 && |index| == k && Distinct(index) && forall i :: 0 <= i < k ==> index[i] < n
    requires Shape(x, k, sz) && Shape(x', k, sz) && c < sz
    requires forall i :: 0 <= i < k ==> Packet(k, n, index[i], x, sz) == Packet(k, n, index[i], x', sz)
    ensures Column(x, k, sz, c) == Column(x', k, sz, c)
  {
    hide Dot, Encoder, Nonsingular;
    var a := Selected(k, n, index);
    var v, v' := Column(x, k, sz, c), Column(x', k, sz, c);
    var y := Apply(a, k, v);
    AnyRowsIndependent(k, n, index);
    forall i | 0 <= i < k
      ensures y[i] == Dot(a[i], v')
    {
      PacketIs(k, n, index[i], x, sz);
      PacketIs(k, n, index[i], x', sz);
      assert RowTimes(a[i], x, sz)[c] == RowTimes(a[i], x', sz)[c];
    }
    Injective(a, k, v, v', y);
  }

  /** y is what the receiver of the packets with these indices sees when the source is x. */
  ghost predicate PacketsOf(k: nat, n: nat, index: seq<int>, x: Mat, y: Mat, sz: nat) {
    && k <= n && |index| == k && InRange(index, n) && Shape(x, k, sz) && Shape(y, k, sz)
    && forall i :: 0 <= i < k ==> y[i] == Packet(k, n, index[i], x, sz)
  }

  lemma PacketsDetermine(k: nat, n: nat, index: seq<int>, x: Mat, x': Mat, y: Mat, sz: nat)
    requires 1 <= k <= n <= 256 && Distinct(index)
    requires PacketsOf(k, n, index, x, y, sz) && PacketsOf(k, n, index, x', y, sz)
    ensures x == x'
  {
    hide Packet;
    var naturals: seq<nat> := index;
    SourceUnique(k, n, naturals, x, x', sz);
  }

  ghost predicate Holds(index: seq<int>, y: Mat, v: int, packet: Vec)
    requires |index| == |y|
  {
    exists j :: 0 <= j < |index| && index[j] == v && y[j] == packet
  }

  ghost predicate Matched(index: seq<int>, y: Mat, index0: seq<int>, y0: Mat) {
    && |index| == |y| && |index0| == |y0| == |index|
    && forall i :: 0 <= i < |index0| ==> Holds(index, y, index0[i], y0[i])
  }

  /** Packets and indices that travel together are the same observation in any order. */
  lemma PacketsReordered(k: nat, n: nat, index: seq<int>, y: Mat, index0: seq<int>, y0: Mat, x: Mat, sz: nat)
    requires PacketsOf(k, n, index, x, y, sz) && |index0| == k && InRange(index0, n) && Shape(y0, k, sz)
    requires Matched(index, y, index0, y0)
    ensures PacketsOf(k, n, index0, x, y0, sz)
  {
    hide Packet;
  }

  ghost predicate Disjoint(t: Tables, code: FecParms, pkt: array<array<bv8>>, index: array<int>,
                           bufs: seq<array<bv8>>) {
    && t.Apart(pkt) && t.Apart(index) && pkt as object != index
    && pkt as object != code.encMatrix && index as object != code.encMatrix
    && forall b :: b in bufs ==> t.Apart(b) && b != code.encMatrix && b as object != pkt && b as object != index
  }

  /** Decode the packets that are not source packets into new buffers. */
  method DecodeRows(t: Tables, pkt: seq<array<bv8>>, index: seq<int>, k: nat, m: array<bv8>, sz: nat)
    returns (newPkt: seq<array?<bv8>>)
    requires t.Valid() && |pkt| == |index| == k && Buffers(pkt, sz) && m.Length == Offset(k, k)
    ensures |newPkt| == k
    ensures forall i :: 0 <= i < k && index[i] >= k ==> newPkt[i] != null && fresh(newPkt[i]) && newPkt[i].Length == sz
    ensures forall i :: 0 <= i < k && index[i] >= k ==>
      newPkt[i][..] == RowTimes(Rows(m[..], 0, k, k)[i], Contents(pkt, sz), sz)
  {
    hide Row, Offset, RowTimes;
    newPkt := [];
    ghost var y, d := Contents(pkt, sz), Rows(m[..], 0, k, k);
    for row := 0 to k
      invariant t.Valid() && Contents(pkt, sz) == y && Rows(m[..], 0, k, k) == d
      invariant |newPkt| == row
      invariant forall i :: 0 <= i < row && index[i] >= k ==>
        newPkt[i] != null && fresh(newPkt[i]) && newPkt[i].Length == sz && newPkt[i][..] == RowTimes(d[i], y, sz)
    {
      if index[row] >= k {
        var b := new bv8[sz];
        RowAt(m[..], 0, k, k, row);
        Combine(t, b, pkt, m, Offset(row, k), sz);
        assert b[..] == b[..sz];
        newPkt := newPkt + [b];
      } else {
        newPkt := newPkt + [null];
      }
    }
  }

  /** Move the decoded packets x to their final places; the others are there already. */
  method StoreRows(pkt: seq<array<bv8>>, index: seq<int>, k: nat, newPkt: seq<array?<bv8>>, sz: nat, ghost x: Mat)
    requires |pkt| == |newPkt| == |index| == k && Buffers(pkt, sz) && Distinct(pkt) && Shape(x, k, sz)
    requires forall i :: 0 <= i < k && index[i] >= k ==>
      newPkt[i] != null && newPkt[i] !in pkt && newPkt[i].Length == sz
    requires forall i :: 0 <= i < k ==> x[i] == if index[i] >= k then newPkt[i][..] else pkt[i][..sz]
    modifies pkt
    ensures Contents(pkt, sz) == x
  {
    for row := 0 to k
      invariant forall i :: 0 <= i < k && index[i] >= k ==> newPkt[i][..] == x[i]
      invariant forall i :: 0 <= i < k && (i < row || index[i] < k) ==> pkt[i][..sz] == x[i]
    {
      if index[row] >= k {
        CopyPrefix(pkt[row], newPkt[row], sz);
        assert newPkt[row][..sz] == newPkt[row][..];
      }
    }
  }

  /** Decoding once the packets have been shuffled. */
  method DecodeShuffled(t: Tables, code: FecParms, pkt: seq<array<bv8>>, index: seq<int>, sz: nat) returns (err: int)
    requires t.Valid() && code.Valid() && |pkt| == |index| == code.k
    requires Natural(index) && InPlace(index, code.k, code.k) && Buffers(pkt, sz) && Distinct(pkt)
    requires forall b :: b in pkt ==> b != code.encMatrix && t.Apart(b)
    modifies pkt
    ensures err == 0 <==> Distinct(index) && InRange(index, code.n)
    ensures err == 0 ==> PacketsOf(code.k, code.n, index, Contents(pkt, sz), old(Contents(pkt, sz)), sz)
  {
    hide Row, Rows, Offset, RowTimes, Inverse, Natural, Distinct, InRange, InPlace, PacketsOf, Tables.Valid;
    var k := code.k;
    ghost var y := Contents(pkt, sz);
    var m := BuildDecodeMatrix(t, code, index);
    if m == null {
      return 1;
    }
    ghost var d := Rows(m[..], 0, k, k);
    DecodedIsSource(k, code.n, index, d, y, sz);
    var newPkt := DecodeRows(t, pkt, index, k, m, sz);
    StoreRows(pkt, index, k, newPkt, sz, Decoded(d, k, index, y, sz));
    return 0;
  }

  lemma DecodedIsSource(k: nat, n: nat, index: seq<int>, d: Mat, y: Mat, sz: nat)
    requires 1 <= k <= n <= 256 && |index| == k && InRange(index, n) && InPlace(index, k, k)
    requires Shape(d, k, k) && Shape(y, k, sz) && Inverse(Received(k, n, index), d, k)
    ensures PacketsOf(k, n, index, Decoded(d, k, index, y, sz), y, sz)
  {
    hide Packet, Inverse;
    DecodedEncodes(k, n, index, d, y, sz);
  }

  lemma InRangeKept(index: seq<int>, index0: seq<int>, n: nat)
    requires forall v :: v in index0 ==> v in index
    ensures InRange(index, n) ==> InRange(index0, n)
  {
    if InRange(index, n) {
      forall i | 0 <= i < |index0|
        ensures 0 <= index0[i] < n
      {
        assert index0[i] in index0;
        var j :| 0 <= j < |index| && index[j] == index0[i];
      }
    }
  }

  /** Shuffling does not change whether decoding is possible. */
  lemma DecodableKept<T>(index: seq<int>, pkt: seq<T>, index0: seq<int>, pkt0: seq<T>, n: nat)
    requires Rearranged(index, pkt, index0, pkt0)
    ensures Distinct(index) && InRange(index, n) <==> Distinct(index0) && InRange(index0, n)
  {
    hide Rearranged, Distinct, InRange;
    RearrangedKeeps(index, pkt, index0, pkt0);
    InRangeKept(index, index0, n);
    InRangeKept(index0, index, n);
  }

  /** The rearranged observation, back in the order of the caller. */
  lemma DecodeReorders<T>(k: nat, n: nat, index: seq<int>, pkt: seq<T>, y: Mat, index0: seq<int>, pkt0: seq<T>, y0: Mat,
    x: Mat, sz: nat)
    requires Rearranged(index, pkt, index0, pkt0) && |index| == |pkt| == |index0| == |pkt0| == k
    requires PacketsOf(k, n, index, x, y, sz) && Shape(y0, k, sz)
    requires forall i, j :: 0 <= i < k && 0 <= j < k && pkt[j] == pkt0[i] ==> y[j] == y0[i]
    ensures PacketsOf(k, n, index0, x, y0, sz)
  {
    hide Rearranged, Distinct, Packet;
    RearrangedKeeps(index, pkt, index0, pkt0);
    InRangeKept(index, index0, n);
    forall i | 0 <= i < |index0|
      ensures Holds(index, y, index0[i], y0[i])
    {
      var j :| 0 <= j < |index| && index[j] == index0[i] && pkt[j] == pkt0[i];
      assert y[j] == y0[i];
    }
    PacketsReordered(k, n, index, y, index0, y0, x, sz);
  }

  lemma DistinctMeansOnce(index: seq<int>, k: nat)
    requires Distinct(index)
    ensures NoneTwice(index, k)
  {
    forall v | v < k
      ensures multiset(index)[v] <= 1
    {
      OnceCounted(index, v);
    }
  }

  /**
   * Decode in place. Success means that the indices were different and in range; then the buffers
   * hold the only source whose packets were received.
   */
  method FecDecode(t: Tables, code: FecParms, pkt: array<array<bv8>>, index: array<int>, sz: nat) returns (err: int)
    requires t.Valid() && code.Valid() && pkt.Length == index.Length == code.k && Natural(index[..])
    requires Buffers(pkt[..], sz) && Distinct(pkt[..]) && Disjoint(t, code, pkt, index, pkt[..])
    modifies pkt, index, pkt[..]
    ensures err == 0 <==> Distinct(old(index[..])) && InRange(old(index[..]), code.n)
    ensures Buffers(pkt[..], sz)
    ensures err == 0 ==>
      PacketsOf(code.k, code.n, old(index[..]), Contents(pkt[..], sz), old(Contents(pkt[..], sz)), sz)
    ensures err == 0 ==> forall x ::
      PacketsOf(code.k, code.n, old(index[..]), x, old(Contents(pkt[..], sz)), sz) ==> x == Contents(pkt[..], sz)
  {
    hide Row, Rows, Offset, Rearranged, NoneTwice, Natural, PacketsOf, Distinct, InRange, Encoder, Tables.Valid;
    var k := code.k;
    ghost var index0, pkt0, y0 := index[..], pkt[..], Contents(pkt[..], sz);
    err := Shuffle(pkt, index, k);
    RearrangedKeeps(index[..], pkt[..], index0, pkt0);
    MembersAre(pkt[..], pkt0);
    if err != 0 {
      if Distinct(index0) { DistinctMeansOnce(index0, k); }
      return;
    }
    ghost var y := Contents(pkt[..], sz);
    ghost var s, p := index[..], pkt[..];
    DecodableKept(s, p, index0, pkt0, code.n);
    err := DecodeShuffled(t, code, pkt[..], index[..], sz);
    assert pkt[..] == p;
    if err == 0 {
      DecodeReorders(k, code.n, s, p, y, index0, pkt0, y0, Contents(pkt[..], sz), sz);
      forall x | PacketsOf(k, code.n, index0, x, y0, sz)
        ensures x == Contents(pkt[..], sz)
      {
        PacketsDetermine(k, code.n, index0, x, Contents(pkt[..], sz), y0, sz);
      }
    }
  }

  lemma MembersAre<T>(s: seq<T>, s': seq<T>)
    requires forall p :: p in s <==> p in s'
    ensures forall i :: 0 <= i < |s| ==> s[i] in s'
  {}
}

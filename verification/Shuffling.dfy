/** shuffle of lib/libfec.c: bring every received source packet to its own position. */
module Shuffling {
  import opened Gf256
  import opened Elimination

  function Pairs<T>(index: seq<int>, pkt: seq<T>): (r: seq<(int, T)>)
    requires |index| == |pkt|
    ensures |r| == |index| && forall i :: 0 <= i < |r| ==> r[i] == (index[i], pkt[i])
  {
    seq(|index|, i requires 0 <= i < |index| => (index[i], pkt[i]))
  }

  ghost function Unfixed(s: seq<int>): set<nat> {
    set i: nat | i < |s| && s[i] != i
  }

  lemma TwiceCounted<T>(s: seq<T>, i: nat, j: nat)
    requires i < |s| && j < |s| && i != j && s[i] == s[j]
    ensures multiset(s)[s[i]] >= 2
  {
    var a, b := if i < j then i else j, if i < j then j else i;
    assert s == s[..a] + [s[a]] + s[a + 1..b] + [s[b]] + s[b + 1..];
  }

  lemma {:induction false} OnceCounted<T>(s: seq<T>, v: T)
    requires forall i, j :: 0 <= i < j < |s| ==> !(s[i] == v && s[j] == v)
    ensures multiset(s)[v] <= 1
  {
    if s != [] {
      var front := s[..|s| - 1];
      assert s == front + [s[|s| - 1]];
      OnceCounted(front, v);
      if s[|s| - 1] == v {
        assert v !in front;
        assert v !in multiset(front);
      }
    }
  }

  lemma DistinctKept<T>(s: seq<T>, s': seq<T>)
    requires multiset(s) == multiset(s') && Distinct(s)
    ensures Distinct(s')
  {
    forall i, j | 0 <= i < j < |s'|
      ensures s'[i] != s'[j]
    {
      if s'[i] == s'[j] {
        TwiceCounted(s', i, j);
        OnceCounted(s, s'[i]);
      }
    }
  }

  lemma SwapCounts<T>(s: seq<int>, p: seq<T>, i: nat, j: nat)
    requires i < |s| == |p| && j < |s|
    ensures multiset(Swap(s, i, j)) == multiset(s) && multiset(Swap(p, i, j)) == multiset(p)
    ensures multiset(Pairs(Swap(s, i, j), Swap(p, i, j))) == multiset(Pairs(s, p))
  {
    assert Pairs(Swap(s, i, j), Swap(p, i, j)) == Swap(Pairs(s, p), i, j);
  }

  /** A swap puts one more index in place, and displaces none that was. */
  lemma SwapFixes(s: seq<int>, i: nat)
    requires i < |s| && s[i] != i && 0 <= s[i] < |s| && s[s[i]] != s[i]
    ensures Unfixed(Swap(s, i, s[i])) < Unfixed(s)
  {
    assert s[i] in Unfixed(s) && s[i] !in Unfixed(Swap(s, i, s[i]));
  }

  method SwapBoth<T>(pkt: array<T>, index: array<int>, i: nat, c: nat)
    requires pkt.Length == index.Length && pkt as object != index && i < pkt.Length && c < pkt.Length
    modifies pkt, index
    ensures index[..] == Swap(old(index[..]), i, c) && pkt[..] == Swap(old(pkt[..]), i, c)
  {
    index[i], index[c] := index[c], index[i];
    pkt[i], pkt[c] := pkt[c], pkt[i];
  }

  /** The same indices with the same packets, in another order. */
  ghost predicate Rearranged<T>(index: seq<int>, pkt: seq<T>, index0: seq<int>, pkt0: seq<T>) {
    && |index| == |pkt| == |index0| == |pkt0|
    && multiset(index) == multiset(index0) && multiset(pkt) == multiset(pkt0)
    && multiset(Pairs(index, pkt)) == multiset(Pairs(index0, pkt0))
  }

  ghost predicate NoneTwice(index: seq<int>, k: nat) {
    forall v :: v < k ==> multiset(index)[v] <= 1
  }

  ghost predicate InPlace(index: seq<int>, k: nat, n: nat) {
    n <= |index| && forall i :: 0 <= i < n && index[i] < k ==> index[i] == i
  }

  ghost predicate Natural(index: seq<int>) {
    forall i :: 0 <= i < |index| ==> index[i] >= 0
  }

  lemma SwapStep<T>(index: seq<int>, pkt: seq<T>, index0: seq<int>, pkt0: seq<T>, k: nat, i: nat)
    requires Rearranged(index, pkt, index0, pkt0) && Natural(index) && InPlace(index, k, i) && |index| == k
    requires i < k && index[i] != i && index[i] < k && index[index[i]] != index[i]
    ensures var c := index[i];
      && Rearranged(Swap(index, i, c), Swap(pkt, i, c), index0, pkt0)
      && Natural(Swap(index, i, c)) && InPlace(Swap(index, i, c), k, i)
      && Unfixed(Swap(index, i, c)) < Unfixed(index)
  {
    hide Pairs, Unfixed;
    SwapCounts(index, pkt, i, index[i]);
    SwapFixes(index, i);
  }

  lemma AllInPlace(index: seq<int>, k: nat)
    requires InPlace(index, k, |index|) && |index| == k
    ensures NoneTwice(index, k)
  {
    forall v | v < k
      ensures multiset(index)[v] <= 1
    {
      OnceCounted(index, v);
    }
  }

  lemma Conflict<T>(index: seq<int>, pkt: seq<T>, index0: seq<int>, pkt0: seq<T>, k: nat, i: nat)
    requires Rearranged(index, pkt, index0, pkt0) && |index| == k && i < k
    requires 0 <= index[i] < k && index[i] != i && index[index[i]] == index[i]
    ensures !NoneTwice(index0, k)
  {
    TwiceCounted(index, i, index[i]);
  }

  /** A result of 0 means that no index below k occurs twice; then each of those is in its place. */
  method Shuffle<T>(pkt: array<T>, index: array<int>, k: nat) returns (err: int)
    requires pkt.Length == index.Length == k && pkt as object != index && Natural(index[..])
    modifies pkt, index
    ensures err == 0 || err == 1
    ensures err == 0 <==> NoneTwice(old(index[..]), k)
    ensures err == 0 ==> InPlace(index[..], k, k)
    ensures Natural(index[..]) && Rearranged(index[..], pkt[..], old(index[..]), old(pkt[..]))
  {
    hide Rearranged, Natural, NoneTwice, Unfixed, Swap;
    ghost var index0, pkt0 := index[..], pkt[..];
    RearrangedSame(index0, pkt0);
    var i := 0;
    while i < k
      invariant 0 <= i <= k && Natural(index[..]) && InPlace(index[..], k, i)
      invariant Rearranged(index[..], pkt[..], index0, pkt0)
      decreases Unfixed(index[..]), k - i
    {
      NaturalAt(index[..], i);
      if index[i] >= k || index[i] == i {
        i := i + 1;
      } else {
        var c := index[i];
        if index[c] == c {
          Conflict(index[..], pkt[..], index0, pkt0, k, i);
          return 1;
        }
        SwapStep(index[..], pkt[..], index0, pkt0, k, i);
        SwapBoth(pkt, index, i, c);
      }
    }
    AllInPlace(index[..], k);
    SameCounts(index[..], pkt[..], index0, pkt0, k);
    return 0;
  }

  lemma NaturalAt(index: seq<int>, i: nat)
    requires Natural(index) && i < |index|
    ensures index[i] >= 0
  {}

  lemma RearrangedSame<T>(index: seq<int>, pkt: seq<T>)
    requires |index| == |pkt|
    ensures Rearranged(index, pkt, index, pkt)
  {}

  lemma SameCounts<T>(index: seq<int>, pkt: seq<T>, index0: seq<int>, pkt0: seq<T>, k: nat)
    requires Rearranged(index, pkt, index0, pkt0)
    ensures NoneTwice(index, k) <==> NoneTwice(index0, k)
  {}

  /** What a rearrangement keeps: distinctness, and each packet's index. */
  lemma RearrangedKeeps<T>(index: seq<int>, pkt: seq<T>, index0: seq<int>, pkt0: seq<T>)
    requires Rearranged(index, pkt, index0, pkt0)
    ensures Distinct(index) <==> Distinct(index0)
    ensures Distinct(pkt) <==> Distinct(pkt0)
    ensures forall p :: p in pkt <==> p in pkt0
    ensures forall v :: v in index <==> v in index0
    ensures forall i :: 0 <= i < |index0| ==> exists j :: 0 <= j < |index| && index[j] == index0[i] && pkt[j] == pkt0[i]
  {
    hide Pairs;
    if Distinct(index) { DistinctKept(index, index0); }
    if Distinct(index0) { DistinctKept(index0, index); }
    if Distinct(pkt) { DistinctKept(pkt, pkt0); }
    if Distinct(pkt0) { DistinctKept(pkt0, pkt); }
    forall p
      ensures p in pkt <==> p in pkt0
    {
      assert p in multiset(pkt) <==> p in multiset(pkt0);
    }
    forall v
      ensures v in index <==> v in index0
    {
      assert v in multiset(index) <==> v in multiset(index0);
    }
    forall i | 0 <= i < |index0|
      ensures exists j :: 0 <= j < |index| && index[j] == index0[i] && pkt[j] == pkt0[i]
    {
      var e := Pairs(index0, pkt0)[i];
      assert e in multiset(Pairs(index0, pkt0));
      assert e in Pairs(index, pkt);
      var j :| 0 <= j < |index| && Pairs(index, pkt)[j] == e;
    }
  }
}

/** How add_partition of busybox/fdisk.c finds room for a partition, in units of sectors or of cylinders. */
module Allocation {
  import opened Division
  import opened Wrappers

  /** The first and the last sector of a partition; a partition that is not defined has first > last. */
  datatype Bounds = Bounds(first: nat, last: nat) {
    predicate Live() {
      first <= last
    }

    predicate Contains(s: nat) {
      first <= s <= last
    }
  }

  const UNDEFINED: Bounds := Bounds(0xffffffff, 0)

  predicate Disjoint(a: Bounds, b: Bounds) {
    a.Live() && b.Live() ==> a.last < b.first || b.last < a.first
  }

  /**
   * What add_partition knows of the disk: the bounds of all partitions, the sectors that hold their tables,
   * the distance that is kept from a table, and the number of sectors in a unit.
   */
  datatype Layout = Layout(bounds: seq<Bounds>, tables: seq<nat>, gap: nat, limit: nat, unit: nat) {
    predicate Fits() {
      && |bounds| == |tables| >= 4 && gap > 0 && unit > 0 && (forall i :: 0 <= i < 4 ==> tables[i] == 0)
      && forall i :: 0 <= i < 4 && bounds[i].Live() ==> Aligned(bounds[i].first)
    }

    /** The start of a unit. */
    predicate Aligned(s: nat) {
      unit > 0 && s % unit == 0
    }

    /** One partition pushes the start along. */
    function Push(start: nat, i: nat): (r: nat)
      requires i < |bounds| == |tables|
      ensures r >= start
    {
      var s := if start == tables[i] then start + gap else start;
      if bounds[i].Contains(s) then bounds[i].last + 1 else s
    }

    /** One pass over the partitions, from the i-th on. */
    function Pass(start: nat, i: nat): (r: nat)
      requires i <= |bounds| == |tables|
      ensures r >= start
      decreases |bounds| - i
    {
      if i == |bounds| then start else Pass(Push(start, i), i + 1)
    }

    /** The first free start, before anybody is asked. */
    function Free(start: nat): (r: nat)
      requires |bounds| == |tables|
      ensures r >= start
      ensures r <= limit ==> Pass(r, 0) == r
      decreases if start > limit then 0 else limit + 1 - start
    {
      if start > limit || Pass(start, 0) == start then start else Free(Pass(start, 0))
    }

    /** Passes are repeated until the start stays, moves by a whole unit, or exceeds the limit. */
    function Settle(a: nat): (r: nat)
      requires |bounds| == |tables|
      ensures r >= a
      decreases if a > limit then 0 else limit + 1 - a
    {
      var p := Pass(a, 0);
      if p == a || p > limit || p >= a + unit then p else Settle(p)
    }

    /** They end with a move by a whole unit, after which the program asks again. */
    predicate Jumps(a: nat)
      requires |bounds| == |tables|
      ensures Jumps(a) ==> a < Settle(a) <= limit
      decreases if a > limit then 0 else limit + 1 - a
    {
      var p := Pass(a, 0);
      p != a && p <= limit && (p >= a + unit || Jumps(p))
    }

    /** What can be answered: the start that is proposed, or the start of a unit behind it. */
    predicate Answer(low: nat, a: nat) {
      low <= a <= limit && (a == low || Aligned(a))
    }

    /**
     * The start that comes out of a dialogue: an answer that is not free moves on and asks again, and the
     * proposed start is taken without another look. None when an answer is out of range or missing.
     */
    function Dialogue(low: nat, answers: seq<nat>): (r: Option<nat>)
      requires |bounds| == |tables|
      decreases |answers|
    {
      if answers == [] || !Answer(low, answers[0]) then None
      else
        var a := answers[0];
        if a == low then Some(low)
        else if Jumps(a) then Dialogue(Settle(a), answers[1..])
        else Some(Settle(a))
    }

    /** A start outside of all partitions. */
    predicate Clean(s: nat) {
      forall i :: 0 <= i < |bounds| ==> !bounds[i].Contains(s)
    }

    /** A start outside of all partitions that is not the sector of a table either. */
    predicate Clear(s: nat)
      requires |bounds| == |tables|
    {
      Clean(s) && forall i :: 0 <= i < |tables| ==> tables[i] != s
    }

    // When does a dialogue end in a place that is taken?

    /** Some dialogue ends in a place that is taken. */
    ghost predicate Overlaps(low: nat)
      requires |bounds| == |tables|
    {
      exists answers: seq<nat> :: EndsInside(low, answers)
    }

    predicate EndsInside(low: nat, answers: seq<nat>)
      requires |bounds| == |tables|
    {
      var r := Dialogue(low, answers); r.Some? && r.value <= limit && !Clear(r.value)
    }

    /** A single answer is moved, within the limit, to a place that is taken. */
    predicate Strays(a: nat)
      requires |bounds| == |tables|
    {
      Jumps(a) && !Clear(Settle(a))
    }

    /** No answer goes astray. */
    predicate Steady(low: nat)
      requires |bounds| == |tables|
    {
      forall a :: low <= a <= limit && Aligned(a) ==> !Strays(a)
    }

    /** What a pass leaves alone is not taken. */
    lemma {:induction false} FixedIsClear(start: nat, i: nat)
      requires i <= |bounds| == |tables| && gap > 0 && Pass(start, i) == start
      ensures forall j :: i <= j < |bounds| ==> !bounds[j].Contains(start) && tables[j] != start
      decreases |bounds| - i
    {
      if i < |bounds| {
        FixedIsClear(start, i + 1);
      }
    }

    /** A sector in a partition, or at a table or less than the gap behind it. */
    predicate Covered(x: nat)
      requires |bounds| == |tables|
    {
      exists i :: 0 <= i < |bounds| && (bounds[i].Contains(x) || tables[i] <= x < tables[i] + gap)
    }

    /** A start is never pushed over a sector that nothing covers. */
    lemma {:induction false} PassCovers(start: nat, i: nat)
      requires i <= |bounds| == |tables|
      ensures forall x :: start <= x < Pass(start, i) ==> Covered(x)
      decreases |bounds| - i
    {
      if i < |bounds| {
        PassCovers(Push(start, i), i + 1);
        forall x | start <= x < Push(start, i)
          ensures Covered(x)
        {
          assert bounds[i].Contains(x) || tables[i] <= x < tables[i] + gap;
        }
      }
    }

    /** The start that is proposed is not taken, and everything in front of it is covered. */
    lemma {:induction false} FreeIsFirst(start: nat)
      requires |bounds| == |tables| && gap > 0
      ensures Free(start) <= limit ==> Clear(Free(start))
      ensures forall x :: start <= x < Free(start) ==> Covered(x)
      decreases if start > limit then 0 else limit + 1 - start
    {
      hide Pass, Covered;
      PassCovers(start, 0);
      if start <= limit && Pass(start, 0) != start {
        FreeIsFirst(Pass(start, 0));
      } else if start <= limit {
        FixedIsClear(start, 0);
      }
    }

    /** Neither does an answer move over a sector that nothing covers. */
    lemma {:induction false} SettleCovers(a: nat)
      requires |bounds| == |tables|
      ensures forall x :: a <= x < Settle(a) ==> Covered(x)
      decreases if a > limit then 0 else limit + 1 - a
    {
      hide Pass, Covered;
      PassCovers(a, 0);
      var p := Pass(a, 0);
      if p != a && p <= limit && p < a + unit {
        SettleCovers(p);
      }
    }

    /** Without a move by a whole unit, the start that is reached stays. */
    lemma {:induction false} SettledStays(a: nat)
      requires |bounds| == |tables| && !Jumps(a) && Settle(a) <= limit
      ensures Pass(Settle(a), 0) == Settle(a)
      decreases if a > limit then 0 else limit + 1 - a
    {
      hide Pass;
      var p := Pass(a, 0);
      if p != a && p <= limit {
        SettledStays(p);
      }
    }

    /** What is reached in the end is what some pass makes of a start that is not below the answer. */
    lemma {:induction false} SettledByPass(a: nat) returns (x: nat)
      requires |bounds| == |tables|
      ensures x >= a && Settle(a) == Pass(x, 0)
      decreases if a > limit then 0 else limit + 1 - a
    {
      hide Pass;
      var p := Pass(a, 0);
      x := a;
      if p != a && p <= limit && p < a + unit {
        x := SettledByPass(p);
      }
    }

    lemma {:induction false} SteadyDialogue(low: nat, from: nat, answers: seq<nat>)
      requires |bounds| == |tables| && gap > 0 && Steady(low) && low <= from && Clear(from)
      ensures !EndsInside(from, answers)
      decreases |answers|
    {
      hide Clear, Pass, Settle, Jumps;
      if answers != [] && Answer(from, answers[0]) && answers[0] != from {
        var a := answers[0];
        assert !Strays(a);
        if Jumps(a) {
          SteadyDialogue(low, Settle(a), answers[1..]);
        } else if Settle(a) <= limit {
          SettledStays(a);
          StaysClear(Settle(a));
        }
      }
    }

    lemma {:induction false} StaysClear(s: nat)
      requires |bounds| == |tables| && gap > 0 && Pass(s, 0) == s
      ensures Clear(s)
    {
      FixedIsClear(s, 0);
    }

    /** Whatever the answers are, a start that is accepted is free, if no single answer goes astray. */
    lemma {:induction false} AlwaysFree(start: nat, answers: seq<nat>)
      requires |bounds| == |tables| && gap > 0 && Free(start) <= limit && Steady(Free(start))
      ensures Clear(Free(start)) && !EndsInside(Free(start), answers)
    {
      FixedIsClear(Free(start), 0);
      SteadyDialogue(Free(start), Free(start), answers);
    }

    /** In every layout: some dialogue ends in a place that is taken if and only if a single answer can go astray. */
    lemma {:induction false} OneAnswerDecides(start: nat)
      requires |bounds| == |tables| && gap > 0 && Free(start) <= limit
      ensures Overlaps(Free(start)) <==> !Steady(Free(start))
    {
      hide Free, Clean, Settle, Jumps, Pass;
      var low := Free(start);
      if Steady(low) {
        forall answers: seq<nat>
          ensures !EndsInside(low, answers)
        {
          AlwaysFree(start, answers);
        }
      } else {
        var a :| low <= a <= limit && Aligned(a) && Strays(a);
        var p := Settle(a);
        if a == low {
          StayingDoesNotJump(a);
        }
        assert [a, p][1..] == [p];
        assert Dialogue(p, [p]) == Some(p);
        assert EndsInside(low, [a, p]);
      }
    }

    // Which answers are enough to try?

    /** The first answer of all, or one before which a partition begins or ends, or at a table or right behind it. */
    predicate Edge(low: nat, a: nat)
      requires |bounds| == |tables|
    {
      a < low + unit || exists i :: 0 <= i < |bounds| && Between(i, a)
    }

    predicate Between(i: nat, a: nat)
      requires i < |bounds| == |tables|
    {
      || a - unit < bounds[i].first <= a || a - unit <= bounds[i].last < a
      || tables[i] == a || tables[i] == a - unit
    }

    /**
     * In every layout: some dialogue ends in a place that is taken if and only if an answer at an edge goes astray. No
     * more answers need to be tried than two for each partition, two for each table, and the first.
     */
    lemma {:induction false} EdgesDecide(start: nat)
      requires |bounds| == |tables| && gap > 0 && unit > 0 && Free(start) <= limit
      ensures Overlaps(Free(start))
        <==> exists a :: Free(start) <= a <= limit && Aligned(a) && Edge(Free(start), a) && Strays(a)
    {
      hide Free, Clean, Settle, Jumps, Pass, Strays, Edge;
      OneAnswerDecides(start);
      var low := Free(start);
      if !Steady(low) {
        var a :| low <= a <= limit && Aligned(a) && Strays(a);
        var e := EdgeBelow(low, a);
      }
    }

    /** The last edge up to an answer that goes astray. */
    lemma {:induction false} EdgeBelow(low: nat, a: nat) returns (e: nat)
      requires |bounds| == |tables| && gap > 0 && unit > 0 && low <= a <= limit && Aligned(a) && Strays(a)
      ensures low <= e <= limit && Aligned(e) && Edge(low, e) && Strays(e)
      decreases a
    {
      hide Strays, Between;
      e := a;
      if !Edge(low, a) {
        UnitsApart(0, a);
        StraysBefore(a);
        e := EdgeBelow(low, a - unit);
      }
    }

    /** Where nothing begins or ends, the answer before goes astray as well. */
    lemma {:induction false} StraysBefore(a: nat)
      requires |bounds| == |tables| && gap > 0 && unit > 0 && a >= unit && Strays(a)
      requires forall i :: 0 <= i < |bounds| ==> !Between(i, a)
      ensures Strays(a - unit)
    {
      hide Pass, Clear, Between;
      PassBefore(a, 0);
      ClearDoesNotJump(Pass(a, 0));
    }

    lemma {:induction false} PassBefore(a: nat, i: nat)
      requires i <= |bounds| == |tables| && unit > 0 && a >= unit
      requires forall j :: 0 <= j < |bounds| ==> !Between(j, a)
      ensures if Pass(a, i) == a then Pass(a - unit, i) == a - unit else Pass(a - unit, i) == Pass(a, i)
      decreases |bounds| - i
    {
      if i < |bounds| {
        assert !Between(i, a);
        PassBefore(a, i + 1);
      }
    }

    lemma {:induction false} ClearDoesNotJump(s: nat)
      requires |bounds| == |tables|
      ensures Clear(s) ==> !Jumps(s)
    {
      hide Pass, Clear;
      if Clear(s) {
        ClearStays(s, 0);
        StayingDoesNotJump(s);
      }
    }

    lemma {:induction false} ClearStays(s: nat, i: nat)
      requires i <= |bounds| == |tables| && Clear(s)
      ensures Pass(s, i) == s
      decreases |bounds| - i
    {
      if i < |bounds| {
        ClearStays(s, i + 1);
      }
    }

    lemma {:induction false} StayingDoesNotJump(a: nat)
      requires |bounds| == |tables| && Pass(a, 0) == a
      ensures !Jumps(a)
    {
      hide Pass;
    }

    // Where can a dialogue end?

    /** The proposed start itself, or what becomes of a single answer behind it. */
    predicate Reachable(low: nat, s: nat)
      requires |bounds| == |tables|
    {
      s == low || exists a :: low < a <= limit && Moves(a, s)
    }

    predicate Moves(a: nat, s: nat)
      requires |bounds| == |tables|
    {
      Aligned(a) && Settle(a) == s
    }

    ghost predicate SomeEndAt(low: nat, s: nat)
      requires |bounds| == |tables|
    {
      exists answers: seq<nat> :: Dialogue(low, answers) == Some(s)
    }

    /** Some answers lead to a place within the limit if and only if one answer does, or none is needed. */
    lemma {:induction false} EndsExactly(low: nat, s: nat)
      requires |bounds| == |tables| && low <= limit && s <= limit
      ensures SomeEndAt(low, s) <==> Reachable(low, s)
    {
      hide Settle, Jumps;
      if Reachable(low, s) {
        if s == low {
          assert Dialogue(low, [low]) == Some(s);
        } else {
          var a :| low < a <= limit && Moves(a, s);
          assert [a, s][1..] == [s];
          assert Dialogue(s, [s]) == Some(s);
          assert Dialogue(low, if Jumps(a) then [a, s] else [a]) == Some(s);
        }
      }
      if SomeEndAt(low, s) {
        var answers: seq<nat> :| Dialogue(low, answers) == Some(s);
        EndReachable(low, answers, s);
      }
    }

    lemma {:induction false} EndReachable(low: nat, answers: seq<nat>, s: nat)
      requires |bounds| == |tables| && Dialogue(low, answers) == Some(s)
      ensures Reachable(low, s) && low <= s
      decreases |answers|
    {
      hide Settle, Jumps;
      var a := answers[0];
      if a != low {
        assert Moves(a, Settle(a));
        if Jumps(a) {
          EndReachable(Settle(a), answers[1..], s);
        }
      }
    }

    /** What the answers make of the start; when there is no free one within the limit, nobody is asked. */
    predicate Leads(from: nat, answers: seq<nat>, s: nat)
      requires |bounds| == |tables|
    {
      if Free(from) > limit then s > limit else Dialogue(Free(from), answers) == Some(s)
    }

    lemma {:induction false} LeadsBehind(from: nat, answers: seq<nat>, s: nat)
      requires |bounds| == |tables| && Leads(from, answers, s) && s <= limit
      ensures from <= Free(from) <= s && Reachable(Free(from), s)
    {
      EndReachable(Free(from), answers, s);
    }

    // The table in front of a logical partition.

    /** Where it goes in an extended partition: a gap in front of the start, but never to the very first sector. */
    function TableFor(base: nat, s: nat): nat
      requires s >= gap
    {
      if s - gap == base then base + 1 else s - gap
    }

    /** Where the partition goes: it moves along with its table if there is no room between them. */
    function StartFor(base: nat, s: nat): nat {
      if gap == 1 && s == base + 1 then s + 1 else s
    }

    /** It moves only from the proposed start, and only if that one is right behind the first sector and free. */
    lemma {:induction false} MovedAlong(base: nat, answers: seq<nat>, s: nat)
      requires |bounds| == |tables| && Leads(base + gap, answers, s)
      ensures StartFor(base, s) != s && StartFor(base, s) <= limit ==>
        gap == 1 && s == base + 1 == Free(s) && StartFor(base, s) == s + 1
    {
      hide Leads, Free, Reachable;
      if StartFor(base, s) != s && StartFor(base, s) <= limit {
        LeadsBehind(base + gap, answers, s);
      }
    }

    /** The sector for the table is in use for the table of another logical partition. */
    predicate TableTaken(base: nat, s: nat)
      requires |bounds| == |tables| && s >= gap
    {
      exists j :: 4 <= j < |tables| && tables[j] == TableFor(base, s)
    }

    /** Some answers lead to a start whose table sector is in use. */
    ghost predicate SomeTableTaken(base: nat, low: nat)
      requires |bounds| == |tables|
    {
      exists answers: seq<nat> :: EndsOnTable(base, low, answers)
    }

    predicate EndsOnTable(base: nat, low: nat, answers: seq<nat>)
      requires |bounds| == |tables|
    {
      var r := Dialogue(low, answers); r.Some? && gap <= r.value <= limit && TableTaken(base, r.value)
    }

    /** The start a gap behind a table that is not the first one can be reached. */
    predicate Doubled(base: nat, low: nat, j: nat)
      requires j < |bounds| == |tables|
    {
      tables[j] != base && tables[j] + gap <= limit && Reachable(low, tables[j] + gap)
    }

    /** The first start proposed is the very first one, and the sector that its table is corrected to is in use. */
    predicate DoubledFirst(base: nat, low: nat)
      requires |bounds| == |tables|
    {
      low == base + gap && exists j :: 4 <= j < |tables| && tables[j] == base + 1
    }

    /** Exactly when some answers put the table of a new logical partition onto that of another one. */
    lemma {:induction false} TableTakenExactly(base: nat, low: nat)
      requires |bounds| == |tables| && base + gap <= low <= limit
      ensures SomeTableTaken(base, low) <==>
        (exists j :: 4 <= j < |tables| && Doubled(base, low, j)) || DoubledFirst(base, low)
    {
      hide Reachable, Dialogue;
      if SomeTableTaken(base, low) {
        var answers: seq<nat> :| EndsOnTable(base, low, answers);
        var s := Dialogue(low, answers).value;
        EndReachable(low, answers, s);
        var j :| 4 <= j < |tables| && tables[j] == TableFor(base, s);
        assert s != base + gap ==> Doubled(base, low, j);
      }
      if exists j :: 4 <= j < |tables| && Doubled(base, low, j) {
        var j :| 4 <= j < |tables| && Doubled(base, low, j);
        TableReached(base, low, tables[j] + gap);
      }
      if DoubledFirst(base, low) {
        ProposalReachable(low);
        TableReached(base, low, low);
      }
    }

    lemma {:induction false} TableReached(base: nat, low: nat, s: nat)
      requires |bounds| == |tables| && low <= limit && gap <= s <= limit && Reachable(low, s) && TableTaken(base, s)
      ensures SomeTableTaken(base, low)
    {
      hide Reachable, Dialogue, TableTaken;
      EndsExactly(low, s);
      var answers: seq<nat> :| Dialogue(low, answers) == Some(s);
      assert EndsOnTable(base, low, answers);
    }

    lemma ProposalReachable(low: nat)
      requires |bounds| == |tables|
      ensures Reachable(low, low)
    {}

    // A primary partition.

    /** Logical partitions and their tables lie inside of a primary one. */
    predicate Nested() {
      Fits() && (|bounds| > 4 ==> exists e :: 0 <= e < 4 && Encloses(e))
    }

    predicate Encloses(e: nat)
      requires |bounds| == |tables| && e < |bounds|
    {
      forall j :: 4 <= j < |bounds| ==>
        && bounds[e].Contains(tables[j])
        && (bounds[j].Live() ==> bounds[e].first <= bounds[j].first && bounds[j].last <= bounds[e].last)
    }

    /** A layout as it should be: no two primary partitions overlap. */
    predicate Sound() {
      Nested() && forall i, j :: 0 <= i < j < 4 ==> Disjoint(bounds[i], bounds[j])
    }

    /** Partition i ends, in reach, right before one that comes earlier in the table. */
    predicate BeforeEarlier(low: nat, k: nat, i: nat)
      requires k < |bounds| && i < |bounds|
    {
      && bounds[k].Live() && bounds[i].Live() && bounds[k].first == bounds[i].last + 1
      && low + unit <= bounds[k].first <= limit
    }

    /**
     * A partition ends right before one that comes earlier, and if that one is the extended partition, then
     * neither the tables nor the partitions inside of it lead out of it to a place that is free.
     */
    predicate Inverted(low: nat)
      requires |bounds| == |tables| >= 4
    {
      exists k, i :: 0 <= k < i < 4 && BeforeEarlier(low, k, i) && Trapped(k)
    }

    predicate Trapped(k: nat)
      requires k < |bounds| == |tables| && |bounds| >= 4
    {
      |bounds| > 4 && Encloses(k) ==> Pass(bounds[k].first, 4) <= limit && !Clear(Pass(bounds[k].first, 4))
    }

    /** Outside of the primary partitions there is nothing to push a start. */
    lemma {:induction false} PassLogicals(start: nat, i: nat)
      requires Nested() && 0 < start && 4 <= i <= |bounds|
      requires |bounds| > 4 ==> exists e :: 0 <= e < 4 && Encloses(e) && !bounds[e].Contains(start)
      ensures Pass(start, i) == start
      ensures forall j :: 4 <= j < |bounds| ==> !bounds[j].Contains(start) && tables[j] != start
      decreases |bounds| - i
    {
      if |bounds| > 4 {
        var e :| 0 <= e < 4 && Encloses(e) && !bounds[e].Contains(start);
        assert forall j :: 4 <= j < |bounds| ==> bounds[e].Contains(tables[j]);
      }
      if i < |bounds| {
        PassLogicals(start, i + 1);
      }
    }

    /** A start outside of the primary partitions is free. */
    lemma {:induction false} FreeOfPrimaries(start: nat)
      requires Nested() && 0 < start && forall k :: 0 <= k < 4 ==> !bounds[k].Contains(start)
      ensures Pass(start, 4) == start && Clear(start)
    {
      PassLogicals(start, 4);
    }

    /** The start of a partition, right behind a later one below the n-th. */
    predicate Met(low: nat, s: nat, n: nat)
      requires n <= |bounds|
    {
      exists k, i :: 0 <= k < i < n && BeforeEarlier(low, k, i) && s == bounds[k].first
    }

    /** A pass that goes astray has met an inverted pair. */
    lemma {:induction false} PassPrimaries(low: nat, a: nat, s: nat, i: nat)
      requires Sound() && 0 < low <= a <= s && Aligned(a) && i <= 4 && Pass(s, i) <= limit && !Clear(Pass(s, i))
      requires (forall k :: 0 <= k < i ==> !bounds[k].Contains(s)) || Met(low, s, i)
      ensures Inverted(low)
      decreases 4 - i
    {
      hide Clear;
      if i < 4 {
        var t := Push(s, i);
        assert tables[i] == 0;
        if t != s || !Met(low, s, i) {
          forall k | 0 <= k < i + 1 && bounds[k].Contains(t)
            ensures Met(low, t, i + 1)
          {
            assert Disjoint(bounds[k], bounds[i]);
            UnitsApart(a, bounds[k].first);
            assert BeforeEarlier(low, k, i);
          }
        }
        PassPrimaries(low, a, t, i + 1);
      } else if Met(low, s, 4) {
        var k, j :| 0 <= k < j < 4 && BeforeEarlier(low, k, j) && s == bounds[k].first;
        assert Trapped(k);
      } else {
        FreeOfPrimaries(s);
      }
    }

    /** Two different starts of units are a unit apart. */
    lemma UnitsApart(a: nat, b: nat)
      requires Aligned(a) && Aligned(b)
      ensures a < b ==> a + unit <= b && Aligned(b - unit)
    {
      if a < b {
        MultiplesApart(a, b, unit);
      }
    }

    /** A start in one primary partition only is pushed over that one and no other. */
    lemma {:induction false} PushedOnce(s: nat, i: nat, at: nat)
      requires Fits() && s > 0 && at <= i < 4 && bounds[i].Contains(s)
      requires forall j :: at <= j < i ==> !bounds[j].Contains(s)
      requires forall j :: i < j < 4 ==> !bounds[j].Contains(bounds[i].last + 1)
      ensures Pass(s, at) == Pass(bounds[i].last + 1, 4)
      decreases i - at
    {
      assert tables[at] == 0;
      if at < i {
        PushedOnce(s, i, at + 1);
      } else {
        Unpushed(bounds[i].last + 1, i + 1);
      }
    }

    lemma {:induction false} Unpushed(s: nat, i: nat)
      requires Fits() && s > 0 && i <= 4 && forall j :: i <= j < 4 ==> !bounds[j].Contains(s)
      ensures Pass(s, i) == Pass(s, 4)
      decreases 4 - i
    {
      if i < 4 {
        assert tables[i] == 0;
        Unpushed(s, i + 1);
      }
    }

    /** The last unit of the later partition of an inverted pair goes astray. */
    lemma {:induction false} InvertedStrays(low: nat, k: nat, i: nat)
      requires Sound() && low > 0 && k < i < 4 && BeforeEarlier(low, k, i) && Trapped(k)
      ensures var a := bounds[k].first - unit; Aligned(a) && Strays(a)
    {
      var a, p := bounds[k].first - unit, bounds[k].first;
      assert Disjoint(bounds[k], bounds[i]);
      UnitsApart(bounds[i].first, p);
      forall j | 0 <= j < 4 && j != i
        ensures !bounds[j].Contains(a)
      {
        assert if j < i then Disjoint(bounds[j], bounds[i]) else Disjoint(bounds[i], bounds[j]);
      }
      forall j | 0 <= j < 4 && j != k
        ensures !bounds[j].Contains(p)
      {
        assert if j < k then Disjoint(bounds[j], bounds[k]) else Disjoint(bounds[k], bounds[j]);
      }
      PushedOnce(a, i, 0);
      if |bounds| == 4 || !Encloses(k) {
        PassLogicals(p, 4);
      }
      JumpOnce(a);
    }

    lemma {:induction false} JumpOnce(a: nat)
      requires |bounds| == |tables| && unit > 0 && a + unit <= Pass(a, 0) <= limit
      ensures Jumps(a) && Settle(a) == Pass(a, 0)
    {
      hide Pass;
    }

    /**
     * For a primary partition, with logical ones or without: some dialogue ends in a place that is taken if and
     * only if there is an inverted pair in reach.
     */
    lemma {:induction false} OverlapsExactly(start: nat)
      requires Sound() && start > 0 && Free(start) <= limit
      ensures Overlaps(Free(start)) <==> Inverted(Free(start))
    {
      hide Free, Clear, Trapped, BeforeEarlier, Pass, Settle, Jumps;
      var low := Free(start);
      OneAnswerDecides(start);
      if Inverted(low) {
        var k, i :| 0 <= k < i < 4 && BeforeEarlier(low, k, i) && Trapped(k);
        InvertedStrays(low, k, i);
        Reach(low, k, i);
      } else {
        forall a | low <= a <= limit && Aligned(a)
          ensures !Strays(a)
        {
          if Strays(a) {
            var x := SettledByPass(a);
            PassPrimaries(low, a, x, 0);
          }
        }
      }
    }

    lemma Reach(low: nat, k: nat, i: nat)
      requires k < |bounds| && i < |bounds| && BeforeEarlier(low, k, i)
      ensures low <= bounds[k].first - unit <= limit
    {}

    /** The primary partitions are in the order of the disk. */
    predicate InOrder()
      requires |bounds| >= 4
    {
      forall k, i :: 0 <= k < i < 4 && bounds[k].Live() && bounds[i].Live() ==> bounds[k].first <= bounds[i].first
    }

    /** A start that is pushed over a partition in order never comes back into an earlier one, overlaps or not. */
    lemma {:induction false} PassInOrder(s: nat, i: nat)
      requires Nested() && InOrder() && 0 < s && i <= 4 && forall k :: 0 <= k < i ==> !bounds[k].Contains(s)
      ensures Clear(Pass(s, i))
      decreases 4 - i
    {
      if i < 4 {
        assert tables[i] == 0;
        PassInOrder(Push(s, i), i + 1);
      } else {
        FreeOfPrimaries(s);
      }
    }

    /** With the primary partitions in order, no answer goes astray. */
    lemma {:induction false} OrderedSteady(low: nat)
      requires Nested() && InOrder() && 0 < low
      ensures Steady(low)
    {
      hide Clear, Pass, Settle, Jumps;
      forall a | low <= a <= limit && Aligned(a)
        ensures !Strays(a)
      {
        var x := SettledByPass(a);
        PassInOrder(x, 0);
      }
    }

    // Any layout.

    /** No partition and no table pushes a start into one that a pass has behind it, or onto a table. */
    predicate Quiet() {
      && |bounds| == |tables| && gap > 0
      && (forall k, i :: 0 <= k < i < |bounds| ==> Lets(k, i))
      && forall i :: 0 <= i < |bounds| && bounds[i].Live() ==> bounds[i].last + 1 != tables[i]
    }

    predicate Lets(k: nat, i: nat)
      requires k < |bounds| == |tables| && i < |bounds|
    {
      && (bounds[i].Live() ==> !bounds[k].Contains(bounds[i].last + 1) && bounds[i].last + 1 != tables[k])
      && (tables[i] != 0 ==> !bounds[k].Contains(tables[i] + gap) && tables[i] + gap != tables[k])
    }

    lemma {:induction false} QuietPass(s: nat, i: nat)
      requires Quiet() && s > 0 && i <= |bounds| && forall k :: 0 <= k < i ==> !bounds[k].Contains(s) && tables[k] != s
      ensures Clear(Pass(s, i))
      decreases |bounds| - i
    {
      if i < |bounds| {
        var t := Push(s, i);
        forall k | 0 <= k < i
          ensures !bounds[k].Contains(t) && tables[k] != t
        {
          assert Lets(k, i);
        }
        QuietPass(t, i + 1);
      }
    }

    /** In a quiet layout no answer goes astray. */
    lemma {:induction false} QuietSteady(low: nat)
      requires Quiet() && low > 0
      ensures Steady(low)
    {
      hide Clear, Pass, Settle, Jumps;
      forall a | low <= a <= limit && Aligned(a)
        ensures !Strays(a)
      {
        var x := SettledByPass(a);
        QuietPass(x, 0);
      }
    }

    // The end.

    /** The limit for a partition that starts at some sector. */
    function Narrow(start: nat, max: int, i: nat): (r: int)
      requires i <= |bounds| == |tables|
      ensures r <= max
      decreases |bounds| - i
    {
      if i == |bounds| then max
      else
        var m := if start < tables[i] <= max then tables[i] - 1 else max;
        Narrow(start, if start < bounds[i].first <= m then bounds[i].first - 1 else m, i + 1)
    }

    lemma {:induction false} NarrowStops(start: nat, max: int, i: nat)
      requires i <= |bounds| == |tables|
      ensures forall j :: i <= j < |bounds| && start < bounds[j].first ==> Narrow(start, max, i) < bounds[j].first
      ensures forall j :: i <= j < |bounds| && start < tables[j] ==> Narrow(start, max, i) < tables[j]
      decreases |bounds| - i
    {
      if i < |bounds| {
        var m := if start < tables[i] <= max then tables[i] - 1 else max;
        NarrowStops(start, if start < bounds[i].first <= m then bounds[i].first - 1 else m, i + 1);
      }
    }

    /** A start within the limit has room for at least one sector. */
    lemma {:induction false} NarrowAtLeast(start: nat, max: int, i: nat)
      requires i <= |bounds| == |tables|
      ensures start <= max <==> start <= Narrow(start, max, i)
      decreases |bounds| - i
    {
      if i < |bounds| {
        var m := if start < tables[i] <= max then tables[i] - 1 else max;
        NarrowAtLeast(start, if start < bounds[i].first <= m then bounds[i].first - 1 else m, i + 1);
      }
    }

    predicate RightBehind(j: nat, x: int)
      requires j < |bounds| == |tables|
    {
      bounds[j].first == x + 1 || tables[j] == x + 1
    }

    /** The narrowed limit is the last one before the next partition or table: one more is on it. */
    lemma {:induction false} NarrowIsLast(start: nat, max: int, i: nat)
      requires i <= |bounds| == |tables|
      ensures Narrow(start, max, i) == max || exists j :: i <= j < |bounds| && RightBehind(j, Narrow(start, max, i))
      decreases |bounds| - i
    {
      if i < |bounds| {
        var m := if start < tables[i] <= max then tables[i] - 1 else max;
        var n := if start < bounds[i].first <= m then bounds[i].first - 1 else m;
        NarrowIsLast(start, n, i + 1);
        if Narrow(start, max, i) == n != max {
          assert RightBehind(i, n);
        } else if Narrow(start, max, i) != max {
          var j :| i + 1 <= j < |bounds| && RightBehind(j, Narrow(start, n, i + 1));
          assert RightBehind(j, Narrow(start, max, i));
        }
      }
    }

    /** The sectors from start to stop overlap no partition and hold no table. */
    predicate Apart(start: nat, stop: nat)
      requires |bounds| == |tables|
    {
      && (forall i :: 0 <= i < |bounds| ==> Disjoint(Bounds(start, stop), bounds[i]))
      && forall i :: 0 <= i < |tables| ==> !(start <= tables[i] <= stop)
    }

    /** With an end below the narrowed limit, a partition is apart from all others exactly if its first sector is. */
    lemma {:induction false} ClearIsApart(start: nat, stop: nat)
      requires |bounds| == |tables| && start <= stop <= Narrow(start, limit, 0)
      ensures stop <= limit && (Clear(start) <==> Apart(start, stop))
    {
      NarrowStops(start, limit, 0);
      if Apart(start, stop) {
        forall i | 0 <= i < |bounds|
          ensures !bounds[i].Contains(start)
        {
          assert Disjoint(Bounds(start, stop), bounds[i]);
        }
      }
    }

    // One more entry that is not in use.

    /** One more entry that is not defined. */
    function WithBlank(b: Bounds): Layout {
      this.(bounds := bounds + [b], tables := tables + [0])
    }

    lemma {:induction false} BlankPass(b: Bounds, s: nat, i: nat)
      requires i <= |bounds| == |tables| && s > 0 && !b.Live()
      ensures WithBlank(b).Pass(s, i) == Pass(s, i)
      decreases |bounds| - i
    {
      if i < |bounds| {
        BlankPass(b, Push(s, i), i + 1);
      }
    }

    lemma {:induction false} BlankFree(b: Bounds, s: nat)
      requires |bounds| == |tables| && s > 0 && !b.Live()
      ensures WithBlank(b).Free(s) == Free(s)
      decreases if s > limit then 0 else limit + 1 - s
    {
      hide Pass;
      BlankPass(b, s, 0);
      if s <= limit && Pass(s, 0) != s {
        BlankFree(b, Pass(s, 0));
      }
    }

    lemma {:induction false} BlankSettle(b: Bounds, s: nat)
      requires |bounds| == |tables| && s > 0 && !b.Live()
      ensures WithBlank(b).Settle(s) == Settle(s) && (WithBlank(b).Jumps(s) <==> Jumps(s))
      decreases if s > limit then 0 else limit + 1 - s
    {
      hide Pass;
      BlankPass(b, s, 0);
      var p := Pass(s, 0);
      if p != s && p <= limit {
        BlankSettle(b, p);
      }
    }

    lemma BlankClear(b: Bounds, s: nat)
      requires |bounds| == |tables| && s > 0 && !b.Live()
      ensures WithBlank(b).Clear(s) <==> Clear(s)
    {
      var w := WithBlank(b);
      assert forall i :: 0 <= i < |bounds| ==> w.bounds[i] == bounds[i] && w.tables[i] == tables[i];
    }

    lemma BlankApart(b: Bounds, start: nat, stop: nat)
      requires |bounds| == |tables| && start > 0 && !b.Live()
      ensures WithBlank(b).Apart(start, stop) <==> Apart(start, stop)
    {
      var w := WithBlank(b);
      assert forall i :: 0 <= i < |bounds| ==> w.bounds[i] == bounds[i] && w.tables[i] == tables[i];
    }

    lemma {:induction false} BlankDialogue(b: Bounds, low: nat, answers: seq<nat>)
      requires |bounds| == |tables| && low > 0 && !b.Live()
      ensures WithBlank(b).Dialogue(low, answers) == Dialogue(low, answers)
      decreases |answers|
    {
      hide Settle, Jumps;
      if answers != [] && Answer(low, answers[0]) && answers[0] != low {
        BlankSettle(b, answers[0]);
        BlankDialogue(b, Settle(answers[0]), answers[1..]);
      }
    }

    /** It changes nothing. */
    lemma BlankPlaces(b: Bounds, base: nat, s: nat)
      requires s >= gap
      ensures WithBlank(b).TableFor(base, s) == TableFor(base, s) && WithBlank(b).StartFor(base, s) == StartFor(base, s)
    {}

    lemma {:induction false} BlankChanges(b: Bounds, from: nat, answers: seq<nat>, asked: nat, start: nat, stop: nat)
      requires |bounds| == |tables| && from > 0 && start > 0 && !b.Live()
      ensures WithBlank(b).Free(from) == Free(from)
      ensures WithBlank(b).Leads(from, answers, asked) <==> Leads(from, answers, asked)
      ensures WithBlank(b).Steady(Free(from)) <==> Steady(Free(from))
      ensures WithBlank(b).Clear(start) <==> Clear(start)
      ensures WithBlank(b).Apart(start, stop) <==> Apart(start, stop)
    {
      hide Free, Pass, Clear, Apart, Settle, Jumps;
      BlankFree(b, from);
      BlankDialogue(b, Free(from), answers);
      BlankClear(b, start);
      BlankApart(b, start, stop);
      forall a | Free(from) <= a
        ensures WithBlank(b).Strays(a) <==> Strays(a)
      {
        BlankSettle(b, a);
        BlankClear(b, Settle(a));
      }
    }

    /** The arithmetic of add_partition, with signed ends and 32 bits, stays in range. */
    predicate InRange(from: nat)
      requires |bounds| == |tables|
    {
      && from < 0xffff_ffff && limit + unit <= 0xffff_ffff
      && (forall i :: 0 <= i < |tables| ==> tables[i] + gap <= 0xffff_ffff)
      && forall i :: 0 <= i < |bounds| && bounds[i].Live() ==>
          bounds[i].last != 0x7fff_ffff && bounds[i].last < 0xffff_ffff
    }

    // The dialogue, one answer at a time.

    /** A first part of a dialogue that has led to some proposal. */
    ghost predicate Led(low: nat, answers: seq<nat>, proposal: nat)
      requires |bounds| == |tables|
    {
      forall rest: seq<nat> :: Dialogue(low, answers + rest) == Dialogue(proposal, rest)
    }

    lemma LedStart(low: nat)
      requires |bounds| == |tables|
      ensures Led(low, [], low)
    {
      hide Dialogue;
      assert forall rest: seq<nat> :: [] + rest == rest;
    }

    lemma {:induction false} LedMore(low: nat, answers: seq<nat>, proposal: nat, a: nat)
      requires |bounds| == |tables| && Led(low, answers, proposal) && Answer(proposal, a) && a != proposal && Jumps(a)
      ensures Led(low, answers + [a], Settle(a))
    {
      hide Pass, Settle, Jumps, Answer;
      forall rest: seq<nat>
        ensures Dialogue(low, answers + [a] + rest) == Dialogue(Settle(a), rest)
      {
        assert answers + [a] + rest == answers + ([a] + rest);
        assert ([a] + rest)[1..] == rest;
      }
    }

    lemma {:induction false} LedEnd(low: nat, answers: seq<nat>, proposal: nat, a: nat)
      requires |bounds| == |tables| && Led(low, answers, proposal) && Answer(proposal, a)
      requires a == proposal || !Jumps(a)
      ensures Dialogue(low, answers + [a]) == Some(if a == proposal then a else Settle(a))
    {
      hide Pass, Settle, Jumps, Answer;
      assert Dialogue(proposal, [a]) == Some(if a == proposal then a else Settle(a));
    }

    lemma AnswerRange(low: nat, a: nat)
      requires Answer(low, a)
      ensures low <= a <= limit
    {}

    /** One more pass, after an answer. */
    lemma {:induction false} Step(a: nat, start: nat)
      requires |bounds| == |tables| && unit > 0 && Settle(start) == Settle(a) && (Jumps(start) <==> Jumps(a))
      ensures
        var p := Pass(start, 0);
        && (p == start ==> !Jumps(a) && Settle(a) == start)
        && (p > limit ==> !Jumps(a) && Settle(a) == p)
        && (start + unit <= p <= limit ==> Jumps(a) && Settle(a) == p)
        && (start < p <= limit && p < start + unit ==> Settle(p) == Settle(a) && (Jumps(p) <==> Jumps(a)))
    {
      hide Pass;
    }
  }

  lemma MultiplesApart(a: nat, b: nat, d: nat)
    requires d > 0 && a % d == 0 && b % d == 0 && a < b
    ensures a + d <= b && (b - d) % d == 0
  {
    var p, q := a / d, b / d;
    DivIdentity(a, d);
    DivIdentity(b, d);
    MulOrder(p, q, d);
    MulAtLeast(q - p, d);
    assert (q - p) * d == q * d - p * d;
    assert (q - 1) * d == q * d - d;
    DivOf(b - d, q - 1, d, 0);
  }

  /** Two answers lead a logical partition onto the table of another one, although both are in range. */
  lemma OntoTable()
    ensures
      var u := Bounds(UNDEFINED.first, 1);
      var bounds := [u, u, u, u, Bounds(101, 111), Bounds(501, 601), Bounds(400, 499)];
      var lay := Layout(bounds, [0, 0, 0, 0, 100, 500, 399], 1, 1000, 1);
      && lay.Free(101) == 112 && lay.Dialogue(112, [450, 500]) == Some(500)
      && lay.tables[5] == 500 == lay.Narrow(500, 1000, 0)
  {
    var u := Bounds(UNDEFINED.first, 1);
    var bounds := [u, u, u, u, Bounds(101, 111), Bounds(501, 601), Bounds(400, 499)];
    var lay := Layout(bounds, [0, 0, 0, 0, 100, 500, 399], 1, 1000, 1);
    forall s | s in {101, 112, 450, 500}
      ensures lay.Pass(s, 0) == lay.Pass(s, 4)
    {
      assert lay.Pass(s, 0) == lay.Pass(s, 1) == lay.Pass(s, 2) == lay.Pass(s, 3) == lay.Pass(s, 4);
    }
    assert lay.Pass(101, 4) == lay.Pass(112, 5) == lay.Pass(112, 6) == 112;
    assert lay.Pass(112, 4) == lay.Pass(112, 5) == lay.Pass(112, 6) == 112;
    assert lay.Pass(450, 4) == lay.Pass(450, 5) == lay.Pass(450, 6) == 500;
    lay.JumpOnce(450);
    assert [450, 500][1..] == [500] && lay.Dialogue(500, [500]) == Some(500);
    assert lay.Narrow(500, 1000, 0) == lay.Narrow(500, 1000, 2) == lay.Narrow(500, 1000, 4);
    assert lay.Narrow(500, 1000, 4) == lay.Narrow(500, 1000, 5) == lay.Narrow(500, 500, 6) == 500;
  }

  /**
   * With a gap of one sector, the place right behind the first sector of the extended partition is free, but the one
   * that it is corrected to lies inside of a partition.
   */
  lemma MovedInside()
    ensures
      var u := Bounds(UNDEFINED.first, 1);
      var lay := Layout([u, u, u, u, Bounds(102, 203)], [0, 0, 0, 0, 100], 1, 299, 1);
      && lay.Free(101) == 101 && lay.Clear(101) && !lay.Clear(102) && lay.Narrow(102, 299, 0) == 299
  {
    var u := Bounds(UNDEFINED.first, 1);
    var lay := Layout([u, u, u, u, Bounds(102, 203)], [0, 0, 0, 0, 100], 1, 299, 1);
    assert lay.Pass(101, 0) == lay.Pass(101, 1) == lay.Pass(101, 2) == lay.Pass(101, 3) == lay.Pass(101, 4) == 101;
    assert lay.bounds[4].Contains(102);
    assert lay.Narrow(102, 299, 0) == lay.Narrow(102, 299, 2) == lay.Narrow(102, 299, 4) == 299;
  }

  /**
   * The start that is proposed is free and no answer goes astray, but the table in front of it falls onto another one,
   * whose partition begins further behind it than the gap.
   */
  lemma DefaultOnTable()
    ensures
      var u := Bounds(UNDEFINED.first, 1);
      var lay := Layout([u, u, u, u, Bounds(101, 149), Bounds(200, 300)], [0, 0, 0, 0, 100, 150], 1, 1000, 1);
      && lay.Free(101) == 151 && lay.Dialogue(151, [151]) == Some(151)
      && lay.Clear(151) && lay.Steady(151) && lay.TableTaken(100, 151)
  {
    var u := Bounds(UNDEFINED.first, 1);
    var lay := Layout([u, u, u, u, Bounds(101, 149), Bounds(200, 300)], [0, 0, 0, 0, 100, 150], 1, 1000, 1);
    forall s | s in {101, 151}
      ensures lay.Pass(s, 0) == lay.Pass(s, 4)
    {
      assert lay.Pass(s, 0) == lay.Pass(s, 1) == lay.Pass(s, 2) == lay.Pass(s, 3) == lay.Pass(s, 4);
    }
    assert lay.Pass(101, 4) == lay.Pass(150, 5) == 151;
    assert lay.Pass(151, 4) == lay.Pass(151, 5) == 151;
    lay.QuietSteady(151);
    assert lay.tables[5] == lay.TableFor(100, 151);
  }

  /** Two answers place a primary partition into one that begins right behind a later one. */
  lemma BehindLater()
    ensures
      var lay := Layout([Bounds(200, 299), Bounds(100, 199), UNDEFINED, UNDEFINED], [0, 0, 0, 0], 1, 1000, 1);
      && lay.Sound() && lay.Free(1) == 1 && lay.Inverted(1)
      && lay.Dialogue(1, [199, 200]) == Some(200) && lay.bounds[0].Contains(200)
  {
    var lay := Layout([Bounds(200, 299), Bounds(100, 199), UNDEFINED, UNDEFINED], [0, 0, 0, 0], 1, 1000, 1);
    assert lay.Pass(1, 0) == lay.Pass(1, 1) == lay.Pass(1, 2) == lay.Pass(1, 3) == lay.Pass(1, 4) == 1;
    assert lay.Pass(199, 0) == lay.Pass(199, 1) == lay.Pass(200, 2) == lay.Pass(200, 3) == lay.Pass(200, 4) == 200;
    assert lay.BeforeEarlier(1, 0, 1) && lay.Trapped(0);
    lay.JumpOnce(199);
    assert [199, 200][1..] == [200] && lay.Dialogue(200, [200]) == Some(200);
  }

  /** read_int asks until the answer is in range. */
  method ReadInt(low: nat, high: nat) returns (value: nat)
    requires low <= high
    ensures low <= value <= high
  {
    value := *;
    if !(low <= value <= high) {
      value := low;
    }
  }

  /** The inner loop of add_partition. */
  method PassOver(lay: Layout, from: nat) returns (start: nat)
    requires |lay.bounds| == |lay.tables|
    ensures start == lay.Pass(from, 0)
  {
    start := from;
    for i := 0 to |lay.bounds|
      invariant lay.Pass(start, i) == lay.Pass(from, 0)
    {
      if start == lay.tables[i] {
        start := start + lay.gap;
      }
      if start >= lay.bounds[i].first && start <= lay.bounds[i].last {
        start := lay.bounds[i].last + 1;
      }
    }
  }

  /**
   * Ask for a start and never go back behind what is proposed. Cylinders are counted from one; with a unit of one
   * sector, that makes no difference.
   */
  method ReadStart(lay: Layout, saved: nat) returns (start: nat, ghost number: nat)
    requires saved <= lay.limit && lay.unit > 0
    ensures lay.Answer(saved, start)
    ensures saved / lay.unit + 1 <= number <= lay.limit / lay.unit + 1
    ensures start == if (number - 1) * lay.unit < saved then saved else (number - 1) * lay.unit
  {
    UnitsOrdered(saved, lay.limit, lay.unit);
    var c := ReadInt(saved / lay.unit + 1, lay.limit / lay.unit + 1);
    number := c;
    UnitStart(c - 1, lay.limit, lay.unit);
    start := (c - 1) * lay.unit;
    if start < saved {
      start := saved;
    }
  }

  lemma UnitsOrdered(low: nat, high: nat, u: nat)
    requires u > 0 && low <= high
    ensures low / u <= high / u
  {
    DivIdentity(low, u);
    DivIdentity(high, u);
    assert (high / u + 1) * u == high / u * u + u;
    MulOrder(low / u, high / u + 1, u);
  }

  lemma UnitBelow(x: nat, u: nat)
    requires u > 0
    ensures 0 <= x / u * u <= x && (x / u * u) % u == 0
  {
    DivIdentity(x, u);
    DivOf(x / u * u, x / u, u, 0);
  }

  lemma UnitStarts(a: nat, b: nat, u: nat)
    requires u > 0 && a <= b
    ensures a / u * u <= b / u * u
  {
    UnitsOrdered(a, b, u);
    MulOrder(b / u, a / u, u);
  }

  lemma UnitEnd(c: nat, start: nat, u: nat)
    requires u > 0 && c >= start / u + 1
    ensures c * u - 1 >= start
  {
    DivIdentity(start, u);
    assert (start / u + 1) * u == start / u * u + u;
    MulOrder(c, start / u + 1, u);
  }

  lemma UnitStart(c: nat, high: nat, u: nat)
    requires u > 0 && c <= high / u
    ensures 0 <= c * u <= high && (c * u) % u == 0
  {
    DivIdentity(high, u);
    MulOrder(high / u, c, u);
    DivOf(c * u, c, u, 0);
  }

  /** The loop of add_partition that finds a start; there is none if the result exceeds the limit. */
  method FindStart(lay: Layout, from: nat) returns (start: nat, ghost answers: seq<nat>)
    requires |lay.bounds| == |lay.tables| && lay.unit > 0
    ensures start >= from && lay.Leads(from, answers, start)
  {
    hide Layout.Pass, Layout.Dialogue, Layout.Led, Layout.Settle, Layout.Jumps, Layout.Free, Layout.Answer;
    start, answers := from, [];
    var numRead := false;
    ghost var low: nat, proposal: nat, given := lay.Free(from), from, from;
    lay.LedStart(low);
    while true
      invariant start >= from && |lay.bounds| == |lay.tables|
      invariant !numRead ==> lay.Free(start) == low && answers == [] && lay.Led(low, [], low)
      invariant numRead ==> Asked(lay, low, answers, proposal, given) && proposal < start <= lay.limit
      invariant numRead ==> lay.Settle(start) == lay.Settle(given) && (lay.Jumps(start) <==> lay.Jumps(given))
      decreases lay.limit - start
    {
      var temp := start;
      start := PassOver(lay, start);
      if numRead {
        lay.Step(given, temp);
      } else {
        FreeStep(lay, temp);
      }
      if start > lay.limit {
        if numRead {
          lay.LedEnd(low, answers, proposal, given);
          answers := answers + [given];
        }
        break;
      }
      if start >= temp + lay.unit && numRead {
        lay.LedMore(low, answers, proposal, given);
        answers, proposal := answers + [given], start;
        temp := start;
        numRead := false;
      } else if !numRead {
        proposal := start;
      }
      if !numRead && start == temp {
        ghost var number;
        start, number := ReadStart(lay, start);
        given, numRead := start, true;
        lay.AnswerRange(proposal, start);
      }
      if start == temp && numRead {
        lay.LedEnd(low, answers, proposal, given);
        answers := answers + [given];
        break;
      }
    }
  }

  /** The answers so far have led to a proposal, and one more has been given. */
  ghost predicate Asked(lay: Layout, low: nat, answers: seq<nat>, proposal: nat, given: nat)
    requires |lay.bounds| == |lay.tables|
  {
    lay.Led(low, answers, proposal) && lay.Answer(proposal, given) && proposal < given && low <= lay.limit
  }

  lemma {:induction false} FreeStep(lay: Layout, temp: nat)
    requires |lay.bounds| == |lay.tables|
    ensures temp <= lay.limit ==>
      lay.Free(temp) == if lay.Pass(temp, 0) == temp then temp else lay.Free(lay.Pass(temp, 0))
    ensures temp > lay.limit ==> lay.Free(temp) == temp
    ensures lay.Pass(temp, 0) > lay.limit ==> lay.Free(lay.Pass(temp, 0)) == lay.Pass(temp, 0)
  {
    hide Layout.Pass;
  }

}

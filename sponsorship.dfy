/**
 * `applySponsoredBottles`: overlays sponsored bottles onto the dense curve, each on the
 * entry whose cost is nearest to the bottle's price.
 */
module Sponsorship {
  import opened Records

  /** A bottle takes part unless its name is empty or its price is 0 (both falsy in JavaScript). */
  predicate Usable(b: Bottle) {
    b.name != "" && b.price != 0
  }

  /** `Math.abs(c - price)`. */
  function Distance(c: int, price: int): nat {
    if c >= price then c - price else price - c
  }

  /**
   * The `reduce` that picks the closest working cost, tracked by index: a later cost
   * replaces the running best only when strictly nearer, so among equally near costs
   * the earliest wins.
   */
  function NearestIndex(costs: seq<int>, price: int): (k: nat)
    requires |costs| > 0
    ensures k < |costs|
    ensures forall j :: 0 <= j < |costs| ==> Distance(costs[k], price) <= Distance(costs[j], price)
    ensures forall j :: 0 <= j < k ==> Distance(costs[k], price) < Distance(costs[j], price)
  {
    if |costs| == 1 then 0
    else
      var k := NearestIndex(costs[..|costs| - 1], price);
      if Distance(costs[|costs| - 1], price) < Distance(costs[k], price) then |costs| - 1 else k
  }

  /** `findIndex(p => p.cost === cost)`: the first entry with that cost, or -1. */
  function FindIndex(entries: seq<Position>, cost: int): (r: int)
    ensures -1 <= r < |entries|
    ensures r >= 0 ==> entries[r].cost == cost && forall j :: 0 <= j < r ==> entries[j].cost != cost
    ensures r == -1 ==> forall j :: 0 <= j < |entries| ==> entries[j].cost != cost
  {
    if entries == [] then -1
    else if entries[0].cost == cost then 0
    else
      var r := FindIndex(entries[1..], cost);
      if r < 0 then -1 else r + 1
  }

  /**
   * The procedure's working state: the updated entries and the parallel `costs`
   * array, in which a claimed slot holds -1.
   */
  datatype Overlay = Overlay(entries: seq<Position>, costs: seq<int>)

  predicate Aligned(s: Overlay) {
    |s.entries| == |s.costs|
  }

  /** The state before the first bottle: a copy of the entries and their costs. */
  function Start(positions: seq<Position>): (s: Overlay)
    ensures Aligned(s) && s.entries == positions
    ensures forall i :: 0 <= i < |positions| ==> s.costs[i] == positions[i].cost
  {
    Overlay(positions, seq(|positions|, i requires 0 <= i < |positions| => positions[i].cost))
  }

  /** Bottles can be applied: the curve is non-empty, or no bottle is usable (`reduce` on `[]` throws). */
  predicate Applicable(n: nat, bottles: seq<Bottle>) {
    n > 0 || forall b :: b in bottles ==> !Usable(b)
  }

  /** The slot a usable bottle claims: the first entry whose current cost equals the nearest working cost. */
  function Slot(s: Overlay, price: int): int
    requires Aligned(s) && |s.costs| > 0
  {
    FindIndex(s.entries, s.costs[NearestIndex(s.costs, price)])
  }

  /**
   * One bottle. An unusable bottle changes nothing. A usable one changes at most the
   * entry at its slot: that entry keeps its rank and takes the bottle's price and
   * name and the sponsored mark, and its working cost becomes -1. The slot holds a
   * current cost equal to the nearest working cost, and no earlier entry holds that cost.
   */
  function Sponsor(s: Overlay, b: Bottle): (r: Overlay)
    requires Aligned(s) && (Usable(b) ==> |s.costs| > 0)
    ensures Aligned(r) && |r.entries| == |s.entries|
    ensures !Usable(b) ==> r == s
    ensures Usable(b) ==>
      var slot := Slot(s, b.price);
      && (slot < 0 ==> r == s)
      && (slot >= 0 ==>
        && r.entries[slot] == Position(s.entries[slot].position, b.price, b.name, true)
        && r.costs[slot] == -1
        && (forall j :: 0 <= j < |s.entries| ==>
              Distance(s.entries[slot].cost, b.price) <= Distance(s.costs[j], b.price))
        && (forall j :: 0 <= j < slot ==> s.entries[j].cost != s.entries[slot].cost))
    ensures forall j :: 0 <= j < |s.entries| && r.entries[j] != s.entries[j] ==>
      Usable(b) && j == Slot(s, b.price)
    ensures forall j :: 0 <= j < |s.costs| && r.costs[j] != s.costs[j] ==>
      Usable(b) && j == Slot(s, b.price)
  {
    if !Usable(b) then s
    else
      var slot := Slot(s, b.price);
      if slot < 0 then s
      else
        Overlay(s.entries[slot := s.entries[slot].(cost := b.price, name := b.name, sponsored := true)],
                s.costs[slot := -1])
  }

  /** The bottles, in input order, applied to `s`. */
  function SponsorAll(s: Overlay, bottles: seq<Bottle>): (r: Overlay)
    requires Aligned(s) && Applicable(|s.costs|, bottles)
    ensures Aligned(r) && |r.entries| == |s.entries|
  {
    if bottles == [] then s
    else
      assert forall b :: b in bottles[..|bottles| - 1] ==> b in bottles;
      Sponsor(SponsorAll(s, bottles[..|bottles| - 1]), bottles[|bottles| - 1])
  }

  /** The curve `applySponsoredBottles(positions, bottles)` returns. */
  function Sponsored(positions: seq<Position>, bottles: seq<Bottle>): seq<Position>
    requires Applicable(|positions|, bottles)
  {
    SponsorAll(Start(positions), bottles).entries
  }

  // ---------------------------------------------------------------------------
  // The imperative procedure, proved to compute that curve.

  /** `applySponsoredBottles`: works on a copy of the entries and a parallel array of costs. */
  method ApplySponsoredBottles(positions: seq<Position>, sponsoredBottles: seq<Bottle>)
    returns (updatedPositions: seq<Position>)
    requires Applicable(|positions|, sponsoredBottles)
    ensures updatedPositions == Sponsored(positions, sponsoredBottles)
  {
    updatedPositions := positions;
    var costs := seq(|updatedPositions|, i requires 0 <= i < |updatedPositions| => updatedPositions[i].cost);
    for n := 0 to |sponsoredBottles|
      invariant Overlay(updatedPositions, costs) == SponsorAll(Start(positions), sponsoredBottles[..n])
    {
      var bottle := sponsoredBottles[n];
      assert sponsoredBottles[..n + 1][..n] == sponsoredBottles[..n];
      if bottle.name == "" || bottle.price == 0 {
        continue;
      }
      assert bottle in sponsoredBottles;
      var closest := costs[NearestIndex(costs, bottle.price)];
      var index := FindIndex(updatedPositions, closest);
      if index != -1 {
        updatedPositions := updatedPositions[index :=
          updatedPositions[index].(cost := bottle.price, name := bottle.name, sponsored := true)];
        costs := costs[index := -1];
      }
    }
    assert sponsoredBottles[..|sponsoredBottles|] == sponsoredBottles;
  }

  // ---------------------------------------------------------------------------
  // What the overlay promises over a whole list of bottles.

  /**
   * The result has the input's length and ranks; every entry is either the input's
   * entry or a sponsored entry carrying the name and price of some usable bottle.
   */
  lemma {:induction false} SponsorAllShape(s: Overlay, bottles: seq<Bottle>)
    requires Aligned(s) && Applicable(|s.costs|, bottles)
    ensures |SponsorAll(s, bottles).entries| == |s.entries|
    ensures forall k :: 0 <= k < |s.entries| ==>
      var e := SponsorAll(s, bottles).entries[k];
      && e.position == s.entries[k].position
      && (e == s.entries[k] ||
          (e.sponsored && exists b :: b in bottles && Usable(b) && e.name == b.name && e.cost == b.price))
    decreases |bottles|
  {
    if bottles != [] {
      var front := bottles[..|bottles| - 1];
      var last := bottles[|bottles| - 1];
      assert forall b :: b in front ==> b in bottles;
      SponsorAllShape(s, front);
      var mid := SponsorAll(s, front);
      forall k | 0 <= k < |s.entries|
        ensures var e := SponsorAll(s, bottles).entries[k];
          && e.position == s.entries[k].position
          && (e == s.entries[k] ||
              (e.sponsored && exists b :: b in bottles && Usable(b) && e.name == b.name && e.cost == b.price))
      {
        var e := SponsorAll(s, bottles).entries[k];
        if e != mid.entries[k] {
          assert Usable(last) && last in bottles;
        } else if mid.entries[k] != s.entries[k] {
          var b :| b in front && Usable(b) && mid.entries[k].name == b.name && mid.entries[k].cost == b.price;
          assert b in bottles;
        }
      }
    }
  }

  /** `applySponsoredBottles` keeps the length and the rank of every entry. */
  lemma SponsoredShape(positions: seq<Position>, bottles: seq<Bottle>)
    requires Applicable(|positions|, bottles)
    ensures |Sponsored(positions, bottles)| == |positions|
    ensures forall k :: 0 <= k < |positions| ==>
      var e := Sponsored(positions, bottles)[k];
      && e.position == positions[k].position
      && (e == positions[k] ||
          (e.sponsored && exists b :: b in bottles && Usable(b) && e.name == b.name && e.cost == b.price))
  {
    SponsorAllShape(Start(positions), bottles);
  }

  /** Without a usable bottle (in particular with none at all) the result equals the input. */
  lemma {:induction false} NoUsableBottleChangesNothing(s: Overlay, bottles: seq<Bottle>)
    requires Aligned(s)
    requires forall b :: b in bottles ==> !Usable(b)
    ensures SponsorAll(s, bottles) == s
    decreases |bottles|
  {
    if bottles != [] {
      assert forall b :: b in bottles[..|bottles| - 1] ==> b in bottles;
      NoUsableBottleChangesNothing(s, bottles[..|bottles| - 1]);
      assert bottles[|bottles| - 1] in bottles;
    }
  }

  lemma UnusableBottlesAreSkipped(positions: seq<Position>, bottles: seq<Bottle>)
    requires forall b :: b in bottles ==> !Usable(b)
    ensures Sponsored(positions, bottles) == positions
  {
    NoUsableBottleChangesNothing(Start(positions), bottles);
  }

  // ---------------------------------------------------------------------------
  // The behaviour the project's tests describe, and two consequences of the code.

  /** Costs [500, 400, 300] and one bottle at 410: the entry costing 400 is sponsored. */
  lemma PremiumWineExample(positions: seq<Position>, bottles: seq<Bottle>)
    requires positions == [Position(1, 500, "", false), Position(2, 400, "", false), Position(3, 300, "", false)]
    requires bottles == [Bottle("Premium Wine", 410)]
    ensures Sponsored(positions, bottles)
      == [positions[0], Position(2, 410, "Premium Wine", true), positions[2]]
  {
    var s := Start(positions);
    assert s.costs == [500, 400, 300];
    assert NearestIndex(s.costs, 410) == 1 by {
      assert NearestIndex([500, 400], 410) == 1;
    }
    assert Slot(s, 410) == 1;
    assert bottles[..0] == [];
    assert SponsorAll(s, bottles) == Sponsor(s, bottles[0]);
    assert Sponsor(s, bottles[0]).entries == positions[1 := Position(2, 410, "Premium Wine", true)];
  }

  /** A bottle without a name or without a price leaves the curve as it was. */
  lemma SkippedBottlesExample(positions: seq<Position>, bottles: seq<Bottle>)
    requires positions == [Position(1, 500, "", false)]
    requires bottles == [Bottle("", 500), Bottle("Wine", 0)]
    ensures Sponsored(positions, bottles) == positions
    ensures !Sponsored(positions, bottles)[0].sponsored
  {
    UnusableBottlesAreSkipped(positions, bottles);
  }

  /**
   * Two entries costing 480 and two bottles priced 480: the second bottle's nearest
   * working cost is 480 again, and the first entry costing 480 is the one the first
   * bottle already took, so that entry is overwritten and the second is never sponsored.
   */
  lemma SecondBottleOverwritesFirst(positions: seq<Position>, bottles: seq<Bottle>)
    requires positions == [Position(1, 480, "", false), Position(2, 480, "", false)]
    requires bottles == [Bottle("Red", 480), Bottle("White", 480)]
    ensures Sponsored(positions, bottles)
      == [Position(1, 480, "White", true), Position(2, 480, "", false)]
  {
    var s0 := Start(positions);
    assert s0.costs == [480, 480];
    assert NearestIndex(s0.costs, 480) == 0;
    assert Slot(s0, 480) == 0;
    var first := bottles[..1];
    assert first == [bottles[0]] && first[..0] == [];
    assert SponsorAll(s0, first[..0]) == s0;
    var s1 := SponsorAll(s0, first);
    assert s1 == Sponsor(s0, bottles[0]);
    assert s1 == Overlay([Position(1, 480, "Red", true), Position(2, 480, "", false)], [-1, 480]);
    assert NearestIndex(s1.costs, 480) == 1 by {
      assert NearestIndex([-1], 480) == 0;
    }
    assert Slot(s1, 480) == 0;
    assert SponsorAll(s0, bottles) == Sponsor(s1, bottles[1]);
  }

  /**
   * Costs [500, 400, 300], then bottle A at 300 and bottle B at 100. A claims the
   * entry costing 300, whose working cost becomes -1. For B, that -1 (101 away) is
   * nearer than 400, and no entry costs -1, so B takes no entry at all.
   */
  lemma CheapSecondBottleIsDropped(positions: seq<Position>, bottles: seq<Bottle>)
    requires positions == [Position(1, 500, "", false), Position(2, 400, "", false), Position(3, 300, "", false)]
    requires bottles == [Bottle("A", 300), Bottle("B", 100)]
    ensures Sponsored(positions, bottles)
      == [positions[0], positions[1], Position(3, 300, "A", true)]
  {
    var s0 := Start(positions);
    assert s0.costs == [500, 400, 300];
    assert NearestIndex(s0.costs, 300) == 2 by {
      assert NearestIndex([500, 400], 300) == 1;
    }
    assert Slot(s0, 300) == 2;
    var first := bottles[..1];
    assert first == [bottles[0]] && first[..0] == [];
    assert SponsorAll(s0, first[..0]) == s0;
    var s1 := SponsorAll(s0, first);
    assert s1 == Sponsor(s0, bottles[0]);
    assert s1 == Overlay([positions[0], positions[1], Position(3, 300, "A", true)], [500, 400, -1]);
    assert NearestIndex(s1.costs, 100) == 2 by {
      assert NearestIndex([500, 400], 100) == 1;
    }
    assert FindIndex(s1.entries, -1) == -1;
    assert Slot(s1, 100) == -1;
    assert SponsorAll(s0, bottles) == Sponsor(s1, bottles[1]);
  }

  /** A negative price is not falsy, so such a bottle is applied like any other. */
  lemma NegativePriceIsApplied(positions: seq<Position>, bottles: seq<Bottle>)
    requires positions == [Position(1, 500, "", false), Position(2, 10, "", false)]
    requires bottles == [Bottle("Voucher", -5)]
    ensures Sponsored(positions, bottles)[1] == Position(2, -5, "Voucher", true)
  {
    var s := Start(positions);
    assert s.costs == [500, 10];
    assert NearestIndex(s.costs, -5) == 1 by {
      assert NearestIndex([500], -5) == 0;
    }
    assert Slot(s, -5) == 1;
    assert bottles[..0] == [];
    assert SponsorAll(s, bottles) == Sponsor(s, bottles[0]);
  }
}

/** `calculateTotalCost` and `calculateAmount`: the summary figures of a curve. */
module Aggregates {
  import opened Records
  import opened Sponsorship

  /** `positions.reduce((sum, p) => sum + p.cost, 0)`: folds from the left, starting at 0. */
  function TotalCost(positions: seq<Position>): int
  {
    if positions == [] then 0
    else TotalCost(positions[..|positions| - 1]) + positions[|positions| - 1].cost
  }

  /** The stakes collected one participant at a time. */
  function Stakes(stake: int, persons: nat): int
  {
    if persons == 0 then 0 else Stakes(stake, persons - 1) + stake
  }

  lemma {:induction false} StakesIsProduct(stake: int, persons: int)
    ensures persons >= 0 ==> Stakes(stake, persons) == stake * persons
    decreases if persons >= 0 then persons else 0
  {
    if persons > 0 {
      StakesIsProduct(stake, persons - 1);
    }
  }

  /**
   * `calculateAmount`: the income, one stake from each participant plus the
   * sponsorship amount.
   */
  function CalculateAmount(stake: int, persons: int, sponsorship: int): (amount: int)
    ensures persons >= 0 ==> amount == Stakes(stake, persons) + sponsorship
  {
    StakesIsProduct(stake, persons);
    stake * persons + sponsorship
  }

  /** The total of two curves laid end to end is the sum of their totals. */
  lemma {:induction false} TotalCostAppend(a: seq<Position>, b: seq<Position>)
    ensures TotalCost(a + b) == TotalCost(a) + TotalCost(b)
    decreases |b|
  {
    if b != [] {
      assert (a + b)[..|a + b| - 1] == a + b[..|b| - 1];
      TotalCostAppend(a, b[..|b| - 1]);
    } else {
      assert a + b == a;
    }
  }

  /** The total is the sum over the entries taken from the front as well. */
  lemma TotalCostFromFront(positions: seq<Position>)
    requires positions != []
    ensures TotalCost(positions) == positions[0].cost + TotalCost(positions[1..])
  {
    assert positions == [positions[0]] + positions[1..];
    TotalCostAppend([positions[0]], positions[1..]);
    assert [positions[0]][..0] == [];
  }

  /** Replacing one entry changes the total by the difference of the two costs. */
  lemma {:induction false} TotalCostUpdate(positions: seq<Position>, k: nat, e: Position)
    requires k < |positions|
    ensures TotalCost(positions[k := e]) == TotalCost(positions) - positions[k].cost + e.cost
    decreases |positions|
  {
    var n := |positions|;
    var updated := positions[k := e];
    assert updated[..n - 1] == if k < n - 1 then positions[..n - 1][k := e] else positions[..n - 1];
    if k < n - 1 {
      TotalCostUpdate(positions[..n - 1], k, e);
    }
  }

  /** If every cost lies in [lo, hi], the total lies in [n * lo, n * hi]. */
  lemma {:induction false} TotalCostBounds(positions: seq<Position>, lo: int, hi: int)
    requires forall k :: 0 <= k < |positions| ==> lo <= positions[k].cost <= hi
    ensures |positions| * lo <= TotalCost(positions) <= |positions| * hi
    decreases |positions|
  {
    if positions != [] {
      var n := |positions|;
      TotalCostBounds(positions[..n - 1], lo, hi);
      assert n * lo == (n - 1) * lo + lo;
      assert n * hi == (n - 1) * hi + hi;
    }
  }

  /**
   * A bottle moves the total by its price minus the cost of the entry it takes,
   * and leaves it alone when it takes no entry.
   */
  lemma SponsorTotalCost(s: Overlay, b: Bottle)
    requires Aligned(s) && (Usable(b) ==> |s.costs| > 0)
    ensures TotalCost(Sponsor(s, b).entries) ==
      if Usable(b) && Slot(s, b.price) >= 0
      then TotalCost(s.entries) - s.entries[Slot(s, b.price)].cost + b.price
      else TotalCost(s.entries)
  {
    if Usable(b) && Slot(s, b.price) >= 0 {
      var slot := Slot(s, b.price);
      TotalCostUpdate(s.entries, slot, s.entries[slot].(cost := b.price, name := b.name, sponsored := true));
    }
  }

  lemma TotalCostExample(positions: seq<Position>)
    requires |positions| == 3
    requires positions[0].cost == 100 && positions[1].cost == 200 && positions[2].cost == 300
    ensures TotalCost(positions) == 600
    ensures TotalCost([]) == 0
  {
    TotalCostFromFront(positions);
    TotalCostFromFront(positions[1..]);
    TotalCostFromFront(positions[1..][1..]);
    assert positions[1..][1..][1..] == [];
  }

  /** Each additional person adds one stake to the income. */
  lemma AmountPerPerson(stake: int, persons: int, sponsorship: int)
    ensures CalculateAmount(stake, persons + 1, sponsorship) == CalculateAmount(stake, persons, sponsorship) + stake
    ensures CalculateAmount(stake, 0, sponsorship) == sponsorship
  {
  }

  lemma AmountExample()
    ensures CalculateAmount(100, 29, 3000) == 5900
  {
  }
}

/**
 * `redistributeValues`: spreads the anchors after rank 1 evenly between anchor 1's
 * value and the `last` value.
 */
module Redistribution {
  import opened Rounding
  import opened Records
  import opened ControlPointSelector
  import opened Interpolation

  /** The rounded value a fraction `ratio` of the way from `cheapest` to `mostExpensive`. */
  function Target(cheapest: real, mostExpensive: real, ratio: real): int
  {
    Round(Along(cheapest, mostExpensive, ratio))
  }

  /** The ratio of the active anchor at index i among n: i / n, not i / (n - 1). */
  function Ratio(i: int, n: int): real
    requires 0 < n
  {
    i as real / n as real
  }

  /**
   * Anchor 1 has a value whenever there is anything to redistribute; the JavaScript
   * would otherwise compute with `undefined`.
   */
  predicate CanRedistribute(v: Values, persons: int) {
    |SliderPositions(persons)| > 1 ==> 1 in v.anchors
  }

  /** The map `redistributeValues(values, persons)` returns. */
  function Redistributed(v: Values, persons: int): Values
    requires CanRedistribute(v, persons)
  {
    var sliders := SliderPositions(persons);
    if |sliders| > 1 then
      Values(v.anchors + Spread(sliders, v.anchors[1], v.last, |sliders|), v.last)
    else v
  }

  /** The new values of the active anchors after the first, keyed by rank. */
  function Spread(sliders: seq<int>, cheapest: real, mostExpensive: real, upTo: int): (m: map<int, real>)
    requires Increasing(sliders) && 0 < upTo <= |sliders|
    ensures m.Keys == set i | 1 <= i < upTo :: sliders[i]
    ensures forall i :: 1 <= i < upTo ==> m[sliders[i]] == Target(cheapest, mostExpensive, Ratio(i, |sliders|)) as real
  {
    map i | 1 <= i < upTo :: sliders[i] := Target(cheapest, mostExpensive, Ratio(i, |sliders|)) as real
  }

  /** `redistributeValues`: writes each active anchor after the first into a copy of the map. */
  method RedistributeValues(values: Values, persons: int) returns (newValues: Values)
    requires CanRedistribute(values, persons)
    ensures newValues == Redistributed(values, persons)
  {
    var controlPoints := SliderPositions(persons);
    newValues := values;
    if |controlPoints| > 1 {
      // `values[1]` is read only here, where it is known to be present.
      var cheapest := values.anchors[1];
      var mostExpensive := values.last;
      var n := |controlPoints|;
      var anchors := values.anchors;
      for i := 1 to n
        invariant anchors == values.anchors + Spread(controlPoints, cheapest, mostExpensive, i)
      {
        var pos := controlPoints[i];
        var ratio := Ratio(i, n);
        var value := Target(cheapest, mostExpensive, ratio);
        SpreadStep(controlPoints, cheapest, mostExpensive, i);
        UpdateUnion(values.anchors, Spread(controlPoints, cheapest, mostExpensive, i), pos, value as real);
        anchors := anchors[pos := value as real];
      }
      newValues := Values(anchors, values.last);
    }
  }

  /** Extending the spread by one index writes exactly that anchor. */
  lemma SpreadStep(sliders: seq<int>, cheapest: real, mostExpensive: real, i: int)
    requires Increasing(sliders) && 0 < i < |sliders|
    ensures Spread(sliders, cheapest, mostExpensive, i + 1)
      == Spread(sliders, cheapest, mostExpensive, i)[sliders[i] := Target(cheapest, mostExpensive, Ratio(i, |sliders|)) as real]
  {
  }

  lemma UpdateUnion(a: map<int, real>, b: map<int, real>, k: int, x: real)
    ensures (a + b)[k := x] == a + b[k := x]
  {
  }

  // ---------------------------------------------------------------------------
  // What the redistributed values promise.

  /**
   * `last`, anchor 1 and every key other than the active anchors after the first keep
   * their values, and no other key appears; with n >= 2 active anchors, the one at
   * index i >= 1 gets `Target(values[1], last, Ratio(i, n))`; with fewer the copy
   * equals the input.
   */
  lemma RedistributedValues(v: Values, persons: int)
    requires CanRedistribute(v, persons)
    ensures Redistributed(v, persons).last == v.last
    ensures forall k :: k in v.anchors ==> k in Redistributed(v, persons).anchors
    ensures forall k :: k in Redistributed(v, persons).anchors ==> k in v.anchors || k in SliderPositions(persons)
    ensures forall k :: k in v.anchors && (k !in SliderPositions(persons) || k == 1) ==>
      Redistributed(v, persons).anchors[k] == v.anchors[k]
    ensures |SliderPositions(persons)| <= 1 ==> Redistributed(v, persons) == v
    ensures forall i :: 1 <= i < |SliderPositions(persons)| ==>
      SliderPositions(persons)[i] in Redistributed(v, persons).anchors &&
      Redistributed(v, persons).anchors[SliderPositions(persons)[i]]
        == Target(v.anchors[1], v.last, Ratio(i, |SliderPositions(persons)|)) as real
  {
    var sliders := SliderPositions(persons);
    FirstSliderPosition(persons);
    if |sliders| > 1 {
      var spread := Spread(sliders, v.anchors[1], v.last, |sliders|);
      assert 1 !in spread;
      forall k | k in spread ensures k in sliders {
        var i :| 1 <= i < |sliders| && sliders[i] == k;
      }
    }
  }

  /** Each redistributed value lies between the rounded values of anchor 1 and `last`. */
  lemma TargetBetween(cheapest: real, mostExpensive: real, i: int, n: int)
    requires 0 <= i <= n && 0 < n
    ensures cheapest <= mostExpensive ==>
      Round(cheapest) <= Target(cheapest, mostExpensive, Ratio(i, n)) <= Round(mostExpensive)
    ensures mostExpensive <= cheapest ==>
      Round(mostExpensive) <= Target(cheapest, mostExpensive, Ratio(i, n)) <= Round(cheapest)
  {
    UnitFraction(i as real, n as real);
    RoundBetweenEnds(cheapest, mostExpensive, Ratio(i, n));
  }

  /** The redistributed values run monotonically from anchor 1's value towards `last`. */
  lemma TargetMonotone(cheapest: real, mostExpensive: real, i: int, j: int, n: int)
    requires 0 <= i <= j && 0 < n
    ensures cheapest <= mostExpensive ==>
      Target(cheapest, mostExpensive, Ratio(i, n)) <= Target(cheapest, mostExpensive, Ratio(j, n))
    ensures mostExpensive <= cheapest ==>
      Target(cheapest, mostExpensive, Ratio(j, n)) <= Target(cheapest, mostExpensive, Ratio(i, n))
  {
    RatioMonotone(i, j, n);
    AlongMonotone(cheapest, mostExpensive, Ratio(i, n), Ratio(j, n));
    if cheapest <= mostExpensive {
      RoundMonotone(Along(cheapest, mostExpensive, Ratio(i, n)), Along(cheapest, mostExpensive, Ratio(j, n)));
    } else {
      RoundMonotone(Along(cheapest, mostExpensive, Ratio(j, n)), Along(cheapest, mostExpensive, Ratio(i, n)));
    }
  }

  lemma RatioMonotone(i: int, j: int, n: int)
    requires i <= j && 0 < n
    ensures Ratio(i, n) <= Ratio(j, n)
  {
    var ti, tj := Ratio(i, n), Ratio(j, n);
    assert ti * n as real == i as real && tj * n as real == j as real;
    if ti > tj { MulNonNegative(ti - tj, n as real); }
  }

  /**
   * After redistribution every anchor the curve reads has a value, provided anchor 1
   * had one (or there are no anchors at all).
   */
  lemma RedistributedFeedsCurve(v: Values, persons: int)
    requires |SliderPositions(persons)| == 0 || 1 in v.anchors
    ensures CanRedistribute(v, persons)
    ensures HasAnchorValues(Redistributed(v, persons), persons)
  {
    var sliders := SliderPositions(persons);
    var r := Redistributed(v, persons);
    FirstSliderPosition(persons);
    forall k | k in sliders ensures k in r.anchors {
      var i :| 0 <= i < |sliders| && sliders[i] == k;
      if i == 0 {
        assert k == 1;
      }
    }
  }

  /**
   * Anchors {1: 500, 2: 400, 3: 300, 5: 200, last: 100} for 29 persons: anchor 1 and
   * `last` stay, anchor 2 becomes round(500 - 400/6) = 433, and anchors 10 and 20 are added.
   */
  lemma RedistributeExample(v: Values)
    requires v == Values(map[1 := 500.0, 2 := 400.0, 3 := 300.0, 5 := 200.0], 100.0)
    ensures CanRedistribute(v, 29)
    ensures Redistributed(v, 29).anchors[1] == 500.0
    ensures Redistributed(v, 29).last == 100.0
    ensures Redistributed(v, 29).anchors[2] == 433.0
    ensures 100.0 < Redistributed(v, 29).anchors[2] < 500.0
    ensures 10 in Redistributed(v, 29).anchors && 20 in Redistributed(v, 29).anchors
  {
    AllAnchorsActive(29);
    assert 1 in v.anchors && v.anchors[1] == 500.0;
    RedistributedValues(v, 29);
    var sliders := SliderPositions(29);
    assert sliders[1] == 2 && sliders[4] == 10 && sliders[5] == 20;
    TargetOneSixth();
  }

  /** A sixth of the way from 500 down to 100, rounded: 433. */
  lemma TargetOneSixth()
    ensures Target(500.0, 100.0, Ratio(1, 6)) == 433
  {
    assert Ratio(1, 6) == 1.0 / 6.0;
    assert Along(500.0, 100.0, 1.0 / 6.0) == 1300.0 / 3.0;
    RoundUnique(1300.0 / 3.0, 433);
  }

  /**
   * The ratio (n - 1) / n stays below 1, yet after rounding the last active anchor
   * can still take `last`'s rounded value: from 100 to 101 with 6 active anchors.
   */
  lemma RoundedTargetCanReachLast()
    ensures Ratio(5, 6) < 1.0
    ensures Target(100.0, 101.0, Ratio(5, 6)) == Round(101.0) == 101
  {
    assert Ratio(5, 6) == 5.0 / 6.0;
    assert Along(100.0, 101.0, 5.0 / 6.0) == 605.0 / 6.0;
    RoundUnique(605.0 / 6.0, 101);
    RoundIntegral(101);
  }
}

/**
 * `calculatePositions`: expands the sparse anchor values into one entry per rank,
 * interpolating linearly between consecutive control points.
 */
module Interpolation {
  import opened Rounding
  import opened Records
  import opened ControlPointSelector

  /**
   * Every anchor below `persons` has a value. Without one the JavaScript reads
   * `undefined` and produces NaN costs, which this model does not represent.
   */
  predicate HasAnchorValues(v: Values, persons: int) {
    forall k :: k in SliderPositions(persons) ==> k in v.anchors
  }

  /** Every control point in `cps` can be read: it is the final rank or has an anchor entry. */
  predicate Readable(v: Values, persons: int, cps: seq<int>) {
    forall k :: k in cps ==> k == persons || k in v.anchors
  }

  /** The value a control point reads: `last` for the final rank, its own entry otherwise. */
  function ValueAt(v: Values, persons: int, k: int): real
    requires k == persons || k in v.anchors
  {
    if k == persons then v.last else v.anchors[k]
  }

  /** The straight line through (cur, cv) and (nxt, nv), evaluated at rank `pos`. */
  function Lerp(cur: int, nxt: int, cv: real, nv: real, pos: int): real
    requires cur < nxt
  {
    Along(cv, nv, (pos - cur) as real / (nxt - cur) as real)
  }

  /** The entries for the ranks strictly between two consecutive control points. */
  function Between(cur: int, nxt: int, cv: real, nv: real): (r: seq<Position>)
    requires cur < nxt
    ensures |r| == nxt - cur - 1
  {
    seq(nxt - cur - 1, j requires 0 <= j < nxt - cur - 1 =>
      Position(cur + 1 + j, Round(Lerp(cur, nxt, cv, nv, cur + 1 + j)), "", false))
  }

  /**
   * The entries emitted from control point `cps[i]` on: the control point's own
   * rounded value, then the interpolated ranks up to the next control point, and so on.
   */
  function Walk(v: Values, persons: int, cps: seq<int>, i: nat): seq<Position>
    requires i <= |cps| && Increasing(cps) && Readable(v, persons, cps)
    decreases |cps| - i
  {
    if i == |cps| then []
    else
      var cur := cps[i];
      var head := Position(cur, Round(ValueAt(v, persons, cur)), "", false);
      if i + 1 == |cps| then [head]
      else
        var nxt := cps[i + 1];
        [head] + Between(cur, nxt, ValueAt(v, persons, cur), ValueAt(v, persons, nxt))
          + Walk(v, persons, cps, i + 1)
  }

  lemma ControlPointsReadable(v: Values, persons: int)
    requires HasAnchorValues(v, persons)
    ensures Readable(v, persons, ControlPoints(persons))
  {
    var cps := ControlPoints(persons);
    forall k | k in cps ensures k == persons || k in v.anchors {
      var i :| 0 <= i < |cps| && cps[i] == k;
      if i < |cps| - 1 {
        assert k in SliderPositions(persons);
      }
    }
  }

  /** The dense curve `calculatePositions(persons, v)` returns. */
  function Curve(persons: int, v: Values): seq<Position>
    requires HasAnchorValues(v, persons)
  {
    ControlPointsReadable(v, persons);
    Walk(v, persons, ControlPoints(persons), 0)
  }

  lemma BetweenAt(cur: int, nxt: int, cv: real, nv: real, pos: int)
    requires cur < pos < nxt
    ensures Between(cur, nxt, cv, nv)[pos - cur - 1] == Position(pos, Round(Lerp(cur, nxt, cv, nv, pos)), "", false)
  {
  }

  // ---------------------------------------------------------------------------
  // The walk from control point i covers ranks cps[i] .. last, in order.

  lemma {:induction false} WalkShape(v: Values, persons: int, cps: seq<int>, i: nat)
    requires i < |cps| && Increasing(cps) && Readable(v, persons, cps)
    ensures |Walk(v, persons, cps, i)| == cps[|cps| - 1] - cps[i] + 1
    ensures forall k :: 0 <= k < |Walk(v, persons, cps, i)| ==>
      Walk(v, persons, cps, i)[k].position == cps[i] + k &&
      Walk(v, persons, cps, i)[k].name == "" && !Walk(v, persons, cps, i)[k].sponsored
    decreases |cps| - i
  {
    if i + 1 < |cps| {
      WalkShape(v, persons, cps, i + 1);
    }
  }

  /** The walk from a control point that is not the last: its head, the ranks up to the next one, then the rest. */
  lemma WalkStep(v: Values, persons: int, cps: seq<int>, i: nat)
    requires i + 1 < |cps| && Increasing(cps) && Readable(v, persons, cps)
    ensures Walk(v, persons, cps, i)
      == [Position(cps[i], Round(ValueAt(v, persons, cps[i])), "", false)]
        + Between(cps[i], cps[i + 1], ValueAt(v, persons, cps[i]), ValueAt(v, persons, cps[i + 1]))
        + Walk(v, persons, cps, i + 1)
  {
  }

  lemma {:induction false} WalkAnchorCost(v: Values, persons: int, cps: seq<int>, i: nat, j: nat)
    requires i <= j < |cps| && Increasing(cps) && Readable(v, persons, cps)
    ensures 0 <= cps[j] - cps[i] < |Walk(v, persons, cps, i)|
    ensures Walk(v, persons, cps, i)[cps[j] - cps[i]].cost == Round(ValueAt(v, persons, cps[j]))
    decreases j - i
  {
    var cur := cps[i];
    var head := Position(cur, Round(ValueAt(v, persons, cur)), "", false);
    if i < j {
      var nxt := cps[i + 1];
      var between := Between(cur, nxt, ValueAt(v, persons, cur), ValueAt(v, persons, nxt));
      WalkStep(v, persons, cps, i);
      WalkAnchorCost(v, persons, cps, i + 1, j);
      assert cps[j] - cur == 1 + |between| + (cps[j] - nxt);
    } else {
      assert Walk(v, persons, cps, i)[0] == head;
    }
  }

  lemma {:induction false} WalkInterpolatedCost(v: Values, persons: int, cps: seq<int>, i: nat, j: nat, pos: int)
    requires i <= j && j + 1 < |cps| && Increasing(cps) && Readable(v, persons, cps)
    requires cps[j] < pos < cps[j + 1]
    ensures 0 <= pos - cps[i] < |Walk(v, persons, cps, i)|
    ensures Walk(v, persons, cps, i)[pos - cps[i]].cost
      == Round(Lerp(cps[j], cps[j + 1], ValueAt(v, persons, cps[j]), ValueAt(v, persons, cps[j + 1]), pos))
    decreases j - i
  {
    var cur, nxt := cps[i], cps[i + 1];
    var cv, nv := ValueAt(v, persons, cur), ValueAt(v, persons, nxt);
    var between := Between(cur, nxt, cv, nv);
    var front := [Position(cur, Round(cv), "", false)] + between;
    var rest := Walk(v, persons, cps, i + 1);
    WalkStep(v, persons, cps, i);
    if i < j {
      WalkInterpolatedCost(v, persons, cps, i + 1, j, pos);
      assert pos - cur == |front| + (pos - nxt);
      assert (front + rest)[pos - cur] == rest[pos - nxt];
    } else {
      BetweenAt(cur, nxt, cv, nv, pos);
      assert (front + rest)[pos - cur] == between[pos - cur - 1];
    }
  }

  /** One turn of the outer loop of `calculatePositions` emits exactly the head of the walk from `cps[i]`. */
  lemma WalkUnfold(v: Values, persons: int, cps: seq<int>, i: nat, done: seq<Position>, positions: seq<Position>)
    requires i < |cps| && Increasing(cps) && Readable(v, persons, cps)
    requires positions == done + [Position(cps[i], Round(ValueAt(v, persons, cps[i])), "", false)]
      + (if i + 1 < |cps|
         then Between(cps[i], cps[i + 1], ValueAt(v, persons, cps[i]), ValueAt(v, persons, cps[i + 1]))
         else [])
    ensures done + Walk(v, persons, cps, i) == positions + Walk(v, persons, cps, i + 1)
  {
  }

  // ---------------------------------------------------------------------------
  // What the curve promises.

  /**
   * One entry per rank: ranks 1..persons in order for persons >= 1 (a single entry
   * for rank `persons` otherwise), every name empty and nothing sponsored.
   */
  lemma CurveShape(persons: int, v: Values)
    requires HasAnchorValues(v, persons)
    ensures |Curve(persons, v)| == if persons >= 1 then persons else 1
    ensures forall k :: 0 <= k < |Curve(persons, v)| ==>
      Curve(persons, v)[k].position == (if persons >= 1 then k + 1 else persons) &&
      Curve(persons, v)[k].name == "" && !Curve(persons, v)[k].sponsored
  {
    ControlPointsReadable(v, persons);
    FirstControlPoint(persons);
    WalkShape(v, persons, ControlPoints(persons), 0);
  }

  /** The entry of an anchor below `persons` costs that anchor's rounded value. */
  lemma CurveAnchorCost(persons: int, v: Values, k: int)
    requires HasAnchorValues(v, persons)
    requires k in SliderPositions(persons)
    ensures 1 <= k <= |Curve(persons, v)|
    ensures Curve(persons, v)[k - 1].cost == Round(v.anchors[k])
  {
    var cps := ControlPoints(persons);
    ControlPointsReadable(v, persons);
    FirstControlPoint(persons);
    var j :| 0 <= j < |cps| && cps[j] == k;
    WalkAnchorCost(v, persons, cps, 0, j);
  }

  /** The final entry always costs the rounded `last` value, whatever rank it is. */
  lemma CurveLastCost(persons: int, v: Values)
    requires HasAnchorValues(v, persons)
    ensures |Curve(persons, v)| >= 1
    ensures Curve(persons, v)[|Curve(persons, v)| - 1].cost == Round(v.last)
  {
    var cps := ControlPoints(persons);
    ControlPointsReadable(v, persons);
    FirstControlPoint(persons);
    WalkShape(v, persons, cps, 0);
    WalkAnchorCost(v, persons, cps, 0, |cps| - 1);
  }

  /**
   * A rank strictly between consecutive control points costs the rounded linear
   * interpolation of their values, which lies between their rounded values.
   */
  lemma CurveInterpolatedCost(persons: int, v: Values, j: nat, pos: int)
    requires HasAnchorValues(v, persons)
    requires j + 1 < |ControlPoints(persons)|
    requires ControlPoints(persons)[j] < pos < ControlPoints(persons)[j + 1]
    ensures 1 <= pos <= |Curve(persons, v)|
    ensures
      var cps := ControlPoints(persons);
      var cv, nv := ValueAt(v, persons, cps[j]), ValueAt(v, persons, cps[j + 1]);
      var cost := Curve(persons, v)[pos - 1].cost;
      && cost == Round(Lerp(cps[j], cps[j + 1], cv, nv, pos))
      && (cv <= nv ==> Round(cv) <= cost <= Round(nv))
      && (nv <= cv ==> Round(nv) <= cost <= Round(cv))
  {
    var cps := ControlPoints(persons);
    ControlPointsReadable(v, persons);
    FirstControlPoint(persons);
    WalkInterpolatedCost(v, persons, cps, 0, j, pos);
    LerpBetweenEnds(cps[j], cps[j + 1], ValueAt(v, persons, cps[j]), ValueAt(v, persons, cps[j + 1]), pos);
  }

  /** At a rank between the two control points, the rounded interpolation lies between their rounded values. */
  lemma LerpBetweenEnds(cur: int, nxt: int, cv: real, nv: real, pos: int)
    requires cur <= pos <= nxt && cur < nxt
    ensures cv <= nv ==> Round(cv) <= Round(Lerp(cur, nxt, cv, nv, pos)) <= Round(nv)
    ensures nv <= cv ==> Round(nv) <= Round(Lerp(cur, nxt, cv, nv, pos)) <= Round(cv)
  {
    UnitFraction((pos - cur) as real, (nxt - cur) as real);
    RoundBetweenEnds(cv, nv, (pos - cur) as real / (nxt - cur) as real);
  }

  // ---------------------------------------------------------------------------
  // The imperative procedure, proved to build exactly that curve.

  /**
   * The inner loop of `calculatePositions`: pushes one interpolated entry for each
   * rank strictly between control points `current` and `next`.
   */
  method PushInterpolated(positions: seq<Position>, current: int, next: int, currentVal: real, nextVal: real)
    returns (extended: seq<Position>)
    requires current < next
    ensures extended == positions + Between(current, next, currentVal, nextVal)
  {
    extended := positions;
    ghost var segment := Between(current, next, currentVal, nextVal);
    var pos := current + 1;
    while pos < next
      invariant current + 1 <= pos <= next
      invariant extended == positions + segment[..pos - current - 1]
    {
      var cost := Round(Lerp(current, next, currentVal, nextVal, pos));
      BetweenAt(current, next, currentVal, nextVal, pos);
      assert segment[..pos - current] == segment[..pos - current - 1] + [segment[pos - current - 1]];
      extended := extended + [Position(pos, cost, "", false)];
      pos := pos + 1;
    }
    assert segment[..next - current - 1] == segment;
  }

  /** `calculatePositions`: pushes each control point's entry and the ranks up to the next one. */
  method CalculatePositions(persons: int, values: Values) returns (positions: seq<Position>)
    requires HasAnchorValues(values, persons)
    ensures positions == Curve(persons, values)
  {
    positions := [];
    var controlPoints := ControlPoints(persons);
    ControlPointsReadable(values, persons);
    ghost var curve := Walk(values, persons, controlPoints, 0);
    var i := 0;
    while i < |controlPoints|
      invariant 0 <= i <= |controlPoints|
      invariant positions + Walk(values, persons, controlPoints, i) == curve
    {
      ghost var done := positions;
      var current := controlPoints[i];
      var currentVal := if current == persons then values.last else values.anchors[current];
      var head := Position(current, Round(currentVal), "", false);
      positions := positions + [head];
      if i + 1 < |controlPoints| {
        var next := controlPoints[i + 1];
        var nextVal := if next == persons then values.last else values.anchors[next];
        positions := PushInterpolated(positions, current, next, currentVal, nextVal);
      }
      WalkUnfold(values, persons, controlPoints, i, done, positions);
      i := i + 1;
    }
  }

  // ---------------------------------------------------------------------------
  // The behaviour the project's tests describe.

  /** Three ranks with values {1: 100, 2: 200, last: 200} cost [100, 200, 200]. */
  lemma ThreeRankExample(persons: int, v: Values)
    requires persons == 3
    requires v == Values(map[1 := 100.0, 2 := 200.0], 200.0)
    ensures HasAnchorValues(v, persons)
    ensures |Curve(persons, v)| == 3
    ensures Curve(persons, v)[0].cost == 100 && Curve(persons, v)[1].cost == 200
    ensures Curve(persons, v)[2].cost == 200
  {
    assert 1 in v.anchors && 2 in v.anchors;
    assert v.anchors[1] == 100.0 && v.anchors[2] == 200.0 && v.last == 200.0;
    TwoAnchorsActive(persons);
    CurveShape(persons, v);
    CurveAnchorCost(persons, v, 1);
    CurveAnchorCost(persons, v, 2);
    CurveLastCost(persons, v);
    RoundIntegral(100);
    RoundIntegral(200);
  }

  /**
   * Ten ranks: rank 10 is the final rank and takes `last` (70), although anchor 10
   * holds 150; the tenth entry therefore costs 70.
   */
  lemma TenRankExample(persons: int, v: Values)
    requires persons == 10
    requires v == Values(map[1 := 500.0, 2 := 400.0, 3 := 350.0, 5 := 250.0, 10 := 150.0, 20 := 100.0], 70.0)
    ensures HasAnchorValues(v, persons)
    ensures |Curve(persons, v)| == 10
    ensures Curve(persons, v)[0] == Position(1, 500, "", false)
    ensures Curve(persons, v)[9] == Position(10, 70, "", false)
  {
    assert 1 in v.anchors && 2 in v.anchors && 3 in v.anchors && 5 in v.anchors;
    FourAnchorValues(persons, v);
    FourAnchorsActive(persons);
    assert v.anchors[1] == 500.0 && v.last == 70.0;
    CurveShape(persons, v);
    CurveAnchorCost(persons, v, 1);
    CurveLastCost(persons, v);
    RoundIntegral(500);
    RoundIntegral(70);
  }

  /** Between 6 and 10 persons, values for anchors 1, 2, 3 and 5 are enough for the curve to be built. */
  lemma FourAnchorValues(persons: int, v: Values)
    requires 5 < persons <= 10
    requires 1 in v.anchors && 2 in v.anchors && 3 in v.anchors && 5 in v.anchors
    ensures HasAnchorValues(v, persons)
  {
    FourAnchorsActive(persons);
  }

  /** With a single person, rank 1 is the final rank and costs the rounded `last` value. */
  lemma SinglePersonTakesLast(v: Values)
    ensures HasAnchorValues(v, 1)
    ensures Curve(1, v) == [Position(1, Round(v.last), "", false)]
  {
    CurveShape(1, v);
    CurveLastCost(1, v);
  }
}

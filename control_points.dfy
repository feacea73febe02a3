/** Which ranks carry a directly edited value (the anchors) for a given number of persons. */
module ControlPointSelector {

  /** The fixed candidate anchor ranks. */
  const Anchors: seq<int> := [1, 2, 3, 5, 10, 20]

  predicate Increasing(s: seq<int>) {
    forall i, j :: 0 <= i < j < |s| ==> s[i] < s[j]
  }

  /** `s.filter(x => x < p)`: the elements of `s` below `p`, in their order. */
  function Below(s: seq<int>, p: int): (r: seq<int>)
    ensures |r| <= |s|
    ensures forall x :: x in r ==> x in s && x < p
    ensures forall x :: x in s && x < p ==> x in r
    ensures Increasing(s) ==> Increasing(r)
  {
    if s == [] then []
    else
      var rest := Below(s[1..], p);
      assert forall i :: 0 <= i < |rest| ==> rest[i] in s[1..];
      assert Increasing(s) ==> forall x :: x in s[1..] ==> s[0] < x;
      if s[0] < p then [s[0]] + rest else rest
  }

  /** `getSliderPositions`: the anchors strictly below `persons`, ascending. */
  function SliderPositions(persons: int): (r: seq<int>)
    ensures Increasing(r)
    ensures forall k :: k in r <==> k in Anchors && k < persons
    ensures |r| <= |Anchors|
  {
    Below(Anchors, persons)
  }

  /**
   * `getControlPoints`: the slider positions followed by `persons` itself, which
   * is therefore always the last control point and never repeated.
   */
  function ControlPoints(persons: int): (r: seq<int>)
    ensures |r| >= 1 && r[|r| - 1] == persons
    ensures Increasing(r)
    ensures forall i :: 0 <= i < |r| - 1 ==> r[i] in Anchors && r[i] < persons
    ensures forall k :: k in Anchors && k < persons ==> k in r
  {
    var sliders := SliderPositions(persons);
    assert forall i :: 0 <= i < |sliders| ==> sliders[i] in sliders;
    sliders + [persons]
  }

  /** The first control point is rank 1, unless `persons` itself is 1 or less. */
  lemma FirstControlPoint(persons: int)
    ensures ControlPoints(persons)[0] == if persons > 1 then 1 else persons
  {
    var sliders := SliderPositions(persons);
    if persons > 1 {
      assert 1 in sliders;
      assert sliders[0] in sliders;
    }
  }

  /** The slider positions, when there are any, start at rank 1. */
  lemma FirstSliderPosition(persons: int)
    ensures |SliderPositions(persons)| > 0 ==> SliderPositions(persons)[0] == 1
  {
    var sliders := SliderPositions(persons);
    if |sliders| > 0 {
      assert sliders[0] in sliders;
      assert 1 in sliders;
    }
  }

  /** `getSliderPositions(p)` is `getControlPoints(p)` without its last element. */
  lemma SlidersAreControlPointsButLast(persons: int)
    ensures SliderPositions(persons) == ControlPoints(persons)[..|ControlPoints(persons)| - 1]
  {
  }

  /** Filtering a concatenation filters each part. */
  lemma {:induction false} BelowAppend(a: seq<int>, b: seq<int>, p: int)
    ensures Below(a + b, p) == Below(a, p) + Below(b, p)
    decreases |a|
  {
    if a != [] {
      assert (a + b)[1..] == a[1..] + b;
      BelowAppend(a[1..], b, p);
    } else {
      assert a + b == b;
    }
  }

  /** Filtering keeps a sequence whole when all its elements are below `p`, and empties it when none is. */
  lemma {:induction false} BelowAllOrNone(s: seq<int>, p: int)
    ensures (forall i :: 0 <= i < |s| ==> s[i] < p) ==> Below(s, p) == s
    ensures (forall i :: 0 <= i < |s| ==> s[i] >= p) ==> Below(s, p) == []
    decreases |s|
  {
    if s != [] {
      BelowAllOrNone(s[1..], p);
    }
  }

  /** Above 20 persons every anchor is active. */
  lemma AllAnchorsActive(persons: int)
    requires persons > 20
    ensures SliderPositions(persons) == Anchors
    ensures ControlPoints(persons) == Anchors + [persons]
  {
    BelowAllOrNone(Anchors, persons);
  }

  /** Between 6 and 10 persons the anchors 1, 2, 3 and 5 are active. */
  lemma FourAnchorsActive(persons: int)
    requires 5 < persons <= 10
    ensures SliderPositions(persons) == [1, 2, 3, 5]
    ensures ControlPoints(persons) == [1, 2, 3, 5, persons]
  {
    ActivePrefix(4, persons);
    assert Anchors[..4] == [1, 2, 3, 5];
  }

  /** With 3 persons the anchors 1 and 2 are active. */
  lemma TwoAnchorsActive(persons: int)
    requires persons == 3
    ensures SliderPositions(persons) == [1, 2]
    ensures ControlPoints(persons) == [1, 2, persons]
  {
    ActivePrefix(2, persons);
    assert Anchors[..2] == [1, 2];
  }

  lemma AnchorsIncreasing()
    ensures Increasing(Anchors)
  {
  }

  /** The active anchors are the first `n` when `persons` lies above the n-th and not above the next. */
  lemma ActivePrefix(n: nat, persons: int)
    requires 0 < n < |Anchors|
    requires Anchors[n - 1] < persons <= Anchors[n]
    ensures SliderPositions(persons) == Anchors[..n]
  {
    var a, b := Anchors[..n], Anchors[n..];
    assert Anchors == a + b;
    BelowAppend(a, b, persons);
    AnchorsIncreasing();
    forall i | 0 <= i < |a| ensures a[i] < persons {
      assert a[i] == Anchors[i] <= Anchors[n - 1];
    }
    forall i | 0 <= i < |b| ensures b[i] >= persons {
      assert b[i] == Anchors[n + i] >= Anchors[n];
    }
    BelowAllOrNone(a, persons);
    BelowAllOrNone(b, persons);
    assert a + [] == a;
  }

  /** The examples the project's tests state. */
  lemma ControlPointExamples()
    ensures ControlPoints(29) == [1, 2, 3, 5, 10, 20, 29]
    ensures SliderPositions(29) == [1, 2, 3, 5, 10, 20]
    ensures ControlPoints(7) == [1, 2, 3, 5, 7]
  {
    AllAnchorsActive(29);
    FourAnchorsActive(7);
  }
}

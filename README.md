# Prize-curve engine, modelled in Dafny

This project models the prize-curve engine of a lottery/tombola planner in
`src/utils/calculations.js`. Participants buy a stake. The organiser sets a cost
for a few anchor ranks (1, 2, 3, 5, 10, 20) and for the last rank. The engine:

- selects the anchors that are active for a given number of persons
  (`getControlPoints`, `getSliderPositions`);
- expands the sparse anchor values into one prize cost per rank, interpolating
  linearly between control points and rounding with `Math.round`
  (`calculatePositions`);
- overlays sponsored bottles, each on the first entry whose current cost
  equals the working cost nearest to the bottle's price (`applySponsoredBottles`);
- sums the curve and computes the income (`calculateTotalCost`, `calculateAmount`);
- spreads the active anchors after the first evenly between anchor 1's value
  and the last value (`redistributeValues`).

Modules, one file each:

- `Rounding` (`rounding.dfy`): `Math.round` over exact reals as
  `Floor(x + 1/2)`, with ties going up. Also holds the segment point `Along` and
  the order facts about both.
- `Records` (`records.dfy`): a curve entry `Position`, a values object `Values`
  (anchor map plus `last`) and a `Bottle`.
- `ControlPointSelector` (`control_points.dfy`): the anchor filter.
- `Interpolation` (`interpolation.dfy`): the specification function `Curve`,
  and the method `CalculatePositions` with its two nested loops, proved to
  return exactly `Curve`.
- `Sponsorship` (`sponsorship.dfy`): the one-bottle step `Sponsor`, its fold
  `SponsorAll`, and the method `ApplySponsoredBottles`, proved to return the fold.
- `Aggregates` (`aggregates.dfy`): the total and the income.
- `Redistribution` (`redistribution.dfy`): the specification function
  `Redistributed`, and the method `RedistributeValues`, proved to return it.

Each procedure that mutates locals in the source is a `method` with its loops
and invariants. It is proved equal to a specification function, and the
lemmas beside that function state what the source promises.

Notes on the source:

- The test at `src/tests/calculations.test.js:47` expects the tenth entry of
  the ten-person curve to cost 150. The code gives rank `persons` the value
  `last` (line 15 of `calculations.js`), which is 70 in that test. The model
  follows the code: `Interpolation.TenRankExample` proves 70.
- `applySponsoredBottles` looks up the chosen cost with `findIndex` over the
  updated entries. Entries already sponsored there carry the earlier bottle's
  price. A later bottle can therefore overwrite an earlier one, and "each rank
  is sponsored at most once" does not hold. The model keeps this behaviour, and
  `Sponsorship.SecondBottleOverwritesFirst` exhibits it.
- A claimed slot's working cost becomes -1, and that -1 still takes part in
  the nearest-cost search. A usable bottle whose nearest working cost is such
  a -1 finds no entry costing -1 and changes nothing. The model keeps this
  behaviour, and `Sponsorship.CheapSecondBottleIsDropped` exhibits it.
- `redistributeValues` uses the ratio `i / n`, not `i / (n - 1)`. The largest
  ratio is `(n - 1) / n < 1`, so before rounding the last active anchor stops
  short of `last`. After rounding it can still equal `round(last)`, for
  example when anchor 1 already equals `last`. The model keeps that ratio.
- Bottles are skipped only when the name is empty or the price is 0. A
  negative price is applied (`Sponsorship.NegativePriceIsApplied`).
- Curve entries built by the source have no `sponsored` field. The model
  gives them `sponsored == false`, which plays the role of the source's
  `undefined`.

## Model

| member | source | states |
|---|---|---|
| Rounding.Round | src/utils/calculations.js:23 | `Math.round(x)` is the integer `r` with `r - 1/2 <= x < r + 1/2`, so a tie rounds up |
| ControlPointSelector.Below | src/utils/calculations.js:39 | `filter(p => p < persons)` keeps exactly the elements below `persons` and is no longer than the input; for increasing input (the anchor list is one) the result is increasing, which fixes its order |
| ControlPointSelector.SliderPositions | src/utils/calculations.js:47-50 | the slider positions are strictly increasing and contain exactly the anchors of [1,2,3,5,10,20] below `persons` |
| ControlPointSelector.ControlPoints | src/utils/calculations.js:37-40 | the control points are non-empty, strictly increasing and end with `persons`; every earlier one is an anchor below `persons`, and every such anchor occurs |
| ControlPointSelector.SlidersAreControlPointsButLast | src/utils/calculations.js:37-50 | the slider positions are the control points without the last one |
| ControlPointSelector.FirstControlPoint | src/utils/calculations.js:37-40 | the first control point is rank 1 when `persons > 1`, and `persons` itself otherwise |
| ControlPointSelector.FirstSliderPosition | src/utils/calculations.js:47-50 | when any slider is active, the first one is rank 1 |
| ControlPointSelector.ActivePrefix | src/utils/calculations.js:47-50 | when `persons` lies above the n-th anchor and not above the next one, the sliders are exactly the first n anchors |
| ControlPointSelector.AllAnchorsActive | src/utils/calculations.js:37-50 | above 20 persons all six anchors are sliders, and the control points are the anchors followed by `persons` |
| ControlPointSelector.FourAnchorsActive | src/utils/calculations.js:37-50 | for 6 to 10 persons the sliders are [1,2,3,5] and the control points are [1,2,3,5,persons] |
| ControlPointSelector.TwoAnchorsActive | src/utils/calculations.js:37-50 | for 3 persons the sliders are [1,2] and the control points are [1,2,3] |
| ControlPointSelector.ControlPointExamples | src/tests/calculations.test.js:14-29 | control points for 29 are [1,2,3,5,10,20,29] and for 7 are [1,2,3,5,7]; the slider positions for 29 are [1,2,3,5,10,20] |
| Interpolation.Between | src/utils/calculations.js:21-25 | the ranks strictly between two control points yield `next - current - 1` entries |
| Interpolation.WalkShape | src/utils/calculations.js:11-27 | the entries emitted from control point i onward cover the ranks from `cps[i]` to the last control point, each once and in order, with empty names |
| Interpolation.WalkAnchorCost | src/utils/calculations.js:15-16 | in that walk the entry at control point j costs the rounded value that control point reads |
| Interpolation.WalkInterpolatedCost | src/utils/calculations.js:18-25 | in that walk a rank strictly between control points j and j+1 costs the rounded linear interpolation between them |
| Interpolation.CurveShape | src/utils/calculations.js:7-30 | the curve has `persons` entries (one, for rank `persons`, when persons <= 0); entry k has rank k+1, an empty name and no sponsorship |
| Interpolation.CurveAnchorCost | src/utils/calculations.js:15-16 | the entry of every slider position k costs `round(values[k])` |
| Interpolation.CurveLastCost | src/utils/calculations.js:15-16 | the last entry costs `round(values.last)` |
| Interpolation.CurveInterpolatedCost | src/utils/calculations.js:18-25 | a rank strictly between two consecutive control points costs the rounded interpolation, which lies between the two control points' rounded costs |
| Interpolation.LerpBetweenEnds | src/utils/calculations.js:22-23 | for `t = (pos - cur)/(nxt - cur)` in [0, 1], the rounded interpolation lies between `round(cv)` and `round(nv)` in either direction |
| Interpolation.PushInterpolated | src/utils/calculations.js:21-25 | the inner loop appends exactly the interpolated entries between two control points |
| Interpolation.CalculatePositions | src/utils/calculations.js:7-30 | the nested loops return exactly the curve `Curve(persons, values)` |
| Interpolation.SinglePersonTakesLast | src/utils/calculations.js:15 | with one person, rank 1 is the final rank and costs `round(values.last)`, whatever anchor 1 holds |
| Interpolation.FourAnchorValues | src/utils/calculations.js:15 | for 6 to 10 persons, values for anchors 1, 2, 3 and 5 are enough for the curve to be built (`HasAnchorValues`) |
| Interpolation.ThreeRankExample | src/tests/calculations.test.js:50-61 | `{1:100, 2:200, last:200}` with 3 persons costs [100, 200, 200] |
| Interpolation.TenRankExample | src/tests/calculations.test.js:43-47 | ten persons give ten entries; the first is (1, 500, '') and the tenth is (10, 70, ''): rank 10 reads `last` |
| Sponsorship.NearestIndex | src/utils/calculations.js:66-68 | the `reduce` picks a working cost at least as near to the price as every other, and strictly nearer than every earlier one, so ties go to the earliest |
| Sponsorship.FindIndex | src/utils/calculations.js:70 | `findIndex` returns the first entry whose cost matches, or -1 when none does |
| Sponsorship.Start | src/utils/calculations.js:59-60 | the working state starts as the input entries with a parallel array of their costs |
| Sponsorship.Usable | src/utils/calculations.js:63 | a bottle takes part unless its name is `''` or its price is 0, the falsy values of the skip test |
| Sponsorship.Sponsor | src/utils/calculations.js:62-79 | an unusable bottle, or a slot of -1, changes nothing. Otherwise only the slot changes: that entry keeps its rank and takes the price, the name and the sponsored mark; its working cost becomes -1; its cost is nearest among the working costs, and no earlier entry has that cost |
| Sponsorship.SponsorAll | src/utils/calculations.js:62-80 | the bottles applied in order keep the length and the alignment of entries and costs |
| Sponsorship.ApplySponsoredBottles | src/utils/calculations.js:58-83 | the loop, with its `continue` and the `-1` sentinel, returns exactly the bottles applied in order to a copy of the input |
| Sponsorship.SponsorAllShape | src/utils/calculations.js:62-80 | after any bottles each entry keeps its rank, and is either unchanged or sponsored with the name and price of some usable bottle |
| Sponsorship.SponsoredShape | src/utils/calculations.js:58-83 | the result has the input's length and ranks; each entry is the input's or is sponsored by one of the usable bottles |
| Sponsorship.NoUsableBottleChangesNothing | src/utils/calculations.js:63 | bottles that are all unusable leave the working state unchanged |
| Sponsorship.UnusableBottlesAreSkipped | src/utils/calculations.js:63 | without a usable bottle (in particular with no bottles) the result equals the input |
| Sponsorship.PremiumWineExample | src/tests/calculations.test.js:65-81 | costs [500, 400, 300] and a bottle at 410 sponsor the second entry only: (2, 410, 'Premium Wine', sponsored) |
| Sponsorship.SkippedBottlesExample | src/tests/calculations.test.js:83-95 | bottles with an empty name or a zero price leave the single entry unsponsored |
| Sponsorship.SecondBottleOverwritesFirst | src/utils/calculations.js:70-78 | costs [480, 480] and bottles Red and White at 480: White overwrites Red's entry and the second entry stays unsponsored |
| Sponsorship.CheapSecondBottleIsDropped | src/utils/calculations.js:66-78 | costs [500, 400, 300] with bottles A at 300 and B at 100: A takes the third entry; B's nearest working cost is A's -1 marker, no entry costs -1, so B is dropped and the result is [500, 400, (3, 300, 'A', sponsored)] |
| Sponsorship.NegativePriceIsApplied | src/utils/calculations.js:63 | a bottle priced -5 is not skipped; it sponsors the entry nearest to -5 |
| Aggregates.TotalCost | src/utils/calculations.js:90-92 | the left fold of the costs starting at 0: the running sum adds the entries' costs in order (its meaning is stated by the lemmas below) |
| Aggregates.CalculateAmount | src/utils/calculations.js:101-103 | for a non-negative number of persons the income is one stake collected from each participant (`Stakes`, a per-person sum) plus the sponsorship |
| Aggregates.TotalCostAppend | src/utils/calculations.js:90-92 | the total of two curves laid end to end is the sum of the totals |
| Aggregates.TotalCostFromFront | src/utils/calculations.js:91 | the left fold equals the first cost plus the total of the rest |
| Aggregates.TotalCostUpdate | src/utils/calculations.js:91 | replacing one entry changes the total by the difference of the two costs |
| Aggregates.TotalCostBounds | src/utils/calculations.js:90-92 | if every cost lies in [lo, hi], the total lies in [n*lo, n*hi] |
| Aggregates.SponsorTotalCost | src/utils/calculations.js:72-78 | one bottle changes the total by its price minus the cost of the entry it takes, and not at all when it takes none |
| Aggregates.TotalCostExample | src/tests/calculations.test.js:99-107 | costs [100, 200, 300] total 600, and the empty curve totals 0 |
| Aggregates.AmountPerPerson | src/utils/calculations.js:101-103 | each extra person adds one stake to the income, and with no persons the income is the sponsorship |
| Aggregates.AmountExample | src/tests/calculations.test.js:110-113 | `calculateAmount(100, 29, 3000)` is 5900 |
| Redistribution.RedistributeValues | src/utils/calculations.js:111-127 | the loop over a copy returns exactly `Redistributed(values, persons)` |
| Redistribution.RedistributedValues | src/utils/calculations.js:111-127 | `last`, key 1 and every key other than the active anchors after the first keep their values, and no other key appears; with n >= 2 active anchors, anchor i gets `round(values[1] + (last - values[1]) * i / n)`; with n <= 1 the copy equals the input |
| Redistribution.TargetBetween | src/utils/calculations.js:121-122 | each redistributed value lies between `round(values[1])` and `round(last)`, in either direction |
| Redistribution.TargetMonotone | src/utils/calculations.js:119-123 | the redistributed values move monotonically from anchor 1's value towards `last` as the index grows |
| Redistribution.RedistributedFeedsCurve | src/utils/calculations.js:118-124 | if anchor 1 has a value, every slider position has one after redistribution, so the curve can be built |
| Redistribution.TargetOneSixth | src/utils/calculations.js:121-122 | one sixth of the way from 500 down to 100 rounds to 433 |
| Redistribution.RoundedTargetCanReachLast | src/utils/calculations.js:121-122 | the largest ratio (n-1)/n is below 1, yet the rounded value of the last active anchor can equal `round(last)`: 100 to 101 over 6 anchors gives 101 |
| Redistribution.RedistributeExample | src/tests/calculations.test.js:117-132 | `{1:500, 2:400, 3:300, 5:200, last:100}` for 29 persons keeps anchor 1 at 500 and `last` at 100, sets anchor 2 to 433 (strictly between), and adds anchors 10 and 20 |

## Left out

- `src/utils/chart.js` (chart drawing, tooltips, DOM mouse events) is not part of this model: it is UI over an external charting library.
- `src/utils/storage.js` (a `localStorage`/`JSON.parse` wrapper) is not part of this model: apart from a version check it consists of calls into the browser.
- `vite.config.js` is build and test configuration only.
- IEEE-754 doubles: values, ratios and interpolations are exact reals, and `Math.round` is `Floor(x + 1/2)`. Floating-point error in the division and the rounding is therefore not modelled.
- Costs, prices, stakes and persons are integers. Fractional prices or stakes and a non-integer `persons` are not modelled.
- Interpolation.CalculatePositions: requires every slider position to have a value (`HasAnchorValues`). The source would read `undefined` and produce NaN costs, which the model does not represent.
- Redistribution.RedistributeValues: requires anchor 1 to have a value whenever more than one anchor is active (`CanRedistribute`). The source would compute NaN values otherwise.
- Sponsorship.ApplySponsoredBottles: requires a non-empty curve when some bottle is usable (`Applicable`). There `reduce` without an initial value throws, and the exception is not modelled.
- Sponsorship.Usable: treats only the empty name and the price 0 as falsy. `undefined`, `null` and NaN fields of a bottle are not represented.
- Sponsorship.ApplySponsoredBottles: works on sequences of values. The shallow copy, and the fact that the input array and its entries are never mutated, hold by construction rather than being stated about aliased objects.

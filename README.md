# Wealth sliders and orbit history, modelled in Dafny

This project models the two small engines inside the browser visualisations
`household-wealth` and `orbit-sim`, and proves their properties.

**Wealth-slider engine** (`household-wealth/script.js`). The chart holds one
wealth-per-household value per population group, poorest first. There are
five groups in federal mode and ten deciles in the mode the source calls "tom".
The values are kept non-decreasing:

- A rise at one group ripples upward (`enforceUp`).
- A fall ripples downward (`enforceDown`).
- Bulk replacement is repaired by two sweeps (`enforceAll`).

The normalize button scales every value so that the national total becomes
160.23 trillion. The preset button loads the literal 2025 values. The chart
shows each group's total and share.

- `monotone.dfy` (module `Monotone`) gives the closed forms of the three
  repairs on sequences:
  - `RippleUp`: a running maximum from the edited index.
  - `RippleDown`: a running minimum towards it.
  - `PrefixMax`: the prefix maximum.
  It also proves their properties.
- `wealth.dfy` (module `Wealth`) has the constants, the totals and shares,
  normalization and the presets. Its class `Chart` holds the sliders' values as
  an `array<real>` and `lastVals` as a `seq<real>`. The three repairs run in
  place on the array with index loops, as in the source, and are proved
  against the closed forms. `getVals`/`setVals` copy the values out of the
  sliders and back in; here that copy is the array itself.
- `enforceAll`'s two loops are, statement for statement, the loop of
  `enforceUp(0)` and the loop of `enforceDown(n - 1)`. `Chart.EnforceAll`
  therefore runs those two methods.

**Distance-history buffer and clock** (`orbit-sim/script.js`). Every frame:

- The simulated-years clock advances by the elapsed real seconds times the
  speed factor.
- The current planet distance is pushed onto a history capped at 2000
  samples, and the oldest sample is shifted out when the cap is exceeded.
- The plot shows the samples of the last `8 * speedFactor` years.

A radius change resets the clock, the previous-frame stamp and the history.
`orbit.dfy` (module `Orbit`) models this. Its class `OrbitSim` has the
source's globals as fields, and the history is a `seq` field that the methods
reassign. The recorded distance is a parameter, because the trigonometry that
produces it is not modelled. JavaScript's `null` previous timestamp is the
constructor `Null` of `Stamp`. JavaScript falsiness (`null` or `0`) is
`Falsy`.

Behaviour of the program that the model keeps as written:

- The normalize handler returns silently when the weighted total is at or
  below 0 (`household-wealth/script.js:166`).
- A radius change, from the slider or from one of the three planet buttons,
  resets the clock, the previous-frame stamp and the history
  (`orbit-sim/script.js:29-31`, `45-51`). A speed change resets nothing.
- The clock goes down when `speedFactor` is negative, or when a frame's stamp
  is earlier than the previous one (`orbit-sim/script.js:80-84`).
- The plotted window is a `filter` of the history (`orbit-sim/script.js:165`).
  It is a block of the newest samples only on a time-ordered history
  (`Orbit.WindowIsSuffix`).

## Model

| member | source | states |
|---|---|---|
| Monotone.Max | household-wealth/script.js:118 | the running maximum is one of the values and bounds every value |
| Monotone.Min | household-wealth/script.js:123 | the running minimum is one of the values and is bounded by every value |
| Monotone.AdjacentSortedIffSorted | household-wealth/script.js:128-129 | "each neighbour pair in order" and "every pair in order" are the same invariant, both directions |
| Monotone.PrefixMax | household-wealth/script.js:128 | the values left by the full repair's first sweep: each the largest value at or before its index. Its properties are PrefixMaxSorted, PrefixMaxLeast, PrefixMaxFixed and PrefixMaxIdempotent |
| Monotone.RippleUp | household-wealth/script.js:118 | the values left by `enforceUp(i)`'s loop: unchanged up to i, and past i the largest value between i and the index. Its properties are RippleUpFrame and RippleUpSorts |
| Monotone.RippleDown | household-wealth/script.js:123 | the values left by `enforceDown(i)`'s loop: unchanged from i on, and before i the smallest value between the index and i. Its properties are RippleDownFrame and RippleDownSorts |
| Monotone.PrefixMaxSorted | household-wealth/script.js:126-131 | the full repair keeps the length, is non-decreasing, and lies on or above the input everywhere |
| Monotone.PrefixMaxLeast | household-wealth/script.js:128 | the full repair is the least non-decreasing sequence on or above the input |
| Monotone.PrefixMaxFixed | household-wealth/script.js:128-129 | the full repair leaves a sequence unchanged if and only if it is already non-decreasing |
| Monotone.PrefixMaxIdempotent | household-wealth/script.js:126-131 | repairing twice equals repairing once |
| Monotone.PrefixMaxIsRippleFromZero | household-wealth/script.js:118-128 | the first sweep of the full repair is the upward ripple from index 0 |
| Monotone.FullRepair | household-wealth/script.js:128-129 | the first sweep then the second sweep yields exactly the prefix maximum |
| Monotone.RippleDownOfSorted | household-wealth/script.js:129 | the downward sweep changes nothing in a non-decreasing sequence, so the second sweep of the full repair is a no-op |
| Monotone.RippleUpFrame | household-wealth/script.js:116-120 | the upward ripple from i keeps the length, changes no index at or below i, and never lowers a value |
| Monotone.RippleDownFrame | household-wealth/script.js:121-125 | the downward ripple from i keeps the length, changes no index at or above i, and never raises a value |
| Monotone.RippleUpSorts | household-wealth/script.js:116-120 | if the values up to i are in order, the upward ripple from i makes the whole sequence non-decreasing |
| Monotone.RippleDownSorts | household-wealth/script.js:121-125 | if the values from i on are in order, the downward ripple from i makes the whole sequence non-decreasing |
| Monotone.RaiseThenRippleUp | household-wealth/script.js:139-143 | raising one value of a non-decreasing sequence and rippling upward restores the order |
| Monotone.LowerThenRippleDown | household-wealth/script.js:139-143 | lowering one value of a non-decreasing sequence and rippling downward restores the order |
| Wealth.Widths | household-wealth/script.js:19-31 | five federal groups or ten deciles, every width positive |
| Wealth.WidthsCoverPopulation | household-wealth/script.js:19-31 | the widths of either mode add up to exactly 1 |
| Wealth.PresetFits | household-wealth/script.js:177-187 | each preset has one value per group, lies in [0, 200000000], is non-decreasing, and the full repair leaves it unchanged |
| Wealth.Preset | household-wealth/script.js:177-185 | the "Actual 2025" literal of the current mode, with one value per group of that mode |
| Wealth.ValToTotal | household-wealth/script.js:100 | a group's total wealth is non-negative for a non-negative value and width, and 0 when either is 0 |
| Wealth.Sum | household-wealth/script.js:165 | the left-to-right sum used by the normalize handler's `reduce` and by the running `totalWealth` of line 262; its properties are the lemmas below |
| Wealth.NonNegativeSum | household-wealth/script.js:262 | a sum of non-negative group totals is non-negative |
| Wealth.GroupTotals | household-wealth/script.js:100 | one total per group, non-negative for non-negative values and widths |
| Wealth.SumScaled | household-wealth/script.js:165 | scaling every term of the reduce-sum scales the sum by the same factor |
| Wealth.GroupTotalsScaled | household-wealth/script.js:164-169 | scaling every value by the normalize factor scales every group's total by that factor |
| Wealth.WeightedTotal | household-wealth/script.js:164-165 | the normalize handler's `sum`: the sum of the group totals. Its properties are WeightedTotalScaled and NormalizedTotal |
| Wealth.Scaled | household-wealth/script.js:169 | `vals.map(v => v * scale)`: every value times the same factor. Its properties are ScaledKeepsOrder, ScaledNonNegative and SumScaled |
| Wealth.WeightedTotalScaled | household-wealth/script.js:164-169 | scaling every value scales the weighted national total by the same factor |
| Wealth.Normalized | household-wealth/script.js:163-169 | the values the normalize handler writes: the input when the total is at or below 0, otherwise each value times target/total; one value per group |
| Wealth.NormalizedTotal | household-wealth/script.js:163-169 | with a positive total, scaling by target/total makes the new total exactly 160.23e12 |
| Wealth.ScaledKeepsOrder | household-wealth/script.js:169 | scaling by a non-negative factor keeps a non-decreasing sequence non-decreasing |
| Wealth.ScaledNonNegative | household-wealth/script.js:169 | scaling by a non-negative factor keeps values non-negative |
| Wealth.NormalizeReachesTarget | household-wealth/script.js:162-171 | a total at or below 0 leaves the values untouched; otherwise the new total is the target. The order and non-negativity are kept, so the repair that follows changes nothing |
| Wealth.ZeroSumOfNonNegative | household-wealth/script.js:262 | non-negative group totals add up to 0 only when every one is 0 |
| Wealth.Shares | household-wealth/script.js:264-265 | one share per group. With a non-zero national total each share times the total gives back the group's total. With a zero total the `|| 1` fallback leaves each share equal to its group's total |
| Wealth.SharesSumToOne | household-wealth/script.js:261-265 | with a non-zero national total the shares add up to exactly 1 |
| Wealth.SharesZeroWhenTotalZero | household-wealth/script.js:261-265 | with non-negative totals adding up to 0, the `|| 1` fallback makes every share 0 |
| Wealth.ShareBounds | household-wealth/script.js:261-265 | for non-negative values and widths every share lies in [0, 1] |
| Wealth.SharesOfTotals | household-wealth/script.js:264-265 | both cases of the share computation, with one share per group |
| Wealth.CommitValue | household-wealth/script.js:148-150 | the committed box value always lies in [0, 200000000]. NaN and -Infinity become 0, +Infinity becomes the maximum, and an in-range number is kept |
| Wealth.AfterEdit | household-wealth/script.js:141-143 | the values after a slider move or a box commit (line 153 dispatches the same way): one per group, with the new value at the edited index |
| Wealth.EditKeepsOrder | household-wealth/script.js:141-143 | covers an edit of ordered non-negative values, dispatched against the last-seen value. The result is ordered and non-negative and holds the new value at the edited index. A rise leaves the lower side alone and only raises the upper side. A fall leaves the upper side alone and only lowers the lower side. An equal value changes nothing |
| Wealth.RippleDownNonNegative | household-wealth/script.js:123 | the downward ripple keeps non-negative values non-negative |
| Wealth.Chart.constructor | household-wealth/script.js:61 | built controls: one slider per group at 1230000, repaired, with the last-seen values equal to the current ones |
| Wealth.Chart.EnforceUp | household-wealth/script.js:116-120 | the in-place loop leaves exactly the upward ripple of the old values |
| Wealth.Chart.EnforceDown | household-wealth/script.js:121-125 | the in-place loop leaves exactly the downward ripple of the old values |
| Wealth.Chart.EnforceAll | household-wealth/script.js:126-131 | the two sweeps leave exactly the prefix maximum of the old values |
| Wealth.Chart.SetVals | household-wealth/script.js:109-114 | the sliders hold exactly the given list |
| Wealth.Chart.Edit | household-wealth/script.js:141-143 | the new values are the dispatched edit of the old ones against `lastVals[i]`; afterwards `lastVals` equals the values and they are in order |
| Wealth.Chart.SliderInput | household-wealth/script.js:139-145 | a slider move is dispatched as an edit, and the values end up in order with `lastVals` equal to them |
| Wealth.Chart.CommitBox | household-wealth/script.js:147-156 | a box commit dispatches the clamped entry as an edit, and the values end up in order with `lastVals` equal to them |
| Wealth.Chart.Normalize | household-wealth/script.js:162-174 | the values become the normalized values, still in order, and `lastVals` follows |
| Wealth.Chart.LoadPreset | household-wealth/script.js:177-190 | afterwards the values equal the mode's preset exactly, and `lastVals` follows |
| Wealth.Chart.Breakdown | household-wealth/script.js:260-265 | one total and one share per group. The shares add up to 1 when the total is non-zero and are all 0 when it is 0 |
| Orbit.Recorded | orbit-sim/script.js:151-152 | after recording into a history within capacity, the length is at most 2000 and the new sample is last. Below capacity the sample is appended. At capacity the oldest sample is dropped |
| Orbit.RecordedKeepsNewest | orbit-sim/script.js:151-152 | one recording keeps exactly the newest 2000 of the old history plus the sample |
| Orbit.RecordAllKeepsNewest | orbit-sim/script.js:63-64 | after any number of recordings the history is the newest 2000 samples of everything recorded, oldest first |
| Orbit.OneOverCapacityDropsFirst | orbit-sim/script.js:64 | recording 2001 samples into an empty history leaves exactly 2000: all but the first |
| Orbit.RecordKeepsTimesOrdered | orbit-sim/script.js:151 | recording a sample no earlier than every held sample keeps the history in time order |
| Orbit.Filter | orbit-sim/script.js:165 | the window holds exactly the history samples with `t >= tMin`, each as many times as the history holds it, and no others; it is no longer than the history |
| Orbit.FilterIsSubsequence | orbit-sim/script.js:165 | the window is a subsequence of the history, so the original order is kept |
| Orbit.FilterKeepsAll | orbit-sim/script.js:165 | when every sample is recent enough, the window is the whole history |
| Orbit.WindowIsSuffix | orbit-sim/script.js:162-165 | on a time-ordered history the window is a contiguous block of the newest samples |
| Orbit.Falsy | orbit-sim/script.js:80 | JavaScript's `!lastTimestamp`: true for a null stamp and for a stamp of 0 |
| Orbit.Elapsed | orbit-sim/script.js:80-81 | the first frame after a reset, or after a frame stamped 0, contributes zero seconds. Otherwise a later stamp contributes a non-negative time |
| Orbit.FrameAdvancesClock | orbit-sim/script.js:80-84 | at a non-negative speed, a frame whose stamp is no earlier than the previous one does not move the clock backwards |
| Orbit.RunTelescopes | orbit-sim/script.js:80-84 | over frames with non-zero stamps at a fixed speed, the clock gains the speed times the real seconds since the previous stamp |
| Orbit.ClockSinceReset | orbit-sim/script.js:68-84 | after a reset the clock reads the speed times the real seconds since the first frame |
| Orbit.OrbitSim.constructor | orbit-sim/script.js:60-63 | page load: clock at 0, no previous frame, empty history |
| Orbit.OrbitSim.ResetSim | orbit-sim/script.js:68-72 | the clock is 0, the previous stamp is null, the history is empty, and radius and speed are kept |
| Orbit.OrbitSim.SetRadius | orbit-sim/script.js:45-51 | a radius change, from the slider or a planet button, sets the radius and resets the simulation |
| Orbit.OrbitSim.SetSpeed | orbit-sim/script.js:40-43 | a speed change alters only the speed |
| Orbit.OrbitSim.Advance | orbit-sim/script.js:80-84 | the clock grows by the elapsed seconds times the speed, and the stamp becomes this frame's |
| Orbit.OrbitSim.Record | orbit-sim/script.js:151-152 | the history becomes the recording of a sample at the current time, within capacity |
| Orbit.OrbitSim.Animate | orbit-sim/script.js:79-84 | one frame: the clock advances by the elapsed seconds times the speed, the stamp becomes this frame's, then a sample is recorded; radius and speed are kept. With a later stamp and a non-negative speed the history stays in time order and no later than the clock |
| Orbit.OrbitSim.WindowStart | orbit-sim/script.js:162-164 | the earliest simulated time the plot shows: `simYears - speedFactor * 8` |
| Orbit.OrbitSim.Visible | orbit-sim/script.js:162-165 | the plotted samples are exactly those with `t >= simYears - 8*speedFactor`, each as many times as the history holds it. On a time-ordered history they are the newest contiguous block |

## Left out

- DOM construction, element ids, event wiring, focus/select, `toLocaleString`: presentation glue.
- `Number(...)` parsing and comma removal: the box entry is given already parsed, as a number, ±Infinity or NaN.
- The HTML range input's own sanitisation: it clamps to [0, 200000000] and snaps to the step of 1000 when a value is written. This is host-browser behaviour.
- Wealth.Chart.LoadPreset: the values equal the preset exactly only in the model. The sliders have `step="1000"` (`household-wealth/script.js:61`), so in the browser a preset value of 62462 reads back as 62000 after `setVals` (lines 186-188). The same snapping applies to the values that normalize and a box commit write.
- Floating point: values, times and distances are `real` here, while the source uses 64-bit floats. The exact equalities below hold over the reals only.
- Orbit.RunTelescopes: the clock's sum of per-frame increments equals the speed times the whole interval only without float rounding.
- Orbit.ClockSinceReset: holds exactly only over the reals, for the same reason.
- Wealth.SharesSumToOne: float shares can add up to a value next to 1.
- Wealth.NormalizedTotal: the float total after scaling can miss 160.23e12 by rounding.
- Wealth.WidthsCoverPopulation: ten additions of 0.1 do not give exactly 1.0 in floats.
- Wealth.Chart.Normalize: its new total is the target over the reals only. The source's floats round, and a slider clamps a scaled value above 200000000.
- Wealth.Chart.SliderInput: it requires a value in the slider's range, because the browser guarantees that range.
- The mode buttons rebuild the controls. Here that is a fresh `Wealth.Chart` for the new mode.
- The fixed "160.24 T" label is display text. It is not used by any computation, and it differs from the 160.23e12 normalization target.
- All canvas drawing: bars, axes, tooltip, hover, orbit rings, star, plot strokes, and the plot's early return below two samples. This is rendering only.
- `omega`, the planet positions and `computeTrueMeanDistance` are trigonometry, `pow` and `sqrt` on floats. The recorded distance is a parameter, and the mean-distance line is not modelled.
- `requestAnimationFrame`, image loading and `setTimeout` are scheduling and I/O. Frames are calls to `Orbit.OrbitSim.Animate`.
- The second, identical `valToTotal` definition is modelled once.

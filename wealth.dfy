/** The wealth-slider engine of the household-wealth chart.

    A chart shows one bar per population group, poorest first.  Each group
    has a fixed population fraction (its width) and a wealth per household
    set by a slider or a text box.  The engine keeps the values
    non-decreasing after every edit, scales them to the 2025 national total
    on request, loads a literal 2025 preset, and computes each group's total
    and share for display. */
module Wealth {
  import opened Monotone

  /** Households in the country, the multiplier of every group total. */
  const TotalHouseholds: real := 130000000.0
  /** Upper bound of a slider and of the text box. */
  const MaxValue: real := 200000000.0
  /** The value every slider starts at when the controls are built. */
  const DefaultValue: real := 1230000.0
  /** The national total the normalize button scales to (160.23 trillion). */
  const NormalizeTarget: real := 160230000000000.0

  /** The two group sets: five federal groups of unequal width, or ten deciles
      (the source calls this mode "tom"). */
  datatype Mode = Federal | Tom

  /** Population fraction of each group, poorest first. */
  function Widths(m: Mode): (w: seq<real>)
    ensures |w| == (if m == Federal then 5 else 10)
    ensures forall k :: 0 <= k < |w| ==> w[k] > 0.0
  {
    match m
    case Federal => [0.5, 0.4, 0.09, 0.009, 0.001]
    case Tom => [0.1, 0.1, 0.1, 0.1, 0.1, 0.1, 0.1, 0.1, 0.1, 0.1]
  }

  /** The "Actual 2025 Distribution" values for each mode, poorest first. */
  function Preset(m: Mode): (r: seq<real>)
    ensures |r| == |Widths(m)|
  {
    match m
    case Federal => [62462.0, 934615.0, 4990598.0, 23179487.0, 169769231.0]
    case Tom => [12492.0, 37477.0, 62462.0, 87446.0, 112431.0,
                 327346.0, 732192.0, 1137038.0, 1541885.0, 8275385.0]
  }

  /** Both presets have one value per group, lie in the slider range and are
      already in order, so the repair that follows loading one changes nothing. */
  lemma PresetFits(m: Mode)
    ensures |Preset(m)| == |Widths(m)|
    ensures Sorted(Preset(m))
    ensures forall k :: 0 <= k < |Preset(m)| ==> 0.0 <= Preset(m)[k] <= MaxValue
    ensures PrefixMax(Preset(m)) == Preset(m)
  {
    var p := Preset(m);
    PresetAdjacentSorted(m);
    AdjacentSortedIffSorted(p);
    PrefixMaxFixed(p);
  }

  lemma PresetAdjacentSorted(m: Mode)
    ensures AdjacentSorted(Preset(m))
    ensures forall k :: 0 <= k < |Preset(m)| ==> 0.0 <= Preset(m)[k] <= MaxValue
  {
    var p := Preset(m);
    if m == Federal {
      assert p[0] <= p[1] <= p[2] <= p[3] <= p[4];
    } else {
      assert p[0] <= p[1] <= p[2] <= p[3] <= p[4] <= p[5] <= p[6] <= p[7] <= p[8] <= p[9];
    }
  }

  // ---------------------------------------------------------------------
  // Totals and shares
  // ---------------------------------------------------------------------

  /** Left-to-right sum, as the source's reduce and its running total. */
  function Sum(s: seq<real>): real {
    if s == [] then 0.0 else Sum(s[..|s| - 1]) + s[|s| - 1]
  }

  /** The group widths of either mode cover the whole population. */
  lemma WidthsCoverPopulation(m: Mode)
    ensures Sum(Widths(m)) == 1.0
  {
    var w := Widths(m);
    var n := |w|;
    assert Sum(w[..0]) == 0.0;
    SumPrefixStep(w, 1);
    SumPrefixStep(w, 2);
    SumPrefixStep(w, 3);
    SumPrefixStep(w, 4);
    SumPrefixStep(w, 5);
    if m == Tom {
      SumPrefixStep(w, 6);
      SumPrefixStep(w, 7);
      SumPrefixStep(w, 8);
      SumPrefixStep(w, 9);
      SumPrefixStep(w, 10);
    }
    assert w[..n] == w;
  }

  lemma SumPrefixStep(s: seq<real>, k: nat)
    requires 0 < k <= |s|
    ensures Sum(s[..k]) == Sum(s[..k - 1]) + s[k - 1]
  {
    assert s[..k][..k - 1] == s[..k - 1];
  }

  /** Total wealth of a group: value per household times the number of
      households in the group. */
  function ValToTotal(v: real, f: real): (r: real)
    ensures 0.0 <= v && 0.0 <= f ==> 0.0 <= r
    ensures v == 0.0 || f == 0.0 ==> r == 0.0
  {
    v * TotalHouseholds * f
  }

  /** Every group's total wealth. */
  function GroupTotals(vals: seq<real>, widths: seq<real>): (t: seq<real>)
    requires |vals| == |widths|
    ensures |t| == |vals|
    ensures forall k :: 0 <= k < |vals| && 0.0 <= vals[k] && 0.0 <= widths[k] ==> 0.0 <= t[k]
  {
    seq(|vals|, k requires 0 <= k < |vals| => ValToTotal(vals[k], widths[k]))
  }

  /** The national total of a value assignment. */
  function WeightedTotal(vals: seq<real>, widths: seq<real>): real
    requires |vals| == |widths|
  {
    Sum(GroupTotals(vals, widths))
  }

  /** Each value multiplied by the same factor. */
  function Scaled(s: seq<real>, c: real): seq<real> {
    seq(|s|, k requires 0 <= k < |s| => s[k] * c)
  }

  /** Each group's share of the national total; the denominator falls back
      to 1 when the total is 0, as `totalWealth || 1` does. */
  function Shares(totals: seq<real>): (r: seq<real>)
    ensures |r| == |totals|
    ensures Sum(totals) != 0.0 ==> forall k :: 0 <= k < |r| ==> r[k] * Sum(totals) == totals[k]
    ensures Sum(totals) == 0.0 ==> r == totals
  {
    var total := Sum(totals);
    var denom := if total == 0.0 then 1.0 else total;
    seq(|totals|, k requires 0 <= k < |totals| => totals[k] / denom)
  }

  /** Scaling every term scales the sum. */
  lemma {:induction false} SumScaled(s: seq<real>, c: real)
    ensures Sum(Scaled(s, c)) == Sum(s) * c
  {
    if s != [] {
      var n := |s| - 1;
      forall k | 0 <= k < n ensures Scaled(s, c)[..n][k] == Scaled(s[..n], c)[k] {
      }
      assert Scaled(s, c)[..n] == Scaled(s[..n], c);
      SumScaled(s[..n], c);
      calc {
        Sum(Scaled(s, c));
        Sum(Scaled(s[..n], c)) + s[n] * c;
        Sum(s[..n]) * c + s[n] * c;
        (Sum(s[..n]) + s[n]) * c;
      }
    }
  }

  /** Scaling the values scales the national total by the same factor. */
  lemma WeightedTotalScaled(vals: seq<real>, widths: seq<real>, c: real)
    requires |vals| == |widths|
    ensures WeightedTotal(Scaled(vals, c), widths) == WeightedTotal(vals, widths) * c
  {
    var t := GroupTotals(vals, widths);
    GroupTotalsScaled(vals, widths, c);
    SumScaled(t, c);
  }

  /** Scaling the values scales every group's total by the same factor. */
  lemma GroupTotalsScaled(vals: seq<real>, widths: seq<real>, c: real)
    requires |vals| == |widths|
    ensures GroupTotals(Scaled(vals, c), widths) == Scaled(GroupTotals(vals, widths), c)
  {
    var t := GroupTotals(vals, widths);
    var u := GroupTotals(Scaled(vals, c), widths);
    forall k | 0 <= k < |vals|
      ensures u[k] == Scaled(t, c)[k]
    {
      ScaleFactorOut(vals[k], c, widths[k]);
    }
  }

  /** Scaling a group's value scales its total by the same factor. */
  lemma ScaleFactorOut(v: real, c: real, w: real)
    ensures ValToTotal(v * c, w) == ValToTotal(v, w) * c
  {
  }

  /** A sum of non-negative terms is 0 only when every term is 0. */
  lemma {:induction false} ZeroSumOfNonNegative(s: seq<real>)
    requires forall k :: 0 <= k < |s| ==> 0.0 <= s[k]
    requires Sum(s) == 0.0
    ensures forall k :: 0 <= k < |s| ==> s[k] == 0.0
  {
    if s != [] {
      var n := |s| - 1;
      NonNegativeSum(s[..n]);
      ZeroSumOfNonNegative(s[..n]);
      assert forall k :: 0 <= k < n ==> s[..n][k] == s[k];
    }
  }

  lemma {:induction false} NonNegativeSum(s: seq<real>)
    requires forall k :: 0 <= k < |s| ==> 0.0 <= s[k]
    ensures 0.0 <= Sum(s)
  {
    if s != [] {
      NonNegativeSum(s[..|s| - 1]);
    }
  }

  /** With a non-zero national total the shares add up to exactly 1. */
  lemma SharesSumToOne(totals: seq<real>)
    requires Sum(totals) != 0.0
    ensures |Shares(totals)| == |totals|
    ensures Sum(Shares(totals)) == 1.0
  {
    var total := Sum(totals);
    forall k | 0 <= k < |totals| ensures Shares(totals)[k] == Scaled(totals, 1.0 / total)[k] {
      DivIsScale(totals[k], total);
    }
    assert Shares(totals) == Scaled(totals, 1.0 / total);
    SumScaled(totals, 1.0 / total);
    DivIsScale(total, total);
  }

  lemma DivIsScale(a: real, d: real)
    requires d != 0.0
    ensures a / d == a * (1.0 / d)
  {
  }

  /** With non-negative group totals adding up to 0, every share is 0. */
  lemma SharesZeroWhenTotalZero(totals: seq<real>)
    requires forall k :: 0 <= k < |totals| ==> 0.0 <= totals[k]
    requires Sum(totals) == 0.0
    ensures |Shares(totals)| == |totals|
    ensures forall k :: 0 <= k < |totals| ==> Shares(totals)[k] == 0.0
  {
    ZeroSumOfNonNegative(totals);
  }

  /** Every share is the group's total over the national total, and lies in
      [0, 1] when the values and widths are non-negative. */
  lemma ShareBounds(vals: seq<real>, widths: seq<real>)
    requires |vals| == |widths|
    requires forall k :: 0 <= k < |vals| ==> 0.0 <= vals[k] && 0.0 <= widths[k]
    ensures forall k :: 0 <= k < |vals| ==> 0.0 <= Shares(GroupTotals(vals, widths))[k] <= 1.0
  {
    var t := GroupTotals(vals, widths);
    NonNegativeSum(t);
    if Sum(t) == 0.0 {
      SharesZeroWhenTotalZero(t);
    } else {
      forall k | 0 <= k < |vals| ensures 0.0 <= Shares(t)[k] <= 1.0 {
        TermAtMostSum(t, k);
        FractionBounds(t[k], Sum(t));
      }
    }
  }

  lemma FractionBounds(a: real, b: real)
    requires 0.0 <= a <= b && b != 0.0
    ensures 0.0 <= a / b <= 1.0
  {
  }

  lemma {:induction false} TermAtMostSum(s: seq<real>, k: nat)
    requires forall j :: 0 <= j < |s| ==> 0.0 <= s[j]
    requires k < |s|
    ensures s[k] <= Sum(s)
  {
    var n := |s| - 1;
    NonNegativeSum(s[..n]);
    if k < n {
      TermAtMostSum(s[..n], k);
    }
  }

  /** What the normalize button does to the values: nothing when the
      national total is not positive, otherwise every value is scaled by
      target/total. */
  function Normalized(vals: seq<real>, widths: seq<real>): (r: seq<real>)
    requires |vals| == |widths|
    ensures |r| == |vals|
  {
    var total := WeightedTotal(vals, widths);
    if total <= 0.0 then vals else Scaled(vals, NormalizeTarget / total)
  }

  /** Normalizing ordered non-negative values keeps them ordered and
      non-negative, so the repair that follows changes nothing; with a
      positive total the new national total is the target exactly, and
      otherwise the values are untouched. */
  lemma NormalizeReachesTarget(vals: seq<real>, widths: seq<real>)
    requires |vals| == |widths| && Sorted(vals)
    requires forall k :: 0 <= k < |vals| ==> 0.0 <= vals[k]
    ensures var r := Normalized(vals, widths);
      && |r| == |vals|
      && Sorted(r) && PrefixMax(r) == r
      && (forall k :: 0 <= k < |r| ==> 0.0 <= r[k])
      && (WeightedTotal(vals, widths) <= 0.0 ==> r == vals)
      && (WeightedTotal(vals, widths) > 0.0 ==> WeightedTotal(r, widths) == NormalizeTarget)
  {
    var total := WeightedTotal(vals, widths);
    if total > 0.0 {
      var c := NormalizeTarget / total;
      PositiveQuotient(NormalizeTarget, total);
      ScaledKeepsOrder(vals, c);
      ScaledNonNegative(vals, c);
      NormalizedTotal(vals, widths);
    }
    PrefixMaxFixed(Normalized(vals, widths));
  }

  /** Scaling by target/total brings a positive total to the target. */
  lemma NormalizedTotal(vals: seq<real>, widths: seq<real>)
    requires |vals| == |widths|
    requires WeightedTotal(vals, widths) > 0.0
    ensures WeightedTotal(Scaled(vals, NormalizeTarget / WeightedTotal(vals, widths)), widths) == NormalizeTarget
  {
    var total := WeightedTotal(vals, widths);
    WeightedTotalScaled(vals, widths, NormalizeTarget / total);
    MulDivCancel(NormalizeTarget, total);
  }

  lemma PositiveQuotient(t: real, x: real)
    requires 0.0 < t && 0.0 < x
    ensures 0.0 < t / x
  {
  }

  lemma MulDivCancel(t: real, x: real)
    requires x != 0.0
    ensures x * (t / x) == t
  {
  }

  /** Scaling by a non-negative factor keeps the values in order. */
  lemma ScaledKeepsOrder(s: seq<real>, c: real)
    requires Sorted(s) && 0.0 <= c
    ensures Sorted(Scaled(s, c))
  {
    var r := Scaled(s, c);
    forall j, k | 0 <= j <= k < |r| ensures r[j] <= r[k] {
      MulMonotone(s[j], s[k], c);
    }
  }

  /** Scaling by a non-negative factor keeps the values non-negative. */
  lemma ScaledNonNegative(s: seq<real>, c: real)
    requires forall k :: 0 <= k < |s| ==> 0.0 <= s[k]
    requires 0.0 <= c
    ensures forall k :: 0 <= k < |s| ==> 0.0 <= Scaled(s, c)[k]
  {
    forall k | 0 <= k < |s| ensures 0.0 <= Scaled(s, c)[k] {
      MulMonotone(0.0, s[k], c);
    }
  }

  lemma MulMonotone(a: real, b: real, c: real)
    requires a <= b && 0.0 <= c
    ensures a * c <= b * c
  {
  }

  // ---------------------------------------------------------------------
  // The text box
  // ---------------------------------------------------------------------

  /** What `Number(...)` makes of the text box after its commas are removed. */
  datatype Entry = Finite(x: real) | PosInfinity | NegInfinity | NaN

  /** The committed text-box value: NaN becomes 0, then the number is
      clamped into [0, MaxValue]. */
  function CommitValue(e: Entry): (r: real)
    ensures 0.0 <= r <= MaxValue
    ensures e.NaN? || e.NegInfinity? ==> r == 0.0
    ensures e.PosInfinity? ==> r == MaxValue
    ensures e.Finite? && 0.0 <= e.x <= MaxValue ==> r == e.x
    ensures e.Finite? && e.x < 0.0 ==> r == 0.0
    ensures e.Finite? && MaxValue < e.x ==> r == MaxValue
  {
    var val := match e
      case NaN => 0.0
      case Finite(x) => x
      case PosInfinity => MaxValue + 1.0
      case NegInfinity => -1.0;
    var lo := if val < 0.0 then 0.0 else val;
    if lo > MaxValue then MaxValue else lo
  }

  // ---------------------------------------------------------------------
  // Edits
  // ---------------------------------------------------------------------

  /** The values after group i is set to x, given the value last seen there:
      a rise ripples upward, a fall ripples downward, no change does neither. */
  function AfterEdit(s: seq<real>, i: nat, x: real, last: real): (r: seq<real>)
    requires i < |s|
    ensures |r| == |s| && r[i] == x
  {
    if x > last then RippleUp(s[i := x], i)
    else if x < last then RippleDown(s[i := x], i)
    else s[i := x]
  }

  /** An edit of ordered non-negative values, dispatched against the value
      last seen at that index, leaves them ordered and non-negative, changes
      only one side of the edited index, and moves values only towards the
      new one: up on a rise, down on a fall. */
  lemma EditKeepsOrder(s: seq<real>, i: nat, x: real)
    requires i < |s| && Sorted(s) && 0.0 <= x
    requires forall k :: 0 <= k < |s| ==> 0.0 <= s[k]
    ensures var r := AfterEdit(s, i, x, s[i]);
      && |r| == |s| && Sorted(r) && r[i] == x
      && (forall k :: 0 <= k < |r| ==> 0.0 <= r[k])
      && (x > s[i] ==> forall k :: 0 <= k < i ==> r[k] == s[k])
      && (x > s[i] ==> forall k :: i < k < |s| ==> s[k] <= r[k])
      && (x < s[i] ==> forall k :: i < k < |s| ==> r[k] == s[k])
      && (x < s[i] ==> forall k :: 0 <= k < i ==> r[k] <= s[k])
      && (x == s[i] ==> r == s)
  {
    var t := s[i := x];
    if x > s[i] {
      RaiseThenRippleUp(s, i, x);
      RippleUpFrame(t, i);
    } else if x < s[i] {
      LowerThenRippleDown(s, i, x);
      RippleDownFrame(t, i);
      RippleDownNonNegative(t, i);
    }
  }

  /** The downward ripple only moves values to ones already present, so
      non-negative values stay non-negative. */
  lemma RippleDownNonNegative(s: seq<real>, i: nat)
    requires i < |s|
    requires forall k :: 0 <= k < |s| ==> 0.0 <= s[k]
    ensures forall k :: 0 <= k < |s| ==> 0.0 <= RippleDown(s, i)[k]
  {
    forall k | 0 <= k < i ensures 0.0 <= RippleDown(s, i)[k] {
      var m :| 0 <= m < i + 1 - k && s[k..i + 1][m] == Min(s[k..i + 1]);
    }
  }

  // ---------------------------------------------------------------------
  // The controls
  // ---------------------------------------------------------------------

  /** The slider values of one built set of controls, and the values the
      edit handlers last saw. */
  class Chart {
    const mode: Mode
    /** The sliders' values, poorest group first. */
    const vals: array<real>
    /** The values as of the end of the last handler. */
    var lastVals: seq<real>

    /** Between events: one value per group, the last-seen values are the
        current ones, and the values are in order and non-negative. */
    ghost predicate Valid()
      reads this, vals
    {
      && vals.Length == |Widths(mode)|
      && lastVals == vals[..]
      && Sorted(vals[..])
      && forall k :: 0 <= k < vals.Length ==> 0.0 <= vals[k]
    }

    /** Building the controls: every slider starts at the default value,
        then the repair runs and the last-seen values are taken. */
    constructor (m: Mode)
      ensures Valid() && fresh(vals)
      ensures mode == m
      ensures vals[..] == seq(|Widths(m)|, _ => DefaultValue)
    {
      mode := m;
      vals := new real[|Widths(m)|](_ => DefaultValue);
      new;
      lastVals := vals[..];
      ghost var start := vals[..];
      assert Sorted(start);
      EnforceAll();
      PrefixMaxFixed(start);
      lastVals := vals[..];
    }

    /** Upward ripple from i: each later value is raised to its left
        neighbour when below it. */
    method EnforceUp(i: nat)
      requires i < vals.Length
      modifies vals
      ensures vals[..] == RippleUp(old(vals[..]), i)
    {
      ghost var s := vals[..];
      var j := i + 1;
      while j < vals.Length
        invariant i + 1 <= j <= vals.Length
        invariant UpSweptTo(vals[..], s, i, j)
      {
        UpSweepStep(vals[..], s, i, j);
        if vals[j] < vals[j - 1] {
          vals[j] := vals[j - 1];
        }
        j := j + 1;
      }
    }

    /** Downward ripple from i: each earlier value is lowered to its right
        neighbour when above it. */
    method EnforceDown(i: nat)
      requires i < vals.Length
      modifies vals
      ensures vals[..] == RippleDown(old(vals[..]), i)
    {
      ghost var s := vals[..];
      var j: int := i - 1;
      while j >= 0
        invariant -1 <= j < i
        invariant DownSweptTo(vals[..], s, i, j)
      {
        DownSweepStep(vals[..], s, i, j);
        if vals[j] > vals[j + 1] {
          vals[j] := vals[j + 1];
        }
        j := j - 1;
      }
    }

    /** The full repair: an upward sweep over the whole sequence, then a
        downward one.  Its first loop is, line for line, the upward ripple
        from index 0 and its second the downward ripple from the last index,
        so it runs those two.  The first sweep yields the prefix maximum,
        which is already ordered, so the second changes nothing. */
    method EnforceAll()
      modifies vals
      ensures vals[..] == PrefixMax(old(vals[..]))
    {
      if vals.Length == 0 {
        return;
      }
      ghost var s := vals[..];
      EnforceUp(0);
      EnforceDown(vals.Length - 1);
      FullRepair(s);
    }

    /** Writing a whole value list into the sliders. */
    method SetVals(vs: seq<real>)
      requires |vs| == vals.Length
      modifies vals
      ensures vals[..] == vs
    {
      forall k | 0 <= k < vals.Length {
        vals[k] := vs[k];
      }
    }

    /** After slider i took value x: dispatch on the last value seen there,
        then remember the current values.  The values end up in order again. */
    method Edit(i: nat, x: real)
      requires Valid() && i < vals.Length && 0.0 <= x
      modifies this, vals
      ensures Valid()
      ensures vals[..] == AfterEdit(old(vals[..]), i, x, old(lastVals[i]))
    {
      ghost var s := vals[..];
      EditKeepsOrder(s, i, x);
      vals[i] := x;
      assert vals[..] == s[i := x];
      var oldVal := lastVals[i];
      if x > oldVal {
        EnforceUp(i);
      } else if x < oldVal {
        EnforceDown(i);
      }
      lastVals := vals[..];
    }

    /** The slider input handler: the slider already holds x. */
    method SliderInput(i: nat, x: real)
      requires Valid() && i < vals.Length
      requires 0.0 <= x <= MaxValue
      modifies this, vals
      ensures Valid()
      ensures vals[..] == AfterEdit(old(vals[..]), i, x, old(lastVals[i]))
    {
      Edit(i, x);
    }

    /** Committing text box i: the entry is clamped into the slider range,
        written to the slider, and dispatched like a slider move. */
    method CommitBox(i: nat, e: Entry)
      requires Valid() && i < vals.Length
      modifies this, vals
      ensures Valid()
      ensures vals[..] == AfterEdit(old(vals[..]), i, CommitValue(e), old(lastVals[i]))
    {
      var val := CommitValue(e);
      Edit(i, val);
    }

    /** The normalize button: the values become Normalized(values), the
        repair runs, and the last-seen values are taken. */
    method Normalize()
      requires Valid()
      modifies this, vals
      ensures Valid()
      ensures vals[..] == Normalized(old(vals[..]), Widths(mode))
    {
      var v := vals[..];
      NormalizeReachesTarget(v, Widths(mode));
      var sum := WeightedTotal(v, Widths(mode));
      if sum <= 0.0 {
        return;
      }
      var scale := NormalizeTarget / sum;
      var newVals := Scaled(v, scale);
      SetVals(newVals);
      EnforceAll();
      lastVals := vals[..];
    }

    /** The "Actual 2025 Distribution" button: the preset of the current
        mode replaces the values and the repair leaves it as it is. */
    method LoadPreset()
      requires Valid()
      modifies this, vals
      ensures Valid()
      ensures vals[..] == Preset(mode)
    {
      PresetFits(mode);
      SetVals(Preset(mode));
      EnforceAll();
      lastVals := vals[..];
    }

    /** Each group's total and share as the chart displays them. */
    function Breakdown(): (r: (seq<real>, seq<real>))
      reads this, vals
      requires Valid()
      ensures |r.0| == |r.1| == vals.Length
      ensures Sum(r.0) != 0.0 ==> Sum(r.1) == 1.0
      ensures Sum(r.0) == 0.0 ==> forall k :: 0 <= k < vals.Length ==> r.1[k] == 0.0
    {
      var totals := GroupTotals(vals[..], Widths(mode));
      SharesOfTotals(totals);
      (totals, Shares(totals))
    }
  }

  /** The two cases of the share computation together. */
  lemma SharesOfTotals(totals: seq<real>)
    ensures |Shares(totals)| == |totals|
    ensures Sum(totals) != 0.0 ==> Sum(Shares(totals)) == 1.0
    ensures Sum(totals) == 0.0 && (forall k :: 0 <= k < |totals| ==> 0.0 <= totals[k])
      ==> forall k :: 0 <= k < |totals| ==> Shares(totals)[k] == 0.0
  {
    if Sum(totals) != 0.0 {
      SharesSumToOne(totals);
    } else if forall k :: 0 <= k < |totals| ==> 0.0 <= totals[k] {
      SharesZeroWhenTotalZero(totals);
    }
  }
}

/** Order-keeping repairs of the wealth sliders, stated on values.

    The slider engine keeps per-household wealth non-decreasing from the
    poorest group to the richest.  This module gives the closed forms of its
    three repairs: the upward ripple after a raise (a running maximum that
    starts at the edited group), the downward ripple after a lowering (a
    running minimum that ends at it), and the full repair (the prefix
    maximum).  The imperative loops in module Wealth are proved against
    these functions. */
module Monotone {

  /** Every value is at most every value to its right. */
  ghost predicate Sorted(s: seq<real>) {
    forall j, k :: 0 <= j <= k < |s| ==> s[j] <= s[k]
  }

  /** The invariant as the engine states it: each neighbour pair is in order. */
  ghost predicate AdjacentSorted(s: seq<real>) {
    forall j :: 0 <= j < |s| - 1 ==> s[j] <= s[j + 1]
  }

  function RealMax(a: real, b: real): real { if a < b then b else a }
  function RealMin(a: real, b: real): real { if b < a then b else a }

  /** The largest value of a non-empty run, taken left to right. */
  function Max(s: seq<real>): (r: real)
    requires |s| > 0
    ensures r in s
    ensures forall k :: 0 <= k < |s| ==> s[k] <= r
  {
    if |s| == 1 then s[0] else RealMax(Max(s[..|s| - 1]), s[|s| - 1])
  }

  /** The smallest value of a non-empty run, taken right to left. */
  function Min(s: seq<real>): (r: real)
    requires |s| > 0
    ensures r in s
    ensures forall k :: 0 <= k < |s| ==> r <= s[k]
  {
    if |s| == 1 then s[0] else RealMin(s[0], Min(s[1..]))
  }

  /** Result of the first sweep of the full repair: each value becomes the
      largest value at or below it. */
  function PrefixMax(s: seq<real>): seq<real> {
    seq(|s|, k requires 0 <= k < |s| => Max(s[..k + 1]))
  }

  /** Result of the upward ripple from index i: indices up to i are kept and
      every later value becomes the largest value between i and itself. */
  function RippleUp(s: seq<real>, i: nat): seq<real>
    requires i < |s|
  {
    seq(|s|, k requires 0 <= k < |s| => if k <= i then s[k] else Max(s[i..k + 1]))
  }

  /** Result of the downward ripple from index i: indices from i on are kept
      and every earlier value becomes the smallest value between itself and i. */
  function RippleDown(s: seq<real>, i: nat): seq<real>
    requires i < |s|
  {
    seq(|s|, k requires 0 <= k < |s| => if k < i then Min(s[k..i + 1]) else s[k])
  }

  // ---------------------------------------------------------------------
  // Basic facts about the running maximum and minimum
  // ---------------------------------------------------------------------

  /** Adding one more value on the right extends the running maximum. */
  lemma MaxSnoc(s: seq<real>, j: nat, k: nat)
    requires j < k < |s|
    ensures Max(s[j..k + 1]) == RealMax(Max(s[j..k]), s[k])
  {
    assert s[j..k + 1][..k - j] == s[j..k];
  }

  /** Adding one more value on the left extends the running minimum. */
  lemma MinCons(s: seq<real>, j: nat, k: nat)
    requires j < k < |s|
    ensures Min(s[j..k + 1]) == RealMin(s[j], Min(s[j + 1..k + 1]))
  {
    assert s[j..k + 1][1..] == s[j + 1..k + 1];
  }

  /** The maximum of a longer run from the same start is no smaller. */
  lemma {:induction false} MaxGrows(s: seq<real>, i: nat, j: nat, k: nat)
    requires i <= j <= k < |s|
    ensures Max(s[i..j + 1]) <= Max(s[i..k + 1])
    decreases k - j
  {
    if j < k {
      MaxGrows(s, i, j, k - 1);
      MaxSnoc(s, i, k);
    }
  }

  /** The minimum of a longer run to the same end is no larger. */
  lemma {:induction false} MinShrinks(s: seq<real>, i: nat, j: nat, k: nat)
    requires i <= j <= k < |s|
    ensures Min(s[i..k + 1]) <= Min(s[j..k + 1])
    decreases j - i
  {
    if i < j {
      MinShrinks(s, i + 1, j, k);
      MinCons(s, i, k);
    }
  }

  /** On an ordered run the maximum is the last value. */
  lemma MaxOfSorted(s: seq<real>)
    requires |s| > 0 && Sorted(s)
    ensures Max(s) == s[|s| - 1]
  {
    var r := Max(s);
    var m :| 0 <= m < |s| && s[m] == r;
  }

  /** On an ordered run the minimum is the first value. */
  lemma MinOfSorted(s: seq<real>)
    requires |s| > 0 && Sorted(s)
    ensures Min(s) == s[0]
  {
    var r := Min(s);
    var m :| 0 <= m < |s| && s[m] == r;
  }

  /** The neighbour-pair invariant and full order are the same thing. */
  lemma {:induction false} AdjacentSortedIffSorted(s: seq<real>)
    ensures AdjacentSorted(s) <==> Sorted(s)
  {
    if AdjacentSorted(s) {
      forall j, k | 0 <= j <= k < |s| ensures s[j] <= s[k] {
        AdjacentChain(s, j, k);
      }
    }
  }

  lemma {:induction false} AdjacentChain(s: seq<real>, j: nat, k: nat)
    requires AdjacentSorted(s) && j <= k < |s|
    ensures s[j] <= s[k]
    decreases k - j
  {
    if j < k {
      AdjacentChain(s, j + 1, k);
    }
  }

  // ---------------------------------------------------------------------
  // The full repair
  // ---------------------------------------------------------------------

  /** The full repair keeps the length and yields an ordered sequence that
      lies on or above the input. */
  lemma PrefixMaxSorted(s: seq<real>)
    ensures |PrefixMax(s)| == |s|
    ensures Sorted(PrefixMax(s))
    ensures forall k :: 0 <= k < |s| ==> s[k] <= PrefixMax(s)[k]
  {
    var p := PrefixMax(s);
    forall j, k | 0 <= j <= k < |s| ensures p[j] <= p[k] {
      MaxGrows(s, 0, j, k);
      assert s[0..j + 1] == s[..j + 1] && s[0..k + 1] == s[..k + 1];
    }
  }

  /** It is the least such sequence: any ordered sequence on or above the
      input is on or above the repair. */
  lemma PrefixMaxLeast(s: seq<real>, t: seq<real>)
    requires |t| == |s| && Sorted(t)
    requires forall k :: 0 <= k < |s| ==> s[k] <= t[k]
    ensures forall k :: 0 <= k < |s| ==> PrefixMax(s)[k] <= t[k]
  {
    forall k | 0 <= k < |s| ensures PrefixMax(s)[k] <= t[k] {
      var m :| 0 <= m < k + 1 && s[..k + 1][m] == Max(s[..k + 1]);
    }
  }

  /** The repair leaves a sequence unchanged exactly when it is already ordered. */
  lemma PrefixMaxFixed(s: seq<real>)
    ensures PrefixMax(s) == s <==> Sorted(s)
  {
    if Sorted(s) {
      forall k | 0 <= k < |s| ensures PrefixMax(s)[k] == s[k] {
        MaxOfSorted(s[..k + 1]);
      }
    } else {
      PrefixMaxSorted(s);
    }
  }

  /** Repairing twice is the same as repairing once. */
  lemma PrefixMaxIdempotent(s: seq<real>)
    ensures PrefixMax(PrefixMax(s)) == PrefixMax(s)
  {
    PrefixMaxSorted(s);
    PrefixMaxFixed(PrefixMax(s));
  }

  /** The first sweep of the full repair is the upward ripple from index 0. */
  lemma PrefixMaxIsRippleFromZero(s: seq<real>)
    requires |s| > 0
    ensures PrefixMax(s) == RippleUp(s, 0)
  {
    forall k | 0 <= k < |s| ensures PrefixMax(s)[k] == RippleUp(s, 0)[k] {
      assert s[0..k + 1] == s[..k + 1];
    }
  }

  // ---------------------------------------------------------------------
  // The ripples
  // ---------------------------------------------------------------------

  /** The upward ripple touches nothing at or below i and never lowers a value. */
  lemma RippleUpFrame(s: seq<real>, i: nat)
    requires i < |s|
    ensures |RippleUp(s, i)| == |s|
    ensures forall k :: 0 <= k <= i ==> RippleUp(s, i)[k] == s[k]
    ensures forall k :: 0 <= k < |s| ==> s[k] <= RippleUp(s, i)[k]
  {
    forall k | i < k < |s| ensures s[k] <= RippleUp(s, i)[k] {
      assert s[i..k + 1][k - i] == s[k];
    }
  }

  /** The downward ripple touches nothing at or above i and never raises a value. */
  lemma RippleDownFrame(s: seq<real>, i: nat)
    requires i < |s|
    ensures |RippleDown(s, i)| == |s|
    ensures forall k :: i <= k < |s| ==> RippleDown(s, i)[k] == s[k]
    ensures forall k :: 0 <= k < |s| ==> RippleDown(s, i)[k] <= s[k]
  {
    forall k | 0 <= k < i ensures RippleDown(s, i)[k] <= s[k] {
      assert s[k..i + 1][0] == s[k];
    }
  }

  /** If everything up to i is in order, the upward ripple orders the whole sequence. */
  lemma RippleUpSorts(s: seq<real>, i: nat)
    requires i < |s|
    requires Sorted(s[..i + 1])
    ensures Sorted(RippleUp(s, i))
  {
    forall j, k | 0 <= j <= k < |s| ensures RippleUp(s, i)[j] <= RippleUp(s, i)[k] {
      RippleUpPair(s, i, j, k);
    }
  }

  lemma RippleUpPair(s: seq<real>, i: nat, j: nat, k: nat)
    requires j <= k < |s| && i < |s|
    requires Sorted(s[..i + 1])
    ensures RippleUp(s, i)[j] <= RippleUp(s, i)[k]
  {
    var p := s[..i + 1];
    if k <= i {
      assert p[j] <= p[k];
      RippleUpFrame(s, i);
    } else if j <= i {
      assert p[j] <= p[i];
      RippleUpStraddle(s, i, j, k);
    } else {
      RippleUpAbove(s, i, j, k);
    }
  }

  lemma RippleUpStraddle(s: seq<real>, i: nat, j: nat, k: nat)
    requires j <= i < k < |s| && s[j] <= s[i]
    ensures RippleUp(s, i)[j] <= RippleUp(s, i)[k]
  {
    assert s[i..k + 1][0] == s[i];
  }

  lemma RippleUpAbove(s: seq<real>, i: nat, j: nat, k: nat)
    requires i < j <= k < |s|
    ensures RippleUp(s, i)[j] <= RippleUp(s, i)[k]
  {
    var r, a, b := RippleUp(s, i), Max(s[i..j + 1]), Max(s[i..k + 1]);
    assert r[j] == a && r[k] == b;
    MaxGrows(s, i, j, k);
  }



  /** If everything from i on is in order, the downward ripple orders the whole sequence. */
  lemma RippleDownSorts(s: seq<real>, i: nat)
    requires i < |s|
    requires Sorted(s[i..])
    ensures Sorted(RippleDown(s, i))
  {
    var r := RippleDown(s, i);
    forall j, k | 0 <= j <= k < |s| ensures r[j] <= r[k] {
      if i <= j {
        assert s[i..][j - i] == s[j] && s[i..][k - i] == s[k];
      } else if i <= k {
        assert s[i..][0] == s[i] && s[i..][k - i] == s[k];
        assert s[j..i + 1][i - j] == s[i];
      } else {
        MinShrinks(s, j, k, i);
      }
    }
  }

  /** Raising one value of an ordered sequence and rippling upward from it
      gives an ordered sequence again. */
  lemma RaiseThenRippleUp(s: seq<real>, i: nat, x: real)
    requires i < |s| && Sorted(s) && s[i] <= x
    ensures Sorted(RippleUp(s[i := x], i))
  {
    RippleUpSorts(s[i := x], i);
  }

  /** Lowering one value of an ordered sequence and rippling downward from
      it gives an ordered sequence again. */
  lemma LowerThenRippleDown(s: seq<real>, i: nat, x: real)
    requires i < |s| && Sorted(s) && x <= s[i]
    ensures Sorted(RippleDown(s[i := x], i))
  {
    RippleDownSorts(s[i := x], i);
  }

  // ---------------------------------------------------------------------
  // Partial sweeps, for the loop invariants of the in-place ripples
  // ---------------------------------------------------------------------

  /** The upward ripple from i has been applied to every index below j. */
  ghost predicate UpSweptTo(cur: seq<real>, s: seq<real>, i: nat, j: nat)
    requires i < j <= |s|
  {
    && |cur| == |s|
    && (forall k :: 0 <= k < j ==> cur[k] == RippleUp(s, i)[k])
    && (forall k :: j <= k < |s| ==> cur[k] == s[k])
  }

  /** The downward ripple from i has been applied to every index above j. */
  ghost predicate DownSweptTo(cur: seq<real>, s: seq<real>, i: nat, j: int)
    requires -1 <= j < i < |s|
  {
    && |cur| == |s|
    && (forall k :: 0 <= k <= j ==> cur[k] == s[k])
    && (forall k :: j < k < |s| ==> cur[k] == RippleDown(s, i)[k])
  }

  lemma UpSweepStep(cur: seq<real>, s: seq<real>, i: nat, j: nat)
    requires i < j < |s| && UpSweptTo(cur, s, i, j)
    ensures UpSweptTo(cur[j := if cur[j] < cur[j - 1] then cur[j - 1] else cur[j]], s, i, j + 1)
  {
    RippleUpNext(s, i, j);
    var next := cur[j := RealMax(cur[j - 1], cur[j])];
    assert next[j] == RippleUp(s, i)[j];
    assert forall k :: 0 <= k < j ==> next[k] == cur[k];
  }

  /** One step of the upward ripple: each value past i is the larger of its
      predecessor's new value and its own. */
  lemma RippleUpNext(s: seq<real>, i: nat, j: nat)
    requires i < j < |s|
    ensures RippleUp(s, i)[j] == RealMax(RippleUp(s, i)[j - 1], s[j])
  {
    MaxSnoc(s, i, j);
    if j - 1 == i {
      assert s[i..j] == [s[i]];
    }
  }

  lemma DownSweepStep(cur: seq<real>, s: seq<real>, i: nat, j: nat)
    requires j < i < |s| && DownSweptTo(cur, s, i, j)
    ensures DownSweptTo(cur[j := if cur[j] > cur[j + 1] then cur[j + 1] else cur[j]], s, i, j - 1)
  {
    MinCons(s, j, i);
    assert j + 1 == i ==> s[i..i + 1] == [s[i]];
  }

  /** The two sweeps of the full repair amount to the prefix maximum. */
  lemma FullRepair(s: seq<real>)
    requires |s| > 0
    ensures RippleDown(RippleUp(s, 0), |s| - 1) == PrefixMax(s)
  {
    PrefixMaxIsRippleFromZero(s);
    var t := PrefixMax(s);
    PrefixMaxSorted(s);
    RippleDownOfSorted(t, |s| - 1);
  }

  /** The downward ripple leaves an ordered sequence unchanged. */
  lemma RippleDownOfSorted(s: seq<real>, i: nat)
    requires i < |s| && Sorted(s)
    ensures RippleDown(s, i) == s
  {
    forall k | 0 <= k < i ensures RippleDown(s, i)[k] == s[k] {
      MinOfSorted(s[k..i + 1]);
    }
  }
}

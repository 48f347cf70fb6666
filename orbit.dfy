/** The distance-history buffer and simulated clock of the orbit simulator.

    Every animation frame advances a clock of simulated years by the real
    time since the previous frame times a speed factor, then records the
    current distance between the two planets in a history capped at
    MaxPoints samples, dropping the oldest.  The plot shows the samples of
    the last 8 * speedFactor simulated years.  Changing the inner radius
    resets the clock and the history. */
module Orbit {

  /** Capacity of the distance history. */
  const MaxPoints: nat := 2000
  /** The plot shows this many seconds' worth of simulated years. */
  const WindowSeconds: real := 8.0

  /** One recorded distance, at simulated time t (years), in AU. */
  datatype Sample = Sample(t: real, d: real)

  /** The timestamp of the previous frame, in milliseconds, or null. */
  datatype Stamp = Null | At(ms: real)

  /** JavaScript truthiness of the previous timestamp: null and 0 are false. */
  predicate Falsy(s: Stamp) {
    s.Null? || s.ms == 0.0
  }

  // ---------------------------------------------------------------------
  // The history buffer
  // ---------------------------------------------------------------------

  /** The last n elements of s (all of s when it has no more than n). */
  function LastN<T>(s: seq<T>, n: nat): seq<T> {
    if |s| <= n then s else s[|s| - n..]
  }

  /** Recording a sample: push it, then drop the oldest when over capacity. */
  function Recorded(h: seq<Sample>, x: Sample): (r: seq<Sample>)
    ensures |h| <= MaxPoints ==> |r| <= MaxPoints
    ensures |r| > 0 && r[|r| - 1] == x
    ensures |h| < MaxPoints ==> r == h + [x]
    ensures |h| == MaxPoints ==> r == h[1..] + [x]
  {
    var pushed := h + [x];
    if |pushed| > MaxPoints then pushed[1..] else pushed
  }

  /** Recording into a buffer within capacity keeps exactly the newest
      MaxPoints samples of the old history followed by the new one. */
  lemma RecordedKeepsNewest(h: seq<Sample>, x: Sample)
    requires |h| <= MaxPoints
    ensures Recorded(h, x) == LastN(h + [x], MaxPoints)
  {
  }

  /** Recording a run of samples one by one. */
  function RecordAll(h: seq<Sample>, xs: seq<Sample>): seq<Sample>
    decreases |xs|
  {
    if xs == [] then h else RecordAll(Recorded(h, xs[0]), xs[1..])
  }

  /** Taking the last n twice in a row is taking the last n once. */
  lemma LastNAppend<T>(a: seq<T>, b: seq<T>, n: nat)
    ensures LastN(LastN(a, n) + b, n) == LastN(a + b, n)
  {
    var a' := LastN(a, n);
    assert a' == a[|a| - |a'|..];
    var lhs := LastN(a' + b, n);
    var rhs := LastN(a + b, n);
    assert |lhs| == |rhs|;
    forall k | 0 <= k < |lhs| ensures lhs[k] == rhs[k] {
      assert lhs[k] == (a' + b)[|a' + b| - |lhs| + k];
      assert rhs[k] == (a + b)[|a + b| - |rhs| + k];
    }
  }

  /** However many samples are recorded, the history holds the newest
      MaxPoints of everything recorded, oldest first. */
  lemma {:induction false} RecordAllKeepsNewest(h: seq<Sample>, xs: seq<Sample>)
    requires |h| <= MaxPoints
    ensures RecordAll(h, xs) == LastN(h + xs, MaxPoints)
    decreases |xs|
  {
    if xs == [] {
      assert h + xs == h;
    } else {
      var h' := Recorded(h, xs[0]);
      RecordedKeepsNewest(h, xs[0]);
      RecordAllKeepsNewest(h', xs[1..]);
      LastNAppend(h + [xs[0]], xs[1..], MaxPoints);
      assert (h + [xs[0]]) + xs[1..] == h + xs;
    }
  }

  /** Recording MaxPoints + 1 samples into an empty history leaves exactly
      MaxPoints of them: all but the first. */
  lemma OneOverCapacityDropsFirst(xs: seq<Sample>)
    requires |xs| == MaxPoints + 1
    ensures RecordAll([], xs) == xs[1..]
    ensures |RecordAll([], xs)| == MaxPoints
  {
    RecordAllKeepsNewest([], xs);
    assert [] + xs == xs;
  }

  /** Sample times never go backwards along the history. */
  ghost predicate TimesOrdered(h: seq<Sample>) {
    forall j, k :: 0 <= j <= k < |h| ==> h[j].t <= h[k].t
  }

  /** Recording a sample no earlier than every sample held keeps the
      history in time order. */
  lemma RecordKeepsTimesOrdered(h: seq<Sample>, x: Sample)
    requires TimesOrdered(h)
    requires forall k :: 0 <= k < |h| ==> h[k].t <= x.t
    ensures TimesOrdered(Recorded(h, x))
    ensures forall k :: 0 <= k < |Recorded(h, x)| ==> Recorded(h, x)[k].t <= x.t
  {
    var r := Recorded(h, x);
    var pushed := h + [x];
    assert forall k :: 0 <= k < |pushed| ==> pushed[k].t <= x.t;
    assert forall j, k :: 0 <= j <= k < |pushed| ==> pushed[j].t <= pushed[k].t;
  }

  /** A frame at a non-negative speed whose stamp is no earlier than the
      previous one never moves the clock backwards. */
  lemma FrameAdvancesClock(stamp: Stamp, timestamp: real, speed: real)
    requires 0.0 <= speed && (stamp.At? ==> stamp.ms <= timestamp)
    ensures 0.0 <= Elapsed(stamp, timestamp) * speed
  {
    var e := Elapsed(stamp, timestamp);
    assert 0.0 <= e;
  }

  // ---------------------------------------------------------------------
  // The visible window
  // ---------------------------------------------------------------------

  /** The samples taken at or after tMin, in history order. */
  function Filter(h: seq<Sample>, tMin: real): (r: seq<Sample>)
    ensures |r| <= |h|
    ensures forall x :: x in r <==> x in h && x.t >= tMin
    ensures forall x :: multiset(r)[x] == (if x.t >= tMin then multiset(h)[x] else 0)
  {
    if h == [] then []
    else
      assert h == [h[0]] + h[1..];
      (if h[0].t >= tMin then [h[0]] else []) + Filter(h[1..], tMin)
  }

  /** a can be obtained from b by deleting elements. */
  ghost predicate IsSubsequence(a: seq<Sample>, b: seq<Sample>)
    decreases |b|
  {
    if a == [] then true
    else if b == [] then false
    else (a[0] == b[0] && IsSubsequence(a[1..], b[1..])) || IsSubsequence(a, b[1..])
  }

  /** The window keeps the history's order: it is a subsequence of it. */
  lemma {:induction false} FilterIsSubsequence(h: seq<Sample>, tMin: real)
    ensures IsSubsequence(Filter(h, tMin), h)
  {
    if h != [] {
      FilterIsSubsequence(h[1..], tMin);
      var rest := Filter(h[1..], tMin);
      if h[0].t >= tMin {
        assert Filter(h, tMin) == [h[0]] + rest;
        assert ([h[0]] + rest)[1..] == rest;
      } else {
        assert Filter(h, tMin) == rest;
        SubsequenceSkip(rest, h);
      }
    }
  }

  lemma SubsequenceSkip(a: seq<Sample>, b: seq<Sample>)
    requires b != [] && IsSubsequence(a, b[1..])
    ensures IsSubsequence(a, b)
  {
  }

  /** When every sample is recent enough the window is the whole history. */
  lemma {:induction false} FilterKeepsAll(h: seq<Sample>, tMin: real)
    requires forall k :: 0 <= k < |h| ==> h[k].t >= tMin
    ensures Filter(h, tMin) == h
  {
    if h != [] {
      FilterKeepsAll(h[1..], tMin);
      assert [h[0]] + h[1..] == h;
    }
  }

  /** a is a contiguous block at the end of b. */
  ghost predicate IsSuffix(a: seq<Sample>, b: seq<Sample>) {
    |a| <= |b| && a == b[|b| - |a|..]
  }

  /** On a time-ordered history the window is a contiguous block of the
      newest samples. */
  lemma {:induction false} WindowIsSuffix(h: seq<Sample>, tMin: real)
    requires TimesOrdered(h)
    ensures IsSuffix(Filter(h, tMin), h)
  {
    if h != [] {
      if h[0].t >= tMin {
        FilterKeepsAll(h, tMin);
      } else {
        var t := h[1..];
        assert TimesOrdered(t);
        WindowIsSuffix(t, tMin);
        assert Filter(h, tMin) == Filter(t, tMin);
        assert t[|t| - |Filter(t, tMin)|..] == h[|h| - |Filter(h, tMin)|..];
      }
    }
  }

  /** WindowIsSuffix with its precondition turned into a guard, so that
      OrbitSim.Visible, a function that cannot branch on the ghost
      TimesOrdered, can call it on any history.  The conclusion stays behind
      IsSuffix: with the slice spelled out, Visible's contract sends the
      solver into a matching loop against its multiset clause. */
  lemma WindowIsSuffixWhenOrdered(h: seq<Sample>, tMin: real)
    ensures TimesOrdered(h) ==> IsSuffix(Filter(h, tMin), h)
  {
    if TimesOrdered(h) {
      WindowIsSuffix(h, tMin);
    }
  }

  // ---------------------------------------------------------------------
  // The clock
  // ---------------------------------------------------------------------

  /** Real seconds since the previous frame; a frame after a reset, or after
      a frame stamped 0, counts as the first and contributes nothing. */
  function Elapsed(last: Stamp, timestamp: real): (r: real)
    ensures Falsy(last) ==> r == 0.0
    ensures !Falsy(last) && last.ms <= timestamp ==> 0.0 <= r
  {
    var start := if Falsy(last) then timestamp else last.ms;
    (timestamp - start) / 1000.0
  }

  /** The clock state (previous stamp, simulated years) after a run of frames. */
  function Run(last: Stamp, years: real, speedFactor: real, stamps: seq<real>): (Stamp, real)
    decreases |stamps|
  {
    if stamps == [] then (last, years)
    else Run(At(stamps[0]), years + Elapsed(last, stamps[0]) * speedFactor, speedFactor, stamps[1..])
  }

  /** Over a run of non-zero frame stamps at a fixed speed, the clock gains
      the speed times the real seconds between the previous stamp and the
      last one. */
  lemma {:induction false} RunTelescopes(t0: real, years: real, speedFactor: real, stamps: seq<real>)
    requires t0 != 0.0 && |stamps| > 0
    requires forall k :: 0 <= k < |stamps| ==> stamps[k] != 0.0
    ensures Run(At(t0), years, speedFactor, stamps).1
      == years + (stamps[|stamps| - 1] - t0) / 1000.0 * speedFactor
    decreases |stamps|
  {
    var y1 := years + (stamps[0] - t0) / 1000.0 * speedFactor;
    var e := Elapsed(At(t0), stamps[0]);
    assert e == (stamps[0] - t0) / 1000.0;
    assert years + e * speedFactor == y1;
    RunStep(At(t0), years, y1, speedFactor, stamps);
    var rest := Run(At(stamps[0]), y1, speedFactor, stamps[1..]);
    if |stamps| > 1 {
      RunTelescopes(stamps[0], y1, speedFactor, stamps[1..]);
      var last := stamps[|stamps| - 1];
      assert stamps[1..][|stamps[1..]| - 1] == last;
      assert rest.1 == y1 + (last - stamps[0]) / 1000.0 * speedFactor;
      Distribute(years, t0, stamps[0], last, speedFactor);
    } else {
      assert stamps[1..] == [];
    }
  }

  /** One frame of a run: the clock moves to next and the stamp to the frame's. */
  lemma RunStep(last: Stamp, years: real, next: real, speedFactor: real, stamps: seq<real>)
    requires |stamps| > 0 && next == years + Elapsed(last, stamps[0]) * speedFactor
    ensures Run(last, years, speedFactor, stamps) == Run(At(stamps[0]), next, speedFactor, stamps[1..])
  {
  }

  /** Two consecutive stretches of real time add up at a fixed speed. */
  lemma Distribute(years: real, t0: real, t1: real, t2: real, c: real)
    ensures years + (t1 - t0) / 1000.0 * c + (t2 - t1) / 1000.0 * c == years + (t2 - t0) / 1000.0 * c
  {
    assert (t1 - t0) / 1000.0 * c + (t2 - t1) / 1000.0 * c == ((t1 - t0) + (t2 - t1)) / 1000.0 * c;
  }

  /** After a reset, the clock counts speed times the real seconds since the
      first frame: that frame itself contributes nothing. */
  lemma ClockSinceReset(speedFactor: real, stamps: seq<real>)
    requires |stamps| > 0
    requires forall k :: 0 <= k < |stamps| ==> stamps[k] != 0.0
    ensures Run(Null, 0.0, speedFactor, stamps).1
      == (stamps[|stamps| - 1] - stamps[0]) / 1000.0 * speedFactor
  {
    assert Elapsed(Null, stamps[0]) * speedFactor == 0.0;
    RunStep(Null, 0.0, 0.0, speedFactor, stamps);
    if |stamps| > 1 {
      RunTelescopes(stamps[0], 0.0, speedFactor, stamps[1..]);
    } else {
      assert stamps[1..] == [];
    }
  }

  // ---------------------------------------------------------------------
  // The simulator state
  // ---------------------------------------------------------------------

  class OrbitSim {
    var innerRadius: real
    var speedFactor: real
    /** Simulated years since the last reset. */
    var simYears: real
    var lastTimestamp: Stamp
    var history: seq<Sample>

    ghost predicate Valid()
      reads this
    {
      |history| <= MaxPoints
    }

    /** Samples are in time order and none is later than the clock. */
    ghost predicate Chronological()
      reads this
    {
      TimesOrdered(history) && forall k :: 0 <= k < |history| ==> history[k].t <= simYears
    }

    /** Page load: the sliders' radius and speed, the clock at 0, no
        previous frame, an empty history. */
    constructor (radius: real, speed: real)
      ensures Valid() && Chronological()
      ensures innerRadius == radius && speedFactor == speed
      ensures simYears == 0.0 && lastTimestamp == Null && history == []
    {
      innerRadius, speedFactor := radius, speed;
      simYears := 0.0;
      lastTimestamp := Null;
      history := [];
    }

    /** Clock to 0, no previous frame, empty history. */
    method ResetSim()
      modifies this
      ensures Valid() && Chronological()
      ensures simYears == 0.0 && lastTimestamp == Null && history == []
      ensures innerRadius == old(innerRadius) && speedFactor == old(speedFactor)
    {
      simYears := 0.0;
      lastTimestamp := Null;
      history := [];
    }

    /** A radius change, from the slider or a planet button, always resets
        the simulation. */
    method SetRadius(r: real)
      modifies this
      ensures Valid() && Chronological()
      ensures innerRadius == r && speedFactor == old(speedFactor)
      ensures simYears == 0.0 && lastTimestamp == Null && history == []
    {
      innerRadius := r;
      ResetSim();
    }

    /** A speed change takes effect from the next frame on; nothing is reset. */
    method SetSpeed(s: real)
      modifies this
      ensures speedFactor == s
      ensures innerRadius == old(innerRadius) && simYears == old(simYears)
      ensures lastTimestamp == old(lastTimestamp) && history == old(history)
    {
      speedFactor := s;
    }

    /** The clock part of a frame. */
    method Advance(timestamp: real)
      modifies this
      ensures simYears == old(simYears) + Elapsed(old(lastTimestamp), timestamp) * speedFactor
      ensures lastTimestamp == At(timestamp)
      ensures innerRadius == old(innerRadius) && speedFactor == old(speedFactor)
      ensures history == old(history)
    {
      if Falsy(lastTimestamp) {
        lastTimestamp := At(timestamp);
      }
      var elapsed := (timestamp - lastTimestamp.ms) / 1000.0;
      lastTimestamp := At(timestamp);
      simYears := simYears + elapsed * speedFactor;
    }

    /** Push the sample taken now, then drop the oldest if over capacity. */
    method Record(d: real)
      requires Valid()
      modifies this
      ensures Valid()
      ensures history == Recorded(old(history), Sample(simYears, d))
      ensures innerRadius == old(innerRadius) && speedFactor == old(speedFactor)
      ensures simYears == old(simYears) && lastTimestamp == old(lastTimestamp)
    {
      history := history + [Sample(simYears, d)];
      if |history| > MaxPoints {
        history := history[1..];
      }
    }

    /** One animation frame: advance the clock, then record the distance d
        between the planets at the new time.  When the clock cannot go
        backwards (a later stamp, a non-negative speed), the history stays in
        time order. */
    method Animate(timestamp: real, d: real)
      requires Valid()
      modifies this
      ensures Valid()
      ensures simYears == old(simYears) + Elapsed(old(lastTimestamp), timestamp) * speedFactor
      ensures innerRadius == old(innerRadius) && speedFactor == old(speedFactor)
      ensures lastTimestamp == At(timestamp)
      ensures history == Recorded(old(history), Sample(simYears, d))
      ensures old(Chronological()) && 0.0 <= speedFactor
        && (old(lastTimestamp).At? ==> old(lastTimestamp).ms <= timestamp)
        ==> Chronological()
    {
      ghost var chrono := Chronological();
      ghost var h0, y0, stamp0 := history, simYears, lastTimestamp;
      Advance(timestamp);
      Record(d);
      if chrono && 0.0 <= speedFactor && (stamp0.At? ==> stamp0.ms <= timestamp) {
        FrameAdvancesClock(stamp0, timestamp, speedFactor);
        assert forall k :: 0 <= k < |h0| ==> h0[k].t <= simYears;
        RecordKeepsTimesOrdered(h0, Sample(simYears, d));
      }
    }

    /** The earliest simulated time the plot shows: WindowSeconds of real
        time at the current speed before the current time. */
    function WindowStart(): real
      reads this
    {
      simYears - speedFactor * WindowSeconds
    }

    /** The samples the plot draws this frame. */
    function Visible(): (r: seq<Sample>)
      reads this
      ensures forall x :: x in r <==> x in history && x.t >= WindowStart()
      ensures forall x :: multiset(r)[x] == (if x.t >= WindowStart() then multiset(history)[x] else 0)
      ensures |r| <= |history|
      ensures TimesOrdered(history) ==> IsSuffix(r, history)
    {
      WindowIsSuffixWhenOrdered(history, WindowStart());
      Filter(history, WindowStart())
    }
  }
}

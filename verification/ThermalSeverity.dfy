/**
 Throttling severity with hysteresis (thermal/ThermalHelper.cpp:352-391): the loop over the levels, and why
 every level behaves as a latch that is set at its threshold and released below its release point.
 */
module ThermalSeverity {
  import opened Wrappers

  /** NONE, LIGHT, MODERATE, SEVERE, CRITICAL, EMERGENCY, SHUTDOWN. */
  type Severity = k: int | 0 <= k <= 6

  const NONE: Severity := 0
  const SHUTDOWN: Severity := 6

  /** One direction's configuration; a level whose threshold is not a number is not used. */
  datatype Levels = Levels(thresholds: seq<Option<real>>, hysteresis: seq<real>) {
    predicate Complete() {
      |thresholds| == 7 && |hysteresis| == 7
    }

    predicate Used(s: Severity)
      requires Complete()
    {
      thresholds[s].Some?
    }

    predicate Reached(s: Severity, v: real)
      requires Complete()
    {
      Used(s) && thresholds[s].value <= v
    }

    function Release(s: Severity): real
      requires Complete() && Used(s)
    {
      thresholds[s].value - hysteresis[s]
    }

    predicate Held(s: Severity, v: real)
      requires Complete()
    {
      Used(s) && Release(s) < v
    }

    /** Thresholds rise with the level, as the configuration parser demands. */
    ghost predicate Rising()
      requires Complete()
    {
      forall i: Severity, j: Severity :: 0 < i < j && Used(i) && Used(j) ==> thresholds[i].value <= thresholds[j].value
    }

    /** A level is released no lower than the next lower level is reached. */
    ghost predicate Separated()
      requires Complete()
    {
      forall i: Severity, j: Severity :: 0 < i < j && Used(i) && Used(j) ==> thresholds[i].value <= Release(j)
    }

    /** Every level with another one above its threshold has a positive hysteresis. */
    ghost predicate PositiveBelowTheTop()
      requires Complete()
    {
      forall i: Severity, j: Severity ::
        0 < i < j && Used(i) && Used(j) && thresholds[i].value < thresholds[j].value ==> 0.0 < hysteresis[i]
    }

    ghost predicate Orderly() {
      Complete() && Rising() && Separated() && PositiveBelowTheTop()
    }

    /** Levels a severity can have come from: NONE and the used ones. */
    predicate Possible(s: Severity)
      requires Complete()
    {
      s == NONE || Used(s)
    }

    /** The same configuration seen from below. */
    function Mirrored(): (m: Levels)
      ensures m.Complete() <==> Complete()
    {
      Levels(seq(|thresholds|, i requires 0 <= i < |thresholds| => match thresholds[i] case None => None case Some(t) => Some(-t)),
             hysteresis)
    }
  }

  // --- The highest level ---

  function HighestReached(l: Levels, v: real, n: Severity): Severity
    requires l.Complete()
  {
    if n == 0 then NONE else if l.Reached(n, v) then n else HighestReached(l, v, n - 1)
  }

  function HighestHeld(l: Levels, v: real, n: Severity): Severity
    requires l.Complete()
  {
    if n == 0 then NONE else if l.Held(n, v) then n else HighestHeld(l, v, n - 1)
  }

  function Raw(l: Levels, v: real): Severity
    requires l.Complete()
  {
    HighestReached(l, v, SHUTDOWN)
  }

  /** Falling severities are looked up with hysteresis, others without. */
  function Next(l: Levels, previous: Severity, v: real): Severity
    requires l.Complete()
  {
    if Raw(l, v) < previous then HighestHeld(l, v, SHUTDOWN) else Raw(l, v)
  }

  lemma {:induction false} HighestReachedIsHighest(l: Levels, v: real, n: Severity)
    requires l.Complete()
    ensures var s := HighestReached(l, v, n); s <= n && (s == NONE || l.Reached(s, v))
    ensures forall i: Severity :: HighestReached(l, v, n) < i <= n ==> !l.Reached(i, v)
  {
    if n != 0 && !l.Reached(n, v) {
      HighestReachedIsHighest(l, v, n - 1);
    }
  }

  lemma {:induction false} HighestHeldIsHighest(l: Levels, v: real, n: Severity)
    requires l.Complete()
    ensures var s := HighestHeld(l, v, n); s <= n && (s == NONE || l.Held(s, v))
    ensures forall i: Severity :: HighestHeld(l, v, n) < i <= n ==> !l.Held(i, v)
  {
    if n != 0 && !l.Held(n, v) {
      HighestHeldIsHighest(l, v, n - 1);
    }
  }

  /** The one loop over the levels, downward, for both directions. */
  method GetSeverityFromThresholds(hot: Levels, cold: Levels, prevHot: Severity, prevCold: Severity, value: real)
    returns (retHot: Severity, retCold: Severity)
    requires hot.Complete() && cold.Complete()
    ensures retHot == Next(hot, prevHot, value)
    ensures retCold == Next(cold.Mirrored(), prevCold, -value)
  {
    var retHotHysteresis: Severity, retColdHysteresis: Severity := NONE, NONE;
    retHot, retCold := NONE, NONE;
    ghost var mirror := cold.Mirrored();
    var i: Severity := SHUTDOWN;
    while i > NONE
      invariant Raw(hot, value) == if retHot == NONE then HighestReached(hot, value, i) else retHot
      invariant Raw(mirror, -value) == if retCold == NONE then HighestReached(mirror, -value, i) else retCold
      invariant HighestHeld(hot, value, SHUTDOWN)
             == if retHotHysteresis == NONE then HighestHeld(hot, value, i) else retHotHysteresis
      invariant HighestHeld(mirror, -value, SHUTDOWN)
             == if retColdHysteresis == NONE then HighestHeld(mirror, -value, i) else retColdHysteresis
    {
      MirroredLevel(cold, i, value);
      if hot.thresholds[i].Some? && hot.thresholds[i].value <= value && retHot == NONE {
        retHot := i;
      }
      if hot.thresholds[i].Some? && hot.thresholds[i].value - hot.hysteresis[i] < value && retHotHysteresis == NONE {
        retHotHysteresis := i;
      }
      if cold.thresholds[i].Some? && cold.thresholds[i].value >= value && retCold == NONE {
        retCold := i;
      }
      if cold.thresholds[i].Some? && cold.thresholds[i].value + cold.hysteresis[i] > value && retColdHysteresis == NONE {
        retColdHysteresis := i;
      }
      i := i - 1;
    }
    if retHot < prevHot {
      retHot := retHotHysteresis;
    }
    if retCold < prevCold {
      retCold := retColdHysteresis;
    }
  }

  /** What the cold half of the loop tests is what the hot half would test on negated numbers. */
  lemma MirroredLevel(cold: Levels, s: Severity, v: real)
    requires cold.Complete()
    ensures cold.Mirrored().Used(s) <==> cold.Used(s)
    ensures cold.Mirrored().Reached(s, -v) <==> cold.Used(s) && cold.thresholds[s].value >= v
    ensures cold.Mirrored().Held(s, -v) <==> cold.Used(s) && cold.thresholds[s].value + cold.hysteresis[s] > v
  {
  }

  /** A level or a higher one is reached. */
  ghost predicate SomeReached(l: Levels, s: Severity, v: real)
    requires l.Complete()
  {
    exists i: Severity :: s <= i && l.thresholds[i].Some? && l.thresholds[i].value <= v
  }

  /** A level or a higher one has not been left below its release point. */
  ghost predicate SomeHeld(l: Levels, s: Severity, v: real)
    requires l.Complete()
  {
    exists i: Severity :: s <= i && l.thresholds[i].Some? && l.thresholds[i].value - l.hysteresis[i] < v
  }

  /** In numbers: while the reading reaches the previous severity, the severity is the highest level whose threshold the reading
      has reached; otherwise it is the highest whose release point the reading is above. */
  lemma SeverityInNumbers(l: Levels, previous: Severity, v: real, s: Severity)
    requires l.Complete() && 0 < s
    ensures s <= Next(l, previous, v) <==>
              if previous == NONE || SomeReached(l, previous, v) then SomeReached(l, s, v) else SomeHeld(l, s, v)
  {
    RawInNumbers(l, v, s);
    HeldInNumbers(l, v, s);
    if previous != NONE {
      RawInNumbers(l, v, previous);
    }
  }

  lemma RawInNumbers(l: Levels, v: real, s: Severity)
    requires l.Complete() && 0 < s
    ensures s <= Raw(l, v) <==> SomeReached(l, s, v)
  {
    HighestReachedIsHighest(l, v, SHUTDOWN);
    var n := Raw(l, v);
    if s <= n {
      assert l.Reached(n, v);
    }
    if i: Severity :| s <= i && l.thresholds[i].Some? && l.thresholds[i].value <= v {
      assert l.Reached(i, v);
    }
  }

  lemma HeldInNumbers(l: Levels, v: real, s: Severity)
    requires l.Complete() && 0 < s
    ensures s <= HighestHeld(l, v, SHUTDOWN) <==> SomeHeld(l, s, v)
  {
    HighestHeldIsHighest(l, v, SHUTDOWN);
    var n := HighestHeld(l, v, SHUTDOWN);
    if s <= n {
      assert l.Held(n, v);
    }
    if i: Severity :| s <= i && l.thresholds[i].Some? && l.thresholds[i].value - l.hysteresis[i] < v {
      assert l.Held(i, v);
    }
  }

  // --- Every level is a latch ---

  /** A latch with two thresholds, as a reference. */
  predicate Latched(l: Levels, s: Severity, was: bool, v: real)
    requires l.Complete() && l.Used(s)
  {
    l.Reached(s, v) || (was && l.Held(s, v))
  }

  lemma SeveritiesArePossible(l: Levels, previous: Severity, v: real)
    requires l.Complete()
    ensures l.Possible(Next(l, previous, v))
  {
    HighestReachedIsHighest(l, v, SHUTDOWN);
    HighestHeldIsHighest(l, v, SHUTDOWN);
  }

  /** With hysteresis the severity never drops below what the reading alone says nor rises above it. */
  lemma NextIsBetween(l: Levels, previous: Severity, v: real)
    requires l.Orderly() && l.Possible(previous)
    ensures Raw(l, v) <= Next(l, previous, v) <= if Raw(l, v) < previous then previous else Raw(l, v)
  {
    HighestReachedIsHighest(l, v, SHUTDOWN);
    HighestHeldIsHighest(l, v, SHUTDOWN);
    var raw, held := Raw(l, v), HighestHeld(l, v, SHUTDOWN);
    if raw < previous {
      assert !l.Reached(previous, v) && (raw != NONE ==> l.Used(previous) && l.Held(raw, v));
      assert held <= previous;
    }
  }

  /**
   The severity is at or above a used level after a reading exactly if the reading reaches the level, or the
   severity was there before and the reading is above the level's release point.
   */
  lemma EveryLevelIsALatch(l: Levels, s: Severity, previous: Severity, v: real)
    requires l.Orderly() && l.Possible(previous) && 0 < s && l.Used(s)
    ensures s <= Next(l, previous, v) <==> Latched(l, s, s <= previous, v)
  {
    HighestReachedIsHighest(l, v, SHUTDOWN);
    HighestHeldIsHighest(l, v, SHUTDOWN);
    NextIsBetween(l, previous, v);
    var raw, held := Raw(l, v), HighestHeld(l, v, SHUTDOWN);
    assert s <= raw ==> l.Reached(s, v);
    if raw < s <= held {
      assert l.Held(held, v) && !l.Reached(s, v);
      assert s == held;
    }
  }

  /** A higher reading or a higher previous severity never gives a lower severity. */
  lemma NextIsMonotone(l: Levels, p: Severity, q: Severity, v: real, w: real)
    requires l.Orderly() && l.Possible(p) && l.Possible(q) && p <= q && v <= w
    ensures Next(l, p, v) <= Next(l, q, w)
  {
    var s := Next(l, p, v);
    SeveritiesArePossible(l, p, v);
    if s != NONE {
      EveryLevelIsALatch(l, s, p, v);
      EveryLevelIsALatch(l, s, q, w);
    }
  }

  /** A repeated reading changes nothing. */
  lemma NextIsIdempotent(l: Levels, previous: Severity, v: real)
    requires l.Orderly() && l.Possible(previous)
    ensures Next(l, Next(l, previous, v), v) == Next(l, previous, v)
  {
    var s := Next(l, previous, v);
    SeveritiesArePossible(l, previous, v);
    SeveritiesArePossible(l, s, v);
    var t := Next(l, s, v);
    if s != NONE {
      EveryLevelIsALatch(l, s, previous, v);
      EveryLevelIsALatch(l, s, s, v);
    }
    if t != NONE {
      EveryLevelIsALatch(l, t, previous, v);
      EveryLevelIsALatch(l, t, s, v);
    }
  }

  /** The readings that keep a severity: at its threshold or above its release point, and below every higher threshold. */
  ghost predicate InBand(l: Levels, s: Severity, v: real)
    requires l.Complete()
  {
    (s == NONE || l.Reached(s, v) || l.Held(s, v)) && forall j: Severity :: s < j ==> !l.Reached(j, v)
  }

  lemma SeverityIsKeptExactlyInBand(l: Levels, s: Severity, v: real)
    requires l.Orderly() && l.Possible(s)
    ensures Next(l, s, v) == s <==> InBand(l, s, v)
  {
    var t := Next(l, s, v);
    SeveritiesArePossible(l, s, v);
    if s != NONE {
      EveryLevelIsALatch(l, s, s, v);
    }
    if t != NONE {
      EveryLevelIsALatch(l, t, s, v);
    }
    forall j: Severity | s < j && l.Reached(j, v) ensures s < t {
      EveryLevelIsALatch(l, j, s, v);
    }
  }

  // --- Runs of readings ---

  function SeverityAfter(l: Levels, previous: Severity, vs: seq<real>): Severity
    requires l.Complete()
    decreases |vs|
  {
    if vs == [] then previous else SeverityAfter(l, Next(l, previous, vs[0]), vs[1..])
  }

  predicate LatchAfter(l: Levels, s: Severity, was: bool, vs: seq<real>)
    requires l.Complete() && l.Used(s)
    decreases |vs|
  {
    if vs == [] then was else LatchAfter(l, s, Latched(l, s, was, vs[0]), vs[1..])
  }

  /** After any run the severity is at or above a level exactly if that level's own latch is set. */
  lemma {:induction false} RunsLatchEveryLevel(l: Levels, s: Severity, previous: Severity, vs: seq<real>)
    requires l.Orderly() && l.Possible(previous) && 0 < s && l.Used(s)
    ensures l.Possible(SeverityAfter(l, previous, vs))
    ensures s <= SeverityAfter(l, previous, vs) <==> LatchAfter(l, s, s <= previous, vs)
    decreases |vs|
  {
    if vs != [] {
      SeveritiesArePossible(l, previous, vs[0]);
      EveryLevelIsALatch(l, s, previous, vs[0]);
      RunsLatchEveryLevel(l, s, Next(l, previous, vs[0]), vs[1..]);
    }
  }

  lemma {:induction false} RunsStayPossible(l: Levels, previous: Severity, vs: seq<real>)
    requires l.Complete() && l.Possible(previous)
    ensures l.Possible(SeverityAfter(l, previous, vs))
    decreases |vs|
  {
    if vs != [] {
      SeveritiesArePossible(l, previous, vs[0]);
      RunsStayPossible(l, Next(l, previous, vs[0]), vs[1..]);
    }
  }

  /** Readings that start from NONE set the latch of the level or of a higher one. */
  ghost predicate LatchedAtOrAbove(l: Levels, s: Severity, vs: seq<real>)
    requires l.Complete()
  {
    exists t: Severity :: s <= t && l.Used(t) && LatchAfter(l, t, false, vs)
  }

  /** A level that is not used is reached through the used levels above it. */
  lemma RunsLatchSomeLevel(l: Levels, s: Severity, vs: seq<real>)
    requires l.Orderly() && 0 < s
    ensures s <= SeverityAfter(l, NONE, vs) <==> LatchedAtOrAbove(l, s, vs)
  {
    RunsStayPossible(l, NONE, vs);
    var after := SeverityAfter(l, NONE, vs);
    if s <= after {
      RunsLatchEveryLevel(l, after, NONE, vs);
      assert LatchAfter(l, after, false, vs);
    }
    forall t: Severity | s <= t && l.Used(t) ensures LatchAfter(l, t, false, vs) ==> s <= after {
      RunsLatchEveryLevel(l, t, NONE, vs);
    }
  }

  /** No run inside the band changes the severity. */
  lemma {:induction false} RunsInBandKeepTheSeverity(l: Levels, s: Severity, vs: seq<real>)
    requires l.Orderly() && l.Possible(s) && forall v :: v in vs ==> InBand(l, s, v)
    ensures SeverityAfter(l, s, vs) == s
  {
    if vs != [] {
      assert vs[0] in vs;
      SeverityIsKeptExactlyInBand(l, s, vs[0]);
      RunsInBandKeepTheSeverity(l, s, vs[1..]);
    }
  }

  function Distance(a: real, b: real): (d: real)
    ensures d >= 0.0
  {
    if a <= b then b - a else a - b
  }

  /** How far the readings travel. */
  function Travel(v: real, vs: seq<real>): (d: real)
    ensures d >= 0.0
    decreases |vs|
  {
    if vs == [] then 0.0 else Distance(v, vs[0]) + Travel(vs[0], vs[1..])
  }

  /** How often the severity crosses a level. */
  function Crossings(l: Levels, s: Severity, previous: Severity, vs: seq<real>): nat
    requires l.Complete()
    decreases |vs|
  {
    if vs == [] then 0
    else
      var next := Next(l, previous, vs[0]);
      (if (s <= previous) != (s <= next) then 1 else 0) + Crossings(l, s, next, vs[1..])
  }

  function Times(n: nat, h: real): real {
    if n == 0 then 0.0 else h + Times(n - 1, h)
  }

  /** How far a reading is from crossing a level. */
  function Margin(l: Levels, s: Severity, previous: Severity, v: real): real
    requires l.Complete() && l.Used(s)
  {
    if s <= previous then v - l.Release(s) else l.thresholds[s].value - v
  }

  /** Hysteresis stops flapping: after its first crossing, every further crossing of a level costs the readings
      a travel of the level's whole hysteresis. */
  lemma {:induction false} CrossingsCostTravel(l: Levels, s: Severity, previous: Severity, v: real, vs: seq<real>)
    requires l.Orderly() && l.Possible(previous) && 0 < s && l.Used(s)
    ensures var n := Crossings(l, s, previous, vs);
            n != 0 ==> Margin(l, s, previous, v) + Times(n - 1, l.hysteresis[s]) <= Travel(v, vs)
    decreases |vs|
  {
    if vs != [] {
      var next := Next(l, previous, vs[0]);
      SeveritiesArePossible(l, previous, vs[0]);
      EveryLevelIsALatch(l, s, previous, vs[0]);
      CrossingsCostTravel(l, s, next, vs[0], vs[1..]);
    }
  }

  // --- With too much hysteresis ---

  /** A reading that does not reach the next severity never raises it. */
  ghost predicate NeverAboveBoth(l: Levels)
    requires l.Complete()
  {
    forall previous: Severity, v: real ::
      l.Possible(previous) ==> Next(l, previous, v) <= if Raw(l, v) < previous then previous else Raw(l, v)
  }

  /** The parser lets a level be released below the threshold of a lower one; then a falling reading can raise the severity. */
  lemma NeverAboveBothExactlyIfSeparated(l: Levels)
    requires l.Complete() && l.Rising()
    ensures NeverAboveBoth(l) <==> l.Separated()
  {
    if l.Separated() {
      forall previous: Severity, v: real | l.Possible(previous)
        ensures Next(l, previous, v) <= if Raw(l, v) < previous then previous else Raw(l, v)
      {
        HighestReachedIsHighest(l, v, SHUTDOWN);
        HighestHeldIsHighest(l, v, SHUTDOWN);
        assert Next(l, previous, v) > previous > Raw(l, v) ==> l.Reached(previous, v);
      }
    }
    if NeverAboveBoth(l) {
      forall i: Severity, j: Severity | 0 < i < j && l.Used(i) && l.Used(j)
        ensures l.thresholds[i].value <= l.Release(j)
      {
        if l.Release(j) < l.thresholds[i].value {
          FallingBelowAThreshold(l, i, j);
          assert false;
        }
      }
    }
  }

  /** Halfway between the release point and the threshold of a lower level, that level is not reached any more. */
  lemma FallingBelowAThreshold(l: Levels, i: Severity, j: Severity)
    requires l.Complete() && l.Rising() && 0 < i < j && l.Used(i) && l.Used(j) && l.Release(j) < l.thresholds[i].value
    ensures var v := (l.Release(j) + l.thresholds[i].value) / 2.0; Raw(l, v) < i < j <= Next(l, i, v)
  {
    var v := (l.Release(j) + l.thresholds[i].value) / 2.0;
    HighestReachedIsHighest(l, v, SHUTDOWN);
    HighestHeldIsHighest(l, v, SHUTDOWN);
    assert !l.Reached(i, v) && l.Held(j, v);
    assert forall k: Severity :: i < k && l.Used(k) ==> l.thresholds[i].value <= l.thresholds[k].value;
  }

  /** LIGHT at 40 and MODERATE at 42, both with a hysteresis of 5. */
  const CLOSE := Levels([None, Some(40.0), Some(42.0), None, None, None, None], [0.0, 5.0, 5.0, 0.0, 0.0, 0.0, 0.0])

  lemma CloseLevels()
    ensures CLOSE.Complete() && forall s: Severity :: CLOSE.Used(s) <==> s == 1 || s == 2
    ensures CLOSE.Rising() && CLOSE.PositiveBelowTheTop() && !CLOSE.Separated()
  {
    assert CLOSE.Used(1) && CLOSE.Used(2) && CLOSE.thresholds[1].value == 40.0 && CLOSE.Release(2) == 37.0;
  }

  /** Cooling from 40 to 38, where no level is reached, raises the severity from LIGHT to MODERATE. */
  lemma CoolingRaisesTheSeverity()
    ensures CLOSE.Complete() && CLOSE.Rising() && CLOSE.PositiveBelowTheTop() && !CLOSE.Separated()
    ensures Next(CLOSE, NONE, 40.0) == 1 && Raw(CLOSE, 38.0) == NONE && Next(CLOSE, 1, 38.0) == 2
  {
    CloseLevels();
    HighestReachedIsHighest(CLOSE, 40.0, SHUTDOWN);
    HighestReachedIsHighest(CLOSE, 38.0, SHUTDOWN);
    HighestHeldIsHighest(CLOSE, 38.0, SHUTDOWN);
    assert CLOSE.Reached(1, 40.0) && CLOSE.Held(2, 38.0);
  }

  // --- Without hysteresis ---

  /** A configuration never reports less than the reading alone does. */
  ghost predicate NeverBelowTheReading(l: Levels)
    requires l.Complete()
  {
    forall previous: Severity, v: real :: l.Possible(previous) ==> Raw(l, v) <= Next(l, previous, v)
  }

  /** The default hysteresis of 0 is not enough: a reading that falls exactly to a threshold is reported below it. */
  lemma NeverBelowTheReadingExactlyIfPositive(l: Levels)
    requires l.Complete() && l.Rising() && l.Separated()
    ensures NeverBelowTheReading(l) <==> l.PositiveBelowTheTop()
  {
    if l.PositiveBelowTheTop() {
      forall previous: Severity, v: real | l.Possible(previous)
        ensures Raw(l, v) <= Next(l, previous, v)
      {
        HighestReachedIsHighest(l, v, SHUTDOWN);
        HighestHeldIsHighest(l, v, SHUTDOWN);
        var raw := Raw(l, v);
        if NONE < raw < previous {
          assert !l.Reached(previous, v) && l.Used(raw) && l.Used(previous);
          assert l.Held(raw, v);
        }
      }
    }
    if NeverBelowTheReading(l) {
      forall i: Severity, j: Severity | 0 < i < j && l.Used(i) && l.Used(j) && l.thresholds[i].value < l.thresholds[j].value
        ensures 0.0 < l.hysteresis[i]
      {
        FallingToAThreshold(l, i, j);
      }
    }
  }

  lemma FallingToAThreshold(l: Levels, i: Severity, j: Severity)
    requires l.Complete() && l.Rising() && l.Separated()
    requires 0 < i < j && l.Used(i) && l.Used(j) && l.thresholds[i].value < l.thresholds[j].value
    requires NeverBelowTheReading(l)
    ensures 0.0 < l.hysteresis[i]
  {
    var v := l.thresholds[i].value;
    HighestReachedIsHighest(l, v, SHUTDOWN);
    HighestHeldIsHighest(l, v, SHUTDOWN);
    assert l.Reached(i, v) && !l.Reached(j, v) && i <= Raw(l, v) <= Next(l, j, v);
  }

  // --- Exactly the orderly configurations behave ---

  /** Each used level is a latch, whatever the readings. */
  ghost predicate EachLevelIsALatch(l: Levels)
    requires l.Complete()
  {
    forall s: Severity, previous: Severity, v: real :: 0 < s && l.Used(s) && l.Possible(previous) ==>
      (s <= Next(l, previous, v) <==> Latched(l, s, s <= previous, v))
  }

  /** Of the configurations the parser lets through, the orderly ones, and no others, make every level a latch. */
  lemma LatchesExactlyIfOrderly(l: Levels)
    requires l.Complete() && l.Rising()
    ensures EachLevelIsALatch(l) <==> l.Orderly()
  {
    if l.Orderly() {
      forall s: Severity, previous: Severity, v: real | 0 < s && l.Used(s) && l.Possible(previous)
        ensures s <= Next(l, previous, v) <==> Latched(l, s, s <= previous, v)
      {
        EveryLevelIsALatch(l, s, previous, v);
      }
    }
    if EachLevelIsALatch(l) {
      forall previous: Severity, v: real | l.Possible(previous)
        ensures Raw(l, v) <= Next(l, previous, v) <= if Raw(l, v) < previous then previous else Raw(l, v)
      {
        LatchesKeepBetween(l, previous, v);
      }
      NeverAboveBothExactlyIfSeparated(l);
      NeverBelowTheReadingExactlyIfPositive(l);
    }
  }

  lemma LatchesKeepBetween(l: Levels, previous: Severity, v: real)
    requires l.Complete() && l.Possible(previous) && EachLevelIsALatch(l)
    ensures Raw(l, v) <= Next(l, previous, v) <= if Raw(l, v) < previous then previous else Raw(l, v)
  {
    var raw, next := Raw(l, v), Next(l, previous, v);
    HighestReachedIsHighest(l, v, SHUTDOWN);
    SeveritiesArePossible(l, previous, v);
    assert raw != NONE ==> Latched(l, raw, raw <= previous, v);
    assert next != NONE ==> Latched(l, next, next <= previous, v);
  }
}

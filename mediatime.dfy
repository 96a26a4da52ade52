/**
 * The timebase converter: a frame rate given either as a nominal number or as a
 * `{rate, scale}` object is normalised to an exact fraction rate/scale, and six
 * conversions move between frames, seconds and ticks.  JavaScript numbers are
 * modelled as exact reals, and `null` as `None`.
 */
module MediaTime {
  import opened Wrappers

  /** The tick unit: this many ticks make one second. */
  const TicksPerSecond: int := 254016000000

  /** A frame rate as the fraction rate/scale. */
  datatype Timebase = Timebase(rate: int, scale: int)

  /** The `framerate` argument every conversion accepts. */
  datatype FrameRate =
    | Undefined
    | Nominal(value: real)
    /** A JavaScript object; either property may be absent. */
    | Object(rate: Option<int>, scale: Option<int>)

  /** The object `new Timebase(framerate)` builds: `rate` is null on error. */
  datatype TimebaseObject = TimebaseObject(rate: Option<int>, scale: int)

  /** The closed table of supported nominal rates, as documented for the module. */
  const NominalRates: map<real, Timebase> := map[
    23.976 := Timebase(24000, 1001),
    23.98 := Timebase(24000, 1001),
    24.0 := Timebase(24000, 1000),
    25.0 := Timebase(25000, 1000),
    29.97 := Timebase(30000, 1001),
    30.0 := Timebase(30000, 1000),
    59.94 := Timebase(60000, 1001),
    60.0 := Timebase(60000, 1000)
  ]

  /**
   * The `Timebase` constructor: a `switch` with strict equality on the argument,
   * so only the eight numbers set a rate; anything else leaves `rate` null and
   * `scale` at its initial 1001.
   */
  function NewTimebase(framerate: FrameRate): (tb: TimebaseObject)
    ensures tb.rate.Some? <==> framerate.Nominal? && framerate.value in NominalRates
    ensures tb.rate.Some? ==> Timebase(tb.rate.value, tb.scale) == NominalRates[framerate.value]
    ensures tb.rate.None? ==> tb.scale == 1001
  {
    if !framerate.Nominal? then TimebaseObject(None, 1001)
    else
      var v := framerate.value;
      if v == 23.976 then TimebaseObject(Some(24000), 1001)
      else if v == 23.98 then TimebaseObject(Some(24000), 1001)
      else if v == 24.0 then TimebaseObject(Some(24000), 1000)
      else if v == 25.0 then TimebaseObject(Some(25000), 1000)
      else if v == 29.97 then TimebaseObject(Some(30000), 1001)
      else if v == 30.0 then TimebaseObject(Some(30000), 1000)
      else if v == 59.94 then TimebaseObject(Some(60000), 1001)
      else if v == 60.0 then TimebaseObject(Some(60000), 1000)
      else TimebaseObject(None, 1001)
  }

  /**
   * `toTimebase`: an object with both properties passes through unchanged, an
   * object missing one is rejected, and every other argument goes through the
   * constructor.  Its `typeof framerate === undefined` test compares a type name
   * with the value `undefined` and never holds, so `undefined` reaches the
   * constructor too.
   */
  function ToTimebase(framerate: FrameRate): (t: Option<Timebase>)
    ensures framerate.Object? ==>
              (t.Some? <==> framerate.rate.Some? && framerate.scale.Some?)
    ensures framerate.Object? && t.Some? ==>
              t.value.rate == framerate.rate.value && t.value.scale == framerate.scale.value
    ensures !framerate.Object? ==>
              (t.Some? <==> framerate.Nominal? && framerate.value in NominalRates)
    ensures !framerate.Object? && t.Some? ==> t.value == NominalRates[framerate.value]
    ensures WellFormed(framerate) && t.Some? ==> t.value.rate > 0 && t.value.scale > 0
  {
    if framerate.Object? then
      if framerate.rate.Some? && framerate.scale.Some? then
        Some(Timebase(framerate.rate.value, framerate.scale.value))
      else None
    else
      var tb := NewTimebase(framerate);
      match tb.rate
      case None => None
      case Some(rate) => Some(Timebase(rate, tb.scale))
  }

  /**
   * The arguments the conversions can divide by: an object with both properties
   * has them positive.  (A zero property makes JavaScript divide by zero; an
   * object missing one is turned into null before any division.)
   */
  predicate WellFormed(framerate: FrameRate) {
    framerate.Object? && framerate.rate.Some? && framerate.scale.Some? ==>
      framerate.rate.value > 0 && framerate.scale.value > 0
  }

  /** `Math.round`: the nearest integer, ties towards +infinity. */
  function Round(x: real): (n: int)
    ensures NearestInteger(n, x)
  {
    (x + 0.5).Floor
  }

  /** The source's `tpf = (TICKS_PER_SECOND*1000/t.rate)/t.scale`. */
  function TicksPerFrame(t: Timebase): (tpf: real)
    requires t.rate > 0 && t.scale > 0
    ensures tpf > 0.0
    ensures tpf * (t.rate * t.scale) as real == (TicksPerSecond * 1000) as real
  {
    var a := (TicksPerSecond * 1000) as real / t.rate as real;
    assert a * t.rate as real == (TicksPerSecond * 1000) as real;
    var tpf := a / t.scale as real;
    assert tpf * t.scale as real == a;
    ProductOfCasts(t.rate, t.scale);
    tpf
  }

  lemma ProductOfCasts(a: int, b: int)
    ensures (a * b) as real == a as real * b as real
  {
  }

  /** `timeFromFrames`: `frames * (rate/scale)`, or null. */
  function TimeFromFrames(frames: real, framerate: FrameRate): (r: Option<real>)
    requires WellFormed(framerate)
    ensures r.Some? <==> ToTimebase(framerate).Some?
    ensures r.Some? ==>
              var t := ToTimebase(framerate).value;
              r.value * t.scale as real == frames * t.rate as real
    ensures r.Some? && frames >= 0.0 ==> r.value >= 0.0
  {
    match ToTimebase(framerate)
    case None => None
    case Some(t) => Some(frames * (t.rate as real / t.scale as real))
  }

  /** `framesFromTime`: `Math.round(time * TICKS_PER_SECOND / tpf)`, or null. */
  function FramesFromTime(time: real, framerate: FrameRate): (r: Option<int>)
    requires WellFormed(framerate)
    ensures r.Some? <==> ToTimebase(framerate).Some?
    ensures r.Some? ==>
              var t := ToTimebase(framerate).value;
              NearestInteger(r.value, time * (t.rate * t.scale) as real / 1000.0)
  {
    match ToTimebase(framerate)
    case None => None
    case Some(t) =>
      var tpf := TicksPerFrame(t);
      ScaleByTicksPerFrame(t, time);
      Some(Round(time * TicksPerSecond as real / tpf))
  }

  /** `ticksFromFrames`: `frames * tpf`, or null. */
  function TicksFromFrames(frames: real, framerate: FrameRate): (r: Option<real>)
    requires WellFormed(framerate)
    ensures r.Some? <==> ToTimebase(framerate).Some?
    ensures r.Some? ==>
              var t := ToTimebase(framerate).value;
              r.value * (t.rate * t.scale) as real == frames * (TicksPerSecond * 1000) as real
  {
    match ToTimebase(framerate)
    case None => None
    case Some(t) => Some(frames * TicksPerFrame(t))
  }

  /** `framesFromTicks`: `Math.round(ticks / tpf)`, or null. */
  function FramesFromTicks(ticks: real, framerate: FrameRate): (r: Option<int>)
    requires WellFormed(framerate)
    ensures r.Some? <==> ToTimebase(framerate).Some?
    ensures r.Some? ==>
              var t := ToTimebase(framerate).value;
              NearestInteger(r.value, ticks * (t.rate * t.scale) as real / (TicksPerSecond * 1000) as real)
  {
    match ToTimebase(framerate)
    case None => None
    case Some(t) =>
      DivideByTicksPerFrame(t, ticks);
      Some(Round(ticks / TicksPerFrame(t)))
  }

  /**
   * `timeFromTicks`: `Math.round(ticks / TICKS_PER_SECOND)`, or null.  The `tpf`
   * the source computes here is never used.
   */
  function TimeFromTicks(ticks: real, framerate: FrameRate): (r: Option<int>)
    requires WellFormed(framerate)
    ensures r.Some? <==> ToTimebase(framerate).Some?
    ensures r.Some? ==> NearestInteger(r.value, ticks / TicksPerSecond as real)
  {
    match ToTimebase(framerate)
    case None => None
    case Some(t) => Some(Round(ticks / TicksPerSecond as real))
  }

  /** `ticksFromTime`: `time * TICKS_PER_SECOND`, or null. */
  function TicksFromTime(time: real, framerate: FrameRate): (r: Option<real>)
    requires WellFormed(framerate)
    ensures r.Some? <==> ToTimebase(framerate).Some?
    ensures r.Some? ==> r.value / TicksPerSecond as real == time
  {
    match ToTimebase(framerate)
    case None => None
    case Some(t) => Some(time * TicksPerSecond as real)
  }

  /** `n` is what `Math.round` gives for `x`. */
  predicate NearestInteger(n: int, x: real) {
    n as real - 0.5 <= x < n as real + 0.5
  }

  lemma ScaleByTicksPerFrame(t: Timebase, time: real)
    requires t.rate > 0 && t.scale > 0
    ensures time * TicksPerSecond as real / TicksPerFrame(t) == time * (t.rate * t.scale) as real / 1000.0
  {
    var tpf := TicksPerFrame(t);
    var rs := (t.rate * t.scale) as real;
    var lhs := time * TicksPerSecond as real / tpf;
    assert lhs * tpf == time * TicksPerSecond as real;
    assert lhs * tpf * rs == time * TicksPerSecond as real * rs;
    assert lhs * (TicksPerSecond * 1000) as real == time * TicksPerSecond as real * rs;
  }

  lemma DivideByTicksPerFrame(t: Timebase, ticks: real)
    requires t.rate > 0 && t.scale > 0
    ensures ticks / TicksPerFrame(t) == ticks * (t.rate * t.scale) as real / (TicksPerSecond * 1000) as real
  {
    var tpf := TicksPerFrame(t);
    var rs := (t.rate * t.scale) as real;
    var lhs := ticks / tpf;
    assert lhs * tpf == ticks;
    assert lhs * tpf * rs == ticks * rs;
  }

  /** The eight nominal rates and the fraction each one normalises to. */
  lemma NominalRateTable()
    ensures ToTimebase(Nominal(23.976)) == Some(Timebase(24000, 1001))
    ensures ToTimebase(Nominal(23.98)) == Some(Timebase(24000, 1001))
    ensures ToTimebase(Nominal(24.0)) == Some(Timebase(24000, 1000))
    ensures ToTimebase(Nominal(25.0)) == Some(Timebase(25000, 1000))
    ensures ToTimebase(Nominal(29.97)) == Some(Timebase(30000, 1001))
    ensures ToTimebase(Nominal(30.0)) == Some(Timebase(30000, 1000))
    ensures ToTimebase(Nominal(59.94)) == Some(Timebase(60000, 1001))
    ensures ToTimebase(Nominal(60.0)) == Some(Timebase(60000, 1000))
  {
  }

  /** Every other number, and `undefined`, normalises to null. */
  lemma UnsupportedRateIsNull(v: real)
    requires v !in NominalRates
    ensures ToTimebase(Nominal(v)) == None
    ensures ToTimebase(Undefined) == None
  {
  }

  /** An object with both properties comes back unchanged; one missing either gives null. */
  lemma ObjectPassesThrough(rate: Option<int>, scale: Option<int>)
    ensures ToTimebase(Object(rate, scale)) ==
              if rate.Some? && scale.Some? then Some(Timebase(rate.value, scale.value)) else None
  {
  }

  /** The six conversions are null for exactly the same arguments. */
  lemma ConversionsNullTogether(x: real, framerate: FrameRate)
    requires WellFormed(framerate)
    ensures TimeFromFrames(x, framerate).None? == FramesFromTime(x, framerate).None?
    ensures FramesFromTime(x, framerate).None? == TicksFromFrames(x, framerate).None?
    ensures TicksFromFrames(x, framerate).None? == FramesFromTicks(x, framerate).None?
    ensures FramesFromTicks(x, framerate).None? == TimeFromTicks(x, framerate).None?
    ensures TimeFromTicks(x, framerate).None? == TicksFromTime(x, framerate).None?
  {
  }

  /** Frames to ticks and back gives the same whole frame count. */
  lemma TicksRoundTrip(frames: int, framerate: FrameRate)
    requires WellFormed(framerate)
    requires ToTimebase(framerate).Some?
    ensures TicksFromFrames(frames as real, framerate).Some?
    ensures FramesFromTicks(TicksFromFrames(frames as real, framerate).value, framerate) == Some(frames)
  {
    var t := ToTimebase(framerate).value;
    var rs := (t.rate * t.scale) as real;
    var whole := (TicksPerSecond * 1000) as real;
    var ticks := TicksFromFrames(frames as real, framerate).value;
    assert ticks * rs == frames as real * whole;
    assert ticks * rs / whole == frames as real;
    var back := FramesFromTicks(ticks, framerate).value;
    assert NearestInteger(back, frames as real);
    NearestIntegerUnique(back, frames, frames as real);
  }

  /** `Math.round` leaves an integer as it is. */
  lemma RoundOfInteger(n: int)
    ensures Round(n as real) == n
  {
  }

  /** Seconds to ticks does not depend on the (valid) rate. */
  lemma TicksFromTimeIgnoresRate(time: real, framerate: FrameRate)
    requires WellFormed(framerate)
    requires ToTimebase(framerate).Some?
    ensures TicksFromTime(time, framerate) == Some(time * TicksPerSecond as real)
  {
    var r := TicksFromTime(time, framerate).value;
    assert r / TicksPerSecond as real == time;
    assert r == r / TicksPerSecond as real * TicksPerSecond as real;
  }

  /** Ticks to seconds does not depend on the (valid) rate, and it rounds to whole seconds. */
  lemma TimeFromTicksIgnoresRate(ticks: real, framerate1: FrameRate, framerate2: FrameRate)
    requires WellFormed(framerate1) && WellFormed(framerate2)
    requires ToTimebase(framerate1).Some? && ToTimebase(framerate2).Some?
    ensures TimeFromTicks(ticks, framerate1) == TimeFromTicks(ticks, framerate2)
    ensures TimeFromTicks(ticks, framerate1) == Some(Round(ticks / TicksPerSecond as real))
  {
    NearestIntegerUnique(TimeFromTicks(ticks, framerate1).value, TimeFromTicks(ticks, framerate2).value,
                         ticks / TicksPerSecond as real);
    NearestIntegerUnique(TimeFromTicks(ticks, framerate1).value, Round(ticks / TicksPerSecond as real),
                         ticks / TicksPerSecond as real);
  }

  /** Seconds to ticks and back gives the seconds rounded to a whole number. */
  lemma TimeTicksRoundTrip(time: real, framerate: FrameRate)
    requires WellFormed(framerate)
    requires ToTimebase(framerate).Some?
    ensures TicksFromTime(time, framerate).Some?
    ensures TimeFromTicks(TicksFromTime(time, framerate).value, framerate) == Some(Round(time))
  {
    var ticks := TicksFromTime(time, framerate).value;
    NearestIntegerUnique(TimeFromTicks(ticks, framerate).value, Round(time), time);
  }

  lemma NearestIntegerUnique(m: int, n: int, x: real)
    requires NearestInteger(m, x) && NearestInteger(n, x)
    ensures m == n
  {
  }

  /** `timeFromFrames` is linear in the frame count. */
  lemma TimeFromFramesLinear(f: real, g: real, c: real, framerate: FrameRate)
    requires WellFormed(framerate)
    requires ToTimebase(framerate).Some?
    ensures TimeFromFrames(0.0, framerate) == Some(0.0)
    ensures TimeFromFrames(f + g, framerate).value ==
              TimeFromFrames(f, framerate).value + TimeFromFrames(g, framerate).value
    ensures TimeFromFrames(c * f, framerate).value == c * TimeFromFrames(f, framerate).value
  {
  }

  /** With a positive rate, more frames never give less time. */
  lemma TimeFromFramesMonotone(f: real, g: real, framerate: FrameRate)
    requires WellFormed(framerate)
    requires ToTimebase(framerate).Some?
    requires f <= g
    ensures TimeFromFrames(f, framerate).value <= TimeFromFrames(g, framerate).value
  {
    TimeFromFramesLinear(f, g - f, 1.0, framerate);
  }

  /** The literal formulas on two concrete arguments. */
  lemma LiteralFormulaExamples()
    ensures FramesFromTime(1.0, Nominal(25.0)) == Some(25000)
    ensures TimeFromFrames(48.0, Nominal(24.0)) == Some(1152.0)
    ensures TicksFromTime(1.0, Nominal(29.97)) == Some(254016000000.0)
  {
    var r := FramesFromTime(1.0, Nominal(25.0)).value;
    assert NearestInteger(r, 25000.0);
    RoundOfInteger(25000);
    NearestIntegerUnique(r, 25000, 25000.0);
    TicksFromTimeIgnoresRate(1.0, Nominal(29.97));
  }
}

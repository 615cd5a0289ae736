/** The brightness engine of acpilight/brightness.py: the Controller over one
    device's brightness files, the interpolation generator and the sweep
    that drives a controller through it. */
module Brightness {
  import opened Outcomes
  import opened Utils
  import opened Decimal

  /** MINIMUM_BRIGHTNESS_VALUE of acpilight/constants.py. */
  const MinimumBrightnessValue: int := 0

  /** math.trunc: drops the fractional part, rounding toward zero. */
  function Trunc(x: real): (r: int)
    ensures 0.0 <= x ==> 0 <= r && r as real <= x < r as real + 1.0
    ensures x < 0.0 ==> r <= 0 && r as real - 1.0 < x <= r as real
  {
    if x >= 0.0 then x.Floor else -((-x).Floor)
  }

  /** What reading raw_brightness gives for the text the file holds. */
  function ReadRaw(brightnessFile: string): (r: Result<int>)
    ensures r.Success? <==> ParseInt(brightnessFile).Some?
    ensures r.Success? ==> r.value == ParseInt(brightnessFile).value
    ensures r.Failure? ==> r.error == ValueError
  {
    match ParseInt(brightnessFile)
    case Some(raw) => Success(raw)
    case None => Failure(ValueError)
  }

  /** What reading the brightness property gives: the raw value over the
      maximum, times 100, after the raw read has succeeded. */
  function PercentOf(brightnessFile: string, maxBrightness: int): (r: Result<real>)
    ensures r.Success? <==> ReadRaw(brightnessFile).Success? && maxBrightness != 0
    ensures ReadRaw(brightnessFile).Failure? ==> r == Failure(ValueError)
    ensures ReadRaw(brightnessFile).Success? && maxBrightness == 0 ==> r == Failure(ZeroDivisionError)
  {
    match ReadRaw(brightnessFile)
    case Failure(e) => Failure(e)
    case Success(raw) =>
      if maxBrightness == 0 then Failure(ZeroDivisionError)
      else Success(raw as real / maxBrightness as real * 100.0)
  }

  /** A percentage as a share of the maximum: percent * max / 100. */
  function Scaled(percent: real, maxBrightness: int): real
  {
    percent * maxBrightness as real / 100.0
  }

  lemma ProductSign(a: real, b: real)
    requires 0.0 <= b
    ensures 0.0 <= a ==> 0.0 <= a * b
    ensures a <= 0.0 ==> a * b <= 0.0
  {
  }

  /** Where the share lies, by the percentage's range. */
  lemma ScaledBounds(percent: real, maxBrightness: int)
    ensures 0 <= maxBrightness && percent <= 0.0 ==> Scaled(percent, maxBrightness) <= 0.0
    ensures 0 <= maxBrightness && 100.0 <= percent ==> maxBrightness as real <= Scaled(percent, maxBrightness)
    ensures 0 <= maxBrightness && 0.0 <= percent <= 100.0 ==> 0.0 <= Scaled(percent, maxBrightness) <= maxBrightness as real
  {
    var m := maxBrightness as real;
    if 0 <= maxBrightness {
      assert Scaled(percent, maxBrightness) == percent / 100.0 * m;
      assert Scaled(percent, maxBrightness) - m == (percent / 100.0 - 1.0) * m;
      ProductSign(percent / 100.0, m);
      ProductSign(percent / 100.0 - 1.0, m);
    }
  }

  /** The raw value the brightness setter stores for a percentage: the
      truncated share of the maximum, clamped to [0, maxBrightness]. */
  function RawFromPercent(percent: real, maxBrightness: int): (raw: int)
    ensures 0 <= raw
    ensures 0 <= maxBrightness ==> raw <= maxBrightness
    ensures percent <= 0.0 ==> raw == 0
    ensures 100.0 <= percent && 0 <= maxBrightness ==> raw == maxBrightness
  {
    ScaledBounds(percent, maxBrightness);
    NormalizeInt(Trunc(Scaled(percent, maxBrightness)), MinimumBrightnessValue, maxBrightness)
  }

  /** The text the brightness file holds after a percentage is written. */
  function WrittenText(percent: real, maxBrightness: int): string
  {
    IntToDecimal(RawFromPercent(percent, maxBrightness))
  }

  /** A raw value in [0, max] reads as a percentage in [0, 100]. */
  lemma PercentInRange(raw: int, maxBrightness: int)
    requires 0 <= raw <= maxBrightness && 0 < maxBrightness
    ensures 0.0 <= raw as real / maxBrightness as real * 100.0 <= 100.0
  {
    var f := raw as real / maxBrightness as real;
    assert 0.0 <= f <= 1.0;
  }

  /** A raw value no greater than the share of p reads as at most p percent. */
  lemma PercentNotAbove(percent: real, maxBrightness: int, raw: real)
    requires 0 < maxBrightness && raw <= Scaled(percent, maxBrightness)
    ensures raw / maxBrightness as real * 100.0 <= percent
  {
    var m := maxBrightness as real;
    assert raw / m <= Scaled(percent, maxBrightness) / m;
    assert Scaled(percent, maxBrightness) / m == percent / 100.0;
  }

  /** A raw value above the share of p less one reads as more than p
      percent less one raw unit. */
  lemma PercentWithinOneUnit(percent: real, maxBrightness: int, raw: real)
    requires 0 < maxBrightness && Scaled(percent, maxBrightness) < raw + 1.0
    ensures percent < raw / maxBrightness as real * 100.0 + 100.0 / maxBrightness as real
  {
    var m := maxBrightness as real;
    assert Scaled(percent, maxBrightness) / m < (raw + 1.0) / m;
    assert Scaled(percent, maxBrightness) / m == percent / 100.0;
    assert (raw + 1.0) / m * 100.0 == raw / m * 100.0 + 100.0 / m;
  }

  /** For a percentage in [0, 100] the clamp leaves the truncated share alone. */
  lemma RawFromPercentUnclamped(percent: real, maxBrightness: int)
    requires 0.0 <= percent <= 100.0 && 0 < maxBrightness
    ensures var raw := RawFromPercent(percent, maxBrightness) as real;
      raw <= Scaled(percent, maxBrightness) < raw + 1.0
  {
    ScaledBounds(percent, maxBrightness);
  }

  /** The file written for a percentage reads back as the stored raw value
      over the maximum. */
  lemma PercentOfWritten(percent: real, maxBrightness: int)
    requires maxBrightness != 0
    ensures PercentOf(WrittenText(percent, maxBrightness), maxBrightness)
         == Success(RawFromPercent(percent, maxBrightness) as real / maxBrightness as real * 100.0)
  {
    ParseIntOfDecimal(RawFromPercent(percent, maxBrightness));
  }

  /** Writing a percentage and reading the percentage back gives a value in
      [0, 100] that is at most one raw unit below what was written. */
  lemma PercentReadBack(percent: real, maxBrightness: int)
    requires 0 < maxBrightness
    ensures PercentOf(WrittenText(percent, maxBrightness), maxBrightness).Success?
    ensures var q := PercentOf(WrittenText(percent, maxBrightness), maxBrightness).value;
      && 0.0 <= q <= 100.0
      && (0.0 <= percent <= 100.0 ==> q <= percent < q + 100.0 / maxBrightness as real)
  {
    var raw := RawFromPercent(percent, maxBrightness);
    PercentOfWritten(percent, maxBrightness);
    PercentInRange(raw, maxBrightness);
    if 0.0 <= percent <= 100.0 {
      RawFromPercentUnclamped(percent, maxBrightness);
      PercentNotAbove(percent, maxBrightness, raw as real);
      PercentWithinOneUnit(percent, maxBrightness, raw as real);
    }

  }

  /** One brightness-capable device: the text of its brightness file, and the
      maximum raw value read once when the controller is made. */
  class Controller {
    var brightnessFile: string
    const maxBrightness: int

    constructor (brightnessFile: string, maxBrightness: int)
      ensures this.brightnessFile == brightnessFile && this.maxBrightness == maxBrightness
    {
      this.brightnessFile := brightnessFile;
      this.maxBrightness := maxBrightness;
    }

    /** Controller(brightness_file, maximum_brightness_file): parses the
        maximum once; a maximum that is not an integer raises ValueError. */
    static method Create(brightnessFile: string, maximumBrightnessFile: string) returns (r: Result<Controller>)
      ensures ParseInt(maximumBrightnessFile).None? ==> r == Failure(ValueError)
      ensures ParseInt(maximumBrightnessFile).Some? ==>
        && r.Success? && fresh(r.value)
        && r.value.brightnessFile == brightnessFile
        && r.value.maxBrightness == ParseInt(maximumBrightnessFile).value
    {
      match ParseInt(maximumBrightnessFile)
      case None =>
        r := Failure(ValueError);
      case Some(m) =>
        var c := new Controller(brightnessFile, m);
        r := Success(c);
    }

    /** The raw_brightness getter: int() of the file's current text. */
    method RawBrightness() returns (r: Result<int>)
      ensures ParseInt(brightnessFile).Some? ==> r == Success(ParseInt(brightnessFile).value)
      ensures ParseInt(brightnessFile).None? ==> r == Failure(ValueError)
    {
      r := ReadRaw(brightnessFile);
    }

    /** The brightness getter: raw_brightness / max * 100. */
    method Brightness() returns (r: Result<real>)
      ensures r == PercentOf(brightnessFile, maxBrightness)
      ensures r.Success? ==> ReadRaw(brightnessFile).Success? && maxBrightness != 0
    {
      var raw := RawBrightness();
      match raw
      case Failure(e) =>
        r := Failure(e);
      case Success(v) =>
        if maxBrightness == 0 {
          r := Failure(ZeroDivisionError);
        } else {
          r := Success(v as real / maxBrightness as real * 100.0);
        }
    }

    /** The raw_brightness setter: clamps the value to [0, maxBrightness]
        and stores it as decimal text, which reads back as that value. */
    method SetRawBrightness(newValue: int)
      modifies this
      ensures brightnessFile == IntToDecimal(NormalizeInt(newValue, MinimumBrightnessValue, maxBrightness))
      ensures ReadRaw(brightnessFile).Success?
      ensures 0 <= ReadRaw(brightnessFile).value
      ensures 0 <= maxBrightness ==> ReadRaw(brightnessFile).value <= maxBrightness
      ensures MinimumBrightnessValue <= newValue <= maxBrightness ==> ReadRaw(brightnessFile) == Success(newValue)
    {
      var value := NormalizeInt(newValue, MinimumBrightnessValue, maxBrightness);
      brightnessFile := IntToDecimal(value);
      ParseIntOfDecimal(value);
    }

    /** The brightness setter: stores trunc(percent * max / 100), clamped. */
    method SetBrightness(percent: real)
      modifies this
      ensures brightnessFile == WrittenText(percent, maxBrightness)
      ensures ReadRaw(brightnessFile) == Success(RawFromPercent(percent, maxBrightness))
    {
      SetRawBrightness(Trunc(Scaled(percent, maxBrightness)));
      ParseIntOfDecimal(RawFromPercent(percent, maxBrightness));
    }
  }

  /** The docstring example: a controller over "5" with maximum "100";
      raw_brightness = 15, then raw_brightness reads 15. */
  method RawBrightnessExample() returns (r: Result<int>)
    ensures r == Success(15)
  {
    assert NatToDecimal(1) == "1";
    assert NatToDecimal(10) == "10";
    assert IntToDecimal(100) == "100";
    ParseIntOfDecimal(100);
    var made := Controller.Create("5", "100");
    var controller := made.value;
    controller.SetRawBrightness(15);
    r := controller.RawBrightness();
    ParseIntOfDecimal(15);
  }

  /** The value yielded for `step`: current + (target - current) * step / steps. */
  function Interpolation(current: real, target: real, steps: int, step: int): real
    requires steps != 0
  {
    current + (target - current) * step as real / steps as real
  }

  /** The values generate_brightness_steps yields from `step` on: one per
      step left in range(step, steps), then the target itself. */
  function StepsFrom(current: real, target: real, steps: int, step: int): (r: seq<real>)
    requires 1 <= step
    ensures |r| == (if step < steps then steps - step else 0) + 1
    ensures r[|r| - 1] == target
    decreases steps - step
  {
    if step < steps then
      [Interpolation(current, target, steps, step)] + StepsFrom(current, target, steps, step + 1)
    else
      [target]
  }

  /** Value k of the values yielded from `step` on is that of step + k. */
  lemma {:induction false} StepsFromAt(current: real, target: real, steps: int, step: int, k: nat)
    requires 1 <= step && k < |StepsFrom(current, target, steps, step)| - 1
    ensures steps != 0 && StepsFrom(current, target, steps, step)[k] == Interpolation(current, target, steps, step + k)
    decreases k
  {
    if k > 0 {
      StepsFromAt(current, target, steps, step + 1, k - 1);
    }
  }

  /** generate_brightness_steps, with `current` the brightness read once
      before the first value: max(steps - 1, 0) + 1 values, the last of
      them the exact target. */
  function BrightnessSteps(current: real, target: real, steps: int): (r: seq<real>)
    ensures |r| == (if steps > 1 then steps else 1)
    ensures r[|r| - 1] == target
  {
    StepsFrom(current, target, steps, 1)
  }

  lemma InterpolationEnds(current: real, target: real, steps: int)
    requires steps != 0
    ensures Interpolation(current, target, steps, steps) == target
  {
    assert (target - current) * steps as real / steps as real == target - current;
  }

  /** A point a fraction f of the way from current to target, 0 <= f <= 1,
      lies between the two ends, and a larger fraction is never further
      from the target. */
  lemma FractionOrdered(current: real, target: real, f1: real, f2: real)
    requires 0.0 <= f1 <= f2 <= 1.0
    ensures Min(current, target) <= current + (target - current) * f1 <= Max(current, target)
    ensures current <= target ==> current + (target - current) * f1 <= current + (target - current) * f2
    ensures target <= current ==> current + (target - current) * f2 <= current + (target - current) * f1
  {
    var d := target - current;
    assert d * f2 - d * f1 == d * (f2 - f1);
    assert d - d * f2 == d * (1.0 - f2);
    ProductSign(d, f1);
    ProductSign(d, f2 - f1);
    ProductSign(d, 1.0 - f2);
  }

  lemma QuotientOrdered(a: real, b: real, s: real)
    requires 0.0 < s && a <= b
    ensures a / s <= b / s
  {
    ProductSign(b - a, 1.0 / s);
    assert (b - a) * (1.0 / s) == b / s - a / s;
  }

  lemma FractionsOfSteps(steps: int, k1: int, k2: int)
    requires 0 <= k1 <= k2 <= steps && steps != 0
    ensures 0.0 <= k1 as real / steps as real <= k2 as real / steps as real <= 1.0
  {
    var s := steps as real;
    QuotientOrdered(0.0, k1 as real, s);
    QuotientOrdered(k1 as real, k2 as real, s);
    QuotientOrdered(k2 as real, s, s);
  }

  lemma ScaledStep(d: real, k: int, steps: int)
    requires steps != 0
    ensures d * k as real / steps as real == d * (k as real / steps as real)
  {
  }

  /** Step k1 of steps, 0 <= k1 <= steps, lies between the two ends, and a
      later step k2 is never further from the target. */
  lemma InterpolationOrdered(current: real, target: real, steps: int, k1: int, k2: int)
    requires 0 <= k1 <= k2 <= steps && steps != 0
    ensures Min(current, target) <= Interpolation(current, target, steps, k1) <= Max(current, target)
    ensures current <= target ==> Interpolation(current, target, steps, k1) <= Interpolation(current, target, steps, k2)
    ensures target <= current ==> Interpolation(current, target, steps, k2) <= Interpolation(current, target, steps, k1)
  {
    var f1 := k1 as real / steps as real;
    var f2 := k2 as real / steps as real;
    FractionsOfSteps(steps, k1, k2);
    ScaledStep(target - current, k1, steps);
    ScaledStep(target - current, k2, steps);
    assert Interpolation(current, target, steps, k1) == current + (target - current) * f1;
    assert Interpolation(current, target, steps, k2) == current + (target - current) * f2;
    FractionOrdered(current, target, f1, f2);
  }

  /** For a positive step count, value k of the sequence is step k + 1 at
      k + 1 steps of the way, the last one included. */
  lemma StepsAreInterpolations(current: real, target: real, steps: int)
    requires 1 <= steps
    ensures var r := BrightnessSteps(current, target, steps);
      |r| == steps && forall k :: 0 <= k < |r| ==> r[k] == Interpolation(current, target, steps, k + 1)
  {
    var r := BrightnessSteps(current, target, steps);
    forall k | 0 <= k < |r|
      ensures r[k] == Interpolation(current, target, steps, k + 1)
    {
      if k < |r| - 1 {
        StepsFromAt(current, target, steps, 1, k);
      } else {
        InterpolationEnds(current, target, steps);
      }
    }
  }

  /** Every value of the sweep lies between the current brightness and the
      target. */
  lemma StepsBetween(current: real, target: real, steps: int)
    ensures var r := BrightnessSteps(current, target, steps);
      forall k :: 0 <= k < |r| ==> Min(current, target) <= r[k] <= Max(current, target)
  {
    var r := BrightnessSteps(current, target, steps);
    if 1 <= steps {
      StepsAreInterpolations(current, target, steps);
      forall k | 0 <= k < |r|
        ensures Min(current, target) <= r[k] <= Max(current, target)
      {
        InterpolationOrdered(current, target, steps, k + 1, k + 1);
      }
    }
  }

  /** The values move monotonically toward the target. */
  lemma StepsMonotone(current: real, target: real, steps: int)
    ensures var r := BrightnessSteps(current, target, steps);
      forall k :: 0 <= k < |r| - 1 ==>
        && (current <= target ==> r[k] <= r[k + 1])
        && (target <= current ==> r[k + 1] <= r[k])
  {
    var r := BrightnessSteps(current, target, steps);
    if 1 <= steps {
      StepsAreInterpolations(current, target, steps);
      forall k | 0 <= k < |r| - 1
        ensures current <= target ==> r[k] <= r[k + 1]
        ensures target <= current ==> r[k + 1] <= r[k]
      {
        InterpolationOrdered(current, target, steps, k + 1, k + 2);
      }
    }
  }

  /** From a dark controller toward a non-negative target, no value exceeds
      the target. */
  lemma StepsFromZeroBounded(target: real, steps: int)
    requires 0.0 <= target
    ensures forall v :: v in BrightnessSteps(0.0, target, steps) ==> v <= target
  {
    StepsBetween(0.0, target, steps);
  }

  /** From 50% to 75% in 5 steps: 55, 60, 65, 70, then exactly 75. */
  lemma StepsExample()
    ensures BrightnessSteps(50.0, 75.0, 5) == [55.0, 60.0, 65.0, 70.0, 75.0]
  {
    StepsAreInterpolations(50.0, 75.0, 5);
  }

  /** One observable effect of a sweep: a percentage written, or a sleep of
      some seconds (time.sleep is not modelled beyond this record). */
  datatype Event = Write(percent: real) | Sleep(seconds: real)

  /** A sweep's writes and sleeps: each value written, then one pause. */
  function SweepTrace(values: seq<real>, pause: real): (t: seq<Event>)
    ensures |t| == 2 * |values|
  {
    if values == [] then []
    else SweepTrace(values[..|values| - 1], pause) + [Write(values[|values| - 1]), Sleep(pause)]
  }

  /** Value k is written at position 2k of the trace, and the pause follows it. */
  lemma {:induction false} SweepTraceAt(values: seq<real>, pause: real, k: nat)
    requires k < |values|
    ensures SweepTrace(values, pause)[2 * k] == Write(values[k])
    ensures SweepTrace(values, pause)[2 * k + 1] == Sleep(pause)
  {
    if k < |values| - 1 {
      SweepTraceAt(values[..|values| - 1], pause, k);
    }
  }

  /** Extending the swept values by one extends the trace by one write and
      one pause. */
  lemma SweepTraceExtend(values: seq<real>, i: nat, pause: real)
    requires i < |values|
    ensures SweepTrace(values[..i + 1], pause) == SweepTrace(values[..i], pause) + [Write(values[i]), Sleep(pause)]
  {
    assert values[..i + 1][..i] == values[..i];
  }

  /** The total time asked of time.sleep by a sequence of events. */
  function TotalSleep(events: seq<Event>): real
  {
    if events == [] then 0.0
    else
      TotalSleep(events[..|events| - 1])
      + (match events[|events| - 1] case Sleep(s) => s case Write(_) => 0.0)
  }

  lemma {:induction false} TotalSleepOfTrace(values: seq<real>, pause: real)
    ensures TotalSleep(SweepTrace(values, pause)) == |values| as real * pause
  {
    if values != [] {
      var prefix := SweepTrace(values[..|values| - 1], pause);
      var t := SweepTrace(values, pause);
      assert t == prefix + [Write(values[|values| - 1]), Sleep(pause)];
      assert t[..|t| - 1] == prefix + [Write(values[|values| - 1])];
      assert (prefix + [Write(values[|values| - 1])])[..|prefix|] == prefix;
      TotalSleepOfTrace(values[..|values| - 1], pause);
    }
  }

  /** The length of each sleep of a sweep: (delay / 1000.) / steps seconds. */
  function Pause(delay: int, steps: int): real
    requires steps != 0
  {
    delay as real / 1000.0 / steps as real
  }

  /** The outcome of a sweep: its result, its writes and sleeps in order, and
      the text the brightness file holds afterwards. */
  datatype SweepOutcome = SweepOutcome(result: Result<()>, events: seq<Event>, brightnessFile: string)

  /** sweep_brightness on a controller whose file holds `brightnessFile`:
      the pause delay / 1000 / steps is computed first (a zero step count
      raises), the brightness is read once, then each value is written and
      followed by a pause (a negative pause raises after the first write). */
  function Sweep(brightnessFile: string, maxBrightness: int, target: real, steps: int, delay: int): (o: SweepOutcome)
    ensures steps == 0 ==> o.result == Failure(ZeroDivisionError) && o.events == []
    ensures o.events == [] ==> o.result.Failure? && o.brightnessFile == brightnessFile
    ensures o.result.Failure? ==> |o.events| <= 1
  {
    if steps == 0 then SweepOutcome(Failure(ZeroDivisionError), [], brightnessFile)
    else
      var pause := Pause(delay, steps);
      match PercentOf(brightnessFile, maxBrightness)
      case Failure(e) => SweepOutcome(Failure(e), [], brightnessFile)
      case Success(current) =>
        var values := BrightnessSteps(current, target, steps);
        if pause < 0.0 then
          SweepOutcome(Failure(ValueError), [Write(values[0])], WrittenText(values[0], maxBrightness))
        else
          SweepOutcome(Success(()), SweepTrace(values, pause), WrittenText(values[|values| - 1], maxBrightness))
  }

  /** The sleeps of a sweep add up to delay / 1000 seconds. */
  lemma PausesAddUp(delay: int, steps: int)
    requires steps != 0
    ensures steps as real * Pause(delay, steps) == delay as real / 1000.0
  {
  }

  /** A pause is negative exactly when the delay and the step count have
      opposite signs. */
  lemma PauseSign(delay: int, steps: int)
    requires steps != 0
    ensures Pause(delay, steps) < 0.0 <==> (delay < 0 < steps || steps < 0 < delay)
  {
    var d := delay as real / 1000.0;
    if steps > 0 {
      assert d < 0.0 <==> d / steps as real < 0.0;
    } else {
      assert d > 0.0 <==> d / steps as real < 0.0;
    }
  }

  /** The percentages written, in order, by a sequence of events. */
  function Writes(events: seq<Event>): seq<real>
  {
    if events == [] then []
    else
      Writes(events[..|events| - 1])
      + (match events[|events| - 1] case Write(p) => [p] case Sleep(_) => [])
  }

  /** A sweep trace writes exactly the swept values, in order. */
  lemma {:induction false} WritesOfTrace(values: seq<real>, pause: real)
    ensures Writes(SweepTrace(values, pause)) == values
  {
    if values != [] {
      var prefix := values[..|values| - 1];
      var t := SweepTrace(values, pause);
      var withWrite := SweepTrace(prefix, pause) + [Write(values[|values| - 1])];
      assert t[..|t| - 1] == withWrite;
      assert withWrite[..|withWrite| - 1] == SweepTrace(prefix, pause);
      WritesOfTrace(prefix, pause);
      assert values == prefix + [values[|values| - 1]];
    }
  }

  /** On a readable controller, a sweep with a positive step count and a
      non-negative delay succeeds; its events are the trace of the generated
      values, and the file ends holding the target's raw value. */
  lemma SweepSucceeds(brightnessFile: string, maxBrightness: int, target: real, steps: int, delay: int)
    requires 1 <= steps && 0 <= delay
    requires PercentOf(brightnessFile, maxBrightness).Success?
    ensures var values := BrightnessSteps(PercentOf(brightnessFile, maxBrightness).value, target, steps);
      Sweep(brightnessFile, maxBrightness, target, steps, delay)
      == SweepOutcome(Success(()), SweepTrace(values, Pause(delay, steps)), WrittenText(target, maxBrightness))
  {
    PauseSign(delay, steps);
  }

  /** A sweep with a positive step count and a non-negative delay on a
      readable controller writes the generated values in order, the last of
      them the target; it sleeps once after each write, delay / 1000
      seconds in all, and leaves the target's raw value in the file. */
  lemma SweepReachesTarget(brightnessFile: string, maxBrightness: int, target: real, steps: int, delay: int)
    requires 1 <= steps && 0 <= delay
    requires PercentOf(brightnessFile, maxBrightness).Success?
    ensures var o := Sweep(brightnessFile, maxBrightness, target, steps, delay);
      && o.result == Success(())
      && Writes(o.events) == BrightnessSteps(PercentOf(brightnessFile, maxBrightness).value, target, steps)
      && |o.events| == 2 * steps
      && o.events[2 * steps - 2] == Write(target)
      && o.events[2 * steps - 1] == Sleep(Pause(delay, steps))
      && TotalSleep(o.events) == delay as real / 1000.0
      && o.brightnessFile == WrittenText(target, maxBrightness)
  {
    var values := BrightnessSteps(PercentOf(brightnessFile, maxBrightness).value, target, steps);
    var pause := Pause(delay, steps);
    SweepSucceeds(brightnessFile, maxBrightness, target, steps, delay);
    WritesOfTrace(values, pause);
    SweepTraceAt(values, pause, steps - 1);
    TotalSleepOfTrace(values, pause);
    assert |values| as real == steps as real;
    PausesAddUp(delay, steps);
  }

  /** Every percentage a sweep writes lies between the brightness it read
      and the target. */
  lemma SweepWritesBetween(brightnessFile: string, maxBrightness: int, target: real, steps: int, delay: int)
    requires PercentOf(brightnessFile, maxBrightness).Success?
    ensures var current := PercentOf(brightnessFile, maxBrightness).value;
      forall p :: p in Writes(Sweep(brightnessFile, maxBrightness, target, steps, delay).events) ==>
        Min(current, target) <= p <= Max(current, target)
  {
    var current := PercentOf(brightnessFile, maxBrightness).value;
    var values := BrightnessSteps(current, target, steps);
    StepsBetween(current, target, steps);
    if steps != 0 {
      var pause := Pause(delay, steps);
      var o := Sweep(brightnessFile, maxBrightness, target, steps, delay);
      if pause < 0.0 {
        assert o.events == [Write(values[0])];
        assert Writes(o.events) == [values[0]] by {
          assert o.events[..0] == [];
        }
      } else {
        assert o.events == SweepTrace(values, pause);
        WritesOfTrace(values, pause);
      }
    }
  }

  /** Lines 38-40 of sweep_brightness: each value is written and followed
      by a sleep of `pause` seconds; a negative pause makes time.sleep raise
      ValueError right after the first write. */
  method WriteAndSleep(controller: Controller, values: seq<real>, pause: real)
      returns (r: Result<()>, ghost events: seq<Event>)
    modifies controller
    ensures values == [] ==> r == Success(()) && events == [] && controller.brightnessFile == old(controller.brightnessFile)
    ensures values != [] && pause < 0.0 ==>
      && r == Failure(ValueError) && events == [Write(values[0])]
      && controller.brightnessFile == WrittenText(values[0], controller.maxBrightness)
    ensures values != [] && 0.0 <= pause ==>
      && r == Success(()) && events == SweepTrace(values, pause)
      && controller.brightnessFile == WrittenText(values[|values| - 1], controller.maxBrightness)
  {
    events := [];
    var i := 0;
    while i < |values|
      invariant 0 <= i <= |values|
      invariant events == SweepTrace(values[..i], pause)
      invariant i == 0 ==> controller.brightnessFile == old(controller.brightnessFile)
      invariant 0 < i ==> controller.brightnessFile == WrittenText(values[i - 1], controller.maxBrightness)
      invariant 0 < i ==> 0.0 <= pause
    {
      controller.SetBrightness(values[i]);
      events := events + [Write(values[i])];
      if pause < 0.0 {
        return Failure(ValueError), events;
      }
      events := events + [Sleep(pause)];
      SweepTraceExtend(values, i, pause);
      i := i + 1;
    }
    assert values[..i] == values;
    r := Success(());
  }

  /** sweep_brightness: the pause is delay / 1000 / steps seconds (line 37),
      the values are generated from the brightness read once (line 38), and
      each is written and slept after. Its result, writes and sleeps, and
      the final file text are those of Sweep. */
  method SweepBrightness(controller: Controller, target: real, steps: int, delay: int)
      returns (r: Result<()>, ghost events: seq<Event>)
    modifies controller
    ensures var o := Sweep(old(controller.brightnessFile), controller.maxBrightness, target, steps, delay);
      r == o.result && events == o.events && controller.brightnessFile == o.brightnessFile
  {
    if steps == 0 {
      return Failure(ZeroDivisionError), [];
    }
    var pause := Pause(delay, steps);
    var current := controller.Brightness();
    if current.Failure? {
      return Failure(current.error), [];
    }
    var values := BrightnessSteps(current.value, target, steps);
    r, events := WriteAndSleep(controller, values, pause);
  }
}

/** The command policy of acpilight/acpilight.py: the argument validator
    _percent and _handle_other_actions, which turns the parsed arguments
    into a target percentage and then leaves the controller alone, sets it
    directly, or sweeps it. */
module Acpilight {
  import opened Outcomes
  import opened Utils
  import opened Decimal
  import opened Brightness

  /** VALID_PERCENT_ARGUMENT_BEGINNING */
  const ValidPercentArgumentBeginning: string := "=+-0123456789"

  /** _percent as written: the guard `arg or arg[0] not in ...` is true for
      every non-empty argument, which is answered with None; for the empty
      argument it evaluates arg[0], which raises IndexError. The lines after
      the guard are never reached. */
  function Percent(arg: string): (r: Result<Option<string>>)
    ensures r.Success? ==> r.value.None?
    ensures r.Failure? ==> arg == "" && r.error == IndexError
  {
    if |arg| > 0 then Success(None) else Failure(IndexError)
  }

  /** As written, _percent accepts no argument at all. */
  lemma PercentAcceptsNothing(arg: string)
    ensures Percent(arg) == Success(None) || Percent(arg) == Failure(IndexError)
    ensures Percent(arg).Failure? <==> arg == ""
  {
  }

  /** _percent with the guard `not arg or arg[0] not in ...` that its later
      lines call for: a valid first character, an '=' put in front of a
      bare number, and the rest parsed by float(). */
  function PercentIntended(arg: string): (r: Option<string>)
    ensures r.Some? <==>
      && |arg| > 0 && arg[0] in ValidPercentArgumentBeginning
      && ParseReal(if arg[0] in "=+-" then arg[1..] else arg).Some?
    ensures r.Some? ==> |r.value| > 0 && r.value[0] in "=+-" && ParseReal(r.value[1..]).Some?
    ensures r.Some? ==> r.value == if arg[0] in "=+-" then arg else "=" + arg
  {
    if |arg| == 0 || arg[0] !in ValidPercentArgumentBeginning then None
    else
      var canonical := if arg[0] !in "=+-" then "=" + arg else arg;
      assert arg[0] !in "=+-" ==> canonical[1..] == arg;
      if ParseReal(canonical[1..]).None? then None else Some(canonical)
  }

  /** A digit may begin a percent argument, and is not a mode sign. */
  lemma DigitBeginsPercent(c: char)
    requires IsDigit(c)
    ensures c in ValidPercentArgumentBeginning && c !in "=+-"
  {
    assert ValidPercentArgumentBeginning[c as int - '0' as int + 3] == c;
  }

  /** A plain number such as "50" shows the difference: as written it is
      dropped (None), as intended it becomes "=50". */
  lemma PercentDropsNumbers(n: nat)
    ensures Percent(NatToDecimal(n)) == Success(None)
    ensures PercentIntended(NatToDecimal(n)) == Some("=" + NatToDecimal(n))
  {
    var text := NatToDecimal(n);
    DigitBeginsPercent(text[0]);
    ParseRealOfDecimal(n);
  }

  /** The three ways of giving a target: set, increase or decrease. */
  datatype Modes = Modes(setPercent: Option<real>, incPercent: Option<real>, decPercent: Option<real>)

  /** Lines 45-52: the positional PERCENT argument, if any, is parsed after
      its first character, and that character picks the mode it sets. */
  function ApplyPc(pc: Option<string>, modes: Modes): (r: Result<Modes>)
    ensures pc.None? ==> r == Success(modes)
    ensures pc.Some? && (|pc.value| == 0 || ParseReal(pc.value[1..]).None?) ==> r == Failure(ValueError)
    ensures r.Success? && pc.Some? ==>
      var value := ParseReal(pc.value[1..]).value;
      && |pc.value| > 0
      && r.value.setPercent == (if pc.value[0] == '=' then Some(value) else modes.setPercent)
      && r.value.incPercent == (if pc.value[0] == '+' then Some(value) else modes.incPercent)
      && r.value.decPercent == (if pc.value[0] == '-' then Some(value) else modes.decPercent)
  {
    match pc
    case None => Success(modes)
    case Some(text) =>
      // float(""[1:]) raises ValueError just as a malformed number does
      if |text| == 0 then Failure(ValueError)
      else
        match ParseReal(text[1..])
        case None => Failure(ValueError)
        case Some(value) =>
          if text[0] == '=' then Success(modes.(setPercent := Some(value)))
          else if text[0] == '+' then Success(modes.(incPercent := Some(value)))
          else if text[0] == '-' then Success(modes.(decPercent := Some(value)))
          else Success(modes)
  }

  /** Every argument the intended validator accepts is parsed here without
      error and sets exactly one mode. */
  lemma IntendedPercentIsApplied(arg: string, modes: Modes)
    requires PercentIntended(arg).Some?
    ensures ApplyPc(PercentIntended(arg), modes).Success?
    ensures var m := ApplyPc(PercentIntended(arg), modes).value;
      m.setPercent.Some? || m.incPercent.Some? || m.decPercent.Some?
  {
    var pc := PercentIntended(arg).value;
    assert pc[0] == '=' || pc[0] == '+' || pc[0] == '-';
  }

  lemma FpsScaling(fps: int, time: int)
    ensures fps as real / 1000.0 * time as real == (fps * time) as real / 1000.0
  {
  }

  /** Lines 53-54: a nonzero fps replaces steps by int((fps / 1000) * time),
      the product truncated toward zero. */
  function StepsFor(fps: int, time: int, steps: int): (r: int)
    ensures fps == 0 ==> r == steps
    ensures fps != 0 && time == 0 ==> r == 0
  {
    if fps != 0 then Trunc(fps as real / 1000.0 * time as real) else steps
  }

  /** With a frame rate the step count is fps * time / 1000 rounded toward
      zero; without one the given step count stays. */
  lemma StepsForRate(fps: int, time: int, steps: int)
    ensures fps == 0 ==> StepsFor(fps, time, steps) == steps
    ensures fps != 0 && 0 <= fps * time ==>
      var r := StepsFor(fps, time, steps); 0 <= r && r * 1000 <= fps * time < (r + 1) * 1000
    ensures fps != 0 && fps * time < 0 ==>
      var r := StepsFor(fps, time, steps); r <= 0 && (r - 1) * 1000 < fps * time <= r * 1000
  {
    FpsScaling(fps, time);
  }

  /** Lines 56-62: the target is the set value, else the brightness read
      plus inc, else the brightness read minus dec (reading the brightness
      only in those two cases), then clamped to [0, 100]; with no mode at
      all `target` is unbound. */
  function Target(modes: Modes, current: Result<real>): (r: Result<real>)
    ensures r.Success? ==> 0.0 <= r.value <= 100.0
    ensures modes.setPercent.Some? ==> r == Success(Normalize(modes.setPercent.value, 0.0, 100.0))
    ensures modes.setPercent.None? && modes.incPercent.Some? ==>
      r == (if current.Success? then Success(Normalize(current.value + modes.incPercent.value, 0.0, 100.0))
            else Failure(current.error))
    ensures modes.setPercent.None? && modes.incPercent.None? && modes.decPercent.Some? ==>
      r == (if current.Success? then Success(Normalize(current.value - modes.decPercent.value, 0.0, 100.0))
            else Failure(current.error))
    ensures modes == Modes(None, None, None) ==> r == Failure(UnboundLocalError)
  {
    var raw :=
      if modes.setPercent.Some? then Success(modes.setPercent.value)
      else if modes.incPercent.Some? then
        (match current case Success(c) => Success(c + modes.incPercent.value) case Failure(e) => Failure(e))
      else if modes.decPercent.Some? then
        (match current case Success(c) => Success(c - modes.decPercent.value) case Failure(e) => Failure(e))
      else Failure(UnboundLocalError);
    match raw
    case Success(t) => Success(Normalize(t, 0.0, 100.0))
    case Failure(e) => Failure(e)
  }

  /** What _handle_other_actions does to the controller. */
  datatype Action = Keep | Direct(target: real) | SweepTo(target: real)

  /** Lines 63-73: nothing when the brightness already equals the target, a
      single write when there is at most one step or less than 1 ms,
      otherwise a sweep, which then has at least two steps and a positive
      delay. */
  function Plan(current: real, target: real, steps: int, time: int): (a: Action)
    ensures a == Keep <==> current == target
    ensures a.Direct? <==> current != target && (steps <= 1 || time < 1)
    ensures a.SweepTo? ==> 2 <= steps && 1 <= time
    ensures !a.Keep? ==> a.target == target
  {
    if current == target then Keep
    else if steps <= 1 || time < 1 then Direct(target)
    else SweepTo(target)
  }

  /** Lines 56-73 once the modes and the step count are known: the target
      is computed, the brightness is read, and the plan is carried out. The
      outcome is the result, the writes and sleeps, and the text left in the
      brightness file. */
  function Conclude(chosen: Modes, count: int, time: int, brightnessFile: string, maxBrightness: int): (o: SweepOutcome)
    ensures o.events == [] ==> o.brightnessFile == brightnessFile
    ensures o.result.Failure? ==> |o.events| <= 1
    ensures o.result.Success? ==> PercentOf(brightnessFile, maxBrightness).Success?
    ensures chosen == Modes(None, None, None) ==> o == SweepOutcome(Failure(UnboundLocalError), [], brightnessFile)
  {
    var current := PercentOf(brightnessFile, maxBrightness);
    match Target(chosen, current)
    case Failure(e) => SweepOutcome(Failure(e), [], brightnessFile)
    case Success(target) =>
      match current
      case Failure(e) => SweepOutcome(Failure(e), [], brightnessFile)
      case Success(now) =>
        match Plan(now, target, count, time)
        case Keep => SweepOutcome(Success(()), [], brightnessFile)
        case Direct(t) => SweepOutcome(Success(()), [Write(t)], WrittenText(t, maxBrightness))
        case SweepTo(t) => Sweep(brightnessFile, maxBrightness, t, count, time)
  }

  /** A command succeeds exactly when some mode is set and the brightness
      can be read: the sweep branch always has a positive step count and
      delay, so its division and its sleeps cannot raise. */
  lemma ConcludeSucceeds(chosen: Modes, count: int, time: int, brightnessFile: string, maxBrightness: int)
    ensures Conclude(chosen, count, time, brightnessFile, maxBrightness).result.Success?
      <==> chosen != Modes(None, None, None) && PercentOf(brightnessFile, maxBrightness).Success?
  {
    var current := PercentOf(brightnessFile, maxBrightness);
    if chosen != Modes(None, None, None) && current.Success? {
      var target := Target(chosen, current).value;
      match Plan(current.value, target, count, time)
      case Keep =>
      case Direct(t) =>
      case SweepTo(t) =>
        SweepSucceeds(brightnessFile, maxBrightness, target, count, time);
    }
  }

  /** The effect of one _handle_other_actions call: the modes and steps it
      leaves in the arguments, its result, its writes and sleeps, and the
      text left in the brightness file. */
  datatype Effect = Effect(modes: Modes, steps: int, result: Result<()>, events: seq<Event>, brightnessFile: string)

  /** _handle_other_actions on arguments (pc, modes, fps, steps, time) and a
      controller whose file holds `brightnessFile`. */
  function Handle(pc: Option<string>, modes: Modes, fps: int, steps: int, time: int,
                  brightnessFile: string, maxBrightness: int): (e: Effect)
    ensures ApplyPc(pc, modes).Failure? ==>
      e == Effect(modes, steps, Failure(ApplyPc(pc, modes).error), [], brightnessFile)
    ensures pc.None? ==> e.modes == modes
    ensures e.events == [] ==> e.brightnessFile == brightnessFile
    ensures e.result.Failure? ==> |e.events| <= 1
  {
    match ApplyPc(pc, modes)
    case Failure(e) => Effect(modes, steps, Failure(e), [], brightnessFile)
    case Success(chosen) =>
      var count := StepsFor(fps, time, steps);
      var o := Conclude(chosen, count, time, brightnessFile, maxBrightness);
      Effect(chosen, count, o.result, o.events, o.brightnessFile)
  }

  /** A direct set writes the target once and never sleeps. */
  lemma DirectWritesTarget(target: real, maxBrightness: int)
    ensures Writes([Write(target)]) == [target]
    ensures ReadRaw(WrittenText(target, maxBrightness)) == Success(RawFromPercent(target, maxBrightness))
  {
    assert [Write(target)][..0] == [];
    ParseIntOfDecimal(RawFromPercent(target, maxBrightness));
  }

  /** A successful command ends at its target, which lies in [0, 100]:
      either the brightness already was the target and nothing was written,
      or the last percentage written is the target and the file holds its
      raw value. A direct set writes once and never sleeps. */
  lemma ConcludeReachesTarget(chosen: Modes, count: int, time: int, brightnessFile: string, maxBrightness: int)
    requires Conclude(chosen, count, time, brightnessFile, maxBrightness).result.Success?
    ensures var o := Conclude(chosen, count, time, brightnessFile, maxBrightness);
      var current := PercentOf(brightnessFile, maxBrightness);
      && current.Success?
      && Target(chosen, current).Success?
      && var target := Target(chosen, current).value;
      && 0.0 <= target <= 100.0
      && (o.events == [] <==> current.value == target)
      && (o.events == [] ==> o.brightnessFile == brightnessFile)
      && (o.events != [] ==>
            && |Writes(o.events)| > 0
            && Writes(o.events)[|Writes(o.events)| - 1] == target
            && o.brightnessFile == WrittenText(target, maxBrightness)
            && ReadRaw(o.brightnessFile) == Success(RawFromPercent(target, maxBrightness)))
      && (o.events != [] && (count <= 1 || time < 1) ==> o.events == [Write(target)])
  {
    var current := PercentOf(brightnessFile, maxBrightness);
    var target := Target(chosen, current).value;
    var o := Conclude(chosen, count, time, brightnessFile, maxBrightness);
    DirectWritesTarget(target, maxBrightness);
    match Plan(current.value, target, count, time)
    case Keep =>
    case Direct(t) =>
      assert o.events == [Write(target)];
    case SweepTo(t) =>
      assert o == Sweep(brightnessFile, maxBrightness, target, count, time);
      SweepReachesTarget(brightnessFile, maxBrightness, target, count, time);
  }

  /** The parsed arguments of the command line; _handle_other_actions
      assigns the mode fields and steps. */
  class Arguments {
    var pc: Option<string>
    var setPercent: Option<real>
    var incPercent: Option<real>
    var decPercent: Option<real>
    var fps: int
    var steps: int
    var time: int
    const ctrl: Controller

    constructor (pc: Option<string>, modes: Modes, fps: int, steps: int, time: int, ctrl: Controller)
      ensures this.pc == pc && this.fps == fps && this.steps == steps && this.time == time && this.ctrl == ctrl
      ensures Modes(setPercent, incPercent, decPercent) == modes
    {
      this.pc := pc;
      this.setPercent := modes.setPercent;
      this.incPercent := modes.incPercent;
      this.decPercent := modes.decPercent;
      this.fps := fps;
      this.steps := steps;
      this.time := time;
      this.ctrl := ctrl;
    }
  }

  /** Lines 45-52 of _handle_other_actions: the PERCENT argument, if any,
      sets the mode its first character names; a malformed number raises
      ValueError and leaves the modes alone. */
  method ApplyPercentArgument(arguments: Arguments) returns (r: Result<()>)
    modifies arguments
    ensures var applied := ApplyPc(arguments.pc, old(Modes(arguments.setPercent, arguments.incPercent, arguments.decPercent)));
      var now := Modes(arguments.setPercent, arguments.incPercent, arguments.decPercent);
      && (applied.Success? ==> r == Success(()) && now == applied.value)
      && (applied.Failure? ==> r == Failure(applied.error) && now == old(Modes(arguments.setPercent, arguments.incPercent, arguments.decPercent)))
    ensures arguments.pc == old(arguments.pc) && arguments.fps == old(arguments.fps)
    ensures arguments.steps == old(arguments.steps) && arguments.time == old(arguments.time)
  {
    r := Success(());
    if arguments.pc.Some? {
      var pc := arguments.pc.value;
      if |pc| == 0 {
        return Failure(ValueError);
      }
      var value := ParseReal(pc[1..]);
      if value.None? {
        return Failure(ValueError);
      }
      if pc[0] == '=' {
        arguments.setPercent := Some(value.value);
      } else if pc[0] == '+' {
        arguments.incPercent := Some(value.value);
      } else if pc[0] == '-' {
        arguments.decPercent := Some(value.value);
      }
    }
  }

  /** Lines 56-62 of _handle_other_actions: the target chosen by the modes,
      reading the controller's brightness for an increase or a decrease. */
  method ChooseTarget(arguments: Arguments) returns (r: Result<real>)
    ensures r == Target(Modes(arguments.setPercent, arguments.incPercent, arguments.decPercent),
                        PercentOf(arguments.ctrl.brightnessFile, arguments.ctrl.maxBrightness))
  {
    var target: real;
    if arguments.setPercent.Some? {
      target := arguments.setPercent.value;
    } else if arguments.incPercent.Some? {
      var current := arguments.ctrl.Brightness();
      if current.Failure? {
        return Failure(current.error);
      }
      target := current.value + arguments.incPercent.value;
    } else if arguments.decPercent.Some? {
      var current := arguments.ctrl.Brightness();
      if current.Failure? {
        return Failure(current.error);
      }
      target := current.value - arguments.decPercent.value;
    } else {
      return Failure(UnboundLocalError);
    }
    return Success(Normalize(target, 0.0, 100.0));
  }

  /** _handle_other_actions: its result, writes and sleeps, the new text of
      the controller's file and the new argument fields are those of Handle. */
  method HandleOtherActions(arguments: Arguments) returns (r: Result<()>, ghost events: seq<Event>)
    modifies arguments, arguments.ctrl
    ensures var e := Handle(old(arguments.pc),
                            old(Modes(arguments.setPercent, arguments.incPercent, arguments.decPercent)),
                            old(arguments.fps), old(arguments.steps), old(arguments.time),
                            old(arguments.ctrl.brightnessFile), arguments.ctrl.maxBrightness);
      && r == e.result && events == e.events
      && arguments.ctrl.brightnessFile == e.brightnessFile
      && Modes(arguments.setPercent, arguments.incPercent, arguments.decPercent) == e.modes
      && arguments.steps == e.steps
    ensures arguments.pc == old(arguments.pc) && arguments.fps == old(arguments.fps) && arguments.time == old(arguments.time)
  {
    events := [];
    ghost var modes := Modes(arguments.setPercent, arguments.incPercent, arguments.decPercent);
    r := ApplyPercentArgument(arguments);
    if r.Failure? {
      return;
    }
    ghost var chosen := Modes(arguments.setPercent, arguments.incPercent, arguments.decPercent);
    arguments.steps := StepsFor(arguments.fps, arguments.time, arguments.steps);
    ghost var file := arguments.ctrl.brightnessFile;
    ghost var o := Conclude(chosen, arguments.steps, arguments.time, file, arguments.ctrl.maxBrightness);
    assert Handle(arguments.pc, modes, arguments.fps, old(arguments.steps), arguments.time, file, arguments.ctrl.maxBrightness)
        == Effect(chosen, arguments.steps, o.result, o.events, o.brightnessFile);
    var target := ChooseTarget(arguments);
    if target.Failure? {
      return Failure(target.error), events;
    }
    var current := arguments.ctrl.Brightness();
    if current.Failure? {
      return Failure(current.error), events;
    }
    if current.value == target.value {
      r := Success(());
    } else if arguments.steps <= 1 || arguments.time < 1 {
      arguments.ctrl.SetBrightness(target.value);
      r := Success(());
      events := [Write(target.value)];
    } else {
      r, events := SweepBrightness(arguments.ctrl, target.value, arguments.steps, arguments.time);
    }
  }

  /** A controller at 50 of 100 set to 75% in 5 steps over 500 ms: 55, 60,
      65, 70 and 75% written, each followed by a 0.1 s sleep, and the file
      left holding 75. */
  lemma HandleExample()
    ensures Handle(None, Modes(Some(75.0), None, None), 0, 5, 500, "50", 100)
         == Effect(Modes(Some(75.0), None, None), 5, Success(()),
                   [Write(55.0), Sleep(0.1), Write(60.0), Sleep(0.1), Write(65.0), Sleep(0.1),
                    Write(70.0), Sleep(0.1), Write(75.0), Sleep(0.1)],
                   "75")
  {
    ParseIntOfDecimal(50);
    assert NatToDecimal(5) == "5";
    assert IntToDecimal(50) == "50";
    assert PercentOf("50", 100) == Success(50.0);
    StepsExample();
    var values := [55.0, 60.0, 65.0, 70.0, 75.0];
    assert Pause(500, 5) == 0.1;
    SweepTraceExtend(values, 0, 0.1);
    SweepTraceExtend(values, 1, 0.1);
    SweepTraceExtend(values, 2, 0.1);
    SweepTraceExtend(values, 3, 0.1);
    SweepTraceExtend(values, 4, 0.1);
    assert values[..0] == [] && values[..5] == values;
    assert RawFromPercent(75.0, 100) == 75;
    assert NatToDecimal(7) == "7";
    assert WrittenText(75.0, 100) == "75";
  }
}

# acpilight brightness engine in Dafny

acpilight is a replacement for `xbacklight`. It sets backlight and LED brightness on Linux through the
`sys` filesystem. This project models its engine and proves properties of the model:

- the clamp `normalize`;
- the `Controller`, which turns a device's raw brightness file into a percentage and back;
- the step generator and the sweep that fade between two percentages;
- controller discovery under `/sys/class/backlight` and `/sys/class/leds`, and the selection of one
  controller by `make_controller`;
- the command policy of `_handle_other_actions` and the argument validator `_percent`.

Modules, one per file:

- `Outcomes` (outcomes.dfy): `Option`, and a `Result` whose errors are the Python exceptions the core
  can raise. These are `ValueError`, `ZeroDivisionError`, `IndexError`, `FileNotFoundError`,
  `SystemExit` and `UnboundLocalError`.
- `Utils` (utils.dfy): `normalize` over reals (Python floats) and over integers.
- `Decimal` (decimal.dfy): the parts of Python's `str`, `int` and `float` the core relies on. `str(n)`
  gives decimal digits with a sign. `int(text)` accepts ASCII whitespace around an optionally signed
  run of digits. `float(text)` also accepts a decimal fraction. The module proves
  `int(str(n)) == n` and `float(str(n)) == n`.
- `Brightness` (brightness.dfy): `MINIMUM_BRIGHTNESS_VALUE` (0), the class `Controller`, the step
  generator as a function on sequences, and `sweep_brightness` as a method. Its write-and-sleep loop is
  the method `WriteAndSleep`.
  - A brightness file is a cell holding text. A write replaces the text; a read parses it.
  - The sweep keeps a ghost log of `Write(percent)` and `Sleep(seconds)` events.
- `Discovery` (discovery.dfy): `CONTROLLERS_PATH`, `MAXIMUM_BRIGHTNESS_FILE`, `BRIGHTNESS_FILE`,
  `get_controllers` and `make_controller`.
  - Directory listings and the contents of files are inputs (maps from path to names or text).
  - The `OrderedDict` is a `Registry`: keys in insertion order plus a map from key to path.
- `Acpilight` (acpilight.dfy): `VALID_PERCENT_ARGUMENT_BEGINNING`, `_percent`, and
  `_handle_other_actions` on a class `Arguments` that holds the parsed command line.
  - The Python attributes `set`, `inc` and `dec` are the fields `setPercent`, `incPercent` and
    `decPercent`, because `set` is a Dafny keyword.

Four methods are proved equal to a specification function, and the properties are proved about
that function:

| method | specification function |
|---|---|
| `SweepBrightness` | `Sweep` |
| `GetControllers` | `Discover` |
| `ChooseTarget` | `Target` |
| `HandleOtherActions` | `Handle` |

The other methods that change state (`SetRawBrightness`, `SetBrightness`, `WriteAndSleep` and
`ApplyPercentArgument`) state the new state directly in their contracts. `MakeController` is stated
in terms of `ControllerFiles`, the discovery, selection and file lookup it performs.

## Model

| member | source | states |
|---|---|---|
| Utils.Normalize | acpilight/utils.py:9-27 | For `minimum <= maximum` the result lies in `[minimum, maximum]`. A value in range is returned unchanged. A value below `minimum` gives `minimum`. A value above `maximum` gives `maximum`. When `maximum < minimum`, every value gives `minimum`. |
| Utils.NormalizeInt | tests/test_acpilight.py:7-11 | The integer clamp agrees with the real one. Every integer clamped to `[0, 100]` lands in `[0, 100]`. An in-range value is unchanged, and inverted bounds give the minimum. |
| Utils.NormalizeIdempotent | acpilight/utils.py:27 | Clamping twice gives the same result as clamping once. |
| Utils.NormalizeMonotone | acpilight/utils.py:27 | Clamping preserves order: `v1 <= v2` implies `normalize(v1) <= normalize(v2)`. |
| Utils.NormalizeExample | acpilight/utils.py:22-25 | `normalize(-5, 0, 100) == 0`. |
| Decimal.IntToDecimal | acpilight/brightness.py:83 | `str(n)`: a `-` comes first exactly when `n < 0`, and the rest is canonical digits, so the text has no surrounding whitespace. It is the text `ParseIntOfDecimal` and `ParseRealOfDecimal` read back. |
| Decimal.NatToDecimal | acpilight/brightness.py:83 | `str(n)` of a natural number is a non-empty run of digits with no leading zero. |
| Decimal.DigitsValueOfDecimal | acpilight/brightness.py:83 | The digits written for `n` have the value `n`. |
| Decimal.DecimalOfDigitsValue | acpilight/brightness.py:66 | A canonical digit string is `str` of its own value, so the text written back after a read is the text that was read. |
| Decimal.StripOfDecimal | acpilight/brightness.py:66 | The text of an integer carries no whitespace for `int()` to strip. |
| Decimal.ParseInt | acpilight/brightness.py:66 | `int(text)`: whitespace, an optional sign and a run of digits. A negative result comes only from a leading `-`. It is the parser the `ParseIntOfDecimal` round trip and the brightness reads are about. |
| Decimal.ParseReal | acpilight/acpilight.py:46 | `float(text)` in plain decimal notation. A negative result comes only from a leading `-`. It is the parser `ParseRealOfDecimal`, `PercentIntended` and `ApplyPc` are about. |
| Decimal.ParseRealOfParseInt | acpilight/acpilight.py:46 | Text that `int()` accepts, `float()` accepts too, with the same value. |
| Decimal.ParseIntOfDecimal | acpilight/brightness.py:66 | `int(str(n)) == n` for every integer, negative ones included. |
| Decimal.UnsignedRealOfDecimal | acpilight/acpilight.py:46 | An unsigned digit string parses as a float to its integer value. |
| Decimal.ParseRealOfDecimal | acpilight/acpilight.py:46 | `float(str(n)) == n` for every integer. |
| Brightness.Trunc | acpilight/brightness.py:88 | `trunc` rounds toward zero: up to one unit below a non-negative number, and up to one unit above a negative one. |
| Brightness.RawFromPercent | acpilight/brightness.py:86-88 | The raw value stored for any percentage lies in `[0, max]`. A percentage of 0 or less stores 0, and 100 or more stores `max`. |
| Brightness.RawFromPercentUnclamped | acpilight/brightness.py:88 | For a percentage in `[0, 100]`, the raw value stored is `p*max/100` rounded down, so the clamp does not change it. |
| Brightness.ReadRaw | acpilight/brightness.py:63-69 | The raw read is `int()` of the file text, and its only error is ValueError. It is the read that `PercentOfWritten`, `SetRawBrightness` and `ConcludeReachesTarget` are about. |
| Brightness.PercentOf | acpilight/brightness.py:71-74 | The brightness property succeeds exactly when the raw read succeeds and `max` is nonzero. A bad file text gives ValueError, and `max == 0` gives ZeroDivisionError. It is the read that `PercentInRange`, `PercentReadBack` and `Sweep` are about. |
| Brightness.PercentInRange | acpilight/brightness.py:74 | A raw value in `[0, max]` reads as a percentage in `[0, 100]`. |
| Brightness.PercentOfWritten | acpilight/brightness.py:71-88 | After setting a percentage, reading the percentage gives the stored raw value times 100 over `max`. |
| Brightness.PercentReadBack | acpilight/brightness.py:71-88 | Setting `p` and reading back gives `q` in `[0, 100]`. For `p` in `[0, 100]`, `q <= p < q + 100/max`: the read-back loses less than one raw unit. |
| Brightness.Controller.constructor | acpilight/brightness.py:59-61 | The controller holds the given brightness file and maximum. |
| Brightness.Controller.Create | acpilight/brightness.py:59-61 | The maximum is parsed once with `int()`. Text that is not an integer raises ValueError. |
| Brightness.Controller.RawBrightness | acpilight/brightness.py:63-69 | The raw brightness is the file text parsed by `int()`, or ValueError. |
| Brightness.Controller.Brightness | acpilight/brightness.py:71-74 | The percentage is `raw / max * 100`. It fails with the read's ValueError, or with ZeroDivisionError when `max` is 0. |
| Brightness.Controller.SetRawBrightness | acpilight/brightness.py:76-84 | The file holds `str(normalize(v, 0, max))`. The stored raw value reads back in `[0, max]`, and an in-range `v` reads back as itself. `max` never changes. |
| Brightness.Controller.SetBrightness | acpilight/brightness.py:86-88 | The file holds `str(normalize(trunc(p*max/100), 0, max))`, and a read of the raw value returns that integer. |
| Brightness.RawBrightnessExample | acpilight/brightness.py:48-56 | A controller over the files `'5'` and `'100'`: setting the raw brightness to 15 reads back 15. |
| Brightness.StepsFrom | acpilight/brightness.py:23-26 | The generator started at step `k` yields `max(steps-k, 0) + 1` values, and the last is exactly the target. |
| Brightness.StepsFromAt | acpilight/brightness.py:23-24 | The value yielded at position `i` is the interpolation for step `k + i`. |
| Brightness.BrightnessSteps | acpilight/brightness.py:14-26 | `generate_brightness_steps` yields `max(steps-1, 0) + 1` values and ends with exactly the target. |
| Brightness.InterpolationEnds | acpilight/brightness.py:24-26 | The interpolation at step `steps` is the target itself. |
| Brightness.InterpolationOrdered | acpilight/brightness.py:24 | Interpolations lie between the current value and the target, and move toward the target as the step grows. |
| Brightness.StepsAreInterpolations | acpilight/brightness.py:22-26 | Value `k` (0-based) is `current + (target - current) * (k+1) / steps`, with `current` read once. |
| Brightness.StepsBetween | acpilight/brightness.py:23-26 | Every generated value lies between the current value and the target. |
| Brightness.StepsMonotone | acpilight/brightness.py:23-26 | Consecutive values never move away from the target. |
| Brightness.StepsFromZeroBounded | acpilight/brightness.py:23-26 | Starting from 0, no generated value exceeds a non-negative target. |
| Brightness.StepsExample | acpilight/brightness.py:14-26 | From 50 to 75 in 5 steps the values are 55, 60, 65, 70 and 75. |
| Brightness.SweepTrace | acpilight/brightness.py:38-40 | A sweep over `n` values logs `2n` events. |
| Brightness.SweepTraceAt | acpilight/brightness.py:38-40 | Event `2k` writes value `k`, and event `2k+1` sleeps for the pause. |
| Brightness.TotalSleepOfTrace | acpilight/brightness.py:38-40 | The sleeps of a trace over `n` values add up to `n` times the pause. |
| Brightness.PausesAddUp | acpilight/brightness.py:37 | `steps` pauses add up to `delay / 1000` seconds. |
| Brightness.PauseSign | acpilight/brightness.py:37-40 | The pause is negative exactly when the delay and the step count have opposite signs. That is the case where `time.sleep` raises ValueError. |
| Brightness.WritesOfTrace | acpilight/brightness.py:38-39 | The percentages a trace writes are exactly the generated values, in order. |
| Brightness.Sweep | acpilight/brightness.py:29-40 | `steps == 0` raises ZeroDivisionError with nothing written. A sweep that writes nothing fails and leaves the file alone. A failing sweep writes at most once. It is the definition that `SweepSucceeds`, `SweepReachesTarget` and `SweepWritesBetween` are about. |
| Brightness.SweepSucceeds | acpilight/brightness.py:29-40 | With at least one step, a non-negative delay and a readable controller, the sweep succeeds. It writes the trace of the generated values and leaves the target's raw value in the file. |
| Brightness.SweepReachesTarget | acpilight/brightness.py:29-40 | Under the same conditions, the sweep writes the generated values in order, with `2*steps` events. The last write is the target, followed by one pause. The sleeps add up to `delay/1000` seconds, and the file ends holding the target. |
| Brightness.SweepWritesBetween | acpilight/brightness.py:29-40 | Every percentage a sweep writes lies between the brightness it read and the target. This holds on the error paths too. |
| Brightness.WriteAndSleep | acpilight/brightness.py:38-40 | Each value is written and then slept after, in order. The file ends holding the last value's raw brightness. A negative pause raises ValueError right after the first write. |
| Brightness.SweepBrightness | acpilight/brightness.py:29-40 | The result, writes and sleeps, and final file text are those of `Sweep`. `steps == 0` raises ZeroDivisionError before any write. A negative pause raises ValueError after the first write. |
| Discovery.Registry.Values | acpilight/brightness.py:113 | `controllers.values()` lists each key's path, in key order. |
| Discovery.Registry.Put | acpilight/brightness.py:100 | `OrderedDict` assignment: a new key goes last, an existing key keeps its place, and the path is replaced. Keys stay distinct. |
| Discovery.PutAll | acpilight/brightness.py:99-100 | Inserting the names of one listing keeps the registry well formed. |
| Discovery.PutAllNames | acpilight/brightness.py:99-100 | After one listing, the keys are the old keys followed by the new names, in first-seen order. |
| Discovery.PutAllDomain | acpilight/brightness.py:99-100 | After one listing, the keys are the old keys and the listed names, and nothing else. |
| Discovery.PutAllPaths | acpilight/brightness.py:99-100 | After one listing, every listed name maps to `join(base, name)`, and the other keys keep their paths. |
| Discovery.Discover | acpilight/brightness.py:91-102 | A successful discovery gives a well-formed registry. |
| Discovery.DiscoverCorrect | acpilight/brightness.py:97-102 | The keys are the listed names, in order of first listing, with no others. Each key maps to its path under the last base that lists it. |
| Discovery.DiscoverFails | acpilight/brightness.py:98-99 | Discovery fails exactly when some base cannot be listed, and the error is FileNotFoundError. |
| Discovery.DiscoverFailurePersists | acpilight/brightness.py:98-99 | Once a base fails to list, the later bases are never reached. |
| Discovery.GetControllers | acpilight/brightness.py:91-102 | The nested loop over `CONTROLLERS_PATH` builds exactly `Discover(CONTROLLERS_PATH, listings)`. |
| Discovery.SelectPath | acpilight/brightness.py:113-121 | A given argument that is not among the paths exits with status 1, and only such an argument does. An empty registry always fails, with IndexError when no argument is given. A selection is always one of the paths. No argument selects the first path. An argument that passes the check is then looked up as a key: the path stored under it if it is a key, and otherwise the first path. |
| Discovery.DiscoveredPathsHaveSlash | acpilight/brightness.py:100 | Every discovered path contains `/`. |
| Discovery.SelectByNameExits | acpilight/brightness.py:113-119 | A bare controller name, which contains no `/`, is never among the paths, so it exits with status 1. |
| Discovery.SelectByPathGivesDefault | acpilight/brightness.py:113-121 | A full path passes the check, but when names contain no `/` it is never a key. The lookup then falls back to the first controller. |
| Discovery.ControllerFiles | acpilight/brightness.py:111-129 | Discovery fails with FileNotFoundError when a base cannot be listed. A selection failure (exit status 1, or IndexError on an empty registry) is passed on unchanged. A missing `brightness` or `max_brightness` file under the selected path gives FileNotFoundError, and when both exist the result is a success. A success holds the texts of the `brightness` and `max_brightness` files under one of the discovered paths, the one `SelectPath` chose. It is the specification `MakeController` is proved against. |
| Discovery.MakeController | acpilight/brightness.py:105-130 | The result is the error from discovery, selection, a missing file or parsing the maximum. Otherwise it is a fresh controller over the selected brightness file with the parsed maximum. |
| Discovery.DiscoveryExample | acpilight/brightness.py:97-102 | Take a name `a` listed under both bases, and a name `b` listed after it under `/sys/class/backlight`. Then `a` keeps its first place but maps to `/sys/class/leds/a`, `b` maps to `/sys/class/backlight/b`, and the default controller is `a`'s path. |
| Acpilight.Percent | acpilight/acpilight.py:18-20 | `_percent` as written: a success is always None, and only the empty argument fails, with IndexError. It is the as-written half of the finding below. |
| Acpilight.PercentAcceptsNothing | acpilight/acpilight.py:18-20 | As written, `_percent` returns None for every non-empty argument and raises IndexError on the empty one. It never returns an argument. |
| Acpilight.PercentIntended | acpilight/acpilight.py:18-27 | The corrected validator accepts exactly the arguments with a valid first character whose number part parses. Accepted arguments begin with `=`, `+` or `-`, and a bare number gets `=` in front. |
| Acpilight.PercentDropsNumbers | acpilight/acpilight.py:19-22 | For every natural number written as text, the validator as written returns None, while the corrected one returns `=` followed by the text. |
| Acpilight.ApplyPc | acpilight/acpilight.py:45-52 | No PERCENT argument leaves the modes alone. A malformed number raises ValueError. Otherwise the first character picks the mode that receives `float(pc[1:])`, and the other modes are untouched. |
| Acpilight.IntendedPercentIsApplied | acpilight/acpilight.py:45-52 | Every argument the corrected validator accepts is parsed without error and sets one of the three modes. |
| Acpilight.StepsFor | acpilight/acpilight.py:53-54 | A zero fps keeps the given steps, and a zero time with a nonzero fps gives 0 steps. It is the definition `StepsForRate` bounds. |
| Acpilight.StepsForRate | acpilight/acpilight.py:53-54 | A nonzero fps sets the step count to `fps*time/1000`, computed exactly and truncated toward zero. A zero fps keeps the given steps. |
| Acpilight.Target | acpilight/acpilight.py:56-62 | The target always lies in `[0, 100]`. `set` wins over `inc`, which wins over `dec`. `inc` and `dec` move the brightness read and fail if that read fails. With no mode, `target` is unbound. |
| Acpilight.Plan | acpilight/acpilight.py:63-73 | Nothing happens exactly when the brightness equals the target. There is a single write exactly when they differ and `steps <= 1` or `time < 1`. A sweep gets at least 2 steps and a positive delay. |
| Acpilight.Conclude | acpilight/acpilight.py:56-73 | A command that writes nothing leaves the file alone. A failing command writes at most once. A success has read the brightness. With no mode set, UnboundLocalError is raised before anything happens. It is the definition `ConcludeReachesTarget` and `ConcludeSucceeds` are about. |
| Acpilight.ConcludeSucceeds | acpilight/acpilight.py:56-73 | A command succeeds exactly when some mode is set and the brightness can be read. In particular a sweep never raises, because it always has at least two steps and a positive delay. |
| Acpilight.DirectWritesTarget | acpilight/acpilight.py:65-66 | A one-write trace writes only its value, and the text written for that value parses back to its raw value. `ConcludeReachesTarget` uses it for the direct set. |
| Acpilight.ConcludeReachesTarget | acpilight/acpilight.py:56-73 | A successful command ends at its target, which lies in `[0, 100]`. If nothing was written, the brightness already was the target. Otherwise the last percentage written is the target and the file holds its raw value. A direct set is one write and no sleep. |
| Acpilight.Handle | acpilight/acpilight.py:44-73 | A malformed PERCENT argument raises before anything changes. No PERCENT argument leaves the modes alone. A command that writes nothing leaves the file alone, and a failing command writes at most once. It is the specification `HandleOtherActions` is proved equal to. |
| Acpilight.ApplyPercentArgument | acpilight/acpilight.py:45-52 | The argument fields are assigned as `ApplyPc` says. On an error they are left alone. |
| Acpilight.ChooseTarget | acpilight/acpilight.py:56-62 | The computed target, or its error, is `Target` of the modes and the controller's brightness. |
| Acpilight.HandleOtherActions | acpilight/acpilight.py:44-73 | The result, writes and sleeps, the new file text, the new modes and the new step count are those of `Handle`. |
| Acpilight.HandleExample | acpilight/acpilight.py:44-73 | A controller at 50 of 100 set to 75 over 5 steps and 500 ms writes 55, 60, 65, 70 and 75, sleeping 0.1 s after each write, and ends holding 75. |

## Left out

- `main`, the argparse setup, and the display helpers `_display_controllers`, `_display_brightness` and `_display_fractional_brightness` are left out. They build the command line and print. `Arguments` takes their place as an input.
- Percentages and sleep lengths are exact reals. IEEE double rounding in `raw / max * 100`, in the interpolation, in `(fps / 1000) * time` and in `float()` is not modelled.
- `int()` and `float()` are modelled for ASCII whitespace, an optional sign, decimal digits and, for `float()`, one decimal point. Underscores, non-ASCII digits and whitespace, exponents, `inf` and `nan` are not modelled.
- File handles are cells of text. `seek(0)`, file positions, partial overwrites of a longer text, and the truncation by mode `'w+'` are not modelled, so a write replaces the whole text, as a sysfs attribute does.
- `Discovery.MakeController`: a missing `max_brightness` or `brightness` file is FileNotFoundError. Creation of a missing file by mode `'w+'` and permission errors are not modelled.
- `time.sleep` is a logged `Sleep` event. Wall-clock time is not modelled.
- `os.path.join` is modelled as concatenation with `/`. `os.listdir` is a map from base path to its names in listing order, and a missing base raises FileNotFoundError.
- The message `make_controller` prints before exiting is not modelled. Only the exit status 1 is kept.
- setup.py holds packaging metadata only.
- A missing base directory is not skipped: `os.listdir` raises FileNotFoundError for it and `get_controllers` does not catch it (acpilight/brightness.py:98-99), so `Discover` fails there too.
- The fps-derived step count is `int(...)` of a float, which truncates toward zero, negative products included (acpilight/acpilight.py:54).
- `Acpilight.StepsFor`: the product `(fps / 1000) * time` is exact, so the model's step count can be one higher than the program's when the exact product is a whole number that the double falls just short of. For fps=290 and time=100 the program computes 28.999999999999996 and takes 28 steps, and the model takes 29.
- `_percent` never returns an argument (acpilight/acpilight.py:19); see Findings.
- `Brightness.Controller.SetRawBrightness`: writes to and reads of an opened brightness file are assumed to succeed. An OSError from `write` or `read` is not modelled, so the model has no sweep that stops part-way because a write failed.
- `Acpilight.HandleOtherActions`: the step count is computed by the function `StepsFor`, which holds the formula `int((fps / 1000) * time)`. It is not computed inline.

## Findings

| source | as written | input that shows it | evidently intended | confidence | as-written member | corrected member |
|---|---|---|---|---|---|---|
| acpilight/acpilight.py:19 | The guard `if arg or arg[0] not in ...` returns None for every non-empty argument. It raises IndexError on the empty one, so no argument is ever accepted. | `"50"`: as written it gives None. | `if not arg or arg[0] not in ...`: `"50"` becomes `"=50"`, and `"+5"` is kept. | not executed | Acpilight.PercentDropsNumbers | Acpilight.PercentIntended |

# timetemp3 display-digit encoders in Dafny

timetemp3 drives two 4-digit seven-segment displays on a small board: one
shows the time of day, the other a temperature reading. The reading shown
is the one `display_location_temperature` (timetemp3/datalogging.py:41-47)
picks by location: the local sensor, the outdoor weather service or the
Nest thermostat, each marked by its own symbol. Before anything
reaches the display driver, each reading is turned into a *digit code* of
five cells: digit1..digit4 and the colon (or flag) cell. This project
models the two encoders that compute those codes and proves what they do.

- `Temperature` (timetemp3/temperature.py): `get_temperature_digits_in_fahrenheit`
  and `_lookup_where_temperature_digit`. A finite temperature (or `None`) and a
  location become one of six layouts, chosen by `round(t * 10)`.
- `Clock` (timetemp3/time.py): `get_time_digits`, the 12/24-hour clock with a
  blinking colon.
- `Timetemp3` (timetemp3/__init__.py): the package's own copy of
  `get_time_digits` and its default hour mode, proved to agree with `Clock`.
- `PyNum`: the Python semantics the encoders rely on. `round` rounds half to
  even and returns an int. `abs` takes the absolute value. `int(a / b)`
  truncates toward zero.
- `Display`: the `Cell` type, the cell indices and digit characters.

Each encoder is a pure function (`TemperatureDigits`, `TimeDigits`). Beside
it sits a method (`GetTemperatureDigits`, `GetTimeDigits`) that runs the way
the source does: it starts from five unset cells, sets them one index at a
time, and reassigns the local hour. Each method is proved to return exactly the function's result.
Each encoder also has a partner: a decoder for what a person reads off the
display (`DisplayedValue`, `ReadClock`).

A Python list cell may hold `None`, an int, a str or a bool, and `Cell`
keeps these apart. Ints are split into digit values (`Num`) and raw
segment patterns (`Raw`). The driver writes a `Raw` cell with
`set_digit_raw` because it is an int in the third position. Python
compares both kinds as plain ints.

Behaviour worth knowing, proved as lemmas and kept exactly as the source
computes it:
- For 99.45 < t < 99.5, the tenths already select the three-digit layout,
  but `round(t)` is still 99. The code is `[0, 0, '9', 'F', False]`
  (`NearNinetyNinePointFive`).
- From 199.5 up, the tens cell holds `(round(t) - 100) / 10`, which is 10
  or more (`TensCellOverflow`).
- For -9.55 < t <= -9.5, the display shows "-0" (`MinusNinePointFive`).
- For -0.5 <= t < -0.45, the display also shows "-0": the tenths round to
  -5, which selects the minus layout, and `round(abs(t))` is 0
  (`MinusZeroNearZero`). That still reads as `round(t)`, which is 0.
- For -99.55 < t <= -99.5, the tens cell holds 10 (`MinusNinetyNinePointFive`).
- The `rounded == 10` case of the one-digit layout happens only for
  9.5 <= t < 9.55 (`OneDigitNonNegativeLayout`).
- Outside those windows, and between -99.5 and 199.5, the display reads
  exactly `round(t)` (`DisplayShowsRoundedReading`, an if-and-only-if).

Three further facts about the code:
- The degrees symbol is selected by the location name `'nest'`
  (timetemp3/temperature.py:37).
- The three-digit tens cell uses `int(...)`, which truncates toward zero
  (timetemp3/temperature.py:56). Truncation differs from floor only in the
  99.45..99.5 window, where `round(t) - 100` is -1.
- The `rounded == 10` case of the one-digit layout happens only for
  9.5 <= t < 9.55 (timetemp3/temperature.py:62-67).

## Model

| member | source | states |
|---|---|---|
| `PyNum.PyRound` | timetemp3/temperature.py:54 | `round(x)` is an integer within 1/2 of x, and the even one on a tie; with `HalfEvenUnique` and `RoundUnique` it is the only such integer |
| `PyNum.HalfEvenUnique` | timetemp3/temperature.py:54 | no two different integers both round x half-even |
| `PyNum.RoundUnique` | timetemp3/temperature.py:54 | any integer that rounds x half-even equals `PyRound(x)`, so `PyRound` is Python's `round` |
| `PyNum.RoundAtLeast` | timetemp3/temperature.py:54-84 | round(x) >= n exactly when x > n - 1/2, or x == n - 1/2 with n even: the exact threshold of every range test |
| `PyNum.RoundNegate` | timetemp3/temperature.py:73 | round(-x) == -round(x), so the rounded magnitude is the magnitude of the rounded value |
| `PyNum.RoundShiftEven` | timetemp3/temperature.py:56 | shifting by an even integer commutes with rounding: round(t - 100) == round(t) - 100 |
| `PyNum.DivBounds` | timetemp3/temperature.py:55-56 | for a non-negative dividend, Dafny's quotient times the divisor is at most the dividend and within one divisor of it |
| `PyNum.TruncDiv` | timetemp3/temperature.py:55-56 | `int(a / b)` is the quotient truncated toward zero: bounded by a on the side of zero and within one divisor of it |
| `PyNum.Abs` | timetemp3/temperature.py:73 | `abs(t)` is non-negative and equals t or -t |
| `Display.AllUnset` | timetemp3/temperature.py:45 | `[None] * 5` has five cells, all unset |
| `Display.DigitChar` | timetemp3/temperature.py:57 | `str(d)` of a digit is one character '0'..'9' whose code is d above '0' |
| `Display.DigitOf` | timetemp3/temperature.py:78 | a string is a one-digit string exactly when it has one character in '0'..'9', and then it is `str` of that digit |
| `Display.DigitCharRoundTrip` | timetemp3/temperature.py:57 | reading a written digit character gives the digit back |
| `Temperature.LookupWhereDigit` | timetemp3/temperature.py:33-41 | 'outdoor' gives 0x6B, 'nest' gives 0x63, and every other location gives the tickmark 0x02, each in both directions |
| `Temperature.Tenths` | timetemp3/temperature.py:54 | `round(temperature * 10.0)` is the half-even rounding of ten times the reading, the value every branch test compares |
| `Temperature.Classify` | timetemp3/temperature.py:54-84 | the if/elif chain on round(t*10) picks exactly one of six disjoint ranges that cover all integers |
| `Temperature.BranchByTemperature` | timetemp3/temperature.py:54-84 | the layout as a function of t: three digits above 99.45, two from 9.55, one from -0.45, minus-one above -9.55, minus-two above -99.55, error otherwise |
| `Temperature.TemperatureDigits` | timetemp3/temperature.py:44-86 | five cells; `None` gives five unset cells; 'F' and an unlit colon unless it is the error code |
| `Temperature.GetTemperatureDigits` | timetemp3/temperature.py:44-86 | the index-by-index fill of the source returns exactly `TemperatureDigits` for every input |
| `Temperature.DisplayedValue` | timetemp3/temperature.py:54-84 | a code that reads as a number has 'F' last and a single digit in the second cell, and the number lies in -99..999 |
| `Temperature.RoundedBounds` | timetemp3/temperature.py:55-78 | the exact thresholds in t at which round(t) and round(abs(t)) reach 0, 10, 11, 99, 100, 101 and 200, and round(t) == -round(abs(t)) below zero |
| `Temperature.ErrorExactlyBelowRange` | timetemp3/temperature.py:79-84 | the code is 'E','E','E','E',True exactly when t <= -99.55; otherwise digit4 is 'F' and the colon is False |
| `Temperature.SymbolCellPlacement` | timetemp3/temperature.py:54-78 | the third cell is the location symbol exactly when -9.55 < t <= 99.45; otherwise it is one character, a digit in the three-digit and minus-two layouts |
| `Temperature.TwoDigitsPositiveLayout` | timetemp3/temperature.py:58-61 | for 9.55 <= t <= 99.45: round(t) is 10..99, split into tens and ones before the symbol, and it reads back as round(t) |
| `Temperature.OneDigitNonNegativeLayout` | timetemp3/temperature.py:62-70 | for -0.45 <= t < 9.55: round(t) is 0..10, and it is 10 exactly when t >= 9.5; a blank or 1, then its ones; it reads back as round(t) |
| `Temperature.OneDigitNegativeLayout` | timetemp3/temperature.py:71-74 | for -9.55 < t < -0.45: '-', then round(abs(t)) mod 10, then the symbol; the magnitude is 10 exactly when t <= -9.5, else it reads back as round(t) |
| `Temperature.TwoDigitsNegativeLayout` | timetemp3/temperature.py:75-78 | for -99.55 < t <= -9.55: '-', the tens as a number, and the ones as one text digit; the magnitude is 100 exactly when t <= -99.5, else it reads back as round(t) |
| `Temperature.ThreeDigitsLayout` | timetemp3/temperature.py:54-57 | for 99.5 <= t < 199.5: 1, the tens, then the ones as text; it reads back as round(t) |
| `Temperature.NearNinetyNinePointFive` | timetemp3/temperature.py:54-57 | for 99.45 < t < 99.5 the code is 0, 0, '9', 'F', False and reads as 9 |
| `Temperature.TensCellOverflow` | timetemp3/temperature.py:54-57 | from 199.5 up, the whole code is round(t) / 100, (round(t) - 100) / 10, str of round(t) mod 10, 'F', False; the tens cell is 10 or more and the code reads as no number |
| `Temperature.MinusNinePointFive` | timetemp3/temperature.py:71-74 | for -9.55 < t <= -9.5 the code is '-', 0, symbol and reads as 0 |
| `Temperature.MinusZeroNearZero` | timetemp3/temperature.py:71-74 | for -0.5 <= t < -0.45 the code is '-', 0, symbol and reads as 0 |
| `Temperature.MinusNinetyNinePointFive` | timetemp3/temperature.py:75-78 | for -99.55 < t <= -99.5 the code is '-', 10, '0' and reads as no number |
| `Temperature.DisplayShowsRoundedReading` | timetemp3/temperature.py:44-86 | the display reads round(t) if and only if -99.5 < t < 199.5, outside (99.45, 99.5) and (-9.55, -9.5] |
| `Temperature.AbsentRendersNothing` | timetemp3/temperature.py:45-48 | `None` gives five unset cells whatever the location, and reads as no number |
| `Temperature.ThreeDigitsExample` | timetemp3/tests/test_temperature.py:12-14 | 101.0 at 'outdoor' gives [1, 0, '1', 'F', False] |
| `Temperature.TwoDigitsPositiveExamples` | timetemp3/tests/test_temperature.py:16-26 | 68.0 at 'nest', 10.0 and 9.9 at 'outdoor' give the tested codes |
| `Temperature.OneDigitNonNegativeExamples` | timetemp3/tests/test_temperature.py:28-34 | -0.1 at 'sensor' and 9.4 at 'outdoor' give the tested codes |
| `Temperature.OneDigitNegativeExamples` | timetemp3/tests/test_temperature.py:36-50 | -0.55, -9.4, -4.35 and -9.49 give '-' and 1, 9, 4, 9 before the outdoor symbol |
| `Temperature.TwoDigitsNegativeExamples` | timetemp3/tests/test_temperature.py:52-62 | -10.0, -21.0 and -99.49 give '-', the tens, and the ones as text |
| `Temperature.OutOfRangeExample` | timetemp3/tests/test_temperature.py:64-66 | -100.0 gives ['E', 'E', 'E', 'E', True] |
| `Clock.DisplayedHour` | timetemp3/time.py:28-32 | 24-hour mode keeps the hour; any other mode gives the value in 1..12 congruent to the hour mod 12 |
| `Clock.TimeDigits` | timetemp3/time.py:22-53 | five cells, the hour ones a digit, the minute tens 0..5, the minute ones 0..9 |
| `Clock.GetTimeDigits` | timetemp3/time.py:22-53 | the source's reassign-then-fill returns exactly `TimeDigits` for every valid time, mode and colon setting |
| `Clock.ReadTwoDigits` | timetemp3/time.py:35-44 | a tens cell (blank reading as 0) and a ones cell read as a number in 0..99 |
| `Clock.HourCellsReadBack` | timetemp3/time.py:35-40 | the two hour cells read back as the displayed hour |
| `Clock.ReadClock` | timetemp3/time.py:35-44 | four digit cells read as an hour and a minute, each 0..99 |
| `Clock.ClockReadsBack` | timetemp3/time.py:28-44 | the cells read back as the displayed hour and the minute; in 24-hour mode that is the time itself |
| `Clock.TwelveHourConversion` | timetemp3/time.py:28-32 | in 12-hour mode 13..23 lose 12, 0 becomes 12, and 1..12 stay |
| `Clock.TwelveHourCellsIdentifyHourModTwelve` | timetemp3/time.py:28-40 | in 12-hour mode two times have the same hour cells if and only if their hours agree mod 12 |
| `Clock.TwelveHourSameDisplay` | timetemp3/time.py:28-32 | in 12-hour mode two hours are displayed alike if and only if they agree mod 12 |
| `Clock.TwentyFourHourCellsDetermineTime` | timetemp3/time.py:35-44 | in 24-hour mode equal digit cells mean equal hour and minute |
| `Clock.LeadingHourCell` | timetemp3/time.py:35-40 | digit1 is ' ' exactly when the displayed hour is 1..9, else its tens; digit2 is its ones |
| `Clock.ColonBlinks` | timetemp3/time.py:47-51 | with toggling the colon is second mod 2 (0 or 1) and changes every second; without it the colon is True |
| `Clock.CellsIndependent` | timetemp3/time.py:35-44 | the hour cells depend on the hour alone and the minute cells on the minute alone |
| `Clock.ClockExamples` | timetemp3/time.py:28-51 | midnight in 12-hour mode shows 1, 2; 13:05 shows ' ', 1, 0, 5; noon stays 12; midnight in 24-hour mode shows 0, 0 |
| `Timetemp3.GetTimeDigits` | timetemp3/__init__.py:22-52 | the package's own copy returns the same five cells as the one in timetemp3/time.py for every input |
| `Timetemp3.DefaultTimeDigits` | timetemp3/__init__.py:14-22 | a call with the default arguments shows five cells that read as an hour in 1..12, congruent to the hour mod 12, and the minute, with a blinking colon |
| `Timetemp3.DefaultsAgree` | timetemp3/__init__.py:14 | both copies default to hour mode 12, so default calls agree |

## Left out

- `display_temperature_digits`, `display_time_digits` and `initialize_and_get_time_display_handle` are left out. They call the Adafruit SevenSegment driver, which is not part of this model, and `time.sleep`.
- timetemp3/my_7segment_clock.py, timetemp3/my_weather_logging.py and timetemp3/datalogging.py are left out. They hold configuration reading, logging, signal handling, sensor and network I/O, and loops that only read, print and sleep.
- NaN and infinite readings are outside the model. `round(temperature * 10.0)` raises `ValueError` on NaN and `OverflowError` on an infinity (timetemp3/temperature.py:54). The model's readings are reals, which are always finite.
- Floats are exact reals. The binary rounding of `t * 10.0` and of decimal literals is not modelled. So a float that lies a hair off a boundary such as 9.55 may pick the neighbouring layout on the device.
- `Clock.TimeDigits` takes the `hour`, `minute` and `second` of a `datetime` as integers in their `datetime` ranges. Other `datetime` fields are not read by the source.
- `toggle_colon` is a `bool`. Python would accept any truthy value there.
- The methods build the code as a Dafny sequence that they update one index at a time, not as an array. The source's list is created inside the call, so no caller can see it change before it is returned.

// The package module timetemp3/__init__.py, which carries its own copy of
// the clock encoder and its own default hour mode.

module Timetemp3 {
  import opened Display
  import Clock

  /** Default of the `hour_mode` parameter of this copy. */
  const CLOCK_HOUR_MODE_12_OR_24 := 12

  /** This module's copy of `get_time_digits`, written out as it runs; its
      contract is that it returns the same five cells as the encoder of
      timetemp3/time.py for every time, hour mode and colon setting. */
  method GetTimeDigits(now: Clock.Now, hourMode: int, toggleColon: bool) returns (digits: seq<Cell>)
    requires Clock.ValidNow(now)
    ensures digits == Clock.TimeDigits(now, hourMode, toggleColon)
  {
    digits := AllUnset();
    var hour, minute, second := now.hour, now.minute, now.second;

    if hourMode != 24 {
      if hour > 12 {
        hour := hour - 12;
      }
      if hour == 0 {
        hour := 12;
      }
    }

    if hour >= 10 || hour == 0 {
      digits := digits[DIGIT_1 := Num(hour / 10)];
    } else {
      digits := digits[DIGIT_1 := Text(" ")];
    }
    digits := digits[DIGIT_2 := Num(hour % 10)];

    digits := digits[DIGIT_3 := Num(minute / 10)];
    digits := digits[DIGIT_4 := Num(minute % 10)];

    if toggleColon {
      digits := digits[DIGIT_COLON := Num(second % 2)];
    } else {
      digits := digits[DIGIT_COLON := Flag(true)];
    }
  }

  /** A call that leaves `hour_mode` and `toggle_colon` at their defaults. */
  function DefaultTimeDigits(now: Clock.Now): (cells: seq<Cell>)
    requires Clock.ValidNow(now)
    ensures var h := Clock.DisplayedHour(now.hour, CLOCK_HOUR_MODE_12_OR_24);
            1 <= h <= 12 && h % 12 == now.hour % 12 &&
            |cells| == CELL_COUNT && cells[DIGIT_COLON] == Num(now.second % 2) &&
            Clock.ReadClock(cells) == Some((h, now.minute))
  {
    Clock.ClockReadsBack(now, CLOCK_HOUR_MODE_12_OR_24, true);
    Clock.TimeDigits(now, CLOCK_HOUR_MODE_12_OR_24, true)
  }

  /** Both copies default to 12-hour mode, so a default call shows a
      12-hour time whichever copy is used. */
  lemma DefaultsAgree(now: Clock.Now)
    requires Clock.ValidNow(now)
    ensures CLOCK_HOUR_MODE_12_OR_24 == Clock.DEFAULT_CLOCK_HOUR_MODE_12_OR_24 == 12
    ensures DefaultTimeDigits(now) ==
              Clock.TimeDigits(now, Clock.DEFAULT_CLOCK_HOUR_MODE_12_OR_24, true)
  {
  }
}

// The clock encoder of timetemp3/time.py: the hour, minute and second of a
// wall-clock time become the 5-cell code of a 4-digit seven-segment display
// with a blinking (or steady) colon.

module Clock {
  import opened Display

  /** Default of the `hour_mode` parameter (timetemp3/constants.py). */
  const DEFAULT_CLOCK_HOUR_MODE_12_OR_24 := 12

  /** The fields of a `datetime` the encoder reads. */
  datatype Now = Now(hour: int, minute: int, second: int)

  /** What a `datetime` guarantees about those fields. */
  predicate ValidNow(now: Now)
  {
    0 <= now.hour < 24 && 0 <= now.minute < 60 && 0 <= now.second < 60
  }

  /** The hour shown: unchanged in 24-hour mode; otherwise the 12-hour clock
      value, the one in 1..12 that agrees with the hour modulo 12. */
  function DisplayedHour(hour: int, hourMode: int): (h: int)
    requires 0 <= hour < 24
    ensures hourMode == 24 ==> h == hour
    ensures hourMode != 24 ==> 1 <= h <= 12 && h % 12 == hour % 12
  {
    if hourMode != 24 then
      var afternoon := if hour > 12 then hour - 12 else hour;
      if afternoon == 0 then 12 else afternoon
    else hour
  }

  /** The code for a time: hour tens (blank for a one-digit hour other than
      0), hour ones, minute tens, minute ones, then the colon. */
  function TimeDigits(now: Now, hourMode: int, toggleColon: bool): (cells: seq<Cell>)
    requires ValidNow(now)
    ensures |cells| == CELL_COUNT
    ensures cells[DIGIT_2].Num? && 0 <= cells[DIGIT_2].n <= 9
    ensures cells[DIGIT_3].Num? && 0 <= cells[DIGIT_3].n <= 5
    ensures cells[DIGIT_4].Num? && 0 <= cells[DIGIT_4].n <= 9
  {
    var hour := DisplayedHour(now.hour, hourMode);
    [if hour >= 10 || hour == 0 then Num(hour / 10) else Text(" "),
     Num(hour % 10),
     Num(now.minute / 10),
     Num(now.minute % 10),
     if toggleColon then Num(now.second % 2) else Flag(true)]
  }

  /** The encoder as the source runs it: the local hour is reassigned for
      12-hour mode, then a fresh list of five None cells is filled by index. */
  method GetTimeDigits(now: Now, hourMode: int, toggleColon: bool) returns (digits: seq<Cell>)
    requires ValidNow(now)
    ensures digits == TimeDigits(now, hourMode, toggleColon)
  {
    digits := AllUnset();
    var hour, minute, second := now.hour, now.minute, now.second;

    if hourMode != 24 {
      if hour > 12 {
        hour := hour - 12;
      }
      if hour == 0 {
        hour := 12;
      }
    }

    if hour >= 10 || hour == 0 {
      digits := digits[DIGIT_1 := Num(hour / 10)];
    } else {
      digits := digits[DIGIT_1 := Text(" ")];
    }
    digits := digits[DIGIT_2 := Num(hour % 10)];

    digits := digits[DIGIT_3 := Num(minute / 10)];
    digits := digits[DIGIT_4 := Num(minute % 10)];

    if toggleColon {
      digits := digits[DIGIT_COLON := Num(second % 2)];
    } else {
      digits := digits[DIGIT_COLON := Flag(true)];
    }
  }

  /** The number a person reads off a tens cell and a ones cell, a blank
      tens cell reading as no tens; None unless both are digits. */
  function ReadTwoDigits(tens: Cell, ones: Cell): (v: Option<int>)
    ensures v.Some? ==> 0 <= v.value <= 99
  {
    var t := if tens == Text(" ") then Num(0) else tens;
    if t.Num? && ones.Num? && 0 <= t.n <= 9 && 0 <= ones.n <= 9
    then Some(10 * t.n + ones.n)
    else None
  }

  /** The hour and minute a person reads off the four digit cells. */
  function ReadClock(cells: seq<Cell>): (hm: Option<(int, int)>)
    ensures hm.Some? ==> |cells| >= 4 && 0 <= hm.value.0 <= 99 && 0 <= hm.value.1 <= 99
  {
    if |cells| < 4 then None
    else
      match (ReadTwoDigits(cells[DIGIT_1], cells[DIGIT_2]), ReadTwoDigits(cells[DIGIT_3], cells[DIGIT_4]))
      case (Some(h), Some(m)) => Some((h, m))
      case _ => None
  }

  /** The two hour cells read back as the displayed hour. */
  lemma HourCellsReadBack(now: Now, hourMode: int, toggleColon: bool)
    requires ValidNow(now)
    ensures var cells := TimeDigits(now, hourMode, toggleColon);
            ReadTwoDigits(cells[DIGIT_1], cells[DIGIT_2]) == Some(DisplayedHour(now.hour, hourMode))
  {
    var h := DisplayedHour(now.hour, hourMode);
    var cells := TimeDigits(now, hourMode, toggleColon);
    if h >= 10 || h == 0 {
      assert cells[DIGIT_1] == Num(h / 10);
    } else {
      assert cells[DIGIT_1] == Text(" ") && h / 10 == 0;
    }
  }

  /** Partner of the encoder: the digits read back as the displayed hour and
      the minute; in 24-hour mode that is the time itself. */
  lemma ClockReadsBack(now: Now, hourMode: int, toggleColon: bool)
    requires ValidNow(now)
    ensures ReadClock(TimeDigits(now, hourMode, toggleColon)) ==
              Some((DisplayedHour(now.hour, hourMode), now.minute))
    ensures hourMode == 24 ==>
              ReadClock(TimeDigits(now, hourMode, toggleColon)) == Some((now.hour, now.minute))
  {
    HourCellsReadBack(now, hourMode, toggleColon);
  }

  /** 12-hour conversion: 13..23 lose 12, midnight becomes 12, 1..12 stay. */
  lemma TwelveHourConversion(hour: int, hourMode: int)
    requires 0 <= hour < 24 && hourMode != 24
    ensures 13 <= hour ==> DisplayedHour(hour, hourMode) == hour - 12
    ensures hour == 0 ==> DisplayedHour(hour, hourMode) == 12
    ensures 1 <= hour <= 12 ==> DisplayedHour(hour, hourMode) == hour
  {
  }

  /** In 12-hour mode two times show the same hour digits exactly when their
      hours agree modulo 12 (AM and PM look alike, nothing else does). */
  lemma TwelveHourCellsIdentifyHourModTwelve(a: Now, b: Now, hourMode: int, toggleColon: bool)
    requires ValidNow(a) && ValidNow(b) && hourMode != 24
    ensures (TimeDigits(a, hourMode, toggleColon)[..2] == TimeDigits(b, hourMode, toggleColon)[..2])
              <==> a.hour % 12 == b.hour % 12
  {
    var ca, cb := TimeDigits(a, hourMode, toggleColon), TimeDigits(b, hourMode, toggleColon);
    var ha, hb := DisplayedHour(a.hour, hourMode), DisplayedHour(b.hour, hourMode);
    TwelveHourSameDisplay(a.hour, b.hour, hourMode);
    assert ca[..2] == [ca[DIGIT_1], ca[DIGIT_2]] && cb[..2] == [cb[DIGIT_1], cb[DIGIT_2]];
    if ha == hb {
      assert ca[DIGIT_1] == cb[DIGIT_1] && ca[DIGIT_2] == cb[DIGIT_2];
    } else {
      HourCellsReadBack(a, hourMode, toggleColon);
      HourCellsReadBack(b, hourMode, toggleColon);
    }
  }

  /** In 12-hour mode two hours are displayed alike exactly when they agree
      modulo 12. */
  lemma TwelveHourSameDisplay(hourA: int, hourB: int, hourMode: int)
    requires 0 <= hourA < 24 && 0 <= hourB < 24 && hourMode != 24
    ensures (DisplayedHour(hourA, hourMode) == DisplayedHour(hourB, hourMode))
              <==> hourA % 12 == hourB % 12
  {
    var ha, hb := DisplayedHour(hourA, hourMode), DisplayedHour(hourB, hourMode);
    if hourA % 12 == hourB % 12 {
      assert ha % 12 == hb % 12;
    }
  }

  /** In 24-hour mode the four digit cells determine the hour and minute. */
  lemma TwentyFourHourCellsDetermineTime(a: Now, b: Now, toggleColon: bool)
    requires ValidNow(a) && ValidNow(b)
    requires TimeDigits(a, 24, toggleColon)[..4] == TimeDigits(b, 24, toggleColon)[..4]
    ensures a.hour == b.hour && a.minute == b.minute
  {
    var ca, cb := TimeDigits(a, 24, toggleColon), TimeDigits(b, 24, toggleColon);
    assert forall i :: 0 <= i < 4 ==> ca[i] == ca[..4][i] && cb[i] == cb[..4][i];
    ClockReadsBack(a, 24, toggleColon);
    ClockReadsBack(b, 24, toggleColon);
    assert ReadClock(ca) == ReadClock(cb);
  }

  /** The leading cell is blank exactly for a displayed hour of 1..9;
      otherwise it is the hour's tens digit, and the second cell its ones. */
  lemma LeadingHourCell(now: Now, hourMode: int, toggleColon: bool)
    requires ValidNow(now)
    ensures var h := DisplayedHour(now.hour, hourMode);
            var cells := TimeDigits(now, hourMode, toggleColon);
            (cells[DIGIT_1] == Text(" ") <==> 1 <= h <= 9) &&
            (!(1 <= h <= 9) ==> cells[DIGIT_1] == Num(h / 10)) &&
            cells[DIGIT_2] == Num(h % 10)
  {
  }

  /** With toggling the colon cell is second mod 2, so it alternates every
      second; without it the colon is always lit. */
  lemma ColonBlinks(now: Now, hourMode: int, toggleColon: bool)
    requires ValidNow(now)
    ensures var colon := TimeDigits(now, hourMode, toggleColon)[DIGIT_COLON];
            if toggleColon then colon == Num(now.second % 2) && (colon.n == 0 || colon.n == 1)
            else colon == Flag(true)
    ensures toggleColon && now.second + 1 < 60 ==>
              TimeDigits(now, hourMode, true)[DIGIT_COLON] !=
              TimeDigits(Now(now.hour, now.minute, now.second + 1), hourMode, true)[DIGIT_COLON]
  {
  }

  /** Minute and second never affect the hour cells; hour and second never
      affect the minute cells. */
  lemma CellsIndependent(a: Now, b: Now, hourMode: int, toggleColon: bool)
    requires ValidNow(a) && ValidNow(b)
    ensures a.hour == b.hour ==>
              TimeDigits(a, hourMode, toggleColon)[..2] == TimeDigits(b, hourMode, toggleColon)[..2]
    ensures a.minute == b.minute ==>
              TimeDigits(a, hourMode, toggleColon)[2..4] == TimeDigits(b, hourMode, toggleColon)[2..4]
  {
  }

  /** Midnight, 13:05 and noon in 12-hour mode, and midnight in 24-hour mode. */
  lemma ClockExamples(minute: int, second: int)
    requires 0 <= minute < 60 && 0 <= second < 60
    ensures TimeDigits(Now(0, minute, second), 12, false) ==
              [Num(1), Num(2), Num(minute / 10), Num(minute % 10), Flag(true)]
    ensures TimeDigits(Now(13, 5, second), 12, true) ==
              [Text(" "), Num(1), Num(0), Num(5), Num(second % 2)]
    ensures TimeDigits(Now(12, minute, second), 12, false)[..2] == [Num(1), Num(2)]
    ensures TimeDigits(Now(0, minute, second), 24, false)[..2] == [Num(0), Num(0)]
  {
  }
}

// The Fahrenheit temperature encoder of timetemp3/temperature.py: a reading
// (or None) and a location name become the 5-cell code of a 4-digit
// seven-segment display.

module Temperature {
  import opened Display
  import opened PyNum

  // Raw segment patterns for the third digit (timetemp3/constants.py).
  const OUTDOOR_SYMBOL_ENCODING := 0x6B
  const TICKMARK_SYMBOL_ENCODING := 0x02
  const DEGREES_SYMBOL_ENCODING := 0x63

  /** The symbol shown after the digits: a distinct mark for 'outdoor' and
      for 'nest' (the thermostat), the tickmark for every other location. */
  function LookupWhereDigit(where: string): (code: int)
    ensures code == OUTDOOR_SYMBOL_ENCODING <==> where == "outdoor"
    ensures code == DEGREES_SYMBOL_ENCODING <==> where == "nest"
    ensures code == TICKMARK_SYMBOL_ENCODING <==> where != "outdoor" && where != "nest"
  {
    if where == "outdoor" then OUTDOOR_SYMBOL_ENCODING
    else if where == "nest" then DEGREES_SYMBOL_ENCODING
    else TICKMARK_SYMBOL_ENCODING
  }

  /** `round(temperature * 10.0)`: the reading in tenths of a degree. */
  function Tenths(t: real): (k: int)
    ensures IsRoundHalfEven(t * 10.0, k)
  {
    PyRound(t * 10.0)
  }

  /** The six layouts, in the order the source tests them. */
  datatype Branch =
    | ThreeDigits          // "###F"
    | TwoDigitsPositive    // "##°F"
    | OneDigitNonNegative  // " #°F"
    | OneDigitNegative     // "-#°F"
    | TwoDigitsNegative    // "-##F"
    | OutOfRange           // "EEEE" with the colon lit

  /** First matching range of the if/elif chain on the reading in tenths.
      The six ranges tile the integers: exactly one applies. */
  function Classify(k: int): (b: Branch)
    ensures b == ThreeDigits <==> 995 <= k
    ensures b == TwoDigitsPositive <==> 95 < k < 995
    ensures b == OneDigitNonNegative <==> -5 < k <= 95
    ensures b == OneDigitNegative <==> -95 <= k <= -5
    ensures b == TwoDigitsNegative <==> -995 <= k < -95
    ensures b == OutOfRange <==> k < -995
  {
    if k >= 995 then ThreeDigits
    else if k > 95 then TwoDigitsPositive
    else if k > -5 then OneDigitNonNegative
    else if k >= -95 then OneDigitNegative
    else if k >= -995 then TwoDigitsNegative
    else OutOfRange
  }

  /** The branch as a function of the temperature itself. Each boundary
      follows from round-half-even: 994.5 rounds down to 994, 95.5 up to 96,
      -4.5 up to -4, -95.5 down to -96 and -995.5 down to -996. */
  lemma BranchByTemperature(t: real)
    ensures Classify(Tenths(t)) ==
              if t > 99.45 then ThreeDigits
              else if t >= 9.55 then TwoDigitsPositive
              else if t >= -0.45 then OneDigitNonNegative
              else if t > -9.55 then OneDigitNegative
              else if t > -99.55 then TwoDigitsNegative
              else OutOfRange
  {
    var x := t * 10.0;
    RoundAtLeast(x, 995);
    RoundAtLeast(x, 96);
    RoundAtLeast(x, -4);
    RoundAtLeast(x, -95);
    RoundAtLeast(x, -995);
  }

  const F_CELL := Text("F")
  const ERROR_CELL := Text("E")

  /** The code for a reading, or five unset cells when there is none. */
  function TemperatureDigits(temperature: Option<real>, where: string): (cells: seq<Cell>)
    ensures |cells| == CELL_COUNT
    ensures temperature.None? ==> cells == AllUnset()
    ensures temperature.Some? && Classify(Tenths(temperature.value)) != OutOfRange ==>
              cells[DIGIT_4] == F_CELL && cells[DIGIT_COLON] == Flag(false)
    ensures temperature.Some? && Classify(Tenths(temperature.value)) == OutOfRange ==>
              cells == [ERROR_CELL, ERROR_CELL, ERROR_CELL, ERROR_CELL, Flag(true)]
  {
    match temperature
    case None => AllUnset()
    case Some(t) =>
      var symbol := LookupWhereDigit(where);
      match Classify(Tenths(t))
      case ThreeDigits =>
        [Num(TruncDiv(PyRound(t), 100)), Num(TruncDiv(PyRound(t - 100.0), 10)),
         Text([DigitChar(PyRound(t) % 10)]), F_CELL, Flag(false)]
      case TwoDigitsPositive =>
        [Num(TruncDiv(PyRound(t), 10)), Num(PyRound(t) % 10), Raw(symbol), F_CELL, Flag(false)]
      case OneDigitNonNegative =>
        [if PyRound(t) == 10 then Num(1) else Text(" "), Num(PyRound(t) % 10),
         Raw(symbol), F_CELL, Flag(false)]
      case OneDigitNegative =>
        [Text("-"), Num(PyRound(Abs(t)) % 10), Raw(symbol), F_CELL, Flag(false)]
      case TwoDigitsNegative =>
        [Text("-"), Num(TruncDiv(PyRound(Abs(t)), 10)),
         Text([DigitChar(PyRound(Abs(t)) % 10)]), F_CELL, Flag(false)]
      case OutOfRange =>
        [ERROR_CELL, ERROR_CELL, ERROR_CELL, ERROR_CELL, Flag(true)]
  }

  /** The encoder as the source runs it: a fresh list of five None cells,
      the constant cells set first, then the cells of the matching branch. */
  method GetTemperatureDigits(temperature: Option<real>, where: string) returns (digits: seq<Cell>)
    ensures digits == TemperatureDigits(temperature, where)
  {
    digits := AllUnset();
    if temperature.None? {
      return;
    }
    var t := temperature.value;

    var tenths := Tenths(t);

    digits := digits[DIGIT_4 := F_CELL];
    digits := digits[DIGIT_COLON := Flag(false)];

    if tenths >= 995 {
      assert Classify(tenths) == ThreeDigits;
      digits := digits[DIGIT_1 := Num(TruncDiv(PyRound(t), 100))];
      digits := digits[DIGIT_2 := Num(TruncDiv(PyRound(t - 100.0), 10))];
      digits := digits[DIGIT_3 := Text([DigitChar(PyRound(t) % 10)])];
    } else if tenths > 95 {
      assert Classify(tenths) == TwoDigitsPositive;
      digits := digits[DIGIT_1 := Num(TruncDiv(PyRound(t), 10))];
      digits := digits[DIGIT_2 := Num(PyRound(t) % 10)];
      digits := digits[DIGIT_3 := Raw(LookupWhereDigit(where))];
    } else if tenths > -5 {
      assert Classify(tenths) == OneDigitNonNegative;
      var rounded := PyRound(t);
      if rounded == 10 {
        digits := digits[DIGIT_1 := Num(1)];
      } else {
        digits := digits[DIGIT_1 := Text(" ")];
      }
      digits := digits[DIGIT_2 := Num(PyRound(t) % 10)];
      digits := digits[DIGIT_3 := Raw(LookupWhereDigit(where))];
    } else if tenths >= -95 {
      assert Classify(tenths) == OneDigitNegative;
      digits := digits[DIGIT_1 := Text("-")];
      digits := digits[DIGIT_2 := Num(PyRound(Abs(t)) % 10)];
      digits := digits[DIGIT_3 := Raw(LookupWhereDigit(where))];
    } else if tenths >= -995 {
      assert Classify(tenths) == TwoDigitsNegative;
      digits := digits[DIGIT_1 := Text("-")];
      digits := digits[DIGIT_2 := Num(TruncDiv(PyRound(Abs(t)), 10))];
      digits := digits[DIGIT_3 := Text([DigitChar(PyRound(Abs(t)) % 10)])];
    } else {
      assert Classify(tenths) == OutOfRange;
      digits := digits[DIGIT_1 := ERROR_CELL];
      digits := digits[DIGIT_2 := ERROR_CELL];
      digits := digits[DIGIT_3 := ERROR_CELL];
      digits := digits[DIGIT_4 := ERROR_CELL];
      digits := digits[DIGIT_COLON := Flag(true)];
    }
  }

  /** A decimal digit in a Num cell. */
  predicate IsDigitCell(c: Cell)
  {
    c.Num? && 0 <= c.n <= 9
  }

  /** The whole number a person reads off a temperature code, or None when
      the cells do not spell one (unset, error glyphs, a cell holding more
      than one digit). A leading ' ' reads as nothing, a leading '-' negates,
      and a raw symbol in the third cell ends the number after two cells. */
  function DisplayedValue(cells: seq<Cell>): (v: Option<int>)
    ensures v.Some? ==> |cells| == CELL_COUNT && cells[DIGIT_4] == F_CELL && IsDigitCell(cells[DIGIT_2])
    ensures v.Some? ==> -99 <= v.value <= 999
  {
    if |cells| != CELL_COUNT || cells[DIGIT_4] != F_CELL || cells[DIGIT_COLON] != Flag(false)
       || !IsDigitCell(cells[DIGIT_2])
    then None
    else
      var first, ones, third := cells[DIGIT_1], cells[DIGIT_2].n, cells[DIGIT_3];
      if IsDigitCell(first) && third.Text? && DigitOf(third.s).Some? then
        Some(100 * first.n + 10 * ones + DigitOf(third.s).value)
      else if IsDigitCell(first) && third.Raw? then
        Some(10 * first.n + ones)
      else if first == Text(" ") && third.Raw? then
        Some(ones)
      else if first == Text("-") && third.Raw? then
        Some(-ones)
      else if first == Text("-") && third.Text? && DigitOf(third.s).Some? then
        Some(-(10 * ones + DigitOf(third.s).value))
      else None
  }

  /** Facts about round(t) and round(|t|) needed by the branch proofs. */
  lemma RoundedBounds(t: real)
    ensures PyRound(t) >= 100 <==> t >= 99.5
    ensures PyRound(t) >= 99 <==> t > 98.5
    ensures PyRound(t) >= 200 <==> t >= 199.5
    ensures PyRound(t) >= 10 <==> t >= 9.5
    ensures PyRound(t) >= 11 <==> t > 10.5
    ensures PyRound(t) >= 0 <==> t >= -0.5
    ensures PyRound(Abs(t)) >= 10 <==> Abs(t) >= 9.5
    ensures PyRound(Abs(t)) >= 11 <==> Abs(t) > 10.5
    ensures PyRound(Abs(t)) >= 100 <==> Abs(t) >= 99.5
    ensures PyRound(Abs(t)) >= 101 <==> Abs(t) > 100.5
    ensures PyRound(Abs(t)) >= 0
    ensures t < 0.0 ==> PyRound(t) == -PyRound(Abs(t))
  {
    RoundAtLeast(t, 100);
    RoundAtLeast(t, 99);
    RoundAtLeast(t, 200);
    RoundAtLeast(t, 10);
    RoundAtLeast(t, 11);
    RoundAtLeast(t, 0);
    RoundAtLeast(Abs(t), 10);
    RoundAtLeast(Abs(t), 11);
    RoundAtLeast(Abs(t), 100);
    RoundAtLeast(Abs(t), 101);
    RoundAtLeast(Abs(t), 0);
    RoundNegate(t);
  }

  /** Whenever the code is not the error code, the last two cells are 'F'
      and an unlit colon; the error code is produced exactly for readings
      at or below -99.55. */
  lemma ErrorExactlyBelowRange(t: real, where: string)
    ensures (TemperatureDigits(Some(t), where) ==
               [ERROR_CELL, ERROR_CELL, ERROR_CELL, ERROR_CELL, Flag(true)]) <==> t <= -99.55
    ensures t > -99.55 ==>
              TemperatureDigits(Some(t), where)[DIGIT_4] == F_CELL &&
              TemperatureDigits(Some(t), where)[DIGIT_COLON] == Flag(false)
  {
    BranchByTemperature(t);
  }

  /** The third cell carries the location symbol exactly in the three middle
      branches; otherwise it holds a single character (a digit, or 'E'). */
  lemma SymbolCellPlacement(t: real, where: string)
    ensures var c := TemperatureDigits(Some(t), where)[DIGIT_3];
            (c.Raw? <==> -9.55 < t <= 99.45) &&
            (c.Raw? ==> c.code == LookupWhereDigit(where)) &&
            (!c.Raw? ==> c.Text? && |c.s| == 1) &&
            (-99.55 < t <= -9.55 || t > 99.45 ==> DigitOf(c.s).Some?)
  {
    BranchByTemperature(t);
  }

  /** Between 9.55 and 99.45 degrees the code is the rounded reading split
      into tens and ones, then the location symbol. */
  lemma TwoDigitsPositiveLayout(t: real, where: string)
    requires 9.55 <= t <= 99.45
    ensures var r := PyRound(t);
            10 <= r <= 99 &&
            TemperatureDigits(Some(t), where) ==
              [Num(r / 10), Num(r % 10), Raw(LookupWhereDigit(where)), F_CELL, Flag(false)]
    ensures DisplayedValue(TemperatureDigits(Some(t), where)) == Some(PyRound(t))
  {
    BranchByTemperature(t);
    RoundedBounds(t);
    var r := PyRound(t);
    assert DisplayedValue(TemperatureDigits(Some(t), where)) == Some(10 * (r / 10) + r % 10);
  }

  /** Between -0.45 and 9.55 degrees the rounded reading is 0..10: a blank
      then its single digit, except that 10 (only for 9.5 <= t < 9.55)
      shows as 1, 0. */
  lemma OneDigitNonNegativeLayout(t: real, where: string)
    requires -0.45 <= t < 9.55
    ensures var r := PyRound(t);
            0 <= r <= 10 &&
            (r == 10 <==> t >= 9.5) &&
            TemperatureDigits(Some(t), where) ==
              [if r == 10 then Num(1) else Text(" "), Num(r % 10),
               Raw(LookupWhereDigit(where)), F_CELL, Flag(false)]
    ensures DisplayedValue(TemperatureDigits(Some(t), where)) == Some(PyRound(t))
  {
    BranchByTemperature(t);
    RoundedBounds(t);
    var r := PyRound(t);
    if r == 10 {
      assert DisplayedValue(TemperatureDigits(Some(t), where)) == Some(10 * 1 + 0);
    } else {
      assert DisplayedValue(TemperatureDigits(Some(t), where)) == Some(r % 10);
    }
  }

  /** Between -9.55 and -0.45 degrees: a minus sign, the ones digit of the
      rounded magnitude, then the location symbol. */
  lemma OneDigitNegativeLayout(t: real, where: string)
    requires -9.55 < t < -0.45
    ensures var m := PyRound(Abs(t));
            0 <= m <= 10 && (m == 10 <==> t <= -9.5) &&
            TemperatureDigits(Some(t), where) ==
              [Text("-"), Num(m % 10), Raw(LookupWhereDigit(where)), F_CELL, Flag(false)]
    ensures t > -9.5 ==> DisplayedValue(TemperatureDigits(Some(t), where)) == Some(PyRound(t))
  {
    BranchByTemperature(t);
    RoundedBounds(t);
    var m := PyRound(Abs(t));
    assert DisplayedValue(TemperatureDigits(Some(t), where)) == Some(-(m % 10));
  }

  /** Between -99.55 and -9.55 degrees: a minus sign, the tens of the
      rounded magnitude as a number and its ones as a one-character text. */
  lemma TwoDigitsNegativeLayout(t: real, where: string)
    requires -99.55 < t <= -9.55
    ensures var m := PyRound(Abs(t));
            10 <= m <= 100 && (m == 100 <==> t <= -99.5) &&
            TemperatureDigits(Some(t), where) ==
              [Text("-"), Num(m / 10), Text([DigitChar(m % 10)]), F_CELL, Flag(false)]
    ensures t > -99.5 ==> DisplayedValue(TemperatureDigits(Some(t), where)) == Some(PyRound(t))
  {
    BranchByTemperature(t);
    RoundedBounds(t);
    var m := PyRound(Abs(t));
    DigitCharRoundTrip(m % 10);
    if t > -99.5 {
      assert DisplayedValue(TemperatureDigits(Some(t), where)) == Some(-(10 * (m / 10) + m % 10));
    }
  }

  /** From 99.5 degrees up to 199.5 the code reads 1, the tens, then the
      ones as text. */
  lemma ThreeDigitsLayout(t: real, where: string)
    requires 99.5 <= t < 199.5
    ensures var r := PyRound(t);
            100 <= r <= 199 &&
            TemperatureDigits(Some(t), where) ==
              [Num(1), Num((r - 100) / 10), Text([DigitChar(r % 10)]), F_CELL, Flag(false)]
    ensures DisplayedValue(TemperatureDigits(Some(t), where)) == Some(PyRound(t))
  {
    BranchByTemperature(t);
    RoundedBounds(t);
    RoundShiftEven(t, 100);
    var r := PyRound(t);
    DigitCharRoundTrip(r % 10);
    assert DisplayedValue(TemperatureDigits(Some(t), where)) ==
             Some(100 * 1 + 10 * ((r - 100) / 10) + r % 10);
  }

  /** Just below 99.5 the tenths already select the three-digit layout while
      round(t) is still 99, so the display shows "009F". */
  lemma NearNinetyNinePointFive(t: real, where: string)
    requires 99.45 < t < 99.5
    ensures TemperatureDigits(Some(t), where) == [Num(0), Num(0), Text("9"), F_CELL, Flag(false)]
    ensures DisplayedValue(TemperatureDigits(Some(t), where)) == Some(9)
  {
    BranchByTemperature(t);
    RoundedBounds(t);
    RoundShiftEven(t, 100);
    DigitCharRoundTrip(9);
  }

  /** From 199.5 degrees the three-digit layout goes on: hundreds, then
      (round(t) - 100) / 10 in the tens cell, which is 10 or more and no
      longer a single digit, then the ones as text. */
  lemma TensCellOverflow(t: real, where: string)
    requires t >= 199.5
    ensures var r := PyRound(t);
            TemperatureDigits(Some(t), where) ==
              [Num(r / 100), Num((r - 100) / 10), Text([DigitChar(r % 10)]), F_CELL, Flag(false)]
    ensures var c := TemperatureDigits(Some(t), where)[DIGIT_2];
            c == Num((PyRound(t) - 100) / 10) && c.n >= 10
    ensures DisplayedValue(TemperatureDigits(Some(t), where)) == None
  {
    BranchByTemperature(t);
    RoundedBounds(t);
    RoundShiftEven(t, 100);
  }

  /** For -9.55 < t <= -9.5 the tenths select the one-digit layout but the
      magnitude rounds to 10, so the display shows "-0". */
  lemma MinusNinePointFive(t: real, where: string)
    requires -9.55 < t <= -9.5
    ensures TemperatureDigits(Some(t), where) ==
              [Text("-"), Num(0), Raw(LookupWhereDigit(where)), F_CELL, Flag(false)]
    ensures DisplayedValue(TemperatureDigits(Some(t), where)) == Some(0)
  {
    BranchByTemperature(t);
    RoundedBounds(t);
  }

  /** For -0.5 <= t < -0.45 the tenths round to -5 and select the minus
      layout, but the magnitude rounds to 0, so the display shows "-0". */
  lemma MinusZeroNearZero(t: real, where: string)
    requires -0.5 <= t < -0.45
    ensures TemperatureDigits(Some(t), where) ==
              [Text("-"), Num(0), Raw(LookupWhereDigit(where)), F_CELL, Flag(false)]
    ensures DisplayedValue(TemperatureDigits(Some(t), where)) == Some(0)
  {
    BranchByTemperature(t);
    RoundedBounds(t);
  }

  /** For -99.55 < t <= -99.5 the magnitude rounds to 100 and the tens cell
      holds 10. */
  lemma MinusNinetyNinePointFive(t: real, where: string)
    requires -99.55 < t <= -99.5
    ensures TemperatureDigits(Some(t), where) == [Text("-"), Num(10), Text("0"), F_CELL, Flag(false)]
    ensures DisplayedValue(TemperatureDigits(Some(t), where)) == None
  {
    BranchByTemperature(t);
    RoundedBounds(t);
  }

  /** Partner of the encoder: the display reads exactly round(t) from just
      above -99.5 to just below 199.5, outside the two windows where the
      tenths and the whole-degree rounding disagree; everywhere else it
      reads no number or a wrong one. */
  lemma DisplayShowsRoundedReading(t: real, where: string)
    ensures DisplayedValue(TemperatureDigits(Some(t), where)) == Some(PyRound(t)) <==>
              -99.5 < t < 199.5 && !(99.45 < t < 99.5) && !(-9.55 < t <= -9.5)
  {
    if t <= -99.55 {
      ErrorExactlyBelowRange(t, where);
    } else if t <= -99.5 {
      MinusNinetyNinePointFive(t, where);
    } else if t <= -9.55 {
      TwoDigitsNegativeLayout(t, where);
    } else if t <= -9.5 {
      MinusNinePointFive(t, where);
      RoundedBounds(t);
    } else if t < -0.45 {
      OneDigitNegativeLayout(t, where);
    } else if t < 9.55 {
      OneDigitNonNegativeLayout(t, where);
    } else if t <= 99.45 {
      TwoDigitsPositiveLayout(t, where);
    } else if t < 99.5 {
      NearNinetyNinePointFive(t, where);
      RoundedBounds(t);
    } else if t < 199.5 {
      ThreeDigitsLayout(t, where);
    } else {
      TensCellOverflow(t, where);
    }
  }

  /** No reading means nothing to render, whatever the location. */
  lemma AbsentRendersNothing(where: string, other: string)
    ensures TemperatureDigits(None, where) == TemperatureDigits(None, other) == AllUnset()
    ensures DisplayedValue(TemperatureDigits(None, where)) == None
  {
  }

  // The expectations of timetemp3/tests/test_temperature.py, one lemma per
  // layout.

  lemma ThreeDigitsExample()
    ensures TemperatureDigits(Some(101.0), "outdoor") == [Num(1), Num(0), Text("1"), F_CELL, Flag(false)]
  {
  }

  lemma TwoDigitsPositiveExamples()
    ensures TemperatureDigits(Some(68.0), "nest") == [Num(6), Num(8), Raw(0x63), F_CELL, Flag(false)]
    ensures TemperatureDigits(Some(10.0), "outdoor") == [Num(1), Num(0), Raw(0x6B), F_CELL, Flag(false)]
    ensures TemperatureDigits(Some(9.9), "outdoor") == [Num(1), Num(0), Raw(0x6B), F_CELL, Flag(false)]
  {
  }

  lemma OneDigitNonNegativeExamples()
    ensures TemperatureDigits(Some(-0.1), "sensor") == [Text(" "), Num(0), Raw(0x02), F_CELL, Flag(false)]
    ensures TemperatureDigits(Some(9.4), "outdoor") == [Text(" "), Num(9), Raw(0x6B), F_CELL, Flag(false)]
  {
  }

  lemma OneDigitNegativeExamples()
    ensures TemperatureDigits(Some(-0.55), "outdoor") == [Text("-"), Num(1), Raw(0x6B), F_CELL, Flag(false)]
    ensures TemperatureDigits(Some(-9.4), "outdoor") == [Text("-"), Num(9), Raw(0x6B), F_CELL, Flag(false)]
    ensures TemperatureDigits(Some(-4.35), "outdoor") == [Text("-"), Num(4), Raw(0x6B), F_CELL, Flag(false)]
    ensures TemperatureDigits(Some(-9.49), "outdoor") == [Text("-"), Num(9), Raw(0x6B), F_CELL, Flag(false)]
  {
  }

  lemma TwoDigitsNegativeExamples()
    ensures TemperatureDigits(Some(-10.0), "outdoor") == [Text("-"), Num(1), Text("0"), F_CELL, Flag(false)]
    ensures TemperatureDigits(Some(-21.0), "outdoor") == [Text("-"), Num(2), Text("1"), F_CELL, Flag(false)]
    ensures TemperatureDigits(Some(-99.49), "outdoor") == [Text("-"), Num(9), Text("9"), F_CELL, Flag(false)]
  {
  }

  lemma OutOfRangeExample()
    ensures TemperatureDigits(Some(-100.0), "outdoor") == [ERROR_CELL, ERROR_CELL, ERROR_CELL, ERROR_CELL, Flag(true)]
  {
  }
}

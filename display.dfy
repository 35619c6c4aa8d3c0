// The 5-cell code handed to a 4-digit seven-segment display: digit1..digit4
// and the colon (or flag) cell, at the indices fixed in timetemp3/constants.py.
// A Python list slot may hold None, an int, a str or a bool; Cell keeps those
// apart, and splits the ints into digit values (`Num`) and raw segment
// codes (`Raw`), which the display driver writes with `set_digit_raw`.

module Display {

  datatype Option<T> = None | Some(value: T)

  datatype Cell =
    | Unset            // None: nothing to render
    | Num(n: int)      // an int the driver renders as a digit
    | Raw(code: int)   // an int the driver writes as a raw segment pattern
    | Text(s: string)  // a str: a digit character, ' ', '-', 'E' or 'F'
    | Flag(b: bool)    // a bool in the colon cell

  const DIGIT_1 := 0
  const DIGIT_2 := 1
  const DIGIT_3 := 2
  const DIGIT_4 := 3
  const DIGIT_COLON := 4
  const CELL_COUNT := 5

  /** `[None] * 5`: the code that renders nothing. */
  function AllUnset(): (cells: seq<Cell>)
    ensures |cells| == CELL_COUNT
    ensures forall i :: 0 <= i < |cells| ==> cells[i] == Unset
  {
    [Unset, Unset, Unset, Unset, Unset]
  }

  /** Python `str(d)` for a single decimal digit. */
  function DigitChar(d: int): (c: char)
    requires 0 <= d <= 9
    ensures '0' <= c <= '9'
    ensures c as int - '0' as int == d
  {
    (d + '0' as int) as char
  }

  /** The digit a one-character decimal string stands for, if it is one. */
  function DigitOf(s: string): (d: Option<int>)
    ensures d.Some? <==> |s| == 1 && '0' <= s[0] <= '9'
    ensures d.Some? ==> 0 <= d.value <= 9 && s == [DigitChar(d.value)]
  {
    if |s| == 1 && '0' <= s[0] <= '9' then Some(s[0] as int - '0' as int) else None
  }

  /** DigitOf reads back exactly the digit that DigitChar wrote. */
  lemma DigitCharRoundTrip(d: int)
    requires 0 <= d <= 9
    ensures DigitOf([DigitChar(d)]) == Some(d)
  {
  }
}

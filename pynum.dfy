// Python 3 numeric semantics used by the display encoders: the built-in
// `round` (round half to even, returning an int), `abs` on a number, and
// `int(a / b)` on integers (true division truncated toward zero).
// Floats are modelled as exact reals; IEEE-754 rounding of `t * 10.0` is
// not modelled.

module PyNum {

  /** Python's `abs` on a real. */
  function Abs(x: real): (r: real)
    ensures r >= 0.0
    ensures r == x || r == -x
  {
    if x < 0.0 then -x else x
  }

  /** Nearest integer, ties going to the even one: the rule by which
      Python 3 `round(x)` is defined. */
  predicate IsRoundHalfEven(x: real, n: int)
  {
    -0.5 <= x - n as real <= 0.5 &&
    ((x - n as real == 0.5 || x - n as real == -0.5) ==> n % 2 == 0)
  }

  /** At most one integer is the half-even rounding of x: two distinct ones
      would both sit on a tie, and adjacent integers are not both even. */
  lemma HalfEvenUnique(x: real)
    ensures forall n, m :: IsRoundHalfEven(x, n) && IsRoundHalfEven(x, m) ==> n == m
  {
    forall n, m | IsRoundHalfEven(x, n) && IsRoundHalfEven(x, m)
      ensures n == m
    {
    }
  }

  /** Python 3 `round(x)`: the integer that is the half-even rounding of x.
      It exists (the floor of x or the next integer up) and is unique. */
  function PyRound(x: real): (r: int)
    ensures IsRoundHalfEven(x, r)
  {
    var f := x.Floor;
    var d := x - f as real;
    assert IsRoundHalfEven(x, if d < 0.5 || (d == 0.5 && f % 2 == 0) then f else f + 1);
    HalfEvenUnique(x);
    var n :| IsRoundHalfEven(x, n);
    n
  }

  /** Any integer that rounds x half-even is what PyRound returns. */
  lemma RoundUnique(x: real, n: int)
    requires IsRoundHalfEven(x, n)
    ensures PyRound(x) == n
  {
    HalfEvenUnique(x);
  }

  /** Half-even rounding is symmetric about zero: round(-x) == -round(x). */
  lemma RoundNegate(x: real)
    ensures PyRound(-x) == -PyRound(x)
  {
  }

  /** Shifting by an even integer commutes with half-even rounding, so
      round(t - 100) == round(t) - 100. */
  lemma RoundShiftEven(x: real, k: int)
    requires k % 2 == 0
    ensures PyRound(x - k as real) == PyRound(x) - k
  {
  }

  /** The exact threshold at which round(x) reaches n: strictly above n - 1/2,
      or exactly on n - 1/2 when n is even (the tie goes up to n). */
  lemma RoundAtLeast(x: real, n: int)
    ensures PyRound(x) >= n <==>
              (x > n as real - 0.5 || (x == n as real - 0.5 && n % 2 == 0))
  {
  }

  /** Python `int(a / b)` for a positive divisor: the quotient truncated
      toward zero (it differs from Dafny's `/` when `a` is negative). */
  function TruncDiv(a: int, b: int): (q: int)
    requires b > 0
    ensures a >= 0 ==> 0 <= q && q * b <= a < (q + 1) * b
    ensures a < 0 ==> q <= 0 && (q - 1) * b < a <= q * b
  {
    if a >= 0 then
      DivBounds(a, b);
      a / b
    else
      DivBounds(-a, b);
      -((-a) / b)
  }

  /** Dafny's quotient of a non-negative dividend is bounded by it within
      one divisor. */
  lemma DivBounds(a: int, b: int)
    requires a >= 0 && b > 0
    ensures 0 <= a / b && (a / b) * b <= a < (a / b + 1) * b
  {
    var q, m := a / b, a % b;
    assert a == q * b + m && 0 <= m < b;
    assert (q + 1) * b == q * b + b;
  }
}

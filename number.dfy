/** The access-code generator: a uniformly drawn integer with a fixed number of
    decimal digits. The random draw `Math.floor(Math.random() * (max - min + 1))`
    is taken as a parameter, `draw`, which lies in `[0, max - min]`. */
module RandomNumber {
  import opened JsRuntime

  /** `Math.pow(10, digit - 1)`. */
  function Lowest(digit: nat): nat
    requires digit >= 1
  {
    Pow10(digit - 1)
  }

  /** `Math.pow(10, digit) - 1`. */
  function Highest(digit: nat): int {
    Pow10(digit) - 1
  }

  /** `generalRandomNumber(digit)` for the draw `draw`: a number whose decimal
      rendering has exactly `digit` characters. */
  function GeneralRandomNumber(digit: nat, draw: int): (r: nat)
    requires digit >= 1
    requires 0 <= draw <= Highest(digit) - Lowest(digit)
    ensures Lowest(digit) <= r <= Highest(digit)
    ensures |NatToString(r)| == digit
  {
    NatToStringLength(draw + Lowest(digit), digit);
    draw + Lowest(digit)
  }

  /** The draw that produces `v`. */
  function DrawFor(digit: nat, v: int): int
    requires digit >= 1
  {
    v - Lowest(digit)
  }

  /** Every number in the range comes from exactly one draw. */
  lemma EveryValueHasOneDraw(digit: nat, v: int)
    requires digit >= 1 && Lowest(digit) <= v <= Highest(digit)
    ensures 0 <= DrawFor(digit, v) <= Highest(digit) - Lowest(digit)
    ensures GeneralRandomNumber(digit, DrawFor(digit, v)) == v
    ensures forall d :: 0 <= d <= Highest(digit) - Lowest(digit) && GeneralRandomNumber(digit, d) == v ==> d == DrawFor(digit, v)
  {
  }

  /** The number of digits of an access code. */
  const CodeDigits: nat := 6

  /** With six digits the code lies in 100000..999999: 900000 possible codes. */
  lemma SixDigitCode(draw: int)
    requires 0 <= draw < 900000
    ensures Lowest(CodeDigits) == 100000 && Highest(CodeDigits) == 999999
    ensures 100000 <= GeneralRandomNumber(CodeDigits, draw) <= 999999
    ensures |NatToString(GeneralRandomNumber(CodeDigits, draw))| == 6
  {
    assert Pow10(5) == 100000;
    assert Pow10(6) == 1000000;
  }
}

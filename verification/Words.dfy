/** The 32-bit arithmetic of C that several models share. */
module Words {

  const WORD: nat := 0x1_0000_0000
  const INT_MAX: nat := 0x7FFF_FFFF

  function Abs(x: int): nat {
    if x < 0 then -x else x
  }

  /** An integer cut to 32 bits, as compiled code has it where C leaves the sum undefined. */
  function Wrapped(x: int): (w: int)
    ensures -0x8000_0000 <= w < 0x8000_0000 && (w - x) % WORD == 0
    ensures -0x8000_0000 <= x < 0x8000_0000 ==> w == x
  {
    (x + 0x8000_0000) % WORD - 0x8000_0000
  }

  /** C's division: the quotient of the absolute values, with the sign of the exact quotient. */
  function TruncDiv(a: int, b: int): int
    requires b != 0
  {
    if (a < 0) == (b < 0) then Abs(a) / Abs(b) else -(Abs(a) / Abs(b))
  }

  /** Truncation towards zero: what is cut off is less than the divisor and has the sign of the dividend. */
  lemma TruncDivMeaning(a: int, b: int)
    requires b != 0
    ensures var rest := a - TruncDiv(a, b) * b;
            Abs(rest) < Abs(b) && (rest == 0 || (rest < 0 <==> a < 0))
  {
    var x, y := Abs(a), Abs(b);
    assert x == x / y * y + x % y;
    var whole: int := x / y * y;
    assert TruncDiv(a, b) * b == if a < 0 then -whole else whole;
  }
}

/** Numbers as `printf` writes them: `%u` in decimal, `%x` in hexadecimal. */
module Numerals {

  datatype Base = Dec | Hex
  {
    function Radix(): (r: nat)
      ensures r == 10 || r == 16
    {
      if Dec? then 10 else 16
    }

    function Div(n: nat): nat {
      if Dec? then n / 10 else n / 16
    }

    function Mod(n: nat): (r: nat)
      ensures r < Radix() && n == r + if Dec? then 10 * Div(n) else 16 * Div(n)
    {
      if Dec? then n % 10 else n % 16
    }
  }

  const DIGITS: string := "0123456789abcdef"

  function Digit(d: nat): (c: char)
    requires d < 16
    ensures DigitOf(c) == d && c != ':' && c != '.'
  {
    DIGITS[d]
  }

  function Numeral(n: nat, base: Base): (s: string)
    ensures s != ""
    decreases n
  {
    if n < base.Radix() then [Digit(n)] else Numeral(base.Div(n), base) + [Digit(base.Mod(n))]
  }

  /** The value of a digit, in either base; 16 for anything else. */
  function DigitOf(c: char): nat {
    if '0' <= c <= '9' then c as int - '0' as int
    else if 'a' <= c <= 'f' then c as int - 'a' as int + 10
    else if 'A' <= c <= 'F' then c as int - 'A' as int + 10
    else 16
  }

  /** Small letters are written, and both cases are read. */
  lemma DigitsAre(d: nat)
    requires d < 16
    ensures Digit(d) == "0123456789abcdef"[d]
    ensures DigitOf("0123456789abcdef"[d]) == DigitOf("0123456789ABCDEF"[d]) == d
  {
    var upper := "0123456789ABCDEF";
    assert d >= 10 ==> upper[d] as int == d - 10 + 'A' as int;
    assert d < 10 ==> upper[d] as int == d + '0' as int;
  }

  /** The most significant digit stands first. */
  lemma SomeNumerals()
    ensures Numeral(0, Dec) == "0" && Numeral(1203, Dec) == "1203" && Numeral(0xc0de, Hex) == "c0de"
  {
    assert Numeral(1, Dec) == "1" && Numeral(12, Dec) == "12" && Numeral(120, Dec) == "120";
    assert Numeral(0xc, Hex) == "c" && Numeral(0xc0, Hex) == "c0" && Numeral(0xc0d, Hex) == "c0d";
  }

  predicate IsNumeral(s: string, base: Base) {
    s != "" && forall c | c in s :: DigitOf(c) < base.Radix()
  }

  function ValueOf(s: string, base: Base): nat {
    if s == "" then 0 else base.Radix() * ValueOf(s[..|s| - 1], base) + DigitOf(s[|s| - 1])
  }

  /** Reading back what was written. */
  lemma {:induction false} NumeralValue(n: nat, base: Base)
    ensures ValueOf(Numeral(n, base), base) == n && IsNumeral(Numeral(n, base), base)
    ensures forall c | c in Numeral(n, base) :: c != ':' && c != '.'
    decreases n
  {
    if n >= base.Radix() {
      NumeralValue(base.Div(n), base);
      var s, d := Numeral(base.Div(n), base), Digit(base.Mod(n));
      assert (s + [d])[..|s|] == s;
    } else {
      assert [Digit(n)][..0] == "";
    }
  }

  /** The least number with more than `k` digits. */
  function Power(base: Base, k: nat): nat {
    if k == 0 then 1 else base.Radix() * Power(base, k - 1)
  }

  lemma {:induction false} NumeralLength(n: nat, base: Base, k: nat)
    requires 0 < k
    ensures |Numeral(n, base)| <= k <==> n < Power(base, k)
    decreases k
  {
    if n < base.Radix() {
      PowerAbove(base, k);
    } else if k > 1 {
      NumeralLength(base.Div(n), base, k - 1);
    } else {
      assert Power(base, 0) == 1;
    }
  }

  lemma {:induction false} PowerAbove(base: Base, k: nat)
    ensures Power(base, k) > 0 && (k > 0 ==> base.Radix() <= Power(base, k))
  {
    if k > 0 { PowerAbove(base, k - 1); }
  }

  /** One more makes a numeral longer by one digit at most. */
  lemma {:induction false} SuccessorLength(n: nat, base: Base)
    ensures |Numeral(n, base)| <= |Numeral(n + 1, base)| <= |Numeral(n, base)| + 1
    decreases n
  {
    hide *;
    NextDiv(n, base);
    NumeralStep(n, base);
    NumeralStep(n + 1, base);
    NumeralStep(1, base);
    if n >= base.Radix() && base.Div(n + 1) != base.Div(n) {
      SuccessorLength(base.Div(n), base);
    }
  }

  lemma NumeralStep(n: nat, base: Base)
    ensures |Numeral(n, base)| == if n < base.Radix() then 1 else |Numeral(base.Div(n), base)| + 1
    ensures n >= base.Radix() ==> base.Div(n) < n
  {
  }

  lemma NextDiv(n: nat, base: Base)
    ensures base.Div(n) <= base.Div(n + 1) <= base.Div(n) + 1
    ensures n < base.Radix() ==> base.Div(n + 1) <= 1 && base.Div(base.Radix()) == 1
  {
  }
}

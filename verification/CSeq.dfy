/** The CSeq number of a request made from an earlier one (section 10.2 of RFC 3261). */
module CSeq {
  import opened Basics
  import opened CText
  import opened Numerals

  const LONG_MAX: int := 0x7fff_ffff_ffff_ffff

  /** `%i`. */
  function IntText(v: int): string {
    if v < 0 then "-" + Numeral(-v, Dec) else Numeral(v, Dec)
  }

  /** A number cut down to 32 bits with a sign, as in a conversion to `int`. */
  function ToInt(v: int): (r: int)
    ensures -INT_MAX - 1 <= r <= INT_MAX && (-INT_MAX - 1 <= v <= INT_MAX ==> r == v)
  {
    var low := v % 0x1_0000_0000;
    if low <= INT_MAX then low else low - 0x1_0000_0000
  }

  /** `osip_atoi`: a `long` is read, its bounds taken for an error, and the rest cut to an `int`. */
  function OsipAtoi(number: string): int {
    var v := Strtol(number);
    if v <= -LONG_MAX - 1 || v >= LONG_MAX then -1 else ToInt(v)
  }

  /** The number is read, raised by one (with wrap-around), and written into as many bytes as the old
      text had, and two. */
  function NextCSeq(number: string): string {
    Snprintf(|number| + 2, IntText(ToInt(OsipAtoi(number) + 1)))
  }

  lemma SomeTexts()
    ensures IntText(-42) == "-42" && IntText(42) == "42"
  {
    assert Numeral(4, Dec) == "4" && Numeral(42, Dec) == "42";
  }

  // ----- the text always fits -----

  lemma {:induction false} ShortestNumeral(s: string)
    requires IsNumeral(s, Dec)
    ensures |Numeral(ValueOf(s, Dec), Dec)| <= |s|
    decreases |s|
  {
    hide Numeral;
    var t, d := s[..|s| - 1], DigitOf(s[|s| - 1]);
    assert s[|s| - 1] in s && forall c | c in t :: c in s;
    AppendDigit(ValueOf(t, Dec), d);
    if t != "" { ShortestNumeral(t); }
  }

  lemma AppendDigit(v: nat, d: nat)
    requires d < 10
    ensures |Numeral(10 * v + d, Dec)| == if v == 0 then 1 else |Numeral(v, Dec)| + 1
  {
    assert Dec.Div(10 * v + d) == v;
  }

  lemma {:induction false} DecimalSnoc(t: string, c: char, acc: nat)
    requires AllDigits(t) && IsDigit(c)
    ensures AllDigits(t + [c]) && DecimalValue(t + [c], acc) == 10 * DecimalValue(t, acc) + DigitValue(c)
  {
    if t == "" {
      assert t + [c] == [c] && [c][1..] == "";
    } else {
      assert t[0] in t && (t + [c])[0] == t[0] && (t + [c])[1..] == t[1..] + [c];
      DecimalSnoc(t[1..], c, 10 * acc + DigitValue(t[0]));
    }
  }

  /** Reading digits from the front gives their value. */
  lemma {:induction false} DecimalIsValue(s: string)
    requires AllDigits(s)
    ensures DecimalValue(s, 0) == ValueOf(s, Dec) && (s != "" ==> IsNumeral(s, Dec))
    decreases |s|
  {
    if s != "" {
      var t, c := s[..|s| - 1], s[|s| - 1];
      assert s == t + [c] && c in s && forall d | d in t :: d in s;
      DecimalIsValue(t);
      DecimalSnoc(t, c, 0);
    }
  }

  /** What is read has no more digits than the text. */
  lemma ReadLength(number: string)
    ensures var v := Strtol(number);
            if v < 0 then |Numeral(-v, Dec)| < |number| else v == 0 || |Numeral(v, Dec)| <= |number|
  {
    var t := SkipSpace(number);
    SkipShortens(number);
    var signed := t != "" && (t[0] == '-' || t[0] == '+');
    var d := LeadingDigits(if signed then t[1..] else t);
    DecimalIsValue(d);
    if d != "" { ShortestNumeral(d); }
    hide Numeral, ValueOf, IsNumeral;
  }

  lemma {:induction false} SkipShortens(s: string)
    ensures |SkipSpace(s)| <= |s|
  {
    if s != "" && IsSpace(s[0]) { SkipShortens(s[1..]); }
  }

  lemma Tens()
    ensures Power(Dec, 9) == 1_000_000_000 && Power(Dec, 10) == 10_000_000_000
  {
    assert Power(Dec, 2) == 100;
    assert Power(Dec, 4) == 10_000;
    assert Power(Dec, 6) == 1_000_000;
    assert Power(Dec, 8) == 100_000_000;
  }

  lemma IntTextLength(v: int)
    requires -INT_MAX - 1 <= v <= INT_MAX
    ensures |IntText(v)| <= if v < 0 then 11 else 10
  {
    Tens();
    NumeralLength(if v < 0 then -v else v, Dec, 10);
    hide Numeral, Power;
  }

  lemma Small(number: string)
    ensures -INT_MAX - 1 <= Strtol(number) < INT_MAX ==> ToInt(OsipAtoi(number) + 1) == Strtol(number) + 1
  {
    hide Strtol;
  }

  /** The text of the next number is never cut, whatever stands for the old one. */
  lemma CSeqFits(number: string)
    ensures NextCSeq(number) == IntText(ToInt(OsipAtoi(number) + 1))
  {
    var v, w := Strtol(number), ToInt(OsipAtoi(number) + 1);
    ReadLength(number);
    Small(number);
    hide Strtol, IntText, Numeral, Power, OsipAtoi, ToInt;
    if -INT_MAX - 1 <= v < INT_MAX {
      OneMore(v);
    } else {
      Tens();
      NumeralLength(if v < 0 then -v else v, Dec, 9);
      IntTextLength(w);
    }
  }

  lemma OneMore(v: int)
    ensures v < -1 ==> |IntText(v + 1)| <= |Numeral(-v, Dec)| + 1
    ensures v > 0 ==> |IntText(v + 1)| <= |Numeral(v, Dec)| + 1
    ensures v == 0 || v == -1 ==> |IntText(v + 1)| == 1
    ensures v < 0 ==> Numeral(-v, Dec) != ""
  {
    hide *;
    IntTextIs(v + 1);
    OneDigit();
    if v > 0 { SuccessorLength(v, Dec); }
    if v < -1 { SuccessorLength(-v - 1, Dec); }
  }

  lemma IntTextIs(v: int)
    ensures |IntText(v)| == if v < 0 then 1 + |Numeral(-v, Dec)| else |Numeral(v, Dec)|
  {
    hide Numeral;
  }

  lemma OneDigit()
    ensures |Numeral(0, Dec)| == |Numeral(1, Dec)| == 1
  {
    assert Power(Dec, 1) == 10;
    NumeralLength(0, Dec, 1);
    NumeralLength(1, Dec, 1);
  }

  // ----- the next number -----

  lemma {:induction false} DigitsLead(s: string)
    requires AllDigits(s)
    ensures LeadingDigits(s) == s
  {
    if s != "" {
      assert s[0] in s && forall c | c in s[1..] :: c in s;
      DigitsLead(s[1..]);
    }
  }

  /** A numeral is read for its value. */
  lemma StrtolNumeral(s: string)
    requires IsNumeral(s, Dec)
    ensures Strtol(s) == ValueOf(s, Dec)
  {
    assert s[0] in s;
    DigitsLead(s);
    DecimalIsValue(s);
  }

  lemma NegativeText(v: int)
    requires v < 0
    ensures !IsNumeral(IntText(v), Dec)
  {
    assert IntText(v)[0] == '-' && IntText(v)[0] in IntText(v);
  }

  /** The number goes around like a 32-bit one with a sign; one from 2^63 - 1 on counts as -1. */
  lemma NextCSeqAround(number: string)
    requires IsNumeral(number, Dec)
    ensures var n := ValueOf(number, Dec);
            NextCSeq(number) == IntText(if n >= 0x7fff_ffff_ffff_ffff then 0 else (n + 0x8000_0001) % 0x1_0000_0000 - 0x8000_0000)
  {
    hide *;
    StrtolNumeral(number);
    CSeqFits(number);
    ReadAround(number);
    WrapsOnce(ValueOf(number, Dec));
  }

  lemma ReadAround(number: string)
    ensures Strtol(number) >= 0 ==>
              OsipAtoi(number) == if Strtol(number) >= 0x7fff_ffff_ffff_ffff then -1 else ToInt(Strtol(number))
  {
    hide Strtol, ToInt;
  }

  lemma WordIs(n: int, q: int, r: int)
    requires n == 0x1_0000_0000 * q + r && 0 <= r < 0x1_0000_0000
    ensures n % 0x1_0000_0000 == r && ToInt(n) == if r <= INT_MAX then r else r - 0x1_0000_0000
  {
  }

  lemma WrapsOnce(n: nat)
    ensures ToInt(ToInt(n) + 1) == (n + 0x8000_0001) % 0x1_0000_0000 - 0x8000_0000
    ensures ToInt(-1 + 1) == 0
  {
    var q, low := n / 0x1_0000_0000, n % 0x1_0000_0000;
    hide ToInt;
    WordIs(n, q, low);
    if low < INT_MAX {
      WordIs(n + 0x8000_0001, q, low + 0x8000_0001);
    } else {
      WordIs(n + 0x8000_0001, q + 1, low + 0x8000_0001 - 0x1_0000_0000);
      WordIs(INT_MAX + 1, 0, INT_MAX + 1);
    }
  }

  /** What is written is a number not above the greatest `int`, or no number. */
  lemma NextCSeqBounded(number: string)
    ensures IsNumeral(NextCSeq(number), Dec) ==> ValueOf(NextCSeq(number), Dec) <= INT_MAX
  {
    CSeqFits(number);
    var w := ToInt(OsipAtoi(number) + 1);
    hide NextCSeq, OsipAtoi, Numeral, ValueOf, IsNumeral;
    if w < 0 { NegativeText(w); } else { NumeralValue(w, Dec); }
  }

  /** The number that is written is the old one and one, whatever the number of its digits, if and only
      if the old one is below the greatest `int`. */
  lemma NextCSeqIsNext(number: string)
    requires IsNumeral(number, Dec)
    ensures IsNumeral(NextCSeq(number), Dec) && ValueOf(NextCSeq(number), Dec) == ValueOf(number, Dec) + 1 <==>
            ValueOf(number, Dec) < INT_MAX
  {
    StrtolNumeral(number);
    CSeqFits(number);
    NextCSeqBounded(number);
    Small(number);
    var n := ValueOf(number, Dec);
    hide NextCSeq, Numeral, ValueOf, IsNumeral, Strtol, OsipAtoi, ToInt;
    if n < INT_MAX { NumeralValue(n + 1, Dec); }
  }
}

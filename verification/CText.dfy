/** C string operations, as pure functions on the characters the C code reads. */
module CText {
  import opened Basics

  const CRLF: string := "\r\n"
  const BLANK_LINE: string := "\r\n\r\n"

  /** `tolower` in the C locale. */
  function Lower(c: char): char {
    if 'A' <= c <= 'Z' then (c as int + 32) as char else c
  }

  /** The twenty-six capital letters go to the small ones, and no other character is changed. */
  lemma LowerIs(c: char)
    ensures var upper, lower := "ABCDEFGHIJKLMNOPQRSTUVWXYZ", "abcdefghijklmnopqrstuvwxyz";
            && (forall i | 0 <= i < 26 :: Lower(upper[i]) == lower[i] == Lower(lower[i]))
            && (c !in upper ==> Lower(c) == c)
  {
    var upper, lower := "ABCDEFGHIJKLMNOPQRSTUVWXYZ", "abcdefghijklmnopqrstuvwxyz";
    assert forall i | 0 <= i < 26 :: upper[i] as int == 65 + i && lower[i] as int == 97 + i;
    if 'A' <= c <= 'Z' {
      assert c == upper[c as int - 65];
    }
  }

  function LowerAll(s: string): (r: string)
    ensures |r| == |s| && forall i | 0 <= i < |s| :: r[i] == Lower(s[i])
  {
    seq(|s|, i requires 0 <= i < |s| => Lower(s[i]))
  }

  /** `pat` stands at position `i` of `s`. */
  predicate MatchAt(s: string, i: nat, pat: string) {
    i + |pat| <= |s| && s[i..i + |pat|] == pat
  }

  /** `pat` stands at position `i` of `s`, letter case aside. */
  predicate MatchAtNoCase(s: string, i: nat, pat: string) {
    i + |pat| <= |s| && forall k | 0 <= k < |pat| :: Lower(s[i + k]) == Lower(pat[k])
  }

  /** First position from `i` on where `pat` stands. */
  function FindFrom(s: string, i: nat, pat: string): (r: Option<nat>)
    ensures r.Some? ==> i <= r.value && r.value + |pat| <= |s|
    decreases |s| - i
  {
    if i + |pat| > |s| then None
    else if s[i..i + |pat|] == pat then Some(i)
    else FindFrom(s, i + 1, pat)
  }

  function Find(s: string, pat: string): (r: Option<nat>)
    ensures r.Some? ==> r.value + |pat| <= |s|
  {
    FindFrom(s, 0, pat)
  }

  /** `osip_strcasestr`: first position from `i` on where `pat` stands, letter case aside. */
  function FindNoCaseFrom(s: string, i: nat, pat: string): (r: Option<nat>)
    ensures r.Some? ==> i <= r.value && r.value + |pat| <= |s|
    decreases |s| - i
  {
    if i + |pat| > |s| then None
    else if MatchAtNoCase(s, i, pat) then Some(i)
    else FindNoCaseFrom(s, i + 1, pat)
  }

  function FindNoCase(s: string, pat: string): (r: Option<nat>)
    ensures r.Some? ==> r.value + |pat| <= |s|
  {
    FindNoCaseFrom(s, 0, pat)
  }

  /** `r` is the first of the positions from `i` on where `pat` stands. */
  ghost predicate IsFirst(s: string, i: nat, pat: string, r: Option<nat>) {
    match r
    case None => forall j: nat | i <= j :: !MatchAt(s, j, pat)
    case Some(k) => i <= k && MatchAt(s, k, pat) && forall j: nat | i <= j < k :: !MatchAt(s, j, pat)
  }

  ghost predicate IsFirstNoCase(s: string, i: nat, pat: string, r: Option<nat>) {
    match r
    case None => forall j: nat | i <= j :: !MatchAtNoCase(s, j, pat)
    case Some(k) => i <= k && MatchAtNoCase(s, k, pat) && forall j: nat | i <= j < k :: !MatchAtNoCase(s, j, pat)
  }

  /** The searches return the first match: they and nothing else are `IsFirst`. */
  lemma {:induction false} FindIsFirst(s: string, i: nat, pat: string, r: Option<nat>)
    ensures FindFrom(s, i, pat) == r <==> IsFirst(s, i, pat, r)
    decreases |s| - i
  {
    if i + |pat| <= |s| && !MatchAt(s, i, pat) {
      FindIsFirst(s, i + 1, pat, r);
    }
  }

  lemma {:induction false} FindNoCaseIsFirst(s: string, i: nat, pat: string, r: Option<nat>)
    ensures FindNoCaseFrom(s, i, pat) == r <==> IsFirstNoCase(s, i, pat, r)
    decreases |s| - i
  {
    if i + |pat| <= |s| && !MatchAtNoCase(s, i, pat) {
      FindNoCaseIsFirst(s, i + 1, pat, r);
    }
  }

  /** Positions in `s` are positions in `p + s`, `|p|` further on. */
  lemma MatchBehind(p: string, s: string, j: nat, pat: string)
    ensures MatchAt(p + s, |p| + j, pat) == MatchAt(s, j, pat)
  {
    if j + |pat| <= |s| {
      assert (p + s)[|p| + j..|p| + j + |pat|] == s[j..j + |pat|];
    }
  }

  /** The first match in `p + s` is the one in `s` when none starts inside `p`. */
  lemma FindBehind(p: string, s: string, pat: string)
    requires forall j: nat | j < |p| :: !MatchAt(p + s, j, pat)
    ensures Find(p + s, pat) == match Find(s, pat) case None => None case Some(e) => Some(|p| + e)
  {
    var r := Find(s, pat);
    FindIsFirst(s, 0, pat, r);
    var r' := if r.None? then None else Some(|p| + r.value);
    forall j: nat ensures j >= |p| ==> MatchAt(p + s, j, pat) == MatchAt(s, j - |p|, pat) {
      if j >= |p| { MatchBehind(p, s, j - |p|, pat); }
    }
    FindIsFirst(p + s, 0, pat, r');
  }

  /** A first match stays the first match when more characters follow. */
  lemma FindExtends(s: string, t: string, pat: string)
    requires Find(s, pat).Some?
    ensures Find(s + t, pat) == Find(s, pat)
  {
    var r := Find(s, pat);
    FindIsFirst(s, 0, pat, r);
    forall j: nat | j <= r.value ensures MatchAt(s + t, j, pat) == MatchAt(s, j, pat) {
      assert (s + t)[j..j + |pat|] == s[j..j + |pat|];
    }
    FindIsFirst(s + t, 0, pat, r);
  }

  /** `strchr`. */
  function FindChar(s: string, c: char): (r: Option<nat>)
    ensures r.Some? ==> r.value < |s|
  {
    if s == "" then None
    else if s[0] == c then Some(0)
    else match FindChar(s[1..], c)
      case None => None
      case Some(i) => Some(i + 1)
  }

  lemma {:induction false} FindCharIsFirst(s: string, c: char, r: Option<nat>)
    requires match r
             case None => c !in s
             case Some(i) => i < |s| && s[i] == c && forall k | 0 <= k < i :: s[k] != c
    ensures FindChar(s, c) == r
  {
    if s != "" && s[0] != c {
      var r' := if r.None? then None else Some(r.value - 1);
      FindCharIsFirst(s[1..], c, r');
    }
  }

  /** What a C string function sees of a memory area: everything before the first NUL. */
  function CString(s: string): string {
    match FindChar(s, '\0')
    case None => s
    case Some(i) => s[..i]
  }

  /** A NUL put behind NUL-free text bounds the C string there; so does the end of the area. */
  lemma CStringIs(r: string, t: string)
    requires '\0' !in r && (t == "" || t[0] == '\0')
    ensures CString(r + t) == r
  {
    if t == "" {
      assert r + t == r;
      FindCharIsFirst(r, '\0', None);
    } else {
      assert (r + t)[..|r|] == r;
      FindCharIsFirst(r + t, '\0', Some(|r|));
    }
  }

  /** `isspace` in the C locale. */
  predicate IsSpace(c: char) {
    c == ' ' || 9 <= c as int <= 13
  }

  lemma SpacesAre(c: char)
    ensures IsSpace(c) <==> c in " \t\n\r\U{000b}\U{000c}"
  {
    var spaces := " \t\n\r\U{000b}\U{000c}";
    assert spaces[0] == ' ' && spaces[1] as int == 9 && spaces[2] as int == 10;
    assert spaces[3] as int == 13 && spaces[4] as int == 11 && spaces[5] as int == 12;
    if IsSpace(c) {
      assert c == spaces[0] || c == spaces[1] || c == spaces[2] || c == spaces[3] || c == spaces[4] || c == spaces[5];
    }
  }

  predicate IsDigit(c: char) {
    '0' <= c <= '9'
  }

  lemma DecimalDigits(c: char)
    ensures IsDigit(c) <==> c in "0123456789"
    ensures forall i | 0 <= i < 10 :: IsDigit("0123456789"[i]) && DigitValue("0123456789"[i]) == i
  {
    var digits := "0123456789";
    assert forall i | 0 <= i < 10 :: digits[i] as int == 48 + i;
    if IsDigit(c) { assert c == digits[c as int - 48]; }
  }

  predicate AllSpace(s: string) {
    forall c | c in s :: IsSpace(c)
  }

  predicate AllDigits(s: string) {
    forall c | c in s :: IsDigit(c)
  }

  function DigitValue(c: char): nat
    requires IsDigit(c)
  {
    c as int - '0' as int
  }

  /** The number written by a run of decimal digits, after a number `acc` read so far. */
  function DecimalValue(s: string, acc: nat): nat
    requires AllDigits(s)
  {
    if s == "" then acc else DecimalValue(s[1..], 10 * acc + DigitValue(s[0]))
  }

  function SkipSpace(s: string): string {
    if s != "" && IsSpace(s[0]) then SkipSpace(s[1..]) else s
  }

  function LeadingDigits(s: string): (r: string)
    ensures AllDigits(r) && r <= s
    ensures |r| < |s| ==> !IsDigit(s[|r|])
  {
    if s != "" && IsDigit(s[0]) then [s[0]] + LeadingDigits(s[1..]) else ""
  }

  /** The decimal number at the front of `s`, behind white space and a sign: what `strtol` reads, before
      any limit of width. */
  function Strtol(s: string): int {
    var t := SkipSpace(s);
    var signed := t != "" && (t[0] == '-' || t[0] == '+');
    var magnitude: int := DecimalValue(LeadingDigits(if signed then t[1..] else t), 0);
    if signed && t[0] == '-' then -magnitude else magnitude
  }

  /** `atoi`, or None where the number does not fit an `int` and C leaves the result undefined. */
  function Atoi(s: string): Option<int> {
    var v := Strtol(s);
    if -INT_MAX - 1 <= v <= INT_MAX then Some(v) else None
  }

  lemma {:induction false} SkipSpaceOver(pad: string, t: string)
    requires AllSpace(pad) && t != "" && !IsSpace(t[0])
    ensures SkipSpace(pad + t) == t
  {
    if pad == "" {
      assert pad + t == t;
    } else {
      assert pad[0] in pad;
      assert (pad + t)[1..] == pad[1..] + t;
      SkipSpaceOver(pad[1..], t);
    }
  }

  lemma {:induction false} LeadingDigitsAre(digits: string, t: string)
    requires AllDigits(digits) && (t == "" || !IsDigit(t[0]))
    ensures LeadingDigits(digits + t) == digits
  {
    if digits == "" {
      assert digits + t == t;
    } else {
      assert digits[0] in digits;
      assert (digits + t)[1..] == digits[1..] + t;
      LeadingDigitsAre(digits[1..], t);
    }
  }

  /** `atoi` reads a padded run of digits that something else follows. */
  lemma AtoiReadsNumber(pad: string, digits: string, t: string)
    requires AllSpace(pad) && AllDigits(digits) && digits != "" && (t == "" || !IsDigit(t[0]))
    requires DecimalValue(digits, 0) <= INT_MAX
    ensures Atoi(pad + digits + t) == Some(DecimalValue(digits, 0))
  {
    assert digits[0] in digits;
    assert pad + digits + t == pad + (digits + t);
    SkipSpaceOver(pad, digits + t);
    LeadingDigitsAre(digits, t);
  }

  /** With a sign before the digits. */
  lemma AtoiReadsSigned(pad: string, sign: char, digits: string, t: string)
    requires AllSpace(pad) && AllDigits(digits) && (t == "" || !IsDigit(t[0])) && (sign == '+' || sign == '-')
    requires DecimalValue(digits, 0) <= INT_MAX
    ensures var v: int := DecimalValue(digits, 0);
            Atoi(pad + [sign] + digits + t) == Some(if sign == '-' then -v else v)
  {
    var u := [sign] + (digits + t);
    assert pad + [sign] + digits + t == pad + u;
    hide *;
    SignNoSpace(sign);
    SkipSpaceOver(pad, u);
    LeadingDigitsAre(digits, t);
    SignedValue(pad + u, sign, digits, t);
  }

  lemma SignNoSpace(sign: char)
    requires sign == '+' || sign == '-'
    ensures !IsSpace(sign)
  {
  }

  lemma SignedValue(s: string, sign: char, digits: string, t: string)
    requires SkipSpace(s) == [sign] + (digits + t) && (sign == '+' || sign == '-')
    requires AllDigits(digits) && LeadingDigits(digits + t) == digits && DecimalValue(digits, 0) <= INT_MAX
    ensures var v: int := DecimalValue(digits, 0); Atoi(s) == Some(if sign == '-' then -v else v)
  {
    hide SkipSpace, LeadingDigits, DecimalValue, AllDigits;
    assert SkipSpace(s)[1..] == digits + t;
  }

  /** `snprintf` into `size` bytes. */
  function Snprintf(size: nat, text: string): string
    requires size > 0
  {
    if |text| < size then text else text[..size - 1]
  }

  /** A string and a NUL are written at `at`, as `sprintf` and `strcpy` do; the NUL is at `end`. */
  method PutString(a: array<char>, at: nat, s: string) returns (end: nat)
    requires at + |s| < a.Length
    modifies a
    ensures end == at + |s| && a[..end] == old(a[..at]) + s && a[end] == '\0'
    ensures forall i | end < i < a.Length :: a[i] == old(a[i])
  {
    forall i | 0 <= i < |s| { a[at + i] := s[i]; }
    end := at + |s|;
    a[end] := '\0';
    assert a[..end] == old(a[..at]) + s;
  }
}

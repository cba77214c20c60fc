/** The domain name asked for a telephone number (ENUM, section 2.4 of RFC 3761). */
module EnumName {
  import opened Basics
  import opened CText

  const NAME_SIZE: nat := 2050
  const AUS_SIZE: nat := 64

  function Digits(s: string): string {
    if s == "" then "" else (if IsDigit(s[0]) then [s[0]] else "") + Digits(s[1..])
  }

  function AusChar(c: char): string {
    if IsDigit(c) || c == '+' then [c] else ""
  }

  /** The application unique string: the digits, and the plus signs. */
  function Aus(s: string): string {
    if s == "" then "" else AusChar(s[0]) + Aus(s[1..])
  }

  /** What is kept of a number: of the ten digits each, and for the application unique string the plus
      signs; nothing of any other character. The order stays. */
  lemma {:induction false} KeptOf(x: string, c: char, y: string)
    ensures Aus(x + [c] + y) == Aus(x) + (if c in "+0123456789" then [c] else "") + Aus(y)
    ensures Digits(x + [c] + y) == Digits(x) + (if c in "0123456789" then [c] else "") + Digits(y)
    ensures Aus("") == Digits("") == ""
  {
    if x == "" {
      DecimalDigits(c);
      var plus := "+0123456789";
      assert c in plus <==> c == '+' || c in "0123456789" by {
        assert plus == "+" + "0123456789";
      }
      assert x + [c] + y == [c] + y && ([c] + y)[1..] == y;
    } else {
      var s := x + [c] + y;
      assert s[0] == x[0] && s[1..] == x[1..] + [c] + y;
      KeptOf(x[1..], c, y);
      KeptFirst(s);
      KeptFirst(x);
      hide *;
      var k := if c in "+0123456789" then [c] else "";
      var d := if c in "0123456789" then [c] else "";
      assert forall p: string, q: string, r: string, u: string :: p + (q + r + u) == p + q + r + u;
    }
  }

  lemma KeptFirst(s: string)
    requires s != ""
    ensures Aus(s) == AusChar(s[0]) + Aus(s[1..])
    ensures Digits(s) == (if IsDigit(s[0]) then [s[0]] else "") + Digits(s[1..])
  {
  }

  /** The digits, last first, each with a dot behind it. */
  function Labels(digits: string): string {
    if digits == "" then "" else Labels(digits[1..]) + [digits[0], '.']
  }

  function Name(zone: string, number: string): string {
    Labels(Digits(number)) + zone
  }

  // ----- what can be told from a name -----

  /** The zone does not itself begin like a label of a number. */
  predicate Plain(zone: string) {
    !(|zone| >= 2 && IsDigit(zone[0]) && zone[1] == '.')
  }

  /** The digits at the front of a name, in the order of the number, and what follows them. */
  function Read(name: string): (string, string) {
    if Plain(name) then ("", name)
    else var (d, z) := Read(name[2..]); (d + [name[0]], z)
  }

  lemma {:induction false} LabelsSnoc(digits: string, d: char)
    ensures Labels(digits + [d]) == [d, '.'] + Labels(digits)
  {
    if digits == "" {
      assert digits + [d] == [d] && [d][1..] == "";
    } else {
      assert (digits + [d])[0] == digits[0] && (digits + [d])[1..] == digits[1..] + [d];
      LabelsSnoc(digits[1..], d);
    }
  }

  /** Reading takes the labels of the number off, and any that the zone begins with. */
  lemma {:induction false} ReadLabels(digits: string, zone: string)
    requires AllDigits(digits)
    ensures Read(Labels(digits) + zone) == (Read(zone).0 + digits, Read(zone).1)
    decreases |digits|
  {
    if digits == "" {
      assert Labels(digits) + zone == zone && Read(zone).0 + "" == Read(zone).0;
    } else {
      var k := |digits| - 1;
      var front, d := digits[..k], digits[k];
      assert digits == front + [d] && d in digits && forall c | c in front :: c in digits;
      LabelsSnoc(front, d);
      ReadLabels(front, zone);
      var rest := Labels(front) + zone;
      hide Labels;
      assert Labels(digits) + zone == [d, '.'] + rest && ([d, '.'] + rest)[2..] == rest;
      assert Read(zone).0 + front + [d] == Read(zone).0 + digits;
    }
  }

  lemma {:induction false} DigitsAreDigits(s: string)
    ensures AllDigits(Digits(s))
  {
    if s != "" { DigitsAreDigits(s[1..]); }
  }

  /** The number's digits and the zone can be read from the name, if and only if the zone does not begin
      like a label. */
  lemma NameTells(zone: string, number: string)
    ensures Read(Name(zone, number)) == (Digits(number), zone) <==> Plain(zone)
  {
    DigitsAreDigits(number);
    ReadLabels(Digits(number), zone);
    ReadShortens(zone);
    assert "" + Digits(number) == Digits(number);
  }

  lemma {:induction false} ReadShortens(name: string)
    ensures |Read(name).1| <= |name| && (Read(name).1 == name <==> Plain(name))
    decreases |name|
  {
    if !Plain(name) { ReadShortens(name[2..]); }
  }

  lemma {:induction false} LabelsConcat(x: string, y: string)
    ensures Labels(x + y) == Labels(y) + Labels(x)
  {
    if x == "" {
      assert x + y == y && Labels(y) + "" == Labels(y);
    } else {
      assert (x + y)[0] == x[0] && (x + y)[1..] == x[1..] + y;
      LabelsConcat(x[1..], y);
      assert Labels(y) + Labels(x[1..]) + [x[0], '.'] == Labels(y) + (Labels(x[1..]) + [x[0], '.']);
    }
  }

  lemma {:induction false} LabelsInjective(x: string, y: string)
    requires Labels(x) == Labels(y)
    ensures x == y
  {
    LabelsLength(x);
    LabelsLength(y);
    if x != "" {
      var a, b := Labels(x[1..]), Labels(y[1..]);
      assert a == Labels(x)[..|Labels(x)| - 2] == b && Labels(x)[|Labels(x)| - 2] == x[0] == y[0];
      LabelsInjective(x[1..], y[1..]);
    }
  }

  /** Digits and a zone that make the same name as other digits and a zone that is not shorter. */
  lemma PrefixMeets(d: string, z: string, d': string, z': string) returns (x: string)
    requires Labels(d) + z == Labels(d') + z' && |d| <= |d'|
    ensures z == Labels(x) + z' && d' == x + d
  {
    var k := |d'| - |d|;
    x := d'[..k];
    var y := d'[k..];
    assert d' == x + y;
    LabelsConcat(x, y);
    LabelsLength(d);
    LabelsLength(y);
    var n := |Labels(d)|;
    assert Labels(d) + z == Labels(y) + (Labels(x) + z');
    assert (Labels(d) + z)[..n] == Labels(d) && (Labels(y) + (Labels(x) + z'))[..n] == Labels(y);
    assert (Labels(d) + z)[n..] == z && (Labels(y) + (Labels(x) + z'))[n..] == Labels(x) + z';
    LabelsInjective(d, y);
  }

  /** One zone is the other with the digits `x` as labels in front, and these digits make up for what one
      number has less. */
  predicate Shifted(x: string, d: string, z: string, d': string, z': string) {
    z == Labels(x) + z' && d' == x + d
  }

  lemma ShiftedMeets(x: string, d: string, z: string, d': string, z': string)
    requires Shifted(x, d, z, d', z')
    ensures Labels(d) + z == Labels(d') + z'
  {
    LabelsConcat(x, d);
    assert Labels(d) + (Labels(x) + z') == Labels(d) + Labels(x) + z';
  }

  /** Two names are equal exactly when one zone is the other with digits as labels in front, and the other
      number has these digits in front; in one zone, exactly when the numbers' digits agree; in zones that
      do not begin like labels, exactly when digits and zone agree. */
  lemma NamesMeet(zone: string, number: string, zone': string, number': string)
    ensures Name(zone, number) == Name(zone', number') <==>
              exists x :: Shifted(x, Digits(number), zone, Digits(number'), zone')
                          || Shifted(x, Digits(number'), zone', Digits(number), zone)
    ensures zone == zone' ==> (Name(zone, number) == Name(zone', number') <==> Digits(number) == Digits(number'))
    ensures Plain(zone) && Plain(zone') ==>
              (Name(zone, number) == Name(zone', number') <==> zone == zone' && Digits(number) == Digits(number'))
  {
    var d, d' := Digits(number), Digits(number');
    NameTells(zone, number);
    NameTells(zone', number');
    hide Labels, Digits, Read, Plain;
    if Name(zone, number) == Name(zone', number') {
      if |d| <= |d'| {
        var x := PrefixMeets(d, zone, d', zone');
        assert Shifted(x, d, zone, d', zone');
        if zone == zone' { NoLabels(x, zone); }
      } else {
        var x := PrefixMeets(d', zone', d, zone);
        assert Shifted(x, d', zone', d, zone);
        if zone == zone' { NoLabels(x, zone); }
      }
    }
    if x :| Shifted(x, d, zone, d', zone') || Shifted(x, d', zone', d, zone) {
      if Shifted(x, d, zone, d', zone') {
        ShiftedMeets(x, d, zone, d', zone');
      } else {
        ShiftedMeets(x, d', zone', d, zone);
      }
    }
  }

  lemma NoLabels(x: string, zone: string)
    requires zone == Labels(x) + zone
    ensures x == "" && forall d: string :: x + d == d
  {
    LabelsLength(x);
    assert |zone| == |Labels(x)| + |zone|;
    forall d: string ensures x + d == d { assert "" + d == d; }
  }

  lemma {:induction false} LabelsLength(digits: string)
    ensures |Labels(digits)| == 2 * |digits|
  {
    if digits != "" { LabelsLength(digits[1..]); }
  }

  /** A zone that begins like a label is not told from a longer number. */
  lemma NameConfuses()
    ensures Name("2.arpa", "1") == Name("arpa", "21")
  {
    assert "21"[1..] == "1" && "1"[1..] == "";
    assert Digits("1") == "1" && Digits("21") == "21";
    assert Labels("1") == "1." && Labels("21") == "1.2.";
    assert "1." + "2.arpa" == "1.2." + "arpa";
  }

  /** A number as it is dialled, and the name asked for. */
  lemma DialledNumber()
    ensures Aus("+4 2") == "+42" && Name("e164.arpa", "+4 2") == "2.4.e164.arpa"
  {
    DialledKept();
    DialledLabels();
    hide Aus, Digits, Labels;
  }

  lemma DialledKept()
    ensures Aus("+4 2") == "+42" && Digits("+4 2") == "42"
  {
    hide Aus, Digits;
    KeptFirst("2");
    KeptFirst(" 2");
    KeptFirst("4 2");
    KeptFirst("+4 2");
    NothingKept();
    assert "2"[1..] == "" && " 2"[1..] == "2" && "4 2"[1..] == " 2" && "+4 2"[1..] == "4 2";
  }

  lemma NothingKept()
    ensures Aus("") == Digits("") == ""
  {
  }

  lemma DialledLabels()
    ensures Labels("42") + "e164.arpa" == "2.4.e164.arpa"
  {
    assert "42"[1..] == "2" && "2"[1..] == "";
    assert Labels("2") == "2." && Labels("42") == "2.4.";
  }

  // ----- the two loops -----

  lemma {:induction false} AusSnoc(s: string, c: char)
    ensures Aus(s + [c]) == Aus(s) + AusChar(c)
  {
    hide AusChar;
    if s == "" {
      assert s + [c] == [c] && [c][1..] == "";
      assert Aus([c]) == AusChar(c) + Aus("");
    } else {
      assert (s + [c])[0] == s[0] && (s + [c])[1..] == s[1..] + [c];
      AusSnoc(s[1..], c);
      assert AusChar(s[0]) + (Aus(s[1..]) + AusChar(c)) == AusChar(s[0]) + Aus(s[1..]) + AusChar(c);
    }
  }

  lemma {:induction false} AusBounds(s: string, k: nat)
    requires k <= |s|
    ensures |Aus(s[..k])| <= |Aus(s)| && |Digits(s[k..])| <= |Digits(s)|
    decreases |s| - k
  {
    if k < |s| {
      AusBounds(s, k + 1);
      assert s[..k + 1] == s[..k] + [s[k]];
      AusSnoc(s[..k], s[k]);
    } else {
      assert s[..k] == s;
    }
    SuffixDigits(s, k);
  }

  lemma {:induction false} SuffixDigits(s: string, k: nat)
    requires k <= |s|
    ensures |Digits(s[k..])| <= |Digits(s)|
    decreases k
  {
    if k > 0 {
      SuffixDigits(s, k - 1);
      assert s[k - 1..][1..] == s[k..];
    } else {
      assert s[0..] == s;
    }
  }

  /** The digits and plus signs of the number, in order, and a NUL; not `ok` where the C code, which does
      not check, writes beyond the buffer. */
  method FillAus(number: string, aus: array<char>) returns (ok: bool, n: nat)
    requires aus.Length == AUS_SIZE
    modifies aus
    ensures ok <==> |Aus(number)| < 64
    ensures ok ==> n == |Aus(number)| && aus[..n] == Aus(number) && aus[n] == '\0'
  {
    n := 0;
    var idx: nat := 0;
    assert number[..0] == "";
    while idx < |number|
      invariant idx <= |number| && n == |Aus(number[..idx])| <= AUS_SIZE && aus[..n] == Aus(number[..idx])
    {
      assert number[..idx + 1] == number[..idx] + [number[idx]];
      AusSnoc(number[..idx], number[idx]);
      AusBounds(number, idx + 1);
      if number[idx] == '+' || IsDigit(number[idx]) {
        if n == aus.Length {
          return false, n;
        }
        aus[n] := number[idx];
        n := n + 1;
      }
      idx := idx + 1;
    }
    assert number[..idx] == number;
    if n == aus.Length {
      return false, n;
    }
    aus[n] := '\0';
    ok := true;
  }

  lemma NameStart(number: string)
    ensures Labels(Digits(number[|number|..])) == "" == Digits(number[|number|..])
  {
  }

  lemma NameStep(number: string, k: nat)
    requires k < |number|
    ensures var rest, digits := Digits(number[k + 1..]), Digits(number[k..]);
            if IsDigit(number[k]) then |digits| == |rest| + 1 && Labels(digits) == Labels(rest) + [number[k], '.']
            else digits == rest
  {
    var rest := Digits(number[k + 1..]);
    assert number[k..][0] == number[k] && number[k..][1..] == number[k + 1..];
    assert ([number[k]] + rest)[1..] == rest;
  }

  lemma NameIs(zone: string, number: string)
    ensures Name(zone, number) == Labels(Digits(number)) + zone && |Labels(Digits(number))| == 2 * |Digits(number)|
  {
    LabelsLength(Digits(number));
  }

  /** The digits from the last to the first, a dot behind each, and the zone behind them all; not `ok` where
      the C code writes beyond the buffer. */
  method FillName(zone: string, number: string, name: array<char>) returns (ok: bool, n: nat)
    requires name.Length == NAME_SIZE
    modifies name
    ensures ok <==> |Name(zone, number)| < 2050
    ensures ok ==> n == |Name(zone, number)| && name[..n] == Name(zone, number) && name[n] == '\0'
  {
    hide Digits, Labels, Name;
    n := 0;
    var idx: nat := 0;
    NameStart(number);
    NameIs(zone, number);
    while idx < |number|
      invariant idx <= |number| && n == 2 * |Digits(number[|number| - idx..])| <= NAME_SIZE
      invariant name[..n] == Labels(Digits(number[|number| - idx..]))
    {
      var k := |number| - idx - 1;
      SuffixDigits(number, k);
      NameStep(number, k);
      ghost var before := name[..n];
      if IsDigit(number[k]) {
        if n + 2 > name.Length {
          return false, n;
        }
        name[n] := number[k];
        n := n + 1;
        name[n] := '.';
        n := n + 1;
        assert name[..n] == before + [number[k], '.'];
      }
      idx := idx + 1;
    }
    assert number[0..] == number;
    if n + |zone| >= name.Length {
      return false, n;
    }
    ghost var labels := name[..n];
    forall i | 0 <= i < |zone| { name[n + i] := zone[i]; }
    n := n + |zone|;
    name[n] := '\0';
    assert name[..n] == labels + zone;
    ok := true;
  }

  // ----- the whole name -----

  /** A zone and a number separated by an exclamation mark; a second one would introduce the name of a
      server. */
  function Split(text: string): Option<(string, string)> {
    match FindChar(text, '!')
    case None => None
    case Some(d) =>
      var rest := text[d + 1..];
      if rest == "" then None
      else match FindChar(rest, '!')
        case None => Some((text[..d], rest))
        case Some(e) => Some((text[..d], rest[..e]))
  }

  lemma SplitIs(zone: string, number: string, tail: string)
    requires '!' !in zone && '!' !in number && number + tail != "" && (tail == "" || tail[0] == '!')
    ensures Split(zone + "!" + number + tail) == Some((zone, number))
  {
    var text, rest := zone + "!" + number + tail, number + tail;
    assert text[..|zone|] == zone && text[|zone| + 1..] == rest && rest[..|number|] == number;
    assert tail == "" ==> rest == number;
    FindCharIsFirst(text, '!', Some(|zone|));
    FindCharIsFirst(rest, '!', if tail == "" then None else Some(|number|));
  }

  /** There is no number when there is no exclamation mark, or the only one is the last character. */
  lemma NotSplit(text: string)
    ensures Split(text).None? <==> '!' !in text || (text[|text| - 1] == '!' && '!' !in text[..|text| - 1])
  {
    if '!' !in text {
      FindCharIsFirst(text, '!', None);
    } else {
      var d: nat :| d < |text| && text[d] == '!' && '!' !in text[..d] by { FirstMark(text); }
      assert forall k | 0 <= k < d :: text[k] == text[..d][k];
      FindCharIsFirst(text, '!', Some(d));
      if d + 1 < |text| { assert text[..|text| - 1][d] == '!'; }
    }
  }

  lemma {:induction false} FirstMark(text: string)
    requires '!' in text
    ensures exists d: nat :: d < |text| && text[d] == '!' && '!' !in text[..d]
  {
    if text[0] == '!' {
      assert '!' !in text[..0];
    } else {
      FirstMark(text[1..]);
      var d: nat :| d < |text[1..]| && text[1..][d] == '!' && '!' !in text[1..][..d];
      assert text[..d + 1] == [text[0]] + text[1..][..d];
      assert text[d + 1] == '!' && '!' !in text[..d + 1];
    }
  }

  /** The ENUM part of `eXosip_dnsutils_naptr`: for a zone, an exclamation mark and a number, the name to
      ask for; not `ok` where a buffer is overrun. */
  method EnumQuery(text: string, aus: array<char>, name: array<char>) returns (isEnum: bool, ok: bool, n: nat)
    requires aus != name && aus.Length == AUS_SIZE && name.Length == NAME_SIZE
    modifies aus, name
    ensures isEnum <==> Split(text).Some?
    ensures isEnum ==>
              var (zone, number) := Split(text).value;
              && (ok <==> |Aus(number)| < 64 && |Name(zone, number)| < 2050)
              && (ok ==> n == |Name(zone, number)| && name[..n] == Name(zone, number) && name[n] == '\0'
                         && aus[..|Aus(number)|] == Aus(number) && aus[|Aus(number)|] == '\0')
  {
    hide Name, Aus, Digits;
    ok, n := true, 0;
    var delim := FindChar(text, '!');
    if delim == None || delim.value + 1 == |text| {
      return false, true, 0;
    }
    isEnum := true;
    var zone, rest := text[..delim.value], text[delim.value + 1..];
    var server := FindChar(rest, '!');
    var number := if server == None then rest else rest[..server.value];
    ok, n := FillAus(number, aus);
    if !ok {
      return;
    }
    ok, n := FillName(zone, number, name);
  }
}

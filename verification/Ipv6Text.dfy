/** The text of an IPv6 address, and the reading of such text (sections 2.2 of RFC 4291 and 4.2 of
    RFC 5952). */
module Ipv6Text {
  import opened Basics
  import opened CText
  import opened Numerals

  type Word = w: int | 0 <= w < 0x1_0000

  function WordAt(hi: Byte, lo: Byte): Word {
    var h: int := hi;
    256 * h + lo
  }

  function WordsOf(src: seq<Byte>): (r: seq<Word>)
    requires |src| % 2 == 0
    ensures |r| == |src| / 2
    ensures forall i | 0 <= i < |r| :: r[i] == WordAt(src[2 * i], src[2 * i + 1])
  {
    seq(|src| / 2, i requires 0 <= i < |src| / 2 => WordAt(src[2 * i], src[2 * i + 1]))
  }

  function BytesOf(words: seq<Word>): (r: seq<Byte>)
    ensures |r| == 2 * |words|
  {
    seq(2 * |words|, i requires 0 <= i < 2 * |words| => if i % 2 == 0 then words[i / 2] / 256 else words[i / 2] % 256)
  }

  lemma BytesOfWords(src: seq<Byte>)
    requires |src| % 2 == 0
    ensures BytesOf(WordsOf(src)) == src
  {
  }

  // ----- which zeros are compressed -----

  /** Words `base` to `base + len` are zero. */
  predicate ZeroRun(words: seq<Word>, base: nat, len: nat) {
    base + len <= |words| && forall i | base <= i < base + len :: words[i] == 0
  }

  datatype Run = NoRun | Zeros(base: nat, len: nat)

  /** The run that `::` stands for: the longest of two zero words or more, the first of these. */
  ghost predicate IsBest(words: seq<Word>, run: Run) {
    match run
    case NoRun => forall b: nat, l: nat | ZeroRun(words, b, l) :: l < 2
    case Zeros(base, len) =>
      && len >= 2 && ZeroRun(words, base, len)
      && forall b: nat, l: nat | ZeroRun(words, b, l) :: l < len || (l == len && base <= b)
  }

  lemma BestIsUnique(words: seq<Word>, r: Run, r': Run)
    requires IsBest(words, r) && IsBest(words, r')
    ensures r == r'
  {
    match r
    case NoRun =>
    case Zeros(base, len) => assert ZeroRun(words, base, len);
    match r'
    case NoRun =>
    case Zeros(base, len) => assert ZeroRun(words, base, len);
  }

  /** As many zero words begin nowhere before the run, and more nowhere at all. */
  lemma LeftmostLongest(words: seq<Word>, base: nat, len: nat, b: nat)
    requires IsBest(words, Zeros(base, len))
    ensures 2 <= len && base + len <= |words| && forall i | base <= i < base + len :: words[i] == 0
    ensures b < base ==> exists i :: b <= i < b + len && words[i] != 0
    ensures b + len < |words| ==> exists i :: b <= i <= b + len && words[i] != 0
  {
    assert b < base ==> !ZeroRun(words, b, len);
    assert !ZeroRun(words, b, len + 1);
  }

  /** A run is left out exactly when two words next to each other are zero. */
  lemma TwoZerosCompressed(words: seq<Word>, run: Run)
    requires IsBest(words, run)
    ensures run.Zeros? <==> exists i :: 0 <= i < |words| - 1 && words[i] == 0 && words[i + 1] == 0
  {
    match run
    case NoRun =>
      forall i | 0 <= i < |words| - 1 ensures words[i] != 0 || words[i + 1] != 0 {
        assert !ZeroRun(words, i, 2);
      }
    case Zeros(base, len) =>
      assert words[base] == 0 && words[base + 1] == 0;
  }

  // ----- the text -----

  function HexText(w: Word): string {
    Numeral(w, Hex)
  }

  /** Groups with single colons between them. */
  function Join(words: seq<Word>): string {
    if words == [] then ""
    else if |words| == 1 then HexText(words[0])
    else HexText(words[0]) + ":" + Join(words[1..])
  }

  function DecText(b: Byte): string {
    Numeral(b, Dec)
  }

  /** Decimal numbers with single dots between them; for four bytes, what `_inet_ntop4` writes. */
  function Dotted(q: seq<Byte>): string
    requires q != []
  {
    if |q| == 1 then DecText(q[0]) else DecText(q[0]) + "." + Dotted(q[1..])
  }

  /** The address encapsulates an IPv4 address: its last four bytes are written as such. */
  predicate Encapsulated(words: seq<Word>, run: Run)
    requires |words| == 8
  {
    run == Zeros(0, 6) || (run == Zeros(0, 5) && words[5] == 0xffff)
  }

  /** What stands behind the double colon. */
  function RightText(src: seq<Byte>, run: Run): string
    requires |src| == 16 && run.Zeros? && run.base + run.len <= 8
  {
    var words := WordsOf(src);
    if Encapsulated(words, run) then (if run.len == 5 then "ffff:" else "") + Dotted(src[12..])
    else Join(words[run.base + run.len..])
  }

  function Text(src: seq<Byte>, run: Run): string
    requires |src| == 16 && (run.Zeros? ==> run.base + run.len <= 8)
  {
    match run
    case NoRun => Join(WordsOf(src))
    case Zeros(base, len) => Join(WordsOf(src)[..base]) + "::" + RightText(src, run)
  }

  // ----- reading it -----

  function ReadHex(s: string): Option<Word> {
    if IsNumeral(s, Hex) && |s| <= 4 && ValueOf(s, Hex) < 0x1_0000 then Some(ValueOf(s, Hex)) else None
  }

  function ReadDec(s: string): Option<Byte> {
    if IsNumeral(s, Dec) && |s| <= 3 && ValueOf(s, Dec) < 0x100 then Some(ValueOf(s, Dec)) else None
  }

  /** Decimal numbers with single dots between them. */
  function ReadDots(s: string): Option<seq<Byte>>
    decreases |s|
  {
    match FindChar(s, '.')
    case None =>
      (match ReadDec(s)
       case None => None
       case Some(b) => Some([b]))
    case Some(i) =>
      match (ReadDec(s[..i]), ReadDots(s[i + 1..]))
      case (Some(b), Some(bs)) => Some([b] + bs)
      case (_, _) => None
  }

  /** A last piece of an address: a group, or, where that is allowed, four decimal numbers. */
  function ReadLast(s: string, dots: bool): Option<seq<Word>> {
    if dots && '.' in s then
      match ReadDots(s)
      case None => None
      case Some(q) => if |q| == 4 then Some(WordsOf(q)) else None
    else
      match ReadHex(s)
      case None => None
      case Some(w) => Some([w])
  }

  function ReadGroups(s: string, dots: bool): Option<seq<Word>>
    decreases |s|
  {
    match FindChar(s, ':')
    case None => ReadLast(s, dots)
    case Some(i) =>
      match (ReadHex(s[..i]), ReadGroups(s[i + 1..], dots))
      case (Some(w), Some(ws)) => Some([w] + ws)
      case (_, _) => None
  }

  function ReadSide(s: string, dots: bool): Option<seq<Word>> {
    if s == "" then Some([]) else ReadGroups(s, dots)
  }

  /** The address a text stands for, or None for a text that is none. */
  function Parse(s: string): Option<seq<Byte>> {
    match Find(s, "::")
    case None =>
      (match ReadGroups(s, true)
       case None => None
       case Some(ws) => if |ws| == 8 then Some(BytesOf(ws)) else None)
    case Some(i) =>
      match (ReadSide(s[..i], false), ReadSide(s[i + 2..], true))
      case (Some(l), Some(r)) =>
        if |l| + |r| > 7 then None else Some(BytesOf(l + seq(8 - |l| - |r|, _ => 0) + r))
      case (_, _) => None
  }

  // ----- reading back what was written -----

  lemma HexRoundTrip(w: Word)
    ensures ReadHex(HexText(w)) == Some(w) && ReadLast(HexText(w), true) == ReadLast(HexText(w), false) == Some([w])
    ensures 1 <= |HexText(w)| <= 4 && ':' !in HexText(w) && '.' !in HexText(w)
  {
    NumeralValue(w, Hex);
    assert Power(Hex, 4) == 16 * (16 * (16 * 16)) by { assert Power(Hex, 2) == 16 * 16; }
    NumeralLength(w, Hex, 4);
  }

  lemma DecRoundTrip(b: Byte)
    ensures ReadDec(DecText(b)) == Some(b)
    ensures 1 <= |DecText(b)| <= 3 && ':' !in DecText(b) && '.' !in DecText(b)
  {
    NumeralValue(b, Dec);
    assert Power(Dec, 3) == 1000 by { assert Power(Dec, 2) == 100; }
    NumeralLength(b, Dec, 3);
  }

  lemma FirstPiece(piece: string, rest: string, c: char)
    requires c !in piece
    ensures FindChar(piece + [c] + rest, c) == Some(|piece|)
    ensures (piece + [c] + rest)[..|piece|] == piece && (piece + [c] + rest)[|piece| + 1..] == rest
  {
    FindCharIsFirst(piece + [c] + rest, c, Some(|piece|));
  }

  lemma {:induction false} GroupsRoundTrip(words: seq<Word>, dots: bool)
    requires words != []
    ensures ReadGroups(Join(words), dots) == Some(words)
  {
    hide ReadHex, HexText;
    HexRoundTrip(words[0]);
    if |words| == 1 {
      assert words == [words[0]];
      FindCharIsFirst(HexText(words[0]), ':', None);
    } else {
      GroupsRoundTrip(words[1..], dots);
      FirstPiece(HexText(words[0]), Join(words[1..]), ':');
      assert words == [words[0]] + words[1..];
    }
  }

  lemma {:induction false} DotsRoundTrip(q: seq<Byte>)
    requires q != []
    ensures ReadDots(Dotted(q)) == Some(q) && (|q| > 1 ==> '.' in Dotted(q)) && ':' !in Dotted(q) && Dotted(q) != ""
  {
    hide ReadDec, DecText, FindChar;
    DecRoundTrip(q[0]);
    if |q| == 1 {
      assert q == [q[0]];
      FindCharIsFirst(DecText(q[0]), '.', None);
    } else {
      DotsRoundTrip(q[1..]);
      FirstPiece(DecText(q[0]), Dotted(q[1..]), '.');
      hide Dotted;
      DottedCons(q);
      assert q == [q[0]] + q[1..];
    }
  }

  lemma DottedCons(q: seq<Byte>)
    requires |q| > 1
    ensures Dotted(q) == DecText(q[0]) + "." + Dotted(q[1..]) && Dotted(q) != "" && '.' in Dotted(q)
    ensures ':' !in DecText(q[0]) && ':' !in Dotted(q[1..]) ==> ':' !in Dotted(q)
  {
    hide DecText;
    assert Dotted(q)[|DecText(q[0])|] == '.';
  }

  /** The last four bytes, alone or behind the group `ffff`. */
  lemma TailRoundTrip(q: seq<Byte>)
    requires |q| == 4
    ensures ReadGroups(Dotted(q), true) == Some(WordsOf(q))
    ensures ReadGroups("ffff:" + Dotted(q), true) == Some([0xffff] + WordsOf(q))
  {
    hide *;
    DotsRoundTrip(q);
    GroupsOfDots(Dotted(q), q);
    LedByFfff(Dotted(q), WordsOf(q));
  }

  lemma LedByFfff(s: string, ws: seq<Word>)
    requires ReadGroups(s, true) == Some(ws)
    ensures ReadGroups("ffff:" + s, true) == Some([0xffff] + ws)
  {
    Ffff();
    hide *;
    assert "ffff" + ":" + s == "ffff:" + s;
    GroupsLed("ffff", 0xffff, s, ws);
  }

  lemma GroupsOfDots(s: string, q: seq<Byte>)
    requires ':' !in s && '.' in s && ReadDots(s) == Some(q) && |q| == 4
    ensures ReadGroups(s, true) == Some(WordsOf(q))
  {
    hide ReadDots, FindChar, WordsOf;
    FindCharIsFirst(s, ':', None);
  }

  lemma GroupsLed(h: string, w: Word, s: string, ws: seq<Word>)
    requires ':' !in h && ReadHex(h) == Some(w) && ReadGroups(s, true) == Some(ws)
    ensures ReadGroups(h + ":" + s, true) == Some([w] + ws)
  {
    hide ReadHex, FindChar;
    FirstPiece(h, s, ':');
  }

  lemma Ffff()
    ensures ReadHex("ffff") == Some(0xffff) && HexText(0xffff) == "ffff"
  {
    assert Numeral(15, Hex) == "f" && Numeral(255, Hex) == "ff" && Numeral(4095, Hex) == "fff";
    assert HexText(0xffff) == "ffff";
    HexRoundTrip(0xffff);
  }

  /** Every colon has something other than a colon behind it. */
  predicate SingleColons(s: string) {
    forall i | 0 <= i < |s| && s[i] == ':' :: i + 1 < |s| && s[i + 1] != ':'
  }

  lemma {:induction false} JoinSingle(words: seq<Word>)
    ensures SingleColons(Join(words))
    ensures words != [] ==> Join(words) != "" && Join(words)[0] != ':'
  {
    hide HexText;
    if words != [] {
      HexRoundTrip(words[0]);
      if |words| == 1 {
        OneGroup(HexText(words[0]));
      } else {
        JoinSingle(words[1..]);
        MoreGroups(HexText(words[0]), Join(words[1..]));
      }
    }
  }

  lemma OneGroup(h: string)
    requires h != "" && ':' !in h
    ensures SingleColons(h) && h[0] != ':'
  {
    assert forall i | 0 <= i < |h| :: h[i] in h;
  }

  lemma MoreGroups(h: string, t: string)
    requires h != "" && ':' !in h && SingleColons(t) && t != "" && t[0] != ':'
    ensures SingleColons(h + ":" + t) && (h + ":" + t)[0] != ':'
  {
    var s := h + ":" + t;
    assert forall i | 0 <= i < |h| :: s[i] == h[i] && h[i] in h;
    assert forall i | |h| + 1 <= i < |s| :: s[i] == t[i - |h| - 1];
  }

  /** The double colon is found where it was put. */
  lemma FindDouble(l: string, r: string)
    requires SingleColons(l)
    ensures Find(l + "::" + r, "::") == Some(|l|)
    ensures Find(l, "::") == None
  {
    var s := l + "::" + r;
    assert s[|l|..|l| + 2] == "::";
    forall j: nat | j < |l| ensures !MatchAt(s, j, "::") && !MatchAt(l, j, "::") {
      assert s[j..j + 2][0] == l[j] && s[j..j + 2][1] == s[j + 1];
      assert j + 2 <= |l| ==> l[j..j + 2] == s[j..j + 2];
    }
    FindIsFirst(s, 0, "::", Some(|l|));
    FindIsFirst(l, 0, "::", None);
  }

  lemma BytesOfRun(words: seq<Word>, base: nat, len: nat)
    requires |words| == 8 && ZeroRun(words, base, len)
    ensures words[..base] + seq(len, _ => 0) + words[base + len..] == words
  {
  }

  /** The words of the last four bytes. */
  lemma TailWords(src: seq<Byte>)
    requires |src| == 16
    ensures WordsOf(src)[6..] == WordsOf(src[12..])
    ensures WordsOf(src)[5..] == [WordsOf(src)[5]] + WordsOf(src[12..])
  {
  }

  /** What stands behind the double colon reads as the words behind the run. */
  lemma RightSide(src: seq<Byte>, run: Run)
    requires |src| == 16 && run.Zeros? && run.base + run.len <= 8
    ensures ReadSide(RightText(src, run), true) == Some(WordsOf(src)[run.base + run.len..])
  {
    hide ReadGroups, Dotted, HexText;
    var words := WordsOf(src);
    if Encapsulated(words, run) {
      TailRoundTrip(src[12..]);
      TailWords(src);
      DotsRoundTrip(src[12..]);
      assert "" + Dotted(src[12..]) == Dotted(src[12..]);
    } else if run.base + run.len < 8 {
      GroupsRoundTrip(words[run.base + run.len..], true);
      JoinSingle(words[run.base + run.len..]);
    }
  }

  /** Reading the text of an address gives the address back, whichever run of two zero words or more
      is compressed. */
  lemma RoundTrip(src: seq<Byte>, run: Run)
    requires |src| == 16 && (run.Zeros? ==> run.len >= 1 && ZeroRun(WordsOf(src), run.base, run.len))
    ensures Parse(Text(src, run)) == Some(src)
  {
    hide ReadGroups, ReadSide, RightText, Join, Find, Numeral;
    var words := WordsOf(src);
    BytesOfWords(src);
    match run
    case NoRun =>
      JoinSingle(words);
      FindDouble(Join(words), "");
      GroupsRoundTrip(words, true);
    case Zeros(base, len) =>
      JoinSingle(words[..base]);
      FindDouble(Join(words[..base]), RightText(src, run));
      LeftSide(words[..base]);
      RightSide(src, run);
      BytesOfRun(words, base, len);
      Sides(Join(words[..base]), RightText(src, run));
  }

  lemma LeftSide(words: seq<Word>)
    ensures ReadSide(Join(words), false) == Some(words)
  {
    if words != [] {
      GroupsRoundTrip(words, false);
      JoinSingle(words);
    }
  }

  lemma Sides(l: string, r: string)
    ensures var s := l + "::" + r; s[..|l|] == l && s[|l| + 2..] == r
  {
  }

  lemma NoColons(d: string)
    requires ':' !in d && d != ""
    ensures SingleColons(d) && d[0] != ':'
    ensures SingleColons("" + d) && ("" + d)[0] != ':'
    ensures SingleColons("ffff:" + d) && ("ffff:" + d)[0] != ':'
  {
    var t := "ffff:" + d;
    assert "" + d == d;
    forall i | 0 <= i < |d| ensures d[i] != ':' && t[i + 5] != ':' {
      assert d[i] in d && t[i + 5] == d[i];
    }
    forall i | 5 <= i < |t| ensures t[i] != ':' { assert t[(i - 5) + 5] != ':'; }
  }

  lemma RightSingle(src: seq<Byte>, run: Run)
    requires |src| == 16 && run.Zeros? && run.base + run.len <= 8
    ensures var r := RightText(src, run); SingleColons(r) && (r != "" ==> r[0] != ':')
  {
    var words := WordsOf(src);
    if Encapsulated(words, run) {
      DotsRoundTrip(src[12..]);
      hide Dotted;
      NoColons(Dotted(src[12..]));
    } else {
      JoinSingle(words[run.base + run.len..]);
    }
  }

  /** The text has a double colon exactly where the run was, and nowhere else. */
  lemma DoubleColonOnce(src: seq<Byte>, run: Run, j: nat)
    requires |src| == 16 && (run.Zeros? ==> run.base + run.len <= 8)
    ensures MatchAt(Text(src, run), j, "::") <==> run.Zeros? && j == |Join(WordsOf(src)[..run.base])|
  {
    hide Join, RightText;
    var words := WordsOf(src);
    match run
    case NoRun =>
      JoinSingle(words);
      FindDouble(Join(words), "");
      FindIsFirst(Join(words), 0, "::", None);
      assert !MatchAt(Join(words), j, "::");
    case Zeros(base, len) =>
      var l, r := Join(words[..base]), RightText(src, run);
      JoinSingle(words[..base]);
      RightSingle(src, run);
      DoubleBetween(l, r, j);
  }

  lemma DoubleBetween(l: string, r: string, j: nat)
    requires SingleColons(l) && SingleColons(r) && (r != "" ==> r[0] != ':')
    ensures MatchAt(l + "::" + r, j, "::") <==> j == |l|
  {
    var s := l + "::" + r;
    assert s[|l|..|l| + 2] == "::";
    if j + 2 <= |s| && j != |l| {
      assert s[j..j + 2][0] == s[j] && s[j..j + 2][1] == s[j + 1];
      if j > |l| + 1 { assert s[j] == r[j - |l| - 2] && s[j + 1] == r[j - |l| - 1]; }
    }
  }

  // ----- which addresses end like an IPv4 address -----

  /** The first `n` bytes are zero. */
  predicate ZeroBytes(src: seq<Byte>, n: nat) {
    n <= |src| && forall i | 0 <= i < n :: src[i] == 0
  }

  /** Ten zero bytes and two of all ones: an IPv4-mapped address. */
  predicate Mapped(src: seq<Byte>)
    requires |src| == 16
  {
    ZeroBytes(src, 10) && src[10] == 255 && src[11] == 255
  }

  /** Twelve zero bytes and two that are not both zero: an IPv4-compatible address. */
  predicate Compatible(src: seq<Byte>)
    requires |src| == 16
  {
    ZeroBytes(src, 12) && (src[12] != 0 || src[13] != 0)
  }

  lemma ZeroWord(src: seq<Byte>, i: nat)
    requires |src| == 16 && i < 8
    ensures WordsOf(src)[i] == 0 <==> src[2 * i] == 0 && src[2 * i + 1] == 0
    ensures WordsOf(src)[i] == 0xffff <==> src[2 * i] == 255 && src[2 * i + 1] == 255
  {
  }

  lemma ZeroWords(src: seq<Byte>, n: nat, m: nat)
    requires |src| == 16 && n <= 8 && m == 2 * n
    ensures ZeroRun(WordsOf(src), 0, n) <==> ZeroBytes(src, m)
  {
    hide WordsOf;
    if ZeroRun(WordsOf(src), 0, n) {
      forall i | 0 <= i < m ensures src[i] == 0 {
        ZeroWord(src, i / 2);
        assert i == 2 * (i / 2) || i == 2 * (i / 2) + 1;
      }
    }
    if ZeroBytes(src, m) {
      forall i | 0 <= i < n ensures WordsOf(src)[i] == 0 { ZeroWord(src, i); }
    }
  }

  /** A leading run that another word ends is the best one when the rest is no longer. */
  lemma LeadingBest(words: seq<Word>, len: nat, run: Run)
    requires |words| == 8 && 5 <= len < 8 && ZeroRun(words, 0, len) && words[len] != 0
    ensures IsBest(words, run) <==> run == Zeros(0, len)
  {
    forall b: nat, l: nat | l > len ensures !ZeroRun(words, b, l) {
      assert !(b + l <= 8) || (b <= len < b + l && words[len] != 0);
    }
    assert IsBest(words, Zeros(0, len));
    if IsBest(words, run) { BestIsUnique(words, run, Zeros(0, len)); }
  }

  lemma BestRun(words: seq<Word>, run: Run)
    requires IsBest(words, run) && run.Zeros?
    ensures ZeroRun(words, run.base, run.len) && !ZeroRun(words, run.base, run.len + 1)
  {
  }

  lemma MappedIs(src: seq<Byte>)
    requires |src| == 16
    ensures Mapped(src) <==> ZeroRun(WordsOf(src), 0, 5) && WordsOf(src)[5] == 0xffff
  {
    hide WordsOf, WordAt, ZeroRun, ZeroBytes;
    ZeroWords(src, 5, 10);
    ZeroWord(src, 5);
  }

  lemma CompatibleIs(src: seq<Byte>)
    requires |src| == 16
    ensures Compatible(src) <==> ZeroRun(WordsOf(src), 0, 6) && WordsOf(src)[6] != 0
  {
    hide WordsOf, WordAt, ZeroRun, ZeroBytes;
    ZeroWords(src, 6, 12);
    ZeroWord(src, 6);
  }

  lemma EncapsulatedWords(words: seq<Word>, run: Run)
    requires |words| == 8 && IsBest(words, run)
    ensures ZeroRun(words, 0, 5) && words[5] == 0xffff <==> run == Zeros(0, 5) && Encapsulated(words, run)
    ensures ZeroRun(words, 0, 6) && words[6] != 0 <==> run == Zeros(0, 6) && Encapsulated(words, run)
    ensures Encapsulated(words, run) ==> run == Zeros(0, 5) || run == Zeros(0, 6)
  {
    hide IsBest, ZeroRun;
    if ZeroRun(words, 0, 5) && words[5] == 0xffff { LeadingBest(words, 5, run); }
    if ZeroRun(words, 0, 6) && words[6] != 0 { LeadingBest(words, 6, run); }
    if run == Zeros(0, 5) { BestRun(words, run); }
    if run == Zeros(0, 6) { BestRun(words, run); LongerRun(words, 6); }
  }

  lemma LongerRun(words: seq<Word>, n: nat)
    requires n < |words| && ZeroRun(words, 0, n)
    ensures ZeroRun(words, 0, n + 1) <==> words[n] == 0
  {
  }

  /** The run that makes the text end like an IPv4 address, told from the bytes. */
  lemma EncapsulatedIs(src: seq<Byte>, run: Run)
    requires |src| == 16 && IsBest(WordsOf(src), run)
    ensures Mapped(src) <==> run == Zeros(0, 5) && Encapsulated(WordsOf(src), run)
    ensures Compatible(src) <==> run == Zeros(0, 6) && Encapsulated(WordsOf(src), run)
    ensures Encapsulated(WordsOf(src), run) ==> Mapped(src) || Compatible(src)
  {
    hide *;
    EncapsulatedWords(WordsOf(src), run);
    MappedIs(src);
    CompatibleIs(src);
  }

  lemma {:induction false} NoDots(words: seq<Word>)
    ensures '.' !in Join(words)
  {
    hide HexText;
    if words != [] {
      HexRoundTrip(words[0]);
      NoDots(words[1..]);
    }
  }

  lemma FourDotted(q: seq<Byte>)
    requires |q| == 4
    ensures Dotted(q) == DecText(q[0]) + "." + DecText(q[1]) + "." + DecText(q[2]) + "." + DecText(q[3])
    ensures '.' in Dotted(q)
  {
    hide DecText;
    var a, b, c, d := DecText(q[0]), DecText(q[1]), DecText(q[2]), DecText(q[3]);
    DottedCons(q);
    DottedCons(q[1..]);
    DottedCons(q[2..]);
    hide Dotted;
    assert Dotted(q[1..][1..][1..]) == d by { LastDotted(q); }
    assert q[1..][1..] == q[2..] && q[2..][1..] == q[3..] && q[1..][1..][1..] == q[3..];
    assert Dotted(q) == a + "." + (b + "." + (c + "." + d));
  }

  lemma LastDotted(q: seq<Byte>)
    requires |q| == 4
    ensures Dotted(q[1..][1..][1..]) == DecText(q[3])
  {
  }

  lemma TextParts(src: seq<Byte>, run: Run)
    requires |src| == 16 && (run.Zeros? ==> run.base + run.len <= 8)
    ensures var words := WordsOf(src);
            Text(src, run) ==
            if run.NoRun? then Join(words)
            else if !Encapsulated(words, run) then Join(words[..run.base]) + "::" + Join(words[run.base + run.len..])
            else (if run.len == 5 then "::ffff:" else "::") + Dotted(src[12..])
  {
    hide WordsOf, Dotted;
    assert WordsOf(src)[..0] == [];
    var d := Dotted(src[12..]);
    assert "" + "::" + ("ffff:" + d) == "::ffff:" + d && "" + "::" + ("" + d) == "::" + d;
  }

  lemma BestInside(words: seq<Word>, run: Run)
    requires IsBest(words, run)
    ensures run.Zeros? ==> run.base + run.len <= |words|
  {
  }

  lemma DotsBetween(l: string, r: string)
    ensures '.' in l + "::" + r <==> '.' in l || '.' in r
    ensures '.' in r ==> '.' in "::ffff:" + r && '.' in "::" + r
  {
    assert '.' in r ==> exists i :: 0 <= i < |r| && r[i] == '.' && ("::ffff:" + r)[7 + i] == '.' && ("::" + r)[2 + i] == '.';
  }

  lemma DottedText(src: seq<Byte>, run: Run)
    requires |src| == 16 && IsBest(WordsOf(src), run)
    ensures run.Zeros? ==> run.base + run.len <= 8
    ensures Mapped(src) ==> Text(src, run) == "::ffff:" + Dotted(src[12..])
    ensures Compatible(src) ==> Text(src, run) == "::" + Dotted(src[12..])
    ensures !Mapped(src) && !Compatible(src) ==> !Encapsulated(WordsOf(src), run)
  {
    hide *;
    BestInside(WordsOf(src), run);
    EncapsulatedIs(src, run);
    TextParts(src, run);
  }

  lemma NoDotsIn(src: seq<Byte>, run: Run)
    requires |src| == 16 && (run.Zeros? ==> run.base + run.len <= 8) && !Encapsulated(WordsOf(src), run)
    ensures '.' !in Text(src, run)
  {
    hide *;
    var words := WordsOf(src);
    TextParts(src, run);
    NoDots(words);
    if run.Zeros? {
      var l, r := words[..run.base], words[run.base + run.len..];
      NoDots(l);
      NoDots(r);
      DotsBetween(Join(l), Join(r));
    }
  }

  lemma QuadIs(src: seq<Byte>)
    requires |src| == 16
    ensures Dotted(src[12..]) == Numeral(src[12], Dec) + "." + Numeral(src[13], Dec) + "."
                                 + Numeral(src[14], Dec) + "." + Numeral(src[15], Dec)
    ensures '.' in "::ffff:" + Dotted(src[12..]) && '.' in "::" + Dotted(src[12..])
  {
    FourDotted(src[12..]);
    hide Numeral, Dotted;
    DotsBetween("", Dotted(src[12..]));
  }

  /** The text of exactly these addresses ends in four decimal numbers with dots between them. */
  lemma DottedTail(src: seq<Byte>, run: Run)
    requires |src| == 16 && IsBest(WordsOf(src), run)
    ensures run.Zeros? ==> run.base + run.len <= 8
    ensures var quad := Numeral(src[12], Dec) + "." + Numeral(src[13], Dec) + "."
                        + Numeral(src[14], Dec) + "." + Numeral(src[15], Dec);
            && (Mapped(src) ==> Text(src, run) == "::ffff:" + quad)
            && (Compatible(src) ==> Text(src, run) == "::" + quad)
            && ('.' in Text(src, run) <==> Mapped(src) || Compatible(src))
  {
    hide *;
    DottedText(src, run);
    QuadIs(src);
    if !Mapped(src) && !Compatible(src) { NoDotsIn(src, run); }
  }

  // ----- an address and its text -----

  /** The first word is the one of the first two bytes, and the first of these counts 256 times. */
  lemma WordsOfBytes(src: seq<Byte>, words: seq<Word>)
    requires |src| == 16 && |words| == 8
    requires forall i | 0 <= i < 8 :: words[i] == (src[2 * i] as int) * 256 + src[2 * i + 1]
    ensures WordsOf(src) == words
  {
  }

  lemma SomeGroups()
    ensures HexText(0x2001) == "2001" && HexText(0xdb8) == "db8" && HexText(0) == "0" && HexText(1) == "1"
  {
    assert Numeral(0x200, Hex) == "200" && Numeral(0x20, Hex) == "20" && Numeral(2, Hex) == "2";
    assert Numeral(0xdb, Hex) == "db" && Numeral(0xd, Hex) == "d";
  }

  lemma MissesOne(words: seq<Word>, b: nat, l: nat, k: nat)
    requires ZeroRun(words, b, l) && k < |words| && words[k] != 0
    ensures k < b || b + l <= k
  {
  }

  lemma LongerRunBest(words: seq<Word>)
    requires |words| == 8 && words[1] != 0 && words[3] != 0 && words[4] == words[5] == words[6] == 0 && words[7] != 0
    ensures IsBest(words, Zeros(4, 3))
  {
    forall b: nat, l: nat | ZeroRun(words, b, l) ensures l < 3 || (l == 3 && 4 <= b) {
      MissesOne(words, b, l, 1);
      MissesOne(words, b, l, 3);
      MissesOne(words, b, l, 7);
    }
  }

  lemma JoinFour(words: seq<Word>)
    requires |words| == 4
    ensures Join(words) == HexText(words[0]) + ":" + HexText(words[1]) + ":" + HexText(words[2]) + ":" + HexText(words[3])
  {
    hide HexText;
    var b, c, d := words[1..], words[1..][1..], words[1..][1..][1..];
    assert Join(d) == HexText(words[3]);
    assert Join(c) == HexText(words[2]) + ":" + Join(d);
    assert Join(b) == HexText(words[1]) + ":" + Join(c);
  }

  lemma DocumentationText(src: seq<Byte>, words: seq<Word>)
    requires |src| == 16 && WordsOf(src) == words == [0x2001, 0xdb8, 0, 1, 0, 0, 0, 1]
    ensures Text(src, Zeros(4, 3)) == "2001" + ":" + "db8" + ":" + "0" + ":" + "1" + "::" + "1"
  {
    SomeGroups();
    assert Join(words[7..]) == HexText(1);
    assert !Encapsulated(words, Zeros(4, 3));
    hide *;
    JoinFour(words[..4]);
    TextParts(src, Zeros(4, 3));
  }

  lemma DocumentationJoined()
    ensures "2001" + ":" + "db8" + ":" + "0" + ":" + "1" + "::" + "1" == "2001:db8:0:1::1"
  {
  }

  /** The address 2001:db8:0:1::1. */
  function Documentation(): seq<Byte> {
    [0x20, 0x01, 0x0d, 0xb8, 0, 0, 0, 1, 0, 0, 0, 0, 0, 0, 0, 1]
  }

  lemma DocumentationWords()
    ensures |Documentation()| == 16 && WordsOf(Documentation()) == [0x2001, 0xdb8, 0, 1, 0, 0, 0, 1]
  {
    var words: seq<Word> := [0x2001, 0xdb8, 0, 1, 0, 0, 0, 1];
    WordsOfBytes(Documentation(), words);
  }

  /** Of two runs the longer one is left out; the groups are in small hexadecimal digits. */
  lemma DocumentationAddress(run: Run)
    ensures IsBest(WordsOf(Documentation()), run) ==>
              run == Zeros(4, 3) && Text(Documentation(), run) == "2001:db8:0:1::1"
  {
    hide *;
    var words: seq<Word> := [0x2001, 0xdb8, 0, 1, 0, 0, 0, 1];
    DocumentationWords();
    if IsBest(words, run) {
      LongerRunBest(words);
      BestIsUnique(words, run, Zeros(4, 3));
      DocumentationText(Documentation(), words);
      DocumentationJoined();
    }
  }
}

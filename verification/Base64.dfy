/** The Base64 decoder used for AKA nonces (section 4 of RFC 4648). */
module Base64 {
  import opened Basics

  /** The 64 characters of the alphabet, by their value. */
  function Letter(k: nat): char
    requires k < 64
  {
    if k < 26 then (k + 'A' as int) as char
    else if k < 52 then (k - 26 + 'a' as int) as char
    else if k < 62 then (k - 52 + '0' as int) as char
    else if k == 62 then '+' else '/'
  }

  /** `base64_val`: -1 for the padding, 0 for characters outside the alphabet. */
  function Value(c: char): int {
    if c == '=' then -1
    else if 'A' <= c <= 'Z' then c as int - 'A' as int
    else if 'a' <= c <= 'z' then c as int - 'a' as int + 26
    else if '0' <= c <= '9' then c as int - '0' as int + 52
    else if c == '+' then 62
    else if c == '/' then 63
    else 0
  }

  lemma LetterValue(k: nat)
    requires k < 64
    ensures Value(Letter(k)) == k
  {
  }

  const ALPHABET: string := "ABCDEFGHIJKLMNOPQRSTUVWXYZ" + "abcdefghijklmnopqrstuvwxyz" + "0123456789" + "+/"

  lemma UpperRange()
    ensures forall i | 0 <= i < 26 :: "ABCDEFGHIJKLMNOPQRSTUVWXYZ"[i] as int == 65 + i
  {
  }

  lemma LowerRange()
    ensures forall i | 0 <= i < 26 :: "abcdefghijklmnopqrstuvwxyz"[i] as int == 97 + i
    ensures forall i | 0 <= i < 10 :: "0123456789"[i] as int == 48 + i
  {
  }

  /** The letters are those of section 4. */
  lemma AlphabetIs(k: nat)
    requires k < 64
    ensures |ALPHABET| == 64 && Letter(k) == ALPHABET[k]
  {
    UpperRange();
    LowerRange();
  }

  /** The padding is told from all other characters outside the alphabet, which count for zeros. */
  lemma OutsideAlphabet(c: char)
    requires c !in ALPHABET
    ensures Value(c) == if c == '=' then -1 else 0
  {
    if Value(c) > 0 || c == 'A' {
      var k := Value(c);
      assert c == Letter(k);
      AlphabetIs(k);
    }
  }

  // ----- four characters and three bytes -----

  // The shifts and masks of the C code, on ints that end up in 8-bit characters, as arithmetic: division
  // and remainder round down, which is what they do with the bits of -1 too.

  function Byte1(x1: int, x2: int): Byte {
    (x1 * 4 + x2 / 16 % 4) % 256
  }

  function Byte2(x2: int, x3: int): Byte {
    x2 % 16 * 16 + x3 / 4 % 16
  }

  function Byte3(x3: int, x4: int): Byte {
    x3 % 4 * 64 + x4 % 64
  }

  /** The standard encoding. */
  function Encode(bytes: seq<Byte>): string {
    if bytes == [] then ""
    else if |bytes| == 1 then Quad(bytes[0], 0, 0)[..2] + "=="
    else if |bytes| == 2 then Quad(bytes[0], bytes[1], 0)[..3] + "="
    else Quad(bytes[0], bytes[1], bytes[2]) + Encode(bytes[3..])
  }

  /** The value at a place of the last quad; what lies behind the end is padding. */
  function At(s: string, i: nat): int {
    if i < |s| then Value(s[i]) else -1
  }

  function DecodeLast(s: string): seq<Byte> {
    var x1 := if s == "" then 0 else Value(s[0]);
    if At(s, 1) == -1 then []
    else if At(s, 2) == -1 then [Byte1(x1, At(s, 1))]
    else if At(s, 3) == -1 then [Byte1(x1, At(s, 1)), Byte2(At(s, 1), At(s, 2))]
    else [Byte1(x1, At(s, 1)), Byte2(At(s, 1), At(s, 2)), Byte3(At(s, 2), At(s, 3))]
  }

  function DecodeQuad(s: string, i: nat): seq<Byte>
    requires i + 4 <= |s|
  {
    [Byte1(Value(s[i]), Value(s[i + 1])), Byte2(Value(s[i + 1]), Value(s[i + 2])), Byte3(Value(s[i + 2]), Value(s[i + 3]))]
  }

  /** The bytes decoded from place `i` on: full quads as long as more than one is left. */
  function Decode(s: string, i: nat): seq<Byte>
    requires i <= |s|
    decreases |s| - i
  {
    if i + 4 < |s| then DecodeQuad(s, i) + Decode(s, i + 4) else DecodeLast(s[i..])
  }

  /** The six-bit values of three bytes. */
  function Sextets(b1: Byte, b2: Byte, b3: Byte): (nat, nat, nat, nat) {
    (b1 / 4, b1 % 4 * 16 + b2 / 16, b2 % 16 * 4 + b3 / 64, b3 % 64)
  }

  lemma BytesOfSextets(b1: Byte, b2: Byte, b3: Byte)
    ensures var (k1, k2, k3, k4) := Sextets(b1, b2, b3);
            && k1 < 64 && k2 < 64 && k3 < 64 && k4 < 64
            && Byte1(k1, k2) == b1 && Byte2(k2, k3) == b2 && Byte3(k3, k4) == b3
  {
    var k2, k3 := b1 % 4 * 16 + b2 / 16, b2 % 16 * 4 + b3 / 64;
    assert k2 / 16 == b1 % 4 && k2 % 16 == b2 / 16;
    assert k3 / 4 == b2 % 16 && k3 % 4 == b3 / 64;
  }

  function Quad(b1: Byte, b2: Byte, b3: Byte): (q: string)
    ensures |q| == 4
  {
    BytesOfSextets(b1, b2, b3);
    var (k1, k2, k3, k4) := Sextets(b1, b2, b3);
    [Letter(k1), Letter(k2), Letter(k3), Letter(k4)]
  }

  lemma QuadDecodes(b1: Byte, b2: Byte, b3: Byte)
    ensures DecodeQuad(Quad(b1, b2, b3), 0) == DecodeLast(Quad(b1, b2, b3)) == [b1, b2, b3]
    ensures b3 == 0 ==> DecodeLast(Quad(b1, b2, b3)[..3] + "=") == [b1, b2]
    ensures b3 == 0 && b2 == 0 ==> DecodeLast(Quad(b1, b2, b3)[..2] + "==") == [b1]
  {
    BytesOfSextets(b1, b2, b3);
    assert Value('=') == -1;
    var (k1, k2, k3, k4) := Sextets(b1, b2, b3);
    hide Byte1, Byte2, Byte3, Sextets, Letter, Value;
    LetterValue(k1);
    LetterValue(k2);
    LetterValue(k3);
    LetterValue(k4);
  }

  lemma QuadShift(q: string, s: string, i: nat)
    requires i + 4 <= |s|
    ensures DecodeQuad(q + s, |q| + i) == DecodeQuad(s, i)
  {
    hide Byte1, Byte2, Byte3, Value;
  }

  lemma {:induction false} DecodeShift(q: string, s: string, i: nat)
    requires i <= |s|
    ensures Decode(q + s, |q| + i) == Decode(s, i)
    decreases |s| - i
  {
    hide DecodeQuad, DecodeLast;
    if i + 4 < |s| {
      QuadShift(q, s, i);
      DecodeShift(q, s, i + 4);
    } else {
      assert (q + s)[|q| + i..] == s[i..];
    }
  }

  lemma {:induction false} EncodeLength(bytes: seq<Byte>)
    ensures |Encode(bytes)| == (|bytes| + 2) / 3 * 4
    decreases |bytes|
  {
    hide Quad;
    if |bytes| >= 3 { EncodeLength(bytes[3..]); }
  }

  lemma EncodeIs(bytes: seq<Byte>)
    requires |bytes| >= 3
    ensures Encode(bytes) == Quad(bytes[0], bytes[1], bytes[2]) + Encode(bytes[3..])
    ensures Encode(bytes[3..]) == "" ==> |bytes| == 3
  {
    EncodeLength(bytes[3..]);
    hide Quad;
  }

  /** Up to two bytes make one quad with padding. */
  lemma ShortRoundTrip(bytes: seq<Byte>)
    requires |bytes| < 3
    ensures Decode(Encode(bytes), 0) == bytes
  {
    if |bytes| == 1 { QuadDecodes(bytes[0], 0, 0); }
    if |bytes| == 2 { QuadDecodes(bytes[0], bytes[1], 0); }
    if bytes == [] { NothingDecodes(); }
    hide Quad, DecodeQuad, DecodeLast;
    assert Encode(bytes)[0..] == Encode(bytes);
  }

  /** Decoding the encoding of any bytes gives them back. */
  lemma {:induction false} RoundTrip(bytes: seq<Byte>)
    ensures Decode(Encode(bytes), 0) == bytes
    ensures |Encode(bytes)| == (|bytes| + 2) / 3 * 4
    decreases |bytes|
  {
    hide *;
    EncodeLength(bytes);
    if |bytes| < 3 {
      ShortRoundTrip(bytes);
    } else {
      EncodeIs(bytes);
      RoundTrip(bytes[3..]);
      QuadDecodes(bytes[0], bytes[1], bytes[2]);
      assert bytes[..3] == [bytes[0], bytes[1], bytes[2]];
      FirstThree(bytes, Quad(bytes[0], bytes[1], bytes[2]), Encode(bytes[3..]));
    }
  }

  lemma ManLetters()
    ensures Letter(19) == 'T' && Letter(22) == 'W' && Letter(5) == 'F' && Letter(46) == 'u' && Letter(4) == 'E' && Letter(16) == 'Q'
  {
  }

  /** The word "Man" and its beginnings, which are padded. */
  lemma ManEncoded()
    ensures Encode([77, 97, 110]) == "TWFu" && Encode([77, 97]) == "TWE=" && Encode([77]) == "TQ=="
  {
    assert Sextets(77, 97, 110) == (19, 22, 5, 46) && Sextets(77, 97, 0) == (19, 22, 4, 0) && Sextets(77, 0, 0) == (19, 16, 0, 0);
    ManLetters();
    hide Letter, Sextets;
    assert Encode([]) == "" && "TWFu" + "" == "TWFu";
  }

  lemma ManValues()
    ensures Value('T') == 19 && Value('W') == 22 && Value('E') == 4 && Value('Q') == 16 && Value('=') == -1
    ensures Byte1(19, 22) == 77 && Byte2(22, 4) == 97 && Byte1(19, 16) == 77
    ensures Byte1(-1, -1) == Byte2(-1, -1) == Byte3(-1, -1) == 255
  {
  }

  /** Without their padding these are read alike; padding that is not at the end stands for ones. */
  lemma ManDecoded()
    ensures DecodeLast("TWE") == [77, 97] && DecodeLast("TQ") == [77] && DecodeLast("T") == []
    ensures DecodeQuad("====", 0) == [255, 255, 255]
  {
    ManValues();
    hide Value, Byte1, Byte2, Byte3;
  }

  lemma NothingDecodes()
    ensures Decode("", 0) == []
  {
  }

  lemma FirstThree(bytes: seq<Byte>, q: string, t: string)
    requires |bytes| >= 3 && |q| == 4 && (t == "" ==> |bytes| == 3) && Decode(t, 0) == bytes[3..]
    requires DecodeQuad(q, 0) == DecodeLast(q) == bytes[..3]
    ensures Decode(q + t, 0) == bytes
  {
    hide *;
    QuadFirst(q, t);
    assert bytes == bytes[..3] + bytes[3..];
  }

  /** A quad in front of other text is decoded on its own. */
  lemma QuadFirst(q: string, t: string)
    requires |q| == 4
    ensures t != "" ==> Decode(q + t, 0) == DecodeQuad(q, 0) + Decode(t, 0)
    ensures t == "" ==> Decode(q + t, 0) == DecodeLast(q)
  {
    if t != "" {
      DecodeShift(q, t, 0);
      SameQuad(q, q + t, 0);
    } else {
      assert (q + t)[0..] == q;
    }
  }

  /** One full quad, three bytes on. */
  method PutQuad(buf: array<char>, i: nat, out: array<Byte>, j: nat)
    requires i + 4 <= buf.Length && j + 3 <= out.Length && buf as object != out as object
    modifies out
    ensures out[..j + 3] == old(out[..j]) + DecodeQuad(buf[..], i)
  {
    var x1, x2, x3, x4 := Value(buf[i]), Value(buf[i + 1]), Value(buf[i + 2]), Value(buf[i + 3]);
    hide Byte1, Byte2, Byte3, Value;
    out[j] := Byte1(x1, x2);
    out[j + 1] := Byte2(x2, x3);
    out[j + 2] := Byte3(x3, x4);
  }

  lemma SameQuad(s: string, t: string, i: nat)
    requires i + 4 <= |s| && s <= t
    ensures DecodeQuad(s, i) == DecodeQuad(t, i)
  {
  }

  /** The last quad, of which there may be less than four characters, and padding. */
  method PutLast(buf: array<char>, i: nat, len: nat, out: array<Byte>, j: nat) returns (end: nat)
    requires i <= len < buf.Length && j + 3 <= out.Length && buf as object != out as object
    requires i == len ==> len == 0
    modifies out
    ensures end <= j + 3 && out[..end] == old(out[..j]) + DecodeLast(buf[i..len])
  {
    ghost var last := buf[i..len];
    var x1 := Value(buf[i]);
    var x2 := if i + 1 < len then Value(buf[i + 1]) else -1;
    var x3 := if i + 2 < len then Value(buf[i + 2]) else -1;
    var x4 := if i + 3 < len then Value(buf[i + 3]) else -1;
    hide Value, Byte1, Byte2, Byte3;
    assert x2 == At(last, 1) && x3 == At(last, 2) && x4 == At(last, 3);
    end := j;
    if x2 != -1 {
      out[end] := Byte1(x1, x2);
      end := end + 1;
      if x3 != -1 {
        out[end] := Byte2(x2, x3);
        end := end + 1;
        if x4 != -1 {
          out[end] := Byte3(x3, x4);
          end := end + 1;
        }
      }
    }
  }

  /** `base64_decode_string`. The text is the first `len` characters of `buf`, behind which there is one
      more, its NUL. */
  method DecodeString(buf: array<char>, len: nat) returns (out: array<Byte>, newlen: nat)
    requires buf.Length > len
    ensures fresh(out) && out.Length == len * 3 / 4 + 8
    ensures newlen < out.Length && out[newlen] == 0 && out[..newlen] == Decode(buf[..len], 0)
  {
    hide DecodeQuad, DecodeLast;
    ghost var s := buf[..len];
    out := new Byte[len * 3 / 4 + 8];
    var i: nat, j: nat := 0, 0;
    assert [] + Decode(s, 0) == Decode(s, 0);
    while i + 4 < len
      invariant (i < len || i == len == 0) && i % 4 == 0 && j == i / 4 * 3
      invariant buf[..len] == s
      invariant Decode(s, 0) == out[..j] + Decode(s, i)
    {
      ghost var before := out[..j];
      PutQuad(buf, i, out, j);
      SameQuad(s, buf[..], i);
      assert before + (DecodeQuad(s, i) + Decode(s, i + 4)) == before + DecodeQuad(s, i) + Decode(s, i + 4);
      i, j := i + 4, j + 3;
    }
    assert s[i..] == buf[i..len];
    j := PutLast(buf, i, len, out, j);
    out[j] := 0;
    newlen := j;
  }
}

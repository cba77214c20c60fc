/** SIP messages as RFC 3261 section 7 structures them, and what the framing code sees of their text. */
module SipMessage {
  import opened Basics
  import opened CText
  import opened Framing

  /** A header field: its name, the blanks before the colon, everything behind the colon. */
  datatype Field = Field(name: string, gap: string, value: string)

  datatype Message = Message(start: string, fields: seq<Field>, body: string)

  function Line(f: Field): string {
    f.name + f.gap + ":" + f.value
  }

  function Lines(fields: seq<Field>): (r: seq<string>)
    ensures |r| == |fields|
  {
    seq(|fields|, i requires 0 <= i < |fields| => Line(fields[i]))
  }

  /** Each line with the CRLF before it. */
  function LinesText(lines: seq<string>): string {
    if lines == [] then "" else CRLF + lines[0] + LinesText(lines[1..])
  }

  function HeadText(m: Message): string {
    m.start + LinesText(Lines(m.fields))
  }

  function Text(m: Message): string {
    HeadText(m) + BLANK_LINE + m.body
  }

  // ----- well-formedness -----

  predicate IsBlank(c: char) {
    c == ' ' || c == '\t'
  }

  /** A carriage return only begins a fold: CRLF and a blank (line folding, section 7.3.1 of RFC 3261). */
  predicate Folded(s: string) {
    forall i | 0 <= i < |s| && s[i] == '\r' :: i + 2 < |s| && s[i + 1] == '\n' && IsBlank(s[i + 2])
  }

  predicate IsName(s: string) {
    s != "" && forall c | c in s :: c != ':' && c != '\r' && c != '\0' && !IsBlank(c)
  }

  predicate WellFormedField(f: Field) {
    && IsName(f.name)
    && (forall c | c in f.gap :: IsBlank(c))
    && '\0' !in f.value
    && Folded(f.value)
  }

  /** The field carries the body length, under its full or its compact name (section 20.14 of RFC 3261). */
  predicate IsLengthField(f: Field) {
    LowerAll(f.name) == "content-length" || LowerAll(f.name) == "l"
  }

  /** The value is `n` in decimal, white space around it. */
  predicate ValueIs(value: string, n: nat) {
    exists i: nat, j: nat | i < j <= |value| ::
      AllSpace(value[..i]) && AllDigits(value[i..j]) && AllSpace(value[j..]) && DecimalValue(value[i..j], 0) == n
  }

  predicate ProperStart(s: string) {
    s != "" && s[0] != '\r' && '\0' !in s && Folded(s)
  }

  /** A message with exactly one Content-Length field, number `c`, that gives the length of its body. */
  predicate WellFormed(m: Message, c: nat) {
    && ProperStart(m.start)
    && (forall f | f in m.fields :: WellFormedField(f))
    && c < |m.fields|
    && (forall i | 0 <= i < |m.fields| :: IsLengthField(m.fields[i]) <==> i == c)
    && ValueIs(m.fields[c].value, |m.body|)
    && |m.body| <= INT_MAX
  }

  /** The label search knows a colon or a space behind the name, but not a tab. */
  predicate Recognized(f: Field) {
    f.gap == "" || f.gap[0] == ' '
  }

  /** The length that is read when the search begins at the start line. */
  function ReadLength(m: Message, c: nat): nat
    requires c < |m.fields|
  {
    if Recognized(m.fields[c]) then |m.body| else 0
  }

  /** The number of the first label that the line starts with; one that does not exist, if none. */
  function LabelOf(line: string, labels: seq<string>): (r: nat)
    ensures r <= |labels|
  {
    if labels == [] || MatchAtNoCase(line, 0, labels[0]) then 0 else 1 + LabelOf(line, labels[1..])
  }

  /** With a CRLF before it, the start line is taken for the length header: it starts with a label that
      the search tries no later than the one of the length field. */
  predicate StartWins(m: Message, c: nat)
    requires c < |m.fields|
  {
    LabelOf(m.start, LABELS) < |LABELS| && LabelOf(m.start, LABELS) <= LabelOf(Line(m.fields[c]), LABELS)
  }

  /** The start line is taken for the length header, and the number read behind it is another. */
  predicate Misleading(m: Message, c: nat)
    requires c < |m.fields|
  {
    StartWins(m, c) && LengthBehindColon(HeadText(m)) != Known(ReadLength(m, c))
  }

  // ----- where the searches find what they look for -----

  predicate ProperLine(line: string) {
    line != "" && line[0] != '\r' && Folded(line)
  }

  predicate ProperLabel(tag: string) {
    tag != "" && !IsBlank(Lower(tag[0])) && forall c | c in tag :: Lower(c) != '\r'
  }

  lemma {:induction false} LinesTextConcat(a: seq<string>, b: seq<string>)
    ensures LinesText(a + b) == LinesText(a) + LinesText(b)
    decreases |a|
  {
    if a == [] {
      assert a + b == b;
    } else {
      assert (a + b)[1..] == a[1..] + b;
      LinesTextConcat(a[1..], b);
      assert CRLF + a[0] + (LinesText(a[1..]) + LinesText(b)) == LinesText(a) + LinesText(b);
    }
  }

  lemma MatchNoCaseBehind(p: string, s: string, j: nat, pat: string)
    ensures MatchAtNoCase(p + s, |p| + j, pat) == MatchAtNoCase(s, j, pat)
  {
    if j + |pat| <= |s| {
      assert (p + s)[|p| + j..] == s[j..];
      assert forall k | 0 <= k < |pat| :: s[j + k] == s[j..][k] && (p + s)[|p| + j + k] == (p + s)[|p| + j..][k];
    }
  }

  lemma MatchChar(s: string, j: nat, pat: string, k: nat)
    requires k < |pat|
    ensures MatchAtNoCase(s, j, pat) ==> j + |pat| <= |s| && Lower(s[j + k]) == Lower(pat[k])
  {
  }

  lemma FindNoCaseBehind(p: string, s: string, pat: string)
    requires forall j: nat | j < |p| :: !MatchAtNoCase(p + s, j, pat)
    ensures FindNoCase(p + s, pat) == match FindNoCase(s, pat) case None => None case Some(e) => Some(|p| + e)
  {
    var r := FindNoCase(s, pat);
    FindNoCaseIsFirst(s, 0, pat, r);
    var r' := if r.None? then None else Some(|p| + r.value);
    forall j: nat ensures j >= |p| ==> MatchAtNoCase(p + s, j, pat) == MatchAtNoCase(s, j - |p|, pat) {
      if j >= |p| { MatchNoCaseBehind(p, s, j - |p|, pat); }
    }
    FindNoCaseIsFirst(p + s, 0, pat, r');
  }

  /** A label behind a CRLF cannot stand inside a line. */
  lemma NoLabelInside(line: string, t: string, tag: string)
    requires Folded(line) && ProperLabel(tag)
    ensures forall j: nat | j < |line| :: !MatchAtNoCase(line + t, j, CRLF + tag)
  {
    forall j: nat | j < |line| ensures !MatchAtNoCase(line + t, j, CRLF + tag) {
      MatchChar(line + t, j, CRLF + tag, 0);
      MatchChar(line + t, j, CRLF + tag, 2);
      assert (CRLF + tag)[2] == tag[0];
      assert (line + t)[j] == line[j];
    }
  }

  /** Whether a label stands at a line end is decided by the next line alone. */
  lemma LabelAtLineEnd(line: string, next: string, t: string, tag: string)
    requires ProperLabel(tag) && (t == "" || t[0] == '\r')
    ensures MatchAtNoCase(line + (CRLF + next + t), |line|, CRLF + tag) == MatchAtNoCase(next, 0, tag)
    ensures !MatchAtNoCase(line + (CRLF + next + t), |line| + 1, CRLF + tag)
  {
    var s := line + (CRLF + next + t);
    var pat := CRLF + tag;
    var n := |line|;
    assert s[n + 1] == '\n';
    MatchChar(s, n + 1, pat, 0);
    forall k: nat | k < |tag| ensures
        MatchAtNoCase(s, n, pat) ==> k < |next| + |t| && Lower((next + t)[k]) == Lower(tag[k]) && Lower(tag[k]) != '\r'
    {
      MatchChar(s, n, pat, k + 2);
      assert pat[k + 2] == tag[k] && tag[k] in tag;
      assert s == line + CRLF + (next + t);
      assert n + k + 2 < |s| ==> s[n + (k + 2)] == (next + t)[k];
    }
    assert t != "" ==> (next + t)[|next|] == t[0];
    assert |next| < |tag| ==> !MatchAtNoCase(s, n, pat);
    if MatchAtNoCase(s, n, pat) {
      assert forall k | 0 <= k < |tag| :: (next + t)[k] == next[0 + k];
    }
    if MatchAtNoCase(next, 0, tag) {
      forall k | 0 <= k < |pat| ensures Lower(s[n + k]) == Lower(pat[k]) {
        if k >= 2 { assert s[n + k] == next[0 + (k - 2)] && pat[k] == tag[k - 2]; }
      }
    }
  }

  /** The end of the line, `n` characters before the first of `lines`, that a labelled line follows. */
  function TagPos(n: nat, lines: seq<string>, tag: string): Option<nat>
    decreases |lines|
  {
    if lines == [] then None
    else if MatchAtNoCase(lines[0], 0, tag) then Some(n)
    else TagPos(n + 2 + |lines[0]|, lines[1..], tag)
  }

  lemma {:induction false} TagPosShift(n: nat, d: nat, lines: seq<string>, tag: string)
    ensures TagPos(d + n, lines, tag) ==
            match TagPos(n, lines, tag) case None => None case Some(k) => Some(d + k)
    decreases |lines|
  {
    if lines != [] && !MatchAtNoCase(lines[0], 0, tag) {
      TagPosShift(n + 2 + |lines[0]|, d, lines[1..], tag);
    }
  }

  lemma {:induction false} TagPosIs(n: nat, lines: seq<string>, tag: string, c: nat)
    requires c <= |lines| && forall i | 0 <= i < c :: !MatchAtNoCase(lines[i], 0, tag)
    requires c < |lines| ==> MatchAtNoCase(lines[c], 0, tag)
    ensures TagPos(n, lines, tag) == if c == |lines| then None else Some(n + |LinesText(lines[..c])|)
    decreases |lines|
  {
    if c > 0 {
      TagPosIs(n + 2 + |lines[0]|, lines[1..], tag, c - 1);
      assert lines[..c][1..] == lines[1..][..c - 1];
    }
  }

  /** The label search on a header section, line by line. */
  lemma {:induction false} FindTag(line: string, lines: seq<string>, tag: string)
    requires Folded(line) && ProperLabel(tag) && forall l | l in lines :: ProperLine(l)
    ensures FindNoCase(line + LinesText(lines), CRLF + tag) == TagPos(|line|, lines, tag)
    decreases |lines|
  {
    var pat := CRLF + tag;
    var n := |line|;
    var s := line + LinesText(lines);
    NoLabelInside(line, LinesText(lines), tag);
    if lines == [] {
      FindNoCaseIsFirst(s, 0, pat, None);
    } else {
      var next, t := lines[0], LinesText(lines[1..]);
      assert next in lines;
      LabelAtLineEnd(line, next, t, tag);
      if MatchAtNoCase(next, 0, tag) {
        FindNoCaseIsFirst(s, 0, pat, Some(n));
      } else {
        var p := line + CRLF;
        assert s == p + (next + t);
        FindNoCaseBehind(p, next + t, pat);
        FindTag(next, lines[1..], tag);
        TagPosShift(|next|, n + 2, lines[1..], tag);
      }
    }
  }

  lemma NoBlankInLine(line: string, t: string)
    requires Folded(line)
    ensures forall j: nat | j < |line| :: !MatchAt(line + t, j, BLANK_LINE)
  {
    var s := line + t;
    forall j: nat | j < |line| ensures !MatchAt(s, j, BLANK_LINE) {
      assert j + 4 <= |s| ==> s[j..j + 4][0] == line[j] && s[j..j + 4][2] == s[j + 2];
    }
  }

  lemma NoBlankAtEnd(line: string, t: string)
    requires t != "" && t[0] != '\r'
    ensures forall j: nat | |line| <= j < |line + CRLF| :: !MatchAt(line + CRLF + t, j, BLANK_LINE)
  {
    var s, n := line + CRLF + t, |line|;
    assert s[n + 1] == '\n' && s[n + 2] == t[0];
    assert n + 4 <= |s| ==> s[n..n + 4][2] == s[n + 2];
    assert n + 5 <= |s| ==> s[n + 1..n + 5][0] == s[n + 1];
  }

  /** The blank line found in a message is the one behind its header section. */
  lemma {:induction false} FindBlankLine(line: string, lines: seq<string>, body: string)
    requires Folded(line) && forall l | l in lines :: ProperLine(l)
    ensures Find(line + LinesText(lines) + BLANK_LINE + body, BLANK_LINE) == Some(|line + LinesText(lines)|)
    decreases |lines|
  {
    var t := LinesText(lines) + BLANK_LINE + body;
    assert line + LinesText(lines) + BLANK_LINE + body == line + t;
    NoBlankInLine(line, t);
    if lines == [] {
      assert (line + t)[|line|..|line| + 4] == BLANK_LINE;
      FindIsFirst(line + t, 0, BLANK_LINE, Some(|line|));
    } else {
      hide Find, MatchAt;
      var next := lines[0];
      assert next in lines;
      var rest := next + LinesText(lines[1..]) + BLANK_LINE + body;
      assert line + t == line + CRLF + rest;
      assert rest[0] == next[0];
      NoBlankAtEnd(line, rest);
      FindBehind(line + CRLF, rest, BLANK_LINE);
      FindBlankLine(next, lines[1..], body);
    }
  }

  /** A field line starts with a label exactly when it has the name in it and the character after it. */
  lemma LineStarts(f: Field, name: string, end: char)
    requires WellFormedField(f) && (end == ':' || end == ' ')
    requires LowerAll(name) == name && forall c | c in name :: c != ':' && !IsBlank(c)
    ensures MatchAtNoCase(Line(f), 0, name + [end]) <==> LowerAll(f.name) == name && (f.gap + ":")[0] == end
  {
    var line, tag := Line(f), name + [end];
    var n, k := |name|, |f.name|;
    assert line == f.name + ((f.gap + ":") + f.value);
    assert line[k] == (f.gap + ":")[0];
    assert k > 0 && f.gap != "" ==> f.gap[0] in f.gap;
    assert forall i | 0 <= i < k :: line[i] == f.name[i] && f.name[i] in f.name;
    assert forall i | 0 <= i < n :: tag[i] == name[i] && name[i] in name && Lower(name[i]) == name[i];
    assert tag[n] == end;
    if LowerAll(f.name) == name && (f.gap + ":")[0] == end {
      assert forall i | 0 <= i < k :: LowerAll(f.name)[i] == Lower(f.name[i]);
    }
    if k < n { MatchChar(line, 0, tag, k); }
    if n < k { MatchChar(line, 0, tag, n); }
    if n == k {
      MatchChar(line, 0, tag, n);
      forall i | 0 <= i < n ensures MatchAtNoCase(line, 0, tag) ==> LowerAll(f.name)[i] == name[i] {
        MatchChar(line, 0, tag, i);
      }
    }
  }

  /** Only line `c` carries a label: the search in the order of the labels finds that line, if any. */
  lemma {:induction false} FirstLabelIs(line: string, lines: seq<string>, labels: seq<string>, c: nat)
    requires Folded(line) && forall l | l in lines :: ProperLine(l)
    requires forall l | l in labels :: ProperLabel(l)
    requires c < |lines| && forall i, l | 0 <= i < |lines| && l in labels && i != c :: !MatchAtNoCase(lines[i], 0, l)
    ensures FirstLabel(line + LinesText(lines), labels) ==
            if exists l :: l in labels && MatchAtNoCase(lines[c], 0, l) then Some(|line + LinesText(lines[..c])|) else None
    decreases |labels|
  {
    if labels != [] {
      var tag := labels[0];
      assert tag in labels;
      FindTag(line, lines, tag);
      TagPosIs(|line|, lines, tag, if MatchAtNoCase(lines[c], 0, tag) then c else |lines|);
      assert forall l :: l in labels <==> l == tag || l in labels[1..];
      FirstLabelIs(line, lines, labels[1..], c);
    }
  }

  /** Only the first line and line `c` behind it carry labels: the search finds the one whose label it
      tries first. */
  lemma {:induction false} FirstLabelOfTwo(start: string, lines: seq<string>, labels: seq<string>, c: nat)
    requires ProperLine(start) && forall l | l in lines :: ProperLine(l)
    requires forall l | l in labels :: ProperLabel(l)
    requires c < |lines| && forall i, l | 0 <= i < |lines| && l in labels && i != c :: !MatchAtNoCase(lines[i], 0, l)
    ensures var i, k := LabelOf(start, labels), LabelOf(lines[c], labels);
            FirstLabel(LinesText([start] + lines), labels) ==
            if i < |labels| && i <= k then Some(0)
            else if k < |labels| then Some(|LinesText([start] + lines[..c])|)
            else None
    decreases |labels|
  {
    if labels != [] {
      var tag, all := labels[0], [start] + lines;
      assert tag in labels && forall l | l in labels[1..] :: l in labels;
      assert "" + LinesText(all) == LinesText(all) && all[..c + 1] == [start] + lines[..c] && all[..0] == [];
      hide FindNoCase, LinesText, Folded;
      FindTag("", all, tag);
      TagOfTwo(start, lines, tag, c);
      FirstLabelOfTwo(start, lines, labels[1..], c);
    }
  }

  lemma TagOfTwo(start: string, lines: seq<string>, tag: string, c: nat)
    requires c < |lines| && forall i | 0 <= i < |lines| && i != c :: !MatchAtNoCase(lines[i], 0, tag)
    ensures TagPos(0, [start] + lines, tag) ==
            if MatchAtNoCase(start, 0, tag) then Some(0)
            else if MatchAtNoCase(lines[c], 0, tag) then Some(|LinesText([start] + lines[..c])|)
            else None
  {
    var all := [start] + lines;
    assert all[..c + 1] == [start] + lines[..c] && all[..0] == [];
    hide MatchAtNoCase;
    assert forall i | 0 <= i < |all| :: all[i] == if i == 0 then start else lines[i - 1];
    TagPosIs(0, all, tag, if MatchAtNoCase(start, 0, tag) then 0 else if MatchAtNoCase(lines[c], 0, tag) then c + 1 else |all|);
  }

  lemma {:induction false} LabelOfIs(line: string, labels: seq<string>)
    ensures LabelOf(line, labels) < |labels| <==> exists l :: l in labels && MatchAtNoCase(line, 0, l)
  {
    if labels != [] {
      assert labels[0] in labels && forall l :: l in labels <==> l == labels[0] || l in labels[1..];
      LabelOfIs(line, labels[1..]);
    }
  }

  /** Which field lines carry which label. */
  lemma FieldLabels(f: Field)
    requires WellFormedField(f)
    ensures (exists l :: l in LABELS && MatchAtNoCase(Line(f), 0, l)) <==> IsLengthField(f) && Recognized(f)
  {
    var full, short := "content-length", "l";
    assert LowerAll(full) == full && LowerAll(short) == short;
    assert LABELS[0] == full + [':'] && LABELS[1] == full + [' '] && LABELS[2] == short + [':'] && LABELS[3] == short + [' '];
    LineStarts(f, full, ':');
    LineStarts(f, full, ' ');
    LineStarts(f, short, ':');
    LineStarts(f, short, ' ');
    assert f.gap != "" ==> f.gap[0] in f.gap;
  }

  lemma FieldLineProper(f: Field)
    requires WellFormedField(f)
    ensures ProperLine(Line(f)) && '\0' !in Line(f)
  {
    var line := Line(f);
    var p := f.name + f.gap + ":";
    assert f.name[0] in f.name;
    forall i | 0 <= i < |line| ensures line[i] != '\0' && (line[i] == '\r' ==> i >= |p|) {
      if i < |f.name| { assert line[i] in f.name; }
      else if i < |f.name| + |f.gap| { assert line[i] in f.gap; }
      else if i >= |p| { assert line[i] == f.value[i - |p|] && line[i] in f.value; }
    }
    assert line == p + f.value;
    assert forall i | |p| <= i < |line| :: line[i] == f.value[i - |p|];
  }

  lemma LabelsProper()
    ensures forall l | l in LABELS :: ProperLabel(l)
  {
    forall l | l in LABELS ensures ProperLabel(l) {
      assert l == LABELS[0] || l == LABELS[1] || l == LABELS[2] || l == LABELS[3];
    }
  }

  /** The first colon behind the CRLF of a field line is the one that ends its name. */
  lemma ColonAt(f: Field, tail: string)
    requires WellFormedField(f)
    ensures FindChar(CRLF + Line(f) + tail, ':') == Some(|CRLF + f.name + f.gap|)
    ensures (CRLF + Line(f) + tail)[|CRLF + f.name + f.gap| + 1..] == f.value + tail
  {
    var p := CRLF + f.name + f.gap;
    var s := CRLF + Line(f) + tail;
    assert s == p + ":" + (f.value + tail);
    forall k | 0 <= k < |p| ensures p[k] != ':' {
      if 2 <= k < 2 + |f.name| { assert p[k] == f.name[k - 2] && p[k] in f.name; }
      else if k >= 2 { assert p[k] == f.gap[k - 2 - |f.name|] && p[k] in f.gap; }
    }
    FindCharIsFirst(s, ':', Some(|p|));
  }

  /** The number `atoi` reads in a field value, whatever lines follow it. */
  lemma NumberRead(value: string, n: nat, tail: string)
    requires ValueIs(value, n) && n <= INT_MAX && (tail == "" || tail[0] == '\r')
    ensures Atoi(value + tail) == Some(n)
  {
    hide Atoi;
    var i: nat, j: nat :| i < j <= |value| && AllSpace(value[..i]) && AllDigits(value[i..j])
      && AllSpace(value[j..]) && DecimalValue(value[i..j], 0) == n;
    var rest := value[j..] + tail;
    assert value[j..] != "" ==> rest[0] == value[j..][0] && rest[0] in value[j..];
    assert value + tail == value[..i] + value[i..j] + rest;
    AtoiReadsNumber(value[..i], value[i..j], rest);
  }

  lemma AroundLine(line: string, lines: seq<string>, c: nat) returns (p: string, tail: string)
    requires c < |lines|
    ensures line + LinesText(lines) == p + (CRLF + lines[c] + tail)
    ensures p == line + LinesText(lines[..c])
    ensures tail == "" || tail[0] == '\r'
  {
    p := line + LinesText(lines[..c]);
    tail := LinesText(lines[c + 1..]);
    assert lines == lines[..c] + lines[c..];
    LinesTextConcat(lines[..c], lines[c..]);
    assert lines[c..][1..] == lines[c + 1..];
  }

  predicate OnlyLabelled(lines: seq<string>, c: nat) {
    forall i, l | 0 <= i < |lines| && l in LABELS && i != c :: !MatchAtNoCase(lines[i], 0, l)
  }

  lemma LabelFound(line: string, lines: seq<string>, c: nat, f: Field)
    requires Folded(line) && forall l | l in lines :: ProperLine(l)
    requires c < |lines| && lines[c] == Line(f) && WellFormedField(f) && IsLengthField(f) && OnlyLabelled(lines, c)
    ensures FirstLabel(line + LinesText(lines), LABELS) ==
            if Recognized(f) then Some(|line + LinesText(lines[..c])|) else None
  {
    LabelsProper();
    FieldLabels(f);
    hide MatchAtNoCase, Line, LinesText, FirstLabel;
    FirstLabelIs(line, lines, LABELS, c);
  }

  lemma FieldNumber(f: Field, n: nat, tail: string) returns (k: nat)
    requires WellFormedField(f) && ValueIs(f.value, n) && n <= INT_MAX && (tail == "" || tail[0] == '\r')
    ensures k < |CRLF + Line(f) + tail|
    ensures FindChar(CRLF + Line(f) + tail, ':') == Some(k) && Atoi((CRLF + Line(f) + tail)[k + 1..]) == Some(n)
  {
    hide Atoi, FindChar, ValueIs, WellFormedField;
    k := |CRLF + f.name + f.gap|;
    ColonAt(f, tail);
    NumberRead(f.value, n, tail);
  }

  lemma LengthBehind(p: string, field: string, k: nat, n: nat)
    requires FirstLabel(p + field, LABELS) == Some(|p|)
    requires FindChar(field, ':') == Some(k) && Atoi(field[k + 1..]) == Some(n)
    ensures DeclaredLength(p + field) == Known(n)
  {
    hide Atoi, FirstLabel, FindChar;
    assert (p + field)[|p|..] == field;
  }

  /** The length read from header lines of which only line `c` may carry a label. */
  lemma LengthRead(line: string, lines: seq<string>, c: nat, f: Field, n: nat)
    requires Folded(line) && forall l | l in lines :: ProperLine(l)
    requires c < |lines| && lines[c] == Line(f) && WellFormedField(f) && IsLengthField(f) && OnlyLabelled(lines, c)
    requires ValueIs(f.value, n) && n <= INT_MAX
    ensures DeclaredLength(line + LinesText(lines)) == Known(if Recognized(f) then n else 0)
  {
    hide Atoi, Line, FirstLabel, FindChar, ValueIs, WellFormedField, LinesText, OnlyLabelled, Folded;
    LabelFound(line, lines, c, f);
    if Recognized(f) {
      var p, tail := AroundLine(line, lines, c);
      var k := FieldNumber(f, n, tail);
      LengthBehind(p, CRLF + Line(f) + tail, k, n);
    }
  }

  lemma MessageLines(m: Message, c: nat)
    requires WellFormed(m, c)
    ensures forall l | l in Lines(m.fields) :: ProperLine(l) && '\0' !in l
    ensures OnlyLabelled(Lines(m.fields), c)
    ensures ProperLine(m.start)
  {
    forall i | 0 <= i < |m.fields|
      ensures ProperLine(Line(m.fields[i])) && '\0' !in Line(m.fields[i])
      ensures i != c ==> forall l | l in LABELS :: !MatchAtNoCase(Line(m.fields[i]), 0, l)
    {
      FieldLineProper(m.fields[i]);
      FieldLabels(m.fields[i]);
    }
  }

  lemma {:induction false} NoNul(lines: seq<string>)
    requires forall l | l in lines :: '\0' !in l
    ensures '\0' !in LinesText(lines)
  {
    if lines != [] {
      assert lines[0] in lines;
      NoNul(lines[1..]);
    }
  }

  lemma LinesTextCons(start: string, lines: seq<string>)
    ensures LinesText([start] + lines) == CRLF + (start + LinesText(lines))
    ensures |LinesText([start] + lines)| == |CRLF + start + LinesText(lines)|
  {
    assert ([start] + lines)[1..] == lines;
  }

  lemma FieldLabelOf(f: Field)
    requires WellFormedField(f) && IsLengthField(f)
    ensures LabelOf(Line(f), LABELS) < |LABELS| <==> Recognized(f)
  {
    FieldLabels(f);
    LabelOfIs(Line(f), LABELS);
  }

  /** Where the search finds a label when a CRLF stands before the start line. */
  lemma LabelBehindCrlf(start: string, lines: seq<string>, c: nat, f: Field)
    requires ProperLine(start) && forall l | l in lines :: ProperLine(l)
    requires c < |lines| && lines[c] == Line(f) && WellFormedField(f) && IsLengthField(f) && OnlyLabelled(lines, c)
    ensures var i, k := LabelOf(start, LABELS), LabelOf(lines[c], LABELS);
            FirstLabel(CRLF + (start + LinesText(lines)), LABELS) ==
            if i < |LABELS| && i <= k then Some(0)
            else if Recognized(f) then Some(|CRLF + start + LinesText(lines[..c])|)
            else None
  {
    LabelsProper();
    FieldLabelOf(f);
    OnlyLine(lines, c);
    hide *;
    FirstLabelOfTwo(start, lines, LABELS, c);
    LinesTextCons(start, lines);
    LinesTextCons(start, lines[..c]);
  }

  lemma OnlyLine(lines: seq<string>, c: nat)
    requires OnlyLabelled(lines, c)
    ensures forall i, l | 0 <= i < |lines| && l in LABELS && i != c :: !MatchAtNoCase(lines[i], 0, l)
  {
  }

  lemma ColonBehindCrlf(s: string)
    ensures LengthBehindColon(CRLF + s) == LengthBehindColon(s)
  {
    hide Atoi;
    var t := CRLF + s;
    assert t[1..][1..] == s && t[0] != ':' && t[1..][0] != ':';
    assert FindChar(t, ':') == match FindChar(s, ':') case None => None case Some(i) => Some(i + 2);
    if FindChar(s, ':').Some? { assert t[FindChar(s, ':').value + 3..] == s[FindChar(s, ':').value + 1..]; }
  }

  /** The length read in a header section, alone and behind a CRLF. */
  lemma HeadMeasured(m: Message, c: nat)
    requires WellFormed(m, c)
    ensures DeclaredLength(HeadText(m)) == Known(ReadLength(m, c))
    ensures DeclaredLength(CRLF + HeadText(m)) ==
            if StartWins(m, c) then LengthBehindColon(HeadText(m)) else Known(ReadLength(m, c))
  {
    var head, lines := HeadText(m), Lines(m.fields);
    MessageLines(m, c);
    LabelBehindCrlf(m.start, lines, c, m.fields[c]);
    hide Recognized, OnlyLabelled, Folded, WellFormedField, ValueIs, LinesText, LabelOf, FirstLabel, LengthBehindColon;
    LengthRead(m.start, lines, c, m.fields[c], |m.body|);
    if StartWins(m, c) {
      assert (CRLF + head)[0..] == CRLF + head;
      ColonBehindCrlf(head);
    } else if Recognized(m.fields[c]) {
      BehindCrlf(m.start, lines, c, m.fields[c], |m.body|);
    }
  }

  lemma BehindCrlf(start: string, lines: seq<string>, c: nat, f: Field, n: nat)
    requires c < |lines| && lines[c] == Line(f) && WellFormedField(f) && ValueIs(f.value, n) && n <= INT_MAX
    requires FirstLabel(CRLF + (start + LinesText(lines)), LABELS) == Some(|CRLF + start + LinesText(lines[..c])|)
    ensures DeclaredLength(CRLF + (start + LinesText(lines))) == Known(n)
  {
    hide *;
    var p, tail := AroundLine(start, lines, c);
    var k := FieldNumber(f, n, tail);
    assert CRLF + (p + (CRLF + lines[c] + tail)) == (CRLF + p) + (CRLF + lines[c] + tail);
    assert CRLF + start + LinesText(lines[..c]) == CRLF + p;
    LengthBehind(CRLF + p, CRLF + lines[c] + tail, k, n);
  }

  lemma LengthAtHead(head: string, t: string)
    requires '\0' !in head
    ensures LengthAt(head + t, |head|) == DeclaredLength(head)
  {
    hide DeclaredLength;
    assert (head + t)[..|head|] == head;
    assert head + "" == head;
    CStringIs(head, "");
  }

  lemma TextStart(m: Message)
    requires ProperStart(m.start)
    ensures |Text(m)| > 0 && Text(m)[0] != '\r'
  {
    assert Text(m)[0] == m.start[0];
  }

  /** The framing of a well-formed message: its blank line is found, and the length of its body is read,
      unless a tab stands behind the name of its length field. Behind a CRLF it is read too, unless the
      start line is taken for the length header. */
  lemma MessageMeasured(m: Message, c: nat)
    requires WellFormed(m, c)
    ensures |Text(m)| == |HeadText(m)| + 4 + |m.body| && Text(m)[0] != '\r'
    ensures Find(Text(m), BLANK_LINE) == Some(|HeadText(m)|)
    ensures LengthAt(Text(m), |HeadText(m)|) == Known(ReadLength(m, c))
    ensures LengthAt(CRLF + Text(m), |HeadText(m)| + 2) ==
            if StartWins(m, c) then LengthBehindColon(HeadText(m)) else Known(ReadLength(m, c))
  {
    MessageFound(m, c);
    HeadMeasured(m, c);
    NoNulInHead(m, c);
    var head, t := HeadText(m), BLANK_LINE + m.body;
    assert Text(m) == head + t && CRLF + Text(m) == CRLF + head + t;
    hide *;
    LengthAtHead(head, t);
    LengthAtHead(CRLF + head, t);
  }

  lemma MessageFound(m: Message, c: nat)
    requires WellFormed(m, c)
    ensures |Text(m)| == |HeadText(m)| + 4 + |m.body| && Text(m)[0] != '\r'
    ensures Find(Text(m), BLANK_LINE) == Some(|HeadText(m)|)
  {
    MessageLines(m, c);
    TextStart(m);
    hide Find, ProperLine, LinesText, Lines, OnlyLabelled;
    FindBlankLine(m.start, Lines(m.fields), m.body);
  }

  lemma NoNulInHead(m: Message, c: nat)
    requires WellFormed(m, c)
    ensures '\0' !in HeadText(m) && '\0' !in CRLF + HeadText(m)
  {
    MessageLines(m, c);
    hide ProperLine, LinesText, Lines, OnlyLabelled;
    NoNul(Lines(m.fields));
  }
}

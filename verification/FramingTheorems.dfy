/** What the receiver delivers of a stream of SIP messages with keep-alive CRLFs between them. */
module FramingTheorems {
  import opened Basics
  import opened CText
  import opened Framing
  import opened FramingChunks
  import opened SipMessage

  /** A message behind any number of keep-alive CRLFs; `c` is the index of its Content-Length field. */
  datatype Item = Item(keepAlives: nat, m: Message, c: nat)

  /** What has arrived behind the last complete message and further keep-alives: nothing, half a CRLF, or
      the first `n` characters of a message. */
  datatype Tail = Nothing | HalfCrlf | Begun(m: Message, c: nat, n: nat)

  function Crlfs(k: nat): string {
    if k == 0 then "" else CRLF + Crlfs(k - 1)
  }

  function TailText(tail: Tail): string
    requires tail.Begun? ==> tail.n <= |Text(tail.m)|
  {
    match tail
    case Nothing => ""
    case HalfCrlf => "\r"
    case Begun(m, _, n) => Text(m)[..n]
  }

  function StreamText(items: seq<Item>, tail: string): string {
    if items == [] then tail
    else Crlfs(items[0].keepAlives) + (Text(items[0].m) + StreamText(items[1..], tail))
  }

  function Texts(items: seq<Item>): (r: seq<string>)
    ensures |r| == |items|
  {
    seq(|items|, i requires 0 <= i < |items| => Text(items[i].m))
  }

  /** The message has a length header the code recognizes, or needs none. */
  predicate Deliverable(m: Message, c: nat) {
    WellFormed(m, c) && (Recognized(m.fields[c]) || m.body == "")
  }

  predicate ProperTail(tail: Tail) {
    tail.Begun? ==> Deliverable(tail.m, tail.c) && 0 < tail.n < |Text(tail.m)|
  }

  /** No CRLF before the message makes its start line pass for a length header with another number. */
  predicate Clear(i: Item) {
    i.keepAlives > 0 && i.c < |i.m.fields| ==> !Misleading(i.m, i.c)
  }

  /** The same for the message in the tail, as far as it is there: its header section is, and so is a body
      as long as the other number says. */
  predicate TailClear(k: nat, tail: Tail)
    requires ProperTail(tail)
  {
    tail.Begun? && k > 0 && |HeadText(tail.m)| + 4 <= tail.n && Misleading(tail.m, tail.c) ==>
      !Completes(LengthBehindColon(HeadText(tail.m)), |HeadText(tail.m)|, TailText(tail))
  }

  lemma CrlfsStep(k: nat)
    ensures Crlfs(k) == if k == 0 then "" else CRLF + Crlfs(k - 1)
  {
  }

  lemma {:induction false} CrlfsSkipped(k: nat, s: string)
    ensures Strip(Crlfs(k) + s) == Strip(s)
    ensures CRLF <= Crlfs(k) + s <==> k > 0 || CRLF <= s
  {
    hide *;
    CrlfsStep(k);
    if k == 0 {
      assert "" + s == s;
    } else {
      CrlfsSkipped(k - 1, s);
      LedStream(Crlfs(k - 1), s);
    }
  }

  /** The text of a message, with other bytes behind it, as the batch reading meets it. */
  lemma MessageMet(m: Message, c: nat, rest: string)
    requires Deliverable(m, c)
    ensures c < |m.fields|
    ensures var x, e := Text(m), |HeadText(m)|;
            && |x| == e + 4 + |m.body| && !(CRLF <= x + rest)
            && Find(x + rest, BLANK_LINE) == Some(e) && Strip(x + rest) == x + rest
            && LengthAt(x + rest, e) == Known(|m.body|)
            && (Ambiguous(x + rest, e) <==> Misleading(m, c))
            && (StartWins(m, c) ==> LengthAt(CRLF + (x + rest), e + 2) == LengthBehindColon(HeadText(m)))
  {
    hide *;
    DeliverableIs(m, c);
    MessageStays(m, c, rest);
    AmbiguousIs(Text(m) + rest, |HeadText(m)|);
    MisleadingIs(m, c);
  }

  lemma MessageStays(m: Message, c: nat, rest: string)
    requires WellFormed(m, c)
    ensures var x, e := Text(m), |HeadText(m)|;
            && |x| == e + 4 + |m.body| && !(CRLF <= x + rest)
            && Find(x + rest, BLANK_LINE) == Some(e) && Strip(x + rest) == x + rest
            && LengthAt(x + rest, e) == Known(ReadLength(m, c))
            && LengthAt(CRLF + (x + rest), e + 2) ==
                 if StartWins(m, c) then LengthBehindColon(HeadText(m)) else Known(ReadLength(m, c))
  {
    hide *;
    MessageMeasured(m, c);
    NoCrlf(Text(m));
    FrameStays(Text(m), |HeadText(m)|, rest);
    StripStays(Text(m) + rest);
  }

  lemma DeliverableIs(m: Message, c: nat)
    requires Deliverable(m, c)
    ensures WellFormed(m, c) && c < |m.fields| && ReadLength(m, c) == |m.body|
  {
  }

  lemma NoCrlf(x: string)
    requires |x| > 0 && x[0] != '\r'
    ensures !(CRLF <= x)
  {
  }

  lemma StripStays(s: string)
    requires Strip(s) == s
    ensures !(CRLF <= s)
  {
  }

  lemma AmbiguousIs(x: string, e: nat)
    requires e <= |x|
    ensures Ambiguous(x, e) <==> LengthAt(x, e) != LengthAt(CRLF + x, e + 2)
  {
    hide LengthAt;
  }

  lemma MisleadingIs(m: Message, c: nat)
    requires c < |m.fields|
    ensures Misleading(m, c) <==> StartWins(m, c) && LengthBehindColon(HeadText(m)) != Known(ReadLength(m, c))
  {
  }

  /** One message in front of a stream is one message more delivered. */
  lemma MessageParses(k: nat, m: Message, c: nat, rest: string)
    requires Deliverable(m, c)
    ensures Parse(Crlfs(k) + (Text(m) + rest)) == After([Text(m)], Parse(rest))
    ensures Benign(Crlfs(k) + (Text(m) + rest)) <==> (k > 0 ==> !Misleading(m, c)) && Benign(rest)
  {
    hide *;
    var s, x, e := Crlfs(k) + (Text(m) + rest), Text(m), |HeadText(m)|;
    MessageMet(m, c, rest);
    CrlfsSkipped(k, x + rest);
    ParseAt(s, x + rest, e);
    BenignAt(s, x + rest, e);
    CompletesIs(Known(|m.body|), e, x + rest);
    assert (x + rest)[..|x|] == x && (x + rest)[|x|..] == rest;
  }

  lemma NothingFound(s: string, x: string)
    requires x == Strip(s) && Find(x, BLANK_LINE) == None
    ensures Parse(s) == Outcome([], x, false) && Benign(s)
  {
    hide Find;
  }

  lemma ShortTail(x: string)
    requires x == "" || x == "\r"
    ensures Strip(x) == x && Find(x, BLANK_LINE) == None
  {
  }

  /** A message that is not complete is not delivered. */
  lemma PartialParses(k: nat, tail: Tail)
    requires ProperTail(tail)
    ensures Parse(Crlfs(k) + TailText(tail)) == Outcome([], TailText(tail), false)
    ensures Benign(Crlfs(k) + TailText(tail)) <==> TailClear(k, tail)
  {
    hide Find, Strip, Parse, Benign, Completes, Deliverable;
    CrlfsSkipped(k, TailText(tail));
    if tail.Begun? {
      BegunParses(k, tail.m, tail.c, tail.n);
    } else {
      ShortTail(TailText(tail));
      NothingFound(Crlfs(k) + TailText(tail), TailText(tail));
    }
  }

  lemma BegunParses(k: nat, m: Message, c: nat, n: nat)
    requires Deliverable(m, c) && 0 < n < |Text(m)|
    ensures var s, x, e := Crlfs(k) + Text(m)[..n], Text(m)[..n], |HeadText(m)|;
            && Parse(s) == Outcome([], x, false)
            && (Benign(s) <==> (k > 0 && e + 4 <= n && Misleading(m, c) ==> !Completes(LengthBehindColon(HeadText(m)), e, x)))
  {
    hide *;
    var s, x, e := Crlfs(k) + Text(m)[..n], Text(m)[..n], |HeadText(m)|;
    MessageMet(m, c, "");
    assert Text(m) + "" == Text(m) == x + Text(m)[n..];
    PrefixStrips(Text(m), n);
    CrlfsSkipped(k, x);
    if e + 4 <= n {
      FindExtendsBack(x, Text(m)[n..], e);
      FrameStays(x, e, Text(m)[n..]);
      ParseAt(s, x, e);
      BenignAt(s, x, e);
      AmbiguousIs(x, e);
      AmbiguousIs(Text(m), e);
      CompletesIs(Known(|m.body|), e, x);
      MisleadingIs(m, c);
    } else {
      NotFoundYet(x, Text(m)[n..], e);
      NothingFound(s, x);
    }
  }

  lemma PrefixStrips(t: string, n: nat)
    requires 0 < n <= |t| && t != "" && !(CRLF <= t)
    ensures !(CRLF <= t[..n]) && Strip(t[..n]) == t[..n]
  {
    assert n >= 2 ==> t[..n][..2] == t[..2];
  }

  /** A blank line that is not there as a whole is not found. */
  lemma NotFoundYet(x: string, t: string, e: nat)
    requires Find(x + t, BLANK_LINE) == Some(e) && |x| < e + 4
    ensures Find(x, BLANK_LINE) == None
  {
    match Find(x, BLANK_LINE)
    case None =>
    case Some(i) => FindExtends(x, t, BLANK_LINE);
  }

  lemma {:induction false} StreamParses(items: seq<Item>, k: nat, tail: Tail)
    requires forall i | i in items :: Deliverable(i.m, i.c)
    requires ProperTail(tail)
    ensures var s := StreamText(items, Crlfs(k) + TailText(tail));
            && Parse(s) == Outcome(Texts(items), TailText(tail), false)
            && (Benign(s) <==> (forall i | i in items :: Clear(i)) && TailClear(k, tail))
    decreases |items|
  {
    if items == [] {
      PartialParses(k, tail);
    } else {
      var i, rest := items[0], StreamText(items[1..], Crlfs(k) + TailText(tail));
      FirstItem(items, Crlfs(k) + TailText(tail));
      hide *;
      MessageParses(i.keepAlives, i.m, i.c, rest);
      StreamParses(items[1..], k, tail);
      AfterTexts(items, TailText(tail));
    }
  }

  lemma FirstItem(items: seq<Item>, tail: string)
    requires items != [] && forall i | i in items :: Deliverable(i.m, i.c)
    ensures var i := items[0];
            && Deliverable(i.m, i.c) && (forall j | j in items[1..] :: Deliverable(j.m, j.c))
            && StreamText(items, tail) == Crlfs(i.keepAlives) + (Text(i.m) + StreamText(items[1..], tail))
            && ((forall j | j in items :: Clear(j)) <==>
                  (i.keepAlives > 0 ==> !Misleading(i.m, i.c)) && forall j | j in items[1..] :: Clear(j))
  {
    var i := items[0];
    assert i in items && forall j :: j in items <==> j == i || j in items[1..];
    DeliverableIs(i.m, i.c);
    hide Misleading, Deliverable, Text, Crlfs;
  }

  lemma AfterTexts(items: seq<Item>, rest: string)
    requires items != []
    ensures After([Text(items[0].m)], Outcome(Texts(items[1..]), rest, false)) == Outcome(Texts(items), rest, false)
  {
    hide Text;
    assert Texts(items) == [Text(items[0].m)] + Texts(items[1..]);
  }

  /** However the bytes arrive, exactly the complete messages of the stream are delivered, once each, in
      order, up to CRLFs in front of them, and the beginning of the next one is kept: if and only if no
      message behind a keep-alive has a start line that passes for a length header with another number. */
  lemma DeliveryTheorem(items: seq<Item>, k: nat, tail: Tail)
    requires forall i | i in items :: Deliverable(i.m, i.c)
    requires ProperTail(tail)
    ensures (forall chunks | Cuts(chunks, StreamText(items, Crlfs(k) + TailText(tail))) ::
               Norm(Receive("", chunks)) == Outcome(Texts(items), TailText(tail), false))
            <==> (forall i | i in items :: Clear(i)) && TailClear(k, tail)
  {
    hide Benign, Cuts, Parse, Receive, Deliverable, TailText, TailClear, Clear, Norm;
    StreamParses(items, k, tail);
    ChunkingTheorem(StreamText(items, Crlfs(k) + TailText(tail)));
  }

  /** A well-formed message comes out whole exactly when no tab stands behind the name of its length
      field, or its body is empty; otherwise its header section comes out as a message. */
  lemma DeliveredWhole(m: Message, c: nat)
    requires WellFormed(m, c)
    ensures Drain(Text(m)) == Outcome([Text(m)], "", false) <==> Deliverable(m, c)
    ensures !Deliverable(m, c) ==> |Drain(Text(m)).delivered| > 0 && Drain(Text(m)).delivered[0] == HeadText(m) + BLANK_LINE
  {
    var x, e := Text(m), |HeadText(m)|;
    TextHead(m, c);
    hide *;
    MessageMeasured(m, c);
    FindNotZero(x, e);
    EmptyStream();
    if ReadLength(m, c) == |m.body| {
      assert x + "" == x;
      DrainWhole(x, e, x, "");
      AfterEmpty(x);
    } else {
      var f, d := x[..e + 4], x[e + 4..];
      assert x == f + d && f != x;
      DrainWhole(x, e, f, d);
      AfterFirst(f, Drain(d));
    }
  }

  lemma TextHead(m: Message, c: nat)
    requires WellFormed(m, c)
    ensures |Text(m)| >= |HeadText(m)| + 4 && Text(m)[..|HeadText(m)| + 4] == HeadText(m) + BLANK_LINE
    ensures Deliverable(m, c) <==> ReadLength(m, c) == |m.body|
    ensures ReadLength(m, c) == |m.body| || ReadLength(m, c) == 0
  {
    hide WellFormed, Recognized, HeadText;
    var h := HeadText(m) + BLANK_LINE;
    assert (h + m.body)[..|h|] == h;
  }

  lemma AfterEmpty(x: string)
    ensures After([x], Outcome([], "", false)) == Outcome([x], "", false)
  {
    assert [x] + [] == [x];
  }

  lemma AfterFirst(m: string, o: Outcome)
    ensures |After([m], o).delivered| > 0 && After([m], o).delivered[0] == m
  {
  }

  lemma FindNotZero(x: string, e: nat)
    requires Find(x, BLANK_LINE) == Some(e) && x[0] != '\r'
    ensures e > 0
  {
    FindIsFirst(x, 0, BLANK_LINE, Some(e));
  }

  // ----- two streams whose reading does depend on the bounds of the reads -----

  lemma CompactLabelAt(head: string, p: string, t: string)
    requires head == p + ("\r\nl:" + t) && forall c | c in p :: c != '\r'
    ensures FindNoCase(head, CRLF + "l:") == Some(|p|)
  {
    var pat := CRLF + "l:";
    var s := "\r\nl:" + t;
    assert forall k | 0 <= k < 4 :: s[k] == pat[k];
    MatchNoCaseBehind(p, s, 0, pat);
    forall j: nat | j < |p| ensures !MatchAtNoCase(head, j, pat) {
      assert head[j] == p[j] && p[j] in p;
      MatchChar(head, j, pat, 0);
    }
    FindNoCaseIsFirst(head, 0, pat, Some(|p|));
  }

  /** A short header section can only carry the compact label with a colon. */
  lemma ShortLabel(head: string, p: string, t: string)
    requires head == p + ("\r\nl:" + t) && |head| < 17 && forall c | c in p :: c != '\r'
    ensures FirstLabel(head, LABELS) == Some(|p|)
  {
    CompactLabelAt(head, p, t);
    hide FindNoCase;
    var l0, l1, l2 := LABELS[0], LABELS[1], LABELS[2];
    NoRoom(head, CRLF + l0);
    NoRoom(head, CRLF + l1);
    assert LABELS[1..][0] == l1 && LABELS[1..][1..][0] == l2;
    assert FirstLabel(head, LABELS) == FirstLabel(head, LABELS[1..]) == FirstLabel(head, LABELS[1..][1..]);
  }

  lemma NoRoom(s: string, pat: string)
    requires |s| < |pat|
    ensures FindNoCase(s, pat) == None
  {
  }

  lemma SmallNumbers()
    ensures Atoi("1") == Some(1) && Atoi("-1") == Some(-1)
  {
    LeadingDigitsAre("1", "");
    assert "1" + "" == "1" && "-1"[1..] == "1";
    assert DecimalValue("1", 0) == 1;
  }

  lemma LabelledHead(head: string, p: string, t: string)
    requires head == p + ("\r\nl:" + t) && |head| < 17 && forall c | c in p :: c != '\r'
    ensures DeclaredLength(head) ==
            match Atoi(t) case None => Undefined case Some(v) => if v < 0 then Negative else Known(v)
  {
    ShortLabel(head, p, t);
    assert head[|p|..] == "\r\nl:" + t;
    FindCharIsFirst("\r\nl:" + t, ':', Some(3));
    assert head[|p| + 4..] == t;
    hide Atoi, FirstLabel;
  }

  /** A negative length in the middle of a stream. */
  lemma NegativeLengthIsNotBenign()
    ensures !Benign("x\r\nl:-1" + (BLANK_LINE + "y"))
  {
    hide Atoi, DeclaredLength, LengthAt, Find, Benign;
    var head := "x\r\nl:-1";
    SmallNumbers();
    LabelledHead(head, "x", "-1");
    LengthAtHead(head, BLANK_LINE + "y");
    assert "x" + LinesText(["l:-1"]) == head;
    FindBlankLine("x", ["l:-1"], "y");
    assert head + BLANK_LINE + "y" == head + (BLANK_LINE + "y");
    BadFrame(head + (BLANK_LINE + "y"), |head|);
  }

  /** The two ways in which a first frame makes a stream depend on its cuts. */
  lemma BadFrame(x: string, e: nat)
    requires x != "" && x[0] != '\r' && Find(x, BLANK_LINE) == Some(e)
    ensures LengthAt(x, e).Negative? && |x| > e + 4 ==> !Benign(x)
    ensures LengthAt(x, e) == Known(0) != LengthAt(CRLF + x, e + 2) && |x| >= e + 4 ==> !Benign(CRLF + x)
  {
    hide LengthAt;
    StripSkips(x);
  }

  lemma {:induction false} NoLabel(head: string, labels: seq<string>)
    requires |head| < 4 && forall l | l in labels :: |l| >= 2
    ensures FirstLabel(head, labels) == None
  {
    if labels != [] {
      assert labels[0] in labels;
      NoRoom(head, CRLF + labels[0]);
      NoLabel(head, labels[1..]);
    }
  }

  lemma ShortHead(head: string)
    requires |head| < 4
    ensures DeclaredLength(head) == Known(0)
  {
    LabelsProper();
    assert forall i | 0 <= i < 4 :: |LABELS[i]| >= 2;
    NoLabel(head, LABELS);
  }

  lemma LabelledStart(head: string, t: string)
    requires head != "" && head[0] != '\r' && '\0' !in head && |t| >= 4
    requires Find(head + t, BLANK_LINE) == Some(|head|)
    requires DeclaredLength(head) == Known(0) != DeclaredLength(CRLF + head)
    ensures !Benign(CRLF + (head + t))
  {
    hide *;
    LedHead(head, t);
    LengthAtHead(head, t);
    LengthAtHead(CRLF + head, t);
    BadFrame(head + t, |head|);
  }

  lemma LedHead(head: string, t: string)
    requires '\0' !in head
    ensures CRLF + head + t == CRLF + (head + t) && |CRLF + head| == |head| + 2 && '\0' !in CRLF + head
  {
  }

  /** A first line that passes for a length header once a CRLF stands before it. */
  lemma LabelledStartIsNotBenign()
    ensures !Benign(CRLF + ("l:1" + (BLANK_LINE + "z")))
  {
    hide Atoi, DeclaredLength, Find, Benign, LinesText;
    ShortHead("l:1");
    SmallNumbers();
    LabelledHead(CRLF + "l:1", "", "1");
    FindBlankLine("l:1", [], "z");
    NoLines("l:1", "z");
    LabelledStart("l:1", BLANK_LINE + "z");
  }

  lemma NoLines(head: string, t: string)
    ensures head + LinesText([]) == head
    ensures head + BLANK_LINE + t == head + (BLANK_LINE + t)
  {
  }

  // ----- two legal messages that are not read for what they are -----

  /** A message with one character of body and one field, the compact length field. */
  function Short(start: string, gap: string, value: string): Message {
    Message(start, [Field("l", gap, value)], "z")
  }

  lemma ShortFormed(start: string, gap: string, value: string)
    requires ProperStart(start) && Folded(value) && '\0' !in value && ValueIs(value, 1)
    requires forall c | c in gap :: IsBlank(c)
    ensures WellFormed(Short(start, gap, value), 0) && IsLengthField(Field("l", gap, value))
  {
    var f := Field("l", gap, value);
    LField(f);
    assert |Short(start, gap, value).fields| == 1 && Short(start, gap, value).fields[0] == f;
    hide WellFormedField, IsLengthField, ValueIs, ProperStart, Folded, IsBlank;
  }

  lemma LField(f: Field)
    requires f.name == "l" && Folded(f.value) && '\0' !in f.value && forall c | c in f.gap :: IsBlank(c)
    ensures WellFormedField(f) && IsLengthField(f)
  {
    hide Folded;
    assert LowerAll("l") == "l";
  }

  lemma PlainText(s: string)
    requires s != "" && '\r' !in s && '\0' !in s
    ensures ProperStart(s) && Folded(s)
  {
    assert s[0] in s;
  }

  lemma OneDigit()
    ensures ValueIs(" 1", 1) && ValueIs("1", 1)
  {
    assert " 1"[..1] == " " && " 1"[1..2] == "1" && " 1"[2..] == "";
    assert "1"[..0] == "" && "1"[0..1] == "1" && "1"[1..] == "";
    assert DecimalValue("1", 0) == 1;
  }

  lemma Starts()
    ensures ProperStart("L sip:b SIP/2.0") && ProperStart("BYE sip:b SIP/2.0") && Folded(" 1") && Folded("1")
  {
    PlainText("L sip:b SIP/2.0");
    PlainText("BYE sip:b SIP/2.0");
  }

  /** Messages with the one field written `l : 1`, and with a tab for the blank. */
  lemma SpaceAndTab(start: string)
    requires ProperStart(start)
    ensures WellFormed(Short(start, " ", " 1"), 0) && Recognized(Short(start, " ", " 1").fields[0])
    ensures WellFormed(Short(start, "\t", "1"), 0) && !Recognized(Short(start, "\t", "1").fields[0])
  {
    OneDigit();
    Starts();
    hide ValueIs, ProperStart, Folded, WellFormed;
    ShortFormed(start, " ", " 1");
    ShortFormed(start, "\t", "1");
  }

  /** A request whose method is the compact label: behind a keep-alive it is read as one without a body,
      for some ways of cutting the stream. */
  lemma LegalStartMisleads()
    ensures var m := Short("L sip:b SIP/2.0", " ", " 1");
            Deliverable(m, 0) && Misleading(m, 0) && !Benign(Crlfs(1) + (Text(m) + ""))
  {
    LRequestLabels();
    LRequestNumber();
    Starts();
    SpaceAndTab("L sip:b SIP/2.0");
    LRequestMisleads("L sip:b SIP/2.0");
  }

  lemma LRequestMisleads(start: string)
    requires var m := Short(start, " ", " 1");
             && WellFormed(m, 0) && Recognized(m.fields[0]) && StartWins(m, 0) && LengthBehindColon(HeadText(m)) == Known(0)
    ensures var m := Short(start, " ", " 1");
            Deliverable(m, 0) && Misleading(m, 0) && !Benign(Crlfs(1) + (Text(m) + ""))
  {
    var m := Short(start, " ", " 1");
    hide StartWins, LengthBehindColon, HeadText, WellFormed, Text, Benign, Crlfs, Recognized;
    MessageParses(1, m, 0, "");
  }

  lemma LRequestLabels()
    ensures StartWins(Short("L sip:b SIP/2.0", " ", " 1"), 0)
  {
    var start, line := "L sip:b SIP/2.0", "l : 1";
    var l0, l1, l2, l3 := LABELS[0], LABELS[1], LABELS[2], LABELS[3];
    assert Line(Field("l", " ", " 1")) == line;
    assert Lower(start[0]) == Lower(line[0]) == 'l' && Lower(l0[0]) == Lower(l1[0]) == 'c';
    assert start[1] == line[1] == ' ' && l2[1] == ':';
    MatchChar(start, 0, l0, 0);
    MatchChar(line, 0, l0, 0);
    MatchChar(start, 0, l1, 0);
    MatchChar(line, 0, l1, 0);
    MatchChar(start, 0, l2, 1);
    MatchChar(line, 0, l2, 1);
    assert MatchAtNoCase(start, 0, l3);
    hide MatchAtNoCase, LabelOf;
    LabelOfFour(start, l0, l1, l2, l3);
    LabelOfFour(line, l0, l1, l2, l3);
    assert LABELS == [l0, l1, l2, l3];
  }

  lemma LabelOfFour(line: string, l0: string, l1: string, l2: string, l3: string)
    ensures LabelOf(line, [l0, l1, l2, l3]) ==
            if MatchAtNoCase(line, 0, l0) then 0
            else if MatchAtNoCase(line, 0, l1) then 1
            else if MatchAtNoCase(line, 0, l2) then 2
            else if MatchAtNoCase(line, 0, l3) then 3
            else 4
  {
    hide MatchAtNoCase;
    assert [l0, l1, l2, l3][1..] == [l1, l2, l3] && [l1, l2, l3][1..] == [l2, l3];
    assert [l2, l3][1..] == [l3] && [l3][1..] == [];
    assert LabelOf(line, [l3]) == if MatchAtNoCase(line, 0, l3) then 0 else 1;
    assert LabelOf(line, [l2, l3]) == if MatchAtNoCase(line, 0, l2) then 0 else 1 + LabelOf(line, [l3]);
  }

  lemma LRequestNumber()
    ensures LengthBehindColon(HeadText(Short("L sip:b SIP/2.0", " ", " 1"))) == Known(0)
  {
    assert "L sip:b SIP/2.0" == "L sip" + (":" + "b SIP/2.0");
    NoNumber("L sip", "b SIP/2.0", Short("L sip:b SIP/2.0", " ", " 1"));
  }

  /** What stands behind the first colon is not a number. */
  lemma NoNumber(p: string, q: string, m: Message)
    requires m.start == p + (":" + q) && ':' !in p && q != "" && q[0] == 'b'
    ensures LengthBehindColon(HeadText(m)) == Known(0)
  {
    var t := q + LinesText(Lines(m.fields));
    hide LinesText, Lines, Atoi, FindChar;
    assert HeadText(m) == p + (":" + t);
    FindCharIsFirst(p + (":" + t), ':', Some(|p|));
    assert (p + (":" + t))[|p| + 1..] == t;
    NotANumber(t);
  }

  lemma NotANumber(t: string)
    requires t != "" && t[0] == 'b'
    ensures Atoi(t) == Some(0)
  {
    assert SkipSpace(t) == t && LeadingDigits(t) == "";
  }

  /** A tab behind the name of the length field: the body is lost. */
  lemma TabLosesBody()
    ensures var m := Short("BYE sip:b SIP/2.0", "\t", "1");
            && WellFormed(m, 0) && Drain(Text(m)) != Outcome([Text(m)], "", false)
            && |Drain(Text(m)).delivered| > 0 && Drain(Text(m)).delivered[0] == HeadText(m) + BLANK_LINE
  {
    Starts();
    hide WellFormed, Text, HeadText, Drain, ProperStart, Folded;
    SpaceAndTab("BYE sip:b SIP/2.0");
    DeliveredWhole(Short("BYE sip:b SIP/2.0", "\t", "1"), 0);
  }

  // ----- ordinary messages and keep-alives -----

  /** The request BYE with one field and a body of one character. */
  function Bye(name: string, gap: string): Message {
    Message("BYE sip:b SIP/2.0", [Field(name, gap, " 1")], "z")
  }

  lemma ByeText(name: string, gap: string)
    ensures Text(Bye(name, gap)) == "BYE sip:b SIP/2.0\r\n" + name + gap + ": 1\r\n\r\nz"
  {
    var m := Bye(name, gap);
    assert Lines(m.fields) == [name + gap + ":" + " 1"];
    assert LinesText(Lines(m.fields)) == CRLF + (name + gap + ":" + " 1") + "";
  }

  /** `name` has the letters of `small`, each as a small letter or as a capital one. */
  predicate Spells(name: string, small: string, capital: string) {
    |name| == |small| == |capital| && forall i | 0 <= i < |name| :: name[i] == small[i] || name[i] == capital[i]
  }

  lemma SpellsIs(name: string, small: string, capital: string)
    requires |small| == |capital| && forall i | 0 <= i < |small| :: Lower(capital[i]) == small[i] == Lower(small[i])
    requires forall i | 0 <= i < |small| :: ('a' <= small[i] <= 'z' && 'A' <= capital[i] <= 'Z') || small[i] == capital[i] == '-'
    ensures Spells(name, small, capital) <==> LowerAll(name) == small
    ensures Spells(name, small, capital) && small != "" ==> IsName(name)
  {
    if LowerAll(name) == small {
      assert forall i | 0 <= i < |name| :: LowerAll(name)[i] == small[i];
    }
    if Spells(name, small, capital) {
      assert forall i | 0 <= i < |name| :: name[i] == '-' || 'a' <= name[i] <= 'z' || 'A' <= name[i] <= 'Z';
    }
  }

  lemma LengthLetters()
    ensures var small, capital := "content-length", "CONTENT-LENGTH";
            forall i | 0 <= i < 14 ::
              && Lower(capital[i]) == small[i] == Lower(small[i])
              && (('a' <= small[i] <= 'z' && 'A' <= capital[i] <= 'Z') || small[i] == capital[i] == '-')
  {
    var small, capital := "content-length", "CONTENT-LENGTH";
    assert small[7] == capital[7] == '-';
    assert forall i | 0 <= i < 14 && i != 7 :: 'a' <= small[i] <= 'z';
    assert forall i | 0 <= i < 14 && i != 7 :: capital[i] as int == small[i] as int - 32;
  }

  /** The length field is the one with this name or its compact form, in any mixture of small and capital
      letters. */
  lemma LengthFieldIs(name: string)
    ensures IsLengthField(Field(name, "", "")) <==>
            Spells(name, "content-length", "CONTENT-LENGTH") || Spells(name, "l", "L")
    ensures IsLengthField(Field(name, "", "")) ==> IsName(name)
    ensures Spells(name, "content-length", "CONTENT-LENGTH") <==> LowerAll(name) == "content-length"
    ensures Spells(name, "l", "L") <==> LowerAll(name) == "l"
  {
    LengthLetters();
    assert "l"[0] == 'l' && "L"[0] == 'L' && Lower('L') == 'l' == Lower('l');
    hide Spells, LowerAll, IsName;
    SpellsIs(name, "content-length", "CONTENT-LENGTH");
    SpellsIs(name, "l", "L");
  }

  lemma ByeFormed(name: string, gap: string)
    requires IsLengthField(Field(name, "", "")) && IsName(name) && (gap == "" || gap == " ")
    ensures WellFormed(Bye(name, gap), 0) && Deliverable(Bye(name, gap), 0)
  {
    var m, f := Bye(name, gap), Field(name, gap, " 1");
    OneDigit();
    Starts();
    hide ValueIs, ProperStart, Folded, IsName;
    assert |m.fields| == 1 && m.fields[0] == f && IsLengthField(f) && WellFormedField(f);
  }

  /** However the name of the length field is spelled, and with or without a blank behind it, the message
      comes out whole and nothing is kept. */
  lemma OrdinaryMessages(name: string, gap: string)
    requires Spells(name, "content-length", "CONTENT-LENGTH") || Spells(name, "l", "L")
    requires gap == "" || gap == " "
    ensures var m, text := Bye(name, gap), "BYE sip:b SIP/2.0\r\n" + name + gap + ": 1\r\n\r\nz";
            WellFormed(m, 0) && Text(m) == text && Drain(text) == Outcome([text], "", false)
  {
    hide *;
    ByeText(name, gap);
    LengthFieldIs(name);
    ByeFormed(name, gap);
    DeliveredWhole(Bye(name, gap), 0);
  }

  lemma ContentLengthSpelled()
    ensures Spells("Content-Length", "content-length", "CONTENT-LENGTH")
  {
  }

  /** The message everybody sends. */
  lemma OrdinaryMessage()
    ensures var m := Message("BYE sip:b SIP/2.0", [Field("Content-Length", "", " 1")], "z");
            && WellFormed(m, 0) && Text(m) == "BYE sip:b SIP/2.0\r\n" + "Content-Length: 1\r\n\r\nz"
            && Drain(Text(m)) == Outcome([Text(m)], "", false)
  {
    hide *;
    ContentLengthSpelled();
    OrdinaryMessages("Content-Length", "");
    ByeIs("Content-Length", "");
    assert "Content-Length" + "" + ": 1\r\n\r\nz" == "Content-Length: 1\r\n\r\nz";
    Regrouped("BYE sip:b SIP/2.0\r\n", "Content-Length", "", ": 1\r\n\r\nz");
  }

  lemma ByeIs(name: string, gap: string)
    ensures Bye(name, gap) == Message("BYE sip:b SIP/2.0", [Field(name, gap, " 1")], "z")
  {
  }

  lemma Regrouped(a: string, b: string, c: string, d: string)
    ensures a + b + c + d == a + (b + c + d)
  {
  }

  /** The order in which the four labels are tried; a tab behind the name makes it no label. */
  lemma LabelsInOrder(f: Field)
    requires WellFormedField(f)
    ensures var full, compact := Spells(f.name, "content-length", "CONTENT-LENGTH"), Spells(f.name, "l", "L");
            LabelOf(Line(f), LABELS) ==
            if f.gap == "" then (if full then 0 else if compact then 2 else 4)
            else if f.gap[0] == ' ' then (if full then 1 else if compact then 3 else 4)
            else 4
  {
    var full, short := "content-length", "l";
    var l0, l1, l2, l3 := LABELS[0], LABELS[1], LABELS[2], LABELS[3];
    assert l0 == full + [':'] && l1 == full + [' '] && l2 == short + [':'] && l3 == short + [' '];
    assert LABELS == [l0, l1, l2, l3];
    assert f.gap != "" ==> f.gap[0] in f.gap;
    LengthFieldIs(f.name);
    LengthNames();
    hide Spells, LowerAll, MatchAtNoCase, LabelOf, Line;
    LineStarts(f, full, ':');
    LineStarts(f, full, ' ');
    LineStarts(f, short, ':');
    LineStarts(f, short, ' ');
    LabelOfFour(Line(f), l0, l1, l2, l3);
  }

  lemma LengthNames()
    ensures LowerAll("content-length") == "content-length" && LowerAll("l") == "l"
    ensures forall c | c in "content-length" || c in "l" :: c != ':' && !IsBlank(c)
  {
  }

  /** What a length is taken for: no `int`, and the code has no meaning; negative, and everything is
      dropped; more than there is, and everything is kept. */
  lemma LengthTaken(t: string)
    requires |t| < 12 && '\r' !in t && '\0' !in t
    ensures var b := "x\r\nl:" + t + BLANK_LINE + "y";
            match Atoi(t)
            case None => Drain(b) == Outcome([], "", true)
            case Some(v) => (v < 0 ==> Drain(b) == Outcome([], "", false)) && (v > 1 ==> Drain(b) == Outcome([], b, false))
  {
    hide *;
    var head := "x\r\nl:" + t;
    CompactHead(t);
    LabelledHead(head, "x", t);
    LengthAtHead(head, BLANK_LINE + "y");
    assert head + (BLANK_LINE + "y") == head + BLANK_LINE + "y";
    HeadDrains(head);
  }

  lemma CompactHead(t: string)
    requires |t| < 12 && '\r' !in t && '\0' !in t
    ensures var head := "x\r\nl:" + t;
            && head == "x" + ("\r\nl:" + t) && |head| == 5 + |t| && '\0' !in head && (forall c | c in "x" :: c != '\r')
            && Find(head + BLANK_LINE + "y", BLANK_LINE) == Some(|head|)
  {
    var head, line := "x\r\nl:" + t, "l:" + t;
    PlainText(line);
    PlainText("x");
    assert LinesText([line]) == "\r\nl:" + t;
    assert head == "x" + LinesText([line]);
    assert forall l | l in [line] :: l == line;
    hide LinesText, Find, Folded;
    FindBlankLine("x", [line], "y");
  }

  lemma HeadDrains(head: string)
    requires |head| > 0 && Find(head + BLANK_LINE + "y", BLANK_LINE) == Some(|head|)
    ensures var b := head + BLANK_LINE + "y";
            match LengthAt(b, |head|)
            case Undefined => Drain(b) == Outcome([], "", true)
            case Negative => Drain(b) == Outcome([], "", false)
            case Known(n) => n > 1 ==> Drain(b) == Outcome([], b, false)
  {
    var b := head + BLANK_LINE + "y";
    assert |b| == |head| + 5;
    hide *;
    DrainFrame(b, |head|);
  }

  /** Keep-alives are eaten without a trace. */
  lemma KeepAlivesEaten(k: nat)
    ensures |Crlfs(k)| == 2 * k && Drain(Crlfs(k)) == Outcome([], "", false)
  {
    CrlfsLength(k);
    CrlfsSkipped(k, "");
    assert Crlfs(k) + "" == Crlfs(k) && Strip("") == "";
    DrainLed(Crlfs(k), "");
  }

  /** Two CRLFs at the front are one keep-alive, whatever follows them. */
  lemma KeepAliveTaken(s: string)
    ensures Drain("\r\n\r\n" + s) == Drain(s)
  {
    var b := "\r\n\r\n" + s;
    assert MatchAt(b, 0, BLANK_LINE) && b[4..] == s;
    FindIsFirst(b, 0, BLANK_LINE, Some(0));
    hide Find;
  }

  /** CRLFs before a message are taken two at a time; when their number is odd, one stays in front of the
      message and is handed on with it. */
  lemma {:induction false} KeepAlivesBefore(k: nat, m: Message, c: nat)
    requires Deliverable(m, c) && (k % 2 == 1 ==> !Misleading(m, c))
    ensures Drain(Crlfs(k) + Text(m)) == Outcome([if k % 2 == 1 then "\r\n" + Text(m) else Text(m)], "", false)
  {
    hide *;
    if k >= 2 {
      KeepAlivesBefore(k - 2, m, c);
      TwoInFront(k, Text(m));
      KeepAliveTaken(Crlfs(k - 2) + Text(m));
    } else {
      FewInFront(Text(m));
      DeliverableIs(m, c);
      DeliveredWhole(m, c);
      if k == 1 { LedMessageDrains(m, c); }
    }
  }

  lemma TwoInFront(k: nat, x: string)
    requires k >= 2
    ensures Crlfs(k) + x == "\r\n\r\n" + (Crlfs(k - 2) + x)
  {
    CrlfsStep(k);
    CrlfsStep(k - 1);
    hide Crlfs;
    FourInFront(Crlfs(k - 2), x);
  }

  lemma FourInFront(y: string, x: string)
    ensures CRLF + (CRLF + y) + x == "\r\n\r\n" + (y + x)
  {
    assert CRLF + CRLF == "\r\n\r\n";
    assert CRLF + (CRLF + y) + x == CRLF + CRLF + (y + x);
  }

  lemma FewInFront(x: string)
    ensures Crlfs(0) + x == x && Crlfs(1) + x == CRLF + x == "\r\n" + x
  {
    assert Crlfs(1) == CRLF;
  }

  lemma LedMessageDrains(m: Message, c: nat)
    requires Deliverable(m, c) && !Misleading(m, c)
    ensures Drain(CRLF + Text(m)) == Outcome([CRLF + Text(m)], "", false)
  {
    hide *;
    var x, e := Text(m), |HeadText(m)|;
    MessageMet(m, c, "");
    assert x + "" == x;
    AmbiguousIs(x, e);
    LedFound(x, e);
    assert CRLF + x + "" == CRLF + x;
    EmptyStream();
    DrainWhole(CRLF + x, e + 2, CRLF + x, "");
    AfterEmpty(CRLF + x);
  }

  lemma LedFound(x: string, e: nat)
    requires !(CRLF <= x) && Find(x, BLANK_LINE) == Some(e)
    ensures Find(CRLF + x, BLANK_LINE) == Some(e + 2) && |CRLF + x| == |x| + 2
  {
    BlankLineShift(x);
  }

  lemma {:induction false} CrlfsLength(k: nat)
    ensures |Crlfs(k)| == 2 * k
  {
    if k > 0 { CrlfsLength(k - 1); }
  }
}

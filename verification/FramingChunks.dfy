/** Delivery does not depend on how the stream is cut into reads, exactly for the benign streams. */
module FramingChunks {
  import opened Basics
  import opened CText
  import opened Framing

  lemma StripStops(x: string, t: string)
    requires 2 <= |x| && !(CRLF <= x)
    ensures Strip(x + t) == x + t
  {
    assert (x + t)[..2] == x[..2];
  }

  lemma StripSkips(s: string)
    ensures Strip(CRLF + s) == Strip(s)
  {
    assert (CRLF + s)[2..] == s;
  }

  lemma AfterAfter(a: seq<string>, b: seq<string>, o: Outcome)
    ensures After(a, After(b, o)) == After(a + b, o)
    ensures After([], o) == o
  {
    assert a + (b + o.delivered) == (a + b) + o.delivered;
    assert [] + o.delivered == o.delivered;
  }

  lemma AfterInjective(m: string, o: Outcome, o': Outcome)
    ensures After([m], o) == After([m], o') ==> o == o'
  {
    assert ([m] + o.delivered)[1..] == o.delivered;
    assert ([m] + o'.delivered)[1..] == o'.delivered;
  }

  lemma NormAfter(a: seq<string>, o: Outcome)
    ensures Norm(After(a, o)) == After(StripAll(a), Norm(o))
  {
    assert StripAll(a + o.delivered) == StripAll(a) + StripAll(o.delivered);
  }

  /** A blank line cannot start within one CRLF that no further CRLF follows. */
  lemma NoBlankLineAtCrlf(x: string)
    requires !(CRLF <= x)
    ensures forall j: nat | j < 2 :: !MatchAt(CRLF + x, j, BLANK_LINE)
    ensures !MatchAt(x, 0, BLANK_LINE)
  {
    var y := CRLF + x;
    if |x| >= 2 {
      assert y[0..4][2..] == x[..2];
      assert BLANK_LINE[2..] == CRLF;
    }
    if |x| >= 3 {
      assert y[1..5][0] == '\n';
    }
    if |x| >= 4 {
      assert x[0..4][..2] == x[..2];
      assert BLANK_LINE[..2] == CRLF;
    }
  }

  /** A frame found with one CRLF in front of it is the frame found without, two bytes earlier. */
  lemma BlankLineShift(x: string)
    requires !(CRLF <= x)
    ensures Find(x, BLANK_LINE) != Some(0)
    ensures Find(CRLF + x, BLANK_LINE) ==
            match Find(x, BLANK_LINE) case None => None case Some(e) => Some(2 + e)
  {
    NoBlankLineAtCrlf(x);
    FindBehind(CRLF, x, BLANK_LINE);
  }

  /** Bytes that hold a blank line, but not at once, hold at most one CRLF in front of the frame. */
  lemma LoneCrlf(b: string, e: nat)
    requires Find(b, BLANK_LINE) == Some(e) && e > 0
    ensures var x := Strip(b);
            b == (if CRLF <= b then CRLF + x else x) && 4 <= |x| && !(CRLF <= x)
            && Find(x, BLANK_LINE) == Some(e - (|b| - |x|))
  {
    if CRLF <= b {
      var x := b[2..];
      assert b == CRLF + x;
      assert !MatchAt(b, 0, BLANK_LINE);
      BlankLineShift(x);
    }
  }

  /** Further bytes do not change a frame that is already there. */
  lemma FrameStays(x: string, e: nat, t: string)
    requires !(CRLF <= x) && Find(x, BLANK_LINE) == Some(e)
    ensures Strip(x + t) == x + t
    ensures Find(x + t, BLANK_LINE) == Some(e)
    ensures LengthAt(x + t, e) == LengthAt(x, e)
    ensures LengthAt(CRLF + (x + t), e + 2) == LengthAt(CRLF + x, e + 2)
  {
    StripStops(x, t);
    FindExtends(x, t, BLANK_LINE);
    assert (x + t)[..e] == x[..e];
    assert (CRLF + (x + t))[..e + 2] == (CRLF + x)[..e + 2];
  }

  /** A CRLF in front of a stream changes nothing, except that it may make the first frame ambiguous. */
  lemma SkipCrlf(s: string)
    ensures Parse(CRLF + s) == Parse(s)
    ensures Benign(CRLF + s) ==> Benign(s)
    ensures Benign(CRLF + (CRLF + s)) == Benign(CRLF + s)
  {
    StripSkips(s);
    StripSkips(CRLF + s);
    assert BenignFrame(Strip(s), true) ==> BenignFrame(Strip(s), false);
  }

  lemma EmptyStream()
    ensures Parse("") == Outcome([], "", false)
    ensures Benign("")
    ensures NextStep("") == Starved && Drain("") == Outcome([], "", false)
  {
  }

  lemma SkipKeepAlive(b: string, t: string)
    requires BLANK_LINE <= b
    ensures Parse(b + t) == Parse(b[4..] + t)
    ensures Benign(b + t) ==> Benign(b[4..] + t)
  {
    hide ParseFrame, BenignFrame;
    assert b + t == CRLF + (CRLF + (b[4..] + t));
    SkipCrlf(CRLF + (b[4..] + t));
    SkipCrlf(b[4..] + t);
  }

  /** The frame at the front of `b`, seen with the bytes `t` behind it: its length, read by the loop
      in the buffer and by the batch reading behind the CRLFs. */
  lemma FrameInStream(b: string, e: nat, t: string) returns (x: string, off: nat)
    requires Find(b, BLANK_LINE) == Some(e) && e > 0
    ensures x == Strip(b) && off == |b| - |x| && off <= e && 4 <= |x| && !(CRLF <= x)
    ensures Strip(b + t) == x + t && Find(x + t, BLANK_LINE) == Some(e - off)
    ensures LengthAt(b, e) == if CRLF <= b + t then LengthAt(CRLF + (x + t), e - off + 2) else LengthAt(x + t, e - off)
    ensures off == if CRLF <= b + t then 2 else 0
    ensures b == if off == 2 then CRLF + x else x
  {
    LoneCrlf(b, e);
    hide LengthAt, Find, Strip;
    x := Strip(b);
    off := |b| - |x|;
    FrameStays(x, e - off, t);
    if CRLF <= b {
      LedStream(x, t);
    } else {
      BareStream(x, t);
    }
  }

  lemma LedStream(x: string, t: string)
    ensures CRLF + x + t == CRLF + (x + t) && CRLF <= CRLF + x + t && Strip(CRLF + x + t) == Strip(x + t)
  {
    StripSkips(x + t);
    hide Strip;
    assert CRLF + x + t == CRLF + (x + t);
  }

  lemma BareStream(x: string, t: string)
    requires 2 <= |x| && !(CRLF <= x)
    ensures !(CRLF <= x + t)
  {
    assert (x + t)[..2] == x[..2];
  }

  /** Cutting `n` bytes off the buffer cuts as many off the stream, less the CRLF in front. */
  lemma CutFrame(b: string, x: string, off: nat, n: nat, t: string)
    requires (off == 0 && b == x) || (off == 2 && b == CRLF + x)
    requires off + 4 <= n <= |b| && !(CRLF <= x)
    ensures (x + t)[..n - off] == x[..n - off]
    ensures b[n..] + t == (x + t)[n - off..]
    ensures Strip(b[..n]) == x[..n - off]
  {
    assert x[..n - off][..2] == x[..2];
    if off == 2 {
      assert b[..n] == CRLF + x[..n - off];
      StripSkips(x[..n - off]);
    }
  }

  /** The batch reading of a stream whose first frame has its blank line at `e`. */
  lemma ParseAt(s: string, y: string, e: nat)
    requires y == Strip(s) && Find(y, BLANK_LINE) == Some(e)
    ensures Parse(s) == match LengthAt(y, e)
                        case Undefined => Outcome([], "", true)
                        case Negative => Outcome([], "", false)
                        case Known(n) => if e + 4 + n > |y| then Outcome([], y, false)
                                         else After([y[..e + 4 + n]], Parse(y[e + 4 + n..]))
  {
    hide LengthAt;
  }

  lemma BenignAt(s: string, y: string, e: nat)
    requires y == Strip(s) && Find(y, BLANK_LINE) == Some(e)
    ensures Benign(s) <==>
              && (CRLF <= s && Ambiguous(y, e) ==>
                    !Completes(LengthAt(y, e), e, y) && !Completes(LengthAt(CRLF + y, e + 2), e, y))
              && match LengthAt(y, e)
                 case Undefined => true
                 case Negative => |y| == e + 4
                 case Known(n) => e + 4 + n <= |y| ==> Benign(y[e + 4 + n..])
  {
    hide LengthAt, Ambiguous, Completes;
  }

  /** The two readings of the length of a complete first frame agree in a benign stream. */
  lemma BenignLength(s: string, y: string, e: nat)
    requires y == Strip(s) && Find(y, BLANK_LINE) == Some(e) && Benign(s)
    ensures CRLF <= s && (Completes(LengthAt(y, e), e, y) || Completes(LengthAt(CRLF + y, e + 2), e, y)) ==>
              LengthAt(y, e) == LengthAt(CRLF + y, e + 2)
  {
    BenignAt(s, y, e);
    hide LengthAt, Completes, Strip, Find, Benign;
  }

  /** The first message of a stream and the rest of it. */
  lemma FirstMessage(s: string, y: string, e: nat, m: nat)
    requires y == Strip(s) && Find(y, BLANK_LINE) == Some(e) && e + 4 <= m <= |y| && LengthAt(y, e) == Known(m - e - 4)
    ensures Parse(s) == After([y[..m]], Parse(y[m..]))
    ensures Benign(s) ==> Benign(y[m..])
  {
    hide *;
    ParseAt(s, y, e);
    BenignAt(s, y, e);
  }

  /** What the loop reads in its buffer, the batch reading reads in a benign stream. */
  lemma FrameSeen(b: string, e: nat, t: string) returns (x: string, off: nat)
    requires Find(b, BLANK_LINE) == Some(e) && e > 0 && Benign(b + t)
    ensures ((off == 0 && b == x) || (off == 2 && b == CRLF + x)) && |b| == off + |x|
    ensures off <= e && 4 <= |x| && !(CRLF <= x)
    ensures Strip(b + t) == x + t && Find(x + t, BLANK_LINE) == Some(e - off)
    ensures Completes(LengthAt(b, e), e - off, x + t) ==> LengthAt(x + t, e - off) == LengthAt(b, e)
  {
    hide LengthAt, Completes, Strip, Find, Benign;
    x, off := FrameInStream(b, e, t);
    BenignLength(b + t, x + t, e - off);
  }

  lemma StepFound(b: string)
    requires !NextStep(b).Starved? && !NextStep(b).KeepAlive?
    ensures Find(b, BLANK_LINE).Some? && Find(b, BLANK_LINE).value + 4 <= |b|
    ensures var e := Find(b, BLANK_LINE).value;
            e > 0 && LengthAt(b, e) == match NextStep(b)
                                       case Frame(n) => if n >= e + 4 then Known(n - e - 4) else Undefined
                                       case Discard => Negative
                                       case _ => Undefined
    ensures NextStep(b).Frame? ==> Find(b, BLANK_LINE).value + 4 <= NextStep(b).len <= |b|
  {
    hide LengthAt, Find;
  }

  /** One turn of the loop that delivers a message does one turn of the batch reading. */
  lemma FrameParses(b: string, t: string)
    requires NextStep(b).Frame? && Benign(b + t)
    ensures var n := NextStep(b).len;
            Parse(b + t) == After([Strip(b[..n])], Parse(b[n..] + t)) && Benign(b[n..] + t)
  {
    hide *;
    StepFound(b);
    var n := NextStep(b).len;
    var e := Find(b, BLANK_LINE).value;
    var x, off := FrameSeen(b, e, t);
    CutFrame(b, x, off, n, t);
    CompletesIs(LengthAt(b, e), e - off, x + t);
    FirstMessage(b + t, x + t, e - off, n - off);
  }

  lemma CompletesIs(len: Length, e: nat, x: string)
    ensures Completes(len, e, x) <==> (len.Known? ==> e + 4 + len.n <= |x|)
  {
  }

  /** A negative length met in a benign stream ends it; undefined behaviour is met by both readings. */
  lemma DiscardParses(b: string, t: string)
    requires NextStep(b).Discard? || NextStep(b).Fault?
    requires Benign(b + t)
    ensures Parse(b + t) == Drain(b)
    ensures NextStep(b).Discard? ==> t == ""
  {
    hide *;
    StepFound(b);
    DrainTurn(b);
    var e := Find(b, BLANK_LINE).value;
    var x, off := FrameSeen(b, e, t);
    CompletesIs(LengthAt(b, e), e - off, x + t);
    ParseAt(b + t, x + t, e - off);
    NegativeLast(b + t, x + t, e - off);
  }

  lemma NegativeLast(s: string, y: string, e: nat)
    requires y == Strip(s) && Find(y, BLANK_LINE) == Some(e) && Benign(s)
    ensures LengthAt(y, e).Negative? ==> |y| == e + 4
  {
    hide *;
    BenignAt(s, y, e);
  }

  lemma DrainTurn(b: string)
    ensures match NextStep(b)
            case Starved => Drain(b) == Outcome([], if b == CRLF then "" else b, false)
            case KeepAlive => BLANK_LINE <= b && Drain(b) == Drain(b[4..])
            case Discard => Drain(b) == Outcome([], "", false)
            case Fault => Drain(b) == Outcome([], "", true)
            case Frame(n) => Drain(b) == After([b[..n]], Drain(b[n..]))
  {
    hide LengthAt;
  }

  /** One pass of the receiver over the bytes `b` does the first part of the batch reading of whatever
      follows, and leaves a benign remainder. */
  lemma {:induction false} DrainParses(b: string, t: string)
    requires Benign(b + t)
    ensures var o := Drain(b);
            if o.fault then Parse(b + t) == Norm(o)
            else Parse(b + t) == After(StripAll(o.delivered), Parse(o.rest + t)) && Benign(o.rest + t)
    decreases |b|
  {
    DrainTurn(b);
    hide LengthAt, Parse, Benign, NextStep, Drain, Strip;
    match NextStep(b)
    case Starved =>
      if b == CRLF { SkipCrlf(t); assert "" + t == t; }
      AfterAfter([], [], Parse(Drain(b).rest + t));
    case KeepAlive =>
      SkipKeepAlive(b, t);
      DrainParses(b[4..], t);
    case Frame(n) =>
      FrameParses(b, t);
      DrainParses(b[n..], t);
      var o := Drain(b[n..]);
      assert StripAll([b[..n]] + o.delivered) == [Strip(b[..n])] + StripAll(o.delivered);
      AfterAfter([Strip(b[..n])], StripAll(o.delivered), Parse(o.rest + t));
    case _ =>
      DiscardParses(b, t);
      EmptyStream();
      assert "" + t == t;
  }

  /** Bytes on which the loop stops hold no complete message for the batch reading either. */
  lemma StarvedParses(b: string)
    requires NextStep(b).Starved? && Benign(b)
    ensures Parse(b) == Outcome([], Strip(b), false)
  {
    hide LengthAt;
    match Find(b, BLANK_LINE)
    case None =>
      if CRLF <= b {
        var x := b[2..];
        assert b == CRLF + x;
        FindIsFirst(b, 0, BLANK_LINE, None);
        assert !MatchAt(b, 0, BLANK_LINE);
        BlankLineShift(x);
      }
    case Some(e) =>
      var x, off := FrameInStream(b, e, "");
      assert b + "" == b && x + "" == x;
  }

  /** What a pass keeps holds nothing the loop could take. */
  lemma {:induction false} DrainSettles(b: string)
    ensures NextStep(Drain(b).rest).Starved?
    decreases |b|
  {
    hide LengthAt;
    match NextStep(b)
    case KeepAlive => DrainSettles(b[4..]);
    case Frame(n) => DrainSettles(b[n..]);
    case _ =>
  }

  /** Any reads of a benign stream deliver what the batch reading of the stream does. */
  lemma {:induction false} ReceiveParses(rest: string, chunks: seq<string>)
    requires NextStep(rest).Starved? && Benign(rest + Concat(chunks))
    ensures Norm(Receive(rest, chunks)) == Parse(rest + Concat(chunks))
    decreases |chunks|
  {
    hide LengthAt, NextStep, Drain, Parse, Benign;
    if chunks == [] {
      assert rest + "" == rest;
      StarvedParses(rest);
    } else {
      var c := chunks[0];
      var more := Concat(chunks[1..]);
      var o := Drain(rest + c);
      assert rest + (c + more) == (rest + c) + more;
      DrainParses(rest + c, more);
      DrainSettles(rest + c);
      if !o.fault {
        ReceiveParses(o.rest, chunks[1..]);
        NormAfter(o.delivered, Receive(o.rest, chunks[1..]));
      }
    }
  }

  // ----- streams that are not benign are read differently when cut differently -----

  lemma DrainKeepAlive(y: string)
    ensures Drain(BLANK_LINE + y) == Drain(y)
  {
    hide LengthAt;
    assert (BLANK_LINE + y)[0..4] == BLANK_LINE;
    assert (BLANK_LINE + y)[4..] == y;
  }

  /** CRLFs in front of `y` are eaten in pairs; one may be left. */
  lemma {:induction false} DrainLed(p: string, y: string)
    requires Strip(p) == ""
    ensures Strip(p + y) == Strip(y)
    ensures Drain(p + y) == Drain(y) || (p != "" && Drain(p + y) == Drain(CRLF + y))
    ensures Drain(p) == Outcome([], "", false)
    decreases |p|
  {
    if p == "" {
      assert p + y == y;
    } else if p == CRLF {
      StripSkips(y);
    } else {
      hide Drain;
      var q := p[4..];
      assert p[2..] == CRLF + q;
      assert p == BLANK_LINE + q && p + y == BLANK_LINE + (q + y);
      assert p + y == CRLF + (CRLF + (q + y));
      StripSkips(CRLF + (q + y));
      StripSkips(q + y);
      DrainKeepAlive(q);
      DrainKeepAlive(q + y);
      DrainLed(q, y);
    }
  }

  /** What one pass makes of a frame at the very front of the buffer. */
  lemma DrainFrame(x: string, e: nat)
    requires Find(x, BLANK_LINE) == Some(e) && e > 0
    ensures Drain(x) == match LengthAt(x, e)
                        case Undefined => Outcome([], "", true)
                        case Negative => Outcome([], "", false)
                        case Known(n) => if e + 4 + n > |x| then Outcome([], x, false)
                                         else After([x[..e + 4 + n]], Drain(x[e + 4 + n..]))
  {
    hide LengthAt;
    assert x != CRLF;
  }

  /** `s` is its leading CRLFs and the rest. */
  lemma {:induction false} SplitLed(s: string) returns (p: string)
    ensures s == p + Strip(s) && Strip(p) == "" && (p != "" <==> CRLF <= s)
    ensures p != "" ==> CRLF <= p
    decreases |s|
  {
    if CRLF <= s {
      var q := SplitLed(s[2..]);
      p := CRLF + q;
      assert s == CRLF + s[2..];
      StripSkips(q);
    } else {
      p := "";
    }
  }

  lemma OneRead(s: string)
    ensures Receive("", [s]) == Drain(s)
    ensures s != "" ==> Cuts([s], s)
  {
    hide Drain;
    assert "" + s == s && s + "" == s && [s][1..] == [];
    assert Concat([s]) == s;
    var o := Drain(s);
    assert o.delivered + [] == o.delivered;
  }

  lemma TwoReads(a: string, b: string)
    requires Drain(a) == Outcome([], "", false)
    ensures Receive("", [a, b]) == Drain(b)
    ensures a != "" && b != "" ==> Cuts([a, b], a + b)
  {
    hide Drain;
    assert "" + a == a && b + "" == b;
    assert [a, b][1..] == [b];
    OneRead(b);
    AfterAfter([], [], Drain(b));
  }

  lemma FirstDelivered(x: string, e: nat, off: nat)
    requires !(CRLF <= x) && Find(x, BLANK_LINE) == Some(e)
    requires off == 0 || off == 2
    ensures var b := if off == 2 then CRLF + x else x;
            var len := LengthAt(b, off + e);
            var o := Norm(Drain(b));
            match len
            case Undefined => o == Outcome([], "", true)
            case Negative => o == Outcome([], "", false)
            case Known(n) =>
              if Completes(len, e, x) then |o.delivered| > 0 && o.delivered[0] == x[..e + 4 + n]
              else o == Outcome([], x, false)
  {
    hide LengthAt, Drain;
    BlankLineShift(x);
    var b := if off == 2 then CRLF + x else x;
    DrainFrame(b, off + e);
    if off == 2 { StripSkips(x); }
    var len := LengthAt(b, off + e);
    if len.Known? && Completes(len, e, x) {
      var m := off + e + 4 + len.n;
      CutFrame(b, x, off, m, "");
      NormAfter([b[..m]], Drain(b[m..]));
    }
  }

  /** Two different readings of the length of one frame, one of them complete, have different
      outcomes. */
  lemma ReadingsDiffer(x: string, e: nat)
    requires !(CRLF <= x) && Find(x, BLANK_LINE) == Some(e) && Ambiguous(x, e)
    requires Completes(LengthAt(x, e), e, x) || Completes(LengthAt(CRLF + x, e + 2), e, x)
    ensures Norm(Drain(x)) != Norm(Drain(CRLF + x))
  {
    hide LengthAt, Drain;
    FirstDelivered(x, e, 0);
    FirstDelivered(x, e, 2);
    var len, len' := LengthAt(x, e), LengthAt(CRLF + x, 2 + e);
    assert x != "";
    if len.Known? && len'.Known? && Completes(len, e, x) && Completes(len', e, x) {
      assert |x[..e + 4 + len.n]| != |x[..e + 4 + len'.n]|;
    }
  }

  /** An ambiguous frame behind CRLFs: one cut leaves a CRLF in front of it, another does not. */
  lemma CutAmbiguous(p: string, x: string, e: nat) returns (c1: seq<string>, c2: seq<string>)
    requires CRLF <= p && Strip(p) == ""
    requires !(CRLF <= x) && Find(x, BLANK_LINE) == Some(e) && Ambiguous(x, e)
    requires Completes(LengthAt(x, e), e, x) || Completes(LengthAt(CRLF + x, e + 2), e, x)
    ensures Cuts(c1, p + x) && Cuts(c2, p + x)
    ensures Norm(Receive("", c1)) != Norm(Receive("", c2))
  {
    hide *;
    ReadingsDiffer(x, e);
    DrainLed(p, x);
    LedParts(p);
    BlankLineInside(x, e);
    c1 := [p, x];
    TwoReads(p, x);
    var q := p[2..];
    LedCommutes(q);
    Regroup(q, x);
    if q == "" {
      c2 := [CRLF + x];
      assert q + (CRLF + x) == CRLF + x;
      OneRead(CRLF + x);
    } else {
      c2 := [q, CRLF + x];
      DrainLed(q, x);
      TwoReads(q, CRLF + x);
    }
  }

  lemma LedParts(p: string)
    requires CRLF <= p && Strip(p) == ""
    ensures p != "" && |p| >= 2 && p == CRLF + p[2..] && Strip(p[2..]) == ""
  {
  }

  lemma BlankLineInside(x: string, e: nat)
    requires Find(x, BLANK_LINE) == Some(e)
    ensures x != "" && CRLF + x != ""
  {
  }

  lemma Regroup(q: string, x: string)
    ensures q + CRLF + x == q + (CRLF + x)
  {
  }

  lemma {:induction false} LedCommutes(q: string)
    requires Strip(q) == ""
    ensures CRLF + q == q + CRLF
    decreases |q|
  {
    if q != "" {
      LedCommutes(q[2..]);
      assert q == CRLF + q[2..];
      assert CRLF + q == CRLF + (q[2..] + CRLF) == q + CRLF;
    }
  }

  /** After a negative length, what follows in the same read is lost; in a read of its own, kept. */
  lemma CutNegative(p: string, x: string, e: nat) returns (c1: seq<string>, c2: seq<string>)
    requires Strip(p) == "" && !(CRLF <= x) && Find(x, BLANK_LINE) == Some(e)
    requires LengthAt(x, e).Negative? && (p == "" || !Ambiguous(x, e)) && |x| > e + 4
    ensures Cuts(c1, p + x) && Cuts(c2, p + x)
    ensures Norm(Receive("", c1)) != Norm(Receive("", c2))
  {
    hide LengthAt, Drain, Receive, Cuts;
    var y, last := x[..|x| - 1], x[|x| - 1..];
    assert x == y + last && y[..e + 4] == x[..e + 4];
    NegativeDiscards(p, x, e);
    FindExtendsBack(y, last, e);
    assert y[..e] == x[..e] && (CRLF + y)[..e + 2] == (CRLF + x)[..e + 2];
    SameHead(x, y, e);
    NegativeDiscards(p, y, e);
    assert (p + y) + last == p + x;
    c1 := [p + x];
    OneRead(p + x);
    c2 := [p + y, last];
    TwoReads(p + y, last);
    SingleStays(last);
  }

  lemma SameHead(x: string, y: string, e: nat)
    requires e <= |x| && e <= |y| && x[..e] == y[..e]
    ensures LengthAt(x, e) == LengthAt(y, e)
    ensures LengthAt(CRLF + x, e + 2) == LengthAt(CRLF + y, e + 2)
  {
    assert (CRLF + x)[..e + 2] == CRLF + x[..e];
    assert (CRLF + y)[..e + 2] == CRLF + y[..e];
  }

  lemma FindExtendsBack(y: string, t: string, e: nat)
    requires Find(y + t, BLANK_LINE) == Some(e) && e + 4 <= |y|
    ensures Find(y, BLANK_LINE) == Some(e)
  {
    FindIsFirst(y + t, 0, BLANK_LINE, Some(e));
    forall j: nat | j <= e ensures MatchAt(y + t, j, BLANK_LINE) == MatchAt(y, j, BLANK_LINE) {
      assert (y + t)[j..j + 4] == y[j..j + 4];
    }
    FindIsFirst(y, 0, BLANK_LINE, Some(e));
  }

  lemma NegativeDiscards(p: string, x: string, e: nat)
    requires Strip(p) == "" && !(CRLF <= x) && Find(x, BLANK_LINE) == Some(e)
    requires LengthAt(x, e).Negative? && (p == "" || !Ambiguous(x, e))
    ensures Drain(p + x) == Outcome([], "", false)
  {
    hide LengthAt, Drain;
    BlankLineShift(x);
    DrainLed(p, x);
    DrainFrame(x, e);
    DrainFrame(CRLF + x, e + 2);
  }

  lemma SingleStays(c: string)
    requires |c| == 1
    ensures Drain(c) == Outcome([], c, false) && Strip(c) == c
  {
  }

  /** A frame `f`, read together with whatever follows it. */
  lemma LedFrameDrains(p: string, f: string, e: nat, d: string) returns (msg: string)
    requires Strip(p) == "" && !(CRLF <= f) && Find(f, BLANK_LINE) == Some(e)
    requires LengthAt(f, e).Known? && |f| == e + 4 + LengthAt(f, e).n && (p == "" || !Ambiguous(f, e))
    ensures Drain(p + f + d) == After([msg], Drain(d)) && Strip(msg) == f
  {
    hide LengthAt, Drain, Find, Strip;
    assert p + f + d == p + (f + d);
    var y := f + d;
    FrameStays(f, e, d);
    assert !(CRLF <= y);
    DrainLed(p, y);
    BlankLineShift(y);
    if Drain(p + y) == Drain(y) {
      DrainWhole(y, e, f, d);
      StripOnce(f);
      msg := f;
    } else {
      assert CRLF + y == (CRLF + f) + d;
      DrainWhole(CRLF + y, e + 2, CRLF + f, d);
      StripSkips(f);
      StripOnce(f);
      msg := CRLF + f;
    }
  }

  lemma StripOnce(f: string)
    requires !(CRLF <= f)
    ensures Strip(f) == f
  {
  }

  /** A frame that is just the bytes `f` comes out of a buffer that it begins. */
  lemma DrainWhole(y: string, e: nat, f: string, d: string)
    requires Find(y, BLANK_LINE) == Some(e) && e > 0 && y == f + d
    requires LengthAt(y, e).Known? && |f| == e + 4 + LengthAt(y, e).n
    ensures Drain(y) == After([f], Drain(d))
  {
    DrainFrame(y, e);
    hide LengthAt, Find, Drain;
    assert y[..|f|] == f && y[|f|..] == d;
  }

  lemma CutsPrepend(q: string, chunks: seq<string>, rest: string)
    requires Cuts(chunks, rest) && chunks != []
    ensures Cuts([q + chunks[0]] + chunks[1..], q + rest)
  {
    var c := [q + chunks[0]] + chunks[1..];
    assert c[1..] == chunks[1..];
    assert q + chunks[0] + Concat(chunks[1..]) == q + (chunks[0] + Concat(chunks[1..]));
    assert forall i | 0 <= i < |c| :: c[i] == if i == 0 then q + chunks[0] else chunks[i];
    forall i | 0 <= i < |chunks| ensures |chunks[i]| > 0 {
      assert chunks[i] in chunks;
    }
  }

  lemma ReceivePrepend(q: string, chunks: seq<string>, msg: string)
    requires chunks != [] && Drain(q + chunks[0]) == After([msg], Drain(chunks[0]))
    ensures Receive("", [q + chunks[0]] + chunks[1..]) == After([msg], Receive("", chunks))
  {
    hide Drain;
    var d, more := chunks[0], chunks[1..];
    assert ([q + d] + more)[1..] == more;
    assert "" + d == d && "" + (q + d) == q + d;
    AfterAfter([msg], Drain(d).delivered, Receive(Drain(d).rest, more));
  }

  /** The first message of a stream comes out of the first read that holds it whole, whatever else
      that read holds. */
  lemma PrependFrame(p: string, f: string, e: nat, rest: string, chunks: seq<string>)
    requires Strip(p) == "" && !(CRLF <= f) && Find(f, BLANK_LINE) == Some(e)
    requires LengthAt(f, e).Known? && |f| == e + 4 + LengthAt(f, e).n && (p == "" || !Ambiguous(f, e))
    requires Cuts(chunks, rest) && chunks != []
    ensures var c := [p + f + chunks[0]] + chunks[1..];
            Cuts(c, p + f + rest) && Norm(Receive("", c)) == After([f], Norm(Receive("", chunks)))
  {
    hide LengthAt, Drain, Strip, Receive, Cuts, Find, Ambiguous;
    var msg := LedFrameDrains(p, f, e, chunks[0]);
    CutsPrepend(p + f, chunks, rest);
    ReceivePrepend(p + f, chunks, msg);
    NormAfter([msg], Receive("", chunks));
    assert StripAll([msg]) == [f];
  }

  /** A stream that is not benign can be cut in two ways that deliver different messages, or keep
      different bytes. */
  lemma {:induction false} TwoCuts(s: string) returns (c1: seq<string>, c2: seq<string>)
    requires !Benign(s)
    ensures Cuts(c1, s) && Cuts(c2, s)
    ensures Norm(Receive("", c1)) != Norm(Receive("", c2))
    decreases |s|
  {
    hide LengthAt, Drain, Receive, Ambiguous, Cuts;
    var x := Strip(s);
    var p := SplitLed(s);
    var e := Find(x, BLANK_LINE).value;
    var len := LengthAt(x, e);
    if p != "" && Ambiguous(x, e) && (Completes(len, e, x) || Completes(LengthAt(CRLF + x, e + 2), e, x)) {
      c1, c2 := CutAmbiguous(p, x, e);
    } else if len.Negative? {
      c1, c2 := CutNegative(p, x, e);
    } else {
      var m := e + 4 + len.n;
      var d1, d2 := TwoCuts(x[m..]);
      c1, c2 := CutLater(p, x, e, m, d1, d2);
    }
  }

  lemma CutLater(p: string, x: string, e: nat, m: nat, d1: seq<string>, d2: seq<string>)
    returns (c1: seq<string>, c2: seq<string>)
    requires Strip(p) == "" && !(CRLF <= x) && Find(x, BLANK_LINE) == Some(e) && (p == "" || !Ambiguous(x, e))
    requires LengthAt(x, e).Known? && m == e + 4 + LengthAt(x, e).n && m <= |x|
    requires Cuts(d1, x[m..]) && Cuts(d2, x[m..])
    requires Norm(Receive("", d1)) != Norm(Receive("", d2))
    ensures Cuts(c1, p + x) && Cuts(c2, p + x)
    ensures Norm(Receive("", c1)) != Norm(Receive("", c2))
  {
    hide LengthAt, Strip, Find;
    var f, rest := x[..m], x[m..];
    assert x == f + rest && p + f + rest == p + x;
    FindExtendsBack(f, rest, e);
    assert f[..e] == x[..e];
    SameHead(f, x, e);
    assert forall i | 0 <= i < |d1| :: d1[i] in d1;
    assert forall i | 0 <= i < |d2| :: d2[i] in d2;
    hide Receive;
    c1 := [p + f + d1[0]] + d1[1..];
    c2 := [p + f + d2[0]] + d2[1..];
    hide Cuts;
    PrependFrame(p, f, e, rest, d1);
    PrependFrame(p, f, e, rest, d2);
    AfterInjective(f, Norm(Receive("", d1)), Norm(Receive("", d2)));
  }

  /** The receiver delivers a stream independently of how it is cut into reads, up to CRLFs in front
      of messages, if and only if the stream is benign; it is then the batch reading. */
  lemma ChunkingTheorem(s: string)
    ensures Benign(s) <==> forall c1, c2 | Cuts(c1, s) && Cuts(c2, s) :: Norm(Receive("", c1)) == Norm(Receive("", c2))
    ensures Benign(s) ==> forall c | Cuts(c, s) :: Norm(Receive("", c)) == Parse(s)
  {
    hide Benign, Receive, Parse;
    if Benign(s) {
      forall c | Cuts(c, s) ensures Norm(Receive("", c)) == Parse(s) {
        assert "" + s == s;
        ReceiveParses("", c);
      }
    } else {
      var c1, c2 := TwoCuts(s);
    }
  }
}

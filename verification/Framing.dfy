/** How SIP messages are cut out of the bytes received on a TCP or TLS connection. */
module Framing {
  import opened Basics
  import opened CText

  /** What the Content-Length search makes of a header section. `Undefined` stands for the two inputs
      on which the C code has no defined meaning: a label without any colon after it (`strchr` returns
      NULL) and a number that does not fit `int`. */
  datatype Length = Undefined | Negative | Known(n: nat)

  /** The spellings searched for, in this order, each after a CRLF. */
  const LABELS: seq<string> := ["content-length:", "content-length ", "l:", "l "]

  function FirstLabel(head: string, labels: seq<string>): (r: Option<nat>)
    ensures r.Some? ==> r.value < |head|
  {
    if labels == [] then None
    else match FindNoCase(head, CRLF + labels[0])
      case Some(i) => Some(i)
      case None => FirstLabel(head, labels[1..])
  }

  /** The number behind the first colon. */
  function LengthBehindColon(s: string): Length {
    match FindChar(s, ':')
    case None => Undefined
    case Some(c) =>
      match Atoi(s[c + 1..])
      case None => Undefined
      case Some(v) => if v < 0 then Negative else Known(v)
  }

  /** The body length that the C string `head` announces; no label at all means 0. */
  function DeclaredLength(head: string): Length {
    match FirstLabel(head, LABELS)
    case None => Known(0)
    case Some(i) => LengthBehindColon(head[i..])
  }

  /** The length read in a buffer whose blank line stands at `e`, where a NUL has been stuffed. */
  function LengthAt(b: string, e: nat): Length
    requires e <= |b|
  {
    DeclaredLength(CString(b[..e]))
  }

  datatype Step = Starved | KeepAlive | Frame(len: nat) | Discard | Fault

  /** What one turn of the extraction loop does with the bytes `b`. */
  function NextStep(b: string): (s: Step)
    ensures s.Frame? ==> 4 < s.len <= |b|
    ensures s.KeepAlive? ==> 4 <= |b|
  {
    match Find(b, BLANK_LINE)
    case None => Starved
    case Some(e) =>
      if e == 0 then KeepAlive
      else match LengthAt(b, e)
        case Undefined => Fault
        case Negative => Discard
        case Known(n) => if e + 4 + n > |b| then Starved else Frame(e + 4 + n)
  }

  /** The messages handed on, the bytes kept for the next read, and whether the code hit undefined
      behaviour. */
  datatype Outcome = Outcome(delivered: seq<string>, rest: string, fault: bool)

  function After(messages: seq<string>, o: Outcome): Outcome {
    Outcome(messages + o.delivered, o.rest, o.fault)
  }

  /** The whole extraction loop on the bytes `b`, with the lone CRLF eaten behind it. */
  function Drain(b: string): Outcome
    decreases |b|
  {
    match NextStep(b)
    case Starved => Outcome([], if b == CRLF then "" else b, false)
    case KeepAlive => Drain(b[4..])
    case Discard => Outcome([], "", false)
    case Fault => Outcome([], "", true)
    case Frame(n) => After([b[..n]], Drain(b[n..]))
  }

  /** Successive reads, each appended to what the previous one kept. */
  function Receive(rest: string, chunks: seq<string>): Outcome
    decreases |chunks|
  {
    if chunks == [] then Outcome([], rest, false)
    else
      var o := Drain(rest + chunks[0]);
      if o.fault then o else After(o.delivered, Receive(o.rest, chunks[1..]))
  }

  // ----- what the receiver is meant to do, on a whole stream -----

  /** `s` without the CRLFs in front of it. */
  function Strip(s: string): (r: string)
    ensures |r| <= |s|
    ensures !(CRLF <= r)
  {
    if CRLF <= s then Strip(s[2..]) else s
  }

  function StripAll(messages: seq<string>): (r: seq<string>)
    ensures |r| == |messages|
  {
    seq(|messages|, i requires 0 <= i < |messages| => Strip(messages[i]))
  }

  /** An outcome with leading CRLFs disregarded, in each message and in the bytes kept. */
  function Norm(o: Outcome): Outcome {
    Outcome(StripAll(o.delivered), Strip(o.rest), o.fault)
  }

  /** The batch reading: skip CRLFs, take one message, go on behind it. */
  function Parse(s: string): Outcome
    decreases |s|, 1
  {
    ParseFrame(Strip(s))
  }

  function ParseFrame(x: string): Outcome
    decreases |x|, 0
  {
    match Find(x, BLANK_LINE)
    case None => Outcome([], x, false)
    case Some(e) =>
      match LengthAt(x, e)
      case Undefined => Outcome([], "", true)
      case Negative => Outcome([], "", false)
      case Known(n) =>
        if e + 4 + n > |x| then Outcome([], x, false)
        else After([x[..e + 4 + n]], Parse(x[e + 4 + n..]))
  }

  /** The frame starting at `x`, with its blank line at `e`, is decided by the bytes of `x`. */
  predicate Completes(len: Length, e: nat, x: string) {
    len.Known? ==> e + 4 + len.n <= |x|
  }

  /** A frame whose length depends on whether one of the CRLFs before it is still in the buffer: its
      first line looks like a length header. */
  predicate Ambiguous(x: string, e: nat)
    requires e <= |x|
  {
    LengthAt(x, e) != LengthAt(CRLF + x, e + 2)
  }

  /** Streams on which the bounds of the reads do not matter: no frame behind a CRLF is ambiguous
      (unless it never completes), and a negative length ends the stream. */
  predicate Benign(s: string)
    decreases |s|, 1
  {
    BenignFrame(Strip(s), CRLF <= s)
  }

  predicate BenignFrame(x: string, behindCrlf: bool)
    decreases |x|, 0
  {
    match Find(x, BLANK_LINE)
    case None => true
    case Some(e) =>
      && (behindCrlf && Ambiguous(x, e) ==>
            !Completes(LengthAt(x, e), e, x) && !Completes(LengthAt(CRLF + x, e + 2), e, x))
      && match LengthAt(x, e)
         case Undefined => true
         case Negative => |x| == e + 4
         case Known(n) => e + 4 + n <= |x| ==> Benign(x[e + 4 + n..])
  }

  /** `chunks` is a way to cut the stream `s` into nonempty reads. */
  ghost predicate Cuts(chunks: seq<string>, s: string) {
    Concat(chunks) == s && forall c | c in chunks :: c != ""
  }
}

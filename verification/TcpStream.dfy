/** The receive buffer of one TCP or TLS connection, and the loops that fill and empty it. */
module TcpStream {
  import opened Basics
  import opened CText
  import opened Framing
  import opened FramingChunks

  const INITIAL_SIZE: nat := 8000
  const TCP_GROWTH: nat := 1000
  const TLS_GROWTH: nat := 5000

  /** What the socket holds: bytes, of which one call returns at most `limit`; nothing yet; or the end
      of the connection. */
  datatype Incoming = Bytes(pending: string, limit: nat) | WouldBlock | Closed

  /** `memchr` between `lo` and `hi`; `hi` stands for NULL. */
  method Memchr(a: array<char>, lo: nat, hi: nat, c: char) returns (p: nat)
    requires lo <= hi <= a.Length
    ensures lo <= p <= hi && (p < hi ==> a[p] == c)
    ensures forall i | lo <= i < p :: a[i] != c
  {
    p := lo;
    while p < hi && a[p] != c
      invariant lo <= p <= hi
      invariant forall i | lo <= i < p :: a[i] != c
    {
      p := p + 1;
    }
  }

  /** `buffer_find`: the first place of `needle` in the bytes from `lo` to `hi`. */
  method BufferFind(a: array<char>, lo: nat, hi: nat, needle: string) returns (r: Option<nat>)
    requires lo <= hi <= a.Length && needle != ""
    ensures r == Find(a[lo..hi], needle)
  {
    hide MatchAt, FindFrom;
    ghost var s := a[lo..hi];
    assert s == a[..][lo..hi];
    var search := lo;
    r := None;
    while search < hi
      invariant lo <= search <= hi
      invariant forall j: nat | j < search - lo :: !MatchAt(s, j, needle)
    {
      var p := Memchr(a, search, hi, needle[0]);
      forall j: nat | search - lo <= j < p - lo ensures !MatchAt(s, j, needle) {
        assert s[j] == a[lo + j];
        MatchStart(s, j, needle);
      }
      if p == hi || p + |needle| > hi {
        NoMatchBehind(s, p - lo, needle);
        break;
      }
      SliceOfSlice(a[..], lo, hi, p, p + |needle|);
      assert a[..][p..p + |needle|] == a[p..p + |needle|];
      MatchIs(s, p - lo, needle);
      if a[p..p + |needle|] == needle {
        r := Some(p - lo);
        FindIsFirst(s, 0, needle, r);
        return;
      }
      search := p + 1;
    }
    NoMatchBehind(s, |s|, needle);
    FindIsFirst(s, 0, needle, None);
  }

  lemma SliceOfSlice(s: string, lo: nat, hi: nat, i: nat, j: nat)
    requires lo <= i <= j <= hi <= |s|
    ensures s[lo..hi][i - lo..j - lo] == s[i..j]
  {
    var t, u := s[lo..hi][i - lo..j - lo], s[i..j];
    assert |t| == |u| && forall k | 0 <= k < |t| :: t[k] == s[i + k] == u[k];
  }

  lemma MatchIs(s: string, j: nat, pat: string)
    requires j + |pat| <= |s|
    ensures MatchAt(s, j, pat) <==> s[j..j + |pat|] == pat
  {
  }

  lemma MatchStart(s: string, j: nat, pat: string)
    requires j < |s| && pat != ""
    ensures MatchAt(s, j, pat) ==> s[j] == pat[0]
  {
    if MatchAt(s, j, pat) { assert s[j..j + |pat|][0] == s[j]; }
  }

  lemma NoMatchBehind(s: string, k: nat, pat: string)
    requires |s| < k + |pat|
    ensures forall j: nat | k <= j :: !MatchAt(s, j, pat)
  {
  }

  /** A NUL stuffed over the blank line ends the C string that begins with the message. */
  lemma StuffedNul(b: string, e: nat)
    requires e < |b|
    ensures CString(b[e := '\0']) == CString(b[..e])
  {
    var t := b[e := '\0'];
    match FindChar(b[..e], '\0')
    case None =>
      assert '\0' !in b[..e] by { NotFound(b[..e], '\0'); }
      assert t == b[..e] + t[e..];
      CStringIs(b[..e], t[e..]);
    case Some(i) =>
      FoundFirst(b[..e], '\0');
      assert forall k | 0 <= k <= i :: t[k] == b[..e][k];
      FindCharIsFirst(t, '\0', Some(i));
      assert t[..i] == b[..e][..i];
  }

  lemma StuffedLength(b: string, e: nat)
    requires e < |b|
    ensures DeclaredLength(CString(b[e := '\0'])) == LengthAt(b, e)
  {
    hide DeclaredLength, CString;
    StuffedNul(b, e);
  }

  lemma StepIs(b: string)
    ensures NextStep(b) == match Find(b, BLANK_LINE)
                           case None => Starved
                           case Some(e) =>
                             if e == 0 then KeepAlive
                             else match LengthAt(b, e)
                               case Undefined => Fault
                               case Negative => Discard
                               case Known(n) => if e + 4 + n > |b| then Starved else Frame(e + 4 + n)
  {
    hide LengthAt, Find;
  }

  lemma {:induction false} NotFound(s: string, c: char)
    requires FindChar(s, c) == None
    ensures c !in s
  {
    if s != "" { NotFound(s[1..], c); }
  }

  lemma {:induction false} FoundFirst(s: string, c: char)
    requires FindChar(s, c).Some?
    ensures s[FindChar(s, c).value] == c && forall k | 0 <= k < FindChar(s, c).value :: s[k] != c
  {
    if s[0] != c { FoundFirst(s[1..], c); }
  }

  class Stream {
    var buf: array?<char>
    var buflen: nat
    const growth: nat
    /** The messages handed to the transaction layer so far. */
    var delivered: seq<string>

    ghost predicate Valid()
      reads this, buf
    {
      && growth > 0
      && (buf == null ==> buflen == 0)
      && (buf != null ==> buflen <= buf.Length && INITIAL_SIZE <= buf.Length)
    }

    /** The bytes received and not consumed. */
    ghost function Held(): string
      reads this, buf
      requires Valid()
    {
      if buf == null then "" else buf[..buflen]
    }

    /** A connection over TLS, or over TCP. */
    constructor (tls: bool)
      ensures Valid() && Held() == "" && delivered == [] && buf == null
      ensures growth == if tls then 5000 else 1000
    {
      growth := if tls then TLS_GROWTH else TCP_GROWTH;
      buf := null;
      buflen := 0;
      delivered := [];
    }

    /** The buffer is made, or grown when full, or shrunk when empty: there is room, nothing is lost. */
    method MakeRoom()
      requires Valid()
      modifies this`buf
      ensures Valid() && Held() == old(Held()) && buf != null && buflen < buf.Length
      ensures buf == old(buf) || fresh(buf)
      ensures buf.Length == if buflen == 0 then 8000
                            else if old(buf.Length) == buflen then old(buf.Length) + growth
                            else old(buf.Length)
    {
      if buf == null {
        buf := new char[INITIAL_SIZE];
      }
      if buf.Length - buflen <= 0 {
        var bigger := new char[buf.Length + growth];
        forall i | 0 <= i < buf.Length { bigger[i] := buf[i]; }
        assert bigger[..buflen] == buf[..buflen];
        buf := bigger;
      }
      if buflen == 0 && buf.Length > INITIAL_SIZE {
        buf := new char[INITIAL_SIZE];
      }
    }

    /** The body of the extraction loop, on the bytes from `lo` on: find the blank line, stuff a NUL over
        it, read the length, take the NUL out again. */
    method Turn(lo: nat) returns (s: Step)
      requires Valid() && buf != null && lo <= buflen
      modifies buf
      ensures s == NextStep(old(buf[lo..buflen]))
      ensures s.Fault? || s.Discard? || buf[..] == old(buf[..])
    {
      hide NextStep, LengthAt, DeclaredLength, CString, Find;
      var a := buf;
      ghost var b := a[lo..buflen];
      StepIs(b);
      var found := BufferFind(a, lo, buflen, BLANK_LINE);
      if found == None {
        return Starved;
      }
      var e := found.value;
      if e == 0 {
        return KeepAlive;
      }
      BlankLineAt(b, e);
      a[lo + e] := '\0';
      assert a[lo..buflen] == b[e := '\0'];
      StuffedLength(b, e);
      var clen := DeclaredLength(CString(a[lo..buflen]));
      if clen.Undefined? {
        return Fault;
      }
      if clen.Negative? {
        return Discard;
      }
      a[lo + e] := BLANK_LINE[0];
      assert a[..] == old(buf[..]);
      return if e + 4 + clen.n > buflen - lo then Starved else Frame(e + 4 + clen.n);
    }

    /** The extraction loop over the buffer does what `Drain` says, and leaves the rest where it is. */
    method HandleMessages() returns (consumed: nat, fault: bool)
      requires Valid() && buf != null
      modifies this`delivered, buf
      ensures var o := Drain(old(Held()));
              && fault == o.fault
              && delivered == old(delivered) + o.delivered
              && (!fault ==> consumed <= buflen && buf[consumed..buflen] == o.rest)
    {
      hide NextStep, Drain, Find;
      consumed, fault := 0, false;
      ghost var done: seq<string> := [];
      var a := buf;
      AfterAfter([], [], Drain(a[..buflen]));
      while consumed < buflen
        invariant consumed <= buflen && a == buf && !fault
        invariant a[..] == old(buf[..])
        invariant delivered == old(delivered) + done
        invariant Drain(old(Held())) == After(done, Drain(a[consumed..buflen]))
      {
        ghost var b := a[consumed..buflen];
        DrainTurn(b);
        var step := Turn(consumed);
        match step
        case Starved =>
          assert a[consumed..buflen] == b;
          break;
        case KeepAlive =>
          assert b[4..] == a[consumed + 4..buflen];
          consumed := consumed + 4;
        case Fault =>
          fault := true;
          return;
        case Discard =>
          consumed := buflen;
          return;
        case Frame(n) =>
          delivered := delivered + [a[consumed..consumed + n]];
          assert b[n..] == a[consumed + n..buflen] && b[..n] == a[consumed..consumed + n];
          AfterAfter(done, [b[..n]], Drain(b[n..]));
          done := done + [b[..n]];
          consumed := consumed + n;
      }
      assert consumed == buflen ==> a[consumed..buflen] == "";
      EmptyStream();
      consumed := EatLoneCrlf(consumed);
    }

    /** Behind the loop, a lone CRLF is taken for a keep-alive answer. */
    method EatLoneCrlf(lo: nat) returns (consumed: nat)
      requires Valid() && buf != null && lo <= buflen
      requires NextStep(buf[lo..buflen]).Starved?
      ensures consumed <= buflen
      ensures Drain(buf[lo..buflen]) == Outcome([], buf[consumed..buflen], false)
    {
      hide NextStep;
      ghost var b := buf[lo..buflen];
      consumed := lo;
      if buflen - lo == 2 && buf[lo] == '\r' && buf[lo + 1] == '\n' {
        consumed := lo + 2;
        assert b == CRLF && buf[consumed..buflen] == "";
      } else {
        assert |b| == 2 ==> b[0] == buf[lo] && b[1] == buf[lo + 1];
      }
    }

    /** How many bytes fit in, once room has been made. */
    ghost function Room(): nat
      reads this, buf
      requires Valid()
    {
      if buflen == 0 then 8000 else if buflen == buf.Length then growth else buf.Length - buflen
    }

    /** One read event. Of the bytes pending at the socket, `r` are taken: as many as the socket gives
        out at once and the buffer has room for. */
    method Recv(event: Incoming) returns (r: nat, fault: bool)
      requires Valid() && (event.Bytes? ==> event.pending != "" && event.limit > 0)
      modifies this`buf, this`buflen, this`delivered, buf
      ensures buf == null || buf == old(buf) || fresh(buf)
      ensures event.WouldBlock? ==> r == 0 && !fault && Valid() && Held() == old(Held()) && delivered == old(delivered)
      ensures event.Closed? ==> r == 0 && !fault && Valid() && Held() == "" && delivered == old(delivered)
      ensures event.Bytes? ==>
                && r == Min(Min(|event.pending|, event.limit), old(Room())) && 0 < r
                && var o := Drain(old(Held()) + event.pending[..r]);
                   && fault == o.fault
                   && delivered == old(delivered) + o.delivered
                   && (!fault ==> Valid() && Held() == o.rest)
    {
      hide Drain, NextStep;
      r, fault := 0, false;
      MakeRoom();
      match event
      case WouldBlock => return;
      case Closed =>
        buf, buflen := null, 0;
        return;
      case Bytes(pending, limit) =>
        var room := buf.Length - buflen;
        r := if |pending| <= limit && |pending| <= room then |pending| else if limit <= room then limit else room;
        Append(pending[..r]);
        var consumed: nat;
        consumed, fault := HandleMessages();
        if fault || consumed == 0 {
          assert !fault ==> buf[0..buflen] == buf[..buflen];
          return;
        }
        Compact(consumed);
    }

    /** What `recv` does to the buffer. */
    method Append(data: string)
      requires Valid() && buf != null && |data| <= buf.Length - buflen
      modifies this`buflen, buf
      ensures Valid() && Held() == old(Held()) + data
    {
      forall i | 0 <= i < |data| { buf[buflen + i] := data[i]; }
      buflen := buflen + |data|;
      assert buf[..buflen] == old(Held()) + data;
    }

    /** What was not consumed moves to the front of the buffer. */
    method Compact(consumed: nat)
      requires Valid() && buf != null && 0 < consumed <= buflen
      modifies this`buflen, buf
      ensures Valid() && Held() == old(buf[consumed..buflen])
    {
      if buflen > consumed {
        var kept := buflen - consumed;
        forall i | 0 <= i < kept { buf[i] := buf[consumed + i]; }
        buflen := kept;
        assert buf[..buflen] == old(buf[consumed..buflen]);
      } else {
        buflen := 0;
      }
    }
  }

  lemma {:induction false} ReceiveSnoc(rest: string, chunks: seq<string>, c: string)
    ensures var o := Receive(rest, chunks);
            Receive(rest, chunks + [c]) == if o.fault then o else After(o.delivered, Drain(o.rest + c))
    decreases |chunks|
  {
    hide Drain;
    if chunks == [] {
      assert chunks + [c] == [c] && [c][1..] == [];
      var o := Drain(rest + c);
      assert After(o.delivered, Outcome([], o.rest, false)) == Outcome(o.delivered, o.rest, false);
      AfterAfter([], [], o);
    } else {
      var o := Drain(rest + chunks[0]);
      assert (chunks + [c])[0] == chunks[0] && (chunks + [c])[1..] == chunks[1..] + [c];
      if !o.fault {
        ReceiveSnoc(o.rest, chunks[1..], c);
        var o' := Receive(o.rest, chunks[1..]);
        AfterAfter(o.delivered, o'.delivered, Drain(o'.rest + c));
      }
    }
  }

  lemma {:induction false} CutsSnoc(chunks: seq<string>, s: string, c: string)
    requires Cuts(chunks, s) && c != ""
    ensures Cuts(chunks + [c], s + c)
    decreases |chunks|
  {
    if chunks == [] {
      assert chunks + [c] == [c] && [c][1..] == [];
      assert Concat([c]) == c;
    } else {
      var t := Concat(chunks[1..]);
      assert forall d | d in chunks[1..] :: d in chunks;
      CutsSnoc(chunks[1..], t, c);
      assert (chunks + [c])[1..] == chunks[1..] + [c];
      assert chunks[0] + (t + c) == s + c;
    }
  }

  /** Reading a connection until nothing is pending, when the socket gives out at most `limit(i)` bytes
      at the read number `i`: the run is one of the ways to cut the bytes into reads. */
  method ReceiveAll(s: Stream, input: string, limit: nat -> nat) returns (fault: bool, ghost chunks: seq<string>)
    requires s.Valid() && s.buf == null && s.delivered == [] && forall i :: limit(i) > 0
    modifies s
    ensures Cuts(chunks, input)
    ensures var o := Receive("", chunks);
            && fault == o.fault
            && s.delivered == o.delivered
            && (!fault ==> s.Valid() && s.Held() == o.rest)
    ensures Benign(input) ==>
              Parse(input) == Outcome(StripAll(s.delivered), if fault then "" else Strip(s.Held()), fault)
  {
    hide Drain, Benign, Parse, Strip;
    fault, chunks := false, [];
    var pos, n := 0, 0;
    while pos < |input| && !fault
      invariant pos <= |input|
      invariant s.buf == null || fresh(s.buf)
      invariant Cuts(chunks, input[..pos])
      invariant var o := Receive("", chunks);
                fault == o.fault && s.delivered == o.delivered && (!fault ==> s.Valid() && s.Held() == o.rest)
      invariant fault ==> Receive("", chunks).rest == ""
      decreases |input| - pos
    {
      ghost var held := s.Held();
      ghost var before := s.delivered;
      var r: nat;
      r, fault := s.Recv(Bytes(input[pos..], limit(n)));
      ghost var c := input[pos..][..r];
      ReceiveSnoc("", chunks, c);
      CutsSnoc(chunks, input[..pos], c);
      assert input[..pos] + c == input[..pos + r];
      FaultRest(held + c);
      chunks := chunks + [c];
      pos, n := pos + r, n + 1;
    }
    if pos < |input| {
      ReceiveSnoc("", chunks, input[pos..]);
      CutsSnoc(chunks, input[..pos], input[pos..]);
      chunks := chunks + [input[pos..]];
    }
    assert input[..pos] + input[pos..] == input;
    assert pos == |input| ==> input[..pos] == input;
    ChunkingTheorem(input);
    EmptyStream();
    assert Norm(Receive("", chunks)) == Outcome(StripAll(s.delivered), if fault then Strip("") else Strip(s.Held()), fault);
  }

  lemma {:induction false} FaultRest(b: string)
    ensures Drain(b).fault ==> Drain(b).rest == ""
    ensures Strip("") == ""
    decreases |b|
  {
    match NextStep(b)
    case KeepAlive => FaultRest(b[4..]);
    case Frame(n) => FaultRest(b[n..]);
    case _ =>
  }

  lemma BlankLineAt(b: string, e: nat)
    requires Find(b, BLANK_LINE) == Some(e)
    ensures b[e] == '\r'
  {
    FindIsFirst(b, 0, BLANK_LINE, Some(e));
    assert b[e..e + 4][0] == b[e];
  }
}

/** The send buffer of a connection: messages queued while it is being set up, flushed by partial
    writes. */
module SendQueue {
  import opened Basics
  import CText

  /** What one call of `send` answers: it takes up to `n` bytes, or asks to wait, or fails. A list of
      answers that runs out stands for a connection that fails next. */
  datatype Answer = Takes(n: nat) | Again | Fails

  /** How many of `len` bytes the answers take, called as the loop calls them: a short write goes on
      with the remainder; a failure, or a write of nothing, ends it. */
  function Taken(len: nat, answers: seq<Answer>): (r: nat)
    ensures r <= len
    decreases |answers|
  {
    if answers == [] then 0
    else match answers[0]
      case Fails => 0
      case Again => Taken(len, answers[1..])
      case Takes(n) =>
        var i := Min(n, len);
        if i == 0 || i == len then i else i + Taken(len - i, answers[1..])
  }

  /** The bytes offered before the socket fails or takes nothing. */
  function Offered(answers: seq<Answer>): nat {
    if answers == [] then 0
    else match answers[0]
      case Fails => 0
      case Again => Offered(answers[1..])
      case Takes(n) => if n == 0 then 0 else n + Offered(answers[1..])
  }

  /** The loop ends with an error: on a failure of the socket before all `len` bytes are taken. */
  predicate Broken(len: nat, answers: seq<Answer>)
    decreases |answers|
  {
    if answers == [] then true
    else match answers[0]
      case Fails => true
      case Again => Broken(len, answers[1..])
      case Takes(n) =>
        var i := Min(n, len);
        i != 0 && i != len && Broken(len - i, answers[1..])
  }

  /** As many bytes get through as the socket offers to take, up to all of them; and, unless the socket
      takes nothing at some point, there is an error exactly when not all do. */
  lemma {:induction false} TakenIs(len: nat, answers: seq<Answer>)
    ensures Taken(len, answers) == Min(len, Offered(answers))
    ensures len > 0 && Takes(0) !in answers ==> (Broken(len, answers) <==> Taken(len, answers) < len)
    decreases |answers|
  {
    if answers != [] {
      match answers[0]
      case Fails =>
      case Again => TakenIs(len, answers[1..]);
      case Takes(n) =>
        if 0 < n < len { TakenIs(len - n, answers[1..]); }
    }
  }

  /** What one answer means: waiting costs nothing, a failure or a write of nothing is the end, and only a
      failure before all is taken is an error. */
  lemma AnswerMeans(n: nat, len: nat, rest: seq<Answer>)
    ensures Offered([]) == Offered([Fails] + rest) == Offered([Takes(0)] + rest) == 0
    ensures Offered([Again] + rest) == Offered(rest)
    ensures n > 0 ==> Offered([Takes(n)] + rest) == n + Offered(rest)
    ensures Broken(len, []) && Broken(len, [Fails] + rest) && !Broken(len, [Takes(0)] + rest)
    ensures Broken(len, [Again] + rest) == Broken(len, rest)
    ensures 0 < n < len ==> Broken(len, [Takes(n)] + rest) == Broken(len - n, rest)
    ensures n >= len ==> !Broken(len, [Takes(n)] + rest)
  {
    assert ([Again] + rest)[1..] == ([Takes(n)] + rest)[1..] == rest;
  }

  /** `some` is all of `all`, or else as many bytes as were dropped are missing. */
  ghost predicate Accounted(some: string, dropped: nat, all: string) {
    |some| + dropped == |all| && (dropped == 0 ==> some == all)
  }

  lemma MoreAccounted(wire: string, pending: string, dropped: nat, all: string, message: string)
    requires Accounted(wire + pending, dropped, all)
    ensures Accounted(wire + (pending + message), dropped, all + message)
  {
    assert wire + (pending + message) == (wire + pending) + message;
  }

  /** One turn of the send loop. */
  lemma SendTurn(len: nat, answers: seq<Answer>, k: nat)
    requires k < |answers|
    ensures match answers[k]
            case Fails => Taken(len, answers[k..]) == 0 && Broken(len, answers[k..])
            case Again =>
              && Taken(len, answers[k..]) == Taken(len, answers[k + 1..])
              && Broken(len, answers[k..]) == Broken(len, answers[k + 1..])
            case Takes(n) =>
              var i := Min(n, len);
              if i == 0 || i == len then Taken(len, answers[k..]) == i && !Broken(len, answers[k..])
              else
                && Taken(len, answers[k..]) == i + Taken(len - i, answers[k + 1..])
                && Broken(len, answers[k..]) == Broken(len - i, answers[k + 1..])
  {
    assert answers[k..][0] == answers[k] && answers[k..][1..] == answers[k + 1..];
  }

  lemma SendEnds(len: nat, answers: seq<Answer>)
    ensures answers == [] ==> Taken(len, answers) == 0 && Broken(len, answers)
  {
  }

  lemma WireMore(wire: string, msg: string, at: nat, i: nat)
    requires at + i <= |msg|
    ensures wire + msg[..at] + msg[at..at + i] == wire + msg[..at + i] && wire + msg[..0] == wire
  {
    assert msg[..at] + msg[at..at + i] == msg[..at + i];
  }

  class Sender {
    var sendbuf: array?<char>
    var sendbuflen: nat
    /** The bytes the socket has taken. */
    var wire: string
    /** Every message queued so far, and how many of their bytes were dropped. */
    ghost var queued: seq<string>
    ghost var dropped: nat

    ghost predicate Valid()
      reads this, sendbuf
    {
      && (sendbuf == null ==> sendbuflen == 0)
      && (sendbuf != null ==> sendbuflen + 1 <= sendbuf.Length)
      && Accounted(wire + Pending(), dropped, Concat(queued))
    }

    ghost function Pending(): string
      reads this, sendbuf
      requires sendbuf == null ==> sendbuflen == 0
      requires sendbuf != null ==> sendbuflen <= sendbuf.Length
    {
      if sendbuf == null then "" else sendbuf[..sendbuflen]
    }

    constructor ()
      ensures Valid() && queued == [] && dropped == 0 && wire == "" && Pending() == "" && sendbuf == null
    {
      sendbuf, sendbuflen, wire, queued, dropped := null, 0, "", [], 0;
    }

    /** The buffer grows to what `n` more bytes and a NUL need. */
    method Reserve(n: nat)
      requires Valid()
      modifies this`sendbuf
      ensures Valid() && Pending() == old(Pending())
      ensures sendbuf != null && sendbuflen + n + 1 <= sendbuf.Length
      ensures sendbuf == old(sendbuf) || fresh(sendbuf)
    {
      ghost var before := Pending();
      var size := if sendbuf == null then 0 else sendbuf.Length;
      if sendbuflen + n + 1 > size {
        var bigger := new char[sendbuflen + n + 1];
        if sendbuf != null {
          forall i | 0 <= i < sendbuflen { bigger[i] := sendbuf[i]; }
        }
        assert bigger[..sendbuflen] == before;
        sendbuf := bigger;
      }
    }

    /** Queue a message, with a NUL behind it. */
    method Append(message: string)
      requires Valid() && message != ""
      modifies this`sendbuf, this`sendbuflen, this`queued, sendbuf
      ensures Valid() && Pending() == old(Pending()) + message
      ensures sendbuf != null && sendbuf[sendbuflen] == '\0'
      ensures queued == old(queued) + [message] && (sendbuf == old(sendbuf) || fresh(sendbuf))
    {
      hide Concat, Accounted;
      ghost var before := Pending();
      Reserve(|message|);
      sendbuflen := CText.PutString(sendbuf, sendbuflen, message);
      ConcatSnoc(queued, message);
      MoreAccounted(wire, before, dropped, Concat(queued), message);
      queued := queued + [message];
    }

    /** `_tcp_tl_send_sockinfo`: the answers of the socket decide how much of `msg` gets through. */
    method Send(msg: string, answers: seq<Answer>) returns (ok: bool)
      modifies this`wire
      ensures wire == old(wire) + msg[..Taken(|msg|, answers)]
      ensures ok <==> !Broken(|msg|, answers)
    {
      hide Taken, Broken;
      var at: nat, k: nat := 0, 0;
      WireMore(wire, msg, 0, 0);
      assert answers[0..] == answers;
      while k < |answers|
        decreases |answers| - k
        invariant at <= |msg| && k <= |answers|
        invariant wire == old(wire) + msg[..at] && (at == |msg| ==> msg == "")
        invariant Taken(|msg|, answers) == at + Taken(|msg| - at, answers[k..])
        invariant Broken(|msg|, answers) == Broken(|msg| - at, answers[k..])
      {
        SendTurn(|msg| - at, answers, k);
        match answers[k]
        case Fails =>
          return false;
        case Again =>
          k := k + 1;
        case Takes(n) =>
          var i := if n <= |msg| - at then n else |msg| - at;
          WireMore(old(wire), msg, at, i);
          wire := wire + msg[at..at + i];
          at := at + i;
          if i == 0 || at == |msg| {
            return true;
          }
          k := k + 1;
      }
      SendEnds(|msg| - at, answers[k..]);
      ok := false;
    }

    /** `_tls_tl_send`: the same over TLS, where taking nothing is an error too. All that the connection
        offers to take gets through, and there is an error exactly when that is not all of `msg`. */
    method SendTls(msg: string, answers: seq<Answer>) returns (ok: bool)
      modifies this`wire
      ensures wire == old(wire) + msg[..Min(|msg|, Offered(answers))]
      ensures ok <==> |msg| <= Offered(answers)
    {
      var at: nat, k: nat := 0, 0;
      while at < |msg|
        decreases |answers| - k
        invariant at <= |msg| && k <= |answers|
        invariant wire == old(wire) + msg[..at]
        invariant if at < |msg| then Offered(answers) == at + Offered(answers[k..]) else |msg| <= Offered(answers)
      {
        if k == |answers| || answers[k].Fails? || answers[k] == Takes(0) {
          return false;
        }
        assert answers[k..][1..] == answers[k + 1..];
        match answers[k] {
          case Takes(n) =>
            var i := if n <= |msg| - at then n else |msg| - at;
            assert msg[..at] + msg[at..at + i] == msg[..at + i];
            wire := wire + msg[at..at + i];
            at := at + i;
          case _ =>
        }
        k := k + 1;
      }
      assert msg[..|msg|] == msg;
      ok := true;
    }

    /** The flush when the socket is writable: whatever is left afterwards is dropped. */
    method Flush(answers: seq<Answer>)
      requires Valid()
      modifies this
      ensures Valid() && Pending() == "" && queued == old(queued) && sendbuf == old(sendbuf)
      ensures wire == old(wire) + old(Pending())[..Min(|old(Pending())|, Offered(answers))]
      ensures dropped == old(dropped) + (|old(Pending())| - Min(|old(Pending())|, Offered(answers)))
    {
      if sendbuflen > 0 {
        ghost var msg := Pending();
        TakenIs(|msg|, answers);
        var ok := Send(sendbuf[..sendbuflen], answers);
        dropped := dropped + (|msg| - Taken(|msg|, answers));
        assert msg[..|msg|] == msg;
        sendbuflen := 0;
        assert wire + "" == wire;
      }
    }

    /** What the socket took and what still waits is what was queued, in order, as long as and only as
        long as no flush ended short. */
    lemma Lossless()
      requires Valid()
      ensures wire + Pending() == Concat(queued) <==> dropped == 0
    {
    }
  }

  // ----- runs -----

  /** What happens to a connection that is still busy: a message is queued, or the socket becomes
      writable and gives these answers. */
  datatype Event = Queue(message: string) | Writable(answers: seq<Answer>)

  function Messages(events: seq<Event>): seq<string> {
    if events == [] then []
    else
      match events[|events| - 1]
      case Queue(m) => Messages(events[..|events| - 1]) + [m]
      case Writable(_) => Messages(events[..|events| - 1])
  }

  /** How many bytes wait in the buffer. */
  function Waiting(events: seq<Event>): nat {
    if events == [] then 0
    else match events[|events| - 1]
      case Queue(m) => Waiting(events[..|events| - 1]) + |m|
      case Writable(_) => 0
  }

  /** Whenever the socket was writable, it offered to take all that waited. */
  predicate Roomy(events: seq<Event>) {
    events == [] ||
    (Roomy(events[..|events| - 1]) &&
     match events[|events| - 1]
     case Queue(_) => true
     case Writable(answers) => Waiting(events[..|events| - 1]) <= Offered(answers))
  }

  lemma NoEvents()
    ensures Messages([]) == [] && Waiting([]) == 0 && Roomy([])
  {
  }

  lemma EventSnoc(events: seq<Event>, e: Event)
    ensures e.Queue? ==>
              && Messages(events + [e]) == Messages(events) + [e.message]
              && Waiting(events + [e]) == Waiting(events) + |e.message| && Roomy(events + [e]) == Roomy(events)
    ensures e.Writable? ==>
              && Messages(events + [e]) == Messages(events) && Waiting(events + [e]) == 0
              && Roomy(events + [e]) == (Roomy(events) && Waiting(events) <= Offered(e.answers))
  {
    hide Offered;
    assert (events + [e])[..|events|] == events;
  }

  /** Over every run, the bytes the socket took, and those that still wait, are the messages queued, in
      order, if and only if every flush found room for all that waited. */
  method Run(events: seq<Event>) returns (s: Sender)
    requires forall e | e in events :: e.Queue? ==> e.message != ""
    ensures s.Valid() && s.queued == Messages(events) && |s.Pending()| == Waiting(events)
    ensures s.wire + s.Pending() == Concat(Messages(events)) <==> Roomy(events)
    ensures s.sendbuf != null ==> s.sendbuflen < s.sendbuf.Length
  {
    hide Concat, Offered, Accounted, Messages, Waiting, Roomy;
    NoEvents();
    s := new Sender();
    for k := 0 to |events|
      invariant fresh(s) && (s.sendbuf != null ==> fresh(s.sendbuf))
      invariant s.Valid() && s.queued == Messages(events[..k]) && |s.Pending()| == Waiting(events[..k])
      invariant (s.dropped == 0) == Roomy(events[..k])
    {
      assert events[..k + 1] == events[..k] + [events[k]];
      EventSnoc(events[..k], events[k]);
      match events[k] {
        case Queue(m) =>
          assert events[k] in events;
          s.Append(m);
        case Writable(answers) =>
          s.Flush(answers);
      }
    }
    assert events[..|events|] == events;
    s.Lossless();
  }
}

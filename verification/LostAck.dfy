/** Retransmission of 200 OK responses whose ACK does not arrive (section 13.3.1.4 of RFC 3261). */
module LostAck {
  import opened Basics

  /** A dialog of a call. `ok200` is the response waiting for its ACK, by a number of its own; `timer`
      the time before which it is not sent again; `count` how often it was. */
  datatype Dialog = Dialog(id: int, established: bool, ok200: Option<int>, count: nat, timer: int)

  const LAST: nat := 9

  predicate Waiting(d: Dialog) {
    d.id >= 1 && d.established && d.ok200.Some?
  }

  /** The pass sends something for this dialog. */
  predicate Due(d: Dialog, now: int) {
    Waiting(d) && d.count != LAST && d.timer < now
  }

  function Delay(count: nat): nat {
    if count == 1 then 1 else if count == 2 then 2 else 4
  }

  /** The dialog after a transmission, with `t` on the clock. */
  function Fired(d: Dialog, t: int): Dialog {
    d.(count := d.count + 1, timer := t + Delay(d.count + 1))
  }

  function Dropped(d: Dialog): Dialog {
    d.(count := 0, ok200 := None)
  }

  /** Reading `k` of the clock within a pass that began at `now` is `clock(k)`. */
  ghost predicate NotBefore(clock: nat -> int, now: int) {
    forall k: nat :: clock(k) >= now
  }

  /** What one pass at time `now` makes of the dialog that stands at place `i` of its call: nothing; or
      the call is dropped; or one transmission, which for all but the first dialog of the call is
      followed by the drop at once when it was the last. */
  ghost predicate Passed(i: nat, d: Dialog, d': Dialog, now: int, clock: nat -> int) {
    if Waiting(d) && d.count == LAST then d' == Dropped(d)
    else if Due(d, now) then exists k: nat :: d' == Served(i, d, clock(k))
    else d' == d
  }

  function Served(i: nat, d: Dialog, t: int): Dialog {
    var f := Fired(d, t);
    if i > 0 && f.count == LAST then Dropped(f) else f
  }

  function DueCount(dialogs: seq<Dialog>, now: int): nat {
    if dialogs == [] then 0 else (if Due(dialogs[0], now) then 1 else 0) + DueCount(dialogs[1..], now)
  }

  lemma {:induction false} DueCountUpdate(dialogs: seq<Dialog>, i: nat, d: Dialog, now: int)
    requires i < |dialogs|
    ensures DueCount(dialogs[i := d], now) + (if Due(dialogs[i], now) then 1 else 0)
         == DueCount(dialogs, now) + (if Due(d, now) then 1 else 0)
  {
    if i == 0 {
      assert dialogs[0 := d][1..] == dialogs[1..];
    } else {
      assert dialogs[i := d][1..] == dialogs[1..][i - 1 := d];
      DueCountUpdate(dialogs[1..], i - 1, d, now);
    }
  }

  function Repeat<T>(x: T, n: nat): (r: seq<T>)
    ensures |r| == n && forall i | 0 <= i < n :: r[i] == x
  {
    seq(n, _ => x)
  }

  /** The response that the pass sends, for whichever dialog is due: the one held by the first dialog of
      the call, if the pass does not drop it. */
  function HeadResponse(dialogs: seq<Dialog>): Option<int>
    requires dialogs != []
  {
    if Waiting(dialogs[0]) && dialogs[0].count == LAST then None else dialogs[0].ok200
  }

  /** The responses that are due, in the order of the dialogs. */
  function OwnResponses(dialogs: seq<Dialog>, now: int): (r: seq<Option<int>>)
    ensures |r| == DueCount(dialogs, now)
  {
    if dialogs == [] then []
    else (if Due(dialogs[0], now) then [dialogs[0].ok200] else []) + OwnResponses(dialogs[1..], now)
  }

  /** A dialog in the middle of a pass. */
  ghost predicate Between(i: nat, d: Dialog, d': Dialog, now: int, clock: nat -> int) {
    d' == d || Passed(i, d, d', now, clock) || (Due(d, now) && exists k: nat :: d' == Fired(d, clock(k)))
  }

  lemma PassedNotDue(i: nat, d: Dialog, d': Dialog, now: int, clock: nat -> int)
    requires Passed(i, d, d', now, clock) && NotBefore(clock, now)
    ensures !Due(d', now)
  {
  }

  /** One visit of the cursor; the first dialog is only visited as it was. */
  lemma Visit(i: nat, d: Dialog, d': Dialog, now: int, clock: nat -> int, k: nat)
    requires Between(i, d, d', now, clock) && NotBefore(clock, now) && (i == 0 ==> d' == d)
    ensures Waiting(d') && d'.count == LAST ==> Passed(i, d, Dropped(d'), now, clock)
    ensures Due(d', now) ==> Between(i, d, Fired(d', clock(k)), now, clock)
                             && (i == 0 ==> Passed(i, d, Fired(d', clock(k)), now, clock))
    ensures !(Waiting(d') && d'.count == LAST) && !Due(d', now) ==> Passed(i, d, d', now, clock)
    ensures !Due(Fired(d', clock(k)), now) && !Due(Dropped(d'), now)
  {
    if Passed(i, d, d', now, clock) { PassedNotDue(i, d, d', now, clock); }
    if Due(d', now) && i == 0 { assert Served(i, d, clock(k)) == Fired(d, clock(k)); }
    if !Passed(i, d, d', now, clock) && d' != d {
      var n: nat :| d' == Fired(d, clock(n));
      assert Served(i, d, clock(n)) == if d'.count == LAST then Dropped(d') else d';
    }
  }

  lemma {:induction false} NoneDue(dialogs: seq<Dialog>, now: int)
    requires forall i | 0 <= i < |dialogs| :: !Due(dialogs[i], now)
    ensures DueCount(dialogs, now) == 0
  {
    if dialogs != [] { NoneDue(dialogs[1..], now); }
  }

  class Call {
    var dialogs: seq<Dialog>
    /** What was handed to the transport; None is a NULL message. */
    var sent: seq<Option<int>>

    constructor (dialogs: seq<Dialog>)
      ensures this.dialogs == dialogs && sent == []
    {
      this.dialogs, sent := dialogs, [];
    }

    /** The pass over the dialogs of one call. After each transmission the cursor goes back to the first
        dialog, and on from there to the second; the response sent is that of the dialog the cursor is
        at by then. */
    method RetransmitPass(now: int, clock: nat -> int)
      requires NotBefore(clock, now)
      modifies this
      ensures |dialogs| == |old(dialogs)|
      ensures forall i | 0 <= i < |dialogs| :: Passed(i, old(dialogs)[i], dialogs[i], now, clock)
      ensures dialogs == [] ==> sent == old(sent)
      ensures dialogs != [] ==> sent == old(sent) + Repeat(HeadResponse(old(dialogs)), DueCount(old(dialogs), now))
    {
      hide Passed, NotBefore, Delay;
      ghost var was := dialogs;
      ghost var due := DueCount(dialogs, now);
      var j: nat, k: nat := 0, 0;
      assert sent == old(sent) + [];
      while j < |dialogs|
        invariant |dialogs| == |was| && j <= |was|
        invariant forall i | 0 <= i < |was| :: Between(i, was[i], dialogs[i], now, clock)
        invariant forall i | 0 <= i < j :: Passed(i, was[i], dialogs[i], now, clock)
        invariant DueCount(dialogs, now) <= due
        invariant was != [] ==> sent == old(sent) + Repeat(HeadResponse(was), due - DueCount(dialogs, now))
        invariant was == [] ==> sent == old(sent)
        invariant if j == 0 then dialogs == was else dialogs[0].ok200 == HeadResponse(was)
        decreases DueCount(dialogs, now), |was| - j
      {
        var d := dialogs[j];
        Visit(j, was[j], d, now, clock, k);
        if Waiting(d) {
          if d.count == LAST {
            DueCountUpdate(dialogs, j, Dropped(d), now);
            dialogs := dialogs[j := Dropped(d)];
          } else if d.timer < now {
            var t := clock(k);
            k := k + 1;
            DueCountUpdate(dialogs, j, Fired(d, t), now);
            dialogs := dialogs[j := Fired(d, t)];
            j := 0;
            sent := sent + [dialogs[j].ok200];
          }
        }
        j := j + 1;
      }
      forall i | 0 <= i < |was| ensures !Due(dialogs[i], now) { PassedNotDue(i, was[i], dialogs[i], now, clock); }
      NoneDue(dialogs, now);
    }
  }

  /** One pass in plain numbers. A dialog that has nothing to wait for, or whose time has not come, stays as
      it is; after nine transmissions the response is gone; otherwise one more is counted, and the next is
      due after one second, then two, then four, by a clock that is read in the pass. A dialog behind the
      first of its call loses its response with the ninth. */
  lemma PassedTells(i: nat, d: Dialog, d': Dialog, now: int, clock: nat -> int)
    requires Passed(i, d, d', now, clock) && NotBefore(clock, now)
    ensures d'.id == d.id && d'.established == d.established
    ensures if d.id < 1 || !d.established || d.ok200 == None || (d.count != 9 && d.timer >= now) then d' == d
            else if d.count == 9 then d'.ok200 == None && d'.count == 0
            else
              && (exists k: nat :: d'.timer == clock(k) + if d.count == 0 then 1 else if d.count == 1 then 2 else 4)
              && if i > 0 && d.count == 8 then d'.ok200 == None && d'.count == 0
                 else d'.ok200 == d.ok200 && d'.count == d.count + 1
  {
    if Due(d, now) {
      var k: nat :| d' == Served(i, d, clock(k));
    }
  }

  // ----- which response is sent -----

  lemma {:induction false} OwnAre(dialogs: seq<Dialog>, h: Option<int>, now: int)
    ensures OwnResponses(dialogs, now) == Repeat(h, DueCount(dialogs, now)) <==>
            forall i | 0 <= i < |dialogs| && Due(dialogs[i], now) :: dialogs[i].ok200 == h
  {
    if dialogs != [] {
      var own, n := OwnResponses(dialogs[1..], now), DueCount(dialogs[1..], now);
      OwnAre(dialogs[1..], h, now);
      if Due(dialogs[0], now) {
        var o := [dialogs[0].ok200] + own;
        assert o[0] == dialogs[0].ok200 && o[1..] == own;
        assert Repeat(h, n + 1)[1..] == Repeat(h, n);
        if dialogs[0].ok200 == h && own == Repeat(h, n) { assert o == Repeat(h, n + 1); }
      } else {
        assert [] + own == own;
      }
      assert forall i | 0 < i < |dialogs| :: dialogs[i] == dialogs[1..][i - 1];
    }
  }

  /** The pass sends each due dialog its own response if and only if all of them hold the one that the
      first dialog of the call holds. */
  lemma OwnResponseSent(dialogs: seq<Dialog>, now: int)
    requires dialogs != []
    ensures Repeat(HeadResponse(dialogs), DueCount(dialogs, now)) == OwnResponses(dialogs, now) <==>
            forall i | 0 <= i < |dialogs| && Due(dialogs[i], now) :: dialogs[i].ok200 == HeadResponse(dialogs)
  {
    OwnAre(dialogs, HeadResponse(dialogs), now);
  }

  /** With a response of its own for each dialog, the pass sends the right ones exactly when no dialog but
      the first is due. */
  lemma OwnResponsesApart(dialogs: seq<Dialog>, now: int)
    requires dialogs != []
    requires forall i, j | 0 <= i < j < |dialogs| && dialogs[i].ok200.Some? :: dialogs[i].ok200 != dialogs[j].ok200
    ensures Repeat(HeadResponse(dialogs), DueCount(dialogs, now)) == OwnResponses(dialogs, now) <==>
            forall i | 0 < i < |dialogs| :: !Due(dialogs[i], now)
  {
    OwnResponseSent(dialogs, now);
  }

  /** With the first dialog acknowledged and the second not, nothing but a NULL message is sent. */
  lemma NullSent()
    ensures var dialogs := [Dialog(1, true, None, 0, 0), Dialog(2, true, Some(7), 0, 0)];
            && Repeat(HeadResponse(dialogs), DueCount(dialogs, 1)) == [None]
            && OwnResponses(dialogs, 1) == [Some(7)]
  {
    var dialogs := [Dialog(1, true, None, 0, 0), Dialog(2, true, Some(7), 0, 0)];
    assert dialogs[1..] == [dialogs[1]] && dialogs[1..][1..] == [];
    assert OwnResponses([dialogs[1]], 1) == [Some(7)] + [];
    assert OwnResponses(dialogs, 1) == [] + [Some(7)];
  }

  /** The second dialog of a call is due. If the first still waits, with its own time to come, its response
      is sent instead; if the pass has just dropped the first, a NULL message is. */
  lemma WrongSent()
    ensures var dialogs := [Dialog(1, true, Some(5), 1, 100), Dialog(2, true, Some(7), 0, 0)];
            Repeat(HeadResponse(dialogs), DueCount(dialogs, 1)) == [Some(5)]
    ensures var dialogs := [Dialog(1, true, Some(5), 9, 0), Dialog(2, true, Some(7), 0, 0)];
            Repeat(HeadResponse(dialogs), DueCount(dialogs, 1)) == [None]
  {
    OnlySecondDue(Dialog(1, true, Some(5), 1, 100), Dialog(2, true, Some(7), 0, 0), 1);
    OnlySecondDue(Dialog(1, true, Some(5), 9, 0), Dialog(2, true, Some(7), 0, 0), 1);
  }

  lemma OnlySecondDue(a: Dialog, b: Dialog, now: int)
    requires !Due(a, now) && Due(b, now)
    ensures Repeat(HeadResponse([a, b]), DueCount([a, b], now)) == [HeadResponse([a, b])]
  {
    assert [a, b][1..] == [b] && [b][1..] == [];
    assert DueCount([b], now) == 1;
  }

  // ----- the life of an answer that is never acknowledged -----

  /** A dialog, how often its call's pass sent for it, and the times of the first and the last pass
      that did. */
  datatype Life = Life(d: Dialog, fired: nat, first: int, last: int)

  ghost predicate Lives(i: nat, l: Life, l': Life, now: int, clock: nat -> int) {
    && Passed(i, l.d, l'.d, now, clock)
    && if Due(l.d, now) then l'.fired == l.fired + 1 && l'.last == now && l'.first == (if l.fired == 0 then now else l.first)
       else l'.fired == l.fired && l'.last == l.last && l'.first == l.first
  }

  /** The time from the first transmission to number `n`, at least. */
  function Span(n: nat): nat {
    if n <= 1 then 0 else Span(n - 1) + Delay(n - 1) + 1
  }

  ghost predicate LifeInv(l: Life) {
    Waiting(l.d) ==>
      && l.d.count == l.fired <= LAST
      && (l.fired > 0 ==> l.last - l.first >= Span(l.fired) && l.d.timer >= l.last + Delay(l.fired))
  }

  lemma LifeStep(i: nat, l: Life, l': Life, now: int, clock: nat -> int)
    requires LifeInv(l) && Lives(i, l, l', now, clock) && NotBefore(clock, now)
    ensures LifeInv(l')
    ensures Waiting(l.d) && !Waiting(l'.d) ==> l'.fired == LAST && l'.last - l'.first >= Span(LAST)
  {
    if Due(l.d, now) && l.fired > 0 {
      assert Span(l'.fired) == Span(l.fired) + Delay(l.fired) + 1;
    }
  }

  /** When the passes of a run begin, and what the clock reads within them. */
  ghost predicate Timed(nows: seq<int>, clocks: seq<nat -> int>) {
    && |clocks| == |nows|
    && (forall p | 0 <= p < |nows| :: NotBefore(clocks[p], nows[p]))
    && (forall p | 0 < p < |nows| :: nows[p - 1] <= nows[p])
  }

  /** A run of passes over a dialog at place `i`: its lives before, between and after them. */
  ghost predicate IsRun(i: nat, lives: seq<Life>, nows: seq<int>, clocks: seq<nat -> int>) {
    && Timed(nows, clocks)
    && |lives| == |nows| + 1
    && (forall p | 0 <= p < |nows| :: Lives(i, lives[p], lives[p + 1], nows[p], clocks[p]))
    && Waiting(lives[0].d) && lives[0].d.count == 0 && lives[0].fired == 0
  }

  lemma {:induction false} RunInv(i: nat, lives: seq<Life>, nows: seq<int>, clocks: seq<nat -> int>, p: nat)
    requires IsRun(i, lives, nows, clocks) && p <= |nows|
    ensures LifeInv(lives[p]) && (lives[p].fired > 0 ==> p > 0 && lives[p].last <= nows[p - 1])
    decreases p
  {
    if p > 0 {
      RunInv(i, lives, nows, clocks, p - 1);
      LifeStep(i, lives[p - 1], lives[p], nows[p - 1], clocks[p - 1]);
    }
  }

  /** In every run of passes, whatever their times, and at whatever place of the call's list, a response
      that is given up was sent exactly nine times, and given up 35 seconds or more after the first. */
  lemma GivenUpAfterNine(i: nat, lives: seq<Life>, nows: seq<int>, clocks: seq<nat -> int>, p: nat)
    requires IsRun(i, lives, nows, clocks) && p < |nows|
    requires Waiting(lives[p].d) && !Waiting(lives[p + 1].d)
    ensures lives[p + 1].fired == 9 && nows[p] - lives[p + 1].first >= 35
  {
    RunInv(i, lives, nows, clocks, p);
    RunInv(i, lives, nows, clocks, p + 1);
    LifeStep(i, lives[p], lives[p + 1], nows[p], clocks[p]);
    assert Span(3) == 5 && Span(5) == 15 && Span(7) == 25 && Span(9) == 35;
  }

  // ----- the life of a call with one dialog, by the passes over it -----

  /** The life of the dialog goes on over a pass at `now`, after which it is `d`. */
  function NextLife(l: Life, d: Dialog, now: int): Life {
    if Due(l.d, now) then Life(d, l.fired + 1, if l.fired == 0 then now else l.first, now) else l.(d := d)
  }

  lemma OneDialog(d: Dialog, now: int)
    ensures DueCount([d], now) == (if Due(d, now) then 1 else 0)
    ensures Due(d, now) ==> Waiting(d) && HeadResponse([d]) == d.ok200
  {
    assert [d][1..] == [];
  }

  lemma RepeatMore(x: Option<int>, n: nat, more: nat)
    ensures Repeat(x, n) + Repeat(x, more) == Repeat(x, n + more)
    ensures forall y: Option<int>, s: seq<Option<int>> :: s + Repeat(y, 0) == s
  {
  }

  lemma StartOfLife(d: Dialog)
    requires Waiting(d) && d.count == 0
    ensures LifeInv(Life(d, 0, 0, 0)) && Repeat(d.ok200, 0) == []
  {
  }

  lemma LifeCounts(l: Life)
    requires LifeInv(l) && Waiting(l.d)
    ensures l.d.count == l.fired <= LAST
  {
  }

  lemma LifeKeeps(l: Life, d: Dialog, now: int, clock: nat -> int)
    requires LifeInv(l) && Passed(0, l.d, d, now, clock) && NotBefore(clock, now)
    ensures LifeInv(NextLife(l, d, now))
    ensures Waiting(l.d) && !Waiting(d) ==> !Due(l.d, now) && l.fired == LAST && l.last - l.first >= Span(LAST)
    ensures Waiting(l.d) && Waiting(d) ==> d.ok200 == l.d.ok200
    ensures !Waiting(l.d) ==> !Waiting(d) && !Due(l.d, now)
  {
    LifeStep(0, l, NextLife(l, d, now), now, clock);
  }

  /** The passes are far enough apart: each begins more than a second after every reading of the clock in the
      first one, more than two seconds after the second one, and more than four after any other. */
  ghost predicate Apart(d: Dialog, nows: seq<int>, clocks: seq<nat -> int>) {
    && |clocks| == |nows|
    && (nows != [] ==> d.timer < nows[0])
    && forall p: nat, k: nat | p + 1 < |nows| ::
         nows[p + 1] > clocks[p](k) + if p == 0 then 1 else if p == 1 then 2 else 4
  }

  /** After `p` passes that are far enough apart, `p` copies were sent, up to nine. */
  ghost predicate OnTime(p: nat, l: Life, nows: seq<int>) {
    if p <= 9 then Waiting(l.d) && l.d.count == p && (p < |nows| ==> l.d.timer < nows[p]) else !Waiting(l.d)
  }

  lemma StartOnTime(d: Dialog, nows: seq<int>, clocks: seq<nat -> int>)
    requires Waiting(d) && d.count == 0
    ensures Apart(d, nows, clocks) ==> OnTime(0, Life(d, 0, 0, 0), nows)
  {
  }

  lemma StaysOnTime(p: nat, start: Dialog, l: Life, d: Dialog, nows: seq<int>, clocks: seq<nat -> int>)
    requires p < |nows| && Apart(start, nows, clocks) && OnTime(p, l, nows)
    requires Passed(0, l.d, d, nows[p], clocks[p])
    ensures OnTime(p + 1, NextLife(l, d, nows[p]), nows)
  {
    if p < 9 {
      var k: nat :| d == Served(0, l.d, clocks[p](k));
      assert d == Fired(l.d, clocks[p](k));
    }
  }

  lemma OnTimeAfter(p: nat, l: Life, nows: seq<int>)
    requires OnTime(p, l, nows)
    ensures if p <= 9 then Waiting(l.d) && l.d.count == p else !Waiting(l.d)
  {
  }

  /** Passes over a call with one dialog at the times `nows`, with the readings of the clock in them: while
      the response waits for its ACK, as many copies of it were sent as the dialog counts, up to nine; once
      it is given up, at `end`, nine were, the first, at `first`, 35 seconds earlier or more. Of passes that
      are far enough apart, each of the first nine sends a copy, and the tenth gives the response up. */
  method RunSingle(d: Dialog, nows: seq<int>, clocks: seq<nat -> int>)
    returns (c: Call, ghost first: int, ghost end: int)
    requires Waiting(d) && d.count == 0 && Timed(nows, clocks)
    ensures |c.dialogs| == 1
    ensures Waiting(c.dialogs[0]) ==> c.dialogs[0].count <= 9 && c.sent == Repeat(d.ok200, c.dialogs[0].count)
    ensures !Waiting(c.dialogs[0]) ==> c.sent == Repeat(d.ok200, 9) && end - first >= 35 && first in nows && end in nows
    ensures Apart(d, nows, clocks) ==>
              if |nows| <= 9 then Waiting(c.dialogs[0]) && c.sent == Repeat(d.ok200, |nows|)
              else !Waiting(c.dialogs[0]) && c.sent == Repeat(d.ok200, 9)
  {
    hide Due, Waiting, Passed, Repeat, Span, LifeInv, NotBefore, Apart, OnTime;
    c := new Call([d]);
    ghost var l := Life(d, 0, 0, 0);
    first, end := 0, 0;
    StartOfLife(d);
    StartOnTime(d, nows, clocks);
    for p := 0 to |nows|
      invariant fresh(c) && c.dialogs == [l.d] && LifeInv(l) && first == l.first
      invariant l.fired > 0 ==> p > 0 && l.last <= nows[p - 1] && first in nows
      invariant Waiting(l.d) ==> l.d.ok200 == d.ok200 && c.sent == Repeat(d.ok200, l.fired)
      invariant !Waiting(l.d) ==>
                  c.sent == Repeat(d.ok200, LAST) && end - first >= Span(LAST) && first in nows && end in nows
      invariant Apart(d, nows, clocks) ==> OnTime(p, l, nows)
    {
      var was := c.dialogs[0];
      OneDialog(was, nows[p]);
      c.RetransmitPass(nows[p], clocks[p]);
      var now := c.dialogs[0];
      LifeKeeps(l, now, nows[p], clocks[p]);
      RepeatMore(d.ok200, l.fired, if Due(was, nows[p]) then 1 else 0);
      if Waiting(was) && !Waiting(now) {
        end := nows[p];
      }
      if Apart(d, nows, clocks) { StaysOnTime(p, d, l, now, nows, clocks); }
      l := NextLife(l, now, nows[p]);
      first := l.first;
    }
    if Waiting(l.d) { LifeCounts(l); }
    if Apart(d, nows, clocks) { OnTimeAfter(|nows|, l, nows); }
    assert Span(LAST) == 35 by { Spans(); }
  }

  lemma Spans()
    ensures Span(LAST) == 35
  {
    assert Span(3) == 5 && Span(5) == 15 && Span(7) == 25;
  }
}

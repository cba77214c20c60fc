/** A registration: the REGISTER requests it sends, one at a time, and when it sends them. */
module Registration {
  import opened Basics
  import opened CSeq
  import opened Numerals

  /** The states of a non-INVITE client transaction (section 17.1.2 of RFC 3261). */
  datatype State = Trying | Proceeding | Completed | Terminated

  /** A REGISTER request: its Call-ID, the text of its CSeq number, its Expires value. */
  datatype Request = Request(callId: int, cseq: string, expires: int)

  /** A transaction: its request and the transaction that this was built from, if any; when it began, and
      the status and Min-Expires of its response. */
  datatype Transaction = Transaction(request: Request, from: Option<nat>, state: State, birth: int,
                                     status: Option<int>, minExpires: Option<int>)

  /** A response, as far as a registration looks at it: its status, its Min-Expires and Expires; the greatest
      time granted to a contact of ours, 0 for none; and whether its Via shows another address than the
      contact that was registered. */
  datatype Response = Response(status: int, minExpires: Option<int>, expires: Option<int>, granted: nat, moved: bool)

  datatype Error = WrongState | SyntaxError | NoNetwork

  datatype Result<T> = Ok(value: T) | Err(error: Error)

  // values of registration_step
  const DELETION_REQUIRED: int := 2
  const DELETION_PROCEEDING: int := 3
  const MASQUERADING_REQUIRED: int := 4
  const MASQUERADING_PROCEEDING: int := 5

  predicate Finished(t: Transaction) {
    t.state.Completed? || t.state.Terminated?
  }

  predicate Success(t: Transaction) {
    t.status.Some? && 200 <= t.status.value < 300
  }

  /** The response asks for a longer time, but does not say for which. */
  predicate NoMinExpires(t: Transaction) {
    t.status == Some(423) && t.minExpires.None?
  }

  /** A response of the class 2xx is a success; a transaction is finished unless it waits for its first or
      its final response. */
  lemma StatusMeaning(t: Transaction)
    ensures Success(t) <==> t.status.Some? && t.status.value / 100 == 2
    ensures Finished(t) <==> t.state !in {Trying, Proceeding}
    ensures NoMinExpires(t) <==> t.status == Some(423) && t.minExpires == None
  {
  }

  // ----- what the timer does -----

  datatype Action = Nothing | Refresh | Retry | Delete | Masquerade

  /** C division, which truncates toward zero. */
  function Tenth(p: int): int {
    if p >= 0 then p / 10 else -((-p) / 10)
  }

  /** The registration part of `eXosip_automatic_action`. */
  function TimerAction(period: int, t: Transaction, retry: nat, retryAfter: int, step: int, now: int): Action {
    var age := now - t.birth;
    if now < (if now >= retryAfter then 0 else retryAfter) then Nothing
    else if period != 0 && age > 900 then Refresh
    else if period != 0 && (age > period - Tenth(period) || age > period - 6) then Refresh
    else if period != 0 && age > 120 && !Success(t) then Refresh
    else if age < 120 && t.status.Some? && t.status.value in {401, 407, 423, 606} then
      (if retry < 3 then Retry else Nothing)
    else if step == DELETION_REQUIRED && Success(t) then Delete
    else if step == MASQUERADING_REQUIRED && Success(t) then Masquerade
    else Nothing
  }

  /** What the timer does with a last transaction of a given age. It refreshes a registration that has a
      period when the age is above 900 seconds, or above the period less a tenth of it or less 6 seconds,
      whichever is shorter, or above 120 seconds without a success. Failing that, it tries again, no more
      than three times, up to the age of 120 seconds, when credentials or other parameters were asked for;
      and after a success it removes the contact that has moved, or registers it anew. */
  lemma TimerDecides(period: int, t: Transaction, retry: nat, retryAfter: int, step: int, now: int)
    ensures var action, age := TimerAction(period, t, retry, retryAfter, step, now), now - t.birth;
            var limit := if period >= 60 then period - period / 10 else period - 6;
            var success := t.status.Some? && 200 <= t.status.value <= 299;
            var due := period != 0 && (age > 900 || age > limit || (age > 120 && !success));
            if now < retryAfter || now < 0 then action == Nothing
            else
              && (action == Refresh <==> due)
              && (action == Retry <==> !due && age < 120 && retry <= 2 && t.status in {Some(401), Some(407), Some(423), Some(606)})
              && (action == Delete <==> !due && success && step == 2)
              && (action == Masquerade <==> !due && success && step == 4)
  {
    assert period < 60 ==> Tenth(period) < 6;
  }

  /** A digest challenge is answered at once, and at any time in the first two minutes. */
  lemma ChallengeAnswered(t: Transaction, retry: nat, step: int, age: nat)
    requires t.status == Some(401) && retry < 3 && age < 120 && t.birth >= 0
    ensures TimerAction(3600, t, retry, 0, step, t.birth + age) == Retry
    ensures TimerAction(0, t, retry, 0, step, t.birth + age) == Retry
  {
  }

  /** The birth time that `_eXosip_mark_registration_expired` gives the last transaction, for a failover
      counter that is `k` afterwards. */
  function ExpiredBirth(period: int, success: bool, k: nat, now: int): int {
    k + if !success then now - 120 else if period > 900 then now - 900 else now - period + Tenth(period)
  }

  /** The timer does nothing before `t + k` is over, and then refreshes. */
  ghost predicate FirstRefreshAfter(period: int, t: Transaction, retry: nat, retryAfter: int, step: int, now: int, k: nat) {
    && (forall at | now <= at <= now + k :: TimerAction(period, t, retry, retryAfter, step, at) == Nothing)
    && TimerAction(period, t, retry, retryAfter, step, now + k + 1) == Refresh
  }

  /** After a connection failure at `now`, without a Retry-After, the registration is refreshed exactly
      when `k` seconds have passed, if and only if, after a success, the period is from 60 to 900, or 999
      or more, and no contact is being learnt; or, after a failure, the period is at least 133 and no
      retry with other credentials or parameters is left. */
  lemma BackOff(period: int, t: Transaction, retry: nat, retryAfter: int, step: int, now: int, k: nat)
    requires period > 0 && 1 <= k <= 60 && retryAfter <= now && 0 <= now
    requires t.birth == ExpiredBirth(period, Success(t), k, now)
    ensures FirstRefreshAfter(period, t, retry, retryAfter, step, now, k) <==>
            if Success(t) then (60 <= period <= 900 || 999 <= period) && step !in {2, 4}
            else period >= 133 && (t.status.Some? && t.status.value in {401, 407, 423, 606} ==> retry >= 3)
  {
    assert TimerAction(period, t, retry, retryAfter, step, now + k + 1) == Refresh;
    var a0 := TimerAction(period, t, retry, retryAfter, step, now);
    var ak := TimerAction(period, t, retry, retryAfter, step, now + k);
  }

  // ----- what a success makes of the period -----

  /** The period after a success: an Expires header counts when it is shorter by more than 15 seconds; the
      time granted to the contact then, also when it is longer. */
  function NewPeriod(period: int, expires: Option<int>, granted: nat): int {
    var p := if expires.Some? && 0 < expires.value < period - 15 then expires.value else period;
    if granted != 0 && (granted < p - 15 || granted > p) then granted else p
  }

  /** Without a time for the contact, a positive Expires header shortens the period to its own value when
      that is shorter by more than 15 seconds; nothing else changes it. With one, the period is as long,
      unless it is longer by 15 seconds at most already. */
  lemma PeriodCases(period: int, expires: Option<int>, granted: nat)
    ensures var p := NewPeriod(period, expires, 0);
            && (expires.Some? && 0 < expires.value && expires.value + 15 < period ==> p == expires.value)
            && (expires.None? || expires.value <= 0 || period <= expires.value + 15 ==> p == period)
            && (granted > 0 ==>
                  NewPeriod(period, expires, granted) == if granted <= p <= granted + 15 then p else granted)
  {
  }

  /** The time granted to the contact is never taken for longer, and at most for 15 seconds shorter, than
      the period is afterwards. */
  lemma PeriodFollows(period: int, expires: Option<int>, granted: nat)
    requires granted > 0
    ensures granted <= NewPeriod(period, expires, granted) <= granted + 15
  {
  }

  /** When the time granted for a success is over, the timer refreshes, at the latest. */
  predicate InTime(period: int, t: Transaction, retry: nat, step: int, granted: nat) {
    TimerAction(period, t, retry, 0, step, t.birth + granted) == Refresh
  }

  /** A registration is refreshed within the time granted to its contact, whatever period was asked for and
      whatever the Expires header says, if and only if at least 145 seconds were granted. */
  lemma GrantedInTime(t: Transaction, retry: nat, step: int, granted: nat)
    requires granted > 0 && Success(t) && t.birth >= 0
    ensures (forall asked, expires :: InTime(NewPeriod(asked, expires, granted), t, retry, step, granted)) <==>
            granted >= 145
  {
    if granted < 145 {
      assert NewPeriod(granted + 15, None, granted) == granted + 15;
      assert !InTime(granted + 15, t, retry, step, granted);
    } else {
      forall asked, expires ensures InTime(NewPeriod(asked, expires, granted), t, retry, step, granted) {
        PeriodFollows(asked, expires, granted);
      }
    }
  }

  /** 60 seconds granted where 75 were asked for: the period stays 75, and when the 60 are over, nothing has
      been done. */
  lemma LateRefresh()
    ensures var t := Transaction(Request(0, "1", 75), None, Completed, 0, Some(200), None);
            NewPeriod(75, None, 60) == 75 && forall at | 0 <= at <= 60 :: TimerAction(75, t, 0, 0, 0, at) == Nothing
  {
  }

  // ----- the transactions of a registration -----

  /** `r` is built from `q`. */
  predicate Continues(q: Request, r: Request) {
    r.callId == q.callId && r.cseq == NextCSeq(q.cseq)
  }

  /** Each request that was built from another comes behind that one and continues it. */
  ghost predicate Linked(begun: seq<Transaction>) {
    forall k | 0 <= k < |begun| && begun[k].from.Some? ::
      begun[k].from.value < k && Continues(begun[begun[k].from.value].request, begun[k].request)
  }

  /** No two requests were built from the same one. */
  ghost predicate Unforked(begun: seq<Transaction>) {
    forall j, k | 0 <= j < k < |begun| && begun[j].from.Some? :: begun[j].from != begun[k].from
  }

  /** Nothing has been built from transaction `l` yet. */
  ghost predicate Spare(begun: seq<Transaction>, built: map<nat, Request>, l: nat) {
    l < |begun| && l !in built && forall k | 0 <= k < |begun| :: begun[k].from != Some(l)
  }

  /** All transactions that ever began, the last one, and the requests that are built, by the transaction
      from which, but not sent: only the last can still be open, and nothing is built from it. */
  ghost predicate Orderly(begun: seq<Transaction>, last: Option<nat>, built: map<nat, Request>) {
    && Linked(begun) && Unforked(begun)
    && (forall i | 0 <= i < |begun| && !Finished(begun[i]) :: last == Some(i))
    && (last.Some? ==> Spare(begun, built, last.value))
    && (forall j | j in built :: Spare(begun, map[], j) && Continues(begun[j].request, built[j]))
  }

  /** How many transactions have no final response. */
  function OpenCount(begun: seq<Transaction>): nat {
    if begun == [] then 0
    else OpenCount(begun[..|begun| - 1]) + if Finished(begun[|begun| - 1]) then 0 else 1
  }

  lemma {:induction false} OneOpen(begun: seq<Transaction>, last: Option<nat>, n: nat)
    requires forall i | 0 <= i < |begun| && !Finished(begun[i]) :: last == Some(i)
    requires n <= |begun|
    ensures OpenCount(begun[..n]) <= if last.Some? && last.value < n then 1 else 0
    decreases n
  {
    if n > 0 {
      OneOpen(begun, last, n - 1);
      assert begun[..n][..n - 1] == begun[..n - 1];
    }
  }

  lemma AtMostOneOpen(begun: seq<Transaction>, last: Option<nat>, built: map<nat, Request>)
    requires Orderly(begun, last, built)
    ensures OpenCount(begun) <= 1
  {
    OneOpen(begun, last, |begun|);
    assert begun[..|begun|] == begun;
  }

  lemma PutAway(begun: seq<Transaction>, l: nat, built: map<nat, Request>)
    requires Orderly(begun, Some(l), built) && Finished(begun[l])
    ensures Orderly(begun, None, built) && Spare(begun, built, l)
  {
  }

  lemma BuiltKept(begun: seq<Transaction>, built: map<nat, Request>, l: nat, r: Request)
    requires Orderly(begun, None, built) && Spare(begun, built, l) && Continues(begun[l].request, r)
    ensures Orderly(begun, None, built[l := r])
  {
  }

  lemma BuiltTaken(begun: seq<Transaction>, last: Option<nat>, built: map<nat, Request>, j: nat)
    requires Orderly(begun, last, built) && j in built
    ensures Orderly(begun, last, built - {j}) && Spare(begun, built - {j}, j) && last != Some(j)
  {
  }

  lemma NextBegun(begun: seq<Transaction>, last: Option<nat>, built: map<nat, Request>, t: Transaction)
    requires Orderly(begun, last, built) && (last.Some? ==> Finished(begun[last.value]))
    requires t.from.Some? ==>
               Spare(begun, built, t.from.value) && last != t.from && Continues(begun[t.from.value].request, t.request)
    ensures Orderly(begun + [t], Some(|begun|), built)
  {
    hide Continues;
    var all := begun + [t];
    assert forall i | 0 <= i < |begun| :: all[i] == begun[i];
    assert forall i | 0 <= i < |begun| :: Finished(begun[i]);
    assert forall k | 0 <= k < |begun| && begun[k].from.Some? :: begun[k].from.value < k;
  }

  lemma StateChanged(begun: seq<Transaction>, last: Option<nat>, built: map<nat, Request>, i: nat, t: Transaction)
    requires Orderly(begun, last, built) && i < |begun|
    requires t.request == begun[i].request && t.from == begun[i].from && (Finished(begun[i]) ==> Finished(t))
    ensures Orderly(begun[i := t], last, built)
  {
    hide Continues;
    var all := begun[i := t];
    assert forall k | 0 <= k < |begun| :: all[k].request == begun[k].request && all[k].from == begun[k].from;
  }

  // ----- series of requests -----

  /** How many requests come before this one in its series, and the first of them. */
  function Depth(begun: seq<Transaction>, k: nat): nat
    requires k < |begun|
  {
    if begun[k].from.Some? && begun[k].from.value < k then Depth(begun, begun[k].from.value) + 1 else 0
  }

  function Root(begun: seq<Transaction>, k: nat): (r: nat)
    requires k < |begun|
    ensures r < |begun|
  {
    if begun[k].from.Some? && begun[k].from.value < k then Root(begun, begun[k].from.value) else k
  }

  /** Along a series, the Call-ID stays, and the CSeq numbers count up from the first, as long as, and only
      as long as, they fit an `int`. */
  lemma {:induction false} SeriesNumbers(begun: seq<Transaction>, k: nat)
    requires Linked(begun) && k < |begun|
    requires IsNumeral(begun[Root(begun, k)].request.cseq, Dec)
    ensures begun[k].request.callId == begun[Root(begun, k)].request.callId
    ensures var first, n := ValueOf(begun[Root(begun, k)].request.cseq, Dec), Depth(begun, k);
            IsNumeral(begun[k].request.cseq, Dec) && ValueOf(begun[k].request.cseq, Dec) == first + n <==>
            n == 0 || first + n <= INT_MAX
  {
    hide NextCSeq, IsNumeral, ValueOf;
    if begun[k].from.Some? {
      var j := begun[k].from.value;
      SeriesNumbers(begun, j);
      NextCSeqBounded(begun[j].request.cseq);
      if ValueOf(begun[Root(begun, k)].request.cseq, Dec) + Depth(begun, k) <= INT_MAX {
        NextCSeqIsNext(begun[j].request.cseq);
      }
    }
  }

  // ----- the registration -----

  /** The request to send: built now; one of the caller's own; or the one that was built from transaction
      `j` and given to the caller. */
  datatype Given = Fresh | Own(request: Request) | Built(j: nat)

  class Register {
    var period: int
    var expire: int
    var retry: nat
    var failover: nat
    var retryAfter: int
    var step: int
    /** When the removal of a contact was last called for; 0 when that is some time ago. */
    var lastDeletion: int
    /** All transactions of the registration, in the order in which they began. The pointer `r_last_tr` and
        those in `j_transactions`, put away, are places in it. */
    var begun: seq<Transaction>
    var last: Option<nat>
    var done: seq<nat>
    /** The requests in the hands of the caller, by the transaction each was built from. */
    var built: map<nat, Request>

    ghost predicate Valid()
      reads this
    {
      && Orderly(begun, last, built) && failover <= 60
      && forall i | i in done :: i < |begun| && Finished(begun[i])
    }

    /** The last transaction has no final response. */
    predicate Waiting()
      requires Valid()
      reads this
    {
      last.Some? && !Finished(begun[last.value])
    }

    /** `eXosip_register_build_initial_register`, up to the request. */
    constructor (expires: int, autoMasquerade: bool)
      ensures Valid() && begun == [] && last == None && done == [] && built == map[]
      ensures period == expire == if expires <= 0 then 0 else if expires < 30 then 30 else expires
      ensures step == (if autoMasquerade then 5 else 0) && retry == failover == 0 == retryAfter == lastDeletion
    {
      period := if expires <= 0 then 0 else if expires < 30 then 30 else expires;
      expire := if expires <= 0 then 0 else if expires < 30 then 30 else expires;
      retry, failover, retryAfter, lastDeletion := 0, 0, 0, 0;
      step := if autoMasquerade then MASQUERADING_PROCEEDING else 0;
      begun, last, done, built := [], None, [], map[];
    }

    /** `_eXosip_register_build_register`: the next request is made from the last one, which is put away;
        with no last one, `initial` is what building a first request gives. */
    method BuildNext(initial: Result<Request>) returns (r: Result<Request>, from: Option<nat>)
      requires Valid()
      modifies this`last, this`done, this`period, this`expire, this`step
      ensures Valid() && from == if old(last).Some? && r.Ok? then old(last) else None
      ensures old(last).None? ==> r == initial && last == None && done == old(done)
      ensures old(Waiting()) ==> r == Err(WrongState) && last == old(last) && done == old(done)
      ensures old(last).Some? && !old(Waiting()) ==>
                var t := begun[old(last).value];
                && last == None && done == old(done) + [old(last).value]
                && r == (if t.status == Some(423) && t.minExpires == None then Err(SyntaxError)
                         else Ok(Request(t.request.callId, NextCSeq(t.request.cseq), expire)))
      ensures from.Some? ==> Spare(begun, built, from.value) && Continues(begun[from.value].request, r.value)
      ensures if from.Some? && begun[from.value].status == Some(423)
              then begun[from.value].minExpires == Some(expire) && period == expire
              else period == old(period) && expire == old(expire)
      ensures step == old(step) + if from.Some? && old(step) == 5 then 1 else 0
    {
      hide NextCSeq, Orderly;
      from := None;
      if last.None? {
        return initial, None;
      }
      LastBegun(begun, last, built);
      var t := begun[last.value];
      if !t.state.Terminated? && !t.state.Completed? {
        return Err(WrongState), None;
      }
      PutAway(begun, last.value, built);
      var was := last;
      done := done + [last.value];
      last := None;
      if t.status == Some(423) {
        if t.minExpires.None? {
          return Err(SyntaxError), None;
        }
        period := t.minExpires.value;
        expire := period;
      }
      if step == MASQUERADING_PROCEEDING {
        step := MASQUERADING_PROCEEDING + 1;
      }
      from := was;
      r := Ok(Request(t.request.callId, NextCSeq(t.request.cseq), expire));
    }

    /** A transaction begins with a request, built from another or not. */
    method Begin(request: Request, from: Option<nat>, now: int)
      requires Valid() && !Waiting()
      requires from.Some? ==>
                 Spare(begun, built, from.value) && last != from && Continues(begun[from.value].request, request)
      modifies this`begun, this`last
      ensures Valid() && last == Some(|old(begun)|)
      ensures begun == old(begun) + [Transaction(request, from, Trying, now, None, None)]
    {
      var t := Transaction(request, from, Trying, now, None, None);
      NextBegun(begun, last, built, t);
      hide Orderly, Spare, Continues;
      last := Some(|begun|);
      begun := begun + [t];
    }

    /** `eXosip_register_send_register`. */
    method Send(given: Given, initial: Result<Request>, now: int) returns (r: Result<()>)
      requires Valid() && (given.Built? ==> given.j in built)
      modifies this`begun, this`last, this`done, this`built, this`period, this`expire, this`step
      ensures Valid()
      ensures old(Waiting()) ==>
                && r == Err(WrongState) && begun == old(begun) && last == old(last) && done == old(done)
                && built == old(built) && step == old(step) && period == old(period) && expire == old(expire)
      ensures !old(Waiting()) ==>
                && (r.Ok? <==> !given.Fresh? || (if old(last).Some? then !NoMinExpires(old(begun)[old(last).value])
                                                 else initial.Ok?))
                && done == old(done) + (if given.Fresh? && old(last).Some? then [old(last).value] else [])
                && built == (if given.Built? then old(built) - {given.j} else old(built))
      ensures step == old(step) +
                if given.Fresh? && r.Ok? && old(last).Some? && old(step) == 5 then 1 else 0
      ensures r.Ok? ==>
                && last == Some(|old(begun)|) && |begun| == |old(begun)| + 1 && old(begun) <= begun
                && var t := begun[|old(begun)|];
                   && t == Transaction(t.request, t.from, Trying, now, None, None)
                   && (given.Own? ==> t.request == given.request && t.from == None)
                   && (given.Built? ==> t.request == old(built)[given.j] && t.from == Some(given.j))
                   && (given.Fresh? ==> t.from == old(last) && (old(last).None? ==> Ok(t.request) == initial))
      ensures !r.Ok? ==> begun == old(begun)
      ensures !r.Ok? && !old(Waiting()) ==> last == None
    {
      hide NextCSeq, Orderly, Spare, Continues;
      LastBegun(begun, last, built);
      if last.Some? && !begun[last.value].state.Terminated? && !begun[last.value].state.Completed? {
        return Err(WrongState);
      }
      var request: Request;
      var from: Option<nat> := None;
      match given {
        case Fresh =>
          var made: Result<Request>;
          made, from := BuildNext(initial);
          if made.Err? {
            return Err(made.error);
          }
          request := made.value;
        case Own(own) =>
          request := own;
        case Built(j) =>
          BuiltContinues(begun, last, built, j);
          BuiltTaken(begun, last, built, j);
          request, from := built[j], Some(j);
          built := built - {j};
      }
      Begin(request, from, now);
      return Ok(());
    }

    /** `eXosip_register_build_register`: the period is set first, whatever comes of the request. */
    method Build(expires: int, initial: Result<Request>) returns (r: Result<Request>)
      requires Valid()
      modifies this`last, this`done, this`built, this`period, this`expire, this`step, this`lastDeletion
      ensures Valid() && lastDeletion == if old(Waiting()) then old(lastDeletion) else 0
      ensures old(Waiting()) ==> r == Err(WrongState) && last == old(last) && done == old(done) && built == old(built)
      ensures old(last).None? ==> r == initial && last == None && done == old(done) && built == old(built)
      ensures old(last).Some? && !old(Waiting()) ==>
                var l := old(last).value;
                && last == None && done == old(done) + [l]
                && (r.Ok? <==> !NoMinExpires(begun[l]))
                && (r.Ok? ==> Continues(begun[l].request, r.value) && r.value.expires == expire)
                && built == (if r.Ok? then old(built)[l := r.value] else old(built))
      ensures !(r.Ok? && old(last).Some? && begun[old(last).value].status == Some(423)) ==>
                period == expire == if expires != 0 && expires < 30 then 30 else expires
    {
      hide NextCSeq, Orderly, Spare, Continues;
      period := if expires != 0 && expires < 30 then 30 else expires;
      expire := period;
      LastBegun(begun, last, built);
      if last.Some? && !begun[last.value].state.Terminated? && !begun[last.value].state.Completed? {
        return Err(WrongState);
      }
      lastDeletion := 0;
      var from: Option<nat>;
      r, from := BuildNext(initial);
      if from.Some? {
        BuiltKept(begun, built, from.value, r.value);
        built := built[from.value := r.value];
      }
    }

    /** `_eXosip_register_contact_is_modified`: another address calls for the removal of the contact, unless
        one was called for not long ago. */
    method ContactModified(moved: bool, now: int)
      modifies this`step, this`lastDeletion
      ensures var removal := period != 0 && old(lastDeletion) <= 0 && moved;
              && step == (if removal then 2 else old(step))
              && lastDeletion == (if removal then now else old(lastDeletion))
    {
      if period == 0 {
        return;
      }
      if lastDeletion > 0 {
        return;
      }
      if moved {
        step := DELETION_REQUIRED;
        lastDeletion := now;
      }
    }

    /** A success of the last transaction. */
    method Succeeded(response: Response, now: int)
      modifies this`period, this`step, this`lastDeletion, this`retry, this`failover
      ensures period == if old(step) == 3 then old(period)
                        else NewPeriod(old(period), response.expires, response.granted)
      ensures retry == failover == 0
      ensures var removal := old(step) > 4 && period != 0 && old(lastDeletion) <= 0 && response.moved;
              && step == (if old(step) == 3 then 4
                          else if removal then 2 else old(step))
              && lastDeletion == (if removal then now else old(lastDeletion))
    {
      if step != DELETION_PROCEEDING {
        if response.expires.Some? && response.expires.value > 0 && response.expires.value < period - 15 {
          period := response.expires.value;
        }
        if response.granted != 0 {
          if response.granted < period - 15 {
            period := response.granted;
          } else if response.granted > period {
            period := response.granted;
          }
        }
      }
      if step == DELETION_PROCEEDING {
        step := MASQUERADING_REQUIRED;
      }
      if step > MASQUERADING_REQUIRED {
        ContactModified(response.moved, now);
      }
      retry := 0;
      failover := 0;
    }

    /** The transaction layer moves transaction `i` on: a provisional or final response, or its end. Only a
        final response to the last one matters to the registration. */
    method Progress(i: nat, state: State, response: Option<Response>, now: int)
      requires Valid() && Legal(begun, i, state, response)
      modifies this`begun, this`retry, this`failover, this`period, this`step, this`lastDeletion
      ensures Valid() && begun == old(begun)[i := Moved(old(begun)[i], state, response)]
      ensures var final := !Finished(old(begun)[i]) && last == Some(i) && response.Some? && 200 <= response.value.status;
              var success := final && response.value.status < 300;
              var removal := final && old(step) > 4 && period != 0 && old(lastDeletion) <= 0
                             && response.value.moved;
              && period == (if success && old(step) != 3
                            then NewPeriod(old(period), response.value.expires, response.value.granted) else old(period))
              && step == (if removal then 2
                          else if success && old(step) == 3 then 4 else old(step))
              && lastDeletion == (if removal then now else old(lastDeletion))
              && retry == (if success then 0 else old(retry)) && failover == (if success then 0 else old(failover))
    {
      StateChanged(begun, last, built, i, Moved(begun[i], state, response));
      hide Orderly, NewPeriod;
      var final := !Finished(begun[i]) && last == Some(i) && response.Some? && 200 <= response.value.status;
      begun := begun[i := Moved(begun[i], state, response)];
      if final {
        if response.value.status < 300 {
          Succeeded(response.value, now);
        } else if step > MASQUERADING_REQUIRED {
          ContactModified(response.value.moved, now);
        }
      }
    }

    /** The registration part of `eXosip_automatic_action`. */
    method Timer(initial: Result<Request>, now: int) returns (ghost action: Action)
      requires Valid()
      modifies this`begun, this`last, this`done, this`built, this`period, this`expire, this`step, this`retry, this`retryAfter
      ensures Valid() && built == old(built)
      ensures action == if old(last).None? then Nothing
                        else TimerAction(old(period), old(begun)[old(last).value], old(retry), old(retryAfter), old(step), now)
      ensures retry == old(retry) + (if action == Retry then 1 else 0)
      ensures action == Nothing || old(Waiting()) ==> last == old(last) && begun == old(begun) && done == old(done)
      ensures action == Nothing ==> step == old(step)
      ensures action != Nothing && !old(Waiting()) ==>
                var l := old(last).value;
                && done == old(done) + [l] && old(begun) <= begun
                && if NoMinExpires(old(begun)[l]) then last == None && begun == old(begun)
                   else
                     && last == Some(|old(begun)|) && |begun| == |old(begun)| + 1
                     && var t := begun[|old(begun)|]; t == Transaction(t.request, old(last), Trying, now, None, None)
      ensures old(last).Some? ==> retryAfter == if now >= old(retryAfter) then 0 else old(retryAfter)
      ensures action == Delete ==>
                step == if old(Waiting()) then 2 else 3
      ensures action == Masquerade ==>
                step == if old(Waiting()) then 4 else 6
    {
      hide NextCSeq, Orderly, Spare, Continues, Tenth;
      if last.None? {
        return Nothing;
      }
      LastBegun(begun, last, built);
      var t := begun[last.value];
      action := TimerAction(period, t, retry, retryAfter, step, now);
      if now >= retryAfter {
        retryAfter := 0;
      }
      var age := now - t.birth;
      if now < retryAfter {
      } else if period != 0 && age > 900 {
        var _ := Send(Fresh, initial, now);
      } else if period != 0 && (age > period - Tenth(period) || age > period - 6) {
        var _ := Send(Fresh, initial, now);
      } else if period != 0 && age > 120 && !Success(t) {
        var _ := Send(Fresh, initial, now);
      } else if age < 120 && t.status.Some? && t.status.value in {401, 407, 423, 606} {
        if retry < 3 {
          var _ := Send(Fresh, initial, now);
          retry := retry + 1;
        }
      } else if step == DELETION_REQUIRED && Success(t) {
        step := DELETION_PROCEEDING;
        var r := Send(Fresh, initial, now);
        if !r.Ok? {
          step := DELETION_REQUIRED;
        }
      } else if step == MASQUERADING_REQUIRED && Success(t) {
        step := MASQUERADING_PROCEEDING;
        var r := Send(Fresh, initial, now);
        if !r.Ok? {
          step := MASQUERADING_REQUIRED;
        }
      }
    }

    /** The end of that part: after a minute, a contact may be removed again. */
    method ForgetDeletion(now: int)
      modifies this`lastDeletion
      ensures lastDeletion == if old(lastDeletion) + 60 < now then 0 else old(lastDeletion)
    {
      if lastDeletion != 0 && lastDeletion + 60 < now {
        lastDeletion := 0;
      }
    }

    /** `_eXosip_mark_registration_expired`, for the Call-ID of this registration. */
    method MarkExpired(retryAfterHeader: Option<int>, now: int)
      requires Valid()
      modifies this`begun, this`failover, this`retryAfter
      ensures Valid()
      ensures last.None? || period <= 0 ==> begun == old(begun) && failover == old(failover) && retryAfter == old(retryAfter)
      ensures last.Some? && period > 0 ==>
                && last.value < |old(begun)|
                && var t := old(begun)[last.value];
                && failover == (if old(failover) < 60 then old(failover) + 1 else 60)
                && begun == old(begun)[last.value := t.(birth := ExpiredBirth(period, Success(t), failover, now))]
                && retryAfter == (if t.status.None? || Success(t) || retryAfterHeader.None? then old(retryAfter)
                                  else if retryAfterHeader.value > 0 then retryAfterHeader.value + now else 0)
    {
      hide Orderly;
      if last.None? || period <= 0 {
        return;
      }
      LastBegun(begun, last, built);
      var t := begun[last.value];
      var birth: int;
      if t.status.None? || !Success(t) {
        if t.status.Some? && retryAfterHeader.Some? {
          retryAfter := if retryAfterHeader.value > 0 then retryAfterHeader.value + now else 0;
        }
        birth := now - 120;
      } else if period > 900 {
        birth := now - 900;
      } else {
        birth := now - period + Tenth(period);
      }
      if failover < 60 {
        failover := failover + 1;
      }
      StateChanged(begun, last, built, last.value, t.(birth := birth + failover));
      begun := begun[last.value := t.(birth := birth + failover)];
    }
  }

  /** The moves of a client transaction: a finished one can only end, and a final response finishes it. */
  predicate Legal(begun: seq<Transaction>, i: nat, state: State, response: Option<Response>) {
    && i < |begun| && (Finished(begun[i]) ==> state.Terminated?)
    && (response.Some? && 200 <= response.value.status ==> state.Completed? || state.Terminated?)
  }

  /** A transaction after such a move; a response to a finished one is not looked at. */
  function Moved(t: Transaction, state: State, response: Option<Response>): Transaction {
    if Finished(t) || response.None? then t.(state := state)
    else t.(state := state, status := Some(response.value.status), minExpires := response.value.minExpires)
  }

  /** The response is looked at while there was no final one; what began the transaction never changes. */
  lemma MovedTells(t: Transaction, state: State, response: Response)
    ensures var m := Moved(t, state, Some(response));
            && m.state == state && m.request == t.request && m.from == t.from && m.birth == t.birth
            && (t.state in {Trying, Proceeding} ==> m.status == Some(response.status) && m.minExpires == response.minExpires)
            && (t.state in {Completed, Terminated} ==> m.status == t.status && m.minExpires == t.minExpires)
    ensures Moved(t, state, None) == t.(state := state)
  {
  }

  lemma LastBegun(begun: seq<Transaction>, last: Option<nat>, built: map<nat, Request>)
    requires Orderly(begun, last, built)
    ensures last.Some? ==> last.value < |begun|
  {
  }

  lemma BuiltContinues(begun: seq<Transaction>, last: Option<nat>, built: map<nat, Request>, j: nat)
    requires Orderly(begun, last, built) && j in built
    ensures j < |begun| && Continues(begun[j].request, built[j])
  {
  }

  // ----- runs -----

  /** What can happen to a registration. */
  datatype Event =
    | Builds(expires: int, initial: Result<Request>)
    | Sends(given: Given, initial: Result<Request>, now: int)
    | Moves(i: nat, state: State, response: Option<Response>, now: int)
    | Ticks(initial: Result<Request>, now: int)
    | Fails(retryAfter: Option<int>, now: int)

  /** In every run of builds, requests sent (built just then, built before, or the caller's own), moves of
      any transactions, timer passes and connection failures, at most one of all the transactions that ever
      began is open; each request built from another has its Call-ID and the next CSeq number, and no two
      are built from the same. */
  method Run(expires: int, autoMasquerade: bool, events: seq<Event>) returns (r: Register)
    ensures r.Valid() && OpenCount(r.begun) <= 1 && Linked(r.begun) && Unforked(r.begun)
  {
    hide Orderly;
    r := new Register(expires, autoMasquerade);
    for k := 0 to |events|
      invariant fresh(r) && r.Valid()
    {
      match events[k] {
        case Builds(period, initial) =>
          var _ := r.Build(period, initial);
        case Sends(given, initial, now) =>
          if given.Built? ==> given.j in r.built {
            var _ := r.Send(given, initial, now);
          }
        case Moves(i, state, response, now) =>
          if Legal(r.begun, i, state, response) {
            r.Progress(i, state, response, now);
          }
        case Ticks(initial, now) =>
          var _ := r.Timer(initial, now);
          r.ForgetDeletion(now);
        case Fails(retryAfter, now) =>
          r.MarkExpired(retryAfter, now);
      }
    }
    AtMostOneOpen(r.begun, r.last, r.built);
    OrderlyIs(r.begun, r.last, r.built);
  }

  lemma OrderlyIs(begun: seq<Transaction>, last: Option<nat>, built: map<nat, Request>)
    requires Orderly(begun, last, built)
    ensures Linked(begun) && Unforked(begun)
  {
  }
}

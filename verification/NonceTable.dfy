/** The table of digest challenges kept for later requests, with their nonce counts (section 3.2.2 of
    RFC 2617). */
module NonceTable {
  import opened Basics
  import opened CText
  import opened Numerals

  const MAX_HTTP_AUTH: nat := 100
  const CALL_ID_SIZE: nat := 64

  /** A slot of the table, free when its Call-ID is empty: the challenge it keeps, by its number in the
      order of arrival, and the count that last went into a request for it. */
  datatype Slot = Slot(callId: string, realm: Option<string>, challenge: nat, count: nat, code: int)

  const FREE: Slot := Slot("", None, 0, 0, 0)

  predicate Live(s: Slot) {
    s.callId != ""
  }

  predicate SameRealm(a: Option<string>, b: Option<string>) {
    match (a, b)
    case (None, None) => true
    case (Some(x), Some(y)) => LowerAll(x) == LowerAll(y)
    case (_, _) => false
  }

  /** The slot is the one for this Call-ID and realm, letter case aside. */
  predicate IsFor(s: Slot, callId: string, realm: Option<string>) {
    Live(s) && LowerAll(s.callId) == LowerAll(callId) && SameRealm(s.realm, realm)
  }

  /** Two texts of the same length, letter case aside. */
  predicate SameText(a: string, b: string) {
    |a| == |b| && forall i | 0 <= i < |a| :: Lower(a[i]) == Lower(b[i])
  }

  /** A slot is looked up by both; a request uses it by the Call-ID alone. */
  lemma SlotMeaning(s: Slot, callId: string, realm: Option<string>)
    ensures Used(s, callId) <==> s.callId != "" && SameText(s.callId, callId)
    ensures IsFor(s, callId, realm) <==>
              && Used(s, callId)
              && (realm.None? <==> s.realm.None?) && (realm.Some? && s.realm.Some? ==> SameText(s.realm.value, realm.value))
  {
    LowerSame(s.callId, callId);
    if realm.Some? && s.realm.Some? { LowerSame(s.realm.value, realm.value); }
    hide LowerAll, SameText;
  }

  lemma LowerSame(a: string, b: string)
    ensures LowerAll(a) == LowerAll(b) <==> SameText(a, b)
  {
    var x, y := LowerAll(a), LowerAll(b);
    if x == y {
      forall i | 0 <= i < |a| ensures Lower(a[i]) == Lower(b[i]) { assert x[i] == y[i]; }
    }
  }

  /** No Call-ID and realm have two slots. */
  ghost predicate Unique(t: seq<Slot>) {
    forall i, j | 0 <= i < j < |t| && Live(t[i]) :: !IsFor(t[j], t[i].callId, t[i].realm)
  }

  /** What a slot of 64 characters keeps of a Call-ID; the last is for the NUL. */
  function Kept(callId: string): string {
    if |callId| < CALL_ID_SIZE then callId else callId[..CALL_ID_SIZE - 1]
  }

  /** A count that went into a request, and the challenge it was for. */
  datatype Sent = Sent(challenge: nat, count: nat)

  // ----- the counts as they are printed -----

  function Zeros(k: nat): string {
    if k == 0 then "" else Zeros(k - 1) + "0"
  }

  /** `%.8i` into nine bytes. */
  function Printed(n: nat): string {
    var s := Numeral(n, Dec);
    Snprintf(9, if |s| < 8 then Zeros(8 - |s|) + s else s)
  }

  /** Decimal digits read as hexadecimal ones. */
  function HexOfDec(n: nat): nat {
    if n < 10 then n else 16 * HexOfDec(n / 10) + n % 10
  }

  lemma {:induction false} HexOfDecIncreases(a: nat, b: nat)
    requires a < b
    ensures HexOfDec(a) < HexOfDec(b)
    decreases b
  {
    if b >= 10 {
      if a / 10 < b / 10 { HexOfDecIncreases(a / 10, b / 10); }
      assert HexOfDec(a) == 16 * HexOfDec(a / 10) + a % 10;
    }
  }

  lemma {:induction false} DecReadAsHex(n: nat)
    ensures ValueOf(Numeral(n, Dec), Hex) == HexOfDec(n)
    decreases n
  {
    var s := Numeral(n, Dec);
    if n < 10 {
      assert s[..0] == "";
    } else {
      DecReadAsHex(n / 10);
      assert s[..|s| - 1] == Numeral(n / 10, Dec);
    }
  }

  lemma {:induction false} ZerosValue(k: nat)
    ensures ValueOf(Zeros(k), Hex) == 0
  {
    if k > 0 {
      ZerosValue(k - 1);
      assert Zeros(k)[..|Zeros(k)| - 1] == Zeros(k - 1);
    }
  }

  lemma {:induction false} LeadingZeros(z: string, s: string)
    requires ValueOf(z, Hex) == 0
    ensures ValueOf(z + s, Hex) == ValueOf(s, Hex)
    decreases |s|
  {
    if s == "" {
      assert z + s == z;
    } else {
      var t := s[..|s| - 1];
      assert (z + s)[..|z + s| - 1] == z + t && (z + s)[|z + s| - 1] == s[|s| - 1];
      LeadingZeros(z, t);
    }
  }

  lemma {:induction false} ZerosLength(k: nat)
    ensures |Zeros(k)| == k
  {
    if k > 0 { ZerosLength(k - 1); }
  }

  /** The printed count is eight characters long, and reads as a hexadecimal number. */
  lemma PrintedReads(n: nat)
    requires n < 100_000_000
    ensures |Printed(n)| == 8 && ValueOf(Printed(n), Hex) == HexOfDec(n)
  {
    EightDigits(n);
    DecReadAsHex(n);
    hide Numeral, ValueOf, Zeros;
    var s := Numeral(n, Dec);
    ZerosValue(8 - |s|);
    LeadingZeros(Zeros(8 - |s|), s);
    ZerosLength(8 - |s|);
  }

  lemma EightDigits(n: nat)
    ensures |Numeral(n, Dec)| <= 8 <==> n < 100_000_000
    ensures |Numeral(n, Dec)| <= 7 <==> n < 10_000_000
  {
    assert Power(Dec, 2) == 100;
    assert Power(Dec, 4) == 10_000;
    assert Power(Dec, 6) == 1_000_000;
    assert Power(Dec, 8) == 100_000_000;
    NumeralLength(n, Dec, 8);
    NumeralLength(n, Dec, 7);
  }

  /** Of counts below `limit`, the greater is always printed as the greater nonce count, if and only if
      the limit is not above 10^8. */
  lemma PrintedIncreases(limit: nat)
    ensures (forall a: nat, b: nat | a < b < limit :: ValueOf(Printed(a), Hex) < ValueOf(Printed(b), Hex)) <==>
            limit <= 100_000_000
  {
    hide Printed, ValueOf;
    if limit <= 100_000_000 {
      forall a: nat, b: nat | a < b < limit ensures ValueOf(Printed(a), Hex) < ValueOf(Printed(b), Hex) {
        PrintedReads(a);
        PrintedReads(b);
        HexOfDecIncreases(a, b);
      }
    } else {
      PrintedTooLong();
      assert 99_999_999 < 100_000_000 < limit;
    }
  }

  lemma SomePrinted()
    ensures Printed(1) == "00000001" && Printed(12) == "00000012"
  {
    assert Numeral(1, Dec) == "1" && Numeral(12, Dec) == "12";
    assert Zeros(3) == "000" && Zeros(6) == "000000" && Zeros(7) == "0000000";
  }

  /** The ninth digit is cut off. */
  lemma PrintedTooLong()
    ensures Printed(100_000_000) == Printed(10_000_000)
    ensures ValueOf(Printed(100_000_000), Hex) < ValueOf(Printed(99_999_999), Hex)
  {
    NinthDigit(10_000_000);
    hide Printed, ValueOf, HexOfDec;
    PrintedReads(10_000_000);
    PrintedReads(99_999_999);
    HexOfDecIncreases(10_000_000, 99_999_999);
  }

  lemma NinthDigit(n: nat)
    requires 10_000_000 <= n < 100_000_000
    ensures Printed(10 * n) == Printed(n)
  {
    var s := Numeral(n, Dec);
    EightDigits(n);
    assert Dec.Div(10 * n) == n && Numeral(10 * n, Dec) == s + [Digit(0)];
  }

  // ----- storing a challenge -----

  function FindFor(t: seq<Slot>, i: nat, callId: string, realm: Option<string>): (r: Option<nat>)
    ensures match r
            case None => forall j | i <= j < |t| :: !IsFor(t[j], callId, realm)
            case Some(k) => i <= k < |t| && IsFor(t[k], callId, realm) && forall j | i <= j < k :: !IsFor(t[j], callId, realm)
    decreases |t| - i
  {
    if i >= |t| then None else if IsFor(t[i], callId, realm) then Some(i) else FindFor(t, i + 1, callId, realm)
  }

  function FindFree(t: seq<Slot>, i: nat): (r: Option<nat>)
    ensures match r
            case None => forall j | i <= j < |t| :: Live(t[j])
            case Some(k) => i <= k < |t| && !Live(t[k]) && forall j | i <= j < k :: Live(t[j])
    decreases |t| - i
  {
    if i >= |t| then None else if !Live(t[i]) then Some(i) else FindFree(t, i + 1)
  }

  /** The table after a challenge: in the slot for its Call-ID and realm, or else the first free one. */
  function Stored(t: seq<Slot>, callId: string, realm: Option<string>, challenge: nat, code: int): (r: seq<Slot>)
    ensures |r| == |t|
  {
    match FindFor(t, 0, callId, realm)
    case Some(k) => t[k := t[k].(realm := realm, challenge := challenge, count := 1)]
    case None =>
      match FindFree(t, 0)
      case Some(k) => t[k := Slot(Kept(callId), realm, challenge, 1, code)]
      case None => t
  }

  /** A challenge replaces the one in the first slot for its Call-ID and realm, and its count begins with 1;
      without such a slot it goes to the first free one, with as much of the Call-ID as fits; a full table
      stays as it is. */
  lemma StoredTells(t: seq<Slot>, callId: string, realm: Option<string>, challenge: nat, code: int)
    ensures var t' := Stored(t, callId, realm, challenge, code);
            if exists k :: 0 <= k < |t| && IsFor(t[k], callId, realm) then
              exists k :: 0 <= k < |t| && IsFor(t[k], callId, realm) && (forall j | 0 <= j < k :: !IsFor(t[j], callId, realm))
                          && t' == t[k := Slot(t[k].callId, realm, challenge, 1, t[k].code)]
            else if exists k :: 0 <= k < |t| && t[k].callId == "" then
              exists k :: 0 <= k < |t| && t[k].callId == "" && (forall j | 0 <= j < k :: t[j].callId != "")
                          && t' == t[k := Slot(if |callId| <= 63 then callId else callId[..63], realm, challenge, 1, code)]
            else t' == t
  {
    hide IsFor;
    match FindFor(t, 0, callId, realm)
    case Some(k) => assert IsFor(t[k], callId, realm);
    case None =>
      match FindFree(t, 0)
      case Some(k) => assert t[k].callId == "";
      case None =>
  }

  /** Storing keeps the table free of duplicates, unless a Call-ID too long for its slot is cut to one
      that already has a slot for the realm. */
  lemma StoredUnique(t: seq<Slot>, callId: string, realm: Option<string>, challenge: nat, code: int)
    requires Unique(t)
    ensures Unique(Stored(t, callId, realm, challenge, code)) <==>
            || FindFor(t, 0, callId, realm).Some? || FindFree(t, 0).None?
            || FindFor(t, 0, Kept(callId), realm).None?
    ensures |callId| < 64 ==> Unique(Stored(t, callId, realm, challenge, code))
  {
    hide LowerAll;
    var t' := Stored(t, callId, realm, challenge, code);
    match FindFor(t, 0, callId, realm)
    case Some(k) =>
      forall i, j | 0 <= i < j < |t| && Live(t'[i]) ensures !IsFor(t'[j], t'[i].callId, t'[i].realm) {
        assert !IsFor(t[j], t[i].callId, t[i].realm);
      }
    case None =>
      match FindFree(t, 0)
      case None =>
      case Some(k) =>
        match FindFor(t, 0, Kept(callId), realm)
        case Some(m) =>
          assert m != k;
          assert if m < k then IsFor(t'[k], t'[m].callId, t'[m].realm) else IsFor(t'[m], t'[k].callId, t'[k].realm);
        case None =>
          forall i, j | 0 <= i < j < |t| && Live(t'[i]) ensures !IsFor(t'[j], t'[i].callId, t'[i].realm) {
            if i != k && j != k { assert !IsFor(t[j], t[i].callId, t[i].realm); }
          }
  }

  // ----- the table in place, and the counts sent -----

  /** The counts sent for one challenge strictly increase. */
  ghost predicate Increasing(log: seq<Sent>) {
    forall i, j | 0 <= i < j < |log| && log[i].challenge == log[j].challenge :: log[i].count < log[j].count
  }

  /** Every live slot keeps a challenge of its own, and the count last sent for it. */
  ghost predicate UpToDate(t: seq<Slot>, log: seq<Sent>, challenges: nat) {
    && (forall s | s in log :: s.challenge < challenges)
    && (forall i | 0 <= i < |t| && Live(t[i]) :: t[i].challenge < challenges)
    && (forall i, j | 0 <= i < j < |t| && Live(t[i]) && Live(t[j]) :: t[i].challenge != t[j].challenge)
    && (forall i, s | 0 <= i < |t| && Live(t[i]) && s in log && s.challenge == t[i].challenge :: s.count <= t[i].count)
  }

  /** The requests of this Call-ID use a slot. */
  predicate Used(s: Slot, callId: string) {
    Live(s) && LowerAll(s.callId) == LowerAll(callId)
  }

  /** The counts sent with a request, for the slots before `k`. */
  function Counts(t: seq<Slot>, callId: string, k: nat): seq<Sent>
    requires k <= |t|
  {
    if k == 0 then []
    else Counts(t, callId, k - 1) + if Used(t[k - 1], callId) then [Sent(t[k - 1].challenge, t[k - 1].count + 1)] else []
  }

  lemma StoredUpToDate(t: seq<Slot>, log: seq<Sent>, n: nat, callId: string, realm: Option<string>, code: int)
    requires UpToDate(t, log, n) && Increasing(log)
    ensures UpToDate(Stored(t, callId, realm, n, code), log + [Sent(n, 1)], n + 1)
    ensures Increasing(log + [Sent(n, 1)])
  {
    NotStored(t, log, n);
    FirstSent(log, n);
    OneStored(t, callId, realm, n, code);
    hide *;
    var t' := Stored(t, callId, realm, n, code);
    if t' != t {
      var k :| 0 <= k < |t| && t' == t[k := t'[k]] && t'[k].challenge == n && t'[k].count == 1;
      SlotReplaced(t, log, n, k, t'[k]);
    }
  }

  /** At most one slot changes, and begins with the count 1 for the new challenge. */
  lemma OneStored(t: seq<Slot>, callId: string, realm: Option<string>, n: nat, code: int)
    ensures var t' := Stored(t, callId, realm, n, code);
            |t'| == |t| &&
            (t' != t ==> exists k :: 0 <= k < |t| && t' == t[k := t'[k]] && t'[k].challenge == n && t'[k].count == 1)
  {
    hide IsFor;
    var t' := Stored(t, callId, realm, n, code);
    match FindFor(t, 0, callId, realm)
    case Some(k) => assert t' == t[k := t'[k]];
    case None =>
      match FindFree(t, 0)
      case Some(k) => assert t' == t[k := t'[k]];
      case None =>
  }

  lemma SlotReplaced(t: seq<Slot>, log: seq<Sent>, n: nat, k: nat, s: Slot)
    requires UpToDate(t, log, n) && k < |t| && s.challenge == n && s.count == 1
    ensures UpToDate(t[k := s], log + [Sent(n, 1)], n + 1)
  {
  }

  lemma FirstSent(log: seq<Sent>, n: nat)
    requires Increasing(log) && forall s | s in log :: s.challenge < n
    ensures Increasing(log + [Sent(n, 1)])
  {
    assert forall i | 0 <= i < |log| :: log[i] in log;
  }

  /** A slot is used once more. */
  lemma UsedUpToDate(t: seq<Slot>, log: seq<Sent>, n: nat, k: nat)
    requires UpToDate(t, log, n) && Increasing(log) && k < |t| && Live(t[k])
    ensures UpToDate(t[k := t[k].(count := t[k].count + 1)], log + [Sent(t[k].challenge, t[k].count + 1)], n)
    ensures Increasing(log + [Sent(t[k].challenge, t[k].count + 1)])
  {
    assert forall i | 0 <= i < |log| :: log[i] in log;
  }

  lemma NotStored(t: seq<Slot>, log: seq<Sent>, n: nat)
    requires UpToDate(t, log, n)
    ensures UpToDate(t, log + [Sent(n, 1)], n + 1)
  {
  }

  /** A new challenge, kept or not, leaves the table in order. */
  lemma ChallengeKeeps(t: seq<Slot>, log: seq<Sent>, n: nat, callId: string, realm: Option<string>, code: int, keep: bool)
    requires UpToDate(t, log, n) && Increasing(log)
    ensures var t', log' := if keep then Stored(t, callId, realm, n, code) else t, log + [Sent(n, 1)];
            UpToDate(t', log', n + 1) && Increasing(log') && (Unique(t) && |callId| < 64 ==> Unique(t'))
  {
    hide Unique, UpToDate, Increasing, Stored;
    if Unique(t) { StoredUnique(t, callId, realm, n, code); }
    StoredUpToDate(t, log, n, callId, realm, code);
    NotStored(t, log, n);
  }

  lemma UsedIsLive(s: Slot, callId: string)
    ensures Used(s, callId) ==> Live(s)
  {
  }

  lemma UsedUnique(t: seq<Slot>, k: nat)
    requires k < |t| && Unique(t)
    ensures Unique(t[k := t[k].(count := t[k].count + 1)])
  {
    var t' := t[k := t[k].(count := t[k].count + 1)];
    hide LowerAll;
    forall i, j | 0 <= i < j < |t| && Live(t'[i]) ensures !IsFor(t'[j], t'[i].callId, t'[i].realm) {
      assert !IsFor(t[j], t[i].callId, t[i].realm);
    }
  }

  /** A Call-ID of 64 characters, challenged twice, has two slots. */
  lemma LongCallIdTwice(id: string)
    requires |id| == 64
    ensures var t := seq(MAX_HTTP_AUTH, _ => FREE);
            && Unique(Stored(t, id, None, 0, 401))
            && !Unique(Stored(Stored(t, id, None, 0, 401), id, None, 1, 401))
  {
    var t: seq<Slot> := seq(MAX_HTTP_AUTH, _ => FREE);
    var kept := id[..CALL_ID_SIZE - 1];
    var t' := t[0 := Slot(kept, None, 0, 1, 401)];
    assert FindFor(t, 0, id, None) == None && FindFree(t, 0) == Some(0);
    assert Stored(t, id, None, 0, 401) == t';
    assert forall i | 0 < i < |t| :: !Live(t'[i]);
    assert |LowerAll(kept)| != |LowerAll(id)|;
    hide LowerAll;
    assert IsFor(t'[0], kept, None) && !IsFor(t'[0], id, None);
    assert FindFor(t', 0, id, None) == None && FindFree(t', 0) == Some(1) && FindFor(t', 0, kept, None) == Some(0);
    StoredUnique(t', id, None, 1, 401);
  }

  class Auths {
    const slots: array<Slot>
    /** The counts that went into requests, and how many challenges there were. */
    ghost var log: seq<Sent>
    var challenges: nat

    ghost predicate Valid()
      reads this, slots
    {
      slots.Length == MAX_HTTP_AUTH && UpToDate(slots[..], log, challenges) && Increasing(log)
    }

    constructor ()
      ensures Valid() && log == [] && Unique(slots[..]) && fresh(slots)
      ensures slots.Length == 100 && forall i | 0 <= i < 100 :: slots[i].callId == ""
    {
      slots := new Slot[MAX_HTTP_AUTH](_ => FREE);
      log, challenges := [], 0;
    }

    /** `_eXosip_store_nonce`, with the search for the slot of the challenge, then for a free one. */
    method Store(callId: string, realm: Option<string>, challenge: nat, code: int) returns (ok: bool)
      modifies slots
      ensures slots[..] == Stored(old(slots[..]), callId, realm, challenge, code)
      ensures ok <==> exists k :: 0 <= k < slots.Length && (IsFor(old(slots[k]), callId, realm) || old(slots[k]).callId == "")
      ensures ok ==> exists k ::
                && 0 <= k < slots.Length && slots[k].realm == realm && slots[k].challenge == challenge && slots[k].count == 1
                && (forall i | 0 <= i < slots.Length && i != k :: slots[i] == old(slots[i]))
                && if exists i :: 0 <= i < slots.Length && IsFor(old(slots[i]), callId, realm)
                   then IsFor(old(slots[k]), callId, realm) && slots[k].callId == old(slots[k]).callId
                   else old(slots[k]).callId == "" && slots[k].callId == Kept(callId) && slots[k].code == code
    {
      hide IsFor;
      ghost var t := slots[..];
      var pos: nat := 0;
      while pos < slots.Length
        invariant pos <= slots.Length && slots[..] == t
        invariant FindFor(t, 0, callId, realm) == FindFor(t, pos, callId, realm)
      {
        if IsFor(slots[pos], callId, realm) {
          slots[pos] := slots[pos].(realm := realm, challenge := challenge, count := 1);
          return true;
        }
        pos := pos + 1;
      }
      pos := 0;
      while pos < slots.Length
        invariant pos <= slots.Length && slots[..] == t
        invariant FindFree(t, 0) == FindFree(t, pos)
      {
        if slots[pos].callId == "" {
          assert forall i | 0 <= i < |t| :: !IsFor(t[i], callId, realm);
          slots[pos] := Slot(Kept(callId), realm, challenge, 1, code);
          return true;
        }
        pos := pos + 1;
      }
      ok := false;
    }

    /** A challenge is answered: the request for it carries the count 1, and the challenge is stored if it
        may be used again. */
    method Challenge(callId: string, realm: Option<string>, code: int, keep: bool)
      requires Valid()
      modifies this, slots
      ensures Valid() && log == old(log) + [Sent(old(challenges), 1)] && challenges == old(challenges) + 1
      ensures slots[..] == if keep then Stored(old(slots[..]), callId, realm, old(challenges), code) else old(slots[..])
      ensures old(Unique(slots[..])) && |callId| < 64 ==> Unique(slots[..])
    {
      hide Unique, UpToDate, Increasing, Stored, IsFor, Kept;
      ChallengeKeeps(slots[..], log, challenges, callId, realm, code, keep);
      if keep {
        var _ := Store(callId, realm, challenges, code);
      }
      log := log + [Sent(challenges, 1)];
      challenges := challenges + 1;
    }

    /** A request within the same Call-ID, without a new challenge: every slot of the Call-ID is used once
        more, up to the first one for whose realm there are no credentials. */
    method Reuse(callId: string, known: Option<string> -> bool) returns (ok: bool, k: nat)
      requires Valid()
      modifies this`log, slots
      ensures Valid() && k <= MAX_HTTP_AUTH
      ensures ok ==> k == MAX_HTTP_AUTH
      ensures !ok ==> k < MAX_HTTP_AUTH && Used(old(slots[k]), callId) && !known(old(slots[k]).realm)
      ensures forall i | 0 <= i < k && Used(old(slots[i]), callId) :: known(old(slots[i]).realm)
      ensures log == old(log) + Counts(old(slots[..]), callId, k)
      ensures old(Unique(slots[..])) ==> Unique(slots[..])
      ensures forall i | 0 <= i < MAX_HTTP_AUTH ::
                slots[i] == if i < k && Used(old(slots[i]), callId) then old(slots[i]).(count := old(slots[i]).count + 1)
                            else old(slots[i])
    {
      hide LowerAll, UpToDate, Increasing, Used, Unique;
      ghost var t := slots[..];
      k := 0;
      assert log == old(log) + [];
      while k < slots.Length
        invariant k <= slots.Length && Valid() && (old(Unique(slots[..])) ==> Unique(slots[..]))
        invariant forall i | 0 <= i < k && Used(t[i], callId) :: known(t[i].realm)
        invariant forall i | 0 <= i < |t| ::
                    slots[i] == if i < k && Used(t[i], callId) then t[i].(count := t[i].count + 1) else t[i]
        invariant log == old(log) + Counts(t, callId, k)
      {
        var s := slots[k];
        if Used(s, callId) {
          if !known(s.realm) {
            return false, k;
          }
          UsedIsLive(s, callId);
          Bump(k);
        } else {
          assert Counts(t, callId, k + 1) == Counts(t, callId, k) + [];
        }
        k := k + 1;
      }
      ok := true;
    }

    /** One slot is used once more. */
    method Bump(k: nat)
      requires Valid() && k < slots.Length && Live(slots[k])
      modifies this`log, slots
      ensures Valid() && log == old(log) + [Sent(old(slots[k]).challenge, old(slots[k]).count + 1)]
      ensures slots[..] == old(slots[..])[k := old(slots[k]).(count := old(slots[k]).count + 1)]
      ensures old(Unique(slots[..])) ==> Unique(slots[..])
    {
      hide Unique, UpToDate, Increasing, Live;
      ghost var t := slots[..];
      if Unique(t) { UsedUnique(t, k); }
      UsedUpToDate(t, log, challenges, k);
      var s := slots[k];
      slots[k] := s.(count := s.count + 1);
      log := log + [Sent(s.challenge, s.count + 1)];
    }

    /** `_eXosip_delete_nonce` frees the first slot of the Call-ID. */
    method Delete(callId: string) returns (found: bool)
      requires Valid()
      modifies slots
      ensures Valid()
      ensures found <==> exists i :: 0 <= i < MAX_HTTP_AUTH && Used(old(slots[i]), callId)
      ensures !found ==> slots[..] == old(slots[..])
      ensures found ==> exists k ::
                && 0 <= k < MAX_HTTP_AUTH && Used(old(slots[k]), callId)
                && (forall i | 0 <= i < k :: !Used(old(slots[i]), callId)) && slots[..] == old(slots[..])[k := FREE]
      ensures old(Unique(slots[..])) ==> Unique(slots[..])
    {
      var pos: nat := 0;
      while pos < slots.Length
        invariant pos <= slots.Length && slots[..] == old(slots[..])
        invariant forall i | 0 <= i < pos :: !Used(slots[i], callId)
      {
        if Used(slots[pos], callId) {
          slots[pos] := FREE;
          return true;
        }
        pos := pos + 1;
      }
      found := false;
    }

    /** Of the counts printed for one challenge, a server reads each as greater than those before. */
    lemma CountsReadIncreasing(i: nat, j: nat)
      requires Valid() && i < j < |log| && log[i].challenge == log[j].challenge && log[j].count < 100_000_000
      ensures ValueOf(Printed(log[i].count), Hex) < ValueOf(Printed(log[j].count), Hex)
    {
      PrintedReads(log[i].count);
      PrintedReads(log[j].count);
      HexOfDecIncreases(log[i].count, log[j].count);
    }
  }

  // ----- runs -----

  /** A request answers a challenge; or uses stored ones, for the realms with credentials; or the slot of a
      Call-ID is given up. */
  datatype Event =
    | Challenged(callId: string, realm: Option<string>, code: int, keep: bool)
    | Requested(callId: string, known: Option<string> -> bool)
    | Ended(callId: string)

  /** In every run, the counts sent for one challenge increase; and if all Call-IDs challenged have less than
      64 characters, no Call-ID and realm have two slots. */
  method Run(events: seq<Event>) returns (a: Auths)
    ensures a.Valid() && Increasing(a.log)
    ensures (forall e | e in events && e.Challenged? :: |e.callId| < 64) ==> Unique(a.slots[..])
  {
    hide Unique, UpToDate;
    a := new Auths();
    for k := 0 to |events|
      invariant fresh(a) && fresh(a.slots) && a.Valid()
      invariant (forall e | e in events[..k] && e.Challenged? :: |e.callId| < CALL_ID_SIZE) ==> Unique(a.slots[..])
    {
      assert events[..k + 1] == events[..k] + [events[k]] && events[k] in events[..k + 1];
      match events[k] {
        case Challenged(callId, realm, code, keep) => a.Challenge(callId, realm, code, keep);
        case Requested(callId, known) => var _, _ := a.Reuse(callId, known);
        case Ended(callId) => var _ := a.Delete(callId);
      }
    }
    assert events[..|events|] == events;
  }

  // ----- a kept challenge is used again -----

  lemma {:induction false} CountsAre(t: seq<Slot>, callId: string, k: nat, s: Sent)
    requires k <= |t|
    ensures s in Counts(t, callId, k) <==>
            exists i :: 0 <= i < k && Used(t[i], callId) && s == Sent(t[i].challenge, t[i].count + 1)
  {
    hide Used;
    if k > 0 { CountsAre(t, callId, k - 1, s); }
  }

  /** A challenge that arrives now can be used again: its Call-ID and realm have a slot, or there is a free
      one that takes the whole Call-ID. */
  ghost predicate Keepable(t: seq<Slot>, callId: string, realm: Option<string>) {
    || (exists i :: 0 <= i < |t| && IsFor(t[i], callId, realm))
    || (0 < |callId| < 64 && exists i :: 0 <= i < |t| && t[i].callId == "")
  }

  /** The one slot that keeps challenge `c` for this Call-ID, if any, holds the count `n`. */
  ghost predicate Holds(t: seq<Slot>, callId: string, c: nat, n: nat, kept: bool) {
    && (forall i | 0 <= i < |t| && Used(t[i], callId) && t[i].challenge == c :: t[i].count == n)
    && (kept <==> exists i :: 0 <= i < |t| && Used(t[i], callId) && t[i].challenge == c)
  }

  /** A new challenge goes to one slot, or to none. */
  lemma SetHolds(t: seq<Slot>, log: seq<Sent>, n: nat, k: nat, s: Slot, callId: string)
    requires UpToDate(t, log, n) && k < |t| && s.challenge == n && s.count == 1
    ensures Holds(t[k := s], callId, n, 1, Used(s, callId))
    ensures Holds(t, callId, n, 1, false)
  {
    hide LowerAll, Increasing;
    var t' := t[k := s];
    assert forall i | 0 <= i < |t| && Used(t[i], callId) :: t[i].challenge < n;
    if Used(s, callId) { assert Used(t'[k], callId) && t'[k].challenge == n; }
  }

  /** A slot takes the whole Call-ID, and is found again, when there are 1 to 63 characters. */
  lemma KeptUsed(callId: string, realm: Option<string>, n: nat, code: int)
    ensures Used(Slot(if |callId| <= 63 then callId else callId[..63], realm, n, 1, code), callId) <==> 0 < |callId| < 64
  {
    var kept := if |callId| <= 63 then callId else callId[..63];
    assert |LowerAll(kept)| == |kept| && |LowerAll(callId)| == |callId|;
  }

  lemma ForIsUsed(s: Slot, callId: string, realm: Option<string>, s': Slot)
    requires IsFor(s, callId, realm) && s'.callId == s.callId
    ensures Used(s', callId)
  {
    hide LowerAll;
  }

  lemma StoredHolds(t: seq<Slot>, log: seq<Sent>, n: nat, callId: string, realm: Option<string>, code: int)
    requires UpToDate(t, log, n) && t != []
    ensures Holds(Stored(t, callId, realm, n, code), callId, n, 1, Keepable(t, callId, realm))
  {
    StoredTells(t, callId, realm, n, code);
    var t' := Stored(t, callId, realm, n, code);
    hide Stored, IsFor, Used, UpToDate, Holds;
    if k :| 0 <= k < |t| && IsFor(t[k], callId, realm) && t' == t[k := Slot(t[k].callId, realm, n, 1, t[k].code)] {
      var s := Slot(t[k].callId, realm, n, 1, t[k].code);
      SetHolds(t, log, n, k, s, callId);
      ForIsUsed(t[k], callId, realm, s);
    } else if k :| 0 <= k < |t| && t[k].callId == ""
                   && t' == t[k := Slot(if |callId| <= 63 then callId else callId[..63], realm, n, 1, code)] {
      SetHolds(t, log, n, k, t'[k], callId);
      KeptUsed(callId, realm, n, code);
    } else {
      SetHolds(t, log, n, 0, Slot("", None, n, 1, 0), callId);
    }
  }

  /** After a use of all slots of the Call-ID, the count is one higher, and that is what was sent. */
  lemma UsedHolds(t: seq<Slot>, t': seq<Slot>, callId: string, c: nat, n: nat, kept: bool)
    requires Holds(t, callId, c, n, kept) && |t'| == |t|
    requires forall i | 0 <= i < |t| :: t'[i] == if Used(t[i], callId) then t[i].(count := t[i].count + 1) else t[i]
    ensures Holds(t', callId, c, n + 1, kept)
    ensures forall m: nat :: Sent(c, m) in Counts(t, callId, |t|) <==> kept && m == n + 1
  {
    forall i | 0 <= i < |t| ensures Used(t'[i], callId) <==> Used(t[i], callId) {
      SameUse(t[i], t'[i], callId);
    }
    hide Used, Counts;
    forall m: nat ensures Sent(c, m) in Counts(t, callId, |t|) <==> kept && m == n + 1 {
      CountsAre(t, callId, |t|, Sent(c, m));
    }
  }

  lemma SameUse(s: Slot, s': Slot, callId: string)
    requires s' == s || s' == s.(count := s.count + 1)
    ensures Used(s', callId) <==> Used(s, callId)
  {
  }

  /** A challenge arrives, in any state that a run can reach, and `n` requests with credentials follow it: the
      counts sent for it are 1 to `n` + 1 when it can be kept, and 1 alone when it cannot. */
  method Answered(a: Auths, callId: string, realm: Option<string>, code: int, known: Option<string> -> bool, n: nat)
    requires a.Valid() && forall r :: known(r)
    modifies a, a.slots
    ensures a.Valid()
    ensures forall m: nat :: Sent(old(a.challenges), m) in a.log <==>
                             m == 1 || (Keepable(old(a.slots[..]), callId, realm) && 2 <= m <= n + 1)
  {
    hide Keepable, Holds, UpToDate, Increasing, Used, Stored, Unique;
    ghost var c := a.challenges;
    ghost var kept := Keepable(a.slots[..], callId, realm);
    NoneSent(a.slots[..], a.log, c);
    StoredHolds(a.slots[..], a.log, c, callId, realm, code);
    a.Challenge(callId, realm, code, true);
    for j := 0 to n
      invariant a.Valid() && Holds(a.slots[..], callId, c, j + 1, kept)
      invariant forall m: nat :: Sent(c, m) in a.log <==> m == 1 || (kept && 2 <= m <= j + 1)
    {
      ghost var t := a.slots[..];
      var ok, k := a.Reuse(callId, known);
      UsedHolds(t, a.slots[..], callId, c, j + 1, kept);
    }
  }

  lemma NoneSent(t: seq<Slot>, log: seq<Sent>, c: nat)
    requires UpToDate(t, log, c)
    ensures forall m: nat :: Sent(c, m) !in log
  {
  }
}

/** The targets of an SRV record: kept in order of priority, tried in rotation. */
module SrvRecord {

  const MAX_TARGETS: nat := 10

  /** A target; its place is free when its name is empty. */
  datatype Entry = Entry(srv: string, priority: int, weight: int, port: int)

  /** The entries of one priority, in their order. Two lists that agree on this for every priority are
      permutations of each other that keep equal priorities in order. */
  function Of(s: seq<Entry>, p: int): seq<Entry> {
    if s == [] then [] else (if s[0].priority == p then [s[0]] else []) + Of(s[1..], p)
  }

  ghost predicate StablePermutation(s: seq<Entry>, t: seq<Entry>) {
    |s| == |t| && forall p :: Of(s, p) == Of(t, p)
  }

  ghost predicate Sorted(s: seq<Entry>) {
    forall i, j | 0 <= i < j < |s| :: s[i].priority <= s[j].priority
  }

  /** A stable permutation in order of priority is the only one. */
  lemma {:induction false} SortedIsUnique(s: seq<Entry>, t: seq<Entry>)
    requires Sorted(s) && Sorted(t) && StablePermutation(s, t)
    ensures s == t
    decreases |s|
  {
    if s != [] {
      SameFirst(s, t);
      hide Of;
      forall q ensures Of(s[1..], q) == Of(t[1..], q) {
        OfRest(s, q);
        OfRest(t, q);
      }
      SortedIsUnique(s[1..], t[1..]);
    }
  }

  lemma SameFirst(s: seq<Entry>, t: seq<Entry>)
    requires s != [] && Sorted(s) && Sorted(t) && StablePermutation(s, t)
    ensures s[0] == t[0]
  {
    OfFirst(s);
    OfFirst(t);
    InOf(t, s[0]);
    InOf(s, t[0]);
    hide Of;
    assert s[0] in t && t[0] in s;
    var p := s[0].priority;
    assert Of(s, p)[0] == Of(t, p)[0];
  }

  lemma OfFirst(s: seq<Entry>)
    requires s != []
    ensures Of(s, s[0].priority) == [s[0]] + Of(s[1..], s[0].priority)
  {
  }

  lemma OfRest(s: seq<Entry>, p: int)
    requires s != []
    ensures Of(s[1..], p) == if s[0].priority == p then Of(s, p)[1..] else Of(s, p)
  {
  }

  /** An entry of a list is among those of its priority, and no others are. */
  lemma {:induction false} InOf(s: seq<Entry>, e: Entry)
    ensures e in Of(s, e.priority) <==> e in s
    ensures forall p | e in Of(s, p) :: p == e.priority
  {
    if s != [] { InOf(s[1..], e); }
  }

  // ----- adjacent swaps -----

  function Swap(s: seq<Entry>, i: nat): (r: seq<Entry>)
    requires i + 1 < |s|
    ensures |r| == |s|
  {
    s[i := s[i + 1]][i + 1 := s[i]]
  }

  /** How many entries have a priority below `p`. */
  function Below(s: seq<Entry>, p: int): nat {
    if s == [] then 0 else (if s[0].priority < p then 1 else 0) + Below(s[1..], p)
  }

  /** How many pairs stand in the wrong order. */
  function Inversions(s: seq<Entry>): nat {
    if s == [] then 0 else Below(s[1..], s[0].priority) + Inversions(s[1..])
  }

  lemma SwapStep(s: seq<Entry>, i: nat)
    requires i + 1 < |s|
    ensures i == 0 ==> Swap(s, 0) == [s[1], s[0]] + s[2..] && s == [s[0], s[1]] + s[2..]
    ensures i > 0 ==> Swap(s, i)[0] == s[0] && Swap(s, i)[1..] == Swap(s[1..], i - 1)
  {
  }

  lemma {:induction false} BelowKeeps(s: seq<Entry>, i: nat, p: int)
    requires i + 1 < |s|
    ensures Below(Swap(s, i), p) == Below(s, p)
    decreases i
  {
    SwapStep(s, i);
    hide Swap;
    if i > 0 {
      BelowKeeps(s[1..], i - 1, p);
    } else {
      TwoFirst(s[0], s[1], s[2..]);
    }
  }

  lemma {:induction false} OfKeeps(s: seq<Entry>, i: nat, p: int)
    requires i + 1 < |s| && s[i].priority != s[i + 1].priority
    ensures Of(Swap(s, i), p) == Of(s, p)
    decreases i
  {
    SwapStep(s, i);
    hide Swap;
    if i > 0 {
      OfKeeps(s[1..], i - 1, p);
    } else {
      TwoFirst(s[0], s[1], s[2..]);
    }
  }

  lemma TwoFirst(a: Entry, b: Entry, t: seq<Entry>)
    ensures ([a, b] + t)[1..] == [b] + t && ([b, a] + t)[1..] == [a] + t && ([a] + t)[1..] == t && ([b] + t)[1..] == t
  {
  }

  /** Swapping neighbours in the wrong order leaves one wrong pair less. */
  lemma {:induction false} SwapImproves(s: seq<Entry>, i: nat)
    requires i + 1 < |s| && s[i].priority > s[i + 1].priority
    ensures Inversions(Swap(s, i)) + 1 == Inversions(s)
    decreases i
  {
    SwapStep(s, i);
    hide Swap;
    if i > 0 {
      BelowKeeps(s[1..], i - 1, s[0].priority);
      SwapImproves(s[1..], i - 1);
    } else {
      TwoFirst(s[0], s[1], s[2..]);
    }
  }

  lemma SwapStable(was: seq<Entry>, s: seq<Entry>, i: nat)
    requires i + 1 < |s| && s[i].priority > s[i + 1].priority && StablePermutation(was, s)
    ensures StablePermutation(was, Swap(s, i)) && Inversions(Swap(s, i)) + 1 == Inversions(s)
  {
    SwapImproves(s, i);
    forall p ensures Of(Swap(s, i), p) == Of(s, p) { OfKeeps(s, i, p); }
  }

  lemma StableSelf(s: seq<Entry>)
    ensures StablePermutation(s, s)
  {
  }

  lemma SwapIs(s: seq<Entry>, i: nat)
    requires i + 1 < |s|
    ensures forall k | 0 <= k < |s| :: Swap(s, i)[k] == if k == i then s[i + 1] else if k == i + 1 then s[i] else s[k]
  {
  }

  lemma {:induction false} NeighboursSorted(s: seq<Entry>, i: nat, j: nat)
    requires forall k | 0 <= k < |s| - 1 :: s[k].priority <= s[k + 1].priority
    requires i <= j < |s|
    ensures s[i].priority <= s[j].priority
    decreases j - i
  {
    if i < j { NeighboursSorted(s, i, j - 1); }
  }

  /** `osip_srv_record_sort`: passes of swaps until a pass swaps nothing. */
  method Sort(a: array<Entry>, n: nat)
    requires n <= a.Length
    modifies a
    ensures Sorted(a[..n]) && StablePermutation(old(a[..n]), a[..n])
    ensures forall i | n <= i < a.Length :: a[i] == old(a[i])
  {
    hide StablePermutation, Inversions, Swap;
    ghost var was := a[..n];
    StableSelf(was);
    while true
      invariant StablePermutation(was, a[..n]) && forall k | n <= k < a.Length :: a[k] == old(a[k])
      decreases Inversions(a[..n])
    {
      ghost var before := Inversions(a[..n]);
      var permuts, i: nat := 0, 0;
      while i + 1 < n
        invariant i <= n && permuts >= 0
        invariant StablePermutation(was, a[..n]) && forall k | n <= k < a.Length :: a[k] == old(a[k])
        invariant Inversions(a[..n]) + permuts == before
        invariant permuts == 0 ==> forall k | 0 <= k < i && k + 1 < n :: a[k].priority <= a[k + 1].priority
        decreases n - i
      {
        if a[i].priority > a[i + 1].priority {
          ghost var s := a[..n];
          SwapStable(was, s, i);
          a[i], a[i + 1] := a[i + 1], a[i];
          SwapIs(s, i);
          assert a[..n] == Swap(s, i);
          permuts := permuts + 1;
        }
        i := i + 1;
      }
      if permuts == 0 {
        forall x, y | 0 <= x < y < n ensures a[x].priority <= a[y].priority { NeighboursSorted(a[..n], x, y); }
        return;
      }
    }
  }

  // ----- the stable sort as a function -----

  /** `e` behind all entries of its priority. */
  function Insert(s: seq<Entry>, e: Entry): (r: seq<Entry>)
    ensures |r| == |s| + 1
  {
    if s == [] || s[|s| - 1].priority <= e.priority then s + [e]
    else Insert(s[..|s| - 1], e) + [s[|s| - 1]]
  }

  function StableSort(s: seq<Entry>): (r: seq<Entry>)
    ensures |r| == |s|
  {
    if s == [] then [] else Insert(StableSort(s[..|s| - 1]), s[|s| - 1])
  }

  lemma OfCons(e: Entry, s: seq<Entry>, p: int)
    ensures Of([e] + s, p) == (if e.priority == p then [e] else []) + Of(s, p)
  {
    assert ([e] + s)[1..] == s;
  }

  lemma {:induction false} OfConcat(s: seq<Entry>, t: seq<Entry>, p: int)
    ensures Of(s + t, p) == Of(s, p) + Of(t, p)
  {
    if s == [] {
      assert s + t == t && Of(s, p) == [] && [] + Of(t, p) == Of(t, p);
    } else {
      hide *;
      OfConcat(s[1..], t, p);
      OfCons(s[0], s[1..] + t, p);
      OfCons(s[0], s[1..], p);
      ConsParts(s, t);
      Associative(if s[0].priority == p then [s[0]] else [], Of(s[1..], p), Of(t, p));
    }
  }

  lemma ConsParts(s: seq<Entry>, t: seq<Entry>)
    requires s != []
    ensures s == [s[0]] + s[1..] && s + t == [s[0]] + (s[1..] + t)
  {
  }

  lemma Associative(a: seq<Entry>, b: seq<Entry>, c: seq<Entry>)
    ensures a + (b + c) == a + b + c
  {
  }

  lemma SnocParts(s: seq<Entry>)
    requires s != []
    ensures s == s[..|s| - 1] + [s[|s| - 1]]
  {
  }

  lemma OfOne(e: Entry, p: int)
    ensures Of([e], p) == if e.priority == p then [e] else []
  {
    assert [e][1..] == [];
  }

  lemma {:induction false} InsertOf(s: seq<Entry>, e: Entry, p: int)
    requires Sorted(s)
    ensures Of(Insert(s, e), p) == Of(s, p) + Of([e], p)
    decreases |s|
  {
    InsertStep(s, e);
    hide *;
    if s == [] || s[|s| - 1].priority <= e.priority {
      OfConcat(s, [e], p);
    } else {
      var front, last := s[..|s| - 1], s[|s| - 1];
      SnocParts(s);
      FrontSorted(s);
      InsertOf(front, e, p);
      OfConcat(Insert(front, e), [last], p);
      OfConcat(front, [last], p);
      OfOne(last, p);
      OfOne(e, p);
      Exchange(Of(front, p), Of([e], p), Of([last], p));
    }
  }

  lemma InsertStep(s: seq<Entry>, e: Entry)
    ensures Insert(s, e) == if s == [] || s[|s| - 1].priority <= e.priority then s + [e]
                            else Insert(s[..|s| - 1], e) + [s[|s| - 1]]
  {
  }

  lemma FrontSorted(s: seq<Entry>)
    requires Sorted(s) && s != []
    ensures Sorted(s[..|s| - 1])
  {
  }

  lemma Exchange(a: seq<Entry>, b: seq<Entry>, c: seq<Entry>)
    requires b == [] || c == []
    ensures a + b + c == a + c + b
  {
  }

  lemma {:induction false} InsertSorted(s: seq<Entry>, e: Entry)
    requires Sorted(s)
    ensures Sorted(Insert(s, e))
    ensures forall x | x in Insert(s, e) :: x in s || x == e
    decreases |s|
  {
    if s != [] && s[|s| - 1].priority > e.priority {
      var front, last := s[..|s| - 1], s[|s| - 1];
      InsertSorted(front, e);
      var r := Insert(front, e);
      forall i | 0 <= i < |r| ensures r[i].priority <= last.priority {
        assert r[i] in front || r[i] == e;
      }
    }
  }

  /** The function sorts, and keeps equal priorities in order: it is the only one that does. */
  lemma {:induction false} StableSortIs(s: seq<Entry>, t: seq<Entry>)
    ensures t == StableSort(s) <==> Sorted(t) && StablePermutation(s, t)
  {
    StableSortSorts(s);
    if Sorted(t) && StablePermutation(s, t) {
      SortedIsUnique(t, StableSort(s));
    }
  }

  lemma {:induction false} StableSortSorts(s: seq<Entry>)
    ensures Sorted(StableSort(s)) && StablePermutation(s, StableSort(s))
    decreases |s|
  {
    if s != [] {
      var front, last := s[..|s| - 1], s[|s| - 1];
      StableSortSorts(front);
      InsertSorted(StableSort(front), last);
      SnocParts(s);
      forall p ensures Of(s, p) == Of(StableSort(s), p) {
        OfConcat(front, [last], p);
        InsertOf(StableSort(front), last, p);
      }
    }
  }

  /** With one more entry behind a sorted list. */
  lemma SortSnoc(t: seq<Entry>, e: Entry)
    requires Sorted(t)
    ensures StableSort(t) == t && StableSort(t + [e]) == Insert(t, e)
  {
    StableSortIs(t, t);
    assert (t + [e])[..|t|] == t;
  }

  // ----- the record -----

  /** The first free place. */
  function FirstFree(s: seq<Entry>): (n: nat)
    ensures n <= |s| && (n < |s| ==> s[n].srv == "")
    ensures forall i | 0 <= i < n :: s[i].srv != ""
  {
    if s == [] || s[0].srv == "" then 0 else 1 + FirstFree(s[1..])
  }

  /** An answer goes to the first free place, and the entries up to there are sorted; or nowhere. */
  function Put(s: seq<Entry>, e: Entry): (r: seq<Entry>)
    ensures |r| == |s|
  {
    var n := FirstFree(s);
    if n == |s| then s else StableSort(s[..n] + [e]) + s[n + 1..]
  }

  const BLANK: Entry := Entry("", 0, 0, 0)

  /** The places after these answers. */
  function Filled(answers: seq<Entry>): (r: seq<Entry>)
    ensures |r| == MAX_TARGETS
  {
    if answers == [] then seq(MAX_TARGETS, _ => BLANK)
    else Put(Filled(answers[..|answers| - 1]), answers[|answers| - 1])
  }

  /** The answers with a name, as many as there are places for. */
  function Named(answers: seq<Entry>): (r: seq<Entry>)
    ensures |r| <= MAX_TARGETS && forall e | e in r :: e.srv != ""
  {
    if answers == [] then []
    else
      var earlier, last := Named(answers[..|answers| - 1]), answers[|answers| - 1];
      if last.srv != "" && |earlier| < MAX_TARGETS then earlier + [last] else earlier
  }

  /** The places hold the stable sort of these targets, and are free behind them. */
  ghost predicate Holds(s: seq<Entry>, named: seq<Entry>) {
    && |s| == MAX_TARGETS && |named| <= MAX_TARGETS && (forall e | e in named :: e.srv != "")
    && s[..|named|] == StableSort(named)
    && forall i | |named| <= i < |s| :: s[i].srv == ""
  }

  lemma HoldsNames(s: seq<Entry>, named: seq<Entry>)
    requires Holds(s, named)
    ensures FirstFree(s) == |named| && Sorted(s[..|named|])
    ensures forall e :: e in s[..|named|] <==> e in named
  {
    var t := s[..|named|];
    StableSortSorts(named);
    forall e ensures e in t <==> e in named {
      InOf(t, e);
      InOf(named, e);
    }
    hide StableSort;
    forall i | 0 <= i < |named| ensures s[i].srv != "" { assert t[i] in named; }
    FirstFreeIs(s, |named|);
  }

  lemma FirstFreeIs(s: seq<Entry>, n: nat)
    requires n <= |s| && (n < |s| ==> s[n].srv == "") && forall i | 0 <= i < n :: s[i].srv != ""
    ensures FirstFree(s) == n
  {
  }

  lemma HoldsFrom(r: seq<Entry>, named: seq<Entry>)
    requires |r| == MAX_TARGETS && |named| <= MAX_TARGETS && forall e | e in named :: e.srv != ""
    requires r[..|named|] == StableSort(named) && forall i | |named| <= i < |r| :: r[i].srv == ""
    ensures Holds(r, named)
  {
  }

  lemma HoldsTo(r: seq<Entry>, named: seq<Entry>)
    requires Holds(r, named)
    ensures |r| == MAX_TARGETS && |named| <= MAX_TARGETS && forall e | e in named :: e.srv != ""
    ensures r[..|named|] == StableSort(named) && forall i | |named| <= i < |r| :: r[i].srv == ""
  {
  }

  lemma HoldsNot(r: seq<Entry>, named: seq<Entry>)
    requires |named| < |r| && r[|named|].srv != ""
    ensures !Holds(r, named)
  {
  }

  lemma Joined(t: seq<Entry>, u: seq<Entry>)
    ensures (t + u)[..|t|] == t && (t + u)[|t|..] == u && forall i | |t| <= i < |t + u| :: (t + u)[i] == u[i - |t|]
  {
  }

  /** A target with a name is sorted in behind those of its priority. */
  lemma PutNamed(s: seq<Entry>, named: seq<Entry>, e: Entry)
    requires Holds(s, named) && |named| < MAX_TARGETS && e.srv != ""
    ensures Holds(Put(s, e), named + [e])
  {
    hide *;
    HoldsNames(s, named);
    HoldsTo(s, named);
    var n := |named|;
    PutIs(s, n, e);
    SortedSnoc(named, e);
    Joined(Insert(s[..n], e), s[n + 1..]);
    HoldsFrom(Put(s, e), named + [e]);
  }

  lemma SortedSnoc(named: seq<Entry>, e: Entry)
    ensures StableSort(named + [e]) == Insert(StableSort(named), e)
  {
    assert (named + [e])[..|named|] == named;
    hide Insert;
  }

  /** An answer without a name leaves the record in order exactly when no target in it has a higher
      priority number; it then stays behind them all, where it counts for nothing. */
  lemma PutNameless(s: seq<Entry>, named: seq<Entry>, e: Entry)
    requires Holds(s, named) && |named| < MAX_TARGETS && e.srv == ""
    ensures Holds(Put(s, e), named) <==> forall t | t in named :: t.priority <= e.priority
  {
    hide *;
    HoldsNames(s, named);
    HoldsTo(s, named);
    var t, n := s[..|named|], |named|;
    PutIs(s, n, e);
    SortedBelow(t, e);
    InsertEnds(t, e);
    if n == 0 || t[n - 1].priority <= e.priority {
      BehindAll(s, t, n, e);
      HoldsFrom(Put(s, e), named);
    } else {
      Joined(Insert(t, e), s[n + 1..]);
      assert t[n - 1] in t && Put(s, e)[n] == Insert(t, e)[n] == t[n - 1];
      HoldsNot(Put(s, e), named);
    }
  }

  lemma BehindAll(s: seq<Entry>, t: seq<Entry>, n: nat, e: Entry)
    requires n < |s| && t == s[..n] && e.srv == "" && forall i | n <= i < |s| :: s[i].srv == ""
    ensures var r := t + [e] + s[n + 1..]; r[..n] == t && forall i | n <= i < |r| :: r[i].srv == ""
  {
  }

  lemma PutIs(s: seq<Entry>, n: nat, e: Entry)
    requires n == FirstFree(s) < |s| && Sorted(s[..n])
    ensures Put(s, e) == Insert(s[..n], e) + s[n + 1..]
  {
    SortSnoc(s[..n], e);
  }

  lemma SortedBelow(t: seq<Entry>, e: Entry)
    requires Sorted(t)
    ensures (forall x | x in t :: x.priority <= e.priority) <==> t == [] || t[|t| - 1].priority <= e.priority
  {
    if t != [] { assert t[|t| - 1] in t; }
  }

  lemma InsertEnds(t: seq<Entry>, e: Entry)
    ensures t == [] || t[|t| - 1].priority <= e.priority ==> Insert(t, e) == t + [e]
    ensures t != [] && t[|t| - 1].priority > e.priority ==> Insert(t, e)[|t|] == t[|t| - 1]
  {
  }

  lemma PutFull(s: seq<Entry>, named: seq<Entry>, e: Entry)
    requires Holds(s, named) && |named| == MAX_TARGETS
    ensures Put(s, e) == s
  {
    HoldsNames(s, named);
  }

  /** Of these answers, none without a name comes while there is room and a target with a higher priority
      number. */
  ghost predicate Harmless(answers: seq<Entry>) {
    forall k | 0 <= k < |answers| && answers[k].srv == "" && |Named(answers[..k])| < MAX_TARGETS ::
      forall t | t in Named(answers[..k]) :: t.priority <= answers[k].priority
  }

  lemma PutHolds(s: seq<Entry>, earlier: seq<Entry>, e: Entry)
    requires Holds(s, Named(earlier))
    ensures Holds(Put(s, e), Named(earlier + [e])) <==>
            (e.srv == "" && |Named(earlier)| < MAX_TARGETS ==> forall t | t in Named(earlier) :: t.priority <= e.priority)
  {
    assert (earlier + [e])[..|earlier|] == earlier;
    var named := Named(earlier);
    hide Holds, Put;
    if |named| == MAX_TARGETS {
      PutFull(s, named, e);
    } else if e.srv == "" {
      PutNameless(s, named, e);
    } else {
      PutNamed(s, named, e);
    }
  }

  /** After each of these answers, the record is the stable sort of the named targets so far. */
  ghost predicate AlwaysHolds(answers: seq<Entry>) {
    forall k | 0 <= k <= |answers| :: Holds(Filled(answers[..k]), Named(answers[..k]))
  }

  /** Over every run of answers, the record is at all times the stable sort of the targets that came, if
      and only if every nameless answer was harmless. */
  lemma {:induction false} RecordHolds(answers: seq<Entry>)
    ensures AlwaysHolds(answers) <==> Harmless(answers)
    decreases |answers|
  {
    hide *;
    if answers == [] {
      NoAnswers();
    } else {
      var earlier, e := answers[..|answers| - 1], answers[|answers| - 1];
      SnocParts(answers);
      RecordHolds(earlier);
      FilledSnoc(earlier, e);
      if Holds(Filled(earlier), Named(earlier)) { PutHolds(Filled(earlier), earlier, e); }
      AlwaysSnoc(earlier, e);
      HarmlessSnoc(earlier, e);
    }
  }

  lemma NoAnswers()
    ensures AlwaysHolds([]) && Harmless([])
  {
    var none: seq<Entry> := [];
    assert none[..0] == none;
  }

  lemma FilledSnoc(earlier: seq<Entry>, e: Entry)
    ensures Filled(earlier + [e]) == Put(Filled(earlier), e)
  {
    assert (earlier + [e])[..|earlier|] == earlier;
  }

  lemma AlwaysSnoc(earlier: seq<Entry>, e: Entry)
    ensures AlwaysHolds(earlier + [e]) <==>
            AlwaysHolds(earlier) && Holds(Filled(earlier + [e]), Named(earlier + [e]))
    ensures AlwaysHolds(earlier) ==> Holds(Filled(earlier), Named(earlier))
  {
    hide Holds, Filled, Named;
    var all, n := earlier + [e], |earlier|;
    assert all[..n + 1] == all && earlier[..n] == earlier;
    assert forall k | 0 <= k <= n :: all[..k] == earlier[..k];
  }

  lemma HarmlessSnoc(earlier: seq<Entry>, e: Entry)
    ensures Harmless(earlier + [e]) <==>
            Harmless(earlier) &&
            (e.srv == "" && |Named(earlier)| < MAX_TARGETS ==> forall t | t in Named(earlier) :: t.priority <= e.priority)
  {
    hide Named;
    var all, n := earlier + [e], |earlier|;
    assert all[..n] == earlier && all[n] == e;
    assert forall k | 0 <= k < n :: all[..k] == earlier[..k] && all[k] == earlier[k];
  }

  /** A nameless answer of priority 0 behind a target of priority 10: the record seems empty, and the next
      target, of priority 20, stands before the first. */
  lemma NamelessSpoils()
    ensures var a, b, c := Entry("a", 10, 0, 5060), Entry("", 0, 0, 5060), Entry("c", 20, 0, 5060);
            && FirstFree(Filled([a, b])) == 0
            && Filled([a, b, c])[..2] == [c, a]
  {
    Spoils(Entry("a", 10, 0, 5060), Entry("", 0, 0, 5060), Entry("c", 20, 0, 5060));
  }

  lemma Spoils(a: Entry, b: Entry, c: Entry)
    requires a.srv != "" && b.srv == "" && c.srv != "" && a.priority > b.priority
    ensures FirstFree(Filled([a, b])) == 0 && Filled([a, b, c])[..2] == [c, a]
  {
    hide *;
    OneIn(a);
    TwoIn(a, b);
    ThreeIn(a, b, c);
    PutAt([b, a] + Blanks(8), 0, c);
    assert ([c, a] + Blanks(8))[..2] == [c, a];
  }

  function Blanks(n: nat): (r: seq<Entry>)
    ensures |r| == n && forall i | 0 <= i < n :: r[i] == BLANK
  {
    seq(n, _ => BLANK)
  }

  lemma OneIn(a: Entry)
    ensures Filled([a]) == [a] + Blanks(9)
  {
    var u := Filled([]);
    FilledSnoc([], a);
    OneSorted(a);
    hide StableSort, FirstFree;
    assert [] + [a] == [a];
    PutAt(u, 0, a);
    assert u[..0] + [a] == [a] && u[1..] == Blanks(9);
  }

  lemma TwoIn(a: Entry, b: Entry)
    requires a.srv != "" && b.srv == "" && a.priority > b.priority
    ensures Filled([a, b]) == [b, a] + Blanks(8)
  {
    var u := [a] + Blanks(9);
    OneIn(a);
    FilledSnoc([a], b);
    TwoSorted(a, b);
    AroundSecond(a, b);
    hide *;
    PutAt(u, 1, b);
  }

  lemma AroundSecond(a: Entry, b: Entry)
    ensures var u := [a] + Blanks(9);
            |u| == 10 && u[0] == a && u[1].srv == "" && u[..1] + [b] == [a, b] == [a] + [b] && u[1 + 1..] == Blanks(8)
  {
  }

  lemma ThreeIn(a: Entry, b: Entry, c: Entry)
    requires a.srv != "" && b.srv == "" && a.priority > b.priority
    ensures Filled([a, b, c]) == [c, a] + Blanks(8)
  {
    var u := [b, a] + Blanks(8);
    TwoIn(a, b);
    FilledSnoc([a, b], c);
    OneSorted(c);
    hide StableSort, FirstFree, Filled, Put, Blanks;
    assert [a, b] + [c] == [a, b, c];
    PutAt(u, 0, c);
    assert u[..0] + [c] == [c] && [c] + u[1..] == [c, a] + Blanks(8);
  }

  lemma PutAt(s: seq<Entry>, n: nat, e: Entry)
    requires n < |s| && s[n].srv == "" && forall i | 0 <= i < n :: s[i].srv != ""
    ensures FirstFree(s) == n && Put(s, e) == StableSort(s[..n] + [e]) + s[n + 1..]
  {
    FirstFreeIs(s, n);
    hide StableSort, FirstFree;
  }

  lemma OneSorted(a: Entry)
    ensures StableSort([a]) == [a]
  {
    assert [a][..0] == [] && [] + [a] == [a];
  }

  lemma TwoSorted(a: Entry, b: Entry)
    requires a.priority > b.priority
    ensures StableSort([a, b]) == [b, a]
  {
    OneSorted(a);
    assert [a, b][..1] == [a] && [a][..0] == [] && [] + [b] == [b] && [b] + [a] == [b, a];
    assert Insert([a], b) == Insert([], b) + [a];
  }

  class Record {
    const entries: array<Entry>
    var index: nat
    /** The answers so far. */
    ghost var answers: seq<Entry>

    ghost predicate Valid()
      reads this, entries
    {
      entries.Length == MAX_TARGETS && entries[..] == Filled(answers)
    }

    constructor ()
      ensures Valid() && answers == [] && index == 0 && fresh(entries) && entries.Length == 10
    {
      entries := new Entry[MAX_TARGETS](_ => BLANK);
      index, answers := 0, [];
    }

    /** The insertion of an answer: at the first free place, and a sort up to there; or not at all. */
    method Save(e: Entry) returns (taken: bool)
      requires Valid()
      modifies entries, this`answers
      ensures Valid() && answers == old(answers) + [e]
      ensures entries[..] == Put(old(entries[..]), e)
      ensures taken <==> FirstFree(old(entries[..])) < MAX_TARGETS
    {
      hide Filled, StableSort, FirstFree;
      var n := CountNamed();
      FilledSnoc(answers, e);
      answers := answers + [e];
      if n == MAX_TARGETS {
        return false;
      }
      Place(n, e);
      taken := true;
    }

    method Place(n: nat, e: Entry)
      requires n < entries.Length
      modifies entries
      ensures entries[..] == StableSort(old(entries[..n]) + [e]) + old(entries[n + 1..])
    {
      hide *;
      ghost var s, tail := entries[..n], entries[n + 1..];
      entries[n] := e;
      ghost var t := entries[..n + 1];
      assert t == s + [e];
      Sort(entries, n + 1);
      StableSortIs(t, entries[..n + 1]);
      assert entries[n + 1..] == tail;
      assert entries[..] == entries[..n + 1] + entries[n + 1..];
    }

    /** `eXosip_dnsutils_rotate_srv`: the next target, the first after the last; and how many others there
        are. The place behind the present target is read; behind the tenth there is none, which is a
        `fault`. */
    method Rotate() returns (others: int, fault: bool)
      requires Valid()
      modifies this`index
      ensures fault <==> FirstFree(entries[..]) > 0 && old(index) + 1 >= 10
      ensures !fault ==> others == FirstFree(entries[..]) - 1
      ensures FirstFree(entries[..]) == 0 ==> index == old(index)
      ensures !fault && old(index) < FirstFree(entries[..]) && Holds(entries[..], Named(answers)) ==>
                others == |Named(answers)| - 1 && index == Next(old(index), |Named(answers)|)
    {
      hide Filled, Named, StableSort, Holds, FirstFree;
      var n := CountNamed();
      if Holds(entries[..], Named(answers)) { HoldsNames(entries[..], Named(answers)); }
      FirstFreeZero(entries[..]);
      fault := false;
      if entries[0].srv == "" {
        return -1, false;
      }
      index := index + 1;
      if index >= MAX_TARGETS {
        return 0, true;
      }
      if entries[index].srv == "" {
        index := 0;
      }
      others := n - 1;
    }

    /** The loop that counts the targets. */
    method CountNamed() returns (n: nat)
      requires Valid()
      ensures n == FirstFree(entries[..])
    {
      hide Filled, FirstFree;
      n := 0;
      while n < MAX_TARGETS && entries[n].srv != ""
        invariant n <= MAX_TARGETS && forall i | 0 <= i < n :: entries[i].srv != ""
      {
        n := n + 1;
      }
      FirstFreeIs(entries[..], n);
    }
  }

  lemma FirstFreeZero(s: seq<Entry>)
    requires s != []
    ensures FirstFree(s) == 0 <==> s[0].srv == ""
  {
  }

  // ----- rotation -----

  function Next(i: nat, n: nat): nat
    requires n > 0
  {
    if i + 1 == n then 0 else i + 1
  }

  /** The target after `k` rotations. */
  function After(i: nat, n: nat, k: nat): nat
    requires n > 0
  {
    if k == 0 then i else Next(After(i, n, k - 1), n)
  }

  lemma {:induction false} AfterIs(i: nat, n: nat, k: nat)
    requires i < n && k <= n
    ensures After(i, n, k) == if i + k < n then i + k else i + k - n
  {
    if k > 0 { AfterIs(i, n, k - 1); }
  }

  /** In as many rotations as there are targets, every target has its turn, once; then the first one is
      back. */
  lemma RotationVisitsAll(i: nat, n: nat, j: nat) returns (k: nat)
    requires i < n && j < n
    ensures After(i, n, n) == i
    ensures k < n && After(i, n, k) == j && forall k' | 0 <= k' < n && After(i, n, k') == j :: k' == k
  {
    k := if i <= j then j - i else j + n - i;
    AfterIs(i, n, n);
    AfterIs(i, n, k);
    forall k': nat | k' < n ensures After(i, n, k') == j ==> k' == k { AfterIs(i, n, k'); }
  }

  /** As many rotations of a record in order as it has targets: the index stands on every target once, and
      is then where it was; only with ten targets the rotations come to read behind the last place. `seen`
      are the places of the index, rotation by rotation. */
  method RotateRound(r: Record) returns (seen: seq<nat>, fault: bool)
    requires r.Valid() && Holds(r.entries[..], Named(r.answers)) && r.index < |Named(r.answers)|
    modifies r`index
    ensures fault <==> |Named(r.answers)| == 10
    ensures forall k | 0 <= k < |seen| ::
              seen[k] == if old(r.index) + k < |Named(r.answers)| then old(r.index) + k else old(r.index) + k - |Named(r.answers)|
    ensures !fault ==>
              && |seen| == |Named(r.answers)| && r.index == old(r.index) == seen[0]
              && (forall j | 0 <= j < |seen| :: j in seen)
              && (forall k, k' | 0 <= k < k' < |seen| :: seen[k] != seen[k'])
  {
    hide Holds, Named, Filled, FirstFree, After;
    AfterIs(r.index, |Named(r.answers)|, 0);
    HoldsNames(r.entries[..], Named(r.answers));
    var n := r.CountNamed();
    ghost var i := r.index;
    seen, fault := [], false;
    for k := 0 to n
      invariant r.Valid() && |seen| == k && r.index == After(i, n, k)
      invariant forall m | 0 <= m < k :: seen[m] == After(i, n, m) == if i + m < n then i + m else i + m - n
      invariant n == MAX_TARGETS ==> i + k < n
    {
      AfterIs(i, n, k);
      AfterStep(i, n, k);
      seen := seen + [r.index];
      var others: int;
      others, fault := r.Rotate();
      if fault {
        return;
      }
    }
    AllSeen(i, n, seen);
    AfterIs(i, n, n);
  }

  lemma AfterStep(i: nat, n: nat, k: nat)
    requires n > 0
    ensures After(i, n, k + 1) == Next(After(i, n, k), n)
  {
  }

  lemma AllSeen(i: nat, n: nat, seen: seq<nat>)
    requires i < n == |seen| && forall m | 0 <= m < n :: seen[m] == After(i, n, m)
    ensures seen[0] == i && forall j | 0 <= j < n :: j in seen
    ensures forall k, k' | 0 <= k < k' < n :: seen[k] != seen[k']
  {
    assert After(i, n, 0) == i;
    hide After;
    forall j | 0 <= j < n ensures j in seen {
      var k := RotationVisitsAll(i, n, j);
      assert seen[k] == j;
    }
    forall k, k' | 0 <= k < k' < n ensures seen[k] != seen[k'] {
      AfterIs(i, n, k);
      AfterIs(i, n, k');
    }
  }
}

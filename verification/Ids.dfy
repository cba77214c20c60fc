/** The ids that calls, dialogs, subscriptions and notifications get from one counter. */
module Ids {
  import opened Basics

  /** A dialog; finished when its `d_dialog` is gone. */
  datatype Dialog = Dialog(id: int, established: bool)

  /** A call, a subscription or a notification, with its dialogs. */
  datatype Session = Session(id: int, dialogs: seq<Dialog>)

  /** What the pass makes of one id at a time: that of a session, or of a dialog. */
  datatype Cell = Cell(id: int, live: bool)

  function DialogCells(dialogs: seq<Dialog>): (r: seq<Cell>)
    ensures |r| == |dialogs|
  {
    seq(|dialogs|, i requires 0 <= i < |dialogs| => Cell(dialogs[i].id, dialogs[i].established))
  }

  /** The cells in the order in which the pass comes to them. */
  function Cells(sessions: seq<Session>): seq<Cell> {
    if sessions == [] then []
    else Cells(sessions[..|sessions| - 1]) + SessionCells(sessions[|sessions| - 1])
  }

  function SessionCells(s: Session): seq<Cell> {
    [Cell(s.id, true)] + DialogCells(s.dialogs)
  }

  predicate Needs(c: Cell) {
    c.live && c.id < 1
  }

  /** How many cells need an id. */
  function Needed(cells: seq<Cell>): nat {
    if cells == [] then 0 else Needed(cells[..|cells| - 1]) + if Needs(cells[|cells| - 1]) then 1 else 0
  }

  /** The cells after a pass that begins with the counter at `next`. */
  function Assigned(cells: seq<Cell>, next: nat): (r: seq<Cell>)
    ensures |r| == |cells|
  {
    if cells == [] then []
    else
      var front, last := cells[..|cells| - 1], cells[|cells| - 1];
      Assigned(front, next) + [AssignedCell(last, next + Needed(front))]
  }

  /** One cell after the pass, which comes to it with the counter at `next`. */
  function AssignedCell(c: Cell, next: nat): Cell {
    if !c.live then c.(id := -1) else if c.id >= 1 then c else c.(id := next)
  }

  lemma {:induction false} AssignedIs(cells: seq<Cell>, next: nat, i: nat)
    requires i < |cells|
    ensures Assigned(cells, next)[i] == AssignedCell(cells[i], next + Needed(cells[..i]))
    decreases |cells|
  {
    var front := cells[..|cells| - 1];
    if i < |front| {
      AssignedIs(front, next, i);
      assert front[..i] == cells[..i];
    }
  }

  lemma EachAssigned(cells: seq<Cell>, next: nat)
    ensures forall i | 0 <= i < |cells| ::
              Assigned(cells, next)[i] == AssignedCell(cells[i], next + Needed(cells[..i]))
  {
    hide Assigned, AssignedCell, Needed;
    forall i | 0 <= i < |cells|
      ensures Assigned(cells, next)[i] == AssignedCell(cells[i], next + Needed(cells[..i]))
    {
      AssignedIs(cells, next, i);
    }
  }

  /** No two cells share an id; below 1 is no id. */
  ghost predicate Distinct(cells: seq<Cell>) {
    forall i, j | 0 <= i < j < |cells| && cells[i].id >= 1 :: cells[i].id != cells[j].id
  }

  ghost predicate Under(cells: seq<Cell>, next: nat) {
    forall i | 0 <= i < |cells| :: cells[i].id < next
  }

  /** The range that a pass hands out from `next` on holds no id in use. */
  predicate FreeRange(cells: seq<Cell>, next: nat) {
    forall i | 0 <= i < |cells| && cells[i].live :: !(next <= cells[i].id < next + Needed(cells))
  }

  lemma {:induction false} NeededGrows(cells: seq<Cell>, i: nat, j: nat)
    requires i <= j <= |cells|
    ensures Needed(cells[..i]) <= Needed(cells[..j])
    ensures i < j && Needs(cells[i]) ==> Needed(cells[..i]) < Needed(cells[..j])
    decreases j - i
  {
    if i < j {
      assert cells[..j][..j - 1] == cells[..j - 1];
      NeededGrows(cells, i, j - 1);
    }
  }

  /** Every number from 0 below the need is the turn of some cell. */
  lemma {:induction false} TurnOf(cells: seq<Cell>, k: nat) returns (i: nat)
    requires k < Needed(cells)
    ensures i < |cells| && Needs(cells[i]) && Needed(cells[..i]) == k
    decreases |cells|
  {
    var m := |cells| - 1;
    if k == Needed(cells[..m]) {
      i := m;
    } else {
      i := TurnOf(cells[..m], k);
      assert cells[..m][..i] == cells[..i];
    }
  }

  /** A pass keeps ids distinct exactly when none of the ids in use lies in the range it hands out. */
  lemma AssignedDistinct(cells: seq<Cell>, next: nat)
    requires Distinct(cells) && next >= 1
    ensures Distinct(Assigned(cells, next)) <==> FreeRange(cells, next)
  {
    var r := Assigned(cells, next);
    EachAssigned(cells, next);
    hide Assigned, Needed;
    assert cells[..|cells|] == cells;
    if i: nat :| i < |cells| && cells[i].live && next <= cells[i].id < next + Needed(cells) {
      var j := TurnOf(cells, cells[i].id - next);
      assert r[j].id == r[i].id && i != j;
      assert !Distinct(r) by { if i < j { assert r[i].id == r[j].id; } else { assert r[j].id == r[i].id; } }
    } else {
      forall i, j | 0 <= i < j < |cells| && r[i].id >= 1 ensures r[i].id != r[j].id {
        NeededGrows(cells, i, j);
        NeededGrows(cells, i, |cells|);
        NeededGrows(cells, j, |cells|);
      }
    }
  }

  /** A counter above all ids in use stays above them; every live cell has an id, the one it had before
      if it had one; and a finished one has none. */
  lemma AssignedUnder(cells: seq<Cell>, next: nat)
    requires Under(cells, next) && next >= 1
    ensures Under(Assigned(cells, next), next + Needed(cells))
    ensures forall i | 0 <= i < |cells| ::
              var id := Assigned(cells, next)[i].id;
              && (cells[i].live <==> id >= 1)
              && (cells[i].live && cells[i].id >= 1 ==> id == cells[i].id)
              && (cells[i].live && cells[i].id < 1 ==> next <= id)
  {
    EachAssigned(cells, next);
    hide Assigned, Needed;
    assert cells[..|cells|] == cells;
    forall i | 0 <= i < |cells| ensures Assigned(cells, next)[i].id < next + Needed(cells) {
      NeededGrows(cells, i, |cells|);
    }
  }

  /** No cell between two places needs an id. */
  predicate NoNeed(cells: seq<Cell>, i: int, j: int) {
    forall k | i < k < j && 0 <= k < |cells| :: !(cells[k].live && cells[k].id < 1)
  }

  /** What becomes of each cell: one that is finished loses its id, one with an id keeps it, and the others
      get the numbers from the counter on, one after the other. */
  lemma AssignedInOrder(cells: seq<Cell>, next: nat, i: nat, j: nat)
    requires i <= j < |cells|
    ensures var r := Assigned(cells, next);
            && r[j].live == cells[j].live && (!cells[j].live ==> r[j].id == -1)
            && (cells[j].live && cells[j].id >= 1 ==> r[j].id == cells[j].id)
            && (cells[j].live && cells[j].id < 1 && NoNeed(cells, -1, j) ==> r[j].id == next)
            && (cells[j].live && cells[j].id < 1 && cells[i].live && cells[i].id < 1 && i < j && NoNeed(cells, i, j) ==>
                  r[j].id == r[i].id + 1)
  {
    AssignedIs(cells, next, i);
    AssignedIs(cells, next, j);
    assert Needed(cells[..0]) == 0;
    hide Assigned, Needed;
    if NoNeed(cells, -1, j) { NeedStays(cells, 0, j); }
    if i < j && NoNeed(cells, i, j) {
      NeedStays(cells, i + 1, j);
      OneNeed(cells, i);
    }
  }

  lemma OneNeed(cells: seq<Cell>, i: nat)
    requires i < |cells|
    ensures Needed(cells[..i + 1]) == Needed(cells[..i]) + if cells[i].live && cells[i].id < 1 then 1 else 0
  {
    assert cells[..i + 1][..i] == cells[..i];
  }

  lemma {:induction false} NeedStays(cells: seq<Cell>, i: nat, j: nat)
    requires i <= j <= |cells| && NoNeed(cells, i - 1, j)
    ensures Needed(cells[..i]) == Needed(cells[..j])
    decreases j
  {
    if i < j {
      OneNeed(cells, j - 1);
      NeedStays(cells, i, j - 1);
    }
  }

  lemma {:induction false} NeededConcat(a: seq<Cell>, b: seq<Cell>)
    ensures Needed(a + b) == Needed(a) + Needed(b)
    decreases |b|
  {
    if b == [] {
      assert a + b == a;
    } else {
      var m := |b| - 1;
      assert (a + b)[..|a + b| - 1] == a + b[..m];
      NeededConcat(a, b[..m]);
    }
  }

  /** A pass over two lists is a pass over the first and then over the second. */
  lemma {:induction false} AssignedConcat(a: seq<Cell>, b: seq<Cell>, next: nat)
    ensures Assigned(a + b, next) == Assigned(a, next) + Assigned(b, next + Needed(a))
    decreases |b|
  {
    hide AssignedCell, Needed;
    if b == [] {
      assert a + b == a;
    } else {
      var front := b[..|b| - 1];
      assert (a + b)[..|a + b| - 1] == a + front;
      NeededConcat(a, front);
      AssignedConcat(a, front, next);
    }
  }

  lemma DialogSnoc(dialogs: seq<Dialog>, d: Dialog)
    ensures DialogCells(dialogs + [d]) == DialogCells(dialogs) + [Cell(d.id, d.established)]
  {
  }

  lemma CellsSnoc(sessions: seq<Session>, s: Session)
    ensures Cells(sessions + [s]) == Cells(sessions) + SessionCells(s)
  {
    assert (sessions + [s])[..|sessions|] == sessions;
  }

  lemma OneAssigned(c: Cell, next: nat)
    ensures Assigned([c], next) == [AssignedCell(c, next)]
    ensures Needed([c]) == if Needs(c) then 1 else 0
  {
    assert [c][..0] == [];
  }

  /** The inner loop, over the dialogs of a session. */
  method UpdateDialogs(dialogs: seq<Dialog>, start: nat) returns (r: seq<Dialog>, next: nat)
    ensures DialogCells(r) == Assigned(DialogCells(dialogs), start) && next == start + Needed(DialogCells(dialogs))
  {
    hide Assigned, Needed, DialogCells;
    r, next := [], start;
    NoDialogs(start);
    for i := 0 to |dialogs|
      invariant DialogCells(r) == Assigned(DialogCells(dialogs[..i]), start)
      invariant next == start + Needed(DialogCells(dialogs[..i]))
    {
      var d := dialogs[i];
      ghost var c := Cell(d.id, d.established);
      assert dialogs[..i + 1] == dialogs[..i] + [d];
      DialogSnoc(dialogs[..i], d);
      AssignedConcat(DialogCells(dialogs[..i]), [c], start);
      NeededConcat(DialogCells(dialogs[..i]), [c]);
      OneAssigned(c, next);
      if d.established {
        if d.id < 1 {
          d := d.(id := next);
          next := next + 1;
        }
      } else {
        d := d.(id := -1);
      }
      DialogSnoc(r, d);
      r := r + [d];
    }
    assert dialogs[..|dialogs|] == dialogs;
  }

  lemma NoDialogs(start: nat)
    ensures forall d: seq<Dialog> | |d| == 0 :: Assigned(DialogCells(d), start) == DialogCells([]) && Needed(DialogCells(d)) == 0
  {
  }

  /** The outer loop, over the sessions of one kind. */
  method UpdateSessions(sessions: seq<Session>, start: nat) returns (r: seq<Session>, next: nat)
    ensures Cells(r) == Assigned(Cells(sessions), start) && next == start + Needed(Cells(sessions))
    ensures |r| == |sessions| && forall i | 0 <= i < |r| :: |r[i].dialogs| == |sessions[i].dialogs|
  {
    hide Assigned, Needed, Cells, DialogCells;
    r, next := [], start;
    NoSessions(start);
    for i := 0 to |sessions|
      invariant |r| == i && forall k | 0 <= k < i :: |r[k].dialogs| == |sessions[k].dialogs|
      invariant Cells(r) == Assigned(Cells(sessions[..i]), start)
      invariant next == start + Needed(Cells(sessions[..i]))
    {
      var s := sessions[i];
      ghost var c := Cell(s.id, true);
      assert sessions[..i + 1] == sessions[..i] + [s];
      CellsSnoc(sessions[..i], s);
      AssignedConcat(Cells(sessions[..i]), SessionCells(s), start);
      NeededConcat(Cells(sessions[..i]), SessionCells(s));
      AssignedConcat([c], DialogCells(s.dialogs), next);
      NeededConcat([c], DialogCells(s.dialogs));
      OneAssigned(c, next);
      var id := s.id;
      if id < 1 {
        id := next;
        next := next + 1;
      }
      var dialogs: seq<Dialog>;
      dialogs, next := UpdateDialogs(s.dialogs, next);
      SameLength(dialogs, s.dialogs);
      CellsSnoc(r, Session(id, dialogs));
      r := r + [Session(id, dialogs)];
    }
    assert sessions[..|sessions|] == sessions;
  }

  lemma NoSessions(start: nat)
    ensures Cells([]) == []
    ensures forall s: seq<Session> | |s| == 0 :: Assigned(Cells(s), start) == Cells([]) && Needed(Cells(s)) == 0
  {
  }

  lemma SameLength(a: seq<Dialog>, b: seq<Dialog>)
    ensures |DialogCells(a)| == |a| && |DialogCells(b)| == |b|
  {
  }

  // ----- the registry -----

  lemma {:induction false} CellsConcat(a: seq<Session>, b: seq<Session>)
    ensures Cells(a + b) == Cells(a) + Cells(b)
    decreases |b|
  {
    hide Cells, SessionCells;
    if b == [] {
      NoSessions(0);
      assert a + b == a && Cells(a) + [] == Cells(a);
    } else {
      var front, last := b[..|b| - 1], b[|b| - 1];
      assert a + b == a + front + [last] && b == front + [last];
      CellsConcat(a, front);
      CellsSnoc(a + front, last);
      CellsSnoc(front, last);
      Associative(Cells(a), Cells(front), SessionCells(last));
    }
  }

  lemma Associative(a: seq<Cell>, b: seq<Cell>, c: seq<Cell>)
    ensures a + b + c == a + (b + c)
  {
  }

  /** Cells put in without ids, taken out, or no longer live do not spoil the others. */
  lemma ReplaceKeeps(a: seq<Cell>, b: seq<Cell>, b': seq<Cell>, c: seq<Cell>, next: nat)
    requires Distinct(a + b + c) && next >= 1 && NoneNew(b, b')
    ensures Distinct(a + b' + c) && (Under(a + b + c, next) ==> Under(a + b' + c, next))
  {
    var s, s' := a + b + c, a + b' + c;
    forall i | 0 <= i < |s'| && s'[i].id >= 1
      ensures Origin(a, b, b', i) < |s| && s[Origin(a, b, b', i)].id == s'[i].id
    {
    }
    forall i, j | 0 <= i < j < |s'| && s'[i].id >= 1 ensures s'[i].id != s'[j].id {
      if s'[j].id >= 1 { assert Origin(a, b, b', i) < Origin(a, b, b', j); }
    }
  }

  /** Where an id is now, it was before. */
  ghost predicate NoneNew(b: seq<Cell>, b': seq<Cell>) {
    forall i | 0 <= i < |b'| && b'[i].id >= 1 :: i < |b| && b'[i].id == b[i].id
  }

  /** Where a cell that kept its id was before. */
  function Origin(a: seq<Cell>, b: seq<Cell>, b': seq<Cell>, i: nat): nat {
    if i < |a| + |b'| then i else i - |b'| + |b|
  }

  /** The same for a part of one list: the sessions `y` become `y'`, and in their cells `v` becomes `v'`. */
  lemma ListKeeps(around: (seq<Cell>, seq<Cell>), x: seq<Session>, y: seq<Session>, y': seq<Session>, z: seq<Session>,
                  u: seq<Cell>, v: seq<Cell>, v': seq<Cell>, w: seq<Cell>, next: nat)
    requires Cells(y) == u + v + w && Cells(y') == u + v' + w && NoneNew(v, v') && next >= 1
    requires Distinct(around.0 + Cells(x + y + z) + around.1)
    ensures Distinct(around.0 + Cells(x + y' + z) + around.1)
    ensures Under(around.0 + Cells(x + y + z) + around.1, next) ==> Under(around.0 + Cells(x + y' + z) + around.1, next)
  {
    CellsConcat(x + y, z);
    CellsConcat(x, y);
    CellsConcat(x + y', z);
    CellsConcat(x, y');
    hide Cells, Distinct, Under, NoneNew;
    var a, c := around.0 + Cells(x) + u, w + Cells(z) + around.1;
    Regroup(around.0, Cells(x), u, v, w, Cells(z), around.1);
    Regroup(around.0, Cells(x), u, v', w, Cells(z), around.1);
    ReplaceKeeps(a, v, v', c, next);
  }

  lemma Regroup(p: seq<Cell>, x: seq<Cell>, u: seq<Cell>, v: seq<Cell>, w: seq<Cell>, z: seq<Cell>, q: seq<Cell>)
    ensures p + (x + (u + v + w) + z) + q == (p + x + u) + v + (w + z + q)
  {
  }

  lemma OneSession(s: Session)
    ensures Cells([s]) == SessionCells(s)
  {
    assert [s][..0] == [];
  }

  function Finished(s: Session, d: nat): Session
    requires d < |s.dialogs|
  {
    s.(dialogs := s.dialogs[d := s.dialogs[d].(established := false)])
  }

  function WithDialog(s: Session, d: Dialog): Session {
    s.(dialogs := [d] + s.dialogs)
  }

  function WithoutDialog(s: Session, d: nat): Session
    requires d < |s.dialogs|
  {
    s.(dialogs := s.dialogs[..d] + s.dialogs[d + 1..])
  }

  datatype Kind = Calls | Subscribes | Notifies

  class Registry {
    var calls: seq<Session>
    var subscribes: seq<Session>
    var notifies: seq<Session>
    /** The counter: a static variable of the function that hands out the ids. */
    var staticId: nat

    function All(): seq<Cell>
      reads this
    {
      Cells(calls) + (Cells(subscribes) + Cells(notifies))
    }

    /** No two objects share an id. */
    ghost predicate Valid()
      reads this
    {
      1 <= staticId && Distinct(All())
    }

    /** All ids are below the counter: it has not started again from 1. */
    ghost predicate Bounded()
      reads this
    {
      Under(All(), staticId)
    }

    /** Where the next pass begins to hand out ids. */
    function Start(): nat
      reads this
    {
      if staticId == INT_MAX then 1 else staticId
    }

    function List(kind: Kind): seq<Session>
      reads this
    {
      match kind
      case Calls => calls
      case Subscribes => subscribes
      case Notifies => notifies
    }

    /** The cells before and behind those of one list. */
    function Around(kind: Kind): (seq<Cell>, seq<Cell>)
      reads this
    {
      match kind
      case Calls => ([], Cells(subscribes) + Cells(notifies))
      case Subscribes => (Cells(calls), Cells(notifies))
      case Notifies => (Cells(calls) + Cells(subscribes), [])
    }

    lemma AllAround(kind: Kind)
      ensures All() == Around(kind).0 + Cells(List(kind)) + Around(kind).1
    {
      hide Cells;
    }

    constructor ()
      ensures Valid() && Bounded() && calls == subscribes == notifies == [] && staticId == 1
    {
      calls, subscribes, notifies, staticId := [], [], [], 1;
    }

    /** `_eXosip_update`, where the counter does not overflow within the pass: no two objects share an id
        afterwards, if and only if the range handed out was clear; and it is as long as the counter has not
        started again from 1. */
    method Update()
      requires Valid() && Start() + Needed(All()) <= INT_MAX
      modifies this
      ensures All() == Assigned(old(All()), old(Start()))
      ensures staticId == (if old(staticId) == 0x7fff_ffff then 1 else old(staticId)) + Needed(old(All()))
      ensures forall kind :: |List(kind)| == |old(List(kind))|
      ensures forall kind, k | 0 <= k < |List(kind)| :: |List(kind)[k].dialogs| == |old(List(kind))[k].dialogs|
      ensures Valid() <==> old(FreeRange(All(), Start()))
      ensures old(Bounded()) && old(staticId) != INT_MAX ==> Valid() && Bounded()
    {
      hide Assigned, Needed, Cells, Distinct, Under, FreeRange;
      ghost var start := Start();
      ghost var a, b, c := Cells(calls), Cells(subscribes), Cells(notifies);
      if staticId == INT_MAX {
        staticId := 1;
      }
      AssignedDistinct(a + (b + c), start);
      calls, staticId := UpdateSessions(calls, staticId);
      subscribes, staticId := UpdateSessions(subscribes, staticId);
      notifies, staticId := UpdateSessions(notifies, staticId);
      AssignedConcat(a, b + c, start);
      NeededConcat(a, b + c);
      AssignedConcat(b, c, start + Needed(a));
      NeededConcat(b, c);
      if old(Bounded()) && old(staticId) != INT_MAX {
        AssignedUnder(a + (b + c), start);
        BelowIsFree(a + (b + c), start);
      }
    }

    method SetList(kind: Kind, sessions: seq<Session>)
      modifies this`calls, this`subscribes, this`notifies
      ensures List(kind) == sessions && Around(kind) == old(Around(kind))
      ensures forall other | other != kind :: List(other) == old(List(other))
      ensures All() == old(Around(kind)).0 + Cells(sessions) + old(Around(kind)).1
    {
      match kind {
        case Calls => calls := sessions;
        case Subscribes => subscribes := sessions;
        case Notifies => notifies := sessions;
      }
      AllAround(kind);
    }

    /** A new session goes to the front of its list, without ids. */
    method AddSession(kind: Kind, s: Session)
      requires Valid() && s.id < 1 && forall d | d in s.dialogs :: d.id < 1
      modifies this`calls, this`subscribes, this`notifies
      ensures old(Bounded()) ==> Bounded()
      ensures Valid() && List(kind) == [s] + old(List(kind))
      ensures forall other | other != kind :: List(other) == old(List(other))
    {
      hide Distinct, Under, Cells, SessionCells, NoneNew;
      ghost var list := List(kind);
      AllAround(kind);
      NoIds(s);
      OneSession(s);
      NothingBefore(s, list);
      EmptyAround(SessionCells(s));
      EmptyAround([]);
      ListKeeps(Around(kind), [], [], [s], list, [], [], SessionCells(s), [], staticId);
      SetList(kind, [s] + List(kind));
    }

    /** A session is taken from its list. */
    method RemoveSession(kind: Kind, k: nat)
      requires Valid() && k < |List(kind)|
      modifies this`calls, this`subscribes, this`notifies
      ensures old(Bounded()) ==> Bounded()
      ensures Valid() && List(kind) == old(List(kind))[..k] + old(List(kind))[k + 1..]
      ensures forall other | other != kind :: List(other) == old(List(other))
    {
      hide Distinct, Under, Cells, SessionCells;
      ghost var list := List(kind);
      AllAround(kind);
      OneSession(list[k]);
      PutBack(list, k, list[k]);
      NothingBefore(list[k], list);
      assert list[..k] + [] + list[k + 1..] == list[..k] + list[k + 1..];
      EmptyAround(SessionCells(list[k]));
      EmptyAround([]);
      ListKeeps(Around(kind), list[..k], [list[k]], [], list[k + 1..], [], SessionCells(list[k]), [], [], staticId);
      SetList(kind, List(kind)[..k] + List(kind)[k + 1..]);
    }

    /** A new dialog goes to the front of the dialogs of its session, without an id. */
    method AddDialog(kind: Kind, k: nat, d: Dialog)
      requires Valid() && k < |List(kind)| && d.id < 1
      modifies this`calls, this`subscribes, this`notifies
      ensures old(Bounded()) ==> Bounded()
      ensures Valid() && List(kind) == old(List(kind))[k := WithDialog(old(List(kind))[k], d)]
      ensures forall other | other != kind :: List(other) == old(List(other))
    {
      ghost var list, s := List(kind), List(kind)[k];
      ghost var s' := WithDialog(s, d);
      ghost var first, others := [Cell(s.id, true)], DialogCells(s.dialogs);
      AllAround(kind);
      OneSession(s);
      OneSession(s');
      DialogCons(d, s.dialogs);
      hide Distinct, Under, Cells, DialogCells;
      assert first + [] + others == first + others;
      PutBack(list, k, s');
      ListKeeps(Around(kind), list[..k], [s], [s'], list[k + 1..], first, [], [Cell(d.id, d.established)], others, staticId);
      SetList(kind, List(kind)[k := WithDialog(List(kind)[k], d)]);
    }

    /** A dialog is finished. */
    method FinishDialog(kind: Kind, k: nat, d: nat)
      requires Valid() && k < |List(kind)| && d < |List(kind)[k].dialogs|
      modifies this`calls, this`subscribes, this`notifies
      ensures old(Bounded()) ==> Bounded()
      ensures Valid() && List(kind) == old(List(kind))[k := Finished(old(List(kind))[k], d)]
      ensures forall other | other != kind :: List(other) == old(List(other))
    {
      ghost var list, s := List(kind), List(kind)[k];
      ghost var s' := Finished(s, d);
      AllAround(kind);
      OneSession(s);
      OneSession(s');
      SameIds(s, d);
      hide Distinct, Under, Cells, SessionCells;
      PutBack(list, k, s');
      EmptyAround(SessionCells(s));
      EmptyAround(SessionCells(s'));
      ListKeeps(Around(kind), list[..k], [s], [s'], list[k + 1..], [], SessionCells(s), SessionCells(s'), [], staticId);
      SetList(kind, List(kind)[k := Finished(List(kind)[k], d)]);
    }

    /** A dialog is taken from its session. */
    method RemoveDialog(kind: Kind, k: nat, d: nat)
      requires Valid() && k < |List(kind)| && d < |List(kind)[k].dialogs|
      modifies this`calls, this`subscribes, this`notifies
      ensures old(Bounded()) ==> Bounded()
      ensures Valid() && List(kind) == old(List(kind))[k := WithoutDialog(old(List(kind))[k], d)]
      ensures forall other | other != kind :: List(other) == old(List(other))
    {
      ghost var list, s := List(kind), List(kind)[k];
      ghost var s', dialog := WithoutDialog(s, d), s.dialogs[d];
      ghost var before, behind := SessionCells(Session(s.id, s.dialogs[..d])), DialogCells(s.dialogs[d + 1..]);
      AllAround(kind);
      OneSession(s);
      OneSession(s');
      DialogTaken(s, d);
      hide Distinct, Under, Cells, DialogCells, SessionCells;
      PutBack(list, k, s');
      ghost var taken := [Cell(dialog.id, dialog.established)];
      ListKeeps(Around(kind), list[..k], [s], [s'], list[k + 1..], before, taken, [], behind, staticId);
      SetList(kind, List(kind)[k := WithoutDialog(List(kind)[k], d)]);
    }

    /** `_eXosip_call_find`: the call with this id, and nothing else has it. */
    method FindCall(cid: int) returns (r: int)
      requires Valid()
      ensures r == -1 <==> cid <= 0 || forall k | 0 <= k < |calls| :: calls[k].id != cid
      ensures r != -1 ==> 0 <= r < |calls| && calls[r].id == cid && Only(All(), cid, CellAt(calls, r))
    {
      hide Distinct, Under, Cells;
      if cid <= 0 {
        return -1;
      }
      for k := 0 to |calls|
        invariant forall i | 0 <= i < k :: calls[i].id != cid
      {
        if calls[k].id == cid {
          SessionAt([], calls, k, -1, Cells(subscribes) + Cells(notifies));
          assert [] + All() == All();
          OnlyOne(All(), CellAt(calls, k));
          return k;
        }
      }
      r := -1;
    }

    /** `_eXosip_call_dialog_find`: the dialog with this id, and nothing else has it. */
    method FindDialog(jid: int) returns (r: int, d: int)
      requires Valid()
      ensures r == -1 <==> jid <= 0 || forall k, i |
                0 <= k < |calls| && 0 <= i < |calls[k].dialogs| :: calls[k].dialogs[i].id != jid
      ensures r != -1 ==>
                && 0 <= r < |calls| && 0 <= d < |calls[r].dialogs| && calls[r].dialogs[d].id == jid
                && Only(All(), jid, CellAt(calls, r) + 1 + d)
    {
      hide Distinct, Under, Cells;
      d := -1;
      if jid <= 0 {
        return -1, -1;
      }
      for k := 0 to |calls|
        invariant forall j, i | 0 <= j < k && 0 <= i < |calls[j].dialogs| :: calls[j].dialogs[i].id != jid
      {
        for i := 0 to |calls[k].dialogs|
          invariant forall i' | 0 <= i' < i :: calls[k].dialogs[i'].id != jid
        {
          if calls[k].dialogs[i].id == jid {
            SessionAt([], calls, k, i, Cells(subscribes) + Cells(notifies));
            assert [] + All() == All();
            OnlyOne(All(), CellAt(calls, k) + 1 + i);
            return k, i;
          }
        }
      }
      r := -1;
    }

    /** `_eXosip_subscription_dialog_find`: the subscription with this id, or with a dialog that has it,
        which is the place `d` among its dialogs; and nothing else has it. */
    method FindSubscription(sid: int) returns (r: int, d: int)
      requires Valid()
      ensures r == -1 <==> sid <= 0 || forall k | 0 <= k < |subscribes| ::
                subscribes[k].id != sid && forall i | 0 <= i < |subscribes[k].dialogs| :: subscribes[k].dialogs[i].id != sid
      ensures r != -1 ==>
                && 0 <= r < |subscribes| && -1 <= d < |subscribes[r].dialogs|
                && sid == (if d == -1 then subscribes[r].id else subscribes[r].dialogs[d].id)
                && Only(All(), sid, |Cells(calls)| + CellAt(subscribes, r) + 1 + d)
    {
      hide Distinct, Under, Cells;
      if sid <= 0 {
        return -1, -1;
      }
      for k := 0 to |subscribes|
        invariant forall j | 0 <= j < k ::
                    subscribes[j].id != sid && forall i | 0 <= i < |subscribes[j].dialogs| :: subscribes[j].dialogs[i].id != sid
      {
        if subscribes[k].id == sid {
          SessionAt(Cells(calls), subscribes, k, -1, Cells(notifies));
          OnlyOne(All(), |Cells(calls)| + CellAt(subscribes, k));
          return k, -1;
        }
        for i := 0 to |subscribes[k].dialogs|
          invariant forall i' | 0 <= i' < i :: subscribes[k].dialogs[i'].id != sid
        {
          if subscribes[k].dialogs[i].id == sid {
            SessionAt(Cells(calls), subscribes, k, i, Cells(notifies));
            OnlyOne(All(), |Cells(calls)| + CellAt(subscribes, k) + 1 + i);
            return k, i;
          }
        }
      }
      r, d := -1, -1;
    }
  }

  /** The cell at `x`, and no other, has this id. */
  ghost predicate Only(cells: seq<Cell>, id: int, x: nat) {
    && x < |cells| && cells[x].id == id
    && forall i | 0 <= i < |cells| && i != x :: cells[i].id != id
  }

  lemma OnlyOne(cells: seq<Cell>, x: nat)
    requires Distinct(cells) && x < |cells| && cells[x].id >= 1
    ensures Only(cells, cells[x].id, x)
  {
  }

  /** Where the cells of a session begin. */
  function CellAt(sessions: seq<Session>, k: nat): nat
    requires k <= |sessions|
  {
    |Cells(sessions[..k])|
  }

  /** Where the cells of a session and (from 0 on) of its dialogs are, with those of other lists around. */
  lemma SessionAt(before: seq<Cell>, list: seq<Session>, k: nat, d: int, rest: seq<Cell>)
    requires k < |list| && -1 <= d < |list[k].dialogs|
    ensures var x, all := |before| + CellAt(list, k) + 1 + d, before + (Cells(list) + rest);
            x < |all| && all[x].id == if d == -1 then list[k].id else list[k].dialogs[d].id
  {
    var a, b, c := Cells(list[..k]), SessionCells(list[k]), Cells(list[k + 1..]);
    assert list == list[..k] + [list[k]] + list[k + 1..];
    CellsConcat(list[..k] + [list[k]], list[k + 1..]);
    CellsSnoc(list[..k], list[k]);
    assert b[1 + d].id == if d == -1 then list[k].id else list[k].dialogs[d].id;
    hide Cells, SessionCells;
    InMiddle(before, a, b, c, rest, 1 + d);
  }

  lemma InMiddle(p: seq<Cell>, a: seq<Cell>, b: seq<Cell>, c: seq<Cell>, q: seq<Cell>, i: nat)
    requires i < |b|
    ensures (p + (a + b + c + q))[|p| + |a| + i] == b[i]
  {
  }

  /** Above all ids in use, every range is free. */
  lemma BelowIsFree(cells: seq<Cell>, next: nat)
    ensures Under(cells, next) ==> FreeRange(cells, next)
  {
  }

  lemma NoIds(s: Session)
    requires s.id < 1 && forall d | d in s.dialogs :: d.id < 1
    ensures NoneNew([], SessionCells(s))
  {
    var cells := SessionCells(s);
    forall i | 0 <= i < |cells| ensures cells[i].id < 1 {
      if i > 0 { assert cells[i].id == s.dialogs[i - 1].id && s.dialogs[i - 1] in s.dialogs; }
    }
  }

  lemma SameIds(s: Session, d: nat)
    requires d < |s.dialogs|
    ensures NoneNew(SessionCells(s), SessionCells(Finished(s, d)))
  {
  }

  lemma DialogCons(d: Dialog, dialogs: seq<Dialog>)
    ensures DialogCells([d] + dialogs) == [Cell(d.id, d.established)] + DialogCells(dialogs)
  {
  }

  lemma DialogTaken(s: Session, d: nat)
    requires d < |s.dialogs|
    ensures var before, behind := SessionCells(Session(s.id, s.dialogs[..d])), DialogCells(s.dialogs[d + 1..]);
            && SessionCells(s) == before + [Cell(s.dialogs[d].id, s.dialogs[d].established)] + behind
            && SessionCells(WithoutDialog(s, d)) == before + [] + behind
  {
    var dialogs, x := s.dialogs, s.dialogs[d];
    assert dialogs == dialogs[..d] + [x] + dialogs[d + 1..];
    DialogsConcat(dialogs[..d] + [x], dialogs[d + 1..]);
    DialogSnoc(dialogs[..d], x);
    DialogsConcat(dialogs[..d], dialogs[d + 1..]);
    hide DialogCells;
    var c, a, b := [Cell(s.id, true)], DialogCells(dialogs[..d]), DialogCells(dialogs[d + 1..]);
    var y := [Cell(x.id, x.established)];
    assert c + (a + y + b) == (c + a) + y + b && c + (a + b) == (c + a) + [] + b;
  }

  lemma DialogsConcat(a: seq<Dialog>, b: seq<Dialog>)
    ensures DialogCells(a + b) == DialogCells(a) + DialogCells(b)
  {
  }

  lemma NothingBefore(s: Session, list: seq<Session>)
    ensures [] + [] + list == list && [] + [s] + list == [s] + list && Cells([]) == []
  {
  }

  lemma PutBack(list: seq<Session>, k: nat, s: Session)
    requires k < |list|
    ensures list[..k] + [list[k]] + list[k + 1..] == list
    ensures list[..k] + [s] + list[k + 1..] == list[k := s]
  {
  }

  lemma EmptyAround(cells: seq<Cell>)
    ensures [] + cells + [] == cells
  {
  }

  // ----- runs -----

  /** Objects come and go, and a pass hands out ids. */
  datatype Event =
    | Added(kind: Kind, s: Session)
    | Removed(kind: Kind, k: nat)
    | DialogAdded(kind: Kind, k: nat, dialog: Dialog)
    | DialogFinished(kind: Kind, k: nat, d: nat)
    | DialogRemoved(kind: Kind, k: nat, d: nat)
    | Pass

  /** A run of such events, for as long as passes find a clear range, below the greatest `int`: no two
      objects ever share an id, also when the counter has started again from 1; and in a run that ends
      early, at event `k`, for want of a clear range, the pass would have given two objects the same id. */
  method Run(events: seq<Event>) returns (r: Registry, k: nat, ghost wrapped: bool)
    ensures r.Valid() && k <= |events|
    ensures k < |events| ==> events[k].Pass? && (r.Start() + Needed(r.All()) <= INT_MAX ==>
              !FreeRange(r.All(), r.Start()) && !Distinct(Assigned(r.All(), r.Start())))
    ensures !wrapped ==> r.Bounded() && (k < |events| ==> r.Start() + Needed(r.All()) > INT_MAX)
  {
    hide Distinct, Under, Needed, Cells, Assigned, FreeRange;
    r := new Registry();
    k, wrapped := 0, false;
    while k < |events|
      invariant fresh(r) && r.Valid() && k <= |events|
      invariant !wrapped ==> r.Bounded()
    {
      var event := events[k];
      match event {
        case Added(kind, s) =>
          if s.id < 1 && forall d | d in s.dialogs :: d.id < 1 {
            r.AddSession(kind, s);
          }
        case Removed(kind, i) =>
          if i < |r.List(kind)| {
            r.RemoveSession(kind, i);
          }
        case DialogAdded(kind, i, d) =>
          if i < |r.List(kind)| && d.id < 1 {
            r.AddDialog(kind, i, d);
          }
        case DialogFinished(kind, i, d) =>
          if i < |r.List(kind)| && d < |r.List(kind)[i].dialogs| {
            r.FinishDialog(kind, i, d);
          }
        case DialogRemoved(kind, i, d) =>
          if i < |r.List(kind)| && d < |r.List(kind)[i].dialogs| {
            r.RemoveDialog(kind, i, d);
          }
        case Pass =>
          var cells, start := r.All(), r.Start();
          if start + Needed(cells) > INT_MAX {
            return;
          }
          wrapped := wrapped || r.staticId == INT_MAX;
          AssignedDistinct(cells, start);
          if !FreeRange(cells, start) {
            BelowIsFree(cells, start);
            return;
          }
          r.Update();
      }
      k := k + 1;
    }
  }

  /** The first pass over a registry with a call of two dialogs, one of them finished, a subscription and a
      notification: the session comes before its dialogs, calls before subscriptions, and these before
      notifications. */
  method FirstPass() returns (r: Registry)
    ensures |r.calls| == |r.subscribes| == |r.notifies| == 1 && |r.calls[0].dialogs| == 2
    ensures r.calls[0].id == 1 && r.calls[0].dialogs[0] == Dialog(2, true) && r.calls[0].dialogs[1] == Dialog(-1, false)
    ensures r.subscribes[0].id == 3 && r.notifies[0].id == 4 && r.staticId == 5
  {
    hide Assigned, Needed, Cells, SessionCells, DialogCells, FreeRange, Distinct, Under;
    r := new Registry();
    r.AddSession(Calls, Session(0, [Dialog(0, true), Dialog(0, false)]));
    r.AddSession(Subscribes, Session(0, []));
    r.AddSession(Notifies, Session(0, []));
    var c, s, n := r.List(Calls), r.List(Subscribes), r.List(Notifies);
    assert c == [Session(0, [Dialog(0, true), Dialog(0, false)])];
    FiveCells(c, s, n);
    FirstFive();
    r.Update();
    FiveCells(r.calls, r.subscribes, r.notifies);
  }

  lemma FiveCells(c: seq<Session>, s: seq<Session>, n: seq<Session>)
    requires |c| == |s| == |n| == 1 && |c[0].dialogs| == 2 && s[0].dialogs == n[0].dialogs == []
    ensures Cells(c) + (Cells(s) + Cells(n)) ==
            [Cell(c[0].id, true), Cell(c[0].dialogs[0].id, c[0].dialogs[0].established),
             Cell(c[0].dialogs[1].id, c[0].dialogs[1].established), Cell(s[0].id, true), Cell(n[0].id, true)]
  {
    assert c == [c[0]] && s == [s[0]] && n == [n[0]];
    OneSession(c[0]);
    OneSession(s[0]);
    OneSession(n[0]);
    hide Cells;
  }

  lemma FirstFive()
    ensures var cells := [Cell(0, true), Cell(0, true), Cell(0, false), Cell(0, true), Cell(0, true)];
            && Needed(cells) == 4
            && Assigned(cells, 1) == [Cell(1, true), Cell(2, true), Cell(-1, false), Cell(3, true), Cell(4, true)]
  {
    var a, b, c := [Cell(0, true), Cell(0, true)], [Cell(0, false)], [Cell(0, true), Cell(0, true)];
    assert a + b + c == [Cell(0, true), Cell(0, true), Cell(0, false), Cell(0, true), Cell(0, true)];
    TwoNeeded(1);
    TwoNeeded(3);
    OneAssigned(Cell(0, false), 3);
    hide Assigned, Needed;
    AssignedConcat(a + b, c, 1);
    AssignedConcat(a, b, 1);
    NeededConcat(a + b, c);
    NeededConcat(a, b);
  }

  lemma TwoNeeded(next: nat)
    ensures var cells := [Cell(0, true), Cell(0, true)];
            Needed(cells) == 2 && Assigned(cells, next) == [Cell(next, true), Cell(next + 1, true)]
  {
    var cells := [Cell(0, true), Cell(0, true)];
    assert cells[..1] == [Cell(0, true)];
    OneAssigned(Cell(0, true), next);
  }
}

/**
 CTimerUnit, CTimerList and CTimerObject: timers linked in rings of nodes that
 are rewritten in place, proved against the state machine of TimerModel.
 */
module Timer {
  import opened Basics
  import opened TimerModel
  import L = IntrusiveList

  // ----- rings and the FIFOs they stand for ----------------------------------

  /** The node is the one of its timer. */
  ghost predicate IsTimer(e: L.Node, timers: seq<L.Node>) { e.owner < |timers| && timers[e.owner] == e }

  /** A ring of timers behind the head of a list. */
  ghost predicate RingOf(c: seq<L.Node>, head: L.Node, timers: seq<L.Node>) {
    c != [] && c[0] == head && head !in timers && Distinct(c) && forall k :: 1 <= k < |c| ==> IsTimer(c[k], timers)
  }

  /** The timers of a ring, without the head. */
  ghost function Owners(c: seq<L.Node>): (q: seq<nat>)
    ensures |q| == if c == [] then 0 else |c| - 1
    ensures forall k :: 0 <= k < |q| ==> q[k] == c[k + 1].owner
  {
    seq(if c == [] then 0 else |c| - 1, k requires 0 <= k < |c| - 1 => c[k + 1].owner)
  }

  lemma {:induction false} WithoutAbsent(q: seq<nat>, x: nat)
    requires x !in q
    ensures Without(q, x) == q
  {
    if q != [] { WithoutAbsent(q[1..], x); }
  }

  /** Removing a timer from a FIFO is cutting its position out. */
  lemma {:induction false} WithoutIsCut(q: seq<nat>, i: nat)
    requires Distinct(q) && i < |q|
    ensures Without(q, q[i]) == L.Cut(q, i)
  {
    DistinctTail(q);
    if i == 0 {
      WithoutAbsent(q[1..], q[0]);
    } else {
      assert q[i] == q[1..][i - 1];
      WithoutIsCut(q[1..], i - 1);
      assert L.Cut(q, i) == [q[0]] + L.Cut(q[1..], i - 1);
    }
  }

  lemma OwnersDistinct(c: seq<L.Node>, head: L.Node, timers: seq<L.Node>)
    requires RingOf(c, head, timers)
    ensures Distinct(Owners(c))
  {
  }

  lemma RingCut(c: seq<L.Node>, head: L.Node, timers: seq<L.Node>, k: nat)
    requires RingOf(c, head, timers) && 1 <= k < |c|
    ensures RingOf(L.Cut(c, k), head, timers) && c[k] !in L.Cut(c, k)
    ensures forall y :: y in L.Cut(c, k) ==> y in c
    ensures forall y :: y in c && y != c[k] ==> y in L.Cut(c, k)
    ensures Owners(L.Cut(c, k)) == Without(Owners(c), c[k].owner)
  {
    hide Distinct, Without;
    L.CutDistinct(c, k);
    L.Others(c, k);
    OwnersDistinct(c, head, timers);
    WithoutIsCut(Owners(c), k - 1);
    assert Owners(L.Cut(c, k)) == L.Cut(Owners(c), k - 1);
  }

  lemma RingAppend(c: seq<L.Node>, head: L.Node, timers: seq<L.Node>, e: L.Node)
    requires RingOf(c, head, timers) && IsTimer(e, timers) && e !in c
    ensures RingOf(c + [e], head, timers) && Owners(c + [e]) == Owners(c) + [e.owner]
  {
    hide Distinct;
    L.AppendDistinct(c, e);
  }

  lemma RingWithout(c: seq<L.Node>, head: L.Node, timers: seq<L.Node>, x: nat)
    requires RingOf(c, head, timers) && x < |timers| && timers[x] !in c
    ensures Without(Owners(c), x) == Owners(c)
  {
    WithoutAbsent(Owners(c), x);
  }

  // ----- all rings -----------------------------------------------------------

  ghost predicate Absent(all: seq<seq<L.Node>>, e: L.Node) { forall i :: 0 <= i < |all| ==> e !in all[i] }

  /** One ring per head, and no node in two of them. */
  ghost predicate Shape(heads: seq<L.Node>, all: seq<seq<L.Node>>, timers: seq<L.Node>) {
    && |heads| == |all|
    && (forall i :: 0 <= i < |all| ==> RingOf(all[i], heads[i], timers))
    && (forall i, j, x :: 0 <= i < j < |all| && x in all[i] ==> x !in all[j])
  }

  lemma TakeOut(heads: seq<L.Node>, all: seq<seq<L.Node>>, timers: seq<L.Node>, i: nat, k: nat)
    requires Shape(heads, all, timers) && i < |all| && 1 <= k < |all[i]|
    ensures var e, rest := all[i][k], all[i := L.Cut(all[i], k)];
            && Shape(heads, rest, timers) && Absent(rest, e)
            && (forall y :: y != e && Absent(rest, y) ==> Absent(all, y))
            && (forall j :: 0 <= j < |all| ==> Owners(rest[j]) == Without(Owners(all[j]), e.owner))
  {
    hide RingOf, Without;
    var e, rest := all[i][k], all[i := L.Cut(all[i], k)];
    assert RingOf(all[i], heads[i], timers);
    RingCut(all[i], heads[i], timers, k);
    TimerIn(all[i], heads[i], timers, k);
    forall j | 0 <= j < |all| && j != i ensures Owners(rest[j]) == Without(Owners(all[j]), e.owner) && e !in all[j] {
      assert e in all[i];
      RingWithout(all[j], heads[j], timers, e.owner);
    }
    forall y | y != e && Absent(rest, y) ensures Absent(all, y) {
      forall j | 0 <= j < |all| ensures y !in all[j] { assert y !in rest[j]; }
    }
  }

  lemma TimerIn(c: seq<L.Node>, head: L.Node, timers: seq<L.Node>, k: nat)
    requires RingOf(c, head, timers) && 1 <= k < |c|
    ensures IsTimer(c[k], timers)
  {
  }

  lemma NothingOut(heads: seq<L.Node>, all: seq<seq<L.Node>>, timers: seq<L.Node>, x: nat)
    requires Shape(heads, all, timers) && x < |timers| && Absent(all, timers[x])
    ensures forall j :: 0 <= j < |all| ==> Owners(all[j]) == Without(Owners(all[j]), x)
  {
    forall j | 0 <= j < |all| ensures Owners(all[j]) == Without(Owners(all[j]), x) {
      RingWithout(all[j], heads[j], timers, x);
    }
  }

  lemma PutIn(heads: seq<L.Node>, all: seq<seq<L.Node>>, timers: seq<L.Node>, j: nat, e: L.Node)
    requires Shape(heads, all, timers) && j < |all| && IsTimer(e, timers) && Absent(all, e)
    ensures var more := all[j := all[j] + [e]];
            && Shape(heads, more, timers) && Owners(more[j]) == Owners(all[j]) + [e.owner]
            && forall y :: Absent(more, y) ==> Absent(all, y)
  {
    hide RingOf;
    RingAppend(all[j], heads[j], timers, e);
    var more := all[j := all[j] + [e]];
    forall y | Absent(more, y) ensures Absent(all, y) {
      forall i | 0 <= i < |all| ensures y !in all[i] { assert y !in more[i]; }
    }
  }

  /** The rings without position `k` of ring `i`, if there is such a ring. */
  ghost function Rest(all: seq<seq<L.Node>>, i: nat, k: nat): (r: seq<seq<L.Node>>)
    requires i < |all| ==> k < |all[i]|
    ensures |r| == |all|
  {
    if i < |all| then all[i := L.Cut(all[i], k)] else all
  }

  /** Position `k` of ring `i` is the timer `e`, or `e` is in no ring. */
  ghost predicate At(all: seq<seq<L.Node>>, i: nat, k: nat, e: L.Node) {
    if i < |all| then 1 <= k < |all[i]| && all[i][k] == e else Absent(all, e)
  }

  lemma LeaveRing(heads: seq<L.Node>, all: seq<seq<L.Node>>, timers: seq<L.Node>, i: nat, k: nat, e: L.Node)
    requires Shape(heads, all, timers) && IsTimer(e, timers) && At(all, i, k, e)
    ensures var rest := Rest(all, i, k);
            && Shape(heads, rest, timers) && Absent(rest, e)
            && (forall y :: y != e && Absent(rest, y) ==> Absent(all, y))
            && (forall j :: 0 <= j < |all| ==> Owners(rest[j]) == Without(Owners(all[j]), e.owner))
  {
    hide Shape, Without;
    if i < |all| { TakeOut(heads, all, timers, i, k); } else { NothingOut(heads, all, timers, e.owner); }
  }

  lemma Outside(all: seq<seq<L.Node>>, rest: seq<seq<L.Node>>, j: nat, e: L.Node, y: L.Node)
    requires j < |rest| == |all| && Absent(rest[j := rest[j] + [e]], y)
    requires forall z :: z != e && Absent(rest, z) ==> Absent(all, z)
    ensures y != e && Absent(all, y) && forall i :: 0 <= i < |all| ==> y !in all[i]
  {
    var more := rest[j := rest[j] + [e]];
    assert e in more[j];
    forall i | 0 <= i < |rest| ensures y !in rest[i] { assert y !in more[i]; }
  }

  /** A timer is in a ring at a position behind the head, or in none. */
  lemma TimerPlace(heads: seq<L.Node>, all: seq<seq<L.Node>>, timers: seq<L.Node>, e: L.Node)
    requires Shape(heads, all, timers) && e in timers && !Absent(all, e)
    ensures exists i, k :: 0 <= i < |all| && 1 <= k < |all[i]| && all[i][k] == e
  {
    var i :| 0 <= i < |all| && e in all[i];
    assert RingOf(all[i], heads[i], timers);
    var k :| 0 <= k < |all[i]| && all[i][k] == e;
  }

  // ----- the state the rings stand for ---------------------------------------

  /** CTimerList: a timeout and the head of a ring. */
  datatype Head = Head(timeout: int, tlist: L.Node)

  /** The heads of the pending timers and of the lists. */
  ghost function Heads(pending: L.Node, lists: seq<Head>): seq<L.Node> {
    [pending] + seq(|lists|, l requires 0 <= l < |lists| => lists[l].tlist)
  }

  ghost function View(clock: int, lists: seq<Head>, all: seq<seq<L.Node>>, exp: map<nat, int>): State
    requires |all| == |lists| + 1
  {
    State(clock, Owners(all[0]),
          seq(|lists|, l requires 0 <= l < |lists| => TimerList(lists[l].timeout, Owners(all[l + 1]))), exp)
  }

  lemma ViewUnlink(
      clock: int, lists: seq<Head>, all: seq<seq<L.Node>>, rest: seq<seq<L.Node>>, exp: map<nat, int>, x: nat)
    requires |all| == |rest| == |lists| + 1
    requires forall j :: 0 <= j < |all| ==> Owners(rest[j]) == Without(Owners(all[j]), x)
    ensures View(clock, lists, rest, exp) == Unlink(View(clock, lists, all, exp), x)
  {
    hide Without;
  }

  lemma ViewArm(clock: int, lists: seq<Head>, all: seq<seq<L.Node>>, exp: map<nat, int>, j: nat, e: L.Node)
    requires |all| == |lists| + 1 && j < |lists| && Owners(all[j + 1] + [e]) == Owners(all[j + 1]) + [e.owner]
    ensures View(clock, lists, all[j + 1 := all[j + 1] + [e]], exp[e.owner := clock + lists[j].timeout * TICK]) ==
            Arm(View(clock, lists, all, exp), e.owner, j)
  {
  }

  lemma ViewZero(clock: int, lists: seq<Head>, all: seq<seq<L.Node>>, exp: map<nat, int>, e: L.Node)
    requires |all| == |lists| + 1 && Owners(all[0] + [e]) == Owners(all[0]) + [e.owner]
    ensures var s := View(clock, lists, all, exp);
            View(clock, lists, all[0 := all[0] + [e]], exp) == s.(pending := s.pending + [e.owner])
  {
  }

  /** A new list is the same before and after a timer left its list. */
  lemma ListThenUnlink(s: State, x: nat, timeout: int)
    ensures Unlink(WithList(s, timeout), x) == WithList(Unlink(s, x), timeout)
    ensures IndexOf(Unlink(WithList(s, timeout), x).lists, timeout) == IndexOf(WithList(s, timeout).lists, timeout)
  {
    hide IndexOf;
    SameIndex(WithList(s, timeout).lists, Unlink(WithList(s, timeout), x).lists, timeout);
    SameIndex(s.lists, Unlink(s, x).lists, timeout);
  }

  lemma {:induction false} SameIndex(a: seq<TimerList>, b: seq<TimerList>, timeout: int)
    requires |a| == |b| && forall l :: 0 <= l < |a| ==> a[l].timeout == b[l].timeout
    ensures IndexOf(a, timeout) == IndexOf(b, timeout)
  {
    if a != [] { SameIndex(a[1..], b[1..], timeout); }
  }

  /** Nodes are linked as `all` says, and a timer in no ring is alone. */
  ghost predicate LinkedAs(
      pending: L.Node, lists: seq<Head>, timers: seq<L.Node>, all: seq<seq<L.Node>>, nodes: set<L.Node>)
    reads nodes
  {
    && (forall x :: 0 <= x < |timers| ==> timers[x].owner == x && timers[x] in nodes)
    && Shape(Heads(pending, lists), all, timers)
    && (forall i :: 0 <= i < |all| ==> (forall e :: e in all[i] ==> e in nodes) && L.Ring(all[i]))
    && (forall x :: 0 <= x < |timers| && Absent(all, timers[x]) ==> L.Ring([timers[x]]))
  }

  /** What is written to: the nodes `touched`, of the rings `i` and `j`, and the timer `lone`. */
  datatype Change = Change(touched: set<L.Node>, i: nat, j: nat, lone: nat)

  /** Only rings `i` and `j` changed, by nodes of `touched`; a timer other than `lone` that is in no ring now was in
      none before. */
  ghost predicate Rewired(all: seq<seq<L.Node>>, more: seq<seq<L.Node>>, timers: seq<L.Node>, w: Change) {
    var Change(touched, i, j, lone) := w;
    && |more| == |all|
    && (forall m, y :: 0 <= m < |all| && y in more[m] ==> y in all[m] || y in touched)
    && (forall m :: 0 <= m < |all| && m != i && m != j ==> more[m] == all[m])
    && (forall m, y :: 0 <= m < |all| && m != i && m != j && y in all[m] ==> y !in touched)
    && (forall x :: 0 <= x < |timers| && x != lone && Absent(more, timers[x]) ==>
         Absent(all, timers[x]) && timers[x] !in touched)
  }

  ghost function Nodes(c: seq<L.Node>): set<L.Node> { set y | y in c }

  lemma MoveRings(
      heads: seq<L.Node>, all: seq<seq<L.Node>>, timers: seq<L.Node>, i: nat, k: nat, j: nat, e: L.Node, c: seq<L.Node>)
    requires Shape(heads, all, timers) && IsTimer(e, timers) && At(all, i, k, e) && j < |all|
    requires c == if i < |all| then all[i] else [e]
    ensures var rest := Rest(all, i, k); var more := rest[j := rest[j] + [e]];
            && Shape(heads, more, timers) && Owners(rest[j] + [e]) == Owners(rest[j]) + [e.owner]
            && (forall m :: 0 <= m < |all| ==> Owners(rest[m]) == Without(Owners(all[m]), e.owner))
            && more[j] == (if i == j then L.Cut(all[j], k) + [e] else all[j] + [e])
            && (i < |all| && i != j ==> more[i] == L.Cut(all[i], k))
            && Rewired(all, more, timers, Change(Nodes(c) + Nodes(all[j]), i, j, |timers|))
  {
    hide RingOf, Without, Owners, Rewired;
    LeaveRing(heads, all, timers, i, k, e);
    var rest := Rest(all, i, k);
    PutIn(heads, rest, timers, j, e);
    MoveRewired(heads, all, rest, timers, i, k, j, e, c);
  }

  lemma MoveRewired(
      heads: seq<L.Node>, all: seq<seq<L.Node>>, rest: seq<seq<L.Node>>, timers: seq<L.Node>, i: nat, k: nat, j: nat,
      e: L.Node, c: seq<L.Node>)
    requires Shape(heads, all, timers) && At(all, i, k, e) && rest == Rest(all, i, k) && j < |all|
    requires c == (if i < |all| then all[i] else [e]) && forall y :: y != e && Absent(rest, y) ==> Absent(all, y)
    ensures Rewired(all, rest[j := rest[j] + [e]], timers, Change(Nodes(c) + Nodes(all[j]), i, j, |timers|))
  {
    hide RingOf, L.Cut;
    var more, touched := rest[j := rest[j] + [e]], Nodes(c) + Nodes(all[j]);
    if i < |all| { L.Others(all[i], k); }
    assert e in c;
    forall x | 0 <= x < |timers| && Absent(more, timers[x]) ensures Absent(all, timers[x]) && timers[x] !in touched {
      Outside(all, rest, j, e, timers[x]);
    }
  }

  lemma CutRings(
      heads: seq<L.Node>, all: seq<seq<L.Node>>, timers: seq<L.Node>, i: nat, k: nat, e: L.Node, c: seq<L.Node>)
    requires Shape(heads, all, timers) && IsTimer(e, timers) && At(all, i, k, e)
    requires forall x :: 0 <= x < |timers| ==> timers[x].owner == x
    requires c == if i < |all| then all[i] else [e]
    ensures var rest := Rest(all, i, k);
            && Shape(heads, rest, timers)
            && (forall m :: 0 <= m < |all| ==> Owners(rest[m]) == Without(Owners(all[m]), e.owner))
            && (i < |all| ==> rest[i] == L.Cut(all[i], k))
            && Rewired(all, rest, timers, Change(Nodes(c), i, i, e.owner))
  {
    hide RingOf, Without, Owners;
    LeaveRing(heads, all, timers, i, k, e);
  }

  lemma NewRing(heads: seq<L.Node>, all: seq<seq<L.Node>>, timers: seq<L.Node>, head: L.Node)
    requires Shape(heads, all, timers) && head !in timers && Absent(all, head)
    ensures Shape(heads + [head], all + [[head]], timers)
    ensures forall e :: Absent(all + [[head]], e) ==> Absent(all, e)
  {
    hide RingOf;
    assert RingOf([head], head, timers) by { LoneHead(head, timers); }
    var more := all + [[head]];
    forall e | Absent(more, e) ensures Absent(all, e) {
      forall i | 0 <= i < |all| ensures e !in all[i] { assert more[i] == all[i]; }
    }
  }

  lemma LoneHead(head: L.Node, timers: seq<L.Node>)
    requires head !in timers
    ensures RingOf([head], head, timers) && Owners([head]) == []
  {
  }

  lemma FoundAt(lists: seq<TimerList>, timeout: int, i: nat)
    requires i < |lists| && lists[i].timeout == timeout && forall l :: 0 <= l < i ==> lists[l].timeout != timeout
    ensures IndexOf(lists, timeout) == i
  {
  }

  // ----- the unit ------------------------------------------------------------

  /** The operations are about timers that exist. */
  predicate Known(ops: seq<Op>, count: nat) { forall k :: 0 <= k < |ops| ==> ops[k].Tick? || ops[k].x < count }

  ghost predicate KnownScript(script: nat -> seq<Op>, count: nat) { forall n :: Known(script(n), count) }

  class TimerUnit {
    /** The value of GET_TIMESTAMP, which never decreases. */
    var clock: int
    /** The head of the pending timers. */
    const pending: L.Node
    /** The lists, the chain of the unit beginning at the end. */
    var lists: seq<Head>
    /** The timer objects; timer `x` is `timers[x]`. */
    const timers: seq<L.Node>
    var objexp: map<nat, int>
    /** The ring of the pending timers, then that of each list. */
    ghost var rings: seq<seq<L.Node>>
    ghost var Repr: set<L.Node>

    ghost predicate Linked()
      reads this, Repr
    {
      LinkedAs(pending, lists, timers, rings, Repr)
    }

    ghost function Model(): State
      reads this
    {
      if |rings| == |lists| + 1 then View(clock, lists, rings, objexp) else State(clock, [], [], objexp)
    }

    ghost predicate Valid()
      reads this, Repr
    {
      Linked() && Inv(Model())
    }

    constructor (now: int, timers: seq<L.Node>)
      requires forall x :: 0 <= x < |timers| ==> timers[x].owner == x && L.Ring([timers[x]])
      ensures Valid() && Model() == State(now, [], [], map[]) && this.timers == timers
      ensures forall e :: e in Repr ==> e in timers || fresh(e)
    {
      var head := new L.Node(0);
      clock, pending, lists, objexp := now, head, [], map[];
      this.timers, rings, Repr := timers, [[head]], {head} + set e | e in timers;
    }

    /** Where timer `x` is linked: in a ring, or alone. */
    lemma Place(x: nat) returns (i: nat, k: nat, c: seq<L.Node>)
      requires Linked() && x < |timers|
      ensures At(rings, i, k, timers[x]) && c == (if i < |rings| then rings[i] else [timers[x]])
      ensures L.Ring(c) && k < |c| && c[k] == timers[x] && (i < |rings| ==> |c| > 1)
      ensures forall e :: e in c ==> e in Repr
      ensures forall j, e :: 0 <= j < |rings| && j != i && e in rings[j] ==> e !in c
    {
      if Absent(rings, timers[x]) {
        i, k, c := |rings|, 0, [timers[x]];
      } else {
        TimerPlace(Heads(pending, lists), rings, timers, timers[x]);
        i, k :| 0 <= i < |rings| && 1 <= k < |rings[i]| && rings[i][k] == timers[x];
        c := rings[i];
      }
    }

    lemma HeadOf(j: nat)
      requires Linked() && j < |rings|
      ensures L.Ring(rings[j]) && rings[j][0] == Heads(pending, lists)[j] && Heads(pending, lists)[j] !in timers
      ensures forall m, e :: 0 <= m < |rings| && m != j && e in rings[m] ==> e !in rings[j]
      ensures forall e :: e in rings[j] ==> e in Repr
    {
      assert RingOf(rings[j], Heads(pending, lists)[j], timers);
    }

    /** Rings without a node that was written to are still linked, and so are lone timers. */
    twostate lemma Relinked(w: Change)
      requires old(Linked()) && lists == old(lists) && Repr == old(Repr) && w.touched <= Repr
      requires Shape(Heads(pending, lists), rings, timers) && Rewired(old(rings), rings, timers, w)
      requires forall e :: e in Repr && e !in w.touched ==> e.next == old(e.next) && e.prev == old(e.prev)
      requires w.i < |rings| ==> L.Ring(rings[w.i])
      requires w.j < |rings| ==> L.Ring(rings[w.j])
      requires w.lone < |timers| ==> L.Ring([timers[w.lone]])
      ensures Linked()
    {
      hide L.Ring, Shape, Absent;
      forall m | 0 <= m < |rings| ensures L.Ring(rings[m]) && forall e :: e in rings[m] ==> e in Repr {
        if m != w.i && m != w.j { L.RingKept(old(rings)[m]); }
      }
      forall x | 0 <= x < |timers| && Absent(rings, timers[x]) ensures L.Ring([timers[x]]) {
        if x != w.lone { L.RingKept([timers[x]]); }
      }
    }

    /** There is a ring for the pending timers and one for each list. */
    lemma Counted(x: nat)
      requires Linked()
      ensures |rings| == |lists| + 1 && Shape(Heads(pending, lists), rings, timers)
      ensures x < |timers| ==> timers[x] in Repr
      ensures forall y :: 0 <= y < |timers| ==> timers[y].owner == y
    {
    }

    /** ListMoveTail: the timer leaves the ring it is in and goes to the end of the ring of a head. */
    method ListMoveTail(x: nat, head: L.Node, ghost j: nat) returns (ghost rest: seq<seq<L.Node>>)
      requires Linked() && x < |timers| && j < |rings| && head == Heads(pending, lists)[j]
      modifies this`rings, Repr
      ensures Linked() && |rest| == |old(rings)| && rings == rest[j := rest[j] + [timers[x]]]
      ensures forall i :: 0 <= i < |rest| ==> Owners(rest[i]) == Without(Owners(old(rings[i])), x)
      ensures Owners(rest[j] + [timers[x]]) == Owners(rest[j]) + [x]
    {
      hide Without, L.Ring, Shape, Absent, LinkedAs, Rest, At, Owners, Rewired;
      Counted(x);
      var e := timers[x];
      ghost var i, k, c := Place(x);
      HeadOf(j);
      ghost var d := rings[j];
      MoveRings(Heads(pending, lists), rings, timers, i, k, j, e, c);
      assert i != j ==> forall m, n :: 0 <= m < |c| && 0 <= n < |d| ==> d[n] in d && c[m] in c;
      L.MoveTail(e, head, c, k, d);
      rest := Rest(rings, i, k);
      rings := rest[j := rest[j] + [e]];
      Relinked(Change(Nodes(c) + Nodes(d), i, j, |timers|));
    }

    /** ResetList of a timer, wherever it is linked. */
    method ListDel(x: nat)
      requires Linked() && x < |timers|
      modifies this`rings, Repr
      ensures Linked() && Model() == Unlink(old(Model()), x)
    {
      hide Without, L.Ring, Unlink, View, Shape, Absent, LinkedAs, Rest, At, Owners, Rewired;
      Counted(x);
      ghost var i, k, c := Place(x);
      CutRings(Heads(pending, lists), rings, timers, i, k, timers[x], c);
      L.DelInit(timers[x], c, k);
      ghost var rest := Rest(rings, i, k);
      ViewUnlink(clock, lists, rings, rest, objexp, x);
      rings := rest;
      Relinked(Change(Nodes(c), i, i, x));
    }

    /** ListEmpty of the list of a head. */
    method ListEmpty(head: L.Node, ghost j: nat) returns (empty: bool)
      requires Linked() && j < |rings| && head == Heads(pending, lists)[j]
      ensures empty <==> Owners(rings[j]) == []
    {
      hide LinkedAs, L.Ring;
      HeadOf(j);
      empty := L.IsEmpty(head, rings[j]);
    }

    /** NextOwner: the timer at the front. */
    method NextOwner(head: L.Node, ghost j: nat) returns (x: nat)
      requires Linked() && j < |rings| && head == Heads(pending, lists)[j] && Owners(rings[j]) != []
      ensures x == Owners(rings[j])[0] && x < |timers|
    {
      hide L.Ring;
      HeadOf(j);
      L.Around(rings[j], 0);
      TimerIn(rings[j], head, timers, 1);
      x := head.next.owner;
    }

    /** GetTimerList. */
    method GetTimerList(to: int) returns (i: nat)
      requires Linked()
      modifies this`lists, this`rings, this`Repr
      ensures Linked() && fresh(Repr - old(Repr)) && |rings| == |lists| + 1
      ensures Model() == WithList(old(Model()), to)
      ensures i == IndexOf(Model().lists, to) < |lists| && lists[i].timeout == to
    {
      hide L.Ring, IndexOf, RingOf;
      i := 0;
      while i < |lists|
        invariant i <= |lists| && forall l :: 0 <= l < i ==> lists[l].timeout != to
      {
        if lists[i].timeout == to {
          FoundAt(Model().lists, to, i);
          return;
        }
        i := i + 1;
      }
      var head := new L.Node(0);
      ListFor(Model().lists, to);
      IndexOfLast(Model().lists, TimerList(to, []));
      NewRing(Heads(pending, lists), rings, timers, head);
      LoneHead(head, timers);
      forall m | 0 <= m < |rings| ensures L.Ring(rings[m]) { L.RingKept(rings[m]); }
      forall x | 0 <= x < |timers| && Absent(rings, timers[x]) ensures L.Ring([timers[x]]) {
        L.RingKept([timers[x]]);
      }
      assert Heads(pending, lists + [Head(to, head)]) == Heads(pending, lists) + [head];
      lists := lists + [Head(to, head)];
      rings := rings + [[head]];
      Repr := Repr + {head};
    }

    /** AttachTimer to the list for a timeout. */
    method AttachTimer(x: nat, timeout: int)
      requires Linked() && x < |timers|
      modifies this, Repr
      ensures Linked() && fresh(Repr - old(Repr)) && Model() == Attach(old(Model()), x, timeout)
    {
      hide LinkedAs, IndexOf, Without, Unlink, View, Owners;
      Counted(x);
      ghost var s := Model();
      var i := GetTimerList(timeout);
      ghost var were := rings;
      objexp := objexp[x := clock + lists[i].timeout * TICK];
      ghost var rest := ListMoveTail(x, lists[i].tlist, i + 1);
      ViewUnlink(clock, lists, were, rest, old(objexp), x);
      ViewArm(clock, lists, rest, old(objexp), i, timers[x]);
      ListThenUnlink(s, x, timeout);
    }

    /** AttachZeroTimer. */
    method AttachZeroTimer(x: nat)
      requires Linked() && x < |timers|
      modifies this`rings, Repr
      ensures Linked() && Model() == AttachZero(old(Model()), x)
    {
      hide LinkedAs, Without, Unlink, View, Owners;
      Counted(x);
      ghost var were := rings;
      ghost var rest := ListMoveTail(x, pending, 0);
      ViewUnlink(clock, lists, were, rest, objexp, x);
      ViewZero(clock, lists, rest, objexp, timers[x]);
    }

    /** One operation of a callback. */
    method Perform(op: Op)
      requires Linked() && (op.Tick? || op.x < |timers|)
      modifies this, Repr
      ensures Linked() && fresh(Repr - old(Repr)) && Model() == Step(old(Model()), op)
      ensures OpMeans(old(Model()), op, Model())
    {
      StepMeans(Model(), op);
      hide LinkedAs, Attach, Unlink, Owners, OpMeans;
      match op {
        case Tick(dt) => Counted(0); clock := clock + dt;
        case AttachOp(x, timeout) => AttachTimer(x, timeout);
        case ZeroOp(x) => AttachZeroTimer(x);
        case DisableOp(x) => ListDel(x);
      }
    }

    /** TimerNotify of a timer that was taken off its list. */
    method Notify(ops: seq<Op>)
      requires Linked() && Known(ops, |timers|)
      modifies this, Repr
      ensures Linked() && fresh(Repr - old(Repr)) && Model() == Steps(old(Model()), ops)
    {
      hide LinkedAs, Step;
      for k := 0 to |ops|
        invariant Linked() && fresh(Repr - old(Repr)) && Steps(old(Model()), ops) == Steps(Model(), ops[k..])
      {
        assert ops[k..][0] == ops[k] && ops[k..][1..] == ops[k + 1..];
        Perform(ops[k]);
      }
      assert ops[|ops|..] == [];
    }

    /** A timer is taken off its list, then TimerNotify runs. */
    method Notified(x: nat, ops: seq<Op>)
      requires Linked() && x < |timers| && Known(ops, |timers|)
      modifies this, Repr
      ensures Linked() && fresh(Repr - old(Repr)) && Model() == Fire(old(Model()), x, ops)
    {
      hide LinkedAs, Unlink, Steps, View;
      ListDel(x);
      Notify(ops);
    }

    /** Clock, deadlines and number of lists are those of the model. */
    lemma Seen()
      requires Linked()
      ensures Model().clock == clock && Model().exp == objexp && |Model().lists| == |lists|
    {
    }

    /** The front of list `i` is that of the FIFO of the model. */
    lemma FrontOf(i: nat)
      requires Linked() && i < |lists|
      ensures i + 1 < |rings| && Heads(pending, lists)[i + 1] == lists[i].tlist
      ensures Owners(rings[i + 1]) == Model().lists[i].objs && |Model().lists| == |lists|
    {
    }

    /** The front of the pending timers is that of the model. */
    lemma FrontPending()
      requires Linked()
      ensures |rings| > 0 && Heads(pending, lists)[0] == pending && Owners(rings[0]) == Model().pending
    {
    }

    /** CTimerList::CheckExpired. */
    method CheckList(i: nat, now: int, script: nat -> seq<Op>, from: nat) returns (n: nat, ghost trace: seq<Event>)
      requires Valid() && ScriptOk(script) && KnownScript(script, |timers|)
      requires now <= Model().clock && i < |Model().lists| && DoneFrom(Model(), now, i + 1)
      modifies this, Repr
      ensures var r := FireList(old(Model()), now, i, script, from); Model() == r.s && n == r.fired && trace == r.trace
      ensures Valid() && fresh(Repr - old(Repr))
      ensures now <= Model().clock && |old(Model().lists)| <= |Model().lists| && DoneFrom(Model(), now, i)
    {
      hide LinkedAs, Inv, DoneFrom, Expired, Fire, Explains, View, Owners, Known, FireList;
      Seen();
      FrontOf(i);
      FireListOk(Model(), now, i, script, from);
      ghost var all := FireList(Model(), now, i, script, from);
      n, trace := from, [];
      var empty := ListEmpty(lists[i].tlist, i + 1);
      while !empty
        invariant Valid() && fresh(Repr - old(Repr)) && now <= Model().clock && i < |Model().lists|
        invariant |old(Model().lists)| <= |Model().lists| && empty == (Model().lists[i].objs == [])
        invariant var r := FireList(Model(), now, i, script, n);
                  all.s == r.s && all.fired == r.fired && all.trace == trace + r.trace
        decreases |Expired(Model(), now)|
      {
        Seen();
        FrontOf(i);
        var x := NextOwner(lists[i].tlist, i + 1);
        FrontExpired(Model(), i, now);
        if objexp[x] > now { break; }
        FireOk(Model(), x, script(n), now);
        FireListStep(Model(), now, i, script, n);
        Notified(x, script(n));
        trace := trace + ([Fired(x)] + Dids(script(n)));
        n := n + 1;
        Seen();
        FrontOf(i);
        empty := ListEmpty(lists[i].tlist, i + 1);
      }
      FireListStop(Model(), now, i, script, n);
    }

    /** CheckPending. */
    method CheckPending(ghost now: int, script: nat -> seq<Op>) returns (n: nat, ghost trace: seq<Event>)
      requires Valid() && ScriptOk(script) && KnownScript(script, |timers|)
      requires Ends(Model(), script, 0) && now <= Model().clock
      modifies this, Repr
      ensures var r := FirePending(old(Model()), script, 0); Model() == r.s && n == r.fired && trace == r.trace
      ensures Valid() && fresh(Repr - old(Repr)) && now <= Model().clock
    {
      hide LinkedAs, Inv, Fire, Explains, Due, View, Owners, Known, Ends;
      FirePendingOk(Model(), now, script, 0);
      ghost var all := FirePending(Model(), script, 0);
      n, trace := 0, [];
      FrontPending();
      var empty := ListEmpty(pending, 0);
      while !empty
        invariant Valid() && fresh(Repr - old(Repr)) && now <= Model().clock && empty == (Model().pending == [])
        invariant Ends(Model(), script, n)
        invariant var r := FirePending(Model(), script, n);
                  all.s == r.s && all.fired == r.fired && all.trace == trace + r.trace
        decreases Rounds(Model(), script, n)
      {
        FrontPending();
        var x := NextOwner(pending, 0);
        RoundLeft(Model(), script, n);
        RoundOk(Model(), script(n), now);
        Notified(x, script(n));
        trace := trace + ([Fired(x)] + Dids(script(n)));
        n := n + 1;
        FrontPending();
        empty := ListEmpty(pending, 0);
      }
    }

    /** CTimerUnit::CheckExpired. */
    method CheckExpired(time: int, onPending: nat -> seq<Op>, onExpired: nat -> seq<Op>)
      returns (n: nat, ghost now: int, ghost trace: seq<Event>)
      requires Valid() && ScriptOk(onPending) && ScriptOk(onExpired) && (time != 0 ==> time <= clock)
      requires KnownScript(onPending, |timers|) && KnownScript(onExpired, |timers|) && Ends(Model(), onPending, 0)
      modifies this, Repr
      ensures Valid() && fresh(Repr - old(Repr)) && now == (if time == 0 then old(clock) else time)
      ensures now <= old(Model()).clock
      ensures var r := TimerModel.CheckExpired(old(Model()), now, onPending, onExpired);
              Model() == r.s && n == r.fired && trace == r.trace
      ensures Expired(Model(), now) == {} && n == FiredIn(trace)
      ensures var due, m := Due(old(Model()), now), |FirePending(old(Model()), onPending, 0).trace|;
              && (forall k :: 0 <= k < |trace| && trace[k].Fired? ==> Waits(due, trace[..k], m, trace[k].x))
              && forall x :: !Waits(due, trace, m, x)
    {
      hide LinkedAs, Inv, Expired, DoneFrom, FireList, FirePending, Due, Waits, View, Owners, Known, Ends, FiredIn,
        Explains, Touched;
      Seen();
      var t := if time == 0 then clock else time;
      now := t;
      PassFires(Model(), t, onPending, onExpired);
      PassCount(Model(), t, onPending, onExpired);
      n, trace := CheckPending(t, onPending);
      Seen();
      NothingAbove(Model(), t);
      ghost var all := FireLists(Model(), t, |lists|, onExpired, 0);
      var i: nat, fired: nat := |lists|, 0;
      ghost var more: seq<Event> := [];
      while i > 0
        invariant Valid() && fresh(Repr - old(Repr)) && t <= Model().clock && i <= |Model().lists|
        invariant DoneFrom(Model(), t, i)
        invariant var r := FireLists(Model(), t, i, onExpired, fired);
                  all.s == r.s && all.fired == r.fired && all.trace == more + r.trace
      {
        i := i - 1;
        ghost var one;
        fired, one := CheckList(i, t, onExpired, fired);
        more := more + one;
      }
      assert FireLists(Model(), t, 0, onExpired, fired) == Result(Model(), [], fired);
      n := n + fired;
      trace := trace + more;
    }

    /** ExpireMicroSeconds: how long to wait, at most `msec` milliseconds. */
    method ExpireMicroSeconds(msec: int) returns (w: nat)
      requires Valid()
      ensures w <= if msec < 0 then 0 else msec
      ensures w > 0 ==> forall x :: InList(Model(), x) ==> x in objexp && clock + TICK * w <= objexp[x]
      ensures w < msec ==> exists x :: InList(Model(), x) && x in objexp && objexp[x] < clock + TICK * (w + 1)
    {
      hide LinkedAs, Sorted, Distinct, View, Owners, Shape;
      Seen();
      ghost var s := Model();
      var exp := clock + msec * TICK;
      ghost var first: nat := 0;
      var i: nat := |lists|;
      while i > 0
        invariant i <= |lists| && exp <= clock + msec * TICK
        invariant forall l, x :: i <= l < |lists| && x in s.lists[l].objs ==> x in objexp && exp <= objexp[x]
        invariant exp < clock + msec * TICK ==> InList(s, first) && first in objexp && objexp[first] == exp
      {
        i := i - 1;
        assert ListOk(s.lists[i], objexp, clock);
        FrontOf(i);
        var empty := ListEmpty(lists[i].tlist, i + 1);
        if !empty {
          var x := NextOwner(lists[i].tlist, i + 1);
          FrontLeast(s.lists[i].objs, objexp);
          if objexp[x] < exp {
            exp, first := objexp[x], x;
          }
        }
      }
      exp := exp - clock;
      if exp <= 0 { return 0; }
      w := exp / TICK;
    }
  }

  lemma FireListStop(s: State, now: int, i: nat, script: nat -> seq<Op>, n: nat)
    requires Inv(s) && ScriptOk(script) && now <= s.clock && i < |s.lists|
    requires s.lists[i].objs == [] || (s.lists[i].objs[0] in s.exp && s.exp[s.lists[i].objs[0]] > now)
    ensures FireList(s, now, i, script, n) == Result(s, [], n)
  {
  }

  lemma FireListStep(s: State, now: int, i: nat, script: nat -> seq<Op>, n: nat)
    requires Inv(s) && ScriptOk(script) && now <= s.clock && i < |s.lists| && s.lists[i].objs != []
    requires s.lists[i].objs[0] in s.exp && s.exp[s.lists[i].objs[0]] <= now
    ensures var x := s.lists[i].objs[0]; var f := Fire(s, x, script(n));
            && Inv(f) && now <= f.clock && i < |f.lists|
            && var r := FireList(f, now, i, script, n + 1);
               FireList(s, now, i, script, n) == r.(trace := [Fired(x)] + Dids(script(n)) + r.trace)
  {
    hide Inv, Expired, Fire, Explains;
    FrontExpired(s, i, now);
    FireOk(s, s.lists[i].objs[0], script(n), now);
  }

  lemma FrontLeast(q: seq<nat>, exp: map<nat, int>)
    requires Sorted(q, exp) && q != []
    ensures q[0] in q && forall y :: y in q ==> q[0] in exp && y in exp && exp[q[0]] <= exp[y]
  {
  }
}

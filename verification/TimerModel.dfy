/**
 The timer unit as a state machine: one FIFO of timers per timeout value. Only
 the front of a FIFO is inspected, and callbacks may arm and disarm any timer.
 */
module TimerModel {
  import opened Basics

  /** A FIFO of the timers armed with the same timeout, in milliseconds. */
  datatype TimerList = TimerList(timeout: int, objs: seq<nat>)

  /** `lists` grows at its end, where the chain of the unit begins; `exp` holds the deadlines, in microseconds. */
  datatype State = State(clock: int, pending: seq<nat>, lists: seq<TimerList>, exp: map<nat, int>)

  const TICK := 1000

  // ----- unlinking -----------------------------------------------------------

  function Without(q: seq<nat>, x: nat): seq<nat> {
    if q == [] then [] else (if q[0] == x then [] else [q[0]]) + Without(q[1..], x)
  }

  lemma {:induction false} WithoutIn(q: seq<nat>, x: nat)
    ensures forall y :: y in Without(q, x) <==> y in q && y != x
  {
    if q != [] {
      WithoutIn(q[1..], x);
      assert q == [q[0]] + q[1..];
    }
  }

  /** The deadlines of a FIFO never decrease. */
  ghost predicate Sorted(q: seq<nat>, exp: map<nat, int>) {
    q != [] ==> (forall y :: y in q ==> q[0] in exp && y in exp && exp[q[0]] <= exp[y]) && Sorted(q[1..], exp)
  }

  lemma {:induction false} WithoutSorted(q: seq<nat>, x: nat, exp: map<nat, int>)
    requires Sorted(q, exp)
    ensures Sorted(Without(q, x), exp)
  {
    if q != [] {
      WithoutSorted(q[1..], x, exp);
      WithoutIn(q[1..], x);
      assert forall y :: y in q[1..] ==> y in q;
      assert Without(q, x) == Without(q[1..], x) || Without(q, x)[1..] == Without(q[1..], x);
    }
  }

  /** Sortedness depends only on the deadlines of the members. */
  lemma {:induction false} SortedFrame(q: seq<nat>, exp: map<nat, int>, exp': map<nat, int>)
    requires Sorted(q, exp) && forall y :: y in q && y in exp ==> y in exp' && exp'[y] == exp[y]
    ensures Sorted(q, exp')
  {
    if q != [] {
      assert forall y :: y in q[1..] ==> y in q;
      SortedFrame(q[1..], exp, exp');
    }
  }

  lemma {:induction false} SortedAppend(q: seq<nat>, x: nat, exp: map<nat, int>)
    requires Sorted(q, exp) && x in exp && forall y :: y in q ==> y in exp && exp[y] <= exp[x]
    ensures Sorted(q + [x], exp)
  {
    if q == [] {
      assert (q + [x])[1..] == [];
    } else {
      assert forall y :: y in q[1..] ==> y in q;
      SortedAppend(q[1..], x, exp);
      assert (q + [x])[1..] == q[1..] + [x];
    }
  }

  // ----- the invariant -------------------------------------------------------

  /** A FIFO: sorted, and nothing in it expires later than a timer attached now would. */
  ghost predicate ListOk(l: TimerList, exp: map<nat, int>, clock: int) {
    l.timeout > 0 && Sorted(l.objs, exp) && forall y :: y in l.objs ==> y in exp && exp[y] <= clock + l.timeout * TICK
  }

  predicate InList(s: State, x: nat) { exists l :: 0 <= l < |s.lists| && x in s.lists[l].objs }

  ghost predicate Inv(s: State) {
    && (forall l :: 0 <= l < |s.lists| ==> ListOk(s.lists[l], s.exp, s.clock))
    && (forall l, m :: 0 <= l < m < |s.lists| ==> s.lists[l].timeout != s.lists[m].timeout)
    && (forall l, m, x :: 0 <= l < m < |s.lists| && x in s.lists[l].objs ==> x !in s.lists[m].objs)
    && (forall l, x :: 0 <= l < |s.lists| && x in s.lists[l].objs ==> x !in s.pending)
    && (forall l :: 0 <= l < |s.lists| ==> Distinct(s.lists[l].objs)) && Distinct(s.pending)
  }

  lemma DistinctTail(q: seq<nat>)
    requires q != []
    ensures Distinct(q) <==> q[0] !in q[1..] && Distinct(q[1..])
  {
    if q[0] !in q[1..] && Distinct(q[1..]) {
      forall i, j | 0 <= i < j < |q| ensures q[i] != q[j] {
        assert q[j] == q[1..][j - 1];
        if i > 0 { assert q[i] == q[1..][i - 1]; }
      }
    }
    if Distinct(q) {
      forall k | 0 <= k < |q| - 1 ensures q[1..][k] != q[0] { assert q[1..][k] == q[k + 1]; }
    }
  }

  lemma {:induction false} WithoutDistinct(q: seq<nat>, x: nat)
    requires Distinct(q)
    ensures Distinct(Without(q, x))
  {
    hide Distinct;
    if q == [] {
      NoneTwice();
    } else {
      DistinctTail(q);
      WithoutDistinct(q[1..], x);
      WithoutIn(q[1..], x);
      var r := Without(q, x);
      if q[0] == x {
        assert r == Without(q[1..], x);
      } else {
        assert r[1..] == Without(q[1..], x);
        DistinctTail(r);
      }
    }
  }

  lemma NoneTwice()
    ensures Distinct<nat>([])
  {
  }

  lemma DistinctAppend(q: seq<nat>, x: nat)
    requires Distinct(q) && x !in q
    ensures Distinct(q + [x])
  {
  }

  // ----- the operations ------------------------------------------------------

  /** ResetList: the timer leaves whatever list it is in. */
  function Unlink(s: State, x: nat): State {
    s.(pending := Without(s.pending, x),
       lists := seq(|s.lists|, l requires 0 <= l < |s.lists| => s.lists[l].(objs := Without(s.lists[l].objs, x))))
  }

  function IndexOf(lists: seq<TimerList>, timeout: int): (r: nat)
    ensures r <= |lists| && (r < |lists| ==> lists[r].timeout == timeout)
    ensures forall l :: 0 <= l < r ==> lists[l].timeout != timeout
  {
    if lists == [] then 0
    else if lists[0].timeout == timeout then 0
    else 1 + IndexOf(lists[1..], timeout)
  }

  lemma IndexOfLast(lists: seq<TimerList>, last: TimerList)
    requires IndexOf(lists, last.timeout) == |lists|
    ensures IndexOf(lists + [last], last.timeout) == |lists|
  {
    var all := lists + [last];
    assert all[|lists|] == last && forall l :: 0 <= l < |lists| ==> all[l] == lists[l];
  }

  /** GetTimerList: the FIFO for a timeout, created if need be. */
  function WithList(s: State, timeout: int): (u: State)
    ensures IndexOf(u.lists, timeout) < |u.lists|
  {
    if IndexOf(s.lists, timeout) < |s.lists| then s
    else
      IndexOfLast(s.lists, TimerList(timeout, []));
      s.(lists := s.lists + [TimerList(timeout, [])])
  }

  /** The deadline is set and the timer goes to the tail of FIFO `i`. */
  function Arm(s: State, x: nat, i: nat): State
    requires i < |s.lists|
  {
    s.(lists := s.lists[i := s.lists[i].(objs := s.lists[i].objs + [x])],
       exp := s.exp[x := s.clock + s.lists[i].timeout * TICK])
  }

  /** AttachTimer to the FIFO for `timeout`. */
  function Attach(s: State, x: nat, timeout: int): State {
    var u := WithList(Unlink(s, x), timeout);
    Arm(u, x, IndexOf(u.lists, timeout))
  }

  /** AttachZeroTimer. */
  function AttachZero(s: State, x: nat): State {
    var u := Unlink(s, x);
    u.(pending := u.pending + [x])
  }

  /** What a callback may do: time passes, timers are armed, re-armed, disarmed or deleted. */
  datatype Op =
    | Tick(dt: nat)
    | AttachOp(x: nat, timeout: int)
    | ZeroOp(x: nat)
    | DisableOp(x: nat)

  /** Timeouts are positive. */
  predicate OpOk(op: Op) { op.AttachOp? ==> op.timeout > 0 }

  function Step(s: State, op: Op): State {
    match op
    case Tick(dt) => s.(clock := s.clock + dt)
    case AttachOp(x, timeout) => Attach(s, x, timeout)
    case ZeroOp(x) => AttachZero(s, x)
    case DisableOp(x) => Unlink(s, x)
  }

  lemma UnlinkInv(s: State, x: nat)
    requires Inv(s)
    ensures Inv(Unlink(s, x)) && x !in Unlink(s, x).pending
    ensures forall l :: 0 <= l < |s.lists| ==> x !in Unlink(s, x).lists[l].objs
  {
    hide Sorted, Distinct, Without;
    var u := Unlink(s, x);
    WithoutIn(s.pending, x);
    WithoutDistinct(s.pending, x);
    forall l | 0 <= l < |s.lists|
      ensures ListOk(u.lists[l], u.exp, u.clock) && Distinct(u.lists[l].objs) &&
              u.lists[l].timeout == s.lists[l].timeout
      ensures forall y :: y in u.lists[l].objs <==> y in s.lists[l].objs && y != x
    {
      assert ListOk(s.lists[l], s.exp, s.clock);
      WithoutIn(s.lists[l].objs, x);
      WithoutSorted(s.lists[l].objs, x, s.exp);
      WithoutDistinct(s.lists[l].objs, x);
    }
  }

  ghost predicate Nowhere(s: State, x: nat) {
    x !in s.pending && forall l :: 0 <= l < |s.lists| ==> x !in s.lists[l].objs
  }

  lemma WithListInv(s: State, x: nat, timeout: int)
    requires Inv(s) && timeout > 0 && Nowhere(s, x)
    ensures Inv(WithList(s, timeout)) && Nowhere(WithList(s, timeout), x)
  {
    hide Sorted, Distinct, IndexOf;
    var l := TimerList(timeout, []);
    EmptyOk(l, s.exp, s.clock);
  }

  lemma EmptyOk(l: TimerList, exp: map<nat, int>, clock: int)
    requires l.timeout > 0 && l.objs == []
    ensures ListOk(l, exp, clock) && Distinct(l.objs)
  {
  }

  lemma ArmList(l: TimerList, exp: map<nat, int>, clock: int, x: nat)
    requires ListOk(l, exp, clock) && Distinct(l.objs) && x !in l.objs
    ensures var e := exp[x := clock + l.timeout * TICK]; var l' := l.(objs := l.objs + [x]);
            ListOk(l', e, clock) && Distinct(l'.objs)
  {
    hide Sorted, Distinct;
    var e := exp[x := clock + l.timeout * TICK];
    SortedFrame(l.objs, exp, e);
    SortedAppend(l.objs, x, e);
    DistinctAppend(l.objs, x);
  }

  lemma ListFrame(l: TimerList, exp: map<nat, int>, clock: int, x: nat, d: int)
    requires ListOk(l, exp, clock) && x !in l.objs
    ensures ListOk(l, exp[x := d], clock)
  {
    hide Sorted;
    SortedFrame(l.objs, exp, exp[x := d]);
  }

  lemma ArmInv(s: State, x: nat, i: nat)
    requires Inv(s) && i < |s.lists| && Nowhere(s, x)
    ensures Inv(Arm(s, x, i))
  {
    hide Sorted, Distinct, ListOk;
    var v := Arm(s, x, i);
    forall l | 0 <= l < |s.lists| ensures ListOk(v.lists[l], v.exp, v.clock) && Distinct(v.lists[l].objs) {
      assert ListOk(s.lists[l], s.exp, s.clock) && Distinct(s.lists[l].objs);
      if l == i { ArmList(s.lists[l], s.exp, s.clock, x); }
      else { ListFrame(s.lists[l], s.exp, s.clock, x, v.exp[x]); }
    }
  }

  lemma ZeroInv(s: State, x: nat)
    requires Inv(s) && Nowhere(s, x)
    ensures Inv(s.(pending := s.pending + [x]))
  {
    hide Sorted, Distinct, ListOk;
    DistinctAppend(s.pending, x);
  }

  lemma TickInv(s: State, dt: nat)
    requires Inv(s)
    ensures Inv(s.(clock := s.clock + dt))
  {
    hide Sorted, Distinct;
    forall l | 0 <= l < |s.lists| ensures ListOk(s.lists[l], s.exp, s.clock + dt) {
      assert ListOk(s.lists[l], s.exp, s.clock);
    }
  }

  lemma StepInv(s: State, op: Op)
    requires Inv(s) && OpOk(op)
    ensures Inv(Step(s, op)) && s.clock <= Step(s, op).clock
  {
    hide Inv, Unlink, WithList, Arm;
    match op {
      case Tick(dt) => TickInv(s, dt);
      case AttachOp(x, timeout) =>
        UnlinkGone(s, x);
        var u := Unlink(s, x);
        WithListInv(u, x, timeout);
        ArmInv(WithList(u, timeout), x, IndexOf(WithList(u, timeout).lists, timeout));
        ClockKept(s, x, timeout);
      case ZeroOp(x) =>
        UnlinkGone(s, x);
        ZeroInv(Unlink(s, x), x);
        ClockKept(s, x, 1);
      case DisableOp(x) => UnlinkInv(s, x); ClockKept(s, x, 1);
    }
  }

  lemma UnlinkGone(s: State, x: nat)
    requires Inv(s)
    ensures Inv(Unlink(s, x)) && Nowhere(Unlink(s, x), x)
  {
    hide Inv, Without;
    UnlinkInv(s, x);
  }

  lemma ClockKept(s: State, x: nat, timeout: int)
    ensures Unlink(s, x).clock == s.clock && Attach(s, x, timeout).clock == s.clock
  {
  }

  // ----- what an operation does ----------------------------------------------

  /** The timers in lists and those that are pending are what they were, but for `x`, and so are their deadlines. */
  ghost predicate OthersKept(s: State, t: State, x: nat) {
    && (forall y :: y != x ==> (InList(t, y) <==> InList(s, y)) && (y in t.pending <==> y in s.pending))
    && forall y :: y != x && y in s.exp ==> y in t.exp && t.exp[y] == s.exp[y]
  }

  /** A timer is armed at the end of the FIFO for its timeout, or the last pending one, or nowhere. */
  ghost predicate OpMeans(s: State, op: Op, t: State) {
    match op
    case Tick(dt) => t == s.(clock := s.clock + dt)
    case AttachOp(x, timeout) =>
      && OthersKept(s, t, x) && x !in t.pending && t.clock == s.clock
      && x in t.exp && t.exp[x] == s.clock + timeout * TICK
      && exists l :: 0 <= l < |t.lists| && t.lists[l].timeout == timeout && EndsWith(t.lists[l].objs, x)
    case ZeroOp(x) => OthersKept(s, t, x) && !InList(t, x) && EndsWith(t.pending, x) && t.clock == s.clock
    case DisableOp(x) => OthersKept(s, t, x) && !InList(t, x) && x !in t.pending && t.clock == s.clock
  }

  predicate EndsWith(q: seq<nat>, x: nat) { q != [] && q[|q| - 1] == x }

  lemma UnlinkMeans(s: State, x: nat)
    ensures OthersKept(s, Unlink(s, x), x) && Nowhere(Unlink(s, x), x) && !InList(Unlink(s, x), x)
  {
    hide Without;
    var u := Unlink(s, x);
    WithoutIn(s.pending, x);
    forall l | 0 <= l < |s.lists| ensures forall y :: y in u.lists[l].objs <==> y in s.lists[l].objs && y != x {
      WithoutIn(s.lists[l].objs, x);
    }
    forall y | y != x ensures InList(u, y) <==> InList(s, y) {
      if l :| 0 <= l < |s.lists| && y in s.lists[l].objs { assert y in u.lists[l].objs; }
    }
  }

  lemma StepMeans(s: State, op: Op)
    ensures OpMeans(s, op, Step(s, op))
  {
    hide Unlink, OthersKept, InList, WithList, Arm;
    match op {
      case Tick(dt) =>
      case AttachOp(x, timeout) =>
        UnlinkMeans(s, x);
        AttachMeans(s, x, timeout);
        ClockKept(s, x, timeout);
      case ZeroOp(x) =>
        UnlinkMeans(s, x);
        ZeroMeans(s, Unlink(s, x), x);
        ClockKept(s, x, 1);
      case DisableOp(x) =>
        UnlinkMeans(s, x);
        ClockKept(s, x, 1);
    }
  }

  lemma ZeroMeans(s: State, u: State, x: nat)
    requires OthersKept(s, u, x) && !InList(u, x)
    ensures var t := u.(pending := u.pending + [x]); OthersKept(s, t, x) && !InList(t, x) && EndsWith(t.pending, x)
  {
    var t := u.(pending := u.pending + [x]);
    assert forall y :: InList(t, y) <==> InList(u, y);
  }

  lemma AttachMeans(s: State, x: nat, timeout: int)
    requires OthersKept(s, Unlink(s, x), x) && Nowhere(Unlink(s, x), x)
    ensures OpMeans(s, AttachOp(x, timeout), Attach(s, x, timeout))
  {
    hide Unlink, IndexOf;
    var u := WithList(Unlink(s, x), timeout);
    var i := IndexOf(u.lists, timeout);
    ListFor(u.lists, timeout);
    ListMeans(Unlink(s, x), timeout);
    ArmMeans(u, x, i);
    ClockKept(s, x, timeout);
    assert EndsWith(Attach(s, x, timeout).lists[i].objs, x);
  }

  lemma ListMeans(s: State, timeout: int)
    ensures var u := WithList(s, timeout); u.pending == s.pending && u.exp == s.exp && u.clock == s.clock
    ensures forall y :: InList(WithList(s, timeout), y) <==> InList(s, y)
  {
    hide IndexOf;
    var u := WithList(s, timeout);
    forall y ensures InList(u, y) <==> InList(s, y) {
      if l :| 0 <= l < |u.lists| && y in u.lists[l].objs { assert l < |s.lists| && y in s.lists[l].objs; }
      if l :| 0 <= l < |s.lists| && y in s.lists[l].objs { assert y in u.lists[l].objs; }
    }
  }

  lemma ArmMeans(s: State, x: nat, i: nat)
    requires i < |s.lists|
    ensures var t := Arm(s, x, i); t.pending == s.pending && t.clock == s.clock
    ensures forall y :: y != x ==> (InList(Arm(s, x, i), y) <==> InList(s, y))
  {
    var t := Arm(s, x, i);
    forall y | y != x ensures InList(t, y) <==> InList(s, y) {
      if l :| 0 <= l < |t.lists| && y in t.lists[l].objs { assert y in s.lists[l].objs; }
      if l :| 0 <= l < |s.lists| && y in s.lists[l].objs { assert y in t.lists[l].objs; }
    }
  }

  // ----- the timers that are due ---------------------------------------------

  /** Armed timers whose deadline is not after `now`. */
  ghost function Expired(s: State, now: int): set<nat> {
    set x | x in s.exp && InList(s, x) && s.exp[x] <= now
  }

  lemma UnlinkExpired(s: State, x: nat, now: int)
    ensures Expired(Unlink(s, x), now) == Expired(s, now) - {x}
  {
    hide Without;
    var u := Unlink(s, x);
    forall y ensures InList(u, y) <==> InList(s, y) && y != x {
      if l :| 0 <= l < |u.lists| && y in u.lists[l].objs { WithoutIn(s.lists[l].objs, x); }
      if l :| 0 <= l < |s.lists| && y in s.lists[l].objs && y != x {
        WithoutIn(s.lists[l].objs, x);
        assert y in u.lists[l].objs;
      }
    }
  }

  lemma WithListExpired(s: State, timeout: int, now: int)
    ensures Expired(WithList(s, timeout), now) == Expired(s, now)
  {
    hide IndexOf;
    var u := WithList(s, timeout);
    if u != s {
      forall y ensures InList(u, y) <==> InList(s, y) {
        if l :| 0 <= l < |u.lists| && y in u.lists[l].objs { assert l < |s.lists| && y in s.lists[l].objs; }
        if l :| 0 <= l < |s.lists| && y in s.lists[l].objs { assert y in u.lists[l].objs; }
      }
    }
  }

  /** A timer armed now is not due: its deadline lies after the clock. */
  lemma ArmExpired(s: State, x: nat, i: nat, now: int)
    requires Inv(s) && i < |s.lists| && Nowhere(s, x) && now <= s.clock
    ensures Expired(Arm(s, x, i), now) == Expired(s, now)
  {
    hide Sorted, Distinct;
    var v := Arm(s, x, i);
    assert ListOk(s.lists[i], s.exp, s.clock);
    assert v.exp[x] > now;
    forall y | y != x ensures InList(v, y) <==> InList(s, y) {
      if l :| 0 <= l < |v.lists| && y in v.lists[l].objs { assert y in s.lists[l].objs; }
      if l :| 0 <= l < |s.lists| && y in s.lists[l].objs { assert y in v.lists[l].objs; }
    }
    assert !InList(s, x);
  }

  /** The timer an operation is about. */
  function Target(op: Op): set<nat> { if op.Tick? then {} else {op.x} }

  /** An operation makes no timer due; the timer it is about is not due any more. */
  lemma StepExpired(s: State, op: Op, now: int)
    requires Inv(s) && OpOk(op) && now <= s.clock
    ensures Expired(Step(s, op), now) == Expired(s, now) - Target(op)
  {
    hide Inv, Unlink, WithList, Arm;
    match op {
      case Tick(dt) => SameLists(s, s.(clock := s.clock + dt), now);
      case AttachOp(x, timeout) =>
        UnlinkGone(s, x);
        UnlinkExpired(s, x, now);
        var u := Unlink(s, x);
        WithListInv(u, x, timeout);
        WithListExpired(u, timeout, now);
        ClockKept(s, x, timeout);
        SameClock(u, timeout);
        ArmExpired(WithList(u, timeout), x, IndexOf(WithList(u, timeout).lists, timeout), now);
      case ZeroOp(x) =>
        UnlinkExpired(s, x, now);
        SameLists(Unlink(s, x), AttachZero(s, x), now);
      case DisableOp(x) => UnlinkExpired(s, x, now);
    }
  }

  lemma SameLists(s: State, t: State, now: int)
    requires t.lists == s.lists && t.exp == s.exp
    ensures Expired(t, now) == Expired(s, now)
  {
    assert forall y :: InList(t, y) <==> InList(s, y);
  }

  lemma SameClock(s: State, timeout: int)
    ensures WithList(s, timeout).clock == s.clock
  {
  }

  // ----- a pass --------------------------------------------------------------

  function Steps(s: State, ops: seq<Op>): State
    decreases |ops|
  {
    if ops == [] then s else Steps(Step(s, ops[0]), ops[1..])
  }

  predicate OpsOk(ops: seq<Op>) { forall k :: 0 <= k < |ops| ==> OpOk(ops[k]) }

  /** What happens in a pass: a timer fires, or a callback does something. */
  datatype Event = Fired(x: nat) | Did(op: Op)

  function Dids(ops: seq<Op>): seq<Event> { if ops == [] then [] else [Did(ops[0])] + Dids(ops[1..]) }

  /** The due timers after an event. Where pending timers are served, a zero timer joins them. */
  function After(due: set<nat>, e: Event, serves: bool): set<nat> {
    match e
    case Fired(x) => due - {x}
    case Did(op) => if serves && op.ZeroOp? then due + {op.x} else due - Target(op)
  }

  function Less(m: nat): nat { if m == 0 then 0 else m - 1 }

  /** `due` before and `due'` after: only due timers fire. Pending timers are served during the first `m` events. */
  ghost predicate Explains(due: set<nat>, trace: seq<Event>, m: nat, due': set<nat>)
    decreases |trace|
  {
    if trace == [] then due' == due
    else (trace[0].Fired? ==> trace[0].x in due) && Explains(After(due, trace[0], m > 0), trace[1..], Less(m), due')
  }

  lemma {:induction false} ExplainsJoin(
      a: set<nat>, p: seq<Event>, m: nat, b: set<nat>, q: seq<Event>, n: nat, c: set<nat>)
    requires Explains(a, p, m, b) && Explains(b, q, n, c) && m <= |p| && (m == |p| || n == 0)
    ensures Explains(a, p + q, m + n, c)
    decreases |p|
  {
    if p == [] {
      assert p + q == q;
    } else {
      assert (p + q)[1..] == p[1..] + q && (p + q)[0] == p[0];
      ExplainsJoin(After(a, p[0], m > 0), p[1..], Less(m), b, q, n, c);
    }
  }

  /** From `s` to `t` through the operations of a callback. */
  ghost predicate Follows(s: State, t: State) { Inv(t) && s.clock <= t.clock && |s.lists| <= |t.lists| }

  lemma StepFollows(s: State, op: Op)
    requires Inv(s) && OpOk(op)
    ensures Follows(s, Step(s, op))
  {
    hide Inv, IndexOf;
    StepInv(s, op);
  }

  lemma {:induction false} StepsOk(s: State, ops: seq<Op>, now: int)
    requires Inv(s) && OpsOk(ops) && now <= s.clock
    ensures Follows(s, Steps(s, ops)) && Explains(Expired(s, now), Dids(ops), 0, Expired(Steps(s, ops), now))
    decreases |ops|
  {
    hide Inv, Step, Expired;
    if ops != [] {
      StepFollows(s, ops[0]);
      StepExpired(s, ops[0], now);
      StepsOk(Step(s, ops[0]), ops[1..], now);
      assert Dids(ops)[1..] == Dids(ops[1..]);
      assert Dids(ops)[0] == Did(ops[0]);
    }
  }

  datatype Result = Result(s: State, trace: seq<Event>, fired: nat)

  /** How callbacks behave: the operations of the n-th one. */
  ghost predicate ScriptOk(script: nat -> seq<Op>) { forall n :: OpsOk(script(n)) }

  /** A timer that fires: it leaves its list, then its callback runs. */
  function Fire(s: State, x: nat, ops: seq<Op>): State { Steps(Unlink(s, x), ops) }

  lemma FireOk(s: State, x: nat, ops: seq<Op>, now: int)
    requires Inv(s) && OpsOk(ops) && now <= s.clock && x in Expired(s, now)
    ensures Follows(s, Fire(s, x, ops))
    ensures Explains(Expired(s, now), [Fired(x)] + Dids(ops), 0, Expired(Fire(s, x, ops), now))
    ensures |Expired(Fire(s, x, ops), now)| < |Expired(s, now)|
  {
    hide Inv, Expired, Unlink, Steps;
    UnlinkInv(s, x);
    UnlinkSize(s, x);
    UnlinkExpired(s, x, now);
    StepsOk(Unlink(s, x), ops, now);
    assert ([Fired(x)] + Dids(ops))[1..] == Dids(ops);
    ExplainsLess(Expired(s, now) - {x}, Dids(ops), Expired(Fire(s, x, ops), now));
    Fewer(Expired(Fire(s, x, ops), now), Expired(s, now), x);
  }

  lemma UnlinkSize(s: State, x: nat)
    ensures |Unlink(s, x).lists| == |s.lists| && Unlink(s, x).clock == s.clock && Unlink(s, x).exp == s.exp
  {
  }

  lemma {:induction false} ExplainsLess(a: set<nat>, p: seq<Event>, b: set<nat>)
    requires Explains(a, p, 0, b)
    ensures b <= a
    decreases |p|
  {
    if p != [] { ExplainsLess(After(a, p[0], false), p[1..], b); }
  }

  lemma Fewer(a: set<nat>, b: set<nat>, x: nat)
    requires a <= b - {x} && x in b
    ensures |a| < |b|
  {
    assert |b - {x}| == |b| - 1;
    assert a <= b - {x};
    SubsetSize(a, b - {x});
  }

  lemma {:induction false} SubsetSize(a: set<nat>, b: set<nat>)
    requires a <= b
    ensures |a| <= |b|
  {
    if x :| x in a {
      SubsetSize(a - {x}, b - {x});
    }
  }

  lemma FrontExpired(s: State, i: nat, now: int)
    requires Inv(s) && i < |s.lists| && s.lists[i].objs != []
    ensures var x := s.lists[i].objs[0]; x in s.exp && (s.exp[x] <= now ==> x in Expired(s, now))
  {
    assert ListOk(s.lists[i], s.exp, s.clock);
    assert s.lists[i].objs[0] in s.lists[i].objs;
  }

  /** CTimerList::CheckExpired on FIFO `i`. */
  function FireList(s: State, now: int, i: nat, script: nat -> seq<Op>, n: nat): Result
    requires Inv(s) && ScriptOk(script) && now <= s.clock && i < |s.lists|
    decreases |Expired(s, now)|
  {
    if s.lists[i].objs == [] then Result(s, [], n)
    else
      FrontExpired(s, i, now);
      var x := s.lists[i].objs[0];
      if s.exp[x] > now then Result(s, [], n)
      else
        FireOk(s, x, script(n), now);
        var r := FireList(Fire(s, x, script(n)), now, i, script, n + 1);
        r.(trace := [Fired(x)] + Dids(script(n)) + r.trace)
  }

  // ----- nothing is forgotten ------------------------------------------------

  /** No timer is due in the FIFOs from `i` on. */
  ghost predicate DoneFrom(s: State, now: int, i: nat) {
    forall l, x :: i <= l < |s.lists| && x in s.lists[l].objs ==> x in s.exp && s.exp[x] > now
  }

  lemma UnlinkDone(s: State, x: nat, now: int, i: nat)
    requires DoneFrom(s, now, i)
    ensures DoneFrom(Unlink(s, x), now, i)
  {
    hide Without;
    forall l, y | i <= l < |s.lists| && y in Unlink(s, x).lists[l].objs ensures y in s.exp && s.exp[y] > now {
      WithoutIn(s.lists[l].objs, x);
    }
  }

  lemma ArmDone(s: State, x: nat, k: nat, now: int, i: nat)
    requires Inv(s) && DoneFrom(s, now, i) && k < |s.lists| && now <= s.clock
    ensures DoneFrom(Arm(s, x, k), now, i)
  {
    hide Sorted, Distinct;
    assert ListOk(s.lists[k], s.exp, s.clock);
    var v := Arm(s, x, k);
    forall l, y | i <= l < |v.lists| && y in v.lists[l].objs ensures y in v.exp && v.exp[y] > now {
      if y != x { assert y in s.lists[l].objs; }
    }
  }

  lemma StepDone(s: State, op: Op, now: int, i: nat)
    requires Inv(s) && OpOk(op) && now <= s.clock && DoneFrom(s, now, i) && i <= |s.lists|
    ensures DoneFrom(Step(s, op), now, i)
  {
    hide Inv, Unlink, Arm, IndexOf;
    match op {
      case Tick(_) =>
      case AttachOp(x, timeout) =>
        UnlinkGone(s, x);
        UnlinkDone(s, x, now, i);
        UnlinkSize(s, x);
        var u := Unlink(s, x);
        WithListInv(u, x, timeout);
        var w := WithList(u, timeout);
        assert DoneFrom(w, now, i);
        ArmDone(w, x, IndexOf(w.lists, timeout), now, i);
      case ZeroOp(x) => UnlinkDone(s, x, now, i);
      case DisableOp(x) => UnlinkDone(s, x, now, i);
    }
  }

  lemma {:induction false} StepsDone(s: State, ops: seq<Op>, now: int, i: nat)
    requires Inv(s) && OpsOk(ops) && now <= s.clock && DoneFrom(s, now, i) && i <= |s.lists|
    ensures DoneFrom(Steps(s, ops), now, i)
    decreases |ops|
  {
    hide Inv, Step, DoneFrom;
    if ops != [] {
      StepFollows(s, ops[0]);
      StepDone(s, ops[0], now, i);
      StepsDone(Step(s, ops[0]), ops[1..], now, i);
    }
  }

  lemma FireDone(s: State, x: nat, ops: seq<Op>, now: int, i: nat)
    requires Inv(s) && OpsOk(ops) && now <= s.clock && DoneFrom(s, now, i) && i <= |s.lists|
    ensures DoneFrom(Fire(s, x, ops), now, i)
  {
    hide Inv, DoneFrom, Unlink, Steps;
    UnlinkInv(s, x);
    UnlinkSize(s, x);
    UnlinkDone(s, x, now, i);
    StepsDone(Unlink(s, x), ops, now, i);
  }

  /** If the front of a FIFO is not due, nothing in it is. */
  lemma FrontDecides(s: State, now: int, i: nat)
    requires Inv(s) && i < |s.lists| && DoneFrom(s, now, i + 1)
    requires s.lists[i].objs == [] || (s.lists[i].objs[0] in s.exp && s.exp[s.lists[i].objs[0]] > now)
    ensures DoneFrom(s, now, i)
  {
    assert ListOk(s.lists[i], s.exp, s.clock);
  }

  lemma {:induction false} FireListOk(s: State, now: int, i: nat, script: nat -> seq<Op>, n: nat)
    requires Inv(s) && ScriptOk(script) && now <= s.clock && i < |s.lists| && DoneFrom(s, now, i + 1)
    ensures var r := FireList(s, now, i, script, n);
            Follows(s, r.s) && DoneFrom(r.s, now, i) && Explains(Expired(s, now), r.trace, 0, Expired(r.s, now))
    decreases |Expired(s, now)|
  {
    hide Inv, DoneFrom, Explains, Fire, Expired;
    if s.lists[i].objs == [] {
      FrontDecides(s, now, i);
      ExplainsNone(Expired(s, now));
    } else {
      FrontExpired(s, i, now);
      var x := s.lists[i].objs[0];
      if s.exp[x] > now {
        FrontDecides(s, now, i);
        ExplainsNone(Expired(s, now));
      } else {
        FireOk(s, x, script(n), now);
        FireDone(s, x, script(n), now, i + 1);
        var f := Fire(s, x, script(n));
        FireListOk(f, now, i, script, n + 1);
        var r := FireList(f, now, i, script, n + 1);
        ExplainsJoin(Expired(s, now), [Fired(x)] + Dids(script(n)), 0, Expired(f, now), r.trace, 0, Expired(r.s, now));
      }
    }
  }

  lemma ExplainsNone(due: set<nat>)
    ensures Explains(due, [], 0, due)
  {
  }

  /** The loop of CTimerUnit::CheckExpired over the FIFOs below `i`, along the chain. */
  function FireLists(s: State, now: int, i: nat, script: nat -> seq<Op>, n: nat): Result
    requires Inv(s) && ScriptOk(script) && now <= s.clock && i <= |s.lists| && DoneFrom(s, now, i)
    decreases i
  {
    if i == 0 then Result(s, [], n)
    else
      FireListOk(s, now, i - 1, script, n);
      var r := FireList(s, now, i - 1, script, n);
      var t := FireLists(r.s, now, i - 1, script, r.fired);
      t.(trace := r.trace + t.trace)
  }

  lemma {:induction false} FireListsOk(s: State, now: int, i: nat, script: nat -> seq<Op>, n: nat)
    requires Inv(s) && ScriptOk(script) && now <= s.clock && i <= |s.lists| && DoneFrom(s, now, i)
    ensures var r := FireLists(s, now, i, script, n);
            Follows(s, r.s) && Expired(r.s, now) == {} && Explains(Expired(s, now), r.trace, 0, {})
    decreases i
  {
    hide Inv, DoneFrom, Explains, Expired, FireList;
    if i == 0 {
      NoneDue(s, now);
      ExplainsNone(Expired(s, now));
    } else {
      FireListOk(s, now, i - 1, script, n);
      var r := FireList(s, now, i - 1, script, n);
      FireListsOk(r.s, now, i - 1, script, r.fired);
      var t := FireLists(r.s, now, i - 1, script, r.fired);
      ExplainsJoin(Expired(s, now), r.trace, 0, Expired(r.s, now), t.trace, 0, {});
    }
  }

  lemma NoneDue(s: State, now: int)
    requires DoneFrom(s, now, 0)
    ensures Expired(s, now) == {}
  {
  }

  // ----- pending timers ------------------------------------------------------

  /** The pending timers and the expired ones. */
  ghost function Due(s: State, now: int): set<nat> { (set x | x in s.pending) + Expired(s, now) }

  /** One round of CheckPending. */
  function Round(s: State, ops: seq<Op>): State {
    if s.pending == [] then s else Fire(s, s.pending[0], ops)
  }

  /** No timer is pending after at most `k` rounds. */
  predicate EndsIn(s: State, script: nat -> seq<Op>, n: nat, k: nat)
    decreases k
  {
    s.pending == [] || (k > 0 && EndsIn(Round(s, script(n)), script, n + 1, k - 1))
  }

  /** CheckPending returns. */
  ghost predicate Ends(s: State, script: nat -> seq<Op>, n: nat) { exists k: nat :: EndsIn(s, script, n, k) }

  lemma {:induction false} EndsInMore(s: State, script: nat -> seq<Op>, n: nat, k: nat, m: nat)
    requires EndsIn(s, script, n, k) && k <= m
    ensures EndsIn(s, script, n, m)
    decreases k
  {
    if s.pending != [] { EndsInMore(Round(s, script(n)), script, n + 1, k - 1, m - 1); }
  }

  ghost function Least(s: State, script: nat -> seq<Op>, n: nat, k: nat): (r: nat)
    requires EndsIn(s, script, n, k)
    ensures EndsIn(s, script, n, r) && (r > 0 ==> !EndsIn(s, script, n, r - 1))
    decreases k
  {
    if k > 0 && EndsIn(s, script, n, k - 1) then Least(s, script, n, k - 1) else k
  }

  /** How many rounds CheckPending makes. */
  ghost function Rounds(s: State, script: nat -> seq<Op>, n: nat): (r: nat)
    requires Ends(s, script, n)
    ensures EndsIn(s, script, n, r) && (r > 0 ==> !EndsIn(s, script, n, r - 1))
  {
    var k: nat :| EndsIn(s, script, n, k);
    Least(s, script, n, k)
  }

  lemma RoundLeft(s: State, script: nat -> seq<Op>, n: nat)
    requires Ends(s, script, n) && s.pending != []
    ensures var t := Round(s, script(n)); Ends(t, script, n + 1) && Rounds(t, script, n + 1) < Rounds(s, script, n)
  {
    hide Round;
    var t, r := Round(s, script(n)), Rounds(s, script, n);
    assert EndsIn(t, script, n + 1, r - 1);
    var q := Rounds(t, script, n + 1);
    if q >= r { EndsInMore(t, script, n + 1, r - 1, q - 1); }
  }

  // ----- when the pending timers come to an end ------------------------------

  /** Some operation is about `x`. */
  predicate Names(ops: seq<Op>, x: nat) { exists k :: 0 <= k < |ops| && x in Target(ops[k]) }

  /** The last operation about `x` attaches it as a zero timer. */
  predicate LeavesZero(ops: seq<Op>, x: nat) {
    exists k :: 0 <= k < |ops| && ops[k] == ZeroOp(x) && !Names(ops[k + 1..], x)
  }

  lemma NamesTail(ops: seq<Op>, x: nat)
    requires ops != []
    ensures Names(ops, x) <==> x in Target(ops[0]) || Names(ops[1..], x)
  {
    if k :| 0 <= k < |ops| && x in Target(ops[k]) {
      if k > 0 { assert ops[1..][k - 1] == ops[k]; }
    }
    if k :| 0 <= k < |ops[1..]| && x in Target(ops[1..][k]) { assert ops[k + 1] == ops[1..][k]; }
  }

  lemma LeavesZeroTail(ops: seq<Op>, x: nat)
    requires ops != []
    ensures LeavesZero(ops, x) <==> LeavesZero(ops[1..], x) || (ops[0] == ZeroOp(x) && !Names(ops[1..], x))
  {
    hide Names;
    if k :| 0 <= k < |ops| && ops[k] == ZeroOp(x) && !Names(ops[k + 1..], x) {
      if k > 0 { assert ops[1..][k - 1] == ops[k] && ops[1..][k..] == ops[k + 1..]; }
    }
    if k :| 0 <= k < |ops[1..]| && ops[1..][k] == ZeroOp(x) && !Names(ops[1..][k + 1..], x) {
      assert ops[k + 1] == ops[1..][k] && ops[1..][k + 1..] == ops[k + 2..];
    }
  }

  lemma StepPending(s: State, op: Op, x: nat)
    ensures x in Step(s, op).pending <==> op == ZeroOp(x) || (x in s.pending && x !in Target(op))
  {
    hide Without, IndexOf;
    if !op.Tick? { WithoutIn(s.pending, op.x); }
  }

  /** What is pending after a callback. */
  lemma {:induction false} StepsPending(s: State, ops: seq<Op>, x: nat)
    ensures x in Steps(s, ops).pending <==> LeavesZero(ops, x) || (x in s.pending && !Names(ops, x))
    decreases |ops|
  {
    hide Step, LeavesZero, Names;
    if ops == [] {
      NoOps(x);
    } else {
      StepPending(s, ops[0], x);
      StepsPending(Step(s, ops[0]), ops[1..], x);
      NamesTail(ops, x);
      LeavesZeroTail(ops, x);
    }
  }

  lemma NoOps(x: nat)
    ensures !Names([], x) && !LeavesZero([], x)
  {
  }

  lemma RoundPending(s: State, ops: seq<Op>, x: nat)
    requires s.pending != []
    ensures x in Round(s, ops).pending <==>
            LeavesZero(ops, x) || (x in s.pending && x != s.pending[0] && !Names(ops, x))
  {
    hide Steps, Without, LeavesZero, Names;
    WithoutIn(s.pending, s.pending[0]);
    StepsPending(Unlink(s, s.pending[0]), ops, x);
  }

  /** A callback that leaves no zero timer behind. */
  ghost predicate Settles(ops: seq<Op>) { forall x :: !LeavesZero(ops, x) }

  ghost function PendingSet(s: State): set<nat> { set x | x in s.pending }

  /** The loop returns if from the m-th callback on none leaves a zero timer behind. */
  lemma {:induction false} SettledEnds(s: State, script: nat -> seq<Op>, n: nat, m: nat)
    requires forall k: nat :: k >= m ==> Settles(script(k))
    ensures Ends(s, script, n)
    decreases if n < m then m - n else 0, |PendingSet(s)|
  {
    hide Settles, Round;
    if s.pending == [] {
      assert EndsIn(s, script, n, 0);
    } else {
      var t := Round(s, script(n));
      if n >= m { RoundShrinks(s, script(n)); }
      SettledEnds(t, script, n + 1, m);
      var k: nat :| EndsIn(t, script, n + 1, k);
      assert EndsIn(s, script, n, k + 1);
    }
  }

  lemma RoundShrinks(s: State, ops: seq<Op>)
    requires s.pending != [] && Settles(ops)
    ensures |PendingSet(Round(s, ops))| < |PendingSet(s)|
  {
    hide Round, LeavesZero, Names;
    var t := Round(s, ops);
    forall x | x in t.pending ensures x in s.pending && x != s.pending[0] { RoundPending(s, ops, x); }
    Fewer(PendingSet(t), PendingSet(s), s.pending[0]);
  }

  /** The loop never returns if every callback leaves a zero timer behind. */
  lemma {:induction false} UnsettledEndless(s: State, script: nat -> seq<Op>, n: nat, k: nat)
    requires s.pending != [] && forall i: nat :: i >= n ==> !Settles(script(i))
    ensures !EndsIn(s, script, n, k)
    decreases k
  {
    hide Round, LeavesZero;
    if k > 0 {
      var x :| LeavesZero(script(n), x);
      RoundPending(s, script(n), x);
      UnsettledEndless(Round(s, script(n)), script, n + 1, k - 1);
    }
  }

  /** With callbacks that all do the same, CheckPending returns exactly if there is nothing to do or they leave no zero
      timer behind. */
  lemma SameCallbacks(s: State, ops: seq<Op>)
    ensures Ends(s, (_: nat) => ops, 0) <==> s.pending == [] || Settles(ops)
  {
    hide Settles;
    var script := (_: nat) => ops;
    if s.pending == [] {
      assert EndsIn(s, script, 0, 0);
    } else if Settles(ops) {
      SettledEnds(s, script, 0, 0);
    } else if Ends(s, script, 0) {
      var k: nat :| EndsIn(s, script, 0, k);
      UnsettledEndless(s, script, 0, k);
    }
  }

  // ----- what the pending loop does ------------------------------------------

  /** CheckPending. */
  function FirePending(s: State, script: nat -> seq<Op>, n: nat): Result
    requires Ends(s, script, n)
    decreases Rounds(s, script, n)
  {
    if s.pending == [] then Result(s, [], n)
    else
      RoundLeft(s, script, n);
      var x := s.pending[0];
      var r := FirePending(Round(s, script(n)), script, n + 1);
      r.(trace := [Fired(x)] + Dids(script(n)) + r.trace)
  }

  lemma StepDue(s: State, op: Op, now: int)
    requires Inv(s) && OpOk(op) && now <= s.clock
    ensures Due(Step(s, op), now) == After(Due(s, now), Did(op), true)
  {
    hide Inv, Expired, Step;
    StepExpired(s, op, now);
    forall x ensures x in Step(s, op).pending <==> op == ZeroOp(x) || (x in s.pending && x !in Target(op)) {
      StepPending(s, op, x);
    }
  }

  lemma {:induction false} StepsDue(s: State, ops: seq<Op>, now: int)
    requires Inv(s) && OpsOk(ops) && now <= s.clock
    ensures Follows(s, Steps(s, ops)) && Explains(Due(s, now), Dids(ops), |Dids(ops)|, Due(Steps(s, ops), now))
    decreases |ops|
  {
    hide Inv, Step, Due;
    if ops != [] {
      StepFollows(s, ops[0]);
      StepDue(s, ops[0], now);
      StepsDue(Step(s, ops[0]), ops[1..], now);
      assert Dids(ops)[1..] == Dids(ops[1..]);
      assert Dids(ops)[0] == Did(ops[0]);
    }
  }

  lemma RoundOk(s: State, ops: seq<Op>, now: int)
    requires Inv(s) && OpsOk(ops) && now <= s.clock && s.pending != []
    ensures var t, e := Round(s, ops), [Fired(s.pending[0])] + Dids(ops);
            Follows(s, t) && Explains(Due(s, now), e, |e|, Due(t, now))
  {
    hide Inv, Due, Unlink, Steps;
    var x := s.pending[0];
    UnlinkInv(s, x);
    UnlinkSize(s, x);
    UnlinkDue(s, x, now);
    StepsDue(Unlink(s, x), ops, now);
    assert ([Fired(x)] + Dids(ops))[1..] == Dids(ops);
  }

  lemma UnlinkDue(s: State, x: nat, now: int)
    requires s.pending != [] && x == s.pending[0]
    ensures x in Due(s, now) && Due(Unlink(s, x), now) == Due(s, now) - {x}
  {
    hide Expired, Without;
    UnlinkExpired(s, x, now);
    WithoutIn(s.pending, x);
  }

  lemma {:induction false} FirePendingOk(s: State, now: int, script: nat -> seq<Op>, n: nat)
    requires Inv(s) && ScriptOk(script) && Ends(s, script, n) && now <= s.clock
    ensures var r := FirePending(s, script, n);
            Follows(s, r.s) && r.s.pending == [] && Explains(Due(s, now), r.trace, |r.trace|, Due(r.s, now))
    decreases Rounds(s, script, n)
  {
    hide Inv, Explains, Round, Due, Ends;
    if s.pending == [] {
      ExplainsNone(Due(s, now));
    } else {
      RoundLeft(s, script, n);
      RoundOk(s, script(n), now);
      var e, t := [Fired(s.pending[0])] + Dids(script(n)), Round(s, script(n));
      FirePendingOk(t, now, script, n + 1);
      var r := FirePending(t, script, n + 1);
      ExplainsJoin(Due(s, now), e, |e|, Due(t, now), r.trace, |r.trace|, Due(r.s, now));
    }
  }

  // ----- the whole pass ------------------------------------------------------

  /** CTimerUnit::CheckExpired. */
  function CheckExpired(s: State, now: int, onPending: nat -> seq<Op>, onExpired: nat -> seq<Op>): Result
    requires Inv(s) && ScriptOk(onPending) && Ends(s, onPending, 0) && ScriptOk(onExpired) && now <= s.clock
  {
    FirePendingOk(s, now, onPending, 0);
    var p := FirePending(s, onPending, 0);
    NothingAbove(p.s, now);
    var r := FireLists(p.s, now, |p.s.lists|, onExpired, 0);
    r.(trace := p.trace + r.trace, fired := p.fired + r.fired)
  }

  lemma NothingAbove(s: State, now: int)
    ensures DoneFrom(s, now, |s.lists|)
  {
  }

  /** The timers an event list is about. */
  function Touched(trace: seq<Event>): set<nat> {
    if trace == [] then {} else (if trace[0].Fired? then {trace[0].x} else Target(trace[0].op)) + Touched(trace[1..])
  }

  /** One of the first `m` events attached `x` as a zero timer, and no later event is about it. */
  ghost predicate Zeroed(trace: seq<Event>, m: nat, x: nat) {
    exists k :: 0 <= k < |trace| && k < m && trace[k] == Did(ZeroOp(x)) && x !in Touched(trace[k + 1..])
  }

  /** After the events, `x` still has to fire: it was due before them and none is about it, or it was made due by one of
      the first `m` and none since is about it. */
  ghost predicate Waits(due: set<nat>, trace: seq<Event>, m: nat, x: nat) {
    (x in due && x !in Touched(trace)) || Zeroed(trace, m, x)
  }

  lemma ZeroedTail(trace: seq<Event>, m: nat, x: nat)
    requires trace != []
    ensures Zeroed(trace, m, x) <==>
            Zeroed(trace[1..], Less(m), x) || (m > 0 && trace[0] == Did(ZeroOp(x)) && x !in Touched(trace[1..]))
  {
    hide Touched;
    var t := trace[1..];
    if k :| 0 <= k < |trace| && k < m && trace[k] == Did(ZeroOp(x)) && x !in Touched(trace[k + 1..]) {
      if k > 0 { assert t[k - 1] == trace[k] && t[k..] == trace[k + 1..]; }
    }
    if k :| 0 <= k < |t| && k < Less(m) && t[k] == Did(ZeroOp(x)) && x !in Touched(t[k + 1..]) {
      assert trace[k + 1] == t[k] && t[k + 1..] == trace[k + 2..];
    }
  }

  lemma WaitsTail(due: set<nat>, trace: seq<Event>, m: nat, x: nat)
    requires trace != []
    ensures Waits(due, trace, m, x) <==> Waits(After(due, trace[0], m > 0), trace[1..], Less(m), x)
  {
    hide Zeroed;
    ZeroedTail(trace, m, x);
  }

  lemma WaitsNone(due: set<nat>, m: nat, x: nat)
    ensures Waits(due, [], m, x) <==> x in due
  {
  }

  /** Only timers that wait fire, and those that wait at the end are due at the end. */
  lemma {:induction false} ExplainsMeans(due: set<nat>, trace: seq<Event>, m: nat, due': set<nat>)
    requires Explains(due, trace, m, due')
    ensures forall x :: x in due' <==> Waits(due, trace, m, x)
    ensures forall k :: 0 <= k < |trace| && trace[k].Fired? ==> Waits(due, trace[..k], m, trace[k].x)
    decreases |trace|
  {
    hide Waits;
    if trace == [] {
      forall x ensures x in due' <==> Waits(due, trace, m, x) { WaitsNone(due, m, x); }
    } else {
      var d, t := After(due, trace[0], m > 0), trace[1..];
      ExplainsMeans(d, t, Less(m), due');
      forall x ensures x in due' <==> Waits(due, trace, m, x) { WaitsTail(due, trace, m, x); }
      forall k | 0 <= k < |trace| && trace[k].Fired? ensures Waits(due, trace[..k], m, trace[k].x) {
        if k == 0 {
          WaitsNone(due, m, trace[0].x);
        } else {
          assert t[k - 1] == trace[k] && trace[..k][1..] == t[..k - 1];
          WaitsTail(due, trace[..k], m, trace[k].x);
        }
      }
    }
  }

  /** A pass fires a timer only if it was due at the start, or made a zero timer by a callback of the pending loop, and
      no event since was about it; no such timer is left at the end. */
  lemma PassFires(s: State, now: int, onPending: nat -> seq<Op>, onExpired: nat -> seq<Op>)
    requires Inv(s) && ScriptOk(onPending) && Ends(s, onPending, 0) && ScriptOk(onExpired) && now <= s.clock
    ensures var r, m := CheckExpired(s, now, onPending, onExpired), |FirePending(s, onPending, 0).trace|;
            && Inv(r.s) && Expired(r.s, now) == {}
            && (forall k :: 0 <= k < |r.trace| && r.trace[k].Fired? ==>
                 Waits(Due(s, now), r.trace[..k], m, r.trace[k].x))
            && (forall x :: !Waits(Due(s, now), r.trace, m, x))
  {
    hide Inv, Explains, FirePending, FireLists, Expired, DoneFrom, Waits, Ends;
    FirePendingOk(s, now, onPending, 0);
    var p := FirePending(s, onPending, 0);
    NothingAbove(p.s, now);
    FireListsOk(p.s, now, |p.s.lists|, onExpired, 0);
    var r := FireLists(p.s, now, |p.s.lists|, onExpired, 0);
    assert Due(p.s, now) == Expired(p.s, now);
    ExplainsJoin(Due(s, now), p.trace, |p.trace|, Due(p.s, now), r.trace, 0, {});
    ExplainsMeans(Due(s, now), p.trace + r.trace, |p.trace|, {});
  }

  // ----- the count of a pass -------------------------------------------------

  /** How many timers fire in a trace. */
  function FiredIn(trace: seq<Event>): nat {
    if trace == [] then 0 else (if trace[0].Fired? then 1 else 0) + FiredIn(trace[1..])
  }

  lemma {:induction false} FiredJoin(a: seq<Event>, b: seq<Event>)
    ensures FiredIn(a + b) == FiredIn(a) + FiredIn(b)
    decreases |a|
  {
    if a == [] {
      assert a + b == b;
    } else {
      assert (a + b)[1..] == a[1..] + b;
      FiredJoin(a[1..], b);
    }
  }

  lemma {:induction false} FiredDids(ops: seq<Op>)
    ensures FiredIn(Dids(ops)) == 0
  {
    if ops != [] {
      FiredDids(ops[1..]);
      assert Dids(ops)[1..] == Dids(ops[1..]);
    }
  }

  /** One timer and what its callback did. */
  lemma FiredOne(x: nat, ops: seq<Op>, rest: seq<Event>)
    ensures FiredIn([Fired(x)] + Dids(ops) + rest) == 1 + FiredIn(rest)
  {
    FiredDids(ops);
    FiredJoin([Fired(x)] + Dids(ops), rest);
    FiredJoin([Fired(x)], Dids(ops));
    assert [Fired(x)][1..] == [];
  }

  lemma {:induction false} PendingCount(s: State, script: nat -> seq<Op>, n: nat)
    requires Ends(s, script, n)
    ensures var r := FirePending(s, script, n); r.fired == n + FiredIn(r.trace)
    decreases Rounds(s, script, n)
  {
    hide Round, Ends, Dids;
    if s.pending != [] {
      RoundLeft(s, script, n);
      var t := Round(s, script(n));
      PendingCount(t, script, n + 1);
      FiredOne(s.pending[0], script(n), FirePending(t, script, n + 1).trace);
    }
  }

  lemma {:induction false} ListCount(s: State, now: int, i: nat, script: nat -> seq<Op>, n: nat)
    requires Inv(s) && ScriptOk(script) && now <= s.clock && i < |s.lists|
    ensures var r := FireList(s, now, i, script, n); r.fired == n + FiredIn(r.trace)
    decreases |Expired(s, now)|
  {
    hide Inv, Explains, Fire, Expired, Dids;
    if s.lists[i].objs != [] {
      FrontExpired(s, i, now);
      var x := s.lists[i].objs[0];
      if s.exp[x] <= now {
        FireOk(s, x, script(n), now);
        var f := Fire(s, x, script(n));
        ListCount(f, now, i, script, n + 1);
        FiredOne(x, script(n), FireList(f, now, i, script, n + 1).trace);
      }
    }
  }

  lemma {:induction false} ListsCount(s: State, now: int, i: nat, script: nat -> seq<Op>, n: nat)
    requires Inv(s) && ScriptOk(script) && now <= s.clock && i <= |s.lists| && DoneFrom(s, now, i)
    ensures var r := FireLists(s, now, i, script, n); r.fired == n + FiredIn(r.trace)
    decreases i
  {
    hide Inv, DoneFrom, Explains, Expired, FireList;
    if i > 0 {
      FireListOk(s, now, i - 1, script, n);
      ListCount(s, now, i - 1, script, n);
      var r := FireList(s, now, i - 1, script, n);
      ListsCount(r.s, now, i - 1, script, r.fired);
      FiredJoin(r.trace, FireLists(r.s, now, i - 1, script, r.fired).trace);
    }
  }

  /** The number a pass returns is the number of timers that fired. */
  lemma PassCount(s: State, now: int, onPending: nat -> seq<Op>, onExpired: nat -> seq<Op>)
    requires Inv(s) && ScriptOk(onPending) && Ends(s, onPending, 0) && ScriptOk(onExpired) && now <= s.clock
    ensures var r := CheckExpired(s, now, onPending, onExpired); r.fired == FiredIn(r.trace)
  {
    hide Inv, Explains, FirePending, FireLists, DoneFrom, Ends;
    FirePendingOk(s, now, onPending, 0);
    var p := FirePending(s, onPending, 0);
    PendingCount(s, onPending, 0);
    NothingAbove(p.s, now);
    ListsCount(p.s, now, |p.s.lists|, onExpired, 0);
    FiredJoin(p.trace, FireLists(p.s, now, |p.s.lists|, onExpired, 0).trace);
  }

  /** No zero timer is attached. */
  predicate NoZero(ops: seq<Op>) { forall k :: 0 <= k < |ops| ==> !ops[k].ZeroOp? }

  lemma {:induction false} NoZeroDids(ops: seq<Op>)
    requires NoZero(ops)
    ensures forall k :: 0 <= k < |Dids(ops)| ==> Dids(ops)[k].Did? && !Dids(ops)[k].op.ZeroOp?
  {
    if ops != [] { NoZeroDids(ops[1..]); }
  }

  lemma {:induction false} NoZeroTrace(s: State, script: nat -> seq<Op>, n: nat)
    requires Ends(s, script, n) && forall k: nat :: NoZero(script(k))
    ensures forall k, x :: 0 <= k < |FirePending(s, script, n).trace| ==>
            FirePending(s, script, n).trace[k] != Did(ZeroOp(x))
    decreases Rounds(s, script, n)
  {
    hide Round, NoZero, Ends;
    if s.pending != [] {
      RoundLeft(s, script, n);
      NoZeroDids(script(n));
      NoZeroTrace(Round(s, script(n)), script, n + 1);
    }
  }

  lemma NoZeroSettles(ops: seq<Op>)
    requires NoZero(ops)
    ensures Settles(ops)
  {
  }

  /** Where the callbacks of the pending loop attach no zero timer, a pass returns and fires exactly once each timer
      that was due at its start, unless an earlier callback disarmed or re-armed it, and no other timer. */
  lemma PlainPass(s: State, now: int, onPending: nat -> seq<Op>, onExpired: nat -> seq<Op>)
    requires Inv(s) && ScriptOk(onPending) && ScriptOk(onExpired) && now <= s.clock
    requires forall n: nat :: NoZero(onPending(n))
    ensures Ends(s, onPending, 0)
    ensures var r := CheckExpired(s, now, onPending, onExpired);
            && (forall k :: 0 <= k < |r.trace| && r.trace[k].Fired? ==>
                 r.trace[k].x in Due(s, now) && r.trace[k].x !in Touched(r.trace[..k]))
            && (forall x :: x in Due(s, now) ==> x in Touched(r.trace))
  {
    hide Inv, NoZero, Due, FirePending, FireLists, DoneFrom, Touched;
    forall k: nat ensures Settles(onPending(k)) { NoZeroSettles(onPending(k)); }
    SettledEnds(s, onPending, 0, 0);
    PassFires(s, now, onPending, onExpired);
    NoZeroTrace(s, onPending, 0);
    var r, m := CheckExpired(s, now, onPending, onExpired), |FirePending(s, onPending, 0).trace|;
    assert r.trace[..m] == FirePending(s, onPending, 0).trace;
    assert forall k, x :: 0 <= k < m ==> r.trace[..m][k] != Did(ZeroOp(x));
    assert forall k, x :: 0 <= k < m ==> r.trace[k] != Did(ZeroOp(x));
    forall x | x in Due(s, now) ensures x in Touched(r.trace) { assert !Waits(Due(s, now), r.trace, m, x); }
  }

  // ----- looping timers ------------------------------------------------------

  /** CCTimer::TimerNotify: the user's part, then StartTimer again if the timer loops. */
  function LoopReaction(own: seq<Op>, x: nat, interval: int, loop: bool): seq<Op> {
    own + if loop then [AttachOp(x, interval)] else []
  }

  lemma {:induction false} StepsJoin(s: State, a: seq<Op>, b: seq<Op>)
    ensures Steps(s, a + b) == Steps(Steps(s, a), b)
    decreases |a|
  {
    if a == [] {
      assert a + b == b;
    } else {
      assert (a + b)[1..] == a[1..] + b;
      StepsJoin(Step(s, a[0]), a[1..], b);
    }
  }

  /** A looping timer that fires is armed again, one interval after the end of its callback, and not due in the same
      pass. */
  lemma LoopRearms(s: State, x: nat, own: seq<Op>, interval: int, now: int)
    requires Inv(s) && OpsOk(own) && interval > 0 && now <= s.clock
    ensures var t := Fire(s, x, LoopReaction(own, x, interval, true));
            x in t.exp && t.exp[x] == t.clock + interval * TICK && InList(t, x) && x !in Expired(t, now)
  {
    hide Inv, Unlink, Steps, IndexOf, WithList, Step;
    UnlinkInv(s, x);
    UnlinkSize(s, x);
    StepsOk(Unlink(s, x), own, now);
    var m := Steps(Unlink(s, x), own);
    var op := AttachOp(x, interval);
    StepsJoin(Unlink(s, x), own, [op]);
    OneStep(m, op);
    StepExpired(m, op, now);
    Armed(m, x, interval);
  }

  lemma OneStep(s: State, op: Op)
    ensures Steps(s, [op]) == Step(s, op)
  {
    assert [op][1..] == [] && Steps(Step(s, op), []) == Step(s, op);
  }

  lemma Armed(s: State, x: nat, timeout: int)
    ensures var t := Step(s, AttachOp(x, timeout)); x in t.exp && t.exp[x] == t.clock + timeout * TICK && InList(t, x)
  {
    hide IndexOf, Without;
    var u := WithList(Unlink(s, x), timeout);
    var i := IndexOf(u.lists, timeout);
    ListFor(u.lists, timeout);
    var t := Attach(s, x, timeout);
    assert x in t.lists[i].objs;
  }

  lemma ListFor(lists: seq<TimerList>, timeout: int)
    ensures IndexOf(lists, timeout) < |lists| ==> lists[IndexOf(lists, timeout)].timeout == timeout
  {
  }
}

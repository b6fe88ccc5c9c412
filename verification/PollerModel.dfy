/**
 The poller unit as a state machine: slots with generations, a free list, and
 the objects that own slots. The kernel may deliver any id that was issued, and
 handlers run arbitrary operations in the middle of a batch.
 */
module PollerModel {
  import opened Basics

  datatype Events = Events(input: bool, output: bool)

  /** A slot: how often its sequence number was bumped, and its owner (0 for none). */
  datatype Slot = Slot(gen: nat, poller: nat)

  datatype Object = Object(netfd: int, newEvents: Events, oldEvents: Events, epslot: Option<nat>)

  /** `issued` records which object handed which (slot, generation) to epoll_ctl; `nextId` is the next unused object
      identity. */
  datatype Unit = Unit(
    slots: seq<Slot>,
    free: seq<nat>,
    used: int,
    objs: map<nat, Object>,
    issued: map<(nat, nat), nat>,
    nextId: nat)

  const SEQ_RANGE: nat := 0x1_0000_0000

  // ----- the operations ------------------------------------------------------

  function Initial(max: nat): Unit {
    Unit(seq(max, i => Slot(0, 0)), seq(max, i => i), 0, map[], map[], 1)
  }

  /** ++seq, and the id made of it handed to epoll_ctl. */
  function Issue(u: Unit, o: nat, i: nat): Unit
    requires i < |u.slots|
  {
    var g := u.slots[i].gen + 1;
    u.(slots := u.slots[i := u.slots[i].(gen := g)], issued := u.issued[(i, g) := o])
  }

  /** FreeEpollSlot. */
  function FreeSlot(u: Unit, i: nat): Unit
    requires i < |u.slots|
  {
    u.(slots := u.slots[i := Slot(u.slots[i].gen + 1, 0)], free := [i] + u.free, used := u.used - 1)
  }

  /** AllocEpollSlot for object `o`. */
  function TakeSlot(u: Unit, o: nat): Unit
    requires u.free != [] && u.free[0] < |u.slots| && o in u.objs
  {
    var i := u.free[0];
    u.(slots := u.slots[i := u.slots[i].(poller := o)], free := u.free[1..], used := u.used + 1,
       objs := u.objs[o := u.objs[o].(epslot := Some(i))])
  }

  function Put(u: Unit, o: nat, x: Object): Unit { u.(objs := u.objs[o := x]) }

  /** The event mask took effect, if epoll_ctl succeeded. */
  function Settle(u: Unit, o: nat, ok: bool): Unit
    requires o in u.objs
  {
    if ok then Put(u, o, u.objs[o].(oldEvents := u.objs[o].newEvents)) else u
  }

  function Apply(u: Unit, o: nat, ok: bool): Unit
    requires Inv(u) && o in u.objs
  {
    var x := u.objs[o];
    if x.epslot.None? || x.oldEvents == x.newEvents then u else Settle(Issue(u, o, x.epslot.value), o, ok)
  }

  function Attach(u: Unit, o: nat, ok: bool): Unit
    requires Inv(u) && o in u.objs
  {
    if u.objs[o].netfd < 0 then u
    else if u.objs[o].epslot.Some? then Apply(u, o, ok)
    else if u.free == [] then u
    else Settle(Issue(TakeSlot(u, o), o, u.free[0]), o, ok)
  }

  function Detach(u: Unit, o: nat, ok: bool): Unit
    requires Inv(u) && o in u.objs
  {
    var x := u.objs[o];
    if x.epslot.None? || !ok then u
    else Put(FreeSlot(u, x.epslot.value), o, x.(oldEvents := x.newEvents, epslot := None))
  }

  /** ~CPollerObject. */
  function Destroy(u: Unit, o: nat): Unit
    requires Inv(u) && o in u.objs
  {
    var v := if u.objs[o].epslot.Some? then FreeSlot(u, u.objs[o].epslot.value) else u;
    v.(objs := v.objs - {o})
  }

  function Create(u: Unit, netfd: int): Unit {
    Put(u, u.nextId, Object(netfd, Events(false, false), Events(false, false), None)).(nextId := u.nextId + 1)
  }

  function Enable(u: Unit, o: nat, ev: Events): Unit
    requires o in u.objs
  {
    Put(u, o, u.objs[o].(newEvents := ev))
  }

  /** What a handler, or anyone between two batches, may do. The flag `ok` is the outcome of epoll_ctl. */
  datatype Op =
    | CreateOp(netfd: int)
    | DestroyOp(o: nat)
    | AttachOp(o: nat, ok: bool)
    | DetachOp(o: nat, ok: bool)
    | ApplyOp(o: nat, ok: bool)
    | EnableOp(o: nat, ev: Events)

  /** One operation; nobody uses an object that does not exist. */
  function Step(u: Unit, op: Op): Unit
    requires Inv(u)
  {
    match op
    case CreateOp(netfd) => Create(u, netfd)
    case DestroyOp(o) => if o in u.objs then Destroy(u, o) else u
    case AttachOp(o, ok) => if o in u.objs then Attach(u, o, ok) else u
    case DetachOp(o, ok) => if o in u.objs then Detach(u, o, ok) else u
    case ApplyOp(o, ok) => if o in u.objs then Apply(u, o, ok) else u
    case EnableOp(o, ev) => if o in u.objs then Enable(u, o, ev) else u
  }

  // ----- the invariant -------------------------------------------------------

  /** Free and used slots partition the table, and a used slot and its owner point at each other. */
  ghost predicate SlotsOk(u: Unit) {
    && Distinct(u.free) && (forall k :: 0 <= k < |u.free| ==> u.free[k] < |u.slots|)
    && u.used + |u.free| == |u.slots|
    && (forall i :: 0 <= i < |u.slots| ==> (i in u.free <==> u.slots[i].poller == 0))
    && (forall i :: 0 <= i < |u.slots| && u.slots[i].poller != 0 ==>
          u.slots[i].poller in u.objs && u.objs[u.slots[i].poller].epslot == Some(i))
    && (forall o :: o in u.objs && u.objs[o].epslot.Some? ==>
          u.objs[o].epslot.value < |u.slots| && u.slots[u.objs[o].epslot.value].poller == o)
    && (forall o :: o in u.objs ==> 0 < o < u.nextId)
    && u.nextId > 0
  }

  /** An id whose generation is that of its slot was issued by the owner of the slot. */
  ghost predicate IssuedOk(u: Unit) {
    forall k :: k in u.issued ==>
      && k.0 < |u.slots| && k.1 <= u.slots[k.0].gen && u.issued[k] != 0
      && (k.1 == u.slots[k.0].gen ==> u.slots[k.0].poller == u.issued[k])
  }

  ghost predicate Inv(u: Unit) { SlotsOk(u) && IssuedOk(u) }

  lemma InitialInv(max: nat)
    ensures Inv(Initial(max))
  {
    var u := Initial(max);
    forall i | 0 <= i < max ensures i in u.free { assert u.free[i] == i; }
  }

  /** Changing anything but the slot of an object keeps the invariant. */
  lemma InvPut(u: Unit, o: nat, x: Object)
    requires Inv(u) && o in u.objs && x.epslot == u.objs[o].epslot
    ensures Inv(Put(u, o, x))
  {
  }

  lemma IssueInv(u: Unit, o: nat, i: nat)
    requires Inv(u) && o in u.objs && u.objs[o].epslot == Some(i)
    ensures Inv(Issue(u, o, i))
  {
  }

  lemma FreeInv(u: Unit, o: nat, i: nat)
    requires Inv(u) && o in u.objs && u.objs[o].epslot == Some(i)
    ensures var v := FreeSlot(u, i); Inv(v.(objs := v.objs - {o}))
    ensures Inv(Put(FreeSlot(u, i), o, u.objs[o].(oldEvents := u.objs[o].newEvents, epslot := None)))
  {
  }

  lemma TakeInv(u: Unit, o: nat)
    requires SlotsOk(u) && o in u.objs && u.objs[o].epslot.None? && u.free != []
    ensures SlotsOk(TakeSlot(u, o))
  {
    var v := TakeSlot(u, o);
    assert u.free == [u.free[0]] + u.free[1..];
    forall i | 0 <= i < |u.slots| && i != u.free[0] ensures i in v.free <==> i in u.free { }
    assert u.free[0] !in v.free;
  }

  lemma AttachInv(u: Unit, o: nat, ok: bool)
    requires Inv(u) && o in u.objs
    ensures Inv(Attach(u, o, ok))
  {
    if u.objs[o].netfd >= 0 {
      if u.objs[o].epslot.Some? {
        ApplyInv(u, o, ok);
      } else if u.free != [] {
        TakeInv(u, o);
        var t, i := TakeSlot(u, o), u.free[0];
        TakeIssue(u, o);
        if ok { InvPut(Issue(t, o, i), o, t.objs[o].(oldEvents := t.objs[o].newEvents)); }
      }
    }
  }

  /** The first id of a new owner is newer than every id of the slot. */
  lemma TakeIssue(u: Unit, o: nat)
    requires Inv(u) && o in u.objs && u.objs[o].epslot.None? && u.free != []
    ensures Inv(Issue(TakeSlot(u, o), o, u.free[0]))
  {
    TakeInv(u, o);
    var t, i := TakeSlot(u, o), u.free[0];
    var v := Issue(t, o, i);
    assert SlotsOk(v);
    assert IssuedOk(v);
  }

  lemma ApplyInv(u: Unit, o: nat, ok: bool)
    requires Inv(u) && o in u.objs
    ensures Inv(Apply(u, o, ok))
  {
    var x := u.objs[o];
    if x.epslot.Some? && x.oldEvents != x.newEvents {
      IssueInv(u, o, x.epslot.value);
      if ok { InvPut(Issue(u, o, x.epslot.value), o, x.(oldEvents := x.newEvents)); }
    }
  }

  lemma StepInv(u: Unit, op: Op)
    requires Inv(u)
    ensures Inv(Step(u, op))
  {
    match op {
      case CreateOp(_) =>
      case DestroyOp(o) => if o in u.objs && u.objs[o].epslot.Some? { FreeInv(u, o, u.objs[o].epslot.value); }
      case AttachOp(o, ok) => if o in u.objs { AttachInv(u, o, ok); }
      case DetachOp(o, ok) => if o in u.objs && u.objs[o].epslot.Some? { FreeInv(u, o, u.objs[o].epslot.value); }
      case ApplyOp(o, ok) => if o in u.objs { ApplyInv(u, o, ok); }
      case EnableOp(o, ev) => if o in u.objs { InvPut(u, o, u.objs[o].(newEvents := ev)); }
    }
  }

  // ----- runs ----------------------------------------------------------------

  /** Every run keeps the invariant: no failing call leaks a slot or leaves one without its owner. */
  function Run(u: Unit, ops: seq<Op>): (v: Unit)
    requires Inv(u)
    ensures Inv(v)
    decreases |ops|
  {
    if ops == [] then u else StepInv(u, ops[0]); Run(Step(u, ops[0]), ops[1..])
  }

  /** From `u` to `v` no slot was bumped more than `n` times, and what was issued stays issued. */
  ghost predicate Grows(u: Unit, v: Unit, n: nat) {
    && |v.slots| == |u.slots|
    && (forall i :: 0 <= i < |u.slots| ==> u.slots[i].gen <= v.slots[i].gen <= u.slots[i].gen + n)
    && (forall k :: k in u.issued ==> k in v.issued && v.issued[k] == u.issued[k])
    && u.nextId <= v.nextId
  }

  lemma StepGrows(u: Unit, op: Op)
    requires Inv(u)
    ensures Grows(u, Step(u, op), 1)
  {
    hide SlotsOk;
    match op {
      case AttachOp(o, ok) => if o in u.objs { AttachGrows(u, o, ok); }
      case ApplyOp(o, ok) => if o in u.objs { ApplyGrows(u, o, ok); }
      case DestroyOp(o) => if o in u.objs && u.objs[o].epslot.Some? { OwnSlot(u, o); }
      case DetachOp(o, _) => if o in u.objs && u.objs[o].epslot.Some? { OwnSlot(u, o); }
      case _ =>
    }
  }

  lemma OwnSlot(u: Unit, o: nat)
    requires Inv(u) && o in u.objs && u.objs[o].epslot.Some?
    ensures u.objs[o].epslot.value < |u.slots| && u.slots[u.objs[o].epslot.value].poller == o
  {
  }

  lemma AttachGrows(u: Unit, o: nat, ok: bool)
    requires Inv(u) && o in u.objs
    ensures Grows(u, Attach(u, o, ok), 1)
  {
    if u.objs[o].epslot.Some? { ApplyGrows(u, o, ok); }
  }

  lemma ApplyGrows(u: Unit, o: nat, ok: bool)
    requires Inv(u) && o in u.objs
    ensures Grows(u, Apply(u, o, ok), 1)
  {
  }

  lemma GrowsTrans(u: Unit, v: Unit, w: Unit, m: nat, n: nat)
    requires Grows(u, v, m) && Grows(v, w, n)
    ensures Grows(u, w, m + n)
  {
    forall i | 0 <= i < |u.slots| ensures u.slots[i].gen <= w.slots[i].gen <= u.slots[i].gen + m + n {
      assert u.slots[i].gen <= v.slots[i].gen <= u.slots[i].gen + m;
    }
  }

  lemma {:induction false} RunGrows(u: Unit, ops: seq<Op>)
    requires Inv(u)
    ensures Grows(u, Run(u, ops), |ops|)
    decreases |ops|
  {
    hide Inv, Step;
    if ops != [] {
      StepInv(u, ops[0]);
      StepGrows(u, ops[0]);
      RunGrows(Step(u, ops[0]), ops[1..]);
      GrowsTrans(u, Step(u, ops[0]), Run(u, ops), 1, |ops| - 1);
    }
  }

  // ----- a batch of events ---------------------------------------------------

  /** An event for the id made of `gen` and `slot`, as epoll_wait reports it. */
  datatype Event = Event(slot: nat, gen: nat, input: bool, output: bool, hangup: bool)

  /** What a handler does and returns. */
  datatype Reaction = Reaction(ops: seq<Op>, ret: int)

  /** How the handlers called for one event behave, and the outcome of the epoll_ctl at its end. */
  datatype Script = Script(onHangup: Reaction, onInput: Reaction, onOutput: Reaction, applyOk: bool)

  datatype Kind = Hangup | Input | Output

  /** A handler call: on which object, for which event, in which state. */
  datatype Call = Call(kind: Kind, obj: nat, ev: Event, at: Unit)

  const POLLER_SUCC := 0

  /** VerifyEvents: the 32-bit sequence numbers agree. */
  predicate Verified(u: Unit, ev: Event) {
    ev.slot < |u.slots| && u.slots[ev.slot].gen % SEQ_RANGE == ev.gen % SEQ_RANGE
  }

  /** The id was issued, fewer than 2^32 bumps ago even after `n` more. */
  ghost predicate Outstanding(u: Unit, ev: Event, n: nat) {
    (ev.slot, ev.gen) in u.issued && ev.slot < |u.slots| && u.slots[ev.slot].gen + n < ev.gen + SEQ_RANGE
  }

  /** A verified event is for the latest id of its slot, which is attached to the live object that issued it. */
  lemma VerifiedOwner(u: Unit, ev: Event, n: nat)
    requires Inv(u) && Outstanding(u, ev, n) && Verified(u, ev)
    ensures var p := u.slots[ev.slot].poller;
            u.slots[ev.slot].gen == ev.gen && p in u.objs && u.objs[p].epslot == Some(ev.slot) &&
                u.issued[(ev.slot, ev.gen)] == p
  {
    hide SlotsOk;
    SameGen(u.slots[ev.slot].gen, ev.gen);
    Owner(u, ev.slot);
  }

  /** An id that was issued is verified exactly while it is the latest of its slot. */
  lemma VerifiedLatest(u: Unit, ev: Event)
    requires Inv(u) && Outstanding(u, ev, 0)
    ensures Verified(u, ev) <==> u.slots[ev.slot].gen == ev.gen
  {
    if Verified(u, ev) { VerifiedOwner(u, ev, 0); }
  }

  lemma SameGen(a: nat, b: nat)
    requires b <= a < b + SEQ_RANGE && a % SEQ_RANGE == b % SEQ_RANGE
    ensures a == b
  {
  }

  lemma Owner(u: Unit, i: nat)
    requires Inv(u) && i < |u.slots| && u.slots[i].poller != 0
    ensures u.slots[i].poller in u.objs && u.objs[u.slots[i].poller].epslot == Some(i)
  {
  }

  /** How far the handling of an event got: the state, the calls made, and whether it goes on. */
  datatype Stage = Stage(u: Unit, calls: seq<Call>, go: bool)

  /** One handler of the event, and the two checks behind it. */
  function Notify(u: Unit, kind: Kind, p: nat, ev: Event, r: Reaction): Stage
    requires Inv(u) && ev.slot < |u.slots|
  {
    RunGrows(u, r.ops);
    var v := Run(u, r.ops);
    Stage(v, [Call(kind, p, ev, u)], v.slots[ev.slot].poller == p && r.ret == POLLER_SUCC)
  }

  /** The handling of one event; objects are accessed only while they exist. */
  function Handle(u: Unit, ev: Event, sc: Script): Stage
    requires Inv(u) && Outstanding(u, ev, 0)
  {
    if !Verified(u, ev) then Stage(u, [], false)
    else
      VerifiedOwner(u, ev, 0);
      var p := u.slots[ev.slot].poller;
      var u1 := Enable(u, p, u.objs[p].oldEvents);
      InvPut(u, p, u1.objs[p]);
      if ev.hangup then Notify(u1, Hangup, p, ev, sc.onHangup).(go := false)
      else
        var s2 := if ev.input then Notify(u1, Input, p, ev, sc.onInput) else Stage(u1, [], true);
        if !s2.go then s2
        else
          RunGrows(u1, sc.onInput.ops);
          HandleOutput(s2, p, ev, sc)
  }

  /** Once the input was handled and the object is still attached. */
  function HandleOutput(s: Stage, p: nat, ev: Event, sc: Script): Stage
    requires Inv(s.u) && ev.slot < |s.u.slots| && p != 0 && s.u.slots[ev.slot].poller == p
  {
    var t := if ev.output then Notify(s.u, Output, p, ev, sc.onOutput) else s.(calls := []);
    if !t.go then t.(calls := s.calls + t.calls)
    else
      RunGrows(s.u, sc.onOutput.ops);
      Owner(t.u, ev.slot);
      Stage(Apply(t.u, p, sc.applyOk), s.calls + t.calls, true)
  }

  /** A bound on the bumps while one event is handled. */
  function Cost(sc: Script): nat { |sc.onHangup.ops| + |sc.onInput.ops| + |sc.onOutput.ops| + 1 }

  lemma SubGrows(u: Unit, v: Unit, m: nat, n: nat)
    requires Grows(u, v, m) && m <= n
    ensures Grows(u, v, n)
  {
  }

  lemma PutGrows(u: Unit, o: nat, x: Object)
    ensures Grows(u, Put(u, o, x), 0)
  {
  }

  lemma OutputGrows(s: Stage, p: nat, ev: Event, sc: Script)
    requires Inv(s.u) && ev.slot < |s.u.slots| && p != 0 && s.u.slots[ev.slot].poller == p && s.go
    ensures Inv(HandleOutput(s, p, ev, sc).u) && Grows(s.u, HandleOutput(s, p, ev, sc).u, |sc.onOutput.ops| + 1)
  {
    hide Inv, Grows, Apply, Run;
    RunGrows(s.u, sc.onOutput.ops);
    RunGrows(s.u, []);
    var t := if ev.output then Notify(s.u, Output, p, ev, sc.onOutput) else s.(calls := []);
    assert Grows(s.u, t.u, |sc.onOutput.ops|) by { if !ev.output { NoGrowth(s.u, |sc.onOutput.ops|); } }
    if t.go {
      KeptLength(s.u, t.u, |sc.onOutput.ops|);
      Owner(t.u, ev.slot);
      ApplyInv(t.u, p, sc.applyOk);
      ApplyGrows(t.u, p, sc.applyOk);
      GrowsTrans(s.u, t.u, Apply(t.u, p, sc.applyOk), |sc.onOutput.ops|, 1);
    } else {
      SubGrows(s.u, t.u, |sc.onOutput.ops|, |sc.onOutput.ops| + 1);
    }
  }

  lemma NoGrowth(u: Unit, n: nat)
    ensures Grows(u, u, n)
  {
  }

  lemma KeptLength(u: Unit, v: Unit, n: nat)
    requires Grows(u, v, n)
    ensures |u.slots| == |v.slots|
  {
  }

  lemma HandleGrows(u: Unit, ev: Event, sc: Script)
    requires Inv(u) && Outstanding(u, ev, 0)
    ensures Inv(Handle(u, ev, sc).u) && Grows(u, Handle(u, ev, sc).u, Cost(sc))
  {
    hide Inv, Grows, Run, Verified, HandleOutput;
    NoGrowth(u, Cost(sc));
    if Verified(u, ev) {
      VerifiedOwner(u, ev, 0);
      NotNull(u, u.slots[ev.slot].poller);
      var p := u.slots[ev.slot].poller;
      var u1 := Enable(u, p, u.objs[p].oldEvents);
      InvPut(u, p, u1.objs[p]);
      PutGrows(u, p, u1.objs[p]);
      if ev.hangup {
        AfterGrows(u, u1, sc.onHangup.ops, Cost(sc));
      } else {
        var s2 := if ev.input then Notify(u1, Input, p, ev, sc.onInput) else Stage(u1, [], true);
        AfterGrows(u, u1, sc.onInput.ops, |sc.onInput.ops|);
        if !ev.input { SubGrows(u, u1, 0, |sc.onInput.ops|); }
        assert Grows(u, s2.u, |sc.onInput.ops|);
        if s2.go {
          KeptLength(u, s2.u, |sc.onInput.ops|);
          OutputGrows(s2, p, ev, sc);
          var v := HandleOutput(s2, p, ev, sc).u;
          GrowsTrans(u, s2.u, v, |sc.onInput.ops|, |sc.onOutput.ops| + 1);
          SubGrows(u, v, |sc.onInput.ops| + |sc.onOutput.ops| + 1, Cost(sc));
        } else {
          SubGrows(u, s2.u, |sc.onInput.ops|, Cost(sc));
        }
      }
    }
  }

  lemma AfterGrows(u: Unit, v: Unit, ops: seq<Op>, n: nat)
    requires Inv(v) && Grows(u, v, 0) && |ops| <= n
    ensures Grows(u, Run(v, ops), n)
  {
    hide Inv, Grows, Run;
    RunGrows(v, ops);
    GrowsTrans(u, v, Run(v, ops), 0, |ops|);
    SubGrows(u, Run(v, ops), |ops|, n);
  }

  // ----- where the calls go --------------------------------------------------

  /** The object is live, attached to the slot of the event, and issued its id; for input and hangup the id is still the
      latest. */
  ghost predicate Good(c: Call) {
    var u, i := c.at, c.ev.slot;
    && Inv(u) && i < |u.slots| && u.slots[i].poller == c.obj && c.obj in u.objs && u.objs[c.obj].epslot == Some(i)
    && (i, c.ev.gen) in u.issued && u.issued[(i, c.ev.gen)] == c.obj
    && (c.kind != Output ==> u.slots[i].gen == c.ev.gen)
  }

  ghost predicate AllGood(calls: seq<Call>) { forall k :: 0 <= k < |calls| ==> Good(calls[k]) }

  lemma OutputGood(s: Stage, p: nat, ev: Event, sc: Script)
    requires Inv(s.u) && ev.slot < |s.u.slots| && p != 0 && s.u.slots[ev.slot].poller == p && AllGood(s.calls)
    requires (ev.slot, ev.gen) in s.u.issued && s.u.issued[(ev.slot, ev.gen)] == p
    ensures AllGood(HandleOutput(s, p, ev, sc).calls)
  {
    hide Inv, Run, Apply;
    Owner(s.u, ev.slot);
    assert Good(Call(Output, p, ev, s.u));
  }

  lemma IssuedKept(u: Unit, v: Unit, n: nat, k: (nat, nat))
    requires Grows(u, v, n) && k in u.issued
    ensures k in v.issued && v.issued[k] == u.issued[k]
  {
  }

  /** Every call made for one event. */
  lemma HandleGood(u: Unit, ev: Event, sc: Script)
    requires Inv(u) && Outstanding(u, ev, 0)
    ensures AllGood(Handle(u, ev, sc).calls)
  {
    hide Inv, Grows, Run, Verified, HandleOutput;
    if Verified(u, ev) {
      VerifiedOwner(u, ev, 0);
      var p := u.slots[ev.slot].poller;
      var u1 := Enable(u, p, u.objs[p].oldEvents);
      InvPut(u, p, u1.objs[p]);
      assert Good(Call(Hangup, p, ev, u1)) && Good(Call(Input, p, ev, u1));
      if !ev.hangup {
        var s2 := if ev.input then Notify(u1, Input, p, ev, sc.onInput) else Stage(u1, [], true);
        RunGrows(u1, sc.onInput.ops);
        IssuedKept(u1, Run(u1, sc.onInput.ops), |sc.onInput.ops|, (ev.slot, ev.gen));
        KeptLength(u1, Run(u1, sc.onInput.ops), |sc.onInput.ops|);
        NotNull(u, p);
        if s2.go { OutputGood(s2, p, ev, sc); }
      }
    }
  }

  lemma NotNull(u: Unit, o: nat)
    requires Inv(u) && o in u.objs
    ensures o != 0
  {
  }

  function Budget(scripts: seq<Script>): nat {
    if scripts == [] then 0 else Cost(scripts[0]) + Budget(scripts[1..])
  }

  /** The kernel delivers issued ids, each with fewer than 2^32 bumps of its slot until the batch is done. */
  ghost predicate BatchOk(u: Unit, batch: seq<Event>, n: nat) {
    forall k :: 0 <= k < |batch| ==> Outstanding(u, batch[k], n)
  }

  lemma BatchGrows(u: Unit, v: Unit, batch: seq<Event>, m: nat, n: nat)
    requires BatchOk(u, batch, m + n) && Grows(u, v, m)
    ensures BatchOk(v, batch, n)
  {
    forall k | 0 <= k < |batch| ensures Outstanding(v, batch[k], n) {
      assert Outstanding(u, batch[k], m + n);
    }
  }

  lemma BatchTail(u: Unit, batch: seq<Event>, n: nat)
    requires BatchOk(u, batch, n) && batch != []
    ensures Outstanding(u, batch[0], 0) && BatchOk(u, batch[1..], n)
  {
    assert Outstanding(u, batch[0], n);
  }

  /** ProcessPollerEvents: the state after the batch and every handler call made. */
  function Process(u: Unit, batch: seq<Event>, scripts: seq<Script>): (r: (Unit, seq<Call>))
    requires Inv(u) && |batch| == |scripts| && BatchOk(u, batch, Budget(scripts))
    ensures Inv(r.0)
    decreases |batch|
  {
    if batch == [] then (u, [])
    else
      BatchTail(u, batch, Budget(scripts));
      HandleGrows(u, batch[0], scripts[0]);
      var s := Handle(u, batch[0], scripts[0]);
      BatchGrows(u, s.u, batch[1..], Cost(scripts[0]), Budget(scripts[1..]));
      var rest := Process(s.u, batch[1..], scripts[1..]);
      (rest.0, s.calls + rest.1)
  }

  /** Every call of the batch goes to a live, attached object that issued the id of the event, whatever the handlers did
      before. */
  lemma {:induction false} DispatchGood(u: Unit, batch: seq<Event>, scripts: seq<Script>)
    requires Inv(u) && |batch| == |scripts| && BatchOk(u, batch, Budget(scripts))
    ensures AllGood(Process(u, batch, scripts).1)
    decreases |batch|
  {
    hide Inv, Good, Handle, Grows, Cost;
    if batch != [] {
      BatchTail(u, batch, Budget(scripts));
      HandleGrows(u, batch[0], scripts[0]);
      HandleGood(u, batch[0], scripts[0]);
      var s := Handle(u, batch[0], scripts[0]);
      BatchGrows(u, s.u, batch[1..], Cost(scripts[0]), Budget(scripts[1..]));
      DispatchGood(s.u, batch[1..], scripts[1..]);
      Joined(s.calls, Process(s.u, batch[1..], scripts[1..]).1);
    }
  }

  lemma Joined(a: seq<Call>, b: seq<Call>)
    requires AllGood(a) && AllGood(b)
    ensures AllGood(a + b)
  {
    hide Good;
  }

  // ----- which calls are made ------------------------------------------------

  /** The state behind a handler, if it is called, and whether the event is handled further: the slot is still its
      object's and the handler succeeded. */
  function Behind(u: Unit, called: bool, r: Reaction): Unit
    requires Inv(u)
  {
    if called then Run(u, r.ops) else u
  }

  predicate Further(v: Unit, i: nat, p: nat, called: bool, r: Reaction)
    requires i < |v.slots|
  {
    called ==> v.slots[i].poller == p && r.ret == POLLER_SUCC
  }

  /** From `u` to `v` the masks of `p` are applied: its slot gets a new id exactly if they differ, the mask in force is
      the new one if epoll_ctl succeeded, and nothing else changes. */
  ghost predicate Applied(u: Unit, v: Unit, p: nat, ok: bool) {
    && p in u.objs && u.objs[p].epslot.Some?
    && var x, i := u.objs[p], u.objs[p].epslot.value;
       && i < |u.slots| == |v.slots| && (forall j :: 0 <= j < |u.slots| && j != i ==> v.slots[j] == u.slots[j])
       && v.slots[i] == Slot(u.slots[i].gen + (if x.oldEvents != x.newEvents then 1 else 0), p)
       && v.objs == u.objs[p := x.(oldEvents := if ok then x.newEvents else x.oldEvents)]
       && v.free == u.free && v.used == u.used && v.nextId == u.nextId
       && v.issued == if x.oldEvents != x.newEvents then u.issued[(i, v.slots[i].gen) := p] else u.issued
  }

  /** From `u` to `v` object `p` got the first free slot with a new id, and the mask in force is the one asked for if
      epoll_ctl succeeded; the slot is kept even if it did not, and nothing else changes. */
  ghost predicate Attached(u: Unit, v: Unit, p: nat, ok: bool) {
    && p in u.objs && u.free != [] && u.free[0] < |u.slots|
    && var x, i := u.objs[p], u.free[0];
       && v.slots == u.slots[i := Slot(u.slots[i].gen + 1, p)]
       && v.objs == u.objs[p := x.(epslot := Some(i), oldEvents := if ok then x.newEvents else x.oldEvents)]
       && v.free == u.free[1..] && v.used == u.used + 1 && v.nextId == u.nextId
       && v.issued == u.issued[(i, u.slots[i].gen + 1) := p]
  }

  /** What an event leads to: `calls` are the handler calls made and `v` the state behind them. An event that is not
      verified leads to nothing. Otherwise the mask its owner asked for is taken back first. A hangup is reported alone.
      Input is reported if it is there, then output if it is there and the input handler let the event go on; if all
      handlers did, the masks are applied. */
  ghost predicate Serves(u: Unit, ev: Event, sc: Script, calls: seq<Call>, v: Unit)
    requires Inv(u)
  {
    if !Verified(u, ev) then calls == [] && v == u
    else
      var i, p := ev.slot, u.slots[ev.slot].poller;
      && p in u.objs
      && var u1 := u.(objs := u.objs[p := u.objs[p].(newEvents := u.objs[p].oldEvents)]);
         && Inv(u1)
         && if ev.hangup then calls == [Call(Hangup, p, ev, u1)] && v == Run(u1, sc.onHangup.ops)
            else
              var a := Behind(u1, ev.input, sc.onInput);
              && Inv(a) && i < |a.slots|
              && var second := ev.output && Further(a, i, p, ev.input, sc.onInput);
                 var b := Behind(a, second, sc.onOutput);
                 && Inv(b) && i < |b.slots|
                 && calls == (if ev.input then [Call(Input, p, ev, u1)] else [])
                             + (if second then [Call(Output, p, ev, a)] else [])
                 && if Further(a, i, p, ev.input, sc.onInput) && Further(b, i, p, second, sc.onOutput)
                    then Applied(b, v, p, sc.applyOk)
                    else v == b
  }

  lemma ApplyApplied(u: Unit, p: nat, ok: bool)
    requires Inv(u) && p in u.objs && u.objs[p].epslot.Some?
    ensures Applied(u, Apply(u, p, ok), p, ok)
  {
    hide IssuedOk;
    OwnSlot(u, p);
    assert u.objs[p := u.objs[p]] == u.objs;
  }

  lemma AttachApplied(u: Unit, p: nat, ok: bool)
    requires Inv(u) && p in u.objs
    ensures u.objs[p].netfd < 0 || (u.objs[p].epslot.None? && u.free == []) ==> Attach(u, p, ok) == u
    ensures u.objs[p].netfd >= 0 && u.objs[p].epslot.Some? ==> Applied(u, Attach(u, p, ok), p, ok)
    ensures u.objs[p].netfd >= 0 && u.objs[p].epslot.None? && u.free != [] ==> Attached(u, Attach(u, p, ok), p, ok)
  {
    hide IssuedOk, Apply, Applied;
    if u.objs[p].epslot.Some? { ApplyApplied(u, p, ok); }
  }

  lemma HandleServes(u: Unit, ev: Event, sc: Script)
    requires Inv(u) && Outstanding(u, ev, 0)
    ensures Serves(u, ev, sc, Handle(u, ev, sc).calls, Handle(u, ev, sc).u)
  {
    hide Inv, Grows, Run, Verified, Applied, Apply;
    if Verified(u, ev) {
      VerifiedOwner(u, ev, 0);
      var i, p := ev.slot, u.slots[ev.slot].poller;
      NotNull(u, p);
      var u1 := Enable(u, p, u.objs[p].oldEvents);
      InvPut(u, p, u1.objs[p]);
      if !ev.hangup {
        var a := Behind(u1, ev.input, sc.onInput);
        RunGrows(u1, sc.onInput.ops);
        KeptLength(u1, Run(u1, sc.onInput.ops), |sc.onInput.ops|);
        var second := ev.output && Further(a, i, p, ev.input, sc.onInput);
        var b := Behind(a, second, sc.onOutput);
        RunGrows(a, sc.onOutput.ops);
        KeptLength(a, Run(a, sc.onOutput.ops), |sc.onOutput.ops|);
        if Further(a, i, p, ev.input, sc.onInput) && Further(b, i, p, second, sc.onOutput) {
          assert b.slots[i].poller == p;
          Owner(b, i);
          ApplyApplied(b, p, sc.applyOk);
        }
      }
    }
  }

  /** The events of a batch are served one after the other. */
  ghost predicate ServesAll(u: Unit, batch: seq<Event>, scripts: seq<Script>, calls: seq<Call>, v: Unit)
    requires Inv(u) && |batch| == |scripts|
    decreases |batch|
  {
    if batch == [] then calls == [] && v == u
    else exists k, m ::
      && 0 <= k <= |calls| && Inv(m) && Serves(u, batch[0], scripts[0], calls[..k], m)
      && ServesAll(m, batch[1..], scripts[1..], calls[k..], v)
  }

  /** Every event of a batch gets the calls it should, whatever the handlers do. */
  lemma {:induction false} ProcessServes(u: Unit, batch: seq<Event>, scripts: seq<Script>)
    requires Inv(u) && |batch| == |scripts| && BatchOk(u, batch, Budget(scripts))
    ensures ServesAll(u, batch, scripts, Process(u, batch, scripts).1, Process(u, batch, scripts).0)
    decreases |batch|
  {
    hide Inv, Handle, Grows, Cost, Serves;
    if batch != [] {
      BatchTail(u, batch, Budget(scripts));
      HandleGrows(u, batch[0], scripts[0]);
      HandleServes(u, batch[0], scripts[0]);
      var s := Handle(u, batch[0], scripts[0]);
      BatchGrows(u, s.u, batch[1..], Cost(scripts[0]), Budget(scripts[1..]));
      ProcessServes(s.u, batch[1..], scripts[1..]);
      var rest := Process(s.u, batch[1..], scripts[1..]);
      var calls, k := s.calls + rest.1, |s.calls|;
      assert calls[..k] == s.calls && calls[k..] == rest.1;
    }
  }

  // ----- output events are not verified again --------------------------------

  /** Whether `op` changes the sequence number of slot `i`. */
  predicate Bumps(u: Unit, op: Op, i: nat) {
    match op
    case DestroyOp(o) => o in u.objs && u.objs[o].epslot == Some(i)
    case DetachOp(o, ok) => o in u.objs && u.objs[o].epslot == Some(i) && ok
    case ApplyOp(o, _) => o in u.objs && u.objs[o].epslot == Some(i) && u.objs[o].oldEvents != u.objs[o].newEvents
    case AttachOp(o, _) =>
      && o in u.objs && u.objs[o].netfd >= 0
      && (if u.objs[o].epslot.Some? then u.objs[o].epslot == Some(i) && u.objs[o].oldEvents != u.objs[o].newEvents
          else u.free != [] && u.free[0] == i)
    case _ => false
  }

  predicate BumpedBy(u: Unit, ops: seq<Op>, i: nat)
    requires Inv(u)
    decreases |ops|
  {
    ops != [] && (Bumps(u, ops[0], i) || (StepInv(u, ops[0]); BumpedBy(Step(u, ops[0]), ops[1..], i)))
  }

  lemma ApplyBump(u: Unit, o: nat, ok: bool, i: nat)
    requires Inv(u) && i < |u.slots| && o in u.objs
    ensures |Apply(u, o, ok).slots| == |u.slots|
    ensures Apply(u, o, ok).slots[i].gen != u.slots[i].gen <==>
            u.objs[o].epslot == Some(i) && u.objs[o].oldEvents != u.objs[o].newEvents
  {
    hide IssuedOk;
  }

  lemma AttachBump(u: Unit, o: nat, ok: bool, i: nat)
    requires Inv(u) && i < |u.slots| && o in u.objs
    ensures |Attach(u, o, ok).slots| == |u.slots| &&
            (Attach(u, o, ok).slots[i].gen != u.slots[i].gen <==> Bumps(u, AttachOp(o, ok), i))
  {
    hide Inv, Apply;
    FirstFree(u);
    if u.objs[o].epslot.Some? { ApplyBump(u, o, ok, i); }
  }

  lemma FirstFree(u: Unit)
    requires Inv(u)
    ensures u.free != [] ==> u.free[0] < |u.slots|
  {
  }

  lemma StepBump(u: Unit, op: Op, i: nat)
    requires Inv(u) && i < |u.slots|
    ensures |Step(u, op).slots| == |u.slots| && (Step(u, op).slots[i].gen != u.slots[i].gen <==> Bumps(u, op, i))
  {
    hide Inv, Apply, Attach;
    match op {
      case AttachOp(o, ok) => if o in u.objs { AttachBump(u, o, ok, i); }
      case ApplyOp(o, ok) => if o in u.objs { ApplyBump(u, o, ok, i); }
      case DestroyOp(o) => if o in u.objs && u.objs[o].epslot.Some? { OwnSlot(u, o); }
      case DetachOp(o, ok) => if o in u.objs && u.objs[o].epslot.Some? { OwnSlot(u, o); }
      case _ =>
    }
  }

  lemma {:induction false} RunBump(u: Unit, ops: seq<Op>, i: nat)
    requires Inv(u) && i < |u.slots|
    ensures |Run(u, ops).slots| == |u.slots| && (Run(u, ops).slots[i].gen != u.slots[i].gen <==> BumpedBy(u, ops, i))
    decreases |ops|
  {
    hide Inv, Step, Bumps;
    if ops != [] {
      StepInv(u, ops[0]);
      StepBump(u, ops[0], i);
      StepGrows(u, ops[0]);
      RunBump(Step(u, ops[0]), ops[1..], i);
      RunGrows(Step(u, ops[0]), ops[1..]);
      assert Run(u, ops) == Run(Step(u, ops[0]), ops[1..]);
    }
  }

  /** OutputNotify is called for the latest id of its slot exactly when the input handler of the same event did not bump
      that slot. */
  lemma OutputLatest(u: Unit, ev: Event, sc: Script)
    requires Inv(u) && Outstanding(u, ev, 0)
    ensures forall c :: c in Handle(u, ev, sc).calls && c.kind == Output ==>
      && var p := u.slots[ev.slot].poller;
         p in u.objs && Inv(Enable(u, p, u.objs[p].oldEvents)) && ev.slot < |c.at.slots|
         && (c.at.slots[ev.slot].gen == ev.gen <==>
              !ev.input || !BumpedBy(Enable(u, p, u.objs[p].oldEvents), sc.onInput.ops, ev.slot))
  {
    hide Inv, Run, Verified, Apply, BumpedBy;
    if Verified(u, ev) {
      VerifiedOwner(u, ev, 0);
      var p := u.slots[ev.slot].poller;
      var u1 := Enable(u, p, u.objs[p].oldEvents);
      InvPut(u, p, u1.objs[p]);
      RunBump(u1, sc.onInput.ops, ev.slot);
    }
  }

  /** A unit with one slot and one object attached to it. */
  function OneAttached(): (u: Unit)
    ensures Inv(u)
  {
    Unit([Slot(1, 1)], [], 1, map[1 := Object(5, Events(true, true), Events(true, true), Some(0))], map[(0, 1) := 1], 2)
  }

  /** An input handler that detaches and attaches again: the same event then calls OutputNotify for an outdated id. */
  lemma StaleOutput()
    ensures var ev := Event(0, 1, true, true, false);
            var again := Reaction([DetachOp(1, true), AttachOp(1, true)], POLLER_SUCC);
            var calls := Handle(OneAttached(), ev, Script(again, again, again, true)).calls;
            |calls| == 2 && calls[1].kind == Output && |calls[1].at.slots| == 1 && calls[1].at.slots[0].gen == 3
  {
    hide Inv, Apply;
    var u, ev, ops := OneAttached(), Event(0, 1, true, true, false), [DetachOp(1, true), AttachOp(1, true)];
    var u1 := Enable(u, 1, Events(true, true));
    assert u1 == u;
    var d := Step(u, ops[0]);
    StepInv(u, ops[0]);
    assert d.slots == [Slot(2, 0)] && d.free == [0] && 1 in d.objs && d.objs[1].netfd == 5 && d.objs[1].epslot == None;
    StepInv(d, ops[1]);
    var a := Step(d, ops[1]);
    assert ops[1..] == [ops[1]] && ops[1..][1..] == [];
    assert Run(d, ops[1..]) == Run(a, []) == a;
    assert Run(u, ops) == a;
    assert a.slots == [Slot(3, 1)];
  }

  /** After any run: the free list is acyclic, used and free slots partition the table, and every used slot has one
      owner. */
  lemma SlotsConserved(max: nat, ops: seq<Op>)
    ensures Inv(Initial(max))
    ensures var v := Run(Initial(max), ops);
            && |v.slots| == max && v.used + |v.free| == max && Distinct(v.free)
            && (forall i :: 0 <= i < max ==> (i in v.free <==> v.slots[i].poller == 0))
            && (forall i :: 0 <= i < max && i !in v.free ==>
                 v.slots[i].poller in v.objs && v.objs[v.slots[i].poller].epslot == Some(i))
            && (forall o, i :: o in v.objs && v.objs[o].epslot == Some(i) ==> i < max && v.slots[i].poller == o)
  {
    hide Run, IssuedOk;
    InitialInv(max);
    RunGrows(Initial(max), ops);
  }
}

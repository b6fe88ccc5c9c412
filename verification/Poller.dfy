/**
 CPollerUnit and CPollerObject: the slot table, its free list and the event
 loop, proved against the state machine of PollerModel.
 */
module Poller {
  import opened Basics
  import opened PollerModel

  /** A slot of the table: 32-bit sequence number, owner (0 for none), next free slot (-1 for none). */
  datatype EpollSlot = EpollSlot(seqno: nat, poller: nat, freeList: int)

  /** What epoll_wait reports: the 64-bit id and the event bits. */
  datatype EpollEvent = EpollEvent(data: nat, input: bool, output: bool, hangup: bool)

  function DataSlot(data: nat): nat { data % SEQ_RANGE }
  function DataSeq(data: nat): nat { data / SEQ_RANGE }
  function EventId(seqno: nat, slot: nat): nat { seqno * SEQ_RANGE + slot }

  /** The id of a slot gives back its sequence number and its index. */
  lemma IdRoundTrip(seqno: nat, slot: nat)
    requires slot < SEQ_RANGE
    ensures DataSlot(EventId(seqno, slot)) == slot && DataSeq(EventId(seqno, slot)) == seqno
  {
  }

  /** `raw` is the event `ev` as the kernel reports it. */
  ghost predicate Reports(raw: EpollEvent, ev: Event) {
    raw == EpollEvent(EventId(ev.gen % SEQ_RANGE, ev.slot), ev.input, ev.output, ev.hangup)
  }

  function FreeAt(free: seq<nat>, k: nat): int { if k < |free| then free[k] else -1 }

  /** The free list, linked from `head`, is `free`. */
  ghost predicate Chained(table: seq<EpollSlot>, head: int, free: seq<nat>) {
    && head == FreeAt(free, 0)
    && forall k: nat :: k < |free| ==> free[k] < |table| && table[free[k]].freeList == FreeAt(free, k + 1)
  }

  ghost predicate SameSlots(table: seq<EpollSlot>, slots: seq<Slot>) {
    |table| == |slots| && forall i :: 0 <= i < |table| ==>
        table[i].seqno == slots[i].gen % SEQ_RANGE && table[i].poller == slots[i].poller
  }

  /** The 32-bit sequence number follows the generation. */
  lemma NextSeq(g: nat)
    ensures (g % SEQ_RANGE + 1) % SEQ_RANGE == (g + 1) % SEQ_RANGE
  {
  }

  lemma SlotWritten(t: seq<EpollSlot>, t': seq<EpollSlot>, slots: seq<Slot>, i: nat, gen: nat, poller: nat)
    requires SameSlots(t, slots) && i < |t| == |t'| && t' == t[i := t'[i]]
    requires t'[i].seqno == gen % SEQ_RANGE && t'[i].poller == poller
    ensures SameSlots(t', slots[i := Slot(gen, poller)])
  {
  }

  lemma SlotAt(t: seq<EpollSlot>, slots: seq<Slot>, i: nat)
    requires SameSlots(t, slots) && i < |slots|
    ensures i < |t| && t[i].seqno == slots[i].gen % SEQ_RANGE && t[i].poller == slots[i].poller
  {
  }

  /** Writing slots outside the free list keeps it. */
  lemma ChainedFrame(t: seq<EpollSlot>, t': seq<EpollSlot>, head: int, free: seq<nat>)
    requires Chained(t, head, free) && |t'| == |t| && forall k :: 0 <= k < |free| && free[k] < |t| ==>
             t'[free[k]].freeList == t[free[k]].freeList
    ensures Chained(t', head, free)
  {
  }

  lemma ChainedTail(t: seq<EpollSlot>, head: int, free: seq<nat>)
    requires Chained(t, head, free) && free != []
    ensures free[0] < |t| && Chained(t, t[free[0]].freeList, free[1..])
  {
    assert free[0] < |t| && t[free[0]].freeList == FreeAt(free, 1) == FreeAt(free[1..], 0);
    var f := free[1..];
    forall k: nat | k < |f| ensures f[k] < |t| && t[f[k]].freeList == FreeAt(f, k + 1) {
      var n := k + 1;
      assert free[n] < |t| && t[free[n]].freeList == FreeAt(free, n + 1) && f[k] == free[n];
    }
  }

  lemma ChainedCons(t: seq<EpollSlot>, head: int, free: seq<nat>, i: nat)
    requires Chained(t, head, free) && i < |t| && t[i].freeList == head
    ensures Chained(t, i, [i] + free)
  {
    var f := [i] + free;
    forall k: nat | k < |f| ensures f[k] < |t| && t[f[k]].freeList == FreeAt(f, k + 1) {
      if k > 0 {
        var n: nat := k - 1;
        assert free[n] < |t| && t[free[n]].freeList == FreeAt(free, n + 1) && f[k] == free[n];
      }
    }
  }

  lemma FirstChain(t: seq<EpollSlot>)
    requires t != [] && forall k :: 0 <= k < |t| ==> t[k] == EpollSlot(0, 0, if k < |t| - 1 then k + 1 else -1)
    ensures Chained(t, 0, Initial(|t|).free) && SameSlots(t, Initial(|t|).slots)
  {
  }

  class PollerUnit {
    const maxPollers: nat
    const pollerTable: array<EpollSlot>
    var freeSlotList: int
    var usedPollers: int
    var objs: map<nat, Object>
    var nextId: nat
    ghost var model: Unit

    /** The fields are those of the model. */
    ghost predicate Mirrors()
      reads this, pollerTable
    {
      && maxPollers == pollerTable.Length < SEQ_RANGE
      && SameSlots(pollerTable[..], model.slots) && Chained(pollerTable[..], freeSlotList, model.free)
      && usedPollers == model.used && objs == model.objs && nextId == model.nextId
    }

    ghost predicate Valid()
      reads this, pollerTable
    {
      Mirrors() && Inv(model)
    }

    /** InitializePollerUnit. */
    constructor (max: nat)
      requires 0 < max < 0x8000_0000
      ensures Valid() && model == Initial(max) && fresh(pollerTable)
    {
      hide Chained, SameSlots, Inv;
      maxPollers := max;
      pollerTable := new EpollSlot[max](i => EpollSlot(0, 0, -1));
      freeSlotList, usedPollers, objs, nextId := 0, 0, map[], 1;
      model := Initial(max);
      new;
      for i := 0 to max - 1
        invariant forall k :: 0 <= k < max ==> pollerTable[k] == EpollSlot(0, 0, if k < i then k + 1 else -1)
        modifies pollerTable
      {
        pollerTable[i] := pollerTable[i].(freeList := i + 1);
      }
      InitialInv(max);
      FirstChain(pollerTable[..]);
    }

    /** AllocEpollSlot, and the back pointer AttachPoller sets. */
    method TakeEpollSlot(o: nat) returns (i: nat)
      requires Mirrors() && o in objs && model.free != [] && Distinct(model.free)
      modifies this, pollerTable
      ensures Mirrors() && i == old(model.free)[0] < |model.slots| && model == TakeSlot(old(model), o)
    {
      hide Distinct;
      ghost var free, t0 := model.free, pollerTable[..];
      i := freeSlotList;
      ChainedTail(pollerTable[..], freeSlotList, free);
      usedPollers := usedPollers + 1;
      freeSlotList := pollerTable[i].freeList;
      pollerTable[i] := pollerTable[i].(freeList := -1, poller := o);
      HeadOnce(free);
      ChainedFrame(t0, pollerTable[..], freeSlotList, free[1..]);
      objs := objs[o := objs[o].(epslot := Some(i))];
      model := TakeSlot(model, o);
    }

    /** FreeEpollSlot. */
    method FreeEpollSlot(i: nat)
      requires Mirrors() && i < |model.slots| && i !in model.free
      modifies this, pollerTable
      ensures Mirrors() && model == FreeSlot(old(model), i)
    {
      hide SameSlots, Chained;
      ghost var t0, gen := pollerTable[..], model.slots[i].gen;
      SlotAt(t0, model.slots, i);
      NextSeq(gen);
      pollerTable[i] := EpollSlot((pollerTable[i].seqno + 1) % SEQ_RANGE, 0, freeSlotList);
      SlotWritten(t0, pollerTable[..], model.slots, i, gen + 1, 0);
      ChainedFrame(t0, pollerTable[..], freeSlotList, model.free);
      ChainedCons(pollerTable[..], freeSlotList, model.free, i);
      freeSlotList := i;
      usedPollers := usedPollers - 1;
      model := FreeSlot(model, i);
    }

    /** ++seq, and the id for epoll_ctl. */
    method IssueId(o: nat, i: nat) returns (id: nat)
      requires Mirrors() && i < |model.slots|
      modifies this, pollerTable
      ensures Mirrors() && model == Issue(old(model), o, i) && id == EventId(model.slots[i].gen % SEQ_RANGE, i)
    {
      hide SameSlots, Chained;
      ghost var t0, gen := pollerTable[..], model.slots[i].gen;
      SlotAt(t0, model.slots, i);
      NextSeq(gen);
      pollerTable[i] := pollerTable[i].(seqno := (pollerTable[i].seqno + 1) % SEQ_RANGE);
      SlotWritten(t0, pollerTable[..], model.slots, i, gen + 1, model.slots[i].poller);
      ChainedFrame(t0, pollerTable[..], freeSlotList, model.free);
      id := EventId(pollerTable[i].seqno, i);
      model := Issue(model, o, i);
    }

    method PutObject(o: nat, x: Object)
      requires Mirrors()
      modifies this
      ensures Mirrors() && model == Put(old(model), o, x)
    {
      objs := objs[o := x];
      model := Put(model, o, x);
    }

    /** AttachPoller; `ok` is the outcome of epoll_ctl. */
    method AttachPoller(o: nat, ok: bool) returns (ret: int)
      requires Valid() && o in objs
      modifies this, pollerTable
      ensures Valid() && model == Attach(old(model), o, ok)
      ensures ret == 0 <==>
              old(objs[o].netfd >= 0 &&
                  if objs[o].epslot.Some? then ok || objs[o].oldEvents == objs[o].newEvents
                  else model.free != [] && ok)
      ensures old(objs[o].netfd < 0 || (objs[o].epslot.None? && model.free == [])) ==> model == old(model)
      ensures old(objs[o].netfd >= 0 && objs[o].epslot.Some?) ==> Applied(old(model), model, o, ok)
      ensures old(objs[o].netfd >= 0 && objs[o].epslot.None? && model.free != []) ==>
              Attached(old(model), model, o, ok)
    {
      hide Inv;
      AttachInv(model, o, ok);
      AttachApplied(model, o, ok);
      if objs[o].netfd < 0 { return -1; }
      if objs[o].epslot.None? {
        if freeSlotList == -1 { return -1; }
        FreeDistinct(model);
        var i := TakeEpollSlot(o);
        var id := IssueId(o, i);
        if !ok { return -1; }
        PutObject(o, objs[o].(oldEvents := objs[o].newEvents));
        return 0;
      }
      ret := ApplyEvents(o, ok);
    }

    /** ApplyEvents. */
    method ApplyEvents(o: nat, ok: bool) returns (ret: int)
      requires Valid() && o in objs
      modifies this, pollerTable
      ensures Valid() && model == Apply(old(model), o, ok)
      ensures ret == 0 <==> ok || old(objs[o].epslot.None? || objs[o].oldEvents == objs[o].newEvents)
      ensures o in objs && objs[o].newEvents == old(objs[o].newEvents)
      ensures old(objs[o].epslot.Some?) ==> Applied(old(model), model, o, ok)
      ensures old(objs[o].epslot.None?) ==> model == old(model)
    {
      hide Inv;
      if objs[o].epslot.Some? { ApplyApplied(model, o, ok); }
      ApplyInv(model, o, ok);
      if objs[o].epslot.None? || objs[o].oldEvents == objs[o].newEvents { return 0; }
      OwnSlot(model, o);
      var id := IssueId(o, objs[o].epslot.value);
      if !ok { return -1; }
      PutObject(o, objs[o].(oldEvents := objs[o].newEvents));
      ret := 0;
    }

    /** DetachPoller. */
    method DetachPoller(o: nat, ok: bool) returns (ret: int)
      requires Valid() && o in objs
      modifies this, pollerTable
      ensures Valid() && model == Detach(old(model), o, ok)
      ensures ret == 0 <==> ok || old(objs[o].epslot.None?)
      ensures ret == 0 ==> o in objs && objs[o].epslot.None?
      ensures ret != 0 ==> model == old(model)
      ensures ret == 0 && old(objs[o].epslot.Some?) ==>
              var i := old(objs[o].epslot.value);
              && i < |old(model).slots| && model.slots == old(model).slots[i := Slot(old(model).slots[i].gen + 1, 0)]
              && model.free == [i] + old(model).free && model.used == old(model).used - 1
              && objs == old(objs)[o := old(objs[o]).(oldEvents := old(objs[o]).newEvents, epslot := None)]
    {
      hide Inv;
      if objs[o].epslot.None? { return 0; }
      if !ok { return -1; }
      FreeInv(model, o, objs[o].epslot.value);
      UsedSlot(model, o);
      FreeEpollSlot(objs[o].epslot.value);
      PutObject(o, objs[o].(oldEvents := objs[o].newEvents, epslot := None));
      ret := 0;
    }

    /** ~CPollerObject. */
    method DeleteObject(o: nat)
      requires Valid() && o in objs
      modifies this, pollerTable
      ensures Valid() && model == Destroy(old(model), o) && objs == old(objs) - {o}
    {
      hide Inv;
      StepInv(model, DestroyOp(o));
      if objs[o].epslot.Some? {
        UsedSlot(model, o);
        FreeEpollSlot(objs[o].epslot.value);
      }
      objs := objs - {o};
      model := model.(objs := model.objs - {o});
    }

    /** One operation of a handler. */
    method Perform(op: Op)
      requires Valid()
      modifies this, pollerTable
      ensures Valid() && model == Step(old(model), op)
    {
      hide Inv;
      StepInv(model, op);
      var ret;
      match op {
        case CreateOp(netfd) =>
          PutObject(nextId, Object(netfd, Events(false, false), Events(false, false), None));
          nextId := nextId + 1;
          model := model.(nextId := model.nextId + 1);
        case DestroyOp(o) => if o in objs { DeleteObject(o); }
        case AttachOp(o, ok) => if o in objs { ret := AttachPoller(o, ok); }
        case DetachOp(o, ok) => if o in objs { ret := DetachPoller(o, ok); }
        case ApplyOp(o, ok) => if o in objs { ret := ApplyEvents(o, ok); }
        case EnableOp(o, ev) => if o in objs { PutObject(o, objs[o].(newEvents := ev)); }
      }
    }

    /** A handler: its operations, one after the other. */
    method React(ops: seq<Op>)
      requires Valid()
      modifies this, pollerTable
      ensures Valid() && model == Run(old(model), ops)
    {
      hide Inv, Step, Mirrors;
      for k := 0 to |ops|
        invariant Valid() && Run(old(model), ops) == Run(model, ops[k..])
      {
        assert ops[k..][0] == ops[k] && ops[k..][1..] == ops[k + 1..];
        Perform(ops[k]);
      }
      assert ops[|ops|..] == [];
    }

    /** VerifyEvents. */
    method VerifyEvents(raw: EpollEvent, ghost ev: Event) returns (ok: bool)
      requires Valid() && Reports(raw, ev) && Outstanding(model, ev, 0)
      ensures ok == Verified(model, ev)
    {
      hide Inv, Chained;
      IdRoundTrip(ev.gen % SEQ_RANGE, ev.slot);
      var idx := DataSlot(raw.data);
      ok := idx < maxPollers && DataSeq(raw.data) == pollerTable[idx].seqno;
    }

    /** The body of the loop of ProcessPollerEvents. */
    method HandleEvent(raw: EpollEvent, sc: Script, ghost ev: Event) returns (ghost calls: seq<Call>)
      requires Valid() && Reports(raw, ev) && Outstanding(model, ev, 0)
      modifies this, pollerTable
      ensures Valid() && model == Handle(old(model), ev, sc).u && calls == Handle(old(model), ev, sc).calls
      ensures Serves(old(model), ev, sc, calls, model)
    {
      hide Inv, Chained, Run, Verified, Apply, Serves;
      HandleGrows(model, ev, sc);
      HandleServes(model, ev, sc);
      calls := [];
      var verified := VerifyEvents(raw, ev);
      if !verified { return; }
      IdRoundTrip(ev.gen % SEQ_RANGE, ev.slot);
      VerifiedOwner(model, ev, 0);
      var s := DataSlot(raw.data);
      var p := pollerTable[s].poller;
      NotNull(model, p);
      InvPut(model, p, objs[p].(newEvents := objs[p].oldEvents));
      PutObject(p, objs[p].(newEvents := objs[p].oldEvents));
      if raw.hangup {
        calls := [Call(Hangup, p, ev, model)];
        React(sc.onHangup.ops);
        return;
      }
      if raw.input {
        calls := [Call(Input, p, ev, model)];
        RunGrows(model, sc.onInput.ops);
        React(sc.onInput.ops);
        if pollerTable[s].poller != p || sc.onInput.ret != POLLER_SUCC { return; }
      }
      if raw.output {
        calls := calls + [Call(Output, p, ev, model)];
        RunGrows(model, sc.onOutput.ops);
        React(sc.onOutput.ops);
        if pollerTable[s].poller != p || sc.onOutput.ret != POLLER_SUCC { return; }
      }
      Owner(model, s);
      var ret := ApplyEvents(p, sc.applyOk);
    }

    /** ProcessPollerEvents: the batch `raws` is the report of the issued ids `batch`. */
    method ProcessPollerEvents(raws: seq<EpollEvent>, scripts: seq<Script>, ghost batch: seq<Event>)
      returns (ghost calls: seq<Call>)
      requires Valid() && |raws| == |scripts| == |batch| && (forall k :: 0 <= k < |raws| ==> Reports(raws[k], batch[k]))
      requires BatchOk(model, batch, Budget(scripts))
      modifies this, pollerTable
      ensures Valid() && model == Process(old(model), batch, scripts).0 &&
              calls == Process(old(model), batch, scripts).1
      ensures AllGood(calls) && ServesAll(old(model), batch, scripts, calls, model)
    {
      hide Inv, Mirrors, Handle, Grows, Good, Cost, Outstanding, ServesAll;
      DispatchGood(model, batch, scripts);
      ProcessServes(model, batch, scripts);
      calls := [];
      for i := 0 to |raws|
        invariant Valid() && BatchOk(model, batch[i..], Budget(scripts[i..]))
        invariant var r, w := Process(old(model), batch, scripts), Process(model, batch[i..], scripts[i..]);
                  r.0 == w.0 && r.1 == calls + w.1
      {
        ghost var rest, todo := batch[i..], scripts[i..];
        assert rest[1..] == batch[i + 1..] && todo[1..] == scripts[i + 1..] && rest[0] == batch[i] &&
            todo[0] == scripts[i];
        BatchTail(model, rest, Budget(todo));
        HandleGrows(model, rest[0], todo[0]);
        BatchGrows(model, Handle(model, rest[0], todo[0]).u, rest[1..], Cost(todo[0]), Budget(todo[1..]));
        ghost var more;
        more := HandleEvent(raws[i], scripts[i], batch[i]);
        calls := calls + more;
      }
    }
  }

  lemma HeadOnce(s: seq<nat>)
    requires Distinct(s) && s != []
    ensures forall k :: 0 <= k < |s| - 1 ==> s[1..][k] != s[0]
  {
  }

  lemma FreeDistinct(u: Unit)
    requires Inv(u)
    ensures Distinct(u.free) && forall k :: 0 <= k < |u.free| ==> u.free[k] < |u.slots|
  {
  }

  lemma UsedSlot(u: Unit, o: nat)
    requires Inv(u) && o in u.objs && u.objs[o].epslot.Some?
    ensures u.objs[o].epslot.value < |u.slots| && u.objs[o].epslot.value !in u.free
  {
    NotNull(u, o);
  }
}

/**
 CSingleton: Instance and Destroy as steps of any number of threads over the
 shared pointer and its mutex, interleaved in any order.
 */
module Singleton {
  import opened Basics

  /** Where a thread stands. */
  datatype PC =
    | Idle
    | InstanceTest | InstanceLock | InstanceRetest | InstanceCreate | InstanceStore(obj: nat) | InstanceUnlock
    | InstanceReturn
    | DestroyTest | DestroyLock | DestroyRetest | DestroyDelete | DestroyClear | DestroyUnlock

  /** The pointer (0 for none), the owner of the mutex, the threads; the objects created so far are 1 to `created`. */
  datatype State = State(
    instance: nat,
    owner: Option<nat>,
    threads: map<nat, PC>,
    created: nat,
    destroyed: seq<nat>,
    results: seq<nat>)

  function At(s: State, t: nat): PC { if t in s.threads then s.threads[t] else Idle }

  /** A thread that is idle calls Instance or Destroy; any other takes its next step. */
  datatype Action = Action(thread: nat, destroy: bool)

  const INITIAL := State(0, None, map[], 0, [], [])

  function Go(s: State, t: nat, pc: PC): State { s.(threads := s.threads[t := pc]) }

  /** One step of one thread; waiting for the mutex changes nothing. */
  function Step(s: State, a: Action): State {
    var t := a.thread;
    match At(s, t)
    case Idle => Go(s, t, if a.destroy then DestroyTest else InstanceTest)
    case InstanceTest => Go(s, t, if s.instance == 0 then InstanceLock else InstanceReturn)
    case InstanceLock => if s.owner.None? then Go(s, t, InstanceRetest).(owner := Some(t)) else s
    case InstanceRetest => Go(s, t, if s.instance == 0 then InstanceCreate else InstanceUnlock)
    case InstanceCreate => Go(s, t, InstanceStore(s.created + 1)).(created := s.created + 1)
    case InstanceStore(obj) => Go(s, t, InstanceUnlock).(instance := obj)
    case InstanceUnlock => Go(s, t, InstanceReturn).(owner := None)
    case InstanceReturn => Go(s, t, Idle).(results := s.results + [s.instance])
    case DestroyTest => Go(s, t, if s.instance != 0 then DestroyLock else Idle)
    case DestroyLock => if s.owner.None? then Go(s, t, DestroyRetest).(owner := Some(t)) else s
    case DestroyRetest => Go(s, t, if s.instance != 0 then DestroyDelete else DestroyUnlock)
    case DestroyDelete => Go(s, t, DestroyClear).(destroyed := s.destroyed + [s.instance])
    case DestroyClear => Go(s, t, DestroyUnlock).(instance := 0)
    case DestroyUnlock => Go(s, t, Idle).(owner := None)
  }

  function Run(s: State, run: seq<Action>): State
    decreases |run|
  {
    if run == [] then s else Run(Step(s, run[0]), run[1..])
  }

  // ----- every interleaving --------------------------------------------------

  predicate Critical(pc: PC) {
    pc.InstanceRetest? || pc.InstanceCreate? || pc.InstanceStore? || pc.InstanceUnlock?
    || pc.DestroyRetest? || pc.DestroyDelete? || pc.DestroyClear? || pc.DestroyUnlock?
  }

  /** Created and not destroyed. */
  ghost predicate Live(s: State, x: nat) { 0 < x <= s.created && x !in s.destroyed }

  /** The one object that may be live: held by the owner of the mutex before it is stored, gone before it is cleared,
      the shared one otherwise. */
  function Holder(s: State): nat {
    if s.owner.None? then s.instance
    else match At(s, s.owner.value)
      case InstanceStore(obj) => obj
      case DestroyClear => 0
      case _ => s.instance
  }

  /** Whoever is in a critical section owns the mutex, and its owner is in one. */
  ghost predicate MutexOk(s: State) {
    && (forall t :: t in s.threads && Critical(s.threads[t]) ==> s.owner == Some(t))
    && (s.owner.Some? ==> Critical(At(s, s.owner.value)))
  }

  /** What the owner of the mutex relies on. */
  ghost predicate OwnerOk(s: State) {
    s.owner.Some? ==>
      match At(s, s.owner.value)
      case InstanceCreate => s.instance == 0
      case InstanceStore(obj) => s.instance == 0 && obj != 0
      case DestroyDelete => s.instance != 0
      case DestroyClear => s.instance in s.destroyed
      case _ => true
  }

  /** At most one object is live, and nothing was destroyed twice. */
  ghost predicate ObjectsOk(s: State) {
    && (forall x :: Live(s, x) <==> x == Holder(s) && x != 0)
    && Distinct(s.destroyed) && (forall i :: 0 <= i < |s.destroyed| ==> 0 < s.destroyed[i] <= s.created)
  }

  ghost predicate Inv(s: State) { MutexOk(s) && OwnerOk(s) && ObjectsOk(s) }

  lemma StepMutex(s: State, a: Action)
    requires MutexOk(s)
    ensures MutexOk(Step(s, a))
  {
  }

  lemma StepOwner(s: State, a: Action)
    requires MutexOk(s) && OwnerOk(s)
    ensures OwnerOk(Step(s, a))
  {
  }

  /** A step that creates and destroys nothing. */
  lemma SameObjects(s: State, v: State)
    requires ObjectsOk(s) && v.created == s.created && v.destroyed == s.destroyed && Holder(v) == Holder(s)
    ensures ObjectsOk(v)
  {
    hide Holder;
    assert forall x :: Live(v, x) <==> Live(s, x);
  }

  lemma Creates(s: State, t: nat)
    requires Inv(s) && At(s, t).InstanceCreate?
    ensures ObjectsOk(Step(s, Action(t, false))) && ObjectsOk(Step(s, Action(t, true)))
  {
    var v := Step(s, Action(t, false));
    assert Holder(s) == 0 && Holder(v) == s.created + 1;
    assert forall x :: !Live(s, x);
    assert forall i :: 0 <= i < |s.destroyed| ==> s.destroyed[i] <= s.created;
    forall x ensures Live(v, x) <==> x == s.created + 1 {
      if x != s.created + 1 { assert Live(v, x) <==> Live(s, x); }
    }
  }

  lemma Deletes(s: State, t: nat)
    requires Inv(s) && At(s, t).DestroyDelete?
    ensures ObjectsOk(Step(s, Action(t, false))) && ObjectsOk(Step(s, Action(t, true)))
  {
    var v := Step(s, Action(t, false));
    assert Live(s, s.instance);
    assert Holder(v) == 0;
    assert forall x :: x in v.destroyed <==> x in s.destroyed || x == s.instance;
    forall x ensures !Live(v, x) {
      assert Live(v, x) ==> Live(s, x);
    }
  }

  lemma HolderKept(s: State, a: Action)
    requires MutexOk(s) && OwnerOk(s) && !At(s, a.thread).InstanceCreate? && !At(s, a.thread).DestroyDelete?
    ensures Holder(Step(s, a)) == Holder(s)
  {
  }

  lemma StepInv(s: State, a: Action)
    requires Inv(s)
    ensures Inv(Step(s, a))
  {
    hide MutexOk, OwnerOk, ObjectsOk;
    StepMutex(s, a);
    StepOwner(s, a);
    if At(s, a.thread).InstanceCreate? {
      Creates(s, a.thread);
    } else if At(s, a.thread).DestroyDelete? {
      Deletes(s, a.thread);
    } else {
      HolderKept(s, a);
      SameCounts(s, a);
      SameObjects(s, Step(s, a));
    }
  }

  lemma SameCounts(s: State, a: Action)
    requires !At(s, a.thread).InstanceCreate? && !At(s, a.thread).DestroyDelete?
    ensures Step(s, a).created == s.created && Step(s, a).destroyed == s.destroyed
  {
  }

  lemma {:induction false} RunInv(s: State, run: seq<Action>)
    requires Inv(s)
    ensures Inv(Run(s, run))
    decreases |run|
  {
    hide Inv, Step;
    if run != [] {
      StepInv(s, run[0]);
      RunInv(Step(s, run[0]), run[1..]);
    }
  }

  /** In every interleaving at most one object is live at a time, and none is destroyed twice. */
  lemma OneLive(run: seq<Action>)
    ensures var s := Run(INITIAL, run);
            (forall x, y :: Live(s, x) && Live(s, y) ==> x == y) && Distinct(s.destroyed)
  {
    hide Run, Live, Holder;
    InitialOk();
    RunInv(INITIAL, run);
  }

  lemma InitialOk()
    ensures Inv(INITIAL)
  {
  }

  // ----- without Destroy -----------------------------------------------------

  /** Nobody destroys: one object, once it is stored it stays, and whoever is about to return sees it. */
  ghost predicate NoDestroyInv(s: State) {
    && s.created <= 1 && s.destroyed == [] && s.instance <= s.created
    && (forall t :: t in s.threads ==> !IsDestroy(s.threads[t]) && PastTest(s, s.threads[t]))
    && (forall i :: 0 <= i < |s.results| ==> s.results[i] == 1)
    && (s.created == 1 && s.instance == 0 ==> s.owner.Some? && At(s, s.owner.value) == InstanceStore(1))
  }

  predicate IsDestroy(pc: PC) {
    pc.DestroyTest? || pc.DestroyLock? || pc.DestroyRetest? || pc.DestroyDelete? || pc.DestroyClear? ||
        pc.DestroyUnlock?
  }

  predicate PastTest(s: State, pc: PC) {
    && (pc.InstanceUnlock? || pc.InstanceReturn? ==> s.instance == 1)
    && (pc.InstanceStore? ==> pc.obj == 1 && s.instance == 0 && s.created == 1)
    && (pc.InstanceCreate? ==> s.instance == 0)
  }

  lemma StepNoDestroy(s: State, a: Action)
    requires MutexOk(s) && NoDestroyInv(s) && !a.destroy
    ensures NoDestroyInv(Step(s, a))
  {
    var v, t := Step(s, a), a.thread;
    forall u | u in v.threads ensures !IsDestroy(v.threads[u]) && PastTest(v, v.threads[u]) {
      if u != t { assert u in s.threads && v.threads[u] == s.threads[u]; }
    }
  }

  lemma {:induction false} RunNoDestroy(s: State, run: seq<Action>)
    requires MutexOk(s) && NoDestroyInv(s) && forall i :: 0 <= i < |run| ==> !run[i].destroy
    ensures NoDestroyInv(Run(s, run))
    decreases |run|
  {
    hide MutexOk, NoDestroyInv, Step;
    if run != [] {
      StepMutex(s, run[0]);
      StepNoDestroy(s, run[0]);
      RunNoDestroy(Step(s, run[0]), run[1..]);
    }
  }

  /** If nobody calls Destroy, at most one object is created, and every Instance returns that object. */
  lemma OneObject(run: seq<Action>)
    requires forall i :: 0 <= i < |run| ==> !run[i].destroy
    ensures var s := Run(INITIAL, run); s.created <= 1 && forall i :: 0 <= i < |s.results| ==> s.results[i] == 1
  {
    hide Run, MutexOk;
    InitialNoDestroy();
    RunNoDestroy(INITIAL, run);
  }

  lemma InitialNoDestroy()
    ensures MutexOk(INITIAL) && NoDestroyInv(INITIAL)
  {
  }

  // ----- what Instance returns -----------------------------------------------

  /** The owner of the mutex has deleted the object and not yet cleared the pointer. */
  predicate Deleting(s: State) { s.owner.Some? && At(s, s.owner.value).DestroyClear? }

  /** What a thread that is about to return will return is live exactly if the pointer is set and no thread stands
      between deleting the object and clearing the pointer; set in that window, it points at a destroyed object. */
  lemma ReturnLive(s: State, a: Action)
    requires Inv(s) && At(s, a.thread).InstanceReturn?
    ensures Step(s, a).results == s.results + [s.instance]
    ensures Live(s, s.instance) <==> s.instance != 0 && !Deleting(s)
    ensures s.instance != 0 && Deleting(s) ==> s.instance in s.destroyed
  {
    hide MutexOk;
  }

  /** Every Instance of a run returns an object that is live when it returns. */
  ghost predicate AllLive(s: State, run: seq<Action>)
    decreases |run|
  {
    run == [] ||
    ((At(s, run[0].thread).InstanceReturn? ==> Live(s, s.instance)) && AllLive(Step(s, run[0]), run[1..]))
  }

  /** No Instance of a run returns while the pointer is not set, or an object is being destroyed. */
  predicate NoneInWindow(s: State, run: seq<Action>)
    decreases |run|
  {
    run == [] ||
    ((At(s, run[0].thread).InstanceReturn? ==> s.instance != 0 && !Deleting(s)) &&
        NoneInWindow(Step(s, run[0]), run[1..]))
  }

  lemma {:induction false} AllLiveFrom(s: State, run: seq<Action>)
    requires Inv(s)
    ensures AllLive(s, run) <==> NoneInWindow(s, run)
    decreases |run|
  {
    hide Inv, Step, Live, Deleting;
    if run != [] {
      StepInv(s, run[0]);
      if At(s, run[0].thread).InstanceReturn? { ReturnLive(s, run[0]); }
      AllLiveFrom(Step(s, run[0]), run[1..]);
    }
  }

  /** In every interleaving: all calls return live objects exactly if none returns in that window or without a
      pointer. */
  lemma AllLiveIff(run: seq<Action>)
    ensures AllLive(INITIAL, run) <==> NoneInWindow(INITIAL, run)
  {
    hide AllLive, NoneInWindow;
    InitialOk();
    AllLiveFrom(INITIAL, run);
  }

  function Again(s: State, a: Action, n: nat): State
    decreases n
  {
    if n == 0 then s else Again(Step(s, a), a, n - 1)
  }

  lemma Twice(s: State, a: Action, n: nat, v: State)
    requires n >= 2 && Step(Step(s, a), a) == v
    ensures Again(s, a, n) == Again(v, a, n - 2)
  {
    hide Step;
  }

  const CREATED := State(1, None, map[1 := Idle], 1, [], [1])

  lemma FirstCall()
    ensures Again(INITIAL, Action(1, false), 8) == CREATED
  {
    hide Again;
    var a := Action(1, false);
    var s1 := State(0, None, map[1 := InstanceLock], 0, [], []);
    var s2 := State(0, Some(1), map[1 := InstanceCreate], 0, [], []);
    var s3 := State(1, Some(1), map[1 := InstanceUnlock], 1, [], []);
    Twice(INITIAL, a, 8, s1);
    Twice(s1, a, 6, s2);
    Twice(s2, a, 4, s3);
    Twice(s3, a, 2, CREATED);
    Zero(CREATED, a);
  }

  lemma Zero(s: State, a: Action)
    ensures Again(s, a, 0) == s && Again(s, a, 1) == Step(s, a)
  {
    hide Step;
    assert Again(Step(s, a), a, 0) == Step(s, a);
  }

  const DELETED := State(1, Some(2), map[1 := Idle, 2 := DestroyClear], 1, [1], [1])

  lemma HalfDestroy()
    ensures Again(CREATED, Action(2, true), 5) == DELETED
  {
    hide Again;
    var b := Action(2, true);
    var s5 := State(1, None, map[1 := Idle, 2 := DestroyLock], 1, [], [1]);
    var s6 := State(1, Some(2), map[1 := Idle, 2 := DestroyDelete], 1, [], [1]);
    Twice(CREATED, b, 5, s5);
    Twice(s5, b, 3, s6);
    Zero(s6, b);
  }

  /** With Destroy, a thread may return an object another thread has just destroyed: the unguarded test sees a pointer
      that is not cleared yet. */
  lemma StaleResult()
    ensures var thread1, thread2 := Action(1, false), Action(2, true);
            var s := Again(Again(Again(INITIAL, thread1, 8), thread2, 5), thread1, 3);
            s.results == [1, 1] && s.destroyed == [1]
  {
    hide Again;
    FirstCall();
    HalfDestroy();
    var a := Action(1, false);
    var s8 := State(1, Some(2), map[1 := InstanceReturn, 2 := DestroyClear], 1, [1], [1]);
    Twice(DELETED, a, 3, s8);
    Zero(s8, a);
  }

  const CLEARED := State(0, Some(3), map[1 := Idle, 2 := InstanceReturn, 3 := DestroyUnlock], 1, [1], [1])

  lemma SecondTest()
    ensures Again(CREATED, Action(2, false), 2) == State(1, None, map[1 := Idle, 2 := InstanceReturn], 1, [], [1])
  {
    hide Again;
    var a, v := Action(2, false), State(1, None, map[1 := Idle, 2 := InstanceReturn], 1, [], [1]);
    Twice(CREATED, a, 2, v);
    Zero(v, a);
  }

  lemma WholeDestroy()
    ensures Again(State(1, None, map[1 := Idle, 2 := InstanceReturn], 1, [], [1]), Action(3, true), 6) == CLEARED
  {
    hide Again;
    var b := Action(3, true);
    var s0 := State(1, None, map[1 := Idle, 2 := InstanceReturn], 1, [], [1]);
    var s1 := s0.(threads := s0.threads[3 := DestroyLock]);
    var s2 := s0.(threads := s0.threads[3 := DestroyDelete], owner := Some(3));
    Twice(s0, b, 6, s1);
    Twice(s1, b, 4, s2);
    Twice(s2, b, 2, CLEARED);
    Zero(CLEARED, b);
  }

  /** With Destroy, a thread may also return no object: the pointer was set when it tested it and is read again. */
  lemma NullResult()
    ensures var thread1, thread2, thread3 := Action(1, false), Action(2, false), Action(3, true);
            var s := Again(Again(Again(Again(INITIAL, thread1, 8), thread2, 2), thread3, 6), thread2, 1);
            s.results == [1, 0]
  {
    hide Again;
    FirstCall();
    SecondTest();
    WholeDestroy();
    Zero(CLEARED, Action(2, false));
  }
}

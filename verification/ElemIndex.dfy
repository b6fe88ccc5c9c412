/**
 The element index of CMarkupSTL: an array of records, each holding four
 character offsets and three links, read as a tree of positions.

 `Adjust` is the stackless walk that repairs the index after an edit.  It is
 proved to visit exactly the positions of `Visits`, and `Visits` is proved to
 be what the edit needs: every element after the edited one moves once, every
 ancestor moves its end once, nothing else moves.
 */
module ElemIndex {

  datatype ElemPos = ElemPos(startL: int, startR: int, endL: int, endR: int,
                             parent: nat, child: nat, next: nat)
  {
    predicate IsEmptyElement() { startR == endL + 1 }
    function AdjustStart(n: int): ElemPos { this.(startL := startL + n, startR := startR + n) }
    function AdjustEnd(n: int): ElemPos { this.(endL := endL + n, endR := endR + n) }
    function AdjustBoth(n: int): ElemPos { AdjustStart(n).AdjustEnd(n) }
  }

  const CLEAR := ElemPos(0, 0, 0, 0, 0, 0, 0)

  /** Record 0 stands for the document itself; elements have positive slots. */
  type Slot = s: nat | 0 < s witness 1

  /** The positions of a list of sibling elements, in first-child/next-sibling form. */
  datatype Outline =
    | Nil
    | At(slot: Slot, startL: int, startR: int, endL: int, endR: int, child: Outline, next: Outline)

  function Head(o: Outline): nat { if o.Nil? then 0 else o.slot }

  function Slots(o: Outline): set<nat> {
    match o
    case Nil => {}
    case At(s, _, _, _, _, c, x) => {s} + Slots(c) + Slots(x)
  }

  ghost predicate Distinct(o: Outline) {
    match o
    case Nil => true
    case At(s, _, _, _, _, c, x) =>
      && s !in Slots(c) && s !in Slots(x) && Slots(c) !! Slots(x)
      && Distinct(c) && Distinct(x)
  }

  /** The links of `a` spell the shape of `o`, whose elements have parent `p`. */
  ghost predicate Linked(a: seq<ElemPos>, o: Outline, p: nat) {
    match o
    case Nil => true
    case At(s, _, _, _, _, c, x) =>
      && s < |a| && a[s].parent == p && a[s].child == Head(c) && a[s].next == Head(x)
      && Linked(a, c, s) && Linked(a, x, p)
  }

  /** The offsets of `a` are those of `o`. */
  ghost predicate Placed(a: seq<ElemPos>, o: Outline) {
    match o
    case Nil => true
    case At(s, sl, sr, el, er, c, x) =>
      && s < |a| && a[s].startL == sl && a[s].startR == sr && a[s].endL == el && a[s].endR == er
      && Placed(a, c) && Placed(a, x)
  }

  ghost predicate Indexed(a: seq<ElemPos>, o: Outline, p: nat) { Linked(a, o, p) && Placed(a, o) }

  // ----- paths ---------------------------------------------------------------

  /** An element (with its later siblings) and the chain of its ancestors. */
  datatype Path = Root | Step(node: Outline, up: Path)

  function UpSlot(p: Path): nat { if p.Root? then 0 else Head(p.node) }

  function PathTo(o: Outline, s: nat, up: Path): (p: Path)
    requires s in Slots(o)
    ensures p.Step? && p.node.At? && p.node.slot == s
  {
    if o.slot == s then Step(o, up)
    else if s in Slots(o.child) then PathTo(o.child, s, Step(o, up))
    else PathTo(o.next, s, up)
  }

  /** All slots the walk can meet from this path upwards, the root record 0 included. */
  function Around(p: Path): set<nat> {
    match p
    case Root => {0}
    case Step(o, up) => (if o.At? then {o.slot} + Slots(o.next) else {}) + Around(up)
  }

  ghost predicate PathOk(p: Path) {
    match p
    case Root => true
    case Step(o, up) => o.At? && Distinct(o) && Slots(o) !! Around(up) && PathOk(up)
  }

  /** What the walk reads on its way up: next and parent links, never a child link. */
  ghost predicate PathLinked(a: seq<ElemPos>, p: Path) {
    match p
    case Root => |a| > 0
    case Step(o, up) =>
      && o.At? && o.slot < |a| && a[o.slot].parent == UpSlot(up)
      && a[o.slot].next == Head(o.next) && Linked(a, o.next, UpSlot(up))
      && PathLinked(a, up)
  }

  lemma {:induction false} PathFromTree(a: seq<ElemPos>, o: Outline, s: nat, up: Path)
    requires s in Slots(o) && Linked(a, o, UpSlot(up)) && PathLinked(a, up)
    requires Distinct(o) && Slots(o) !! Around(up) && PathOk(up)
    ensures var p := PathTo(o, s, up);
            PathLinked(a, p) && PathOk(p) && Linked(a, p.node.child, s) && a[s].child == Head(p.node.child)
  {
    if o.slot == s {
    } else if s in Slots(o.child) {
      PathFromTree(a, o.child, s, Step(o, up));
    } else {
      PathFromTree(a, o.next, s, up);
    }
  }

  // ----- the order of the walk -----------------------------------------------

  /** One visit: the record, and whether its start moves too. */
  datatype Visit = Visit(slot: nat, both: bool)

  function Pre(o: Outline): seq<Visit> {
    match o
    case Nil => []
    case At(s, _, _, _, _, c, x) => [Visit(s, true)] + Pre(c) + Pre(x)
  }

  /** What is left once `p`'s own element and its children are done, all of p's ancestors being ancestors of the
      edit. */
  function Above(p: Path): seq<Visit> {
    match p
    case Root => []
    case Step(o, up) => (if o.At? then Pre(o.next) else []) + [Visit(UpSlot(up), false)] + Above(up)
  }

  ghost predicate Below(p: Path, top: Path) {
    p == top || (p.Step? && Below(p.up, top))
  }

  /** What is left once `p`'s own element and its children are done, the steps below `top` being done too. */
  function Left(p: Path, top: Path): seq<Visit>
    requires p.Step?
    decreases p, 0
  {
    (if p.node.At? then Pre(p.node.next) else []) + Climb(p.up, top)
  }

  /** As `Left`, after leaving the last sibling below `p`. */
  function Climb(p: Path, top: Path): seq<Visit>
    decreases p, 1
  {
    if p == top then [Visit(UpSlot(top), false)] + Above(top)
    else if p.Root? then []
    else Left(p, top)
  }

  lemma AroundBelow(p: Path, top: Path)
    requires Below(p, top)
    ensures Around(top) <= Around(p) && UpSlot(top) in Around(top) + {0}
    ensures PathOk(p) ==> PathOk(top)
  {
  }

  function Visits(p: Path, afterPos: bool): seq<Visit>
    requires p.Step? && p.node.At?
  {
    if afterPos || p.node.child.Nil? then Above(p) else Pre(p.node.child) + Above(p)
  }

  /** What is left of the walk when it stands on `p`, below `top`. */
  function Pending(p: Path, top: Path, descend: bool): seq<Visit>
    requires p.Step?
  {
    if descend && p.node.At? && p.node.child.At? then Pre(p.node.child) + Left(p, top) else Left(p, top)
  }

  lemma AboveIsLeft(p: Path)
    requires p.Step? && p.node.At?
    ensures p != p.up && Above(p) == Left(p, p.up)
  {
    var v := [Visit(UpSlot(p.up), false)];
    assert (Pre(p.node.next) + v) + Above(p.up) == Pre(p.node.next) + (v + Above(p.up));
  }

  /** Entering a nonempty sibling list visits its first element and leaves that element's pending work. */
  lemma Enter(o: Outline, up: Path, top: Path)
    requires o.At? && Below(up, top) && Distinct(o) && Slots(o) !! Around(up)
    ensures Step(o, up) != top && o.slot != UpSlot(top)
    ensures Pre(o) + Climb(up, top) == [Visit(o.slot, true)] + Pending(Step(o, up), top, true)
  {
    AroundBelow(up, top);
    assert o.slot in Slots(o);
    var v, rest := [Visit(o.slot, true)], Climb(up, top);
    assert Step(o, up) != top by { assert o.slot in Around(Step(o, up)); }
    PreSplit(o, rest);
    if o.child.Nil? { assert Pre(o.child) + (Pre(o.next) + rest) == Pre(o.next) + rest; }
  }

  /** A slot on the path names its own step: reaching top's slot is reaching top. */
  lemma AtTop(p: Path, top: Path)
    requires Below(p, top) && PathOk(p) && (UpSlot(p) == UpSlot(top) || UpSlot(p) == 0)
    ensures p == top
  {
    if p != top {
      AroundBelow(p.up, top);
    }
  }

  lemma LeaveLast(p: Path, top: Path)
    requires p.Step? && PathOk(p) && Head(p.node.next) == 0
    ensures Left(p, top) == Climb(p.up, top)
  {
    assert [] + Climb(p.up, top) == Climb(p.up, top);
  }

  lemma MoveOne<T>(all: seq<T>, done: seq<T>, rest: seq<T>)
    requires all == done + rest && rest != []
    ensures all == (done + [rest[0]]) + rest[1..]
  {
  }

  lemma PreSplit(o: Outline, rest: seq<Visit>)
    requires o.At?
    ensures Pre(o) + rest == [Visit(o.slot, true)] + (Pre(o.child) + (Pre(o.next) + rest))
  {
  }

  function ShiftOne(a: seq<ElemPos>, v: Visit, n: int): (b: seq<ElemPos>)
    ensures |b| == |a|
  {
    if v.slot >= |a| then a
    else a[v.slot := if v.both then a[v.slot].AdjustBoth(n) else a[v.slot].AdjustEnd(n)]
  }

  function Apply(a: seq<ElemPos>, vs: seq<Visit>, n: int): (b: seq<ElemPos>)
    ensures |b| == |a|
  {
    if vs == [] then a else ShiftOne(Apply(a, vs[..|vs|-1], n), vs[|vs|-1], n)
  }

  lemma ApplySnoc(a: seq<ElemPos>, vs: seq<Visit>, v: Visit, n: int)
    ensures Apply(a, vs + [v], n) == ShiftOne(Apply(a, vs, n), v, n)
  {
    assert (vs + [v])[..|vs|] == vs;
  }

  ghost predicate SameLinks(a: seq<ElemPos>, b: seq<ElemPos>) {
    && |a| == |b|
    && forall k :: 0 <= k < |a| ==> b[k].parent == a[k].parent && b[k].child == a[k].child && b[k].next == a[k].next
  }

  lemma {:induction false} LinkedFrame(a: seq<ElemPos>, b: seq<ElemPos>, o: Outline, p: nat)
    requires Linked(a, o, p) && |b| >= |a|
    requires forall k :: k in Slots(o) && k < |a| ==>
      b[k].parent == a[k].parent && b[k].child == a[k].child && b[k].next == a[k].next
    ensures Linked(b, o, p)
  {
    if o.At? { LinkedFrame(a, b, o.child, o.slot); LinkedFrame(a, b, o.next, p); }
  }

  lemma {:induction false} PathLinkedFrame(a: seq<ElemPos>, b: seq<ElemPos>, p: Path)
    requires PathLinked(a, p) && SameLinks(a, b)
    ensures PathLinked(b, p)
  {
    if p.Step? { LinkedFrame(a, b, p.node.next, UpSlot(p.up)); PathLinkedFrame(a, b, p.up); }
  }

  /** The walk stands on `p` with `rest` still to visit. */
  ghost predicate Standing(a: seq<ElemPos>, p: Path, top: Path, posFirst: bool, rest: seq<Visit>) {
    && PathOk(p) && PathLinked(a, p) && Below(p, top)
    && (if p.Root? then rest == []
        else if p == top then rest == Above(p)
        else && rest == Pending(p, top, !posFirst)
             && (!posFirst ==> Linked(a, p.node.child, p.node.slot) && a[p.node.slot].child == Head(p.node.child)))
  }

  lemma StartWalk(a: seq<ElemPos>, p: Path, afterPos: bool)
    requires p.Step? && p.node.At? && PathOk(p) && PathLinked(a, p)
    requires !afterPos ==> Linked(a, p.node.child, p.node.slot) && a[p.node.slot].child == Head(p.node.child)
    ensures Standing(a, p, p.up, afterPos, Visits(p, afterPos)) && a[p.node.slot].parent == UpSlot(p.up)
  {
    AboveIsLeft(p);
  }

  /** Before the next step, an ancestor that has just been visited stops being the top. */
  lemma Leaving(a: seq<ElemPos>, p: Path, top: Path, posFirst: bool, rest: seq<Visit>)
    requires Standing(a, p, top, posFirst, rest) && UpSlot(p) != 0
    ensures PathOk(p) && PathLinked(a, p) && p.Step?
    ensures var atTop := UpSlot(p) == UpSlot(top);
            var top' := if atTop then p.up else top;
            && (atTop ==> p == top && a[p.node.slot].parent == UpSlot(top'))
            && p != top' && Below(p.up, top') && rest == Pending(p, top', !atTop && !posFirst)
            && (!atTop && !posFirst ==> Linked(a, p.node.child, p.node.slot) &&
                                        a[p.node.slot].child == Head(p.node.child))
  {
    if UpSlot(p) == UpSlot(top) { AtTop(p, top); }
    AboveIsLeft(p);
  }

  lemma StandingFrame(a: seq<ElemPos>, v: Visit, n: int, p: Path, top: Path, posFirst: bool, rest: seq<Visit>)
    requires Standing(a, p, top, posFirst, rest)
    ensures Standing(ShiftOne(a, v, n), p, top, posFirst, rest)
  {
    var b := ShiftOne(a, v, n);
    PathLinkedFrame(a, b, p);
    if p.Step? && p != top && !posFirst { LinkedFrame(a, b, p.node.child, p.node.slot); }
  }

  // ----- what the walk moves -------------------------------------------------

  /** The elements after `p` in document order that are not below it. */
  function AfterSet(p: Path): set<nat> {
    match p
    case Root => {}
    case Step(o, up) => (if o.At? then Slots(o.next) else {}) + AfterSet(up)
  }

  /** The ancestors of `p`, the document record 0 included. */
  function AncSet(p: Path): set<nat> {
    match p
    case Root => {}
    case Step(o, up) => {UpSlot(up)} + AncSet(up)
  }

  ghost predicate Moved(a: seq<ElemPos>, b: seq<ElemPos>, whole: set<nat>, ends: set<nat>, n: int) {
    && |a| == |b|
    && forall k :: 0 <= k < |a| ==>
         b[k] == if k in whole then a[k].AdjustBoth(n) else if k in ends then a[k].AdjustEnd(n) else a[k]
  }

  lemma {:induction false} ApplyConcat(a: seq<ElemPos>, xs: seq<Visit>, ys: seq<Visit>, n: int)
    ensures Apply(a, xs + ys, n) == Apply(Apply(a, xs, n), ys, n)
  {
    if ys == [] {
      assert xs + ys == xs;
    } else {
      var m := |ys| - 1;
      assert xs + ys == (xs + ys[..m]) + [ys[m]];
      assert ys == ys[..m] + [ys[m]];
      ApplySnoc(a, xs + ys[..m], ys[m], n);
      ApplySnoc(Apply(a, xs, n), ys[..m], ys[m], n);
      ApplyConcat(a, xs, ys[..m], n);
    }
  }

  lemma MovedThen(a: seq<ElemPos>, b: seq<ElemPos>, c: seq<ElemPos>,
                  w1: set<nat>, e1: set<nat>, w2: set<nat>, e2: set<nat>, n: int)
    requires Moved(a, b, w1, e1, n) && Moved(b, c, w2, e2, n) && (w1 + e1) !! (w2 + e2)
    ensures Moved(a, c, w1 + w2, e1 + e2, n)
  {
  }

  lemma MovedOne(a: seq<ElemPos>, s: nat, both: bool, n: int)
    ensures Moved(a, Apply(a, [Visit(s, both)], n), if both then {s} else {}, if both then {} else {s}, n)
  {
    ApplySnoc(a, [], Visit(s, both), n);
    assert [] + [Visit(s, both)] == [Visit(s, both)];
  }

  lemma {:induction false} MovedByPre(a: seq<ElemPos>, o: Outline, n: int)
    requires Distinct(o)
    ensures Moved(a, Apply(a, Pre(o), n), Slots(o), {}, n)
    decreases o
  {
    if o.At? {
      var v := [Visit(o.slot, true)];
      var b := Apply(a, v, n);
      var c := Apply(b, Pre(o.child), n);
      MovedOne(a, o.slot, true, n);
      MovedByPre(b, o.child, n);
      MovedByPre(c, o.next, n);
      ApplyConcat(a, v, Pre(o.child), n);
      ApplyConcat(a, v + Pre(o.child), Pre(o.next), n);
      MovedThen(a, b, c, {o.slot}, {}, Slots(o.child), {}, n);
      MovedThen(a, c, Apply(c, Pre(o.next), n), {o.slot} + Slots(o.child), {}, Slots(o.next), {}, n);
    } else {
      assert Apply(a, [], n) == a;
    }
  }

  lemma {:induction false} AroundSets(p: Path)
    requires PathOk(p)
    ensures AfterSet(p) + AncSet(p) + {UpSlot(p)} <= Around(p)
    ensures AfterSet(p) !! AncSet(p) && UpSlot(p) !in AfterSet(p) + AncSet(p)
  {
    if p.Step? { AroundSets(p.up); }
  }

  lemma {:induction false} MovedByAbove(a: seq<ElemPos>, p: Path, n: int)
    requires PathOk(p)
    ensures Moved(a, Apply(a, Above(p), n), AfterSet(p), AncSet(p), n)
    decreases p
  {
    if p.Step? {
      var v := [Visit(UpSlot(p.up), false)];
      var b := Apply(a, Pre(p.node.next), n);
      var c := Apply(b, v, n);
      MovedByPre(a, p.node.next, n);
      MovedOne(b, UpSlot(p.up), false, n);
      MovedByAbove(c, p.up, n);
      ApplyConcat(a, Pre(p.node.next), v, n);
      ApplyConcat(a, Pre(p.node.next) + v, Above(p.up), n);
      AroundSets(p.up);
      MovedThen(a, b, c, Slots(p.node.next), {}, {}, {UpSlot(p.up)}, n);
      MovedThen(a, c, Apply(c, Above(p.up), n), Slots(p.node.next), {UpSlot(p.up)}, AfterSet(p.up), AncSet(p.up), n);
    } else {
      assert Apply(a, [], n) == a;
    }
  }

  /** The walk moves exactly once the start and end of every element after `p` in document order (below it too unless
      `afterPos`), only the end of every ancestor, and nothing else. */
  lemma AdjustMoves(a: seq<ElemPos>, p: Path, afterPos: bool, n: int)
    requires p.Step? && PathOk(p)
    ensures Moved(a, Apply(a, Visits(p, afterPos), n),
                  AfterSet(p) + (if afterPos then {} else Slots(p.node.child)), AncSet(p), n)
  {
    if afterPos || p.node.child.Nil? {
      MovedByAbove(a, p, n);
    } else {
      var b := Apply(a, Pre(p.node.child), n);
      MovedByPre(a, p.node.child, n);
      MovedByAbove(b, p, n);
      ApplyConcat(a, Pre(p.node.child), Above(p), n);
      AroundSets(p);
      AroundSets(p.up);
      MovedThen(a, b, Apply(b, Above(p), n), Slots(p.node.child), {}, AfterSet(p), AncSet(p), n);
    }
  }

  // ----- the same on trees ---------------------------------------------------

  function ShiftAll(o: Outline, n: int): Outline {
    match o
    case Nil => Nil
    case At(s, sl, sr, el, er, c, x) => At(s, sl + n, sr + n, el + n, er + n, ShiftAll(c, n), ShiftAll(x, n))
  }

  /** The outline after `x_Adjust(s, n, afterPos)`. */
  function AdjustAt(o: Outline, s: nat, n: int, afterPos: bool): Outline
    requires s in Slots(o)
  {
    if o.slot == s then
      o.(child := if afterPos then o.child else ShiftAll(o.child, n), next := ShiftAll(o.next, n))
    else if s in Slots(o.child) then
      o.(endL := o.endL + n, endR := o.endR + n, child := AdjustAt(o.child, s, n, afterPos),
          next := ShiftAll(o.next, n))
    else
      o.(next := AdjustAt(o.next, s, n, afterPos))
  }

  lemma {:induction false} MoveWhole(a: seq<ElemPos>, b: seq<ElemPos>, w: set<nat>, e: set<nat>, n: int, o: Outline,
      p: nat)
    requires Moved(a, b, w, e, n) && Indexed(a, o, p) && Slots(o) <= w
    ensures Indexed(b, ShiftAll(o, n), p)
  {
    if o.At? {
      MoveWhole(a, b, w, e, n, o.child, o.slot);
      MoveWhole(a, b, w, e, n, o.next, p);
    }
  }

  lemma {:induction false} IndexedFrame(a: seq<ElemPos>, b: seq<ElemPos>, o: Outline, p: nat)
    requires Indexed(a, o, p) && |b| >= |a|
    requires forall k :: k in Slots(o) && k < |a| ==> b[k] == a[k]
    ensures Indexed(b, o, p)
  {
    if o.At? { IndexedFrame(a, b, o.child, o.slot); IndexedFrame(a, b, o.next, p); }
  }

  /** Inside `o`, the sets of `PathTo` stay inside `o`; outside they are those of `up`. */
  lemma {:induction false} PathSets(o: Outline, s: nat, up: Path)
    requires s in Slots(o)
    ensures var p := PathTo(o, s, up);
            && Slots(p.node.child) <= Slots(o)
            && AfterSet(up) <= AfterSet(p) <= AfterSet(up) + Slots(o)
            && AncSet(up) <= AncSet(p) <= AncSet(up) + {UpSlot(up)} + Slots(o)
            && UpSlot(up) in AncSet(p)
  {
    if o.slot == s {
    } else if s in Slots(o.child) {
      PathSets(o.child, s, Step(o, up));
    } else {
      PathSets(o.next, s, up);
    }
  }

  /** Reassembling one element from its moved parts. */
  lemma Assemble(a: seq<ElemPos>, b: seq<ElemPos>, o: Outline, o': Outline, p: nat, w: set<nat>, e: set<nat>, n: int)
    requires o.At? && Indexed(a, o, p) && Moved(a, b, w, e, n) && o.slot !in w
    requires o'.At? && Indexed(b, o'.child, o.slot) && Indexed(b, o'.next, p)
    requires Head(o'.child) == Head(o.child) && Head(o'.next) == Head(o.next)
    requires o' == if o.slot in e then o.(endL := o.endL + n, endR := o.endR + n, child := o'.child, next := o'.next)
                   else o.(child := o'.child, next := o'.next)
    ensures Indexed(b, o', p)
  {
  }

  /** `AdjustAt` is what the walk does to an indexed tree. */
  lemma {:induction false} MoveAround(a: seq<ElemPos>, b: seq<ElemPos>, o: Outline, s: nat, up: Path, n: int,
      afterPos: bool)
    requires s in Slots(o) && Indexed(a, o, UpSlot(up)) && Distinct(o) && Slots(o) !! Around(up) && PathOk(up)
    requires var p := PathTo(o, s, up);
             Moved(a, b, AfterSet(p) + (if afterPos then {} else Slots(p.node.child)), AncSet(p), n)
    ensures Indexed(b, AdjustAt(o, s, n, afterPos), UpSlot(up))
    decreases o
  {
    hide Around, ShiftAll, Linked, Placed, PathOk, AfterSet, AncSet, Distinct, Moved, AdjustAt;
    var p := PathTo(o, s, up);
    var w := AfterSet(p) + (if afterPos then {} else Slots(p.node.child));
    var o' := AdjustAt(o, s, n, afterPos);
    MoveParts(a, b, o, s, up, n, afterPos);
    Inward(a, o, up);
    AdjustParts(o, s, n, afterPos);
    if s != o.slot && s in Slots(o.child) {
      MoveAround(a, b, o.child, s, Step(o, up), n, afterPos);
    } else if s != o.slot {
      MoveAround(a, b, o.next, s, up, n, afterPos);
    }
    Assemble(a, b, o, o', UpSlot(up), w, AncSet(p), n);
  }

  lemma AdjustParts(o: Outline, s: nat, n: int, afterPos: bool)
    requires s in Slots(o) && Distinct(o)
    ensures var o' := AdjustAt(o, s, n, afterPos);
            && o'.At? && Head(o'.child) == Head(o.child) && Head(o'.next) == Head(o.next)
            && o' == (if s in Slots(o.child) then o.(endL := o.endL + n, endR := o.endR + n, child := o'.child,
                 next := o'.next)
                      else o.(child := o'.child, next := o'.next))
            && (s in Slots(o.child) ==> o.slot != s && o'.child == AdjustAt(o.child, s, n, afterPos))
            && (s != o.slot && s !in Slots(o.child) ==>
                 s in Slots(o.next) && o'.next == AdjustAt(o.next, s, n, afterPos))
  {
    DistinctParts(o);
  }

  /** What holds around a list holds around the children of its first element and around the rest of the list. */
  lemma Inward(a: seq<ElemPos>, o: Outline, up: Path)
    requires o.At? && Indexed(a, o, UpSlot(up)) && Distinct(o) && Slots(o) !! Around(up) && PathOk(up)
    ensures Distinct(o.child) && Distinct(o.next) && Slots(o.next) !! Around(up) &&
            Slots(o.child) !! Around(Step(o, up)) && PathOk(Step(o, up))
    ensures Indexed(a, o.child, o.slot) && Indexed(a, o.next, UpSlot(up)) && UpSlot(Step(o, up)) == o.slot
  {
    DistinctParts(o);
  }

  lemma MoveParts(a: seq<ElemPos>, b: seq<ElemPos>, o: Outline, s: nat, up: Path, n: int, afterPos: bool)
    requires s in Slots(o) && Indexed(a, o, UpSlot(up)) && Distinct(o) && Slots(o) !! Around(up) && PathOk(up)
    requires var p := PathTo(o, s, up);
             Moved(a, b, AfterSet(p) + (if afterPos then {} else Slots(p.node.child)), AncSet(p), n)
    ensures var p := PathTo(o, s, up); var o' := AdjustAt(o, s, n, afterPos);
            && o.slot !in AfterSet(p) + (if afterPos then {} else Slots(p.node.child))
            && (o.slot in AncSet(p) <==> s in Slots(o.child))
            && (s !in Slots(o.child) ==> Indexed(b, o'.child, o.slot))
            && (s == o.slot || s in Slots(o.child) ==> Indexed(b, o'.next, UpSlot(up)))
  {
    var p := PathTo(o, s, up);
    var w := AfterSet(p) + (if afterPos then {} else Slots(p.node.child));
    AroundSets(up);
    if o.slot == s {
      if afterPos { IndexedFrame(a, b, o.child, s); } else { MoveWhole(a, b, w, AncSet(p), n, o.child, s); }
      MoveWhole(a, b, w, AncSet(p), n, o.next, UpSlot(up));
    } else if s in Slots(o.child) {
      PathSets(o.child, s, Step(o, up));
      MoveWhole(a, b, w, AncSet(p), n, o.next, UpSlot(up));
    } else {
      PathSets(o.next, s, up);
      IndexedFrame(a, b, o.child, o.slot);
    }
  }

  // ----- local changes to a tree ---------------------------------------------

  function NodeOf(o: Outline, s: nat): (nd: Outline)
    requires s in Slots(o)
    ensures nd.At? && nd.slot == s && Slots(nd) <= Slots(o)
  {
    if o.slot == s then o
    else if s in Slots(o.child) then NodeOf(o.child, s)
    else NodeOf(o.next, s)
  }

  /** The slot of the element that holds `s`. */
  function ParentOf(o: Outline, s: nat, p: nat): nat
    requires s in Slots(o)
  {
    if o.slot == s then p
    else if s in Slots(o.child) then ParentOf(o.child, s, o.slot)
    else ParentOf(o.next, s, p)
  }

  /** `o` with the element at `s` rewritten as `nd`, its later siblings kept. */
  function PutNode(o: Outline, s: nat, nd: Outline): (r: Outline)
    requires s in Slots(o) && nd.At?
    ensures r.At?
  {
    if o.slot == s then nd.(next := o.next)
    else if s in Slots(o.child) then o.(child := PutNode(o.child, s, nd))
    else o.(next := PutNode(o.next, s, nd))
  }

  /** The outline after x_Adjust(s, n, true), with `nd` written at slot `s`. */
  function Patch(o: Outline, s: nat, n: int, nd: Outline): Outline
    requires s in Slots(o) && nd.At?
  {
    if o.slot == s then nd.(next := ShiftAll(o.next, n))
    else if s in Slots(o.child) then
      o.(endL := o.endL + n, endR := o.endR + n, child := Patch(o.child, s, n, nd), next := ShiftAll(o.next, n))
    else o.(next := Patch(o.next, s, n, nd))
  }

  lemma {:induction false} PutSlots(o: Outline, s: nat, nd: Outline)
    requires s in Slots(o) && Distinct(o) && nd.At? && nd.slot == s
    requires Distinct(nd.(next := Nil)) && Slots(nd.child) * Slots(o) <= Slots(NodeOf(o, s).child)
    ensures Slots(PutNode(o, s, nd)) == Slots(o) - Slots(NodeOf(o, s).child) + Slots(nd.child)
    ensures Distinct(PutNode(o, s, nd))
  {
    if o.slot == s {
    } else if s in Slots(o.child) {
      PutSlots(o.child, s, nd);
    } else {
      PutSlots(o.next, s, nd);
    }
  }

  /** A local rewrite of the records keeps the index in step with the local rewrite of the tree. */
  lemma {:induction false} PutIndexed(a: seq<ElemPos>, b: seq<ElemPos>, o: Outline, s: nat, nd: Outline, p: nat)
    requires s in Slots(o) && Indexed(a, o, p) && Distinct(o) && nd.At? && nd.slot == s && |b| >= |a|
    requires forall k :: k in Slots(o) && k != s && k !in Slots(NodeOf(o, s).child) && k < |a| ==> b[k] == a[k]
    requires s < |b| && b[s] == ElemPos(nd.startL, nd.startR, nd.endL, nd.endR, ParentOf(o, s, p), Head(nd.child),
                 Head(NodeOf(o, s).next))
    requires Indexed(b, nd.child, s)
    ensures Indexed(b, PutNode(o, s, nd), p)
  {
    if o.slot == s {
      IndexedFrame(a, b, o.next, p);
    } else if s in Slots(o.child) {
      PutIndexed(a, b, o.child, s, nd, o.slot);
      IndexedFrame(a, b, o.next, p);
    } else {
      PutIndexed(a, b, o.next, s, nd, p);
      IndexedFrame(a, b, o.child, o.slot);
    }
  }

  /** x_Adjust from the rewritten element itself. */
  lemma {:induction false} AdjustPut(o: Outline, s: nat, nd: Outline, n: int)
    requires s in Slots(o) && Distinct(o) && nd.At? && nd.slot == s
    requires Slots(nd.child) * Slots(o) <= Slots(NodeOf(o, s).child)
    ensures s in Slots(PutNode(o, s, nd))
    ensures AdjustAt(PutNode(o, s, nd), s, n, false) == Patch(o, s, n, nd.(child := ShiftAll(nd.child, n)))
  {
    if o.slot == s {
    } else if s in Slots(o.child) {
      AdjustPut(o.child, s, nd, n);
    } else {
      AdjustPut(o.next, s, nd, n);
    }
  }

  /** x_Adjust from an element `x` that is new below the rewritten element. */
  lemma {:induction false} AdjustPutBelow(o: Outline, s: nat, nd: Outline, x: nat, n: int, afterPos: bool)
    requires s in Slots(o) && Distinct(o) && nd.At? && nd.slot == s && x in Slots(nd.child) && x !in Slots(o)
    ensures x in Slots(PutNode(o, s, nd))
    ensures AdjustAt(PutNode(o, s, nd), x, n, afterPos) ==
            Patch(o, s, n, nd.(endL := nd.endL + n, endR := nd.endR + n, child := AdjustAt(nd.child, x, n, afterPos)))
  {
    if o.slot == s {
    } else if s in Slots(o.child) {
      AdjustPutBelow(o.child, s, nd, x, n, afterPos);
    } else {
      AdjustPutBelow(o.next, s, nd, x, n, afterPos);
    }
  }

  // ----- unlinking -----------------------------------------------------------

  function Unlink(o: Outline, s: nat): Outline
    requires s in Slots(o)
  {
    if o.slot == s then o.next
    else if s in Slots(o.child) then o.(child := Unlink(o.child, s))
    else o.(next := Unlink(o.next, s))
  }

  /** The index without `s`, everything behind it moved. */
  function Closed(o: Outline, s: nat, n: int): Outline
    requires s in Slots(o)
  {
    AdjustSlots(o, s, n, true);
    Unlink(AdjustAt(o, s, n, true), s)
  }

  lemma ClosedInside(o: Outline, s: nat, n: int)
    requires o.At? && Distinct(o) && s in Slots(o.child)
    ensures s in Slots(o) && Closed(o, s, n) == o.(endL := o.endL + n, endR := o.endR + n,
                child := Closed(o.child, s, n), next := ShiftAll(o.next, n))
  {
    hide ShiftAll;
    DistinctParts(o);
    AdjustSlots(o.child, s, n, true);
    AdjustSlots(o, s, n, true);
  }

  lemma ClosedLater(o: Outline, s: nat, n: int)
    requires o.At? && Distinct(o) && s in Slots(o.next)
    ensures s in Slots(o) && Closed(o, s, n) == o.(next := Closed(o.next, s, n))
  {
    hide ShiftAll;
    DistinctParts(o);
    AdjustSlots(o.next, s, n, true);
    AdjustSlots(o, s, n, true);
  }

  /** Cutting `s` out from below `p` is a rewrite of `p`. */
  lemma {:induction false} UnlinkBelow(o: Outline, p: nat, s: nat, n: int)
    requires p in Slots(o) && Distinct(o) && s in Slots(NodeOf(o, p).child)
    ensures s in Slots(o) && s in Slots(AdjustAt(o, s, n, true)) && s in Slots(AdjustAt(NodeOf(o, p).child, s, n, true))
    ensures var nd := NodeOf(o, p);
            Unlink(AdjustAt(o, s, n, true), s) ==
              Patch(o, p, n, nd.(endL := nd.endL + n, endR := nd.endR + n,
                  child := Unlink(AdjustAt(nd.child, s, n, true), s)))
  {
    hide AdjustAt, Unlink, ShiftAll, Distinct;
    NodeSlotsIn(o, p);
    AdjustSlots(o, s, n, true);
    AdjustSlots(NodeOf(o, p).child, s, n, true);
    DistinctParts(o);
    if o.slot == p {
      ClosedInside(o, s, n);
    } else if p in Slots(o.child) {
      NodeSlotsIn(o.child, p);
      UnlinkBelow(o.child, p, s, n);
      ClosedInside(o, s, n);
    } else {
      NodeSlotsIn(o.next, p);
      UnlinkBelow(o.next, p, s, n);
      ClosedLater(o, s, n);
    }
  }

  lemma {:induction false} NodeSlotsIn(o: Outline, p: nat)
    requires p in Slots(o)
    ensures Slots(NodeOf(o, p).child) <= Slots(o)
  {
    if o.slot == p {
    } else if p in Slots(o.child) { NodeSlotsIn(o.child, p);
    } else { NodeSlotsIn(o.next, p); }
  }

  lemma {:induction false} AdjustSlots(o: Outline, s: nat, n: int, afterPos: bool)
    requires s in Slots(o)
    ensures Slots(AdjustAt(o, s, n, afterPos)) == Slots(o)
  {
    ShiftSlots(o.next, n);
    ShiftSlots(o.child, n);
    if o.slot == s {
    } else if s in Slots(o.child) { AdjustSlots(o.child, s, n, afterPos);
    } else { AdjustSlots(o.next, s, n, afterPos); }
  }

  lemma {:induction false} ShiftSlots(o: Outline, n: int)
    ensures Slots(ShiftAll(o, n)) == Slots(o)
  {
    if o.At? { ShiftSlots(o.child, n); ShiftSlots(o.next, n); }
  }

  /** The previous sibling of `s`, `q` standing before the list. */
  function PrevOf(o: Outline, s: nat, q: nat): nat
    requires s in Slots(o)
  {
    if o.slot == s then q
    else if s in Slots(o.child) then PrevOf(o.child, s, 0)
    else PrevOf(o.next, s, o.slot)
  }

  /** Leading the one link to `s` around it, from its previous sibling or from its parent, unlinks it. */
  lemma {:induction false} UnlinkIndexed(a: seq<ElemPos>, b: seq<ElemPos>, o: Outline, s: nat, p: nat, q: nat)
    requires s in Slots(o) && Indexed(a, o, p) && Distinct(o) && |a| == |b| && q !in Slots(o) && p !in Slots(o) &&
             0 !in Slots(o)
    requires var prev, parent := PrevOf(o, s, q), ParentOf(o, s, p);
             s < |a| && forall k :: k in Slots(o) && k < |a| ==>
               b[k] == if prev != 0 && k == prev then a[k].(next := a[s].next)
                       else if prev == 0 && k == parent then a[k].(child := a[s].next) else a[k]
    ensures Indexed(b, Unlink(o, s), p)
    decreases o
  {
    hide Distinct, Unlink;
    DistinctParts(o);
    if o.slot == s {
      IndexedFrame(a, b, o.next, p);
    } else if s in Slots(o.child) {
      PrevWithin(o.child, s, o.slot, 0);
      UnlinkHead(a, o.child, s, o.slot, 0);
      UnlinkIndexed(a, b, o.child, s, o.slot, 0);
      IndexedFrame(a, b, o.next, p);
      Rejoin(b, o.(child := Unlink(o.child, s)), p);
    } else {
      PrevWithin(o.next, s, p, o.slot);
      UnlinkHead(a, o.next, s, p, o.slot);
      UnlinkIndexed(a, b, o.next, s, p, o.slot);
      IndexedFrame(a, b, o.child, o.slot);
      Rejoin(b, o.(next := Unlink(o.next, s)), p);
    }
    UnlinkParts(o, s);
  }

  lemma UnlinkParts(o: Outline, s: nat)
    requires s in Slots(o)
    ensures Unlink(o, s) == if o.slot == s then o.next
                            else if s in Slots(o.child) then o.(child := Unlink(o.child, s))
                            else o.(next := Unlink(o.next, s))
  {
  }

  lemma Rejoin(b: seq<ElemPos>, o: Outline, p: nat)
    requires o.At? && Indexed(b, o.child, o.slot) && Indexed(b, o.next, p) && o.slot < |b|
    requires b[o.slot] == ElemPos(o.startL, o.startR, o.endL, o.endR, p, Head(o.child), Head(o.next))
    ensures Indexed(b, o, p)
  {
  }

  lemma DistinctParts(o: Outline)
    requires Distinct(o) && o.At?
    ensures o.slot !in Slots(o.child) && o.slot !in Slots(o.next) && Slots(o.child) !! Slots(o.next)
    ensures Distinct(o.child) && Distinct(o.next)
  {
  }

  lemma {:induction false} PrevWithin(o: Outline, s: nat, p: nat, q: nat)
    requires s in Slots(o)
    ensures PrevOf(o, s, q) in Slots(o) + {q, 0} && ParentOf(o, s, p) in Slots(o) + {p}
    ensures o.slot != s ==> PrevOf(o, s, q) in Slots(o) + {0}
    ensures o.slot != s && PrevOf(o, s, q) == 0 ==> ParentOf(o, s, p) in Slots(o)
  {
    if o.slot == s {
    } else if s in Slots(o.child) { PrevWithin(o.child, s, o.slot, 0);
    } else { PrevWithin(o.next, s, p, o.slot); }
  }

  lemma UnlinkHead(a: seq<ElemPos>, o: Outline, s: nat, p: nat, q: nat)
    requires s in Slots(o) && Indexed(a, o, p)
    ensures if o.slot == s then s < |a| && Head(Unlink(o, s)) == a[s].next && PrevOf(o, s, q) == q &&
            ParentOf(o, s, p) == p
            else Head(Unlink(o, s)) == o.slot
  {
  }

  lemma {:induction false} ShiftDistinct(o: Outline, n: int)
    requires Distinct(o)
    ensures Distinct(ShiftAll(o, n))
  {
    if o.At? { ShiftDistinct(o.child, n); ShiftDistinct(o.next, n); ShiftSlots(o.child, n); ShiftSlots(o.next, n); }
  }

  lemma {:induction false} AdjustDistinct(o: Outline, s: nat, n: int, afterPos: bool)
    requires s in Slots(o) && Distinct(o)
    ensures Distinct(AdjustAt(o, s, n, afterPos)) && Head(AdjustAt(o, s, n, afterPos)) == Head(o)
  {
    hide ShiftAll;
    ShiftDistinct(o.next, n); ShiftSlots(o.next, n);
    ShiftDistinct(o.child, n); ShiftSlots(o.child, n);
    if o.slot == s {
    } else if s in Slots(o.child) {
      AdjustDistinct(o.child, s, n, afterPos); AdjustSlots(o.child, s, n, afterPos);
    } else {
      AdjustDistinct(o.next, s, n, afterPos); AdjustSlots(o.next, s, n, afterPos);
    }
  }

  /** The walk as seen from a whole indexed tree. */
  lemma WalkTree(a: seq<ElemPos>, o: Outline, s: nat, n: int, afterPos: bool)
    requires |a| > 0 && Indexed(a, o, 0) && Distinct(o) && s in Slots(o)
    ensures var p := PathTo(o, s, Root);
            && PathOk(p) && PathLinked(a, p) && Linked(a, p.node.child, s) && a[s].child == Head(p.node.child)
            && var b := Apply(a, Visits(p, afterPos), n);
               && Indexed(b, AdjustAt(o, s, n, afterPos), 0) && b[0] == a[0].AdjustEnd(n) && SameLinks(a, b)
  {
    hide PathTo, Visits, Apply, AdjustAt, PathOk, PathLinked, Moved, AfterSet, AncSet, Distinct;
    NoZero(o);
    RootOk(a);
    PathFromTree(a, o, s, Root);
    var p := PathTo(o, s, Root);
    var b := Apply(a, Visits(p, afterPos), n);
    AdjustMoves(a, p, afterPos, n);
    MoveAround(a, b, o, s, Root, n, afterPos);
    PathSets(o, s, Root);
    MovedRoot(a, b, p, AfterSet(p) + (if afterPos then {} else Slots(p.node.child)), n, o);
  }

  lemma RootOk(a: seq<ElemPos>)
    requires |a| > 0
    ensures PathOk(Root) && PathLinked(a, Root) && Around(Root) == {0} && AfterSet(Root) == {}
  {
  }

  lemma {:induction false} NoZero(o: Outline)
    ensures 0 !in Slots(o)
  {
    if o.At? { NoZero(o.child); NoZero(o.next); }
  }

  lemma MovedRoot(a: seq<ElemPos>, b: seq<ElemPos>, p: Path, w: set<nat>, n: int, o: Outline)
    requires |a| > 0 && Moved(a, b, w, AncSet(p), n) && 0 in AncSet(p) && w <= Slots(o) && 0 !in Slots(o)
    ensures b[0] == a[0].AdjustEnd(n) && SameLinks(a, b)
  {
  }

  // ----- the walk after an unlink --------------------------------------------

  /** `b` is `a` with the one link to `s` led around it. */
  ghost predicate LedAround(a: seq<ElemPos>, b: seq<ElemPos>, o: Outline, s: nat)
    requires s in Slots(o)
  {
    && |a| == |b| && s < |a|
    && var prev, parent := PrevOf(o, s, 0), ParentOf(o, s, 0);
       forall k :: 0 <= k < |a| ==>
         b[k] == if prev != 0 && k == prev then a[k].(next := a[s].next)
                 else if prev == 0 && k == parent then a[k].(child := a[s].next) else a[k]
  }

  lemma {:induction false} PrevOutside(o: Outline, s: nat, up: Path, q: nat)
    requires s in Slots(o) && Distinct(o) && Slots(o) !! Around(up) && q !in Slots(o) && (q == 0 || q !in Around(up))
    ensures var p := PathTo(o, s, up);
            && (PrevOf(o, s, q) == 0 || PrevOf(o, s, q) !in Around(p))
            && UpSlot(p.up) == ParentOf(o, s, UpSlot(up))
  {
    NoZero(o);
    DistinctParts(o);
    if o.slot == s {
    } else if s in Slots(o.child) { PrevOutside(o.child, s, Step(o, up), 0);
    } else { PrevOutside(o.next, s, up, o.slot); }
  }

  lemma {:induction false} PathLinkedAround(a: seq<ElemPos>, b: seq<ElemPos>, p: Path)
    requires PathLinked(a, p) && |a| == |b|
    requires forall k :: k in Around(p) && k < |a| ==> b[k].parent == a[k].parent && b[k].next == a[k].next
    requires forall k :: k in AfterSet(p) && k < |a| ==> b[k].child == a[k].child
    requires PathOk(p)
    ensures PathLinked(b, p)
  {
    if p.Step? {
      LinkedFrame(a, b, p.node.next, UpSlot(p.up));
      PathLinkedAround(a, b, p.up);
    }
  }

  lemma {:induction false} AdjustShape(o: Outline, s: nat, n: int, k: nat, p: nat, q: nat)
    requires s in Slots(o) && k in Slots(o)
    ensures k in Slots(AdjustAt(o, s, n, true))
    ensures ParentOf(AdjustAt(o, s, n, true), k, p) == ParentOf(o, k, p) &&
            PrevOf(AdjustAt(o, s, n, true), k, q) == PrevOf(o, k, q)
  {
    hide ShiftAll;
    AdjustSlots(o, s, n, true);
    ShiftSlots(o.next, n);
    var x := AdjustAt(o, s, n, true);
    if o.slot == s {
      if k != o.slot && k !in Slots(o.child) { ShiftShape(o.next, n, k, p, o.slot); }
    } else if s in Slots(o.child) {
      AdjustSlots(o.child, s, n, true);
      if k == o.slot {
      } else if k in Slots(o.child) { AdjustShape(o.child, s, n, k, o.slot, 0);
      } else { ShiftShape(o.next, n, k, p, o.slot); }
    } else {
      AdjustSlots(o.next, s, n, true);
      if k != o.slot && k !in Slots(o.child) { AdjustShape(o.next, s, n, k, p, o.slot); }
    }
  }

  lemma {:induction false} ShiftShape(o: Outline, n: int, k: nat, p: nat, q: nat)
    requires k in Slots(o)
    ensures k in Slots(ShiftAll(o, n)) && ParentOf(ShiftAll(o, n), k, p) == ParentOf(o, k, p) &&
            PrevOf(ShiftAll(o, n), k, q) == PrevOf(o, k, q)
  {
    ShiftSlots(o, n);
    ShiftSlots(o.child, n);
    if k == o.slot {
    } else if k in Slots(o.child) { ShiftShape(o.child, n, k, o.slot, 0);
    } else { ShiftShape(o.next, n, k, p, o.slot); }
  }

  lemma UnlinkPath(a: seq<ElemPos>, b: seq<ElemPos>, o: Outline, s: nat)
    requires |a| > 0 && Indexed(a, o, 0) && Distinct(o) && s in Slots(o) && LedAround(a, b, o, s)
    ensures var p := PathTo(o, s, Root); PathOk(p) && PathLinked(b, p)
  {
    hide Distinct, Linked, Placed;
    NoZero(o);
    RootOk(a);
    PathFromTree(a, o, s, Root);
    var p := PathTo(o, s, Root);
    PrevOutside(o, s, Root, 0);
    AroundSets(p);
    AroundSets(p.up);
    assert ParentOf(o, s, 0) !in AfterSet(p);
    PathLinkedAround(a, b, p);
  }

  /** Unlinking an element and then walking from it gives the outline without it, everything behind it moved. */
  lemma UnlinkWalk(a: seq<ElemPos>, b: seq<ElemPos>, o: Outline, s: nat, n: int)
    requires |a| > 0 && Indexed(a, o, 0) && Distinct(o) && s in Slots(o) && LedAround(a, b, o, s)
    ensures var p := PathTo(o, s, Root); var c := Apply(b, Visits(p, true), n);
            && PathOk(p) && PathLinked(b, p) && s in Slots(AdjustAt(o, s, n, true))
            && Indexed(c, Unlink(AdjustAt(o, s, n, true), s), 0) && c[0] == b[0].AdjustEnd(n) && SameLinks(b, c)
  {
    hide PathTo, Visits, Apply, AdjustAt, PathOk, PathLinked, AfterSet, AncSet, Distinct, Unlink, Indexed, Slots,
      Linked, Placed;
    var p := PathTo(o, s, Root);
    UnlinkPath(a, b, o, s);
    WalkTree(a, o, s, n, true);
    var a2, c := Apply(a, Visits(p, true), n), Apply(b, Visits(p, true), n);
    AdjustMoves(a, p, true, n);
    AdjustMoves(b, p, true, n);
    AdjustDistinct(o, s, n, true);
    AdjustSlots(o, s, n, true);
    AdjustShape(o, s, n, s, 0, 0);
    NoZero(o);
    NoZero(AdjustAt(o, s, n, true));
    PathSets(o, s, Root);
    RootOk(a);
    UnlinkIndexed(a2, c, AdjustAt(o, s, n, true), s, 0, 0);
    MovedRoot(b, c, p, AfterSet(p), n, o);
  }

  // ----- sibling chains ------------------------------------------------------

  ghost predicate InChain(o: Outline, s: nat) { o.At? && (o.slot == s || InChain(o.next, s)) }

  /** The element before `s` in its chain, `q` standing before the chain. */
  ghost function ChainPrev(o: Outline, s: nat, q: nat): nat
    requires InChain(o, s)
  {
    if o.slot == s then q else ChainPrev(o.next, s, o.slot)
  }

  /** The children of `p`, the document itself being 0. */
  ghost function KidsOf(o: Outline, p: nat): Outline
    requires p == 0 || p in Slots(o)
  {
    if p == 0 then o else NodeOf(o, p).child
  }

  lemma {:induction false} ParentChain(o: Outline, s: nat, p: nat, q: nat)
    requires s in Slots(o) && Distinct(o) && p !in Slots(o)
    ensures var parent := ParentOf(o, s, p);
            if parent == p then InChain(o, s) && PrevOf(o, s, q) == ChainPrev(o, s, q)
            else parent in Slots(o) && var kids := NodeOf(o, parent).child;
                 InChain(kids, s) && PrevOf(o, s, q) == ChainPrev(kids, s, 0)
  {
    DistinctParts(o);
    PrevWithin(o, s, p, q);
    if o.slot == s {
    } else if s in Slots(o.child) {
      PrevWithin(o.child, s, o.slot, 0);
      ParentChain(o.child, s, o.slot, 0);
    } else {
      PrevWithin(o.next, s, p, o.slot);
      ParentChain(o.next, s, p, o.slot);
    }
  }

  lemma {:induction false} UnlinkSlots(o: Outline, s: nat)
    requires s in Slots(o) && Distinct(o)
    ensures Slots(Unlink(o, s)) == Slots(o) - {s} - Slots(NodeOf(o, s).child)
    ensures Distinct(Unlink(o, s))
  {
    DistinctParts(o);
    if o.slot == s {
    } else if s in Slots(o.child) { UnlinkSlots(o.child, s);
    } else { UnlinkSlots(o.next, s); }
  }

  lemma {:induction false} ChainNode(o: Outline, s: nat)
    requires InChain(o, s)
    ensures s in Slots(o) && Slots(NodeOf(o, s).child) <= Slots(o)
  {
    if o.slot != s { ChainNode(o.next, s); }
  }

  lemma {:induction false} PathUp(o: Outline, s: nat, up: Path)
    requires s in Slots(o) && Distinct(o) && UpSlot(up) !in Slots(o)
    ensures var p := ParentOf(o, s, UpSlot(up));
            if p == UpSlot(up) then PathTo(o, s, up).up == up
               else p in Slots(o) && PathTo(o, p, up) == PathTo(o, s, up).up
  {
    DistinctParts(o);
    PrevWithin(o, s, UpSlot(up), 0);
    if o.slot == s {
    } else if s in Slots(o.child) {
      PathUp(o.child, s, Step(o, up));
    } else {
      PathUp(o.next, s, up);
    }
  }

  lemma {:induction false} PathNode(o: Outline, s: nat, up: Path)
    requires s in Slots(o)
    ensures PathTo(o, s, up).node == NodeOf(o, s)
  {
    if o.slot == s {
    } else if s in Slots(o.child) { PathNode(o.child, s, Step(o, up));
    } else { PathNode(o.next, s, up); }
  }

  /** Cutting an element out keeps its parent and its parent's parent. */
  lemma ElderKept(o: Outline, s: nat)
    requires s in Slots(o) && Distinct(o)
    ensures var p := ParentOf(o, s, 0);
            p != 0 ==> && p in Slots(o) && p in Slots(Unlink(o, s))
                       && (ParentOf(o, p, 0) == 0 || ParentOf(o, p, 0) in Slots(Unlink(o, s)))
  {
    hide Slots, Unlink, PathTo, ParentOf, NodeOf;
    NoZero(o);
    UnlinkSlots(o, s);
    PathUp(o, s, Root);
    PathNode(o, s, Root);
    var path := PathTo(o, s, Root);
    OutlinePath(o, s);
    var p := ParentOf(o, s, 0);
    PrevWithin(o, s, 0, 0);
    if p != 0 {
      PathUp(o, p, Root);
      PathNode(o, p, Root);
      PrevWithin(o, p, 0, 0);
      ElderOutside(path, p, ParentOf(o, p, 0));
    }
  }

  lemma ElderOutside(path: Path, p: nat, pp: nat)
    requires PathOk(path) && path.Step? && path.up.Step? && path.up.node.At? && path.up.node.slot == p &&
             UpSlot(path.up.up) == pp
    ensures p != path.node.slot && p !in Slots(path.node.child) && pp != path.node.slot && pp !in Slots(path.node.child)
  {
    AroundSets(path.up.up);
    AroundSets(path.up);
    assert path.node.slot in Slots(path.node);
  }

  lemma {:induction false} TreePath(o: Outline, s: nat, up: Path)
    requires s in Slots(o) && Distinct(o) && Slots(o) !! Around(up) && PathOk(up)
    ensures PathOk(PathTo(o, s, up))
  {
    if o.slot == s {
    } else if s in Slots(o.child) { TreePath(o.child, s, Step(o, up));
    } else { TreePath(o.next, s, up); }
  }

  lemma OutlinePath(o: Outline, s: nat)
    requires s in Slots(o) && Distinct(o)
    ensures PathOk(PathTo(o, s, Root))
  {
    NoZero(o);
    TreePath(o, s, Root);
  }
}

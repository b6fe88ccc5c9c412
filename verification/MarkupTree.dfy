/**
 The text of a document as a tree: what the offsets of the index stand for.
 */
module MarkupTree {
  import opened TextScan
  import opened ElemIndex

  /** An element: an empty-element tag, or a start tag, content and an end tag. */
  datatype Elem =
    | Leaf(slot: Slot, tag: string)
    | Branch(slot: Slot, tag: string, inner: Content, close: string)

  /** Elements separated by gaps (character data, CDATA sections, comments...). */
  datatype Content =
    | End(gap: string)
    | Kid(gap: string, elem: Elem, next: Content)

  function OpenTag(tag: string): (r: string)
    ensures |r| == |tag| + 2
  { "<" + tag + ">" }

  function CloseTag(close: string): (r: string)
    ensures |r| == |close| + 3
  { "</" + close + ">" }

  function RenderE(e: Elem): string {
    match e
    case Leaf(_, t) => "<" + t + "/>"
    case Branch(_, t, inner, cl) => OpenTag(t) + Render(inner) + CloseTag(cl)
  }

  function Render(c: Content): string {
    match c
    case End(g) => g
    case Kid(g, e, next) => g + RenderE(e) + Render(next)
  }

  function LenE(e: Elem): nat {
    match e
    case Leaf(_, t) => |t| + 3
    case Branch(_, t, inner, cl) => |t| + 2 + Len(inner) + |cl| + 3
  }

  function Len(c: Content): nat {
    match c
    case End(g) => |g|
    case Kid(g, e, next) => |g| + LenE(e) + Len(next)
  }

  lemma {:induction false} LenRender(c: Content)
    ensures Len(c) == |Render(c)|
  {
    if c.Kid? { LenRenderE(c.elem); LenRender(c.next); }
  }

  lemma {:induction false} LenRenderE(e: Elem)
    ensures LenE(e) == |RenderE(e)|
  {
    if e.Branch? { LenRender(e.inner); }
  }

  /** The positions of an element written at offset `o`. */
  function LayoutE(e: Elem, o: int, next: Outline): (r: Outline)
    ensures r.At? && r.slot == e.slot && r.next == next
    ensures r.startL == o && r.endR == o + LenE(e) - 1
  {
    match e
    case Leaf(s, t) => At(s, o, o + |t| + 2, o + |t| + 1, o + |t| + 2, Nil, next)
    case Branch(s, t, inner, cl) =>
      var startR := o + |t| + 1;
      var endL := startR + 1 + Len(inner);
      At(s, o, startR, endL, endL + 2 + |cl|, Layout(inner, startR + 1), next)
  }

  function Layout(c: Content, o: int): Outline {
    match c
    case End(_) => Nil
    case Kid(g, e, next) => LayoutE(e, o + |g|, Layout(next, o + |g| + LenE(e)))
  }

  lemma {:induction false} LayoutShift(c: Content, o: int, n: int)
    ensures Layout(c, o + n) == ShiftAll(Layout(c, o), n)
  {
    if c.Kid? {
      LayoutShift(c.next, o + |c.gap| + LenE(c.elem), n);
      LayoutShiftE(c.elem, o + |c.gap|, Layout(c.next, o + |c.gap| + LenE(c.elem)), n);
    }
  }

  lemma {:induction false} LayoutShiftE(e: Elem, o: int, next: Outline, n: int)
    ensures LayoutE(e, o + n, ShiftAll(next, n)) == ShiftAll(LayoutE(e, o, next), n)
  {
    if e.Branch? { LayoutShift(e.inner, o + |e.tag| + 2, n); }
  }

  // ----- replacing one element -----------------------------------------------

  function SlotsC(c: Content): set<nat> {
    if c.End? then {} else {c.elem.slot} + (if c.elem.Branch? then SlotsC(c.elem.inner) else {}) + SlotsC(c.next)
  }

  function ElemOf(c: Content, s: nat): (e: Elem)
    requires s in SlotsC(c)
    ensures e.slot == s
  {
    if c.elem.slot == s then c.elem
    else if c.elem.Branch? && s in SlotsC(c.elem.inner) then ElemOf(c.elem.inner, s)
    else ElemOf(c.next, s)
  }

  /** The text of `c` before and behind the element with slot `s`. */
  function Before(c: Content, s: nat): string
    requires s in SlotsC(c)
  {
    if c.elem.slot == s then c.gap
    else if c.elem.Branch? && s in SlotsC(c.elem.inner) then
      c.gap + OpenTag(c.elem.tag) + Before(c.elem.inner, s)
    else c.gap + RenderE(c.elem) + Before(c.next, s)
  }

  function Behind(c: Content, s: nat): string
    requires s in SlotsC(c)
  {
    if c.elem.slot == s then Render(c.next)
    else if c.elem.Branch? && s in SlotsC(c.elem.inner) then
      Behind(c.elem.inner, s) + CloseTag(c.elem.close) + Render(c.next)
    else Behind(c.next, s)
  }

  function Replace(c: Content, s: nat, e: Elem): Content
    requires s in SlotsC(c)
  {
    if c.elem.slot == s then c.(elem := e)
    else if c.elem.Branch? && s in SlotsC(c.elem.inner) then
      c.(elem := c.elem.(inner := Replace(c.elem.inner, s, e)))
    else c.(next := Replace(c.next, s, e))
  }

  lemma {:induction false} ReplaceText(c: Content, s: nat, e: Elem)
    requires s in SlotsC(c)
    ensures Render(c) == Before(c, s) + RenderE(ElemOf(c, s)) + Behind(c, s)
    ensures Render(Replace(c, s, e)) == Before(c, s) + RenderE(e) + Behind(c, s)
  {
    var x, y := c.elem, RenderE(ElemOf(c, s));
    if x.slot == s {
    } else if x.Branch? && s in SlotsC(x.inner) {
      ReplaceText(x.inner, s, e);
      var l, r, cl := Before(x.inner, s), Behind(x.inner, s), CloseTag(x.close);
      AssocIn(c.gap, OpenTag(x.tag), l, y, r, cl, Render(c.next));
      AssocIn(c.gap, OpenTag(x.tag), l, RenderE(e), r, cl, Render(c.next));
    } else {
      ReplaceText(c.next, s, e);
      var l, r := Before(c.next, s), Behind(c.next, s);
      AssocNext(c.gap, RenderE(x), l, y, r);
      AssocNext(c.gap, RenderE(x), l, RenderE(e), r);
    }
  }

  /** Where the element with slot `s` starts. */
  function Offset(c: Content, s: nat): nat
    requires s in SlotsC(c)
  {
    if c.elem.slot == s then |c.gap|
    else if c.elem.Branch? && s in SlotsC(c.elem.inner) then
      |c.gap| + |c.elem.tag| + 2 + Offset(c.elem.inner, s)
    else |c.gap| + LenE(c.elem) + Offset(c.next, s)
  }

  lemma {:induction false} OffsetBefore(c: Content, s: nat)
    requires s in SlotsC(c)
    ensures Offset(c, s) == |Before(c, s)|
  {
    if c.elem.slot == s {
    } else if c.elem.Branch? && s in SlotsC(c.elem.inner) {
      OffsetBefore(c.elem.inner, s);
    } else {
      LenRenderE(c.elem);
      OffsetBefore(c.next, s);
    }
  }

  lemma {:induction false} ReplaceLen(c: Content, s: nat, e: Elem)
    requires s in SlotsC(c)
    ensures Len(Replace(c, s, e)) == Len(c) + LenE(e) - LenE(ElemOf(c, s))
  {
    if c.elem.slot == s {
    } else if c.elem.Branch? && s in SlotsC(c.elem.inner) {
      ReplaceLen(c.elem.inner, s, e);
    } else {
      ReplaceLen(c.next, s, e);
    }
  }

  lemma {:induction false} LayoutSlots(c: Content, o: int)
    ensures Slots(Layout(c, o)) == SlotsC(c)
  {
    if c.Kid? {
      LayoutSlots(c.next, o + |c.gap| + LenE(c.elem));
      if c.elem.Branch? { LayoutSlots(c.elem.inner, o + |c.gap| + |c.elem.tag| + 2); }
    }
  }

  /** Growing the content of a branch by `n` characters moves its end and what follows. */
  lemma PatchBranch(x: Elem, inner: Content, p: int, next: Outline, n: int, s: nat, nd: Outline)
    requires x.Branch? && Len(inner) == Len(x.inner) + n && s != x.slot && nd.At?
    requires s in Slots(Layout(x.inner, p + |x.tag| + 2))
    requires Layout(inner, p + |x.tag| + 2) == Patch(Layout(x.inner, p + |x.tag| + 2), s, n, nd)
    ensures s in Slots(LayoutE(x, p, next)) && LayoutE(x.(inner := inner), p, ShiftAll(next, n)) ==
            Patch(LayoutE(x, p, next), s, n, nd)
  {
    hide Layout, Len, ShiftAll, LenE;
  }

  lemma PatchNext(x: Elem, p: int, next: Outline, next': Outline, n: int, s: nat, nd: Outline)
    requires s !in Slots(LayoutE(x, p, Nil)) && nd.At? && s in Slots(next) && next' == Patch(next, s, n, nd)
    ensures s in Slots(LayoutE(x, p, next)) && LayoutE(x, p, next') == Patch(LayoutE(x, p, next), s, n, nd)
  {
  }

  ghost predicate Replaced(c: Content, s: nat, e: Elem, o: int)
    requires s in SlotsC(c)
  {
    s in Slots(Layout(c, o)) &&
    Layout(Replace(c, s, e), o) ==
      Patch(Layout(c, o), s, LenE(e) - LenE(ElemOf(c, s)), LayoutE(e, o + Offset(c, s), Nil))
  }

  /** Replacing an element moves the layout as x_Adjust moves the index, the element itself aside. */
  lemma {:induction false} ReplaceLayout(c: Content, s: nat, e: Elem, o: int)
    requires s in SlotsC(c) && e.slot == s
    ensures Replaced(c, s, e, o)
    decreases c
  {
    var x := c.elem;
    LayoutSlots(c, o);
    if x.slot == s {
      ReplaceHere(c, e, o);
    } else if x.Branch? && s in SlotsC(x.inner) {
      ReplaceLayout(x.inner, s, e, o + |c.gap| + |x.tag| + 2);
      ReplaceInside(c, s, e, o);
    } else {
      ReplaceLayout(c.next, s, e, o + |c.gap| + LenE(x));
      ReplaceLater(c, s, e, o);
    }
  }

  lemma ReplaceHere(c: Content, e: Elem, o: int)
    requires c.Kid? && e.slot == c.elem.slot
    ensures Replaced(c, e.slot, e, o)
  {
    LayoutShift(c.next, o + |c.gap| + LenE(c.elem), LenE(e) - LenE(c.elem));
  }

  lemma ReplaceInside(c: Content, s: nat, e: Elem, o: int)
    requires c.Kid? && c.elem.Branch? && s != c.elem.slot && s in SlotsC(c.elem.inner) && e.slot == s
    requires Replaced(c.elem.inner, s, e, o + |c.gap| + |c.elem.tag| + 2)
    ensures Replaced(c, s, e, o)
  {
    var x, p := c.elem, o + |c.gap|;
    var inner := Replace(x.inner, s, e);
    var n := LenE(e) - LenE(ElemOf(x.inner, s));
    var nd := LayoutE(e, p + |x.tag| + 2 + Offset(x.inner, s), Nil);
    ReplaceLen(x.inner, s, e);
    PatchKid(c, inner, o, n, s, nd);
  }

  lemma PatchKid(c: Content, inner: Content, o: int, n: int, s: nat, nd: Outline)
    requires c.Kid? && c.elem.Branch? && Len(inner) == Len(c.elem.inner) + n && s != c.elem.slot && nd.At?
    requires s in Slots(Layout(c.elem.inner, o + |c.gap| + |c.elem.tag| + 2))
    requires Layout(inner, o + |c.gap| + |c.elem.tag| + 2) ==
             Patch(Layout(c.elem.inner, o + |c.gap| + |c.elem.tag| + 2), s, n, nd)
    ensures s in Slots(Layout(c, o)) && Layout(c.(elem := c.elem.(inner := inner)), o) == Patch(Layout(c, o), s, n, nd)
  {
    hide LayoutE, LenE, Patch, Slots, ShiftAll;
    var x, p := c.elem, o + |c.gap|;
    LayoutShift(c.next, p + LenE(x), n);
    GrownBy(x, inner, n);
    var y := c.(elem := x.(inner := inner));
    KidLayout(y, y.next, o);
    KidLayout(c, c.next, o);
    assert y.(next := y.next) == y && c.(next := c.next) == c;
    PatchBranch(x, inner, p, Layout(c.next, p + LenE(x)), n, s, nd);
  }

  lemma LaterParts(c: Content, s: nat, e: Elem, o: int)
    requires c.Kid? && s != c.elem.slot && (c.elem.Branch? ==> s !in SlotsC(c.elem.inner)) && s in SlotsC(c.next)
    ensures s in SlotsC(c) && ElemOf(c, s) == ElemOf(c.next, s) &&
            Offset(c, s) == |c.gap| + LenE(c.elem) + Offset(c.next, s)
    ensures Replace(c, s, e) == c.(next := Replace(c.next, s, e))
  {
    hide LenE;
  }

  lemma KidLayout(c: Content, next: Content, o: int)
    requires c.Kid?
    ensures var p := o + |c.gap|; Layout(c.(next := next), o) == LayoutE(c.elem, p, Layout(next, p + LenE(c.elem)))
  {
    hide LenE, LayoutE;
  }

  lemma NotWithin(x: Elem, p: int, s: nat)
    requires s != x.slot && (x.Branch? ==> s !in SlotsC(x.inner))
    ensures s !in Slots(LayoutE(x, p, Nil))
  {
    if x.Branch? { LayoutSlots(x.inner, p + |x.tag| + 2); }
  }

  lemma GrownBy(x: Elem, inner: Content, n: int)
    requires x.Branch? && Len(inner) == Len(x.inner) + n
    ensures LenE(x.(inner := inner)) == LenE(x) + n
  {
  }

  lemma ReplaceLater(c: Content, s: nat, e: Elem, o: int)
    requires c.Kid? && s != c.elem.slot && (c.elem.Branch? ==> s !in SlotsC(c.elem.inner)) && s in SlotsC(c.next)
    requires e.slot == s && Replaced(c.next, s, e, o + |c.gap| + LenE(c.elem))
    ensures s in SlotsC(c) && Replaced(c, s, e, o)
  {
    hide LenE, LayoutE, Layout, Slots, SlotsC, Patch, ElemOf, Replace, Offset;
    var x, p := c.elem, o + |c.gap|;
    LaterParts(c, s, e, o);
    KidLayout(c, c.next, o);
    KidLayout(c, Replace(c.next, s, e), o);
    var n := LenE(e) - LenE(ElemOf(c, s));
    NotWithin(x, p, s);
    PatchNext(x, p, Layout(c.next, p + LenE(x)), Layout(Replace(c.next, s, e), p + LenE(x)), n, s,
              LayoutE(e, o + Offset(c, s), Nil));
    assert c.(next := c.next) == c;
    assert Replaced(c, s, e, o);
  }

  /** The outline holds, at each slot, the layout of that element. */
  lemma {:induction false} NodeLayout(c: Content, s: nat, o: int)
    requires s in SlotsC(c)
    ensures s in Slots(Layout(c, o))
    ensures var nd := NodeOf(Layout(c, o), s); nd == LayoutE(ElemOf(c, s), o + Offset(c, s), nd.next)
    decreases c
  {
    hide LenE, LayoutE;
    var p := o + |c.gap|;
    var next := Layout(c.next, p + LenE(c.elem));
    assert Layout(c, o) == LayoutE(c.elem, p, next);
    NodeStep(c.elem, p, next, s);
    if c.elem.slot == s {
    } else if c.elem.Branch? && s in SlotsC(c.elem.inner) {
      NodeLayout(c.elem.inner, s, p + |c.elem.tag| + 2);
    } else {
      NodeLayout(c.next, s, p + LenE(c.elem));
    }
  }

  lemma NodeStep(e: Elem, p: int, next: Outline, s: nat)
    ensures var o := LayoutE(e, p, next);
            if s == e.slot then s in Slots(o) && NodeOf(o, s) == o
            else if e.Branch? && s in SlotsC(e.inner) then
              var kids := Layout(e.inner, p + |e.tag| + 2);
              s in Slots(o) && s in Slots(kids) && NodeOf(o, s) == NodeOf(kids, s)
            else s in Slots(next) ==> s in Slots(o) && NodeOf(o, s) == NodeOf(next, s)
  {
    hide LayoutE, Layout, SlotsC;
    NodeParts(e, p, next);
    if e.Branch? { LayoutSlots(e.inner, p + |e.tag| + 2); }
  }

  lemma NodeParts(e: Elem, p: int, next: Outline)
    ensures LayoutE(e, p, next).child == if e.Branch? then Layout(e.inner, p + |e.tag| + 2) else Nil
  {
    hide Layout;
  }

  /** New content for one element: its end and everything behind it move by the growth of the content. */
  lemma InnerLayout(c: Content, s: nat, inner: Content, o: int)
    requires s in SlotsC(c) && ElemOf(c, s).Branch?
    ensures s in Slots(Layout(c, o))
    ensures var n, nd := Len(inner) - Len(ElemOf(c, s).inner), NodeOf(Layout(c, o), s);
            Layout(Replace(c, s, ElemOf(c, s).(inner := inner)), o) ==
              Patch(Layout(c, o), s, n, nd.(endL := nd.endL + n, endR := nd.endR + n,
                  child := Layout(inner, nd.startR + 1)))
  {
    var e := ElemOf(c, s);
    var e' := e.(inner := inner);
    var at := o + Offset(c, s);
    ReplaceLayout(c, s, e', o);
    NodeLayout(c, s, o);
    var nd := NodeOf(Layout(c, o), s);
    PatchAnyNext(Layout(c, o), s, LenE(e') - LenE(e), LayoutE(e', at, Nil), LayoutE(e', at, nd.next));
  }

  lemma {:induction false} PatchAnyNext(o: Outline, s: nat, n: int, x: Outline, y: Outline)
    requires s in Slots(o) && x.At? && y.At? && x.(next := Nil) == y.(next := Nil)
    ensures Patch(o, s, n, x) == Patch(o, s, n, y)
  {
    if o.slot == s {
    } else if s in Slots(o.child) { PatchAnyNext(o.child, s, n, x, y);
    } else { PatchAnyNext(o.next, s, n, x, y); }
  }
}

/**
 The invariant that ties the document text, the element index and the tree
 together, and one lemma per edit saying what keeps it.
 */
module MarkupState {
  import opened TextScan
  import opened ElemIndex
  import opened MarkupTree
  import opened MarkupParse
  import opened MarkupWellFormed
  import opened MarkupEdit
  import opened MarkupTag

  type Elem = MarkupTree.Elem

  // ----- well-formed trees ---------------------------------------------------

  ghost predicate WfE(e: Elem) {
    TagOk(e.tag) && (e.Branch? ==> CloseOk(e.close, TagName(e.tag)) && Wf(e.inner))
  }

  ghost predicate Wf(c: Content) {
    GapOk(c.gap) && (c.Kid? ==> WfE(c.elem) && Wf(c.next))
  }

  lemma TagOkShape(tag: string)
    requires TagOk(tag)
    ensures TagShape(tag) && NameOk(TagName(tag))
  {
    hide TagText;
    var t :| WfTag(t) && TagText(t) == tag;
    TagTextShape(t);
  }

  lemma {:induction false} WfShaped(c: Content)
    requires Wf(c)
    ensures Shaped(c)
  {
    hide TagOk, TagShape, CloseOk, GapFrom;
    if c.Kid? {
      WfElemShape(c.elem);
      WfShaped(c.next);
    }
  }

  lemma {:induction false} WfElemShape(e: Elem)
    requires WfE(e)
    ensures ElemShape(e)
  {
    hide TagOk, TagShape, CloseOk, GapFrom;
    TagOkShape(e.tag);
    if e.Branch? { WfShaped(e.inner); }
  }

  lemma {:induction false} WfElemOf(c: Content, s: nat)
    requires Wf(c) && s in SlotsC(c)
    ensures WfE(ElemOf(c, s))
  {
    hide TagOk, CloseOk, GapFrom;
    if c.elem.slot == s {
    } else if c.elem.Branch? && s in SlotsC(c.elem.inner) { WfElemOf(c.elem.inner, s);
    } else { WfElemOf(c.next, s); }
  }

  lemma {:induction false} WfReplace(c: Content, s: nat, e: Elem)
    requires Wf(c) && s in SlotsC(c) && WfE(e)
    ensures Wf(Replace(c, s, e))
  {
    hide TagOk, CloseOk, GapFrom;
    if c.elem.slot == s {
    } else if c.elem.Branch? && s in SlotsC(c.elem.inner) { WfReplace(c.elem.inner, s, e);
    } else { WfReplace(c.next, s, e); }
  }

  // ----- the text at an element ----------------------------------------------

  lemma ElemInText(c: Content, s: nat)
    requires s in SlotsC(c)
    ensures Has(Render(c), Offset(c, s), RenderE(ElemOf(c, s)))
  {
    hide Render, RenderE;
    ReplaceText(c, s, ElemOf(c, s));
    OffsetBefore(c, s);
    HasMid(Before(c, s), RenderE(ElemOf(c, s)), Behind(c, s));
  }

  // ----- the records of the index --------------------------------------------

  ghost predicate IndexOk(a: seq<ElemPos>, free: nat, c: Content) {
    var o := Layout(c, 0);
    && |a| >= 8 && 1 <= free <= |a|
    && Indexed(a, o, 0) && Distinct(o) && (forall s :: s in SlotsC(c) ==> s < free)
    && a[0].child == Head(o) && a[0].startL == 0 && a[0].startR == 0
  }

  lemma {:induction false} RecordOf(a: seq<ElemPos>, o: Outline, s: nat, p: nat)
    requires Indexed(a, o, p) && s in Slots(o)
    ensures var nd := NodeOf(o, s);
            s < |a| && a[s] == ElemPos(nd.startL, nd.startR, nd.endL, nd.endR, ParentOf(o, s, p), Head(nd.child),
                Head(nd.next))
            && Indexed(a, nd.child, s)
  {
    if o.slot == s {
    } else if s in Slots(o.child) { RecordOf(a, o.child, s, o.slot);
    } else { RecordOf(a, o.next, s, p); }
  }

  /** What the record of a live element says. */
  lemma RecordAt(a: seq<ElemPos>, free: nat, c: Content, s: nat)
    requires IndexOk(a, free, c) && s in SlotsC(c)
    ensures s in Slots(Layout(c, 0)) && s < |a|
    ensures var e, at, nd := ElemOf(c, s), Offset(c, s), NodeOf(Layout(c, 0), s);
            && nd == LayoutE(e, at, nd.next)
            && a[s] == ElemPos(nd.startL, nd.startR, nd.endL, nd.endR, ParentOf(Layout(c, 0), s, 0), Head(nd.child),
                 Head(nd.next))
            && a[s].startL == at && a[s].startR == at + |e.tag| + (if e.Leaf? then 2 else 1)
            && (a[s].IsEmptyElement() <==> e.Leaf?) && (a[s].child != 0 <==> e.Branch? && e.inner.Kid?)
            && Indexed(a, nd.child, s)
  {
    NodeLayout(c, s, 0);
    RecordOf(a, Layout(c, 0), s, 0);
  }

  // ----- changing a start tag ------------------------------------------------

  lemma RetagLayout(c: Content, s: nat, tag: string)
    requires s in SlotsC(c) && Distinct(Layout(c, 0))
    ensures s in Slots(Layout(c, 0))
    ensures var o := Layout(c, 0); var nd := NodeOf(o, s); var n := |tag| - |ElemOf(c, s).tag|;
            var nd' := nd.(startR := nd.startR + n, endL := nd.endL + n, endR := nd.endR + n);
            s in Slots(PutNode(o, s, nd')) &&
            Layout(Replace(c, s, ElemOf(c, s).(tag := tag)), 0) == AdjustAt(PutNode(o, s, nd'), s, n, false)
  {
    hide Layout, LayoutE, AdjustAt, Patch, PutNode, Distinct, Slots, SlotsC, Replace;
    var o, e := Layout(c, 0), ElemOf(c, s);
    var e' := e.(tag := tag);
    var n := |tag| - |e.tag|;
    NodeLayout(c, s, 0);
    ReplaceLayout(c, s, e', 0);
    var nd, at := NodeOf(o, s), Offset(c, s);
    var nd' := nd.(startR := nd.startR + n, endL := nd.endL + n, endR := nd.endR + n);
    AdjustPut(o, s, nd', n);
    assert Replaced(c, s, e', 0);
    RetagElem(e, tag, at, nd.next, n);
    PatchAnyNext(o, s, n, LayoutE(e', at, Nil), nd'.(child := ShiftAll(nd.child, n)));
  }

  lemma RetagElem(e: Elem, tag: string, at: int, next: Outline, n: int)
    requires n == |tag| - |e.tag|
    ensures LenE(e.(tag := tag)) - LenE(e) == n
    ensures var nd := LayoutE(e, at, next);
            LayoutE(e.(tag := tag), at, Nil).(next := Nil) ==
              nd.(startR := nd.startR + n, endL := nd.endL + n, endR := nd.endR + n, child := ShiftAll(nd.child, n),
                  next := Nil)
  {
    if e.Branch? { LayoutShift(e.inner, at + |e.tag| + 2, n); }
  }

  lemma RetagText(c: Content, s: nat, at: nat, len: nat, ins: string)
    requires s in SlotsC(c) && at + len <= |ElemOf(c, s).tag|
    ensures var e, i := ElemOf(c, s), Offset(c, s) + 1 + at;
            && i + len <= |Render(c)|
            && Render(Replace(c, s, e.(tag := Splice(e.tag, at, len, ins)))) == Splice(Render(c), i, len, ins)
  {
    hide Render, RenderE, Replace;
    var e := ElemOf(c, s);
    var e' := e.(tag := Splice(e.tag, at, len, ins));
    ReplaceText(c, s, e');
    OffsetBefore(c, s);
    RetagElemText(e, at, len, ins);
    SpliceMid(Before(c, s), RenderE(e), Behind(c, s), 1 + at, len, ins);
  }

  lemma RetagElemText(e: Elem, at: nat, len: nat, ins: string)
    requires at + len <= |e.tag|
    ensures 1 + at + len <= |RenderE(e)| && RenderE(e.(tag := Splice(e.tag, at, len, ins))) ==
            Splice(RenderE(e), 1 + at, len, ins)
  {
    hide Render;
    var z := if e.Leaf? then "/>" else ">" + Render(e.inner) + CloseTag(e.close);
    OpenTail(e);
    OpenTail(e.(tag := Splice(e.tag, at, len, ins)));
    SpliceMid("<", e.tag, z, at, len, ins);
  }

  lemma OpenTail(e: Elem)
    ensures RenderE(e) == "<" + e.tag + if e.Leaf? then "/>" else ">" + Render(e.inner) + CloseTag(e.close)
  {
    if e.Branch? {
      var i, c := Render(e.inner), CloseTag(e.close);
      assert ("<" + e.tag + ">") + i + c == "<" + e.tag + (">" + i + c);
    }
  }

  // ----- attributes ----------------------------------------------------------

  /** The start tag of an element, seen by x_FindAttrib. */
  lemma TagInText(c: Content, s: nat)
    requires s in SlotsC(c)
    ensures var e, n := ElemOf(c, s), Offset(c, s) + 1;
            && Has(Render(c), n, e.tag) && n + |e.tag| < |Render(c)|
            && Render(c)[n + |e.tag|] == (if e.Leaf? then '/' else '>')
  {
    hide Render, RenderE, Has, Offset, ElemOf, SlotsC;
    ElemInText(c, s);
    TagInElem(Render(c), Offset(c, s), ElemOf(c, s));
  }

  lemma TagInElem(d: string, at: nat, e: Elem)
    requires Has(d, at, RenderE(e))
    ensures Has(d, at + 1, e.tag) && at + 1 + |e.tag| < |d| && d[at + 1 + |e.tag|] == (if e.Leaf? then '/' else '>')
  {
    hide Render, RenderE, Has;
    OpenTail(e);
    var z := if e.Leaf? then "/>" else ">" + Render(e.inner) + CloseTag(e.close);
    assert z[0] == (if e.Leaf? then '/' else '>');
    HasConcat(d, at, "<" + e.tag, z);
    HasConcat(d, at, "<", e.tag);
    HasChar(d, at + 1 + |e.tag|, z, 0);
  }

  // ----- keeping the index ---------------------------------------------------

  /** Rewriting the offsets of one record keeps a tree indexed. */
  lemma PutOffsets(a: seq<ElemPos>, o: Outline, s: nat, nd: Outline)
    requires Indexed(a, o, 0) && Distinct(o) && s in Slots(o)
    requires nd.At? && nd.slot == s && nd.child == NodeOf(o, s).child
    ensures s < |a|
    ensures var b := a[s := a[s].(startL := nd.startL, startR := nd.startR, endL := nd.endL, endR := nd.endR)];
            && Indexed(b, PutNode(o, s, nd), 0) && Distinct(PutNode(o, s, nd)) && s in Slots(PutNode(o, s, nd))
            && Slots(PutNode(o, s, nd)) == Slots(o) && Head(PutNode(o, s, nd)) == Head(o)
  {
    hide PutNode, Slots, Distinct;
    RecordOf(a, o, s, 0);
    DistinctNode(o, s);
    NodeWithin(o, s);
    var b := a[s := a[s].(startL := nd.startL, startR := nd.startR, endL := nd.endL, endR := nd.endR)];
    IndexedFrame(a, b, nd.child, s);
    PutIndexed(a, b, o, s, nd, 0);
    SoloDistinct(NodeOf(o, s), nd);
    PutSlots(o, s, nd);
    PutHead(o, s, nd);
  }

  lemma PutRecord(a: seq<ElemPos>, free: nat, c: Content, s: nat, nd: Outline)
    requires IndexOk(a, free, c) && s in SlotsC(c) && s in Slots(Layout(c, 0)) && s < |a|
    requires nd.At? && nd.slot == s && nd.child == NodeOf(Layout(c, 0), s).child
    ensures var o := Layout(c, 0);
            var b := a[s := a[s].(startL := nd.startL, startR := nd.startR, endL := nd.endL, endR := nd.endR)];
            && Indexed(b, PutNode(o, s, nd), 0) && Distinct(PutNode(o, s, nd)) && s in Slots(PutNode(o, s, nd))
            && Slots(PutNode(o, s, nd)) == SlotsC(c) && Head(PutNode(o, s, nd)) == Head(o)
  {
    hide Layout, PutNode, SlotsC, Slots, Indexed, Distinct;
    LayoutSlots(c, 0);
    PutOffsets(a, Layout(c, 0), s, nd);
  }

  lemma NodeWithin(o: Outline, s: nat)
    requires s in Slots(o) && Distinct(o)
    ensures s !in Slots(NodeOf(o, s).child) && Slots(NodeOf(o, s).child) <= Slots(o)
  {
    DistinctNode(o, s);
    DistinctParts(NodeOf(o, s));
  }

  lemma SoloDistinct(x: Outline, nd: Outline)
    requires x.At? && nd.At? && Distinct(x) && nd.slot == x.slot && nd.child == x.child
    ensures Distinct(nd.(next := Nil))
  {
    var nil := Nil;
    assert Distinct(nil) && Slots(nil) == {};
    DistinctParts(x);
  }

  lemma PutHead(o: Outline, s: nat, nd: Outline)
    requires s in Slots(o) && nd.At? && nd.slot == s
    ensures Head(PutNode(o, s, nd)) == Head(o)
  {
  }

  lemma {:induction false} SlotsReplace(c: Content, s: nat, e: Elem)
    requires s in SlotsC(c) && e.slot == s
    requires (if e.Branch? then SlotsC(e.inner) else {}) ==
             (if ElemOf(c, s).Branch? then SlotsC(ElemOf(c, s).inner) else {})
    ensures SlotsC(Replace(c, s, e)) == SlotsC(c)
  {
    if c.elem.slot == s {
    } else if c.elem.Branch? && s in SlotsC(c.elem.inner) { SlotsReplace(c.elem.inner, s, e);
    } else { SlotsReplace(c.next, s, e); }
  }

  lemma ReplaceRoot(c: Content, s: nat, e: Elem)
    requires s in SlotsC(c) && (c.Kid? ==> c.next.End?)
    ensures var d := Replace(c, s, e); d.Kid? ==> d.next.End?
  {
  }

  /** As below, with the end of `s` moved once more after the walk. */
  lemma WalkedThenPut(a: seq<ElemPos>, b: seq<ElemPos>, free: nat, o: Outline, s: nat, n: int, nd: Outline, c: Content)
    requires |a| >= 8 && 1 <= free <= |a| && Distinct(o) && s in Slots(o) && a[0].child == Head(o) &&
             a[0].startL == 0 && a[0].startR == 0
    requires nd.At? && nd.slot == s && nd.child.Nil?
    requires var moved := AdjustAt(o, s, n, false);
             && Indexed(b, moved, 0) && s in Slots(moved) && NodeOf(moved, s).(next := Nil) == nd.(next := Nil)
             && Layout(c, 0) == PutNode(moved, s, nd.(endL := nd.endL + n, endR := nd.endR + n))
    requires (forall k :: k in Slots(o) ==> k < free) && b[0] == a[0].AdjustEnd(n) && SameLinks(a, b)
    ensures s < |b| && s != 0
    ensures IndexOk(b[s := b[s].AdjustEnd(n)], free, c)
    ensures SlotsC(c) == Slots(o)
  {
    hide Layout, AdjustAt, SlotsC, Distinct, PutNode, Indexed, Slots;
    var moved := AdjustAt(o, s, n, false);
    var x := nd.(endL := nd.endL + n, endR := nd.endR + n);
    AdjustDistinct(o, s, n, false);
    AdjustSlots(o, s, n, false);
    PutOffsets(b, moved, s, x);
    RecordOf(b, moved, s, 0);
    LayoutSlots(c, 0);
    NoZero(o);
    assert b[s].AdjustEnd(n) == b[s].(startL := x.startL, startR := x.startR, endL := x.endL, endR := x.endR);
    assert IndexOk(b[s := b[s].AdjustEnd(n)], free, c);
  }

  /** The index after a walk over `o`, when the walk ends on the layout of `c`. */
  lemma WalkedIndex(a: seq<ElemPos>, b: seq<ElemPos>, free: nat, o: Outline, s: nat, n: int, afterPos: bool, c: Content)
    requires |a| >= 8 && 1 <= free <= |a| && Distinct(o) && s in Slots(o) && a[0].child == Head(o) &&
             a[0].startL == 0 && a[0].startR == 0
    requires Layout(c, 0) == AdjustAt(o, s, n, afterPos) && (forall k :: k in Slots(o) ==> k < free)
    requires Indexed(b, AdjustAt(o, s, n, afterPos), 0) && b[0] == a[0].AdjustEnd(n) && SameLinks(a, b)
    ensures IndexOk(b, free, c) && SlotsC(c) == Slots(o)
  {
    hide Layout, AdjustAt, SlotsC, Distinct;
    AdjustDistinct(o, s, n, afterPos);
    AdjustSlots(o, s, n, afterPos);
    LayoutSlots(c, 0);
    assert IndexOk(b, free, c);
  }

  lemma {:induction false} ElemOfReplace(c: Content, s: nat, e: Elem)
    requires s in SlotsC(c) && e.slot == s
    ensures s in SlotsC(Replace(c, s, e)) && Offset(Replace(c, s, e), s) == Offset(c, s)
    ensures ElemOf(Replace(c, s, e), s) == e
  {
    if c.elem.slot == s {
    } else if c.elem.Branch? && s in SlotsC(c.elem.inner) { ElemOfReplace(c.elem.inner, s, e);
    } else { ElemOfReplace(c.next, s, e); }
  }

  // ----- changing the data of an element -------------------------------------

  /** An element without children, with `g` as its only content. */
  function FilledWith(e: Elem, g: string): (r: Elem)
    ensures r.slot == e.slot && r.tag == e.tag && r.Branch?
  {
    match e
    case Leaf(s, tag) => Branch(s, tag, End(g), TagName(tag))
    case Branch(s, tag, _, close) => Branch(s, tag, End(g), close)
  }

  lemma FillWf(c: Content, s: nat, g: string)
    requires Wf(c) && s in SlotsC(c) && GapOk(g)
    ensures WfE(FilledWith(ElemOf(c, s), g))
  {
    hide TagOk, GapFrom, TagName;
    WfElemOf(c, s);
    var name := TagName(ElemOf(c, s).tag);
    assert name[..|name|] == name;
    assert Wf(End(g));
  }

  /** The text of the element, with `old'` as its content and nothing between the tags of an empty element. */
  lemma FillText(e: Elem, g: string)
    requires e.Branch? ==> e.inner.End?
    ensures var at := |e.tag| + (if e.Leaf? then 1 else 2); var len := if e.Leaf? then 1 else |e.inner.gap|;
            var ins := if e.Leaf? then ">" + g + "</" + TagName(e.tag) else g;
            && at + len <= |RenderE(e)| && RenderE(FilledWith(e, g)) == Splice(RenderE(e), at, len, ins)
  {
    hide TagName;
    match e
    case Leaf(_, tag) =>
      var name := TagName(tag);
      assert RenderE(e) == ("<" + tag) + "/" + ">";
      SpliceAt("<" + tag, "/", ">", ">" + g + "</" + name);
      assert RenderE(FilledWith(e, g)) == ("<" + tag + ">") + g + ("</" + name + ">");
      assert ("<" + tag + ">") + g + ("</" + name + ">") == ("<" + tag) + (">" + g + "</" + name) + ">";
    case Branch(_, tag, inner, close) =>
      SpliceAt(OpenTag(tag), inner.gap, CloseTag(close), g);
  }

  lemma FillDoc(c: Content, s: nat, g: string)
    requires s in SlotsC(c) && (ElemOf(c, s).Branch? ==> ElemOf(c, s).inner.End?)
    ensures var e := ElemOf(c, s); var at := Offset(c, s) + |e.tag| + (if e.Leaf? then 1 else 2);
            var len := if e.Leaf? then 1 else |e.inner.gap|;
            var ins := if e.Leaf? then ">" + g + "</" + TagName(e.tag) else g;
            && at + len <= |Render(c)| && Render(Replace(c, s, FilledWith(e, g))) == Splice(Render(c), at, len, ins)
            && |ins| - len == LenE(FilledWith(e, g)) - LenE(e)
  {
    hide Render, RenderE, Replace, TagName, FilledWith, Offset, ElemOf, SlotsC, Before, Behind;
    var e := ElemOf(c, s);
    var e' := FilledWith(e, g);
    var at := |e.tag| + (if e.Leaf? then 1 else 2);
    var len := if e.Leaf? then 1 else |e.inner.gap|;
    var ins := if e.Leaf? then ">" + g + "</" + TagName(e.tag) else g;
    ReplaceText(c, s, e');
    OffsetBefore(c, s);
    FillText(e, g);
    LenRenderE(e);
    LenRenderE(e');
    SpliceMid(Before(c, s), RenderE(e), Behind(c, s), at, len, ins);
  }

  /** The record of the element before the walk, as x_SetData leaves it. */
  function PreFilled(nd: Outline, e: Elem): Outline
    requires nd.At?
  {
    if e.Leaf? then nd.(startR := nd.startR - 1, endL := nd.endL - 1 - |TagName(e.tag)|) else nd
  }

  lemma FillLayout(c: Content, s: nat, g: string)
    requires s in SlotsC(c) && Distinct(Layout(c, 0)) && (ElemOf(c, s).Branch? ==> ElemOf(c, s).inner.End?)
    ensures s in Slots(Layout(c, 0))
    ensures var o, e := Layout(c, 0), ElemOf(c, s); var nd := PreFilled(NodeOf(o, s), e);
            var n := LenE(FilledWith(e, g)) - LenE(e);
            && s in Slots(PutNode(o, s, nd)) && var moved := AdjustAt(PutNode(o, s, nd), s, n, false);
               && s in Slots(moved) && NodeOf(moved, s).child == Nil
               && NodeOf(moved, s).(next := Nil) == nd.(next := Nil)
               && Layout(Replace(c, s, FilledWith(e, g)), 0) ==
                    PutNode(moved, s, nd.(endL := nd.endL + n, endR := nd.endR + n))
  {
    hide Layout, LayoutE, AdjustAt, Patch, PutNode, Distinct, Slots, SlotsC, Replace, LenE, FilledWith, PreFilled;
    var o, e := Layout(c, 0), ElemOf(c, s);
    var e' := FilledWith(e, g);
    NodeLayout(c, s, 0);
    var nd, n, at := PreFilled(NodeOf(o, s), e), LenE(e') - LenE(e), Offset(c, s);
    ReplaceLayout(c, s, e', 0);
    assert Replaced(c, s, e', 0);
    FillNode(e, g, at, NodeOf(o, s).next);
    var x := nd.(endL := nd.endL + n, endR := nd.endR + n);
    NoKidsHere(o, s, nd);
    AdjustPut(o, s, nd, n);
    assert ShiftAll(nd.child, n) == nd.child;
    PatchAnyNext(o, s, n, LayoutE(e', at, Nil), x);
    PutPatch(o, s, n, nd, x);
  }

  lemma NoKidsHere(o: Outline, s: nat, nd: Outline)
    requires s in Slots(o) && nd.At? && nd.child.Nil?
    ensures Slots(nd.child) * Slots(o) <= Slots(NodeOf(o, s).child)
  {
    assert Slots(nd.child) == {};
  }

  lemma FillNode(e: Elem, g: string, at: int, next: Outline)
    requires e.Branch? ==> e.inner.End?
    ensures var nd := PreFilled(LayoutE(e, at, next), e); var n := LenE(FilledWith(e, g)) - LenE(e);
            && nd.At? && nd.slot == e.slot && nd.child.Nil?
            && LayoutE(FilledWith(e, g), at, Nil) == nd.(endL := nd.endL + n, endR := nd.endR + n, next := Nil)
  {
    hide TagName;
    assert Layout(End(g), 0) == Nil;
    assert Len(End(g)) == |g|;
  }

  lemma {:induction false} PutPatch(o: Outline, s: nat, n: int, x: Outline, y: Outline)
    requires s in Slots(o) && x.At? && y.At? && x.slot == s && y.slot == s && x.child.Nil? && Distinct(o)
    ensures s in Slots(Patch(o, s, n, x)) && NodeOf(Patch(o, s, n, x), s).At? &&
            PutNode(Patch(o, s, n, x), s, y) == Patch(o, s, n, y)
    ensures NodeOf(Patch(o, s, n, x), s) == x.(next := NodeOf(Patch(o, s, n, x), s).next)
  {
    if o.slot == s {
    } else if s in Slots(o.child) {
      PutPatch(o.child, s, n, x, y);
    } else {
      PutPatch(o.next, s, n, x, y);
    }
  }

  lemma FillSlots(c: Content, s: nat, g: string)
    requires s in SlotsC(c) && (ElemOf(c, s).Branch? ==> ElemOf(c, s).inner.End?)
    ensures SlotsC(Replace(c, s, FilledWith(ElemOf(c, s), g))) == SlotsC(c)
  {
    var e := ElemOf(c, s);
    assert SlotsC(End(g)) == {};
    assert e.Branch? ==> SlotsC(e.inner) == {};
    SlotsReplace(c, s, FilledWith(e, g));
  }

  lemma IndexParts(a: seq<ElemPos>, free: nat, c: Content)
    requires IndexOk(a, free, c)
    ensures |a| >= 8 && 1 <= free <= |a| && Indexed(a, Layout(c, 0), 0) && Distinct(Layout(c, 0))
    ensures a[0].child == Head(Layout(c, 0)) && a[0].startL == 0 && a[0].startR == 0
    ensures forall s :: s in SlotsC(c) ==> s < free
    ensures Slots(Layout(c, 0)) == SlotsC(c) && 0 !in SlotsC(c)
  {
    LayoutSlots(c, 0);
    NoZero(Layout(c, 0));
  }

  // ----- trimming white space ------------------------------------------------

  /** The position up to which an edit at `n` takes the white space before the next mark. */
  function TrimEnd(doc: string, n: nat): (r: nat)
    requires n <= |doc|
    ensures n <= r <= |doc|
  {
    var t := TokenAt(doc, n);
    if !t.found || (t.nL < |doc| && doc[t.nL] == '<') then t.nL else n
  }

  lemma TrimClean(doc: string, n: nat)
    requires n <= |doc|
    ensures forall i :: n <= i < TrimEnd(doc, n) ==> doc[i] != '<'
  {
  }

  /** Trimming from the start of a gap stays inside the gap. */
  lemma TrimInGap(doc: string, n: nat, g: string)
    requires Has(doc, n, g) && (n + |g| == |doc| || (n + |g| < |doc| && doc[n + |g|] == '<'))
    ensures var k := TrimEnd(doc, n) - n; k <= |g| && forall x :: 0 <= x < k ==> g[x] != '<'
  {
    hide TokenAt, TrimEnd;
    TrimClean(doc, n);
    var k := TrimEnd(doc, n) - n;
    assert k <= |g|;
    forall x | 0 <= x < k ensures g[x] != '<' { HasChar(doc, n, g, x); }
  }

  // ----- the text and the records around a child -----------------------------

  lemma InnerText(c: Content, p: nat, inner: Content)
    requires p == 0 || (p in SlotsC(c) && ElemOf(c, p).Branch?)
    ensures exists a: string, z: string :: SplitsAs(c, p, inner, a, z)
  {
    hide Render, RenderE, Replace, Offset, ElemOf, SlotsC;
    if p == 0 {
      assert "" + Render(c) + "" == Render(c) && "" + Render(inner) + "" == Render(inner);
      assert SplitsAs(c, p, inner, "", "");
    } else {
      var e := ElemOf(c, p);
      var e' := e.(inner := inner);
      ReplaceText(c, p, e');
      OffsetBefore(c, p);
      var l, r, o, k := Before(c, p), Behind(c, p), OpenTag(e.tag), CloseTag(e.close);
      BranchText(e);
      BranchText(e');
      Regroup3(l, o, Render(e.inner), k, r);
      Regroup3(l, o, Render(inner), k, r);
      assert SplitsAs(c, p, inner, l + o, k + r);
    }
  }

  lemma BranchText(e: Elem)
    requires e.Branch?
    ensures RenderE(e) == OpenTag(e.tag) + Render(e.inner) + CloseTag(e.close)
  {
  }

  ghost predicate SplitsAs(c: Content, p: nat, inner: Content, a: string, z: string)
    requires p == 0 || (p in SlotsC(c) && ElemOf(c, p).Branch?)
  {
    && |a| == InnerStart(c, p) && Render(c) == a + Render(InnerOf(c, p)) + z
    && Render(WithInner(c, p, inner)) == a + Render(inner) + z
    && (if p == 0 then z == "" else z != "" && z[0] == '<')
  }

  lemma RemoveDoc(c: Content, p: nat, s: nat, cut: nat)
    requires Splittable(c, p, s, cut) && s != 0
    ensures var inner := InnerOf(c, p);
            var at, len := InnerStart(c, p) + KidStart(inner, s), LenE(KidOf(inner, s)) + cut;
            at + len <= |Render(c)| && Render(WithInner(c, p, RemoveKid(inner, s, cut))) ==
                Splice(Render(c), at, len, "")
  {
    hide Render, RenderE, WithInner, RemoveKid, InnerStart, InnerOf, Splice, TextBefore, TextFrom, GapAt, KidOf,
      TopSlots, SlotsC, ElemOf;
    var inner := InnerOf(c, p);
    var new' := RemoveKid(inner, s, cut);
    InnerText(c, p, new');
    var a, z :| SplitsAs(c, p, new', a, z);
    RemoveText(inner, s, cut);
    LenRenderE(KidOf(inner, s));
    var l, m, r := TextBefore(inner, s), RenderE(KidOf(inner, s)) + GapAt(inner, s)[..cut], TextFrom(inner, s, cut);
    SpliceIn(a, l, m, r, z, "");
    assert l + "" + r == l + r;
  }

  lemma {:induction false} WfRemove(c: Content, s: nat, cut: nat)
    requires Wf(c) && s in TopSlots(c) && s != 0 && cut <= |GapAt(c, s)|
    requires forall x :: 0 <= x < cut ==> GapAt(c, s)[x] != '<'
    ensures Wf(RemoveKid(c, s, cut))
  {
    hide GapFrom, WfE;
    if c.elem.slot == s {
      GapSplit(c.next.gap, cut);
      GapConcat(c.gap, c.next.gap[cut..], 0);
    } else {
      WfRemove(c.next, s, cut);
    }
  }

  lemma WfInner(c: Content, p: nat, inner: Content)
    requires Wf(c) && Wf(inner) && (p == 0 || (p in SlotsC(c) && ElemOf(c, p).Branch?))
    ensures Wf(InnerOf(c, p)) && Wf(WithInner(c, p, inner))
  {
    hide GapFrom, TagOk, CloseOk;
    if p != 0 {
      WfElemOf(c, p);
      WfReplace(c, p, ElemOf(c, p).(inner := inner));
    }
  }

  // ----- from records to content ---------------------------------------------

  lemma {:induction false} ChainTop(c: Content, s: nat, o: int)
    ensures InChain(Layout(c, o), s) <==> s in TopSlots(c)
  {
    if c.Kid? { ChainTop(c.next, s, o + |c.gap| + LenE(c.elem)); }
  }

  /** The parent link of a live element leads to the content that holds it. */
  lemma ParentContent(c: Content, s: nat)
    requires s in SlotsC(c) && Distinct(Layout(c, 0))
    ensures s in Slots(Layout(c, 0))
    ensures var p := ParentOf(Layout(c, 0), s, 0); Splittable(c, p, s, 0) && s != 0
    ensures var p := ParentOf(Layout(c, 0), s, 0);
            && (p == 0 || p in Slots(Layout(c, 0))) && InChain(KidsOf(Layout(c, 0), p), s)
            && PrevOf(Layout(c, 0), s, 0) == ChainPrev(KidsOf(Layout(c, 0), p), s, 0)
            && KidsOf(Layout(c, 0), p) == Layout(InnerOf(c, p), InnerStart(c, p))
  {
    hide Layout, LayoutE, SlotsC, ElemOf, Offset, Slots, Distinct, ParentOf, PrevOf, ChainPrev, InChain, NodeOf,
      TopSlots, GapAt;
    LayoutSlots(c, 0);
    var o := Layout(c, 0);
    NoZero(o);
    ParentChain(o, s, 0, 0);
    var p := ParentOf(o, s, 0);
    if p == 0 {
      ChainTop(c, s, 0);
    } else {
      KidsContent(c, p, s);
    }
  }

  lemma KidsContent(c: Content, p: nat, s: nat)
    requires p in SlotsC(c) && p in Slots(Layout(c, 0)) && InChain(NodeOf(Layout(c, 0), p).child, s)
    ensures ElemOf(c, p).Branch? && s in TopSlots(ElemOf(c, p).inner)
    ensures NodeOf(Layout(c, 0), p).child == Layout(InnerOf(c, p), InnerStart(c, p))
  {
    hide Layout, LayoutE, SlotsC, ElemOf, Offset, Slots, NodeOf, TopSlots;
    NodeLayout(c, p, 0);
    LeafKids(ElemOf(c, p), Offset(c, p), NodeOf(Layout(c, 0), p).next);
    NodeInner(c, p);
    ChainTop(InnerOf(c, p), s, InnerStart(c, p));
  }

  lemma LeafKids(e: Elem, at: int, next: Outline)
    ensures e.Leaf? ==> LayoutE(e, at, next).child == Nil
  {
  }

  lemma {:induction false} KidNode(c: Content, s: nat, o: int)
    requires s in TopSlots(c) && Distinct(Layout(c, o))
    ensures s in Slots(Layout(c, o))
    ensures var nd := NodeOf(Layout(c, o), s); nd == LayoutE(KidOf(c, s), o + KidStart(c, s), nd.next)
    ensures s != 0 ==> GapStart(c, s) == KidStart(c, s) + LenE(KidOf(c, s))
    decreases c
  {
    hide LayoutE, LenE, Distinct;
    var p := o + |c.gap|;
    var next := Layout(c.next, p + LenE(c.elem));
    assert Layout(c, o) == LayoutE(c.elem, p, next);
    NodeStep(c.elem, p, next, s);
    if c.elem.slot != s {
      DistinctKid(c.elem, p, next);
      KidNode(c.next, s, p + LenE(c.elem));
    }
  }

  lemma {:induction false} NodeBelow(o: Outline, p: nat, s: nat)
    requires Distinct(o) && p in Slots(o) && s in Slots(NodeOf(o, p).child)
    ensures s in Slots(o) && NodeOf(o, s) == NodeOf(NodeOf(o, p).child, s)
  {
    DistinctParts(o);
    if o.slot == p {
    } else if p in Slots(o.child) { NodeBelow(o.child, p, s);
    } else { NodeBelow(o.next, p, s); }
  }

  /** Where a child of `p` stands, by the content of `p`. */
  lemma KidRecord(a: seq<ElemPos>, free: nat, c: Content, p: nat, s: nat)
    requires IndexOk(a, free, c) && Splittable(c, p, s, 0) && s != 0
    ensures s < |a| && s in SlotsC(c)
    ensures var inner := InnerOf(c, p); var at := InnerStart(c, p) + KidStart(inner, s);
            && a[s].startL == at && a[s].endR + 1 == at + LenE(KidOf(inner, s)) == InnerStart(c, p) + GapStart(inner, s)
  {
    hide Layout, LayoutE, SlotsC, ElemOf, Offset, LenE, Indexed, Distinct, KidOf, KidStart, GapStart;
    var o, inner, at := Layout(c, 0), InnerOf(c, p), InnerStart(c, p);
    LayoutSlots(c, 0);
    if p == 0 {
      KidNode(c, s, 0);
    } else {
      NodeInner(c, p);
      DistinctNode(o, p);
      KidNode(inner, s, at);
      NodeBelow(o, p, s);
    }
    RecordOf(a, o, s, 0);
  }

  /** The text of a gap, and what follows it. */
  lemma GapInText(c: Content, p: nat, b: nat)
    requires Splittable(c, p, b, 0)
    ensures var inner := InnerOf(c, p); var n, g := InnerStart(c, p) + GapStart(inner, b), GapAt(inner, b);
            && Has(Render(c), n, g)
            && (n + |g| == |Render(c)| || (n + |g| < |Render(c)| && Render(c)[n + |g|] == '<'))
            && (n + |g| == |Render(c)| ==> p == 0)
  {
    hide Render, WithInner, InnerStart, InnerOf, TopSlots, SlotsC, ElemOf, GapAt, GapStart, TextUpTo, TextFrom,
      AfterGap;
    var inner := InnerOf(c, p);
    InnerText(c, p, inner);
    var a, z :| SplitsAs(c, p, inner, a, z);
    InsertText(inner, b, 0, Leaf(1, ""), "");
    TextFromGap(inner, b);
    MiddleOf(Render(c), a, TextUpTo(inner, b, 0), GapAt(inner, b), AfterGap(inner, b), z);
  }

  lemma MiddleOf(d: string, a: string, l: string, g: string, r: string, z: string)
    requires d == a + (l + (g + r)) + z && (r == "" || r[0] == '<') && (z == "" || z[0] == '<')
    ensures var n := |a| + |l|;
            Has(d, n, g) && (if r == "" && z == "" then n + |g| == |d| else n + |g| < |d| && d[n + |g|] == '<')
  {
    assert d == (a + l) + g + (r + z);
    HasMid(a + l, g, r + z);
    if r + z != "" { assert d[|a + l| + |g|] == (r + z)[0]; }
  }

  /** The text behind the gap that follows `b`. */
  function AfterGap(c: Content, b: nat): string
    requires b == 0 || b in TopSlots(c)
  {
    if b == 0 then (if c.Kid? then RenderE(c.elem) + Render(c.next) else "")
    else AfterGap(c.next, if c.elem.slot == b then 0 else b)
  }

  lemma {:induction false} TextFromGap(c: Content, b: nat)
    requires b == 0 || b in TopSlots(c)
    ensures TextFrom(c, b, 0) == GapAt(c, b) + AfterGap(c, b) && (AfterGap(c, b) == "" || AfterGap(c, b)[0] == '<')
  {
    hide RenderE;
    if b == 0 {
      assert c.gap[0..] == c.gap && c.(gap := c.gap) == c;
      if c.Kid? {
        FirstLess(c.elem);
        assert Render(c) == c.gap + (RenderE(c.elem) + Render(c.next));
      } else {
        assert Render(c) == c.gap + "";
      }
    } else {
      TextFromGap(c.next, if c.elem.slot == b then 0 else b);
    }
  }

  lemma FirstLess(e: Elem)
    ensures RenderE(e) != "" && RenderE(e)[0] == '<'
  {
  }

  // ----- removing an element -------------------------------------------------

  lemma UnlinkRoot(a: seq<ElemPos>, b: seq<ElemPos>, o: Outline, s: nat, n: int)
    requires |a| > 0 && Indexed(a, o, 0) && Distinct(o) && s in Slots(o) && LedAround(a, b, o, s) &&
             a[0].child == Head(o)
    ensures s in Slots(AdjustAt(o, s, n, true)) && b[0].child == Head(Unlink(AdjustAt(o, s, n, true), s))
    ensures b[0].startL == a[0].startL && b[0].startR == a[0].startR
  {
    hide Distinct, ShiftAll;
    NoZero(o);
    AdjustSlots(o, s, n, true);
    PrevWithin(o, s, 0, 0);
    ParentChain(o, s, 0, 0);
    ShiftHead(o.next, n);
    FirstPrev(o, s);
  }

  lemma ShiftHead(o: Outline, n: int)
    ensures Head(ShiftAll(o, n)) == Head(o)
  {
  }

  lemma FirstPrev(o: Outline, s: nat)
    requires s in Slots(o)
    ensures o.slot == s ==> PrevOf(o, s, 0) == 0 && ParentOf(o, s, 0) == 0
    ensures o.slot != s && PrevOf(o, s, 0) == 0 ==> ParentOf(o, s, 0) != 0
  {
    PrevWithin(o, s, 0, 0);
    NoZero(o);
  }

  lemma RemovedIndex(a: seq<ElemPos>, b: seq<ElemPos>, free: nat, t: Content, s: nat, cut: nat)
    requires IndexOk(a, free, t) && s in SlotsC(t) && s in Slots(Layout(t, 0)) && LedAround(a, b, Layout(t, 0), s)
    requires Splittable(t, ParentOf(Layout(t, 0), s, 0), s, cut) && s != 0
    ensures var o := Layout(t, 0); var p := ParentOf(o, s, 0); var inner := InnerOf(t, p);
            var path := PathTo(o, s, Root); var n := -(LenE(KidOf(inner, s)) + cut);
            && PathOk(path) && PathLinked(b, path)
            && var c, t' := Apply(b, Visits(path, true), n), WithInner(t, p, RemoveKid(inner, s, cut));
               && IndexOk(c, free, t') && SameLinks(b, c) && SlotsC(t') == Slots(o) - {s} - Slots(NodeOf(o, s).child)
  {
    hide Layout, SlotsC, AdjustAt, Unlink, Visits, Apply, PathTo, PathOk, PathLinked, Distinct, Indexed, WithInner,
      RemoveKid, LenE, ParentOf, NodeOf, LedAround;
    var o := Layout(t, 0);
    var p := ParentOf(o, s, 0);
    var inner := InnerOf(t, p);
    var n := -(LenE(KidOf(inner, s)) + cut);
    var t' := WithInner(t, p, RemoveKid(inner, s, cut));
    IndexParts(a, free, t);
    UnlinkWalk(a, b, o, s, n);
    RemoveBelow(t, p, s, cut);
    AdjustDistinct(o, s, n, true);
    AdjustSlots(o, s, n, true);
    UnlinkSlots(AdjustAt(o, s, n, true), s);
    AdjustNodeSlots(o, s, n);
    UnlinkRoot(a, b, o, s, n);
    LayoutSlots(t', 0);
    LedLength(a, b, o, s);
    assert IndexOk(Apply(b, Visits(PathTo(o, s, Root), true), n), free, t');
  }

  lemma LedLength(a: seq<ElemPos>, b: seq<ElemPos>, o: Outline, s: nat)
    requires s in Slots(o) && LedAround(a, b, o, s)
    ensures |a| == |b|
  {
  }

  lemma {:induction false} AdjustNodeSlots(o: Outline, s: nat, n: int)
    requires s in Slots(o)
    ensures s in Slots(AdjustAt(o, s, n, true)) && NodeOf(AdjustAt(o, s, n, true), s).child == NodeOf(o, s).child
  {
    if o.slot == s {
    } else if s in Slots(o.child) {
      AdjustSlots(o.child, s, n, true);
      AdjustNodeSlots(o.child, s, n);
    } else {
      AdjustSlots(o.next, s, n, true);
      AdjustNodeSlots(o.next, s, n);
    }
  }

  /** Where the cursor may stand once `s` is cut out: on its previous sibling, under its parent. */
  lemma RemovedCursor(a: seq<ElemPos>, b: seq<ElemPos>, c: seq<ElemPos>, free: nat, t: Content, s: nat)
    requires IndexOk(a, free, t) && s in SlotsC(t) && s in Slots(Layout(t, 0)) && LedAround(a, b, Layout(t, 0), s) &&
             SameLinks(b, c)
    ensures var o := Layout(t, 0); var prev, p := PrevOf(o, s, 0), ParentOf(o, s, 0);
            var left := Slots(o) - {s} - Slots(NodeOf(o, s).child);
            && (p == 0 || (p in left && p < |c| && c[p].parent == a[p].parent &&
                 (a[p].parent == 0 || a[p].parent in left)))
            && (prev == 0 || (prev in left && prev < |c| && c[prev].parent == p))
  {
    hide Layout, SlotsC, Distinct, Indexed, Slots, NodeOf, ParentOf, PrevOf, ChainPrev, InChain, Unlink, KidsOf;
    var o := Layout(t, 0);
    IndexParts(a, free, t);
    UnlinkSlots(o, s);
    ElderKept(o, s);
    ParentContent(t, s);
    var prev, p := PrevOf(o, s, 0), ParentOf(o, s, 0);
    if p != 0 { RecordOf(a, o, p, 0); }
    if prev != 0 { PrevSpot(o, s); RecordOf(a, o, prev, 0); }
  }

  lemma PrevSpot(o: Outline, s: nat)
    requires s in Slots(o) && Distinct(o) && PrevOf(o, s, 0) != 0
    ensures var prev := PrevOf(o, s, 0);
            && prev in Slots(o) && prev != s && prev !in Slots(NodeOf(o, s).child)
            && ParentOf(o, prev, 0) == ParentOf(o, s, 0)
  {
    NoZero(o);
    PrevSpotIn(o, s, 0, 0);
  }

  lemma {:induction false} PrevSpotIn(o: Outline, s: nat, p: nat, q: nat)
    requires s in Slots(o) && Distinct(o) && q !in Slots(o)
    ensures var prev := PrevOf(o, s, q);
            prev == q || prev == 0 ||
            (prev in Slots(o) && prev != s && prev !in Slots(NodeOf(o, s).child) &&
                ParentOf(o, prev, p) == ParentOf(o, s, p))
  {
    DistinctParts(o);
    if o.slot == s {
    } else if s in Slots(o.child) {
      NoZero(o.child);
      PrevSpotIn(o.child, s, o.slot, 0);
      PrevWithin(o.child, s, o.slot, 0);
    } else {
      PrevSpotIn(o.next, s, p, o.slot);
      PrevWithin(o.next, s, p, o.slot);
      if PrevOf(o.next, s, o.slot) == o.slot { HeadPrev(o.next, s, p, o.slot); }
    }
  }

  lemma HeadPrev(o: Outline, s: nat, p: nat, q: nat)
    requires s in Slots(o) && PrevOf(o, s, q) == q && q !in Slots(o) && q != 0
    ensures o.slot == s && ParentOf(o, s, p) == p && Slots(NodeOf(o, s).child) <= Slots(o)
  {
    PrevWithin(o, s, p, q);
  }

  lemma RemoveRoot(c: Content, p: nat, s: nat, cut: nat)
    requires Splittable(c, p, s, cut) && s != 0 && (c.Kid? ==> c.next.End?)
    ensures var d := WithInner(c, p, RemoveKid(InnerOf(c, p), s, cut)); d.Kid? ==> d.next.End?
  {
    if p != 0 {
      ReplaceRoot(c, p, ElemOf(c, p).(inner := RemoveKid(InnerOf(c, p), s, cut)));
    } else {
      assert TopSlots(c.next) == {};
    }
  }

  /** Everything about the text when child `s` of `p` is cut out with the white space behind it. */
  lemma RemoveTextOk(c: Content, p: nat, s: nat, cut: nat)
    requires Wf(c) && (c.Kid? ==> c.next.End?) && Splittable(c, p, s, 0) && s != 0
    requires var n := InnerStart(c, p) + GapStart(InnerOf(c, p), s);
             n <= |Render(c)| && cut == TrimEnd(Render(c), n) - n
    ensures Splittable(c, p, s, cut)
    ensures var inner := InnerOf(c, p);
            var at, len := InnerStart(c, p) + KidStart(inner, s), LenE(KidOf(inner, s)) + cut;
            var d := WithInner(c, p, RemoveKid(inner, s, cut));
            && at + len <= |Render(c)| && Render(d) == Splice(Render(c), at, len, "")
            && Wf(d) && (d.Kid? ==> d.next.End?)
  {
    hide Wf, Render, WithInner, RemoveKid, InnerStart, InnerOf, GapStart, GapAt, KidStart, KidOf, LenE, TrimEnd,
      TopSlots, SlotsC, ElemOf;
    var inner := InnerOf(c, p);
    GapInText(c, p, s);
    TrimInGap(Render(c), InnerStart(c, p) + GapStart(inner, s), GapAt(inner, s));
    RemoveDoc(c, p, s, cut);
    RemoveRoot(c, p, s, cut);
    WfInner(c, p, c);
    WfRemove(inner, s, cut);
    WfInner(c, p, RemoveKid(inner, s, cut));
  }

  lemma SelfApart(o: Outline, s: nat)
    requires s in Slots(o) && Distinct(o)
    ensures PrevOf(o, s, 0) != s && ParentOf(o, s, 0) != s
  {
    NoZero(o);
    if PrevOf(o, s, 0) != 0 { PrevSpot(o, s); }
    ElderKept(o, s);
    UnlinkSlots(o, s);
  }

  // ----- linking a new element in --------------------------------------------

  /** `b` is `a` with the record of `nx` written and linked in below `p`, behind `q`. */
  ghost predicate LinkedIn(a: seq<ElemPos>, b: seq<ElemPos>, o: Outline, p: nat, q: nat, nx: Outline)
    requires nx.At?
  {
    && |a| <= |b| && nx.slot < |b| && p < |a| && (q == 0 || q < |a|)
    && b[nx.slot] == ElemPos(nx.startL, nx.startR, nx.endL, nx.endR, p, Head(nx.child),
         if q == 0 then a[p].child else a[q].next)
    && Indexed(b, nx.child, nx.slot)
    && (forall k :: k in Slots(o) + {0} && k < |a| ==>
          b[k] == if q != 0 && k == q then a[k].(next := nx.slot)
          else if q == 0 && k == p then a[k].(child := nx.slot) else a[k])
  }

  lemma {:induction false} LinkChain(a: seq<ElemPos>, b: seq<ElemPos>, o: Outline, p: nat, q: nat, nx: Outline)
    requires nx.At? && nx.slot < |b| && |a| <= |b| && Indexed(a, o, p) && Distinct(o) && p !in Slots(o) &&
             (q == 0 || InChain(o, q))
    requires b[nx.slot] == ElemPos(nx.startL, nx.startR, nx.endL, nx.endR, p, Head(nx.child),
                 if q == 0 then Head(o) else if q < |a| then a[q].next else 0)
    requires Indexed(b, nx.child, nx.slot)
    requires forall k :: k in Slots(o) && k < |a| ==> b[k] == if q != 0 && k == q then a[k].(next := nx.slot) else a[k]
    ensures Indexed(b, LinkNode(o, q, nx), p)
  {
    NoZero(o);
    if q == 0 {
      IndexedFrame(a, b, o, p);
    } else {
      DistinctParts(o);
      if o.slot == q {
        IndexedFrame(a, b, o.child, o.slot);
        IndexedFrame(a, b, o.next, p);
      } else {
        ChainNode(o.next, q);
        IndexedFrame(a, b, o.child, o.slot);
        LinkChain(a, b, o.next, p, q, nx);
      }
    }
  }

  lemma {:induction false} LinkDistinct(o: Outline, q: nat, nx: Outline)
    requires nx.At? && nx.next.Nil? && Distinct(o) && Distinct(nx) && Slots(nx) !! Slots(o)
    ensures Distinct(LinkNode(o, q, nx))
  {
    if q == 0 || o.Nil? {
      DistinctParts(nx);
    } else {
      DistinctParts(o);
      LinkDistinct(o.next, if o.slot == q then 0 else q, nx);
      LinkSlots(o.next, if o.slot == q then 0 else q, nx);
    }
  }

  lemma LinkHead(o: Outline, q: nat, nx: Outline)
    requires nx.At?
    ensures Head(LinkNode(o, q, nx)) == if q == 0 || o.Nil? then nx.slot else Head(o)
  {
  }

  lemma LinkedIndex(a: seq<ElemPos>, b: seq<ElemPos>, o: Outline, p: nat, q: nat, nx: Outline)
    requires nx.At? && nx.next.Nil? && Indexed(a, o, 0) && Distinct(o) && (p == 0 || p in Slots(o)) && |a| > 0 &&
             a[0].child == Head(o)
    requires LinkedIn(a, b, o, p, q, nx) && (q == 0 || InChain(KidsOf(o, p), q))
    requires Distinct(nx) && Slots(nx) !! Slots(o)
    ensures var l := LinkBelow(o, p, q, nx);
            Indexed(b, l, 0) && Distinct(l) && Slots(l) == Slots(o) + Slots(nx) && b[0].child == Head(l)
            && b[0].startL == a[0].startL && b[0].startR == a[0].startR
  {
    hide Distinct, Indexed, LinkNode, PutNode, Slots, NodeOf, InChain;
    NoZero(o);
    NoZero(nx);
    if p == 0 {
      if q != 0 { ChainNode(o, q); }
      LinkChain(a, b, o, 0, q, nx);
      LinkDistinct(o, q, nx);
      LinkSlots(o, q, nx);
      LinkHead(o, q, nx);
      ChainAt(o, q);
    } else {
      LinkedBelow(a, b, o, p, q, nx);
    }
  }

  lemma ChainAt(o: Outline, q: nat)
    ensures InChain(o, q) ==> o.At?
  {
  }

  lemma LinkedBelow(a: seq<ElemPos>, b: seq<ElemPos>, o: Outline, p: nat, q: nat, nx: Outline)
    requires nx.At? && nx.next.Nil? && Indexed(a, o, 0) && Distinct(o) && p != 0 && p in Slots(o) && |a| > 0
    requires LinkedIn(a, b, o, p, q, nx) && (q == 0 || InChain(NodeOf(o, p).child, q))
    requires Distinct(nx) && Slots(nx) !! Slots(o) && 0 !in Slots(o)
    ensures var l := LinkBelow(o, p, q, nx);
            Indexed(b, l, 0) && Distinct(l) && Slots(l) == Slots(o) + Slots(nx) && Head(l) == Head(o) && b[0] == a[0]
  {
    hide Distinct, Indexed, LinkNode, PutNode, Slots, NodeOf, InChain;
    var nd := NodeOf(o, p);
    var k := LinkNode(nd.child, q, nx);
    RecordOf(a, o, p, 0);
    DistinctNode(o, p);
    NodeWithin(o, p);
    if q != 0 { ChainNode(nd.child, q); NoZero(nd.child); }
    LinkChain(a, b, nd.child, p, q, nx);
    LinkDistinct(nd.child, q, nx);
    LinkSlots(nd.child, q, nx);
    LinkHead(nd.child, q, nx);
    ChainAt(nd.child, q);
    var nd' := nd.(child := k);
    PutIndexed(a, b, o, p, nd', 0);
    SoloNode(nd');
    PutSlots(o, p, nd');
    PutHead(o, p, nd');
  }

  lemma SoloNode(nd: Outline)
    requires nd.At? && Distinct(nd.child) && nd.slot !in Slots(nd.child)
    ensures Distinct(nd.(next := Nil))
  {
    var nil := Nil;
    assert Distinct(nil) && Slots(nil) == {};
  }

  // ----- adding an element ---------------------------------------------------

  lemma {:induction false} WfInsert(c: Content, b: nat, k: nat, x: Elem, tail: string)
    requires Wf(c) && (b == 0 || b in TopSlots(c)) && k <= |GapAt(c, b)| && WfE(x)
    requires GapOk(GapAt(c, b)[..k]) && GapOk(tail) && GapOk(GapAt(c, b)[k..])
    ensures Wf(InsertKid(c, b, k, x, tail))
  {
    hide GapFrom, WfE;
    if b == 0 {
      GapConcat(tail, c.gap[k..], 0);
      WfGap(c, tail + c.gap[k..]);
    } else {
      WfInsert(c.next, if c.elem.slot == b then 0 else b, k, x, tail);
    }
  }

  lemma WfGap(c: Content, g: string)
    requires Wf(c) && GapOk(g)
    ensures Wf(c.(gap := g))
  {
    hide GapFrom;
  }

  lemma InsertDoc(c: Content, p: nat, b: nat, k: nat, x: Elem, tail: string)
    requires Splittable(c, p, b, k)
    ensures var inner := InnerOf(c, p); var at := InnerStart(c, p) + GapStart(inner, b) + k;
            at <= |Render(c)| && Render(WithInner(c, p, InsertKid(inner, b, k, x, tail))) ==
                Splice(Render(c), at, 0, RenderE(x) + tail)
  {
    hide Render, RenderE, WithInner, InsertKid, InnerStart, InnerOf, Splice, TextUpTo, TextFrom, GapAt, GapStart,
      TopSlots, SlotsC, ElemOf;
    var inner := InnerOf(c, p);
    var new' := InsertKid(inner, b, k, x, tail);
    InnerText(c, p, new');
    var a, z :| SplitsAs(c, p, new', a, z);
    InsertText(inner, b, k, x, tail);
    var l, r := TextUpTo(inner, b, k), TextFrom(inner, b, k);
    assert l + "" + r == l + r;
    SpliceIn(a, l, "", r, z, RenderE(x) + tail);
  }

  lemma InsertRoot(c: Content, p: nat, b: nat, k: nat, x: Elem, tail: string)
    requires Splittable(c, p, b, k) && (c.Kid? ==> c.next.End?) && (p == 0 ==> c.End?)
    ensures var d := WithInner(c, p, InsertKid(InnerOf(c, p), b, k, x, tail)); d.Kid? ==> d.next.End?
  {
    if p != 0 { ReplaceRoot(c, p, ElemOf(c, p).(inner := InsertKid(InnerOf(c, p), b, k, x, tail))); }
  }

  /** Everything about the text when `x` and `tail` are put into a gap below `p`. */
  lemma InsertTextOk(c: Content, p: nat, b: nat, k: nat, x: Elem, tail: string)
    requires Wf(c) && (c.Kid? ==> c.next.End?) && (p == 0 ==> c.End?) && Splittable(c, p, b, k) && WfE(x)
    requires var g := GapAt(InnerOf(c, p), b); GapOk(g[..k]) && GapOk(tail) && GapOk(g[k..])
    ensures var inner := InnerOf(c, p); var at := InnerStart(c, p) + GapStart(inner, b) + k;
            var d := WithInner(c, p, InsertKid(inner, b, k, x, tail));
            && at <= |Render(c)| && Render(d) == Splice(Render(c), at, 0, RenderE(x) + tail) && Wf(d)
            && (d.Kid? ==> d.next.End?)
  {
    hide Wf, WfE, Render, RenderE, WithInner, InsertKid, InnerStart, InnerOf, GapStart, GapAt, TopSlots, SlotsC,
      ElemOf, GapFrom;
    InsertDoc(c, p, b, k, x, tail);
    InsertRoot(c, p, b, k, x, tail);
    WfInner(c, p, c);
    WfInsert(InnerOf(c, p), b, k, x, tail);
    WfInner(c, p, InsertKid(InnerOf(c, p), b, k, x, tail));
  }

  lemma {:induction false} NoKidsAdjust(o: Outline, s: nat, n: int)
    requires s in Slots(o) && NodeOf(o, s).child.Nil?
    ensures AdjustAt(o, s, n, false) == AdjustAt(o, s, n, true)
  {
    if o.slot == s {
    } else if s in Slots(o.child) { NoKidsAdjust(o.child, s, n);
    } else { NoKidsAdjust(o.next, s, n); }
  }

  lemma {:induction false} LinkedNode(o: Outline, q: nat, nx: Outline)
    requires nx.At? && nx.next.Nil? && Slots(nx) !! Slots(o)
    ensures nx.slot in Slots(LinkNode(o, q, nx)) && NodeOf(LinkNode(o, q, nx), nx.slot).child == nx.child
  {
    LinkSlots(o, q, nx);
    if !(q == 0 || o.Nil?) {
      LinkSlots(o.next, if o.slot == q then 0 else q, nx);
      LinkedNode(o.next, if o.slot == q then 0 else q, nx);
    }
  }

  lemma {:induction false} PutBelowNode(o: Outline, p: nat, nd: Outline, x: nat)
    requires p in Slots(o) && nd.At? && nd.slot == p && x in Slots(nd.child) && x !in Slots(o)
    ensures x in Slots(PutNode(o, p, nd)) && NodeOf(PutNode(o, p, nd), x).child == NodeOf(nd.child, x).child
  {
    if o.slot == p {
    } else if p in Slots(o.child) { PutBelowNode(o.child, p, nd, x);
    } else { PutBelowNode(o.next, p, nd, x); }
  }

  lemma LinkedBelowNode(o: Outline, p: nat, q: nat, nx: Outline)
    requires (p == 0 || p in Slots(o)) && nx.At? && nx.next.Nil? && Slots(nx) !! Slots(o)
    ensures var l := LinkBelow(o, p, q, nx); nx.slot in Slots(l) && NodeOf(l, nx.slot).child == nx.child
  {
    hide LinkNode, PutNode;
    assert nx.slot in Slots(nx);
    if p == 0 {
      LinkedNode(o, q, nx);
    } else {
      var nd := NodeOf(o, p);
      LinkedNode(nd.child, q, nx);
      PutBelowNode(o, p, nd.(child := LinkNode(nd.child, q, nx)), nx.slot);
    }
  }

  // ----- places for a new element --------------------------------------------

  /** The child before `s`, `q` standing before the content. */
  function PrevTop(c: Content, s: nat, q: nat): nat
    requires s in TopSlots(c)
  {
    if c.elem.slot == s then q else PrevTop(c.next, s, c.elem.slot)
  }

  lemma {:induction false} PrevTopChain(c: Content, s: nat, q: nat, o: int)
    requires s in TopSlots(c)
    ensures InChain(Layout(c, o), s) && ChainPrev(Layout(c, o), s, q) == PrevTop(c, s, q)
  {
    if c.elem.slot != s { PrevTopChain(c.next, s, c.elem.slot, o + |c.gap| + LenE(c.elem)); }
  }

  ghost predicate TopDistinct(c: Content) { c.Kid? ==> c.elem.slot !in TopSlots(c.next) && TopDistinct(c.next) }

  lemma {:induction false} TopOf(c: Content, o: int)
    requires Distinct(Layout(c, o))
    ensures TopDistinct(c)
    decreases c
  {
    hide LayoutE, LenE, Distinct;
    if c.Kid? {
      var p := o + |c.gap|;
      var next := Layout(c.next, p + LenE(c.elem));
      assert Layout(c, o) == LayoutE(c.elem, p, next);
      DistinctKid(c.elem, p, next);
      TopOf(c.next, p + LenE(c.elem));
      LayoutSlots(c.next, p + LenE(c.elem));
      TopIn(c.next);
    }
  }

  lemma {:induction false} TopIn(c: Content)
    ensures TopSlots(c) <= SlotsC(c) && 0 !in TopSlots(c)
  {
    if c.Kid? { TopIn(c.next); }
  }

  /** The gap before a child ends where the child starts. */
  lemma {:induction false} GapBefore(c: Content, s: nat)
    requires s in TopSlots(c) && TopDistinct(c)
    ensures var b := PrevTop(c, s, 0); (b == 0 || b in TopSlots(c)) && GapStart(c, b) + |GapAt(c, b)| == KidStart(c, s)
  {
    if c.elem.slot != s {
      GapBefore(c.next, s);
      PrevTopQ(c.next, s, c.elem.slot);
    }
  }

  lemma PrevTopQ(c: Content, s: nat, q: nat)
    requires s in TopSlots(c)
    ensures PrevTop(c, s, q) == if c.elem.slot == s then q else PrevTop(c, s, 0)
    ensures c.elem.slot == s || PrevTop(c, s, 0) != 0
    ensures c.elem.slot != s ==> PrevTop(c, s, 0) in TopSlots(c)
  {
    if c.elem.slot != s { PrevTopIn(c.next, s, c.elem.slot); }
  }

  lemma {:induction false} PrevTopIn(c: Content, s: nat, q: nat)
    requires s in TopSlots(c)
    ensures PrevTop(c, s, q) == q || PrevTop(c, s, q) in TopSlots(c)
  {
    if c.elem.slot != s { PrevTopIn(c.next, s, c.elem.slot); }
  }

  /** The last child, or `q`. */
  function LastTop(c: Content, q: nat): nat { if c.End? then q else LastTop(c.next, c.elem.slot) }

  lemma {:induction false} LastTopIn(c: Content, q: nat)
    ensures LastTop(c, q) == if c.End? then q else LastTop(c, 0)
    ensures c.Kid? ==> LastTop(c, q) in TopSlots(c)
  {
    if c.Kid? { LastTopIn(c.next, c.elem.slot); }
  }

  /** The last gap ends where the content ends. */
  lemma {:induction false} GapLast(c: Content)
    requires TopDistinct(c)
    ensures var b := LastTop(c, 0); (b == 0 || b in TopSlots(c)) && GapStart(c, b) + |GapAt(c, b)| == Len(c)
  {
    if c.Kid? {
      TopIn(c.next);
      GapLast(c.next);
      LastTopIn(c.next, c.elem.slot);
    }
  }

  lemma TrimAtMark(doc: string, n: nat)
    requires n == |doc| || (n < |doc| && doc[n] == '<')
    ensures TrimEnd(doc, n) == n
  {
    hide TokenAt;
    if n < |doc| { SpecialToken(doc, n); } else { EndToken(doc); }
  }

  lemma EndToken(doc: string)
    ensures TokenAt(doc, |doc|) == Token(|doc|, |doc|, |doc|, false, false)
  {
  }

  /** A place for a new element: position `k` of the gap behind `b` below `p`. */
  ghost predicate Place(c: Content, p: nat, b: nat, k: nat, offset: nat) {
    && Splittable(c, p, b, k) && offset == InnerStart(c, p) + GapStart(InnerOf(c, p), b) + k
    && GapOk(GapAt(InnerOf(c, p), b)[..k]) && GapOk(GapAt(InnerOf(c, p), b)[k..])
  }

  lemma PlaceTrimmed(c: Content, p: nat, b: nat)
    requires Wf(c) && Splittable(c, p, b, 0)
    ensures var n := InnerStart(c, p) + GapStart(InnerOf(c, p), b);
            n <= |Render(c)| && Place(c, p, b, TrimEnd(Render(c), n) - n, TrimEnd(Render(c), n))
  {
    hide Wf, Render, InnerStart, InnerOf, GapStart, GapAt, TrimEnd, TopSlots, SlotsC, ElemOf, GapFrom;
    GapInText(c, p, b);
    var inner := InnerOf(c, p);
    var n := InnerStart(c, p) + GapStart(inner, b);
    TrimInGap(Render(c), n, GapAt(inner, b));
    WfInner(c, p, c);
    WfGapAt(inner, b);
    GapSplit(GapAt(inner, b), TrimEnd(Render(c), n) - n);
  }

  lemma {:induction false} WfGapAt(c: Content, b: nat)
    requires Wf(c) && (b == 0 || b in TopSlots(c))
    ensures GapOk(GapAt(c, b))
  {
    hide GapFrom, WfE;
    if b != 0 { if c.elem.slot != b { WfGapAt(c.next, b); } }
  }

  /** The end of a gap is a place, and trimming does not move it. */
  lemma PlaceAtEnd(c: Content, p: nat, b: nat)
    requires Wf(c) && Splittable(c, p, b, 0)
    ensures var g := GapAt(InnerOf(c, p), b); var n := InnerStart(c, p) + GapStart(InnerOf(c, p), b) + |g|;
            n <= |Render(c)| && TrimEnd(Render(c), n) == n && Place(c, p, b, |g|, n)
  {
    hide Wf, Render, InnerStart, InnerOf, GapStart, GapAt, TrimEnd, TopSlots, SlotsC, ElemOf, GapFrom;
    GapInText(c, p, b);
    var inner := InnerOf(c, p);
    var g := GapAt(inner, b);
    TrimAtMark(Render(c), InnerStart(c, p) + GapStart(inner, b) + |g|);
    WfInner(c, p, c);
    WfGapAt(inner, b);
    assert g[..|g|] == g && g[|g|..] == "";
    NoMarkGap("");
  }

  lemma InnerDistinct(a: seq<ElemPos>, free: nat, c: Content, p: nat)
    requires IndexOk(a, free, c) && (p == 0 || (p in SlotsC(c) && ElemOf(c, p).Branch?))
    ensures Distinct(Layout(InnerOf(c, p), InnerStart(c, p))) && TopDistinct(InnerOf(c, p))
    ensures p == 0 || p in Slots(Layout(c, 0))
    ensures Layout(InnerOf(c, p), InnerStart(c, p)) == KidsOf(Layout(c, 0), p)
  {
    hide Layout, Distinct, SlotsC, ElemOf, Offset, NodeOf;
    if p != 0 {
      NodeInner(c, p);
      DistinctNode(Layout(c, 0), p);
    }
    TopOf(InnerOf(c, p), InnerStart(c, p));
  }

  /** In front of a child: the end of the gap behind its previous sibling. */
  lemma PlaceBefore(a: seq<ElemPos>, free: nat, c: Content, s: nat)
    requires IndexOk(a, free, c) && s in SlotsC(c)
    ensures s in Slots(Layout(c, 0)) && s < |a|
    ensures var o := Layout(c, 0); var p, b := ParentOf(o, s, 0), PrevOf(o, s, 0);
            && Splittable(c, p, b, 0)
            && a[s].startL == InnerStart(c, p) + GapStart(InnerOf(c, p), b) + |GapAt(InnerOf(c, p), b)|
            && s in TopSlots(InnerOf(c, p)) && b == PrevTop(InnerOf(c, p), s, 0)
  {
    hide Layout, Distinct, Indexed, SlotsC, ElemOf, Offset, NodeOf, InnerStart, InnerOf, KidsOf, ParentOf, PrevOf,
      GapStart, GapAt, KidStart, TopSlots, LenE, KidOf;
    var o := Layout(c, 0);
    IndexParts(a, free, c);
    ParentContent(c, s);
    var p := ParentOf(o, s, 0);
    KidRecord(a, free, c, p, s);
    InnerDistinct(a, free, c, p);
    var inner := InnerOf(c, p);
    PrevTopChain(inner, s, 0, InnerStart(c, p));
    GapBefore(inner, s);
  }

  /** In front of an end tag: the end of the last gap. */
  lemma PlaceLast(a: seq<ElemPos>, free: nat, c: Content, p: nat)
    requires IndexOk(a, free, c) && p in SlotsC(c) && ElemOf(c, p).Branch?
    ensures var b := LastTop(InnerOf(c, p), 0);
            && Splittable(c, p, b, 0) && p < |a|
            && a[p].endL == InnerStart(c, p) + GapStart(InnerOf(c, p), b) + |GapAt(InnerOf(c, p), b)|
            && a[p].startR + 1 == InnerStart(c, p) && !a[p].IsEmptyElement()
  {
    hide Layout, Distinct, Indexed, SlotsC, ElemOf, Offset, NodeOf, KidsOf, GapStart, GapAt, TopSlots, LenE, Len,
      LastTop;
    InnerDistinct(a, free, c, p);
    GapLast(InnerOf(c, p));
    RecordAt(a, free, c, p);
  }

  lemma {:induction false} LastChain(c: Content, q: nat, o: int)
    ensures ChainLast(Layout(c, o), q) == LastTop(c, q)
  {
    if c.Kid? { LastChain(c.next, c.elem.slot, o + |c.gap| + LenE(c.elem)); }
  }

  /** The last element of a chain, or `q`. */
  ghost function ChainLast(o: Outline, q: nat): nat { if o.Nil? then q else ChainLast(o.next, o.slot) }

  /** The sibling a new element follows. */
  function NewBefore(c: Content, p: nat, rel: nat, insert: bool): nat
    requires p == 0 || (p in SlotsC(c) && ElemOf(c, p).Branch?)
    requires rel == 0 || rel in TopSlots(InnerOf(c, p))
  {
    if rel != 0 then (if insert then PrevTop(InnerOf(c, p), rel, 0) else rel)
    else if insert then 0 else LastTop(InnerOf(c, p), 0)
  }

  lemma LayoutKid(x: Elem, at: int)
    ensures var nx := LayoutE(x, at, Nil);
            && nx.At? && nx.next.Nil? && nx.slot == x.slot
            && (x.Leaf? || x.inner.End? ==> nx.child.Nil? && Distinct(nx) && Slots(nx) == {x.slot})
  {
    if x.Leaf? || x.inner.End? {
      var nil := Nil;
      assert Distinct(nil) && Slots(nil) == {};
    }
  }

  lemma QChain(a: seq<ElemPos>, free: nat, c: Content, p: nat, q: nat)
    requires IndexOk(a, free, c) && Splittable(c, p, q, 0)
    ensures (p == 0 || p in Slots(Layout(c, 0))) && p < |a|
    ensures q == 0 || (InChain(KidsOf(Layout(c, 0), p), q) && q in SlotsC(c) && q < |a|)
  {
    hide Layout, SlotsC, ElemOf, TopSlots, InnerOf, InnerStart, InChain, KidsOf, Slots;
    InnerDistinct(a, free, c, p);
    IndexParts(a, free, c);
    if q != 0 {
      ChainTop(InnerOf(c, p), q, InnerStart(c, p));
      TopIn(InnerOf(c, p));
      InnerSlots(c, p);
    }
  }

  lemma InnerSlots(c: Content, p: nat)
    requires p == 0 || (p in SlotsC(c) && ElemOf(c, p).Branch?)
    ensures SlotsC(InnerOf(c, p)) <= SlotsC(c)
  {
    if p != 0 { InnerWithin(c, p); }
  }

  /** The index before the walk of x_AddElem: the new element is linked in. */
  lemma NewLinked(a: seq<ElemPos>, b: seq<ElemPos>, free: nat, c: Content, p: nat, q: nat, nx: Outline)
    requires IndexOk(a, free, c) && Splittable(c, p, q, 0) && nx.At? && nx.next.Nil? && Distinct(nx)
    requires (forall s :: s in Slots(nx) ==> s >= free) && LinkedIn(a, b, Layout(c, 0), p, q, nx)
    ensures p == 0 || p in Slots(Layout(c, 0))
    ensures var l := LinkBelow(Layout(c, 0), p, q, nx);
            && Indexed(b, l, 0) && Distinct(l) && Slots(l) == SlotsC(c) + Slots(nx) && |b| >= 8
            && b[0].child == Head(l) && b[0].startL == 0 && b[0].startR == 0
            && nx.slot in Slots(l) && NodeOf(l, nx.slot).child == nx.child
  {
    hide Layout, SlotsC, Distinct, Indexed, Slots, LinkBelow, LinkedIn, Splittable, NodeOf, KidsOf, InChain;
    IndexParts(a, free, c);
    QChain(a, free, c, p, q);
    var o := Layout(c, 0);
    LinkedIndex(a, b, o, p, q, nx);
    LinkedBelowNode(o, p, q, nx);
    LinkedLength(a, b, o, p, q, nx);
    HeadSlot(nx);
  }

  lemma HeadSlot(nx: Outline)
    requires nx.At?
    ensures nx.slot in Slots(nx)
  {
  }

  lemma LinkedLength(a: seq<ElemPos>, b: seq<ElemPos>, o: Outline, p: nat, q: nat, nx: Outline)
    requires nx.At? && LinkedIn(a, b, o, p, q, nx)
    ensures |a| <= |b|
  {
  }

  /** The index after x_AddElem below an element with content. */
  lemma AddedIndex(a: seq<ElemPos>, b: seq<ElemPos>, d: seq<ElemPos>, free: nat, free': nat, c: Content, p: nat,
      q: nat, k: nat, x: Elem, tail: string, afterPos: bool)
    requires IndexOk(a, free, c) && Splittable(c, p, q, k) && free <= x.slot && free <= free' <= |b|
    requires var nx := LayoutE(x, InnerStart(c, p) + GapStart(InnerOf(c, p), q) + k, Nil);
             && Distinct(nx) && (forall s :: s in Slots(nx) ==> free <= s < free')
             && LinkedIn(a, b, Layout(c, 0), p, q, nx)
             && (afterPos || nx.child.Nil?)
    requires p == 0 || p in Slots(Layout(c, 0))
    requires var l := LinkBelow(Layout(c, 0), p, q, LayoutE(x, InnerStart(c, p) + GapStart(InnerOf(c, p), q) + k, Nil));
             var n := LenE(x) + |tail|;
             && x.slot in Slots(l) && Indexed(d, AdjustAt(l, x.slot, n, afterPos), 0) && |d| > 0 && |b| > 0
             && d[0] == b[0].AdjustEnd(n) && SameLinks(b, d)
    ensures var nx := LayoutE(x, InnerStart(c, p) + GapStart(InnerOf(c, p), q) + k, Nil);
            var c' := WithInner(c, p, InsertKid(InnerOf(c, p), q, k, x, tail));
            IndexOk(d, free', c') && SlotsC(c') == SlotsC(c) + Slots(nx)
  {
    hide Layout, SlotsC, Distinct, Indexed, Slots, LinkBelow, LinkedIn, NodeOf, AdjustAt, WithInner, InsertKid,
      InnerStart, InnerOf, GapStart, GapAt, TopSlots, ElemOf, LenE, LayoutE, SameLinks;
    var at := InnerStart(c, p) + GapStart(InnerOf(c, p), q) + k;
    var nx, n := LayoutE(x, at, Nil), LenE(x) + |tail|;
    var l := LinkBelow(Layout(c, 0), p, q, nx);
    NewLinked(a, b, free, c, p, q, nx);
    IndexParts(a, free, c);
    InsertBelow(c, p, q, k, x, tail);
    if !afterPos { NoKidsAdjust(l, x.slot, n); }
    WalkedIndex(b, d, free', l, x.slot, n, afterPos, WithInner(c, p, InsertKid(InnerOf(c, p), q, k, x, tail)));
  }

  // ----- splitting an empty element ------------------------------------------

  /** An empty element opened up to hold `x`. */
  function Opened(e: Elem, x: Elem, tail: string): (r: Elem)
    ensures r.slot == e.slot && r.tag == e.tag
  {
    Branch(e.slot, e.tag, Kid("\r\n", x, End(tail)), TagName(e.tag))
  }

  lemma OpenedWf(e: Elem, x: Elem, tail: string)
    requires WfE(e) && WfE(x) && GapOk(tail)
    ensures WfE(Opened(e, x, tail))
  {
    hide TagOk, GapFrom, TagName;
    var name := TagName(e.tag);
    assert name[..|name|] == name;
    NoMarkGap("\r\n");
    assert Wf(End(tail));
    assert Wf(Kid("\r\n", x, End(tail)));
  }

  function OpenText(e: Elem, x: Elem, tail: string): string { ">\r\n" + (RenderE(x) + tail) + "</" + TagName(e.tag) }

  lemma OpenedText(e: Elem, x: Elem, tail: string)
    requires e.Leaf?
    ensures |e.tag| + 2 <= |RenderE(e)| && RenderE(Opened(e, x, tail)) ==
            Splice(RenderE(e), |e.tag| + 1, 1, OpenText(e, x, tail))
  {
    hide TagName;
    var name, r := TagName(e.tag), RenderE(x);
    OpenedInner(x, tail);
    assert RenderE(e) == ("<" + e.tag) + "/" + ">";
    SpliceAt("<" + e.tag, "/", ">", OpenText(e, x, tail));
    OpenGroup(e.tag, r, tail, name);
  }

  lemma OpenedInner(x: Elem, tail: string)
    ensures Render(Kid("\r\n", x, End(tail))) == "\r\n" + RenderE(x) + tail
  {
    assert Render(End(tail)) == tail;
  }

  lemma OpenGroup(tag: string, r: string, tail: string, name: string)
    ensures ("<" + tag + ">") + ("\r\n" + r + tail) + ("</" + name + ">") ==
            ("<" + tag) + (">\r\n" + (r + tail) + "</" + name) + ">"
  {
    assert ">" + "\r\n" == ">\r\n";
    assert ("<" + tag + ">") + ("\r\n" + r + tail) == ("<" + tag) + (">\r\n" + (r + tail));
  }

  lemma OpenDoc(c: Content, p: nat, x: Elem, tail: string)
    requires p in SlotsC(c) && ElemOf(c, p).Leaf?
    ensures var e := ElemOf(c, p); var at := Offset(c, p) + |e.tag| + 1; var ins := OpenText(e, x, tail);
            && at + 1 <= |Render(c)| && Render(Replace(c, p, Opened(e, x, tail))) == Splice(Render(c), at, 1, ins)
            && |ins| - 1 == LenE(Opened(e, x, tail)) - LenE(e)
  {
    hide Render, RenderE, Replace, TagName, Opened, Offset, ElemOf, SlotsC, Before, Behind, OpenText, Splice;
    var e := ElemOf(c, p);
    var e' := Opened(e, x, tail);
    ReplaceText(c, p, e');
    OffsetBefore(c, p);
    OpenedText(e, x, tail);
    LenRenderE(e);
    LenRenderE(e');
    SpliceMid(Before(c, p), RenderE(e), Behind(c, p), |e.tag| + 1, 1, OpenText(e, x, tail));
  }

  /** The node of the opened element before the walk. */
  function PreOpened(nd: Outline, e: Elem, nx: Outline): (r: Outline)
    requires nd.At?
    ensures r.At? && r.slot == nd.slot
  {
    nd.(startR := nd.startR - 1, endL := nd.endL - |TagName(e.tag)| - 1, child := nx)
  }

  lemma OpenNode(e: Elem, x: Elem, tail: string, at: int, next: Outline)
    requires e.Leaf?
    ensures var nx := LayoutE(x, at + |e.tag| + 4, Nil); var nd := PreOpened(LayoutE(e, at, next), e, nx);
            var n := LenE(Opened(e, x, tail)) - LenE(e);
            LayoutE(Opened(e, x, tail), at, Nil) == nd.(endL := nd.endL + n, endR := nd.endR + n, next := Nil)
  {
    hide TagName;
    assert Len(End(tail)) == |tail|;
    assert Layout(End(tail), at + |e.tag| + 4 + LenE(x)) == Nil;
    assert Len(Kid("\r\n", x, End(tail))) == 2 + LenE(x) + |tail|;
    assert Layout(Kid("\r\n", x, End(tail)), at + |e.tag| + 2) == LayoutE(x, at + |e.tag| + 4, Nil);
  }

  lemma OpenLayout(c: Content, p: nat, x: Elem, tail: string)
    requires p in SlotsC(c) && ElemOf(c, p).Leaf? && Distinct(Layout(c, 0)) && x.slot !in SlotsC(c)
    ensures p in Slots(Layout(c, 0))
    ensures var o, e := Layout(c, 0), ElemOf(c, p); var nx := LayoutE(x, Offset(c, p) + |e.tag| + 4, Nil);
            var nd := PreOpened(NodeOf(o, p), e, nx); var n := LenE(Opened(e, x, tail)) - LenE(e);
            && x.slot in Slots(PutNode(o, p, nd))
            && Layout(Replace(c, p, Opened(e, x, tail)), 0) == AdjustAt(PutNode(o, p, nd), x.slot, n, true)
  {
    hide Layout, LayoutE, AdjustAt, Patch, PutNode, Distinct, Slots, SlotsC, Replace, LenE, Opened, PreOpened,
      Offset, ElemOf;
    var o, e := Layout(c, 0), ElemOf(c, p);
    var e', at := Opened(e, x, tail), Offset(c, p);
    NodeLayout(c, p, 0);
    LayoutSlots(c, 0);
    var nx := LayoutE(x, at + |e.tag| + 4, Nil);
    var nd, n := PreOpened(NodeOf(o, p), e, nx), LenE(e') - LenE(e);
    ReplaceLayout(c, p, e', 0);
    assert Replaced(c, p, e', 0);
    OpenNode(e, x, tail, at, NodeOf(o, p).next);
    PreOpenedParts(NodeOf(o, p), e, nx);
    HeadSlot(nx);
    AdjustPutBelow(o, p, nd, x.slot, n, true);
    SoloAdjust(nx, n);
    PatchAnyNext(o, p, n, LayoutE(e', at, Nil), nd.(endL := nd.endL + n, endR := nd.endR + n));
  }

  lemma PreOpenedParts(nd: Outline, e: Elem, nx: Outline)
    requires nd.At?
    ensures var x := PreOpened(nd, e, nx); x.At? && x.slot == nd.slot && x.child == nx && x.next == nd.next
  {
  }

  lemma SoloAdjust(nx: Outline, n: int)
    requires nx.At? && nx.next.Nil?
    ensures nx.slot in Slots(nx) && AdjustAt(nx, nx.slot, n, true) == nx
  {
  }

  /** `b` is `a` with `nx` written as the only child of the element `p`, whose start tag loses its slash. */
  ghost predicate OpenedUp(a: seq<ElemPos>, b: seq<ElemPos>, o: Outline, p: nat, cutEnd: nat, nx: Outline)
    requires nx.At?
  {
    && |a| <= |b| && nx.slot < |b| && p < |a|
    && b[nx.slot] == ElemPos(nx.startL, nx.startR, nx.endL, nx.endR, p, Head(nx.child), 0)
    && Indexed(b, nx.child, nx.slot)
    && b[p] == a[p].(startR := a[p].startR - 1, endL := a[p].endL - cutEnd, child := nx.slot)
    && (forall k :: k in Slots(o) + {0} && k < |a| && k != p ==> b[k] == a[k])
  }

  lemma OpenedIndex(a: seq<ElemPos>, b: seq<ElemPos>, free: nat, c: Content, p: nat, nx: Outline)
    requires IndexOk(a, free, c) && p in SlotsC(c) && ElemOf(c, p).Leaf? && nx.At? && nx.next.Nil? && Distinct(nx)
    requires (forall s :: s in Slots(nx) ==> s >= free) &&
             OpenedUp(a, b, Layout(c, 0), p, |TagName(ElemOf(c, p).tag)| + 1, nx)
    ensures p in Slots(Layout(c, 0))
    ensures var l := PutNode(Layout(c, 0), p, PreOpened(NodeOf(Layout(c, 0), p), ElemOf(c, p), nx));
            && Indexed(b, l, 0) && Distinct(l) && Slots(l) == SlotsC(c) + Slots(nx) && |b| >= 8
            && b[0].child == Head(l) && b[0].startL == 0 && b[0].startR == 0
  {
    hide Layout, LayoutE, SlotsC, Distinct, Slots, PutNode, NodeOf, ElemOf, TagName, Offset, PreOpened, Linked, Placed;
    IndexParts(a, free, c);
    RecordAt(a, free, c, p);
    var o, e := Layout(c, 0), ElemOf(c, p);
    LeafKids(e, Offset(c, p), NodeOf(o, p).next);
    var nd := PreOpened(NodeOf(o, p), e, nx);
    PreOpenedOffsets(NodeOf(o, p), e, nx);
    NoChild(NodeOf(o, p));
    OpenChild(b, nx, p);
    NotIn(o, nx, free);
    PutIndexed(a, b, o, p, nd, 0);
    SoloNode(nd);
    PutSlots(o, p, nd);
    PutHead(o, p, nd);
  }

  lemma PreOpenedOffsets(nd: Outline, e: Elem, nx: Outline)
    requires nd.At?
    ensures var x := PreOpened(nd, e, nx);
            x.At? && x.slot == nd.slot && x.child == nx && x.startL == nd.startL && x.startR == nd.startR - 1
            && x.endL == nd.endL - |TagName(e.tag)| - 1 && x.endR == nd.endR
  {
  }

  lemma NoChild(nd: Outline)
    requires nd.At? && nd.child.Nil?
    ensures Slots(nd.child) == {}
  {
  }

  lemma OpenChild(b: seq<ElemPos>, nx: Outline, p: nat)
    requires nx.At? && nx.next.Nil? && nx.slot < |b| && Indexed(b, nx.child, nx.slot)
    requires b[nx.slot] == ElemPos(nx.startL, nx.startR, nx.endL, nx.endR, p, Head(nx.child), 0)
    ensures Indexed(b, nx, p)
  {
  }

  lemma NotIn(o: Outline, nx: Outline, free: nat)
    requires (forall s :: s in Slots(o) ==> s < free) && (forall s :: s in Slots(nx) ==> s >= free)
    ensures Slots(o) !! Slots(nx)
  {
  }

  /** The index after x_AddElem below an empty element. */
  lemma OpenedWalked(b: seq<ElemPos>, d: seq<ElemPos>, free: nat, free': nat, c: Content, p: nat, x: Elem,
      tail: string, afterPos: bool)
    requires p in SlotsC(c) && ElemOf(c, p).Leaf? && Distinct(Layout(c, 0)) && x.slot !in SlotsC(c) && |b| >= 8 &&
             1 <= free' <= |b|
    requires p in Slots(Layout(c, 0))
    requires var o, e := Layout(c, 0), ElemOf(c, p); var nx := LayoutE(x, Offset(c, p) + |e.tag| + 4, Nil);
             var l := PutNode(o, p, PreOpened(NodeOf(o, p), e, nx)); var n := LenE(Opened(e, x, tail)) - LenE(e);
             && Distinct(l) && x.slot in Slots(l) && b[0].child == Head(l) && b[0].startL == 0 && b[0].startR == 0
             && (forall s :: s in Slots(l) ==> s < free') && (afterPos || nx.child.Nil?)
             && Indexed(d, AdjustAt(l, x.slot, n, afterPos), 0) && |d| > 0 && d[0] == b[0].AdjustEnd(n)
             && SameLinks(b, d)
    ensures var o, e := Layout(c, 0), ElemOf(c, p); var nx := LayoutE(x, Offset(c, p) + |e.tag| + 4, Nil);
            var l := PutNode(o, p, PreOpened(NodeOf(o, p), e, nx));
            var c' := Replace(c, p, Opened(e, x, tail)); IndexOk(d, free', c') && SlotsC(c') == Slots(l)
  {
    hide Layout, SlotsC, Distinct, Indexed, Slots, NodeOf, AdjustAt, ElemOf, LenE, LayoutE, SameLinks, PutNode,
      PreOpened, Replace, Opened, Offset;
    var o, e := Layout(c, 0), ElemOf(c, p);
    var nx := LayoutE(x, Offset(c, p) + |e.tag| + 4, Nil);
    var l, n := PutNode(o, p, PreOpened(NodeOf(o, p), e, nx)), LenE(Opened(e, x, tail)) - LenE(e);
    OpenLayout(c, p, x, tail);
    if !afterPos {
      LayoutSlots(c, 0);
      PreOpenedParts(NodeOf(o, p), e, nx);
      HeadSlot(nx);
      PutBelowNode(o, p, PreOpened(NodeOf(o, p), e, nx), x.slot);
      SoloNodeOf(nx);
      NoKidsAdjust(l, x.slot, n);
    }
    WalkedIndex(b, d, free', l, x.slot, n, afterPos, Replace(c, p, Opened(e, x, tail)));
  }

  lemma SoloNodeOf(nx: Outline)
    requires nx.At?
    ensures nx.slot in Slots(nx) && NodeOf(nx, nx.slot) == nx
  {
  }

  /** Which gap a new element goes into, and where in it. */
  ghost predicate NewPlace(c: Content, doc: string, p: nat, rel: nat, insert: bool, b: nat, k: nat) {
    && (p == 0 || (p in SlotsC(c) && ElemOf(c, p).Branch?)) && (rel == 0 || rel in TopSlots(InnerOf(c, p)))
    && b == NewBefore(c, p, rel, insert) && Splittable(c, p, b, k)
    && var n := InnerStart(c, p) + GapStart(InnerOf(c, p), b);
       var from := if p == 0 && rel == 0 && insert then n + 1 else n;
       from <= |doc| && k == if insert == (rel == 0) then TrimEnd(doc, from) - n else |GapAt(InnerOf(c, p), b)|
  }

  /** InsertElem on a document without a root: x_LocateNew goes one character behind its start. */
  lemma RootInsertPlace(c: Content)
    requires c.End? && Wf(c) && c.gap != "" && c.gap[0] != '<'
    ensures Render(c) == c.gap && Place(c, 0, 0, TrimEnd(c.gap, 1), TrimEnd(c.gap, 1)) && InnerOf(c, 0) == c &&
            GapStart(c, 0) == 0 && InnerStart(c, 0) == 0
  {
    hide TrimEnd, GapFrom;
    TrimClean(c.gap, 1);
    GapSplit(c.gap, TrimEnd(c.gap, 1));
  }

  // ----- where the links lead ------------------------------------------------

  lemma {:induction false} NextSpot(a: seq<ElemPos>, o: Outline, s: nat, p: nat)
    requires Indexed(a, o, p) && Distinct(o) && s in Slots(o) && s < |a| && a[s].next != 0
    ensures var i := a[s].next; i in Slots(o) && i < |a| && a[i].parent == a[s].parent
  {
    if o.slot == s {
      assert Linked(a, o.next, p);
    } else if s in Slots(o.child) { NextSpot(a, o.child, s, o.slot);
    } else { DistinctParts(o); NextSpot(a, o.next, s, p); }
  }

  lemma FirstSpot(a: seq<ElemPos>, o: Outline, p: nat)
    requires Indexed(a, o, 0) && Distinct(o) && (p == 0 || p in Slots(o)) && |a| > 0 && a[0].child == Head(o) &&
             p < |a| && a[p].child != 0
    ensures var i := a[p].child; i in Slots(o) && i < |a| && a[i].parent == p
  {
    if p != 0 {
      RecordOf(a, o, p, 0);
      NodeWithin(o, p);
    }
  }

  lemma ParentSpot(a: seq<ElemPos>, free: nat, c: Content, s: nat)
    requires IndexOk(a, free, c) && s in SlotsC(c)
    ensures s < |a| && (a[s].parent == 0 || a[s].parent in SlotsC(c))
  {
    hide Layout, Distinct, Indexed, SlotsC, Slots, NodeOf, ParentOf;
    IndexParts(a, free, c);
    RecordOf(a, Layout(c, 0), s, 0);
    PrevWithin(Layout(c, 0), s, 0, 0);
  }

  // ----- what the parser writes ----------------------------------------------

  /** Records below `free` are kept, except the end of the parent's start in `p`. */
  ghost predicate OnlyEndL(a: seq<ElemPos>, b: seq<ElemPos>, free: nat, p: nat) {
    && |a| <= |b| && p < free <= |a|
    && (forall k :: 0 <= k < free && k != p ==> b[k] == a[k])
    && b[p] == a[p].(endL := b[p].endL)
  }

  lemma {:induction false} NumberedSlots(o: Outline, slot: nat)
    requires Numbered(o, slot)
    ensures forall s :: s in Slots(o) ==> slot <= s < slot + Count(o)
    ensures Distinct(o)
  {
    if o.At? {
      NumberedSlots(o.child, slot + 1);
      NumberedSlots(o.next, slot + 1 + Count(o.child));
    }
  }

  function Append(o: Outline, tail: Outline): Outline {
    if o.Nil? then tail else o.(next := Append(o.next, tail))
  }

  /** The result of the children loop once the elements of `acc` are parsed. */
  function Resume(acc: Outline, rest: ParsedKids): ParsedKids {
    match rest
    case Kids(list, at, free) => Kids(Append(acc, list), at, free)
    case _ => rest
  }

  lemma {:induction false} AppendAppend(a: Outline, nd: Outline, tail: Outline)
    requires nd.At? && nd.next.Nil?
    ensures Append(Append(a, nd), tail) == Append(a, nd.(next := tail))
  {
    if a.At? { AppendAppend(a.next, nd, tail); }
  }

  lemma ResumeStep(acc: Outline, s: string, n: nat, slot: Slot)
    requires n <= |s|
    ensures var e := MarkupParse.ParseElem(s, n, slot); var rest := Resume(acc, ParseKids(s, n, slot));
            match e {
              case Bad => rest == BadKids
              case Diverges => rest == DivergesKids
              case NoElem(at) => rest == Kids(Append(acc, Nil), at, slot)
              case Elem(nd, free) => nd.next.Nil? && rest == Resume(Append(acc, nd), ParseKids(s, nd.endR + 1, free))
            }
  {
    hide MarkupParse.ParseElem, Append;
    ParseElemSound(s, n, slot);
    var e := MarkupParse.ParseElem(s, n, slot);
    if e.Elem? {
      var k := ParseKids(s, e.node.endR + 1, e.free);
      if k.Kids? { AppendAppend(acc, e.node, k.list); }
    }
  }

  lemma {:induction false} AppendNil(o: Outline)
    ensures Append(o, Nil) == o
  {
    if o.At? { AppendNil(o.next); }
  }

  /** Linking a parsed child behind the last one. */
  lemma {:induction false} AppendIndexed(a: seq<ElemPos>, b: seq<ElemPos>, acc: Outline, nd: Outline, p: nat)
    requires Indexed(a, acc, p) && Distinct(acc) && nd.At? && Indexed(b, nd, p) && |a| <= |b|
    requires var last := ChainLast(acc, 0);
             forall k :: k in Slots(acc) && k < |a| ==> b[k] == if k == last then a[k].(next := nd.slot) else a[k]
    ensures Indexed(b, Append(acc, nd), p)
    decreases acc
  {
    if acc.At? {
      DistinctParts(acc);
      LastIn(acc.next, 0);
      LastAny(acc.next, acc.slot, 0);
      IndexedFrame(a, b, acc.child, acc.slot);
      if acc.next.At? {
        AppendIndexed(a, b, acc.next, nd, p);
      }
    }
  }

  lemma {:induction false} LastIn(o: Outline, q: nat)
    ensures o.At? ==> ChainLast(o, q) in Slots(o)
  {
    if o.At? { LastIn(o.next, o.slot); }
  }

  lemma LastAny(o: Outline, q: nat, r: nat)
    ensures o.At? ==> ChainLast(o, q) == ChainLast(o, r)
  {
  }

  lemma {:induction false} AppendShape(acc: Outline, nd: Outline, q: nat)
    requires nd.At? && nd.next.Nil?
    ensures Slots(Append(acc, nd)) == Slots(acc) + Slots(nd) && ChainLast(Append(acc, nd), q) == nd.slot
    ensures Head(Append(acc, nd)) == if acc.Nil? then nd.slot else Head(acc)
    ensures Distinct(acc) && Distinct(nd) && Slots(acc) !! Slots(nd) ==> Distinct(Append(acc, nd))
  {
    if acc.At? { AppendShape(acc.next, nd, acc.slot); } else { assert ChainLast(nd.next, nd.slot) == nd.slot; }
  }

  /** The children loop of x_ParseElem between two rounds, `acc` being the children parsed so far. */
  ghost predicate KidsSoFar(a0: seq<ElemPos>, a: seq<ElemPos>, free0: nat, free: nat, pos: nat, prev: nat,
      acc: Outline) {
    && |a0| <= |a| && pos < free0 <= |a0| && free0 <= free <= |a|
    && (forall k :: 0 <= k < free0 && k != pos ==> a[k] == a0[k])
    && a[pos] == a0[pos].(endL := a[pos].endL, child := Head(acc))
    && Indexed(a, acc, pos) && Distinct(acc) && (forall s :: s in Slots(acc) ==> free0 <= s < free)
    && prev == ChainLast(acc, 0)
  }

  lemma KidsStart(a: seq<ElemPos>, free: nat, pos: nat)
    requires pos < free <= |a| && a[pos].child == 0
    ensures KidsSoFar(a, a, free, free, pos, 0, Nil)
  {
  }

  /** The links and the offset the children loop writes after a child. */
  function LinkKid(b: seq<ElemPos>, pos: nat, prev: nat, slot: nat): (d: seq<ElemPos>)
    requires pos < |b| && prev < |b| && slot < |b|
    ensures |d| == |b|
  {
    var d := if prev != 0 then b[prev := b[prev].(next := slot)] else b[pos := b[pos].(child := slot)];
    d[pos := d[pos].(endL := d[slot].endR + 1)]
  }

  lemma LastSpot(acc: Outline)
    ensures ChainLast(acc, 0) == 0 <==> acc.Nil?
    ensures acc.At? ==> ChainLast(acc, 0) in Slots(acc)
  {
    LastIn(acc, 0);
    NoZero(acc);
  }

  lemma KidStep(a0: seq<ElemPos>, a: seq<ElemPos>, b: seq<ElemPos>, free0: nat, free: nat, free': nat, pos: nat,
      prev: nat, acc: Outline, nd: Outline)
    requires KidsSoFar(a0, a, free0, free, pos, prev, acc) && OnlyEndL(a, b, free, pos)
    requires nd.At? && nd.next.Nil? && Indexed(b, nd, pos) && Numbered(nd, free) && free' == free + Count(nd) <= |b|
    ensures prev < |b| && nd.slot < |b| && KidsSoFar(a0, LinkKid(b, pos, prev, nd.slot), free0, free', pos, nd.slot,
                Append(acc, nd))
    ensures LinkKid(b, pos, prev, nd.slot)[pos].endL == nd.endR + 1
  {
    hide Append, Distinct, Linked, Placed, Numbered, Slots, ChainLast;
    LastSpot(acc);
    NodeSlot(b, nd, pos, free);
    NumberedSlots(nd, free);
    var d := LinkKid(b, pos, prev, nd.slot);
    AppendShape(acc, nd, 0);
    IndexedFrame(b, d, nd, pos);
    AppendIndexed(a, d, acc, nd, pos);
  }

  lemma KidsStop(a0: seq<ElemPos>, a: seq<ElemPos>, b: seq<ElemPos>, free0: nat, free: nat, pos: nat, prev: nat,
      acc: Outline)
    requires KidsSoFar(a0, a, free0, free, pos, prev, acc) && OnlyEndL(a, b, free, pos)
    ensures KidsSoFar(a0, b, free0, free, pos, prev, acc)
  {
    hide Linked, Placed, Distinct, Slots, ChainLast;
    IndexedFrame(a, b, acc, pos);
  }

  lemma ResumeNil(rest: ParsedKids)
    ensures Resume(Nil, rest) == rest
  {
  }

  lemma NodeSlot(b: seq<ElemPos>, nd: Outline, pos: nat, free: nat)
    requires nd.At? && Indexed(b, nd, pos) && Numbered(nd, free)
    ensures nd.slot == free < |b| && b[nd.slot].endR == nd.endR && nd.slot in Slots(nd) && b[nd.slot].endL == nd.endL
  {
  }
}

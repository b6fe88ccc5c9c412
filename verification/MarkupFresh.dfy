/**
 What a fresh parse of an edited document computes: the layout of its tree,
 with the slots numbered in preorder.
 */
module MarkupFresh {
  import opened TextScan
  import opened ElemIndex
  import opened MarkupTree
  import opened MarkupParse
  import opened MarkupWellFormed
  import opened MarkupTag
  import opened MarkupState

  ghost predicate OneRoot(c: Content) { Wf(c) && (c.Kid? ==> c.next.End?) }

  /** Text the editor keeps in step with its index: gaps and at most one root element. */
  ghost predicate Editable(text: string) { exists c :: OneRoot(c) && Render(c) == text }

  /** So is no text at all. */
  lemma EmptyEditable()
    ensures Editable("")
  {
    var c := End("");
    NoMarkGap("");
    assert OneRoot(c) && Render(c) == "";
  }

  // ----- the parse of a whole document ---------------------------------------

  /** There is no start tag in a gap. */
  lemma {:induction false} GapFails(g: string, i: nat)
    requires i <= |g| && GapFrom(g, i)
    ensures StartAt(g, i) == Failed
    decreases |g| - i
  {
    hide NodeAt, FindAny;
    StartSame(g, i);
    var j := FindAny(g, i, Only('<'));
    if j < |g| {
      StartNode(g, j);
      GapFails(g, NodeAt(g, j).1);
    }
  }

  /** A fresh parse computes exactly the tree and the offsets of the layout, up to the slot numbers. */
  lemma FreshParse(c: Content, slot: Slot)
    requires OneRoot(c)
    ensures var o := Layout(c, 0);
            MarkupParse.ParseElem(Render(c), 0, slot) ==
              if c.End? then Bad else MarkupParse.Elem(Renumber(o, slot), slot + Count(o))
  {
    hide RenderE, LayoutE, GapFrom, StartAt, ElemShape;
    if c.End? {
      GapFails(c.gap, 0);
    } else {
      RootText(c);
      WfElemShape(c.elem);
      ParseElemComplete(Render(c), 0, c.gap, c.elem, slot);
      assert Layout(c, 0) == LayoutE(c.elem, |c.gap|, Nil);
    }
  }

  lemma RootText(c: Content)
    requires c.Kid? && c.next.End?
    ensures Has(Render(c), 0, c.gap) && Has(Render(c), |c.gap|, RenderE(c.elem))
  {
    hide RenderE;
    assert Render(c.next) == c.next.gap;
    assert Render(c) == "" + c.gap + (RenderE(c.elem) + c.next.gap);
    HasMid("", c.gap, RenderE(c.elem) + c.next.gap);
    HasMid(c.gap, RenderE(c.elem), c.next.gap);
  }

  // ----- numbering the slots -------------------------------------------------

  function NumberC(c: Content, slot: Slot): Content {
    match c
    case End(_) => c
    case Kid(g, e, next) => Kid(g, NumberE(e, slot), NumberC(next, slot + CountE(e)))
  }

  function NumberE(e: MarkupTree.Elem, slot: Slot): MarkupTree.Elem {
    match e
    case Leaf(_, tag) => Leaf(slot, tag)
    case Branch(_, tag, inner, close) => Branch(slot, tag, NumberC(inner, slot + 1), close)
  }

  function CountE(e: MarkupTree.Elem): nat { if e.Leaf? then 1 else 1 + CountC(e.inner) }

  function CountC(c: Content): nat { if c.End? then 0 else CountE(c.elem) + CountC(c.next) }

  /** Numbering the elements of a tree renumbers its layout and changes nothing else. */
  lemma {:induction false} NumberLayout(c: Content, slot: Slot, o: int)
    ensures Len(NumberC(c, slot)) == Len(c) && Count(Layout(c, o)) == CountC(c)
    ensures Layout(NumberC(c, slot), o) == Renumber(Layout(c, o), slot)
    decreases c
  {
    if c.Kid? {
      NumberLayoutE(c.elem, slot, o + |c.gap|, Layout(c.next, o + |c.gap| + LenE(c.elem)));
      NumberLayout(c.next, slot + CountE(c.elem), o + |c.gap| + LenE(c.elem));
    }
  }

  lemma {:induction false} NumberLayoutE(e: MarkupTree.Elem, slot: Slot, o: int, next: Outline)
    ensures LenE(NumberE(e, slot)) == LenE(e) && Count(LayoutE(e, o, next)) == CountE(e) + Count(next)
    ensures LayoutE(NumberE(e, slot), o, Renumber(next, slot + CountE(e))) == Renumber(LayoutE(e, o, next), slot)
    decreases e
  {
    hide Layout, NumberC, CountC, Len;
    if e.Branch? { NumberLayout(e.inner, slot + 1, o + |e.tag| + 2); }
  }

  lemma {:induction false} NumberText(c: Content, slot: Slot)
    ensures Render(NumberC(c, slot)) == Render(c) && (Wf(c) ==> Wf(NumberC(c, slot)))
    decreases c
  {
    hide TagOk, CloseOk, GapFrom;
    if c.Kid? {
      NumberTextE(c.elem, slot);
      NumberText(c.next, slot + CountE(c.elem));
    }
  }

  lemma {:induction false} NumberTextE(e: MarkupTree.Elem, slot: Slot)
    ensures RenderE(NumberE(e, slot)) == RenderE(e) && (WfE(e) ==> WfE(NumberE(e, slot)))
    decreases e
  {
    hide TagOk, CloseOk, GapFrom;
    if e.Branch? { NumberText(e.inner, slot + 1); }
  }

  lemma {:induction false} RenumberNumbered(o: Outline, slot: Slot)
    ensures Numbered(Renumber(o, slot), slot) && Count(Renumber(o, slot)) == Count(o)
  {
    if o.At? {
      RenumberNumbered(o.child, slot + 1);
      RenumberNumbered(o.next, slot + 1 + Count(o.child));
    }
  }

  lemma NumberRoot(c: Content, slot: Slot)
    requires OneRoot(c)
    ensures OneRoot(NumberC(c, slot)) && Render(NumberC(c, slot)) == Render(c)
  {
    hide Wf, Render;
    NumberText(c, slot);
  }

  /** The index of a freshly parsed document is that of its numbered tree. */
  lemma FreshIndex(a: seq<ElemPos>, c: Content)
    requires OneRoot(c) && |a| >= 8 && a[0].startL == 0 && a[0].startR == 0
    requires var o := Renumber(Layout(c, 0), 1);
             Indexed(a, o, 0) && a[0].child == Head(o) && 1 + Count(Layout(c, 0)) <= |a|
    ensures IndexOk(a, 1 + Count(Layout(c, 0)), NumberC(c, 1))
  {
    hide Layout, Linked, Placed, Renumber, Slots, SlotsC, Count, Wf, Distinct;
    var o := Renumber(Layout(c, 0), 1);
    NumberLayout(c, 1, 0);
    RenumberNumbered(Layout(c, 0), 1);
    NumberedSlots(o, 1);
    LayoutSlots(NumberC(c, 1), 0);
    assert IndexOk(a, 1 + Count(Layout(c, 0)), NumberC(c, 1));
  }

  lemma EmptyIndex(a: seq<ElemPos>, c: Content)
    requires c.End? && |a| >= 8 && a[0] == CLEAR
    ensures IndexOk(a, 1, c)
  {
  }

  /** Renumbering keeps every offset. */
  lemma {:induction false} RenumberOffsets(s: string, o: Outline, slot: Slot, lo: int, hi: int)
    ensures Nested(Renumber(o, slot), lo, hi) <==> Nested(o, lo, hi)
    ensures Marked(s, Renumber(o, slot)) <==> Marked(s, o)
  {
    if o.At? {
      RenumberOffsets(s, o.child, slot + 1, o.startR + 1, o.endL);
      RenumberOffsets(s, o.next, slot + 1 + Count(o.child), o.endR + 1, hi);
    }
  }

  /** The offsets of a document the editor keeps are nested and point at their marks. */
  lemma LayoutSound(c: Content)
    requires OneRoot(c)
    ensures Nested(Layout(c, 0), 0, |Render(c)|) && Marked(Render(c), Layout(c, 0))
  {
    hide Wf, Layout, Render, Renumber, MarkupParse.ParseElem, Numbered, Count;
    FreshParse(c, 1);
    if c.End? {
      EmptyLayout(c);
    } else {
      ParseElemSound(Render(c), 0, 1);
      var nd := MarkupParse.ParseElem(Render(c), 0, 1).node;
      NestedWider(nd, 0, nd.endR + 1, |Render(c)|);
      RenumberOffsets(Render(c), Layout(c, 0), 1, 0, |Render(c)|);
    }
  }

  lemma EmptyLayout(c: Content)
    requires c.End?
    ensures Layout(c, 0) == Nil
  {
  }

  lemma NestedWider(o: Outline, lo: int, hi: int, hi': int)
    requires o.At? && o.next.Nil? && Nested(o, lo, hi) && o.endR < hi'
    ensures Nested(o, lo, hi')
  {
  }
}

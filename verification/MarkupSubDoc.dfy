/**
 Inserting the text of a subdocument and parsing it in place.
 */
module MarkupSubDoc {
  import opened TextScan
  import opened ElemIndex
  import opened MarkupTree
  import opened MarkupParse
  import opened MarkupWellFormed
  import opened MarkupEdit
  import opened MarkupState
  import opened MarkupFresh
  import opened MarkupProlog

  /** What x_AddSubDoc writes into an empty element in place of its slash. */
  function OpenWith(ins: string, name: string): string { ">\r\n" + ins + "</" + name }

  /** The text with a subdocument in it, and where its parse starts. */
  ghost function SubText(c: Content, doc: string, p: nat, rel: nat, insert: bool, ins: string): (r: (string, nat))
    requires p in SlotsC(c)
    ensures r.1 <= |r.0|
  {
    var e := ElemOf(c, p);
    if e.Leaf? then
      var at := Offset(c, p) + |e.tag| + 1;
      if at < |doc| then (Splice(doc, at, 1, OpenWith(ins, TagName(e.tag))), at + 3) else (doc, 0)
    else if rel != 0 && rel !in TopSlots(e.inner) then (doc, 0)
    else
      var b := NewBefore(c, p, rel, insert);
      if b != 0 && b !in TopSlots(e.inner) then (doc, 0)
      else
        var n := InnerStart(c, p) + GapStart(e.inner, b);
        var at := if insert == (rel == 0) && n <= |doc| then TrimEnd(doc, n) else n + |GapAt(e.inner, b)|;
        if at <= |doc| then (Splice(doc, at, 0, ins), at) else (doc, 0)
  }

  lemma SubTextAt(c: Content, doc: string, p: nat, rel: nat, insert: bool, ins: string, b: nat, k: nat, offset: nat)
    requires p in SlotsC(c) && ElemOf(c, p).Branch? && NewPlace(c, doc, p, rel, insert, b, k) &&
             Place(c, p, b, k, offset)
    requires offset <= |doc| && p != 0
    ensures SubText(c, doc, p, rel, insert, ins) == (Splice(doc, offset, 0, ins), offset)
  {
    hide SlotsC, ElemOf, TopSlots, TrimEnd, GapStart, GapAt, NewBefore, GapFrom, Splice;
  }

  /** Records below `free` that did not change keep the index. */
  lemma IndexKept(a: seq<ElemPos>, b: seq<ElemPos>, free: nat, c: Content)
    requires IndexOk(a, free, c) && |a| <= |b| && forall k :: 0 <= k < free ==> b[k] == a[k]
    ensures IndexOk(b, free, c)
  {
    hide Layout, Linked, Placed, Distinct, Slots, SlotsC;
    IndexParts(a, free, c);
    IndexedFrame(a, b, Layout(c, 0), 0);
  }

  /** The records of a parsed element, once it is linked between its siblings. */
  lemma ParsedLinked(a: seq<ElemPos>, b: seq<ElemPos>, d: seq<ElemPos>, free: nat, free': nat, c: Content, p: nat,
      q: nat, nd: Outline)
    requires IndexOk(a, free, c) && p < free && q < free && |a| <= |b| == |d| &&
             (forall k :: 0 <= k < free ==> b[k] == a[k])
    requires nd.At? && nd.next.Nil? && Indexed(b, nd, p) && Numbered(nd, free) && free' == free + Count(nd)
    requires nd.slot < |d| && d[nd.slot] == b[nd.slot].(parent := p, next := if q != 0 then b[q].next else b[p].child)
    requires forall k :: 0 <= k < |d| && k != nd.slot ==>
      d[k] == if q != 0 && k == q then b[k].(next := nd.slot)
      else if q == 0 && k == p then b[k].(child := nd.slot) else b[k]
    ensures Distinct(nd) && (forall s :: s in Slots(nd) ==> free <= s < free') && nd.slot == free
    ensures LinkedIn(a, d, Layout(c, 0), p, q, nd)
  {
    hide Layout, Distinct, Numbered, SlotsC, Count;
    IndexParts(a, free, c);
    NumberedSlots(nd, free);
    NodeSlot(b, nd, p, free);
    DistinctParts(nd);
    IndexedFrame(b, d, nd.child, nd.slot);
  }

  /** The same for the only child of an element that was empty. */
  lemma ParsedOpened(a: seq<ElemPos>, b: seq<ElemPos>, d: seq<ElemPos>, free: nat, free': nat, c: Content, p: nat,
      cut: nat, nd: Outline)
    requires IndexOk(a, free, c) && p < free && p != 0 && |a| <= |b| == |d| &&
             (forall k :: 0 <= k < free ==> b[k] == a[k])
    requires nd.At? && nd.next.Nil? && Indexed(b, nd, p) && Numbered(nd, free) && free' == free + Count(nd) &&
             a[p].child == 0
    requires nd.slot < |d| && d[nd.slot] == b[nd.slot].(parent := p, next := 0)
    requires d[p] == b[p].(startR := b[p].startR - 1, endL := b[p].endL - cut, child := nd.slot)
    requires forall k :: 0 <= k < |d| && k != nd.slot && k != p ==> d[k] == b[k]
    ensures Distinct(nd) && (forall s :: s in Slots(nd) ==> free <= s < free') && nd.slot == free
    ensures OpenedUp(a, d, Layout(c, 0), p, cut, nd)
  {
    hide Layout, Distinct, Numbered, SlotsC, Count;
    IndexParts(a, free, c);
    NumberedSlots(nd, free);
    NodeSlot(b, nd, p, free);
    DistinctParts(nd);
    IndexedFrame(b, d, nd.child, nd.slot);
  }

  /** A subdocument with one root: its parse is the numbered layout of that root. */
  lemma RootParsed(s: string, n: nat, x: MarkupTree.Elem, slot: Slot)
    requires WfE(x) && Has(s, n, RenderE(x))
    ensures n <= |s| && MarkupParse.ParseElem(s, n, slot) ==
            MarkupParse.Elem(LayoutE(NumberE(x, slot), n, Nil), slot + CountE(x))
    ensures WfE(NumberE(x, slot)) && RenderE(NumberE(x, slot)) == RenderE(x) && LenE(NumberE(x, slot)) == LenE(x)
  {
    hide RenderE, ElemShape, WfE, LayoutE, GapFrom, MarkupParse.ParseElem;
    NoMarkGap("");
    FirstParsed(s, n, "", x, slot);
    NumberTextE(x, slot);
    NumberLayoutE(x, slot, n, Nil);
  }

  /** What is parsed is the first element behind a gap. */
  lemma FirstParsed(s: string, n: nat, g: string, x: MarkupTree.Elem, slot: Slot)
    requires GapOk(g) && WfE(x) && Has(s, n, g) && Has(s, n + |g|, RenderE(x))
    ensures MarkupParse.ParseElem(s, n, slot) ==
            MarkupParse.Elem(LayoutE(NumberE(x, slot), n + |g|, Nil), slot + CountE(x))
  {
    hide RenderE, ElemShape, WfE, LayoutE, GapFrom, MarkupParse.ParseElem;
    WfElemShape(x);
    ParseElemComplete(s, n, g, x, slot);
    NumberLayoutE(x, slot, n + |g|, Nil);
    NilParts(slot + CountE(x));
  }

  /** A subdocument with elements: only the first one is indexed, which is all of it exactly if it is the only root. */
  lemma SeveralRoots(d: string, at: nat, c: Content, slot: Slot)
    requires at <= |d| && Wf(c) && c.Kid?
    ensures MarkupParse.ParseElem(Splice(d, at, 0, Render(c)), at, slot) ==
            MarkupParse.Elem(LayoutE(NumberE(c.elem, slot), at + |c.gap|, Nil), slot + CountE(c.elem))
    ensures CountE(c.elem) == CountC(c) <==> c.next.End?
  {
    hide RenderE, WfE, LayoutE, GapFrom, MarkupParse.ParseElem, Splice;
    var g, e := c.gap, RenderE(c.elem);
    assert Render(c) == g + e + Render(c.next);
    assert "" + g + (e + Render(c.next)) == Render(c);
    SpliceHas(d, at, 0, "", g, e + Render(c.next));
    SpliceHas(d, at, 0, g, e, Render(c.next));
    FirstParsed(Splice(d, at, 0, Render(c)), at, g, c.elem, slot);
    if c.next.Kid? { assert CountC(c.next) >= CountE(c.next.elem) >= 1; }
  }

  /** A subdocument without an element: the element that follows in the document is indexed a second time. */
  lemma NoRoots(d: string, at: nat, ins: string, g: string, y: MarkupTree.Elem, slot: Slot)
    requires GapOk(ins) && GapOk(g) && WfE(y) && Has(d, at, g) && Has(d, at + |g|, RenderE(y))
    ensures MarkupParse.ParseElem(Splice(d, at, 0, ins), at, slot) ==
            MarkupParse.Elem(LayoutE(NumberE(y, slot), at + |ins| + |g|, Nil), slot + CountE(y))
  {
    hide RenderE, WfE, LayoutE, GapFrom, MarkupParse.ParseElem, Splice, Has;
    var s := Splice(d, at, 0, ins);
    SpliceHas(d, at, 0, "", ins, "");
    assert "" + ins + "" == ins;
    SpliceBehind(d, at, ins, 0, g);
    SpliceBehind(d, at, ins, |g|, RenderE(y));
    HasConcat(s, at, ins, g);
    GapJoin(ins, g, 0);
    FirstParsed(s, at, ins + g, y, slot);
  }

  lemma SpliceBehind(d: string, at: nat, ins: string, i: nat, t: string)
    requires Has(d, at + i, t)
    ensures Has(Splice(d, at, 0, ins), at + |ins| + i, t)
  {
  }

  lemma {:induction false} GapJoin(a: string, b: string, i: nat)
    requires i <= |a| && GapFrom(a, i) && GapOk(b)
    ensures GapFrom(a + b, i)
    decreases |a| - i
  {
    hide NodeAt, FindAny;
    var s, j := a + b, FindAny(a, i, Only('<'));
    if j < |a| {
      FindAnyIs(s, i, Only('<'), j);
      NodeIn(s, 0, a, j);
      GapJoin(a, b, NodeAt(a, j).1);
    } else {
      SameFirst(s, i, |a|);
      GapShift(a, b, 0);
    }
  }

  lemma NilParts(slot: Slot)
    ensures Renumber(Nil, slot) == Nil && Count(Nil) == 0
  {
  }

  lemma SpliceUndo(s: string, at: nat, len: nat, ins: string)
    requires at + len <= |s|
    ensures Splice(Splice(s, at, len, ins), at, |ins|, s[at..at + len]) == s
  {
  }

  lemma SpliceHas(s: string, at: nat, len: nat, a: string, x: string, z: string)
    requires at + len <= |s|
    ensures Has(Splice(s, at, len, a + x + z), at + |a|, x)
  {
    assert Splice(s, at, len, a + x + z) == (s[..at] + a) + x + (z + s[at + len..]);
    HasMid(s[..at] + a, x, z + s[at + len..]);
  }
}

/**
 Edits of the tree: a child put into a gap, a child cut out.  Each is shown to
 be one splice of the text and one x_Adjust of the outline.
 */
module MarkupEdit {
  import opened TextScan
  import opened ElemIndex
  import opened MarkupTree

  /** The slots of the elements directly in `c`. */
  function TopSlots(c: Content): set<nat> { if c.End? then {} else {c.elem.slot} + TopSlots(c.next) }

  /** The gap behind child `b`, or the first gap for b == 0. */
  function GapAt(c: Content, b: nat): string
    requires b == 0 || b in TopSlots(c)
  {
    if b == 0 then c.gap else if c.elem.slot == b then c.next.gap else GapAt(c.next, b)
  }

  function GapStart(c: Content, b: nat): nat
    requires b == 0 || b in TopSlots(c)
  {
    if b == 0 then 0
    else |c.gap| + LenE(c.elem) + (if c.elem.slot == b then 0 else GapStart(c.next, b))
  }

  /** `x` and then `tail` put at position `k` of the gap behind `b`. */
  function InsertKid(c: Content, b: nat, k: nat, x: Elem, tail: string): Content
    requires (b == 0 || b in TopSlots(c)) && k <= |GapAt(c, b)|
  {
    if b == 0 then Kid(c.gap[..k], x, c.(gap := tail + c.gap[k..]))
    else if c.elem.slot == b then c.(next := InsertKid(c.next, 0, k, x, tail))
    else c.(next := InsertKid(c.next, b, k, x, tail))
  }

  /** The text of `c` on the two sides of that position. */
  function TextUpTo(c: Content, b: nat, k: nat): string
    requires (b == 0 || b in TopSlots(c)) && k <= |GapAt(c, b)|
  {
    if b == 0 then c.gap[..k]
    else c.gap + RenderE(c.elem) + TextUpTo(c.next, if c.elem.slot == b then 0 else b, k)
  }

  function TextFrom(c: Content, b: nat, k: nat): string
    requires (b == 0 || b in TopSlots(c)) && k <= |GapAt(c, b)|
  {
    if b == 0 then Render(c.(gap := c.gap[k..]))
    else TextFrom(c.next, if c.elem.slot == b then 0 else b, k)
  }

  lemma GapText(c: Content, l: string, r: string)
    ensures Render(c.(gap := l + r)) == l + Render(c.(gap := r))
  {
    if c.Kid? {
      var e, n := RenderE(c.elem), Render(c.next);
      assert (l + r) + e + n == l + (r + e + n);
    }
  }

  lemma {:induction false} InsertText(c: Content, b: nat, k: nat, x: Elem, tail: string)
    requires (b == 0 || b in TopSlots(c)) && k <= |GapAt(c, b)|
    ensures |TextUpTo(c, b, k)| == GapStart(c, b) + k
    ensures Render(c) == TextUpTo(c, b, k) + TextFrom(c, b, k)
    ensures Render(InsertKid(c, b, k, x, tail)) == TextUpTo(c, b, k) + (RenderE(x) + tail) + TextFrom(c, b, k)
  {
    hide Render, RenderE, LenE;
    if b == 0 {
      InsertTextFirst(c, k, x, tail);
    } else {
      var b' := if c.elem.slot == b then 0 else b;
      InsertText(c.next, b', k, x, tail);
      LenRenderE(c.elem);
      var h, l, m, r := c.gap + RenderE(c.elem), TextUpTo(c.next, b', k), RenderE(x) + tail, TextFrom(c.next, b', k);
      KidText(c, c.next);
      KidText(c, InsertKid(c.next, b', k, x, tail));
      Regroup(h, l, m, r);
    }
  }

  lemma KidText(c: Content, next: Content)
    requires c.Kid?
    ensures Render(c.(next := next)) == (c.gap + RenderE(c.elem)) + Render(next) && c.(next := c.next) == c
  {
    hide RenderE;
  }

  lemma Regroup(h: string, l: string, m: string, r: string)
    ensures h + (l + r) == (h + l) + r
    ensures h + (l + m + r) == (h + l) + m + r
  {
  }

  lemma InsertTextFirst(c: Content, k: nat, x: Elem, tail: string)
    requires k <= |c.gap|
    ensures |TextUpTo(c, 0, k)| == GapStart(c, 0) + k
    ensures Render(c) == TextUpTo(c, 0, k) + TextFrom(c, 0, k)
    ensures Render(InsertKid(c, 0, k, x, tail)) == TextUpTo(c, 0, k) + (RenderE(x) + tail) + TextFrom(c, 0, k)
  {
    hide RenderE;
    GapText(c, c.gap[..k], c.gap[k..]);
    assert c.gap[..k] + c.gap[k..] == c.gap;
    assert c.(gap := c.gap) == c;
    GapText(c, tail, c.gap[k..]);
    var t := TextFrom(c, 0, k);
    assert c.gap[..k] + RenderE(x) + (tail + t) == c.gap[..k] + (RenderE(x) + tail) + t;
  }

  /** The outline with a new element linked in behind `b`, nothing moved yet. */
  function LinkNode(o: Outline, b: nat, x: Outline): (r: Outline)
    requires x.At?
    ensures r.At?
  {
    if b == 0 || o.Nil? then x.(next := o)
    else o.(next := LinkNode(o.next, if o.slot == b then 0 else b, x))
  }

  lemma LayoutGap(c: Content, g: string, o: int)
    ensures Layout(c.(gap := g), o) == Layout(c, o + |g| - |c.gap|)
  {
  }

  lemma {:induction false} LinkSlots(o: Outline, b: nat, x: Outline)
    requires x.At? && x.next.Nil?
    ensures Slots(LinkNode(o, b, x)) == Slots(o) + Slots(x)
  {
    if b == 0 || o.Nil? { assert Slots(x.next) == {}; } else { LinkSlots(o.next, if o.slot == b then 0 else b, x); }
  }

  ghost predicate Inserted(c: Content, b: nat, k: nat, x: Elem, tail: string, o: int)
    requires (b == 0 || b in TopSlots(c)) && k <= |GapAt(c, b)|
  {
    var linked := LinkNode(Layout(c, o), b, LayoutE(x, o + GapStart(c, b) + k, Nil));
    && x.slot in Slots(linked)
    && Layout(InsertKid(c, b, k, x, tail), o) == AdjustAt(linked, x.slot, LenE(x) + |tail|, true)
  }

  lemma {:induction false} InsertLayout(c: Content, b: nat, k: nat, x: Elem, tail: string, o: int)
    requires (b == 0 || b in TopSlots(c)) && k <= |GapAt(c, b)| && x.slot !in SlotsC(c)
    ensures Inserted(c, b, k, x, tail, o)
    decreases c
  {
    hide Inserted, Layout, LayoutE;
    if b == 0 {
      InsertFirst(c, k, x, tail, o);
    } else {
      InsertLayout(c.next, if c.elem.slot == b then 0 else b, k, x, tail, o + |c.gap| + LenE(c.elem));
      InsertStep(c, b, k, x, tail, o);
    }
  }

  lemma InsertFirst(c: Content, k: nat, x: Elem, tail: string, o: int)
    requires k <= |c.gap|
    ensures Inserted(c, 0, k, x, tail, o)
  {
    LayoutGap(c, tail + c.gap[k..], o + k + LenE(x));
    LayoutShift(c, o, LenE(x) + |tail|);
    assert InsertKid(c, 0, k, x, tail) == Kid(c.gap[..k], x, c.(gap := tail + c.gap[k..]));
    assert Layout(Kid(c.gap[..k], x, c.(gap := tail + c.gap[k..])), o) ==
           LayoutE(x, o + k, Layout(c.(gap := tail + c.gap[k..]), o + k + LenE(x)));
  }

  lemma InsertStep(c: Content, b: nat, k: nat, x: Elem, tail: string, o: int)
    requires b != 0 && b in TopSlots(c) && k <= |GapAt(c, b)|
    requires x.slot != c.elem.slot && (c.elem.Branch? ==> x.slot !in SlotsC(c.elem.inner))
    requires Inserted(c.next, if c.elem.slot == b then 0 else b, k, x, tail, o + |c.gap| + LenE(c.elem))
    ensures Inserted(c, b, k, x, tail, o)
  {
    hide LayoutE, LinkNode, AdjustAt, LenE, Slots, SlotsC;
    var p := o + |c.gap|;
    var at := p + LenE(c.elem);
    var b' := if c.elem.slot == b then 0 else b;
    var nx, n := LayoutE(x, o + GapStart(c, b) + k, Nil), LenE(x) + |tail|;
    assert GapStart(c, b) == |c.gap| + LenE(c.elem) + GapStart(c.next, b');
    var rest := LinkNode(Layout(c.next, at), b', nx);
    assert Inserted(c.next, b', k, x, tail, at);
    StepLayout(c.elem, p, rest, x.slot, n);
    LinkStep(c.elem, p, Layout(c.next, at), b, nx);
    assert InsertKid(c, b, k, x, tail) == c.(next := InsertKid(c.next, b', k, x, tail));
    assert Layout(InsertKid(c, b, k, x, tail), o) == LayoutE(c.elem, p, AdjustAt(rest, x.slot, n, true));
    assert Inserted(c, b, k, x, tail, o);
  }

  lemma LinkStep(e: Elem, p: int, next: Outline, b: nat, nx: Outline)
    requires b != 0 && nx.At?
    ensures LinkNode(LayoutE(e, p, next), b, nx) == LayoutE(e, p, LinkNode(next, if e.slot == b then 0 else b, nx))
  {
  }

  /** An adjustment that starts among the later siblings leaves an element alone. */
  lemma StepLayout(e: Elem, p: int, next: Outline, s: nat, n: int)
    requires s in Slots(next) && s != e.slot && (e.Branch? ==> s !in SlotsC(e.inner))
    ensures s in Slots(LayoutE(e, p, next)) && AdjustAt(LayoutE(e, p, next), s, n, true) ==
            LayoutE(e, p, AdjustAt(next, s, n, true))
  {
    if e.Branch? { LayoutSlots(e.inner, p + |e.tag| + 2); }
  }

  // ----- cutting a child out -------------------------------------------------

  /** Child `s` cut out together with the first `cut` characters of the gap behind it. */
  function RemoveKid(c: Content, s: nat, cut: nat): Content
    requires s in TopSlots(c) && s != 0 && cut <= |GapAt(c, s)|
  {
    if c.elem.slot == s then c.next.(gap := c.gap + c.next.gap[cut..])
    else c.(next := RemoveKid(c.next, s, cut))
  }

  function KidOf(c: Content, s: nat): (e: Elem)
    requires s in TopSlots(c)
    ensures e.slot == s
  {
    if c.elem.slot == s then c.elem else KidOf(c.next, s)
  }

  function TextBefore(c: Content, s: nat): string
    requires s in TopSlots(c)
  {
    if c.elem.slot == s then c.gap else c.gap + RenderE(c.elem) + TextBefore(c.next, s)
  }

  function KidStart(c: Content, s: nat): nat
    requires s in TopSlots(c)
  {
    if c.elem.slot == s then |c.gap| else |c.gap| + LenE(c.elem) + KidStart(c.next, s)
  }

  lemma {:induction false} RemoveText(c: Content, s: nat, cut: nat)
    requires s in TopSlots(c) && s != 0 && cut <= |GapAt(c, s)|
    ensures |TextBefore(c, s)| == KidStart(c, s)
    ensures Render(c) == TextBefore(c, s) + (RenderE(KidOf(c, s)) + GapAt(c, s)[..cut]) + TextFrom(c, s, cut)
    ensures Render(RemoveKid(c, s, cut)) == TextBefore(c, s) + TextFrom(c, s, cut)
  {
    hide Render, RenderE, LenE;
    if c.elem.slot == s {
      RemoveTextFirst(c, cut);
    } else {
      RemoveText(c.next, s, cut);
      LenRenderE(c.elem);
      var h, l, m, r := c.gap + RenderE(c.elem), TextBefore(c.next, s), RenderE(KidOf(c, s)) + GapAt(c, s)[..cut],
          TextFrom(c.next, s, cut);
      KidText(c, c.next);
      KidText(c, RemoveKid(c.next, s, cut));
      Regroup(h, l, m, r);
    }
  }

  lemma RemoveTextFirst(c: Content, cut: nat)
    requires c.Kid? && c.elem.slot in TopSlots(c) && cut <= |GapAt(c, c.elem.slot)|
    ensures var s := c.elem.slot;
            && |TextBefore(c, s)| == KidStart(c, s)
            && Render(c) == TextBefore(c, s) + (RenderE(KidOf(c, s)) + GapAt(c, s)[..cut]) + TextFrom(c, s, cut)
            && Render(RemoveKid(c, s, cut)) == TextBefore(c, s) + TextFrom(c, s, cut)
  {
    hide RenderE;
    var x, g := c.next, c.next.gap;
    assert g[..cut] + g[cut..] == g && x.(gap := g) == x;
    GapText(x, g[..cut], g[cut..]);
    GapText(x, c.gap, g[cut..]);
    var t := TextFrom(c, c.elem.slot, cut);
    assert c.gap + RenderE(c.elem) + (g[..cut] + t) == c.gap + (RenderE(c.elem) + g[..cut]) + t;
  }

  ghost predicate Removed(c: Content, s: nat, cut: nat, o: int)
    requires s in TopSlots(c) && s != 0 && cut <= |GapAt(c, s)|
  {
    && s in Slots(Layout(c, o))
    && var moved := AdjustAt(Layout(c, o), s, -(LenE(KidOf(c, s)) + cut), true);
       s in Slots(moved) && Layout(RemoveKid(c, s, cut), o) == Unlink(moved, s)
  }

  lemma {:induction false} RemoveLayout(c: Content, s: nat, cut: nat, o: int)
    requires s in TopSlots(c) && s != 0 && cut <= |GapAt(c, s)| && Distinct(Layout(c, o))
    ensures Removed(c, s, cut, o)
    decreases c
  {
    hide Removed;
    if c.elem.slot == s {
      RemoveFirst(c, s, cut, o);
    } else {
      RemoveLayout(c.next, s, cut, o + |c.gap| + LenE(c.elem));
      RemoveStep(c, s, cut, o);
    }
  }

  lemma RemoveFirst(c: Content, s: nat, cut: nat, o: int)
    requires c.Kid? && c.elem.slot == s && cut <= |c.next.gap|
    ensures Removed(c, s, cut, o)
  {
    var at := o + |c.gap| + LenE(c.elem);
    LayoutGap(c.next, c.gap + c.next.gap[cut..], o);
    LayoutShift(c.next, at, -(LenE(c.elem) + cut));
  }

  lemma RemoveStep(c: Content, s: nat, cut: nat, o: int)
    requires s in TopSlots(c) && s != 0 && cut <= |GapAt(c, s)| && Distinct(Layout(c, o)) && c.elem.slot != s
    requires Removed(c.next, s, cut, o + |c.gap| + LenE(c.elem))
    ensures Removed(c, s, cut, o)
  {
    hide LayoutE, AdjustAt, LenE, Unlink;
    var p := o + |c.gap|;
    var at := p + LenE(c.elem);
    var next, n := Layout(c.next, at), -(LenE(KidOf(c, s)) + cut);
    assert Removed(c.next, s, cut, at);
    assert Layout(c, o) == LayoutE(c.elem, p, next);
    DistinctKid(c.elem, p, next);
    StepLayout(c.elem, p, next, s, n);
    UnlinkStep(c.elem, p, AdjustAt(next, s, n, true), s);
    assert Layout(RemoveKid(c, s, cut), o) == LayoutE(c.elem, p, Unlink(AdjustAt(next, s, n, true), s));
    assert Removed(c, s, cut, o);
  }

  lemma DistinctKid(e: Elem, p: int, next: Outline)
    requires Distinct(LayoutE(e, p, next))
    ensures Distinct(next) && e.slot !in Slots(next) &&
            (e.Branch? ==> SlotsC(e.inner) !! Slots(next) && e.slot !in SlotsC(e.inner))
    ensures e.Branch? ==> Distinct(Layout(e.inner, p + |e.tag| + 2))
  {
    if e.Branch? { LayoutSlots(e.inner, p + |e.tag| + 2); }
  }

  lemma UnlinkStep(e: Elem, p: int, next: Outline, s: nat)
    requires s in Slots(next) && s != e.slot && (e.Branch? ==> s !in SlotsC(e.inner))
    ensures s in Slots(LayoutE(e, p, next)) && Unlink(LayoutE(e, p, next), s) == LayoutE(e, p, Unlink(next, s))
  {
    if e.Branch? { LayoutSlots(e.inner, p + |e.tag| + 2); }
  }

  // ----- the same below any element of a document ----------------------------

  function InnerOf(c: Content, p: nat): Content
    requires p == 0 || (p in SlotsC(c) && ElemOf(c, p).Branch?)
  {
    if p == 0 then c else ElemOf(c, p).inner
  }

  /** The document with new content in element `p` (or at top level, for p == 0). */
  function WithInner(c: Content, p: nat, inner: Content): Content
    requires p == 0 || (p in SlotsC(c) && ElemOf(c, p).Branch?)
  {
    if p == 0 then inner else Replace(c, p, ElemOf(c, p).(inner := inner))
  }

  /** Where the content of `p` starts. */
  function InnerStart(c: Content, p: nat): nat
    requires p == 0 || (p in SlotsC(c) && ElemOf(c, p).Branch?)
  {
    if p == 0 then 0 else Offset(c, p) + |ElemOf(c, p).tag| + 2
  }

  /** The outline with the node `nx` linked in below `p`, behind `b`. */
  function LinkBelow(o: Outline, p: nat, b: nat, nx: Outline): (r: Outline)
    requires (p == 0 || p in Slots(o)) && nx.At?
    ensures r.At?
  {
    if p == 0 then LinkNode(o, b, nx)
    else var nd := NodeOf(o, p); PutNode(o, p, nd.(child := LinkNode(nd.child, b, nx)))
  }

  ghost predicate Splittable(c: Content, p: nat, b: nat, k: nat) {
    && (p == 0 || (p in SlotsC(c) && ElemOf(c, p).Branch?))
    && (b == 0 || b in TopSlots(InnerOf(c, p))) && k <= |GapAt(InnerOf(c, p), b)|
  }

  lemma {:induction false} LenInsert(c: Content, b: nat, k: nat, x: Elem, tail: string)
    requires (b == 0 || b in TopSlots(c)) && k <= |GapAt(c, b)|
    ensures Len(InsertKid(c, b, k, x, tail)) == Len(c) + LenE(x) + |tail|
  {
    if b == 0 {
      LenGap(c, tail + c.gap[k..]);
    } else {
      LenInsert(c.next, if c.elem.slot == b then 0 else b, k, x, tail);
    }
  }

  lemma LenGap(c: Content, g: string)
    ensures Len(c.(gap := g)) == Len(c) + |g| - |c.gap|
  {
  }

  /** Inserting below `p` is linking the new element in and adjusting from it. */
  lemma InsertBelow(c: Content, p: nat, b: nat, k: nat, x: Elem, tail: string)
    requires Splittable(c, p, b, k) && Distinct(Layout(c, 0)) && x.slot !in SlotsC(c)
    ensures p == 0 || p in Slots(Layout(c, 0))
    ensures var inner := InnerOf(c, p);
            var linked := LinkBelow(Layout(c, 0), p, b, LayoutE(x, InnerStart(c, p) + GapStart(inner, b) + k, Nil));
            && x.slot in Slots(linked)
            && Layout(WithInner(c, p, InsertKid(inner, b, k, x, tail)), 0) ==
                 AdjustAt(linked, x.slot, LenE(x) + |tail|, true)
  {
    hide Layout, LayoutE, InsertKid, LenE, LinkNode, AdjustAt, Patch, PutNode;
    var inner := InnerOf(c, p);
    var new' := InsertKid(inner, b, k, x, tail);
    var n := LenE(x) + |tail|;
    if p == 0 {
      InsertLayout(c, b, k, x, tail, 0);
      assert Inserted(c, b, k, x, tail, 0);
    } else {
      LayoutSlots(c, 0);
      InnerWithin(c, p);
      var at := InnerStart(c, p);
      InsertLayout(inner, b, k, x, tail, at);
      assert Inserted(inner, b, k, x, tail, at);
      LenInsert(inner, b, k, x, tail);
      InnerLayout(c, p, new', 0);
      NodeInner(c, p);
      var o := Layout(c, 0);
      var nd := NodeOf(o, p);
      var nx := LayoutE(x, at + GapStart(inner, b) + k, Nil);
      AdjustPutBelow(o, p, nd.(child := LinkNode(nd.child, b, nx)), x.slot, n, true);
    }
  }

  lemma {:induction false} InnerWithin(c: Content, p: nat)
    requires p in SlotsC(c)
    ensures ElemOf(c, p).Branch? ==> SlotsC(ElemOf(c, p).inner) <= SlotsC(c)
  {
    if c.elem.slot == p {
    } else if c.elem.Branch? && p in SlotsC(c.elem.inner) { InnerWithin(c.elem.inner, p);
    } else { InnerWithin(c.next, p); }
  }

  lemma NodeInner(c: Content, p: nat)
    requires p in SlotsC(c) && ElemOf(c, p).Branch?
    ensures p in Slots(Layout(c, 0))
    ensures var nd := NodeOf(Layout(c, 0), p);
            nd.startR + 1 == InnerStart(c, p) && nd.child == Layout(InnerOf(c, p), InnerStart(c, p))
  {
    NodeLayout(c, p, 0);
  }

  lemma {:induction false} LenRemove(c: Content, s: nat, cut: nat)
    requires s in TopSlots(c) && s != 0 && cut <= |GapAt(c, s)|
    ensures Len(RemoveKid(c, s, cut)) == Len(c) - LenE(KidOf(c, s)) - cut
  {
    if c.elem.slot == s { LenGap(c.next, c.gap + c.next.gap[cut..]); } else { LenRemove(c.next, s, cut); }
  }

  /** Cutting out below `p` is adjusting from the element and unlinking it. */
  lemma RemoveBelow(c: Content, p: nat, s: nat, cut: nat)
    requires Splittable(c, p, s, cut) && s != 0 && Distinct(Layout(c, 0))
    ensures var inner := InnerOf(c, p);
            && s in Slots(Layout(c, 0))
            && var moved := AdjustAt(Layout(c, 0), s, -(LenE(KidOf(inner, s)) + cut), true);
               s in Slots(moved) && Layout(WithInner(c, p, RemoveKid(inner, s, cut)), 0) == Unlink(moved, s)
  {
    hide Layout, RemoveKid, LenE, AdjustAt, Patch, Unlink, Distinct;
    var inner := InnerOf(c, p);
    var n := -(LenE(KidOf(inner, s)) + cut);
    if p == 0 {
      RemoveLayout(c, s, cut, 0);
      assert Removed(c, s, cut, 0);
    } else {
      var at := InnerStart(c, p);
      LenRemove(inner, s, cut);
      InnerLayout(c, p, RemoveKid(inner, s, cut), 0);
      NodeInner(c, p);
      var o := Layout(c, 0);
      DistinctNode(o, p);
      RemoveLayout(inner, s, cut, at);
      assert Removed(inner, s, cut, at);
      UnlinkBelow(o, p, s, n);
    }
  }

  lemma {:induction false} DistinctNode(o: Outline, p: nat)
    requires p in Slots(o) && Distinct(o)
    ensures Distinct(NodeOf(o, p)) && Distinct(NodeOf(o, p).child)
  {
    if o.slot == p {
    } else if p in Slots(o.child) { DistinctNode(o.child, p);
    } else { DistinctNode(o.next, p); }
  }
}

/**
 CMarkupSTL: a document text edited in place together with its element index.
 */
module Markup {
  import opened TextScan
  import opened ElemIndex
  import opened MarkupTree
  import opened MarkupParse
  import opened MarkupWellFormed
  import opened MarkupTag
  import opened MarkupUntag
  import opened MarkupData
  import opened MarkupEdit
  import opened MarkupState
  import MarkupFind
  import opened MarkupFresh
  import opened MarkupProlog
  import opened MarkupSubDoc
  import opened MarkupKids

  const MNT_ELEMENT := 1

  ghost predicate CursorOk(a: seq<ElemPos>, slots: set<nat>, parent: nat, pos: nat, child: nat) {
    && (parent == 0 || parent in slots)
    && (pos == 0 || (pos in slots && pos < |a| && a[pos].parent == parent))
    && (child == 0 || (child in slots && child < |a| && a[child].parent == pos && (pos == 0 ==> parent == 0)))
  }

  lemma {:induction false} FoundBounds(doc: string, n: nat, count: nat, attrib: nat, name: string)
    requires n <= |doc|
    ensures var t := AttribScan(doc, n, count, attrib, name); t.found ==> t.nL <= t.nR + 1 <= |doc|
    decreases |doc| - n
  {
    hide Match;
    var t := TokenAt(doc, n);
    if t.found {
      forall k: nat, a: nat
        ensures var u := AttribScan(doc, t.next, k, a, name); u.found ==> u.nL <= u.nR + 1 <= |doc|
      {
        FoundBounds(doc, t.next, k, a, name);
      }
    }
  }

  /** The value x_GetAttrib reads for the element whose start tag begins before `n`. */
  function AttribOf(doc: string, n: nat, name: string): string {
    if n > |doc| then "" else
    var t := AttribScan(doc, n, 0, 0, name);
    if t.found && t.nL <= t.nR + 1 <= |doc| then Unescape(doc[t.nL..t.nR + 1]) else ""
  }

  lemma NothingEscaped()
    ensures Unescape("") == ""
  {
  }

  lemma AttribOfTag(doc: string, n: nat, t: Tag, name: string)
    requires WfTag(t) && name != "" && Has(doc, n, TagText(t)) && n + |TagText(t)| < |doc|
    requires doc[n + |TagText(t)|] == '>' || doc[n + |TagText(t)|] == '/'
    ensures AttribOf(doc, n, name) == Unescape(GetRaw(t, name))
  {
    hide AttribScan, TagText, WfTag, ValueStart, FirstMatch, Has, ValueAt, Unescape;
    NothingEscaped();
    ScanTag(doc, n, t, name);
    var k := FirstMatch(t.attrs, name);
    if k < |t.attrs| {
      RawInTag(t, k);
      HasIn(doc, n, TagText(t), ValueAt(t, k), t.attrs[k].raw);
      HasSlice(doc, n + ValueAt(t, k), t.attrs[k].raw);
    }
  }

  /** Setting `name` in the tag at `n` does not bear on `other`. */
  predicate Apart(doc: string, n: nat, name: string, other: string) {
    n <= |doc| &&
    var x, y := AttribScan(doc, n, 0, 0, other), AttribScan(doc, n, 0, 0, name);
    if x.found then y.found ==> x.nL != y.nL else !y.found ==> !Match(name, other)
  }

  /** Every attribute apart from `name` reads as before. */
  ghost predicate KeepsOthers(doc: string, doc': string, n: nat, name: string) {
    forall other :: other != "" && Apart(doc, n, name, other) ==> AttribOf(doc', n, other) == AttribOf(doc, n, other)
  }

  /** What reading finds after an attribute was set, in terms of the text before and after. */
  lemma ReadAfterSet(doc: string, doc': string, n: nat, t: Tag, name: string, value: string, other: string)
    requires Settable(t, name)
    requires WfTag(t) && Has(doc, n, TagText(t)) && n + |TagText(t)| < |doc|
    requires doc[n + |TagText(t)|] == '>' || doc[n + |TagText(t)|] == '/'
    requires var u := TagText(SetAttr(t, name, Escape(value, true)));
             Has(doc', n, u) && n + |u| < |doc'| && (doc'[n + |u|] == '>' || doc'[n + |u|] == '/')
    ensures AttribOf(doc', n, name) == value
    ensures other != "" && Apart(doc, n, name, other) ==> AttribOf(doc', n, other) == AttribOf(doc, n, other)
  {
    hide AttribScan, TagText, WfTag, ValueStart, FirstMatch, Has, Escape, SetAttr, AttribOf, Match, GetRaw;
    SettableName(t, name);
    var v := Escape(value, true);
    EscapeClean(value, true);
    SetAttrWf(t, name, v);
    GetSetAttr(t, name, v, other);
    EscapeRoundTrip(value, true);
    AttribOfTag(doc', n, SetAttr(t, name, v), name);
    if other != "" && Apart(doc, n, name, other) {
      AttribOfTag(doc', n, SetAttr(t, name, v), other);
      AttribOfTag(doc, n, t, other);
      ScanTag(doc, n, t, other);
      ScanTag(doc, n, t, name);
      NotFoundRaw(t, other);
    }
  }

  lemma OthersKept(doc: string, doc': string, n: nat, t: Tag, name: string, value: string)
    requires Settable(t, name)
    requires WfTag(t) && Has(doc, n, TagText(t)) && n + |TagText(t)| < |doc|
    requires doc[n + |TagText(t)|] == '>' || doc[n + |TagText(t)|] == '/'
    requires var u := TagText(SetAttr(t, name, Escape(value, true)));
             Has(doc', n, u) && n + |u| < |doc'| && (doc'[n + |u|] == '>' || doc'[n + |u|] == '/')
    ensures KeepsOthers(doc, doc', n, name)
  {
    hide AttribScan, TagText, WfTag, Has, Escape, SetAttr, AttribOf, Apart;
    forall other | other != "" && Apart(doc, n, name, other)
      ensures AttribOf(doc', n, other) == AttribOf(doc, n, other) {
      ReadAfterSet(doc, doc', n, t, name, value, other);
    }
  }

  lemma NotFoundRaw(t: Tag, name: string)
    ensures FirstMatch(t.attrs, name) == |t.attrs| ==> GetRaw(t, name) == ""
  {
  }

  predicate HasKids(e: Elem) { e.Branch? && e.inner.Kid? }

  /** How x_SetData writes its data. */
  function DataText(data: string, cdata: bool): string {
    if cdata && !Contains(data, CDATA_CLOSE) then CDataText(data) else Escape(data, false)
  }

  /** The data of element `s` of `c` is written as a CDATA section when that is asked for and possible, and escaped
      otherwise; an empty element gets an end tag; all other text stays. */
  ghost predicate DataWritten(c: Content, doc: string, doc': string, s: nat, data: string, cdata: bool) {
    && s in SlotsC(c)
    && TextPut(ElemOf(c, s), Offset(c, s), doc, doc',
         if cdata && forall i :: 0 <= i < |data| ==> !Has(data, i, "]]>") then "<![CDATA[" + data + "]]>"
         else Escape(data, false))
  }

  /** The text between the tags of an element that starts at `n`. */
  predicate TextPut(e: Elem, n: nat, doc: string, doc': string, text: string) {
    var at, name := n + |e.tag| + 1, TagName(e.tag);
    if e.Leaf? then at < |doc| && doc' == doc[..at] + ">" + text + "</" + name + doc[at + 1..]
    else at + 1 + Len(e.inner) <= |doc| && doc' == doc[..at + 1] + text + doc[at + 1 + Len(e.inner)..]
  }

  lemma DataWrittenIs(c: Content, s: nat, data: string, cdata: bool)
    requires s in SlotsC(c) && !HasKids(ElemOf(c, s))
    ensures DataWritten(c, Render(c), Render(Replace(c, s, FilledWith(ElemOf(c, s), DataText(data, cdata)))), s, data,
                cdata)
  {
    hide Render, Replace, FilledWith, Offset, ElemOf, SlotsC, Escape, TagName, DataText, Has, Splice, TextPut;
    var e, text := ElemOf(c, s), DataText(data, cdata);
    FillDoc(c, s, text);
    DataTextIs(data, cdata);
    TextPutIs(e, Offset(c, s), Render(c), text);
  }

  lemma TextPutIs(e: Elem, n: nat, doc: string, text: string)
    requires e.Branch? ==> e.inner.End?
    requires n + |e.tag| + (if e.Leaf? then 2 else 2 + |e.inner.gap|) <= |doc|
    ensures var at := n + |e.tag| + (if e.Leaf? then 1 else 2);
            var len := if e.Leaf? then 1 else |e.inner.gap|;
            var ins := if e.Leaf? then ">" + text + "</" + TagName(e.tag) else text;
            TextPut(e, n, doc, Splice(doc, at, len, ins), text)
  {
    hide TagName, Splice;
    var at := n + |e.tag| + 1;
    if e.Leaf? {
      SpliceOpen(doc, at, text, TagName(e.tag));
    } else {
      EndText(e.inner.gap);
      SpliceIs(doc, at + 1, |e.inner.gap|, text);
    }
  }

  lemma SpliceOpen(doc: string, at: nat, text: string, name: string)
    requires at < |doc|
    ensures Splice(doc, at, 1, ">" + text + "</" + name) == doc[..at] + ">" + text + "</" + name + doc[at + 1..]
  {
    assert doc[..at] + (">" + text + "</" + name) + doc[at + 1..] ==
      doc[..at] + ">" + text + "</" + name + doc[at + 1..];
  }

  lemma SpliceIs(doc: string, at: nat, len: nat, ins: string)
    requires at + len <= |doc|
    ensures Splice(doc, at, len, ins) == doc[..at] + ins + doc[at + len..]
  {
  }

  lemma DataTextIs(data: string, cdata: bool)
    ensures DataText(data, cdata) ==
            if cdata && forall i :: 0 <= i < |data| ==> !Has(data, i, "]]>") then "<![CDATA[" + data + "]]>"
            else Escape(data, false)
  {
    hide FindStr, Escape;
  }

  lemma DataGap(data: string, cdata: bool)
    ensures GapOk(DataText(data, cdata))
  {
    hide GapFrom, Contains, FindStr;
    if cdata && !Contains(data, CDATA_CLOSE) {
      CDataGap(data);
    } else {
      EscapeClean(data, false);
      NoMarkGap(Escape(data, false));
    }
  }

  /** x_GetData of the element `pos` of a document with text `doc` and tree `c`. */
  ghost function DataOf(doc: string, c: Content, pos: nat): string
    requires pos in SlotsC(c)
  {
    var e := ElemOf(c, pos);
    var startR := Offset(c, pos) + |e.tag| + 1;
    if e.Leaf? || HasKids(e) || startR + 1 + Len(e.inner) >= |doc| then ""
    else DataAt(doc, startR, startR + 1 + Len(e.inner))
  }

  /** What x_GetData reads: nothing from an element with children, the entities of plain text decoded, and the text of a
      CDATA section as it is. */
  lemma DataMeans(c: Content, s: nat)
    requires s in SlotsC(c)
    ensures ElemOf(c, s).Leaf? || HasKids(ElemOf(c, s)) ==> DataOf(Render(c), c, s) == ""
    ensures ElemOf(c, s).Branch? && ElemOf(c, s).inner.End? ==>
            GapReads(ElemOf(c, s).inner.gap, DataOf(Render(c), c, s))
  {
    hide Render, Offset, ElemOf, SlotsC, Unescape, TokenAt, FindStr, DataAt, Has, GapReads;
    var e := ElemOf(c, s);
    if e.Branch? && e.inner.End? {
      var gap := e.inner.gap;
      ContentInText(c, s);
      EndText(gap);
      GapData(Render(c), Offset(c, s) + |e.tag| + 1, gap);
    }
  }

  /** `r` is what the text `gap` between two tags is read as, if it is plain text or one CDATA section. */
  ghost predicate GapReads(gap: string, r: string) {
    && ((forall i :: 0 <= i < |gap| ==> gap[i] != '<') ==> r == Unescape(gap))
    && (forall x :: gap == "<![CDATA[" + x + "]]>" && (forall i :: 0 <= i < |x| ==> !Has(x, i, "]]>")) ==> r == x)
  }

  lemma GapData(doc: string, startR: nat, gap: string)
    requires Has(doc, startR + 1, gap) && startR + 1 + |gap| < |doc|
    ensures GapReads(gap, DataAt(doc, startR, startR + 1 + |gap|))
  {
    hide Unescape, TokenAt, FindStr, DataAt, Has;
    if forall i :: 0 <= i < |gap| ==> gap[i] != '<' { PlainData(doc, startR, gap); }
    forall x | gap == "<![CDATA[" + x + "]]>" && (forall i :: 0 <= i < |x| ==> !Has(x, i, "]]>"))
      ensures DataAt(doc, startR, startR + 1 + |gap|) == x
    {
      NoClose(x);
      ReadCData(doc, startR, startR + 1 + |gap|, x);
    }
  }

  lemma PlainData(doc: string, startR: nat, gap: string)
    requires Has(doc, startR + 1, gap) && startR + 1 + |gap| < |doc| && forall i :: 0 <= i < |gap| ==> gap[i] != '<'
    ensures DataAt(doc, startR, startR + 1 + |gap|) == Unescape(gap)
  {
    hide Unescape, FindStr, TokenAt, Has;
    HasSlice(doc, startR + 1, gap);
    PlainToken(doc, startR, gap);
  }

  lemma PlainToken(doc: string, startR: nat, gap: string)
    requires Has(doc, startR + 1, gap) && startR + 1 + |gap| < |doc| && forall i :: 0 <= i < |gap| ==> gap[i] != '<'
    ensures var t := TokenAt(doc, startR + 1); t.nL < startR + 1 + |gap| ==> doc[t.nL] != '<'
  {
    hide TokenAt, Has;
    var t := TokenAt(doc, startR + 1);
    if t.nL < startR + 1 + |gap| { HasChar(doc, startR + 1, gap, t.nL - startR - 1); }
  }

  lemma NoClose(x: string)
    requires forall i :: 0 <= i < |x| ==> !Has(x, i, "]]>")
    ensures !Contains(x, CDATA_CLOSE)
  {
    hide FindStr;
  }

  lemma ContentInText(c: Content, s: nat)
    requires s in SlotsC(c) && ElemOf(c, s).Branch?
    ensures var e := ElemOf(c, s); var n := Offset(c, s) + |e.tag| + 2;
            && Has(Render(c), n, Render(e.inner)) && n + Len(e.inner) < |Render(c)|
            && Render(c)[n + Len(e.inner)] == '<'
  {
    hide Render, RenderE, Has, Offset, ElemOf, SlotsC, Len;
    ElemInText(c, s);
    SplitBranch(Render(c), Offset(c, s), ElemOf(c, s));
    LenRender(ElemOf(c, s).inner);
    HasChar(Render(c), Offset(c, s) + |ElemOf(c, s).tag| + 2 + Len(ElemOf(c, s).inner), "</", 0);
  }

  lemma EndText(g: string)
    ensures Render(End(g)) == g && Len(End(g)) == |g|
  {
  }

  /** Data that was set reads back. */
  lemma ReadBack(c: Content, s: nat, e: Elem, data: string, cdata: bool)
    requires s in SlotsC(c) && e.slot == s && ElemOf(c, s) == FilledWith(e, DataText(data, cdata))
    ensures DataOf(Render(c), c, s) == data
  {
    hide Render, Has, Offset, ElemOf, SlotsC, Escape, Contains, DataAt, TagName;
    var x := ElemOf(c, s);
    var g := DataText(data, cdata);
    ContentInText(c, s);
    EndText(g);
    var startR := Offset(c, s) + |x.tag| + 1;
    assert x.inner == End(g);
    if cdata && !Contains(data, CDATA_CLOSE) {
      ReadCData(Render(c), startR, startR + 1 + |g|, data);
    } else {
      ReadText(Render(c), startR, startR + 1 + |g|, data);
    }
  }

  /** Child `s` of `p` is cut out of `c` with the white space (and at most one quote) that x_FindToken skips. */
  ghost predicate CutOut(c: Content, doc: string, p: nat, s: nat, cut: nat, c': Content) {
    && Splittable(c, p, s, cut) && s != 0
    && InnerStart(c, p) + GapStart(InnerOf(c, p), s) <= |doc|
    && cut == TrimEnd(doc, InnerStart(c, p) + GapStart(InnerOf(c, p), s))
              - (InnerStart(c, p) + GapStart(InnerOf(c, p), s))
    && c' == WithInner(c, p, RemoveKid(InnerOf(c, p), s, cut))
  }

  lemma KidsIndexed(a: seq<ElemPos>, o: Outline, p: nat)
    requires Indexed(a, o, 0) && (p == 0 || p in Slots(o)) && |a| > 0 && a[0].child == Head(o)
    ensures p < |a| && Indexed(a, KidsOf(o, p), p) && a[p].child == Head(KidsOf(o, p))
  {
    if p != 0 { RecordOf(a, o, p, 0); }
  }

  lemma RootPlace(c: Content)
    requires c.End?
    ensures Splittable(c, 0, 0, 0) && InnerOf(c, 0) == c && InnerStart(c, 0) == 0 && GapStart(c, 0) == 0 &&
            GapAt(c, 0) == c.gap && Render(c) == c.gap
  {
  }

  lemma NoLast(c: Content)
    requires c.End?
    ensures LastTop(c, 0) == 0
  {
  }

  lemma FirstPlace(c: Content, p: nat)
    requires p in SlotsC(c) && ElemOf(c, p).Branch?
    ensures Splittable(c, p, 0, 0) && GapStart(InnerOf(c, p), 0) == 0
  {
  }

  /** The element x_AddElem creates. */
  function NewElem(slot: Slot, name: string, value: string): (x: Elem)
    ensures x.slot == slot
  {
    if value == "" then Leaf(slot, name) else Branch(slot, name, End(Escape(value, false)), name)
  }

  lemma NewElemWf(slot: Slot, name: string, value: string)
    requires NameOk(name)
    ensures WfE(NewElem(slot, name, value))
  {
    hide Escape, GapFrom, TagShape, FindAny;
    var t := Tag(name, [], "");
    NoAttrs();
    assert TagText(t) == name + "" + "" == name;
    assert WfTag(t);
    TagTextShape(t);
    assert name[..|name|] == name;
    EscapeClean(value, false);
    NoMarkGap(Escape(value, false));
    assert Wf(End(Escape(value, false)));
  }

  lemma NewKid(slot: Slot, name: string, value: string, at: int)
    ensures var nx := LayoutE(NewElem(slot, name, value), at, Nil);
            nx.At? && nx.next.Nil? && nx.slot == slot && nx.child.Nil? && Distinct(nx) && Slots(nx) == {slot}
  {
    LayoutKid(NewElem(slot, name, value), at);
  }

  // ----- what a new element is, without saying how it is made -----------------

  /** The text of an element with a name and data, and the line end behind it. */
  function ElemText(name: string, value: string): string {
    if value == "" then "<" + name + "/>\r\n" else "<" + name + ">" + Escape(value, false) + "</" + name + ">\r\n"
  }

  /** Element `i` has the name, the data and no children, and stands among the children of `p` where the call says;
      the text of the document has grown by its text, and an end tag for `p` if `p` was empty. */
  ghost predicate NewIn(c: Content, c': Content, p: nat, rel: nat, insert: bool, i: nat, name: string, value: string) {
    && i in SlotsC(c') && i !in SlotsC(c) && ElemOf(c', i).tag == name && DataOf(Render(c'), c', i) == value
    && KidsAt(c', i) == [] && JoinedAt(KidsAt(c, p), KidsAt(c', p), i, rel, insert)
    && TextAdded(c, Render(c), Render(c'), p, ElemText(name, value))
  }

  ghost predicate TextAdded(c: Content, doc: string, doc': string, p: nat, s: string) {
    if p != 0 && p in SlotsC(c) && ElemOf(c, p).Leaf? then
      var tag := ElemOf(c, p).tag;
      var at := Offset(c, p) + |tag| + 1;
      at < |doc| && doc[at] == '/' && doc' == doc[..at] + ">\r\n" + s + "</" + TagName(tag) + doc[at + 1..]
    else exists at :: 0 <= at <= |doc| && doc' == doc[..at] + s + doc[at..]
  }

  lemma NewElemText(slot: Slot, name: string, value: string)
    ensures RenderE(NewElem(slot, name, value)) + "\r\n" == ElemText(name, value)
  {
    hide Escape;
    if value == "" {
      assert "/>\r\n" == "/>" + "\r\n";
      assert ("<" + name + "/>") + "\r\n" == "<" + name + "/>\r\n";
    } else {
      var text := Escape(value, false);
      EndText(text);
      assert ">\r\n" == ">" + "\r\n";
      assert ("<" + name + ">") + text + ("</" + name + ">") + "\r\n" ==
        "<" + name + ">" + text + "</" + name + ">\r\n";
    }
  }

  lemma NewData(c: Content, i: nat, name: string, value: string)
    requires i in SlotsC(c) && i != 0 && ElemOf(c, i) == NewElem(i, name, value)
    ensures DataOf(Render(c), c, i) == value && KidsAt(c, i) == [] && ElemOf(c, i).tag == name
  {
    hide Render, Has, Offset, ElemOf, SlotsC, Escape, DataAt;
    if value != "" {
      var g := Escape(value, false);
      ContentInText(c, i);
      EndText(g);
      var startR := Offset(c, i) + |name| + 1;
      assert ElemOf(c, i).inner == End(g);
      ReadText(Render(c), startR, startR + 1 + |g|, value);
    }
  }

  /** What AddElem does, said without its own functions. */
  lemma NewInIs(
      c: Content, doc: string, p: nat, rel: nat, insert: bool, k: nat, i: nat, name: string, value: string, c': Content)
    requires i !in SlotsC(c) && i != 0 && (p == 0 || p in SlotsC(c))
    requires if p != 0 && ElemOf(c, p).Leaf? then rel == 0 else TopDistinct(InnerOf(c, p))
    requires Added(c, doc, p, rel, insert, k, NewElem(i, name, value), "\r\n", c')
    ensures NewIn(c, c', p, rel, insert, i, name, value)
  {
    hide Render, RenderE, Layout, SlotsC, ElemOf, NewElem, InsertKid, TopSlots, Replace, Opened, NewBefore, DataOf,
      KidsAt, TopDistinct, JoinedAt, TextAdded, ElemText, NewPlace;
    var x := NewElem(i, name, value);
    NewElemText(i, name, value);
    if p != 0 && ElemOf(c, p).Leaf? {
      NewInOpen(c, p, insert, x, "\r\n", c');
    } else {
      NewInKids(c, doc, p, rel, insert, k, x, "\r\n", c');
    }
    NewData(c', i, name, value);
  }

  lemma NewInOpen(c: Content, p: nat, insert: bool, x: Elem, tail: string, c': Content)
    requires p in SlotsC(c) && p != 0 && ElemOf(c, p).Leaf? && x.slot !in SlotsC(c)
    requires c' == Replace(c, p, Opened(ElemOf(c, p), x, tail))
    ensures x.slot in SlotsC(c') && ElemOf(c', x.slot) == x && JoinedAt(KidsAt(c, p), KidsAt(c', p), x.slot, 0, insert)
    ensures TextAdded(c, Render(c), Render(c'), p, RenderE(x) + tail)
  {
    hide Render, RenderE, SlotsC, ElemOf, Replace, Offset, TagName;
    var e, e' := ElemOf(c, p), Opened(ElemOf(c, p), x, tail);
    OneKid("\r\n", x, tail);
    ReplaceBelow(c, p, e', x.slot);
    ElemOfReplace(c, p, e');
    assert KidsAt(c, p) == [] && KidsAt(c', p) == [x.slot];
    assert [][..0] + [x.slot] + [][0..] == [x.slot] && PlaceFor([], 0, 0, insert);
    OpenDoc(c, p, x, tail);
    TagInText(c, p);
    var doc, at, r := Render(c), Offset(c, p) + |e.tag| + 1, RenderE(x) + tail;
    assert doc[..at] + (">\r\n" + r + "</" + TagName(e.tag)) + doc[at + 1..] ==
      doc[..at] + ">\r\n" + r + "</" + TagName(e.tag) + doc[at + 1..];
  }

  lemma OneKid(g: string, x: Elem, tail: string)
    ensures var c := Kid(g, x, End(tail)); x.slot in SlotsC(c) && ElemOf(c, x.slot) == x && KidSeq(c) == [x.slot]
  {
  }

  lemma NewInKids(c: Content, doc: string, p: nat, rel: nat, insert: bool, k: nat, x: Elem, tail: string,
      c': Content)
    requires (p == 0 || (p in SlotsC(c) && ElemOf(c, p).Branch?)) && TopDistinct(InnerOf(c, p)) && x.slot !in SlotsC(c)
    requires Added(c, doc, p, rel, insert, k, x, tail, c')
    ensures x.slot in SlotsC(c') && ElemOf(c', x.slot) == x
    ensures JoinedAt(KidsAt(c, p), KidsAt(c', p), x.slot, rel, insert)
    ensures TextAdded(c, Render(c), Render(c'), p, RenderE(x) + tail)
  {
    hide Render, RenderE, Layout, SlotsC, ElemOf, InsertKid, TopSlots, Replace, NewBefore, JoinedAt, KidSeq, GapAt,
      GapStart, Offset, TrimEnd, TopDistinct;
    var inner, b := InnerOf(c, p), NewBefore(c, p, rel, insert);
    assert b == NewBefore(inner, 0, rel, insert) by { SameBefore(c, p, rel, insert); }
    InsertOrder(inner, rel, insert, k, x, tail);
    var inner' := InsertKid(inner, b, k, x, tail);
    InnerSlots(c, p);
    InsertElemOf(inner, b, k, x, tail);
    if p != 0 {
      var e := ElemOf(c, p).(inner := inner');
      ReplaceBelow(c, p, e, x.slot);
      ElemOfReplace(c, p, e);
    }
    InsertDoc(c, p, b, k, x, tail);
  }

  /** Element `x` of a subdocument, with everything below it, stands among the children of `p` where the call says. */
  ghost predicate GraftIn(c: Content, c': Content, p: nat, rel: nat, insert: bool, x: Elem, tail: string) {
    && x.slot in SlotsC(c') && x.slot !in SlotsC(c) && ElemOf(c', x.slot) == x
    && JoinedAt(KidsAt(c, p), KidsAt(c', p), x.slot, rel, insert)
    && TextAdded(c, Render(c), Render(c'), p, RenderE(x) + tail)
  }

  lemma NumberSlot(x: Elem, slot: Slot)
    ensures NumberE(x, slot).slot == slot
  {
  }

  lemma GraftInIs(
      c: Content, doc: string, p: nat, rel: nat, insert: bool, k: nat, x: Elem, tail: string, c': Content)
    requires x.slot !in SlotsC(c) && x.slot != 0 && p != 0 && p in SlotsC(c)
    requires if ElemOf(c, p).Leaf? then rel == 0 else TopDistinct(InnerOf(c, p))
    requires Added(c, doc, p, rel, insert, k, x, tail, c')
    ensures GraftIn(c, c', p, rel, insert, x, tail)
  {
    hide Render, RenderE, Layout, SlotsC, ElemOf, InsertKid, TopSlots, Replace, Opened, NewBefore, KidsAt, TopDistinct,
      JoinedAt, TextAdded, NewPlace;
    if ElemOf(c, p).Leaf? {
      NewInOpen(c, p, insert, x, tail, c');
    } else {
      NewInKids(c, doc, p, rel, insert, k, x, tail, c');
    }
  }

  /** An element that has a child is no empty-element tag, and its children are in different slots. */
  lemma KidsApart(a: seq<ElemPos>, free: nat, c: Content, p: nat, rel: nat)
    requires IndexOk(a, free, c) && (p == 0 || p in SlotsC(c))
    requires rel == 0 || (rel in SlotsC(c) && rel < |a| && a[rel].parent == p)
    ensures if p != 0 && ElemOf(c, p).Leaf? then rel == 0 else TopDistinct(InnerOf(c, p))
  {
    hide Layout, SlotsC, ElemOf, Distinct, Slots, Indexed, TopDistinct, TopSlots;
    IndexParts(a, free, c);
    if rel != 0 {
      ParentContent(c, rel);
      RecordOf(a, Layout(c, 0), rel, 0);
    }
    if p == 0 || ElemOf(c, p).Branch? { InnerDistinct(a, free, c, p); }
  }

  /** The children of `p` after one of them was removed. */
  lemma RemovedOrder(c: Content, p: nat, s: nat, cut: nat)
    requires s in SlotsC(c) && s != 0 && Distinct(Layout(c, 0)) && s in Slots(Layout(c, 0))
    requires p == ParentOf(Layout(c, 0), s, 0) && Splittable(c, p, s, cut) && TopDistinct(InnerOf(c, p))
    ensures LeftOut(KidsAt(c, p), KidsAt(WithInner(c, p, RemoveKid(InnerOf(c, p), s, cut)), p), s,
                PrevOf(Layout(c, 0), s, 0))
  {
    hide Layout, SlotsC, ElemOf, RemoveKid, TopSlots, Replace, LeftOut, KidSeq, GapAt, Distinct, PrevTop, TopDistinct,
      PrevOf, ParentOf, ChainPrev, InChain, Offset;
    ParentContent(c, s);
    var inner := InnerOf(c, p);
    PrevTopChain(inner, s, 0, InnerStart(c, p));
    RemoveOrder(inner, s, cut);
    if p != 0 { ElemOfReplace(c, p, ElemOf(c, p).(inner := RemoveKid(inner, s, cut))); }
  }

  /** The element from `startL` on and what x_FindToken skips behind it is cut out. */
  ghost predicate ElemCut(doc: string, doc': string, rec: ElemPos, cut: nat) {
    var n := rec.endR + 1;
    0 <= rec.startL <= n && Trimmed(doc, n, n + cut) && doc' == doc[..rec.startL] + doc[n + cut..]
  }

  lemma CutMeans(doc: string, rec: ElemPos, m: nat)
    requires 0 <= rec.startL <= rec.endR + 1 <= |doc| && m == TrimEnd(doc, rec.endR + 1)
    ensures ElemCut(doc, Splice(doc, rec.startL, m - rec.startL, ""), rec, m - (rec.endR + 1))
  {
    hide TrimEnd, Trimmed;
    TrimMeans(doc, rec.endR + 1);
    assert doc[..rec.startL] + "" + doc[m..] == doc[..rec.startL] + doc[m..];
  }

  lemma SameBefore(c: Content, p: nat, rel: nat, insert: bool)
    requires p == 0 || (p in SlotsC(c) && ElemOf(c, p).Branch?)
    requires rel == 0 || rel in TopSlots(InnerOf(c, p))
    ensures NewBefore(c, p, rel, insert) == NewBefore(InnerOf(c, p), 0, rel, insert)
  {
  }

  /** `c'` is `c` with the new element `x` and then `tail` below `p`, placed by x_LocateNew relative to `rel`. */
  ghost predicate Added(c: Content, doc: string, p: nat, rel: nat, insert: bool, k: nat, x: Elem, tail: string,
      c': Content) {
    if p != 0 && p in SlotsC(c) && ElemOf(c, p).Leaf? then c' == Replace(c, p, Opened(ElemOf(c, p), x, tail))
    else
      && (p == 0 || (p in SlotsC(c) && ElemOf(c, p).Branch?)) && (rel == 0 || rel in TopSlots(InnerOf(c, p)))
      && var b := NewBefore(c, p, rel, insert);
         NewPlace(c, doc, p, rel, insert, b, k) && c' == WithInner(c, p, InsertKid(InnerOf(c, p), b, k, x, tail))
  }

  lemma AddedAt(c: Content, doc: string, p: nat, rel: nat, insert: bool, b: nat, k: nat, x: Elem, tail: string)
    requires p in SlotsC(c) && ElemOf(c, p).Branch? && NewPlace(c, doc, p, rel, insert, b, k)
    ensures Added(c, doc, p, rel, insert, k, x, tail, WithInner(c, p, InsertKid(InnerOf(c, p), b, k, x, tail)))
  {
    hide SlotsC, ElemOf, TopSlots, TrimEnd, GapStart, GapAt, NewBefore, GapFrom, InnerStart, InnerOf, WithInner,
      InsertKid;
  }

  lemma AddedOpen(c: Content, doc: string, p: nat, rel: nat, insert: bool, k: nat, x: Elem, tail: string)
    requires p in SlotsC(c) && ElemOf(c, p).Leaf? && p != 0
    ensures Added(c, doc, p, rel, insert, k, x, tail, Replace(c, p, Opened(ElemOf(c, p), x, tail)))
  {
    hide SlotsC, ElemOf, Replace, Opened;
  }

  lemma NilIndexed(a: seq<ElemPos>, p: nat)
    ensures Indexed(a, Nil, p)
  {
  }

  lemma OpenOk(c: Content, p: nat, x: Elem, tail: string)
    requires Wf(c) && (c.Kid? ==> c.next.End?) && p in SlotsC(c) && ElemOf(c, p).Leaf? && WfE(x) && GapOk(tail)
    ensures var e := ElemOf(c, p); var at := Offset(c, p) + |e.tag| + 1;
            var ins := ">\r\n" + (RenderE(x) + tail) + "</" + TagName(e.tag);
            var d := Replace(c, p, Opened(e, x, tail));
            && at + 1 <= |Render(c)| && Render(d) == Splice(Render(c), at, 1, ins)
            && |ins| - 1 == LenE(Opened(e, x, tail)) - LenE(e)
            && Wf(d) && (d.Kid? ==> d.next.End?)
  {
    hide Wf, WfE, Render, RenderE, Replace, Opened, TagName, Offset, ElemOf, SlotsC, Splice, LenE, GapFrom;
    OpenDoc(c, p, x, tail);
    WfElemOf(c, p);
    OpenedWf(ElemOf(c, p), x, tail);
    WfReplace(c, p, Opened(ElemOf(c, p), x, tail));
    ReplaceRoot(c, p, Opened(ElemOf(c, p), x, tail));
  }

  lemma IndexSize(a: seq<ElemPos>, free: nat, c: Content)
    requires IndexOk(a, free, c)
    ensures |a| >= 8 && forall s :: s in SlotsC(c) ==> s < |a|
  {
  }

  lemma RecordInText(a: seq<ElemPos>, free: nat, c: Content, s: nat)
    requires IndexOk(a, free, c) && s in SlotsC(c)
    ensures s < |a| && 0 <= a[s].startL <= a[s].endR < |Render(c)|
  {
    hide Render, RenderE, Layout, LayoutE, SlotsC, ElemOf, Offset, IndexOk;
    RecordAt(a, free, c, s);
    ElemInText(c, s);
    LenRenderE(ElemOf(c, s));
  }

  lemma RootLink(a: seq<ElemPos>, free: nat, c: Content)
    requires IndexOk(a, free, c)
    ensures |a| > 0 && (a[0].child == 0 <==> c.End?) && (c.End? ==> SlotsC(c) == {})
  {
  }

  lemma EndLIndex(a: seq<ElemPos>, free: nat, c: Content, n: int)
    requires IndexOk(a, free, c)
    ensures |a| > 0 && IndexOk(a[0 := a[0].(endL := n)], free, c)
  {
    hide Layout, Linked, Placed, Distinct;
    var b := a[0 := a[0].(endL := n)];
    NoZero(Layout(c, 0));
    IndexedFrame(a, b, Layout(c, 0), 0);
  }

  lemma LeafIndexed(a: seq<ElemPos>, slot: Slot, p: nat)
    requires slot < |a| && a[slot].parent == p && a[slot].child == 0 && a[slot].next == 0
    ensures Indexed(a, At(slot, a[slot].startL, a[slot].startR, a[slot].endL, a[slot].endR, Nil, Nil), p)
  {
  }

  lemma BranchIndexed(a: seq<ElemPos>, b: seq<ElemPos>, slot: Slot, p: nat, kids: Outline)
    requires slot < |a| == |b| && a[slot].parent == p && a[slot].next == 0 && a[slot].child == Head(kids)
    requires Indexed(a, kids, slot) && slot !in Slots(kids) && b == a[slot := b[slot].(endR := b[slot].endR)]
    requires b[slot] == a[slot].(endR := b[slot].endR)
    ensures Indexed(b, At(slot, b[slot].startL, b[slot].startR, b[slot].endL, b[slot].endR, kids, Nil), p)
  {
    IndexedFrame(a, b, kids, slot);
  }

  lemma EmptyParse()
    ensures MarkupParse.ParseElem("", 0, 1) == Bad
  {
  }

  lemma ParseWhole(text: string)
    ensures var r := MarkupParse.ParseElem(text, 0, 1);
            r.Elem? ==> r.node.At? && r.node.slot == 1 && Sound(text, r.node, 1, r.free, 0, |text|)
  {
    hide MarkupParse.ParseElem, Nested, Marked, Count;
    ParseElemSound(text, 0, 1);
    var r := MarkupParse.ParseElem(text, 0, 1);
    if r.Elem? { NestedWider(r.node, 0, r.node.endR + 1, |text|); }
  }

  lemma RootChild(a: seq<ElemPos>, b: seq<ElemPos>, nd: Outline)
    requires |a| == |b| > 0 && Indexed(a, nd, 0) && b == a[0 := a[0].(child := b[0].child)]
    ensures Indexed(b, nd, 0)
  {
    NoZero(nd);
    IndexedFrame(a, b, nd, 0);
  }

  lemma SetDocIndex(a: seq<ElemPos>, free: nat, c: Content)
    requires OneRoot(c) && |a| >= 8 && a[0].startL == 0 && a[0].startR == 0 && free <= |a|
    requires match MarkupParse.ParseElem(Render(c), 0, 1)
             case Elem(nd, f) => a[0].child == 1 && Indexed(a, nd, 0) && free == f
             case _ => a[0] == CLEAR && free == 1
    ensures IndexOk(a, free, NumberC(c, 1))
  {
    hide MarkupParse.ParseElem, Layout, Linked, Placed, IndexOk, Wf, Render;
    FreshParse(c, 1);
    if c.End? {
      EmptyIndex(a, NumberC(c, 1));
    } else {
      RootHead(c);
      FreshIndex(a, c);
    }
  }

  lemma RootHead(c: Content)
    requires c.Kid?
    ensures Head(Renumber(Layout(c, 0), 1)) == 1
  {
  }

  lemma LeafText(c: Content, doc: string, p: nat, rel: nat, insert: bool, ins: string)
    requires p in SlotsC(c) && ElemOf(c, p).Leaf? && doc == Render(c)
    ensures var e, at := ElemOf(c, p), Offset(c, p) + |ElemOf(c, p).tag| + 1;
            at < |doc| && SubText(c, doc, p, rel, insert, ins) ==
                (Splice(doc, at, 1, OpenWith(ins, TagName(e.tag))), at + 3)
  {
    hide Render, ElemOf, SlotsC, Offset, TagName;
    TagInText(c, p);
  }

  lemma SlashAt(c: Content, p: nat)
    requires p in SlotsC(c) && ElemOf(c, p).Leaf?
    ensures var at := Offset(c, p) + |ElemOf(c, p).tag| + 1; at < |Render(c)| && Render(c)[at..at + 1] == "/"
  {
    hide Render, ElemOf, SlotsC, Offset;
    TagInText(c, p);
  }

  lemma PlaceBound(c: Content, p: nat, b: nat, k: nat, offset: nat)
    requires Place(c, p, b, k, offset)
    ensures offset <= |Render(c)|
  {
    hide Render, ElemOf, SlotsC, Offset, InnerOf, InnerStart, GapAt, GapStart, TopSlots, GapFrom;
    InsertDoc(c, p, b, k, Leaf(1, ""), "");
  }

  /** Restoring the end of the parent does not bear on what was parsed below it. */
  lemma EndLKept(a: seq<ElemPos>, b: seq<ElemPos>, nd: Outline, p: nat, free: nat)
    requires Indexed(a, nd, p) && Numbered(nd, free) && p < free && p < |a| == |b| && b == a[p := b[p]]
    ensures Indexed(b, nd, p)
  {
    NumberedSlots(nd, free);
    IndexedFrame(a, b, nd, p);
  }

  /** A subdocument that is one element and what follows it. */
  ghost predicate Rooted(sub: string, x: Elem, tail: string) { WfE(x) && GapOk(tail) && sub == RenderE(x) + tail }

  lemma OpenRoot(d: string, at: nat, sub: string, x: Elem, tail: string, name: string, slot: Slot)
    requires at < |d| && WfE(x) && sub == RenderE(x) + tail
    ensures var s := Splice(d, at, 1, ">\r\n" + sub + "</" + name);
            && at + 3 <= |s| && MarkupParse.ParseElem(s, at + 3, slot) ==
                 MarkupParse.Elem(LayoutE(NumberE(x, slot), at + 3, Nil), slot + CountE(x))
            && WfE(NumberE(x, slot)) && RenderE(NumberE(x, slot)) == RenderE(x)
  {
    hide Splice, RenderE, WfE, LayoutE, NumberE, CountE, MarkupParse.ParseElem;
    SubInOpen(d, at, RenderE(x), tail, name);
    RootParsed(Splice(d, at, 1, ">\r\n" + sub + "</" + name), at + 3, x, slot);
  }

  lemma PlainRoot(d: string, at: nat, ins: string, x: Elem, tail: string, slot: Slot)
    requires at <= |d| && WfE(x) && ins == RenderE(x) + tail
    ensures var s := Splice(d, at, 0, ins);
            && at <= |s| && MarkupParse.ParseElem(s, at, slot) ==
                 MarkupParse.Elem(LayoutE(NumberE(x, slot), at, Nil), slot + CountE(x))
            && WfE(NumberE(x, slot)) && RenderE(NumberE(x, slot)) == RenderE(x)
            && LenE(NumberE(x, slot)) == LenE(x) == |RenderE(x)|
  {
    hide Splice, RenderE, WfE, LayoutE, NumberE, CountE, MarkupParse.ParseElem, LenE;
    assert "" + RenderE(x) + tail == ins;
    SpliceHas(d, at, 0, "", RenderE(x), tail);
    RootParsed(Splice(d, at, 0, ins), at, x, slot);
    LenRenderE(x);
  }

  lemma SubInOpen(d: string, at: nat, r: string, tail: string, name: string)
    requires at < |d|
    ensures Has(Splice(d, at, 1, ">\r\n" + (r + tail) + "</" + name), at + 3, r)
  {
    hide Splice;
    assert ">\r\n" + r + (tail + "</" + name) == ">\r\n" + (r + tail) + "</" + name;
    SpliceHas(d, at, 1, ">\r\n", r, tail + "</" + name);
  }

  /** When InsertElem can add the root: there is text before which no markup starts. */
  predicate RootInsertable(doc: string) { doc != "" && doc[0] != '<' }

  /** On any other nonempty document without a root, InsertElem records an element at 1, but what a parse of its text
      finds at first starts at 0. */
  lemma RootInsertFails(g: string, slot: Slot, name: string, value: string)
    requires GapOk(g) && g != "" && g[0] == '<'
    ensures TrimEnd(g, 1) == 1
    ensures var r := MarkupParse.ParseElem(Splice(g, 1, 0, RenderE(NewElem(slot, name, value)) + "\r\n"), 0, 1);
            r == Bad || r == Diverges || (r.Elem? && r.node.startL == 0)
  {
    hide FindStr, DocTypeEnd, Escape, Match, EndTagAt, ParseKids, TokenAt;
    assert FindAny(g, 0, Only('<')) == 0;
    assert Passed(NodeAt(g, 0).0);
    SpecialToken(g, 1);
    var x := RenderE(NewElem(slot, name, value)) + "\r\n";
    assert x[0] == '<';
    var d := Splice(g, 1, 0, x);
    assert d[0] == '<' && d[1] == '<';
    assert FindAny(d, 0, Only('<')) == 0;
    SpecialToken(d, 1);
    assert !StartAt(d, 0).EndMark?;
  }

  lemma RootInsertWorks(g: string, slot: Slot, name: string, value: string)
    requires GapOk(g) && NameOk(name) && RootInsertable(g)
    ensures var at := TrimEnd(g, 1);
            var r := MarkupParse.ParseElem(Splice(g, at, 0, RenderE(NewElem(slot, name, value)) + "\r\n"), 0, 1);
            r.Elem? && r.node.startL == at
  {
    hide RenderE, TrimEnd, GapFrom, Splice, NewElem, WfE, LayoutE, MarkupParse.ParseElem;
    var at, x := TrimEnd(g, 1), NewElem(slot, name, value);
    var c, d := End(g), Kid(g[..at], x, End("\r\n" + g[at..]));
    NewElemWf(slot, name, value);
    NoMarkGap("\r\n");
    RootInsertPlace(c);
    InsertTextOk(c, 0, 0, at, x, "\r\n");
    assert WithInner(c, 0, InsertKid(c, 0, at, x, "\r\n")) == d;
    FreshParse(d, 1);
    RootStart(d);
  }

  lemma RootStart(c: Content)
    requires c.Kid?
    ensures Layout(c, 0).At? && Layout(c, 0).startL == |c.gap|
  {
  }

  /** InsertElem records the new root where a parse of the new text finds one exactly on a document that has text, and
      no markup at its start. */
  lemma RootInsertIff(g: string, slot: Slot, name: string, value: string)
    requires GapOk(g) && NameOk(name)
    ensures var x := RenderE(NewElem(slot, name, value)) + "\r\n";
            RootInsertable(g) <==>
              && 1 <= |g|
              && (var at := TrimEnd(g, 1);
                  var r := MarkupParse.ParseElem(Splice(g, at, 0, x), 0, 1);
                  r.Elem? && r.node.startL == at)
  {
    hide GapFrom, TrimEnd, RenderE, NewElem, MarkupParse.ParseElem;
    if RootInsertable(g) {
      RootInsertWorks(g, slot, name, value);
    } else if g != "" {
      RootInsertFails(g, slot, name, value);
    }
  }

  /** The calls of a run: edits and cursor moves. */
  datatype Op =
    | AddOp(name: string, value: string, insert: bool, addChild: bool)
    | SetAttribOp(name: string, value: string)
    | SetChildAttribOp(name: string, value: string)
    | RemoveAttribOp(name: string)
    | RemoveChildAttribOp(name: string)
    | SetDataOp(data: string, cdata: bool)
    | SetChildDataOp(data: string, cdata: bool)
    | RemoveOp
    | RemoveChildOp
    | SubDocOp(sub: string, insert: bool, root: Elem, tail: string)
    | FindOp(path: string)
    | FindChildOp(path: string)
    | IntoOp
    | OutOp
    | ResetOp

  /** Names are free of token separators and quotes; subdocuments have one root, which the loop over what stands before
      it finds. */
  ghost predicate OpOk(op: Op) {
    match op
    case AddOp(name, _, _, _) => NameOk(name)
    case SetAttribOp(name, _) => NameOk(name)
    case SetChildAttribOp(name, _) => NameOk(name)
    case SubDocOp(sub, _, root, tail) => Stops(sub) && Rooted(sub[Skipped(sub)..], root, tail)
    case _ => true
  }

  // ----- what a call does, in terms of what is seen before and behind it -------

  /** A document as its caller sees it: text, tree, records and the three positions. */
  datatype View = View(doc: string, tree: Content, aPos: seq<ElemPos>, parent: nat, pos: nat, child: nat)

  ghost predicate SameDoc(v: View, w: View) { w.doc == v.doc && w.tree == v.tree }

  ghost predicate Cursor(w: View, parent: nat, pos: nat, child: nat) {
    w.parent == parent && w.pos == pos && w.child == child
  }

  ghost predicate SameCursor(v: View, w: View) { Cursor(w, v.parent, v.pos, v.child) }

  ghost predicate AddDone(v: View, w: View, ok: bool, name: string, value: string, insert: bool, addChild: bool) {
    && ok == (if addChild then v.pos != 0
              else v.parent != 0 || (v.tree.End? && (insert ==> RootInsertable(v.doc))))
    && (!ok ==> SameDoc(v, w) && SameCursor(v, w))
    && (ok ==> exists i ::
          if addChild then
            NewIn(v.tree, w.tree, v.pos, v.child, insert, i, name, value) && Cursor(w, v.parent, v.pos, i)
          else NewIn(v.tree, w.tree, v.parent, v.pos, insert, i, name, value) && Cursor(w, v.parent, i, 0))
  }

  ghost predicate AttribDone(v: View, w: View, ok: bool, s: nat, name: string, value: string) {
    && SameCursor(v, w) && ok == (s != 0 && v.pos != 0) && (!ok ==> SameDoc(v, w))
    && (ok ==>
         && s in SlotsC(v.tree) && s in SlotsC(w.tree)
         && AttribWritten(v.doc, w.doc, Offset(v.tree, s) + 1, |ElemOf(v.tree, s).tag|, name, value)
         && AttribOf(w.doc, Offset(w.tree, s) + 1, name) == value
         && KeepsOthers(v.doc, w.doc, Offset(w.tree, s) + 1, name))
  }

  ghost predicate UnattribDone(v: View, w: View, ok: bool, s: nat, name: string) {
    && SameCursor(v, w) && (s != 0 ==> s in SlotsC(v.tree))
    && ok == (s != 0 && v.pos != 0 && HasAttrib(v.doc, Offset(v.tree, s) + 1, name)) && (!ok ==> SameDoc(v, w))
    && (ok ==>
         && AttribGone(v.doc, w.doc, Offset(v.tree, s) + 1, name)
         && KeepsRest(v.doc, w.doc, Offset(v.tree, s) + 1, name))
  }

  ghost predicate DataDone(v: View, w: View, ok: bool, s: nat, data: string, cdata: bool) {
    && SameCursor(v, w) && (s != 0 ==> s in SlotsC(v.tree))
    && ok == (s != 0 && !HasKids(ElemOf(v.tree, s))) && (!ok ==> SameDoc(v, w))
    && (ok ==>
         && DataWritten(v.tree, v.doc, w.doc, s, data, cdata)
         && s in SlotsC(w.tree) && DataOf(w.doc, w.tree, s) == data)
  }

  ghost predicate RemoveDone(v: View, w: View, ok: bool, p: nat, s: nat, prev: nat) {
    && ok == (s != 0) && (!ok ==> SameDoc(v, w) && SameCursor(v, w))
    && (ok ==>
         && s < |v.aPos| && LeftOut(KidsAt(v.tree, p), KidsAt(w.tree, p), s, prev)
         && exists cut :: ElemCut(v.doc, w.doc, v.aPos[s], cut))
  }

  ghost predicate SubDocDone(v: View, w: View, ok: bool, insert: bool, root: Elem, tail: string) {
    && ok == (v.pos != 0) && (!ok ==> SameDoc(v, w) && SameCursor(v, w))
    && (ok ==> exists k, free: Slot ::
          && Added(v.tree, v.doc, v.pos, v.child, insert, k, NumberE(root, free), tail, w.tree)
          && GraftIn(v.tree, w.tree, v.pos, v.child, insert, NumberE(root, free), tail)
          && Cursor(w, v.parent, v.pos, free))
  }

  ghost predicate FindDone(v: View, w: View, ok: bool, path: string) {
    var o := Layout(v.tree, 0);
    && SameDoc(v, w) && (v.parent == 0 || v.parent in Slots(o)) && (v.pos == 0 || v.pos in Slots(o))
    && var i := MarkupFind.Lookup(v.tree, o, v.parent, v.pos, path);
       && ok == (i != 0)
       && if ok then i < |v.aPos| && Cursor(w, v.aPos[i].parent, i, 0) else SameCursor(v, w)
  }

  ghost predicate FindChildDone(v: View, w: View, ok: bool, path: string) {
    var o := Layout(v.tree, 0);
    && SameDoc(v, w) && v.parent < |v.aPos|
    && var main := if v.pos != 0 then v.pos else v.aPos[v.parent].child;
       var after := if v.pos == 0 && v.aPos[v.parent].child != 0 then 0 else v.child;
       && (main == 0 || main in Slots(o)) && (after == 0 || after in Slots(o))
       && var i := MarkupFind.Lookup(v.tree, o, main, after, path);
          && ok == (i != 0)
          && if ok then i < |v.aPos| && w.child == i && w.pos == v.aPos[i].parent else w.pos == main && w.child == after
  }

  /** The effect of a call. */
  ghost predicate Effect(op: Op, ok: bool, v: View, w: View) {
    match op
    case AddOp(name, value, insert, addChild) => AddDone(v, w, ok, name, value, insert, addChild)
    case SetAttribOp(name, value) => AttribDone(v, w, ok, v.pos, name, value)
    case SetChildAttribOp(name, value) => AttribDone(v, w, ok, v.child, name, value)
    case RemoveAttribOp(name) => UnattribDone(v, w, ok, v.pos, name)
    case RemoveChildAttribOp(name) => UnattribDone(v, w, ok, v.child, name)
    case SetDataOp(data, cdata) => DataDone(v, w, ok, v.pos, data, cdata)
    case SetChildDataOp(data, cdata) => DataDone(v, w, ok, v.child, data, cdata)
    case RemoveOp => RemoveDone(v, w, ok, v.parent, v.pos, w.pos) && (ok ==> w.parent == v.parent && w.child == 0)
    case RemoveChildOp =>
      RemoveDone(v, w, ok, v.pos, v.child, w.child) && (ok ==> w.parent == v.parent && w.pos == v.pos)
    case SubDocOp(_, insert, root, tail) => SubDocDone(v, w, ok, insert, root, tail)
    case FindOp(path) => FindDone(v, w, ok, path)
    case FindChildOp(path) => FindChildDone(v, w, ok, path)
    case IntoOp =>
      SameDoc(v, w) && ok == (v.pos != 0) && if ok then Cursor(w, v.pos, v.child, 0) else SameCursor(v, w)
    case OutOp =>
      && SameDoc(v, w) && ok == (v.parent != 0)
      && if ok then v.parent < |v.aPos| && Cursor(w, v.aPos[v.parent].parent, v.parent, v.pos) else SameCursor(v, w)
    case ResetOp => SameDoc(v, w) && Cursor(w, 0, 0, 0)
  }

  lemma NilLayout(c: Content)
    ensures Layout(c, 0).Nil? <==> c.End?
  {
  }

  /** The element whose start tag begins before `n` has an attribute `name`. */
  predicate HasAttrib(doc: string, n: nat, name: string) {
    name != "" && n <= |doc| && AttribScan(doc, n, 0, 0, name).found
  }

  /** Every attribute but the first that matches `name` reads as before. */
  ghost predicate KeepsRest(doc: string, doc': string, n: nat, name: string) {
    forall other :: other != "" && Elsewhere(doc, n, name, other) ==>
        AttribOf(doc', n, other) == AttribOf(doc, n, other)
  }

  /** Reading `other` in the tag at `n` does not find the value that `name` finds. */
  predicate Elsewhere(doc: string, n: nat, name: string, other: string) {
    n <= |doc| &&
    var x := AttribScan(doc, n, 0, 0, other);
    x.found ==> x.nL != AttribScan(doc, n, 0, 0, name).nL
  }

  lemma AttribThere(doc: string, n: nat, t: Tag, name: string)
    requires WfTag(t) && Has(doc, n, TagText(t)) && n + |TagText(t)| < |doc|
    requires doc[n + |TagText(t)|] == '>' || doc[n + |TagText(t)|] == '/'
    ensures HasAttrib(doc, n, name) <==> FirstMatch(t.attrs, name) < |t.attrs|
  {
    hide AttribScan, TagText, WfTag, FirstMatch, Has;
    EmptyName(t);
    if name != "" { ScanTag(doc, n, t, name); }
  }

  lemma RestKept(doc: string, doc': string, n: nat, t: Tag, name: string)
    requires WfTag(t) && Has(doc, n, TagText(t)) && n + |TagText(t)| < |doc|
    requires (doc[n + |TagText(t)|] == '>' || doc[n + |TagText(t)|] == '/') && FirstMatch(t.attrs, name) < |t.attrs|
    requires var u := TagText(Without(t, FirstMatch(t.attrs, name)));
             Has(doc', n, u) && n + |u| < |doc'| && (doc'[n + |u|] == '>' || doc'[n + |u|] == '/')
    ensures KeepsRest(doc, doc', n, name)
  {
    hide AttribScan, TagText, WfTag, Has, AttribOf, FirstMatch, Without, GetRaw, Unescape;
    var k := FirstMatch(t.attrs, name);
    EmptyName(t);
    WithoutWf(t, k);
    ScanTag(doc, n, t, name);
    forall other | other != "" && Elsewhere(doc, n, name, other)
      ensures AttribOf(doc', n, other) == AttribOf(doc, n, other) {
      ScanTag(doc, n, t, other);
      GetWithout(t, k, other);
      AttribOfTag(doc, n, t, other);
      AttribOfTag(doc', n, Without(t, k), other);
    }
  }

  lemma Untagged(e: Elem, t: Tag, k: nat)
    requires WfE(e) && WfTag(t) && TagText(t) == e.tag && k < |t.attrs| && WfTag(Without(t, k)) &&
             Without(t, k).name == t.name
    ensures WfE(e.(tag := TagText(Without(t, k))))
  {
    hide TagText, WfTag, Wf, Without, TagShape, CloseOk;
    TagTextShape(t);
    TagTextShape(Without(t, k));
  }

  /** Exactly the first attribute that matches `name` is cut out, with one blank; one fewer matches afterwards, so that
      none is found if there was one. */
  ghost predicate AttribGone(doc: string, doc': string, n: nat, name: string) {
    && n <= |doc| && n <= |doc'|
    && (exists at :: AttribCut(doc, doc', n, name, at))
    && AttribCount(doc', n, 0, name) == AttribCount(doc, n, 0, name) - 1
    && (HasAttrib(doc', n, name) <==> AttribCount(doc, n, 0, name) > 1)
  }

  lemma GoneIs(doc: string, doc': string, n: nat, t: Tag, name: string)
    requires WfTag(t) && Has(doc, n, TagText(t)) && n + |TagText(t)| < |doc|
    requires (doc[n + |TagText(t)|] == '>' || doc[n + |TagText(t)|] == '/') && FirstMatch(t.attrs, name) < |t.attrs|
    requires var u := TagText(Without(t, FirstMatch(t.attrs, name)));
             Has(doc', n, u) && n + |u| < |doc'| && (doc'[n + |u|] == '>' || doc'[n + |u|] == '/')
    requires var k := FirstMatch(t.attrs, name); var a := t.attrs[k];
             var at, len := n + StartOf(t, k) + |a.pre| - 1, |AttrText(a)| - |a.pre| + 1;
             0 <= at && 0 <= len && at + len <= |doc| && doc' == Splice(doc, at, len, "")
    ensures AttribGone(doc, doc', n, name)
  {
    hide AttribScan, TagText, WfTag, Has, FirstMatch, Without, StartOf, AttribCut, CountMatches, Match, AttrText;
    var k := FirstMatch(t.attrs, name);
    EmptyName(t);
    WithoutWf(t, k);
    CutIs(doc, n, t, name);
    CountTag(doc, n, t, name);
    CountTag(doc', n, Without(t, k), name);
    CountWithout(t, k, name);
    ScanForward(doc', n, 0, 0, name);
  }

  lemma CutAway(doc: string, doc': string, n: nat, t: Tag, name: string)
    requires WfTag(t) && Has(doc, n, TagText(t)) && n + |TagText(t)| < |doc|
    requires (doc[n + |TagText(t)|] == '>' || doc[n + |TagText(t)|] == '/') && FirstMatch(t.attrs, name) < |t.attrs|
    requires var u := TagText(Without(t, FirstMatch(t.attrs, name)));
             Has(doc', n, u) && n + |u| < |doc'| && (doc'[n + |u|] == '>' || doc'[n + |u|] == '/')
    requires var k := FirstMatch(t.attrs, name); var a := t.attrs[k];
             var at, len := n + StartOf(t, k) + |a.pre| - 1, |AttrText(a)| - |a.pre| + 1;
             0 <= at && 0 <= len && at + len <= |doc| && doc' == Splice(doc, at, len, "")
    ensures AttribGone(doc, doc', n, name) && KeepsRest(doc, doc', n, name)
    ensures TagName(TagText(Without(t, FirstMatch(t.attrs, name)))) == TagName(TagText(t))
  {
    hide AttribGone, KeepsRest, TagText, WfTag, Has, Without, FirstMatch, StartOf, AttrText, TagName, Match, Splice;
    GoneIs(doc, doc', n, t, name);
    UntaggedName(t, FirstMatch(t.attrs, name));
    RestKept(doc, doc', n, t, name);
  }

  lemma TagOf(e: Elem) returns (t: Tag)
    requires WfE(e)
    ensures WfTag(t) && TagText(t) == e.tag
  {
    hide WfTag, TagText;
    t :| WfTag(t) && TagText(t) == e.tag;
  }

  lemma UntaggedName(t: Tag, k: nat)
    requires WfTag(t) && k < |t.attrs|
    ensures TagName(TagText(Without(t, k))) == TagName(TagText(t))
  {
    hide TagText, Without;
    WithoutWf(t, k);
    TagTextShape(t);
    TagTextShape(Without(t, k));
  }

  lemma SetAttrName(t: Tag, name: string, value: string)
    requires WfTag(t) && Settable(t, name)
    ensures TagName(TagText(SetAttr(t, name, Escape(value, true)))) == TagName(TagText(t))
  {
    hide TagText, SetAttr, Escape;
    EscapeClean(value, true);
    SetAttrWf(t, name, Escape(value, true));
    TagTextShape(t);
    TagTextShape(SetAttr(t, name, Escape(value, true)));
  }

  /** Of the text only the value of the attribute changes; if there was no such attribute, it is put in at the end of
      the start tag, which has `len` characters from `n` on. */
  predicate AttribWritten(doc: string, doc': string, n: nat, len: nat, name: string, value: string) {
    && n + len <= |doc|
    && var r := AttribScan(doc, n, 0, 0, name);
       if r.found then r.nL <= r.nR + 1 <= |doc| && doc' == doc[..r.nL] + Escape(value, true) + doc[r.nR + 1..]
       else doc' == doc[..n + len] + " " + name + "=\"" + Escape(value, true) + "\"" + doc[n + len..]
  }

  lemma WrittenIs(doc: string, n: nat, len: nat, name: string, value: string, at: nat, replace: nat, ins: string)
    requires n + len <= |doc| && at + replace <= |doc|
    requires var r := AttribScan(doc, n, 0, 0, name);
             if r.found then at == r.nL && replace == r.nR + 1 - r.nL && ins == Escape(value, true)
             else at == n + len && replace == 0 && ins == " " + name + "=\"" + Escape(value, true) + "\""
    ensures AttribWritten(doc, Splice(doc, at, replace, ins), n, len, name, value)
  {
    hide AttribScan, Escape;
    if !AttribScan(doc, n, 0, 0, name).found {
      assert doc[..at] + ins + doc[at..] ==
        doc[..at] + " " + name + "=\"" + Escape(value, true) + "\"" + doc[at..];
    }
  }

  lemma MatchHere(attrs: seq<Attr>, k: nat, name: string)
    requires k < |attrs| && Match(attrs[k].name, name) && forall i :: 0 <= i < k ==> !Match(attrs[i].name, name)
    ensures FirstMatch(attrs, name) == k
  {
    hide Match, FirstMatch;
  }

  lemma ValueEnd(a: Attr, m: nat)
    ensures ValueToken(m, a).nR + 2 == m + |AttrText(a)|
  {
  }

  lemma HeadIn(o: Outline)
    ensures Head(o) != 0 ==> Head(o) in Slots(o)
  {
  }

  /** Where x_FindElem starts, and that its records are those of the list it looks through. */
  lemma SearchStart(a: seq<ElemPos>, o: Outline, parent: nat, pos: nat, path: string) returns (start: Outline, top: nat)
    requires |a| > 0 && Indexed(a, o, 0) && a[0].child == Head(o)
    requires parent == 0 || parent in Slots(o)
    requires pos == 0 || (pos in Slots(o) && pos < |a| && a[pos].parent == parent)
    ensures start == MarkupFind.StartOf(o, parent, pos, path) && Indexed(a, start, top) && Slots(start) <= Slots(o)
    ensures Head(start) == if MarkupFind.Slash(path, 0) then a[0].child
                           else if pos != 0 && pos < |a| then a[pos].next
                           else if parent < |a| then a[parent].child else 0
  {
    start, top := MarkupFind.StartOf(o, parent, pos, path), 0;
    if !MarkupFind.Slash(path, 0) {
      if pos != 0 {
        RecordOf(a, o, pos, 0);
        MarkupFind.NextIndexed(a, o, pos, 0);
        top := ParentOf(o, pos, 0);
      } else {
        KidsIndexed(a, o, parent);
        if parent != 0 { NodeSlotsIn(o, parent); }
        top := parent;
      }
    }
  }

  /** Without a path the first child is found. */
  lemma FirstLookup(a: seq<ElemPos>, free: nat, c: Content, parent: nat)
    requires IndexOk(a, free, c) && (parent == 0 || parent in SlotsC(c))
    ensures parent == 0 || parent in Slots(Layout(c, 0))
    ensures parent < |a| && MarkupFind.Lookup(c, Layout(c, 0), parent, 0, "") == a[parent].child
  {
    hide Layout, SlotsC, Slots, Indexed, Distinct, KidsOf;
    IndexParts(a, free, c);
    KidsIndexed(a, Layout(c, 0), parent);
  }

  /** Without a path the next sibling is found, or the first child of the parent position; "/" finds the root. */
  lemma NextLookup(a: seq<ElemPos>, free: nat, c: Content, parent: nat, pos: nat)
    requires IndexOk(a, free, c) && (parent == 0 || parent in SlotsC(c)) && (pos == 0 || pos in SlotsC(c))
    ensures (parent == 0 || parent in Slots(Layout(c, 0))) && (pos == 0 || pos in Slots(Layout(c, 0)))
    ensures parent < |a| && pos < |a|
    ensures MarkupFind.Lookup(c, Layout(c, 0), parent, pos, "") == if pos != 0 then a[pos].next else a[parent].child
    ensures MarkupFind.Lookup(c, Layout(c, 0), parent, pos, "/") == a[0].child
  {
    hide Layout, SlotsC, Slots, Indexed, Distinct, KidsOf, NodeOf;
    IndexParts(a, free, c);
    KidsIndexed(a, Layout(c, 0), parent);
    if pos != 0 { RecordOf(a, Layout(c, 0), pos, 0); }
  }

  class Document {
    var doc: string
    var aPos: seq<ElemPos>
    var iPosParent: nat
    var iPos: nat
    var iPosChild: nat
    var iPosFree: nat
    var nodeType: nat
    ghost var tree: Content

    /** The text is that of the tree and the index is its layout. */
    ghost function Seen(): View
      reads this
    {
      View(doc, tree, aPos, iPosParent, iPos, iPosChild)
    }

    lemma PositionsIn()
      requires Valid()
      ensures (iPosParent == 0 || iPosParent in Slots(Layout(tree, 0))) && (iPos == 0 || iPos in Slots(Layout(tree, 0)))
      ensures (iPos == 0 || iPos in SlotsC(tree)) && (iPosChild == 0 || iPosChild in SlotsC(tree))
      ensures iPosParent < |aPos| && iPos < |aPos| && iPosChild < |aPos|
    {
      hide Layout, Slots, SlotsC, Indexed, Distinct, Render, Wf;
      IndexParts(aPos, iPosFree, tree);
    }

    ghost predicate Coherent()
      reads this
    {
      && doc == Render(tree) && Wf(tree) && (tree.Kid? ==> tree.next.End?)
      && IndexOk(aPos, iPosFree, tree) && |aPos| > 0 && aPos[0].parent == 0
    }

    ghost predicate Valid()
      reads this
    {
      && Coherent()
      && CursorOk(aPos, SlotsC(tree), iPosParent, iPos, iPosChild)
      && nodeType == (if iPos != 0 then MNT_ELEMENT else 0)
    }

    /** CMarkupSTL(): an empty document, or the document `text`. */
    constructor (text: string)
      requires !MarkupParse.ParseElem(text, 0, 1).Diverges?
      ensures Parsed(text) && (text == "" ==> Valid())
    {
      hide Editable;
      EmptyEditable();
      doc, aPos := "", [];
      iPosParent, iPos, iPosChild, iPosFree, nodeType := 0, 0, 0, 1, 0;
      tree := End("");
      new;
      var ok := SetDoc(text);
    }

    /** What SetDoc leaves: the index of a fresh parse, or none; and a document to edit, if the text is one. */
    ghost predicate Parsed(text: string)
      reads this
    {
      && doc == text && iPosParent == 0 && iPos == 0 && iPosChild == 0 && |aPos| > 0
      && (match MarkupParse.ParseElem(text, 0, 1)
          case Elem(nd, free) => aPos[0].child == 1 && Indexed(aPos, nd, 0) && iPosFree == free &&
              Sound(text, nd, 1, free, 0, |text|)
          case _ => aPos[0] == CLEAR && iPosFree == 1)
      && (Editable(text) ==> Valid())
    }

    /** The parse of SetDoc; the index is cleared if it fails. */
    method ParseDoc() returns (ok: bool)
      requires !MarkupParse.ParseElem(doc, 0, 1).Diverges?
      modifies this`aPos, this`iPosFree
      ensures ok == MarkupParse.ParseElem(doc, 0, 1).Elem? && |aPos| >= 8 && iPosFree <= |aPos|
      ensures aPos[0].startL == 0 && aPos[0].startR == 0 && aPos[0].parent == 0
      ensures match MarkupParse.ParseElem(doc, 0, 1)
              case Elem(nd, free) => aPos[0].child == 1 && Indexed(aPos, nd, 0) && iPosFree == free
              case _ => aPos[0] == CLEAR && iPosFree == 1
    {
      hide MarkupParse.ParseElem, Sound, Indexed;
      iPosFree := 1;
      var startSize := |doc| / 64 + 8;
      if |aPos| < startSize {
        aPos := aPos + seq(startSize - |aPos|, i => CLEAR);
      }
      ok := false;
      EmptyParse();
      ParseWhole(doc);
      if doc != "" {
        aPos := aPos[0 := CLEAR];
        var pos := ParseElem(0);
        if pos > 0 {
          ghost var a1 := aPos;
          aPos := aPos[0 := aPos[0].(child := pos)];
          RootChild(a1, aPos, MarkupParse.ParseElem(doc, 0, 1).node);
          ok := true;
        }
      }
      if !ok {
        aPos := aPos[0 := CLEAR];
        iPosFree := 1;
      }
    }

    /** SetDoc. */
    method SetDoc(text: string) returns (ok: bool)
      requires !MarkupParse.ParseElem(text, 0, 1).Diverges?
      modifies this
      ensures Parsed(text) && ok == MarkupParse.ParseElem(text, 0, 1).Elem?
    {
      hide MarkupParse.ParseElem, Sound, Indexed, IndexOk, Render, Wf;
      doc := text;
      ok := ParseDoc();
      ParseWhole(text);
      iPosParent, iPos, iPosChild, nodeType := 0, 0, 0, 0;
      if Editable(text) {
        ghost var c :| OneRoot(c) && Render(c) == text;
        tree := NumberC(c, 1);
        NumberRoot(c, 1);
        SetDocIndex(aPos, iPosFree, c);
      }
    }

    /** The index is, up to the slot numbers, what a fresh parse of the text computes: links and all four offsets. */
    ghost predicate AgreesWithParse()
      reads this
    {
      var o := Layout(tree, 0);
      && |aPos| > 0 && Indexed(aPos, o, 0) && Distinct(o) && aPos[0].child == Head(o)
      && (forall s :: s in Slots(o) ==> s < iPosFree)
      && MarkupParse.ParseElem(doc, 0, 1) == (if o.Nil? then Bad else MarkupParse.Elem(Renumber(o, 1), 1 + Count(o)))
      && Nested(o, 0, |doc|) && Marked(doc, o)
    }

    lemma ValidAgrees()
      requires Valid()
      ensures AgreesWithParse()
    {
      hide Render, Wf, Layout, Indexed, Distinct, SlotsC, Slots, MarkupParse.ParseElem, Nested, Marked, Count, Renumber;
      IndexParts(aPos, iPosFree, tree);
      FreshParse(tree, 1);
      LayoutSound(tree);
      NilLayout(tree);
    }

    /** One call. An InsertElem that would have to add the root of a document it cannot be inserted into is not part of
        a run. */
    method Perform(op: Op) returns (ok: bool)
      requires Valid() && OpOk(op)
      modifies this
      ensures Valid() && Effect(op, ok, old(Seen()), Seen())
    {
      hide OpOk, Effect, Coherent, CursorOk;
      if op.AddOp? || op.SubDocOp? || op.RemoveOp? || op.RemoveChildOp? || op.SetDataOp? || op.SetChildDataOp? {
        ok := Reshape(op);
      } else if op.SetAttribOp? || op.SetChildAttribOp? || op.RemoveAttribOp? || op.RemoveChildAttribOp? {
        ok := Retouch(op);
      } else {
        ok := Move(op);
      }
    }

    /** The calls that add, fill and remove elements. */
    method Reshape(op: Op) returns (ok: bool)
      requires Valid() && OpOk(op)
      requires op.AddOp? || op.SubDocOp? || op.RemoveOp? || op.RemoveChildOp? || op.SetDataOp? || op.SetChildDataOp?
      modifies this
      ensures Valid() && Effect(op, ok, old(Seen()), Seen())
    {
      hide Render, Wf, IndexOk, SlotsC, Added, CutOut, Stops, Skipped, Rooted, MarkupParse.ParseElem, SubText, NewIn,
        LeftOut, ElemCut, KidsAt, Layout, Slots, DataOf, DataWritten;
      ok := false;
      ghost var k;
      PositionsIn();
      match op {
        case AddOp(name, value, insert, addChild) =>
          if !insert || addChild || iPosParent != 0 || RootInsertable(doc) {
            ok, k := AddElem(name, value, insert, addChild);
          }
        case RemoveOp => ok, k := RemoveElem();
        case RemoveChildOp => ok, k := RemoveChildElem();
        case SubDocOp(sub, insert, root, tail) => ok, k := AddChildSubDoc(sub, insert, root, tail);
        case SetDataOp(data, cdata) => ok := SetData(iPos, data, cdata);
        case SetChildDataOp(data, cdata) => ok := SetData(iPosChild, data, cdata);
      }
    }

    /** The calls that change attributes. */
    method Retouch(op: Op) returns (ok: bool)
      requires Valid() && OpOk(op)
      requires op.SetAttribOp? || op.SetChildAttribOp? || op.RemoveAttribOp? || op.RemoveChildAttribOp?
      modifies this
      ensures Valid() && Effect(op, ok, old(Seen()), Seen())
    {
      hide Render, Wf, IndexOk, SlotsC, KeepsOthers, KeepsRest, HasAttrib, AttribOf, AttribWritten, AttribGone, Layout,
        Slots, Offset, ElemOf, Replace, NameOk, TagName, Rooted, Stops, CursorOk;
      PositionsIn();
      match op {
        case SetAttribOp(name, value) => ok := SetAttrib(iPos, name, value);
        case SetChildAttribOp(name, value) => ok := SetAttrib(iPosChild, name, value);
        case RemoveAttribOp(name) => ok := RemoveAttrib(iPos, name);
        case RemoveChildAttribOp(name) => ok := RemoveAttrib(iPosChild, name);
      }
    }

    /** The calls that move the cursor. */
    method Move(op: Op) returns (ok: bool)
      requires Valid() && (op.FindOp? || op.FindChildOp? || op.IntoOp? || op.OutOp? || op.ResetOp?)
      modifies this
      ensures Valid() && Effect(op, ok, old(Seen()), Seen())
    {
      hide Render, Wf, IndexOk, SlotsC, Layout, Slots, MarkupFind.Lookup;
      ok := true;
      PositionsIn();
      match op {
        case FindOp(path) => ok := FindElem(path);
        case FindChildOp(path) => ok := FindChildElem(path);
        case IntoOp => ok := IntoElem();
        case OutOp => ok := OutOfElem();
        case ResetOp => ResetPos();
      }
    }

    /** After any run the index agrees with a fresh parse. */
    method Run(ops: seq<Op>) returns (oks: seq<bool>, ghost views: seq<View>)
      requires Valid() && forall i :: 0 <= i < |ops| ==> OpOk(ops[i])
      modifies this
      ensures Valid() && AgreesWithParse()
      ensures |oks| == |ops| && |views| == |ops| + 1 && views[0] == old(Seen()) && views[|ops|] == Seen()
      ensures forall i :: 0 <= i < |ops| ==> Effect(ops[i], oks[i], views[i], views[i + 1])
    {
      hide OpOk, Render, Wf, Coherent, CursorOk, AgreesWithParse, Effect;
      oks, views := [], [Seen()];
      for i := 0 to |ops|
        invariant Valid() && |oks| == i && |views| == i + 1 && views[0] == old(Seen()) && views[i] == Seen()
        invariant forall j :: 0 <= j < i ==> Effect(ops[j], oks[j], views[j], views[j + 1])
      {
        var ok := Perform(ops[i]);
        oks, views := oks + [ok], views + [Seen()];
      }
      ValidAgrees();
    }

    /** x_Adjust on an index that spells the tree `o`. */
    method AdjustTree(pos: nat, shift: int, afterPos: bool, ghost o: Outline)
      requires |aPos| > 0 && Indexed(aPos, o, 0) && Distinct(o) && pos in Slots(o)
      modifies this`aPos
      ensures Indexed(aPos, AdjustAt(o, pos, shift, afterPos), 0)
      ensures |aPos| == |old(aPos)| && aPos[0] == old(aPos)[0].AdjustEnd(shift) && SameLinks(old(aPos), aPos)
    {
      hide PathOk, PathLinked, Visits, Apply, AdjustAt, PathTo;
      WalkTree(aPos, o, pos, shift, afterPos);
      Adjust(pos, shift, afterPos, PathTo(o, pos, Root));
    }

    /** The part of x_SetAttrib (and x_RemoveAttrib) that changes the text of a start tag. */
    method Retag(pos: nat, insertAt: nat, replace: nat, ins: string)
      requires Valid() && pos in SlotsC(tree)
      requires Offset(tree, pos) + 1 <= insertAt
      requires insertAt + replace <= Offset(tree, pos) + 1 + |ElemOf(tree, pos).tag|
      requires var e := ElemOf(tree, pos); WfE(e.(tag := Splice(e.tag, insertAt - Offset(tree, pos) - 1, replace, ins)))
      modifies this`doc, this`aPos, this`tree
      ensures Valid()
      ensures var e := old(ElemOf(tree, pos));
              var tag := Splice(e.tag, insertAt - old(Offset(tree, pos)) - 1, replace, ins);
              tree == Replace(old(tree), pos, e.(tag := tag))
      ensures insertAt + replace <= |old(doc)| && doc == Splice(old(doc), insertAt, replace, ins)
    {
      hide Render, Wf, WfE, Layout, LayoutE, Offset, Replace, AdjustAt, PutNode, Indexed, Distinct, Slots, SlotsC,
        ElemOf, NodeOf, ParentOf;
      ghost var c, e, at, a0 := tree, ElemOf(tree, pos), insertAt - Offset(tree, pos) - 1, aPos;
      ghost var e' := e.(tag := Splice(e.tag, at, replace, ins));
      RecordAt(aPos, iPosFree, tree, pos);
      RetagText(tree, pos, at, replace, ins);
      RetagLayout(tree, pos, e'.tag);
      WfReplace(tree, pos, e');
      ReplaceRoot(tree, pos, e');
      SlotsReplace(tree, pos, e');
      doc := Splice(doc, insertAt, replace, ins);
      var adjust := |ins| - replace;
      ghost var o := Layout(c, 0);
      ghost var nd := NodeOf(o, pos);
      ghost var nd' := nd.(startR := nd.startR + adjust, endL := nd.endL + adjust, endR := nd.endR + adjust);
      PutRecord(aPos, iPosFree, tree, pos, nd');
      aPos := aPos[pos := aPos[pos].(startR := aPos[pos].startR + adjust).AdjustEnd(adjust)];
      ghost var a1 := aPos;
      AdjustTree(pos, adjust, false, PutNode(o, pos, nd'));
      tree := Replace(tree, pos, e');
      WalkedIndex(a1, aPos, iPosFree, PutNode(o, pos, nd'), pos, adjust, false, tree);
    }

    /** x_SetAttrib, with a name that is a word or finds an attribute. */
    method SetAttrib(pos: nat, name: string, value: string) returns (ok: bool)
      requires Valid() && (pos == 0 || pos in SlotsC(tree))
      requires pos == 0 || NameOk(name) || HasAttrib(doc, Offset(tree, pos) + 1, name)
      modifies this`doc, this`aPos, this`tree
      ensures Valid()
      ensures ok == (pos != 0 && iPos != 0)
      ensures !ok ==> doc == old(doc) && aPos == old(aPos) && tree == old(tree)
      ensures ok ==> pos in SlotsC(tree) && tree == Replace(old(tree), pos,
                  old(ElemOf(tree, pos)).(tag := ElemOf(tree, pos).tag))
      ensures ok ==> TagName(ElemOf(tree, pos).tag) == old(TagName(ElemOf(tree, pos).tag))
      ensures ok ==> AttribWritten(old(doc), doc, old(Offset(tree, pos)) + 1, old(|ElemOf(tree, pos).tag|), name, value)
      ensures ok ==> AttribOf(doc, Offset(tree, pos) + 1, name) == value
      ensures ok ==> KeepsOthers(old(doc), doc, Offset(tree, pos) + 1, name)
    {
      hide Render, Offset, TagText, WfTag, Replace, SetAttr, Escape, Wf, IndexOk, CursorOk, AttribOf, KeepsOthers,
        SlotsC, ElemOf, Has, NameOk, CloseOk, HasAttrib, FirstMatch, TagName, AttribWritten, AttribScan, WfE;
      if pos == 0 || nodeType != MNT_ELEMENT { return false; }
      ghost var c, e, at, d := tree, ElemOf(tree, pos), Offset(tree, pos), doc;
      WfElemOf(tree, pos);
      ghost var t := TagOf(e);
      ghost var t' := SetAttr(t, name, Escape(value, true));
      TagInText(tree, pos);
      AttribThere(d, at + 1, t, name);
      var insertAt, replace, ins := LocateAttrib(pos, name, value, t);
      Retag(pos, insertAt, replace, ins);
      ElemOfReplace(c, pos, e.(tag := TagText(t')));
      TagInText(tree, pos);
      ReadAfterSet(d, doc, at + 1, t, name, value, name);
      OthersKept(d, doc, at + 1, t, name, value);
      SetAttrName(t, name, value);
      WrittenIs(d, at + 1, |e.tag|, name, value, insertAt, replace, ins);
      ok := true;
    }

    /** The decisions of x_SetAttrib: where to write, how much to replace, what to write. */
    method LocateAttrib(pos: nat, name: string, value: string, ghost t: Tag)
      returns (insertAt: nat, replace: nat, ins: string)
      requires Valid() && pos in SlotsC(tree) && WfTag(t) && TagText(t) == ElemOf(tree, pos).tag
      requires Settable(t, name)
      ensures var e := ElemOf(tree, pos); var at := insertAt - Offset(tree, pos) - 1;
              var u := TagText(SetAttr(t, name, Escape(value, true)));
              && 0 <= at && at + replace <= |e.tag| && u == Splice(e.tag, at, replace, ins) && WfE(e.(tag := u))
      ensures Offset(tree, pos) + 1 <= |doc| && var r := AttribScan(doc, Offset(tree, pos) + 1, 0, 0, name);
              if r.found then insertAt == r.nL && replace == r.nR + 1 - r.nL && ins == Escape(value, true)
              else insertAt == Offset(tree, pos) + 1 + |ElemOf(tree, pos).tag| && replace == 0 &&
                   ins == " " + name + "=\"" + Escape(value, true) + "\""
    {
      hide Render, Offset, Layout, LayoutE, TagText, WfTag, Replace, SetAttr, Escape, Wf, CursorOk, AttribScan,
        FirstMatch, ValueStart, IndexOk, CloseOk, SlotsC, ElemOf, Has, Slots, NodeOf, ParentOf, Linked, Placed,
        TokenAt, TagName;
      SettableName(t, name);
      ghost var e := ElemOf(tree, pos);
      RecordAt(aPos, iPosFree, tree, pos);
      TagInText(tree, pos);
      WfElemOf(tree, pos);
      ScanTag(doc, aPos[pos].startL + 1, t, name);
      var token := FindAttrib(doc, aPos[pos].startL + 1, name);
      var text := TextToDoc(value, true);
      EscapeClean(value, true);
      SetAttrWf(t, name, text);
      TagTextShape(t);
      TagTextShape(SetAttr(t, name, text));
      if token.found {
        ins := text;
        insertAt := token.nL;
        replace := token.nR - token.nL + 1;
        SetOldAttr(t, name, text);
      } else {
        ins := " " + name + "=\"" + text + "\"";
        insertAt := aPos[pos].startR - (if aPos[pos].IsEmptyElement() then 1 else 0);
        replace := 0;
        SetNewAttr(t, name, text);
        SpliceEnd(e.tag, ins);
      }
    }

    /** x_RemoveAttrib: the attribute, and one blank before it, are cut out of the start tag. */
    method RemoveAttrib(pos: nat, name: string) returns (ok: bool)
      requires Valid() && (pos == 0 || pos in SlotsC(tree))
      modifies this`doc, this`aPos, this`tree
      ensures Valid()
      ensures ok == (pos != 0 && iPos != 0 && old(HasAttrib(doc, Offset(tree, pos) + 1, name)))
      ensures !ok ==> doc == old(doc) && aPos == old(aPos) && tree == old(tree)
      ensures ok ==> pos in SlotsC(tree) && tree == Replace(old(tree), pos,
                  old(ElemOf(tree, pos)).(tag := ElemOf(tree, pos).tag))
      ensures ok ==> TagName(ElemOf(tree, pos).tag) == old(TagName(ElemOf(tree, pos).tag))
      ensures ok ==> Offset(tree, pos) == old(Offset(tree, pos))
      ensures ok ==> AttribGone(old(doc), doc, Offset(tree, pos) + 1, name)
      ensures ok ==> KeepsRest(old(doc), doc, Offset(tree, pos) + 1, name)
    {
      hide Render, Offset, TagText, WfTag, Replace, Wf, IndexOk, CursorOk, KeepsRest, HasAttrib, SlotsC, ElemOf, Has,
        CloseOk, Without, StartOf, FirstMatch, AttribGone, TagName, Match;
      if pos == 0 || nodeType != MNT_ELEMENT { return false; }
      ghost var c, e, at, d := tree, ElemOf(tree, pos), Offset(tree, pos), doc;
      WfElemOf(tree, pos);
      ghost var t: Tag :| WfTag(t) && TagText(t) == e.tag;
      TagInText(tree, pos);
      AttribThere(doc, at + 1, t, name);
      var insertAt, replace;
      ok, insertAt, replace := LocateOld(pos, name, t);
      if !ok { return; }
      ghost var k := FirstMatch(t.attrs, name);
      RemovedText(t, k);
      WithoutWf(t, k);
      ghost var u := TagText(Without(t, k));
      Untagged(e, t, k);
      Retag(pos, insertAt, replace, "");
      ElemOfReplace(c, pos, e.(tag := u));
      TagInText(tree, pos);
      CutAway(d, doc, at + 1, t, name);
    }

    /** The loop of x_RemoveAttrib over the attribute names. */
    method LocateOld(pos: nat, name: string, ghost t: Tag) returns (found: bool, insertAt: nat, replace: nat)
      requires Valid() && pos in SlotsC(tree) && WfTag(t) && TagText(t) == ElemOf(tree, pos).tag
      ensures found == (FirstMatch(t.attrs, name) < |t.attrs|)
      ensures found ==> var k, n := FirstMatch(t.attrs, name), Offset(tree, pos) + 1; var a := t.attrs[k];
              insertAt == n + StartOf(t, k) + |a.pre| - 1 && replace == |AttrText(a)| - |a.pre| + 1
    {
      hide Render, Offset, Layout, LayoutE, TagText, Wf, CursorOk, IndexOk, CloseOk, SlotsC, ElemOf, Has, TokenAt,
        NodeOf, ParentOf, AttribScan, StartOf, FirstMatch, Match, AttrText, NameOk;
      RecordAt(aPos, iPosFree, tree, pos);
      TagInText(tree, pos);
      ghost var n, k := aPos[pos].startL + 1, 0;
      var at := aPos[pos].startL + 1;
      insertAt, replace := 0, 0;
      while true
        invariant k <= |t.attrs| && at == n + SearchAt(t, k) &&
                  (forall i :: 0 <= i < k ==> !Match(t.attrs[i].name, name))
        decreases |t.attrs| - k
      {
        NextName(doc, n, t, k);
        var token := FindAttrib(doc, at, "");
        if !token.found { return false, 0, 0; }
        if Match(doc[token.nL..token.next], name) {
          MatchHere(t.attrs, k, name);
          BehindAttr(doc, n, t, k);
          ValueEnd(t.attrs[k], n + StartOf(t, k));
          insertAt := token.nL - 1;
          var equals := FindToken(doc, token.next);
          var value := FindToken(doc, equals.next);
          replace := value.nR - insertAt + 2;
          return true, insertAt, replace;
        }
        at := token.next;
        k := k + 1;
      }
    }

    /** x_GetAttrib. */
    method GetAttrib(pos: nat, name: string) returns (r: string)
      requires Valid() && (pos == 0 || pos in SlotsC(tree))
      ensures r == if pos != 0 && iPos != 0 then AttribOf(doc, Offset(tree, pos) + 1, name) else ""
    {
      hide Render, Offset, Layout, TagText, WfTag, Wf, CursorOk, IndexOk, AttribScan, FirstMatch, ValueStart, Has,
        CloseOk, SlotsC, ElemOf, LayoutE, Unescape;
      if pos == 0 || nodeType != MNT_ELEMENT { return ""; }
      RecordAt(aPos, iPosFree, tree, pos);
      TagInText(tree, pos);
      var token := FindAttrib(doc, aPos[pos].startL + 1, name);
      if !token.found { return ""; }
      FoundBounds(doc, aPos[pos].startL + 1, 0, 0, name);
      r := TextFromDoc(doc, token.nL, token.nR + 1);
    }

    /** x_GetTagName. */
    method GetName(pos: nat) returns (name: string)
      requires Coherent() && pos in SlotsC(tree)
      ensures name == TagName(ElemOf(tree, pos).tag)
    {
      hide Render, Offset, Layout, LayoutE, Wf, CursorOk, IndexOk, TagOk, TagName, CloseOk, SlotsC, ElemOf, Has;
      RecordAt(aPos, iPosFree, tree, pos);
      TagInText(tree, pos);
      WfElemOf(tree, pos);
      TagOkShape(ElemOf(tree, pos).tag);
      NameToken(doc, aPos[pos].startL + 1, ElemOf(tree, pos).tag);
      NameText(doc, aPos[pos].startL + 1, ElemOf(tree, pos).tag);
      var token := FindToken(doc, aPos[pos].startL + 1);
      name := doc[token.nL..token.next];
    }

    /** x_SetData on an element: text, or a CDATA section when asked for and possible. */
    method SetData(pos: nat, data: string, cdata: bool) returns (ok: bool)
      requires Valid() && (pos == 0 || pos in SlotsC(tree))
      modifies this`doc, this`aPos, this`tree
      ensures Valid()
      ensures ok == (pos != 0 && !HasKids(old(ElemOf(tree, pos))))
      ensures !ok ==> doc == old(doc) && aPos == old(aPos) && tree == old(tree)
      ensures ok ==> tree == Replace(old(tree), pos, FilledWith(old(ElemOf(tree, pos)), DataText(data, cdata)))
      ensures ok ==> pos in SlotsC(tree) && DataOf(doc, tree, pos) == data
      ensures ok ==> ElemOf(tree, pos).tag == old(ElemOf(tree, pos).tag)
      ensures ok ==> DataWritten(old(tree), old(doc), doc, pos, data, cdata)
    {
      hide DataOf, Render, Offset, Layout, Wf, CursorOk, IndexOk, SlotsC, ElemOf, Replace, FilledWith, Escape, FindStr;
      if pos == 0 { return false; }
      RecordAt(aPos, iPosFree, tree, pos);
      if aPos[pos].child != 0 { return false; }
      var text;
      if cdata && FindStr(data, 0, CDATA_CLOSE) == |data| {
        text := CDATA_OPEN + data + CDATA_CLOSE;
      } else {
        text := TextToDoc(data, false);
      }
      assert text == DataText(data, cdata);
      DataGap(data, cdata);
      ghost var c, e := tree, ElemOf(tree, pos);
      Fill(pos, text);
      ElemOfReplace(c, pos, FilledWith(e, text));
      DataWrittenIs(c, pos, data, cdata);
      ReadBack(tree, pos, e, data, cdata);
      ok := true;
    }

    /** x_GetData of an element, or at position 0: nothing if there is a root, else the text from its second character
        on, as far as record 0 goes. */
    method GetData(pos: nat) returns (r: string)
      requires Valid() && (pos == 0 || pos in SlotsC(tree))
      requires pos == 0 && tree.End? ==> doc != "" && aPos[0].endL <= |doc|
      ensures pos != 0 ==> r == DataOf(doc, tree, pos)
      ensures pos != 0 && (ElemOf(tree, pos).Leaf? || HasKids(ElemOf(tree, pos))) ==> r == ""
      ensures pos == 0 ==> r == if tree.Kid? || aPos[0].endL <= 0 then "" else DataAt(doc, 0, aPos[0].endL)
    {
      hide Render, Offset, Layout, Wf, CursorOk, IndexOk, SlotsC, ElemOf, FindStr, TokenAt, Unescape, Has;
      if pos == 0 {
        RootLink(aPos, iPosFree, tree);
        if aPos[0].child != 0 || aPos[0].endL <= 0 { return ""; }
        r := ReadData(0, aPos[0].endL);
        return;
      }
      RecordAt(aPos, iPosFree, tree, pos);
      if aPos[pos].child != 0 || aPos[pos].IsEmptyElement() { return ""; }
      ContentInText(tree, pos);
      ghost var e := ElemOf(tree, pos);
      assert aPos[pos].endL == aPos[pos].startR + 1 + Len(e.inner);
      r := ReadData(aPos[pos].startR, aPos[pos].endL);
    }

    /** The part of x_GetData that looks for a CDATA section. */
    method ReadData(startR: nat, endL: nat) returns (r: string)
      requires startR < endL <= |doc|
      ensures r == DataAt(doc, startR, endL)
    {
      hide FindStr, TokenAt, Unescape, Has;
      var token := FindToken(doc, startR + 1);
      if token.found && token.nL < |doc| && doc[token.nL] == '<' && token.nL + 11 < endL &&
          Has(doc, token.nL + 1, "![CDATA[") {
        var end := FindStr(doc, token.next, CDATA_CLOSE);
        if end < endL && token.nL + 9 <= end {
          return doc[token.nL + 9..end];
        }
      }
      r := TextFromDoc(doc, startR + 1, endL);
    }

    /** The part of x_SetData that puts the text in. */
    method Fill(pos: nat, text: string)
      requires Valid() && pos in SlotsC(tree) && !HasKids(ElemOf(tree, pos)) && GapOk(text)
      modifies this`doc, this`aPos, this`tree
      ensures Valid()
      ensures tree == Replace(old(tree), pos, FilledWith(old(ElemOf(tree, pos)), text))
    {
      hide Render, Offset, Layout, Wf, WfE, IndexOk, SlotsC, ElemOf, Replace, FilledWith, TagName, AdjustAt, PutNode,
        Distinct, Slots, Indexed, LenE;
      ghost var c, e, o, a0 := tree, ElemOf(tree, pos), Layout(tree, 0), aPos;
      ghost var e' := FilledWith(e, text);
      IndexParts(aPos, iPosFree, tree);
      RecordAt(aPos, iPosFree, tree, pos);
      FillDoc(tree, pos, text);
      FillLayout(tree, pos, text);
      FillWf(tree, pos, text);
      WfReplace(tree, pos, e');
      ReplaceRoot(tree, pos, e');
      FillSlots(tree, pos, text);
      ghost var nd := PreFilled(NodeOf(o, pos), e);
      PutRecord(aPos, iPosFree, tree, pos, nd);
      var insertAt, replace, ins;
      if aPos[pos].IsEmptyElement() {
        insertAt, replace := aPos[pos].endL, 1;
        var name := GetName(pos);
        aPos := aPos[pos := aPos[pos].(startR := aPos[pos].startR - 1, endL := aPos[pos].endL - (1 + |name|))];
        ins := ">" + text + "</" + name;
      } else {
        insertAt, replace := aPos[pos].startR + 1, aPos[pos].endL - aPos[pos].startR - 1;
        ins := text;
      }
      assert aPos == a0[pos := a0[pos].(startL := nd.startL, startR := nd.startR, endL := nd.endL, endR := nd.endR)];
      doc := Splice(doc, insertAt, replace, ins);
      var adjust := |ins| - replace;
      ghost var a1 := aPos;
      AdjustTree(pos, adjust, false, PutNode(o, pos, nd));
      tree := Replace(tree, pos, e');
      WalkedThenPut(a1, aPos, iPosFree, PutNode(o, pos, nd), pos, adjust, nd, tree);
      aPos := aPos[pos := aPos[pos].AdjustEnd(adjust)];
      assert IndexOk(aPos, iPosFree, tree);
      assert CursorOk(aPos, SlotsC(tree), iPosParent, iPos, iPosChild);
      assert Valid();
    }

    /** x_SetPos. */
    method SetPos(parent: nat, pos: nat, child: nat)
      requires Coherent() && CursorOk(aPos, SlotsC(tree), parent, pos, child)
      modifies this`iPosParent, this`iPos, this`iPosChild, this`nodeType
      ensures Valid() && iPosParent == parent && iPos == pos && iPosChild == child
    {
      iPosParent, iPos, iPosChild := parent, pos, child;
      nodeType := if pos != 0 then MNT_ELEMENT else 0;
    }

    // ----- moving the cursor -------------------------------------------------

    /** FindElem: the next sibling, the next one of a name, or an element a path leads to. */
    method FindElem(path: string) returns (ok: bool)
      requires Valid()
      modifies this`iPosParent, this`iPos, this`iPosChild, this`nodeType
      ensures Valid() && CursorSlots(old(iPosParent), old(iPos))
      ensures var i := MarkupFind.Lookup(tree, Layout(tree, 0), old(iPosParent), old(iPos), path);
              && ok == (i != 0)
              && (ok ==> i < |aPos| && iPosParent == aPos[i].parent && iPos == i && iPosChild == 0)
              && (!ok ==> iPosParent == old(iPosParent) && iPos == old(iPos) && iPosChild == old(iPosChild))
      ensures path == "" ==>
              var i := old(if iPos != 0 then aPos[iPos].next else aPos[iPosParent].child);
              ok == (i != 0) && (ok ==> iPos == i)
    {
      hide Render, Wf, SlotsC, IndexOk, Layout, Slots, MarkupFind.Lookup;
      NextLookup(aPos, iPosFree, tree, iPosParent, iPos);
      IndexParts(aPos, iPosFree, tree);
      var i := FindPath(iPosParent, iPos, path);
      ok := i != 0;
      if ok {
        ParentSpot(aPos, iPosFree, tree, i);
        SetPos(aPos[i].parent, i, 0);
      }
    }

    /** Where a search may start. */
    ghost predicate CursorSlots(parent: nat, pos: nat)
      reads this
    {
      var o := Layout(tree, 0); (parent == 0 || parent in Slots(o)) && (pos == 0 || pos in Slots(o))
    }

    /** x_FindElem. */
    method FindPath(parent: nat, pos: nat, path: string) returns (i: nat)
      requires Coherent() && (parent == 0 || parent in SlotsC(tree))
      requires pos == 0 || (pos in SlotsC(tree) && pos < |aPos| && aPos[pos].parent == parent)
      ensures CursorSlots(parent, pos) && i == MarkupFind.Lookup(tree, Layout(tree, 0), parent, pos, path)
      ensures i != 0 ==> i in SlotsC(tree) && i < |aPos|
    {
      hide Render, Wf, Layout, SlotsC, Slots, NodeOf, ParentOf, Distinct, Indexed, KidsOf, IndexOk, MarkupFind.Search;
      IndexParts(aPos, iPosFree, tree);
      ghost var o := Layout(tree, 0);
      ghost var start, top := SearchStart(aPos, o, parent, pos, path);
      var off := 0;
      if |path| > 0 && path[0] == '/' {
        i := aPos[0].child;
        off := 1;
      } else {
        i := NextElem(parent, pos);
      }
      HeadIn(start);
      if off == |path| { return; }
      i := FollowPath(i, path, off, start, top);
    }

    /** The loop of x_FindElem. */
    method FollowPath(first: nat, path: string, start: nat, ghost o: Outline, ghost p: nat) returns (i: nat)
      requires Coherent() && start <= |path| && Indexed(aPos, o, p) && Slots(o) <= SlotsC(tree) && first == Head(o)
      ensures i == MarkupFind.Search(tree, o, path, start) && (i != 0 ==> i in SlotsC(tree) && i < |aPos|)
    {
      hide Render, Wf, Layout, SlotsC, Slots, Indexed, IndexOk, TagName, Match, ElemOf;
      IndexSize(aPos, iPosFree, tree);
      var off: nat := start;
      ghost var rest, top := o, p;
      i := first;
      while i != 0
        invariant off <= |path| && Indexed(aPos, rest, top) && Slots(rest) <= SlotsC(tree) && i == Head(rest)
        invariant MarkupFind.Search(tree, o, path, start) == MarkupFind.Search(tree, rest, path, off)
        decreases rest
      {
        MarkupFind.Parts(aPos, rest, top);
        var name := GetName(i);
        MarkupFind.MatchLength(name, path[off..]);
        if off < |path| && path[off] == '*' {
          if !MarkupFind.Slash(path, off + 1) { return; }
          off := off + 2;
          i, rest, top := aPos[i].child, rest.child, i;
        } else if Match(name, path[off..]) {
          if !MarkupFind.Slash(path, off + |name|) { return; }
          off := off + |name| + 1;
          i, rest, top := aPos[i].child, rest.child, i;
        } else {
          i, rest := aPos[i].next, rest.next;
        }
      }
    }

    /** x_FindElem without a path. */
    method NextElem(parent: nat, pos: nat) returns (i: nat)
      requires Coherent() && (parent == 0 || parent in SlotsC(tree))
      requires pos == 0 || (pos in SlotsC(tree) && pos < |aPos| && aPos[pos].parent == parent)
      ensures parent < |aPos| && i == if pos != 0 then aPos[pos].next else aPos[parent].child
      ensures i != 0 ==> i in SlotsC(tree) && i < |aPos| && aPos[i].parent == parent
    {
      hide Render, Wf, Layout, SlotsC, Slots, NodeOf, ParentOf, Distinct, Indexed, KidsOf;
      IndexParts(aPos, iPosFree, tree);
      ghost var o := Layout(tree, 0);
      KidsIndexed(aPos, o, parent);
      if pos != 0 {
        i := aPos[pos].next;
        RecordOf(aPos, o, pos, 0);
        if i != 0 { NextSpot(aPos, o, pos, 0); }
      } else {
        i := aPos[parent].child;
        if i != 0 { FirstSpot(aPos, o, parent); }
      }
    }

    /** FindChildElem: with no main position one is looked for first, and if there is none the search starts at the
        root. */
    method FindChildElem(path: string) returns (ok: bool)
      requires Valid()
      modifies this`iPosParent, this`iPos, this`iPosChild, this`nodeType
      ensures Valid()
      ensures var main := old(if iPos != 0 then iPos else aPos[iPosParent].child);
              var after := old(if iPos == 0 && aPos[iPosParent].child != 0 then 0 else iPosChild);
              CursorSlots(main, after) &&
              var i := MarkupFind.Lookup(tree, Layout(tree, 0), main, after, path);
              && ok == (i != 0)
              && (ok ==> i < |aPos| && iPosChild == i && iPos == aPos[i].parent)
              && (!ok ==> iPos == main && iPosChild == after)
    {
      hide Render, Wf, SlotsC, IndexOk, Layout, Slots, MarkupFind.Search;
      IndexSize(aPos, iPosFree, tree);
      if iPos == 0 {
        FirstLookup(aPos, iPosFree, tree, iPosParent);
        var moved := FindElem("");
      }
      var i := FindPath(iPos, iPosChild, path);
      ok := i != 0;
      if ok {
        ParentSpot(aPos, iPosFree, tree, i);
        var main := aPos[i].parent;
        if main != 0 { ParentSpot(aPos, iPosFree, tree, main); }
        SetPos(aPos[main].parent, main, i);
      }
    }

    /** IntoElem: the main position becomes the parent position. */
    method IntoElem() returns (ok: bool)
      requires Valid()
      modifies this`iPosParent, this`iPos, this`iPosChild, this`nodeType
      ensures Valid() && ok == old(iPos != 0)
      ensures if ok then iPosParent == old(iPos) && iPos == old(iPosChild) && iPosChild == 0
              else iPosParent == old(iPosParent) && iPos == old(iPos) && iPosChild == old(iPosChild)
    {
      hide Render, Wf, SlotsC;
      if iPos == 0 || nodeType != MNT_ELEMENT { return false; }
      SetPos(iPos, iPosChild, 0);
      ok := true;
    }

    /** OutOfElem undoes IntoElem: the parent position becomes the main position. */
    method OutOfElem() returns (ok: bool)
      requires Valid()
      modifies this`iPosParent, this`iPos, this`iPosChild, this`nodeType
      ensures Valid() && ok == old(iPosParent != 0)
      ensures if ok then iPosParent == old(aPos[iPosParent].parent) && iPos == old(iPosParent) && iPosChild == old(iPos)
              else iPosParent == old(iPosParent) && iPos == old(iPos) && iPosChild == old(iPosChild)
    {
      hide Render, Wf, SlotsC, Layout, Slots, ParentOf, NodeOf, Distinct, Indexed;
      IndexParts(aPos, iPosFree, tree);
      if iPosParent == 0 { return false; }
      ParentSpot(aPos, iPosFree, tree, iPosParent);
      SetPos(aPos[iPosParent].parent, iPosParent, iPos);
      ok := true;
    }

    /** ResetPos. */
    method ResetPos()
      requires Valid()
      modifies this`iPosParent, this`iPos, this`iPosChild, this`nodeType
      ensures Valid() && iPosParent == 0 && iPos == 0 && iPosChild == 0
    {
      SetPos(0, 0, 0);
    }

    // ----- removing ----------------------------------------------------------

    /** RemoveElem: the cursor goes to the previous sibling. */
    method RemoveElem() returns (ok: bool, ghost cut: nat)
      requires Valid()
      modifies this
      ensures Valid() && ok == old(iPos != 0)
      ensures !ok ==> doc == old(doc) && tree == old(tree) && aPos == old(aPos)
      ensures !ok ==> iPosParent == old(iPosParent) && iPos == old(iPos) && iPosChild == old(iPosChild)
      ensures ok ==> CutOut(old(tree), old(doc), old(iPosParent), old(iPos), cut, tree)
      ensures ok ==> LeftOut(KidsAt(old(tree), old(iPosParent)), KidsAt(tree, old(iPosParent)), old(iPos), iPos)
      ensures ok ==> ElemCut(old(doc), doc, old(aPos[iPos]), cut)
      ensures ok ==> iPosParent == old(iPosParent) && iPosChild == 0
                     && old(iPos) in Slots(Layout(old(tree), 0)) && iPos == PrevOf(Layout(old(tree), 0), old(iPos), 0)
    {
      hide Render, Wf, IndexOk, SlotsC, CutOut, Layout, Slots, PrevOf, LeftOut, KidsAt, ElemCut;
      cut := 0;
      if iPos == 0 || nodeType != MNT_ELEMENT { return false, 0; }
      var prev;
      prev, cut := RemoveAt(iPos);
      SetPos(iPosParent, prev, 0);
      ok := true;
    }

    /** RemoveChildElem: the child cursor goes to the previous sibling. */
    method RemoveChildElem() returns (ok: bool, ghost cut: nat)
      requires Valid()
      modifies this
      ensures Valid() && ok == old(iPosChild != 0)
      ensures !ok ==> doc == old(doc) && tree == old(tree) && aPos == old(aPos)
      ensures !ok ==> iPosParent == old(iPosParent) && iPos == old(iPos) && iPosChild == old(iPosChild)
      ensures ok ==> CutOut(old(tree), old(doc), old(iPos), old(iPosChild), cut, tree)
      ensures ok ==> LeftOut(KidsAt(old(tree), old(iPos)), KidsAt(tree, old(iPos)), old(iPosChild), iPosChild)
      ensures ok ==> ElemCut(old(doc), doc, old(aPos[iPosChild]), cut)
      ensures ok ==> iPosParent == old(iPosParent) && iPos == old(iPos)
                     && old(iPosChild) in Slots(Layout(old(tree), 0))
                     && iPosChild == PrevOf(Layout(old(tree), 0), old(iPosChild), 0)
    {
      hide Render, Wf, IndexOk, SlotsC, CutOut, Layout, Slots, PrevOf, LeftOut, KidsAt, ElemCut;
      cut := 0;
      if iPosChild == 0 { return false, 0; }
      var prev;
      prev, cut := RemoveAt(iPosChild);
      SetPos(iPosParent, iPos, prev);
      ok := true;
    }

    /** x_RemoveElem. */
    method RemoveAt(pos: nat) returns (prev: nat, ghost cut: nat)
      requires Coherent() && pos in SlotsC(tree) && pos < |aPos|
      modifies this`doc, this`aPos, this`tree
      ensures Coherent()
      ensures CutOut(old(tree), old(doc), old(aPos[pos].parent), pos, cut, tree)
      ensures LeftOut(KidsAt(old(tree), old(aPos[pos].parent)), KidsAt(tree, old(aPos[pos].parent)), pos, prev)
      ensures ElemCut(old(doc), doc, old(aPos[pos]), cut)
      ensures pos in Slots(Layout(old(tree), 0)) && prev == PrevOf(Layout(old(tree), 0), pos, 0)
      ensures CursorOk(aPos, SlotsC(tree), old(aPos[pos].parent), prev, 0)
      ensures old(0 < aPos[pos].parent < |aPos|) ==>
              CursorOk(aPos, SlotsC(tree), old(aPos[aPos[pos].parent].parent), old(aPos[pos].parent), prev)
    {
      hide Render, Wf, Layout, IndexOk, SlotsC, Indexed, Distinct, Slots, ParentOf, PrevOf, NodeOf, PathTo, PathOk,
        PathLinked, Apply, Visits, WithInner, RemoveKid, InnerStart, InnerOf, LenE, KidOf, KidStart, GapStart, GapAt,
        TrimEnd, TokenAt, KidsAt, LeftOut, TopDistinct, ElemCut;
      ghost var c, o, a0 := tree, Layout(tree, 0), aPos;
      IndexParts(aPos, iPosFree, tree);
      RecordAt(aPos, iPosFree, tree, pos);
      ParentContent(tree, pos);
      var p := aPos[pos].parent;
      prev := PrevSibling(p, pos);
      if prev != 0 {
        aPos := aPos[prev := aPos[prev].(next := aPos[pos].next)];
      } else {
        aPos := aPos[p := aPos[p].(child := aPos[pos].next)];
      }
      assert LedAround(a0, aPos, o, pos);
      ghost var a1 := aPos;
      KidRecord(a0, iPosFree, c, p, pos);
      SelfApart(o, pos);
      assert aPos[pos] == a0[pos];
      var afterEnd := aPos[pos].endR + 1;
      GapInText(c, p, pos);
      var trimmed := Trim(afterEnd);
      cut := trimmed - afterEnd;
      CutMeans(doc, aPos[pos], trimmed);
      InnerDistinct(a0, iPosFree, c, p);
      RemoveTextOk(c, p, pos, cut);
      RemovedOrder(c, p, pos, cut);
      RemovedIndex(a0, a1, iPosFree, c, pos, cut);
      var len := trimmed - aPos[pos].startL;
      doc := Splice(doc, aPos[pos].startL, len, "");
      Adjust(pos, -len, true, PathTo(o, pos, Root));
      RemovedCursor(a0, a1, aPos, iPosFree, c, pos);
      tree := WithInner(c, p, RemoveKid(InnerOf(c, p), pos, cut));
    }

    /** The white space rule shared by x_RemoveElem and x_LocateNew. */
    method Trim(n: nat) returns (r: nat)
      requires n <= |doc|
      ensures r == TrimEnd(doc, n)
    {
      var token := FindToken(doc, n);
      if !token.found || (token.nL < |doc| && doc[token.nL] == '<') { r := token.nL; } else { r := n; }
    }

    /** The search of x_RemoveElem for the previous sibling. */
    method PrevSibling(p: nat, pos: nat) returns (prev: nat)
      requires Coherent() && pos in SlotsC(tree) && pos in Slots(Layout(tree, 0)) &&
               p == ParentOf(Layout(tree, 0), pos, 0)
      ensures prev == PrevOf(Layout(tree, 0), pos, 0) && prev < |aPos| && p < |aPos|
    {
      hide Render, Wf, Layout, SlotsC, Distinct, Slots, ParentOf, PrevOf, NodeOf, LayoutE, KidsOf;
      ghost var o := Layout(tree, 0);
      IndexParts(aPos, iPosFree, tree);
      ParentContent(tree, pos);
      ghost var kids := KidsOf(o, p);
      KidsIndexed(aPos, o, p);
      var look := aPos[p].child;
      prev := 0;
      ghost var rest := kids;
      while look != pos
        invariant InChain(rest, pos) && Indexed(aPos, rest, p) && look == Head(rest) && prev < |aPos|
        invariant ChainPrev(rest, pos, prev) == ChainPrev(kids, pos, 0)
        decreases rest
      {
        prev := look;
        look := aPos[look].next;
        rest := rest.next;
      }
    }

    /** x_LocateNew, at an element position: where a new element goes, and which sibling it follows. */
    method LocateNew(p: nat, rel: nat, insert: bool) returns (offset: nat, before: nat, ghost k: nat)
      requires Coherent() && (p == 0 || p in SlotsC(tree))
      requires rel == 0 || (rel in SlotsC(tree) && rel < |aPos| && aPos[rel].parent == p)
      requires p == 0 ==> tree.End? && rel == 0 && (insert ==> RootInsertable(doc)) && |aPos| > 0 &&
                          aPos[0].endL == |doc|
      ensures p != 0 && ElemOf(tree, p).Leaf? ==> p < |aPos| && offset == aPos[p].startR && before == 0
      ensures p == 0 || ElemOf(tree, p).Branch? ==> Place(tree, p, before, k, offset) &&
                                                    NewPlace(tree, doc, p, rel, insert, before, k)
    {
      hide Render, Wf, Layout, SlotsC, ElemOf, Indexed, Distinct, Slots, ParentOf, PrevOf, NodeOf, InnerStart,
        InnerOf, GapStart, GapAt, TrimEnd, TopSlots, KidStart, KidOf, LenE, LayoutE, LastTop, Offset;
      k := 0;
      if rel != 0 {
        offset, before, k := LocateBy(p, rel, insert);
      } else if p == 0 {
        offset, before, k := LocateRoot(insert);
      } else {
        offset, before, k := LocateIn(p, insert);
      }
    }

    /** x_LocateNew in a document without a root. */
    method LocateRoot(insert: bool) returns (offset: nat, before: nat, ghost k: nat)
      requires Coherent() && tree.End? && (insert ==> RootInsertable(doc)) && |aPos| > 0 && aPos[0].endL == |doc|
      ensures insert ==> doc != ""
      ensures before == 0 && offset == TrimEnd(doc, if insert then 1 else |doc|)
      ensures Place(tree, 0, before, k, offset) && NewPlace(tree, doc, 0, 0, insert, before, k)
    {
      hide Render, Wf, Layout, SlotsC, ElemOf, Indexed, Distinct, Slots, ParentOf, PrevOf, NodeOf, InnerStart,
        InnerOf, GapStart, GapAt, TrimEnd, TopSlots, KidStart, KidOf, LenE, LayoutE, LastTop, Offset;
      RootPlace(tree);
      if insert {
        RootInsertPlace(tree);
        IndexParts(aPos, iPosFree, tree);
        offset := Trim(aPos[0].startR + 1);
        before, k := 0, offset;
      } else {
        PlaceAtEnd(tree, 0, 0);
        k := |tree.gap|;
        offset := Trim(aPos[0].endL);
        before := 0;
        assert LastTop(tree, 0) == 0 by { NoLast(tree); }
      }
    }

    /** x_LocateNew below an element, at its start or at its end. */
    method LocateIn(p: nat, insert: bool) returns (offset: nat, before: nat, ghost k: nat)
      requires Coherent() && p != 0 && p in SlotsC(tree)
      ensures ElemOf(tree, p).Leaf? ==> p < |aPos| && offset == aPos[p].startR && before == 0
      ensures ElemOf(tree, p).Branch? ==> Place(tree, p, before, k, offset) &&
                                          NewPlace(tree, doc, p, 0, insert, before, k)
    {
      hide Render, Wf, Layout, SlotsC, ElemOf, Indexed, Distinct, Slots, ParentOf, PrevOf, NodeOf, InnerStart,
        InnerOf, GapStart, GapAt, TrimEnd, TopSlots, KidStart, KidOf, LenE, LayoutE, LastTop, Offset;
      RecordAt(aPos, iPosFree, tree, p);
      if aPos[p].IsEmptyElement() {
        return aPos[p].startR, 0, 0;
      }
      PlaceLast(aPos, iPosFree, tree, p);
      if insert {
        FirstPlace(tree, p);
        PlaceTrimmed(tree, p, 0);
        offset := Trim(aPos[p].startR + 1);
        before, k := 0, offset - InnerStart(tree, p);
      } else {
        ghost var b := LastTop(InnerOf(tree, p), 0);
        PlaceAtEnd(tree, p, b);
        k := |GapAt(InnerOf(tree, p), b)|;
        offset := Trim(aPos[p].endL);
        before := LastChild(p);
      }
    }

    /** x_LocateNew relative to a sibling. */
    method LocateBy(p: nat, rel: nat, insert: bool) returns (offset: nat, before: nat, ghost k: nat)
      requires Coherent() && rel != 0 && rel in SlotsC(tree) && rel < |aPos| && aPos[rel].parent == p
      ensures 0 <= aPos[rel].startL <= aPos[rel].endR < |doc|
      ensures offset == TrimEnd(doc, if insert then aPos[rel].startL else aPos[rel].endR + 1)
      ensures !insert ==> before == rel
      ensures Place(tree, p, before, k, offset) && p < |aPos| && NewPlace(tree, doc, p, rel, insert, before, k)
    {
      hide Render, Wf, Layout, SlotsC, ElemOf, Indexed, Distinct, Slots, ParentOf, PrevOf, NodeOf, InnerStart,
        InnerOf, GapStart, GapAt, TrimEnd, TopSlots, KidStart, KidOf, LenE, LayoutE, PrevTop, GapFrom, Offset;
      IndexParts(aPos, iPosFree, tree);
      RecordAt(aPos, iPosFree, tree, rel);
      ParentContent(tree, rel);
      RecordInText(aPos, iPosFree, tree, rel);
      if insert {
        PlaceBefore(aPos, iPosFree, tree, rel);
        before := PrevSibling(p, rel);
        PlaceAtEnd(tree, p, before);
        k := |GapAt(InnerOf(tree, p), before)|;
        offset := Trim(aPos[rel].startL);
      } else {
        KidRecord(aPos, iPosFree, tree, p, rel);
        PlaceTrimmed(tree, p, rel);
        var n := aPos[rel].endR + 1;
        offset := Trim(n);
        before, k := rel, offset - n;
      }
    }

    /** The search of x_LocateNew for the last child. */
    method LastChild(p: nat) returns (last: nat)
      requires Coherent() && p in SlotsC(tree) && ElemOf(tree, p).Branch? && p < |aPos|
      ensures last == LastTop(InnerOf(tree, p), 0)
    {
      hide Render, Wf, Layout, SlotsC, Distinct, Slots, NodeOf, LayoutE, KidsOf, InnerStart, InnerOf, LastTop, ElemOf;
      IndexParts(aPos, iPosFree, tree);
      InnerDistinct(aPos, iPosFree, tree, p);
      ghost var kids := KidsOf(Layout(tree, 0), p);
      KidsIndexed(aPos, Layout(tree, 0), p);
      LastChain(InnerOf(tree, p), 0, InnerStart(tree, p));
      last := 0;
      var next := aPos[p].child;
      ghost var rest := kids;
      while next != 0
        invariant Indexed(aPos, rest, p) && next == Head(rest) && ChainLast(rest, last) == ChainLast(kids, 0)
        decreases rest
      {
        last := next;
        next := aPos[next].next;
        rest := rest.next;
      }
    }

    /** x_GetFreePos. */
    method GetFreePos() returns (slot: nat)
      requires 2 <= |aPos| && 1 <= iPosFree <= |aPos|
      modifies this`aPos, this`iPosFree
      ensures slot == old(iPosFree) && iPosFree == slot + 1 <= |aPos|
      ensures |old(aPos)| <= |aPos| && aPos[..|old(aPos)|] == old(aPos)
    {
      if iPosFree == |aPos| {
        aPos := aPos + seq(iPosFree + iPosFree / 2 - |aPos|, i => CLEAR);
      }
      slot := iPosFree;
      iPosFree := iPosFree + 1;
    }

    /** The loop of x_ParseElem that looks for a start tag behind `n`, moving the end of the parent `p` along. */
    method FindStart(p: nat, n: nat) returns (st: Start)
      requires n <= |doc| && p < |aPos| && !StartAt(doc, n).Endless?
      modifies this`aPos
      ensures st == StartAt(doc, n)
      ensures |aPos| == |old(aPos)| && aPos == old(aPos)[p := old(aPos)[p].(endL := aPos[p].endL)]
      ensures st.EndMark? ==> aPos[p].endL == st.at
    {
      hide NodeAt, TokenAt, FindAny;
      var next := n;
      while true
        invariant next <= |doc| && StartAt(doc, n) == StartAt(doc, next)
        invariant |aPos| == |old(aPos)| && aPos == old(aPos)[p := old(aPos)[p].(endL := aPos[p].endL)]
        decreases |doc| - next
      {
        var at, found := FindChar(doc, next, '<');
        if !found { return Failed; }
        aPos := aPos[p := aPos[p].(endL := at)];
        var t := FindToken(doc, at + 1);
        if !t.found || t.isString { return Failed; }
        if doc[t.nL] == '?' || doc[t.nL] == '!' {
          var kind, after := ParseNode(doc, at);
          if kind == NoNode { return Failed; }
          next := after;
        } else if doc[t.nL] == '/' {
          return EndMark(at);
        } else {
          var r, closed := FindChar(doc, t.next, '>');
          return if closed then MarkupParse.Open(at, doc[t.nL..t.next], r) else Failed;
        }
      }
    }

    /** x_ParseElem: the slot of the element parsed, 0 at an end tag, -1 on a parse error. */
    method ParseElem(p: nat) returns (pos: int)
      requires p < iPosFree <= |aPos| && 2 <= |aPos| && 0 <= aPos[p].endL <= |doc|
      requires !MarkupParse.ParseElem(doc, aPos[p].endL, iPosFree).Diverges?
      modifies this`aPos, this`iPosFree
      ensures old(iPosFree) <= iPosFree <= |aPos| && OnlyEndL(old(aPos), aPos, old(iPosFree), p)
      ensures match old(MarkupParse.ParseElem(doc, aPos[p].endL, iPosFree)) {
                case Elem(nd, free) => pos == nd.slot && nd.slot == old(iPosFree) && iPosFree == free &&
                    Indexed(aPos, nd, p)
                case NoElem(at) => pos == 0 && iPosFree == old(iPosFree) && aPos[p].endL == at
                case _ => pos == -1
              }
      decreases |doc| - aPos[p].endL, 0
    {
      hide StartAt, EndTagAt, ParseKids, Linked, Placed;
      var n: nat := aPos[p].endL;
      var slot := GetFreePos();
      aPos := aPos[slot := aPos[slot].(startL := n, parent := p, child := 0, next := 0)];
      var st := FindStart(p, n);
      match st {
        case Failed =>
          iPosFree := iPosFree - 1;
          return -1;
        case EndMark(_) =>
          iPosFree := iPosFree - 1;
          return 0;
        case Open(at, name, startR) =>
          aPos := aPos[slot := aPos[slot].(startL := at, startR := startR)];
          if doc[startR - 1] == '/' {
            aPos := aPos[slot := aPos[slot].(endL := startR - 1, endR := startR)];
            LeafIndexed(aPos, slot, p);
            return slot;
          }
          aPos := aPos[slot := aPos[slot].(endL := startR + 1)];
          ghost var kids := ParseKids(doc, startR + 1, iPosFree);
          var inner := ParseInner(slot);
          if inner == -1 { return -1; }
          // the failed search for another child stopped at the '<' of the end tag
          var endR := FindEndTag(doc, aPos[slot].endL + 1, name);
          if endR == |doc| {
            iPosFree := iPosFree - 1;
            return -1;
          }
          ghost var a1 := aPos;
          aPos := aPos[slot := aPos[slot].(endR := endR)];
          BranchIndexed(a1, aPos, slot, p, kids.list);
          return slot;
      }
    }

    /** The loop of x_ParseElem over the children of `pos`. */
    method ParseInner(pos: nat) returns (inner: int)
      requires pos < iPosFree <= |aPos| && 2 <= |aPos| && 0 <= aPos[pos].endL <= |doc| && aPos[pos].child == 0
      requires !ParseKids(doc, aPos[pos].endL, iPosFree).DivergesKids?
      modifies this`aPos, this`iPosFree
      ensures old(iPosFree) <= iPosFree <= |aPos|
      ensures match old(ParseKids(doc, aPos[pos].endL, iPosFree)) {
                case Kids(list, at, free) =>
                  && inner == 0 && iPosFree == free && KidsSoFar(old(aPos), aPos, old(iPosFree), free, pos,
                       ChainLast(list, 0), list)
                  && aPos[pos].endL == at
                case _ => inner == -1
              }
      ensures |old(aPos)| <= |aPos| && forall k :: 0 <= k < old(iPosFree) && k != pos ==> aPos[k] == old(aPos)[k]
      decreases |doc| - aPos[pos].endL, 1
    {
      hide MarkupParse.ParseElem, ParseKids, ChainLast, Append, Numbered, Linked, Placed, Distinct, Slots, LinkKid;
      ghost var a0, free0, spec := aPos, iPosFree, ParseKids(doc, aPos[pos].endL, iPosFree);
      ghost var acc := Nil;
      var prev := 0;
      KidsStart(aPos, iPosFree, pos);
      ResumeNil(spec);
      while true
        invariant KidsSoFar(a0, aPos, free0, iPosFree, pos, prev, acc)
        invariant 0 <= aPos[pos].endL <= |doc| && old(aPos)[pos].endL <= aPos[pos].endL
        invariant spec == Resume(acc, ParseKids(doc, aPos[pos].endL, iPosFree))
        decreases |doc| - aPos[pos].endL
      {
        ghost var a, free, n: nat := aPos, iPosFree, aPos[pos].endL;
        ResumeStep(acc, doc, n, free);
        ParseElemSound(doc, n, free);
        inner := ParseElem(pos);
        if inner <= 0 {
          KidsStop(a0, a, aPos, free0, free, pos, prev, acc);
          break;
        }
        ghost var nd := MarkupParse.ParseElem(doc, n, free).node;
        KidStep(a0, a, aPos, free0, free, iPosFree, pos, prev, acc, nd);
        aPos := LinkKid(aPos, pos, prev, inner);
        prev := inner;
        acc := Append(acc, nd);
      }
      AppendNil(acc);
    }

    /** The record of the new element: offsets as x_AddElem computes them. */
    method NewRecord(slot: nat, offset: nat, name: string, value: string) returns (ins: string, rec: ElemPos)
      requires slot > 0
      ensures ins == RenderE(NewElem(slot, name, value)) + "\r\n"
      ensures var nx := LayoutE(NewElem(slot, name, value), offset, Nil);
              rec == ElemPos(nx.startL, nx.startR, nx.endL, nx.endR, 0, 0, 0)
    {
      hide Escape;
      var lenName := |name|;
      if value == "" {
        ins := "<" + name + "/>\r\n";
        assert "/>\r\n" == "/>" + "\r\n";
        assert ins == ("<" + name + "/>") + "\r\n";
        var startR := offset + lenName + 2;
        rec := ElemPos(offset, startR, startR - 1, startR, 0, 0, 0);
      } else {
        var text := TextToDoc(value, false);
        ins := "<" + name + ">" + text + "</" + name + ">\r\n";
        EndText(text);
        assert ">\r\n" == ">" + "\r\n";
        assert ins == ("<" + name + ">") + text + ("</" + name + ">") + "\r\n";
        var startR := offset + lenName + 1;
        var endL := startR + |text| + 1;
        rec := ElemPos(offset, startR, endL, endL + lenName + 2, 0, 0, 0);
      }
    }

    /** x_AddElem below the document or an element with an end tag. */
    method PutNew(p: nat, before: nat, offset: nat, name: string, value: string, ghost k: nat) returns (slot: nat)
      requires Coherent() && NameOk(name) && Place(tree, p, before, k, offset) && (p == 0 ==> tree.End?)
      modifies this`doc, this`aPos, this`tree, this`iPosFree
      ensures Coherent() && slot == old(iPosFree) && iPosFree == slot + 1
      ensures tree == WithInner(old(tree), p, InsertKid(InnerOf(old(tree), p), before, k, NewElem(slot, name, value),
                  "\r\n"))
      ensures SlotsC(tree) == old(SlotsC(tree)) + {slot} && slot < |aPos| && aPos[slot].parent == p
      ensures forall s :: s in old(SlotsC(tree)) ==> s < |aPos| && s < |old(aPos)| &&
                                                     aPos[s].parent == old(aPos)[s].parent
    {
      hide Render, RenderE, Wf, WfE, Layout, LayoutE, IndexOk, SlotsC, ElemOf, Indexed, Distinct, Slots, NodeOf,
        LinkBelow, AdjustAt, WithInner, InsertKid, InnerStart, InnerOf, GapStart, GapAt, TopSlots, LenE, GapFrom,
        NewElem;
      ghost var c, o, a0, free := tree, Layout(tree, 0), aPos, iPosFree;
      IndexParts(aPos, iPosFree, tree);
      QChain(aPos, iPosFree, tree, p, before);
      slot := GetFreePos();
      var ins, rec := NewRecord(slot, offset, name, value);
      ghost var x := NewElem(slot, name, value);
      ghost var nx := LayoutE(x, offset, Nil);
      NewKid(slot, name, value, offset);
      NewElemWf(slot, name, value);
      NoMarkGap("\r\n");
      InsertTextOk(c, p, before, k, x, "\r\n");
      LenRenderE(x);
      LinkNew(slot, p, before, rec);
      ghost var a1 := aPos;
      assert LinkedIn(a0, a1, o, p, before, nx) by { NilIndexed(a1, slot); }
      NewLinked(a0, a1, free, c, p, before, nx);
      doc := Splice(doc, offset, 0, ins);
      AdjustTree(slot, |ins|, false, LinkBelow(o, p, before, nx));
      AddedIndex(a0, a1, aPos, free, iPosFree, c, p, before, k, x, "\r\n", false);
      tree := WithInner(c, p, InsertKid(InnerOf(c, p), before, k, x, "\r\n"));
    }

    /** x_AddElem below an empty element, which gets an end tag. */
    method OpenNew(p: nat, offset: nat, name: string, value: string) returns (slot: nat)
      requires Coherent() && NameOk(name) && p in SlotsC(tree) && ElemOf(tree, p).Leaf? && p < |aPos| &&
               offset == aPos[p].startR + 2
      modifies this`doc, this`aPos, this`tree, this`iPosFree
      ensures Coherent() && slot == old(iPosFree) && iPosFree == slot + 1
      ensures tree == Replace(old(tree), p, Opened(old(ElemOf(tree, p)), NewElem(slot, name, value), "\r\n"))
      ensures SlotsC(tree) == old(SlotsC(tree)) + {slot} && slot < |aPos| && aPos[slot].parent == p
      ensures forall s :: s in old(SlotsC(tree)) ==> s < |aPos| && s < |old(aPos)| &&
                                                     aPos[s].parent == old(aPos)[s].parent
    {
      hide Render, RenderE, Wf, WfE, Layout, LayoutE, IndexOk, SlotsC, ElemOf, Indexed, Distinct, Slots, NodeOf,
        AdjustAt, Replace, Opened, PreOpened, PutNode, LenE, GapFrom, NewElem, TagName, Offset;
      ghost var c, o, a0, free := tree, Layout(tree, 0), aPos, iPosFree;
      ghost var e := ElemOf(tree, p);
      IndexParts(aPos, iPosFree, tree);
      RecordAt(aPos, iPosFree, tree, p);
      var parentName := GetName(p);
      slot := GetFreePos();
      var ins, rec := NewRecord(slot, offset, name, value);
      ghost var x := NewElem(slot, name, value);
      ghost var nx := LayoutE(x, offset, Nil);
      NewKid(slot, name, value, offset);
      NewElemWf(slot, name, value);
      NoMarkGap("\r\n");
      OpenOk(c, p, x, "\r\n");
      LinkNew(slot, p, 0, rec);
      aPos := aPos[p := aPos[p].(startR := aPos[p].startR - 1, endL := aPos[p].endL - (|parentName| + 1))];
      ghost var a1 := aPos;
      assert OpenedUp(a0, a1, o, p, |parentName| + 1, nx) by { NilIndexed(a1, slot); }
      OpenedIndex(a0, a1, free, c, p, nx);
      ins := ">\r\n" + ins + "</" + parentName;
      doc := Splice(doc, offset - 3, 1, ins);
      AdjustTree(slot, |ins| - 1, false, PutNode(o, p, PreOpened(NodeOf(o, p), e, nx)));
      OpenedWalked(a1, aPos, free, iPosFree, c, p, x, "\r\n", false);
      tree := Replace(c, p, Opened(e, x, "\r\n"));
    }

    /** x_AddElem: AddElem, InsertElem, AddChildElem and InsertChildElem. */
    method AddElem(name: string, value: string, insert: bool, addChild: bool) returns (ok: bool, ghost k: nat)
      requires Valid() && NameOk(name)
      requires insert && !addChild && iPosParent == 0 && tree.End? ==> RootInsertable(doc)
      modifies this
      ensures Valid()
      ensures ok == old(if addChild then iPos != 0 else iPosParent != 0 || tree.End?)
      ensures !ok ==> doc == old(doc) && aPos == old(aPos) && tree == old(tree) && iPosFree == old(iPosFree)
      ensures !ok ==> iPosParent == old(iPosParent) && iPos == old(iPos) && iPosChild == old(iPosChild)
      ensures ok ==> iPosFree == old(iPosFree) + 1
      ensures ok && addChild ==>
        && NewIn(old(tree), tree, old(iPos), old(iPosChild), insert, old(iPosFree), name, value)
        && Added(old(tree), old(doc), old(iPos), old(iPosChild), insert, k, NewElem(old(iPosFree), name, value),
             "\r\n", tree)
        && iPosParent == old(iPosParent) && iPos == old(iPos) && iPosChild == old(iPosFree)
      ensures ok && !addChild ==>
        && NewIn(old(tree), tree, old(iPosParent), old(iPos), insert, old(iPosFree), name, value)
        && Added(old(tree), old(doc), old(iPosParent), old(iPos), insert, k, NewElem(old(iPosFree), name, value),
             "\r\n", tree)
        && iPosParent == old(iPosParent) && iPos == old(iPosFree) && iPosChild == 0
    {
      hide Render, Wf, IndexOk, SlotsC, ElemOf, Added, NewElem, NewIn;
      k := 0;
      RootLink(aPos, iPosFree, tree);
      if addChild {
        if iPos == 0 { return false, 0; }
      } else if iPosParent == 0 {
        if aPos[0].child != 0 { return false, 0; }
        EndLIndex(aPos, iPosFree, tree, |doc|);
        aPos := aPos[0 := aPos[0].(endL := |doc|)];
      }
      var p := if addChild then iPos else iPosParent;
      var rel := if addChild then iPosChild else iPos;
      var slot;
      slot, k := AddBelow(p, rel, insert, name, value);
      if addChild {
        SetPos(iPosParent, iPos, slot);
      } else {
        SetPos(p, slot, 0);
      }
      ok := true;
    }

    /** x_AddElem once the parent and the relative position are known. */
    method AddBelow(p: nat, rel: nat, insert: bool, name: string, value: string) returns (slot: nat, ghost k: nat)
      requires Coherent() && NameOk(name) && (p == 0 || p in SlotsC(tree))
      requires rel == 0 || (rel in SlotsC(tree) && rel < |aPos| && aPos[rel].parent == p)
      requires p == 0 ==> tree.End? && rel == 0 && (insert ==> RootInsertable(doc)) && |aPos| > 0 &&
                          aPos[0].endL == |doc|
      modifies this`doc, this`aPos, this`tree, this`iPosFree
      ensures Coherent() && slot == old(iPosFree) && iPosFree == slot + 1
      ensures slot > 0 && Added(old(tree), old(doc), p, rel, insert, k, NewElem(slot, name, value), "\r\n", tree)
      ensures NewIn(old(tree), tree, p, rel, insert, slot, name, value)
      ensures SlotsC(tree) == old(SlotsC(tree)) + {slot} && slot < |aPos| && aPos[slot].parent == p
      ensures forall s :: s in old(SlotsC(tree)) ==> s < |aPos| && s < |old(aPos)| &&
                                                     aPos[s].parent == old(aPos)[s].parent
    {
      hide Render, Wf, IndexOk, SlotsC, ElemOf, NewElem, InnerStart, InnerOf, GapStart, GapAt, TopSlots, NewBefore,
        TrimEnd, Layout, LayoutE, WithInner, InsertKid, Replace, Opened, Splittable, GapFrom, NewIn, TopDistinct;
      RootLink(aPos, iPosFree, tree);
      IndexParts(aPos, iPosFree, tree);
      KidsApart(aPos, iPosFree, tree, p, rel);
      var offset, before;
      offset, before, k := LocateNew(p, rel, insert);
      if p != 0 { RecordAt(aPos, iPosFree, tree, p); }
      if aPos[p].IsEmptyElement() {
        slot := OpenNew(p, offset + 2, name, value);
      } else {
        slot := PutNew(p, before, offset, name, value, k);
      }
      NewInIs(old(tree), old(doc), p, rel, insert, k, slot, name, value, tree);
    }

    // ----- subdocuments ------------------------------------------------------

    /** AddChildSubDoc and InsertChildSubDoc (x_AddSubDoc): a failing parse is undone completely; `x` and `tail` name
        the subdocument when it is an element and what follows it. */
    method AddChildSubDoc(sub: string, insert: bool, ghost x: Elem, ghost tail: string) returns (ok: bool, ghost k: nat)
      requires Valid()
      requires iPos != 0 ==> Stops(sub)
      requires iPos != 0 ==> Rooted(sub[Skipped(sub)..], x, tail) ||
                             var t := SubText(tree, doc, iPos, iPosChild, insert, sub[Skipped(sub)..]);
                             !MarkupParse.ParseElem(t.0, t.1, iPosFree).Diverges?
      modifies this
      ensures ok == old(iPos != 0 && var t := SubText(tree, doc, iPos, iPosChild, insert, sub[Skipped(sub)..]);
                                     MarkupParse.ParseElem(t.0, t.1, iPosFree).Elem?)
      ensures !ok ==> Valid() && RolledBack(old(aPos), old(iPosFree), old(doc), old(tree))
                      && iPosParent == old(iPosParent) && iPos == old(iPos) && iPosChild == old(iPosChild)
      ensures old(iPos) != 0 && Rooted(sub[Skipped(sub)..], x, tail) ==>
        && ok && Valid() && iPosFree == old(iPosFree) + CountE(x)
        && Added(old(tree), old(doc), old(iPos), old(iPosChild), insert, k, NumberE(x, old(iPosFree)), tail, tree)
        && GraftIn(old(tree), tree, old(iPos), old(iPosChild), insert, NumberE(x, old(iPosFree)), tail)
        && iPosParent == old(iPosParent) && iPos == old(iPos) && iPosChild == old(iPosFree)
    {
      hide Render, Wf, WfE, IndexOk, SlotsC, GapFrom, MarkupParse.ParseElem, SubText, Added, RenderE, NumberE,
        CountE, Skipped, Stops, AtStop, GraftIn, Rooted, Layout, LayoutE, Indexed, Distinct;
      k := 0;
      IndexParts(aPos, iPosFree, tree);
      if iPos == 0 { return false, 0; }
      var n := SkipProlog(sub);
      var slot;
      slot, k := AddSubBelow(iPos, iPosChild, insert, sub[n..], x, tail);
      ok := slot != 0;
      if ok {
        iPosChild, nodeType := slot, MNT_ELEMENT;
      }
    }

    /** x_AddSubDoc once the parent and the relative position are known. */
    method AddSubBelow(p: nat, rel: nat, insert: bool, ins: string, ghost x: Elem, ghost tail: string)
      returns (slot: nat, ghost k: nat)
      requires Coherent() && p != 0 && p in SlotsC(tree)
      requires rel == 0 || (rel in SlotsC(tree) && rel < |aPos| && aPos[rel].parent == p)
      requires Rooted(ins, x, tail) || var t := SubText(tree, doc, p, rel, insert, ins);
               !MarkupParse.ParseElem(t.0, t.1, iPosFree).Diverges?
      modifies this`doc, this`aPos, this`tree, this`iPosFree
      ensures (slot != 0) == old(var t := SubText(tree, doc, p, rel, insert, ins);
                MarkupParse.ParseElem(t.0, t.1, iPosFree).Elem?)
      ensures slot == 0 ==> RolledBack(old(aPos), old(iPosFree), old(doc), old(tree)) && Coherent()
      ensures Rooted(ins, x, tail) ==>
        && slot == old(iPosFree) > 0 && Coherent() && iPosFree == slot + CountE(x)
        && Added(old(tree), old(doc), p, rel, insert, k, NumberE(x, slot), tail, tree)
        && GraftIn(old(tree), tree, p, rel, insert, NumberE(x, slot), tail)
        && old(SlotsC(tree)) <= SlotsC(tree) && slot in SlotsC(tree) && slot < |aPos| && aPos[slot].parent == p
        && forall s :: s in old(SlotsC(tree)) ==> s < |aPos| && s < |old(aPos)| && aPos[s].parent == old(aPos)[s].parent
    {
      hide Render, Wf, WfE, IndexOk, SlotsC, ElemOf, NewBefore, TrimEnd, Layout, LayoutE, WithInner, InsertKid,
        Replace, Opened, Splittable, GapFrom, MarkupParse.ParseElem, SubText, Place, NewPlace, Added, RenderE,
        NumberE, CountE, TopSlots, InnerOf, GapStart, GapAt, InnerStart, GraftIn, TopDistinct;
      var offset, before;
      IndexParts(aPos, iPosFree, tree);
      KidsApart(aPos, iPosFree, tree, p, rel);
      offset, before, k := LocateNew(p, rel, insert);
      RecordAt(aPos, iPosFree, tree, p);
      if aPos[p].IsEmptyElement() {
        LeafText(tree, doc, p, rel, insert, ins);
        AddedOpen(tree, doc, p, rel, insert, k, NumberE(x, iPosFree), tail);
        slot := OpenSub(p, ins, x, tail);
      } else {
        PlaceBound(tree, p, before, k, offset);
        AddedAt(tree, doc, p, rel, insert, before, k, NumberE(x, iPosFree), tail);
        SubTextAt(tree, doc, p, rel, insert, ins, before, k, offset);
        slot := SpliceSub(p, before, offset, ins, k, x, tail);
      }
      if Rooted(ins, x, tail) {
        NumberSlot(x, slot);
        GraftInIs(old(tree), old(doc), p, rel, insert, k, NumberE(x, slot), tail, tree);
      }
    }

    /** Nothing happened, except that the position array may have grown and unused records changed. */
    ghost predicate RolledBack(a: seq<ElemPos>, free: nat, text: string, c: Content)
      reads this
    {
      && doc == text && tree == c && iPosFree == free && |a| <= |aPos| && free <= |a|
      && forall k :: 0 <= k < free ==> aPos[k] == a[k]
    }

    /** The part of x_AddSubDoc that changes the text, parses it from `start` and, if that fails, takes everything
        back. */
    method ParsePatch(p: nat, left: nat, replace: nat, ins: string, revert: string, start: nat) returns (slot: nat)
      requires Coherent() && p in SlotsC(tree) && left + replace <= |doc| && doc[left..left + replace] == revert
      requires start <= |doc| - replace + |ins|
      requires !MarkupParse.ParseElem(Splice(doc, left, replace, ins), start, iPosFree).Diverges?
      modifies this`doc, this`aPos, this`iPosFree
      ensures (slot != 0) == old(MarkupParse.ParseElem(Splice(doc, left, replace, ins), start, iPosFree)).Elem?
      ensures slot == 0 ==> RolledBack(old(aPos), old(iPosFree), old(doc), old(tree)) && Coherent()
      ensures slot != 0 ==>
        var r := old(MarkupParse.ParseElem(Splice(doc, left, replace, ins), start, iPosFree));
        var nd := r.node;
        && doc == Splice(old(doc), left, replace, ins) && slot == nd.slot == old(iPosFree)
        && iPosFree == r.free <= |aPos|
        && nd.next.Nil? && Indexed(aPos, nd, p) && Numbered(nd, old(iPosFree)) && r.free == old(iPosFree) + Count(nd)
        && |old(aPos)| <= |aPos| && forall k :: 0 <= k < old(iPosFree) ==> aPos[k] == old(aPos)[k]
    {
      hide Render, Wf, Layout, IndexOk, SlotsC, Indexed, Distinct, Slots, MarkupParse.ParseElem, Splice, Numbered,
        Count, Nested, Marked;
      ghost var a0, d0 := aPos, doc;
      IndexParts(aPos, iPosFree, tree);
      var endLBefore, freeBefore := aPos[p].endL, iPosFree;
      aPos := aPos[p := aPos[p].(endL := start)];
      doc := Splice(doc, left, replace, ins);
      ParseElemSound(doc, start, iPosFree);
      ghost var r := MarkupParse.ParseElem(doc, start, iPosFree);
      var pos := ParseElem(p);
      ghost var parsed := aPos;
      aPos := aPos[p := aPos[p].(endL := endLBefore)];
      if pos <= 0 {
        SpliceUndo(d0, left, replace, ins);
        doc := Splice(doc, left, |ins|, revert);
        iPosFree := freeBefore;
        IndexKept(a0, aPos, iPosFree, tree);
        return 0;
      }
      slot := pos;
      EndLKept(parsed, aPos, r.node, p, freeBefore);
    }

    /** x_AddSubDoc below an element with an end tag; 0 if the parse fails. */
    method SpliceSub(p: nat, before: nat, offset: nat, ins: string, ghost k: nat, ghost x: Elem, ghost tail: string)
      returns (slot: nat)
      requires Coherent() && p != 0 && Place(tree, p, before, k, offset) && offset <= |doc|
      requires Rooted(ins, x, tail) || !MarkupParse.ParseElem(Splice(doc, offset, 0, ins), offset, iPosFree).Diverges?
      modifies this`doc, this`aPos, this`tree, this`iPosFree
      ensures (slot != 0) == old(MarkupParse.ParseElem(Splice(doc, offset, 0, ins), offset, iPosFree)).Elem?
      ensures slot == 0 ==> RolledBack(old(aPos), old(iPosFree), old(doc), old(tree)) && Coherent()
      ensures Rooted(ins, x, tail) ==>
        && slot == old(iPosFree) && Coherent() && iPosFree == slot + CountE(x)
        && tree == WithInner(old(tree), p, InsertKid(InnerOf(old(tree), p), before, k, NumberE(x, slot), tail))
        && old(SlotsC(tree)) <= SlotsC(tree) && slot in SlotsC(tree) && slot < |aPos| && aPos[slot].parent == p
        && forall s :: s in old(SlotsC(tree)) ==> s < |aPos| && s < |old(aPos)| && aPos[s].parent == old(aPos)[s].parent
    {
      hide Render, RenderE, Wf, WfE, Layout, LayoutE, IndexOk, SlotsC, ElemOf, Indexed, Distinct, Slots, NodeOf,
        LinkBelow, AdjustAt, WithInner, InsertKid, InnerStart, InnerOf, GapStart, GapAt, TopSlots, LenE, GapFrom,
        MarkupParse.ParseElem, LinkedIn, NumberE, CountE, Splice, Numbered, Count;
      ghost var c, o, a0, d0 := tree, Layout(tree, 0), aPos, doc;
      IndexParts(aPos, iPosFree, tree);
      QChain(aPos, iPosFree, tree, p, before);
      var freeBefore := iPosFree;
      ghost var r := MarkupParse.ParseElem(Splice(doc, offset, 0, ins), offset, iPosFree);
      if Rooted(ins, x, tail) {
        PlainRoot(d0, offset, ins, x, tail, freeBefore);
      }
      slot := ParsePatch(p, offset, 0, ins, "", offset);
      if slot == 0 { return 0; }
      ghost var a1 := aPos;
      LinkNew(slot, p, before, aPos[slot]);
      ghost var a2 := aPos;
      ParsedLinked(a0, a1, a2, freeBefore, iPosFree, c, p, before, r.node);
      NewLinked(a0, a2, freeBefore, c, p, before, r.node);
      AdjustTree(slot, |ins|, true, LinkBelow(o, p, before, r.node));
      if Rooted(ins, x, tail) {
        ghost var y := NumberE(x, freeBefore);
        InsertTextOk(c, p, before, k, y, tail);
        AddedIndex(a0, a2, aPos, freeBefore, iPosFree, c, p, before, k, y, tail, true);
        tree := WithInner(c, p, InsertKid(InnerOf(c, p), before, k, y, tail));
      }
    }

    /** x_AddSubDoc below an empty element, which gets an end tag; 0 if the parse fails. */
    method OpenSub(p: nat, sub: string, ghost x: Elem, ghost tail: string) returns (slot: nat)
      requires Coherent() && p in SlotsC(tree) && ElemOf(tree, p).Leaf? &&
               Offset(tree, p) + |ElemOf(tree, p).tag| + 1 < |doc|
      requires var e, at := ElemOf(tree, p), Offset(tree, p) + |ElemOf(tree, p).tag| + 1;
               Rooted(sub, x, tail) || !MarkupParse.ParseElem(Splice(doc, at, 1, OpenWith(sub, TagName(e.tag))),
                   at + 3, iPosFree).Diverges?
      modifies this`doc, this`aPos, this`tree, this`iPosFree
      ensures var e, at := old(ElemOf(tree, p)), old(Offset(tree, p) + |ElemOf(tree, p).tag| + 1);
              (slot != 0) == MarkupParse.ParseElem(Splice(old(doc), at, 1, OpenWith(sub, TagName(e.tag))), at + 3,
                  old(iPosFree)).Elem?
      ensures slot == 0 ==> RolledBack(old(aPos), old(iPosFree), old(doc), old(tree)) && Coherent()
      ensures Rooted(sub, x, tail) ==>
        && slot == old(iPosFree) && Coherent() && iPosFree == slot + CountE(x)
        && tree == Replace(old(tree), p, Opened(old(ElemOf(tree, p)), NumberE(x, slot), tail))
        && old(SlotsC(tree)) <= SlotsC(tree) && slot in SlotsC(tree) && slot < |aPos| && aPos[slot].parent == p
        && forall s :: s in old(SlotsC(tree)) ==> s < |aPos| && s < |old(aPos)| && aPos[s].parent == old(aPos)[s].parent
    {
      hide Render, RenderE, Wf, WfE, Layout, LayoutE, IndexOk, SlotsC, ElemOf, Indexed, Distinct, Slots, NodeOf,
        AdjustAt, Replace, Opened, PreOpened, PutNode, LenE, GapFrom, TagName, Offset, MarkupParse.ParseElem,
        OpenedUp, NumberE, CountE, Splice, Numbered, Count;
      ghost var c, o, a0, d0, e := tree, Layout(tree, 0), aPos, doc, ElemOf(tree, p);
      IndexParts(aPos, iPosFree, tree);
      RecordAt(aPos, iPosFree, tree, p);
      SlashAt(c, p);
      var name := GetName(p);
      var ins := ">\r\n" + sub + "</" + name;
      var left := aPos[p].startR - 1;
      var freeBefore := iPosFree;
      ghost var r := MarkupParse.ParseElem(Splice(doc, left, 1, ins), left + 3, iPosFree);
      if Rooted(sub, x, tail) {
        OpenRoot(d0, left, sub, x, tail, name, freeBefore);
      }
      slot := ParsePatch(p, left, 1, ins, "/", left + 3);
      if slot == 0 { return 0; }
      ghost var a1 := aPos;
      LinkNew(slot, p, 0, aPos[slot]);
      aPos := aPos[p := aPos[p].(startR := aPos[p].startR - 1, endL := aPos[p].endL - (|name| + 1))];
      ghost var a2 := aPos;
      ParsedOpened(a0, a1, a2, freeBefore, iPosFree, c, p, |name| + 1, r.node);
      OpenedIndex(a0, a2, freeBefore, c, p, r.node);
      HeadSlot(r.node);
      AdjustTree(slot, |ins| - 1, true, PutNode(o, p, PreOpened(NodeOf(o, p), e, r.node)));
      if Rooted(sub, x, tail) {
        ghost var y := NumberE(x, freeBefore);
        OpenOk(c, p, y, tail);
        OpenedWalked(a2, aPos, freeBefore, iPosFree, c, p, y, tail, true);
        tree := Replace(c, p, Opened(e, y, tail));
      }
    }

    /** The links x_AddElem and x_AddSubDoc set for an element that joins its siblings. */
    method LinkNew(slot: nat, p: nat, before: nat, rec: ElemPos)
      requires slot < |aPos| && p < slot && before < slot
      modifies this`aPos
      ensures |aPos| == |old(aPos)|
      ensures aPos[slot] ==
              rec.(parent := p, next := if before != 0 then old(aPos)[before].next else old(aPos)[p].child)
      ensures forall k :: 0 <= k < |aPos| && k != slot ==>
        aPos[k] == if before != 0 && k == before then old(aPos)[k].(next := slot)
                   else if before == 0 && k == p then old(aPos)[k].(child := slot) else old(aPos)[k]
    {
      if before != 0 {
        aPos := aPos[slot := rec.(parent := p, next := aPos[before].next)];
        aPos := aPos[before := aPos[before].(next := slot)];
      } else {
        aPos := aPos[slot := rec.(parent := p, next := aPos[p].child)];
        aPos := aPos[p := aPos[p].(child := slot)];
      }
    }

    /** x_Adjust. */
    method Adjust(pos: nat, shift: int, afterPos: bool, ghost path: Path)
      requires path.Step? && path.node.At? && path.node.slot == pos
      requires PathOk(path) && PathLinked(aPos, path)
      requires !afterPos ==> Linked(aPos, path.node.child, pos) && aPos[pos].child == Head(path.node.child)
      modifies this`aPos
      ensures aPos == Apply(old(aPos), Visits(path, afterPos), shift)
    {
      var iPos := pos;
      var iPosTop := aPos[iPos].parent;
      var posFirst := afterPos;
      ghost var a0 := aPos;
      ghost var cur, top := path, path.up;
      ghost var all := Visits(path, afterPos);
      ghost var done: seq<Visit>, rest := [], all;
      StartWalk(aPos, path, afterPos);
      while iPos != 0
        invariant aPos == Apply(a0, done, shift)
        invariant all == done + rest
        invariant Standing(aPos, cur, top, posFirst, rest)
        invariant iPos == UpSlot(cur) && iPosTop == UpSlot(top)
        decreases |rest|
      {
        Leaving(aPos, cur, top, posFirst, rest);
        var posTop := false;
        if iPos == iPosTop {
          iPosTop := aPos[iPos].parent;
          posTop := true;
          top := cur.up;
        }
        iPos, cur := NextPos(iPos, iPosTop, !posTop && !posFirst, cur, top, rest);
        posFirst := false;
        ApplySnoc(a0, done, rest[0], shift);
        MoveOne(all, done, rest);
        StandingFrame(aPos, rest[0], shift, cur, top, posFirst, rest[1..]);
        ShiftAt(iPos, iPosTop, shift);
        done, rest := done + [rest[0]], rest[1..];
      }
      assert done + rest == done;
    }

    /** The shift of one record in x_Adjust. */
    method ShiftAt(iPos: nat, iPosTop: nat, shift: int)
      requires iPos < |aPos|
      modifies this`aPos
      ensures aPos == ShiftOne(old(aPos), Visit(iPos, iPos != iPosTop), shift)
    {
      if iPos != iPosTop {
        aPos := aPos[iPos := aPos[iPos].AdjustStart(shift)];
      }
      aPos := aPos[iPos := aPos[iPos].AdjustEnd(shift)];
    }

    /** The traversal step of x_Adjust: into the children, or to the next sibling, or up. */
    method NextPos(pos: nat, iPosTop: nat, descend: bool, ghost path: Path, ghost top: Path, ghost todo: seq<Visit>)
      returns (iPos: nat, ghost cur: Path)
      requires path.Step? && path.node.At? && path.node.slot == pos
      requires PathOk(path) && PathLinked(aPos, path) && path != top && Below(path.up, top) && iPosTop == UpSlot(top)
      requires descend ==> Linked(aPos, path.node.child, pos) && aPos[pos].child == Head(path.node.child)
      requires todo == Pending(path, top, descend)
      ensures iPos == UpSlot(cur) && iPos < |aPos|
      ensures todo != [] && todo[0] == Visit(iPos, iPos != iPosTop)
      ensures Standing(aPos, cur, top, false, todo[1..])
    {
      iPos, cur := pos, path;
      if descend && aPos[iPos].child != 0 {
        iPos := aPos[iPos].child;
        Enter(cur.node.child, cur, top);
        cur := Step(cur.node.child, cur);
      } else if aPos[iPos].next != 0 {
        iPos := aPos[iPos].next;
        Enter(cur.node.next, cur.up, top);
        cur := Step(cur.node.next, cur.up);
      } else {
        LeaveLast(cur, top);
        iPos := aPos[iPos].parent;
        cur := cur.up;
        while iPos != 0 && iPos != iPosTop
          invariant PathOk(cur) && PathLinked(aPos, cur) && Below(cur, top) && iPos == UpSlot(cur)
          invariant Left(path, top) == Climb(cur, top)
          decreases cur
        {
          if aPos[iPos].next != 0 {
            iPos := aPos[iPos].next;
            Enter(cur.node.next, cur.up, top);
            cur := Step(cur.node.next, cur.up);
            return;
          }
          LeaveLast(cur, top);
          iPos := aPos[iPos].parent;
          cur := cur.up;
        }
        AtTop(cur, top);
      }
    }
  }
}

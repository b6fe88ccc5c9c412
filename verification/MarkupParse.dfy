/**
 x_ParseElem and x_ParseNode as functions of the text: the outline a parse
 computes, with the slot numbers it hands out.
 */
module MarkupParse {
  import opened TextScan
  import opened ElemIndex

  datatype NodeKind = NoNode | Element | Text | Whitespace | CData | Instruction | Comment | DocType

  /** The node that starts at `n`, and the position after it (0 when there is none). */
  function NodeAt(s: string, n: nat): (r: (NodeKind, nat))
    requires n <= |s|
    ensures r.1 <= |s| && (r.0 !in {NoNode, Element} ==> n < r.1)
  {
    if n == |s| then (NoNode, 0)
    else if s[n] == '<' then
      if n + 2 >= |s| then (NoNode, 0)
      else if s[n + 1] == '?' then Delimited(s, n, Instruction, "?>")
      else if s[n + 1] == '!' then
        if s[n + 2] == '[' then Delimited(s, n, CData, "]]>")
        else if s[n + 2] == '-' then Delimited(s, n, Comment, "-->")
        else var e := DocTypeEnd(s, n, 0); if e == 0 then (NoNode, 0) else (DocType, e)
      else if s[n + 1] == '/' then (NoNode, 0)
      else (Element, n)
    else
      var t := TokenAt(s, n);
      if !t.found then (Whitespace, t.next)
      else if t.nL < |s| && s[t.nL] == '<' then (Whitespace, t.nL)
      else (Text, FindAny(s, t.next, Only('<')))
  }

  function Delimited(s: string, n: nat, kind: NodeKind, close: string): (r: (NodeKind, nat))
    requires n <= |s| && close != ""
    ensures r.1 <= |s| && (r.0 != NoNode ==> n < r.1)
  {
    var e := FindStr(s, n, close);
    if e == |s| then (NoNode, 0) else (kind, e + |close|)
  }

  /** The end of a document type, found by tokens because of its strings and brackets; 0 if unfinished. */
  function DocTypeEnd(s: string, n: nat, brackets: int): (r: nat)
    requires n <= |s|
    ensures r <= |s| && (r != 0 ==> n < r)
    decreases |s| - n
  {
    var t := TokenAt(s, n);
    if !t.found then 0
    else if t.isString then DocTypeEnd(s, t.next, brackets)
    else if s[t.nL] == '[' then DocTypeEnd(s, t.next, brackets + 1)
    else if s[t.nL] == ']' then DocTypeEnd(s, t.next, brackets - 1)
    else if brackets == 0 && s[t.nL] == '>' then t.next
    else DocTypeEnd(s, t.next, brackets)
  }

  // ----- where a node ends ---------------------------------------------------

  /** The node is of the kind and ends behind the first closing mark from its start on; without one there is no node. */
  ghost predicate ClosedBy(s: string, n: nat, r: (NodeKind, nat), kind: NodeKind, close: string) {
    if r.0 == NoNode then forall i :: n <= i < |s| ==> !Has(s, i, close)
    else
      && r.0 == kind && n + |close| <= r.1 && Has(s, r.1 - |close|, close)
      && forall i :: n <= i < r.1 - |close| ==> !Has(s, i, close)
  }

  /** Instructions, CDATA sections and comments end at their own marks; an end tag, or a '<' with less than two
      characters behind it, is no node; any other '<' starts a document type, or an element, which ends nowhere yet. */
  lemma MarkedNode(s: string, n: nat)
    requires n < |s| && s[n] == '<'
    ensures n + 2 >= |s| ==> NodeAt(s, n).0 == NoNode
    ensures n + 2 < |s| && s[n + 1] == '?' ==> ClosedBy(s, n, NodeAt(s, n), Instruction, "?>")
    ensures n + 2 < |s| && s[n + 1] == '!' && s[n + 2] == '[' ==> ClosedBy(s, n, NodeAt(s, n), CData, "]]>")
    ensures n + 2 < |s| && s[n + 1] == '!' && s[n + 2] == '-' ==> ClosedBy(s, n, NodeAt(s, n), Comment, "-->")
    ensures n + 2 < |s| && s[n + 1] == '!' && s[n + 2] != '[' && s[n + 2] != '-' ==> NodeAt(s, n).0 in {NoNode, DocType}
    ensures n + 2 < |s| && s[n + 1] == '/' ==> NodeAt(s, n).0 == NoNode
    ensures n + 2 < |s| && s[n + 1] !in "?!/" ==> NodeAt(s, n) == (Element, n)
  {
    hide FindStr, DocTypeEnd;
  }

  /** A document type without quotes and brackets ends at the first '>'. */
  lemma {:induction false} PlainDocType(s: string, n: nat, j: nat)
    requires n <= j < |s| && s[j] == '>' && forall i :: n <= i < j ==> s[i] !in ">[]" && !IsQuote(s[i])
    ensures DocTypeEnd(s, n, 0) == j + 1
    decreases j - n
  {
    hide FindAny, SkipAny;
    var t := TokenAt(s, n);
    var b := SkipAny(s, n, Blank);
    assert b <= j;
    if b < j {
      assert Is(Separator, s[j]);
      PlainDocType(s, t.next, j);
    }
  }

  /** Text that does not begin with a quote goes up to the next mark, and is white space exactly if it is all blank. */
  lemma PlainNode(s: string, n: nat, b: nat)
    requires n < |s| && s[n] != '<' && n <= b <= |s| && (forall i :: n <= i < b ==> Is(Blank, s[i]))
    requires b < |s| ==> !Is(Blank, s[b]) && !IsQuote(s[b])
    ensures var r := NodeAt(s, n);
            && n < r.1 && (r.1 == |s| || s[r.1] == '<') && (forall i :: n <= i < r.1 ==> s[i] != '<')
            && r.0 == (if b == |s| || s[b] == '<' then Whitespace else Text)
  {
    hide FindAny, SkipAny;
    if b < |s| { SkipAnyIs(s, n, Blank, b); }
    var t := TokenAt(s, n);
    forall i | b < i < t.next && t.found ensures s[i] != '<' { assert !Is(Separator, s[i]); }
  }

  /** What the search for a start tag meets. */
  datatype Start =
    | Failed                                          // x_ParseError
    | Endless                                         // "<", blanks, "?" or "!": the search stays where it is
    | EndMark(at: nat)                                // an end tag
    | Open(at: nat, name: string, startR: nat)        // a start tag, from '<' to its '>'

  function StartAt(s: string, n: nat): (r: Start)
    requires n <= |s|
    ensures r.EndMark? ==> n <= r.at < |s|
    ensures r.Open? ==> n <= r.at && r.at + 1 < r.startR < |s|
    decreases |s| - n
  {
    var at := FindAny(s, n, Only('<'));
    if at == |s| then Failed
    else
      var t := TokenAt(s, at + 1);
      if !t.found || t.isString then Failed
      else if (s[t.nL] == '?' || s[t.nL] == '!') then
        if NodeAt(s, at).0 == NoNode then Failed
        else if NodeAt(s, at).0 == Element then Endless
        else StartAt(s, NodeAt(s, at).1)
      else if s[t.nL] == '/' then EndMark(at)
      else
        var r := FindAny(s, t.next, Only('>'));
        if r == |s| then Failed else Open(at, s[t.nL..t.next], r)
  }

  /** The position of the '>' that closes the end tag starting at `at`, or |s| if the end tag is refused. */
  function EndTagAt(s: string, n: nat, count: nat, name: string): (r: nat)
    requires n <= |s|
    ensures n <= r <= |s|
    decreases |s| - n
  {
    var t := TokenAt(s, n);
    if !t.found then |s|
    else if t.isString then EndTagAt(s, t.next, count + 1, name)
    else if count == 0 && s[t.nL] != '/' then |s|
    else if count == 1 && !Match(s[t.nL..t.next], name) then |s|
    else if s[t.nL] == '>' then t.nL
    else EndTagAt(s, t.next, count + 1, name)
  }

  /** TokenPos::Match. */
  predicate Match(token: string, name: string) {
    && |token| <= |name| && name[..|token|] == token
    && (|name| == |token| || name[|token|] in " =/[")
  }

  datatype Parsed =
    | Bad                                             // -1
    | Diverges                                        // never returns
    | NoElem(at: nat)                                 // 0: an end tag was met at `at`
    | Elem(node: Outline, free: nat)                  // the element parsed, and the next free slot

  datatype ParsedKids = BadKids | DivergesKids | Kids(list: Outline, at: nat, free: nat)

  /** x_ParseElem from position `n`, the next free slot being `slot`. */
  function ParseElem(s: string, n: nat, slot: Slot): (r: Parsed)
    requires n <= |s|
    ensures r.NoElem? ==> n <= r.at < |s|
    ensures r.Elem? ==> r.node.At? && n <= r.node.startL < r.node.endR < |s| && slot < r.free
    decreases |s| - n, 0
  {
    match StartAt(s, n)
    case Failed => Bad
    case Endless => Diverges
    case EndMark(at) => NoElem(at)
    case Open(at, name, startR) =>
      if s[startR - 1] == '/' then Elem(At(slot, at, startR, startR - 1, startR, Nil, Nil), slot + 1)
      else Close(s, slot, at, name, startR, ParseKids(s, startR + 1, slot + 1))
  }

  /** Matching the end tag once the children are parsed. */
  function Close(s: string, slot: Slot, at: nat, name: string, startR: nat, kids: ParsedKids): (r: Parsed)
    requires at + 1 < startR < |s| && (kids.Kids? ==> startR < kids.at < |s| && slot < kids.free)
    ensures !r.NoElem?
    ensures r.Elem? ==> r.node.At? && r.node.startL == at < r.node.endR < |s| && slot < r.free
  {
    match kids
    case BadKids => Bad
    case DivergesKids => Diverges
    case Kids(list, endL, free) =>
      var endR := EndTagAt(s, endL + 1, 0, name);
      if endR == |s| then Bad else Elem(At(slot, at, startR, endL, endR, list, Nil), free)
  }

  /** The loop over the children of an element. */
  function ParseKids(s: string, n: nat, slot: Slot): (r: ParsedKids)
    requires n <= |s|
    ensures r.Kids? ==> n <= r.at < |s| && slot <= r.free
    decreases |s| - n, 1
  {
    match ParseElem(s, n, slot)
    case Bad => BadKids
    case Diverges => DivergesKids
    case NoElem(at) => Kids(Nil, at, slot)
    case Elem(node, free) =>
      match ParseKids(s, node.endR + 1, free)
      case BadKids => BadKids
      case DivergesKids => DivergesKids
      case Kids(list, at, free') => Kids(node.(next := list), at, free')
  }

  // ----- what every successful parse yields ----------------------------------

  function Count(o: Outline): nat { if o.Nil? then 0 else 1 + Count(o.child) + Count(o.next) }

  /** Slots numbered in preorder from `slot`, none skipped. */
  predicate Numbered(o: Outline, slot: nat) {
    o.At? ==> o.slot == slot && Numbered(o.child, slot + 1) && Numbered(o.next, slot + 1 + Count(o.child))
  }

  /** Siblings disjoint and increasing inside [lo, hi), children strictly inside the content of their parent. */
  predicate Nested(o: Outline, lo: int, hi: int) {
    o.At? ==>
      && lo <= o.startL && o.startL + 1 < o.startR && o.endR < hi
      && (if o.startR == o.endL + 1 then o.child.Nil? && o.endR == o.startR
          else o.startR < o.endL && o.endL + 1 < o.endR && Nested(o.child, o.startR + 1, o.endL))
      && Nested(o.next, o.endR + 1, hi)
  }

  /** Every offset points at the mark it stands for. */
  predicate Marked(s: string, o: Outline) {
    o.At? ==>
      && 0 <= o.startL < |s| && s[o.startL] == '<' && 0 <= o.startR < |s| && s[o.startR] == '>'
      && 0 <= o.endL < |s| && s[o.endL] == (if o.startR == o.endL + 1 then '/' else '<')
      && 0 <= o.endR < |s| && s[o.endR] == '>'
      && Marked(s, o.child) && Marked(s, o.next)
  }

  lemma {:induction false} EndTagMark(s: string, n: nat, count: nat, name: string)
    requires n <= |s|
    ensures var r := EndTagAt(s, n, count, name);
            r < |s| ==> s[r] == '>' && (count == 0 ==> n < r)
    decreases |s| - n
  {
    var t := TokenAt(s, n);
    if t.found { EndTagMark(s, t.next, count + 1, name); }
  }

  lemma {:induction false} StartMark(s: string, n: nat)
    requires n <= |s|
    ensures var r := StartAt(s, n);
            && (r.EndMark? ==> s[r.at] == '<')
            && (r.Open? ==> s[r.at] == '<' && s[r.startR] == '>')
    decreases |s| - n
  {
    var at := FindAny(s, n, Only('<'));
    if at < |s| && NodeAt(s, at).0 !in {NoNode, Element} { StartMark(s, NodeAt(s, at).1); }
  }

  ghost predicate Sound(s: string, o: Outline, slot: nat, free: nat, lo: int, hi: int) {
    Numbered(o, slot) && free == slot + Count(o) && Nested(o, lo, hi) && Marked(s, o)
  }

  lemma SoundLeaf(s: string, slot: Slot, lo: int, at: nat, startR: nat)
    requires lo <= at && at + 1 < startR < |s| && s[at] == '<' && s[startR] == '>' && s[startR - 1] == '/'
    ensures Sound(s, At(slot, at, startR, startR - 1, startR, Nil, Nil), slot, slot + 1, lo, startR + 1)
  {
  }

  lemma CloseSound(s: string, slot: Slot, lo: int, at: nat, name: string, startR: nat, kids: ParsedKids)
    requires lo <= at && at + 1 < startR < |s| && s[at] == '<' && s[startR] == '>'
    requires kids.Kids? ==>
      startR < kids.at < |s| && slot < kids.free && s[kids.at] == '<' &&
          Sound(s, kids.list, slot + 1, kids.free, startR + 1, kids.at)
    ensures var r := Close(s, slot, at, name, startR, kids);
            r.Elem? ==> r.node.next.Nil? && Sound(s, r.node, slot, r.free, lo, r.node.endR + 1)
  {
    hide EndTagAt;
    if kids.Kids? {
      EndTagMark(s, kids.at + 1, 0, name);
      var endR := EndTagAt(s, kids.at + 1, 0, name);
      if endR < |s| {
        var nd := At(slot, at, startR, kids.at, endR, kids.list, Nil);
        assert Numbered(nd, slot);
        assert kids.free == slot + Count(nd);
        assert Nested(nd, lo, endR + 1);
        assert Marked(s, nd);
      }
    }
  }

  lemma SoundCons(s: string, nd: Outline, list: Outline, slot: nat, mid: nat, free: nat, lo: int, hi: int)
    requires nd.At? && nd.next.Nil? && Sound(s, nd, slot, mid, lo, nd.endR + 1)
    requires nd.endR < hi && Sound(s, list, mid, free, nd.endR + 1, hi)
    ensures Sound(s, nd.(next := list), slot, free, lo, hi)
  {
    assert Count(nd.next) == 0;
  }

  /** A successful parse numbers its slots in preorder without a leak, nests its elements, and marks its offsets. */
  lemma {:induction false} ParseElemSound(s: string, n: nat, slot: Slot)
    requires n <= |s|
    ensures var r := ParseElem(s, n, slot);
            && (r.Elem? ==> r.node.next.Nil? && Sound(s, r.node, slot, r.free, n, r.node.endR + 1))
            && (r.NoElem? ==> s[r.at] == '<')
    decreases |s| - n, 0
  {
    hide StartAt, ParseKids, Close;
    StartMark(s, n);
    var st := StartAt(s, n);
    if st.Open? && s[st.startR - 1] == '/' {
      SoundLeaf(s, slot, n, st.at, st.startR);
    } else if st.Open? {
      ParseKidsSound(s, st.startR + 1, slot + 1);
      CloseSound(s, slot, n, st.at, st.name, st.startR, ParseKids(s, st.startR + 1, slot + 1));
    }
  }

  lemma {:induction false} ParseKidsSound(s: string, n: nat, slot: Slot)
    requires n <= |s|
    ensures var r := ParseKids(s, n, slot);
            r.Kids? ==> s[r.at] == '<' && Sound(s, r.list, slot, r.free, n, r.at)
    decreases |s| - n, 1
  {
    hide ParseElem;
    ParseElemSound(s, n, slot);
    var e := ParseElem(s, n, slot);
    if e.Elem? {
      var rest := ParseKids(s, e.node.endR + 1, e.free);
      ParseKidsSound(s, e.node.endR + 1, e.free);
      if rest.Kids? { SoundCons(s, e.node, rest.list, slot, e.free, rest.free, n, rest.at); }
    }
  }

  // ----- which tags belong together ------------------------------------------

  /** The first token behind a mark, as a name. */
  predicate NamedAt(s: string, at: int, name: string) {
    && 0 <= at < |s|
    && var t := TokenAt(s, at + 1);
       t.found && !t.isString && s[t.nL] !in "?!/" && name == s[t.nL..t.next]
  }

  /** Behind the mark of an end tag stand a slash and a name that matches. */
  predicate ClosesName(s: string, endL: int, name: string) {
    && 0 <= endL < |s|
    && var x := TokenAt(s, endL + 1);
       && x.found && (x.isString || s[x.nL] == '/')
       && var y := TokenAt(s, x.next);
          y.found && (y.isString || Match(s[y.nL..y.next], name))
  }

  /** A start tag goes up to the first '>' behind its name; it has no end tag exactly if there is a slash before that,
      and otherwise its end tag has its name. */
  ghost predicate Paired(s: string, o: Outline) {
    o.At? ==>
      && (exists name :: NamedAt(s, o.startL, name) && PairedAs(s, o, name))
      && Paired(s, o.child) && Paired(s, o.next)
  }

  predicate PairedAs(s: string, o: Outline, name: string)
    requires o.At?
  {
    && 0 <= o.startL < o.startR < |s| && s[o.startR] == '>'
    && (forall i :: TokenAt(s, o.startL + 1).next <= i < o.startR ==> s[i] != '>')
    && (o.startR == o.endL + 1 <==> s[o.startR - 1] == '/')
    && (s[o.startR - 1] != '/' ==> ClosesName(s, o.endL, name))
  }

  lemma {:induction false} StartNamed(s: string, n: nat)
    requires n <= |s|
    ensures var r := StartAt(s, n);
            r.Open? ==> OpenAt(s, r.at, r.name, r.startR)
    decreases |s| - n
  {
    hide TokenAt, FindAny, NodeAt, OpenAt;
    var at := FindAny(s, n, Only('<'));
    if at < |s| {
      NameHere(s, at);
      var k := NodeAt(s, at);
      if k.0 != NoNode && k.0 != Element { StartNamed(s, k.1); }
    }
  }

  /** A start tag with its name and its first '>'. */
  predicate OpenAt(s: string, at: nat, name: string, close: nat) {
    && NamedAt(s, at, name) && close < |s| && s[close] == '>'
    && forall i :: TokenAt(s, at + 1).next <= i < close ==> s[i] != '>'
  }

  lemma NameHere(s: string, at: nat)
    requires at < |s|
    ensures var t := TokenAt(s, at + 1);
            t.found && !t.isString && s[t.nL] !in "?!/" && FindAny(s, t.next, Only('>')) < |s|
            ==> OpenAt(s, at, s[t.nL..t.next], FindAny(s, t.next, Only('>')))
  {
    hide TokenAt;
  }

  lemma EndNamed(s: string, endL: nat, name: string)
    requires endL < |s| && EndTagAt(s, endL + 1, 0, name) < |s|
    ensures ClosesName(s, endL, name)
  {
    hide TokenAt, Match;
  }

  /** In every text that is parsed the tags belong together. */
  lemma {:induction false} ParsePaired(s: string, n: nat, slot: Slot)
    requires n <= |s|
    ensures var r := ParseElem(s, n, slot); r.Elem? ==> r.node.next.Nil? && Paired(s, r.node)
    decreases |s| - n, 0
  {
    hide StartAt, ParseKids, EndTagAt, NamedAt, ClosesName, TokenAt, PairedAs;
    StartNamed(s, n);
    var st := StartAt(s, n);
    if st.Open? {
      if s[st.startR - 1] == '/' {
        var nd := At(slot, st.at, st.startR, st.startR - 1, st.startR, Nil, Nil);
        PairedIs(s, nd, st.name);
        BranchPaired(s, nd, st.name);
      } else {
        ParseKidsPaired(s, st.startR + 1, slot + 1);
        var kids := ParseKids(s, st.startR + 1, slot + 1);
        if kids.Kids? && EndTagAt(s, kids.at + 1, 0, st.name) < |s| {
          var nd := ParseElem(s, n, slot).node;
          EndNamed(s, kids.at, st.name);
          PairedIs(s, nd, st.name);
          BranchPaired(s, nd, st.name);
        }
      }
    }
  }

  lemma PairedIs(s: string, o: Outline, name: string)
    requires o.At? && 0 <= o.startL < o.startR < |s| && s[o.startR] == '>'
    requires forall i :: TokenAt(s, o.startL + 1).next <= i < o.startR ==> s[i] != '>'
    requires if s[o.startR - 1] == '/' then o.startR == o.endL + 1
             else o.startR != o.endL + 1 && ClosesName(s, o.endL, name)
    ensures PairedAs(s, o, name)
  {
    hide TokenAt, ClosesName;
  }

  lemma BranchPaired(s: string, o: Outline, name: string)
    requires o.At? && NamedAt(s, o.startL, name) && PairedAs(s, o, name) && Paired(s, o.child) && o.next.Nil?
    ensures Paired(s, o)
  {
    hide NamedAt, PairedAs;
  }

  lemma {:induction false} ParseKidsPaired(s: string, n: nat, slot: Slot)
    requires n <= |s|
    ensures var r := ParseKids(s, n, slot); r.Kids? ==> Paired(s, r.list)
    decreases |s| - n, 1
  {
    hide ParseElem, NamedAt, PairedAs;
    ParsePaired(s, n, slot);
    var e := ParseElem(s, n, slot);
    if e.Elem? {
      ParseKidsPaired(s, e.node.endR + 1, e.free);
      var rest := ParseKids(s, e.node.endR + 1, e.free);
      if rest.Kids? { NextPaired(s, e.node, rest.list); }
    }
  }

  lemma NextPaired(s: string, o: Outline, list: Outline)
    requires o.At? && Paired(s, o) && Paired(s, list)
    ensures Paired(s, o.(next := list))
  {
    hide NamedAt, PairedAs;
    var name :| NamedAt(s, o.startL, name) && PairedAs(s, o, name);
    PairedNext(s, o, list, name);
  }

  lemma PairedNext(s: string, o: Outline, list: Outline, name: string)
    requires o.At? && PairedAs(s, o, name)
    ensures PairedAs(s, o.(next := list), name)
  {
    hide TokenAt, ClosesName;
  }

  // ----- the scanners as loops -----------------------------------------------

  /** The token loop of x_ParseNode for a document type. */
  method FindDocTypeEnd(s: string, n: nat) returns (r: nat)
    requires n <= |s|
    ensures r == DocTypeEnd(s, n, 0)
  {
    var brackets, at := 0, n;
    var t := FindToken(s, at);
    while t.found
      invariant at <= |s| && t == TokenAt(s, at) && DocTypeEnd(s, n, 0) == DocTypeEnd(s, at, brackets)
      decreases |s| - at
    {
      if !t.isString {
        if s[t.nL] == '[' {
          brackets := brackets + 1;
        } else if s[t.nL] == ']' {
          brackets := brackets - 1;
        } else if brackets == 0 && s[t.nL] == '>' {
          return t.next;
        }
      }
      at := t.next;
      t := FindToken(s, at);
    }
    r := 0;
  }

  /** x_ParseNode. */
  method ParseNode(s: string, n: nat) returns (kind: NodeKind, next: nat)
    requires n <= |s|
    ensures (kind, next) == NodeAt(s, n)
  {
    hide DocTypeEnd, FindStr, FindAny, TokenAt;
    if n == |s| { return NoNode, 0; }
    if s[n] == '<' {
      if n + 2 >= |s| { return NoNode, 0; }
      if s[n + 1] == '?' {
        var r := Delimited(s, n, Instruction, "?>");
        return r.0, r.1;
      }
      if s[n + 1] == '!' {
        if s[n + 2] == '[' {
          var r := Delimited(s, n, CData, "]]>");
          return r.0, r.1;
        }
        if s[n + 2] == '-' {
          var r := Delimited(s, n, Comment, "-->");
          return r.0, r.1;
        }
        next := FindDocTypeEnd(s, n);
        kind := if next == 0 then NoNode else DocType;
        return;
      }
      if s[n + 1] == '/' { return NoNode, 0; }
      return Element, n;
    }
    var t := FindToken(s, n);
    if !t.found { return Whitespace, t.next; }
    if t.nL < |s| && s[t.nL] == '<' { return Whitespace, t.nL; }
    var found;
    next, found := FindChar(s, t.next, '<');
    kind := Text;
  }

  /** The token loop of x_ParseElem over an end tag. */
  method FindEndTag(s: string, n: nat, name: string) returns (r: nat)
    requires n <= |s|
    ensures r == EndTagAt(s, n, 0, name)
  {
    var count, at := 0, n;
    var t := FindToken(s, at);
    while t.found
      invariant at <= |s| && t == TokenAt(s, at) && EndTagAt(s, n, 0, name) == EndTagAt(s, at, count, name)
      decreases |s| - at
    {
      count := count + 1;
      if !t.isString {
        if count == 1 && s[t.nL] != '/' { return |s|; }
        if count == 2 && !Match(s[t.nL..t.next], name) { return |s|; }
        if s[t.nL] == '>' { return t.nL; }
      }
      at := t.next;
      t := FindToken(s, at);
    }
    r := |s|;
  }
}

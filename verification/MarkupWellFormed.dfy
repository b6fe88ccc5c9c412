/**
 The documents the editor keeps: which gaps and tags occur in them, and why a
 fresh parse of their text computes the layout of their tree.
 */
module MarkupWellFormed {
  import opened TextScan
  import opened ElemIndex
  import opened MarkupTree
  import opened MarkupParse

  // ----- gaps ----------------------------------------------------------------

  /** What the search for a start tag passes over. */
  predicate Passed(k: NodeKind) { k.CData? || k.Comment? || k.Instruction? || k.DocType? }

  /** From `i` on, every '<' of the gap starts a complete CDATA section, comment, processing instruction or document
      type. */
  ghost predicate GapFrom(g: string, i: nat)
    requires i <= |g|
    decreases |g| - i
  {
    var j := FindAny(g, i, Only('<'));
    j == |g| || (Passed(NodeAt(g, j).0) && GapFrom(g, NodeAt(g, j).1))
  }

  ghost predicate GapOk(g: string) { GapFrom(g, 0) }

  /** A node complete inside `g` is the same node wherever `g` stands. */
  lemma NodeIn(s: string, n: nat, g: string, j: nat)
    requires Has(s, n, g) && j < |g| && g[j] == '<' && Passed(NodeAt(g, j).0)
    ensures NodeAt(s, n + j) == (NodeAt(g, j).0, n + NodeAt(g, j).1)
  {
    hide FindStr, DocTypeEnd, TokenAt, Has;
    HasChar(s, n, g, j);
    HasChar(s, n, g, j + 1);
    HasChar(s, n, g, j + 2);
    if NodeAt(g, j).0.DocType? {
      DocTypeIn(s, n, g, j, 0);
    } else {
      var pat := if g[j + 1] == '?' then "?>" else if g[j + 2] == '[' then "]]>" else "-->";
      StrIn(s, n, g, j, pat);
    }
  }

  /** A token that ends inside `g` is the same token wherever `g` stands. */
  lemma TokenIn(s: string, n: nat, g: string, i: nat)
    requires Has(s, n, g) && i <= |g| && TokenAt(g, i).found
    requires var t := TokenAt(g, i); t.next < |g| || (!t.isString && Is(Separator, g[t.nL]))
    ensures var t := TokenAt(g, i); TokenAt(s, n + i) == Token(n + t.nL, n + t.nR, n + t.next, t.isString, true)
  {
    hide FindAny, SkipAny, Has;
    var b := SkipAny(g, i, Blank);
    SkipIn(s, n, g, i, Blank);
    HasChar(s, n, g, b);
    if IsQuote(g[b]) {
      FindIn(s, n, g, b + 1, Only(g[b]));
    } else if Is(Separator, g[b]) {
      FindAnyHere(g, b);
      FindAnyHere(s, n + b);
    } else {
      FindIn(s, n, g, b, Separator);
    }
  }

  lemma FindAnyHere(s: string, b: nat)
    requires b < |s| && Is(Separator, s[b])
    ensures FindAny(s, b, Separator) == b
  {
  }

  lemma {:induction false} DocTypeIn(s: string, n: nat, g: string, j: nat, brackets: int)
    requires Has(s, n, g) && j <= |g| && DocTypeEnd(g, j, brackets) != 0
    ensures DocTypeEnd(s, n + j, brackets) == n + DocTypeEnd(g, j, brackets)
    decreases |g| - j
  {
    hide TokenAt, Has;
    var t := TokenAt(g, j);
    DocTypeToken(g, j, brackets);
    TokenIn(s, n, g, j);
    if !t.isString { HasChar(s, n, g, t.nL); }
    if t.isString {
      DocTypeIn(s, n, g, t.next, brackets);
    } else if g[t.nL] == '[' {
      DocTypeIn(s, n, g, t.next, brackets + 1);
    } else if g[t.nL] == ']' {
      DocTypeIn(s, n, g, t.next, brackets - 1);
    } else if brackets != 0 || g[t.nL] != '>' {
      DocTypeIn(s, n, g, t.next, brackets);
    }
  }

  /** Only a '>' can be the last token of a document type. */
  lemma DocTypeToken(g: string, j: nat, brackets: int)
    requires j <= |g| && DocTypeEnd(g, j, brackets) != 0
    ensures var t := TokenAt(g, j); t.found && (t.next < |g| || (!t.isString && Is(Separator, g[t.nL])))
  {
    hide TokenAt;
    NoToken(g);
    assert DocTypeEnd(g, |g|, brackets) == 0 && DocTypeEnd(g, |g|, brackets + 1) == 0 &&
        DocTypeEnd(g, |g|, brackets - 1) == 0;
  }

  lemma NoToken(g: string)
    ensures !TokenAt(g, |g|).found
  {
  }

  lemma StrIn(s: string, n: nat, g: string, j: nat, pat: string)
    requires Has(s, n, g) && j <= |g| && pat != "" && FindStr(g, j, pat) < |g|
    ensures FindStr(s, n + j, pat) == n + FindStr(g, j, pat)
  {
    var f := FindStr(g, j, pat);
    HasIn(s, n, g, f, pat);
    forall i | n + j <= i < n + f ensures !Has(s, i, pat) {
      HasIn(s, n, g, i - n, pat);
    }
    var r := FindStr(s, n + j, pat);
    assert !(r < n + f);
    assert !(n + f < r);
  }

  lemma StartSame(s: string, n: nat)
    requires n <= |s|
    ensures StartAt(s, n) == StartAt(s, FindAny(s, n, Only('<')))
  {
    hide NodeAt, TokenAt;
    var at := FindAny(s, n, Only('<'));
    assert FindAny(s, at, Only('<')) == at;
  }

  /** A separator that is not blank is a token of its own. */
  lemma SpecialToken(s: string, i: nat)
    requires i < |s| && Is(Separator, s[i]) && !Is(Blank, s[i])
    ensures TokenAt(s, i) == Token(i, i, i + 1, false, true)
  {
    assert SkipAny(s, i, Blank) == i && FindAny(s, i, Separator) == i;
  }

  lemma StartNode(s: string, at: nat)
    requires at < |s| && s[at] == '<' && Passed(NodeAt(s, at).0)
    ensures StartAt(s, at) == StartAt(s, NodeAt(s, at).1)
  {
    hide NodeAt, TokenAt;
    NodeMark(s, at);
    assert FindAny(s, at, Only('<')) == at;
    SpecialToken(s, at + 1);
  }

  lemma NodeMark(s: string, at: nat)
    requires at < |s| && s[at] == '<' && Passed(NodeAt(s, at).0)
    ensures at + 1 < |s| && (s[at + 1] == '?' || s[at + 1] == '!')
  {
    hide FindStr, DocTypeEnd, TokenAt;
  }

  lemma StartOpen(s: string, at: nat)
    requires at < |s| && s[at] == '<'
    ensures var t := TokenAt(s, at + 1);
            t.found && !t.isString ==>
              && (s[t.nL] == '/' ==> StartAt(s, at) == EndMark(at))
              && (var r := FindAny(s, t.next, Only('>'));
                  r < |s| && s[t.nL] != '/' && s[t.nL] != '?' && s[t.nL] != '!' ==>
                  StartAt(s, at) == MarkupParse.Open(at, s[t.nL..t.next], r))
  {
    hide NodeAt, TokenAt;
    assert FindAny(s, at, Only('<')) == at;
  }

  /** The search for a start tag skips a gap. */
  lemma {:induction false} GapSkip(s: string, n: nat, g: string, i: nat)
    requires Has(s, n, g) && i <= |g| && GapFrom(g, i)
    requires n + |g| < |s| && s[n + |g|] == '<'
    ensures StartAt(s, n + i) == StartAt(s, n + |g|)
    decreases |g| - i
  {
    hide NodeAt, FindAny, StartAt;
    var j := FindAny(g, i, Only('<'));
    FindIn(s, n, g, i, Only('<'));
    StartSame(s, n + i);
    if j < |g| {
      NodeIn(s, n, g, j);
      HasChar(s, n, g, j);
      StartNode(s, n + j);
      GapSkip(s, n, g, NodeAt(g, j).1);
    }
  }

  lemma FindStrShift(t: string, g: string, j: nat, pat: string)
    requires j <= |g| && pat != ""
    ensures FindStr(t + g, |t| + j, pat) == |t| + FindStr(g, j, pat)
  {
    hide FindStr;
    var s, f := t + g, FindStr(g, j, pat);
    assert Has(s, |t|, g);
    forall i | |t| + j <= i < |t| + f ensures !Has(s, i, pat) {
      if Has(s, i, pat) { HasIn(s, |t|, g, i - |t|, pat); }
    }
    var r := FindStr(s, |t| + j, pat);
    if f < |g| { HasIn(s, |t|, g, f, pat); assert !(|t| + f < r); }
    assert !(r < |t| + f);
  }

  lemma FindAnyShift(t: string, g: string, j: nat, k: Class)
    requires j <= |g|
    ensures FindAny(t + g, |t| + j, k) == |t| + FindAny(g, j, k)
  {
    hide FindAny;
    var s, f := t + g, FindAny(g, j, k);
    assert forall i :: |t| + j <= i < |t| + f ==> s[i] == g[i - |t|];
    if f < |g| { assert s[|t| + f] == g[f]; FindAnyIs(s, |t| + j, k, |t| + f); }
  }

  lemma SkipAnyShift(t: string, g: string, j: nat, k: Class)
    requires j <= |g|
    ensures SkipAny(t + g, |t| + j, k) == |t| + SkipAny(g, j, k)
  {
    hide SkipAny;
    var s, f := t + g, SkipAny(g, j, k);
    assert forall i :: |t| + j <= i < |t| + f ==> s[i] == g[i - |t|];
    if f < |g| { assert s[|t| + f] == g[f]; SkipAnyIs(s, |t| + j, k, |t| + f); }
  }

  lemma TokenShift(t: string, g: string, i: nat)
    requires i <= |g|
    ensures var x := TokenAt(g, i);
            TokenAt(t + g, |t| + i) == Token(|t| + x.nL, |t| + x.nR, |t| + x.next, x.isString, x.found)
  {
    hide FindAny, SkipAny;
    var b := SkipAny(g, i, Blank);
    SkipAnyShift(t, g, i, Blank);
    if b < |g| {
      assert (t + g)[|t| + b] == g[b];
      FindAnyShift(t, g, b + 1, Only(g[b]));
      FindAnyShift(t, g, b, Separator);
    }
  }

  lemma {:induction false} DocTypeShift(t: string, g: string, j: nat, brackets: int)
    requires j <= |g|
    ensures var x, y := DocTypeEnd(g, j, brackets), DocTypeEnd(t + g, |t| + j, brackets);
            if x == 0 then y == 0 else y == |t| + x
    decreases |g| - j
  {
    hide TokenAt;
    var x := TokenAt(g, j);
    TokenShift(t, g, j);
    if x.found {
      if !x.isString { assert (t + g)[|t| + x.nL] == g[x.nL]; }
      DocTypeShift(t, g, x.next, brackets);
      DocTypeShift(t, g, x.next, brackets + 1);
      DocTypeShift(t, g, x.next, brackets - 1);
    }
  }

  lemma NodeShift(t: string, g: string, j: nat)
    requires j < |g| && g[j] == '<'
    ensures var x, y := NodeAt(g, j), NodeAt(t + g, |t| + j);
            (Passed(x.0) <==> Passed(y.0))
            && (Passed(x.0) ==> y == (x.0, |t| + x.1))
  {
    hide FindStr, DocTypeEnd, TokenAt;
    var s := t + g;
    assert forall i :: j <= i < |g| ==> s[|t| + i] == g[i];
    DocTypeShift(t, g, j, 0);
    FindStrShift(t, g, j, "?>");
    FindStrShift(t, g, j, "]]>");
    FindStrShift(t, g, j, "-->");
    if j + 2 < |g| { assert s[|t| + (j + 1)] == g[j + 1] && s[|t| + (j + 2)] == g[j + 2]; }
    assert s[|t| + j] == '<';
    assert Passed(NodeAt(s, |t| + j).0) <==> Passed(NodeAt(g, j).0);
  }

  /** Being a gap from a position on depends only on what follows it. */
  lemma {:induction false} GapShift(t: string, g: string, i: nat)
    requires i <= |g|
    ensures GapFrom(t + g, |t| + i) <==> GapFrom(g, i)
    decreases |g| - i
  {
    hide NodeAt, FindAny;
    FindAnyShift(t, g, i, Only('<'));
    var j := FindAny(g, i, Only('<'));
    if j < |g| {
      NodeShift(t, g, j);
      if Passed(NodeAt(g, j).0) { GapShift(t, g, NodeAt(g, j).1); }
    }
  }

  lemma {:induction false} GapConcat(g: string, h: string, i: nat)
    requires i <= |g| && GapFrom(g, i) && GapOk(h)
    ensures GapFrom(g + h, i)
    decreases |g| - i
  {
    hide NodeAt, FindAny;
    var s, j := g + h, FindAny(g, i, Only('<'));
    assert Has(s, 0, g);
    if j < |g| {
      FindIn(s, 0, g, i, Only('<'));
      NodeIn(s, 0, g, j);
      GapConcat(g, h, NodeAt(g, j).1);
      assert GapFrom(s, i);
    } else {
      GapShift(g, h, 0);
      SameFirst(s, i, |g|);
    }
  }

  /** Skipping characters before the first '<' changes nothing. */
  lemma SameFirst(g: string, i: nat, k: nat)
    requires i <= k <= |g| && forall x :: i <= x < k ==> g[x] != '<'
    ensures GapFrom(g, i) <==> GapFrom(g, k)
  {
    hide NodeAt, FindAny;
    var j := FindAny(g, k, Only('<'));
    assert forall x :: i <= x < j ==> g[x] != '<';
    if j < |g| { FindAnyIs(g, i, Only('<'), j); }
    assert FindAny(g, i, Only('<')) == j;
  }

  /** A gap may be cut anywhere before its first '<'. */
  lemma GapSplit(g: string, k: nat)
    requires GapOk(g) && k <= |g| && forall x :: 0 <= x < k ==> g[x] != '<'
    ensures GapOk(g[..k]) && GapOk(g[k..])
  {
    hide GapFrom;
    SameFirst(g, 0, k);
    assert g == g[..k] + g[k..];
    GapShift(g[..k], g[k..], 0);
    NoMarkGap(g[..k]);
  }

  lemma NoMarkGap(g: string)
    requires forall x :: 0 <= x < |g| ==> g[x] != '<'
    ensures GapOk(g)
  {
    assert FindAny(g, 0, Only('<')) == |g|;
  }

  // ----- tags ----------------------------------------------------------------

  ghost predicate NameOk(x: string) {
    x != "" && forall i :: 0 <= i < |x| ==> !Is(Separator, x[i]) && !IsQuote(x[i])
  }

  function TagName(tag: string): string { tag[..FindAny(tag, 0, Separator)] }

  /** What the parser needs of the text between '<' and '>' (or "/>"). */
  ghost predicate TagShape(tag: string) {
    && tag != "" && !Is(Separator, tag[0]) && !IsQuote(tag[0]) && tag[|tag| - 1] != '/'
    && forall i :: 0 <= i < |tag| ==> tag[i] != '<' && tag[i] != '>'
  }

  /** The name, then blanks. */
  ghost predicate CloseOk(close: string, name: string) {
    && |name| <= |close| && close[..|name|] == name
    && forall i :: |name| <= i < |close| ==> Is(Blank, close[i])
  }

  lemma NameToken(s: string, n: nat, tag: string)
    requires Has(s, n, tag) && tag != "" && !Is(Separator, tag[0]) && !IsQuote(tag[0])
    requires n + |tag| < |s| && Is(Separator, s[n + |tag|])
    ensures var e := FindAny(tag, 0, Separator);
            e > 0 && TokenAt(s, n) == Token(n, n + e - 1, n + e, false, true)
  {
    hide FindAny, SkipAny;
    HasChar(s, n, tag, 0);
    SkipAnyIs(s, n, Blank, n);
    FindIn(s, n, tag, 0, Separator);
  }

  lemma NameText(s: string, n: nat, tag: string)
    requires Has(s, n, tag)
    ensures var e := FindAny(tag, 0, Separator); s[n..n + e] == TagName(tag)
  {
    hide FindAny;
    var e := FindAny(tag, 0, Separator);
    assert tag == tag[..e] + tag[e..];
    HasConcat(s, n, tag[..e], tag[e..]);
    HasSlice(s, n, tag[..e]);
  }

  lemma StartTag(s: string, at: nat, tag: string, mark: string)
    requires TagShape(tag) && (mark == "/>" || mark == ">") && Has(s, at, "<") && Has(s, at + 1, tag) &&
             Has(s, at + 1 + |tag|, mark)
    ensures StartAt(s, at) == MarkupParse.Open(at, TagName(tag), at + |tag| + |mark|)
    ensures s[at + |tag| + |mark| - 1] == '/' <==> mark == "/>"
  {
    hide SkipAny, FindAny, TokenAt, StartAt, TagName;
    HasChar(s, at, "<", 0);
    HasChar(s, at + 1, tag, 0);
    HasChar(s, at + 1, tag, |tag| - 1);
    HasChar(s, at + 1 + |tag|, mark, 0);
    HasChar(s, at + 1 + |tag|, mark, |mark| - 1);
    NameToken(s, at + 1, tag);
    NameText(s, at + 1, tag);
    var t := TokenAt(s, at + 1);
    var r := at + |tag| + |mark|;
    forall i | t.next <= i < r ensures s[i] != '>' {
      if i < at + 1 + |tag| { HasChar(s, at + 1, tag, i - at - 1); }
    }
    FindAnyIs(s, t.next, Only('>'), r);
    StartOpen(s, at);
  }

  lemma EndTag(s: string, at: nat, close: string, name: string)
    requires CloseOk(close, name) && NameOk(name) && Has(s, at, "</") && Has(s, at + 2, close) &&
             Has(s, at + 2 + |close|, ">")
    ensures EndTagAt(s, at + 1, 0, name) == at + 2 + |close|
  {
    hide SkipAny, FindAny, TokenAt, Match;
    HasChar(s, at, "</", 1);
    HasChar(s, at + 2 + |close|, ">", 0);
    SpecialToken(s, at + 1);
    EndName(s, at + 2, close, name);
    EndBlanks(s, at + 2, close, name);
    assert EndTagAt(s, at + 2 + |name|, 2, name) == at + 2 + |close|;
    assert EndTagAt(s, at + 2, 1, name) == EndTagAt(s, at + 2 + |name|, 2, name);
    assert EndTagAt(s, at + 1, 0, name) == EndTagAt(s, at + 2, 1, name);
  }

  lemma EndName(s: string, n: nat, close: string, name: string)
    requires CloseOk(close, name) && NameOk(name) && Has(s, n, close) && n + |close| < |s| && s[n + |close|] == '>'
    ensures TokenAt(s, n) == Token(n, n + |name| - 1, n + |name|, false, true)
    ensures Match(s[n..n + |name|], name) && !Is(Separator, s[n])
  {
    hide SkipAny, FindAny;
    forall i | 0 <= i < |name| ensures s[n + i] == name[i] {
      HasChar(s, n, close, i);
      assert close[..|name|][i] == name[i];
    }
    assert s[n..n + |name|] == name;
    if |name| < |close| { HasChar(s, n, close, |name|); }
    assert s[n + 0] == name[0];
    SkipAnyIs(s, n, Blank, n);
    forall i | n <= i < n + |name| ensures !Is(Separator, s[i]) { assert s[n + (i - n)] == name[i - n]; }
    FindAnyIs(s, n, Separator, n + |name|);
  }

  lemma EndBlanks(s: string, n: nat, close: string, name: string)
    requires CloseOk(close, name) && Has(s, n, close) && n + |close| < |s| && s[n + |close|] == '>'
    ensures TokenAt(s, n + |name|) == Token(n + |close|, n + |close|, n + |close| + 1, false, true)
  {
    hide SkipAny, FindAny;
    forall i | n + |name| <= i < n + |close| ensures Is(Blank, s[i]) { HasChar(s, n, close, i - n); }
    SkipAnyIs(s, n + |name|, Blank, n + |close|);
    FindAnyIs(s, n + |close|, Separator, n + |close|);
  }

  // ----- well-formed trees and their parse -----------------------------------

  ghost predicate ElemShape(e: MarkupTree.Elem) {
    && TagShape(e.tag)
    && (e.Branch? ==> NameOk(TagName(e.tag)) && CloseOk(e.close, TagName(e.tag)) && Shaped(e.inner))
  }

  ghost predicate Shaped(c: Content) {
    GapOk(c.gap) && (c.Kid? ==> ElemShape(c.elem) && Shaped(c.next))
  }

  /** The outline with its slots renumbered in preorder: equality up to slot renaming. */
  function Renumber(o: Outline, slot: Slot): Outline {
    if o.Nil? then Nil
    else o.(slot := slot, child := Renumber(o.child, slot + 1), next := Renumber(o.next, slot + 1 + Count(o.child)))
  }

  ghost predicate ParsesAs(s: string, n: nat, e: MarkupTree.Elem, at: nat, slot: Slot)
    requires n <= |s|
  {
    var o := LayoutE(e, at, Nil);
    ParseElem(s, n, slot) == MarkupParse.Elem(Renumber(o, slot), slot + Count(o))
  }

  /** Parsing the text of an element computes its layout. */
  lemma {:induction false} ParseElemComplete(s: string, n: nat, g: string, e: MarkupTree.Elem, slot: Slot)
    requires GapOk(g) && ElemShape(e) && Has(s, n, g) && Has(s, n + |g|, RenderE(e))
    ensures ParsesAs(s, n, e, n + |g|, slot)
    decreases e
  {
    hide StartAt, Has, ParsesAs, KidsParseAs, TagShape, CloseOk, GapFrom, Render, RenderE, LayoutE;
    var at := n + |g|;
    LenRenderE(e);
    FirstMark(s, at, e);
    GapSkip(s, n, g, 0);
    match e {
      case Leaf(_, tag) => ParseLeaf(s, n, at, e, slot);
      case Branch(_, tag, inner, close) =>
        SplitBranch(s, at, e);
        ParseKidsComplete(s, at + |tag| + 2, inner, slot + 1);
        ParseBranch(s, n, at, e, slot);
    }
  }

  lemma FirstMark(s: string, at: nat, e: MarkupTree.Elem)
    requires Has(s, at, RenderE(e))
    ensures |RenderE(e)| > 0 && at < |s| && s[at] == '<'
  {
    assert RenderE(e)[0] == '<';
  }

  lemma ParseLeaf(s: string, n: nat, at: nat, e: MarkupTree.Elem, slot: Slot)
    requires e.Leaf? && ElemShape(e) && Has(s, at, RenderE(e)) && n <= at && StartAt(s, n) == StartAt(s, at)
    ensures ParsesAs(s, n, e, at, slot)
  {
    hide StartAt, TagShape;
    HasConcat(s, at, "<" + e.tag, "/>");
    HasConcat(s, at, "<", e.tag);
    StartTag(s, at, e.tag, "/>");
    var r := at + |e.tag| + 2;
    assert ParseElem(s, n, slot) == MarkupParse.Elem(At(slot, at, r, r - 1, r, Nil, Nil), slot + 1);
    RenumberLeaf(e, at, slot);
  }

  lemma RenumberLeaf(e: MarkupTree.Elem, at: nat, slot: Slot)
    requires e.Leaf?
    ensures var r := at + |e.tag| + 2; var o := LayoutE(e, at, Nil);
            Renumber(o, slot) == At(slot, at, r, r - 1, r, Nil, Nil) && Count(o) == 1
  {
  }

  lemma RenumberBranch(e: MarkupTree.Elem, at: nat, slot: Slot)
    requires e.Branch?
    ensures var startR := at + |e.tag| + 1; var endL := startR + 1 + Len(e.inner); var o := LayoutE(e, at, Nil);
            var kids := Layout(e.inner, startR + 1);
            && Renumber(o, slot) == At(slot, at, startR, endL, endL + 2 + |e.close|, Renumber(kids, slot + 1), Nil)
            && Count(o) == 1 + Count(kids)
  {
  }

  lemma SplitBranch(s: string, at: nat, e: MarkupTree.Elem)
    requires e.Branch? && Has(s, at, RenderE(e))
    ensures Has(s, at, "<") && Has(s, at + 1, e.tag) && Has(s, at + 1 + |e.tag|, ">")
    ensures var endL := at + |e.tag| + 2 + |Render(e.inner)|;
            && Has(s, at + |e.tag| + 2, Render(e.inner)) && Has(s, endL, "</")
            && Has(s, endL + 2, e.close) && Has(s, endL + 2 + |e.close|, ">")
  {
    hide Render, Has;
    HasConcat(s, at, OpenTag(e.tag) + Render(e.inner), CloseTag(e.close));
    HasConcat(s, at, OpenTag(e.tag), Render(e.inner));
    HasConcat(s, at, "<" + e.tag, ">");
    HasConcat(s, at, "<", e.tag);
    var endL := at + |e.tag| + 2 + |Render(e.inner)|;
    HasConcat(s, endL, "</" + e.close, ">");
    HasConcat(s, endL, "</", e.close);
  }

  ghost predicate KidsParseAs(s: string, n: nat, c: Content, slot: Slot)
    requires n <= |s|
  {
    var o := Layout(c, n);
    ParseKids(s, n, slot) == Kids(Renumber(o, slot), n + Len(c), slot + Count(o))
  }

  lemma ParseBranch(s: string, n: nat, at: nat, e: MarkupTree.Elem, slot: Slot)
    requires e.Branch? && ElemShape(e) && Has(s, at, RenderE(e)) && n <= at && StartAt(s, n) == StartAt(s, at)
    requires at + |e.tag| + 2 <= |s| && KidsParseAs(s, at + |e.tag| + 2, e.inner, slot + 1)
    ensures ParsesAs(s, n, e, at, slot)
  {
    hide StartAt, TagShape, CloseOk, EndTagAt, Render;
    SplitBranch(s, at, e);
    LenRender(e.inner);
    StartTag(s, at, e.tag, ">");
    EndTag(s, at + |e.tag| + 2 + |Render(e.inner)|, e.close, TagName(e.tag));
    RenumberBranch(e, at, slot);
    var startR := at + |e.tag| + 1;
    var kids := Layout(e.inner, startR + 1);
    assert KidsParseAs(s, startR + 1, e.inner, slot + 1);
    assert ParseElem(s, n, slot) == MarkupParse.Elem(Renumber(LayoutE(e, at, Nil), slot), slot + 1 + Count(kids));
  }

  lemma {:induction false} ParseKidsComplete(s: string, n: nat, c: Content, slot: Slot)
    requires Shaped(c) && Has(s, n, Render(c)) && Has(s, n + |Render(c)|, "</")
    ensures KidsParseAs(s, n, c, slot)
    decreases c
  {
    hide Has, ParsesAs, KidsParseAs, GapFrom, RenderE, LayoutE;
    match c {
      case End(g) => ParseNoKid(s, n, g, slot);
      case Kid(g, e, next) =>
        assert Render(c) == g + RenderE(e) + Render(next);
        HasConcat(s, n, g + RenderE(e), Render(next));
        HasConcat(s, n, g, RenderE(e));
        LenRenderE(e);
        ParseElemComplete(s, n, g, e, slot);
        var o := LayoutE(e, n + |g|, Nil);
        ParseKidsComplete(s, n + |g| + LenE(e), next, slot + Count(o));
        ParseMoreKids(s, n, c, slot);
    }
  }

  lemma ParseNoKid(s: string, n: nat, g: string, slot: Slot)
    requires GapOk(g) && Has(s, n, g) && Has(s, n + |g|, "</")
    ensures KidsParseAs(s, n, End(g), slot)
  {
    hide StartAt, TokenAt;
    HasChar(s, n + |g|, "</", 0);
    HasChar(s, n + |g|, "</", 1);
    GapSkip(s, n, g, 0);
    SpecialToken(s, n + |g| + 1);
    StartOpen(s, n + |g|);
    assert ParseElem(s, n, slot) == NoElem(n + |g|);
    assert KidsParseAs(s, n, End(g), slot);
  }

  lemma ParseMoreKids(s: string, n: nat, c: Content, slot: Slot)
    requires c.Kid? && n + |c.gap| + LenE(c.elem) <= |s|
    requires ParsesAs(s, n, c.elem, n + |c.gap|, slot)
    requires KidsParseAs(s, n + |c.gap| + LenE(c.elem), c.next, slot + Count(LayoutE(c.elem, n + |c.gap|, Nil)))
    ensures KidsParseAs(s, n, c, slot)
  {
    hide ParseElem;
    var at := n + |c.gap|;
    var o, rest := LayoutE(c.elem, at, Nil), Layout(c.next, at + LenE(c.elem));
    RenumberCons(o, rest, slot);
    assert Layout(c, n) == o.(next := rest);
    assert ParseElem(s, n, slot) == MarkupParse.Elem(Renumber(o, slot), slot + Count(o));
    assert KidsParseAs(s, n, c, slot);
  }

  lemma RenumberCons(o: Outline, rest: Outline, slot: Slot)
    requires o.At? && o.next.Nil?
    ensures Renumber(o, slot).At? && Renumber(o.(next := rest), slot) ==
            Renumber(o, slot).(next := Renumber(rest, slot + Count(o)))
    ensures Count(o.(next := rest)) == Count(o) + Count(rest)
  {
    assert Count(o.next) == 0;
  }
}

/**
 Start tags and their attributes: x_FindAttrib over the tokens of a tag, and
 what replacing or adding one attribute does to the others.
 */
module MarkupTag {
  import opened TextScan
  import opened MarkupParse
  import opened MarkupWellFormed

  datatype Attr = Attr(pre: string, name: string, eqL: string, eqR: string, quote: char, raw: string)

  datatype Tag = Tag(name: string, attrs: seq<Attr>, trail: string)

  ghost predicate AllBlank(s: string) { forall i :: 0 <= i < |s| ==> Is(Blank, s[i]) }

  ghost predicate RawOk(raw: string, quote: char) {
    forall i :: 0 <= i < |raw| ==> raw[i] != '<' && raw[i] != '>' && raw[i] != quote
  }

  ghost predicate WfAttr(a: Attr) {
    && a.pre != "" && AllBlank(a.pre) && NameOk(a.name) && AllBlank(a.eqL) && AllBlank(a.eqR)
    && IsQuote(a.quote) && RawOk(a.raw, a.quote)
  }

  ghost predicate WfTag(t: Tag) {
    NameOk(t.name) && AllBlank(t.trail) && forall i :: 0 <= i < |t.attrs| ==> WfAttr(t.attrs[i])
  }

  /** The text of an attribute up to its value. */
  function AttrHead(a: Attr): (r: string)
    ensures |r| == |a.pre| + |a.name| + |a.eqL| + |a.eqR| + 2
  {
    a.pre + a.name + a.eqL + "=" + a.eqR + [a.quote]
  }

  function AttrText(a: Attr): (r: string)
    ensures |r| == |AttrHead(a)| + |a.raw| + 1
  {
    AttrHead(a) + a.raw + [a.quote]
  }

  function AttrsText(attrs: seq<Attr>): string {
    if attrs == [] then "" else AttrText(attrs[0]) + AttrsText(attrs[1..])
  }

  function TagText(t: Tag): string { t.name + AttrsText(t.attrs) + t.trail }

  ghost predicate TagOk(tag: string) { exists t :: WfTag(t) && TagText(t) == tag }

  // ----- x_FindAttrib --------------------------------------------------------

  /** x_FindAttrib from token number `count`; `attrib` is the number of the matched name, or 0. */
  function AttribScan(s: string, n: nat, count: nat, attrib: nat, name: string): (r: Token)
    requires n <= |s|
    ensures r.nL <= r.next <= |s|
    decreases |s| - n
  {
    var t := TokenAt(s, n);
    if !t.found then t
    else if t.isString then
      if attrib != 0 && count == attrib + 2 then t else AttribScan(s, t.next, count + 1, attrib, name)
    else if s[t.nL] == '>' || s[t.nL] == '/' then t.(found := false)
    else if s[t.nL] == '=' then AttribScan(s, t.next, count + 1, attrib, name)
    else if attrib == 0 && count != 0 then
      if name == "" then t
      else AttribScan(s, t.next, count + 1, if Match(s[t.nL..t.next], name) then count else 0, name)
    else AttribScan(s, t.next, count + 1, attrib, name)
  }

  /** x_FindAttrib. */
  method FindAttrib(s: string, n: nat, name: string) returns (t: Token)
    requires n <= |s|
    ensures t == AttribScan(s, n, 0, 0, name)
  {
    var attrib, count, at := 0, 0, n;
    while true
      invariant at <= |s| && AttribScan(s, n, 0, 0, name) == AttribScan(s, at, count, attrib, name)
      decreases |s| - at
    {
      t := FindToken(s, at);
      if !t.found { return; }
      if !t.isString {
        if s[t.nL] == '>' || s[t.nL] == '/' { return t.(found := false); }
        if s[t.nL] != '=' && attrib == 0 && count != 0 {
          if name == "" { return; }
          if Match(s[t.nL..t.next], name) { attrib := count; }
        }
      } else if attrib != 0 && count == attrib + 2 {
        return;
      }
      at, count := t.next, count + 1;
    }
  }

  /** The first attribute whose name matches, or |attrs|. */
  function FirstMatch(attrs: seq<Attr>, name: string): (k: nat)
    ensures k <= |attrs| && (k < |attrs| ==> Match(attrs[k].name, name))
    ensures forall i :: 0 <= i < k ==> !Match(attrs[i].name, name)
  {
    if attrs == [] then 0 else if Match(attrs[0].name, name) then 0 else 1 + FirstMatch(attrs[1..], name)
  }

  /** No attribute matches the empty name. */
  lemma {:induction false} NoneEmpty(attrs: seq<Attr>)
    requires forall i :: 0 <= i < |attrs| ==> WfAttr(attrs[i])
    ensures FirstMatch(attrs, "") == |attrs|
  {
    if attrs != [] { NoneEmpty(attrs[1..]); }
  }

  lemma EmptyName(t: Tag)
    requires WfTag(t)
    ensures FirstMatch(t.attrs, "") == |t.attrs|
  {
    NoneEmpty(t.attrs);
  }

  /** Setting this attribute leaves a well-formed tag: the name is a word, or the attribute is there. */
  ghost predicate Settable(t: Tag, name: string) { NameOk(name) || FirstMatch(t.attrs, name) < |t.attrs| }

  lemma SettableName(t: Tag, name: string)
    requires WfTag(t) && Settable(t, name)
    ensures name != ""
  {
    EmptyName(t);
  }

  /** Where the value of attribute `k` starts in the text of the attributes. */
  function ValueStart(attrs: seq<Attr>, k: nat): nat
    requires k < |attrs|
  {
    if k == 0 then |AttrHead(attrs[0])| else |AttrText(attrs[0])| + ValueStart(attrs[1..], k - 1)
  }

  lemma BlankName(s: string, n: nat, pre: string, name: string)
    requires AllBlank(pre) && NameOk(name) && Has(s, n, pre) && Has(s, n + |pre|, name)
    requires n + |pre| + |name| < |s| && Is(Separator, s[n + |pre| + |name|])
    ensures TokenAt(s, n) == Token(n + |pre|, n + |pre| + |name| - 1, n + |pre| + |name|, false, true)
    ensures s[n + |pre|..n + |pre| + |name|] == name && !Is(Separator, s[n + |pre|])
  {
    hide FindAny, SkipAny;
    var m := n + |pre|;
    forall i | n <= i < m ensures Is(Blank, s[i]) { HasChar(s, n, pre, i - n); }
    HasChar(s, m, name, 0);
    SkipAnyIs(s, n, Blank, m);
    forall i | m <= i < m + |name| ensures !Is(Separator, s[i]) { HasChar(s, m, name, i - m); }
    FindAnyIs(s, m, Separator, m + |name|);
    HasSlice(s, m, name);
  }

  lemma BlankSpecial(s: string, n: nat, pre: string)
    requires AllBlank(pre) && Has(s, n, pre) && n + |pre| < |s|
    requires Is(Separator, s[n + |pre|]) && !Is(Blank, s[n + |pre|])
    ensures TokenAt(s, n) == Token(n + |pre|, n + |pre|, n + |pre| + 1, false, true)
  {
    hide FindAny, SkipAny;
    var m := n + |pre|;
    forall i | n <= i < m ensures Is(Blank, s[i]) { HasChar(s, n, pre, i - n); }
    SkipAnyIs(s, n, Blank, m);
    FindAnyIs(s, m, Separator, m);
  }

  lemma BlankString(s: string, n: nat, pre: string, quote: char, raw: string)
    requires AllBlank(pre) && IsQuote(quote) && RawOk(raw, quote) && Has(s, n, pre) && Has(s, n + |pre| + 1, raw)
    requires n + |pre| + 1 + |raw| < |s| && s[n + |pre|] == quote && s[n + |pre| + 1 + |raw|] == quote
    ensures var m := n + |pre| + 1; TokenAt(s, n) == Token(m, m + |raw| - 1, m + |raw| + 1, true, true)
  {
    hide FindAny, SkipAny;
    var m := n + |pre|;
    forall i | n <= i < m ensures Is(Blank, s[i]) { HasChar(s, n, pre, i - n); }
    SkipAnyIs(s, n, Blank, m);
    forall i | m + 1 <= i < m + 1 + |raw| ensures s[i] != quote { HasChar(s, m + 1, raw, i - m - 1); }
    FindAnyIs(s, m + 1, Only(quote), m + 1 + |raw|);
  }

  lemma SplitAttr(s: string, n: nat, a: Attr)
    requires Has(s, n, AttrText(a))
    ensures var eq := n + |a.pre| + |a.name| + |a.eqL|; var v := n + |AttrHead(a)|;
            && Has(s, n, a.pre) && Has(s, n + |a.pre|, a.name) && Has(s, n + |a.pre| + |a.name|, a.eqL)
            && v + |a.raw| < |s| && s[eq] == '=' && Has(s, eq + 1, a.eqR) && s[v - 1] == a.quote
            && Has(s, v, a.raw) && s[v + |a.raw|] == a.quote
  {
    hide Has;
    HasConcat(s, n, AttrHead(a) + a.raw, [a.quote]);
    HasConcat(s, n, AttrHead(a), a.raw);
    HasConcat(s, n, a.pre + a.name + a.eqL + "=" + a.eqR, [a.quote]);
    HasConcat(s, n, a.pre + a.name + a.eqL + "=", a.eqR);
    HasConcat(s, n, a.pre + a.name + a.eqL, "=");
    HasConcat(s, n, a.pre + a.name, a.eqL);
    HasConcat(s, n, a.pre, a.name);
    HasChar(s, n + |a.pre| + |a.name| + |a.eqL|, "=", 0);
    HasChar(s, n + |AttrHead(a)| - 1, [a.quote], 0);
    HasChar(s, n + |AttrHead(a)| + |a.raw|, [a.quote], 0);
  }

  function ValueToken(n: nat, a: Attr): Token {
    var v := n + |AttrHead(a)|; Token(v, v + |a.raw| - 1, v + |a.raw| + 1, true, true)
  }

  /** The three tokens of an attribute. */
  lemma AttrTokens(s: string, n: nat, a: Attr)
    requires WfAttr(a) && Has(s, n, AttrText(a))
    ensures var p := n + |a.pre|; var eq := p + |a.name| + |a.eqL|;
            && TokenAt(s, n) == Token(p, p + |a.name| - 1, p + |a.name|, false, true)
            && s[p..p + |a.name|] == a.name && !Is(Separator, s[p])
            && eq < |s| && s[eq] == '=' && TokenAt(s, p + |a.name|) == Token(eq, eq, eq + 1, false, true)
            && TokenAt(s, eq + 1) == ValueToken(n, a)
  {
    hide TokenAt, Has, AttrText, AttrHead;
    SplitAttr(s, n, a);
    var p := n + |a.pre|;
    if a.eqL != "" { HasChar(s, p + |a.name|, a.eqL, 0); }
    BlankName(s, n, a.pre, a.name);
    BlankSpecial(s, p + |a.name|, a.eqL);
    BlankString(s, p + |a.name| + |a.eqL| + 1, a.eqR, a.quote, a.raw);
  }

  lemma ScanAttr(s: string, n: nat, a: Attr, count: nat, name: string)
    requires WfAttr(a) && Has(s, n, AttrText(a)) && count > 0 && name != ""
    ensures AttribScan(s, n, count, 0, name) ==
            if Match(a.name, name) then ValueToken(n, a) else AttribScan(s, n + |AttrText(a)|, count + 3, 0, name)
  {
    hide TokenAt, Has, AttrText, AttrHead, Match, WfAttr;
    AttrTokens(s, n, a);
    var p := n + |a.pre|;
    var eq := p + |a.name| + |a.eqL|;
    var k := if Match(a.name, name) then count else 0;
    assert AttribScan(s, n, count, 0, name) == AttribScan(s, p + |a.name|, count + 1, k, name);
    assert AttribScan(s, p + |a.name|, count + 1, k, name) == AttribScan(s, eq + 1, count + 2, k, name);
    assert AttribScan(s, eq + 1, count + 2, k, name) ==
      if k != 0 then ValueToken(n, a) else AttribScan(s, n + |AttrText(a)|, count + 3, 0, name);
  }

  /** x_FindAttrib over the attributes of a tag stops at the value of the first match. */
  lemma {:induction false} ScanAttrs(s: string, n: nat, attrs: seq<Attr>, trail: string, count: nat, name: string)
    requires (forall i :: 0 <= i < |attrs| ==> WfAttr(attrs[i])) && AllBlank(trail) && count > 0 && name != ""
    requires Has(s, n, AttrsText(attrs)) && Has(s, n + |AttrsText(attrs)|, trail)
    requires var e := n + |AttrsText(attrs)| + |trail|; e < |s| && (s[e] == '>' || s[e] == '/')
    ensures var r := AttribScan(s, n, count, 0, name); var k := FirstMatch(attrs, name);
            && r.found == (k < |attrs|)
            && (r.found ==>
                 var v := n + ValueStart(attrs, k);
                 r == Token(v, v + |attrs[k].raw| - 1, v + |attrs[k].raw| + 1, true, true))
    decreases |attrs|
  {
    hide TokenAt, Has, AttrText, AttrHead, Match, WfAttr;
    if attrs == [] {
      BlankSpecial(s, n, trail);
      assert !AttribScan(s, n, count, 0, name).found;
    } else {
      var a, rest := attrs[0], attrs[1..];
      HasConcat(s, n, AttrText(a), AttrsText(rest));
      ScanAttr(s, n, a, count, name);
      if !Match(a.name, name) {
        ScanAttrs(s, n + |AttrText(a)|, rest, trail, count + 3, name);
        var k := FirstMatch(rest, name);
        assert FirstMatch(attrs, name) == 1 + k;
        if k < |rest| {
          assert rest[k] == attrs[1 + k];
          assert ValueStart(attrs, 1 + k) == |AttrText(a)| + ValueStart(rest, k);
        }
      } else {
        assert FirstMatch(attrs, name) == 0 && ValueStart(attrs, 0) == |AttrHead(a)|;
        assert ValueToken(n, a).found;
      }
    }
  }

  // ----- how many attributes match -------------------------------------------

  /** How often the search finds the name, begun again behind each value it finds. */
  function AttribCount(s: string, n: nat, count: nat, name: string): nat
    requires n <= |s|
    decreases |s| - n
  {
    var r := AttribScan(s, n, count, 0, name);
    if r.found && n < r.next then 1 + AttribCount(s, r.next, 1, name) else 0
  }

  function CountMatches(attrs: seq<Attr>, name: string): nat {
    if attrs == [] then 0 else (if Match(attrs[0].name, name) then 1 else 0) + CountMatches(attrs[1..], name)
  }

  lemma {:induction false} CountAttrs(s: string, n: nat, attrs: seq<Attr>, trail: string, count: nat, name: string)
    requires (forall i :: 0 <= i < |attrs| ==> WfAttr(attrs[i])) && AllBlank(trail) && count > 0 && name != ""
    requires Has(s, n, AttrsText(attrs)) && Has(s, n + |AttrsText(attrs)|, trail)
    requires var e := n + |AttrsText(attrs)| + |trail|; e < |s| && (s[e] == '>' || s[e] == '/')
    ensures AttribCount(s, n, count, name) == CountMatches(attrs, name)
    decreases |attrs|
  {
    hide TokenAt, Has, AttrText, Match, WfAttr, AttribScan;
    ScanAttrs(s, n, attrs, trail, count, name);
    if attrs != [] {
      var a, rest := attrs[0], attrs[1..];
      var m := n + |AttrText(a)|;
      HasConcat(s, n, AttrText(a), AttrsText(rest));
      ScanAttr(s, n, a, count, name);
      if Match(a.name, name) {
        CountAttrs(s, m, rest, trail, 1, name);
      } else {
        CountAttrs(s, m, rest, trail, count + 3, name);
        ScanAttrs(s, m, rest, trail, count + 3, name);
      }
    }
  }

  lemma CountTag(s: string, n: nat, t: Tag, name: string)
    requires WfTag(t) && name != "" && Has(s, n, TagText(t)) && n + |TagText(t)| < |s|
    requires s[n + |TagText(t)|] == '>' || s[n + |TagText(t)|] == '/'
    ensures AttribCount(s, n, 0, name) == CountMatches(t.attrs, name)
  {
    hide TokenAt, Has, AttrsText, AttribCount;
    var rest := AttrsText(t.attrs);
    HasConcat(s, n, t.name + rest, t.trail);
    HasConcat(s, n, t.name, rest);
    var m := n + |t.name|;
    BehindName(s, m, t);
    HasNothing(s, n);
    BlankName(s, n, "", t.name);
    assert AttribScan(s, n, 0, 0, name) == AttribScan(s, m, 1, 0, name);
    CountAttrs(s, m, t.attrs, t.trail, 1, name);
    ScanForward(s, m, 1, 0, name);
    CountFrom(s, n, m, name);
  }

  lemma {:induction false} ScanForward(s: string, n: nat, count: nat, attrib: nat, name: string)
    requires n <= |s|
    ensures var r := AttribScan(s, n, count, attrib, name); r.found ==> n < r.next
    decreases |s| - n
  {
    hide Match;
    var t := TokenAt(s, n);
    if t.found {
      forall k: nat, a: nat ensures var r := AttribScan(s, t.next, k, a, name); r.found ==> t.next < r.next {
        ScanForward(s, t.next, k, a, name);
      }
    }
  }

  lemma CountFrom(s: string, n: nat, m: nat, name: string)
    requires n <= m <= |s| && AttribScan(s, n, 0, 0, name) == AttribScan(s, m, 1, 0, name)
    requires var r := AttribScan(s, m, 1, 0, name); r.found ==> m < r.next
    ensures AttribCount(s, n, 0, name) == AttribCount(s, m, 1, name)
  {
    hide AttribScan;
  }

  lemma {:induction false} MatchesConcat(xs: seq<Attr>, ys: seq<Attr>, name: string)
    ensures CountMatches(xs + ys, name) == CountMatches(xs, name) + CountMatches(ys, name)
  {
    hide Match;
    if xs == [] {
      assert xs + ys == ys;
    } else {
      MatchesConcat(xs[1..], ys, name);
      assert (xs + ys)[1..] == xs[1..] + ys;
    }
  }

  /** Where the value of attribute `k` starts in the text of the tag. */
  function ValueAt(t: Tag, k: nat): nat
    requires k < |t.attrs|
  {
    |t.name| + ValueStart(t.attrs, k)
  }

  /** x_FindAttrib on an element whose start tag is `t`. */
  lemma ScanTag(s: string, n: nat, t: Tag, name: string)
    requires WfTag(t) && name != "" && Has(s, n, TagText(t)) && n + |TagText(t)| < |s|
    requires s[n + |TagText(t)|] == '>' || s[n + |TagText(t)|] == '/'
    ensures var r := AttribScan(s, n, 0, 0, name); var k := FirstMatch(t.attrs, name);
            && r.found == (k < |t.attrs|)
            && (r.found ==>
                 var v := n + ValueAt(t, k);
                 r == Token(v, v + |t.attrs[k].raw| - 1, v + |t.attrs[k].raw| + 1, true, true))
  {
    hide TokenAt, Has, AttrsText, FirstMatch, ValueStart;
    var rest := AttrsText(t.attrs);
    HasConcat(s, n, t.name + rest, t.trail);
    HasConcat(s, n, t.name, rest);
    var m := n + |t.name|;
    BehindName(s, m, t);
    HasNothing(s, n);
    BlankName(s, n, "", t.name);
    assert AttribScan(s, n, 0, 0, name) == AttribScan(s, m, 1, 0, name);
    ScanAttrs(s, m, t.attrs, t.trail, 1, name);
  }

  lemma HasNothing(s: string, n: nat)
    ensures n <= |s| ==> Has(s, n, "")
  {
  }

  lemma BehindName(s: string, m: nat, t: Tag)
    requires WfTag(t) && Has(s, m, AttrsText(t.attrs)) && Has(s, m + |AttrsText(t.attrs)|, t.trail)
    requires var e := m + |AttrsText(t.attrs)| + |t.trail|; e < |s| && (s[e] == '>' || s[e] == '/')
    ensures Is(Separator, s[m])
  {
    if t.attrs != [] {
      var a := t.attrs[0];
      assert AttrsText(t.attrs)[0] == AttrText(a)[0] == a.pre[0];
      HasChar(s, m, AttrsText(t.attrs), 0);
    } else if t.trail != "" {
      HasChar(s, m, t.trail, 0);
    }
  }

  // ----- setting one attribute -----------------------------------------------

  ghost predicate Escaped(v: string) {
    forall i :: 0 <= i < |v| ==> v[i] != '<' && v[i] != '>' && !IsQuote(v[i])
  }

  /** The tag after x_SetAttrib(name, value), `v` being the value as written. */
  function SetAttr(t: Tag, name: string, v: string): Tag {
    var k := FirstMatch(t.attrs, name);
    if k < |t.attrs| then t.(attrs := t.attrs[k := t.attrs[k].(raw := v)])
    else Tag(t.name, t.attrs + [Attr(t.trail + " ", name, "", "", '\"', v)], "")
  }

  /** What x_SetAttrib writes when the attribute is new. */
  function NewAttr(name: string, v: string): string { " " + name + "=\"" + v + "\"" }

  lemma SetAttrWf(t: Tag, name: string, v: string)
    requires WfTag(t) && Settable(t, name) && Escaped(v)
    ensures WfTag(SetAttr(t, name, v)) && SetAttr(t, name, v).name == t.name
  {
  }

  lemma AttrsStep(attrs: seq<Attr>)
    ensures AttrsText(attrs) == if attrs == [] then "" else AttrText(attrs[0]) + AttrsText(attrs[1..])
  {
  }

  lemma {:induction false} AttrsConcat(xs: seq<Attr>, ys: seq<Attr>)
    ensures AttrsText(xs + ys) == AttrsText(xs) + AttrsText(ys)
  {
    hide AttrsText, AttrText;
    AttrsStep(xs);
    if xs == [] {
      assert xs + ys == ys;
    } else {
      AttrsConcat(xs[1..], ys);
      assert (xs + ys)[0] == xs[0] && (xs + ys)[1..] == xs[1..] + ys;
      AttrsStep(xs + ys);
    }
  }

  lemma AttrsOne(a: Attr)
    ensures AttrsText([a]) == AttrText(a)
  {
    assert [a][1..] == [];
    assert AttrText(a) + "" == AttrText(a);
  }

  /** A new attribute is appended to the text of the tag. */
  lemma SetNewAttr(t: Tag, name: string, v: string)
    requires FirstMatch(t.attrs, name) == |t.attrs|
    ensures TagText(SetAttr(t, name, v)) == TagText(t) + NewAttr(name, v)
  {
    hide FirstMatch, AttrsText;
    var a := Attr(t.trail + " ", name, "", "", '\"', v);
    AttrsConcat(t.attrs, [a]);
    AttrsOne(a);
    var x, y := t.name, AttrsText(t.attrs);
    assert AttrText(a) == t.trail + NewAttr(name, v);
    assert SetAttr(t, name, v) == Tag(t.name, t.attrs + [a], "");
    assert TagText(SetAttr(t, name, v)) == x + (y + AttrText(a)) + "";
    Regroup(x, y, t.trail, NewAttr(name, v));
  }

  lemma Regroup(x: string, y: string, z: string, w: string)
    ensures x + (y + (z + w)) + "" == (x + y + z) + w
  {
  }

  function AttrsBefore(attrs: seq<Attr>, k: nat): string
    requires k < |attrs|
  {
    if k == 0 then AttrHead(attrs[0]) else AttrText(attrs[0]) + AttrsBefore(attrs[1..], k - 1)
  }

  function AttrsBehind(attrs: seq<Attr>, k: nat): string
    requires k < |attrs|
  {
    if k == 0 then [attrs[0].quote] + AttrsText(attrs[1..]) else AttrsBehind(attrs[1..], k - 1)
  }

  lemma {:induction false} SetOldAttrs(attrs: seq<Attr>, k: nat, v: string)
    requires k < |attrs|
    ensures |AttrsBefore(attrs, k)| == ValueStart(attrs, k)
    ensures AttrsText(attrs) == AttrsBefore(attrs, k) + attrs[k].raw + AttrsBehind(attrs, k)
    ensures AttrsText(attrs[k := attrs[k].(raw := v)]) == AttrsBefore(attrs, k) + v + AttrsBehind(attrs, k)
    decreases k
  {
    hide AttrHead;
    var a, rest := attrs[0], attrs[1..];
    var new' := attrs[k := attrs[k].(raw := v)];
    if k == 0 {
      assert new'[1..] == rest && new'[0] == a.(raw := v);
      var h, q, z := AttrHead(a), [a.quote], AttrsText(rest);
      assert AttrHead(a.(raw := v)) == h by { SameHead(a, v); }
      assert (h + a.raw + q) + z == h + a.raw + (q + z);
      assert (h + v + q) + z == h + v + (q + z);
    } else {
      SetOldAttrs(rest, k - 1, v);
      assert new'[1..] == rest[k - 1 := rest[k - 1].(raw := v)] && new'[0] == a && rest[k - 1] == attrs[k];
      var h, l, z := AttrText(a), AttrsBefore(rest, k - 1), AttrsBehind(rest, k - 1);
      AssocNext(h, "", l, attrs[k].raw, z);
      AssocNext(h, "", l, v, z);
      assert h + "" == h;
    }
  }

  lemma SameHead(a: Attr, v: string)
    ensures AttrHead(a.(raw := v)) == AttrHead(a)
  {
  }

  /** An attribute that is there has its value replaced, the rest of the tag kept. */
  lemma SetOldAttr(t: Tag, name: string, v: string)
    requires FirstMatch(t.attrs, name) < |t.attrs|
    ensures var k := FirstMatch(t.attrs, name);
            && ValueAt(t, k) + |t.attrs[k].raw| <= |TagText(t)|
            && TagText(SetAttr(t, name, v)) == Splice(TagText(t), ValueAt(t, k), |t.attrs[k].raw|, v)
  {
    hide FirstMatch, AttrsText, AttrsBefore, AttrsBehind, ValueStart;
    var k := FirstMatch(t.attrs, name);
    SetOldAttrs(t.attrs, k, v);
    var l, m, r := AttrsBefore(t.attrs, k), t.attrs[k].raw, AttrsBehind(t.attrs, k);
    assert SetAttr(t, name, v) == t.(attrs := t.attrs[k := t.attrs[k].(raw := v)]);
    Regroup3(t.name, l, m, r, t.trail);
    Regroup3(t.name, l, v, r, t.trail);
    SpliceAt(t.name + l, m, r + t.trail, v);
  }

  lemma Regroup3(x: string, l: string, m: string, r: string, z: string)
    ensures x + (l + m + r) + z == (x + l) + m + (r + z)
  {
  }

  /** x_GetAttrib as written in the tag, before unescaping: the empty string when there is no such attribute. */
  function GetRaw(t: Tag, name: string): string {
    var k := FirstMatch(t.attrs, name);
    if k < |t.attrs| then t.attrs[k].raw else ""
  }

  /** Setting an attribute, then reading it or any other one. */
  lemma GetSetAttr(t: Tag, name: string, v: string, other: string)
    ensures GetRaw(SetAttr(t, name, v), name) == v
    ensures FirstMatch(t.attrs, other) < |t.attrs| && FirstMatch(t.attrs, other) != FirstMatch(t.attrs, name) ==>
            GetRaw(SetAttr(t, name, v), other) == GetRaw(t, other)
    ensures FirstMatch(t.attrs, other) == |t.attrs| &&
            (FirstMatch(t.attrs, name) == |t.attrs| ==> !Match(name, other)) ==>
            GetRaw(SetAttr(t, name, v), other) == ""
  {
    hide FirstMatch, Match;
    MatchSelf(name);
    var new' := SetAttr(t, name, v).attrs;
    FirstMatchIs(t.attrs, new', name);
    FirstMatchIs(t.attrs, new', other);
  }

  lemma MatchSelf(name: string)
    ensures Match(name, name)
  {
  }

  lemma FirstMatchIs(attrs: seq<Attr>, new': seq<Attr>, name: string)
    requires |attrs| <= |new'| <= |attrs| + 1 && forall i :: 0 <= i < |attrs| ==> new'[i].name == attrs[i].name
    ensures var k := FirstMatch(attrs, name);
            && (k < |attrs| ==> FirstMatch(new', name) == k)
            && (k == |attrs| ==>
                 FirstMatch(new', name) == if |new'| > |attrs| && Match(new'[|attrs|].name, name) then k else |new'|)
  {
  }

  // ----- the shape the parser sees -------------------------------------------

  ghost predicate NoAngle(s: string) { forall i :: 0 <= i < |s| ==> s[i] != '<' && s[i] != '>' }

  lemma AttrNoAngle(a: Attr)
    requires WfAttr(a)
    ensures NoAngle(AttrText(a)) && AttrText(a)[0] == a.pre[0] && AttrText(a)[|AttrText(a)| - 1] == a.quote
  {
  }

  lemma {:induction false} AttrsNoAngle(attrs: seq<Attr>)
    requires forall i :: 0 <= i < |attrs| ==> WfAttr(attrs[i])
    ensures NoAngle(AttrsText(attrs))
    ensures attrs != [] ==> AttrsText(attrs) != "" && Is(Blank, AttrsText(attrs)[0]) &&
                            IsQuote(AttrsText(attrs)[|AttrsText(attrs)| - 1])
  {
    hide AttrText;
    if attrs != [] {
      AttrNoAngle(attrs[0]);
      AttrsNoAngle(attrs[1..]);
    }
  }

  lemma NoAttrs()
    ensures AttrsText([]) == ""
  {
  }

  lemma TagTextShape(t: Tag)
    requires WfTag(t)
    ensures TagShape(TagText(t)) && TagName(TagText(t)) == t.name
  {
    hide AttrsText, FindAny;
    AttrsNoAngle(t.attrs);
    var text, rest := TagText(t), AttrsText(t.attrs);
    var n := |t.name|;
    assert text[..n] == t.name;
    assert text[0] == t.name[0];
    assert forall i :: 0 <= i < n ==> text[i] == t.name[i];
    assert rest != "" ==> text[n] == rest[0];
    assert rest == "" && t.trail != "" ==> text[n] == t.trail[0];
    assert t.attrs == [] ==> rest == "" by { NoAttrs(); }
    assert n < |text| ==> Is(Blank, text[n]);
    if n < |text| { FindAnyIs(text, 0, Separator, n); } else { assert FindAny(text, 0, Separator) == n; }
    assert TagName(text) == t.name;
    var z := text[|text| - 1];
    if t.trail != "" {
      assert z == t.trail[|t.trail| - 1];
    } else if rest != "" {
      assert z == rest[|rest| - 1];
    } else {
      assert z == t.name[n - 1];
    }
    assert z != '/';
    assert NoAngle(text);
    assert TagShape(text);
  }

  lemma RawInTag(t: Tag, k: nat)
    requires k < |t.attrs|
    ensures Has(TagText(t), ValueAt(t, k), t.attrs[k].raw)
  {
    hide AttrsText, AttrsBefore, AttrsBehind, ValueStart, Has;
    SetOldAttrs(t.attrs, k, t.attrs[k].raw);
    var l, m, r := AttrsBefore(t.attrs, k), t.attrs[k].raw, AttrsBehind(t.attrs, k);
    Regroup3(t.name, l, m, r, t.trail);
    HasMid(t.name + l, m, r + t.trail);
  }
}

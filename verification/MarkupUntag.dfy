/**
 Removing an attribute: the start tag without it, and the search of
 x_RemoveAttrib for it.
 */
module MarkupUntag {
  import opened TextScan
  import opened MarkupParse
  import opened MarkupWellFormed
  import opened MarkupTag

  // ----- the tag without an attribute ----------------------------------------

  /** The white space before an attribute, but for its last character. */
  function LeftOf(a: Attr): string { if a.pre == "" then "" else a.pre[..|a.pre| - 1] }

  /** What follows an attribute, with white space put before it. */
  function Padded(left: string, attrs: seq<Attr>): seq<Attr> {
    if attrs == [] then [] else [attrs[0].(pre := left + attrs[0].pre)] + attrs[1..]
  }

  /** The tag after x_RemoveAttrib of its k-th attribute. */
  function Without(t: Tag, k: nat): Tag
    requires k < |t.attrs|
  {
    var left, rest := LeftOf(t.attrs[k]), t.attrs[k + 1..];
    Tag(t.name, t.attrs[..k] + Padded(left, rest), if rest == [] then left + t.trail else t.trail)
  }

  lemma WithoutWf(t: Tag, k: nat)
    requires WfTag(t) && k < |t.attrs|
    ensures WfTag(Without(t, k)) && Without(t, k).name == t.name
  {
    hide NameOk, RawOk;
    var a, rest := t.attrs[k], t.attrs[k + 1..];
    assert AllBlank(LeftOf(a));
    var attrs := Without(t, k).attrs;
    forall i | 0 <= i < |attrs| ensures WfAttr(attrs[i]) {
      if i < k {
        assert attrs[i] == t.attrs[i];
      } else if i > k {
        assert attrs[i] == t.attrs[i + 1];
      } else {
        assert WfAttr(rest[0]);
      }
    }
  }

  /** Where attribute `k` starts, its white space included, in the text of the tag. */
  function StartOf(t: Tag, k: nat): nat
    requires k <= |t.attrs|
  {
    |t.name| + |AttrsText(t.attrs[..k])|
  }

  lemma PaddedText(left: string, attrs: seq<Attr>)
    requires attrs != []
    ensures AttrsText(Padded(left, attrs)) == left + AttrsText(attrs)
  {
    hide AttrsText;
    var a, rest := attrs[0], attrs[1..];
    var b := a.(pre := left + a.pre);
    AttrsStep(attrs);
    AttrsStep(Padded(left, attrs));
    assert Padded(left, attrs)[1..] == rest;
    HeadPadded(a, left);
    assert left + AttrText(a) + AttrsText(rest) == left + (AttrText(a) + AttrsText(rest));
  }

  lemma HeadPadded(a: Attr, left: string)
    ensures AttrText(a.(pre := left + a.pre)) == left + AttrText(a)
  {
    var b := a.(pre := left + a.pre);
    var r := a.name + a.eqL + "=" + a.eqR + [a.quote];
    assert AttrHead(a) == a.pre + r;
    assert AttrHead(b) == (left + a.pre) + r;
    assert AttrHead(b) == left + AttrHead(a);
    assert (left + AttrHead(a)) + a.raw + [a.quote] == left + (AttrHead(a) + a.raw + [a.quote]);
  }

  /** The text of the tag around attribute `k`. */
  lemma AroundAttr(t: Tag, k: nat)
    requires k < |t.attrs|
    ensures var l, b := t.name + AttrsText(t.attrs[..k]), AttrsText(t.attrs[k + 1..]) + t.trail;
            TagText(t) == l + AttrText(t.attrs[k]) + b && |l| == StartOf(t, k)
  {
    hide AttrsText, AttrText;
    var xs, a, ys := t.attrs[..k], t.attrs[k], t.attrs[k + 1..];
    assert t.attrs == xs + ([a] + ys);
    AttrsConcat(xs, [a] + ys);
    AttrsConcat([a], ys);
    AttrsOne(a);
    Around4(t.name, AttrsText(xs), AttrText(a), AttrsText(ys), t.trail);
  }

  lemma Around4(n: string, x: string, a: string, y: string, z: string)
    ensures n + (x + (a + y)) + z == (n + x) + a + (y + z)
  {
  }

  lemma WithoutText(t: Tag, k: nat)
    requires k < |t.attrs|
    ensures var l, b := t.name + AttrsText(t.attrs[..k]), AttrsText(t.attrs[k + 1..]) + t.trail;
            TagText(Without(t, k)) == l + LeftOf(t.attrs[k]) + b
  {
    hide AttrsText, AttrText, LeftOf;
    var xs, left, ys := t.attrs[..k], LeftOf(t.attrs[k]), t.attrs[k + 1..];
    AttrsConcat(xs, Padded(left, ys));
    if ys == [] {
      NoAttrs();
      assert Padded(left, ys) == [] && xs + [] == xs;
      assert t.name + AttrsText(xs) + (left + t.trail) == (t.name + AttrsText(xs)) + left + ("" + t.trail);
    } else {
      PaddedText(left, ys);
      Around4(t.name, AttrsText(xs), left, AttrsText(ys), t.trail);
    }
  }

  /** Without attribute `k` the text lacks its name and value and one blank before them. */
  lemma RemovedText(t: Tag, k: nat)
    requires WfTag(t) && k < |t.attrs|
    ensures var a := t.attrs[k]; var at, len := StartOf(t, k) + |a.pre| - 1, |AttrText(a)| - |a.pre| + 1;
            && 0 <= at && 0 <= len && at + len <= |TagText(t)|
            && TagText(Without(t, k)) == Splice(TagText(t), at, len, "")
  {
    hide AttrsText, NameOk, RawOk, AllBlank;
    var a := t.attrs[k];
    AroundAttr(t, k);
    WithoutText(t, k);
    var l, b := t.name + AttrsText(t.attrs[..k]), AttrsText(t.attrs[k + 1..]) + t.trail;
    AttrSplit(a);
    var m := [a.pre[|a.pre| - 1]] + AttrTail(a);
    assert AttrText(a) == LeftOf(a) + m;
    assert l + (LeftOf(a) + m) + b == (l + LeftOf(a)) + m + b;
    SpliceAt(l + LeftOf(a), m, b, "");
    assert (l + LeftOf(a)) + "" + b == l + LeftOf(a) + b;
  }

  function AttrTail(a: Attr): string { a.name + a.eqL + "=" + a.eqR + [a.quote] + a.raw + [a.quote] }

  lemma AttrSplit(a: Attr)
    requires a.pre != ""
    ensures AttrText(a) == LeftOf(a) + ([a.pre[|a.pre| - 1]] + AttrTail(a)) && |AttrTail(a)| == |AttrText(a)| - |a.pre|
  {
    assert a.pre == LeftOf(a) + [a.pre[|a.pre| - 1]];
    assert AttrText(a) == a.pre + AttrTail(a);
  }

  // ----- the search ----------------------------------------------------------

  /** Where the search stands before attribute `k`: at the start of the tag, or behind the name of the attribute
      before. */
  function SearchAt(t: Tag, k: nat): nat
    requires k <= |t.attrs|
  {
    if k == 0 then 0 else StartOf(t, k - 1) + |t.attrs[k - 1].pre| + |t.attrs[k - 1].name|
  }

  lemma AttrHere(s: string, n: nat, t: Tag, k: nat)
    requires k < |t.attrs| && Has(s, n, TagText(t))
    ensures Has(s, n + StartOf(t, k), AttrText(t.attrs[k]))
  {
    hide AttrsText, AttrText, Has, TagText;
    AroundAttr(t, k);
    var l, b := t.name + AttrsText(t.attrs[..k]), AttrsText(t.attrs[k + 1..]) + t.trail;
    HasConcat(s, n, l + AttrText(t.attrs[k]), b);
    HasConcat(s, n, l, AttrText(t.attrs[k]));
  }

  lemma TrailHere(s: string, n: nat, t: Tag)
    requires Has(s, n, TagText(t))
    ensures Has(s, n + StartOf(t, |t.attrs|), t.trail) && StartOf(t, |t.attrs|) + |t.trail| == |TagText(t)|
  {
    hide AttrsText, Has;
    assert t.attrs[..|t.attrs|] == t.attrs;
    HasConcat(s, n, t.name + AttrsText(t.attrs), t.trail);
  }

  /** From where attribute `k` starts, the next name is its own, or there is none. */
  lemma NameFrom(s: string, n: nat, t: Tag, k: nat, count: nat)
    requires WfTag(t) && k <= |t.attrs| && count > 0 && Has(s, n, TagText(t)) && n + |TagText(t)| < |s|
    requires s[n + |TagText(t)|] == '>' || s[n + |TagText(t)|] == '/'
    ensures n + StartOf(t, k) <= |s|
    ensures var r := AttribScan(s, n + StartOf(t, k), count, 0, "");
            if k < |t.attrs| then var p := n + StartOf(t, k) + |t.attrs[k].pre|;
              && r == Token(p, p + |t.attrs[k].name| - 1, p + |t.attrs[k].name|, false, true)
              && s[r.nL..r.next] == t.attrs[k].name
            else !r.found
  {
    hide TokenAt, Has, AttrText, StartOf, WfAttr, TagText;
    var m := n + StartOf(t, k);
    if k < |t.attrs| {
      AttrHere(s, n, t, k);
      AttrTokens(s, m, t.attrs[k]);
    } else {
      TrailHere(s, n, t);
      BlankSpecial(s, m, t.trail);
    }
  }

  /** One call of x_FindAttrib without a name finds the next attribute name. */
  lemma NextName(s: string, n: nat, t: Tag, k: nat)
    requires WfTag(t) && k <= |t.attrs| && Has(s, n, TagText(t)) && n + |TagText(t)| < |s|
    requires s[n + |TagText(t)|] == '>' || s[n + |TagText(t)|] == '/'
    ensures n + SearchAt(t, k) <= |s|
    ensures var r := AttribScan(s, n + SearchAt(t, k), 0, 0, "");
            if k < |t.attrs| then var p := n + StartOf(t, k) + |t.attrs[k].pre|;
              && r == Token(p, p + |t.attrs[k].name| - 1, p + |t.attrs[k].name|, false, true)
              && s[r.nL..r.next] == t.attrs[k].name && r.next == n + SearchAt(t, k + 1)
            else !r.found
  {
    hide TokenAt, Has, AttrText, WfAttr, TagText, AttribScan, AttrsText, StartOf;
    if k == 0 {
      FirstName(s, n, t);
      NameFrom(s, n, t, 0, 1);
    } else {
      AfterName(s, n, t, k - 1);
      NameFrom(s, n, t, k, 2);
    }
  }

  lemma FirstName(s: string, n: nat, t: Tag)
    requires WfTag(t) && Has(s, n, TagText(t)) && n + |TagText(t)| < |s|
    requires s[n + |TagText(t)|] == '>' || s[n + |TagText(t)|] == '/'
    ensures n + StartOf(t, 0) <= |s| && AttribScan(s, n, 0, 0, "") == AttribScan(s, n + StartOf(t, 0), 1, 0, "")
  {
    hide TokenAt, Has, AttrsText;
    var rest := AttrsText(t.attrs);
    NoAttrs();
    assert t.attrs[..0] == [];
    HasConcat(s, n, t.name + rest, t.trail);
    HasConcat(s, n, t.name, rest);
    BehindName(s, n + |t.name|, t);
    HasNothing(s, n);
    BlankName(s, n, "", t.name);
  }

  lemma AfterName(s: string, n: nat, t: Tag, k: nat)
    requires WfTag(t) && k < |t.attrs| && Has(s, n, TagText(t))
    ensures var p := n + StartOf(t, k) + |t.attrs[k].pre| + |t.attrs[k].name|;
            && p <= |s| && n + StartOf(t, k + 1) <= |s|
            && AttribScan(s, p, 0, 0, "") == AttribScan(s, n + StartOf(t, k + 1), 2, 0, "")
  {
    hide TokenAt, Has, TagText, AttrText;
    var a, m := t.attrs[k], n + StartOf(t, k);
    AttrHere(s, n, t, k);
    AttrTokens(s, m, a);
    NextStart(t, k);
    TextBound(s, m, AttrText(a));
    var p := m + |a.pre| + |a.name|;
    var eq := p + |a.eqL|;
    assert AttribScan(s, p, 0, 0, "") == AttribScan(s, eq + 1, 1, 0, "");
    assert AttribScan(s, eq + 1, 1, 0, "") == AttribScan(s, ValueToken(m, a).next, 2, 0, "");
  }

  lemma TextBound(s: string, m: nat, x: string)
    requires Has(s, m, x)
    ensures m + |x| <= |s|
  {
  }

  lemma NextStart(t: Tag, k: nat)
    requires k < |t.attrs|
    ensures StartOf(t, k + 1) == StartOf(t, k) + |AttrText(t.attrs[k])|
  {
    hide AttrsText, AttrText;
    assert t.attrs[..k + 1] == t.attrs[..k] + [t.attrs[k]];
    AttrsConcat(t.attrs[..k], [t.attrs[k]]);
    AttrsOne(t.attrs[k]);
  }

  /** The two tokens behind the name. */
  lemma BehindAttr(s: string, n: nat, t: Tag, k: nat)
    requires WfTag(t) && k < |t.attrs| && Has(s, n, TagText(t))
    ensures var m := n + StartOf(t, k); var p := m + |t.attrs[k].pre| + |t.attrs[k].name|;
            && p <= |s| && TokenAt(s, p).found && !TokenAt(s, p).isString && s[TokenAt(s, p).nL] == '='
            && TokenAt(s, TokenAt(s, p).next) == ValueToken(m, t.attrs[k])
  {
    hide TokenAt, Has, TagText, AttrText;
    AttrHere(s, n, t, k);
    AttrTokens(s, n + StartOf(t, k), t.attrs[k]);
  }

  // ----- what is read afterwards ---------------------------------------------

  lemma WithoutAt(t: Tag, k: nat, j: nat)
    requires k < |t.attrs| && j < |t.attrs| - 1
    ensures |Without(t, k).attrs| == |t.attrs| - 1
    ensures var a, b := Without(t, k).attrs[j], t.attrs[if j < k then j else j + 1]; a.name == b.name && a.raw == b.raw
  {
  }

  /** Every attribute but the removed one is read as before. */
  lemma GetWithout(t: Tag, k: nat, other: string)
    requires k < |t.attrs| && FirstMatch(t.attrs, other) != k
    ensures GetRaw(Without(t, k), other) == GetRaw(t, other)
  {
    hide Match, FirstMatch, Without;
    var i, u := FirstMatch(t.attrs, other), Without(t, k);
    var n := |t.attrs| - 1;
    WithoutSize(t, k);
    forall j: nat | j < n ensures Match(u.attrs[j].name, other) <==>
        Match(t.attrs[if j < k then j else j + 1].name, other) {
      WithoutAt(t, k, j);
    }
    var r := FirstMatch(u.attrs, other);
    if i <= n {
      var j: nat := if i < k then i else i - 1;
      WithoutAt(t, k, j);
      assert r <= j;
      assert r == j;
    }
  }

  /** One attribute fewer matches a name the removed one matches. */
  lemma CountWithout(t: Tag, k: nat, name: string)
    requires k < |t.attrs| && Match(t.attrs[k].name, name)
    ensures CountMatches(Without(t, k).attrs, name) == CountMatches(t.attrs, name) - 1
  {
    hide Match, CountMatches;
    var xs, a, ys := t.attrs[..k], t.attrs[k], t.attrs[k + 1..];
    var left := LeftOf(a);
    assert t.attrs == xs + ([a] + ys);
    MatchesConcat(xs, [a] + ys, name);
    MatchesConcat([a], ys, name);
    MatchesConcat(xs, Padded(left, ys), name);
    MatchesOne(a, name);
    MatchesPadded(left, ys, name);
  }

  lemma MatchesOne(a: Attr, name: string)
    ensures CountMatches([a], name) == if Match(a.name, name) then 1 else 0
  {
    hide Match;
    assert [a][1..] == [];
  }

  lemma MatchesPadded(left: string, attrs: seq<Attr>, name: string)
    ensures CountMatches(Padded(left, attrs), name) == CountMatches(attrs, name)
  {
    hide Match;
    if attrs != [] { assert Padded(left, attrs)[1..] == attrs[1..]; }
  }

  /** From `doc` to `doc'` the first attribute that matches `name` is gone: one blank, its name, '=' and its value with
      both quotes; all other text stays. */
  ghost predicate AttribCut(doc: string, doc': string, n: nat, name: string, at: nat) {
    && n <= at < |doc| && Is(Blank, doc[at])
    && var x := TokenAt(doc, at + 1);
       && x.found && !x.isString && x.nL == at + 1 && Match(doc[x.nL..x.next], name)
       && var eq := TokenAt(doc, x.next);
          && eq.found && !eq.isString && doc[eq.nL] == '='
          && var v := TokenAt(doc, eq.next);
             && v.isString && v == AttribScan(doc, n, 0, 0, name)
             && 0 <= v.nR + 2 <= |doc| && doc' == doc[..at] + doc[v.nR + 2..]
  }

  lemma CutIs(doc: string, n: nat, t: Tag, name: string)
    requires WfTag(t) && name != "" && Has(doc, n, TagText(t)) && n + |TagText(t)| < |doc|
    requires doc[n + |TagText(t)|] == '>' || doc[n + |TagText(t)|] == '/'
    requires FirstMatch(t.attrs, name) < |t.attrs|
    ensures var k := FirstMatch(t.attrs, name); var a := t.attrs[k];
            var at, len := n + StartOf(t, k) + |a.pre| - 1, |AttrText(a)| - |a.pre| + 1;
            && 0 <= at && 0 <= len && at + len <= |doc|
            && AttribCut(doc, Splice(doc, at, len, ""), n, name, at)
  {
    hide TokenAt, Has, TagText, AttrText, FirstMatch, Match, AttribScan, AttrsText, ValueStart;
    var k := FirstMatch(t.attrs, name);
    var a, m := t.attrs[k], n + StartOf(t, k);
    AttrHere(doc, n, t, k);
    TextBound(doc, m, AttrText(a));
    AttrTokens(doc, m, a);
    PreBlank(doc, m, a);
    NameAt(doc, m, a);
    ScanTag(doc, n, t, name);
    ValueStartIs(t.attrs, k);
    var at, len := m + |a.pre| - 1, |AttrText(a)| - |a.pre| + 1;
    assert Splice(doc, at, len, "") == doc[..at] + doc[at + len..];
  }

  lemma {:induction false} ValueStartIs(attrs: seq<Attr>, k: nat)
    requires k < |attrs|
    ensures ValueStart(attrs, k) == |AttrsText(attrs[..k])| + |AttrHead(attrs[k])|
    decreases k
  {
    hide AttrText, AttrHead, AttrsText;
    AttrsStep(attrs[..k]);
    if k > 0 {
      assert attrs[..k][1..] == attrs[1..][..k - 1] && attrs[..k][0] == attrs[0];
      ValueStartIs(attrs[1..], k - 1);
    }
  }

  lemma PreBlank(s: string, m: nat, a: Attr)
    requires WfAttr(a) && Has(s, m, AttrText(a))
    ensures m + |a.pre| <= |s| && |a.pre| > 0 && Is(Blank, s[m + |a.pre| - 1])
  {
    hide Has;
    HasChar(s, m, AttrText(a), |a.pre| - 1);
    assert AttrText(a)[|a.pre| - 1] == a.pre[|a.pre| - 1];
  }

  /** The search that stands on a name finds it. */
  lemma NameAt(s: string, m: nat, a: Attr)
    requires WfAttr(a) && Has(s, m, AttrText(a))
    ensures var p := m + |a.pre|; p <= |s| && TokenAt(s, p) == TokenAt(s, m)
  {
    hide TokenAt, Has, AttrText, AttrHead;
    SplitAttr(s, m, a);
    var p := m + |a.pre|;
    if a.eqL != "" { HasChar(s, p + |a.name|, a.eqL, 0); }
    BlankName(s, m, a.pre, a.name);
    HasNothing(s, p);
    BlankName(s, p, "", a.name);
  }

  lemma WithoutSize(t: Tag, k: nat)
    requires k < |t.attrs|
    ensures |Without(t, k).attrs| == |t.attrs| - 1
  {
  }
}

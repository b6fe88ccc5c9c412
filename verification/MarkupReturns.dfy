/**
 When the parser returns: its search for a start tag stays where it is exactly at
 a '<' that blanks separate from a '?' or '!'.
 */
module MarkupReturns {
  import opened TextScan
  import opened ElemIndex
  import opened MarkupParse
  import opened MarkupWellFormed

  predicate MarkAt(s: string, j: nat) { j < |s| && (s[j] == '?' || s[j] == '!') }

  /** A '<', blanks, and then '?' or '!'. */
  predicate BlankMark(s: string, at: nat) {
    at + 1 < |s| && s[at] == '<' && Is(Blank, s[at + 1]) && MarkAt(s, SkipAny(s, at + 1, Blank))
  }

  /** From `n` a gap leads to such a mark. */
  ghost predicate Stuck(s: string, n: nat) { exists g :: GapOk(g) && Has(s, n, g) && BlankMark(s, n + |g|) }

  // ----- the search stays at such a mark -------------------------------------

  lemma MarkNode(s: string, at: nat)
    requires BlankMark(s, at)
    ensures var j := SkipAny(s, at + 1, Blank);
            NodeAt(s, at).0 == Element && TokenAt(s, at + 1) == Token(j, j, j + 1, false, true)
  {
    hide FindStr, DocTypeEnd, SkipAny;
    var j := SkipAny(s, at + 1, Blank);
    FindAnyHere(s, j);
  }

  lemma MarkEndless(s: string, at: nat)
    requires BlankMark(s, at)
    ensures StartAt(s, at) == Endless
  {
    hide NodeAt, TokenAt;
    MarkNode(s, at);
    assert FindAny(s, at, Only('<')) == at;
  }

  lemma EndlessBehind(s: string, n: nat, g: string)
    requires GapOk(g) && Has(s, n, g) && BlankMark(s, n + |g|)
    ensures n <= |s| && StartAt(s, n) == Endless
  {
    hide StartAt, GapFrom;
    GapSkip(s, n, g, 0);
    MarkEndless(s, n + |g|);
  }

  // ----- and nowhere else ----------------------------------------------------

  lemma StrBack(s: string, n: nat, g: string, j: nat, pat: string)
    requires Has(s, n, g) && j <= |g| && pat != "" && FindStr(s, n + j, pat) < |s|
    requires FindStr(s, n + j, pat) + |pat| <= n + |g|
    ensures FindStr(g, j, pat) == FindStr(s, n + j, pat) - n
  {
    hide FindStr;
    var f := FindStr(s, n + j, pat) - n;
    HasIn(s, n, g, f, pat);
    var r := FindStr(g, j, pat);
    if r < f { HasIn(s, n, g, r, pat); }
  }

  /** A token that ends inside `g` is a token of `g`. */
  lemma TokenBack(s: string, n: nat, g: string, j: nat)
    requires Has(s, n, g) && j <= |g| && TokenAt(s, n + j).found
    requires var t := TokenAt(s, n + j);
             t.next < n + |g| || (t.next == n + |g| && !t.isString && Is(Separator, s[t.nL]))
    ensures var t := TokenAt(s, n + j);
            n + j <= t.nL && TokenAt(g, j) == Token(t.nL - n, t.nR - n, t.next - n, t.isString, true)
  {
    hide FindAny, SkipAny, Has;
    var b := SkipAny(s, n + j, Blank);
    var i: nat := b - n;
    forall k | j <= k < i ensures Is(Blank, g[k]) { HasChar(s, n, g, k); }
    HasChar(s, n, g, i);
    SkipAnyIs(g, j, Blank, i);
    if IsQuote(s[b]) {
      var q := FindAny(s, b + 1, Only(s[b]));
      forall k | i + 1 <= k < q - n ensures !Is(Only(s[b]), g[k]) { HasChar(s, n, g, k); }
      HasChar(s, n, g, q - n);
      FindAnyIs(g, i + 1, Only(s[b]), q - n);
    } else if Is(Separator, s[b]) {
      FindAnyHere(s, b);
      FindAnyHere(g, i);
    } else {
      var e := FindAny(s, b, Separator);
      forall k | i <= k < e - n ensures !Is(Separator, g[k]) { HasChar(s, n, g, k); }
      HasChar(s, n, g, e - n);
      FindAnyIs(g, i, Separator, e - n);
    }
  }

  /** What a token of a document type does to the bracket count, and whether it ends it. */
  function Nesting(c: char, isString: bool, brackets: int): int {
    if isString then brackets else if c == '[' then brackets + 1 else if c == ']' then brackets - 1 else brackets
  }

  predicate Closing(c: char, isString: bool, brackets: int) { !isString && brackets == 0 && c == '>' }

  function FirstChar(s: string, t: Token): char { if t.nL < |s| then s[t.nL] else '\0' }

  lemma DocTypeStep(s: string, i: nat, brackets: int)
    requires i <= |s| && TokenAt(s, i).found
    ensures var t := TokenAt(s, i); var c := FirstChar(s, t);
            DocTypeEnd(s, i, brackets) ==
              if Closing(c, t.isString, brackets) then t.next
                 else DocTypeEnd(s, t.next, Nesting(c, t.isString, brackets))
  {
    hide TokenAt;
  }

  lemma {:induction false} DocTypeBack(s: string, n: nat, g: string, j: nat, brackets: int)
    requires Has(s, n, g) && j <= |g| && DocTypeEnd(s, n + j, brackets) != 0 &&
             DocTypeEnd(s, n + j, brackets) <= n + |g|
    ensures DocTypeEnd(g, j, brackets) == DocTypeEnd(s, n + j, brackets) - n
    decreases |g| - j
  {
    hide TokenAt, Has, DocTypeEnd, Nesting, Closing;
    var t := TokenAt(s, n + j);
    LastToken(s, n + j, brackets);
    TokenBack(s, n, g, j);
    DocTypeStep(s, n + j, brackets);
    DocTypeStep(g, j, brackets);
    if !t.isString { HasChar(s, n, g, t.nL - n); }
    var c := FirstChar(s, t);
    SameCounting(c, FirstChar(g, TokenAt(g, j)), t.isString, brackets);
    if !Closing(c, t.isString, brackets) { DocTypeBack(s, n, g, t.next - n, Nesting(c, t.isString, brackets)); }
  }

  lemma SameCounting(c: char, d: char, isString: bool, brackets: int)
    requires isString || c == d
    ensures Closing(c, isString, brackets) == Closing(d, isString, brackets)
    ensures Nesting(c, isString, brackets) == Nesting(d, isString, brackets)
  {
  }

  /** Only the closing '>' may reach the end of a document type. */
  lemma LastToken(s: string, i: nat, brackets: int)
    requires i <= |s| && DocTypeEnd(s, i, brackets) != 0
    ensures var t, r := TokenAt(s, i), DocTypeEnd(s, i, brackets);
            t.found && (t.next < r || (t.next == r && !t.isString && Is(Separator, s[t.nL])))
  {
    hide TokenAt;
  }

  /** A document type is at least three characters long. */
  lemma DocTypeLength(s: string, i: nat)
    requires i + 2 < |s| && s[i] == '<' && s[i + 1] == '!' && DocTypeEnd(s, i, 0) != 0
    ensures DocTypeEnd(s, i, 0) >= i + 3
  {
    hide TokenAt;
    SpecialToken(s, i);
    SpecialToken(s, i + 1);
    assert DocTypeEnd(s, i, 0) == DocTypeEnd(s, i + 1, 0);
    assert DocTypeEnd(s, i + 1, 0) == DocTypeEnd(s, i + 2, 0);
  }

  /** A node of `s` that ends inside `g` is a node of `g`. */
  lemma NodeBack(s: string, n: nat, g: string, j: nat)
    requires Has(s, n, g) && j < |g| && g[j] == '<' && Passed(NodeAt(s, n + j).0) && NodeAt(s, n + j).1 <= n + |g|
    ensures NodeAt(g, j) == (NodeAt(s, n + j).0, NodeAt(s, n + j).1 - n)
  {
    hide FindStr, DocTypeEnd, TokenAt, Has;
    HasChar(s, n, g, j);
    NodeLength(s, n + j);
    HasChar(s, n, g, j + 1);
    HasChar(s, n, g, j + 2);
    if NodeAt(s, n + j).0.DocType? {
      DocTypeBack(s, n, g, j, 0);
    } else {
      var pat := if g[j + 1] == '?' then "?>" else if g[j + 2] == '[' then "]]>" else "-->";
      StrBack(s, n, g, j, pat);
    }
  }

  lemma NodeLength(s: string, i: nat)
    requires i < |s| && s[i] == '<' && Passed(NodeAt(s, i).0)
    ensures i + 2 < |s| && NodeAt(s, i).1 >= i + 3
  {
    hide FindStr, DocTypeEnd, TokenAt, Has;
    if NodeAt(s, i).0.DocType? {
      DocTypeLength(s, i);
    } else {
      var pat := if s[i + 1] == '?' then "?>" else if s[i + 2] == '[' then "]]>" else "-->";
      var f := FindStr(s, i, pat);
      HasChar(s, f, pat, 0);
    }
  }

  lemma ElementMark(s: string, at: nat)
    requires at < |s| && s[at] == '<' && NodeAt(s, at).0 == Element
    requires TokenAt(s, at + 1).found && !TokenAt(s, at + 1).isString && MarkAt(s, TokenAt(s, at + 1).nL)
    ensures BlankMark(s, at)
  {
    hide FindStr, DocTypeEnd, FindAny;
    var j := SkipAny(s, at + 1, Blank);
    assert j != at + 1;
    assert Is(Blank, s[at + 1]);
  }

  /** A gap goes on through a node and the gap behind it. */
  lemma GapOver(s: string, n: nat, at: nat, h: string)
    requires n <= at < |s| && s[at] == '<' && (forall i :: n <= i < at ==> s[i] != '<') && Passed(NodeAt(s, at).0)
    requires GapOk(h) && Has(s, NodeAt(s, at).1, h)
    ensures var m := NodeAt(s, at).1 + |h|; n <= m <= |s| && GapOk(s[n..m])
  {
    hide NodeAt, FindAny;
    var next := NodeAt(s, at).1;
    NodeEnds(s, at);
    var m := next + |h|;
    var t, g := s[n..next], s[n..m];
    HasSlice(s, next, h);
    assert g == t + h;
    assert Has(s, n, g);
    assert forall i :: 0 <= i < at - n ==> g[i] == s[n + i];
    FindAnyIs(g, 0, Only('<'), at - n);
    NodeBack(s, n, g, at - n);
    GapShift(t, h, 0);
  }

  lemma NodeEnds(s: string, at: nat)
    requires at < |s| && Passed(NodeAt(s, at).0)
    ensures at < NodeAt(s, at).1 <= |s|
  {
    hide NodeAt;
  }

  /** Where the search stays, a gap led there. */
  lemma {:induction false} EndlessGap(s: string, n: nat) returns (g: string)
    requires n <= |s| && StartAt(s, n).Endless?
    ensures GapOk(g) && Has(s, n, g) && BlankMark(s, n + |g|)
    decreases |s| - n
  {
    hide NodeAt, TokenAt, FindAny, GapFrom, BlankMark, Has;
    var at := FindAny(s, n, Only('<'));
    SearchStep(s, n);
    if NodeAt(s, at).0 == Element {
      ElementMark(s, at);
      g := s[n..at];
      NoMarkGap(g);
      SliceHas(s, n, at);
    } else {
      var h := EndlessGap(s, NodeAt(s, at).1);
      GapOver(s, n, at, h);
      var m := NodeAt(s, at).1 + |h|;
      g := s[n..m];
      SliceHas(s, n, m);
    }
  }

  lemma SearchStep(s: string, n: nat)
    requires n <= |s| && StartAt(s, n).Endless?
    ensures var at := FindAny(s, n, Only('<'));
            && at < |s| && s[at] == '<' && (forall i :: n <= i < at ==> s[i] != '<')
            && (if NodeAt(s, at).0 == Element
                then var t := TokenAt(s, at + 1); t.found && !t.isString && MarkAt(s, t.nL)
                else Passed(NodeAt(s, at).0) && StartAt(s, NodeAt(s, at).1).Endless?)
  {
    hide TokenAt, FindAny, FindStr, DocTypeEnd;
  }

  lemma SliceHas(s: string, n: nat, m: nat)
    requires n <= m <= |s|
    ensures Has(s, n, s[n..m]) && |s[n..m]| == m - n
  {
  }

  /** The search for a start tag never ends exactly if a gap leads to such a mark. */
  lemma EndlessIff(s: string, n: nat)
    requires n <= |s|
    ensures StartAt(s, n).Endless? <==> Stuck(s, n)
  {
    hide StartAt, GapFrom, Has, BlankMark;
    if StartAt(s, n).Endless? {
      var g := EndlessGap(s, n);
    }
    if g :| GapOk(g) && Has(s, n, g) && BlankMark(s, n + |g|) { EndlessBehind(s, n, g); }
  }

  // ----- the whole parse -----------------------------------------------------

  /** The positions from which a parse searches for a start tag. */
  ghost function ElemSearches(s: string, n: nat, slot: Slot): set<nat>
    requires n <= |s|
    decreases |s| - n, 0
  {
    match StartAt(s, n)
    case Open(_, _, startR) => if s[startR - 1] == '/' then {n} else {n} + KidsSearches(s, startR + 1, slot + 1)
    case _ => {n}
  }

  ghost function KidsSearches(s: string, n: nat, slot: Slot): set<nat>
    requires n <= |s|
    decreases |s| - n, 1
  {
    match ParseElem(s, n, slot)
    case Elem(node, free) => ElemSearches(s, n, slot) + KidsSearches(s, node.endR + 1, free)
    case _ => ElemSearches(s, n, slot)
  }

  /** The parser does not return exactly if one of its searches is stuck. */
  lemma {:induction false} DivergesIff(s: string, n: nat, slot: Slot)
    requires n <= |s|
    ensures ParseElem(s, n, slot).Diverges? <==> exists m :: m in ElemSearches(s, n, slot) && Stuck(s, m)
    decreases |s| - n, 0
  {
    hide StartAt, Stuck, ParseKids, EndTagAt, KidsSearches;
    EndlessIff(s, n);
    var st := StartAt(s, n);
    assert n in ElemSearches(s, n, slot);
    if st.Open? && s[st.startR - 1] != '/' {
      KidsDivergeIff(s, st.startR + 1, slot + 1);
      assert forall m :: m in ElemSearches(s, n, slot) ==> m == n || m in KidsSearches(s, st.startR + 1, slot + 1);
    } else {
      assert ElemSearches(s, n, slot) == {n};
    }
  }

  lemma {:induction false} KidsDivergeIff(s: string, n: nat, slot: Slot)
    requires n <= |s|
    ensures ParseKids(s, n, slot).DivergesKids? <==> exists m :: m in KidsSearches(s, n, slot) && Stuck(s, m)
    decreases |s| - n, 1
  {
    hide ParseElem, Stuck, ElemSearches;
    DivergesIff(s, n, slot);
    var e := ParseElem(s, n, slot);
    if e.Elem? {
      KidsDivergeIff(s, e.node.endR + 1, e.free);
    }
  }

  /** In particular it does not return where the first gap ends at such a mark... */
  lemma BlankMarkDiverges(s: string, n: nat, g: string, slot: Slot)
    requires GapOk(g) && Has(s, n, g) && BlankMark(s, n + |g|)
    ensures n <= |s| && ParseElem(s, n, slot) == Diverges
  {
    hide StartAt, GapFrom, Has, BlankMark;
    EndlessBehind(s, n, g);
  }

  /** ...and returns if there is no such mark at all. */
  lemma ParseReturns(s: string, n: nat, slot: Slot)
    requires n <= |s| && forall at :: 0 <= at < |s| ==> !BlankMark(s, at)
    ensures !ParseElem(s, n, slot).Diverges?
  {
    hide ParseElem, GapFrom, ElemSearches;
    DivergesIff(s, n, slot);
  }

  /** A mark the parser does not come to does not matter. */
  lemma MarkBehindRoot()
    ensures BlankMark("<a/>< ?", 4) && !ParseElem("<a/>< ?", 0, 1).Diverges?
  {
    hide FindStr, DocTypeEnd;
    var s := "<a/>< ?";
    SkipAnyIs(s, 5, Blank, 6);
    assert FindAny(s, 0, Only('<')) == 0;
    assert SkipAny(s, 1, Blank) == 1;
    FindAnyIs(s, 1, Separator, 2);
    assert TokenAt(s, 1) == Token(1, 1, 2, false, true);
    FindAnyIs(s, 2, Only('>'), 3);
    assert StartAt(s, 0).Open? && StartAt(s, 0).startR == 3;
  }
}

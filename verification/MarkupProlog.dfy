/**
 The loop of x_AddSubDoc over the nodes before the first element of a
 subdocument. It takes the end of a node, which counts from the start of that
 node, for a position in the subdocument.
 */
module MarkupProlog {
  import opened Basics
  import opened TextScan
  import opened MarkupParse
  import opened MarkupWellFormed

  predicate Last(k: NodeKind) { k == NoNode || k == Element }

  // ----- what the loop is for ------------------------------------------------

  /** Behind the nodes before the first element: a version tag, a document type, comments, white space, text. */
  function Prolog(s: string, n: nat): (r: nat)
    requires n <= |s|
    ensures n <= r <= |s| && Last(NodeAt(s, r).0)
    decreases |s| - n
  {
    var node := NodeAt(s, n);
    if Last(node.0) then n else Prolog(s, node.1)
  }

  // ----- what it does --------------------------------------------------------

  predicate AtStop(s: string, p: nat)
    requires p <= |s|
  {
    Last(NodeAt(s[p..], 0).0)
  }

  /** Where the text of the next node is looked for: the length of the node at `p`. */
  function NextBase(s: string, p: nat): (r: nat)
    requires p <= |s|
    ensures r <= |s|
  {
    NodeAt(s[p..], 0).1
  }

  /** Where the loop stands after `k` rounds. */
  function Base(s: string, k: nat): (p: nat)
    ensures p <= |s|
  {
    if k == 0 then 0
    else
      var p := Base(s, k - 1);
      if AtStop(s, p) then p else NextBase(s, p)
  }

  /** The loop ends. */
  ghost predicate Stops(s: string) { exists k :: AtStop(s, Base(s, k)) }

  /** Where it ends, if it does. */
  function Skipped(s: string): (p: nat)
    ensures p <= |s|
  {
    Base(s, |s| + 1)
  }

  lemma {:induction false} StaysPut(s: string, k: nat, m: nat)
    requires k <= m && AtStop(s, Base(s, k))
    ensures Base(s, m) == Base(s, k)
    decreases m
  {
    hide AtStop, NextBase;
    if k < m { StaysPut(s, k, m - 1); }
  }

  lemma {:induction false} Pigeon(f: seq<nat>, n: nat)
    requires Distinct(f) && forall i :: 0 <= i < |f| ==> f[i] < n
    ensures |f| <= n
    decreases n
  {
    if i :| 0 <= i < |f| && f[i] == n - 1 {
      var g := f[..i] + f[i + 1..];
      assert forall k :: 0 <= k < |g| ==> g[k] == f[if k < i then k else k + 1];
      Pigeon(g, n - 1);
    } else if f != [] {
      assert f[0] < n;
      Pigeon(f, n - 1);
    }
  }

  function Bases(s: string, n: nat): (f: seq<nat>)
    ensures |f| == n && forall k :: 0 <= k < n ==> f[k] == Base(s, k)
  {
    seq(n, k requires 0 <= k < n => Base(s, k))
  }

  /** A loop that comes back to where it was goes round for ever. */
  lemma {:induction false} GoesRound(s: string, i: nat, j: nat, k: nat)
    requires i < j && Base(s, i) == Base(s, j) && forall m :: 0 <= m < j ==> !AtStop(s, Base(s, m))
    ensures !AtStop(s, Base(s, k)) && (k >= j ==> Base(s, k) == Base(s, k - (j - i)))
    decreases k
  {
    hide AtStop, NextBase;
    if k >= j {
      GoesRound(s, i, j, k - (j - i));
      if k > j {
        GoesRound(s, i, j, k - 1);
        GoesRound(s, i, j, k - 1 - (j - i));
      }
    }
  }

  /** The loop ends exactly if it has ended after one round more than there are characters. */
  lemma StopsIff(s: string)
    ensures Stops(s) <==> AtStop(s, Skipped(s))
  {
    hide AtStop, NextBase, Base;
    var n := |s| + 1;
    if !AtStop(s, Base(s, n)) {
      forall m | 0 <= m <= n ensures !AtStop(s, Base(s, m)) {
        if AtStop(s, Base(s, m)) { StaysPut(s, m, n); }
      }
      var f := Bases(s, n + 1);
      if Distinct(f) { Pigeon(f, n); }
      var i, j :| 0 <= i < j < |f| && f[i] == f[j];
      forall k ensures !AtStop(s, Base(s, k)) { GoesRound(s, i, j, k); }
    }
  }

  /** The loop of x_AddSubDoc. */
  method SkipProlog(s: string) returns (p: nat)
    requires Stops(s)
    ensures p == Skipped(s) && AtStop(s, p)
  {
    hide NodeAt;
    StopsIff(s);
    p := 0;
    ghost var k := 0;
    var kind, next := ParseNode(s[p..], 0);
    while kind != NoNode && kind != Element
      invariant p <= |s| && (kind, next) == NodeAt(s[p..], 0) && k <= |s| + 1 && p == Base(s, k)
      decreases |s| + 1 - k
    {
      p := next;
      k := k + 1;
      kind, next := ParseNode(s[p..], 0);
    }
    StaysPut(s, k, |s| + 1);
  }

  // ----- when it does what it is for -----------------------------------------

  /** A node is the same node in the text from its start on. */
  lemma NodeSuffix(s: string, p: nat)
    requires p <= |s|
    ensures var x, y := NodeAt(s[p..], 0), NodeAt(s, p); x.0 == y.0 && (y.0 != NoNode ==> y.1 == p + x.1)
  {
    hide NodeAt;
    var t, g := s[..p], s[p..];
    assert s == t + g;
    if g == "" { NodeNone(s, p); } else if g[0] == '<' { MarkedSuffix(t, g); } else { PlainSuffix(t, g); }
  }

  lemma NodeNone(s: string, p: nat)
    requires p == |s|
    ensures NodeAt(s[p..], 0) == (NoNode, 0) && NodeAt(s, p) == (NoNode, 0)
  {
  }

  lemma MarkedSuffix(t: string, g: string)
    requires g != "" && g[0] == '<'
    ensures var x, y := NodeAt(g, 0), NodeAt(t + g, |t|); x.0 == y.0 && (y.0 != NoNode ==> y.1 == |t| + x.1)
  {
    hide FindStr, DocTypeEnd, TokenAt, FindAny;
    var s := t + g;
    assert forall i :: 0 <= i < |g| ==> s[|t| + i] == g[i];
    DelimitedShift(t, g, Instruction, "?>");
    DelimitedShift(t, g, CData, "]]>");
    DelimitedShift(t, g, Comment, "-->");
    DocTypeShift(t, g, 0, 0);
    if |g| > 2 { assert s[|t| + 1] == g[1] && s[|t| + 2] == g[2]; }
    assert s[|t| + 0] == g[0];
  }

  lemma DelimitedShift(t: string, g: string, kind: NodeKind, close: string)
    requires close != ""
    ensures var x, y := Delimited(g, 0, kind, close), Delimited(t + g, |t|, kind, close);
            x.0 == y.0 && (y.0 != NoNode ==> y.1 == |t| + x.1)
  {
    hide FindStr;
    FindStrShift(t, g, 0, close);
  }

  lemma PlainSuffix(t: string, g: string)
    requires g != "" && g[0] != '<'
    ensures var x, y := NodeAt(g, 0), NodeAt(t + g, |t|); x.0 == y.0 && (y.0 != NoNode ==> y.1 == |t| + x.1)
  {
    hide FindStr, DocTypeEnd, TokenAt, FindAny;
    var s, k := t + g, TokenAt(g, 0);
    assert s[|t|] == g[0];
    TokenShift(t, g, 0);
    if k.found {
      if k.nL < |g| { assert s[|t| + k.nL] == g[k.nL]; }
      FindAnyShift(t, g, k.next, Only('<'));
    }
  }

  lemma StepIs(s: string, p: nat)
    requires p <= |s|
    ensures AtStop(s, p) <==> Last(NodeAt(s, p).0)
    ensures !AtStop(s, p) ==> NextBase(s, p) == NodeAt(s, p).1 - p
  {
    hide NodeAt;
    NodeSuffix(s, p);
  }

  /** With no node or one node before the first element the loop finds the element. */
  lemma OneNode(s: string)
    requires Short(s)
    ensures Stops(s) && Skipped(s) == Prolog(s, 0)
  {
    hide NodeAt, Base, Prolog, AtStop, NextBase;
    StepIs(s, 0);
    var a := NodeAt(s, 0);
    StepIs(s, a.1);
    FirstBases(s);
    ShortProlog(s);
    var k := if Last(a.0) then 0 else 1;
    assert AtStop(s, Base(s, k));
    StaysPut(s, k, |s| + 1);
  }

  /** At most one node stands before the first element. */
  predicate Short(s: string) {
    var a := NodeAt(s, 0);
    Last(a.0) || Last(NodeAt(s, a.1).0)
  }

  /** In round `k` the loop meets a node as long as all that stands before the first element. */
  predicate MeetsLength(s: string, k: nat) {
    var p := Base(s, k);
    k > 0 && !AtStop(s, p) && NodeAt(s, p).1 == p + Prolog(s, 0)
  }

  /** The loop ends at the first element exactly if at most one node stands before it, or the loop meets a node, behind
      the first, that is as long as all of them together. */
  lemma RootIff(s: string)
    ensures Stops(s) && Skipped(s) == Prolog(s, 0) <==> Short(s) || exists k :: MeetsLength(s, k)
  {
    hide NodeAt, Base, Prolog, AtStop, NextBase;
    if Short(s) {
      OneNode(s);
    } else {
      if k :| MeetsLength(s, k) { MetLength(s, k); }
      if Stops(s) && Skipped(s) == Prolog(s, 0) { var k := LastRound(s); }
    }
  }

  lemma MetLength(s: string, k: nat)
    requires MeetsLength(s, k)
    ensures Stops(s) && Skipped(s) == Prolog(s, 0)
  {
    hide NodeAt, Base, Prolog, AtStop, NextBase;
    var r, n := Prolog(s, 0), |s| + 1;
    StepIs(s, Base(s, k));
    NextRound(s, k + 1);
    StepIs(s, r);
    assert AtStop(s, Base(s, k + 1));
    StopsIff(s);
    if k < n { StaysPut(s, k + 1, n); } else { StaysPut(s, n, k); }
  }

  lemma LastRound(s: string) returns (k: nat)
    requires !Short(s) && Stops(s) && Skipped(s) == Prolog(s, 0)
    ensures MeetsLength(s, k)
  {
    hide NodeAt, Base, Prolog, AtStop, NextBase;
    var m: nat :| AtStop(s, Base(s, m));
    k := m;
    TwoNodes(s);
    FirstBases(s);
    while k > 0 && AtStop(s, Base(s, k - 1))
      invariant AtStop(s, Base(s, k))
    {
      k := k - 1;
    }
    StopsIff(s);
    if k <= |s| + 1 { StaysPut(s, k, |s| + 1); } else { StaysPut(s, |s| + 1, k); }
    k := k - 1;
    NextRound(s, k + 1);
    StepIs(s, Base(s, k));
    LongProlog(s);
  }

  lemma LongProlog(s: string)
    requires !Short(s)
    ensures NodeAt(s, 0).1 < Prolog(s, 0)
  {
    hide NodeAt;
    var a := NodeAt(s, 0).1;
    assert Prolog(s, 0) == Prolog(s, a) == Prolog(s, NodeAt(s, a).1);
  }

  /** Where no node found from inside the text before the first element goes past its end, only the number of nodes
      counts. */
  lemma NothingSpans(s: string)
    requires var r := Prolog(s, 0); forall p :: 0 < p < r && !Last(NodeAt(s, p).0) ==> NodeAt(s, p).1 <= r
    ensures Stops(s) && Skipped(s) == Prolog(s, 0) <==> Short(s)
  {
    hide NodeAt, Base, Prolog, AtStop, NextBase, Short;
    RootIff(s);
    if !Short(s) {
      forall k ensures !MeetsLength(s, k) {
        if k > 0 {
          BaseWithin(s, k);
          StepIs(s, Base(s, k));
        }
      }
    }
  }

  lemma {:induction false} BaseWithin(s: string, k: nat)
    requires !Short(s) && k > 0
    requires var r := Prolog(s, 0); forall p :: 0 < p < r && !Last(NodeAt(s, p).0) ==> NodeAt(s, p).1 <= r
    ensures 0 < Base(s, k) < Prolog(s, 0)
    decreases k
  {
    hide NodeAt, Base, Prolog, AtStop, NextBase;
    TwoNodes(s);
    LongProlog(s);
    if k > 1 {
      BaseWithin(s, k - 1);
      var p := Base(s, k - 1);
      StepIs(s, p);
      if AtStop(s, p) { StaysPut(s, k - 1, k); } else { NextRound(s, k); }
    }
  }

  lemma FirstBases(s: string)
    ensures Base(s, 0) == 0 && Base(s, 1) == if AtStop(s, 0) then 0 else NextBase(s, 0)
  {
    hide AtStop, NextBase;
    assert Base(s, 0) == 0;
  }

  lemma ShortProlog(s: string)
    requires Short(s)
    ensures Prolog(s, 0) == if Last(NodeAt(s, 0).0) then 0 else NodeAt(s, 0).1
  {
    hide NodeAt;
  }

  /** Its second and third step, with more nodes. */
  lemma TwoNodes(s: string)
    requires !Short(s)
    ensures var a := NodeAt(s, 0).1;
            Base(s, 1) == a && Base(s, 2) == NodeAt(s, a).1 - a && !AtStop(s, 0) && !AtStop(s, a)
  {
    hide NodeAt, Base, AtStop, NextBase;
    StepIs(s, 0);
    StepIs(s, NodeAt(s, 0).1);
    FirstBases(s);
    NextRound(s, 2);
  }

  /** A second node as long as the first one: the loop never ends. */
  lemma SecondAsLong(s: string)
    requires var a := NodeAt(s, 0); !Short(s) && NodeAt(s, a.1).1 == 2 * a.1
    ensures !Stops(s)
  {
    hide NodeAt, Base, AtStop, NextBase;
    TwoNodes(s);
    FirstBases(s);
    forall k ensures !AtStop(s, Base(s, k)) { GoesRound(s, 1, 2, k); }
  }

  lemma NextRound(s: string, k: nat)
    requires k > 0 && !AtStop(s, Base(s, k - 1))
    ensures Base(s, k) == NextBase(s, Base(s, k - 1))
  {
    hide AtStop, NextBase;
  }

  /** The text from `p` to the next '<' is a text node, if it is not blank and does not start with a quote. */
  lemma TextNode(s: string, p: nat, e: nat)
    requires p < e < |s| && s[e] == '<' && (forall i :: p <= i < e ==> s[i] != '<')
    requires var b := SkipAny(s, p, Blank); b < e && !IsQuote(s[b])
    ensures NodeAt(s, p) == (Text, e)
  {
    hide FindAny, SkipAny, FindStr, DocTypeEnd;
    var b := SkipAny(s, p, Blank);
    var w := FindAny(s, b, Separator);
    assert w <= e;
    var t := TokenAt(s, p);
    FindAnyIs(s, t.next, Only('<'), e);
  }

  /** White space between a declaration and the element: the loop jumps into the declaration, from there behind it, and
      so on for ever. */
  lemma DeclarationThenSpace(s: string)
    requires var a := NodeAt(s, 0);
             && !Last(a.0) && NodeAt(s, a.1).0 == Whitespace
             && var e := NodeAt(s, a.1).1; var p := e - a.1;
                && a.1 < e && p < a.1 && e < |s| && s[e] == '<' && (forall i :: p <= i < e ==> s[i] != '<')
                && SkipAny(s, p, Blank) < e && !IsQuote(s[SkipAny(s, p, Blank)])
    ensures !Stops(s)
  {
    hide NodeAt, Base, AtStop, NextBase, SkipAny;
    TwoNodes(s);
    FirstBases(s);
    var a := NodeAt(s, 0).1;
    var e := NodeAt(s, a).1;
    var p := e - a;
    TextNode(s, p, e);
    NodeSuffix(s, p);
    ThirdStep(s, p, a);
    forall k ensures !AtStop(s, Base(s, k)) { GoesRound(s, 1, 3, k); }
  }

  lemma ThirdStep(s: string, p: nat, a: nat)
    requires p <= |s| && Base(s, 2) == p && NodeAt(s[p..], 0) == (Text, a)
    ensures !AtStop(s, p) && Base(s, 3) == a
  {
    hide NodeAt, Base;
    NextRound(s, 3);
  }

  /** Two comments of the same length. */
  lemma TwoComments()
    ensures !Stops("<!--a--><!--b--><x/>")
  {
    hide DocTypeEnd, TokenAt, FindStr;
    var s := "<!--a--><!--b--><x/>";
    CommentEnd(s, 0, 5);
    CommentEnd(s, 8, 13);
    SecondAsLong(s);
  }

  lemma CommentEnd(s: string, i: nat, e: nat)
    requires i + 2 < e && e + 3 <= |s| && s[i] == '<' && s[i + 1] == '!' && s[i + 2] == '-'
    requires s[e] == '-' && s[e + 1] == '-' && s[e + 2] == '>' && forall j :: i + 2 <= j < e + 2 ==> s[j] != '>'
    ensures NodeAt(s, i) == (Comment, e + 3)
  {
    hide DocTypeEnd, TokenAt, FindStr;
    assert Has(s, e, "-->");
    var f := FindStr(s, i, "-->");
    if f < e { HasChar(s, f, "-->", 2); }
  }
}

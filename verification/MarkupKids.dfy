/**
 The elements below an element in document order, and how adding and removing
 one changes that order.
 */
module MarkupKids {
  import Basics
  import opened TextScan
  import opened ElemIndex
  import opened MarkupTree
  import opened MarkupEdit
  import opened MarkupState

  /** The elements directly in `c`, in document order. */
  function KidSeq(c: Content): seq<nat> { if c.End? then [] else [c.elem.slot] + KidSeq(c.next) }

  /** The children of element `p`, or the root for 0. */
  function KidsAt(c: Content, p: nat): seq<nat> {
    if p == 0 then KidSeq(c)
    else if p in SlotsC(c) && ElemOf(c, p).Branch? then KidSeq(ElemOf(c, p).inner)
    else []
  }

  /** `x` has joined the siblings: next to `rel`, before or behind it, or first or last if there is no `rel`. */
  ghost predicate JoinedAt(kids: seq<nat>, kids': seq<nat>, x: nat, rel: nat, insert: bool) {
    exists i :: 0 <= i <= |kids| && kids' == kids[..i] + [x] + kids[i..] && PlaceFor(kids, i, rel, insert)
  }

  predicate PlaceFor(kids: seq<nat>, i: nat, rel: nat, insert: bool)
    requires i <= |kids|
  {
    if rel != 0 then (if insert then i < |kids| && kids[i] == rel else i > 0 && kids[i - 1] == rel)
    else if insert then i == 0
    else i == |kids|
  }

  /** `x` has left its siblings; `prev` is the one before it, or 0. */
  ghost predicate LeftOut(kids: seq<nat>, kids': seq<nat>, x: nat, prev: nat) {
    exists i: nat :: i < |kids| && LeftAt(kids, kids', x, prev, i)
  }

  ghost predicate LeftAt(kids: seq<nat>, kids': seq<nat>, x: nat, prev: nat, i: nat)
    requires i < |kids|
  {
    kids[i] == x && kids' == kids[..i] + kids[i + 1..] && prev == if i > 0 then kids[i - 1] else 0
  }

  /** From `n` on, what x_FindToken skips before a mark or the end of the text ends at `m`: blanks, and a quote right
      before a mark. */
  ghost predicate Trimmed(doc: string, n: nat, m: nat) {
    && n <= m <= |doc|
    && (forall i :: n <= i < m ==> Is(Blank, doc[i]) || (i == m - 1 && IsQuote(doc[i])))
    && (m == n || m == |doc| || doc[m] == '<')
    && (forall j :: n <= j <= |doc| && (forall i :: n <= i < j ==> Is(Blank, doc[i])) && (j == |doc| || doc[j] == '<')
          ==> m == j)
  }

  lemma TrimMeans(doc: string, n: nat)
    requires n <= |doc|
    ensures Trimmed(doc, n, TrimEnd(doc, n))
  {
    hide FindAny, SkipAny;
    var b := SkipAny(doc, n, Blank);
    forall j | n <= j <= |doc| && (forall i :: n <= i < j ==> Is(Blank, doc[i])) && (j == |doc| || doc[j] == '<')
      ensures TrimEnd(doc, n) == j
    {
      assert j <= b;
      if j < |doc| { SkipAnyIs(doc, n, Blank, j); }
    }
  }

  lemma {:induction false} KidSeqTop(c: Content)
    ensures forall s :: s in KidSeq(c) <==> s in TopSlots(c)
    ensures TopDistinct(c) ==> Basics.Distinct(KidSeq(c))
  {
    if c.Kid? {
      KidSeqTop(c.next);
      var q := KidSeq(c);
      if TopDistinct(c) {
        forall i, j | 0 <= i < j < |q| ensures q[i] != q[j] {
          assert q[j] == KidSeq(c.next)[j - 1];
          if i > 0 { assert q[i] == KidSeq(c.next)[i - 1]; }
        }
      }
    }
  }

  lemma {:induction false} InsertSplit(c: Content, b: nat, k: nat, x: Elem, tail: string)
    returns (l: seq<nat>, r: seq<nat>)
    requires (b == 0 || b in TopSlots(c)) && k <= |GapAt(c, b)|
    ensures KidSeq(c) == l + r && KidSeq(InsertKid(c, b, k, x, tail)) == l + [x.slot] + r
    ensures if b == 0 then l == [] else l != [] && l[|l| - 1] == b
  {
    if b == 0 {
      l, r := [], KidSeq(c);
    } else {
      var l', r' := InsertSplit(c.next, if c.elem.slot == b then 0 else b, k, x, tail);
      l, r := [c.elem.slot] + l', r';
    }
  }

  lemma {:induction false} PrevNext(c: Content, s: nat) returns (i: nat)
    requires s in TopSlots(c) && PrevTop(c, s, 0) != 0
    ensures i + 1 < |KidSeq(c)| && KidSeq(c)[i] == PrevTop(c, s, 0) && KidSeq(c)[i + 1] == s
  {
    PrevTopQ(c.next, s, c.elem.slot);
    if c.next.elem.slot == s {
      i := 0;
    } else {
      i := PrevNext(c.next, s);
      i := i + 1;
    }
  }

  lemma {:induction false} LastKid(c: Content)
    requires c.Kid?
    ensures KidSeq(c)[|KidSeq(c)| - 1] == LastTop(c, 0)
  {
    LastTopIn(c.next, c.elem.slot);
    if c.next.Kid? { LastKid(c.next); }
  }

  /** x_LocateNew and the links of x_AddElem put the new element where the call says. */
  lemma InsertOrder(c: Content, rel: nat, insert: bool, k: nat, x: Elem, tail: string)
    requires TopDistinct(c) && (rel == 0 || rel in TopSlots(c))
    requires var b := NewBefore(c, 0, rel, insert); (b == 0 || b in TopSlots(c)) && k <= |GapAt(c, b)|
    ensures var b := NewBefore(c, 0, rel, insert);
            JoinedAt(KidSeq(c), KidSeq(InsertKid(c, b, k, x, tail)), x.slot, rel, insert)
  {
    hide KidSeq, TopSlots, InsertKid, GapAt, PrevTop, LastTop, TopDistinct;
    var b := NewBefore(c, 0, rel, insert);
    var l, r := InsertSplit(c, b, k, x, tail);
    KidSeqTop(c);
    if rel != 0 && insert {
      PrevTopQ(c, rel, 0);
      if b == 0 {
        FirstKid(c);
      } else {
        var i := PrevNext(c, rel);
        assert KidSeq(c)[|l| - 1] == KidSeq(c)[i];
        assert KidSeq(c)[|l|] == r[0];
      }
    } else if rel == 0 && !insert {
      if c.Kid? {
        LastTopIn(c, 0);
        TopIn(c);
        LastKid(c);
        assert KidSeq(c)[|l| - 1] == KidSeq(c)[|KidSeq(c)| - 1];
        assert Basics.Distinct(KidSeq(c));
        assert |l| == |KidSeq(c)|;
        assert r == [];
      } else {
        NoKids(c);
        assert r == [];
      }
    }
    var kids, i := KidSeq(c), |l|;
    assert kids[..i] == l && kids[i..] == r;
    assert PlaceFor(kids, i, rel, insert);
  }

  lemma FirstKid(c: Content)
    ensures c.Kid? ==> KidSeq(c) != [] && KidSeq(c)[0] == c.elem.slot
    ensures forall s :: s in TopSlots(c) ==> c.Kid?
  {
  }

  lemma NoKids(c: Content)
    requires c.End?
    ensures KidSeq(c) == []
  {
  }

  lemma {:induction false} RemoveSplit(c: Content, s: nat, cut: nat) returns (l: seq<nat>, r: seq<nat>)
    requires s in TopSlots(c) && cut <= |GapAt(c, s)| && s != 0
    ensures KidSeq(c) == l + [s] + r && KidSeq(RemoveKid(c, s, cut)) == l + r
  {
    if c.elem.slot == s {
      l, r := [], KidSeq(c.next);
      assert KidSeq(c) == [] + [s] + r;
    } else {
      var l', r' := RemoveSplit(c.next, s, cut);
      l, r := [c.elem.slot] + l', r';
    }
  }

  lemma RemoveOrder(c: Content, s: nat, cut: nat)
    requires s in TopSlots(c) && cut <= |GapAt(c, s)| && s != 0 && TopDistinct(c)
    ensures LeftOut(KidSeq(c), KidSeq(RemoveKid(c, s, cut)), s, PrevTop(c, s, 0))
  {
    hide KidSeq, RemoveKid, TopSlots, GapAt, PrevTop, TopDistinct;
    var l, r := RemoveSplit(c, s, cut);
    KidSeqTop(c);
    PrevTopQ(c, s, 0);
    var kids, i, prev := KidSeq(c), |l|, PrevTop(c, s, 0);
    assert kids[i] == s;
    if prev != 0 {
      var j := PrevNext(c, s);
      assert kids[j + 1] == s && j + 1 == i;
      assert l != [] && l[i - 1] == kids[i - 1] == prev;
    } else {
      FirstKid(c);
      assert kids[0] == s && i == 0;
    }
    LeftOutAt(l, s, r, prev);
  }

  lemma LeftOutAt(l: seq<nat>, s: nat, r: seq<nat>, prev: nat)
    requires prev == if l == [] then 0 else l[|l| - 1]
    ensures LeftOut(l + [s] + r, l + r, s, prev)
  {
    var kids, i := l + [s] + r, |l|;
    assert kids[..i] == l && kids[i + 1..] == r && kids[i] == s;
    assert i > 0 ==> kids[i - 1] == l[i - 1];
    var kids' := l + r;
    assert kids' == kids[..i] + kids[i + 1..];
    assert prev == if i > 0 then kids[i - 1] else 0;
    assert LeftAt(kids, kids', s, prev, i);
  }

  // ----- the tree around -----------------------------------------------------

  lemma {:induction false} ReplaceBelow(c: Content, p: nat, e: Elem, s: nat)
    requires p in SlotsC(c) && s !in SlotsC(c) && e.slot == p && e.Branch? && s in SlotsC(e.inner)
    ensures s in SlotsC(Replace(c, p, e)) && ElemOf(Replace(c, p, e), s) == ElemOf(e.inner, s)
  {
    if c.elem.slot == p {
    } else if c.elem.Branch? && p in SlotsC(c.elem.inner) { ReplaceBelow(c.elem.inner, p, e, s);
    } else { ReplaceBelow(c.next, p, e, s); }
  }

  lemma {:induction false} InsertElemOf(c: Content, b: nat, k: nat, x: Elem, tail: string)
    requires (b == 0 || b in TopSlots(c)) && k <= |GapAt(c, b)| && x.slot !in SlotsC(c)
    ensures var d := InsertKid(c, b, k, x, tail); x.slot in SlotsC(d) && ElemOf(d, x.slot) == x
  {
    if b != 0 { InsertElemOf(c.next, if c.elem.slot == b then 0 else b, k, x, tail); }
  }
}

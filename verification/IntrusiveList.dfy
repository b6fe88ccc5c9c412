/**
 The intrusive circular list of list.h: rings of nodes whose links are rewritten
 in place. A ring is written as the sequence of its nodes, the list head first;
 a detached node is a ring of its own.
 */
module IntrusiveList {
  import opened Basics

  /** The indices next to `k` in a circle of length `n`. */
  function Succ(k: nat, n: nat): nat { if k + 1 < n then k + 1 else 0 }
  function Pred(k: nat, n: nat): nat { if k > 0 then k - 1 else if n > 0 then n - 1 else 0 }

  ghost predicate JoinedAt<T>(c: seq<T>, nexts: seq<T>, prevs: seq<T>, k: nat)
    requires k < |c| == |nexts| == |prevs|
  {
    nexts[k] == c[Succ(k, |c|)] && prevs[k] == c[Pred(k, |c|)]
  }

  /** `nexts[k]` and `prevs[k]` are the links of the k-th node of a circle. */
  ghost predicate Circle<T>(c: seq<T>, nexts: seq<T>, prevs: seq<T>) {
    |c| == |nexts| == |prevs| && forall k: nat :: k < |c| ==> JoinedAt(c, nexts, prevs, k)
  }

  /** `c` without its i-th element. */
  function Cut<T>(c: seq<T>, i: nat): (r: seq<T>)
    requires i < |c|
    ensures |r| == |c| - 1 && forall k :: 0 <= k < |r| ==> r[k] == if k < i then c[k] else c[k + 1]
  {
    c[..i] + c[i + 1..]
  }

  /** Where the k-th element of `Cut(c, i)` stands in `c`. */
  function Skip(k: nat, i: nat): nat { if k < i then k else k + 1 }

  lemma CutSteps(k: nat, i: nat, n: nat)
    requires n > 1 && i < n && k < n - 1
    ensures Skip(Succ(k, n - 1), i) == (if Skip(k, i) == Pred(i, n) then Succ(i, n) else Succ(Skip(k, i), n))
    ensures Skip(Pred(k, n - 1), i) == (if Skip(k, i) == Succ(i, n) then Pred(i, n) else Pred(Skip(k, i), n))
  {
  }

  /** Linking the neighbours of a node to each other cuts it out of its circle. */
  lemma CutCircle<T>(c: seq<T>, i: nat, nexts: seq<T>, prevs: seq<T>)
    requires Circle(c, nexts, prevs) && i < |c| && |c| > 1
    ensures var p, q := Pred(i, |c|), Succ(i, |c|);
            Circle(Cut(c, i), Cut(nexts[p := c[q]], i), Cut(prevs[q := c[p]], i))
  {
    hide JoinedAt, Succ, Pred;
    InCircle(i, |c|);
    var p, q := Pred(i, |c|), Succ(i, |c|);
    var d, nx, pv := Cut(c, i), Cut(nexts[p := c[q]], i), Cut(prevs[q := c[p]], i);
    forall k: nat | k < |d| ensures JoinedAt(d, nx, pv, k) {
      assert JoinedAt(c, nexts, prevs, Skip(k, i));
      CutJoin(c, i, nexts, prevs, k);
    }
  }

  lemma CutAt<T>(s: seq<T>, i: nat, k: nat)
    requires i < |s| && k < |s| - 1
    ensures Cut(s, i)[k] == s[Skip(k, i)]
  {
  }

  lemma CutJoin<T>(c: seq<T>, i: nat, nexts: seq<T>, prevs: seq<T>, k: nat)
    requires |c| == |nexts| == |prevs| && i < |c| && k < |c| - 1 && JoinedAt(c, nexts, prevs, Skip(k, i))
    ensures var p, q := Pred(i, |c|), Succ(i, |c|);
            JoinedAt(Cut(c, i), Cut(nexts[p := c[q]], i), Cut(prevs[q := c[p]], i), k)
  {
    hide Succ, Pred, Cut;
    var n := |c|;
    InCircle(i, n);
    InCircle(k, n - 1);
    InCircle(Skip(k, i), n);
    CutSteps(k, i, n);
    var p, q := Pred(i, n), Succ(i, n);
    CutAt(c, i, Succ(k, n - 1));
    CutAt(c, i, Pred(k, n - 1));
    CutAt(nexts[p := c[q]], i, k);
    CutAt(prevs[q := c[p]], i, k);
  }

  lemma InCircle(k: nat, n: nat)
    requires k < n
    ensures Succ(k, n) < n && Pred(k, n) < n
  {
  }

  /** A node linked between the last one and the head of a circle joins it at its end. */
  lemma AppendCircle<T>(c: seq<T>, x: T, nexts: seq<T>, prevs: seq<T>)
    requires Circle(c, nexts, prevs) && c != []
    ensures Circle(c + [x], nexts[|c| - 1 := x] + [c[0]], prevs[0 := x] + [c[|c| - 1]])
  {
    var d, nx, pv := c + [x], nexts[|c| - 1 := x] + [c[0]], prevs[0 := x] + [c[|c| - 1]];
    forall k: nat | k < |d| ensures JoinedAt(d, nx, pv, k) {
      if k < |c| { assert JoinedAt(c, nexts, prevs, k); }
    }
  }

  class Node {
    /** The number of the object the node is part of. */
    const owner: nat
    var next: Node?
    var prev: Node?

    /** INIT_LIST_HEAD. */
    constructor (owner: nat)
      ensures Ring([this]) && this.owner == owner
    {
      this.owner := owner;
      new;
      next, prev := this, this;
    }
  }

  /** The nodes of `c`, linked in a circle. */
  ghost predicate Ring(c: seq<Node>)
    reads c
  {
    c != [] && Distinct(c) && forall k: nat :: k < |c| ==> LinkedAt(c, k)
  }

  ghost predicate LinkedAt(c: seq<Node>, k: nat)
    requires k < |c|
    reads c
  {
    c[k].next == c[Succ(k, |c|)] && c[k].prev == c[Pred(k, |c|)]
  }

  ghost function Nexts(c: seq<Node>): seq<Node?>
    reads c
  {
    seq(|c|, k requires 0 <= k < |c| reads c => c[k].next)
  }

  ghost function Prevs(c: seq<Node>): seq<Node?>
    reads c
  {
    seq(|c|, k requires 0 <= k < |c| reads c => c[k].prev)
  }

  lemma RingCircle(c: seq<Node>)
    requires Ring(c)
    ensures Circle<Node?>(c, Nexts(c), Prevs(c))
  {
    forall k: nat | k < |c| ensures JoinedAt<Node?>(c, Nexts(c), Prevs(c), k) {
      assert LinkedAt(c, k);
    }
  }

  /** The neighbours of the i-th node. */
  lemma Around(c: seq<Node>, i: nat)
    requires Ring(c) && i < |c|
    ensures c[i].next == c[Succ(i, |c|)] && c[i].prev == c[Pred(i, |c|)]
  {
    assert LinkedAt(c, i);
  }

  /** A ring whose nodes were not written to is still one. */
  twostate lemma RingKept(c: seq<Node>)
    requires old(Ring(c)) && forall e :: e in c ==> e.next == old(e.next) && e.prev == old(e.prev)
    ensures Ring(c)
  {
    forall k: nat | k < |c| ensures LinkedAt(c, k) {
      assert old(LinkedAt(c, k)) && c[k] in c;
    }
  }

  /** __list_del: two nodes become neighbours. */
  method LinkPair(prev: Node, next: Node)
    modifies prev`next, next`prev
    ensures prev.next == next && next.prev == prev
  {
    next.prev := prev;
    prev.next := next;
  }

  /** The links of `c` are `nexts` and `prevs`. */
  ghost predicate LinksAre(c: seq<Node>, nexts: seq<Node?>, prevs: seq<Node?>)
    reads c
  {
    |c| == |nexts| == |prevs| && forall k :: 0 <= k < |c| ==> c[k].next == nexts[k] && c[k].prev == prevs[k]
  }

  lemma RingFrom(c: seq<Node>, nexts: seq<Node?>, prevs: seq<Node?>)
    requires c != [] && Distinct(c) && Circle<Node?>(c, nexts, prevs) && LinksAre(c, nexts, prevs)
    ensures Ring(c)
  {
    forall k: nat | k < |c| ensures LinkedAt(c, k) {
      assert JoinedAt<Node?>(c, nexts, prevs, k);
    }
  }

  lemma CutLinks(c: seq<Node>, i: nat, nexts: seq<Node?>, prevs: seq<Node?>)
    requires i < |c| && LinksAre(c, nexts, prevs)
    ensures LinksAre(Cut(c, i), Cut(nexts, i), Cut(prevs, i))
  {
  }

  lemma CutDistinct(c: seq<Node>, i: nat)
    requires Distinct(c) && i < |c|
    ensures Distinct(Cut(c, i)) && c[i] !in Cut(c, i)
  {
  }

  /** The first half of list_del_init and list_move_tail: the node leaves its ring, with its own links left as they
      are. */
  method Unlink(e: Node, ghost c: seq<Node>, ghost i: nat)
    requires Ring(c) && i < |c| && c[i] == e
    modifies c
    ensures |c| > 1 ==> Ring(Cut(c, i))
    ensures |c| == 1 ==> Ring(c)
  {
    hide Circle;
    Around(c, i);
    ghost var p, q := Pred(i, |c|), Succ(i, |c|);
    ghost var nexts, prevs := Nexts(c), Prevs(c);
    RingCircle(c);
    LinkPair(e.prev, e.next);
    if |c| > 1 {
      CutCircle<Node?>(c, i, nexts, prevs);
      assert LinksAre(c, nexts[p := c[q]], prevs[q := c[p]]);
      CutLinks(c, i, nexts[p := c[q]], prevs[q := c[p]]);
      CutDistinct(c, i);
      RingFrom(Cut(c, i), Cut(nexts[p := c[q]], i), Cut(prevs[q := c[p]], i));
    }
  }

  /** list_del_init (ListDel, ResetList, DisableTimer): the node ends up alone; done to a lone node it changes
      nothing. */
  method DelInit(e: Node, ghost c: seq<Node>, ghost i: nat)
    requires Ring(c) && i < |c| && c[i] == e
    modifies c
    ensures Ring([e]) && (|c| > 1 ==> Ring(Cut(c, i)))
  {
    Unlink(e, c, i);
    CutDistinct(c, i);
    e.next, e.prev := e, e;
  }

  /** __list_add: `p` between two nodes. */
  method AddBetween(p: Node, prev: Node, next: Node)
    requires p != prev && p != next
    modifies p, prev`next, next`prev
    ensures p.next == next && p.prev == prev && prev.next == p && next.prev == p
  {
    next.prev := p;
    p.next := next;
    p.prev := prev;
    prev.next := p;
  }

  lemma AppendDistinct(c: seq<Node>, x: Node)
    requires Distinct(c) && x !in c
    ensures Distinct(c + [x])
  {
  }

  /** list_add_tail: a node that is in no ring goes before the head. */
  method AddTail(p: Node, head: Node, ghost d: seq<Node>)
    requires Ring(d) && d[0] == head && p !in d
    modifies p, d
    ensures Ring(d + [p])
  {
    hide Circle;
    Around(d, 0);
    ghost var nexts, prevs := Nexts(d), Prevs(d);
    RingCircle(d);
    AddBetween(p, head.prev, head);
    AppendCircle<Node?>(d, p, nexts, prevs);
    AppendDistinct(d, p);
    ghost var nx, pv := nexts[|d| - 1 := p] + [d[0]], prevs[0 := p] + [d[|d| - 1]];
    assert LinksAre(d + [p], nx, pv);
    RingFrom(d + [p], nx, pv);
  }

  /** list_move_tail (AttachTimer): remove, then append, whether the node comes from another list, from the same one, or
      from no list. */
  method MoveTail(e: Node, head: Node, ghost c: seq<Node>, ghost i: nat, ghost d: seq<Node>)
    requires Ring(c) && i < |c| && c[i] == e && Ring(d) && d[0] == head && e != head
    requires c == d || forall j, k :: 0 <= j < |c| && 0 <= k < |d| ==> c[j] != d[k]
    modifies c, d
    ensures c != d ==> Ring(d + [e]) && (|c| > 1 ==> Ring(Cut(c, i)))
    ensures c == d ==> Ring(Cut(c, i) + [e])
  {
    Unlink(e, c, i);
    CutDistinct(c, i);
    ghost var to := if c == d then Cut(c, i) else d;
    assert Ring(to) && to[0] == head;
    AddTail(e, head, to);
  }

  /** list_empty. */
  method IsEmpty(head: Node, ghost c: seq<Node>) returns (empty: bool)
    requires Ring(c) && c[0] == head
    ensures empty <==> |c| == 1
  {
    Around(c, 0);
    empty := head.next == head;
  }

  /** FreeList: every node ends up alone. */
  method FreeList(head: Node, ghost c: seq<Node>)
    requires Ring(c) && c[0] == head
    modifies c
    ensures forall k :: 0 <= k < |c| ==> Ring([c[k]])
  {
    hide LinkedAt, Distinct;
    ghost var left := c;
    var empty := IsEmpty(head, left);
    while !empty
      invariant Ring(left) && left[0] == head && empty == (|left| == 1) &&
                (forall k :: 0 <= k < |left| ==> left[k] in c)
      invariant forall x :: x in c && x !in left ==> Ring([x])
      decreases |left|
    {
      Around(left, 0);
      ghost var rest := Cut(left, 1);
      CutDistinct(left, 1);
      Others(left, 1);
      DelInit(head.next, left, 1);
      left := rest;
      empty := IsEmpty(head, left);
    }
    assert left == [head];
  }

  lemma Others(c: seq<Node>, i: nat)
    requires i < |c|
    ensures forall x :: x in c && x != c[i] ==> x in Cut(c, i)
    ensures forall x :: x in Cut(c, i) ==> x in c
  {
    var d := Cut(c, i);
    forall k | 0 <= k < |c| && k != i ensures c[k] in d {
      assert d[if k < i then k else k - 1] == c[k];
    }
  }
}

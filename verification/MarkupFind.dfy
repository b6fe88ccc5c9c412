/**
 x_FindElem: the next sibling, a named one, or one a path leads to.
 */
module MarkupFind {
  import opened TextScan
  import opened ElemIndex
  import opened MarkupTree
  import opened MarkupParse
  import opened MarkupWellFormed
  import opened MarkupState

  /** The tag name of the element with slot `s`. */
  function NameOf(c: Content, s: nat): string { if s in SlotsC(c) then TagName(ElemOf(c, s).tag) else "" }

  predicate Slash(path: string, i: nat) { i < |path| && path[i] == '/' }

  /** The element in the list `o` that the path leads to from `off` on, or 0. The path is followed into the first
      element that matches its first name, and never back out of it. */
  function Search(c: Content, o: Outline, path: string, off: nat): nat
    requires off <= |path|
    decreases o
  {
    if o.Nil? then 0
    else
      var name := NameOf(c, o.slot);
      if off < |path| && path[off] == '*' then
        if Slash(path, off + 1) then Search(c, o.child, path, off + 2) else o.slot
      else if Match(name, path[off..]) then
        if Slash(path, off + |name|) then Search(c, o.child, path, off + |name| + 1) else o.slot
      else Search(c, o.next, path, off)
  }

  /** Where x_FindElem starts to look: at the root for an absolute path, else behind `pos`, or at the children of
      `parent`. */
  ghost function StartOf(o: Outline, parent: nat, pos: nat, path: string): Outline
    requires (parent == 0 || parent in Slots(o)) && (pos == 0 || pos in Slots(o))
  {
    if Slash(path, 0) then o else if pos != 0 then NodeOf(o, pos).next else KidsOf(o, parent)
  }

  function OffsetOf(path: string): (off: nat)
    ensures off <= |path|
  {
    if Slash(path, 0) then 1 else 0
  }

  /** x_FindElem. */
  ghost function Lookup(c: Content, o: Outline, parent: nat, pos: nat, path: string): nat
    requires (parent == 0 || parent in Slots(o)) && (pos == 0 || pos in Slots(o))
  {
    var start := StartOf(o, parent, pos, path);
    if OffsetOf(path) == |path| then Head(start) else Search(c, start, path, OffsetOf(path))
  }

  // ----- what is found -------------------------------------------------------

  /** A path that is one name. */
  predicate Plain(path: string) { path != "" && path[0] != '*' && forall i :: 0 <= i < |path| ==> path[i] != '/' }

  /** Looking for a name finds the first sibling that has it, if there is one. */
  lemma {:induction false} SearchName(c: Content, o: Outline, path: string)
    requires Plain(path)
    ensures var r := Search(c, o, path, 0);
            && (r != 0 ==> InChain(o, r) && Match(NameOf(c, r), path))
            && (forall s :: InChain(o, s) && Match(NameOf(c, s), path) ==> r != 0)
    ensures o.At? && Match(NameOf(c, o.slot), path) ==> Search(c, o, path, 0) == o.slot
    ensures o.At? && !Match(NameOf(c, o.slot), path) ==> Search(c, o, path, 0) == Search(c, o.next, path, 0)
  {
    hide Match, NameOf;
    assert path[0..] == path;
    if o.At? {
      SearchName(c, o.next, path);
      MatchLength(NameOf(c, o.slot), path);
    }
  }

  lemma MatchLength(token: string, name: string)
    ensures Match(token, name) ==> |token| <= |name|
  {
  }

  // ----- paths of several names ----------------------------------------------

  /** A name in a path. */
  predicate Word(name: string) {
    name != "" && name[0] != '*' && forall i :: 0 <= i < |name| ==> name[i] !in " =/["
  }

  /** What is left of the path decides. */
  lemma {:induction false} SearchRest(c: Content, o: Outline, path: string, off: nat)
    requires off <= |path|
    ensures Search(c, o, path, off) == Search(c, o, path[off..], 0)
    decreases o
  {
    hide Match, NameOf;
    var rest := path[off..];
    if o.At? {
      var name := NameOf(c, o.slot);
      assert rest[0..] == rest;
      MatchLength(name, rest);
      if off < |path| && path[off] == '*' {
        if Slash(path, off + 1) {
          SearchRest(c, o.child, path, off + 2);
          SearchRest(c, o.child, rest, 2);
          assert path[off + 2..] == rest[2..];
        }
      } else if Match(name, rest) {
        if Slash(path, off + |name|) {
          SearchRest(c, o.child, path, off + |name| + 1);
          SearchRest(c, o.child, rest, |name| + 1);
          assert path[off + |name| + 1..] == rest[|name| + 1..];
        }
      } else {
        SearchRest(c, o.next, path, off);
      }
    }
  }

  /** The rest of a path is looked for among the children of the first sibling that has the first name, and only
      there. */
  lemma SearchInto(c: Content, o: Outline, name: string, rest: string)
    requires Wf(c) && Word(name)
    ensures var path := name + "/" + rest;
            && (o.Nil? ==> Search(c, o, path, 0) == 0)
            && (o.At? && NameOf(c, o.slot) == name ==> Search(c, o, path, 0) == Search(c, o.child, rest, 0))
            && (o.At? && NameOf(c, o.slot) != name ==> Search(c, o, path, 0) == Search(c, o.next, path, 0))
  {
    hide Wf;
    var path := name + "/" + rest;
    assert path[0..] == path;
    if o.At? {
      var token := NameOf(c, o.slot);
      NameMatch(c, o.slot, name, rest);
      if token == name {
        assert path[|name|] == '/' && path[|name| + 1..] == rest;
        SearchRest(c, o.child, path, |name| + 1);
      }
    }
  }

  lemma NameMatch(c: Content, s: nat, name: string, rest: string)
    requires Wf(c) && Word(name)
    ensures Match(NameOf(c, s), name + "/" + rest) <==> NameOf(c, s) == name
  {
    hide Wf, SlotsC, ElemOf, TagName;
    var token, path := NameOf(c, s), name + "/" + rest;
    if s in SlotsC(c) {
      WfElemOf(c, s);
      TagOkShape(ElemOf(c, s).tag);
    }
    assert path[..|name|] == name && path[|name|] == '/';
    assert forall i :: 0 <= i < |name| ==> path[i] == name[i];
    assert Match(token, path) ==> forall i :: 0 <= i < |token| ==> token[i] == path[i];
  }

  /** "*" stands for the first sibling, whatever its name. */
  lemma SearchStar(c: Content, o: Outline, rest: string)
    ensures Search(c, o, "*", 0) == Head(o)
    ensures Search(c, o, "*/" + rest, 0) == if o.Nil? then 0 else Search(c, o.child, rest, 0)
  {
    var path := "*/" + rest;
    if o.At? {
      assert path[2..] == rest;
      SearchRest(c, o.child, path, 2);
    }
  }

  /** The siblings behind an element are indexed. */
  lemma {:induction false} NextIndexed(a: seq<ElemPos>, o: Outline, s: nat, p: nat)
    requires Indexed(a, o, p) && s in Slots(o)
    ensures Indexed(a, NodeOf(o, s).next, ParentOf(o, s, p)) && Slots(NodeOf(o, s).next) <= Slots(o)
  {
    if o.slot == s {
    } else if s in Slots(o.child) { NextIndexed(a, o.child, s, o.slot);
    } else { NextIndexed(a, o.next, s, p); }
  }

  lemma Parts(a: seq<ElemPos>, o: Outline, p: nat)
    requires Indexed(a, o, p) && o.At?
    ensures Indexed(a, o.child, o.slot) && Indexed(a, o.next, p) && o.slot < |a| && a[o.slot].child == Head(o.child)
    ensures a[o.slot].next == Head(o.next) && Slots(o.child) <= Slots(o) && Slots(o.next) <= Slots(o) &&
            o.slot in Slots(o)
  {
  }
}

/**
 The locators of IniFile as functions of the text: a section, a key in it, and
 the value behind the key.
 */
module IniText {
  import opened Basics
  import opened TextScan

  // ----- characters ----------------------------------------------------------

  predicate IsSpace(c: char) { c == ' ' || c == '\t' }
  predicate IsEol(c: char) { c == '\r' || c == '\n' }

  /** The character at `i`, the terminator behind the end. */
  function CharAt(s: string, i: nat): char { if i < |s| then s[i] else '\0' }

  function LowerChar(c: char): char { if 'A' <= c <= 'Z' then (c as int + 32) as char else c }

  /** ToLower. */
  function Lower(s: string): (r: string)
    ensures |r| == |s| && forall i :: 0 <= i < |s| ==> r[i] == LowerChar(s[i])
  {
    seq(|s|, i requires 0 <= i < |s| => LowerChar(s[i]))
  }

  // ----- scans ---------------------------------------------------------------

  /** What the loops of the locators run over. */
  datatype Run = Spaces | Line | Eols | Value

  predicate InRun(k: Run, c: char) {
    match k
    case Spaces => IsSpace(c)
    case Line => !IsEol(c)
    case Eols => IsEol(c)
    case Value => c != '\t' && !IsEol(c)
  }

  function Skip(s: string, i: nat, e: nat, k: Run): (r: nat)
    requires i <= e <= |s|
    ensures i <= r <= e && (forall j :: i <= j < r ==> InRun(k, s[j])) && (r < e ==> !InRun(k, s[r]))
    decreases e - i
  {
    if i < e && InRun(k, s[i]) then Skip(s, i + 1, e, k) else i
  }

  lemma SkipIs(s: string, i: nat, e: nat, k: Run, r: nat)
    requires i <= r < e <= |s| && (forall j :: i <= j < r ==> InRun(k, s[j])) && !InRun(k, s[r])
    ensures Skip(s, i, e, k) == r
  {
  }

  /** Behind a match there is a space, '=' or a line end. */
  predicate IsStop(c: char) { IsSpace(c) || IsEol(c) || c == '=' }

  /** A match at `f`, found from `t` on, stands alone; a match at `t` itself is not checked to the left. */
  predicate Accepted(s: string, t: nat, f: nat, pat: string)
    requires t <= f < |s|
  {
    (t == f || IsSpace(s[f - 1]) || IsEol(s[f - 1])) && IsStop(CharAt(s, f + |pat|))
  }

  /** SearchMarchStr: the first match from `t` on that stands alone, or |s|. */
  function SearchMarch(s: string, t: nat, pat: string): (r: nat)
    requires t <= |s| && pat != ""
    ensures t <= r <= |s| && (r < |s| ==> Has(s, r, pat) && IsStop(CharAt(s, r + |pat|)))
    decreases |s| - t
  {
    var f := FindStr(s, t, pat);
    if f == |s| then |s|
    else if Accepted(s, t, f, pat) then f
    else SearchMarch(s, f + |pat|, pat)
  }

  /** LocateStr: a match inside [b, e), or |s|. */
  function LocateStr(s: string, b: nat, e: nat, pat: string): (r: nat)
    requires e <= |s| && pat != ""
    ensures b <= r || r == |s|
    ensures r <= |s| && (r < |s| ==> b < e && r == SearchMarch(s, b, pat) && r + |pat| <= e)
  {
    if b >= e then |s|
    else
      var f := SearchMarch(s, b, pat);
      if f == |s| || f + |pat| > e then |s| else f
  }

  // ----- sections ------------------------------------------------------------

  /** The end of a section: the next line whose first character is '[', or the end of the text. */
  function SectionEnd(c: string, i: nat, first: bool): (r: nat)
    requires i <= |c|
    ensures i <= r <= |c| && (r < |c| ==> c[r] == '[')
    decreases |c| - i
  {
    if i == |c| || (first && c[i] == '[') then i
    else SectionEnd(c, i + 1, if IsEol(c[i]) then true else if IsSpace(c[i]) then first else false)
  }

  /** A line, or the part of it from `b` on, begins at `q`. */
  predicate LineBegin(c: string, b: nat, q: nat) { q == b || (b < q <= |c| && IsEol(c[q - 1])) }

  predicate AllSpace(c: string, q: nat, i: nat) { q <= i <= |c| && forall j :: q <= j < i ==> IsSpace(c[j]) }

  /** Between `i` and the beginning of its line there are only blanks. */
  ghost predicate LineStart(c: string, b: nat, i: nat) { exists q: nat :: LineBegin(c, b, q) && AllSpace(c, q, i) }

  /** A '[' at the beginning of a line, blanks not counted. */
  ghost predicate HeaderAt(c: string, b: nat, i: nat) { b <= i < |c| && c[i] == '[' && LineStart(c, b, i) }

  lemma LineStep(c: string, b: nat, i: nat)
    requires b <= i < |c|
    ensures LineStart(c, b, i + 1) <==> IsEol(c[i]) || (IsSpace(c[i]) && LineStart(c, b, i))
  {
    if q: nat :| LineBegin(c, b, q) && AllSpace(c, q, i + 1) {
      if q <= i { assert AllSpace(c, q, i) && c[i] == c[i]; }
    }
    if IsEol(c[i]) { assert LineBegin(c, b, i + 1) && AllSpace(c, i + 1, i + 1); }
    if q: nat :| IsSpace(c[i]) && LineBegin(c, b, q) && AllSpace(c, q, i) { assert AllSpace(c, q, i + 1); }
  }

  /** A section ends at the first '[' at the beginning of a line, or at the end of the text. */
  lemma {:induction false} EndIs(c: string, b: nat, i: nat, first: bool)
    requires b <= i <= |c| && (first <==> LineStart(c, b, i))
    ensures var r := SectionEnd(c, i, first);
            && (r == |c| || HeaderAt(c, b, r)) && forall j :: i <= j < r ==> !HeaderAt(c, b, j)
    decreases |c| - i
  {
    hide LineStart;
    if i < |c| && !(first && c[i] == '[') {
      LineStep(c, b, i);
      EndIs(c, b, i + 1, if IsEol(c[i]) then true else if IsSpace(c[i]) then first else false);
    }
  }

  lemma SectionEndIs(c: string, b: nat)
    requires b <= |c|
    ensures var r := SectionEnd(c, b, true);
            && (r == |c| || HeaderAt(c, b, r)) && forall j :: b <= j < r ==> !HeaderAt(c, b, j)
  {
    hide LineStart;
    assert LineStart(c, b, b) by { StartHere(c, b); }
    EndIs(c, b, b, true);
  }

  lemma StartHere(c: string, b: nat)
    requires b <= |c|
    ensures LineStart(c, b, b)
  {
    assert LineBegin(c, b, b) && AllSpace(c, b, b);
  }

  function Header(section: string): string { Lower("[" + section + "]") }

  /** Where the line of the section header ends, its line end not included; |c| when there is no such section. */
  function HeaderEnd(c: string, section: string): (r: nat)
    ensures r <= |c|
  {
    var f := LocateStr(Lower(c), 0, |c|, Header(section));
    if f == |c| then |c| else Skip(c, f + |Header(section)|, |c|, Line)
  }

  /** LocateSection: the text from the line behind the header to the next header. */
  function LocateSection(c: string, section: string): (r: Option<(nat, nat)>)
    ensures r.Some? ==> r.value.0 <= r.value.1 <= |c| && CharAt(c, r.value.1) != '='
  {
    if LocateStr(Lower(c), 0, |c|, Header(section)) == |c| then None
    else
      var b := Skip(c, HeaderEnd(c, section), |c|, Eols);
      Some((b, SectionEnd(c, b, true)))
  }

  // ----- keys ----------------------------------------------------------------

  /** The match for a key from `b` on, or |c|, and the first character behind it that is not a space. */
  function KeyAt(c: string, key: string, b: nat, e: nat): (r: (nat, nat))
    requires e <= |c| && CharAt(c, e) != '=' && key != ""
    ensures r.0 < |c| ==> b <= r.0 && r.0 + |key| <= r.1 <= e && (CharAt(c, r.1) == '=' ==> r.1 < e)
    ensures r.0 <= |c|
  {
    var f := LocateStr(Lower(c), b, e, Lower(key));
    if f == |c| then (f, f) else (f, Skip(c, f + |key|, e, Spaces))
  }

  /** The start of the line behind the one with the '=' at `q`. */
  function NextLine(c: string, q: nat, e: nat): (n: nat)
    requires q < e <= |c|
    ensures q < n <= e
  {
    Skip(c, Skip(c, q + 1, e, Line), e, Eols)
  }

  /** The value behind the '=' at `q`, without leading spaces, up to a tab or the line end. */
  function ValueAt(c: string, q: nat, e: nat): (r: Option<(nat, nat)>)
    requires q < e <= |c|
    ensures r.Some? ==> q < r.value.0 < r.value.1 <= e
  {
    var v := Skip(c, q + 1, e, Spaces);
    var w := Skip(c, v, e, Value);
    if v < w then Some((v, w)) else None
  }

  /** LocateKeyRange: from the key to the start of the next line. */
  function LocateKeyRange(c: string, key: string, b: nat, e: nat): (r: Option<(nat, nat)>)
    requires e <= |c| && CharAt(c, e) != '=' && key != ""
    ensures r.Some? ==> b <= r.value.0 && r.value.0 + |key| < r.value.1 <= e
    decreases |c| - b
  {
    var k := KeyAt(c, key, b, e);
    if k.0 == |c| then None
    else if CharAt(c, k.1) != '=' then LocateKeyRange(c, key, k.1, e)
    else Some((k.0, NextLine(c, k.1, e)))
  }

  /** LocateKeyValue. */
  function LocateKeyValue(c: string, key: string, b: nat, e: nat): (r: Option<(nat, nat)>)
    requires e <= |c| && CharAt(c, e) != '=' && key != ""
    ensures r.Some? ==> b <= r.value.0 < r.value.1 <= e
    decreases |c| - b
  {
    var k := KeyAt(c, key, b, e);
    if k.0 == |c| then None
    else if CharAt(c, k.1) != '=' then LocateKeyValue(c, key, k.1, e)
    else ValueAt(c, k.1, e)
  }

  /** No value between `i` and `n`. */
  ghost predicate NoValue(c: string, i: nat, n: nat)
    requires n <= |c|
  {
    forall j :: i <= j < n ==> IsSpace(c[j]) || IsEol(c[j]) || c[j] == '='
  }

  /** Behind the '=' at `q`: the value and the rest of the line. */
  lemma ValueInLine(c: string, q: nat, e: nat)
    requires q < e <= |c| && c[q] == '='
    ensures var r := ValueAt(c, q, e); if r.Some? then r.value.1 <= NextLine(c, q, e)
            else NoValue(c, q, NextLine(c, q, e))
  {
    hide Skip;
    var v, l := Skip(c, q + 1, e, Spaces), Skip(c, q + 1, e, Line);
    assert v <= l;
    var w := Skip(c, v, e, Value);
    assert w <= l;
  }

  lemma KeyGap(c: string, key: string, b: nat, e: nat)
    requires e <= |c| && CharAt(c, e) != '=' && key != ""
    ensures var k := KeyAt(c, key, b, e); k.0 < |c| ==> NoValue(c, k.0 + |key|, k.1)
  {
    hide Skip, LocateStr;
  }

  ghost predicate Agree(c: string, key: string, k: Option<(nat, nat)>, v: Option<(nat, nat)>) {
    && (v.Some? ==> k.Some? && k.value.0 + |key| < v.value.0 && v.value.1 <= k.value.1)
    && (k.Some? && v.None? ==> k.value.1 <= |c| && NoValue(c, k.value.0 + |key|, k.value.1))
  }

  /** Both locators stop at the same key: what one takes as the value lies in the range the other replaces, and there is
      no value in that range if it finds none. */
  lemma {:induction false} LocatorsAgree(c: string, key: string, b: nat, e: nat)
    requires e <= |c| && CharAt(c, e) != '=' && key != ""
    ensures Agree(c, key, LocateKeyRange(c, key, b, e), LocateKeyValue(c, key, b, e))
    decreases |c| - b
  {
    hide KeyAt, NoValue, NextLine, ValueAt;
    var k := KeyAt(c, key, b, e);
    if k.0 < |c| {
      if CharAt(c, k.1) != '=' {
        LocatorsAgree(c, key, k.1, e);
      } else {
        KeyGap(c, key, b, e);
        ValueInLine(c, k.1, e);
        NoValueJoin(c, k.0 + |key|, k.1, NextLine(c, k.1, e));
      }
    }
  }

  lemma NoValueJoin(c: string, i: nat, q: nat, n: nat)
    requires i <= q <= n <= |c|
    ensures NoValue(c, i, q) && NoValue(c, q, n) ==> NoValue(c, i, n)
  {
  }
}

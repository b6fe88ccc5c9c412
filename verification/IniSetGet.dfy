/**
 Setting a value and getting it back: what the locators find in the new text.
 */
module IniSetGet {
  import opened Basics
  import opened TextScan
  import opened IniText

  // ----- texts with a common beginning ---------------------------------------

  ghost predicate Same(s: string, t: string, m: nat) {
    m <= |s| && m <= |t| && forall i :: 0 <= i < m ==> s[i] == t[i]
  }

  lemma HasSame(s: string, t: string, m: nat, i: nat, pat: string)
    requires Same(s, t, m) && i + |pat| <= m
    ensures Has(s, i, pat) <==> Has(t, i, pat)
  {
  }

  lemma FindSame(s: string, t: string, m: nat, i: nat, pat: string)
    requires Same(s, t, m) && i <= |s| && i <= |t| && pat != "" && FindStr(s, i, pat) < |s| &&
             FindStr(s, i, pat) + |pat| <= m
    ensures FindStr(t, i, pat) == FindStr(s, i, pat)
  {
    hide FindStr, Has;
    var f, g := FindStr(s, i, pat), FindStr(t, i, pat);
    HasSame(s, t, m, f, pat);
    if g < f { HasSame(s, t, m, g, pat); }
  }

  lemma MarchStep(s: string, i: nat, pat: string)
    requires i <= |s| && pat != ""
    ensures var f := FindStr(s, i, pat); var r := SearchMarch(s, i, pat);
            if f == |s| then r == |s|
            else if Accepted(s, i, f, pat) then r == f
            else f + |pat| <= |s| && r == SearchMarch(s, f + |pat|, pat) && f + |pat| <= r
  {
    hide FindStr, Accepted;
  }

  /** A match found in `s` is found in `t` if they agree up to its end and `t` goes on with a stop. */
  lemma {:induction false} MarchSame(s: string, t: string, i: nat, pat: string)
    requires i <= |s| && i <= |t| && pat != "" && SearchMarch(s, i, pat) < |s|
    requires var f := SearchMarch(s, i, pat); Same(s, t, f + |pat|) && IsStop(CharAt(t, f + |pat|))
    ensures SearchMarch(t, i, pat) == SearchMarch(s, i, pat)
    decreases |s| - i
  {
    hide FindStr, SearchMarch, Accepted, IsStop, Has;
    var m := SearchMarch(s, i, pat) + |pat|;
    var f := FindStr(s, i, pat);
    MarchStep(s, i, pat);
    FindSame(s, t, m, i, pat);
    MarchStep(t, i, pat);
    if Accepted(s, i, f, pat) {
      AcceptedLast(s, t, i, f, pat);
    } else {
      AcceptedSame(s, t, i, f, pat, m);
      MarchSame(s, t, f + |pat|, pat);
    }
  }

  lemma AcceptedLast(s: string, t: string, i: nat, f: nat, pat: string)
    requires i <= f < |s| && f < |t| && pat != "" && Same(s, t, f + |pat|) && Accepted(s, i, f, pat) &&
             IsStop(CharAt(t, f + |pat|))
    ensures Accepted(t, i, f, pat)
  {
  }

  lemma AcceptedSame(s: string, t: string, i: nat, f: nat, pat: string, m: nat)
    requires i <= f < |s| && f < |t| && pat != "" && f + |pat| < m && Same(s, t, m)
    ensures Accepted(t, i, f, pat) <==> Accepted(s, i, f, pat)
  {
  }

  lemma LowerSame(s: string, t: string, m: nat)
    requires Same(s, t, m)
    ensures Same(Lower(s), Lower(t), m)
  {
  }

  // ----- setting and getting -------------------------------------------------

  function Entry(key: string, value: string): string { key + " = " + value + "\n" }

  /** The new text: the entry in place of [kb, ke). */
  function NewText(c: string, kb: nat, ke: nat, key: string, value: string): (d: string)
    requires kb <= ke <= |c|
    ensures |d| == |c| - (ke - kb) + |Entry(key, value)|
  {
    c[..kb] + Entry(key, value) + c[ke..]
  }

  /** The text after SetItemValue; None if there is no such section. */
  function SetItem(c: string, section: string, key: string, value: string): Option<string>
    requires key != ""
  {
    match LocateSection(c, section)
    case None => None
    case Some((b, e)) =>
      match LocateKeyRange(c, key, b, e)
      case None => Some(NewText(c, b, b, key, value))
      case Some((kb, ke)) => Some(NewText(c, kb, ke, key, value))
  }

  /** The value GetItemValue finds. */
  function GetItem(c: string, section: string, key: string): Option<string>
    requires key != ""
  {
    match LocateSection(c, section)
    case None => None
    case Some((b, e)) =>
      match LocateKeyValue(c, key, b, e)
      case None => None
      case Some((v, w)) => Some(c[v..w])
  }

  /** The section has the key. */
  predicate HasKey(c: string, section: string, key: string)
    requires key != ""
  {
    match LocateSection(c, section)
    case None => false
    case Some((b, e)) => LocateKeyRange(c, key, b, e).Some?
  }

  /** No line of the key starts with '[', blanks not counted. */
  predicate NoHeaderIn(key: string) { SectionEnd(key, 0, true) == |key| }

  ghost predicate ValueOk(value: string) {
    value != "" && !IsSpace(value[0]) && forall i :: 0 <= i < |value| ==> InRun(Value, value[i])
  }

  /** What stands where in the new text. */
  ghost predicate EntryAt(d: string, k: nat, key: string, value: string) {
    && k + |key| + |value| + 4 <= |d| && Has(d, k, key)
    && d[k + |key|] == ' ' && d[k + |key| + 1] == '=' && d[k + |key| + 2] == ' '
    && Has(d, k + |key| + 3, value) && d[k + |key| + 3 + |value|] == '\n'
  }

  lemma NewTextAt(c: string, kb: nat, ke: nat, key: string, value: string)
    requires kb <= ke <= |c|
    ensures var d := NewText(c, kb, ke, key, value); EntryAt(d, kb, key, value) && Same(c, d, kb)
  {
    var d := NewText(c, kb, ke, key, value);
    var x := Entry(key, value);
    assert forall i :: 0 <= i < |x| ==> d[kb + i] == x[i];
    assert forall i :: 0 <= i < |key| ==> x[i] == key[i];
    assert x[|key|] == ' ' && x[|key| + 1] == '=' && x[|key| + 2] == ' ' && x[|key| + 3 + |value|] == '\n';
    assert forall i :: 0 <= i < |value| ==> x[|key| + 3 + i] == value[i];
    forall i | 0 <= i < |value| ensures d[kb + |key| + 3 + i] == value[i] {
      assert d[kb + (|key| + 3 + i)] == x[|key| + 3 + i];
    }
    assert d[kb + (|key| + 1)] == '=' && d[kb + (|key| + 2)] == ' ' && d[kb + (|key| + 3 + |value|)] == '\n' &&
        d[kb + |key|] == ' ';
  }

  // ----- the section is found again ------------------------------------------

  lemma HeaderParts(c: string, section: string)
    requires LocateSection(c, section).Some? && HeaderEnd(c, section) < |c|
    ensures var f, p, h, b := SearchMarch(Lower(c), 0, Header(section)), |Header(section)|, HeaderEnd(c, section),
            LocateSection(c, section).value.0;
            && p > 0 && f < |c| && f + p <= h < b && IsStop(CharAt(Lower(c), f + p))
            && (forall i :: f + p <= i < h ==> !IsEol(c[i])) && (forall i :: h <= i < b ==> IsEol(c[i]))
  {
    hide Skip, SearchMarch, SectionEnd;
    var h := HeaderEnd(c, section);
    assert !InRun(Line, c[h]);
    var b := LocateSection(c, section).value.0;
    assert b == h ==> !InRun(Eols, c[b]);
  }

  /** The header is found where it was found before. */
  lemma HeaderKept(c: string, d: string, pat: string, m: nat)
    requires pat != "" && Same(c, d, m) && LocateStr(Lower(c), 0, |c|, pat) < |c|
    requires LocateStr(Lower(c), 0, |c|, pat) + |pat| < m
    ensures LocateStr(Lower(d), 0, |d|, pat) == LocateStr(Lower(c), 0, |c|, pat)
  {
    hide SearchMarch, Lower, IsStop;
    var f := SearchMarch(Lower(c), 0, pat);
    LowerSame(c, d, m);
    MarchSame(Lower(c), Lower(d), 0, pat);
  }

  /** The beginning of a section stays where it is when the text before it is kept and something else than a line end
      follows. */
  lemma SectionKept(c: string, d: string, section: string)
    requires LocateSection(c, section).Some? && HeaderEnd(c, section) < |c|
    requires var b := LocateSection(c, section).value.0; Same(c, d, b) && b < |d| && !IsEol(d[b])
    ensures var b := LocateSection(c, section).value.0; LocateSection(d, section) == Some((b, SectionEnd(d, b, true)))
  {
    hide Skip, SearchMarch, SectionEnd, Header, Lower, IsStop, LocateStr;
    HeaderParts(c, section);
    var pat, h, b := Header(section), HeaderEnd(c, section), LocateSection(c, section).value.0;
    var f := LocateStr(Lower(c), 0, |c|, pat);
    HeaderKept(c, d, pat, b);
    SkipIs(d, f + |pat|, |d|, Line, h);
    SkipIs(d, h, |d|, Eols, b);
  }

  /** The scan for the end of the section gets through text that is kept, but for upper and lower case... */
  lemma {:induction false} ScanSame(c: string, d: string, i: nat, m: nat, first: bool) returns (flag: bool)
    requires i <= m <= |c| && m <= |d| && m <= SectionEnd(c, i, first)
    requires forall j :: i <= j < m ==> LowerChar(c[j]) == LowerChar(d[j])
    ensures SectionEnd(d, i, first) == SectionEnd(d, m, flag)
    decreases m - i
  {
    if i == m {
      flag := first;
    } else {
      flag := ScanSame(c, d, i + 1, m, if IsEol(c[i]) then true else if IsSpace(c[i]) then first else false);
    }
  }

  /** ...and, of a new key, as far as through the key alone... */
  lemma {:induction false} ScanKey(d: string, k: nat, key: string, i: nat, first: bool) returns (flag: bool)
    requires Has(d, k, key) && i <= |key|
    ensures if SectionEnd(key, i, first) < |key| then SectionEnd(d, k + i, first) < k + |key|
            else SectionEnd(d, k + i, first) == SectionEnd(d, k + |key|, flag)
    decreases |key| - i
  {
    hide Has;
    flag := first;
    if i < |key| {
      HasChar(d, k, key, i);
      var next := if IsEol(key[i]) then true else if IsSpace(key[i]) then first else false;
      flag := ScanKey(d, k, key, i + 1, next);
    }
  }

  /** ...and through the rest of the entry. */
  lemma {:induction false} ScanLine(d: string, i: nat, m: nat)
    requires i <= m <= |d| && forall j :: i <= j < m ==> !IsEol(d[j])
    ensures SectionEnd(d, i, false) == SectionEnd(d, m, false)
    decreases m - i
  {
    if i < m { ScanLine(d, i + 1, m); }
  }

  lemma ScanRest(d: string, k: nat, key: string, value: string, flag: bool)
    requires EntryAt(d, k, key, value) && ValueOk(value)
    ensures k + |key| + |value| + 4 <= SectionEnd(d, k + |key|, flag)
  {
    hide SectionEnd;
    var p, m := k + |key|, k + |key| + 3 + |value|;
    forall j | p <= j < m ensures !IsEol(d[j]) { EntryLine(d, k, key, value, j); }
    FirstSteps(d, p, flag);
    ScanLine(d, p + 2, m);
    LastStep(d, m);
  }

  lemma FirstSteps(d: string, p: nat, flag: bool)
    requires p + 1 < |d| && d[p] == ' ' && d[p + 1] == '='
    ensures SectionEnd(d, p, flag) == SectionEnd(d, p + 2, false)
  {
    assert SectionEnd(d, p, flag) == SectionEnd(d, p + 1, flag) == SectionEnd(d, p + 2, false);
  }

  lemma LastStep(d: string, m: nat)
    requires m < |d| && IsEol(d[m])
    ensures SectionEnd(d, m, false) >= m + 1
  {
  }

  // ----- the key and the value are found again -------------------------------

  /** The value of the entry, once its '=' is found. */
  lemma ValueBack(d: string, k: nat, key: string, value: string, e: nat)
    requires EntryAt(d, k, key, value) && ValueOk(value) && k + |key| + |value| + 4 <= e <= |d|
    ensures ValueAt(d, k + |key| + 1, e) == Some((k + |key| + 3, k + |key| + 3 + |value|)) &&
            d[k + |key| + 3..k + |key| + 3 + |value|] == value
  {
    hide Skip;
    var v := k + |key| + 3;
    HasChar(d, v, value, 0);
    SkipIs(d, k + |key| + 2, e, Spaces, v);
    forall j | v <= j < v + |value| ensures InRun(Value, d[j]) { HasChar(d, v, value, j - v); }
    SkipIs(d, v, e, Value, v + |value|);
    HasSlice(d, v, value);
  }

  lemma KeyBack(d: string, k: nat, key: string, value: string, e: nat)
    requires EntryAt(d, k, key, value) && k + |key| + |value| + 4 <= e <= |d|
    ensures Skip(d, k + |key|, e, Spaces) == k + |key| + 1
  {
    hide Skip;
    SkipIs(d, k + |key|, e, Spaces, k + |key| + 1);
  }

  lemma LocateSame(s: string, t: string, b: nat, e: nat, e': nat, pat: string)
    requires e <= |s| && e' <= |t| && pat != "" && LocateStr(s, b, e, pat) < |s|
    requires var f := LocateStr(s, b, e, pat); Same(s, t, f + |pat|) && IsStop(CharAt(t, f + |pat|)) && f + |pat| <= e'
    ensures LocateStr(t, b, e', pat) == LocateStr(s, b, e, pat)
  {
    hide SearchMarch, IsStop;
    MarchSame(s, t, b, pat);
  }

  /** The shadows agree up to the end of the key. */
  lemma ShadowsAgree(c: string, d: string, k: nat, key: string)
    requires Same(c, d, k) && Has(Lower(c), k, Lower(key)) && Has(d, k, key)
    ensures Same(Lower(c), Lower(d), k + |key|)
  {
    forall i | 0 <= i < k + |key| ensures Lower(c)[i] == Lower(d)[i] {
      if i >= k {
        HasChar(Lower(c), k, Lower(key), i - k);
        HasChar(d, k, key, i - k);
      }
    }
  }

  lemma {:induction false} RangeHas(c: string, key: string, b: nat, e: nat)
    requires e <= |c| && CharAt(c, e) != '=' && key != ""
    ensures var r := LocateKeyRange(c, key, b, e); r.Some? ==> Has(Lower(c), r.value.0, Lower(key))
    decreases |c| - b
  {
    hide Has, Skip, NextLine;
    var k := KeyAt(c, key, b, e);
    if k.0 < |c| && CharAt(c, k.1) != '=' { RangeHas(c, key, k.1, e); }
  }

  /** Where KeyAt stops in the new text, at the entry itself... */
  lemma KeyHere(c: string, d: string, key: string, value: string, b: nat, e: nat, e': nat)
    requires e <= |c| && CharAt(c, e) != '=' && key != "" && e' <= |d| && CharAt(d, e') != '='
    requires var k := KeyAt(c, key, b, e).0;
             k < |c| && Same(Lower(c), Lower(d), k + |key|) && EntryAt(d, k, key, value) &&
                 k + |key| + |value| + 4 <= e'
    ensures var k := KeyAt(c, key, b, e).0; KeyAt(d, key, b, e') == (k, k + |key| + 1)
  {
    hide LocateStr, Skip, Has;
    var k := KeyAt(c, key, b, e).0;
    assert Lower(d)[k + |key|] == ' ';
    LocateSame(Lower(c), Lower(d), b, e, e', Lower(key));
    KeyBack(d, k, key, value, e');
  }

  lemma StopBehind(s: string, b: nat, e: nat, pat: string)
    requires e <= |s| && pat != ""
    ensures var f := LocateStr(s, b, e, pat); f < |s| ==> IsStop(CharAt(s, f + |pat|))
  {
    hide IsStop;
  }

  /** ...and before it. */
  lemma KeyBefore(c: string, d: string, key: string, b: nat, e: nat, e': nat, kb: nat)
    requires e <= |c| && CharAt(c, e) != '=' && key != "" && e' <= |d| && CharAt(d, e') != '='
    requires var k := KeyAt(c, key, b, e); k.0 < |c| && k.1 <= kb < e && CharAt(c, k.1) != '='
    requires Same(c, d, kb) && Same(Lower(c), Lower(d), kb + |key|) && kb < e'
    ensures KeyAt(d, key, b, e') == KeyAt(c, key, b, e) && CharAt(d, KeyAt(c, key, b, e).1) != '='
  {
    hide LocateStr, Skip, Has, IsStop, Lower;
    var k := KeyAt(c, key, b, e);
    var p := k.0 + |key|;
    StopBehind(Lower(c), b, e, Lower(key));
    assert CharAt(Lower(c), p) == CharAt(Lower(d), p);
    LocateSame(Lower(c), Lower(d), b, e, e', Lower(key));
    AlikeBefore(c, d, kb + |key|);
    SpacesSame(c, d, p, e, e', k.1, kb);
  }

  lemma SpacesSame(c: string, d: string, p: nat, e: nat, e': nat, q: nat, kb: nat)
    requires p <= q <= kb < e <= |c| && kb < e' <= |d| && q == Skip(c, p, e, Spaces)
    requires Same(c, d, kb) && LowerChar(c[q]) == LowerChar(d[q]) && c[q] != '='
    ensures Skip(d, p, e', Spaces) == q && d[q] != '='
  {
    hide Skip;
    assert !InRun(Spaces, c[q]);
    SkipIs(d, p, e', Spaces, q);
  }

  lemma AlikeBefore(c: string, d: string, m: nat)
    requires Same(Lower(c), Lower(d), m)
    ensures m <= |c| && m <= |d| && forall j :: 0 <= j < m ==> LowerChar(c[j]) == LowerChar(d[j])
  {
    assert forall j :: 0 <= j < m ==> Lower(c)[j] == Lower(d)[j];
  }

  lemma {:induction false} KeyFoundAgain(c: string, d: string, key: string, value: string, b: nat, e: nat, e': nat)
    requires e <= |c| && CharAt(c, e) != '=' && key != "" && ValueOk(value) && e' <= |d| && CharAt(d, e') != '='
    requires LocateKeyRange(c, key, b, e).Some?
    requires var kb := LocateKeyRange(c, key, b, e).value.0;
             && Same(c, d, kb) && Same(Lower(c), Lower(d), kb + |key|) && EntryAt(d, kb, key, value)
             && kb + |key| + |value| + 4 <= e'
    ensures var r := LocateKeyValue(d, key, b, e'); r.Some? && d[r.value.0..r.value.1] == value
    decreases |c| - b
  {
    hide KeyAt, NextLine, ValueAt, Lower, ValueOk, Has;
    var k := KeyAt(c, key, b, e);
    var kb := LocateKeyRange(c, key, b, e).value.0;
    if CharAt(c, k.1) == '=' {
      KeyHere(c, d, key, value, b, e, e');
      ValueBack(d, kb, key, value, e');
    } else {
      KeyBefore(c, d, key, b, e, e', kb);
      KeyFoundAgain(c, d, key, value, k.1, e, e');
    }
  }

  /** A key that is new in the section is found at its beginning. */
  lemma KeyFoundFirst(d: string, key: string, value: string, b: nat, e': nat)
    requires key != "" && ValueOk(value) && e' <= |d| && CharAt(d, e') != '=' && EntryAt(d, b, key, value) &&
             b + |key| + |value| + 4 <= e'
    ensures var r := LocateKeyValue(d, key, b, e'); r.Some? && d[r.value.0..r.value.1] == value
  {
    hide Skip, ValueAt, ValueOk, SearchMarch, Has;
    MarchHere(d, key, value, b);
    KeyBack(d, b, key, value, e');
    assert KeyAt(d, key, b, e') == (b, b + |key| + 1);
    ValueBack(d, b, key, value, e');
  }

  lemma MarchHere(d: string, key: string, value: string, b: nat)
    requires key != "" && EntryAt(d, b, key, value)
    ensures SearchMarch(Lower(d), b, Lower(key)) == b
  {
    hide FindStr;
    var s, p := Lower(d), Lower(key);
    forall i | 0 <= i < |p| ensures s[b + i] == p[i] { HasChar(d, b, key, i); }
    assert Has(s, b, p);
    assert FindStr(s, b, p) == b;
    assert s[b + |p|] == ' ';
  }

  // ----- the round trip ------------------------------------------------------

  // ----- what is found, and where --------------------------------------------

  predicate NoEol(c: string, p: nat, e: nat) { p <= e <= |c| && forall i :: p <= i < e ==> !IsEol(c[i]) }
  predicate AllEol(c: string, e: nat, b: nat) { e <= b <= |c| && forall i :: e <= i < b ==> IsEol(c[i]) }

  /** A match at `k` in the text from `b` on stands apart to its left: at the beginning, behind a blank or a line end,
      or right behind another occurrence. */
  ghost predicate EdgeAt(c: string, pat: string, b: nat, k: nat) {
    && k <= |c|
    && (k == b || (k > 0 && (IsSpace(c[k - 1]) || IsEol(c[k - 1])))
        || (b + |pat| <= k && Has(Lower(c), k - |pat|, pat)))
  }

  lemma {:induction false} MarchEdge(c: string, b: nat, t: nat, pat: string)
    requires b <= t <= |c| && pat != "" && EdgeAt(c, pat, b, t)
    ensures EdgeAt(c, pat, b, SearchMarch(Lower(c), t, pat)) || SearchMarch(Lower(c), t, pat) == |c|
    decreases |c| - t
  {
    hide FindStr, SearchMarch, Has;
    var s, f := Lower(c), FindStr(Lower(c), t, pat);
    MarchStep(s, t, pat);
    if f < |s| {
      if Accepted(s, t, f, pat) {
        if f > 0 { LeftLower(c, f - 1); }
      } else {
        MarchEdge(c, b, f + |pat|, pat);
      }
    }
  }

  lemma LeftLower(c: string, i: nat)
    requires i < |c|
    ensures IsSpace(Lower(c)[i]) == IsSpace(c[i]) && IsEol(Lower(c)[i]) == IsEol(c[i])
  {
  }

  lemma LocateEdge(c: string, b: nat, t: nat, e: nat, pat: string)
    requires b <= t && e <= |c| && pat != "" && (t <= |c| ==> EdgeAt(c, pat, b, t))
    ensures var r := LocateStr(Lower(c), t, e, pat); r < |c| ==> EdgeAt(c, pat, b, r)
  {
    hide SearchMarch, EdgeAt;
    if t < e { MarchEdge(c, b, t, pat); }
  }

  lemma NextEdge(c: string, key: string, b: nat, e: nat, from: nat)
    requires b <= from && e <= |c| && CharAt(c, e) != '=' && key != ""
    ensures var k := KeyAt(c, key, from, e); k.0 < |c| ==> EdgeAt(c, Lower(key), b, k.1)
  {
    hide SearchMarch, Skip, Has;
    var k := KeyAt(c, key, from, e);
    if k.0 < |c| && k.0 + |key| < k.1 { assert InRun(Spaces, c[k.1 - 1]); }
  }

  /** The header of the section stands at `h` and its line ends before `b`, where the section begins. */
  ghost predicate SectionAt(c: string, section: string, h: nat, b: nat) {
    var p := h + |section| + 2;
    && p <= |c| && Has(Lower(c), h, Lower("[" + section + "]")) && p <= b <= |c|
    && p < |c| && (IsSpace(c[p]) || IsEol(c[p]) || c[p] == '=')
    && EdgeAt(c, Lower("[" + section + "]"), 0, h)
    && (exists e: nat :: NoEol(c, p, e) && AllEol(c, e, b))
    && (b < |c| ==> !IsEol(c[b]))
  }

  /** The key stands at `k`, its '=' at `q`, and [v, w) is the value: behind blanks, up to a tab, a line end, or the end
      of the section, which has no other header in it. */
  ghost predicate EntryIn(c: string, key: string, b: nat, k: nat, q: nat, v: nat, w: nat) {
    && b <= k && k + |key| <= q < v < w <= |c| && EdgeAt(c, Lower(key), b, k)
    && Has(Lower(c), k, Lower(key)) && AllSpace(c, k + |key|, q) && c[q] == '='
    && AllSpace(c, q + 1, v) && !IsSpace(c[v])
    && (forall i :: v <= i < w ==> c[i] != '\t' && !IsEol(c[i]))
    && (w == |c| || c[w] == '\t' || IsEol(c[w]) || HeaderAt(c, b, w))
    && forall i :: b <= i < w ==> !HeaderAt(c, b, i)
  }

  /** A value that is found belongs to the key, in the section: no header lies between the one found and the value. */
  lemma GetItemMeans(c: string, section: string, key: string) returns (h: nat, b: nat, k: nat, q: nat, v: nat, w: nat)
    requires key != "" && GetItem(c, section, key).Some?
    ensures SectionAt(c, section, h, b) && EntryIn(c, key, b, k, q, v, w) && GetItem(c, section, key) == Some(c[v..w])
  {
    hide LocateKeyValue, HeaderAt, SectionEnd, SearchMarch, Skip, Has, Lower, EdgeAt;
    h := LocateStr(Lower(c), 0, |c|, Header(section));
    var at := LocateSection(c, section).value;
    b := at.0;
    SectionIs(c, section);
    SectionEndIs(c, b);
    SectionBounds(c, section, b, at.1);
    StartEdge(c, Lower(key), b);
    k, q, v, w := KeyMeans(c, key, b, at.1, b);
  }

  /** `x` is a value of the key in the section. */
  ghost predicate Finds(c: string, section: string, key: string, x: string) {
    exists h: nat, b: nat, k: nat, q: nat, v: nat, w: nat ::
      SectionAt(c, section, h, b) && EntryIn(c, key, b, k, q, v, w) && x == c[v..w]
  }

  lemma GetItemFinds(c: string, section: string, key: string)
    requires key != "" && GetItem(c, section, key).Some?
    ensures Finds(c, section, key, GetItem(c, section, key).value)
  {
    hide GetItem, SectionAt, EntryIn;
    var h, b, k, q, v, w := GetItemMeans(c, section, key);
  }

  lemma SectionIs(c: string, section: string)
    requires LocateSection(c, section).Some?
    ensures SectionAt(c, section, LocateStr(Lower(c), 0, |c|, Header(section)), LocateSection(c, section).value.0)
  {
    hide SearchMarch, SectionEnd, Skip, Has;
    var h, e, b := LocateStr(Lower(c), 0, |c|, Header(section)), HeaderEnd(c, section),
      LocateSection(c, section).value.0;
    var p := h + |section| + 2;
    StopLower(c, p);
    assert forall i :: p <= i < e ==> InRun(Line, c[i]);
    assert forall i :: e <= i < b ==> InRun(Eols, c[i]);
    assert b < |c| ==> !InRun(Eols, c[b]);
    assert NoEol(c, p, e) && AllEol(c, e, b);
    LocateEdge(c, 0, 0, |c|, Header(section));
  }

  lemma StopLower(c: string, i: nat)
    ensures IsStop(CharAt(Lower(c), i)) <==> IsStop(CharAt(c, i))
  {
  }

  lemma StartEdge(c: string, pat: string, b: nat)
    requires b <= |c|
    ensures EdgeAt(c, pat, b, b)
  {
  }

  lemma {:induction false} KeyMeans(c: string, key: string, b: nat, e: nat, from: nat)
    returns (k: nat, q: nat, v: nat, w: nat)
    requires b <= from && e <= |c| && CharAt(c, e) != '=' && key != "" && LocateKeyValue(c, key, from, e).Some?
    requires (e == |c| || HeaderAt(c, b, e)) && forall j :: b <= j < e ==> !HeaderAt(c, b, j)
    requires from <= |c| ==> EdgeAt(c, Lower(key), b, from)
    ensures LocateKeyValue(c, key, from, e) == Some((v, w)) && EntryIn(c, key, b, k, q, v, w)
    decreases |c| - from
  {
    hide HeaderAt, SearchMarch, Skip, Has, Lower, EdgeAt;
    var at := KeyAt(c, key, from, e);
    LocateEdge(c, b, from, e, Lower(key));
    NextEdge(c, key, b, e, from);
    if CharAt(c, at.1) != '=' {
      k, q, v, w := KeyMeans(c, key, b, e, at.1);
    } else {
      k, q := at.0, at.1;
      var value := ValueAt(c, q, e).value;
      v, w := value.0, value.1;
      assert Skip(c, q + 1, e, Spaces) == v && Skip(c, v, e, Value) == w;
      assert forall j :: k + |key| <= j < q ==> InRun(Spaces, c[j]);
      assert forall j :: q + 1 <= j < v ==> InRun(Spaces, c[j]);
      assert forall j :: v <= j < w ==> InRun(Value, c[j]);
      assert w < e ==> !InRun(Value, c[w]);
      assert !InRun(Spaces, c[v]);
    }
  }

  /** The key stands at `k`, its '=' at `q`, and its line with the line ends behind it goes up to `n`, in the
      section. */
  ghost predicate LineIn(c: string, key: string, b: nat, k: nat, q: nat, n: nat) {
    && b <= k && k + |key| <= q < n <= |c| && EdgeAt(c, Lower(key), b, k)
    && Has(Lower(c), k, Lower(key)) && AllSpace(c, k + |key|, q) && c[q] == '='
    && (exists l: nat :: NoEol(c, q + 1, l) && AllEol(c, l, n)) && (n < |c| ==> !IsEol(c[n]))
    && forall i :: b <= i < n ==> !HeaderAt(c, b, i)
  }

  lemma {:induction false} RangeMeans(c: string, key: string, b: nat, e: nat, from: nat)
    returns (k: nat, q: nat, n: nat)
    requires b <= from && e <= |c| && CharAt(c, e) != '=' && key != "" && LocateKeyRange(c, key, from, e).Some?
    requires (e == |c| || HeaderAt(c, b, e)) && forall j :: b <= j < e ==> !HeaderAt(c, b, j)
    requires from <= |c| ==> EdgeAt(c, Lower(key), b, from)
    ensures LocateKeyRange(c, key, from, e) == Some((k, n)) && LineIn(c, key, b, k, q, n)
    decreases |c| - from
  {
    hide HeaderAt, SearchMarch, Skip, Has, Lower, EdgeAt, NextLine;
    var at := KeyAt(c, key, from, e);
    LocateEdge(c, b, from, e, Lower(key));
    NextEdge(c, key, b, e, from);
    if CharAt(c, at.1) != '=' {
      k, q, n := RangeMeans(c, key, b, e, at.1);
    } else {
      k, q := at.0, at.1;
      n := NextLine(c, q, e);
      assert forall j :: k + |key| <= j < q ==> InRun(Spaces, c[j]);
      LineMeans(c, b, q, e);
    }
  }

  lemma LineMeans(c: string, b: nat, q: nat, e: nat)
    requires q < e <= |c| && (e == |c| || HeaderAt(c, b, e))
    ensures var n := NextLine(c, q, e);
            (exists l: nat :: NoEol(c, q + 1, l) && AllEol(c, l, n)) && (n < |c| ==> !IsEol(c[n]))
  {
    hide HeaderAt, Skip;
    var l, n := Skip(c, q + 1, e, Line), NextLine(c, q, e);
    assert forall j :: q + 1 <= j < l ==> InRun(Line, c[j]);
    assert forall j :: l <= j < n ==> InRun(Eols, c[j]);
    assert NoEol(c, q + 1, l) && AllEol(c, l, n);
    assert n < e ==> !InRun(Eols, c[n]);
    if n == e < |c| { MarkNoEol(c, b, e); }
  }

  lemma MarkNoEol(c: string, b: nat, e: nat)
    requires HeaderAt(c, b, e)
    ensures e < |c| && !IsEol(c[e])
  {
  }

  /** The text SetItemValue writes: the entry in place of the line of the key, or at the beginning of the section if it
      does not have the key; all other text stays. */
  ghost predicate Writes(c: string, d: string, section: string, key: string, value: string) {
    exists h: nat, b: nat, k: nat, n: nat ::
      && SectionAt(c, section, h, b) && k <= n <= |c| && d == c[..k] + (key + " = " + value + "\n") + c[n..]
      && ((k == n == b && key != "" && !HasKey(c, section, key)) || exists q :: LineIn(c, key, b, k, q, n))
  }

  lemma SetItemWrites(c: string, section: string, key: string, value: string)
    requires key != "" && LocateSection(c, section).Some?
    ensures var d := SetItem(c, section, key, value); d.Some? && Writes(c, d.value, section, key, value)
  {
    hide LocateKeyRange, HeaderAt, SectionEnd, SearchMarch, Skip, Has, Lower, EdgeAt, LocateSection, SectionAt, LineIn;
    var h := LocateStr(Lower(c), 0, |c|, Header(section));
    var (b, e) := LocateSection(c, section).value;
    SectionIs(c, section);
    SectionEndIs(c, b);
    SectionBounds(c, section, b, e);
    StartEdge(c, Lower(key), b);
    if HasKey(c, section, key) {
      var k, q, n := RangeMeans(c, key, b, e, b);
      assert LineIn(c, key, b, k, q, n);
    }
  }

  /** An entry is found if its key does not occur before it in the section. */
  lemma FirstEntry(c: string, section: string, key: string, b: nat, e: nat, k: nat, q: nat, v: nat, w: nat)
    requires key != "" && LocateSection(c, section) == Some((b, e)) && b <= k && Has(Lower(c), k, Lower(key))
    requires forall i :: b <= i < k ==> !Has(Lower(c), i, Lower(key))
    requires k == b || IsSpace(c[k - 1]) || IsEol(c[k - 1])
    requires AllSpace(c, k + |key|, q) && q < e && c[q] == '='
    requires AllSpace(c, q + 1, v) && v <= w <= e && (v < e ==> !IsSpace(c[v]))
    requires (forall i :: v <= i < w ==> c[i] != '\t' && !IsEol(c[i])) && (w < e ==> c[w] == '\t' || IsEol(c[w]))
    ensures GetItem(c, section, key) == if v < w then Some(c[v..w]) else None
  {
    hide LocateSection, Skip, Has, Lower, KeyAt, ValueAt, SearchMarch;
    FirstKeyAt(c, key, b, e, k, q);
    FirstValueAt(c, e, q, v, w);
  }

  lemma FirstKeyAt(c: string, key: string, b: nat, e: nat, k: nat, q: nat)
    requires key != "" && e <= |c| && CharAt(c, e) != '=' && b <= k && Has(Lower(c), k, Lower(key))
    requires forall i :: b <= i < k ==> !Has(Lower(c), i, Lower(key))
    requires k == b || IsSpace(c[k - 1]) || IsEol(c[k - 1])
    requires AllSpace(c, k + |key|, q) && q < e && c[q] == '='
    ensures KeyAt(c, key, b, e) == (k, q)
  {
    hide Skip, Has, Lower, SearchMarch;
    assert IsStop(c[k + |key|]);
    FirstMarch(c, key, b, k);
    SkipTo(c, k + |key|, e, Spaces, q);
  }

  lemma FirstValueAt(c: string, e: nat, q: nat, v: nat, w: nat)
    requires q < e <= |c| && AllSpace(c, q + 1, v) && v <= w <= e && (v < e ==> !IsSpace(c[v]))
    requires (forall i :: v <= i < w ==> c[i] != '\t' && !IsEol(c[i])) && (w < e ==> c[w] == '\t' || IsEol(c[w]))
    ensures ValueAt(c, q, e) == if v < w then Some((v, w)) else None
  {
    hide Skip;
    SkipTo(c, q + 1, e, Spaces, v);
    SkipTo(c, v, e, Value, w);
  }

  /** A section is found at the first place its header occurs at, if that stands apart. */
  lemma FirstSection(c: string, section: string, h: nat)
    requires var pat := Lower("[" + section + "]");
             && Has(Lower(c), h, pat) && (forall i :: 0 <= i < h ==> !Has(Lower(c), i, pat))
             && h + |pat| < |c| && IsStop(c[h + |pat|]) && (h == 0 || IsSpace(c[h - 1]) || IsEol(c[h - 1]))
    ensures LocateSection(c, section).Some? && SectionAt(c, section, h, LocateSection(c, section).value.0)
  {
    hide Skip, Has, SectionEnd, SearchMarch, SectionAt;
    var key := "[" + section + "]";
    FirstMarch(c, key, 0, h);
    SectionIs(c, section);
  }

  lemma SkipTo(s: string, i: nat, e: nat, r: Run, n: nat)
    requires i <= n <= e <= |s| && (forall j :: i <= j < n ==> InRun(r, s[j])) && (n < e ==> !InRun(r, s[n]))
    ensures Skip(s, i, e, r) == n
  {
    hide Skip, InRun;
  }

  lemma FirstMarch(c: string, key: string, b: nat, k: nat)
    requires key != "" && b <= k && Has(Lower(c), k, Lower(key)) && k + |key| < |c| && IsStop(c[k + |key|])
    requires forall i :: b <= i < k ==> !Has(Lower(c), i, Lower(key))
    requires k == b || IsSpace(c[k - 1]) || IsEol(c[k - 1])
    ensures SearchMarch(Lower(c), b, Lower(key)) == k
  {
    hide FindStr, Has, SearchMarch;
    var s, pat := Lower(c), Lower(key);
    var f := FindStr(s, b, pat);
    assert f == k;
    MarchStep(s, b, pat);
    StopLower(c, k + |key|);
  }

  /** What is found as a value could have been written as one. */
  lemma GotValue(c: string, section: string, key: string)
    requires key != "" && GetItem(c, section, key).Some?
    ensures ValueOk(GetItem(c, section, key).value)
  {
    hide LocateSection, LocateKeyValue;
    var (b, e) := LocateSection(c, section).value;
    ValueFound(c, key, b, e);
  }

  lemma {:induction false} ValueFound(c: string, key: string, b: nat, e: nat)
    requires e <= |c| && CharAt(c, e) != '=' && key != "" && LocateKeyValue(c, key, b, e).Some?
    ensures var (v, w) := LocateKeyValue(c, key, b, e).value; ValueOk(c[v..w])
    decreases |c| - b
  {
    hide KeyAt, Skip;
    var k := KeyAt(c, key, b, e);
    if CharAt(c, k.1) != '=' { ValueFound(c, key, k.1, e); }
  }

  /** After SetItemValue, GetItemValue of the same section and key finds the value, exactly if it is a value, the
      section header is followed by a line end, and the key is in the section already or has no line that starts with
      '['. */
  lemma SetGet(c: string, section: string, key: string, value: string)
    requires key != "" && LocateSection(c, section).Some? && (HasKey(c, section, key) || !IsEol(key[0]))
    ensures var d := SetItem(c, section, key, value);
            && d.Some?
            && (GetItem(d.value, section, key) == Some(value) <==>
                 ValueOk(value) && HeaderEnd(c, section) < |c| && (HasKey(c, section, key) || NoHeaderIn(key)))
  {
    hide ValueOk, LocateSection, LocateKeyRange, LocateKeyValue, NewText, HeaderEnd, GetItem, NoHeaderIn;
    var d := SetItem(c, section, key, value).value;
    if GetItem(d, section, key) == Some(value) { GotValue(d, section, key); }
    if ValueOk(value) {
      if HeaderEnd(c, section) == |c| {
        SetGetOpen(c, section, key, value);
      } else if HasKey(c, section, key) {
        SetGetOld(c, section, key, value);
      } else {
        SetGetNew(c, section, key, value);
      }
    }
  }

  /** A value that is replaced. */
  lemma SetGetOld(c: string, section: string, key: string, value: string)
    requires key != "" && ValueOk(value) && HasKey(c, section, key) && HeaderEnd(c, section) < |c|
    ensures var d := SetItem(c, section, key, value); d.Some? && GetItem(d.value, section, key) == Some(value)
  {
    hide ValueOk, LocateSection, LocateKeyRange, LocateKeyValue, NewText, HeaderEnd, SectionEnd, Has, Lower;
    var (b, e) := LocateSection(c, section).value;
    var (kb, ke) := LocateKeyRange(c, key, b, e).value;
    var d := NewText(c, kb, ke, key, value);
    NewTextAt(c, kb, ke, key, value);
    RangeHas(c, key, b, e);
    ShadowsAgree(c, d, kb, key);
    AlikeBefore(c, d, kb + |key|);
    StartKept(c, section, d, b, kb);
    SectionKept(c, d, section);
    SectionBounds(c, section, b, e);
    var flag := ScanSame(c, d, b, kb + |key|, true);
    ScanRest(d, kb, key, value, flag);
    EndMark(d, b);
    KeyFoundAgain(c, d, key, value, b, e, SectionEnd(d, b, true));
  }

  lemma StartKept(c: string, section: string, d: string, b: nat, kb: nat)
    requires LocateSection(c, section).Some? && LocateSection(c, section).value.0 == b && b <= kb < |c| && kb < |d|
    requires Same(c, d, kb) && LowerChar(c[b]) == LowerChar(d[b])
    ensures Same(c, d, b) && !IsEol(d[b])
  {
    hide Skip, SearchMarch, SectionEnd;
    assert !InRun(Eols, c[b]);
  }

  /** A new entry, at the beginning of the section. */
  lemma SetGetNew(c: string, section: string, key: string, value: string)
    requires key != "" && !IsEol(key[0]) && ValueOk(value) && LocateSection(c, section).Some?
    requires !HasKey(c, section, key) && HeaderEnd(c, section) < |c|
    ensures var d := SetItem(c, section, key, value);
            d.Some? && (GetItem(d.value, section, key) == Some(value) <==> NoHeaderIn(key))
  {
    hide ValueOk, LocateSection, LocateKeyRange, LocateKeyValue, NewText, HeaderEnd, SectionEnd, Has, Lower;
    var b := LocateSection(c, section).value.0;
    var d := NewText(c, b, b, key, value);
    NewTextAt(c, b, b, key, value);
    HasChar(d, b, key, 0);
    SectionKept(c, d, section);
    var flag := ScanKey(d, b, key, 0, true);
    EndMark(d, b);
    var e := SectionEnd(d, b, true);
    if NoHeaderIn(key) {
      ScanRest(d, b, key, value, flag);
      KeyFoundFirst(d, key, value, b, e);
    } else {
      SectionEndBound(key);
      NoRoom(d, key, b, e);
    }
  }

  lemma SectionEndBound(key: string)
    ensures SectionEnd(key, 0, true) <= |key|
  {
  }

  /** A section shorter than the key does not have it. */
  lemma NoRoom(d: string, key: string, b: nat, e: nat)
    requires e <= |d| && CharAt(d, e) != '=' && key != "" && e < b + |key|
    ensures LocateKeyValue(d, key, b, e) == None
  {
    hide SearchMarch;
  }

  lemma SectionBounds(c: string, section: string, b: nat, e: nat)
    requires LocateSection(c, section) == Some((b, e))
    ensures e == SectionEnd(c, b, true)
  {
    hide Skip, SearchMarch, SectionEnd;
  }

  lemma EndMark(d: string, b: nat)
    requires b <= |d|
    ensures CharAt(d, SectionEnd(d, b, true)) != '='
  {
    hide SectionEnd;
  }

  // ----- a header on an unfinished last line ---------------------------------

  /** The section is empty... */
  lemma OpenParts(c: string, section: string)
    requires LocateSection(c, section).Some? && HeaderEnd(c, section) == |c|
    ensures var f, p := SearchMarch(Lower(c), 0, Header(section)), |Header(section)|;
            && p > 0 && f + p < |c| && IsStop(Lower(c)[f + p]) && forall i :: f + p <= i < |c| ==> !IsEol(c[i])
    ensures LocateSection(c, section) == Some((|c|, |c|))
  {
    hide Skip, SearchMarch;
    var f, p := SearchMarch(Lower(c), 0, Header(section)), |Header(section)|;
    assert forall i :: f + p <= i < |c| ==> InRun(Line, c[i]);
  }

  /** ...and the beginning of an entry joins its line. */
  lemma OpenLine(c: string, d: string, section: string, key: string, value: string, n: nat)
    requires LocateSection(c, section).Some? && HeaderEnd(c, section) == |c| && Same(c, d, |c|)
    requires |c| < n <= |d| && forall j :: |c| <= j < n ==> !IsEol(d[j])
    ensures LocateSection(d, section).Some? && n <= LocateSection(d, section).value.0
  {
    hide Skip, SearchMarch, Header, Has, Lower;
    OpenParts(c, section);
    var pat := Header(section);
    var f := SearchMarch(Lower(c), 0, pat);
    LowerSame(c, d, |c|);
    MarchSame(Lower(c), Lower(d), 0, pat);
    assert LocateStr(Lower(d), 0, |d|, pat) == f;
    SkipFar(d, f + |pat|, n);
  }

  lemma SkipFar(d: string, i: nat, n: nat)
    requires i <= n <= |d| && forall j :: i <= j < n ==> InRun(Line, d[j])
    ensures n <= Skip(d, i, |d|, Line)
  {
    hide Skip;
  }

  lemma EntryLine(d: string, k: nat, key: string, value: string, j: nat)
    requires EntryAt(d, k, key, value) && ValueOk(value) && k + |key| <= j < k + |key| + 3 + |value|
    ensures !IsEol(d[j])
  {
    if k + |key| + 3 <= j {
      HasChar(d, k + |key| + 3, value, j - (k + |key| + 3));
      assert InRun(Value, value[j - (k + |key| + 3)]);
    }
  }

  /** A key that has a value stands in the text, and something behind it. */
  lemma {:induction false} KeyMatch(c: string, key: string, b: nat, e: nat) returns (f: nat)
    requires e <= |c| && CharAt(c, e) != '=' && key != "" && LocateKeyValue(c, key, b, e).Some?
    ensures b <= f && f + |key| < |c| && Has(Lower(c), f, Lower(key))
    decreases |c| - b
  {
    hide Skip, ValueAt, SearchMarch, Has;
    var k := KeyAt(c, key, b, e);
    if CharAt(c, k.1) != '=' { f := KeyMatch(c, key, k.1, e); } else { f := k.0; }
  }

  /** The last line end of `s` before `n`, if there is one. */
  function LastEol(s: string, n: nat): (r: Option<nat>)
    requires n <= |s|
    ensures r.Some? ==> r.value < n && IsEol(s[r.value]) && forall i :: r.value < i < n ==> !IsEol(s[i])
    ensures r.None? ==> forall i :: 0 <= i < n ==> !IsEol(s[i])
  {
    if n == 0 then None else if IsEol(s[n - 1]) then Some(n - 1) else LastEol(s, n - 1)
  }

  /** Nothing of an entry behind such a header but the line end could match the last line end of the key, and nothing
      stands behind that. */
  lemma OpenLost(d: string, k: nat, key: string, value: string, f: nat)
    requires EntryAt(d, k, key, value) && ValueOk(value) && |d| == k + |key| + |value| + 4
    requires key != "" && k < f && f + |key| < |d|
    requires LastEol(key, |key|).None? ==> |d| - 1 <= f
    ensures !Has(Lower(d), f, Lower(key))
  {
    hide Has, LastEol, ValueOk;
    var r := LastEol(key, |key|);
    if Has(Lower(d), f, Lower(key)) && r.Some? {
      var j := r.value;
      HasChar(Lower(d), f, Lower(key), j);
      assert IsEol(d[f + j]);
      if f + j < k + |key| {
        HasChar(d, k, key, f + j - k);
      } else {
        EntryLine(d, k, key, value, f + j);
      }
    }
  }

  lemma SetGetOpen(c: string, section: string, key: string, value: string)
    requires key != "" && ValueOk(value) && LocateSection(c, section).Some? && HeaderEnd(c, section) == |c|
    requires HasKey(c, section, key) || !IsEol(key[0])
    ensures var d := SetItem(c, section, key, value); d.Some? && GetItem(d.value, section, key) == None
  {
    hide LocateSection, HeaderEnd, ValueOk, EntryAt, Lower, SearchMarch, LocateKeyValue, Has, LastEol;
    OpenParts(c, section);
    assert LocateKeyRange(c, key, |c|, |c|) == None;
    var d := NewText(c, |c|, |c|, key, value);
    NewTextAt(c, |c|, |c|, key, value);
    var n := OpenStart(c, d, key, value);
    OpenLine(c, d, section, key, value, n);
    var (b, e) := LocateSection(d, section).value;
    if LocateKeyValue(d, key, b, e).Some? {
      var f := KeyMatch(d, key, b, e);
      OpenLost(d, |c|, key, value, f);
    }
  }

  /** How far the entry goes on in the line of the header. */
  lemma OpenStart(c: string, d: string, key: string, value: string) returns (n: nat)
    requires EntryAt(d, |c|, key, value) && ValueOk(value) && key != "" && !IsEol(key[0])
    requires |d| == |c| + |key| + |value| + 4
    ensures |c| < n < |d| && forall j :: |c| <= j < n ==> !IsEol(d[j])
    ensures LastEol(key, |key|).None? ==> n == |d| - 1
  {
    hide Has, LastEol, ValueOk;
    HasChar(d, |c|, key, 0);
    n := |c| + 1;
    if LastEol(key, |key|).None? {
      n := |d| - 1;
      forall j | |c| <= j < n ensures !IsEol(d[j]) {
        if j < |c| + |key| { HasChar(d, |c|, key, j - |c|); } else { EntryLine(d, |c|, key, value, j); }
      }
    }
  }
}

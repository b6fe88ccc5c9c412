/**
 IniFile: a content buffer and its lower-cased shadow, searched by pointer loops
 and rewritten by SetItemValue.
 */
module IniFile {
  import opened Basics
  import opened TextScan
  import opened IniText
  import opened IniSetGet

  predicate NoNul(s: string) { forall i :: 0 <= i < |s| ==> s[i] != '\0' }

  /** ToLower. */
  method ToLower(s: string) returns (r: string)
    ensures r == Lower(s)
  {
    r := s;
    for i := 0 to |s|
      invariant |r| == |s| && (forall j :: 0 <= j < i ==> r[j] == LowerChar(s[j])) &&
                (forall j :: i <= j < |s| ==> r[j] == s[j])
    {
      if 'A' <= r[i] <= 'Z' {
        r := r[i := (r[i] as int + 32) as char];
      }
    }
  }

  /** The loops of the locators that pass over one kind of character. */
  method SkipRun(s: string, i: nat, e: nat, k: Run) returns (r: nat)
    requires i <= e <= |s|
    ensures r == Skip(s, i, e, k)
  {
    r := i;
    while r < e && InRun(k, s[r])
      invariant i <= r <= e && Skip(s, i, e, k) == Skip(s, r, e, k)
    {
      r := r + 1;
    }
  }

  /** SearchMarchStr. */
  method SearchMarchStr(s: string, t: nat, pat: string) returns (r: nat)
    requires t <= |s| && pat != ""
    ensures r == SearchMarch(s, t, pat)
  {
    hide FindStr, Has, IsStop, SearchMarch;
    var from := t;
    while true
      invariant from <= |s| && SearchMarch(s, t, pat) == SearchMarch(s, from, pat)
      decreases |s| - from
    {
      MarchStep(s, from, pat);
      var f := FindStr(s, from, pat);
      if f == |s| { return |s|; }
      if from < f && !IsSpace(s[f - 1]) && !IsEol(s[f - 1]) {
        from := f + |pat|;
        continue;
      }
      if IsStop(CharAt(s, f + |pat|)) { return f; }
      from := f + |pat|;
    }
  }

  /** LocateStr. */
  method FindMatch(s: string, b: nat, e: nat, pat: string) returns (r: nat)
    requires e <= |s| && pat != ""
    ensures r == LocateStr(s, b, e, pat)
  {
    if b >= e { return |s|; }
    r := SearchMarchStr(s, b, pat);
    if r != |s| && r + |pat| > e { r := |s|; }
  }

  /** What GetItemValue puts into a buffer of `size` bytes: a byte above 0x7f that fills it up is dropped. */
  function Clip(value: string, size: nat): string
    requires size >= 2
  {
    if |value| < size - 1 then value
    else if value[size - 2] as int > 0x7f then value[..size - 2]
    else value[..size - 1]
  }

  lemma NewNoNul(c: string, kb: nat, ke: nat, key: string, value: string)
    requires kb <= ke <= |c| && NoNul(c) && NoNul(key) && NoNul(value)
    ensures NewText(c, kb, ke, key, value) == c[..kb] + (key + " = " + value + "\n") + c[ke..]
    ensures NoNul(NewText(c, kb, ke, key, value))
  {
    Joined(key, " = ");
    Joined(key + " = ", value);
    Joined(key + " = " + value, "\n");
    Joined(c[..kb], Entry(key, value));
    Joined(c[..kb] + Entry(key, value), c[ke..]);
  }

  lemma Joined(a: string, b: string)
    requires NoNul(a) && NoNul(b)
    ensures NoNul(a + b)
  {
  }

  class IniFile {
    var content: string
    var shadow: string
    var isOpen: bool

    ghost predicate Valid()
      reads this
    {
      shadow == Lower(content) && NoNul(content)
    }

    /** OpenFile with the text of the file. */
    constructor (text: string)
      requires NoNul(text)
      ensures Valid() && content == text && isOpen
    {
      content, shadow, isOpen := text, "", true;
      new;
      shadow := ToLower(text);
    }

    /** The loop of LocateSection that looks for the next header. */
    method FindSectionEnd(b: nat) returns (e: nat)
      requires Valid() && b <= |content|
      ensures e == SectionEnd(content, b, true)
      ensures e == |content| || HeaderAt(content, b, e)
      ensures forall j :: b <= j < e ==> !HeaderAt(content, b, j)
    {
      SectionEndIs(content, b);
      var first := true;
      e := b;
      while e < |content|
        invariant b <= e <= |content| && SectionEnd(content, b, true) == SectionEnd(content, e, first)
      {
        if first && content[e] == '[' { break; }
        if content[e] == '\0' { break; }
        if IsEol(content[e]) {
          first := true;
        } else if !IsSpace(content[e]) {
          first := false;
        }
        e := e + 1;
      }
    }

    /** LocateSection. */
    method FindSection(section: string) returns (found: bool, b: nat, e: nat)
      requires Valid()
      ensures var r := LocateSection(content, section); if found then r == Some((b, e)) else r == None
    {
      hide Skip, SectionEnd, LocateStr, NoNul, Lower;
      b, e := 0, 0;
      var lower := ToLower("[" + section + "]");
      var f := FindMatch(shadow, 0, |content|, lower);
      found := f != |content|;
      if !found { return; }
      b := f + |lower|;
      b := SkipRun(content, b, |content|, Line);
      b := SkipRun(content, b, |content|, Eols);
      e := FindSectionEnd(b);
    }

    /** The part that LocateKeyRange and LocateKeyValue have in common: the key, and the character behind it. */
    method FindKey(key: string, b: nat, e: nat) returns (f: nat, q: nat)
      requires Valid() && e <= |content| && CharAt(content, e) != '=' && key != ""
      ensures (f, q) == KeyAt(content, key, b, e)
    {
      hide Skip, SearchMarch, NoNul;
      var lower := ToLower(key);
      f := FindMatch(shadow, b, e, lower);
      q := f;
      if f != |content| {
        q := SkipRun(content, f + |key|, e, Spaces);
      }
    }

    /** LocateKeyRange. */
    method FindKeyRange(key: string, b: nat, e: nat) returns (found: bool, keyBegin: nat, keyEnd: nat)
      requires Valid() && e <= |content| && CharAt(content, e) != '=' && key != ""
      ensures var r := LocateKeyRange(content, key, b, e); if found then r == Some((keyBegin, keyEnd)) else r == None
      decreases |content| - b
    {
      hide KeyAt, Skip, NoNul;
      var q;
      keyBegin, q := FindKey(key, b, e);
      keyEnd := q;
      if keyBegin == |content| { return false, 0, 0; }
      if CharAt(content, q) != '=' {
        found, keyBegin, keyEnd := FindKeyRange(key, q, e);
        return;
      }
      keyEnd := SkipRun(content, q + 1, e, Line);
      keyEnd := SkipRun(content, keyEnd, e, Eols);
      found := true;
    }

    /** LocateKeyValue. */
    method FindKeyValue(key: string, b: nat, e: nat) returns (found: bool, valueBegin: nat, valueEnd: nat)
      requires Valid() && e <= |content| && CharAt(content, e) != '=' && key != ""
      ensures var r := LocateKeyValue(content, key, b, e);
              if found then r == Some((valueBegin, valueEnd)) else r == None
      decreases |content| - b
    {
      hide KeyAt, Skip, NoNul;
      var f, q := FindKey(key, b, e);
      if f == |content| { return false, 0, 0; }
      if CharAt(content, q) != '=' {
        found, valueBegin, valueEnd := FindKeyValue(key, q, e);
        return;
      }
      valueBegin := SkipRun(content, q + 1, e, Spaces);
      valueEnd := SkipRun(content, valueBegin, e, Value);
      found := valueBegin < valueEnd;
    }

    /** GetItemValue into a buffer of `size` bytes; with one of a single byte it would read in front of it. */
    method GetItemValue(section: string, key: string, size: nat) returns (n: nat, buffer: string)
      requires Valid() && key != "" && size != 1
      ensures var r := GetItem(content, section, key);
              if isOpen && size > 0 && r.Some? then buffer == Clip(r.value, size) && n == |buffer|
                 else n == 0 && buffer == ""
      ensures buffer != "" ==>
              exists x :: Finds(content, section, key, x) && n <= |x| && buffer == x[..n] && n < size &&
                          (n < |x| ==> n + 2 >= size)
    {
      hide LocateSection, LocateKeyValue, NoNul, Finds;
      n, buffer := 0, "";
      if !isOpen || size == 0 { return; }
      var found, b, e := FindSection(section);
      if !found { return; }
      var v, w;
      found, v, w := FindKeyValue(key, b, e);
      if !found { return; }
      while v + n < w && n < size - 1
        invariant v + n <= w && n <= size - 1 && buffer == content[v..v + n]
      {
        buffer := buffer + [content[v + n]];
        n := n + 1;
      }
      ghost var value := content[v..w];
      assert value[..n] == content[v..v + n];
      GetItemFinds(content, section, key);
      if n == size - 1 && buffer[n - 1] as int > 0x7f {
        buffer := buffer[..n - 1];
        n := n - 1;
      }
    }

    /** SetItemValue; `written` is the outcome of writing the file. */
    method SetItemValue(section: string, key: string, value: string, written: bool) returns (ok: bool)
      requires Valid() && key != "" && NoNul(key) && NoNul(value)
      modifies this
      ensures Valid() && isOpen == old(isOpen)
      ensures var d := SetItem(old(content), section, key, value);
              if isOpen && d.Some? then content == d.value && ok == written else content == old(content) && !ok
      ensures isOpen && LocateSection(old(content), section).Some? ==>
              Writes(old(content), content, section, key, value)
      ensures isOpen && LocateSection(old(content), section).Some? &&
              (HasKey(old(content), section, key) || !IsEol(key[0])) ==>
              (GetItem(content, section, key) == Some(value) <==>
                && ValueOk(value) && HeaderEnd(old(content), section) < |old(content)|
                && (HasKey(old(content), section, key) || NoHeaderIn(key)))
    {
      hide LocateSection, LocateKeyRange, LocateKeyValue, Lower, ValueOk, HeaderEnd, NoNul, GetItem, NewText, HasKey,
        NoHeaderIn, Writes;
      if !isOpen { return false; }
      var found, b, e := FindSection(section);
      if !found { return false; }
      SetItemWrites(content, section, key, value);
      if HasKey(content, section, key) || !IsEol(key[0]) { SetGet(content, section, key, value); }
      var kb, ke;
      found, kb, ke := FindKeyRange(key, b, e);
      if !found {
        kb, ke := b, b;
      }
      NewNoNul(content, kb, ke, key, value);
      var buf := key + " = " + value + "\n";
      content := content[..kb] + buf + content[ke..];
      shadow := ToLower(content);
      ok := written;
    }
  }
}

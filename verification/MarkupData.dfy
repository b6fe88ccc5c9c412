/**
 Character data: the predefined entities, CDATA sections, and reading back what
 was written.
 */
module MarkupData {
  import opened TextScan
  import opened MarkupParse
  import opened MarkupWellFormed

  /** How x_TextToDoc writes one character. */
  function Code(c: char, attrib: bool): string {
    if c == '<' then "&lt;" else if c == '&' then "&amp;" else if c == '>' then "&gt;"
    else if attrib && c == '\'' then "&apos;" else if attrib && c == '\"' then "&quot;" else [c]
  }

  function Escape(s: string, attrib: bool): string {
    if s == "" then "" else Code(s[0], attrib) + Escape(s[1..], attrib)
  }

  /** The symbol and the length of the entity that starts `s`, or the first character itself. */
  function Decode(s: string): (r: (char, nat))
    requires s != ""
    ensures 1 <= r.1 <= |s|
  {
    if s[0] != '&' then (s[0], 1)
    else if Has(s, 1, "lt;") then ('<', 4)
    else if Has(s, 1, "amp;") then ('&', 5)
    else if Has(s, 1, "gt;") then ('>', 4)
    else if Has(s, 1, "apos;") then ('\'', 6)
    else if Has(s, 1, "quot;") then ('\"', 6)
    else ('&', 1)
  }

  function Unescape(s: string): string {
    if s == "" then "" else var (c, n) := Decode(s); [c] + Unescape(s[n..])
  }

  lemma CodeDecode(c: char, attrib: bool, rest: string)
    ensures var s := Code(c, attrib) + rest;
            s != "" && Decode(s) == (c, |Code(c, attrib)|) && s[|Code(c, attrib)|..] == rest
  {
    var code := Code(c, attrib);
    var s := code + rest;
    assert s[|code|..] == rest;
    if code[0] == '&' {
      assert Has(s, 1, code[1..]);
      assert s[1] == code[1] && s[2] == code[2];
      if Has(s, 1, "lt;") { HasChar(s, 1, "lt;", 0); }
      if Has(s, 1, "amp;") { HasChar(s, 1, "amp;", 0); HasChar(s, 1, "amp;", 1); }
      if Has(s, 1, "gt;") { HasChar(s, 1, "gt;", 0); }
      if Has(s, 1, "apos;") { HasChar(s, 1, "apos;", 0); HasChar(s, 1, "apos;", 1); }
      assert c == '<' ==> code[1..] == "lt;";
      assert c == '&' ==> code[1..] == "amp;";
      assert c == '>' ==> code[1..] == "gt;";
      assert c == '\'' ==> code[1..] == "apos;";
      assert c == '\"' ==> code[1..] == "quot;";
    }
  }

  /** Behind an '&' this is no entity. */
  predicate NoEntity(s: string) {
    !Has(s, 0, "lt;") && !Has(s, 0, "gt;") && !Has(s, 0, "amp;") && !Has(s, 0, "apos;") && !Has(s, 0, "quot;")
  }

  /** What the five entities stand for, in any text; an '&' that starts none of them stays. */
  lemma Entities(s: string)
    ensures Unescape("&lt;" + s) == "<" + Unescape(s) && Unescape("&gt;" + s) == ">" + Unescape(s)
    ensures Unescape("&amp;" + s) == "&" + Unescape(s)
    ensures Unescape("&apos;" + s) == "'" + Unescape(s) && Unescape("&quot;" + s) == "\"" + Unescape(s)
    ensures NoEntity(s) ==> Unescape("&" + s) == "&" + Unescape(s)
  {
    hide Decode, Unescape, Has;
    Entity('<', "&lt;", s);
    Entity('>', "&gt;", s);
    Entity('&', "&amp;", s);
    Entity('\'', "&apos;", s);
    Entity('\"', "&quot;", s);
    if NoEntity(s) { Ampersand(s); }
  }

  lemma Entity(c: char, code: string, s: string)
    requires code == Code(c, true) && |code| > 1
    ensures Unescape(code + s) == [c] + Unescape(s)
  {
    hide Code, Decode;
    CodeDecode(c, true, s);
  }

  lemma Ampersand(s: string)
    requires NoEntity(s)
    ensures Unescape("&" + s) == "&" + Unescape(s)
  {
    var t := "&" + s;
    assert t[1..] == s;
    BehindFirst('&', s, "lt;");
    BehindFirst('&', s, "gt;");
    BehindFirst('&', s, "amp;");
    BehindFirst('&', s, "apos;");
    BehindFirst('&', s, "quot;");
  }

  lemma BehindFirst(c: char, s: string, pat: string)
    ensures Has([c] + s, 1, pat) <==> Has(s, 0, pat)
  {
    var t := [c] + s;
    assert forall i :: 0 <= i < |s| ==> t[i + 1] == s[i];
    if Has(t, 1, pat) {
      forall i | 0 <= i < |pat| ensures s[i] == pat[i] { assert t[1 + i] == pat[i]; }
    }
  }

  /** Any other character stands for itself. */
  lemma PlainChar(c: char, s: string)
    requires c != '&'
    ensures Unescape([c] + s) == [c] + Unescape(s)
  {
    assert ([c] + s)[1..] == s;
  }

  /** What is escaped: marks and '&' always, quotes in attributes, nothing else. */
  lemma Escapes(s: string, attrib: bool)
    ensures Escape("<" + s, attrib) == "&lt;" + Escape(s, attrib)
    ensures Escape(">" + s, attrib) == "&gt;" + Escape(s, attrib)
    ensures Escape("&" + s, attrib) == "&amp;" + Escape(s, attrib)
    ensures Escape("'" + s, attrib) == (if attrib then "&apos;" else "'") + Escape(s, attrib)
    ensures Escape("\"" + s, attrib) == (if attrib then "&quot;" else "\"") + Escape(s, attrib)
    ensures forall c :: c !in "<>&'\"" ==> Escape([c] + s, attrib) == [c] + Escape(s, attrib)
  {
    FirstCode('<', s, attrib);
    FirstCode('>', s, attrib);
    FirstCode('&', s, attrib);
    FirstCode('\'', s, attrib);
    FirstCode('\"', s, attrib);
    forall c | c !in "<>&'\"" ensures Escape([c] + s, attrib) == [c] + Escape(s, attrib) {
      FirstCode(c, s, attrib);
    }
  }

  lemma FirstCode(c: char, s: string, attrib: bool)
    ensures Escape([c] + s, attrib) == Code(c, attrib) + Escape(s, attrib)
  {
    hide Code;
    assert ([c] + s)[1..] == s;
  }

  /** x_TextFromDoc undoes x_TextToDoc. */
  lemma {:induction false} EscapeRoundTrip(s: string, attrib: bool)
    ensures Unescape(Escape(s, attrib)) == s
  {
    hide Code, Decode;
    if s != "" {
      CodeDecode(s[0], attrib, Escape(s[1..], attrib));
      EscapeRoundTrip(s[1..], attrib);
      assert [s[0]] + s[1..] == s;
    }
  }

  lemma {:induction false} EscapeClean(s: string, attrib: bool)
    ensures forall i :: 0 <= i < |Escape(s, attrib)| ==>
      Escape(s, attrib)[i] != '<' && Escape(s, attrib)[i] != '>' && (attrib ==> !IsQuote(Escape(s, attrib)[i]))
  {
    if s != "" {
      EscapeClean(s[1..], attrib);
      var code := Code(s[0], attrib);
      assert forall i :: 0 <= i < |code| ==> code[i] != '<' && code[i] != '>' && (attrib ==> !IsQuote(code[i]));
    }
  }

  lemma {:induction false} EscapeConcat(s: string, t: string, attrib: bool)
    ensures Escape(s + t, attrib) == Escape(s, attrib) + Escape(t, attrib)
  {
    hide Code;
    if s == "" {
      assert s + t == t;
    } else {
      EscapeConcat(s[1..], t, attrib);
      assert (s + t)[1..] == s[1..] + t;
    }
  }

  /** x_TextToDoc. */
  method TextToDoc(text: string, attrib: bool) returns (r: string)
    ensures r == Escape(text, attrib)
  {
    r := "";
    for i := 0 to |text|
      invariant r == Escape(text[..i], attrib)
    {
      r := r + Code(text[i], attrib);
      assert text[..i + 1] == text[..i] + [text[i]];
      EscapeConcat(text[..i], [text[i]], attrib);
      assert [text[i]][1..] == "";
      assert Escape([text[i]], attrib) == Code(text[i], attrib) + "";
    }
    assert text[..|text|] == text;
  }

  /** x_TextFromDoc, on the characters of `doc` from `left` to before `right`. */
  method TextFromDoc(doc: string, left: nat, right: nat) returns (r: string)
    requires left <= right <= |doc|
    ensures r == Unescape(doc[left..right])
  {
    hide Decode;
    r := "";
    var i := left;
    while i < right
      invariant left <= i <= right
      invariant r + Unescape(doc[i..right]) == Unescape(doc[left..right])
    {
      var (c, n) := Decode(doc[i..right]);
      assert doc[i..right][n..] == doc[i + n..right];
      r := r + [c];
      i := i + n;
    }
    assert doc[i..right] == "";
  }

  // ----- CDATA ---------------------------------------------------------------

  const CDATA_OPEN := "<![CDATA["
  const CDATA_CLOSE := "]]>"

  function Contains(s: string, pat: string): bool
    requires pat != ""
  {
    FindStr(s, 0, pat) < |s|
  }

  /** x_CreateNode for a CDATA section. */
  function CDataText(data: string): string { CDATA_OPEN + data + CDATA_CLOSE }

  /** The first "]]>" of a CDATA section is its own end. */
  lemma CDataEnd(s: string, n: nat, data: string, from: nat)
    requires Has(s, n, CDataText(data)) && !Contains(data, CDATA_CLOSE) && n <= from <= n + 9
    ensures FindStr(s, from, CDATA_CLOSE) == n + 9 + |data|
  {
    hide FindStr;
    var e := n + 9 + |data|;
    HasConcat(s, n, CDATA_OPEN + data, CDATA_CLOSE);
    HasConcat(s, n, CDATA_OPEN, data);
    forall i | from <= i < e ensures !Has(s, i, CDATA_CLOSE) { NoEarlierEnd(s, n, data, i); }
    var r := FindStr(s, from, CDATA_CLOSE);
    assert r >= e;
    assert !(e < r);
  }

  lemma NoEarlierEnd(s: string, n: nat, data: string, i: nat)
    requires Has(s, n, CDATA_OPEN) && Has(s, n + 9, data) && Has(s, n + 9 + |data|, CDATA_CLOSE)
    requires !Contains(data, CDATA_CLOSE) && n <= i < n + 9 + |data|
    ensures !Has(s, i, CDATA_CLOSE)
  {
    if Has(s, i, CDATA_CLOSE) {
      var e := n + 9 + |data|;
      HasChar(s, i, CDATA_CLOSE, 0);
      HasChar(s, i, CDATA_CLOSE, 2);
      if i < n + 9 {
        HasChar(s, n, CDATA_OPEN, i - n);
      } else if i + 3 <= e {
        HasIn(s, n + 9, data, i - n - 9, CDATA_CLOSE);
      } else {
        HasChar(s, e, CDATA_CLOSE, i + 2 - e);
      }
    }
  }

  lemma CDataGap(data: string)
    requires !Contains(data, CDATA_CLOSE)
    ensures GapOk(CDataText(data))
  {
    hide FindStr, FindAny, TokenAt, DocTypeEnd;
    var g := CDataText(data);
    HasSlice(g, 0, g);
    assert Has(g, 0, g);
    CDataEnd(g, 0, data, 0);
    assert g[0] == '<' && g[1] == '!' && g[2] == '[';
    FindAnyIs(g, 0, Only('<'), 0);
    assert NodeAt(g, 0) == (CData, |g|);
    GapEnd(g);
    assert GapFrom(g, 0);
  }

  lemma GapEnd(g: string)
    ensures GapFrom(g, |g|)
  {
  }

  // ----- reading the data of an element --------------------------------------

  /** x_GetData of an element without children, between its start tag's '>' and its end tag's '<'. */
  function DataAt(doc: string, startR: nat, endL: nat): string
    requires startR < endL <= |doc|
  {
    var t := TokenAt(doc, startR + 1);
    if t.found && t.nL < |doc| && doc[t.nL] == '<' && t.nL + 11 < endL && Has(doc, t.nL + 1, "![CDATA[")
       && FindStr(doc, t.next, CDATA_CLOSE) < endL && t.nL + 9 <= FindStr(doc, t.next, CDATA_CLOSE)
    then doc[t.nL + 9..FindStr(doc, t.next, CDATA_CLOSE)]
    else Unescape(doc[startR + 1..endL])
  }

  /** Data written as a CDATA section reads back. */
  lemma ReadCData(doc: string, startR: nat, endL: nat, data: string)
    requires startR < endL < |doc| && endL == startR + 1 + |CDataText(data)| && Has(doc, startR + 1, CDataText(data))
    requires !Contains(data, CDATA_CLOSE)
    ensures DataAt(doc, startR, endL) == data
  {
    hide FindStr, TokenAt, Contains, Has, Unescape;
    var n := startR + 1;
    HasConcat(doc, n, CDATA_OPEN + data, CDATA_CLOSE);
    HasConcat(doc, n, CDATA_OPEN, data);
    HasChar(doc, n, CDATA_OPEN, 0);
    SpecialToken(doc, n);
    HasSlice(doc, n + 9, data);
    CDataEnd(doc, n, data, n + 1);
    assert CDATA_OPEN == "<" + "![CDATA[";
    HasConcat(doc, n, "<", "![CDATA[");
  }

  /** Data written as text reads back. */
  lemma ReadText(doc: string, startR: nat, endL: nat, data: string)
    requires startR < endL < |doc| && endL == startR + 1 + |Escape(data, false)| &&
             Has(doc, startR + 1, Escape(data, false))
    requires doc[endL] == '<'
    ensures DataAt(doc, startR, endL) == data
  {
    hide FindStr, TokenAt, Escape, Unescape;
    var g := Escape(data, false);
    EscapeClean(data, false);
    EscapeRoundTrip(data, false);
    HasSlice(doc, startR + 1, g);
    var t := TokenAt(doc, startR + 1);
    if t.nL < endL { HasChar(doc, startR + 1, g, t.nL - startR - 1); }
  }
}

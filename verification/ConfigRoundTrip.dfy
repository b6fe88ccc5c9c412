/**
 Dump, then ParseConfig: every value is read back.
 */
module ConfigRoundTrip {
  import opened Basics
  import opened TextScan
  import opened IniText
  import opened ConfigText

  // ----- which configurations come from a text -------------------------------

  predicate OneLine(s: string) { forall i :: 0 <= i < |s| ==> s[i] != '\n' }

  /** A value that ends where the parser ends it. */
  predicate ValOk(v: string) { OneLine(v) && Clip(v) == Some(v) && (v != "" ==> !IsSpace(v[0])) }

  predicate SectionOk(name: string) {
    forall i :: 0 <= i < |name| ==> name[i] != '=' && !IsSpace(name[i]) && name[i] != ']' && name[i] != '\n'
  }

  predicate KeyText(key: string) { OneLine(key) && forall i :: 0 <= i < |key| ==> key[i] != '=' && !IsSpace(key[i]) }

  /** A key a line may start with. */
  predicate KeyFirst(key: string) {
    key != "" ==> IsPrint(key[0]) && key[0] != '[' && key[0] != '#' && key[0] != '?' && key[0] != ';'
  }

  predicate EntryOk(e: Entry) { KeyText(e.key) && (e.raw != "" ==> ValOk(e.raw[1..])) }

  predicate KeysSorted(keys: seq<Entry>) { forall i, j :: 0 <= i < j < |keys| ==> Less(keys[i].key, keys[j].key) }

  predicate KeysOk(keys: seq<Entry>) { (forall i :: 0 <= i < |keys| ==> EntryOk(keys[i])) && KeysSorted(keys) }

  predicate ConfOk(conf: seq<Section>) {
    (forall i :: 0 <= i < |conf| ==> SectionOk(conf[i].name) && KeysOk(conf[i].keys)) && SectionsSorted(conf)
  }

  predicate KeysPrintable(conf: seq<Section>) {
    forall i, j :: 0 <= i < |conf| && 0 <= j < |conf[i].keys| ==> KeyFirst(conf[i].keys[j].key)
  }

  /** A line that ends with CR: the CR is taken as part of the line end. */
  predicate EndsCR(s: string) { s != "" && s[|s| - 1] == '\r' }

  function Chomp(s: string): string { if EndsCR(s) then s[..|s| - 1] else s }

  /** What a written value is read back as. */
  function Reread(val: string): string {
    match Clip(Chomp(val))
    case None => ""
    case Some(v) => v
  }

  predicate ValuesEnd(conf: seq<Section>) {
    forall i, j :: 0 <= i < |conf| && 0 <= j < |conf[i].keys| ==>
      conf[i].keys[j].raw != "" ==> !EndsCR(conf[i].keys[j].raw[1..])
  }

  // ----- what a value is -----------------------------------------------------

  /** What closes a value that starts with `c`, if anything has to. */
  function Closing(c: char): Option<char> {
    if c == '(' then Some(')') else if c == '[' then Some(']') else if c == '{' then Some('}')
    else if c == '"' || c == '\'' then Some(c) else None
  }

  /** Where the value of `v` ends: a bracket is closed by the first closing one, a quote by the last such quote behind
      it, and anything else loses the blanks at its end, but for its first character. */
  ghost predicate EndsAt(v: string, n: nat) {
    && n <= |v|
    && if v == "" then n == 0
       else match Closing(v[0])
         case None =>
           && n >= 1 && (forall i :: n <= i < |v| ==> IsSpace(v[i])) && (n > 1 ==> !IsSpace(v[n - 1]))
         case Some(close) =>
           && n >= 2 && v[n - 1] == close
           && if IsQuote(v[0]) then forall i :: n <= i < |v| ==> v[i] != close
              else forall i :: 0 <= i < n - 1 ==> v[i] != close
  }

  /** It has no closing bracket or quote. */
  predicate Unclosed(v: string) {
    v != "" && Closing(v[0]).Some? && forall i :: 1 <= i < |v| ==> v[i] != Closing(v[0]).value
  }

  lemma ClipMeans(v: string)
    ensures Clip(v).None? <==> Unclosed(v)
    ensures forall n: nat :: n <= |v| ==> (EndsAt(v, n) <==> Clip(v) == Some(v[..n]))
  {
    hide FindAny, FindLast;
    if v == "" {
      assert v[..0] == v;
    } else if v[0] == '(' { UpToMeans(v, ')');
    } else if v[0] == '[' { UpToMeans(v, ']');
    } else if v[0] == '{' { UpToMeans(v, '}');
    } else if IsQuote(v[0]) { UpToLastMeans(v);
    } else { TrimMeans(v); }
  }

  lemma UpToMeans(v: string, close: char)
    requires v != "" && Closing(v[0]) == Some(close) && !IsQuote(v[0])
    ensures UpTo(v, close).None? <==> Unclosed(v)
    ensures forall n: nat :: n <= |v| ==> (EndsAt(v, n) <==> UpTo(v, close) == Some(v[..n]))
  {
    hide FindAny;
    var r := FindAny(v, 0, Only(close));
    forall n: nat | n <= |v| ensures EndsAt(v, n) <==> UpTo(v, close) == Some(v[..n]) {
      if EndsAt(v, n) { FindAnyIs(v, 0, Only(close), n - 1); }
      if UpTo(v, close) == Some(v[..n]) { assert |v[..n]| == n && |v[..r + 1]| == r + 1; }
    }
  }

  lemma UpToLastMeans(v: string)
    requires v != "" && IsQuote(v[0])
    ensures UpToLast(v, v[0]).None? <==> Unclosed(v)
    ensures forall n: nat :: n <= |v| ==> (EndsAt(v, n) <==> UpToLast(v, v[0]) == Some(v[..n]))
  {
    hide FindLast;
    var t, r := v[1..], FindLast(v[1..], v[0]);
    assert forall i :: 1 <= i < |v| ==> v[i] == t[i - 1];
    forall n: nat | n <= |v| ensures EndsAt(v, n) <==> UpToLast(v, v[0]) == Some(v[..n]) {
      if EndsAt(v, n) {
        assert t[n - 2] == v[n - 1] == v[0];
        assert r == Some(n - 2);
      }
      if UpToLast(v, v[0]) == Some(v[..n]) {
        assert |v[..n]| == n && |v[..r.value + 2]| == r.value + 2;
        forall i | n <= i < |v| ensures v[i] != v[0] { assert t[i - 1] == v[i]; }
      }
    }
  }

  lemma TrimMeans(v: string)
    requires v != "" && Closing(v[0]).None?
    ensures forall n: nat :: n <= |v| ==> (EndsAt(v, n) <==> TrimRight(v) == v[..n])
  {
    hide TrimRight;
    TrimEnds(v);
    forall n: nat | n <= |v| ensures EndsAt(v, n) <==> TrimRight(v) == v[..n] {
      var m := |TrimRight(v)|;
      if TrimRight(v) == v[..n] { assert m == n; }
    }
  }

  lemma {:induction false} TrimEnds(v: string)
    requires v != ""
    ensures var m := |TrimRight(v)|;
            1 <= m <= |v| && (forall i :: m <= i < |v| ==> IsSpace(v[i])) && (m > 1 ==> !IsSpace(v[m - 1]))
  {
    if |v| > 1 && IsSpace(v[|v| - 1]) {
      var u := v[..|v| - 1];
      TrimEnds(u);
      assert forall i :: 0 <= i < |u| ==> u[i] == v[i];
    }
  }

  // ----- clipping twice ------------------------------------------------------

  lemma ClipTwice(v: string)
    requires OneLine(v) && (v != "" ==> !IsSpace(v[0])) && Clip(v).Some?
    ensures ValOk(Clip(v).value)
  {
    hide FindAny, FindLast, TrimRight;
    if v != "" {
      var r := Clip(v).value;
      if v[0] == '(' { UpToTwice(v, ')');
      } else if v[0] == '[' { UpToTwice(v, ']');
      } else if v[0] == '{' { UpToTwice(v, '}');
      } else if v[0] == '"' || v[0] == '\'' { UpToLastTwice(v, v[0]);
      } else { TrimTwice(v); }
    }
  }

  lemma UpToTwice(v: string, close: char)
    requires v != "" && v[0] != close && UpTo(v, close).Some?
    ensures var r := UpTo(v, close).value;
            r != "" && r[0] == v[0] && UpTo(r, close) == Some(r) && forall i :: 0 <= i < |r| ==> r[i] == v[i]
  {
    hide FindAny;
    var n := FindAny(v, 0, Only(close));
    var r := v[..n + 1];
    assert FindAny(r, 0, Only(close)) == n;
    assert r[..n + 1] == r;
  }

  lemma UpToLastTwice(v: string, quote: char)
    requires v != "" && UpToLast(v, quote).Some?
    ensures var r := UpToLast(v, quote).value;
            && r != "" && r[0] == v[0] && UpToLast(r, quote) == Some(r) && |r| <= |v|
            && forall i :: 0 <= i < |r| ==> r[i] == v[i]
  {
    hide FindLast;
    var i := FindLast(v[1..], quote).value;
    var r := v[..i + 2];
    assert v[1..][i] == v[i + 1] == r[i + 1];
    assert r[1..][i] == quote && |r[1..]| == i + 1;
    assert FindLast(r[1..], quote) == Some(i);
    assert r[..i + 2] == r;
  }

  lemma TrimTwice(v: string)
    requires v != ""
    ensures var r := TrimRight(v);
            r != "" && r[0] == v[0] && TrimRight(r) == r && |r| <= |v| && forall i :: 0 <= i < |r| ==> r[i] == v[i]
  {
  }

  predicate Unblank(v: string) { v != "" ==> !IsSpace(v[0]) }

  /** A value is read back unless it ends with CR, then shorter. */
  lemma RereadValue(val: string)
    requires ValOk(val)
    ensures Unblank(Chomp(val)) && Clip(Chomp(val)) == Some(Reread(val))
    ensures if EndsCR(val) then |Reread(val)| < |val| else Reread(val) == val
  {
    hide FindAny, FindLast, TrimRight;
    if EndsCR(val) {
      if val[0] == '(' { UpToEnd(val, ')');
      } else if val[0] == '[' { UpToEnd(val, ']');
      } else if val[0] == '{' { UpToEnd(val, '}');
      } else if val[0] == '"' || val[0] == '\'' { UpToLastEnd(val, val[0]);
      }
    }
  }

  lemma UpToEnd(v: string, close: char)
    requires v != "" && UpTo(v, close) == Some(v)
    ensures v[|v| - 1] == close
  {
  }

  lemma UpToLastEnd(v: string, quote: char)
    requires v != "" && UpToLast(v, quote) == Some(v)
    ensures v[|v| - 1] == quote
  {
    hide FindLast;
    var i := FindLast(v[1..], quote).value;
    assert v[1..][i] == v[i + 1];
  }

  // ----- the lines Dump writes -----------------------------------------------

  lemma SkipNone(s: string, i: nat)
    requires i <= |s| && (i < |s| ==> !IsSpace(s[i]))
    ensures SkipBlank(s, i) == i
  {
  }

  lemma SkipOne(s: string, i: nat)
    requires i < |s| && s[i] == ' ' && (i + 1 < |s| ==> !IsSpace(s[i + 1]))
    ensures SkipBlank(s, i) == i + 1
  {
    SkipNone(s, i + 1);
  }

  lemma KeyEndIs(s: string, i: nat, r: nat)
    requires i <= r <= |s| && (forall j :: i <= j < r ==> s[j] != '=' && !IsSpace(s[j])) &&
             (r < |s| ==> s[r] == '=' || IsSpace(s[r]))
    ensures KeyEnd(s, i) == r
  {
  }

  lemma HeaderLine(name: string)
    requires SectionOk(name)
    ensures ParseLine("[" + name + "]") == Header(name)
  {
    hide Skip, KeyEnd, FindAny;
    var line := "[" + name + "]";
    SkipNone(line, 0);
    forall j | 0 <= j < |line| ensures line[j] != '=' && !IsSpace(line[j]) {
      if 0 < j < |line| - 1 { assert line[j] == name[j - 1]; }
    }
    KeyEndIs(line, 0, |line|);
    forall j | 0 <= j < |line| - 1 ensures !Is(Only(']'), line[j]) {
      if 0 < j { assert line[j] == name[j - 1]; }
    }
    FindAnyIs(line, 0, Only(']'), |line| - 1);
    assert line[0..|line|] == line && line[1..|line| - 1] == name;
  }

  /** The value of a line behind its key. */
  lemma ValueBehind(key: string, val: string)
    requires Unblank(val) && KeyText(key)
    ensures var line := key + " = " + val; ValueOf(line, KeyEnd(line, SkipBlank(line, 0))) == Some(val)
  {
    hide Skip, KeyEnd, Clip;
    var line := key + " = " + val;
    KeyBehind(key, val);
    var p, v := |key| + 1, |key| + 3;
    assert line[|key|] == ' ' && line[p] == '=' && line[p + 1] == ' ' && line[v..] == val;
    if val != "" { assert line[v] == val[0]; }
    SkipOne(line, p + 1);
    SkipNone(line, p);
  }

  lemma KeyBehind(key: string, val: string)
    requires KeyText(key)
    ensures var line := key + " = " + val; var k := SkipBlank(line, 0);
            if key == "" then k == 1 && KeyEnd(line, k) == 1 else k == 0 && KeyEnd(line, k) == |key|
  {
    hide Skip, KeyEnd;
    var line := key + " = " + val;
    if key == "" {
      assert line[0] == ' ' && line[1] == '=';
      SkipOne(line, 0);
      KeyEndIs(line, 1, 1);
    } else {
      assert line[0] == key[0] && line[|key|] == ' ';
      SkipNone(line, 0);
      assert forall j :: 0 <= j < |key| ==> line[j] == key[j];
      KeyEndIs(line, 0, |key|);
    }
  }

  lemma EntryLine(key: string, val: string)
    requires Unblank(val) && Clip(val).Some? && KeyText(key) && KeyFirst(key)
    ensures ParseLine(key + " = " + val) == Set(key, Clip(val).value)
  {
    hide SkipBlank, KeyEnd, Clip, ValueOf;
    var line := key + " = " + val;
    KeyBehind(key, val);
    ValueBehind(key, val);
    if key == "" {
      assert line[1] == '=' && line[1..1] == "";
    } else {
      assert line[0] == key[0] && line[0..|key|] == key;
    }
  }

  // ----- reading a value -----------------------------------------------------

  /** The value of `text` starts at `m`, behind its leading blanks. */
  predicate StartsAt(text: string, m: nat) {
    m <= |text| && (forall i :: 0 <= i < m ==> IsSpace(text[i])) && (m < |text| ==> !IsSpace(text[m]))
  }

  lemma AnyValueBehind(key: string, text: string, m: nat)
    requires StartsAt(text, m) && KeyText(key)
    ensures var line := key + " = " + text; ValueOf(line, KeyEnd(line, SkipBlank(line, 0))) == Some(text[m..])
  {
    hide Skip, KeyEnd;
    var line := key + " = " + text;
    KeyBehind(key, text);
    var p, v := |key| + 1, |key| + 3;
    assert line[|key|] == ' ' && line[p] == '=' && line[p + 1] == ' ' && line[v..] == text;
    BlankBehind(line, v, text, m);
    SkipNone(line, p);
  }

  lemma BlankBehind(line: string, v: nat, text: string, m: nat)
    requires 0 < v <= |line| && line[v..] == text && line[v - 1] == ' ' && StartsAt(text, m)
    ensures SkipBlank(line, v - 1) == v + m && line[v + m..] == text[m..]
  {
    hide Skip;
    forall j | v - 1 <= j < v + m ensures IsSpace(line[j]) {
      if v <= j { assert line[j] == text[j - v]; }
    }
    if m < |text| { assert line[v + m] == text[m]; }
    SkipIsTo(line, v - 1, v + m);
  }

  lemma SkipIsTo(s: string, i: nat, r: nat)
    requires i <= r <= |s| && (forall j :: i <= j < r ==> IsSpace(s[j])) && (r < |s| ==> !IsSpace(s[r]))
    ensures SkipBlank(s, i) == r
  {
    hide Skip;
  }

  /** A line that gives a key a text: the value is the text as far as it goes, and the line is refused exactly if a
      bracket or quote is not closed. */
  lemma AnyEntryLine(key: string, text: string, m: nat)
    requires StartsAt(text, m) && KeyText(key) && KeyFirst(key)
    ensures ParseLine(key + " = " + text) == match Clip(text[m..]) case None => Invalid case Some(v) => Set(key, v)
  {
    hide SkipBlank, KeyEnd, Clip, ValueOf;
    var line := key + " = " + text;
    KeyBehind(key, text);
    AnyValueBehind(key, text, m);
    if key == "" {
      assert line[1] == '=' && line[1..1] == "";
    } else {
      assert line[0] == key[0] && line[0..|key|] == key;
    }
  }

  /** Blank lines and comments say nothing; a line that starts with any other character must be printable. */
  lemma QuietLine(line: string, m: nat)
    requires StartsAt(line, m)
    ensures ParseLine(line) == Nothing <==> m == |line| || line[m] == '#' || line[m] == '?' || line[m] == ';'
    ensures m < |line| && !IsPrint(line[m]) ==> ParseLine(line) == Invalid
  {
    hide Skip, KeyEnd, Clip, ValueOf, ParseHeader;
    SkipIsTo(line, 0, m);
    if m < |line| && line[m] == '[' {
      var e := KeyEnd(line, m);
      HeaderNot(line[m..e], ValueOf(line, e));
    }
  }

  lemma HeaderNot(key: string, v: Option<string>)
    ensures ParseHeader(key, v) != Nothing
  {
    hide FindAny, Clip;
  }

  /** "[section].key = text" gives the key of that section the text, and makes the section even if the text is
      refused. */
  lemma SectionEntry(sec: string, key: string, text: string, m: nat)
    requires SectionOk(sec) && KeyText(key) && StartsAt(text, m)
    ensures ParseLine("[" + sec + "]." + key + " = " + text) ==
            match Clip(text[m..]) case None => BadIn(sec) case Some(v) => SetIn(sec, key, v)
  {
    hide SkipBlank, KeyEnd, Clip, ValueOf, FindAny;
    var full := "[" + sec + "]." + key;
    var line := full + " = " + text;
    assert "[" + sec + "]." + key + " = " + text == line;
    forall i | 0 <= i < |full| ensures full[i] != '=' && !IsSpace(full[i]) && full[i] != '\n' {
      if 1 <= i <= |sec| { assert full[i] == sec[i - 1]; }
      if |sec| + 3 <= i { assert full[i] == key[i - |sec| - 3]; }
    }
    KeyBehind(full, text);
    AnyValueBehind(full, text, m);
    assert line[0] == '[' && line[0..|full|] == full;
    var r := |sec| + 1;
    forall i | 0 <= i < r ensures !Is(Only(']'), full[i]) { if i > 0 { assert full[i] == sec[i - 1]; } }
    FindAnyIs(full, 0, Only(']'), r);
    assert full[1..r] == sec && full[r + 2..] == key;
  }

  /** A text is read line by line. */
  lemma {:induction false} TextSplit(st: State, a: string, b: string)
    requires a == "" || a[|a| - 1] == '\n'
    ensures ParseText(st, a + b) == ParseText(ParseText(st, a), b)
    decreases |a|
  {
    hide FindAny, ParseLine, Apply, ParseText, LineOf;
    if a == "" {
      assert a + b == b;
      NoText(st);
    } else {
      var text, j := a + b, FindAny(a, 0, Only('\n'));
      assert Is(Only('\n'), a[|a| - 1]);
      FindAnyIs(text, 0, Only('\n'), j);
      LineKept(a, b, j);
      var rest := a[j + 1..];
      assert text[j + 1..] == rest + b;
      assert rest != "" ==> rest[|rest| - 1] == '\n';
      TextStep(st, a, j);
      TextStep(st, text, j);
      TextSplit(Apply(st, ParseLine(LineOf(a, j))), rest, b);
    }
  }

  lemma TextStep(st: State, text: string, j: nat)
    requires text != "" && j == FindAny(text, 0, Only('\n')) < |text|
    ensures ParseText(st, text) == ParseText(Apply(st, ParseLine(LineOf(text, j))), text[j + 1..])
  {
    hide FindAny, ParseLine, Apply, LineOf;
  }

  lemma LineKept(a: string, b: string, j: nat)
    requires j < |a|
    ensures LineOf(a + b, j) == LineOf(a, j)
  {
    assert (a + b)[..j] == a[..j] && (j > 0 ==> (a + b)[..j - 1] == a[..j - 1]);
  }

  lemma LastLine(st: State, line: string)
    requires OneLine(line) && line != ""
    ensures ParseText(st, line) == Apply(st, ParseLine(line))
  {
    hide FindAny, ParseLine, Apply;
    var j := FindAny(line, 0, Only('\n'));
    assert j == |line| && line[..j] == line;
  }

  /** The return code tells whether every line is blank, a comment, a header or an entry. */
  lemma {:induction false} LinesSplit(a: string, b: string)
    requires a == "" || a[|a| - 1] == '\n'
    ensures LinesOk(a + b) <==> LinesOk(a) && LinesOk(b)
    decreases |a|
  {
    hide FindAny, ParseLine, LineOf;
    if a == "" {
      assert a + b == b;
    } else {
      var text, j := a + b, FindAny(a, 0, Only('\n'));
      assert Is(Only('\n'), a[|a| - 1]);
      FindAnyIs(text, 0, Only('\n'), j);
      LineKept(a, b, j);
      var rest := a[j + 1..];
      assert text[j + 1..] == rest + b;
      assert rest != "" ==> rest[|rest| - 1] == '\n';
      LinesSplit(rest, b);
    }
  }

  lemma LineVerdict(line: string)
    requires OneLine(line)
    ensures LinesOk(line) <==> line == "" || (!ParseLine(line).Invalid? && !ParseLine(line).BadIn?)
    ensures LinesOk(line + "\n") <==> !ParseLine(Chomp(line)).Invalid? && !ParseLine(Chomp(line)).BadIn?
  {
    hide FindAny, ParseLine;
    assert FindAny(line, 0, Only('\n')) == |line| && line[..|line|] == line;
    var text := line + "\n";
    assert text[|line|] == '\n' && forall i :: 0 <= i < |line| ==> text[i] == line[i];
    FindAnyIs(text, 0, Only('\n'), |line|);
    assert text[..|line|] == line && text[|line| + 1..] == "";
    assert line != "" ==> text[..|line| - 1] == line[..|line| - 1];
  }

  /** How a configuration looks when it is dumped. */
  lemma DumpLooks()
    ensures var conf := [Section("a", []), Section("s", [Entry("k", "?v"), Entry("m", " w")])];
            Dump(conf, "f") == "##### ORIGINAL FILE f #####\n\n[s]\nk = v\nm = w\n"
  {
    hide DumpKeys, DumpSections;
    var k, m := Entry("k", "?v"), Entry("m", " w");
    DumpEntry("k", "?v", [m]);
    DumpEntry("m", " w", []);
    assert [k] + [m] == [k, m] && [m] + [] == [m];
    DumpNothing();
    var s := Section("s", [k, m]);
    assert [Section("a", [])] + [s] == [Section("a", []), s] && [s] + [] == [s];
    DumpFirst(Section("a", []), [s]);
    DumpFirst(s, []);
  }

  lemma DumpEntry(key: string, raw: string, rest: seq<Entry>)
    requires raw != ""
    ensures DumpKeys([Entry(key, raw)] + rest) == key + " = " + raw[1..] + "\n" + DumpKeys(rest)
  {
    assert ([Entry(key, raw)] + rest)[1..] == rest;
  }

  lemma DumpFirst(s: Section, rest: seq<Section>)
    ensures DumpSections([s] + rest) ==
            (if s.keys == [] then "" else "\n[" + s.name + "]\n" + DumpKeys(s.keys)) + DumpSections(rest)
  {
    hide DumpKeys;
    assert ([s] + rest)[1..] == rest;
  }

  lemma DumpNothing()
    ensures DumpKeys([]) == "" && DumpSections([]) == ""
  {
  }

  /** Reading `key = text` behind any text of whole lines: the value of the key in the section in force is `text`
      without the blanks before it and as far as it goes, or what it was if a bracket or quote is not closed; no other
      value changes. */
  lemma ValueRead(st0: State, before: string, key: string, text: string, m: nat, n: nat, s: string, k: string)
    requires SectionsSorted(ParseText(st0, before).conf) && (before == "" || before[|before| - 1] == '\n')
    requires KeyText(key) && KeyFirst(key) && OneLine(text) && StartsAt(text, m)
    requires EndsAt(text[m..], n) || Unclosed(text[m..])
    ensures var st, st' := ParseText(st0, before), ParseText(st0, before + (key + " = " + text));
            && st'.cur == st.cur
            && StrVal(st'.conf, s, k) ==
               if !Unclosed(text[m..]) && SameName(st.cur, s) && SameName(key, k) then Some(text[m..][..n])
               else StrVal(st.conf, s, k)
  {
    hide ParseText, ParseLine, Clip, SameName, Find, Put, EndsAt, SectionsSorted, KeyFirst, Unclosed;
    var line, v := key + " = " + text, text[m..];
    TextSplit(st0, before, line);
    var st := ParseText(st0, before);
    assert OneLine(line);
    LastLine(st, line);
    AnyEntryLine(key, text, m);
    ClipMeans(v);
    if !Unclosed(v) {
      EndWithin(v, n);
      assert Clip(v) == Some(v[..n]);
      FindPut(st.conf, st.cur, key, "?" + v[..n], s, k);
      assert ("?" + v[..n])[1..] == v[..n];
    }
  }

  /** The same in a section named on the line, which is made if need be. */
  lemma SectionValueRead(
      st0: State, before: string, sec: string, key: string, text: string, m: nat, n: nat, s: string, k: string)
    requires SectionsSorted(ParseText(st0, before).conf) && (before == "" || before[|before| - 1] == '\n')
    requires SectionOk(sec) && KeyText(key) && OneLine(text) && OneLine(key) && StartsAt(text, m)
    requires EndsAt(text[m..], n) || Unclosed(text[m..])
    ensures var st, st' := ParseText(st0, before), ParseText(st0, before + ("[" + sec + "]." + key + " = " + text));
            && st'.cur == st.cur
            && StrVal(st'.conf, s, k) ==
               if !Unclosed(text[m..]) && SameName(sec, s) && SameName(key, k) then Some(text[m..][..n])
               else StrVal(st.conf, s, k)
  {
    hide ParseText, ParseLine, Clip, SameName, Find, Put, PutSection, EndsAt, SectionsSorted, Unclosed;
    var line, v := "[" + sec + "]." + key + " = " + text, text[m..];
    TextSplit(st0, before, line);
    var st := ParseText(st0, before);
    assert OneLine(line);
    LastLine(st, line);
    SectionEntry(sec, key, text, m);
    ClipMeans(v);
    if Unclosed(v) {
      FindPutSection(st.conf, sec, s, k);
    } else {
      EndWithin(v, n);
      assert Clip(v) == Some(v[..n]);
      FindPut(st.conf, sec, key, "?" + v[..n], s, k);
      assert ("?" + v[..n])[1..] == v[..n];
    }
  }

  /** A header puts its section in force and changes no value. */
  lemma HeaderRead(st0: State, before: string, sec: string, s: string, k: string)
    requires SectionsSorted(ParseText(st0, before).conf) && (before == "" || before[|before| - 1] == '\n')
    requires SectionOk(sec)
    ensures var st, st' := ParseText(st0, before), ParseText(st0, before + ("[" + sec + "]"));
            st'.cur == sec && StrVal(st'.conf, s, k) == StrVal(st.conf, s, k)
  {
    hide ParseText, ParseLine, SameName, Find, PutSection, SectionsSorted;
    var line := "[" + sec + "]";
    TextSplit(st0, before, line);
    assert OneLine(line);
    LastLine(ParseText(st0, before), line);
    HeaderLine(sec);
    FindPutSection(ParseText(st0, before).conf, sec, s, k);
  }

  /** Before any header the default section is in force. */
  lemma DefaultRead(defsec: string, key: string, text: string, m: nat, n: nat)
    requires KeyText(key) && KeyFirst(key) && OneLine(text) && StartsAt(text, m) && EndsAt(text[m..], n)
    requires !Unclosed(text[m..])
    ensures StrVal(Parse(key + " = " + text, defsec), defsec, key) == Some(text[m..][..n])
  {
    hide ParseText, ParseLine, SameName, Find, EndsAt, SectionsSorted, Unclosed, KeyFirst, PutSection;
    var st0 := State(PutSection([], defsec), defsec);
    NoText(st0);
    OneSorted(defsec);
    ValueRead(st0, "", key, text, m, n, defsec, key);
    SameTrans(defsec, defsec, defsec);
    SameTrans(key, key, key);
    assert "" + (key + " = " + text) == key + " = " + text;
  }

  lemma OneSorted(sec: string)
    ensures SectionsSorted(PutSection([], sec))
  {
  }

  lemma EndWithin(v: string, n: nat)
    requires EndsAt(v, n)
    ensures n <= |v|
  {
  }

  // ----- reading line by line ------------------------------------------------

  lemma ReadLine(st: State, line: string, rest: string)
    requires OneLine(line)
    ensures ParseText(st, line + "\n" + rest) == ParseText(Apply(st, ParseLine(Chomp(line))), rest)
  {
    hide FindAny, ParseLine, Apply;
    var text, j := line + "\n" + rest, |line|;
    assert text[j] == '\n' && forall i :: 0 <= i < j ==> text[i] == line[i];
    FindAnyIs(text, 0, Only('\n'), j);
    assert text[..j] == line && text[j + 1..] == rest && (j > 0 ==> text[..j - 1] == line[..j - 1]);
  }

  /** What is stored for a value that was read back. */
  function Marked(raw: string): string { if raw == "" then "" else "?" + Reread(raw[1..]) }

  /** What reading the entries of a section does. */
  function PutAll(conf: seq<Section>, sec: string, keys: seq<Entry>): seq<Section>
    decreases |keys|
  {
    if keys == [] then conf
    else if keys[0].raw == "" then PutAll(conf, sec, keys[1..])
    else PutAll(Put(conf, sec, keys[0].key, Marked(keys[0].raw)), sec, keys[1..])
  }

  lemma {:induction false} ReadKeys(st: State, keys: seq<Entry>, rest: string)
    requires forall i :: 0 <= i < |keys| ==> EntryOk(keys[i]) && KeyFirst(keys[i].key)
    ensures ParseText(st, DumpKeys(keys) + rest) == ParseText(st.(conf := PutAll(st.conf, st.cur, keys)), rest)
    decreases |keys|
  {
    hide ParseText, ParseLine, EntryOk, KeyFirst, Marked;
    if keys == [] {
      assert DumpKeys(keys) + rest == rest;
    } else {
      var e := keys[0];
      if e.raw == "" {
        assert DumpKeys(keys) == DumpKeys(keys[1..]);
        ReadKeys(st, keys[1..], rest);
      } else {
        var st' := st.(conf := Put(st.conf, st.cur, e.key, Marked(e.raw)));
        ReadEntry(st, e, DumpKeys(keys[1..]) + rest);
        var line := e.key + " = " + e.raw[1..] + "\n";
        assert DumpKeys(keys) + rest == line + (DumpKeys(keys[1..]) + rest);
        ReadKeys(st', keys[1..], rest);
      }
    }
  }

  lemma ReadEntry(st: State, e: Entry, rest: string)
    requires EntryOk(e) && KeyFirst(e.key) && e.raw != ""
    ensures ParseText(st, e.key + " = " + e.raw[1..] + "\n" + rest) ==
      ParseText(st.(conf := Put(st.conf, st.cur, e.key, Marked(e.raw))), rest)
  {
    hide ParseText, ParseLine, KeyFirst, Clip, Chomp, Reread;
    var line, val := e.key + " = " + e.raw[1..], e.raw[1..];
    RereadValue(val);
    ChompLine(e.key, val);
    EntryLine(e.key, Chomp(val));
    assert OneLine(line);
    ReadLine(st, line, rest);
  }

  lemma ChompLine(key: string, val: string)
    ensures Chomp(key + " = " + val) == key + " = " + Chomp(val)
  {
    var line := key + " = " + val;
    if val != "" { assert line[|line| - 1] == val[|val| - 1]; }
    if EndsCR(val) { assert line[..|line| - 1] == key + " = " + val[..|val| - 1]; }
  }

  lemma ReadHeader(st: State, name: string, rest: string)
    requires SectionOk(name)
    ensures ParseText(st, "\n[" + name + "]\n" + rest) == ParseText(State(PutSection(st.conf, name), name), rest)
  {
    hide ParseText, ParseLine;
    EmptyLine();
    var line := "[" + name + "]";
    assert "\n[" + name + "]\n" + rest == "" + "\n" + (line + "\n" + rest);
    ReadLine(st, "", line + "\n" + rest);
    HeaderLine(name);
    assert OneLine(line);
    ReadLine(st, line, rest);
  }

  lemma EmptyLine()
    ensures ParseLine("") == Nothing
  {
  }

  lemma CommentLine(line: string)
    requires line != "" && line[0] == '#'
    ensures ParseLine(line) == Nothing
  {
    SkipNone(line, 0);
  }

  /** What reading the sections does. */
  function PutSections(conf: seq<Section>, secs: seq<Section>): seq<Section>
    decreases |secs|
  {
    if secs == [] then conf
    else if secs[0].keys == [] then PutSections(conf, secs[1..])
    else PutSections(PutAll(PutSection(conf, secs[0].name), secs[0].name, secs[0].keys), secs[1..])
  }

  lemma {:induction false} ReadSections(st: State, secs: seq<Section>)
    requires ConfOk(secs) && KeysPrintable(secs)
    ensures ParseText(st, DumpSections(secs)).conf == PutSections(st.conf, secs)
    decreases |secs|
  {
    hide ParseText, ParseLine, SectionOk, KeysOk, KeyFirst, DumpKeys, Less, PutAll;
    if secs == [] {
      NoText(st);
    } else {
      var rest := DumpSections(secs[1..]);
      TailOk(secs);
      if secs[0].keys == [] {
        assert DumpSections(secs) == rest;
        ReadSections(st, secs[1..]);
      } else {
        var s := secs[0];
        assert DumpSections(secs) == "\n[" + s.name + "]\n" + (DumpKeys(s.keys) + rest);
        ReadHeader(st, s.name, DumpKeys(s.keys) + rest);
        var st1 := State(PutSection(st.conf, s.name), s.name);
        KeysReady(secs);
        ReadKeys(st1, s.keys, rest);
        ReadSections(st1.(conf := PutAll(st1.conf, s.name, s.keys)), secs[1..]);
      }
    }
  }

  lemma NoText(st: State)
    ensures ParseText(st, "") == st
  {
  }

  lemma TailOk(secs: seq<Section>)
    requires secs != [] && ConfOk(secs) && KeysPrintable(secs)
    ensures ConfOk(secs[1..]) && KeysPrintable(secs[1..])
  {
    hide SectionOk, KeysOk, KeyFirst, Less;
  }

  lemma KeysReady(secs: seq<Section>)
    requires secs != [] && ConfOk(secs) && KeysPrintable(secs)
    ensures SectionOk(secs[0].name)
    ensures forall i :: 0 <= i < |secs[0].keys| ==> EntryOk(secs[0].keys[i]) && KeyFirst(secs[0].keys[i].key)
  {
    hide SectionOk, EntryOk, KeyFirst, Less;
    assert KeysOk(secs[0].keys);
  }

  // ----- what is found afterwards --------------------------------------------

  lemma {:induction false} Absent(keys: seq<Entry>, key: string)
    requires forall i :: 0 <= i < |keys| ==> !SameName(keys[i].key, key)
    ensures FindKey(keys, key) == ""
  {
    hide SameName;
    if keys != [] { Absent(keys[1..], key); }
  }

  lemma OthersAbsent(keys: seq<Entry>, k: string)
    requires keys != [] && KeysSorted(keys) && SameName(keys[0].key, k)
    ensures FindKey(keys[1..], k) == ""
  {
    hide SameName, Less;
    var rest := keys[1..];
    forall i | 0 <= i < |rest| ensures !SameName(rest[i].key, k) {
      assert Less(keys[0].key, keys[i + 1].key);
      LessOrder(keys[0].key, rest[i].key, k);
      SameSym(rest[i].key, k, keys[0].key);
    }
    Absent(rest, k);
  }

  lemma SameSym(a: string, b: string, c: string)
    ensures SameName(a, b) && SameName(c, b) ==> SameName(c, a)
  {
  }

  lemma KeysTail(keys: seq<Entry>)
    requires keys != [] && KeysOk(keys)
    ensures KeysOk(keys[1..]) && EntryOk(keys[0])
    ensures forall i :: 0 <= i < |keys| - 1 ==> Less(keys[0].key, keys[1..][i].key)
  {
    hide EntryOk, Less;
  }

  lemma SortedTail(keys: seq<Entry>)
    requires keys != [] && KeysSorted(keys)
    ensures KeysSorted(keys[1..])
  {
    hide Less;
  }

  lemma {:induction false} FindPutAll(conf: seq<Section>, sec: string, keys: seq<Entry>, s: string, k: string)
    requires KeysSorted(keys) && SectionsSorted(conf)
    ensures SectionsSorted(PutAll(conf, sec, keys))
    ensures Find(PutAll(conf, sec, keys), s, k) ==
      if SameName(sec, s) && FindKey(keys, k) != "" then Marked(FindKey(keys, k)) else Find(conf, s, k)
    decreases |keys|
  {
    hide KeysSorted, SectionsSorted, SameName, Less;
    if keys != [] {
      SortedTail(keys);
      var e := keys[0];
      if SameName(e.key, k) { OthersAbsent(keys, k); }
      if e.raw == "" {
        FindPutAll(conf, sec, keys[1..], s, k);
      } else {
        PutSorted(conf, sec, e.key, Marked(e.raw));
        FindPutAll(Put(conf, sec, e.key, Marked(e.raw)), sec, keys[1..], s, k);
        FindPut(conf, sec, e.key, Marked(e.raw), s, k);
      }
    }
  }

  lemma {:induction false} NoSection(secs: seq<Section>, s: string, k: string)
    requires forall i :: 0 <= i < |secs| ==> !SameName(secs[i].name, s)
    ensures Find(secs, s, k) == ""
  {
    hide SameName;
    if secs != [] { NoSection(secs[1..], s, k); }
  }

  lemma OtherSections(secs: seq<Section>, s: string, k: string)
    requires secs != [] && SectionsSorted(secs) && SameName(secs[0].name, s)
    ensures Find(secs[1..], s, k) == ""
  {
    hide SameName, Less;
    var rest := secs[1..];
    forall i | 0 <= i < |rest| ensures !SameName(rest[i].name, s) {
      assert Less(secs[0].name, secs[i + 1].name);
      LessOrder(secs[0].name, rest[i].name, s);
      SameSym(rest[i].name, s, secs[0].name);
    }
    NoSection(rest, s, k);
  }

  lemma ConfTail(secs: seq<Section>)
    requires secs != [] && ConfOk(secs)
    ensures ConfOk(secs[1..]) && KeysOk(secs[0].keys) && SectionsSorted(secs)
  {
    hide SectionOk, KeysOk, Less;
  }

  lemma {:induction false} FindPutSections(conf: seq<Section>, secs: seq<Section>, s: string, k: string)
    requires ConfOk(secs) && SectionsSorted(conf)
    ensures Find(PutSections(conf, secs), s, k) ==
            if Find(secs, s, k) != "" then Marked(Find(secs, s, k)) else Find(conf, s, k)
    decreases |secs|
  {
    hide ConfOk, SameName, PutAll, SectionsSorted, Less, KeysSorted;
    if secs != [] {
      ConfTail(secs);
      var x := secs[0];
      if SameName(x.name, s) { OtherSections(secs, s, k); }
      if x.keys == [] {
        FindPutSections(conf, secs[1..], s, k);
      } else {
        var c1 := PutSection(conf, x.name);
        PutSectionSorted(conf, x.name);
        FindPutAll(c1, x.name, x.keys, s, k);
        FindPutSections(PutAll(c1, x.name, x.keys), secs[1..], s, k);
        FindPutSection(conf, x.name, s, k);
      }
    }
  }

  // ----- the order is kept ---------------------------------------------------

  /** Every name is `sec` or was there before. */
  ghost predicate NamesFrom(conf: seq<Section>, from: seq<Section>, sec: string) {
    forall i :: 0 <= i < |conf| ==>
      SameName(conf[i].name, sec) || exists j :: 0 <= j < |from| && from[j].name == conf[i].name
  }

  lemma SortedCons(x: Section, rest: seq<Section>)
    requires SectionsSorted(rest) && forall i :: 0 <= i < |rest| ==> Less(x.name, rest[i].name)
    ensures SectionsSorted([x] + rest)
  {
    hide Less;
    var r := [x] + rest;
    assert forall i :: 0 < i < |r| ==> r[i] == rest[i - 1];
  }

  /** A section in front of one that is sorted in behind it. */
  lemma ConsNames(x: Section, rest: seq<Section>, from: seq<Section>, sec: string)
    requires SectionsSorted(rest) && NamesFrom(rest, from, sec) && Less(x.name, sec)
    requires forall i :: 0 <= i < |from| ==> Less(x.name, from[i].name)
    ensures SectionsSorted([x] + rest) && NamesFrom([x] + rest, [x] + from, sec)
  {
    hide Less, SameName;
    forall i | 0 <= i < |rest| ensures Less(x.name, rest[i].name) { LessOrder(x.name, sec, rest[i].name); }
    SortedCons(x, rest);
    var r, f := [x] + rest, [x] + from;
    assert f[0] == x && forall j :: 0 <= j < |from| ==> f[j + 1] == from[j];
    forall i | 0 <= i < |r| ensures SameName(r[i].name, sec) || exists j :: 0 <= j < |f| && f[j].name == r[i].name {
      if i == 0 {
        assert f[0].name == r[0].name;
      } else if !SameName(rest[i - 1].name, sec) {
        var j :| 0 <= j < |from| && from[j].name == rest[i - 1].name;
        assert f[j + 1].name == r[i].name;
      }
    }
  }

  lemma FrontNames(sec: string, keys: seq<Entry>, conf: seq<Section>)
    requires SectionsSorted(conf) && (conf != [] ==> Less(sec, conf[0].name))
    ensures SectionsSorted([Section(sec, keys)] + conf) && NamesFrom([Section(sec, keys)] + conf, conf, sec)
  {
    hide Less, SameName;
    var x := Section(sec, keys);
    forall i | 0 <= i < |conf| ensures Less(sec, conf[i].name) {
      if i > 0 { LessOrder(sec, conf[0].name, conf[i].name); }
    }
    SortedCons(x, conf);
    SameTrans(sec, sec, sec);
    var r := [x] + conf;
    forall i | 0 < i < |r| ensures exists j :: 0 <= j < |conf| && conf[j].name == r[i].name {
      assert conf[i - 1].name == r[i].name;
    }
  }

  lemma SameNames(conf: seq<Section>, x: Section, sec: string)
    requires conf != [] && SectionsSorted(conf) && x.name == conf[0].name
    ensures SectionsSorted([x] + conf[1..]) && NamesFrom([x] + conf[1..], conf, sec)
  {
    hide Less, SameName;
    var r := [x] + conf[1..];
    assert |r| == |conf| && forall i :: 0 <= i < |r| ==> r[i].name == conf[i].name;
  }

  lemma HeadFirst(conf: seq<Section>, sec: string)
    requires conf != [] && SectionsSorted(conf) && !SameName(conf[0].name, sec) && !Less(sec, conf[0].name)
    ensures SectionsSorted(conf[1..]) && Less(conf[0].name, sec)
    ensures forall i :: 0 <= i < |conf| - 1 ==> Less(conf[0].name, conf[1..][i].name)
    ensures conf == [conf[0]] + conf[1..]
  {
    hide Less, SameName;
    LessOrder(sec, conf[0].name, sec);
    SameTrans(sec, conf[0].name, sec);
    SameSwap(sec, conf[0].name);
  }

  lemma SameSwap(a: string, b: string)
    ensures SameName(a, b) <==> SameName(b, a)
  {
  }

  lemma {:induction false} PutSorted(conf: seq<Section>, sec: string, key: string, raw: string)
    requires SectionsSorted(conf)
    ensures SectionsSorted(Put(conf, sec, key, raw)) && NamesFrom(Put(conf, sec, key, raw), conf, sec)
  {
    hide Less, SameName, SectionsSorted, NamesFrom;
    if conf == [] || (!SameName(conf[0].name, sec) && Less(sec, conf[0].name)) {
      FrontNames(sec, [Entry(key, raw)], conf);
      assert [Section(sec, [Entry(key, raw)])] + conf == Put(conf, sec, key, raw);
    } else if SameName(conf[0].name, sec) {
      SameNames(conf, conf[0].(keys := PutKey(conf[0].keys, key, raw)), sec);
    } else {
      HeadFirst(conf, sec);
      PutSorted(conf[1..], sec, key, raw);
      ConsNames(conf[0], Put(conf[1..], sec, key, raw), conf[1..], sec);
    }
  }

  lemma {:induction false} PutSectionSorted(conf: seq<Section>, sec: string)
    requires SectionsSorted(conf)
    ensures SectionsSorted(PutSection(conf, sec)) && NamesFrom(PutSection(conf, sec), conf, sec)
  {
    hide Less, SameName, SectionsSorted, NamesFrom;
    if conf == [] || (!SameName(conf[0].name, sec) && Less(sec, conf[0].name)) {
      FrontNames(sec, [], conf);
      assert [Section(sec, [])] + conf == PutSection(conf, sec);
    } else if SameName(conf[0].name, sec) {
      SameNames(conf, conf[0], sec);
      assert conf == [conf[0]] + conf[1..];
    } else {
      HeadFirst(conf, sec);
      PutSectionSorted(conf[1..], sec);
      ConsNames(conf[0], PutSection(conf[1..], sec), conf[1..], sec);
    }
  }

  /** Dumping a configuration and reading it into a fresh one gives for every section and key its value, less a CR at
      its end and the blanks before that. */
  lemma DumpThenParse(conf: seq<Section>, filename: string, s: string, k: string)
    requires ConfOk(conf) && KeysPrintable(conf) && OneLine(filename)
    ensures StrVal(Parse(Dump(conf, filename), ""), s, k) ==
            match StrVal(conf, s, k) case None => None case Some(v) => Some(Reread(v))
  {
    hide ConfOk, KeysPrintable, ParseText, ParseLine, Find, DumpSections, SameName, Less, Reread;
    var line := "##### ORIGINAL FILE " + filename + " #####";
    var st := State(PutSection([], ""), "");
    assert line[0] == '#';
    CommentLine(line);
    assert OneLine(line);
    assert Dump(conf, filename) == line + "\n" + DumpSections(conf);
    ReadLine(st, line, DumpSections(conf));
    ReadSections(st, conf);
    FindPutSections(st.conf, conf, s, k);
    NothingFound(s, k);
  }

  lemma NothingFound(s: string, k: string)
    ensures Find(PutSection([], ""), s, k) == ""
  {
    var c := [Section("", [])];
    assert c[1..] == [] && Find(c[1..], s, k) == "";
  }

  // ----- what a text is parsed to --------------------------------------------

  ghost predicate KeysFrom(keys: seq<Entry>, from: seq<Entry>, key: string) {
    forall i :: 0 <= i < |keys| ==>
      SameName(keys[i].key, key) || exists j :: 0 <= j < |from| && from[j].key == keys[i].key
  }

  lemma ConsKey(e: Entry, rest: seq<Entry>)
    requires EntryOk(e) && KeysOk(rest) && forall i :: 0 <= i < |rest| ==> Less(e.key, rest[i].key)
    ensures KeysOk([e] + rest)
  {
    hide EntryOk, Less;
    var r := [e] + rest;
    assert forall i :: 0 < i < |r| ==> r[i] == rest[i - 1];
  }

  lemma ConsKeys(e: Entry, rest: seq<Entry>, from: seq<Entry>, key: string)
    requires EntryOk(e) && KeysOk(rest) && KeysFrom(rest, from, key) && Less(e.key, key)
    requires forall i :: 0 <= i < |from| ==> Less(e.key, from[i].key)
    ensures KeysOk([e] + rest) && KeysFrom([e] + rest, [e] + from, key)
  {
    hide EntryOk, Less, SameName, KeysSorted;
    forall i | 0 <= i < |rest| ensures Less(e.key, rest[i].key) { LessOrder(e.key, key, rest[i].key); }
    ConsKey(e, rest);
    var r, f := [e] + rest, [e] + from;
    assert f[0] == e && forall j :: 0 <= j < |from| ==> f[j + 1] == from[j];
    forall i | 0 <= i < |r| ensures SameName(r[i].key, key) || exists j :: 0 <= j < |f| && f[j].key == r[i].key {
      if i == 0 {
        assert f[0].key == r[0].key;
      } else if !SameName(rest[i - 1].key, key) {
        var j :| 0 <= j < |from| && from[j].key == rest[i - 1].key;
        assert f[j + 1].key == r[i].key;
      }
    }
  }

  lemma FrontKeys(e: Entry, keys: seq<Entry>)
    requires EntryOk(e) && KeysOk(keys) && (keys != [] ==> Less(e.key, keys[0].key))
    ensures KeysOk([e] + keys) && KeysFrom([e] + keys, keys, e.key)
  {
    hide EntryOk, Less, SameName;
    forall i | 0 <= i < |keys| ensures Less(e.key, keys[i].key) {
      if i > 0 { LessOrder(e.key, keys[0].key, keys[i].key); }
    }
    ConsKey(e, keys);
    SameTrans(e.key, e.key, e.key);
    var r := [e] + keys;
    forall i | 0 < i < |r| ensures exists j :: 0 <= j < |keys| && keys[j].key == r[i].key {
      assert keys[i - 1].key == r[i].key;
    }
  }

  lemma SameKeys(keys: seq<Entry>, raw: string, key: string)
    requires keys != [] && KeysOk(keys) && EntryOk(keys[0].(raw := raw))
    ensures var r := [keys[0].(raw := raw)] + keys[1..]; KeysOk(r) && KeysFrom(r, keys, key)
  {
    hide EntryOk, Less, SameName;
    var r := [keys[0].(raw := raw)] + keys[1..];
    assert |r| == |keys| && forall i :: 0 <= i < |r| ==> r[i].key == keys[i].key && (i > 0 ==> r[i] == keys[i]);
  }

  lemma {:induction false} PutKeyOk(keys: seq<Entry>, key: string, raw: string)
    requires KeysOk(keys) && EntryOk(Entry(key, raw))
    ensures KeysOk(PutKey(keys, key, raw)) && KeysFrom(PutKey(keys, key, raw), keys, key)
  {
    hide EntryOk, SameName, Less, KeysOk, KeysFrom;
    if keys == [] || (!SameName(keys[0].key, key) && Less(key, keys[0].key)) {
      NoKeys();
      FrontKeys(Entry(key, raw), keys);
      assert [Entry(key, raw)] + keys == PutKey(keys, key, raw);
    } else {
      KeysTail(keys);
      if SameName(keys[0].key, key) {
        EntryAgain(keys[0], key, raw);
        SameKeys(keys, raw, key);
      } else {
        PutKeyOk(keys[1..], key, raw);
        LessOrder(key, keys[0].key, key);
        SameSwap(key, keys[0].key);
        ConsKeys(keys[0], PutKey(keys[1..], key, raw), keys[1..], key);
        assert keys == [keys[0]] + keys[1..];
      }
    }
  }

  lemma NoKeys()
    ensures KeysOk([])
  {
  }

  lemma EntryAgain(e: Entry, key: string, raw: string)
    requires EntryOk(e) && EntryOk(Entry(key, raw))
    ensures EntryOk(e.(raw := raw))
  {
  }

  /** What each section holds, besides the order. */
  predicate PartsOk(conf: seq<Section>) {
    forall i :: 0 <= i < |conf| ==> SectionOk(conf[i].name) && KeysOk(conf[i].keys)
  }

  lemma ConsParts(x: Section, rest: seq<Section>)
    requires SectionOk(x.name) && KeysOk(x.keys) && PartsOk(rest)
    ensures PartsOk([x] + rest)
  {
    hide SectionOk, KeysOk;
    var r := [x] + rest;
    assert forall i :: 0 < i < |r| ==> r[i] == rest[i - 1];
  }

  lemma PartsTail(conf: seq<Section>)
    requires conf != [] && PartsOk(conf)
    ensures SectionOk(conf[0].name) && KeysOk(conf[0].keys) && PartsOk(conf[1..])
  {
    hide SectionOk, KeysOk;
  }

  lemma {:induction false} PutParts(conf: seq<Section>, sec: string, key: string, raw: string)
    requires PartsOk(conf) && SectionOk(sec) && EntryOk(Entry(key, raw))
    ensures PartsOk(Put(conf, sec, key, raw))
  {
    hide SectionOk, KeysOk, EntryOk, SameName, Less, PartsOk;
    OneKey(Entry(key, raw));
    if conf == [] {
      NoParts();
      ConsParts(Section(sec, [Entry(key, raw)]), conf);
      assert [Section(sec, [Entry(key, raw)])] + conf == Put(conf, sec, key, raw);
    } else {
      PartsTail(conf);
      if SameName(conf[0].name, sec) {
        PutKeyOk(conf[0].keys, key, raw);
        ConsParts(conf[0].(keys := PutKey(conf[0].keys, key, raw)), conf[1..]);
      } else if Less(sec, conf[0].name) {
        ConsParts(Section(sec, [Entry(key, raw)]), conf);
      } else {
        PutParts(conf[1..], sec, key, raw);
        ConsParts(conf[0], Put(conf[1..], sec, key, raw));
      }
    }
  }

  lemma {:induction false} PutSectionParts(conf: seq<Section>, sec: string)
    requires PartsOk(conf) && SectionOk(sec)
    ensures PartsOk(PutSection(conf, sec))
  {
    hide SectionOk, KeysOk, SameName, Less, PartsOk;
    NoKeys();
    if conf == [] {
      NoParts();
      ConsParts(Section(sec, []), conf);
      assert [Section(sec, [])] + conf == PutSection(conf, sec);
    } else {
      PartsTail(conf);
      if SameName(conf[0].name, sec) {
      } else if Less(sec, conf[0].name) {
        ConsParts(Section(sec, []), conf);
      } else {
        PutSectionParts(conf[1..], sec);
        ConsParts(conf[0], PutSection(conf[1..], sec));
      }
    }
  }

  lemma NoParts()
    ensures PartsOk([])
  {
  }

  lemma OneKey(e: Entry)
    requires EntryOk(e)
    ensures KeysOk([e])
  {
  }

  lemma PutOk(conf: seq<Section>, sec: string, key: string, raw: string)
    requires ConfOk(conf) && SectionOk(sec) && EntryOk(Entry(key, raw))
    ensures ConfOk(Put(conf, sec, key, raw))
  {
    hide SectionOk, KeysOk, EntryOk, SectionsSorted;
    PutSorted(conf, sec, key, raw);
    PutParts(conf, sec, key, raw);
  }

  lemma PutSectionOk(conf: seq<Section>, sec: string)
    requires ConfOk(conf) && SectionOk(sec)
    ensures ConfOk(PutSection(conf, sec))
  {
    hide SectionOk, KeysOk, EntryOk, SectionsSorted;
    PutSectionSorted(conf, sec);
    PutSectionParts(conf, sec);
  }

  // ----- the parts of a line -------------------------------------------------

  predicate ParsedOk(p: Parsed) {
    match p
    case Header(sec) => SectionOk(sec)
    case Set(key, val) => KeyText(key) && ValOk(val)
    case SetIn(sec, key, val) => SectionOk(sec) && KeyText(key) && ValOk(val)
    case BadIn(sec) => SectionOk(sec)
    case _ => true
  }

  lemma ValueClean(line: string, e: nat)
    requires OneLine(line) && e <= |line|
    ensures var v := ValueOf(line, e); v.Some? ==> OneLine(v.value) && (v.value != "" ==> !IsSpace(v.value[0]))
  {
  }

  lemma LineOk(line: string)
    requires OneLine(line)
    ensures ParsedOk(ParseLine(line))
  {
    hide Skip, KeyEnd, ValueOf, Clip, ParseHeader;
    var k := SkipBlank(line, 0);
    if k < |line| {
      var e := KeyEnd(line, k);
      var key, v := line[k..e], ValueOf(line, e);
      assert KeyText(key);
      ValueClean(line, e);
      if v.Some? && Clip(v.value).Some? { ClipTwice(v.value); }
      HeaderOk(key, v);
    }
  }

  lemma HeaderOk(key: string, v: Option<string>)
    requires KeyText(key) && (v.Some? && Clip(v.value).Some? ==> ValOk(Clip(v.value).value))
    ensures ParsedOk(ParseHeader(key, v))
  {
    hide FindAny, Clip, ValOk;
    var r := FindAny(key, 0, Only(']'));
    if 0 < r < |key| {
      var sec := key[1..r];
      assert forall i :: 0 <= i < |sec| ==> sec[i] == key[i + 1];
      assert SectionOk(sec);
    }
  }

  lemma ApplyOk(st: State, p: Parsed)
    requires ConfOk(st.conf) && SectionOk(st.cur) && ParsedOk(p)
    ensures ConfOk(Apply(st, p).conf) && SectionOk(Apply(st, p).cur)
  {
    hide ConfOk, SectionOk, ValOk, KeyText;
    match p {
      case Header(sec) => PutSectionOk(st.conf, sec);
      case Set(key, val) => NewEntry(key, val); PutOk(st.conf, st.cur, key, "?" + val);
      case SetIn(sec, key, val) => NewEntry(key, val); PutOk(st.conf, sec, key, "?" + val);
      case BadIn(sec) => PutSectionOk(st.conf, sec);
      case _ =>
    }
  }

  lemma NewEntry(key: string, val: string)
    requires KeyText(key) && ValOk(val)
    ensures EntryOk(Entry(key, "?" + val))
  {
    hide KeyText, ValOk;
    assert ("?" + val)[1..] == val;
  }

  lemma {:induction false} TextOk(st: State, text: string)
    requires ConfOk(st.conf) && SectionOk(st.cur)
    ensures ConfOk(ParseText(st, text).conf)
    decreases |text|
  {
    hide ConfOk, SectionOk, FindAny, ParseLine, Apply;
    if text != "" {
      var j := FindAny(text, 0, Only('\n'));
      var line := LineOf(text, j);
      assert OneLine(line);
      LineOk(line);
      ApplyOk(st, ParseLine(line));
      if j < |text| { TextOk(Apply(st, ParseLine(line)), text[j + 1..]); }
    }
  }

  lemma EmptyOk()
    ensures ConfOk([])
  {
  }

  // ----- keys that are not read back -----------------------------------------

  /** What reading one written entry does, whatever its key starts with. */
  function ReadOne(st: State, e: Entry): State {
    if e.raw == "" then st else Apply(st, ParseLine(e.key + " = " + Chomp(e.raw[1..])))
  }

  function ReadAll(st: State, keys: seq<Entry>): State
    decreases |keys|
  {
    if keys == [] then st else ReadAll(ReadOne(st, keys[0]), keys[1..])
  }

  function ReadSecs(st: State, secs: seq<Section>): State
    decreases |secs|
  {
    if secs == [] then st
    else if secs[0].keys == [] then ReadSecs(st, secs[1..])
    else ReadSecs(ReadAll(State(PutSection(st.conf, secs[0].name), secs[0].name), secs[0].keys), secs[1..])
  }

  lemma EntryIsLine(e: Entry)
    requires EntryOk(e) && e.raw != ""
    ensures OneLine(e.key + " = " + e.raw[1..])
  {
    hide Clip;
  }

  lemma {:induction false} ReadAllText(st: State, keys: seq<Entry>, rest: string)
    requires forall i :: 0 <= i < |keys| ==> EntryOk(keys[i])
    ensures ParseText(st, DumpKeys(keys) + rest) == ParseText(ReadAll(st, keys), rest)
    decreases |keys|
  {
    hide ParseText, ParseLine, EntryOk, Apply, OneLine, Chomp;
    if keys == [] {
      assert DumpKeys(keys) + rest == rest;
    } else {
      var e := keys[0];
      if e.raw == "" {
        assert DumpKeys(keys) == DumpKeys(keys[1..]);
      } else {
        var line := e.key + " = " + e.raw[1..];
        EntryIsLine(e);
        ChompLine(e.key, e.raw[1..]);
        ReadLine(st, line, DumpKeys(keys[1..]) + rest);
        assert DumpKeys(keys) + rest == line + "\n" + (DumpKeys(keys[1..]) + rest);
      }
      ReadAllText(ReadOne(st, e), keys[1..], rest);
    }
  }

  lemma {:induction false} ReadSecsText(st: State, secs: seq<Section>)
    requires PartsOk(secs)
    ensures ParseText(st, DumpSections(secs)) == ReadSecs(st, secs)
    decreases |secs|
  {
    hide ParseText, ParseLine, SectionOk, KeysSorted, EntryOk, DumpKeys, ReadAll;
    if secs == [] {
      NoText(st);
    } else {
      var rest, s := DumpSections(secs[1..]), secs[0];
      if s.keys == [] {
        assert DumpSections(secs) == rest;
        ReadSecsText(st, secs[1..]);
      } else {
        assert DumpSections(secs) == "\n[" + s.name + "]\n" + (DumpKeys(s.keys) + rest);
        assert KeysOk(s.keys);
        ReadHeader(st, s.name, DumpKeys(s.keys) + rest);
        var st1 := State(PutSection(st.conf, s.name), s.name);
        ReadAllText(st1, s.keys, rest);
        ReadSecsText(ReadAll(st1, s.keys), secs[1..]);
      }
    }
  }

  /** The line of a key that cannot start a line sets nothing, or a shorter key. */
  lemma BadLine(e: Entry)
    requires EntryOk(e) && e.raw != "" && !KeyFirst(e.key)
    ensures var p := ParseLine(e.key + " = " + Chomp(e.raw[1..]));
            p == Nothing || p == Invalid || (p.SetIn? && |p.key| < |e.key|)
  {
    hide SkipBlank, KeyEnd, Clip, ValueOf, ParseHeader, Chomp, Reread;
    var key, val := e.key, Chomp(e.raw[1..]);
    RereadValue(e.raw[1..]);
    var line := key + " = " + val;
    KeyBehind(key, val);
    ValueBehind(key, val);
    assert line[0] == key[0] && line[0..|key|] == key;
    HeaderKey(key, val);
  }

  lemma HeaderKey(key: string, val: string)
    requires key != "" && Clip(val).Some?
    ensures var p := ParseHeader(key, Some(val)); p == Invalid || (p.SetIn? && |p.key| < |key|)
  {
    hide FindAny, Clip;
  }

  /** Reading `e` in a section that is `sec`, or is not, does not set key `k` of `sec`. */
  predicate Harmless(e: Entry, here: bool, k: string) {
    if KeyFirst(e.key) then here ==> !SameName(e.key, k) else |e.key| <= |k|
  }

  lemma ReadOneLoses(st: State, e: Entry, s: string, k: string)
    requires EntryOk(e) && SectionsSorted(st.conf) && Find(st.conf, s, k) == "" && Harmless(e, SameName(st.cur, s), k)
    ensures var st' := ReadOne(st, e); SectionsSorted(st'.conf) && Find(st'.conf, s, k) == "" && st'.cur == st.cur
  {
    hide ParseLine, EntryOk, SectionsSorted, Find, SameName, KeyFirst, Put, PutSection, Chomp, Reread, ValOk;
    if e.raw != "" {
      var val := Chomp(e.raw[1..]);
      if KeyFirst(e.key) {
        EntryParts(e);
        RereadValue(e.raw[1..]);
        EntryLine(e.key, val);
        FindPut(st.conf, st.cur, e.key, Marked(e.raw), s, k);
        PutSorted(st.conf, st.cur, e.key, Marked(e.raw));
      } else {
        BadLine(e);
        var p := ParseLine(e.key + " = " + val);
        if p.SetIn? {
          OtherLength(p.key, k);
          FindPut(st.conf, p.sec, p.key, "?" + p.val, s, k);
          PutSorted(st.conf, p.sec, p.key, "?" + p.val);
        }
      }
    }
  }

  lemma EntryParts(e: Entry)
    requires EntryOk(e) && e.raw != ""
    ensures KeyText(e.key) && ValOk(e.raw[1..])
  {
  }

  lemma OtherLength(a: string, b: string)
    requires |a| < |b|
    ensures !SameName(a, b)
  {
    assert |Lower(a)| == |a| && |Lower(b)| == |b|;
  }

  lemma {:induction false} ReadAllLoses(st: State, keys: seq<Entry>, s: string, k: string)
    requires SectionsSorted(st.conf) && Find(st.conf, s, k) == ""
    requires forall i :: 0 <= i < |keys| ==> EntryOk(keys[i]) && Harmless(keys[i], SameName(st.cur, s), k)
    ensures var st' := ReadAll(st, keys); SectionsSorted(st'.conf) && Find(st'.conf, s, k) == ""
    decreases |keys|
  {
    hide EntryOk, Harmless, SectionsSorted, Find, SameName, ReadOne;
    if keys != [] {
      ReadOneLoses(st, keys[0], s, k);
      ReadAllLoses(ReadOne(st, keys[0]), keys[1..], s, k);
    }
  }

  predicate AllHarmless(secs: seq<Section>, s: string, k: string) {
    forall i, j :: 0 <= i < |secs| && 0 <= j < |secs[i].keys| ==>
        Harmless(secs[i].keys[j], SameName(secs[i].name, s), k)
  }

  lemma {:induction false} ReadSecsLoses(st: State, secs: seq<Section>, s: string, k: string)
    requires PartsOk(secs) && SectionsSorted(st.conf) && Find(st.conf, s, k) == "" && AllHarmless(secs, s, k)
    ensures Find(ReadSecs(st, secs).conf, s, k) == ""
    decreases |secs|
  {
    hide EntryOk, Harmless, SectionsSorted, Find, SameName, ReadAll, SectionOk, KeysSorted, PutSection;
    if secs != [] {
      var x := secs[0];
      assert PartsOk(secs[1..]) && AllHarmless(secs[1..], s, k);
      if x.keys == [] {
        ReadSecsLoses(st, secs[1..], s, k);
      } else {
        assert KeysOk(x.keys);
        var st1 := State(PutSection(st.conf, x.name), x.name);
        FindPutSection(st.conf, x.name, s, k);
        PutSectionSorted(st.conf, x.name);
        ReadAllLoses(st1, x.keys, s, k);
        ReadSecsLoses(ReadAll(st1, x.keys), secs[1..], s, k);
      }
    }
  }

  /** Key `b` of section `a`. */
  predicate KeyAt(conf: seq<Section>, a: nat, b: nat) { a < |conf| && b < |conf[a].keys| }

  /** It cannot start a line, and no such key is longer. */
  ghost predicate LongestBad(conf: seq<Section>, a: nat, b: nat) {
    && KeyAt(conf, a, b) && !KeyFirst(conf[a].keys[b].key)
    && forall i: nat, j: nat :: KeyAt(conf, i, j) && !KeyFirst(conf[i].keys[j].key) ==>
         |conf[i].keys[j].key| <= |conf[a].keys[b].key|
  }

  lemma DistinctEntries(conf: seq<Section>, a: nat, b: nat, i: nat, j: nat)
    requires ConfOk(conf) && KeyAt(conf, a, b) && KeyAt(conf, i, j)
    requires SameName(conf[i].name, conf[a].name) && SameName(conf[i].keys[j].key, conf[a].keys[b].key)
    ensures i == a && j == b
  {
    hide SectionOk, EntryOk, Less, SameName;
    LessOrder(conf[i].name, conf[a].name, "");
    LessOrder(conf[a].name, conf[i].name, "");
    assert i == a;
    assert KeysOk(conf[a].keys);
    LessOrder(conf[i].keys[j].key, conf[a].keys[b].key, "");
    LessOrder(conf[a].keys[b].key, conf[i].keys[j].key, "");
  }

  lemma LongestHarmless(conf: seq<Section>, a: nat, b: nat)
    requires ConfOk(conf) && LongestBad(conf, a, b)
    ensures AllHarmless(conf, conf[a].name, conf[a].keys[b].key)
  {
    hide ConfOk, KeyFirst, SameName;
    forall i: nat, j: nat | i < |conf| && j < |conf[i].keys|
      ensures Harmless(conf[i].keys[j], SameName(conf[i].name, conf[a].name), conf[a].keys[b].key)
    {
      assert KeyAt(conf, i, j);
      if KeyFirst(conf[i].keys[j].key) && SameName(conf[i].name, conf[a].name) &&
          SameName(conf[i].keys[j].key, conf[a].keys[b].key) {
        DistinctEntries(conf, a, b, i, j);
      }
    }
  }

  /** A longest such key has no value after dump and parse. */
  lemma LongestLost(conf: seq<Section>, filename: string, a: nat, b: nat)
    requires ConfOk(conf) && OneLine(filename) && LongestBad(conf, a, b)
    ensures StrVal(Parse(Dump(conf, filename), ""), conf[a].name, conf[a].keys[b].key) == None
  {
    hide SectionOk, KeysOk, ParseText, ParseLine, Find, DumpSections, SameName, Less, AllHarmless, KeyFirst, OneLine;
    var line := "##### ORIGINAL FILE " + filename + " #####";
    var st := State(PutSection([], ""), "");
    assert line[0] == '#';
    CommentLine(line);
    TitleLine(filename);
    assert Dump(conf, filename) == line + "\n" + DumpSections(conf);
    ReadLine(st, line, DumpSections(conf));
    ReadSecsText(st, conf);
    LongestHarmless(conf, a, b);
    NothingFound(conf[a].name, conf[a].keys[b].key);
    SortedStart();
    ReadSecsLoses(st, conf, conf[a].name, conf[a].keys[b].key);
  }

  lemma TitleLine(filename: string)
    requires OneLine(filename)
    ensures OneLine("##### ORIGINAL FILE " + filename + " #####")
  {
  }

  lemma SortedStart()
    ensures SectionsSorted(PutSection([], ""))
  {
  }

  // ----- every stored value is found -----------------------------------------

  lemma {:induction false} FindKeyStored(keys: seq<Entry>, b: nat)
    requires KeysSorted(keys) && b < |keys|
    ensures FindKey(keys, keys[b].key) == keys[b].raw
  {
    hide SameName, Less;
    SameTrans(keys[b].key, keys[b].key, keys[b].key);
    if b > 0 {
      LessOrder(keys[0].key, keys[b].key, "");
      FindKeyStored(keys[1..], b - 1);
    }
  }

  lemma {:induction false} FindStored(conf: seq<Section>, a: nat, b: nat)
    requires SectionsSorted(conf) && KeyAt(conf, a, b) && KeysSorted(conf[a].keys)
    ensures Find(conf, conf[a].name, conf[a].keys[b].key) == conf[a].keys[b].raw
  {
    hide SameName, Less, KeysSorted;
    SameTrans(conf[a].name, conf[a].name, conf[a].name);
    if a == 0 {
      FindKeyStored(conf[0].keys, b);
    } else {
      LessOrder(conf[0].name, conf[a].name, "");
      FindStored(conf[1..], a - 1, b);
    }
  }

  // ----- a parsed configuration holds no unset value -------------------------

  predicate KeysSet(keys: seq<Entry>) { forall j :: 0 <= j < |keys| ==> keys[j].raw != "" }
  predicate AllSet(conf: seq<Section>) { forall i :: 0 <= i < |conf| ==> KeysSet(conf[i].keys) }

  lemma {:induction false} PutKeySet(keys: seq<Entry>, key: string, raw: string)
    requires KeysSet(keys) && raw != ""
    ensures KeysSet(PutKey(keys, key, raw))
  {
    hide SameName, Less;
    if keys != [] { PutKeySet(keys[1..], key, raw); }
  }

  lemma {:induction false} PutSet(conf: seq<Section>, sec: string, key: string, raw: string)
    requires AllSet(conf) && raw != ""
    ensures AllSet(Put(conf, sec, key, raw)) && AllSet(PutSection(conf, sec))
  {
    hide SameName, Less, KeysSet;
    EntrySet(key, raw);
    if conf != [] {
      PutKeySet(conf[0].keys, key, raw);
      PutSet(conf[1..], sec, key, raw);
    }
  }

  lemma EntrySet(key: string, raw: string)
    requires raw != ""
    ensures KeysSet([Entry(key, raw)]) && KeysSet([])
  {
  }

  lemma ApplySet(st: State, p: Parsed)
    requires AllSet(st.conf)
    ensures AllSet(Apply(st, p).conf)
  {
    hide AllSet;
    match p {
      case Header(sec) => PutSet(st.conf, sec, "", "?");
      case Set(key, val) => PutSet(st.conf, st.cur, key, "?" + val);
      case SetIn(sec, key, val) => PutSet(st.conf, sec, key, "?" + val);
      case BadIn(sec) => PutSet(st.conf, sec, "", "?");
      case _ =>
    }
  }

  lemma {:induction false} TextSet(st: State, text: string)
    requires AllSet(st.conf)
    ensures AllSet(ParseText(st, text).conf)
    decreases |text|
  {
    hide AllSet, FindAny, ParseLine, Apply;
    if text != "" {
      var j := FindAny(text, 0, Only('\n'));
      ApplySet(st, ParseLine(LineOf(text, j)));
      if j < |text| { TextSet(Apply(st, ParseLine(LineOf(text, j))), text[j + 1..]); }
    }
  }

  // ----- there is a longest one ----------------------------------------------

  function LongestKey(keys: seq<Entry>): (n: nat)
    ensures forall j :: 0 <= j < |keys| ==> |keys[j].key| <= n
  {
    if keys == [] then 0
    else
      var m := LongestKey(keys[1..]);
      assert forall j :: 0 < j < |keys| ==> keys[j] == keys[1..][j - 1];
      if m < |keys[0].key| then |keys[0].key| else m
  }

  function LongestIn(conf: seq<Section>): (n: nat)
    ensures forall i :: 0 <= i < |conf| ==> LongestKey(conf[i].keys) <= n
  {
    if conf == [] then 0
    else
      var m := LongestIn(conf[1..]);
      assert forall i :: 0 < i < |conf| ==> conf[i] == conf[1..][i - 1];
      if m < LongestKey(conf[0].keys) then LongestKey(conf[0].keys) else m
  }

  lemma {:induction false} FindLongest(conf: seq<Section>, a: nat, b: nat) returns (a': nat, b': nat)
    requires KeyAt(conf, a, b) && !KeyFirst(conf[a].keys[b].key)
    ensures LongestBad(conf, a', b')
    decreases LongestIn(conf) - |conf[a].keys[b].key|
  {
    hide KeyFirst, LongestIn, LongestKey;
    if i: nat, j: nat :| KeyAt(conf, i, j) && !KeyFirst(conf[i].keys[j].key) &&
                         |conf[a].keys[b].key| < |conf[i].keys[j].key| {
      assert |conf[i].keys[j].key| <= LongestKey(conf[i].keys) <= LongestIn(conf);
      a', b' := FindLongest(conf, i, j);
    } else {
      a', b' := a, b;
    }
  }

  // ----- the round trip ------------------------------------------------------

  lemma ParsedConf(text: string, defsec: string)
    requires SectionOk(defsec)
    ensures ConfOk(Parse(text, defsec)) && AllSet(Parse(text, defsec))
  {
    hide ConfOk, ParseText, SectionOk;
    EmptyOk();
    PutSectionOk([], defsec);
    PutSet([], defsec, "", "?");
    TextOk(State(PutSection([], defsec), defsec), text);
    TextSet(State(PutSection([], defsec), defsec), text);
  }

  /** Every value that is set is read back. */
  ghost predicate ReadsBack(conf: seq<Section>, filename: string) {
    forall s, k :: StrVal(Parse(Dump(conf, filename), ""), s, k) == StrVal(conf, s, k)
  }

  lemma BadKeyLost(conf: seq<Section>, filename: string)
    requires ConfOk(conf) && AllSet(conf) && OneLine(filename) && !KeysPrintable(conf)
    ensures !ReadsBack(conf, filename)
  {
    hide Parse, Dump, Find, KeyFirst, SectionOk, EntryOk, KeysSorted, SectionsSorted, OneLine;
    var i: nat, j: nat :| i < |conf| && j < |conf[i].keys| && !KeyFirst(conf[i].keys[j].key);
    var a, b := FindLongest(conf, i, j);
    LongestLost(conf, filename, a, b);
    assert KeysOk(conf[a].keys) && KeysSet(conf[a].keys);
    FindStored(conf, a, b);
    assert StrVal(conf, conf[a].name, conf[a].keys[b].key).Some?;
  }

  lemma CRLost(conf: seq<Section>, filename: string)
    requires ConfOk(conf) && AllSet(conf) && OneLine(filename) && KeysPrintable(conf) && !ValuesEnd(conf)
    ensures !ReadsBack(conf, filename)
  {
    hide Parse, Dump, Find, KeyFirst, SectionOk, KeysSorted, SectionsSorted, OneLine, Clip, Reread, EndsCR, KeyText;
    var i: nat, j: nat :| i < |conf| && j < |conf[i].keys| && conf[i].keys[j].raw != "" &&
                          EndsCR(conf[i].keys[j].raw[1..]);
    assert KeysOk(conf[i].keys) && EntryOk(conf[i].keys[j]);
    FindStored(conf, i, j);
    RereadValue(conf[i].keys[j].raw[1..]);
    DumpThenParse(conf, filename, conf[i].name, conf[i].keys[j].key);
  }

  lemma {:induction false} FoundFrom(conf: seq<Section>, s: string, k: string)
    requires ConfOk(conf) && ValuesEnd(conf) && Find(conf, s, k) != ""
    ensures var v := Find(conf, s, k)[1..]; Reread(v) == v
  {
    hide SameName, SectionOk, KeysSorted, SectionsSorted, EntryOk, EndsCR, Reread;
    if conf != [] {
      if SameName(conf[0].name, s) {
        assert KeysOk(conf[0].keys);
        KeyFrom(conf[0].keys, k);
      } else {
        ConfTail(conf);
        FoundFrom(conf[1..], s, k);
      }
    }
  }

  lemma {:induction false} KeyFrom(keys: seq<Entry>, k: string)
    requires forall j :: 0 <= j < |keys| ==> EntryOk(keys[j]) && (keys[j].raw != "" ==> !EndsCR(keys[j].raw[1..]))
    requires FindKey(keys, k) != ""
    ensures var v := FindKey(keys, k)[1..]; Reread(v) == v
  {
    hide SameName, EndsCR, Reread, Clip, KeyText, OneLine;
    if keys != [] {
      if SameName(keys[0].key, k) { RereadValue(keys[0].raw[1..]); } else { KeyFrom(keys[1..], k); }
    }
  }

  /** What any text is parsed to is read back from its dump exactly if every key can start a line, that is, none starts
      with '[', '#', '?', ';' or a character that is not printable, and no value ends with CR. */
  lemma RoundTrip(text: string, defsec: string, filename: string)
    requires SectionOk(defsec) && OneLine(filename)
    ensures var conf := Parse(text, defsec);
            ReadsBack(conf, filename) <==> KeysPrintable(conf) && ValuesEnd(conf)
  {
    hide ConfOk, Parse, Dump, Find, SectionOk, KeysPrintable, OneLine, AllSet, ValuesEnd, Reread;
    var conf := Parse(text, defsec);
    ParsedConf(text, defsec);
    if !KeysPrintable(conf) {
      BadKeyLost(conf, filename);
    } else if !ValuesEnd(conf) {
      CRLost(conf, filename);
    } else {
      forall s, k ensures StrVal(Parse(Dump(conf, filename), ""), s, k) == StrVal(conf, s, k) {
        DumpThenParse(conf, filename, s, k);
        if Find(conf, s, k) != "" { FoundFrom(conf, s, k); }
      }
    }
  }

  /** A value ends with CR where the line ends with two of them. */
  lemma DoubledCR(filename: string)
    requires OneLine(filename)
    ensures var conf := Parse("k = v\r\r\n", ""); StrVal(conf, "", "k") == Some("v\r") && !ReadsBack(conf, filename)
  {
    hide ParseText, ParseLine, Clip, SameName, ReadsBack;
    var st, line, val := State(PutSection([], ""), ""), "k = v\r\r", "v\r";
    assert Chomp(line) == "k" + " = " + val;
    assert Clip(val) == Some(val) by { Unquoted(val); }
    EntryLine("k", val);
    ReadLine(st, line, "");
    assert "k = v\r\r\n" == line + "\n" + "";
    NoText(Apply(st, ParseLine(Chomp(line))));
    assert "?" + val == "?v\r";
    var conf := [Section("", [Entry("k", "?v\r")])];
    SameTrans("", "", "");
    assert Put(PutSection([], ""), "", "k", "?v\r") == conf;
    FindPut(st.conf, "", "k", "?v\r", "", "k");
    SameTrans("k", "k", "k");
    assert ("?v\r")[1..] == val;
    assert Parse("k = v\r\r\n", "") == conf;
    assert EndsCR(conf[0].keys[0].raw[1..]);
    RoundTrip("k = v\r\r\n", "", filename);
  }

  lemma Unquoted(v: string)
    requires v == "v\r"
    ensures Clip(v) == Some(v)
  {
  }

  /** Such a key comes from a line like "[s].#k = v"; its value is lost. */
  lemma CommentedKey(val: string, filename: string)
    requires ValOk(val) && OneLine(filename)
    ensures ParseLine("[s].#k = " + val) == SetIn("s", "#k", val)
    ensures var conf := [Section("s", [Entry("#k", "?" + val)])];
            && StrVal(conf, "s", "#k") == Some(val)
            && StrVal(Parse(Dump(conf, filename), ""), "s", "#k") == None
  {
    hide Skip, KeyEnd, ValueOf, Clip, FindAny, Parse, Dump, SameName, Find, ParseLine;
    DottedLine(val);
    var conf := [Section("s", [Entry("#k", "?" + val)])];
    NewEntry("#k", val);
    EmptyOk();
    PutOk([], "s", "#k", "?" + val);
    assert Put([], "s", "#k", "?" + val) == conf;
    LongestLost(conf, filename, 0, 0);
    FindStored(conf, 0, 0);
    assert ("?" + val)[1..] == val;
  }

  lemma DottedLine(val: string)
    requires ValOk(val)
    ensures ParseLine("[s].#k = " + val) == SetIn("s", "#k", val)
  {
    hide Skip, KeyEnd, ValueOf, Clip, FindAny;
    var key := "[s].#k";
    assert KeyText(key);
    var line := key + " = " + val;
    assert line == "[s].#k = " + val;
    ValueBehind(key, val);
    KeyBehind(key, val);
    assert line[0] == '[' && line[0..6] == key;
    FindAnyIs(key, 0, Only(']'), 2);
    assert key[1..2] == "s" && key[4..] == "#k";
  }
}

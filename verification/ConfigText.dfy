/**
 The line grammar of CConfig: sections of keys and values, read from text and
 written back by Dump.
 */
module ConfigText {
  import opened Basics
  import opened TextScan
  import opened IniText

  /** A stored value: the empty string if it was never set, else a flag byte and the value. */
  datatype Entry = Entry(key: string, raw: string)

  datatype Section = Section(name: string, keys: seq<Entry>)

  // ----- the nested maps, ordered and blind to case ---------------------------

  predicate SameName(a: string, b: string) { Lower(a) == Lower(b) }

  predicate Before(a: string, b: string) {
    b != "" && (a == "" || a[0] < b[0] || (a[0] == b[0] && Before(a[1..], b[1..])))
  }

  /** strcasecmp(a, b) < 0. */
  predicate Less(a: string, b: string) { Before(Lower(a), Lower(b)) }

  lemma {:induction false} BeforeOrder(a: string, b: string, c: string)
    ensures !Before(a, a) && (Before(a, b) || Before(b, a) || a == b)
    ensures Before(a, b) && Before(b, c) ==> Before(a, c)
  {
    if a != "" && b != "" {
      assert a == [a[0]] + a[1..] && b == [b[0]] + b[1..];
      BeforeOrder(a[1..], b[1..], if c == "" then "" else c[1..]);
    } else if a != "" {
      BeforeOrder(a[1..], "", "");
    }
  }

  /** The order is strict and total, up to case. */
  lemma LessOrder(a: string, b: string, c: string)
    ensures Less(a, b) ==> !SameName(a, b) && !SameName(b, a)
    ensures Less(a, b) || Less(b, a) || SameName(a, b)
    ensures Less(a, b) && Less(b, c) ==> Less(a, c)
    ensures Less(a, b) && SameName(b, c) ==> Less(a, c)
    ensures Less(a, b) && SameName(c, b) ==> Less(a, c)
  {
    hide Before;
    BeforeOrder(Lower(a), Lower(b), Lower(c));
    BeforeOrder(Lower(b), Lower(b), Lower(b));
  }

  function PutKey(keys: seq<Entry>, key: string, raw: string): seq<Entry> {
    if keys == [] then [Entry(key, raw)]
    else if SameName(keys[0].key, key) then [keys[0].(raw := raw)] + keys[1..]
    else if Less(key, keys[0].key) then [Entry(key, raw)] + keys
    else [keys[0]] + PutKey(keys[1..], key, raw)
  }

  /** smap[sec]: the section is created if need be. */
  function PutSection(conf: seq<Section>, sec: string): seq<Section> {
    if conf == [] then [Section(sec, [])]
    else if SameName(conf[0].name, sec) then conf
    else if Less(sec, conf[0].name) then [Section(sec, [])] + conf
    else [conf[0]] + PutSection(conf[1..], sec)
  }

  /** smap[sec][key] = raw. */
  function Put(conf: seq<Section>, sec: string, key: string, raw: string): seq<Section> {
    if conf == [] then [Section(sec, [Entry(key, raw)])]
    else if SameName(conf[0].name, sec) then [conf[0].(keys := PutKey(conf[0].keys, key, raw))] + conf[1..]
    else if Less(sec, conf[0].name) then [Section(sec, [Entry(key, raw)])] + conf
    else [conf[0]] + Put(conf[1..], sec, key, raw)
  }

  function FindKey(keys: seq<Entry>, key: string): string {
    if keys == [] then "" else if SameName(keys[0].key, key) then keys[0].raw else FindKey(keys[1..], key)
  }

  function Find(conf: seq<Section>, sec: string, key: string): string {
    if conf == [] then ""
    else if SameName(conf[0].name, sec) then FindKey(conf[0].keys, key)
    else Find(conf[1..], sec, key)
  }

  /** GetStrVal. */
  function StrVal(conf: seq<Section>, sec: string, key: string): Option<string> {
    var raw := Find(conf, sec, key);
    if raw == "" then None else Some(raw[1..])
  }

  lemma {:induction false} FindPutKey(keys: seq<Entry>, key: string, raw: string, k: string)
    ensures FindKey(PutKey(keys, key, raw), k) == if SameName(key, k) then raw else FindKey(keys, k)
  {
    hide SameName, Less;
    SameTrans(key, k, if keys == [] then key else keys[0].key);
    var r := PutKey(keys, key, raw);
    if keys != [] && !SameName(keys[0].key, key) && !Less(key, keys[0].key) {
      FindPutKey(keys[1..], key, raw, k);
      assert r[1..] == PutKey(keys[1..], key, raw);
    } else if keys != [] && !SameName(keys[0].key, key) {
      assert r[1..] == keys;
    }
  }

  /** Two letters that differ in nothing but case. */
  predicate CaseOnly(c: char, d: char) {
    ('A' <= c <= 'Z' && d as int == c as int + 32) || ('A' <= d <= 'Z' && c as int == d as int + 32)
  }

  /** Names are the same if they differ in the case of letters only. */
  lemma SameNameMeans(a: string, b: string)
    ensures SameName(a, b) <==> |a| == |b| && forall i :: 0 <= i < |a| ==> a[i] == b[i] || CaseOnly(a[i], b[i])
  {
    if SameName(a, b) {
      forall i | 0 <= i < |a| ensures |a| == |b| && (a[i] == b[i] || CaseOnly(a[i], b[i])) {
        assert Lower(a)[i] == Lower(b)[i];
      }
      assert |Lower(a)| == |Lower(b)|;
    }
    if |a| == |b| && forall i :: 0 <= i < |a| ==> a[i] == b[i] || CaseOnly(a[i], b[i]) {
      assert forall i :: 0 <= i < |a| ==> Lower(a)[i] == Lower(b)[i];
      assert Lower(a) == Lower(b);
    }
  }

  lemma SameTrans(a: string, b: string, c: string)
    ensures SameName(a, a) && (SameName(a, b) ==> (SameName(c, a) <==> SameName(c, b)))
    ensures SameName(c, a) ==> (SameName(a, b) <==> SameName(c, b))
  {
  }

  lemma OneEntry(sec: string, key: string, raw: string, rest: seq<Section>, s: string, k: string)
    ensures Find([Section(sec, [Entry(key, raw)])] + rest, s, k) ==
      if SameName(sec, s) then (if SameName(key, k) then raw else "") else Find(rest, s, k)
  {
    hide SameName;
    var e := [Entry(key, raw)];
    assert e[1..] == [] && FindKey(e[1..], k) == "";
    var c := [Section(sec, e)] + rest;
    assert c[1..] == rest && c[0].keys == e;
  }

  /** Nothing is stored for names that come before all others. */
  lemma {:induction false} NotStored(conf: seq<Section>, sec: string, s: string, k: string)
    requires SameName(sec, s) && forall i :: 0 <= i < |conf| ==> Less(sec, conf[i].name)
    ensures Find(conf, s, k) == ""
  {
    hide SameName, Less;
    if conf != [] {
      LessOrder(sec, conf[0].name, s);
      SameTrans(sec, s, conf[0].name);
      NotStored(conf[1..], sec, s, k);
    }
  }

  predicate SectionsSorted(conf: seq<Section>) {
    forall i, j :: 0 <= i < j < |conf| ==> Less(conf[i].name, conf[j].name)
  }

  lemma {:induction false} FindPut(conf: seq<Section>, sec: string, key: string, raw: string, s: string, k: string)
    requires SectionsSorted(conf)
    ensures Find(Put(conf, sec, key, raw), s, k) ==
            if SameName(sec, s) && SameName(key, k) then raw else Find(conf, s, k)
  {
    hide SameName, Less;
    SameTrans(sec, s, if conf == [] then sec else conf[0].name);
    if conf == [] {
      OneEntry(sec, key, raw, [], s, k);
      assert [Section(sec, [Entry(key, raw)])] + [] == [Section(sec, [Entry(key, raw)])];
    } else if SameName(conf[0].name, sec) {
      FindPutKey(conf[0].keys, key, raw, k);
    } else if Less(sec, conf[0].name) {
      OneEntry(sec, key, raw, conf, s, k);
      forall i | 0 <= i < |conf| ensures Less(sec, conf[i].name) { LessOrder(sec, conf[0].name, conf[i].name); }
      if SameName(sec, s) { NotStored(conf, sec, s, k); }
    } else {
      FindPut(conf[1..], sec, key, raw, s, k);
      assert Put(conf, sec, key, raw)[1..] == Put(conf[1..], sec, key, raw);
    }
  }

  lemma {:induction false} FindPutSection(conf: seq<Section>, sec: string, s: string, k: string)
    requires SectionsSorted(conf)
    ensures Find(PutSection(conf, sec), s, k) == Find(conf, s, k)
  {
    hide SameName, Less;
    var r := PutSection(conf, sec);
    if conf == [] {
      assert r[1..] == [] && Find(r[1..], s, k) == "";
    } else if SameName(conf[0].name, sec) {
    } else if Less(sec, conf[0].name) {
      assert r[1..] == conf;
      forall i | 0 <= i < |conf| ensures Less(sec, conf[i].name) { LessOrder(sec, conf[0].name, conf[i].name); }
      if SameName(sec, s) { NotStored(conf, sec, s, k); }
    } else {
      FindPutSection(conf[1..], sec, s, k);
      assert r[1..] == PutSection(conf[1..], sec);
    }
  }

  // ----- one line ------------------------------------------------------------

  predicate IsPrint(c: char) { ' ' <= c <= '~' }

  function SkipBlank(s: string, i: nat): (r: nat)
    requires i <= |s|
    ensures i <= r <= |s|
  {
    Skip(s, i, |s|, Spaces)
  }

  /** strcspn(key, "= \t"). */
  function KeyEnd(s: string, i: nat): (r: nat)
    requires i <= |s|
    ensures i <= r <= |s| && (forall j :: i <= j < r ==> s[j] != '=' && !IsSpace(s[j])) &&
            (r < |s| ==> s[r] == '=' || IsSpace(s[r]))
    decreases |s| - i
  {
    if i < |s| && s[i] != '=' && !IsSpace(s[i]) then KeyEnd(s, i + 1) else i
  }

  /** strrchr: the last `c`, or None. */
  function FindLast(s: string, c: char): (r: Option<nat>)
    ensures r.Some? ==> r.value < |s| && s[r.value] == c && forall i :: r.value < i < |s| ==> s[i] != c
    ensures r.None? ==> forall i :: 0 <= i < |s| ==> s[i] != c
  {
    if s == "" then None else if s[|s| - 1] == c then Some(|s| - 1) else FindLast(s[..|s| - 1], c)
  }

  function TrimRight(v: string): (r: string)
    ensures |r| <= |v| && r == v[..|r|] && (r != "" && |r| > 1 ==> !IsSpace(r[|r| - 1])) && (v != "" ==> r != "")
  {
    if |v| > 1 && IsSpace(v[|v| - 1]) then TrimRight(v[..|v| - 1]) else v
  }

  function UpTo(v: string, close: char): Option<string> {
    var r := FindAny(v, 0, Only(close));
    if r == |v| then None else Some(v[..r + 1])
  }

  function UpToLast(v: string, quote: char): Option<string>
    requires v != ""
  {
    match FindLast(v[1..], quote)
    case None => None
    case Some(i) => Some(v[..i + 2])
  }

  /** Where a value ends: at its closing bracket or quote, or before trailing blanks; None if a bracket or quote is not
      closed. */
  function Clip(v: string): Option<string> {
    if v == "" then Some("")
    else if v[0] == '(' then UpTo(v, ')')
    else if v[0] == '[' then UpTo(v, ']')
    else if v[0] == '{' then UpTo(v, '}')
    else if v[0] == '"' || v[0] == '\'' then UpToLast(v, v[0])
    else Some(TrimRight(v))
  }

  /** What a line is. */
  datatype Parsed =
    | Nothing
    | Invalid
    | Header(sec: string)
    | Set(key: string, val: string)
    | SetIn(sec: string, key: string, val: string)
    | BadIn(sec: string)                              // an unended value of another section

  /** The value of the line, if there is an '=' behind the key that ends at `e`. */
  function ValueOf(line: string, e: nat): Option<string>
    requires e <= |line|
  {
    if e == |line| then None
    else
      var p := if line[e] == '=' then e else SkipBlank(line, e + 1);
      if p < |line| && line[p] == '=' then Some(line[SkipBlank(line, p + 1)..]) else None
  }

  function ParseLine(line: string): Parsed {
    var k := SkipBlank(line, 0);
    if k == |line| || line[k] == '#' || line[k] == '?' || line[k] == ';' then Nothing
    else if !IsPrint(line[k]) then Invalid
    else
      var e := KeyEnd(line, k);
      var key, v := line[k..e], ValueOf(line, e);
      if line[k] == '[' then ParseHeader(key, v)
      else if v.None? then Invalid
      else match Clip(v.value)
        case None => Invalid
        case Some(val) => Set(key, val)
  }

  /** A line that starts with '[': "[section]" or "[section].key = value". */
  function ParseHeader(key: string, v: Option<string>): Parsed {
    var r := FindAny(key, 0, Only(']'));
    if r == |key| || r == 0 then Invalid
    else if r + 1 == |key| && v.None? then Header(key[1..r])
    else if r + 1 < |key| && key[r + 1] == '.' && v.Some? then
      match Clip(v.value)
      case None => BadIn(key[1..r])
      case Some(val) => SetIn(key[1..r], key[r + 2..], val)
    else Invalid
  }

  // ----- a text --------------------------------------------------------------

  /** The configuration and the section in force. */
  datatype State = State(conf: seq<Section>, cur: string)

  function Apply(st: State, p: Parsed): State {
    match p
    case Header(sec) => State(PutSection(st.conf, sec), sec)
    case Set(key, val) => st.(conf := Put(st.conf, st.cur, key, "?" + val))
    case SetIn(sec, key, val) => st.(conf := Put(st.conf, sec, key, "?" + val))
    case BadIn(sec) => st.(conf := PutSection(st.conf, sec))
    case _ => st
  }

  /** A line and its end: a CR before the newline is cut off. */
  function LineOf(text: string, j: nat): string
    requires j <= |text|
  {
    if 0 < j < |text| && text[j - 1] == '\r' then text[..j - 1] else text[..j]
  }

  /** ParseConfig on the text of a file. */
  function ParseText(st: State, text: string): State
    decreases |text|
  {
    if text == "" then st
    else
      var j := FindAny(text, 0, Only('\n'));
      var next := Apply(st, ParseLine(LineOf(text, j)));
      if j == |text| then next else ParseText(next, text[j + 1..])
  }

  /** Every line is blank, a comment, a header or a well-formed entry. */
  function LinesOk(text: string): bool
    decreases |text|
  {
    text == "" ||
    var j := FindAny(text, 0, Only('\n'));
    var p := ParseLine(LineOf(text, j));
    !p.Invalid? && !p.BadIn? && (j == |text| || LinesOk(text[j + 1..]))
  }

  /** A fresh configuration that reads `text`, `defsec` being the section of the keys before any header. */
  function Parse(text: string, defsec: string): seq<Section> {
    ParseText(State(PutSection([], defsec), defsec), text).conf
  }

  // ----- writing -------------------------------------------------------------

  function DumpKeys(keys: seq<Entry>): string {
    if keys == [] then ""
    else (if keys[0].raw == "" then "" else keys[0].key + " = " + keys[0].raw[1..] + "\n") + DumpKeys(keys[1..])
  }

  function DumpSections(conf: seq<Section>): string {
    if conf == [] then ""
    else
      (if conf[0].keys == [] then "" else "\n[" + conf[0].name + "]\n" + DumpKeys(conf[0].keys))
      + DumpSections(conf[1..])
  }

  /** Dump without decoration. */
  function Dump(conf: seq<Section>, filename: string): string {
    "##### ORIGINAL FILE " + filename + " #####\n" + DumpSections(conf)
  }
}

/**
 CConfig: the configuration filled by ParseConfig, read by GetStrVal and written
 by Dump.
 */
module Config {
  import opened Basics
  import opened TextScan
  import opened IniText
  import opened ConfigText
  import opened ConfigRoundTrip

  class Config {
    var filename: string
    var smap: seq<Section>

    ghost predicate Valid()
      reads this
    {
      SectionsSorted(smap)
    }

    constructor (name: string)
      ensures Valid() && smap == [] && filename == name
    {
      filename, smap := name, [];
    }

    /** One line of ParseConfig. */
    method TakeLine(line: string, cur: string) returns (next: string, ok: bool)
      requires Valid()
      modifies this`smap
      ensures Valid()
      ensures State(smap, next) == Apply(State(old(smap), cur), ParseLine(line))
      ensures ok == (!ParseLine(line).Invalid? && !ParseLine(line).BadIn?)
    {
      hide ParseLine, Put, PutSection, SectionsSorted;
      next, ok := cur, true;
      KeepsOrder(State(smap, cur), ParseLine(line));
      match ParseLine(line) {
        case Header(sec) => smap := PutSection(smap, sec); next := sec;
        case Set(key, val) => smap := Put(smap, cur, key, "?" + val);
        case SetIn(sec, key, val) => smap := Put(smap, sec, key, "?" + val);
        case BadIn(sec) => smap := PutSection(smap, sec); ok := false;
        case Invalid => ok := false;
        case Nothing =>
      }
    }

    /** ParseConfig on the text of the file. */
    method ParseConfig(text: string, defsec: string) returns (ok: bool)
      requires Valid()
      modifies this`smap
      ensures Valid()
      ensures smap == ParseText(State(PutSection(old(smap), defsec), defsec), text).conf
      ensures ok == LinesOk(text)
    {
      hide FindAny, ParseLine, PutSection, ParseText, Apply, LinesOk, SectionsSorted;
      ok := true;
      PutSectionSorted(smap, defsec);
      smap := PutSection(smap, defsec);
      var cur, i := defsec, 0;
      ghost var all := ParseText(State(smap, defsec), text);
      assert text[0..] == text;
      while i < |text|
        invariant Valid() && i <= |text| && all == ParseText(State(smap, cur), text[i..]) &&
                  LinesOk(text) == (ok && LinesOk(text[i..]))
      {
        ghost var rest, st := text[i..], State(smap, cur);
        var j, found := FindChar(text[i..], 0, '\n');
        ParseStep(st, rest);
        var line := if 0 < j && found && text[i + j - 1] == '\r' then text[i..i + j - 1] else text[i..i + j];
        SameLine(text, i, j, line);
        var good;
        cur, good := TakeLine(line, cur);
        ok := ok && good;
        if !found { return; }
        assert text[i + j + 1..] == rest[j + 1..];
        i := i + j + 1;
      }
      assert text[i..] == "";
      NoMore(State(smap, cur));
    }

    /** GetStrVal: the value is marked as used; no value changes. */
    method GetStrVal(sec: string, key: string) returns (r: Option<string>)
      requires Valid()
      modifies this`smap
      ensures Valid()
      ensures r == StrVal(old(smap), sec, key)
      ensures forall s, k :: StrVal(smap, s, k) == StrVal(old(smap), s, k)
    {
      hide SameName, SectionsSorted, Less;
      var raw := Find(smap, sec, key);
      r := if raw == "" then None else Some(raw[1..]);
      var marked := if raw == "" then "" else " " + raw[1..];
      forall s, k ensures StrVal(Put(smap, sec, key, marked), s, k) == StrVal(smap, s, k) {
        FindPut(smap, sec, key, marked, s, k);
        if SameName(sec, s) && SameName(key, k) { FindSame(smap, sec, key, s, k); }
      }
      PutSorted(smap, sec, key, marked);
      smap := Put(smap, sec, key, marked);
    }

    /** Dump. */
    method Dump() returns (out: string)
      ensures out == ConfigText.Dump(smap, filename)
    {
      hide DumpKeys;
      out := "##### ORIGINAL FILE " + filename + " #####\n";
      var i := 0;
      while i < |smap|
        invariant i <= |smap| && out + DumpSections(smap[i..]) == ConfigText.Dump(smap, filename)
      {
        ghost var before := out;
        if smap[i].keys != [] {
          var text := WriteKeys(smap[i].keys);
          out := out + ("\n[" + smap[i].name + "]\n" + text);
        }
        assert smap[i..][1..] == smap[i + 1..];
        assert before + DumpSections(smap[i..]) == out + DumpSections(smap[i + 1..]);
        i := i + 1;
      }
    }

    /** The loop of Dump over the keys of a section. */
    method WriteKeys(keys: seq<Entry>) returns (out: string)
      ensures out == DumpKeys(keys)
    {
      hide DumpKeys;
      out := "";
      var i := 0;
      assert keys[0..] == keys;
      while i < |keys|
        invariant i <= |keys| && out + DumpKeys(keys[i..]) == DumpKeys(keys)
      {
        DumpStep(keys, i, out);
        if keys[i].raw != "" {
          out := out + (keys[i].key + " = " + keys[i].raw[1..] + "\n");
        }
        i := i + 1;
      }
      NoKeysLeft(keys);
    }
  }

  lemma NoKeysLeft(keys: seq<Entry>)
    ensures DumpKeys(keys[|keys|..]) == ""
  {
  }

  lemma DumpStep(keys: seq<Entry>, i: nat, out: string)
    requires i < |keys|
    ensures var line := if keys[i].raw == "" then "" else keys[i].key + " = " + keys[i].raw[1..] + "\n";
            out + DumpKeys(keys[i..]) == (if keys[i].raw == "" then out else out + line) + DumpKeys(keys[i + 1..])
  {
    var rest := keys[i..];
    assert rest[1..] == keys[i + 1..] && rest[0] == keys[i];
    if keys[i].raw == "" {
      assert DumpKeys(rest) == DumpKeys(rest[1..]);
    } else {
      var line := keys[i].key + " = " + keys[i].raw[1..] + "\n";
      assert out + (line + DumpKeys(rest[1..])) == (out + line) + DumpKeys(rest[1..]);
    }
  }

  lemma KeepsOrder(st: State, p: Parsed)
    requires SectionsSorted(st.conf)
    ensures SectionsSorted(Apply(st, p).conf)
  {
    hide SectionsSorted, Put, PutSection;
    match p {
      case Header(sec) => PutSectionSorted(st.conf, sec);
      case Set(key, val) => PutSorted(st.conf, st.cur, key, "?" + val);
      case SetIn(sec, key, val) => PutSorted(st.conf, sec, key, "?" + val);
      case BadIn(sec) => PutSectionSorted(st.conf, sec);
      case _ =>
    }
  }

  lemma ParseStep(st: State, text: string)
    requires text != ""
    ensures var j := FindAny(text, 0, Only('\n')); var next := Apply(st, ParseLine(LineOf(text, j)));
            ParseText(st, text) == if j == |text| then next else ParseText(next, text[j + 1..])
    ensures var j := FindAny(text, 0, Only('\n')); var p := ParseLine(LineOf(text, j));
            LinesOk(text) == (!p.Invalid? && !p.BadIn? && (j == |text| || LinesOk(text[j + 1..])))
  {
    hide FindAny, ParseLine, Apply, LineOf;
  }

  lemma SameLine(text: string, i: nat, j: nat, line: string)
    requires i + j <= |text|
    requires line == if 0 < j && i + j < |text| && text[i + j - 1] == '\r' then text[i..i + j - 1] else text[i..i + j]
    ensures line == LineOf(text[i..], j)
  {
    var rest := text[i..];
    assert rest[..j] == text[i..i + j] && (j > 0 ==>
        rest[..j - 1] == text[i..i + j - 1] && rest[j - 1] == text[i + j - 1]);
  }

  lemma NoMore(st: State)
    ensures ParseText(st, "") == st && LinesOk("")
  {
  }

  lemma {:induction false} FindKeySame(keys: seq<Entry>, key: string, k: string)
    requires SameName(key, k)
    ensures FindKey(keys, key) == FindKey(keys, k)
  {
    if keys != [] { FindKeySame(keys[1..], key, k); }
  }

  lemma {:induction false} FindSame(conf: seq<Section>, sec: string, key: string, s: string, k: string)
    requires SameName(sec, s) && SameName(key, k)
    ensures Find(conf, sec, key) == Find(conf, s, k)
  {
    if conf != [] {
      FindKeySame(conf[0].keys, key, k);
      FindSame(conf[1..], sec, key, s, k);
    }
  }
}

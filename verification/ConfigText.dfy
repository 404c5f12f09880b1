/**
  The text form of a configuration: what is written, what the parser makes of any text, and when the
  one undoes the other. Strings are the characters before the terminator.
 */
module ConfigText {
  import opened BaseLexer
  import opened DynStrings

  datatype Item = Item(name: string, value: string)

  datatype Section = Section(name: string, items: seq<Item>)

  // -------- Escaping --------

  /** What three replacements, one after the other, make of a value. */
  function Escape(value: string): string {
    ReplaceAll(ReplaceAll(ReplaceAll(value, "\\", "\\\\"), "\r", "\\r"), "\n", "\\n")
  }

  /** One pass over the value, as a reader of the text sees it. */
  function EscapeEach(value: string): string {
    if value == "" then "" else EscapeChar(value[0]) + EscapeEach(value[1..])
  }

  function EscapeChar(c: char): string {
    if c == '\\' then "\\\\" else if c == '\r' then "\\r" else if c == '\n' then "\\n" else [c]
  }

  /** The character at the front of `s`, and how many characters of `s` stand for it. */
  function UnescapeFront(s: string): (char, nat)
    requires s != ""
  {
    var next := if |s| > 1 then s[1] else '\0';
    if s[0] != '\\' then (s[0], 1)
    else if next == '\\' then ('\\', 2)
    else if next == 'r' then ('\r', 2)
    else if next == 'n' then ('\n', 2)
    else (s[0], 1)
  }

  function Unescape(s: string): (value: string)
    ensures |value| <= |s|
  {
    if s == "" then "" else [UnescapeFront(s).0] + Unescape(s[UnescapeFront(s).1..])
  }

  lemma ReplaceCons(c: char, s: string, find: char, replace: string)
    ensures ReplaceAll([c] + s, [find], replace)
            == (if c == find then replace else [c]) + ReplaceAll(s, [find], replace)
  {
    assert ([c] + s)[0..1] == [c];
    assert ([c] + s)[1..] == s;
  }

  /** The three replacements do not disturb each other: each character is escaped on its own. */
  lemma {:induction false} EscapeIsEach(value: string)
    ensures Escape(value) == EscapeEach(value)
  {
    hide ReplaceAll;
    if value == "" {
      ReplaceEnds("", "\\", "\\\\");
      ReplaceEnds("", "\r", "\\r");
      ReplaceEnds("", "\n", "\\n");
    } else {
      var c, v := value[0], value[1..];
      assert value == [c] + v;
      EscapeIsEach(v);
      ReplaceCons(c, v, '\\', "\\\\");
      var v1 := ReplaceAll(v, "\\", "\\\\");
      if c == '\\' {
        assert "\\\\" + v1 == [c] + ([c] + v1);
        ReplaceCons(c, [c] + v1, '\r', "\\r");
        ReplaceCons(c, v1, '\r', "\\r");
        var v2 := ReplaceAll(v1, "\r", "\\r");
        ReplaceCons(c, [c] + v2, '\n', "\\n");
        ReplaceCons(c, v2, '\n', "\\n");
        assert [c] + ([c] + Escape(v)) == "\\\\" + Escape(v);
      } else {
        ReplaceCons(c, v1, '\r', "\\r");
        var v2 := ReplaceAll(v1, "\r", "\\r");
        if c == '\r' {
          assert "\\r" + v2 == ['\\'] + (['r'] + v2);
          ReplaceCons('\\', ['r'] + v2, '\n', "\\n");
          ReplaceCons('r', v2, '\n', "\\n");
          assert ['\\'] + (['r'] + Escape(v)) == "\\r" + Escape(v);
        } else {
          ReplaceCons(c, v2, '\n', "\\n");
        }
      }
    }
  }

  lemma UnescapeFirst(c: char, s: string)
    ensures Unescape(EscapeChar(c) + s) == [c] + Unescape(s)
    ensures forall x :: x in EscapeChar(c) ==> !IsNewline(x)
  {
    var t := EscapeChar(c) + s;
    if |EscapeChar(c)| == 2 {
      assert t[2..] == s;
    } else {
      assert t[1..] == s;
    }
  }

  lemma {:induction false} UnescapeEach(value: string)
    ensures Unescape(EscapeEach(value)) == value
    ensures forall c :: c in EscapeEach(value) ==> !IsNewline(c)
  {
    hide Unescape, EscapeChar, IsNewline;
    if value == "" {
      UnescapeNothing();
    } else {
      UnescapeEach(value[1..]);
      UnescapeFirst(value[0], EscapeEach(value[1..]));
      assert value == [value[0]] + value[1..];
    }
  }

  lemma UnescapeNothing()
    ensures Unescape("") == ""
  {
  }

  /** Reading undoes writing, and the written value stays on its line. */
  lemma UnescapeUndoesEscape(value: string)
    ensures Unescape(Escape(value)) == value
    ensures forall c :: c in Escape(value) ==> !IsNewline(c)
  {
    EscapeIsEach(value);
    UnescapeEach(value);
  }

  // -------- Scanning --------

  /** `end` ends the string; so does the end of the line. The terminator stands for no such character. */
  predicate Stops(c: char, end: char) {
    IsNewline(c) || (end != '\0' && c == end)
  }

  function Scan(s: string, end: char): (n: nat)
    ensures n <= |s|
  {
    if s == "" || Stops(s[0], end) then 0 else 1 + Scan(s[1..], end)
  }

  /** Behind the character that stopped the scan; both characters of a newline pair go. */
  function After(s: string, n: nat): (rest: string)
    requires n <= |s|
    ensures n < |s| ==> |rest| < |s| - n
    ensures |rest| <= |s| - n
  {
    if n == |s| then "" else if n + 1 < |s| && IsNewlinePair(s[n], s[n + 1]) then s[n + 2..] else s[n + 1..]
  }

  function AfterLine(s: string): (rest: string)
    ensures |rest| <= |s| && (s != "" ==> |rest| < |s|)
  {
    After(s, Scan(s, '\0'))
  }

  function SkipSpace(s: string): (rest: string)
    ensures |rest| <= |s|
    ensures rest != "" ==> KindOf(rest[0]) != Whitespace
    decreases |s|
  {
    if s == "" || KindOf(s[0]) != Whitespace then s else SkipSpace(s[1..])
  }

  lemma {:induction false} ScanSkips(s: string, end: char, n: nat)
    requires n <= |s| && forall i :: 0 <= i < n ==> !Stops(s[i], end)
    ensures Scan(s, end) == n + Scan(s[n..], end)
  {
    if n == 0 {
      assert s[0..] == s;
    } else {
      ScanSkips(s[1..], end, n - 1);
      assert s[1..][n - 1..] == s[n..];
    }
  }

  lemma {:induction false} ScanPasses(s: string, end: char)
    ensures forall i :: 0 <= i < Scan(s, end) ==> !Stops(s[i], end)
    ensures Scan(s, end) < |s| ==> Stops(s[Scan(s, end)], end)
  {
    if s != "" && !Stops(s[0], end) {
      ScanPasses(s[1..], end);
      forall i | 0 <= i < Scan(s, end)
        ensures !Stops(s[i], end)
      {
        assert i > 0 ==> s[i] == s[1..][i - 1];
      }
    }
  }

  /** The scan of a text that starts with `a` and then a stopping character. */
  lemma ScanFinds(a: string, stop: char, rest: string, end: char)
    requires Stops(stop, end) && forall i :: 0 <= i < |a| ==> !Stops(a[i], end)
    ensures Scan(a + [stop] + rest, end) == |a|
  {
    var s := a + [stop] + rest;
    ScanSkips(s, end, |a|);
    assert s[|a|..] == [stop] + rest;
  }

  // -------- Parsing --------

  /** Where the item name at the front of `t` ends; its first character is part of it whatever it is. */
  function NameEnd(t: string): (n: nat)
    requires t != ""
    ensures 1 <= n <= |t|
  {
    1 + Scan(t[1..], '=')
  }

  /** A line that ends before an equals sign holds no item; the last line of the text does. */
  predicate HasItem(t: string)
    requires t != ""
  {
    NameEnd(t) == |t| || t[NameEnd(t)] == '='
  }

  function ItemOf(t: string): Item
    requires t != ""
  {
    var v := After(t, NameEnd(t));
    Item(t[..NameEnd(t)], Unescape(v[..Scan(v, '\0')]))
  }

  function AfterItem(t: string): (rest: string)
    requires t != ""
    ensures |rest| < |t|
  {
    var v := After(t, NameEnd(t));
    if HasItem(t) then AfterLine(v) else v
  }

  /** The items up to the next section header or the end, and what is left. */
  function ParseItems(s: string): (r: (seq<Item>, string))
    ensures |r.1| <= |s|
    decreases |s|
  {
    var t := SkipSpace(s);
    if t == "" then ([], "")
    else if t[0] == '#' then ParseItems(AfterLine(t))
    else if t[0] == '[' then ([], t)
    else
      var r := ParseItems(AfterItem(t));
      if HasItem(t) then ([ItemOf(t)] + r.0, r.1) else r
  }

  /** An empty section name ends the parse; a section name ends at the end of its line at the latest. */
  function ParseSections(s: string): seq<Section>
    decreases |s|
  {
    var t := SkipSpace(s);
    if t == "" then []
    else if t[0] != '[' then ParseSections(AfterLine(t))
    else
      var n := Scan(t[1..], ']');
      if n == 0 then []
      else
        var r := ParseItems(After(t[1..], n));
        [Section(t[1..][..n], r.0)] + ParseSections(r.1)
  }

  // -------- Printing --------

  function SaveItem(item: Item): string {
    item.name + "=" + Escape(item.value) + "\n"
  }

  function SaveItems(items: seq<Item>): string {
    if items == [] then "" else SaveItem(items[0]) + SaveItems(items[1..])
  }

  function SaveSection(section: Section): string {
    "[" + section.name + "]\n" + SaveItems(section.items)
  }

  function SaveSections(sections: seq<Section>): string {
    if sections == [] then ""
    else if |sections| == 1 then SaveSection(sections[0])
    else SaveSection(sections[0]) + "\n" + SaveSections(sections[1..])
  }

  // -------- Names that survive --------

  predicate GoodItemName(name: string) {
    && name != ""
    && !IsWhitespace(name[0]) && name[0] != '#' && name[0] != '['
    && forall i :: 1 <= i < |name| ==> !Stops(name[i], '=')
  }

  predicate GoodSectionName(name: string) {
    name != "" && forall i :: 0 <= i < |name| ==> !Stops(name[i], ']')
  }

  predicate GoodItems(items: seq<Item>) {
    forall i :: 0 <= i < |items| ==> GoodItemName(items[i].name)
  }

  predicate GoodSections(sections: seq<Section>) {
    forall i :: 0 <= i < |sections| ==> GoodSectionName(sections[i].name) && GoodItems(sections[i].items)
  }

  /** Whatever text is parsed, every name that comes out is one that can be written back. */
  lemma {:induction false} ParsedItemsAreGood(s: string)
    ensures GoodItems(ParseItems(s).0)
    ensures var rest := ParseItems(s).1; rest == "" || rest[0] == '['
    decreases |s|
  {
    var t := SkipSpace(s);
    if t != "" && t[0] == '#' {
      ParsedItemsAreGood(AfterLine(t));
    } else if t != "" && t[0] != '[' {
      ParsedItemsAreGood(AfterItem(t));
      ScanPasses(t[1..], '=');
      var name := t[..NameEnd(t)];
      forall i | 1 <= i < |name|
        ensures !Stops(name[i], '=')
      {
        assert name[i] == t[1..][i - 1];
      }
    }
  }

  lemma {:induction false} ParsedSectionsAreGood(s: string)
    ensures GoodSections(ParseSections(s))
    decreases |s|
  {
    hide ParseItems, After, Scan, SkipSpace;
    var t := SkipSpace(s);
    if t == "" {
    } else if t[0] != '[' {
      ParsedSectionsAreGood(AfterLine(t));
    } else {
      var n := Scan(t[1..], ']');
      if n > 0 {
        var r := ParseItems(After(t[1..], n));
        ParsedItemsAreGood(After(t[1..], n));
        ParsedSectionsAreGood(r.1);
        ScanPasses(t[1..], ']');
      }
    }
  }

  // -------- The round trip --------

  /** The text behind a line does not complete its newline to a pair. */
  predicate NoReturn(s: string) {
    s == "" || s[0] != '\r'
  }

  lemma ItemRoundTrip(item: Item, rest: string)
    requires GoodItemName(item.name) && NoReturn(rest)
    ensures var t := SaveItem(item) + rest;
            && t != "" && SkipSpace(t) == t && t[0] == item.name[0]
            && HasItem(t) && ItemOf(t) == item && AfterItem(t) == rest
  {
    hide Escape, Unescape, Scan;
    var name, value := item.name, Escape(item.value);
    UnescapeUndoesEscape(item.value);
    var t := SaveItem(item) + rest;
    var line := value + "\n" + rest;
    assert t == name + "=" + line;
    assert t[0] == name[0];
    assert t[1..] == name[1..] + "=" + line;
    ScanFinds(name[1..], '=', line, '=');
    assert NameEnd(t) == |name|;
    assert After(t, |name|) == line;
    ScanFinds(value, '\n', rest, '\0');
    assert line[..|value|] == value;
    assert After(line, |value|) == rest;
  }

  lemma {:induction false} ItemsRoundTrip(items: seq<Item>, rest: string)
    requires GoodItems(items)
    requires rest == "" || (|rest| > 1 && rest[0] == '\n' && rest[1] == '[')
    ensures ParseItems(SaveItems(items) + rest) == (items, if rest == "" then "" else rest[1..])
    ensures NoReturn(SaveItems(items) + rest)
  {
    hide AfterItem, HasItem, ItemOf, SaveItem;
    if items == [] {
      assert SaveItems(items) + rest == rest;
      assert rest != "" ==> SkipSpace(rest) == rest[1..];
    } else {
      var more := SaveItems(items[1..]) + rest;
      ItemsRoundTrip(items[1..], rest);
      ItemRoundTrip(items[0], more);
      assert SaveItems(items) + rest == SaveItem(items[0]) + more;
      assert items == [items[0]] + items[1..];
    }
  }

  lemma SkipNewline(s: string)
    ensures ParseItems("\n" + s) == ParseItems(s)
  {
    assert ("\n" + s)[1..] == s;
  }

  lemma SkipNothing()
    ensures SkipSpace("") == ""
  {
  }

  /** A header, read back: its name, and its items behind the newline. */
  lemma SectionRoundTrip(section: Section, rest: string)
    requires GoodSectionName(section.name) && GoodItems(section.items)
    requires rest == "" || (|rest| > 1 && rest[0] == '\n' && rest[1] == '[')
    ensures var t := SaveSection(section) + rest;
            && section.name != "" && t != "" && t[0] == '[' && SkipSpace(t) == t
            && Scan(t[1..], ']') == |section.name|
            && t[1..][..|section.name|] == section.name
            && ParseItems(After(t[1..], |section.name|)) == (section.items, if rest == "" then "" else rest[1..])
  {
    hide ParseItems, SaveItems, Scan;
    var t := SaveSection(section) + rest;
    var lines := SaveItems(section.items) + rest;
    assert t[1..] == section.name + "]" + ("\n" + lines);
    ScanFinds(section.name, ']', "\n" + lines, ']');
    assert After(t[1..], |section.name|) == "\n" + lines;
    SkipNewline(lines);
    ItemsRoundTrip(section.items, rest);
  }

  lemma FirstSection(sections: seq<Section>)
    ensures sections == [] ==> SaveSections(sections) == ""
    ensures sections != [] ==>
              SaveSections(sections)
              == SaveSection(sections[0]) + if |sections| == 1 then "" else "\n" + SaveSections(sections[1..])
    ensures sections != [] ==> SaveSections(sections) != "" && SaveSections(sections)[0] == '['
    ensures |sections| > 1 ==> SaveSections(sections[1..]) != "" && SaveSections(sections[1..])[0] == '['
  {
  }

  lemma {:induction false} SectionsRoundTrip(sections: seq<Section>)
    requires GoodSections(sections)
    ensures ParseSections(SaveSections(sections)) == sections
  {
    hide SaveSection, SaveSections, Scan, After, ParseItems, GoodSectionName, GoodItems, SkipSpace;
    if sections == [] {
      FirstSection(sections);
      assert SkipSpace("") == "" by { SkipNothing(); }
    } else {
      var first, others := sections[0], sections[1..];
      var more := SaveSections(others);
      var rest := if others == [] then "" else "\n" + more;
      SectionsRoundTrip(others);
      FirstSection(sections);
      SectionRoundTrip(first, rest);
      assert rest != "" ==> rest[1..] == more;
      assert sections == [first] + others;
    }
  }


  /** Main result: a configuration comes back from its text exactly if every name in it can be written. */
  lemma RoundTrip(sections: seq<Section>)
    ensures ParseSections(SaveSections(sections)) == sections <==> GoodSections(sections)
  {
    hide ParseSections, SaveSections;
    if GoodSections(sections) {
      SectionsRoundTrip(sections);
    } else {
      ParsedSectionsAreGood(SaveSections(sections));
    }
  }

  /** Any text at all, once parsed, is stable: printing and parsing again changes nothing. */
  lemma Reparse(s: string)
    ensures ParseSections(SaveSections(ParseSections(s))) == ParseSections(s)
  {
    hide ParseSections, SaveSections;
    ParsedSectionsAreGood(s);
    SectionsRoundTrip(ParseSections(s));
  }

  // -------- The text as it is written by hand --------

  lemma {:induction false} EscapeAppends(a: string, b: string)
    ensures Escape(a + b) == Escape(a) + Escape(b)
  {
    EscapeIsEach(a);
    EscapeIsEach(b);
    EscapeIsEach(a + b);
    EachAppends(a, b);
  }

  lemma {:induction false} EachAppends(a: string, b: string)
    ensures EscapeEach(a + b) == EscapeEach(a) + EscapeEach(b)
  {
    hide EscapeChar;
    if a == "" {
      assert a + b == b;
    } else {
      assert (a + b)[1..] == a[1..] + b;
      EachAppends(a[1..], b);
    }
  }

  /** A value is written character by character: the backslash, the line feed and the return behind a backslash. */
  lemma EscapesOf(c: char)
    ensures Escape("\\") == "\\\\" && Escape("\n") == "\\n" && Escape("\r") == "\\r"
    ensures c != '\\' && c != '\n' && c != '\r' ==> Escape([c]) == [c]
  {
    OneEscaped('\\');
    OneEscaped('\n');
    OneEscaped('\r');
    OneEscaped(c);
  }

  lemma OneEscaped(c: char)
    ensures Escape([c]) == EscapeChar(c)
  {
    EscapeIsEach([c]);
    assert [c][1..] == "" && EscapeEach("") == "" && EscapeChar(c) + "" == EscapeChar(c);
  }

  predicate Plain(s: string) {
    forall i :: 0 <= i < |s| ==> s[i] != '\\' && s[i] != '\n' && s[i] != '\r'
  }

  lemma {:induction false} PlainIsWritten(s: string)
    requires Plain(s)
    ensures Escape(s) == s
  {
    EscapeIsEach(s);
    PlainEach(s);
  }

  lemma {:induction false} PlainEach(s: string)
    requires Plain(s)
    ensures EscapeEach(s) == s
  {
    if s != "" {
      PlainEach(s[1..]);
      assert s == [s[0]] + s[1..];
    }
  }

  /** One setting, from the characters of the file. */
  lemma SettingInText(section: string, name: string, value: string)
    requires section != "" && forall i :: 0 <= i < |section| ==> section[i] != ']' && section[i] != '\n' && section[i] != '\r'
    requires name != "" && name[0] != ' ' && name[0] != '\t' && name[0] != '#' && name[0] != '['
    requires forall i :: 0 <= i < |name| ==> name[i] != '=' && name[i] != '\n' && name[i] != '\r'
    requires Plain(value)
    ensures ParseSections("[" + section + "]\n" + name + "=" + value + "\n") == [Section(section, [Item(name, value)])]
    ensures SaveSections([Section(section, [Item(name, value)])]) == "[" + section + "]\n" + name + "=" + value + "\n"
  {
    hide ParseSections, SaveSections, Escape, GoodSections;
    SettingSaved(section, name, value);
    GoodSetting(section, name, value);
    RoundTrip([Section(section, [Item(name, value)])]);
  }

  lemma SettingSaved(section: string, name: string, value: string)
    requires Plain(value)
    ensures SaveSections([Section(section, [Item(name, value)])]) == "[" + section + "]\n" + name + "=" + value + "\n"
  {
    hide Escape;
    PlainIsWritten(value);
    var item := Item(name, value);
    assert [item][1..] == [];
    assert SaveItems([item]) == SaveItem(item) + "" == SaveItem(item);
    InOneLine("[" + section + "]\n", name, value);
  }

  lemma InOneLine(head: string, name: string, value: string)
    ensures head + (name + "=" + value + "\n") == head + name + "=" + value + "\n"
  {
  }

  lemma GoodSetting(section: string, name: string, value: string)
    requires section != "" && forall i :: 0 <= i < |section| ==> section[i] != ']' && section[i] != '\n' && section[i] != '\r'
    requires name != "" && name[0] != ' ' && name[0] != '\t' && name[0] != '#' && name[0] != '['
    requires forall i :: 0 <= i < |name| ==> name[i] != '=' && name[i] != '\n' && name[i] != '\r'
    ensures GoodSections([Section(section, [Item(name, value)])])
  {
  }

  /** A comment, and a line without an equals sign behind its first character, leave nothing. */
  lemma LineIgnored(line: string, rest: string)
    requires line != "" && line[0] != ' ' && line[0] != '\t' && line[0] != '['
    requires forall i :: 0 <= i < |line| ==> line[i] != '\n' && line[i] != '\r'
    requires line[0] == '#' || forall i :: 1 <= i < |line| ==> line[i] != '='
    requires rest == "" || rest[0] != '\r'
    ensures ParseItems(line + "\n" + rest) == ParseItems(rest)
    ensures ParseSections(line + "\n" + rest) == ParseSections(rest)
  {
    hide SkipSpace, AfterLine, AfterItem, HasItem, ItemOf;
    LineFacts(line, rest);
  }

  lemma LineFacts(line: string, rest: string)
    requires line != "" && line[0] != ' ' && line[0] != '\t'
    requires forall i :: 0 <= i < |line| ==> line[i] != '\n' && line[i] != '\r'
    requires rest == "" || rest[0] != '\r'
    ensures var t := line + "\n" + rest;
            && t != "" && t[0] == line[0] && SkipSpace(t) == t && AfterLine(t) == rest
            && ((forall i :: 1 <= i < |line| ==> line[i] != '=') ==> !HasItem(t) && AfterItem(t) == rest)
  {
    hide Scan;
    var t := line + "\n" + rest;
    assert t[0] == line[0];
    ScanFinds(line, '\n', rest, '\0');
    assert After(t, |line|) == rest;
    if forall i :: 1 <= i < |line| ==> line[i] != '=' {
      assert t[1..] == line[1..] + "\n" + rest;
      ScanFinds(line[1..], '\n', rest, '=');
      assert NameEnd(t) == |line| && t[|line|] == '\n';
    }
  }

  lemma BlankIgnored(c: char, rest: string)
    requires c == ' ' || c == '\t' || c == '\n' || c == '\r'
    ensures ParseItems([c] + rest) == ParseItems(rest) && ParseSections([c] + rest) == ParseSections(rest)
  {
    assert ([c] + rest)[1..] == rest;
  }
}

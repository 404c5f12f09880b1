/**
  The configuration file: the recursive-descent reader over the tokenizer, the in-place unescaper, the
  printer, and setting and finding items without regard to letter case.
 */
module ConfigFiles {
  import opened BaseLexer
  import opened Common
  import opened ConfigText
  import opened DynStrings

  /** A piece of the text under the lexer; `Nowhere` is a cleared reference. */
  datatype StrRef = Nowhere | StrRef(start: nat, len: nat) {
    function Add(from: nat, n: nat): StrRef {
      if n == 0 then this else if Nowhere? then StrRef(from, n) else StrRef(start, len + n)
    }

    ghost predicate EndsAt(offset: nat) {
      StrRef? ==> start + len == offset
    }

    function In(text: string): string
      requires StrRef? ==> start + len <= |text|
    {
      if Nowhere? then "" else text[start..start + len]
    }
  }

  // -------- Tokens and scans --------

  predicate Separates(end: char) {
    !KindOf(end).Alpha? && !KindOf(end).Digit?
  }

  /** A token that does not stop the scan lies wholly inside it. */
  lemma TokenInScan(s: string, end: char)
    requires s != "" && Separates(end)
    requires !Stops(s[0], end)
    ensures Scan(s, end) == TokenLength(s) + Scan(s[TokenLength(s)..], end)
  {
    hide Scan;
    RunIsOfKind(s, KindOf(s[0]));
    ScanSkips(s, end, TokenLength(s));
  }

  /** Only the first character of a token can stop a scan. */
  lemma TokenChars(s: string, end: char)
    requires s != "" && Separates(end) && KindOf(s[0]) != Whitespace
    ensures forall i :: 1 <= i < TokenLength(s) ==> !Stops(s[i], end)
  {
    RunIsOfKind(s, KindOf(s[0]));
  }

  /** The token that stops the scan is what `After` drops. */
  lemma TokenAtStop(s: string, end: char)
    requires s != "" && Separates(end)
    requires Stops(s[0], end)
    ensures Scan(s, end) == 0 && After(s, 0) == s[TokenLength(s)..]
  {
  }

  lemma TokenInSpace(s: string)
    requires s != "" && KindOf(s[0]) == Whitespace
    ensures SkipSpace(s) == SkipSpace(s[TokenLength(s)..])
  {
    if TokenLength(s) == 2 {
      assert s[1..][1..] == s[2..];
    }
  }

  lemma AfterSkipped(s: string, k: nat, n: nat)
    requires k + n <= |s|
    ensures After(s[k..], n) == After(s, k + n)
  {
    assert n < |s| - k ==> s[k..][n + 1..] == s[k + n + 1..];
    assert n + 1 < |s| - k ==> s[k..][n + 2..] == s[k + n + 2..];
  }

  /** The tokenizer as the reader calls it, told in terms of what is left of the text. */
  method NextToken(lex: Lexer) returns (found: bool, token: Token)
    requires lex.Valid()
    modifies lex
    ensures lex.Valid()
    ensures found == (old(lex.Rest()) != "")
    ensures !found ==> lex.Rest() == ""
    ensures found ==> var s := old(lex.Rest());
              && token == Token(old(lex.offset), lex.offset, KindOf(s[0]))
              && lex.text[token.start] == s[0]
              && lex.offset == token.start + TokenLength(s)
              && lex.Rest() == s[TokenLength(s)..]
  {
    found, token := lex.GetBaseToken(false);
  }

  /** What is left behind a scan, and whether it ended the way its caller asked for. */
  function Outcome(s: string, end: char): (string, bool) {
    var n := Scan(s, end);
    (After(s, n), if end == '\0' then n < |s| else n == |s| || s[n] == end)
  }

  lemma OutcomePasses(s: string, end: char)
    requires s != "" && Separates(end) && !Stops(s[0], end)
    ensures var rest := s[TokenLength(s)..];
            Scan(s, end) == TokenLength(s) + Scan(rest, end) && Outcome(s, end) == Outcome(rest, end)
  {
    hide Scan, After, TokenLength;
    TokenInScan(s, end);
    AfterSkipped(s, TokenLength(s), Scan(s[TokenLength(s)..], end));
  }

  lemma OutcomeStops(s: string, end: char)
    requires s != "" && Separates(end) && Stops(s[0], end)
    ensures Scan(s, end) == 0 && Outcome(s, end) == (s[TokenLength(s)..], end == '\0' || s[0] == end)
  {
    hide Scan, After, TokenLength;
    TokenAtStop(s, end);
  }

  lemma OutcomeEnds(end: char)
    ensures Scan("", end) == 0 && Outcome("", end) == ("", end != '\0')
  {
  }

  /** Extends `ref0` up to `end` or the end of the line; the terminator as `end` means the line only. */
  method ConfigParseString(lex: Lexer, ref0: StrRef, end: char) returns (success: bool, ref: StrRef)
    requires lex.Valid() && ref0.EndsAt(lex.offset) && Separates(end)
    modifies lex
    ensures lex.Valid()
    ensures var s := old(lex.Rest()); var n := Scan(s, end);
            && lex.Rest() == After(s, n)
            && ref == ref0.Add(old(lex.offset), n)
            && success == if end == '\0' then n < |s| else n == |s| || s[n] == end
  {
    hide Scan, After, TokenLength, KindOf, Separates;
    success := end != '\0';
    ref := ref0;
    assert ParsedAs(lex.Rest(), end, lex.Rest(), 0) by { hide Outcome; }
    while true
      invariant lex.Valid() && lex.offset >= old(lex.offset)
      invariant ParsedAs(old(lex.Rest()), end, lex.Rest(), lex.offset - old(lex.offset))
      invariant ref == ref0.Add(old(lex.offset), lex.offset - old(lex.offset))
      invariant success == (end != '\0')
      decreases |lex.Rest()|
    {
      hide Outcome;
      ghost var s := lex.Rest();
      var found, token := NextToken(lex);
      if !found {
        OutcomeEnds(end);
        break;
      }
      var c := lex.text[token.start];
      if end != '\0' {
        if c == end {
          OutcomeStops(s, end);
          success := true;
          break;
        } else if IsNewline(c) {
          OutcomeStops(s, end);
          success := false;
          break;
        }
      } else if IsNewline(c) {
        OutcomeStops(s, end);
        success := true;
        break;
      }
      OutcomePasses(s, end);
      ref := ref.Add(token.start, token.end - token.start);
    }
  }

  /** `k` characters further on, the scan is where it was. */
  ghost predicate ParsedAs(s: string, end: char, rest: string, k: nat) {
    Scan(s, end) == k + Scan(rest, end) && Outcome(s, end) == Outcome(rest, end)
  }

  // -------- Reading --------

  /** `token` is the one the lexer has just read. */
  ghost predicate Holding(lex: Lexer, token: Token)
    reads lex
  {
    && lex.Valid() && token.start < |lex.text|
    && var t := lex.text[token.start..];
       && token == Token(token.start, lex.offset, KindOf(t[0]))
       && lex.offset == token.start + TokenLength(t) && lex.Rest() == t[TokenLength(t)..]
  }

  method SkipSpaceTokens(lex: Lexer, token0: Token) returns (more: bool, token: Token)
    requires Holding(lex, token0)
    modifies lex
    ensures lex.Valid()
    ensures var t := SkipSpace(lex.text[token0.start..]);
            && more == (t != "")
            && (if more then Holding(lex, token) && lex.text[token.start..] == t else lex.Rest() == "")
  {
    hide SkipSpace, TokenLength, KindOf;
    token := token0;
    while token.kind == Whitespace
      invariant Holding(lex, token)
      invariant SkipSpace(lex.text[token.start..]) == SkipSpace(lex.text[token0.start..])
      decreases |lex.text| - token.start
    {
      TokenInSpace(lex.text[token.start..]);
      more, token := NextToken(lex);
      if !more {
        SkipNothing();
        return;
      }
    }
    more := true;
    NoSpace(lex.text[token.start..]);
  }

  lemma NoSpace(t: string)
    requires t != "" && KindOf(t[0]) != Whitespace
    ensures SkipSpace(t) == t
  {
  }

  /** Reads tokens up to a newline, starting with the one at hand. */
  method SkipLine(lex: Lexer, token0: Token) returns (more: bool)
    requires Holding(lex, token0)
    modifies lex
    ensures lex.Valid()
    ensures lex.Rest() == AfterLine(lex.text[token0.start..])
    ensures !more ==> lex.Rest() == ""
  {
    hide AfterLine, TokenLength, KindOf;
    var token := token0;
    more := true;
    while !IsNewline(lex.text[token.start])
      invariant Holding(lex, token)
      invariant AfterLine(lex.text[token.start..]) == AfterLine(lex.text[token0.start..])
      decreases |lex.text| - token.start
    {
      LineSkips(lex.text[token.start..]);
      more, token := NextToken(lex);
      if !more {
        return;
      }
    }
    LineEnds(lex.text[token.start..]);
  }

  lemma LineSkips(t: string)
    requires t != "" && !IsNewline(t[0])
    ensures AfterLine(t) == AfterLine(t[TokenLength(t)..])
    ensures AfterLine("") == ""
  {
    TokenInScan(t, '\0');
    AfterSkipped(t, TokenLength(t), Scan(t[TokenLength(t)..], '\0'));
  }

  lemma LineEnds(t: string)
    requires t != "" && IsNewline(t[0])
    ensures AfterLine(t) == t[TokenLength(t)..]
  {
    TokenAtStop(t, '\0');
  }

  // -------- Sections and items --------

  /** The name of the item at the front of `t` ends where the scan behind its first token ends. */
  lemma NameFromTokens(t: string)
    requires t != "" && KindOf(t[0]) != Whitespace && Separates('=')
    ensures var k := TokenLength(t); var n := Scan(t[k..], '=');
            && NameEnd(t) == k + n && After(t[k..], n) == After(t, NameEnd(t))
            && HasItem(t) == (n == |t[k..]| || t[k..][n] == '=')
  {
    hide Scan, After, TokenLength, KindOf;
    var k := TokenLength(t);
    TokenChars(t, '=');
    ScanSkips(t[1..], '=', k - 1);
    assert t[1..][k - 1..] == t[k..];
    AfterSkipped(t, k, Scan(t[k..], '='));
  }

  /**
    Undoes the escaping in place; the writer never overtakes the reader. `n` is where the terminator is,
    the result where it comes to be.
   */
  method UnescapeInPlace(str: array<char>, ghost n: nat) returns (write: nat)
    requires n < str.Length && str[n] == '\0' && '\0' !in str[..n]
    modifies str
    ensures write <= n && str[..write] == Unescape(old(str[..n]))
    ensures str[write] == '\0' && '\0' !in str[..write]
  {
    hide Unescape, UnescapeFront;
    ghost var done, rest := "", str[..n];
    var read := 0;
    write := 0;
    while str[read] != '\0'
      invariant write <= read <= n && str[n] == '\0'
      invariant str[..write] == done && str[read..n] == rest
      invariant done + Unescape(rest) == Unescape(old(str[..n]))
      invariant '\0' !in done && '\0' !in rest
      decreases |rest|
    {
      UnescapeStep(done, rest, str[read], str[read + 1]);
      ghost var start := read;
      var cur := str[read];
      if cur == '\\' {
        var next := str[read + 1];
        if next == '\\' {
          read := read + 1;
        } else if next == 'r' {
          cur := '\r';
          read := read + 1;
        } else if next == 'n' {
          cur := '\n';
          read := read + 1;
        }
      }
      if read != write {
        str[write] := cur;
      }
      read, write := read + 1, write + 1;
      done, rest := done + [cur], rest[read - start..];
    }
    UnescapeNothing();
    if read != write {
      str[write] := '\0';
    }
  }

  lemma UnescapeStep(done: string, s: string, c: char, next: char)
    requires s != "" && s[0] == c && next == if |s| > 1 then s[1] else '\0'
    ensures var front := if c != '\\' then (c, 1)
                         else if next == '\\' then ('\\', 2)
                         else if next == 'r' then ('\r', 2)
                         else if next == 'n' then ('\n', 2)
                         else (c, 1);
            && front.1 <= |s|
            && done + [front.0] + Unescape(s[front.1..]) == done + Unescape(s)
  {
    hide Unescape;
    FrontStep(done, s);
  }

  lemma FrontStep(done: string, s: string)
    requires s != "" && UnescapeFront(s).1 <= |s|
    ensures done + [UnescapeFront(s).0] + Unescape(s[UnescapeFront(s).1..]) == done + Unescape(s)
  {
    hide UnescapeFront;
    var c, after := UnescapeFront(s).0, Unescape(s[UnescapeFront(s).1..]);
    assert Unescape(s) == [c] + after;
    Reassociate(done, c, after);
  }

  lemma Reassociate(a: string, c: char, b: string)
    ensures a + [c] + b == a + ([c] + b)
  {
  }

  /** Copies the value behind the reference and unescapes the copy. */
  method ItemValue(text: string, value: StrRef) returns (r: string)
    requires value.StrRef? ==> value.start + value.len <= |text|
    requires '\0' !in text
    ensures r == Unescape(value.In(text))
  {
    var s := value.In(text);
    if s == "" {
      return "";
    }
    var str := new char[|s| + 1](i => if 0 <= i < |s| then s[i] else '\0');
    assert str[..|s|] == s;
    var len := UnescapeInPlace(str, |s|);
    r := str[..len];
  }

  /** One line with a name on it: an item, unless the line ends before an equals sign. */
  method ConfigParseItem(lex: Lexer, token: Token) returns (items: seq<Item>)
    requires Holding(lex, token) && token.kind != Whitespace && '\0' !in lex.text
    modifies lex
    ensures lex.Valid()
    ensures var t := lex.text[token.start..];
            && lex.Rest() == AfterItem(t)
            && items == if HasItem(t) then [ItemOf(t)] else []
  {
    hide TokenLength, KindOf, After, Scan, Unescape;
    ghost var t := lex.text[token.start..];
    NameFromTokens(t) by { Separators(); }
    Separators();
    var success, name := ConfigParseString(lex, StrRef(token.start, token.end - token.start), '=');
    if !success {
      return [];
    }
    assert name.In(lex.text) == t[..NameEnd(t)];
    ghost var v := lex.Rest();
    ghost var from := lex.offset;
    var _, value := ConfigParseString(lex, Nowhere, '\0');
    assert value.In(lex.text) == v[..Scan(v, '\0')] by {
      assert lex.text[from..][..Scan(v, '\0')] == lex.text[from..from + Scan(v, '\0')];
    }
    var itemValue := ItemValue(lex.text, value);
    items := [Item(name.In(lex.text), itemValue)];
  }

  lemma Separators()
    ensures Separates('=') && Separates(']') && Separates('\0')
  {
  }

  /** The items of a section, up to the next header. */
  method ConfigParseSection(lex: Lexer) returns (items: seq<Item>)
    requires lex.Valid() && '\0' !in lex.text
    modifies lex
    ensures lex.Valid()
    ensures (items, lex.Rest()) == ParseItems(old(lex.Rest()))
  {
    hide Behind, ParseItems, TokenLength, KindOf, SkipSpace, AfterItem, HasItem, ItemOf, AfterLine, Scan, Unescape;
    items := [];
    while true
      invariant lex.Valid()
      invariant ParseItems(old(lex.Rest())) == Behind(items, ParseItems(lex.Rest()))
      decreases |lex.Rest()|
    {
      ghost var s := lex.Rest();
      ItemsStep(s);
      var found, token := NextToken(lex);
      if !found {
        return;
      }
      var more;
      more, token := SkipSpaceTokens(lex, token);
      if !more {
        return;
      }
      if token.kind == Other {
        if lex.text[token.start] == '#' {
          more := SkipLine(lex, token);
          if !more {
            ItemsStep("");
            return;
          }
          continue;
        } else if lex.text[token.start] == '[' {
          OneCharacter(lex.text[token.start..]);
          lex.offset := lex.offset - 1;
          return;
        }
      }
      ListMarks(lex.text[token.start]);
      var item := ConfigParseItem(lex, token);
      BehindBoth(items, item, ParseItems(lex.Rest()));
      items := items + item;
    }
  }

  function Behind(items: seq<Item>, r: (seq<Item>, string)): (both: (seq<Item>, string))
    ensures items == [] ==> both == r
    ensures r.0 == [] ==> both == (items, r.1)
  {
    assert items == [] ==> items + r.0 == r.0;
    assert r.0 == [] ==> items + r.0 == items;
    (items + r.0, r.1)
  }

  lemma BehindBoth(a: seq<Item>, b: seq<Item>, r: (seq<Item>, string))
    ensures Behind(a, Behind(b, r)) == Behind(a + b, r)
  {
    assert a + (b + r.0) == a + b + r.0;
  }

  /** One round of the loop over items. */
  lemma ItemsStep(s: string)
    ensures s == "" ==> SkipSpace(s) == ""
    ensures var t := SkipSpace(s);
            && (t == "" ==> ParseItems(s) == ([], ""))
            && (t != "" ==> KindOf(t[0]) != Whitespace)
            && (t != "" && t[0] == '#' ==> ParseItems(s) == ParseItems(AfterLine(t)) && |AfterLine(t)| < |s|)
            && (t != "" && t[0] == '[' ==> ParseItems(s) == ([], t))
            && (t != "" && t[0] != '#' && t[0] != '[' ==>
                  && |AfterItem(t)| < |s|
                  && ParseItems(s) == Behind(if HasItem(t) then [ItemOf(t)] else [], ParseItems(AfterItem(t))))
  {
    var t := SkipSpace(s);
    if t != "" && t[0] != '#' && t[0] != '[' {
      hide SkipSpace, AfterItem, HasItem, ItemOf;
      var r := ParseItems(AfterItem(t));
      assert Behind([], r) == r;
      assert Behind([ItemOf(t)], r) == ([ItemOf(t)] + r.0, r.1);
    }
  }

  lemma ListMarks(c: char)
    ensures c == '#' || c == '[' ==> KindOf(c) == Other
  {
  }

  lemma OneCharacter(t: string)
    requires t != "" && t[0] == '['
    ensures TokenLength(t) == 1
  {
  }

  /** The sections of a text, in order. */
  method ParseConfigData(lex: Lexer) returns (sections: seq<Section>)
    requires lex.Valid() && '\0' !in lex.text
    modifies lex
    ensures lex.Valid()
    ensures sections == ParseSections(old(lex.Rest()))
  {
    hide ParseItems, ParseSections, TokenLength, KindOf, SkipSpace, After, AfterLine, Scan;
    sections := [];
    while true
      invariant lex.Valid()
      invariant ParseSections(old(lex.Rest())) == sections + ParseSections(lex.Rest())
      decreases |lex.Rest()|
    {
      ghost var s := lex.Rest();
      SectionsStep(s);
      var found, token := NextToken(lex);
      if !found {
        return;
      }
      var more;
      more, token := SkipSpaceTokens(lex, token);
      if !more {
        return;
      }
      ghost var t := lex.text[token.start..];
      if lex.text[token.start] != '[' {
        more := SkipLine(lex, token);
        if !more {
          SectionsStep("");
          return;
        }
        continue;
      }
      OneCharacter(t);
      Separators();
      var _, name := ConfigParseString(lex, Nowhere, ']');
      if name == Nowhere {
        return;
      }
      assert name.In(lex.text) == t[1..][..Scan(t[1..], ']')];
      var items := ConfigParseSection(lex);
      sections := sections + [Section(name.In(lex.text), items)];
    }
  }

  /** One round of the loop over sections. */
  lemma SectionsStep(s: string)
    ensures s == "" ==> SkipSpace(s) == ""
    ensures var t := SkipSpace(s);
            && (t == "" ==> ParseSections(s) == [])
            && (t != "" && t[0] != '[' ==> ParseSections(s) == ParseSections(AfterLine(t)) && |AfterLine(t)| < |s|)
            && (t != "" && t[0] == '[' ==>
                  var n := Scan(t[1..], ']');
                  var r := ParseItems(After(t[1..], n));
                  && |r.1| < |s|
                  && ParseSections(s) == if n == 0 then [] else [Section(t[1..][..n], r.0)] + ParseSections(r.1))
  {
  }

  method ConfigOpenString(text: string) returns (sections: seq<Section>)
    requires '\0' !in text
    ensures sections == ParseSections(text)
  {
    var lex := new Lexer(text);
    assert lex.Rest() == text;
    sections := ParseConfigData(lex);
  }

  // -------- Writing --------

  /** Values are texts that a terminator ends. */
  predicate Terminable(items: seq<Item>) {
    forall j :: 0 <= j < |items| ==> '\0' !in items[j].value
  }

  method EscapeValue(value: string) returns (text: string)
    requires '\0' !in value
    ensures text == Escape(value)
  {
    hide ReplaceAll;
    var tmp := new Dstr(value);
    tmp.Replace("\\", "\\\\");
    tmp.Replace("\r", "\\r");
    tmp.Replace("\n", "\\n");
    text := tmp.Read();
  }

  method AppendItem(text0: string, item: Item) returns (text: string)
    requires '\0' !in item.value
    ensures text == text0 + SaveItem(item)
  {
    hide Escape;
    var value := EscapeValue(item.value);
    text := text0 + item.name + "=" + value + "\n";
  }

  method AppendSection(text0: string, section: Section) returns (text: string)
    requires Terminable(section.items)
    ensures text == text0 + SaveSection(section)
  {
    hide SaveItem;
    text := text0 + "[" + section.name + "]\n";
    ghost var header := text;
    for j := 0 to |section.items|
      invariant text + SaveItems(section.items[j..]) == header + SaveItems(section.items)
    {
      assert section.items[j..][1..] == section.items[j + 1..];
      text := AppendItem(text, section.items[j]);
    }
    assert text0 + ("[" + section.name + "]\n") == header;
    assert text0 + SaveSection(section) == header + SaveItems(section.items);
  }

  /** The text of the sections; a text without any character is reported as an error. */
  method ConfigSave(sections: seq<Section>) returns (ok: bool, text: string)
    requires forall i :: 0 <= i < |sections| ==> Terminable(sections[i].items)
    ensures text == SaveSections(sections) && ok == (sections != [])
  {
    hide SaveSections, SaveSection, SectionsFrom;
    text := "";
    SectionsEnds(sections);
    for i := 0 to |sections|
      invariant text + SectionsFrom(sections, i) == SaveSections(sections)
    {
      SectionsStepFrom(sections, i);
      if i > 0 {
        text := text + "\n";
      }
      ghost var before := text;
      text := AppendSection(text, sections[i]);
      assert before + (SaveSection(sections[i]) + SectionsFrom(sections, i + 1)) == text + SectionsFrom(sections, i + 1);
    }
    ok := text != "";
  }

  function SectionsFrom(sections: seq<Section>, i: nat): string
    requires i <= |sections|
  {
    if i == |sections| then "" else (if i > 0 then "\n" else "") + SaveSections(sections[i..])
  }

  lemma SectionsEnds(sections: seq<Section>)
    ensures SectionsFrom(sections, 0) == SaveSections(sections) && SectionsFrom(sections, |sections|) == ""
    ensures SaveSections(sections) == "" <==> sections == []
  {
    hide SaveSection, SaveSections;
    assert sections[0..] == sections;
    FirstSection(sections);
  }

  lemma SectionsStepFrom(sections: seq<Section>, i: nat)
    requires i < |sections|
    ensures SectionsFrom(sections, i)
            == (if i > 0 then "\n" else "") + SaveSection(sections[i]) + SectionsFrom(sections, i + 1)
  {
    hide SaveSection;
    assert sections[i..][1..] == sections[i + 1..];
    FirstSection(sections[i..]);
  }

  // -------- Setting and finding --------

  function FindItem(items: seq<Item>, name: string): (j: nat)
    ensures j <= |items| && (j < |items| ==> Same(items[j].name, name))
    ensures forall k :: 0 <= k < j ==> !Same(items[k].name, name)
  {
    if items == [] || Same(items[0].name, name) then 0 else 1 + FindItem(items[1..], name)
  }

  /** The first item of that name in any section of that name. */
  function Find(sections: seq<Section>, section: string, name: string): Option<string> {
    if sections == [] then None
    else
      var items := sections[0].items;
      if Same(sections[0].name, section) && FindItem(items, name) < |items| then Some(items[FindItem(items, name)].value)
      else Find(sections[1..], section, name)
  }

  function SetIn(items: seq<Item>, name: string, value: string): seq<Item> {
    var j := FindItem(items, name);
    if j < |items| then items[j := Item(items[j].name, value)] else items + [Item(name, value)]
  }

  /** Only the first section of that name is looked at; it gains the item if it has none. */
  function Set(sections: seq<Section>, section: string, name: string, value: string): seq<Section> {
    if sections == [] then [Section(section, [Item(name, value)])]
    else if Same(sections[0].name, section) then
      [Section(sections[0].name, SetIn(sections[0].items, name, value))] + sections[1..]
    else [sections[0]] + Set(sections[1..], section, name, value)
  }

  lemma {:induction false} FindItemIs(items: seq<Item>, name: string, j: nat)
    requires j <= |items| && (j < |items| ==> Same(items[j].name, name))
    requires forall k :: 0 <= k < j ==> !Same(items[k].name, name)
    ensures FindItem(items, name) == j
  {
    if j > 0 {
      FindItemIs(items[1..], name, j - 1);
    }
  }

  lemma FindInSet(items: seq<Item>, name: string, value: string, other: string)
    ensures var after := SetIn(items, name, value);
            var j := FindItem(after, other);
            if Same(name, other) then j < |after| && after[j].value == value
            else if FindItem(items, other) < |items| then j == FindItem(items, other) && j < |after| && after[j].value == items[j].value
            else j == |after|
  {
    hide Fold;
    var after := SetIn(items, name, value);
    var j := FindItem(items, other);
    FindItemIs(after, other, if j == |items| && !Same(name, other) then |after| else j);
  }

  /** What was set is found, and nothing else has changed. */
  lemma {:induction false} FindAfterSet(
      sections: seq<Section>, section: string, name: string, value: string, section': string, name': string)
    ensures Find(Set(sections, section, name, value), section', name')
            == if Same(section, section') && Same(name, name') then Some(value) else Find(sections, section', name')
  {
    hide Fold, FindItem, SetIn;
    var after := Set(sections, section, name, value);
    if sections == [] {
      FindItemIs(after[0].items, name', if Same(name, name') then 0 else 1);
    } else if Same(sections[0].name, section) {
      FindInSet(sections[0].items, name, value, name');
      assert after[1..] == sections[1..];
    } else {
      FindAfterSet(sections[1..], section, name, value, section', name');
      assert after[1..] == Set(sections[1..], section, name, value);
    }
  }

  lemma {:induction false} SetKeepsGood(sections: seq<Section>, section: string, name: string, value: string)
    requires GoodSections(sections) && GoodSectionName(section) && GoodItemName(name)
    ensures GoodSections(Set(sections, section, name, value))
  {
    hide GoodSectionName, GoodItemName, FindItem, Same;
    if sections != [] && !Same(sections[0].name, section) {
      SetKeepsGood(sections[1..], section, name, value);
    }
  }

  /** A setting survives saving and reading back, and so does every other one. */
  lemma SettingSurvives(
      sections: seq<Section>, section: string, name: string, value: string, section': string, name': string)
    requires GoodSections(sections) && GoodSectionName(section) && GoodItemName(name)
    ensures Find(ParseSections(SaveSections(Set(sections, section, name, value))), section', name')
            == if Same(section, section') && Same(name, name') then Some(value) else Find(sections, section', name')
  {
    hide Find, Set, ParseSections, SaveSections, GoodSections;
    SetKeepsGood(sections, section, name, value);
    SectionsRoundTrip(Set(sections, section, name, value));
    FindAfterSet(sections, section, name, value, section', name');
  }

  /** Where the search of a section ends. */
  method FindItemIndex(items: seq<Item>, name: string) returns (j: nat)
    ensures j == FindItem(items, name)
  {
    hide Fold;
    j := 0;
    while j < |items|
      invariant j <= |items|
      invariant forall k :: 0 <= k < j ==> !Same(items[k].name, name)
    {
      var order := AstrCmpI(items[j].name, name);
      if order == 0 {
        break;
      }
      j := j + 1;
    }
    FindItemIs(items, name, j);
  }

  /** The search goes on in the sections behind. */
  lemma FindStep(sections: seq<Section>, i: nat, section: string, name: string)
    requires i < |sections|
    ensures Find(sections[i..], section, name)
            == if Same(sections[i].name, section) && FindItem(sections[i].items, name) < |sections[i].items|
               then Some(sections[i].items[FindItem(sections[i].items, name)].value)
               else Find(sections[i + 1..], section, name)
  {
    assert sections[i..][1..] == sections[i + 1..];
  }

  lemma SetStep(sections: seq<Section>, i: nat, section: string, name: string, value: string)
    requires i < |sections|
    ensures Set(sections[i..], section, name, value)
            == if Same(sections[i].name, section)
               then [Section(sections[i].name, SetIn(sections[i].items, name, value))] + sections[i + 1..]
               else [sections[i]] + Set(sections[i + 1..], section, name, value)
  {
    assert sections[i..][1..] == sections[i + 1..];
  }

  lemma FindNone(section: string, name: string)
    ensures Find([], section, name) == None
  {
  }

  lemma SetNone(section: string, name: string, value: string)
    ensures Set([], section, name, value) == [Section(section, [Item(name, value)])]
  {
  }

  class Config {
    var sections: seq<Section>

    constructor ()
      ensures sections == []
    {
      sections := [];
    }

    method FindItem(section: string, name: string) returns (value: Option<string>)
      ensures value == Find(sections, section, name)
    {
      hide Fold, Find;
      for i := 0 to |sections|
        invariant Find(sections, section, name) == Find(sections[i..], section, name)
      {
        FindStep(sections, i, section, name);
        var order := AstrCmpI(sections[i].name, section);
        if order == 0 {
          var items := sections[i].items;
          var j := FindItemIndex(items, name);
          if j < |items| {
            return Some(items[j].value);
          }
        }
      }
      assert sections[|sections|..] == [];
      FindNone(section, name);
      value := None;
    }

    method SetItem(section: string, name: string, value: string)
      modifies this
      ensures sections == Set(old(sections), section, name, value)
    {
      hide Fold, Set;
      var i := 0;
      while i < |sections|
        invariant i <= |sections| && sections == old(sections)
        invariant Set(sections, section, name, value) == sections[..i] + Set(sections[i..], section, name, value)
      {
        SetStep(sections, i, section, name, value);
        var order := AstrCmpI(sections[i].name, section);
        if order == 0 {
          break;
        }
        i := i + 1;
      }
      if i == |sections| {
        assert sections[i..] == [] && sections[..i] == sections;
        SetNone(section, name, value);
        sections := sections + [Section(section, [Item(name, value)])];
      } else {
        var items := sections[i].items;
        var j := FindItemIndex(items, name);
        items := if j < |items| then items[j := Item(items[j].name, value)] else items + [Item(name, value)];
        sections := sections[i := Section(sections[i].name, items)];
      }
    }
  }
}

/**
  A cursor in well-nested text: the rest of the line it is on, the items behind that line, and how the
  enclosing block ends. Moving over one token moves the view, and what is still to come out shrinks by
  what that token expands to.
 */
module CfView {
  import opened Common
  import opened CfProgram

  const END := Token(NoToken, "")

  datatype Closing = Top | Closed(hash: Hash, word: string, rest: seq<Token>)

  datatype View = View(cur: seq<Token>, todo: seq<Item>, closing: Closing)

  function ClosingTokens(c: Closing): seq<Token> {
    if c.Top? then [END] else HashTokens(c.hash, c.word) + c.rest
  }

  function ClosingLead(c: Closing): seq<Token> {
    if c.Top? then [] else c.hash.lead
  }

  /** What the cursor is on when the block is over. */
  function Beyond(c: Closing): seq<Token> {
    if c.Top? then [END] else [Keyword(c.word)] + c.rest
  }

  function ViewTokens(v: View): seq<Token> {
    v.cur + (UnparseAll(v.todo) + ClosingTokens(v.closing))
  }

  predicate RestOfLine(cur: seq<Token>) {
    cur == [] || GoodLine(Line(cur[..|cur| - 1], cur[|cur| - 1]))
  }

  ghost predicate GoodView(rank: Rank, v: View) {
    && RestOfLine(v.cur) && GoodAll(rank, v.todo)
    && (v.closing.Closed? ==> GoodHash(v.closing.hash) && v.closing.word in {"else", "endif"})
  }

  ghost function Future(rank: Rank, v: View, defs: seq<Def>): (seq<Token>, seq<Def>)
    requires Ranked(rank, defs) && GoodView(rank, v)
  {
    var r := MeaningAll(rank, v.todo, defs);
    (ExpandAll(rank, defs, v.cur) + (r.0 + ClosingLead(v.closing)), r.1)
  }

  /** How the flags of the loop go with the view. */
  predicate Flags(v: View, newline: bool, directiveLine: bool) {
    && (directiveLine ==> v.cur != [] && AllSpace(v.cur[..|v.cur| - 1]))
    && (v.cur == [] ==> newline && !directiveLine)
    && (v.cur != [] && newline && !directiveLine ==> PlainStart(v.cur))
  }

  /** The next line, if it is text, becomes the rest of the current line. */
  function Loaded(v: View): View {
    if v.cur == [] && v.todo != [] && v.todo[0].Text? then View(LineTokens(v.todo[0].line), v.todo[1..], v.closing)
    else v
  }

  predicate IsLoaded(v: View) {
    v.cur == [] && v.todo != [] ==> !v.todo[0].Text?
  }

  predicate AtItem(v: View) {
    v.cur == [] && v.todo != [] && !v.todo[0].Text? && v.todo[0].hash.lead == []
  }

  predicate AtClosing(v: View) {
    v.cur == [] && v.todo == [] && (v.closing.Closed? ==> v.closing.hash.lead == [])
  }

  function DropLead(hash: Hash): Hash
    requires hash.lead != []
  {
    Hash(hash.lead[1..], hash.gap)
  }

  function Next(v: View): View
    requires IsLoaded(v) && !AtItem(v) && !AtClosing(v)
  {
    if v.cur != [] then View(v.cur[1..], v.todo, v.closing)
    else if v.todo != [] then
      View([], [v.todo[0].(hash := DropLead(v.todo[0].hash))] + v.todo[1..], v.closing)
    else View([], [], v.closing.(hash := DropLead(v.closing.hash)))
  }

  lemma {:induction false} PlainLine(ts: seq<Token>, nl: Token)
    requires PlainStart(ts) && nl.kind.Newline?
    ensures PlainStart(ts + [nl])
  {
    if ts != [] && ts[0].kind.SpaceTab? {
      PlainLine(ts[1..], nl);
      assert (ts + [nl])[1..] == ts[1..] + [nl];
    }
  }

  // -------- The recursive functions, one step at a time --------

  lemma FirstItem(rank: Rank, items: seq<Item>, defs: seq<Def>)
    requires Ranked(rank, defs) && GoodAll(rank, items) && items != []
    ensures Good(rank, items[0]) && GoodAll(rank, items[1..])
    ensures UnparseAll(items) == Unparse(items[0]) + UnparseAll(items[1..])
    ensures var first := Meaning(rank, items[0], defs);
            var rest := MeaningAll(rank, items[1..], first.1);
            MeaningAll(rank, items, defs) == (first.0 + rest.0, rest.1)
  {
  }

  lemma TextItem(rank: Rank, item: Item, defs: seq<Def>)
    requires Ranked(rank, defs) && Good(rank, item) && item.Text?
    ensures GoodLine(item.line) && PlainStart(item.line.tokens)
    ensures Unparse(item) == LineTokens(item.line)
    ensures Meaning(rank, item, defs) == (ExpandAll(rank, defs, LineTokens(item.line)), defs)
  {
  }

  lemma DirectiveItem(rank: Rank, item: Item, defs: seq<Def>)
    requires Ranked(rank, defs) && Good(rank, item) && !item.Text?
    ensures GoodHash(item.hash) && GoodEnd(item.end)
    ensures Unparse(item) == HashTokens(item.hash, WordOf(item)) + Operands(item) + LineTokens(item.end)
    ensures var inner := Inner(rank, item, defs);
            Meaning(rank, item, defs) == (item.hash.lead + inner.0 + LineTokens(item.end), inner.1)
  {
  }

  lemma NoItems(rank: Rank, defs: seq<Def>)
    requires Ranked(rank, defs)
    ensures MeaningAll(rank, [], defs) == ([], defs) && UnparseAll([]) == [] && GoodAll(rank, [])
    ensures ExpandAll(rank, defs, []) == []
  {
  }

  lemma Regroup(none: seq<Token>, a: seq<Token>, b: seq<Token>, c: seq<Token>)
    requires none == []
    ensures none + ((a + b) + c) == a + (b + c)
  {
  }

  // -------- Moving the view --------

  predicate Loads(v: View) {
    v.cur == [] && v.todo != [] && v.todo[0].Text?
  }

  lemma LoadingFlags(rank: Rank, v: View, defs: seq<Def>)
    requires Ranked(rank, defs) && GoodView(rank, v) && Loads(v)
    ensures GoodView(rank, Loaded(v)) && Flags(Loaded(v), true, false)
    ensures GoodLine(v.todo[0].line)
  {
    hide GoodAll, Good, UnparseAll, Unparse, MeaningAll, Meaning, ExpandAll, Ranked, GoodHash, PlainStart;
    FirstItem(rank, v.todo, defs);
    TextItem(rank, v.todo[0], defs);
    var line := v.todo[0].line;
    PlainLine(line.tokens, line.nl);
    assert LineTokens(line)[..|line.tokens|] == line.tokens;
  }

  lemma LoadingTokens(rank: Rank, v: View, defs: seq<Def>)
    requires Ranked(rank, defs) && GoodView(rank, v) && Loads(v)
    ensures ViewTokens(Loaded(v)) == ViewTokens(v)
  {
    hide GoodAll, Good, UnparseAll, Unparse, MeaningAll, Meaning, Ranked, ClosingTokens, LineTokens;
    FirstItem(rank, v.todo, defs);
    TextItem(rank, v.todo[0], defs);
  }

  lemma LoadingFuture(rank: Rank, v: View, defs: seq<Def>)
    requires Ranked(rank, defs) && GoodView(rank, v) && Loads(v) && GoodView(rank, Loaded(v))
    ensures Future(rank, Loaded(v), defs).0 == Future(rank, v, defs).0
    ensures Future(rank, Loaded(v), defs).1 == Future(rank, v, defs).1
  {
    hide GoodAll, Good, UnparseAll, Unparse, MeaningAll, Meaning, ExpandAll, Ranked, GoodHash, LineTokens, ClosingLead;
    FirstItem(rank, v.todo, defs);
    TextItem(rank, v.todo[0], defs);
    NoItems(rank, defs);
  }

  lemma Loading(rank: Rank, v: View, defs: seq<Def>)
    requires Ranked(rank, defs) && GoodView(rank, v)
    ensures GoodView(rank, Loaded(v)) && IsLoaded(Loaded(v))
    ensures if Loads(v) then Loaded(v).cur != [] && Flags(Loaded(v), true, false) else Loaded(v) == v
    ensures ViewTokens(Loaded(v)) == ViewTokens(v)
    ensures Future(rank, Loaded(v), defs).0 == Future(rank, v, defs).0
    ensures Future(rank, Loaded(v), defs).1 == Future(rank, v, defs).1
  {
    hide Future, ViewTokens, GoodView, Flags, Ranked;
    if Loads(v) {
      LoadingFlags(rank, v, defs);
      LoadingTokens(rank, v, defs);
      LoadingFuture(rank, v, defs);
    }
  }

  /** Stepping over white space or text: what was to come is what this token expands to and what is to come. */
  lemma NextInLine(rank: Rank, v: View, defs: seq<Def>)
    requires Ranked(rank, defs) && GoodView(rank, v) && v.cur != []
    ensures GoodView(rank, Next(v))
    ensures ViewTokens(v) == [v.cur[0]] + ViewTokens(Next(v))
    ensures !v.cur[0].kind.NoToken? && (v.cur[0].kind.Newline? <==> |v.cur| == 1)
    ensures Future(rank, v, defs).0 == Expand(rank, defs, v.cur[0]) + Future(rank, Next(v), defs).0
    ensures Future(rank, v, defs).1 == Future(rank, Next(v), defs).1
  {
    hide GoodAll, UnparseAll, MeaningAll, Expand, Ranked;
    var rest := v.cur[1..];
    assert v.cur == [v.cur[0]] + rest;
    if rest != [] {
      assert rest[..|rest| - 1] == v.cur[..|v.cur| - 1][1..];
      assert v.cur[..|v.cur| - 1][0] == v.cur[0];
    }
    var later := MeaningAll(rank, v.todo, defs).0 + ClosingLead(v.closing);
    assert Next(v).cur == rest;
    assert ExpandAll(rank, defs, v.cur) == Expand(rank, defs, v.cur[0]) + ExpandAll(rank, defs, rest);
    assert Future(rank, v, defs).0 == Expand(rank, defs, v.cur[0]) + ExpandAll(rank, defs, rest) + later;
    assert Future(rank, Next(v), defs).0 == ExpandAll(rank, defs, rest) + later;
  }

  lemma DropHash(hash: Hash, word: string)
    requires hash.lead != []
    ensures HashTokens(hash, word) == [hash.lead[0]] + HashTokens(DropLead(hash), word)
    ensures GoodHash(hash) ==> GoodHash(DropLead(hash)) && hash.lead[0].kind.SpaceTab?
  {
    assert hash.lead == [hash.lead[0]] + hash.lead[1..];
  }

  /** The white space before a directive is not part of what it does. */
  lemma ShorterLead(rank: Rank, item: Item, defs: seq<Def>)
    requires Ranked(rank, defs) && Good(rank, item) && !item.Text? && item.hash.lead != []
    ensures var shorter := item.(hash := DropLead(item.hash)); var t := item.hash.lead[0];
            && t.kind.SpaceTab? && Good(rank, shorter)
            && Unparse(item) == [t] + Unparse(shorter)
            && Meaning(rank, item, defs).0 == [t] + Meaning(rank, shorter, defs).0
            && Meaning(rank, item, defs).1 == Meaning(rank, shorter, defs).1
  {
    hide Good, Operands, WordOf, Inner, Unparse, Meaning, Ranked;
    var shorter := item.(hash := DropLead(item.hash));
    var t := item.hash.lead[0];
    DirectiveItem(rank, item, defs);
    OtherHash(rank, item, shorter.hash, defs);
    DirectiveItem(rank, shorter, defs);
    assert item.hash.lead == [t] + shorter.hash.lead;
    assert HashTokens(item.hash, WordOf(item)) == [t] + HashTokens(shorter.hash, WordOf(shorter));
  }

  lemma OtherHash(rank: Rank, item: Item, hash: Hash, defs: seq<Def>)
    requires Ranked(rank, defs) && Good(rank, item) && !item.Text? && GoodHash(hash)
    ensures var other := item.(hash := hash);
            && Good(rank, other) && WordOf(other) == WordOf(item) && Operands(other) == Operands(item)
            && other.end == item.end && Inner(rank, other, defs) == Inner(rank, item, defs)
  {
  }

  function LeadOf(v: View): seq<Token> {
    if v.todo == [] then ClosingLead(v.closing) else if v.todo[0].Text? then [] else v.todo[0].hash.lead
  }

  lemma NextInLead(rank: Rank, v: View, defs: seq<Def>)
    requires Ranked(rank, defs) && GoodView(rank, v) && v.cur == []
    requires IsLoaded(v) && !AtItem(v) && !AtClosing(v)
    ensures GoodView(rank, Next(v)) && Next(v).cur == []
    ensures LeadOf(v) != [] && LeadOf(v)[0].kind.SpaceTab?
    ensures ViewTokens(v) == [LeadOf(v)[0]] + ViewTokens(Next(v))
    ensures Future(rank, v, defs).0 == [LeadOf(v)[0]] + Future(rank, Next(v), defs).0
    ensures Future(rank, v, defs).1 == Future(rank, Next(v), defs).1
  {
    hide GoodAll, Good, UnparseAll, Unparse, MeaningAll, Meaning, ExpandAll, Ranked, ClosingTokens, ClosingLead;
    NoItems(rank, defs);
    if v.todo == [] {
      NextClosing(v.closing);
    } else {
      NextItem(rank, v.todo, defs);
    }
  }

  lemma NextClosing(c: Closing)
    requires c.Closed? && GoodHash(c.hash) && c.hash.lead != []
    ensures var shorter := c.(hash := DropLead(c.hash)); var t := c.hash.lead[0];
            && t.kind.SpaceTab? && GoodHash(shorter.hash)
            && ClosingTokens(c) == [t] + ClosingTokens(shorter)
            && ClosingLead(c) == [t] + ClosingLead(shorter)
  {
    hide HashTokens, GoodHash;
    DropHash(c.hash, c.word);
    ConcatAssoc([c.hash.lead[0]], HashTokens(DropLead(c.hash), c.word), c.rest);
  }

  lemma NextItem(rank: Rank, todo: seq<Item>, defs: seq<Def>)
    requires Ranked(rank, defs) && GoodAll(rank, todo) && todo != [] && !todo[0].Text? && todo[0].hash.lead != []
    ensures var shorter := [todo[0].(hash := DropLead(todo[0].hash))] + todo[1..]; var t := todo[0].hash.lead[0];
            && t.kind.SpaceTab? && GoodAll(rank, shorter)
            && UnparseAll(todo) == [t] + UnparseAll(shorter)
            && MeaningAll(rank, todo, defs).0 == [t] + MeaningAll(rank, shorter, defs).0
            && MeaningAll(rank, todo, defs).1 == MeaningAll(rank, shorter, defs).1
  {
    hide GoodAll, Good, UnparseAll, Unparse, MeaningAll, Meaning, Ranked;
    FirstItem(rank, todo, defs);
    ShorterLead(rank, todo[0], defs);
    var shorter := [todo[0].(hash := DropLead(todo[0].hash))] + todo[1..];
    assert shorter[1..] == todo[1..];
    GoodFirst(rank, shorter);
    FirstItem(rank, shorter, defs);
  }

  lemma GoodFirst(rank: Rank, items: seq<Item>)
    requires items != [] && Good(rank, items[0]) && GoodAll(rank, items[1..])
    ensures GoodAll(rank, items)
  {
  }

  // -------- Directives --------

  /** What follows the word of a directive. */
  function AfterWord(item: Item, tail: seq<Token>): seq<Token>
    requires !item.Text?
  {
    Operands(item) + (LineTokens(item.end) + tail)
  }

  function ItemTail(v: View): seq<Token>
    requires v.todo != []
  {
    UnparseAll(v.todo[1..]) + ClosingTokens(v.closing)
  }

  /** After a directive the cursor is on the rest of its line. */
  function AfterItem(v: View): View
    requires v.todo != [] && !v.todo[0].Text?
  {
    View(LineTokens(v.todo[0].end), v.todo[1..], v.closing)
  }

  /** After a directive that was skipped up to the newline. */
  function AtNewline(v: View): View
    requires v.todo != [] && !v.todo[0].Text?
  {
    View([v.todo[0].end.nl], v.todo[1..], v.closing)
  }

  lemma MeetItem(rank: Rank, v: View, defs: seq<Def>)
    requires Ranked(rank, defs) && GoodView(rank, v) && AtItem(v)
    ensures var item := v.todo[0];
            && Good(rank, item) && GoodHash(item.hash) && GoodEnd(item.end)
            && GoodView(rank, AfterItem(v)) && Flags(AfterItem(v), true, true)
  {
    hide GoodAll, Good, UnparseAll, Unparse, MeaningAll, Meaning, Ranked;
    var item := v.todo[0];
    FirstItem(rank, v.todo, defs);
    DirectiveItem(rank, item, defs);
    var line := LineTokens(item.end);
    assert line[..|line| - 1] == item.end.tokens;
  }

  lemma ItemTokens(rank: Rank, v: View, defs: seq<Def>)
    requires Ranked(rank, defs) && GoodView(rank, v) && AtItem(v)
    ensures var item := v.todo[0];
            && ViewTokens(v) == [HASH] + (item.hash.gap + ([Keyword(WordOf(item))] + AfterWord(item, ItemTail(v))))
            && ViewTokens(AfterItem(v)) == LineTokens(item.end) + ItemTail(v)
  {
    hide GoodAll, Good, UnparseAll, Unparse, MeaningAll, Meaning, Ranked, Operands, WordOf, LineTokens, ClosingTokens;
    var item := v.todo[0];
    FirstItem(rank, v.todo, defs);
    DirectiveItem(rank, item, defs);
    ItemConcat(item.hash.gap, Keyword(WordOf(item)), Operands(item), LineTokens(item.end), ItemTail(v));
  }

  lemma ItemConcat(gap: seq<Token>, word: Token, operands: seq<Token>, line: seq<Token>, tail: seq<Token>)
    ensures [] + [HASH] + gap + [word] + operands + line + tail
            == [HASH] + (gap + ([word] + (operands + (line + tail))))
  {
  }

  lemma ItemFuture(rank: Rank, v: View, defs: seq<Def>)
    requires Ranked(rank, defs) && GoodView(rank, v) && AtItem(v)
    requires Good(rank, v.todo[0]) && GoodEnd(v.todo[0].end) && GoodView(rank, AfterItem(v))
    ensures var inner := Inner(rank, v.todo[0], defs);
            && Future(rank, v, defs).0 == inner.0 + Future(rank, AfterItem(v), inner.1).0
            && Future(rank, v, defs).1 == Future(rank, AfterItem(v), inner.1).1
  {
    hide GoodAll, Good, UnparseAll, Unparse, MeaningAll, Meaning, ExpandAll, Ranked, Inner, Operands, WordOf, ClosingLead;
    var item := v.todo[0];
    FirstItem(rank, v.todo, defs);
    DirectiveItem(rank, item, defs);
    NoItems(rank, defs);
    SpacesExpand(rank, Inner(rank, item, defs).1, item.end.tokens, item.end.nl);
  }

  /** White space and a newline come out as they are. */
  lemma {:induction false} SpacesExpand(rank: Rank, defs: seq<Def>, ts: seq<Token>, nl: Token)
    requires Ranked(rank, defs) && AllSpace(ts) && nl.kind.Newline?
    ensures ExpandAll(rank, defs, ts + [nl]) == ts + [nl]
  {
    var line := ts + [nl];
    NoItems(rank, defs);
    if ts == [] {
      assert line[1..] == [];
    } else {
      SpacesExpand(rank, defs, ts[1..], nl);
      assert line[1..] == ts[1..] + [nl];
    }
  }

  lemma MeetClosing(rank: Rank, v: View, defs: seq<Def>)
    requires Ranked(rank, defs) && GoodView(rank, v) && AtClosing(v)
    ensures v.closing.Top? ==> ViewTokens(v) == Beyond(v.closing)
    ensures v.closing.Closed? ==> ViewTokens(v) == [HASH] + (v.closing.hash.gap + Beyond(v.closing))
    ensures Future(rank, v, defs).0 == [] && Future(rank, v, defs).1 == defs
  {
    hide GoodAll, UnparseAll, MeaningAll, ExpandAll, Ranked;
    NoItems(rank, defs);
  }

  // -------- One round of the loop --------

  function HeadOf(v: View): Token
    requires IsLoaded(v) && (v.cur == [] && !AtItem(v) && !AtClosing(v) ==> LeadOf(v) != [])
  {
    if v.cur != [] then v.cur[0]
    else if AtItem(v) || AtClosing(v) then (if v.todo == [] && v.closing.Top? then END else HASH)
    else LeadOf(v)[0]
  }

  /** The flags after a token that is not the start of a directive. */
  lemma Advance(rank: Rank, v: View, defs: seq<Def>, newline: bool, directiveLine: bool)
    requires Ranked(rank, defs) && GoodView(rank, v) && IsLoaded(v) && Flags(v, newline, directiveLine)
    requires !AtItem(v) && !AtClosing(v)
    ensures v.cur == [] ==> LeadOf(v) != []
    ensures GoodView(rank, Next(v)) && ViewTokens(v) == [HeadOf(v)] + ViewTokens(Next(v))
    ensures Future(rank, v, defs).0 == Expand(rank, defs, HeadOf(v)) + Future(rank, Next(v), defs).0
    ensures Future(rank, v, defs).1 == Future(rank, Next(v), defs).1
    ensures Beyond(Next(v).closing) == Beyond(v.closing) && (Next(v).closing.Closed? <==> v.closing.Closed?)
    ensures var head := HeadOf(v);
            && !head.kind.NoToken?
            && (head.kind.SpaceTab? || head.kind.Newline?
                || (!directiveLine && (newline ==> FirstChar(head) != '#')))
            && Flags(Next(v), head.kind.Newline? || (head.kind.SpaceTab? && newline),
                     !head.kind.Newline? && directiveLine)
  {
    hide GoodAll, UnparseAll, MeaningAll, Expand, ExpandAll, Ranked, Future, ViewTokens;
    if v.cur != [] {
      NextInLine(rank, v, defs);
      assert v.cur[0].kind.Newline? || v.cur[..|v.cur| - 1][0] == v.cur[0];
      assert |v.cur| > 1 ==> v.cur[1..][..|v.cur| - 2] == v.cur[..|v.cur| - 1][1..];
    } else {
      NextInLead(rank, v, defs);
      NotAName(rank, defs, LeadOf(v)[0]);
    }
  }

  lemma NotAName(rank: Rank, defs: seq<Def>, t: Token)
    requires Ranked(rank, defs) && !t.kind.Name?
    ensures Expand(rank, defs, t) == [t]
  {
  }
}

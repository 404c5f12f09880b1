/**
  The preprocessor over the token array of one file: mutually recursive procedures that move a cursor,
  collect tokens, and keep the table of definitions and the flag that says whether input is skipped.
 */
module CfPreprocess {
  import opened CfProgram
  import opened CfView

  datatype Error =
    | ExpectedNewline | ExpectedIdentifier | ExpectedString | InvalidString | CouldNotOpen
    | UnexpectedEnd | OutsideBlock(word: string)

  /** Only the last token is the end of the file. */
  predicate Ended(text: seq<Token>) {
    text != [] && text[|text| - 1] == END && forall i :: 0 <= i < |text| - 1 ==> !text[i].kind.NoToken?
  }

  // -------- Cursor movements --------

  function SkipFrom(text: seq<Token>, at: nat): (r: nat)
    requires at <= |text|
    ensures at <= r <= |text|
    decreases |text| - at
  {
    if at < |text| && text[at].kind.SpaceTab? then SkipFrom(text, at + 1) else at
  }

  function LineEnd(text: seq<Token>, at: nat): (r: nat)
    requires at <= |text|
    ensures at <= r <= |text|
    decreases |text| - at
  {
    if at < |text| && !text[at].kind.Newline? && !text[at].kind.NoToken? then LineEnd(text, at + 1) else at
  }

  lemma {:induction false} SkipGap(text: seq<Token>, at: nat, gap: seq<Token>, rest: seq<Token>)
    requires at <= |text| && text[at..] == gap + rest
    requires AllSpace(gap) && rest != [] && !rest[0].kind.SpaceTab?
    ensures SkipFrom(text, at) == at + |gap| < |text| && text[SkipFrom(text, at)..] == rest
    decreases |gap|
  {
    if gap == [] {
      assert text[at] == text[at..][0];
    } else {
      assert text[at] == text[at..][0];
      assert text[at + 1..] == text[at..][1..] == gap[1..] + rest;
      SkipGap(text, at + 1, gap[1..], rest);
    }
  }

  lemma {:induction false} LineOf(text: seq<Token>, at: nat, line: seq<Token>, rest: seq<Token>)
    requires at <= |text| && text[at..] == line + rest
    requires Inline(line) && rest != [] && rest[0].kind.Newline?
    ensures LineEnd(text, at) == at + |line| < |text| && text[LineEnd(text, at)..] == rest
    ensures text[at..LineEnd(text, at)] == line
    decreases |line|
  {
    if line == [] {
      assert text[at] == text[at..][0];
    } else {
      assert text[at] == text[at..][0];
      assert text[at + 1..] == text[at..][1..] == line[1..] + rest;
      LineOf(text, at + 1, line[1..], rest);
      assert text[at..LineEnd(text, at)] == [text[at]] + text[at + 1..LineEnd(text, at)];
    }
  }

  lemma StepOver(text: seq<Token>, at: nat, t: Token, rest: seq<Token>)
    requires at <= |text| && text[at..] == [t] + rest
    ensures at < |text| && text[at] == t && text[at + 1..] == rest
  {
    assert text[at] == text[at..][0];
    assert text[at + 1..] == text[at..][1..];
  }

  /** The rest of a directive of well-nested text, seen from its word. */
  ghost predicate Faces(text: seq<Token>, at: nat, item: Item, tail: seq<Token>)
    requires !item.Text?
  {
    at < |text| && text[at..] == [Keyword(WordOf(item))] + AfterWord(item, tail)
  }

  lemma NameAhead(text: seq<Token>, at: nat, word: Token, gap: seq<Token>, name: string, rest: seq<Token>)
    requires at <= |text| && text[at..] == [word] + (gap + ([Keyword(name)] + rest)) && AllSpace(gap)
    ensures at < |text|
    ensures var j := SkipFrom(text, at + 1);
            j < |text| && text[j] == Keyword(name) && text[j + 1..] == rest
  {
    var fromName := [Keyword(name)] + rest;
    StepOver(text, at, word, gap + fromName);
    SkipGap(text, at + 1, gap, fromName);
    StepOver(text, SkipFrom(text, at + 1), Keyword(name), rest);
  }

  lemma DefineTokens(item: Item, tail: seq<Token>)
    requires item.Define?
    ensures AfterWord(item, tail) == item.gap + ([Keyword(item.name)] + (item.gap2 + (item.body + (LineTokens(item.end) + tail))))
  {
  }

  lemma DefineAhead(rank: Rank, text: seq<Token>, at: nat, item: Item, tail: seq<Token>)
    requires item.Define? && Good(rank, item) && Faces(text, at, item, tail)
    ensures var j := SkipFrom(text, at + 1);
            && j < |text| && text[j] == Keyword(item.name)
            && var p := SkipFrom(text, j + 1);
               && p < |text| && !text[p].kind.NoToken?
               && text[p..LineEnd(text, p)] == item.body
               && text[LineEnd(text, p)..] == LineTokens(item.end) + tail
  {
    hide AfterWord;
    var line := LineTokens(item.end) + tail;
    DefineTokens(item, tail);
    NameAhead(text, at, Keyword("define"), item.gap, item.name, item.gap2 + (item.body + line));
    var j := SkipFrom(text, at + 1);
    SkipGap(text, j + 1, item.gap2, item.body + line);
    LineOf(text, SkipFrom(text, j + 1), item.body, line);
  }

  lemma DefineSkipped(rank: Rank, text: seq<Token>, at: nat, item: Item, tail: seq<Token>)
    requires item.Define? && Good(rank, item) && Faces(text, at, item, tail)
    ensures text[LineEnd(text, at)..] == LineTokens(item.end) + tail
  {
    hide AfterWord;
    var line := LineTokens(item.end) + tail;
    DefineTokens(item, tail);
    var whole := [Keyword("define")] + item.gap + [Keyword(item.name)] + item.gap2 + item.body;
    assert text[at..] == whole + line;
    LineOf(text, at, whole, line);
  }

  lemma UndefTokens(item: Item, tail: seq<Token>)
    requires item.Undef?
    ensures AfterWord(item, tail) == item.gap + ([Keyword(item.name)] + (LineTokens(item.end) + tail))
  {
  }

  lemma UndefAhead(rank: Rank, text: seq<Token>, at: nat, item: Item, tail: seq<Token>)
    requires item.Undef? && Good(rank, item) && Faces(text, at, item, tail)
    ensures var j := SkipFrom(text, at + 1);
            j < |text| && text[j] == Keyword(item.name) && text[j + 1..] == LineTokens(item.end) + tail
  {
    hide AfterWord;
    UndefTokens(item, tail);
    NameAhead(text, at, Keyword("undef"), item.gap, item.name, LineTokens(item.end) + tail);
  }

  lemma UndefSkipped(rank: Rank, text: seq<Token>, at: nat, item: Item, tail: seq<Token>)
    requires item.Undef? && Good(rank, item) && Faces(text, at, item, tail)
    ensures text[LineEnd(text, at)..] == [item.end.nl] + tail
  {
    hide AfterWord;
    UndefTokens(item, tail);
    var whole := [Keyword("undef")] + item.gap + [Keyword(item.name)] + item.end.tokens;
    assert text[at..] == whole + ([item.end.nl] + tail);
    LineOf(text, at, whole, [item.end.nl] + tail);
  }

  /** Behind the branches of a conditional. */
  function AfterTaken(item: Item, tail: seq<Token>): seq<Token>
    requires item.Cond?
  {
    (if item.orElse.Else? then UnparseBranch(item.orElse.branch, "endif") else []) + (LineTokens(item.end) + tail)
  }

  function ClosingWord(item: Item): string
    requires item.Cond?
  {
    if item.orElse.Else? then "else" else "endif"
  }

  lemma CondAhead(rank: Rank, text: seq<Token>, at: nat, item: Item, tail: seq<Token>)
    requires item.Cond? && Good(rank, item) && Faces(text, at, item, tail)
    ensures var j := SkipFrom(text, at + 1);
            && j < |text| && text[j] == Keyword(item.name)
            && text[j + 1..] == UnparseBranch(item.taken, ClosingWord(item)) + AfterTaken(item, tail)
  {
    hide AfterWord, UnparseBranch;
    CondTokens(item, tail);
    NameAhead(text, at, Keyword(WordOf(item)), item.gap, item.name,
              UnparseBranch(item.taken, ClosingWord(item)) + AfterTaken(item, tail));
  }

  lemma CondTokens(item: Item, tail: seq<Token>)
    requires item.Cond?
    ensures AfterWord(item, tail)
            == item.gap + ([Keyword(item.name)] + (UnparseBranch(item.taken, ClosingWord(item)) + AfterTaken(item, tail)))
  {
    hide UnparseBranch, LineTokens;
    var branches := match item.orElse
      case NoElse => UnparseBranch(item.taken, "endif")
      case Else(branch) => UnparseBranch(item.taken, "else") + UnparseBranch(branch, "endif");
    assert Operands(item) == item.gap + [Keyword(item.name)] + branches;
    assert branches + (LineTokens(item.end) + tail)
        == UnparseBranch(item.taken, ClosingWord(item)) + AfterTaken(item, tail);
  }

  // -------- Which text can be preprocessed --------

  /**
    Every definition in the text is object-like, and the names in its body rank below its own: `h` is where
    the pound sign is.
   */
  ghost predicate DefineFits(rank: Rank, text: seq<Token>, h: nat)
    requires h < |text|
  {
    var i := SkipFrom(text, h + 1);
    i < |text| && text[i].text == "define" ==>
      var j := SkipFrom(text, i + 1);
      j < |text| && text[j].kind.Name? ==>
        var p := SkipFrom(text, j + 1);
        && (p < |text| ==> FirstChar(text[p]) != '(')
        && MaxLevel(rank, [SPACE] + text[p..LineEnd(text, p)]) < rank(text[j].text)
  }

  ghost predicate Suitable(rank: Rank, text: seq<Token>) {
    forall h :: 0 <= h < |text| && FirstChar(text[h]) == '#' ==> DefineFits(rank, text, h)
  }

  /**
    What is known of the text ahead: nothing but that its definitions are suitable; or an item; or the word
    that ends the block.
   */
  datatype Task = Unknown(h: nat) | This(item: Item, tail: seq<Token>) | Ending

  ghost predicate Expected(rank: Rank, text: seq<Token>, at: nat, task: Task) {
    match task
    case Unknown(h) => Suitable(rank, text) && h < |text| && FirstChar(text[h]) == '#' && at == SkipFrom(text, h + 1)
    case This(item, tail) => !item.Text? && Good(rank, item) && Faces(text, at, item, tail)
    case Ending => at < |text| && EndsBranch(text[at])
  }

  lemma ExtendedRanked(rank: Rank, defs: seq<Def>, name: string, body: seq<Token>)
    requires Ranked(rank, defs) && MaxLevel(rank, [SPACE] + body) < rank(name)
    ensures Ranked(rank, Extended(defs, name, body))
  {
  }

  lemma RemoveRanked(rank: Rank, defs: seq<Def>, name: string)
    requires Ranked(rank, defs)
    ensures Ranked(rank, Remove(defs, name))
  {
  }

  /** What a definition needs of the text, whichever way it is known. */
  lemma DefineFacts(rank: Rank, text: seq<Token>, at: nat, task: Task)
    requires at < |text| && text[at].text == "define" && Expected(rank, text, at, task)
    requires task.This? ==> task.item.Define?
    ensures var j := SkipFrom(text, at + 1);
            j < |text| && text[j].kind.Name? ==>
              var p := SkipFrom(text, j + 1);
              MaxLevel(rank, [SPACE] + text[p..LineEnd(text, p)]) < rank(text[j].text)
  {
    if task.This? {
      DefineAhead(rank, text, at, task.item, task.tail);
    } else {
      assert DefineFits(rank, text, task.h);
    }
  }

  // -------- Tables of macros --------

  lemma NotDefinedSnoc(tokens: seq<Token>, atUse: seq<seq<Def>>, t: Token, defs: seq<Def>)
    requires NotDefinedAtUse(tokens, atUse) && (t.kind.Name? ==> !Defined(defs, t.text))
    ensures NotDefinedAtUse(tokens + [t], atUse + [defs])
  {
  }

  /** No name that came out was a macro at that moment. */
  ghost predicate NotDefinedAtUse(tokens: seq<Token>, atUse: seq<seq<Def>>) {
    |atUse| == |tokens|
    && forall i :: 0 <= i < |tokens| && tokens[i].kind.Name? ==> !Defined(atUse[i], tokens[i].text)
  }

  lemma ExpandIs(rank: Rank, defs: seq<Def>, t: Token)
    requires Ranked(rank, defs)
    ensures Expand(rank, defs, t)
            == if t.kind.Name? && Defined(defs, t.text) then ExpandAll(rank, defs, defs[Lookup(defs, t.text)].body) else [t]
    ensures t.kind.Name? && Defined(defs, t.text) ==>
              MaxLevel(rank, defs[Lookup(defs, t.text)].body) < Level(rank, t)
    ensures ExpandAll(rank, defs, []) == []
  {
  }

  // -------- Directives --------

  lemma UnknownExpected(rank: Rank, text: seq<Token>, h: nat, at: nat)
    requires Suitable(rank, text) && h < |text| && FirstChar(text[h]) == '#' && at == SkipFrom(text, h + 1)
    ensures Expected(rank, text, at, Unknown(h))
  {
    hide Suitable, SkipFrom;
  }

  lemma UnknownFacts(rank: Rank, text: seq<Token>, at: nat, task: Task)
    requires Expected(rank, text, at, task) && task.Unknown?
    ensures Suitable(rank, text)
  {
  }

  lemma DefinedIs(defs: seq<Def>, name: string)
    ensures Defined(defs, name) <==> Lookup(defs, name) < |defs|
  {
  }

  lemma CondFacts(rank: Rank, text: seq<Token>, at: nat, task: Task, defs: seq<Def>)
    requires Expected(rank, text, at, task) && task.This? && task.item.Cond? && Ranked(rank, defs)
    ensures var item := task.item; var j := SkipFrom(text, at + 1);
            && at < |text| && Good(rank, item) && GoodBranch(rank, item.taken)
            && (item.orElse.Else? ==> GoodBranch(rank, item.orElse.branch))
            && j < |text| && text[j] == Keyword(item.name)
            && FacesBranch(rank, text, j, item.taken, ClosingWord(item), AfterTaken(item, task.tail))
            && (item.orElse.NoElse? ==> AfterTaken(item, task.tail) == LineTokens(item.end) + task.tail)
    ensures var item := task.item;
            Inner(rank, item, defs)
            == if Defined(defs, item.name) != item.ifnot then BranchMeaning(rank, item.taken, defs)
               else if item.orElse.Else? then BranchMeaning(rank, item.orElse.branch, defs)
               else ([], defs)
  {
    hide SkipFrom, UnparseBranch, BranchMeaning, GoodBranch;
    CondAhead(rank, text, at, task.item, task.tail);
    assert [] + (LineTokens(task.item.end) + task.tail) == LineTokens(task.item.end) + task.tail;
  }

  lemma ElseFacts(rank: Rank, text: seq<Token>, pos: nat, item: Item, tail: seq<Token>)
    requires item.Cond? && item.orElse.Else? && GoodBranch(rank, item.orElse.branch)
    requires pos < |text| && text[pos + 1..] == AfterTaken(item, tail)
    ensures FacesBranch(rank, text, pos, item.orElse.branch, "endif", LineTokens(item.end) + tail)
  {
  }

  /** Which directive the word is, and what it does to the definitions. */
  lemma DirectiveFacts(rank: Rank, text: seq<Token>, at: nat, task: Task, defs: seq<Def>)
    requires at < |text| && Expected(rank, text, at, task) && Ranked(rank, defs)
    ensures task.This? ==>
              var item := task.item;
              && !item.Text? && Good(rank, item) && text[at].kind.Name? && text[at].text == WordOf(item)
              && (item.Define? ==> Inner(rank, item, defs) == ([], Extended(defs, item.name, item.body)))
              && (item.Undef? ==> Inner(rank, item, defs) == ([], Remove(defs, item.name)))
              && LineTokens(Line([], item.end.nl)) == [item.end.nl]
    ensures task.Ending? ==> text[at].text == "else" || text[at].text == "endif"
  {
    if task.This? {
      StepOver(text, at, Keyword(WordOf(task.item)), AfterWord(task.item, task.tail));
    }
  }

  lemma WholeFile(rank: Rank, items: seq<Item>, out: seq<Token>, defs: seq<Def>)
    requires GoodAll(rank, items) && Ranked(rank, defs)
    ensures var v := View([], items, Top);
            && ViewTokens(v) == UnparseAll(items) + [END] && GoodView(rank, v) && Flags(v, true, false)
            && Future(rank, v, defs).0 == MeaningAll(rank, items, defs).0
            && Future(rank, v, defs).1 == MeaningAll(rank, items, defs).1
  {
    hide GoodAll, MeaningAll, UnparseAll, Ranked;
    NoItems(rank, defs);
  }

  // -------- The main loop --------

  /** What is left of the line of a directive; an `undef` that is skipped is skipped to the newline. */
  function LeftOf(item: Item, ignoring: bool): Line
    requires !item.Text?
  {
    if ignoring && item.Undef? then Line([], item.end.nl) else item.end
  }

  /** What the loop is about to do, where it meets a pound sign that starts a directive. */
  function TaskOf(v: View): Task {
    if v.todo != [] then This(v.todo[0], ItemTail(v)) else Ending
  }

  function AfterDirective(v: View, ignoring: bool): View
    requires v.todo != [] && !v.todo[0].Text?
  {
    if ignoring && v.todo[0].Undef? then AtNewline(v) else AfterItem(v)
  }

  /** The view is what the loop sees. */
  ghost predicate Tracks(rank: Rank, text: seq<Token>, pos: nat, v: View, newline: bool, directiveLine: bool,
                         ifBlock: bool, beyond: seq<Token>) {
    && pos < |text| && text[pos..] == ViewTokens(v) && GoodView(rank, v) && Flags(v, newline, directiveLine)
    && (v.closing.Closed? <==> ifBlock) && Beyond(v.closing) == beyond
  }

  ghost function Promise(rank: Rank, v: View, out: seq<Token>, defs: seq<Def>): (seq<Token>, seq<Def>)
    requires Ranked(rank, defs) && GoodView(rank, v)
  {
    (out + Future(rank, v, defs).0, Future(rank, v, defs).1)
  }

  /** What has come out so far and what the view still holds make up the total. */
  ghost predicate Owes(rank: Rank, total: (seq<Token>, seq<Def>), v: View, out: seq<Token>, defs: seq<Def>) {
    && Ranked(rank, defs) && GoodView(rank, v)
    && total.0 == out + Future(rank, v, defs).0 && total.1 == Future(rank, v, defs).1
  }

  lemma Start(rank: Rank, text: seq<Token>, at: nat, v: View, out: seq<Token>, defs: seq<Def>, ifBlock: bool)
    requires Ranked(rank, defs) && at < |text| && text[at..] == ViewTokens(v) && GoodView(rank, v)
    requires Flags(v, true, ifBlock) && (v.closing.Closed? <==> ifBlock)
    ensures Tracks(rank, text, at, v, true, ifBlock, ifBlock, Beyond(v.closing))
    ensures Owes(rank, Promise(rank, v, out, defs), v, out, defs)
  {
  }

  lemma RoundLoad(rank: Rank, text: seq<Token>, pos: nat, v: View, newline: bool, directiveLine: bool,
                  ifBlock: bool, beyond: seq<Token>, total: (seq<Token>, seq<Def>), out: seq<Token>, defs: seq<Def>)
    requires Ranked(rank, defs) && Tracks(rank, text, pos, v, newline, directiveLine, ifBlock, beyond)
    ensures IsLoaded(Loaded(v)) && Tracks(rank, text, pos, Loaded(v), newline, directiveLine, ifBlock, beyond)
    ensures Owes(rank, total, v, out, defs) ==> Owes(rank, total, Loaded(v), out, defs)
  {
    hide GoodView, ViewTokens, Future, Ranked;
    Loading(rank, v, defs);
  }

  /** The view is on white space or text. */
  lemma RoundToken(rank: Rank, text: seq<Token>, pos: nat, v: View, newline: bool, directiveLine: bool,
                   ifBlock: bool, beyond: seq<Token>, total: (seq<Token>, seq<Def>), out: seq<Token>, defs: seq<Def>)
    requires Ranked(rank, defs) && Tracks(rank, text, pos, v, newline, directiveLine, ifBlock, beyond)
    requires IsLoaded(v) && !AtItem(v) && !AtClosing(v)
    ensures var t := text[pos];
            && !t.kind.NoToken?
            && (t.kind.SpaceTab? || t.kind.Newline? || (!directiveLine && (newline ==> FirstChar(t) != '#')))
            && (pos + 1 < |text| ==>
                  Tracks(rank, text, pos + 1, Next(v), t.kind.Newline? || (t.kind.SpaceTab? && newline),
                         !t.kind.Newline? && directiveLine, ifBlock, beyond))
    ensures Owes(rank, total, v, out, defs) ==> Owes(rank, total, Next(v), out + Expand(rank, defs, text[pos]), defs)
  {
    hide GoodView, ViewTokens, Flags, Future, Expand, Ranked, Beyond, AtItem, AtClosing, IsLoaded, Next;
    Advance(rank, v, defs, newline, directiveLine);
    StepOver(text, pos, HeadOf(v), ViewTokens(Next(v)));
  }

  /** The view is on a pound sign: that of an item, or that of the word that ends the block. */
  lemma RoundHash(rank: Rank, text: seq<Token>, pos: nat, v: View, newline: bool, directiveLine: bool,
                  ifBlock: bool, beyond: seq<Token>, total: (seq<Token>, seq<Def>), out: seq<Token>, defs: seq<Def>)
    requires Ranked(rank, defs) && Tracks(rank, text, pos, v, newline, directiveLine, ifBlock, beyond)
    requires IsLoaded(v) && (AtItem(v) || AtClosing(v)) && !text[pos].kind.NoToken?
    ensures text[pos] == HASH && newline && !directiveLine
    ensures var next := SkipFrom(text, pos + 1);
            && next < |text| && Expected(rank, text, next, TaskOf(v))
            && GoodView(rank, v) && (v.closing.Closed? <==> ifBlock) && Beyond(v.closing) == beyond
            && if AtItem(v) then v.todo != [] && !v.todo[0].Text? && TaskOf(v) == This(v.todo[0], ItemTail(v))
               else
                 && TaskOf(v) == Ending && ifBlock && text[next..] == beyond
                 && (Owes(rank, total, v, out, defs) ==> total.0 == out && total.1 == defs)
  {
    hide Ranked, SkipFrom, Expected, Owes, TaskOf;
    if AtItem(v) {
      HashOfItem(rank, text, pos, v, defs) by { hide AtItem, AtClosing; }
    } else {
      HashOfEnd(rank, text, pos, v, total, out, defs);
    }
  }

  lemma HashOfItem(rank: Rank, text: seq<Token>, pos: nat, v: View, defs: seq<Def>)
    requires Ranked(rank, defs) && GoodView(rank, v) && AtItem(v) && pos < |text| && text[pos..] == ViewTokens(v)
    ensures text[pos] == HASH && TaskOf(v) == This(v.todo[0], ItemTail(v))
    ensures SkipFrom(text, pos + 1) < |text| && Expected(rank, text, SkipFrom(text, pos + 1), TaskOf(v))
  {
    hide ViewTokens, GoodView, Good, Ranked, SkipFrom, AfterWord, WordOf;
    MeetItem(rank, v, defs);
    ItemTokens(rank, v, defs);
    var item := v.todo[0];
    FacesHash(text, pos, item.hash.gap, [Keyword(WordOf(item))] + AfterWord(item, ItemTail(v)));
  }

  lemma HashOfEnd(rank: Rank, text: seq<Token>, pos: nat, v: View, total: (seq<Token>, seq<Def>), out: seq<Token>,
                  defs: seq<Def>)
    requires Ranked(rank, defs) && GoodView(rank, v) && AtClosing(v) && pos < |text| && text[pos..] == ViewTokens(v)
    requires !text[pos].kind.NoToken?
    ensures text[pos] == HASH && TaskOf(v) == Ending && v.closing.Closed?
    ensures var next := SkipFrom(text, pos + 1);
            next < |text| && Expected(rank, text, next, TaskOf(v)) && text[next..] == Beyond(v.closing)
    ensures Owes(rank, total, v, out, defs) ==> total.0 == out && total.1 == defs
  {
    hide ViewTokens, Ranked, SkipFrom, Future, GoodAll;
    MeetClosing(rank, v, defs);
    if v.closing.Closed? {
      FacesHash(text, pos, v.closing.hash.gap, Beyond(v.closing));
      StepOver(text, SkipFrom(text, pos + 1), Keyword(v.closing.word), v.closing.rest);
    } else {
      StepOver(text, pos, END, []);
    }
  }

  lemma FacesHash(text: seq<Token>, pos: nat, gap: seq<Token>, rest: seq<Token>)
    requires pos <= |text| && text[pos..] == [HASH] + (gap + rest) && AllSpace(gap)
    requires rest != [] && !rest[0].kind.SpaceTab?
    ensures pos < |text| && text[pos] == HASH
    ensures SkipFrom(text, pos + 1) < |text| && text[SkipFrom(text, pos + 1)..] == rest
  {
    StepOver(text, pos, HASH, gap + rest);
    SkipGap(text, pos + 1, gap, rest);
  }

  /** What a directive leaves behind. */
  lemma RoundItem(rank: Rank, text: seq<Token>, pos: nat, v: View, ifBlock: bool, beyond: seq<Token>,
                  total: (seq<Token>, seq<Def>), out: seq<Token>, defs: seq<Def>, ignoring: bool)
    requires Ranked(rank, defs) && GoodView(rank, v) && AtItem(v) && pos < |text|
    requires (v.closing.Closed? <==> ifBlock) && Beyond(v.closing) == beyond
    requires text[pos..] == LineTokens(LeftOf(v.todo[0], ignoring)) + ItemTail(v)
    ensures Good(rank, v.todo[0])
    ensures Tracks(rank, text, pos, AfterDirective(v, ignoring), true, true, ifBlock, beyond)
    ensures !ignoring && Owes(rank, total, v, out, defs) ==>
              var inner := Inner(rank, v.todo[0], defs);
              Owes(rank, total, AfterDirective(v, ignoring), out + inner.0, inner.1)
  {
    hide Good, GoodAll, UnparseAll, Ranked, Inner, Future, ClosingTokens;
    MeetItem(rank, v, defs);
    ItemFuture(rank, v, defs);
  }

  lemma Finished(rank: Rank, text: seq<Token>, pos: nat, v: View, newline: bool, directiveLine: bool,
                 ifBlock: bool, beyond: seq<Token>, total: (seq<Token>, seq<Def>), out: seq<Token>, defs: seq<Def>)
    requires Ranked(rank, defs) && Tracks(rank, text, pos, v, newline, directiveLine, ifBlock, beyond)
    requires text[pos].kind.NoToken?
    ensures text[pos..] == beyond
    ensures Owes(rank, total, v, out, defs) ==> total.0 == out && total.1 == defs
  {
    RoundLoad(rank, text, pos, v, newline, directiveLine, ifBlock, beyond, total, out, defs);
    FinishedLoaded(rank, text, pos, Loaded(v), newline, directiveLine, ifBlock, beyond, total, out, defs);
  }

  lemma FinishedLoaded(rank: Rank, text: seq<Token>, pos: nat, v: View, newline: bool, directiveLine: bool,
                       ifBlock: bool, beyond: seq<Token>, total: (seq<Token>, seq<Def>), out: seq<Token>, defs: seq<Def>)
    requires Ranked(rank, defs) && Tracks(rank, text, pos, v, newline, directiveLine, ifBlock, beyond) && IsLoaded(v)
    requires text[pos].kind.NoToken?
    ensures text[pos..] == beyond
    ensures Owes(rank, total, v, out, defs) ==> total.0 == out && total.1 == defs
  {
    hide ViewTokens, GoodAll, Ranked, Future, Flags;
    NotTheEnd(rank, text, pos, v, newline, directiveLine, ifBlock, beyond, defs);
    MeetClosing(rank, v, defs);
  }

  lemma NotTheEnd(rank: Rank, text: seq<Token>, pos: nat, v: View, newline: bool, directiveLine: bool,
                  ifBlock: bool, beyond: seq<Token>, defs: seq<Def>)
    requires Ranked(rank, defs) && Tracks(rank, text, pos, v, newline, directiveLine, ifBlock, beyond) && IsLoaded(v)
    ensures !AtClosing(v) || v.closing.Closed? ==> !text[pos].kind.NoToken?
  {
    hide ViewTokens, Good, GoodAll, Ranked, AfterWord, Future, Flags;
    assert text[pos] == text[pos..][0];
    if AtItem(v) {
      ItemTokens(rank, v, defs);
    } else if AtClosing(v) {
      MeetClosing(rank, v, defs);
    } else {
      Advance(rank, v, defs, newline, directiveLine);
    }
  }

  predicate EndsBranch(t: Token) {
    !t.kind.NoToken? && (t.text == "else" || t.text == "endif")
  }

  ghost predicate FacesBranch(rank: Rank, text: seq<Token>, at: nat, branch: Branch, word: string, rest: seq<Token>) {
    && at < |text| && GoodBranch(rank, branch) && word in {"else", "endif"}
    && text[at + 1..] == UnparseBranch(branch, word) + rest
  }

  /** The inside of a branch, seen from the newline behind its first line. */
  function BranchView(branch: Branch, word: string, rest: seq<Token>): View {
    View([branch.nl], branch.items, Closed(branch.hash, word, rest))
  }

  lemma BranchAhead(rank: Rank, text: seq<Token>, at: nat, branch: Branch, word: string, rest: seq<Token>, defs: seq<Def>)
    requires FacesBranch(rank, text, at, branch, word, rest) && Ranked(rank, defs)
    ensures var v := BranchView(branch, word, rest); var j := SkipFrom(text, at + 1);
            && j < |text| && text[j] == branch.nl && branch.nl.kind.Newline? && text[j..] == ViewTokens(v)
            && GoodView(rank, v) && Flags(v, true, true)
            && Future(rank, v, defs).0 == BranchMeaning(rank, branch, defs).0
            && Future(rank, v, defs).1 == BranchMeaning(rank, branch, defs).1
  {
    hide GoodAll, UnparseAll, MeaningAll, ExpandAll, Ranked, SkipFrom, ViewTokens, Future, UnparseBranch, BranchMeaning;
    var v := BranchView(branch, word, rest);
    BranchTokens(branch, word, rest);
    SkipGap(text, at + 1, branch.gap, ViewTokens(v));
    assert text[SkipFrom(text, at + 1)] == text[SkipFrom(text, at + 1)..][0];
    BranchFuture(rank, branch, word, rest, defs);
  }

  lemma BranchTokens(branch: Branch, word: string, rest: seq<Token>)
    ensures ViewTokens(BranchView(branch, word, rest)) != []
    ensures ViewTokens(BranchView(branch, word, rest))[0] == branch.nl
    ensures UnparseBranch(branch, word) + rest == branch.gap + ViewTokens(BranchView(branch, word, rest))
  {
    hide HashTokens;
  }

  lemma BranchFuture(rank: Rank, branch: Branch, word: string, rest: seq<Token>, defs: seq<Def>)
    requires GoodBranch(rank, branch) && Ranked(rank, defs) && GoodView(rank, BranchView(branch, word, rest))
    ensures var v := BranchView(branch, word, rest);
            && Future(rank, v, defs).0 == BranchMeaning(rank, branch, defs).0
            && Future(rank, v, defs).1 == BranchMeaning(rank, branch, defs).1
  {
    hide GoodAll, MeaningAll, ExpandAll, Ranked;
    assert [] + [branch.nl] == [branch.nl];
    SpacesExpand(rank, defs, [], branch.nl);
  }

  lemma DefsExtend(defs: seq<Def>, name: string, body: seq<Token>)
    ensures defs + [Def(name, [SPACE] + body)] == Extended(defs, name, body)
  {
  }

  lemma LineGoesOn(text: seq<Token>, at: nat)
    requires at < |text| && !text[at].kind.Newline? && !text[at].kind.NoToken?
    ensures LineEnd(text, at) == LineEnd(text, at + 1)
  {
  }

  lemma LineStops(text: seq<Token>, at: nat)
    requires at < |text| && (text[at].kind.Newline? || text[at].kind.NoToken?)
    ensures LineEnd(text, at) == at
  {
  }

  lemma ExpectedItem(rank: Rank, text: seq<Token>, at: nat, task: Task)
    requires Expected(rank, text, at, task) && task.This?
    ensures Good(rank, task.item) && Faces(text, at, task.item, task.tail)
  {
  }

  lemma {:induction false} LookupIs(defs: seq<Def>, name: string, i: nat)
    requires i <= |defs| && (i < |defs| ==> defs[i].name == name)
    requires forall k :: 0 <= k < i ==> defs[k].name != name
    ensures Lookup(defs, name) == i
  {
    if i > 0 {
      LookupIs(defs[1..], name, i - 1);
    }
  }

  // -------- The preprocessor --------

  class Preprocessor {
    const text: seq<Token>
    ghost const rank: Rank
    var defines: seq<Def>
    var tokens: seq<Token>
    var ignoreState: bool
    var errors: seq<Error>
    /** For each token that came out, the definitions at that moment. */
    ghost var atUse: seq<seq<Def>>

    ghost predicate Valid()
      reads this
    {
      && Ended(text) && Ranked(rank, defines)
      && NotDefinedAtUse(tokens, atUse)
    }

    constructor (ghost rank: Rank, text: seq<Token>)
      requires Ended(text)
      ensures Valid() && this.rank == rank && this.text == text
      ensures defines == [] && tokens == [] && errors == [] && !ignoreState
    {
      this.rank := rank;
      this.text := text;
      defines, tokens, errors, atUse := [], [], [], [];
      ignoreState := false;
    }

    method GetDefIdx(name: string) returns (i: nat)
      ensures i == Lookup(defines, name)
    {
      i := 0;
      while i < |defines| && defines[i].name != name
        invariant i <= |defines| && forall k :: 0 <= k < i ==> defines[k].name != name
      {
        i := i + 1;
      }
      LookupIs(defines, name, i);
    }

    method AddToken(t: Token)
      requires Valid()
      modifies this`tokens, this`atUse
      ensures Valid()
      ensures tokens == old(tokens) + if ignoreState then [] else Expand(rank, defines, t)
      decreases Level(rank, t)
    {
      hide Expand, ExpandAll, Ranked, Lookup, NotDefinedAtUse;
      if ignoreState {
        return;
      }
      ExpandIs(rank, defines, t);
      if t.kind.Name? {
        var i := GetDefIdx(t.text);
        if i < |defines| {
          var body := defines[i].body;
          ghost var done: seq<Token> := [];
          for k := 0 to |body|
            invariant Valid() && tokens == old(tokens) + done
            invariant done == ExpandAll(rank, defines, body[..k])
          {
            AddToken(body[k]);
            ExpandSnoc(rank, defines, body, k);
            done := done + Expand(rank, defines, body[k]);
          }
          assert body[..|body|] == body;
          return;
        }
      }
      NotDefinedSnoc(tokens, atUse, t, defines);
      tokens, atUse := tokens + [t], atUse + [defines];
    }

    /** The next token that is not white space; it stays on the line, because newlines are tokens. */
    method NextToken(at: nat) returns (pos: nat)
      requires Ended(text) && at < |text|
      ensures pos < |text| && pos >= at
      ensures !text[at].kind.NoToken? ==> at < pos == SkipFrom(text, at + 1)
    {
      pos := at;
      if !text[pos].kind.NoToken? {
        pos := pos + 1;
      }
      while text[pos].kind.SpaceTab?
        invariant at <= pos < |text|
        invariant !text[at].kind.NoToken? ==> at < pos && SkipFrom(text, pos) == SkipFrom(text, at + 1)
        decreases |text| - pos
      {
        pos := pos + 1;
      }
    }

    method GoToNewline(at: nat) returns (pos: nat)
      requires Ended(text) && at < |text|
      ensures at <= pos < |text| && pos == LineEnd(text, at)
      ensures text[pos].kind.Newline? || text[pos].kind.NoToken?
    {
      pos := at;
      while !text[pos].kind.Newline? && !text[pos].kind.NoToken?
        invariant at <= pos < |text| && LineEnd(text, pos) == LineEnd(text, at)
        decreases |text| - pos
      {
        pos := pos + 1;
      }
    }

    /** The rest of the line behind the space that starts every body. */
    method DefineBody(at: nat) returns (pos: nat, body: seq<Token>)
      requires Ended(text) && at < |text|
      ensures at <= pos == LineEnd(text, at) < |text|
      ensures body == [SPACE] + text[at..pos]
    {
      hide LineEnd;
      pos, body := at, [SPACE];
      while !text[pos].kind.Newline? && !text[pos].kind.NoToken?
        invariant at <= pos < |text| && LineEnd(text, pos) == LineEnd(text, at)
        invariant body == [SPACE] + text[at..pos]
        decreases |text| - pos
      {
        LineGoesOn(text, pos);
        body := body + [text[pos]];
        pos := pos + 1;
      }
      LineStops(text, pos);
    }

    method PreprocessDefine(at: nat, ghost task: Task) returns (pos: nat)
      requires Valid() && at < |text| && text[at].text == "define" && !text[at].kind.NoToken?
      requires Expected(rank, text, at, task) && (task.This? ==> task.item.Define?)
      modifies this`defines, this`errors
      ensures Valid() && at <= pos < |text|
      ensures ignoreState ==> defines == old(defines)
      ensures task.This? ==>
                && errors == old(errors) && text[pos..] == LineTokens(task.item.end) + task.tail
                && (!ignoreState ==> defines == Extended(old(defines), task.item.name, task.item.body))
    {
      hide SkipFrom, LineEnd, MaxLevel, Good, Faces, NotDefinedAtUse, Expected, Ranked, Extended;
      if task.This? {
        DefineAhead(rank, text, at, task.item, task.tail) by { ExpectedItem(rank, text, at, task); }
        DefineSkipped(rank, text, at, task.item, task.tail) by { ExpectedItem(rank, text, at, task); }
      }
      DefineFacts(rank, text, at, task);
      if ignoreState {
        pos := GoToNewline(at);
        return;
      }
      pos := NextToken(at);
      if !text[pos].kind.Name? {
        errors := errors + [ExpectedIdentifier];
        pos := GoToNewline(pos);
        return;
      }
      var name := text[pos].text;
      pos := NextToken(pos);
      // a parenthesis here would make the macro function-like
      ghost var p := pos;
      var body;
      pos, body := DefineBody(pos);
      ExtendedRanked(rank, defines, name, text[p..pos]);
      DefsExtend(defines, name, text[p..pos]);
      defines := defines + [Def(name, body)];
    }

    method PreprocessUndef(at: nat, ghost task: Task) returns (pos: nat)
      requires Valid() && at < |text| && text[at].text == "undef" && !text[at].kind.NoToken?
      requires Expected(rank, text, at, task) && (task.This? ==> task.item.Undef?)
      modifies this`defines, this`errors
      ensures Valid() && at <= pos < |text|
      ensures ignoreState ==> defines == old(defines)
      ensures task.This? ==>
                && errors == old(errors)
                && text[pos..] == (if ignoreState then [task.item.end.nl] else LineTokens(task.item.end)) + task.tail
                && (!ignoreState ==> defines == Remove(old(defines), task.item.name))
    {
      hide SkipFrom, LineEnd, MaxLevel, Good, Faces, NotDefinedAtUse, Expected, Ranked, LineTokens;
      if task.This? {
        ExpectedItem(rank, text, at, task);
        UndefAhead(rank, text, at, task.item, task.tail);
        UndefSkipped(rank, text, at, task.item, task.tail);
      }
      if ignoreState {
        pos := GoToNewline(at);
        return;
      }
      pos := NextToken(at);
      if !text[pos].kind.Name? {
        errors := errors + [ExpectedIdentifier];
        pos := GoToNewline(pos);
        return;
      }
      var i := GetDefIdx(text[pos].text);
      RemoveRanked(rank, defines, text[pos].text);
      if i < |defines| {
        defines := defines[..i] + defines[i + 1..];
      }
      pos := pos + 1;
    }

    method PreprocessInclude(at: nat) returns (pos: nat)
      requires Valid() && at < |text| && !text[at].kind.NoToken?
      modifies this`errors
      ensures Valid() && at <= pos < |text|
    {
      if ignoreState {
        pos := GoToNewline(at);
        return;
      }
      pos := NextToken(at);
      var t := text[pos];
      if !t.kind.Str? {
        errors := errors + [ExpectedString];
        pos := GoToNewline(pos);
        return;
      }
      if |t.text| >= 2 && t.text[0] == '<' && t.text[|t.text| - 1] == '>' {
      } else if |t.text| >= 2 && t.text[0] == '"' && t.text[|t.text| - 1] == '"' {
        errors := errors + [CouldNotOpen];
      } else {
        errors := errors + [InvalidString];
        pos := GoToNewline(pos);
        return;
      }
      pos := pos + 1;
    }

    /** The tokens of one branch, up to the word that ends it. */
    method PreprocessSubblock(ignore: bool, at: nat, ghost known: bool, ghost branch: Branch, ghost word: string,
                              ghost rest: seq<Token>)
        returns (ok: bool, pos: nat)
      requires Valid() && at < |text| && !text[at].kind.NoToken?
      requires if known then FacesBranch(rank, text, at, branch, word, rest) else Suitable(rank, text)
      modifies this`defines, this`errors, this`tokens, this`atUse, this`ignoreState
      ensures Valid() && ignoreState == old(ignoreState) && at < pos < |text|
      ensures ok ==> EndsBranch(text[pos])
      ensures old(ignoreState) || ignore ==> tokens == old(tokens) && defines == old(defines)
      ensures known ==>
                && ok && text[pos..] == [Keyword(word)] + rest && errors == old(errors)
                && (!old(ignoreState) && !ignore ==>
                      var r := BranchMeaning(rank, branch, old(defines));
                      tokens == old(tokens) + r.0 && defines == r.1)
      decreases |text| - at, 1
    {
      hide SkipFrom, Good, GoodAll, Suitable, UnparseAll, NotDefinedAtUse, Ranked;
      ghost var v := BranchView(branch, word, rest);
      if known {
        BranchAhead(rank, text, at, branch, word, rest, defines);
      }
      pos := NextToken(at);
      if text[pos].kind.NoToken? {
        return false, pos;
      }
      if !ignoreState {
        ignoreState := ignore;
        pos := PreprocessTokens(true, pos, known, v);
        ignoreState := false;
      } else {
        pos := PreprocessTokens(true, pos, known, v);
      }
      ok := !text[pos].kind.NoToken?;
      if !ok {
        errors := errors + [UnexpectedEnd];
      }
    }

    method PreprocessTokens(ifBlock: bool, at: nat, ghost known: bool, ghost v0: View) returns (pos: nat)
      requires Valid() && at < |text|
      requires if known then text[at..] == ViewTokens(v0) && GoodView(rank, v0) && Flags(v0, true, ifBlock)
                             && (v0.closing.Closed? <==> ifBlock)
               else Suitable(rank, text)
      modifies this`defines, this`errors, this`tokens, this`atUse, this`ignoreState
      ensures Valid() && ignoreState == old(ignoreState) && at <= pos < |text|
      ensures text[pos].kind.NoToken? || (ifBlock && EndsBranch(text[pos]))
      ensures ignoreState ==> tokens == old(tokens) && defines == old(defines)
      ensures known ==>
                && text[pos..] == Beyond(v0.closing) && errors == old(errors)
                && (!ignoreState ==>
                      var r := Future(rank, v0, old(defines));
                      tokens == old(tokens) + r.0 && defines == r.1)
      decreases |text| - at, 4
    {
      hide SkipFrom, LineEnd, Suitable, NotDefinedAtUse, Ranked, Future, ViewTokens, Expand, Inner, Expected, Flags,
        GoodView, Beyond, AtItem, AtClosing, Loaded, Next, TaskOf, AfterDirective, LeftOf, LineTokens, Tracks, Owes;
      pos := at;
      var newline, directiveLine := true, ifBlock;
      ghost var v, beyond := v0, Beyond(v0.closing);
      ghost var total := if known then Promise(rank, v0, tokens, defines) else ([], []);
      if known {
        Start(rank, text, at, v0, tokens, defines, ifBlock);
      }
      while !text[pos].kind.NoToken?
        invariant Valid() && ignoreState == old(ignoreState) && at <= pos < |text|
        invariant ignoreState ==> tokens == old(tokens) && defines == old(defines)
        invariant known ==> Tracks(rank, text, pos, v, newline, directiveLine, ifBlock, beyond) && errors == old(errors)
        invariant known && !ignoreState ==> Owes(rank, total, v, tokens, defines)
        decreases |text| - pos
      {
        ghost var out, defs := tokens, defines;
        if known {
          RoundLoad(rank, text, pos, v, newline, directiveLine, ifBlock, beyond, total, out, defs);
          v := Loaded(v);
        }
        ghost var atDirective := known && (AtItem(v) || AtClosing(v));
        if atDirective {
          RoundHash(rank, text, pos, v, newline, directiveLine, ifBlock, beyond, total, out, defs);
        } else if known {
          RoundToken(rank, text, pos, v, newline, directiveLine, ifBlock, beyond, total, out, defs);
        }
        if !text[pos].kind.SpaceTab? && !text[pos].kind.Newline? {
          if directiveLine {
            errors := errors + [ExpectedNewline];
            pos := GoToNewline(pos);
            if text[pos].kind.NoToken? {
              break;
            }
          }
          if newline && FirstChar(text[pos]) == '#' {
            ghost var task := if known then TaskOf(v) else Unknown(pos);
            pos := NextToken(pos);
            directiveLine := true;
            if !known {
              UnknownExpected(rank, text, task.h, pos);
            }
            var goOn;
            goOn, pos := Directive(ifBlock, pos, task);
            if !goOn {
              break;
            }
            if known {
              RoundItem(rank, text, pos, v, ifBlock, beyond, total, out, defs, ignoreState);
              v := AfterDirective(v, ignoreState);
            }
            continue;
          }
          newline := false;
        }
        if text[pos].kind.Newline? {
          newline := true;
          directiveLine := false;
        } else if text[pos].kind.NoToken? {
          break;
        }
        AddToken(text[pos]);
        pos := pos + 1;
        if known {
          v := Next(v);
        }
      }
      if known && text[pos].kind.NoToken? {
        Finished(rank, text, pos, v, newline, directiveLine, ifBlock, beyond, total, tokens, defines);
      }
    }

    method PreprocessIfdef(ifnot: bool, at: nat, ghost task: Task) returns (pos: nat)
      requires Valid() && at < |text| && !text[at].kind.NoToken?
      requires Expected(rank, text, at, task) && !task.Ending?
      requires task.This? ==> task.item.Cond? && task.item.ifnot == ifnot
      modifies this`defines, this`errors, this`tokens, this`atUse, this`ignoreState
      ensures Valid() && ignoreState == old(ignoreState) && at <= pos < |text|
      ensures ignoreState ==> tokens == old(tokens) && defines == old(defines)
      ensures task.This? ==>
                && errors == old(errors) && text[pos..] == LineTokens(task.item.end) + task.tail
                && (!ignoreState ==>
                      var r := Inner(rank, task.item, old(defines));
                      tokens == old(tokens) + r.0 && defines == r.1)
      decreases |text| - at, 2
    {
      hide SkipFrom, LineEnd, Faces, Suitable, NotDefinedAtUse, Ranked, LineTokens, UnparseBranch, BranchMeaning,
        GoodBranch, Expected, Good, Inner, AfterTaken, Operands, FacesBranch, Defined;
      ghost var known := task.This?;
      ghost var item := if known then task.item else Text(Line([], END));
      ghost var taken, word, rest := Branch([], END, [], Hash([], [])), "", [];
      ghost var line := if known then LineTokens(item.end) + task.tail else [];
      if known {
        CondFacts(rank, text, at, task, defines);
        taken, word, rest := item.taken, ClosingWord(item), AfterTaken(item, task.tail);
      } else {
        UnknownFacts(rank, text, at, task);
      }
      pos := NextToken(at);
      if !text[pos].kind.Name? {
        errors := errors + [ExpectedIdentifier];
        pos := GoToNewline(pos);
        return;
      }
      var i := GetDefIdx(text[pos].text);
      var isTrue := (i == |defines|) == ifnot;
      DefinedIs(defines, text[pos].text);
      var ok;
      ok, pos := PreprocessSubblock(!isTrue, pos, known, taken, word, rest);
      if !ok {
        return;
      }
      if known {
        StepOver(text, pos, Keyword(word), rest);
      }
      if text[pos].text == "else" {
        ghost var branch := if known then item.orElse.branch else taken;
        if known {
          ElseFacts(rank, text, pos, item, task.tail);
        }
        ok, pos := PreprocessSubblock(isTrue, pos, known, branch, "endif", line);
        if !ok {
          return;
        }
        if known {
          StepOver(text, pos, Keyword("endif"), line);
        }
      }
      pos := pos + 1;
    }

    /**
      Preprocesses the whole file. Whatever the text, no macro name comes out, by `Valid`; for well-nested
      text what comes out is what the text means, nothing is reported, and the flag is as before.
     */
    method Preprocess(ghost known: bool, ghost items: seq<Item>)
      requires Valid()
      requires if known then text == UnparseAll(items) + [END] && GoodAll(rank, items) else Suitable(rank, text)
      modifies this
      ensures Valid() && ignoreState == old(ignoreState)
      ensures known ==> errors == old(errors)
      ensures known && !ignoreState ==>
                && tokens == old(tokens) + MeaningAll(rank, items, old(defines)).0 + [END]
                && defines == MeaningAll(rank, items, old(defines)).1
      ensures ignoreState ==> tokens == old(tokens) + [END] && defines == old(defines)
    {
      hide Ranked, Suitable, NotDefinedAtUse, UnparseAll, MeaningAll, GoodAll, ViewTokens, Future, GoodView, Flags;
      if known {
        WholeFile(rank, items, tokens, defines);
      }
      assert text[0..] == text;
      var pos := PreprocessTokens(false, 0, known, View([], if known then items else [], Top));
      NotDefinedSnoc(tokens, atUse, text[pos], defines);
      tokens, atUse := tokens + [text[pos]], atUse + [defines];
    }

    /** The directive behind a pound sign; no further if it ends the enclosing block. */
    method Directive(ifBlock: bool, at: nat, ghost task: Task) returns (goOn: bool, pos: nat)
      requires Valid() && at < |text| && Expected(rank, text, at, task) && (task.Ending? ==> ifBlock)
      modifies this`defines, this`errors, this`tokens, this`atUse, this`ignoreState
      ensures Valid() && ignoreState == old(ignoreState) && at <= pos < |text|
      ensures ignoreState ==> tokens == old(tokens) && defines == old(defines)
      ensures !goOn ==> ifBlock && EndsBranch(text[pos])
      ensures task.Ending? ==>
                !goOn && pos == at && tokens == old(tokens) && defines == old(defines) && errors == old(errors)
      ensures task.This? ==>
                && goOn && errors == old(errors) && text[pos..] == LineTokens(LeftOf(task.item, ignoreState)) + task.tail
                && (!ignoreState ==>
                      var r := Inner(rank, task.item, old(defines));
                      tokens == old(tokens) + r.0 && defines == r.1)
      decreases |text| - at, 3
    {
      hide Expected, Inner, Good, Faces, LineTokens, NotDefinedAtUse, Ranked, Suitable, Extended, Remove;
      DirectiveFacts(rank, text, at, task, defines);
      goOn, pos := true, at;
      var word := text[at].text;
      if word == "include" {
        pos := PreprocessInclude(at);
      } else if word == "define" {
        pos := PreprocessDefine(at, task);
      } else if word == "undef" {
        pos := PreprocessUndef(at, task);
      } else if word == "ifdef" {
        pos := PreprocessIfdef(false, at, task);
      } else if word == "ifndef" {
        pos := PreprocessIfdef(true, at, task);
      } else if word == "else" || word == "endif" {
        if !ifBlock {
          errors := errors + [OutsideBlock(word)];
          return true, at + 1;
        }
        return false, at;
      } else if !text[at].kind.Newline? && !text[at].kind.NoToken? {
        pos := at + 1;
      }
    }
  }

  // -------- Directives as they are written --------

  predicate HasMacro(defs: seq<Def>, name: string) {
    exists i :: 0 <= i < |defs| && defs[i].name == name
  }

  lemma HasMacroIs(defs: seq<Def>, name: string)
    ensures Defined(defs, name) <==> HasMacro(defs, name)
  {
  }

  /** The tokens of a conditional: the lines that are taken, and the lines behind `else` if there is one. */
  function Written(negated: bool, name: string, nl: Token, items: seq<Item>, hasElse: bool, nl2: Token, others: seq<Item>,
                   nl3: Token): seq<Token>
  {
    [Token(Other, "#"), Token(Name, if negated then "ifndef" else "ifdef"), Token(SpaceTab, " "), Token(Name, name), nl]
    + UnparseAll(items)
    + (if hasElse then [Token(Other, "#"), Token(Name, "else"), nl2] + UnparseAll(others) else [])
    + [Token(Other, "#"), Token(Name, "endif"), nl3]
  }

  function CondItem(negated: bool, name: string, nl: Token, items: seq<Item>, hasElse: bool, nl2: Token, others: seq<Item>,
                    nl3: Token): Item
  {
    var none := Hash([], []);
    Cond(none, negated, [SPACE], name, Branch([], nl, items, none),
         if hasElse then Else(Branch([], nl2, others, none)) else NoElse, Line([], nl3))
  }

  lemma CondIsWritten(negated: bool, name: string, nl: Token, items: seq<Item>, hasElse: bool, nl2: Token, others: seq<Item>,
                      nl3: Token)
    ensures UnparseAll([CondItem(negated, name, nl, items, hasElse, nl2, others, nl3)])
            == Written(negated, name, nl, items, hasElse, nl2, others, nl3)
  {
    hide UnparseAll, UnparseBranch, HashTokens;
    var item := CondItem(negated, name, nl, items, hasElse, nl2, others, nl3);
    var word := if negated then "ifndef" else "ifdef";
    var head, u, v := [HASH, Keyword(word)], UnparseAll(items), UnparseAll(others);
    OneItem(item);
    BareHash(word);
    BareBranch(nl, items, if hasElse then "else" else "endif");
    BareBranch(nl2, others, "endif");
    FiveInLine(HASH, Keyword(word), SPACE, Keyword(name), nl);
    ThreeInLine(HASH, Keyword("else"), nl2);
    ThreeInLine(HASH, Keyword("endif"), nl3);
    if hasElse {
      RegroupElse(head, [SPACE], [Keyword(name)], [nl], u, [HASH, Keyword("else")], [nl2], v, [HASH, Keyword("endif")], [nl3]);
    } else {
      RegroupIf(head, [SPACE], [Keyword(name)], [nl], u, [HASH, Keyword("endif")], [nl3]);
    }
    NoneBefore([nl3]);
  }

  lemma FiveInLine<T>(a: T, b: T, c: T, d: T, e: T)
    ensures [a, b] + [c] + [d] + [e] == [a, b, c, d, e]
  {
  }

  lemma ThreeInLine<T>(a: T, b: T, c: T)
    ensures [a, b] + [c] == [a, b, c]
  {
  }

  lemma NoneBefore<T>(a: seq<T>)
    ensures [] + a == a
  {
  }

  lemma Trimmed<T>(a: seq<T>, b: seq<T>, c: seq<T>)
    ensures [] + (a + b + []) + ([] + c) == a + b + c && [] + [] + ([] + c) == c
  {
  }

  lemma BareHash(word: string)
    ensures HashTokens(Hash([], []), word) == [HASH, Keyword(word)]
  {
  }

  lemma BareBranch(nl: Token, items: seq<Item>, word: string)
    ensures UnparseBranch(Branch([], nl, items, Hash([], [])), word) == [nl] + UnparseAll(items) + [HASH, Keyword(word)]
  {
    hide UnparseAll;
    BareHash(word);
    assert [] + [nl] == [nl];
  }

  lemma RegroupIf<T>(h: seq<T>, sp: seq<T>, n: seq<T>, a: seq<T>, u: seq<T>, f: seq<T>, g: seq<T>)
    ensures h + (sp + n + (a + u + f)) + g == (h + sp + n + a) + u + [] + (f + g)
  {
  }

  lemma RegroupElse<T>(h: seq<T>, sp: seq<T>, n: seq<T>, a: seq<T>, u: seq<T>, e: seq<T>, b: seq<T>, v: seq<T>, f: seq<T>, g: seq<T>)
    ensures h + (sp + n + ((a + u + e) + (b + v + f))) + g == (h + sp + n + a) + u + ((e + b) + v) + (f + g)
  {
  }

  lemma OneItem(item: Item)
    ensures UnparseAll([item]) == Unparse(item)
  {
    assert [item][1..] == [];
    assert Unparse(item) + [] == Unparse(item);
  }

  lemma CondMeans(rank: Rank, defs: seq<Def>, negated: bool, name: string, nl: Token, items: seq<Item>, hasElse: bool,
                  nl2: Token, others: seq<Item>, nl3: Token)
    requires Ranked(rank, defs) && GoodAll(rank, items) && GoodAll(rank, others)
    requires nl.kind.Newline? && nl2.kind.Newline? && nl3.kind.Newline?
    ensures var item := CondItem(negated, name, nl, items, hasElse, nl2, others, nl3);
            && GoodAll(rank, [item])
            && var r := MeaningAll(rank, [item], defs);
               if HasMacro(defs, name) != negated then
                 r == ([nl] + MeaningAll(rank, items, defs).0 + [nl3], MeaningAll(rank, items, defs).1)
               else if hasElse then
                 r == ([nl2] + MeaningAll(rank, others, defs).0 + [nl3], MeaningAll(rank, others, defs).1)
               else r == ([nl3], defs)
  {
    hide GoodAll, MeaningAll, Ranked, HasMacro, Defined;
    var item := CondItem(negated, name, nl, items, hasElse, nl2, others, nl3);
    CondIsGood(rank, negated, name, nl, items, hasElse, nl2, others, nl3);
    OneMeaning(rank, item, defs);
    HasMacroIs(defs, name);
    BareMeaning(rank, nl, items, defs);
    BareMeaning(rank, nl2, others, defs);
    Trimmed([nl], MeaningAll(rank, items, defs).0, [nl3]);
    Trimmed([nl2], MeaningAll(rank, others, defs).0, [nl3]);
  }

  lemma BareMeaning(rank: Rank, nl: Token, items: seq<Item>, defs: seq<Def>)
    requires Ranked(rank, defs) && GoodAll(rank, items) && nl.kind.Newline?
    ensures var branch := Branch([], nl, items, Hash([], []));
            && GoodBranch(rank, branch)
            && BranchMeaning(rank, branch, defs) == ([nl] + MeaningAll(rank, items, defs).0 + [], MeaningAll(rank, items, defs).1)
  {
    hide Ranked, GoodAll;
  }

  lemma CondIsGood(rank: Rank, negated: bool, name: string, nl: Token, items: seq<Item>, hasElse: bool, nl2: Token,
                   others: seq<Item>, nl3: Token)
    requires GoodAll(rank, items) && GoodAll(rank, others)
    requires nl.kind.Newline? && nl2.kind.Newline? && nl3.kind.Newline?
    ensures Good(rank, CondItem(negated, name, nl, items, hasElse, nl2, others, nl3))
  {
    hide GoodAll;
  }

  lemma OneMeaning(rank: Rank, item: Item, defs: seq<Def>)
    requires Ranked(rank, defs) && Good(rank, item)
    ensures GoodAll(rank, [item])
    ensures MeaningAll(rank, [item], defs) == Meaning(rank, item, defs)
  {
    hide Good, Meaning, Ranked;
    assert [item][1..] == [];
    var m := Meaning(rank, item, defs);
    assert m.0 + [] == m.0;
  }

  /**
    A conditional, from the tokens in the file to the tokens that come out: `ifdef` takes its lines if there is a
    macro of that name, `ifndef` if there is none, and `else` stands for the opposite.
   */
  method Conditional(pp: Preprocessor, negated: bool, name: string, nl: Token, ghost items: seq<Item>, hasElse: bool,
                     nl2: Token, ghost others: seq<Item>, nl3: Token)
    requires pp.Valid() && !pp.ignoreState && GoodAll(pp.rank, items) && GoodAll(pp.rank, others)
    requires nl.kind.Newline? && nl2.kind.Newline? && nl3.kind.Newline?
    requires pp.text
             == [Token(Other, "#"), Token(Name, if negated then "ifndef" else "ifdef"), Token(SpaceTab, " "), Token(Name, name), nl]
                + UnparseAll(items)
                + (if hasElse then [Token(Other, "#"), Token(Name, "else"), nl2] + UnparseAll(others) else [])
                + [Token(Other, "#"), Token(Name, "endif"), nl3] + [END]
    modifies pp
    ensures pp.Valid() && !pp.ignoreState && pp.errors == old(pp.errors)
    ensures var defs := old(pp.defines);
            if (exists i :: 0 <= i < |defs| && defs[i].name == name) != negated then
              && pp.tokens == old(pp.tokens) + [nl] + MeaningAll(pp.rank, items, defs).0 + [nl3, END]
              && pp.defines == MeaningAll(pp.rank, items, defs).1
            else if hasElse then
              && pp.tokens == old(pp.tokens) + [nl2] + MeaningAll(pp.rank, others, defs).0 + [nl3, END]
              && pp.defines == MeaningAll(pp.rank, others, defs).1
            else pp.tokens == old(pp.tokens) + [nl3, END] && pp.defines == defs
  {
    hide GoodAll, MeaningAll, UnparseAll, Ranked, NotDefinedAtUse, Suitable, CondItem;
    ghost var item := CondItem(negated, name, nl, items, hasElse, nl2, others, nl3);
    CondIsWritten(negated, name, nl, items, hasElse, nl2, others, nl3);
    CondMeans(pp.rank, pp.defines, negated, name, nl, items, hasElse, nl2, others, nl3);
    pp.Preprocess(true, [item]);
  }

  /** Every token of that name replaced. */
  function Replaced(ts: seq<Token>, name: string, into: seq<Token>): seq<Token> {
    if ts == [] then []
    else (if ts[0].kind.Name? && ts[0].text == name then into else [ts[0]]) + Replaced(ts[1..], name, into)
  }

  lemma {:induction false} NothingToExpand(rank: Rank, defs: seq<Def>, ts: seq<Token>)
    requires Ranked(rank, defs) && forall i :: 0 <= i < |ts| && ts[i].kind.Name? ==> !HasMacro(defs, ts[i].text)
    ensures ExpandAll(rank, defs, ts) == ts
    decreases |ts|
  {
    if ts != [] {
      HasMacroIs(defs, ts[0].text);
      assert Expand(rank, defs, ts[0]) == [ts[0]];
      NothingToExpand(rank, defs, ts[1..]);
      assert ts == [ts[0]] + ts[1..];
    }
  }

  lemma {:induction false} ExpandReplaces(rank: Rank, name: string, into: seq<Token>, ts: seq<Token>)
    requires Ranked(rank, [Def(name, into)]) && forall i :: 0 <= i < |into| && into[i].kind.Name? ==> into[i].text != name
    ensures ExpandAll(rank, [Def(name, into)], ts) == Replaced(ts, name, into)
    decreases |ts|
  {
    hide Ranked;
    if ts != [] {
      var defs := [Def(name, into)];
      NothingToExpand(rank, defs, into);
      ExpandIs(rank, defs, ts[0]);
      OneMacro(name, into, ts[0].text);
      ExpandReplaces(rank, name, into, ts[1..]);
    }
  }

  lemma OneMacro(name: string, into: seq<Token>, other: string)
    ensures Defined([Def(name, into)], other) <==> other == name
    ensures Lookup([Def(name, into)], name) == 0
  {
    assert [Def(name, into)][0].name == name;
  }

  function DefineItems(name: string, body: seq<Token>, nl: Token, uses: seq<Token>, nl2: Token): seq<Item> {
    [Define(Hash([], []), [SPACE], name, [SPACE], body, Line([], nl)), Text(Line(uses, nl2))]
  }

  lemma DefineIsWritten(name: string, body: seq<Token>, nl: Token, uses: seq<Token>, nl2: Token)
    ensures UnparseAll(DefineItems(name, body, nl, uses, nl2))
            == [Token(Other, "#"), Token(Name, "define"), Token(SpaceTab, " "), Token(Name, name), Token(SpaceTab, " ")]
               + body + [nl] + uses + [nl2]
  {
    hide UnparseAll;
    var items := DefineItems(name, body, nl, uses, nl2);
    TwoItems(items[0], items[1]);
    BareHash("define");
    FiveInLine(HASH, Keyword("define"), SPACE, Keyword(name), SPACE);
    RegroupDefine([HASH, Keyword("define")], [SPACE], [Keyword(name)], [SPACE], body, [nl], uses, [nl2]);
    NoneBefore([nl]);
  }

  lemma RegroupDefine<T>(h: seq<T>, a: seq<T>, n: seq<T>, b: seq<T>, body: seq<T>, e: seq<T>, u: seq<T>, f: seq<T>)
    ensures (h + (a + n + (b + body)) + e) + (u + f) == (h + a + n + b) + body + e + u + f
  {
  }

  lemma TwoItems(a: Item, b: Item)
    ensures UnparseAll([a, b]) == Unparse(a) + Unparse(b)
  {
    hide Unparse;
    assert [a, b][1..] == [b] && [b][1..] == [];
    assert Unparse(b) + [] == Unparse(b);
    assert UnparseAll([b]) == Unparse(b);
  }

  lemma DefineMeans(rank: Rank, name: string, body: seq<Token>, nl: Token, uses: seq<Token>, nl2: Token)
    requires Inline(body) && (body != [] ==> !body[0].kind.SpaceTab? && FirstChar(body[0]) != '(')
    requires forall i :: 0 <= i < |body| && body[i].kind.Name? ==> body[i].text != name
    requires Inline(uses) && PlainStart(uses) && nl.kind.Newline? && nl2.kind.Newline?
    requires forall x :: rank(x) == if x == name then 1 else 0
    ensures var items := DefineItems(name, body, nl, uses, nl2);
            && GoodAll(rank, items) && Ranked(rank, [])
            && MeaningAll(rank, items, []) == ([nl] + (Replaced(uses, name, [SPACE] + body) + [nl2]), [Def(name, [SPACE] + body)])
  {
    hide MeaningAll, GoodAll, PlainStart;
    var items := DefineItems(name, body, nl, uses, nl2);
    var into := [SPACE] + body;
    AllLow(rank, into);
    assert Good(rank, items[0]) && Good(rank, items[1]);
    var defs := [Def(name, into)];
    assert [] + defs == defs;
    TwoMeanings(rank, items[0], items[1], []);
    ExpandReplaces(rank, name, into, uses + [nl2]);
    ReplacedSnoc(uses, nl2, name, into);
    assert [] + [] + ([] + [nl]) == [nl];
  }

  lemma {:induction false} AllLow(rank: Rank, ts: seq<Token>)
    requires forall i :: 0 <= i < |ts| ==> Level(rank, ts[i]) == 0
    ensures MaxLevel(rank, ts) == 0
  {
    if ts != [] {
      AllLow(rank, ts[1..]);
    }
  }

  lemma {:induction false} ReplacedSnoc(ts: seq<Token>, t: Token, name: string, into: seq<Token>)
    requires !t.kind.Name?
    ensures Replaced(ts + [t], name, into) == Replaced(ts, name, into) + [t]
  {
    if ts == [] {
      assert ts + [t] == [t] && [t][1..] == [];
    } else {
      assert (ts + [t])[1..] == ts[1..] + [t];
      ReplacedSnoc(ts[1..], t, name, into);
    }
  }

  lemma TwoMeanings(rank: Rank, a: Item, b: Item, defs: seq<Def>)
    requires Ranked(rank, defs) && Good(rank, a) && Good(rank, b)
    ensures GoodAll(rank, [a, b])
    ensures var x := Meaning(rank, a, defs); var y := Meaning(rank, b, x.1);
            MeaningAll(rank, [a, b], defs) == (x.0 + y.0, y.1)
  {
    hide Meaning, Good, Ranked;
    assert [a, b][1..] == [b];
    OneMeaning(rank, b, defs);
    OneMeaning(rank, b, Meaning(rank, a, defs).1);
  }

  /** A macro, from its definition in the file to the tokens that come out where it is used. */
  method DefineThenUse(name: string, body: seq<Token>, nl: Token, uses: seq<Token>, nl2: Token) returns (pp: Preprocessor)
    requires Inline(body) && (body != [] ==> !body[0].kind.SpaceTab? && FirstChar(body[0]) != '(')
    requires forall i :: 0 <= i < |body| && body[i].kind.Name? ==> body[i].text != name
    requires Inline(uses) && PlainStart(uses) && nl.kind.Newline? && nl2.kind.Newline?
    ensures pp.text == [Token(Other, "#"), Token(Name, "define"), Token(SpaceTab, " "), Token(Name, name), Token(SpaceTab, " ")]
                       + body + [nl] + uses + [nl2] + [END]
    ensures pp.tokens == [nl] + (Replaced(uses, name, [Token(SpaceTab, " ")] + body) + [nl2]) + [END]
    ensures pp.errors == [] && pp.defines == [Def(name, [Token(SpaceTab, " ")] + body)]
  {
    hide GoodAll, MeaningAll, UnparseAll, Ranked, NotDefinedAtUse, Suitable, DefineItems, PlainStart, Replaced;
    ghost var rank: Rank := x => if x == name then 1 else 0;
    DefineMeans(rank, name, body, nl, uses, nl2);
    DefineIsWritten(name, body, nl, uses, nl2);
    var text := [HASH, Keyword("define"), SPACE, Keyword(name), SPACE] + body + [nl] + uses + [nl2] + [END];
    pp := new Preprocessor(rank, text);
    pp.Preprocess(true, DefineItems(name, body, nl, uses, nl2));
    assert [] + [nl] == [nl];
  }

  lemma UndefMeans(rank: Rank, defs: seq<Def>, name: string, nl: Token)
    requires Ranked(rank, defs) && nl.kind.Newline?
    ensures var item := Undef(Hash([], []), [SPACE], name, Line([], nl));
            && UnparseAll([item]) == [Token(Other, "#"), Token(Name, "undef"), Token(SpaceTab, " "), Token(Name, name), nl]
            && GoodAll(rank, [item]) && MeaningAll(rank, [item], defs) == ([nl], Remove(defs, name))
  {
    hide UnparseAll, GoodAll, MeaningAll, Ranked, Remove;
    var item := Undef(Hash([], []), [SPACE], name, Line([], nl));
    OneItem(item);
    OneMeaning(rank, item, defs);
    BareHash("undef");
    assert [] + [] + ([] + [nl]) == [nl];
  }

  /** An undefinition takes away the first definition of that name and nothing else. */
  method Undefine(pp: Preprocessor, name: string, nl: Token)
    requires pp.Valid() && !pp.ignoreState && nl.kind.Newline?
    requires pp.text == [Token(Other, "#"), Token(Name, "undef"), Token(SpaceTab, " "), Token(Name, name), nl] + [END]
    modifies pp
    ensures pp.Valid() && pp.errors == old(pp.errors) && pp.tokens == old(pp.tokens) + [nl] + [END]
    ensures forall i :: 0 <= i < |old(pp.defines)| && old(pp.defines)[i].name == name
                        && (forall k :: 0 <= k < i ==> old(pp.defines)[k].name != name) ==>
              pp.defines == old(pp.defines)[..i] + old(pp.defines)[i + 1..]
    ensures (forall k :: 0 <= k < |old(pp.defines)| ==> old(pp.defines)[k].name != name) ==> pp.defines == old(pp.defines)
  {
    hide GoodAll, MeaningAll, UnparseAll, Ranked, NotDefinedAtUse, Suitable;
    UndefMeans(pp.rank, pp.defines, name, nl);
    pp.Preprocess(true, [Undef(Hash([], []), [SPACE], name, Line([], nl))]);
  }
}

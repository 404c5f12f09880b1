/**
  What preprocessing means: macro expansion with an acyclic reference graph, and well-nested text made
  of lines, object-like definitions and conditionals.
 */
module CfProgram {

  import opened Common

  datatype Kind = NoToken | Name | Num | SpaceTab | Newline | Str | Other

  datatype Token = Token(kind: Kind, text: string)

  /** The body starts with the space that is put before every expansion. */
  datatype Def = Def(name: string, body: seq<Token>)

  const SPACE := Token(SpaceTab, " ")

  const HASH := Token(Other, "#")

  function Keyword(text: string): Token {
    Token(Name, text)
  }

  // -------- Definitions --------

  /** The first definition of a name counts. */
  function Lookup(defs: seq<Def>, name: string): (i: nat)
    ensures i <= |defs| && (i < |defs| ==> defs[i].name == name)
    ensures forall k :: 0 <= k < i ==> defs[k].name != name
  {
    if defs == [] || defs[0].name == name then 0 else 1 + Lookup(defs[1..], name)
  }

  predicate Defined(defs: seq<Def>, name: string) {
    Lookup(defs, name) < |defs|
  }

  /** Only the first definition goes, which uncovers an earlier duplicate behind it. */
  function Remove(defs: seq<Def>, name: string): seq<Def> {
    var i := Lookup(defs, name);
    if i < |defs| then defs[..i] + defs[i + 1..] else defs
  }

  // -------- Ranks --------

  /** Names are ranked, so that the names in a body rank below the name it defines: no cycles. */
  type Rank = string -> nat

  function Level(rank: Rank, t: Token): nat {
    if t.kind.Name? then rank(t.text) else 0
  }

  function MaxLevel(rank: Rank, ts: seq<Token>): (n: nat)
    ensures forall i :: 0 <= i < |ts| ==> Level(rank, ts[i]) <= n
  {
    if ts == [] then 0
    else
      var n := MaxLevel(rank, ts[1..]);
      if Level(rank, ts[0]) > n then Level(rank, ts[0]) else n
  }

  ghost predicate Ranked(rank: Rank, defs: seq<Def>) {
    forall i :: 0 <= i < |defs| ==> MaxLevel(rank, defs[i].body) < rank(defs[i].name)
  }

  // -------- Expansion --------

  ghost function Expand(rank: Rank, defs: seq<Def>, t: Token): seq<Token>
    requires Ranked(rank, defs)
    decreases Level(rank, t), 0, 0
  {
    if t.kind.Name? && Defined(defs, t.text) then ExpandAll(rank, defs, defs[Lookup(defs, t.text)].body) else [t]
  }

  ghost function ExpandAll(rank: Rank, defs: seq<Def>, ts: seq<Token>): seq<Token>
    requires Ranked(rank, defs)
    decreases MaxLevel(rank, ts), 1, |ts|
  {
    if ts == [] then [] else Expand(rank, defs, ts[0]) + ExpandAll(rank, defs, ts[1..])
  }

  /** No macro name survives. */
  ghost predicate Clean(defs: seq<Def>, ts: seq<Token>) {
    forall i :: 0 <= i < |ts| && ts[i].kind.Name? ==> !Defined(defs, ts[i].text)
  }

  lemma {:induction false} ExpandIsClean(rank: Rank, defs: seq<Def>, t: Token)
    requires Ranked(rank, defs)
    ensures Clean(defs, Expand(rank, defs, t))
    decreases Level(rank, t), 0, 0
  {
    if t.kind.Name? && Defined(defs, t.text) {
      ExpandAllIsClean(rank, defs, defs[Lookup(defs, t.text)].body);
    }
  }

  lemma {:induction false} ExpandAllIsClean(rank: Rank, defs: seq<Def>, ts: seq<Token>)
    requires Ranked(rank, defs)
    ensures Clean(defs, ExpandAll(rank, defs, ts))
    decreases MaxLevel(rank, ts), 1, |ts|
  {
    if ts != [] {
      ExpandIsClean(rank, defs, ts[0]);
      ExpandAllIsClean(rank, defs, ts[1..]);
    }
  }

  lemma {:induction false} ExpandSnoc(rank: Rank, defs: seq<Def>, ts: seq<Token>, n: nat)
    requires Ranked(rank, defs) && n < |ts|
    ensures ExpandAll(rank, defs, ts[..n + 1]) == ExpandAll(rank, defs, ts[..n]) + Expand(rank, defs, ts[n])
    decreases n
  {
    if n == 0 {
      assert ts[..1] == [ts[0]] && ts[..0] == [];
      assert ExpandAll(rank, defs, [ts[0]]) == Expand(rank, defs, ts[0]) + ExpandAll(rank, defs, []);
    } else {
      ExpandSnoc(rank, defs, ts[1..], n - 1);
      assert ts[..n + 1][1..] == ts[1..][..n] && ts[..n][1..] == ts[1..][..n - 1];
    }
  }

  predicate AllSpace(ts: seq<Token>) {
    forall i :: 0 <= i < |ts| ==> ts[i].kind.SpaceTab?
  }

  // -------- Well-nested text --------

  /** The rest of a line: what comes after a directive, or plain text. */
  datatype Line = Line(tokens: seq<Token>, nl: Token)

  /** The pound sign and the word behind it, with the white space around them. */
  datatype Hash = Hash(lead: seq<Token>, gap: seq<Token>)

  datatype Item =
    | Text(line: Line)
    | Define(hash: Hash, gap: seq<Token>, name: string, gap2: seq<Token>, body: seq<Token>, end: Line)
    | Undef(hash: Hash, gap: seq<Token>, name: string, end: Line)
    | Cond(hash: Hash, ifnot: bool, gap: seq<Token>, name: string, taken: Branch, orElse: Else, end: Line)

  /** What follows the name or the `else`: white space, a newline, lines, and the pound sign that ends them. */
  datatype Branch = Branch(gap: seq<Token>, nl: Token, items: seq<Item>, hash: Hash)

  datatype Else = NoElse | Else(branch: Branch)

  function LineTokens(line: Line): seq<Token> {
    line.tokens + [line.nl]
  }

  function HashTokens(hash: Hash, word: string): seq<Token> {
    hash.lead + [HASH] + hash.gap + [Keyword(word)]
  }

  function UnparseAll(items: seq<Item>): seq<Token>
    decreases items
  {
    if items == [] then [] else Unparse(items[0]) + UnparseAll(items[1..])
  }

  function UnparseBranch(branch: Branch, word: string): seq<Token>
    decreases branch
  {
    branch.gap + [branch.nl] + UnparseAll(branch.items) + HashTokens(branch.hash, word)
  }

  function WordOf(item: Item): string
    requires !item.Text?
  {
    match item
    case Define(_, _, _, _, _, _) => "define"
    case Undef(_, _, _, _) => "undef"
    case Cond(_, ifnot, _, _, _, _, _) => if ifnot then "ifndef" else "ifdef"
  }

  /** What stands between the word and the end of its line, or of the line of the `endif`. */
  function Operands(item: Item): seq<Token>
    requires !item.Text?
    decreases item, 0
  {
    item.gap + [Keyword(item.name)]
    + match item
      case Define(_, _, _, gap2, body, _) => gap2 + body
      case Undef(_, _, _, _) => []
      case Cond(_, _, _, _, taken, orElse, _) => match orElse
                                               case NoElse => UnparseBranch(taken, "endif")
                                               case Else(branch) => UnparseBranch(taken, "else") + UnparseBranch(branch, "endif")
  }

  function Unparse(item: Item): seq<Token>
    decreases item, 1
  {
    if item.Text? then LineTokens(item.line)
    else HashTokens(item.hash, WordOf(item)) + Operands(item) + LineTokens(item.end)
  }

  // -------- Which text is well nested --------

  function FirstChar(t: Token): char {
    if t.text == "" then '\0' else t.text[0]
  }

  predicate Inline(ts: seq<Token>) {
    forall i :: 0 <= i < |ts| ==> !ts[i].kind.Newline? && !ts[i].kind.NoToken?
  }

  predicate GoodLine(line: Line) {
    Inline(line.tokens) && line.nl.kind.Newline?
  }

  /** A directive leaves nothing but white space on its line. */
  predicate GoodEnd(line: Line) {
    AllSpace(line.tokens) && line.nl.kind.Newline?
  }

  predicate GoodHash(hash: Hash) {
    AllSpace(hash.lead) && AllSpace(hash.gap)
  }

  /** A line of text does not look like a directive. */
  predicate PlainStart(ts: seq<Token>) {
    ts == [] || ts[0].kind.Newline? || if ts[0].kind.SpaceTab? then PlainStart(ts[1..]) else FirstChar(ts[0]) != '#'
  }

  ghost predicate GoodBody(rank: Rank, name: string, body: seq<Token>) {
    && Inline(body)
    && (body != [] ==> !body[0].kind.SpaceTab? && FirstChar(body[0]) != '(')
    && MaxLevel(rank, [SPACE] + body) < rank(name)
  }

  ghost predicate GoodAll(rank: Rank, items: seq<Item>)
    decreases items
  {
    items == [] || (Good(rank, items[0]) && GoodAll(rank, items[1..]))
  }

  ghost predicate GoodBranch(rank: Rank, branch: Branch)
    decreases branch
  {
    AllSpace(branch.gap) && branch.nl.kind.Newline? && GoodAll(rank, branch.items) && GoodHash(branch.hash)
  }

  ghost predicate Good(rank: Rank, item: Item)
    decreases item
  {
    match item
    case Text(line) => GoodLine(line) && PlainStart(line.tokens)
    case Define(hash, gap, name, gap2, body, end) =>
      GoodHash(hash) && AllSpace(gap) && AllSpace(gap2) && GoodBody(rank, name, body) && GoodEnd(end)
      && end.tokens == []
    case Undef(hash, gap, name, end) =>
      GoodHash(hash) && AllSpace(gap) && GoodEnd(end)
    case Cond(hash, ifnot, gap, name, taken, orElse, end) =>
      GoodHash(hash) && AllSpace(gap) && GoodBranch(rank, taken) && GoodEnd(end)
      && (orElse.Else? ==> GoodBranch(rank, orElse.branch))
  }

  // -------- What it means --------

  /** The definitions with the new one behind them; its body starts with a space. */
  function Extended(defs: seq<Def>, name: string, body: seq<Token>): seq<Def> {
    defs + [Def(name, [SPACE] + body)]
  }

  ghost function MeaningAll(rank: Rank, items: seq<Item>, defs: seq<Def>): (r: (seq<Token>, seq<Def>))
    requires Ranked(rank, defs) && GoodAll(rank, items)
    ensures Ranked(rank, r.1)
    decreases items
  {
    if items == [] then ([], defs)
    else
      var first := Meaning(rank, items[0], defs);
      var rest := MeaningAll(rank, items[1..], first.1);
      (first.0 + rest.0, rest.1)
  }

  ghost function BranchMeaning(rank: Rank, branch: Branch, defs: seq<Def>): (r: (seq<Token>, seq<Def>))
    requires Ranked(rank, defs) && GoodBranch(rank, branch)
    ensures Ranked(rank, r.1)
    decreases branch
  {
    var inside := MeaningAll(rank, branch.items, defs);
    ([branch.nl] + inside.0 + branch.hash.lead, inside.1)
  }

  /** Between the white space before a directive and the end of its line. */
  ghost function Inner(rank: Rank, item: Item, defs: seq<Def>): (r: (seq<Token>, seq<Def>))
    requires Ranked(rank, defs) && Good(rank, item) && !item.Text?
    ensures Ranked(rank, r.1)
    decreases item, 0
  {
    match item
    case Define(_, _, name, _, body, _) => ([], Extended(defs, name, body))
    case Undef(_, _, name, _) => ([], Remove(defs, name))
    case Cond(_, ifnot, _, name, taken, orElse, _) =>
      if Defined(defs, name) != ifnot then BranchMeaning(rank, taken, defs)
      else if orElse.Else? then BranchMeaning(rank, orElse.branch, defs)
      else ([], defs)
  }

  /** The tokens that come out, and the definitions afterwards. White space and newlines come out unchanged. */
  ghost function Meaning(rank: Rank, item: Item, defs: seq<Def>): (r: (seq<Token>, seq<Def>))
    requires Ranked(rank, defs) && Good(rank, item)
    ensures Ranked(rank, r.1)
    decreases item, 1
  {
    if item.Text? then (ExpandAll(rank, defs, LineTokens(item.line)), defs)
    else
      var inner := Inner(rank, item, defs);
      (item.hash.lead + inner.0 + LineTokens(item.end), inner.1)
  }

  // -------- A second definition of a name --------

  lemma {:induction false} LookupExtended(defs: seq<Def>, def: Def, name: string)
    ensures Lookup(defs + [def], name)
            == if Defined(defs, name) then Lookup(defs, name) else |defs| + if def.name == name then 0 else 1
  {
    if defs != [] && defs[0].name != name {
      LookupExtended(defs[1..], def, name);
      assert (defs + [def])[1..] == defs[1..] + [def];
    }
  }

  /** A second definition of a name changes no expansion: the first one stays in force. */
  lemma {:induction false} RedefinitionIgnored(rank: Rank, defs: seq<Def>, name: string, body: seq<Token>, t: Token)
    requires Ranked(rank, defs) && Ranked(rank, Extended(defs, name, body)) && Defined(defs, name)
    ensures Expand(rank, Extended(defs, name, body), t) == Expand(rank, defs, t)
    decreases Level(rank, t), 0, 0
  {
    LookupExtended(defs, Def(name, [SPACE] + body), t.text);
    if t.kind.Name? && Defined(defs, t.text) {
      RedefinitionIgnoredInAll(rank, defs, name, body, defs[Lookup(defs, t.text)].body);
    }
  }

  lemma {:induction false} RedefinitionIgnoredInAll(rank: Rank, defs: seq<Def>, name: string, body: seq<Token>, ts: seq<Token>)
    requires Ranked(rank, defs) && Ranked(rank, Extended(defs, name, body)) && Defined(defs, name)
    ensures ExpandAll(rank, Extended(defs, name, body), ts) == ExpandAll(rank, defs, ts)
    decreases MaxLevel(rank, ts), 1, |ts|
  {
    if ts != [] {
      RedefinitionIgnored(rank, defs, name, body, ts[0]);
      RedefinitionIgnoredInAll(rank, defs, name, body, ts[1..]);
    }
  }

  /** How many definitions of the name the table holds; all but the first wait behind it. */
  function Times(defs: seq<Def>, name: string): nat {
    if defs == [] then 0 else (if defs[0].name == name then 1 else 0) + Times(defs[1..], name)
  }

  /** An undefinition uncovers the next definition: the name is a macro still exactly if it was defined twice. */
  lemma {:induction false} UndefinitionUncovers(defs: seq<Def>, name: string)
    ensures Defined(Remove(defs, name), name) <==> Times(defs, name) >= 2
    ensures Times(Remove(defs, name), name) == if Times(defs, name) == 0 then 0 else Times(defs, name) - 1
  {
    hide Defined, Lookup, Remove;
    DefinedTimes(Remove(defs, name), name);
    RemoveStep(defs, name);
    if defs != [] && defs[0].name != name {
      UndefinitionUncovers(defs[1..], name);
    }
  }

  lemma RemoveStep(defs: seq<Def>, name: string)
    ensures Remove(defs, name)
            == if defs == [] then [] else if defs[0].name == name then defs[1..] else [defs[0]] + Remove(defs[1..], name)
  {
    var i := Lookup(defs, name);
    if 0 < i < |defs| {
      CutBehindFirst(defs, i);
      CutBehindFirst(defs, i + 1);
      assert [defs[0]] + defs[1..][..i - 1] + defs[1..][i..] == [defs[0]] + (defs[1..][..i - 1] + defs[1..][i..]);
    }
  }

  lemma {:induction false} DefinedTimes(defs: seq<Def>, name: string)
    ensures Defined(defs, name) <==> Times(defs, name) >= 1
  {
    if defs != [] {
      DefinedTimes(defs[1..], name);
    }
  }
}

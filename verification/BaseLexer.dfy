/**
  The tokenizer: runs of letters, runs of digits, single other characters, and white space, where a
  carriage return and a line feed next to each other are one token.
 */
module BaseLexer {

  datatype Kind = Alpha | Digit | Whitespace | Other

  predicate IsNewline(c: char) {
    c == '\r' || c == '\n'
  }

  predicate IsWhitespace(c: char) {
    c == ' ' || c == '\r' || c == '\t' || c == '\n'
  }

  predicate IsNewlinePair(a: char, b: char) {
    (a == '\r' && b == '\n') || (a == '\n' && b == '\r')
  }

  function KindOf(c: char): Kind {
    if IsWhitespace(c) then Whitespace
    else if '0' <= c <= '9' then Digit
    else if 'a' <= c <= 'z' || 'A' <= c <= 'Z' then Alpha
    else Other
  }

  /** The kinds by character code: letters and digits of ASCII, tab, line feed, carriage return, space. */
  lemma KindsByCode(c: char)
    ensures KindOf(c) == Whitespace <==> c as int == 9 || c as int == 10 || c as int == 13 || c as int == 32
    ensures KindOf(c) == Digit <==> 48 <= c as int <= 57
    ensures KindOf(c) == Alpha <==> 65 <= c as int <= 90 || 97 <= c as int <= 122
  {
  }

  /** How many characters at the front of `s` are of kind `k`. */
  function RunLength(s: string, k: Kind): (n: nat)
    ensures n <= |s|
  {
    if s == "" || KindOf(s[0]) != k then 0 else 1 + RunLength(s[1..], k)
  }

  /** The length of the first token of `s`. */
  function TokenLength(s: string): (n: nat)
    requires s != ""
    ensures 1 <= n <= |s|
  {
    var k := KindOf(s[0]);
    if k.Alpha? || k.Digit? then RunLength(s, k)
    else if |s| > 1 && IsNewlinePair(s[0], s[1]) then 2
    else 1
  }

  lemma {:induction false} RunExtends(s: string, k: Kind, n: nat)
    requires n <= |s| && forall i :: 0 <= i < n ==> KindOf(s[i]) == k
    ensures RunLength(s, k) == n + RunLength(s[n..], k)
  {
    if n == 0 {
      assert s[0..] == s;
    } else {
      RunExtends(s[1..], k, n - 1);
      assert s[1..][n - 1..] == s[n..];
    }
  }

  lemma {:induction false} RunIsOfKind(s: string, k: Kind)
    ensures forall i :: 0 <= i < RunLength(s, k) ==> KindOf(s[i]) == k
  {
    if s != "" && KindOf(s[0]) == k {
      RunIsOfKind(s[1..], k);
      forall i | 0 <= i < RunLength(s, k)
        ensures KindOf(s[i]) == k
      {
        assert i > 0 ==> s[i] == s[1..][i - 1];
      }
    }
  }

  /** A run is exactly the longest prefix of that kind. */
  lemma RunIs(s: string, k: Kind, n: nat)
    requires n <= |s| && forall i :: 0 <= i < n ==> KindOf(s[i]) == k
    requires n == |s| || KindOf(s[n]) != k
    ensures RunLength(s, k) == n
  {
    RunExtends(s, k, n);
  }

  /** What the loop of the tokenizer finds: a token of `n` characters at the front of `s`. */
  predicate TokenAt(s: string, n: nat) {
    && 1 <= n <= |s|
    && if KindOf(s[0]).Alpha? || KindOf(s[0]).Digit?
       then (forall i :: 0 <= i < n ==> KindOf(s[i]) == KindOf(s[0])) && (n < |s| ==> KindOf(s[n]) != KindOf(s[0]))
       else n == if |s| > 1 && IsNewlinePair(s[0], s[1]) then 2 else 1
  }

  lemma TokenAtLength(s: string, n: nat)
    requires TokenAt(s, n)
    ensures TokenLength(s) == n
  {
    if KindOf(s[0]).Alpha? || KindOf(s[0]).Digit? {
      RunIs(s, KindOf(s[0]), n);
    }
  }

  /** Two different newline characters are one token, two equal ones are two. */
  lemma NewlineTokens(rest: string)
    ensures TokenLength("\r\n" + rest) == 2 == TokenLength("\n\r" + rest)
    ensures TokenLength("\r\r" + rest) == 1 == TokenLength("\n\n" + rest)
    ensures TokenLength("\n") == 1 == TokenLength("\r")
  {
  }

  /** A token of the text: where it starts, where it ends, its kind. */
  datatype Token = Token(start: nat, end: nat, kind: Kind)

  class Lexer {
    const text: string
    var offset: nat

    ghost predicate Valid()
      reads this
    {
      offset <= |text|
    }

    ghost function Rest(): string
      reads this
      requires Valid()
    {
      text[offset..]
    }

    constructor (text: string)
      ensures Valid() && this.text == text && offset == 0
    {
      this.text := text;
      offset := 0;
    }

    /** Reads the next token; with `ignoreWhitespace` the white space before it is skipped. */
    method GetBaseToken(ignoreWhitespace: bool) returns (found: bool, token: Token)
      requires Valid()
      modifies this
      ensures Valid()
      ensures var s := old(Rest());
              var w := if ignoreWhitespace then RunLength(s, Whitespace) else 0;
              if w == |s| then !found && offset == |text|
              else
                && found && token == Token(old(offset) + w, old(offset) + w + TokenLength(s[w..]), KindOf(s[w]))
                && offset == token.end
    {
      hide KindOf, RunLength, TokenLength, TokenAt, FirstToken, Skipped, InRun;
      var at := offset;
      var start: nat := at;
      found := false;
      token := Token(0, 0, Other);
      var kind := Other;
      ghost var ended := false;
      NoneSkipped(ignoreWhitespace);
      while at < |text|
        invariant offset == old(offset) <= start <= at <= |text| && !ended
        invariant !found ==> start == at && Skipped(ignoreWhitespace, at)
        invariant found ==> InRun(ignoreWhitespace, start, at, kind)
        decreases |text| - at
      {
        var c := text[at];
        Step(ignoreWhitespace, start, at, kind);
        at := at + 1;
        if !found {
          if KindOf(c) == Whitespace && ignoreWhitespace {
            start := at;
            continue;
          }
          found := true;
          kind := KindOf(c);
          if kind != Digit && kind != Alpha {
            if IsNewline(c) && at < |text| && IsNewlinePair(c, text[at]) {
              at := at + 1;
            }
            ended := true;
            break;
          }
        } else if kind != KindOf(c) {
          at := at - 1;
          ended := true;
          break;
        }
      }
      if found {
        if !ended {
          RunEnds(ignoreWhitespace, start, kind);
        }
        FirstTokenIs(ignoreWhitespace, start, at - start);
        token := Token(start, at, kind);
      } else {
        AllSkipped(ignoreWhitespace);
      }
      offset := at;
    }

    /** The first token of what is left starts at `start`. */
    ghost predicate FirstToken(ignoreWhitespace: bool, start: nat)
      reads this
    {
      && offset <= start < |text|
      && (if ignoreWhitespace then KindOf(text[start]) != Whitespace else start == offset)
      && forall i :: offset <= i < start ==> KindOf(text[i]) == Whitespace
    }

    /** There is only white space in front of `at`, which is passed over. */
    ghost predicate Skipped(ignoreWhitespace: bool, at: nat)
      reads this
    {
      && offset <= at <= |text|
      && (ignoreWhitespace || at == offset)
      && forall i :: offset <= i < at ==> KindOf(text[i]) == Whitespace
    }

    /** The first token starts at `start`, and its run of letters or digits reaches to `at` at least. */
    ghost predicate InRun(ignoreWhitespace: bool, start: nat, at: nat, kind: Kind)
      reads this
    {
      && start < at <= |text|
      && FirstToken(ignoreWhitespace, start)
      && (kind.Alpha? || kind.Digit?)
      && forall i :: start <= i < at ==> KindOf(text[i]) == kind
    }

    lemma NoneSkipped(ignoreWhitespace: bool)
      requires Valid()
      ensures Skipped(ignoreWhitespace, offset)
    {
    }

    /** What the next character does, in front of the token and inside of it. */
    lemma Step(ignoreWhitespace: bool, start: nat, at: nat, kind: Kind)
      requires at < |text|
      ensures var c := text[at]; var k := KindOf(c);
              && (Skipped(ignoreWhitespace, at) ==>
                    if k == Whitespace && ignoreWhitespace then Skipped(ignoreWhitespace, at + 1)
                    else
                      && FirstToken(ignoreWhitespace, at)
                      && if k.Alpha? || k.Digit? then InRun(ignoreWhitespace, at, at + 1, k)
                         else TokenAt(text[at..], if at + 1 < |text| && IsNewlinePair(c, text[at + 1]) then 2 else 1))
              && (InRun(ignoreWhitespace, start, at, kind) ==>
                    if k == kind then InRun(ignoreWhitespace, start, at + 1, kind)
                    else FirstToken(ignoreWhitespace, start) && TokenAt(text[start..], at - start) && KindOf(text[start]) == kind)
    {
      hide KindOf;
    }

    lemma RunEnds(ignoreWhitespace: bool, start: nat, kind: Kind)
      requires InRun(ignoreWhitespace, start, |text|, kind)
      ensures FirstToken(ignoreWhitespace, start) && TokenAt(text[start..], |text| - start) && KindOf(text[start]) == kind
    {
      hide KindOf;
    }

    lemma AllSkipped(ignoreWhitespace: bool)
      requires Skipped(ignoreWhitespace, |text|)
      ensures var s := Rest(); |s| == if ignoreWhitespace then RunLength(s, Whitespace) else 0
    {
      hide KindOf;
      if ignoreWhitespace {
        RunIs(Rest(), Whitespace, |Rest()|);
      }
    }

    lemma FirstTokenIs(ignoreWhitespace: bool, start: nat, n: nat)
      requires FirstToken(ignoreWhitespace, start) && TokenAt(text[start..], n)
      ensures var s := Rest();
              var w := if ignoreWhitespace then RunLength(s, Whitespace) else 0;
              w < |s| && start == offset + w && n == TokenLength(s[w..]) && KindOf(s[w]) == KindOf(text[start])
    {
      hide KindOf, TokenAt, TokenLength;
      TokenAtLength(text[start..], n);
      assert Rest()[start - offset..] == text[start..];
      if ignoreWhitespace {
        RunIs(Rest(), Whitespace, start - offset);
      }
    }
  }
}

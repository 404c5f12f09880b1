/**
  The lookup table of translated strings as a value: a radix trie whose nodes are split when keys part,
  searched without regard to letter case, and what it must agree with: the last value stored per key.
 */
module TextTrie {
  import opened Common
  import opened DynStrings

  datatype Trie = Trie(str: string, leaf: Option<string>, kids: seq<Trie>)

  function ToLower(c: char): char {
    if 'A' <= c <= 'Z' then 'a' + (c - 'A') else c
  }

  function Lower(s: string): (r: string)
    ensures |r| == |s| && forall i :: 0 <= i < |s| ==> r[i] == ToLower(s[i])
  {
    if s == "" then "" else [ToLower(s[0])] + Lower(s[1..])
  }

  predicate IsLower(s: string) {
    forall i :: 0 <= i < |s| ==> ToLower(s[i]) == s[i]
  }

  // -------- What the code does --------

  /** The first child whose label starts with `c`. */
  function ByChar(kids: seq<Trie>, c: char): (i: nat)
    ensures i <= |kids| && (i < |kids| ==> kids[i].str != "" && kids[i].str[0] == c)
    ensures forall k :: 0 <= k < i ==> kids[k].str == "" || kids[k].str[0] != c
  {
    if kids == [] || (kids[0].str != "" && kids[0].str[0] == c) then 0 else 1 + ByChar(kids[1..], c)
  }

  predicate Matches(str: string, query: string) {
    |str| <= |query| && Fold(query[..|str|]) == Fold(str)
  }

  /** The first child whose label the query starts with, letter case aside. */
  function ByName(kids: seq<Trie>, query: string): (i: nat)
    ensures i <= |kids| && (i < |kids| ==> Matches(kids[i].str, query))
    ensures forall k :: 0 <= k < i ==> !Matches(kids[k].str, query)
  {
    if kids == [] || Matches(kids[0].str, query) then 0 else 1 + ByName(kids[1..], query)
  }

  lemma {:induction false} ByNameFound(kids: seq<Trie>, query: string, i: nat)
    requires i <= |kids| && (i < |kids| ==> Matches(kids[i].str, query))
    requires forall k :: 0 <= k < i ==> !Matches(kids[k].str, query)
    ensures ByName(kids, query) == i
  {
    if i > 0 {
      ByNameFound(kids[1..], query, i - 1);
    }
  }

  lemma {:induction false} ByCharFound(kids: seq<Trie>, c: char, i: nat)
    requires i <= |kids| && (i < |kids| ==> kids[i].str != "" && kids[i].str[0] == c)
    requires forall k :: 0 <= k < i ==> kids[k].str == "" || kids[k].str[0] != c
    ensures ByChar(kids, c) == i
  {
    if i > 0 {
      ByCharFound(kids[1..], c, i - 1);
    }
  }

  /** How far label and key agree, letter case aside. */
  function CommonLength(str: string, key: string): (n: nat)
    ensures n <= |str| && n <= |key|
    ensures str != "" && key != "" && str[0] == key[0] ==> n > 0
  {
    if str == "" || key == "" || ToLower(str[0]) != ToLower(key[0]) then 0
    else 1 + CommonLength(str[1..], key[1..])
  }

  function Split(node: Trie, key: string, len: nat, value: string): Trie
    requires len <= |key| && len <= |node.str|
  {
    var lower := Trie(node.str[len..], node.leaf, node.kids);
    if len < |key| then Trie(node.str[..len], None, [Trie(key[len..], Some(value), []), lower])
    else Trie(node.str[..len], Some(value), [lower])
  }

  function Insert(node: Trie, key: string, value: string): Trie
    decreases |key|
  {
    if key == "" then node.(leaf := Some(value))
    else
      var i := ByChar(node.kids, key[0]);
      if i == |node.kids| then node.(kids := [Trie(key, Some(value), [])] + node.kids)
      else
        var child := node.kids[i];
        var len := CommonLength(child.str, key);
        node.(kids := node.kids[i := if len == |child.str| then Insert(child, key[len..], value)
                                     else Split(child, key, len, value)])
  }

  /** A label that is empty would make the search go in circles; no label is. */
  function GetString(node: Trie, query: string): Option<string>
    decreases |query|
  {
    var i := ByName(node.kids, query);
    if i == |node.kids| then None
    else
      var child := node.kids[i];
      var rest := query[|child.str|..];
      if rest == "" then child.leaf
      else if child.str == "" then None
      else GetString(child, rest)
  }

  // -------- Well-formed tries --------

  ghost predicate WellFormed(t: Trie)
    decreases t
  {
    && DistinctStarts(t.kids)
    && forall i :: 0 <= i < |t.kids| ==>
         var kid := t.kids[i];
         kid.str != "" && IsLower(kid.str) && (kid.leaf.None? ==> |kid.kids| >= 2) && WellFormed(kid)
  }

  ghost predicate DistinctStarts(kids: seq<Trie>) {
    forall i, j :: 0 <= i < j < |kids| && kids[i].str != "" && kids[j].str != "" ==>
                     kids[i].str[0] != kids[j].str[0]
  }

  lemma {:induction false} CommonIsPrefix(str: string, key: string)
    requires IsLower(str) && IsLower(key)
    ensures var n := CommonLength(str, key);
            && str[..n] == key[..n]
            && (n < |str| && n < |key| ==> str[n] != key[n])
            && (str != "" && key != "" && str[0] == key[0] ==> n > 0)
  {
    if str != "" && key != "" && ToLower(str[0]) == ToLower(key[0]) {
      CommonIsPrefix(str[1..], key[1..]);
      var n := CommonLength(str, key);
      assert str[..n] == [str[0]] + str[1..][..n - 1];
      assert key[..n] == [key[0]] + key[1..][..n - 1];
    }
  }

  lemma InsertAt(t: Trie, key: string, value: string)
    requires WellFormed(t) && IsLower(key) && key != ""
    ensures var i := ByChar(t.kids, key[0]);
            i < |t.kids| ==>
              var len := CommonLength(t.kids[i].str, key);
              && 0 < len && t.kids[i].str[..len] == key[..len]
              && (len < |t.kids[i].str| && len < |key| ==> t.kids[i].str[len] != key[len])
  {
    var i := ByChar(t.kids, key[0]);
    if i < |t.kids| {
      CommonIsPrefix(t.kids[i].str, key);
    }
  }

  /** What is asked of a child: a label in lower case, and at least two children or a value. */
  ghost predicate GoodKid(kid: Trie) {
    kid.str != "" && IsLower(kid.str) && (kid.leaf.None? ==> |kid.kids| >= 2) && WellFormed(kid)
  }

  lemma KidIsGood(t: Trie, i: nat)
    requires WellFormed(t) && i < |t.kids|
    ensures GoodKid(t.kids[i])
  {
  }

  lemma KidChanged(t: Trie, i: nat, kid: Trie)
    requires WellFormed(t) && i < |t.kids| && GoodKid(kid) && kid.str[0] == t.kids[i].str[0]
    ensures WellFormed(t.(kids := t.kids[i := kid]))
  {
    hide IsLower;
  }

  lemma GoodKids(t: Trie)
    requires DistinctStarts(t.kids) && forall i :: 0 <= i < |t.kids| ==> GoodKid(t.kids[i])
    ensures WellFormed(t)
  {
    hide IsLower;
  }

  lemma KidAdded(t: Trie, kid: Trie)
    requires WellFormed(t) && GoodKid(kid) && ByChar(t.kids, kid.str[0]) == |t.kids|
    ensures WellFormed(t.(kids := [kid] + t.kids))
  {
    hide IsLower;
    var r := t.(kids := [kid] + t.kids);
    forall i | 0 <= i < |r.kids|
      ensures GoodKid(r.kids[i])
    {
      if i > 0 {
        KidIsGood(t, i - 1);
      }
    }
    hide WellFormed;
    GoodKids(r);
  }

  lemma {:induction false} InsertKeepsWellFormed(t: Trie, key: string, value: string)
    requires WellFormed(t) && IsLower(key)
    ensures WellFormed(Insert(t, key, value))
    ensures t.leaf.None? && |t.kids| >= 2 ==> var r := Insert(t, key, value); r.leaf.None? ==> |r.kids| >= 2
    ensures t.leaf.Some? ==> Insert(t, key, value).leaf.Some?
    ensures Insert(t, key, value).str == t.str
    decreases |key|
  {
    if key != "" {
      var i := ByChar(t.kids, key[0]);
      if i == |t.kids| {
        KidAdded(t, Trie(key, Some(value), []));
      } else {
        InsertAt(t, key, value);
        KidIsGood(t, i);
        hide WellFormed;
        var child := t.kids[i];
        var len := CommonLength(child.str, key);
        if len == |child.str| {
          InsertKeepsWellFormed(child, key[len..], value);
          KidChanged(t, i, Insert(child, key[len..], value));
        } else {
          SplitIsWellFormed(child, key, len, value);
          KidChanged(t, i, Split(child, key, len, value));
        }
      }
    }
  }

  lemma SplitIsWellFormed(child: Trie, key: string, len: nat, value: string)
    requires WellFormed(child) && IsLower(child.str) && IsLower(key)
    requires child.leaf.None? ==> |child.kids| >= 2
    requires 0 < len < |child.str| && len <= |key| && (len < |key| ==> child.str[len] != key[len])
    ensures var r := Split(child, key, len, value);
            WellFormed(r) && IsLower(r.str) && r.str != "" && r.str[0] == child.str[0]
            && (r.leaf.None? ==> |r.kids| >= 2)
  {
    var r := Split(child, key, len, value);
    var lower := r.kids[|r.kids| - 1];
    assert WellFormed(lower);
  }

  // -------- Agreement with a map --------

  /** What is stored at a lower-case path below the node. */
  function Value(t: Trie, path: string): Option<string>
    decreases |path|
  {
    if path == "" then t.leaf
    else
      var i := ByChar(t.kids, path[0]);
      if i == |t.kids| || |t.kids[i].str| > |path| || t.kids[i].str != path[..|t.kids[i].str|] then None
      else Value(t.kids[i], path[|t.kids[i].str|..])
  }

  /** The one child that can match is the one with the first character. */
  lemma {:induction false} ByCharIs(kids: seq<Trie>, c: char, i: nat)
    requires DistinctStarts(kids) && i < |kids| && kids[i].str != "" && kids[i].str[0] == c
    ensures ByChar(kids, c) == i
  {
    forall k | 0 <= k < i
      ensures kids[k].str == "" || kids[k].str[0] != kids[i].str[0]
    {
    }
  }

  lemma FoldIsLower(c: char, d: char)
    ensures ToUpper(c) == ToUpper(d) <==> ToLower(c) == ToLower(d)
  {
  }

  /** On a lower-case label, matching without regard to case is starting with it after lowering. */
  lemma MatchesIsPrefix(str: string, query: string)
    requires IsLower(str)
    ensures Matches(str, query) <==> |str| <= |query| && Lower(query)[..|str|] == str
  {
    if |str| <= |query| {
      var q := query[..|str|];
      if Fold(q) == Fold(str) {
        forall i | 0 <= i < |str|
          ensures Lower(query)[i] == str[i]
        {
          assert Fold(q)[i] == Fold(str)[i];
          FoldIsLower(query[i], str[i]);
        }
      }
      if Lower(query)[..|str|] == str {
        forall i | 0 <= i < |str|
          ensures Fold(q)[i] == Fold(str)[i]
        {
          assert Lower(query)[..|str|][i] == str[i];
          FoldIsLower(query[i], str[i]);
        }
      }
    }
  }

  /** The search finds what is stored at the lowered query. */
  lemma {:induction false} GetIsValue(t: Trie, query: string)
    requires WellFormed(t) && query != ""
    ensures GetString(t, query) == Value(t, Lower(query))
    decreases |query|
  {
    var path := Lower(query);
    var i, j := ByName(t.kids, query), ByChar(t.kids, path[0]);
    if i < |t.kids| {
      var str := t.kids[i].str;
      MatchesIsPrefix(str, query);
      assert path[..|str|][0] == str[0];
      ByCharIs(t.kids, path[0], i);
      var rest := query[|str|..];
      assert Lower(rest) == path[|str|..];
      if rest != "" {
        GetIsValue(t.kids[i], rest);
      }
    } else if j < |t.kids| {
      MatchesIsPrefix(t.kids[j].str, query);
      assert !Matches(t.kids[j].str, query);
    }
  }

  lemma {:induction false} ByCharUpdate(kids: seq<Trie>, i: nat, kid: Trie, c: char)
    requires i < |kids| && kids[i].str != "" && kid.str != "" && kid.str[0] == kids[i].str[0]
    ensures ByChar(kids[i := kid], c) == ByChar(kids, c)
  {
    if i > 0 {
      ByCharUpdate(kids[1..], i - 1, kid, c);
      assert kids[i := kid][1..] == kids[1..][i - 1 := kid];
    } else {
      assert kids[i := kid][1..] == kids[1..];
    }
  }

  /** The path continues in a child with this label, or ends there. */
  function ValueIn(kid: Trie, path: string): Option<string> {
    if |kid.str| > |path| || kid.str != path[..|kid.str|] then None else Value(kid, path[|kid.str|..])
  }

  lemma ValueStep(t: Trie, path: string)
    requires path != ""
    ensures var i := ByChar(t.kids, path[0]);
            Value(t, path) == if i == |t.kids| then None else ValueIn(t.kids[i], path)
  {
  }

  lemma ByCharFront(kid: Trie, kids: seq<Trie>, c: char)
    ensures ByChar([kid] + kids, c) == if kid.str != "" && kid.str[0] == c then 0 else 1 + ByChar(kids, c)
  {
    assert ([kid] + kids)[1..] == kids;
  }

  lemma NewKid(key: string, value: string, path: string)
    requires key != "" && path != "" && key[0] == path[0]
    ensures ValueIn(Trie(key, Some(value), []), path) == if path == key then Some(value) else None
  {
    if |key| <= |path| && key == path[..|key|] {
      assert path == key + path[|key|..];
    }
  }

  /** Splitting a node stores the new value and keeps every path through the node. */
  lemma ValueInSplit(child: Trie, key: string, len: nat, value: string, path: string)
    requires 0 < len < |child.str| && len <= |key| && child.str[..len] == key[..len]
    requires len < |key| ==> child.str[len] != key[len]
    ensures ValueIn(Split(child, key, len, value), path)
            == if path == key then Some(value) else ValueIn(child, path)
  {
    var r := Split(child, key, len, value);
    var first, last, more := child.str[..len], child.str[len..], key[len..];
    assert child.str == first + last && key == first + more;
    if len <= |path| && path[..len] == first {
      var rest := path[len..];
      assert path == first + rest;
      assert path == key <==> rest == more;
      var lower := Trie(last, child.leaf, child.kids);
      assert ValueIn(child, path) == ValueIn(lower, rest) by {
        LowerValue(child, lower, first, path);
      }
      if rest != "" {
        ValueStep(r, rest);
        var c := rest[0];
        ByCharFront(lower, [], c);
        assert [lower] + [] == [lower];
        if len < |key| {
          var added := Trie(more, Some(value), []);
          ByCharFront(added, [lower], c);
          assert [added] + [lower] == [added, lower];
          if more[0] == c {
            NewKid(more, value, rest);
          }
        }
      }
    } else {
      assert path != key;
      assert child.str[..len] == first;
      if |child.str| <= |path| {
        assert path[..|child.str|][..len] == path[..len];
      }
    }
  }

  /** The lower half of a split node takes over all that was below. */
  lemma LowerValue(child: Trie, lower: Trie, first: string, path: string)
    requires lower.leaf == child.leaf && lower.kids == child.kids && child.str == first + lower.str
    requires |first| <= |path| && path[..|first|] == first
    ensures ValueIn(child, path) == ValueIn(lower, path[|first|..])
  {
    var rest := path[|first|..];
    if |child.str| <= |path| {
      assert path[..|child.str|] == first + rest[..|lower.str|];
      assert path[|child.str|..] == rest[|lower.str|..];
      SameBehind(first, lower.str, rest[..|lower.str|]);
      SameBelow(child, lower, path[|child.str|..]);
    }
  }

  lemma SameBehind(first: string, a: string, b: string)
    ensures first + a == first + b <==> a == b
  {
    assert (first + a)[|first|..] == a && (first + b)[|first|..] == b;
  }

  lemma SameBelow(a: Trie, b: Trie, path: string)
    requires a.leaf == b.leaf && a.kids == b.kids
    ensures Value(a, path) == Value(b, path)
  {
  }

  /** The child the key goes into, afterwards. */
  function Changed(child: Trie, key: string, value: string): Trie
    requires key != ""
  {
    var len := CommonLength(child.str, key);
    if len == |child.str| then Insert(child, key[len..], value) else Split(child, key, len, value)
  }

  lemma InsertStep(t: Trie, key: string, value: string)
    requires key != "" && forall i :: 0 <= i < |t.kids| ==> t.kids[i].str != ""
    ensures var i := ByChar(t.kids, key[0]);
            Insert(t, key, value)
            == if i == |t.kids| then t.(kids := [Trie(key, Some(value), [])] + t.kids)
               else t.(kids := t.kids[i := Changed(t.kids[i], key, value)])
  {
  }

  /** Adding stores the value under its key and changes no other path. */
  lemma {:induction false} ValueAfterInsert(t: Trie, key: string, value: string, path: string)
    requires WellFormed(t) && IsLower(key)
    ensures Value(Insert(t, key, value), path) == if path == key then Some(value) else Value(t, path)
    decreases |key|, 1
  {
    if key == "" || path == "" {
      SameKids(t, key, value, path);
    } else {
      hide Insert, Value, WellFormed, ValueIn, Changed;
      KidsNamed(t);
      var r := Insert(t, key, value);
      var i := ByChar(t.kids, key[0]);
      InsertStep(t, key, value);
      ValueStep(t, path);
      ValueStep(r, path);
      if i == |t.kids| {
        ByCharFront(Trie(key, Some(value), []), t.kids, path[0]);
        if key[0] == path[0] {
          NewKid(key, value, path);
        }
      } else {
        ValueInChanged(t, key, value, path);
        ByCharUpdate(t.kids, i, r.kids[i], path[0]);
        if ByChar(t.kids, path[0]) != i {
          assert path[0] != key[0];
        }
      }
    }
  }

  lemma SameKids(t: Trie, key: string, value: string, path: string)
    requires key == "" || path == ""
    ensures Value(Insert(t, key, value), path) == if path == key then Some(value) else Value(t, path)
  {
  }

  lemma KidsNamed(t: Trie)
    requires WellFormed(t)
    ensures forall i :: 0 <= i < |t.kids| ==> t.kids[i].str != ""
  {
  }

  lemma {:induction false} ValueInChanged(t: Trie, key: string, value: string, path: string)
    requires WellFormed(t) && IsLower(key) && key != "" && path != "" && ByChar(t.kids, key[0]) < |t.kids|
    ensures var child := t.kids[ByChar(t.kids, key[0])];
            var kid := Changed(child, key, value);
            && child.str != "" && kid.str != "" && kid.str[0] == child.str[0]
            && ValueIn(kid, path) == if path == key then Some(value) else ValueIn(child, path)
    decreases |key|, 0
  {
    hide Insert, Value;
    var child := t.kids[ByChar(t.kids, key[0])];
    InsertAt(t, key, value);
    var len := CommonLength(child.str, key);
    if len == |child.str| {
      InsertKeepsWellFormed(child, key[len..], value);
      if len <= |path| && child.str == path[..len] {
        ValueAfterInsert(child, key[len..], value, path[len..]);
      }
      assert key == child.str + key[len..];
      assert len <= |path| ==> path == path[..len] + path[len..];
    } else {
      ValueInSplit(child, key, len, value, path);
    }
  }

  // -------- Whole runs --------

  datatype Entry = Entry(key: string, value: string)

  function InsertAll(t: Trie, entries: seq<Entry>): Trie {
    if entries == [] then t
    else Insert(InsertAll(t, entries[..|entries| - 1]), entries[|entries| - 1].key, entries[|entries| - 1].value)
  }

  /** The map the table stands for: the last value stored under a key. */
  function Latest(entries: seq<Entry>, key: string): Option<string> {
    if entries == [] then None
    else if entries[|entries| - 1].key == key then Some(entries[|entries| - 1].value)
    else Latest(entries[..|entries| - 1], key)
  }

  const EMPTY := Trie("", None, [])

  lemma {:induction false} RunIsWellFormed(entries: seq<Entry>)
    requires forall i :: 0 <= i < |entries| ==> IsLower(entries[i].key)
    ensures WellFormed(InsertAll(EMPTY, entries))
  {
    if entries != [] {
      var before, last := entries[..|entries| - 1], entries[|entries| - 1];
      RunIsWellFormed(before);
      InsertKeepsWellFormed(InsertAll(EMPTY, before), last.key, last.value);
    }
  }

  lemma {:induction false} ValueIsLatest(entries: seq<Entry>, path: string)
    requires forall i :: 0 <= i < |entries| ==> IsLower(entries[i].key)
    ensures Value(InsertAll(EMPTY, entries), path) == Latest(entries, path)
  {
    if entries != [] {
      var before, last := entries[..|entries| - 1], entries[|entries| - 1];
      RunIsWellFormed(before);
      ValueIsLatest(before, path);
      ValueAfterInsert(InsertAll(EMPTY, before), last.key, last.value, path);
    }
  }

  /** Main result: after any run of additions with lower-case keys, a query in any case finds the last value. */
  lemma LookupAgrees(entries: seq<Entry>, query: string)
    requires forall i :: 0 <= i < |entries| ==> IsLower(entries[i].key)
    ensures GetString(InsertAll(EMPTY, entries), query)
            == if query == "" then None else Latest(entries, Lower(query))
  {
    hide InsertAll, Latest;
    var t := InsertAll(EMPTY, entries);
    RunIsWellFormed(entries);
    if query == "" {
      KidsNamed(t);
    } else {
      ValueIsLatest(entries, Lower(query));
      GetIsValue(t, query);
    }
  }

  /** With mixed case it fails: a key that was stored last is not found. */
  lemma MixedCaseLosesKeys()
    ensures var entries := [Entry("f", "1"), Entry("Fa", "2"), Entry("fab", "3")];
            Latest(entries, "fab") == Some("3") && GetString(InsertAll(EMPTY, entries), "fab") == None
  {
    var entries := [Entry("f", "1"), Entry("Fa", "2"), Entry("fab", "3")];
    assert entries[..2] == [Entry("f", "1"), Entry("Fa", "2")];
    assert entries[..2][..1] == [Entry("f", "1")];
    var f := Trie("f", Some("1"), []);
    var fa := Trie("Fa", Some("2"), []);
    assert InsertAll(EMPTY, [Entry("f", "1")]) == Trie("", None, [f]);
  }
}

/**
  Keys of any letter case in the lookup table. Keys are stored as they are spelled and searched without
  regard to case; this agrees with a plain map as long as the keys spell what they share in the same way.
 */
module TextSpelling {
  import opened Common
  import opened TextTrie
  import opened DynStrings

  /** Where one key goes on like the other, letter case aside, it does so letter by letter. */
  predicate Alike(a: string, b: string) {
    a == "" || b == "" || ToLower(a[0]) != ToLower(b[0]) || (a[0] == b[0] && Alike(a[1..], b[1..]))
  }

  predicate AllAlike(entries: seq<Entry>) {
    forall i, j :: 0 <= i < j < |entries| ==> Alike(entries[i].key, entries[j].key)
  }

  // -------- Common prefixes --------

  lemma {:induction false} AlikeDrop(a: string, b: string, n: nat)
    requires Alike(a, b) && n <= CommonLength(a, b)
    ensures a[..n] == b[..n]
    ensures Alike(a[n..], b[n..]) && CommonLength(a[n..], b[n..]) == CommonLength(a, b) - n
  {
    if n > 0 {
      AlikeStep(a, b);
      hide Alike, CommonLength;
      AlikeDrop(a[1..], b[1..], n - 1);
      CutBehindFirst(a, n);
      CutBehindFirst(b, n);
    } else {
      assert a[0..] == a && b[0..] == b;
    }
  }

  lemma AlikeStep(a: string, b: string)
    requires Alike(a, b) && CommonLength(a, b) > 0
    ensures a != "" && b != "" && a[0] == b[0] && Alike(a[1..], b[1..])
    ensures CommonLength(a, b) == 1 + CommonLength(a[1..], b[1..])
  {
  }

  lemma {:induction false} AlikePrefix(a: string, b: string, n: nat)
    requires Alike(a, b) && n <= |a|
    ensures Alike(a[..n], b) && CommonLength(a[..n], b) == Min(n, CommonLength(a, b))
  {
    if n > 0 && b != "" && a[0] == b[0] {
      AlikePrefix(a[1..], b[1..], n - 1);
      assert a[..n][1..] == a[1..][..n - 1];
    }
  }

  /** What two keys share with a label, they share with each other. */
  lemma {:induction false} Shared(text: string, a: string, b: string, n: nat)
    requires n <= CommonLength(text, a) && n <= CommonLength(text, b)
    ensures n <= CommonLength(a, b)
  {
    if n > 0 {
      Shared(text[1..], a[1..], b[1..], n - 1);
    }
  }

  // -------- Tries that a key fits into --------

  /** No label is empty. */
  ghost predicate Labelled(t: Trie)
    decreases t
  {
    forall i :: 0 <= i < |t.kids| ==> t.kids[i].str != "" && Labelled(t.kids[i])
  }

  lemma {:induction false} InsertKeepsLabelled(t: Trie, key: string, value: string)
    requires Labelled(t)
    ensures Labelled(Insert(t, key, value)) && Insert(t, key, value).str == t.str
    decreases |key|
  {
    if key != "" && ByChar(t.kids, key[0]) < |t.kids| {
      var child := t.kids[ByChar(t.kids, key[0])];
      var len := CommonLength(child.str, key);
      if len == |child.str| {
        InsertKeepsLabelled(child, key[len..], value);
      } else {
        assert Labelled(Trie(child.str[len..], child.leaf, child.kids));
        assert Labelled(Split(child, key, len, value));
      }
    }
  }

  lemma {:induction false} RunIsLabelled(entries: seq<Entry>)
    ensures Labelled(InsertAll(EMPTY, entries))
  {
    if entries != [] {
      var before, last := entries[..|entries| - 1], entries[|entries| - 1];
      RunIsLabelled(before);
      InsertKeepsLabelled(InsertAll(EMPTY, before), last.key, last.value);
    }
  }

  /** Along every path of the trie the key is spelled like the labels. */
  ghost predicate Fits(t: Trie, key: string)
    decreases t, 0
  {
    forall i :: 0 <= i < |t.kids| ==> FitsKid(t.kids[i], key)
  }

  ghost predicate FitsKid(kid: Trie, key: string)
    decreases kid, 1
  {
    && kid.str != "" && Alike(kid.str, key)
    && (CommonLength(kid.str, key) == |kid.str| ==> Fits(kid, key[|kid.str|..]))
  }

  lemma FitsSame(a: Trie, b: Trie, key: string)
    requires a.kids == b.kids && Fits(a, key)
    ensures Fits(b, key)
  {
  }

  /** Adding a key that is spelled like another one leaves room for the other one. */
  lemma {:induction false} FitsAfterInsert(t: Trie, key: string, value: string, other: string)
    requires Fits(t, key) && Fits(t, other) && Alike(key, other)
    ensures Fits(Insert(t, key, value), other)
    decreases |key|, 1
  {
    hide FitsKid, Insert, Changed, Alike;
    if key == "" {
      InsertNothing(t, value);
      FitsSame(t, Insert(t, key, value), other);
    } else {
      KidsLabelled(t, key);
      InsertStep(t, key, value);
      var i := ByChar(t.kids, key[0]);
      if i == |t.kids| {
        NewKidFits(key, value, other);
      } else {
        FitsAfterChange(t.kids[i], key, value, other);
      }
    }
  }

  lemma InsertNothing(t: Trie, value: string)
    ensures Insert(t, "", value) == t.(leaf := Some(value))
  {
  }

  lemma KidsLabelled(t: Trie, key: string)
    requires Fits(t, key)
    ensures forall i :: 0 <= i < |t.kids| ==> t.kids[i].str != ""
  {
    forall i | 0 <= i < |t.kids|
      ensures t.kids[i].str != ""
    {
      assert FitsKid(t.kids[i], key);
    }
  }

  lemma NewKidFits(key: string, value: string, other: string)
    requires key != "" && Alike(key, other)
    ensures FitsKid(Trie(key, Some(value), []), other)
  {
  }

  lemma FitsAfterChange(kid: Trie, key: string, value: string, other: string)
    requires key != "" && FitsKid(kid, key) && FitsKid(kid, other) && Alike(key, other) && kid.str[0] == key[0]
    ensures FitsKid(Changed(kid, key, value), other)
    decreases |key|, 0
  {
    hide Alike, Insert;
    var len := CommonLength(kid.str, key);
    if len == |kid.str| {
      InsertKeepsStr(kid, key[len..], value);
      if CommonLength(kid.str, other) == len {
        Shared(kid.str, key, other, len);
        AlikeDrop(key, other, len);
        FitsAfterInsert(kid, key[len..], value, other[len..]);
      }
    } else {
      var r := Split(kid, key, len, value);
      AlikePrefix(kid.str, other, len);
      assert r.str == kid.str[..len] != "";
      if CommonLength(r.str, other) == len {
        AlikeDrop(kid.str, other, len);
        var lower := Trie(kid.str[len..], kid.leaf, kid.kids);
        assert FitsKid(lower, other[len..]) by {
          if CommonLength(kid.str, other) == |kid.str| {
            assert other[len..][|lower.str|..] == other[|kid.str|..];
            FitsSame(kid, lower, other[|kid.str|..]);
          }
        }
        if len < |key| {
          Shared(kid.str, key, other, len);
          AlikeDrop(key, other, len);
          NewKidFits(key[len..], value, other[len..]);
        }
        assert Fits(r, other[len..]);
      }
    }
  }

  lemma InsertKeepsStr(t: Trie, key: string, value: string)
    ensures Insert(t, key, value).str == t.str
  {
  }

  lemma {:induction false} RunFits(entries: seq<Entry>, key: string)
    requires AllAlike(entries) && forall i :: 0 <= i < |entries| ==> Alike(entries[i].key, key)
    ensures Fits(InsertAll(EMPTY, entries), key)
    decreases |entries|
  {
    hide Alike, Fits;
    if entries == [] {
      EmptyFits(key);
    } else {
      var before, last := entries[..|entries| - 1], entries[|entries| - 1];
      RunFits(before, last.key);
      RunFits(before, key);
      FitsAfterInsert(InsertAll(EMPTY, before), last.key, last.value, key);
    }
  }

  lemma EmptyFits(key: string)
    ensures Fits(EMPTY, key)
  {
  }

  // -------- Lowering --------

  function LowerTrie(t: Trie): Trie {
    Trie(Lower(t.str), t.leaf, seq(|t.kids|, i requires 0 <= i < |t.kids| => LowerTrie(t.kids[i])))
  }

  lemma LowerParts(t: Trie)
    ensures var low := LowerTrie(t);
            && low.str == Lower(t.str) && low.leaf == t.leaf && |low.kids| == |t.kids|
            && forall k :: 0 <= k < |t.kids| ==>
                 low.kids[k] == LowerTrie(t.kids[k]) && low.kids[k].str == Lower(t.kids[k].str)
  {
    forall k | 0 <= k < |t.kids|
      ensures LowerTrie(t.kids[k]).str == Lower(t.kids[k].str)
    {
    }
  }

  function LowerKeys(entries: seq<Entry>): (r: seq<Entry>)
    ensures |r| == |entries| && forall i :: 0 <= i < |r| ==> IsLower(r[i].key)
  {
    if entries == [] then []
    else
      var last := entries[|entries| - 1];
      LowerKeys(entries[..|entries| - 1]) + [Entry(Lower(last.key), last.value)]
  }

  lemma LowerDrop(s: string, n: nat)
    requires n <= |s|
    ensures Lower(s[n..]) == Lower(s)[n..] && Lower(s[..n]) == Lower(s)[..n]
  {
    hide Lower;
  }

  lemma MatchesLowered(str: string, query: string)
    ensures Matches(Lower(str), query) <==> Matches(str, query)
  {
    hide Fold, Lower;
    forall i | 0 <= i < |str|
      ensures Fold(Lower(str))[i] == Fold(str)[i]
    {
      FoldIsLower(Lower(str)[i], str[i]);
    }
    assert Fold(Lower(str)) == Fold(str);
  }

  /** The search does not notice how the labels are spelled. */
  lemma {:induction false} GetLowered(t: Trie, query: string)
    ensures GetString(LowerTrie(t), query) == GetString(t, query)
    decreases |query|
  {
    hide LowerTrie;
    LowerParts(t);
    var low := LowerTrie(t);
    var i := ByName(t.kids, query);
    forall k | 0 <= k < |t.kids|
      ensures Matches(low.kids[k].str, query) <==> Matches(t.kids[k].str, query)
    {
      MatchesLowered(t.kids[k].str, query);
    }
    ByNameFound(low.kids, query, i);
    if i < |t.kids| {
      LowerParts(t.kids[i]);
    }
    if i < |t.kids| && t.kids[i].str != "" {
      GetLowered(t.kids[i], query[|t.kids[i].str|..]);
    }
  }

  lemma {:induction false} CommonLowered(a: string, b: string)
    ensures CommonLength(Lower(a), Lower(b)) == CommonLength(a, b)
  {
    if a != "" && b != "" {
      CommonLowered(a[1..], b[1..]);
      assert Lower(a)[1..] == Lower(a[1..]) && Lower(b)[1..] == Lower(b[1..]);
    }
  }

  /** The key goes into the same child when everything is lowered. */
  lemma ByCharLowered(t: Trie, key: string)
    requires key != "" && Fits(t, key)
    ensures ByChar(LowerTrie(t).kids, Lower(key)[0]) == ByChar(t.kids, key[0])
  {
    hide LowerTrie;
    LowerParts(t);
    var low := LowerTrie(t);
    forall k | 0 <= k < |t.kids|
      ensures t.kids[k].str != "" && low.kids[k].str != ""
      ensures low.kids[k].str[0] == Lower(key)[0] <==> t.kids[k].str[0] == key[0]
    {
      assert FitsKid(t.kids[k], key);
    }
    ByCharFound(low.kids, Lower(key)[0], ByChar(t.kids, key[0]));
  }

  lemma {:induction false} InsertLowered(t: Trie, key: string, value: string)
    requires Fits(t, key)
    ensures LowerTrie(Insert(t, key, value)) == Insert(LowerTrie(t), Lower(key), value)
    decreases |key|, 1
  {
    hide Insert, Changed, FitsKid, LowerTrie;
    var low := LowerTrie(t);
    var r := Insert(t, key, value);
    LowerParts(t);
    if key == "" {
      InsertNothing(t, value);
      InsertNothing(low, value);
      LowerParts(r);
      assert LowerTrie(r).kids == low.kids;
    } else {
      KidsLabelled(t, key);
      InsertStep(t, key, value);
      InsertStep(low, Lower(key), value);
      ByCharLowered(t, key);
      var i := ByChar(t.kids, key[0]);
      if i == |t.kids| {
        LowerLeaf(key, value);
        LowerFront(r.kids[0], t);
      } else {
        ChangeLowered(t.kids[i], key, value);
        LowerUpdate(t, i, r.kids[i]);
      }
    }
  }

  lemma LowerFront(kid: Trie, t: Trie)
    ensures LowerTrie(t.(kids := [kid] + t.kids)) == LowerTrie(t).(kids := [LowerTrie(kid)] + LowerTrie(t).kids)
  {
    assert LowerTrie(t.(kids := [kid] + t.kids)).kids == [LowerTrie(kid)] + LowerTrie(t).kids;
  }

  lemma LowerUpdate(t: Trie, i: nat, kid: Trie)
    requires i < |t.kids|
    ensures |LowerTrie(t).kids| == |t.kids|
    ensures LowerTrie(t.(kids := t.kids[i := kid])) == LowerTrie(t).(kids := LowerTrie(t).kids[i := LowerTrie(kid)])
  {
    assert LowerTrie(t.(kids := t.kids[i := kid])).kids == LowerTrie(t).kids[i := LowerTrie(kid)];
  }

  lemma LowerLeaf(key: string, value: string)
    ensures LowerTrie(Trie(key, Some(value), [])) == Trie(Lower(key), Some(value), [])
  {
  }

  lemma ChangeLowered(kid: Trie, key: string, value: string)
    requires key != "" && FitsKid(kid, key)
    ensures LowerTrie(Changed(kid, key, value)) == Changed(LowerTrie(kid), Lower(key), value)
    decreases |key|, 0
  {
    hide Insert;
    CommonLowered(kid.str, key);
    var len := CommonLength(kid.str, key);
    LowerDrop(key, len);
    LowerDrop(kid.str, len);
    if len == |kid.str| {
      InsertLowered(kid, key[len..], value);
    } else {
      SplitLowered(kid, key, len, value);
    }
  }

  lemma SplitLowered(kid: Trie, key: string, len: nat, value: string)
    requires len <= |key| && len <= |kid.str|
    ensures LowerTrie(Split(kid, key, len, value)) == Split(LowerTrie(kid), Lower(key), len, value)
  {
    LowerDrop(key, len);
    LowerDrop(kid.str, len);
    var lower := Trie(kid.str[len..], kid.leaf, kid.kids);
    assert LowerTrie(lower) == Trie(Lower(kid.str)[len..], kid.leaf, LowerTrie(kid).kids);
    LowerLeaf(key[len..], value);
    var r := LowerTrie(Split(kid, key, len, value));
    assert r.kids == Split(LowerTrie(kid), Lower(key), len, value).kids;
  }

  lemma {:induction false} RunLowered(entries: seq<Entry>)
    requires AllAlike(entries)
    ensures LowerTrie(InsertAll(EMPTY, entries)) == InsertAll(EMPTY, LowerKeys(entries))
    decreases |entries|
  {
    hide Insert, Fits, Alike;
    if entries == [] {
      assert LowerTrie(EMPTY) == EMPTY;
    } else {
      var before, last := entries[..|entries| - 1], entries[|entries| - 1];
      RunLowered(before);
      RunFits(before, last.key);
      InsertLowered(InsertAll(EMPTY, before), last.key, last.value);
      var low := LowerKeys(entries);
      assert low[..|low| - 1] == LowerKeys(before);
    }
  }

  // -------- Where the spelling of a key matters --------

  lemma MatchesLower(str: string, query: string)
    ensures Matches(str, query) <==> |str| <= |query| && Lower(query[..|str|]) == Lower(str)
  {
    hide Fold, Lower;
    if |str| <= |query| {
      var q := query[..|str|];
      forall i | 0 <= i < |str|
        ensures Fold(q)[i] == Fold(str)[i] <==> Lower(q)[i] == Lower(str)[i]
      {
        FoldIsLower(q[i], str[i]);
      }
      assert Matches(str, query) ==> Lower(q) == Lower(str);
      assert Lower(q) == Lower(str) ==> forall i :: 0 <= i < |str| ==> Fold(q)[i] == Fold(str)[i];
    }
  }

  /** Labels match queries that are the same letter case aside alike. */
  lemma MatchesAnyCase(str: string, a: string, b: string)
    requires Lower(a) == Lower(b)
    ensures Matches(str, a) <==> Matches(str, b)
  {
    hide Matches, Lower;
    assert |a| == |Lower(a)| == |b|;
    MatchesLower(str, a);
    MatchesLower(str, b);
    if |str| <= |a| {
      LowerDrop(a, |str|);
      LowerDrop(b, |str|);
    }
  }

  lemma {:induction false} CommonIsAlike(str: string, key: string, n: nat)
    requires n <= CommonLength(str, key)
    ensures Lower(str[..n]) == Lower(key[..n])
  {
    forall i | 0 <= i < n
      ensures ToLower(str[i]) == ToLower(key[i])
    {
      CommonAt(str, key, i);
    }
  }

  lemma {:induction false} CommonAt(str: string, key: string, i: nat)
    requires i < CommonLength(str, key)
    ensures ToLower(str[i]) == ToLower(key[i])
  {
    if i > 0 {
      CommonAt(str[1..], key[1..], i - 1);
    }
  }

  /** What a label shares with a key matches the key in any case. */
  lemma CommonMatches(str: string, key: string, query: string, n: nat)
    requires n <= CommonLength(str, key) && Lower(query) == Lower(key)
    ensures Matches(str[..n], query)
  {
    hide Matches, Lower;
    assert |query| == |Lower(query)| == |key|;
    CommonIsAlike(str, key, n);
    LowerDrop(query, n);
    LowerDrop(key, n);
    MatchesLower(str[..n], query);
  }

  /**
    On the way on which the code adds `key`, no child in front is taken by the search for what is left of it.
   */
  predicate Reached(t: Trie, key: string)
    decreases |key|
  {
    key != "" &&
    var i := ByChar(t.kids, key[0]);
    i == |t.kids|
    || (ByName(t.kids, key) >= i
        && var len := CommonLength(t.kids[i].str, key);
        (len == |t.kids[i].str| && len < |key| ==> Reached(t.kids[i], key[len..])))
  }

  /**
    Main result for any table and any spelling: asked for the key it was just given, the table answers with the
    new value exactly if the key is reached, and otherwise with what it answered before.
   */
  lemma {:induction false} AddedKeyIsFound(t: Trie, key: string, value: string, query: string)
    requires Labelled(t) && key != "" && Lower(query) == Lower(key)
    ensures GetString(Insert(t, key, value), query) == if Reached(t, key) then Some(value) else GetString(t, query)
    decreases |key|
  {
    hide Insert, Changed, Matches, Lower;
    assert |query| == |Lower(query)| == |key|;
    InsertStep(t, key, value);
    var i := ByChar(t.kids, key[0]);
    SameChild(t.kids, key, query);
    if i == |t.kids| {
      NewChildFound(t, key, value, query);
    } else if ByName(t.kids, key) < i {
      ByNameFound(Insert(t, key, value).kids, query, ByName(t.kids, key));
    } else {
      ChangedChildFound(t, key, value, query);
    }
  }

  lemma {:induction false} SameChild(kids: seq<Trie>, a: string, b: string)
    requires Lower(a) == Lower(b)
    ensures ByName(kids, a) == ByName(kids, b)
  {
    hide Matches, Lower;
    if kids != [] {
      MatchesAnyCase(kids[0].str, a, b);
      SameChild(kids[1..], a, b);
    }
  }

  lemma NewChildFound(t: Trie, key: string, value: string, query: string)
    requires key != "" && Lower(query) == Lower(key)
    ensures GetString(t.(kids := [Trie(key, Some(value), [])] + t.kids), query) == Some(value)
  {
    hide Matches, Lower;
    assert |query| == |Lower(query)| == |key|;
    MatchesLower(key, query);
    assert query[..|key|] == query;
  }

  lemma ChangedChildFound(t: Trie, key: string, value: string, query: string)
    requires Labelled(t) && key != "" && Lower(query) == Lower(key)
    requires var i := ByChar(t.kids, key[0]); i < |t.kids| && i <= ByName(t.kids, key) == ByName(t.kids, query)
    ensures GetString(Insert(t, key, value), query) == if Reached(t, key) then Some(value) else GetString(t, query)
    decreases |key|, 0
  {
    hide Insert, Matches, Lower;
    assert |query| == |Lower(query)| == |key|;
    InsertStep(t, key, value);
    var i := ByChar(t.kids, key[0]);
    var child, r := t.kids[i], Insert(t, key, value);
    var len := CommonLength(child.str, key);
    assert child.str[..|child.str|] == child.str;
    CommonMatches(child.str, key, query, len);
    LowerDrop(key, len);
    LowerDrop(query, len);
    if len == |child.str| {
      InsertKeepsStr(child, key[len..], value);
      ByNameFound(t.kids, query, i);
      ByNameFound(r.kids, query, i);
      if len < |key| {
        AddedKeyIsFound(child, key[len..], value, query[len..]);
      } else {
        InsertNothing(child, value);
      }
    } else {
      ByNameFound(r.kids, query, i);
      if len < |key| {
        var lower := Trie(child.str[len..], child.leaf, child.kids);
        NewChildFound(Trie(child.str[..len], None, [lower]), key[len..], value, query[len..]);
      }
    }
  }

  /** A longer word than the key, letter case aside. */
  predicate Longer(query: string, key: string) {
    |query| > |key| && Matches(key, query)
  }

  /**
    A key whose first letter no child spells becomes the first child, and exactly the longer words that were
    stored are not found any more.
   */
  lemma NewChildHides(t: Trie, key: string, value: string, query: string)
    requires Labelled(t) && key != "" && ByChar(t.kids, key[0]) == |t.kids|
    ensures GetString(Insert(t, key, value), query)
            == if Lower(query) == Lower(key) then Some(value) else if Longer(query, key) then None else GetString(t, query)
  {
    hide Insert, Matches, Lower;
    InsertStep(t, key, value);
    MatchesLower(key, query);
    var r := Insert(t, key, value);
    if |query| == |key| {
      assert query[..|key|] == query;
    } else {
      assert |Lower(query)| != |Lower(key)|;
    }
    assert r.kids[1..] == t.kids;
  }

  /**
    Main result for keys of any case: if the keys are spelled alike where they agree, a query in any case
    finds the last value stored under a key that is the same letter case aside.
   */
  lemma LookupIgnoresCase(entries: seq<Entry>, query: string)
    requires AllAlike(entries)
    ensures GetString(InsertAll(EMPTY, entries), query)
            == if query == "" then None else Latest(LowerKeys(entries), Lower(query))
  {
    hide InsertAll, Latest, GetString, LowerTrie;
    RunLowered(entries);
    GetLowered(InsertAll(EMPTY, entries), query);
    LookupAgrees(LowerKeys(entries), query);
  }
}

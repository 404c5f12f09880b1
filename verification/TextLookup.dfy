/**
  The lookup table of translated strings in memory: nodes linked to their first child and their next
  sibling, split and relinked in place. A ghost tree says which nodes there are; its value is a trie.
 */
module TextLookups {
  import opened Common
  import opened DynStrings
  import opened TextTrie
  import opened TextSpelling

  class TextNode {
    var str: string
    var leaf: Option<string>
    var firstSubnode: TextNode?
    var next: TextNode?

    constructor (str: string, leaf: Option<string>)
      ensures this.str == str && this.leaf == leaf && firstSubnode == null && next == null
    {
      this.str, this.leaf := str, leaf;
      firstSubnode, next := null, null;
    }
  }

  datatype Tree = Tree(node: TextNode, kids: seq<Tree>)

  ghost function Nodes(t: Tree): set<TextNode>
    decreases t
  {
    {t.node} + NodesAll(t.kids)
  }

  ghost function NodesAll(kids: seq<Tree>): set<TextNode>
    decreases kids
  {
    if kids == [] then {} else Nodes(kids[0]) + NodesAll(kids[1..])
  }

  /** No node occurs twice. */
  ghost predicate Distinct(t: Tree)
    decreases t
  {
    t.node !in NodesAll(t.kids) && DistinctAll(t.kids)
  }

  ghost predicate DistinctAll(kids: seq<Tree>)
    decreases kids
  {
    kids == [] || (Distinct(kids[0]) && Nodes(kids[0]) !! NodesAll(kids[1..]) && DistinctAll(kids[1..]))
  }

  // -------- Memory --------

  /** The fields of a node. */
  datatype Cell = Cell(str: string, leaf: Option<string>, firstSubnode: TextNode?, next: TextNode?)

  type Store = map<TextNode, Cell>

  ghost function Memory(nodes: set<TextNode>): Store
    reads nodes
  {
    map x | x in nodes :: Cell(x.str, x.leaf, x.firstSubnode, x.next)
  }

  /** The links in memory are those of the tree. */
  ghost predicate Linked(m: Store, t: Tree)
    decreases t
  {
    t.node in m && Chain(m, m[t.node].firstSubnode, t.kids)
  }

  ghost predicate Chain(m: Store, n: TextNode?, kids: seq<Tree>)
    decreases kids
  {
    if kids == [] then n == null
    else n == kids[0].node && Linked(m, kids[0]) && Chain(m, m[kids[0].node].next, kids[1..])
  }

  ghost function Contents(m: Store, t: Tree): Trie
    requires Linked(m, t)
    decreases t
  {
    Trie(m[t.node].str, m[t.node].leaf, ContentsAll(m, m[t.node].firstSubnode, t.kids))
  }

  ghost function ContentsAll(m: Store, n: TextNode?, kids: seq<Tree>): (r: seq<Trie>)
    requires Chain(m, n, kids)
    ensures |r| == |kids|
    decreases kids
  {
    if kids == [] then [] else [Contents(m, kids[0])] + ContentsAll(m, m[kids[0].node].next, kids[1..])
  }

  predicate Agree(a: Store, b: Store, nodes: set<TextNode>) {
    forall x :: x in nodes && x in a ==> x in b && a[x] == b[x]
  }

  lemma {:induction false} Frame(a: Store, b: Store, t: Tree)
    requires Linked(a, t) && Agree(a, b, Nodes(t))
    ensures Linked(b, t) && Contents(b, t) == Contents(a, t)
    decreases t, 0
  {
    FrameAll(a, b, a[t.node].firstSubnode, t.kids);
  }

  lemma {:induction false} FrameAll(a: Store, b: Store, n: TextNode?, kids: seq<Tree>)
    requires Chain(a, n, kids) && Agree(a, b, NodesAll(kids))
    ensures Chain(b, n, kids) && ContentsAll(b, n, kids) == ContentsAll(a, n, kids)
    decreases kids, 1
  {
    if kids != [] {
      Frame(a, b, kids[0]);
      FrameAll(a, b, a[kids[0].node].next, kids[1..]);
    }
  }

  lemma {:induction false} KidAt(m: Store, n: TextNode?, kids: seq<Tree>, i: nat)
    requires i < |kids| && DistinctAll(kids) && Chain(m, n, kids)
    ensures Nodes(kids[i]) <= NodesAll(kids) && Distinct(kids[i]) && Linked(m, kids[i])
    ensures ContentsAll(m, n, kids)[i] == Contents(m, kids[i])
    ensures i > 0 ==> Nodes(kids[i]) <= NodesAll(kids[1..])
    decreases i
  {
    if i > 0 {
      KidAt(m, m[kids[0].node].next, kids[1..], i - 1);
    }
  }

  /** Replacing one subtree of a chain, when nothing else has changed. */
  lemma {:induction false} Replace(a: Store, b: Store, n: TextNode?, kids: seq<Tree>, i: nat, r: Tree)
    requires i < |kids| && DistinctAll(kids) && Chain(a, n, kids)
    requires Agree(a, b, NodesAll(kids) - Nodes(kids[i]))
    requires r.node == kids[i].node && Linked(b, r) && Distinct(r) && r.node in a && b[r.node].next == a[r.node].next
    requires (Nodes(r) - Nodes(kids[i])) !! NodesAll(kids)
    ensures var changed := kids[i := r];
            && Chain(b, n, changed) && DistinctAll(changed)
            && ContentsAll(b, n, changed) == ContentsAll(a, n, kids)[i := Contents(b, r)]
            && NodesAll(changed) <= NodesAll(kids) + Nodes(r)
    decreases i
  {
    var changed := kids[i := r];
    if i == 0 {
      assert changed[1..] == kids[1..];
      FrameAll(a, b, a[r.node].next, kids[1..]);
    } else {
      assert changed[1..] == kids[1..][i - 1 := r];
      KidAt(a, n, kids, i);
      Frame(a, b, kids[0]);
      assert kids[0].node in Nodes(kids[0]);
      Replace(a, b, a[kids[0].node].next, kids[1..], i - 1, r);
    }
  }

  // -------- A table --------

  lemma {:induction false} NodesAllocated(t: Tree)
    ensures forall x :: x in Nodes(t) ==> allocated(x)
    decreases t, 0
  {
    AllAllocated(t.kids);
  }

  lemma {:induction false} AllAllocated(kids: seq<Tree>)
    ensures forall x :: x in NodesAll(kids) ==> allocated(x)
    decreases kids, 1
  {
    if kids != [] {
      NodesAllocated(kids[0]);
      AllAllocated(kids[1..]);
    }
  }

  ghost predicate Valid(t: Tree)
    reads Nodes(t)
  {
    Distinct(t) && Linked(Memory(Nodes(t)), t)
  }

  ghost function View(t: Tree): Trie
    requires Valid(t)
    reads Nodes(t)
  {
    Contents(Memory(Nodes(t)), t)
  }

  /** A subtree on its own. */
  lemma Kid(t: Tree, i: nat)
    requires Valid(t) && i < |t.kids|
    ensures Nodes(t.kids[i]) < Nodes(t) && t.node !in Nodes(t.kids[i])
    ensures Valid(t.kids[i]) && View(t).kids[i] == View(t.kids[i])
    ensures |View(t).kids| == |t.kids| && t.kids[i].node in Nodes(t.kids[i])
  {
    var m := Memory(Nodes(t));
    KidAt(m, m[t.node].firstSubnode, t.kids, i);
    Frame(m, Memory(Nodes(t.kids[i])), t.kids[i]);
  }

  /** The siblings from the `i`-th on. */
  lemma {:induction false} ChainFrom(m: Store, n: TextNode?, kids: seq<Tree>, i: nat)
    requires i <= |kids| && Chain(m, n, kids)
    ensures var at := if i == |kids| then null else kids[i].node;
            && Chain(m, at, kids[i..])
            && (i < |kids| ==> at in m && m[at].next == if i + 1 == |kids| then null else kids[i + 1].node)
    ensures i == 0 ==> n == if kids == [] then null else kids[0].node
  {
    if i == 0 {
      assert kids[0..] == kids;
    } else {
      ChainFrom(m, m[kids[0].node].next, kids[1..], i - 1);
      assert kids[1..][i - 1..] == kids[i..];
    }
  }

  /** Walking the siblings. */
  lemma Sibling(t: Tree, i: nat)
    requires Valid(t) && i <= |t.kids|
    ensures t.node.firstSubnode == if t.kids == [] then null else t.kids[0].node
    ensures i < |t.kids| ==> t.kids[i].node in Nodes(t)
    ensures i < |t.kids| ==> t.kids[i].node.next == if i + 1 == |t.kids| then null else t.kids[i + 1].node
    ensures i < |t.kids| ==> View(t).kids[i].str == t.kids[i].node.str && View(t).kids[i].leaf == t.kids[i].node.leaf
    ensures |View(t).kids| == |t.kids|
  {
    var m := Memory(Nodes(t));
    ChainFrom(m, m[t.node].firstSubnode, t.kids, i);
    ChainFrom(m, m[t.node].firstSubnode, t.kids, 0);
    if i < |t.kids| {
      Kid(t, i);
    }
  }

  method TextNodeByChar(node: TextNode, ch: char, ghost t: Tree) returns (child: TextNode?, ghost i: nat)
    requires Valid(t) && t.node == node
    ensures Valid(t) && |View(t).kids| == |t.kids| && i == ByChar(View(t).kids, ch)
    ensures var k := ByChar(View(t).kids, ch); child == if k == |t.kids| then null else t.kids[k].node
  {
    hide Valid, View, ByChar;
    ghost var view := View(t);
    NodesAllocated(t);
    i := 0;
    Sibling(t, 0);
    child := node.firstSubnode;
    while child != null
      invariant Valid(t) && View(t) == view
      invariant i <= |t.kids| && child == if i == |t.kids| then null else t.kids[i].node
      invariant forall k :: 0 <= k < i ==> view.kids[k].str == "" || view.kids[k].str[0] != ch
      decreases |t.kids| - i
    {
      Sibling(t, i);
      if child.str != "" && child.str[0] == ch {
        ByCharFound(view.kids, ch, i);
        return;
      }
      child := child.next;
      i := i + 1;
    }
    ByCharFound(view.kids, ch, i);
  }

  lemma ComparedIsMatch(str: string, query: string)
    ensures Fold(Prefix(str, |str|)) == Fold(Prefix(query, |str|)) <==> Matches(str, query)
  {
    hide Fold;
    if |query| == |str| {
      assert query[..|str|] == query;
    }
  }

  method TextNodeByName(node: TextNode, name: string, ghost t: Tree) returns (child: TextNode?, ghost i: nat)
    requires Valid(t) && t.node == node
    ensures Valid(t) && |View(t).kids| == |t.kids| && i == ByName(View(t).kids, name)
    ensures var k := ByName(View(t).kids, name); child == if k == |t.kids| then null else t.kids[k].node
  {
    hide Valid, View, ByName, Fold, Matches;
    ghost var view := View(t);
    NodesAllocated(t);
    i := 0;
    Sibling(t, 0);
    child := node.firstSubnode;
    while child != null
      invariant Valid(t) && View(t) == view
      invariant i <= |t.kids| && child == if i == |t.kids| then null else t.kids[i].node
      invariant forall k :: 0 <= k < i ==> !Matches(view.kids[k].str, name)
      decreases |t.kids| - i
    {
      Sibling(t, i);
      var order := AstrCmpIN(child.str, name, |child.str|);
      ComparedIsMatch(child.str, name);
      if order == 0 {
        ByNameFound(view.kids, name, i);
        return;
      }
      child := child.next;
      i := i + 1;
    }
    ByNameFound(view.kids, name, i);
  }

  method FindString(node: TextNode, query: string, ghost t: Tree) returns (out: Option<string>)
    requires Valid(t) && t.node == node && Labelled(View(t))
    ensures Valid(t) && out == TextTrie.GetString(View(t), query)
    decreases |query|
  {
    hide Valid, View, ByName;
    ghost var view := View(t);
    NodesAllocated(t);
    var child, i := TextNodeByName(node, query, t);
    if child == null {
      return None;
    }
    Kid(t, i);
    Sibling(t, i);
    var rest := query[|child.str|..];
    if rest != "" {
      out := FindString(child, rest, t.kids[i]);
      return;
    }
    out := child.leaf;
  }

  /** A new node in front of the children. */
  lemma InFront(m: Store, created: TextNode, kids: seq<Tree>)
    requires DistinctAll(kids) && created !in NodesAll(kids) && created in m && m[created].firstSubnode == null
    requires Chain(m, m[created].next, kids)
    ensures var all := [Tree(created, [])] + kids;
            && NodesAll(all) == {created} + NodesAll(kids) && DistinctAll(all) && Chain(m, created, all)
            && ContentsAll(m, created, all)
               == [Trie(m[created].str, m[created].leaf, [])] + ContentsAll(m, m[created].next, kids)
  {
    var all := [Tree(created, [])] + kids;
    assert all[1..] == kids && all[0] == Tree(created, []);
    assert Nodes(all[0]) == {created};
  }

  method CreateSubnode(key: string, leaf: Option<string>, node: TextNode, ghost t: Tree) returns (ghost r: Tree)
    requires Valid(t) && t.node == node
    modifies node`firstSubnode
    ensures r.node == node && Valid(r) && fresh(Nodes(r) - Nodes(t)) && Nodes(t) <= Nodes(r)
    ensures View(r) == old(View(t)).(kids := [Trie(key, leaf, [])] + old(View(t)).kids)
  {
    hide Chain, ContentsAll, DistinctAll, NodesAll;
    ghost var before := Memory(Nodes(t));
    NodesAllocated(t);
    var created := new TextNode(key, leaf);
    created.next := node.firstSubnode;
    node.firstSubnode := created;
    ghost var after := Memory(Nodes(t) + {created});
    FrameAll(before, after, before[node].firstSubnode, t.kids);
    InFront(after, created, t.kids);
    r := Tree(node, [Tree(created, [])] + t.kids);
    assert Nodes(r) == Nodes(t) + {created};
  }

  /** How far the label of a node and a key agree. */
  method CommonPrefix(str: string, key: string) returns (len: nat)
    ensures len == CommonLength(str, key)
  {
    len := 0;
    while len < |str|
      invariant len <= |str| && len <= |key|
      invariant CommonLength(str, key) == len + CommonLength(str[len..], key[len..])
    {
      if len == |key| || ToLower(str[len]) != ToLower(key[len]) {
        break;
      }
      assert str[len..][1..] == str[len + 1..] && key[len..][1..] == key[len + 1..];
      len := len + 1;
    }
  }

  method ReplaceLeaf(node: TextNode, leaf: Option<string>, ghost t: Tree)
    requires Valid(t) && t.node == node
    modifies node`leaf
    ensures Valid(t) && View(t) == old(View(t)).(leaf := leaf)
  {
    hide Chain, ContentsAll, DistinctAll, NodesAll;
    ghost var before := Memory(Nodes(t));
    node.leaf := leaf;
    FrameAll(before, Memory(Nodes(t)), before[node].firstSubnode, t.kids);
  }

  /** The lower half of a node becomes its only child; the node gets another leaf. */
  method HalveNode(len: nat, leaf: Option<string>, node: TextNode, ghost t: Tree) returns (ghost r: Tree)
    requires Valid(t) && t.node == node && len <= |node.str|
    modifies node
    ensures r.node == node && Valid(r) && fresh(Nodes(r) - Nodes(t)) && node.next == old(node.next)
    ensures var was := old(View(t));
            View(r) == Trie(was.str[..len], leaf, [Trie(was.str[len..], was.leaf, was.kids)])
  {
    hide Chain, ContentsAll, DistinctAll, NodesAll;
    ghost var before := Memory(Nodes(t));
    NodesAllocated(t);
    var split := new TextNode(node.str[len..], node.leaf);
    split.firstSubnode := node.firstSubnode;
    node.firstSubnode := split;
    node.str := node.str[..len];
    node.leaf := leaf;
    ghost var after := Memory(Nodes(t) + {split});
    FrameAll(before, after, before[node].firstSubnode, t.kids);
    r := Tree(node, [Tree(split, t.kids)]);
    OneKid(after, split, t.kids);
    assert Nodes(r) == Nodes(t) + {split};
  }

  method SplitNode(key: string, len: nat, leaf: Option<string>, node: TextNode, ghost t: Tree) returns (ghost r: Tree)
    requires Valid(t) && t.node == node && len <= |key| && len <= |node.str| && leaf.Some?
    modifies node
    ensures r.node == node && Valid(r) && fresh(Nodes(r) - Nodes(t)) && node.next == old(node.next)
    ensures View(r) == Split(old(View(t)), key, len, leaf.value)
  {
    hide Valid, View;
    StrOf(t);
    r := HalveNode(len, if len < |key| then None else leaf, node, t);
    if len < |key| {
      r := CreateSubnode(key[len..], leaf, node, r);
    }
  }

  lemma StrOf(t: Tree)
    requires Valid(t)
    ensures View(t).str == t.node.str && View(t).leaf == t.node.leaf
  {
  }

  lemma OneKid(m: Store, split: TextNode, kids: seq<Tree>)
    requires DistinctAll(kids) && split !in NodesAll(kids) && split in m && m[split].next == null
    requires Chain(m, m[split].firstSubnode, kids)
    ensures var all := [Tree(split, kids)];
            && NodesAll(all) == {split} + NodesAll(kids) && DistinctAll(all) && Chain(m, split, all)
            && ContentsAll(m, split, all)
               == [Trie(m[split].str, m[split].leaf, ContentsAll(m, m[split].firstSubnode, kids))]
  {
    var all := [Tree(split, kids)];
    assert all[1..] == [];
  }

  /** A node whose `i`-th child has been changed, and nothing else. */
  lemma Reassemble(a: Store, b: Store, t: Tree, i: nat, kid: Tree)
    requires i < |t.kids| && Distinct(t) && Linked(a, t) && Agree(a, b, Nodes(t) - Nodes(t.kids[i]))
    requires kid.node == t.kids[i].node && Linked(b, kid) && Distinct(kid)
    requires kid.node in a && b[kid.node].next == a[kid.node].next
    requires (Nodes(kid) - Nodes(t.kids[i])) !! Nodes(t)
    ensures var r := Tree(t.node, t.kids[i := kid]);
            && Distinct(r) && Linked(b, r) && Nodes(r) <= Nodes(t) + Nodes(kid)
            && Contents(b, r) == Contents(a, t).(kids := Contents(a, t).kids[i := Contents(b, kid)])
  {
    hide Chain, ContentsAll, DistinctAll, NodesAll;
    KidAt(a, a[t.node].firstSubnode, t.kids, i);
    Replace(a, b, a[t.node].firstSubnode, t.kids, i, kid);
  }

  lemma RootIn(t: Tree)
    ensures t.node in Nodes(t)
  {
  }

  /** Adds a value under a key, below the node. */
  method AddString(key: string, leaf: Option<string>, node: TextNode, ghost t: Tree) returns (ghost r: Tree)
    requires Valid(t) && t.node == node && leaf.Some?
    modifies Nodes(t)
    ensures r.node == node && Valid(r) && fresh(Nodes(r) - Nodes(t)) && node.next == old(node.next)
    ensures View(r) == Insert(old(View(t)), key, leaf.value)
    decreases |key|
  {
    hide Linked, Distinct, Contents, Nodes, ByChar;
    NodesAllocated(t);
    RootIn(t);
    if key == "" {
      ReplaceLeaf(node, leaf, t);
      return t;
    }
    var child, i := TextNodeByChar(node, key[0], t);
    if child == null {
      r := CreateSubnode(key, leaf, node, t);
      return;
    }
    ghost var before := Memory(Nodes(t));
    Kid(t, i);
    StrOf(t.kids[i]);
    ghost var kid;
    var len := CommonPrefix(child.str, key);
    if len == |child.str| {
      kid := AddString(key[len..], leaf, child, t.kids[i]);
    } else {
      kid := SplitNode(key, len, leaf, child, t.kids[i]);
    }
    ghost var after := Memory(Nodes(t) + Nodes(kid));
    Frame(Memory(Nodes(kid)), after, kid);
    RootIn(kid);
    Reassemble(before, after, t, i, kid);
    r := Tree(node, t.kids[i := kid]);
    RootIn(r);
    Frame(after, Memory(Nodes(r)), r);
  }

  /** The table with the entries added so far. */
  class TextLookup {
    var top: TextNode
    ghost var tree: Tree
    ghost var entries: seq<Entry>

    ghost predicate Holds()
      reads this, Nodes(tree)
    {
      tree.node == top && Valid(tree) && View(tree) == InsertAll(EMPTY, entries)
    }

    constructor ()
      ensures Holds() && entries == [] && fresh(Nodes(tree))
    {
      var node := new TextNode("", None);
      top := node;
      tree := Tree(node, []);
      entries := [];
    }

    method Add(key: string, value: string)
      requires Holds()
      modifies this, Nodes(tree)
      ensures Holds() && entries == old(entries) + [Entry(key, value)] && fresh(Nodes(tree) - old(Nodes(tree)))
    {
      hide Valid, View, Insert, Nodes;
      NodesAllocated(tree);
      ghost var before := View(tree);
      var r := AddString(key, Some(value), top, tree);
      ghost var after := entries + [Entry(key, value)];
      assert after[..|after| - 1] == entries;
      assert View(r) == InsertAll(EMPTY, after);
      NodesAllocated(r);
      tree, entries := r, after;
    }

    /**
      Searches without regard to letter case. If the keys are spelled alike where they agree, it finds the
      last value stored under the query, letter case aside.
     */
    method GetStr(query: string) returns (out: Option<string>)
      requires Holds()
      ensures out == GetString(InsertAll(EMPTY, entries), query)
      ensures AllAlike(entries) ==> out == if query == "" then None else Latest(LowerKeys(entries), Lower(query))
    {
      hide Valid, View, Latest, InsertAll, AllAlike;
      RunIsLabelled(entries);
      if AllAlike(entries) {
        LookupIgnoresCase(entries, query);
      }
      NodesAllocated(tree);
      ghost var view := View(tree);
      assert Labelled(view);
      out := FindString(top, query, tree);
    }
  }
}

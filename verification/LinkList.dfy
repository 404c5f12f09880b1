/**
  The doubly linked list with an anchor node: nodes are linked in a ring, and a position is a node or none.
 */
module LinkLists {

  import opened Common

  class Node<T> {
    var prev: Node?<T>
    var next: Node?<T>
    var item: T

    constructor (item: T)
      ensures this.item == item
    {
      this.item := item;
      prev, next := null, null;
    }
  }

  // -------- Rings --------

  datatype Cell<T> = Cell(prev: Node?<T>, next: Node?<T>, item: T)

  ghost function Memory<T>(nodes: set<Node<T>>): map<Node<T>, Cell<T>>
    reads nodes
  {
    map x | x in nodes :: Cell(x.prev, x.next, x.item)
  }

  /** The ring, opened at the anchor, which stands at both ends. */
  ghost predicate Linked<T(!new)>(m: map<Node<T>, Cell<T>>, ring: seq<Node<T>>) {
    && (forall x :: x in ring ==> x in m)
    && forall i :: 0 <= i < |ring| - 1 ==> m[ring[i]].next == ring[i + 1] && m[ring[i + 1]].prev == ring[i]
  }

  ghost predicate Distinct<T>(nodes: seq<Node<T>>) {
    forall i, j :: 0 <= i < j < |nodes| ==> nodes[i] != nodes[j]
  }

  /** Apart from the anchor at the end no node stands twice. */
  ghost predicate Open<T>(ring: seq<Node<T>>) {
    |ring| >= 2 && Distinct(ring[..|ring| - 1]) && Distinct(ring[1..])
  }

  lemma NodesDiffer<T>(ring: seq<Node<T>>, i: nat, j: nat)
    requires Open(ring) && i < |ring| && j < |ring| && i != j
    ensures i < |ring| - 1 && j < |ring| - 1 ==> ring[i] != ring[j]
    ensures i > 0 && j > 0 ==> ring[i] != ring[j]
  {
    var front, back := ring[..|ring| - 1], ring[1..];
    if i < |ring| - 1 && j < |ring| - 1 {
      assert front[i] == ring[i] && front[j] == ring[j];
    }
    if i > 0 && j > 0 {
      assert back[i - 1] == ring[i] && back[j - 1] == ring[j];
    }
  }

  /** What four assignments to the links around a new node make of the ring. */
  lemma LinkIn<T(!new)>(a: map<Node<T>, Cell<T>>, b: map<Node<T>, Cell<T>>, ring: seq<Node<T>>, i: nat, node: Node<T>)
    requires Open(ring) && Linked(a, ring) && i < |ring| - 1 && node !in ring
    requires node in b && b[node].prev == ring[i] && b[node].next == ring[i + 1]
    requires forall x :: x in ring ==> x in b && b[x].next == if x == ring[i] then node else a[x].next
    requires forall x :: x in ring ==> x in b && b[x].prev == if x == ring[i + 1] then node else a[x].prev
    ensures Linked(b, ring[..i + 1] + [node] + ring[i + 1..])
  {
    var longer := ring[..i + 1] + [node] + ring[i + 1..];
    forall k | 0 <= k < |longer| - 1
      ensures b[longer[k]].next == longer[k + 1] && b[longer[k + 1]].prev == longer[k]
    {
      if k < i {
        assert ring[k] in ring && ring[k + 1] in ring;
        NodesDiffer(ring, k, i);
        NodesDiffer(ring, k + 1, i + 1);
      } else if k == i {
        assert ring[i] in ring;
      } else if k == i + 1 {
        assert ring[i + 1] in ring;
      } else {
        assert ring[k - 1] in ring && ring[k] in ring;
        NodesDiffer(ring, k - 1, i);
        NodesDiffer(ring, k, i + 1);
      }
    }
  }

  /** What two assignments around a node make of the ring. */
  lemma LinkOut<T(!new)>(a: map<Node<T>, Cell<T>>, b: map<Node<T>, Cell<T>>, ring: seq<Node<T>>, i: nat)
    requires Open(ring) && Linked(a, ring) && 0 < i < |ring| - 1
    requires forall x :: x in ring ==> x in b && b[x].next == if x == ring[i - 1] then ring[i + 1] else a[x].next
    requires forall x :: x in ring ==> x in b && b[x].prev == if x == ring[i + 1] then ring[i - 1] else a[x].prev
    ensures Linked(b, ring[..i] + ring[i + 1..])
  {
    var shorter := ring[..i] + ring[i + 1..];
    forall k | 0 <= k < |shorter| - 1
      ensures b[shorter[k]].next == shorter[k + 1] && b[shorter[k + 1]].prev == shorter[k]
    {
      var p, q := if k < i then k else k + 1, if k + 1 < i then k + 1 else k + 2;
      assert shorter[k] == ring[p] && shorter[k + 1] == ring[q] && ring[p] in ring && ring[q] in ring;
      if p != i - 1 {
        NodesDiffer(ring, p, i - 1);
      }
      if q != i + 1 {
        NodesDiffer(ring, q, i + 1);
      }
    }
  }

  lemma OpenIn<T>(ring: seq<Node<T>>, i: nat, node: Node<T>)
    requires Open(ring) && i < |ring| - 1 && node !in ring
    ensures Open(ring[..i + 1] + [node] + ring[i + 1..])
  {
    var longer := ring[..i + 1] + [node] + ring[i + 1..];
    var front, back := longer[..|longer| - 1], longer[1..];
    forall p, q | 0 <= p < q < |front|
      ensures front[p] != front[q]
    {
      var r, t := if p <= i then p else p - 1, if q <= i then q else q - 1;
      assert p != i + 1 ==> front[p] == ring[r];
      assert q != i + 1 ==> front[q] == ring[t];
      if p != i + 1 && q != i + 1 {
        NodesDiffer(ring, r, t);
      }
    }
    forall p, q | 0 <= p < q < |back|
      ensures back[p] != back[q]
    {
      var r, t := if p < i then p + 1 else p, if q < i then q + 1 else q;
      assert p != i ==> back[p] == ring[r];
      assert q != i ==> back[q] == ring[t];
      if p != i && q != i {
        NodesDiffer(ring, r, t);
      }
    }
  }

  lemma OpenOut<T>(ring: seq<Node<T>>, i: nat)
    requires Open(ring) && 0 < i < |ring| - 1
    ensures Open(ring[..i] + ring[i + 1..])
  {
    var shorter := ring[..i] + ring[i + 1..];
    var front, back := shorter[..|shorter| - 1], shorter[1..];
    forall p, q | 0 <= p < q < |front|
      ensures front[p] != front[q]
    {
      NodesDiffer(ring, if p < i then p else p + 1, if q < i then q else q + 1);
    }
    forall p, q | 0 <= p < q < |back|
      ensures back[p] != back[q]
    {
      NodesDiffer(ring, if p + 1 < i then p + 1 else p + 2, if q + 1 < i then q + 1 else q + 2);
    }
  }

  /** The ring of a list: the anchor at both ends, the items in between. */
  ghost predicate Shape<T(!new)>(m: map<Node<T>, Cell<T>>, ring: seq<Node<T>>, contents: seq<T>) {
    && |ring| == |contents| + 2 && ring[0] == ring[|ring| - 1] && Open(ring) && Linked(m, ring)
    && forall k :: 0 <= k < |contents| ==> m[ring[k + 1]].item == contents[k]
  }

  lemma ShapeIn<T(!new)>(a: map<Node<T>, Cell<T>>, b: map<Node<T>, Cell<T>>, ring: seq<Node<T>>, contents: seq<T>,
                         i: nat, node: Node<T>, item: T)
    requires Shape(a, ring, contents) && i < |ring| - 1 && node !in ring
    requires node in b && b[node] == Cell(ring[i], ring[i + 1], item)
    requires forall x :: x in a ==> x in b && b[x].item == a[x].item
    requires forall x :: x in a ==> x in b && b[x].next == if x == ring[i] then node else a[x].next
    requires forall x :: x in a ==> x in b && b[x].prev == if x == ring[i + 1] then node else a[x].prev
    ensures Shape(b, ring[..i + 1] + [node] + ring[i + 1..], contents[..i] + [item] + contents[i..])
  {
    LinkIn(a, b, ring, i, node);
    OpenIn(ring, i, node);
    var longer, more := ring[..i + 1] + [node] + ring[i + 1..], contents[..i] + [item] + contents[i..];
    forall k | 0 <= k < |more|
      ensures b[longer[k + 1]].item == more[k]
    {
      if k < i {
        assert ring[k + 1] in ring;
      } else if k > i {
        assert ring[k] in ring;
      }
    }
  }

  lemma ShapeOut<T(!new)>(a: map<Node<T>, Cell<T>>, b: map<Node<T>, Cell<T>>, ring: seq<Node<T>>, contents: seq<T>, i: nat)
    requires Shape(a, ring, contents) && 0 < i < |ring| - 1
    requires forall x :: x in a ==> x in b && b[x].item == a[x].item
    requires forall x :: x in a ==> x in b && b[x].next == if x == ring[i - 1] then ring[i + 1] else a[x].next
    requires forall x :: x in a ==> x in b && b[x].prev == if x == ring[i + 1] then ring[i - 1] else a[x].prev
    ensures Shape(b, ring[..i] + ring[i + 1..], contents[..i - 1] + contents[i..])
  {
    LinkOut(a, b, ring, i);
    OpenOut(ring, i);
    var shorter, fewer := ring[..i] + ring[i + 1..], contents[..i - 1] + contents[i..];
    forall k | 0 <= k < |fewer|
      ensures b[shorter[k + 1]].item == fewer[k]
    {
      assert ring[if k < i - 1 then k + 1 else k + 2] in ring;
    }
  }

  lemma ShapeAt<T(!new)>(m: map<Node<T>, Cell<T>>, ring: seq<Node<T>>, contents: seq<T>, i: nat)
    requires Shape(m, ring, contents) && i < |ring|
    ensures ring[i] in ring && ring[i] in m && |ring| == |contents| + 2
    ensures i + 1 < |ring| ==> m[ring[i]].next == ring[i + 1]
    ensures i > 0 ==> m[ring[i]].prev == ring[i - 1]
    ensures 0 < i < |ring| - 1 ==> m[ring[i]].item == contents[i - 1]
    ensures ring[i] == ring[0] <==> i == 0 || i == |ring| - 1
    ensures 0 < i < |ring| - 1 ==> ring[i - 1] != ring[i] && ring[i] != ring[i + 1]
  {
    if 0 < i < |ring| - 1 {
      NodesDiffer(ring, 0, i);
      NodesDiffer(ring, i - 1, i);
      NodesDiffer(ring, i, i + 1);
    }
    if i > 0 {
      assert m[ring[i - 1 + 1]].prev == ring[i - 1];
    }
  }

  /** A new node behind another one. */
  method LinkBetween<T>(item: T, before: Node<T>, ghost nodes: set<Node<T>>) returns (node: Node<T>)
    requires before in nodes && before.next != null && before.next in nodes
    modifies nodes
    ensures fresh(node) && node.prev == before && node.next == old(before.next) && node.item == item
    ensures forall x :: x in nodes ==> x.item == old(x.item)
    ensures forall x :: x in nodes ==> x.next == if x == before then node else old(x.next)
    ensures forall x :: x in nodes ==> x.prev == if x == old(before.next) then node else old(x.prev)
  {
    node := new Node(item);
    var after := before.next;
    before.next := node;
    after.prev := node;
    node.prev := before;
    node.next := after;
  }

  method Unlink<T>(node: Node<T>, ghost nodes: set<Node<T>>)
    requires node in nodes && node.next != null && node.next in nodes && node.prev != null && node.prev in nodes
    requires node.next != node && node.prev != node
    modifies nodes
    ensures forall x :: x in nodes ==> x.item == old(x.item)
    ensures forall x :: x in nodes ==> x.next == if x == old(node.prev) then old(node.next) else old(x.next)
    ensures forall x :: x in nodes ==> x.prev == if x == old(node.next) then old(node.prev) else old(x.prev)
  {
    node.next.prev := node.prev;
    node.prev.next := node.next;
  }

  // -------- The list --------

  lemma EmptyShape<T(!new)>(m: map<Node<T>, Cell<T>>, anchor: Node<T>)
    requires anchor in m && m[anchor].next == anchor && m[anchor].prev == anchor
    ensures Shape(m, [anchor, anchor], [])
  {
  }

  class List<T(0, !new)> {
    const anchor: Node<T>
    var count: nat
    /** The nodes in order with the anchor at both ends, and what they hold. */
    ghost var ring: seq<Node<T>>
    ghost var contents: seq<T>
    ghost var repr: set<Node<T>>

    ghost predicate Valid()
      reads this, repr
    {
      && count == |contents| && |ring| > 0 && ring[0] == anchor && anchor in repr
      && Shape(Memory(repr), ring, contents)
    }

    constructor ()
      ensures Valid() && contents == [] && fresh(repr)
    {
      var dummy: T := *;
      anchor := new Node(dummy);
      count := 0;
      contents := [];
      ring := [anchor, anchor];
      repr := {anchor};
      new;
      anchor.next := anchor;
      anchor.prev := anchor;
    }

    /** `i` is where the node before stands in the ring. */
    method InsertAfter(item: T, before: Node?<T>, ghost i: nat) returns (hr: HResult)
      requires Valid() && (before != null ==> i < |ring| - 1 && before == ring[i])
      modifies this, repr
      ensures Valid() && repr >= old(repr) && fresh(repr - old(repr))
      ensures before == null ==> hr == Pointer && ring == old(ring) && contents == old(contents)
      ensures before != null ==> hr == Ok && contents == old(contents)[..i] + [item] + old(contents)[i..]
    {
      hide Shape;
      if before == null {
        return Pointer;
      }
      ghost var a := Memory(repr);
      ShapeAt(a, ring, contents, i);
      ShapeAt(a, ring, contents, i + 1);
      ghost var r, c := ring, contents;
      var node := LinkBetween(item, before, repr);
      count := count + 1;
      ring, contents, repr := r[..i + 1] + [node] + r[i + 1..], c[..i] + [item] + c[i..], repr + {node};
      ShapeIn(a, Memory(repr), r, c, i, node, item);
      hr := Ok;
    }

    method RemoveItem(node: Node?<T>, ghost i: nat) returns (hr: HResult, item: T)
      requires Valid() && (node != null ==> i < |ring| - 1 && node == ring[i])
      modifies this, repr
      ensures Valid() && repr == old(repr)
      ensures node == null ==> hr == Pointer
      ensures node == anchor ==> hr == InvalidArg
      ensures node == null || node == anchor ==> ring == old(ring) && contents == old(contents)
      ensures node != null && node != anchor ==>
                && hr == Ok && 0 < i && item == old(contents)[i - 1]
                && contents == old(contents)[..i - 1] + old(contents)[i..]
    {
      hide Shape;
      item := *;
      if node == null {
        return Pointer, item;
      }
      if node == anchor {
        return InvalidArg, item;
      }
      ghost var a := Memory(repr);
      ShapeAt(a, ring, contents, i);
      ShapeAt(a, ring, contents, i - 1);
      ShapeAt(a, ring, contents, i + 1);
      ghost var r, c := ring, contents;
      item := node.item;
      Unlink(node, repr);
      count := count - 1;
      ring, contents := r[..i] + r[i + 1..], c[..i - 1] + c[i..];
      ShapeOut(a, Memory(repr), r, c, i);
      hr := Ok;
    }

    // Insertion: a position that is none stands for the end.

    method InsertBack(item: T) returns (hr: HResult)
      requires Valid()
      modifies this, repr
      ensures Valid() && repr >= old(repr) && fresh(repr - old(repr))
      ensures hr == Ok && contents == old(contents) + [item]
    {
      hide Shape;
      ShapeAt(Memory(repr), ring, contents, 0);
      ShapeAt(Memory(repr), ring, contents, |contents| + 1);
      hr := InsertAfter(item, anchor.prev, |contents|);
    }

    method InsertFront(item: T) returns (hr: HResult)
      requires Valid()
      modifies this, repr
      ensures Valid() && repr >= old(repr) && fresh(repr - old(repr))
      ensures hr == Ok && contents == [item] + old(contents)
    {
      hide Shape;
      ShapeAt(Memory(repr), ring, contents, 0);
      hr := InsertAfter(item, anchor, 0);
    }

    /** The position of the `k`-th item, or none behind the last one. */
    ghost predicate IsPosition(pos: Node?<T>, k: nat)
      reads this
    {
      k <= |contents| && |ring| == |contents| + 2 && pos == if k < |contents| then ring[k + 1] else null
    }

    /** In front of the item at the position. */
    method InsertPos(pos: Node?<T>, item: T, ghost k: nat) returns (hr: HResult)
      requires Valid() && IsPosition(pos, k)
      modifies this, repr
      ensures Valid() && repr >= old(repr) && fresh(repr - old(repr))
      ensures hr == Ok && contents == old(contents)[..k] + [item] + old(contents)[k..]
    {
      hide Shape;
      if pos == null {
        hr := InsertBack(item);
        return;
      }
      ShapeAt(Memory(repr), ring, contents, k + 1);
      hr := InsertAfter(item, pos.prev, k);
    }

    method RemoveBack() returns (hr: HResult, item: T)
      requires Valid()
      modifies this, repr
      ensures Valid() && repr == old(repr)
      ensures if old(contents) == [] then hr == Fail && contents == []
              else hr == Ok && old(contents) == contents + [item]
    {
      hide Shape;
      item := *;
      if count == 0 {
        return Fail, item;
      }
      ShapeAt(Memory(repr), ring, contents, 0);
      ShapeAt(Memory(repr), ring, contents, |contents| + 1);
      ShapeAt(Memory(repr), ring, contents, |contents|);
      hr, item := RemoveItem(anchor.prev, |contents|);
    }

    method RemoveFront() returns (hr: HResult, item: T)
      requires Valid()
      modifies this, repr
      ensures Valid() && repr == old(repr)
      ensures if old(contents) == [] then hr == Fail && contents == []
              else hr == Ok && old(contents) == [item] + contents
    {
      hide Shape;
      item := *;
      if count == 0 {
        return Fail, item;
      }
      ShapeAt(Memory(repr), ring, contents, 0);
      ShapeAt(Memory(repr), ring, contents, 1);
      hr, item := RemoveItem(anchor.next, 1);
    }

    method GetCount() returns (n: nat)
      requires Valid()
      ensures n == |contents|
    {
      n := count;
    }

    // Enumeration

    method FrontPosition() returns (pos: Node?<T>)
      requires Valid()
      ensures Valid() && IsPosition(pos, 0)
    {
      hide Shape;
      ShapeAt(Memory(repr), ring, contents, 0);
      if count == 0 {
        return null;
      }
      pos := anchor.next;
    }

    method Next(pos: Node?<T>, ghost k: nat) returns (next: Node?<T>)
      requires Valid() && IsPosition(pos, k)
      ensures Valid() && IsPosition(next, if k < |contents| then k + 1 else k)
    {
      hide Shape;
      if k < |contents| {
        ShapeAt(Memory(repr), ring, contents, k + 1);
        ShapeAt(Memory(repr), ring, contents, k + 2);
      }
      ShapeAt(Memory(repr), ring, contents, 0);
      if pos != null && pos.next != anchor {
        next := pos.next;
      } else {
        next := null;
      }
    }

    method GetItemPos(pos: Node?<T>, ghost k: nat) returns (hr: HResult, item: T)
      requires Valid() && IsPosition(pos, k)
      ensures Valid() && if k < |contents| then hr == Ok && item == contents[k] else hr == Fail
    {
      hide Shape;
      item := *;
      if pos == null {
        return Fail, item;
      }
      ShapeAt(Memory(repr), ring, contents, k + 1);
      return Ok, pos.item;
    }

    method Remove(pos: Node?<T>, ghost k: nat) returns (hr: HResult, item: T)
      requires Valid() && IsPosition(pos, k)
      modifies this, repr
      ensures Valid() && repr == old(repr)
      ensures if k < |old(contents)|
              then hr == Ok && item == old(contents)[k] && contents == old(contents)[..k] + old(contents)[k + 1..]
              else hr == InvalidArg && contents == old(contents)
    {
      hide Shape;
      item := *;
      if pos == null {
        return InvalidArg, item;
      }
      ShapeAt(Memory(repr), ring, contents, k + 1);
      hr, item := RemoveItem(pos, k + 1);
    }

    method Clear()
      requires Valid()
      modifies this, repr
      ensures Valid() && repr == {anchor} && contents == []
    {
      hide Shape;
      ghost var k := 0;
      ShapeAt(Memory(repr), ring, contents, 0);
      var n := anchor.next;
      while n != anchor
        invariant Valid() && k <= |contents| && n == ring[k + 1]
        modifies {}
        decreases |contents| - k
      {
        ShapeAt(Memory(repr), ring, contents, k + 1);
        ShapeAt(Memory(repr), ring, contents, |ring| - 1);
        n := n.next;
        k := k + 1;
      }
      anchor.next := anchor;
      anchor.prev := anchor;
      count := 0;
      contents, ring, repr := [], [anchor, anchor], {anchor};
      EmptyShape(Memory(repr), anchor);
    }
  }
}

/**
  The streams of the media sink, kept in a linked list ordered by identifier: adding, removing and finding
  them by identifier or index, and shutting down.
 */
module SinkStreams {
  import opened Common
  import opened LinkLists

  datatype Result =
    | Done | ShutDown | StreamSinkExists | InvalidStreamNumber | InvalidIndex | InitializeFailed

  // -------- Ordered identifiers --------

  predicate Increasing(ids: seq<int>) {
    forall i, j :: 0 <= i < j < |ids| ==> ids[i] < ids[j]
  }

  /** How many identifiers stand in front of the first larger one. */
  function Place(ids: seq<int>, id: int): (k: nat)
    ensures k <= |ids| && (k < |ids| ==> ids[k] > id)
    ensures forall i :: 0 <= i < k ==> ids[i] <= id
  {
    if ids == [] || ids[0] > id then 0 else 1 + Place(ids[1..], id)
  }

  function Inserted(ids: seq<int>, id: int): seq<int> {
    ids[..Place(ids, id)] + [id] + ids[Place(ids, id)..]
  }

  lemma {:induction false} PlaceIs(ids: seq<int>, id: int, k: nat)
    requires k <= |ids| && (k < |ids| ==> ids[k] > id) && forall i :: 0 <= i < k ==> ids[i] <= id
    ensures Place(ids, id) == k
  {
    if k > 0 {
      PlaceIs(ids[1..], id, k - 1);
    }
  }

  lemma InsertedAt(ids: seq<int>, id: int)
    ensures var k, more := Place(ids, id), Inserted(ids, id);
            && |more| == |ids| + 1 && more[k] == id
            && (forall i :: 0 <= i < k ==> more[i] == ids[i])
            && forall i :: k < i < |more| ==> more[i] == ids[i - 1]
  {
  }

  lemma InsertedMembers(ids: seq<int>, id: int)
    ensures forall x :: x in Inserted(ids, id) <==> x == id || x in ids
  {
    var k := Place(ids, id);
    assert ids == ids[..k] + ids[k..];
  }

  /** Inserting keeps the order strict exactly if the identifier is new. */
  lemma InsertKeepsOrder(ids: seq<int>, id: int)
    requires Increasing(ids)
    ensures Increasing(Inserted(ids, id)) <==> id !in ids
    ensures forall x :: x in Inserted(ids, id) <==> x == id || x in ids
  {
    hide Inserted;
    var k, more := Place(ids, id), Inserted(ids, id);
    InsertedMembers(ids, id);
    InsertedAt(ids, id);
    if id in ids {
      var i :| 0 <= i < |ids| && ids[i] == id;
      assert more[i] == more[k];
    } else {
      forall i, j | 0 <= i < j < |more|
        ensures more[i] < more[j]
      {
        var p, q := if i < k then i else i - 1, if j < k then j else j - 1;
        assert i != k ==> more[i] == ids[p];
        assert j != k ==> more[j] == ids[q];
        assert i == k ==> ids[k] <= ids[q];
      }
    }
  }

  function Without(ids: seq<int>, k: nat): seq<int>
    requires k < |ids|
  {
    ids[..k] + ids[k + 1..]
  }

  lemma RemoveKeepsOrder(ids: seq<int>, k: nat)
    requires Increasing(ids) && k < |ids|
    ensures Increasing(Without(ids, k))
    ensures forall x :: x in Without(ids, k) <==> x in ids && x != ids[k]
  {
    var rest := Without(ids, k);
    assert forall i :: 0 <= i < |rest| ==> rest[i] == ids[if i < k then i else i + 1];
    forall x | x in ids && x != ids[k]
      ensures x in rest
    {
      var i :| 0 <= i < |ids| && ids[i] == x;
      assert rest[if i < k then i else i - 1] == x;
    }
  }

  // -------- Whole runs --------

  datatype Step = Add(id: int) | Remove(id: int) | Shut

  datatype State = State(ids: seq<int>, down: bool)

  const START := State([], false)

  function IndexOf(ids: seq<int>, id: int): (k: nat)
    ensures k <= |ids| && (k < |ids| ==> ids[k] == id) && (k == |ids| <==> id !in ids)
  {
    if ids == [] || ids[0] == id then 0 else 1 + IndexOf(ids[1..], id)
  }

  lemma {:induction false} IndexIs(ids: seq<int>, id: int, k: nat)
    requires k < |ids| && ids[k] == id && forall i :: 0 <= i < k ==> ids[i] != id
    ensures IndexOf(ids, id) == k
  {
    if k > 0 {
      IndexIs(ids[1..], id, k - 1);
    }
  }

  /** What a step does to the identifiers, when every new stream can be set up. */
  function After(s: State, step: Step): State {
    match step
    case Add(id) => if !s.down && id in s.ids then s else s.(ids := Inserted(s.ids, id))
    case Remove(id) => if s.down || id !in s.ids then s else s.(ids := Without(s.ids, IndexOf(s.ids, id)))
    case Shut => if s.down then s else State([], true)
  }

  function Run(steps: seq<Step>): State {
    if steps == [] then START else After(Run(steps[..|steps| - 1]), steps[|steps| - 1])
  }

  /** Which identifiers have been added and not removed since. */
  predicate Present(steps: seq<Step>, id: int) {
    steps != []
    && match steps[|steps| - 1]
       case Add(x) => x == id || Present(steps[..|steps| - 1], id)
       case Remove(x) => x != id && Present(steps[..|steps| - 1], id)
       case Shut => false
  }

  /** The identifiers that have been added since the first shutdown, in that order. */
  function AddedSince(steps: seq<Step>): seq<int> {
    if steps == [] then []
    else
      var before, step := steps[..|steps| - 1], steps[|steps| - 1];
      if step.Add? && Shut in before then AddedSince(before) + [step.id] else AddedSince(before)
  }

  predicate NoneTwice(ids: seq<int>) {
    forall i, j :: 0 <= i < j < |ids| ==> ids[i] != ids[j]
  }

  predicate Sorted(ids: seq<int>) {
    forall i, j :: 0 <= i < j < |ids| ==> ids[i] <= ids[j]
  }

  /** Before the shutdown the identifiers are exactly those present, in order. */
  lemma {:induction false} OrderedBefore(steps: seq<Step>)
    requires Shut !in steps
    ensures var s := Run(steps);
            !s.down && Increasing(s.ids) && forall id :: id in s.ids <==> Present(steps, id)
    ensures AddedSince(steps) == []
  {
    if steps != [] {
      var before, step := steps[..|steps| - 1], steps[|steps| - 1];
      assert step in steps;
      OrderedBefore(before);
      var ids := Run(before).ids;
      match step
      case Add(id) => InsertKeepsOrder(ids, id);
      case Remove(id) =>
        if id in ids {
          RemoveKeepsOrder(ids, IndexOf(ids, id));
        }
      case Shut =>
    }
  }

  lemma InsertKeepsSorted(ids: seq<int>, id: int)
    requires Sorted(ids)
    ensures Sorted(Inserted(ids, id)) && multiset(Inserted(ids, id)) == multiset(ids) + multiset{id}
  {
    InsertedTimes(ids, id);
    hide Inserted;
    var k, more := Place(ids, id), Inserted(ids, id);
    InsertedAt(ids, id);
    forall i, j | 0 <= i < j < |more|
      ensures more[i] <= more[j]
    {
      assert k < j ==> more[j] == ids[j - 1] && ids[k] <= ids[j - 1];
      assert i < k ==> more[i] == ids[i];
    }
  }

  lemma InsertedTimes(ids: seq<int>, id: int)
    ensures multiset(Inserted(ids, id)) == multiset(ids) + multiset{id}
  {
    var k := Place(ids, id);
    assert ids == ids[..k] + ids[k..];
  }

  /** After the shutdown everything that is added stays, sorted, as often as it was added. */
  lemma {:induction false} SortedAfter(steps: seq<Step>)
    requires Shut in steps
    ensures var s := Run(steps);
            s.down && Sorted(s.ids) && multiset(s.ids) == multiset(AddedSince(steps))
  {
    var before, step := steps[..|steps| - 1], steps[|steps| - 1];
    assert steps == before + [step];
    if Shut in before {
      SortedAfter(before);
      if step.Add? {
        InsertKeepsSorted(Run(before).ids, step.id);
      }
    } else {
      OrderedBefore(before);
    }
  }

  lemma CountedTwice(ids: seq<int>, i: nat, j: nat)
    requires i < j < |ids| && ids[i] == ids[j]
    ensures multiset(ids)[ids[i]] >= 2
  {
    assert ids == ids[..j] + ids[j..];
    assert ids[i] in ids[..j] && ids[i] in ids[j..];
  }

  lemma {:induction false} OneOfEach(ids: seq<int>, id: int)
    requires NoneTwice(ids)
    ensures multiset(ids)[id] <= 1
  {
    if ids != [] {
      assert ids == [ids[0]] + ids[1..];
      OneOfEach(ids[1..], id);
      assert ids[0] == id ==> id !in ids[1..];
    }
  }

  /** Whether an identifier occurs twice depends only on how often each occurs. */
  lemma SameRepetitions(a: seq<int>, b: seq<int>)
    requires multiset(a) == multiset(b) && NoneTwice(a)
    ensures NoneTwice(b)
  {
    forall i, j | 0 <= i < j < |b|
      ensures b[i] != b[j]
    {
      if b[i] == b[j] {
        CountedTwice(b, i, j);
        OneOfEach(a, b[i]);
      }
    }
  }

  /**
    Main result, over every run: the identifiers are in strict order if and only if none was added twice
    since the first shutdown. Before it they are exactly those present, after it exactly those added since.
   */
  lemma RunsStayOrdered(steps: seq<Step>)
    ensures var s := Run(steps);
            && (s.down <==> Shut in steps)
            && (Increasing(s.ids) <==> NoneTwice(AddedSince(steps)))
            && forall id :: id in s.ids <==> if Shut in steps then id in AddedSince(steps) else Present(steps, id)
  {
    hide Run, AddedSince;
    var ids, added := Run(steps).ids, AddedSince(steps);
    if Shut in steps {
      SortedAfter(steps);
      SameMembers(ids, added);
      if NoneTwice(added) {
        SameRepetitions(added, ids);
      }
      if Increasing(ids) {
        SameRepetitions(ids, added);
      }
    } else {
      OrderedBefore(steps);
    }
  }

  lemma SameMembers(a: seq<int>, b: seq<int>)
    requires multiset(a) == multiset(b)
    ensures forall id :: id in a <==> id in b
  {
    assert forall id :: id in a <==> id in multiset(a);
    assert forall id :: id in b <==> id in multiset(b);
  }

  /** Whatever came before, once the sink is shut down an identifier can be added twice, which breaks the order. */
  lemma AddedTwiceAfterShutdown(steps: seq<Step>, id: int)
    requires Shut in steps
    ensures !Increasing(Run(steps + [Add(id), Add(id)]).ids)
  {
    var once, twice := steps + [Add(id)], steps + [Add(id), Add(id)];
    assert twice[..|twice| - 1] == once && once[..|once| - 1] == steps;
    assert once[|once| - 1] == twice[|twice| - 1] == Add(id);
    var added := AddedSince(twice);
    assert AddedSince(once) == AddedSince(steps) + [id];
    assert Shut in once;
    assert added == AddedSince(once) + [id];
    assert added[|added| - 2] == added[|added| - 1];
    RunsStayOrdered(twice);
  }

  // -------- The sink --------

  class MediaSink {
    const streams: List<int>
    var isShutdown: bool

    ghost predicate Valid()
      reads this, streams, streams.repr
    {
      streams.Valid()
    }

    /** The state in the terms of a run. */
    ghost function Now(): State
      reads this, streams
    {
      State(streams.contents, isShutdown)
    }

    constructor ()
      ensures Valid() && Now() == START && fresh(streams) && fresh(streams.repr)
    {
      streams := new List();
      isShutdown := false;
    }

    method GetStreamSinkById(id: int) returns (hr: Result)
      requires Valid()
      ensures Valid()
      ensures hr == if isShutdown then ShutDown else if id in streams.contents then Done else InvalidStreamNumber
    {
      hide List.Valid, Place;
      if isShutdown {
        return ShutDown;
      }
      var pos := streams.FrontPosition();
      ghost var k := 0;
      while pos != null
        invariant Valid() && streams.IsPosition(pos, k)
        invariant forall i :: 0 <= i < k ==> streams.contents[i] != id
        decreases |streams.contents| - k
      {
        var _, current := streams.GetItemPos(pos, k);
        if current == id {
          return Done;
        }
        pos := streams.Next(pos, k);
        k := k + 1;
      }
      hr := InvalidStreamNumber;
    }

    /**
      `initialized` and `typed` tell whether the new stream could be set up. A lookup that fails for
      whatever reason, be it that the sink is shut down, counts as the identifier being free.
     */
    method AddStreamSink(id: int, initialized: bool, typed: bool) returns (hr: Result)
      requires Valid()
      modifies streams, streams.repr
      ensures Valid() && fresh(streams.repr - old(streams.repr))
      ensures hr == if !isShutdown && id in old(streams.contents) then StreamSinkExists
                    else if initialized && typed then Done else InitializeFailed
      ensures Now() == if initialized && typed then After(old(Now()), Add(id)) else old(Now())
    {
      hide List.Valid, Place;
      hr := GetStreamSinkById(id);
      if hr == Done {
        return StreamSinkExists;
      }
      if !initialized || !typed {
        return InitializeFailed;
      }
      var pos := streams.FrontPosition();
      ghost var k := 0;
      while pos != null
        invariant Valid() && streams.IsPosition(pos, k)
        invariant forall i :: 0 <= i < k ==> streams.contents[i] <= id
        modifies {}
        decreases |streams.contents| - k
      {
        var _, current := streams.GetItemPos(pos, k);
        if current > id {
          break;
        }
        pos := streams.Next(pos, k);
        k := k + 1;
      }
      PlaceIs(streams.contents, id, k);
      var _ := streams.InsertPos(pos, id, k);
      hr := Done;
    }

    method RemoveStreamSink(id: int) returns (hr: Result)
      requires Valid()
      modifies streams, streams.repr
      ensures Valid() && streams.repr == old(streams.repr)
      ensures hr == if isShutdown then ShutDown
                    else if id in old(streams.contents) then Done else InvalidStreamNumber
      ensures Now() == After(old(Now()), Remove(id))
    {
      hide List.Valid, Place;
      if isShutdown {
        return ShutDown;
      }
      var pos := streams.FrontPosition();
      ghost var k := 0;
      while pos != null
        invariant Valid() && streams.IsPosition(pos, k)
        invariant forall i :: 0 <= i < k ==> streams.contents[i] != id
        modifies {}
        decreases |streams.contents| - k
      {
        var _, current := streams.GetItemPos(pos, k);
        if current == id {
          break;
        }
        pos := streams.Next(pos, k);
        k := k + 1;
      }
      if pos == null {
        return InvalidStreamNumber;
      }
      IndexIs(streams.contents, id, k);
      var _, _ := streams.Remove(pos, k);
      hr := Done;
    }

    method GetStreamSinkByIndex(index: nat) returns (hr: Result, id: int)
      requires Valid()
      ensures Valid()
      ensures hr == if index >= |streams.contents| then InvalidIndex else if isShutdown then ShutDown else Done
      ensures hr == Done ==> id == streams.contents[index]
    {
      hide List.Valid, Place;
      id := 0;
      var count := streams.GetCount();
      if index >= count {
        return InvalidIndex, id;
      }
      if isShutdown {
        return ShutDown, id;
      }
      var pos := streams.FrontPosition();
      var current := 0;
      while pos != null && current < index
        invariant Valid() && streams.IsPosition(pos, current) && current <= index < |streams.contents|
        decreases |streams.contents| - current
      {
        pos := streams.Next(pos, current);
        current := current + 1;
      }
      var _, item := streams.GetItemPos(pos, current);
      return Done, item;
    }

    method Shutdown()
      requires Valid()
      modifies this, streams, streams.repr
      ensures Valid() && isShutdown && streams.repr <= old(streams.repr)
      ensures Now() == After(old(Now()), Shut)
    {
      if !isShutdown {
        streams.Clear();
        isShutdown := true;
      }
    }
  }
}

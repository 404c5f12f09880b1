/**
  The profiler's call trees as values: calls are opened and closed in a thread, and a closed root call is
  merged into the tree of entries. Here an entry holds the multiset of the durations it has seen; `Profilers`
  has the same trees with the tables of the program in them.
 */
module ProfileTrees {

  import opened Common

  /** Names are compared as pointers. */
  type Name = nat

  /** The null pointer: a call may be started without a name. */
  const NO_NAME: Name := 0

  datatype Call = Call(name: Name, start: uint64, end: uint64, children: seq<Call>)

  /** Durations, and for a root whose rhythm is expected the times between its calls. */
  datatype Entry = Entry(
    name: Name, times: multiset<nat>, expected: uint64, between: multiset<nat>, children: seq<Entry>)

  /** The rounded difference, wrapped around at 64 bits. */
  function Usec(prev: uint64, next: uint64): uint64 {
    (next - prev + 500) % 0x1_0000_0000_0000_0000 / 1000
  }

  function Duration(call: Call): uint64 {
    Usec(call.start, call.end)
  }

  // -------- Merging --------

  /** The first entry of that name. */
  function IndexOf(entries: seq<Entry>, name: Name): (i: nat)
    ensures i <= |entries| && (i < |entries| ==> entries[i].name == name)
    ensures forall k :: 0 <= k < i ==> entries[k].name != name
  {
    if entries == [] || entries[0].name == name then 0 else 1 + IndexOf(entries[1..], name)
  }

  /** The entries with one for the name, and where it is. */
  function WithChild(entries: seq<Entry>, name: Name): (r: seq<Entry>)
    ensures IndexOf(entries, name) < |r| && r[IndexOf(entries, name)].name == name
  {
    if IndexOf(entries, name) < |entries| then entries else entries + [NewEntry(name)]
  }

  function NewEntry(name: Name): Entry {
    Entry(name, multiset{}, 0, multiset{}, [])
  }

  /** `prev` is the start of the previous root call of that name, if there is one. */
  function MergeInto(entries: seq<Entry>, call: Call, prev: Option<uint64>): seq<Entry>
    decreases call, 1
  {
    var i, all := IndexOf(entries, call.name), WithChild(entries, call.name);
    all[i := Merge(all[i], call, prev)]
  }

  function MergeAll(entries: seq<Entry>, calls: seq<Call>): seq<Entry>
    decreases calls
  {
    if calls == [] then entries else MergeAll(MergeInto(entries, calls[0], None), calls[1..])
  }

  function Merge(entry: Entry, call: Call, prev: Option<uint64>): Entry
    decreases call, 0
  {
    Entry(entry.name, entry.times + multiset{Duration(call) as nat}, entry.expected,
          entry.between + Pause(entry.expected, prev, call.start), MergeAll(entry.children, call.children))
  }

  function Pause(expected: uint64, prev: Option<uint64>, start: uint64): multiset<nat> {
    if expected != 0 && prev.Some? then multiset{Usec(prev.value, start) as nat} else multiset{}
  }

  // -------- What is recorded under a path of names --------

  function TimesAt(entries: seq<Entry>, path: seq<Name>): multiset<nat>
    decreases |path|
  {
    if path == [] || IndexOf(entries, path[0]) == |entries| then multiset{}
    else
      var entry := entries[IndexOf(entries, path[0])];
      if |path| == 1 then entry.times else TimesAt(entry.children, path[1..])
  }

  /** The durations of the calls at that path. */
  function Durations(calls: seq<Call>, path: seq<Name>): multiset<nat>
    decreases |path|, |calls|
  {
    if path == [] || calls == [] then multiset{}
    else DurationsOf(calls[0], path) + Durations(calls[1..], path)
  }

  function DurationsOf(call: Call, path: seq<Name>): multiset<nat>
    requires path != []
    decreases |path|, 0
  {
    if call.name != path[0] then multiset{}
    else if |path| == 1 then multiset{Duration(call) as nat}
    else Durations(call.children, path[1..])
  }

  lemma {:induction false} IndexIs(entries: seq<Entry>, name: Name, i: nat)
    requires i <= |entries| && (i < |entries| ==> entries[i].name == name)
    requires forall k :: 0 <= k < i ==> entries[k].name != name
    ensures IndexOf(entries, name) == i
  {
    if i > 0 {
      IndexIs(entries[1..], name, i - 1);
    }
  }

  /** Changing the entry of one name is seen under that name only. */
  lemma TimesAtChanged(entries: seq<Entry>, name: Name, entry: Entry, path: seq<Name>)
    requires entry.name == name && path != []
    ensures var i, all := IndexOf(entries, name), WithChild(entries, name);
            TimesAt(all[i := entry], path)
            == if path[0] != name then TimesAt(entries, path)
               else if |path| == 1 then entry.times else TimesAt(entry.children, path[1..])
  {
    hide IndexOf;
    var i, all := IndexOf(entries, name), WithChild(entries, name);
    var after := all[i := entry];
    if path[0] == name {
      IndexIs(after, name, i);
    } else {
      var j := IndexOf(entries, path[0]);
      if j < |entries| {
        IndexIs(after, path[0], j);
      } else {
        IndexIs(after, path[0], |after|);
      }
    }
  }

  lemma {:induction false} MergeIntoAdds(entries: seq<Entry>, call: Call, prev: Option<uint64>, path: seq<Name>)
    requires path != []
    ensures TimesAt(MergeInto(entries, call, prev), path) == TimesAt(entries, path) + DurationsOf(call, path)
    decreases call, 1
  {
    hide TimesAt, IndexOf;
    var i, all := IndexOf(entries, call.name), WithChild(entries, call.name);
    TimesAtChanged(entries, call.name, Merge(all[i], call, prev), path);
    TimesAtChanged(entries, call.name, all[i], path);
    assert all[i := all[i]] == all;
    TimesAtWithChild(entries, call.name, path);
    if path[0] == call.name && |path| > 1 {
      MergeAllAdds(all[i].children, call.children, path[1..]);
    }
  }

  lemma TimesAtWithChild(entries: seq<Entry>, name: Name, path: seq<Name>)
    ensures TimesAt(WithChild(entries, name), path) == TimesAt(entries, path)
  {
    if path != [] && IndexOf(entries, name) == |entries| {
      var all := WithChild(entries, name);
      var j := IndexOf(entries, path[0]);
      if j < |entries| {
        IndexIs(all, path[0], j);
      } else if path[0] == name {
        IndexIs(all, name, |entries|);
      } else {
        IndexIs(all, path[0], |all|);
      }
    }
  }

  lemma {:induction false} MergeAllAdds(entries: seq<Entry>, calls: seq<Call>, path: seq<Name>)
    requires path != []
    ensures TimesAt(MergeAll(entries, calls), path) == TimesAt(entries, path) + Durations(calls, path)
    decreases calls
  {
    hide TimesAt, MergeInto, DurationsOf;
    if calls != [] {
      MergeIntoAdds(entries, calls[0], None, path);
      MergeAllAdds(MergeInto(entries, calls[0], None), calls[1..], path);
    }
  }

  lemma {:induction false} DurationsAppend(calls: seq<Call>, call: Call, path: seq<Name>)
    requires path != []
    ensures Durations(calls + [call], path) == Durations(calls, path) + DurationsOf(call, path)
    decreases |calls|
  {
    hide DurationsOf;
    if calls == [] {
      assert [call][1..] == [];
    } else {
      assert (calls + [call])[1..] == calls[1..] + [call];
      DurationsAppend(calls[1..], call, path);
    }
  }

  // -------- Threads --------

  /** An open call with the calls closed inside it. */
  datatype Frame = Frame(name: Name, start: uint64, children: seq<Call>)

  /**
    What is open, outermost first; the trees; when the last call of each root started; whether the profiler is
    running, and whether this thread takes part. A thread drops out when it finds the profiler stopped.
   */
  datatype State = State(
    context: seq<Frame>, roots: seq<Entry>, prevs: map<Name, uint64>, enabled: bool, threadEnabled: bool)

  predicate On(s: State) {
    s.enabled && s.threadEnabled
  }

  function Names(context: seq<Frame>): (names: seq<Name>)
    ensures |names| == |context|
  {
    if context == [] then [] else [context[0].name] + Names(context[1..])
  }

  function Opened(s: State, name: Name, time: uint64): State {
    s.(context := s.context + [Frame(name, time, [])])
  }

  function TopCall(context: seq<Frame>, time: uint64): Call
    requires context != []
  {
    var top := context[|context| - 1];
    Call(top.name, top.start, time, top.children)
  }

  function Prev(s: State, name: Name): Option<uint64> {
    if name in s.prevs then Some(s.prevs[name]) else None
  }

  /** A finished root is merged if the profiler is running. */
  function MergedRoot(s: State, call: Call): State {
    if s.enabled then
      s.(roots := MergeInto(s.roots, call, Prev(s, call.name)), prevs := s.prevs[call.name := call.start])
    else s.(threadEnabled := false)
  }

  /** The innermost call is closed; a root call is merged. */
  function Closed(s: State, time: uint64): State
    requires s.context != []
  {
    var n, call := |s.context|, TopCall(s.context, time);
    if n == 1 then MergedRoot(s.(context := []), call)
    else s.(context := Handed(s.context, time))
  }

  /** The durations of calls that are closed and wait for their root to be closed. */
  function Pending(context: seq<Frame>, path: seq<Name>): multiset<nat>
    decreases |context|
  {
    if context == [] || |path| <= 1 || path[0] != context[0].name then multiset{}
    else Durations(context[0].children, path[1..]) + Pending(context[1..], path[1..])
  }

  /** Recorded and still waiting. */
  function Everything(s: State, path: seq<Name>): multiset<nat> {
    TimesAt(s.roots, path) + Pending(s.context, path)
  }

  lemma {:induction false} PendingOpened(context: seq<Frame>, name: Name, time: uint64, path: seq<Name>)
    ensures Pending(context + [Frame(name, time, [])], path) == Pending(context, path)
    decreases |context|
  {
    var more := context + [Frame(name, time, [])];
    if context == [] {
      assert more[1..] == [];
    } else {
      assert more[1..] == context[1..] + [Frame(name, time, [])];
      if |path| > 1 {
        PendingOpened(context[1..], name, time, path[1..]);
      }
    }
  }

  /** A call that is not a root goes to the one around it. */
  function Handed(context: seq<Frame>, time: uint64): seq<Frame>
    requires |context| >= 2
  {
    var n, parent := |context|, context[|context| - 2];
    context[..n - 2] + [parent.(children := parent.children + [TopCall(context, time)])]
  }

  function Only(here: bool, duration: nat): multiset<nat> {
    if here then multiset{duration} else multiset{}
  }

  /** What waits in a thread, from its outermost call on. */
  lemma PendingStep(first: Frame, rest: seq<Frame>, path: seq<Name>)
    requires path != []
    ensures Pending([first] + rest, path)
            == if |path| == 1 || path[0] != first.name then multiset{}
               else Durations(first.children, path[1..]) + Pending(rest, path[1..])
  {
    assert ([first] + rest)[1..] == rest;
  }

  lemma NamesStep(first: Frame, rest: seq<Frame>, path: seq<Name>)
    requires path != []
    ensures path == Names([first] + rest) <==> path[0] == first.name && path[1..] == Names(rest)
  {
    assert ([first] + rest)[1..] == rest;
    assert path == [path[0]] + path[1..];
  }

  lemma OneName(top: Frame, path: seq<Name>)
    requires path != []
    ensures path == Names([top]) <==> path == [top.name]
  {
    assert Names([top]) == [top.name];
  }

  /** The innermost call and the one around it. */
  lemma PendingOfTwo(parent: Frame, top: Frame, call: Call, path: seq<Name>)
    requires path != [] && call.name == top.name && call.children == top.children
    ensures Pending([parent.(children := parent.children + [call])], path)
            == Pending([parent, top], path) + Only(path == Names([parent, top]), Duration(call))
  {
    hide Pending, Names, Durations, DurationsOf, Duration;
    var after := parent.(children := parent.children + [call]);
    assert [parent, top] == [parent] + [top] && [after] == [after] + [] && [top] == [top] + [];
    PendingStep(parent, [top], path);
    PendingStep(after, [], path);
    NamesStep(parent, [top], path);
    if |path| > 1 && path[0] == parent.name {
      DurationsAppend(parent.children, call, path[1..]);
      TopPending(top, call, path[1..]);
      NothingPending(path[1..]);
      OneName(top, path[1..]);
    } else if |path| == 1 {
      assert path[1..] == [];
      NamesStep(top, [], [top.name]);
      assert |Names([top])| == 1;
    }
  }

  /** Closing a call that is not a root adds its duration under its path. */
  lemma {:induction false} PendingClosed(context: seq<Frame>, time: uint64, path: seq<Name>)
    requires |context| >= 2 && path != []
    ensures Pending(Handed(context, time), path)
            == Pending(context, path) + Only(path == Names(context), Duration(TopCall(context, time)))
    decreases |context|
  {
    hide Pending, Names, Durations, DurationsOf, Duration;
    var call := TopCall(context, time);
    if |context| == 2 {
      var parent := context[0];
      assert context == [parent, context[1]];
      assert Handed(context, time) == [parent.(children := parent.children + [call])];
      PendingOfTwo(context[0], context[1], call, path);
    } else {
      var inner := context[1..];
      assert context == [context[0]] + inner && Handed(context, time) == [context[0]] + Handed(inner, time);
      PendingStep(context[0], inner, path);
      PendingStep(context[0], Handed(inner, time), path);
      NamesStep(context[0], inner, path);
      if |path| > 1 {
        PendingClosed(inner, time, path[1..]);
      } else {
        assert |path[1..]| == 0 && |Names(inner)| == |inner|;
      }
      assert TopCall(inner, time) == call;
    }
  }

  /** What waited inside the innermost call now waits inside its parent. */
  lemma TopPending(top: Frame, call: Call, path: seq<Name>)
    requires path != [] && call.name == top.name && call.children == top.children
    ensures DurationsOf(call, path)
            == Pending([top], path) + Only(path == [top.name], Duration(call))
  {
    assert [top][1..] == [];
    assert path == [path[0]] + path[1..];
  }

  /** Closing a call records exactly its own duration, under the path of the calls that are open. */
  lemma ClosedAdds(s: State, time: uint64, path: seq<Name>)
    requires s.context != [] && path != [] && s.enabled
    ensures Everything(Closed(s, time), path)
            == Everything(s, path) + Only(path == Names(s.context), Duration(TopCall(s.context, time)))
  {
    hide TimesAt, MergeInto, DurationsOf, Duration, Pending;
    var call := TopCall(s.context, time);
    if |s.context| == 1 {
      assert s.context == [s.context[0]];
      assert s.context[1..] == [];
      assert Names(s.context) == [s.context[0].name];
      MergeIntoAdds(s.roots, call, Prev(s, call.name), path);
      TopPending(s.context[0], call, path);
      NothingPending(path);
    } else {
      PendingClosed(s.context, time, path);
    }
  }

  lemma NothingPending(path: seq<Name>)
    ensures Pending([], path) == multiset{}
  {
  }

  // -------- Events --------

  /** Ending a call reads the clock; so does every call that has to be ended with it. */
  datatype Event =
    | Start(name: Name, time: uint64)
    | End(name: Name, time: uint64, late: seq<uint64>)
    | ProfilerStart
    | ProfilerStop
    | Reenable
    | Register(name: Name, expectedNs: uint64)

  predicate IsOpen(context: seq<Frame>, name: Name) {
    exists i :: 0 <= i < |context| && context[i].name == name
  }

  /** A call without a name takes the one it is ended with. */
  function Settled(s: State, name: Name): State {
    var n := |s.context|;
    if n > 0 && s.context[n - 1].name == NO_NAME then
      s.(context := s.context[..n - 1] + [s.context[n - 1].(name := name)])
    else s
  }

  /** Ends the calls inside the innermost one of that name. */
  function EndInner(s: State, name: Name, time: uint64, late: seq<uint64>): (r: State)
    requires IsOpen(s.context, name)
    ensures r.context != [] && r.context[|r.context| - 1].name == name
    ensures r == s.(context := r.context)
    decreases |s.context|
  {
    var n := |s.context|;
    if s.context[n - 1].name == name then s
    else
      var at := if late == [] then time else late[0];
      StillOpen(s, name, at);
      EndInner(Closed(s, at), name, time, if late == [] then [] else late[1..])
  }

  lemma StillOpen(s: State, name: Name, time: uint64)
    requires IsOpen(s.context, name) && s.context[|s.context| - 1].name != name
    ensures |s.context| >= 2 && Closed(s, time) == s.(context := Handed(s.context, time))
    ensures IsOpen(Handed(s.context, time), name) && |Handed(s.context, time)| == |s.context| - 1
  {
    var i :| 0 <= i < |s.context| && s.context[i].name == name;
    assert Handed(s.context, time)[i].name == name;
  }

  /** The entry of a root, with the rhythm that is expected of it. */
  function Registered(roots: seq<Entry>, name: Name, expectedNs: uint64): seq<Entry> {
    var i, all := IndexOf(roots, name), WithChild(roots, name);
    all[i := all[i].(expected := Rounded(expectedNs))]
  }

  /** The rounded quotient, wrapped around at 64 bits. */
  function Rounded(ns: uint64): uint64 {
    (ns + 500) % 0x1_0000_0000_0000_0000 / 1000
  }

  /** An end without a matching start is ignored. */
  function Ended(s: State, name: Name, time: uint64, late: seq<uint64>): State {
    var u := Settled(s, name);
    if IsOpen(u.context, name) then Closed(EndInner(u, name, time, late), time) else u
  }

  function Next(s: State, event: Event): State {
    match event
    case Start(name, time) => if s.threadEnabled then Opened(s, name, time) else s
    case End(name, time, late) => if s.threadEnabled then Ended(s, name, time, late) else s
    case ProfilerStart => s.(enabled := true)
    case ProfilerStop => s.(enabled := false)
    case Reenable => if s.threadEnabled then s else s.(threadEnabled := s.enabled)
    case Register(name, expectedNs) =>
      if s.enabled then s.(roots := Registered(s.roots, name, expectedNs)) else s.(threadEnabled := false)
  }

  function Run(s: State, events: seq<Event>): State
    decreases |events|
  {
    if events == [] then s else Run(Next(s, events[0]), events[1..])
  }

  /** What closing the innermost call is worth under a path. */
  function Worth(s: State, time: uint64, path: seq<Name>): multiset<nat>
    requires s.context != []
  {
    Only(path == Names(s.context), Duration(TopCall(s.context, time)))
  }

  /** What the calls ended inside are worth. */
  function InnerWorth(s: State, name: Name, time: uint64, late: seq<uint64>, path: seq<Name>): multiset<nat>
    requires IsOpen(s.context, name)
    decreases |s.context|
  {
    if s.context[|s.context| - 1].name == name then multiset{}
    else
      var at := if late == [] then time else late[0];
      StillOpen(s, name, at);
      Worth(s, at, path) + InnerWorth(Closed(s, at), name, time, if late == [] then [] else late[1..], path)
  }

  function EndWorth(u: State, name: Name, time: uint64, late: seq<uint64>, path: seq<Name>): multiset<nat> {
    if IsOpen(u.context, name) then
      InnerWorth(u, name, time, late, path) + Worth(EndInner(u, name, time, late), time, path)
    else multiset{}
  }

  function EventWorth(s: State, event: Event, path: seq<Name>): multiset<nat> {
    match event
    case End(name, time, late) => EndWorth(Settled(s, name), name, time, late, path)
    case _ => multiset{}
  }

  /** The state once it is known what a call without a name is called. */
  function Ready(s: State, event: Event): State {
    if event.End? then Settled(s, event.name) else s
  }

  function RunWorth(s: State, events: seq<Event>, path: seq<Name>): multiset<nat>
    decreases |events|
  {
    if events == [] then multiset{}
    else EventWorth(s, events[0], path) + RunWorth(Next(s, events[0]), events[1..], path)
  }

  lemma {:induction false} InnerAdds(s: State, name: Name, time: uint64, late: seq<uint64>, path: seq<Name>)
    requires IsOpen(s.context, name) && path != [] && s.enabled
    ensures Everything(EndInner(s, name, time, late), path)
            == Everything(s, path) + InnerWorth(s, name, time, late, path)
    decreases |s.context|
  {
    hide Everything, Closed, Only, Duration, Handed;
    if s.context[|s.context| - 1].name != name {
      var at := if late == [] then time else late[0];
      StillOpen(s, name, at);
      ClosedAdds(s, at, path);
      InnerAdds(Closed(s, at), name, time, if late == [] then [] else late[1..], path);
    }
  }

  /** One event, while the profiler runs: what is recorded or waits changes by the calls it ends. */
  lemma EventAdds(s: State, event: Event, path: seq<Name>)
    requires path != [] && On(s)
    ensures Everything(Next(s, event), path) == Everything(Ready(s, event), path) + EventWorth(s, event, path)
  {
    match event
    case Start(name, time) =>
      PendingOpened(s.context, name, time, path);
    case End(name, time, late) =>
      EndAdds(s, name, time, late, path);
    case Register(name, expectedNs) =>
      RegisteredTimes(s.roots, name, expectedNs, path);
    case _ =>
  }

  lemma EndAdds(s: State, name: Name, time: uint64, late: seq<uint64>, path: seq<Name>)
    requires path != [] && On(s)
    ensures Everything(Ended(s, name, time, late), path)
            == Everything(Settled(s, name), path) + EndWorth(Settled(s, name), name, time, late, path)
  {
    hide Everything, Closed, Only, Duration, EndInner, InnerWorth, Settled, Names, TopCall;
    var u := Settled(s, name);
    if IsOpen(u.context, name) {
      SettledOn(s, name);
      InnerAdds(u, name, time, late, path);
      ClosedAdds(EndInner(u, name, time, late), time, path);
    }
  }

  lemma SettledOn(s: State, name: Name)
    ensures Settled(s, name) == s.(context := Settled(s, name).context)
    ensures AllNamed(s.context) ==> Settled(s, name) == s
  {
  }

  lemma RegisteredTimes(roots: seq<Entry>, name: Name, expectedNs: uint64, path: seq<Name>)
    requires path != []
    ensures TimesAt(Registered(roots, name, expectedNs), path) == TimesAt(roots, path)
  {
    hide TimesAt, IndexOf;
    var i, all := IndexOf(roots, name), WithChild(roots, name);
    TimesAtChanged(roots, name, all[i].(expected := Rounded(expectedNs)), path);
    TimesAtChanged(roots, name, all[i], path);
    assert all[i := all[i]] == all;
    TimesAtWithChild(roots, name, path);
  }

  /** Nothing is recorded while the profiler is stopped, and a thread that dropped out sees no calls. */
  lemma NothingWhileStopped(s: State, event: Event)
    ensures !s.enabled ==> Next(s, event).roots == s.roots
    ensures !s.threadEnabled && (event.Start? || event.End?) ==> Next(s, event) == s
    ensures !s.enabled && |s.context| == 1 && event.End? && IsOpen(Settled(s, event.name).context, event.name) && s.threadEnabled
            ==> !Next(s, event).threadEnabled && Next(s, event).context == []
  {
    hide IndexOf, WithChild, Settled;
    if event.End? {
      SettledOn(s, event.name);
      SettledLength(s, event.name);
    }
  }

  lemma SettledLength(s: State, name: Name)
    ensures |Settled(s, name).context| == |s.context|
  {
  }

  predicate AllNamed(context: seq<Frame>) {
    forall i :: 0 <= i < |context| ==> context[i].name != NO_NAME
  }

  /** The profiler is not stopped, and calls are started with a name. */
  predicate Plain(event: Event) {
    !event.ProfilerStop? && (event.Start? ==> event.name != NO_NAME)
  }

  lemma {:induction false} InnerNamed(s: State, name: Name, time: uint64, late: seq<uint64>)
    requires IsOpen(s.context, name) && AllNamed(s.context)
    ensures AllNamed(EndInner(s, name, time, late).context)
    decreases |s.context|
  {
    if s.context[|s.context| - 1].name != name {
      var at := if late == [] then time else late[0];
      StillOpen(s, name, at);
      assert AllNamed(Handed(s.context, at));
      InnerNamed(Closed(s, at), name, time, if late == [] then [] else late[1..]);
    }
  }

  lemma PlainStays(s: State, event: Event)
    requires On(s) && AllNamed(s.context) && Plain(event)
    ensures On(Next(s, event)) && AllNamed(Next(s, event).context) && Ready(s, event) == s
  {
    hide EndInner, MergeInto, Registered, Settled;
    if event.End? {
      SettledOn(s, event.name);
      if IsOpen(s.context, event.name) {
        InnerNamed(s, event.name, event.time, event.late);
      }
    }
  }

  /** Nothing is lost and nothing counted twice, whatever the events: every call ended is recorded or waits. */
  lemma {:induction false} RunAdds(s: State, events: seq<Event>, path: seq<Name>)
    requires path != [] && On(s) && AllNamed(s.context)
    requires forall i :: 0 <= i < |events| ==> Plain(events[i])
    ensures Everything(Run(s, events), path) == Everything(s, path) + RunWorth(s, events, path)
    decreases |events|
  {
    hide Everything, Next, EventWorth, Ready;
    if events != [] {
      EventAdds(s, events[0], path);
      PlainStays(s, events[0]);
      RunAdds(Next(s, events[0]), events[1..], path);
    }
  }

  // -------- Well-nested traces --------

  /** The events of calls that are started and ended properly. */
  function Trace(call: Call): seq<Event>
    decreases call, 1
  {
    [Start(call.name, call.start)] + Traces(call.children) + [End(call.name, call.end, [])]
  }

  function Traces(calls: seq<Call>): seq<Event>
    decreases calls, 0
  {
    if calls == [] then [] else Trace(calls[0]) + Traces(calls[1..])
  }

  function MergedRoots(s: State, calls: seq<Call>): State
    decreases |calls|
  {
    if calls == [] then s else MergedRoots(MergedRoot(s, calls[0]), calls[1..])
  }

  /** The calls are closed inside the innermost open call, or merged if none is open. */
  function Received(s: State, calls: seq<Call>): State {
    if s.context == [] then MergedRoots(s, calls)
    else
      var n, top := |s.context|, s.context[|s.context| - 1];
      s.(context := s.context[..n - 1] + [top.(children := top.children + calls)])
  }

  lemma {:induction false} RunBoth(s: State, a: seq<Event>, b: seq<Event>)
    ensures Run(s, a + b) == Run(Run(s, a), b)
    decreases |a|
  {
    hide Next;
    if a == [] {
      assert a + b == b;
    } else {
      assert (a + b)[1..] == a[1..] + b;
      RunBoth(Next(s, a[0]), a[1..], b);
    }
  }

  lemma ReceivedInTurn(s: State, a: seq<Call>, b: seq<Call>)
    ensures Received(Received(s, a), b) == Received(s, a + b)
  {
    if s.context == [] {
      MergedInTurn(s, a, b);
      MergedContext(s, a);
    } else {
      var n, top := |s.context|, s.context[|s.context| - 1];
      assert top.children + a + b == top.children + (a + b);
      assert Received(s, a).context[..n - 1] == s.context[..n - 1];
    }
  }

  lemma {:induction false} MergedInTurn(s: State, a: seq<Call>, b: seq<Call>)
    ensures MergedRoots(MergedRoots(s, a), b) == MergedRoots(s, a + b)
    decreases |a|
  {
    hide MergedRoot;
    if a == [] {
      assert a + b == b;
    } else {
      assert (a + b)[1..] == a[1..] + b;
      MergedInTurn(MergedRoot(s, a[0]), a[1..], b);
    }
  }

  lemma {:induction false} MergedContext(s: State, calls: seq<Call>)
    ensures MergedRoots(s, calls).context == s.context
    ensures On(s) ==> On(MergedRoots(s, calls))
    decreases |calls|
  {
    hide MergeInto;
    if calls != [] {
      MergedContext(MergedRoot(s, calls[0]), calls[1..]);
    }
  }

  lemma NothingReceived(s: State)
    ensures Received(s, []) == s
  {
    if s.context != [] {
      var n := |s.context|;
      assert s.context[n - 1].children + [] == s.context[n - 1].children;
      assert s.context == s.context[..n - 1] + [s.context[n - 1]];
    }
  }

  /** The thread takes part, and what it closes next is not lost. */
  predicate Listens(s: State) {
    s.threadEnabled && (s.enabled || s.context != [])
  }

  /** The call that was opened last is the one that ends, with the calls closed inside it. */
  lemma EndCloses(s: State, call: Call)
    requires s.threadEnabled
    ensures var inside := Received(Opened(s, call.name, call.start), call.children);
            && inside.context == s.context + [Frame(call.name, call.start, call.children)] && inside == s.(context := inside.context)
            && Next(inside, End(call.name, call.end, [])) == Closed(inside, call.end)
            && TopCall(inside.context, call.end) == call
  {
    hide MergedRoot;
    var inside := Received(Opened(s, call.name, call.start), call.children);
    var n := |inside.context|;
    assert inside.context == s.context + [Frame(call.name, call.start, [] + call.children)];
    assert [] + call.children == call.children;
    assert inside.context[n - 1].name == call.name;
    assert inside.context[..n - 1] + [inside.context[n - 1]] == inside.context;
    assert Settled(inside, call.name) == inside;
  }

  /** Ending the innermost call hands it to what is around it. */
  lemma EndReceives(s: State, call: Call)
    requires Listens(s)
    ensures var inside := Received(Opened(s, call.name, call.start), call.children);
            Next(inside, End(call.name, call.end, [])) == Received(s, [call])
  {
    hide MergedRoot, Next;
    EndCloses(s, call);
    var inside := Received(Opened(s, call.name, call.start), call.children);
    if s.context == [] {
      MergedOne(s, call);
      assert inside.(context := []) == s;
    } else {
      var n := |inside.context|;
      assert inside.context[n - 2] == s.context[n - 2] && inside.context[..n - 2] == s.context[..n - 2];
    }
  }

  lemma MergedOne(s: State, call: Call)
    ensures MergedRoots(s, [call]) == MergedRoot(s, call)
  {
    hide MergedRoot;
    assert [call][1..] == [];
  }

  lemma {:induction false} TraceIsReceived(s: State, call: Call)
    requires Listens(s)
    ensures Run(s, Trace(call)) == Received(s, [call])
    decreases call, 1
  {
    hide Next, Received;
    var start, inner, end := Start(call.name, call.start), Traces(call.children), End(call.name, call.end, []);
    RunBoth(s, [start] + inner, [end]);
    RunBoth(s, [start], inner);
    RunOne(s, start);
    StartOpens(s, call.name, call.start);
    TracesAreReceived(Opened(s, call.name, call.start), call.children);
    RunOne(Run(s, [start] + inner), end);
    EndReceives(s, call);
  }

  lemma StartOpens(s: State, name: Name, time: uint64)
    requires Listens(s)
    ensures Next(s, Start(name, time)) == Opened(s, name, time) && Listens(Opened(s, name, time))
  {
  }

  lemma RunOne(s: State, event: Event)
    ensures Run(s, [event]) == Next(s, event)
  {
    hide Next;
    assert [event][1..] == [];
  }

  lemma ReceivedListens(s: State, calls: seq<Call>)
    requires Listens(s)
    ensures Listens(Received(s, calls))
  {
    MergedContext(s, calls);
  }

  /** Main result, on states: a well-nested trace does to the trees what its calls say. */
  lemma {:induction false} TracesAreReceived(s: State, calls: seq<Call>)
    requires Listens(s)
    ensures Run(s, Traces(calls)) == Received(s, calls)
    decreases calls, 0
  {
    hide Next, Received, Trace;
    if calls == [] {
      NothingReceived(s);
    } else {
      RunBoth(s, Trace(calls[0]), Traces(calls[1..]));
      TraceIsReceived(s, calls[0]);
      ReceivedListens(s, [calls[0]]);
      TracesAreReceived(Received(s, [calls[0]]), calls[1..]);
      ReceivedInTurn(s, [calls[0]], calls[1..]);
      assert [calls[0]] + calls[1..] == calls;
    }
  }

  lemma {:induction false} MergedRootsAdd(s: State, calls: seq<Call>, path: seq<Name>)
    requires path != [] && On(s)
    ensures TimesAt(MergedRoots(s, calls).roots, path) == TimesAt(s.roots, path) + Durations(calls, path)
    decreases |calls|
  {
    hide TimesAt, MergeInto, DurationsOf;
    if calls != [] {
      MergeIntoAdds(s.roots, calls[0], Prev(s, calls[0].name), path);
      MergedRootsAdd(MergedRoot(s, calls[0]), calls[1..], path);
    }
  }

  /** Main result: every call of a well-nested trace is recorded once, under the path of its names. */
  lemma EveryCallIsRecorded(s: State, calls: seq<Call>, path: seq<Name>)
    requires path != [] && On(s) && s.context == []
    ensures var t := Run(s, Traces(calls));
            t.context == [] && TimesAt(t.roots, path) == TimesAt(s.roots, path) + Durations(calls, path)
  {
    TracesAreReceived(s, calls);
    MergedContext(s, calls);
    MergedRootsAdd(s, calls, path);
  }

  // -------- Times between calls --------

  function RootAt(roots: seq<Entry>, name: Name): Entry {
    WithChild(roots, name)[IndexOf(roots, name)]
  }

  /** The times between the starts of one root call and the next. */
  function Gaps(prev: Option<uint64>, calls: seq<Call>, name: Name): multiset<nat>
    decreases |calls|
  {
    if calls == [] then multiset{}
    else if calls[0].name != name then Gaps(prev, calls[1..], name)
    else Pause(1, prev, calls[0].start) + Gaps(Some(calls[0].start), calls[1..], name)
  }

  lemma RootMerged(roots: seq<Entry>, call: Call, prev: Option<uint64>, name: Name)
    ensures RootAt(MergeInto(roots, call, prev), name)
            == if name == call.name then Merge(RootAt(roots, name), call, prev) else RootAt(roots, name)
  {
    hide IndexOf, Merge;
    var i, all := IndexOf(roots, call.name), WithChild(roots, call.name);
    assert Merge(all[i], call, prev).name == call.name by { MergeKeepsName(all[i], call, prev); }
    var after := MergeInto(roots, call, prev);
    if name == call.name {
      IndexIs(after, name, i);
    } else {
      var j := IndexOf(roots, name);
      IndexIs(after, name, if j < |roots| then j else |after|);
    }
  }

  lemma MergeKeepsName(entry: Entry, call: Call, prev: Option<uint64>)
    ensures var r := Merge(entry, call, prev);
            r.name == entry.name && r.expected == entry.expected && r.between == entry.between + Pause(entry.expected, prev, call.start)
  {
  }

  /** The times between the calls of a root are recorded exactly if its rhythm is expected. */
  lemma {:induction false} GapsAreRecorded(s: State, calls: seq<Call>, name: Name)
    requires On(s)
    ensures var before, after := RootAt(s.roots, name), RootAt(MergedRoots(s, calls).roots, name);
            && after.expected == before.expected
            && after.between == before.between + if before.expected == 0 then multiset{} else Gaps(Prev(s, name), calls, name)
    decreases |calls|
  {
    hide RootAt, MergeInto, Merge;
    if calls != [] {
      var prev := Prev(s, calls[0].name);
      RootMerged(s.roots, calls[0], prev, name);
      MergeKeepsName(RootAt(s.roots, name), calls[0], prev);
      GapsAreRecorded(MergedRoot(s, calls[0]), calls[1..], name);
    }
  }

  lemma TraceRecordsGaps(s: State, calls: seq<Call>, name: Name)
    requires On(s) && s.context == []
    ensures var before, after := RootAt(s.roots, name), RootAt(Run(s, Traces(calls)).roots, name);
            after.between == before.between + if before.expected == 0 then multiset{} else Gaps(Prev(s, name), calls, name)
  {
    hide RootAt, Gaps;
    TracesAreReceived(s, calls);
    GapsAreRecorded(s, calls, name);
  }

  // -------- What the numbers mean --------

  /** The calls at that path. */
  function CallsAt(calls: seq<Call>, path: seq<Name>): seq<Call>
    decreases |path|, |calls|
  {
    if path == [] || calls == [] then [] else CallsOf(calls[0], path) + CallsAt(calls[1..], path)
  }

  function CallsOf(call: Call, path: seq<Name>): seq<Call>
    requires path != []
    decreases |path|, 0
  {
    if call.name != path[0] then [] else if |path| == 1 then [call] else CallsAt(call.children, path[1..])
  }

  /** How many of the calls lasted `usec` microseconds, rounded to the nearest. */
  function Lasting(calls: seq<Call>, usec: nat): nat {
    if calls == [] then 0
    else
      (if 1000 * usec <= calls[0].end - calls[0].start + 500 < 1000 * (usec + 1) then 1 else 0)
      + Lasting(calls[1..], usec)
  }

  /** No call ends before it starts, or lasts for all 64 bits of nanoseconds. */
  predicate Timely(calls: seq<Call>) {
    forall i :: 0 <= i < |calls| ==>
      calls[i].start <= calls[i].end && calls[i].end - calls[i].start + 500 < 0x1_0000_0000_0000_0000
  }

  lemma UsecRounds(prev: uint64, next: uint64)
    requires prev <= next && next - prev + 500 < 0x1_0000_0000_0000_0000
    ensures 1000 * Usec(prev, next) <= next - prev + 500 < 1000 * (Usec(prev, next) + 1)
  {
  }

  lemma RhythmRounds(ns: uint64)
    requires ns + 500 < 0x1_0000_0000_0000_0000
    ensures 1000 * Rounded(ns) <= ns + 500 < 1000 * (Rounded(ns) + 1)
  {
  }

  lemma LastingAppend(a: seq<Call>, b: seq<Call>, usec: nat)
    ensures Lasting(a + b, usec) == Lasting(a, usec) + Lasting(b, usec)
  {
    if a == [] {
      assert a + b == b;
    } else {
      assert (a + b)[1..] == a[1..] + b;
      LastingAppend(a[1..], b, usec);
    }
  }

  /** Under every path a duration is recorded as often as a call on that path lasted that long. */
  lemma {:induction false} DurationsAreRounded(calls: seq<Call>, path: seq<Name>, usec: nat)
    requires Timely(CallsAt(calls, path))
    ensures Durations(calls, path)[usec] == Lasting(CallsAt(calls, path), usec)
    decreases |path|, |calls|
  {
    hide Usec, Timely;
    if path != [] && calls != [] {
      var first, rest := CallsOf(calls[0], path), CallsAt(calls[1..], path);
      TimelyParts(first, rest);
      LastingAppend(first, rest, usec);
      DurationsAreRounded(calls[1..], path, usec);
      if calls[0].name == path[0] {
        if |path| == 1 {
          OneLasting(calls[0], usec);
        } else {
          DurationsAreRounded(calls[0].children, path[1..], usec);
        }
      }
    }
  }

  lemma OneLasting(call: Call, usec: nat)
    requires Timely([call])
    ensures Lasting([call], usec) == multiset{Duration(call) as nat}[usec]
  {
    assert [call][0] == call && [call][1..] == [];
    UsecRounds(call.start, call.end);
  }

  lemma TimelyParts(a: seq<Call>, b: seq<Call>)
    ensures Timely(a + b) ==> Timely(a) && Timely(b)
  {
    assert forall i :: 0 <= i < |a| ==> (a + b)[i] == a[i];
    assert forall i :: 0 <= i < |b| ==> (a + b)[|a| + i] == b[i];
  }

  /** When the calls of a root started, in turn. */
  function StartsOf(calls: seq<Call>, name: Name): seq<uint64> {
    if calls == [] then []
    else (if calls[0].name == name then [calls[0].start] else []) + StartsOf(calls[1..], name)
  }

  /** How many starts are `usec` microseconds after the one before, rounded to the nearest. */
  function Apart(starts: seq<uint64>, usec: nat): nat {
    if |starts| <= 1 then 0
    else
      (if 1000 * usec <= starts[1] - starts[0] + 500 < 1000 * (usec + 1) then 1 else 0) + Apart(starts[1..], usec)
  }

  predicate InOrder(starts: seq<uint64>) {
    forall i :: 0 <= i < |starts| - 1 ==>
      starts[i] <= starts[i + 1] && starts[i + 1] as int - starts[i] as int + 500 < 0x1_0000_0000_0000_0000
  }

  lemma ApartStep(first: uint64, starts: seq<uint64>, usec: nat)
    requires starts != [] && InOrder([first] + starts)
    ensures InOrder(starts)
    ensures Apart([first] + starts, usec) == multiset{Usec(first, starts[0]) as nat}[usec] + Apart(starts, usec)
  {
    hide Usec;
    var all := [first] + starts;
    assert all[0] == first && all[1] == starts[0] && all[1..] == starts;
    UsecRounds(first, starts[0]);
    assert forall i :: 0 <= i < |starts| ==> starts[i] == all[i + 1];
  }

  /** The times recorded between the calls of a root are the differences of their starts. */
  lemma {:induction false} GapsAreRounded(prev: Option<uint64>, calls: seq<Call>, name: Name, usec: nat)
    requires InOrder((if prev.Some? then [prev.value] else []) + StartsOf(calls, name))
    ensures Gaps(prev, calls, name)[usec] == Apart((if prev.Some? then [prev.value] else []) + StartsOf(calls, name), usec)
    decreases |calls|
  {
    hide Usec, Apart, InOrder;
    if calls == [] {
      NoneApart(if prev.Some? then [prev.value] else [], usec);
      assert (if prev.Some? then [prev.value] else []) + [] == if prev.Some? then [prev.value] else [];
    } else if calls[0].name == name {
      var starts := [calls[0].start] + StartsOf(calls[1..], name);
      if prev.Some? {
        ApartStep(prev.value, starts, usec);
      } else {
        assert [] + starts == starts;
      }
      GapsAreRounded(Some(calls[0].start), calls[1..], name, usec);
    } else {
      assert StartsOf(calls, name) == StartsOf(calls[1..], name);
      GapsAreRounded(prev, calls[1..], name, usec);
    }
  }

  lemma NoneApart(starts: seq<uint64>, usec: nat)
    requires |starts| <= 1
    ensures Apart(starts, usec) == 0
  {
  }

  // -------- Single calls --------

  /** A root call without calls inside, started under its name or without one. */
  lemma RootCall(s: State, started: Name, name: Name, t0: uint64, t1: uint64)
    requires On(s) && s.context == [] && (started == name || started == NO_NAME)
    ensures Next(Next(s, Start(started, t0)), End(name, t1, [])) == MergedRoot(s, Call(name, t0, t1, []))
  {
    hide MergedRoot;
    var u := Next(s, Start(started, t0));
    assert u.context == [Frame(started, t0, [])];
    var v := Settled(u, name);
    assert v.context == [Frame(name, t0, [])] && v == s.(context := v.context);
    assert v.context[0].name == name && IsOpen(v.context, name);
    assert EndInner(v, name, t1, []) == v;
    assert TopCall(v.context, t1) == Call(name, t0, t1, []);
    assert v.(context := []) == s;
  }

  /** Merging a call without calls inside into the only entry. */
  lemma MergedLeaf(entry: Entry, call: Call, prev: Option<uint64>)
    requires call.children == [] && call.name == entry.name
    ensures MergeInto([entry], call, prev)
            == [entry.(times := entry.times + multiset{Duration(call) as nat},
                       between := entry.between + Pause(entry.expected, prev, call.start))]
  {
    assert [entry][0] == entry && IndexOf([entry], entry.name) == 0;
    var r := Merge(entry, call, prev);
    assert MergeAll(entry.children, call.children) == entry.children;
    assert r == entry.(times := r.times, between := r.between);
    assert [entry][0 := r] == [r];
  }

  lemma MergedFirst(call: Call, prev: Option<uint64>)
    ensures MergeInto([], call, prev) == MergeInto([NewEntry(call.name)], call, prev)
  {
    assert [] + [NewEntry(call.name)] == [NewEntry(call.name)];
  }

  /** A call that is left open is ended with the one around it; an end nobody waits for changes nothing. */
  lemma LeftOpen(s: State, outer: Name, inner: Name, stray: Name, t0: uint64, t1: uint64, t2: uint64, t3: uint64)
    requires On(s) && s.context == [] && outer != inner && inner != NO_NAME && stray != outer && stray != inner
    ensures var open := Next(Next(s, Start(outer, t0)), Start(inner, t1));
            && Next(open, End(stray, t2, [])) == open
            && Next(open, End(outer, t3, [t2])) == MergedRoot(s, Call(outer, t0, t3, [Call(inner, t1, t2, [])]))
  {
    hide MergedRoot;
    var open := Next(Next(s, Start(outer, t0)), Start(inner, t1));
    assert open.context == [Frame(outer, t0, []), Frame(inner, t1, [])];
    assert !IsOpen(open.context, stray);
    assert open.context[0].name == outer && IsOpen(open.context, outer);
    var call := Call(inner, t1, t2, []);
    var inside := open.(context := [Frame(outer, t0, [call])]);
    assert TopCall(open.context, t2) == call && [] + [call] == [call];
    assert Handed(open.context, t2) == inside.context;
    assert Closed(open, t2) == inside && inside.context[0].name == outer;
    assert [t2][1..] == [];
    assert EndInner(inside, outer, t3, []) == inside;
    assert EndInner(open, outer, t3, [t2]) == inside;
    assert TopCall(inside.context, t3) == Call(outer, t0, t3, [call]);
    assert inside.(context := []) == s;
  }

  /** What a call leaves in a new entry. */
  function LeafEntry(call: Call): Entry {
    Entry(call.name, multiset{Duration(call) as nat}, 0, multiset{}, [])
  }

  lemma MergedLeafFirst(call: Call)
    requires call.children == []
    ensures MergeInto([], call, None) == [LeafEntry(call)]
  {
    hide MergeInto, Duration;
    MergedFirst(call, None);
    MergedLeaf(NewEntry(call.name), call, None);
    var none, one: multiset<nat> := multiset{}, multiset{Duration(call) as nat};
    assert none + one == one && none + none == none;
  }

  lemma MergedWithInner(call: Call, inner: Call)
    requires call.children == [inner] && inner.children == []
    ensures MergeInto([], call, None) == [LeafEntry(call).(children := [LeafEntry(inner)])]
  {
    hide Duration;
    var e, kids := NewEntry(call.name), [LeafEntry(inner)];
    MergedFirst(call, None);
    MergedLeafFirst(inner);
    assert [inner][1..] == [];
    assert MergeAll(e.children, call.children) == MergeAll(kids, []) == kids;
    var none, one: multiset<nat> := multiset{}, multiset{Duration(call) as nat};
    assert none + one == one && none + none == none;
    var r := Merge(e, call, None);
    assert r == LeafEntry(call).(children := kids);
    assert IndexOf([e], call.name) == 0 && [e][0] == e && [e][0 := r] == [r];
  }

  /** Two calls of a root that was registered before. */
  lemma TwoRootCalls(s: State, name: Name, expectedNs: uint64, t0: uint64, t1: uint64, t2: uint64, t3: uint64)
    requires On(s) && s.context == [] && s.roots == [] && name !in s.prevs
    ensures var a := Next(s, Register(name, expectedNs));
            var b := Next(Next(a, Start(name, t0)), End(name, t1, []));
            var c := Next(Next(b, Start(name, t2)), End(name, t3, []));
            c.roots == [Entry(name, multiset{Usec(t0, t1) as nat, Usec(t2, t3) as nat}, Rounded(expectedNs),
                              if Rounded(expectedNs) == 0 then multiset{} else multiset{Usec(t0, t2) as nat}, [])]
  {
    hide Usec, Rounded, Next, MergeInto;
    RegistersFirst(s, name, expectedNs);
    var a := Next(s, Register(name, expectedNs));
    RootCall(a, name, name, t0, t1);
    MergedLeaf(a.roots[0], Call(name, t0, t1, []), None);
    var b := MergedRoot(a, Call(name, t0, t1, []));
    RootCall(b, name, name, t2, t3);
    MergedLeaf(b.roots[0], Call(name, t2, t3, []), Some(t0));
    var none, x, y: multiset<nat> := multiset{}, multiset{Usec(t0, t1) as nat}, multiset{Usec(t2, t3) as nat};
    assert none + x + y == multiset{Usec(t0, t1) as nat, Usec(t2, t3) as nat};
    var gap := Pause(Rounded(expectedNs), Some(t0), t2);
    assert none + none + gap == gap;
  }

  lemma RegistersFirst(s: State, name: Name, expectedNs: uint64)
    requires s.enabled && s.roots == []
    ensures Next(s, Register(name, expectedNs)) == s.(roots := [NewEntry(name).(expected := Rounded(expectedNs))])
  {
    hide Rounded;
    assert WithChild([], name) == [NewEntry(name)];
    var e := NewEntry(name).(expected := Rounded(expectedNs));
    assert [NewEntry(name)][0 := e] == [e];
  }

  // -------- A profiler that is stopped in between --------

  /** A thread that dropped out takes no notice of calls. */
  lemma {:induction false} Idle(s: State, events: seq<Event>)
    requires !s.threadEnabled && forall i :: 0 <= i < |events| ==> events[i].Start? || events[i].End?
    ensures Run(s, events) == s
    decreases |events|
  {
    if events != [] {
      Idle(s, events[1..]);
    }
  }

  lemma {:induction false} TraceOfCalls(call: Call)
    ensures forall i :: 0 <= i < |Trace(call)| ==> Trace(call)[i].Start? || Trace(call)[i].End?
    decreases call, 1
  {
    TracesOfCalls(call.children);
  }

  lemma {:induction false} TracesOfCalls(calls: seq<Call>)
    ensures forall i :: 0 <= i < |Traces(calls)| ==> Traces(calls)[i].Start? || Traces(calls)[i].End?
    decreases calls, 0
  {
    if calls != [] {
      TraceOfCalls(calls[0]);
      TracesOfCalls(calls[1..]);
    }
  }

  /** While the profiler is stopped calls are lost, and the first that ends takes its thread out. */
  lemma TracesAreLost(s: State, calls: seq<Call>)
    requires !s.enabled && s.context == []
    ensures Run(s, Traces(calls)) == s.(threadEnabled := s.threadEnabled && calls == [])
  {
    hide Next, Received, Trace;
    if s.threadEnabled && calls != [] {
      RunBoth(s, Trace(calls[0]), Traces(calls[1..]));
      FirstIsLost(s, calls[0]);
      TracesOfCalls(calls[1..]);
      Idle(s.(threadEnabled := false), Traces(calls[1..]));
    } else {
      TracesOfCalls(calls);
      if !s.threadEnabled {
        Idle(s, Traces(calls));
      }
    }
  }

  lemma FirstIsLost(s: State, call: Call)
    requires !s.enabled && s.threadEnabled && s.context == []
    ensures Run(s, Trace(call)) == s.(threadEnabled := false)
  {
    hide Next, Received;
    var start, inner, end := Start(call.name, call.start), Traces(call.children), End(call.name, call.end, []);
    RunBoth(s, [start] + inner, [end]);
    RunBoth(s, [start], inner);
    RunOne(s, start);
    OpenedWhileStopped(s, call);
    TracesAreReceived(Opened(s, call.name, call.start), call.children);
    RunOne(Run(s, [start] + inner), end);
    EndCloses(s, call);
  }

  lemma OpenedWhileStopped(s: State, call: Call)
    requires s.threadEnabled
    ensures Next(s, Start(call.name, call.start)) == Opened(s, call.name, call.start) && Listens(Opened(s, call.name, call.start))
  {
  }

  /** What is called while the profiler is stopped is not recorded, and everything before and after is. */
  lemma RecordedWhileRunning(s: State, before: seq<Call>, during: seq<Call>, after: seq<Call>, path: seq<Name>)
    requires On(s) && s.context == [] && path != []
    ensures var t := Run(s, Traces(before) + [ProfilerStop] + Traces(during) + [ProfilerStart, Reenable] + Traces(after));
            TimesAt(t.roots, path) == TimesAt(s.roots, path) + Durations(before, path) + Durations(after, path)
  {
    hide Next, TimesAt, Durations, Traces;
    var a := Run(s, Traces(before));
    EveryCallIsRecorded(s, before, path);
    EnabledAfter(s, before);
    var b := Run(Next(a, ProfilerStop), Traces(during));
    Switched(a);
    TracesAreLost(Next(a, ProfilerStop), during);
    Switched(b);
    var c := Next(Next(b, ProfilerStart), Reenable);
    EveryCallIsRecorded(c, after, path);
    RunParts(s, Traces(before), Traces(during), Traces(after));
  }

  lemma EnabledAfter(s: State, calls: seq<Call>)
    requires On(s) && s.context == []
    ensures On(Run(s, Traces(calls)))
  {
    TracesAreReceived(s, calls);
    MergedContext(s, calls);
  }

  lemma Switched(s: State)
    ensures Next(s, ProfilerStop) == s.(enabled := false)
    ensures Next(Next(s, ProfilerStart), Reenable) == s.(enabled := true, threadEnabled := true)
  {
  }

  lemma RunParts(s: State, a: seq<Event>, b: seq<Event>, c: seq<Event>)
    ensures Run(s, a + [ProfilerStop] + b + [ProfilerStart, Reenable] + c)
            == Run(Next(Next(Run(Next(Run(s, a), ProfilerStop), b), ProfilerStart), Reenable), c)
  {
    hide Next;
    RunBoth(s, a + [ProfilerStop] + b + [ProfilerStart, Reenable], c);
    RunBoth(s, a + [ProfilerStop] + b, [ProfilerStart, Reenable]);
    RunBoth(s, a + [ProfilerStop], b);
    RunBoth(s, a, [ProfilerStop]);
    RunOne(Run(s, a), ProfilerStop);
    var t := Run(s, a + [ProfilerStop] + b);
    assert [ProfilerStart, Reenable] == [ProfilerStart] + [Reenable];
    RunBoth(t, [ProfilerStart], [Reenable]);
    RunOne(t, ProfilerStart);
    RunOne(Next(t, ProfilerStart), Reenable);
  }
}

/**
  The profiler as it runs: trees of entries that hold the tables of durations, a thread that starts and ends
  calls, and snapshots. All tables of the trees are apart from each other in memory; what a tree records is
  what its tables have recorded.
 */
module Profilers {

  import opened Common
  import opened RobinHood
  import opened TimesTables
  import opened ProfileTrees

  datatype Node = Node(name: Name, times: TimesTable, expected: uint64, between: TimesTable, children: seq<Node>)

  // -------- The tables of a tree --------

  ghost function Tables(n: Node): set<TimesTable>
    decreases n, 0
  {
    {n.times, n.between} + TablesAll(n.children)
  }

  ghost function TablesAll(ns: seq<Node>): set<TimesTable>
    decreases ns, 1
  {
    if ns == [] then {} else Tables(ns[0]) + TablesAll(ns[1..])
  }

  /** No table occurs twice. */
  ghost predicate Distinct(n: Node)
    decreases n, 0
  {
    n.times != n.between && {n.times, n.between} !! TablesAll(n.children) && DistinctAll(n.children)
  }

  ghost predicate DistinctAll(ns: seq<Node>)
    decreases ns, 1
  {
    ns != [] ==> Distinct(ns[0]) && Tables(ns[0]) !! TablesAll(ns[1..]) && DistinctAll(ns[1..])
  }

  // -------- What a tree has recorded --------

  /** What each table has recorded. */
  type Logs = map<TimesTable, multiset<nat>>

  ghost function View(m: Logs, n: Node): Entry
    requires Tables(n) <= m.Keys
    decreases n, 0
  {
    Entry(n.name, m[n.times], n.expected, m[n.between], ViewAll(m, n.children))
  }

  ghost function ViewAll(m: Logs, ns: seq<Node>): (es: seq<Entry>)
    requires TablesAll(ns) <= m.Keys
    ensures |es| == |ns|
    decreases ns, 1
  {
    if ns == [] then [] else [View(m, ns[0])] + ViewAll(m, ns[1..])
  }

  /** The tables of `s` have recorded the same. */
  ghost predicate Same(a: Logs, b: Logs, s: set<TimesTable>) {
    forall t :: t in s ==> t in a && t in b && a[t] == b[t]
  }

  lemma {:induction false} ViewSame(a: Logs, b: Logs, n: Node)
    requires Tables(n) <= a.Keys && Tables(n) <= b.Keys && Same(a, b, Tables(n))
    ensures View(a, n) == View(b, n)
    decreases n, 0
  {
    ViewAllSame(a, b, n.children);
  }

  lemma {:induction false} ViewAllSame(a: Logs, b: Logs, ns: seq<Node>)
    requires TablesAll(ns) <= a.Keys && TablesAll(ns) <= b.Keys && Same(a, b, TablesAll(ns))
    ensures ViewAll(a, ns) == ViewAll(b, ns)
    decreases ns, 1
  {
    if ns != [] {
      ViewSame(a, b, ns[0]);
      ViewAllSame(a, b, ns[1..]);
    }
  }

  lemma {:induction false} NodeAt(m: Logs, ns: seq<Node>, i: nat)
    requires i < |ns| && DistinctAll(ns)
    ensures Tables(ns[i]) <= TablesAll(ns) && Distinct(ns[i])
    ensures TablesAll(ns) <= m.Keys ==> ViewAll(m, ns)[i] == View(m, ns[i])
  {
    if i > 0 {
      NodeAt(m, ns[1..], i - 1);
    }
  }

  lemma {:induction false} NamesAre(m: Logs, ns: seq<Node>, i: nat)
    requires i < |ns| && TablesAll(ns) <= m.Keys
    ensures ViewAll(m, ns)[i].name == ns[i].name && ViewAll(m, ns)[i].expected == ns[i].expected
  {
    if i > 0 {
      NamesAre(m, ns[1..], i - 1);
    }
  }

  lemma SameTables(m: Logs, n: Node, r: Node)
    requires Distinct(n) && Tables(n) <= m.Keys && r == n.(expected := r.expected)
    ensures Distinct(r) && Tables(r) == Tables(n) && View(m, r) == View(m, n).(expected := r.expected)
  {
  }

  /** One node of a list changes, and nothing else. */
  lemma {:induction false} NodeChanged(a: Logs, b: Logs, ns: seq<Node>, i: nat, r: Node)
    requires i < |ns| && DistinctAll(ns) && TablesAll(ns) <= a.Keys
    requires Distinct(r) && Tables(r) <= b.Keys && (Tables(r) - Tables(ns[i])) !! TablesAll(ns)
    requires Same(a, b, TablesAll(ns) - Tables(ns[i]))
    ensures DistinctAll(ns[i := r]) && TablesAll(ns[i := r]) <= TablesAll(ns) + Tables(r)
    ensures TablesAll(ns[i := r]) <= b.Keys
    ensures ViewAll(b, ns[i := r]) == ViewAll(a, ns)[i := View(b, r)]
  {
    hide Tables, Distinct, View;
    var after := ns[i := r];
    if i == 0 {
      assert after[1..] == ns[1..];
      ViewAllSame(a, b, ns[1..]);
    } else {
      NodeAt(a, ns[1..], i - 1);
      assert after[1..] == ns[1..][i - 1 := r];
      NodeChanged(a, b, ns[1..], i - 1, r);
      ViewSame(a, b, ns[0]);
    }
  }

  lemma {:induction false} NodeAdded(a: Logs, b: Logs, ns: seq<Node>, r: Node)
    requires DistinctAll(ns) && TablesAll(ns) <= a.Keys && Same(a, b, TablesAll(ns))
    requires Distinct(r) && Tables(r) <= b.Keys && Tables(r) !! TablesAll(ns)
    ensures DistinctAll(ns + [r]) && TablesAll(ns + [r]) == TablesAll(ns) + Tables(r)
    ensures ViewAll(b, ns + [r]) == ViewAll(a, ns) + [View(b, r)]
  {
    hide Tables, Distinct, View;
    if ns == [] {
      assert ns + [r] == [r] && [r][1..] == [];
    } else {
      assert (ns + [r])[1..] == ns[1..] + [r];
      NodeAdded(a, b, ns[1..], r);
      ViewSame(a, b, ns[0]);
    }
  }

  // -------- Memory --------

  /** The objects of a table. */
  ghost function Foot(t: TimesTable): set<object>
    reads t
  {
    if t.oldEntries == null then {t, t.entries} else {t, t.entries, t.oldEntries as array<Slot>}
  }

  ghost function Feet(ts: set<TimesTable>): set<object>
    reads ts
  {
    set t, o | t in ts && o in Foot(t) :: o
  }

  ghost predicate Good(t: TimesTable)
    reads Foot(t)
  {
    t.Valid() && t.Paced() && t.Exact()
  }

  /** Every table is in order, and no two share an object. */
  ghost predicate Sound(ts: set<TimesTable>)
    reads ts, Feet(ts)
  {
    && (forall t :: t in ts ==> assert Foot(t) <= Feet(ts); Good(t))
    && (forall t, u :: t in ts && u in ts && t != u ==> Foot(t) !! Foot(u))
  }

  ghost function LogsOf(ts: set<TimesTable>): (m: Logs)
    reads ts
    ensures m.Keys == ts && forall t :: t in ts ==> m[t] == t.log
  {
    map t | t in ts :: t.log
  }

  lemma FeetAllocated(ts: set<TimesTable>)
    ensures forall o: object? :: o in Feet(ts) ==> o != null && allocated(o)
  {
  }

  lemma FootIn(t: TimesTable, ts: set<TimesTable>)
    requires t in ts
    ensures Foot(t) <= Feet(ts)
  {
  }

  /** Recording one duration. */
  method Record(t: TimesTable, usec: uint64, ghost ts: set<TimesTable>)
    requires t in ts && Sound(ts)
    modifies Foot(t)
    ensures Sound(ts)
    ensures forall o: object? :: o in Feet(ts) && o !in old(Feet(ts)) ==> fresh(o)
    ensures t.log == old(t.log) + multiset{usec as nat}
    ensures forall u :: u in ts && u != t ==> u.log == old(u.log)
  {
    hide TimesTable.Valid, TimesTable.Paced, TimesTable.Exact;
    FeetAllocated(ts);
    assert forall u :: u in ts && u != t ==> Foot(u) !! Foot(t);
    t.RecordCall(usec);
    assert forall u :: u in ts && u != t ==> Foot(u) == old(Foot(u)) && Good(u);
  }

  method NewTable(ghost ts: set<TimesTable>) returns (t: TimesTable, ghost more: set<TimesTable>)
    requires Sound(ts)
    ensures fresh(t) && more == ts + {t} && Sound(more)
    ensures forall o: object? :: o in Feet(more) && o !in old(Feet(ts)) ==> fresh(o)
    ensures t.log == multiset{} && forall u :: u in ts ==> u.log == old(u.log)
  {
    hide TimesTable.Valid, TimesTable.Paced, TimesTable.Exact;
    FeetAllocated(ts);
    t := new TimesTable(1);
    more := ts + {t};
    assert forall u :: u in ts ==> Foot(u) == old(Foot(u)) && Foot(u) <= old(Feet(ts)) && Good(u);
    assert fresh(Foot(t));
  }

  /** A new entry; its tables are empty. */
  method InitEntry(name: Name, ghost ts: set<TimesTable>) returns (n: Node, ghost more: set<TimesTable>)
    requires Sound(ts)
    ensures more == ts + Tables(n) && fresh(Tables(n)) && Sound(more)
    ensures forall o: object? :: o in Feet(more) && o !in old(Feet(ts)) ==> fresh(o)
    ensures forall t :: t in ts ==> t.log == old(t.log)
    ensures Distinct(n) && View(LogsOf(more), n) == NewEntry(name)
  {
    hide Sound, Foot, Feet;
    ghost var some;
    var times, between;
    times, some := NewTable(ts);
    between, more := NewTable(some);
    FeetAllocated(more);
    n := Node(name, times, 0, between, []);
    assert Tables(n) == {times, between};
  }

  /** The place of the child of that name. */
  method FindChild(ns: seq<Node>, name: Name, ghost m: Logs) returns (i: nat)
    requires TablesAll(ns) <= m.Keys
    ensures i == IndexOf(ViewAll(m, ns), name)
  {
    hide IndexOf, ViewAll;
    ghost var es := ViewAll(m, ns);
    for k := 0 to |ns|
      invariant forall j :: 0 <= j < k ==> es[j].name != name
    {
      NamesAre(m, ns, k);
      if ns[k].name == name {
        IndexIs(es, name, k);
        return k;
      }
    }
    IndexIs(es, name, |ns|);
    i := |ns|;
  }

  /** The child of that name, added if there is none. */
  method GetChild(ns: seq<Node>, name: Name, ghost ts: set<TimesTable>)
    returns (all: seq<Node>, i: nat, ghost more: set<TimesTable>)
    requires Sound(ts) && TablesAll(ns) <= ts && DistinctAll(ns)
    ensures ts <= more && Sound(more)
    ensures forall o: object? :: o in Feet(more) && o !in old(Feet(ts)) ==> fresh(o)
    ensures forall t :: t in more && t !in ts ==> fresh(t)
    ensures forall t :: t in ts ==> t.log == old(t.log)
    ensures DistinctAll(all) && TablesAll(ns) <= TablesAll(all) <= TablesAll(ns) + (more - ts)
    ensures var es := old(ViewAll(LogsOf(ts), ns));
            ViewAll(LogsOf(more), all) == WithChild(es, name) && i == IndexOf(es, name) < |all|
  {
    hide IndexOf, Sound, ViewAll, View, Tables, TablesAll, Distinct, DistinctAll, Foot, Feet;
    ghost var m := LogsOf(ts);
    FeetAllocated(ts);
    i := FindChild(ns, name, m);
    if i < |ns| {
      return ns, i, ts;
    }
    var n;
    n, more := InitEntry(name, ts);
    NodeAdded(m, LogsOf(more), ns, n);
    FeetAllocated(more);
    all := ns + [n];
  }

  // -------- Merging --------

  /** Merges a finished call into an entry: first what it called, then the times. */
  method MergeCall(n: Node, call: Call, prev: Option<uint64>, ghost ts: set<TimesTable>)
    returns (r: Node, ghost more: set<TimesTable>)
    requires Sound(ts) && Tables(n) <= ts && Distinct(n)
    modifies Feet(ts)
    ensures ts <= more && Sound(more)
    ensures forall o: object? :: o in Feet(more) && o !in old(Feet(ts)) ==> fresh(o)
    ensures forall t :: t in more && t !in ts ==> fresh(t)
    ensures forall t :: t in ts && t !in Tables(n) ==> t.log == old(t.log)
    ensures Distinct(r) && Tables(r) <= Tables(n) + (more - ts)
    ensures View(LogsOf(more), r) == Merge(old(View(LogsOf(ts), n)), call, prev)
    decreases call, 1
  {
    hide Sound, Foot, Feet, MergeAll, LogsOf, ViewAll;
    var children;
    children, more := MergeChildren(n.children, call.children, ts);
    r := n.(children := children);
    ghost var m := LogsOf(more);
    FootIn(n.times, more);
    FootIn(n.between, more);
    RecordTimes(n, call, prev, more);
    FeetAllocated(more);
    ViewAllSame(m, LogsOf(more), children);
  }

  /** The time between two calls of a root, and the duration. */
  method RecordTimes(n: Node, call: Call, prev: Option<uint64>, ghost ts: set<TimesTable>)
    requires Sound(ts) && n.times in ts && n.between in ts && n.times != n.between
    modifies Foot(n.times), Foot(n.between), Feet(ts)
    ensures Sound(ts)
    ensures forall o: object? :: o in Feet(ts) && o !in old(Feet(ts)) ==> fresh(o)
    ensures n.times.log == old(n.times.log) + multiset{Duration(call) as nat}
    ensures n.between.log == old(n.between.log) + Pause(n.expected, prev, call.start)
    ensures forall t :: t in ts && t != n.times && t != n.between ==> t.log == old(t.log)
  {
    hide Sound, Foot, Feet;
    if n.expected != 0 && prev.Some? {
      Record(n.between, Usec(prev.value, call.start), ts);
    }
    FootIn(n.times, ts);
    Record(n.times, Duration(call), ts);
    FeetAllocated(ts);
  }

  /** Merges the calls one after the other, each into the child of its name. */
  method MergeChildren(ns: seq<Node>, calls: seq<Call>, ghost ts: set<TimesTable>)
    returns (children: seq<Node>, ghost more: set<TimesTable>)
    requires Sound(ts) && TablesAll(ns) <= ts && DistinctAll(ns)
    modifies Feet(ts)
    ensures ts <= more && Sound(more)
    ensures forall o: object? :: o in Feet(more) && o !in old(Feet(ts)) ==> fresh(o)
    ensures forall t :: t in more && t !in ts ==> fresh(t)
    ensures forall t :: t in ts && t !in TablesAll(ns) ==> t.log == old(t.log)
    ensures DistinctAll(children) && TablesAll(children) <= TablesAll(ns) + (more - ts)
    ensures ViewAll(LogsOf(more), children) == MergeAll(old(ViewAll(LogsOf(ts), ns)), calls)
    decreases calls, 0
  {
    hide Sound, Foot, Feet, View, ViewAll, MergeInto, Tables, TablesAll, Distinct, DistinctAll, LogsOf;
    children, more := ns, ts;
    ghost var f0, all := Feet(ts), MergeAll(ViewAll(LogsOf(ts), ns), calls);
    for i := 0 to |calls|
      invariant ts <= more && Sound(more)
      invariant forall o: object? :: o in Feet(more) && o !in f0 ==> fresh(o)
      invariant forall t :: t in more && t !in ts ==> fresh(t)
      invariant forall t :: t in ts && t !in TablesAll(ns) ==> t.log == old(t.log)
      invariant DistinctAll(children) && TablesAll(children) <= TablesAll(ns) + (more - ts)
      invariant MergeAll(ViewAll(LogsOf(more), children), calls[i..]) == all
    {
      assert calls[i..][0] == calls[i] && calls[i..][1..] == calls[i + 1..];
      children, more := MergeOne(children, calls[i], None, more);
      FeetAllocated(more);
    }
    assert calls[|calls|..] == [];
  }

  /** Merges a call into the entry of its name, which is added if there is none. */
  method MergeOne(ns: seq<Node>, call: Call, prev: Option<uint64>, ghost ts: set<TimesTable>)
    returns (all: seq<Node>, ghost more: set<TimesTable>)
    requires Sound(ts) && TablesAll(ns) <= ts && DistinctAll(ns)
    modifies Feet(ts)
    ensures ts <= more && Sound(more)
    ensures forall o: object? :: o in Feet(more) && o !in old(Feet(ts)) ==> fresh(o)
    ensures forall t :: t in more && t !in ts ==> fresh(t)
    ensures forall t :: t in ts && t !in TablesAll(ns) ==> t.log == old(t.log)
    ensures DistinctAll(all) && TablesAll(all) <= TablesAll(ns) + (more - ts)
    ensures ViewAll(LogsOf(more), all) == MergeInto(old(ViewAll(LogsOf(ts), ns)), call, prev)
    decreases call, 2
  {
    hide Sound, Foot, Feet, View, ViewAll, Merge, Tables, TablesAll, Distinct, DistinctAll, LogsOf, IndexOf;
    var i;
    ghost var some;
    all, i, some := GetChild(ns, call.name, ts);
    ghost var m := LogsOf(some);
    NodeAt(m, all, i);
    var r;
    r, more := MergeCall(all[i], call, prev, some);
    FeetAllocated(more);
    NodeChanged(m, LogsOf(more), all, i, r);
    all := all[i := r];
  }

  /** Sets the expected rhythm of the entry of that name, which is added if there is none. */
  method Expect(ns: seq<Node>, name: Name, expected: uint64, ghost ts: set<TimesTable>)
    returns (all: seq<Node>, ghost more: set<TimesTable>)
    requires Sound(ts) && TablesAll(ns) <= ts && DistinctAll(ns)
    ensures ts <= more && Sound(more)
    ensures forall o: object? :: o in Feet(more) && o !in old(Feet(ts)) ==> fresh(o)
    ensures forall t :: t in more && t !in ts ==> fresh(t)
    ensures DistinctAll(all) && TablesAll(all) <= more
    ensures var es := old(ViewAll(LogsOf(ts), ns)); var i, some := IndexOf(es, name), WithChild(es, name);
            ViewAll(LogsOf(more), all) == some[i := some[i].(expected := expected)]
  {
    hide Sound, Feet, TablesAll, Tables, DistinctAll, Distinct, ViewAll, View, LogsOf, IndexOf;
    var i;
    all, i, more := GetChild(ns, name, ts);
    ghost var m := LogsOf(more);
    NodeAt(m, all, i);
    var r := all[i].(expected := expected);
    SameTables(m, all[i], r);
    NodeChanged(m, m, all, i, r);
    all := all[i := r];
  }

  // -------- Snapshots --------

  datatype SnapEntry = SnapEntry(
    name: Name, times: seq<TimeEntry>, count: uint64, min: uint64, max: uint64,
    expected: uint64, between: seq<TimeEntry>, betweenCount: uint64, betweenMin: uint64, betweenMax: uint64,
    children: seq<SnapEntry>)

  /** The copy of an entry tells what the entry has recorded, and so do those of its children. */
  ghost predicate SnapShows(s: SnapEntry, e: Entry)
    decreases s, 0
  {
    && s.name == e.name && s.expected == e.expected
    && Shows(s.times, s.count, s.min, s.max, e.times)
    && (e.expected != 0 ==> Shows(s.between, s.betweenCount, s.betweenMin, s.betweenMax, e.between))
    && SnapsShow(s.children, e.children)
  }

  ghost predicate SnapsShow(ss: seq<SnapEntry>, es: seq<Entry>)
    decreases ss, 1
  {
    |ss| == |es| && (ss != [] ==> SnapShows(ss[0], es[0]) && SnapsShow(ss[1..], es[1..]))
  }

  /** Copies a table out. */
  method Copy(t: TimesTable, ghost ts: set<TimesTable>)
    returns (buffer: seq<TimeEntry>, calls: uint64, min: uint64, max: uint64)
    requires t in ts && Sound(ts)
    modifies Foot(t)
    ensures Sound(ts)
    ensures forall o: object? :: o in Feet(ts) && o !in old(Feet(ts)) ==> fresh(o)
    ensures forall u :: u in ts ==> u.log == old(u.log)
    ensures Shows(buffer, calls, min, max, t.log)
  {
    hide TimesTable.Valid, TimesTable.Paced, TimesTable.Exact, Shows;
    FeetAllocated(ts);
    assert forall u :: u in ts && u != t ==> Foot(u) !! Foot(t);
    buffer, calls, min, max := t.CopyMapToArray();
    assert forall u :: u in ts && u != t ==> Foot(u) == old(Foot(u)) && Good(u);
  }

  method AddEntryToSnapshot(n: Node, ghost ts: set<TimesTable>) returns (s: SnapEntry)
    requires Sound(ts) && Tables(n) <= ts
    modifies Feet(ts)
    ensures Sound(ts)
    ensures forall o: object? :: o in Feet(ts) && o !in old(Feet(ts)) ==> fresh(o)
    ensures forall t :: t in ts ==> t.log == old(t.log)
    ensures SnapShows(s, View(LogsOf(ts), n))
    decreases n, 0
  {
    hide Sound, Foot, Feet, LogsOf, Shows, SnapsShow, ViewAll;
    var times, count, min, max;
    FootIn(n.times, ts);
    times, count, min, max := Copy(n.times, ts);
    var between: seq<TimeEntry> := [];
    var betweenCount, betweenMin, betweenMax := 0, 0, 0;
    if n.expected != 0 {
      FootIn(n.between, ts);
      between, betweenCount, betweenMin, betweenMax := Copy(n.between, ts);
    }
    FeetAllocated(ts);
    var children := AddAllToSnapshot(n.children, ts);
    FeetAllocated(ts);
    s := SnapEntry(n.name, times, count, min, max, n.expected, between, betweenCount, betweenMin, betweenMax, children);
  }

  method AddAllToSnapshot(ns: seq<Node>, ghost ts: set<TimesTable>) returns (ss: seq<SnapEntry>)
    requires Sound(ts) && TablesAll(ns) <= ts
    modifies Feet(ts)
    ensures Sound(ts)
    ensures forall o: object? :: o in Feet(ts) && o !in old(Feet(ts)) ==> fresh(o)
    ensures forall t :: t in ts ==> t.log == old(t.log)
    ensures SnapsShow(ss, ViewAll(LogsOf(ts), ns))
    decreases ns, 1
  {
    hide Sound, Foot, Feet, LogsOf, SnapShows, View;
    if ns == [] {
      return [];
    }
    var s := AddEntryToSnapshot(ns[0], ts);
    ghost var m := LogsOf(ts);
    var rest := AddAllToSnapshot(ns[1..], ts);
    FeetAllocated(ts);
    ViewSame(m, LogsOf(ts), ns[0]);
    ss := [s] + rest;
  }

  // -------- Main results --------

  /** The copy of the entry at a path of names tells that these durations were recorded there. */
  ghost predicate ShownAt(ss: seq<SnapEntry>, path: seq<Name>, log: multiset<nat>)
    decreases |path|
  {
    path != [] ==>
      if forall i :: 0 <= i < |ss| ==> ss[i].name != path[0] then log == multiset{}
      else
        exists i :: 0 <= i < |ss| && ss[i].name == path[0] && (forall k :: 0 <= k < i ==> ss[k].name != path[0])
                    && if |path| == 1 then Shows(ss[i].times, ss[i].count, ss[i].min, ss[i].max, log)
                       else ShownAt(ss[i].children, path[1..], log)
  }

  lemma {:induction false} SnapAt(ss: seq<SnapEntry>, es: seq<Entry>, i: nat)
    requires SnapsShow(ss, es) && i < |ss|
    ensures SnapShows(ss[i], es[i]) && ss[i].name == es[i].name
  {
    if i > 0 {
      SnapAt(ss[1..], es[1..], i - 1);
    }
  }

  /** A snapshot shows what the trees hold, under every path. */
  lemma {:induction false} SnapshotShows(ss: seq<SnapEntry>, es: seq<Entry>, path: seq<Name>)
    requires SnapsShow(ss, es)
    ensures ShownAt(ss, path, TimesAt(es, path))
    decreases |path|
  {
    hide SnapsShow, Shows;
    if path != [] {
      SameLength(ss, es);
      forall i | 0 <= i < |ss|
        ensures ss[i].name == es[i].name
      {
        SnapAt(ss, es, i);
      }
      var i := IndexOf(es, path[0]);
      if i < |es| {
        SnapAt(ss, es, i);
        assert ss[i].name == path[0];
        if |path| > 1 {
          SnapshotShows(ss[i].children, es[i].children, path[1..]);
        }
      }
    }
  }

  lemma SameLength(ss: seq<SnapEntry>, es: seq<Entry>)
    requires SnapsShow(ss, es)
    ensures |ss| == |es|
  {
  }

  lemma NothingOpen(s: State, name: Name)
    ensures s.context == [] ==> Settled(s, name) == s && !IsOpen(s.context, name)
  {
  }

  /** The profiler with one thread. */
  class Profiler {
    /** The open calls of the thread, outermost first. */
    var context: seq<Frame>
    var roots: seq<Node>
    /** When the last call of each root started. */
    var prevs: map<Name, uint64>
    var enabled: bool
    var threadEnabled: bool
    ghost var tables: set<TimesTable>

    ghost predicate Valid()
      reads this, tables, Feet(tables)
    {
      Sound(tables) && TablesAll(roots) <= tables && DistinctAll(roots)
    }

    ghost function Now(): State
      reads this, tables
      requires TablesAll(roots) <= tables
    {
      State(context, ViewAll(LogsOf(tables), roots), prevs, enabled, threadEnabled)
    }

    /** The profiler itself is none of the objects of its tables. */
    lemma Aside()
      ensures this !in Feet(tables)
      ensures forall o :: o in Feet(tables) ==> allocated(o)
    {
    }

    /** Nothing has been recorded, and the profiler does not run yet. */
    constructor ()
      ensures Valid() && tables == {} && fresh(Feet(tables)) && Now() == State([], [], map[], false, true)
    {
      context, roots, prevs, enabled, threadEnabled, tables := [], [], map[], false, true, {};
    }

    method ProfilerStart()
      requires Valid()
      modifies `enabled
      ensures Valid() && Now() == Next(old(Now()), Event.ProfilerStart)
    {
      hide Sound, Feet, TablesAll, DistinctAll, ViewAll, LogsOf;
      Aside();
      enabled := true;
    }

    method ProfilerStop()
      requires Valid()
      modifies `enabled
      ensures Valid() && Now() == Next(old(Now()), Event.ProfilerStop)
    {
      hide Sound, Feet, TablesAll, DistinctAll, ViewAll, LogsOf;
      Aside();
      enabled := false;
    }

    method ReenableThread()
      requires Valid()
      modifies `threadEnabled
      ensures Valid() && Now() == Next(old(Now()), Reenable)
    {
      hide Sound, Feet, TablesAll, DistinctAll, ViewAll, LogsOf;
      Aside();
      if threadEnabled {
        return;
      }
      threadEnabled := enabled;
    }

    /** A thread that finds the profiler stopped takes no part any more. */
    method LockRoot() returns (ok: bool)
      requires Valid()
      modifies `threadEnabled
      ensures Valid() && ok == enabled && threadEnabled == (old(threadEnabled) && ok)
      ensures LogsOf(tables) == old(LogsOf(tables)) && Feet(tables) == old(Feet(tables))
    {
      hide Sound, Feet, TablesAll, DistinctAll, ViewAll, LogsOf;
      Aside();
      if !enabled {
        threadEnabled := false;
        return false;
      }
      ok := true;
    }

    /** Announces how often a root call is expected, which turns on the recording of the times between. */
    method RegisterRoot(name: Name, expectedNs: uint64)
      requires Valid()
      modifies `threadEnabled, `roots, `tables
      ensures Valid() && Now() == Next(old(Now()), Register(name, expectedNs))
      ensures forall o: object? :: o in Feet(tables) && o !in old(Feet(tables)) ==> fresh(o)
      ensures forall t :: t in tables && t !in old(tables) ==> fresh(t)
    {
      hide Sound, Feet, TablesAll, DistinctAll, ViewAll, LogsOf, IndexOf;
      Aside();
      var ok := LockRoot();
      if !ok {
        return;
      }
      var all;
      ghost var more;
      all, more := Expect(roots, name, Rounded(expectedNs), tables);
      Install(all, more);
    }

    /** The trees are as they were left. */
    method Install(all: seq<Node>, ghost more: set<TimesTable>)
      requires Sound(more) && TablesAll(all) <= more && DistinctAll(all)
      modifies `roots, `tables
      ensures roots == all && tables == more && Valid()
      ensures LogsOf(tables) == old(LogsOf(more)) && Feet(tables) == old(Feet(more))
    {
      hide Sound, Feet, TablesAll, DistinctAll, LogsOf;
      NotAFoot(more);
      roots, tables := all, more;
    }

    lemma NotAFoot(ts: set<TimesTable>)
      ensures this !in Feet(ts) && forall o :: o in Feet(ts) ==> allocated(o)
    {
    }

    /** A finished root call is merged into the entry of its name, unless the profiler has been stopped. */
    method MergeContext(call: Call)
      requires Valid()
      modifies `threadEnabled, `roots, `prevs, `tables, Feet(tables)
      ensures Valid() && Now() == MergedRoot(old(Now()), call)
      ensures forall o: object? :: o in Feet(tables) && o !in old(Feet(tables)) ==> fresh(o)
      ensures forall t :: t in tables && t !in old(tables) ==> fresh(t)
    {
      hide Sound, Feet, TablesAll, DistinctAll, ViewAll, LogsOf, MergeInto;
      Aside();
      var ok := LockRoot();
      if ok {
        MergeRoot(call);
        Aside();
      }
    }

    method MergeRoot(call: Call)
      requires Valid() && enabled
      modifies `roots, `prevs, `tables, Feet(tables)
      ensures Valid() && Now() == MergedRoot(old(Now()), call)
      ensures forall o: object? :: o in Feet(tables) && o !in old(Feet(tables)) ==> fresh(o)
      ensures forall t :: t in tables && t !in old(tables) ==> fresh(t)
    {
      hide Sound, Feet, TablesAll, DistinctAll, ViewAll, LogsOf, MergeInto;
      Aside();
      var prev := if call.name in prevs then Some(prevs[call.name]) else None;
      var all;
      ghost var more;
      all, more := MergeOne(roots, call, prev, tables);
      Install(all, more);
      Remember(call);
    }

    method Remember(call: Call)
      requires Valid()
      modifies `prevs
      ensures Valid() && prevs == old(prevs)[call.name := call.start]
      ensures LogsOf(tables) == old(LogsOf(tables)) && Feet(tables) == old(Feet(tables))
    {
      hide Sound, Feet, TablesAll, DistinctAll, LogsOf;
      Aside();
      prevs := prevs[call.name := call.start];
    }

    method ProfileStart(name: Name, time: uint64)
      requires Valid()
      modifies `context
      ensures Valid() && Now() == Next(old(Now()), Start(name, time))
    {
      hide Sound, Feet, TablesAll, DistinctAll, ViewAll, LogsOf;
      Aside();
      if !threadEnabled {
        return;
      }
      context := context + [Frame(name, time, [])];
    }

    /** The matching case: the innermost call ends. */
    method CloseTop(time: uint64)
      requires Valid() && context != []
      modifies `context, `threadEnabled, `roots, `prevs, `tables, Feet(tables)
      ensures Valid() && Now() == Closed(old(Now()), time)
      ensures forall o: object? :: o in Feet(tables) && o !in old(Feet(tables)) ==> fresh(o)
      ensures forall t :: t in tables && t !in old(tables) ==> fresh(t)
    {
      hide Sound, Feet, TablesAll, DistinctAll, ViewAll, LogsOf, MergedRoot, Handed;
      Aside();
      var call := TopCall(context, time);
      if |context| == 1 {
        SetContext([]);
        MergeContext(call);
      } else {
        SetContext(Handed(context, time));
      }
      Aside();
    }

    method SetContext(frames: seq<Frame>)
      requires Valid()
      modifies `context
      ensures Valid() && context == frames
      ensures LogsOf(tables) == old(LogsOf(tables)) && Feet(tables) == old(Feet(tables))
    {
      hide Sound, Feet, TablesAll, DistinctAll, LogsOf;
      Aside();
      context := frames;
    }

    /** The clock is read at the start; `late` are its readings in the ends of the calls inside. */
    method ProfileEnd(name: Name, time: uint64, late: seq<uint64>)
      requires Valid()
      modifies `context, `threadEnabled, `roots, `prevs, `tables, Feet(tables)
      ensures Valid() && Now() == Next(old(Now()), End(name, time, late))
      ensures forall o: object? :: o in Feet(tables) && o !in old(Feet(tables)) ==> fresh(o)
      ensures forall t :: t in tables && t !in old(tables) ==> fresh(t)
    {
      hide Sound, Feet, TablesAll, DistinctAll, ViewAll, LogsOf, EndInner, Closed, Settled;
      Aside();
      if !threadEnabled || context == [] {
        NothingOpen(Now(), name);
        return;
      }
      Settle(name);
      var open := FindOpen(name);
      if open {
        EndInside(name, time, late);
        CloseTop(time);
      }
      Aside();
    }

    /** A call without a name takes the one it is ended with. */
    method Settle(name: Name)
      requires Valid() && context != []
      modifies `context
      ensures Valid() && Now() == Settled(old(Now()), name) && context != []
      ensures LogsOf(tables) == old(LogsOf(tables)) && Feet(tables) == old(Feet(tables))
    {
      hide Sound, Feet, TablesAll, DistinctAll, ViewAll, LogsOf;
      Aside();
      var n := |context|;
      if context[n - 1].name == NO_NAME {
        context := context[..n - 1] + [context[n - 1].(name := name)];
      }
    }

    /** Whether the innermost call or one around it has that name. */
    method FindOpen(name: Name) returns (open: bool)
      requires context != []
      ensures open <==> IsOpen(context, name)
    {
      if context[|context| - 1].name == name {
        return true;
      }
      var parent: int := |context| - 2;
      while parent > 0 && context[parent].name != name
        invariant -1 <= parent <= |context| - 2
        invariant forall i :: parent < i < |context| ==> context[i].name != name
      {
        parent := parent - 1;
      }
      open := parent >= 0 && context[parent].name == name;
    }

    /** Ends the calls inside the innermost one of that name. */
    method EndInside(name: Name, time: uint64, late: seq<uint64>)
      requires Valid() && IsOpen(context, name)
      modifies `context
      ensures Valid() && Now() == EndInner(old(Now()), name, time, late) && context != []
      ensures LogsOf(tables) == old(LogsOf(tables)) && Feet(tables) == old(Feet(tables))
    {
      hide Sound, Feet, TablesAll, DistinctAll, ViewAll, LogsOf, Handed, Closed;
      Aside();
      ghost var rest := late;
      var k := 0;
      while context[|context| - 1].name != name
        invariant Valid() && IsOpen(context, name)
        invariant LogsOf(tables) == old(LogsOf(tables)) && Feet(tables) == old(Feet(tables))
        invariant k <= |late| && rest == late[k..]
        invariant EndInner(Now(), name, time, rest) == EndInner(old(Now()), name, time, late)
        decreases |context|
      {
        var at := if k == |late| then time else late[k];
        StillOpen(Now(), name, at);
        SetContext(Handed(context, at));
        if k < |late| {
          k := k + 1;
        }
        rest := late[k..];
      }
    }

    /** A copy of everything that has been recorded. */
    method SnapshotCreate() returns (ss: seq<SnapEntry>)
      requires Valid()
      modifies Feet(tables)
      ensures Valid() && Now() == old(Now()) && SnapsShow(ss, Now().roots)
      ensures forall o: object? :: o in Feet(tables) && o !in old(Feet(tables)) ==> fresh(o)
    {
      hide Sound, Feet, TablesAll, DistinctAll, SnapsShow;
      Aside();
      ghost var m := LogsOf(tables);
      ss := AddAllToSnapshot(roots, tables);
      assert LogsOf(tables) == m;
    }

    method Handle(event: Event)
      requires Valid()
      modifies this, Feet(tables)
      ensures Valid() && Now() == Next(old(Now()), event)
      ensures forall o: object? :: o in Feet(tables) && o !in old(Feet(tables)) ==> fresh(o)
      ensures forall t :: t in tables && t !in old(tables) ==> fresh(t)
    {
      hide Sound, Feet, TablesAll, DistinctAll, ViewAll, LogsOf, Next;
      Aside();
      match event {
        case Start(name, time) => ProfileStart(name, time);
        case End(name, time, late) => ProfileEnd(name, time, late);
        case ProfilerStart => ProfilerStart();
        case ProfilerStop => ProfilerStop();
        case Reenable => ReenableThread();
        case Register(name, expectedNs) => RegisterRoot(name, expectedNs);
      }
      Aside();
    }
  }

  /** Any sequence of events does to the profiler what it does to the state. */
  method RunEvents(events: seq<Event>) returns (p: Profiler)
    ensures p.Valid() && p.Now() == Run(State([], [], map[], false, true), events)
    ensures fresh(p) && fresh(Feet(p.tables))
  {
    hide Sound, Feet, TablesAll, DistinctAll, ViewAll, LogsOf, Next;
    p := new Profiler();
    ghost var all := Run(p.Now(), events);
    assert events[0..] == events;
    for i := 0 to |events|
      invariant p.Valid() && fresh(p) && fresh(Feet(p.tables))
      invariant Run(p.Now(), events[i..]) == all
    {
      assert events[i..][0] == events[i] && events[i..][1..] == events[i + 1..];
      p.Aside();
      p.Handle(events[i]);
      p.Aside();
    }
    assert events[|events|..] == [];
  }

  /**
    Main result: after a well-nested trace the snapshot tells, under every path of names, exactly the durations
    of the calls on that path: how often each occurred, how many there were, the shortest and the longest.
   */
  method Profile(calls: seq<Call>) returns (ss: seq<SnapEntry>)
    ensures forall path :: path != [] ==> ShownAt(ss, path, Durations(calls, path))
  {
    hide Sound, Feet, TablesAll, DistinctAll, ViewAll, LogsOf, ShownAt, Durations, SnapsShow, TimesAt;
    ghost var start := State([], [], map[], false, true);
    var p := RunEvents([Event.ProfilerStart] + Traces(calls));
    ghost var on := start.(enabled := true);
    assert Run(start, [Event.ProfilerStart] + Traces(calls)) == Run(on, Traces(calls)) by {
      RunBoth(start, [Event.ProfilerStart], Traces(calls));
      RunOne(start, Event.ProfilerStart);
    }
    ss := p.SnapshotCreate();
    assert p.Now() == Run(on, Traces(calls)) && on.roots == [];
    forall path: seq<Name> | path != []
      ensures ShownAt(ss, path, Durations(calls, path))
    {
      EveryCallIsRecorded(on, calls, path);
      NothingThere(path);
      assert TimesAt(p.Now().roots, path) == Durations(calls, path);
      SnapshotShows(ss, p.Now().roots, path);
    }
  }

  lemma NothingThere(path: seq<Name>)
    ensures TimesAt([], path) == multiset{}
  {
  }

  /** The calls before the profiler is stopped and after it is started again are recorded, those in between are not. */
  method ProfileWithPause(before: seq<Call>, during: seq<Call>, after: seq<Call>) returns (ss: seq<SnapEntry>)
    ensures forall path :: path != [] ==> ShownAt(ss, path, Durations(before, path) + Durations(after, path))
  {
    hide Sound, Feet, TablesAll, DistinctAll, ViewAll, LogsOf, ShownAt, Durations, SnapsShow, TimesAt, Next;
    var first: seq<Event> := [Event.ProfilerStart];
    var rest := Traces(before) + [Event.ProfilerStop] + Traces(during) + [Event.ProfilerStart, Reenable] + Traces(after);
    var p := RunEvents(first + rest);
    RunBoth(NOTHING, first, rest);
    RunOne(NOTHING, Event.ProfilerStart);
    ProfilerStarts();
    ss := p.SnapshotCreate();
    forall path: seq<Name> | path != []
      ensures ShownAt(ss, path, Durations(before, path) + Durations(after, path))
    {
      RecordedWhileRunning(NOTHING.(enabled := true), before, during, after, path);
      NothingThere(path);
      assert multiset{} + Durations(before, path) == Durations(before, path);
      SnapshotShows(ss, p.Now().roots, path);
    }
  }

  // -------- From the calls of the program to the numbers in the snapshot --------

  /** One duration, recorded once. */
  predicate JustOne(times: seq<TimeEntry>, count: uint64, min: uint64, max: uint64) {
    times == [TimeEntry(min, 1)] && count == 1 && min == max
  }

  /** The number of microseconds from one time to the next, rounded to the nearest. */
  predicate Rounds(from: uint64, to: uint64, usec: nat) {
    from <= to && to as int - from as int + 500 < 0x1_0000_0000_0000_0000 ==>
      1000 * usec <= to as int - from as int + 500 < 1000 * (usec + 1)
  }

  /** A root call, started under its name or without one. */
  method OneCall(started: Name, name: Name, t0: uint64, t1: uint64) returns (e: SnapEntry)
    requires started == name || started == NO_NAME
    ensures e.name == name && e.children == []
    ensures JustOne(e.times, e.count, e.min, e.max) && Rounds(t0, t1, e.min)
  {
    hide Sound, Feet, TablesAll, DistinctAll, ViewAll, LogsOf, Shows, Next, MergeInto, Usec;
    var p := new Profiler();
    p.ProfilerStart();
    p.ProfileStart(started, t0);
    p.ProfileEnd(name, t1, []);
    var ss := p.SnapshotCreate();
    ProfilerStarts();
    RootCall(NOTHING.(enabled := true), started, name, t0, t1);
    MergedLeafFirst(Call(name, t0, t1, []));
    e := ss[0];
    LeafShown(e, Call(name, t0, t1, []));
  }

  const NOTHING := State([], [], map[], false, true)

  lemma ProfilerStarts()
    ensures Next(NOTHING, Event.ProfilerStart) == NOTHING.(enabled := true)
  {
  }

  lemma LeafShown(s: SnapEntry, call: Call)
    requires SnapShows(s, LeafEntry(call))
    ensures s.name == call.name && s.children == []
    ensures JustOne(s.times, s.count, s.min, s.max) && Rounds(call.start, call.end, s.min)
  {
    OneShown(s.times, s.count, s.min, s.max, call.start, call.end);
  }

  lemma OneShown(b: seq<TimeEntry>, calls: uint64, min: uint64, max: uint64, from: uint64, to: uint64)
    requires Shows(b, calls, min, max, multiset{Usec(from, to) as nat})
    ensures JustOne(b, calls, min, max) && Rounds(from, to, min)
  {
    hide Usec, Shows;
    ShowsOne(b, calls, min, max, Usec(from, to));
    if from <= to && to as int - from as int + 500 < 0x1_0000_0000_0000_0000 {
      UsecRounds(from, to);
    }
  }

  /** A call that is left open is ended with the one around it, and an end nobody waits for changes nothing. */
  method CallLeftOpen(outer: Name, inner: Name, stray: Name, t0: uint64, t1: uint64, t2: uint64, t3: uint64)
    returns (e: SnapEntry)
    requires outer != inner && inner != NO_NAME && stray != outer && stray != inner
    ensures e.name == outer && JustOne(e.times, e.count, e.min, e.max) && Rounds(t0, t3, e.min)
    ensures |e.children| == 1 && e.children[0].name == inner && e.children[0].children == []
    ensures var c := e.children[0]; JustOne(c.times, c.count, c.min, c.max) && Rounds(t1, t2, c.min)
  {
    hide Sound, Feet, TablesAll, DistinctAll, ViewAll, LogsOf, Shows, Next, MergeInto, Usec;
    var p := new Profiler();
    p.ProfilerStart();
    p.ProfileStart(outer, t0);
    p.ProfileStart(inner, t1);
    p.ProfileEnd(stray, t2, []);
    p.ProfileEnd(outer, t3, [t2]);
    var ss := p.SnapshotCreate();
    ProfilerStarts();
    LeftOpen(NOTHING.(enabled := true), outer, inner, stray, t0, t1, t2, t3);
    MergedWithInner(Call(outer, t0, t3, [Call(inner, t1, t2, [])]), Call(inner, t1, t2, []));
    e := ss[0];
    OneShown(e.times, e.count, e.min, e.max, t0, t3);
    SameLength(e.children, [LeafEntry(Call(inner, t1, t2, []))]);
    LeafShown(e.children[0], Call(inner, t1, t2, []));
  }

  /** Two calls of a root whose rhythm was announced. */
  method TwoCalls(name: Name, expectedNs: uint64, t0: uint64, t1: uint64, t2: uint64, t3: uint64) returns (e: SnapEntry)
    ensures e.name == name && e.count == 2
    ensures expectedNs + 500 < 0x1_0000_0000_0000_0000 ==> 1000 * e.expected <= expectedNs + 500 < 1000 * (e.expected + 1)
    ensures e.expected != 0 ==>
              && JustOne(e.between, e.betweenCount, e.betweenMin, e.betweenMax)
              && Rounds(t0, t2, e.betweenMin)
  {
    hide Sound, Feet, TablesAll, DistinctAll, ViewAll, LogsOf, Shows, Next, Usec, Rounded;
    var p := RecordTwo(name, expectedNs, t0, t1, t2, t3);
    ProfilerStarts();
    TwoRootCalls(NOTHING.(enabled := true), name, expectedNs, t0, t1, t2, t3);
    var ss := p.SnapshotCreate();
    e := ss[0];
    if expectedNs + 500 < 0x1_0000_0000_0000_0000 {
      RhythmRounds(expectedNs);
    }
    if e.expected != 0 {
      OneShown(e.between, e.betweenCount, e.betweenMin, e.betweenMax, t0, t2);
    }
    ShownCount(e.times, e.count, e.min, e.max, multiset{Usec(t0, t1) as nat, Usec(t2, t3) as nat});
  }

  method RecordTwo(name: Name, expectedNs: uint64, t0: uint64, t1: uint64, t2: uint64, t3: uint64) returns (p: Profiler)
    ensures p.Valid() && fresh(p) && fresh(Feet(p.tables))
    ensures p.Now() == Next(Next(Next(Next(Next(Next(NOTHING, Event.ProfilerStart), Register(name, expectedNs)),
                                            Start(name, t0)), End(name, t1, [])), Start(name, t2)), End(name, t3, []))
  {
    hide Sound, Feet, TablesAll, DistinctAll, ViewAll, LogsOf, Next;
    p := new Profiler();
    p.ProfilerStart();
    p.RegisterRoot(name, expectedNs);
    CallRoot(p, name, t0, t1);
    CallRoot(p, name, t2, t3);
  }

  method CallRoot(p: Profiler, name: Name, t0: uint64, t1: uint64)
    requires p.Valid()
    modifies p, Feet(p.tables)
    ensures p.Valid() && p.Now() == Next(Next(old(p.Now()), Start(name, t0)), End(name, t1, []))
    ensures forall o: object? :: o in Feet(p.tables) && o !in old(Feet(p.tables)) ==> fresh(o)
  {
    hide Sound, Feet, TablesAll, DistinctAll, ViewAll, LogsOf, Next;
    p.Aside();
    p.ProfileStart(name, t0);
    p.Aside();
    p.ProfileEnd(name, t1, []);
  }

  lemma ShownCount(b: seq<TimeEntry>, calls: uint64, min: uint64, max: uint64, log: multiset<nat>)
    requires Shows(b, calls, min, max, log)
    ensures |log| == 2 ==> calls == 2
  {
  }
}

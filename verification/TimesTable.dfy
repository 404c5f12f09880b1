/**
  The profiler's growable table from time deltas to call counts.  Growing does not move the old
  slots at once: the old array stays behind and later operations migrate it eight slots at a time,
  so that up to two arrays are live together.
 */
module TimesTables {

  import opened Common
  import opened RobinHood

  /** The C test `occupied / (double)size > 0.7`, with the exact value of the double nearest to 0.7. */
  predicate Overloaded(occupied: nat, size: nat) {
    0x10_0000_0000_0000 * occupied > 3152519739159347 * size
  }

  lemma FullIsOverloaded(occupied: nat, size: nat)
    requires size > 0 && !Overloaded(occupied, size)
    ensures occupied < size
  {
  }

  ghost function Pow2(k: nat): (p: nat)
    ensures p >= 1
  {
    if k == 0 then 1 else 2 * Pow2(k - 1)
  }

  /** The sizes a table can have: 1 before the first growth, 16 doubled `k` times after it. */
  ghost predicate TableSize(n: nat) {
    n == 1 || exists k: nat :: n == 16 * Pow2(k)
  }

  lemma {:induction false} Pow2IsNoMultipleOfFive(k: nat)
    ensures Pow2(k) % 5 != 0
  {
    if k > 0 {
      Pow2IsNoMultipleOfFive(k - 1);
    }
  }

  lemma NeverSevenTenths(occupied: nat, size: nat)
    requires TableSize(size)
    ensures 10 * occupied != 7 * size
  {
    if size != 1 {
      var k: nat :| size == 16 * Pow2(k);
      Pow2IsNoMultipleOfFive(k);
      assert 10 * occupied == 7 * size ==> Pow2(k) == 5 * (6 * occupied - 4 * size - 3 * Pow2(k));
    }
  }

  lemma NearSevenTenths(occupied: nat, size: nat)
    requires 10 * occupied != 7 * size && size < 0x4_0000_0000_0000
    ensures Overloaded(occupied, size) <==> 10 * occupied > 7 * size
  {
    var d := 10 * occupied - 7 * size;
    assert Overloaded(occupied, size) <==> 0x10_0000_0000_0000 * d > -2 * size;
  }

  /** For the sizes a table can have, the comparison of doubles is exactly that of seven tenths. */
  lemma OverloadedIsSevenTenths(occupied: nat, size: nat)
    requires TableSize(size) && size < 0x4_0000_0000_0000
    ensures Overloaded(occupied, size) <==> 10 * occupied > 7 * size
  {
    hide TableSize, Overloaded;
    NeverSevenTenths(occupied, size);
    NearSevenTenths(occupied, size);
  }

  lemma NextSize(n: nat)
    requires TableSize(n)
    ensures n == 1 || n % 16 == 0
    ensures TableSize(if n * 2 < 16 then 16 else n * 2)
  {
    if n == 1 {
      assert 16 == 16 * Pow2(0);
    } else {
      var k: nat :| n == 16 * Pow2(k);
      assert Pow2(k + 1) == 2 * Pow2(k);
    }
  }

  /** `count` more occurrences of `key`, as a function on keys. */
  ghost function Extra(key: nat, count: nat, k: nat): nat {
    if k == key then count else 0
  }

  /** How many positions after `i` the position `j` comes, going round. */
  ghost function Gap(i: nat, j: nat, n: nat): nat
    requires i < n && j < n
  {
    if i <= j then j - i else j + n - i
  }

  /**
    The state of an insertion of `(key0, count0)` into `t0` that has reached table `t` and carries
    `(key, count)` to its `p`-th probe: either nothing was displaced yet and the key was not met, or
    the key carried is no longer in the table.  Nothing is lost on the way.
   */
  ghost predicate Carrying(t0: seq<Slot>, key0: uint64, count0: uint64, t: seq<Slot>, key: uint64, count: uint64, p: nat) {
    && Ordered(t) && |t| == |t0| && Occupied(t) == Occupied(t0)
    && p >= 1 && PathOk(t, key, p)
    && (|| (t == t0 && key == key0 && count == count0 && NotSeen(t, key, p))
        || (!Has(t, key) && !Has(t0, key0) && Occupied(t) < |t|))
    && forall k :: Tally(t, k) + Extra(key, count, k) == Tally(t0, k) + Extra(key0, count0, k)
  }

  /** Every key in the slots is one of those that were recorded. */
  ghost predicate Known(s: seq<Slot>, log: multiset<nat>) {
    forall i :: 0 <= i < |s| && s[i].probes > 0 ==> s[i].delta in log
  }

  lemma KnownUpdate(s: seq<Slot>, log: multiset<nat>, i: nat, x: Slot)
    requires i < |s| && Known(s, log) && x.delta in log
    ensures Known(s[i := x], log)
  {
  }

  lemma KnownAt(s: seq<Slot>, log: multiset<nat>, i: nat)
    requires i < |s| && Known(s, log)
    ensures s[i].probes > 0 ==> s[i].delta in log
  {
  }

  lemma KnownStays(s: seq<Slot>, log: multiset<nat>, more: multiset<nat>)
    requires Known(s, log)
    ensures Known(s, log + more)
  {
  }

  lemma NothingOrdered(s: seq<Slot>, log: multiset<nat>)
    requires s != [] && forall i :: 0 <= i < |s| ==> s[i].probes == 0
    ensures Ordered(s) && Occupied(s) == 0 && Known(s, log) && forall k :: Tally(s, k) == 0
  {
    OccupiedEmpty(s);
  }

  lemma CarryStart(t0: seq<Slot>, key0: uint64, count0: uint64)
    requires Ordered(t0)
    ensures Carrying(t0, key0, count0, t0, key0, count0, 1)
  {
  }

  lemma CarryBalance(t0: seq<Slot>, key0: uint64, count0: uint64, t: seq<Slot>, key: uint64, count: uint64, p: nat, k: nat)
    requires Carrying(t0, key0, count0, t, key, count, p)
    ensures Tally(t, k) + Extra(key, count, k) == Tally(t0, k) + Extra(key0, count0, k)
  {
  }

  /** Passing a slot that is at least as far from its home. */
  lemma CarryPast(t0: seq<Slot>, key0: uint64, count0: uint64, t: seq<Slot>, key: uint64, count: uint64, p: nat)
    requires Carrying(t0, key0, count0, t, key, count, p)
    requires t[Cell(|t|, key, p)].probes >= p && t[Cell(|t|, key, p)].delta != key
    ensures Ordered(t) && Carrying(t0, key0, count0, t, key, count, p + 1)
  {
    PathStep(t, key, p);
  }

  /** At a slot that is nearer to its home the carried key is known to be absent, and the slot can take it. */
  lemma CarryStop(t0: seq<Slot>, key0: uint64, count0: uint64, t: seq<Slot>, key: uint64, count: uint64, p: nat)
    requires Carrying(t0, key0, count0, t, key, count, p)
    requires var e := t[Cell(|t|, key, p)]; e.probes < p && (e.probes > 0 ==> e.delta != key)
    ensures Ordered(t) && Occupied(t) == Occupied(t0) && !Has(t, key) && !Has(t0, key0)
    ensures Occupied(t) < |t| ==> p <= |t| && Ordered(t[Cell(|t|, key, p) := Slot(p, key, count)])
  {
    if t == t0 && key == key0 && count == count0 && NotSeen(t, key, p) {
      SearchComplete(t, key, p);
    }
    if p > |t| {
      PathFull(t, key, p);
    }
    if Occupied(t) < |t| {
      StoreKeepsOrder(t, key, p, count);
    }
  }

  /** Displacing the resident of a slot and carrying it on instead. */
  lemma CarrySwap(t0: seq<Slot>, key0: uint64, count0: uint64, t: seq<Slot>, key: uint64, count: uint64, p: nat)
    requires Carrying(t0, key0, count0, t, key, count, p)
    requires var e := t[Cell(|t|, key, p)]; 0 < e.probes < p && e.delta != key
    requires Occupied(t) < |t|
    ensures var i := Cell(|t|, key, p);
            var t' := t[i := Slot(p, key, count)];
            && Ordered(t') && Occupied(t') == Occupied(t)
            && Carrying(t0, key0, count0, t', t[i].delta, t[i].count, t[i].probes + 1)
    ensures var i := Cell(|t|, key, p);
            Cell(|t|, t[i].delta, t[i].probes + 1) == Cell(|t|, key, p + 1)
  {
    var i := Cell(|t|, key, p);
    var x := Slot(p, key, count);
    CarryStop(t0, key0, count0, t, key, count, p);
    EvictedPath(t, i, x);
    OccupiedUpdate(t, i, x);
    assert Placed(t, i);
    CellStep(|t|, t[i].delta, t[i].probes);
    CellStep(|t|, key, p);
    forall k
      ensures Tally(t[i := x], k) + Extra(t[i].delta, t[i].count, k) == Tally(t0, k) + Extra(key0, count0, k)
    {
      TallyUpdate(t, i, x, k);
    }
  }

  /** The insertion ends in an empty slot. */
  lemma CarryStore(t0: seq<Slot>, key0: uint64, count0: uint64, t: seq<Slot>, key: uint64, count: uint64, p: nat)
    requires Carrying(t0, key0, count0, t, key, count, p)
    requires t[Cell(|t|, key, p)].probes == 0
    ensures Occupied(t) == Occupied(t0) < |t| && p <= |t| && !Has(t0, key0)
    ensures var t' := t[Cell(|t|, key, p) := Slot(p, key, count)];
            && Ordered(t') && Occupied(t') == Occupied(t0) + 1
            && forall k :: Tally(t', k) == Tally(t0, k) + Extra(key0, count0, k)
  {
    var i := Cell(|t|, key, p);
    var x := Slot(p, key, count);
    OccupiedFull(t);
    CarryStop(t0, key0, count0, t, key, count, p);
    OccupiedUpdate(t, i, x);
    forall k
      ensures Tally(t[i := x], k) == Tally(t0, k) + Extra(key0, count0, k)
    {
      TallyUpdate(t, i, x, k);
    }
  }

  /** The insertion ends at a slot that already holds the carried key. */
  lemma CarryMerge(t0: seq<Slot>, key0: uint64, count0: uint64, t: seq<Slot>, key: uint64, count: uint64, p: nat)
    requires Carrying(t0, key0, count0, t, key, count, p)
    requires var e := t[Cell(|t|, key, p)]; e.probes > 0 && e.delta == key
    ensures t == t0
    ensures var i := Cell(|t|, key, p);
            var t' := t[i := t[i].(count := Wrap64(t[i].count + count))];
            && Ordered(t') && Occupied(t') == Occupied(t0)
            && forall k :: Wrap64(Tally(t', k)) == Wrap64(Tally(t0, k) + Extra(key0, count0, k))
  {
    hide Ordered, Tally, Wrap64, PathOk, NotSeen;
    var i := Cell(|t|, key, p);
    var c := Wrap64(t[i].count + count);
    var x := t[i].(count := c);
    assert Has(t, key);
    RecountKeepsOrder(t, i, c);
    OccupiedUpdate(t, i, x);
    forall k
      ensures Wrap64(Tally(t[i := x], k)) == Wrap64(Tally(t0, k) + Extra(key0, count0, k))
    {
      TallyUpdate(t, i, x, k);
      if k == key {
        TallyShare(t, i, key);
        WrapReplace(Tally(t, k), t[i].count, count);
      }
    }
  }

  /**
    Why probing stops: in a full table nothing is displaced and the probe number counts the steps;
    otherwise every step comes one position closer to an empty slot.
   */
  ghost predicate WithinBudget(t0: seq<Slot>, key0: uint64, t: seq<Slot>, key: uint64, p: nat, hole: nat, steps: nat) {
    && 0 < |t| == |t0|
    && steps <= |t| + 1
    && (Occupied(t) == |t| ==> p == steps && key == key0 && t == t0)
    && (Occupied(t) < |t| ==> hole < |t| && t[hole].probes == 0 && steps + Gap(Cell(|t|, key, p), hole, |t|) <= |t|)
  }

  lemma BudgetStart(t0: seq<Slot>, key0: uint64) returns (hole: nat)
    requires |t0| > 0
    ensures WithinBudget(t0, key0, t0, key0, 1, hole, 1)
  {
    OccupiedFull(t0);
    hole := 0;
    if Occupied(t0) < |t0| {
      hole :| 0 <= hole < |t0| && t0[hole].probes == 0;
    }
  }

  lemma BudgetStep(t0: seq<Slot>, key0: uint64, t: seq<Slot>, key: uint64, p: nat, hole: nat, steps: nat)
    requires WithinBudget(t0, key0, t, key, p, hole, steps)
    requires Ordered(t) && t[Cell(|t|, key, p)].probes >= p >= 1
    ensures WithinBudget(t0, key0, t, key, p + 1, hole, steps + 1)
  {
    CellStep(|t|, key, p);
    assert Placed(t, Cell(|t|, key, p));
  }

  lemma BudgetSwap(t0: seq<Slot>, key0: uint64, t: seq<Slot>, key: uint64, count: uint64, p: nat, hole: nat, steps: nat)
    requires WithinBudget(t0, key0, t, key, p, hole, steps)
    requires Ordered(t) && Occupied(t) < |t| && 0 < t[Cell(|t|, key, p)].probes < p
    ensures var i := Cell(|t|, key, p);
            WithinBudget(t0, key0, t[i := Slot(p, key, count)], t[i].delta, t[i].probes + 1, hole, steps + 1)
  {
    var i := Cell(|t|, key, p);
    OccupiedUpdate(t, i, Slot(p, key, count));
    assert Placed(t, i);
    CellStep(|t|, key, p);
    CellStep(|t|, t[i].delta, t[i].probes);
  }

  datatype TimeEntry = TimeEntry(delta: uint64, count: uint64)

  /** What a list of entries counts for `key`. */
  ghost function CountIn(b: seq<TimeEntry>, key: nat): nat {
    if b == [] then 0
    else CountIn(b[..|b| - 1], key) + if b[|b| - 1].delta == key then b[|b| - 1].count else 0
  }

  ghost function SumIn(b: seq<TimeEntry>): nat {
    if b == [] then 0 else SumIn(b[..|b| - 1]) + b[|b| - 1].count
  }

  /** `min` and `max` are the extreme keys of `b`, or the initial values when there are none. */
  ghost predicate Extremes(b: seq<TimeEntry>, min: uint64, max: uint64) {
    && (forall i :: 0 <= i < |b| ==> min <= b[i].delta <= max)
    && (b == [] ==> min == 0xFFFF_FFFF_FFFF_FFFF && max == 0)
    && (b != [] ==> (exists i :: 0 <= i < |b| && b[i].delta == min) && (exists i :: 0 <= i < |b| && b[i].delta == max))
  }

  /** The snapshot loop after `i` slots; `from` remembers where each copied entry came from. */
  ghost predicate Copied(s: seq<Slot>, i: nat, b: seq<TimeEntry>, from: seq<nat>, calls: uint64) {
    && i <= |s| && |from| == |b|
    && (forall k :: CountIn(b, k) == Tally(s[..i], k))
    && (forall j :: 0 <= j < |b| ==> from[j] < i && s[from[j]].probes > 0 && s[from[j]].delta == b[j].delta)
    && (forall j, l :: 0 <= j < l < |b| ==> from[j] < from[l])
    && calls == Wrap64(SumIn(b))
  }

  lemma ExtremesStep(b: seq<TimeEntry>, min: uint64, max: uint64, e: TimeEntry)
    requires Extremes(b, min, max)
    ensures Extremes(b + [e], if min < e.delta then min else e.delta, if max > e.delta then max else e.delta)
  {
    assert (b + [e])[|b|] == e;
    assert forall i :: 0 <= i < |b| ==> (b + [e])[i] == b[i];
  }

  lemma CopiedStart(s: seq<Slot>)
    ensures Copied(s, 0, [], [], 0) && Extremes([], 0xFFFF_FFFF_FFFF_FFFF, 0)
  {
  }

  lemma CopiedSkip(s: seq<Slot>, i: nat, b: seq<TimeEntry>, from: seq<nat>, calls: uint64)
    requires i < |s| && Copied(s, i, b, from, calls) && s[i].probes == 0
    ensures Copied(s, i + 1, b, from, calls)
  {
    forall k {
      TallySnoc(s, i, k);
    }
  }

  lemma CopiedStep(s: seq<Slot>, i: nat, b: seq<TimeEntry>, from: seq<nat>, calls: uint64)
    requires i < |s| && Copied(s, i, b, from, calls) && s[i].probes > 0
    ensures Copied(s, i + 1, b + [TimeEntry(s[i].delta, s[i].count)], from + [i], Wrap64(calls + s[i].count))
  {
    hide CountIn, SumIn, Wrap64, Tally;
    var e := TimeEntry(s[i].delta, s[i].count);
    forall k
      ensures CountIn(b + [e], k) == Tally(s[..i + 1], k)
    {
      CountSnoc(b, e, k);
      TallySnoc(s, i, k);
    }
    SumSnoc(b, e, calls);
  }

  lemma CountSnoc(b: seq<TimeEntry>, e: TimeEntry, k: nat)
    ensures CountIn(b + [e], k) == CountIn(b, k) + if e.delta == k then e.count else 0
  {
    assert (b + [e])[..|b|] == b;
  }

  lemma SumSnoc(b: seq<TimeEntry>, e: TimeEntry, calls: uint64)
    requires calls == Wrap64(SumIn(b))
    ensures Wrap64(SumIn(b + [e])) == Wrap64(calls + e.count)
  {
    assert (b + [e])[..|b|] == b;
    WrapReplace(SumIn(b), SumIn(b), e.count);
  }

  lemma CopiedAll(s: seq<Slot>, b: seq<TimeEntry>, from: seq<nat>, calls: uint64, min: uint64, max: uint64, log: multiset<nat>)
    requires Ordered(s) && Copied(s, |s|, b, from, calls) && Extremes(b, min, max) && Known(s, log)
    requires forall k :: Wrap64(Tally(s, k)) == Wrap64(log[k])
    ensures Shows(b, calls, min, max, log)
  {
    hide Wrap64, Tally, Extremes;
    assert s[..|s|] == s;
    SumAgrees(b, log);
  }

  ghost predicate NoneTwice(b: seq<TimeEntry>) {
    forall i, j :: 0 <= i < j < |b| ==> b[i].delta != b[j].delta
  }

  /** What a snapshot of a table tells about the durations that were recorded. */
  ghost predicate Shows(b: seq<TimeEntry>, calls: uint64, min: uint64, max: uint64, log: multiset<nat>) {
    && NoneTwice(b)
    && (forall k :: Wrap64(CountIn(b, k)) == Wrap64(log[k]))
    && (forall j :: 0 <= j < |b| ==> b[j].delta in log)
    && calls == Wrap64(|log|)
    && Extremes(b, min, max)
  }

  lemma OneMoreRecorded(log: multiset<nat>, usec: nat, k: nat)
    ensures (log + multiset{usec})[k] == log[k] + Extra(usec, 1, k)
  {
  }

  class TimesTable {
    var size: nat
    var occupied: nat
    var maxProbeCount: nat
    var entries: array<Slot>
    var oldStartIndex: nat
    var oldOccupied: nat
    var oldEntries: array?<Slot>

    /** The slot arrays that were allocated for this table and not yet freed. */
    ghost var blocks: set<array<Slot>>

    /** The durations that were recorded. */
    ghost var log: multiset<nat>

    ghost predicate Valid()
      reads this, entries, oldEntries
    {
      && 0 < size == entries.Length && TableSize(size)
      && Ordered(entries[..])
      && occupied == Occupied(entries[..])
      && (forall i :: 0 <= i < size ==> entries[i].probes <= maxProbeCount)
      && (oldEntries == null ==> oldOccupied == 0 && blocks == {entries})
      && (oldEntries != null ==>
            && oldEntries != entries && blocks == {entries, oldEntries}
            && oldStartIndex <= oldEntries.Length
            && oldOccupied == Occupied(oldEntries[oldStartIndex..]))
      && Known(entries[..], log) && (oldEntries != null ==> Known(oldEntries[..], log))
    }

    /** The counts are those of what was recorded, as far as 64 bits go. */
    ghost predicate Exact()
      reads this, entries, oldEntries
      requires oldEntries != null ==> oldStartIndex <= oldEntries.Length
    {
      forall k :: Wrap64(Total(k)) == Wrap64(log[k])
    }

    /** The old slots that were already migrated and held something. */
    ghost function Migrated(): int
      reads this, oldEntries
      requires oldEntries != null
    {
      Occupied(oldEntries[..]) - oldOccupied
    }

    /**
      The pace of an incremental rehash: beyond one entry per eight scanned old slots (and the one
      whose arrival caused the growth), the new array holds only what was migrated into it.
      `slack` is the part of the scan already paid for by the operation under way.
     */
    ghost predicate Pace(start: nat)
      reads this, entries, oldEntries
    {
      oldOccupied > 0 ==>
        && oldEntries != null
        && size == (if oldEntries.Length * 2 < 16 then 16 else oldEntries.Length * 2)
        && (oldEntries.Length == 1 || oldEntries.Length % 16 == 0)
        && 8 * occupied <= 8 + start + 8 * Migrated()
    }

    ghost predicate Paced()
      reads this, entries, oldEntries
    {
      Pace(oldStartIndex) && (oldOccupied > 0 ==> oldStartIndex % 8 == 0)
    }

    /** The total count recorded for `key`, over both arrays. */
    ghost function Total(key: nat): nat
      reads this, entries, oldEntries
      requires oldEntries != null ==> oldStartIndex <= oldEntries.Length
    {
      Tally(entries[..], key) + if oldEntries == null then 0 else Tally(oldEntries[oldStartIndex..], key)
    }

    /** While old slots wait, the new array is below the load at which it would grow. */
    lemma PaceLeavesRoom(start: nat)
      requires Valid() && Pace(start) && start <= oldStartIndex
      ensures oldOccupied > 0 ==> !Overloaded(occupied, size)
    {
    }

    constructor (n: nat)
      requires n > 0 && TableSize(n)
      ensures Valid() && Paced() && fresh(entries) && oldEntries == null
      ensures size == n && occupied == 0 && oldOccupied == 0
      ensures log == multiset{} && Exact()
    {
      entries := new Slot[0];
      blocks := {};
      log := multiset{};
      new;
      InitHashmap(n);
      OccupiedEmpty(entries[..]);
    }

    /** Points the table at fresh empty slots; what the fields referred to before is not freed. */
    method InitHashmap(n: nat)
      modifies this
      ensures size == n && occupied == 0 && maxProbeCount == 0
      ensures fresh(entries) && entries.Length == n && (forall i :: 0 <= i < n ==> entries[i] == EMPTY_SLOT)
      ensures oldStartIndex == 0 && oldOccupied == 0 && oldEntries == null
      ensures blocks == old(blocks) + {entries} && log == old(log)
    {
      size := n;
      occupied := 0;
      maxProbeCount := 0;
      entries := new Slot[n](_ => EMPTY_SLOT);
      blocks := blocks + {entries};
      oldStartIndex := 0;
      oldOccupied := 0;
      oldEntries := null;
    }

    /**
      The probe loop of `AddEntry`: walks on with the entry, swapping it with whatever sits nearer to
      its home, up to an empty slot, a slot that counts the carried key, or a full-enough table.
     */
    method Probe(usec0: uint64, count0: uint64)
      returns (idx: nat, probes: nat, usec: uint64, count: uint64, ghost steps: nat)
      requires Valid() && usec0 in log
      modifies entries, this`maxProbeCount
      ensures Valid() && usec in log
      ensures Carrying(old(entries[..]), usec0, count0, entries[..], usec, count, probes)
      ensures idx == Cell(size, usec, probes)
      ensures entries[idx].probes > 0 && entries[idx].delta != usec ==> entries[idx].probes < probes && Overloaded(occupied, size)
      ensures steps <= size + 1
    {
      hide Cell, Ordered, Carrying, Overloaded, Occupied, Has, TableSize, WithinBudget, Known;
      usec, count, probes, steps := usec0, count0, 1, 1;
      ghost var t0 := entries[..];
      ghost var t := t0;
      CarryStart(t0, usec0, count0);
      ghost var hole := BudgetStart(t0, usec0);
      idx := Cell(size, usec, probes);
      while entries[idx].probes > 0 && entries[idx].delta != usec && (entries[idx].probes >= probes || !Overloaded(occupied, size))
        invariant Valid() && usec in log && t == entries[..] && probes >= 1 && idx == Cell(size, usec, probes)
        invariant Carrying(t0, usec0, count0, t, usec, count, probes)
        invariant WithinBudget(t0, usec0, t, usec, probes, hole, steps)
        invariant steps <= size + 1
        decreases size + 1 - steps
      {
        var entry := entries[idx];
        if entry.probes >= probes {
          CarryPast(t0, usec0, count0, t, usec, count, probes);
          BudgetStep(t0, usec0, t, usec, probes, hole, steps);
          probes, steps := probes + 1, steps + 1;
        } else {
          CarryStop(t0, usec0, count0, t, usec, count, probes);
          FullIsOverloaded(occupied, size);
          CarrySwap(t0, usec0, count0, t, usec, count, probes);
          BudgetSwap(t0, usec0, t, usec, count, probes, hole, steps);
          KnownAt(t, log, idx);
          KnownUpdate(t, log, idx, Slot(probes, usec, count));
          t := t[idx := Slot(probes, usec, count)];
          entries[idx] := Slot(probes, usec, count);
          maxProbeCount := if maxProbeCount < probes then probes else maxProbeCount;
          usec, count, probes, steps := entry.delta, entry.count, entry.probes + 1, steps + 1;
          assert entries[..] == t;
        }
        idx := Cell(size, usec, probes);
      }
    }

    method AddEntry(usec0: uint64, count0: uint64) returns (ghost steps: nat)
      requires Valid() && usec0 in log
      requires oldOccupied > 0 ==> !Overloaded(occupied, size)
      modifies this, entries
      ensures Valid() && log == old(log)
      ensures forall k :: Wrap64(Total(k)) == Wrap64(old(Total(k)) + Extra(usec0, count0, k))
      ensures entries == old(entries) ==>
                && size == old(size) && old(occupied) <= occupied <= old(occupied) + 1
                && oldEntries == old(oldEntries) && oldStartIndex == old(oldStartIndex) && oldOccupied == old(oldOccupied)
      ensures entries != old(entries) ==>
                && old(Overloaded(occupied, size) && oldOccupied == 0 && !Has(entries[..], usec0))
                && fresh(entries) && oldEntries == old(entries) && Paced()
      ensures old(Has(entries[..], usec0)) ==>
                && entries == old(entries) && occupied == old(occupied)
                && forall i :: 0 <= i < size ==> entries[i].probes == old(entries[i]).probes && entries[i].delta == old(entries[i]).delta
      ensures steps <= old(size) + 1
      decreases if Overloaded(occupied, size) then 1 else 0, oldOccupied, 2
    {
      hide Cell, Ordered, Carrying, Overloaded, Occupied, Tally, Has, Extra, Wrap64, TableSize, Pace, Known;
      ghost var t0 := entries[..];
      ghost var rest := if oldEntries == null then [] else oldEntries[oldStartIndex..];
      var idx, probes, usec, count;
      idx, probes, usec, count, steps := Probe(usec0, count0);
      ghost var t := entries[..];
      if entries[idx].probes == 0 {
        FillSlot(idx, probes, usec, count, t0, usec0, count0);
      } else if entries[idx].delta == usec {
        MergeSlot(idx, probes, usec, count, t0, usec0, count0);
      } else {
        CarryStop(t0, usec0, count0, t, usec, count, probes);
        GrowHashmap(usec, count);
        forall k
          ensures Wrap64(Total(k)) == Wrap64(old(Total(k)) + Extra(usec0, count0, k))
        {
          CarryBalance(t0, usec0, count0, t, usec, count, probes, k);
          OccupiedZero(rest, k);
        }
        return;
      }
      forall k
        ensures Wrap64(Total(k)) == Wrap64(old(Total(k)) + Extra(usec0, count0, k))
      {
        WrapCongruent(Tally(entries[..], k), Tally(t0, k) + Extra(usec0, count0, k), Total(k) - Tally(entries[..], k));
      }
    }

    /** The insertion ends in an empty slot. */
    method FillSlot(idx: nat, probes: nat, usec: uint64, count: uint64, ghost t0: seq<Slot>, ghost usec0: uint64, ghost count0: uint64)
      requires Valid() && usec in log
      requires Carrying(t0, usec0, count0, entries[..], usec, count, probes)
      requires idx == Cell(size, usec, probes) && entries[idx].probes == 0
      modifies this`occupied, this`maxProbeCount, entries
      ensures Valid() && occupied == old(occupied) + 1 && !Has(t0, usec0)
      ensures forall k :: Tally(entries[..], k) == Tally(t0, k) + Extra(usec0, count0, k)
    {
      hide Cell, Ordered, Carrying, Occupied, Tally, Has, Extra, TableSize, Known;
      ghost var t := entries[..];
      KnownUpdate(t, log, idx, Slot(probes, usec, count));
      CarryStore(t0, usec0, count0, t, usec, count, probes);
      entries[idx] := Slot(probes, usec, count);
      occupied := occupied + 1;
      maxProbeCount := if maxProbeCount < probes then probes else maxProbeCount;
      assert entries[..] == t[idx := Slot(probes, usec, count)];
    }

    /** The insertion ends at the slot that already counts the key; nothing has been displaced. */
    method MergeSlot(idx: nat, probes: nat, usec: uint64, count: uint64, ghost t0: seq<Slot>, ghost usec0: uint64, ghost count0: uint64)
      requires Valid() && usec in log
      requires Carrying(t0, usec0, count0, entries[..], usec, count, probes)
      requires idx == Cell(size, usec, probes) && entries[idx].probes > 0 && entries[idx].delta == usec
      modifies entries
      ensures Valid() && old(entries[..]) == t0 && |t0| == size
      ensures forall i :: 0 <= i < size ==> entries[i].probes == t0[i].probes && entries[i].delta == t0[i].delta
      ensures forall k :: Wrap64(Tally(entries[..], k)) == Wrap64(Tally(t0, k) + Extra(usec0, count0, k))
    {
      hide Cell, Ordered, Carrying, Occupied, Tally, Extra, TableSize, Wrap64, Known;
      ghost var t := entries[..];
      var entry := entries[idx];
      KnownUpdate(t, log, idx, entry.(count := Wrap64(entry.count + count)));
      CarryMerge(t0, usec0, count0, t, usec, count, probes);
      entries[idx] := entry.(count := Wrap64(entry.count + count));
      assert entries[..] == t[idx := entry.(count := Wrap64(entry.count + count))];
    }

    /** Retires the array, starts over with twice the size and adds the entry there. */
    method GrowHashmap(usec: uint64, count: uint64)
      requires Valid() && usec in log
      requires Overloaded(occupied, size) && oldOccupied == 0
      modifies this, entries
      ensures Valid() && Paced() && log == old(log)
      ensures fresh(entries) && oldEntries == old(entries)
      ensures forall k :: Wrap64(Total(k)) == Wrap64(Tally(old(entries[..]), k) + Extra(usec, count, k))
      decreases 1, 0, 1
    {
      hide Known, Ordered, Tally, Extra, Wrap64, TableSize;
      MigrateOldEntries(false);
      ghost var s := entries[..];
      Retire();
      var _ := AddEntry(usec, count);
      assert entries == old(entries) || oldEntries[..] == s;
    }

    /** The array becomes the old one, behind an empty new one. */
    method Retire()
      requires Valid() && oldEntries == null && Overloaded(occupied, size)
      modifies this
      ensures Valid() && Paced() && !Overloaded(occupied, size) && log == old(log)
      ensures fresh(entries) && oldEntries == old(entries)
      ensures occupied == 0 && oldStartIndex == 0 && oldOccupied == Occupied(oldEntries[..])
      ensures forall k :: Total(k) == Tally(old(entries[..]), k)
    {
      hide Known, Ordered, Tally;
      ghost var s := entries[..];
      var oldSize, oldOcc, e := size, occupied, entries;
      NextSize(oldSize);
      InitHashmap(if oldSize * 2 < 16 then 16 else oldSize * 2);
      oldOccupied := oldOcc;
      oldEntries := e;
      NothingOrdered(entries[..], log);
      assert oldEntries[0..] == oldEntries[..] == s;
    }

    /** Moves what the next old slots hold: all of them, or the next eight. */
    method MigrateOldEntries(limitItems: bool)
      requires Valid() && Paced()
      modifies this, entries
      ensures Valid() && log == old(log)
      ensures entries == old(entries) && size == old(size)
      ensures forall k :: Wrap64(Total(k)) == old(Wrap64(Total(k)))
      ensures old(oldOccupied) == 0 ==> entries[..] == old(entries[..]) && occupied == old(occupied)
      ensures old(oldOccupied) == 0 ==> oldEntries == null
      ensures oldEntries == null || oldEntries == old(oldEntries)
      ensures oldOccupied > 0 ==> limitItems && oldEntries == old(oldEntries) && oldStartIndex == old(oldStartIndex) + 8 && Pace(old(oldStartIndex))
      decreases 0, oldOccupied, if oldOccupied > 0 then 4 else 0
    {
      hide Wrap64, Overloaded, Ordered, TableSize, Known;
      if oldEntries == null {
        return;
      }
      if oldOccupied == 0 {
        forall k
          ensures Tally(oldEntries[oldStartIndex..], k) == 0
        {
          OccupiedZero(oldEntries[oldStartIndex..], k);
        }
        blocks := blocks - {oldEntries};
        oldEntries := null;
        return;
      }
      ghost var start0 := oldStartIndex;
      var i := 0;
      while !limitItems || i < 8
        invariant Valid() && entries == old(entries) && size == old(size) && oldEntries == old(oldEntries) && log == old(log)
        invariant oldEntries != null
        invariant oldStartIndex == start0 + i && (limitItems ==> i <= 8)
        invariant Pace(start0) && oldOccupied <= old(oldOccupied)
        invariant forall k :: Wrap64(Total(k)) == old(Wrap64(Total(k)))
        decreases oldEntries.Length - oldStartIndex
      {
        if oldOccupied == 0 {
          return;
        }
        MigrateSlot(start0);
        i := i + 1;
      }
    }

    /** One round of the migration loop: moves the next old slot if it holds anything. */
    method MigrateSlot(ghost start0: nat)
      requires Valid() && oldOccupied > 0 && Pace(start0) && start0 <= oldStartIndex
      modifies this, entries
      ensures Valid() && Pace(start0) && log == old(log)
      ensures entries == old(entries) && size == old(size) && oldEntries == old(oldEntries)
      ensures oldStartIndex == old(oldStartIndex) + 1 && oldOccupied <= old(oldOccupied)
      ensures forall k :: Wrap64(Total(k)) == old(Wrap64(Total(k)))
      decreases 0, oldOccupied, 3
    {
      hide Wrap64, Overloaded, Ordered, TableSize, Known;
      KnownAt(oldEntries[..], log, oldStartIndex);
      var entry := oldEntries[oldStartIndex];
      ghost var rest := oldEntries[oldStartIndex..];
      assert rest[0] == entry && rest[1..] == oldEntries[oldStartIndex + 1..];
      if entry.probes == 0 {
        oldStartIndex := oldStartIndex + 1;
        return;
      }
      PaceLeavesRoom(start0);
      var _ := AddEntry(entry.delta, entry.count);
      label Added:
      assert rest == oldEntries[oldStartIndex..];
      oldOccupied := oldOccupied - 1;
      oldStartIndex := oldStartIndex + 1;
      forall k
        ensures Wrap64(Total(k)) == old(Wrap64(Total(k)))
      {
        WrapDrop(old@Added(Total(k)), old(Total(k)), Extra(entry.delta, entry.count, k));
      }
    }

    /** What merging one call does with a table: a bounded share of the pending migration, then the entry. */
    method RecordCall(usec: uint64)
      requires Valid() && Paced() && Exact()
      modifies this, entries
      ensures Valid() && Paced() && Exact()
      ensures entries == old(entries) || fresh(entries)
      ensures oldEntries == null || oldEntries == old(oldEntries) || oldEntries == old(entries)
      ensures log == old(log) + multiset{usec}
    {
      hide Wrap64, Overloaded, Ordered, TableSize, Extra, Known, Exact, Owing, Tally;
      ghost var start0 := oldStartIndex;
      MigrateAgain();
      Log(usec);
      if oldOccupied > 0 {
        PaceLeavesRoom(start0);
      }
      AddOwed(usec, start0);
    }

    /** The count of one recorded duration is still missing. */
    ghost predicate Owing(usec: uint64)
      reads this, entries, oldEntries
      requires oldEntries != null ==> oldStartIndex <= oldEntries.Length
    {
      forall k :: Wrap64(Total(k) + Extra(usec, 1, k)) == Wrap64(log[k])
    }

    method MigrateAgain()
      requires Valid() && Paced() && Exact()
      modifies this, entries
      ensures Valid() && Exact() && log == old(log)
      ensures entries == old(entries) && size == old(size)
      ensures oldEntries == null || oldEntries == old(oldEntries)
      ensures oldOccupied > 0 ==> oldStartIndex == old(oldStartIndex) + 8 && Pace(old(oldStartIndex)) && old(Paced() && oldOccupied > 0)
    {
      hide Wrap64, Overloaded, Ordered, TableSize, Known;
      MigrateOldEntries(true);
    }

    ghost method Log(usec: uint64)
      requires Valid() && Exact()
      modifies `log
      ensures Valid() && log == old(log) + multiset{usec} && Owing(usec)
    {
      hide Ordered, TableSize, Known, Wrap64, Extra;
      var more := multiset{usec as nat};
      KnownStays(entries[..], log, more);
      if oldEntries != null {
        KnownStays(oldEntries[..], log, more);
      }
      log := log + more;
      forall k
        ensures Wrap64(Total(k) + Extra(usec, 1, k)) == Wrap64(log[k])
      {
        WrapCongruent(Total(k), old(log)[k], Extra(usec, 1, k));
        OneMoreRecorded(old(log), usec, k);
      }
    }

    /** Adds the recorded duration; `start` is where the migration stood before the eight slots it just moved. */
    method AddOwed(usec: uint64, ghost start: nat)
      requires Valid() && usec in log && Owing(usec)
      requires oldOccupied > 0 ==> !Overloaded(occupied, size) && Pace(start) && start % 8 == 0 && oldStartIndex == start + 8
      modifies this, entries
      ensures Valid() && Paced() && Exact() && log == old(log)
      ensures if entries == old(entries) then oldEntries == old(oldEntries) else fresh(entries) && oldEntries == old(entries)
    {
      hide Ordered, TableSize, Known, Wrap64, Extra, Overloaded, Tally, Occupied;
      ghost var migrated := if oldEntries == null then 0 else Migrated();
      var _ := AddEntry(usec, 1);
      assert entries == old(entries) && oldEntries != null ==> Migrated() == migrated;
    }

    /**
      A snapshot of the table: every key once with the number of times it was recorded, how many there are in
      all, and the extreme keys.
     */
    method CopyMapToArray() returns (buffer: seq<TimeEntry>, calls: uint64, min: uint64, max: uint64)
      requires Valid() && Paced() && Exact()
      modifies this, entries
      ensures Valid() && Paced() && Exact() && entries == old(entries) && log == old(log)
      ensures oldEntries == null || oldEntries == old(oldEntries)
      ensures Shows(buffer, calls, min, max, log)
    {
      hide Wrap64, Overloaded, TableSize, Ordered, Tally, Known, Extremes, Shows;
      MigrateOldEntries(false);
      forall k
        ensures Total(k) == Tally(entries[..], k)
      {
        if oldEntries != null {
          OccupiedZero(oldEntries[oldStartIndex..], k);
        }
      }
      ghost var from;
      buffer, calls, min, max, from := CopyEntries();
      CopiedAll(entries[..], buffer, from, calls, min, max, log);
    }

    /** The loop over the slots. */
    method CopyEntries() returns (buffer: seq<TimeEntry>, calls: uint64, min: uint64, max: uint64, ghost from: seq<nat>)
      requires size == entries.Length
      ensures Copied(entries[..], size, buffer, from, calls) && Extremes(buffer, min, max)
    {
      hide Wrap64, Copied, Extremes;
      ghost var s := entries[..];
      buffer, min, max, calls := [], 0xFFFF_FFFF_FFFF_FFFF, 0, 0;
      from := [];
      CopiedStart(s);
      for i := 0 to size
        invariant Copied(s, i, buffer, from, calls) && Extremes(buffer, min, max)
      {
        if entries[i].probes == 0 {
          CopiedSkip(s, i, buffer, from, calls);
        } else {
          CopiedStep(s, i, buffer, from, calls);
          var e := TimeEntry(entries[i].delta, entries[i].count);
          ExtremesStep(buffer, min, max, e);
          buffer, from := buffer + [e], from + [i];
          calls := Wrap64(calls + e.count);
          min := if min < e.delta then min else e.delta;
          max := if max > e.delta then max else e.delta;
        }
      }
    }
  }

  // ---------------------------------------------------------------- whole runs

  lemma {:induction false} NotCounted(b: seq<TimeEntry>, key: nat)
    requires forall i :: 0 <= i < |b| ==> b[i].delta != key
    ensures CountIn(b, key) == 0
  {
    if b != [] {
      NotCounted(b[..|b| - 1], key);
    }
  }

  lemma CountedOnce(b: seq<TimeEntry>)
    requires b != [] && NoneTwice(b)
    ensures NoneTwice(b[..|b| - 1]) && CountIn(b, b[|b| - 1].delta) == b[|b| - 1].count
    ensures CountIn(b[..|b| - 1], b[|b| - 1].delta) == 0
  {
    NotCounted(b[..|b| - 1], b[|b| - 1].delta);
  }

  /** The durations without those of one key. */
  ghost function Others(log: multiset<nat>, key: nat): (r: multiset<nat>)
    ensures |log| == log[key] + |r|
    ensures forall k :: r[k] == if k == key then 0 else log[k]
  {
    var r := log[key := 0];
    assert log == r + multiset{}[key := log[key]];
    r
  }

  /** Entries that hold the right count under every key hold the right number in all. */
  lemma {:induction false} SumAgrees(b: seq<TimeEntry>, log: multiset<nat>)
    requires NoneTwice(b)
    requires forall k :: Wrap64(CountIn(b, k)) == Wrap64(log[k])
    ensures Wrap64(SumIn(b)) == Wrap64(|log|)
    decreases |b|, |log|
  {
    hide Wrap64, NoneTwice;
    if b != [] {
      var rest, last := b[..|b| - 1], b[|b| - 1];
      var others := Others(log, last.delta);
      CountedOnce(b);
      SumAgrees(rest, others);
      WrapCongruent(SumIn(rest), |others|, last.count);
      WrapCongruent(last.count, log[last.delta], |others|);
    } else if log != multiset{} {
      var key :| key in log;
      var others := Others(log, key);
      SumAgrees(b, others);
      WrapCongruent(log[key], 0, |others|);
    }
  }

  /**
    As long as the calls can be counted in 64 bits the snapshot is exact: it holds every duration with its
    count, the number of all, and the shortest and the longest.
   */
  lemma ShowsExactly(b: seq<TimeEntry>, calls: uint64, min: uint64, max: uint64, log: multiset<nat>)
    requires Shows(b, calls, min, max, log) && |log| < 0x1_0000_0000_0000_0000
    ensures forall k :: CountIn(b, k) == log[k]
    ensures calls == |log|
    ensures log != multiset{} ==> min in log && max in log && forall k :: k in log ==> min <= k <= max
  {
    hide CountIn, Extremes, SumIn, NoneTwice;
    forall k
      ensures CountIn(b, k) == log[k]
    {
      CountExact(b, k, log);
    }
    forall k | k in log
      ensures min <= k <= max
    {
      ExtremesHold(b, min, max, k);
    }
    if log != multiset{} {
      var key :| key in log;
      ExtremesHold(b, min, max, key);
      ExtremesReached(b, min, max, log);
    }
  }

  lemma DeltasDiffer(b: seq<TimeEntry>, i: nat, j: nat)
    requires NoneTwice(b) && i < j < |b|
    ensures b[i].delta != b[j].delta
  {
  }

  lemma AtMostOne(b: seq<TimeEntry>, usec: nat)
    requires NoneTwice(b) && forall j :: 0 <= j < |b| ==> b[j].delta == usec
    ensures |b| <= 1
  {
    hide NoneTwice;
    if |b| > 1 {
      DeltasDiffer(b, 0, 1);
    }
  }

  /** One recorded duration fills one entry. */
  lemma ShowsOne(b: seq<TimeEntry>, calls: uint64, min: uint64, max: uint64, usec: nat)
    requires Shows(b, calls, min, max, multiset{usec})
    ensures |b| == 1 && b[0].delta == usec && b[0].count == 1
    ensures calls == 1 && min == max == usec
  {
    var log := multiset{usec};
    assert Wrap64(CountIn(b, usec)) == Wrap64(log[usec]) == 1;
    AtMostOne(b, usec);
    assert |b| == 1 && b[..0] == [];
  }

  lemma CountExact(b: seq<TimeEntry>, k: nat, log: multiset<nat>)
    requires NoneTwice(b) && Wrap64(CountIn(b, k)) == Wrap64(log[k]) && |log| < 0x1_0000_0000_0000_0000
    ensures CountIn(b, k) == log[k]
  {
    CountFits(b, k);
    assert |log| == log[k] + |Others(log, k)|;
  }

  lemma ExtremesHold(b: seq<TimeEntry>, min: uint64, max: uint64, k: nat)
    requires Extremes(b, min, max) && CountIn(b, k) > 0
    ensures min <= k <= max && b != []
  {
    if forall j :: 0 <= j < |b| ==> b[j].delta != k {
      NotCounted(b, k);
    }
  }

  lemma ExtremesReached(b: seq<TimeEntry>, min: uint64, max: uint64, log: multiset<nat>)
    requires Extremes(b, min, max) && b != [] && forall j :: 0 <= j < |b| ==> b[j].delta in log
    ensures min in log && max in log
  {
  }

  lemma {:induction false} CountFits(b: seq<TimeEntry>, k: nat)
    requires NoneTwice(b)
    ensures CountIn(b, k) < 0x1_0000_0000_0000_0000
  {
    if b != [] {
      CountedOnce(b);
      if b[|b| - 1].delta != k {
        CountFits(b[..|b| - 1], k);
      }
    }
  }

  /** A table from its first call to a snapshot: the histogram of all calls, and how many there were. */
  method Histogram(usecs: seq<uint64>) returns (buffer: seq<TimeEntry>, calls: uint64, min: uint64, max: uint64)
    ensures Shows(buffer, calls, min, max, multiset(Numbers(usecs)))
  {
    hide Wrap64, Extra, Ordered, Overloaded, Tally, Occupied, Known, TimesTable.Exact, TimesTable.Paced;
    var table := new TimesTable(1);
    for i := 0 to |usecs|
      invariant table.Valid() && table.Paced() && table.Exact() && fresh(table) && fresh(table.entries)
      invariant table.log == multiset(Numbers(usecs[..i]))
    {
      table.RecordCall(usecs[i]);
      NumbersSnoc(usecs, i);
    }
    assert usecs[..|usecs|] == usecs;
    buffer, calls, min, max := table.CopyMapToArray();
  }

  function Numbers(usecs: seq<uint64>): seq<nat> {
    if usecs == [] then [] else Numbers(usecs[..|usecs| - 1]) + [usecs[|usecs| - 1]]
  }

  lemma NumbersSnoc(usecs: seq<uint64>, i: nat)
    requires i < |usecs|
    ensures multiset(Numbers(usecs[..i + 1])) == multiset(Numbers(usecs[..i])) + multiset{usecs[i]}
  {
    assert usecs[..i + 1][..i] == usecs[..i];
  }
}

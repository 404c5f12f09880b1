/**
  The slot arithmetic behind the profiler's time table: a Robin Hood open-addressing
  table seen as a plain sequence of slots.  `probes == 0` marks an empty slot, and a slot
  that holds key `delta` with `probes == p` sits `p` steps after the key's home position.
 */
module RobinHood {

  import opened Common

  /** The value a 64-bit unsigned counter shows. */
  function Wrap64(n: nat): uint64 {
    n % 0x1_0000_0000_0000_0000
  }

  lemma WrapReplace(a: nat, c: nat, d: nat)
    requires c <= a
    ensures Wrap64(a - c + Wrap64(c + d)) == Wrap64(a + d)
  {
    var m := 0x1_0000_0000_0000_0000;
    var q := (c + d) / m;
    assert c + d == q * m + Wrap64(c + d);
    assert a + d == (a - c + Wrap64(c + d)) + q * m;
  }

  lemma WrapCongruent(a: nat, b: nat, r: nat)
    requires Wrap64(a) == Wrap64(b)
    ensures Wrap64(a + r) == Wrap64(b + r)
  {
    WrapReplace(a + r, a, 0);
    WrapReplace(b + r, b, 0);
  }

  lemma WrapDrop(a: nat, b: nat, r: nat)
    requires Wrap64(a) == Wrap64(b + r) && r <= a
    ensures Wrap64(a - r) == Wrap64(b)
  {
    var m := 0x1_0000_0000_0000_0000;
    var q := (b + r) / m - a / m;
    assert b + r == a + q * m;
    if q >= 0 {
      WrapShift(a - r, q);
    } else {
      WrapShift(b, -q);
    }
  }

  lemma WrapShift(a: nat, q: nat)
    ensures Wrap64(a + q * 0x1_0000_0000_0000_0000) == Wrap64(a)
  {
  }

  datatype Slot = Slot(probes: nat, delta: uint64, count: uint64)

  const EMPTY_SLOT := Slot(0, 0, 0)

  /** The position visited by the `q`-th probe for `key` in a table of `n` slots. */
  function Cell(n: nat, key: nat, q: nat): (i: nat)
    requires n > 0
    ensures i < n
  {
    (key % n + q) % n
  }

  /** Every probe before the `p`-th one lands on a slot that is at least that far from its home. */
  ghost predicate PathOk(s: seq<Slot>, key: nat, p: nat)
    requires |s| > 0
  {
    forall q :: 1 <= q < p ==> s[Cell(|s|, key, q)].probes >= q
  }

  /** None of the slots visited before the `p`-th probe holds `key`. */
  ghost predicate NotSeen(s: seq<Slot>, key: nat, p: nat)
    requires |s| > 0
  {
    forall q :: 1 <= q < p ==> s[Cell(|s|, key, q)].delta != key
  }

  ghost predicate Placed(s: seq<Slot>, i: nat)
    requires i < |s|
  {
    s[i].probes > 0 ==>
      && s[i].probes <= |s|
      && Cell(|s|, s[i].delta, s[i].probes) == i
      && PathOk(s, s[i].delta, s[i].probes)
  }

  ghost predicate UniqueKeys(s: seq<Slot>) {
    forall i, j :: 0 <= i < |s| && 0 <= j < |s| && s[i].probes > 0 && s[j].probes > 0 && s[i].delta == s[j].delta ==> i == j
  }

  /** The Robin Hood invariant of a whole table. */
  ghost predicate Ordered(s: seq<Slot>) {
    && |s| > 0
    && (forall i :: 0 <= i < |s| ==> Placed(s, i))
    && UniqueKeys(s)
  }

  ghost predicate Has(s: seq<Slot>, key: nat) {
    exists i :: 0 <= i < |s| && s[i].probes > 0 && s[i].delta == key
  }

  /** The number of occupied slots. */
  ghost function Occupied(s: seq<Slot>): (n: nat)
    ensures n <= |s|
  {
    if s == [] then 0 else (if s[0].probes > 0 then 1 else 0) + Occupied(s[1..])
  }

  /** What one slot contributes to the count of `key`. */
  ghost function Share(x: Slot, key: nat): nat {
    if x.probes > 0 && x.delta == key then x.count else 0
  }

  /** The count the table stores for `key`. */
  ghost function Tally(s: seq<Slot>, key: nat): nat {
    if s == [] then 0 else Share(s[0], key) + Tally(s[1..], key)
  }

  // ---------------------------------------------------------------- positions

  lemma MulAtLeast(k: int, n: nat)
    requires k >= 1
    ensures k * n >= n
  {
    assert k * n == (k - 1) * n + n;
  }

  /** The remainder is the only number below `n` that differs from `x` by a multiple of `n`. */
  lemma ModUnique(x: int, n: nat, d: int, a: nat)
    requires a < n
    requires x == d * n + a
    ensures x % n == a
  {
    var e, b := x / n, x % n;
    assert x == n * e + b;
    assert (d - e) * n == b - a && (e - d) * n == a - b;
    if d > e {
      MulAtLeast(d - e, n);
    } else if d < e {
      MulAtLeast(e - d, n);
    }
  }

  /** Consecutive probes visit consecutive positions, wrapping at the end. */
  lemma CellStep(n: nat, key: nat, q: nat)
    requires n > 0
    ensures Cell(n, key, q + 1) == if Cell(n, key, q) + 1 == n then 0 else Cell(n, key, q) + 1
  {
    var x := key % n + q;
    var d, a := x / n, x % n;
    assert x == d * n + a;
    if a + 1 == n {
      assert x + 1 == (d + 1) * n + 0;
      ModUnique(x + 1, n, d + 1, 0);
    } else {
      ModUnique(x + 1, n, d, a + 1);
    }
  }

  /** `n` probes reach every position. */
  lemma CellReaches(n: nat, key: nat, f: nat) returns (q: nat)
    requires f < n
    ensures 1 <= q <= n && Cell(n, key, q) == f
  {
    var h := key % n;
    if f > h {
      q := f - h;
      ModUnique(h + q, n, 0, f);
    } else {
      q := f + n - h;
      ModUnique(h + q, n, 1, f);
    }
  }

  // ---------------------------------------------------------------- counting

  lemma {:induction false} OccupiedUpdate(s: seq<Slot>, i: nat, x: Slot)
    requires i < |s|
    ensures Occupied(s[i := x]) == Occupied(s) - (if s[i].probes > 0 then 1 else 0) + (if x.probes > 0 then 1 else 0)
  {
    if i == 0 {
      assert s[0 := x][1..] == s[1..];
    } else {
      assert s[i := x][1..] == s[1..][i - 1 := x];
      OccupiedUpdate(s[1..], i - 1, x);
    }
  }

  lemma {:induction false} OccupiedFull(s: seq<Slot>)
    ensures Occupied(s) == |s| <==> forall i :: 0 <= i < |s| ==> s[i].probes > 0
  {
    if s != [] {
      OccupiedFull(s[1..]);
      assert forall i :: 0 < i < |s| ==> s[i] == s[1..][i - 1];
      if s[0].probes > 0 && (forall i :: 0 <= i < |s[1..]| ==> s[1..][i].probes > 0) {
        assert forall i :: 0 <= i < |s| ==> i == 0 || s[i] == s[1..][i - 1];
      }
      if (forall i :: 0 <= i < |s| ==> s[i].probes > 0) {
        assert forall i :: 0 <= i < |s[1..]| ==> s[1..][i] == s[i + 1];
      }
    }
  }

  lemma {:induction false} OccupiedEmpty(s: seq<Slot>)
    requires forall i :: 0 <= i < |s| ==> s[i].probes == 0
    ensures Occupied(s) == 0
    ensures forall key :: Tally(s, key) == 0
  {
    if s != [] {
      OccupiedEmpty(s[1..]);
    }
  }

  lemma {:induction false} OccupiedZero(s: seq<Slot>, key: nat)
    requires Occupied(s) == 0
    ensures Tally(s, key) == 0
  {
    if s != [] {
      OccupiedZero(s[1..], key);
    }
  }

  lemma {:induction false} TallyUpdate(s: seq<Slot>, i: nat, x: Slot, key: nat)
    requires i < |s|
    ensures Tally(s[i := x], key) == Tally(s, key) - Share(s[i], key) + Share(x, key)
  {
    if i == 0 {
      assert s[0 := x][1..] == s[1..];
    } else {
      assert s[i := x][1..] == s[1..][i - 1 := x];
      TallyUpdate(s[1..], i - 1, x, key);
    }
  }

  lemma {:induction false} TallyShare(s: seq<Slot>, i: nat, key: nat)
    requires i < |s|
    ensures Share(s[i], key) <= Tally(s, key)
  {
    if i > 0 {
      TallyShare(s[1..], i - 1, key);
    }
  }

  lemma {:induction false} TallySnoc(s: seq<Slot>, i: nat, key: nat)
    requires i < |s|
    ensures Tally(s[..i + 1], key) == Tally(s[..i], key) + Share(s[i], key)
  {
    if i == 0 {
      assert s[..1] == [s[0]];
    } else {
      assert s[..i + 1][1..] == s[1..][..i] && s[..i][1..] == s[1..][..i - 1];
      TallySnoc(s[1..], i - 1, key);
    }
  }

  // ---------------------------------------------------------------- one probe step

  /** The path is extended by a slot that is far enough from its home. */
  lemma PathStep(s: seq<Slot>, key: nat, p: nat)
    requires |s| > 0 && p >= 1 && PathOk(s, key, p) && s[Cell(|s|, key, p)].probes >= p
    ensures PathOk(s, key, p + 1)
  {
  }

  /**
    Search correctness: when every slot before probe `p` was passed without finding the key, and the
    slot at probe `p` is nearer to its home than `p` and does not hold the key, then no slot holds it.
   */
  lemma SearchComplete(s: seq<Slot>, key: nat, p: nat)
    requires Ordered(s) && p >= 1 && NotSeen(s, key, p)
    requires s[Cell(|s|, key, p)].probes < p
    requires s[Cell(|s|, key, p)].probes > 0 ==> s[Cell(|s|, key, p)].delta != key
    ensures !Has(s, key)
  {
    forall i | 0 <= i < |s| && s[i].probes > 0
      ensures s[i].delta != key
    {
      assert Placed(s, i);
    }
  }

  /** Probing past the last slot of the table means that the table is full. */
  lemma PathFull(s: seq<Slot>, key: nat, p: nat)
    requires |s| > 0 && PathOk(s, key, p) && p > |s|
    ensures Occupied(s) == |s|
  {
    forall i | 0 <= i < |s|
      ensures s[i].probes > 0
    {
      var q := CellReaches(|s|, key, i);
    }
    OccupiedFull(s);
  }

  /** Raising the distance stored in one slot keeps every path. */
  lemma PathRaise(s: seq<Slot>, i: nat, x: Slot, key: nat, p: nat)
    requires i < |s| && PathOk(s, key, p) && x.probes >= s[i].probes
    ensures PathOk(s[i := x], key, p)
  {
  }

  /** Storing an absent key where its own probe path ends keeps the invariant, whoever sat there. */
  lemma StoreKeepsOrder(s: seq<Slot>, key: uint64, p: nat, count: uint64)
    requires Ordered(s) && !Has(s, key) && 1 <= p <= |s| && PathOk(s, key, p)
    requires s[Cell(|s|, key, p)].probes < p
    ensures Ordered(s[Cell(|s|, key, p) := Slot(p, key, count)])
  {
    var i := Cell(|s|, key, p);
    var x := Slot(p, key, count);
    var t := s[i := x];
    PathRaise(s, i, x, key, p);
    forall j | 0 <= j < |t|
      ensures Placed(t, j)
    {
      assert Placed(s, j);
      if j != i && t[j].probes > 0 {
        PathRaise(s, i, x, s[j].delta, s[j].probes);
      }
    }
    forall a, b | 0 <= a < |t| && 0 <= b < |t| && t[a].probes > 0 && t[b].probes > 0 && t[a].delta == t[b].delta
      ensures a == b
    {
      if a != i && b != i {
        assert s[a] == t[a] && s[b] == t[b];
      }
    }
  }

  /** After a displacement the evicted slot's own path reaches one step beyond where it sat. */
  lemma EvictedPath(s: seq<Slot>, i: nat, x: Slot)
    requires Ordered(s) && i < |s| && 0 < s[i].probes < x.probes
    requires !Has(s, x.delta)
    ensures PathOk(s[i := x], s[i].delta, s[i].probes + 1)
    ensures !Has(s[i := x], s[i].delta)
  {
    assert Placed(s, i);
    PathRaise(s, i, x, s[i].delta, s[i].probes);
    var t := s[i := x];
    forall j | 0 <= j < |t| && t[j].probes > 0
      ensures t[j].delta != s[i].delta
    {
      assert j != i ==> s[j] == t[j];
      assert s[i].delta != x.delta;
    }
  }

  /** Changing only the count stored in an occupied slot keeps the invariant. */
  lemma RecountKeepsOrder(s: seq<Slot>, i: nat, count: uint64)
    requires Ordered(s) && i < |s|
    ensures Ordered(s[i := s[i].(count := count)])
  {
    var x := s[i].(count := count);
    var t := s[i := x];
    forall j | 0 <= j < |t|
      ensures Placed(t, j)
    {
      assert Placed(s, j);
      PathRaise(s, i, x, s[j].delta, s[j].probes);
    }
    forall a, b | 0 <= a < |t| && 0 <= b < |t| && t[a].probes > 0 && t[b].probes > 0 && t[a].delta == t[b].delta
      ensures a == b
    {
      assert s[a].delta == t[a].delta && s[b].delta == t[b].delta;
    }
  }
}

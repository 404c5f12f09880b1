/**
  Strong and weak references to a source under every interleaving of threads. Each step is one atomic
  operation on a counter; the upgrade of a weak reference is a loop of loads and compare-and-swaps.
 */
module WeakRefs {

  /** Where a thread stands in the loop: about to load the counter, or with the value it has loaded. */
  datatype Phase = Loading | Loaded(owners: int)

  /**
    `refs` and `weakRefs` are the counters, each one less than the references it stands for. The rest is
    what the counters are about: how many strong and weak references are held, which threads are
    upgrading (each uses a weak reference of its own), and what has happened. The strong references
    together hold one weak reference, from the start until the last of them has been released.
   */
  datatype State = State(
    refs: int, weakRefs: int,
    owners: nat, weakHolders: nat, upgrades: map<nat, Phase>,
    destroying: nat, destroyed: nat, freed: nat)

  /** A new source: one owner. */
  const START := State(0, 0, 1, 0, map[], 0, 0, 0)

  datatype Step =
    | AddRef                 // by an owner
    | Release                // by an owner
    | Destroy                // by the thread whose release was the last
    | AddWeakRef             // by an owner or a holder of a weak reference
    | ReleaseWeak            // by a holder of a weak reference
    | Begin(thread: nat)     // a holder of a weak reference starts an upgrade
    | Load(thread: nat)
    | Swap(thread: nat)
    | GiveUp(thread: nat)

  predicate Enabled(s: State, step: Step) {
    match step
    case AddRef => s.owners > 0
    case Release => s.owners > 0
    case Destroy => s.destroying > 0
    case AddWeakRef => s.owners > 0 || s.weakHolders > 0
    case ReleaseWeak => s.weakHolders > |s.upgrades|
    case Begin(t) => t !in s.upgrades && s.weakHolders > |s.upgrades|
    case Load(t) => t in s.upgrades && s.upgrades[t].Loading?
    case Swap(t) => t in s.upgrades && s.upgrades[t].Loaded? && s.upgrades[t].owners > -1
    case GiveUp(t) => t in s.upgrades && s.upgrades[t].Loaded? && s.upgrades[t].owners <= -1
  }

  /** The weak counter goes down; at minus one the counters are freed. */
  function WeakReleased(s: State): State {
    s.(weakRefs := s.weakRefs - 1, freed := if s.weakRefs - 1 == -1 then s.freed + 1 else s.freed)
  }

  function Next(s: State, step: Step): State
    requires Enabled(s, step)
  {
    match step
    case AddRef => s.(refs := s.refs + 1, owners := s.owners + 1)
    case Release =>
      s.(refs := s.refs - 1, owners := s.owners - 1,
         destroying := if s.refs - 1 == -1 then s.destroying + 1 else s.destroying)
    case Destroy => WeakReleased(s).(destroying := s.destroying - 1, destroyed := s.destroyed + 1)
    case AddWeakRef => s.(weakRefs := s.weakRefs + 1, weakHolders := s.weakHolders + 1)
    case ReleaseWeak => WeakReleased(s).(weakHolders := s.weakHolders - 1)
    case Begin(t) => s.(upgrades := s.upgrades[t := Loading])
    case Load(t) => s.(upgrades := s.upgrades[t := Loaded(s.refs)])
    case Swap(t) =>
      if s.refs == s.upgrades[t].owners then
        s.(refs := s.refs + 1, owners := s.owners + 1, upgrades := s.upgrades - {t})
      else s.(upgrades := s.upgrades[t := Loading])
    case GiveUp(t) => s.(upgrades := s.upgrades - {t})
  }

  /** Whether the steps can be taken one after the other, and where they lead. */
  predicate Legal(s: State, steps: seq<Step>)
    decreases |steps|
  {
    steps == [] || (Enabled(s, steps[0]) && Legal(Next(s, steps[0]), steps[1..]))
  }

  function Run(s: State, steps: seq<Step>): State
    requires Legal(s, steps)
    decreases |steps|
  {
    if steps == [] then s else Run(Next(s, steps[0]), steps[1..])
  }

  // -------- The invariant --------

  /** Whether the strong references still hold their weak reference. */
  function StrongShare(s: State): nat {
    if s.destroyed == 0 then 1 else 0
  }

  ghost predicate Inv(s: State) {
    && s.refs == s.owners - 1
    && s.weakRefs == s.weakHolders + StrongShare(s) - 1
    && |s.upgrades| <= s.weakHolders
    && s.destroying + s.destroyed == (if s.owners == 0 then 1 else 0)
    && s.freed == (if s.weakRefs == -1 then 1 else 0)
    && forall t :: t in s.upgrades && s.upgrades[t].Loaded? && s.upgrades[t].owners <= -1 ==> s.owners == 0
  }

  lemma NextKeeps(s: State, step: Step)
    requires Inv(s) && Enabled(s, step)
    ensures Inv(Next(s, step))
    ensures s.owners == 0 ==> Next(s, step).owners == 0
  {
    match step
    case Begin(t) =>
      assert |s.upgrades[t := Loading]| == |s.upgrades| + 1;
    case Load(t) =>
      SameSize(s.upgrades, t, Loaded(s.refs));
    case Swap(t) =>
      SameSize(s.upgrades, t, Loading);
      OneFewer(s.upgrades, t);
    case GiveUp(t) =>
      OneFewer(s.upgrades, t);
    case _ =>
  }

  lemma SameSize(m: map<nat, Phase>, t: nat, phase: Phase)
    requires t in m
    ensures |m[t := phase]| == |m|
  {
    assert m[t := phase].Keys == m.Keys;
    assert |m.Keys| == |m| && |m[t := phase].Keys| == |m[t := phase]|;
  }

  lemma OneFewer(m: map<nat, Phase>, t: nat)
    requires t in m
    ensures |m - {t}| == |m| - 1
  {
    assert (m - {t}).Keys == m.Keys - {t};
    assert |(m - {t}).Keys| == |m - {t}| && |m.Keys| == |m|;
  }

  lemma {:induction false} RunKeeps(s: State, steps: seq<Step>)
    requires Inv(s) && Legal(s, steps)
    ensures Inv(Run(s, steps))
    ensures s.owners == 0 ==> Run(s, steps).owners == 0
    decreases |steps|
  {
    hide Inv, Enabled, Next;
    if steps != [] {
      NextKeeps(s, steps[0]);
      RunKeeps(Next(s, steps[0]), steps[1..]);
    }
  }

  lemma StartsWell()
    ensures Inv(START)
  {
  }

  // -------- Main results --------

  /** The counter is the number of owners less one. The source is destroyed once, when no owner is left. */
  ghost predicate CountedRight(s: State) {
    && s.refs == s.owners - 1
    && s.destroying + s.destroyed <= 1
    && (s.destroying + s.destroyed == 1 <==> s.owners == 0)
  }

  /** The counters are freed once, when nobody is left to use them, and nobody uses them afterwards. */
  ghost predicate FreedRight(s: State) {
    && s.freed <= 1
    && (s.freed == 1 <==> s.owners == 0 && s.destroyed == 1 && s.weakHolders == 0)
    && (s.freed == 1 ==> s.upgrades == map[])
  }

  /** An upgrade gives up only when no owner is left, and succeeds only while there is one. */
  ghost predicate UpgradesRight(s: State) {
    && (forall t :: Enabled(s, GiveUp(t)) ==> s.owners == 0)
    && (forall t :: Enabled(s, Swap(t)) && s.refs == s.upgrades[t].owners ==> s.owners > 0)
  }

  lemma InvMeans(s: State)
    requires Inv(s)
    ensures CountedRight(s) && FreedRight(s) && UpgradesRight(s)
  {
    if s.upgrades != map[] {
      assert |s.upgrades| > 0;
    }
  }

  /** All of it holds under every interleaving. */
  lemma EveryRun(steps: seq<Step>)
    requires Legal(START, steps)
    ensures var s := Run(START, steps); CountedRight(s) && FreedRight(s) && UpgradesRight(s)
  {
    hide Run, Legal, Inv, CountedRight, FreedRight, UpgradesRight;
    StartsWell();
    RunKeeps(START, steps);
    InvMeans(Run(START, steps));
  }

  /** After the last owner is gone no upgrade succeeds, whatever happens later. */
  lemma NoRevival(steps: seq<Step>, more: seq<Step>)
    requires Legal(START, steps) && Run(START, steps).refs == -1 && Legal(Run(START, steps), more)
    ensures var s := Run(Run(START, steps), more);
            s.refs == -1 && forall t :: Enabled(s, Swap(t)) ==> s.refs != s.upgrades[t].owners
  {
    hide Run, Legal, Inv, Enabled, FreedRight, UpgradesRight;
    StartsWell();
    RunKeeps(START, steps);
    var s := Run(START, steps);
    InvMeans(s);
    RunKeeps(s, more);
    InvMeans(Run(s, more));
    SwapNeedsOwner(Run(s, more));
  }

  lemma SwapNeedsOwner(s: State)
    requires s.refs == -1
    ensures forall t :: Enabled(s, Swap(t)) ==> s.refs != s.upgrades[t].owners
  {
  }

  // -------- What the steps lead to --------

  lemma {:induction false} RunJoins(s: State, steps: seq<Step>, more: seq<Step>)
    requires Legal(s, steps) && Legal(Run(s, steps), more)
    ensures Legal(s, steps + more) && Run(s, steps + more) == Run(Run(s, steps), more)
    decreases |steps|
  {
    hide Enabled, Next;
    if steps == [] {
      assert steps + more == more;
    } else {
      assert (steps + more)[1..] == steps[1..] + more;
      RunJoins(Next(s, steps[0]), steps[1..], more);
    }
  }

  lemma OneStep(s: State, step: Step)
    requires Enabled(s, step)
    ensures Legal(s, [step]) && Run(s, [step]) == Next(s, step)
  {
    hide Enabled, Next;
    assert [step][1..] == [];
    assert Run(Next(s, step), []) == Next(s, step);
  }

  lemma ThreeSteps(s: State, a: Step, b: Step, c: Step)
    requires Enabled(s, a) && Enabled(Next(s, a), b) && Enabled(Next(Next(s, a), b), c)
    ensures Legal(s, [a, b, c]) && Run(s, [a, b, c]) == Next(Next(Next(s, a), b), c)
  {
    hide Enabled, Next, Run, Legal;
    OneStep(s, a);
    OneStep(Next(s, a), b);
    OneStep(Next(Next(s, a), b), c);
    RunJoins(Next(s, a), [b], [c]);
    RunJoins(s, [a], [b] + [c]);
    assert [a] + ([b] + [c]) == [a, b, c];
  }

  lemma UpgradeOfOwned(s: State, t: nat)
    requires s.refs == s.owners - 1 && s.owners > 0 && Enabled(s, Begin(t))
    ensures Legal(s, [Begin(t), Load(t), Swap(t)])
    ensures Run(s, [Begin(t), Load(t), Swap(t)]) == s.(refs := s.refs + 1, owners := s.owners + 1)
  {
    hide Run, Legal;
    assert s.upgrades[t := Loading][t := Loaded(s.refs)] - {t} == s.upgrades;
    ThreeSteps(s, Begin(t), Load(t), Swap(t));
  }

  lemma UpgradeOfOrphan(s: State, t: nat)
    requires s.refs == -1 && Enabled(s, Begin(t))
    ensures Legal(s, [Begin(t), Load(t), GiveUp(t)])
    ensures Run(s, [Begin(t), Load(t), GiveUp(t)]) == s
  {
    hide Run, Legal;
    assert s.upgrades[t := Loading][t := Loaded(-1)] - {t} == s.upgrades;
    ThreeSteps(s, Begin(t), Load(t), GiveUp(t));
  }

  /** An upgrade that nobody disturbs gives one more owner as long as there is one, and otherwise nothing. */
  lemma UndisturbedUpgrade(steps: seq<Step>, t: nat)
    requires Legal(START, steps) && Enabled(Run(START, steps), Begin(t))
    ensures var s := Run(START, steps);
            if s.owners > 0 then
              && Legal(s, [Begin(t), Load(t), Swap(t)])
              && Run(s, [Begin(t), Load(t), Swap(t)]) == s.(refs := s.refs + 1, owners := s.owners + 1)
            else
              && Legal(s, [Begin(t), Load(t), GiveUp(t)])
              && Run(s, [Begin(t), Load(t), GiveUp(t)]) == s
  {
    hide Run, Legal, Enabled, Inv, FreedRight, UpgradesRight;
    StartsWell();
    RunKeeps(START, steps);
    var s := Run(START, steps);
    InvMeans(s);
    if s.owners > 0 {
      UpgradeOfOwned(s, t);
    } else {
      UpgradeOfOrphan(s, t);
    }
  }

  /** How a thread ends its upgrade once there is no owner. */
  function Ending(phase: Phase, t: nat): seq<Step> {
    if phase.Loading? then [Load(t), GiveUp(t)]
    else if phase.owners > -1 then [Swap(t), Load(t), GiveUp(t)]
    else [GiveUp(t)]
  }

  lemma EndsUpgrade(s: State, t: nat)
    requires s.refs == -1 && t in s.upgrades
    ensures Legal(s, Ending(s.upgrades[t], t)) && Run(s, Ending(s.upgrades[t], t)) == s.(upgrades := s.upgrades - {t})
  {
    var phase := s.upgrades[t];
    if phase.Loaded? && phase.owners <= -1 {
      OneStep(s, GiveUp(t));
    } else if phase.Loading? {
      assert s.upgrades[t := Loaded(-1)] - {t} == s.upgrades - {t};
      OneStep(s, Load(t));
      OneStep(Next(s, Load(t)), GiveUp(t));
      RunJoins(s, [Load(t)], [GiveUp(t)]);
      assert [Load(t)] + [GiveUp(t)] == [Load(t), GiveUp(t)];
    } else {
      assert s.upgrades[t := Loading][t := Loaded(-1)] - {t} == s.upgrades - {t};
      ThreeSteps(s, Swap(t), Load(t), GiveUp(t));
    }
  }

  /** Nothing is left behind: from every state reached, steps remain that destroy the source and free its counters. */
  lemma NothingLeaks(steps: seq<Step>) returns (more: seq<Step>)
    requires Legal(START, steps)
    ensures Legal(START, steps + more)
    ensures Run(START, steps + more) == State(-1, -1, 0, 0, map[], 0, 1, 1)
  {
    hide Run, Legal, Inv;
    StartsWell();
    RunKeeps(START, steps);
    more := Settles(Run(START, steps));
    RunJoins(START, steps, more);
  }

  lemma {:induction false} Settles(s: State) returns (more: seq<Step>)
    requires Inv(s)
    ensures Legal(s, more) && Run(s, more) == State(-1, -1, 0, 0, map[], 0, 1, 1)
    decreases s.owners, s.destroying, |s.upgrades|, s.weakHolders
  {
    hide Run, Legal, Enabled, Next;
    if s.owners == 0 && s.destroying == 0 && s.upgrades == map[] && s.weakHolders == 0 {
      NoSteps(s);
      more := [];
    } else {
      var first := Towards(s);
      var rest := Settles(Run(s, first));
      RunJoins(s, first, rest);
      more := first + rest;
    }
  }

  lemma NoSteps(s: State)
    ensures Legal(s, []) && Run(s, []) == s
  {
  }

  /** Unless all is settled, some steps bring it closer. */
  lemma Towards(s: State) returns (first: seq<Step>)
    requires Inv(s)
    requires !(s.owners == 0 && s.destroying == 0 && s.upgrades == map[] && s.weakHolders == 0)
    ensures Legal(s, first) && Inv(Run(s, first))
    ensures var u := Run(s, first);
            && (if s.owners > 0 then u.owners < s.owners
                else if s.destroying > 0 then u.owners == 0 && u.destroying < s.destroying
                else if s.upgrades != map[] then u.owners == 0 && u.destroying == 0 && |u.upgrades| < |s.upgrades|
                else u.owners == 0 && u.destroying == 0 && u.upgrades == map[] && u.weakHolders < s.weakHolders)
  {
    if s.owners > 0 {
      first := [Release];
      OneStep(s, Release);
    } else if s.destroying > 0 {
      first := [Destroy];
      OneStep(s, Destroy);
    } else if s.upgrades != map[] {
      var t :| t in s.upgrades;
      first := Ending(s.upgrades[t], t);
      EndsUpgrade(s, t);
      OneFewer(s.upgrades, t);
    } else {
      first := [ReleaseWeak];
      OneStep(s, ReleaseWeak);
    }
    RunKeeps(s, first);
  }
}

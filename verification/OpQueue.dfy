/**
  The queue that serializes asynchronous operations: every queued operation posts a work item, and every
  work item that runs takes the operation at the front. Operations are counted pointers; zero is the
  null pointer.
 */
module OpQueues {
  import opened Common
  import opened LinkLists

  // -------- The protocol --------

  /**
    `work` is the number of work items that have been posted and have not run yet, `refs` the references
    the queue holds; `lost` counts the work items that could not be posted and those whose operation was
    not accepted.
   */
  datatype State = State(
    queue: seq<nat>, work: nat, refs: multiset<nat>, queued: seq<nat>, dispatched: seq<nat>, lost: nat)

  const START := State([], 0, multiset{}, [], [], 0)

  datatype Step = Queue(op: nat, posted: bool) | Work(accepted: bool)

  function AddRef(refs: multiset<nat>, op: nat): multiset<nat> {
    refs + multiset{op}
  }

  function Release(refs: multiset<nat>, op: nat): multiset<nat> {
    refs - multiset{op}
  }

  /** A work item runs only if there is one. */
  function Next(s: State, step: Step): State {
    match step
    case Queue(op, posted) =>
      if op == 0 then s
      else State(s.queue + [op], if posted then s.work + 1 else s.work, AddRef(s.refs, op), s.queued + [op],
                 s.dispatched, if posted then s.lost else s.lost + 1)
    case Work(accepted) =>
      if s.work == 0 then s
      else if s.queue == [] then s.(work := s.work - 1)
      else if accepted then
        State(s.queue[1..], s.work - 1, Release(s.refs, s.queue[0]), s.queued, s.dispatched + [s.queue[0]], s.lost)
      else s.(work := s.work - 1, lost := s.lost + 1)
  }

  function Run(s: State, steps: seq<Step>): State
    decreases |steps|
  {
    if steps == [] then s else Run(Next(s, steps[0]), steps[1..])
  }

  ghost predicate Inv(s: State) {
    && |s.queue| == s.work + s.lost
    && s.dispatched + s.queue == s.queued
    && Counted(s)
  }

  /** The queue holds one reference for each operation on it. */
  ghost predicate Counted(s: State) {
    s.refs == multiset(s.queue)
  }

  lemma NextKeeps(s: State, step: Step)
    requires Inv(s)
    ensures Inv(Next(s, step))
  {
    if step.Work? && s.work > 0 {
      assert s.queue == [s.queue[0]] + s.queue[1..];
    }
  }

  lemma {:induction false} RunKeeps(s: State, steps: seq<Step>)
    requires Inv(s)
    ensures Inv(Run(s, steps))
    decreases |steps|
  {
    hide Next, Inv;
    if steps != [] {
      NextKeeps(s, steps[0]);
      RunKeeps(Next(s, steps[0]), steps[1..]);
    }
  }

  /**
    Main result: under every scheduling the operations are dispatched in the order they were queued, none
    twice; each one still queued is held by exactly one reference; and a work item is outstanding for each
    of them but those that were lost.
   */
  lemma EveryRun(steps: seq<Step>)
    ensures var s := Run(START, steps);
            && s.dispatched <= s.queued && s.queue == s.queued[|s.dispatched|..]
            && Counted(s)
            && |s.queue| == s.work + s.lost
  {
    hide Run, Next, Counted;
    StartsWell();
    RunKeeps(START, steps);
    var s := Run(START, steps);
    FrontAndRest(s.dispatched, s.queue, s.queued);
  }

  lemma FrontAndRest(a: seq<nat>, b: seq<nat>, c: seq<nat>)
    requires a + b == c
    ensures a <= c && c[|a|..] == b && (b == [] <==> a == c)
  {
  }

  lemma StartsWell()
    ensures Inv(START)
  {
  }

  function Accepting(n: nat): seq<Step> {
    if n == 0 then [] else [Work(true)] + Accepting(n - 1)
  }

  /** Running the outstanding work items dispatches as many operations. */
  lemma {:induction false} Draining(s: State)
    requires Inv(s)
    ensures var r := Run(s, Accepting(s.work));
            r.work == 0 && r.lost == s.lost && r.queued == s.queued && Inv(r)
    decreases s.work
  {
    if s.work > 0 {
      var next := Next(s, Work(true));
      NextKeeps(s, Work(true));
      Draining(next);
      assert Accepting(s.work)[1..] == Accepting(next.work);
    }
  }

  /** No operation is stranded once the work items have run, exactly if nothing was lost. */
  lemma NoneStranded(steps: seq<Step>)
    ensures var s := Run(START, steps); var r := Run(s, Accepting(s.work));
            && |r.queue| == s.lost
            && (r.dispatched == s.queued <==> s.lost == 0)
  {
    hide Run, Next, Inv;
    StartsWell();
    RunKeeps(START, steps);
    Draining(Run(START, steps));
    var s := Run(START, steps);
    DispatchedAll(Run(s, Accepting(s.work)));
  }

  lemma DispatchedAll(s: State)
    requires Inv(s)
    ensures |s.queue| == s.work + s.lost && (s.dispatched == s.queued <==> |s.queue| == 0)
  {
    hide Counted;
    FrontAndRest(s.dispatched, s.queue, s.queued);
  }

  // -------- What was asked for --------

  /** The operations the callers queue; a null pointer is refused. */
  function Asked(steps: seq<Step>): seq<nat>
    decreases |steps|
  {
    if steps == [] then []
    else (if steps[0].Queue? && steps[0].op != 0 then [steps[0].op] else []) + Asked(steps[1..])
  }

  /** Every work item can be posted, and every operation is performed at once. */
  predicate Smooth(steps: seq<Step>) {
    forall step :: step in steps ==> if step.Queue? then step.posted else step.accepted
  }

  lemma {:induction false} AskedIsQueued(s: State, steps: seq<Step>)
    ensures Run(s, steps).queued == s.queued + Asked(steps)
    ensures Smooth(steps) ==> Run(s, steps).lost == s.lost
    decreases |steps|
  {
    if steps != [] {
      var next := Next(s, steps[0]);
      AskedIsQueued(next, steps[1..]);
      assert steps[0] in steps && forall step :: step in steps[1..] ==> step in steps;
      Regrouped(s.queued, if steps[0].Queue? && steps[0].op != 0 then [steps[0].op] else [], Asked(steps[1..]));
    }
  }

  lemma Regrouped(a: seq<nat>, b: seq<nat>, c: seq<nat>)
    ensures (a + b) + c == a + (b + c) && a + [] == a
  {
  }

  /** What was asked for is dispatched, in that order, when nothing is refused. */
  lemma AllDispatched(steps: seq<Step>)
    ensures var s := Run(START, steps); var r := Run(s, Accepting(s.work));
            && r.dispatched <= Asked(steps)
            && (Smooth(steps) ==> r.dispatched == Asked(steps) && r.queue == [])
  {
    hide Run, Next, Inv, Asked, Smooth, Accepting;
    AskedIsQueued(START, steps);
    StartsWell();
    RunKeeps(START, steps);
    var s := Run(START, steps);
    Draining(s);
    Parts(Run(s, Accepting(s.work)));
  }

  lemma Parts(s: State)
    requires Inv(s)
    ensures s.dispatched <= s.queued && (s.work + s.lost == 0 ==> s.queue == [] && s.dispatched == s.queued)
  {
    hide Counted;
    FrontAndRest(s.dispatched, s.queue, s.queued);
  }

  // -------- The class --------

  lemma WorkIs(s: State, accepted: bool, rest: seq<nat>, refs: multiset<nat>)
    requires s.work > 0
    requires if s.queue != [] && accepted then
               s.queue == [s.queue[0]] + rest && refs == Release(Release(AddRef(s.refs, s.queue[0]), s.queue[0]), s.queue[0])
             else rest == s.queue && refs == if s.queue == [] then s.refs else Release(AddRef(s.refs, s.queue[0]), s.queue[0])
    ensures Next(s, Work(accepted))
            == if s.queue == [] then State(rest, s.work - 1, refs, s.queued, s.dispatched, s.lost)
               else if accepted then State(rest, s.work - 1, refs, s.queued, s.dispatched + [s.queue[0]], s.lost)
               else State(rest, s.work - 1, refs, s.queued, s.dispatched, s.lost + 1)
  {
    hide AddRef, Release;
    if s.queue != [] {
      Balanced(s.refs, s.queue[0]);
      if accepted {
        assert s.queue[1..] == rest;
      }
    }
  }

  lemma Balanced(refs: multiset<nat>, op: nat)
    ensures Release(AddRef(refs, op), op) == refs
  {
  }

  class OpQueue {
    const queue: List<nat>
    var refs: multiset<nat>
    var work: nat
    ghost var queued: seq<nat>
    ghost var dispatched: seq<nat>
    ghost var lost: nat

    ghost predicate Valid()
      reads this, queue, queue.repr
    {
      queue.Valid() && Inv(Now())
    }

    ghost function Now(): State
      reads this, queue
    {
      State(queue.contents, work, refs, queued, dispatched, lost)
    }

    constructor ()
      ensures Valid() && Now() == START && fresh(queue) && fresh(queue.repr)
    {
      queue := new List();
      refs, work := multiset{}, 0;
      queued, dispatched, lost := [], [], 0;
    }

    /** The operation is put on the queue even if no work item can be posted for it. */
    method QueueOperation(op: nat, posted: bool) returns (ok: bool)
      requires Valid()
      modifies this, queue, queue.repr
      ensures Valid() && fresh(queue.repr - old(queue.repr))
      ensures Now() == Next(old(Now()), Queue(op, posted)) && ok == (op != 0 && posted)
    {
      hide List.Valid;
      NextKeeps(Now(), Queue(op, posted));
      if op == 0 {
        return false;
      }
      refs := AddRef(refs, op);
      var _ := queue.InsertBack(op);
      queued := queued + [op];
      ok := ProcessQueue(posted);
    }

    /** Posts a work item if there is something to do. */
    method ProcessQueue(posted: bool) returns (ok: bool)
      requires queue.Valid()
      modifies `work, `lost
      ensures if queue.contents == [] then ok && work == old(work) && lost == old(lost)
              else if posted then ok && work == old(work) + 1 && lost == old(lost)
              else !ok && work == old(work) && lost == old(lost) + 1
    {
      var count := queue.GetCount();
      ok := true;
      if count > 0 {
        if posted {
          work := work + 1;
        } else {
          ok := false;
          lost := lost + 1;
        }
      }
    }

    /** A work item runs: the front is looked at, and taken if it can be performed now. */
    method ProcessQueueAsync(accepted: bool) returns (op: nat)
      requires Valid() && work > 0
      modifies this, queue, queue.repr
      ensures Valid() && queue.repr == old(queue.repr)
      ensures Now() == Next(old(Now()), Work(accepted))
      ensures op == if accepted && old(queue.contents) != [] then old(queue.contents)[0] else 0
    {
      hide List.Valid, Inv, Next, AddRef, Release;
      ghost var before := Now();
      NextKeeps(before, Work(accepted));
      op := 0;
      var held := refs;
      var count := queue.GetCount();
      ghost var missed := 0;
      if count > 0 {
        var front := queue.FrontPosition();
        var _, item := queue.GetItemPos(front, 0);
        held := AddRef(held, item);
        if accepted {
          var _, removed := queue.RemoveFront();
          held := Release(held, removed);
          op := item;
        } else {
          missed := 1;
        }
        held := Release(held, item);
      }
      WorkIs(before, accepted, queue.contents, held);
      Finish(held, if accepted && count > 0 then [op] else [], missed);
      assert Now() == Next(before, Work(accepted));
    }

    /** The work item has run. */
    method Finish(held: multiset<nat>, ghost taken: seq<nat>, ghost missed: nat)
      requires queue.Valid() && work > 0
      modifies `refs, `work, `dispatched, `lost
      ensures queue.Valid()
      ensures refs == held && work == old(work) - 1 && dispatched == old(dispatched) + taken && lost == old(lost) + missed
    {
      refs, work, dispatched, lost := held, work - 1, dispatched + taken, lost + missed;
    }
  }
}

/** The round-robin scheduler: two queues and the current thread. */
module Scheduler {
  import opened Basics

  type Tid = nat

  datatype Queues = Queues(runnable: seq<Tid>, exhausted: seq<Tid>, current: Option<Tid>) {
    /** Everybody waiting, in the order in which the two queues are drained. */
    function Fifo(): seq<Tid> { runnable + exhausted }

    predicate CanYield() { current.Some? && Fifo() != [] }

    /** The current thread, then everybody waiting. */
    function Ring(): seq<Tid> { (if current.Some? then [current.value] else []) + Fifo() }

    function Swapped(): Queues {
      if runnable == [] then this.(runnable := exhausted, exhausted := []) else this
    }
  }

  function AddQ(q: Queues, t: Tid): Queues { q.(runnable := q.runnable + [t]) }

  function YieldQ(q: Queues): Queues {
    if q.CanYield() then
      var s := q.Swapped();
      Queues(s.runnable[1..], s.exhausted + [q.current.value], Some(s.runnable[0]))
    else q
  }

  function VanishQ(q: Queues): Queues
    requires q.Fifo() != []
  {
    var s := q.Swapped();
    Queues(s.runnable[1..], s.exhausted, Some(s.runnable[0]))
  }

  /** The scheduler without locking. */
  class SchedulerUnlocked {
    var runnable: seq<Tid>
    var exhausted: seq<Tid>
    var current: Option<Tid>

    function View(): Queues
      reads this
    {
      Queues(runnable, exhausted, current)
    }

    constructor ()
      ensures View() == Queues([], [], None)
    {
      runnable, exhausted, current := [], [], None;
    }

    method Add(t: Tid)
      modifies this
      ensures View() == AddQ(old(View()), t)
    {
      runnable := runnable + [t];
    }

    method Begin(t: Tid)
      modifies this
      ensures View() == old(View()).(current := Some(t))
    {
      current := Some(t);
    }

    method SwapIfNecessary()
      requires runnable + exhausted != []
      modifies this
      ensures View() == old(View()).Swapped() && runnable != []
    {
      if runnable == [] {
        runnable, exhausted := exhausted, runnable;
      }
    }

    method TakeCurrentFromRunnable()
      requires runnable != []
      modifies this
      ensures View() == Queues(old(runnable)[1..], old(exhausted), Some(old(runnable)[0]))
    {
      current := Some(runnable[0]);
      runnable := runnable[1..];
    }

    /** Returns the thread that runs next; `switched` is false when nobody waits. */
    method Yield() returns (switched: bool)
      modifies this
      ensures View() == YieldQ(old(View())) && switched == old(View()).CanYield()
    {
      switched := current.Some? && !(runnable == [] && exhausted == []);
      if switched {
        SwapIfNecessary();
        if runnable != [] {
          exhausted := exhausted + [current.value];
          TakeCurrentFromRunnable();
        }
      }
    }

    method Vanish()
      requires current.Some? && View().Fifo() != []
      modifies this
      ensures View() == VanishQ(old(View()))
    {
      SwapIfNecessary();
      TakeCurrentFromRunnable();
    }
  }

  // -------------------------------------------------------------- round robin

  /** A yield rotates the ring by one place, whichever queue the next thread is in. */
  lemma {:induction false} YieldRotates(q: Queues)
    requires q.CanYield()
    ensures YieldQ(q).CanYield() && YieldQ(q).Ring() == q.Ring()[1..] + [q.Ring()[0]]
  {
    var r := YieldQ(q);
    assert q.Swapped().Fifo() == q.Fifo();
    assert r.Ring() == q.Fifo() + [q.current.value];
  }

  function Yields(q: Queues, n: nat): Queues {
    if n == 0 then q else YieldQ(Yields(q, n - 1))
  }

  lemma {:induction false} YieldsRotate(q: Queues, n: nat)
    requires q.CanYield() && n <= |q.Ring()|
    ensures Yields(q, n).CanYield() && Yields(q, n).Ring() == q.Ring()[n..] + q.Ring()[..n]
  {
    if n == 0 {
      assert q.Ring()[0..] + q.Ring()[..0] == q.Ring();
    } else {
      YieldsRotate(q, n - 1);
      var p, ring := Yields(q, n - 1), q.Ring();
      YieldRotates(p);
      hide YieldQ;
      assert p.Ring() == [ring[n - 1]] + (ring[n..] + ring[..n - 1]);
      assert Yields(q, n).Ring() == ring[n..] + (ring[..n - 1] + [ring[n - 1]]);
      assert ring[..n] == ring[..n - 1] + [ring[n - 1]];
    }
  }

  /** With n threads waiting, n + 1 yields run the waiting threads in order, once
      each, and bring back the current thread and the queue. */
  lemma {:induction false} RoundRobin(q: Queues)
    requires q.CanYield()
    ensures forall k :: 0 <= k < |q.Fifo()| ==> Yields(q, k + 1).current == Some(q.Fifo()[k])
    ensures Yields(q, |q.Fifo()| + 1).current == q.current
    ensures Yields(q, |q.Fifo()| + 1).Fifo() == q.Fifo()
  {
    var n := |q.Fifo()|;
    forall k | 0 <= k < n ensures Yields(q, k + 1).current == Some(q.Fifo()[k]) {
      YieldsRotate(q, k + 1);
      assert Yields(q, k + 1).Ring()[0] == q.Ring()[k + 1];
    }
    YieldsRotate(q, n + 1);
    var p := Yields(q, n + 1);
    assert p.Ring() == q.Ring();
    assert p.Ring()[0] == p.current.value && p.Ring()[1..] == p.Fifo() && q.Ring()[1..] == q.Fifo();
  }

  // ------------------------------------------- runs of adds, yields and vanishes

  datatype Op = AddOp(t: Tid) | YieldOp | VanishOp

  predicate Enabled(q: Queues, op: Op) { op.VanishOp? ==> q.CanYield() }

  function Apply(q: Queues, op: Op): Queues
    requires Enabled(q, op)
  {
    match op
    case AddOp(t) => AddQ(q, t)
    case YieldOp => YieldQ(q)
    case VanishOp => VanishQ(q)
  }

  predicate EnabledAll(q: Queues, ops: seq<Op>)
    decreases |ops|
  {
    ops == [] || (Enabled(q, ops[0]) && EnabledAll(Apply(q, ops[0]), ops[1..]))
  }

  function ApplyAll(q: Queues, ops: seq<Op>): Queues
    requires EnabledAll(q, ops)
    decreases |ops|
  {
    if ops == [] then q else ApplyAll(Apply(q, ops[0]), ops[1..])
  }

  function Switches(ops: seq<Op>): nat {
    if ops == [] then 0 else (if ops[0].AddOp? then 0 else 1) + Switches(ops[1..])
  }

  /** The thread that one operation adds, and the one that it ends. */
  function AddedBy(op: Op): multiset<Tid> { if op.AddOp? then multiset{op.t} else multiset{} }

  function EndedBy(q: Queues, op: Op): multiset<Tid>
    requires Enabled(q, op)
  {
    if op.VanishOp? then multiset{q.current.value} else multiset{}
  }

  function Added(ops: seq<Op>): multiset<Tid> {
    if ops == [] then multiset{} else AddedBy(ops[0]) + Added(ops[1..])
  }

  function Ended(q: Queues, ops: seq<Op>): multiset<Tid>
    requires EnabledAll(q, ops)
    decreases |ops|
  {
    if ops == [] then multiset{} else EndedBy(q, ops[0]) + Ended(Apply(q, ops[0]), ops[1..])
  }

  lemma {:induction false} RotationConserves(a: Tid, rest: seq<Tid>)
    ensures multiset([a] + rest) == multiset(rest + [a]) == multiset{a} + multiset(rest)
  {
  }

  lemma {:induction false} ApplyConserves(q: Queues, op: Op)
    requires Enabled(q, op)
    ensures multiset(Apply(q, op).Ring()) + EndedBy(q, op) == multiset(q.Ring()) + AddedBy(op)
  {
    match op
    case AddOp(t) =>
      assert multiset(AddQ(q, t).Ring()) == multiset(q.Ring()) + multiset{t};
    case YieldOp =>
      if q.CanYield() {
        YieldRotates(q);
        hide YieldQ;
        assert q.Ring() == [q.Ring()[0]] + q.Ring()[1..];
        RotationConserves(q.Ring()[0], q.Ring()[1..]);
      }
    case VanishOp =>
      assert q.Swapped().Fifo() == q.Fifo();
      assert VanishQ(q).Ring() == q.Fifo();
      RotationConserves(q.current.value, q.Fifo());
  }

  /** No thread is lost or duplicated by any run. */
  lemma {:induction false} RunConserves(q: Queues, ops: seq<Op>)
    requires EnabledAll(q, ops)
    ensures multiset(ApplyAll(q, ops).Ring()) + Ended(q, ops) == multiset(q.Ring()) + Added(ops)
    decreases |ops|
  {
    if ops == [] {
    } else {
      hide *;
      ApplyConserves(q, ops[0]);
      RunConserves(Apply(q, ops[0]), ops[1..]);
      Unfold(q, ops);
      Balance(multiset(q.Ring()), multiset(Apply(q, ops[0]).Ring()), multiset(ApplyAll(q, ops).Ring()),
              EndedBy(q, ops[0]), Ended(Apply(q, ops[0]), ops[1..]), AddedBy(ops[0]), Added(ops[1..]));
    }
  }

  lemma {:induction false} Unfold(q: Queues, ops: seq<Op>)
    requires EnabledAll(q, ops) && ops != []
    ensures Enabled(q, ops[0]) && EnabledAll(Apply(q, ops[0]), ops[1..])
    ensures ApplyAll(q, ops) == ApplyAll(Apply(q, ops[0]), ops[1..])
    ensures Ended(q, ops) == EndedBy(q, ops[0]) + Ended(Apply(q, ops[0]), ops[1..])
    ensures Added(ops) == AddedBy(ops[0]) + Added(ops[1..])
  {
  }

  lemma {:induction false} Balance(r: multiset<Tid>, r1: multiset<Tid>, r2: multiset<Tid>,
                                   e1: multiset<Tid>, e2: multiset<Tid>, a1: multiset<Tid>, a2: multiset<Tid>)
    requires r1 + e1 == r + a1 && r2 + e2 == r1 + a2
    ensures r2 + (e1 + e2) == r + (a1 + a2)
  {
    forall x ensures (r2 + (e1 + e2))[x] == (r + (a1 + a2))[x] {
      assert (r1 + e1)[x] == (r + a1)[x] && (r2 + e2)[x] == (r1 + a2)[x];
    }
  }

  /** A thread at place i of the runnable queue moves up one place with every
      switch, whatever is added meanwhile, and runs at switch number i + 1. */
  lemma {:induction false} WaitsExactly(q: Queues, ops: seq<Op>, i: nat)
    requires q.current.Some? && EnabledAll(q, ops) && i < |q.runnable| && Switches(ops) <= i + 1
    ensures var p := ApplyAll(q, ops);
            && p.current.Some?
            && (Switches(ops) <= i ==>
                  i - Switches(ops) < |p.runnable| && p.runnable[i - Switches(ops)] == q.runnable[i])
            && (Switches(ops) == i + 1 ==> p.current == Some(q.runnable[i]))
    decreases |ops|
  {
    if ops == [] {
    } else {
      var p := Apply(q, ops[0]);
      if ops[0].AddOp? { WaitsExactly(p, ops[1..], i); }
      else if i > 0 { WaitsExactly(p, ops[1..], i - 1); }
      else { OnlyAdds(p, ops[1..]); }
    }
  }

  lemma {:induction false} OnlyAdds(q: Queues, ops: seq<Op>)
    requires q.current.Some? && EnabledAll(q, ops) && Switches(ops) == 0
    ensures ApplyAll(q, ops).current == q.current
    decreases |ops|
  {
    if ops == [] {
    } else {
      OnlyAdds(Apply(q, ops[0]), ops[1..]);
    }
  }

  /** How many switches of a run come before the first one that finds a runnable
      queue of n threads, which adds extend and switches shorten, drained. */
  function BeforeDrain(n: nat, ops: seq<Op>): (r: Option<nat>)
    ensures r.Some? ==> n <= r.value < Switches(ops)
    decreases |ops|
  {
    if ops == [] then None
    else if ops[0].AddOp? then BeforeDrain(n + 1, ops[1..])
    else if n == 0 then Some(0)
    else
      var r := BeforeDrain(n - 1, ops[1..]);
      if r.Some? then Some(r.value + 1) else None
  }

  lemma {:induction false} QueueStep(q: Queues, op: Op)
    requires q.current.Some? && Enabled(q, op) && (op.AddOp? || q.runnable != [])
    ensures var p := Apply(q, op);
            && p.current.Some? && q.exhausted <= p.exhausted
            && |p.runnable| == |q.runnable| + if op.AddOp? then 1 else -1
  {
  }

  lemma {:induction false} DrainingStep(q: Queues, op: Op)
    requires q.current.Some? && Enabled(q, op) && !op.AddOp? && q.runnable == [] && q.exhausted != []
    ensures Apply(q, op).runnable == q.exhausted[1..] && Apply(q, op).current == Some(q.exhausted[0])
  {
  }

  /** A thread at place i of the exhausted queue keeps its place until the runnable
      queue drains, and runs at switch number i + 1 from there on. If the queue
      never drains, nobody in the exhausted queue runs. */
  lemma {:induction false} ExhaustedWaitsExactly(q: Queues, ops: seq<Op>, i: nat)
    requires q.current.Some? && EnabledAll(q, ops) && i < |q.exhausted|
    ensures var p, n := ApplyAll(q, ops), Switches(ops);
            match BeforeDrain(|q.runnable|, ops)
            case None => q.exhausted <= p.exhausted
            case Some(d) =>
              && (n <= d + i ==> d + i - n < |p.runnable| && p.runnable[d + i - n] == q.exhausted[i])
              && (n == d + i + 1 ==> p.current == Some(q.exhausted[i]))
    decreases |ops|
  {
    if ops == [] {
    } else {
      hide Apply;
      var p := Apply(q, ops[0]);
      if ops[0].AddOp? || q.runnable != [] {
        QueueStep(q, ops[0]);
        ExhaustedWaitsExactly(p, ops[1..], i);
      } else if Switches(ops) <= i + 1 {
        DrainingStep(q, ops[0]);
        if i == 0 { OnlyAdds(p, ops[1..]); } else { WaitsExactly(p, ops[1..], i - 1); }
      }
    }
  }

  function Adds(ops: seq<Op>): nat {
    if ops == [] then 0 else (if ops[0].AddOp? then 1 else 0) + Adds(ops[1..])
  }

  /** The queue drains exactly when, at some point, there have been more switches
      than threads to switch to in it. */
  lemma {:induction false} DrainsIff(n: nat, ops: seq<Op>)
    ensures BeforeDrain(n, ops).Some? <==>
              exists k :: 0 <= k <= |ops| && Switches(ops[..k]) > n + Adds(ops[..k])
    decreases |ops|
  {
    if ops == [] {
    } else {
      var n' := if ops[0].AddOp? then n + 1 else n - 1;
      forall k | 1 <= k <= |ops|
        ensures Switches(ops[..k]) - Adds(ops[..k]) - n == Switches(ops[1..][..k - 1]) - Adds(ops[1..][..k - 1]) - n'
      {
        assert ops[..k][1..] == ops[1..][..k - 1];
      }
      if n' < 0 {
        assert Switches(ops[..1]) > n + Adds(ops[..1]);
      } else {
        DrainsIff(n', ops[1..]);
        if k :| 0 <= k <= |ops| - 1 && Switches(ops[1..][..k]) > n' + Adds(ops[1..][..k]) {
          assert Switches(ops[..k + 1]) > n + Adds(ops[..k + 1]);
        }
        if k :| 0 <= k <= |ops| && Switches(ops[..k]) > n + Adds(ops[..k]) {
          assert k >= 1;
          assert Switches(ops[1..][..k - 1]) > n' + Adds(ops[1..][..k - 1]);
        }
      }
    }
  }

  /** Adding one thread before every yield. */
  function AddThenYield(ts: seq<Tid>): seq<Op> {
    if ts == [] then [] else [AddOp(ts[0]), YieldOp] + AddThenYield(ts[1..])
  }

  /** So the wait of a thread in the exhausted queue has no bound: when a thread is
      added before every yield, the runnable queue never drains. */
  lemma {:induction false} AddsStarveExhausted(q: Queues, ts: seq<Tid>)
    requires q.current.Some?
    ensures EnabledAll(q, AddThenYield(ts)) && Switches(AddThenYield(ts)) == |ts|
    ensures q.exhausted <= ApplyAll(q, AddThenYield(ts)).exhausted
    decreases |ts|
  {
    if ts == [] {
    } else {
      var ops, rest := AddThenYield(ts), AddThenYield(ts[1..]);
      var p := AddQ(q, ts[0]);
      var r := YieldQ(p);
      assert ops[1..][0] == YieldOp && ops[1..][1..] == rest;
      AddsStarveExhausted(r, ts[1..]);
      assert EnabledAll(p, ops[1..]) && ApplyAll(p, ops[1..]) == ApplyAll(r, rest);
      assert Switches(ops[1..]) == 1 + Switches(rest);
    }
  }
}

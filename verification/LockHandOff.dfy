/** The interrupt lock and the scheduler lock on one processor. The scheduler
    lock is taken by one thread and given back by the next one to run.

    Each call of `lock()` or `unlock()` is one step, and so is the body of a
    scheduler call. Only the running thread moves; an interrupt makes the
    running thread take the dispatcher's lock. */
module LockHandOff {
  import opened Basics
  import opened Scheduler

  /** The global nesting counter with its effect on the interrupt flag. */
  class InterruptLock {
    var count: int
    var interrupts: bool

    method Lock()
      modifies this
      ensures Irq(count, interrupts) == Locked(old(Irq(count, interrupts)))
    {
      count := count + 1;
      if count - 1 == 0 {
        interrupts := false;
      }
    }

    method Unlock()
      modifies this
      ensures Irq(count, interrupts) == Unlocked(old(Irq(count, interrupts)))
    {
      count := count - 1;
      if count + 1 == 1 {
        interrupts := true;
      }
    }
  }

  datatype Irq = Irq(count: int, interrupts: bool)

  function Locked(i: Irq): Irq { Irq(i.count + 1, if i.count == 0 then false else i.interrupts) }

  function Unlocked(i: Irq): Irq { Irq(i.count - 1, if i.count == 1 then true else i.interrupts) }

  datatype Call = CallAdd(t: Tid) | CallBegin | CallYield | CallVanish

  /** Where a thread is in its use of the scheduler. */
  datatype Mode =
    | Outside             // not in the scheduler
    | Inside(call: Call)  // took the scheduler lock, runs the call next
    | Leaving             // gives the scheduler lock back next
    | Suspended           // switched away in yield; gives the lock back when resumed
    | NotStarted          // gives the lock back in thread_start

  /** `holds[t]` counts the locks other than the scheduler's that t has taken and
      not given back; `leaked` counts those of threads that have vanished. */
  datatype State = State(
    irq: Irq, isLocked: bool, q: Queues, running: Tid, mode: map<Tid, Mode>,
    holds: multiset<Tid>, leaked: nat, assertFailed: bool)

  datatype Act = Lock | Unlock | Interrupt | Enter(call: Call) | Body | Leave

  ghost predicate Enabled(s: State, a: Act) {
    s.running in s.mode &&
    var m := s.mode[s.running];
    match a
    case Lock => m == Outside
    case Unlock => m == Outside && s.holds[s.running] > 0
    case Interrupt => s.irq.interrupts
    case Enter(call) => m == Outside
    case Body =>
      m.Inside? && (match m.call
                    case CallAdd(t) => t !in s.mode
                    case CallBegin => s.q.current == None
                    case CallYield => true
                    case CallVanish => s.q.CanYield())
    case Leave => m == Leaving
  }

  function SetMode(s: State, t: Tid, m: Mode): State { s.(mode := s.mode[t := m]) }

  /** The thread that the queues now name continues where it gives the lock back. */
  function SwitchTo(s: State, q: Queues): State
    requires q.current.Some?
  {
    SetMode(s, q.current.value, Leaving).(running := q.current.value, q := q)
  }

  ghost function Step(s: State, a: Act): State
    requires Enabled(s, a)
  {
    var r := s.running;
    match a
    case Lock => s.(irq := Locked(s.irq), holds := s.holds + multiset{r})
    case Unlock => s.(irq := Unlocked(s.irq), holds := s.holds - multiset{r})
    case Interrupt => s.(irq := Locked(s.irq), holds := s.holds + multiset{r})
    case Enter(call) =>
      SetMode(s, r, Inside(call)).(irq := Locked(s.irq), isLocked := true, assertFailed := s.assertFailed || s.isLocked)
    case Leave => SetMode(s, r, Outside).(irq := Unlocked(s.irq), isLocked := false)
    case Body =>
      match s.mode[r].call
      case CallAdd(t) => SetMode(SetMode(s, t, NotStarted), r, Leaving).(q := AddQ(s.q, t))
      case CallBegin => SetMode(s, r, Leaving).(q := s.q.(current := Some(r)))
      case CallYield =>
        if s.q.CanYield() then YieldRotates(s.q); SwitchTo(SetMode(s, r, Suspended), YieldQ(s.q))
        else SetMode(s, r, Leaving)
      case CallVanish =>
        SwitchTo(s.(mode := s.mode - {r}, holds := s.holds[r := 0], leaked := s.leaked + s.holds[r]), VanishQ(s.q))
  }

  // ------------------------------------------------------------------ invariant

  ghost predicate Distinct(ts: seq<Tid>) {
    forall i, j :: 0 <= i < j < |ts| ==> ts[i] != ts[j]
  }

  /** Exactly the threads other than the running one wait in the queues, and they
      all resume where they give the scheduler lock back. */
  ghost predicate Waiting(s: State) {
    && s.running in s.mode && !s.mode[s.running].Suspended? && !s.mode[s.running].NotStarted?
    && (s.q.current == None || s.q.current == Some(s.running))
    && Distinct(s.q.Fifo()) && s.running !in s.q.Fifo()
    && (forall t :: t in s.q.Fifo() ==> t in s.mode && (s.mode[t] == Suspended || s.mode[t] == NotStarted))
    && (forall t :: t in s.mode && t != s.running ==> t in s.q.Fifo())
  }

  ghost predicate Counting(s: State) {
    && s.irq.count == |s.holds| + s.leaked + (if s.isLocked then 1 else 0)
    && (s.irq.interrupts <==> s.irq.count == 0)
    && (forall t :: t in s.holds ==> t in s.mode)
  }

  ghost predicate Inv(s: State) {
    Waiting(s) && Counting(s) && !s.assertFailed && (s.isLocked <==> s.mode[s.running] != Outside)
  }

  function Boot(t: Tid): State {
    State(Irq(0, true), false, Queues([], [], None), t, map[t := Outside], multiset{}, 0, false)
  }

  /** An interrupt finds the running thread outside the scheduler, with the counter
      at zero, and holds the counter at one with interrupts off. */
  lemma {:induction false} LockKeeps(s: State, a: Act)
    requires Inv(s) && Enabled(s, a) && (a == Lock || a == Unlock || a == Interrupt)
    ensures Inv(Step(s, a))
    ensures a == Interrupt ==> s.mode[s.running] == Outside && s.irq.count == 0
    ensures a == Interrupt ==> Step(s, a).irq == Irq(1, false) && Step(s, a).holds == s.holds + multiset{s.running}
  {
    hide Distinct;
  }

  lemma {:induction false} EnterLeaveKeep(s: State, a: Act)
    requires Inv(s) && Enabled(s, a) && (a.Enter? || a == Leave)
    ensures Inv(Step(s, a))
  {
    hide Distinct;
  }

  lemma {:induction false} AddKeeps(s: State, t: Tid)
    requires Inv(s) && Enabled(s, Body) && s.mode[s.running] == Inside(CallAdd(t))
    ensures Inv(Step(s, Body))
  {
    hide Distinct;
    InsertDistinct(s.q.runnable, s.q.exhausted, t);
    assert AddQ(s.q, t).Fifo() == s.q.runnable + [t] + s.q.exhausted;
  }

  lemma {:induction false} InsertDistinct(a: seq<Tid>, b: seq<Tid>, t: Tid)
    requires Distinct(a + b) && t !in a + b
    ensures Distinct(a + [t] + b)
    ensures forall x :: x in a + [t] + b <==> x in a + b || x == t
  {
    var f, g := a + b, a + [t] + b;
    assert forall i :: 0 <= i < |g| ==> g[i] == if i < |a| then f[i] else if i == |a| then t else f[i - 1];
    forall i, j | 0 <= i < j < |g| ensures g[i] != g[j] {
      var x, y := if i < |a| then i else i - 1, if j < |a| then j else j - 1;
      if i == |a| { assert g[j] == f[y]; }
      else if j == |a| { assert g[i] == f[x]; }
      else { assert g[i] == f[x] && g[j] == f[y]; }
    }
    forall x | x in f ensures x in g {
      var i :| 0 <= i < |f| && f[i] == x;
      assert g[if i < |a| then i else i + 1] == x;
    }
  }

  lemma {:induction false} NoSwitchKeeps(s: State)
    requires Inv(s) && Enabled(s, Body)
    requires s.mode[s.running] == Inside(CallBegin) || (s.mode[s.running] == Inside(CallYield) && !s.q.CanYield())
    ensures Inv(Step(s, Body))
  {
    hide Distinct;
  }

  /** What a switch does to the queue, as one FIFO. */
  lemma {:induction false} SwitchShape(q: Queues)
    requires q.CanYield()
    ensures YieldQ(q).current == Some(q.Fifo()[0]) && YieldQ(q).Fifo() == q.Fifo()[1..] + [q.current.value]
    ensures VanishQ(q).current == Some(q.Fifo()[0]) && VanishQ(q).Fifo() == q.Fifo()[1..]
  {
    var w := q.Swapped();
    assert w.Fifo() == q.Fifo();
    assert w.Fifo()[0] == w.runnable[0];
    assert w.Fifo()[1..] == w.runnable[1..] + w.exhausted;
  }

  lemma {:induction false} TailDistinct(f: seq<Tid>)
    requires Distinct(f) && f != []
    ensures Distinct(f[1..]) && f[0] !in f[1..]
    ensures forall x :: x in f <==> x == f[0] || x in f[1..]
  {
    assert f == [f[0]] + f[1..];
  }

  /** Whom a switch continues: a thread that was switched away in its own yield or
      has not started, and that gives the scheduler lock back next. */
  ghost predicate HandedOver(s: State, p: State) {
    && p.running != s.running && p.running in s.mode && p.running in p.mode
    && (s.mode[p.running] == Suspended || s.mode[p.running] == NotStarted)
    && p.mode[p.running] == Leaving && p.isLocked && p.q.current == Some(p.running)
  }

  /** A yield hands the lock over while it is held; the yielder waits behind all. */
  lemma {:induction false} YieldKeeps(s: State)
    requires Inv(s) && Enabled(s, Body) && s.mode[s.running] == Inside(CallYield) && s.q.CanYield()
    ensures Inv(Step(s, Body))
    ensures HandedOver(s, Step(s, Body)) && Step(s, Body).mode[s.running] == Suspended
  {
    YieldWaiting(s);
    SwitchShape(s.q);
    hide Waiting, YieldQ, VanishQ, Distinct;
    YieldHandsOver(s);
  }

  lemma {:induction false} YieldHandsOver(s: State)
    requires Waiting(s) && s.isLocked
    requires Enabled(s, Body) && s.mode[s.running] == Inside(CallYield) && s.q.CanYield()
    ensures HandedOver(s, Step(s, Body)) && Step(s, Body).mode[s.running] == Suspended
  {
    SwitchShape(s.q);
    hide YieldQ, VanishQ, Distinct;
    assert s.q.Fifo()[0] in s.q.Fifo();
  }

  lemma {:induction false} YieldWaiting(s: State)
    requires Waiting(s) && Enabled(s, Body) && s.mode[s.running] == Inside(CallYield) && s.q.CanYield()
    ensures Waiting(Step(s, Body))
  {
    SwitchShape(s.q);
    hide YieldQ, VanishQ, Distinct;
    TailDistinct(s.q.Fifo());
    AppendDistinct(s.q.Fifo()[1..], s.running);
  }

  lemma {:induction false} AppendDistinct(f: seq<Tid>, r: Tid)
    requires Distinct(f) && r !in f
    ensures Distinct(f + [r]) && forall x :: x in f + [r] <==> x in f || x == r
  {
  }

  /** A vanish hands the lock over too, and forgets the thread but not its holds. */
  lemma {:induction false} VanishKeeps(s: State)
    requires Inv(s) && Enabled(s, Body) && s.mode[s.running] == Inside(CallVanish)
    ensures Inv(Step(s, Body))
    ensures HandedOver(s, Step(s, Body)) && s.running !in Step(s, Body).mode
  {
    VanishWaiting(s);
    SwitchShape(s.q);
    hide Waiting, YieldQ, VanishQ, Distinct;
    assert |s.holds[s.running := 0]| == |s.holds| - s.holds[s.running];
    VanishHandsOver(s);
  }

  lemma {:induction false} VanishHandsOver(s: State)
    requires Waiting(s) && s.isLocked && Enabled(s, Body) && s.mode[s.running] == Inside(CallVanish)
    ensures HandedOver(s, Step(s, Body)) && s.running !in Step(s, Body).mode
  {
    SwitchShape(s.q);
    hide YieldQ, VanishQ, Distinct;
    assert s.q.Fifo()[0] in s.q.Fifo();
  }

  lemma {:induction false} VanishWaiting(s: State)
    requires Waiting(s) && Enabled(s, Body) && s.mode[s.running] == Inside(CallVanish)
    ensures Waiting(Step(s, Body))
  {
    SwitchShape(s.q);
    hide YieldQ, VanishQ, Distinct;
    TailDistinct(s.q.Fifo());
  }

  /** Taking a lock, or an interrupt: one hold more, interrupts off, nothing else. */
  lemma {:induction false} LockEffect(s: State, a: Act)
    requires Inv(s) && Enabled(s, a) && (a == Lock || a == Interrupt)
    ensures var p := Step(s, a);
            && p == s.(irq := Irq(s.irq.count + 1, false), holds := p.holds)
            && (forall t :: p.holds[t] == s.holds[t] + if t == s.running then 1 else 0)
  {
  }

  /** Giving it back: one hold less, and interrupts on exactly when none is left. */
  lemma {:induction false} UnlockEffect(s: State)
    requires Inv(s) && Enabled(s, Unlock)
    ensures var p := Step(s, Unlock);
            && p == s.(irq := Irq(s.irq.count - 1, s.irq.count == 1), holds := p.holds)
            && (forall t :: p.holds[t] == s.holds[t] - if t == s.running then 1 else 0)
            && (p.irq.interrupts <==> p.irq.count == 0)
  {
    LockKeeps(s, Unlock);
  }

  lemma {:induction false} TwoSteps(s: State, a: Act, b: Act)
    requires Enabled(s, a) && Enabled(Step(s, a), b)
    ensures EnabledRun(s, [a, b]) && Run(s, [a, b]) == Step(Step(s, a), b)
  {
    hide Step, Enabled;
    var p := Step(s, a);
    assert [a, b][1..] == [b] && [b][1..] == [];
    assert EnabledRun(Step(p, b), []) && EnabledRun(p, [b]);
    assert Run(p, [b]) == Step(p, b);
  }

  /** Whatever took it, giving a lock back restores the exact state. */
  lemma {:induction false} UnlockUndoesLock(s: State, a: Act)
    requires Inv(s) && Enabled(s, a) && (a == Lock || a == Interrupt)
    ensures EnabledRun(s, [a, Unlock]) && Run(s, [a, Unlock]) == s
  {
    LockKeeps(s, a);
    LockEffect(s, a);
    var p := Step(s, a);
    UnlockEffect(p);
    TwoSteps(s, a, Unlock);
    assert Step(p, Unlock).holds == s.holds;
    hide Step;
  }

  /** Entering a scheduler call: the scheduler lock is taken and counted. */
  lemma {:induction false} EnterEffect(s: State, call: Call)
    requires Inv(s) && Enabled(s, Enter(call))
    ensures Step(s, Enter(call)) == s.(irq := Irq(s.irq.count + 1, false), isLocked := true,
                                       mode := s.mode[s.running := Inside(call)])
  {
  }

  lemma {:induction false} LeaveEffect(s: State)
    requires Inv(s) && Enabled(s, Leave)
    ensures Step(s, Leave) == s.(irq := Irq(s.irq.count - 1, s.irq.count == 1), isLocked := false,
                                 mode := s.mode[s.running := Outside])
  {
  }

  /** A call that switches to nobody leaves the locks exactly as they were. It adds a
      thread that has not started, makes the running thread current, or does nothing. */
  lemma {:induction false} CallReturns(s: State, call: Call)
    requires Inv(s) && s.mode[s.running] == Outside && !call.CallVanish?
    requires call.CallAdd? ==> call.t !in s.mode
    requires call.CallBegin? ==> s.q.current == None
    requires call.CallYield? ==> !s.q.CanYield()
    ensures EnabledRun(s, [Enter(call), Body, Leave])
    ensures Run(s, [Enter(call), Body, Leave]) ==
            match call
            case CallAdd(t) =>
              s.(q := s.q.(runnable := s.q.runnable + [t]), mode := s.mode[t := NotStarted])
            case CallBegin => s.(q := s.q.(current := Some(s.running)))
            case _ => s
  {
    var p := Step(s, Enter(call));
    EnterLeaveKeep(s, Enter(call));
    EnterEffect(s, call);
    StepKeeps(p, Body);
    var r := Step(p, Body);
    assert r == p.(q := r.q, mode := r.mode) && r.mode[r.running] == Leaving;
    LeaveEffect(r);
    ThreeSteps(s, Enter(call), Body, Leave);
    ReturnedMode(s, call);
  }

  lemma {:induction false} ReturnedMode(s: State, call: Call)
    requires Inv(s) && s.mode[s.running] == Outside
    ensures s.mode[s.running := Inside(call)][s.running := Leaving][s.running := Outside] == s.mode
    ensures forall t: Tid :: t !in s.mode ==>
              s.mode[s.running := Inside(call)][t := NotStarted][s.running := Leaving][s.running := Outside] ==
              s.mode[t := NotStarted]
  {
  }

  /** A call that switches leaves the counter and the interrupt flag exactly as they
      were too, although another thread gives the lock back. */
  lemma {:induction false} SwitchReturns(s: State, call: Call)
    requires Inv(s) && s.mode[s.running] == Outside && s.q.CanYield() && (call.CallYield? || call.CallVanish?)
    requires call.CallVanish? ==> s.holds[s.running] == 0
    ensures EnabledRun(s, [Enter(call), Body, Leave])
    ensures var p := Run(s, [Enter(call), Body, Leave]);
            && p.irq == s.irq && p.isLocked == s.isLocked && p.holds == s.holds && p.leaked == s.leaked
            && p.running == s.q.Fifo()[0] && p.running in p.mode && p.mode[p.running] == Outside
            && p.q == if call.CallYield? then YieldQ(s.q) else VanishQ(s.q)
  {
    assert s.running in s.mode && !s.isLocked && (s.irq.interrupts <==> s.irq.count == 0);
    hide Step, YieldQ, VanishQ, Inv, Waiting, Counting;
    EnterLeaveKeep(s, Enter(call));
    EnterEffect(s, call);
    var e := Step(s, Enter(call));
    SwitchEffect(e);
    StepKeeps(e, Body);
    var r := Step(e, Body);
    LeaveEffect(r);
    assert call.CallVanish? ==> s.holds[s.running := 0] == s.holds;
    ThreeSteps(s, Enter(call), Body, Leave);
  }

  lemma {:induction false} SwitchEffect(e: State)
    requires e.running in e.mode && e.q.CanYield()
    requires e.mode[e.running] == Inside(CallYield) || e.mode[e.running] == Inside(CallVanish)
    ensures Enabled(e, Body)
    ensures var r, call := Step(e, Body), e.mode[e.running].call;
            && r.irq == e.irq && r.isLocked == e.isLocked
            && r.running == e.q.Fifo()[0] && r.running in r.mode && r.mode[r.running] == Leaving
            && (call == CallYield ==> r.q == YieldQ(e.q) && r.holds == e.holds && r.leaked == e.leaked)
            && (call == CallVanish ==>
                  && r.q == VanishQ(e.q) && r.holds == e.holds[e.running := 0]
                  && r.leaked == e.leaked + e.holds[e.running])
  {
    SwitchShape(e.q);
    hide YieldQ, VanishQ;
  }

  /** Every step keeps the invariant, although the scheduler lock changes hands. */
  lemma {:induction false} StepKeeps(s: State, a: Act)
    requires Inv(s) && Enabled(s, a)
    ensures Inv(Step(s, a))
  {
    hide Inv, Step;
    match a
    case Enter(call) => EnterLeaveKeep(s, a);
    case Leave => EnterLeaveKeep(s, a);
    case Body =>
      match s.mode[s.running].call {
        case CallAdd(t) => AddKeeps(s, t);
        case CallBegin => NoSwitchKeeps(s);
        case CallYield => if s.q.CanYield() { YieldKeeps(s); } else { NoSwitchKeeps(s); }
        case CallVanish => VanishKeeps(s);
      }
    case _ => LockKeeps(s, a);
  }

  ghost predicate EnabledRun(s: State, acts: seq<Act>)
    decreases |acts|
  {
    acts == [] || (Enabled(s, acts[0]) && EnabledRun(Step(s, acts[0]), acts[1..]))
  }

  ghost function Run(s: State, acts: seq<Act>): State
    requires EnabledRun(s, acts)
    decreases |acts|
  {
    if acts == [] then s else Run(Step(s, acts[0]), acts[1..])
  }

  lemma {:induction false} RunKeeps(s: State, acts: seq<Act>)
    requires Inv(s) && EnabledRun(s, acts)
    ensures Inv(Run(s, acts)) && Run(s, acts).leaked >= s.leaked
    decreases |acts|
  {
    hide Inv, Enabled;
    if acts == [] {
    } else {
      StepKeeps(s, acts[0]);
      RunKeeps(Step(s, acts[0]), acts[1..]);
    }
  }

  /** In every run from boot: the counter is the sum of what the threads hold, plus
      what vanished threads kept, plus one while the scheduler lock is taken;
      interrupts are off exactly when it is positive; and the scheduler lock is
      never found already taken. */
  lemma {:induction false} EveryRunCounts(boot: Tid, acts: seq<Act>)
    requires EnabledRun(Boot(boot), acts)
    ensures var s := Run(Boot(boot), acts);
            && s.irq.count == |s.holds| + s.leaked + (if s.isLocked then 1 else 0)
            && (s.irq.interrupts <==> s.irq.count == 0)
            && !s.assertFailed
            && s.running in s.mode && (s.isLocked <==> s.mode[s.running] != Outside)
            && (s.irq.interrupts ==> s.mode[s.running] == Outside)
  {
    assert Inv(Boot(boot));
    RunKeeps(Boot(boot), acts);
  }

  ghost predicate VanishesClean(s: State, a: Act) {
    a == Body && s.running in s.mode && s.mode[s.running] == Inside(CallVanish) ==> s.holds[s.running] == 0
  }

  /** A vanishing thread that holds a lock leaves interrupts off for good. */
  lemma {:induction false} LeakIsForever(s: State, acts: seq<Act>)
    requires Inv(s) && Enabled(s, Body) && s.mode[s.running] == Inside(CallVanish)
    requires EnabledRun(Step(s, Body), acts)
    ensures Step(s, Body).leaked == s.leaked <==> VanishesClean(s, Body)
    ensures !VanishesClean(s, Body) ==> !Run(Step(s, Body), acts).irq.interrupts
  {
    StepKeeps(s, Body);
    RunKeeps(Step(s, Body), acts);
  }

  ghost predicate CleanRun(s: State, acts: seq<Act>)
    requires EnabledRun(s, acts)
    decreases |acts|
  {
    acts == [] || (VanishesClean(s, acts[0]) && CleanRun(Step(s, acts[0]), acts[1..]))
  }

  lemma {:induction false} LeaksIff(s: State, acts: seq<Act>)
    requires Inv(s) && EnabledRun(s, acts)
    ensures Run(s, acts).leaked == s.leaked <==> CleanRun(s, acts)
    decreases |acts|
  {
    if acts == [] {
    } else {
      hide Inv, Step, Enabled, VanishesClean;
      var p := Step(s, acts[0]);
      StepKeeps(s, acts[0]);
      StepLeaks(s, acts[0]);
      RunKeeps(p, acts[1..]);
      LeaksIff(p, acts[1..]);
    }
  }

  lemma {:induction false} StepLeaks(s: State, a: Act)
    requires Enabled(s, a)
    ensures Step(s, a).leaked >= s.leaked
    ensures Step(s, a).leaked == s.leaked <==> VanishesClean(s, a)
  {
  }

  /** The counter is what live threads hold, plus one for the scheduler lock,
      exactly when every thread that vanished held nothing. */
  lemma {:induction false} CountsLiveHoldsIff(boot: Tid, acts: seq<Act>)
    requires EnabledRun(Boot(boot), acts)
    ensures var s := Run(Boot(boot), acts);
            s.irq.count == |s.holds| + (if s.isLocked then 1 else 0) <==> CleanRun(Boot(boot), acts)
  {
    assert Inv(Boot(boot));
    EveryRunCounts(boot, acts);
    LeaksIff(Boot(boot), acts);
  }

  lemma {:induction false} RunAppend(s: State, a: seq<Act>, b: seq<Act>)
    requires EnabledRun(s, a) && EnabledRun(Run(s, a), b)
    ensures EnabledRun(s, a + b) && Run(s, a + b) == Run(Run(s, a), b)
    ensures CleanRun(s, a + b) <==> CleanRun(s, a) && CleanRun(Run(s, a), b)
    decreases |a|
  {
    if a == [] {
      assert a + b == b;
    } else {
      hide Step, Enabled, VanishesClean;
      assert (a + b)[1..] == a[1..] + b;
      RunAppend(Step(s, a[0]), a[1..], b);
    }
  }

  const BEGUN := Boot(0).(q := Queues([], [], Some(0)))
  const ADDED := Boot(0).(q := Queues([1], [], Some(0)), mode := map[0 := Outside, 1 := NotStarted])

  lemma {:induction false} BeginRun()
    ensures EnabledRun(Boot(0), [Enter(CallBegin), Body, Leave])
    ensures Run(Boot(0), [Enter(CallBegin), Body, Leave]) == BEGUN
  {
    ThreeSteps(Boot(0), Enter(CallBegin), Body, Leave);
  }

  lemma {:induction false} AddRun()
    ensures EnabledRun(BEGUN, [Enter(CallAdd(1)), Body, Leave])
    ensures Run(BEGUN, [Enter(CallAdd(1)), Body, Leave]) == ADDED
  {
    ThreeSteps(BEGUN, Enter(CallAdd(1)), Body, Leave);
  }

  lemma {:induction false} LockedVanishRun()
    ensures EnabledRun(ADDED, [Lock, Enter(CallVanish), Body])
    ensures !CleanRun(ADDED, [Lock, Enter(CallVanish), Body])
    ensures var s := Run(ADDED, [Lock, Enter(CallVanish), Body]);
            s.irq.count == 2 && |s.holds| == 0
  {
    ThreeSteps(ADDED, Lock, Enter(CallVanish), Body);
  }

  lemma {:induction false} ThreeSteps(s: State, a: Act, b: Act, c: Act)
    requires Enabled(s, a) && Enabled(Step(s, a), b) && Enabled(Step(Step(s, a), b), c)
    ensures EnabledRun(s, [a, b, c]) && Run(s, [a, b, c]) == Step(Step(Step(s, a), b), c)
    ensures CleanRun(s, [a, b, c]) ==> VanishesClean(Step(Step(s, a), b), c)
  {
    hide Step, Enabled, VanishesClean;
    var p, q := Step(s, a), Step(Step(s, a), b);
    assert [a, b, c][1..] == [b, c] && [b, c][1..] == [c] && [c][1..] == [];
    assert EnabledRun(Step(q, c), []) && EnabledRun(q, [c]) && EnabledRun(p, [b, c]);
    assert Run(q, [c]) == Step(q, c) && Run(p, [b, c]) == Run(q, [c]);
    assert CleanRun(p, [b, c]) ==> CleanRun(q, [c]);
  }

  /** A run that is not clean: the boot thread starts scheduling, adds another, takes
      a lock and vanishes with it. Nobody holds a lock, and the counter says that
      one is held besides the scheduler's. */
  lemma {:induction false} VanishWithALock() returns (acts: seq<Act>)
    ensures EnabledRun(Boot(0), acts) && !CleanRun(Boot(0), acts)
    ensures Run(Boot(0), acts).irq.count == 2 && |Run(Boot(0), acts).holds| == 0
  {
    var begin, add := [Enter(CallBegin), Body, Leave], [Enter(CallAdd(1)), Body, Leave];
    var vanish := [Lock, Enter(CallVanish), Body];
    BeginRun();
    AddRun();
    LockedVanishRun();
    hide *;
    RunAppend(BEGUN, add, vanish);
    RunAppend(Boot(0), begin, add + vanish);
    acts := begin + (add + vanish);
  }
}

/** The one-time initialisation guard: `__cxa_guard_acquire`, `_release` and
    `_abort` run by any number of threads, one atomic memory access per step.

    Two machines are modelled. In the one-word layouts the lock bit and the
    initialised bit share a word; in the 32-bit layouts they are two words. */
module Guard {

  datatype Layout = Arm | Lp64Little | Lp64Big | Ilp32Little | Ilp32Big {
    function Locked(): nat {
      match this
      case Arm => 0x8000_0000
      case Lp64Little => 0x8000_0000_0000_0000
      case Lp64Big => 1
      case Ilp32Little => 0x8000_0000
      case Ilp32Big => 1
    }
    function Initialised(): nat {
      match this
      case Lp64Big => 0x100_0000_0000_0000
      case Ilp32Big => 0x100_0000
      case _ => 1
    }
  }

  const INITIAL: nat := 0

  type Tid = nat

  /** What a thread does next. */
  datatype Pc =
    | Idle                    // outside; may call acquire
    | Check                   // first read of the initialised word
    | Try                     // compare-and-swap in the retry loop
    | CheckRace               // split words: lock taken, read the initialised word
    | Unlock                  // split words: lost the race, clear the lock
    | Spin                    // split words: lock busy, read the initialised word
    | Returning(value: nat)   // acquire is about to return
    | Holding                 // acquire returned 1; may call release or abort
    | ClearLock               // split words: released, clear the lock
    | AssertFailed

  datatype Event = Returned(t: Tid, value: nat) | Released(t: Tid) | Aborted(t: Tid)

  /** One step of a schedule: which thread moves, and whether a holder that
      finishes releases (true) or aborts (false). */
  datatype Move = Move(t: Tid, release: bool)

  // ----------------------------------------------------------- one-word machine

  datatype One = One(word: nat, pc: map<Tid, Pc>, log: seq<Event>)

  function Go1(s: One, t: Tid, pc: Pc): One { s.(pc := s.pc[t := pc]) }

  function Step1(l: Layout, s: One, m: Move): One {
    var t := m.t;
    if t !in s.pc then s
    else match s.pc[t]
      case Idle => Go1(s, t, Check)
      case Check => if s.word == l.Initialised() then Go1(s, t, Returning(0)) else Go1(s, t, Try)
      case Try =>
        if s.word == INITIAL then Go1(s, t, Returning(1)).(word := l.Locked())
        else if s.word == l.Initialised() then Go1(s, t, Returning(0))
        else if s.word == l.Locked() then s
        else Go1(s, t, AssertFailed)
      case Returning(v) =>
        Go1(s, t, if v == 1 then Holding else Idle).(log := s.log + [Returned(t, v)])
      case Holding =>
        if s.word != l.Locked() then Go1(s, t, AssertFailed)
        else if m.release then Go1(s, t, Idle).(word := l.Initialised(), log := s.log + [Released(t)])
        else Go1(s, t, Idle).(word := INITIAL, log := s.log + [Aborted(t)])
      case _ => s
  }

  function Run1(l: Layout, s: One, ms: seq<Move>): One
    decreases |ms|
  {
    if ms == [] then s else Step1(l, Run1(l, s, ms[..|ms| - 1]), ms[|ms| - 1])
  }

  // --------------------------------------------------------- split-word machine

  datatype Two = Two(init: nat, lock: nat, pc: map<Tid, Pc>, log: seq<Event>)

  function Go2(s: Two, t: Tid, pc: Pc): Two { s.(pc := s.pc[t := pc]) }

  function Step2(l: Layout, s: Two, m: Move): Two {
    var t := m.t;
    if t !in s.pc then s
    else match s.pc[t]
      case Idle => Go2(s, t, Check)
      case Check => if s.init == l.Initialised() then Go2(s, t, Returning(0)) else Go2(s, t, Try)
      case Try =>
        if s.lock == INITIAL then Go2(s, t, CheckRace).(lock := l.Locked())
        else if s.lock == l.Locked() then Go2(s, t, Spin)
        else Go2(s, t, AssertFailed)
      case CheckRace => if s.init != l.Initialised() then Go2(s, t, Returning(1)) else Go2(s, t, Unlock)
      case Unlock => Go2(s, t, Returning(0)).(lock := INITIAL)
      case Spin => if s.init == l.Initialised() then Go2(s, t, Returning(0)) else Go2(s, t, Try)
      case Returning(v) =>
        Go2(s, t, if v == 1 then Holding else Idle).(log := s.log + [Returned(t, v)])
      case Holding =>
        if m.release then
          if s.init != INITIAL then Go2(s, t, AssertFailed)
          else Go2(s, t, ClearLock).(init := l.Initialised(), log := s.log + [Released(t)])
        else if s.lock != l.Locked() then Go2(s, t, AssertFailed)
        else Go2(s, t, Idle).(lock := INITIAL, log := s.log + [Aborted(t)])
      case ClearLock => Go2(s, t, Idle).(lock := INITIAL)
      case AssertFailed => s
  }

  function Run2(l: Layout, s: Two, ms: seq<Move>): Two
    decreases |ms|
  {
    if ms == [] then s else Step2(l, Run2(l, s, ms[..|ms| - 1]), ms[|ms| - 1])
  }

  // ------------------------------------------- the one-time construction promise

  /** What callers may observe: nobody is constructing, thread t is, or the object
      has been constructed. `Broken` is a history the promise rules out. */
  datatype Promise = Unconstructed | Constructing(t: Tid) | Constructed | Broken

  function Observe(p: Promise, e: Event): Promise {
    match (p, e)
    case (Unconstructed, Returned(t, v)) => if v == 1 then Constructing(t) else Broken
    case (Constructing(u), Released(t)) => if t == u then Constructed else Broken
    case (Constructing(u), Aborted(t)) => if t == u then Unconstructed else Broken
    case (Constructed, Returned(t, v)) => if v == 0 then Constructed else Broken
    case _ => Broken
  }

  function Replay(log: seq<Event>): Promise {
    if log == [] then Unconstructed else Observe(Replay(log[..|log| - 1]), log[|log| - 1])
  }

  lemma {:induction false} ReplayAppend(log: seq<Event>, e: Event)
    ensures Replay(log + [e]) == Observe(Replay(log), e)
  {
    assert (log + [e])[..|log|] == log;
  }

  // -------------------------------------------------- safety of the one-word guard

  predicate Owns1(p: Pc) { p == Returning(1) || p == Holding }

  ghost predicate Inv1(l: Layout, s: One) {
    && (s.word == INITIAL || s.word == l.Locked() || s.word == l.Initialised())
    && (forall t :: t in s.pc ==> s.pc[t] in {Idle, Check, Try, Returning(0), Returning(1), Holding})
    && (forall t :: t in s.pc && Owns1(s.pc[t]) ==> s.word == l.Locked())
    && (forall t, u :: t in s.pc && u in s.pc && Owns1(s.pc[t]) && Owns1(s.pc[u]) ==> t == u)
    && (forall t :: t in s.pc && s.pc[t] == Returning(0) ==> s.word == l.Initialised())
    && (s.word == l.Initialised() <==> Replay(s.log) == Constructed)
    && (forall t :: t in s.pc && s.pc[t] == Holding <==> Replay(s.log) == Constructing(t))
    && Replay(s.log) != Broken
  }

  function Start1(threads: set<Tid>): One { One(INITIAL, map t | t in threads :: Idle, []) }

  lemma {:induction false} Words(l: Layout)
    ensures l.Locked() != INITIAL && l.Initialised() != INITIAL && l.Locked() != l.Initialised()
  {
  }

  /** A thread that owns nothing moves without touching the word or the log. */
  lemma {:induction false} MoveInv(l: Layout, s: One, t: Tid, p: Pc)
    requires Inv1(l, s) && t in s.pc && !Owns1(s.pc[t]) && p in {Idle, Check, Try, Returning(0)}
    requires p == Returning(0) ==> s.word == l.Initialised()
    ensures Inv1(l, Go1(s, t, p))
  {
    hide Replay, Layout.Locked, Layout.Initialised;
  }

  lemma {:induction false} LockInv(l: Layout, s: One, t: Tid)
    requires Inv1(l, s) && t in s.pc && s.pc[t] == Try && s.word == INITIAL
    ensures Inv1(l, Go1(s, t, Returning(1)).(word := l.Locked()))
  {
    Words(l);
    hide Replay, Layout.Locked, Layout.Initialised;
  }

  lemma {:induction false} ReturnInv(l: Layout, s: One, t: Tid, v: nat)
    requires Inv1(l, s) && t in s.pc && s.pc[t] == Returning(v)
    ensures Inv1(l, Go1(s, t, if v == 1 then Holding else Idle).(log := s.log + [Returned(t, v)]))
  {
    Words(l);
    ReplayAppend(s.log, Returned(t, v));
    hide Replay, Layout.Locked, Layout.Initialised;
  }

  lemma {:induction false} FinishInv(l: Layout, s: One, t: Tid, release: bool)
    requires Inv1(l, s) && t in s.pc && s.pc[t] == Holding
    ensures release ==> Inv1(l, Go1(s, t, Idle).(word := l.Initialised(), log := s.log + [Released(t)]))
    ensures !release ==> Inv1(l, Go1(s, t, Idle).(word := INITIAL, log := s.log + [Aborted(t)]))
  {
    Words(l);
    ReplayAppend(s.log, Released(t));
    ReplayAppend(s.log, Aborted(t));
    hide Replay, Layout.Locked, Layout.Initialised;
  }

  lemma {:induction false} Step1Inv(l: Layout, s: One, m: Move)
    requires Inv1(l, s)
    ensures Inv1(l, Step1(l, s, m))
  {
    if m.t in s.pc {
      match s.pc[m.t]
      case Idle => MoveInv(l, s, m.t, Check);
      case Check =>
        MoveInv(l, s, m.t, if s.word == l.Initialised() then Returning(0) else Try);
      case Try =>
        if s.word == INITIAL { LockInv(l, s, m.t); }
        else if s.word == l.Initialised() { MoveInv(l, s, m.t, Returning(0)); }
      case Returning(v) => ReturnInv(l, s, m.t, v);
      case Holding => FinishInv(l, s, m.t, m.release);
      case _ =>
    }
  }

  lemma {:induction false} Run1Inv(l: Layout, threads: set<Tid>, ms: seq<Move>)
    ensures Inv1(l, Run1(l, Start1(threads), ms))
    decreases |ms|
  {
    if ms == [] {
    } else {
      Run1Inv(l, threads, ms[..|ms| - 1]);
      Step1Inv(l, Run1(l, Start1(threads), ms[..|ms| - 1]), ms[|ms| - 1]);
    }
  }

  // ------------------------------------- the split-word guard refines the one-word one

  /** A thread that holds the lock word. */
  predicate Owns2(p: Pc) { p == Returning(1) || p in {CheckRace, Unlock, Holding, ClearLock} }

  ghost predicate Inv2(l: Layout, s: Two) {
    && (s.init == INITIAL || s.init == l.Initialised())
    && (s.lock == INITIAL || s.lock == l.Locked())
    && (forall t :: t in s.pc ==> s.pc[t] != AssertFailed && (s.pc[t].Returning? ==> s.pc[t].value <= 1))
    && (forall t :: t in s.pc && Owns2(s.pc[t]) ==> s.lock == l.Locked())
    && (forall t, u :: t in s.pc && u in s.pc && Owns2(s.pc[t]) && Owns2(s.pc[u]) ==> t == u)
    && (forall t :: t in s.pc && s.pc[t] in {Unlock, ClearLock, Returning(0)} ==> s.init == l.Initialised())
    && (forall t :: t in s.pc && s.pc[t] in {Returning(1), Holding} ==> s.init == INITIAL)
  }

  function AbsPc(initialised: bool, p: Pc): Pc {
    match p
    case CheckRace => Returning(if initialised then 0 else 1)
    case Unlock => Returning(0)
    case Spin => Try
    case ClearLock => Idle
    case _ => p
  }

  function Abs(l: Layout, s: Two): One {
    One(if s.init == l.Initialised() then s.init else s.lock,
        map t | t in s.pc :: AbsPc(s.init == l.Initialised(), s.pc[t]),
        s.log)
  }

  /** A step of the split-word guard is a step of the one-word guard or invisible in it. */
  ghost predicate Simulated(l: Layout, s: Two, s': Two, m: Move) {
    Abs(l, s') == Abs(l, s) || Abs(l, s') == Step1(l, Abs(l, s), m)
  }

  lemma {:induction false} AbsGo(l: Layout, s: Two, t: Tid, p: Pc)
    requires t in s.pc
    ensures Abs(l, Go2(s, t, p)) == Go1(Abs(l, s), t, AbsPc(s.init == l.Initialised(), p))
    ensures Go1(Abs(l, s), t, AbsPc(s.init == l.Initialised(), s.pc[t])) == Abs(l, s)
  {
    hide Layout.Initialised;
  }

  /** Marking the object initialised moves no thread other than the releasing one. */
  lemma {:induction false} AbsRelease(l: Layout, s: Two, t: Tid)
    requires Inv2(l, s) && t in s.pc && s.pc[t] == Holding
    ensures Abs(l, Go2(s, t, ClearLock).(init := l.Initialised(), log := s.log + [Released(t)])) ==
            Go1(Abs(l, s), t, Idle).(word := l.Initialised(), log := s.log + [Released(t)])
  {
    Words(l);
    hide Layout.Locked, Layout.Initialised;
    var s' := Go2(s, t, ClearLock).(init := l.Initialised(), log := s.log + [Released(t)]);
    forall u | u in s.pc && u != t ensures AbsPc(true, s.pc[u]) == AbsPc(false, s.pc[u]) {
      assert Owns2(s.pc[t]);
    }
    assert Abs(l, s').pc == Go1(Abs(l, s), t, Idle).pc;
  }

  lemma {:induction false} Step2Inv(l: Layout, s: Two, m: Move)
    requires Inv2(l, s)
    ensures Inv2(l, Step2(l, s, m))
  {
    Words(l);
    hide Layout.Locked, Layout.Initialised;
    if m.t in s.pc && s.pc[m.t] in {Unlock, ClearLock, Holding} { FinishInv2(l, s, m); }
    else if m.t in s.pc && s.pc[m.t] in {Try, CheckRace} { RaceInv2(l, s, m); }
    else if m.t in s.pc { EnterInv2(l, s, m); }
  }

  lemma {:induction false} FinishInv2(l: Layout, s: Two, m: Move)
    requires Inv2(l, s) && m.t in s.pc && s.pc[m.t] in {Unlock, ClearLock, Holding}
    ensures Inv2(l, Step2(l, s, m))
  {
    Words(l);
    hide Layout.Locked, Layout.Initialised;
    assert Owns2(s.pc[m.t]);
  }

  lemma {:induction false} RaceInv2(l: Layout, s: Two, m: Move)
    requires Inv2(l, s) && m.t in s.pc && s.pc[m.t] in {Try, CheckRace}
    ensures Inv2(l, Step2(l, s, m))
  {
    Words(l);
    hide Layout.Locked, Layout.Initialised;
  }

  lemma {:induction false} EnterInv2(l: Layout, s: Two, m: Move)
    requires Inv2(l, s) && m.t in s.pc && s.pc[m.t] !in {Try, CheckRace, Unlock, ClearLock, Holding}
    ensures Inv2(l, Step2(l, s, m))
  {
    Words(l);
    var t := m.t;
    var p := Step2(l, s, m).pc[t];
    assert s.pc[t] != AssertFailed && (s.pc[t].Returning? ==> s.pc[t].value <= 1);
    assert s.pc[t] == Returning(1) ==> s.init == INITIAL;
    MoveInv2(l, s, t, p);
    hide Layout.Locked, Layout.Initialised;
    Inv2IgnoresLog(l, Go2(s, t, p), Step2(l, s, m));
  }

  /** A thread moves without writing either word. */
  lemma {:induction false} MoveInv2(l: Layout, s: Two, t: Tid, p: Pc)
    requires Inv2(l, s) && t in s.pc && p in {Idle, Check, Try, Holding, Returning(0)}
    requires p == Holding ==> s.pc[t] == Returning(1)
    requires p == Returning(0) ==> s.init == l.Initialised()
    ensures Inv2(l, Go2(s, t, p))
  {
    Words(l);
    hide Layout.Locked, Layout.Initialised;
  }

  lemma {:induction false} Inv2IgnoresLog(l: Layout, s: Two, s': Two)
    requires Inv2(l, s) && s' == s.(log := s'.log)
    ensures Inv2(l, s')
  {
    hide Layout.Locked, Layout.Initialised;
  }

  lemma {:induction false} HoldingSimulates(l: Layout, s: Two, m: Move)
    requires Inv2(l, s) && m.t in s.pc && s.pc[m.t] == Holding
    ensures Simulated(l, s, Step2(l, s, m), m)
  {
    Words(l);
    hide Layout.Locked, Layout.Initialised;
    AbsRelease(l, s, m.t);
    AbsGo(l, s, m.t, Idle);
    assert Owns2(s.pc[m.t]);
  }

  lemma {:induction false} QuietSimulates(l: Layout, s: Two, m: Move)
    requires Inv2(l, s) && m.t in s.pc && s.pc[m.t] in {Idle, Check, Spin, CheckRace}
    ensures Simulated(l, s, Step2(l, s, m), m)
  {
    Words(l);
    hide Layout.Locked, Layout.Initialised;
    AbsGo(l, s, m.t, Step2(l, s, m).pc[m.t]);
  }

  lemma {:induction false} WritingSimulates(l: Layout, s: Two, m: Move)
    requires Inv2(l, s) && m.t in s.pc && s.pc[m.t] !in {Idle, Check, Spin, CheckRace, Holding}
    ensures Simulated(l, s, Step2(l, s, m), m)
  {
    Words(l);
    hide Layout.Locked, Layout.Initialised;
    AbsGo(l, s, m.t, Step2(l, s, m).pc[m.t]);
  }

  lemma {:induction false} Step2Simulates(l: Layout, s: Two, m: Move)
    requires Inv2(l, s)
    ensures Simulated(l, s, Step2(l, s, m), m)
  {
    hide Inv2, Simulated;
    if m.t !in s.pc { NoSuchThread(l, s, m); }
    else if s.pc[m.t] == Holding { HoldingSimulates(l, s, m); }
    else if s.pc[m.t] in {Idle, Check, Spin, CheckRace} { QuietSimulates(l, s, m); }
    else { WritingSimulates(l, s, m); }
  }

  lemma {:induction false} NoSuchThread(l: Layout, s: Two, m: Move)
    requires m.t !in s.pc
    ensures Simulated(l, s, Step2(l, s, m), m)
  {
  }

  lemma {:induction false} Run2Inv(l: Layout, threads: set<Tid>, ms: seq<Move>)
    ensures Inv2(l, Run2(l, Start2(threads), ms))
    decreases |ms|
  {
    if ms == [] {
    } else {
      Run2Inv(l, threads, ms[..|ms| - 1]);
      Step2Inv(l, Run2(l, Start2(threads), ms[..|ms| - 1]), ms[|ms| - 1]);
    }
  }

  function Start2(threads: set<Tid>): Two { Two(INITIAL, INITIAL, map t | t in threads :: Idle, []) }

  /** Every run of the split-word guard is, seen through the abstraction, a run of
      the one-word guard with the same history. */
  lemma {:induction false} SplitRefinesOneWord(l: Layout, threads: set<Tid>, ms: seq<Move>) returns (ms1: seq<Move>)
    ensures Abs(l, Run2(l, Start2(threads), ms)) == Run1(l, Start1(threads), ms1)
    ensures Run2(l, Start2(threads), ms).log == Run1(l, Start1(threads), ms1).log
    decreases |ms|
  {
    if ms == [] {
      ms1 := [];
      Words(l);
      assert Abs(l, Start2(threads)).pc == Start1(threads).pc;
    } else {
      hide Step1, Step2, Abs, Start1, Start2;
      var before, m := ms[..|ms| - 1], ms[|ms| - 1];
      ms1 := SplitRefinesOneWord(l, threads, before);
      var s := Run2(l, Start2(threads), before);
      Run2Inv(l, threads, before);
      Step2Simulates(l, s, m);
      if Abs(l, Step2(l, s, m)) != Abs(l, s) {
        assert (ms1 + [m])[..|ms1|] == ms1;
        ms1 := ms1 + [m];
      }
      AbsLog(l, Step2(l, s, m));
    }
  }

  lemma {:induction false} AbsLog(l: Layout, s: Two)
    ensures Abs(l, s).log == s.log
  {
  }

  // ---------------------------------------------------------------- main results

  /** Construction happens at most once at a time, at most one release happens,
      acquire answers 0 only after it and 1 only before it. */
  ghost predicate OneTime(log: seq<Event>) {
    && (forall i, j :: 0 <= i < j < |log| ==> !(log[i].Released? && log[j].Released?))
    && (forall i :: 0 <= i < |log| && log[i].Returned? && log[i].value == 0 ==>
          exists j :: 0 <= j < i && log[j].Released?)
    && (forall i, j :: 0 <= i < j < |log| && log[i].Released? && log[j].Returned? ==> log[j].value == 0)
    && (forall i, j :: 0 <= i < j < |log| && log[i].Returned? && log[j].Returned?
                       && log[i].value == log[j].value == 1 ==>
          exists k :: i < k < j && log[k] == Aborted(log[i].t))
  }

  /** What each verdict of the replay says about the history. */
  ghost predicate Summary(log: seq<Event>, p: Promise) {
    match p
    case Unconstructed =>
      && (forall i :: 0 <= i < |log| ==> !log[i].Released?)
      && (forall i :: 0 <= i < |log| && log[i].Returned? && log[i].value == 1 ==>
            exists k :: i < k < |log| && log[k] == Aborted(log[i].t))
    case Constructing(t) =>
      && (forall i :: 0 <= i < |log| ==> !log[i].Released?)
      && |log| > 0 && log[|log| - 1] == Returned(t, 1)
      && (forall i :: 0 <= i < |log| - 1 && log[i].Returned? && log[i].value == 1 ==>
            exists k :: i < k < |log| && log[k] == Aborted(log[i].t))
    case Constructed => exists i :: 0 <= i < |log| && log[i].Released?
    case Broken => false
  }

  lemma {:induction false} PromiseIsOneTime(log: seq<Event>)
    requires Replay(log) != Broken
    ensures OneTime(log) && Summary(log, Replay(log))
    decreases |log|
  {
    if log == [] {
    } else {
      var before := log[..|log| - 1];
      PromiseIsOneTime(before);
      assert log == before + [log[|log| - 1]];
      ReplayAppend(before, log[|log| - 1]);
      OneTimeStep(before, log[|log| - 1]);
      SummaryStep(before, log[|log| - 1]);
    }
  }

  lemma {:induction false} OneTimeStep(log: seq<Event>, e: Event)
    requires OneTime(log) && Summary(log, Replay(log)) && Observe(Replay(log), e) != Broken
    ensures OneTime(log + [e])
  {
    hide Replay;
    var log' := log + [e];
    assert forall i :: 0 <= i < |log| ==> log'[i] == log[i];
    if e.Returned? && e.value == 0 {
      var j :| 0 <= j < |log| && log[j].Released?;
      assert log'[j].Released?;
    }
    forall i, j | 0 <= i < j < |log'| && log'[i].Returned? && log'[j].Returned? && log'[i].value == log'[j].value == 1
      ensures exists k :: i < k < j && log'[k] == Aborted(log'[i].t)
    {
      var k :| i < k < j && log[k] == Aborted(log[i].t);
      assert log'[k] == Aborted(log'[i].t);
    }
    forall i | 0 <= i < |log| && log'[i].Returned? && log'[i].value == 0
      ensures exists j :: 0 <= j < i && log'[j].Released?
    {
      var j :| 0 <= j < i && log[j].Released?;
      assert log'[j].Released?;
    }
  }

  lemma {:induction false} SummaryStep(log: seq<Event>, e: Event)
    requires Summary(log, Replay(log)) && Observe(Replay(log), e) != Broken
    ensures Summary(log + [e], Observe(Replay(log), e))
  {
    hide Replay;
    var log' := log + [e];
    assert forall i :: 0 <= i < |log| ==> log'[i] == log[i];
    assert log'[|log|] == e;
    forall i | 0 <= i < |log| && log[i].Returned? && log[i].value == 1
               && exists k :: i < k < |log| && log[k] == Aborted(log[i].t)
      ensures exists k :: i < k < |log| && log'[k] == Aborted(log'[i].t)
    {
      var k :| i < k < |log| && log[k] == Aborted(log[i].t);
      assert log'[k] == Aborted(log'[i].t);
    }
    if Replay(log) == Constructed {
      var i :| 0 <= i < |log| && log[i].Released?;
      assert log'[i].Released?;
    }
  }

  /** The one-word guard, in every run of any threads: no assertion fails, at most
      one thread is between a grant and its release or abort, and the history is
      one-time construction. */
  lemma {:induction false} OneWordGuardIsSafe(l: Layout, threads: set<Tid>, ms: seq<Move>)
    ensures var s := Run1(l, Start1(threads), ms);
            && OneTime(s.log)
            && (forall t :: t in s.pc ==> s.pc[t] != AssertFailed)
            && (forall t, u :: t in s.pc && u in s.pc && s.pc[t] == s.pc[u] == Holding ==> t == u)
  {
    Run1Inv(l, threads, ms);
    PromiseIsOneTime(Run1(l, Start1(threads), ms).log);
  }

  /** The same for the split-word guard, by refinement. A release is in the history
      from its first write, of the initialised word, on; an acquire may answer 0
      between that write and the one that clears the lock word. */
  lemma {:induction false} SplitWordGuardIsSafe(l: Layout, threads: set<Tid>, ms: seq<Move>)
    ensures var s := Run2(l, Start2(threads), ms);
            && OneTime(s.log)
            && (forall t :: t in s.pc ==> s.pc[t] != AssertFailed)
            && (forall t, u :: t in s.pc && u in s.pc && s.pc[t] == s.pc[u] == Holding ==> t == u)
  {
    Run2Inv(l, threads, ms);
    var ms1 := SplitRefinesOneWord(l, threads, ms);
    OneWordGuardIsSafe(l, threads, ms1);
  }
}

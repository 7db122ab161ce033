/** What a caller of the guard gets: a release is final, an abort reopens the guard,
    and a thread that runs alone through acquire is always answered. */
module GuardCalls {
  import opened Guard

  /** One thread moves n times; nobody else does. */
  function Alone(u: Tid, n: nat): seq<Move> { seq(n, _ => Move(u, true)) }

  ghost predicate AnyReleased(log: seq<Event>) { exists i :: 0 <= i < |log| && log[i].Released? }

  // ----------------------------------------------------------------- one word

  lemma {:induction false} Run1Append(l: Layout, s: One, a: seq<Move>, b: seq<Move>)
    ensures Run1(l, s, a + b) == Run1(l, Run1(l, s, a), b)
    decreases |b|
  {
    if b == [] {
      assert a + b == a;
    } else {
      hide Step1;
      assert (a + b)[..|a + b| - 1] == a + b[..|b| - 1];
      Run1Append(l, s, a, b[..|b| - 1]);
    }
  }

  lemma {:induction false} Run1First(l: Layout, s: One, m: Move, ms: seq<Move>)
    ensures Run1(l, s, [m] + ms) == Run1(l, Step1(l, s, m), ms)
  {
    hide Step1;
    Run1Append(l, s, [m], ms);
    assert [m][..0] == [];
  }

  /** Events are never taken back, and an initialised word stays so. */
  lemma {:induction false} Run1Keeps(l: Layout, s: One, ms: seq<Move>)
    requires Inv1(l, s)
    ensures Inv1(l, Run1(l, s, ms)) && s.log <= Run1(l, s, ms).log
    ensures s.word == l.Initialised() ==> Run1(l, s, ms).word == l.Initialised()
    decreases |ms|
  {
    if ms == [] {
    } else {
      var before, m := ms[..|ms| - 1], ms[|ms| - 1];
      Run1Keeps(l, s, before);
      Step1Inv(l, Run1(l, s, before), m);
      Step1Keeps(l, Run1(l, s, before), m);
      hide Step1, Inv1;
    }
  }

  lemma {:induction false} Step1Keeps(l: Layout, s: One, m: Move)
    requires Inv1(l, s)
    ensures s.log <= Step1(l, s, m).log
    ensures s.word == l.Initialised() ==> Step1(l, s, m).word == l.Initialised()
  {
    Words(l);
    hide Replay, Layout.Locked, Layout.Initialised;
  }

  /** Once a holder has released, no acquire in any continuation answers 1. */
  lemma {:induction false} ReleaseIsFinal(l: Layout, threads: set<Tid>, ms: seq<Move>, t: Tid, more: seq<Move>)
    requires t in Run1(l, Start1(threads), ms).pc
    requires Run1(l, Start1(threads), ms).pc[t] == Holding
    ensures var s, a := Run1(l, Start1(threads), ms), Run1(l, Start1(threads), ms + [Move(t, true)]);
            var z := Run1(l, Start1(threads), ms + [Move(t, true)] + more);
            && a.log == s.log + [Released(t)] && a.log <= z.log
            && (forall i :: |a.log| <= i < |z.log| && z.log[i].Returned? ==> z.log[i].value == 0)
            && (forall u :: u in z.pc ==> z.pc[u] != Holding)
  {
    var start := Start1(threads);
    var s := Run1(l, start, ms);
    var a := Step1(l, s, Move(t, true));
    Run1Inv(l, threads, ms);
    Holder1(l, s, t);
    Step1Inv(l, s, Move(t, true));
    assert (ms + [Move(t, true)])[..|ms|] == ms;
    Run1Append(l, start, ms + [Move(t, true)], more);
    Run1Keeps(l, a, more);
    OneWordGuardIsSafe(l, threads, ms + [Move(t, true)] + more);
    var z := Run1(l, a, more);
    assert z.log[|s.log|] == Released(t);
    Words(l);
    hide Step1, Start1;
  }

  /** What a holder's release and abort do. */
  lemma {:induction false} Holder1(l: Layout, s: One, t: Tid)
    requires Inv1(l, s) && t in s.pc && s.pc[t] == Holding
    ensures var r := Step1(l, s, Move(t, true));
            r.word == l.Initialised() && r.pc == s.pc[t := Idle] && r.log == s.log + [Released(t)]
    ensures var r := Step1(l, s, Move(t, false));
            r.word == INITIAL && r.pc == s.pc[t := Idle] && r.log == s.log + [Aborted(t)]
  {
    assert Owns1(s.pc[t]);
    hide Replay, Layout.Locked, Layout.Initialised;
  }

  /** How far a thread is from its answer. */
  function Left1(p: Pc): nat { match p case Idle => 3 case Check => 2 case Try => 1 case _ => 0 }

  /** The guard is not held, or it is this thread that is about to get it. */
  predicate Ready1(l: Layout, s: One, u: Tid) {
    u in s.pc && (s.pc[u] == Returning(1) || (s.word != l.Locked() && s.pc[u] != Holding))
  }

  function Answer1(s: One, u: Tid): nat
    requires u in s.pc
  {
    if s.pc[u].Returning? then s.pc[u].value else if s.word == INITIAL then 1 else 0
  }

  lemma {:induction false} ReadyStep1(l: Layout, s: One, u: Tid)
    requires Inv1(l, s) && Ready1(l, s, u) && !s.pc[u].Returning?
    ensures var r := Step1(l, s, Move(u, true));
            && Ready1(l, r, u) && Left1(r.pc[u]) < Left1(s.pc[u]) && Answer1(r, u) == Answer1(s, u)
            && r.log == s.log
  {
    Words(l);
    hide Replay, Layout.Locked, Layout.Initialised;
  }

  /** A thread that runs alone through acquire is answered within four steps. */
  lemma {:induction false} AloneIsAnswered1(l: Layout, s: One, u: Tid) returns (n: nat)
    requires Inv1(l, s) && Ready1(l, s, u)
    ensures n <= Left1(s.pc[u]) + 1
    ensures var z := Run1(l, s, Alone(u, n));
            && z.log == s.log + [Returned(u, Answer1(s, u))]
            && u in z.pc && z.pc[u] == if Answer1(s, u) == 1 then Holding else Idle
    decreases Left1(s.pc[u])
  {
    var r := Step1(l, s, Move(u, true));
    if s.pc[u].Returning? {
      n := 1;
      assert Alone(u, 1) == [Move(u, true)] + [];
      Run1First(l, s, Move(u, true), []);
    } else {
      ReadyStep1(l, s, u);
      Step1Inv(l, s, Move(u, true));
      hide Step1, Inv1, Ready1, Answer1;
      n := AloneIsAnswered1(l, r, u);
      assert Alone(u, n + 1) == [Move(u, true)] + Alone(u, n);
      Run1First(l, s, Move(u, true), Alone(u, n));
      n := n + 1;
    }
  }

  /** Once a holder has aborted, the next thread that runs alone through acquire is
      answered 1. */
  lemma {:induction false} AbortReopens(l: Layout, threads: set<Tid>, ms: seq<Move>, t: Tid, u: Tid)
    returns (n: nat)
    requires t in Run1(l, Start1(threads), ms).pc && u in Run1(l, Start1(threads), ms).pc
    requires Run1(l, Start1(threads), ms).pc[t] == Holding
    ensures var s := Run1(l, Start1(threads), ms);
            var z := Run1(l, Start1(threads), ms + [Move(t, false)] + Alone(u, n));
            && n <= 4 && z.log == s.log + [Aborted(t), Returned(u, 1)]
            && u in z.pc && z.pc[u] == Holding
  {
    hide Step1, Inv1, Ready1, Answer1, Start1;
    var start := Start1(threads);
    var s := Run1(l, start, ms);
    Run1Inv(l, threads, ms);
    Aborted1(l, s, t, u);
    n := AloneIsAnswered1(l, Step1(l, s, Move(t, false)), u);
    assert (ms + [Move(t, false)])[..|ms|] == ms;
    Run1Append(l, start, ms + [Move(t, false)], Alone(u, n));
  }

  lemma {:induction false} Aborted1(l: Layout, s: One, t: Tid, u: Tid)
    requires Inv1(l, s) && t in s.pc && s.pc[t] == Holding && u in s.pc
    ensures var a := Step1(l, s, Move(t, false));
            && Inv1(l, a) && Ready1(l, a, u) && Answer1(a, u) == 1 && a.log == s.log + [Aborted(t)]
            && Left1(a.pc[u]) <= 3
  {
    Holder1(l, s, t);
    Step1Inv(l, s, Move(t, false));
    Words(l);
    hide Step1;
  }

  /** The word says locked only while some thread owns the guard. */
  lemma {:induction false} LockedIsOwned1(l: Layout, threads: set<Tid>, ms: seq<Move>)
    ensures var s := Run1(l, Start1(threads), ms);
            s.word == l.Locked() ==> exists t :: t in s.pc && Owns1(s.pc[t])
    decreases |ms|
  {
    Words(l);
    if ms == [] {
    } else {
      var before, m := ms[..|ms| - 1], ms[|ms| - 1];
      LockedIsOwned1(l, threads, before);
      Run1Inv(l, threads, before);
      OwnedStep1(l, Run1(l, Start1(threads), before), m);
      hide Step1, Inv1;
    }
  }

  lemma {:induction false} OwnedStep1(l: Layout, s: One, m: Move)
    requires Inv1(l, s) && (s.word == l.Locked() ==> exists t :: t in s.pc && Owns1(s.pc[t]))
    ensures var r := Step1(l, s, m);
            r.word == l.Locked() ==> exists t :: t in r.pc && Owns1(r.pc[t])
  {
    Words(l);
    hide Replay, Layout.Locked, Layout.Initialised;
    var r := Step1(l, s, m);
    if r.word == l.Locked() {
      if s.word == l.Locked() {
        var t :| t in s.pc && Owns1(s.pc[t]);
        assert t in r.pc && Owns1(r.pc[t]);
      } else {
        assert m.t in r.pc && Owns1(r.pc[m.t]);
      }
    }
  }

  /** In every reachable state in which nobody owns the guard, a thread that runs alone
      through acquire is answered: 0 if there was a release, and 1 if not. */
  lemma {:induction false} NeverStuck(l: Layout, threads: set<Tid>, ms: seq<Move>, u: Tid) returns (n: nat)
    requires u in Run1(l, Start1(threads), ms).pc
    requires forall t :: t in Run1(l, Start1(threads), ms).pc ==> !Owns1(Run1(l, Start1(threads), ms).pc[t])
    ensures var s, z := Run1(l, Start1(threads), ms), Run1(l, Start1(threads), ms + Alone(u, n));
            n <= 4 && z.log == s.log + [Returned(u, if AnyReleased(s.log) then 0 else 1)]
  {
    var s := Run1(l, Start1(threads), ms);
    Run1Inv(l, threads, ms);
    LockedIsOwned1(l, threads, ms);
    ReleasedMeans(s.log);
    Words(l);
    assert Ready1(l, s, u) && Answer1(s, u) == if AnyReleased(s.log) then 0 else 1;
    hide Inv1, Ready1, Answer1, Start1;
    n := AloneIsAnswered1(l, s, u);
    Run1Append(l, Start1(threads), ms, Alone(u, n));
  }

  lemma {:induction false} ReleasedMeans(log: seq<Event>)
    requires Replay(log) != Broken
    ensures AnyReleased(log) <==> Replay(log) == Constructed
  {
    PromiseIsOneTime(log);
    hide Replay;
  }

  // ---------------------------------------------------------------- two words

  lemma {:induction false} Run2Append(l: Layout, s: Two, a: seq<Move>, b: seq<Move>)
    ensures Run2(l, s, a + b) == Run2(l, Run2(l, s, a), b)
    decreases |b|
  {
    if b == [] {
      assert a + b == a;
    } else {
      hide Step2;
      assert (a + b)[..|a + b| - 1] == a + b[..|b| - 1];
      Run2Append(l, s, a, b[..|b| - 1]);
    }
  }

  lemma {:induction false} Run2First(l: Layout, s: Two, m: Move, ms: seq<Move>)
    ensures Run2(l, s, [m] + ms) == Run2(l, Step2(l, s, m), ms)
  {
    hide Step2;
    Run2Append(l, s, [m], ms);
    assert [m][..0] == [];
  }

  lemma {:induction false} Run2Keeps(l: Layout, s: Two, ms: seq<Move>)
    requires Inv2(l, s)
    ensures Inv2(l, Run2(l, s, ms)) && s.log <= Run2(l, s, ms).log
    ensures s.init == l.Initialised() ==> Run2(l, s, ms).init == l.Initialised()
    decreases |ms|
  {
    if ms == [] {
    } else {
      var before, m := ms[..|ms| - 1], ms[|ms| - 1];
      Run2Keeps(l, s, before);
      Step2Inv(l, Run2(l, s, before), m);
      Step2Keeps(l, Run2(l, s, before), m);
      hide Step2, Inv2;
    }
  }

  lemma {:induction false} Step2Keeps(l: Layout, s: Two, m: Move)
    ensures s.log <= Step2(l, s, m).log
    ensures s.init == l.Initialised() ==> Step2(l, s, m).init == l.Initialised()
  {
    hide Layout.Locked, Layout.Initialised;
  }

  lemma {:induction false} Holder2(l: Layout, s: Two, t: Tid)
    requires Inv2(l, s) && t in s.pc && s.pc[t] == Holding
    ensures var r := Step2(l, s, Move(t, true));
            r.init == l.Initialised() && r.pc == s.pc[t := ClearLock] && r.log == s.log + [Released(t)]
    ensures var r := Step2(l, s, Move(t, false));
            && r.init == INITIAL && r.lock == INITIAL && r.pc == s.pc[t := Idle]
            && r.log == s.log + [Aborted(t)]
  {
    assert Owns2(s.pc[t]);
    hide Layout.Locked, Layout.Initialised;
  }

  /** The same two promises with separate words. */
  lemma {:induction false} SplitReleaseIsFinal(l: Layout, threads: set<Tid>, ms: seq<Move>, t: Tid, more: seq<Move>)
    requires t in Run2(l, Start2(threads), ms).pc
    requires Run2(l, Start2(threads), ms).pc[t] == Holding
    ensures var s, a := Run2(l, Start2(threads), ms), Run2(l, Start2(threads), ms + [Move(t, true)]);
            var z := Run2(l, Start2(threads), ms + [Move(t, true)] + more);
            && a.log == s.log + [Released(t)] && a.log <= z.log
            && (forall i :: |a.log| <= i < |z.log| && z.log[i].Returned? ==> z.log[i].value == 0)
            && (forall u :: u in z.pc ==> z.pc[u] != Holding)
  {
    var start := Start2(threads);
    var s := Run2(l, start, ms);
    var a := Step2(l, s, Move(t, true));
    Run2Inv(l, threads, ms);
    Holder2(l, s, t);
    Step2Inv(l, s, Move(t, true));
    assert (ms + [Move(t, true)])[..|ms|] == ms;
    Run2Append(l, start, ms + [Move(t, true)], more);
    Run2Keeps(l, a, more);
    SplitWordGuardIsSafe(l, threads, ms + [Move(t, true)] + more);
    var z := Run2(l, a, more);
    assert z.log[|s.log|] == Released(t);
    Words(l);
    hide Step2, Start2;
  }

  function Left2(initialised: bool, p: Pc): nat {
    match p
    case Idle => 5
    case Check => if initialised then 1 else 4
    case Spin => if initialised then 1 else 4
    case Try => 3
    case CheckRace => 2
    case Unlock => 1
    case _ => 0
  }

  /** The lock word is free, or this thread has it on its way through acquire, or the
      object is initialised. */
  predicate Ready2(l: Layout, s: Two, u: Tid) {
    && u in s.pc && s.pc[u] != Holding && s.pc[u] != ClearLock
    && (s.lock == INITIAL || s.init == l.Initialised() || Owns2(s.pc[u]))
  }

  function Answer2(l: Layout, s: Two, u: Tid): nat
    requires u in s.pc
  {
    if s.pc[u].Returning? then s.pc[u].value else if s.init == l.Initialised() then 0 else 1
  }

  lemma {:induction false} ReadyStep2(l: Layout, s: Two, u: Tid)
    requires Inv2(l, s) && Ready2(l, s, u) && !s.pc[u].Returning?
    ensures var r := Step2(l, s, Move(u, true));
            && Ready2(l, r, u) && r.init == s.init && r.log == s.log
            && Left2(r.init == l.Initialised(), r.pc[u]) < Left2(s.init == l.Initialised(), s.pc[u])
            && Answer2(l, r, u) == Answer2(l, s, u)
  {
    Words(l);
    hide Layout.Locked, Layout.Initialised;
  }

  lemma {:induction false} AloneIsAnswered2(l: Layout, s: Two, u: Tid) returns (n: nat)
    requires Inv2(l, s) && Ready2(l, s, u)
    ensures n <= Left2(s.init == l.Initialised(), s.pc[u]) + 1
    ensures var z := Run2(l, s, Alone(u, n));
            && z.log == s.log + [Returned(u, Answer2(l, s, u))]
            && u in z.pc && z.pc[u] == if Answer2(l, s, u) == 1 then Holding else Idle
    decreases Left2(s.init == l.Initialised(), s.pc[u])
  {
    var r := Step2(l, s, Move(u, true));
    if s.pc[u].Returning? {
      n := 1;
      assert Alone(u, 1) == [Move(u, true)] + [];
      Run2First(l, s, Move(u, true), []);
    } else {
      ReadyStep2(l, s, u);
      Step2Inv(l, s, Move(u, true));
      hide Step2, Inv2, Ready2, Answer2;
      n := AloneIsAnswered2(l, r, u);
      assert Alone(u, n + 1) == [Move(u, true)] + Alone(u, n);
      Run2First(l, s, Move(u, true), Alone(u, n));
      n := n + 1;
    }
  }

  lemma {:induction false} SplitAbortReopens(l: Layout, threads: set<Tid>, ms: seq<Move>, t: Tid, u: Tid)
    returns (n: nat)
    requires t in Run2(l, Start2(threads), ms).pc && u in Run2(l, Start2(threads), ms).pc
    requires Run2(l, Start2(threads), ms).pc[t] == Holding
    ensures var s := Run2(l, Start2(threads), ms);
            var z := Run2(l, Start2(threads), ms + [Move(t, false)] + Alone(u, n));
            && n <= 6 && z.log == s.log + [Aborted(t), Returned(u, 1)]
            && u in z.pc && z.pc[u] == Holding
  {
    hide Step2, Inv2, Ready2, Answer2, Start2;
    var start := Start2(threads);
    var s := Run2(l, start, ms);
    Run2Inv(l, threads, ms);
    Aborted2(l, s, t, u);
    n := AloneIsAnswered2(l, Step2(l, s, Move(t, false)), u);
    assert (ms + [Move(t, false)])[..|ms|] == ms;
    Run2Append(l, start, ms + [Move(t, false)], Alone(u, n));
  }

  lemma {:induction false} Aborted2(l: Layout, s: Two, t: Tid, u: Tid)
    requires Inv2(l, s) && t in s.pc && s.pc[t] == Holding && u in s.pc
    ensures var a := Step2(l, s, Move(t, false));
            && Inv2(l, a) && Ready2(l, a, u) && Answer2(l, a, u) == 1 && a.log == s.log + [Aborted(t)]
            && Left2(a.init == l.Initialised(), a.pc[u]) <= 5
  {
    Holder2(l, s, t);
    Step2Inv(l, s, Move(t, false));
    Words(l);
    NobodyElse(l, s, t, u);
    hide Step2, Inv2;
  }

  lemma {:induction false} NobodyElse(l: Layout, s: Two, t: Tid, u: Tid)
    requires Inv2(l, s) && t in s.pc && s.pc[t] == Holding && u in s.pc
    ensures u == t || (!Owns2(s.pc[u]) && s.pc[u] != Returning(0))
    ensures s.pc[u].Returning? ==> s.pc[u].value <= 1
  {
    Words(l);
    assert Owns2(s.pc[t]);
  }

  lemma {:induction false} LockedIsOwned2(l: Layout, threads: set<Tid>, ms: seq<Move>)
    ensures var s := Run2(l, Start2(threads), ms);
            s.lock == l.Locked() ==> exists t :: t in s.pc && Owns2(s.pc[t])
    decreases |ms|
  {
    Words(l);
    if ms == [] {
    } else {
      var before, m := ms[..|ms| - 1], ms[|ms| - 1];
      LockedIsOwned2(l, threads, before);
      Run2Inv(l, threads, before);
      OwnedStep2(l, Run2(l, Start2(threads), before), m);
      hide Step2, Inv2;
    }
  }

  lemma {:induction false} OwnedStep2(l: Layout, s: Two, m: Move)
    requires Inv2(l, s) && (s.lock == l.Locked() ==> exists t :: t in s.pc && Owns2(s.pc[t]))
    ensures var r := Step2(l, s, m);
            r.lock == l.Locked() ==> exists t :: t in r.pc && Owns2(r.pc[t])
  {
    Words(l);
    hide Layout.Locked, Layout.Initialised;
    var r := Step2(l, s, m);
    if r.lock == l.Locked() {
      if s.lock == l.Locked() {
        var t :| t in s.pc && Owns2(s.pc[t]);
        assert t in r.pc && Owns2(r.pc[t]);
      } else {
        assert m.t in r.pc && Owns2(r.pc[m.t]);
      }
    }
  }

  lemma {:induction false} SplitNeverStuck(l: Layout, threads: set<Tid>, ms: seq<Move>, u: Tid) returns (n: nat)
    requires u in Run2(l, Start2(threads), ms).pc
    requires forall t :: t in Run2(l, Start2(threads), ms).pc ==> !Owns2(Run2(l, Start2(threads), ms).pc[t])
    ensures var s, z := Run2(l, Start2(threads), ms), Run2(l, Start2(threads), ms + Alone(u, n));
            n <= 6 && z.log == s.log + [Returned(u, if AnyReleased(s.log) then 0 else 1)]
  {
    var s := Run2(l, Start2(threads), ms);
    Run2Inv(l, threads, ms);
    LockedIsOwned2(l, threads, ms);
    InitMeans(l, threads, ms);
    Words(l);
    assert Ready2(l, s, u) && Answer2(l, s, u) == if AnyReleased(s.log) then 0 else 1;
    hide Inv2, Ready2, Answer2, Start2;
    n := AloneIsAnswered2(l, s, u);
    Run2Append(l, Start2(threads), ms, Alone(u, n));
  }

  /** The initialised word is set exactly when there was a release. */
  lemma {:induction false} InitMeans(l: Layout, threads: set<Tid>, ms: seq<Move>)
    ensures var s := Run2(l, Start2(threads), ms);
            s.init == l.Initialised() <==> AnyReleased(s.log)
  {
    var s := Run2(l, Start2(threads), ms);
    var ms1 := SplitRefinesOneWord(l, threads, ms);
    Run1Inv(l, threads, ms1);
    ReleasedMeans(s.log);
    Words(l);
    Run2Inv(l, threads, ms);
    hide Run1, Run2, Replay, Layout.Locked, Layout.Initialised;
  }

  // ------------------------------------------------------------- the guard's first byte

  /** The byte of a guard word that comes first in memory. */
  function FirstByte(l: Layout, word: nat): nat {
    match l
    case Lp64Big => word / 0x100_0000_0000_0000
    case Ilp32Big => word / 0x100_0000
    case _ => word % 256
  }

  /** Compiled code looks at the first byte only: it is set when the object is
      initialised and clear before; and all words fit their type. */
  lemma {:induction false} FirstByteTells(l: Layout)
    ensures FirstByte(l, l.Initialised()) == 1 && FirstByte(l, INITIAL) == 0 && FirstByte(l, l.Locked()) == 0
    ensures var bits64 := l == Lp64Little || l == Lp64Big;
            var limit := if bits64 then 0x1_0000_0000_0000_0000 else 0x1_0000_0000;
            l.Initialised() < limit && l.Locked() < limit
  {
  }
}

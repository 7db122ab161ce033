/** `SharedPointer` and `UniquePointer`: who owns an object, and when it is deleted. */
module Ownership {
  import opened Basics

  type Ptr = nat
  type Obj = nat
  type Ctl = nat

  /** A shared pointer variable: its object and its control block. */
  datatype Shared = Shared(data: Option<Obj>, ctl: Option<Ctl>)

  datatype Unique = Unique(data: Option<Obj>, leak: bool)

  /** All live pointer variables; the counters of the live control blocks; every
      deletion so far. For the specification: the object that each control block
      was made for, the objects ever given to a pointer, and those leaked on purpose. */
  datatype State = State(
    shared: map<Ptr, Shared>, unique: map<Ptr, Unique>, count: map<Ctl, int>, deleted: multiset<Obj>,
    made: map<Ctl, Option<Obj>>, created: set<Obj>, leaked: set<Obj>)

  const NULL := Shared(None, None)

  function One(o: Option<Obj>): multiset<Obj> { if o.Some? then multiset{o.value} else multiset{} }

  function SetOf(o: Option<Obj>): set<Obj> { if o.Some? then {o.value} else {} }

  // ---------------------------------------------------------------- invariant

  function Owners(shared: map<Ptr, Shared>, c: Ctl): set<Ptr> {
    set p | p in shared && shared[p].ctl == Some(c)
  }

  /** Counters count owners, and control blocks stand for different objects. */
  ghost predicate Counting(s: State) {
    && s.made.Keys == s.count.Keys
    && (forall p :: p in s.shared ==>
          if s.shared[p].ctl == None then s.shared[p].data == None
          else s.shared[p].ctl.value in s.count && s.shared[p].data == s.made[s.shared[p].ctl.value])
    && (forall c :: c in s.count ==> s.count[c] == |Owners(s.shared, c)| > 0)
    && (forall c, d :: c in s.made && d in s.made && c != d && s.made[c].Some? ==> s.made[c] != s.made[d])
  }

  ghost predicate OwnedShared(s: State, o: Obj) { exists c :: c in s.made && s.made[c] == Some(o) }

  ghost predicate OwnedUnique(s: State, o: Obj) { exists u :: u in s.unique && s.unique[u].data == Some(o) }

  /** A unique owner is the only owner. */
  ghost predicate Exclusive(s: State) {
    && (forall u, v :: u in s.unique && v in s.unique && u != v && s.unique[u].data.Some? ==>
          s.unique[u].data != s.unique[v].data)
    && (forall u, c :: u in s.unique && c in s.made && s.unique[u].data.Some? ==> s.unique[u].data != s.made[c])
  }

  ghost predicate Known(s: State) {
    && (forall c :: c in s.made && s.made[c].Some? ==> s.made[c].value in s.created - s.leaked)
    && (forall u :: u in s.unique && s.unique[u].data.Some? ==> s.unique[u].data.value in s.created - s.leaked)
    && s.leaked <= s.created
  }

  predicate Is(o: Option<Obj>, x: Obj) { o == Some(x) }

  /** Every object is deleted exactly once, when nobody owns it any more, unless a
      unique pointer was told to leak it; `hand` is an object between two owners. */
  ghost predicate Accounted(s: State, hand: Option<Obj>) {
    forall o: Obj :: s.deleted[o] == Deletions(s, hand, o)
  }

  ghost function Deletions(s: State, hand: Option<Obj>, o: Obj): nat {
    if o !in s.created || OwnedShared(s, o) || OwnedUnique(s, o) || o in s.leaked || Is(hand, o) then 0 else 1
  }

  ghost predicate InHand(s: State, hand: Option<Obj>) {
    hand.Some? ==> hand.value in s.created - s.leaked && !OwnedShared(s, hand.value) && !OwnedUnique(s, hand.value)
  }

  ghost predicate InvBut(s: State, hand: Option<Obj>) {
    Counting(s) && Exclusive(s) && Known(s) && InHand(s, hand) && Accounted(s, hand)
  }

  ghost predicate Inv(s: State) { InvBut(s, None) }

  // --------------------------------------------------------------- primitives

  /** `release_unlocked` of a shared pointer: the last owner deletes. */
  function ReleaseShared(s: State, p: Ptr): State
    requires p in s.shared
  {
    var x := s.shared[p];
    var t := s.(shared := s.shared[p := NULL]);
    if x.ctl.Some? && x.ctl.value in s.count then
      var c := x.ctl.value;
      if s.count[c] == 1 then
        t.(count := s.count - {c}, made := s.made - {c}, deleted := s.deleted + One(x.data))
      else t.(count := s.count[c := s.count[c] - 1])
    else t
  }

  /** A null pointer copies another pointer's fields and acquires. */
  function AcquireShared(s: State, p: Ptr, x: Shared): State {
    var t := s.(shared := s.shared[p := x]);
    if x.ctl.Some? && x.ctl.value in s.count then
      t.(count := s.count[x.ctl.value := s.count[x.ctl.value] + 1])
    else t
  }

  /** A null pointer becomes the only owner of an object, with a new control block. */
  function AdoptShared(s: State, p: Ptr, o: Option<Obj>, c: Ctl): State {
    s.(shared := s.shared[p := Shared(o, Some(c))], count := s.count[c := 1], made := s.made[c := o])
  }

  /** `release_unlocked` of a unique pointer. */
  function ReleaseUnique(s: State, u: Ptr): State
    requires u in s.unique
  {
    var x := s.unique[u];
    var t := s.(unique := s.unique[u := x.(data := None)]);
    if x.leak then t.(leaked := s.leaked + SetOf(x.data)) else t.(deleted := s.deleted + One(x.data))
  }

  lemma {:induction false} OwnersUpdate(shared: map<Ptr, Shared>, p: Ptr, x: Shared, c: Ctl)
    ensures |Owners(shared[p := x], c)| == |Owners(shared, c)| + (if x.ctl == Some(c) then 1 else 0)
                                           - (if p in Owners(shared, c) then 1 else 0)
  {
    var a, b := Owners(shared, c), Owners(shared[p := x], c);
    if x.ctl == Some(c) {
      assert b == a + {p};
    } else {
      assert b == a - {p};
    }
  }

  lemma {:induction false} NoOwners(s: State, c: Ctl)
    requires Counting(s) && c !in s.count
    ensures Owners(s.shared, c) == {}
  {
  }

  lemma {:induction false} LastOwner(s: State, p: Ptr, c: Ctl)
    requires Counting(s) && p in s.shared && s.shared[p].ctl == Some(c) && s.count[c] == 1
    ensures Owners(s.shared[p := NULL], c) == {}
    ensures forall q :: q in s.shared && q != p ==> s.shared[q].ctl != Some(c)
  {
    OwnersUpdate(s.shared, p, NULL, c);
    assert p in Owners(s.shared, c);
    var t := s.shared[p := NULL];
    assert |Owners(t, c)| == 0;
    forall q | q in s.shared && q != p ensures s.shared[q].ctl != Some(c) {
      assert q !in Owners(t, c);
    }
  }

  /** Who owns which object, apart from how many pointers share it. */
  ghost predicate Rest(s: State, hand: Option<Obj>) {
    Exclusive(s) && Known(s) && InHand(s, hand) && Accounted(s, hand)
  }

  lemma {:induction false} RestKept(s: State, t: State, hand: Option<Obj>)
    requires Rest(s, hand) && t.(shared := s.shared, count := s.count) == s
    ensures Rest(t, hand)
  {
    assert forall o: Obj :: OwnedShared(t, o) == OwnedShared(s, o) && OwnedUnique(t, o) == OwnedUnique(s, o);
    hide OwnedShared, OwnedUnique;
  }

  predicate IsLast(s: State, p: Ptr)
    requires p in s.shared
  {
    s.shared[p].ctl.Some? && s.shared[p].ctl.value in s.count && s.count[s.shared[p].ctl.value] == 1
  }

  lemma {:induction false} ReleaseCounts(s: State, p: Ptr)
    requires Counting(s) && p in s.shared && !IsLast(s, p)
    ensures Counting(ReleaseShared(s, p))
  {
    var t, x := ReleaseShared(s, p), s.shared[p];
    forall c | c in s.count ensures |Owners(t.shared, c)| == s.count[c] - (if x.ctl == Some(c) then 1 else 0) {
      OwnersUpdate(s.shared, p, NULL, c);
    }
    hide Owners;
  }

  lemma {:induction false} ReleaseLastCounts(s: State, p: Ptr)
    requires Counting(s) && p in s.shared && IsLast(s, p)
    ensures Counting(ReleaseShared(s, p))
  {
    hide Owners;
    var t, x := ReleaseShared(s, p), s.shared[p];
    LastOwner(s, p, x.ctl.value);
    forall c | c in t.count ensures t.count[c] == |Owners(t.shared, c)| > 0 {
      OtherOwners(s, p, c);
    }
  }

  lemma {:induction false} OtherOwners(s: State, p: Ptr, c: Ctl)
    requires Counting(s) && p in s.shared && c in s.count && s.shared[p].ctl != Some(c)
    ensures s.count[c] == |Owners(s.shared[p := NULL], c)| > 0
  {
    OwnersUpdate(s.shared, p, NULL, c);
    assert p !in Owners(s.shared, c);
  }

  lemma {:induction false} LastOwns(s: State, p: Ptr, o: Obj)
    requires Counting(s) && p in s.shared && IsLast(s, p)
    ensures OwnedShared(ReleaseShared(s, p), o) <==> OwnedShared(s, o) && s.shared[p].data != Some(o)
    ensures OwnedUnique(ReleaseShared(s, p), o) <==> OwnedUnique(s, o)
    ensures s.shared[p].data == Some(o) ==> OwnedShared(s, o)
  {
    hide Owners;
    var t, x := ReleaseShared(s, p), s.shared[p];
    if OwnedShared(s, o) && x.data != Some(o) {
      var d :| d in s.made && s.made[d] == Some(o);
      assert d in t.made && t.made[d] == Some(o);
    }
    if x.data == Some(o) { assert s.made[x.ctl.value] == Some(o); }
  }

  lemma {:induction false} ReleaseLastRest(s: State, p: Ptr)
    requires Inv(s) && p in s.shared && IsLast(s, p)
    ensures Rest(ReleaseShared(s, p), None)
  {
    ReleaseLastKnown(s, p);
    forall o: Obj ensures ReleaseShared(s, p).deleted[o] == Deletions(ReleaseShared(s, p), None, o) {
      ReleaseLastAccounts(s, p, o);
    }
    hide Exclusive, Known, OwnedShared, OwnedUnique, Owners, Counting, ReleaseShared;
  }

  lemma {:induction false} ReleaseLastKnown(s: State, p: Ptr)
    requires Exclusive(s) && Known(s) && p in s.shared && IsLast(s, p)
    ensures Exclusive(ReleaseShared(s, p)) && Known(ReleaseShared(s, p))
  {
  }

  lemma {:induction false} ReleaseLastAccounts(s: State, p: Ptr, o: Obj)
    requires Inv(s) && p in s.shared && IsLast(s, p)
    ensures ReleaseShared(s, p).deleted[o] == Deletions(ReleaseShared(s, p), None, o)
  {
    LastOwns(s, p, o);
    assert s.shared[p].data == Some(o) ==> o in s.created - s.leaked && !OwnedUnique(s, o);
    assert s.deleted[o] == Deletions(s, None, o);
    hide OwnedShared, OwnedUnique, Owners, Counting, Accounted;
  }

  lemma {:induction false} ReleaseSharedInv(s: State, p: Ptr)
    requires Inv(s) && p in s.shared
    ensures Inv(ReleaseShared(s, p))
  {
    if IsLast(s, p) {
      ReleaseLastCounts(s, p);
      ReleaseLastRest(s, p);
    } else {
      ReleaseCounts(s, p);
      RestKept(s, ReleaseShared(s, p), None);
    }
    hide Counting, Exclusive, Known, InHand, Accounted;
  }

  predicate Free(s: State, p: Ptr) { p !in s.shared || s.shared[p] == NULL }

  lemma {:induction false} AcquireCounts(s: State, p: Ptr, q: Ptr)
    requires Counting(s) && Free(s, p) && q in s.shared
    ensures Counting(AcquireShared(s, p, s.shared[q]))
  {
    hide Owners;
    var x := s.shared[q];
    var t := AcquireShared(s, p, x);
    forall c | c in s.count ensures |Owners(t.shared, c)| == s.count[c] + (if x.ctl == Some(c) then 1 else 0) {
      NullOwnsNothing(s, p, c);
      OwnersUpdate(s.shared, p, x, c);
    }
  }

  lemma {:induction false} NullOwnsNothing(s: State, p: Ptr, c: Ctl)
    requires Free(s, p)
    ensures p !in Owners(s.shared, c)
  {
  }

  lemma {:induction false} AcquireSharedInv(s: State, p: Ptr, q: Ptr)
    requires Inv(s) && Free(s, p) && q in s.shared
    ensures Inv(AcquireShared(s, p, s.shared[q]))
  {
    AcquireCounts(s, p, q);
    hide Counting, Exclusive, Known, InHand, Accounted;
    RestKept(s, AcquireShared(s, p, s.shared[q]), None);
  }

  lemma {:induction false} AdoptCounts(s: State, p: Ptr, hand: Option<Obj>, c: Ctl)
    requires Counting(s) && Free(s, p) && c !in s.count && InHand(s, hand)
    ensures Counting(AdoptShared(s, p, hand, c))
  {
    hide InHand, OwnedShared, OwnedUnique, Owners;
    var t := AdoptShared(s, p, hand, c);
    HandIsNew(s, hand);
    forall d | d in t.count ensures t.count[d] == |Owners(t.shared, d)| > 0 {
      AdoptOwners(s, p, hand, c, d);
    }
  }

  lemma {:induction false} HandIsNew(s: State, hand: Option<Obj>)
    requires InHand(s, hand)
    ensures hand.Some? ==> forall d :: d in s.made ==> s.made[d] != hand
  {
    if hand.Some? {
      forall d | d in s.made ensures s.made[d] != hand { assert !OwnedShared(s, hand.value); }
    }
  }

  lemma {:induction false} AdoptOwners(s: State, p: Ptr, hand: Option<Obj>, c: Ctl, d: Ctl)
    requires Counting(s) && Free(s, p) && c !in s.count && (d == c || d in s.count)
    ensures var t := AdoptShared(s, p, hand, c);
            t.count[d] == |Owners(t.shared, d)| > 0
  {
    NoOwners(s, c);
    OwnersUpdate(s.shared, p, Shared(hand, Some(c)), d);
    NullOwnsNothing(s, p, d);
    hide Owners;
  }

  lemma {:induction false} AdoptOwns(s: State, p: Ptr, hand: Option<Obj>, c: Ctl, o: Obj)
    requires c !in s.made
    ensures OwnedShared(AdoptShared(s, p, hand, c), o) <==> OwnedShared(s, o) || Is(hand, o)
    ensures OwnedUnique(AdoptShared(s, p, hand, c), o) <==> OwnedUnique(s, o)
  {
    var t := AdoptShared(s, p, hand, c);
    if OwnedShared(s, o) {
      var d :| d in s.made && s.made[d] == Some(o);
      assert d in t.made && t.made[d] == Some(o);
    }
    if Is(hand, o) { assert c in t.made && t.made[c] == Some(o); }
  }

  lemma {:induction false} AdoptRest(s: State, p: Ptr, hand: Option<Obj>, c: Ctl)
    requires Rest(s, hand) && c !in s.made
    ensures Rest(AdoptShared(s, p, hand, c), None)
  {
    var t := AdoptShared(s, p, hand, c);
    if hand.Some? {
      forall u | u in s.unique ensures s.unique[u].data != hand { assert !OwnedUnique(s, hand.value); }
    }
    forall o: Obj
      ensures OwnedShared(t, o) <==> OwnedShared(s, o) || Is(hand, o)
      ensures OwnedUnique(t, o) <==> OwnedUnique(s, o)
    {
      AdoptOwns(s, p, hand, c, o);
    }
    hide OwnedShared, OwnedUnique;
  }

  lemma {:induction false} AdoptInv(s: State, p: Ptr, hand: Option<Obj>, c: Ctl)
    requires InvBut(s, hand) && Free(s, p) && c !in s.count
    ensures Inv(AdoptShared(s, p, hand, c))
  {
    AdoptCounts(s, p, hand, c);
    assert c !in s.made;
    hide Counting, Exclusive, Known, InHand, Accounted;
    AdoptRest(s, p, hand, c);
  }

  /** p takes over what q holds; q becomes null. */
  function MoveSharedTo(s: State, p: Ptr, q: Ptr): State
    requires q in s.shared
  {
    s.(shared := s.shared[p := s.shared[q]][q := NULL])
  }

  lemma {:induction false} MoveCounts(s: State, p: Ptr, q: Ptr)
    requires Counting(s) && Free(s, p) && q in s.shared && p != q
    ensures Counting(MoveSharedTo(s, p, q))
  {
    var x := s.shared[q];
    var t := MoveSharedTo(s, p, q);
    forall c | c in s.count ensures |Owners(t.shared, c)| == s.count[c] {
      OwnersUpdate(s.shared, p, x, c);
      OwnersUpdate(s.shared[p := x], q, NULL, c);
    }
    hide Owners;
  }

  lemma {:induction false} MoveSharedInv(s: State, p: Ptr, q: Ptr)
    requires Inv(s) && Free(s, p) && q in s.shared && p != q
    ensures Inv(MoveSharedTo(s, p, q))
  {
    MoveCounts(s, p, q);
    hide Counting, Exclusive, Known, InHand, Accounted;
    RestKept(s, MoveSharedTo(s, p, q), None);
  }

  /** A null shared pointer comes into being, or goes out of scope. */
  lemma {:induction false} NullCounts(s: State, p: Ptr)
    requires Counting(s) && Free(s, p)
    ensures Counting(s.(shared := s.shared[p := NULL])) && Counting(s.(shared := s.shared - {p}))
  {
    forall c | c in s.count
      ensures Owners(s.shared[p := NULL], c) == Owners(s.shared, c) == Owners(s.shared - {p}, c)
    {
    }
    hide Owners;
  }

  lemma {:induction false} NullSharedInv(s: State, p: Ptr)
    requires Inv(s) && Free(s, p)
    ensures Inv(s.(shared := s.shared[p := NULL])) && Inv(s.(shared := s.shared - {p}))
  {
    NullCounts(s, p);
    hide Counting, Exclusive, Known, InHand, Accounted;
    RestKept(s, s.(shared := s.shared[p := NULL]), None);
    RestKept(s, s.(shared := s.shared - {p}), None);
  }

  // ------------------------------------------------------------ unique pointers

  lemma {:induction false} UniqueCounts(s: State, t: State)
    requires Counting(s) && t.shared == s.shared && t.count == s.count && t.made == s.made
    ensures Counting(t)
  {
    hide Owners;
  }

  /** Afterwards nobody but `hand` holds what u held. */
  function TakeUnique(s: State, u: Ptr, leak: bool): State {
    s.(unique := s.unique[u := Unique(None, leak)])
  }

  lemma {:induction false} TakeOwns(s: State, u: Ptr, leak: bool, o: Obj)
    requires Exclusive(s) && u in s.unique
    ensures OwnedUnique(TakeUnique(s, u, leak), o) <==> OwnedUnique(s, o) && s.unique[u].data != Some(o)
    ensures OwnedShared(TakeUnique(s, u, leak), o) <==> OwnedShared(s, o)
    ensures s.unique[u].data == Some(o) ==> OwnedUnique(s, o) && !OwnedShared(s, o)
  {
    var t := TakeUnique(s, u, leak);
    if OwnedUnique(s, o) && s.unique[u].data != Some(o) {
      var v :| v in s.unique && s.unique[v].data == Some(o);
      assert v in t.unique && t.unique[v].data == Some(o);
    }
  }

  lemma {:induction false} TakeUniqueInv(s: State, u: Ptr, leak: bool)
    requires Inv(s) && u in s.unique
    ensures InvBut(TakeUnique(s, u, leak), s.unique[u].data)
  {
    UniqueCounts(s, TakeUnique(s, u, leak));
    TakeRest(s, u, leak);
    hide Counting, Exclusive, Known, InHand, Accounted;
  }

  lemma {:induction false} TakeRest(s: State, u: Ptr, leak: bool)
    requires Rest(s, None) && u in s.unique
    ensures Rest(TakeUnique(s, u, leak), s.unique[u].data)
  {
    var t, hand := TakeUnique(s, u, leak), s.unique[u].data;
    TakeKnown(s, u, leak);
    if hand.Some? {
      TakeOwns(s, u, leak, hand.value);
      assert hand.value in s.created - s.leaked;
    }
    forall o: Obj ensures t.deleted[o] == Deletions(t, hand, o) {
      TakeOwns(s, u, leak, o);
      assert s.deleted[o] == Deletions(s, None, o);
    }
    hide OwnedShared, OwnedUnique, Exclusive, Known;
  }

  lemma {:induction false} TakeKnown(s: State, u: Ptr, leak: bool)
    requires Exclusive(s) && Known(s) && u in s.unique
    ensures Exclusive(TakeUnique(s, u, leak)) && Known(TakeUnique(s, u, leak))
  {
  }

  function GiveUnique(s: State, u: Ptr, x: Unique): State { s.(unique := s.unique[u := x]) }

  predicate FreeUnique(s: State, u: Ptr) { u !in s.unique || s.unique[u].data == None }

  lemma {:induction false} GiveOwns(s: State, u: Ptr, x: Unique, o: Obj)
    requires FreeUnique(s, u)
    ensures OwnedUnique(GiveUnique(s, u, x), o) <==> OwnedUnique(s, o) || Is(x.data, o)
    ensures OwnedShared(GiveUnique(s, u, x), o) <==> OwnedShared(s, o)
  {
    var t := GiveUnique(s, u, x);
    if OwnedUnique(s, o) {
      var v :| v in s.unique && s.unique[v].data == Some(o);
      assert v in t.unique && t.unique[v].data == Some(o);
    }
    if Is(x.data, o) { assert u in t.unique && t.unique[u].data == Some(o); }
  }

  lemma {:induction false} GiveUniqueInv(s: State, u: Ptr, x: Unique)
    requires InvBut(s, x.data) && FreeUnique(s, u)
    ensures Inv(GiveUnique(s, u, x))
  {
    UniqueCounts(s, GiveUnique(s, u, x));
    GiveRest(s, u, x);
    hide Counting, Exclusive, Known, InHand, Accounted;
  }

  lemma {:induction false} GiveRest(s: State, u: Ptr, x: Unique)
    requires Rest(s, x.data) && FreeUnique(s, u)
    ensures Rest(GiveUnique(s, u, x), None)
  {
    var t := GiveUnique(s, u, x);
    if x.data.Some? {
      forall v | v in s.unique ensures s.unique[v].data != x.data { assert !OwnedUnique(s, x.data.value); }
      forall c | c in s.made ensures s.made[c] != x.data { assert !OwnedShared(s, x.data.value); }
    }
    forall o: Obj
      ensures OwnedUnique(t, o) <==> OwnedUnique(s, o) || Is(x.data, o)
      ensures OwnedShared(t, o) <==> OwnedShared(s, o)
    {
      GiveOwns(s, u, x, o);
    }
    hide OwnedShared, OwnedUnique;
  }

  lemma {:induction false} SameOwners(s: State, t: State)
    requires t.made == s.made && t.unique == s.unique
    ensures forall o: Obj :: OwnedShared(t, o) == OwnedShared(s, o) && OwnedUnique(t, o) == OwnedUnique(s, o)
    ensures forall u :: u in s.unique && s.unique[u].data.Some? ==> OwnedUnique(s, s.unique[u].data.value)
    ensures forall c :: c in s.made && s.made[c].Some? ==> OwnedShared(s, s.made[c].value)
  {
  }

  /** What is in nobody's hand is deleted. */
  lemma {:induction false} DeleteInv(s: State, hand: Option<Obj>)
    requires InvBut(s, hand)
    ensures Inv(s.(deleted := s.deleted + One(hand)))
  {
    var t := s.(deleted := s.deleted + One(hand));
    UniqueCounts(s, t);
    SameOwners(s, t);
    hide OwnedShared, OwnedUnique, Counting;
  }

  /** Or it is leaked. */
  lemma {:induction false} LeakInv(s: State, hand: Option<Obj>)
    requires InvBut(s, hand)
    ensures Inv(s.(leaked := s.leaked + SetOf(hand)))
  {
    var t := s.(leaked := s.leaked + SetOf(hand));
    UniqueCounts(s, t);
    SameOwners(s, t);
    hide OwnedShared, OwnedUnique, Counting;
  }

  lemma {:induction false} ReleaseUniqueInv(s: State, u: Ptr)
    requires Inv(s) && u in s.unique
    ensures Inv(ReleaseUnique(s, u))
  {
    TakeUniqueInv(s, u, s.unique[u].leak);
    hide InvBut;
    var t := TakeUnique(s, u, s.unique[u].leak);
    if s.unique[u].leak { LeakInv(t, s.unique[u].data); } else { DeleteInv(t, s.unique[u].data); }
  }

  /** A new object is in the hand of whoever will own it. */
  lemma {:induction false} CreateInv(s: State, hand: Option<Obj>)
    requires Inv(s) && (hand.Some? ==> hand.value !in s.created)
    ensures InvBut(s.(created := s.created + SetOf(hand)), hand)
  {
    var t := s.(created := s.created + SetOf(hand));
    UniqueCounts(s, t);
    SameOwners(s, t);
    if hand.Some? { assert !OwnedShared(s, hand.value) && !OwnedUnique(s, hand.value); }
    hide OwnedShared, OwnedUnique, Counting;
  }

  /** An empty unique pointer goes out of scope. */
  lemma {:induction false} DropUniqueInv(s: State, u: Ptr)
    requires Inv(s) && FreeUnique(s, u)
    ensures Inv(s.(unique := s.unique - {u}))
  {
    var t := s.(unique := s.unique - {u});
    UniqueCounts(s, t);
    forall o: Obj ensures OwnedShared(t, o) == OwnedShared(s, o) && OwnedUnique(t, o) == OwnedUnique(s, o) {
      if OwnedUnique(s, o) {
        var v :| v in s.unique && s.unique[v].data == Some(o);
        assert v in t.unique;
      }
    }
    hide OwnedShared, OwnedUnique, Counting;
  }

  // ----------------------------------------------------------------- operations

  datatype Op =
    | NewShared(p: Ptr, o: Option<Obj>, c: Ctl)
    | CopyShared(p: Ptr, q: Ptr)
    | MoveShared(p: Ptr, q: Ptr)
    | SharedFromUnique(p: Ptr, u: Ptr, c: Ctl)
    | CopyAssign(p: Ptr, q: Ptr)
    | MoveAssign(p: Ptr, q: Ptr)
    | AssignFromUnique(p: Ptr, u: Ptr, c: Ctl)
    | DropShared(p: Ptr)
    | NewUnique(u: Ptr, o: Option<Obj>)
    | MoveUnique(u: Ptr, v: Ptr)
    | MoveAssignUnique(u: Ptr, v: Ptr)
    | SetShouldLeak(u: Ptr)
    | DropUnique(u: Ptr)

  predicate IsNew(s: State, o: Option<Obj>) { o.Some? ==> o.value !in s.created }

  /** Constructors name new variables and new objects; control blocks are new. */
  predicate Legal(s: State, op: Op) {
    match op
    case NewShared(p, o, c) => p !in s.shared && IsNew(s, o) && c !in s.count
    case CopyShared(p, q) => p !in s.shared && q in s.shared
    case MoveShared(p, q) => p !in s.shared && q in s.shared
    case SharedFromUnique(p, u, c) => p !in s.shared && u in s.unique && c !in s.count
    case CopyAssign(p, q) => p in s.shared && q in s.shared
    case MoveAssign(p, q) => p in s.shared && q in s.shared
    case AssignFromUnique(p, u, c) => p in s.shared && u in s.unique && c !in s.count
    case DropShared(p) => p in s.shared
    case NewUnique(u, o) => u !in s.unique && IsNew(s, o)
    case MoveUnique(u, v) => u !in s.unique && v in s.unique
    case MoveAssignUnique(u, v) => u in s.unique && v in s.unique
    case SetShouldLeak(u) => u in s.unique
    case DropUnique(u) => u in s.unique
  }

  function Created(s: State, o: Option<Obj>): State { s.(created := s.created + SetOf(o)) }

  /** The unique pointer is told to leak and reset; a shared pointer adopts its object. */
  function Transfer(s: State, p: Ptr, u: Ptr, c: Ctl): State
    requires u in s.unique
  {
    AdoptShared(TakeUnique(s, u, false), p, s.unique[u].data, c)
  }

  function MoveUniqueTo(s: State, u: Ptr, v: Ptr): State
    requires v in s.unique
  {
    GiveUnique(TakeUnique(s, v, false), u, s.unique[v])
  }

  function Exec(s: State, op: Op): State
    requires Legal(s, op)
  {
    match op
    case NewShared(p, o, c) =>
      if o == None then s.(shared := s.shared[p := NULL]) else AdoptShared(Created(s, o), p, o, c)
    case CopyShared(p, q) => AcquireShared(s, p, s.shared[q])
    case MoveShared(p, q) => MoveSharedTo(s, p, q)
    case SharedFromUnique(p, u, c) => Transfer(s, p, u, c)
    case CopyAssign(p, q) => if p == q then s else AcquireShared(ReleaseShared(s, p), p, s.shared[q])
    case MoveAssign(p, q) => if p == q then s else MoveSharedTo(ReleaseShared(s, p), p, q)
    case AssignFromUnique(p, u, c) => Transfer(ReleaseShared(s, p), p, u, c)
    case DropShared(p) => var r := ReleaseShared(s, p); r.(shared := r.shared - {p})
    case NewUnique(u, o) => GiveUnique(Created(s, o), u, Unique(o, false))
    case MoveUnique(u, v) => MoveUniqueTo(s, u, v)
    case MoveAssignUnique(u, v) => if u == v then s else MoveUniqueTo(ReleaseUnique(s, u), u, v)
    case SetShouldLeak(u) => s.(unique := s.unique[u := s.unique[u].(leak := true)])
    case DropUnique(u) => var r := ReleaseUnique(s, u); r.(unique := r.unique - {u})
  }

  lemma {:induction false} TransferInv(s: State, p: Ptr, u: Ptr, c: Ctl)
    requires Inv(s) && Free(s, p) && u in s.unique && c !in s.count
    ensures Inv(Transfer(s, p, u, c))
    ensures var t := Transfer(s, p, u, c);
            && Owners(t.shared, c) == {p} && t.count[c] == 1 && t.shared[p].data == s.unique[u].data
            && t.unique[u] == Unique(None, false) && t.deleted == s.deleted
  {
    NoOwners(s, c);
    assert Owners(Transfer(s, p, u, c).shared, c) == {p} by {
      assert forall q :: q in s.shared ==> q !in Owners(s.shared, c);
    }
    hide InvBut;
    TakeUniqueInv(s, u, false);
    AdoptInv(TakeUnique(s, u, false), p, s.unique[u].data, c);
  }

  lemma {:induction false} MoveUniqueInv(s: State, u: Ptr, v: Ptr)
    requires Inv(s) && FreeUnique(s, u) && v in s.unique && u != v
    ensures Inv(MoveUniqueTo(s, u, v))
  {
    hide InvBut;
    TakeUniqueInv(s, v, false);
    GiveUniqueInv(TakeUnique(s, v, false), u, s.unique[v]);
  }

  lemma {:induction false} SetShouldLeakInv(s: State, u: Ptr)
    requires Inv(s) && u in s.unique
    ensures Inv(s.(unique := s.unique[u := s.unique[u].(leak := true)]))
  {
    var x := s.unique[u].(leak := true);
    assert s.(unique := s.unique[u := x]) == GiveUnique(TakeUnique(s, u, true), u, x);
    hide InvBut;
    TakeUniqueInv(s, u, true);
    GiveUniqueInv(TakeUnique(s, u, true), u, x);
  }

  lemma {:induction false} ReleaseLeaves(s: State, p: Ptr)
    requires p in s.shared
    ensures var r := ReleaseShared(s, p);
            && r.shared == s.shared[p := NULL] && r.unique == s.unique && r.count.Keys <= s.count.Keys
  {
  }

  /** Every operation keeps the counters exact and every object accounted for,
      whether or not the two sides of an assignment own the same object. */
  lemma {:induction false} ExecSharedInv(s: State, op: Op)
    requires Inv(s) && Legal(s, op)
    requires op.CopyAssign? || op.MoveAssign? || op.AssignFromUnique? || op.DropShared?
    ensures Inv(Exec(s, op))
  {
    hide InvBut, ReleaseShared, AcquireShared, MoveSharedTo, Transfer;
    match op
    case CopyAssign(p, q) =>
      if p != q {
        ReleaseSharedInv(s, p);
        ReleaseLeaves(s, p);
        AcquireSharedInv(ReleaseShared(s, p), p, q);
      }
    case MoveAssign(p, q) =>
      if p != q {
        ReleaseSharedInv(s, p);
        ReleaseLeaves(s, p);
        MoveSharedInv(ReleaseShared(s, p), p, q);
      }
    case AssignFromUnique(p, u, c) =>
      ReleaseSharedInv(s, p);
      ReleaseLeaves(s, p);
      TransferInv(ReleaseShared(s, p), p, u, c);
    case DropShared(p) =>
      ReleaseSharedInv(s, p);
      ReleaseLeaves(s, p);
      NullSharedInv(ReleaseShared(s, p), p);
  }

  lemma {:induction false} ExecInv(s: State, op: Op)
    requires Inv(s) && Legal(s, op)
    ensures Inv(Exec(s, op))
  {
    hide InvBut, AcquireShared, MoveSharedTo, Transfer, ReleaseUnique, MoveUniqueTo;
    match op
    case NewShared(p, o, c) =>
      NullSharedInv(s, p);
      CreateInv(s, o);
      AdoptInv(Created(s, o), p, o, c);
    case CopyShared(p, q) => AcquireSharedInv(s, p, q);
    case MoveShared(p, q) => MoveSharedInv(s, p, q);
    case SharedFromUnique(p, u, c) => TransferInv(s, p, u, c);
    case NewUnique(u, o) =>
      CreateInv(s, o);
      GiveUniqueInv(Created(s, o), u, Unique(o, false));
    case MoveUnique(u, v) => MoveUniqueInv(s, u, v);
    case MoveAssignUnique(u, v) =>
      if u != v {
        ReleaseUniqueInv(s, u);
        ReleaseUniqueLeaves(s, u);
        MoveUniqueInv(ReleaseUnique(s, u), u, v);
      }
    case SetShouldLeak(u) => SetShouldLeakInv(s, u);
    case DropUnique(u) =>
      ReleaseUniqueInv(s, u);
      ReleaseUniqueLeaves(s, u);
      DropUniqueInv(ReleaseUnique(s, u), u);
    case _ => ExecSharedInv(s, op);
  }

  lemma {:induction false} ReleaseUniqueLeaves(s: State, u: Ptr)
    requires u in s.unique
    ensures ReleaseUnique(s, u).unique == s.unique[u := s.unique[u].(data := None)]
  {
  }

  predicate LegalRun(s: State, ops: seq<Op>)
    decreases |ops|
  {
    ops == [] || (Legal(s, ops[0]) && LegalRun(Exec(s, ops[0]), ops[1..]))
  }

  function Run(s: State, ops: seq<Op>): State
    requires LegalRun(s, ops)
    decreases |ops|
  {
    if ops == [] then s else Run(Exec(s, ops[0]), ops[1..])
  }

  const EMPTY := State(map[], map[], map[], multiset{}, map[], {}, {})

  lemma {:induction false} EmptyInv()
    ensures Inv(EMPTY)
  {
  }

  lemma {:induction false} RunInv(s: State, ops: seq<Op>)
    requires Inv(s) && LegalRun(s, ops)
    ensures Inv(Run(s, ops))
    decreases |ops|
  {
    if ops == [] {
    } else {
      hide InvBut, Exec, Legal;
      ExecInv(s, ops[0]);
      RunInv(Exec(s, ops[0]), ops[1..]);
    }
  }

  /** Who points to an object, in terms of the pointer variables alone. */
  ghost predicate HasOwner(s: State, o: Obj) {
    || (exists p :: p in s.shared && s.shared[p].data == Some(o))
    || (exists u :: u in s.unique && s.unique[u].data == Some(o))
  }

  lemma {:induction false} OwnedMeansPointed(s: State, o: Obj)
    requires Counting(s)
    ensures OwnedShared(s, o) || OwnedUnique(s, o) <==> HasOwner(s, o)
  {
    if OwnedShared(s, o) {
      var c :| c in s.made && s.made[c] == Some(o);
      assert |Owners(s.shared, c)| > 0;
      var p :| p in Owners(s.shared, c);
      assert s.shared[p].data == Some(o);
    }
    if p :| p in s.shared && s.shared[p].data == Some(o) {
      assert s.made[s.shared[p].ctl.value] == Some(o);
    }
  }

  /** In every run of pointer operations, the counter of a control block is the
      number of its live owners, and an object is deleted exactly once, when its
      last owner is gone, unless it was leaked on purpose. */
  lemma {:induction false} EveryRunDeletesOnce(ops: seq<Op>)
    requires LegalRun(EMPTY, ops)
    ensures var s := Run(EMPTY, ops);
            && (forall c :: c in s.count ==> s.count[c] == |Owners(s.shared, c)| > 0)
            && (forall p :: p in s.shared && s.shared[p].data.Some? ==>
                  s.shared[p].ctl.Some? && s.shared[p].ctl.value in s.count)
            && (forall o: Obj :: s.deleted[o] == if o in s.created && !HasOwner(s, o) && o !in s.leaked then 1 else 0)
  {
    EmptyInv();
    RunInv(EMPTY, ops);
    var s := Run(EMPTY, ops);
    hide Run, LegalRun;
    forall o: Obj ensures s.deleted[o] == if o in s.created && !HasOwner(s, o) && o !in s.leaked then 1 else 0 {
      OwnedMeansPointed(s, o);
    }
    hide OwnedShared, OwnedUnique, HasOwner;
  }

  /** A pointer that was told to leak its object keeps it alive when it goes out of
      scope, but a transfer to a shared pointer forgets the request. */
  lemma {:induction false} TransferForgetsLeak(s: State, p: Ptr, u: Ptr, c: Ctl, o: Obj)
    requires Inv(s) && p !in s.shared && c !in s.count && u in s.unique && s.unique[u] == Unique(Some(o), true)
    ensures Exec(s, DropUnique(u)).deleted[o] == 0
    ensures Exec(Exec(s, SharedFromUnique(p, u, c)), DropShared(p)).deleted[o] == 1
  {
    assert OwnedUnique(s, o);
    hide Owners;
  }
}

/** What each operation leaves in every pointer variable, and what that means for
    the objects of a whole run. */
module OwnershipRuns {
  import opened Basics
  import opened Ownership

  const RESET := Unique(None, false)

  /** The pointers after an operation. Copies leave the source as it is, moves and
      transfers empty it, and assigning a pointer to itself changes nothing. */
  function SharedAfter(s: State, op: Op): map<Ptr, Shared>
    requires Legal(s, op)
  {
    match op
    case NewShared(p, o, c) => s.shared[p := Shared(o, if o == None then None else Some(c))]
    case CopyShared(p, q) => s.shared[p := s.shared[q]]
    case CopyAssign(p, q) => s.shared[p := s.shared[q]]
    case MoveShared(p, q) => s.shared[p := s.shared[q]][q := NULL]
    case MoveAssign(p, q) => if p == q then s.shared else s.shared[p := s.shared[q]][q := NULL]
    case SharedFromUnique(p, u, c) => s.shared[p := Shared(s.unique[u].data, Some(c))]
    case AssignFromUnique(p, u, c) => s.shared[p := Shared(s.unique[u].data, Some(c))]
    case DropShared(p) => s.shared - {p}
    case _ => s.shared
  }

  function UniqueAfter(s: State, op: Op): map<Ptr, Unique>
    requires Legal(s, op)
  {
    match op
    case SharedFromUnique(p, u, c) => s.unique[u := RESET]
    case AssignFromUnique(p, u, c) => s.unique[u := RESET]
    case NewUnique(u, o) => s.unique[u := Unique(o, false)]
    case MoveUnique(u, v) => s.unique[u := s.unique[v]][v := RESET]
    case MoveAssignUnique(u, v) => if u == v then s.unique else s.unique[u := s.unique[v]][v := RESET]
    case SetShouldLeak(u) => s.unique[u := Unique(s.unique[u].data, true)]
    case DropUnique(u) => s.unique - {u}
    case _ => s.unique
  }

  lemma {:induction false} ReleaseKeeps(s: State, p: Ptr)
    requires p in s.shared
    ensures ReleaseShared(s, p).created == s.created && ReleaseShared(s, p).leaked == s.leaked
    ensures ReleaseShared(s, p).unique == s.unique && ReleaseShared(s, p).shared == s.shared[p := NULL]
  {
  }

  lemma {:induction false} ReleaseLeaks(s: State, u: Ptr)
    requires u in s.unique
    ensures var r := ReleaseUnique(s, u);
            && r.shared == s.shared && r.created == s.created && r.unique.Keys == s.unique.Keys
            && r.leaked == s.leaked + (if s.unique[u].leak then SetOf(s.unique[u].data) else {})
  {
  }

  lemma {:induction false} SharedIs(s: State, op: Op)
    requires Legal(s, op)
    ensures Exec(s, op).shared == SharedAfter(s, op)
  {
    hide ReleaseShared, ReleaseUnique;
    match op
    case CopyAssign(p, q) => ReleaseLeaves(s, p);
    case MoveAssign(p, q) => ReleaseLeaves(s, p);
    case AssignFromUnique(p, u, c) => ReleaseLeaves(s, p);
    case DropShared(p) => ReleaseLeaves(s, p);
    case MoveAssignUnique(u, v) => ReleaseLeaks(s, u);
    case DropUnique(u) => ReleaseLeaks(s, u);
    case _ =>
  }

  lemma {:induction false} UniqueIs(s: State, op: Op)
    requires Legal(s, op)
    ensures Exec(s, op).unique == UniqueAfter(s, op)
  {
    hide ReleaseShared, ReleaseUnique;
    match op
    case CopyAssign(p, q) => ReleaseLeaves(s, p);
    case MoveAssign(p, q) => ReleaseLeaves(s, p);
    case AssignFromUnique(p, u, c) => ReleaseLeaves(s, p);
    case DropShared(p) => ReleaseLeaves(s, p);
    case MoveAssignUnique(u, v) => ReleaseUniqueLeaves(s, u);
    case DropUnique(u) => ReleaseUniqueLeaves(s, u);
    case _ =>
  }

  /** The objects that an operation brings into being, and those it leaks: what a
      marked unique pointer owns when it goes away or is assigned to. */
  function NewObjects(op: Op): set<Obj> {
    match op
    case NewShared(p, o, c) => SetOf(o)
    case NewUnique(u, o) => SetOf(o)
    case _ => {}
  }

  function LeakedBy(s: State, op: Op): set<Obj>
    requires Legal(s, op)
  {
    match op
    case DropUnique(u) => if s.unique[u].leak then SetOf(s.unique[u].data) else {}
    case MoveAssignUnique(u, v) => if u != v && s.unique[u].leak then SetOf(s.unique[u].data) else {}
    case _ => {}
  }

  lemma {:induction false} ObjectsAfter(s: State, op: Op)
    requires Legal(s, op)
    ensures Exec(s, op).created == s.created + NewObjects(op)
    ensures Exec(s, op).leaked == s.leaked + LeakedBy(s, op)
  {
    hide ReleaseShared, ReleaseUnique;
    match op
    case CopyAssign(p, q) => ReleaseKeeps(s, p);
    case MoveAssign(p, q) => ReleaseKeeps(s, p);
    case AssignFromUnique(p, u, c) => ReleaseKeeps(s, p);
    case DropShared(p) => ReleaseKeeps(s, p);
    case MoveAssignUnique(u, v) => ReleaseLeaks(s, u);
    case DropUnique(u) => ReleaseLeaks(s, u);
    case _ =>
  }

  /** All objects that a run brings into being. */
  function Objects(ops: seq<Op>): set<Obj> {
    if ops == [] then {} else NewObjects(ops[0]) + Objects(ops[1..])
  }

  predicate Unmarked(ops: seq<Op>) { forall i :: 0 <= i < |ops| ==> !ops[i].SetShouldLeak? }

  ghost predicate NoMarks(s: State) { forall u :: u in s.unique ==> !s.unique[u].leak }

  lemma {:induction false} RunCreates(s: State, ops: seq<Op>)
    requires LegalRun(s, ops)
    ensures Run(s, ops).created == s.created + Objects(ops)
    decreases |ops|
  {
    if ops == [] {
    } else {
      ObjectsAfter(s, ops[0]);
      hide Exec, Legal;
      RunCreates(Exec(s, ops[0]), ops[1..]);
    }
  }

  lemma {:induction false} StepUnmarked(s: State, op: Op)
    requires NoMarks(s) && Legal(s, op) && !op.SetShouldLeak?
    ensures NoMarks(Exec(s, op)) && Exec(s, op).leaked == s.leaked
  {
    UniqueIs(s, op);
    ObjectsAfter(s, op);
    hide Exec;
  }

  lemma {:induction false} RunUnmarked(s: State, ops: seq<Op>)
    requires NoMarks(s) && LegalRun(s, ops) && Unmarked(ops)
    ensures Run(s, ops).leaked == s.leaked
    decreases |ops|
  {
    if ops == [] {
    } else {
      StepUnmarked(s, ops[0]);
      hide Exec, Legal, NoMarks;
      RunUnmarked(Exec(s, ops[0]), ops[1..]);
    }
  }

  /** In a run without a leak mark, every object that was created has an owner or has
      been deleted, exactly once; nothing else is ever deleted. */
  lemma {:induction false} UnmarkedRunDeletes(ops: seq<Op>)
    requires LegalRun(EMPTY, ops) && Unmarked(ops)
    ensures var s := Run(EMPTY, ops);
            forall o: Obj :: s.deleted[o] == if o in Objects(ops) && !HasOwner(s, o) then 1 else 0
  {
    RunCreates(EMPTY, ops);
    RunUnmarked(EMPTY, ops);
    EveryRunDeletesOnce(ops);
    hide Run, LegalRun, Objects, Unmarked, HasOwner;
  }
}

/** `SharedPointer` and `UniquePointer` as objects on the heap. Copies of a shared
    pointer alias one counter object, which each of them updates through its own
    reference. Every operation is proved to do to the heap what the ownership machine
    does to its maps, and never to leave a pointer to a counter that was deleted. */
module PointerHeap {
  import opened Basics
  import opened Ownership

  /** Something that pointers own. */
  class Target {
    ghost const addr: Obj

    constructor (ghost addr: Obj)
      ensures this.addr == addr
    {
      this.addr := addr;
    }
  }

  /** The counter that the owners of one target share. */
  class Counter {
    ghost const addr: Ctl
    var value: int

    constructor (ghost addr: Ctl)
      ensures this.addr == addr && value == 1
    {
      this.addr := addr;
      value := 1;
    }

    /** Every owner sees the new value. */
    method Add(n: int, ghost h: Heap) returns (before: int)
      requires h.PlacedBut(null) && h.Refers(this)
      modifies this
      ensures h.PlacedBut(null) && before == old(value) && value == before + n
      ensures h.View() == old(h.View()).(count := old(h.View()).count[addr := value])
    {
      before := value;
      value := before + n;
      assert h.CountView() == old(h.CountView())[addr := value];
      assert h.SharedView() == old(h.SharedView()) && h.UniqueView() == old(h.UniqueView());
    }
  }

  ghost function IdOf(t: Target?): Option<Obj> { if t == null then None else Some(t.addr) }

  ghost function CtlOf(k: Counter?): Option<Ctl> { if k == null then None else Some(k.addr) }

  // The operations of the ownership machine, as the field updates that follow.

  lemma {:induction false} CopySharedIs(s: State, p: Ptr, q: Ptr)
    requires Legal(s, CopyShared(p, q))
    ensures Exec(s, CopyShared(p, q)) == AcquireShared(s.(shared := s.shared[p := s.shared[q]]), p, s.shared[q])
  {
    MapTwice(s.shared, p, s.shared[q], s.shared[q]);
  }

  lemma {:induction false} CopyAssignIs(s: State, p: Ptr, q: Ptr)
    requires Legal(s, CopyAssign(p, q))
    ensures Exec(s, CopyAssign(p, q)) ==
            if p == q then s
            else var r := ReleaseShared(s, p);
                 AcquireShared(r.(shared := r.shared[p := s.shared[q]]), p, s.shared[q])
  {
    var r := ReleaseShared(s, p);
    hide ReleaseShared;
    MapTwice(r.shared, p, s.shared[q], s.shared[q]);
  }

  lemma {:induction false} FromUniqueIs(s: State, p: Ptr, u: Ptr, c: Ctl)
    requires Legal(s, SharedFromUnique(p, u, c))
    ensures Exec(s, SharedFromUnique(p, u, c)) == Transfer(s.(shared := s.shared[p := NULL]), p, u, c)
  {
    MapTwice(s.shared, p, NULL, Shared(s.unique[u].data, Some(c)));
  }

  lemma {:induction false} MoveUniqueIs(s: State, u: Ptr, v: Ptr)
    requires Legal(s, MoveUnique(u, v))
    ensures Exec(s, MoveUnique(u, v)) == s.(unique := s.unique[u := s.unique[v]][v := Unique(None, false)])
  {
    MapSwap(s.unique, u, s.unique[v], v, Unique(None, false));
  }

  lemma {:induction false} MoveAssignUniqueIs(s: State, u: Ptr, v: Ptr)
    requires Legal(s, MoveAssignUnique(u, v))
    ensures Exec(s, MoveAssignUnique(u, v)) ==
            if u == v then s
            else var r := ReleaseUnique(s, u); r.(unique := r.unique[u := s.unique[v]][v := Unique(None, false)])
  {
    ReleaseUniqueLeaves(s, u);
    var r := ReleaseUnique(s, u);
    hide ReleaseUnique;
    if u != v { MapSwap(r.unique, u, s.unique[v], v, Unique(None, false)); }
  }

  /** A reference is dropped, and the pointer that held it is not null yet. */
  ghost function Dropped(s: State, c: Ctl, o: Option<Obj>): State
    requires c in s.count
  {
    var t := s.(count := s.count[c := s.count[c] - 1]);
    if s.count[c] == 1
    then t.(deleted := s.deleted + One(o)).(count := t.count - {c}, made := s.made - {c})
    else t
  }

  lemma {:induction false} ReleaseIs(s: State, p: Ptr)
    requires p in s.shared
    ensures s.shared[p].ctl == None ==> ReleaseShared(s, p) == s.(shared := s.shared[p := NULL])
    ensures s.shared[p].ctl.Some? && s.shared[p].ctl.value in s.count ==>
              ReleaseShared(s, p) ==
              Dropped(s, s.shared[p].ctl.value, s.shared[p].data).(shared := s.shared[p := NULL])
    ensures forall c, o :: c in s.count ==> Dropped(s, c, o).shared == s.shared
  {
    if s.shared[p].ctl.Some? && s.shared[p].ctl.value in s.count {
      var c := s.shared[p].ctl.value;
      MapDrop(s.count, c, s.count[c] - 1);
    }
  }

  lemma {:induction false} MapDrop<V>(m: map<nat, V>, k: nat, v: V)
    ensures m[k := v] - {k} == m - {k}
  {
  }

  lemma {:induction false} MapTwice<V>(m: map<nat, V>, k: nat, v: V, w: V)
    ensures m[k := v][k := w] == m[k := w]
  {
  }

  lemma {:induction false} MapSwap<V>(m: map<nat, V>, k: nat, v: V, l: nat, w: V)
    requires k != l
    ensures m[k := v][l := w] == m[l := w][k := v]
  {
  }

  /** What is alive, by address, and the history of the targets. It is not part of the
      program: the methods of the pointers record in it what they construct and delete. */
  class Heap {
    ghost var shared: map<Ptr, SharedPointer>
    ghost var unique: map<Ptr, UniquePointer>
    ghost var counters: map<Ctl, Counter>
    ghost var deleted: multiset<Obj>
    ghost var made: map<Ctl, Option<Obj>>
    ghost var created: set<Obj>
    ghost var leaked: set<Obj>

    constructor ()
      ensures Valid() && View() == EMPTY
    {
      shared, unique, counters, deleted := map[], map[], map[], multiset{};
      made, created, leaked := map[], {}, {};
      new;
      EmptyInv();
      hide InvBut;
      assert View() == EMPTY;
    }

    ghost function SharedView(): map<Ptr, Shared>
      reads this, shared.Values
    {
      map p | p in shared :: shared[p].View()
    }

    ghost function UniqueView(): map<Ptr, Unique>
      reads this, unique.Values
    {
      map u | u in unique :: unique[u].View()
    }

    ghost function CountView(): map<Ctl, int>
      reads this, counters.Values
    {
      map c | c in counters :: counters[c].value
    }

    ghost function View(): State
      reads this, shared.Values, unique.Values, counters.Values
    {
      State(SharedView(), UniqueView(), CountView(), deleted, made, created, leaked)
    }

    /** A null reference, or one to a counter that has not been deleted. */
    ghost predicate Refers(k: Counter?)
      reads this
    {
      k == null || (k.addr in counters && counters[k.addr] == k)
    }

    /** Objects are where their addresses say, and no pointer, except perhaps x, has a
        dangling reference to a counter. */
    ghost predicate PlacedBut(x: SharedPointer?)
      reads this, shared.Values, unique.Values, counters.Values
    {
      && (forall p :: p in shared ==> shared[p].addr == p && (shared[p] == x || Refers(shared[p].count)))
      && (forall u :: u in unique ==> unique[u].addr == u)
      && (forall c :: c in counters ==> counters[c].addr == c)
    }

    ghost predicate Valid()
      reads this, shared.Values, unique.Values, counters.Values
    {
      PlacedBut(null) && Inv(View())
    }

    /** What the views say about one pointer or counter. */
    lemma {:induction false} Sees()
      ensures View().shared.Keys == shared.Keys && forall p :: p in shared ==> View().shared[p] == shared[p].View()
      ensures View().unique.Keys == unique.Keys && forall u :: u in unique ==> View().unique[u] == unique[u].View()
      ensures View().count.Keys == counters.Keys && forall c :: c in counters ==> View().count[c] == counters[c].value
    {
    }

    lemma {:induction false} Weaken(x: SharedPointer)
      requires PlacedBut(null)
      ensures PlacedBut(x)
    {
    }

    lemma {:induction false} NotDangling(p: SharedPointer)
      requires PlacedBut(null) && p.In(this)
      ensures Refers(p.count)
    {
    }

    ghost method Create(o: Option<Obj>)
      requires PlacedBut(null)
      modifies this`created
      ensures PlacedBut(null) && View() == old(View()).(created := old(View()).created + SetOf(o))
    {
      created := created + SetOf(o);
      assert SharedView() == old(SharedView()) && UniqueView() == old(UniqueView());
    }

    ghost method Delete(o: Option<Obj>, x: SharedPointer?)
      requires PlacedBut(x)
      modifies this`deleted
      ensures PlacedBut(x) && View() == old(View()).(deleted := old(View()).deleted + One(o))
    {
      deleted := deleted + One(o);
      assert SharedView() == old(SharedView()) && UniqueView() == old(UniqueView());
    }

    ghost method Leak(o: Option<Obj>)
      requires PlacedBut(null)
      modifies this`leaked
      ensures PlacedBut(null) && View() == old(View()).(leaked := old(View()).leaked + SetOf(o))
    {
      leaked := leaked + SetOf(o);
      assert SharedView() == old(SharedView()) && UniqueView() == old(UniqueView());
    }

    ghost method PutShared(p: SharedPointer)
      requires PlacedBut(null) && p.addr !in shared && Refers(p.count)
      modifies this`shared
      ensures PlacedBut(null) && shared == old(shared)[p.addr := p]
      ensures View() == old(View()).(shared := old(View()).shared[p.addr := p.View()])
    {
      shared := shared[p.addr := p];
      assert SharedView() == old(SharedView())[p.addr := p.View()];
    }

    ghost method RemoveShared(p: SharedPointer)
      requires PlacedBut(null) && p.In(this)
      modifies this`shared
      ensures PlacedBut(null) && shared == old(shared) - {p.addr}
      ensures View() == old(View()).(shared := old(View()).shared - {p.addr})
    {
      shared := shared - {p.addr};
      assert SharedView() == old(SharedView()) - {p.addr};
    }

    ghost method PutCounter(k: Counter, o: Option<Obj>, x: SharedPointer?)
      requires PlacedBut(x) && k.addr !in counters
      modifies this`counters, this`made
      ensures PlacedBut(x) && counters == old(counters)[k.addr := k]
      ensures View() == old(View()).(count := old(View()).count[k.addr := k.value],
                                     made := old(View()).made[k.addr := o])
    {
      counters, made := counters[k.addr := k], made[k.addr := o];
      assert CountView() == old(CountView())[k.addr := k.value];
    }

    /** Deleting a counter leaves no dangling reference but that of its last owner. */
    ghost method DeleteCounter(k: Counter, x: SharedPointer)
      requires PlacedBut(x) && Refers(k)
      requires forall p :: p in shared && shared[p] != x ==> shared[p].count != k
      modifies this`counters, this`made
      ensures PlacedBut(x) && counters == old(counters) - {k.addr}
      ensures View() == old(View()).(count := old(View()).count - {k.addr}, made := old(View()).made - {k.addr})
    {
      counters, made := counters - {k.addr}, made - {k.addr};
      assert CountView() == old(CountView()) - {k.addr};
    }

    ghost method PutUnique(u: UniquePointer)
      requires PlacedBut(null) && u.addr !in unique
      modifies this`unique
      ensures PlacedBut(null) && unique == old(unique)[u.addr := u]
      ensures View() == old(View()).(unique := old(View()).unique[u.addr := u.View()])
    {
      unique := unique[u.addr := u];
      assert UniqueView() == old(UniqueView())[u.addr := u.View()];
    }

    ghost method RemoveUnique(u: UniquePointer)
      requires PlacedBut(null) && u.In(this)
      modifies this`unique
      ensures PlacedBut(null) && unique == old(unique) - {u.addr}
      ensures View() == old(View()).(unique := old(View()).unique - {u.addr})
    {
      unique := unique - {u.addr};
      assert UniqueView() == old(UniqueView()) - {u.addr};
    }
  }

  class SharedPointer {
    ghost const addr: Ptr
    var data: Target?
    var count: Counter?

    ghost function View(): Shared
      reads this
    {
      Shared(IdOf(data), CtlOf(count))
    }

    ghost predicate In(h: Heap)
      reads h
    {
      addr in h.shared && h.shared[addr] == this
    }

    /** Owns a new target, with a counter of its own, or nothing. */
    constructor (data: Target?, ghost h: Heap, ghost addr: Ptr, ghost c: Ctl)
      requires h.Valid() && Legal(h.View(), NewShared(addr, IdOf(data), c))
      modifies h
      ensures this.addr == addr && In(h)
      ensures h.Valid() && h.View() == Exec(old(h.View()), NewShared(addr, IdOf(data), c))
    {
      hide InvBut, Inv, Exec;
      var k: Counter? := null;
      if data != null {
        k := new Counter(c);
      }
      this.addr, this.data, count := addr, data, k;
      new;
      assert h.View() == old(h.View()) && h.PlacedBut(null);
      hide Heap.View, Heap.PlacedBut;
      Record(h, c);
    }

    ghost method Record(h: Heap, c: Ctl)
      requires h.PlacedBut(null) && Inv(h.View()) && Legal(h.View(), NewShared(addr, IdOf(data), c))
      requires if data == null then count == null else count != null && count.addr == c && count.value == 1
      modifies h
      ensures In(h) && h.PlacedBut(null) && Inv(h.View())
      ensures h.View() == Exec(old(h.View()), NewShared(addr, IdOf(data), c))
    {
      hide InvBut, Inv, Heap.View, Heap.PlacedBut;
      h.Sees();
      ExecInv(h.View(), NewShared(addr, IdOf(data), c));
      if data != null {
        h.Create(IdOf(data));
        h.PutCounter(count, IdOf(data), null);
      }
      h.PutShared(this);
    }

    /** Copies the fields of another pointer and becomes one more owner. */
    constructor Copy(other: SharedPointer, ghost h: Heap, ghost addr: Ptr)
      requires h.Valid() && other.In(h) && Legal(h.View(), CopyShared(addr, other.addr))
      modifies h, other.count
      ensures this.addr == addr && In(h)
      ensures h.Valid() && h.View() == Exec(old(h.View()), CopyShared(addr, other.addr))
    {
      hide InvBut, Inv, Exec;
      this.addr, data, count := addr, other.data, other.count;
      new;
      assert h.View() == old(h.View());
      hide Heap.View, Heap.PlacedBut;
      h.Sees();
      ExecInv(h.View(), CopyShared(addr, other.addr));
      CopySharedIs(h.View(), addr, other.addr);
      hide AcquireShared;
      h.NotDangling(other);
      h.PutShared(this);
      AcquireUnlocked(h);
    }

    /** Takes the fields of another pointer and leaves it null. */
    constructor Move(other: SharedPointer, ghost h: Heap, ghost addr: Ptr)
      requires h.Valid() && other.In(h) && Legal(h.View(), MoveShared(addr, other.addr))
      modifies h, other
      ensures this.addr == addr && In(h)
      ensures h.Valid() && h.View() == Exec(old(h.View()), MoveShared(addr, other.addr))
    {
      hide InvBut, Inv;
      this.addr, data, count := addr, other.data, other.count;
      new;
      assert h.View() == old(h.View());
      hide Heap.View, Heap.PlacedBut;
      h.Sees();
      ExecInv(h.View(), MoveShared(addr, other.addr));
      h.NotDangling(other);
      h.PutShared(this);
      other.SetFields(null, null, h);
    }

    /** Takes over the target of a unique pointer. */
    constructor FromUnique(other: UniquePointer, ghost h: Heap, ghost addr: Ptr, ghost c: Ctl)
      requires h.Valid() && other.In(h) && Legal(h.View(), SharedFromUnique(addr, other.addr, c))
      modifies h, other
      ensures this.addr == addr && In(h)
      ensures h.Valid() && h.View() == Exec(old(h.View()), SharedFromUnique(addr, other.addr, c))
    {
      hide InvBut, Inv, Exec;
      this.addr, data, count := addr, null, null;
      new;
      assert h.View() == old(h.View()) && h.PlacedBut(null);
      hide Heap.View, Heap.PlacedBut;
      StartFrom(other, h, c);
    }

    method StartFrom(other: UniquePointer, ghost h: Heap, ghost c: Ctl)
      requires h.PlacedBut(null) && Inv(h.View()) && Legal(h.View(), SharedFromUnique(addr, other.addr, c))
      requires other.In(h) && View() == NULL
      modifies this, h, other
      ensures In(h) && h.PlacedBut(null) && Inv(h.View())
      ensures h.View() == Exec(old(h.View()), SharedFromUnique(addr, other.addr, c))
    {
      hide InvBut, Inv, Exec, Heap.View, Heap.PlacedBut, Transfer;
      h.Sees();
      ExecInv(h.View(), SharedFromUnique(addr, other.addr, c));
      FromUniqueIs(h.View(), addr, other.addr, c);
      h.PutShared(this);
      Adopt(other, h, c);
    }

    method SetFields(data: Target?, count: Counter?, ghost h: Heap)
      requires (h.PlacedBut(null) || h.PlacedBut(this)) && In(h) && h.Refers(count)
      modifies this
      ensures h.PlacedBut(null) && this.data == data && this.count == count
      ensures h.View() == old(h.View()).(shared := old(h.View()).shared[addr := View()])
    {
      this.data, this.count := data, count;
      assert h.SharedView() == old(h.SharedView())[addr := View()];
    }

    /** One more owner, if there is a counter. */
    method AcquireUnlocked(ghost h: Heap)
      requires h.PlacedBut(null) && In(h)
      modifies count
      ensures h.PlacedBut(null) && h.View() == AcquireShared(old(h.View()), addr, View())
    {
      hide Heap.View, Heap.PlacedBut;
      h.Sees();
      h.NotDangling(this);
      assert h.View().shared[addr := View()] == h.View().shared;
      if count != null {
        var _ := count.Add(1, h);
      }
    }

    /** One owner less. The last one deletes the target and the counter. */
    method ReleaseUnlocked(ghost h: Heap)
      requires h.Valid() && In(h)
      modifies this, h, count
      ensures h.Valid() && h.View() == ReleaseShared(old(h.View()), addr)
      ensures h.shared == old(h.shared) && h.unique == old(h.unique) && data == null && count == null
    {
      hide InvBut, Inv, ReleaseShared, Dropped, Heap.View, Heap.PlacedBut;
      h.Sees();
      ReleaseSharedInv(h.View(), addr);
      ReleaseIs(h.View(), addr);
      if count != null {
        h.NotDangling(this);
        DropReference(h);
      }
      SetFields(null, null, h);
    }

    method DropReference(ghost h: Heap)
      requires h.Valid() && In(h) && count != null && count.addr in h.View().count
      modifies h`counters, h`made, h`deleted, count
      ensures h.PlacedBut(this) && h.View() == Dropped(old(h.View()), count.addr, IdOf(data))
    {
      hide InvBut, Inv, Heap.View, Heap.PlacedBut;
      h.Sees();
      LastOne(h);
      h.NotDangling(this);
      var before := count.Add(-1, h);
      h.Weaken(this);
      if before == 1 {
        h.Delete(IdOf(data), this);
        h.DeleteCounter(count, this);
      }
    }

    /** A counter that stands at one belongs to this pointer alone. */
    lemma {:induction false} LastOne(h: Heap)
      requires h.Valid() && In(h)
      ensures count != null && count.value == 1 ==>
                forall p :: p in h.shared && h.shared[p] != this ==> h.shared[p].count != count
    {
      if count != null && count.value == 1 {
        LastOwner(h.View(), addr, count.addr);
        hide InvBut;
        forall p | p in h.shared && h.shared[p] != this ensures h.shared[p].count != count {
          assert h.View().shared[p].ctl == CtlOf(h.shared[p].count);
        }
      }
    }

    /** The counter, read through any of its owners, is the number of owners. */
    method GetCount(ghost h: Heap) returns (n: int)
      requires h.Valid() && In(h)
      ensures n == if count == null then 0 else |Owners(h.View().shared, count.addr)|
    {
      hide InvBut;
      h.NotDangling(this);
      n := if count == null then 0 else count.value;
      CountIs(h);
    }

    lemma {:induction false} CountIs(h: Heap)
      requires h.Valid() && In(h) && h.Refers(count)
      ensures count != null ==> count.value == |Owners(h.View().shared, count.addr)|
    {
      h.Sees();
      hide Heap.View;
      assert Counting(h.View());
    }

    /** Copy assignment; assigning a pointer to itself does nothing. */
    method Assign(other: SharedPointer, ghost h: Heap)
      requires h.Valid() && In(h) && other.In(h)
      modifies this, h, count, other.count
      ensures h.Valid() && h.View() == Exec(old(h.View()), CopyAssign(addr, other.addr))
    {
      hide InvBut, Inv, Exec, Heap.View, Heap.PlacedBut, ReleaseShared;
      h.Sees();
      ExecInv(h.View(), CopyAssign(addr, other.addr));
      CopyAssignIs(h.View(), addr, other.addr);
      ReleaseLeaves(h.View(), addr);
      hide AcquireShared;
      if this != other {
        ReleaseUnlocked(h);
        h.NotDangling(other);
        SetFields(other.data, other.count, h);
        AcquireUnlocked(h);
      }
    }

    /** Move assignment. */
    method AssignMoved(other: SharedPointer, ghost h: Heap)
      requires h.Valid() && In(h) && other.In(h)
      modifies this, h, count, other
      ensures h.Valid() && h.View() == Exec(old(h.View()), MoveAssign(addr, other.addr))
    {
      hide InvBut, Inv, Heap.View, Heap.PlacedBut, ReleaseShared;
      h.Sees();
      ExecInv(h.View(), MoveAssign(addr, other.addr));
      ReleaseLeaves(h.View(), addr);
      if this != other {
        ReleaseUnlocked(h);
        h.NotDangling(other);
        SetFields(other.data, other.count, h);
        other.SetFields(null, null, h);
      }
    }

    method AssignFromUnique(other: UniquePointer, ghost h: Heap, ghost c: Ctl)
      requires h.Valid() && In(h) && other.In(h) && c !in h.counters
      modifies this, h, count, other
      ensures h.Valid() && h.View() == Exec(old(h.View()), Op.AssignFromUnique(addr, other.addr, c))
    {
      hide InvBut, Inv, Heap.View, Heap.PlacedBut, ReleaseShared;
      h.Sees();
      ExecInv(h.View(), Op.AssignFromUnique(addr, other.addr, c));
      hide Transfer;
      ReleaseLeaves(h.View(), addr);
      ReleaseUnlocked(h);
      h.Sees();
      Adopt(other, h, c);
    }

    /** A null pointer becomes the owner of what a unique pointer owns. */
    method Adopt(other: UniquePointer, ghost h: Heap, ghost c: Ctl)
      requires h.PlacedBut(null) && In(h) && other.In(h) && c !in h.counters
      modifies this, h`counters, h`made, other
      ensures h.PlacedBut(null) && h.View() == Transfer(old(h.View()), addr, other.addr, c)
    {
      hide Transfer;
      var k := new Counter(c);
      assert h.View() == old(h.View()) && h.PlacedBut(null);
      hide Heap.View, Heap.PlacedBut;
      AdoptWith(k, other, h);
    }

    method AdoptWith(k: Counter, other: UniquePointer, ghost h: Heap)
      requires h.PlacedBut(null) && In(h) && other.In(h) && k.addr !in h.counters && k.value == 1
      modifies this, h`counters, h`made, other
      ensures h.PlacedBut(null) && h.View() == Transfer(old(h.View()), addr, other.addr, k.addr)
    {
      hide Heap.View, Heap.PlacedBut;
      h.Sees();
      h.PutCounter(k, IdOf(other.data), null);
      SetFields(other.data, k, h);
      other.GiveUp(h);
    }

    method Destroy(ghost h: Heap)
      requires h.Valid() && In(h)
      modifies this, h, count
      ensures h.Valid() && h.View() == Exec(old(h.View()), DropShared(addr))
    {
      hide InvBut, Inv, Heap.View, Heap.PlacedBut, ReleaseShared;
      h.Sees();
      ExecInv(h.View(), DropShared(addr));
      ReleaseUnlocked(h);
      h.RemoveShared(this);
    }
  }

  class UniquePointer {
    ghost const addr: Ptr
    var data: Target?
    var shouldLeak: bool

    ghost function View(): Unique
      reads this
    {
      Unique(IdOf(data), shouldLeak)
    }

    ghost predicate In(h: Heap)
      reads h
    {
      addr in h.unique && h.unique[addr] == this
    }

    constructor (data: Target?, ghost h: Heap, ghost addr: Ptr)
      requires h.Valid() && Legal(h.View(), NewUnique(addr, IdOf(data)))
      modifies h
      ensures this.addr == addr && In(h)
      ensures h.Valid() && h.View() == Exec(old(h.View()), NewUnique(addr, IdOf(data)))
    {
      hide InvBut, Inv, Exec;
      this.addr, this.data, shouldLeak := addr, data, false;
      new;
      assert h.View() == old(h.View()) && h.PlacedBut(null);
      hide Heap.View, Heap.PlacedBut;
      Record(h);
    }

    ghost method Record(h: Heap)
      requires h.PlacedBut(null) && Inv(h.View()) && Legal(h.View(), NewUnique(addr, IdOf(data))) && !shouldLeak
      modifies h
      ensures In(h) && h.PlacedBut(null) && Inv(h.View())
      ensures h.View() == Exec(old(h.View()), NewUnique(addr, IdOf(data)))
    {
      hide InvBut, Inv, Heap.View, Heap.PlacedBut;
      h.Sees();
      ExecInv(h.View(), NewUnique(addr, IdOf(data)));
      h.Create(IdOf(data));
      h.PutUnique(this);
    }

    /** Takes the target and the leak mark of another pointer and resets it. */
    constructor Move(other: UniquePointer, ghost h: Heap, ghost addr: Ptr)
      requires h.Valid() && other.In(h) && Legal(h.View(), MoveUnique(addr, other.addr))
      modifies h, other
      ensures this.addr == addr && In(h)
      ensures h.Valid() && h.View() == Exec(old(h.View()), MoveUnique(addr, other.addr))
    {
      hide InvBut, Inv, Exec;
      this.addr, data, shouldLeak := addr, other.data, other.shouldLeak;
      new;
      assert h.View() == old(h.View());
      hide Heap.View, Heap.PlacedBut;
      h.Sees();
      ExecInv(h.View(), MoveUnique(addr, other.addr));
      MoveUniqueIs(h.View(), addr, other.addr);
      h.PutUnique(this);
      other.SetFields(null, false, h);
    }

    method SetFields(data: Target?, shouldLeak: bool, ghost h: Heap)
      requires h.PlacedBut(null) && In(h)
      modifies this
      ensures h.PlacedBut(null) && this.data == data && this.shouldLeak == shouldLeak
      ensures h.View() == old(h.View()).(unique := old(h.View()).unique[addr := View()])
    {
      this.data, this.shouldLeak := data, shouldLeak;
      assert h.UniqueView() == old(h.UniqueView())[addr := View()];
    }

    /** Lets go of the target and returns it if it is to be deleted. */
    method LetGo(ghost h: Heap) returns (dropped: Target?)
      requires h.PlacedBut(null) && In(h)
      modifies this
      ensures h.PlacedBut(null) && data == null && shouldLeak == old(shouldLeak)
      ensures dropped == if old(shouldLeak) then null else old(data)
      ensures h.View() == old(h.View()).(unique := old(h.View()).unique[addr := View()])
    {
      dropped := if shouldLeak then null else data;
      SetFields(null, shouldLeak, h);
    }

    /** The target now belongs to somebody else: the pointer is told to leak it, so
        that nothing is deleted when it is reset. */
    method GiveUp(ghost h: Heap)
      requires h.PlacedBut(null) && In(h)
      modifies this
      ensures h.PlacedBut(null) && data == null && !shouldLeak
      ensures h.View() == old(h.View()).(unique := old(h.View()).unique[addr := Unique(None, false)])
    {
      hide Heap.View, Heap.PlacedBut;
      ghost var m := h.View().unique;
      MapTwice(m, addr, Unique(IdOf(data), true), Unique(None, true));
      MapTwice(m, addr, Unique(None, true), Unique(None, false));
      SetFields(data, true, h);
      var dropped := LetGo(h);
      assert dropped == null;
      SetFields(null, false, h);
    }

    /** Deletes the target unless it is to be leaked. */
    method ReleaseUnlocked(ghost h: Heap)
      requires h.Valid() && In(h)
      modifies this, h`deleted, h`leaked
      ensures h.Valid() && h.View() == ReleaseUnique(old(h.View()), addr) && data == null
    {
      hide InvBut, Inv, Exec, Heap.View, Heap.PlacedBut;
      h.Sees();
      ReleaseUniqueInv(h.View(), addr);
      ghost var target := data;
      var dropped := LetGo(h);
      if shouldLeak {
        h.Leak(IdOf(target));
      } else {
        h.Delete(IdOf(dropped), null);
      }
    }

    /** Move assignment; assigning a pointer to itself does nothing. */
    method AssignMoved(other: UniquePointer, ghost h: Heap)
      requires h.Valid() && In(h) && other.In(h)
      modifies this, other, h`deleted, h`leaked
      ensures h.Valid() && h.View() == Exec(old(h.View()), MoveAssignUnique(addr, other.addr))
    {
      hide InvBut, Inv, Exec, Heap.View, Heap.PlacedBut, ReleaseUnique;
      h.Sees();
      ExecInv(h.View(), MoveAssignUnique(addr, other.addr));
      MoveAssignUniqueIs(h.View(), addr, other.addr);
      ReleaseUniqueLeaves(h.View(), addr);
      if this != other {
        ReleaseUnlocked(h);
        SetFields(other.data, other.shouldLeak, h);
        other.SetFields(null, false, h);
      }
    }

    /** The target will not be deleted when this pointer lets go of it. */
    method MarkShouldLeak(ghost h: Heap)
      requires h.Valid() && In(h)
      modifies this
      ensures h.Valid() && h.View() == Exec(old(h.View()), SetShouldLeak(addr))
    {
      hide InvBut, Inv, Heap.View, Heap.PlacedBut;
      h.Sees();
      ExecInv(h.View(), SetShouldLeak(addr));
      SetFields(data, true, h);
    }

    method Destroy(ghost h: Heap)
      requires h.Valid() && In(h)
      modifies this, h
      ensures h.Valid() && h.View() == Exec(old(h.View()), DropUnique(addr))
    {
      hide InvBut, Inv, Heap.View, Heap.PlacedBut, ReleaseUnique;
      h.Sees();
      ExecInv(h.View(), DropUnique(addr));
      ReleaseUnlocked(h);
      h.RemoveUnique(this);
    }
  }
}

/** A double-ended queue in a fixed circular buffer. */
module RingBuffer {

  /** The next and the previous index on a circle of the given size. */
  function Next(i: nat, capacity: nat): (r: nat)
    requires i < capacity
    ensures r < capacity
  {
    if i + 1 < capacity then i + 1 else 0
  }

  function Prev(i: nat, capacity: nat): (r: nat)
    requires i < capacity
    ensures r < capacity
  {
    if i == 0 then capacity - 1 else i - 1
  }

  /** The slot of the k'th element from the front. */
  function Slot(front: nat, k: nat, capacity: nat): (r: nat)
    requires front < capacity && k <= capacity
    ensures r < capacity
  {
    if front + k < capacity then front + k else front + k - capacity
  }

  /** Slots are the circular successors of the front, and `(front + k) mod capacity`. */
  lemma {:induction false} SlotIsModular(front: nat, k: nat, capacity: nat)
    requires front < capacity && k <= capacity
    ensures Slot(front, k, capacity) == (front + k) % capacity
    ensures k < capacity ==> Slot(front, k + 1, capacity) == Next(Slot(front, k, capacity), capacity)
  {
    if front + k < capacity { ModBelow(front + k, capacity); } else { ModOnce(front + k, capacity); }
  }

  lemma {:induction false} NextIsModular(i: nat, capacity: nat)
    requires i < capacity
    ensures Next(i, capacity) == (i + 1) % capacity
    ensures Prev(Next(i, capacity), capacity) == i == Next(Prev(i, capacity), capacity)
  {
    if i + 1 < capacity { ModBelow(i + 1, capacity); } else { ModOnce(i + 1, capacity); }
  }

  lemma {:induction false} ModBelow(x: nat, m: nat)
    requires x < m
    ensures x % m == x
  {
  }

  lemma {:induction false} ModOnce(x: nat, m: nat)
    requires m <= x < 2 * m
    ensures x % m == x - m
  {
    var q, r := x / m, x % m;
    assert x == q * m + r && 0 <= r < m;
    AtLeastTwice(q, m);
  }

  lemma {:induction false} AtLeastTwice(q: int, m: nat)
    ensures q >= 2 ==> q * m >= 2 * m
    ensures q <= 0 ==> q * m <= 0
  {
  }

  lemma {:induction false} NextSlot(front: nat, k: nat, capacity: nat)
    requires front < capacity && k < capacity
    ensures Next(Slot(front, k, capacity), capacity) == Slot(front, k + 1, capacity)
    ensures k + 1 < capacity ==> Prev(Slot(front, k + 1, capacity), capacity) == Slot(front, k, capacity)
  {
  }

  /** Different elements have different slots. */
  lemma {:induction false} SlotsDiffer(front: nat, n: nat, capacity: nat)
    requires front < capacity && n < capacity
    ensures forall a, b :: 0 <= a < b <= n ==> Slot(front, a, capacity) != Slot(front, b, capacity)
  {
  }

  /** The n elements from the front slot onwards, around the circle. */
  ghost function View<T>(b: seq<T>, front: nat, n: nat): (s: seq<T>)
    requires front < |b| && n <= |b|
    ensures |s| == n && forall k :: 0 <= k < n ==> s[k] == b[Slot(front, k, |b|)]
  {
    seq(n, k requires 0 <= k < n => b[Slot(front, k, |b|)])
  }

  lemma {:induction false} InsertView<T>(s: seq<T>, b: seq<T>, front: nat, index: nat, x: T)
    requires front < |b| && index < |s| < |b|
    requires forall k {:trigger Slot(front, k, |b|)} :: 0 <= k < index ==> b[Slot(front, k, |b|)] == s[k]
    requires b[Slot(front, index, |b|)] == x
    requires forall k {:trigger Slot(front, k, |b|)} :: index < k <= |s| ==> b[Slot(front, k, |b|)] == s[k - 1]
    ensures View(b, front, |s| + 1) == s[..index] + [x] + s[index..]
  {
    hide Slot;
  }

  lemma {:induction false} RemoveView<T>(s: seq<T>, b: seq<T>, front: nat, index: nat)
    requires front < |b| && index < |s| <= |b|
    requires forall k {:trigger Slot(front, k, |b|)} :: 0 <= k < index ==> b[Slot(front, k, |b|)] == s[k]
    requires forall k {:trigger Slot(front, k, |b|)} :: index <= k < |s| - 1 ==> b[Slot(front, k, |b|)] == s[k + 1]
    ensures View(b, front, |s| - 1) == s[..index] + s[index + 1..]
  {
    hide Slot;
  }

  class RingBuffer<T(0)> {
    const capacity: nat
    const buffer: array<T>
    var front: nat
    var back: nat
    var count: nat

    /** `back` is the slot of the last element, or the front slot when empty. */
    ghost predicate Valid()
      reads this
    {
      && 0 < capacity == buffer.Length && front < capacity && back < capacity && count <= capacity
      && back == Slot(front, if count == 0 then 0 else count - 1, capacity)
    }

    ghost function Contents(): (s: seq<T>)
      requires Valid()
      reads this, buffer
      ensures |s| == count
    {
      View(buffer[..], front, count)
    }

    constructor (capacity: nat)
      requires capacity > 0
      ensures Valid() && this.capacity == capacity && fresh(buffer) && Contents() == []
    {
      this.capacity := capacity;
      buffer := new T[capacity];
      front, back, count := 0, 0, 0;
    }

    /** Walks to a slot; `index == count` is one past the last element. */
    method IndexAt(index: nat) returns (cursor: nat)
      requires front < capacity && index <= count <= capacity
      ensures cursor == Slot(front, index, capacity)
    {
      cursor := front;
      for i := 0 to index
        invariant cursor == Slot(front, i, capacity)
      {
        cursor := Next(cursor, capacity);
      }
    }

    method At(index: nat) returns (x: T)
      requires Valid() && index < count
      ensures x == Contents()[index]
    {
      var cursor := IndexAt(index);
      x := buffer[cursor];
    }

    method Back() returns (x: T)
      requires Valid() && count > 0
      ensures x == Contents()[count - 1]
    {
      x := buffer[back];
    }

    method PushBack(x: T) returns (ok: bool)
      requires Valid()
      modifies this, buffer
      ensures Valid() && ok == (|old(Contents())| < capacity)
      ensures Contents() == if ok then old(Contents()) + [x] else old(Contents())
    {
      if count >= capacity {
        return false;
      }
      if count != 0 {
        back := Next(back, capacity);
      }
      count := count + 1;
      buffer[back] := x;
      return true;
    }

    method PushFront(x: T) returns (ok: bool)
      requires Valid()
      modifies this, buffer
      ensures Valid() && ok == (|old(Contents())| < capacity)
      ensures Contents() == if ok then [x] + old(Contents()) else old(Contents())
    {
      if count >= capacity {
        return false;
      }
      if count != 0 {
        front := Prev(front, capacity);
      }
      count := count + 1;
      buffer[front] := x;
      return true;
    }

    method PopBack()
      requires Valid() && count > 0
      modifies this
      ensures Valid() && Contents() == old(Contents())[..|old(Contents())| - 1]
    {
      if count != 1 {
        back := Prev(back, capacity);
      }
      count := count - 1;
    }

    method PopFront()
      requires Valid() && count > 0
      modifies this
      ensures Valid() && Contents() == old(Contents())[1..]
    {
      if count != 1 {
        front := Next(front, capacity);
      }
      count := count - 1;
    }

    /** Makes room by moving the elements behind `index` one slot back. */
    method Insert(index: nat, x: T) returns (ok: bool)
      requires Valid() && index <= count
      modifies this, buffer
      ensures Valid() && ok == (|old(Contents())| < capacity)
      ensures Contents() == if ok then old(Contents())[..index] + [x] + old(Contents())[index..] else old(Contents())
    {
      if count >= capacity {
        return false;
      }
      if index == 0 {
        ok := PushFront(x);
        return;
      }
      if index == count {
        ok := PushBack(x);
        return;
      }
      InsertInside(index, x);
      return true;
    }

    method InsertInside(index: nat, x: T)
      requires Valid() && 0 < index < count < capacity
      modifies this, buffer
      ensures Valid() && Contents() == old(Contents())[..index] + [x] + old(Contents())[index..]
    {
      ghost var s := Contents();
      back := Next(back, capacity);
      NextSlot(front, count - 1, capacity);
      hide Slot, Next, View;
      MakeRoom(index, x);
      count := count + 1;
    }

    /** Afterwards there is one element more, which is not counted yet. */
    method MakeRoom(index: nat, x: T)
      requires 0 < capacity == buffer.Length && front < capacity && index < count < capacity
      modifies buffer
      ensures View(buffer[..], front, count + 1) ==
              old(View(buffer[..], front, count))[..index] + [x] + old(View(buffer[..], front, count))[index..]
    {
      ghost var s := View(buffer[..], front, count);
      hide Slot, View;
      ShiftBack(index);
      Put(index, x);
      InsertView(s, buffer[..], front, index, x);
    }

    /** Overwrites the slot at `index` and no other. */
    method Put(index: nat, x: T)
      requires 0 < capacity == buffer.Length && front < capacity && index <= count <= capacity && index < capacity
      modifies buffer
      ensures buffer[Slot(front, index, capacity)] == x
      ensures forall k {:trigger Slot(front, k, capacity)} :: 0 <= k <= count && k < capacity && k != index ==>
                buffer[Slot(front, k, capacity)] == old(buffer[Slot(front, k, capacity)])
    {
      SlotsDiffer(front, if count < capacity then count else count - 1, capacity);
      hide Slot;
      var cursor := IndexAt(index);
      buffer[cursor] := x;
    }

    method ShiftBack(index: nat)
      requires 0 < capacity == buffer.Length && front < capacity && index < count < capacity
      modifies buffer
      ensures forall k {:trigger Slot(front, k, capacity)} :: 0 <= k <= index ==>
                buffer[Slot(front, k, capacity)] == old(View(buffer[..], front, count))[k]
      ensures forall k {:trigger Slot(front, k, capacity)} :: index < k <= count ==>
                buffer[Slot(front, k, capacity)] == old(View(buffer[..], front, count))[k - 1]
    {
      ghost var s := View(buffer[..], front, count);
      hide Slot, View;
      var i := count;
      while i > index
        invariant index <= i <= count && Shifting(s, i)
      {
        MoveBack(i, s);
        i := i - 1;
      }
    }

    /** The elements up to i are still in their slots, the others are one slot further. */
    ghost predicate Shifting(s: seq<T>, i: nat)
      requires 0 < capacity == buffer.Length && front < capacity && i <= count == |s| < capacity
      reads this, buffer
    {
      && (forall k {:trigger Slot(front, k, capacity)} :: 0 <= k <= i && k < count ==>
            buffer[Slot(front, k, capacity)] == s[k])
      && (forall k {:trigger Slot(front, k, capacity)} :: i < k <= count ==>
            buffer[Slot(front, k, capacity)] == s[k - 1])
    }

    method MoveBack(i: nat, ghost s: seq<T>)
      requires 0 < capacity == buffer.Length && front < capacity && 0 < i <= count == |s| < capacity
      requires Shifting(s, i)
      modifies buffer
      ensures Shifting(s, i - 1)
    {
      hide Slot;
      var prev := IndexAt(i - 1);
      Put(i, buffer[prev]);
    }

    /** Fills the hole by moving the elements behind `index` one slot forward. */
    method Remove(index: nat)
      requires Valid() && index < count
      modifies this, buffer
      ensures Valid() && Contents() == old(Contents())[..index] + old(Contents())[index + 1..]
    {
      if index == 0 {
        PopFront();
        return;
      }
      if index == count - 1 {
        PopBack();
        return;
      }
      RemoveInside(index);
    }

    method RemoveInside(index: nat)
      requires Valid() && 0 < index < count - 1
      modifies this, buffer
      ensures Valid() && Contents() == old(Contents())[..index] + old(Contents())[index + 1..]
    {
      ghost var s := Contents();
      NextSlot(front, count - 2, capacity);
      hide Slot, Prev, View;
      ShiftForward(index);
      back := Prev(back, capacity);
      count := count - 1;
      RemoveView(s, buffer[..], front, index);
    }

    method ShiftForward(index: nat)
      requires 0 < capacity == buffer.Length && front < capacity && index < count <= capacity
      modifies buffer
      ensures forall k {:trigger Slot(front, k, capacity)} :: 0 <= k < index ==>
                buffer[Slot(front, k, capacity)] == old(View(buffer[..], front, count))[k]
      ensures forall k {:trigger Slot(front, k, capacity)} :: index <= k < count - 1 ==>
                buffer[Slot(front, k, capacity)] == old(View(buffer[..], front, count))[k + 1]
    {
      hide Slot;
      ghost var s := View(buffer[..], front, count);
      var i := index;
      while i < count - 1
        invariant index <= i <= count - 1
        invariant forall k {:trigger Slot(front, k, capacity)} :: 0 <= k < index ==>
                    buffer[Slot(front, k, capacity)] == s[k]
        invariant forall k {:trigger Slot(front, k, capacity)} :: index <= k < i ==>
                    buffer[Slot(front, k, capacity)] == s[k + 1]
        invariant forall k {:trigger Slot(front, k, capacity)} :: i <= k < count ==>
                    buffer[Slot(front, k, capacity)] == s[k]
      {
        var next := IndexAt(i + 1);
        Put(i, buffer[next]);
        i := i + 1;
      }
    }
  }
}

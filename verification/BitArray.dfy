/** A compact array of bits: one bit per element, eight to a byte. */
module BitArray {

  function Mask(k: nat): bv8
    requires k < 8
  {
    1 << k
  }

  predicate Bit(b: bv8, k: nat)
    requires k < 8
  {
    b & Mask(k) != 0
  }

  lemma {:induction false} SetOne(b: bv8, k: nat, j: nat)
    requires k < 8 && j < 8
    ensures Bit(b | Mask(k), j) <==> j == k || Bit(b, j)
  {
  }

  lemma {:induction false} ClearOne(b: bv8, k: nat, j: nat)
    requires k < 8 && j < 8
    ensures Bit(b & !Mask(k), j) <==> j != k && Bit(b, j)
  {
  }

  lemma {:induction false} SameBit(i: nat, j: nat)
    ensures i / 8 == j / 8 && i % 8 == j % 8 <==> i == j
  {
  }

  class BitArray {
    const capacity: nat
    const storage: array<bv8>

    ghost predicate Valid() {
      0 < capacity <= 8 * storage.Length
    }

    predicate IsSet(i: nat)
      requires Valid() && i < capacity
      reads storage
    {
      Bit(storage[i / 8], i % 8)
    }

    /** The bits, in order. */
    ghost function Bits(): (bits: seq<bool>)
      requires Valid()
      reads storage
      ensures |bits| == capacity
    {
      seq(capacity, i requires 0 <= i < capacity reads storage => IsSet(i))
    }

    constructor (capacity: nat)
      requires capacity > 0
      ensures Valid() && this.capacity == capacity && fresh(storage)
      ensures Bits() == seq(capacity, _ => false)
    {
      this.capacity := capacity;
      storage := new bv8[(capacity + 31) / 32 * 4](_ => 0);
    }

    method SetAll()
      requires Valid()
      modifies storage
      ensures Bits() == seq(capacity, _ => true)
    {
      for i := 0 to storage.Length
        invariant forall j :: 0 <= j < i ==> storage[j] == 0xFF
      {
        storage[i] := 0xFF;
      }
    }

    method Set(i: nat)
      requires Valid() && i < capacity
      modifies storage
      ensures Bits() == old(Bits())[i := true]
    {
      ghost var b := storage[i / 8];
      storage[i / 8] := storage[i / 8] | Mask(i % 8);
      forall j | 0 <= j < capacity ensures IsSet(j) == old(Bits())[i := true][j] {
        SetOne(b, i % 8, j % 8);
        SameBit(i, j);
        hide Mask, Bit;
      }
    }

    method Clear(i: nat)
      requires Valid() && i < capacity
      modifies storage
      ensures Bits() == old(Bits())[i := false]
    {
      ghost var b := storage[i / 8];
      storage[i / 8] := storage[i / 8] & !Mask(i % 8);
      forall j | 0 <= j < capacity ensures IsSet(j) == old(Bits())[i := false][j] {
        ClearOne(b, i % 8, j % 8);
        SameBit(i, j);
        hide Mask, Bit;
      }
    }

    method Test(i: nat) returns (r: bool)
      requires Valid() && i < capacity
      ensures r == Bits()[i]
    {
      r := storage[i / 8] & Mask(i % 8) != 0;
    }
  }
}

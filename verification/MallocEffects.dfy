/** What each operation does to the set of allocations, in terms of what the caller
    asked for; and that this set determines the block list. */
module MallocEffects {
  import opened MallocModel
  import opened MallocProofs
  import opened MallocTheorems
  import opened MallocRuns

  // ------------------------------------------------- the list is its allocations

  /** Two zones over the same region with the same allocations are the same list: the
      free blocks are exactly the gaps. */
  lemma {:induction false} AllocationsDetermineZone(s: seq<Block>, t: seq<Block>, lo: nat, hi: nat)
    requires Inv(s, lo, hi) && Inv(t, lo, hi) && Allocs(s) == Allocs(t)
    ensures s == t
  {
    var n := if |s| <= |t| then |s| else |t|;
    SamePrefix(s, t, n, lo, hi);
    hide Inv;
    if |s| <= |t| { NoMore(s, t, lo, hi); } else { NoMore(t, s, lo, hi); }
  }

  /** A list that ends where the zone ends has nothing behind it. */
  lemma {:induction false} NoMore(s: seq<Block>, t: seq<Block>, lo: nat, hi: nat)
    requires Inv(s, lo, hi) && Inv(t, lo, hi) && |s| <= |t| && forall i :: 0 <= i < |s| ==> s[i] == t[i]
    ensures |s| == |t|
  {
    var k := |s|;
    assert t[k - 1].End() == hi;
    assert k < |t| ==> t[k - 1].End() == t[k].addr;
    Distinct(t, lo, hi);
  }

  lemma {:induction false} SamePrefix(s: seq<Block>, t: seq<Block>, n: nat, lo: nat, hi: nat)
    requires Inv(s, lo, hi) && Inv(t, lo, hi) && Allocs(s) == Allocs(t) && n <= |s| && n <= |t|
    ensures forall i :: 0 <= i < n ==> s[i] == t[i]
  {
    if n == 0 {
    } else {
      SamePrefix(s, t, n - 1, lo, hi);
      if n > 1 { assert s[n - 2].End() == s[n - 1].addr && t[n - 2].End() == t[n - 1].addr; }
      hide Inv;
      SameBlock(s, t, n - 1, lo, hi);
    }
  }

  lemma {:induction false} SameBlock(s: seq<Block>, t: seq<Block>, k: nat, lo: nat, hi: nat)
    requires Inv(s, lo, hi) && Inv(t, lo, hi) && Allocs(s) == Allocs(t)
    requires k < |s| && k < |t| && s[k].addr == t[k].addr
    ensures s[k] == t[k]
  {
    hide Inv, Allocs;
    if s[k].inuse { AllocatedAt(s, t, k, k, lo, hi); }
    else if t[k].inuse { AllocatedAt(t, s, k, k, lo, hi); }
    else if s[k].End() < t[k].End() { FreeReaches(s, t, k, lo, hi); }
    else if t[k].End() < s[k].End() { FreeReaches(t, s, k, lo, hi); }
  }

  /** An allocation of one list is the block of the other that starts at its address. */
  lemma {:induction false} AllocatedAt(s: seq<Block>, t: seq<Block>, i: nat, j: nat, lo: nat, hi: nat)
    requires Inv(t, lo, hi) && Allocs(s) <= Allocs(t)
    requires i < |s| && j < |t| && s[i].inuse && t[j].addr <= s[i].addr < t[j].End()
    ensures t[j] == s[i]
  {
    assert s[i] in Allocs(s);
    var x :| 0 <= x < |t| && t[x] == s[i];
    if x < j { Increasing(t, lo, hi, x, j); } else if j < x { Increasing(t, lo, hi, j, x); }
  }

  /** A free block ends where an allocation starts, or at the end of the zone. */
  lemma {:induction false} FreeReaches(s: seq<Block>, t: seq<Block>, k: nat, lo: nat, hi: nat)
    requires Inv(s, lo, hi) && Inv(t, lo, hi) && Allocs(s) == Allocs(t)
    requires k < |s| && k < |t| && !s[k].inuse && !t[k].inuse && s[k].addr == t[k].addr
    ensures s[k].End() >= t[k].End()
  {
    Distinct(t, lo, hi);
    assert k + 1 == |s| ==> s[k].End() == hi;
    if k + 1 < |s| && s[k].End() < t[k].End() {
      assert s[k].End() == s[k + 1].addr && (s[k].inuse || s[k + 1].inuse);
      hide Inv;
      AllocatedAt(s, t, k + 1, k, lo, hi);
    }
  }

  // --------------------------------------------------------- what a caller gets

  /** One new allocation at `ptr`, of the requested size up to rounding and what is too
      small to split off; all others are as before. */
  ghost predicate Gets(before: set<Block>, after: set<Block>, ptr: nat, size: nat) {
    exists b :: && b !in before && after == before + {b}
                && b.inuse && b.Payload() == ptr && size <= b.size <= size + 3 + H
  }

  lemma {:induction false} GrantedGets(s: seq<Block>, t: seq<Block>, ptr: nat, size: nat, lo: nat, hi: nat)
    requires Inv(s, lo, hi) && Inv(t, lo, hi) && size < WORD && Granted(s, t, ptr, RoundUp(size))
    ensures Gets(Allocs(s), Allocs(t), ptr, size)
  {
    var n := RoundUp(size);
    var b :| Allocs(t) == Allocs(s) + {b} && b.Payload() == ptr && n <= b.size <= n + H;
    assert b in Allocs(t);
    Fitting(t, b, lo, hi);
    assert b !in Allocs(s);
  }

  /** No block of a zone is as big as a saturated request. */
  lemma {:induction false} Fitting(s: seq<Block>, b: Block, lo: nat, hi: nat)
    requires Inv(s, lo, hi) && b in Allocs(s)
    ensures b.size + 4 < WORD
  {
    var i :| 0 <= i < |s| && s[i] == b;
    Distinct(s, lo, hi);
  }

  lemma {:induction false} MallocCorrect(s: seq<Block>, size: nat, lo: nat, hi: nat)
    requires Inv(s, lo, hi) && size < WORD
    ensures var o := Malloc(s, size);
            if o.ptr == 0 then o.zone == s
            else Inv(o.zone, lo, hi) && Gets(Allocs(s), Allocs(o.zone), o.ptr, size)
  {
    hide Inv, Malloc, Gets, RoundUp;
    if Malloc(s, size).ptr == 0 {
      MallocFailsIff(s, size, lo, hi);
    } else {
      var k := MallocGrants(s, size, lo, hi);
      GrantedGets(s, Malloc(s, size).zone, Malloc(s, size).ptr, size, lo, hi);
    }
  }

  /** An aligned request gets an aligned allocation of the size asked for, in the best
      fit among the aligned free blocks if there is one; with alignment 0 it is served
      like any other request. */
  lemma {:induction false} MemalignCorrect(s: seq<Block>, size: nat, align: nat, lo: nat, hi: nat)
    requires Inv(s, lo, hi) && size < WORD && MemalignSafe(s, size, align)
    ensures align == 0 ==> Memalign(s, size, align) == Malloc(s, size)
    ensures var o := Memalign(s, size, align);
            && (align > 0 ==> o.ptr != 0 && o.ptr % align == 0)
            && (o.ptr != 0 ==> Inv(o.zone, lo, hi) && Gets(Allocs(s), Allocs(o.zone), o.ptr, size))
    ensures align > 0 ==>
              forall k: nat :: IsBestFit(s, |s|, RoundUp(size), align, k) ==>
                Memalign(s, size, align).ptr == s[k].Payload()
  {
    if align == 0 {
      MallocCorrect(s, size, lo, hi);
    } else {
      var n := RoundUp(size);
      MemalignGrants(s, n, align, lo, hi);
      SafeFinds(s, n, align);
      MemalignTakesBestFit(s, n, align);
      var o := AlignedTake(s, n, align);
      hide Inv, AlignedTake, AlignedSafe, AlignedFinds, Gets, IsBestFit, RoundUp;
      GrantedGets(s, o.zone, o.ptr, size, lo, hi);
      GrantedNotNull(s, o.zone, o.ptr, n);
    }
  }

  lemma {:induction false} GrantedNotNull(s: seq<Block>, t: seq<Block>, ptr: nat, n: nat)
    requires Granted(s, t, ptr, n)
    ensures ptr != 0
  {
  }

  lemma {:induction false} MemalignTakesBestFit(s: seq<Block>, n: nat, align: nat)
    requires align > 0 && AlignedFinds(s, n, align)
    ensures forall k: nat :: IsBestFit(s, |s|, n, align, k) ==> AlignedTake(s, n, align).ptr == s[k].Payload()
  {
    BestFitCorrect(s, |s|, n, align);
    hide BestFit, Rem;
  }

  /** The allocation `was` is replaced by one at `ptr` of the requested size, up to
      rounding and what is too small to split off; all others are as before. */
  ghost predicate Resized(before: set<Block>, after: set<Block>, was: Block, ptr: nat, size: nat) {
    exists b :: && b !in before - {was} && after == before - {was} + {b}
                && b.inuse && b.Payload() == ptr && size <= b.size <= size + 3 + H
  }

  /** The way that is taken: stay, if the block is or can be made big enough where it
      is; else move to the best fit, if any block fits; else move to the block before. */
  lemma {:induction false} ReallocWay(s: seq<Block>, i: nat, n: nat, lo: nat, hi: nat) returns (j: nat)
    requires Inv(s, lo, hi) && i < |s| && s[i].inuse && n < WORD && n % 4 == 0 && ReallocAt(s, i, n).ptr != 0
    ensures j < |s| && ReallocAt(s, i, n).ptr == s[j].Payload()
    ensures if n <= s[i].size || (i + 1 < |s| && !s[i + 1].inuse && n <= s[i].size + H + s[i + 1].size) then j == i
            else if exists k :: 0 <= k < |s| && !s[k].inuse && n <= s[k].size then IsBestFit(s, |s|, n, 1, j)
            else j == i - 1 && !s[j].inuse && n <= s[j].size + H + s[i].size
  {
    j := i;
    if s[i].size < n && !GrowsForward(s, i, n) {
      MallocFailsIff(s, n, lo, hi);
      hide IsBestFit, BestFit;
      if Malloc(s, n).ptr != 0 { j := MallocGrants(s, n, lo, hi); } else { j := i - 1; }
    }
  }

  lemma {:induction false} NobodyThere(s: seq<Block>, i: nat, j: nat, lo: nat, hi: nat)
    requires Inv(s, lo, hi) && i < |s| && j < |s| && (j == i || !s[j].inuse)
    ensures forall b :: b in Allocs(s) - {s[i]} ==> b.Payload() != s[j].Payload()
  {
    Distinct(s, lo, hi);
    forall b | b in Allocs(s) - {s[i]} ensures b.Payload() != s[j].Payload() {
      var x :| 0 <= x < |s| && s[x] == b;
      assert !(x < j && s[x].addr == s[j].addr) && !(j < x && s[x].addr == s[j].addr);
    }
  }

  /** A resized allocation holds what was asked for and no other allocation is
      touched; on failure nothing is. */
  lemma {:induction false} ResizeCorrect(s: seq<Block>, i: nat, size: nat, lo: nat, hi: nat)
    requires Inv(s, lo, hi) && i < |s| && s[i].inuse && 0 < size < WORD
    ensures var o := ReallocAt(s, i, RoundUp(size));
            && Inv(o.zone, lo, hi)
            && if o.ptr == 0 then o.zone == s else Resized(Allocs(s), Allocs(o.zone), s[i], o.ptr, size)
  {
    var n := RoundUp(size);
    var o := ReallocAt(s, i, n);
    ReallocCorrect(s, i, n, lo, hi);
    ReallocFailsIff(s, i, n, lo, hi);
    if o.ptr != 0 {
      var j := ReallocWay(s, i, n, lo, hi);
      assert j == i || !s[j].inuse;
      NobodyThere(s, i, j, lo, hi);
      hide Inv, ReallocAt;
      var b :| Allocs(o.zone) == Allocs(s) - {s[i]} + {b} && b.Payload() == o.ptr && n <= b.size <= n + H;
      assert b in Allocs(o.zone);
      Fitting(o.zone, b, lo, hi);
    }
  }

  /** Reallocation of any pointer: null is a new request, size zero exchanges the
      allocation for an empty one, everything else resizes. */
  lemma {:induction false} ReallocMeets(s: seq<Block>, ptr: nat, size: nat, lo: nat, hi: nat)
    requires Inv(s, lo, hi) && Legal(s, ReallocOp(ptr, size))
    ensures var o := Realloc(s, ptr, size);
            && Inv(o.zone, lo, hi)
            && (ptr == 0 ==> o == Malloc(s, size))
            && (ptr != 0 && o.ptr == 0 ==> size > 0 && o.zone == s)
            && (ptr != 0 && o.ptr != 0 ==>
                  exists b :: && b in Allocs(s) && b.Payload() == ptr
                              && Resized(Allocs(s), Allocs(o.zone), b, o.ptr, size))
  {
    ReallocInv(s, ptr, size, lo, hi);
    if ptr != 0 {
      var i := Find(s, ptr);
      assert s[i] in Allocs(s);
      if size == 0 {
        ExchangeForEmpty(s, ptr, lo, hi);
        hide Inv, Malloc, Free, Resized, IsLive;
      } else {
        hide Inv, ReallocAt, Resized, IsLive;
        ResizeCorrect(s, i, size, lo, hi);
      }
    }
  }

  lemma {:induction false} ExchangeForEmpty(s: seq<Block>, ptr: nat, lo: nat, hi: nat)
    requires Inv(s, lo, hi) && ptr != 0 && Legal(s, ReallocOp(ptr, 0))
    ensures var o := Realloc(s, ptr, 0);
            o.ptr != 0 && Resized(Allocs(s), Allocs(o.zone), s[Find(s, ptr)], o.ptr, 0)
  {
    ReallocToZeroSucceeds(s, ptr, lo, hi);
    FreePtrInv(s, ptr, lo, hi);
    hide Inv, Malloc, Free, IsLive, Find;
    MallocCorrect(Free(s, ptr), 0, lo, hi);
  }

  /** What every legal operation does to the set of allocations. */
  lemma {:induction false} StepAllocations(s: seq<Block>, op: Op, lo: nat, hi: nat)
    requires Inv(s, lo, hi) && Legal(s, op)
    ensures var before, after := Allocs(s), Allocs(Exec(s, op));
            match op
            case MallocOp(size) => after == before || exists p: nat :: Gets(before, after, p, size)
            case MemalignOp(size, align) =>
              || (align == 0 && after == before)
              || exists p: nat :: Gets(before, after, p, size) && (align > 0 ==> p % align == 0)
            case FreeOp(ptr) => after == set b | b in before && b.Payload() != ptr
            case ReallocOp(ptr, size) =>
              || after == before
              || (ptr == 0 && exists p: nat :: Gets(before, after, p, size))
              || (ptr != 0 && exists b, p: nat :: && b in before && b.Payload() == ptr
                                                  && Resized(before, after, b, p, size))
  {
    hide Inv, Malloc, Memalign, Realloc, Free, Gets, Resized, IsLive;
    match op
    case MallocOp(size) => MallocCorrect(s, size, lo, hi);
    case MemalignOp(size, align) =>
      MemalignCorrect(s, size, align, lo, hi);
      MallocCorrect(s, size, lo, hi);
    case FreeOp(ptr) => FreeRemoves(s, ptr, lo, hi);
    case ReallocOp(ptr, size) =>
      ReallocMeets(s, ptr, size, lo, hi);
      MallocCorrect(s, size, lo, hi);
      var o := Realloc(s, ptr, size);
      if ptr != 0 && o.ptr != 0 {
        var b :| b in Allocs(s) && b.Payload() == ptr && Resized(Allocs(s), Allocs(o.zone), b, o.ptr, size);
      }
  }

  /** Freeing removes the allocation at the pointer; a null pointer is nobody's. */
  lemma {:induction false} FreeRemoves(s: seq<Block>, ptr: nat, lo: nat, hi: nat)
    requires Inv(s, lo, hi) && (ptr == 0 || IsLive(s, ptr))
    ensures Allocs(Free(s, ptr)) == set b | b in Allocs(s) && b.Payload() != ptr
  {
    if ptr != 0 {
      var i := Find(s, ptr);
      FreePtrInv(s, ptr, lo, hi);
      NobodyThere(s, i, i, lo, hi);
      hide Inv, Free, IsLive, Find;
    }
  }
}

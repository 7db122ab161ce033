/** The physical page frame allocator: a bitmap of used frames and a free count. */
module PageFrames {
  import opened BitArray

  const PAGE: nat := 4096

  type AddressCount = w: nat | 0x1_0000_0000 <= w && w % 4096 == 0 witness 0x1_0000_0000

  /** One more than the largest address. */
  const ADDRESSES: AddressCount

  /** `used[f]` says that frame f is taken. */
  type Frames = seq<bool>

  function FreeCount(used: Frames): nat {
    if used == [] then 0 else (if used[0] then 0 else 1) + FreeCount(used[1..])
  }

  lemma {:induction false} FreeCountUpdate(used: Frames, f: nat, v: bool)
    requires f < |used|
    ensures FreeCount(used[f := v]) == FreeCount(used) + (if used[f] then 1 else 0) - (if v then 1 else 0)
  {
    if f > 0 {
      assert used[f := v][1..] == used[1..][f - 1 := v];
      FreeCountUpdate(used[1..], f - 1, v);
    } else {
      assert used[f := v][1..] == used[1..];
    }
  }

  lemma {:induction false} FreeCountNone(used: Frames)
    requires forall f :: 0 <= f < |used| ==> used[f]
    ensures FreeCount(used) == 0
  {
    if used == [] {
    } else {
      FreeCountNone(used[1..]);
    }
  }

  /** Frames f to f + n exist and are all free. */
  predicate FreeRun(used: Frames, f: nat, n: nat) {
    f + n <= |used| && forall k :: f <= k < f + n ==> !used[k]
  }

  function MarkRun(used: Frames, f: nat, n: nat): (r: Frames)
    ensures |r| == |used| && forall k :: 0 <= k < |used| ==> r[k] == (used[k] || f <= k < f + n)
  {
    seq(|used|, k requires 0 <= k < |used| => used[k] || f <= k < f + n)
  }

  /** Marking a free run takes exactly its frames out of the free count. */
  lemma {:induction false} MarkRunCounts(used: Frames, f: nat, n: nat)
    requires FreeRun(used, f, n)
    ensures FreeCount(MarkRun(used, f, n)) == FreeCount(used) - n
  {
    if n == 0 {
      assert MarkRun(used, f, n) == used;
    } else {
      var m := MarkRun(used, f, n - 1);
      MarkRunCounts(used, f, n - 1);
      FreeCountUpdate(m, f + n - 1, true);
      assert MarkRun(used, f, n) == m[f + n - 1 := true];
    }
  }

  /** How many frames `allocate` insists on, and how many it marks. */
  function Needed(length: nat): nat { if length == 0 then 1 else (length + PAGE - 1) / PAGE }

  function Marked(length: nat): nat { length / PAGE }

  /** It insists on the fewest frames, but at least one, that hold the length, and marks
      the most that the length holds. For n whole pages both are n. */
  lemma {:induction false} FramesOf(length: nat)
    ensures Needed(length) > 0 && PAGE * Needed(length) >= length
    ensures forall n :: n > 0 && PAGE * n >= length ==> Needed(length) <= n
    ensures PAGE * Marked(length) <= length
    ensures forall n :: n >= 0 && PAGE * n <= length ==> n <= Marked(length)
    ensures forall n :: n > 0 && length == PAGE * n ==> Needed(length) == n == Marked(length)
  {
  }

  /** The two agree exactly on positive multiples of the page size. */
  lemma {:induction false} MarksWhatItNeedsIff(length: nat)
    ensures Needed(length) == Marked(length) <==> length > 0 && length % PAGE == 0
  {
  }

  /** A request for one byte finds a free frame and marks none, so the next request
      finds the same frame. */
  lemma {:induction false} OneByteIsNotTaken()
    ensures FreeRun([true, false], 1, Needed(1)) && MarkRun([true, false], 1, Marked(1)) == [true, false]
  {
  }

  /** Some run of frames above frame zero is long enough. */
  ghost predicate HasRun(used: Frames, length: nat) {
    exists f :: 1 <= f < |used| && FreeRun(used, f, Needed(length))
  }

  /** The search of `allocate` takes frame f: a free run starts there, or the end of
      the span wraps around the address space, which leaves nothing to look at. */
  predicate Accepts(used: Frames, f: nat, length: nat) {
    PAGE * f + length >= ADDRESSES || FreeRun(used, f, Needed(length))
  }

  ghost predicate FirstAccepted(used: Frames, f: nat, length: nat) {
    1 <= f < |used| && Accepts(used, f, length) && forall g :: 1 <= g < f ==> !Accepts(used, g, length)
  }

  /** The frame that it takes first is one whose span runs past the end of the bitmap
      exactly when there is no run that it should have found. */
  lemma {:induction false} AcceptedOverrunsIff(used: Frames, f: nat, length: nat)
    requires PAGE * |used| < ADDRESSES && FirstAccepted(used, f, length)
    ensures f + Marked(length) > |used| <==> !HasRun(used, length)
  {
    if PAGE * f + length >= ADDRESSES {
      WrappedSpanOverruns(|used|, f, length);
      forall g | 1 <= g < |used| ensures !FreeRun(used, g, Needed(length)) {
        if g >= f { WrappedSpanOverruns(|used|, g, length); } else { assert !Accepts(used, g, length); }
      }
    }
  }

  /** So `allocate` marks frames past the end of the bitmap exactly when the span of
      the last frame wraps around the address space and no run is long enough. */
  lemma {:induction false} AllocateOverrunsIff(used: Frames, length: nat)
    requires |used| >= 2 && PAGE * |used| < ADDRESSES
    ensures (exists f: nat :: FirstAccepted(used, f, length) && f + Marked(length) > |used|) <==>
            PAGE * (|used| - 1) + length >= ADDRESSES && !HasRun(used, length)
  {
    var last := |used| - 1;
    forall f: nat | FirstAccepted(used, f, length)
      ensures f + Marked(length) > |used| <==> !HasRun(used, length)
      ensures PAGE * last + length >= ADDRESSES || HasRun(used, length)
    {
      AcceptedOverrunsIff(used, f, length);
    }
    if PAGE * last + length >= ADDRESSES {
      var f := SomeFirst(used, last, length);
    }
    hide Accepts, HasRun;
  }

  lemma {:induction false} SomeFirst(used: Frames, f: nat, length: nat) returns (first: nat)
    requires 1 <= f < |used| && Accepts(used, f, length)
    ensures FirstAccepted(used, first, length)
  {
    hide Accepts;
    if g :| 1 <= g < f && Accepts(used, g, length) {
      first := SomeFirst(used, g, length);
    } else {
      first := f;
    }
  }

  lemma {:induction false} WrappedSpanOverruns(frames: nat, f: nat, length: nat)
    requires f < frames && PAGE * frames < ADDRESSES <= PAGE * f + length
    ensures f + Marked(length) > frames && f + Needed(length) > frames
  {
    assert ADDRESSES >= PAGE * (frames + 1);
  }

  /** No frame before the first run, and none at all without a wrap at the last one,
      has a span that wraps. */
  lemma {:induction false} NoWrap(used: Frames, f: nat, length: nat)
    requires PAGE * |used| < ADDRESSES && 1 <= f < |used|
    requires PAGE * (|used| - 1) + length < ADDRESSES || HasRun(used, length)
    requires forall g :: 1 <= g < f ==> !FreeRun(used, g, Needed(length))
    ensures PAGE * f + length < ADDRESSES
  {
    if PAGE * (|used| - 1) + length >= ADDRESSES {
      var g :| 1 <= g < |used| && FreeRun(used, g, Needed(length));
      assert PAGE * Needed(length) >= length;
    }
  }

  /** A request for the whole address space but one page overruns a bitmap of two
      frames, the second of which is free. */
  lemma {:induction false} HugeRequestOverruns()
    ensures var used, length := [true, false], ADDRESSES - PAGE;
            FirstAccepted(used, 1, length) && 1 + Marked(length) > |used|
  {
    WrappedSpanOverruns(2, 1, ADDRESSES - PAGE);
  }

  ghost predicate SomeUsed(used: Frames, f: nat, n: nat)
    requires f + n <= |used|
  {
    exists k :: f <= k < f + n && used[k]
  }

  /** A request for n whole pages: r is the first of the lowest n free frames in a row
      above frame zero, and exactly those become used; or r is 0, there are no n free
      frames in a row above frame zero, and nothing changes. */
  ghost predicate ServedExactly(before: Frames, after: Frames, r: nat, n: nat) {
    && |after| == |before|
    && if r == 0 then
         after == before && forall f: nat :: 1 <= f && f + n <= |before| ==> SomeUsed(before, f, n)
       else
         var first := r / PAGE;
         && r == PAGE * first && 1 <= first && first + n <= |before| && !SomeUsed(before, first, n)
         && (forall k :: 0 <= k < |before| ==> after[k] == (before[k] || first <= k < first + n))
         && (forall f: nat :: 1 <= f < first ==> SomeUsed(before, f, n))
  }

  lemma {:induction false} WholePages(before: Frames, after: Frames, r: nat, length: nat)
    requires length > 0 && length % PAGE == 0
    requires r == 0 ==> after == before && forall f :: 1 <= f < |before| ==> !FreeRun(before, f, Needed(length))
    requires r != 0 ==>
               && r % PAGE == 0 && 1 <= r / PAGE < |before| && FreeRun(before, r / PAGE, Needed(length))
               && (forall f :: 1 <= f < r / PAGE ==> !FreeRun(before, f, Needed(length)))
               && after == MarkRun(before, r / PAGE, Marked(length))
    ensures ServedExactly(before, after, r, length / PAGE)
  {
    var n := length / PAGE;
    FramesOf(length);
    assert Needed(length) == n == Marked(length);
    hide Needed, Marked;
    forall f: nat | 1 <= f && f + n <= |before| && !FreeRun(before, f, n) ensures SomeUsed(before, f, n) {
    }
  }

  class PageFrameAllocator {
    const bitmap: BitArray
    var count: nat

    ghost predicate Valid()
      reads this, bitmap.storage
    {
      bitmap.Valid() && count == FreeCount(bitmap.Bits())
    }

    ghost function Used(): Frames
      requires bitmap.Valid()
      reads bitmap.storage
    {
      bitmap.Bits()
    }

    constructor (frames: nat)
      requires frames > 0
      ensures Valid() && fresh(bitmap) && fresh(bitmap.storage)
      ensures Used() == seq(frames, _ => true)
    {
      bitmap := new BitArray(frames);
      count := 0;
      new;
      bitmap.SetAll();
      FreeCountNone(Used());
    }

    method MarkAllAsUsed()
      requires Valid()
      modifies this, bitmap.storage
      ensures Valid() && Used() == seq(|old(Used())|, _ => true)
    {
      count := 0;
      bitmap.SetAll();
      FreeCountNone(Used());
    }

    /** Out-of-range frames are not free. */
    method IsFree(frame: nat) returns (r: bool)
      requires Valid()
      ensures r == (frame / PAGE < |Used()| && !Used()[frame / PAGE])
    {
      var i := frame / PAGE;
      if i < bitmap.capacity {
        r := bitmap.Test(i);
        r := !r;
      } else {
        r := false;
      }
    }

    method AllocateSpecific(frame: nat) returns (r: bool)
      requires Valid() && frame / PAGE < |Used()|
      modifies this, bitmap.storage
      ensures Valid() && Used() == old(Used())[frame / PAGE := true] && r == !old(Used())[frame / PAGE]
    {
      var i := frame / PAGE;
      var taken := bitmap.Test(i);
      FreeCountUpdate(Used(), i, true);
      if taken {
        r := false;
      } else {
        count := count - 1;
        bitmap.Set(i);
        r := true;
      }
    }

    method Deallocate(frame: nat)
      requires Valid() && frame / PAGE < |Used()|
      modifies this, bitmap.storage
      ensures Valid() && Used() == old(Used())[frame / PAGE := false]
    {
      var i := frame / PAGE;
      var taken := bitmap.Test(i);
      FreeCountUpdate(Used(), i, false);
      if taken {
        count := count + 1;
        bitmap.Clear(i);
      }
    }

    /** The end of the span is computed with wrap-around. */
    method IsSpanFree(begin: nat, length: nat) returns (r: bool)
      requires Valid() && PAGE * |Used()| < ADDRESSES && begin % PAGE == 0 && begin < ADDRESSES && length < ADDRESSES
      ensures r == (begin + length >= ADDRESSES || FreeRun(Used(), begin / PAGE, Needed(length)))
    {
      if length == 0 {
        r := IsFree(begin);
        return;
      }
      var frame, limit := begin, if begin + length < ADDRESSES then begin + length else begin + length - ADDRESSES;
      ghost var b, k := begin / PAGE, 0;
      while frame < limit
        invariant begin == PAGE * b && frame == PAGE * (b + k) && frame < ADDRESSES
        invariant k <= Needed(length) && (k > 0 ==> FreeRun(Used(), b, k))
      {
        var free := IsFree(frame);
        assert frame / PAGE == b + k;
        if !free {
          return false;
        }
        frame := frame + PAGE;
        k := k + 1;
      }
      return true;
    }

    /** Takes the whole frames of a free span, one by one. */
    method TakeSpan(begin: nat, length: nat, ghost f: nat)
      requires Valid() && begin == PAGE * f && FreeRun(Used(), f, Needed(length))
      modifies this, bitmap.storage
      ensures Valid() && Used() == MarkRun(old(Used()), f, Marked(length)) && count == old(count) - Marked(length)
    {
      var frame, left := begin, length;
      ghost var n := 0;
      while left >= PAGE
        invariant left == length - PAGE * n && 0 <= n <= Marked(length) && frame == PAGE * (f + n)
        invariant Valid() && Used() == MarkRun(old(Used()), f, n)
        decreases left
      {
        var _ := AllocateSpecific(frame);
        frame := frame + PAGE;
        left := left - PAGE;
        n := n + 1;
      }
      MarkRunCounts(old(Used()), f, n);
    }

    /** Takes the lowest run of frames above frame zero that is long enough. */
    method Allocate(length: nat) returns (r: nat)
      requires Valid() && PAGE * |Used()| < ADDRESSES && length < ADDRESSES
      requires PAGE * (|Used()| - 1) + length < ADDRESSES || HasRun(Used(), length)
      modifies this, bitmap.storage
      ensures Valid()
      ensures r == 0 ==>
                && Used() == old(Used())
                && forall f :: 1 <= f < |old(Used())| ==> !FreeRun(old(Used()), f, Needed(length))
      ensures r != 0 ==>
                && r % PAGE == 0 && 1 <= r / PAGE < |old(Used())|
                && FreeRun(old(Used()), r / PAGE, Needed(length))
                && (forall f :: 1 <= f < r / PAGE ==> !FreeRun(old(Used()), f, Needed(length)))
                && Used() == MarkRun(old(Used()), r / PAGE, Marked(length))
                && count == old(count) - Marked(length)
      ensures length > 0 && length % PAGE == 0 ==> ServedExactly(old(Used()), Used(), r, length / PAGE)
    {
      var frame := PAGE;
      ghost var f := 1;
      while frame < PAGE * bitmap.capacity
        invariant frame == PAGE * f && 1 <= f
        invariant Valid() && Used() == old(Used())
        invariant forall g :: 1 <= g < f ==> g < |Used()| ==> !FreeRun(Used(), g, Needed(length))
      {
        var free := IsSpanFree(frame, length);
        NoWrap(Used(), f, length);
        if free {
          r := frame;
          TakeSpan(frame, length, f);
          if length > 0 && length % PAGE == 0 { WholePages(old(Used()), Used(), r, length); }
          return;
        }
        frame := frame + PAGE;
        f := f + 1;
      }
      r := 0;
      if length > 0 && length % PAGE == 0 { WholePages(old(Used()), Used(), r, length); }
    }
  }
}

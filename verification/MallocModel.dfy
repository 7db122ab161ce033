/** The block list of a malloc zone as a value, and the allocator's operations on it.

    A zone is the sequence of its headers in list order. Each header has an
    address, a payload size and an in-use flag; the payload starts right after
    the header. The operations are the ones of `MallocZone`, written on the
    sequence; the class in MallocZone.dfy performs them on linked headers and
    is proved to compute these functions. */
module MallocModel {

  type HeaderSize = h: nat | 0 < h <= 64 && h % 4 == 0 witness 16
  type WordCount = w: nat | 0x1_0000_0000 <= w && w % 4 == 0 witness 0x1_0000_0000

  const H: HeaderSize       // sizeof(MallocBlock), also MIN_SPLIT_SIZE
  const Z: HeaderSize       // sizeof(MallocZone)
  const WORD: WordCount     // SIZE_MAX + 1

  datatype Block = Block(addr: nat, size: nat, inuse: bool) {
    function Payload(): nat { addr + H }
    function End(): nat { addr + H + size }
  }

  datatype Outcome = Outcome(zone: seq<Block>, ptr: nat)

  // ---------------------------------------------------------------- invariant

  ghost predicate Tiled(s: seq<Block>, lo: nat, hi: nat) {
    && |s| > 0 && s[0].addr == lo && s[|s| - 1].End() == hi
    && forall i :: 0 < i < |s| ==> s[i - 1].End() == s[i].addr
  }

  ghost predicate Coalesced(s: seq<Block>) {
    forall i :: 0 < i < |s| ==> s[i - 1].inuse || s[i].inuse
  }

  ghost predicate Aligned(s: seq<Block>) {
    forall i :: 0 <= i < |s| ==> s[i].addr % 4 == 0
  }

  /** The zone invariant: the blocks tile `[lo, hi)`, headers are 4-aligned and
      no two neighbours are both free. */
  ghost predicate Inv(s: seq<Block>, lo: nat, hi: nat) {
    0 < lo && hi < WORD && Tiled(s, lo, hi) && Aligned(s) && Coalesced(s)
  }

  /** The allocations a caller holds. */
  function Allocs(s: seq<Block>): set<Block> {
    set b | b in s && b.inuse
  }

  function Footprint(s: seq<Block>): nat {
    if s == [] then 0 else H + s[0].size + Footprint(s[1..])
  }

  // --------------------------------------------------------------- operations

  /** Unsigned arithmetic drops whole multiples of the word count. */
  function Wrap(x: nat): (r: nat)
    ensures r < WORD && (x < WORD ==> r == x)
  {
    if x < WORD then x else Wrap(x - WORD)
  }

  /** The remainder `x % m`, by repeated subtraction. */
  function Rem(x: nat, m: nat): (r: nat)
    requires m > 0
    ensures r < m
  {
    if x < m then x else Rem(x - m, m)
  }

  function RoundUp(size: nat): (r: nat)
    requires size < WORD
    ensures r % 4 == 0 && r < WORD
    ensures size + 3 < WORD ==> size <= r < size + 4
    ensures size % 4 == 0 ==> r == size
    ensures size + 3 >= WORD ==> r == WORD - 4
  {
    var rounded := Wrap(size + 3) / 4 * 4;
    if rounded < size then WORD - 4 else rounded
  }

  function Mark(s: seq<Block>, i: nat, inuse: bool): seq<Block>
    requires i < |s|
  {
    s[i := s[i].(inuse := inuse)]
  }

  /** Block i swallows its successor. */
  function Absorb(s: seq<Block>, i: nat): seq<Block>
    requires i + 1 < |s|
  {
    s[..i] + [s[i].(size := s[i].size + s[i + 1].size + H)] + s[i + 2..]
  }

  /** Block i keeps `size` bytes; a new free header takes the rest. */
  function Carve(s: seq<Block>, i: nat, size: nat): seq<Block>
    requires i < |s| && size + H <= s[i].size
  {
    s[..i] + [s[i].(size := size), Block(s[i].addr + H + size, s[i].size - size - H, false)] + s[i + 1..]
  }

  function Split(s: seq<Block>, i: nat, size: nat): seq<Block>
    requires i < |s| && size <= s[i].size
  {
    if s[i].size - size > H then
      var c := Carve(s, i, size);
      if i + 2 < |c| && !c[i + 2].inuse then Absorb(c, i + 1) else c
    else s
  }

  predicate Fits(b: Block, size: nat, align: nat)
    requires align > 0
  {
    b.size >= size && Rem(b.Payload(), align) == 0 && !b.inuse
  }

  /** The search loop after visiting the first n blocks; -1 is "none". */
  function BestFit(s: seq<Block>, n: nat, size: nat, align: nat): (k: int)
    requires n <= |s| && align > 0
    ensures -1 <= k < n && (k >= 0 ==> Fits(s[k], size, align))
  {
    if n == 0 then -1
    else
      var best := BestFit(s, n - 1, size, align);
      if Fits(s[n - 1], size, align) && (best < 0 || s[n - 1].size < s[best].size) then n - 1 else best
  }

  function Take(s: seq<Block>, k: nat, size: nat): seq<Block>
    requires k < |s| && size <= s[k].size
  {
    Mark(Split(s, k, size), k, true)
  }

  function Malloc(s: seq<Block>, size: nat): Outcome
    requires size < WORD
  {
    var n := RoundUp(size);
    var k := BestFit(s, |s|, n, 1);
    if k < 0 then Outcome(s, 0) else Outcome(Take(s, k, n), s[k].Payload())
  }

  /** Payload bytes left in front of the aligned block carved out of a block at `addr`. */
  function Gap(addr: nat, align: nat): (g: nat)
    requires align > 0
    ensures 0 < g <= align
  {
    align - Rem(addr + H + H, align)
  }

  /** One of the searches of `memalign` succeeds. It does not check the second one
      for failure, nor the sum it searches for for wrap-around. */
  predicate AlignedFinds(s: seq<Block>, n: nat, align: nat)
    requires align > 0
  {
    || BestFit(s, |s|, n, align) >= 0
    || (n + H + align < WORD && BestFit(s, |s|, n + H + align, 1) >= 0)
  }

  /** And when it must cut, the gap in front keeps the new header 4-aligned. */
  predicate AlignedSafe(s: seq<Block>, n: nat, align: nat)
    requires align > 0
  {
    && AlignedFinds(s, n, align)
    && (BestFit(s, |s|, n, align) < 0 ==> Gap(s[BestFit(s, |s|, n + H + align, 1)].addr, align) % 4 == 0)
  }

  predicate MemalignSafe(s: seq<Block>, size: nat, align: nat)
    requires size < WORD
  {
    align == 0 || AlignedSafe(s, RoundUp(size), align)
  }

  /** Leaves a gap at the front of block j so that the payload after it is aligned. */
  function CutOut(s: seq<Block>, j: nat, n: nat, align: nat): Outcome
    requires align > 0 && j < |s| && n + H + align <= s[j].size
  {
    var c := Carve(s, j, Gap(s[j].addr, align));
    Outcome(Take(c, j + 1, n), c[j + 1].Payload())
  }

  function AlignedTake(s: seq<Block>, n: nat, align: nat): Outcome
    requires align > 0 && AlignedFinds(s, n, align)
  {
    var k := BestFit(s, |s|, n, align);
    if k >= 0 then Outcome(Take(s, k, n), s[k].Payload())
    else CutOut(s, BestFit(s, |s|, Wrap(n + H + align), 1), n, align)
  }

  function Memalign(s: seq<Block>, size: nat, align: nat): Outcome
    requires size < WORD && MemalignSafe(s, size, align)
  {
    if align == 0 then Malloc(s, size) else AlignedTake(s, RoundUp(size), align)
  }

  predicate IsLive(s: seq<Block>, ptr: nat) {
    exists i :: 0 <= i < |s| && s[i].inuse && s[i].Payload() == ptr
  }

  /** The first block whose payload is at `ptr`. */
  function Find(s: seq<Block>, ptr: nat): (i: nat)
    requires IsLive(s, ptr)
    ensures i < |s| && s[i].Payload() == ptr
  {
    if s[0].Payload() == ptr then 0
    else
      assert IsLive(s[1..], ptr) by {
        var i :| 0 <= i < |s| && s[i].inuse && s[i].Payload() == ptr;
        assert s[1..][i - 1] == s[i];
      }
      1 + Find(s[1..], ptr)
  }

  function FreeAt(s: seq<Block>, i: nat): seq<Block>
    requires i < |s|
  {
    var m := Mark(s, i, false);
    var j := if i > 0 && !m[i - 1].inuse then i - 1 else i;
    var l := if j < i then Absorb(m, j) else m;
    if j + 1 < |l| && !l[j + 1].inuse then Absorb(l, j) else l
  }

  function Free(s: seq<Block>, ptr: nat): seq<Block>
    requires ptr == 0 || IsLive(s, ptr)
  {
    if ptr == 0 then s else FreeAt(s, Find(s, ptr))
  }

  /** A block can grow over the free block after it. */
  predicate GrowsForward(s: seq<Block>, i: nat, n: nat)
    requires i < |s|
  {
    i + 1 < |s| && !s[i + 1].inuse && s[i].size + s[i + 1].size + H >= n
  }

  /** A block can be merged into the free block before it. */
  predicate GrowsBackward(s: seq<Block>, i: nat, n: nat)
    requires i < |s|
  {
    i > 0 && !s[i - 1].inuse && s[i].size + s[i - 1].size + H >= n
  }

  lemma {:induction false} TakeKeepsLive(s: seq<Block>, k: nat, n: nat, ptr: nat)
    requires k < |s| && n <= s[k].size && !s[k].inuse && IsLive(s, ptr)
    ensures IsLive(Take(s, k, n), ptr)
  {
    var i :| 0 <= i < |s| && s[i].inuse && s[i].Payload() == ptr;
    SplitKeeps(s, k, n, i);
    hide Split;
    var t := Take(s, k, n);
    assert t[if i < k then i else i + |t| - |s|] == s[i];
  }

  /** A split moves the blocks behind it, but no block in use changes. */
  lemma {:induction false} SplitKeeps(s: seq<Block>, k: nat, n: nat, i: nat)
    requires k < |s| && n <= s[k].size && i < |s| && i != k && s[i].inuse
    ensures var t := Split(s, k, n);
            |s| <= |t| && t[if i < k then i else i + |t| - |s|] == s[i]
  {
  }

  lemma {:induction false} MallocKeepsLive(s: seq<Block>, size: nat, ptr: nat)
    requires size < WORD && IsLive(s, ptr)
    ensures IsLive(Malloc(s, size).zone, ptr)
  {
    var k := BestFit(s, |s|, RoundUp(size), 1);
    if k >= 0 { TakeKeepsLive(s, k, RoundUp(size), ptr); }
  }

  /** Resizing block i, in use, to n bytes: in place, over the next block, into a
      new block, or merged into the block before; pointer 0 when none works. */
  function ReallocAt(s: seq<Block>, i: nat, n: nat): Outcome
    requires i < |s| && s[i].inuse && n < WORD
  {
    var ptr := s[i].Payload();
    if s[i].size >= n then Outcome(Split(s, i, n), ptr)
    else if GrowsForward(s, i, n) then Outcome(Split(Absorb(s, i), i, n), ptr)
    else
      var m := Malloc(s, n);
      if m.ptr != 0 then
        assert IsLive(s, ptr);
        MallocKeepsLive(s, n, ptr);
        Outcome(Free(m.zone, ptr), m.ptr)
      else if GrowsBackward(s, i, n) then
        Outcome(Split(Mark(Absorb(s, i - 1), i - 1, true), i - 1, n), s[i - 1].Payload())
      else Outcome(s, 0)
  }

  function Realloc(s: seq<Block>, ptr: nat, size: nat): Outcome
    requires size < WORD
    requires ptr == 0 || (IsLive(s, ptr) && s[Find(s, ptr)].inuse)
  {
    if ptr == 0 then Malloc(s, size)
    else if size == 0 then Malloc(Free(s, ptr), 0)
    else ReallocAt(s, Find(s, ptr), RoundUp(size))
  }
}

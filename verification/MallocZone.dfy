/** The malloc zone as the program builds it: headers linked in both directions,
    updated in place, inside the memory that they manage. */
module MallocZoneHeap {
  import opened MallocModel
  import opened MallocProofs
  import opened MallocTheorems
  import opened MallocRuns

  /** A header at a fixed address. Its four words are the fields here; `mem` of
      the zone holds the bytes outside headers. */
  class MallocBlock {
    const addr: nat
    var prev: MallocBlock?
    var next: MallocBlock?
    var size: nat
    var inuse: bool

    constructor (addr: nat, prev: MallocBlock?, next: MallocBlock?, size: nat)
      ensures this.addr == addr && this.prev == prev && this.next == next && this.size == size && !inuse
    {
      this.addr, this.prev, this.next, this.size, this.inuse := addr, prev, next, size, false;
    }
  }

  ghost function Nth(bs: seq<MallocBlock>, i: int): MallocBlock? {
    if 0 <= i < |bs| then bs[i] else null
  }

  ghost function Drop(bs: seq<MallocBlock>, i: nat): (r: seq<MallocBlock>)
    requires i + 1 < |bs|
    ensures |r| == |bs| - 1 && forall k :: 0 <= k <= i ==> r[k] == bs[k]
    ensures forall x :: x in r ==> x in bs
  {
    bs[..i + 1] + bs[i + 2..]
  }

  ghost function Add(bs: seq<MallocBlock>, i: nat, nb: MallocBlock): (r: seq<MallocBlock>)
    requires i < |bs|
    ensures |r| == |bs| + 1 && r[i + 1] == nb && forall k :: 0 <= k <= i ==> r[k] == bs[k]
    ensures forall x :: x in r ==> x in bs || x == nb
  {
    bs[..i + 1] + [nb] + bs[i + 1..]
  }

  /** The fields of `b` are those of a header between `prev` and `next`, with value `v`. */
  ghost predicate Is(b: MallocBlock, prev: MallocBlock?, next: MallocBlock?, v: Block)
    reads b
  {
    b.prev == prev && b.next == next && v == Block(b.addr, b.size, b.inuse)
  }

  ghost predicate AllDistinct(bs: seq<MallocBlock>) {
    forall i, j :: 0 <= i < j < |bs| ==> bs[i] != bs[j]
  }

  /** The first n headers are linked in both directions and hold the values `s`. */
  ghost predicate Links(bs: seq<MallocBlock>, s: seq<Block>, n: nat)
    requires n <= |bs| == |s|
    reads bs
  {
    n == 0 || (Links(bs, s, n - 1) && Is(bs[n - 1], Nth(bs, n - 2), Nth(bs, n), s[n - 1]))
  }

  /** The list runs through `bs` in both directions with the values `s`. */
  ghost predicate Chain(bs: seq<MallocBlock>, s: seq<Block>)
    reads bs
  {
    |s| == |bs| && AllDistinct(bs) && Links(bs, s, |bs|)
  }

  ghost predicate AllLinked(bs: seq<MallocBlock>, s: seq<Block>)
    requires |bs| == |s|
    reads bs
  {
    forall i :: 0 <= i < |bs| ==> Is(bs[i], Nth(bs, i - 1), Nth(bs, i + 1), s[i])
  }

  lemma {:induction false} LinksIntro(bs: seq<MallocBlock>, s: seq<Block>, n: nat)
    requires n <= |bs| == |s| && AllLinked(bs, s)
    ensures Links(bs, s, n)
  {
    if n == 0 {
    } else {
      LinksIntro(bs, s, n - 1);
    }
  }

  lemma {:induction false} LinksElim(bs: seq<MallocBlock>, s: seq<Block>, n: nat)
    requires n <= |bs| == |s| && Links(bs, s, n)
    ensures forall i :: 0 <= i < n ==> Is(bs[i], Nth(bs, i - 1), Nth(bs, i + 1), s[i])
  {
    if n == 0 {
    } else {
      LinksElim(bs, s, n - 1);
    }
  }

  lemma {:induction false} Unlinked(bs: seq<MallocBlock>, s: seq<Block>, i: nat)
    requires AllDistinct(bs) && |s| == |bs| && i + 1 < |bs|
    requires forall k :: 0 <= k < i ==> Is(bs[k], Nth(bs, k - 1), Nth(bs, k + 1), s[k])
    requires Is(bs[i], Nth(bs, i - 1), Nth(bs, i + 2), s[i].(size := s[i].size + s[i + 1].size + H))
    requires i + 2 < |bs| ==> Is(bs[i + 2], bs[i], Nth(bs, i + 3), s[i + 2])
    requires forall k :: i + 2 < k < |bs| ==> Is(bs[k], Nth(bs, k - 1), Nth(bs, k + 1), s[k])
    ensures Chain(Drop(bs, i), Absorb(s, i))
  {
    var bs', s' := Drop(bs, i), Absorb(s, i);
    DropOne(bs, i);
    forall k | 0 <= k < |bs'| ensures Is(bs'[k], Nth(bs', k - 1), Nth(bs', k + 1), s'[k]) {
      if k < i { assert bs'[k] == bs[k] && s'[k] == s[k]; }
      else if k == i { assert bs'[k] == bs[k]; }
      else { assert bs'[k] == bs[k + 1] && s'[k] == s[k + 1]; }
    }
    LinksIntro(bs', s', |bs'|);
  }

  lemma {:induction false} DropOne(bs: seq<MallocBlock>, i: nat)
    requires AllDistinct(bs) && i + 1 < |bs|
    ensures AllDistinct(Drop(bs, i))
    ensures forall k {:trigger Nth(Drop(bs, i), k)} :: Nth(Drop(bs, i), k) == Nth(bs, if k <= i then k else k + 1)
  {
  }

  lemma {:induction false} AddOne(bs: seq<MallocBlock>, i: nat, nb: MallocBlock)
    requires AllDistinct(bs) && i < |bs| && nb !in bs
    ensures AllDistinct(Add(bs, i, nb)) && |Add(bs, i, nb)| == |bs| + 1
    ensures forall k {:trigger Nth(Add(bs, i, nb), k)} ::
              Nth(Add(bs, i, nb), k) == if k == i + 1 then nb else Nth(bs, if k <= i then k else k - 1)
  {
  }

  lemma {:induction false} CarveAt(s: seq<Block>, i: nat, size: nat)
    requires i < |s| && size + H <= s[i].size
    ensures var c := Carve(s, i, size);
            && |c| == |s| + 1
            && c[i] == s[i].(size := size) && c[i + 1] == Block(s[i].addr + H + size, s[i].size - size - H, false)
            && forall k :: 0 <= k < |c| && k != i && k != i + 1 ==> c[k] == s[if k < i then k else k - 1]
  {
  }

  lemma {:induction false} LinkedIn(bs: seq<MallocBlock>, s: seq<Block>, i: nat, nb: MallocBlock, size: nat)
    requires AllDistinct(bs) && |s| == |bs| && i < |bs| && nb !in bs && size + H <= s[i].size
    requires forall k :: 0 <= k < i ==> Is(bs[k], Nth(bs, k - 1), Nth(bs, k + 1), s[k])
    requires Is(bs[i], Nth(bs, i - 1), nb, s[i].(size := size))
    requires Is(nb, bs[i], Nth(bs, i + 1), Block(s[i].addr + H + size, s[i].size - size - H, false))
    requires i + 1 < |bs| ==> Is(bs[i + 1], nb, Nth(bs, i + 2), s[i + 1])
    requires forall k :: i + 1 < k < |bs| ==> Is(bs[k], Nth(bs, k - 1), Nth(bs, k + 1), s[k])
    ensures Chain(Add(bs, i, nb), Carve(s, i, size))
  {
    var bs', s' := Add(bs, i, nb), Carve(s, i, size);
    AddOne(bs, i, nb);
    CarveAt(s, i, size);
    hide Carve, Add, Is, AllDistinct;
    forall k | 0 <= k < |bs'| ensures Is(bs'[k], Nth(bs', k - 1), Nth(bs', k + 1), s'[k]) {
      assert bs'[k] == Nth(bs', k);
    }
    LinksIntro(bs', s', |bs'|);
  }

  /** What a walk sees at block i. */
  lemma {:induction false} Peek(bs: seq<MallocBlock>, s: seq<Block>, i: nat)
    requires Chain(bs, s) && i < |bs|
    ensures bs[i].size == s[i].size && bs[i].inuse == s[i].inuse && bs[i].addr == s[i].addr
    ensures if i + 1 < |bs| then bs[i].next == bs[i + 1] && bs[i + 1].inuse == s[i + 1].inuse else bs[i].next == null
    ensures if i > 0 then bs[i].prev == bs[i - 1] && bs[i - 1].inuse == s[i - 1].inuse else bs[i].prev == null
  {
    LinksElim(bs, s, |bs|);
  }

  // ------------------------------------------------------- updates of the list

  /** The header of block i takes over the one after it. */
  method AbsorbNext(b: MallocBlock, ghost bs: seq<MallocBlock>, ghost s: seq<Block>, ghost i: nat)
    requires Chain(bs, s) && i + 1 < |bs| && b == bs[i]
    modifies bs
    ensures Chain(Drop(bs, i), Absorb(s, i))
  {
    LinksElim(bs, s, |bs|);
    var following := b.next;
    b.size := b.size + following.size + H;
    b.next := following.next;
    if following.next != null {
      following.next.prev := b;
    }
    Unlinked(bs, s, i);
  }

  /** Writes a new free header behind the first `size` payload bytes of block i. */
  method CarveAfter(b: MallocBlock, size: nat, ghost bs: seq<MallocBlock>, ghost s: seq<Block>, ghost i: nat)
    returns (nb: MallocBlock)
    requires Chain(bs, s) && i < |bs| && b == bs[i] && size + H <= s[i].size
    modifies bs
    ensures fresh(nb) && Chain(Add(bs, i, nb), Carve(s, i, size))
  {
    LinksElim(bs, s, |bs|);
    hide Links, Add, Carve;
    nb := new MallocBlock(b.addr + H + size, b, b.next, b.size - size - H);
    b.size := size;
    if b.next != null {
      b.next.prev := nb;
    }
    b.next := nb;
    LinkedIn(bs, s, i, nb, size);
  }

  method SetInuse(b: MallocBlock, inuse: bool, ghost bs: seq<MallocBlock>, ghost s: seq<Block>, ghost i: nat)
    requires Chain(bs, s) && i < |bs| && b == bs[i]
    modifies b`inuse
    ensures Chain(bs, Mark(s, i, inuse))
  {
    LinksElim(bs, s, |bs|);
    b.inuse := inuse;
    LinksIntro(bs, Mark(s, i, inuse), |bs|);
  }

  /** The bytes after a header has been written at `a`. */
  function Clobbered(mem: int -> int, a: int): int -> int {
    x => if a <= x < a + H then 0 else mem(x)
  }

  /** Gives the tail of block i back when it is big enough for a header and more. */
  method ConsiderSplitting(b: MallocBlock, size: nat, mem: int -> int,
                           ghost bs: seq<MallocBlock>, ghost s: seq<Block>, ghost i: nat)
    returns (mem': int -> int, ghost bs': seq<MallocBlock>)
    requires Chain(bs, s) && i < |bs| && b == bs[i] && size <= s[i].size
    modifies bs
    ensures Chain(bs', Split(s, i, size)) && i < |bs'| && bs'[i] == b && bs'[0] == bs[0]
    ensures forall x :: x in bs' ==> x in bs || fresh(x)
    ensures forall x :: !(s[i].Payload() + size <= x < s[i].End()) ==> mem'(x) == mem(x)
  {
    hide Chain, Split, Carve, Absorb;
    ChainLength(bs, s);
    Peek(bs, s, i);
    SplitIs(s, i, size);
    mem', bs' := mem, bs;
    var remaining := b.size - size;
    if remaining > H {
      ghost var c := Carve(s, i, size);
      var nb := CarveAfter(b, size, bs, s, i);
      mem', bs' := Clobbered(mem, nb.addr), Add(bs, i, nb);
      ChainLength(bs', c);
      Peek(bs', c, i + 1);
      var following := nb.next;
      if following != null && !following.inuse {
        AbsorbNext(nb, bs', c, i + 1);
        bs' := Drop(bs', i + 1);
      }
    }
  }

  lemma {:induction false} ChainLength(bs: seq<MallocBlock>, s: seq<Block>)
    requires Chain(bs, s)
    ensures |bs| == |s|
  {
  }

  lemma {:induction false} SplitIs(s: seq<Block>, i: nat, size: nat)
    requires i < |s| && size <= s[i].size
    ensures s[i].size - size <= H ==> Split(s, i, size) == s
    ensures s[i].size - size > H ==>
              && var c := Carve(s, i, size);
              && |c| == |s| + 1 && c[i + 1].addr == s[i].Payload() + size
              && Split(s, i, size) == if i + 2 < |c| && !c[i + 2].inuse then Absorb(c, i + 1) else c
  {
  }

  /** Splits block k to n bytes and hands it out. */
  method TakeBlock(b: MallocBlock, n: nat, mem: int -> int,
                   ghost bs: seq<MallocBlock>, ghost s: seq<Block>, ghost k: nat)
    returns (mem': int -> int, ghost bs': seq<MallocBlock>)
    requires Chain(bs, s) && k < |bs| && b == bs[k] && n <= s[k].size
    modifies bs
    ensures Chain(bs', Take(s, k, n)) && |bs'| > 0 && bs'[0] == bs[0]
    ensures forall x :: x in bs' ==> x in bs || fresh(x)
    ensures forall x :: !(s[k].Payload() + n <= x < s[k].End()) ==> mem'(x) == mem(x)
  {
    hide Chain, Split;
    ChainLength(bs, s);
    mem', bs' := ConsiderSplitting(b, n, mem, bs, s, k);
    ChainLength(bs', Split(s, k, n));
    SetInuse(b, true, bs', Split(s, k, n), k);
  }

  /** The search loop: the smallest fitting free block, the first one on ties. */
  method FindBestFit(head: MallocBlock, size: nat, align: nat, ghost bs: seq<MallocBlock>, ghost s: seq<Block>)
    returns (best: MallocBlock?, ghost k: int)
    requires Chain(bs, s) && |bs| > 0 && head == bs[0] && align > 0
    ensures k == BestFit(s, |s|, size, align)
    ensures best == if k < 0 then null else bs[k]
  {
    best, k := null, -1;
    var block: MallocBlock? := head;
    ghost var i := 0;
    while block != null
      invariant 0 <= i <= |bs| && block == Nth(bs, i)
      invariant k == BestFit(s, i, size, align) && best == Nth(bs, k)
      decreases |bs| - i
    {
      Peek(bs, s, i);
      if best != null { Peek(bs, s, k); }
      if block.size >= size && Rem(block.addr + H, align) == 0 && !block.inuse
         && (best == null || block.size < best.size) {
        best, k := block, i;
      }
      block, i := block.next, i + 1;
    }
  }

  /** From a payload address to its header, checked by walking the list. */
  method HeaderOf(head: MallocBlock, ptr: nat, ghost bs: seq<MallocBlock>, ghost s: seq<Block>)
    returns (b: MallocBlock, ghost i: nat)
    requires Chain(bs, s) && |bs| > 0 && head == bs[0] && IsLive(s, ptr)
    ensures i == Find(s, ptr) && i < |bs| && b == bs[i]
  {
    b, i := head, 0;
    while b.addr + H != ptr
      invariant 0 <= i < |bs| && b == bs[i] && IsLive(s[i..], ptr) && Find(s, ptr) == i + Find(s[i..], ptr)
      decreases |bs| - i
    {
      Peek(bs, s, i);
      FindNext(s[i..], ptr);
      assert s[i..][1..] == s[i + 1..];
      b, i := b.next, i + 1;
    }
    Peek(bs, s, i);
  }

  lemma {:induction false} FindNext(s: seq<Block>, ptr: nat)
    requires IsLive(s, ptr) && s[0].Payload() != ptr
    ensures |s| > 1 && IsLive(s[1..], ptr) && Find(s, ptr) == 1 + Find(s[1..], ptr)
  {
    var i :| 0 <= i < |s| && s[i].inuse && s[i].Payload() == ptr;
    assert s[1..][i - 1] == s[i];
  }

  /** Clears the in-use flag and merges with the free neighbours. */
  method FreeBlock(b: MallocBlock, ghost bs: seq<MallocBlock>, ghost s: seq<Block>, ghost i: nat)
    returns (ghost bs': seq<MallocBlock>)
    requires Chain(bs, s) && i < |bs| && b == bs[i]
    modifies bs
    ensures Chain(bs', FreeAt(s, i)) && |bs'| > 0 && bs'[0] == bs[0]
    ensures forall x :: x in bs' ==> x in bs
  {
    hide Chain, Absorb;
    ChainLength(bs, s);
    SetInuse(b, false, bs, s, i);
    ghost var l, j := Mark(s, i, false), i;
    bs' := bs;
    Peek(bs, l, i);
    var block, preceding := b, b.prev;
    if preceding != null && !preceding.inuse {
      AbsorbNext(preceding, bs, l, i - 1);
      bs', l, j := Drop(bs, i - 1), Absorb(l, i - 1), i - 1;
      block := preceding;
    }
    Peek(bs', l, j);
    var following := block.next;
    if following != null && !following.inuse {
      AbsorbNext(block, bs', l, j);
      bs' := Drop(bs', j);
    }
  }

  lemma {:induction false} CarveIs(s: seq<Block>, j: nat, gap: nat)
    requires j < |s| && gap + H <= s[j].size
    ensures var c := Carve(s, j, gap);
            |c| == |s| + 1 && c[j + 1] == Rest(s[j], gap)
  {
  }

  /** Cuts block j so that the payload behind the gap is aligned, and hands that out. */
  method CutBlock(b: MallocBlock, n: nat, align: nat, mem: int -> int,
                  ghost bs: seq<MallocBlock>, ghost s: seq<Block>, ghost j: nat)
    returns (ptr: nat, mem': int -> int, ghost bs': seq<MallocBlock>)
    requires Chain(bs, s) && j < |bs| && b == bs[j] && align > 0 && n + H + align <= s[j].size
    modifies bs
    ensures Chain(bs', CutOut(s, j, n, align).zone) && |bs'| > 0 && bs'[0] == bs[0]
    ensures ptr == CutOut(s, j, n, align).ptr
    ensures forall x :: x in bs' ==> x in bs || fresh(x)
    ensures forall x :: !(s[j].Payload() <= x < s[j].End()) ==> mem'(x) == mem(x)
  {
    hide Chain, Carve, Take;
    ChainLength(bs, s);
    Peek(bs, s, j);
    var request := b.addr + H;
    var delta := Rem(request + H, align);
    request := request + (align - delta);
    var gap := request - b.addr - H;
    ghost var c := Carve(s, j, gap);
    var block := CarveAfter(b, gap, bs, s, j);
    bs' := Add(bs, j, block);
    CarveIs(s, j, gap);
    mem', bs' := TakeBlock(block, n, Clobbered(mem, request), bs', c, j + 1);
    ptr := request + H;
  }

  /** An aligned free block if there is one, otherwise one that is cut to order. */
  method TakeAligned(head: MallocBlock, n: nat, align: nat, mem: int -> int,
                     ghost bs: seq<MallocBlock>, ghost s: seq<Block>)
    returns (ptr: nat, mem': int -> int, ghost bs': seq<MallocBlock>, ghost k: nat)
    requires Chain(bs, s) && |bs| > 0 && head == bs[0] && align > 0 && AlignedFinds(s, n, align)
    modifies bs
    ensures Chain(bs', AlignedTake(s, n, align).zone) && |bs'| > 0 && bs'[0] == bs[0]
    ensures ptr == AlignedTake(s, n, align).ptr
    ensures forall x :: x in bs' ==> x in bs || fresh(x)
    ensures k < |s| && !s[k].inuse
    ensures forall x :: !(s[k].Payload() <= x < s[k].End()) ==> mem'(x) == mem(x)
  {
    var best, i := FindBestFit(head, n, align, bs, s);
    if best != null {
      k := i;
      Peek(bs, s, k);
      ptr := best.addr + H;
      mem', bs' := TakeBlock(best, n, mem, bs, s, k);
    } else {
      best, i := FindBestFit(head, Wrap(n + H + align), 1, bs, s);
      k := i;
      ptr, mem', bs' := CutBlock(best, n, align, mem, bs, s, k);
    }
  }

  /** Grows block i over the free block after it, then trims it to n bytes. */
  method GrowForward(b: MallocBlock, n: nat, mem: int -> int,
                     ghost bs: seq<MallocBlock>, ghost s: seq<Block>, ghost i: nat)
    returns (mem': int -> int, ghost bs': seq<MallocBlock>)
    requires Chain(bs, s) && i + 1 < |s| && i < |bs| && b == bs[i] && n <= s[i].size + s[i + 1].size + H
    modifies bs
    ensures Chain(bs', Split(Absorb(s, i), i, n)) && |bs'| > 0 && bs'[0] == bs[0]
    ensures forall x :: x in bs' ==> x in bs || fresh(x)
    ensures forall x :: !(s[i].Payload() + n <= x < s[i].End() + s[i + 1].size + H) ==> mem'(x) == mem(x)
  {
    hide Chain, Split;
    ChainLength(bs, s);
    AbsorbNext(b, bs, s, i);
    mem', bs' := ConsiderSplitting(b, n, mem, Drop(bs, i), Absorb(s, i), i);
  }

  /** Merges block i into the free block before it, copies, and trims to n bytes.
      The copy names the old payload as its destination, as the program does. */
  method GrowBackward(b: MallocBlock, n: nat, mem: int -> int,
                      ghost bs: seq<MallocBlock>, ghost s: seq<Block>, ghost i: nat)
    returns (ptr: nat, mem': int -> int, ghost bs': seq<MallocBlock>)
    requires Chain(bs, s) && 0 < i < |s| && i < |bs| && b == bs[i] && n <= s[i].size + s[i - 1].size + H
    modifies bs
    ensures Chain(bs', Split(Mark(Absorb(s, i - 1), i - 1, true), i - 1, n)) && |bs'| > 0 && bs'[0] == bs[0]
    ensures ptr == s[i - 1].Payload()
    ensures forall x :: x in bs' ==> x in bs || fresh(x)
    ensures forall x :: !(ptr <= x < s[i - 1].End() + s[i].size + H) && !(s[i].Payload() <= x < s[i].End()) ==>
              mem'(x) == mem(x)
    ensures forall x :: ptr <= x < ptr + n ==> mem'(x) == Copied(mem, s[i].Payload(), ptr, s[i].size)(x)
  {
    hide Chain, Split, Absorb, Mark, Copied;
    ChainLength(bs, s);
    Peek(bs, s, i);
    Peek(bs, s, i - 1);
    MergedIs(s, i);
    var oldPtr, oldSize, preceding := b.addr + H, b.size, b.prev;
    ghost var m := Absorb(s, i - 1);
    AbsorbNext(preceding, bs, s, i - 1);
    SetInuse(preceding, true, Drop(bs, i - 1), m, i - 1);
    ptr := preceding.addr + H;
    CopiedOutside(mem, oldPtr, ptr, oldSize);
    mem' := Copied(mem, oldPtr, ptr, oldSize);
    mem', bs' := ConsiderSplitting(preceding, n, mem', Drop(bs, i - 1), Mark(m, i - 1, true), i - 1);
  }

  lemma {:induction false} MergedIs(s: seq<Block>, i: nat)
    requires 0 < i < |s|
    ensures |Absorb(s, i - 1)| == |s| - 1 == |Mark(Absorb(s, i - 1), i - 1, true)|
    ensures Mark(Absorb(s, i - 1), i - 1, true)[i - 1] == Block(s[i - 1].addr, s[i - 1].size + s[i].size + H, true)
  {
  }

  lemma {:induction false} CopiedOutside(mem: int -> int, dst: int, src: int, n: nat)
    ensures forall x :: !(dst <= x < dst + n) ==> Copied(mem, dst, src, n)(x) == mem(x)
  {
  }

  // ---------------------------------------------------------------- bytes

  /** The bytes of these allocations are the same in both memories. */
  ghost predicate KeepsBytes(allocs: set<Block>, was: int -> int, now: int -> int) {
    forall b, x :: b in allocs && b.Payload() <= x < b.End() ==> now(x) == was(x)
  }

  /** Memory that differs only inside blocks a..b keeps the bytes of all other allocations. */
  lemma {:induction false} OnlyInside(s: seq<Block>, a: nat, b: nat, was: int -> int, now: int -> int, lo: nat, hi: nat)
    requires Tiled(s, lo, hi) && a < b <= |s|
    requires forall x :: !(s[a].addr <= x < s[b - 1].End()) ==> now(x) == was(x)
    ensures KeepsBytes(Allocs(s) - Allocs(s[a..b]), was, now)
  {
    forall c, x | c in Allocs(s) - Allocs(s[a..b]) && c.Payload() <= x < c.End() ensures now(x) == was(x) {
      var i :| 0 <= i < |s| && s[i] == c;
      if i < a { Increasing(s, lo, hi, i, a); }
      else if b <= i { Increasing(s, lo, hi, b - 1, i); }
    }
  }

  lemma {:induction false} OnlyInsideFree(s: seq<Block>, k: nat, was: int -> int, now: int -> int, lo: nat, hi: nat)
    requires Inv(s, lo, hi) && k < |s| && !s[k].inuse
    requires forall x :: !(s[k].Payload() <= x < s[k].End()) ==> now(x) == was(x)
    ensures KeepsBytes(Allocs(s), was, now)
  {
    OnlyInside(s, k, k + 1, was, now, lo, hi);
    assert Allocs(s[k..k + 1]) == {};
  }

  /** Resizing block i touches its own bytes and at most those of a free neighbour. */
  lemma {:induction false} OnlyInsideResized(s: seq<Block>, a: nat, b: nat, i: nat, was: int -> int, now: int -> int,
                                             lo: nat, hi: nat)
    requires Inv(s, lo, hi) && a <= i < b <= |s| && s[i].inuse
    requires forall k :: a <= k < b && k != i ==> !s[k].inuse
    requires forall x :: !(s[a].addr <= x < s[b - 1].End()) ==> now(x) == was(x)
    ensures KeepsBytes(Allocs(s) - {s[i]}, was, now)
  {
    OnlyInside(s, a, b, was, now, lo, hi);
    assert s[i] == s[a..b][i - a];
    assert Allocs(s[a..b]) == {s[i]};
  }

  lemma {:induction false} Adjacent(s: seq<Block>, i: nat, lo: nat, hi: nat)
    requires Inv(s, lo, hi) && 0 < i < |s|
    ensures s[i - 1].End() == s[i].addr && lo <= s[i - 1].addr
  {
    Distinct(s, lo, hi);
  }

  /** Memory after `n` bytes from `src` have been copied to `dst`. */
  function Copied(mem: int -> int, dst: int, src: int, n: nat): int -> int {
    x => if dst <= x < dst + n then mem(src + x - dst) else mem(x)
  }

  /** After copying `size` bytes from `r` to `ptr`, the first `kept` bytes at `r` are
      those that were at `ptr`, whatever they were. */
  ghost predicate Delivers(ptr: int, r: int, size: nat, kept: nat) {
    forall mem: int -> int, x :: r <= x < r + kept ==> Copied(mem, ptr, r, size)(x) == mem(ptr + x - r)
  }

  lemma {:induction false} StayDelivers(ptr: int, size: nat, kept: nat)
    ensures Delivers(ptr, ptr, size, kept)
  {
  }

  lemma {:induction false} MoveDeliversIff(ptr: int, r: int, n: nat)
    requires ptr != r
    ensures Delivers(ptr, r, n, n) <==> n == 0
  {
    if n > 0 {
      var mem := (y: int) => if y == ptr then 1 else 0;
      assert Copied(mem, ptr, r, n)(r) != mem(ptr + r - r);
    }
  }

  class MallocZone {
    var head: MallocBlock
    var mem: int -> int
    ghost var blocks: seq<MallocBlock>
    ghost var zone: seq<Block>
    ghost const lo: nat
    ghost const hi: nat

    ghost predicate Valid()
      reads this, blocks
    {
      |blocks| > 0 && head == blocks[0] && Chain(blocks, zone) && Inv(zone, lo, hi)
    }

    /** A zone of one free block that fills the region behind the zone header. */
    constructor (start: nat, size: nat, mem: int -> int)
      requires 0 < start && Z + H <= size < WORD && FirstBlock(start, size).End() < WORD
      ensures Valid() && fresh(blocks) && this.mem == mem
      ensures lo == FirstBlock(start, size).addr && hi == FirstBlock(start, size).End()
      ensures zone == Fresh(lo, hi)
    {
      var aligned := start;
      if start % 4 != 0 {
        aligned := start + (4 - start % 4);
      }
      var first := new MallocBlock(aligned + Z, null, null, size - Z - H);
      head, this.mem := first, mem;
      blocks, zone := [first], [Block(aligned + Z, size - Z - H, false)];
      lo, hi := aligned + Z, aligned + size;
      new;
      LinksIntro(blocks, zone, 1);
    }

    /** Allocates at least `size` bytes in the best fitting free block, or returns 0. */
    method Malloc(size: nat) returns (ptr: nat)
      requires Valid() && size < WORD
      modifies this, blocks
      ensures Valid() && forall x :: x in blocks ==> x in old(blocks) || fresh(x)
      ensures Outcome(zone, ptr) == MallocModel.Malloc(old(zone), size)
      ensures ptr == 0 ==> zone == old(zone) && blocks == old(blocks) && mem == old(mem)
      ensures KeepsBytes(Allocs(old(zone)), old(mem), mem)
      ensures forall x :: 0 <= x - ptr < RoundUp(size) ==> ptr == 0 || mem(x) == old(mem)(x)
    {
      hide Take, Chain, Inv;
      ChainLength(blocks, zone);
      MallocInv(zone, size, lo, hi);
      var n := RoundUp(size);
      var best, k := FindBestFit(head, n, 1, blocks, zone);
      if best == null {
        return 0;
      }
      Peek(blocks, zone, k);
      ptr := best.addr + H;
      var mem', bs' := TakeBlock(best, n, mem, blocks, zone, k);
      OnlyInsideFree(zone, k, mem, mem', lo, hi);
      mem, blocks, zone := mem', bs', Take(zone, k, n);
    }

    method AllocAligned(n: nat, align: nat) returns (ptr: nat)
      requires Valid() && n % 4 == 0 && align > 0 && AlignedSafe(zone, n, align)
      modifies this, blocks
      ensures Valid() && forall x :: x in blocks ==> x in old(blocks) || fresh(x)
      ensures Outcome(zone, ptr) == AlignedTake(old(zone), n, align)
      ensures KeepsBytes(Allocs(old(zone)), old(mem), mem)
    {
      hide AlignedTake, Chain, Inv, KeepsBytes, AlignedFinds, AlignedSafe, BestFit, Granted, Allocs;
      SafeFinds(zone, n, align);
      ChainLength(blocks, zone);
      MemalignGrants(zone, n, align, lo, hi);
      var p, mem', bs', k := TakeAligned(head, n, align, mem, blocks, zone);
      ptr := p;
      OnlyInsideFree(zone, k, mem, mem', lo, hi);
      mem, blocks, zone := mem', bs', AlignedTake(zone, n, align).zone;
    }

    /** Allocates at least `size` bytes at a multiple of `align`. */
    method Memalign(size: nat, align: nat) returns (ptr: nat)
      requires Valid() && size < WORD && MemalignSafe(zone, size, align)
      modifies this, blocks
      ensures Valid() && forall x :: x in blocks ==> x in old(blocks) || fresh(x)
      ensures Outcome(zone, ptr) == MallocModel.Memalign(old(zone), size, align)
      ensures KeepsBytes(Allocs(old(zone)), old(mem), mem)
    {
      if align == 0 {
        ptr := Malloc(size);
      } else {
        ptr := AllocAligned(RoundUp(size), align);
      }
    }

    /** Gives an allocation back; null is ignored. */
    method Free(ptr: nat)
      requires Valid() && (ptr == 0 || IsLive(zone, ptr))
      modifies this, blocks
      ensures Valid() && forall x :: x in blocks ==> x in old(blocks)
      ensures zone == MallocModel.Free(old(zone), ptr) && mem == old(mem)
    {
      hide Chain, Inv, FreeAt, Find, IsLive, Allocs;
      if ptr == 0 {
        return;
      }
      FreePtrInv(zone, ptr, lo, hi);
      var block, i := HeaderOf(head, ptr, blocks, zone);
      ghost var bs' := FreeBlock(block, blocks, zone, i);
      blocks, zone := bs', FreeAt(zone, i);
    }

    /** The block is big enough: give back what is not needed. */
    method ShrinkInPlace(block: MallocBlock, n: nat, ghost i: nat)
      requires Valid() && i < |blocks| && i < |zone| && block == blocks[i]
      requires zone[i].inuse && n % 4 == 0 && n <= zone[i].size
      modifies this, blocks
      ensures Valid() && forall x :: x in blocks ==> x in old(blocks) || fresh(x)
      ensures zone == Split(old(zone), i, n)
      ensures KeepsBytes(Allocs(old(zone)) - {old(zone)[i]}, old(mem), mem)
      ensures forall x :: 0 <= x - old(zone)[i].Payload() < n ==> mem(x) == old(mem)(x)
    {
      hide Chain, Inv, Split, KeepsBytes;
      SplitInv(zone, i, n, lo, hi);
      var mem', bs' := ConsiderSplitting(block, n, mem, blocks, zone, i);
      OnlyInsideResized(zone, i, i + 1, i, mem, mem', lo, hi);
      mem, blocks, zone := mem', bs', Split(zone, i, n);
    }

    /** The block and the free block after it are big enough together. */
    method GrowIntoNext(block: MallocBlock, n: nat, ghost i: nat)
      requires Valid() && i < |blocks| && i < |zone| && block == blocks[i] && zone[i].inuse && n % 4 == 0
      requires GrowsForward(zone, i, n) && zone[i].size < n
      modifies this, blocks
      ensures Valid() && forall x :: x in blocks ==> x in old(blocks) || fresh(x)
      ensures zone == Split(Absorb(old(zone), i), i, n)
      ensures KeepsBytes(Allocs(old(zone)) - {old(zone)[i]}, old(mem), mem)
      ensures forall x :: 0 <= x - old(zone)[i].Payload() < n ==> mem(x) == old(mem)(x)
    {
      hide Chain, Inv, Split, KeepsBytes;
      GrowForwardInv(zone, i, n, lo, hi);
      Adjacent(zone, i + 1, lo, hi);
      var mem', bs' := GrowForward(block, n, mem, blocks, zone, i);
      OnlyInsideResized(zone, i, i + 2, i, mem, mem', lo, hi);
      mem, blocks, zone := mem', bs', Split(Absorb(zone, i), i, n);
    }

    /** The block and the free block before it are big enough together. */
    method MergeIntoPrevious(block: MallocBlock, n: nat, ghost i: nat) returns (r: nat)
      requires Valid() && i < |blocks| && i < |zone| && block == blocks[i] && zone[i].inuse && n % 4 == 0
      requires GrowsBackward(zone, i, n)
      modifies this, blocks
      ensures Valid() && forall x :: x in blocks ==> x in old(blocks) || fresh(x)
      ensures zone == Split(Mark(Absorb(old(zone), i - 1), i - 1, true), i - 1, n) && r == old(zone)[i - 1].Payload()
      ensures KeepsBytes(Allocs(old(zone)) - {old(zone)[i]}, old(mem), mem)
      ensures forall x :: r <= x < r + n ==>
                mem(x) == Copied(old(mem), old(zone)[i].Payload(), r, old(zone)[i].size)(x)
    {
      hide Chain, Inv, Split, KeepsBytes, Absorb, Mark, Copied;
      MergedIs(zone, i);
      GrowBackwardInv(zone, i, n, lo, hi);
      Adjacent(zone, i, lo, hi);
      var p, mem', bs' := GrowBackward(block, n, mem, blocks, zone, i);
      r := p;
      OnlyInsideResized(zone, i - 1, i + 1, i, mem, mem', lo, hi);
      mem, blocks, zone := mem', bs', Split(Mark(Absorb(zone, i - 1), i - 1, true), i - 1, n);
    }

    /** Copies into a new block and frees the old one. The copy names the old
        payload as its destination, as the program does. */
    method MoveAway(ptr: nat, n: nat, ghost i: nat) returns (r: nat)
      requires Valid() && i < |zone| && zone[i].inuse && zone[i].Payload() == ptr && n % 4 == 0 && n < WORD
      modifies this, blocks
      ensures Valid() && forall x :: x in blocks ==> x in old(blocks) || fresh(x)
      ensures r == MallocModel.Malloc(old(zone), n).ptr
      ensures r == 0 ==> zone == old(zone) && blocks == old(blocks) && mem == old(mem)
      ensures r != 0 ==> && IsLive(MallocModel.Malloc(old(zone), n).zone, ptr) && r != ptr
                         && zone == MallocModel.Free(MallocModel.Malloc(old(zone), n).zone, ptr)
      ensures KeepsBytes(Allocs(old(zone)) - {old(zone)[i]}, old(mem), mem)
      ensures r != 0 ==> forall x :: r <= x < r + n ==> mem(x) == Copied(old(mem), ptr, r, old(zone)[i].size)(x)
    {
      hide Inv, Chain, MallocModel.Malloc, MallocModel.Free, IsLive, Find, KeepsBytes, Allocs;
      ghost var s, m := zone, mem;
      r := Malloc(n);
      if r != 0 {
        LiveAfterMalloc(s, i, n, lo, hi);
        var block, j := HeaderOf(head, ptr, blocks, zone);
        Peek(blocks, zone, j);
        ghost var m' := mem;
        mem := Copied(mem, ptr, r, block.size);
        OnlyInsideResized(zone, j, j + 1, j, m', mem, lo, hi);
        KeepsBoth(Allocs(s), Allocs(zone), zone[j], m, m', mem);
        assert forall k :: 0 <= k < |blocks| ==> blocks[k] in old(blocks) || fresh(blocks[k]);
        Free(ptr);
      } else {
        KeepsNothingChanged(Allocs(s) - {s[i]}, m);
      }
    }

    /** The four ways to resize block i, in the program's order. */
    method ResizeAt(block: MallocBlock, ptr: nat, n: nat, ghost i: nat) returns (r: nat)
      requires Valid() && i < |blocks| && i < |zone| && block == blocks[i]
      requires zone[i].inuse && zone[i].Payload() == ptr && n % 4 == 0 && n < WORD
      modifies this, blocks
      ensures Valid() && forall x :: x in blocks ==> x in old(blocks) || fresh(x)
      ensures Outcome(zone, r) == ReallocAt(old(zone), i, n)
      ensures KeepsBytes(Allocs(old(zone)) - {old(zone)[i]}, old(mem), mem)
      ensures r != 0 ==> forall x :: r <= x < r + n ==> mem(x) == Copied(old(mem), ptr, r, old(zone)[i].size)(x)
      ensures r == 0 ==> mem == old(mem)
    {
      hide Inv, Chain, MallocModel.Malloc, MallocModel.Free, IsLive, Find, KeepsBytes, Allocs, Split, Absorb, Mark;
      ChainLength(blocks, zone);
      Peek(blocks, zone, i);
      var following := block.next;
      if block.size >= n {
        ShrinkInPlace(block, n, i);
        return ptr;
      }
      if following != null { Peek(blocks, zone, i + 1); }
      if following != null && !following.inuse && block.size + following.size + H >= n {
        GrowIntoNext(block, n, i);
        return ptr;
      }
      r := MoveAway(ptr, n, i);
      if r != 0 {
        return;
      }
      Peek(blocks, zone, i);
      var preceding := block.prev;
      if preceding != null { Peek(blocks, zone, i - 1); }
      if preceding != null && !preceding.inuse && block.size + preceding.size + H >= n {
        Adjacent(zone, i, lo, hi);
        r := MergeIntoPrevious(block, n, i);
      }
    }

    /** Resizes an allocation, moving it if it must; returns 0 when it cannot. */
    method Realloc(ptr: nat, size: nat) returns (r: nat)
      requires Valid() && Legal(zone, ReallocOp(ptr, size))
      modifies this, blocks
      ensures Valid() && forall x :: x in blocks ==> x in old(blocks) || fresh(x)
      ensures Outcome(zone, r) == MallocModel.Realloc(old(zone), ptr, size)
      ensures ptr != 0 ==> KeepsBytes(Allocs(old(zone)) - {old(zone)[Find(old(zone), ptr)]}, old(mem), mem)
      ensures ptr != 0 && size != 0 && r != 0 ==>
                forall x :: r <= x < r + RoundUp(size) ==>
                  mem(x) == Copied(old(mem), ptr, r, old(zone)[Find(old(zone), ptr)].size)(x)
      ensures ptr == 0 ==> KeepsBytes(Allocs(old(zone)), old(mem), mem)
      ensures r == 0 ==> mem == old(mem)
    {
      hide Inv, Chain, MallocModel.Malloc, MallocModel.Free, Find, KeepsBytes, Allocs, ReallocAt, IsLive;
      if ptr == 0 {
        r := Malloc(size);
        return;
      }
      var block, i := HeaderOf(head, ptr, blocks, zone);
      if size == 0 {
        ReallocToZeroSucceeds(zone, ptr, lo, hi);
        FreePtrInv(zone, ptr, lo, hi);
        Free(ptr);
        assert forall k :: 0 <= k < |blocks| ==> blocks[k] in old(blocks);
        r := Malloc(0);
        return;
      }
      ChainLength(blocks, zone);
      r := ResizeAt(block, ptr, RoundUp(size), i);
    }
  }

  /** Both moving paths of `realloc` copy from the new payload to the old one. So a
      successful call keeps the caller's bytes, whatever they are, exactly when the
      block is big enough already, is empty, or can grow over a free block behind it. */
  lemma {:induction false} ReallocKeepsContentsIff(s: seq<Block>, i: nat, n: nat, lo: nat, hi: nat)
    requires Inv(s, lo, hi) && i < |s| && s[i].inuse && n < WORD && n % 4 == 0 && ReallocAt(s, i, n).ptr != 0
    ensures Delivers(s[i].Payload(), ReallocAt(s, i, n).ptr, s[i].size, if n < s[i].size then n else s[i].size) <==>
              || n <= s[i].size
              || s[i].size == 0
              || (i + 1 < |s| && !s[i + 1].inuse && n <= s[i].size + H + s[i + 1].size)
  {
    ReallocStaysIff(s, i, n, lo, hi);
    hide Inv, ReallocAt, Delivers;
    var ptr, r, size := s[i].Payload(), ReallocAt(s, i, n).ptr, s[i].size;
    if r == ptr { StayDelivers(ptr, size, if n < size then n else size); } else { MoveDeliversIff(ptr, r, size); }
  }

  /** A reachable zone in which resizing loses a byte: the first of two neighbouring
      allocations moves behind the second and does not take its bytes along. */
  lemma {:induction false} ReallocLosesAByte(lo: nat) returns (ops: seq<Op>, mem: int -> int)
    requires 0 < lo && lo % 4 == 0 && lo + 3 * H + 16 < WORD
    ensures LegalRun(Fresh(lo, lo + 3 * H + 16), ops)
    ensures var s := Run(Fresh(lo, lo + 3 * H + 16), ops);
            && |s| > 0 && s[0].inuse && s[0].size == 4
            && var ptr, r := s[0].Payload(), ReallocAt(s, 0, 8).ptr;
            r != 0 && Copied(mem, ptr, r, 4)(r) != mem(ptr)
  {
    ops := [MallocOp(4), MallocOp(4)];
    TwoFoursIsReachable(lo);
    TwoFoursMoves(lo);
    hide LegalRun, Run, ReallocAt;
    var ptr := TwoFours(lo)[0].Payload();
    mem := (y: int) => if y == ptr then 1 else 0;
  }

  lemma {:induction false} KeepsNothingChanged(allocs: set<Block>, m: int -> int)
    ensures KeepsBytes(allocs, m, m)
  {
  }

  lemma {:induction false} KeepsBoth(a: set<Block>, b: set<Block>, c: Block,
                                     m: int -> int, m': int -> int, m'': int -> int)
    requires a <= b && KeepsBytes(a, m, m') && KeepsBytes(b - {c}, m', m'')
    ensures KeepsBytes(a - {c}, m, m'')
  {
  }

  lemma {:induction false} LiveAfterMalloc(s: seq<Block>, i: nat, n: nat, lo: nat, hi: nat)
    requires Inv(s, lo, hi) && i < |s| && s[i].inuse && n % 4 == 0 && n < WORD && MallocModel.Malloc(s, n).ptr != 0
    ensures var o := MallocModel.Malloc(s, n);
            && IsLive(o.zone, s[i].Payload()) && Allocs(s) <= Allocs(o.zone) && o.ptr != s[i].Payload()
            && o.zone[Find(o.zone, s[i].Payload())] == s[i]
            && (o.ptr + n <= s[i].addr || s[i].End() <= o.ptr)
  {
    hide Inv, MallocModel.Malloc, MallocModel.Free, Find;
    var k := MallocGrants(s, n, lo, hi);
    var t := MallocModel.Malloc(s, n).zone;
    var x := StillThere(s, t, i, MallocModel.Malloc(s, n).ptr, n);
    FindsIt(t, x, lo, hi);
    Apart(s, k, i, lo, hi);
  }

  /** Different blocks do not overlap. */
  lemma {:induction false} Apart(s: seq<Block>, k: nat, i: nat, lo: nat, hi: nat)
    requires Inv(s, lo, hi) && k < |s| && i < |s| && k != i
    ensures s[k].End() <= s[i].addr || s[i].End() <= s[k].addr
  {
    if k < i { Increasing(s, lo, hi, k, i); } else { Increasing(s, lo, hi, i, k); }
  }

  lemma {:induction false} FindsIt(s: seq<Block>, i: nat, lo: nat, hi: nat)
    requires Inv(s, lo, hi) && i < |s| && s[i].inuse
    ensures IsLive(s, s[i].Payload()) && Find(s, s[i].Payload()) == i
  {
    FindIs(s, s[i].Payload(), i, lo, hi);
  }

  lemma {:induction false} GrowForwardInv(s: seq<Block>, i: nat, n: nat, lo: nat, hi: nat)
    requires Inv(s, lo, hi) && i < |s| && s[i].inuse && n % 4 == 0 && GrowsForward(s, i, n)
    ensures Inv(Split(Absorb(s, i), i, n), lo, hi)
  {
    hide Inv, Split;
    assert Mark(Absorb(s, i), i, true) == Absorb(s, i);
    GrowThenShrinkOk(s, i, i, n, lo, hi);
  }

  lemma {:induction false} GrowBackwardInv(s: seq<Block>, i: nat, n: nat, lo: nat, hi: nat)
    requires Inv(s, lo, hi) && i < |s| && s[i].inuse && n % 4 == 0 && GrowsBackward(s, i, n)
    ensures Inv(Split(Mark(Absorb(s, i - 1), i - 1, true), i - 1, n), lo, hi)
  {
    hide Inv, Split;
    GrowThenShrinkOk(s, i - 1, i, n, lo, hi);
  }
}

/** Creating a zone, and every run of operations on a fresh one. */
module MallocRuns {
  import opened MallocModel
  import opened MallocProofs
  import opened MallocTheorems

  /** The first block of a zone created in the region `[start, start + size)`. */
  function FirstBlock(start: nat, size: nat): Block
    requires size < WORD
  {
    var aligned := if start % 4 != 0 then start + (4 - start % 4) else start;
    Block(aligned + Z, if size >= Z + H then size - Z - H else size + WORD - Z - H, false)
  }

  /** `create` accepts every region larger than the zone header, but the zone
      stays inside the region exactly when the start is aligned and there is
      room for one block header. */
  lemma {:induction false} CreateStaysInsideIff(start: nat, size: nat)
    requires 0 < start && Z < size < WORD
    ensures FirstBlock(start, size).End() <= start + size <==> start % 4 == 0 && size >= Z + H
  {
  }

  /** A zone made at address 5, in a buffer with room for both headers, ends three
      bytes behind the buffer. */
  lemma {:induction false} CreateOverruns()
    ensures FirstBlock(5, Z + H).End() == 5 + Z + H + 3
  {
  }

  function Fresh(lo: nat, hi: nat): seq<Block>
    requires lo + H <= hi
  {
    [Block(lo, hi - lo - H, false)]
  }

  datatype Op =
    | MallocOp(size: nat)
    | MemalignOp(size: nat, align: nat)
    | FreeOp(ptr: nat)
    | ReallocOp(ptr: nat, size: nat)

  /** What the allocator asserts of its caller. */
  ghost predicate Legal(s: seq<Block>, op: Op) {
    match op
    case MallocOp(size) => size < WORD
    case MemalignOp(size, align) => size < WORD && MemalignSafe(s, size, align)
    case FreeOp(ptr) => ptr == 0 || IsLive(s, ptr)
    case ReallocOp(ptr, size) => size < WORD && (ptr == 0 || (IsLive(s, ptr) && s[Find(s, ptr)].inuse))
  }

  ghost function Exec(s: seq<Block>, op: Op): seq<Block>
    requires Legal(s, op)
  {
    match op
    case MallocOp(size) => Malloc(s, size).zone
    case MemalignOp(size, align) => Memalign(s, size, align).zone
    case FreeOp(ptr) => Free(s, ptr)
    case ReallocOp(ptr, size) => Realloc(s, ptr, size).zone
  }

  ghost predicate LegalRun(s: seq<Block>, ops: seq<Op>)
    decreases |ops|
  {
    ops == [] || (Legal(s, ops[0]) && LegalRun(Exec(s, ops[0]), ops[1..]))
  }

  ghost function Run(s: seq<Block>, ops: seq<Op>): seq<Block>
    requires LegalRun(s, ops)
    decreases |ops|
  {
    if ops == [] then s else Run(Exec(s, ops[0]), ops[1..])
  }

  lemma {:induction false} MallocInv(s: seq<Block>, size: nat, lo: nat, hi: nat)
    requires Inv(s, lo, hi) && size < WORD
    ensures Inv(Malloc(s, size).zone, lo, hi)
  {
    if Malloc(s, size).ptr == 0 { MallocFailsIff(s, size, lo, hi); }
    else { var k := MallocGrants(s, size, lo, hi); }
  }

  lemma {:induction false} FreePtrInv(s: seq<Block>, ptr: nat, lo: nat, hi: nat)
    requires Inv(s, lo, hi) && IsLive(s, ptr)
    ensures Inv(Free(s, ptr), lo, hi)
    ensures Allocs(Free(s, ptr)) == Allocs(s) - {s[Find(s, ptr)]} && s[Find(s, ptr)].inuse
  {
    LiveAt(s, ptr, lo, hi);
    FreeCorrect(s, Find(s, ptr), lo, hi);
  }

  lemma {:induction false} ReallocInv(s: seq<Block>, ptr: nat, size: nat, lo: nat, hi: nat)
    requires Inv(s, lo, hi) && Legal(s, ReallocOp(ptr, size))
    ensures Inv(Realloc(s, ptr, size).zone, lo, hi)
  {
    if ptr == 0 { MallocInv(s, size, lo, hi); }
    else if size == 0 {
      FreePtrInv(s, ptr, lo, hi);
      MallocInv(Free(s, ptr), 0, lo, hi);
    } else { ReallocCorrect(s, Find(s, ptr), RoundUp(size), lo, hi); }
  }

  /** Every legal operation keeps the zone invariant. */
  lemma {:induction false} StepInv(s: seq<Block>, op: Op, lo: nat, hi: nat)
    requires Inv(s, lo, hi) && Legal(s, op)
    ensures Inv(Exec(s, op), lo, hi)
  {
    match op
    case MallocOp(size) => MallocInv(s, size, lo, hi);
    case MemalignOp(size, align) =>
      if align == 0 { MallocInv(s, size, lo, hi); } else { MemalignGrants(s, RoundUp(size), align, lo, hi); }
    case FreeOp(ptr) => if ptr != 0 { FreePtrInv(s, ptr, lo, hi); }
    case ReallocOp(ptr, size) => ReallocInv(s, ptr, size, lo, hi);
  }

  lemma {:induction false} RunInv(s: seq<Block>, ops: seq<Op>, lo: nat, hi: nat)
    requires Inv(s, lo, hi) && LegalRun(s, ops)
    ensures Inv(Run(s, ops), lo, hi)
    decreases |ops|
  {
    if ops == [] {
    } else {
      StepInv(s, ops[0], lo, hi);
      RunInv(Exec(s, ops[0]), ops[1..], lo, hi);
    }
  }

  /** Headers and payloads together always fill the zone. */
  lemma {:induction false} FootprintIsConstant(s: seq<Block>, lo: nat, hi: nat)
    requires Tiled(s, lo, hi)
    ensures Footprint(s) == hi - lo
    decreases |s|
  {
    if |s| > 1 {
      assert forall i :: 0 < i < |s| - 1 ==> s[1..][i - 1] == s[i] && s[1..][i] == s[i + 1];
      assert s[1..][|s| - 2] == s[|s| - 1];
      FootprintIsConstant(s[1..], s[1].addr, hi);
    } else {
      assert s[1..] == [];
    }
  }

  /** Different allocations never overlap. */
  lemma {:induction false} AllocationsAreDisjoint(s: seq<Block>, b: Block, c: Block, lo: nat, hi: nat)
    requires Tiled(s, lo, hi) && b in Allocs(s) && c in Allocs(s) && b != c
    ensures b.End() <= c.addr || c.End() <= b.addr
    ensures lo <= b.addr && b.End() <= hi
  {
    var i :| 0 <= i < |s| && s[i] == b;
    var j :| 0 <= j < |s| && s[j] == c;
    Distinct(s, lo, hi);
    if i < j { Increasing(s, lo, hi, i, j); } else { Increasing(s, lo, hi, j, i); }
  }

  /** From a fresh zone, every run keeps the invariant and the footprint, and a
      run that leaves nothing allocated leaves the fresh zone. */
  lemma {:induction false} EveryRun(ops: seq<Op>, lo: nat, hi: nat)
    requires 0 < lo && lo % 4 == 0 && lo + H <= hi < WORD
    requires LegalRun(Fresh(lo, hi), ops)
    ensures Inv(Run(Fresh(lo, hi), ops), lo, hi)
    ensures Footprint(Run(Fresh(lo, hi), ops)) == hi - lo
    ensures Allocs(Run(Fresh(lo, hi), ops)) == {} ==> Run(Fresh(lo, hi), ops) == Fresh(lo, hi)
  {
    RunInv(Fresh(lo, hi), ops, lo, hi);
    var s := Run(Fresh(lo, hi), ops);
    FootprintIsConstant(s, lo, hi);
    if Allocs(s) == {} { AllFreeIsOne(s, lo, hi); }
  }

  lemma {:induction false} AllFreeIsOne(s: seq<Block>, lo: nat, hi: nat)
    requires Inv(s, lo, hi) && Allocs(s) == {} && lo + H <= hi
    ensures s == Fresh(lo, hi)
  {
    assert s[0] !in Allocs(s);
    if |s| > 1 { SomeInUse(s); }
  }

  lemma {:induction false} SomeInUse(s: seq<Block>)
    requires Coalesced(s) && |s| > 1
    ensures Allocs(s) != {}
  {
    assert s[if s[0].inuse then 0 else 1] in Allocs(s);
  }

  /** Resizing to zero bytes frees the block and always finds a new one. */
  lemma {:induction false} ReallocToZeroSucceeds(s: seq<Block>, ptr: nat, lo: nat, hi: nat)
    requires Inv(s, lo, hi) && ptr != 0 && Legal(s, ReallocOp(ptr, 0))
    ensures Realloc(s, ptr, 0).ptr != 0
  {
    var i := Find(s, ptr);
    var t := Free(s, ptr);
    FreePtrInv(s, ptr, lo, hi);
    FreeShape(s, i);
    assert t[First(s, i)] == Merged(s, i);
    assert Fits(t[First(s, i)], 0, 1);
    MallocFailsIff(t, 0, lo, hi);
  }

  /** When only the last block is free, and has bytes to spare, malloc splits it. */
  lemma {:induction false} MallocAtEnd(a: seq<Block>, b: Block, n: nat)
    requires (forall i :: 0 <= i < |a| ==> a[i].inuse) && !b.inuse && n % 4 == 0 && n + H < b.size && n + 3 < WORD
    ensures Malloc(a + [b], n) ==
            Outcome(a + [Block(b.addr, n, true)] + [Block(b.addr + H + n, b.size - n - H, false)], b.Payload())
  {
    var s, k := a + [b], |a|;
    LastIsBest(a, b, n);
    assert s[k] == b;
    assert Carve(s, k, n) == a + [b.(size := n), Block(b.addr + H + n, b.size - n - H, false)];
    hide BestFit, Carve;
    assert Take(s, k, n) == a + [Block(b.addr, n, true)] + [Block(b.addr + H + n, b.size - n - H, false)];
  }

  lemma {:induction false} LastIsBest(a: seq<Block>, b: Block, n: nat)
    requires (forall i :: 0 <= i < |a| ==> a[i].inuse) && !b.inuse && n <= b.size
    ensures BestFit(a + [b], |a| + 1, n, 1) == |a|
  {
    var s := a + [b];
    assert s[|a|] == b && forall i :: 0 <= i < |a| ==> s[i] == a[i];
    RemIsModulo(b.Payload(), 1);
    hide Rem, BestFit;
    BestFitCorrect(s, |s|, n, 1);
  }

  /** Two allocations of four bytes in a fresh zone with eight bytes to spare. */
  function TwoFours(lo: nat): seq<Block> {
    [Block(lo, 4, true), Block(lo + H + 4, 4, true), Block(lo + 2 * H + 8, 8, false)]
  }

  lemma {:induction false} TwoSteps(s: seq<Block>, a: Op, b: Op)
    requires Legal(s, a) && Legal(Exec(s, a), b)
    ensures LegalRun(s, [a, b]) && Run(s, [a, b]) == Exec(Exec(s, a), b)
  {
    hide Legal, Exec;
    var t, ops := Exec(s, a), [a, b];
    assert ops[1..] == [b] && [b][1..] == [];
    assert LegalRun(Exec(t, b), []) && LegalRun(t, [b]);
    assert Run(t, [b]) == Exec(t, b);
  }

  function OneFour(lo: nat): seq<Block> {
    [Block(lo, 4, true), Block(lo + H + 4, H + 12, false)]
  }

  lemma {:induction false} FirstFour(lo: nat)
    ensures Malloc(Fresh(lo, lo + 3 * H + 16), 4).zone == OneFour(lo)
  {
    var a := Block(lo, 2 * H + 16, false);
    MallocAtEnd([], a, 4);
    hide Malloc;
    assert Fresh(lo, lo + 3 * H + 16) == [] + [a];
  }

  lemma {:induction false} SecondFour(lo: nat)
    ensures Malloc(OneFour(lo), 4).zone == TwoFours(lo)
  {
    var s := OneFour(lo);
    MallocAtEnd([s[0]], s[1], 4);
    hide Malloc;
    assert s == [s[0]] + [s[1]];
  }

  lemma {:induction false} TwoFoursIsReachable(lo: nat)
    ensures LegalRun(Fresh(lo, lo + 3 * H + 16), [MallocOp(4), MallocOp(4)])
    ensures Run(Fresh(lo, lo + 3 * H + 16), [MallocOp(4), MallocOp(4)]) == TwoFours(lo)
  {
    FirstFour(lo);
    SecondFour(lo);
    hide Malloc, LegalRun, Run, TwoFours, OneFour;
    TwoSteps(Fresh(lo, lo + 3 * H + 16), MallocOp(4), MallocOp(4));
  }

  lemma {:induction false} TwoFoursMoves(lo: nat)
    requires 0 < lo && lo % 4 == 0 && lo + 3 * H + 16 < WORD
    ensures ReallocAt(TwoFours(lo), 0, 8).ptr !in {0, TwoFours(lo)[0].Payload()}
  {
    var hi, s := lo + 3 * H + 16, TwoFours(lo);
    assert Inv(s, lo, hi);
    hide ReallocAt, Inv;
    ReallocStaysIff(s, 0, 8, lo, hi);
    ReallocFailsIff(s, 0, 8, lo, hi);
  }

  /** A fresh zone in which an allocation aligned to six bytes must be cut, and the
      cut leaves a header that is not 4-aligned. */
  lemma {:induction false} SixMisalignsAHeader() returns (lo: nat, hi: nat)
    ensures lo + H <= hi && Inv(Fresh(lo, hi), lo, hi)
    ensures BestFit(Fresh(lo, hi), 1, 4, 6) < 0 && BestFit(Fresh(lo, hi), 1, 4 + H + 6, 1) == 0
    ensures CutOut(Fresh(lo, hi), 0, 4, 6).zone[1].addr % 4 == 2
  {
    lo := if H % 12 == 4 then 10 * H else 10 * H + 4;
    hi := lo + H + 4 + H + 6;
    var s := Fresh(lo, hi);
    SixResidues(lo);
    hide BestFit, Gap, CutOut;
    SixMustCut(lo, hi);
    CutHeaderAt(s, 4, 6);
  }

  lemma {:induction false} SixResidues(lo: nat)
    requires lo == if H % 12 == 4 then 10 * H else 10 * H + 4
    ensures lo % 4 == 0 && Rem(lo + H, 6) != 0 && (lo + H + Gap(lo, 6)) % 4 == 2
  {
    RemIsModulo(lo + H, 6);
    RemIsModulo(lo + H + H, 6);
    hide Rem;
    Residues(H, H / 12, H % 12);
  }

  lemma {:induction false} Residues(h: nat, q: nat, r: nat)
    requires h == 12 * q + r && r < 12 && h % 4 == 0
    ensures r == 4 ==> (11 * h) % 6 == 2 && (12 * h) % 6 == 0
    ensures r != 4 ==> (11 * h + 4) % 6 != 0 && (12 * h + 4) % 6 == 4
  {
    hide *;
    if r == 4 {
      ModSix(22 * q + 7, 2);
      ModSix(2 * h, 0);
    } else {
      assert r == 0 || r == 8;
      ModSix(if r == 0 then 22 * q else 22 * q + 15, if r == 0 then 4 else 2);
      ModSix(2 * h, 4);
    }
  }

  lemma {:induction false} ModSix(k: nat, c: nat)
    requires c < 6
    ensures (6 * k + c) % 6 == c
  {
  }

  lemma {:induction false} SixMustCut(lo: nat, hi: nat)
    requires Rem(lo + H, 6) != 0 && hi == lo + H + 4 + H + 6
    ensures BestFit(Fresh(lo, hi), 1, 4, 6) < 0 && BestFit(Fresh(lo, hi), 1, 4 + H + 6, 1) == 0
  {
    RemIsModulo(lo + H, 1);
    hide Rem;
    BestFitCorrect(Fresh(lo, hi), 1, 4, 6);
    BestFitCorrect(Fresh(lo, hi), 1, 4 + H + 6, 1);
  }

  lemma {:induction false} CutHeaderAt(s: seq<Block>, n: nat, align: nat)
    requires align > 0 && |s| > 0 && n + H + align <= s[0].size
    ensures |CutOut(s, 0, n, align).zone| > 1
    ensures CutOut(s, 0, n, align).zone[1].addr == s[0].addr + H + Gap(s[0].addr, align)
  {
    hide Gap;
  }
}

/** The allocator's promises, for every zone that satisfies the invariant and
    for every run of operations from a fresh zone. */
module MallocTheorems {
  import opened Basics
  import opened MallocModel
  import opened MallocProofs

  // ------------------------------------------------------------------ searching

  /** k is the smallest fitting free block, the lowest-addressed one on ties. */
  ghost predicate IsBestFit(s: seq<Block>, n: nat, size: nat, align: nat, k: nat)
    requires n <= |s| && align > 0
  {
    && k < n && !s[k].inuse && size <= s[k].size && Rem(s[k].Payload(), align) == 0
    && forall j :: 0 <= j < n && !s[j].inuse && size <= s[j].size && Rem(s[j].Payload(), align) == 0 ==>
         s[k].size < s[j].size || (s[k].size == s[j].size && k <= j)
  }

  lemma {:induction false} BestFitCorrect(s: seq<Block>, n: nat, size: nat, align: nat)
    requires n <= |s| && align > 0
    ensures BestFit(s, n, size, align) < 0 <==>
              forall j :: 0 <= j < n ==> s[j].inuse || s[j].size < size || Rem(s[j].Payload(), align) != 0
    ensures BestFit(s, n, size, align) >= 0 ==> IsBestFit(s, n, size, align, BestFit(s, n, size, align))
  {
    if n == 0 {
    } else {
      BestFitCorrect(s, n - 1, size, align);
    }
  }

  lemma {:induction false} FindIs(s: seq<Block>, ptr: nat, i: nat, lo: nat, hi: nat)
    requires Tiled(s, lo, hi) && i < |s| && s[i].inuse && s[i].Payload() == ptr
    ensures IsLive(s, ptr) && Find(s, ptr) == i
  {
    Distinct(s, lo, hi);
    var j := Find(s, ptr);
    assert !(i < j) && !(j < i);
  }

  lemma {:induction false} LiveAt(s: seq<Block>, ptr: nat, lo: nat, hi: nat)
    requires Tiled(s, lo, hi) && IsLive(s, ptr)
    ensures s[Find(s, ptr)].inuse
  {
    var i :| 0 <= i < |s| && s[i].inuse && s[i].Payload() == ptr;
    FindIs(s, ptr, i, lo, hi);
  }

  // ----------------------------------------------------------------- allocation

  /** `t` holds what `s` held plus one new allocation at `ptr` of at least n
      bytes, and freeing that one gives `s` back. */
  ghost predicate Granted(s: seq<Block>, t: seq<Block>, ptr: nat, n: nat) {
    && (exists b :: Allocs(t) == Allocs(s) + {b} && b.Payload() == ptr && n <= b.size <= n + H)
    && (forall b :: b in Allocs(s) ==> b.Payload() != ptr)
    && IsLive(t, ptr) && Free(t, ptr) == s
  }

  lemma {:induction false} GrantedAt(s: seq<Block>, t: seq<Block>, i: nat, n: nat, lo: nat, hi: nat)
    requires Inv(t, lo, hi) && i < |t| && t[i].inuse && n <= t[i].size <= n + H
    requires Allocs(t) == Allocs(s) + {t[i]} && forall b :: b in Allocs(s) ==> b.addr != t[i].addr
    requires FreeAt(t, i) == s
    ensures Granted(s, t, t[i].Payload(), n)
  {
    FindIs(t, t[i].Payload(), i, lo, hi);
  }

  lemma {:induction false} TakeGrants(s: seq<Block>, k: nat, n: nat, lo: nat, hi: nat)
    requires Inv(s, lo, hi) && k < |s| && n <= s[k].size && !s[k].inuse && n % 4 == 0
    ensures Inv(Take(s, k, n), lo, hi)
    ensures Granted(s, Take(s, k, n), s[k].Payload(), n)
  {
    TakeInv(s, k, n, lo, hi);
    TakeAllocs(s, k, n, lo, hi);
    FreeUndoesTake(s, k, n);
    TakeShape(s, k, n);
    assert Take(s, k, n)[k] == Pieces(s[k], n)[0];
    GrantedAt(s, Take(s, k, n), k, n, lo, hi);
  }

  /** Malloc fails exactly when no free block is big enough. */
  lemma {:induction false} MallocFailsIff(s: seq<Block>, size: nat, lo: nat, hi: nat)
    requires Inv(s, lo, hi) && size < WORD
    ensures Malloc(s, size).ptr == 0 <==> forall i :: 0 <= i < |s| ==> s[i].inuse || s[i].size < RoundUp(size)
    ensures Malloc(s, size).ptr == 0 ==> Malloc(s, size).zone == s
  {
    BestFitCorrect(s, |s|, RoundUp(size), 1);
  }

  /** When it succeeds it used the best fit, and it added exactly one allocation. */
  lemma {:induction false} MallocGrants(s: seq<Block>, size: nat, lo: nat, hi: nat) returns (k: nat)
    requires Inv(s, lo, hi) && size < WORD && Malloc(s, size).ptr != 0
    ensures IsBestFit(s, |s|, RoundUp(size), 1, k) && Malloc(s, size).ptr == s[k].Payload()
    ensures Inv(Malloc(s, size).zone, lo, hi)
    ensures Granted(s, Malloc(s, size).zone, Malloc(s, size).ptr, RoundUp(size))
  {
    var n := RoundUp(size);
    BestFitCorrect(s, |s|, n, 1);
    k := BestFit(s, |s|, n, 1);
    TakeGrants(s, k, n, lo, hi);
  }

  /** Rounding saturates at a size that no zone can provide. */
  lemma {:induction false} SaturatedRequestFails(s: seq<Block>, size: nat, lo: nat, hi: nat)
    requires Inv(s, lo, hi) && WORD - 3 <= size < WORD
    ensures Malloc(s, size) == Outcome(s, 0)
  {
    MallocFailsIff(s, size, lo, hi);
    Distinct(s, lo, hi);
  }

  // ---------------------------------------------------------- aligned allocation

  lemma {:induction false} RemIsModulo(x: nat, m: nat)
    requires m > 0
    ensures Rem(x, m) == x % m
  {
    var q := Quotient(x, m);
    ModuloIsUnique(q, Rem(x, m), x / m, x % m, m);
  }

  lemma {:induction false} Quotient(x: nat, m: nat) returns (q: nat)
    requires m > 0
    ensures x == q * m + Rem(x, m)
  {
    if x < m {
      q := 0;
    } else {
      q := Quotient(x - m, m);
      assert (q + 1) * m == q * m + m;
      q := q + 1;
    }
  }

  lemma {:induction false} ModuloIsUnique(q: int, r: nat, q': int, r': nat, m: nat)
    requires q * m + r == q' * m + r' && r < m && r' < m
    ensures r == r'
  {
    Multiples(q - q', m);
    assert (q - q') * m == r' - r;
  }

  lemma {:induction false} Multiples(k: int, m: nat)
    ensures k >= 1 ==> k * m >= m
    ensures k <= -1 ==> k * m + m <= 0
  {
  }

  lemma {:induction false} RoundedUpRem(x: nat, m: nat)
    requires m > 0
    ensures Rem(x + m - Rem(x, m), m) == 0
  {
    if x < m {
    } else {
      RoundedUpRem(x - m, m);
    }
  }

  lemma {:induction false} RemIsFours(x: nat, m: nat)
    requires m > 0 && m % 4 == 0 && x % 4 == 0
    ensures Rem(x, m) % 4 == 0
  {
    if x < m {
    } else {
      Fours(x, m);
      RemIsFours(x - m, m);
    }
  }

  lemma {:induction false} GapAligns(addr: nat, align: nat)
    requires align > 0
    ensures (addr + H + Gap(addr, align) + H) % align == 0
  {
    RoundedUpRem(addr + H + H, align);
    RemIsModulo(addr + H + Gap(addr, align) + H, align);
  }

  lemma {:induction false} GapIsFours(addr: nat, align: nat)
    requires align > 0 && align % 4 == 0 && addr % 4 == 0
    ensures Gap(addr, align) % 4 == 0
  {
    Fours(addr, H);
    Fours(addr + H, H);
    RemIsFours(addr + H + H, align);
    Fours(align, Rem(addr + H + H, align));
  }

  lemma {:induction false} Fours(x: nat, y: nat)
    requires x % 4 == 0 && y % 4 == 0
    ensures (x + y) % 4 == 0 && (x - y) % 4 == 0
  {
    hide *;
    var a, b := x / 4, y / 4;
    assert x + y == 4 * (a + b) && x - y == 4 * (a - b);
  }

  /** Cutting block j leaves a free block of at most the alignment in front of an
      aligned new allocation; its size is a multiple of 4 if the alignment is. */
  lemma {:induction false} CutShape(s: seq<Block>, j: nat, n: nat, align: nat, lo: nat, hi: nat)
    requires Inv(s, lo, hi) && align > 0
    requires j < |s| && !s[j].inuse && n + H + align <= s[j].size
    ensures var g, o := Gap(s[j].addr, align), CutOut(s, j, n, align);
            && g <= align && (align % 4 == 0 ==> g % 4 == 0)
            && o.zone == Splice(s, j, j + 1, GapPieces(s[j], g, n))
            && o.ptr == s[j].addr + H + g + H && o.ptr % align == 0
  {
    hide Rem, Tiled;
    GapAligns(s[j].addr, align);
    if align % 4 == 0 { GapIsFours(s[j].addr, align); }
    assert j + 1 < |s| ==> s[j].inuse || s[j + 1].inuse;
    CarveShape(s, j, Gap(s[j].addr, align), n);
  }

  /** A cut keeps the zone invariant exactly when the gap is a multiple of 4. */
  lemma {:induction false} CutInvIff(s: seq<Block>, j: nat, n: nat, align: nat, lo: nat, hi: nat)
    requires Inv(s, lo, hi) && align > 0 && n % 4 == 0
    requires j < |s| && !s[j].inuse && n + H + align <= s[j].size
    ensures Inv(CutOut(s, j, n, align).zone, lo, hi) <==> Gap(s[j].addr, align) % 4 == 0
  {
    hide CutOut, Gap, Splice, GapPieces, Inv;
    CutShape(s, j, n, align, lo, hi);
    GapInvIff(s, j, Gap(s[j].addr, align), n, lo, hi);
  }

  lemma {:induction false} GapInvIff(s: seq<Block>, j: nat, g: nat, n: nat, lo: nat, hi: nat)
    requires Inv(s, lo, hi) && j < |s| && !s[j].inuse && g + H + n <= s[j].size && n % 4 == 0
    ensures Inv(Splice(s, j, j + 1, GapPieces(s[j], g, n)), lo, hi) <==> g % 4 == 0
  {
    var t := Splice(s, j, j + 1, GapPieces(s[j], g, n));
    GapHead(s, j, g, n);
    HeaderAligned(s, j, lo, hi);
    Fours(s[j].addr, H);
    HeaderAligned(t, j + 1, lo, hi);
    hide Splice, GapPieces, Inv;
    if g % 4 == 0 { GapInv(s, j, g, n, lo, hi); }
  }

  lemma {:induction false} HeaderAligned(s: seq<Block>, i: nat, lo: nat, hi: nat)
    requires i < |s|
    ensures Inv(s, lo, hi) ==> s[i].addr % 4 == 0
  {
  }

  lemma {:induction false} CutGrants(s: seq<Block>, j: nat, n: nat, align: nat, lo: nat, hi: nat)
    requires Inv(s, lo, hi) && align > 0 && n % 4 == 0
    requires j < |s| && !s[j].inuse && n + H + align <= s[j].size && Gap(s[j].addr, align) % 4 == 0
    ensures Granted(s, CutOut(s, j, n, align).zone, CutOut(s, j, n, align).ptr, n)
  {
    var g := Gap(s[j].addr, align);
    CutShape(s, j, n, align, lo, hi);
    CutInvIff(s, j, n, align, lo, hi);
    assert j + 1 < |s| ==> s[j].inuse || s[j + 1].inuse;
    hide CutOut, Gap, Inv, FreeAt, Splice;
    GapAllocs(s, j, g, n, lo, hi);
    FreeUndoesCarve(s, j, g, n);
    GapHead(s, j, g, n);
    GrantedAt(s, CutOut(s, j, n, align).zone, j + 1, n, lo, hi);
  }

  /** `memalign` cuts only when no free block is aligned already, and then it cuts
      the best fit for the padded request. */
  lemma {:induction false} MemalignCuts(s: seq<Block>, n: nat, align: nat) returns (j: nat)
    requires align > 0 && AlignedFinds(s, n, align) && BestFit(s, |s|, n, align) < 0
    ensures j == BestFit(s, |s|, n + H + align, 1) && IsBestFit(s, |s|, n + H + align, 1, j)
    ensures AlignedTake(s, n, align) == CutOut(s, j, n, align)
  {
    BestFitCorrect(s, |s|, n + H + align, 1);
    j := BestFit(s, |s|, n + H + align, 1);
  }

  /** An aligned request that is served is served at a multiple of the alignment, and
      it keeps the zone invariant exactly when it is safe. */
  lemma {:induction false} MemalignKeepsInvIff(s: seq<Block>, n: nat, align: nat, lo: nat, hi: nat)
    requires Inv(s, lo, hi) && n % 4 == 0 && align > 0 && AlignedFinds(s, n, align)
    ensures AlignedTake(s, n, align).ptr % align == 0
    ensures Inv(AlignedTake(s, n, align).zone, lo, hi) <==> AlignedSafe(s, n, align)
  {
    var k := BestFit(s, |s|, n, align);
    if k >= 0 {
      TakeGrants(s, k, n, lo, hi);
      RemIsModulo(s[k].Payload(), align);
    } else {
      var j := MemalignCuts(s, n, align);
      hide BestFit, Inv, AlignedTake, Gap;
      CutInvIff(s, j, n, align, lo, hi);
      CutShape(s, j, n, align, lo, hi);
    }
  }

  /** A safe aligned request always succeeds with an aligned new allocation. */
  lemma {:induction false} MemalignGrants(s: seq<Block>, n: nat, align: nat, lo: nat, hi: nat)
    requires Inv(s, lo, hi) && n % 4 == 0 && align > 0 && AlignedSafe(s, n, align)
    ensures AlignedTake(s, n, align).ptr % align == 0
    ensures Inv(AlignedTake(s, n, align).zone, lo, hi)
    ensures Granted(s, AlignedTake(s, n, align).zone, AlignedTake(s, n, align).ptr, n)
  {
    var k := BestFit(s, |s|, n, align);
    MemalignKeepsInvIff(s, n, align, lo, hi);
    if k >= 0 {
      TakeGrants(s, k, n, lo, hi);
    } else {
      var j := MemalignCuts(s, n, align);
      hide BestFit, Inv, AlignedTake, Gap;
      CutGrants(s, j, n, align, lo, hi);
    }
  }

  /** What a safe aligned request needs, block by block: a free aligned block, or a
      best fit for the padded request in which the gap is a multiple of 4. */
  lemma {:induction false} AlignedSafeIff(s: seq<Block>, n: nat, align: nat)
    requires align > 0
    ensures AlignedSafe(s, n, align) <==>
              || (exists i :: 0 <= i < |s| && !s[i].inuse && n <= s[i].size && s[i].Payload() % align == 0)
              || (&& n + H + align < WORD
                  && exists j: nat :: IsBestFit(s, |s|, n + H + align, 1, j) && Gap(s[j].addr, align) % 4 == 0)
  {
    hide Rem, BestFit, Gap, IsBestFit;
    BestFitCorrect(s, |s|, n, align);
    forall i | 0 <= i < |s| ensures Rem(s[i].Payload(), align) == s[i].Payload() % align {
      RemIsModulo(s[i].Payload(), align);
    }
    BestFitIs(s, n + H + align);
  }

  lemma {:induction false} SafeFinds(s: seq<Block>, n: nat, align: nat)
    requires align > 0 && AlignedSafe(s, n, align)
    ensures AlignedFinds(s, n, align)
  {
  }

  lemma {:induction false} BestFitIs(s: seq<Block>, n: nat)
    ensures forall j: nat :: IsBestFit(s, |s|, n, 1, j) <==> j == BestFit(s, |s|, n, 1)
  {
    BestFitCorrect(s, |s|, n, 1);
    hide Rem, BestFit;
  }

  lemma {:induction false} PowersOfTwo(e: nat)
    ensures e < 2 ==> Pow2(e) == e + 1
    ensures e >= 2 ==> Pow2(e) % 4 == 0
  {
    if e <= 2 {
    } else {
      PowersOfTwo(e - 1);
    }
  }

  /** Every power-of-two request is safe when some free block holds the request,
      a header and the alignment. */
  lemma {:induction false} PowerOfTwoIsSafe(s: seq<Block>, size: nat, e: nat, i: nat, lo: nat, hi: nat)
    requires Inv(s, lo, hi) && size < WORD && i < |s|
    requires Fits(s[i], RoundUp(size) + H + Pow2(e), 1)
    ensures MemalignSafe(s, size, Pow2(e))
  {
    PowersOfTwo(e);
    hide Inv, BestFit, AlignedSafe;
    if e < 2 { SmallAlignIsSafe(s, RoundUp(size), Pow2(e), i, lo, hi); }
    else { BigAlignIsSafe(s, RoundUp(size), Pow2(e), i, lo, hi); }
  }

  lemma {:induction false} BigAlignIsSafe(s: seq<Block>, n: nat, align: nat, i: nat, lo: nat, hi: nat)
    requires Inv(s, lo, hi) && i < |s| && align > 0 && align % 4 == 0 && Fits(s[i], n + H + align, 1)
    ensures AlignedSafe(s, n, align)
  {
    Distinct(s, lo, hi);
    hide Rem, BestFit, Gap, Tiled, Coalesced;
    BestFitCorrect(s, |s|, n + H + align, 1);
    var j := BestFit(s, |s|, n + H + align, 1);
    assert j >= 0 && n + H + align < WORD;
    GapIsFours(s[j].addr, align);
  }

  lemma {:induction false} SmallAlignIsSafe(s: seq<Block>, n: nat, align: nat, i: nat, lo: nat, hi: nat)
    requires Inv(s, lo, hi) && i < |s| && (align == 1 || align == 2)
    requires !s[i].inuse && s[i].size >= n
    ensures AlignedSafe(s, n, align)
  {
    Fours(s[i].addr, H);
    EvenRem(s[i].Payload(), align);
    BestFitCorrect(s, |s|, n, align);
    assert Fits(s[i], n, align);
  }

  lemma {:induction false} EvenRem(x: nat, m: nat)
    requires (m == 1 || m == 2) && x % 4 == 0
    ensures Rem(x, m) == 0
  {
    if x < 4 {
    } else {
      EvenRem(x - 4, m);
      assert m == 2 ==> Rem(x, m) == Rem(x - 2, m) == Rem(x - 4, m);
    }
  }

  /** The carved header is 4-aligned for every block exactly when the alignment
      is a multiple of four. */
  lemma {:induction false} CarvedHeaderAlignedIff(align: nat)
    requires align > 0
    ensures (forall a: nat :: a % 4 == 0 ==> Gap(a, align) % 4 == 0) <==> align % 4 == 0
  {
    if align % 4 == 0 {
      forall a: nat | a % 4 == 0 ensures Gap(a, align) % 4 == 0 { GapIsFours(a, align); }
    } else {
      var a := WholeGap(align);
    }
  }

  /** Some block makes the gap as wide as the alignment. */
  lemma {:induction false} WholeGap(align: nat) returns (a: nat)
    requires align > 0
    ensures a % 4 == 0 && Gap(a, align) == align
  {
    var p := H * align;
    FourTimes(H, align);
    RemOfMultiple(4 * H, align);
    a := 4 * p - 2 * H;
    assert a + H + H == 4 * p;
  }

  lemma {:induction false} FourTimes(h: nat, m: nat)
    requires m > 0
    ensures (4 * h) * m == 4 * (h * m) && h * m >= h
  {
    assert h * (m - 1) >= 0;
  }

  lemma {:induction false} RemOfMultiple(k: nat, m: nat)
    requires m > 0
    ensures k * m >= 0 && Rem(k * m, m) == 0
  {
    if k == 0 {
    } else {
      RemOfMultiple(k - 1, m);
      assert k * m == (k - 1) * m + m;
    }
  }

  // ---------------------------------------------------------------- reallocation

  /** `t` holds what `s` held, with the allocation `was` replaced by one at `ptr`
      of n bytes, or more by what is too small to split off. */
  ghost predicate Replaced(s: seq<Block>, t: seq<Block>, was: Block, ptr: nat, n: nat) {
    exists b :: Allocs(t) == Allocs(s) - {was} + {b} && b.Payload() == ptr && n <= b.size <= n + H
  }

  lemma {:induction false} ShrinkOk(s: seq<Block>, i: nat, n: nat, lo: nat, hi: nat)
    requires Inv(s, lo, hi) && i < |s| && s[i].inuse && n <= s[i].size && n % 4 == 0
    ensures Inv(Split(s, i, n), lo, hi)
    ensures Replaced(s, Split(s, i, n), s[i], s[i].Payload(), n)
  {
    SplitInv(s, i, n, lo, hi);
    SplitAllocs(s, i, n, lo, hi);
    assert Kept(s[i], n).Payload() == s[i].Payload();
  }

  lemma {:induction false} GrowThenShrinkOk(s: seq<Block>, a: nat, i: nat, n: nat, lo: nat, hi: nat)
    requires Inv(s, lo, hi) && a + 1 < |s| && (i == a || i == a + 1) && n % 4 == 0
    requires s[i].inuse && !s[a + a + 1 - i].inuse && s[a].size + s[a + 1].size + H >= n
    ensures var g := Mark(Absorb(s, a), a, true);
            Inv(Split(g, a, n), lo, hi) && Replaced(s, Split(g, a, n), s[i], s[a].Payload(), n)
  {
    var g := Mark(Absorb(s, a), a, true);
    GrowOk(s, a, i, lo, hi);
    SplitInv(g, a, n, lo, hi);
    SplitAllocs(g, a, n, lo, hi);
    if g[a] in Allocs(s) {
      var x :| 0 <= x < |s| && s[x] == g[a];
      Distinct(s, lo, hi);
    }
    assert Allocs(Split(g, a, n)) == Allocs(s) - {s[i]} + {Kept(g[a], n)};
    assert Kept(g[a], n).Payload() == s[a].Payload();
  }

  lemma {:induction false} FreeCorrect(s: seq<Block>, i: nat, lo: nat, hi: nat)
    requires Inv(s, lo, hi) && i < |s| && s[i].inuse
    ensures IsLive(s, s[i].Payload()) && Free(s, s[i].Payload()) == FreeAt(s, i)
    ensures Inv(FreeAt(s, i), lo, hi)
    ensures Allocs(FreeAt(s, i)) == Allocs(s) - {s[i]}
  {
    FindIs(s, s[i].Payload(), i, lo, hi);
    FreeShape(s, i);
    FreeInv(s, i, lo, hi);
    FreeAllocs(s, i, lo, hi);
  }

  lemma {:induction false} StillThere(s: seq<Block>, t: seq<Block>, i: nat, ptr: nat, n: nat) returns (x: nat)
    requires i < |s| && s[i].inuse && Granted(s, t, ptr, n)
    ensures x < |t| && t[x] == s[i] && s[i].Payload() != ptr
  {
    assert s[i] in Allocs(s) && s[i] in Allocs(t);
    x :| 0 <= x < |t| && t[x] == s[i];
  }

  lemma {:induction false} MoveOk(s: seq<Block>, t: seq<Block>, i: nat, ptr: nat, n: nat, lo: nat, hi: nat)
    requires Inv(t, lo, hi) && i < |s| && s[i].inuse && Granted(s, t, ptr, n)
    ensures IsLive(t, s[i].Payload())
    ensures Replaced(s, Free(t, s[i].Payload()), s[i], ptr, n)
  {
    hide Inv, IsLive, Free, FreeAt;
    var x := StillThere(s, t, i, ptr, n);
    FreeCorrect(t, x, lo, hi);
    var b :| Allocs(t) == Allocs(s) + {b} && b.Payload() == ptr && n <= b.size <= n + H;
    assert Allocs(s) + {b} - {s[i]} == Allocs(s) - {s[i]} + {b};
  }

  lemma {:induction false} MoveInv(s: seq<Block>, t: seq<Block>, i: nat, ptr: nat, n: nat, lo: nat, hi: nat)
    requires Inv(t, lo, hi) && i < |s| && s[i].inuse && Granted(s, t, ptr, n)
    ensures IsLive(t, s[i].Payload())
    ensures Inv(Free(t, s[i].Payload()), lo, hi)
  {
    hide Inv, IsLive, Free, FreeAt, Granted;
    var x := StillThere(s, t, i, ptr, n);
    FreeCorrect(t, x, lo, hi);
  }

  /** The four ways to resize, and the failure of all of them. */
  lemma {:induction false} ReallocCorrect(s: seq<Block>, i: nat, n: nat, lo: nat, hi: nat)
    requires Inv(s, lo, hi) && i < |s| && s[i].inuse && n < WORD && n % 4 == 0
    ensures Inv(ReallocAt(s, i, n).zone, lo, hi)
    ensures ReallocAt(s, i, n).ptr != 0 ==>
              Replaced(s, ReallocAt(s, i, n).zone, s[i], ReallocAt(s, i, n).ptr, n)
  {
    if s[i].size >= n { ShrinkOk(s, i, n, lo, hi); }
    else if GrowsForward(s, i, n) {
      assert Mark(Absorb(s, i), i, true) == Absorb(s, i);
      GrowThenShrinkOk(s, i, i, n, lo, hi);
    } else if Malloc(s, n).ptr != 0 {
      var k := MallocGrants(s, n, lo, hi);
      MoveInv(s, Malloc(s, n).zone, i, Malloc(s, n).ptr, n, lo, hi);
      MoveOk(s, Malloc(s, n).zone, i, Malloc(s, n).ptr, n, lo, hi);
    } else if GrowsBackward(s, i, n) { GrowThenShrinkOk(s, i - 1, i, n, lo, hi); }
  }

  /** A null result changes nothing and means that every way was closed. */
  lemma {:induction false} ReallocFailsIff(s: seq<Block>, i: nat, n: nat, lo: nat, hi: nat)
    requires Inv(s, lo, hi) && i < |s| && s[i].inuse && n < WORD && n % 4 == 0
    ensures ReallocAt(s, i, n).ptr == 0 <==>
              && s[i].size < n
              && (i + 1 < |s| ==> s[i + 1].inuse || s[i].size + H + s[i + 1].size < n)
              && (i > 0 ==> s[i - 1].inuse || s[i - 1].size + H + s[i].size < n)
              && forall j :: 0 <= j < |s| ==> s[j].inuse || s[j].size < n
    ensures ReallocAt(s, i, n).ptr == 0 ==> ReallocAt(s, i, n).zone == s
  {
    MallocFailsIff(s, n, lo, hi);
  }

  /** The allocation stays where it is exactly when it is big enough already or
      the block after it is free and makes it so. */
  lemma {:induction false} ReallocStaysIff(s: seq<Block>, i: nat, n: nat, lo: nat, hi: nat)
    requires Inv(s, lo, hi) && i < |s| && s[i].inuse && n < WORD && n % 4 == 0
    ensures ReallocAt(s, i, n).ptr == s[i].Payload() <==>
              || n <= s[i].size
              || (i + 1 < |s| && !s[i + 1].inuse && n <= s[i].size + H + s[i + 1].size)
  {
    Distinct(s, lo, hi);
    if s[i].size < n && !GrowsForward(s, i, n) && Malloc(s, n).ptr != 0 {
      var k := MallocGrants(s, n, lo, hi);
    }
  }
}

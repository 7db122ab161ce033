/** What every operation of the allocator keeps, and what each one achieves. */
module MallocProofs {
  import opened MallocModel

  // ------------------------------------------------ replacing a run of blocks

  function Splice(s: seq<Block>, i: nat, j: nat, m: seq<Block>): seq<Block>
    requires i <= j <= |s|
  {
    s[..i] + m + s[j..]
  }

  lemma {:induction false} Increasing(s: seq<Block>, lo: nat, hi: nat, i: nat, j: nat)
    requires Tiled(s, lo, hi) && i < j < |s|
    ensures s[i].End() <= s[j].addr
    decreases j - i
  {
    if i + 1 == j {
    } else {
      Increasing(s, lo, hi, i, j - 1);
    }
  }

  lemma {:induction false} Distinct(s: seq<Block>, lo: nat, hi: nat)
    requires Tiled(s, lo, hi)
    ensures forall i, j :: 0 <= i < j < |s| ==> s[i].addr < s[j].addr
    ensures forall i :: 0 <= i < |s| ==> lo <= s[i].addr && s[i].End() <= hi
  {
    forall i, j | 0 <= i < j < |s| ensures s[i].addr < s[j].addr { Increasing(s, lo, hi, i, j); }
    forall i | 0 <= i < |s| ensures lo <= s[i].addr && s[i].End() <= hi {
      if i > 0 { Increasing(s, lo, hi, 0, i); }
      if i < |s| - 1 { Increasing(s, lo, hi, i, |s| - 1); }
    }
  }

  lemma {:induction false} SpliceTiled(s: seq<Block>, i: nat, j: nat, m: seq<Block>, lo: nat, hi: nat)
    requires Tiled(s, lo, hi) && i < j <= |s|
    requires Tiled(m, s[i].addr, s[j - 1].End())
    ensures Tiled(Splice(s, i, j, m), lo, hi)
  {
    var t := Splice(s, i, j, m);
    forall x | 0 < x < |t| ensures t[x - 1].End() == t[x].addr {
      if x < i { assert t[x] == s[x] && t[x - 1] == s[x - 1]; }
      else if x == i { assert t[x] == m[0] && t[x - 1] == s[x - 1]; }
      else if x < i + |m| { assert t[x] == m[x - i] && t[x - 1] == m[x - 1 - i]; }
      else if x == i + |m| { assert t[x - 1] == m[|m| - 1] && t[x] == s[j]; }
      else { assert t[x] == s[x - i - |m| + j] && t[x - 1] == s[x - 1 - i - |m| + j]; }
    }
  }

  lemma {:induction false} SpliceInv(s: seq<Block>, i: nat, j: nat, m: seq<Block>, lo: nat, hi: nat)
    requires Inv(s, lo, hi) && i < j <= |s|
    requires Tiled(m, s[i].addr, s[j - 1].End()) && Aligned(m) && Coalesced(m)
    requires i > 0 ==> s[i - 1].inuse || m[0].inuse
    requires j < |s| ==> s[j].inuse || m[|m| - 1].inuse
    ensures Inv(Splice(s, i, j, m), lo, hi)
  {
    SpliceTiled(s, i, j, m, lo, hi);
    var t := Splice(s, i, j, m);
    forall x | 0 < x < |t| ensures t[x - 1].inuse || t[x].inuse {
      if x < i { assert t[x] == s[x] && t[x - 1] == s[x - 1]; }
      else if x == i { assert t[x] == m[0] && t[x - 1] == s[x - 1]; }
      else if x < i + |m| { assert t[x] == m[x - i] && t[x - 1] == m[x - 1 - i]; }
      else if x == i + |m| { assert t[x - 1] == m[|m| - 1] && t[x] == s[j]; }
      else { assert t[x] == s[x - i - |m| + j] && t[x - 1] == s[x - 1 - i - |m| + j]; }
    }
    forall x | 0 <= x < |t| ensures t[x].addr % 4 == 0 {
      if i <= x < i + |m| { assert t[x] == m[x - i]; }
    }
  }

  /** Replacing blocks i..j changes the allocations by exactly those blocks. */
  lemma {:induction false} SpliceAllocs(s: seq<Block>, i: nat, j: nat, m: seq<Block>, lo: nat, hi: nat)
    requires Tiled(s, lo, hi) && i < j <= |s|
    ensures Allocs(Splice(s, i, j, m)) == Allocs(s) - Allocs(s[i..j]) + Allocs(m)
  {
    Distinct(s, lo, hi);
    var t := Splice(s, i, j, m);
    forall b | b in s[..i] + s[j..] ensures b !in s[i..j] {
      var x :| (0 <= x < i || j <= x < |s|) && s[x] == b;
    }
    forall b ensures b in s <==> b in s[..i] + s[j..] || b in s[i..j] {
      assert s == s[..i] + s[i..j] + s[j..];
    }
    forall b ensures b in t <==> b in s[..i] + s[j..] || b in m {
    }
  }

  // ------------------------------------------------------------ free -> in use

  /** What a free block becomes when n of its bytes are handed out. */
  function Pieces(b: Block, n: nat): (m: seq<Block>)
    requires n <= b.size
    ensures |m| > 0 && m[0].addr == b.addr && m[0].inuse && n <= m[0].size <= n + H
    ensures Allocs(m) == {m[0]}
  {
    var m := if b.size - n > H
             then [Block(b.addr, n, true), Block(b.addr + H + n, b.size - n - H, false)]
             else [b.(inuse := true)];
    assert forall c :: c in Allocs(m) ==> c == m[0];
    assert m[0] in m;
    m
  }

  lemma {:induction false} TakeShape(s: seq<Block>, k: nat, n: nat)
    requires k < |s| && n <= s[k].size && !s[k].inuse
    requires k + 1 < |s| ==> s[k + 1].inuse
    ensures Take(s, k, n) == Splice(s, k, k + 1, Pieces(s[k], n))
  {
  }

  lemma {:induction false} PiecesFit(b: Block, n: nat)
    requires n <= b.size && n % 4 == 0 && b.addr % 4 == 0
    ensures Tiled(Pieces(b, n), b.addr, b.End())
    ensures Aligned(Pieces(b, n)) && Coalesced(Pieces(b, n))
  {
  }

  lemma {:induction false} TakeInv(s: seq<Block>, k: nat, n: nat, lo: nat, hi: nat)
    requires Inv(s, lo, hi) && k < |s| && n <= s[k].size && !s[k].inuse && n % 4 == 0
    ensures k > 0 ==> s[k - 1].inuse
    ensures k + 1 < |s| ==> s[k + 1].inuse
    ensures Inv(Splice(s, k, k + 1, Pieces(s[k], n)), lo, hi)
  {
    assert k + 1 < |s| ==> s[k].inuse || s[k + 1].inuse;
    PiecesFit(s[k], n);
    SpliceInv(s, k, k + 1, Pieces(s[k], n), lo, hi);
  }

  lemma {:induction false} TakeAllocs(s: seq<Block>, k: nat, n: nat, lo: nat, hi: nat)
    requires Tiled(s, lo, hi) && k < |s| && n <= s[k].size && !s[k].inuse
    ensures Allocs(Splice(s, k, k + 1, Pieces(s[k], n))) == Allocs(s) + {Pieces(s[k], n)[0]}
    ensures forall b :: b in Allocs(s) ==> b.addr != s[k].addr
  {
    SpliceAllocs(s, k, k + 1, Pieces(s[k], n), lo, hi);
    assert Allocs(s[k..k + 1]) == {};
    Distinct(s, lo, hi);
  }

  // ------------------------------------------------------------ in use -> free

  function First(s: seq<Block>, i: nat): nat
    requires i < |s|
  {
    if i > 0 && !s[i - 1].inuse then i - 1 else i
  }

  function Past(s: seq<Block>, i: nat): nat
    requires i < |s|
  {
    if i + 1 < |s| && !s[i + 1].inuse then i + 2 else i + 1
  }

  /** The single free block that replaces a freed block and its free neighbours. */
  function Merged(s: seq<Block>, i: nat): Block
    requires i < |s|
  {
    var a, b := First(s, i), Past(s, i);
    Block(s[a].addr,
          (if a < i then s[a].size + H else 0) + s[i].size + (if b > i + 1 then s[i + 1].size + H else 0),
          false)
  }

  lemma {:induction false} AbsorbBetween(a: seq<Block>, x: Block, y: Block, c: seq<Block>)
    ensures Absorb(a + [x, y] + c, |a|) == a + [x.(size := x.size + y.size + H)] + c
  {
    var s := a + [x, y] + c;
    assert s[..|a|] == a && s[|a|] == x && s[|a| + 1] == y && s[|a| + 2..] == c;
  }

  lemma {:induction false} FreeShapeForward(s: seq<Block>, i: nat)
    requires i < |s| && First(s, i) == i
    ensures FreeAt(s, i) == Splice(s, i, Past(s, i), [Merged(s, i)])
  {
    var m := Mark(s, i, false);
    assert m[..i] == s[..i] && m[i + 1..] == s[i + 1..];
    if i + 1 < |s| { assert m[i + 2..] == s[i + 2..]; }
  }

  /** A freed block after it was merged into the free block before it. */
  function MergedBack(s: seq<Block>, i: nat): Block
    requires 0 < i < |s|
  {
    s[i - 1].(size := s[i - 1].size + s[i].size + H)
  }

  lemma {:induction false} AbsorbFreed(s: seq<Block>, i: nat)
    requires 0 < i < |s|
    ensures Absorb(Mark(s, i, false), i - 1) == s[..i - 1] + [MergedBack(s, i)] + s[i + 1..]
  {
    var y := s[i].(inuse := false);
    assert Mark(s, i, false) == s[..i - 1] + [s[i - 1], y] + s[i + 1..];
    AbsorbBetween(s[..i - 1], s[i - 1], y, s[i + 1..]);
  }

  /** What is left to do once the freed block is part of the one before it. */
  lemma {:induction false} FreeBackward(s: seq<Block>, i: nat)
    requires i < |s| && First(s, i) == i - 1
    ensures var l := s[..i - 1] + [MergedBack(s, i)] + s[i + 1..];
            && (Past(s, i) == i + 1 ==> FreeAt(s, i) == l)
            && (Past(s, i) == i + 2 ==> FreeAt(s, i) == Absorb(l, i - 1))
  {
    var l := s[..i - 1] + [MergedBack(s, i)] + s[i + 1..];
    AbsorbFreed(s, i);
    assert i < |l| ==> l[i] == s[i + 1];
    hide Absorb;
  }

  lemma {:induction false} AbsorbNextFreed(s: seq<Block>, i: nat)
    requires 0 < i < |s| && i + 1 < |s|
    ensures Absorb(s[..i - 1] + [MergedBack(s, i)] + s[i + 1..], i - 1) ==
            s[..i - 1] + [MergedBack(s, i).(size := MergedBack(s, i).size + s[i + 1].size + H)] + s[i + 2..]
  {
    var a, x, c := s[..i - 1], MergedBack(s, i), s[i + 2..];
    assert a + [x] + s[i + 1..] == a + [x, s[i + 1]] + c;
    hide Absorb, MergedBack;
    AbsorbBetween(a, x, s[i + 1], c);
  }

  lemma {:induction false} FreeShapeBackward(s: seq<Block>, i: nat)
    requires i < |s| && First(s, i) == i - 1
    ensures FreeAt(s, i) == Splice(s, i - 1, Past(s, i), [Merged(s, i)])
  {
    FreeBackward(s, i);
    FreedIs(s, i);
    if Past(s, i) == i + 2 { AbsorbNextFreed(s, i); }
    hide FreeAt, Absorb, Merged, MergedBack;
  }

  lemma {:induction false} FreedIs(s: seq<Block>, i: nat)
    requires i < |s| && First(s, i) == i - 1
    ensures Past(s, i) == i + 1 ==> Merged(s, i) == MergedBack(s, i)
    ensures Past(s, i) == i + 2 ==>
              Merged(s, i) == MergedBack(s, i).(size := MergedBack(s, i).size + s[i + 1].size + H)
  {
  }

  lemma {:induction false} FreeShape(s: seq<Block>, i: nat)
    requires i < |s|
    ensures FreeAt(s, i) == Splice(s, First(s, i), Past(s, i), [Merged(s, i)])
  {
    hide FreeAt, Splice, Merged;
    if First(s, i) == i { FreeShapeForward(s, i); } else { FreeShapeBackward(s, i); }
  }

  lemma {:induction false} FreeInv(s: seq<Block>, i: nat, lo: nat, hi: nat)
    requires Inv(s, lo, hi) && i < |s| && s[i].inuse
    ensures Inv(Splice(s, First(s, i), Past(s, i), [Merged(s, i)]), lo, hi)
  {
    var a, b := First(s, i), Past(s, i);
    assert a < i ==> s[a].End() == s[i].addr;
    assert b > i + 1 ==> s[i].End() == s[i + 1].addr;
    assert a > 0 ==> s[a - 1].inuse;
    assert b < |s| ==> s[b - 1].inuse || s[b].inuse;
    SpliceInv(s, a, b, [Merged(s, i)], lo, hi);
  }

  lemma {:induction false} FreeAllocs(s: seq<Block>, i: nat, lo: nat, hi: nat)
    requires Tiled(s, lo, hi) && i < |s| && s[i].inuse
    ensures Allocs(Splice(s, First(s, i), Past(s, i), [Merged(s, i)])) == Allocs(s) - {s[i]}
  {
    var a, b := First(s, i), Past(s, i);
    SpliceAllocs(s, a, b, [Merged(s, i)], lo, hi);
    assert s[i] == s[a..b][i - a];
    assert Allocs(s[a..b]) == {s[i]};
  }

  lemma {:induction false} SpliceBack(s: seq<Block>, k: nat, m: seq<Block>)
    requires k < |s|
    ensures Splice(Splice(s, k, k + 1, m), k, k + |m|, [s[k]]) == s
  {
    assert Splice(s, k, k + 1, m)[k + |m|..] == s[k + 1..];
  }

  lemma {:induction false} PiecesMerge(s: seq<Block>, k: nat, n: nat)
    requires k < |s| && n <= s[k].size && !s[k].inuse
    requires k > 0 ==> s[k - 1].inuse
    requires k + 1 < |s| ==> s[k + 1].inuse
    ensures var m := Pieces(s[k], n);
            var t := Splice(s, k, k + 1, m);
            First(t, k) == k && Past(t, k) == k + |m| && Merged(t, k) == s[k]
  {
    var m := Pieces(s[k], n);
    var t := Splice(s, k, k + 1, m);
    assert t[k] == m[0];
    if k > 0 { assert t[k - 1] == s[k - 1]; }
    if |m| > 1 { assert t[k + 1] == m[1]; }
    else if k + 1 < |t| { assert t[k + 1] == s[k + 1]; }
  }

  lemma {:induction false} FreeUndoesTake(s: seq<Block>, k: nat, n: nat)
    requires k < |s| && n <= s[k].size && !s[k].inuse
    requires k > 0 ==> s[k - 1].inuse
    requires k + 1 < |s| ==> s[k + 1].inuse
    ensures FreeAt(Take(s, k, n), k) == s
  {
    TakeShape(s, k, n);
    PiecesMerge(s, k, n);
    FreeShape(Take(s, k, n), k);
    SpliceBack(s, k, Pieces(s[k], n));
  }

  // -------------------------------------------- a free gap before the allocation

  function Rest(b: Block, g: nat): Block
    requires g + H <= b.size
  {
    Block(b.addr + H + g, b.size - g - H, false)
  }

  function GapPieces(b: Block, g: nat, n: nat): seq<Block>
    requires g + H + n <= b.size
  {
    [Block(b.addr, g, false)] + Pieces(Rest(b, g), n)
  }

  lemma {:induction false} CarveShape(s: seq<Block>, j: nat, g: nat, n: nat)
    requires j < |s| && !s[j].inuse && g + H + n <= s[j].size
    requires j + 1 < |s| ==> s[j + 1].inuse
    ensures Carve(s, j, g)[j + 1] == Rest(s[j], g)
    ensures Take(Carve(s, j, g), j + 1, n) == Splice(s, j, j + 1, GapPieces(s[j], g, n))
  {
    var c := Carve(s, j, g);
    assert c[j + 1] == Rest(s[j], g);
    assert j + 2 < |c| ==> c[j + 2] == s[j + 1];
    TakeShape(c, j + 1, n);
    assert c[..j + 1] == s[..j] + [Block(s[j].addr, g, false)];
    assert c[j + 2..] == s[j + 1..];
  }

  lemma {:induction false} GapInv(s: seq<Block>, j: nat, g: nat, n: nat, lo: nat, hi: nat)
    requires Inv(s, lo, hi) && j < |s| && !s[j].inuse && g + H + n <= s[j].size && n % 4 == 0 && g % 4 == 0
    ensures j > 0 ==> s[j - 1].inuse
    ensures j + 1 < |s| ==> s[j + 1].inuse
    ensures Inv(Splice(s, j, j + 1, GapPieces(s[j], g, n)), lo, hi)
  {
    var m, r := GapPieces(s[j], g, n), Rest(s[j], g);
    assert j + 1 < |s| ==> s[j].inuse || s[j + 1].inuse;
    PiecesFit(r, n);
    assert forall x :: 0 < x < |m| ==> m[x] == Pieces(r, n)[x - 1];
    SpliceInv(s, j, j + 1, m, lo, hi);
  }

  lemma {:induction false} GapAllocs(s: seq<Block>, j: nat, g: nat, n: nat, lo: nat, hi: nat)
    requires Tiled(s, lo, hi) && j < |s| && !s[j].inuse && g + H + n <= s[j].size
    ensures Allocs(Splice(s, j, j + 1, GapPieces(s[j], g, n))) == Allocs(s) + {Pieces(Rest(s[j], g), n)[0]}
    ensures forall b :: b in Allocs(s) ==> b.addr != s[j].addr + H + g
  {
    var m, r := GapPieces(s[j], g, n), Rest(s[j], g);
    SpliceAllocs(s, j, j + 1, m, lo, hi);
    assert Allocs(s[j..j + 1]) == {};
    assert Allocs(m) == Allocs(Pieces(r, n));
    forall b | b in Allocs(s) ensures b.addr != s[j].addr + H + g {
      var i :| 0 <= i < |s| && s[i] == b;
      if i < j { Increasing(s, lo, hi, i, j); }
      if j < i { Increasing(s, lo, hi, j, i); }
    }
  }

  lemma {:induction false} GapHead(s: seq<Block>, j: nat, g: nat, n: nat)
    requires j < |s| && g + H + n <= s[j].size
    ensures var t := Splice(s, j, j + 1, GapPieces(s[j], g, n));
            && |t| > j + 1 && t[j] == Block(s[j].addr, g, false)
            && t[j + 1] == Pieces(Rest(s[j], g), n)[0]
  {
  }

  lemma {:induction false} FreeUndoesCarve(s: seq<Block>, j: nat, g: nat, n: nat)
    requires j < |s| && !s[j].inuse && g + H + n <= s[j].size
    requires j + 1 < |s| ==> s[j + 1].inuse
    ensures FreeAt(Splice(s, j, j + 1, GapPieces(s[j], g, n)), j + 1) == s
  {
    var m := GapPieces(s[j], g, n);
    var t := Splice(s, j, j + 1, m);
    FreeShape(t, j + 1);
    GapMerges(s, j, g, n);
    SpliceBack(s, j, m);
  }

  lemma {:induction false} GapMerges(s: seq<Block>, j: nat, g: nat, n: nat)
    requires j < |s| && !s[j].inuse && g + H + n <= s[j].size
    requires j + 1 < |s| ==> s[j + 1].inuse
    ensures var m := GapPieces(s[j], g, n);
            var t := Splice(s, j, j + 1, m);
            First(t, j + 1) == j && Past(t, j + 1) == j + |m| && Merged(t, j + 1) == s[j]
  {
    var m := GapPieces(s[j], g, n);
    var t := Splice(s, j, j + 1, m);
    assert t[j] == m[0] && t[j + 1] == m[1];
    if |m| > 2 { assert t[j + 2] == m[2]; }
    else if j + 2 < |t| { assert t[j + 2] == s[j + 1]; }
  }

  // -------------------------------------------------- resizing an allocation

  /** What is left of an allocation when only n bytes of it are needed. */
  function Kept(b: Block, n: nat): (k: Block)
    requires n <= b.size
    ensures k.addr == b.addr && k.inuse == b.inuse && n <= k.size <= b.size && k.size <= n + H
  {
    if b.size - n > H then b.(size := n) else b
  }

  function Tail(s: seq<Block>, i: nat, n: nat): Block
    requires i < |s| && n + H <= s[i].size
  {
    Block(s[i].addr + H + n,
          s[i].size - n - H + if Past(s, i) > i + 1 then s[i + 1].size + H else 0,
          false)
  }

  lemma {:induction false} SplitShape(s: seq<Block>, i: nat, n: nat)
    requires i < |s| && n + H < s[i].size
    ensures Split(s, i, n) == Splice(s, i, Past(s, i), [s[i].(size := n), Tail(s, i, n)])
  {
    if Past(s, i) == i + 1 { SplitShapePlain(s, i, n); } else { SplitShapeMerging(s, i, n); }
  }

  lemma {:induction false} SplitShapePlain(s: seq<Block>, i: nat, n: nat)
    requires i < |s| && n + H < s[i].size && Past(s, i) == i + 1
    ensures Split(s, i, n) == Splice(s, i, i + 1, [s[i].(size := n), Tail(s, i, n)])
  {
    var c := Carve(s, i, n);
    assert i + 2 < |c| ==> c[i + 2] == s[i + 1];
  }

  lemma {:induction false} SplitShapeMerging(s: seq<Block>, i: nat, n: nat)
    requires i < |s| && n + H < s[i].size && Past(s, i) == i + 2
    ensures Split(s, i, n) == Splice(s, i, i + 2, [s[i].(size := n), Tail(s, i, n)])
  {
    var c, a := Carve(s, i, n), s[..i] + [s[i].(size := n)];
    assert c == a + [Rest(s[i], n), s[i + 1]] + s[i + 2..];
    AbsorbBetween(a, Rest(s[i], n), s[i + 1], s[i + 2..]);
  }

  lemma {:induction false} TailTiled(s: seq<Block>, i: nat, n: nat, lo: nat, hi: nat)
    requires Tiled(s, lo, hi) && i < |s| && n + H < s[i].size
    ensures Tiled([s[i].(size := n), Tail(s, i, n)], s[i].addr, s[Past(s, i) - 1].End())
  {
    if Past(s, i) > i + 1 { assert s[i].End() == s[i + 1].addr; }
  }

  lemma {:induction false} TailInv(s: seq<Block>, i: nat, n: nat, lo: nat, hi: nat)
    requires Inv(s, lo, hi) && i < |s| && s[i].inuse && n + H < s[i].size && n % 4 == 0
    ensures Inv(Splice(s, i, Past(s, i), [s[i].(size := n), Tail(s, i, n)]), lo, hi)
  {
    hide Tiled, Splice, Aligned, Coalesced, Tail;
    TailTiled(s, i, n, lo, hi);
    TailParts(s, i, n);
    SpliceInv(s, i, Past(s, i), [s[i].(size := n), Tail(s, i, n)], lo, hi);
  }

  lemma {:induction false} TailParts(s: seq<Block>, i: nat, n: nat)
    requires Aligned(s) && Coalesced(s) && i < |s| && s[i].inuse && n + H < s[i].size && n % 4 == 0
    ensures Aligned([s[i].(size := n), Tail(s, i, n)]) && Coalesced([s[i].(size := n), Tail(s, i, n)])
    ensures Past(s, i) < |s| ==> s[Past(s, i)].inuse
  {
    Behind(s, i);
    assert s[i].addr % 4 == 0;
  }

  lemma {:induction false} Behind(s: seq<Block>, i: nat)
    requires Coalesced(s) && i < |s|
    ensures Past(s, i) < |s| ==> s[Past(s, i)].inuse
  {
    var b := Past(s, i);
    assert b < |s| ==> s[b - 1].inuse || s[b].inuse;
  }

  lemma {:induction false} SplitInv(s: seq<Block>, i: nat, n: nat, lo: nat, hi: nat)
    requires Inv(s, lo, hi) && i < |s| && s[i].inuse && n <= s[i].size && n % 4 == 0
    ensures Inv(Split(s, i, n), lo, hi)
  {
    if s[i].size - n > H {
      SplitShape(s, i, n);
      TailInv(s, i, n, lo, hi);
    }
  }

  lemma {:induction false} SplitAllocs(s: seq<Block>, i: nat, n: nat, lo: nat, hi: nat)
    requires Tiled(s, lo, hi) && i < |s| && s[i].inuse && n <= s[i].size
    ensures Allocs(Split(s, i, n)) == Allocs(s) - {s[i]} + {Kept(s[i], n)}
  {
    if s[i].size - n > H {
      var b, m := Past(s, i), [s[i].(size := n), Tail(s, i, n)];
      SplitShape(s, i, n);
      SpliceAllocs(s, i, b, m, lo, hi);
      assert s[i] == s[i..b][0];
      assert Allocs(s[i..b]) == {s[i]};
      assert m[0] in m;
      assert Allocs(m) == {m[0]};
    }
  }

  /** Block i, in use, swallows a free neighbour: blocks a and a + 1 become one. */
  lemma {:induction false} GrowOk(s: seq<Block>, a: nat, i: nat, lo: nat, hi: nat)
    requires Inv(s, lo, hi) && a + 1 < |s| && (i == a || i == a + 1)
    requires s[i].inuse && !s[a + a + 1 - i].inuse
    ensures var g := Mark(Absorb(s, a), a, true);
            && Inv(g, lo, hi) && g[a] == Block(s[a].addr, s[a].size + s[a + 1].size + H, true)
            && Allocs(g) == Allocs(s) - {s[i]} + {g[a]}
  {
    var m := [Block(s[a].addr, s[a].size + s[a + 1].size + H, true)];
    assert Mark(Absorb(s, a), a, true) == Splice(s, a, a + 2, m);
    assert s[a].End() == s[a + 1].addr;
    SpliceInv(s, a, a + 2, m, lo, hi);
    SpliceAllocs(s, a, a + 2, m, lo, hi);
    assert s[i] == s[a..a + 2][i - a];
    assert Allocs(s[a..a + 2]) == {s[i]};
    assert m[0] in m;
    assert Allocs(m) == {m[0]};
  }
}

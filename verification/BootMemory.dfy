/** Boot-time physical memory: the multiboot memory map is enumerated page by page,
    usable pages become free, and the pages of boot modules are taken again. */
module BootMemory {
  import opened PageFrames

  datatype Entry = Entry(available: bool, base: nat, length: nat)

  /** A memory map; the entry behind the last one has size zero and is not available. */
  type Map = seq<Entry>

  // ---------------------------------------------------------------- the meaning

  /** The addresses of the whole pages in a region. */
  function Pages(base: nat, length: nat): seq<nat>
    decreases length
  {
    if length < PAGE then [] else [base] + Pages(base + PAGE, length - PAGE)
  }

  function PagesFrom(mmap: Map, e: nat): seq<nat>
    decreases |mmap| - e
  {
    if e >= |mmap| then []
    else (if mmap[e].available then Pages(mmap[e].base, mmap[e].length) else []) + PagesFrom(mmap, e + 1)
  }

  /** The entry that a scan from entry e stops at, or -1. */
  function NextValid(mmap: Map, e: nat): int
    decreases |mmap| - e
  {
    if e + 1 >= |mmap| then -1
    else if mmap[e + 1].available then e + 1
    else NextValid(mmap, e + 1)
  }

  /** The maps that the enumerator can walk: the first entry is available, later
      available entries hold at least one page, and the last available entry is a
      whole number of pages. */
  ghost predicate Walkable(mmap: Map) {
    && |mmap| > 0 && mmap[0].available
    && (forall e :: 0 < e < |mmap| && mmap[e].available ==> mmap[e].length >= PAGE)
    && (forall e :: 0 <= e < |mmap| && mmap[e].available && NextValid(mmap, e) < 0 ==> mmap[e].length % PAGE == 0)
  }

  lemma {:induction false} NextValidPages(mmap: Map, e: nat)
    requires e < |mmap|
    ensures var j := NextValid(mmap, e);
            && (j < 0 ==> PagesFrom(mmap, e + 1) == [])
            && (j >= 0 ==> e < j < |mmap| && mmap[j].available && PagesFrom(mmap, e + 1) == PagesFrom(mmap, j))
    decreases |mmap| - e
  {
    if e + 1 >= |mmap| || mmap[e + 1].available {
    } else {
      NextValidPages(mmap, e + 1);
    }
  }

  /** Subtraction of unsigned addresses. */
  function Minus(a: nat, b: nat): nat
    requires a < ADDRESSES && b < ADDRESSES
  {
    if a >= b then a - b else a + ADDRESSES - b
  }

  function Plus(a: nat, b: nat): (r: nat)
    requires a < ADDRESSES && b < ADDRESSES
    ensures r < ADDRESSES
  {
    if a + b < ADDRESSES then a + b else a + b - ADDRESSES
  }

  /** Every entry lies in the address space. */
  ghost predicate InMemory(mmap: Map) {
    forall e :: 0 <= e < |mmap| ==>
      mmap[e].length < ADDRESSES && mmap[e].base < ADDRESSES && mmap[e].base + mmap[e].length <= ADDRESSES
  }

  /** The walk from entry e with so many bytes left reaches the end of the map
      without a failed assertion and without handing out a page that is not whole. */
  predicate WalksCleanly(mmap: Map, e: nat, remaining: nat)
    requires e < |mmap|
    decreases |mmap| - e, remaining
  {
    if remaining >= PAGE then WalksCleanly(mmap, e, remaining - PAGE)
    else
      var j := NextValid(mmap, e);
      if j < 0 then remaining == 0
      else
        NextValidPages(mmap, e);
        mmap[j].length >= PAGE && WalksCleanly(mmap, j, mmap[j].length)
  }

  ghost predicate LaterOk(mmap: Map, e: nat) {
    && (forall k :: e < k < |mmap| && mmap[k].available ==> mmap[k].length >= PAGE)
    && (forall k :: e < k < |mmap| && mmap[k].available && NextValid(mmap, k) < 0 ==> mmap[k].length % PAGE == 0)
  }

  lemma {:induction false} WalksFrom(mmap: Map, e: nat, remaining: nat)
    requires e < |mmap|
    ensures WalksCleanly(mmap, e, remaining) <==> LaterOk(mmap, e) && (NextValid(mmap, e) < 0 ==> remaining % PAGE == 0)
    decreases |mmap| - e, remaining
  {
    if remaining >= PAGE { WalksFrom(mmap, e, remaining - PAGE); }
    else {
      SkippedEntries(mmap, e);
      var j := NextValid(mmap, e);
      if j >= 0 { WalksFrom(mmap, j, mmap[j].length); }
    }
  }

  /** A scan skips unavailable entries only. */
  lemma {:induction false} SkippedEntries(mmap: Map, e: nat)
    requires e < |mmap|
    ensures var j := NextValid(mmap, e);
            && (j < 0 ==> forall k :: e < k < |mmap| ==> !mmap[k].available)
            && (j >= 0 ==> e < j < |mmap| && mmap[j].available && forall k :: e < k < j ==> !mmap[k].available)
    decreases |mmap| - e
  {
    if e + 1 >= |mmap| || mmap[e + 1].available {
    } else {
      SkippedEntries(mmap, e + 1);
    }
  }

  /** The walk of a map whose first entry is available is clean exactly when the
      map is walkable. */
  lemma {:induction false} WalksCleanlyIff(mmap: Map)
    requires |mmap| > 0 && mmap[0].available
    ensures WalksCleanly(mmap, 0, mmap[0].length) <==> Walkable(mmap)
  {
    WalksFrom(mmap, 0, mmap[0].length);
  }

  /** A last entry with one byte too many, and a later entry of less than a page. */
  lemma {:induction false} UncleanWalks()
    ensures !WalksCleanly([Entry(true, 0, PAGE + 1)], 0, PAGE + 1)
    ensures !WalksCleanly([Entry(true, 0, PAGE), Entry(true, PAGE, 1)], 0, PAGE)
  {
    var m, w := [Entry(true, 0, PAGE + 1)], [Entry(true, 0, PAGE), Entry(true, PAGE, 1)];
    WalksCleanlyIff(m);
    WalksCleanlyIff(w);
    assert NextValid(m, 0) < 0 && m[0].length % PAGE == 1;
    assert w[1].available && w[1].length < PAGE;
  }

  class PageEnumerator {
    const mmap: Map
    var entry: nat
    var curr: nat
    var remaining: nat

    ghost predicate Valid()
      reads this
    {
      && Walkable(mmap) && entry < |mmap| && mmap[entry].available
      && InMemory(mmap) && curr < ADDRESSES && remaining < ADDRESSES
      && (remaining > 0 ==> curr + remaining <= ADDRESSES)
      && (NextValid(mmap, entry) < 0 ==> remaining % PAGE == 0)
    }

    /** The pages still to come. */
    ghost function Rest(): seq<nat>
      reads this
    {
      Pages(curr, remaining) + PagesFrom(mmap, entry + 1)
    }

    constructor (mmap: Map)
      requires Walkable(mmap) && InMemory(mmap)
      ensures Valid() && this.mmap == mmap && Rest() == PagesFrom(mmap, 0)
    {
      this.mmap := mmap;
      entry := 0;
      remaining := mmap[0].length;
      curr := mmap[0].base;
    }

    method GetNextValidEntry(from: nat) returns (r: int)
      requires from < |mmap|
      ensures r == NextValid(mmap, from)
    {
      var e := from;
      while e < |mmap|
        invariant from <= e <= |mmap|
        invariant e < |mmap| ==> NextValid(mmap, e) == NextValid(mmap, from)
        invariant e == |mmap| ==> NextValid(mmap, from) == -1
      {
        e := e + 1;
        if e < |mmap| && mmap[e].available {
          return e;
        }
      }
      return -1;
    }

    method HasNext() returns (r: bool)
      requires Valid()
      ensures r <==> Rest() != []
    {
      NextValidPages(mmap, entry);
      if remaining > 0 {
        r := true;
      } else {
        var next := GetNextValidEntry(entry);
        r := next >= 0;
      }
    }

    method ScanToNextValidEntry()
      requires Valid() && remaining < PAGE && Rest() != []
      modifies this
      ensures Valid() && Rest() == old(Rest()) && remaining >= PAGE
    {
      NextValidPages(mmap, entry);
      var next := GetNextValidEntry(entry);
      entry := next;
      remaining := mmap[entry].length;
      curr := mmap[entry].base;
    }

    method GetNext() returns (page: nat)
      requires Valid() && Rest() != []
      modifies this
      ensures Valid() && [page] + Rest() == old(Rest()) && page < ADDRESSES
    {
      if remaining < PAGE {
        ScanToNextValidEntry();
      }
      hide Walkable, InMemory, NextValid;
      page := curr;
      remaining := Minus(remaining, PAGE);
      curr := Plus(curr, PAGE);
      PagesStep(page, remaining);
    }
  }

  lemma {:induction false} PagesStep(base: nat, length: nat)
    requires base < ADDRESSES && base + length + PAGE <= ADDRESSES
    ensures Pages(base, length + PAGE) == [base] + Pages(Plus(base, PAGE), length)
  {
    assert length >= PAGE ==> Plus(base, PAGE) == base + PAGE;
    assert length < PAGE ==> Pages(base + PAGE, length) == [] == Pages(Plus(base, PAGE), length);
  }

  // -------------------------------------------------------------- configuration

  const REGION: nat := 32 * 1024 * 1024

  datatype Module = Module(start: nat, end: nat)

  /** The kernel maps physical address p at `start + p`, modulo the address space;
      the page is usable between the break and the end of the kernel region. */
  predicate InRegion(page: nat, start: nat, brk: nat)
    requires page < ADDRESSES && start < ADDRESSES
  {
    var logical := Plus(page, start);
    logical >= brk && logical < start + REGION
  }

  /** The page is usable exactly when its logical address, without wrap or after it,
      is at or above the break and less than 32 MB above the start of the kernel; with
      the break inside the region, exactly the pages from there to 32 MB are. */
  lemma {:induction false} RegionIs(page: nat, start: nat, brk: nat)
    requires page < ADDRESSES && start + REGION <= ADDRESSES
    ensures REGION == 0x200_0000
    ensures InRegion(page, start, brk) <==>
              || brk <= start + page < start + 0x200_0000
              || (start + page >= ADDRESSES && brk <= start + page - ADDRESSES)
    ensures start <= brk ==> (InRegion(page, start, brk) <==> brk - start <= page < 0x200_0000)
  {
  }

  ghost predicate AllAddresses(pages: seq<nat>) {
    forall i :: 0 <= i < |pages| ==> pages[i] < ADDRESSES
  }

  ghost function ReleaseAll(used: Frames, pages: seq<nat>, start: nat, brk: nat): (r: Frames)
    requires start < ADDRESSES && AllAddresses(pages)
    ensures |r| == |used|
  {
    if pages == [] then used
    else
      var last := pages[|pages| - 1];
      var u := ReleaseAll(used, pages[..|pages| - 1], start, brk);
      if InRegion(last, start, brk) && last / PAGE < |used| then u[last / PAGE := false] else u
  }

  lemma {:induction false} ReleaseNone(used: Frames, start: nat, brk: nat)
    requires start < ADDRESSES
    ensures ReleaseAll(used, [], start, brk) == used
  {
  }

  lemma {:induction false} ReleaseOne(used: Frames, pages: seq<nat>, page: nat, start: nat, brk: nat)
    requires start < ADDRESSES && AllAddresses(pages) && page < ADDRESSES
    ensures AllAddresses(pages + [page])
    ensures ReleaseAll(used, pages + [page], start, brk) ==
            var u := ReleaseAll(used, pages, start, brk);
            if InRegion(page, start, brk) && page / PAGE < |used| then u[page / PAGE := false] else u
  {
    assert (pages + [page])[..|pages|] == pages;
  }

  lemma {:induction false} ReleaseAllMeans(used: Frames, pages: seq<nat>, start: nat, brk: nat, f: nat)
    requires start < ADDRESSES && AllAddresses(pages) && f < |used|
    ensures ReleaseAll(used, pages, start, brk)[f] <==>
              used[f] && !exists p :: p in pages && InRegion(p, start, brk) && p / PAGE == f
  {
    if pages == [] {
    } else {
      var last, front := pages[|pages| - 1], pages[..|pages| - 1];
      ReleaseAllMeans(used, front, start, brk, f);
      assert pages == front + [last];
      if exists p :: p in pages && InRegion(p, start, brk) && p / PAGE == f {
        var p :| p in pages && InRegion(p, start, brk) && p / PAGE == f;
        assert p in front || p == last;
      }
    }
  }

  /** The frames that the module loop takes. */
  predicate Takes(m: Module, f: nat) {
    m.start < m.end && m.start / PAGE <= f < m.start / PAGE + (m.end - m.start + PAGE - 1) / PAGE
  }

  function AddressAt(m: Module, k: nat): nat { m.start + PAGE * k }

  /** The loop steps through the module in pages and takes the frame of each address. */
  lemma {:induction false} TakesMeans(m: Module, f: nat)
    ensures Takes(m, f) <==> exists k: nat :: AddressAt(m, k) < m.end && AddressAt(m, k) / PAGE == f
  {
    if Takes(m, f) {
      var k := f - m.start / PAGE;
      assert AddressAt(m, k) < m.end && AddressAt(m, k) / PAGE == f;
    }
  }

  /** Every frame that a module touches is taken exactly when the module does not
      end earlier in its page than it starts. */
  lemma {:induction false} ModuleFullyTakenIff(m: Module)
    requires m.start < m.end
    ensures (forall f: nat :: m.start / PAGE <= f <= (m.end - 1) / PAGE ==> Takes(m, f)) <==>
            m.start % PAGE <= (m.end - 1) % PAGE
  {
    var last := (m.end - 1) / PAGE;
    assert Takes(m, last) <==> m.start % PAGE <= (m.end - 1) % PAGE;
  }

  /** A module of two bytes across a page boundary keeps only its first frame. */
  lemma {:induction false} StraddlingModuleLosesAFrame()
    ensures Takes(Module(PAGE - 1, PAGE + 1), 0) && !Takes(Module(PAGE - 1, PAGE + 1), 1)
  {
  }

  /** A module that starts on a page takes every frame that starts inside it. */
  lemma {:induction false} AlignedModuleTakes(m: Module, f: nat)
    requires m.start % PAGE == 0
    ensures Takes(m, f) <==> m.start <= PAGE * f < m.end
  {
  }

  /** The enumeration, which starts at the base of the entry, hands out p. */
  predicate PageOf(e: Entry, p: nat) {
    e.available && e.base <= p && p + PAGE <= e.base + e.length && (p - e.base) % PAGE == 0
  }

  lemma {:induction false} PagesMean(base: nat, length: nat, p: nat)
    ensures p in Pages(base, length) <==> base <= p && p + PAGE <= base + length && (p - base) % PAGE == 0
    decreases length
  {
    if length < PAGE {
    } else {
      PagesMean(base + PAGE, length - PAGE, p);
    }
  }

  ghost predicate SomePage(mmap: Map, e: nat, p: nat) {
    exists k :: e <= k < |mmap| && PageOf(mmap[k], p)
  }

  /** The enumerated pages are those of the available entries. */
  lemma {:induction false} PagesFromMean(mmap: Map, e: nat, p: nat)
    ensures p in PagesFrom(mmap, e) <==> SomePage(mmap, e, p)
    decreases |mmap| - e
  {
    if e >= |mmap| {
    } else {
      hide Pages, SomePage;
      PagesFromMean(mmap, e + 1, p);
      PagesMean(mmap[e].base, mmap[e].length, p);
      SomePageStep(mmap, e, p);
    }
  }

  lemma {:induction false} SomePageStep(mmap: Map, e: nat, p: nat)
    requires e < |mmap|
    ensures SomePage(mmap, e, p) <==> PageOf(mmap[e], p) || SomePage(mmap, e + 1, p)
  {
    hide PageOf;
  }

  lemma {:induction false} PagesAreAddresses(mmap: Map)
    requires InMemory(mmap)
    ensures AllAddresses(PagesFrom(mmap, 0))
  {
    var pages := PagesFrom(mmap, 0);
    forall i | 0 <= i < |pages| ensures pages[i] < ADDRESSES {
      PagesFromMean(mmap, 0, pages[i]);
    }
  }

  /** Some page of an available entry, inside the kernel region, starts in frame f. */
  ghost predicate Released(mmap: Map, f: nat, start: nat, brk: nat)
    requires start < ADDRESSES
  {
    exists p: nat :: p < ADDRESSES && SomePage(mmap, 0, p) && InRegion(p, start, brk) && p / PAGE == f
  }

  lemma {:induction false} ReleaseIsReleased(mmap: Map, used: Frames, start: nat, brk: nat, f: nat)
    requires start < ADDRESSES && AllAddresses(PagesFrom(mmap, 0)) && f < |used| && used[f]
    ensures ReleaseAll(used, PagesFrom(mmap, 0), start, brk)[f] <==> !Released(mmap, f, start, brk)
  {
    var pages := PagesFrom(mmap, 0);
    ReleaseAllMeans(used, pages, start, brk, f);
    hide ReleaseAll, InRegion, SomePage, PagesFrom;
    forall p: nat ensures p in pages <==> SomePage(mmap, 0, p) { PagesFromMean(mmap, 0, p); }
  }

  ghost predicate AlignedBases(mmap: Map) {
    forall e :: 0 <= e < |mmap| ==> mmap[e].base % PAGE == 0
  }

  /** Frame f lies wholly inside an available entry, and inside the kernel region. */
  ghost predicate Usable(mmap: Map, f: nat, start: nat, brk: nat)
    requires PAGE * f < ADDRESSES && start < ADDRESSES
  {
    && (exists k :: 0 <= k < |mmap| && mmap[k].available
                    && mmap[k].base <= PAGE * f && PAGE * f + PAGE <= mmap[k].base + mmap[k].length)
    && InRegion(PAGE * f, start, brk)
  }

  lemma {:induction false} AlignedPage(e: Entry, p: nat, f: nat)
    requires e.base % PAGE == 0 && p / PAGE == f
    ensures PageOf(e, p) <==> p == PAGE * f && e.available && e.base <= p && p + PAGE <= e.base + e.length
  {
  }

  lemma {:induction false} ReleasedIsUsable(mmap: Map, f: nat, start: nat, brk: nat)
    requires AlignedBases(mmap) && start < ADDRESSES && PAGE * f < ADDRESSES
    ensures Released(mmap, f, start, brk) <==> Usable(mmap, f, start, brk)
  {
    hide InRegion, PageOf;
    if Released(mmap, f, start, brk) {
      var p: nat :| p < ADDRESSES && SomePage(mmap, 0, p) && InRegion(p, start, brk) && p / PAGE == f;
      var k :| 0 <= k < |mmap| && PageOf(mmap[k], p);
      AlignedPage(mmap[k], p, f);
    }
    if Usable(mmap, f, start, brk) {
      var k :| 0 <= k < |mmap| && mmap[k].available
               && mmap[k].base <= PAGE * f && PAGE * f + PAGE <= mmap[k].base + mmap[k].length;
      assert (PAGE * f) / PAGE == f;
      AlignedPage(mmap[k], PAGE * f, f);
      assert SomePage(mmap, 0, PAGE * f);
    }
  }

  /** The pages of an entry start in frames of that entry exactly when its base is
      aligned: otherwise the first one starts in a frame that reaches below it. */
  lemma {:induction false} ReleasesOwnFramesIff(e: Entry)
    requires e.available && e.length >= PAGE
    ensures (forall p: nat :: PageOf(e, p) ==> e.base <= PAGE * (p / PAGE)) <==> e.base % PAGE == 0
  {
    assert PageOf(e, e.base);
  }

  /** An entry at 4095 of two pages makes frame 0 free, of which it has one byte,
      wherever the kernel is, when the break is still at its start. */
  lemma {:induction false} UnalignedEntryReleasesTooMuch(start: nat)
    requires start + REGION <= ADDRESSES
    ensures Released([Entry(true, 4095, 2 * PAGE)], 0, start, start)
  {
    var mmap := [Entry(true, 4095, 2 * PAGE)];
    assert PageOf(mmap[0], 4095);
    assert SomePage(mmap, 0, 4095) && InRegion(4095, start, start);
  }

  /** Every page that will be released has a bit in the bitmap. */
  ghost predicate FitsFrames(pages: seq<nat>, start: nat, brk: nat)
    requires AllAddresses(pages) && start < ADDRESSES
  {
    forall i :: 0 <= i < |pages| && InRegion(pages[i], start, brk) ==> pages[i] < REGION
  }

  /** No page wraps to a logical address at or above the break. */
  ghost predicate NoWrappedPage(mmap: Map, start: nat, brk: nat) {
    forall p: nat :: SomePage(mmap, 0, p) && p + start >= ADDRESSES ==> p + start - ADDRESSES < brk
  }

  /** Every page that will be released has a bit exactly when none wraps into the
      region; that is always so when the break is not below the kernel. */
  lemma {:induction false} PagesFitIff(mmap: Map, start: nat, brk: nat)
    requires InMemory(mmap) && AllAddresses(PagesFrom(mmap, 0)) && start + REGION <= ADDRESSES
    ensures FitsFrames(PagesFrom(mmap, 0), start, brk) <==> NoWrappedPage(mmap, start, brk)
    ensures start <= brk ==> NoWrappedPage(mmap, start, brk)
  {
    hide PagesFrom, SomePage;
    var pages := PagesFrom(mmap, 0);
    forall p: nat ensures p in pages <==> SomePage(mmap, 0, p) { PagesFromMean(mmap, 0, p); }
    if FitsFrames(pages, start, brk) {
      forall p: nat | SomePage(mmap, 0, p) && p + start >= ADDRESSES ensures p + start - ADDRESSES < brk {
        var i :| 0 <= i < |pages| && pages[i] == p;
      }
    }
    if NoWrappedPage(mmap, start, brk) {
      forall i | 0 <= i < |pages| && InRegion(pages[i], start, brk) ensures pages[i] < REGION {
        assert pages[i] in pages;
        assert SomePage(mmap, 0, pages[i]);
      }
    }
    forall p: nat | SomePage(mmap, 0, p) ensures p < ADDRESSES {
      var i :| 0 <= i < |pages| && pages[i] == p;
    }
  }

  /** One call of the function that the enumeration applies to every page. */
  method ReleasePage(frames: PageFrameAllocator, page: nat, start: nat, brk: nat)
    requires frames.Valid() && page < ADDRESSES && start < ADDRESSES
    requires InRegion(page, start, brk) ==> page / PAGE < |frames.Used()|
    modifies frames, frames.bitmap.storage
    ensures frames.Valid()
    ensures frames.Used() == if InRegion(page, start, brk) then old(frames.Used())[page / PAGE := false]
                             else old(frames.Used())
  {
    if InRegion(page, start, brk) {
      frames.Deallocate(page);
    }
  }

  method MarkUnavailableMemory(frames: PageFrameAllocator, pages: PageEnumerator, start: nat, brk: nat)
    requires frames.Valid() && PAGE * |frames.Used()| == REGION && start + REGION <= ADDRESSES
    requires pages.Valid() && AllAddresses(pages.Rest()) && FitsFrames(pages.Rest(), start, brk)
    requires pages as object != frames
    modifies frames, frames.bitmap.storage, pages
    ensures frames.Valid() && frames.Used() == ReleaseAll(old(frames.Used()), old(pages.Rest()), start, brk)
  {
    hide Walkable, InMemory, Pages, PagesFrom, FreeCount, NextValid, ReleaseAll, InRegion;
    ghost var all, n := pages.Rest(), 0;
    ReleaseNone(frames.Used(), start, brk);
    var more := pages.HasNext();
    while more
      invariant frames.Valid() && pages.Valid() && |frames.Used()| == |old(frames.Used())|
      invariant n <= |all| && pages.Rest() == all[n..] && (more <==> n < |all|)
      invariant frames.Used() == ReleaseAll(old(frames.Used()), all[..n], start, brk)
      decreases |all| - n
    {
      var page := pages.GetNext();
      assert page == all[n] && pages.Rest() == all[n..][1..];
      ReleasePage(frames, page, start, brk);
      assert all[..n + 1] == all[..n] + [page];
      ReleaseOne(old(frames.Used()), all[..n], page, start, brk);
      n := n + 1;
      more := pages.HasNext();
    }
    assert all[..n] == all;
  }

  /** Every frame that the module takes has a bit in the bitmap. */
  ghost predicate HasBits(m: Module, frames: nat) {
    forall f: nat :: Takes(m, f) ==> f < frames
  }

  /** A module that ends inside the bitmap has; one that starts inside a page may even
      end a little behind it. */
  lemma {:induction false} HasBitsIff(m: Module, frames: nat)
    requires m.start < m.end
    ensures HasBits(m, frames) <==> m.end - m.start % PAGE <= PAGE * frames
  {
    var last := m.start / PAGE + (m.end - m.start + PAGE - 1) / PAGE - 1;
    assert Takes(m, last);
  }

  method MarkModule(frames: PageFrameAllocator, m: Module)
    requires frames.Valid() && HasBits(m, |frames.Used()|)
    modifies frames, frames.bitmap.storage
    ensures frames.Valid() && |frames.Used()| == |old(frames.Used())|
    ensures forall f :: 0 <= f < |frames.Used()| ==> frames.Used()[f] == (old(frames.Used())[f] || Takes(m, f))
  {
    var frame := m.start;
    ghost var k := 0;
    while frame < m.end
      invariant frames.Valid() && |frames.Used()| == |old(frames.Used())|
      invariant frame == m.start + PAGE * k && 0 <= k
      invariant k <= (if m.start < m.end then (m.end - m.start + PAGE - 1) / PAGE else 0)
      invariant forall f :: 0 <= f < |frames.Used()| ==>
                  frames.Used()[f] == (old(frames.Used())[f] || m.start / PAGE <= f < m.start / PAGE + k)
      decreases m.end - frame
    {
      assert frame / PAGE == m.start / PAGE + k;
      assert Takes(m, frame / PAGE);
      var _ := frames.AllocateSpecific(frame);
      frame := frame + PAGE;
      k := k + 1;
    }
  }

  /** No module takes frame f. */
  ghost predicate Untaken(modules: seq<Module>, f: nat) {
    forall i :: 0 <= i < |modules| ==> !Takes(modules[i], f)
  }

  method MarkModulesMemory(frames: PageFrameAllocator, modules: seq<Module>)
    requires frames.Valid()
    requires forall i :: 0 <= i < |modules| ==> HasBits(modules[i], |frames.Used()|)
    modifies frames, frames.bitmap.storage
    ensures frames.Valid() && |frames.Used()| == |old(frames.Used())|
    ensures forall f :: 0 <= f < |frames.Used()| ==>
              frames.Used()[f] == (old(frames.Used())[f] || !Untaken(modules, f))
  {
    hide Takes, FreeCount;
    for n := 0 to |modules|
      invariant frames.Valid() && |frames.Used()| == |old(frames.Used())|
      invariant forall f :: 0 <= f < |frames.Used()| ==>
                  frames.Used()[f] == (old(frames.Used())[f] || !Untaken(modules[..n], f))
    {
      MarkModule(frames, modules[n]);
      assert modules[..n + 1] == modules[..n] + [modules[n]];
      forall f: nat ensures Untaken(modules[..n + 1], f) <==> Untaken(modules[..n], f) && !Takes(modules[n], f) {
        OneMoreModule(modules[..n], modules[n], f);
      }
    }
    assert modules[..|modules|] == modules;
  }

  lemma {:induction false} OneMoreModule(modules: seq<Module>, m: Module, f: nat)
    ensures Untaken(modules + [m], f) <==> Untaken(modules, f) && !Takes(m, f)
  {
    hide Takes;
    if Untaken(modules + [m], f) {
      assert (modules + [m])[|modules|] == m;
      forall i | 0 <= i < |modules| ensures !Takes(modules[i], f) { assert (modules + [m])[i] == modules[i]; }
    }
  }

  /** After configuration a frame is free exactly when a page of an available entry
      starts in it, that page maps between the break and the end of the kernel region,
      and no module takes the frame. With page-aligned entries, such a frame lies
      wholly inside its entry. */
  method Configure(frames: PageFrameAllocator, mmap: Map, modules: seq<Module>, start: nat, brk: nat)
    requires frames.Valid() && PAGE * |frames.Used()| == REGION && start + REGION <= ADDRESSES
    requires start <= brk || NoWrappedPage(mmap, start, brk)
    requires Walkable(mmap) && InMemory(mmap)
    requires forall i :: 0 <= i < |modules| ==> HasBits(modules[i], |frames.Used()|)
    modifies frames, frames.bitmap.storage
    ensures frames.Valid() && PAGE * |frames.Used()| == REGION
    ensures forall f :: 0 <= f < |frames.Used()| ==>
              (!frames.Used()[f] <==> Released(mmap, f, start, brk) && Untaken(modules, f))
    ensures AlignedBases(mmap) ==>
              forall f :: 0 <= f < |frames.Used()| ==>
                (!frames.Used()[f] <==> Usable(mmap, f, start, brk) && Untaken(modules, f))
  {
    hide Walkable, InMemory, AlignedBases, ReleaseAll, Untaken, FreeCount, Released, Usable;
    frames.MarkAllAsUsed();
    var pages := new PageEnumerator(mmap);
    PagesAreAddresses(mmap);
    PagesFitIff(mmap, start, brk);
    ghost var none := frames.Used();
    MarkUnavailableMemory(frames, pages, start, brk);
    forall f | 0 <= f < |frames.Used()| ensures frames.Used()[f] <==> !Released(mmap, f, start, brk) {
      ReleaseIsReleased(mmap, none, start, brk, f);
    }
    MarkModulesMemory(frames, modules);
    if AlignedBases(mmap) {
      forall f | 0 <= f < |frames.Used()| ensures Released(mmap, f, start, brk) <==> Usable(mmap, f, start, brk) {
        ReleasedIsUsable(mmap, f, start, brk);
      }
    }
  }
}

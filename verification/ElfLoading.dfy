/** Loading the segments of an ELF image: the memory after all program headers. */
module ElfLoading {

  const PT_LOAD: nat := 1

  datatype ProgramHeader = ProgramHeader(kind: nat, offset: nat, vaddr: nat, filesz: nat, memsz: nat) {
    /** The bytes that loading this header writes. */
    predicate Writes(x: int) {
      kind == PT_LOAD && (vaddr <= x < vaddr + memsz || vaddr <= x < vaddr + filesz)
    }
    predicate InFile(image: seq<int>) { kind == PT_LOAD ==> offset + filesz <= |image| }
  }

  /** What a segment puts at address x: its file bytes, then zeros. */
  function SegmentByte(h: ProgramHeader, image: seq<int>, x: int): int
    requires h.InFile(image) && h.Writes(x)
  {
    if x < h.vaddr + h.filesz then image[h.offset + x - h.vaddr] else 0
  }

  ghost predicate AllInFile(hs: seq<ProgramHeader>, image: seq<int>) {
    forall i :: 0 <= i < |hs| ==> hs[i].InFile(image)
  }

  /** Memory after the headers in order: the last segment that covers an address wins. */
  function Loaded(hs: seq<ProgramHeader>, image: seq<int>, mem: int -> int, x: int): int
    requires AllInFile(hs, image)
  {
    if hs == [] then mem(x)
    else
      var last := hs[|hs| - 1];
      if last.Writes(x) then SegmentByte(last, image, x) else Loaded(hs[..|hs| - 1], image, mem, x)
  }

  class ElfLoader {
    const image: seq<int>
    var mem: int -> int

    constructor (image: seq<int>, mem: int -> int)
      ensures this.image == image && this.mem == mem
    {
      this.image, this.mem := image, mem;
    }

    method Memset(dst: nat, value: int, n: nat)
      modifies this
      ensures forall x :: mem(x) == if dst <= x < dst + n then value else old(mem)(x)
    {
      for i := 0 to n
        invariant forall x :: mem(x) == if dst <= x < dst + i then value else old(mem)(x)
      {
        var m, a := mem, dst + i;
        mem := x => if x == a then value else m(x);
      }
    }

    method CopyFromImage(dst: nat, offset: nat, n: nat)
      requires offset + n <= |image|
      modifies this
      ensures forall x :: mem(x) == if dst <= x < dst + n then image[offset + x - dst] else old(mem)(x)
    {
      for i := 0 to n
        invariant forall x :: mem(x) == if dst <= x < dst + i then image[offset + x - dst] else old(mem)(x)
      {
        var m, a, b := mem, dst + i, image[offset + i];
        mem := x => if x == a then b else m(x);
      }
    }

    /** Clears the segment, then copies its part of the file over it. */
    method ActionLoad(h: ProgramHeader)
      requires h.kind == PT_LOAD && h.InFile(image)
      modifies this
      ensures forall x :: mem(x) == if h.Writes(x) then SegmentByte(h, image, x) else old(mem)(x)
    {
      Memset(h.vaddr, 0, h.memsz);
      CopyFromImage(h.vaddr, h.offset, h.filesz);
    }

    method Load(hs: seq<ProgramHeader>)
      requires AllInFile(hs, image)
      modifies this
      ensures forall x :: mem(x) == Loaded(hs, image, old(mem), x)
    {
      for i := 0 to |hs|
        invariant forall x :: mem(x) == Loaded(hs[..i], image, old(mem), x)
      {
        assert hs[..i + 1][..i] == hs[..i];
        if hs[i].kind == PT_LOAD {
          ActionLoad(hs[i]);
        }
      }
      assert hs[..|hs|] == hs;
    }
  }

  /** No address belongs to two different loadable segments. */
  ghost predicate Disjoint(hs: seq<ProgramHeader>) {
    forall i, j, x: int :: 0 <= i < j < |hs| && hs[i].Writes(x) ==> !hs[j].Writes(x)
  }

  /** The address space splits: bytes of a segment and untouched bytes. */
  lemma {:induction false} SegmentHolds(hs: seq<ProgramHeader>, image: seq<int>, mem: int -> int, i: nat, x: int)
    requires AllInFile(hs, image) && i < |hs| && hs[i].Writes(x)
    requires forall j :: i < j < |hs| ==> !hs[j].Writes(x)
    ensures Loaded(hs, image, mem, x) == SegmentByte(hs[i], image, x)
    decreases |hs|
  {
    if i == |hs| - 1 {
    } else {
      SegmentHolds(hs[..|hs| - 1], image, mem, i, x);
    }
  }

  lemma {:induction false} OtherMemoryKept(hs: seq<ProgramHeader>, image: seq<int>, mem: int -> int, x: int)
    requires AllInFile(hs, image) && forall j :: 0 <= j < |hs| ==> !hs[j].Writes(x)
    ensures Loaded(hs, image, mem, x) == mem(x)
    decreases |hs|
  {
    if hs == [] {
    } else {
      OtherMemoryKept(hs[..|hs| - 1], image, mem, x);
    }
  }

  /** With disjoint segments whose file part fits, each segment holds its file bytes
      followed by zeros, and all other memory is as before. */
  lemma {:induction false} DisjointSegmentsLoad(hs: seq<ProgramHeader>, image: seq<int>, mem: int -> int, x: int)
    requires AllInFile(hs, image) && Disjoint(hs)
    requires forall i :: 0 <= i < |hs| && hs[i].kind == PT_LOAD ==> hs[i].filesz <= hs[i].memsz
    ensures forall i :: 0 <= i < |hs| && hs[i].kind == PT_LOAD && hs[i].vaddr <= x < hs[i].vaddr + hs[i].memsz ==>
              Loaded(hs, image, mem, x) ==
              if x < hs[i].vaddr + hs[i].filesz then image[hs[i].offset + x - hs[i].vaddr] else 0
    ensures (forall i :: 0 <= i < |hs| && hs[i].kind == PT_LOAD ==> !(hs[i].vaddr <= x < hs[i].vaddr + hs[i].memsz)) ==>
              Loaded(hs, image, mem, x) == mem(x)
  {
    if i :| 0 <= i < |hs| && hs[i].Writes(x) {
      SegmentHolds(hs, image, mem, i, x);
    } else {
      OtherMemoryKept(hs, image, mem, x);
    }
  }

  /** The order of disjoint segments does not matter. */
  lemma {:induction false} OrderIsIrrelevant(hs: seq<ProgramHeader>, gs: seq<ProgramHeader>, image: seq<int>,
                                             mem: int -> int, x: int)
    requires AllInFile(hs, image) && AllInFile(gs, image) && Disjoint(hs) && Disjoint(gs)
    requires forall h :: h in hs <==> h in gs
    ensures Loaded(hs, image, mem, x) == Loaded(gs, image, mem, x)
  {
    if i :| 0 <= i < |hs| && hs[i].Writes(x) {
      assert hs[i] in gs;
      var j :| 0 <= j < |gs| && gs[j] == hs[i];
      SegmentHolds(hs, image, mem, i, x);
      SegmentHolds(gs, image, mem, j, x);
    } else {
      forall j | 0 <= j < |gs| ensures !gs[j].Writes(x) { assert gs[j] in hs; }
      OtherMemoryKept(hs, image, mem, x);
      OtherMemoryKept(gs, image, mem, x);
    }
  }
}

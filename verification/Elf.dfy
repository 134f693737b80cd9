/** Address translation in an ELF image. */
module Elf {
  import opened Bits
  import opened Ranges

  const PT_LOAD: nat := 1

  datatype ProgramHeader = ProgramHeader(kind: nat, offset: DWord, vaddr: DWord, filesize: DWord)

  predicate HoldsVa(h: ProgramHeader, addr: DWord) {
    h.kind == PT_LOAD && Inside(h.vaddr, h.filesize, addr)
  }

  predicate HoldsPtr(h: ProgramHeader, buf: DWord, ptr: DWord) {
    h.kind == PT_LOAD && Inside((buf + h.offset) % WRAP, h.filesize, ptr)
  }

  /** A null pointer, or address zero, stands for "not found". */
  function VaToPtr(hs: seq<ProgramHeader>, buf: DWord, addr: DWord): DWord {
    if hs == [] then 0
    else if HoldsVa(hs[0], addr) then (buf + hs[0].offset + (addr - hs[0].vaddr)) % WRAP
    else VaToPtr(hs[1..], buf, addr)
  }

  function PtrToVa(hs: seq<ProgramHeader>, buf: DWord, ptr: DWord): DWord {
    if hs == [] then 0
    else if HoldsPtr(hs[0], buf, ptr) then (hs[0].vaddr + (ptr - (buf + hs[0].offset) % WRAP)) % WRAP
    else PtrToVa(hs[1..], buf, ptr)
  }

  method ElfVaToPtr(hs: seq<ProgramHeader>, buf: DWord, addr: DWord) returns (ptr: DWord)
    ensures ptr == VaToPtr(hs, buf, addr)
  {
    for i := 0 to |hs|
      invariant VaToPtr(hs, buf, addr) == VaToPtr(hs[i..], buf, addr)
    {
      var h := hs[i];
      if h.kind == PT_LOAD {
        if h.vaddr <= addr && (h.vaddr + h.filesize) % WRAP > addr {
          return (buf + h.offset + (addr - h.vaddr)) % WRAP;
        }
      }
      assert hs[i..][1..] == hs[i + 1..];
    }
    return 0;
  }

  method ElfPtrToVa(hs: seq<ProgramHeader>, buf: DWord, ptr: DWord) returns (addr: DWord)
    ensures addr == PtrToVa(hs, buf, ptr)
  {
    for i := 0 to |hs|
      invariant PtrToVa(hs, buf, ptr) == PtrToVa(hs[i..], buf, ptr)
    {
      var h := hs[i];
      if h.kind == PT_LOAD {
        var start := (buf + h.offset) % WRAP;
        if start <= ptr && (start + h.filesize) % WRAP > ptr {
          return (h.vaddr + (ptr - start)) % WRAP;
        }
      }
      assert hs[i..][1..] == hs[i + 1..];
    }
    return 0;
  }

  ghost predicate HeaderOk(h: ProgramHeader, buf: DWord) {
    h.vaddr + h.filesize < WRAP && buf + h.offset + h.filesize < WRAP
  }

  ghost predicate HeadersApart(g: ProgramHeader, h: ProgramHeader) {
    Apart(g.vaddr, g.filesize, h.vaddr, h.filesize) && Apart(g.offset, g.filesize, h.offset, h.filesize)
  }

  ghost predicate WellFormed(hs: seq<ProgramHeader>, buf: DWord) {
    && (forall i :: 0 <= i < |hs| && hs[i].kind == PT_LOAD ==> HeaderOk(hs[i], buf))
    && (forall i, j :: 0 <= i < j < |hs| && hs[i].kind == hs[j].kind == PT_LOAD ==> HeadersApart(hs[i], hs[j]))
  }

  /** A loaded part of the file has the address; 1 is the type of loadable segments. */
  predicate Loads(h: ProgramHeader, addr: DWord) {
    h.kind == 1 && h.vaddr <= addr < h.vaddr + h.filesize
  }

  /** The pointer is into a loaded part of the file read at buf. */
  predicate Loaded(h: ProgramHeader, buf: DWord, ptr: DWord) {
    h.kind == 1 && buf + h.offset <= ptr < buf + h.offset + h.filesize
  }

  /** Files whose loaded parts are next to each other are of this kind; headers of other types may say anything. */
  lemma WellFormedSample(buf: DWord, other: ProgramHeader)
    requires buf < 0x8000_0000_0000_0000 && other.kind != 1
    ensures WellFormed([ProgramHeader(1, 0, 0x40_0000, 0x1000), other, ProgramHeader(1, 0x1000, 0x40_1000, 0x800)], buf)
  {
  }

  /** The tests that the code makes are for these intervals. */
  lemma HoldsPlain(h: ProgramHeader, buf: DWord, a: DWord)
    requires h.kind == PT_LOAD ==> HeaderOk(h, buf)
    ensures HoldsVa(h, a) <==> Loads(h, a)
    ensures HoldsPtr(h, buf, a) <==> Loaded(h, buf, a)
  {
    hide Inside;
    if h.kind == PT_LOAD {
      InsidePlain(h.vaddr, h.filesize, a);
      InsidePlain(buf + h.offset, h.filesize, a);
    }
  }

  lemma {:induction false} VaFound(hs: seq<ProgramHeader>, buf: DWord, addr: DWord, k: nat)
    requires WellFormed(hs, buf) && k < |hs| && HoldsVa(hs[k], addr)
    ensures VaToPtr(hs, buf, addr) == buf + hs[k].offset + (addr - hs[k].vaddr)
  {
    hide Inside;
    InsidePlain(hs[k].vaddr, hs[k].filesize, addr);
    if k > 0 {
      if hs[0].kind == PT_LOAD {
        assert HeaderOk(hs[0], buf) && HeadersApart(hs[0], hs[k]);
        InsidePlain(hs[0].vaddr, hs[0].filesize, addr);
      }
      TailOk(hs, buf);
      VaFound(hs[1..], buf, addr, k - 1);
    }
  }

  lemma PtrHead(hs: seq<ProgramHeader>, buf: DWord, ptr: DWord)
    requires hs != [] && HeaderOk(hs[0], buf) && HoldsPtr(hs[0], buf, ptr)
    ensures PtrToVa(hs, buf, ptr) == hs[0].vaddr + (ptr - (buf + hs[0].offset))
  {
    hide Inside;
    InsidePlain(buf + hs[0].offset, hs[0].filesize, ptr);
  }

  lemma PtrSkip(hs: seq<ProgramHeader>, buf: DWord, ptr: DWord)
    requires hs != [] && !HoldsPtr(hs[0], buf, ptr)
    ensures PtrToVa(hs, buf, ptr) == PtrToVa(hs[1..], buf, ptr)
  {
  }

  lemma HeadersMiss(buf: DWord, ptr: DWord, g: ProgramHeader, h: ProgramHeader)
    requires HeaderOk(g, buf) && HeaderOk(h, buf) && HeadersApart(g, h) && HoldsPtr(h, buf, ptr)
    ensures !HoldsPtr(g, buf, ptr)
  {
    hide Inside;
    InsidePlain(buf + g.offset, g.filesize, ptr);
    InsidePlain(buf + h.offset, h.filesize, ptr);
  }

  lemma {:induction false} PtrFound(hs: seq<ProgramHeader>, buf: DWord, ptr: DWord, k: nat)
    requires WellFormed(hs, buf) && k < |hs| && HoldsPtr(hs[k], buf, ptr)
    ensures PtrToVa(hs, buf, ptr) == hs[k].vaddr + (ptr - (buf + hs[k].offset))
  {
    hide Inside, PtrToVa;
    if k == 0 {
      PtrHead(hs, buf, ptr);
    } else {
      if hs[0].kind == PT_LOAD {
        HeadersMiss(buf, ptr, hs[0], hs[k]);
      }
      PtrSkip(hs, buf, ptr);
      TailOk(hs, buf);
      PtrFound(hs[1..], buf, ptr, k - 1);
    }
  }

  lemma TailOk(hs: seq<ProgramHeader>, buf: DWord)
    requires WellFormed(hs, buf) && hs != []
    ensures WellFormed(hs[1..], buf)
  {
    hide HeaderOk, HeadersApart;
  }

  /** Every file-backed address has a pointer, and the pointer leads back to it. */
  lemma VaPtrVa(hs: seq<ProgramHeader>, buf: DWord, addr: DWord, k: nat)
    requires WellFormed(hs, buf) && k < |hs| && Loads(hs[k], addr)
    ensures VaToPtr(hs, buf, addr) == buf + hs[k].offset + (addr - hs[k].vaddr)
    ensures Loaded(hs[k], buf, VaToPtr(hs, buf, addr))
    ensures PtrToVa(hs, buf, VaToPtr(hs, buf, addr)) == addr
  {
    hide Inside, HoldsVa, HoldsPtr;
    HoldsPlain(hs[k], buf, addr);
    VaFound(hs, buf, addr, k);
    HoldsPlain(hs[k], buf, VaToPtr(hs, buf, addr));
    PtrFound(hs, buf, VaToPtr(hs, buf, addr), k);
  }

  /** Every pointer into a loaded part of the file has an address, and the address leads back to it. */
  lemma PtrVaPtr(hs: seq<ProgramHeader>, buf: DWord, ptr: DWord, k: nat)
    requires WellFormed(hs, buf) && k < |hs| && Loaded(hs[k], buf, ptr)
    ensures PtrToVa(hs, buf, ptr) == hs[k].vaddr + (ptr - (buf + hs[k].offset))
    ensures Loads(hs[k], PtrToVa(hs, buf, ptr))
    ensures VaToPtr(hs, buf, PtrToVa(hs, buf, ptr)) == ptr
  {
    hide Inside, HoldsVa, HoldsPtr;
    HoldsPlain(hs[k], buf, ptr);
    PtrFound(hs, buf, ptr, k);
    HoldsPlain(hs[k], buf, PtrToVa(hs, buf, ptr));
    VaFound(hs, buf, PtrToVa(hs, buf, ptr), k);
  }

  /** Everything else is not found. */
  lemma {:induction false} NothingHolds(hs: seq<ProgramHeader>, buf: DWord, a: DWord)
    requires WellFormed(hs, buf)
    ensures (forall k :: 0 <= k < |hs| ==> !Loads(hs[k], a)) ==> VaToPtr(hs, buf, a) == 0
    ensures (forall k :: 0 <= k < |hs| ==> !Loaded(hs[k], buf, a)) ==> PtrToVa(hs, buf, a) == 0
  {
    hide Inside, HoldsVa, HoldsPtr, Loads, Loaded;
    if hs != [] {
      TailOk(hs, buf);
      HoldsPlain(hs[0], buf, a);
      NothingHolds(hs[1..], buf, a);
    }
  }
}

/** Following branches and address pairs through the image: pf_follow_branch and pf_follow_xref. */
module Follow {
  import opened Bits
  import opened Machine
  import opened Numbers
  import opened Slots
  import opened Templates
  import opened Wrappers
  import Elf
  import MachO

  /** pf_signextend_64: shift left, then back with the sign. */
  function SignExtend64(v: DWord, bits: nat): int
    requires bits <= 64
  {
    var p := Pow2(64 - bits);
    AsSigned(v * p % WRAP, WRAP) / p
  }

  /** pf_signextend_32 */
  function SignExtend32(w: Word, bits: nat): int
    requires bits <= 32
  {
    var p := Pow2(32 - bits);
    AsSigned(Value(w, 32) * p % 0x1_0000_0000, 0x1_0000_0000) / p
  }

  lemma SignExtend26(w: Word)
    ensures SignExtend32(w, 26) == SignedValue(w, 26)
  {
    hide Value;
    Pow2At25();
    assert Pow2(6) == 64;
    var h := ValueUpper(w, 26, 32);
    var low := Value(w, 26);
    assert Value(w, 32) * 64 == low * 64 + h * 0x1_0000_0000;
    assert Value(w, 32) * 64 % 0x1_0000_0000 == low * 64;
  }

  /** pf_adrp_offset, for a word that is an ADRP */
  function AdrpOffset(w: Word): int {
    assert Pow2(21) == 0x20_0000 by {
      Pow2At21();
    }
    SignExtend64(4096 * Value(PageBits(w), 21), 33)
  }

  lemma Pow2At21()
    ensures Pow2(21) == 0x20_0000 && Pow2(31) == 0x8000_0000 && Pow2(12) == 0x1000
  {
    Pow2At25();
    assert Pow2(22) == 2 * Pow2(21);
    assert Pow2(23) == 0x80_0000;
    assert Pow2(29) == 0x2000_0000;
    assert Pow2(9) == 512;
  }

  /** Sign extension from bit 33 agrees with the architecture's reading of the 21-bit page count. */
  lemma AdrpOffsetIsArchitectural(w: Word)
    ensures AdrpOffset(w) == 4096 * SignedValue(PageBits(w), 21)
  {
    hide Value, PageBits, Pow2;
    Pow2At21();
    ShiftBack(Value(PageBits(w), 21));
  }

  lemma ShiftBack(v: nat)
    requires v < 0x20_0000
    ensures AsSigned(4096 * v * 0x8000_0000 % WRAP, WRAP) / 0x8000_0000 == 4096 * AsSigned(v, 0x20_0000)
  {
    assert 4096 * v * 0x8000_0000 % WRAP == v * 0x800_0000_0000;
  }

  datatype Binary = MachOFile(macho: MachO.Image) | ElfFile(headers: seq<Elf.ProgramHeader>) | UnknownFile

  /** None where the code follows a null section pointer. */
  function PtrToVa(b: Binary, buf: DWord, ptr: DWord): Option<DWord> {
    match b
    case MachOFile(m) => MachO.PtrToVa(m, buf, ptr)
    case ElfFile(hs) => Some(Elf.PtrToVa(hs, buf, ptr))
    case UnknownFile => Some(0)
  }

  function VaToPtr(b: Binary, buf: DWord, addr: DWord): Option<DWord> {
    match b
    case MachOFile(m) => MachO.VaToPtr(m, buf, addr)
    case ElfFile(hs) => Some(Elf.VaToPtr(hs, buf, addr))
    case UnknownFile => Some(0)
  }

  predicate IsAdrp(w: Word) {
    MaskMatch(w, 0x9000_0000, 0x9f00_0000)
  }

  predicate IsAddImm(w: Word) {
    MaskMatch(w, 0x9100_0000, 0xff80_0000)
  }

  /** pf_follow_xref at word i of an image read at buf; a null result is Some(0). */
  function FollowXref(b: Binary, buf: DWord, img: seq<Word>, i: nat): Option<DWord> {
    if i + 1 >= |img| then None
    else if !IsAdrp(img[i]) then Some(0)
    else if !IsAddImm(img[i + 1]) then Some(0)
    else
      match PtrToVa(b, buf, (buf + 4 * i) % WRAP)
      case None => None
      case Some(va) =>
        VaToPtr(b, buf, (va - va % 4096 + AdrpOffset(img[i]) + Value(Imm12(img[i + 1]), 12)) % WRAP)
  }

  // The encoder: Arm Architecture Reference Manual, DDI 0487, section C6.2, ADRP and ADD (immediate).

  function AdrpWord(pages: Word, rd: Word): Word {
    0x9000_0000 | ((pages & 0x3) << 29) | ((pages >> 2) << 5) | (rd & 0x1f)
  }

  function AddWord(imm: Word, rn: Word, rd: Word): Word {
    0x9100_0000 | (imm << 10) | ((rn & 0x1f) << 5) | (rd & 0x1f)
  }

  lemma AdrpWordFields(pages: Word, rd: Word)
    requires Within(pages, 0x1f_ffff)
    ensures PageBits(AdrpWord(pages, rd)) == pages && IsAdrp(AdrpWord(pages, rd))
  {
  }

  lemma AddWordFields(imm: Word, rn: Word, rd: Word)
    requires Within(imm, 0xfff)
    ensures Masked(Imm12(AddWord(imm, rn, rd)), 0xfff) == imm && IsAddImm(AddWord(imm, rn, rd))
  {
  }

  /** The registers are where the architecture has them. */
  lemma RegisterFields(pages: Word, imm: Word, rn: Word, rd: Word)
    requires Within(pages, 0x1f_ffff) && Within(imm, 0xfff)
    ensures AdrpWord(pages, rd) & 0x1f == rd & 0x1f && AddWord(imm, rn, rd) & 0x1f == rd & 0x1f
    ensures (AddWord(imm, rn, rd) >> 5) & 0x1f == rn & 0x1f
  {
  }

  function PageOf(va: DWord): int {
    va - va % 4096
  }

  lemma AdrpRoundTrip(pages: int, rd: Word)
    requires -0x10_0000 <= pages < 0x10_0000
    ensures IsAdrp(AdrpWord(Pattern(pages, 21), rd))
    ensures AdrpOffset(AdrpWord(Pattern(pages, 21), rd)) == 4096 * pages
  {
    hide AdrpWord, PageBits, IsAdrp, Pattern, Value, Within, Ones, AdrpOffset, Pow2;
    Ones21();
    Pow2At21();
    PatternWithin(pages, 21);
    AdrpWordFields(Pattern(pages, 21), rd);
    AdrpOffsetIsArchitectural(AdrpWord(Pattern(pages, 21), rd));
    ValueOfPattern(pages, 21);
  }

  lemma Ones21()
    ensures Ones(21) == 0x1f_ffff && Ones(12) == 0xfff
  {
    assert Ones(4) == 0xf;
    assert Ones(8) == 0xff;
    assert Ones(12) == 0xfff;
    assert Ones(16) == 0xffff;
    assert Ones(20) == 0xf_ffff;
  }

  lemma AddRoundTrip(imm: int, rn: Word, rd: Word)
    requires 0 <= imm < 4096
    ensures IsAddImm(AddWord(Pattern(imm, 12), rn, rd))
    ensures Value(Imm12(AddWord(Pattern(imm, 12), rn, rd)), 12) == imm
  {
    hide AddWord, Imm12, IsAddImm, Pattern, Value, Within, Ones, Masked, Pow2;
    Ones21();
    Pow2At21();
    PatternWithin(imm, 12);
    AddWordFields(Pattern(imm, 12), rn, rd);
    ValueOfPattern(imm, 12);
    ValueMasked(Imm12(AddWord(Pattern(imm, 12), rn, rd)), 12);
  }

  lemma PagesExact(pc: DWord, target: DWord)
    requires -0x1_0000_0000 <= PageOf(target) - PageOf(pc) < 0x1_0000_0000
    ensures -0x10_0000 <= (PageOf(target) - PageOf(pc)) / 4096 < 0x10_0000
    ensures (pc - pc % 4096 + 4096 * ((PageOf(target) - PageOf(pc)) / 4096) + target % 4096) % WRAP == target
  {
    var d := target / 4096 - pc / 4096;
    assert PageOf(target) - PageOf(pc) == 4096 * d;
  }

  /**
  Wherever a target lies within the reach of ADRP, the two instructions that a compiler emits
  for it at address pc are followed back to the target's place in the file.
   */
  lemma XrefRoundTrip(b: Binary, buf: DWord, img: seq<Word>, i: nat, pc: DWord, target: DWord, rd: Word, rn: Word)
    requires i + 1 < |img| && PtrToVa(b, buf, (buf + 4 * i) % WRAP) == Some(pc)
    requires -0x1_0000_0000 <= PageOf(target) - PageOf(pc) < 0x1_0000_0000
    requires img[i] == AdrpWord(Pattern((PageOf(target) - PageOf(pc)) / 4096, 21), rd)
    requires img[i + 1] == AddWord(Pattern(target % 4096, 12), rn, rd)
    ensures FollowXref(b, buf, img, i) == VaToPtr(b, buf, target)
  {
    hide AdrpWord, AddWord, Imm12, IsAdrp, IsAddImm, Pattern, Value, AdrpOffset, PtrToVa, VaToPtr;
    PagesExact(pc, target);
    AdrpRoundTrip((PageOf(target) - PageOf(pc)) / 4096, rd);
    AddRoundTrip(target % 4096, rn, rd);
  }

  /** The pair at word i makes the address target when it runs at pc. */
  ghost predicate PairAt(img: seq<Word>, i: nat, pc: DWord, target: DWord, rd: Word, rn: Word) {
    && i + 1 < |img| && -0x1_0000_0000 <= PageOf(target) - PageOf(pc) < 0x1_0000_0000
    && img[i] == AdrpWord(Pattern((PageOf(target) - PageOf(pc)) / 4096, 21), rd)
    && img[i + 1] == AddWord(Pattern(target % 4096, 12), rn, rd)
  }

  /** In an ELF file: the target's place in the part that it is loaded from. */
  lemma XrefInElf(hs: seq<Elf.ProgramHeader>, buf: DWord, img: seq<Word>, i: nat, target: DWord, rd: Word, rn: Word,
                  k: nat, l: nat)
    requires Elf.WellFormed(hs, buf) && k < |hs| && l < |hs|
    requires buf + 4 * i < WRAP && Elf.Loaded(hs[k], buf, buf + 4 * i) && Elf.Loads(hs[l], target)
    requires var pc := hs[k].vaddr + 4 * i - hs[k].offset; pc < WRAP && PairAt(img, i, pc, target, rd, rn)
    ensures FollowXref(ElfFile(hs), buf, img, i) == Some(buf + hs[l].offset + target - hs[l].vaddr)
  {
    hide FollowXref, PairAt, Elf.WellFormed;
    Elf.PtrVaPtr(hs, buf, buf + 4 * i, k);
    Elf.VaPtrVa(hs, buf, target, l);
    PairFollowed(ElfFile(hs), buf, img, i, hs[k].vaddr + 4 * i - hs[k].offset, target, rd, rn);
  }

  lemma PairFollowed(b: Binary, buf: DWord, img: seq<Word>, i: nat, pc: DWord, target: DWord, rd: Word, rn: Word)
    requires buf + 4 * i < WRAP && PairAt(img, i, pc, target, rd, rn) && PtrToVa(b, buf, buf + 4 * i) == Some(pc)
    ensures FollowXref(b, buf, img, i) == VaToPtr(b, buf, target)
  {
    hide FollowXref, AdrpWord, AddWord, Pattern, PtrToVa, VaToPtr;
    XrefRoundTrip(b, buf, img, i, pc, target, rd, rn);
  }

  /** In a Mach-O file: its place in its section. */
  lemma XrefInMachO(m: MachO.Image, buf: DWord, img: seq<Word>, i: nat, target: DWord, rd: Word, rn: Word,
                    g: nat, s: nat, h: nat, t: nat)
    requires MachO.WellFormed(m, buf) && buf + 4 * i < WRAP
    requires MachO.Covers(m, MachO.ByPtr(buf, buf + 4 * i), g, s) && MachO.Covers(m, MachO.ByVa(target), h, t)
    requires !MachO.ZeroFill(m.commands[h].segment.sections[t])
    requires var from := m.commands[g].segment.sections[s];
      var pc := from.addr + 4 * i - from.offset;
      0 <= pc < WRAP && PairAt(img, i, pc, target, rd, rn)
    ensures var to := m.commands[h].segment.sections[t];
      FollowXref(MachOFile(m), buf, img, i) == Some(buf + to.offset + target - to.addr)
  {
    hide FollowXref, PairAt, MachO.WellFormed, MachO.ZeroFill, MachO.PtrToVa, MachO.VaToPtr;
    var from := m.commands[g].segment.sections[s];
    MachO.PtrVaPtr(m, buf, buf + 4 * i, g, s);
    MachO.VaPtrVa(m, buf, target, h, t);
    PairFollowed(MachOFile(m), buf, img, i, from.addr + 4 * i - from.offset, target, rd, rn);
  }

  /** In anything else nothing is found. */
  lemma XrefInOther(buf: DWord, img: seq<Word>, i: nat)
    requires i + 1 < |img|
    ensures FollowXref(UnknownFile, buf, img, i) == Some(0)
  {
    hide AdrpOffset, Value, Imm12, IsAdrp, IsAddImm;
  }

  // Every pair of words.

  lemma DecodeAdrp(w: Word)
    ensures Decode(w).Adrp? <==> w & 0x9f00_0000 == 0x9000_0000
    ensures Decode(w).Adrp? ==> Decode(w).d == Rd(w)
  {
    hide Value, SignedValue, PageBits, Rn, Rd, Imm12;
  }

  lemma AdrpTest(w: Word)
    ensures IsAdrp(w) <==> Decode(w).Adrp?
  {
    hide Decode;
    DecodeAdrp(w);
  }

  /** ADD (immediate) on 64 bits, with bit 22 for a shift by twelve */
  predicate IsAdd(w: Word) {
    w & 0x7f80_0000 == 0x1100_0000 && w & 0x8000_0000 != 0
  }

  predicate Shifted(w: Word) {
    w & 0x40_0000 != 0
  }

  /** What the instruction adds */
  function Addend(w: Word): nat {
    Value(Imm12(w), 12) * (if Shifted(w) then 4096 else 1)
  }

  lemma AddTest(w: Word)
    ensures IsAddImm(w) <==> IsAdd(w)
  {
  }

  /** Anything but an ADRP and an ADD leads nowhere. */
  lemma XrefNull(b: Binary, buf: DWord, img: seq<Word>, i: nat)
    requires i + 1 < |img| && (!Decode(img[i]).Adrp? || !IsAdd(img[i + 1]))
    ensures FollowXref(b, buf, img, i) == Some(0)
  {
    hide Decode, IsAdrp, IsAddImm, IsAdd, PtrToVa, VaToPtr;
    AdrpTest(img[i]);
    AddTest(img[i + 1]);
  }

  /** The address that the two instructions make at pc, as the architecture has it */
  function Made(pc: DWord, adrp: Word, add: Word): DWord {
    (pc - pc % 4096 + 4096 * SignedValue(PageBits(adrp), 21) + Addend(add)) % WRAP
  }

  /** And what the code takes for it */
  function Read(pc: DWord, adrp: Word, add: Word): DWord {
    (pc - pc % 4096 + AdrpOffset(adrp) + Value(Imm12(add), 12)) % WRAP
  }

  lemma XrefReads(b: Binary, buf: DWord, img: seq<Word>, i: nat, pc: DWord)
    requires i + 1 < |img| && PtrToVa(b, buf, (buf + 4 * i) % WRAP) == Some(pc)
    requires Decode(img[i]).Adrp? && IsAdd(img[i + 1])
    ensures FollowXref(b, buf, img, i) == VaToPtr(b, buf, Read(pc, img[i], img[i + 1]))
  {
    hide Decode, IsAdrp, IsAddImm, IsAdd, PtrToVa, VaToPtr, AdrpOffset, Value, Imm12;
    AdrpTest(img[i]);
    AddTest(img[i + 1]);
  }

  /** That is the address which the machine has in the register when the two have run. */
  lemma MadeByRun(world: World, s: State, adrp: Word, add: Word)
    requires Decode(adrp).Adrp? && Decode(add).AddImm? && Rd(adrp) == Rd(add) == Rn(add) < 31
    ensures X(Exec(world, Decode(add), Exec(world, Decode(adrp), s)), Rd(adrp)) == Made(s.pc, adrp, add)
  {
    hide Value, SignedValue, PageBits, Rn, Rd, Imm12, Decode, Shifted;
    AdrpOff(adrp);
    AddIs(add);
    AddModulo(s.pc - s.pc % 4096 + 4096 * SignedValue(PageBits(adrp), 21), Value(Imm12(add), 12));
  }

  lemma AdrpOff(w: Word)
    requires Decode(w).Adrp?
    ensures Decode(w) == Adrp(Rd(w), 4096 * SignedValue(PageBits(w), 21))
  {
    hide Value, SignedValue, PageBits, Rn, Rd, Imm12;
  }

  lemma AddIs(w: Word)
    requires Decode(w).AddImm?
    ensures Decode(w) == AddImm(Rd(w), Rn(w), Value(Imm12(w), 12)) && !Shifted(w)
  {
    hide Value, SignedValue, PageBits, Rn, Rd, Imm12;
  }

  lemma AddModulo(x: int, d: nat)
    ensures (x % WRAP + d) % WRAP == (x + d) % WRAP
  {
  }

  /** The code does not look at the shift of the ADD: it takes the right address exactly when there is nothing to shift. */
  lemma ShiftExact(pc: DWord, adrp: Word, add: Word)
    ensures Read(pc, adrp, add) == Made(pc, adrp, add) <==> !Shifted(add) || Value(Imm12(add), 12) == 0
  {
    hide Value, Shifted, AdrpOffset, Imm12, PageBits, SignedValue, Pow2;
    AdrpOffsetIsArchitectural(adrp);
    Pow2At21();
    var v := Value(Imm12(add), 12);
    ModuloTest(pc - pc % 4096 + AdrpOffset(adrp) + v, 4095 * v);
  }

  lemma ModuloTest(x: int, d: nat)
    requires d < WRAP
    ensures x % WRAP == (x + d) % WRAP <==> d == 0
  {
  }

  /** What a branch leads to; a veneer is resolved through memory, by FollowVeneer. */
  datatype Target = NotABranch | Outside | At(i: nat) | Veneer

  predicate IsVeneer(w0: Word, w1: Word, w2: Word) {
    && MaskMatch(w0, 0x9000_0010, 0x9f00_001f)
    && MaskMatch(w1, 0xf940_0210, 0xffc0_03ff)
    && MaskMatch(w2, 0xd61f_0200, 0xffff_ffff)
  }

  /**
  The rest of pf_follow_veneer, for a veneer at word t: the address that its ldr reads, and the pointer for
  what is there. Pages are counted from buf on; mem gives the doublewords of the buffer.
   */
  function VeneerCell(buf: DWord, img: seq<Word>, t: nat): DWord
    requires t + 2 < |img|
  {
    var bufOffset := buf % 4096;
    var unaligned := (buf + 4 * t - bufOffset) % WRAP;
    var stream := unaligned - unaligned % 4096 + bufOffset;
    (stream + AdrpOffset(img[t]) + 8 * Value(Imm12(img[t + 1]), 12)) % WRAP
  }

  function FollowVeneer(b: Binary, buf: DWord, img: seq<Word>, mem: DWord -> DWord, t: nat): Option<DWord>
    requires t + 2 < |img|
  {
    if b.UnknownFile? then Some((buf + 4 * t) % WRAP) else VaToPtr(b, buf, mem(VeneerCell(buf, img, t)))
  }

  /** In a file of an unknown kind, a veneer leads to itself. */
  lemma VeneerInOther(buf: DWord, img: seq<Word>, mem: DWord -> DWord, t: nat)
    requires t + 2 < |img| && buf + 4 * t < WRAP
    ensures FollowVeneer(UnknownFile, buf, img, mem, t) == Some(buf + 4 * t)
  {
  }

  /** ldr x16, [x16, imm] */
  function LdrWord(imm: Word): Word {
    0xf940_0210 | (imm << 10)
  }

  lemma VeneerAdrp(pages: Word)
    requires Within(pages, 0x1f_ffff)
    ensures MaskMatch(AdrpWord(pages, 16), 0x9000_0010, 0x9f00_001f)
  {
  }

  lemma VeneerLdr(imm: Word)
    requires Within(imm, 0xfff)
    ensures MaskMatch(LdrWord(imm), 0xf940_0210, 0xffc0_03ff)
  {
  }

  lemma LdrField(imm: Word)
    requires Within(imm, 0xfff)
    ensures Masked(Imm12(LdrWord(imm)), 0xfff) == imm
  {
  }

  lemma VeneerFields(pages: Word, imm: Word)
    requires Within(pages, 0x1f_ffff) && Within(imm, 0xfff)
    ensures IsVeneer(AdrpWord(pages, 16), LdrWord(imm), 0xd61f_0200)
    ensures Masked(Imm12(LdrWord(imm)), 0xfff) == imm
  {
    hide AdrpWord, LdrWord, Imm12, Within, Masked;
    VeneerAdrp(pages);
    VeneerLdr(imm);
    LdrField(imm);
  }

  /** A veneer is these three instructions: adrp x16, ldr x16, [x16, imm] and br x16. */
  lemma NoVeneer(w0: Word, w1: Word, w2: Word)
    ensures IsVeneer(w0, w1, w2) <==>
      Decode(w0).Adrp? && w0 & 0x1f == 16 && w1 & 0xffc0_0000 == 0xf940_0000 && w1 & 0x3ff == 0x210 && w2 == 0xd61f_0200
  {
    hide Decode;
    AdrpTest(w0);
    VeneerBits(w0, w1, w2);
  }

  lemma VeneerBits(w0: Word, w1: Word, w2: Word)
    ensures IsVeneer(w0, w1, w2) <==>
      IsAdrp(w0) && w0 & 0x1f == 16 && w1 & 0xffc0_0000 == 0xf940_0000 && w1 & 0x3ff == 0x210 && w2 == 0xd61f_0200
  {
  }

  /**
  A veneer at word t of an image that was linked to run at base, page by page as it is in the file: it
  goes through the cell at address q, and what is there is what it leads to.
   */
  lemma VeneerRoundTrip(b: Binary, buf: DWord, img: seq<Word>, mem: DWord -> DWord, t: nat, base: DWord, q: DWord)
    requires t + 2 < |img| && !b.UnknownFile? && base % 4096 == 0 && q % 8 == 0
    requires base + 4 * t < WRAP && buf + 4 * t < WRAP && base <= q && buf + (q - base) < WRAP
    requires -0x1_0000_0000 <= PageOf(q) - PageOf(base + 4 * t) < 0x1_0000_0000
    requires img[t] == AdrpWord(Pattern((PageOf(q) - PageOf(base + 4 * t)) / 4096, 21), 16)
    requires img[t + 1] == LdrWord(Pattern(q % 4096 / 8, 12)) && img[t + 2] == 0xd61f_0200
    ensures IsVeneer(img[t], img[t + 1], img[t + 2])
    ensures VeneerCell(buf, img, t) == buf + (q - base)
    ensures FollowVeneer(b, buf, img, mem, t) == VaToPtr(b, buf, mem(buf + (q - base)))
  {
    hide AdrpWord, LdrWord, Imm12, IsAdrp, IsVeneer, Pattern, Value, AdrpOffset, VaToPtr, Within, Ones, Masked, Pow2;
    var pages, imm := (PageOf(q) - PageOf(base + 4 * t)) / 4096, q % 4096 / 8;
    Ones21();
    Pow2At21();
    PagesExact(base + 4 * t, q);
    PatternWithin(pages, 21);
    PatternWithin(imm, 12);
    AdrpRoundTrip(pages, 16);
    VeneerFields(Pattern(pages, 21), Pattern(imm, 12));
    ValueOfPattern(imm, 12);
    ValueMasked(Imm12(img[t + 1]), 12);
    CellAt(buf, base, t, q, pages, imm);
  }

  lemma CellPlain(buf: DWord, t: nat)
    requires buf + 4 * t < WRAP
    ensures var unaligned := (buf + 4 * t - buf % 4096) % WRAP;
      unaligned - unaligned % 4096 + buf % 4096 == buf + 4096 * (4 * t / 4096)
  {
    var x := buf - buf % 4096;
    BelowPage(buf);
    PageSum(x, 4 * t);
    assert x + 4 * t < WRAP;
    NoWrap(x + 4 * t);
  }

  lemma PagesBetween(base: DWord, t: nat, q: DWord)
    requires base % 4096 == 0 && base + 4 * t < WRAP
    ensures 4096 * ((PageOf(q) - PageOf(base + 4 * t)) / 4096) == PageOf(q) - base - 4096 * (4 * t / 4096)
  {
    hide PageOf;
    PageSum(base, 4 * t);
    PageWhole(q);
    var d := PageOf(q) - PageOf(base + 4 * t);
    assert d == PageOf(q) - base - 4096 * (4 * t / 4096);
    Exactly(d);
  }

  lemma PageWhole(q: DWord)
    ensures PageOf(q) % 4096 == 0
  {
  }

  lemma CellAt(buf: DWord, base: DWord, t: nat, q: DWord, pages: int, imm: int)
    requires base % 4096 == 0 && q % 8 == 0 && base + 4 * t < WRAP && buf + 4 * t < WRAP && base <= q && buf + (q - base) < WRAP
    requires pages == (PageOf(q) - PageOf(base + 4 * t)) / 4096 && imm == q % 4096 / 8
    ensures var unaligned := (buf + 4 * t - buf % 4096) % WRAP;
      (unaligned - unaligned % 4096 + buf % 4096 + 4096 * pages + 8 * imm) % WRAP == buf + (q - base)
  {
    hide PageOf;
    PagesBetween(base, t, q);
    PageParts(q);
    CellPlain(buf, t);
    NoWrap(buf + (q - base));
    var unaligned := (buf + 4 * t - buf % 4096) % WRAP;
    CellSum(unaligned - unaligned % 4096 + buf % 4096, buf, base, 4096 * (4 * t / 4096), q, PageOf(q), 4096 * pages, 8 * imm);
  }

  lemma NoWrap(x: DWord)
    ensures x % WRAP == x
  {
  }

  lemma CellSum(stream: int, buf: int, base: int, k: int, q: int, page: int, pages: int, imm: int)
    requires stream == buf + k && pages == page - base - k && page + imm == q
    ensures stream + pages + imm == buf + (q - base)
  {
  }

  lemma BelowPage(x: nat)
    ensures 0 <= x - x % 4096 <= x && (x - x % 4096) % 4096 == 0
  {
  }

  lemma PageParts(q: DWord)
    requires q % 8 == 0
    ensures PageOf(q) % 4096 == 0 && PageOf(q) + 8 * (q % 4096 / 8) == q
  {
    var r := q % 4096;
    assert q == 4096 * (q / 4096) + r;
    assert r % 8 == 0;
  }

  lemma PageSum(x: nat, n: nat)
    requires x % 4096 == 0
    ensures x + n - (x + n) % 4096 == x + 4096 * (n / 4096)
    ensures x + n < WRAP ==> PageOf(x + n) == x + 4096 * (n / 4096)
  {
  }

  lemma Exactly(d: int)
    requires d % 4096 == 0
    ensures 4096 * (d / 4096) == d
  {
  }

  predicate IsBCond(w: Word) {
    MaskMatch(w, 0x5400_0000, 0xff00_0010)
  }

  predicate IsBOrBl(w: Word) {
    MaskMatch(w, 0x1400_0000, 0x7c00_0000)
  }

  /** pf_follow_branch at word i, with pf_follow_veneer at the target */
  function FollowBranch(img: seq<Word>, i: nat): Target
    requires i < |img|
  {
    if !IsBCond(img[i]) && !IsBOrBl(img[i]) then NotABranch
    else
      var t := i + SignExtend32(img[i], if IsBCond(img[i]) then 19 else 26);
      if t < 0 || t + 2 >= |img| then Outside
      else if IsVeneer(img[t], img[t + 1], img[t + 2]) then Veneer
      else At(t)
  }

  /** B.cond, of any condition */
  predicate IsConditional(w: Word) {
    w >> 24 == 0x54 && w & 0x10 == 0
  }

  lemma ConditionalTest(w: Word)
    ensures IsBCond(w) <==> IsConditional(w)
    ensures IsConditional(w) && w & 0xf == 0 <==> w & 0xff00_001f == 0x5400_0000
  {
  }

  lemma DecodeBOrBl(w: Word)
    ensures w & 0xfc00_0000 == 0x1400_0000 ==> Decode(w) == B(4 * SignedValue(w, 26))
    ensures w & 0xfc00_0000 == 0x9400_0000 ==> Decode(w) == BL(4 * SignedValue(w, 26))
  {
    hide SignedValue;
  }

  lemma DecodeNoBranch(w: Word)
    ensures w & 0xfc00_0000 != 0x1400_0000 && w & 0xfc00_0000 != 0x9400_0000 ==> !Decode(w).B? && !Decode(w).BL?
  {
    hide Value, SignedValue, PageBits, Rn, Rd, Imm12;
  }

  lemma BranchBits(w: Word)
    ensures IsBOrBl(w) <==> w & 0xfc00_0000 == 0x1400_0000 || w & 0xfc00_0000 == 0x9400_0000
    ensures !(IsBOrBl(w) && IsBCond(w))
  {
  }

  lemma BranchTest(w: Word)
    ensures IsBOrBl(w) <==> Decode(w).B? || Decode(w).BL?
    ensures IsBOrBl(w) ==> !IsBCond(w) && Decode(w).off == 4 * SignedValue(w, 26)
  {
    hide Decode, IsBOrBl, IsBCond, SignedValue;
    BranchBits(w);
    DecodeBOrBl(w);
    DecodeNoBranch(w);
  }

  /** What is no branch is said to be none, and every b and bl is followed to where the machine goes. */
  lemma BranchExact(img: seq<Word>, i: nat)
    requires i < |img|
    ensures var w, r := img[i], FollowBranch(img, i);
      && (r.NotABranch? <==> !Decode(w).B? && !Decode(w).BL? && !IsConditional(w))
      && (Decode(w).B? || Decode(w).BL? ==>
            var t := i + Decode(w).off / 4;
            r == if t < 0 || t + 2 >= |img| then Outside
                 else if IsVeneer(img[t], img[t + 1], img[t + 2]) then Veneer else At(t))
  {
    hide Decode, IsBCond, IsBOrBl, IsVeneer, SignedValue, SignExtend32, IsConditional;
    ConditionalTest(img[i]);
    BranchTest(img[i]);
    SignExtend26(img[i]);
  }

  lemma BranchWordIsBranch(opcode: Word, w: Word)
    requires IsBranchOpcode(opcode) && Masked(w, 0xfc00_0000) == opcode
    ensures !IsBCond(w) && IsBOrBl(w)
  {
  }

  lemma CopiesAreNotVeneers(w1: Word, w2: Word)
    ensures !IsVeneer(CMP_X1_10, w1, w2) && !IsVeneer(STP_FP_LR, w1, w2)
  {
  }

  /** The branch that inject_shc writes is followed to the copy it was written for. */
  lemma FollowsToCopy(img: seq<Word>, site: nat, slot: nat, opcode: Word)
    requires site < |img| && slot + 2 < |img| && 0 <= slot - site < 0x200_0000
    requires IsBranchOpcode(opcode) && img[site] == BranchWord(opcode, slot - site)
    requires img[slot] == CMP_X1_10 || img[slot] == STP_FP_LR
    ensures FollowBranch(img, site) == At(slot)
  {
    hide BranchWord, IsBranchOpcode, IsBCond, IsBOrBl, IsVeneer, SignExtend32, SignedValue, Masked;
    BranchWordFields(opcode, slot - site);
    BranchWordIsBranch(opcode, img[site]);
    SignExtend26(img[site]);
    CopiesAreNotVeneers(img[slot + 1], img[slot + 2]);
  }

  // Conditional branches: the code takes the low nineteen bits, the architecture those from bit 5 on.

  lemma SignExtend19(w: Word)
    ensures SignExtend32(w, 19) == AsSigned(Value(w, 19), 0x8_0000)
  {
    hide Value;
    SmallValues();
    Sixteens();
    var h := ValueUpper(w, 19, 32);
    var low := Value(w, 19);
    assert Value(w, 32) * 8192 == low * 8192 + h * 0x1_0000_0000;
    assert Value(w, 32) * 8192 % 0x1_0000_0000 == low * 8192;
  }

  function Halved(w: Word, j: nat): Word {
    if j == 0 then w else Halved(Half(w), j - 1)
  }

  lemma HalvedFive(w: Word)
    ensures Halved(w, 5) == w >> 5
  {
    HalvedIs(w);
    FiveHalves(w);
  }

  lemma HalvedIs(w: Word)
    ensures Halved(w, 5) == Half(Half(Half(Half(Half(w)))))
  {
    hide Half;
    var v := Half(Half(Half(w)));
    assert Halved(v, 2) == Halved(Half(v), 1) == Half(Half(v));
    assert Halved(w, 5) == Halved(Half(w), 4) == Halved(Half(Half(w)), 3) == Halved(v, 2);
  }

  lemma FiveHalves(w: Word)
    ensures Half(Half(Half(Half(Half(w))))) == w >> 5
  {
  }

  lemma {:induction false} ValueSplit(w: Word, j: nat, k: nat)
    ensures Value(w, j + k) == Value(w, j) + Pow2(j) * Value(Halved(w, j), k)
    decreases j
  {
    hide Half, Odd;
    if j > 0 {
      ValueSplit(Half(w), j - 1, k);
      Twice(Pow2(j - 1), Value(Halved(w, j), k));
    }
  }

  lemma BCondBits(w: Word)
    requires IsBCond(w)
    ensures Masked(w, 0x1f) == Masked(w, 0xf) && Within(Masked(w, 0xf), 0xf)
  {
  }

  /** Bit 4 is clear, so the five bits below the displacement hold the condition. */
  lemma BCondLow(w: Word)
    requires IsBCond(w)
    ensures Value(w, 5) == Value(w, 4)
  {
    hide Value, Ones, Pow2, Masked, Within, IsBCond;
    SmallValues();
    Ones4();
    BCondBits(w);
    ValueMasked(w, 4);
    Field(w, 5, 4, Masked(w, 0xf));
  }

  lemma Ones4()
    ensures Ones(4) == 0xf && Pow2(4) == 16
  {
  }

  /** The low nineteen bits, from displacement and condition. */
  lemma BCondMixes(w: Word) returns (h: nat)
    requires IsBCond(w)
    ensures 32 * Value(w >> 5, 19) + Value(w, 4) == Value(w, 19) + 0x8_0000 * h
  {
    hide Value, IsBCond;
    SmallValues();
    BCondLow(w);
    HalvedFive(w);
    ValueSplit(w, 5, 19);
    h := ValueUpper(w, 19, 24);
  }

  /** 31 is a unit modulo 2^19, and 31 * 33825 is 2^20 - 1. */
  lemma UnitAt19(i: nat, c: nat)
    requires i < 0x8_0000 && c < 16
    ensures (31 * i + c) % 0x8_0000 == 0 <==> i == 33825 * c
  {
    if i == 33825 * c {
      assert 31 * i + c == 0x8_0000 * (2 * c);
    } else if (31 * i + c) % 0x8_0000 == 0 {
      assert false;
    }
  }

  lemma MixedEqual(v: nat, i: nat, c: nat, h: nat)
    requires v < 0x8_0000 && i < 0x8_0000 && 32 * i + c == v + 0x8_0000 * h
    ensures v == i <==> (31 * i + c) % 0x8_0000 == 0
  {
    if (31 * i + c) % 0x8_0000 == 0 {
      var q := (31 * i + c) / 0x8_0000;
      assert v - i == 0x8_0000 * (q - h);
    }
  }

  /**
  A conditional branch is followed to its target exactly when the low nineteen bits happen to repeat its
  displacement: for one displacement of each condition, 33825 times its number.
   */
  lemma BCondExact(w: Word)
    requires IsBCond(w)
    ensures SignExtend32(w, 19) == SignedValue(w >> 5, 19) <==> (31 * Value(w >> 5, 19) + Value(w, 4)) % Pow2(19) == 0
    ensures SignExtend32(w, 19) == SignedValue(w >> 5, 19) <==> Value(w >> 5, 19) == 33825 * Value(w, 4)
  {
    hide Value, IsBCond, SignExtend32, Pow2;
    SmallValues();
    Ones4();
    SignExtend19(w);
    var h := BCondMixes(w);
    MixedEqual(Value(w, 19), Value(w >> 5, 19), Value(w, 4), h);
    UnitAt19(Value(w >> 5, 19), Value(w, 4));
  }

  /** A conditional branch is not followed to its target: `b.eq` two words on is read as sixty-four words on. */
  lemma BCondMisread(img: seq<Word>, i: nat)
    requires i + 66 < |img| && img[i] == BEQ_8 && !IsVeneer(img[i + 64], img[i + 65], img[i + 66])
    ensures Decode(img[i]) == BEq(4 * 2)
    ensures FollowBranch(img, i) == At(i + 64)
  {
    hide IsVeneer, Decode, SignExtend32;
    BeqDecodes();
    BeqLowBits();
  }

  lemma BeqLowBits()
    ensures SignExtend32(BEQ_8, 19) == 64
  {
    hide Value, Pow2, Ones;
    SmallValues();
    Field(BEQ_8, 19, 7, 0x40);
    Sixteens();
    var h := ValueUpper(BEQ_8, 19, 32);
    assert Value(BEQ_8, 32) * 8192 % 0x1_0000_0000 == 64 * 8192;
  }

  lemma Sixteens()
    ensures Value(0x40, 7) == 0x40 && Pow2(13) == 8192
  {
    assert Value(0x4, 3) == 0x4;
    assert Pow2(7) == 128;
  }
}

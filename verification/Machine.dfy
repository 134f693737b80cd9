/**
The part of the A64 instruction set that the patched code is made of
(Arm Architecture Reference Manual, DDI 0487, section C6.2). Words outside it, and code
outside the program, act on the state in ways given by a World.
 */
module Machine {
  import opened Bits
  import opened Numbers

  const FP := 29
  const LR := 30

  type Registers = r: seq<DWord> | |r| == 31 witness seq(31, _ => 0)

  datatype Flags = Flags(n: bool, z: bool, c: bool, v: bool)

  /** mem gives the doubleword at each 8-byte aligned address. */
  datatype State = State(regs: Registers, sp: DWord, pc: DWord, flags: Flags, mem: int -> DWord)

  datatype Insn =
    | B(off: int)
    | BL(off: int)
    | BR(n: nat)
    | BLR(n: nat)
    | RET(n: nat)
    | BEq(off: int)
    | Cbz(t: nat, wide: bool, off: int)
    | CmpImm(n: nat, imm: nat)
    | MovZ(d: nat, imm: nat)
    | AddImm(d: nat, n: nat, imm: nat)
    | MovReg(d: nat, m: nat)
    | Adrp(d: nat, off: int)
    | StpPre(t: nat, t2: nat, n: nat, off: int)
    | LdpPost(t: nat, t2: nat, n: nat, off: int)
    | Nop
    | Other(w: Word)

  function Rd(w: Word): (r: nat)
    ensures r < 32
  {
    assert Pow2(5) == 32;
    Value(w, 5)
  }

  function Rn(w: Word): nat {
    Value(w >> 5, 5)
  }

  function Decode(w: Word): Insn {
    if w & 0xfc00_0000 == 0x1400_0000 then B(4 * SignedValue(w, 26))
    else if w & 0xfc00_0000 == 0x9400_0000 then BL(4 * SignedValue(w, 26))
    else if w & 0xffff_fc1f == 0xd61f_0000 then BR(Rn(w))
    else if w & 0xffff_fc1f == 0xd63f_0000 then BLR(Rn(w))
    else if w & 0xffff_fc1f == 0xd65f_0000 then RET(Rn(w))
    else if w & 0xff00_001f == 0x5400_0000 then BEq(4 * SignedValue(w >> 5, 19))
    else if w & 0xff00_0000 == 0x3400_0000 then Cbz(Rd(w), false, 4 * SignedValue(w >> 5, 19))
    else if w & 0xff00_0000 == 0xb400_0000 then Cbz(Rd(w), true, 4 * SignedValue(w >> 5, 19))
    else if w & 0xffc0_001f == 0xf100_001f then CmpImm(Rn(w), Value(Imm12(w), 12))
    else if w & 0xffe0_0000 == 0xd280_0000 then MovZ(Rd(w), Value(w >> 5, 16))
    else if w & 0xffe0_0000 == 0x5280_0000 then MovZ(Rd(w), Value(w >> 5, 16))
    else if w & 0xffc0_0000 == 0x9100_0000 then AddImm(Rd(w), Rn(w), Value(Imm12(w), 12))
    else if w & 0xffe0_ffe0 == 0xaa00_03e0 then MovReg(Rd(w), Value(w >> 16, 5))
    else if w & 0x9f00_0000 == 0x9000_0000 then Adrp(Rd(w), 4096 * SignedValue(PageBits(w), 21))
    else if w & 0xffc0_0000 == 0xa980_0000 then StpPre(Rd(w), Value(w >> 10, 5), Rn(w), 8 * SignedValue(w >> 15, 7))
    else if w & 0xffc0_0000 == 0xa8c0_0000 then LdpPost(Rd(w), Value(w >> 10, 5), Rn(w), 8 * SignedValue(w >> 15, 7))
    else if w == 0xd503_201f then Nop
    else Other(w)
  }

  /** imm12, at the low end */
  function Imm12(w: Word): Word {
    w >> 10
  }

  /** immhi:immlo of an ADRP */
  function PageBits(w: Word): Word {
    (((w >> 5) & 0x7_ffff) << 2) | ((w >> 29) & 0x3)
  }

  /** Register 31 reads as zero. */
  function X(s: State, n: nat): DWord {
    if n < 31 then s.regs[n] else 0
  }

  function SetX(s: State, n: nat, v: int): State {
    if n < 31 then s.(regs := s.regs[n := v % WRAP]) else s
  }

  /** As a base register, 31 is the stack pointer. */
  function Base(s: State, n: nat): DWord {
    if n == 31 then s.sp else X(s, n)
  }

  function SetBase(s: State, n: nat, v: int): State {
    if n == 31 then s.(sp := v % WRAP) else SetX(s, n, v)
  }

  function Next(s: State): State {
    s.(pc := (s.pc + 4) % WRAP)
  }

  function Jump(s: State, target: int): State {
    s.(pc := target % WRAP)
  }

  function Compare(v: DWord, imm: nat): Flags {
    var r := (v - imm) % WRAP;
    Flags(r >= 0x8000_0000_0000_0000, r == 0, v >= imm, AsSigned(v, WRAP) - imm < -0x8000_0000_0000_0000)
  }

  /** The flags tell how the two compare: equal, not lower when unsigned, and lower when signed. */
  lemma CompareExact(v: DWord, imm: nat)
    requires imm < 0x1000
    ensures var f := Compare(v, imm);
      && (f.z <==> v == imm) && (f.c <==> v >= imm)
      && (f.n != f.v <==> (if v < 0x8000_0000_0000_0000 then v else v - 0x1_0000_0000_0000_0000) < imm)
  {
  }

  function Store2(m: int -> DWord, a: DWord, v: DWord, v2: DWord): int -> DWord {
    (b: int) => if b == (a + 8) % WRAP then v2 else if b == a then v else m(b)
  }

  /** Foreign code runs until it comes back into the code here; other words act on the state at once. */
  datatype World = World(foreign: State -> State, other: (Word, State) -> State)

  function Exec(world: World, i: Insn, s: State): State {
    match i
    case B(off) => Jump(s, s.pc + off)
    case BL(off) => Jump(SetX(s, LR, s.pc + 4), s.pc + off)
    case BR(n) => Jump(s, X(s, n))
    case BLR(n) => Jump(SetX(s, LR, s.pc + 4), X(s, n))
    case RET(n) => Jump(s, X(s, n))
    case BEq(off) => if s.flags.z then Jump(s, s.pc + off) else Next(s)
    case Cbz(t, wide, off) =>
      if (if wide then X(s, t) else X(s, t) % 0x1_0000_0000) == 0 then Jump(s, s.pc + off) else Next(s)
    case CmpImm(n, imm) => Next(s.(flags := Compare(Base(s, n), imm)))
    case MovZ(d, imm) => Next(SetX(s, d, imm))
    case AddImm(d, n, imm) => Next(SetBase(s, d, Base(s, n) + imm))
    case MovReg(d, m) => Next(SetX(s, d, X(s, m)))
    case Adrp(d, off) => Next(SetX(s, d, s.pc - s.pc % 4096 + off))
    case StpPre(t, t2, n, off) =>
      var a := (Base(s, n) + off) % WRAP;
      Next(SetBase(s.(mem := Store2(s.mem, a, X(s, t), X(s, t2))), n, a))
    case LdpPost(t, t2, n, off) =>
      var a := Base(s, n);
      Next(SetBase(SetX(SetX(s, t, s.mem(a)), t2, s.mem((a + 8) % WRAP)), n, a + off))
    case Nop => Next(s)
    case Other(w) => world.other(w, s)
  }

  /** Words loaded at base; code has the places of those that this machine runs. The rest is foreign code, and data. */
  datatype Program = Program(base: DWord, words: seq<Word>, code: set<nat>) {
    ghost predicate Valid() {
      base + 4 * |words| <= WRAP
    }

    predicate Holds(pc: int) {
      base <= pc < base + 4 * |words| && (pc - base) % 4 == 0 && (pc - base) / 4 in code
    }

    function Index(pc: int): (i: nat)
      requires Holds(pc)
      ensures i < |words| && i in code && Address(i) == pc
    {
      (pc - base) / 4
    }

    function Address(i: int): int {
      base + 4 * i
    }

    function At(pc: int): Word
      requires Holds(pc)
    {
      words[Index(pc)]
    }
  }

  function Step(p: Program, world: World, s: State): State {
    if p.Holds(s.pc) then Exec(world, Decode(p.At(s.pc)), s) else world.foreign(s)
  }

  function Run(p: Program, world: World, s: State, n: nat): State
    decreases n
  {
    if n == 0 then s else Run(p, world, Step(p, world, s), n - 1)
  }

  lemma {:induction false} RunAdd(p: Program, world: World, s: State, m: nat, n: nat)
    ensures Run(p, world, s, m + n) == Run(p, world, Run(p, world, s, m), n)
    decreases m
  {
    hide Step;
    if m > 0 {
      RunAdd(p, world, Step(p, world, s), m - 1, n);
    }
  }
}

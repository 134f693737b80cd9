/** What one copy of the shellcode does when a patched branch runs into it. */
module Slots {
  import opened Bits
  import opened Machine
  import opened Templates

  const DO_B: Word := 0x1400_0000
  const DO_BL: Word := 0x9400_0000

  predicate IsBranchOpcode(opcode: Word) {
    opcode == DO_B || opcode == DO_BL
  }

  function Join(opcode: Word, p: Word): Word {
    opcode | p
  }

  /** The word inject_shc leaves at a site: an opcode with a displacement or-ed in. */
  function BranchWord(opcode: Word, d: int): Word {
    Join(opcode, Pattern(d, 32))
  }

  lemma JoinFields(opcode: Word, p: Word)
    requires IsBranchOpcode(opcode) && Within(p, 0x3ff_ffff)
    ensures Masked(Join(opcode, p), 0xfc00_0000) == opcode
    ensures Masked(Join(opcode, p), 0x3ff_ffff) == p
  {
  }

  lemma DecodeBranch(w: Word)
    ensures Masked(w, 0xfc00_0000) == DO_B ==> Decode(w) == B(4 * SignedValue(w, 26))
    ensures Masked(w, 0xfc00_0000) == DO_BL ==> Decode(w) == BL(4 * SignedValue(w, 26))
  {
    hide Value, Pow2, SignedValue;
  }

  lemma Pow2At25()
    ensures Pow2(25) == 0x200_0000 && Pow2(26) == 0x400_0000
  {
    assert Pow2(4) == 0x10;
    assert Pow2(8) == 0x100;
    assert Pow2(12) == 0x1000;
    assert Pow2(16) == 0x1_0000;
    assert Pow2(20) == 0x10_0000;
    assert Pow2(24) == 0x100_0000;
  }

  /** Within branch reach the displacement survives encoding, and the opcode is left as it was. */
  lemma BranchWordFields(opcode: Word, d: int)
    requires IsBranchOpcode(opcode) && 0 <= d < 0x200_0000
    ensures Masked(BranchWord(opcode, d), 0xfc00_0000) == opcode
    ensures SignedValue(BranchWord(opcode, d), 26) == d
  {
    hide Value, Ones, Pow2, Pattern, Within, Masked, IsBranchOpcode, Join;
    Pow2At25();
    Ones31();
    PatternNarrow(d, 26, 32);
    PatternWithin(d, 26);
    JoinFields(opcode, Pattern(d, 26));
    ValueOfPattern(d, 26);
    Field(BranchWord(opcode, d), 26, 26, Pattern(d, 26));
  }

  lemma BranchDecodes(d: int)
    requires 0 <= d < 0x200_0000
    ensures Decode(BranchWord(DO_B, d)) == B(4 * d)
    ensures Decode(BranchWord(DO_BL, d)) == BL(4 * d)
  {
    hide BranchWord, Decode, SignedValue, Masked;
    BranchWordFields(DO_B, d);
    BranchWordFields(DO_BL, d);
    DecodeBranch(BranchWord(DO_B, d));
    DecodeBranch(BranchWord(DO_BL, d));
  }

  /** shellcode_br with platform and jump filled in */
  function BrCode(platform: Word, jmp: Word): seq<Word> {
    [CMP_X1_10, BEQ_8, MovX1(platform), jmp]
  }

  /** shellcode_blr with platform and jump filled in */
  function BlrCode(platform: Word, jmp: Word): seq<Word> {
    [STP_FP_LR, MOV_FP_SP, CMP_X1_10, BEQ_8, MovX1(platform), jmp, LDP_FP_LR, RETURN]
  }

  ghost predicate HasCode(words: seq<Word>, i: nat, code: seq<Word>) {
    i + |code| <= |words| && words[i..i + |code|] == code
  }

  ghost predicate Contains(p: Program, i: nat, code: seq<Word>) {
    HasCode(p.words, i, code) && forall k :: i <= k < i + |code| ==> k in p.code
  }

  lemma StepIn(p: Program, world: World, s: State, i: nat, code: seq<Word>, j: nat, insn: Insn)
    requires Contains(p, i, code) && j < |code|
    requires s.pc == p.Address(i) + 4 * j && Decode(code[j]) == insn
    ensures p.Holds(s.pc) && p.At(s.pc) == code[j]
    ensures Step(p, world, s) == Exec(world, insn, s)
  {
    hide Decode, Exec;
    assert (s.pc - p.base) / 4 == i + j;
    assert p.words[i..i + |code|][j] == p.words[i + j];
  }

  /** x1 on the way to a checked call: 10 stays, anything else becomes the platform. */
  function Forced(x1: DWord, platform: Word): DWord {
    if x1 == 10 then 10 else PlatformValue(platform)
  }

  function PlatformValue(platform: Word): DWord {
    assert Pow2(16) == 0x1_0000 by {
      assert Pow2(4) == 0x10;
      assert Pow2(8) == 0x100;
      assert Pow2(12) == 0x1000;
    }
    Value(platform, 16)
  }

  /** cmp x1, 10; b.eq; mov x1: two or three steps, to the jump word of the copy. */
  function Checked(s: State, platform: Word): State {
    s.(flags := Compare(s.regs[1], 10), regs := s.regs[1 := Forced(s.regs[1], platform)], pc := (s.pc + 12) % WRAP)
  }

  function CheckSteps(s: State): nat {
    if s.regs[1] == 10 then 2 else 3
  }

  lemma CompareRuns(p: Program, world: World, s: State, i: nat, code: seq<Word>, j: nat)
    requires p.Valid() && Contains(p, i, code) && j + 3 < |code|
    requires s.pc == p.Address(i) + 4 * j && code[j] == CMP_X1_10 && code[j + 1] == BEQ_8
    ensures Run(p, world, s, 2) ==
      s.(flags := Compare(s.regs[1], 10), pc := (s.pc + (if s.regs[1] == 10 then 12 else 8)) % WRAP)
  {
    hide Decode, Contains, Step;
    CmpDecodes();
    BeqDecodes();
    PcIn(p, i, code, j + 3);
    StepIn(p, world, s, i, code, j, CmpImm(1, 10));
    StepIn(p, world, Step(p, world, s), i, code, j + 1, BEq(8));
    Run2(p, world, s);
  }

  lemma CheckRuns(p: Program, world: World, s: State, i: nat, code: seq<Word>, j: nat, platform: Word)
    requires p.Valid() && Contains(p, i, code) && j + 3 < |code|
    requires s.pc == p.Address(i) + 4 * j && platform & 0xffff == platform
    requires code[j] == CMP_X1_10 && code[j + 1] == BEQ_8 && code[j + 2] == MovX1(platform)
    ensures Run(p, world, s, CheckSteps(s)) == Checked(s, platform)
  {
    hide Decode, MovX1, Value, Contains, Step, Run, Compare;
    PcIn(p, i, code, j + 3);
    CompareRuns(p, world, s, i, code, j);
    var t := Run(p, world, s, 2);
    if s.regs[1] == 10 {
      assert s.regs[1 := 10] == s.regs;
    } else {
      MovX1Decodes(platform);
      StepIn(p, world, t, i, code, j + 2, MovZ(1, Value(platform, 16)));
      RunOne(p, world, t);
      RunAdd(p, world, s, 2, 1);
    }
  }

  lemma PcIn(p: Program, i: nat, code: seq<Word>, j: nat)
    requires p.Valid() && Contains(p, i, code) && j < |code|
    ensures i + |code| <= |p.words| && p.Address(i) + 4 * j + 4 <= WRAP
  {
  }

  lemma Run2(p: Program, world: World, s: State)
    ensures Run(p, world, s, 2) == Step(p, world, Step(p, world, s))
  {
    hide Step;
    assert Run(p, world, Step(p, world, s), 1) == Step(p, world, Step(p, world, s));
  }

  lemma Run3(p: Program, world: World, s: State)
    ensures Run(p, world, s, 3) == Step(p, world, Step(p, world, Step(p, world, s)))
  {
    hide Step;
    Run2(p, world, Step(p, world, s));
  }

  /** Entered in state s, a copy for a call starts the callee in this state. */
  function Entered(s: State, platform: Word, target: DWord): State {
    State(
      s.regs[1 := Forced(s.regs[1], platform)][FP := (s.sp - 16) % WRAP][LR := (s.pc + 24) % WRAP],
      (s.sp - 16) % WRAP,
      target,
      Compare(s.regs[1], 10),
      Store2(s.mem, (s.sp - 16) % WRAP, s.regs[FP], s.regs[LR]))
  }

  /** What `blr Xn` in the copy jumps to, when the copy is entered in state s. */
  function SlotTarget(s: State, platform: Word, n: nat): DWord {
    if n == 1 then Forced(s.regs[1], platform)
    else if n == FP then (s.sp - 16) % WRAP
    else X(s, n)
  }

  lemma Prologue(p: Program, world: World, s: State, i: nat, platform: Word, jmp: Word)
    requires p.Valid() && Contains(p, i, BlrCode(platform, jmp)) && s.pc == p.Address(i)
    ensures Run(p, world, s, 2) == s.(
      regs := s.regs[FP := (s.sp - 16) % WRAP], sp := (s.sp - 16) % WRAP, pc := (s.pc + 8) % WRAP,
      mem := Store2(s.mem, (s.sp - 16) % WRAP, s.regs[FP], s.regs[LR]))
  {
    hide Decode, MovX1, Contains, Step;
    StpDecodes();
    MovFpDecodes();
    PcIn(p, i, BlrCode(platform, jmp), 2);
    StepIn(p, world, s, i, BlrCode(platform, jmp), 0, StpPre(29, 30, 31, -16));
    StepIn(p, world, Step(p, world, s), i, BlrCode(platform, jmp), 1, AddImm(29, 31, 0));
    Run2(p, world, s);
  }

  ghost predicate Patched(p: Program, site: nat, opcode: Word, slot: nat) {
    && IsBranchOpcode(opcode) && 0 <= slot - site < 0x200_0000
    && Contains(p, site, [BranchWord(opcode, slot - site)])
  }

  /** The copy at address slot is reached from a site in state s. */
  function Arrived(s: State, opcode: Word, slot: DWord): State {
    s.(regs := if opcode == DO_BL then s.regs[LR := (s.pc + 4) % WRAP] else s.regs, pc := slot)
  }

  lemma SiteBranches(p: Program, world: World, s: State, site: nat, opcode: Word, slot: nat)
    requires p.Valid() && slot < |p.words| && s.pc == p.Address(site) && Patched(p, site, opcode, slot)
    ensures Step(p, world, s) == Arrived(s, opcode, p.Address(slot))
    ensures p.Holds(s.pc) && !IsIndirectJump(Decode(p.At(s.pc)))
  {
    hide Decode, BranchWord, Contains;
    var d := slot - site;
    BranchDecodes(d);
    StepIn(p, world, s, site, [BranchWord(opcode, d)], 0, if opcode == DO_BL then BL(4 * d) else B(4 * d));
  }

  predicate IsIndirectJump(i: Insn) {
    i.BR? || i.BLR?
  }

  /** The state in front of the copy's own `blr`. */
  function BeforeCall(s: State, platform: Word): State {
    State(
      s.regs[FP := (s.sp - 16) % WRAP][1 := Forced(s.regs[1], platform)],
      (s.sp - 16) % WRAP,
      (s.pc + 20) % WRAP,
      Compare(s.regs[1], 10),
      Store2(s.mem, (s.sp - 16) % WRAP, s.regs[FP], s.regs[LR]))
  }

  lemma CallApproaches(p: Program, world: World, s: State, slot: nat, platform: Word, jmp: Word)
    requires p.Valid() && platform & 0xffff == platform
    requires s.pc == p.Address(slot) && Contains(p, slot, BlrCode(platform, jmp))
    ensures Run(p, world, s, 2 + CheckSteps(s)) == BeforeCall(s, platform)
  {
    hide MovX1, Contains, Step, Run, Value, Compare, Store2;
    var code := BlrCode(platform, jmp);
    PcIn(p, slot, code, 7);
    Prologue(p, world, s, slot, platform, jmp);
    var s1 := Run(p, world, s, 2);
    CheckRuns(p, world, s1, slot, code, 2, platform);
    RunAdd(p, world, s, 2, CheckSteps(s1));
  }

  lemma ExecCall(world: World, s: State, platform: Word, n: nat)
    requires n < 32 && s.pc + 24 < WRAP
    ensures Exec(world, BLR(n), BeforeCall(s, platform)) == Entered(s, platform, SlotTarget(s, platform, n))
  {
    hide Compare, Store2, Value;
    var t := BeforeCall(s, platform);
    UpdateOrder(s.regs, t.regs[FP], t.regs[1], (t.pc + 4) % WRAP);
    assert X(t, n) == SlotTarget(s, platform, n);
  }

  /** Running a copy made for a call, up to its own call: for every register n, the exact state in which the callee starts. */
  lemma CallEnters(p: Program, world: World, s: State, slot: nat, platform: Word, jmp: Word, n: nat)
    requires p.Valid() && platform & 0xffff == platform && n < 32
    requires s.pc == p.Address(slot) && Contains(p, slot, BlrCode(platform, jmp)) && Decode(jmp) == BLR(n)
    ensures Run(p, world, s, 3 + CheckSteps(s)) == Entered(s, platform, SlotTarget(s, platform, n))
  {
    hide Decode, MovX1, Contains, Step, Run, Exec, Entered, SlotTarget, CheckSteps;
    var code := BlrCode(platform, jmp);
    PcIn(p, slot, code, 7);
    CallApproaches(p, world, s, slot, platform, jmp);
    var t := BeforeCall(s, platform);
    StepIn(p, world, t, slot, code, 5, BLR(n));
    ExecCall(world, s, platform, n);
    RunOne(p, world, t);
    RunAdd(p, world, s, 2 + CheckSteps(s), 1);
  }

  lemma UpdateOrder(r: Registers, b: DWord, c: DWord, d: DWord)
    ensures r[FP := b][1 := c][LR := d] == r[1 := c][FP := b][LR := d]
  {
  }

  lemma RunOne(p: Program, world: World, s: State)
    ensures Run(p, world, s, 1) == Step(p, world, s)
  {
    hide Step;
    assert Run(p, world, Step(p, world, s), 0) == Step(p, world, s);
  }

  /** ldp; ret: back at the address that the site saved. */
  lemma CallReturns(p: Program, world: World, s: State, slot: nat, platform: Word, jmp: Word)
    requires p.Valid() && Contains(p, slot, BlrCode(platform, jmp))
    requires s.pc == p.Address(slot) + 24
    ensures Run(p, world, s, 2) == s.(
      regs := s.regs[FP := s.mem(s.sp)][LR := s.mem((s.sp + 8) % WRAP)],
      sp := (s.sp + 16) % WRAP, pc := s.mem((s.sp + 8) % WRAP))
  {
    hide Decode, MovX1, Contains, Step;
    var code := BlrCode(platform, jmp);
    LdpDecodes();
    RetDecodes();
    PcIn(p, slot, code, 7);
    StepIn(p, world, s, slot, code, 6, LdpPost(29, 30, 31, 16));
    StepIn(p, world, Step(p, world, s), slot, code, 7, RET(30));
    Run2(p, world, s);
  }

  /** Entered in state s, a copy for a jump goes on in this state. */
  function Left(s: State, platform: Word, n: nat): State {
    var x1 := Forced(s.regs[1], platform);
    s.(regs := s.regs[1 := x1], flags := Compare(s.regs[1], 10), pc := if n == 1 then x1 else X(s, n))
  }

  /** Running a copy made for a jump: x1 and the flags change, nothing else, and then the copy's own jump is taken. */
  lemma JumpLeaves(p: Program, world: World, s: State, slot: nat, platform: Word, jmp: Word, n: nat)
    requires p.Valid() && platform & 0xffff == platform && n < 32
    requires s.pc == p.Address(slot) && Contains(p, slot, BrCode(platform, jmp)) && Decode(jmp) == BR(n)
    ensures Run(p, world, s, 1 + CheckSteps(s)) == Left(s, platform, n)
  {
    hide Decode, MovX1, Contains, Step, Run, Value, Compare, CheckSteps;
    var code := BrCode(platform, jmp);
    PcIn(p, slot, code, 3);
    CheckRuns(p, world, s, slot, code, 0, platform);
    var t := Run(p, world, s, CheckSteps(s));
    StepIn(p, world, t, slot, code, 3, BR(n));
    RunOne(p, world, t);
    RunAdd(p, world, s, CheckSteps(s), 1);
  }
}

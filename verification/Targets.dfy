/** Where a patched site goes, and exactly when that is where the original went. */
module Targets {
  import opened Bits
  import opened Machine
  import opened PlatformPatch
  import opened Shellcode
  import opened Simulation
  import opened Slots
  import opened Templates
  import opened Wrappers

  /** The state after the first indirect jump or call that is executed, if that is among the next fuel instructions. */
  function FirstJump(p: Program, world: World, s: State, fuel: nat): Option<State>
    decreases fuel
  {
    if fuel == 0 || !p.Holds(s.pc) then None
    else if IsIndirectJump(Decode(p.At(s.pc))) then Some(Step(p, world, s))
    else FirstJump(p, world, Step(p, world, s), fuel - 1)
  }

  lemma Passes(p: Program, world: World, s: State, i: nat, code: seq<Word>, j: nat, insn: Insn, fuel: nat)
    requires Contains(p, i, code) && j < |code| && fuel > 0
    requires s.pc == p.Address(i) + 4 * j && Decode(code[j]) == insn && !IsIndirectJump(insn)
    ensures FirstJump(p, world, s, fuel) == FirstJump(p, world, Exec(world, insn, s), fuel - 1)
  {
    hide Decode, Exec, Contains, Step;
    StepIn(p, world, s, i, code, j, insn);
  }

  lemma Arrives(p: Program, world: World, s: State, i: nat, code: seq<Word>, j: nat, insn: Insn, fuel: nat)
    requires Contains(p, i, code) && j < |code| && fuel > 0
    requires s.pc == p.Address(i) + 4 * j && Decode(code[j]) == insn && IsIndirectJump(insn)
    ensures FirstJump(p, world, s, fuel) == Some(Exec(world, insn, s))
  {
    hide Decode, Exec, Contains, Step;
    StepIn(p, world, s, i, code, j, insn);
  }

  lemma ComparePasses(p: Program, world: World, s: State, i: nat, code: seq<Word>, j: nat, fuel: nat)
    requires p.Valid() && Contains(p, i, code) && j + 3 < |code| && fuel >= 2
    requires s.pc == p.Address(i) + 4 * j && code[j] == CMP_X1_10 && code[j + 1] == BEQ_8
    ensures FirstJump(p, world, s, fuel) == FirstJump(p, world,
      s.(flags := Compare(s.regs[1], 10), pc := (s.pc + (if s.regs[1] == 10 then 12 else 8)) % WRAP), fuel - 2)
  {
    hide Decode, Contains, FirstJump;
    CmpDecodes();
    BeqDecodes();
    PcIn(p, i, code, j + 3);
    Passes(p, world, s, i, code, j, CmpImm(1, 10), fuel);
    Passes(p, world, Exec(world, CmpImm(1, 10), s), i, code, j + 1, BEq(8), fuel - 1);
  }

  lemma ForcedIs(world: World, s: State, platform: Word)
    requires s.regs[1] != 10
    ensures Exec(world, MovZ(1, Value(platform, 16)), s.(flags := Compare(s.regs[1], 10), pc := (s.pc + 8) % WRAP))
      == Checked(s, platform)
  {
    hide Value, Compare;
    assert PlatformValue(platform) == Value(platform, 16);
    assert ((s.pc + 8) % WRAP + 4) % WRAP == (s.pc + 12) % WRAP;
  }

  lemma CheckPasses(p: Program, world: World, s: State, i: nat, code: seq<Word>, j: nat, platform: Word, fuel: nat)
    requires p.Valid() && Contains(p, i, code) && j + 3 < |code| && fuel >= 3
    requires s.pc == p.Address(i) + 4 * j && platform & 0xffff == platform
    requires code[j] == CMP_X1_10 && code[j + 1] == BEQ_8 && code[j + 2] == MovX1(platform)
    ensures FirstJump(p, world, s, fuel) == FirstJump(p, world, Checked(s, platform), fuel - CheckSteps(s))
  {
    hide Decode, MovX1, Value, Contains, FirstJump, Compare, Exec;
    PcIn(p, i, code, j + 3);
    ComparePasses(p, world, s, i, code, j, fuel);
    var t := s.(flags := Compare(s.regs[1], 10), pc := (s.pc + (if s.regs[1] == 10 then 12 else 8)) % WRAP);
    if s.regs[1] == 10 {
      assert s.regs[1 := 10] == s.regs;
    } else {
      MovX1Decodes(platform);
      Passes(p, world, t, i, code, j + 2, MovZ(1, Value(platform, 16)), fuel - 2);
      ForcedIs(world, s, platform);
    }
  }

  lemma CallCopyJumps(p: Program, world: World, s: State, slot: nat, platform: Word, jmp: Word, n: nat)
    requires p.Valid() && platform & 0xffff == platform && n < 32
    requires s.pc == p.Address(slot) && Contains(p, slot, BlrCode(platform, jmp)) && Decode(jmp) == BLR(n)
    ensures FirstJump(p, world, s, 6) == Some(Entered(s, platform, SlotTarget(s, platform, n)))
  {
    hide Decode, MovX1, Contains, FirstJump, Entered, SlotTarget, Forced, Compare, Store2;
    var code := BlrCode(platform, jmp);
    PcIn(p, slot, code, 7);
    StpDecodes();
    MovFpDecodes();
    Passes(p, world, s, slot, code, 0, StpPre(29, 30, 31, -16), 6);
    var s1 := Exec(world, StpPre(29, 30, 31, -16), s);
    Passes(p, world, s1, slot, code, 1, AddImm(29, 31, 0), 5);
    var s2 := Exec(world, AddImm(29, 31, 0), s1);
    CheckPasses(p, world, s2, slot, code, 2, platform, 4);
    assert Checked(s2, platform) == BeforeCall(s, platform);
    Arrives(p, world, BeforeCall(s, platform), slot, code, 5, BLR(n), 4 - CheckSteps(s2));
    ExecCall(world, s, platform, n);
  }

  lemma JumpCopyJumps(p: Program, world: World, s: State, slot: nat, platform: Word, jmp: Word, n: nat)
    requires p.Valid() && platform & 0xffff == platform && n < 32
    requires s.pc == p.Address(slot) && Contains(p, slot, BrCode(platform, jmp)) && Decode(jmp) == BR(n)
    ensures FirstJump(p, world, s, 6) == Some(Left(s, platform, n))
  {
    hide Decode, MovX1, Contains, FirstJump, Forced, Compare;
    var code := BrCode(platform, jmp);
    PcIn(p, slot, code, 3);
    CheckPasses(p, world, s, slot, code, 0, platform, 6);
    Arrives(p, world, Checked(s, platform), slot, code, 3, BR(n), 6 - CheckSteps(s));
  }

  /** Whatever the registers: where the patched site at k first jumps or calls to, and in which state. */
  function SiteJump(job: Job, s: State, k: nat): State
    requires job.IsSiteAt(k) && job.Valid()
  {
    SlotInReach(job, k);
    var slot := job.orig.Address(SlotOf(job.orig.words, job.lo, k, job.region));
    var t := Arrived(s, OpcodeOf(job.orig.words[k]), slot);
    var n := Rn(job.CopyWord(k));
    if job.Deeper(k) then Entered(t, job.platform, SlotTarget(t, job.platform, n)) else Left(t, job.platform, n)
  }

  lemma SiteJumps(job: Job, patched: Program, world: World, s: State, k: nat)
    requires job.Valid() && job.Makes(patched) && job.IsSiteAt(k) && s.pc == patched.Address(k)
    ensures FirstJump(patched, world, s, 7) == Some(SiteJump(job, s, k))
  {
    hide IsBr, Rn, MovX1, IsIndirect, Copies, Contains, Patched, DoneUpTo, SlotOf, Arrived, Decode, Job.CopyWord, Job.Deeper;
    hide Entered, SlotTarget, Left, Step, IsIndirectJump;
    var w := job.orig.words[k];
    var slot := SlotOf(job.orig.words, job.lo, k, job.region);
    SlotContains(job, patched, k);
    SiteBranches(patched, world, s, k, OpcodeOf(w), slot);
    ArrivedAt(s, OpcodeOf(w), patched.Address(slot));
    CopyJumps(job, patched, world, Arrived(s, OpcodeOf(w), patched.Address(slot)), k, slot);
  }

  lemma CopyJumps(job: Job, patched: Program, world: World, t: State, k: nat, slot: nat)
    requires patched.Valid() && job.platform & 0xffff == job.platform && job.IsSiteAt(k) && t.pc == patched.Address(slot)
    requires job.Deeper(k) ==> Contains(patched, slot, BlrCode(job.platform, job.CopyWord(k)))
    requires !job.Deeper(k) ==> Contains(patched, slot, BrCode(job.platform, job.CopyWord(k)))
    requires IsIndirect(job.CopyWord(k))
    ensures var n := Rn(job.CopyWord(k));
      FirstJump(patched, world, t, 6) ==
        Some(if job.Deeper(k) then Entered(t, job.platform, SlotTarget(t, job.platform, n)) else Left(t, job.platform, n))
  {
    hide IsBr, Rn, MovX1, IsIndirect, Contains, Decode, Job.CopyWord, Entered, SlotTarget, Left, FirstJump, BrCode, BlrCode;
    var c := job.CopyWord(k);
    DecodeSite(c);
    RnSmall(c);
    if job.Deeper(k) {
      CallCopyJumps(patched, world, t, slot, job.platform, c, Rn(c));
    } else {
      JumpCopyJumps(patched, world, t, slot, job.platform, c, Rn(c));
    }
  }

  // Sample states.

  function Sample(pc: DWord, n: nat, v: DWord, other: DWord): State {
    State(seq(31, i => if i == n then v else other), 0x1016, pc, Flags(false, false, false, false), (_: int) => 0)
  }

  /** A state in which the copy for a call through register n goes astray. */
  lemma CallAstray(platform: Word, pc: DWord, opcode: Word, slot: DWord, m: nat, n: nat) returns (s: State)
    requires m < 32 && n < 32
    requires m != n || n == 1 || n == FP || (n == LR && opcode == DO_BL)
    requires m != n ==> opcode != DO_BL
    ensures s.pc == pc && SlotTarget(Arrived(s, opcode, slot), platform, m) != X(s, n)
  {
    hide Value, PlatformValue;
    var other := if pc + 4 == 9 then 8 else 9;
    if n == 1 {
      s := Sample(pc, 1, if PlatformValue(platform) == 7 then 6 else 7, 9);
    } else if m == 1 {
      s := Sample(pc, 1, 10, 9);
    } else if m != n {
      s := Sample(pc, m, 7, 9);
    } else {
      s := Sample(pc, 31, 0, other);
    }
  }

  /** A state in which the copy for a jump through register m misses what register n holds. */
  lemma JumpAstray(platform: Word, pc: DWord, opcode: Word, slot: DWord, m: nat, n: nat) returns (s: State)
    requires m < 32 && n < 32 && opcode != DO_BL && (m != n || n == 1)
    ensures s.pc == pc && Left(Arrived(s, opcode, slot), platform, m).pc != X(s, n)
  {
    hide Value, PlatformValue, Compare;
    if n == 1 {
      s := Sample(pc, 1, if PlatformValue(platform) == 7 then 6 else 7, 9);
    } else if m == 1 {
      s := Sample(pc, 1, 10, 9);
    } else {
      s := Sample(pc, m, 7, 9);
    }
  }

  /** A copy that is reached by a branch of its own kind goes where the site went, exactly when its register is none of these. */
  lemma RegistersExact(platform: Word, slot: DWord, n: nat)
    requires n < 32
    ensures (forall s: State :: SlotTarget(Arrived(s, DO_BL, slot), platform, n) == X(s, n)) <==> n != 1 && n != FP && n != LR
    ensures (forall s: State :: Left(Arrived(s, DO_B, slot), platform, n).pc == X(s, n)) <==> n != 1
  {
    hide Value, PlatformValue, Compare;
    if n == 1 || n == FP || n == LR {
      var s := CallAstray(platform, 0, DO_BL, slot, n, n);
    }
    if n == 1 {
      var s := JumpAstray(platform, 0, DO_B, slot, n, n);
    }
  }

  lemma TargetKept(job: Job, s: State, k: nat)
    requires job.Valid() && job.IsSiteAt(k) && job.TargetOk(k)
    ensures SiteJump(job, s, k).pc == Target(s, job.orig.words[k])
  {
    hide IsBr, Rn, IsIndirect, Copies, SlotOf, FirstSite, Forced, Compare, Store2, Arrived, SlotTarget;
    var w := job.orig.words[k];
    SlotInReach(job, k);
    var slot := job.orig.Address(SlotOf(job.orig.words, job.lo, k, job.region));
    if job.Deeper(k) {
      ArrivedTarget(s, w, slot, job.platform, Rn(w));
    } else {
      ArrivedKeeps(s, OpcodeOf(w), slot, Rn(w));
    }
  }

  lemma ArrivedKeeps(s: State, opcode: Word, slot: DWord, n: nat)
    requires opcode != DO_BL
    ensures X(Arrived(s, opcode, slot), n) == X(s, n)
  {
  }

  lemma TargetMissed(job: Job, k: nat) returns (s: State)
    requires job.Valid() && job.IsSiteAt(k) && !job.TargetOk(k)
    ensures s.pc == job.orig.Address(k) && SiteJump(job, s, k).pc != Target(s, job.orig.words[k])
  {
    hide IsBr, Rn, IsIndirect, Copies, SlotOf, Arrived, SlotTarget, Compare, Store2, Forced;
    var w, c := job.orig.words[k], job.CopyWord(k);
    SlotInReach(job, k);
    RnSmall(w);
    RnSmall(c);
    var slot := job.orig.Address(SlotOf(job.orig.words, job.lo, k, job.region));
    if job.Deeper(k) {
      s := CallAstray(job.platform, job.orig.Address(k), OpcodeOf(w), slot, Rn(c), Rn(w));
    } else {
      s := JumpAstray(job.platform, job.orig.Address(k), OpcodeOf(w), slot, Rn(c), Rn(w));
    }
  }

  /**
  What a site needs, run by run: from every state, the patched site first jumps or calls to where the
  original went, exactly when its copy goes through the same register, which the copy has not changed.
   */
  lemma TargetExact(job: Job, patched: Program, world: World, k: nat)
    requires job.Valid() && job.Makes(patched) && job.IsSiteAt(k)
    ensures (forall s: State :: s.pc == patched.Address(k) ==>
        FirstJump(patched, world, s, 7).Some? && FirstJump(patched, world, s, 7).value.pc == Target(s, job.orig.words[k]))
      <==> job.TargetOk(k)
  {
    hide FirstJump, SiteJump, Job.TargetOk, IsIndirect, Target, Job.Makes, Job.Valid;
    if job.TargetOk(k) {
      forall s: State | s.pc == patched.Address(k)
        ensures FirstJump(patched, world, s, 7).Some? && FirstJump(patched, world, s, 7).value.pc == Target(s, job.orig.words[k])
      {
        SiteJumps(job, patched, world, s, k);
        TargetKept(job, s, k);
      }
    } else {
      var s := TargetMissed(job, k);
      SameBase(job, patched);
      SiteJumps(job, patched, world, s, k);
    }
  }

  lemma SameBase(job: Job, patched: Program)
    requires job.Valid() && job.Makes(patched)
    ensures patched.base == job.orig.base
  {
  }

  /** The jump of the original, with x1 forced, and the flags of the compare */
  function Jumped(s: State, w: Word, platform: Word): State {
    EnterForced(s, w, platform).(flags := Compare(s.regs[1], 10))
  }

  /** A br is determined by its register. */
  lemma SameJump(w: Word, v: Word)
    requires IsBr(w) && IsBr(v) && Rn(w) == Rn(v)
    ensures w == v
  {
    hide Value;
    SmallValues();
    SameField(w >> 5, v >> 5, 5);
  }

  lemma DeeperIsNoJump(job: Job, s: State, k: nat)
    requires job.Valid() && job.IsSiteAt(k) && job.Deeper(k) && IsBr(job.orig.words[k])
    ensures SiteJump(job, s, k) != Jumped(s, job.orig.words[k], job.platform)
  {
    hide IsBr, Rn, IsIndirect, Copies, SlotOf, Job.CopyWord, Forced, Compare, Store2, SlotTarget;
    var u := SiteJump(job, s, k);
    assert u.sp == (s.sp - 16) % WRAP;
    assert u.sp != s.sp;
  }

  lemma SharedIsJump(job: Job, s: State, k: nat)
    requires job.Valid() && job.IsSiteAt(k) && IsBr(job.orig.words[k])
    requires job.CopyWord(k) == job.orig.words[k] && Rn(job.orig.words[k]) != 1
    ensures SiteJump(job, s, k) == Jumped(s, job.orig.words[k], job.platform)
  {
    hide Rn, IsIndirect, Copies, SlotOf, Job.CopyWord, Forced, Compare, Store2, SlotTarget;
  }

  /**
  A patched jump does what the jump did, but for x1 and the flags, from every state, exactly when the
  first site of the range is the same jump, and does not go through x1.
   */
  lemma JumpExact(job: Job, patched: Program, world: World, k: nat)
    requires job.Valid() && job.Makes(patched) && job.IsSiteAt(k) && IsBr(job.orig.words[k])
    ensures (forall s: State :: s.pc == patched.Address(k) ==>
        FirstJump(patched, world, s, 7) == Some(Jumped(s, job.orig.words[k], job.platform)))
      <==> job.orig.words[FirstSite(job.orig.words, job.lo, k)] == job.orig.words[k] && Rn(job.orig.words[k]) != 1
  {
    hide FirstJump, SiteJump, IsIndirect, IsBr, Rn, Job.Makes, Job.Valid, Jumped, FirstSite;
    var w := job.orig.words[k];
    SameBase(job, patched);
    if job.CopyWord(k) == w && Rn(w) != 1 {
      forall s: State | s.pc == patched.Address(k)
        ensures FirstJump(patched, world, s, 7) == Some(Jumped(s, w, job.platform))
      {
        SiteJumps(job, patched, world, s, k);
        SharedIsJump(job, s, k);
      }
    } else {
      var s := JumpMissed(job, k);
      SiteJumps(job, patched, world, s, k);
    }
  }

  lemma JumpMissed(job: Job, k: nat) returns (s: State)
    requires job.Valid() && job.IsSiteAt(k) && IsBr(job.orig.words[k])
    requires job.CopyWord(k) != job.orig.words[k] || Rn(job.orig.words[k]) == 1
    ensures s.pc == job.orig.Address(k) && SiteJump(job, s, k) != Jumped(s, job.orig.words[k], job.platform)
  {
    hide SiteJump, IsIndirect, IsBr, Rn, Copies, FirstSite, Compare, Forced;
    if job.Deeper(k) {
      s := Sample(job.orig.Address(k), 0, 0, 0);
      DeeperIsNoJump(job, s, k);
    } else {
      if Rn(job.CopyWord(k)) == Rn(job.orig.words[k]) {
        SameJump(job.CopyWord(k), job.orig.words[k]);
      }
      s := TargetMissed(job, k);
    }
  }
}

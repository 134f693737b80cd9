/** The simulation at work: a function that pushes, calls and loads, and a callee with a frame of its own. */
module Sample {
  import opened Bits
  import opened Machine
  import opened PlatformPatch
  import opened Shellcode
  import opened Simulation
  import opened Slots
  import opened Templates
  import opened Wrappers

  function Put(m: int -> DWord, a: DWord, v: DWord): int -> DWord {
    (b: int) => if b == a then v else m(b)
  }

  /** stp fp, lr, [sp, -16]!; ldr x2, [x0]; str x3, [x0]; ldp fp, lr, [sp], 16; ret */
  function Touch(s: State): State {
    var m := Store2(s.mem, (s.sp - 16) % WRAP, s.regs[FP], s.regs[LR]);
    s.(pc := s.regs[LR], regs := s.regs[2 := m(s.regs[0])], mem := Put(m, s.regs[0], s.regs[3]))
  }

  /** ldr x0, [x0] */
  function Follow(s: State): State {
    Next(s.(regs := s.regs[0 := s.mem(s.regs[0])]))
  }

  const TOUCH: World := World((s: State) => Touch(s), (w: Word, s: State) => Follow(s))

  const TOUCHES: Worlds := Worlds(TOUCH, TOUCH)

  lemma TouchReturns(g: Gap, e: State, t: State)
    requires EnteredDeeper(g, e, t) && e.sp >= 32 && e.regs[0] !in g.cells && !(e.sp - 32 <= e.regs[0] < e.sp)
    ensures BothReturn(e, t, Touch(e), Touch(t))
    ensures MemAgree(g.cells + Stack(e.sp - 32, e.sp), Touch(e).mem, Touch(t).mem)
  {
    hide Stack, Touch;
    TouchPlace(e);
    TouchPlace(t);
    assert e.regs[0] == t.regs[0] && e.regs[3] == t.regs[3];
    assert e.mem(e.regs[0]) == t.mem(e.regs[0]);
    forall a: int | a !in g.cells + Stack(e.sp - 32, e.sp)
      ensures Touch(e).mem(a) == Touch(t).mem(a)
    {
      if e.sp - 32 <= a < e.sp {
        OnStack(e.sp - 32, a, e.sp);
      }
    }
  }

  /** What the callee does, without wrap-around */
  lemma TouchPlace(s: State)
    requires s.sp >= 16 && !(s.sp - 16 <= s.regs[0] < s.sp)
    ensures var t := Touch(s);
      && t.pc == s.regs[LR] && t.sp == s.sp && t.regs == s.regs[2 := s.mem(s.regs[0])]
      && forall a: int :: t.mem(a) ==
           if a == s.regs[0] then s.regs[3] else if a == s.sp - 8 then s.regs[LR] else if a == s.sp - 16 then s.regs[FP]
           else s.mem(a)
  {
    assert (s.sp - 16) % WRAP == s.sp - 16 && (s.sp - 16 + 8) % WRAP == s.sp - 8;
  }

  lemma OnStack(limit: int, a: int, top: int)
    requires limit <= a < top
    ensures a in Stack(limit, top)
  {
    assert Between(limit, a, top);
  }

  /** The callee can be called wherever x0 points outside the gap and its own part of the stack. */
  lemma TouchIsCallable(g: Gap, e: State)
    requires e.sp >= 32 && e.regs[0] !in g.cells && !(e.sp - 32 <= e.regs[0] < e.sp)
    ensures Callable(TOUCHES, g, e) && KeepsCall(TOUCHES, g, e.sp - 32, e)
  {
    hide EnteredDeeper, BothReturn, MemAgree, Touch, Stack;
    forall t: State | EnteredDeeper(g, e, t)
      ensures BothReturn(e, t, TOUCH.foreign(e), TOUCH.foreign(t))
      ensures MemAgree(g.cells + Stack(e.sp - 32, e.sp), TOUCH.foreign(e).mem, TOUCH.foreign(t).mem)
    {
      TouchReturns(g, e, t);
    }
  }

  /** So can the load be executed. */
  lemma FollowIsSteady(w: Word, g: Gap, s: State)
    requires s.regs[0] !in g.cells
    ensures Steady(TOUCHES, Some(w), g, s) && Keeps(TOUCHES, Some(w), g, s)
  {
  }

  /** ldr x0, [sp]; ret: an argument on the stack */
  const STACK_ARGUMENT: World := World((s: State) => s.(regs := s.regs[0 := s.mem(s.sp)], pc := s.regs[LR]), (w: Word, s: State) => s)

  /** A callee that finds an argument relative to sp finds the frame record instead: it is never callable. */
  lemma StackArgumentIsNotCallable(g: Gap, e: State)
    requires e.sp >= 16
    ensures !Callable(Worlds(STACK_ARGUMENT, STACK_ARGUMENT), g, e)
  {
    var v: DWord := if e.mem(e.sp) == 0 then 1 else 0;
    var t := e.(sp := e.sp - 16, mem := Put(e.mem, e.sp - 16, v));
    assert EnteredDeeper(g, e, t);
    assert STACK_ARGUMENT.foreign(e).regs[0] != STACK_ARGUMENT.foreign(t).regs[0];
  }

  const LDR_X0: Word := 0xf940_0000
  const BLR_X8: Word := 0xd63f_0100

  /** stp fp, lr, [sp, -16]!; blr x8; ldr x0, [x0]; ldp fp, lr, [sp], 16; ret; and room for one copy */
  const FRAMED: seq<Word> := [STP_FP_LR, BLR_X8, LDR_X0, LDP_FP_LR, RETURN, 0, 0, 0, 0, 0, 0, 0, 0]

  function FramedJob(base: DWord, platform: Word): Job {
    Job(Program(base, FRAMED, {0, 1, 2, 3, 4, 5, 6, 7, 8, 9, 10, 11, 12}), 0, 5, 5, platform)
  }

  lemma LdrDecodes()
    ensures Decode(LDR_X0) == Other(LDR_X0)
  {
    hide Value, SignedValue, PageBits, Rn, Rd, Imm12;
  }

  lemma FramedWords()
    ensures !IsIndirect(STP_FP_LR) && !IsIndirect(LDR_X0) && !IsIndirect(LDP_FP_LR) && !IsIndirect(RETURN)
    ensures IsIndirect(BLR_X8) && !IsBr(BLR_X8)
  {
  }

  lemma BlrX8Register()
    ensures Rn(BLR_X8) == 8
  {
    hide Value, Ones, Pow2;
    SmallValues();
    Eight();
    Field(BLR_X8 >> 5, 5, 5, 8);
  }

  lemma Eight()
    ensures Value(8, 5) == 8
  {
    assert Value(4, 4) == 4;
  }

  lemma FramedCopies()
    ensures Copies(FRAMED, 0, 5) == 1
  {
    hide IsIndirect, IsBr;
    FramedWords();
    assert Copies(FRAMED, 0, 1) == 0;
    assert Copies(FRAMED, 0, 2) == 1;
    assert Copies(FRAMED, 0, 3) == 1;
    assert Copies(FRAMED, 0, 4) == 1;
  }

  lemma FramedIsValid(base: DWord, platform: Word)
    requires base + 52 <= WRAP && platform & 0xffff == platform
    ensures FramedJob(base, platform).Valid()
  {
    hide Copies;
    FramedCopies();
  }

  /** Where the function is in the run. */
  lemma FramedAt(base: DWord, platform: Word, i: nat)
    requires i < 5 && base + 52 <= WRAP
    ensures var job := FramedJob(base, platform);
      && job.orig.Holds(base + 4 * i) && job.orig.Index(base + 4 * i) == i && job.orig.At(base + 4 * i) == FRAMED[i]
      && (job.IsSite(base + 4 * i) <==> i == 1) && !job.InCopies(base + 4 * i)
  {
    hide IsIndirect, IsBr, Copies;
    FramedWords();
    assert (base + 4 * i - base) / 4 == i;
  }

  /** A step that is not the call. */
  lemma FramedStep(base: DWord, platform: Word, i: nat, g: Gap, limit: int, top: int, s: State)
    requires i < 5 && i != 1 && base + 52 <= WRAP && s.pc == base + 4 * i
    ensures var job, insn := FramedJob(base, platform), Decode(FRAMED[i]);
      && ForcedStep(job, TOUCH, s) == Exec(TOUCH, insn, s) && NextGap(job, TOUCHES, g, s) == InsnGap(TOUCHES, g, insn, s)
      && (Proper(job, TOUCHES, g, s) <==> InsnOk(TOUCHES, g, insn, s))
      && (Tidy(job, TOUCHES, limit, top, g, s) <==> (insn.Other? ==> Keeps(TOUCHES, Some(insn.w), g, s)))
  {
    hide Decode, IsIndirect, IsBr, Copies, Job.TargetOk, Job.Deeper, Exec, InsnGap, InsnOk, Keeps;
    FramedAt(base, platform, i);
  }

  ghost predicate FramedStart(base: DWord, platform: Word, s: State) {
    && base + 52 <= WRAP && platform & 0xffff == platform && s.pc == base && s.sp >= 48
    && !(base <= s.regs[8] < base + 52) && !(s.sp - 48 <= s.regs[0] < s.sp)
  }

  function AfterPush(s: State): State {
    s.(sp := (s.sp - 16) % WRAP, pc := (s.pc + 4) % WRAP, mem := Store2(s.mem, (s.sp - 16) % WRAP, s.regs[FP], s.regs[LR]))
  }

  lemma Push(base: DWord, platform: Word, s: State)
    requires FramedStart(base, platform, s)
    ensures var job := FramedJob(base, platform);
      && ForcedStep(job, TOUCH, s) == AfterPush(s) && NextGap(job, TOUCHES, NO_GAP, s).cells == iset{}
      && Proper(job, TOUCHES, NO_GAP, s) && Tidy(job, TOUCHES, s.sp - 48, s.sp, NO_GAP, s)
  {
    hide Decode, ForcedStep, Proper, Tidy, NextGap;
    FramedStep(base, platform, 0, NO_GAP, s.sp - 48, s.sp, s);
    StpDecodes();
  }

  function AfterCall(s: State, platform: Word): State {
    Touch(EnterForced(AfterPush(s), BLR_X8, platform))
  }

  lemma Call(base: DWord, platform: Word, g: Gap, s: State)
    requires FramedStart(base, platform, s) && g.cells == iset{}
    ensures var job := FramedJob(base, platform);
      var s1 := AfterPush(s);
      && ForcedStep(job, TOUCH, s1) == AfterCall(s, platform)
      && Proper(job, TOUCHES, g, s1) && Tidy(job, TOUCHES, s.sp - 48, s.sp, g, s1)
      && NextGap(job, TOUCHES, g, s1).cells <= Stack(s.sp - 48, s.sp - 16)
  {
    hide Decode, IsIndirect, IsBr, Copies, Callable, KeepsCall, CallSpread, Touch, Forced, Rn, Stack;
    var job := FramedJob(base, platform);
    var s1 := AfterPush(s);
    FramedAt(base, platform, 1);
    FramedWords();
    BlrX8Register();
    assert (s.sp - 16) % WRAP == s.sp - 16 && (s.pc + 4) % WRAP == base + 4;
    var e := EnterForced(s1, BLR_X8, platform);
    assert e.sp == s.sp - 16 && e.regs[0] == s.regs[0] && e.pc == s.regs[8];
    TouchIsCallable(g, e);
    CallSpreadKept(TOUCHES, g, s.sp - 48, e);
  }

  lemma AfterCallIs(base: DWord, platform: Word, s: State)
    requires FramedStart(base, platform, s)
    ensures var s2 := AfterCall(s, platform);
      && s2.pc == base + 8 && s2.sp == s.sp - 16 && s2.regs[2] == s.mem(s.regs[0]) && s2.mem(s.regs[0]) == s.regs[3]
      && s2.regs[1] == Forced(s.regs[1], platform) && s2.regs[0] == s.regs[0]
      && s2.mem(s.sp - 16) == s.regs[FP] && s2.mem(s.sp - 8) == s.regs[LR]
  {
    hide IsBr, Rn, Forced;
    FramedWords();
    assert (s.sp - 16) % WRAP == s.sp - 16 && (s.sp - 16 + 8) % WRAP == s.sp - 8 && (s.sp - 32) % WRAP == s.sp - 32;
    assert (s.sp - 32 + 8) % WRAP == s.sp - 24;
  }

  lemma NotOnStack(g: Gap, limit: int, top: int, a: int)
    requires g.cells <= Stack(limit, top) && !(limit <= a < top)
    ensures a !in g.cells
  {
  }

  lemma Load(base: DWord, platform: Word, g: Gap, limit: int, top: int, s: State)
    requires base + 52 <= WRAP && s.pc == base + 8 && g.cells <= Stack(limit, s.sp) && !(limit <= s.regs[0] < s.sp)
    ensures var job := FramedJob(base, platform);
      && Proper(job, TOUCHES, g, s) && Tidy(job, TOUCHES, limit, top, g, s)
      && NextGap(job, TOUCHES, g, s).cells <= Stack(limit, s.sp)
      && ForcedStep(job, TOUCH, s) == Follow(s)
  {
    hide Decode, ForcedStep, Proper, Tidy, NextGap, Stack, Steady, Keeps, Spread;
    FramedStep(base, platform, 2, g, limit, top, s);
    LdrDecodes();
    NotOnStack(g, limit, s.sp, s.regs[0]);
    FollowIsSteady(LDR_X0, g, s);
    SpreadKept(TOUCHES, Some(LDR_X0), g, s);
  }

  lemma Pop(base: DWord, platform: Word, g: Gap, limit: int, top: int, s: State)
    requires base + 52 <= WRAP && s.pc == base + 12 && s.sp + 16 < WRAP && g.cells <= Stack(limit, s.sp)
    ensures var job := FramedJob(base, platform);
      && Proper(job, TOUCHES, g, s) && Tidy(job, TOUCHES, limit, top, g, s) && NextGap(job, TOUCHES, g, s) == g
      && ForcedStep(job, TOUCH, s) ==
         s.(regs := s.regs[FP := s.mem(s.sp)][LR := s.mem(s.sp + 8)], sp := s.sp + 16, pc := base + 16)
  {
    hide Decode, ForcedStep, Proper, Tidy, NextGap, Stack;
    FramedStep(base, platform, 3, g, limit, top, s);
    LdpDecodes();
    NotOnStack(g, limit, s.sp, s.sp);
    NotOnStack(g, limit, s.sp, s.sp + 8);
  }

  lemma Return(base: DWord, platform: Word, g: Gap, limit: int, top: int, s: State)
    requires base + 52 <= WRAP && s.pc == base + 16
    ensures var job := FramedJob(base, platform);
      && Proper(job, TOUCHES, g, s) && Tidy(job, TOUCHES, limit, top, g, s)
      && ForcedStep(job, TOUCH, s) == s.(pc := s.regs[LR])
  {
    hide Decode, ForcedStep, Proper, Tidy, NextGap;
    FramedStep(base, platform, 4, g, limit, top, s);
    RetDecodes();
  }

  /**
  The assumptions of the simulation hold on the whole run of the function, prologue to return, from
  every state whose x0 and x8 point elsewhere; and the run does what the function is for.
   */
  lemma FramedRun(base: DWord, platform: Word, s: State)
    requires FramedStart(base, platform, s)
    ensures var job := FramedJob(base, platform);
      && job.Valid() && ProperRun(job, TOUCHES, NO_GAP, s, 5) && TidyRun(job, TOUCHES, s.sp - 48, s.sp, NO_GAP, s, 5)
    ensures var r := ForcedRun(FramedJob(base, platform), TOUCH, s, 5);
      && r.pc == s.regs[LR] && r.sp == s.sp && r.regs[FP] == s.regs[FP] && r.regs[LR] == s.regs[LR]
      && r.regs[1] == Forced(s.regs[1], platform) && r.regs[0] == s.regs[3]
      && r.regs[2] == s.mem(s.regs[0]) && r.mem(s.regs[0]) == s.regs[3]
  {
    hide ForcedStep, Proper, Tidy, NextGap, AfterPush, AfterCall, Forced, Job.Valid, Stack, ForcedRun, ProperRun, TidyRun;
    var job := FramedJob(base, platform);
    var limit, top := s.sp - 48, s.sp;
    FramedIsValid(base, platform);
    Push(base, platform, s);
    var g1 := NextGap(job, TOUCHES, NO_GAP, s);
    var s1 := AfterPush(s);
    Call(base, platform, g1, s);
    var g2 := NextGap(job, TOUCHES, g1, s1);
    var s2 := AfterCall(s, platform);
    AfterCallIs(base, platform, s);
    Load(base, platform, g2, limit, top, s2);
    var g3 := NextGap(job, TOUCHES, g2, s2);
    var s3 := Follow(s2);
    Pop(base, platform, g3, limit, top, s3);
    var s4 := ForcedStep(job, TOUCH, s3);
    Return(base, platform, g3, limit, top, s4);
    NoMore(job, NextGap(job, TOUCHES, g3, s4), ForcedStep(job, TOUCH, s4), limit, top);
    OneMore(job, g3, s4, 0, limit, top);
    OneMore(job, g3, s3, 1, limit, top);
    OneMore(job, g2, s2, 2, limit, top);
    OneMore(job, g1, s1, 3, limit, top);
    OneMore(job, NO_GAP, s, 4, limit, top);
  }

  lemma NoMore(job: Job, g: Gap, s: State, limit: int, top: int)
    requires job.end <= |job.orig.words|
    ensures ProperRun(job, TOUCHES, g, s, 0) && TidyRun(job, TOUCHES, limit, top, g, s, 0) && ForcedRun(job, TOUCH, s, 0) == s
  {
  }

  lemma OneMore(job: Job, g: Gap, s: State, n: nat, limit: int, top: int)
    requires job.end <= |job.orig.words| && Proper(job, TOUCHES, g, s) && Tidy(job, TOUCHES, limit, top, g, s)
    requires ProperRun(job, TOUCHES, NextGap(job, TOUCHES, g, s), ForcedStep(job, TOUCH, s), n)
    requires TidyRun(job, TOUCHES, limit, top, NextGap(job, TOUCHES, g, s), ForcedStep(job, TOUCH, s), n)
    ensures ProperRun(job, TOUCHES, g, s, n + 1) && TidyRun(job, TOUCHES, limit, top, g, s, n + 1)
    ensures ForcedRun(job, TOUCH, s, n + 1) == ForcedRun(job, TOUCH, ForcedStep(job, TOUCH, s), n)
  {
    hide ForcedStep, Proper, Tidy, NextGap;
  }
}

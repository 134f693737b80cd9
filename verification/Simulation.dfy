/** The patched code does what the original does, with x1 forced at every indirect call or jump of the function. */
module Simulation {
  import opened Bits
  import opened Finder
  import opened Machine
  import opened PlatformPatch
  import opened Shellcode
  import opened Slots
  import opened Templates
  import opened Wrappers

  // Two states that agree up to a gap.

  /** Where the two runs may differ at the moment: in these cells of the memory, and in the flags. */
  datatype Gap = Gap(cells: iset<int>, flags: bool)

  ghost const NO_GAP: Gap := Gap(iset{}, false)

  ghost predicate MemAgree(cells: iset<int>, m: int -> DWord, m': int -> DWord) {
    forall a: int :: a !in cells ==> m(a) == m'(a)
  }

  predicate SamePlace(s: State, t: State) {
    s.regs == t.regs && s.sp == t.sp && s.pc == t.pc
  }

  ghost predicate Agree(g: Gap, s: State, t: State) {
    SamePlace(s, t) && (g.flags || s.flags == t.flags) && MemAgree(g.cells, s.mem, t.mem)
  }

  /**
  The world of the original and that of the patched code: foreign code that calls back into the function may
  do different things in the two.
   */
  datatype Worlds = Worlds(before: World, after: World)

  /** What the world makes of a state: foreign code, or a word that this machine does not decode. */
  function Outcome(world: World, w: Option<Word>, s: State): State {
    match w
    case None => world.foreign(s)
    case Some(word) => world.other(word, s)
  }

  /** Started in s, neither world looks into the gap to find registers, sp and pc, and they find the same. */
  ghost predicate Steady(worlds: Worlds, w: Option<Word>, g: Gap, s: State) {
    forall t: State :: Agree(g, s, t) ==> SamePlace(Outcome(worlds.before, w, s), Outcome(worlds.after, w, t))
  }

  /** The gap that the worlds leave, when they start with gap g: what they compute from the gap, no more. */
  ghost function Spread(worlds: Worlds, w: Option<Word>, g: Gap, s: State): Gap {
    Gap(iset a: int |
          exists t: State :: Agree(g, s, t) && Outcome(worlds.before, w, s).mem(a) != Outcome(worlds.after, w, t).mem(a),
        exists t: State :: Agree(g, s, t) && Outcome(worlds.before, w, s).flags != Outcome(worlds.after, w, t).flags)
  }

  // Callees entered with one frame record more on the stack.

  predicate RegsAgreeButLinks(r: Registers, r': Registers) {
    forall n :: 0 <= n < 31 && n != FP && n != LR ==> r[n] == r'[n]
  }

  /** The same callee entered twice, the second time below a frame record; the flags are any. */
  ghost predicate EnteredDeeper(g: Gap, s: State, t: State) {
    && t.sp + 16 == s.sp && s.pc == t.pc
    && RegsAgreeButLinks(s.regs, t.regs) && MemAgree(g.cells + iset{s.sp - 16, s.sp - 8}, s.mem, t.mem)
  }

  /** Both calls return to their callers (AAPCS64, section 6.1.1), and the frame record is still there. */
  predicate BothReturn(s: State, t: State, s': State, t': State) {
    && s'.pc == s.regs[LR] && t'.pc == t.regs[LR] && s'.sp == s.sp && t'.sp == t.sp
    && s'.regs[FP] == s.regs[FP] && s'.regs[LR] == s.regs[LR]
    && RegsAgreeButLinks(s'.regs, t'.regs)
    && t'.mem(t.sp) == t.mem(t.sp) && t'.mem(t.sp + 8) == t.mem(t.sp + 8)
  }

  /** A callee that is entered in e, and that a deeper frame makes no difference to. */
  ghost predicate Callable(worlds: Worlds, g: Gap, e: State) {
    forall t: State :: EnteredDeeper(g, e, t) ==> BothReturn(e, t, worlds.before.foreign(e), worlds.after.foreign(t))
  }

  /** The gap that a call leaves: the frame record, and what the callee puts in a different place or finds there. */
  ghost function CallSpread(worlds: Worlds, g: Gap, e: State): Gap {
    Gap(iset a: int |
          exists t: State :: EnteredDeeper(g, e, t) && worlds.before.foreign(e).mem(a) != worlds.after.foreign(t).mem(a),
        exists t: State :: EnteredDeeper(g, e, t) && worlds.before.foreign(e).flags != worlds.after.foreign(t).flags)
  }

  /** A program, the words of it that are scanned, where the copies go, and the platform they force. */
  datatype Job = Job(orig: Program, lo: nat, end: nat, region: nat, platform: Word) {
    ghost predicate Valid() {
      && orig.Valid() && RegionOk(orig.words, lo, end, region) && platform & 0xffff == platform
      && end <= region && region + 8 * Copies(orig.words, lo, end) <= lo + 0x200_0000
      && (forall k :: lo <= k < end ==> k in orig.code)
      && (forall k :: region <= k < region + 8 * Copies(orig.words, lo, end) ==> k in orig.code)
    }

    predicate IsSite(pc: int) {
      orig.Holds(pc) && lo <= orig.Index(pc) < end && IsIndirect(orig.At(pc))
    }

    predicate IsSiteAt(k: nat) {
      lo <= k < end <= |orig.words| && IsIndirect(orig.words[k])
    }

    predicate InCopies(pc: int)
      requires end <= |orig.words|
    {
      orig.Holds(pc) && region <= orig.Index(pc) < region + 8 * Copies(orig.words, lo, end)
    }

    /** The word that the copy of the site at k was made for: jumps share the first copy. */
    function CopyWord(k: nat): Word
      requires IsSiteAt(k)
    {
      if IsBr(orig.words[k]) then orig.words[FirstSite(orig.words, lo, k)] else orig.words[k]
    }

    /** The copy is one for a call. */
    predicate Deeper(k: nat)
      requires IsSiteAt(k)
    {
      !IsBr(CopyWord(k))
    }

    /** The copy goes through the register of the site, and has not changed it by then. */
    predicate TargetOk(k: nat)
      requires IsSiteAt(k)
    {
      var n := Rn(orig.words[k]);
      && Rn(CopyWord(k)) == n && n != 1
      && (Deeper(k) ==> n != FP && (n == LR ==> IsBr(orig.words[k])))
    }

    /** Loaded at the same place, with the words the scan leaves. */
    ghost predicate Makes(patched: Program)
      requires end <= |orig.words|
    {
      && patched.base == orig.base && patched.code == orig.code && |patched.words| == |orig.words|
      && DoneUpTo(orig.words, patched.words, lo, end, region, platform)
    }
  }

  // The intended program.

  function Target(s: State, w: Word): DWord {
    X(s, Rn(w))
  }

  /** A site of the original, with x1 forced: the state in which the target is entered. */
  function EnterForced(s: State, w: Word, platform: Word): State {
    var x1 := Forced(s.regs[1], platform);
    if IsBr(w) then s.(pc := Target(s, w), regs := s.regs[1 := x1])
    else s.(pc := Target(s, w), regs := s.regs[1 := x1][LR := (s.pc + 4) % WRAP])
  }

  /** The original, except that sites force x1. Where the copy makes a call, the site and its callee are one step. */
  function ForcedStep(job: Job, world: World, s: State): State {
    if job.IsSite(s.pc) then
      var k := job.orig.Index(s.pc);
      var e := EnterForced(s, job.orig.words[k], job.platform);
      if job.IsSiteAt(k) && job.Deeper(k) then world.foreign(e) else e
    else Step(job.orig, world, s)
  }

  function ForcedRun(job: Job, world: World, s: State, n: nat): State
    decreases n
  {
    if n == 0 then s else ForcedRun(job, world, ForcedStep(job, world, s), n - 1)
  }

  // What is asked of a step, and the gap it leaves.

  /** The doublewords that ldp and stp touch */
  function Pair(a: DWord): iset<int> {
    iset{a, (a + 8) % WRAP}
  }

  /** An instruction that does not look into the gap. */
  ghost predicate InsnOk(worlds: Worlds, g: Gap, i: Insn, s: State) {
    match i
    case LdpPost(_, _, n, _) => Pair(Base(s, n)) !! g.cells
    case BEq(_) => !g.flags
    case Other(w) => Steady(worlds, Some(w), g, s)
    case _ => true
  }

  /** Stores and compares close the gap where they write. */
  ghost function InsnGap(worlds: Worlds, g: Gap, i: Insn, s: State): Gap {
    match i
    case StpPre(_, _, n, off) => g.(cells := g.cells - Pair((Base(s, n) + off) % WRAP))
    case CmpImm(_, _) => g.(flags := false)
    case Other(w) => Spread(worlds, Some(w), g, s)
    case _ => g
  }

  /**
  One step of the intended run. It is not inside the copies, and does not look into the gap. Sites reach
  their targets; calls are to foreign code that can be called deeper, with sixteen bytes of stack to spare.
   */
  ghost predicate Proper(job: Job, worlds: Worlds, g: Gap, s: State)
    requires job.end <= |job.orig.words|
  {
    && !job.InCopies(s.pc)
    && if job.IsSite(s.pc) then
         var k := job.orig.Index(s.pc);
         var e := EnterForced(s, job.orig.words[k], job.platform);
         job.TargetOk(k) && (job.Deeper(k) ==> !job.orig.Holds(e.pc) && s.sp >= 16 && Callable(worlds, g, e))
       else if job.orig.Holds(s.pc) then InsnOk(worlds, g, Decode(job.orig.At(s.pc)), s)
       else Steady(worlds, None, g, s)
  }

  ghost function NextGap(job: Job, worlds: Worlds, g: Gap, s: State): Gap
    requires job.end <= |job.orig.words|
  {
    if job.IsSite(s.pc) then
      var k := job.orig.Index(s.pc);
      if job.Deeper(k) then CallSpread(worlds, g, EnterForced(s, job.orig.words[k], job.platform)) else g.(flags := true)
    else if job.orig.Holds(s.pc) then InsnGap(worlds, g, Decode(job.orig.At(s.pc)), s)
    else Spread(worlds, None, g, s)
  }

  ghost predicate ProperRun(job: Job, worlds: Worlds, g: Gap, s: State, n: nat)
    requires job.end <= |job.orig.words|
    decreases n
  {
    n == 0 ||
    (Proper(job, worlds, g, s) && ProperRun(job, worlds, NextGap(job, worlds, g, s), ForcedStep(job, worlds.before, s), n - 1))
  }

  ghost function GapAfter(job: Job, worlds: Worlds, g: Gap, s: State, n: nat): Gap
    requires job.end <= |job.orig.words|
    decreases n
  {
    if n == 0 then g else GapAfter(job, worlds, NextGap(job, worlds, g, s), ForcedStep(job, worlds.before, s), n - 1)
  }

  // Instructions that are not sites.

  lemma WorldAgrees(worlds: Worlds, w: Option<Word>, g: Gap, s: State, t: State)
    requires Steady(worlds, w, g, s) && Agree(g, s, t)
    ensures Agree(Spread(worlds, w, g, s), Outcome(worlds.before, w, s), Outcome(worlds.after, w, t))
  {
    hide Outcome, SamePlace;
  }

  lemma StoreAgrees(cells: iset<int>, m: int -> DWord, m': int -> DWord, a: DWord, v: DWord, v2: DWord)
    requires MemAgree(cells, m, m')
    ensures MemAgree(cells - Pair(a), Store2(m, a, v, v2), Store2(m', a, v, v2))
  {
  }

  lemma LoadAgrees(cells: iset<int>, m: int -> DWord, m': int -> DWord, a: DWord)
    requires MemAgree(cells, m, m') && Pair(a) !! cells
    ensures m(a) == m'(a) && m((a + 8) % WRAP) == m'((a + 8) % WRAP)
  {
    assert a in Pair(a) && (a + 8) % WRAP in Pair(a);
  }

  lemma StpAgrees(worlds: Worlds, g: Gap, i: Insn, s: State, t: State)
    requires Agree(g, s, t) && i.StpPre?
    ensures Agree(InsnGap(worlds, g, i, s), Exec(worlds.before, i, s), Exec(worlds.after, i, t))
  {
    hide MemAgree, Store2, Pair;
    StoreAgrees(g.cells, s.mem, t.mem, (Base(s, i.n) + i.off) % WRAP, X(s, i.t), X(s, i.t2));
  }

  lemma LdpAgrees(worlds: Worlds, g: Gap, i: Insn, s: State, t: State)
    requires Agree(g, s, t) && i.LdpPost? && InsnOk(worlds, g, i, s)
    ensures Agree(InsnGap(worlds, g, i, s), Exec(worlds.before, i, s), Exec(worlds.after, i, t))
  {
    hide MemAgree, Pair;
    LoadAgrees(g.cells, s.mem, t.mem, Base(s, i.n));
  }

  lemma ExecAgrees(worlds: Worlds, g: Gap, i: Insn, s: State, t: State)
    requires Agree(g, s, t) && InsnOk(worlds, g, i, s)
    ensures Agree(InsnGap(worlds, g, i, s), Exec(worlds.before, i, s), Exec(worlds.after, i, t))
  {
    hide MemAgree, Compare, Steady, Spread;
    if i.StpPre? {
      StpAgrees(worlds, g, i, s, t);
    } else if i.LdpPost? {
      LdpAgrees(worlds, g, i, s, t);
    } else if i.Other? {
      WorldAgrees(worlds, Some(i.w), g, s, t);
    }
  }

  /** A word that is not a site is the same word in both programs. */
  lemma SameWord(job: Job, patched: Program, pc: int)
    requires job.Valid() && job.Makes(patched)
    requires job.orig.Holds(pc) && !job.IsSite(pc) && !job.InCopies(pc)
    ensures patched.Holds(pc) && patched.At(pc) == job.orig.At(pc)
  {
    hide IsIndirect, Copies, SitePatched;
    assert Untouched(job.orig.words, job.lo, job.end, job.region, job.orig.Index(pc));
  }

  lemma PlainStep(job: Job, patched: Program, worlds: Worlds, g: Gap, s: State, t: State)
    requires job.Valid() && job.Makes(patched)
    requires Agree(g, s, t) && Proper(job, worlds, g, s) && !job.IsSite(s.pc)
    ensures Agree(NextGap(job, worlds, g, s), ForcedStep(job, worlds.before, s), Step(patched, worlds.after, t))
  {
    hide IsIndirect, Copies, DoneUpTo, Decode, Exec, MemAgree, InsnOk, InsnGap, Steady, Spread;
    if job.orig.Holds(s.pc) {
      SameWord(job, patched, s.pc);
      ExecAgrees(worlds, g, Decode(job.orig.At(s.pc)), s, t);
    } else {
      assert !patched.Holds(t.pc);
      WorldAgrees(worlds, None, g, s, t);
    }
  }

  // Sites.

  lemma DecodeSite(w: Word)
    requires IsIndirect(w)
    ensures Decode(w) == if IsBr(w) then BR(Rn(w)) else BLR(Rn(w))
  {
    hide Rn;
  }

  lemma RnSmall(w: Word)
    ensures Rn(w) < 32
  {
    SmallValues();
  }

  lemma SlotInReach(job: Job, k: nat)
    requires job.Valid() && job.IsSiteAt(k)
    ensures 0 <= SlotOf(job.orig.words, job.lo, k, job.region) - k < 0x200_0000
    ensures SlotOf(job.orig.words, job.lo, k, job.region) + 8 <= job.region + 8 * Copies(job.orig.words, job.lo, job.end)
    ensures SlotOf(job.orig.words, job.lo, k, job.region) >= job.region
  {
    hide IsIndirect, IsBr;
    CopiesGrow(job.orig.words, job.lo, k, k + 1);
    CopiesGrow(job.orig.words, job.lo, k + 1, job.end);
  }

  lemma SiteOf(job: Job, patched: Program, k: nat)
    requires job.Valid() && job.Makes(patched) && job.IsSiteAt(k)
    ensures SitePatched(job.orig.words, patched.words, job.lo, k, job.region, job.platform)
  {
    hide IsIndirect, Copies, SitePatched;
  }

  lemma SlotHasCode(job: Job, patched: Program, k: nat)
    requires job.Valid() && job.Makes(patched) && job.IsSiteAt(k)
    ensures var slot := SlotOf(job.orig.words, job.lo, k, job.region);
      && (job.Deeper(k) ==> HasCode(patched.words, slot, BlrCode(job.platform, job.CopyWord(k))))
      && (!job.Deeper(k) ==> HasCode(patched.words, slot, BrCode(job.platform, job.CopyWord(k))))
    ensures patched.words[k] == BranchWord(OpcodeOf(job.orig.words[k]), SlotOf(job.orig.words, job.lo, k, job.region) - k)
  {
    hide IsIndirect, IsBr, Copies, HasCode, BrCode, BlrCode, BranchWord, DoneUpTo;
    SiteOf(job, patched, k);
    if IsBr(job.orig.words[k]) {
      var j := FirstSite(job.orig.words, job.lo, k);
      NoCopies(job.orig.words, job.lo, j);
      SiteOf(job, patched, j);
    }
  }

  /** The site branches to its copy, and the copy is in place. */
  lemma SlotContains(job: Job, patched: Program, k: nat)
    requires job.Valid() && job.Makes(patched) && job.IsSiteAt(k)
    ensures var slot := SlotOf(job.orig.words, job.lo, k, job.region);
      && Patched(patched, k, OpcodeOf(job.orig.words[k]), slot) && slot + 8 <= |patched.words|
      && (job.Deeper(k) ==> Contains(patched, slot, BlrCode(job.platform, job.CopyWord(k))))
      && (!job.Deeper(k) ==> Contains(patched, slot, BrCode(job.platform, job.CopyWord(k))))
    ensures IsIndirect(job.CopyWord(k))
  {
    hide IsIndirect, IsBr, Copies, BranchWord, DoneUpTo, MovX1, SlotOf, Job.Deeper, Job.CopyWord;
    SlotHasCode(job, patched, k);
    SlotInReach(job, k);
    CopyWordIsSite(job, k);
  }

  lemma CopyWordIsSite(job: Job, k: nat)
    requires job.Valid() && job.IsSiteAt(k)
    ensures IsIndirect(job.CopyWord(k))
  {
    hide IsIndirect, IsBr;
  }

  /** Arriving at the copy, the patched run still has what the site had, but for the link of a call. */
  lemma ArrivedTarget(s: State, w: Word, slot: DWord, platform: Word, n: nat)
    requires n == Rn(w) && n != 1
    requires n != FP && (n == LR ==> IsBr(w))
    ensures SlotTarget(Arrived(s, OpcodeOf(w), slot), platform, n) == Target(s, w)
  {
    hide IsBr, Rn, Forced;
  }

  /** A copy for a call: the patched code enters the same callee with the same state, one frame record deeper. */
  lemma CallEntersDeeper(g: Gap, s: State, t: State, w: Word, slot: DWord, platform: Word)
    requires Agree(g, s, t) && s.sp >= 16 && slot + 24 < WRAP
    ensures EnteredDeeper(g, EnterForced(s, w, platform), Entered(Arrived(t, OpcodeOf(w), slot), platform, Target(s, w)))
  {
    hide IsBr, Rn, Forced, Compare;
    var e := Entered(Arrived(t, OpcodeOf(w), slot), platform, Target(s, w));
    assert (s.sp - 16) % WRAP == s.sp - 16 && (s.sp - 16 + 8) % WRAP == s.sp - 8;
    assert MemAgree(g.cells + iset{s.sp - 16, s.sp - 8}, s.mem, e.mem);
  }

  /** ldp and ret, behind the call */
  function Returned(r: State): State {
    r.(regs := r.regs[FP := r.mem(r.sp)][LR := r.mem((r.sp + 8) % WRAP)],
       sp := (r.sp + 16) % WRAP, pc := r.mem((r.sp + 8) % WRAP))
  }

  /** What is left of the call, when both callees have returned. */
  lemma ReturnedAgree(worlds: Worlds, g: Gap, s: State, t: State, w: Word, slot: DWord, platform: Word)
    requires Agree(g, s, t) && s.sp >= 16 && slot + 24 < WRAP
    requires Callable(worlds, g, EnterForced(s, w, platform))
    ensures var e := EnterForced(s, w, platform);
      var e' := Entered(Arrived(t, OpcodeOf(w), slot), platform, Target(s, w));
      && worlds.after.foreign(e').pc == slot + 24
      && Agree(CallSpread(worlds, g, e), worlds.before.foreign(e), Returned(worlds.after.foreign(e')))
  {
    hide IsBr, Rn, Forced, Compare, MemAgree, RegsAgreeButLinks, EnteredDeeper, Entered, EnterForced, Arrived, Returned;
    var e := EnterForced(s, w, platform);
    var e' := Entered(Arrived(t, OpcodeOf(w), slot), platform, Target(s, w));
    CallEntersDeeper(g, s, t, w, slot, platform);
    FrameRecord(g, s, t, w, slot, platform);
    ReturnedPlace(e, e', worlds.before.foreign(e), worlds.after.foreign(e'));
    SpreadAgrees(worlds, g, e, e');
  }

  /** The frame record holds fp and the link of the intended call. */
  lemma FrameRecord(g: Gap, s: State, t: State, w: Word, slot: DWord, platform: Word)
    requires Agree(g, s, t) && s.sp >= 16 && slot + 24 < WRAP
    ensures var e := EnterForced(s, w, platform);
      var e' := Entered(Arrived(t, OpcodeOf(w), slot), platform, Target(s, w));
      && e'.sp + 16 == e.sp && e'.regs[LR] == slot + 24
      && e'.mem(e'.sp) == e.regs[FP] && e'.mem(e'.sp + 8) == e.regs[LR]
  {
    hide IsBr, Rn, Forced, Compare, MemAgree;
    assert (s.sp - 16) % WRAP == s.sp - 16 && (s.sp - 16 + 8) % WRAP == s.sp - 8;
  }

  lemma ReturnedPlace(s: State, t: State, s': State, t': State)
    requires BothReturn(s, t, s', t') && t.sp + 16 == s.sp
    requires t.mem(t.sp) == s.regs[FP] && t.mem(t.sp + 8) == s.regs[LR]
    ensures t'.pc == t.regs[LR] && SamePlace(s', Returned(t'))
    ensures Returned(t').mem == t'.mem && Returned(t').flags == t'.flags
  {
    assert (t'.sp + 8) % WRAP == t.sp + 8;
    assert s'.regs == Returned(t').regs;
  }

  lemma SpreadAgrees(worlds: Worlds, g: Gap, e: State, t: State)
    requires EnteredDeeper(g, e, t)
    ensures MemAgree(CallSpread(worlds, g, e).cells, worlds.before.foreign(e).mem, worlds.after.foreign(t).mem)
    ensures CallSpread(worlds, g, e).flags || worlds.before.foreign(e).flags == worlds.after.foreign(t).flags
  {
    hide EnteredDeeper;
  }

  lemma CallSite(job: Job, patched: Program, worlds: Worlds, g: Gap, s: State, t: State) returns (m: nat)
    requires job.Valid() && job.Makes(patched) && Agree(g, s, t) && Proper(job, worlds, g, s)
    requires job.IsSite(s.pc) && job.Deeper(job.orig.Index(s.pc))
    ensures Agree(NextGap(job, worlds, g, s), ForcedStep(job, worlds.before, s), Run(patched, worlds.after, t, m))
  {
    hide IsBr, Rn, Forced, MovX1, Run, EnterForced, Entered, Agree, IsIndirect, Copies, Callable, CallSpread, SlotTarget;
    hide Contains, Patched, Job.CopyWord, DoneUpTo, SlotOf, Arrived, Target, Decode, CheckSteps, Returned;
    var k := job.orig.Index(s.pc);
    var w, c := job.orig.words[k], job.CopyWord(k);
    var slot := SlotOf(job.orig.words, job.lo, k, job.region);
    SlotContains(job, patched, k);
    AgreePlace(g, s, t);
    SiteBranches(patched, worlds.after, t, k, OpcodeOf(w), slot);
    var t1 := Arrived(t, OpcodeOf(w), patched.Address(slot));
    DecodeSite(c);
    RnSmall(c);
    ArrivedAt(t, OpcodeOf(w), patched.Address(slot));
    CallEnters(patched, worlds.after, t1, slot, job.platform, c, Rn(c));
    ArrivedTarget(t, w, patched.Address(slot), job.platform, Rn(c));
    var e := Entered(t1, job.platform, Target(s, w));
    SameTarget(g, s, t, w);
    ReturnedAgree(worlds, g, s, t, w, patched.Address(slot), job.platform);
    EnteredAt(t1, job.platform, Target(s, w));
    EnterForcedAt(s, w, job.platform);
    assert Step(patched, worlds.after, e) == worlds.after.foreign(e);
    CallReturns(patched, worlds.after, worlds.after.foreign(e), slot, job.platform, c);
    ReturnedIs(worlds.after.foreign(e));
    m := Chain(patched, worlds.after, t, t1, 3 + CheckSteps(t1), e);
  }

  /** One step, n steps, one step, two steps */
  lemma Chain(p: Program, world: World, t: State, t1: State, n: nat, e: State) returns (m: nat)
    requires Step(p, world, t) == t1 && Run(p, world, t1, n) == e
    ensures Run(p, world, t, m) == Run(p, world, Step(p, world, e), 2)
  {
    hide Run, Step;
    RunOne(p, world, t);
    RunAdd(p, world, t, 1, n);
    RunOne(p, world, e);
    RunAdd(p, world, t, 1 + n, 1);
    RunAdd(p, world, t, 2 + n, 2);
    m := 4 + n;
  }

  lemma ReturnedIs(r: State)
    ensures Returned(r) == r.(
      regs := r.regs[FP := r.mem(r.sp)][LR := r.mem((r.sp + 8) % WRAP)],
      sp := (r.sp + 16) % WRAP, pc := r.mem((r.sp + 8) % WRAP))
  {
  }

  lemma AgreePlace(g: Gap, s: State, t: State)
    requires Agree(g, s, t)
    ensures s.pc == t.pc && s.sp == t.sp && s.regs == t.regs
  {
  }

  lemma ArrivedAt(s: State, opcode: Word, slot: DWord)
    ensures Arrived(s, opcode, slot).pc == slot
  {
  }

  lemma EnteredAt(s: State, platform: Word, target: DWord)
    ensures Entered(s, platform, target).pc == target
  {
  }

  lemma EnterForcedAt(s: State, w: Word, platform: Word)
    ensures EnterForced(s, w, platform).pc == Target(s, w)
  {
  }

  lemma SameTarget(g: Gap, s: State, t: State, w: Word)
    requires Agree(g, s, t)
    ensures Target(s, w) == Target(t, w)
  {
  }

  /** A copy for a jump: the patched code enters the same target with the same state, flags aside. */
  lemma JumpAgrees(g: Gap, s: State, t: State, w: Word, slot: DWord, platform: Word)
    requires Agree(g, s, t) && IsBr(w) && Rn(w) != 1
    ensures Agree(g.(flags := true), EnterForced(s, w, platform), Left(Arrived(t, OpcodeOf(w), slot), platform, Rn(w)))
  {
    hide Rn, Forced, Compare;
  }

  lemma JumpSite(job: Job, patched: Program, worlds: Worlds, g: Gap, s: State, t: State) returns (m: nat)
    requires job.Valid() && job.Makes(patched) && Agree(g, s, t) && Proper(job, worlds, g, s)
    requires job.IsSite(s.pc) && !job.Deeper(job.orig.Index(s.pc))
    ensures Agree(NextGap(job, worlds, g, s), ForcedStep(job, worlds.before, s), Run(patched, worlds.after, t, m))
  {
    hide IsBr, Rn, Forced, MovX1, Run, EnterForced, Left, Agree, IsIndirect, Copies;
    hide Contains, Patched, DoneUpTo, SlotOf, Arrived, Target, Decode, CheckSteps;
    var k := job.orig.Index(s.pc);
    var w, c := job.orig.words[k], job.CopyWord(k);
    var slot := SlotOf(job.orig.words, job.lo, k, job.region);
    SlotContains(job, patched, k);
    AgreePlace(g, s, t);
    SiteBranches(patched, worlds.after, t, k, OpcodeOf(w), slot);
    var t1 := Arrived(t, OpcodeOf(w), patched.Address(slot));
    DecodeSite(c);
    RnSmall(c);
    ArrivedAt(t, OpcodeOf(w), patched.Address(slot));
    JumpLeaves(patched, worlds.after, t1, slot, job.platform, c, Rn(c));
    JumpAgrees(g, s, t, w, patched.Address(slot), job.platform);
    RunOne(patched, worlds.after, t);
    RunAdd(patched, worlds.after, t, 1, 1 + CheckSteps(t1));
    m := 2 + CheckSteps(t1);
  }

  lemma StepSimulates(job: Job, patched: Program, worlds: Worlds, g: Gap, s: State, t: State) returns (m: nat)
    requires job.Valid() && job.Makes(patched) && Agree(g, s, t) && Proper(job, worlds, g, s)
    ensures Agree(NextGap(job, worlds, g, s), ForcedStep(job, worlds.before, s), Run(patched, worlds.after, t, m))
  {
    hide Agree, Proper, NextGap, ForcedStep, Step, Run, DoneUpTo, Job.Deeper, IsIndirect;
    if !job.IsSite(s.pc) {
      PlainStep(job, patched, worlds, g, s, t);
      RunOne(patched, worlds.after, t);
      m := 1;
    } else if job.Deeper(job.orig.Index(s.pc)) {
      m := CallSite(job, patched, worlds, g, s, t);
    } else {
      m := JumpSite(job, patched, worlds, g, s, t);
    }
  }

  // Whole runs.

  /**
  However long the intended program runs properly, the patched code gets, in some number of
  instructions, to a state that agrees with it, up to the gap of the run.
   */
  lemma {:induction false} RunSimulates(job: Job, patched: Program, worlds: Worlds, g: Gap, s: State, t: State, n: nat)
    returns (m: nat)
    requires job.Valid() && job.Makes(patched) && Agree(g, s, t) && ProperRun(job, worlds, g, s, n)
    ensures Agree(GapAfter(job, worlds, g, s, n), ForcedRun(job, worlds.before, s, n), Run(patched, worlds.after, t, m))
    decreases n
  {
    hide Agree, Proper, NextGap, ForcedStep, DoneUpTo;
    if n == 0 {
      m := 0;
    } else {
      var m1 := StepSimulates(job, patched, worlds, g, s, t);
      var m2 := RunSimulates(job, patched, worlds, NextGap(job, worlds, g, s), ForcedStep(job, worlds.before, s),
                             Run(patched, worlds.after, t, m1), n - 1);
      RunAdd(patched, worlds.after, t, m1, m2);
      m := m1 + m2;
    }
  }

  function PatchedProgram(job: Job, setup: Setup): Program
    requires DyldOk(Dyld(job.orig.words, FRESH, false)) && forall p :: p in PLATFORM_PATCHES ==> PatchOk(p)
  {
    job.orig.(words := Scan(setup, PLATFORM_PATCHES, Dyld(job.orig.words, FRESH, false), job.lo, job.end).img)
  }

  /** The same, for what the scan itself makes of the image, from equal states. */
  lemma PatchedRunSimulates(job: Job, setup: Setup, worlds: Worlds, s: State, n: nat) returns (m: nat)
    requires job.Valid() && setup.Region() == Some(job.region) && setup.platform == job.platform
    requires ProperRun(job, worlds, NO_GAP, s, n)
    ensures Agree(GapAfter(job, worlds, NO_GAP, s, n), ForcedRun(job, worlds.before, s, n),
                  Run(PatchedProgram(job, setup), worlds.after, s, m))
  {
    hide Agree, ProperRun, ForcedRun, GapAfter, Run, Scan, RegionOk, DoneUpTo, ScanSafe;
    ScanPatches(setup, job.orig.words, job.lo, job.end, job.region, false);
    SelfAgrees(NO_GAP, s);
    m := RunSimulates(job, PatchedProgram(job, setup), worlds, NO_GAP, s, s, n);
  }

  lemma SelfAgrees(g: Gap, s: State)
    ensures Agree(g, s, s)
  {
  }

  // Where the gap can be.

  predicate Between(limit: int, a: int, top: int) {
    limit <= a < top
  }

  ghost function Stack(limit: int, top: int): iset<int> {
    iset a: int | Between(limit, a, top)
  }

  ghost predicate Keeps(worlds: Worlds, w: Option<Word>, g: Gap, s: State) {
    forall t: State :: Agree(g, s, t) ==> MemAgree(g.cells, Outcome(worlds.before, w, s).mem, Outcome(worlds.after, w, t).mem)
  }

  ghost predicate KeepsCall(worlds: Worlds, g: Gap, limit: int, e: State) {
    forall t: State :: EnteredDeeper(g, e, t) ==>
      MemAgree(g.cells + Stack(limit, e.sp), worlds.before.foreign(e).mem, worlds.after.foreign(t).mem)
  }

  /** The worlds carry nothing out of the gap; callees use the stack below top, down to limit, for what differs. */
  ghost predicate Tidy(job: Job, worlds: Worlds, limit: int, top: int, g: Gap, s: State)
    requires job.end <= |job.orig.words|
  {
    if job.IsSite(s.pc) then
      var k := job.orig.Index(s.pc);
      var e := EnterForced(s, job.orig.words[k], job.platform);
      job.Deeper(k) ==> e.sp <= top && KeepsCall(worlds, g, limit, e)
    else if job.orig.Holds(s.pc) then
      var i := Decode(job.orig.At(s.pc));
      i.Other? ==> Keeps(worlds, Some(i.w), g, s)
    else Keeps(worlds, None, g, s)
  }

  ghost predicate TidyRun(job: Job, worlds: Worlds, limit: int, top: int, g: Gap, s: State, n: nat)
    requires job.end <= |job.orig.words|
    decreases n
  {
    n == 0 ||
    (Tidy(job, worlds, limit, top, g, s)
     && TidyRun(job, worlds, limit, top, NextGap(job, worlds, g, s), ForcedStep(job, worlds.before, s), n - 1))
  }

  lemma SpreadKept(worlds: Worlds, w: Option<Word>, g: Gap, s: State)
    requires Keeps(worlds, w, g, s)
    ensures Spread(worlds, w, g, s).cells <= g.cells
  {
    hide Agree, Outcome;
    forall a: int | a in Spread(worlds, w, g, s).cells
      ensures a in g.cells
    {
      var t: State :| Agree(g, s, t) && Outcome(worlds.before, w, s).mem(a) != Outcome(worlds.after, w, t).mem(a);
    }
  }

  lemma CallSpreadKept(worlds: Worlds, g: Gap, limit: int, e: State)
    requires KeepsCall(worlds, g, limit, e)
    ensures CallSpread(worlds, g, e).cells <= g.cells + Stack(limit, e.sp)
  {
    hide EnteredDeeper, Stack;
    forall a: int | a in CallSpread(worlds, g, e).cells
      ensures a in g.cells + Stack(limit, e.sp)
    {
      var t: State :| EnteredDeeper(g, e, t) && worlds.before.foreign(e).mem(a) != worlds.after.foreign(t).mem(a);
    }
  }

  lemma GapStep(job: Job, worlds: Worlds, limit: int, top: int, g: Gap, s: State)
    requires job.end <= |job.orig.words| && Tidy(job, worlds, limit, top, g, s)
    ensures NextGap(job, worlds, g, s).cells <= g.cells + Stack(limit, top)
  {
    hide Spread, CallSpread, Keeps, KeepsCall, EnterForced, Decode, IsIndirect, Job.Deeper, Pair;
    if job.IsSite(s.pc) {
      var k := job.orig.Index(s.pc);
      if job.Deeper(k) {
        CallSpreadKept(worlds, g, limit, EnterForced(s, job.orig.words[k], job.platform));
      }
    } else if job.orig.Holds(s.pc) {
      var i := Decode(job.orig.At(s.pc));
      if i.Other? {
        SpreadKept(worlds, Some(i.w), g, s);
      }
    } else {
      SpreadKept(worlds, None, g, s);
    }
  }

  lemma {:induction false} GapInStack(job: Job, worlds: Worlds, limit: int, top: int, g: Gap, s: State, n: nat)
    requires job.end <= |job.orig.words| && TidyRun(job, worlds, limit, top, g, s, n) && g.cells <= Stack(limit, top)
    ensures GapAfter(job, worlds, g, s, n).cells <= Stack(limit, top)
    decreases n
  {
    hide Tidy, NextGap, ForcedStep, Stack;
    if n > 0 {
      GapStep(job, worlds, limit, top, g, s);
      GapInStack(job, worlds, limit, top, NextGap(job, worlds, g, s), ForcedStep(job, worlds.before, s), n - 1);
    }
  }

  /** With callees that keep their differences on the stack, the runs end alike but for the flags and the stack below top. */
  lemma PatchedRunAgrees(job: Job, setup: Setup, worlds: Worlds, limit: int, top: int, s: State, n: nat) returns (m: nat)
    requires job.Valid() && setup.Region() == Some(job.region) && setup.platform == job.platform
    requires ProperRun(job, worlds, NO_GAP, s, n) && TidyRun(job, worlds, limit, top, NO_GAP, s, n)
    ensures var s', t' := ForcedRun(job, worlds.before, s, n), Run(PatchedProgram(job, setup), worlds.after, s, m);
      SamePlace(s', t') && forall a: int :: !(limit <= a < top) ==> s'.mem(a) == t'.mem(a)
  {
    hide ProperRun, TidyRun, ForcedRun, GapAfter, Run, PatchedProgram, SamePlace;
    m := PatchedRunSimulates(job, setup, worlds, s, n);
    GapInStack(job, worlds, limit, top, NO_GAP, s, n);
  }
}

/** Running the rewritten check: whatever the calls return, the branch at its end is taken. */
module InCacheRun {
  import opened Bits
  import opened Finder
  import opened InCache
  import opened Machine
  import opened Slots
  import opened Templates

  predicate FallsThrough(i: Insn) {
    i.MovReg? || i.Adrp? || (i.AddImm? && i.d == 1) || i.Nop? || i.MovZ?
  }

  /** The words of the window; the rest of the image, callees included, is foreign to it. */
  function Window(base: DWord, img: seq<Word>, i: nat): Program {
    Program(base, img, {i, i + 1, i + 2, i + 3, i + 4, i + 5, i + 6, i + 7, i + 8, i + 9})
  }

  /** Entered in s, code outside the window comes back to the link register. */
  predicate Returns(world: World, s: State) {
    world.foreign(s).pc == s.regs[LR]
  }

  ghost predicate CallsForeign(p: Program, k: nat)
    requires k < |p.words|
  {
    var i := Decode(p.words[k]);
    i.BL? && !p.Holds((p.Address(k) + i.off) % WRAP)
  }

  ghost predicate InCode(p: Program, i: nat) {
    i + 10 <= |p.words| && forall k :: i <= k < i + 10 ==> k in p.code
  }

  /** The window at i after the patch. */
  ghost predicate Rewritten(p: Program, i: nat) {
    && InCode(p, i)
    && (forall x :: 0 <= x < 10 && x != 5 && x != 8 ==> FitsAt(p.words, i, x))
    && p.words[i + 5] == NOP && p.words[i + 8] == MOV_W0_0
    && CallsForeign(p, i + 1) && CallsForeign(p, i + 4)
  }

  lemma HoldsAt(p: Program, k: nat)
    requires p.Valid() && k < |p.words| && k in p.code
    ensures p.Holds(p.Address(k)) && p.At(p.Address(k)) == p.words[k]
  {
    assert (p.Address(k) - p.base) / 4 == k;
  }

  lemma StepFalls(p: Program, world: World, s: State, k: nat)
    requires p.Valid() && k + 1 < |p.words| && k in p.code && s.pc == p.Address(k) && FallsThrough(Decode(p.words[k]))
    ensures Step(p, world, s).pc == p.Address(k + 1)
  {
    hide Decode;
    HoldsAt(p, k);
  }

  lemma StepCalls(p: Program, world: World, s: State, k: nat)
    requires p.Valid() && k + 1 < |p.words| && k in p.code && s.pc == p.Address(k)
    requires CallsForeign(p, k) && Returns(world, Step(p, world, s))
    ensures Run(p, world, s, 2).pc == p.Address(k + 1)
  {
    hide Decode;
    HoldsAt(p, k);
    Run2(p, world, s);
  }

  lemma MovFalls(w: Word)
    requires Fits(w, 0)
    ensures FallsThrough(Decode(w))
  {
    hide Value, SignedValue, PageBits, Pow2, Fits;
    FirstWord(w);
  }

  lemma AdrpIs(w: Word)
    requires Fits(w, 2) || Fits(w, 6)
    ensures w & 0x9f00_001f == 0x9000_0001
  {
  }

  lemma AdrpFalls(w: Word)
    requires w & 0x9f00_001f == 0x9000_0001
    ensures FallsThrough(Decode(w))
  {
    hide Value, SignedValue, PageBits, Pow2, Rd, Rn, Imm12;
  }

  lemma AddFalls(w: Word)
    requires Fits(w, 3) || Fits(w, 7)
    ensures FallsThrough(Decode(w))
  {
    hide Value, Pow2, Ones;
    SmallValues();
    Field(w, 5, 5, 1);
  }

  lemma MovZero()
    ensures Decode(MOV_W0_0) == MovZ(0, 0)
  {
    hide Value, Ones, Pow2;
    SmallValues();
    Ones16();
    Field(MOV_W0_0, 5, 5, 0);
    Field(MOV_W0_0 >> 5, 16, 5, 0);
  }

  /** How far a compare-and-branch goes when it is taken */
  function BranchOffset(w: Word): int {
    4 * SignedValue(w >> 5, 19)
  }

  lemma CbzWord(w: Word)
    requires Fits(w, 9)
    ensures Decode(w) == Cbz(0, false, BranchOffset(w))
  {
    hide Value, Ones, Pow2, SignedValue;
    SmallValues();
    Field(w, 5, 5, 0);
  }

  /** Up to the second call, whatever the first returned. */
  lemma FirstHalf(p: Program, world: World, s: State, i: nat)
    requires p.Valid() && Rewritten(p, i) && s.pc == p.Address(i)
    requires Returns(world, Run(p, world, s, 2)) && Returns(world, Run(p, world, s, 6))
    ensures Run(p, world, s, 7).pc == p.Address(i + 5)
  {
    hide Decode, FallsThrough, Returns, CallsForeign, Step, Run, Fits;
    assert FitsAt(p.words, i, 0) && FitsAt(p.words, i, 2) && FitsAt(p.words, i, 3);
    MovFalls(p.words[i]);
    StepFalls(p, world, s, i);
    RunOne(p, world, s);
    var s1 := Run(p, world, s, 1);
    RunAdd(p, world, s, 1, 1);
    RunOne(p, world, s1);
    StepCalls(p, world, s1, i + 1);
    RunAdd(p, world, s, 1, 2);
    var s3 := Run(p, world, s, 3);
    AdrpIs(p.words[i + 2]);
    AdrpFalls(p.words[i + 2]);
    StepFalls(p, world, s3, i + 2);
    AddFalls(p.words[i + 3]);
    StepFalls(p, world, Step(p, world, s3), i + 3);
    Run2(p, world, s3);
    RunAdd(p, world, s, 3, 2);
    var s5 := Run(p, world, s, 5);
    RunAdd(p, world, s, 5, 1);
    RunOne(p, world, s5);
    StepCalls(p, world, s5, i + 4);
    RunAdd(p, world, s, 5, 2);
  }

  /** From the nop on: the call to strcmp is gone and w0 is zero. */
  lemma SecondHalf(p: Program, world: World, s: State, i: nat)
    requires p.Valid() && Rewritten(p, i) && s.pc == p.Address(i + 5)
    ensures Run(p, world, s, 5).pc == (p.Address(i + 9) + BranchOffset(p.words[i + 9])) % WRAP
    ensures Run(p, world, s, 5).regs[0] == 0
  {
    hide Decode, FallsThrough, CallsForeign, Step, Run, Fits, BranchOffset;
    assert FitsAt(p.words, i, 6) && FitsAt(p.words, i, 7) && FitsAt(p.words, i, 9);
    AdrpIs(p.words[i + 6]);
    AdrpFalls(p.words[i + 6]);
    AddFalls(p.words[i + 7]);
    NopFalls();
    StepFalls(p, world, s, i + 5);
    var s1 := Step(p, world, s);
    StepFalls(p, world, s1, i + 6);
    var s2 := Step(p, world, s1);
    StepFalls(p, world, s2, i + 7);
    Run3(p, world, s);
    var s3 := Run(p, world, s, 3);
    LastTwo(p, world, s3, i);
    RunAdd(p, world, s, 3, 2);
  }

  lemma NopFalls()
    ensures FallsThrough(Decode(NOP))
  {
    hide Value, SignedValue, PageBits, Pow2, Rd, Rn, Imm12;
  }

  lemma LastTwo(p: Program, world: World, s: State, i: nat)
    requires p.Valid() && InCode(p, i) && s.pc == p.Address(i + 8)
    requires p.words[i + 8] == MOV_W0_0 && Fits(p.words[i + 9], 9)
    ensures Run(p, world, s, 2).pc == (p.Address(i + 9) + BranchOffset(p.words[i + 9])) % WRAP
    ensures Run(p, world, s, 2).regs[0] == 0
  {
    hide Decode, Fits, BranchOffset;
    MovZero();
    CbzWord(p.words[i + 9]);
    HoldsAt(p, i + 8);
    HoldsAt(p, i + 9);
    Run2(p, world, s);
  }

  /** The rewritten window always leaves by its last branch. */
  lemma AlwaysTaken(p: Program, world: World, s: State, i: nat)
    requires p.Valid() && Rewritten(p, i) && s.pc == p.Address(i)
    requires Returns(world, Run(p, world, s, 2)) && Returns(world, Run(p, world, s, 6))
    ensures Decode(p.words[i + 9]) == Cbz(0, false, BranchOffset(p.words[i + 9]))
    ensures Run(p, world, s, 12).pc == (p.Address(i + 9) + BranchOffset(p.words[i + 9])) % WRAP
    ensures Run(p, world, s, 12).regs[0] == 0
  {
    hide Run, Step, Fits, BranchOffset, Decode, Returns;
    FirstHalf(p, world, s, i);
    SecondHalf(p, world, Run(p, world, s, 7), i);
    RunAdd(p, world, s, 7, 5);
    assert FitsAt(p.words, i, 9);
    CbzWord(p.words[i + 9]);
  }

  /** Every window that the scan accepted is left in the form that AlwaysTaken is about, and keeps its last branch. */
  lemma AcceptedIsRewritten(setup: Setup, st: Dyld, lo: nat, end: nat, i: nat, base: DWord)
    requires DyldOk(st) && lo <= i < end && Accepted(setup, st.img, i)
    requires CallsForeign(Window(base, st.img, i), i + 1) && CallsForeign(Window(base, st.img, i), i + 4)
    ensures var img := Scan(setup, IN_CACHE_PATCHES, st, lo, end).img;
      Rewritten(Window(base, img, i), i) && img[i + 9] == st.img[i + 9]
  {
    hide Accepted, Fits, Scan, ScanSafe, Decode, BranchOffset;
    var img := Scan(setup, IN_CACHE_PATCHES, st, lo, end).img;
    forall x | 0 <= x < 10
      ensures WindowWord(setup, st, img, i, x)
    {
      WindowAfter(setup, st, lo, end, i, x);
    }
    assert WindowWord(setup, st, img, i, 0);
    forall x | 0 <= x < 10 && x != 5 && x != 8
      ensures FitsAt(img, i, x)
    {
      assert WindowWord(setup, st, img, i, x);
    }
    assert WindowWord(setup, st, img, i, 1) && WindowWord(setup, st, img, i, 4) && WindowWord(setup, st, img, i, 5);
    assert WindowWord(setup, st, img, i, 8) && WindowWord(setup, st, img, i, 9);
  }

  /** Word x of the accepted window at i, after the scan */
  predicate WindowWord(setup: Setup, st: Dyld, img: seq<Word>, i: nat, x: nat)
    requires x < 10
  {
    && |img| == |st.img| && i + 10 <= |img|
    && img[i + x] == (if x == 5 then NOP else if x == 8 then MOV_W0_0 else st.img[i + x])
    && FitsAt(st.img, i, x)
  }

  lemma WindowAfter(setup: Setup, st: Dyld, lo: nat, end: nat, i: nat, x: nat)
    requires DyldOk(st) && lo <= i < end && Accepted(setup, st.img, i) && x < 10
    ensures WindowWord(setup, st, Scan(setup, IN_CACHE_PATCHES, st, lo, end).img, i, x)
  {
    hide Accepts, Fits, Scan, ScanSafe, Found, Written;
    CacheScan(setup, st, lo, end);
    FoundFits(st.img, i);
    OnlyOwnWrites(setup, st.img, lo, end, i, x);
    assert FitsAt(st.img, i, x);
  }

  /**
  The scan and the run together: entered in any state, an accepted window whose two calls leave it and
  return there goes on, after the scan, where its last branch leads.
   */
  lemma PatchedWindowTaken(setup: Setup, st: Dyld, lo: nat, end: nat, i: nat, base: DWord, world: World, s: State)
    requires DyldOk(st) && lo <= i < end && Accepted(setup, st.img, i) && base + 4 * |st.img| <= WRAP
    requires CallsForeign(Window(base, st.img, i), i + 1) && CallsForeign(Window(base, st.img, i), i + 4)
    requires s.pc == base + 4 * i
    ensures var p := Window(base, Scan(setup, IN_CACHE_PATCHES, st, lo, end).img, i);
      Returns(world, Run(p, world, s, 2)) && Returns(world, Run(p, world, s, 6)) ==>
        Run(p, world, s, 12).pc == (base + 4 * (i + 9) + BranchOffset(st.img[i + 9])) % WRAP
  {
    hide Accepted, Scan, ScanSafe, CallsForeign, Rewritten, Run, BranchOffset, Returns;
    AcceptedIsRewritten(setup, st, lo, end, i, base);
    var p := Window(base, Scan(setup, IN_CACHE_PATCHES, st, lo, end).img, i);
    if Returns(world, Run(p, world, s, 2)) && Returns(world, Run(p, world, s, 6)) {
      AlwaysTaken(p, world, s, i);
    }
  }

  lemma OnlyOwnWrites(setup: Setup, img: seq<Word>, lo: nat, end: nat, i: nat, x: nat)
    requires lo <= i < end && Accepted(setup, img, i) && x < 10
    ensures Written(setup, img, lo, end, i + x, 5) <==> x == 5
    ensures Written(setup, img, lo, end, i + x, 8) <==> x == 8
  {
    hide Accepts, Found;
    forall j | lo <= j < end && Accepted(setup, img, j) && j != i
      ensures j + 10 <= i || i + 10 <= j
    {
      if j < i {
        WindowsApart(img, j, i);
      } else {
        WindowsApart(img, i, j);
      }
    }
  }
}

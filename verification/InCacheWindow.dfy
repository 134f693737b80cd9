/** Which windows dyld_in_cache_patch takes: ten instructions, and two strings. */
module InCacheWindow {
  import opened Bits
  import opened Finder
  import opened Follow
  import opened InCache
  import opened InCacheRun
  import opened Machine
  import opened Templates
  import opened Wrappers

  // The instructions.

  /** Word x of the window, as the Arm Architecture Reference Manual (DDI 0487, section C6.2) decodes it */
  predicate IsWindowInsn(i: Insn, x: nat) {
    if x == 0 then i == MovReg(0, 19)
    else if x == 1 || x == 4 || x == 8 then i.BL?
    else if x == 2 || x == 6 then i.Adrp? && i.d == 1
    else if x == 3 || x == 7 then i.AddImm? && i.d == 1 && i.n == 1
    else if x == 5 then i.Cbz? && i.t == 0 && i.wide
    else i.Cbz? && i.t == 0 && !i.wide
  }

  /** Five bits and their number determine each other. */
  lemma FiveBits(w: Word, v: Word)
    requires Masked(v, 0x1f) == v
    ensures Value(w, 5) == Value(v, 5) <==> Masked(w, 0x1f) == v
  {
    hide Value, Masked, Ones;
    SmallValues();
    ValueMasked(w, 5);
    if Value(w, 5) == Value(v, 5) {
      SameField(w, v, 5);
    }
  }

  lemma DecodeMov(w: Word)
    ensures Decode(w).MovReg? <==> w & 0xffe0_ffe0 == 0xaa00_03e0
    ensures Decode(w).MovReg? ==> Decode(w) == MovReg(Rd(w), Value(w >> 16, 5))
  {
    hide Value, SignedValue, PageBits, Rn, Rd, Imm12;
  }

  lemma DecodeBl(w: Word)
    ensures Decode(w).BL? <==> w & 0xfc00_0000 == 0x9400_0000
  {
    hide Value, SignedValue, PageBits, Rn, Rd, Imm12;
  }

  lemma DecodeAdd(w: Word)
    ensures Decode(w).AddImm? <==> w & 0xffc0_0000 == 0x9100_0000
    ensures Decode(w).AddImm? ==> Decode(w).d == Rd(w) && Decode(w).n == Rn(w)
  {
    hide Value, SignedValue, PageBits, Rn, Rd, Imm12;
  }

  lemma CbzWide(w: Word)
    requires w & 0xff00_0000 == 0xb400_0000
    ensures Decode(w).Cbz? && Decode(w).wide && Decode(w).t == Rd(w)
  {
    hide Value, SignedValue, PageBits, Rn, Rd, Imm12;
  }

  lemma CbzNarrow(w: Word)
    requires w & 0xff00_0000 == 0x3400_0000
    ensures Decode(w).Cbz? && !Decode(w).wide && Decode(w).t == Rd(w)
  {
    hide Value, SignedValue, PageBits, Rn, Rd, Imm12;
  }

  lemma CbzOnly(w: Word)
    requires Decode(w).Cbz?
    ensures w & 0xff00_0000 == 0xb400_0000 || w & 0xff00_0000 == 0x3400_0000
  {
    hide Value, SignedValue, PageBits, Rn, Rd, Imm12;
  }

  lemma DecodeCbz(w: Word)
    ensures Decode(w).Cbz? && Decode(w).wide <==> w & 0xff00_0000 == 0xb400_0000
    ensures Decode(w).Cbz? && !Decode(w).wide <==> w & 0xff00_0000 == 0x3400_0000
    ensures Decode(w).Cbz? ==> Decode(w).t == Rd(w)
  {
    hide Decode, Rd;
    if Decode(w).Cbz? {
      CbzOnly(w);
    }
    if w & 0xff00_0000 == 0xb400_0000 {
      CbzWide(w);
    } else if w & 0xff00_0000 == 0x3400_0000 {
      CbzNarrow(w);
    }
  }

  lemma FitsMov(w: Word)
    ensures Fits(w, 0) <==> w & 0xffe0_ffe0 == 0xaa00_03e0 && Masked(w, 0x1f) == 0 && Masked(w >> 16, 0x1f) == 19
  {
  }

  lemma FitsBl(w: Word)
    ensures Fits(w, 1) <==> w & 0xfc00_0000 == 0x9400_0000
    ensures Fits(w, 4) <==> w & 0xfc00_0000 == 0x9400_0000
    ensures Fits(w, 8) <==> w & 0xfc00_0000 == 0x9400_0000
  {
  }

  lemma FitsAdrp(w: Word)
    ensures Fits(w, 2) <==> w & 0x9f00_0000 == 0x9000_0000 && Masked(w, 0x1f) == 1
    ensures Fits(w, 6) <==> w & 0x9f00_0000 == 0x9000_0000 && Masked(w, 0x1f) == 1
  {
  }

  lemma FitsAdd(w: Word)
    ensures Fits(w, 3) <==> w & 0xffc0_0000 == 0x9100_0000 && Masked(w, 0x1f) == 1 && Masked(w >> 5, 0x1f) == 1
    ensures Fits(w, 7) <==> w & 0xffc0_0000 == 0x9100_0000 && Masked(w, 0x1f) == 1 && Masked(w >> 5, 0x1f) == 1
  {
  }

  lemma FitsCbz(w: Word)
    ensures Fits(w, 5) <==> w & 0xff00_0000 == 0xb400_0000 && Masked(w, 0x1f) == 0
    ensures Fits(w, 9) <==> w & 0xff00_0000 == 0x3400_0000 && Masked(w, 0x1f) == 0
  {
  }

  lemma RegisterNumbers(w: Word)
    ensures Value(w, 5) == 0 <==> Masked(w, 0x1f) == 0
    ensures Value(w, 5) == 1 <==> Masked(w, 0x1f) == 1
    ensures Value(w, 5) == 19 <==> Masked(w, 0x1f) == 19
  {
    hide Value, Masked;
    SmallValues();
    Nineteen();
    FiveBits(w, 0);
    FiveBits(w, 1);
    FiveBits(w, 19);
  }

  lemma Nineteen()
    ensures Value(19, 5) == 19 && Masked(19, 0x1f) == 19 && Masked(1, 0x1f) == 1 && Masked(0, 0x1f) == 0
  {
    assert Value(9, 4) == 9;
  }

  /** A word fits its place in the pattern exactly when it is this instruction. */
  lemma FitsExact(w: Word, x: nat)
    requires x < 10
    ensures Fits(w, x) <==> IsWindowInsn(Decode(w), x)
  {
    hide Fits, Decode, Value, Masked;
    RegisterNumbers(w);
    RegisterNumbers(w >> 5);
    RegisterNumbers(w >> 16);
    if x == 0 {
      FitsMov(w);
      DecodeMov(w);
    } else if x == 1 || x == 4 || x == 8 {
      FitsBl(w);
      DecodeBl(w);
    } else if x == 2 || x == 6 {
      FitsAdrp(w);
      DecodeAdrp(w);
    } else if x == 3 || x == 7 {
      FitsAdd(w);
      DecodeAdd(w);
    } else {
      FitsCbz(w);
      DecodeCbz(w);
    }
  }

  predicate IsWindowAt(img: seq<Word>, i: nat, x: nat)
    requires i + x < |img|
  {
    IsWindowInsn(Decode(img[i + x]), x)
  }

  /** The pattern is found exactly where these ten instructions are. */
  lemma FoundExact(img: seq<Word>, i: nat)
    ensures Found(img, i, IN_CACHE_PATCH) <==> i + 10 <= |img| && forall x :: 0 <= x < 10 ==> IsWindowAt(img, i, x)
  {
    hide Fits, Decode, Found, IsWindowInsn;
    FoundFits(img, i);
    if i + 10 <= |img| {
      forall x | 0 <= x < 10
        ensures FitsAt(img, i, x) <==> IsWindowAt(img, i, x)
      {
        FitsExact(img[i + x], x);
      }
    }
  }

  // The strings.

  /** The pair of words at k refers to the target, from its own address. */
  ghost predicate RefersTo(setup: Setup, img: seq<Word>, k: nat, target: DWord, rd: Word, rn: Word) {
    var pc := PtrToVa(setup.binary, setup.buf, (setup.buf + 4 * k) % WRAP);
    && k + 1 < |img| && pc.Some?
    && -0x1_0000_0000 <= PageOf(target) - PageOf(pc.value) < 0x1_0000_0000
    && img[k] == AdrpWord(Pattern((PageOf(target) - PageOf(pc.value)) / 4096, 21), rd)
    && img[k + 1] == AddWord(Pattern(target % 4096, 12), rn, rd)
  }

  lemma RefersFollowed(setup: Setup, img: seq<Word>, k: nat, target: DWord, rd: Word, rn: Word)
    requires RefersTo(setup, img, k, target, rd, rn)
    ensures FollowXref(setup.binary, setup.buf, img, k) == VaToPtr(setup.binary, setup.buf, target)
  {
    hide FollowXref, PtrToVa, VaToPtr, AdrpWord, AddWord, Pattern;
    var pc := PtrToVa(setup.binary, setup.buf, (setup.buf + 4 * k) % WRAP).value;
    XrefRoundTrip(setup.binary, setup.buf, img, k, pc, target, rd, rn);
  }

  /** The two strings, at these pointers */
  predicate IsTheCheck(setup: Setup, p1: DWord, p2: DWord) {
    p1 != 0 && p2 != 0 && setup.text(p1) == "DYLD_IN_CACHE" && setup.text(p2) == "0"
  }

  lemma AcceptsExact(setup: Setup, img: seq<Word>, i: nat, t1: DWord, t2: DWord, p1: DWord, p2: DWord, rd: Word, rn: Word)
    requires RefersTo(setup, img, i + 2, t1, rd, rn) && RefersTo(setup, img, i + 6, t2, rd, rn)
    requires VaToPtr(setup.binary, setup.buf, t1) == Some(p1) && VaToPtr(setup.binary, setup.buf, t2) == Some(p2)
    ensures Accepts(setup, img, i) <==> IsTheCheck(setup, p1, p2)
  {
    hide FollowXref, PtrToVa, VaToPtr, RefersTo;
    RefersFollowed(setup, img, i + 2, t1, rd, rn);
    RefersFollowed(setup, img, i + 6, t2, rd, rn);
  }

  /** A window that is not accepted keeps its words. */
  lemma NotTaken(setup: Setup, img: seq<Word>, lo: nat, end: nat, i: nat, x: nat)
    requires lo <= i < end && Found(img, i, IN_CACHE_PATCH) && !Accepts(setup, img, i) && x < 10
    ensures !Written(setup, img, lo, end, i + x, 5) && !Written(setup, img, lo, end, i + x, 8)
  {
    hide Accepts, Found;
    forall j | lo <= j < end && Accepted(setup, img, j)
      ensures j + 10 <= i || i + 10 <= j
    {
      if j < i {
        WindowsApart(img, j, i);
      } else if i < j {
        WindowsApart(img, i, j);
      }
    }
  }

  lemma NotWrittenYet(img: seq<Word>, i: nat)
    requires Found(img, i, IN_CACHE_PATCH)
    ensures i + 10 <= |img| && img[i + 5] != 0xd503_201f && img[i + 8] != 0x5280_0000
  {
    hide Fits, Found;
    FoundFits(img, i);
    NothingFits(5);
    NothingFits(8);
    assert FitsAt(img, i, 5) && FitsAt(img, i, 8);
  }

  /**
  A window of the ten instructions, whose two pairs of words refer to targets that have pointers: the scan
  puts a nop in place of its first cbz and mov w0, 0 in place of its last call exactly when the strings at
  these pointers are DYLD_IN_CACHE and 0, in this order; otherwise it leaves both words. If so, the patch
  has been found.
   */
  lemma WindowDecided(setup: Setup, st: Dyld, lo: nat, end: nat, i: nat, t1: DWord, t2: DWord, p1: DWord, p2: DWord,
                      rd: Word, rn: Word)
    requires DyldOk(st) && lo <= i < end && Found(st.img, i, IN_CACHE_PATCH)
    requires RefersTo(setup, st.img, i + 2, t1, rd, rn) && RefersTo(setup, st.img, i + 6, t2, rd, rn)
    requires VaToPtr(setup.binary, setup.buf, t1) == Some(p1) && VaToPtr(setup.binary, setup.buf, t2) == Some(p2)
    ensures i + 10 <= |st.img|
    ensures var r := Scan(setup, IN_CACHE_PATCHES, st, lo, end);
      var here := p1 != 0 && p2 != 0 && setup.text(p1) == "DYLD_IN_CACHE" && setup.text(p2) == "0";
      && (r.img[i + 5] == 0xd503_201f && r.img[i + 8] == 0x5280_0000 <==> here)
      && (!here ==> r.img[i + 5] == st.img[i + 5] && r.img[i + 8] == st.img[i + 8])
      && (here ==> r.found)
  {
    hide Accepts, Found, Scan, ScanSafe, RefersTo, VaToPtr, Written;
    AcceptsExact(setup, st.img, i, t1, t2, p1, p2, rd, rn);
    CacheScan(setup, st, lo, end);
    NotWrittenYet(st.img, i);
    if Accepts(setup, st.img, i) {
      assert Accepted(setup, st.img, i);
      OnlyOwnWrites(setup, st.img, lo, end, i, 5);
      OnlyOwnWrites(setup, st.img, lo, end, i, 8);
    } else {
      NotTaken(setup, st.img, lo, end, i, 5);
      NotTaken(setup, st.img, lo, end, i, 8);
    }
  }

  /** The first word of the window, mov x0, x19, and the two forms of its compare and branch */
  lemma WindowInsns(world: World, s: State, t: nat, off: int, high: nat, low: nat)
    requires t < 31 && high < 0x1_0000_0000 && low < 0x1_0000_0000 && s.regs[t] == high * 0x1_0000_0000 + low
    ensures Exec(world, Decode(0xaa13_03e0), s) == Next(s.(regs := s.regs[0 := s.regs[19]]))
    ensures Exec(world, Cbz(31, true, off), s) == Exec(world, Cbz(31, false, off), s) == Jump(s, s.pc + off)
    ensures Exec(world, Cbz(t, false, off), s) == if low == 0 then Jump(s, s.pc + off) else Next(s)
    ensures Exec(world, Cbz(t, true, off), s) == if low == 0 && high == 0 then Jump(s, s.pc + off) else Next(s)
  {
    hide Decode;
    FirstIsMov();
    assert s.regs[t] % 0x1_0000_0000 == low;
    assert s.regs[19] % WRAP == s.regs[19];
  }

  lemma FirstIsMov()
    ensures Decode(0xaa13_03e0) == MovReg(0, 19)
  {
    hide Decode;
    FitsExact(0xaa13_03e0, 0);
  }
}

/** The conditions under which the rewriting works, and what it leaves: reach, sharing, slots and room. */
module Limits {
  import opened Bits
  import opened Finder
  import opened Follow
  import opened Machine
  import opened PlatformPatch
  import opened Shellcode
  import opened Simulation
  import opened Slots
  import opened Templates
  import opened Wrappers
  import MachO

  // Reach.

  function HighMask(j: nat, k: nat): Word
    requires j <= k
  {
    if j == 0 then Ones(k) else Append(HighMask(j - 1, k - 1), false)
  }

  lemma AppendBelow(mask: Word, w: Word, b: bool)
    requires Within(mask, w)
    ensures Within(Append(mask, false), Append(w, b))
  {
  }

  lemma {:induction false} MinusOne(k: nat)
    ensures Pattern(-1, k) == Ones(k)
  {
    hide Append;
    if k > 0 {
      MinusOne(k - 1);
    }
  }

  /** The sign of a negative number fills the pattern above its magnitude. */
  lemma {:induction false} NegativePattern(n: int, j: nat, k: nat)
    requires n < 0 <= n + Pow2(j) && j <= k
    ensures Within(HighMask(j, k), Pattern(n, k))
    decreases j
  {
    hide Append, Within;
    if j == 0 {
      MinusOne(k);
      WithinSelf(Ones(k));
    } else {
      NegativePattern(n / 2, j - 1, k - 1);
      AppendBelow(HighMask(j - 1, k - 1), Pattern(n / 2, k - 1), n % 2 == 1);
    }
  }

  lemma HighMask25()
    ensures HighMask(25, 32) == 0xfe00_0000
  {
    assert Ones(7) == 0x7f;
    assert HighMask(1, 8) == 0xfe;
    assert HighMask(4, 11) == 0x7f0;
    assert HighMask(8, 15) == 0x7f00;
    assert HighMask(12, 19) == 0x7_f000;
    assert HighMask(16, 23) == 0x7f_0000;
    assert HighMask(20, 27) == 0x7f0_0000;
    assert HighMask(24, 31) == 0x7f00_0000;
  }

  lemma NegativeIsNoBranch(opcode: Word, p: Word)
    requires IsBranchOpcode(opcode) && Within(0xfe00_0000, p)
    ensures Masked(Join(opcode, p), 0xfc00_0000) == 0xfc00_0000
  {
  }

  lemma BranchHasOpcode(w: Word)
    ensures Decode(w).B? ==> Masked(w, 0xfc00_0000) == DO_B
    ensures Decode(w).BL? ==> Masked(w, 0xfc00_0000) == DO_BL
  {
    hide Value, SignedValue, PageBits, Rn, Rd, Imm12;
  }

  /** b or bl, by the opcode that is or-ed in */
  function BranchInsn(opcode: Word, off: int): Insn {
    if opcode == DO_BL then BL(off) else B(off)
  }

  /** The word written for a site branches to its copy exactly when the copy is ahead and within reach. */
  lemma ReachExact(opcode: Word, d: int)
    requires IsBranchOpcode(opcode) && -0x8000_0000 <= d < 0x8000_0000
    ensures Decode(BranchWord(opcode, d)) == BranchInsn(opcode, 4 * d) <==> 0 <= d < 0x200_0000
  {
    hide Decode, Pattern, Value, Within, Masked, Join, SignedValue, Pow2, HighMask;
    var w := BranchWord(opcode, d);
    if 0 <= d < 0x200_0000 {
      BranchDecodes(d);
    } else if Decode(w) == BranchInsn(opcode, 4 * d) {
      BranchHasOpcode(w);
      DecodeBranch(w);
      SignedRange(w);
      Pow2At25();
      NegativePattern(d, 25, 32);
      HighMask25();
      NegativeIsNoBranch(opcode, Pattern(d, 32));
      assert false;
    }
  }

  lemma SignedRange(w: Word)
    ensures -0x200_0000 <= SignedValue(w, 26) < 0x200_0000
  {
    hide Value;
    Pow2At25();
  }

  // Sharing.

  lemma CodeAt(words: seq<Word>, i: nat, code: seq<Word>, j: nat)
    requires HasCode(words, i, code) && j < |code|
    ensures i + j < |words| && words[i + j] == code[j]
  {
    assert words[i..i + |code|][j] == words[i + j];
  }

  lemma CodeDiffers(words: seq<Word>, i: nat, platform: Word, w: Word, w': Word)
    requires HasCode(words, i, BrCode(platform, w))
    ensures HasCode(words, i, BrCode(platform, w')) ==> w == w'
    ensures !HasCode(words, i, BlrCode(platform, w'))
  {
    hide MovX1, HasCode;
    CodeAt(words, i, BrCode(platform, w), 0);
    CodeAt(words, i, BrCode(platform, w), 3);
    if HasCode(words, i, BrCode(platform, w')) {
      CodeAt(words, i, BrCode(platform, w'), 3);
    }
    if HasCode(words, i, BlrCode(platform, w')) {
      CodeAt(words, i, BlrCode(platform, w'), 0);
    }
  }

  /**
  A jump site is left with a copy that ends in its own jump exactly when the first site of the range
  holds the same jump: every later jump shares the first copy, whatever that copy was made for.
   */
  lemma SharingExact(job: Job, patched: Program, k: nat)
    requires job.Valid() && job.Makes(patched) && job.IsSiteAt(k) && IsBr(job.orig.words[k])
    ensures HasCode(patched.words, job.region, BrCode(job.platform, job.orig.words[k]))
      <==> job.orig.words[FirstSite(job.orig.words, job.lo, k)] == job.orig.words[k]
  {
    hide IsIndirect, IsBr, Copies, DoneUpTo, HasCode, BrCode, BlrCode, FirstSite, SlotOf;
    var w, c := job.orig.words[k], job.CopyWord(k);
    SlotHasCode(job, patched, k);
    SlotOfIs(job.orig.words, job.lo, k, job.region);
    if HasCode(patched.words, job.region, BrCode(job.platform, w)) {
      CodeDiffers(patched.words, job.region, job.platform, w, c);
    }
  }

  // What is left.

  lemma BranchIsNoSite(opcode: Word, w: Word)
    requires IsBranchOpcode(opcode) && Masked(w, 0xfc00_0000) == opcode
    ensures !IsIndirect(w)
  {
  }

  /** After the scan no br or blr is left in the range. */
  lemma NoSiteLeft(job: Job, patched: Program, k: nat)
    requires job.Valid() && job.Makes(patched) && job.lo <= k < job.end
    ensures !IsIndirect(patched.words[k])
  {
    hide IsIndirect, IsBr, Copies, HasCode, BranchWord, DoneUpTo, Masked;
    var orig := job.orig.words;
    if IsIndirect(orig[k]) {
      SiteOf(job, patched, k);
      SlotInReach(job, k);
      var opcode := OpcodeOf(orig[k]);
      BranchWordFields(opcode, SlotOf(orig, job.lo, k, job.region) - k);
      BranchIsNoSite(opcode, patched.words[k]);
    } else {
      UntouchedWord(job, patched, k);
    }
  }

  lemma DecodeIndirect(w: Word)
    ensures Decode(w).BR? <==> w & 0xffff_fc1f == 0xd61f_0000
    ensures Decode(w).BLR? <==> w & 0xffff_fc1f == 0xd63f_0000
  {
    hide Value, SignedValue, PageBits, Rn, Rd, Imm12;
  }

  lemma IndirectBits(w: Word)
    ensures IsIndirect(w) <==> w & 0xffff_fc1f == 0xd61f_0000 || w & 0xffff_fc1f == 0xd63f_0000
    ensures IsBr(w) <==> w & 0xffff_fc1f == 0xd61f_0000
  {
  }

  /** The pattern is for br and blr, and for nothing else. */
  lemma SiteExact(w: Word)
    ensures IsIndirect(w) <==> Decode(w).BR? || Decode(w).BLR?
    ensures IsBr(w) <==> Decode(w).BR?
  {
    hide Decode, IsIndirect, IsBr;
    DecodeIndirect(w);
    IndirectBits(w);
  }

  /** So no indirect jump or call is left in the range. */
  lemma NoJumpLeft(job: Job, patched: Program, k: nat)
    requires job.Valid() && job.Makes(patched) && job.lo <= k < job.end
    ensures !Decode(patched.words[k]).BR? && !Decode(patched.words[k]).BLR?
  {
    hide Decode, IsIndirect, DoneUpTo, Copies;
    NoSiteLeft(job, patched, k);
    SiteExact(patched.words[k]);
  }

  lemma UntouchedWord(job: Job, patched: Program, k: nat)
    requires job.Valid() && job.Makes(patched) && job.lo <= k < job.end && !IsIndirect(job.orig.words[k])
    ensures patched.words[k] == job.orig.words[k]
  {
    hide IsIndirect, Copies, SitePatched;
    assert Untouched(job.orig.words, job.lo, job.end, job.region, k);
  }

  /** Call sites have copies of their own, and no two copies meet. */
  lemma SlotsApart(job: Job, k: nat, j: nat)
    requires job.Valid() && job.lo <= k < j < job.end
    requires IsIndirect(job.orig.words[k]) && !IsBr(job.orig.words[k])
    requires IsIndirect(job.orig.words[j]) && !IsBr(job.orig.words[j])
    ensures SlotOf(job.orig.words, job.lo, k, job.region) + 8 <= SlotOf(job.orig.words, job.lo, j, job.region)
    ensures job.region <= SlotOf(job.orig.words, job.lo, k, job.region)
    ensures SlotOf(job.orig.words, job.lo, j, job.region) + 8 <= job.region + 8 * Copies(job.orig.words, job.lo, job.end)
  {
    hide IsIndirect, IsBr;
    CopiesGrow(job.orig.words, job.lo, k, k + 1);
    CopiesGrow(job.orig.words, job.lo, k + 1, j);
    CopiesGrow(job.orig.words, job.lo, j, j + 1);
    CopiesGrow(job.orig.words, job.lo, j + 1, job.end);
  }

  /** pf_follow_branch takes every patched site to its copy. */
  lemma SitesFollowed(job: Job, patched: Program, k: nat)
    requires job.Valid() && job.Makes(patched) && job.IsSiteAt(k)
    ensures FollowBranch(patched.words, k) == At(SlotOf(job.orig.words, job.lo, k, job.region))
  {
    hide IsIndirect, IsBr, Copies, HasCode, BranchWord, DoneUpTo, FollowBranch, BrCode, BlrCode, SlotOf, IsBranchOpcode;
    hide FirstSite;
    var orig := job.orig.words;
    var slot := SlotOf(orig, job.lo, k, job.region);
    SlotHasCode(job, patched, k);
    SlotInReach(job, k);
    CopyStarts(patched.words, slot, job.platform, job.CopyWord(k));
    OpcodesAreBranches(orig[k]);
    FollowsToCopy(patched.words, k, slot, OpcodeOf(orig[k]));
  }

  lemma OpcodesAreBranches(w: Word)
    ensures IsBranchOpcode(OpcodeOf(w))
  {
    hide IsBr;
  }

  lemma CopyStarts(words: seq<Word>, i: nat, platform: Word, w: Word)
    ensures HasCode(words, i, BrCode(platform, w)) ==> i < |words| && words[i] == CMP_X1_10
    ensures HasCode(words, i, BlrCode(platform, w)) ==> i < |words| && words[i] == STP_FP_LR
  {
    hide MovX1, HasCode;
    if HasCode(words, i, BrCode(platform, w)) {
      CodeAt(words, i, BrCode(platform, w), 0);
    }
    if HasCode(words, i, BlrCode(platform, w)) {
      CodeAt(words, i, BlrCode(platform, w), 0);
    }
  }

  /**
  What the file must offer: a function in front of the last section of __TEXT, and behind that section
  twice its size and sixty-four bytes for every copy.
   */
  lemma RoomIsEnough(setup: Setup, words: seq<Word>, lo: nat, end: nat, segment: MachO.Segment, section: MachO.Section)
    requires setup.binary.MachOFile? && lo <= end <= |words| <= 0x1_0000_0000
    requires MachO.NamedSegment(setup.binary.macho.commands, "__TEXT") == Some(segment)
    requires MachO.NamedSection(segment.sections, "__unwind_info") == Some(section)
    requires 4 * end <= section.offset <= segment.filesize <= 4 * |words|
    requires 2 * section.size + 64 * Copies(words, lo, end) <= segment.filesize - section.offset
    ensures setup.Region().Some? && end <= setup.Region().value && RegionOk(words, lo, end, setup.Region().value)
  {
    hide Copies;
    MachO.RegionRoom(setup.binary.macho, segment, section, Copies(words, lo, end));
  }
}

/** The patcher itself: its globals are the fields, and the image is rewritten in place. */
module Patcher {
  import opened Bits
  import opened Finder
  import opened Follow
  import opened InCache
  import opened PlatformPatch
  import opened Shellcode
  import opened Slots
  import opened Wrappers
  import MachO

  class DyldPatcher {
    const setup: Setup
    const image: array<Word>
    const shellcodeBr: array<Word>
    const shellcodeBlr: array<Word>
    var shcLoc: Option<nat>
    var shcCopied: nat
    var foundDyldInCache: bool

    ghost predicate Valid()
      reads this
    {
      && shellcodeBr.Length == 4 && shellcodeBlr.Length == 8
      && image != shellcodeBr && image != shellcodeBlr && shellcodeBr != shellcodeBlr
    }

    ghost function State(): (d: Dyld)
      requires Valid()
      reads this, image, shellcodeBr, shellcodeBlr
      ensures DyldOk(d) && |d.img| == image.Length
    {
      Dyld(image[..], Area(shcLoc, shcCopied, shellcodeBr[..], shellcodeBlr[..]), foundDyldInCache)
    }

    constructor (setup: Setup, image: array<Word>)
      ensures Valid() && this.image == image && this.setup == setup
      ensures fresh(shellcodeBr) && fresh(shellcodeBlr)
      ensures State() == Dyld(image[..], FRESH, false)
    {
      this.setup := setup;
      this.image := image;
      shellcodeBr := new Word[4] [BR_TEMPLATE[0], BR_TEMPLATE[1], BR_TEMPLATE[2], BR_TEMPLATE[3]];
      shellcodeBlr := new Word[8] [BLR_TEMPLATE[0], BLR_TEMPLATE[1], BLR_TEMPLATE[2], BLR_TEMPLATE[3],
                                   BLR_TEMPLATE[4], BLR_TEMPLATE[5], BLR_TEMPLATE[6], BLR_TEMPLATE[7]];
      shcLoc := None;
      shcCopied := 0;
      foundDyldInCache := false;
      new;
      assert shellcodeBr[..] == BR_TEMPLATE;
      assert shellcodeBlr[..] == BLR_TEMPLATE;
    }

    /** The loop at the end of copy_shc */
    method CopyWords(shellcode: array<Word>, offset: nat)
      requires Valid() && shellcode != image && offset + shellcode.Length <= image.Length
      modifies image
      ensures image[..] == Splice(old(image[..]), offset, shellcode[..])
    {
      hide Splice;
      SpliceNone(image[..], offset);
      for i := 0 to shellcode.Length
        invariant image[..] == Splice(old(image[..]), offset, shellcode[..][..i])
      {
        SpliceMore(old(image[..]), offset, shellcode[..], i);
        image[offset + i] := shellcode[i];
      }
      assert shellcode[..][..shellcode.Length] == shellcode[..];
    }

    method CopyShc(jmp: Word) returns (at: Option<nat>)
      requires Valid() && CopySafe(State().img, State().area, jmp)
      modifies this`shcCopied, image, shellcodeBr, shellcodeBlr
      ensures Valid()
      ensures var c := Shellcode.CopyShc(old(State().img), old(State().area), setup.platform, jmp);
        at == c.at && State() == old(State()).(img := c.img, area := c.area)
    {
      hide IsBr, Fill, Splice;
      if shcLoc.None? {
        return None;
      }
      var shellcode: array<Word>;
      if IsBr(jmp) {
        if shcCopied != 0 {
          return shcLoc;
        }
        shellcode := shellcodeBr;
        shellcode[2] := Fill(shellcode[2], setup.platform);
        shellcode[3] := jmp;
      } else {
        shellcode := shellcodeBlr;
        shellcode[4] := Fill(shellcode[4], setup.platform);
        shellcode[5] := jmp;
      }
      var offset := shcCopied * shellcode.Length % 0x1_0000_0000;
      CopyWords(shellcode, shcLoc.value + offset);
      shcCopied := shcCopied + 1;
      return Some(shcLoc.value + offset);
    }

    method GetShcRegion() returns (r: Option<nat>)
      ensures r == setup.Region()
    {
      if !setup.binary.MachOFile? {
        return None;
      }
      var offset := MachO.GetShcRegion(setup.binary.macho);
      return if offset.None? then None else Some(offset.value / 4);
    }

    method InjectShc(i: nat) returns (done: bool)
      requires Valid() && i < image.Length
      requires CopySafe(State().img, Located(State().area, setup.Region()), State().img[i])
      modifies this, image, shellcodeBr, shellcodeBlr
      ensures Valid()
      ensures var r := Inject(old(State().img), old(State().area), setup.Region(), setup.platform, i);
        done == r.done && State() == old(State()).(img := r.img, area := r.area)
    {
      hide IsBr, BranchWord;
      if shcLoc.None? {
        shcLoc := GetShcRegion();
        if shcLoc.None? {
          return false;
        }
      }
      var at := CopyShc(image[i]);
      if at.None? {
        return false;
      }
      var opcode := DO_BL;
      if IsBr(image[i]) {
        opcode := DO_B;
      }
      image[i] := BranchWord(opcode, at.value - i);
      return true;
    }

    /** patch_dyld_in_cache */
    method PatchDyldInCache(i: nat) returns (done: bool)
      requires Valid() && i + 9 <= image.Length
      modifies this`foundDyldInCache, image
      ensures Valid() && done == Accepts(setup, old(image[..]), i)
      ensures State() == if done then old(State()).(img := old(image[..])[i + 5 := NOP][i + 8 := MOV_W0_0], found := true)
                         else old(State())
    {
      hide FollowXref;
      var envName := FollowXref(setup.binary, setup.buf, image[..], i + 2);
      var envValue := FollowXref(setup.binary, setup.buf, image[..], i + 6);
      if !PointsTo(setup, envName, "DYLD_IN_CACHE") || !PointsTo(setup, envValue, "0") {
        return false;
      }
      image[i + 5] := NOP;
      image[i + 8] := MOV_W0_0;
      foundDyldInCache := true;
      return true;
    }

    method RunCallback(p: Patch, i: nat)
      requires Valid() && PatchOk(p) && i + |p.matches| <= image.Length && FireSafe(setup, p, State(), i)
      modifies this, image, shellcodeBr, shellcodeBlr
      ensures Valid() && State() == Fire(setup, p, old(State()), i)
    {
      hide Inject, Accepts;
      match p.callback
      case InjectShc =>
        var done := InjectShc(i);
      case PatchDyldInCache =>
        var done := PatchDyldInCache(i);
    }

    /** The innermost loop: how many words of the pattern match before the first that does not. */
    method MatchCount(p: Patch, i: nat) returns (count: nat)
      requires PatchOk(p) && i + |p.matches| <= image.Length
      ensures count == |p.matches| <==> Found(image[..], i, p)
      ensures count <= |p.matches|
    {
      hide MaskMatch;
      count := 0;
      while count < |p.matches|
        invariant count <= |p.matches|
        invariant forall x :: 0 <= x < count ==> MaskMatch(image[i + x], p.matches[x], p.masks[x])
      {
        if !MaskMatch(image[i + count], p.matches[count], p.masks[count]) {
          assert !MaskMatch(image[..][i + count], p.matches[count], p.masks[count]);
          return;
        }
        count := count + 1;
      }
    }

    /** One word, every patch: the middle loop. */
    method VisitWord(patches: seq<Patch>, i: nat)
      requires Valid() && (forall p :: p in patches ==> PatchOk(p) && i + |p.matches| <= image.Length)
      requires VisitSafe(setup, patches, State(), i)
      modifies this, image, shellcodeBr, shellcodeBlr
      ensures Valid() && State() == Visit(setup, patches, old(State()), i)
    {
      hide FireSafe, Fire, Found;
      for p := 0 to |patches|
        invariant Valid() && VisitSafe(setup, patches[p..], State(), i)
        invariant Visit(setup, patches, old(State()), i) == Visit(setup, patches[p..], State(), i)
      {
        var patch := patches[p];
        assert patches[p..][0] == patch && patches[p..][1..] == patches[p + 1..];
        if !patch.disabled {
          var count := MatchCount(patch, i);
          if count == |patch.matches| {
            RunCallback(patch, i);
          }
        }
      }
    }

    /** pf_find_maskmatch32 over size bytes from word lo on; the pattern of the last word may reach past the end. */
    method FindMaskmatch32(patches: seq<Patch>, lo: nat, size: nat)
      requires Valid() && forall p :: p in patches ==> PatchOk(p) && lo + size / 4 + |p.matches| <= image.Length + 1
      requires ScanSafe(setup, patches, State(), lo, lo + size / 4)
      modifies this, image, shellcodeBr, shellcodeBlr
      ensures Valid() && State() == Scan(setup, patches, old(State()), lo, lo + size / 4)
    {
      hide Visit, VisitSafe;
      for i := 0 to size / 4
        invariant Valid() && ScanSafe(setup, patches, State(), lo + i, lo + size / 4)
        invariant Scan(setup, patches, old(State()), lo, lo + size / 4) == Scan(setup, patches, State(), lo + i, lo + size / 4)
      {
        VisitWord(patches, lo + i);
      }
    }

    /** patch_platform_check on the function of size bytes from word lo on */
    method PatchPlatformCheck(lo: nat, size: nat)
      requires Valid() && State().area == FRESH && lo + size / 4 <= image.Length
      requires setup.Region().Some? ==> RegionOk(State().img, lo, lo + size / 4, setup.Region().value)
      modifies this, image, shellcodeBr, shellcodeBlr
      ensures Valid() && foundDyldInCache == old(foundDyldInCache)
      ensures setup.Region().None? ==> State() == old(State())
      ensures setup.Region().Some? ==>
        && DoneUpTo(old(image[..]), image[..], lo, lo + size / 4, setup.Region().value, setup.platform)
        && shcCopied == Copies(old(image[..]), lo, lo + size / 4)
    {
      hide DoneUpTo, Scan, ScanSafe, RegionOk;
      if setup.Region().None? {
        NoRegionScan(setup, image[..], foundDyldInCache, lo, lo + size / 4);
      } else {
        ScanPatches(setup, image[..], lo, lo + size / 4, setup.Region().value, foundDyldInCache);
      }
      OneWordPatches();
      FindMaskmatch32(PLATFORM_PATCHES, lo, size);
    }

    /** The scan of dyld_in_cache_patch; the caller stops for good when it returns false. */
    method DyldInCachePatch(lo: nat, size: nat) returns (found: bool)
      requires Valid() && lo + size / 4 + 9 <= image.Length
      modifies this, image, shellcodeBr, shellcodeBlr
      ensures Valid() && CacheDone(setup, old(image[..]), image[..], lo, lo + size / 4)
      ensures found <==> old(foundDyldInCache) || exists i :: lo <= i < lo + size / 4 && Accepted(setup, old(image[..]), i)
    {
      hide CacheDone, Scan, ScanSafe, Accepted;
      CacheScan(setup, State(), lo, lo + size / 4);
      FindMaskmatch32(IN_CACHE_PATCHES, lo, size);
      return foundDyldInCache;
    }
  }
}

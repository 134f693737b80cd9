/** What patch_platform_check leaves behind: every br and blr is a direct branch to a copy of the shellcode. */
module PlatformPatch {
  import opened Bits
  import opened Finder
  import opened Shellcode
  import opened Slots
  import opened Templates
  import opened Wrappers

  const PLATFORM_PATCH: Patch := Patch([0xd61f_0000], [0xffdf_fc1f], false, InjectShc)
  const PLATFORM_PATCHES: seq<Patch> := [PLATFORM_PATCH]

  /** Whether a site that finds c copies made gets a copy of its own: a br only when it is the first. */
  predicate MakesCopy(w: Word, c: nat) {
    IsIndirect(w) && (c == 0 || !IsBr(w))
  }

  /** Copies made for the sites from lo up to j. */
  function Copies(img: seq<Word>, lo: nat, j: nat): nat
    requires j <= |img|
  {
    if j <= lo then 0
    else
      var c := Copies(img, lo, j - 1);
      if MakesCopy(img[j - 1], c) then c + 1 else c
  }

  /** The first site from lo on, up to k: the one that is given the first copy. */
  function FirstSite(img: seq<Word>, lo: nat, k: nat): (j: nat)
    requires lo <= k < |img| && IsIndirect(img[k])
    ensures lo <= j <= k && IsIndirect(img[j]) && forall i :: lo <= i < j ==> !IsIndirect(img[i])
    decreases k - lo
  {
    if IsIndirect(img[lo]) then lo else FirstSite(img, lo + 1, k)
  }

  lemma {:induction false} NoCopies(img: seq<Word>, lo: nat, j: nat)
    requires lo <= j <= |img| && forall i :: lo <= i < j ==> !IsIndirect(img[i])
    ensures Copies(img, lo, j) == 0
    decreases j
  {
    hide IsIndirect, IsBr;
    if j > lo {
      NoCopies(img, lo, j - 1);
    }
  }

  /** The copy that the site at k branches to. */
  function SlotOf(img: seq<Word>, lo: nat, k: nat, region: nat): nat
    requires k < |img|
  {
    if IsBr(img[k]) then region else region + 8 * Copies(img, lo, k)
  }

  function OpcodeOf(w: Word): Word {
    if IsBr(w) then DO_B else DO_BL
  }

  /** The site at k is a direct branch to its copy, and the copy ends in the site's own jump. */
  ghost predicate SitePatched(orig: seq<Word>, img: seq<Word>, lo: nat, k: nat, region: nat, platform: Word)
    requires |img| == |orig| && k < |orig|
  {
    && img[k] == BranchWord(OpcodeOf(orig[k]), SlotOf(orig, lo, k, region) - k)
    && (!IsBr(orig[k]) ==> HasCode(img, SlotOf(orig, lo, k, region), BlrCode(platform, orig[k])))
    && (IsBr(orig[k]) && Copies(orig, lo, k) == 0 ==> HasCode(img, region, BrCode(platform, orig[k])))
  }

  predicate Untouched(orig: seq<Word>, lo: nat, j: nat, region: nat, k: nat)
    requires j <= |orig| && k < |orig|
  {
    !(lo <= k < j && IsIndirect(orig[k])) && !(region <= k < region + 8 * Copies(orig, lo, j))
  }

  /** The words in front of j are done, and nothing else but the copies has changed. */
  ghost predicate DoneUpTo(orig: seq<Word>, img: seq<Word>, lo: nat, j: nat, region: nat, platform: Word)
    requires |img| == |orig| && j <= |orig|
  {
    && (forall k :: lo <= k < j && IsIndirect(orig[k]) ==> SitePatched(orig, img, lo, k, region, platform))
    && (forall k :: 0 <= k < |orig| && Untouched(orig, lo, j, region, k) ==> img[k] == orig[k])
  }

  ghost predicate AreaAt(area: Area, region: nat, copies: nat, platform: Word) {
    && AreaOk(area, platform) && area.copied == copies
    && (area.loc == Some(region) || (area.loc == None && copies == 0))
  }

  /** The region has room, and does not meet the words being scanned. */
  ghost predicate RegionOk(orig: seq<Word>, lo: nat, end: nat, region: nat) {
    && lo <= end <= |orig| <= 0x1_0000_0000
    && region + 8 * Copies(orig, lo, end) <= |orig|
    && (end <= region || region + 8 * Copies(orig, lo, end) <= lo)
  }

  lemma {:induction false} CopiesGrow(img: seq<Word>, lo: nat, k: nat, j: nat)
    requires k <= j <= |img|
    ensures Copies(img, lo, k) <= Copies(img, lo, j)
    ensures k < j && lo <= k && MakesCopy(img[k], Copies(img, lo, k)) ==> Copies(img, lo, k) < Copies(img, lo, j)
    decreases j
  {
    hide MakesCopy;
    if k < j {
      CopiesGrow(img, lo, k, j - 1);
    }
  }

  lemma FoundIsIndirect(img: seq<Word>, i: nat)
    requires i < |img|
    ensures Found(img, i, PLATFORM_PATCH) <==> IsIndirect(img[i])
  {
    hide MaskMatch;
    var p := PLATFORM_PATCH;
    assert |p.matches| == 1 && p.matches[0] == 0xd61f_0000 && p.masks[0] == 0xffdf_fc1f;
    assert MaskMatch(img[i + 0], p.matches[0], p.masks[0]) <==> IsIndirect(img[i]);
  }

  /** One word of the scan. */
  lemma VisitIs(setup: Setup, st: Dyld, i: nat)
    requires DyldOk(st) && i < |st.img|
    ensures IsIndirect(st.img[i]) ==> Visit(setup, PLATFORM_PATCHES, st, i) == Fire(setup, PLATFORM_PATCH, st, i)
    ensures !IsIndirect(st.img[i]) ==> Visit(setup, PLATFORM_PATCHES, st, i) == st
    ensures IsIndirect(st.img[i]) && CopySafe(st.img, Located(st.area, setup.Region()), st.img[i]) ==>
      VisitSafe(setup, PLATFORM_PATCHES, st, i)
    ensures !IsIndirect(st.img[i]) ==> VisitSafe(setup, PLATFORM_PATCHES, st, i)
  {
    hide Found, Fire, IsIndirect, CopySafe;
    FoundIsIndirect(st.img, i);
    assert PLATFORM_PATCHES[0] == PLATFORM_PATCH && PLATFORM_PATCHES[1..] == [];
  }

  lemma SpliceAt(img: seq<Word>, at: nat, code: seq<Word>)
    requires at + |code| <= |img|
    ensures HasCode(Splice(img, at, code), at, code)
    ensures forall k :: 0 <= k < |img| && !(at <= k < at + |code|) ==> Splice(img, at, code)[k] == img[k]
  {
  }

  lemma CodeKept(img: seq<Word>, img': seq<Word>, i: nat, code: seq<Word>)
    requires HasCode(img, i, code) && |img'| == |img|
    requires forall k :: i <= k < i + |code| ==> img'[k] == img[k]
    ensures HasCode(img', i, code)
  {
  }

  /** img' is img with the site at j patched, and with a fresh copy if the site makes one. */
  ghost predicate Extends(orig: seq<Word>, img: seq<Word>, img': seq<Word>, lo: nat, j: nat, region: nat, platform: Word)
    requires |img'| == |img| == |orig| && j < |orig|
  {
    && (IsIndirect(orig[j]) ==> SitePatched(orig, img', lo, j, region, platform))
    && (forall k :: 0 <= k < |orig| && SpareAt(orig, lo, j, region, k) ==> img'[k] == img[k])
  }

  predicate SpareAt(orig: seq<Word>, lo: nat, j: nat, region: nat, k: nat)
    requires j < |orig|
  {
    !(k == j && IsIndirect(orig[j])) && !(region + 8 * Copies(orig, lo, j) <= k < region + 8 * Copies(orig, lo, j + 1))
  }

  lemma EarlierSite(orig: seq<Word>, img: seq<Word>, img': seq<Word>, lo: nat, k: nat, j: nat, end: nat, region: nat, platform: Word)
    requires |img'| == |img| == |orig| && lo <= k < j < end && RegionOk(orig, lo, end, region)
    requires IsIndirect(orig[k]) && SitePatched(orig, img, lo, k, region, platform)
    requires Extends(orig, img, img', lo, j, region, platform)
    ensures SitePatched(orig, img', lo, k, region, platform)
  {
    hide BranchWord, MovX1, IsIndirect, IsBr, HasCode, SlotOf;
    CopiesGrow(orig, lo, k, j);
    CopiesGrow(orig, lo, j, j + 1);
    CopiesGrow(orig, lo, j + 1, end);
    assert img'[k] == img[k];
    if !IsBr(orig[k]) {
      assert SlotOf(orig, lo, k, region) == region + 8 * Copies(orig, lo, k) by { SlotOfIs(orig, lo, k, region); }
      CodeKept(img, img', SlotOf(orig, lo, k, region), BlrCode(platform, orig[k]));
    } else if Copies(orig, lo, k) == 0 {
      CodeKept(img, img', region, BrCode(platform, orig[k]));
    }
  }

  lemma SlotOfIs(orig: seq<Word>, lo: nat, k: nat, region: nat)
    requires k < |orig|
    ensures SlotOf(orig, lo, k, region) == if IsBr(orig[k]) then region else region + 8 * Copies(orig, lo, k)
  {
  }

  lemma DoneExtends(orig: seq<Word>, img: seq<Word>, img': seq<Word>, lo: nat, j: nat, end: nat, region: nat, platform: Word)
    requires |img'| == |img| == |orig| && lo <= j < end && RegionOk(orig, lo, end, region)
    requires DoneUpTo(orig, img, lo, j, region, platform)
    requires Extends(orig, img, img', lo, j, region, platform)
    ensures DoneUpTo(orig, img', lo, j + 1, region, platform)
  {
    hide IsIndirect, SitePatched, Copies;
    forall k | lo <= k < j + 1 && IsIndirect(orig[k])
      ensures SitePatched(orig, img', lo, k, region, platform)
    {
      if k < j {
        EarlierSite(orig, img, img', lo, k, j, end, region, platform);
      }
    }
    CopiesGrow(orig, lo, j, j + 1);
    CopiesGrow(orig, lo, j + 1, end);
    forall k | 0 <= k < |orig| && Untouched(orig, lo, j + 1, region, k)
      ensures img'[k] == orig[k]
    {
      assert Untouched(orig, lo, j, region, k);
    }
  }

  /** A site that shares the first copy. */
  lemma ShareExtends(orig: seq<Word>, img: seq<Word>, lo: nat, j: nat, end: nat, region: nat, platform: Word)
    requires |img| == |orig| && lo <= j < end && RegionOk(orig, lo, end, region)
    requires IsIndirect(orig[j]) && !MakesCopy(orig[j], Copies(orig, lo, j))
    ensures Extends(orig, img, img[j := BranchWord(DO_B, region - j)], lo, j, region, platform)
  {
    hide BranchWord, IsIndirect, IsBr, HasCode, Copies;
    SlotOfIs(orig, lo, j, region);
  }

  /** A site that is given a copy of its own. */
  lemma CopyExtends(orig: seq<Word>, img: seq<Word>, lo: nat, j: nat, end: nat, region: nat, platform: Word, code: seq<Word>)
    requires |img| == |orig| && lo <= j < end && RegionOk(orig, lo, end, region)
    requires MakesCopy(orig[j], Copies(orig, lo, j))
    requires code == (if IsBr(orig[j]) then BrCode(platform, orig[j]) else BlrCode(platform, orig[j]))
    ensures var slot := region + 8 * Copies(orig, lo, j);
      var img1 := Splice(img, slot, code);
      && img1[j] == img[j]
      && Extends(orig, img, img1[j := BranchWord(OpcodeOf(orig[j]), slot - j)], lo, j, region, platform)
  {
    hide BranchWord, MovX1, IsIndirect, IsBr, HasCode, Splice;
    var c := Copies(orig, lo, j);
    var slot := region + 8 * c;
    assert Copies(orig, lo, j + 1) == c + 1;
    CopiesGrow(orig, lo, j + 1, end);
    SlotOfIs(orig, lo, j, region);
    SpliceAt(img, slot, code);
    var img1 := Splice(img, slot, code);
    CodeKept(img1, img1[j := BranchWord(OpcodeOf(orig[j]), slot - j)], slot, code);
  }

  /** The three cases of copy_shc */
  lemma InjectShares(img: seq<Word>, area: Area, region: nat, platform: Word, j: nat)
    requires j < |img| && AreaAt(area, region, area.copied, platform) && area.copied > 0 && IsBr(img[j])
    ensures Inject(img, area, Some(region), platform, j) == Patching(img[j := BranchWord(DO_B, region - j)], Located(area, Some(region)), true)
    ensures CopySafe(img, Located(area, Some(region)), img[j])
  {
    hide BranchWord, IsBr, Splice, Fill, MovOf;
  }

  lemma InjectBr(img: seq<Word>, area: Area, region: nat, platform: Word, j: nat)
    requires j < |img| && AreaAt(area, region, 0, platform) && IsBr(img[j]) && region + 8 <= |img|
    requires Splice(img, region, BrCode(platform, img[j]))[j] == img[j]
    ensures var r := Inject(img, area, Some(region), platform, j);
      && r.img == Splice(img, region, BrCode(platform, img[j]))[j := BranchWord(DO_B, region - j)]
      && AreaAt(r.area, region, 1, platform) && r.done
    ensures CopySafe(img, Located(area, Some(region)), img[j])
  {
    hide BranchWord, IsBr, Splice, Fill, MovOf, BrCode, AreaOk;
    OkArea(area, region, platform);
    BrCopy(img, Located(area, Some(region)), platform, img[j]);
  }

  lemma InjectBlr(img: seq<Word>, area: Area, region: nat, c: nat, platform: Word, j: nat)
    requires j < |img| <= 0x1_0000_0000 && AreaAt(area, region, c, platform) && !IsBr(img[j]) && region + 8 * c + 8 <= |img|
    requires Splice(img, region + 8 * c, BlrCode(platform, img[j]))[j] == img[j]
    ensures var r := Inject(img, area, Some(region), platform, j);
      && r.img == Splice(img, region + 8 * c, BlrCode(platform, img[j]))[j := BranchWord(DO_BL, region + 8 * c - j)]
      && AreaAt(r.area, region, c + 1, platform) && r.done
    ensures CopySafe(img, Located(area, Some(region)), img[j])
  {
    hide BranchWord, IsBr, Splice, Fill, MovOf, BlrCode, AreaOk;
    OkArea(area, region, platform);
    BlrCopy(img, Located(area, Some(region)), platform, img[j]);
  }

  lemma OkArea(area: Area, region: nat, platform: Word)
    requires AreaOk(area, platform)
    ensures AreaOk(Located(area, Some(region)), platform) && |area.br| == 4 && |area.blr| == 8
  {
    hide MovOf;
  }

  /** inject_shc at a site, when everything in front of it is done. */
  lemma InjectExtends(orig: seq<Word>, img: seq<Word>, area: Area, lo: nat, j: nat, end: nat, region: nat, platform: Word)
    requires |img| == |orig| && lo <= j < end && RegionOk(orig, lo, end, region)
    requires IsIndirect(orig[j]) && img[j] == orig[j]
    requires AreaAt(area, region, Copies(orig, lo, j), platform)
    ensures |area.br| == 4 && |area.blr| == 8
    ensures CopySafe(img, Located(area, Some(region)), img[j])
    ensures var r := Inject(img, area, Some(region), platform, j);
      && Extends(orig, img, r.img, lo, j, region, platform)
      && AreaAt(r.area, region, Copies(orig, lo, j + 1), platform)
      && r.done
  {
    hide BranchWord, IsIndirect, IsBr, HasCode, Splice, Inject, Extends, BrCode, BlrCode, AreaOk, CopySafe;
    var c := Copies(orig, lo, j);
    OkArea(area, region, platform);
    LocatedAt(area, region, c, platform);
    CopiesGrow(orig, lo, j + 1, end);
    if !MakesCopy(orig[j], c) {
      InjectShares(img, area, region, platform, j);
      ShareExtends(orig, img, lo, j, end, region, platform);
    } else if IsBr(orig[j]) {
      CopyExtends(orig, img, lo, j, end, region, platform, BrCode(platform, orig[j]));
      InjectBr(img, area, region, platform, j);
    } else {
      CopyExtends(orig, img, lo, j, end, region, platform, BlrCode(platform, orig[j]));
      InjectBlr(img, area, region, c, platform, j);
    }
  }

  lemma LocatedAt(area: Area, region: nat, c: nat, platform: Word)
    requires AreaAt(area, region, c, platform)
    ensures AreaAt(Located(area, Some(region)), region, c, platform)
  {
    hide MovOf;
  }

  lemma UntouchedIsDone(orig: seq<Word>, lo: nat, region: nat, platform: Word)
    requires lo <= |orig|
    ensures DoneUpTo(orig, orig, lo, lo, region, platform)
  {
  }

  /** A word that is not a site. */
  lemma SkipExtends(orig: seq<Word>, img: seq<Word>, lo: nat, j: nat, region: nat, platform: Word)
    requires |img| == |orig| && j < |orig| && !IsIndirect(orig[j])
    ensures Extends(orig, img, img, lo, j, region, platform)
    ensures lo <= j ==> Copies(orig, lo, j + 1) == Copies(orig, lo, j)
  {
    hide IsIndirect, IsBr;
  }

  lemma {:induction false} ScanFrom(setup: Setup, orig: seq<Word>, st: Dyld, lo: nat, j: nat, end: nat, region: nat)
    requires DyldOk(st) && |st.img| == |orig| && lo <= j <= end && RegionOk(orig, lo, end, region)
    requires setup.Region() == Some(region)
    requires DoneUpTo(orig, st.img, lo, j, region, setup.platform)
    requires AreaAt(st.area, region, Copies(orig, lo, j), setup.platform)
    ensures ScanSafe(setup, PLATFORM_PATCHES, st, j, end)
    ensures var r := Scan(setup, PLATFORM_PATCHES, st, j, end);
      && DoneUpTo(orig, r.img, lo, end, region, setup.platform)
      && AreaAt(r.area, region, Copies(orig, lo, end), setup.platform)
      && r.found == st.found
    decreases end - j
  {
    hide IsIndirect, IsBr, SitePatched, AreaAt, Visit, VisitSafe, CopySafe, Inject, Extends, DoneUpTo;
    if j < end {
      SourceWord(orig, st.img, lo, j, end, region, setup.platform);
      VisitIs(setup, st, j);
      if IsIndirect(orig[j]) {
        InjectExtends(orig, st.img, st.area, lo, j, end, region, setup.platform);
      } else {
        SkipExtends(orig, st.img, lo, j, region, setup.platform);
      }
      var st' := Visit(setup, PLATFORM_PATCHES, st, j);
      DoneExtends(orig, st.img, st'.img, lo, j, end, region, setup.platform);
      ScanFrom(setup, orig, st', lo, j + 1, end, region);
    }
  }

  lemma SourceWord(orig: seq<Word>, img: seq<Word>, lo: nat, j: nat, end: nat, region: nat, platform: Word)
    requires |img| == |orig| && lo <= j < end && RegionOk(orig, lo, end, region)
    requires DoneUpTo(orig, img, lo, j, region, platform)
    ensures img[j] == orig[j]
  {
    hide SitePatched, Copies, IsIndirect;
    CopiesGrow(orig, lo, j, end);
    assert Untouched(orig, lo, j, region, j);
  }

  /**
  The scan as a whole, for any words and any range: every site ends as a direct branch to its copy,
  every other word outside the copies is as it was, and the copies, full of matching words, are
  not themselves rewritten.
   */
  lemma ScanPatches(setup: Setup, img: seq<Word>, lo: nat, end: nat, region: nat, found: bool)
    requires RegionOk(img, lo, end, region) && setup.Region() == Some(region)
    ensures ScanSafe(setup, PLATFORM_PATCHES, Dyld(img, FRESH, found), lo, end)
    ensures var r := Scan(setup, PLATFORM_PATCHES, Dyld(img, FRESH, found), lo, end);
      && DoneUpTo(img, r.img, lo, end, region, setup.platform)
      && r.area.copied == Copies(img, lo, end)
      && r.found == found
  {
    hide DoneUpTo, ScanSafe, Scan, AreaOk;
    FreshOk(setup.platform);
    UntouchedIsDone(img, lo, region, setup.platform);
    ScanFrom(setup, img, Dyld(img, FRESH, found), lo, lo, end, region);
  }

  /** Without a region nothing is patched, and nothing else changes. */
  lemma {:induction false} NoRegionScan(setup: Setup, img: seq<Word>, found: bool, j: nat, end: nat)
    requires setup.Region() == None && end <= |img|
    ensures ScanSafe(setup, PLATFORM_PATCHES, Dyld(img, FRESH, found), j, end)
    ensures Scan(setup, PLATFORM_PATCHES, Dyld(img, FRESH, found), j, end) == Dyld(img, FRESH, found)
    decreases end - j
  {
    hide Visit, VisitSafe, IsIndirect;
    if j < end {
      VisitIs(setup, Dyld(img, FRESH, found), j);
      NoRegionScan(setup, img, found, j + 1, end);
    }
  }

  lemma OneWordPatches()
    ensures forall p :: p in PLATFORM_PATCHES ==> PatchOk(p) && |p.matches| == 1
  {
    assert PLATFORM_PATCHES == [PLATFORM_PATCH] && |PLATFORM_PATCH.matches| == 1;
  }
}

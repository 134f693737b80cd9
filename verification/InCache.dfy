/** What dyld_in_cache_patch leaves behind: the check of DYLD_IN_CACHE always comes out as "0". */
module InCache {
  import opened Bits
  import opened Finder
  import opened Follow
  import opened Machine

  const IN_CACHE_PATCH: Patch := Patch(
    [0xaa13_03e0, 0x9400_0000, 0x9000_0001, 0x9100_0021, 0x9400_0000,
     0xb400_0000, 0x9000_0001, 0x9100_0021, 0x9400_0000, 0x3400_0000],
    [0xffff_ffff, 0xfc00_0000, 0x9f00_001f, 0xffc0_03ff, 0xfc00_0000,
     0xff00_001f, 0x9f00_001f, 0xffc0_03ff, 0xfc00_0000, 0xff00_001f],
    false, PatchDyldInCache)
  const IN_CACHE_PATCHES: seq<Patch> := [IN_CACHE_PATCH]

  /** The window at i is one that the patch rewrites. */
  predicate Accepted(setup: Setup, img: seq<Word>, i: nat) {
    Found(img, i, IN_CACHE_PATCH) && Accepts(setup, img, i)
  }

  predicate Fits(w: Word, x: nat)
    requires x < 10
  {
    MaskMatch(w, IN_CACHE_PATCH.matches[x], IN_CACHE_PATCH.masks[x])
  }

  predicate FitsAt(img: seq<Word>, i: nat, x: nat)
    requires x < 10 && i + x < |img|
  {
    Fits(img[i + x], x)
  }

  lemma FoundFits(img: seq<Word>, i: nat)
    ensures Found(img, i, IN_CACHE_PATCH) <==> i + 10 <= |img| && forall x :: 0 <= x < 10 ==> FitsAt(img, i, x)
  {
    hide MaskMatch;
    var p := IN_CACHE_PATCH;
    assert |p.matches| == 10;
    if i + 10 <= |img| {
      forall x | 0 <= x < 10
        ensures FitsAt(img, i, x) <==> MaskMatch(img[i + x], p.matches[x], p.masks[x])
      {
      }
    }
  }

  /** Neither word that the patch writes fits anywhere in the pattern, nor does the pattern's first word further on. */
  lemma NothingFits(x: nat)
    requires x < 10
    ensures !Fits(NOP, x) && !Fits(MOV_W0_0, x)
    ensures x > 0 ==> !Fits(0xaa13_03e0, x)
  {
  }

  lemma FirstWord(w: Word)
    ensures Fits(w, 0) ==> w == 0xaa13_03e0
  {
  }

  /** Two windows of the pattern never overlap. */
  lemma WindowsApart(img: seq<Word>, i: nat, j: nat)
    requires Found(img, i, IN_CACHE_PATCH) && Found(img, j, IN_CACHE_PATCH) && i < j
    ensures i + 10 <= j
  {
    hide Fits, Found;
    if j < i + 10 {
      FoundFits(img, i);
      FoundFits(img, j);
      assert FitsAt(img, j, 0) && FitsAt(img, i, j - i);
      FirstWord(img[j]);
      NothingFits(j - i);
    }
  }

  /** Where the scan of lo up to j has written. */
  ghost predicate Written(setup: Setup, orig: seq<Word>, lo: nat, j: nat, k: int, at: nat) {
    exists i :: lo <= i < j && k == i + at && Accepted(setup, orig, i)
  }

  /** Word 5 of every accepted window is a nop, word 8 is mov w0, 0, and no other word has changed. */
  ghost predicate CacheDone(setup: Setup, orig: seq<Word>, img: seq<Word>, lo: nat, j: nat) {
    && |img| == |orig|
    && forall k :: 0 <= k < |orig| ==>
         img[k] == if Written(setup, orig, lo, j, k, 5) then NOP else if Written(setup, orig, lo, j, k, 8) then MOV_W0_0 else orig[k]
  }

  /** In an image under way, a window that matches has not been written to, and is accepted if it was at first. */
  lemma WindowIntact(setup: Setup, orig: seq<Word>, img: seq<Word>, lo: nat, j: nat, i: nat)
    requires CacheDone(setup, orig, img, lo, j) && Found(img, i, IN_CACHE_PATCH)
    ensures forall k :: i <= k < i + 10 ==> img[k] == orig[k]
    ensures Found(orig, i, IN_CACHE_PATCH) && (Accepts(setup, img, i) <==> Accepts(setup, orig, i))
  {
    hide Fits, Found, Written, PointsTo;
    FoundFits(img, i);
    forall k | i <= k < i + 10
      ensures img[k] == orig[k]
    {
      assert FitsAt(img, i, k - i);
      NothingFits(k - i);
    }
    FoundFits(orig, i);
    forall x | 0 <= x < 10
      ensures FitsAt(orig, i, x)
    {
      assert FitsAt(img, i, x);
    }
    XrefReads(setup, img, orig, i + 2);
    XrefReads(setup, img, orig, i + 6);
  }

  lemma XrefReads(setup: Setup, img: seq<Word>, img': seq<Word>, i: nat)
    requires |img| == |img'| && i + 1 < |img| && img[i] == img'[i] && img[i + 1] == img'[i + 1]
    ensures FollowXref(setup.binary, setup.buf, img, i) == FollowXref(setup.binary, setup.buf, img', i)
  {
    hide IsAdrp, IsAddImm, AdrpOffset, Value, Imm12, PtrToVa, VaToPtr;
  }

  /** A window ahead that was accepted at first is still whole when the scan comes to it. */
  lemma WindowReached(setup: Setup, orig: seq<Word>, img: seq<Word>, lo: nat, j: nat)
    requires CacheDone(setup, orig, img, lo, j)
    ensures Accepted(setup, img, j) <==> Accepted(setup, orig, j)
  {
    hide Fits, Found, Accepts;
    if Found(img, j, IN_CACHE_PATCH) {
      WindowIntact(setup, orig, img, lo, j, j);
    } else if Found(orig, j, IN_CACHE_PATCH) {
      FoundFits(orig, j);
      forall x | 0 <= x < 10
        ensures FitsAt(img, j, x)
      {
        assert FitsAt(orig, j, x);
        NotWritten(setup, orig, lo, j, j + x);
      }
      FoundFits(img, j);
    }
  }

  lemma NotWritten(setup: Setup, orig: seq<Word>, lo: nat, j: nat, k: nat)
    requires Found(orig, j, IN_CACHE_PATCH) && j <= k < j + 10
    ensures !Written(setup, orig, lo, j, k, 5) && !Written(setup, orig, lo, j, k, 8)
  {
    hide Found, Accepts;
    forall i | lo <= i < j && Accepted(setup, orig, i)
      ensures i + 10 <= j
    {
      WindowsApart(orig, i, j);
    }
  }

  /** One word of the scan. */
  lemma VisitCache(setup: Setup, st: Dyld, i: nat)
    requires DyldOk(st)
    ensures VisitSafe(setup, IN_CACHE_PATCHES, st, i)
    ensures Visit(setup, IN_CACHE_PATCHES, st, i) ==
      if Accepted(setup, st.img, i) then st.(img := st.img[i + 5 := NOP][i + 8 := MOV_W0_0], found := true) else st
  {
    hide Found, Accepts;
    assert IN_CACHE_PATCHES[0] == IN_CACHE_PATCH && IN_CACHE_PATCHES[1..] == [];
    if Found(st.img, i, IN_CACHE_PATCH) {
      FoundFits(st.img, i);
    }
  }

  lemma WindowWrites(setup: Setup, orig: seq<Word>, img: seq<Word>, lo: nat, j: nat)
    requires CacheDone(setup, orig, img, lo, j) && lo <= j
    ensures Accepted(setup, orig, j) ==>
      j + 10 <= |orig| && CacheDone(setup, orig, img[j + 5 := NOP][j + 8 := MOV_W0_0], lo, j + 1)
    ensures !Accepted(setup, orig, j) ==> CacheDone(setup, orig, img, lo, j + 1)
  {
    hide Found, Accepts;
    if Accepted(setup, orig, j) {
      FoundFits(orig, j);
      forall k | 0 <= k < |orig|
        ensures Written(setup, orig, lo, j + 1, k, 5) <==> Written(setup, orig, lo, j, k, 5) || k == j + 5
        ensures Written(setup, orig, lo, j + 1, k, 8) <==> Written(setup, orig, lo, j, k, 8) || k == j + 8
      {
      }
      NotWritten(setup, orig, lo, j, j + 5);
      NotWritten(setup, orig, lo, j, j + 8);
    } else {
      forall k, at | 0 <= k < |orig| && at in {5, 8}
        ensures Written(setup, orig, lo, j + 1, k, at) <==> Written(setup, orig, lo, j, k, at)
      {
      }
    }
  }

  lemma {:induction false} CacheScanFrom(setup: Setup, orig: seq<Word>, st: Dyld, lo: nat, j: nat, end: nat)
    requires DyldOk(st) && lo <= j <= end && CacheDone(setup, orig, st.img, lo, j)
    ensures ScanSafe(setup, IN_CACHE_PATCHES, st, j, end)
    ensures CacheDone(setup, orig, Scan(setup, IN_CACHE_PATCHES, st, j, end).img, lo, end)
    ensures Scan(setup, IN_CACHE_PATCHES, st, j, end).area == st.area
    ensures Scan(setup, IN_CACHE_PATCHES, st, j, end).found <==>
      st.found || exists i :: j <= i < end && Accepted(setup, orig, i)
    decreases end - j
  {
    hide Accepted, CacheDone, Visit, VisitSafe;
    if j < end {
      VisitCache(setup, st, j);
      WindowReached(setup, orig, st.img, lo, j);
      WindowWrites(setup, orig, st.img, lo, j);
      CacheScanFrom(setup, orig, Visit(setup, IN_CACHE_PATCHES, st, j), lo, j + 1, end);
    }
  }

  lemma NothingWritten(setup: Setup, img: seq<Word>, lo: nat)
    ensures CacheDone(setup, img, img, lo, lo)
  {
  }

  /**
  The scan as a whole: words 5 and 8 of accepted windows, and no others, change; the flag says whether
  there was one; and in what is left no window is accepted any more.
   */
  lemma CacheScan(setup: Setup, st: Dyld, lo: nat, end: nat)
    requires DyldOk(st) && lo <= end
    ensures ScanSafe(setup, IN_CACHE_PATCHES, st, lo, end)
    ensures var r := Scan(setup, IN_CACHE_PATCHES, st, lo, end);
      && CacheDone(setup, st.img, r.img, lo, end)
      && r.area == st.area
      && (r.found <==> st.found || exists i :: lo <= i < end && Accepted(setup, st.img, i))
      && (forall i :: lo <= i < end ==> !Accepted(setup, r.img, i))
  {
    hide Accepts, CacheDone, Found;
    NothingWritten(setup, st.img, lo);
    CacheScanFrom(setup, st.img, st, lo, lo, end);
    var r := Scan(setup, IN_CACHE_PATCHES, st, lo, end);
    forall i | lo <= i < end
      ensures !Accepted(setup, r.img, i)
    {
      if Accepted(setup, r.img, i) {
        WindowIntact(setup, st.img, r.img, lo, end, i);
        AcceptedIsWritten(setup, st.img, r.img, lo, end, i);
      }
    }
  }

  lemma AcceptedIsWritten(setup: Setup, orig: seq<Word>, img: seq<Word>, lo: nat, end: nat, i: nat)
    requires CacheDone(setup, orig, img, lo, end) && lo <= i < end && Accepted(setup, orig, i)
    ensures i + 10 <= |orig| && img[i + 5] == NOP && !Found(img, i, IN_CACHE_PATCH)
  {
    hide Accepts, Fits;
    FoundFits(orig, i);
    assert Written(setup, orig, lo, end, i + 5, 5);
    FoundFits(img, i);
    NothingFits(5);
    assert !FitsAt(img, i, 5);
  }

  /** A second scan changes nothing. */
  lemma CacheScanTwice(setup: Setup, st: Dyld, lo: nat, end: nat)
    requires DyldOk(st) && lo <= end
    ensures var r := Scan(setup, IN_CACHE_PATCHES, st, lo, end);
      Scan(setup, IN_CACHE_PATCHES, r, lo, end) == r
  {
    hide Accepted, CacheDone, ScanSafe;
    CacheScan(setup, st, lo, end);
    var r := Scan(setup, IN_CACHE_PATCHES, st, lo, end);
    QuietScan(setup, r, lo, end);
  }

  lemma {:induction false} QuietScan(setup: Setup, st: Dyld, j: nat, end: nat)
    requires DyldOk(st) && forall i :: j <= i < end ==> !Accepted(setup, st.img, i)
    ensures Scan(setup, IN_CACHE_PATCHES, st, j, end) == st
    decreases end - j
  {
    hide Accepted, Visit;
    if j < end {
      VisitCache(setup, st, j);
      QuietScan(setup, st, j + 1, end);
    }
  }
}

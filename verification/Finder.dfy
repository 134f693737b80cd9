/** pf_find_maskmatch32: a scan over the words of a function whose callbacks rewrite what it scans. */
module Finder {
  import opened Bits
  import opened Follow
  import opened Shellcode
  import opened Wrappers
  import MachO

  datatype Callback = InjectShc | PatchDyldInCache
  datatype Patch = Patch(matches: seq<Word>, masks: seq<Word>, disabled: bool, callback: Callback)

  /** What stays fixed during a run: the platform, the headers of the file, where it was read, and its strings. */
  datatype Setup = Setup(platform: Word, binary: Binary, buf: DWord, text: DWord -> string) {
    /** get_shc_region as a word index; the region is word-aligned when the last section ends on a word. */
    function Region(): Option<nat> {
      if !binary.MachOFile? then None
      else
        match MachO.ShcRegion(binary.macho)
        case None => None
        case Some(offset) => Some(offset / 4)
    }
  }

  /** What a run changes. */
  datatype Dyld = Dyld(img: seq<Word>, area: Area, found: bool)

  const NOP: Word := 0xd503_201f
  const MOV_W0_0: Word := 0x5280_0000

  ghost predicate DyldOk(st: Dyld) {
    |st.area.br| == 4 && |st.area.blr| == 8
  }

  predicate PatchOk(p: Patch) {
    |p.matches| == |p.masks| > 0 && (p.callback.PatchDyldInCache? ==> |p.matches| >= 9)
  }

  /** All words of the pattern match at i. */
  predicate Found(img: seq<Word>, i: nat, p: Patch)
    requires PatchOk(p)
  {
    i + |p.matches| <= |img|
    && forall x :: 0 <= x < |p.matches| ==> MaskMatch(img[i + x], p.matches[x], p.masks[x])
  }

  predicate PointsTo(setup: Setup, xref: Option<DWord>, s: string) {
    xref.Some? && xref.value != 0 && setup.text(xref.value) == s
  }

  /** The strings that patch_dyld_in_cache asks for */
  predicate Accepts(setup: Setup, img: seq<Word>, i: nat) {
    && PointsTo(setup, FollowXref(setup.binary, setup.buf, img, i + 2), "DYLD_IN_CACHE")
    && PointsTo(setup, FollowXref(setup.binary, setup.buf, img, i + 6), "0")
  }

  function Fire(setup: Setup, p: Patch, st: Dyld, i: nat): (r: Dyld)
    requires DyldOk(st) && PatchOk(p) && i + |p.matches| <= |st.img|
    ensures DyldOk(r) && |r.img| == |st.img|
  {
    match p.callback
    case InjectShc =>
      var r := Inject(st.img, st.area, setup.Region(), setup.platform, i);
      st.(img := r.img, area := r.area)
    case PatchDyldInCache =>
      if Accepts(setup, st.img, i) then st.(img := st.img[i + 5 := NOP][i + 8 := MOV_W0_0], found := true)
      else st
  }

  /** Every patch in turn, at word i. */
  function Visit(setup: Setup, patches: seq<Patch>, st: Dyld, i: nat): (r: Dyld)
    requires DyldOk(st) && forall p :: p in patches ==> PatchOk(p)
    ensures DyldOk(r) && |r.img| == |st.img|
  {
    if patches == [] then st
    else
      var p := patches[0];
      Visit(setup, patches[1..], if !p.disabled && Found(st.img, i, p) then Fire(setup, p, st, i) else st, i)
  }

  /** The words from i up to end, in order. */
  function Scan(setup: Setup, patches: seq<Patch>, st: Dyld, i: nat, end: nat): (r: Dyld)
    requires DyldOk(st) && forall p :: p in patches ==> PatchOk(p)
    ensures DyldOk(r) && |r.img| == |st.img|
    decreases end - i
  {
    if i >= end then st else Scan(setup, patches, Visit(setup, patches, st, i), i + 1, end)
  }

  // The order of a run.

  /** Patches are tried one behind the other, each on what those in front of it have left. */
  lemma {:induction false} VisitJoin(setup: Setup, ps: seq<Patch>, qs: seq<Patch>, st: Dyld, i: nat)
    requires DyldOk(st) && forall p :: p in ps + qs ==> PatchOk(p)
    ensures (forall p :: p in ps ==> PatchOk(p)) && (forall q :: q in qs ==> PatchOk(q))
    ensures Visit(setup, ps + qs, st, i) == Visit(setup, qs, Visit(setup, ps, st, i), i)
    decreases |ps|
  {
    hide Fire, PatchOk;
    if ps == [] {
      assert ps + qs == qs;
    } else {
      var p := ps[0];
      assert p in ps + qs && (ps + qs)[0] == p && (ps + qs)[1..] == ps[1..] + qs;
      VisitJoin(setup, ps[1..], qs, if !p.disabled && Found(st.img, i, p) then Fire(setup, p, st, i) else st, i);
    }
  }

  /** A patch that is disabled, or whose words do not all match, does nothing. */
  lemma VisitOne(setup: Setup, p: Patch, st: Dyld, i: nat)
    requires DyldOk(st) && PatchOk(p)
    ensures p.disabled || !Found(st.img, i, p) ==> Visit(setup, [p], st, i) == st
    ensures !p.disabled && Found(st.img, i, p) ==> Visit(setup, [p], st, i) == Fire(setup, p, st, i)
  {
    hide Fire, Found, PatchOk;
    FoundInside(st.img, i, p);
    assert [p][1..] == [];
  }

  lemma FoundInside(img: seq<Word>, i: nat, p: Patch)
    requires PatchOk(p)
    ensures Found(img, i, p) ==> i + |p.matches| <= |img|
  {
  }

  /** Words are visited in order, each in the image that the words in front of it have left. */
  lemma {:induction false} ScanJoin(setup: Setup, patches: seq<Patch>, st: Dyld, i: nat, m: nat, end: nat)
    requires DyldOk(st) && (forall p :: p in patches ==> PatchOk(p)) && i <= m <= end
    ensures Scan(setup, patches, st, i, end) == Scan(setup, patches, Scan(setup, patches, st, i, m), m, end)
    decreases m - i
  {
    hide Visit, PatchOk;
    if i < m {
      ScanJoin(setup, patches, Visit(setup, patches, st, i), i + 1, m, end);
    }
  }

  // Callbacks write only inside the buffer.

  ghost predicate FireSafe(setup: Setup, p: Patch, st: Dyld, i: nat)
    requires DyldOk(st) && PatchOk(p) && i + |p.matches| <= |st.img|
  {
    p.callback.InjectShc? ==> CopySafe(st.img, Located(st.area, setup.Region()), st.img[i])
  }

  ghost predicate VisitSafe(setup: Setup, patches: seq<Patch>, st: Dyld, i: nat)
    requires DyldOk(st) && forall p :: p in patches ==> PatchOk(p)
  {
    patches == [] ||
    var p := patches[0];
    if !p.disabled && Found(st.img, i, p)
    then FireSafe(setup, p, st, i) && VisitSafe(setup, patches[1..], Fire(setup, p, st, i), i)
    else VisitSafe(setup, patches[1..], st, i)
  }

  ghost predicate ScanSafe(setup: Setup, patches: seq<Patch>, st: Dyld, i: nat, end: nat)
    requires DyldOk(st) && forall p :: p in patches ==> PatchOk(p)
    decreases end - i
  {
    i >= end || (VisitSafe(setup, patches, st, i) && ScanSafe(setup, patches, Visit(setup, patches, st, i), i + 1, end))
  }
}

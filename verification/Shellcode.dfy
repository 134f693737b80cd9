/** The allocator of shellcode copies: what copy_shc and inject_shc do to the image. */
module Shellcode {
  import opened Bits
  import opened Slots
  import opened Templates
  import opened Wrappers

  predicate IsBr(w: Word) {
    MaskMatch(w, 0xd61f_0000, 0xffff_fc1f)
  }

  /** br or blr: the pattern of the platform patch */
  predicate IsIndirect(w: Word) {
    MaskMatch(w, 0xd61f_0000, 0xffdf_fc1f)
  }

  /** shc_loc as an index into the image, shc_copied, and the two templates, which are edited in place. */
  datatype Area = Area(loc: Option<nat>, copied: nat, br: seq<Word>, blr: seq<Word>)

  const BR_TEMPLATE: seq<Word> := [CMP_X1_10, BEQ_8, MOV_X1, 0]
  const BLR_TEMPLATE: seq<Word> := [STP_FP_LR, MOV_FP_SP, CMP_X1_10, BEQ_8, MOV_X1, 0, LDP_FP_LR, RETURN]
  const FRESH: Area := Area(None, 0, BR_TEMPLATE, BLR_TEMPLATE)

  /** The templates are as declared, except that the platform may already be filled in. */
  ghost predicate AreaOk(a: Area, platform: Word) {
    && (exists mov: Word, jmp: Word :: (MovOf(mov, platform) && a.br == [CMP_X1_10, BEQ_8, mov, jmp]))
    && (exists mov: Word, jmp: Word :: (MovOf(mov, platform)
        && a.blr == [STP_FP_LR, MOV_FP_SP, CMP_X1_10, BEQ_8, mov, jmp, LDP_FP_LR, RETURN]))
  }

  predicate MovOf(mov: Word, platform: Word) {
    mov == MOV_X1 || mov == MovX1(platform)
  }

  lemma FreshOk(platform: Word)
    ensures AreaOk(FRESH, platform)
  {
    hide MovX1;
    assert MovOf(MOV_X1, platform);
    assert FRESH.br == [CMP_X1_10, BEQ_8, MOV_X1, 0];
  }

  function Fill(mov: Word, platform: Word): Word {
    mov | (platform << 5)
  }

  /** Or-ing the platform in again changes nothing. */
  lemma FillAgain(mov: Word, platform: Word)
    requires MovOf(mov, platform)
    ensures Fill(mov, platform) == MovX1(platform)
  {
  }

  /** A copy that runs past the end of the buffer is undefined in C; CopySafe below rules it out. */
  function Splice(img: seq<Word>, at: nat, code: seq<Word>): (r: seq<Word>)
    ensures |r| == |img|
  {
    if at + |code| <= |img| then img[..at] + code + img[at + |code|..] else img
  }

  /** One more word of the copy */
  lemma SpliceMore(img: seq<Word>, at: nat, code: seq<Word>, i: nat)
    requires at + |code| <= |img| && i < |code|
    ensures Splice(img, at, code[..i])[at + i := code[i]] == Splice(img, at, code[..i + 1])
  {
    assert code[..i + 1] == code[..i] + [code[i]];
    assert img[at + i..] == [img[at + i]] + img[at + i + 1..];
  }

  lemma SpliceNone(img: seq<Word>, at: nat)
    requires at <= |img|
    ensures Splice(img, at, []) == img
  {
  }

  datatype Copy = Copy(img: seq<Word>, area: Area, at: Option<nat>)

  /** copy_shc */
  function CopyShc(img: seq<Word>, area: Area, platform: Word, jmp: Word): (r: Copy)
    requires |area.br| == 4 && |area.blr| == 8
    ensures |r.img| == |img| && |r.area.br| == 4 && |r.area.blr| == 8
  {
    if area.loc.None? then Copy(img, area, None)
    else if IsBr(jmp) then
      if area.copied != 0 then Copy(img, area, area.loc)
      else
        var br := area.br[2 := Fill(area.br[2], platform)][3 := jmp];
        var at := area.loc.value + 4 * area.copied;
        Copy(Splice(img, at, br), area.(br := br, copied := area.copied + 1), Some(at))
    else
      var blr := area.blr[4 := Fill(area.blr[4], platform)][5 := jmp];
      var at := area.loc.value + 8 * area.copied;
      Copy(Splice(img, at, blr), area.(blr := blr, copied := area.copied + 1), Some(at))
  }

  /** The copy stays inside the buffer, and its offset inside 32 bits. */
  predicate CopySafe(img: seq<Word>, area: Area, jmp: Word) {
    area.loc.None? || (IsBr(jmp) && area.copied != 0)
    || (area.loc.value + (if IsBr(jmp) then 4 else 8 * area.copied + 8) <= |img| && 8 * area.copied < 0x1_0000_0000)
  }

  datatype Patching = Patching(img: seq<Word>, area: Area, done: bool)

  function Located(area: Area, region: Option<nat>): Area {
    if area.loc.Some? then area else area.(loc := region)
  }

  /** inject_shc at word i, where region is what get_shc_region finds */
  function Inject(img: seq<Word>, area: Area, region: Option<nat>, platform: Word, i: nat): (r: Patching)
    requires i < |img| && |area.br| == 4 && |area.blr| == 8
    ensures |r.img| == |img| && |r.area.br| == 4 && |r.area.blr| == 8
  {
    var c := CopyShc(img, Located(area, region), platform, img[i]);
    if c.at.None? then Patching(c.img, c.area, false)
    else Patching(c.img[i := BranchWord(if IsBr(c.img[i]) then DO_B else DO_BL, c.at.value - i)], c.area, true)
  }

  lemma MovFilled(platform: Word)
    ensures MovOf(MovX1(platform), platform)
  {
  }

  /** The first copy made for a br: the filled-in template. */
  lemma BrCopy(img: seq<Word>, area: Area, platform: Word, jmp: Word)
    requires AreaOk(area, platform) && IsBr(jmp) && area.copied == 0 && area.loc.Some?
    ensures CopyShc(img, area, platform, jmp).img == Splice(img, area.loc.value, BrCode(platform, jmp))
    ensures AreaOk(CopyShc(img, area, platform, jmp).area, platform)
  {
    hide MovX1, IsBr, Fill, MovOf, Splice;
    FillAgain(area.br[2], platform);
    MovFilled(platform);
    assert area.br[2 := MovX1(platform)][3 := jmp] == BrCode(platform, jmp);
  }

  /** Every copy made for a blr: the filled-in template, whatever was filled in before. */
  lemma BlrCopy(img: seq<Word>, area: Area, platform: Word, jmp: Word)
    requires AreaOk(area, platform) && !IsBr(jmp) && area.loc.Some?
    ensures CopyShc(img, area, platform, jmp).img == Splice(img, area.loc.value + 8 * area.copied, BlrCode(platform, jmp))
    ensures AreaOk(CopyShc(img, area, platform, jmp).area, platform)
  {
    hide MovX1, IsBr, Fill, MovOf, Splice;
    FillAgain(area.blr[4], platform);
    MovFilled(platform);
    assert area.blr[4 := MovX1(platform)][5 := jmp] == BlrCode(platform, jmp);
  }
}

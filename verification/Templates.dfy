module Templates {
  import opened Bits
  import opened Machine

  const STP_FP_LR: Word := 0xa9bf_7bfd
  const MOV_FP_SP: Word := 0x9100_03fd
  const CMP_X1_10: Word := 0xf100_283f
  const BEQ_8: Word := 0x5400_0040
  const MOV_X1: Word := 0xd280_0001
  const LDP_FP_LR: Word := 0xa8c1_7bfd
  const RETURN: Word := 0xd65f_03c0

  /** A field of width k whose bits above the low j are clear. */
  lemma Field(w: Word, k: nat, j: nat, v: Word)
    requires j <= k <= 31 && Masked(w, Ones(k)) == v && Within(v, Ones(j))
    ensures Value(w, k) == Value(v, j)
  {
    hide Value, Ones, Masked, Within;
    ValueMasked(w, k);
    ValueNarrow(v, j, k);
  }

  lemma SmallValues()
    ensures Value(1, 5) == 1 && Value(29, 5) == 29 && Value(30, 5) == 30 && Value(31, 5) == 31 && Value(0, 5) == 0
    ensures Value(10, 5) == 10 && Value(2, 5) == 2 && Value(0x7e, 7) == 0x7e
    ensures Pow2(5) == 32 && Pow2(7) == 128 && Pow2(12) == 4096 && Pow2(19) == 0x8_0000
    ensures Ones(5) == 0x1f && Ones(7) == 0x7f && Ones(12) == 0xfff && Ones(19) == 0x7_ffff
  {
    assert Value(0xf, 4) == 0xf;
    assert Pow2(9) == 512;
    assert Pow2(16) == 0x1_0000;
    assert Ones(9) == 0x1ff;
    assert Ones(14) == 0x3fff;
  }

  lemma StpDecodes()
    ensures Decode(STP_FP_LR) == StpPre(29, 30, 31, -16)
  {
    hide Value, Ones, Pow2;
    SmallValues();
    Field(STP_FP_LR, 5, 5, 29);
    Field(STP_FP_LR >> 10, 5, 5, 30);
    Field(STP_FP_LR >> 5, 5, 5, 31);
    Field(STP_FP_LR >> 15, 7, 7, 0x7e);
  }

  lemma MovFpDecodes()
    ensures Decode(MOV_FP_SP) == AddImm(29, 31, 0)
  {
    hide Value, Ones, Pow2;
    SmallValues();
    Field(MOV_FP_SP, 5, 5, 29);
    Field(MOV_FP_SP >> 5, 5, 5, 31);
    Field(MOV_FP_SP >> 10, 12, 5, 0);
  }

  lemma CmpDecodes()
    ensures Decode(CMP_X1_10) == CmpImm(1, 10)
  {
    hide Value, Ones, Pow2;
    SmallValues();
    Field(CMP_X1_10 >> 5, 5, 5, 1);
    Field(CMP_X1_10 >> 10, 12, 5, 10);
  }

  lemma BeqDecodes()
    ensures Decode(BEQ_8) == BEq(8)
  {
    hide Value, Ones, Pow2;
    SmallValues();
    Field(BEQ_8 >> 5, 19, 5, 2);
  }

  lemma LdpDecodes()
    ensures Decode(LDP_FP_LR) == LdpPost(29, 30, 31, 16)
  {
    hide Value, Ones, Pow2;
    SmallValues();
    Field(LDP_FP_LR, 5, 5, 29);
    Field(LDP_FP_LR >> 10, 5, 5, 30);
    Field(LDP_FP_LR >> 5, 5, 5, 31);
    Field(LDP_FP_LR >> 15, 7, 5, 2);
  }

  lemma RetDecodes()
    ensures Decode(RETURN) == RET(30)
  {
    hide Value, Ones, Pow2;
    SmallValues();
    Field(RETURN >> 5, 5, 5, 30);
  }

  function MovX1(platform: Word): Word {
    MOV_X1 | (platform << 5)
  }

  lemma MovX1Fields(platform: Word)
    requires platform & 0xffff == platform
    ensures MovX1(platform) & 0xffe0_0000 == 0xd280_0000
    ensures MovX1(platform) & 0x1f == 1
    ensures (MovX1(platform) >> 5) & 0xffff == platform
  {
  }

  lemma DecodeMovZ(w: Word)
    requires w & 0xffe0_0000 == 0xd280_0000
    ensures Decode(w) == MovZ(Rd(w), Value(w >> 5, 16))
  {
    hide Value, Pow2;
  }

  lemma MovX1Decodes(platform: Word)
    requires platform & 0xffff == platform
    ensures Decode(MovX1(platform)) == MovZ(1, Value(platform, 16))
  {
    hide Value, Ones, Pow2, MovX1, Decode;
    var w := MovX1(platform);
    SmallValues();
    Ones16();
    MovX1Fields(platform);
    Field(w, 5, 5, 1);
    Field(w >> 5, 16, 16, platform);
    DecodeMovZ(w);
  }

  lemma Ones16()
    ensures Ones(16) == 0xffff
  {
    assert Ones(4) == 0xf;
    assert Ones(8) == 0xff;
    assert Ones(12) == 0xfff;
  }
}

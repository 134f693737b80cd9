/**
Instruction words are bit-vectors; addresses and displacements are integers. This module
has the conversions between the two, written bit by bit, and the facts about them that
the rest needs.
 */
module Bits {
  import opened Numbers

  const WRAP: int := 0x1_0000_0000_0000_0000

  type Word = bv32
  type DWord = d: int | 0 <= d < 0x1_0000_0000_0000_0000

  /** pf_maskmatch32 */
  predicate MaskMatch(insn: Word, wanted: Word, mask: Word) {
    insn & mask == wanted
  }

  function Pow2(k: nat): (p: nat)
    ensures p > 0
  {
    if k == 0 then 1 else 2 * Pow2(k - 1)
  }

  /** The value of the low k bits of w, unsigned. */
  function Value(w: Word, k: nat): (n: nat)
    ensures n < Pow2(k)
  {
    if k == 0 then 0 else 2 * Value(Half(w), k - 1) + (if Odd(w) then 1 else 0)
  }

  function Half(w: Word): Word {
    w >> 1
  }

  predicate Odd(w: Word) {
    w & 1 == 1
  }

  /** The low k bits of w as a two's complement number: what shifting left and back with sign yields. */
  function SignedValue(w: Word, k: nat): int {
    AsSigned(Value(w, k), Pow2(k))
  }

  function Append(w: Word, b: bool): Word {
    (w << 1) | (if b then 1 else 0)
  }

  /** The k-bit two's complement pattern of n, zero above: (uint32_t) n when k is 32. */
  function Pattern(n: int, k: nat): Word
    decreases k
  {
    if k == 0 then 0 else Append(Pattern(n / 2, k - 1), n % 2 == 1)
  }

  function Ones(k: nat): Word {
    if k == 0 then 0 else Append(Ones(k - 1), true)
  }

  predicate Within(w: Word, mask: Word) {
    w & mask == w
  }

  lemma AppendWithin(w: Word, mask: Word, b: bool)
    requires Within(w, mask)
    ensures Within(Append(w, b), Append(mask, true))
  {
  }

  lemma WithinTransitive(w: Word, small: Word, large: Word)
    requires Within(w, small) && Within(small, large)
    ensures Within(w, large)
  {
  }

  lemma AppendBack(w: Word, b: bool)
    requires Within(w, 0x7fff_ffff)
    ensures Half(Append(w, b)) == w && (Odd(Append(w, b)) <==> b)
  {
  }

  lemma {:induction false} PatternWithin(n: int, k: nat)
    ensures Within(Pattern(n, k), Ones(k))
    decreases k
  {
    hide Append, Within;
    if k > 0 {
      PatternWithin(n / 2, k - 1);
      AppendWithin(Pattern(n / 2, k - 1), Ones(k - 1), n % 2 == 1);
    } else {
      WithinSelf(0);
    }
  }

  lemma WithinSelf(w: Word)
    ensures Within(w, w)
  {
  }

  lemma Ones31()
    ensures Ones(26) == 0x3ff_ffff && Ones(31) == 0x7fff_ffff
    ensures Within(Ones(31), 0x7fff_ffff)
  {
    assert Ones(2) == 0x3;
    assert Ones(6) == 0x3f;
    assert Ones(10) == 0x3ff;
    assert Ones(14) == 0x3fff;
    assert Ones(18) == 0x3_ffff;
    assert Ones(22) == 0x3f_ffff;
    assert Ones(26) == 0x3ff_ffff;
    assert Ones(29) == 0x1fff_ffff;
  }

  lemma {:induction false} OnesWithin(k: nat, m: nat)
    requires k <= m
    ensures Within(Ones(k), Ones(m))
    decreases k
  {
    hide Append, Within;
    if k > 0 {
      OnesWithin(k - 1, m - 1);
      AppendWithin(Ones(k - 1), Ones(m - 1), true);
    } else {
      ZeroWithin(Ones(m));
    }
  }

  lemma ZeroWithin(w: Word)
    ensures Within(0, w)
  {
  }

  lemma {:induction false} ValueOfPattern(n: int, k: nat)
    requires k <= 31 && 0 <= n + Pow2(k) && n < Pow2(k)
    ensures Value(Pattern(n, k), k) == if n < 0 then n + Pow2(k) else n
    decreases k
  {
    hide Append, Half, Odd, Within;
    if k > 0 {
      var p := Pattern(n / 2, k - 1);
      ValueOfPattern(n / 2, k - 1);
      PatternWithin(n / 2, k - 1);
      OnesWithin(k - 1, 31);
      Ones31();
      WithinTransitive(p, Ones(k - 1), Ones(31));
      AppendBack(p, n % 2 == 1);
    }
  }

  lemma {:induction false} PatternZero(k: nat)
    ensures Pattern(0, k) == 0
  {
    hide Append;
    if k > 0 {
      PatternZero(k - 1);
      AppendZero();
    }
  }

  lemma AppendZero()
    ensures Append(0, false) == 0
  {
  }

  /** A number that fits in j bits has the same pattern in any wider field. */
  lemma {:induction false} PatternNarrow(n: nat, j: nat, k: nat)
    requires n < Pow2(j) && j <= k
    ensures Pattern(n, k) == Pattern(n, j)
    decreases k
  {
    hide Append;
    if j == 0 {
      PatternZero(k);
    } else {
      PatternNarrow(n / 2, j - 1, k - 1);
    }
  }

  function Masked(w: Word, mask: Word): Word {
    w & mask
  }

  lemma {:induction false} ValueUpper(w: Word, j: nat, k: nat) returns (h: nat)
    requires j <= k
    ensures Value(w, k) == Value(w, j) + Pow2(j) * h
    decreases j
  {
    hide Half, Odd;
    if j == 0 {
      h := Value(w, k);
    } else {
      h := ValueUpper(Half(w), j - 1, k - 1);
      Twice(Pow2(j - 1), h);
    }
  }

  lemma Twice(p: nat, h: nat)
    ensures 2 * (p * h) == (2 * p) * h
  {
  }

  lemma HalfMasked(w: Word, mask: Word)
    requires Within(mask, 0x7fff_ffff)
    ensures Half(Masked(w, Append(mask, true))) == Masked(Half(w), mask)
    ensures Odd(Masked(w, Append(mask, true))) == Odd(w)
  {
  }

  /** Only the low k bits count. */
  lemma {:induction false} ValueMasked(w: Word, k: nat)
    requires k <= 31
    ensures Value(Masked(w, Ones(k)), k) == Value(w, k)
    decreases k
  {
    hide Append, Half, Odd, Within, Masked;
    if k > 0 {
      OnesWithin(k - 1, 31);
      Ones31();
      WithinTransitive(Ones(k - 1), Ones(31), 0x7fff_ffff);
      HalfMasked(w, Ones(k - 1));
      ValueMasked(Half(w), k - 1);
    }
  }

  lemma HalfWithin(w: Word, mask: Word)
    requires Within(w, Append(mask, true)) && Within(mask, 0x7fff_ffff)
    ensures Within(Half(w), mask)
  {
  }

  /** A field whose upper bits are clear has the value of its lower part. */
  lemma {:induction false} ValueNarrow(w: Word, j: nat, k: nat)
    requires j <= k <= 31 && Within(w, Ones(j))
    ensures Value(w, k) == Value(w, j)
    decreases k
  {
    hide Append, Half, Odd, Within;
    if j > 0 {
      OnesWithin(j - 1, 31);
      Ones31();
      WithinTransitive(Ones(j - 1), Ones(31), 0x7fff_ffff);
      HalfWithin(w, Ones(j - 1));
      ValueNarrow(Half(w), j - 1, k - 1);
    } else {
      WithinNone(w);
      ZeroValue(k);
    }
  }

  lemma WithinNone(w: Word)
    requires Within(w, 0)
    ensures w == 0
  {
  }

  lemma {:induction false} ZeroValue(k: nat)
    ensures Value(0, k) == 0
  {
    hide Append, Half, Odd, Within;
    if k > 0 {
      HalfZero();
      ZeroValue(k - 1);
    }
  }

  lemma HalfZero()
    ensures Half(0) == 0 && !Odd(0)
  {
  }

  /** Fields of the same value have the same bits. */
  lemma {:induction false} SameField(w: Word, v: Word, k: nat)
    requires k <= 31 && Value(w, k) == Value(v, k)
    ensures Masked(w, Ones(k)) == Masked(v, Ones(k))
    decreases k
  {
    hide Append, Half, Odd, Within, Masked;
    if k > 0 {
      SameField(Half(w), Half(v), k - 1);
      OnesWithin(k - 1, 31);
      Ones31();
      WithinTransitive(Ones(k - 1), Ones(31), 0x7fff_ffff);
      HalfMasked(w, Ones(k - 1));
      HalfMasked(v, Ones(k - 1));
      HalfAndLast(Masked(w, Ones(k)), Masked(v, Ones(k)));
    } else {
      MaskedNone(w);
      MaskedNone(v);
    }
  }

  lemma HalfAndLast(w: Word, v: Word)
    requires Half(w) == Half(v) && (Odd(w) <==> Odd(v))
    ensures w == v
  {
  }

  lemma MaskedNone(w: Word)
    ensures Masked(w, 0) == 0
  {
  }
}

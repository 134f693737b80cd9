/** How long a printed number is, and when its sign and its digits are all there. */
module PrintfWidth {
  import opened Numbers
  import opened PrintfFacts
  import opened PrintfText
  import opened Strtoull

  /** Padding with spaces, or on the left side, makes the field exactly as wide as asked, or as wide as the text. */
  lemma SpacePadded(digits: string, negative: bool, base: nat, prec: nat, width: nat, flags: Flags)
    requires !flags.zeropad || flags.left
    ensures |NtoaFormat(digits, negative, base, prec, width, flags)|
      == Max(|Scratch(digits, negative, base, prec, width, flags)|, width)
  {
    hide Scratch;
  }

  predicate HasSign(negative: bool, flags: Flags) {
    negative || flags.plus || flags.space
  }

  function SignLength(negative: bool, flags: Flags): nat {
    if HasSign(negative, flags) then 1 else 0
  }

  /** Padding with zeros makes the field exactly as wide as asked, up to the size of the scratch buffer. */
  lemma ZeroPadded(digits: string, negative: bool, base: nat, width: nat, flags: Flags)
    requires flags.zeropad && !flags.left && !flags.hash && !flags.precision
    requires |digits| + SignLength(negative, flags) <= 32 && width <= 32
    ensures |NtoaFormat(digits, negative, base, 0, width, flags)| == Max(|digits| + SignLength(negative, flags), width)
  {
  }

  /** Beyond that size there is no more padding, and no sign either. */
  lemma ZeroPaddedFull(digits: string, negative: bool, base: nat, width: nat, flags: Flags)
    requires flags.zeropad && !flags.left && !flags.hash && !flags.precision
    requires |digits| <= 32 < width
    ensures |NtoaFormat(digits, negative, base, 0, width, flags)| == 32
    ensures Scratch(digits, negative, base, 0, width, flags) == PadZeros(digits, 32)
  {
    var w := NarrowWidth(negative, width, flags);
    assert w >= 32;
    assert PadZeros(PadZeros(digits, 0), w) == PadZeros(digits, 32) by {
      assert PadZeros(digits, 0) == digits;
    }
  }

  /** A minus sign is printed exactly when neither digits, precision nor zero padding fill the scratch buffer. */
  lemma SignExact(digits: string, base: nat, prec: nat, width: nat, flags: Flags)
    requires !flags.hash && |digits| <= 32 && '-' !in digits
    ensures '-' in Scratch(digits, true, base, prec, width, flags) <==>
      |digits| < 32 && (flags.left || (prec < 32 && (!flags.zeropad || width <= 32)))
  {
    var p := Padded(digits, true, prec, width, flags);
    NoMinus(digits, prec);
    NoMinus(PadZeros(digits, prec), NarrowWidth(true, width, flags));
    assert '-' !in p;
    assert |p| < 32 ==> (p + ['-'])[|p|] == '-';
  }

  lemma NoMinus(buf: string, len: nat)
    ensures '-' !in buf ==> '-' !in PadZeros(buf, len)
  {
    forall c | c in PadZeros(buf, len)
      ensures c in buf || c == '0'
    {
    }
  }

  /** A precision is reached exactly when the digits do by themselves, or nothing is to be left-justified and it fits. */
  lemma PrecisionExact(digits: string, negative: bool, prec: nat, width: nat, flags: Flags)
    requires |digits| <= 32
    ensures |Padded(digits, negative, prec, width, flags)| >= prec <==> prec <= |digits| || (!flags.left && prec <= 32)
  {
  }

  /** 7 printed as %-5.3d has one digit, and as %5.3d three. */
  lemma PrecisionLostSample()
    ensures IntegerText('d', 7, 3, 5, NO_FLAGS.(precision := true, left := true)) == "7    "
    ensures IntegerText('d', 7, 3, 5, NO_FLAGS.(precision := true)) == "  007"
  {
    hide NtoaFormat, Digits;
    assert Digits(7, 10, false, 32) == ['7'] by {
      SevenDigits();
    }
    SevenLeft();
    SevenRight();
  }

  lemma SevenDigits()
    ensures Digits(7, 10, false, 32) == ['7']
  {
  }

  lemma SevenLeft()
    ensures NtoaFormat(['7'], false, 10, 3, 5, NO_FLAGS.(precision := true, left := true)) == "7    "
  {
    assert Repeat(' ', 4) == "    " by {
      assert Repeat(' ', 2) == "  ";
    }
    assert Reverse(['7']) == "7";
  }

  lemma SevenRight()
    ensures NtoaFormat(['7'], false, 10, 3, 5, NO_FLAGS.(precision := true)) == "  007"
  {
    assert Repeat('0', 2) == "00";
    assert Reverse(['7', '0', '0']) == "007" by {
      assert Reverse(['0', '0']) == "00";
    }
    assert Repeat(' ', 2) == "  ";
  }

  /** The digits are all in the buffer, least significant first. */
  predicate Keeps(digits: string, buf: string) {
    |digits| <= |buf| && buf[..|digits|] == digits
  }

  /** The widths at which reclaiming room for the prefix takes real digits: n of them, w places. */
  predicate HashLoses(n: nat, base: nat, w: nat, flags: Flags) {
    if flags.zeropad && !flags.left then 0 < w <= 32 && w - (if base == 16 && w > 1 then 2 else 1) < n <= w
    else n == w
  }

  lemma {:induction false} TopDigit(value: nat, base: nat, upper: bool, room: nat)
    requires 2 <= base <= 36 && room > 0 && 0 < value < Pow(base, room)
    ensures Digits(value, base, upper, room)[|Digits(value, base, upper, room)| - 1] != '0'
    decreases room
  {
    hide DigitChar, Pow;
    if value / base != 0 {
      QuotientBelow(value, base, room);
      RoomLeft(value, base, room);
      TopDigit(value / base, base, upper, room - 1);
      DigitsUnfold(value, base, upper, room);
    } else {
      QuotientZero(value, base);
      DigitOfChar(value % base, upper);
    }
  }

  lemma DigitsUnfold(value: nat, base: nat, upper: bool, room: nat)
    requires 2 <= base <= 36 && room > 1 && value / base != 0
    ensures Digits(value, base, upper, room)
      == [DigitChar(value % base, upper)] + Digits(value / base, base, upper, room - 1)
  {
  }

  lemma QuotientZero(value: nat, base: nat)
    requires base > 0 && value / base == 0
    ensures value % base == value
  {
    DivMod(value, base);
  }

  lemma RoomLeft(value: nat, base: nat, room: nat)
    requires base > 0 && room > 0 && value < Pow(base, room) && value / base != 0
    ensures room > 1
  {
    QuotientBelow(value, base, room);
  }

  lemma DigitsNoPrefix(value: nat, base: nat, upper: bool, i: nat)
    requires base in {2, 8, 16} && i < |Digits(value, base, upper, 32)|
    ensures Digits(value, base, upper, 32)[i] !in {'x', 'X'}
    ensures base == 2 ==> Digits(value, base, upper, 32)[i] != 'b'
  {
    hide Digits;
    DigitsAreDigits(value, base, upper, 32);
    assert IsDigitOf(Digits(value, base, upper, 32)[i], base);
  }

  lemma OctalTop(value: nat, upper: bool)
    requires 0 < value <= ULLONG_MAX
    ensures var ds := Digits(value, 8, upper, 32); |ds| <= 22 && ds[|ds| - 1] != '0'
  {
    hide Digits;
    PowOf8();
    DigitsExact(value, 8, upper);
    DigitsRoom(value, 8, upper, 22, 32);
    TopDigit(value, 8, upper, 22);
  }

  /** What the prefix leaves of the digits. */
  lemma PrefixKeeps(digits: string, buf: string, base: nat, prec: nat, w: nat, flags: Flags)
    requires flags.hash && Keeps(digits, buf)
    ensures |buf| - Reclaimed(|buf|, base, prec, w, flags) >= |digits| ==> Keeps(digits, Prefixed(buf, base, prec, w, flags))
  {
  }

  lemma PrefixLoses(value: nat, buf: string, base: nat, prec: nat, w: nat, flags: Flags)
    requires base in {2, 8, 16} && 0 < value <= ULLONG_MAX && flags.hash && |buf| <= 32
    requires Keeps(Digits(value, base, flags.upper, 32), buf)
    requires |buf| - Reclaimed(|buf|, base, prec, w, flags) < |Digits(value, base, flags.upper, 32)|
    ensures !Keeps(Digits(value, base, flags.upper, 32), Prefixed(buf, base, prec, w, flags))
  {
    hide Digits;
    var digits := Digits(value, base, flags.upper, 32);
    var at := |buf| - Reclaimed(|buf|, base, prec, w, flags);
    var r := Prefixed(buf, base, prec, w, flags);
    DigitsNoPrefix(value, base, flags.upper, at);
    if base == 8 {
      OctalTop(value, flags.upper);
    }
    assert r[at] != digits[at];
    if Keeps(digits, r) {
      KeepsAt(digits, r, at);
    }
  }

  lemma KeepsAt(digits: string, buf: string, i: nat)
    requires Keeps(digits, buf) && i < |digits|
    ensures buf[i] == digits[i]
  {
    assert buf[..|digits|][i] == buf[i];
  }

  lemma SignKeeps(digits: string, buf: string, negative: bool, flags: Flags)
    requires |digits| > 0
    ensures Keeps(digits, buf) ==> Keeps(digits, Signed(buf, negative, flags))
    ensures |buf| >= |digits| && !Keeps(digits, buf) ==> !Keeps(digits, Signed(buf, negative, flags))
  {
    var r := Signed(buf, negative, flags);
    assert r[..|buf|] == buf;
    if |buf| >= |digits| {
      assert r[..|digits|] == buf[..|digits|];
    }
  }

  lemma PaddedKeeps(digits: string, negative: bool, prec: nat, width: nat, flags: Flags)
    ensures Keeps(digits, Padded(digits, negative, prec, width, flags))
  {
  }

  lemma PrefixLength(buf: string, base: nat, prec: nat, w: nat, flags: Flags)
    requires base in {2, 8, 16} && flags.hash && |buf| <= 32
    ensures |Prefixed(buf, base, prec, w, flags)| >= |buf|
  {
  }

  lemma LosesWhen(digits: string, negative: bool, base: nat, width: nat, flags: Flags)
    requires !flags.precision && 0 < |digits| <= 32
    ensures var w := NarrowWidth(negative, width, flags);
      var len := |Padded(digits, negative, 0, width, flags)|;
      len - Reclaimed(len, base, 0, w, flags) < |digits| <==> HashLoses(|digits|, base, w, flags)
  {
    assert |PadZeros(digits, 0)| == |digits|;
  }

  /**
  # keeps every digit exactly when there is a precision, or the width, with the places it reclaims for the
  prefix, does not cut into them.
   */
  lemma HashExact(value: nat, negative: bool, base: nat, prec: nat, width: nat, flags: Flags)
    requires base in {2, 8, 16} && 0 < value <= ULLONG_MAX && flags.hash && (!flags.precision ==> prec == 0)
    ensures var digits := Digits(value, base, flags.upper, 32);
      Keeps(digits, Scratch(digits, negative, base, prec, width, flags))
      <==> flags.precision || !HashLoses(|digits|, base, NarrowWidth(negative, width, flags), flags)
  {
    hide Digits, Keeps, Padded, Prefixed, Signed, Reclaimed, HashLoses, NarrowWidth;
    var digits := Digits(value, base, flags.upper, 32);
    var w := NarrowWidth(negative, width, flags);
    var buf := Padded(digits, negative, prec, width, flags);
    PaddedKeeps(digits, negative, prec, width, flags);
    PrefixLength(buf, base, prec, w, flags);
    KeepsLength(digits, buf);
    SignKeeps(digits, Prefixed(buf, base, prec, w, flags), negative, flags);
    if flags.precision {
      NothingReclaimed(|buf|, base, prec, w, flags);
      PrefixKeeps(digits, buf, base, prec, w, flags);
    } else {
      LosesWhen(digits, negative, base, width, flags);
      if HashLoses(|digits|, base, w, flags) {
        PrefixLoses(value, buf, base, prec, w, flags);
      } else {
        PrefixKeeps(digits, buf, base, prec, w, flags);
      }
    }
  }

  lemma NothingReclaimed(len: nat, base: nat, prec: nat, width: nat, flags: Flags)
    requires flags.precision
    ensures Reclaimed(len, base, prec, width, flags) == 0
  {
  }

  /** The prefix is there, too, exactly when the padded digits leave room for it in the scratch buffer. */
  lemma PrefixExact(buf: string, base: nat, prec: nat, width: nat, flags: Flags)
    requires base in {2, 8, 16} && flags.hash && flags.precision && |buf| <= 32
    ensures Prefixed(buf, base, prec, width, flags) == buf + Reverse(PrefixText(base, flags.upper))
      <==> |buf| + |PrefixText(base, flags.upper)| <= 32
  {
    NothingReclaimed(|buf|, base, prec, width, flags);
    ReversedPrefix(base, flags.upper);
  }

  lemma ReversedPrefix(base: nat, upper: bool)
    requires base in {2, 8, 16}
    ensures Reverse(PrefixText(base, upper)) ==
      if base == 8 then ['0'] else if base == 2 then ['b', '0'] else [if upper then 'X' else 'x', '0']
  {
    assert Reverse([]) == [];
    assert forall c: char :: Reverse([c]) == [c];
  }

  lemma KeepsLength(digits: string, buf: string)
    requires Keeps(digits, buf)
    ensures |digits| <= |buf|
  {
  }

  /** A width that loses digits: 0x12 printed as %#2x. */
  lemma HashLosesSample()
    ensures Ntoa(0x12, false, 16, 0, 2, NO_FLAGS.(hash := true)) == "0x"
  {
    assert Digits(0x12, 16, false, 32) == ['2', '1'] by {
      assert Digits(1, 16, false, 31) == ['1'];
    }
    var f := NO_FLAGS.(hash := true);
    assert Padded(['2', '1'], false, 0, 2, f) == ['2', '1'];
    assert Prefixed(['2', '1'], 16, 0, 2, f) == ['x', '0'];
    assert Reverse(['x', '0']) == "0x" by {
      assert Reverse(['0']) == "0";
    }
  }
}

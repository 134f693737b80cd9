/**
Which digits are printed for a number, and how they are laid out in their field: the sign, zeros for a
precision or a width, and spaces at one end.
 */
module PrintfLayout {
  import opened Numbers
  import opened PrintfFacts
  import opened PrintfText
  import opened PrintfWidth
  import opened Strtoull
  import opened StrtoullFacts

  // The digits.

  /** s is how v is written in the base: all its digits, and no zero in front that is not needed. */
  ghost predicate Numeral(s: string, base: nat, v: nat) {
    s != "" && AllIn(s, base) && Number(s, base) == v && (s[0] == '0' ==> s == "0")
  }

  /** Digits and letters of one case */
  predicate OfCase(c: char, upper: bool) {
    '0' <= c <= '9' || if upper then 'A' <= c <= 'Z' else 'a' <= c <= 'z'
  }

  ghost predicate AllOfCase(s: string, upper: bool) {
    forall i :: 0 <= i < |s| ==> OfCase(s[i], upper)
  }

  lemma {:induction false} DigitsCase(value: nat, base: nat, upper: bool, room: nat)
    requires 2 <= base <= 36 && room > 0
    ensures AllOfCase(Digits(value, base, upper, room), upper)
    decreases room
  {
    hide DigitChar, OfCase;
    CharCase(value % base, upper);
    if value / base != 0 && room > 1 {
      DigitsCase(value / base, base, upper, room - 1);
    }
  }

  lemma CharCase(d: nat, upper: bool)
    requires d < 36
    ensures OfCase(DigitChar(d, upper), upper)
  {
  }

  /** What is printed for a value, most significant digit first */
  function Shown(value: nat, base: nat, upper: bool): string
    requires 2 <= base <= 36
  {
    Reverse(Digits(value, base, upper, NTOA_BUFFER_SIZE))
  }

  lemma ShownIs(value: nat, base: nat, upper: bool)
    requires 2 <= base <= 36
    ensures var s := Shown(value, base, upper); 0 < |s| <= 32 && AllIn(s, base) && AllOfCase(s, upper)
  {
    hide Digit, OfCase, Digits;
    var ds := Digits(value, base, upper, 32);
    DigitsCase(value, base, upper, 32);
    DigitsAreDigits(value, base, upper, 32);
    forall i | 0 <= i < |ds|
      ensures Digit(Reverse(ds)[i]) < base && OfCase(Reverse(ds)[i], upper)
    {
      ReverseIndex(ds, i);
      assert IsDigitOf(ds[|ds| - 1 - i], base);
    }
  }

  /** From base 8 on, every 64-bit value is written out in at most 22 digits. */
  lemma ShownExact(value: nat, base: nat, upper: bool)
    requires 8 <= base <= 36 && value <= ULLONG_MAX
    ensures var s := Shown(value, base, upper); Numeral(s, base, value) && |s| <= 22
  {
    hide Digits, Number, Pow, AllIn, AllOfCase;
    ShownIs(value, base, upper);
    DigitsExact(value, base, upper);
    if value > 0 {
      PowOf8();
      PowMono(8, base, 22);
      DigitsRoom(value, base, upper, 22, 32);
      TopDigit(value, base, upper, 22);
      ReverseIndex(Digits(value, base, upper, 32), 0);
    } else {
      ZeroShown(base, upper);
    }
  }

  lemma ZeroShown(base: nat, upper: bool)
    requires 2 <= base <= 36
    ensures Shown(0, base, upper) == "0"
  {
    assert 0 % base == 0 && 0 / base == 0;
    assert Digits(0, base, upper, 32) == ['0'];
    ReverseOne('0');
  }

  lemma PowOf2()
    ensures Pow(2, 32) == 0x1_0000_0000
  {
    assert Pow(2, 8) == 0x100;
    assert Pow(2, 16) == 0x1_0000;
    assert Pow(2, 24) == 0x100_0000;
  }

  /** In base 2 there are no more than 32 digits, so that they denote the value modulo 2^32. */
  lemma ShownBinary(value: nat, upper: bool)
    ensures Number(Shown(value, 2, upper), 2) == value % 0x1_0000_0000
  {
    hide Digits, Number, Pow;
    PowOf2();
    var q := DigitsValue(value, 2, upper, 32);
    assert value == q * 0x1_0000_0000 + Number(Shown(value, 2, upper), 2);
  }

  /** As many digits as the value has in the base */
  lemma ShownShort(value: nat, base: nat, upper: bool, k: nat)
    requires 2 <= base <= 36 && 0 < k <= 32 && value < Pow(base, k)
    ensures |Shown(value, base, upper)| <= k
  {
    DigitsRoom(value, base, upper, k, 32);
  }

  lemma PointerDigits()
    ensures Pow(16, 16) == 0x1_0000_0000_0000_0000 && Pow(2, 30) == 0x4000_0000
  {
    assert Pow(16, 4) == 0x1_0000;
    assert Pow(16, 8) == 0x1_0000_0000;
    assert Pow(16, 12) == 0x1_0000_0000_0000;
    assert Pow(2, 8) == 0x100;
    assert Pow(2, 16) == 0x1_0000;
    assert Pow(2, 24) == 0x100_0000;
  }

  // The field.

  /**
  Digits behind their sign, in a field of that width: at its left end, or with zeros or spaces in front of
  them. A precision asks for more zeros, but not at the left end.
   */
  function LaidOut(sign: string, digits: string, prec: nat, width: nat, left: bool, zero: bool): string {
    if left then sign + digits + Repeat(' ', width - |sign + digits|)
    else
      var body := sign + Repeat('0', Least(sign, prec, width, left, zero) - |digits|) + digits;
      Repeat(' ', width - |body|) + body
  }

  /** The number of digits asked for */
  function Least(sign: string, prec: nat, width: nat, left: bool, zero: bool): int {
    if left then 0 else if zero then Max(prec, width - |sign|) else prec
  }

  /** Sign and digits fit in the scratch buffer. */
  predicate Fits(sign: string, digits: string, prec: nat, width: nat, left: bool, zero: bool) {
    |sign| + Max(|digits|, Least(sign, prec, width, left, zero)) <= 32
  }

  function SignOf(negative: bool, plus: bool, space: bool): string {
    if negative then "-" else if plus then "+" else if space then " " else ""
  }

  lemma {:induction false} ReverseRepeat(c: char, n: int)
    ensures Reverse(Repeat(c, n)) == Repeat(c, n)
  {
    var s := Repeat(c, n);
    forall i | 0 <= i < |s|
      ensures Reverse(s)[i] == s[i]
    {
      ReverseIndex(s, i);
    }
  }

  lemma PadOnce(digits: string, a: nat)
    requires a <= 32
    ensures PadZeros(digits, a) == digits + Repeat('0', a - |digits|)
  {
  }

  /** s is the digits, and zeros behind them. */
  predicate ZeroRest(s: string, digits: string) {
    |digits| <= |s| && s[..|digits|] == digits && forall i :: |digits| <= i < |s| ==> s[i] == '0'
  }

  lemma ZeroRestOnce(digits: string, a: nat)
    requires a <= 32
    ensures var s := PadZeros(digits, a); ZeroRest(s, digits) && |s| == Max(|digits|, a)
  {
  }

  lemma ZeroRestTwice(s: string, t: string, digits: string)
    requires ZeroRest(s, digits) && ZeroRest(t, s)
    ensures ZeroRest(t, digits)
  {
    assert t[..|digits|] == t[..|s|][..|digits|];
    forall i | |digits| <= i < |t|
      ensures t[i] == '0'
    {
      if i < |s| {
        assert t[i] == t[..|s|][i] == s[i];
      }
    }
  }

  lemma PadTwice(digits: string, a: nat, b: nat)
    requires a <= 32 && b <= 32
    ensures PadZeros(PadZeros(digits, a), b) == digits + Repeat('0', Max(a, b) - |digits|)
  {
    hide PadZeros, Repeat, ZeroRest;
    var once := PadZeros(digits, a);
    ZeroRestOnce(digits, a);
    ZeroRestOnce(once, b);
    ZeroRestTwice(once, PadZeros(once, b), digits);
    ZerosBehind(PadZeros(once, b), digits, Max(a, b) - |digits|);
  }

  lemma ZerosBehind(s: string, digits: string, n: int)
    requires |s| == |digits| + Max(n, 0) && ZeroRest(s, digits)
    ensures s == digits + Repeat('0', n)
  {
    hide Repeat;
    var r := digits + Repeat('0', n);
    forall i | 0 <= i < |s|
      ensures s[i] == r[i]
    {
      if i < |digits| {
        assert s[i] == s[..|digits|][i];
      }
    }
  }

  lemma NarrowIs(negative: bool, width: nat, f: Flags)
    requires f.zeropad && !f.left
    ensures NarrowWidth(negative, width, f) == Max(0, width - |SignOf(negative, f.plus, f.space)|)
  {
  }

  lemma PaddedIs(digits: string, negative: bool, prec: nat, width: nat, f: Flags)
    requires var sign := SignOf(negative, f.plus, f.space); Fits(sign, digits, prec, width, f.left, f.zeropad)
    ensures var sign := SignOf(negative, f.plus, f.space);
      Padded(digits, negative, prec, width, f) == digits + Repeat('0', Least(sign, prec, width, f.left, f.zeropad) - |digits|)
  {
    hide PadZeros, Repeat, NarrowWidth, SignOf;
    if f.left {
      assert digits + Repeat('0', 0 - |digits|) == digits;
    } else if f.zeropad {
      NarrowIs(negative, width, f);
      PadTwice(digits, prec, NarrowWidth(negative, width, f));
    } else {
      PadOnce(digits, prec);
    }
  }

  lemma SignedIs(buf: string, negative: bool, f: Flags)
    requires |buf| + |SignOf(negative, f.plus, f.space)| <= 32
    ensures Signed(buf, negative, f) == buf + SignOf(negative, f.plus, f.space)
  {
  }

  lemma ReverseSign(negative: bool, plus: bool, space: bool)
    ensures var sign := SignOf(negative, plus, space); Reverse(sign) == sign
  {
    ReverseOne('-');
    ReverseOne('+');
    ReverseOne(' ');
  }

  lemma BodyReversed(digits: string, n: int, negative: bool, plus: bool, space: bool)
    ensures var sign, zeros := SignOf(negative, plus, space), Repeat('0', n);
      Reverse(digits + zeros + sign) == sign + zeros + Reverse(digits)
  {
    hide Reverse, Repeat, SignOf;
    var sign, zeros := SignOf(negative, plus, space), Repeat('0', n);
    ReverseAppend(digits + zeros, sign);
    ReverseAppend(digits, zeros);
    ReverseRepeat('0', n);
    ReverseSign(negative, plus, space);
    assert sign + (zeros + Reverse(digits)) == sign + zeros + Reverse(digits);
  }

  /** The digits, reversed, padded, signed and reversed again, are laid out in the field. */
  lemma FormatLaid(digits: string, negative: bool, base: nat, prec: nat, width: nat, f: Flags)
    requires !f.hash
    requires Fits(SignOf(negative, f.plus, f.space), digits, prec, width, f.left, f.zeropad)
    ensures NtoaFormat(digits, negative, base, prec, width, f)
      == LaidOut(SignOf(negative, f.plus, f.space), Reverse(digits), prec, width, f.left, f.zeropad)
  {
    hide Padded, Signed, Reverse, SignOf, RevText, NarrowWidth, Repeat, Least, Fits, LaidOut;
    var sign := SignOf(negative, f.plus, f.space);
    var n := Least(sign, prec, width, f.left, f.zeropad) - |digits|;
    PaddedIs(digits, negative, prec, width, f);
    FitsRoom(sign, digits, prec, width, f.left, f.zeropad);
    SignedIs(digits + Repeat('0', n), negative, f);
    BodyReversed(digits, n, negative, f.plus, f.space);
    var r := sign + Repeat('0', n) + Reverse(digits);
    LaidIs(sign, Reverse(digits), prec, width, f.left, f.zeropad);
    FieldIs(digits + Repeat('0', n) + sign, r, width, negative, f);
  }

  lemma FitsRoom(sign: string, digits: string, prec: nat, width: nat, left: bool, zero: bool)
    requires Fits(sign, digits, prec, width, left, zero)
    ensures |digits + Repeat('0', Least(sign, prec, width, left, zero) - |digits|)| + |sign| <= 32
  {
  }

  lemma LaidIs(sign: string, digits: string, prec: nat, width: nat, left: bool, zero: bool)
    ensures var body := sign + Repeat('0', Least(sign, prec, width, left, zero) - |digits|) + digits;
      && LaidOut(sign, digits, prec, width, left, zero)
         == (if left then body + Repeat(' ', width - |body|) else Repeat(' ', width - |body|) + body)
      && (zero && !left ==> |body| >= width)
  {
    if left {
      assert sign + Repeat('0', 0 - |digits|) + digits == sign + digits;
    }
  }

  lemma FieldIs(buf: string, r: string, width: nat, negative: bool, f: Flags)
    requires Reverse(buf) == r
    requires f.zeropad && !f.left ==> |r| >= width
    ensures RevText(buf, NarrowWidth(negative, width, f), f)
      == (if f.left then r + Repeat(' ', width - |r|) else Repeat(' ', width - |r|) + r)
  {
    hide Reverse;
  }

  // Whole integers.

  /** The value converted, as an unsigned or a signed number of its type */
  function IntegerValue(c: char, bits: int, m: nat): int
    requires m > 0
  {
    var u := bits % m;
    if (c == 'd' || c == 'i') && 2 * u >= m then u - m else u
  }

  function Size(v: int): nat {
    if v < 0 then -v else v
  }

  function BaseFor(c: char): nat {
    match c
    case 'x' => 16
    case 'X' => 16
    case 'o' => 8
    case 'b' => 2
    case _ => 10
  }

  function IntegerSign(c: char, v: int, f: Flags): string {
    if c == 'd' || c == 'i' then SignOf(v < 0, f.plus, f.space) else ""
  }

  /** No digits at all for a zero with a precision */
  function IntegerDigits(c: char, v: int, f: Flags): string {
    if f.precision && v == 0 then "" else Shown(Size(v), BaseFor(c), c == 'X')
  }

  lemma NtoaLaid(value: nat, negative: bool, base: nat, prec: nat, width: nat, f: Flags)
    requires 2 <= base <= 36 && (f.hash ==> value == 0)
    requires var sign := SignOf(negative, f.plus, f.space);
      var digits := if f.precision && value == 0 then "" else Shown(value, base, f.upper);
      Fits(sign, digits, prec, width, f.left, f.zeropad)
    ensures var sign := SignOf(negative, f.plus, f.space);
      var digits := if f.precision && value == 0 then "" else Shown(value, base, f.upper);
      Ntoa(value, negative, base, prec, width, f) == LaidOut(sign, digits, prec, width, f.left, f.zeropad)
  {
    hide NtoaFormat, LaidOut, Digits, SignOf, Least;
    var ds := if !f.precision || value != 0 then Digits(value, base, f.upper, NTOA_BUFFER_SIZE) else [];
    assert Reverse([]) == [];
    FormatLaid(ds, negative, base, prec, width, f.(hash := false));
  }

  lemma FlagsSigned(f: Flags)
    ensures IntegerFlags('d', f) == IntegerFlags('i', f) == f.(hash := false, zeropad := f.zeropad && !f.precision)
  {
  }

  lemma FlagsUnsigned(f: Flags)
    ensures IntegerFlags('u', f) == f.(hash := false, plus := false, space := false, zeropad := f.zeropad && !f.precision)
  {
  }

  lemma FlagsPrefixed(c: char, f: Flags)
    requires c in {'x', 'X', 'o', 'b'} && !f.upper
    ensures IntegerFlags(c, f) == f.(upper := c == 'X', plus := false, space := false, zeropad := f.zeropad && !f.precision)
  {
  }

  lemma FlagsAre(c: char, f: Flags)
    requires IsInteger(c) && !f.upper
    ensures var signed, g := c == 'd' || c == 'i', IntegerFlags(c, f);
      && g.left == f.left && g.precision == f.precision && g.zeropad == (f.zeropad && !f.precision)
      && g.plus == (f.plus && signed) && g.space == (f.space && signed) && g.upper == (c == 'X')
      && g.hash == (f.hash && c !in {'d', 'i', 'u'})
  {
    hide IntegerFlags;
    if c in {'x', 'X', 'o', 'b'} {
      FlagsPrefixed(c, f);
    } else {
      FlagsSigned(f);
      FlagsUnsigned(f);
    }
  }

  lemma ModulusKept(c: char, f: Flags)
    requires IsInteger(c) && !f.upper
    ensures Modulus(IntegerFlags(c, f)) == Modulus(f)
  {
    hide IntegerFlags;
    if c in {'x', 'X', 'o', 'b'} {
      FlagsPrefixed(c, f);
    } else {
      FlagsSigned(f);
      FlagsUnsigned(f);
    }
  }

  lemma ValueIs(c: char, bits: int, prec: nat, width: nat, f: Flags)
    requires IsInteger(c) && !f.upper
    ensures var v, g := IntegerValue(c, bits, Modulus(f)), IntegerFlags(c, f);
      IntegerText(c, bits, prec, width, f) == Ntoa(Size(v), v < 0, BaseFor(c), prec, width, g)
  {
    hide Ntoa, IntegerFlags, Modulus;
    ModulusKept(c, f);
    CastIs(bits, Modulus(f));
  }

  lemma CastIs(bits: int, m: nat)
    requires m > 0
    ensures ToSigned(bits, m) == IntegerValue('d', bits, m) == IntegerValue('i', bits, m)
  {
  }

  /** The text of an integer conversion without a prefix */
  lemma IntegerLaid(c: char, bits: int, prec: nat, width: nat, f: Flags)
    requires IsInteger(c) && !f.upper
    requires var v := IntegerValue(c, bits, Modulus(f));
      && (f.hash ==> v == 0 || c in {'d', 'i', 'u'})
      && Fits(IntegerSign(c, v, f), IntegerDigits(c, v, f), prec, width, f.left, f.zeropad && !f.precision)
    ensures var v := IntegerValue(c, bits, Modulus(f));
      IntegerText(c, bits, prec, width, f)
      == LaidOut(IntegerSign(c, v, f), IntegerDigits(c, v, f), prec, width, f.left, f.zeropad && !f.precision)
  {
    hide Ntoa, LaidOut, Shown, Fits, IntegerFlags, IntegerText, Modulus;
    var v := IntegerValue(c, bits, Modulus(f));
    FlagsAre(c, f);
    ValueIs(c, bits, prec, width, f);
    NtoaLaid(Size(v), v < 0, BaseFor(c), prec, width, IntegerFlags(c, f));
  }

  lemma PartsIgnore(buf: string, base: nat, f: Flags, g: Flags)
    requires f == g.(asChar := f.asChar, asShort := f.asShort, asLong := f.asLong, longLong := f.longLong)
    ensures Padded(buf, false, 0, 0, f) == Padded(buf, false, 0, 0, g)
    ensures Prefixed(buf, base, 0, 0, f) == Prefixed(buf, base, 0, 0, g)
    ensures Signed(buf, false, f) == Signed(buf, false, g)
    ensures RevText(buf, 0, f) == RevText(buf, 0, g)
    ensures NarrowWidth(false, 0, f) == NarrowWidth(false, 0, g) == 0
  {
    hide Reverse, Repeat, PadZeros, Push;
  }

  lemma FormatIgnores(digits: string, base: nat, f: Flags, g: Flags)
    requires f == g.(asChar := f.asChar, asShort := f.asShort, asLong := f.asLong, longLong := f.longLong)
    ensures NtoaFormat(digits, false, base, 0, 0, f) == NtoaFormat(digits, false, base, 0, 0, g)
  {
    hide Padded, Prefixed, Signed, RevText, NarrowWidth;
    PartsIgnore(digits, base, f, g);
    var padded := Padded(digits, false, 0, 0, f);
    PartsIgnore(padded, base, f, g);
    var prefixed := Prefixed(padded, base, 0, 0, f);
    PartsIgnore(prefixed, base, f, g);
    PartsIgnore(Signed(prefixed, false, f), base, f, g);
  }

  lemma LengthIgnored(value: nat, base: nat, f: Flags, g: Flags)
    requires 2 <= base <= 36 && value > 0
    requires f == g.(asChar := f.asChar, asShort := f.asShort, asLong := f.asLong, longLong := f.longLong)
    ensures Ntoa(value, false, base, 0, 0, f) == Ntoa(value, false, base, 0, 0, g)
  {
    hide Digits, NtoaFormat;
    FormatIgnores(Digits(value, base, f.upper, NTOA_BUFFER_SIZE), base, f, g);
  }

  /** With the # flag alone, a prefix is in front of the digits of what is not zero. */
  lemma HashLaid(c: char, bits: int, f: Flags)
    requires c in {'x', 'X', 'o', 'b'} && f.hash && !f.upper
    requires !f.zeropad && !f.left && !f.precision
    requires |Shown(bits % Modulus(f), BaseFor(c), c == 'X')| <= 30
    ensures var v := bits % Modulus(f);
      IntegerText(c, bits, 0, 0, f)
      == (if v == 0 then "" else if c == 'x' then "0x" else if c == 'X' then "0X" else if c == 'o' then "0" else "0b")
         + Shown(v, BaseFor(c), c == 'X')
  {
    hide Ntoa, Shown, Digits, IntegerFlags, IntegerText, Modulus;
    var v := bits % Modulus(f);
    ValueIs(c, bits, 0, 0, f);
    FlagsPrefixed(c, f);
    var g := IntegerFlags(c, f);
    if v == 0 {
      NtoaLaid(0, false, BaseFor(c), 0, 0, g);
      ShownIs(0, BaseFor(c), c == 'X');
      assert "" + (Repeat('0', 0) + Shown(0, BaseFor(c), c == 'X')) == Shown(0, BaseFor(c), c == 'X');
    } else {
      var h := NO_FLAGS.(upper := c == 'X', hash := true);
      LengthIgnored(v, BaseFor(c), g, h);
      HashShown(v, c);
    }
  }

  lemma HashShown(v: nat, c: char)
    requires v > 0 && c in {'x', 'X', 'o', 'b'} && |Shown(v, BaseFor(c), c == 'X')| <= 30
    ensures Ntoa(v, false, BaseFor(c), 0, 0, NO_FLAGS.(upper := c == 'X', hash := true))
      == (if c == 'x' then "0x" else if c == 'X' then "0X" else if c == 'o' then "0" else "0b")
         + Shown(v, BaseFor(c), c == 'X')
  {
    hide Ntoa, Digits, Reverse;
    ShownLength(v, BaseFor(c), c == 'X');
    HashPlain(v, BaseFor(c), c == 'X');
  }

  lemma ShownLength(value: nat, base: nat, upper: bool)
    requires 2 <= base <= 36
    ensures |Shown(value, base, upper)| == |Digits(value, base, upper, 32)|
  {
  }
}

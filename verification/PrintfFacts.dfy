/**
What the printed text of a number means, and how long it is: digits in every base, and printing against
parsing back.
 */
module PrintfFacts {
  import opened Bytes
  import opened Numbers
  import opened PrintfText
  import opened Strtoull
  import opened StrtoullFacts

  function Pow(b: nat, k: nat): nat {
    if k == 0 then 1 else b * Pow(b, k - 1)
  }

  lemma DigitOfChar(d: nat, upper: bool)
    requires d < 36
    ensures Digit(DigitChar(d, upper)) == d
    ensures !IsSpace(DigitChar(d, upper)) && DigitChar(d, upper) !in {'+', '-', NUL}
    ensures d < 33 ==> DigitChar(d, upper) !in {'x', 'X'}
    ensures DigitChar(d, upper) == '0' <==> d == 0
  {
  }

  lemma NumberSnoc(s: string, c: char, base: nat)
    ensures Number(s + [c], base) == Number(s, base) * base + Digit(c)
  {
    assert (s + [c])[..|s|] == s;
  }

  lemma {:induction false} ReverseIndex(s: string, i: nat)
    requires i < |s|
    ensures Reverse(s)[i] == s[|s| - 1 - i]
  {
    if i < |s| - 1 {
      ReverseIndex(s[1..], i);
    }
  }

  lemma {:induction false} ReverseAppend(s: string, t: string)
    ensures Reverse(s + t) == Reverse(t) + Reverse(s)
  {
    if s == [] {
      assert s + t == t;
    } else {
      assert (s + t)[1..] == s[1..] + t;
      ReverseAppend(s[1..], t);
    }
  }

  lemma DivMod(v: nat, b: nat)
    requires b > 0
    ensures v / b * b + v % b == v
  {
  }

  lemma Shuffle(q: nat, b: nat, p: nat, n: nat, d: nat)
    ensures (q * p + n) * b + d == q * (b * p) + (n * b + d)
  {
    assert (q * p + n) * b == q * p * b + n * b;
    assert q * p * b == q * (b * p);
  }

  lemma Carry(n: nat, p: nat, b: nat, d: nat)
    requires n < p && d < b
    ensures n * b + d < b * p
  {
    assert (n + 1) * b <= p * b;
    assert (n + 1) * b == n * b + b;
  }

  /** The digits stand for the value up to a multiple of base^room: all of it, when it fits. */
  lemma {:induction false} DigitsValue(value: nat, base: nat, upper: bool, room: nat) returns (q: nat)
    requires 2 <= base <= 36 && room > 0
    ensures value == q * Pow(base, room) + Number(Reverse(Digits(value, base, upper, room)), base)
    ensures Number(Reverse(Digits(value, base, upper, room)), base) < Pow(base, room)
    decreases room
  {
    hide DigitChar, Digit, Number;
    var d := value % base;
    var ds := Digits(value, base, upper, room);
    DigitOfChar(d, upper);
    DivMod(value, base);
    NumberSnoc(Reverse(ds[1..]), ds[0], base);
    if value / base != 0 && room > 1 {
      q := DigitsValue(value / base, base, upper, room - 1);
      var n := Number(Reverse(Digits(value / base, base, upper, room - 1)), base);
      Shuffle(q, base, Pow(base, room - 1), n, d);
      Carry(n, Pow(base, room - 1), base, d);
    } else {
      EmptyNumberIs(base);
      q := LastDigit(value, base, room);
    }
  }

  lemma EmptyNumberIs(base: nat)
    ensures Number(Reverse([]), base) == 0
  {
  }

  lemma {:induction false} PowPositive(b: nat, k: nat)
    requires b >= 1
    ensures Pow(b, k) >= 1
  {
    if k > 0 {
      PowPositive(b, k - 1);
      MulMono(1, b, Pow(b, k - 1));
    }
  }

  lemma LastDigit(value: nat, base: nat, room: nat) returns (q: nat)
    requires 2 <= base && room > 0 && (value / base == 0 || room == 1)
    ensures value == q * Pow(base, room) + value % base && value % base < Pow(base, room)
  {
    DivMod(value, base);
    PowPositive(base, room - 1);
    MulMono(1, Pow(base, room - 1), base);
    if value / base == 0 {
      q := 0;
    } else {
      q := value / base;
    }
  }

  // Printing and parsing back.

  /** Every character of s is a digit of the base. */
  ghost predicate AllDigits(s: string, base: nat) {
    forall i :: 0 <= i < |s| ==> IsDigitOf(s[i], base)
  }

  predicate IsDigitOf(c: char, base: nat) {
    Digit(c) < base && !IsSpace(c) && c !in {'+', '-', NUL} && (base < 34 ==> c !in {'x', 'X'})
  }

  lemma {:induction false} DigitsAreDigits(value: nat, base: nat, upper: bool, room: nat)
    requires 2 <= base <= 36 && room > 0
    ensures AllDigits(Digits(value, base, upper, room), base)
    decreases room
  {
    hide DigitChar, Digit, IsSpace;
    DigitOfChar(value % base, upper);
    if value / base != 0 && room > 1 {
      DigitsAreDigits(value / base, base, upper, room - 1);
    }
  }

  lemma ReverseDigits(s: string, base: nat)
    requires AllDigits(s, base)
    ensures AllDigits(Reverse(s), base)
  {
    hide IsDigitOf;
    forall i | 0 <= i < |s|
      ensures IsDigitOf(Reverse(s)[i], base)
    {
      ReverseIndex(s, i);
    }
  }

  lemma {:induction false} RunToEnd(s: string, base: nat, i: nat)
    requires i <= |s| && forall k :: i <= k < |s| ==> Digit(s[k]) < base
    ensures RunEnd(s, base, i) == |s|
    decreases |s| - i
  {
    hide Digit;
    if i < |s| {
      RunToEnd(s, base, i + 1);
    }
  }

  function SignText(negative: bool): string {
    if negative then "-" else ""
  }

  lemma DigitsHead(digits: string, negative: bool, base: nat)
    requires digits != [] && 2 <= base <= 36 && IsDigitOf(digits[0], base)
    requires |digits| > 1 && base == 16 ==> IsDigitOf(digits[1], base)
    ensures var text := SignText(negative) + digits;
      && AfterSign(text) == |SignText(negative)| && (Negative(text) <==> negative)
      && EffectiveBase(text, base) == base && DigitsStart(text, base) == |SignText(negative)|
  {
    hide Digit, IsSpace;
    var text := SignText(negative) + digits;
    NotSpaceMinus();
    assert text[|SignText(negative)|] == digits[0];
    assert SpacesEnd(text, 0) == 0;
    if |digits| > 1 {
      assert text[|SignText(negative)| + 1] == digits[1];
    }
  }

  /** Digits, possibly behind a minus sign, parsed in their own base */
  lemma ParseDigits(digits: string, negative: bool, base: nat)
    requires digits != [] && 2 <= base <= 36 && AllDigits(digits, base)
    requires Number(digits, base) <= ULLONG_MAX
    ensures Meaning(SignText(negative) + digits, base) == Parsed(
      if negative then (0x1_0000_0000_0000_0000 - Number(digits, base)) % 0x1_0000_0000_0000_0000 else Number(digits, base),
      |SignText(negative)| + |digits|)
  {
    hide Digit, Number, IsSpace, EffectiveBase, DigitsStart, Negative, AfterSign;
    var text, from := SignText(negative) + digits, |SignText(negative)|;
    assert IsDigitOf(digits[0], base) && (|digits| > 1 ==> IsDigitOf(digits[1], base));
    DigitsHead(digits, negative, base);
    forall k | from <= k < |text|
      ensures Digit(text[k]) < base
    {
      assert IsDigitOf(digits[k - from], base);
    }
    RunToEnd(text, base, from);
    assert text[from..|text|] == digits;
  }

  lemma NotSpaceMinus()
    ensures !IsSpace('-')
  {
  }

  lemma NtoaPlain(value: nat, negative: bool, base: nat, upper: bool)
    requires 2 <= base <= 36 && |Digits(value, base, upper, 32)| < 32
    ensures Ntoa(value, negative, base, 0, 0, NO_FLAGS.(upper := upper)) ==
      SignText(negative) + Reverse(Digits(value, base, upper, 32))
  {
    hide Digits, Reverse;
    var digits := Digits(value, base, upper, 32);
    assert PadZeros(digits, 0) == digits;
    ReverseAppend(digits, "-");
    ReverseOne('-');
  }

  lemma ReverseOne(c: char)
    ensures Reverse([c]) == [c]
  {
  }

  lemma {:induction false} PowMono(a: nat, b: nat, k: nat)
    requires a <= b
    ensures Pow(a, k) <= Pow(b, k)
  {
    if k > 0 {
      PowMono(a, b, k - 1);
      MulMono(a, b, Pow(a, k - 1));
      MulMono(Pow(a, k - 1), Pow(b, k - 1), b);
    }
  }

  lemma PowOf8()
    ensures Pow(8, 22) > ULLONG_MAX
  {
    assert Pow(8, 4) == 0x1000;
    assert Pow(8, 8) == 0x100_0000;
    assert Pow(8, 12) == 0x10_0000_0000;
    assert Pow(8, 16) == 0x1_0000_0000_0000;
    assert Pow(8, 20) == 0x1000_0000_0000_0000;
  }

  /** Any room that is enough gives the same digits. */
  lemma {:induction false} DigitsRoom(value: nat, base: nat, upper: bool, k: nat, room: nat)
    requires 2 <= base <= 36 && 0 < k <= room && value < Pow(base, k)
    ensures Digits(value, base, upper, room) == Digits(value, base, upper, k)
    decreases k
  {
    hide DigitChar;
    if value / base != 0 {
      DivMod(value, base);
      QuotientBelow(value, base, k);
      DigitsRoom(value / base, base, upper, k - 1, room - 1);
    }
  }

  lemma QuotientBelow(value: nat, base: nat, k: nat)
    requires base > 0 && k > 0 && value < Pow(base, k)
    ensures value / base < Pow(base, k - 1)
  {
    DivMod(value, base);
    if value / base >= Pow(base, k - 1) {
      MulMono(Pow(base, k - 1), value / base, base);
    }
  }

  /** For every 64-bit value in base 8 and up: the digits number at most 22 and stand for the value. */
  lemma DigitsExact(value: nat, base: nat, upper: bool)
    requires 8 <= base <= 36 && value <= ULLONG_MAX
    ensures |Digits(value, base, upper, 32)| <= 22
    ensures Number(Reverse(Digits(value, base, upper, 32)), base) == value
  {
    hide Digits, Number, Reverse, Pow;
    PowOf8();
    PowMono(8, base, 22);
    DigitsRoom(value, base, upper, 22, 32);
    var q := DigitsValue(value, base, upper, 22);
    if q > 0 {
      MulMono(1, q, Pow(base, 22));
    }
  }

  /** Every signed or unsigned 64-bit magnitude, in bases 8 to 36, survives printing and parsing. */
  lemma PrintParse(value: nat, negative: bool, base: nat, upper: bool)
    requires 8 <= base <= 36 && value <= ULLONG_MAX
    ensures var text := Ntoa(value, negative, base, 0, 0, NO_FLAGS.(upper := upper));
      Meaning(text, base) == Parsed(
        if negative then (0x1_0000_0000_0000_0000 - value) % 0x1_0000_0000_0000_0000 else value, |text|)
  {
    hide Digits, Number, Reverse, Meaning, Ntoa, AllDigits;
    var digits := Digits(value, base, upper, 32);
    DigitsExact(value, base, upper);
    NtoaPlain(value, negative, base, upper);
    DigitsAreDigits(value, base, upper, 32);
    ReverseDigits(digits, base);
    ParseDigits(Reverse(digits), negative, base);
  }

  /** %lld and %llu, parsed in base 10, give back the argument's 64 bits. */
  lemma IntegerPrintParse(c: char, bits: int)
    requires c in {'d', 'i', 'u'}
    ensures var text := IntegerText(c, bits, 0, 0, NO_FLAGS.(longLong := true));
      Meaning(text, 10) == Parsed(bits % 0x1_0000_0000_0000_0000, |text|)
  {
    hide Meaning, Ntoa, IntegerText;
    var f := NO_FLAGS.(longLong := true);
    var m := 0x1_0000_0000_0000_0000;
    if c == 'u' {
      UnsignedText(bits, f);
      NtoaIgnoresLength(bits % m, false, 10, f);
      PrintParse(bits % m, false, 10, false);
    } else {
      var v := ToSigned(bits, m);
      SignedText(c, bits, f);
      NtoaIgnoresLength(if v > 0 then v else -v, v < 0, 10, f);
      PrintParse(if v > 0 then v else -v, v < 0, 10, false);
    }
  }

  lemma UnsignedText(bits: int, f: Flags)
    requires f == NO_FLAGS.(longLong := true)
    ensures IntegerText('u', bits, 0, 0, f) == Ntoa(bits % 0x1_0000_0000_0000_0000, false, 10, 0, 0, f)
  {
    hide Ntoa;
  }

  lemma SignedText(c: char, bits: int, f: Flags)
    requires f == NO_FLAGS.(longLong := true) && c in {'d', 'i'}
    ensures var v := ToSigned(bits, 0x1_0000_0000_0000_0000);
      IntegerText(c, bits, 0, 0, f) == Ntoa(if v > 0 then v else -v, v < 0, 10, 0, 0, f)
  {
    hide Ntoa;
  }

  lemma NtoaIgnoresLength(value: nat, negative: bool, base: nat, f: Flags)
    requires f == NO_FLAGS.(longLong := true) && 2 <= base <= 36
    ensures Ntoa(value, negative, base, 0, 0, f) == Ntoa(value, negative, base, 0, 0, NO_FLAGS.(upper := false))
  {
    hide Digits, Reverse, Repeat;
  }

  // The # flag.

  /** The prefix of the # flag, most significant first */
  function PrefixText(base: nat, upper: bool): string {
    if base == 16 then (if upper then "0X" else "0x") else if base == 2 then "0b" else "0"
  }

  /** Without a width, # puts the prefix in front of all the digits. */
  lemma HashPlain(value: nat, base: nat, upper: bool)
    requires 2 <= base <= 36 && value > 0 && |Digits(value, base, upper, 32)| <= 30
    ensures Ntoa(value, false, base, 0, 0, NO_FLAGS.(upper := upper, hash := true)) ==
      PrefixText(base, upper) + Reverse(Digits(value, base, upper, 32))
  {
    hide Digits, Reverse;
    var digits := Digits(value, base, upper, 32);
    assert PadZeros(digits, 0) == digits;
    assert digits[..|digits|] == digits;
    ReverseAppend(digits, "0");
    ReverseOne('0');
    if base == 16 || base == 2 {
      var x := if base == 2 then 'b' else if upper then 'X' else 'x';
      ReverseAppend(digits, [x]);
      ReverseAppend(digits + [x], "0");
      ReverseOne(x);
      assert PrefixText(base, upper) == "0" + [x];
    }
  }

  lemma {:induction false} LeadingZero(s: string, base: nat)
    ensures Number("0" + s, base) == Number(s, base)
  {
    if s != [] {
      assert ("0" + s)[..|s|] == "0" + s[..|s| - 1];
      LeadingZero(s[..|s| - 1], base);
    } else {
      assert ("0" + s)[..0] == [];
    }
  }

  /** Base 16 and base 8 text with its # prefix says its own base. */
  lemma PrefixedPrintParse(value: nat, base: nat, upper: bool)
    requires base == 8 || base == 16
    requires 0 < value <= ULLONG_MAX
    ensures var text := Ntoa(value, false, base, 0, 0, NO_FLAGS.(upper := upper, hash := true));
      Meaning(text, 0) == Parsed(value, |text|)
  {
    hide Digits, Number, Reverse, Ntoa, AllDigits, Meaning;
    var digits := Reverse(Digits(value, base, upper, 32));
    DigitsExact(value, base, upper);
    HashPlain(value, base, upper);
    DigitsAreDigits(value, base, upper, 32);
    ReverseDigits(Digits(value, base, upper, 32), base);
    if base == 16 {
      ParseHex(digits, upper);
    } else {
      ParseOctal(digits);
    }
  }

  lemma ParseHex(digits: string, upper: bool)
    requires digits != [] && AllDigits(digits, 16) && Number(digits, 16) <= ULLONG_MAX
    ensures Meaning(PrefixText(16, upper) + digits, 0) == Parsed(Number(digits, 16), |digits| + 2)
  {
    hide Digit, Number, IsDigitOf, Meaning;
    var x := PrefixText(16, upper);
    forall i | 0 <= i < |digits|
      ensures Digit(digits[i]) < 16
    {
      HexDigit(digits, i);
    }
    assert "" + "" + x + digits + "" == x + digits;
    HexMeaning("", "", x, digits, "", 0);
  }

  lemma HexDigit(digits: string, k: nat)
    requires AllDigits(digits, 16) && k < |digits|
    ensures Digit(digits[k]) < 16
  {
    hide Digit;
    assert IsDigitOf(digits[k], 16);
  }

  lemma ParseOctal(digits: string)
    requires digits != [] && AllDigits(digits, 8) && Number(digits, 8) <= ULLONG_MAX
    ensures Meaning("0" + digits, 0) == Parsed(Number(digits, 8), |digits| + 1)
  {
    hide Number, RunEnd, IsDigitOf;
    var text := "0" + digits;
    assert text[0] == '0' && text[1] == digits[0] && IsDigitOf(digits[0], 8);
    OctalSecond(digits[0]);
    assert AfterSign(text) == 0 && !HexPrefixAt(text, 0, 0);
    forall k | 0 <= k < |text|
      ensures Digit(text[k]) < 8
    {
      if k > 0 {
        OctalDigit(digits, k - 1);
      }
    }
    RunToEnd(text, 8, 0);
    LeadingZero(digits, 8);
    assert text[0..|text|] == text;
  }

  lemma OctalSecond(c: char)
    requires IsDigitOf(c, 8)
    ensures c !in {'x', 'X'}
  {
    hide Digit;
  }

  lemma OctalDigit(digits: string, k: nat)
    requires AllDigits(digits, 8) && k < |digits|
    ensures Digit(digits[k]) < 8
  {
    hide Digit;
    assert IsDigitOf(digits[k], 8);
  }
}

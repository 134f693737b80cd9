/** What each conversion prints, in plain terms: the number, its width and its side, strings and characters. */
module PrintfMeaning {
  import opened Bytes
  import opened Numbers
  import opened PrintfDirective
  import opened PrintfFormat
  import opened PrintfLayout
  import opened PrintfOverrun
  import opened PrintfText
  import opened Strtoull
  import opened StrtoullFacts
  import opened Wrappers

  // Integers.

  /** How many values the type of that length has */
  function TypeSize(length: string): (n: nat)
    ensures n > 0
  {
    match length
    case "hh" => 0x100
    case "h" => 0x1_0000
    case "" => 0x1_0000_0000
    case _ => 0x1_0000_0000_0000_0000
  }

  /** The value of an argument as unsigned or signed of that type */
  function Value(c: char, length: string, bits: int): int {
    var m := TypeSize(length);
    if c == 'd' || c == 'i' then (if bits % m < m / 2 then bits % m else bits % m - m) else bits % m
  }

  lemma SaidValue(flags: string, width: string, precision: string, length: string, at: nat, args: seq<Arg>, c: char, bits: int)
    requires IsSpec(flags, width, precision, length, args)
    ensures var f := Said(flags, width, precision, length, at, args).flags;
      Modulus(f) == TypeSize(length) && IntegerValue(c, bits, Modulus(f)) == Value(c, length, bits)
  {
  }

  predicate IsIntegerSpecifier(c: char) {
    c in {'d', 'i', 'u', 'x', 'X', 'o', 'b'}
  }

  function SignFor(c: char, v: int, flags: string): string {
    if c == 'd' || c == 'i' then SignOf(v < 0, '+' in flags, ' ' in flags) else ""
  }

  function DigitsFor(c: char, v: int, precision: string): string {
    if precision != "" && v == 0 then "" else Shown(Size(v), BaseFor(c), c == 'X')
  }

  /** The argument that is converted, behind those of the stars */
  predicate Converts(width: string, precision: string, args: seq<Arg>, a: Arg) {
    Stars(width, precision) < |args| && args[Stars(width, precision)] == a
  }

  /** The digits in the field that flags, width and precision ask for */
  function FieldText(sign: string, digits: string, flags: string, width: string, precision: string, args: seq<Arg>): string
    requires IsSpec(flags, width, precision, "", args)
  {
    var w := WidthOf(width, args);
    LaidOut(sign, digits, PrecisionOf(precision, AfterWidth(width, args)), Size(w), '-' in flags || w < 0,
            '0' in flags && precision == "")
  }

  predicate FieldFits(sign: string, digits: string, flags: string, width: string, precision: string, args: seq<Arg>)
    requires IsSpec(flags, width, precision, "", args)
  {
    var w := WidthOf(width, args);
    Fits(sign, digits, PrecisionOf(precision, AfterWidth(width, args)), Size(w), '-' in flags || w < 0,
         '0' in flags && precision == "")
  }

  lemma IntegerPrinted(flags: string, width: string, precision: string, length: string, c: char, args: seq<Arg>, bits: int)
    requires IsSpec(flags, width, precision, length, args) && IsIntegerSpecifier(c)
    requires Converts(width, precision, args, Num(bits))
    requires var v := Value(c, length, bits);
      && ('#' in flags ==> v == 0 || c in {'d', 'i', 'u'})
      && FieldFits(SignFor(c, v, flags), DigitsFor(c, v, precision), flags, width, precision, args)
    ensures var v := Value(c, length, bits);
      Render(Directed(flags, width, precision, length, c), 0, args)
      == Some(FieldText(SignFor(c, v, flags), DigitsFor(c, v, precision), flags, width, precision, args))
  {
    hide Render, LaidOut, Shown, Fits, Value, IsWidth, IsPrecision, IsLength, AllFlags, WidthOf, PrecisionOf, Modulus;
    hide IntegerText;
    var f := Directed(flags, width, precision, length, c);
    var d := Said(flags, width, precision, length, |f| - 1, args);
    assert d.args[0] == Num(bits);
    Printed(flags, width, precision, length, c, args);
    SaidValue(flags, width, precision, length, |f| - 1, args, c, bits);
    IntegerLaid(c, bits, d.prec, d.width, d.flags);
  }

  /** The directive without flags, width and precision */
  function Plain(length: string, c: char): string {
    "%" + length + [c]
  }

  /** What that prints for an argument */
  function PlainText(length: string, c: char, bits: int): Option<string> {
    Render(Plain(length, c), 0, [Num(bits)])
  }

  lemma PlainLaid(sign: string, digits: string, args: seq<Arg>)
    requires |sign| + |digits| <= 32
    ensures FieldFits(sign, digits, "", "", "", args) && FieldText(sign, digits, "", "", "", args) == sign + digits
  {
    WidthNone(args);
    PrecisionNone(args);
    assert "" + (sign + "" + digits) == sign + digits;
  }

  lemma PlainIs(length: string, c: char, bits: int)
    requires IsLength(length) && IsIntegerSpecifier(c)
    requires var v := Value(c, length, bits);
      |SignFor(c, v, "")| + |Shown(Size(v), BaseFor(c), c == 'X')| <= 32
    ensures var v := Value(c, length, bits);
      PlainText(length, c, bits) == Some(SignFor(c, v, "") + Shown(Size(v), BaseFor(c), c == 'X'))
  {
    hide Render, Shown, Value, IsLength, FieldText, FieldFits;
    var v := Value(c, length, bits);
    PlainLaid(SignFor(c, v, ""), Shown(Size(v), BaseFor(c), c == 'X'), [Num(bits)]);
    assert Directed("", "", "", length, c) == Plain(length, c);
    IntegerPrinted("", "", "", length, c, [Num(bits)], bits);
  }

  lemma ValueBound(c: char, length: string, bits: int)
    ensures var v := Value(c, length, bits);
      && v <= 0xffff_ffff_ffff_ffff && (c == 'd' || c == 'i' ==> -0x8000_0000_0000_0000 <= v < 0x8000_0000_0000_0000)
      && (c != 'd' && c != 'i' ==> 0 <= v)
  {
  }

  /** The text is there, and writes v in the base, with letters of one case. */
  ghost predicate Writes(r: Option<string>, v: nat, base: nat, upper: bool) {
    r.Some? && Numeral(r.value, base, v) && AllOfCase(r.value, upper)
  }

  /** The same in base 10, behind a minus sign where v is negative */
  ghost predicate WritesSigned(r: Option<string>, v: int) {
    && r.Some? && r.value != ""
    && if v < 0 then r.value[0] == '-' && Numeral(r.value[1..], 10, -v) else Numeral(r.value, 10, v)
  }

  /** At most 32 binary digits, which are v. */
  ghost predicate WritesBinary(r: Option<string>, v: nat) {
    && r.Some? && 0 < |r.value| <= 32 && (forall i :: 0 <= i < |r.value| ==> r.value[i] in {'0', '1'})
    && Number(r.value, 2) == v
  }

  /** %u, %x, %X and %o print the argument modulo 2 to the width of its type, in base 10, 16, 16 and 8. */
  lemma UnsignedMeaning(length: string, c: char, bits: int)
    requires IsLength(length) && c in {'u', 'x', 'X', 'o'}
    ensures Writes(PlainText(length, c, bits), bits % TypeSize(length),
                   if c == 'u' then 10 else if c == 'o' then 8 else 16, c == 'X')
  {
    hide Shown, Numeral, Render, AllOfCase;
    var v := Value(c, length, bits);
    ValueBound(c, length, bits);
    ShownExact(v, BaseFor(c), c == 'X');
    ShownIs(v, BaseFor(c), c == 'X');
    PlainIs(length, c, bits);
    assert "" + Shown(v, BaseFor(c), c == 'X') == Shown(v, BaseFor(c), c == 'X');
  }

  /** %d and %i print it as a signed number, in base 10 behind a minus sign if it is negative. */
  lemma SignedMeaning(length: string, c: char, bits: int)
    requires IsLength(length) && c in {'d', 'i'}
    ensures WritesSigned(PlainText(length, c, bits), Value(c, length, bits))
  {
    hide Shown, Numeral, Render, Value;
    var v := Value(c, length, bits);
    ValueBound(c, length, bits);
    ShownExact(Size(v), 10, false);
    ShownIs(Size(v), 10, false);
    PlainIs(length, c, bits);
    var s := Shown(Size(v), 10, false);
    assert ("-" + s)[1..] == s && "" + s == s;
  }

  /** %b prints the last 32 binary digits. */
  lemma BinaryMeaning(length: string, bits: int)
    requires IsLength(length)
    ensures WritesBinary(PlainText(length, 'b', bits), bits % TypeSize(length) % 0x1_0000_0000)
  {
    hide Shown, Render, Number, AllOfCase;
    var v := Value('b', length, bits);
    ShownIs(v, 2, false);
    ShownBinary(v, false);
    PlainIs(length, 'b', bits);
    assert "" + Shown(v, 2, false) == Shown(v, 2, false);
    BinaryDigits(Shown(v, 2, false));
  }

  lemma BinaryDigits(s: string)
    requires AllIn(s, 2)
    ensures forall i :: 0 <= i < |s| ==> s[i] in {'0', '1'}
  {
    forall i | 0 <= i < |s|
      ensures s[i] in {'0', '1'}
    {
      assert Digit(s[i]) < 2;
      DigitExact(s[i]);
    }
  }

  /** What the directive with the # flag alone prints for an argument */
  function HashText(length: string, c: char, bits: int): Option<string> {
    Render("%#" + length + [c], 0, [Num(bits)])
  }

  lemma IntegerSpecifier(c: char)
    requires IsIntegerSpecifier(c)
    ensures IsSpecifier(c)
  {
  }

  /** # puts 0x, 0X, 0 or 0b in front of the digits, except for a zero. */
  lemma HashMeaning(length: string, c: char, bits: int)
    requires IsLength(length) && c in {'x', 'X', 'o', 'b'}
    requires c == 'b' ==> bits % TypeSize(length) < 0x4000_0000
    ensures var prefix := match c case 'x' => "0x" case 'X' => "0X" case 'o' => "0" case _ => "0b";
      HashText(length, c, bits)
      == Prepend(if bits % TypeSize(length) == 0 then "" else prefix, PlainText(length, c, bits))
  {
    hide Render, Shown, IntegerText, Modulus, IsLength, PlainText, IsSpecifier;
    IntegerSpecifier(c);
    var v := bits % TypeSize(length);
    ShownIs(v, BaseFor(c), c == 'X');
    ValueBound(c, length, bits);
    if c == 'b' {
      PointerDigits();
      ShownShort(v, 2, false, 30);
    } else {
      ShownExact(v, BaseFor(c), c == 'X');
    }
    PlainIs(length, c, bits);
    assert "" + Shown(v, BaseFor(c), c == 'X') == Shown(v, BaseFor(c), c == 'X');
    var args := [Num(bits)];
    assert Directed("#", "", "", length, c) == "%#" + length + [c];
    Printed("#", "", "", length, c, args);
    WidthNone(args);
    PrecisionNone(args);
    SaidValue("#", "", "", length, |length| + 2, args, c, bits);
    HashLaid(c, bits, Said("#", "", "", length, |length| + 2, args).flags);
  }

  // Printing and parsing back.

  lemma NumeralParses(s: string, base: nat, v: nat, sign: string)
    requires Numeral(s, base, v) && v <= 0xffff_ffff_ffff_ffff && (sign == "" || sign == "-") && 2 <= base <= 36
    ensures Meaning(sign + s, base) == Parsed(Valued(v, sign), |sign + s|)
    ensures base == 10 ==> Meaning(sign + s, 0) == Parsed(Valued(v, sign), |sign + s|)
  {
    hide Meaning, Number, Digit;
    assert "" + sign + s + "" == sign + s && s + "" == s && "" + sign + s == sign + s;
    TextMeaning("", sign, s, "", base, base);
    if base == 10 {
      if s == "0" {
        NumberOne('0', 8);
        NumberOne('0', 10);
        DigitExact('0');
        TextMeaning("", sign, s, "", 0, 8);
      } else {
        DecimalMeaning("", sign, s, "");
      }
    }
  }

  /** %d, %i and %u parse back in base 10 and in base 0, %x and %X in base 16, %o in base 8: the whole text, modulo 2^64. */
  lemma ParsesBack(length: string, c: char, bits: int)
    requires IsLength(length) && IsIntegerSpecifier(c) && c != 'b'
    ensures PlainText(length, c, bits).Some?
    ensures var text := PlainText(length, c, bits).value;
      var meant := Parsed(Value(c, length, bits) % 0x1_0000_0000_0000_0000, |text|);
      if c in {'x', 'X'} then Meaning(text, 16) == meant
      else if c == 'o' then Meaning(text, 8) == meant
      else Meaning(text, 10) == Meaning(text, 0) == meant
  {
    hide PlainText, Meaning, Numeral, AllOfCase, Value;
    ValueBound(c, length, bits);
    var v := Value(c, length, bits);
    if c in {'d', 'i'} {
      SignedMeaning(length, c, bits);
      var text := PlainText(length, c, bits).value;
      if v < 0 {
        assert text == "-" + text[1..];
        NumeralParses(text[1..], 10, -v, "-");
      } else {
        assert "" + text == text;
        NumeralParses(text, 10, v, "");
      }
    } else {
      UnsignedMeaning(length, c, bits);
      UnsignedValue(c, length, bits);
      var text := PlainText(length, c, bits).value;
      assert "" + text == text;
      NumeralParses(text, if c == 'u' then 10 else if c == 'o' then 8 else 16, v, "");
    }
  }

  lemma UnsignedValue(c: char, length: string, bits: int)
    requires c != 'd' && c != 'i'
    ensures Value(c, length, bits) == bits % TypeSize(length)
  {
  }

  lemma ZeroPlain(length: string, c: char, bits: int)
    requires IsLength(length) && c in {'x', 'X', 'o'} && bits % TypeSize(length) == 0
    ensures PlainText(length, c, bits) == Some("0")
  {
    hide PlainText, IsLength, Shown;
    ZeroShown(BaseFor(c), c == 'X');
    PlainIs(length, c, bits);
    assert "" + "0" == "0";
  }

  lemma ZeroParses()
    ensures Meaning("0", 0) == Parsed(0, 1)
  {
    hide Meaning, Number, Digit;
    NumberOne('0', 8);
    DigitExact('0');
    assert "" + "" + "0" + "" == "0";
    TextMeaning("", "", "0", "", 0, 8);
  }

  lemma ZeroInFront(s: string)
    requires AllIn(s, 8)
    ensures AllIn("0" + s, 8)
  {
    hide Digit;
    DigitExact('0');
    forall i | 0 <= i < |"0" + s|
      ensures Digit(("0" + s)[i]) < 8
    {
      if i > 0 {
        assert ("0" + s)[i] == s[i - 1];
      }
    }
  }

  lemma NoX(c: char)
    requires Digit(c) < 8
    ensures c != 'x' && c != 'X'
  {
  }

  lemma OctalParses(s: string, v: nat)
    requires Numeral(s, 8, v) && v <= 0xffff_ffff_ffff_ffff
    ensures Meaning("0" + s, 0) == Parsed(v, |s| + 1)
  {
    hide Meaning, Number, Digit, AllIn;
    var text := "0" + s;
    NumberJoin("0", s, 8);
    NumberOne('0', 8);
    DigitExact('0');
    ZeroInFront(s);
    assert Digit(s[0]) < 8 by {
      FirstIn(s);
    }
    NoX(s[0]);
    assert text[1] == s[0];
    assert "" + "" + text + "" == text;
    TextMeaning("", "", text, "", 0, 8);
  }

  lemma FirstIn(s: string)
    requires s != "" && AllIn(s, 8)
    ensures Digit(s[0]) < 8
  {
    hide Digit;
  }

  /** With #, %x, %X and %o parse back in base 0, too. */
  lemma HashParses(length: string, c: char, bits: int)
    requires IsLength(length) && c in {'x', 'X', 'o'}
    ensures HashText(length, c, bits).Some?
    ensures var text := HashText(length, c, bits).value;
      Meaning(text, 0) == Parsed(bits % TypeSize(length), |text|)
  {
    hide PlainText, HashText, Meaning, AllOfCase, Number, Digit, IsLength;
    UnsignedMeaning(length, c, bits);
    HashMeaning(length, c, bits);
    ValueBound(c, length, bits);
    UnsignedValue(c, length, bits);
    var v, s := bits % TypeSize(length), PlainText(length, c, bits).value;
    if v == 0 {
      ZeroPlain(length, c, bits);
      ZeroParses();
      assert "" + s == s;
    } else if c == 'o' {
      OctalParses(s, v);
    } else {
      var x := if c == 'x' then "0x" else "0X";
      assert "" + "" + x + s + "" == x + s;
      HexMeaning("", "", x, s, "", 0);
    }
  }

  // Fields.

  /**
  Any directive for an integer: the digits are those that it has without flags, width and precision, or none for
  a zero with a precision; they are laid out behind the sign in the field asked for, and where #, for x, X, o
  and b, does not add its prefix.
   */
  lemma IntegerField(flags: string, width: string, precision: string, length: string, c: char, args: seq<Arg>, bits: int)
    requires IsSpec(flags, width, precision, length, args) && IsIntegerSpecifier(c)
    requires Converts(width, precision, args, Num(bits))
    requires var v := Value(c, length, bits);
      && ('#' in flags ==> v == 0 || c in {'d', 'i', 'u'})
      && FieldFits(SignFor(c, v, flags), DigitsOf(length, c, bits, precision), flags, width, precision, args)
    ensures var v := Value(c, length, bits);
      Render(Directed(flags, width, precision, length, c), 0, args)
      == Some(FieldText(SignFor(c, v, flags), DigitsOf(length, c, bits, precision), flags, width, precision, args))
  {
    hide Render, FieldText, FieldFits, Value, PlainText, IsSpec, Shown, Directed;
    var v := Value(c, length, bits);
    SpecLength(flags, width, precision, length, args);
    ValueBound(c, length, bits);
    ShownIs(Size(v), BaseFor(c), c == 'X');
    if c == 'd' || c == 'i' {
      ShownExact(Size(v), 10, false);
    }
    PlainIs(length, c, bits);
    var s := Shown(Size(v), BaseFor(c), c == 'X');
    assert ("-" + s)[1..] == s && "" + s == s;
    IntegerPrinted(flags, width, precision, length, c, args, bits);
  }

  lemma SpecLength(flags: string, width: string, precision: string, length: string, args: seq<Arg>)
    requires IsSpec(flags, width, precision, length, args)
    ensures IsLength(length) && IsSpec(flags, width, precision, "", args)
  {
  }

  /** The text that there is without flags, width and precision, without its minus sign */
  function DigitsOf(length: string, c: char, bits: int, precision: string): string {
    var v := Value(c, length, bits);
    match PlainText(length, c, bits)
    case None => ""
    case Some(text) => if precision != "" && v == 0 then "" else if v < 0 && text != "" then text[1..] else text
  }

  /** s in a field of at least w places, at the right end or the left end of it, with spaces beside it. */
  ghost predicate InField(r: Option<string>, s: string, w: nat, left: bool) {
    && r.Some? && |r.value| == Max(|s|, w)
    && var free := |r.value| - |s|;
       if left then r.value[..|s|] == s && forall i :: |s| <= i < |r.value| ==> r.value[i] == ' '
       else r.value[free..] == s && forall i :: 0 <= i < free ==> r.value[i] == ' '
  }

  lemma StringInField(s: string, p: nat, w: nat, f: Flags)
    ensures InField(Some(StringText(s, p, w, f)), if f.precision then s[..Min(|s|, p)] else s, w, f.left)
  {
  }

  lemma CharInField(c: char, w: nat, f: Flags)
    ensures InField(Some(CharText(c, w, f)), [c], w, f.left)
  {
  }

  lemma HeldString(s: string, rest: string)
    requires NUL !in s
    ensures Ended(s + [NUL] + rest, NUL) && Until(s + [NUL] + rest, NUL) == s
  {
    var held := s + [NUL] + rest;
    assert held[..|s|] == s && held[|s|] == NUL;
    UntilIs(held, NUL, s);
  }

  /** %s: the string up to its terminator, or as much of it as the precision says. */
  lemma StringField(flags: string, width: string, precision: string, length: string, args: seq<Arg>, s: string, rest: string)
    requires IsSpec(flags, width, precision, length, args) && NUL !in s
    requires Converts(width, precision, args, Str(s + [NUL] + rest))
    ensures var w, p := WidthOf(width, args), PrecisionOf(precision, AfterWidth(width, args));
      InField(Render(Directed(flags, width, precision, length, 's'), 0, args),
              if precision != "" then s[..Min(|s|, p)] else s, Size(w), '-' in flags || w < 0)
  {
    hide Render, IsWidth, IsPrecision, IsLength, AllFlags, WidthOf, PrecisionOf, IsSpecifier, Until, StringText, InField;
    OtherSpecifiers();
    var f := Directed(flags, width, precision, length, 's');
    var d := Said(flags, width, precision, length, |f| - 1, args);
    assert d.args[0] == Str(s + [NUL] + rest);
    HeldString(s, rest);
    Printed(flags, width, precision, length, 's', args);
    StringInField(s, d.prec, d.width, d.flags);
  }

  lemma OtherSpecifiers()
    ensures IsSpecifier('s') && IsSpecifier('c') && IsSpecifier('p') && IsSpecifier('%')
  {
  }

  /** %c: the character of the argument modulo 256. */
  lemma CharField(flags: string, width: string, precision: string, length: string, args: seq<Arg>, bits: int)
    requires IsSpec(flags, width, precision, length, args)
    requires Converts(width, precision, args, Num(bits))
    ensures var w := WidthOf(width, args);
      InField(Render(Directed(flags, width, precision, length, 'c'), 0, args), [(bits % 256) as char], Size(w),
              '-' in flags || w < 0)
  {
    hide Render, IsWidth, IsPrecision, IsLength, AllFlags, WidthOf, PrecisionOf, IsSpecifier, CharText, InField;
    OtherSpecifiers();
    var f := Directed(flags, width, precision, length, 'c');
    var d := Said(flags, width, precision, length, |f| - 1, args);
    assert d.args[0] == Num(bits);
    Printed(flags, width, precision, length, 'c', args);
    CharInField((bits % 256) as char, d.width, d.flags);
  }

  /** Sixteen hexadecimal digits in capitals, which are v. */
  ghost predicate WritesPointer(r: Option<string>, v: nat) {
    && r.Some? && |r.value| == 16 && AllOfCase(r.value, true) && AllIn(r.value, 16)
    && Number(r.value, 16) == v && Meaning(r.value, 16) == Parsed(v, 16)
  }

  lemma ZerosInFront(n: nat, s: string, v: nat)
    requires AllIn(s, 16) && AllOfCase(s, true) && Number(s, 16) == v <= 0xffff_ffff_ffff_ffff && n + |s| == 16
    ensures WritesPointer(Some(Repeat('0', n) + s), v)
  {
    hide Meaning, Number, Digit;
    var text := Repeat('0', n) + s;
    DigitExact('0');
    NumberJoin(Repeat('0', n), s, 16);
    NoNumber(n);
    assert AllIn(text, 16);
    DigitExact(text[1]);
    assert "" + "" + text + "" == text;
    TextMeaning("", "", text, "", 16, 16);
  }

  lemma {:induction false} NoNumber(n: nat)
    ensures Number(Repeat('0', n), 16) == 0
  {
    if n > 0 {
      var s := Repeat('0', n);
      assert s[..n - 1] == Repeat('0', n - 1);
      NoNumber(n - 1);
    }
  }

  /** %p prints the pointer. */
  lemma PointerMeaning(bits: int)
    ensures WritesPointer(Render("%p", 0, [Num(bits)]), bits % 0x1_0000_0000_0000_0000)
  {
    hide Render, WritesPointer, Shown, Number, Ntoa, AllIn, AllOfCase;
    var v, args := bits % 0x1_0000_0000_0000_0000, [Num(bits)];
    OtherSpecifiers();
    WidthNone(args);
    PrecisionNone(args);
    assert Directed("", "", "", "", 'p') == "%p";
    Printed("", "", "", "", 'p', args);
    var f := Said("", "", "", "", 1, args).flags.(zeropad := true, upper := true);
    var s := Shown(v, 16, true);
    ShownIs(v, 16, true);
    ShownExact(v, 16, true);
    PointerDigits();
    ShownShort(v, 16, true, 16);
    NtoaLaid(v, false, 16, 0, 16, f);
    ZerosInFront(16 - |s|, s, v);
    assert LaidOut("", s, 0, 16, false, true) == Repeat('0', 16 - |s|) + s;
  }

  /**
  Any directive for a pointer: the digits of %llX in a field of sixteen places whatever width it asks for, with
  zeros in front even if there is a precision, behind a sign that + or a space asks for.
   */
  lemma PointerField(flags: string, width: string, precision: string, length: string, args: seq<Arg>, bits: int)
    requires IsSpec(flags, width, precision, length, args) && Converts(width, precision, args, Num(bits))
    requires '#' in flags ==> bits % 0x1_0000_0000_0000_0000 == 0
    requires Fits(SignOf(false, '+' in flags, ' ' in flags), DigitsOf("ll", 'X', bits, precision),
                  PrecisionOf(precision, AfterWidth(width, args)), 16, '-' in flags || WidthOf(width, args) < 0, true)
    ensures Render(Directed(flags, width, precision, length, 'p'), 0, args)
      == Some(LaidOut(SignOf(false, '+' in flags, ' ' in flags), DigitsOf("ll", 'X', bits, precision),
                      PrecisionOf(precision, AfterWidth(width, args)), 16, '-' in flags || WidthOf(width, args) < 0, true))
  {
    hide Render, Shown, Ntoa, IsWidth, IsPrecision, IsLength, AllFlags, WidthOf, PrecisionOf, PlainText, LaidOut, Fits;
    var v := bits % 0x1_0000_0000_0000_0000;
    OtherSpecifiers();
    PlainPointer(bits);
    var f := Directed(flags, width, precision, length, 'p');
    var d := Said(flags, width, precision, length, |f| - 1, args);
    assert d.args[0] == Num(bits);
    Printed(flags, width, precision, length, 'p', args);
    NtoaLaid(v, false, 16, d.prec, 16, d.flags.(zeropad := true, upper := true));
  }

  lemma PlainPointer(bits: int)
    ensures var v := bits % 0x1_0000_0000_0000_0000;
      PlainText("ll", 'X', bits) == Some(Shown(v, 16, true)) && Value('X', "ll", bits) == v
  {
    hide PlainText, Shown;
    var v := bits % 0x1_0000_0000_0000_0000;
    ShownIs(v, 16, true);
    PlainIs("ll", 'X', bits);
    assert "" + Shown(v, 16, true) == Shown(v, 16, true);
  }

  // Characters and what is not converted.

  /** Two percent signs are one. */
  lemma PercentPrinted(args: seq<Arg>)
    ensures Render("%%", 0, args) == Some("%")
  {
    hide Render;
    ItselfPrinted("", "", "", "", '%', args);
    assert Directed("", "", "", "", '%') == "%%";
  }

  /** A character that is no conversion is printed itself, and its flags, width and precision have no effect. */
  lemma ItselfPrinted(flags: string, width: string, precision: string, length: string, c: char, args: seq<Arg>)
    requires IsSpec(flags, width, precision, length, args)
    requires IsSpecifier(c)
    requires !IsIntegerSpecifier(c) && c !in {'c', 's', 'p', 'f', 'F', 'e', 'E', 'g', 'G'}
    ensures Render(Directed(flags, width, precision, length, c), 0, args) == Some([c])
  {
    hide Render, IsSpec, IsSpecifier;
    Printed(flags, width, precision, length, c, args);
  }

  /** Where the argument is missing or not of the kind, nothing is promised; and for floating point never. */
  lemma Unconverted(flags: string, width: string, precision: string, length: string, c: char, args: seq<Arg>, rest: string)
    requires IsSpec(flags, width, precision, length, args) && IsSpecifier(c)
    requires var n := Stars(width, precision);
      || c in {'f', 'F', 'e', 'E', 'g', 'G'}
      || ((IsIntegerSpecifier(c) || c == 'c' || c == 'p') && (|args| == n || args[n].Str?))
      || (c == 's' && (|args| == n || args[n].Num? || NUL !in args[n].s))
    ensures Render(Directed(flags, width, precision, length, c) + rest, 0, args) == None
  {
    hide IsSpecifier, ReadDirective, ConvertText, IsWidth, IsPrecision, IsLength, AllFlags, WidthOf, PrecisionOf;
    SaidExact(flags, width, precision, length, c, rest, args);
    var f := Directed(flags, width, precision, length, c) + rest;
    var d := Said(flags, width, precision, length, 1 + |flags + width + precision + length|, args);
    assert CharAt(f, d.at) == c;
    assert !Convertible(c, d.args);
  }

  /** The conversions that have an argument of their own */
  function Taken(c: char): nat {
    if c in {'d', 'i', 'u', 'x', 'X', 'o', 'b', 'c', 's', 'p'} then 1 else 0
  }

  lemma TakenIs(c: char, args: seq<Arg>)
    requires Convertible(c, args)
    ensures Taken(c) <= |args| && ArgsAfter(c, args) == args[Taken(c)..]
  {
  }

  /** Each conversion uses up its own argument; the next directive goes on behind it. */
  lemma ArgumentTaken(flags: string, width: string, precision: string, length: string, c: char, args: seq<Arg>)
    requires IsSpec(flags, width, precision, length, args) && IsSpecifier(c)
    requires Convertible(c, args[Stars(width, precision)..])
    ensures var f, n := Directed(flags, width, precision, length, c), Stars(width, precision) + Taken(c);
      n <= |args| && Stops(f, 0, args) == Some((|f|, args[n..]))
  {
    hide IsSpecifier, ConvertText, Stops, Convertible, ArgsAfter, Taken, Stars, Render;
    hide IsWidth, IsPrecision, IsLength, AllFlags, WidthOf, PrecisionOf;
    TakenIs(c, args[Stars(width, precision)..]);
    Printed(flags, width, precision, length, c, args);
    var n := Stars(width, precision);
    assert args[n..][Taken(c)..] == args[n + Taken(c)..];
  }

  lemma PlainStopped(length: string, c: char, bits: int)
    requires IsLength(length) && IsIntegerSpecifier(c)
    ensures Stops(Plain(length, c), 0, [Num(bits)]) == Some((|Plain(length, c)|, [])) && PlainText(length, c, bits).Some?
  {
    hide Render, Stops, IsLength, IsSpecifier, IntegerText;
    IntegerSpecifier(c);
    var args := [Num(bits)];
    assert Directed("", "", "", length, c) == Plain(length, c);
    assert args[0..] == args && args[1..] == [];
    Printed("", "", "", length, c, args);
    ArgumentTaken("", "", "", length, c, args);
  }

  function Between(before: string, r: Option<string>, behind: string): Option<string> {
    match r
    case None => None
    case Some(text) => Some(before + text + behind)
  }

  /** A number between two plain texts, as in a line of the log */
  lemma Labelled(before: string, length: string, c: char, bits: int, behind: string)
    requires '%' !in before && '%' !in behind && IsLength(length) && IsIntegerSpecifier(c)
    ensures Render(before + Plain(length, c) + behind, 0, [Num(bits)])
      == Between(before, PlainText(length, c, bits), behind)
  {
    hide Stops, Render, IsLength;
    var f := Plain(length, c);
    PlainStops(before, 0, [Num(bits)]);
    PlainPrinted(before, 0, [Num(bits)]);
    RenderJoin(before, f + behind, [Num(bits)]);
    PlainStopped(length, c, bits);
    RenderJoin(f, behind, [Num(bits)]);
    PlainPrinted(behind, 0, []);
    assert before + f + behind == before + (f + behind);
    assert before[0..] == before && behind[0..] == behind;
    var text := PlainText(length, c, bits).value;
    assert before + (text + behind) == before + text + behind;
  }
}

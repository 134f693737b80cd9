/** strtoull: 64-bit parsing with an exact overflow test. */
module Strtoull {
  import opened Bytes

  const ULLONG_MAX: int := 0xffff_ffff_ffff_ffff

  predicate IsSpace(c: char) {
    c == '\t' || c == '\n' || c == 11 as char || c == 12 as char || c == '\r' || c == ' '
  }

  predicate IsDigit(c: char) {
    '0' <= c <= '9'
  }

  predicate IsAlpha(c: char) {
    'a' <= c <= 'z' || 'A' <= c <= 'Z'
  }

  predicate IsUpper(c: char) {
    'A' <= c <= 'Z' || 0xC0 <= c as int <= 0xDD
  }

  /** The worth of c as a digit in bases up to 36, or 36 when it is none. */
  function Digit(c: char): (d: nat)
    ensures d <= 36
  {
    if IsDigit(c) then c as int - '0' as int
    else if 'a' <= c <= 'z' then c as int - 'a' as int + 10
    else if 'A' <= c <= 'Z' then c as int - 'A' as int + 10
    else 36
  }

  // The meaning: spaces, sign, prefix, the longest run of digits, and its value.

  function SpacesEnd(s: string, i: nat): (e: nat)
    requires i <= |s|
    ensures i <= e <= |s|
    decreases |s| - i
  {
    if i < |s| && IsSpace(s[i]) then SpacesEnd(s, i + 1) else i
  }

  function RunEnd(s: string, base: nat, i: nat): (e: nat)
    requires i <= |s|
    ensures i <= e <= |s|
    decreases |s| - i
  {
    if i < |s| && Digit(s[i]) < base then RunEnd(s, base, i + 1) else i
  }

  /** Positional value, most significant digit first. */
  function Number(digits: string, base: nat): nat {
    if digits == [] then 0
    else Number(digits[..|digits| - 1], base) * base + Digit(digits[|digits| - 1])
  }

  predicate SignAt(s: string, i: nat) {
    i < |s| && (s[i] == '-' || s[i] == '+')
  }

  predicate HexPrefixAt(s: string, base: int, i: nat) {
    (base == 0 || base == 16) && i + 1 < |s| && s[i] == '0' && (s[i + 1] == 'x' || s[i + 1] == 'X')
  }

  function AfterSign(s: string): (i: nat)
    ensures i <= |s|
  {
    var i := SpacesEnd(s, 0);
    if SignAt(s, i) then i + 1 else i
  }

  predicate Negative(s: string) {
    var i := SpacesEnd(s, 0);
    i < |s| && s[i] == '-'
  }

  /** The base in force, and where the digits start. */
  function EffectiveBase(s: string, base: nat): nat {
    var i := AfterSign(s);
    if HexPrefixAt(s, base, i) then 16
    else if base != 0 then base
    else if i < |s| && s[i] == '0' then 8 else 10
  }

  function DigitsStart(s: string, base: nat): (i: nat)
    ensures i <= |s|
  {
    var i := AfterSign(s);
    if HexPrefixAt(s, base, i) then i + 2 else i
  }

  predicate BaseOk(base: int) {
    base == 0 || 2 <= base <= 36
  }

  datatype Parsed = Parsed(value: nat, end: nat)

  /** What strtoull makes of the string s: value and end position. */
  function Meaning(s: string, base: int): Parsed {
    if !BaseOk(base) then Parsed(0, 0)
    else
      var b := EffectiveBase(s, base);
      var from := DigitsStart(s, base);
      var end := RunEnd(s, b, from);
      if end == from then Parsed(0, 0)
      else
        var v := Number(s[from..end], b);
        Parsed(if v > ULLONG_MAX then ULLONG_MAX else if Negative(s) then (0x1_0000_0000_0000_0000 - v) % 0x1_0000_0000_0000_0000 else v,
               end)
  }

  // Arithmetic.

  lemma MulMono(a: nat, b: nat, c: nat)
    requires a <= b
    ensures a * c <= b * c
  {
  }

  /** The cutoff test is exact in every base. */
  lemma CutoffExact(acc: nat, base: nat, c: nat)
    requires 2 <= base <= 36 && c < base
    ensures var cutoff, cutlim := ULLONG_MAX / base, ULLONG_MAX % base;
      acc > cutoff || (acc == cutoff && c > cutlim) <==> acc * base + c > ULLONG_MAX
  {
    var cutoff, cutlim := ULLONG_MAX / base, ULLONG_MAX % base;
    assert cutoff * base + cutlim == ULLONG_MAX;
    if acc > cutoff {
      MulMono(cutoff + 1, acc, base);
      assert (cutoff + 1) * base == cutoff * base + base;
    } else if acc < cutoff {
      MulMono(acc + 1, cutoff, base);
      assert (acc + 1) * base == acc * base + base;
    }
  }

  lemma TimesBase(n: nat, base: nat, d: nat)
    requires base >= 2
    ensures n * base + d >= n
  {
    assert n * base == n * (base - 1) + n;
  }

  lemma NumberGrows(s: string, base: nat, from: nat, k: nat)
    requires from <= k < |s| && base >= 2
    ensures Number(s[from..k + 1], base) == Number(s[from..k], base) * base + Digit(s[k])
    ensures Number(s[from..k + 1], base) >= Number(s[from..k], base)
  {
    hide Digit, Number;
    var t := s[from..k + 1];
    assert t[..|t| - 1] == s[from..k] && t[|t| - 1] == s[k];
    NumberUnfold(t, base);
    TimesBase(Number(s[from..k], base), base, Digit(s[k]));
  }

  lemma NumberUnfold(t: string, base: nat)
    requires t != []
    ensures Number(t, base) == Number(t[..|t| - 1], base) * base + Digit(t[|t| - 1])
  {
  }

  /** The run of digits that starts at from, read so far up to k. */
  lemma RunContinues(s: string, base: nat, from: nat, k: nat)
    requires from <= k <= |s| && RunEnd(s, base, from) == RunEnd(s, base, k)
    ensures k < |s| && Digit(s[k]) < base ==> RunEnd(s, base, from) == RunEnd(s, base, k + 1)
    ensures k == |s| || Digit(s[k]) >= base ==> RunEnd(s, base, from) == k
  {
  }

  /** The code's own reading of a character that is a digit in some base */
  function DigitValue(c: char): (d: int)
    requires IsDigit(c) || IsAlpha(c)
    ensures d == Digit(c)
  {
    if IsDigit(c) then c as int - '0' as int
    else c as int - (if IsUpper(c) then 'A' as int - 10 else 'a' as int - 10)
  }

  lemma NotADigit(c: char)
    requires !IsDigit(c) && !IsAlpha(c)
    ensures Digit(c) == 36
  {
  }

  method SkipSpaces(str: string) returns (s: nat, c: char)
    requires Ended(str, NUL)
    ensures s == SpacesEnd(Until(str, NUL), 0) + 1 && s <= |str| && c == str[s - 1]
  {
    hide Until;
    ghost var text := Until(str, NUL);
    TextAt(str, NUL, 0);
    c := str[0];
    s := 1;
    while IsSpace(c)
      invariant 0 < s <= |text| + 1 && s <= |str| && c == str[s - 1]
      invariant SpacesEnd(text, 0) == SpacesEnd(text, s - 1)
      decreases |str| - s
    {
      TextAt(str, NUL, s - 1);
      TextAt(str, NUL, s);
      c := str[s];
      s := s + 1;
    }
    TextAt(str, NUL, s - 1);
  }

  method SkipSign(str: string) returns (s: nat, c: char, neg: bool)
    requires Ended(str, NUL)
    ensures s == AfterSign(Until(str, NUL)) + 1 && s <= |str| && c == str[s - 1] && neg == Negative(Until(str, NUL))
  {
    hide Until, SpacesEnd;
    s, c := SkipSpaces(str);
    TextAt(str, NUL, s - 1);
    neg := false;
    if c == '-' {
      neg := true;
      TextAt(str, NUL, s);
      c := str[s];
      s := s + 1;
    } else if c == '+' {
      TextAt(str, NUL, s);
      c := str[s];
      s := s + 1;
    }
  }

  /** The head of strtoull: spaces, sign and prefix. s is the pointer, c the character before it. */
  method Head(str: string, base0: nat) returns (s: nat, c: char, neg: bool, base: nat)
    requires Ended(str, NUL) && BaseOk(base0)
    ensures var text := Until(str, NUL);
      && s == DigitsStart(text, base0) + 1 && s <= |str| && c == str[s - 1]
      && base == EffectiveBase(text, base0) && 2 <= base <= 36 && neg == Negative(text)
  {
    hide Until, AfterSign, Negative;
    base := base0;
    s, c, neg := SkipSign(str);
    TextAt(str, NUL, s - 1);
    if (base == 0 || base == 16) && c == '0' {
      TextAt(str, NUL, s);
      if str[s] == 'x' || str[s] == 'X' {
        TextAt(str, NUL, s + 1);
        c := str[s + 1];
        s := s + 2;
        base := 16;
      }
    }
    if base == 0 {
      base := if c == '0' then 8 else 10;
    }
  }

  /** acc and any, after digits that stand for n */
  predicate Tracks(acc: int, any: int, n: nat) {
    || (any == 0 && acc == 0 && n == 0)
    || (any == 1 && acc == n <= ULLONG_MAX)
    || (any == -1 && acc == ULLONG_MAX < n)
  }

  /** One digit more, with the overflow test in front of the arithmetic */
  method Accumulate(acc0: int, any0: int, c: nat, base: nat, ghost n: nat) returns (acc: int, any: int)
    requires 2 <= base <= 36 && c < base && Tracks(acc0, any0, n)
    ensures Tracks(acc, any, n * base + c) && any != 0
  {
    var cutoff := ULLONG_MAX / base;
    var cutlim := ULLONG_MAX % base;
    acc, any := acc0, any0;
    TimesBase(n, base, c);
    if any >= 0 {
      CutoffExact(acc, base, c);
      if acc > cutoff || (acc == cutoff && c > cutlim) {
        any := -1;
        acc := ULLONG_MAX;
      } else {
        any := 1;
        acc := acc * base;
        acc := acc + c;
      }
    }
  }

  method Strtoull(str: string, base0: int) returns (value: nat, end: nat)
    requires Ended(str, NUL)
    ensures Parsed(value, end) == Meaning(Until(str, NUL), base0)
  {
    hide EffectiveBase, DigitsStart, Negative, Number, Until, Digit, RunEnd;
    if base0 < 0 || base0 == 1 || base0 > 36 {
      return 0, 0;
    }
    var s, c, neg, base := Head(str, base0);
    ghost var text, from := Until(str, NUL), s - 1;
    TextAt(str, NUL, from);
    EmptyNumber(text, base, from);
    var acc, any := 0, 0;
    while true
      invariant from < s <= |text| + 1 && s <= |str| && c == str[s - 1]
      invariant RunEnd(text, base, from) == RunEnd(text, base, s - 1)
      invariant Tracks(acc, any, Number(text[from..s - 1], base)) && (any == 0 <==> s - 1 == from)
      decreases |str| - s
    {
      TextAt(str, NUL, s - 1);
      RunContinues(text, base, from, s - 1);
      if !IsDigit(c) && !IsAlpha(c) {
        NotADigit(c);
        break;
      }
      var d := DigitValue(c);
      if d >= base {
        break;
      }
      NulIsNoDigit();
      NumberGrows(text, base, from, s - 1);
      acc, any := Accumulate(acc, any, d, base, Number(text[from..s - 1], base));
      TextAt(str, NUL, s);
      c := str[s];
      s := s + 1;
    }
    if neg && any > 0 {
      acc := (0x1_0000_0000_0000_0000 - acc) % 0x1_0000_0000_0000_0000;
    }
    return acc, if any != 0 then s - 1 else 0;
  }

  lemma NulIsNoDigit()
    ensures !IsDigit(NUL) && !IsAlpha(NUL)
  {
  }

  lemma EmptyNumber(s: string, base: nat, i: nat)
    requires i <= |s|
    ensures Number(s[i..i], base) == 0
  {
  }
}

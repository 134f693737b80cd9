/** What strtoull makes of a text that is put together from spaces, sign, prefix and digits. */
module StrtoullFacts {
  import opened Strtoull

  // Characters.

  /** space, and tab to carriage return */
  predicate Blank(c: char) {
    c == ' ' || 9 <= c as int <= 13
  }

  ghost predicate Blanks(s: string) {
    forall c :: c in s ==> Blank(c)
  }

  predicate IsSign(s: string) {
    s == "" || s == "+" || s == "-"
  }

  lemma SpaceExact(c: char)
    ensures IsSpace(c) <==> Blank(c)
  {
  }

  /** 0 to 9, then the letters in either case; everything else is no digit in any base. */
  lemma DigitExact(c: char)
    ensures '0' <= c <= '9' ==> Digit(c) == c as int - 48
    ensures 'a' <= c <= 'z' ==> Digit(c) == 10 + (c as int - 97)
    ensures 'A' <= c <= 'Z' ==> Digit(c) == 10 + (c as int - 65)
    ensures !('0' <= c <= '9' || 'a' <= c <= 'z' || 'A' <= c <= 'Z') ==> Digit(c) >= 36
  {
  }

  lemma NumberOne(c: char, base: nat)
    ensures Number([c], base) == Digit(c)
  {
    assert [c][..0] == [];
    assert Number([], base) == 0;
  }

  /** Positional notation: the digits on the left weigh base to the number of digits on the right. */
  lemma {:induction false} NumberJoin(s: string, t: string, base: nat)
    ensures Number(s + t, base) == Number(s, base) * Power(base, |t|) + Number(t, base)
  {
    hide Digit;
    if t == "" {
      assert s + t == s;
    } else {
      var n := |t| - 1;
      assert (s + t)[..|s + t| - 1] == s + t[..n];
      NumberJoin(s, t[..n], base);
      Spread(Number(s, base), Power(base, n), Number(t[..n], base), base);
    }
  }

  function Power(b: nat, k: nat): nat {
    if k == 0 then 1 else Power(b, k - 1) * b
  }

  lemma Spread(a: nat, p: nat, n: nat, b: nat)
    ensures (a * p + n) * b == a * (p * b) + n * b
  {
    assert (a * p + n) * b == a * p * b + n * b;
    assert a * p * b == a * (p * b);
  }

  // The head of the text.

  lemma {:induction false} SpacesAre(ws: string, tail: string, i: nat)
    requires Blanks(ws) && i <= |ws| && (tail != "" ==> !Blank(tail[0]))
    ensures SpacesEnd(ws + tail, i) == |ws|
    decreases |ws| - i
  {
    hide IsSpace, Blank;
    var s := ws + tail;
    if i < |ws| {
      assert s[i] == ws[i] && ws[i] in ws;
      SpaceExact(s[i]);
      SpacesAre(ws, tail, i + 1);
    } else if tail != "" {
      assert s[i] == tail[0];
      SpaceExact(s[i]);
    }
  }

  /** The text starts with what is no space and, where there is no sign, no sign. */
  predicate Behind(sign: string, tail: string) {
    sign == "" && tail != "" ==> !Blank(tail[0]) && tail[0] != '+' && tail[0] != '-'
  }

  lemma HeadIs(ws: string, sign: string, tail: string)
    requires Blanks(ws) && IsSign(sign) && Behind(sign, tail)
    ensures AfterSign(ws + sign + tail) == |ws + sign|
    ensures Negative(ws + sign + tail) <==> sign == "-"
  {
    hide Blank;
    assert ws + sign + tail == ws + (sign + tail);
    NoBlankSign();
    SpacesAre(ws, sign + tail, 0);
    var s := ws + sign + tail;
    if sign + tail != "" {
      assert s[|ws|] == (sign + tail)[0];
    }
  }

  lemma NoBlankSign()
    ensures !Blank('+') && !Blank('-')
  {
  }

  // The digits.

  ghost predicate AllIn(digits: string, base: nat) {
    forall i :: 0 <= i < |digits| ==> Digit(digits[i]) < base
  }

  /** What follows is no digit any more. */
  predicate EndsRun(rest: string, base: nat) {
    rest != "" ==> Digit(rest[0]) >= base
  }

  lemma {:induction false} RunIs(front: string, digits: string, rest: string, base: nat, k: nat)
    requires AllIn(digits, base) && EndsRun(rest, base) && k <= |digits|
    ensures RunEnd(front + digits + rest, base, |front| + k) == |front + digits|
    decreases |digits| - k
  {
    hide Digit;
    var s := front + digits + rest;
    if k < |digits| {
      assert s[|front| + k] == digits[k];
      RunIs(front, digits, rest, base, k + 1);
    } else if rest != "" {
      assert s[|front| + k] == rest[0];
    }
  }

  lemma DigitNotHead(c: char, base: nat)
    requires Digit(c) < base <= 36
    ensures !Blank(c) && c != '+' && c != '-'
  {
  }

  /** The value of n with its sign, in 64 bits: too large is the largest, minus is modulo 2^64. */
  function Valued(n: nat, sign: string): nat {
    if n > 0xffff_ffff_ffff_ffff then 0xffff_ffff_ffff_ffff
    else if sign == "-" && n > 0 then 0x1_0000_0000_0000_0000 - n
    else n
  }

  /** The base that is asked for is the one in force; base 0 says 8 for a leading zero, and 10 otherwise. */
  predicate Chosen(base0: nat, base: nat, first: char) {
    if base0 == 0 then base == (if first == '0' then 8 else 10) else base == base0 && 2 <= base <= 36
  }

  /** No text that would be taken for the prefix of base 16 */
  predicate NoPrefix(base0: nat, tail: string) {
    (base0 == 0 || base0 == 16) && |tail| > 1 && tail[0] == '0' ==> tail[1] != 'x' && tail[1] != 'X'
  }

  /**
  Spaces, a sign, and digits of the base, up to something else: the number they denote, with its sign, and
  the end of the digits.
   */
  lemma TextMeaning(ws: string, sign: string, digits: string, rest: string, base0: nat, base: nat)
    requires Blanks(ws) && IsSign(sign) && digits != "" && AllIn(digits, base) && EndsRun(rest, base)
    requires Chosen(base0, base, digits[0]) && NoPrefix(base0, digits + rest)
    ensures Meaning(ws + sign + digits + rest, base0) == Parsed(Valued(Number(digits, base), sign), |ws + sign + digits|)
  {
    hide Digit, Number, AfterSign, Negative, RunEnd, Blank;
    var s, from := ws + sign + digits + rest, |ws + sign|;
    DigitNotHead(digits[0], base);
    assert s == ws + sign + (digits + rest);
    HeadIs(ws, sign, digits + rest);
    assert s[from] == digits[0] == (digits + rest)[0];
    assert |digits + rest| > 1 ==> s[from + 1] == (digits + rest)[1];
    RunIs(ws + sign, digits, rest, base, 0);
    assert s[from..|ws + sign + digits|] == digits;
  }

  /** The same behind 0x or 0X, in base 16 or in base 0. */
  lemma HexMeaning(ws: string, sign: string, x: string, digits: string, rest: string, base0: nat)
    requires Blanks(ws) && IsSign(sign) && (x == "0x" || x == "0X") && (base0 == 0 || base0 == 16)
    requires digits != "" && AllIn(digits, 16) && EndsRun(rest, 16)
    ensures Meaning(ws + sign + x + digits + rest, base0)
      == Parsed(Valued(Number(digits, 16), sign), |ws + sign + x + digits|)
  {
    hide Digit, Number, AfterSign, Negative, RunEnd, Blank;
    HexHead(ws, sign, x, digits + rest, base0);
    var s, from := ws + sign + x + digits + rest, |ws + sign + x|;
    assert s == ws + sign + x + (digits + rest);
    RunIs(ws + sign + x, digits, rest, 16, 0);
    assert s[from..|ws + sign + x + digits|] == digits;
  }

  lemma HexHead(ws: string, sign: string, x: string, tail: string, base0: nat)
    requires Blanks(ws) && IsSign(sign) && (x == "0x" || x == "0X") && (base0 == 0 || base0 == 16)
    ensures var s := ws + sign + x + tail;
      EffectiveBase(s, base0) == 16 && DigitsStart(s, base0) == |ws + sign + x| && (Negative(s) <==> sign == "-")
  {
    hide AfterSign, Negative;
    var s := ws + sign + x + tail;
    assert s == ws + sign + (x + tail);
    HeadIs(ws, sign, x + tail);
    assert s[|ws + sign|] == '0' && s[|ws + sign| + 1] == x[1];
  }

  /** A bare prefix is no number, and the end is the start. */
  lemma BarePrefix(ws: string, sign: string, x: string, rest: string, base0: nat)
    requires Blanks(ws) && IsSign(sign) && (x == "0x" || x == "0X") && (base0 == 0 || base0 == 16) && EndsRun(rest, 16)
    ensures Meaning(ws + sign + x + rest, base0) == Parsed(0, 0)
  {
    hide Digit, Number, Negative, EffectiveBase, DigitsStart, RunEnd;
    HexHead(ws, sign, x, rest, base0);
    assert ws + sign + x + "" == ws + sign + x;
    RunIs(ws + sign + x, "", rest, 16, 0);
  }

  /** Nor are spaces and a sign without digits. */
  lemma NoDigits(ws: string, sign: string, rest: string, base0: nat, base: nat)
    requires Blanks(ws) && IsSign(sign) && Behind(sign, rest) && EndsRun(rest, base)
    requires if base0 == 0 then base == 10 else base == base0 && 2 <= base <= 36
    ensures Meaning(ws + sign + rest, base0) == Parsed(0, 0)
  {
    hide Number, AfterSign, Negative, RunEnd, Blank;
    HeadIs(ws, sign, rest);
    var s, from := ws + sign + rest, |ws + sign|;
    if rest != "" {
      assert s[from] == rest[0];
    }
    assert ws + sign + "" == ws + sign;
    RunIs(ws + sign, "", rest, base, 0);
  }

  /** Bases other than 0 and 2 to 36 are refused. */
  lemma Refused(s: string, base0: int)
    requires base0 < 0 || base0 == 1 || base0 > 36
    ensures Meaning(s, base0) == Parsed(0, 0)
  {
  }

  /** Decimal digits that do not start with a zero mean the same in base 0 and in base 10. */
  lemma DecimalMeaning(ws: string, sign: string, digits: string, rest: string)
    requires Blanks(ws) && IsSign(sign) && digits != "" && digits[0] != '0' && AllIn(digits, 10) && EndsRun(rest, 10)
    ensures Meaning(ws + sign + digits + rest, 0) == Meaning(ws + sign + digits + rest, 10)
    ensures Meaning(ws + sign + digits + rest, 0) == Parsed(Valued(Number(digits, 10), sign), |ws + sign + digits|)
  {
    hide Meaning, Number, Blank, Digit;
    TextMeaning(ws, sign, digits, rest, 0, 10);
    TextMeaning(ws, sign, digits, rest, 10, 10);
  }

  /** " -25x" in base 0, and 0x1F in base 16. */
  lemma Samples()
    ensures Meaning(" -25x", 0) == Parsed(0x1_0000_0000_0000_0000 - 25, 4)
    ensures Meaning("0x1F", 16) == Parsed(31, 4)
  {
    hide Meaning;
    assert " -25x" == " " + "-" + "25" + "x";
    NumberTwo('2', '5', 10);
    DecimalMeaning(" ", "-", "25", "x");
    assert "0x1F" == "" + "" + "0x" + "1F" + "";
    NumberTwo('1', 'F', 16);
    HexMeaning("", "", "0x", "1F", "", 16);
  }

  lemma NumberTwo(c: char, d: char, base: nat)
    ensures Number([c, d], base) == Digit(c) * base + Digit(d)
  {
    hide Digit;
    assert [c, d][..1] == [c];
    NumberOne(c, base);
  }
}

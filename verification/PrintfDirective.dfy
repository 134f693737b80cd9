/** What the parts of a directive say, and formats put together from others. */
module PrintfDirective {
  import opened Numbers
  import opened PrintfFormat
  import opened PrintfOverrun
  import opened PrintfText
  import opened Strtoull
  import opened StrtoullFacts
  import opened Wrappers

  // Flags

  /** r is was, with the flags set whose characters are in s. */
  predicate FlagsOf(r: Flags, was: Flags, s: string) {
    && r.zeropad == (was.zeropad || '0' in s) && r.left == (was.left || '-' in s) && r.plus == (was.plus || '+' in s)
    && r.space == (was.space || ' ' in s) && r.hash == (was.hash || '#' in s)
    && r == was.(zeropad := r.zeropad, left := r.left, plus := r.plus, space := r.space, hash := r.hash)
  }

  lemma FlagFirst(r: Flags, was: Flags, c: char, s: string, next: Flags)
    requires FlagsOf(next, was, [c]) && FlagsOf(r, next, s)
    ensures FlagsOf(r, was, [c] + s)
  {
    assert forall x :: x in [c] + s <==> x == c || x in s;
  }

  /** Each flag character sets its own flag, wherever it stands. */
  lemma {:induction false} FlagsExact(f: string, i: nat, flags: Flags)
    requires i <= |f|
    ensures FlagsOf(ReadFlags(f, i, flags).0, flags, f[i..ReadFlags(f, i, flags).1])
    decreases |f| - i
  {
    if i < |f| && IsFlag(f[i]) {
      var c := f[i];
      var next := FlagNext(f, i, flags);
      FlagsExact(f, i + 1, next);
      var (r, j) := ReadFlags(f, i, flags);
      hide FlagsOf;
      FlagFirst(r, flags, c, f[i + 1..j], next);
      assert f[i..j] == [c] + f[i + 1..j];
    } else {
      assert f[i..i] == "";
    }
  }

  function WithFlag(flags: Flags, c: char): Flags {
    if c == '0' then flags.(zeropad := true) else if c == '-' then flags.(left := true)
    else if c == '+' then flags.(plus := true) else if c == ' ' then flags.(space := true)
    else flags.(hash := true)
  }

  lemma FlagSet(flags: Flags, c: char)
    requires IsFlag(c)
    ensures FlagsOf(WithFlag(flags, c), flags, [c])
  {
    hide FlagsOf;
    ZeroSet(flags);
    MinusSet(flags);
    PlusSet(flags);
    SpaceSet(flags);
    HashSet(flags);
  }

  lemma ZeroSet(f: Flags)
    ensures FlagsOf(f.(zeropad := true), f, ['0'])
  {
  }

  lemma MinusSet(f: Flags)
    ensures FlagsOf(f.(left := true), f, ['-'])
  {
  }

  lemma PlusSet(f: Flags)
    ensures FlagsOf(f.(plus := true), f, ['+'])
  {
  }

  lemma SpaceSet(f: Flags)
    ensures FlagsOf(f.(space := true), f, [' '])
  {
  }

  lemma HashSet(f: Flags)
    ensures FlagsOf(f.(hash := true), f, ['#'])
  {
  }

  lemma FlagNext(f: string, i: nat, flags: Flags) returns (next: Flags)
    requires i < |f| && IsFlag(f[i])
    ensures FlagsOf(next, flags, [f[i]]) && ReadFlags(f, i, flags) == ReadFlags(f, i + 1, next)
  {
    hide FlagsOf;
    next := WithFlag(flags, f[i]);
    FlagSet(flags, f[i]);
  }

  // Numbers

  lemma ModuloStep(x: nat, p: nat, n: nat, m: nat)
    requires m > 0
    ensures (x % m * p + n) % m == (x * p + n) % m
  {
    var q := x / m;
    assert x == m * q + x % m;
    assert x * p == m * (q * p) + x % m * p;
    Multiple(x % m * p + n, q * p, m);
  }

  lemma ReadStep(f: string, i: nat, acc: nat)
    requires i < |f| && IsDigit(f[i])
    ensures ReadNumber(f, i, acc) == ReadNumber(f, i + 1, (acc * 10 + Digit(f[i])) % 0x1_0000_0000)
  {
  }

  /** Digits worth n behind a number acc that p weighs, modulo 2^32 */
  function Weighed(acc: nat, p: nat, n: nat): nat {
    (acc * p + n) % 0x1_0000_0000
  }

  lemma WeighedStep(acc: nat, d: nat, p: nat, n: nat)
    ensures Weighed((acc * 10 + d) % 0x1_0000_0000, p, n) == Weighed(acc, p * 10, d * p + n)
  {
    ModuloStep(acc * 10 + d, p, n, 0x1_0000_0000);
    Spreads(acc, d, p);
  }

  lemma {:induction false} NumberWeighed(f: string, i: nat, acc: nat)
    requires i <= |f| && acc < 0x1_0000_0000
    ensures var (n, j) := ReadNumber(f, i, acc); n == Weighed(acc, Power(10, j - i), Number(f[i..j], 10))
    decreases |f| - i
  {
    hide Number, Digit, Weighed;
    if i < |f| && IsDigit(f[i]) {
      hide ReadNumber, IsDigit;
      var d := Digit(f[i]);
      ReadStep(f, i, acc);
      NumberWeighed(f, i + 1, (acc * 10 + d) % 0x1_0000_0000);
      var j := ReadNumber(f, i, acc).1;
      assert f[i..j] == [f[i]] + f[i + 1..j];
      NumberJoin([f[i]], f[i + 1..j], 10);
      NumberOne(f[i], 10);
      WeighedStep(acc, d, Power(10, j - i - 1), Number(f[i + 1..j], 10));
    } else {
      assert f[i..i] == "";
      NoNumber();
      WeighedNone(acc);
    }
  }

  lemma WeighedNone(acc: nat)
    requires acc < 0x1_0000_0000
    ensures Weighed(acc, 1, 0) == acc
  {
  }

  /** A run of digits is read as the number it denotes, modulo 2^32. */
  lemma NumberRead(f: string, i: nat, acc: nat)
    requires i <= |f| && acc < 0x1_0000_0000
    ensures var (n, j) := ReadNumber(f, i, acc);
      n == (acc * Power(10, j - i) + Number(f[i..j], 10)) % 0x1_0000_0000
  {
    hide ReadNumber, Number, Power;
    NumberWeighed(f, i, acc);
  }

  lemma NoNumber()
    ensures Number("", 10) == 0
  {
  }

  lemma Spreads(a: nat, d: nat, p: nat)
    ensures (a * 10 + d) * p == a * (p * 10) + d * p
  {
    assert (a * 10 + d) * p == a * 10 * p + d * p;
    assert a * 10 * p == a * (p * 10);
  }

  // The whole directive

  /** A character that ends the directive */
  predicate IsSpecifier(c: char) {
    !IsFlag(c) && !IsDigit(c) && c != '*' && c != '.' && c !in {'l', 'h', 't', 'j', 'z'}
  }

  /** The int that an argument is for a star */
  function StarValue(bits: int): int {
    var u := bits % 0x1_0000_0000;
    if u < 0x8000_0000 then u else u - 0x1_0000_0000
  }

  /** The parts of a directive, with an integer argument for every star. */
  predicate IsSpec(flags: string, width: string, precision: string, length: string, args: seq<Arg>) {
    && AllFlags(flags) && IsWidth(width) && IsPrecision(precision) && IsLength(length)
    && var n := Stars(width, precision);
       n <= |args| && forall a :: 0 <= a < n ==> args[a].Num?
  }

  /** The width asked for; negative to the left. */
  function WidthOf(width: string, args: seq<Arg>): int
    requires width == "*" ==> args != [] && args[0].Num?
  {
    if width == "*" then StarValue(args[0].bits) else Number(width, 10) % 0x1_0000_0000
  }

  /** The precision asked for, and zero if there is none or it is negative. */
  function PrecisionOf(precision: string, args: seq<Arg>): nat
    requires precision == ".*" ==> args != [] && args[0].Num?
  {
    if precision == "" then 0
    else if precision == ".*" then Max(StarValue(args[0].bits), 0)
    else Number(precision[1..], 10) % 0x1_0000_0000
  }

  function AfterWidth(width: string, args: seq<Arg>): seq<Arg> {
    if width == "*" && args != [] then args[1..] else args
  }

  /** What the parts say */
  function Said(flags: string, width: string, precision: string, length: string, at: nat, args: seq<Arg>): Directive
    requires IsSpec(flags, width, precision, length, args)
  {
    var w := WidthOf(width, args);
    var behind := AfterWidth(width, args);
    Directive(
      Flags('0' in flags, '-' in flags || w < 0, '+' in flags, ' ' in flags, '#' in flags, false,
            length == "hh", length == "h" || length == "hh",
            length in {"l", "ll", "t", "j", "z"}, length == "ll", precision != ""),
      if w < 0 then -w else w,
      PrecisionOf(precision, behind),
      at,
      args[Stars(width, precision)..])
  }

  lemma WidthSaid(b: string, i: nat, j: nat, d: Directive)
    requires d.at == i <= j <= |b| && IsWidth(b[i..j])
    requires j < |b| ==> !IsDigit(b[j]) && (i == j ==> b[j] != '*')
    requires b[i..j] == "*" ==> d.args != [] && d.args[0].Num?
    ensures var w := WidthOf(b[i..j], d.args);
      ReadWidth(b, d) == Some(
        if i == j then d
        else d.(flags := if w < 0 then d.flags.(left := true) else d.flags,
                width := if w < 0 then -w else w, at := j, args := AfterWidth(b[i..j], d.args)))
  {
    hide ReadNumber, Number, AllDigits;
    if b[i..j] == "*" {
      assert b[i] == b[i..j][0];
    } else {
      NumberStop(b, i, j);
      NumberRead(b, i, 0);
      if i < j {
        assert b[i] == b[i..j][0];
        FirstDigit(b[i..j]);
      }
    }
  }

  lemma FirstDigit(s: string)
    requires s != "" && AllDigits(s)
    ensures IsDigit(s[0])
  {
    assert s[0] in s;
  }

  lemma PrecisionSaid(b: string, j: nat, k: nat, d: Directive)
    requires d.at == j <= k <= |b| && IsPrecision(b[j..k])
    requires k < |b| ==> !IsDigit(b[k]) && b[k] != '*' && b[k] != '.'
    requires b[j..k] == ".*" ==> d.args != [] && d.args[0].Num?
    ensures ReadPrecision(b, d) == Some(
      if j == k then d
      else d.(flags := d.flags.(precision := true), prec := if b[j..k] == "." then d.prec else PrecisionOf(b[j..k], d.args),
              at := k, args := if b[j..k] == ".*" then d.args[1..] else d.args))
  {
    hide ReadNumber, Number, AllDigits;
    if j < k {
      assert b[j] == b[j..k][0];
      assert b[j..k][1..] == b[j + 1..k];
      if b[j + 1..k] == "*" {
        assert b[j + 1] == b[j + 1..k][0];
        assert b[j..k] == ".*";
      } else {
        NumberStop(b, j + 1, k);
        NumberRead(b, j + 1, 0);
        if j + 1 < k {
          assert b[j + 1] == b[j + 1..k][0];
          FirstDigit(b[j + 1..k]);
          assert b[j..k] != ".*";
        } else {
          assert b[j..k] == ".";
        }
      }
    }
  }

  lemma LengthSaid(b: string, k: nat, e: nat, d: Directive)
    requires d.at == k <= e < |b| && IsLength(b[k..e]) && IsSpecifier(b[e])
    ensures var l := b[k..e];
      ReadLength(b, d) == d.(
        flags := d.flags.(asChar := d.flags.asChar || l == "hh", asShort := d.flags.asShort || l == "h" || l == "hh",
                          asLong := d.flags.asLong || l in {"l", "ll", "t", "j", "z"},
                          longLong := d.flags.longLong || l == "ll"),
        at := e)
  {
    var l := b[k..e];
    if |l| == 1 {
      assert l[0] == b[k];
    } else if |l| == 2 {
      assert l[0] == b[k] && l[1] == b[k + 1];
    }
  }

  /** The parts in a text, one behind the other */
  lemma Parts(flags: string, width: string, precision: string, length: string, c: char, rest: string)
    ensures var b := flags + width + precision + length + [c] + rest;
      var i := |flags|;
      var j := i + |width|;
      var k := j + |precision|;
      var e := k + |length|;
      && e < |b| && b[..i] == flags && b[i..j] == width && b[j..k] == precision && b[k..e] == length && b[e] == c
  {
  }

  /** What stands where a part ends */
  lemma NextParts(flags: string, width: string, precision: string, length: string, c: char, rest: string)
    requires IsWidth(width) && IsPrecision(precision) && IsLength(length) && IsSpecifier(c)
    ensures var b := flags + width + precision + length + [c] + rest;
      var i := |flags|;
      var j := i + |width|;
      var k := j + |precision|;
      && i < |b| && j < |b| && k < |b| && !IsFlag(b[i])
      && !IsDigit(b[j]) && b[j] != '*' && !IsDigit(b[k]) && b[k] != '*' && b[k] != '.'
  {
    hide IsFlag, IsDigit, IsLength, AllDigits;
    var b := flags + width + precision + length + [c] + rest;
    var i := |flags|;
    var j := i + |width|;
    var k := j + |precision|;
    LengthHead(length);
    assert b[k] == (length + [c])[0];
    assert b[j] == (precision + length + [c])[0];
    assert b[i] == (width + precision + length + [c])[0];
    Points();
    if width != "" && width != "*" {
      FirstDigit(width);
      DigitNoFlag(width[0]);
    }
  }

  lemma LengthHead(length: string)
    requires IsLength(length)
    ensures length != "" ==> length[0] in {'l', 'h', 't', 'j', 'z'}
  {
  }

  lemma Points()
    ensures !IsFlag('*') && !IsFlag('.') && !IsDigit('*') && !IsDigit('.')
    ensures forall c :: c in {'l', 'h', 't', 'j', 'z'} ==> !IsFlag(c) && !IsDigit(c)
  {
  }

  lemma DigitNoFlag(c: char)
    requires IsDigit(c) && c != '0'
    ensures !IsFlag(c)
  {
  }

  lemma FlagsSaid(flags: string, f: Flags)
    requires FlagsOf(f, NO_FLAGS, flags)
    ensures f == Flags('0' in flags, '-' in flags, '+' in flags, ' ' in flags, '#' in flags,
                       false, false, false, false, false, false)
  {
  }

  /** What flags and width say */
  function FrontOf(flags: string, width: string, at: nat, args: seq<Arg>): Directive
    requires width == "*" ==> args != [] && args[0].Num?
  {
    var w := WidthOf(width, args);
    Directive(
      Flags('0' in flags, '-' in flags || w < 0, '+' in flags, ' ' in flags, '#' in flags,
            false, false, false, false, false, false),
      if w < 0 then -w else w, 0, at, AfterWidth(width, args))
  }

  lemma FrontSaid(b: string, i: nat, j: nat, args: seq<Arg>)
    requires i <= j < |b| && AllFlags(b[..i]) && IsWidth(b[i..j])
    requires !IsFlag(b[i]) && !IsDigit(b[j]) && (i == j ==> b[j] != '*')
    requires b[i..j] == "*" ==> args != [] && args[0].Num?
    ensures var (f, k) := ReadFlags(b, 0, NO_FLAGS);
      k == i && ReadWidth(b, Directive(f, 0, 0, i, args)) == Some(FrontOf(b[..i], b[i..j], j, args))
  {
    hide IsFlag, IsDigit, AllFlags, IsWidth, ReadFlags, ReadWidth, FlagsOf, WidthOf;
    FlagsStop(b, i, NO_FLAGS);
    FlagsExact(b, 0, NO_FLAGS);
    assert b[0..i] == b[..i];
    var d := Directive(ReadFlags(b, 0, NO_FLAGS).0, 0, 0, i, args);
    FlagsSaid(b[..i], d.flags);
    WidthSaid(b, i, j, d);
    WidthNone(args);
  }

  lemma BackSaid(b: string, j: nat, k: nat, e: nat, d: Directive)
    requires d.at == j <= k <= e < |b| && IsPrecision(b[j..k]) && IsLength(b[k..e]) && IsSpecifier(b[e])
    requires !IsDigit(b[k]) && b[k] != '*' && b[k] != '.' && d.prec == 0
    requires b[j..k] == ".*" ==> d.args != [] && d.args[0].Num?
    requires !d.flags.precision && !d.flags.asChar && !d.flags.asShort && !d.flags.asLong && !d.flags.longLong
    ensures var p, l, r := b[j..k], b[k..e], ReadPrecision(b, d);
      r.Some? && ReadLength(b, r.value) == Directive(
        d.flags.(asChar := l == "hh", asShort := l == "h" || l == "hh", asLong := l in {"l", "ll", "t", "j", "z"},
                 longLong := l == "ll", precision := p != ""),
        d.width, PrecisionOf(p, d.args), e, if p == ".*" then d.args[1..] else d.args)
  {
    hide IsDigit, IsPrecision, IsLength, IsSpecifier, ReadPrecision, ReadLength, PrecisionOf;
    PrecisionSaid(b, j, k, d);
    PrecisionNone(d.args);
    LengthSaid(b, k, e, ReadPrecision(b, d).value);
  }

  lemma SaidParts(flags: string, width: string, precision: string, length: string, at: nat, args: seq<Arg>, j: nat)
    requires IsSpec(flags, width, precision, length, args)
    ensures var d := FrontOf(flags, width, j, args);
      && (precision == ".*" ==> d.args != [] && d.args[0].Num?)
      && Said(flags, width, precision, length, at, args) == Directive(
        d.flags.(asChar := length == "hh", asShort := length == "h" || length == "hh",
                 asLong := length in {"l", "ll", "t", "j", "z"}, longLong := length == "ll", precision := precision != ""),
        d.width, PrecisionOf(precision, d.args), at, if precision == ".*" then d.args[1..] else d.args)
  {
    hide IsWidth, IsPrecision, IsLength, AllFlags, WidthOf, PrecisionOf;
  }

  /** Behind the percent sign */
  lemma SaidBehind(flags: string, width: string, precision: string, length: string, c: char, rest: string, args: seq<Arg>)
    requires IsSpec(flags, width, precision, length, args) && IsSpecifier(c)
    ensures ReadDirective(flags + width + precision + length + [c] + rest, 0, args)
      == Some(Said(flags, width, precision, length, |flags + width + precision + length|, args))
  {
    hide ReadFlags, ReadWidth, ReadPrecision, ReadLength, IsWidth, IsPrecision, IsLength, AllFlags, IsFlag, IsDigit;
    hide IsSpecifier, Number, WidthOf, PrecisionOf, Said, FlagsOf;
    var b := flags + width + precision + length + [c] + rest;
    Parts(flags, width, precision, length, c, rest);
    NextParts(flags, width, precision, length, c, rest);
    var i := |flags|;
    var j := i + |width|;
    var k := j + |precision|;
    var e := k + |length|;
    FrontSaid(b, i, j, args);
    SaidParts(flags, width, precision, length, e, args, j);
    BackSaid(b, j, k, e, FrontOf(flags, width, j, args));
  }

  lemma WidthNone(args: seq<Arg>)
    ensures WidthOf("", args) == 0
  {
  }

  lemma PrecisionNone(args: seq<Arg>)
    ensures PrecisionOf("", args) == 0 && PrecisionOf(".", args) == 0
  {
    assert "."[1..] == "";
  }

  function Directed(flags: string, width: string, precision: string, length: string, c: char): string {
    "%" + flags + width + precision + length + [c]
  }

  /** The code reads from a directive what its parts say. */
  lemma SaidExact(flags: string, width: string, precision: string, length: string, c: char, rest: string, args: seq<Arg>)
    requires IsSpec(flags, width, precision, length, args) && IsSpecifier(c)
    ensures ReadDirective(Directed(flags, width, precision, length, c) + rest, 1, args)
      == Some(Said(flags, width, precision, length, 1 + |flags + width + precision + length|, args))
  {
    hide ReadDirective, Said;
    var f := Directed(flags, width, precision, length, c) + rest;
    var b := flags + width + precision + length + [c] + rest;
    assert f[1..] == b;
    SaidBehind(flags, width, precision, length, c, rest, args);
    DirectiveShift(f, 1, args);
    SaidMoved(flags, width, precision, length, args);
  }

  lemma SaidMoved(flags: string, width: string, precision: string, length: string, args: seq<Arg>)
    requires IsSpec(flags, width, precision, length, args)
    ensures var n := |flags + width + precision + length|;
      Moved(Said(flags, width, precision, length, n, args), 1) == Said(flags, width, precision, length, 1 + n, args)
  {
  }

  /** A format that is one directive */
  lemma Printed(flags: string, width: string, precision: string, length: string, c: char, args: seq<Arg>)
    requires IsSpec(flags, width, precision, length, args) && IsSpecifier(c)
    requires Convertible(c, args[Stars(width, precision)..])
    ensures var f := Directed(flags, width, precision, length, c);
      var d := Said(flags, width, precision, length, |f| - 1, args);
      && Render(f, 0, args) == Some(ConvertText(c, d))
      && Stops(f, 0, args) == Some((|f|, ArgsAfter(c, d.args)))
  {
    hide ReadDirective, Convertible, ConvertText, ArgsAfter, IsSpec, IsSpecifier;
    var f := Directed(flags, width, precision, length, c);
    assert f + "" == f;
    SaidExact(flags, width, precision, length, c, "", args);
    var d := Said(flags, width, precision, length, |f| - 1, args);
    assert CharAt(f, |f| - 1) == c;
    assert Turn(f, 0, args) == Some((|f|, ArgsAfter(c, d.args)));
    assert TurnText(f, 0, args) == ConvertText(c, d);
    assert Render(f, |f|, ArgsAfter(c, d.args)) == Some("");
    assert ConvertText(c, d) + "" == ConvertText(c, d);
  }

  // Formats put together

  lemma DirectiveShifted(f: string, k: nat, i: nat, args: seq<Arg>)
    requires k + i <= |f|
    ensures ReadDirective(f, k + i, args) == MovedBy(ReadDirective(f[k..], i, args), k)
  {
    hide ReadDirective;
    DirectiveShift(f, k + i, args);
    DirectiveShift(f[k..], i, args);
    assert f[k..][i..] == f[k + i..];
  }

  lemma TurnShifted(f: string, k: nat, i: nat, args: seq<Arg>)
    requires k + i < |f|
    ensures var t := Turn(f[k..], i, args);
      && Turn(f, k + i, args) == (if t.None? then None else Some((k + t.value.0, t.value.1)))
      && (t.Some? ==> TurnText(f, k + i, args) == TurnText(f[k..], i, args))
  {
    hide ReadDirective, Convertible, ConvertText, ArgsAfter;
    assert f[k..][i] == f[k + i];
    if f[k + i] == '%' {
      DirectiveShifted(f, k, i + 1, args);
      var r := ReadDirective(f[k..], i + 1, args);
      if r.Some? {
        CharShift(f, k, r.value.at);
        MovedTo(CharAt(f[k..], r.value.at), r.value, k);
      }
    }
  }

  /** Where a directive ends does not matter for what it prints. */
  lemma MovedTo(c: char, d: Directive, k: nat)
    ensures Convertible(c, d.args) ==> ConvertText(c, Moved(d, k)) == ConvertText(c, d)
  {
    hide IntegerText, CharText, StringText, PointerText;
  }

  lemma {:induction false} RenderShifted(f: string, k: nat, i: nat, args: seq<Arg>)
    requires k + i <= |f|
    ensures Render(f, k + i, args) == Render(f[k..], i, args)
    decreases |f| - i
  {
    hide Turn, TurnText;
    if k + i < |f| {
      TurnShifted(f, k, i, args);
      var t := Turn(f[k..], i, args);
      if t.Some? && t.value.0 <= |f[k..]| {
        RenderShifted(f, k, t.value.0, t.value.1);
      }
    }
  }

  lemma TextIn(f: string, k: nat, i: nat, args: seq<Arg>)
    requires i < k <= |f| && PrintfOverrun.Within(Turn(f[..k], i, args), k)
    ensures Turn(f, i, args) == Turn(f[..k], i, args) && TurnText(f, i, args) == TurnText(f[..k], i, args)
  {
    hide ReadDirective, Convertible, ConvertText;
    DirectiveIn(f, k, i + 1, args);
    TurnIn(f, k, i, args);
    var r := ReadDirective(f[..k], i + 1, args);
    if f[i] == '%' && r.Some? {
      CharIn(f, k, r.value.at);
    }
  }

  lemma {:induction false} RenderFront(f: string, k: nat, i: nat, args: seq<Arg>)
    requires i <= k <= |f| && Stops(f[..k], i, args).Some? && Stops(f[..k], i, args).value.0 == k
    ensures Render(f[..k], i, args).Some?
    ensures Render(f, i, args) == Prepend(Render(f[..k], i, args).value, Render(f, k, Stops(f[..k], i, args).value.1))
    decreases k - i
  {
    hide Turn, TurnText;
    if i < k {
      var (j, rest) := Turn(f[..k], i, args).value;
      StopsBehind(f[..k], j, rest);
      TextIn(f, k, i, args);
      RenderFront(f, k, j, rest);
      Prepends(TurnText(f, i, args), Render(f[..k], j, rest).value, Render(f, k, Stops(f[..k], i, args).value.1));
    } else {
      Prepends("", "", Render(f, k, args));
    }
  }

  lemma Prepends(s: string, t: string, r: Option<string>)
    ensures Prepend(s, Prepend(t, r)) == Prepend(s + t, r)
    ensures Prepend("", r) == r
  {
    if r.Some? {
      assert s + (t + r.value) == s + t + r.value;
      assert "" + r.value == r.value;
    }
  }

  /** One format behind another prints one text behind the other, with the arguments that are left. */
  lemma RenderJoin(f: string, g: string, args: seq<Arg>)
    requires Stops(f, 0, args).Some? && Stops(f, 0, args).value.0 == |f|
    ensures Render(f, 0, args).Some?
    ensures Render(f + g, 0, args) == Prepend(Render(f, 0, args).value, Render(g, 0, Stops(f, 0, args).value.1))
  {
    hide Turn, TurnText;
    var h := f + g;
    assert h[..|f|] == f && h[|f|..] == g;
    RenderFront(h, |f|, 0, args);
    RenderShifted(h, |f|, 0, Stops(f, 0, args).value.1);
  }

  /** Text without a percent sign is printed as it is. */
  lemma {:induction false} PlainPrinted(f: string, i: nat, args: seq<Arg>)
    requires i <= |f| && '%' !in f
    ensures Render(f, i, args) == Some(f[i..])
    decreases |f| - i
  {
    hide ReadDirective;
    if i < |f| {
      assert f[i] in f;
      assert Turn(f, i, args) == Some((i + 1, args)) && TurnText(f, i, args) == [f[i]];
      PlainPrinted(f, i + 1, args);
      assert f[i..] == [f[i]] + f[i + 1..];
    } else {
      assert f[i..] == "";
    }
  }
}

/**
What each part of the formatter prints, as text. Float conversions are not part of this model; an
undefined conversion has no text.
 */
module PrintfText {
  import opened Numbers

  const NTOA_BUFFER_SIZE := 32
  const UINT: int := 0x1_0000_0000

  datatype Flags = Flags(
    zeropad: bool, left: bool, plus: bool, space: bool, hash: bool, upper: bool,
    asChar: bool, asShort: bool, asLong: bool, longLong: bool, precision: bool)

  const NO_FLAGS := Flags(false, false, false, false, false, false, false, false, false, false, false)

  /** Bits of an integer argument, or a string; strings are without their terminator. */
  datatype Arg = Num(bits: int) | Str(s: string)

  function Repeat(c: char, n: int): (r: string)
    ensures |r| == Max(n, 0)
    ensures forall i :: 0 <= i < |r| ==> r[i] == c
  {
    if n <= 0 then [] else [c] + Repeat(c, n - 1)
  }

  function Reverse(s: string): (r: string)
    ensures |r| == |s|
  {
    if s == [] then [] else Reverse(s[1..]) + [s[0]]
  }

  function DigitChar(d: nat, upper: bool): char
    requires d < 36
  {
    if d < 10 then (d + '0' as int) as char
    else ((if upper then 'A' as int else 'a' as int) + d - 10) as char
  }

  /** The digits of value, least significant first, and no more than room of them. */
  function Digits(value: nat, base: nat, upper: bool, room: nat): (r: string)
    requires 2 <= base <= 36 && room > 0
    ensures 0 < |r| <= room
    decreases room
  {
    [DigitChar(value % base, upper)]
    + if value / base != 0 && room > 1 then Digits(value / base, base, upper, room - 1) else []
  }

  // _ntoa_format, on the reversed text in the scratch buffer

  function PadZeros(buf: string, len: nat): (r: string)
    ensures |buf| <= NTOA_BUFFER_SIZE ==> |r| <= NTOA_BUFFER_SIZE
  {
    buf + Repeat('0', Min(len, NTOA_BUFFER_SIZE) - |buf|)
  }

  function Push(buf: string, c: char): (r: string)
    ensures |buf| <= NTOA_BUFFER_SIZE ==> |r| <= NTOA_BUFFER_SIZE
  {
    if |buf| < NTOA_BUFFER_SIZE then buf + [c] else buf
  }

  /** The width that is left for digits when a sign takes one of its places. */
  function NarrowWidth(negative: bool, width: nat, flags: Flags): nat {
    if !flags.left && width > 0 && flags.zeropad && (negative || flags.plus || flags.space) then width - 1 else width
  }

  function Padded(digits: string, negative: bool, prec: nat, width: nat, flags: Flags): (r: string)
    ensures |digits| <= NTOA_BUFFER_SIZE ==> |r| <= NTOA_BUFFER_SIZE
  {
    if flags.left then digits
    else
      var d := PadZeros(digits, prec);
      if flags.zeropad then PadZeros(d, NarrowWidth(negative, width, flags)) else d
  }

  /** How many places at the end the prefix reclaims. */
  function Reclaimed(len: nat, base: nat, prec: nat, width: nat, flags: Flags): (n: nat)
    ensures n <= len
  {
    if !flags.precision && len > 0 && (len == prec || len == width)
    then (if len > 1 && base == 16 then 2 else 1)
    else 0
  }

  function Prefixed(buf: string, base: nat, prec: nat, width: nat, flags: Flags): (r: string)
    ensures |buf| <= NTOA_BUFFER_SIZE ==> |r| <= NTOA_BUFFER_SIZE
  {
    if !flags.hash then buf
    else
      var b := buf[..|buf| - Reclaimed(|buf|, base, prec, width, flags)];
      var b' := if base == 16 then Push(b, if flags.upper then 'X' else 'x')
                else if base == 2 then Push(b, 'b')
                else b;
      Push(b', '0')
  }

  function Signed(buf: string, negative: bool, flags: Flags): (r: string)
    ensures |buf| <= NTOA_BUFFER_SIZE ==> |r| <= NTOA_BUFFER_SIZE
  {
    if negative then Push(buf, '-')
    else if flags.plus then Push(buf, '+')
    else if flags.space then Push(buf, ' ')
    else buf
  }

  /** The scratch buffer in the end */
  function Scratch(digits: string, negative: bool, base: nat, prec: nat, width: nat, flags: Flags): (r: string)
    ensures |digits| <= NTOA_BUFFER_SIZE ==> |r| <= NTOA_BUFFER_SIZE
  {
    var w := NarrowWidth(negative, width, flags);
    Signed(Prefixed(Padded(digits, negative, prec, width, flags), base, prec, w, flags), negative, flags)
  }

  /** _out_rev */
  function RevText(buf: string, width: nat, flags: Flags): string {
    (if !flags.left && !flags.zeropad then Repeat(' ', width - |buf|) else [])
    + Reverse(buf)
    + (if flags.left then Repeat(' ', width - |buf|) else [])
  }

  function NtoaFormat(digits: string, negative: bool, base: nat, prec: nat, width: nat, flags: Flags): string {
    RevText(Scratch(digits, negative, base, prec, width, flags), NarrowWidth(negative, width, flags), flags)
  }

  /** _ntoa_long and _ntoa_long_long, which do the same on 64 bits */
  function Ntoa(value: nat, negative: bool, base: nat, prec: nat, width: nat, flags: Flags): string
    requires 2 <= base <= 36
  {
    var f := if value == 0 then flags.(hash := false) else flags;
    var digits := if !flags.precision || value != 0 then Digits(value, base, flags.upper, NTOA_BUFFER_SIZE) else [];
    NtoaFormat(digits, negative, base, prec, width, f)
  }

  // Conversions

  function Modulus(flags: Flags): (m: int)
    ensures m > 0
  {
    if flags.longLong || flags.asLong then 0x1_0000_0000_0000_0000
    else if flags.asChar then 0x100
    else if flags.asShort then 0x1_0000
    else 0x1_0000_0000
  }

  predicate IsInteger(c: char) {
    c in {'d', 'i', 'u', 'x', 'X', 'o', 'b'}
  }

  predicate IsFloat(c: char) {
    c in {'f', 'F', 'e', 'E', 'g', 'G'}
  }

  function BaseOf(c: char): (b: nat)
    ensures b in {2, 8, 10, 16}
  {
    if c == 'x' || c == 'X' then 16 else if c == 'o' then 8 else if c == 'b' then 2 else 10
  }

  /** The flags that count for an integer conversion */
  function IntegerFlags(c: char, f: Flags): Flags {
    var f1 := if BaseOf(c) == 10 then f.(hash := false) else f;
    var f2 := if c == 'X' then f1.(upper := true) else f1;
    var f3 := if c != 'i' && c != 'd' then f2.(plus := false, space := false) else f2;
    if f3.precision then f3.(zeropad := false) else f3
  }

  function IntegerText(c: char, bits: int, prec: nat, width: nat, flags: Flags): string {
    var f := IntegerFlags(c, flags);
    if c == 'd' || c == 'i' then
      var v := ToSigned(bits, Modulus(f));
      Ntoa(if v > 0 then v else -v, v < 0, BaseOf(c), prec, width, f)
    else
      Ntoa(bits % Modulus(f), false, BaseOf(c), prec, width, f)
  }

  function CharText(c: char, width: nat, flags: Flags): string {
    (if flags.left then [] else Repeat(' ', width - 1)) + [c] + (if flags.left then Repeat(' ', width - 1) else [])
  }

  function StringText(s: string, prec: nat, width: nat, flags: Flags): string {
    var body := if flags.precision then s[..Min(|s|, prec)] else s;
    (if flags.left then [] else Repeat(' ', width - |body|)) + body + (if flags.left then Repeat(' ', width - |body|) else [])
  }

  function PointerText(bits: int, prec: nat, flags: Flags): string {
    Ntoa(bits % 0x1_0000_0000_0000_0000, false, 16, prec, 16, flags.(zeropad := true, upper := true))
  }
}

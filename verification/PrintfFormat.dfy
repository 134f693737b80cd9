/** What a format prints: the directives of _vsnprintf, read one by one. */
module PrintfFormat {
  import opened Bytes
  import opened Numbers
  import opened PrintfText
  import opened Strtoull
  import opened Wrappers

  /** The character at i, or the terminator. */
  function CharAt(f: string, i: nat): char {
    if i < |f| then f[i] else NUL
  }

  /** %[flags][width][.precision][length]: what is known of it, where it ends, and the arguments left. */
  datatype Directive = Directive(flags: Flags, width: nat, prec: nat, at: nat, args: seq<Arg>)

  function ReadFlags(f: string, i: nat, flags: Flags): (r: (Flags, nat))
    requires i <= |f|
    ensures i <= r.1 <= |f|
    decreases |f| - i
  {
    var c := CharAt(f, i);
    if i == |f| then (flags, i)
    else if c == '0' then ReadFlags(f, i + 1, flags.(zeropad := true))
    else if c == '-' then ReadFlags(f, i + 1, flags.(left := true))
    else if c == '+' then ReadFlags(f, i + 1, flags.(plus := true))
    else if c == ' ' then ReadFlags(f, i + 1, flags.(space := true))
    else if c == '#' then ReadFlags(f, i + 1, flags.(hash := true))
    else (flags, i)
  }

  /** _atoi, on 32-bit unsigned arithmetic */
  function ReadNumber(f: string, i: nat, acc: nat): (r: (nat, nat))
    requires i <= |f|
    ensures i <= r.1 <= |f|
    decreases |f| - i
  {
    if i < |f| && IsDigit(f[i]) then ReadNumber(f, i + 1, (acc * 10 + (f[i] as int - '0' as int)) % UINT) else (acc, i)
  }

  function TakeInt(args: seq<Arg>): Option<int> {
    if args != [] && args[0].Num? then Some(args[0].bits) else None
  }

  function ReadWidth(f: string, d: Directive): (r: Option<Directive>)
    requires d.at <= |f|
    ensures r.Some? ==> d.at <= r.value.at <= |f|
  {
    var c := CharAt(f, d.at);
    if IsDigit(c) then
      var (w, i) := ReadNumber(f, d.at, 0);
      Some(d.(width := w, at := i))
    else if c == '*' then
      match TakeInt(d.args)
      case None => None
      case Some(bits) =>
        var w := ToSigned(bits, UINT);
        Some(d.(flags := if w < 0 then d.flags.(left := true) else d.flags,
                width := if w < 0 then -w else w, at := d.at + 1, args := d.args[1..]))
    else Some(d)
  }

  function ReadPrecision(f: string, d: Directive): (r: Option<Directive>)
    requires d.at <= |f|
    ensures r.Some? ==> d.at <= r.value.at <= |f|
    ensures r.Some? && d.prec == 0 && !r.value.flags.precision ==> r.value.prec == 0
  {
    if CharAt(f, d.at) != '.' then Some(d)
    else
      var d1 := d.(flags := d.flags.(precision := true), at := d.at + 1);
      var c := CharAt(f, d1.at);
      if IsDigit(c) then
        var (p, i) := ReadNumber(f, d1.at, 0);
        Some(d1.(prec := p, at := i))
      else if c == '*' then
        match TakeInt(d1.args)
        case None => None
        case Some(bits) =>
          var p := ToSigned(bits, UINT);
          Some(d1.(prec := if p > 0 then p else 0, at := d1.at + 1, args := d1.args[1..]))
      else Some(d1)
  }

  /** On the target, long, ptrdiff_t, intmax_t and size_t all have 64 bits. */
  function TakeLength(c: char, twice: bool, d: Directive): (r: Directive)
    ensures r.at == d.at + LengthSize(c, twice) && r.flags.precision == d.flags.precision && r.prec == d.prec
  {
    if c == 'l' then
      if twice then d.(flags := d.flags.(asLong := true, longLong := true), at := d.at + 2)
      else d.(flags := d.flags.(asLong := true), at := d.at + 1)
    else if c == 'h' then
      if twice then d.(flags := d.flags.(asShort := true, asChar := true), at := d.at + 2)
      else d.(flags := d.flags.(asShort := true), at := d.at + 1)
    else if c == 't' || c == 'j' || c == 'z' then d.(flags := d.flags.(asLong := true), at := d.at + 1)
    else d
  }

  function LengthSize(c: char, twice: bool): nat {
    if c == 'l' || c == 'h' then (if twice then 2 else 1) else if c == 't' || c == 'j' || c == 'z' then 1 else 0
  }

  function ReadLength(f: string, d: Directive): (r: Directive)
    requires d.at <= |f|
    ensures d.at <= r.at <= |f| && r.flags.precision == d.flags.precision && r.prec == d.prec
  {
    var c := CharAt(f, d.at);
    TakeLength(c, CharAt(f, d.at + 1) == c, d)
  }

  function ReadDirective(f: string, i: nat, args: seq<Arg>): (r: Option<Directive>)
    requires i <= |f|
    ensures r.Some? ==> i <= r.value.at <= |f| && |r.value.args| <= |args|
    ensures r.Some? && !r.value.flags.precision ==> r.value.prec == 0
    ensures r.Some? ==> forall a :: a in r.value.args ==> a in args
  {
    var (flags, j) := ReadFlags(f, i, NO_FLAGS);
    match ReadWidth(f, Directive(flags, 0, 0, j, args))
    case None => None
    case Some(d) =>
      match ReadPrecision(f, d)
      case None => None
      case Some(d1) => Some(ReadLength(f, d1))
  }

  /** The argument, if it is of the kind that c converts. */
  predicate Convertible(c: char, args: seq<Arg>) {
    if IsInteger(c) || c == 'c' || c == 'p' then args != [] && args[0].Num?
    else if c == 's' then args != [] && args[0].Str? && Ended(args[0].s, NUL)
    else !IsFloat(c)
  }

  predicate TakesArg(c: char) {
    IsInteger(c) || c in {'c', 'p', 's'}
  }

  function ConvertText(c: char, d: Directive): string
    requires Convertible(c, d.args)
  {
    if IsInteger(c) then IntegerText(c, d.args[0].bits, d.prec, d.width, d.flags)
    else if c == 'c' then CharText((d.args[0].bits % 256) as char, d.width, d.flags)
    else if c == 's' then StringText(Until(d.args[0].s, NUL), d.prec, d.width, d.flags)
    else if c == 'p' then PointerText(d.args[0].bits, d.prec, d.flags)
    else [c]
  }

  function ArgsAfter(c: char, args: seq<Arg>): seq<Arg> {
    if TakesArg(c) && args != [] then args[1..] else args
  }

  /**
  One turn of the loop, at i: where it reads on, and the arguments left. None where C leaves it undefined: an
  argument missing or of the wrong kind. A directive that the end of the format cuts off is a turn, too: it
  takes the terminator for its conversion, and the loop reads on behind it.
   */
  function Turn(f: string, i: nat, args: seq<Arg>): (r: Option<(nat, seq<Arg>)>)
    requires i < |f|
    ensures r.Some? ==> i < r.value.0 <= |f| + 1 && forall a :: a in r.value.1 ==> a in args
  {
    if f[i] != '%' then Some((i + 1, args))
    else
      match ReadDirective(f, i + 1, args)
      case None => None
      case Some(d) =>
        var c := CharAt(f, d.at);
        if Convertible(c, d.args) then Some((d.at + 1, ArgsAfter(c, d.args))) else None
  }

  /** What is printed in that turn */
  function TurnText(f: string, i: nat, args: seq<Arg>): string
    requires i < |f| && Turn(f, i, args).Some?
  {
    if f[i] != '%' then [f[i]]
    else
      var d := ReadDirective(f, i + 1, args).value;
      ConvertText(CharAt(f, d.at), d)
  }

  /** All that the format prints from i on. None where a turn is undefined, or reads on behind the terminator. */
  function Render(f: string, i: nat, args: seq<Arg>): Option<string>
    requires i <= |f|
    decreases |f| - i
  {
    if i == |f| then Some("")
    else
      match Turn(f, i, args)
      case None => None
      case Some((j, rest)) => if j > |f| then None else Prepend(TurnText(f, i, args), Render(f, j, rest))
  }

  function Prepend(s: string, r: Option<string>): Option<string> {
    match r
    case None => None
    case Some(t) => Some(s + t)
  }

  /** What vsnprintf leaves in a buffer that held was, for a count of maxlen. */
  function Truncated(was: string, text: string, maxlen: nat): string
    requires maxlen <= |was|
  {
    if maxlen == 0 then was
    else
      var n := Min(|text|, maxlen - 1);
      text[..n] + [NUL] + was[n + 1..]
  }

  /** Read back as a string, the buffer holds the longest prefix of the text that fits the count; the rest is as it was. */
  lemma TruncatedReads(was: string, text: string, maxlen: nat)
    requires maxlen <= |was| && NUL !in text
    ensures maxlen > 0 ==> Until(Truncated(was, text, maxlen), NUL) == text[..Min(|text|, maxlen - 1)]
    ensures |Truncated(was, text, maxlen)| == |was|
    ensures forall k :: maxlen <= k < |was| ==> Truncated(was, text, maxlen)[k] == was[k]
  {
    hide Until;
    if maxlen > 0 {
      var n := Min(|text|, maxlen - 1);
      var t := Truncated(was, text, maxlen);
      assert t[..n] == text[..n] && t[n] == NUL;
      UntilIs(t, NUL, text[..n]);
    }
  }
}

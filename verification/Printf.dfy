/** The formatter: one pass over the format, one index into the buffer. */
module Printf {
  import opened Bytes
  import opened Numbers
  import opened PrintfFormat
  import opened PrintfText
  import opened Strtoull
  import opened Wrappers

  /** now is was with the first characters of text written over it, as far as maxlen allows. */
  ghost predicate Shows(was: string, now: string, text: string, maxlen: nat) {
    && |now| == |was| && maxlen <= |was|
    && now == text[..Min(|text|, maxlen)] + was[Min(|text|, maxlen)..]
  }

  lemma ShowsMore(was: string, now: string, text: string, maxlen: nat, c: char)
    requires Shows(was, now, text, maxlen)
    ensures Shows(was, if |text| < maxlen then now[|text| := c] else now, text + [c], maxlen)
  {
    if |text| < maxlen {
      assert (text + [c])[..|text| + 1] == text + [c];
      assert was[|text|..] == [was[|text|]] + was[|text| + 1..];
    } else {
      assert (text + [c])[..maxlen] == text[..maxlen];
    }
  }

  lemma ShowsTerminated(was: string, now: string, text: string, maxlen: nat)
    requires Shows(was, now, text, maxlen) && maxlen > 0
    ensures now[(if |text| < maxlen then |text| else maxlen - 1) := NUL] == Truncated(was, text, maxlen)
  {
    var n := if |text| < maxlen then |text| else maxlen - 1;
    assert now[..n] == text[..n];
    assert now[n + 1..] == was[n + 1..];
  }

  lemma RepeatMore(c: char, n: nat)
    ensures Repeat(c, n) + [c] == Repeat(c, n + 1)
  {
  }

  lemma ReverseMore(s: string, i: nat)
    requires i < |s|
    ensures Reverse(s[i + 1..]) + [s[i]] == Reverse(s[i..])
  {
    assert s[i..][1..] == s[i + 1..];
  }

  class Printer {
    const buffer: array<char>
    const maxlen: nat

    ghost predicate Valid() {
      maxlen <= buffer.Length
    }

    constructor (buffer: array<char>, maxlen: nat)
      ensures this.buffer == buffer && this.maxlen == maxlen
    {
      this.buffer := buffer;
      this.maxlen := maxlen;
    }

    /** _out_buffer */
    method Out(c: char, idx: nat, ghost was: string, ghost done: string) returns (next: nat)
      requires Valid() && Shows(was, buffer[..], done, maxlen) && idx == |done|
      modifies buffer
      ensures Shows(was, buffer[..], done + [c], maxlen) && next == |done + [c]|
    {
      hide Shows;
      ShowsMore(was, buffer[..], done, maxlen, c);
      if idx < maxlen {
        buffer[idx] := c;
      }
      next := idx + 1;
    }

    /** count times the character c: the padding loops */
    method Pad(c: char, count: int, idx: nat, ghost was: string, ghost done: string) returns (next: nat)
      requires Valid() && Shows(was, buffer[..], done, maxlen) && idx == |done|
      modifies buffer
      ensures Shows(was, buffer[..], done + Repeat(c, count), maxlen) && next == |done + Repeat(c, count)|
    {
      hide Shows;
      next := idx;
      var i := 0;
      assert done + Repeat(c, 0) == done;
      while i < count
        invariant 0 <= i && (i <= count || i == 0)
        invariant Shows(was, buffer[..], done + Repeat(c, i), maxlen) && next == |done + Repeat(c, i)|
      {
        next := Out(c, next, was, done + Repeat(c, i));
        RepeatMore(c, i);
        assert done + Repeat(c, i) + [c] == done + Repeat(c, i + 1);
        i := i + 1;
      }
    }

    /** _out_rev */
    method OutRev(buf: array<char>, len0: nat, width: nat, flags: Flags, idx: nat, ghost was: string, ghost done: string)
      returns (next: nat)
      requires Valid() && buf != buffer && len0 <= buf.Length
      requires Shows(was, buffer[..], done, maxlen) && idx == |done|
      modifies buffer
      ensures Shows(was, buffer[..], done + RevText(buf[..len0], width, flags), maxlen)
      ensures next == |done + RevText(buf[..len0], width, flags)|
    {
      hide Shows;
      next := idx;
      ghost var text := done;
      if !flags.left && !flags.zeropad {
        next := Pad(' ', width - len0, next, was, text);
        text := text + Repeat(' ', width - len0);
      }
      ghost var front := text;
      var len := len0;
      assert buf[..len0][len0..] == [];
      while len > 0
        invariant 0 <= len <= len0
        invariant text == front + Reverse(buf[..len0][len..])
        invariant Shows(was, buffer[..], text, maxlen) && next == |text|
      {
        len := len - 1;
        next := Out(buf[len], next, was, text);
        ReverseMore(buf[..len0], len);
        text := text + [buf[len]];
        assert text == front + (Reverse(buf[..len0][len + 1..]) + [buf[len]]);
      }
      assert buf[..len0][0..] == buf[..len0];
      if flags.left {
        next := Pad(' ', width - len0, next, was, text);
        text := text + Repeat(' ', width - len0);
      }
      assert text == done + RevText(buf[..len0], width, flags);
    }

    /** buf[len++] = c, where there is room */
    method PushChar(buf: array<char>, len: nat, c: char) returns (newLen: nat)
      requires buf.Length == NTOA_BUFFER_SIZE && len <= NTOA_BUFFER_SIZE
      modifies buf
      ensures newLen <= NTOA_BUFFER_SIZE && buf[..newLen] == Push(old(buf[..len]), c)
    {
      newLen := len;
      if len < NTOA_BUFFER_SIZE {
        buf[len] := c;
        newLen := len + 1;
      }
    }

    /** A loop of _ntoa_format that fills up with zeros */
    method FillZeros(buf: array<char>, len: nat, upTo: nat) returns (newLen: nat)
      requires buf.Length == NTOA_BUFFER_SIZE && len <= NTOA_BUFFER_SIZE
      modifies buf
      ensures newLen <= NTOA_BUFFER_SIZE && buf[..newLen] == PadZeros(old(buf[..len]), upTo)
    {
      newLen := len;
      assert old(buf[..len]) + Repeat('0', 0) == buf[..newLen];
      while newLen < upTo && newLen < NTOA_BUFFER_SIZE
        invariant len <= newLen <= NTOA_BUFFER_SIZE && newLen <= Max(len, Min(upTo, NTOA_BUFFER_SIZE))
        invariant buf[..newLen] == old(buf[..len]) + Repeat('0', newLen - len)
      {
        RepeatMore('0', newLen - len);
        buf[newLen] := '0';
        newLen := newLen + 1;
      }
    }

    /** The prefix of the # flag */
    method PushPrefix(buf: array<char>, len0: nat, base: nat, prec: nat, width: nat, flags: Flags) returns (len: nat)
      requires buf.Length == NTOA_BUFFER_SIZE && len0 <= NTOA_BUFFER_SIZE && flags.hash
      modifies buf
      ensures len <= NTOA_BUFFER_SIZE && buf[..len] == Prefixed(old(buf[..len0]), base, prec, width, flags)
    {
      len := len0;
      if !flags.precision && len > 0 && (len == prec || len == width) {
        len := len - 1;
        if len > 0 && base == 16 {
          len := len - 1;
        }
      }
      assert buf[..len] == buf[..len0][..len0 - Reclaimed(len0, base, prec, width, flags)];
      if base == 16 && !flags.upper && len < NTOA_BUFFER_SIZE {
        len := PushChar(buf, len, 'x');
      } else if base == 16 && flags.upper && len < NTOA_BUFFER_SIZE {
        len := PushChar(buf, len, 'X');
      } else if base == 2 && len < NTOA_BUFFER_SIZE {
        len := PushChar(buf, len, 'b');
      }
      len := PushChar(buf, len, '0');
    }

    /** _ntoa_format, on the scratch buffer with the digits in it */
    method FormatNumber(buf: array<char>, len0: nat, negative: bool, base: nat, prec: nat, width0: nat, flags: Flags,
                        idx: nat, ghost was: string, ghost done: string) returns (next: nat)
      requires Valid() && buf != buffer && buf.Length == NTOA_BUFFER_SIZE && len0 <= NTOA_BUFFER_SIZE
      requires Shows(was, buffer[..], done, maxlen) && idx == |done|
      modifies buf, buffer
      ensures var text := done + NtoaFormat(old(buf[..len0]), negative, base, prec, width0, flags);
        Shows(was, buffer[..], text, maxlen) && next == |text|
    {
      hide Shows, PadZeros, Prefixed, Push, RevText;
      var len, width := len0, width0;
      if !flags.left {
        if width > 0 && flags.zeropad && (negative || flags.plus || flags.space) {
          width := width - 1;
        }
        len := FillZeros(buf, len, prec);
        if flags.zeropad {
          len := FillZeros(buf, len, width);
        }
      }
      if flags.hash {
        len := PushPrefix(buf, len, base, prec, width, flags);
      } else {
        PrefixNone(buf[..len], base, prec, width, flags);
      }
      if negative {
        len := PushChar(buf, len, '-');
      } else if flags.plus {
        len := PushChar(buf, len, '+');
      } else if flags.space {
        len := PushChar(buf, len, ' ');
      }
      next := OutRev(buf, len, width, flags, idx, was, done);
    }

    /** The digit loop of _ntoa_long: least significant first, until the value or the buffer is used up */
    method WriteDigits(buf: array<char>, value0: nat, base: nat, upper: bool) returns (len: nat)
      requires buf.Length == NTOA_BUFFER_SIZE && 2 <= base <= 36
      modifies buf
      ensures len <= NTOA_BUFFER_SIZE && buf[..len] == Digits(value0, base, upper, NTOA_BUFFER_SIZE)
    {
      hide DigitChar, Digits;
      ghost var digits := Digits(value0, base, upper, NTOA_BUFFER_SIZE);
      len := 0;
      var value := value0;
      var more := true;
      assert digits == buf[..0] + digits;
      while more
        invariant 0 <= value && len <= NTOA_BUFFER_SIZE && (more ==> len < NTOA_BUFFER_SIZE)
        invariant more ==> digits == buf[..len] + Digits(value, base, upper, NTOA_BUFFER_SIZE - len)
        invariant !more ==> digits == buf[..len]
        decreases NTOA_BUFFER_SIZE - len, more
      {
        DigitsStep(value, base, upper, NTOA_BUFFER_SIZE - len);
        ghost var front := buf[..len];
        var c := DigitChar(value % base, upper);
        buf[len] := c;
        len := len + 1;
        assert buf[..len] == front + [c];
        value := value / base;
        more := value != 0 && len < NTOA_BUFFER_SIZE;
      }
    }

    /** _ntoa_long and _ntoa_long_long */
    method FormatInteger(value: nat, negative: bool, base: nat, prec: nat, width: nat, flags0: Flags,
                         idx: nat, ghost was: string, ghost done: string) returns (next: nat)
      requires Valid() && 2 <= base <= 36
      requires Shows(was, buffer[..], done, maxlen) && idx == |done|
      modifies buffer
      ensures var text := done + Ntoa(value, negative, base, prec, width, flags0);
        Shows(was, buffer[..], text, maxlen) && next == |text|
    {
      hide Shows, DigitChar, Digits, NtoaFormat;
      var buf := new char[NTOA_BUFFER_SIZE];
      var len, flags := 0, flags0;
      if value == 0 {
        flags := flags.(hash := false);
      }
      if !flags.precision || value != 0 {
        len := WriteDigits(buf, value, base, flags.upper);
      }
      next := FormatNumber(buf, len, negative, base, prec, width, flags, idx, was, done);
    }

    /** The c conversion */
    method FormatChar(c: char, width: nat, flags: Flags, idx: nat, ghost was: string, ghost done: string) returns (next: nat)
      requires Valid() && Shows(was, buffer[..], done, maxlen) && idx == |done|
      modifies buffer
      ensures var text := done + CharText(c, width, flags); Shows(was, buffer[..], text, maxlen) && next == |text|
    {
      hide Shows, Repeat;
      next := idx;
      ghost var text := done;
      if !flags.left {
        next := Pad(' ', width - 1, next, was, text);
        text := text + Repeat(' ', width - 1);
      }
      next := Out(c, next, was, text);
      text := text + [c];
      if flags.left {
        next := Pad(' ', width - 1, next, was, text);
        text := text + Repeat(' ', width - 1);
      }
      assert text == done + CharText(c, width, flags);
    }

    /** _strnlen_s */
    method StrnLen(s: string, maxsize: Option<nat>) returns (len: nat)
      requires Ended(s, NUL)
      ensures len == if maxsize.None? then |Until(s, NUL)| else Min(|Until(s, NUL)|, maxsize.value)
    {
      hide Until;
      UntilFacts(s, NUL);
      len := 0;
      var left := maxsize;
      while s[len] != NUL && (left.None? || left.value > 0)
        invariant len <= |Until(s, NUL)|
        invariant maxsize.None? ==> left.None?
        invariant maxsize.Some? ==> left.Some? && left.value == maxsize.value - len
        decreases |s| - len
      {
        if left.Some? {
          left := Some(left.value - 1);
        }
        len := len + 1;
      }
    }

    /** What of s is printed under a precision */
    ghost function Body(s: string, precision: nat, flags: Flags): string {
      if flags.precision then Until(s, NUL)[..Min(|Until(s, NUL)|, precision)] else Until(s, NUL)
    }

    /** The output loop of the s conversion */
    method EmitString(s: string, precision0: nat, flags: Flags, idx: nat, ghost was: string, ghost done: string)
      returns (next: nat)
      requires Valid() && Ended(s, NUL) && Shows(was, buffer[..], done, maxlen) && idx == |done|
      modifies buffer
      ensures var text := done + Body(s, precision0, flags); Shows(was, buffer[..], text, maxlen) && next == |text|
    {
      hide Shows, Until;
      UntilFacts(s, NUL);
      ghost var body := Body(s, precision0, flags);
      var precision, p := precision0, 0;
      next := idx;
      assert done + body[..0] == done;
      while s[p] != NUL && (!flags.precision || precision > 0)
        invariant 0 <= p <= |body|
        invariant flags.precision ==> precision == precision0 - p
        invariant Shows(was, buffer[..], done + body[..p], maxlen) && next == |done + body[..p]|
        decreases |s| - p
      {
        precision := if flags.precision then precision - 1 else precision;
        next := Out(s[p], next, was, done + body[..p]);
        assert done + body[..p] + [s[p]] == done + body[..p + 1];
        p := p + 1;
      }
      assert body[..p] == body;
    }

    /** The s conversion; the lengths of strings are unsigned int in the source */
    method FormatString(s: string, precision: nat, width: nat, flags: Flags, idx: nat, ghost was: string, ghost done: string)
      returns (next: nat)
      requires Valid() && Ended(s, NUL) && |s| < UINT && (!flags.precision ==> precision == 0)
      requires Shows(was, buffer[..], done, maxlen) && idx == |done|
      modifies buffer
      ensures var text := done + StringText(Until(s, NUL), precision, width, flags);
        Shows(was, buffer[..], text, maxlen) && next == |text|
    {
      hide Shows, Repeat, Until;
      var l := StrnLen(s, if precision > 0 then Some(precision) else None);
      if flags.precision {
        l := if l < precision then l else precision;
      }
      next := idx;
      ghost var text := done;
      if !flags.left {
        next := Pad(' ', width - l, next, was, text);
        text := text + Repeat(' ', width - l);
      }
      next := EmitString(s, precision, flags, next, was, text);
      text := text + Body(s, precision, flags);
      if flags.left {
        next := Pad(' ', width - l, next, was, text);
        text := text + Repeat(' ', width - l);
      }
      assert text == done + StringText(Until(s, NUL), precision, width, flags);
    }

    // The directive, read off the format.

    /** The switch loop over flags */
    method GetFlags(format: string, at0: nat) returns (flags: Flags, at: nat)
      requires Ended(format, NUL) && at0 <= |Until(format, NUL)|
      ensures (flags, at) == ReadFlags(Until(format, NUL), at0, NO_FLAGS)
    {
      hide Until;
      ghost var f := Until(format, NUL);
      UntilFacts(format, NUL);
      flags, at := NO_FLAGS, at0;
      var n := true;
      while n
        invariant at <= |f|
        invariant n ==> ReadFlags(f, at0, NO_FLAGS) == ReadFlags(f, at, flags)
        invariant !n ==> ReadFlags(f, at0, NO_FLAGS) == (flags, at)
        decreases |f| - at, n
      {
        match format[at]
        case '0' => flags := flags.(zeropad := true); at := at + 1;
        case '-' => flags := flags.(left := true); at := at + 1;
        case '+' => flags := flags.(plus := true); at := at + 1;
        case ' ' => flags := flags.(space := true); at := at + 1;
        case '#' => flags := flags.(hash := true); at := at + 1;
        case _ => n := false;
      }
    }

    /** _atoi */
    method Atoi(format: string, at0: nat) returns (i: nat, at: nat)
      requires Ended(format, NUL) && at0 <= |Until(format, NUL)|
      ensures (i, at) == ReadNumber(Until(format, NUL), at0, 0)
    {
      hide Until;
      ghost var f := Until(format, NUL);
      UntilFacts(format, NUL);
      i, at := 0, at0;
      while IsDigit(format[at])
        invariant at <= |f| && ReadNumber(f, at0, 0) == ReadNumber(f, at, i)
        decreases |f| - at
      {
        i := (i * 10 + (format[at] as int - '0' as int)) % UINT;
        at := at + 1;
      }
    }

    method GetWidth(format: string, d0: Directive) returns (d: Directive)
      requires Ended(format, NUL) && d0.at <= |Until(format, NUL)| && ReadWidth(Until(format, NUL), d0).Some?
      ensures Some(d) == ReadWidth(Until(format, NUL), d0)
    {
      hide Until, ReadNumber;
      CharIs(format, d0.at);
      d := d0;
      if IsDigit(format[d.at]) {
        var width, at := Atoi(format, d.at);
        d := d.(width := width, at := at);
      } else if format[d.at] == '*' {
        var w := ToSigned(d.args[0].bits, UINT);
        d := d.(args := d.args[1..], at := d.at + 1);
        if w < 0 {
          d := d.(flags := d.flags.(left := true), width := -w);
        } else {
          d := d.(width := w);
        }
      }
    }

    method GetPrecision(format: string, d0: Directive) returns (d: Directive)
      requires Ended(format, NUL) && d0.at <= |Until(format, NUL)| && ReadPrecision(Until(format, NUL), d0).Some?
      ensures Some(d) == ReadPrecision(Until(format, NUL), d0)
    {
      hide Until, ReadNumber;
      CharIs(format, d0.at);
      d := d0;
      if format[d.at] == '.' {
        CharIs(format, d0.at + 1);
        d := d.(flags := d.flags.(precision := true), at := d.at + 1);
        if IsDigit(format[d.at]) {
          var prec, at := Atoi(format, d.at);
          d := d.(prec := prec, at := at);
        } else if format[d.at] == '*' {
          var p := ToSigned(d.args[0].bits, UINT);
          d := d.(prec := if p > 0 then p else 0, args := d.args[1..], at := d.at + 1);
        }
      }
    }

    method ReadSpec(format: string, at0: nat, args0: seq<Arg>) returns (d: Directive)
      requires Ended(format, NUL) && at0 <= |Until(format, NUL)|
      requires ReadDirective(Until(format, NUL), at0, args0).Some?
      ensures Some(d) == ReadDirective(Until(format, NUL), at0, args0)
    {
      hide Until, ReadFlags, ReadWidth, ReadPrecision, ReadLength;
      var flags, at := GetFlags(format, at0);
      d := GetWidth(format, Directive(flags, 0, 0, at, args0));
      d := GetPrecision(format, d);
      d := GetLength(format, d);
    }

    method GetLength(format: string, d0: Directive) returns (d: Directive)
      requires Ended(format, NUL) && d0.at <= |Until(format, NUL)|
      ensures d == ReadLength(Until(format, NUL), d0)
    {
      hide Until, CharAt;
      CharIs(format, d0.at);
      d := d0;
      var c := format[d.at];
      if c == 'l' || c == 'h' {
        CharIs(format, d0.at + 1);
        d := d.(at := d.at + 1);
        var twice := format[d.at] == c;
        if c == 'l' {
          d := d.(flags := d.flags.(asLong := true, longLong := d.flags.longLong || twice));
        } else {
          d := d.(flags := d.flags.(asShort := true, asChar := d.flags.asChar || twice));
        }
        if twice {
          d := d.(at := d.at + 1);
        }
      } else if c == 't' || c == 'j' || c == 'z' {
        d := d.(flags := d.flags.(asLong := true), at := d.at + 1);
      }
    }

    method Convert(c: char, d: Directive, idx: nat, ghost was: string, ghost done: string) returns (next: nat)
      requires Valid() && Convertible(c, d.args) && (!d.flags.precision ==> d.prec == 0)
      requires c == 's' ==> |d.args[0].s| < UINT
      requires Shows(was, buffer[..], done, maxlen) && idx == |done|
      modifies buffer
      ensures var text := done + ConvertText(c, d); Shows(was, buffer[..], text, maxlen) && next == |text|
    {
      hide Shows, Ntoa, CharText, StringText, Until;
      if IsInteger(c) {
        var flags := IntegerFlags(c, d.flags);
        var bits := d.args[0].bits;
        if c == 'i' || c == 'd' {
          var value := ToSigned(bits, Modulus(flags));
          next := FormatInteger(if value > 0 then value else 0 - value, value < 0, BaseOf(c), d.prec, d.width, flags, idx, was, done);
        } else {
          next := FormatInteger(bits % Modulus(flags), false, BaseOf(c), d.prec, d.width, flags, idx, was, done);
        }
      } else if c == 'c' {
        next := FormatChar((d.args[0].bits % 256) as char, d.width, d.flags, idx, was, done);
      } else if c == 's' {
        next := FormatString(d.args[0].s, d.prec, d.width, d.flags, idx, was, done);
      } else if c == 'p' {
        next := FormatInteger(d.args[0].bits % 0x1_0000_0000_0000_0000, false, 16, d.prec, 16,
          d.flags.(zeropad := true, upper := true), idx, was, done);
      } else {
        next := Out(c, idx, was, done);
      }
    }

    /** One turn of the main loop: a plain character, or a directive and its conversion. */
    method EmitOne(format: string, at: nat, args: seq<Arg>, idx: nat, ghost was: string, ghost done: string)
      returns (at': nat, args': seq<Arg>, idx': nat)
      requires Valid() && Ended(format, NUL) && at < |Until(format, NUL)| && Turn(Until(format, NUL), at, args).Some?
      requires forall a :: a in args && a.Str? ==> |a.s| < UINT
      requires Shows(was, buffer[..], done, maxlen) && idx == |done|
      modifies buffer
      ensures Turn(Until(format, NUL), at, args) == Some((at', args'))
      ensures var text := done + TurnText(Until(format, NUL), at, args);
        Shows(was, buffer[..], text, maxlen) && idx' == |text|
    {
      hide Shows, Until, ConvertText, ReadDirective, Convertible;
      CharIs(format, at);
      if format[at] != '%' {
        idx' := Out(format[at], idx, was, done);
        at', args' := at + 1, args;
        return;
      }
      var d := ReadSpec(format, at + 1, args);
      CharIs(format, d.at);
      var c := format[d.at];
      if c == 's' {
        StringArg(c, d.args);
      }
      idx' := Convert(c, d, idx, was, done);
      at', args' := d.at + 1, ArgsAfter(c, d.args);
    }

    /** _vsnprintf with _out_buffer: for any count, the buffer and the full length */
    method Vsnprintf(format: string, args0: seq<Arg>) returns (ret: int)
      requires Valid() && Ended(format, NUL) && Render(Until(format, NUL), 0, args0).Some?
      requires forall a :: a in args0 && a.Str? ==> |a.s| < UINT
      modifies buffer
      ensures var text := Render(Until(format, NUL), 0, args0).value;
        buffer[..] == Truncated(old(buffer[..]), text, maxlen) && ret == ToSigned(|text|, UINT)
    {
      hide Shows, Until, Truncated, Render, Turn, TurnText;
      ghost var f, was := Until(format, NUL), buffer[..];
      ghost var full := Render(f, 0, args0).value;
      ghost var done := "";
      var at, args, idx := 0, args0, 0;
      NothingShown(was, maxlen);
      CharIs(format, 0);
      while format[at] != NUL
        invariant 0 <= at <= |f| < |format| && (format[at] == NUL <==> at == |f|)
        invariant forall a :: a in args && a.Str? ==> |a.s| < UINT
        invariant Render(f, at, args).Some? && full == done + Render(f, at, args).value
        invariant Shows(was, buffer[..], done, maxlen) && idx == |done|
        decreases |f| - at
      {
        RenderTurn(f, at, args);
        ghost var text := TurnText(f, at, args);
        at, args, idx := EmitOne(format, at, args, idx, was, done);
        done := done + text;
        CharIs(format, at);
      }
      RenderEnd(f, args);
      assert full == done + "" == done;
      if maxlen > 0 {
        ShowsTerminated(was, buffer[..], done, maxlen);
      } else {
        ShowsNothing(was, buffer[..], done);
      }
      var last := if idx < maxlen then idx else maxlen - 1;
      if 0 <= last < maxlen {
        buffer[last] := NUL;
      }
      ret := ToSigned(idx, UINT);
    }
  }

  lemma RenderEnd(f: string, args: seq<Arg>)
    ensures Render(f, |f|, args) == Some("")
  {
  }

  lemma RenderTurn(f: string, i: nat, args: seq<Arg>)
    requires i < |f| && Render(f, i, args).Some?
    ensures Turn(f, i, args).Some? && Turn(f, i, args).value.0 <= |f|
    ensures var (j, rest) := Turn(f, i, args).value;
      Render(f, j, rest).Some? && Render(f, i, args).value == TurnText(f, i, args) + Render(f, j, rest).value
  {
    hide Turn, TurnText;
  }

  lemma NothingShown(was: string, maxlen: nat)
    requires maxlen <= |was|
    ensures Shows(was, was, "", maxlen)
  {
  }

  /** The format with its terminator, seen from i */
  lemma CharIs(format: string, i: nat)
    requires Ended(format, NUL) && i <= |Until(format, NUL)|
    ensures i < |format| && CharAt(Until(format, NUL), i) == format[i]
    ensures i == |Until(format, NUL)| <==> format[i] == NUL
  {
    UntilFacts(format, NUL);
  }

  lemma StringArg(c: char, args: seq<Arg>)
    requires Convertible(c, args) && c == 's'
    ensures args != [] && args[0].Str? && args[0] in args
  {
  }

  lemma ShowsNothing(was: string, now: string, text: string)
    requires Shows(was, now, text, 0)
    ensures now == was && now == Truncated(was, text, 0)
  {
  }

  lemma DigitsStep(value: nat, base: nat, upper: bool, room: nat)
    requires 2 <= base <= 36 && room > 0
    ensures Digits(value, base, upper, room) == [DigitChar(value % base, upper)]
      + if value / base != 0 && room > 1 then Digits(value / base, base, upper, room - 1) else []
  {
  }

  lemma PrefixNone(buf: string, base: nat, prec: nat, width: nat, flags: Flags)
    requires !flags.hash
    ensures Prefixed(buf, base, prec, width, flags) == buf
  {
  }
}

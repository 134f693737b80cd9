/** Exactly which formats make the loop of _vsnprintf read on behind their terminator. */
module PrintfOverrun {
  import opened Bytes
  import opened PrintfFormat
  import opened PrintfText
  import opened Strtoull
  import opened Wrappers

  /** Where the loop stops reading, and the arguments left; None where some turn is undefined. */
  function Stops(f: string, i: nat, args: seq<Arg>): Option<(nat, seq<Arg>)>
    decreases |f| + 1 - i
  {
    if i >= |f| then Some((i, args))
    else
      match Turn(f, i, args)
      case None => None
      case Some((j, rest)) => Stops(f, j, rest)
  }

  lemma {:induction false} StopsAtEnd(f: string, i: nat, args: seq<Arg>)
    requires i <= |f| + 1
    ensures Stops(f, i, args).Some? ==> |f| <= Stops(f, i, args).value.0 <= |f| + 1
    decreases |f| + 1 - i
  {
    hide Turn;
    if i < |f| && Turn(f, i, args).Some? {
      StopsAtEnd(f, Turn(f, i, args).value.0, Turn(f, i, args).value.1);
    }
  }

  /** A format has a defined output exactly when the loop stops at the terminator. */
  lemma {:induction false} RenderExact(f: string, i: nat, args: seq<Arg>)
    requires i <= |f|
    ensures Render(f, i, args).Some? <==> Stops(f, i, args).Some? && Stops(f, i, args).value.0 == |f|
    decreases |f| - i
  {
    hide Turn, TurnText;
    if i < |f| && Turn(f, i, args).Some? {
      var (j, rest) := Turn(f, i, args).value;
      if j <= |f| {
        RenderExact(f, j, rest);
      }
    }
  }

  // Directives that end in front of k are the same in the format and in its first k characters.

  /** A directive that ends in front of k */
  predicate Before(r: Option<Directive>, k: nat) {
    r.Some? && r.value.at < k
  }

  lemma {:induction false} FlagsIn(f: string, k: nat, i: nat, flags: Flags)
    requires i <= k <= |f|
    ensures ReadFlags(f, i, flags).1 < k || ReadFlags(f[..k], i, flags).1 < k ==>
      ReadFlags(f[..k], i, flags) == ReadFlags(f, i, flags)
    decreases k - i
  {
    if i < k {
      var c := f[i];
      if c == '0' {
        FlagsIn(f, k, i + 1, flags.(zeropad := true));
      } else if c == '-' {
        FlagsIn(f, k, i + 1, flags.(left := true));
      } else if c == '+' {
        FlagsIn(f, k, i + 1, flags.(plus := true));
      } else if c == ' ' {
        FlagsIn(f, k, i + 1, flags.(space := true));
      } else if c == '#' {
        FlagsIn(f, k, i + 1, flags.(hash := true));
      }
    }
  }

  lemma {:induction false} NumberIn(f: string, k: nat, i: nat, acc: nat)
    requires i <= k <= |f|
    ensures ReadNumber(f, i, acc).1 < k || ReadNumber(f[..k], i, acc).1 < k ==>
      ReadNumber(f[..k], i, acc) == ReadNumber(f, i, acc)
    decreases k - i
  {
    if i < k && IsDigit(f[i]) {
      NumberIn(f, k, i + 1, (acc * 10 + (f[i] as int - '0' as int)) % UINT);
    }
  }

  lemma WidthIn(f: string, k: nat, d: Directive)
    requires d.at <= k <= |f|
    ensures Before(ReadWidth(f, d), k) || Before(ReadWidth(f[..k], d), k) ==> ReadWidth(f[..k], d) == ReadWidth(f, d)
  {
    hide ReadNumber;
    NumberIn(f, k, d.at, 0);
  }

  lemma PrecisionIn(f: string, k: nat, d: Directive)
    requires d.at <= k <= |f|
    ensures Before(ReadPrecision(f, d), k) || Before(ReadPrecision(f[..k], d), k) ==>
      ReadPrecision(f[..k], d) == ReadPrecision(f, d)
  {
    hide ReadNumber;
    if d.at + 1 <= k {
      NumberIn(f, k, d.at + 1, 0);
    }
  }

  lemma CharIn(f: string, k: nat, i: nat)
    requires k <= |f|
    ensures CharAt(f[..k], i) == if i < k then CharAt(f, i) else NUL
  {
  }

  lemma LengthIn(f: string, k: nat, d: Directive)
    requires d.at <= k <= |f|
    ensures ReadLength(f, d).at < k || ReadLength(f[..k], d).at < k ==> ReadLength(f[..k], d) == ReadLength(f, d)
  {
    hide CharAt;
    CharIn(f, k, d.at);
    CharIn(f, k, d.at + 1);
  }

  lemma DirectiveIn(f: string, k: nat, i: nat, args: seq<Arg>)
    requires i <= k <= |f|
    ensures Before(ReadDirective(f, i, args), k) || Before(ReadDirective(f[..k], i, args), k) ==>
      ReadDirective(f[..k], i, args) == ReadDirective(f, i, args)
  {
    if Before(ReadDirective(f, i, args), k) {
      DirectiveInThere(f, k, i, args);
    }
    if Before(ReadDirective(f[..k], i, args), k) {
      DirectiveInHere(f, k, i, args);
    }
  }

  lemma DirectiveInThere(f: string, k: nat, i: nat, args: seq<Arg>)
    requires i <= k <= |f| && Before(ReadDirective(f, i, args), k)
    ensures ReadDirective(f[..k], i, args) == ReadDirective(f, i, args)
  {
    hide ReadFlags, ReadWidth, ReadPrecision, ReadLength;
    FlagsIn(f, k, i, NO_FLAGS);
    var (flags, j) := ReadFlags(f, i, NO_FLAGS);
    var d := Directive(flags, 0, 0, j, args);
    WidthIn(f, k, d);
    var d1 := ReadWidth(f, d).value;
    PrecisionIn(f, k, d1);
    LengthIn(f, k, ReadPrecision(f, d1).value);
  }

  lemma DirectiveInHere(f: string, k: nat, i: nat, args: seq<Arg>)
    requires i <= k <= |f| && Before(ReadDirective(f[..k], i, args), k)
    ensures ReadDirective(f[..k], i, args) == ReadDirective(f, i, args)
  {
    hide ReadFlags, ReadWidth, ReadPrecision, ReadLength;
    var g := f[..k];
    FlagsIn(f, k, i, NO_FLAGS);
    var (flags, j) := ReadFlags(g, i, NO_FLAGS);
    var d := Directive(flags, 0, 0, j, args);
    WidthIn(f, k, d);
    var d1 := ReadWidth(g, d).value;
    PrecisionIn(f, k, d1);
    LengthIn(f, k, ReadPrecision(g, d1).value);
  }

  /** A turn that ends at k or in front of it */
  predicate Within(t: Option<(nat, seq<Arg>)>, k: nat) {
    t.Some? && t.value.0 <= k
  }

  lemma TurnIn(f: string, k: nat, i: nat, args: seq<Arg>)
    requires i < k <= |f|
    ensures Within(Turn(f, i, args), k) || Within(Turn(f[..k], i, args), k) ==> Turn(f[..k], i, args) == Turn(f, i, args)
  {
    hide ReadDirective, Convertible;
    DirectiveIn(f, k, i + 1, args);
  }

  // A directive at the end, on its own.

  lemma {:induction false} FlagsShift(f: string, k: nat, i: nat, flags: Flags)
    requires k + i <= |f|
    ensures ReadFlags(f, k + i, flags) == (ReadFlags(f[k..], i, flags).0, k + ReadFlags(f[k..], i, flags).1)
    decreases |f| - i
  {
    if k + i < |f| {
      var c := f[k + i];
      assert f[k..][i] == c;
      if c == '0' {
        FlagsShift(f, k, i + 1, flags.(zeropad := true));
      } else if c == '-' {
        FlagsShift(f, k, i + 1, flags.(left := true));
      } else if c == '+' {
        FlagsShift(f, k, i + 1, flags.(plus := true));
      } else if c == ' ' {
        FlagsShift(f, k, i + 1, flags.(space := true));
      } else if c == '#' {
        FlagsShift(f, k, i + 1, flags.(hash := true));
      }
    }
  }

  lemma {:induction false} NumberShift(f: string, k: nat, i: nat, acc: nat)
    requires k + i <= |f|
    ensures ReadNumber(f, k + i, acc) == (ReadNumber(f[k..], i, acc).0, k + ReadNumber(f[k..], i, acc).1)
    decreases |f| - i
  {
    if k + i < |f| && IsDigit(f[k + i]) {
      assert f[k..][i] == f[k + i];
      NumberShift(f, k, i + 1, (acc * 10 + (f[k + i] as int - '0' as int)) % UINT);
    }
  }

  function Moved(d: Directive, k: nat): Directive {
    d.(at := k + d.at)
  }

  function MovedBy(r: Option<Directive>, k: nat): Option<Directive> {
    match r
    case None => None
    case Some(d) => Some(Moved(d, k))
  }

  lemma CharShift(f: string, k: nat, i: nat)
    requires k <= |f|
    ensures CharAt(f, k + i) == CharAt(f[k..], i)
  {
  }

  lemma WidthShift(f: string, k: nat, d: Directive)
    requires k + d.at <= |f|
    ensures ReadWidth(f, Moved(d, k)) == MovedBy(ReadWidth(f[k..], d), k)
  {
    hide ReadNumber, CharAt;
    CharShift(f, k, d.at);
    NumberShift(f, k, d.at, 0);
  }

  lemma PrecisionShift(f: string, k: nat, d: Directive)
    requires k + d.at <= |f|
    ensures ReadPrecision(f, Moved(d, k)) == MovedBy(ReadPrecision(f[k..], d), k)
  {
    hide ReadNumber;
    CharShift(f, k, d.at);
    CharShift(f, k, d.at + 1);
    if k + d.at + 1 <= |f| {
      NumberShift(f, k, d.at + 1, 0);
    }
  }

  lemma LengthShift(f: string, k: nat, d: Directive)
    requires k + d.at <= |f|
    ensures ReadLength(f, Moved(d, k)) == Moved(ReadLength(f[k..], d), k)
  {
    hide CharAt, TakeLength;
    LengthMoved(CharAt(f[k..], d.at), CharAt(f[k..], d.at + 1) == CharAt(f[k..], d.at), d, k);
    CharShift(f, k, d.at);
    CharShift(f, k, d.at + 1);
  }

  lemma LengthMoved(c: char, twice: bool, d: Directive, k: nat)
    ensures TakeLength(c, twice, Moved(d, k)) == Moved(TakeLength(c, twice, d), k)
  {
    if c == 'l' || c == 'h' {
      assert TakeLength(c, twice, d).at == d.at + (if twice then 2 else 1);
    }
  }

  lemma DirectiveShift(f: string, k: nat, args: seq<Arg>)
    requires k <= |f|
    ensures ReadDirective(f, k, args) == MovedBy(ReadDirective(f[k..], 0, args), k)
  {
    hide ReadFlags, ReadWidth, ReadPrecision, ReadLength;
    FlagsShift(f, k, 0, NO_FLAGS);
    var (flags, j) := ReadFlags(f[k..], 0, NO_FLAGS);
    var d := Directive(flags, 0, 0, j, args);
    WidthShift(f, k, d);
    if ReadWidth(f[k..], d).Some? {
      var d1 := ReadWidth(f[k..], d).value;
      PrecisionShift(f, k, d1);
      if ReadPrecision(f[k..], d1).Some? {
        LengthShift(f, k, ReadPrecision(f[k..], d1).value);
      }
    }
  }

  // The condition.

  predicate IsFlag(c: char) {
    c == '0' || c == '-' || c == '+' || c == ' ' || c == '#'
  }

  predicate AllFlags(s: string) {
    forall c :: c in s ==> IsFlag(c)
  }

  predicate AllDigits(s: string) {
    forall c :: c in s ==> IsDigit(c)
  }

  /** Nothing, a star, or digits; a zero in front would be a flag. */
  predicate IsWidth(s: string) {
    s == "*" || (AllDigits(s) && (s != "" ==> s[0] != '0'))
  }

  predicate IsPrecision(s: string) {
    s == "" || (s[0] == '.' && (s[1..] == "*" || AllDigits(s[1..])))
  }

  predicate IsLength(s: string) {
    s in {"", "l", "ll", "h", "hh", "t", "j", "z"}
  }

  function Stars(width: string, precision: string): nat {
    (if width == "*" then 1 else 0) + (if precision == ".*" then 1 else 0)
  }

  /** flags up to i, a width up to j, a precision up to k, and a length; each star has an integer argument. */
  predicate SplitAt(b: string, args: seq<Arg>, i: nat, j: nat, k: nat) {
    && i <= j <= k <= |b|
    && AllFlags(b[..i]) && IsWidth(b[i..j]) && IsPrecision(b[j..k]) && IsLength(b[k..])
    && var n := Stars(b[i..j], b[j..k]);
       n <= |args| && forall a :: 0 <= a < n ==> args[a].Num?
  }

  /** b is the beginning of a directive, without its specifier. */
  ghost predicate IsCutOff(b: string, args: seq<Arg>) {
    exists i: nat, j: nat, k: nat :: SplitAt(b, args, i, j, k)
  }

  /** The same, as the code reads it: to the end of b. */
  predicate ReadsOut(b: string, args: seq<Arg>) {
    var r := ReadDirective(b, 0, args);
    r.Some? && r.value.at == |b|
  }

  lemma {:induction false} FlagsEnd(f: string, i: nat, flags: Flags)
    requires i <= |f|
    ensures var j := ReadFlags(f, i, flags).1; AllFlags(f[i..j]) && (j < |f| ==> !IsFlag(f[j]))
    decreases |f| - i
  {
    if i < |f| && IsFlag(f[i]) {
      var c := f[i];
      var next := if c == '0' then flags.(zeropad := true) else if c == '-' then flags.(left := true)
                  else if c == '+' then flags.(plus := true) else if c == ' ' then flags.(space := true)
                  else flags.(hash := true);
      FlagsEnd(f, i + 1, next);
      var j := ReadFlags(f, i, flags).1;
      assert j == ReadFlags(f, i + 1, next).1;
      assert f[i..j] == [f[i]] + f[i + 1..j];
    }
  }

  /** The flags end at j, if there is none there. */
  lemma FlagsStop(f: string, j: nat, flags: Flags)
    requires j <= |f| && AllFlags(f[..j]) && (j < |f| ==> !IsFlag(f[j]))
    ensures ReadFlags(f, 0, flags).1 == j
  {
    FlagsEnd(f, 0, flags);
  }

  lemma {:induction false} NumberEnd(f: string, i: nat, acc: nat)
    requires i <= |f|
    ensures var j := ReadNumber(f, i, acc).1; AllDigits(f[i..j]) && (j < |f| ==> !IsDigit(f[j]))
    decreases |f| - i
  {
    if i < |f| && IsDigit(f[i]) {
      var next := (acc * 10 + (f[i] as int - '0' as int)) % UINT;
      NumberEnd(f, i + 1, next);
      var j := ReadNumber(f, i, acc).1;
      assert j == ReadNumber(f, i + 1, next).1;
      assert f[i..j] == [f[i]] + f[i + 1..j];
    }
  }

  lemma NumberStop(f: string, i: nat, j: nat)
    requires i <= j <= |f| && AllDigits(f[i..j]) && (j < |f| ==> !IsDigit(f[j]))
    ensures ReadNumber(f, i, 0).1 == j
  {
    NumberEnd(f, i, 0);
  }

  // What the code reads for a width, a precision and a length, by what is there.

  lemma WidthRead(f: string, d: Directive)
    requires d.at <= |f| && ReadWidth(f, d).Some? && (d.at < |f| ==> !IsFlag(f[d.at]))
    ensures var d1 := ReadWidth(f, d).value;
      && IsWidth(f[d.at..d1.at])
      && (f[d.at..d1.at] == "*" ==> d.args != [] && d.args[0].Num? && d1.args == d.args[1..])
      && (f[d.at..d1.at] != "*" ==> d1.args == d.args)
  {
    hide ReadNumber;
    NumberEnd(f, d.at, 0);
    var d1 := ReadWidth(f, d).value;
    if d.at < |f| && IsDigit(f[d.at]) {
      assert d1.at > d.at ==> f[d.at..d1.at][0] == f[d.at];
    } else if d.at < |f| && f[d.at] == '*' {
      assert f[d.at..d1.at] == "*";
    } else {
      assert f[d.at..d1.at] == "";
    }
  }

  lemma PrecisionRead(f: string, d: Directive)
    requires d.at <= |f| && ReadPrecision(f, d).Some?
    ensures var d1 := ReadPrecision(f, d).value;
      && IsPrecision(f[d.at..d1.at])
      && (f[d.at..d1.at] == ".*" ==> d.args != [] && d.args[0].Num? && d1.args == d.args[1..])
      && (f[d.at..d1.at] != ".*" ==> d1.args == d.args)
  {
    hide ReadNumber;
    var d1 := ReadPrecision(f, d).value;
    if d.at < |f| && f[d.at] == '.' {
      NumberEnd(f, d.at + 1, 0);
      assert f[d.at..d1.at] == ['.'] + f[d.at + 1..d1.at];
      if d.at + 1 < |f| && f[d.at + 1] == '*' {
        assert f[d.at + 1..d1.at] == "*";
      } else if d.at + 1 < |f| && IsDigit(f[d.at + 1]) {
        assert '*' !in f[d.at + 1..d1.at];
      } else {
        assert f[d.at + 1..d1.at] == "";
      }
    } else {
      assert f[d.at..d1.at] == "";
    }
  }

  lemma LengthRead(f: string, d: Directive)
    requires d.at <= |f|
    ensures ReadLength(f, d).at == |f| <==> IsLength(f[d.at..])
  {
    var s := f[d.at..];
    if |s| == 1 {
      assert s == [s[0]];
    } else if |s| == 2 {
      assert s == [s[0], s[1]];
    }
  }

  lemma CutOffWhenRead(b: string, args: seq<Arg>)
    requires ReadsOut(b, args)
    ensures IsCutOff(b, args)
  {
    hide ReadFlags, ReadWidth, ReadPrecision, ReadLength, IsWidth, IsPrecision, IsLength, AllFlags, IsFlag;
    FlagsEnd(b, 0, NO_FLAGS);
    var (flags, i) := ReadFlags(b, 0, NO_FLAGS);
    var d := Directive(flags, 0, 0, i, args);
    WidthRead(b, d);
    var d1 := ReadWidth(b, d).value;
    PrecisionRead(b, d1);
    var d2 := ReadPrecision(b, d1).value;
    LengthRead(b, d2);
    assert b[0..i] == b[..i];
    assert SplitAt(b, args, i, d1.at, d2.at);
  }

  /** The first character of a width, a precision or a length is no flag. */
  lemma NoFlagNext(b: string, args: seq<Arg>, i: nat, j: nat, k: nat)
    requires SplitAt(b, args, i, j, k)
    ensures i < |b| ==> !IsFlag(b[i])
    ensures j < |b| ==> b[j] == '.' || b[j] in {'l', 'h', 't', 'j', 'z'}
    ensures k < |b| ==> b[k] in {'l', 'h', 't', 'j', 'z'}
  {
    if k < |b| {
      assert b[k] == b[k..][0];
    }
    if j < k {
      assert b[j] == b[j..k][0];
    }
    if i < j {
      assert b[i] == b[i..j][0];
      assert b[i] in b[i..j];
    }
  }

  lemma WidthStop(b: string, i: nat, j: nat, d: Directive)
    requires d.at == i <= j <= |b| && IsWidth(b[i..j])
    requires j < |b| ==> b[j] == '.' || b[j] in {'l', 'h', 't', 'j', 'z'}
    requires b[i..j] == "*" ==> d.args != [] && d.args[0].Num?
    ensures ReadWidth(b, d).Some? && ReadWidth(b, d).value.at == j
    ensures ReadWidth(b, d).value.args == if b[i..j] == "*" then d.args[1..] else d.args
  {
    hide ReadNumber;
    if b[i..j] == "*" {
      assert b[i] == b[i..j][0];
    } else {
      NumberStop(b, i, j);
      if i < j {
        assert b[i] == b[i..j][0];
        assert b[i] in b[i..j];
      }
    }
  }

  lemma PrecisionStop(b: string, j: nat, k: nat, d: Directive)
    requires d.at == j <= k <= |b| && IsPrecision(b[j..k])
    requires k < |b| ==> b[k] in {'l', 'h', 't', 'j', 'z'}
    requires b[j..k] == ".*" ==> d.args != [] && d.args[0].Num?
    ensures ReadPrecision(b, d).Some? && ReadPrecision(b, d).value.at == k
  {
    hide ReadNumber;
    if j < k {
      assert b[j] == b[j..k][0];
      assert b[j..k][1..] == b[j + 1..k];
      if b[j + 1..k] == "*" {
        assert b[j + 1] == b[j + 1..k][0];
        assert b[j..k] == ".*";
      } else {
        NumberStop(b, j + 1, k);
        if j + 1 < k {
          assert b[j + 1] == b[j + 1..k][0];
          assert b[j + 1] in b[j + 1..k];
        }
      }
    }
  }

  lemma ReadWhenCutOff(b: string, args: seq<Arg>, i: nat, j: nat, k: nat)
    requires SplitAt(b, args, i, j, k)
    ensures ReadsOut(b, args)
  {
    hide ReadFlags, ReadWidth, ReadPrecision, ReadLength, IsWidth, IsPrecision, IsLength, AllFlags, IsFlag;
    NoFlagNext(b, args, i, j, k);
    FlagsStop(b, i, NO_FLAGS);
    var d := Directive(ReadFlags(b, 0, NO_FLAGS).0, 0, 0, i, args);
    WidthStop(b, i, j, d);
    var d1 := ReadWidth(b, d).value;
    PrecisionStop(b, j, k, d1);
    LengthRead(b, ReadPrecision(b, d1).value);
  }

  /** Reader and grammar agree. */
  lemma CutOffExact(b: string, args: seq<Arg>)
    ensures ReadsOut(b, args) <==> IsCutOff(b, args)
  {
    hide SplitAt, ReadsOut;
    if ReadsOut(b, args) {
      CutOffWhenRead(b, args);
    }
    if i: nat, j: nat, k: nat :| SplitAt(b, args, i, j, k) {
      ReadWhenCutOff(b, args, i, j, k);
    }
  }

  /** The format is complete and defined up to its percent sign at k, and cut off behind it. */
  ghost predicate CutOffAt(f: string, args: seq<Arg>, k: nat) {
    && k < |f| && f[k] == '%'
    && var r := Stops(f[..k], 0, args);
       r.Some? && r.value.0 == k && IsCutOff(f[k + 1..], r.value.1)
  }

  lemma CutOffTurn(f: string, k: nat, args: seq<Arg>)
    requires k < |f|
    ensures f[k] == '%' && IsCutOff(f[k + 1..], args) <==> Turn(f, k, args).Some? && Turn(f, k, args).value.0 == |f| + 1
  {
    hide ReadDirective, IsCutOff;
    CutOffExact(f[k + 1..], args);
    DirectiveShift(f, k + 1, args);
    if ReadDirective(f, k + 1, args).Some? {
      NulConverts(ReadDirective(f, k + 1, args).value.args);
    }
  }

  lemma NulConverts(args: seq<Arg>)
    ensures Convertible(NUL, args) && ArgsAfter(NUL, args) == args
  {
  }

  /** Where the last turn begins, if the loop reads on behind the terminator. */
  lemma {:induction false} LastTurn(f: string, i: nat, args: seq<Arg>) returns (k: nat)
    requires i < |f| && Stops(f, i, args).Some? && Stops(f, i, args).value.0 == |f| + 1
    ensures i <= k < |f| && f[k] == '%' && Stops(f[..k], i, args).Some? && Stops(f[..k], i, args).value.0 == k
    ensures IsCutOff(f[k + 1..], Stops(f[..k], i, args).value.1)
    decreases |f| - i
  {
    hide Turn, IsCutOff;
    var (j, rest) := Turn(f, i, args).value;
    if j > |f| {
      k := i;
      CutOffTurn(f, k, args);
    } else {
      k := LastTurn(f, j, rest);
      TurnIn(f, k, i, args);
    }
  }

  lemma {:induction false} ReadsThrough(f: string, k: nat, i: nat, args: seq<Arg>)
    requires i <= k <= |f| && Stops(f[..k], i, args).Some? && Stops(f[..k], i, args).value.0 == k
    ensures Stops(f, i, args) == Stops(f, k, Stops(f[..k], i, args).value.1)
    decreases k - i
  {
    hide Turn;
    if i < k {
      var (j, rest) := Turn(f[..k], i, args).value;
      StopsBehind(f[..k], j, rest);
      TurnIn(f, k, i, args);
      ReadsThrough(f, k, j, rest);
    }
  }

  lemma {:induction false} StopsBehind(f: string, i: nat, args: seq<Arg>)
    ensures Stops(f, i, args).Some? ==> Stops(f, i, args).value.0 >= i
    decreases |f| + 1 - i
  {
    hide Turn;
    if i < |f| && Turn(f, i, args).Some? {
      StopsBehind(f, Turn(f, i, args).value.0, Turn(f, i, args).value.1);
    }
  }

  /**
  The loop reads on behind the terminator exactly when the format ends in a directive that is cut off,
  behind a part that is complete and defined.
   */
  lemma OverrunExact(f: string, args: seq<Arg>)
    ensures Stops(f, 0, args).Some? && Stops(f, 0, args).value.0 > |f| <==> exists k: nat :: CutOffAt(f, args, k)
  {
    hide Turn, IsCutOff;
    if Stops(f, 0, args).Some? && Stops(f, 0, args).value.0 > |f| {
      StopsAtEnd(f, 0, args);
      var k := LastTurn(f, 0, args);
      assert CutOffAt(f, args, k);
    }
    if k: nat :| CutOffAt(f, args, k) {
      ReadsThrough(f, k, 0, args);
      CutOffTurn(f, k, Stops(f[..k], 0, args).value.1);
    }
  }

  /** So for every format without a percent sign that is given one at its end. */
  lemma LonePercent(f: string, args: seq<Arg>)
    requires '%' !in f
    ensures Stops(f + "%", 0, args) == Some((|f| + 2, args)) && Render(f + "%", 0, args) == None
  {
    hide Turn;
    var g := f + "%";
    assert g[..|f|] == f && g[|f|] == '%' && g[|f| + 1..] == "";
    PlainStops(f, 0, args);
    ReadsThrough(g, |f|, 0, args);
    LastPercent(g, args);
    RenderExact(g, 0, args);
  }

  lemma LastPercent(g: string, args: seq<Arg>)
    requires g != [] && g[|g| - 1] == '%'
    ensures Turn(g, |g| - 1, args) == Some((|g| + 1, args))
  {
    NulConverts(args);
  }

  lemma {:induction false} PlainStops(f: string, i: nat, args: seq<Arg>)
    requires i <= |f| && '%' !in f
    ensures Stops(f, i, args) == Some((|f|, args))
    decreases |f| - i
  {
    if i < |f| {
      PlainStops(f, i + 1, args);
    }
  }
}

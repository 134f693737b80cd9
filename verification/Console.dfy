/** _putchar: the line buffer under printf. */
module Console {
  const CAPACITY := 0x100

  class LineBuffer {
    const buf: array<char>
    var chrcnt: nat
    /** What write has been given, call by call */
    var written: seq<string>

    ghost predicate Valid()
      reads this, buf
    {
      buf.Length == CAPACITY && chrcnt < CAPACITY && '\n' !in buf[..chrcnt] && forall w :: w in written ==> LineOrFull(w)
    }

    /** Everything that has been put, in order */
    ghost function Put(): string
      requires Valid()
      reads this, buf
    {
      Join(written) + buf[..chrcnt]
    }

    constructor ()
      ensures Valid() && fresh(buf) && Put() == "" && written == []
    {
      buf := new char[CAPACITY];
      chrcnt := 0;
      written := [];
    }

    /** Nothing is lost or reordered, and at most one line less than a full buffer waits. */
    method Putchar(character: char)
      requires Valid()
      modifies this`chrcnt, this`written, buf
      ensures Valid() && Put() == old(Put()) + [character]
      ensures written == old(written) ||
        (written == old(written) + [old(buf[..chrcnt]) + [character]] && chrcnt == 0)
      ensures character == '\n' ==> chrcnt == 0
    {
      buf[chrcnt] := character;
      chrcnt := chrcnt + 1;
      assert buf[..chrcnt] == old(buf[..chrcnt]) + [character];
      if character == '\n' || chrcnt == CAPACITY {
        JoinMore(written, buf[..chrcnt]);
        written := written + [buf[..chrcnt]];
        chrcnt := 0;
      }
    }
  }

  /** One write: a line, or a full buffer of 256 characters without one */
  predicate LineOrFull(w: string) {
    0 < |w| <= 256 && '\n' !in w[..|w| - 1] && (w[|w| - 1] == '\n' || |w| == 256)
  }

  function Join(ws: seq<string>): string {
    if ws == [] then "" else Join(ws[..|ws| - 1]) + ws[|ws| - 1]
  }

  lemma JoinMore(ws: seq<string>, w: string)
    ensures Join(ws + [w]) == Join(ws) + w
  {
    assert (ws + [w])[..|ws|] == ws;
  }

  function Lines(s: string): nat {
    if s == "" then 0 else Lines(s[..|s| - 1]) + if s[|s| - 1] == '\n' then 1 else 0
  }

  lemma {:induction false} NoLine(s: string)
    requires '\n' !in s
    ensures Lines(s) == 0
  {
    if s != "" {
      NoLine(s[..|s| - 1]);
    }
  }

  lemma {:induction false} LinesAdd(s: string, t: string)
    ensures Lines(s + t) == Lines(s) + Lines(t)
  {
    if t == "" {
      assert s + t == s;
    } else {
      assert (s + t)[..|s + t| - 1] == s + t[..|t| - 1];
      LinesAdd(s, t[..|t| - 1]);
    }
  }

  /** A write never holds more than one line, and there are at least as many writes as lines. */
  lemma {:induction false} WritesCoverLines(ws: seq<string>)
    requires forall w :: w in ws ==> LineOrFull(w)
    ensures Lines(Join(ws)) <= |ws|
  {
    if ws != [] {
      var w := ws[|ws| - 1];
      assert LineOrFull(w);
      WritesCoverLines(ws[..|ws| - 1]);
      LinesAdd(Join(ws[..|ws| - 1]), w);
      NoLine(w[..|w| - 1]);
    }
  }
}

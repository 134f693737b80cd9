/**
Bytes and characters, and the strings that a terminator ends: what is in front of the first terminator is
the string.
 */
module Bytes {
  type Byte = b: int | 0 <= b < 256

  const NUL: char := '\0'

  /** There is a terminator to stop at. */
  predicate Ended<T(==)>(s: seq<T>, stop: T) {
    stop in s
  }

  /** What s holds up to its first terminator. */
  function Until<T(==)>(s: seq<T>, stop: T): (r: seq<T>)
    ensures |r| <= |s| && r == s[..|r|] && stop !in r
    ensures |r| < |s| ==> s[|r|] == stop
    ensures Ended(s, stop) ==> |r| < |s|
  {
    if s == [] || s[0] == stop then [] else [s[0]] + Until(s[1..], stop)
  }

  /** Where the terminator is, and what is in front of it */
  lemma UntilFacts<T>(s: seq<T>, stop: T)
    requires Ended(s, stop)
    ensures var r := Until(s, stop); |r| < |s| && r == s[..|r|] && stop !in r && s[|r|] == stop
  {
  }

  /** The sequence with its terminator, seen from i */
  lemma TextAt<T>(s: seq<T>, stop: T, i: nat)
    requires Ended(s, stop) && i <= |Until(s, stop)|
    ensures i < |s| && (s[i] == stop <==> i == |Until(s, stop)|)
    ensures i < |Until(s, stop)| ==> s[i] == Until(s, stop)[i]
  {
  }

  /** A prefix that a terminator follows */
  lemma {:induction false} UntilIs<T>(s: seq<T>, stop: T, p: seq<T>)
    requires |p| < |s| && s[..|p|] == p && stop !in p && s[|p|] == stop
    ensures Until(s, stop) == p
  {
    if p != [] {
      assert s[0] == p[0];
      assert s[1..][..|p| - 1] == p[1..];
      UntilIs(s[1..], stop, p[1..]);
    }
  }
}

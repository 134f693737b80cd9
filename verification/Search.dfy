/** memmem and strstr: the leftmost occurrence of a needle, by three routes. */
module Search {
  import opened Bytes
  import opened Wrappers

  predicate OccursAt(hay: seq<Byte>, needle: seq<Byte>, i: nat) {
    i + |needle| <= |hay| && hay[i..i + |needle|] == needle
  }

  /** r is the first place where the needle occurs, or None when it occurs nowhere. */
  ghost predicate Leftmost(hay: seq<Byte>, needle: seq<Byte>, r: Option<nat>) {
    match r
    case Some(i) => OccursAt(hay, needle, i) && forall j: nat :: j < i ==> !OccursAt(hay, needle, j)
    case None => forall j: nat :: !OccursAt(hay, needle, j)
  }

  lemma LeftmostUnique(hay: seq<Byte>, needle: seq<Byte>, r: Option<nat>, r': Option<nat>)
    requires Leftmost(hay, needle, r) && Leftmost(hay, needle, r')
    ensures r == r'
  {
    hide OccursAt;
  }

  /** The first b needle bytes are at i. */
  predicate MatchesUpTo(hay: seq<Byte>, needle: seq<Byte>, i: nat, b: nat) {
    b <= |needle| && i + b <= |hay| && hay[i..i + b] == needle[..b]
  }

  lemma MatchOneMore(hay: seq<Byte>, needle: seq<Byte>, i: nat, b: nat)
    requires MatchesUpTo(hay, needle, i, b) && b < |needle| && i + b < |hay| && hay[i + b] == needle[b]
    ensures MatchesUpTo(hay, needle, i, b + 1)
  {
    assert hay[i..i + b + 1] == hay[i..i + b] + [hay[i + b]];
  }

  lemma MatchAll(hay: seq<Byte>, needle: seq<Byte>, i: nat)
    requires MatchesUpTo(hay, needle, i, |needle|)
    ensures OccursAt(hay, needle, i)
  {
  }

  lemma Mismatch(hay: seq<Byte>, needle: seq<Byte>, i: nat, b: nat)
    requires b < |needle| && (i + b >= |hay| || hay[i + b] != needle[b])
    ensures !OccursAt(hay, needle, i)
  {
    if i + |needle| <= |hay| {
      assert hay[i..i + |needle|][b] == hay[i + b];
    }
  }

  /** The skip table after the first k needle bytes: how far the last c among them is from the needle's end. */
  function Skip(needle: seq<Byte>, k: nat, c: Byte): (d: nat)
    requires k <= |needle|
    ensures k < |needle| ==> d > 0
    ensures d <= |needle|
  {
    if k == 0 then |needle|
    else if needle[k - 1] == c then |needle| - k
    else Skip(needle, k - 1, c)
  }

  lemma {:induction false} SkipReaches(needle: seq<Byte>, k: nat, c: Byte, i: nat)
    requires i < k <= |needle| && needle[i] == c
    ensures Skip(needle, k, c) <= |needle| - 1 - i
  {
    if needle[k - 1] != c {
      SkipReaches(needle, k - 1, c, i);
    }
  }

  /** No alignment that the skip passes over can match. */
  lemma SkippedCannotMatch(hay: seq<Byte>, needle: seq<Byte>, i: nat, j: nat)
    requires |needle| > 0 && i + |needle| <= |hay|
    requires i < j < i + Skip(needle, |needle| - 1, hay[i + |needle| - 1])
    ensures !OccursAt(hay, needle, j)
  {
    hide OccursAt;
    var last := |needle| - 1;
    if hay[i + last] == needle[last - (j - i)] {
      SkipReaches(needle, last, hay[i + last], last - (j - i));
    } else {
      Mismatch(hay, needle, j, last - (j - i));
    }
  }

  method FillSkip(needle: seq<Byte>) returns (badCharSkip: array<nat>)
    requires |needle| > 0
    ensures fresh(badCharSkip) && badCharSkip.Length == 256
    ensures forall c: Byte :: badCharSkip[c] == Skip(needle, |needle| - 1, c)
  {
    badCharSkip := new nat[256];
    for scan := 0 to 256
      invariant forall c :: 0 <= c < scan ==> badCharSkip[c] == |needle|
    {
      badCharSkip[scan] := |needle|;
    }
    var last := |needle| - 1;
    for scan := 0 to last
      invariant forall c: Byte :: badCharSkip[c] == Skip(needle, scan, c)
    {
      badCharSkip[needle[scan]] := last - scan;
    }
  }

  method BoyerMooreHorspool(haystack: seq<Byte>, needle: seq<Byte>) returns (r: Option<nat>)
    requires |needle| > 0
    ensures Leftmost(haystack, needle, r)
  {
    hide OccursAt;
    var badCharSkip := FillSkip(needle);
    var last := |needle| - 1;
    var hay, hlen := 0, |haystack|;
    while hlen >= |needle|
      invariant forall c: Byte :: badCharSkip[c] == Skip(needle, last, c)
      invariant 0 <= hay && 0 <= hlen && hay + hlen == |haystack|
      invariant forall j: nat :: j < hay ==> !OccursAt(haystack, needle, j)
    {
      var scan := last;
      while haystack[hay + scan] == needle[scan]
        invariant forall c: Byte :: badCharSkip[c] == Skip(needle, last, c)
        invariant 0 <= scan <= last
        invariant forall k :: scan < k <= last ==> haystack[hay + k] == needle[k]
        decreases scan
      {
        if scan == 0 {
          AllMatch(haystack, needle, hay);
          return Some(hay);
        }
        scan := scan - 1;
      }
      Mismatch(haystack, needle, hay, scan);
      var skip := badCharSkip[haystack[hay + last]];
      forall j: nat | hay < j < hay + skip
        ensures !OccursAt(haystack, needle, j)
      {
        SkippedCannotMatch(haystack, needle, hay, j);
      }
      hlen := hlen - skip;
      hay := hay + skip;
    }
    NoRoom(haystack, needle, hay);
    return None;
  }

  lemma AllMatch(hay: seq<Byte>, needle: seq<Byte>, i: nat)
    requires i + |needle| <= |hay| && forall k :: 0 <= k < |needle| ==> hay[i + k] == needle[k]
    ensures OccursAt(hay, needle, i)
  {
  }

  lemma NoRoom(hay: seq<Byte>, needle: seq<Byte>, i: nat)
    requires i + |needle| > |hay|
    ensures forall j: nat :: i <= j ==> !OccursAt(hay, needle, j)
  {
  }

  /** The short-input loop of memmem: on a mismatch it goes back to just after the start of the attempt. */
  method Backtracking(haystack: seq<Byte>, needle: seq<Byte>) returns (r: Option<nat>)
    requires 0 < |needle| <= |haystack|
    ensures Leftmost(haystack, needle, r)
  {
    hide OccursAt, MatchesUpTo;
    var j, i := 0, 0;
    NothingYet(haystack, needle, 0);
    while i < |haystack|
      invariant 0 <= j <= i <= |haystack| && j < |needle|
      invariant MatchesUpTo(haystack, needle, i - j, j)
      invariant forall k: nat :: k < i - j ==> !OccursAt(haystack, needle, k)
      decreases |haystack| - (i - j), |needle| - j
    {
      if haystack[i] == needle[j] {
        MatchOneMore(haystack, needle, i - j, j);
        j := j + 1;
        if j == |needle| {
          MatchAll(haystack, needle, i - |needle| + 1);
          return Some(i - |needle| + 1);
        }
      } else {
        Mismatch(haystack, needle, i - j, j);
        i := i - j;
        j := 0;
        NothingYet(haystack, needle, i + 1);
      }
      i := i + 1;
    }
    NoRoom(haystack, needle, i - j);
    return None;
  }

  lemma NothingYet(hay: seq<Byte>, needle: seq<Byte>, i: nat)
    requires i <= |hay|
    ensures MatchesUpTo(hay, needle, i, 0)
  {
  }

  method Memmem(haystack: seq<Byte>, needle: seq<Byte>) returns (r: Option<nat>)
    ensures Leftmost(haystack, needle, r)
  {
    if |needle| == 0 {
      return Some(0);
    }
    if |needle| > |haystack| {
      NoRoom(haystack, needle, 0);
      return None;
    }
    if |needle| >= 4 && |haystack| >= 256 {
      r := BoyerMooreHorspool(haystack, needle);
      return;
    }
    r := Backtracking(haystack, needle);
  }

  /** strstr, on strings that end with a zero byte */
  method Strstr(text: seq<Byte>, substring: seq<Byte>) returns (r: Option<nat>)
    requires Ended(text, 0) && Ended(substring, 0)
    ensures Leftmost(Until(text, 0), Until(substring, 0), r)
  {
    hide OccursAt, MatchesUpTo;
    ghost var hay, needle := Until(text, 0), Until(substring, 0);
    if substring[0] == 0 {
      NothingYet(hay, needle, 0);
      MatchAll(hay, needle, 0);
      return Some(0);
    }
    var at := 0;
    while text[at] != 0
      invariant 0 <= at <= |hay|
      invariant forall k: nat :: k < at ==> !OccursAt(hay, needle, k)
      decreases |hay| - at
    {
      if text[at] == substring[0] {
        var here := MatchHere(text, substring, at);
        if here {
          return Some(at);
        }
      } else {
        Mismatch(hay, needle, at, 0);
      }
      at := at + 1;
    }
    NoRoom(hay, needle, at);
    return None;
  }

  /** The inner loop of strstr */
  method MatchHere(text: seq<Byte>, substring: seq<Byte>, at: nat) returns (here: bool)
    requires Ended(text, 0) && Ended(substring, 0) && at < |Until(text, 0)|
    ensures here <==> OccursAt(Until(text, 0), Until(substring, 0), at)
  {
    hide OccursAt, MatchesUpTo;
    ghost var hay, needle := Until(text, 0), Until(substring, 0);
    var a, b := at, 0;
    NothingYet(hay, needle, at);
    while true
      invariant 0 <= b <= |needle| && a == at + b <= |hay|
      invariant MatchesUpTo(hay, needle, at, b)
      decreases |needle| - b
    {
      if substring[b] == 0 {
        MatchAll(hay, needle, at);
        return true;
      }
      if text[a] != substring[b] {
        Mismatch(hay, needle, at, b);
        return false;
      }
      MatchOneMore(hay, needle, at, b);
      a := a + 1;
      b := b + 1;
    }
  }
}

/** What create_dir achieves, and exactly when it mends the path that it cuts. */
module DirectoryFacts {
  import opened Bytes
  import opened Directories
  import opened Wrappers

  // Paths.

  predicate IsComponent(c: string) {
    c != "" && '/' !in c
  }

  /** What a path says, for every string: components are behind slashes, or at the front, and the rest is slashes. */
  lemma ComponentsExact(p: string, c: string)
    requires IsComponent(c)
    ensures Components("") == [] && Components(c) == [c]
    ensures Components(p + "/") == Components(p) && Components(p + "/" + c) == Components(p) + [c]
  {
    hide Components;
    NoSlash(c);
    LastIsAt(p, "");
    LastIsAt(p, c);
    assert p + "/" + "" == p + "/";
    OneSplit("");
    OneSplit(c);
    OneSplit(p + "/");
    OneSplit(p + "/" + c);
    assert (p + "/")[..|p|] == p && (p + "/" + c)[..|p|] == p && (p + "/" + c)[|p| + 1..] == c;
    assert Components(p) + [] == Components(p);
  }

  /** The definition, at one path */
  lemma OneSplit(p: string)
    ensures LastSlash(p) == None ==> Components(p) == if p == [] then [] else [p]
    ensures LastSlash(p).Some? ==>
      var k := LastSlash(p).value; Components(p) == Components(p[..k]) + (if k + 1 == |p| then [] else [p[k + 1..]])
  {
  }

  lemma NoSlash(c: string)
    requires '/' !in c
    ensures LastSlash(c) == None && LastSlash("") == None
  {
  }

  lemma LastIsAt(p: string, c: string)
    requires '/' !in c
    ensures LastSlash(p + "/" + c) == Some(|p|)
  {
    hide LastSlash;
    var s := p + "/" + c;
    var n := |p| + 1;
    assert s[|p|] == '/' && s[n..] == c;
    forall i | n <= i < |s|
      ensures s[i] != '/'
    {
      assert s[i] == s[n..][i - n];
    }
    OnlyLast(s, |p|);
  }

  lemma OnlyLast(s: string, k: nat)
    requires k < |s| && s[k] == '/' && forall i :: k < i < |s| ==> s[i] != '/'
    ensures LastSlash(s) == Some(k)
  {
    hide LastSlash;
  }

  /** The path of components, absolute */
  function Joined(cs: seq<string>): string {
    if cs == [] then "" else Joined(cs[..|cs| - 1]) + "/" + cs[|cs| - 1]
  }

  /** The components of a path made of components are those, also with a slash at its end, or without the one in front. */
  lemma {:induction false} JoinedComponents(cs: seq<string>)
    requires forall c :: c in cs ==> IsComponent(c)
    ensures Components(Joined(cs)) == cs && Components(Joined(cs) + "/") == cs
    ensures cs != [] ==> Joined(cs) != "" && Joined(cs)[0] == '/' && Components(Joined(cs)[1..]) == cs
  {
    hide Components, IsComponent;
    LetterComponent();
    ComponentsExact(Joined(cs), "a");
    if cs != [] {
      var front, c := cs[..|cs| - 1], cs[|cs| - 1];
      JoinedComponents(front);
      ComponentsExact(Joined(front), c);
      assert front + [c] == cs;
      if front == [] {
        assert Joined(cs)[1..] == c;
      } else {
        ComponentsExact(Joined(front)[1..], c);
        assert Joined(cs)[1..] == Joined(front)[1..] + "/" + c;
      }
    }
  }

  lemma LetterComponent()
    ensures IsComponent("a")
  {
  }

  /** A directory and all its ancestors */
  function Lineage(c: Path): set<Path>
    decreases |c|
  {
    if c == [] then {} else {c} + Lineage(c[..|c| - 1])
  }

  /** Every directory is in a directory. */
  ghost predicate Closed(dirs: set<Path>) {
    forall d :: d in dirs && |d| > 1 ==> d[..|d| - 1] in dirs
  }

  lemma {:induction false} LineageIn(dirs: set<Path>, c: Path)
    requires Closed(dirs) && (c == [] || c in dirs)
    ensures Lineage(c) <= dirs
    decreases |c|
  {
    if |c| > 1 {
      LineageIn(dirs, c[..|c| - 1]);
    } else if |c| == 1 {
      assert c[..0] == [];
    }
  }

  lemma MakeAddsLineage(dirs: set<Path>, p: string)
    requires Closed(dirs) && CanMake(dirs, p)
    ensures Make(dirs, p) == dirs + Lineage(Components(p)) && Closed(Make(dirs, p))
  {
    hide Components;
    var c := Components(p);
    if |c| == 1 {
      assert c[..0] == [];
    } else {
      LineageIn(dirs, c[..|c| - 1]);
    }
  }

  /** Two slashes in a row, the first of them at from or behind it */
  predicate DoubleFrom(p: string, from: int) {
    exists i :: 0 <= i < |p| - 1 && from <= i && p[i] == SLASH && p[i + 1] == SLASH
  }

  /** p, or p cut at one of its slashes, can be made; and no empty component is behind the cut. */
  predicate StopsAt(p: string, dirs: set<Path>, c: nat) {
    0 < c <= |p| && (c == |p| || p[c] == SLASH) && CanMake(dirs, p[..c]) && !DoubleFrom(p, c - 1)
  }

  /** What a caller can check: no empty component, or a directory that can be made behind the last one. */
  ghost predicate Mends(p: string, dirs: set<Path>) {
    !DoubleFrom(p, 0) || exists c: nat :: StopsAt(p, dirs, c)
  }

  lemma CutDouble(p: string, k: nat, from: int)
    requires LastSlash(p) == Some(k)
    ensures DoubleFrom(p, from) <==> DoubleFrom(p[..k], from) || (k > 0 && from <= k - 1 && p[k - 1] == SLASH)
  {
    if DoubleFrom(p[..k], from) {
      var i :| 0 <= i < |p[..k]| - 1 && from <= i && p[..k][i] == SLASH && p[..k][i + 1] == SLASH;
      assert p[i] == SLASH && p[i + 1] == SLASH;
    }
    if DoubleFrom(p, from) {
      var i :| 0 <= i < |p| - 1 && from <= i && p[i] == SLASH && p[i + 1] == SLASH;
      if i < k - 1 {
        assert p[..k][i] == SLASH && p[..k][i + 1] == SLASH;
      }
    }
  }

  lemma CutStops(p: string, dirs: set<Path>, k: nat, c: nat)
    requires LastSlash(p) == Some(k) && 0 < k && c <= k && p[k - 1] != SLASH
    ensures StopsAt(p[..k], dirs, c) <==> StopsAt(p, dirs, c)
  {
    hide CanMake, DoubleFrom;
    CutDouble(p, k, c - 1);
    if 0 < c {
      assert p[..k][..c] == p[..c];
    }
  }

  /** How mending is inherited from the path cut at its last slash */
  lemma MendsCut(p: string, dirs: set<Path>, k: nat)
    requires LastSlash(p) == Some(k) && !CanMake(dirs, p) && k > 0
    ensures Mends(p, dirs) <==> p[k - 1] != SLASH && Mends(p[..k], dirs)
  {
    hide CanMake, DoubleFrom, StopsAt;
    CutDouble(p, k, 0);
    forall c: nat
      ensures StopsAt(p, dirs, c) ==> c <= k && p[k - 1] != SLASH
    {
      StopsInFront(p, dirs, k, c);
    }
    if p[k - 1] != SLASH {
      forall c: nat | c <= k
        ensures StopsAt(p[..k], dirs, c) <==> StopsAt(p, dirs, c)
      {
        CutStops(p, dirs, k, c);
      }
      forall c: nat
        ensures StopsAt(p[..k], dirs, c) ==> c <= k
      {
        StopsWithin(p[..k], dirs, c);
      }
    }
  }

  lemma StopsWithin(p: string, dirs: set<Path>, c: nat)
    ensures StopsAt(p, dirs, c) ==> c <= |p|
  {
  }

  lemma StopsInFront(p: string, dirs: set<Path>, k: nat, c: nat)
    requires LastSlash(p) == Some(k) && !CanMake(dirs, p) && k > 0
    ensures StopsAt(p, dirs, c) ==> c <= k && p[k - 1] != SLASH
  {
    hide CanMake;
    assert p[..|p|] == p;
    if StopsAt(p, dirs, c) && p[k - 1] == SLASH {
      CutDouble(p, k, c - 1);
    }
  }

  lemma WholeStops(p: string, dirs: set<Path>)
    requires p != [] && CanMake(dirs, p)
    ensures Mends(p, dirs)
  {
    hide CanMake;
    assert p[..|p|] == p;
    assert StopsAt(p, dirs, |p|);
  }

  /** Nothing to strip on a text that does not end in a slash */
  lemma NothingToStrip(s: string)
    requires Until(s, NUL) != [] && Until(s, NUL)[|Until(s, NUL)| - 1] != SLASH
    ensures Stripped(s) == s
  {
  }

  lemma Mended(s: string, k: nat)
    requires k < |s| && s[k] == SLASH
    ensures s[k := NUL][k := SLASH] == s
  {
  }

  /** create_dir does not touch the buffer from the end of its string on; it only clears a slash at that end. */
  lemma {:induction false} TailKept(s: string, dirs: set<Path>)
    ensures forall i :: |Until(s, NUL)| <= i < |s| ==> CreateDir(s, dirs).path[i] == s[i]
    ensures var n := |Until(s, NUL)|; n > 0 && s[n - 1] == SLASH ==> CreateDir(s, dirs).path[n - 1] == NUL
    decreases |Until(s, NUL)|
  {
    hide Until, CanMake, LastSlash, Components;
    if Until(s, NUL) != [] {
      StrippedShorter(s);
      StrippedCut(s);
      var s1 := Stripped(s);
      var p := Until(s1, NUL);
      if !CanMake(dirs, p) && LastSlash(p).Some? {
        var k := LastSlash(p).value;
        CutAt(s1, k);
        TailKept(s1[k := NUL], dirs);
      }
    }
  }

  lemma StrippedCut(s: string)
    requires Until(s, NUL) != []
    ensures var n := |Until(s, NUL)|;
      (s[n - 1] == SLASH ==> Stripped(s) == s[n - 1 := NUL] && Until(Stripped(s), NUL) == Until(s, NUL)[..n - 1])
      && (s[n - 1] != SLASH ==> Stripped(s) == s)
  {
    hide LastSlash;
    var n := |Until(s, NUL)|;
    if s[n - 1] == SLASH {
      CutAt(s, n - 1);
    }
  }

  /** One level of create_dir: the path cannot be made at once, and is cut at its last slash. */
  lemma OneLevel(s: string, dirs: set<Path>, k: nat)
    requires Until(s, NUL) != [] && !CanMake(dirs, Until(Stripped(s), NUL)) && LastSlash(Until(Stripped(s), NUL)) == Some(k)
    ensures k < |s| && Until(Stripped(s)[k := NUL], NUL) == Until(Stripped(s), NUL)[..k]
    ensures var up := CreateDir(Stripped(s)[k := NUL], dirs);
      CreateDir(s, dirs) == Result(up.path[k := SLASH], Make(up.dirs, Until(up.path[k := SLASH], NUL)))
  {
    hide CanMake, LastSlash, Components;
    CutAt(Stripped(s), k);
  }

  lemma ComponentsCut(p: string, k: nat)
    requires LastSlash(p) == Some(k)
    ensures Components(p) == Components(p[..k]) + (if k + 1 == |p| then [] else [p[k + 1..]])
  {
  }

  lemma SomeComponent(p: string)
    requires p != [] && p[|p| - 1] != SLASH
    ensures Components(p) != []
  {
  }

  /** Making the rest, once everything in front of the last slash is there */
  lemma MakesLast(dirs: set<Path>, p: string, k: nat)
    requires LastSlash(p) == Some(k) && Components(p[..k]) != []
    requires Closed(dirs + Lineage(Components(p[..k])))
    ensures Make(dirs + Lineage(Components(p[..k])), p) == dirs + Lineage(Components(p))
    ensures Closed(dirs + Lineage(Components(p)))
  {
    hide Components;
    ComponentsCut(p, k);
    var q, c := Components(p[..k]), Components(p);
    var up := dirs + Lineage(q);
    assert q in up;
    if c != q {
      assert c[..|c| - 1] == q;
      if c in up {
        LineageIn(up, c);
      }
      assert Make(up, p) == dirs + Lineage(c);
    } else {
      assert Make(up, p) == up;
    }
  }

  lemma OneComponent(dirs: set<Path>, p: string)
    requires LastSlash(p) == None && !CanMake(dirs, p) && Closed(dirs)
    ensures dirs + Lineage(Components(p)) == dirs
  {
    LineageIn(dirs, Components(p));
  }

  /**
  Where the path is mended, it and all its ancestors exist afterwards, nothing else has been made, and
  the buffer is as it was, up to a slash at its end.
   */
  lemma {:induction false} MendsCreates(s: string, dirs: set<Path>)
    requires Defined(s, dirs) && Closed(dirs) && Mends(Until(Stripped(s), NUL), dirs)
    ensures CreateDir(s, dirs) == Result(Stripped(s), dirs + Lineage(Components(Until(Stripped(s), NUL))))
    ensures Closed(dirs + Lineage(Components(Until(Stripped(s), NUL))))
    decreases |Until(s, NUL)|
  {
    hide Until, CanMake, LastSlash, Components, Stripped, Mends, Make, Lineage, Closed, Defined;
    StrippedShorter(s);
    var s1 := Stripped(s);
    var p := Until(s1, NUL);
    DefinedStep(s, dirs);
    if CanMake(dirs, p) {
      MakeAddsLineage(dirs, p);
    } else if LastSlash(p).None? {
      OneComponent(dirs, p);
    } else {
      var k := LastSlash(p).value;
      MendsCut(p, dirs, k);
      OneLevel(s, dirs, k);
      var s' := s1[k := NUL];
      NothingToStrip(s');
      SomeComponent(p[..k]);
      MendsCreates(s', dirs);
      Mended(s1, k);
      MakesLast(dirs, p, k);
    }
  }

  /** What is defined is cut in front of nothing, and what is left of it is defined. */
  lemma DefinedStep(s: string, dirs: set<Path>)
    requires Defined(s, dirs)
    ensures var s1 := Stripped(s); var p := Until(s1, NUL);
      && Until(s, NUL) != [] && |p| <= |s1| && p == s1[..|p|]
      && (!CanMake(dirs, p) && LastSlash(p).Some? ==>
            var k := LastSlash(p).value;
            0 < k && k < |s1| && s1[k] == SLASH && Defined(s1[k := NUL], dirs))
  {
    hide LastSlash, CanMake;
    var s1 := Stripped(s);
    var p := Until(s1, NUL);
    if !CanMake(dirs, p) && LastSlash(p).Some? {
      assert p[LastSlash(p).value] == SLASH;
      CutAt(s1, LastSlash(p).value);
    }
    StrippedShorter(s);
  }

  /** Where it is not, the buffer comes back cut. */
  lemma {:induction false} OtherwiseCut(s: string, dirs: set<Path>)
    requires Defined(s, dirs) && !Mends(Until(Stripped(s), NUL), dirs)
    ensures CreateDir(s, dirs).path != Stripped(s)
    decreases |Until(s, NUL)|
  {
    hide Until, CanMake, LastSlash, Components, Stripped, Mends, Make, Defined;
    StrippedShorter(s);
    var s1 := Stripped(s);
    var p := Until(s1, NUL);
    DefinedStep(s, dirs);
    if CanMake(dirs, p) {
      NothingMakesEmpty(dirs);
      WholeStops(p, dirs);
    } else if LastSlash(p).None? {
      NoSlashMends(p, dirs);
    } else {
      var k := LastSlash(p).value;
      MendsCut(p, dirs, k);
      OneLevel(s, dirs, k);
      var s' := s1[k := NUL];
      TailKept(s', dirs);
      if p[k - 1] != SLASH {
        NothingToStrip(s');
        OtherwiseCut(s', dirs);
        if CreateDir(s', dirs).path[k := SLASH] == s'[k := SLASH] {
          SameAway(CreateDir(s', dirs).path, s', k);
        }
        Mended(s1, k);
      }
    }
  }

  lemma NothingMakesEmpty(dirs: set<Path>)
    ensures !CanMake(dirs, [])
  {
  }

  lemma SameAway(t: string, s: string, k: nat)
    requires |t| == |s| && k < |s| && t[k] == s[k] && t[k := SLASH] == s[k := SLASH]
    ensures t == s
  {
    forall i | 0 <= i < |s|
      ensures t[i] == s[i]
    {
      assert t[k := SLASH][i] == s[k := SLASH][i];
    }
  }

  lemma NoSlashMends(p: string, dirs: set<Path>)
    requires LastSlash(p) == None
    ensures Mends(p, dirs)
  {
  }

  /** create_dir gives the buffer back, up to a slash at its end, exactly on the paths that it mends. */
  lemma MendsExact(s: string, dirs: set<Path>)
    requires Defined(s, dirs) && Closed(dirs)
    ensures CreateDir(s, dirs).path == Stripped(s) <==> Mends(Until(Stripped(s), NUL), dirs)
  {
    hide Until, Stripped, Mends, Closed, Defined;
    if Mends(Until(Stripped(s), NUL), dirs) {
      MendsCreates(s, dirs);
    } else {
      OtherwiseCut(s, dirs);
    }
  }

  // Which paths are cut down to nothing.

  /** The slashes at the front */
  function Lead(p: string): nat {
    if p != [] && p[0] == SLASH then 1 + Lead(p[1..]) else 0
  }

  lemma {:induction false} LeadIs(p: string)
    ensures Lead(p) <= |p| && (forall i :: 0 <= i < Lead(p) ==> p[i] == SLASH) && (Lead(p) < |p| ==> p[Lead(p)] != SLASH)
  {
    if p != [] && p[0] == SLASH {
      LeadIs(p[1..]);
    }
  }

  /** The slashes at the front of p, seen from its first j characters */
  lemma LeadCut(p: string, j: nat)
    requires j <= |p|
    ensures Lead(p[..j]) == if Lead(p) < j then Lead(p) else j
  {
    LeadIs(p);
    LeadIs(p[..j]);
  }

  lemma LeadLast(p: string, k: nat)
    requires LastSlash(p) == Some(k)
    ensures Lead(p) <= k + 1 && (Lead(p) >= k ==> Lead(p) == k + 1)
  {
    LeadIs(p);
    assert Lead(p) > 0 ==> p[Lead(p) - 1] == SLASH;
  }

  /** There are no components exactly when there are only slashes. */
  lemma {:induction false} NoComponent(p: string)
    ensures Components(p) == [] <==> Lead(p) == |p|
    decreases |p|
  {
    hide LastSlash;
    LeadIs(p);
    if LastSlash(p).Some? {
      var k := LastSlash(p).value;
      NoComponent(p[..k]);
      LeadCut(p, k);
      LeadLast(p, k);
    }
  }

  /** One component more or none, when the path cannot be made: it is missing exactly when the shorter one is. */
  lemma MissingCut(dirs: set<Path>, p: string, k: nat)
    requires LastSlash(p) == Some(k) && !CanMake(dirs, p) && Closed(dirs) && Components(p[..k]) != []
    ensures Components(p) != [] && (Components(p) in dirs <==> Components(p[..k]) in dirs)
  {
    hide Components;
    ComponentsCut(p, k);
    var q, c := Components(p[..k]), Components(p);
    if c != q {
      assert c[..|c| - 1] == q;
    }
  }

  /** Cut at k, and without a slash at its end: the components of the path that is tried next */
  lemma NextTried(s: string, k: nat)
    requires LastSlash(Until(Stripped(s), NUL)) == Some(k) && k > 0
    ensures var p := Until(Stripped(s), NUL);
      var p' := Until(Stripped(Stripped(s)[k := NUL]), NUL);
      && p' == (if p[k - 1] == SLASH then p[..k - 1] else p[..k])
      && Components(p') == Components(p[..k])
  {
    hide LastSlash, Components;
    var s1 := Stripped(s);
    var p := Until(s1, NUL);
    CutAt(s1, k);
    StrippedCut(s1[k := NUL]);
    if p[k - 1] == SLASH {
      LastIs(p[..k]);
      ComponentsCut(p[..k], k - 1);
      assert p[..k][..k - 1] == p[..k - 1];
    }
  }

  lemma LastIs(p: string)
    requires p != [] && p[|p| - 1] == SLASH
    ensures LastSlash(p) == Some(|p| - 1)
  {
  }

  /** What is asked of a caller: an even number of slashes at the front, or a directory that is missing. */
  predicate EvenOrMissing(p: string, dirs: set<Path>) {
    Lead(p) % 2 == 0 || (Components(p) != [] && Components(p) !in dirs)
  }

  lemma EvenOrMissingCut(s: string, dirs: set<Path>, k: nat)
    requires LastSlash(Until(Stripped(s), NUL)) == Some(k) && k > 0 && Closed(dirs)
    requires !CanMake(dirs, Until(Stripped(s), NUL))
    ensures EvenOrMissing(Until(Stripped(s), NUL), dirs)
      <==> EvenOrMissing(Until(Stripped(Stripped(s)[k := NUL]), NUL), dirs)
  {
    hide LastSlash, Components, Stripped, Until, Lead, CanMake;
    var p := Until(Stripped(s), NUL);
    var p' := Until(Stripped(Stripped(s)[k := NUL]), NUL);
    NextTried(s, k);
    LeadCut(p, k);
    LeadCut(p, k - 1);
    LeadLast(p, k);
    LeadIs(p);
    NoComponent(p[..k]);
    if Components(p[..k]) != [] {
      MissingCut(dirs, p, k);
    } else {
      OnlySlashes(dirs, p, k);
    }
  }

  lemma OnlySlashes(dirs: set<Path>, p: string, k: nat)
    requires LastSlash(p) == Some(k) && !CanMake(dirs, p) && Components(p[..k]) == []
    ensures Components(p) == [] || Components(p) in dirs
  {
    hide Components;
    ComponentsCut(p, k);
  }

  /**
  create_dir is defined on exactly these paths. All relative ones are among them; an absolute one must be
  missing, unless the number of its slashes at the front is even.
   */
  lemma {:induction false} DefinedExact(s: string, dirs: set<Path>)
    requires Until(s, NUL) != [] && Closed(dirs)
    ensures Defined(s, dirs) <==> EvenOrMissing(Until(Stripped(s), NUL), dirs)
    decreases |Until(s, NUL)|
  {
    hide Until, CanMake, LastSlash, Components, Stripped, Closed, Lead, EvenOrMissing;
    StrippedShorter(s);
    var s1 := Stripped(s);
    var p := Until(s1, NUL);
    if CanMake(dirs, p) {
      MakeableIsMissing(dirs, p);
    } else if LastSlash(p).None? {
      NoLead(p, dirs);
    } else {
      var k := LastSlash(p).value;
      CutAt(s1, k);
      if k == 0 {
        OneLead(p, dirs);
        NotDefinedEmpty(s1[k := NUL], dirs);
      } else {
        DefinedExact(s1[k := NUL], dirs);
        EvenOrMissingCut(s, dirs, k);
      }
    }
  }

  lemma MakeableIsMissing(dirs: set<Path>, p: string)
    requires CanMake(dirs, p)
    ensures EvenOrMissing(p, dirs)
  {
    hide Components, Lead;
  }

  lemma NoLead(p: string, dirs: set<Path>)
    requires LastSlash(p) == None
    ensures EvenOrMissing(p, dirs)
  {
    hide Components;
    LeadIs(p);
  }

  lemma OneLead(p: string, dirs: set<Path>)
    requires LastSlash(p) == Some(0) && !CanMake(dirs, p)
    ensures !EvenOrMissing(p, dirs)
  {
    hide Components, LastSlash;
    LeadLast(p, 0);
    LeadCut(p, 0);
    NoComponent(p[..0]);
    OnlySlashes(dirs, p, 0);
  }

  lemma NotDefinedEmpty(s: string, dirs: set<Path>)
    requires Until(s, NUL) == []
    ensures !Defined(s, dirs)
  {
  }

  /** A path that does not begin with a slash is always defined. */
  lemma RelativeIsDefined(s: string, dirs: set<Path>)
    requires Until(s, NUL) != [] && s[0] != SLASH && Closed(dirs)
    ensures Defined(s, dirs)
  {
    hide Components, LastSlash, Defined, Closed;
    DefinedExact(s, dirs);
    StrippedCut(s);
    LeadIs(Until(Stripped(s), NUL));
  }
}

/** create_dir: a path made component by component, by cutting the string in place. */
module Directories {
  import opened Bytes
  import opened Wrappers

  const SLASH: char := '/'

  function LastSlash(p: string): (r: Option<nat>)
    ensures r.Some? ==> r.value < |p| && p[r.value] == SLASH
    ensures forall i :: 0 <= i < |p| && p[i] == SLASH ==> r.Some? && i <= r.value
  {
    if p == [] then None
    else if p[|p| - 1] == SLASH then Some(|p| - 1)
    else LastSlash(p[..|p| - 1])
  }

  /** A path as the system reads it, from where it starts: empty components do not count. */
  function Components(p: string): seq<string>
    decreases |p|
  {
    match LastSlash(p)
    case None => if p == [] then [] else [p]
    case Some(k) => Components(p[..k]) + (if k + 1 == |p| then [] else [p[k + 1..]])
  }

  type Path = seq<string>

  /** mkdir fails only on a missing parent or on a directory that is there already. */
  predicate CanMake(dirs: set<Path>, p: string) {
    var c := Components(p);
    c != [] && c !in dirs && (|c| == 1 || c[..|c| - 1] in dirs)
  }

  function Make(dirs: set<Path>, p: string): set<Path> {
    if CanMake(dirs, p) then dirs + {Components(p)} else dirs
  }

  /** The string in s, without a slash at its end */
  function Stripped(s: string): (r: string)
    ensures |r| == |s|
  {
    var n := |Until(s, NUL)|;
    if n > 0 && s[n - 1] == SLASH then s[n - 1 := NUL] else s
  }

  lemma StrippedShorter(s: string)
    ensures |Until(Stripped(s), NUL)| <= |Until(s, NUL)|
    ensures Ended(s, NUL) ==> Ended(Stripped(s), NUL)
  {
    var n := |Until(s, NUL)|;
    if n > 0 && s[n - 1] == SLASH {
      CutAt(s, n - 1);
    }
  }

  /** Cutting a string short at k */
  lemma {:induction false} CutAt(s: string, k: nat)
    requires k < |Until(s, NUL)|
    ensures Until(s[k := NUL], NUL) == Until(s, NUL)[..k]
    ensures NUL in s[k := NUL]
  {
    assert s[k := NUL][k] == NUL;
    if k > 0 {
      assert s[k := NUL][1..] == s[1..][k - 1 := NUL];
      CutAt(s[1..], k - 1);
      assert Until(s, NUL)[..k] == [s[0]] + Until(s[1..], NUL)[..k - 1];
    }
  }

  datatype Result = Result(path: string, dirs: set<Path>)

  /**
  create_dir on the buffer s, for paths within a directory, or within the root if absolute. An empty path is
  undefined in C: the code looks in front of the buffer.
   */
  function CreateDir(s: string, dirs: set<Path>): (r: Result)
    ensures |r.path| == |s|
    decreases |Until(s, NUL)|
  {
    if Until(s, NUL) == [] then Result(s, dirs)
    else
      StrippedShorter(s);
      var s1 := Stripped(s);
      var p := Until(s1, NUL);
      if CanMake(dirs, p) then Result(s1, Make(dirs, p))
      else
        match LastSlash(p)
        case None => Result(s1, dirs)
        case Some(k) =>
          CutAt(s1, k);
          var up := CreateDir(s1[k := NUL], dirs);
          var s2 := up.path[k := SLASH];
          Result(s2, Make(up.dirs, Until(s2, NUL)))
  }

  /** No call is made with an empty path: cutting stops at a directory that can be made, or where there is no slash. */
  predicate Defined(s: string, dirs: set<Path>)
    decreases |Until(s, NUL)|
  {
    Until(s, NUL) != [] &&
    (StrippedShorter(s);
     var s1 := Stripped(s);
     var p := Until(s1, NUL);
     CanMake(dirs, p) ||
     match LastSlash(p)
     case None => true
     case Some(k) =>
       CutAt(s1, k);
       Defined(s1[k := NUL], dirs))
  }

  class FileSystem {
    var dirs: set<Path>

    constructor (dirs: set<Path>)
      ensures this.dirs == dirs
    {
      this.dirs := dirs;
    }

    method Mkdir(p: string) returns (ok: bool)
      modifies this
      ensures ok == CanMake(old(dirs), p) && dirs == Make(old(dirs), p)
    {
      ok := CanMake(dirs, p);
      if ok {
        dirs := dirs + {Components(p)};
      }
    }

    method Create(pathname: array<char>)
      requires Ended(pathname[..], NUL) && Defined(pathname[..], dirs)
      modifies this, pathname
      ensures CreateDir(old(pathname[..]), old(dirs)) == Result(pathname[..], dirs)
      decreases |Until(pathname[..], NUL)|
    {
      hide Until, CanMake, LastSlash, Components;
      ghost var s := pathname[..];
      UntilFacts(s, NUL);
      var len := Strlen(pathname[..]);
      if pathname[len - 1] == SLASH {
        pathname[len - 1] := NUL;
      }
      assert pathname[..] == Stripped(s);
      StrippedShorter(s);
      UntilFacts(pathname[..], NUL);
      var r := Mkdir(Until(pathname[..], NUL));
      if !r {
        var p := LastSlash(Until(pathname[..], NUL));
        if p.Some? {
          CutAt(pathname[..], p.value);
          pathname[p.value] := NUL;
          assert pathname[..] == Stripped(s)[p.value := NUL];
          Create(pathname);
          pathname[p.value] := SLASH;
          r := Mkdir(Until(pathname[..], NUL));
        }
      }
    }
  }

  method Strlen(s: string) returns (len: nat)
    requires Ended(s, NUL)
    ensures len == |Until(s, NUL)|
  {
    hide Until;
    UntilFacts(s, NUL);
    len := 0;
    while s[len] != NUL
      invariant len <= |Until(s, NUL)|
      decreases |s| - len
    {
      len := len + 1;
    }
  }
}

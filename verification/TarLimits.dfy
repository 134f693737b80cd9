/** Archives that are not what the encoder makes: damaged headers, missing ends, skipped types, filtered names. */
module TarLimits {
  import opened Bytes
  import opened Numbers
  import opened Tar
  import opened TarFormat
  import opened TarRoundTrip

  // Checksums.

  lemma {:induction false} SumUpdate(s: seq<Byte>, i: nat, c: Byte)
    requires i < |s|
    ensures Sum(s[i := c]) == Sum(s) - s[i] + c
  {
    var n := |s| - 1;
    if i < n {
      assert s[i := c][..n] == s[..n][i := c];
      SumUpdate(s[..n], i, c);
    } else {
      assert s[i := c][..n] == s[..n];
    }
  }

  lemma {:induction false} StartSame(b: seq<Byte>, b': seq<Byte>, p: nat, n: nat)
    requires p + n < |b| == |b'| && forall i :: p <= i < p + n ==> b[i] == b'[i]
    ensures OctalStart(b, p, n) == OctalStart(b', p, n)
    decreases n
  {
    if n > 0 && !IsOctal(b[p]) {
      StartSame(b, b', p + 1, n - 1);
    }
  }

  lemma {:induction false} RunSame(b: seq<Byte>, b': seq<Byte>, p: nat, n: nat, acc: int, modulus: int)
    requires p + n < |b| == |b'| && modulus > 0 && forall i :: p <= i < p + n ==> b[i] == b'[i]
    ensures OctalRun(b, p, n, acc, modulus) == OctalRun(b', p, n, acc, modulus)
    decreases n
  {
    if n > 0 && IsOctal(b[p]) {
      RunSame(b, b', p + 1, n - 1, ToSigned(acc * 8 + (b[p] - 48), modulus), modulus);
    }
  }

  /** A field depends on its own bytes only. */
  lemma FieldSame(b: seq<Byte>, b': seq<Byte>, p: nat, n: nat, modulus: int)
    requires p + n < |b| == |b'| && modulus > 0 && forall i :: p <= i < p + n ==> b[i] == b'[i]
    ensures ParseOct(b, p, n, modulus) == ParseOct(b', p, n, modulus)
  {
    StartSame(b, b', p, n);
    var s := OctalStart(b, p, n);
    RunSame(b, b', s, p + n - s, 0, modulus);
  }

  /** A header with one byte changed outside the checksum field is refused. */
  lemma ChecksumDetects(b: Block, i: nat, c: Byte)
    requires ChecksumOk(b) && i < 512 && !(148 <= i < 156) && c != b[i]
    ensures !ChecksumOk(b[i := c])
  {
    hide Sum, ParseOct;
    var b': Block := b[i := c];
    FieldSame(b, b', 148, 8, INT);
    if i < 148 {
      SumUpdate(b[..148], i, c);
      assert b'[..148] == b[..148][i := c] && b'[156..] == b[156..];
    } else {
      SumUpdate(b[156..], i - 156, c);
      assert b'[156..] == b[156..][i - 156 := c] && b'[..148] == b[..148];
    }
  }

  /** Blanks in front of the digits of a field are passed over. */
  lemma BlanksPassed(b: seq<Byte>, p: nat, n: nat, m: nat, k: nat, v: nat, modulus: int)
    requires p + n < |b| && 0 < k && m + k <= n && v < Pow8(k) && 2 * v < modulus
    requires forall i :: p <= i < p + m ==> !(48 <= b[i] <= 55)
    requires b[p + m..p + m + k] == Octal(v, k) && (m + k == n || !(48 <= b[p + m + k] <= 55))
    ensures ParseOct(b, p, n, modulus) == v
  {
    hide Octal, Pow8, OctalRun;
    StartBehind(b, p, n, m);
    assert b[p + m] == b[p + m..p + m + k][0];
    FieldReads(b, p + m, n - m, k, v, modulus);
  }

  lemma {:induction false} StartBehind(b: seq<Byte>, p: nat, n: nat, m: nat)
    requires p + n < |b| && m <= n && forall i :: p <= i < p + m ==> !(48 <= b[i] <= 55)
    ensures OctalStart(b, p, n) == OctalStart(b, p + m, n - m)
    decreases m
  {
    if m > 0 {
      StartBehind(b, p + 1, n - 1, m - 1);
    }
  }

  lemma SignedStep(x: int, d: int, m: nat)
    requires m > 0
    ensures ToSigned(ToSigned(x, m) * 8 + d, m) == ToSigned(x * 8 + d, m)
  {
    var y := ToSigned(x, m);
    var k := if 2 * (x % m) < m then x / m else x / m + 1;
    assert x == m * (x / m) + x % m;
    assert x == m * k + y;
    assert x * 8 + d == m * (k * 8) + (y * 8 + d);
    Multiple(y * 8 + d, k * 8, m);
  }

  /** Reading k digits, whether they overflow or not */
  lemma {:induction false} RunWraps(b: seq<Byte>, p: nat, n: nat, k: nat, m: nat)
    requires p + n < |b| && k <= n && 0 < m
    requires forall i :: p <= i < p + k ==> IsOctal(b[i])
    ensures OctalRun(b, p, n, 0, m) == OctalRun(b, p + k, n - k, ToSigned(Fold(0, b[p..p + k]), m), m)
  {
    hide ToSigned;
    if k > 0 {
      var s := b[p..p + k];
      assert s[..k - 1] == b[p..p + k - 1];
      RunWraps(b, p, n, k - 1, m);
      SignedStep(Fold(0, s[..k - 1]), s[k - 1] - 48, m);
    } else {
      assert b[p..p] == [];
      NothingRead(m);
    }
  }

  lemma NothingRead(m: nat)
    requires m > 0
    ensures Fold(0, []) == 0 && ToSigned(0, m) == 0
  {
    assert 0 % m == 0;
  }

  /** A field whose number does not fit its type is read modulo the size of the type, as a signed number. */
  lemma FieldWraps(b: seq<Byte>, p: nat, n: nat, k: nat, v: nat, m: nat)
    requires p + n < |b| && 0 < k <= n && v < Pow8(k) && 0 < m
    requires b[p..p + k] == Octal(v, k) && (k == n || !(48 <= b[p + k] <= 55))
    ensures ParseOct(b, p, n, m) == if 2 * (v % m) < m then v % m else v % m - m
  {
    hide Octal, Pow8;
    assert forall i :: p <= i < p + k ==> b[i] == b[p..p + k][i - p];
    FoldOctal(v, k);
    RunWraps(b, p, n, k, m);
    assert OctalStart(b, p, n) == p;
  }

  /** The mode is read from its fourth digit on for as long as there are digits, and keeps sixteen bits. */
  lemma ModeExact(b: Block, k: nat, v: nat)
    requires 0 < k < 400 && v < Pow8(k) && v < 0x8000_0000_0000_0000
    requires b[103..103 + k] == Octal(v, k) && !(48 <= b[103 + k] <= 55)
    ensures ModeOf(b) == v % 0x1_0000
  {
    hide Octal, Pow8, OctalRun, OctalStart;
    FieldReads(b, 103, 408, k, v, TIME);
  }

  // Ends.

  /** The entries of an archive that goes on with something else */
  lemma EntriesThen(entries: seq<Entry>, rest: seq<Byte>, disk: Disk)
    requires EntriesOk(entries)
    ensures var more := Untar(Encode(entries) + rest, |Encode(entries)|, disk);
      Untar(Encode(entries) + rest, 0, disk) == more.(events := Effects(entries, 0, disk) + more.events)
  {
    hide Encode, Effects, Untar, EntryOk, Filtered, StoredName;
    var enc := Encode(entries);
    assert (enc + rest)[0..0 + |enc|] == enc;
    EntriesExtracted(enc + rest, 0, entries, disk);
  }

  /** Without an end, everything is extracted, and the end is reported as missing. */
  lemma EndMissing(entries: seq<Entry>, rest: seq<Byte>, disk: Disk)
    requires EntriesOk(entries) && |rest| < 512
    ensures Untar(Encode(entries) + rest, 0, disk) == Extraction(Effects(entries, 0, disk), ShortRead)
  {
    hide Encode, Effects, EntryOk, Filtered, StoredName;
    EntriesThen(entries, rest, disk);
    assert Effects(entries, 0, disk) + [] == Effects(entries, 0, disk);
  }

  /** A header that is not accepted ends the extraction, and nothing behind it counts. */
  lemma HeaderRefused(entries: seq<Entry>, b: Block, behind: seq<Byte>, disk: Disk)
    requires EntriesOk(entries) && !ChecksumOk(b) && exists n :: 0 <= n < 512 && b[n] != 0
    ensures Untar(Encode(entries) + (b + behind), 0, disk) == Extraction(Effects(entries, 0, disk), ChecksumFailure)
  {
    hide Encode, Effects, EntryOk, Filtered, StoredName, ChecksumOk, Untar;
    EntriesThen(entries, b + behind, disk);
    var enc := Encode(entries);
    RefusedAt(enc + (b + behind), |enc|, b, disk);
    assert Effects(entries, 0, disk) + [] == Effects(entries, 0, disk);
  }

  lemma RefusedAt(a: seq<Byte>, pos: nat, b: Block, disk: Disk)
    requires pos + 512 <= |a| && a[pos..pos + 512] == b && !ChecksumOk(b) && exists n :: 0 <= n < 512 && b[n] != 0
    ensures Untar(a, pos, disk) == Extraction([], ChecksumFailure)
  {
    hide ChecksumOk, Filtered, CopyOf, EventsOf;
  }

  /** The inner loop, when only m whole blocks are there */
  lemma {:induction false} CopyCut(a: seq<Byte>, pos: nat, data: seq<Byte>, disk: Disk, entry: nat, k: nat, open: bool, m: nat)
    requires 512 * m < |data| && pos + 512 * m <= |a| < pos + 512 * m + 512
    requires a[pos..pos + 512 * m] == data[..512 * m]
    ensures var r := CopyData(a, pos, |data|, disk, entry, k, open);
      r.data == KeptOf(data[..512 * m], disk, entry, k, open).data && r.left == |data| - 512 * m > 0
    decreases m
  {
    hide CopyData, KeptOf;
    if m > 0 {
      var ok := open && disk.writes(entry, k);
      CopyStep(a, pos, |data|, disk, entry, k, open);
      KeptStep(data[..512 * m], disk, entry, k, open);
      SliceOfSlice(a, pos, 512 * m, 0, 512);
      SliceOfSlice(a, pos, 512 * m, 512, 512 * m);
      assert data[..512 * m][0..512] == data[..512 * m][..512];
      assert data[..512 * m][512..] == data[512..][..512 * (m - 1)] == data[..512 * m][512..512 * m];
      CopyCut(a, pos + 512, data[512..], disk, entry, k + 1, ok, m - 1);
    } else {
      assert data[..0] == [];
      NothingKept(disk, entry, k, open);
      NoBlock(a, pos, |data|, disk, entry, k, open);
    }
  }

  lemma NoBlock(a: seq<Byte>, pos: nat, size: int, disk: Disk, entry: nat, k: nat, open: bool)
    requires size > 0 && pos + 512 > |a|
    ensures CopyData(a, pos, size, disk, entry, k, open) == Copied([], open, pos, size)
  {
  }

  /** A file whose data are cut off gets the whole blocks that are there, and the extraction ends. */
  lemma DataMissing(entries: seq<Entry>, f: Entry, m: nat, last: seq<Byte>, disk: Disk)
    requires EntriesOk(entries) && EntryOk(f) && f.FileEntry? && !Filtered(StoredName(f))
    requires 512 * m < |f.data| && |last| < 512
    ensures var pos := |Encode(entries)|;
      Untar(Encode(entries) + (Header(f) + f.data[..512 * m] + last), 0, disk) == Extraction(
        Effects(entries, 0, disk) + (if disk.creates(pos) then
          [MakeFile(StoredName(f), f.mode, f.uid, f.gid, f.mtime, KeptOf(f.data[..512 * m], disk, pos, 0, true).data, false)]
          else []),
        ShortData)
  {
    hide Encode, Effects, EntryOk, Filtered, StoredName, Untar, Header, KeptOf;
    var enc, rest := Encode(entries), Header(f) + f.data[..512 * m] + last;
    EntriesThen(entries, rest, disk);
    var a, pos := enc + rest, |enc|;
    assert a[pos..pos + 512] == Header(f);
    assert a[pos + 512..pos + 512 + 512 * m] == f.data[..512 * m];
    CutAt(a, pos, f, m, disk);
  }

  lemma CutAt(a: seq<Byte>, pos: nat, f: Entry, m: nat, disk: Disk)
    requires EntryOk(f) && f.FileEntry? && !Filtered(StoredName(f)) && 512 * m < |f.data|
    requires pos + 512 + 512 * m <= |a| < pos + 512 + 512 * m + 512
    requires a[pos..pos + 512] == Header(f) && a[pos + 512..pos + 512 + 512 * m] == f.data[..512 * m]
    ensures Untar(a, pos, disk) == Extraction(
      if disk.creates(pos) then
        [MakeFile(StoredName(f), f.mode, f.uid, f.gid, f.mtime, KeptOf(f.data[..512 * m], disk, pos, 0, true).data, false)]
      else [],
      ShortData)
  {
    hide EntryOk, Filtered, StoredName, Untar, Header, KeptOf, CopyData, ParseOct, Until, ModeOf, ChecksumOk, IsZero, TypeFlag;
    HeaderChecksum(f);
    HeaderName(f);
    HeaderKind(f);
    HeaderNumbers(f);
    HeaderMode(f);
    FlagOfFile(f);
    FlagNoOther(f);
    CopyCut(a, pos + 512, f.data, disk, pos, 0, disk.creates(pos), m);
    UntarTurn(a, pos, disk);
  }

  lemma FlagNoOther(f: Entry)
    requires EntryOk(f) && f.FileEntry?
    ensures !(49 <= TypeFlag(f) <= 54)
  {
    hide Pow8;
  }

  /** Devices and fifos are passed over, with the blocks of whatever size their headers say. */
  lemma SpecialSkipped(a: seq<Byte>, pos: nat, b: Block, n: nat, disk: Disk)
    requires pos + 512 + 512 * Blocks(n) <= |a| && a[pos..pos + 512] == b && ChecksumOk(b) && !IsZero(b)
    requires !Filtered(Until(b, 0)) && (b[156] == 51 || b[156] == 52 || b[156] == 54) && ParseOct(b, 124, 12, INT) == n
    ensures Untar(a, pos, disk) == Untar(a, pos + 512 + 512 * Blocks(n), disk)
  {
    hide Untar, ChecksumOk, Filtered, Until, ParseOct, IsZero, CopyData;
    UntarTurn(a, pos, disk);
    SkipBlocks(a, pos + 512, n, disk, pos, 0);
    var rest := Untar(a, pos + 512 + 512 * Blocks(n), disk);
    assert [] + rest.events == rest.events;
  }

  /** first, and then what rest says */
  predicate Precedes(r: Extraction, first: Event, rest: Extraction) {
    r.events == [first] + rest.events && r.outcome == rest.outcome
  }

  /** A directory takes up its header, and no more, whatever size that says. */
  lemma DirectoryAlone(a: seq<Byte>, pos: nat, b: Block, disk: Disk)
    requires pos + 512 <= |a| && a[pos..pos + 512] == b && ChecksumOk(b) && !IsZero(b)
    requires !Filtered(Until(b, 0)) && b[156] == 53
    ensures Precedes(Untar(a, pos, disk),
      MakeDirectory(Until(b, 0), ModeOf(b), ParseOct(b, 108, 8, INT), ParseOct(b, 116, 8, INT)), Untar(a, pos + 512, disk))
  {
    hide Untar, ChecksumOk, Filtered, Until, ParseOct, IsZero, ModeOf;
    UntarTurn(a, pos, disk);
  }

  /** A link is followed by the blocks of the size that its header says. */
  lemma LinkSkips(a: seq<Byte>, pos: nat, b: Block, n: nat, disk: Disk)
    requires pos + 512 + 512 * Blocks(n) <= |a| && a[pos..pos + 512] == b && ChecksumOk(b) && !IsZero(b)
    requires !Filtered(Until(b, 0)) && (b[156] == 49 || b[156] == 50) && ParseOct(b, 124, 12, INT) == n
    ensures Precedes(Untar(a, pos, disk),
      MakeLink(Until(b, 0), Until(b[157..257], 0), b[156] == 50, ParseOct(b, 136, 12, TIME)),
      Untar(a, pos + 512 + 512 * Blocks(n), disk))
  {
    hide Untar, ChecksumOk, Filtered, Until, ParseOct, IsZero, CopyData;
    UntarTurn(a, pos, disk);
    SkipBlocks(a, pos + 512, n, disk, pos, 0);
  }

  lemma {:induction false} SkipBlocks(a: seq<Byte>, pos: nat, n: nat, disk: Disk, entry: nat, k: nat)
    requires pos + 512 * Blocks(n) <= |a|
    ensures var r := CopyData(a, pos, n, disk, entry, k, false); r.pos == pos + 512 * Blocks(n) && r.left == 0
    decreases n
  {
    hide CopyData, Blocks;
    BlocksStep0();
    if n > 0 {
      BlocksStep(n);
      CopyStep(a, pos, n, disk, entry, k, false);
      SkipBlocks(a, pos + 512, if n < 512 then 0 else n - 512, disk, entry, k + 1);
    } else {
      NoData(a, pos, disk, entry, k, false);
    }
  }

  // Filtered names.

  function Ascii(s: string): seq<int> {
    seq(|s|, i requires 0 <= i < |s| => s[i] as int)
  }

  /** name stands at the end of the path, as a component, with nothing but slashes behind it. */
  predicate EndsIn(path: seq<Byte>, name: seq<Byte>, i: nat) {
    && i + |name| <= |path| && path[i..i + |name|] == name && (i == 0 || path[i - 1] == 47)
    && forall k :: i + |name| <= k < |path| ==> path[k] == 47
  }

  lemma {:induction false} StripIs(s: seq<Byte>)
    ensures StripSlashes(s) == s[..|StripSlashes(s)|]
    ensures forall k :: |StripSlashes(s)| <= k < |s| ==> s[k] == 47
  {
    if s != [] && s[|s| - 1] == 47 {
      StripIs(s[..|s| - 1]);
    }
  }

  lemma {:induction false} LastIs(s: seq<Byte>)
    ensures var m := |s| - |LastComponent(s)|;
      0 <= m && LastComponent(s) == s[m..] && (m > 0 ==> s[m - 1] == 47) && 47 !in s[m..]
  {
    if s != [] && s[|s| - 1] != 47 {
      LastIs(s[..|s| - 1]);
      var m := |s| - |LastComponent(s)|;
      assert s[m..] == s[..|s| - 1][m..] + [s[|s| - 1]];
    }
  }

  /** The base name of a path is the component at its end. */
  lemma BasenameExact(path: seq<Byte>, name: seq<Byte>)
    requires name != [] && 47 !in name && name != [46]
    ensures Basename(path) == name <==> exists i: nat :: EndsIn(path, name, i)
  {
    hide StripSlashes, LastComponent;
    StripIs(path);
    var s := StripSlashes(path);
    LastIs(s);
    var m := |s| - |LastComponent(s)|;
    if Basename(path) == name {
      assert name[0] == name[..1][0];
      BaseEnds(path, name, m);
    }
    if i: nat :| EndsIn(path, name, i) {
      EndsBase(path, name, i, m);
    }
  }

  lemma BaseEnds(path: seq<Byte>, name: seq<Byte>, m: nat)
    requires name != [] && 47 !in name && name != [46] && Basename(path) == name
    requires var s := StripSlashes(path);
      && s == path[..|s|] && (forall k :: |s| <= k < |path| ==> path[k] == 47)
      && m <= |s| && LastComponent(s) == s[m..] && (m > 0 ==> s[m - 1] == 47)
    ensures EndsIn(path, name, m)
  {
    hide StripSlashes, LastComponent;
    var s := StripSlashes(path);
    assert [47][0] in [47];
    assert name == s[m..];
    assert path[m..m + |name|] == s[m..];
  }

  lemma EndsBase(path: seq<Byte>, name: seq<Byte>, i: nat, m: nat)
    requires name != [] && 47 !in name && EndsIn(path, name, i)
    requires var s := StripSlashes(path);
      && s == path[..|s|] && (forall k :: |s| <= k < |path| ==> path[k] == 47)
      && m <= |s| && LastComponent(s) == s[m..] && (m > 0 ==> s[m - 1] == 47) && 47 !in s[m..]
    ensures Basename(path) == name
  {
    hide LastComponent;
    var s, end := StripSlashes(path), i + |name|;
    assert path[i..end][|name| - 1] == path[end - 1];
    assert path[end - 1] == name[|name| - 1] && name[|name| - 1] in name;
    SameEnd(path, s, end);
    assert s[i..] == name;
    SameStart(s, i, m);
  }

  lemma SameEnd(path: seq<Byte>, s: seq<Byte>, end: nat)
    requires s == StripSlashes(path) && s == path[..|s|] && 0 < end <= |path| && path[end - 1] != 47
    requires (forall k :: |s| <= k < |path| ==> path[k] == 47) && forall k :: end <= k < |path| ==> path[k] == 47
    ensures |s| == end
  {
    hide StripSlashes;
  }

  lemma SameStart(s: seq<Byte>, i: nat, m: nat)
    requires i <= |s| && m <= |s| && 47 !in s[i..] && 47 !in s[m..]
    requires (i > 0 ==> s[i - 1] == 47) && (m > 0 ==> s[m - 1] == 47)
    ensures i == m
  {
  }

  /** A name is filtered exactly when its last component is .DS_Store or __MACOSX. */
  lemma FilteredExact(path: seq<Byte>)
    ensures Filtered(path) <==>
      exists i: nat :: EndsIn(path, Ascii(".DS_Store"), i) || EndsIn(path, Ascii("__MACOSX"), i)
  {
    hide Basename, EndsIn;
    assert DS_STORE == Ascii(".DS_Store");
    assert MACOSX == Ascii("__MACOSX");
    BasenameExact(path, DS_STORE);
    BasenameExact(path, MACOSX);
  }
}

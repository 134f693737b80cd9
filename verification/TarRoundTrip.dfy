/** Extracting what the format's encoder makes. */
module TarRoundTrip {
  import opened Bytes
  import opened Tar
  import opened TarFormat

  lemma SliceOfSlice(a: seq<Byte>, p: nat, len: nat, i: nat, j: nat)
    requires p + len <= |a| && i <= j <= len
    ensures a[p..p + len][i..j] == a[p + i..p + j]
  {
    var x, y := a[p..p + len][i..j], a[p + i..p + j];
    forall k | 0 <= k < j - i
      ensures x[k] == y[k]
    {
    }
    assert |x| == |y|;
  }

  lemma TwoParts(a: seq<Byte>, pos: nat, x: seq<Byte>, y: seq<Byte>)
    requires pos + |x + y| <= |a| && a[pos..pos + |x + y|] == x + y
    ensures a[pos..pos + |x|] == x && a[pos + |x|..pos + |x| + |y|] == y
  {
    SliceOfSlice(a, pos, |x + y|, 0, |x|);
    SliceOfSlice(a, pos, |x + y|, |x|, |x + y|);
    assert (x + y)[0..|x|] == x && (x + y)[|x|..|x + y|] == y;
  }

  // Headers

  /** The bytes of y in x + y + z */
  lemma Middle(x: seq<Byte>, y: seq<Byte>, z: seq<Byte>)
    ensures (x + y + z)[|x|..|x| + |y|] == y
  {
  }

  lemma SixParts(n: seq<Byte>, m: seq<Byte>, u: seq<Byte>, g: seq<Byte>, s: seq<Byte>, t: seq<Byte>)
    requires |n| == 100 && |m| == |u| == |g| == 8 && |s| == |t| == 12
    ensures var f := n + m + u + g + s + t;
      && f[..100] == n && f[100..108] == m && f[108..116] == u && f[116..124] == g && f[124..136] == s && f[136..148] == t
  {
    Middle(n, m, u + g + s + t);
    assert n + m + u + g + s + t == n + m + (u + g + s + t);
    Middle(n + m, u, g + s + t);
    assert n + m + u + g + s + t == (n + m) + u + (g + s + t);
    Middle(n + m + u, g, s + t);
    assert n + m + u + g + s + t == (n + m + u) + g + (s + t);
  }

  lemma FrontFields(e: Entry)
    requires EntryOk(e)
    ensures Front(e)[..100] == NameField(e)
    ensures Front(e)[100..108] == Octal(e.mode, 7) + [0]
    ensures Front(e)[108..116] == Octal(e.uid, 7) + [0]
    ensures Front(e)[116..124] == Octal(e.gid, 7) + [0]
    ensures Front(e)[124..136] == Octal(SizeField(e), 11) + [0]
    ensures Front(e)[136..148] == Octal(TimeField(e), 11) + [0]
  {
    hide Octal, NameField, SizeField, TimeField, EntryOk;
    SixParts(NameField(e), Octal(e.mode, 7) + [0], Octal(e.uid, 7) + [0], Octal(e.gid, 7) + [0],
             Octal(SizeField(e), 11) + [0], Octal(TimeField(e), 11) + [0]);
  }

  /** A field with a zero byte behind its digits */
  lemma StoredField(b: Block, p: nat, k: nat, v: nat, modulus: int)
    requires p + k + 1 < BLOCK && k > 0 && b[p..p + k + 1] == Octal(v, k) + [0]
    requires v < Pow8(k) && 2 * v < modulus
    ensures ParseOct(b, p, k + 1, modulus) == v
  {
    hide Octal, Pow8, ParseOct;
    assert b[p..p + k] == b[p..p + k + 1][..k] == Octal(v, k);
    assert b[p + k] == b[p..p + k + 1][k] == 0;
    FieldReads(b, p, k + 1, k, v, modulus);
  }

  lemma HeaderFront(e: Entry, i: nat, j: nat)
    requires EntryOk(e) && i <= j <= 148
    ensures Header(e)[i..j] == Front(e)[i..j]
  {
    hide Front, Back, Octal;
  }

  lemma Pow8Values()
    ensures Pow8(4) == 0x1000 && Pow8(6) == 0x4_0000 && Pow8(7) == 0x20_0000 && Pow8(11) == 0x2_0000_0000
  {
    assert Pow8(4) == 0x1000;
    assert Pow8(8) == 0x100_0000;
  }

  lemma HeaderNumbers(e: Entry)
    requires EntryOk(e)
    ensures var b := Header(e);
      && ParseOct(b, UID_OFF, 8, INT) == e.uid && ParseOct(b, GID_OFF, 8, INT) == e.gid
      && ParseOct(b, SIZE_OFF, 12, INT) == SizeField(e) && ParseOct(b, MTIME_OFF, 12, TIME) == TimeField(e)
  {
    hide Header, Front, Octal, ParseOct;
    var b := Header(e);
    FrontFields(e);
    HeaderFront(e, 108, 116);
    HeaderFront(e, 116, 124);
    HeaderFront(e, 124, 136);
    HeaderFront(e, 136, 148);
    Pow8Values();
    StoredField(b, UID_OFF, 7, e.uid, INT);
    StoredField(b, GID_OFF, 7, e.gid, INT);
    StoredField(b, SIZE_OFF, 11, SizeField(e), INT);
    StoredField(b, MTIME_OFF, 11, TimeField(e), TIME);
  }

  /** The mode field has seven digits; the code reads the last four. */
  lemma ModeDigits(mode: nat)
    requires mode < Pow8(4)
    ensures Octal(mode, 7)[3..] == Octal(mode, 4)
  {
    TailDigits(mode, 7, 4);
  }

  lemma {:induction false} TailDigits(n: nat, k: nat, j: nat)
    requires j <= k
    ensures Octal(n, k)[k - j..] == Octal(n, j)
  {
    if j > 0 {
      TailDigits(n / 8, k - 1, j - 1);
      assert Octal(n, k)[k - j..] == Octal(n / 8, k - 1)[k - j..] + [48 + n % 8];
    }
  }

  lemma HeaderMode(e: Entry)
    requires EntryOk(e)
    ensures ModeOf(Header(e)) == e.mode
  {
    hide Header, Front, Octal, ParseOct, OctalRun;
    var b := Header(e);
    FrontFields(e);
    HeaderFront(e, 100, 108);
    ModeDigits(e.mode);
    Pow8Values();
    var field := b[100..108];
    SliceOfSlice(b, 100, 8, 3, 7);
    assert field == Octal(e.mode, 7) + [0];
    assert field[3..7] == Octal(e.mode, 7)[3..];
    assert b[107] == field[7] == 0;
    FieldReads(b, 103, 408, 4, e.mode, TIME);
  }

  lemma {:induction false} SumBound(s: seq<Byte>)
    ensures Sum(s) <= 255 * |s|
  {
    if s != [] {
      SumBound(s[..|s| - 1]);
    }
  }

  lemma HeaderChecksum(e: Entry)
    requires EntryOk(e)
    ensures ChecksumOk(Header(e))
  {
    hide Front, Back, Octal, Sum, ParseOct;
    var b := Header(e);
    assert b[..148] == Front(e) && b[156..] == Back(e);
    SumBound(Front(e));
    SumBound(Back(e));
    Pow8Values();
    assert b[148..154] == Octal(HeaderSum(e), 6) && b[154] == 0;
    FieldReads(b, 148, 8, 6, HeaderSum(e), INT);
  }

  /** The name as the code sees it: a name that fills its field runs on into the mode. */
  function StoredName(e: Entry): seq<Byte> {
    if |e.name| == 100 then e.name + Octal(e.mode, 7) else e.name
  }

  lemma HeaderName(e: Entry)
    requires EntryOk(e)
    ensures Until(Header(e), 0) == StoredName(e)
  {
    hide Header, Front, Octal, Until;
    var b := Header(e);
    FrontFields(e);
    HeaderFront(e, 0, 100);
    HeaderFront(e, 100, 108);
    assert b[..100] == NameField(e);
    if |e.name| == 100 {
      assert b[..107] == b[..100] + b[100..108][..7];
      assert b[107] == b[100..108][7] == 0;
    } else {
      assert b[..|e.name|] == b[..100][..|e.name|] == e.name;
      assert b[|e.name|] == b[..100][|e.name|] == 0;
    }
    UntilIs(b, 0, StoredName(e));
  }

  lemma HeaderKind(e: Entry)
    requires EntryOk(e)
    ensures Header(e)[156] == TypeFlag(e)
    ensures !IsZero(Header(e))
  {
    hide Front, Octal, TypeFlag;
    var b := Header(e);
    assert b[156] == Back(e)[0];
    NameSomewhere(e);
  }

  lemma NameSomewhere(e: Entry)
    requires EntryOk(e)
    ensures Header(e)[0] == e.name[0] != 0
  {
    hide Octal, Back, TypeFlag;
    assert Header(e)[0] == Front(e)[0] == NameField(e)[0];
  }

  lemma HeaderLink(e: Entry)
    requires EntryOk(e)
    ensures Header(e)[157..257] == LinkField(e)
  {
    hide Front, Octal, LinkField, TypeFlag;
    var b := Header(e);
    assert b[156..] == Back(e);
    assert b[157..257] == b[156..][1..101];
    assert Back(e)[1..101] == LinkField(e);
  }

  /** The target of a link is found in its field, if it leaves a byte of that free. */
  lemma LinkTarget(e: Entry)
    requires EntryOk(e) && e.LinkEntry?
    ensures 0 in Header(e)[157..257] <==> |e.target| < 100
    ensures Until(Header(e)[157..257], 0) == e.target
  {
    hide Header, Octal, Until;
    HeaderLink(e);
    var f := LinkField(e);
    if |e.target| < 100 {
      assert f[|e.target|] == 0;
      UntilIs(f, 0, e.target);
    } else {
      assert f == e.target;
      UntilWhole(f);
    }
  }

  lemma {:induction false} UntilWhole(s: seq<Byte>)
    requires 0 !in s
    ensures Until(s, 0) == s
  {
    if s != [] {
      UntilWhole(s[1..]);
      assert s == [s[0]] + s[1..];
    }
  }

  // Data

  datatype Kept = Kept(data: seq<Byte>, open: bool)

  /** What of the data reaches the file: whole blocks, up to the first one whose write fails. */
  function KeptOf(data: seq<Byte>, disk: Disk, entry: nat, k: nat, open: bool): Kept
    decreases |data|
  {
    if data == [] then Kept([], open)
    else
      var n := if |data| < BLOCK then |data| else BLOCK;
      var ok := open && disk.writes(entry, k);
      var rest := KeptOf(data[n..], disk, entry, k + 1, ok);
      Kept((if ok then data[..n] else []) + rest.data, rest.open)
  }

  /** A file that stays open gets everything; one that does not gets a prefix. */
  lemma {:induction false} KeptPrefix(data: seq<Byte>, disk: Disk, entry: nat, k: nat, open: bool)
    ensures var r := KeptOf(data, disk, entry, k, open);
      && r.data <= data && (r.open ==> open && r.data == data) && (!open ==> r.data == [])
    decreases |data|
  {
    if data != [] {
      var n := if |data| < BLOCK then |data| else BLOCK;
      var ok := open && disk.writes(entry, k);
      KeptPrefix(data[n..], disk, entry, k + 1, ok);
      assert data == data[..n] + data[n..];
    }
  }

  lemma {:induction false} KeptAll(data: seq<Byte>, disk: Disk, entry: nat, k: nat)
    requires forall j :: disk.writes(entry, j)
    ensures KeptOf(data, disk, entry, k, true) == Kept(data, true)
    decreases |data|
  {
    if data != [] {
      var n := if |data| < BLOCK then |data| else BLOCK;
      KeptAll(data[n..], disk, entry, k + 1);
      assert data == data[..n] + data[n..];
    }
  }

  lemma BlocksStep(n: nat)
    requires n > 0
    ensures Blocks(n) == 1 + Blocks(if n < 512 then 0 else n - 512)
  {
  }

  lemma BlocksStep0()
    ensures Blocks(0) == 0
  {
  }

  lemma CopyStep(a: seq<Byte>, pos: nat, size: int, disk: Disk, entry: nat, k: nat, open: bool)
    requires size > 0 && pos + BLOCK <= |a|
    ensures var n := if size < BLOCK then size else BLOCK;
      var ok := open && disk.writes(entry, k);
      var rest := CopyData(a, pos + BLOCK, size - n, disk, entry, k + 1, ok);
      CopyData(a, pos, size, disk, entry, k, open) == rest.(data := (if ok then a[pos..pos + n] else []) + rest.data)
  {
  }

  lemma KeptStep(data: seq<Byte>, disk: Disk, entry: nat, k: nat, open: bool)
    requires data != []
    ensures var n := if |data| < BLOCK then |data| else BLOCK;
      var ok := open && disk.writes(entry, k);
      var rest := KeptOf(data[n..], disk, entry, k + 1, ok);
      KeptOf(data, disk, entry, k, open) == Kept((if ok then data[..n] else []) + rest.data, rest.open)
  {
  }

  /** The inner loop consumes exactly the blocks of the data, whatever the disk does. */
  lemma {:induction false} CopyExact(a: seq<Byte>, pos: nat, data: seq<Byte>, disk: Disk, entry: nat, k: nat, open: bool)
    requires pos + 512 * Blocks(|data|) <= |a| && pos + |data| <= |a| && a[pos..pos + |data|] == data
    ensures var r := KeptOf(data, disk, entry, k, open);
      CopyData(a, pos, |data|, disk, entry, k, open) == Copied(r.data, r.open, pos + 512 * Blocks(|data|), 0)
    decreases |data|
  {
    hide CopyData, KeptOf, Blocks;
    if data != [] {
      var n := if |data| < BLOCK then |data| else BLOCK;
      BlocksStep(|data|);
      BlocksStep0();
      CopyStep(a, pos, |data|, disk, entry, k, open);
      KeptStep(data, disk, entry, k, open);
      SliceOfSlice(a, pos, |data|, 0, n);
      SliceOfSlice(a, pos, |data|, n, |data|);
      assert data[n..|data|] == data[n..] && data[0..n] == data[..n];
      var rest := data[n..];
      assert pos + 512 + |rest| <= |a| && a[pos + 512..pos + 512 + |rest|] == rest;
      CopyExact(a, pos + 512, rest, disk, entry, k + 1, open && disk.writes(entry, k));
    } else {
      BlocksStep0();
      NoData(a, pos, disk, entry, k, open);
      NothingKept(disk, entry, k, open);
    }
  }

  lemma NothingKept(disk: Disk, entry: nat, k: nat, open: bool)
    ensures KeptOf([], disk, entry, k, open) == Kept([], open)
  {
  }

  lemma NoData(a: seq<Byte>, pos: nat, disk: Disk, entry: nat, k: nat, open: bool)
    ensures CopyData(a, pos, 0, disk, entry, k, open) == Copied([], open, pos, 0)
  {
  }

  // Archives

  /** What extraction does for one entry, on any disk: nothing for devices and fifos. */
  function Effect(e: Entry, pos: nat, disk: Disk): seq<Event>
    requires EntryOk(e)
  {
    match e
    case DirectoryEntry(_, _, mode, uid, gid) => [MakeDirectory(StoredName(e), mode, uid, gid)]
    case LinkEntry(_, _, _, _, _, mtime, target, symbolic) => [MakeLink(StoredName(e), target, symbolic, mtime)]
    case SpecialEntry(_, _, _, _, _, _, _) => []
    case FileEntry(_, _, mode, uid, gid, mtime, _, data) =>
      if !disk.creates(pos) then []
      else
        var kept := KeptOf(data, disk, pos, 0, true);
        [MakeFile(StoredName(e), mode, uid, gid, mtime, kept.data, kept.open)]
  }

  function Effects(entries: seq<Entry>, pos: nat, disk: Disk): seq<Event>
    requires forall e :: e in entries ==> EntryOk(e)
  {
    if entries == [] then []
    else Effect(entries[0], pos, disk) + Effects(entries[1..], pos + |EncodeEntry(entries[0])|, disk)
  }

  lemma HeaderEvents(e: Entry, disk: Disk, pos: nat, copied: Copied)
    requires EntryOk(e) && copied.left == 0
    ensures EventsOf(Header(e), disk, pos, copied) ==
      match e
      case DirectoryEntry(_, _, mode, uid, gid) => [MakeDirectory(StoredName(e), mode, uid, gid)]
      case LinkEntry(_, _, _, _, _, mtime, target, symbolic) => [MakeLink(StoredName(e), target, symbolic, mtime)]
      case SpecialEntry(_, _, _, _, _, _, _) => []
      case FileEntry(_, _, mode, uid, gid, mtime, _, _) =>
        if disk.creates(pos) then [MakeFile(StoredName(e), mode, uid, gid, mtime, copied.data, copied.open)] else []
  {
    hide Header, ParseOct, Until, ModeOf, StoredName, Pow8;
    HeaderNumbers(e);
    HeaderMode(e);
    HeaderName(e);
    HeaderKind(e);
    if e.LinkEntry? {
      LinkTarget(e);
    }
  }

  /** One turn of the outer loop, on a header that is taken */
  lemma HeaderTaken(a: seq<Byte>, pos: nat, b: Block, disk: Disk)
    requires pos + BLOCK <= |a| && a[pos..pos + BLOCK] == b
    requires !IsZero(b) && ChecksumOk(b) && !Filtered(Until(b, 0)) && CopyOf(a, pos, b, disk).left == 0
    ensures var copied := CopyOf(a, pos, b, disk);
      var rest := Untar(a, copied.pos, disk);
      Untar(a, pos, disk) == rest.(events := EventsOf(b, disk, pos, copied) + rest.events)
  {
    hide IsZero, ChecksumOk, Filtered, Until, CopyOf, EventsOf;
  }

  lemma EncodedParts(e: Entry)
    requires EntryOk(e)
    ensures var enc := EncodeEntry(e);
      && |enc| >= 512 && enc[0..512] == Header(e)
      && (e.FileEntry? ==> |e.data| <= 512 * Blocks(|e.data|) && enc[512..512 + |e.data|] == e.data)
  {
    hide Header;
  }

  lemma FlagOfFile(e: Entry)
    requires EntryOk(e)
    ensures IsFileType(TypeFlag(e)) <==> e.FileEntry?
    ensures TypeFlag(e) == DIRTYPE <==> e.DirectoryEntry?
  {
    hide Pow8;
  }

  /** The data of an entry in the archive */
  lemma EntryCopied(a: seq<Byte>, pos: nat, e: Entry, disk: Disk)
    requires EntryOk(e)
    requires pos + |EncodeEntry(e)| <= |a| && a[pos..pos + |EncodeEntry(e)|] == EncodeEntry(e)
    ensures var copied := CopyOf(a, pos, Header(e), disk);
      && copied.left == 0 && copied.pos == pos + |EncodeEntry(e)|
      && (e.FileEntry? ==>
            var kept := KeptOf(e.data, disk, pos, 0, disk.creates(pos)); copied.data == kept.data && copied.open == kept.open)
  {
    hide Header, ParseOct, CopyData, KeptOf, EntryOk, Blocks;
    EncodedParts(e);
    HeaderKind(e);
    HeaderNumbers(e);
    BlocksStep0();
    FlagOfFile(e);
    if e.FileEntry? {
      SliceOfSlice(a, pos, |EncodeEntry(e)|, 512, 512 + |e.data|);
      CopyExact(a, pos + 512, e.data, disk, pos, 0, disk.creates(pos));
    } else {
      NoData(a, pos + 512, disk, pos, 0, false);
    }
  }

  /** One entry in the archive: its effect, and then exactly the next header. */
  lemma EntryExtracted(a: seq<Byte>, pos: nat, e: Entry, disk: Disk)
    requires EntryOk(e) && !Filtered(StoredName(e)) && (e.LinkEntry? ==> |e.target| < 100)
    requires pos + |EncodeEntry(e)| <= |a| && a[pos..pos + |EncodeEntry(e)|] == EncodeEntry(e)
    ensures var rest := Untar(a, pos + |EncodeEntry(e)|, disk);
      Untar(a, pos, disk) == rest.(events := Effect(e, pos, disk) + rest.events)
  {
    hide Header, Until, StoredName, Filtered, ChecksumOk, IsZero, CopyOf, EventsOf, KeptOf, EncodeEntry, Untar, EntryOk;
    EncodedParts(e);
    SliceOfSlice(a, pos, |EncodeEntry(e)|, 0, 512);
    HeaderChecksum(e);
    HeaderName(e);
    HeaderKind(e);
    EntryCopied(a, pos, e, disk);
    HeaderTaken(a, pos, Header(e), disk);
    HeaderEvents(e, disk, pos, CopyOf(a, pos, Header(e), disk));
  }

  /** No filtered names; and the targets of links end inside their fields, as the code copies them into an array of that size. */
  ghost predicate EntriesOk(entries: seq<Entry>) {
    forall e :: e in entries ==> EntryOk(e) && !Filtered(StoredName(e)) && (e.LinkEntry? ==> |e.target| < 100)
  }

  lemma Regroup(x: seq<Event>, y: seq<Event>, z: seq<Event>)
    ensures x + (y + z) == x + y + z
  {
  }

  lemma EncodeUnfold(entries: seq<Entry>)
    requires EntriesOk(entries) && entries != []
    ensures EntryOk(entries[0]) && EntriesOk(entries[1..])
    ensures Encode(entries) == EncodeEntry(entries[0]) + Encode(entries[1..])
  {
    hide EncodeEntry, Filtered, StoredName, EntryOk;
  }

  /** The first entry of an encoding, and the others */
  lemma EncodeCons(entries: seq<Entry>, a: seq<Byte>, pos: nat)
    requires EntriesOk(entries) && entries != []
    requires pos + |Encode(entries)| <= |a| && a[pos..pos + |Encode(entries)|] == Encode(entries)
    ensures var len := |EncodeEntry(entries[0])|;
      && |Encode(entries)| == len + |Encode(entries[1..])|
      && a[pos..pos + len] == EncodeEntry(entries[0])
      && a[pos + len..pos + len + |Encode(entries[1..])|] == Encode(entries[1..])
  {
    hide EncodeEntry, Encode, Filtered, StoredName, EntryOk;
    EncodeUnfold(entries);
    TwoParts(a, pos, EncodeEntry(entries[0]), Encode(entries[1..]));
  }

  /** Any number of entries, and then whatever follows them, on any disk. */
  lemma {:induction false} EntriesExtracted(a: seq<Byte>, pos: nat, entries: seq<Entry>, disk: Disk)
    requires EntriesOk(entries)
    requires pos + |Encode(entries)| <= |a| && a[pos..pos + |Encode(entries)|] == Encode(entries)
    ensures var rest := Untar(a, pos + |Encode(entries)|, disk);
      Untar(a, pos, disk) == rest.(events := Effects(entries, pos, disk) + rest.events)
    decreases |entries|
  {
    hide EncodeEntry, Encode, Effect, Effects, Filtered, StoredName, EntryOk, Untar;
    var rest := Untar(a, pos + |Encode(entries)|, disk);
    if entries != [] {
      var e := entries[0];
      var next := pos + |EncodeEntry(e)|;
      EncodeUnfold(entries);
      EncodeCons(entries, a, pos);
      FirstOk(entries);
      EntryExtracted(a, pos, e, disk);
      EntriesExtracted(a, next, entries[1..], disk);
      EffectsUnfold(entries, pos, disk);
      Regroup(Effect(e, pos, disk), Effects(entries[1..], next, disk), rest.events);
    } else {
      NoEntries(pos, disk);
      assert [] + rest.events == rest.events;
    }
  }

  lemma FirstOk(entries: seq<Entry>)
    requires EntriesOk(entries) && entries != []
    ensures var e := entries[0]; !Filtered(StoredName(e)) && (e.LinkEntry? ==> |e.target| < 100)
  {
  }

  lemma EffectsUnfold(entries: seq<Entry>, pos: nat, disk: Disk)
    requires EntriesOk(entries) && entries != []
    ensures Effects(entries, pos, disk)
      == Effect(entries[0], pos, disk) + Effects(entries[1..], pos + |EncodeEntry(entries[0])|, disk)
  {
    hide EncodeEntry, Effect, Filtered, StoredName, EntryOk;
  }

  lemma NoEntries(pos: nat, disk: Disk)
    ensures Encode([]) == [] && Effects([], pos, disk) == []
  {
  }

  /**
  Every archive of directories and files, on every disk: extraction reads all of it, and stops at the
  zero block, however many creations and writes fail on the way.
   */
  lemma ArchiveExtracted(entries: seq<Entry>, tail: seq<Byte>, disk: Disk)
    requires EntriesOk(entries)
    ensures Untar(Encode(entries) + Zeros(512) + tail, 0, disk) == Extraction(Effects(entries, 0, disk), ArchiveEnded)
  {
    hide Encode, Filtered, StoredName, EntryOk;
    var enc := Encode(entries);
    var a := enc + Zeros(512) + tail;
    assert a[0..0 + |enc|] == enc;
    assert a[|enc|..|enc| + 512] == Zeros(512);
    ZeroEnds(a, |enc|, disk);
    EntriesExtracted(a, 0, entries, disk);
    assert Effects(entries, 0, disk) + [] == Effects(entries, 0, disk);
  }

  lemma ZeroEnds(a: seq<Byte>, pos: nat, disk: Disk)
    requires pos + 512 <= |a| && a[pos..pos + 512] == Zeros(512)
    ensures Untar(a, pos, disk) == Extraction([], ArchiveEnded)
  {
    var b: Block := a[pos..pos + 512];
    assert IsZero(b);
  }

  // On a disk where nothing fails

  ghost predicate NothingFails(disk: Disk) {
    (forall p :: disk.creates(p)) && (forall p, k :: disk.writes(p, k))
  }

  /** Everything of the entry, under the name given */
  function EventOf(e: Entry, name: seq<Byte>): seq<Event> {
    match e
    case DirectoryEntry(_, _, mode, uid, gid) => [MakeDirectory(name, mode, uid, gid)]
    case LinkEntry(_, _, _, _, _, mtime, target, symbolic) => [MakeLink(name, target, symbolic, mtime)]
    case SpecialEntry(_, _, _, _, _, _, _) => []
    case FileEntry(_, _, mode, uid, gid, mtime, _, data) => [MakeFile(name, mode, uid, gid, mtime, data, true)]
  }

  /** The entries, under the names that the code finds */
  function EventsFor(entries: seq<Entry>): seq<Event> {
    if entries == [] then [] else EventOf(entries[0], StoredName(entries[0])) + EventsFor(entries[1..])
  }

  /** The entries, under their paths */
  function Intended(entries: seq<Entry>): seq<Event> {
    if entries == [] then [] else EventOf(entries[0], PathOf(entries[0])) + Intended(entries[1..])
  }

  lemma {:induction false} EffectsAreEvents(entries: seq<Entry>, pos: nat, disk: Disk)
    requires (forall e :: e in entries ==> EntryOk(e)) && NothingFails(disk)
    ensures Effects(entries, pos, disk) == EventsFor(entries)
    decreases |entries|
  {
    hide EncodeEntry, StoredName, EntryOk, KeptOf;
    if entries != [] {
      EffectsAreEvents(entries[1..], pos + |EncodeEntry(entries[0])|, disk);
      if entries[0].FileEntry? {
        KeptAll(entries[0].data, disk, pos, 0);
      }
    }
  }

  /** Round trip: exactly the entries, with their contents, in order, under the names that the code finds. */
  lemma RoundTrip(entries: seq<Entry>, tail: seq<Byte>, disk: Disk)
    requires EntriesOk(entries) && NothingFails(disk)
    ensures Untar(Encode(entries) + Zeros(512) + tail, 0, disk) == Extraction(EventsFor(entries), ArchiveEnded)
  {
    hide Untar, Encode, Effects;
    ArchiveExtracted(entries, tail, disk);
    EffectsAreEvents(entries, 0, disk);
  }

  // Names

  /** The name field leaves a byte free, and there is nothing in the prefix field. */
  predicate Plain(e: Entry) {
    e.prefix == [] && |e.name| < 100
  }

  /** Devices and fifos are not extracted, so their names do not matter. */
  ghost predicate AllPlain(entries: seq<Entry>) {
    forall e :: e in entries && !e.SpecialEntry? ==> Plain(e)
  }

  /** A sequence that repeats itself after seven places */
  lemma {:induction false} Repeats(w: seq<Byte>, k: nat)
    requires 6 + 7 * k < |w| && forall i :: 7 <= i < |w| ==> w[i] == w[i - 7]
    ensures w[6 + 7 * k] == w[6]
  {
    if k > 0 {
      Repeats(w, k - 1);
    }
  }

  /** Not even a name that runs into the mode field makes up for a prefix. */
  lemma NoDisguise(e: Entry)
    requires EntryOk(e) && |e.name| == 100 && e.prefix != []
    ensures e.name + Octal(e.mode, 7) != PathOf(e)
  {
    hide Octal;
    var w, digits := PathOf(e), Octal(e.mode, 7);
    if w == e.name + digits {
      assert |e.prefix| == 6 && w[6] == SLASH;
      forall i | 7 <= i < |w|
        ensures w[i] == w[i - 7]
      {
        assert w[i] == e.name[i - 7];
        assert (e.name + digits)[i - 7] == e.name[i - 7];
      }
      Repeats(w, 14);
      assert false;
    }
  }

  /** Paths come back exactly when the name leaves a byte of its field free, and the prefix is empty. */
  lemma NameExact(e: Entry)
    requires EntryOk(e)
    ensures Until(Header(e), 0) == PathOf(e) <==> Plain(e)
  {
    hide Header, Until, Octal;
    HeaderName(e);
    StoredExact(e);
  }

  lemma StoredExact(e: Entry)
    requires EntryOk(e)
    ensures StoredName(e) == PathOf(e) <==> Plain(e)
  {
    hide Octal;
    if |e.name| == 100 && e.prefix != [] {
      NoDisguise(e);
    }
  }

  lemma {:induction false} IntendedExact(entries: seq<Entry>)
    requires forall e :: e in entries ==> EntryOk(e)
    ensures EventsFor(entries) == Intended(entries) <==> AllPlain(entries)
  {
    hide StoredName, PathOf, Plain, EntryOk, EventOf;
    if entries != [] {
      var e, rest := entries[0], entries[1..];
      StoredExact(e);
      IntendedExact(rest);
      EventNames(e, StoredName(e), PathOf(e));
      SameParts(EventOf(e, StoredName(e)), EventsFor(rest), EventOf(e, PathOf(e)), Intended(rest));
      assert forall x :: x in entries <==> x == e || x in rest;
    }
  }

  lemma EventNames(e: Entry, name: seq<Byte>, other: seq<Byte>)
    ensures |EventOf(e, name)| == |EventOf(e, other)|
    ensures EventOf(e, name) == EventOf(e, other) <==> name == other || e.SpecialEntry?
  {
    if !e.SpecialEntry? && name != other {
      assert EventOf(e, name)[0] != EventOf(e, other)[0];
    }
  }

  lemma SameParts(x: seq<Event>, y: seq<Event>, x': seq<Event>, y': seq<Event>)
    requires |x| == |x'|
    ensures x + y == x' + y' <==> x == x' && y == y'
  {
    assert (x + y)[..|x|] == x && (x' + y')[..|x|] == x' && (x + y)[|x|..] == y && (x' + y')[|x|..] == y';
  }

  /** The whole archive comes back, under its paths, exactly when all entries that are extracted are plain. */
  lemma RoundTripExact(entries: seq<Entry>, tail: seq<Byte>, disk: Disk)
    requires EntriesOk(entries) && NothingFails(disk)
    ensures Untar(Encode(entries) + Zeros(512) + tail, 0, disk) == Extraction(Intended(entries), ArchiveEnded)
      <==> AllPlain(entries)
  {
    hide Untar, Encode, EntryOk, Filtered, StoredName;
    RoundTrip(entries, tail, disk);
    IntendedExact(entries);
  }

  /** a in the directory d, with d in the prefix field, is taken for a. */
  lemma PrefixSample(mode: nat, data: seq<Byte>)
    requires mode < Pow8(4) && |data| < 0x8000_0000
    ensures var e := FileEntry([100], [97], mode, 0, 0, 0, 48, data);
      EntryOk(e) && PathOf(e) == [100, SLASH, 97] && ChecksumOk(Header(e)) && Until(Header(e), 0) == [97]
  {
    hide Header, Until, ChecksumOk;
    var e := FileEntry([100], [97], mode, 0, 0, 0, 48, data);
    Pow8Values();
    HeaderChecksum(e);
    HeaderName(e);
  }

  /** A filtered name ends the extraction: nothing of that entry or of the ones behind it is extracted. */
  lemma FilteredEnds(entries: seq<Entry>, f: Entry, behind: seq<Byte>, disk: Disk)
    requires EntriesOk(entries) && EntryOk(f) && Filtered(StoredName(f))
    ensures Untar(Encode(entries) + EncodeEntry(f) + behind, 0, disk) == Extraction(Effects(entries, 0, disk), FilteredName)
  {
    hide Encode, EncodeEntry, Untar, Effects, Filtered, StoredName, EntryOk, Header;
    var enc := Encode(entries);
    var a := enc + EncodeEntry(f) + behind;
    assert a[0..0 + |enc|] == enc;
    EncodedHeader(f);
    HeaderBehind(enc, EncodeEntry(f), behind);
    FilteredHeader(a, |enc|, f, disk);
    EntriesExtracted(a, 0, entries, disk);
    assert Effects(entries, 0, disk) + [] == Effects(entries, 0, disk);
  }

  lemma HeaderBehind(x: seq<Byte>, y: seq<Byte>, z: seq<Byte>)
    requires |y| >= 512
    ensures |x| + 512 <= |x + y + z| && (x + y + z)[|x|..|x| + 512] == y[..512]
  {
  }

  lemma EncodedHeader(e: Entry)
    requires EntryOk(e)
    ensures |EncodeEntry(e)| >= 512 && EncodeEntry(e)[..512] == Header(e)
  {
    hide Header;
  }

  lemma FilteredHeader(a: seq<Byte>, pos: nat, f: Entry, disk: Disk)
    requires EntryOk(f) && Filtered(StoredName(f)) && pos + 512 <= |a| && a[pos..pos + 512] == Header(f)
    ensures Untar(a, pos, disk) == Extraction([], FilteredName)
  {
    hide Header, Filtered, ChecksumOk, IsZero, Until, StoredName;
    HeaderChecksum(f);
    HeaderName(f);
    HeaderKind(f);
  }
}

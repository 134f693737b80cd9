/** The untar state machine: 512-byte blocks, octal fields, checksums. */
module Tar {
  import opened Bytes
  import opened Numbers

  const BLOCK := 512
  const INT: int := 0x1_0000_0000
  const TIME: int := 0x1_0000_0000_0000_0000

  const MODE_OFF := 100
  const OCTAL_OFF := MODE_OFF + 3
  const UID_OFF := 108
  const GID_OFF := 116
  const SIZE_OFF := 124
  const MTIME_OFF := 136
  const CHKSUM_OFF := 148
  const TYPEFLAG_OFF := 156
  const LINKNAME_OFF := 157

  const LNKTYPE: Byte := 49
  const SYMTYPE: Byte := 50
  const CHRTYPE: Byte := 51
  const BLKTYPE: Byte := 52
  const DIRTYPE: Byte := 53
  const FIFOTYPE: Byte := 54

  type Block = b: seq<Byte> | |b| == 512 witness seq(512, _ => 0)

  predicate IsOctal(c: Byte) {
    48 <= c <= 55
  }

  /** Where the digits of an octal field of n bytes at p start */
  function OctalStart(b: seq<Byte>, p: nat, n: nat): (r: nat)
    requires p + n < |b|
    ensures p <= r <= p + n
    decreases n
  {
    if !IsOctal(b[p]) && n > 0 then OctalStart(b, p + 1, n - 1) else p
  }

  /** The digits from p on, up to n of them, on top of what has been read */
  function OctalRun(b: seq<Byte>, p: nat, n: nat, acc: int, modulus: int): int
    requires p + n < |b| && modulus > 0
    decreases n
  {
    if IsOctal(b[p]) && n > 0 then OctalRun(b, p + 1, n - 1, ToSigned(acc * 8 + (b[p] - 48), modulus), modulus) else acc
  }

  /** parseoct and parsetime: an octal field of n bytes at p, in 32 or 64 bits */
  function ParseOct(b: seq<Byte>, p: nat, n: nat, modulus: int): int
    requires p + n < |b| && modulus > 0
  {
    var s := OctalStart(b, p, n);
    OctalRun(b, s, p + n - s, 0, modulus)
  }

  method Parseoct(b: seq<Byte>, p0: nat, n0: nat, modulus: int) returns (i: int)
    requires p0 + n0 < |b| && modulus > 0
    ensures i == ParseOct(b, p0, n0, modulus)
  {
    i := 0;
    var p, n := p0, n0;
    while !IsOctal(b[p]) && n > 0
      invariant 0 <= p && 0 <= n && p + n == p0 + n0
      invariant OctalStart(b, p0, n0) == OctalStart(b, p, n)
    {
      p := p + 1;
      n := n - 1;
    }
    while IsOctal(b[p]) && n > 0
      invariant 0 <= p && 0 <= n && p + n == p0 + n0
      invariant ParseOct(b, p0, n0, modulus) == OctalRun(b, p, n, i, modulus)
    {
      i := ToSigned(i * 8 + (b[p] - 48), modulus);
      p := p + 1;
      n := n - 1;
    }
  }

  method ArchiveEnd(b: Block) returns (end: bool)
    ensures end <==> forall n :: 0 <= n < BLOCK ==> b[n] == 0
  {
    var n := BLOCK - 1;
    while n >= 0
      invariant -1 <= n < BLOCK
      invariant forall k :: n < k < BLOCK ==> b[k] == 0
    {
      if b[n] != 0 {
        return false;
      }
      n := n - 1;
    }
    return true;
  }

  predicate IsZero(b: Block) {
    forall n :: 0 <= n < BLOCK ==> b[n] == 0
  }

  function Sum(b: seq<Byte>): nat {
    if b == [] then 0 else Sum(b[..|b| - 1]) + b[|b| - 1]
  }

  /** The sum of the header, with its checksum field taken as spaces */
  function Checksum(b: Block): nat {
    Sum(b[..CHKSUM_OFF]) + 8 * 0x20 + Sum(b[CHKSUM_OFF + 8..])
  }

  predicate ChecksumOk(b: Block) {
    Checksum(b) == ParseOct(b, CHKSUM_OFF, 8, INT)
  }

  method VerifyChecksum(b: Block) returns (ok: bool)
    ensures ok <==> ChecksumOk(b)
  {
    var u: nat := 0;
    for n := 0 to BLOCK
      invariant u == Sum(b[..if n < CHKSUM_OFF then n else CHKSUM_OFF])
        + 0x20 * (if n < CHKSUM_OFF then 0 else if n < CHKSUM_OFF + 8 then n - CHKSUM_OFF else 8)
        + Sum(b[CHKSUM_OFF + 8..if n < CHKSUM_OFF + 8 then CHKSUM_OFF + 8 else n])
    {
      if n < CHKSUM_OFF {
        assert b[..n + 1][..n] == b[..n];
        u := u + b[n];
      } else if n > CHKSUM_OFF + 7 {
        assert b[CHKSUM_OFF + 8..n + 1][..n - CHKSUM_OFF - 8] == b[CHKSUM_OFF + 8..n];
        u := u + b[n];
      } else {
        u := u + 0x20;
      }
    }
    assert b[CHKSUM_OFF + 8..BLOCK] == b[CHKSUM_OFF + 8..];
    var stored := Parseoct(b, CHKSUM_OFF, 8, INT);
    return u == stored;
  }

  // Names

  function StripSlashes(s: seq<Byte>): (r: seq<Byte>)
    ensures |r| <= |s| && (r != [] ==> r[|r| - 1] != 47)
  {
    if s != [] && s[|s| - 1] == 47 then StripSlashes(s[..|s| - 1]) else s
  }

  function LastComponent(s: seq<Byte>): seq<Byte> {
    if s == [] || s[|s| - 1] == 47 then [] else LastComponent(s[..|s| - 1]) + [s[|s| - 1]]
  }

  /** basename, as POSIX has it */
  function Basename(path: seq<Byte>): seq<Byte> {
    if path == [] then [46]
    else if StripSlashes(path) == [] then [47]
    else LastComponent(StripSlashes(path))
  }

  const DS_STORE: seq<Byte> := [46, 68, 83, 95, 83, 116, 111, 114, 101]
  const MACOSX: seq<Byte> := [95, 95, 77, 65, 67, 79, 83, 88]

  predicate Filtered(path: seq<Byte>) {
    Basename(path) == DS_STORE || Basename(path) == MACOSX
  }

  // What an extraction does

  datatype Event =
    | MakeDirectory(name: seq<Byte>, mode: int, uid: int, gid: int)
    | MakeLink(name: seq<Byte>, target: seq<Byte>, symbolic: bool, mtime: int)
    | MakeFile(name: seq<Byte>, mode: int, uid: int, gid: int, mtime: int, data: seq<Byte>, whole: bool)

  /** Why an extraction stops */
  datatype Outcome = ArchiveEnded | ShortRead | ChecksumFailure | FilteredName | ShortData

  /** Whether the file of the entry at a position can be created, and whether its k-th block can be written. */
  datatype Disk = Disk(creates: nat -> bool, writes: (nat, nat) -> bool)

  datatype Extraction = Extraction(events: seq<Event>, outcome: Outcome)

  /** parsemode at the last four mode digits: the digits that strtol finds there, cast to a 16-bit mode_t */
  function ModeOf(b: Block): int {
    OctalRun(b, OCTAL_OFF, BLOCK - OCTAL_OFF - 1, 0, TIME) % 0x1_0000
  }

  /** The data of one entry: what is written, whether the file is still open, and how many bytes are left unread. */
  datatype Copied = Copied(data: seq<Byte>, open: bool, pos: nat, left: int)

  /** The inner loop: size bytes in whole blocks from pos, of which this is block k. */
  function CopyData(a: seq<Byte>, pos: nat, size: int, disk: Disk, entry: nat, k: nat, open: bool): (r: Copied)
    ensures pos <= r.pos
    ensures r.left <= 0 ==> r.pos <= Max(pos, |a|)
    decreases size
  {
    if size <= 0 then Copied([], open, pos, size)
    else if pos + BLOCK > |a| then Copied([], open, pos, size)
    else
      var n := if size < BLOCK then size else BLOCK;
      var ok := open && disk.writes(entry, k);
      var rest := CopyData(a, pos + BLOCK, size - n, disk, entry, k + 1, ok);
      rest.(data := (if ok then a[pos..pos + n] else []) + rest.data)
  }

  /** The events of an entry, given what became of its data */
  function EventsOf(b: Block, disk: Disk, entry: nat, copied: Copied): seq<Event> {
    var t := b[TYPEFLAG_OFF];
    var name := Until(b, 0);
    if t == LNKTYPE || t == SYMTYPE then 
      [MakeLink(name, Until(b[LINKNAME_OFF..LINKNAME_OFF + 100], 0), t == SYMTYPE, ParseOct(b, MTIME_OFF, 12, TIME))]
    else if t == CHRTYPE || t == BLKTYPE || t == FIFOTYPE then []
    else if t == DIRTYPE then [MakeDirectory(name, ModeOf(b), ParseOct(b, UID_OFF, 8, INT), ParseOct(b, GID_OFF, 8, INT))]
    else if !disk.creates(entry) then []
    else [MakeFile(name, ModeOf(b), ParseOct(b, UID_OFF, 8, INT), ParseOct(b, GID_OFF, 8, INT), ParseOct(b, MTIME_OFF, 12, TIME),
                   copied.data, copied.open && copied.left <= 0)]
  }

  predicate IsFileType(t: Byte) {
    !(LNKTYPE <= t <= FIFOTYPE)
  }

  function SizeOf(b: Block): int {
    if b[TYPEFLAG_OFF] == DIRTYPE then 0 else ParseOct(b, SIZE_OFF, 12, INT)
  }

  function CopyOf(a: seq<Byte>, pos: nat, b: Block, disk: Disk): Copied {
    CopyData(a, pos + BLOCK, SizeOf(b), disk, pos, 0, IsFileType(b[TYPEFLAG_OFF]) && disk.creates(pos))
  }

  /** The outer loop, from pos on */
  function Untar(a: seq<Byte>, pos: nat, disk: Disk): Extraction
    decreases |a| - pos
  {
    if pos + BLOCK > |a| then Extraction([], ShortRead)
    else
      var b: Block := a[pos..pos + BLOCK];
      if IsZero(b) then Extraction([], ArchiveEnded)
      else if !ChecksumOk(b) then Extraction([], ChecksumFailure)
      else if Filtered(Until(b, 0)) then Extraction([], FilteredName)
      else
        var copied := CopyOf(a, pos, b, disk);
        var events := EventsOf(b, disk, pos, copied);
        if copied.left > 0 then Extraction(events, ShortData)
        else
          var rest := Untar(a, copied.pos, disk);
          rest.(events := events + rest.events)
  }

  function Behind(data: seq<Byte>, rest: Copied): Copied {
    rest.(data := data + rest.data)
  }

  lemma CopyOneBlock(a: seq<Byte>, pos: nat, size: int, disk: Disk, entry: nat, k: nat, open: bool, data: seq<Byte>)
    ensures size > 0 && pos + BLOCK <= |a| ==>
      var n := if size < BLOCK then size else BLOCK;
      var ok := open && disk.writes(entry, k);
      Behind(data, CopyData(a, pos, size, disk, entry, k, open))
      == Behind(if ok then data + a[pos..pos + n] else data, CopyData(a, pos + BLOCK, size - n, disk, entry, k + 1, ok))
    ensures size <= 0 || pos + BLOCK > |a| ==>
      Behind(data, CopyData(a, pos, size, disk, entry, k, open)) == Copied(data, open, pos, size)
  {
    if size > 0 && pos + BLOCK <= |a| {
      var n := if size < BLOCK then size else BLOCK;
      var ok := open && disk.writes(entry, k);
      var rest := CopyData(a, pos + BLOCK, size - n, disk, entry, k + 1, ok);
      var chunk := if ok then a[pos..pos + n] else [];
      assert data + (chunk + rest.data) == (data + chunk) + rest.data;
      assert data + [] == data;
    } else {
      assert data + [] == data;
    }
  }

  /** The inner loop of untar */
  method CopyBlocks(a: seq<Byte>, pos0: nat, size: int, disk: Disk, entry: nat, open0: bool) returns (copied: Copied)
    ensures copied == CopyData(a, pos0, size, disk, entry, 0, open0)
  {
    hide CopyData;
    var pos, filesize, open, data, k := pos0, size, open0, [], 0;
    assert forall r: Copied :: [] + r.data == r.data;
    while filesize > 0
      invariant 0 <= pos && 0 <= k
      invariant CopyData(a, pos0, size, disk, entry, 0, open0)
        == Behind(data, CopyData(a, pos, filesize, disk, entry, k, open))
    {
      CopyOneBlock(a, pos, filesize, disk, entry, k, open, data);
      if |a| - pos < BLOCK {
        return Copied(data, open, pos, filesize);
      }
      var bytesRead := BLOCK;
      if filesize < BLOCK {
        bytesRead := filesize;
      }
      if open {
        if disk.writes(entry, k) {
          data := data + a[pos..pos + bytesRead];
        } else {
          open := false;
        }
      }
      pos := pos + BLOCK;
      k := k + 1;
      filesize := filesize - bytesRead;
    }
    CopyOneBlock(a, pos, filesize, disk, entry, k, open, data);
    return Copied(data, open, pos, filesize);
  }

  method UntarFile(a: seq<Byte>, disk: Disk) returns (events: seq<Event>, outcome: Outcome)
    ensures Extraction(events, outcome) == Untar(a, 0, disk)
  {
    hide CopyData, Until, Filtered, ChecksumOk, IsZero, EventsOf, ParseOct, Untar;
    events := [];
    var pos := 0;
    while true
      invariant 0 <= pos
      invariant var rest := Untar(a, pos, disk);
        Untar(a, 0, disk) == rest.(events := events + rest.events)
      decreases |a| - pos
    {
      UntarTurn(a, pos, disk);
      if |a| - pos < BLOCK {
        assert events + [] == events;
        return events, ShortRead;
      }
      var b: Block := a[pos..pos + BLOCK];
      var end := ArchiveEnd(b);
      IsZeroIs(b);
      if end {
        return events, ArchiveEnded;
      }
      var ok := VerifyChecksum(b);
      if !ok {
        return events, ChecksumFailure;
      }
      if Filtered(Until(b, 0)) {
        return events, FilteredName;
      }
      var filesize := Parseoct(b, SIZE_OFF, 12, INT);
      var open := false;
      if b[TYPEFLAG_OFF] == DIRTYPE {
        filesize := 0;
      } else if IsFileType(b[TYPEFLAG_OFF]) {
        open := disk.creates(pos);
      }
      var copied := CopyBlocks(a, pos + BLOCK, filesize, disk, pos, open);
      events := events + EventsOf(b, disk, pos, copied);
      if copied.left > 0 {
        return events, ShortData;
      }
      pos := copied.pos;
    }
  }

  /** One turn of the outer loop */
  lemma UntarTurn(a: seq<Byte>, pos: nat, disk: Disk)
    ensures pos + BLOCK > |a| ==> Untar(a, pos, disk) == Extraction([], ShortRead)
    ensures pos + BLOCK <= |a| ==>
      var b: Block := a[pos..pos + BLOCK];
      var copied := CopyOf(a, pos, b, disk);
      var events := EventsOf(b, disk, pos, copied);
      Untar(a, pos, disk) ==
        if IsZero(b) then Extraction([], ArchiveEnded)
        else if !ChecksumOk(b) then Extraction([], ChecksumFailure)
        else if Filtered(Until(b, 0)) then Extraction([], FilteredName)
        else if copied.left > 0 then Extraction(events, ShortData)
        else
          var rest := Untar(a, copied.pos, disk);
          rest.(events := events + rest.events)
  {
    hide CopyOf, Until, Filtered, ChecksumOk, IsZero, EventsOf;
  }

  lemma IsZeroIs(b: Block)
    ensures IsZero(b) <==> forall n :: 0 <= n < BLOCK ==> b[n] == 0
  {
  }
}

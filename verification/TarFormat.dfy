/**
The ustar format, IEEE Std 1003.1-1990 section 10.1.1, as an encoder: headers of 512 bytes with octal
fields, and data in whole blocks.
 */
module TarFormat {
  import opened Bytes
  import opened Numbers
  import opened Tar

  /**
  A path is kept in two fields: a name, and in front of it a prefix, which may be empty. A file has any type
  but those of the other entries: '0', NUL, '7', and what later versions have added.
   */
  datatype Entry =
    | DirectoryEntry(prefix: seq<Byte>, name: seq<Byte>, mode: nat, uid: nat, gid: nat)
    | FileEntry(prefix: seq<Byte>, name: seq<Byte>, mode: nat, uid: nat, gid: nat, mtime: nat, kind: Byte, data: seq<Byte>)
    | LinkEntry(prefix: seq<Byte>, name: seq<Byte>, mode: nat, uid: nat, gid: nat, mtime: nat, target: seq<Byte>, symbolic: bool)
    | SpecialEntry(prefix: seq<Byte>, name: seq<Byte>, mode: nat, uid: nat, gid: nat, mtime: nat, kind: Byte)

  /** '1' for a hard link, '2' for a symbolic one, '3' and '4' for devices, '5' for a directory, '6' for a fifo. */
  function TypeFlag(e: Entry): Byte {
    match e
    case DirectoryEntry(_, _, _, _, _) => 53
    case LinkEntry(_, _, _, _, _, _, _, symbolic) => if symbolic then 50 else 49
    case _ => e.kind
  }

  const SLASH: Byte := 47

  /** The path of an entry: prefix, slash and name, or the name alone */
  function PathOf(e: Entry): seq<Byte> {
    if e.prefix == [] then e.name else e.prefix + [SLASH] + e.name
  }

  function Pow8(k: nat): (p: nat)
    ensures p > 0
  {
    if k == 0 then 1 else 8 * Pow8(k - 1)
  }

  /** k octal digits */
  function Octal(n: nat, k: nat): (r: seq<Byte>)
    ensures |r| == k && forall i :: 0 <= i < k ==> IsOctal(r[i])
  {
    if k == 0 then [] else Octal(n / 8, k - 1) + [48 + n % 8]
  }

  function Zeros(n: nat): (r: seq<Byte>)
    ensures |r| == n && forall i :: 0 <= i < n ==> r[i] == 0
  {
    seq(n, _ => 0)
  }

  /** The fields of an entry are in the range their octal fields have. */
  predicate EntryOk(e: Entry) {
    && 0 < |e.name| <= 100 && 0 !in e.name && |e.prefix| <= 155 && 0 !in e.prefix
    && e.mode < Pow8(4) && e.uid < Pow8(7) && e.gid < Pow8(7)
    && (!e.DirectoryEntry? ==> e.mtime < Pow8(11))
    && (e.FileEntry? ==> |e.data| < 0x8000_0000 && !(49 <= e.kind <= 54))
    && (e.LinkEntry? ==> |e.target| <= 100 && 0 !in e.target)
    && (e.SpecialEntry? ==> e.kind == 51 || e.kind == 52 || e.kind == 54)
  }

  function NameField(e: Entry): (r: seq<Byte>)
    requires EntryOk(e)
    ensures |r| == 100
  {
    e.name + Zeros(100 - |e.name|)
  }

  function SizeField(e: Entry): nat {
    if e.FileEntry? then |e.data| else 0
  }

  function TimeField(e: Entry): nat {
    if e.DirectoryEntry? then 0 else e.mtime
  }

  /** name, mode, uid, gid, size and mtime: the 148 bytes in front of the checksum */
  function Front(e: Entry): (r: seq<Byte>)
    requires EntryOk(e)
    ensures |r| == 148
  {
    NameField(e) + (Octal(e.mode, 7) + [0]) + (Octal(e.uid, 7) + [0]) + (Octal(e.gid, 7) + [0])
    + (Octal(SizeField(e), 11) + [0]) + (Octal(TimeField(e), 11) + [0])
  }

  function LinkField(e: Entry): (r: seq<Byte>)
    requires EntryOk(e)
    ensures |r| == 100
  {
    if e.LinkEntry? then e.target + Zeros(100 - |e.target|) else Zeros(100)
  }

  const MAGIC: seq<Byte> := [117, 115, 116, 97, 114, 0, 48, 48]

  /** typeflag, linkname, magic and version, owner names, device numbers, prefix, and the rest of the block */
  function Back(e: Entry): (r: seq<Byte>)
    requires EntryOk(e)
    ensures |r| == 356
  {
    [TypeFlag(e)] + LinkField(e) + MAGIC + Zeros(32 + 32 + 8 + 8)
    + e.prefix + Zeros(155 - |e.prefix|) + Zeros(12)
  }

  function HeaderSum(e: Entry): nat
    requires EntryOk(e)
  {
    Sum(Front(e)) + 8 * 0x20 + Sum(Back(e))
  }

  function Header(e: Entry): Block
    requires EntryOk(e)
  {
    Front(e) + (Octal(HeaderSum(e), 6) + [0, 0x20]) + Back(e)
  }

  function Blocks(n: nat): nat {
    (n + 511) / 512
  }

  /** A header block, then the data in whole blocks */
  function EncodeEntry(e: Entry): (r: seq<Byte>)
    requires EntryOk(e)
    ensures |r| == 512 * (1 + Blocks(SizeField(e)))
  {
    Header(e) + if e.FileEntry? then e.data + Zeros(512 * Blocks(|e.data|) - |e.data|) else []
  }

  function Encode(entries: seq<Entry>): seq<Byte>
    requires forall e :: e in entries ==> EntryOk(e)
  {
    if entries == [] then [] else EncodeEntry(entries[0]) + Encode(entries[1..])
  }

  // Reading octal fields back

  function Fold(acc: int, s: seq<Byte>): int {
    if s == [] then acc else Fold(acc, s[..|s| - 1]) * 8 + (s[|s| - 1] as int - 48)
  }

  lemma {:induction false} FoldOctal(n: nat, k: nat)
    requires n < Pow8(k)
    ensures Fold(0, Octal(n, k)) == n
  {
    if k > 0 {
      FoldOctal(n / 8, k - 1);
      assert Octal(n, k)[..k - 1] == Octal(n / 8, k - 1);
    }
  }

  lemma {:induction false} FoldBounds(acc: nat, s: seq<Byte>)
    requires forall i :: 0 <= i < |s| ==> IsOctal(s[i])
    ensures Fold(acc, s) >= acc
  {
    if s != [] {
      FoldBounds(acc, s[..|s| - 1]);
    }
  }

  lemma WrappedSmall(v: nat, modulus: int)
    requires 0 < modulus && 2 * v < modulus
    ensures ToSigned(v, modulus) == v
  {
  }

  /** Reading k digits that do not overflow */
  lemma {:induction false} RunThrough(b: seq<Byte>, p: nat, n: nat, k: nat, modulus: int)
    requires p + n < |b| && k <= n && 0 < modulus
    requires forall i :: p <= i < p + k ==> IsOctal(b[i])
    requires 2 * Fold(0, b[p..p + k]) < modulus
    ensures OctalRun(b, p, n, 0, modulus) == OctalRun(b, p + k, n - k, Fold(0, b[p..p + k]), modulus)
  {
    hide ToSigned;
    if k > 0 {
      var s := b[p..p + k];
      assert s[..k - 1] == b[p..p + k - 1];
      FoldBounds(0, s);
      FoldBounds(0, b[p..p + k - 1]);
      RunThrough(b, p, n, k - 1, modulus);
      WrappedSmall(Fold(0, s), modulus);
    }
  }

  /** A field of octal digits, ended by a byte that is none or by its own length, is read as its number. */
  lemma FieldReads(b: seq<Byte>, p: nat, n: nat, k: nat, v: nat, modulus: int)
    requires p + n < |b| && 0 < k <= n && v < Pow8(k) && 2 * v < modulus
    requires b[p..p + k] == Octal(v, k) && (k == n || !IsOctal(b[p + k]))
    ensures ParseOct(b, p, n, modulus) == v && OctalRun(b, p, n, 0, modulus) == v
  {
    hide ToSigned, Octal, Pow8;
    assert forall i :: p <= i < p + k ==> b[i] == b[p..p + k][i - p];
    FoldOctal(v, k);
    RunThrough(b, p, n, k, modulus);
    assert OctalStart(b, p, n) == p;
  }
}

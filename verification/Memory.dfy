/** memcpy and memmove: one copy loop that chooses its direction. */
module Memory {
  import opened Bytes

  /** mem with the n bytes from src on copied, all at once, to dst. */
  function Moved(mem: seq<Byte>, dst: nat, src: nat, n: nat): (r: seq<Byte>)
    requires dst + n <= |mem| && src + n <= |mem|
    ensures |r| == |mem|
  {
    mem[..dst] + mem[src..src + n] + mem[dst + n..]
  }

  /** Cell k is among those already written when `left` are still to go. */
  predicate Copied(dst: nat, src: nat, n: nat, left: int, k: int) {
    if dst > src then dst + left <= k < dst + n else dst <= k < dst + n - left
  }

  function Expected(was: seq<Byte>, dst: nat, src: nat, n: nat, left: int, k: int): Byte
    requires dst + n <= |was| && src + n <= |was| && 0 <= left <= n && 0 <= k < |was|
  {
    if Copied(dst, src, n, left, k) then was[src + k - dst] else was[k]
  }

  ghost predicate CopyInvariant(was: seq<Byte>, now: seq<Byte>, dst: nat, src: nat, n: nat, left: int)
    requires |was| == |now| && dst + n <= |was| && src + n <= |was| && 0 <= left <= n
  {
    forall k :: 0 <= k < |was| ==> now[k] == Expected(was, dst, src, n, left, k)
  }

  lemma CopyStep(was: seq<Byte>, now: seq<Byte>, dst: nat, src: nat, n: nat, left: int, pos: int)
    requires |was| == |now| && dst + n <= |was| && src + n <= |was| && 0 <= left < n
    requires CopyInvariant(was, now, dst, src, n, left + 1)
    requires pos == if dst > src then left else n - left - 1
    ensures CopyInvariant(was, now[dst + pos := now[src + pos]], dst, src, n, left)
  {
    assert !Copied(dst, src, n, left + 1, src + pos);
    assert now[src + pos] == was[src + pos];
    forall k | 0 <= k < |was|
      ensures now[dst + pos := now[src + pos]][k] == Expected(was, dst, src, n, left, k)
    {
      assert Copied(dst, src, n, left, k) <==> Copied(dst, src, n, left + 1, k) || k == dst + pos;
    }
  }

  lemma CopyDone(was: seq<Byte>, now: seq<Byte>, dst: nat, src: nat, n: nat)
    requires |was| == |now| && dst + n <= |was| && src + n <= |was|
    requires CopyInvariant(was, now, dst, src, n, 0)
    ensures now == Moved(was, dst, src, n)
  {
    forall k | 0 <= k < |was|
      ensures now[k] == Moved(was, dst, src, n)[k]
    {
      assert Copied(dst, src, n, 0, k) <==> dst <= k < dst + n;
    }
  }

  /** Both ranges lie in one array and may overlap either way; pos is an int in the source. */
  method Memcpy(mem: array<Byte>, dst: nat, src: nat, n: nat)
    requires dst + n <= mem.Length && src + n <= mem.Length && n <= 0x7fff_ffff
    modifies mem
    ensures mem[..] == Moved(old(mem[..]), dst, src, n)
  {
    hide CopyInvariant, Moved;
    ghost var was := mem[..];
    var pos, dir := 0, 1;
    if dst > src {
      dir := -1;
      pos := n - 1;
    }
    var left := n;
    NothingCopied(was, dst, src, n);
    while left > 0
      invariant 0 <= left <= n
      invariant dst > src ==> dir == -1 && pos == left - 1
      invariant dst <= src ==> dir == 1 && pos == n - left
      invariant CopyInvariant(was, mem[..], dst, src, n, left)
    {
      left := left - 1;
      CopyStep(was, mem[..], dst, src, n, left, pos);
      mem[dst + pos] := mem[src + pos];
      pos := pos + dir;
    }
    CopyDone(was, mem[..], dst, src, n);
  }

  lemma NothingCopied(was: seq<Byte>, dst: nat, src: nat, n: nat)
    requires dst + n <= |was| && src + n <= |was|
    ensures CopyInvariant(was, was, dst, src, n, n)
  {
  }

  method Memmove(mem: array<Byte>, dst: nat, src: nat, n: nat)
    requires dst + n <= mem.Length && src + n <= mem.Length && n <= 0x7fff_ffff
    modifies mem
    ensures mem[..] == Moved(old(mem[..]), dst, src, n)
  {
    Memcpy(mem, dst, src, n);
  }

  /** What the two directions come to, cell by cell. */
  lemma MovedCells(mem: seq<Byte>, dst: nat, src: nat, n: nat)
    requires dst + n <= |mem| && src + n <= |mem|
    ensures Moved(mem, dst, src, n)[dst..dst + n] == mem[src..src + n]
    ensures forall k :: 0 <= k < |mem| && !(dst <= k < dst + n) ==> Moved(mem, dst, src, n)[k] == mem[k]
  {
  }

  /** When the ranges do not meet, moving there and back again leaves the source as it was. */
  lemma MovedBack(mem: seq<Byte>, dst: nat, src: nat, n: nat)
    requires dst + n <= |mem| && src + n <= |mem| && (dst + n <= src || src + n <= dst)
    ensures Moved(Moved(mem, dst, src, n), src, dst, n) == Moved(mem, dst, src, n)
  {
    hide Moved;
    var m := Moved(mem, dst, src, n);
    MovedCells(mem, dst, src, n);
    MovedCells(m, src, dst, n);
    forall k | 0 <= k < |mem|
      ensures Moved(m, src, dst, n)[k] == m[k]
    {
      if src <= k < src + n {
        assert Moved(m, src, dst, n)[src..src + n][k - src] == m[dst..dst + n][k - src];
        assert m[dst..dst + n][k - src] == mem[src..src + n][k - src];
      }
    }
  }
}

/** Address translation in a Mach-O image, and the place the shellcode goes. */
module MachO {
  import opened Bits
  import opened Ranges
  import opened Wrappers

  datatype Section = Section(sectname: string, addr: DWord, size: DWord, offset: DWord, flags: Word)
  datatype Segment = Segment(segname: string, vmaddr: DWord, vmsize: DWord, fileoff: DWord, filesize: DWord, sections: seq<Section>)
  datatype Command = LcSegment(segment: Segment) | LcOther
  datatype Image = Image(commands: seq<Command>)

  /** What a lookup goes by: a virtual address, or a pointer into the file read at buf. */
  datatype Query = ByVa(addr: DWord) | ByPtr(buf: DWord, ptr: DWord)

  predicate SegmentMatches(q: Query, s: Segment) {
    match q
    case ByVa(a) => Inside(s.vmaddr, s.vmsize, a)
    case ByPtr(buf, p) => Inside((buf + s.fileoff) % WRAP, s.filesize, p)
  }

  predicate SectionMatches(q: Query, s: Section) {
    match q
    case ByVa(a) => Inside(s.addr, s.size, a)
    case ByPtr(buf, p) => Inside((buf + s.offset) % WRAP, s.size, p)
  }

  function FirstSegment(cs: seq<Command>, q: Query): Option<Segment> {
    if cs == [] then None
    else if cs[0].LcSegment? && SegmentMatches(q, cs[0].segment) then Some(cs[0].segment)
    else FirstSegment(cs[1..], q)
  }

  function FirstSection(ss: seq<Section>, q: Query): Option<Section> {
    if ss == [] then None
    else if SectionMatches(q, ss[0]) then Some(ss[0])
    else FirstSection(ss[1..], q)
  }

  /** macho_get_segment_for_va and macho_get_segment_for_ptr */
  method GetSegment(m: Image, q: Query) returns (r: Option<Segment>)
    ensures r == FirstSegment(m.commands, q)
  {
    for i := 0 to |m.commands|
      invariant FirstSegment(m.commands, q) == FirstSegment(m.commands[i..], q)
    {
      if m.commands[i].LcSegment? {
        var segment := m.commands[i].segment;
        if SegmentMatches(q, segment) {
          return Some(segment);
        }
      }
      assert m.commands[i..][1..] == m.commands[i + 1..];
    }
    return None;
  }

  /** macho_get_section_for_va and macho_get_section_for_ptr */
  method GetSection(segment: Segment, q: Query) returns (r: Option<Section>)
    ensures r == FirstSection(segment.sections, q)
  {
    for i := 0 to |segment.sections|
      invariant FirstSection(segment.sections, q) == FirstSection(segment.sections[i..], q)
    {
      if SectionMatches(q, segment.sections[i]) {
        return Some(segment.sections[i]);
      }
      assert segment.sections[i..][1..] == segment.sections[i + 1..];
    }
    return None;
  }

  /** macho_find_section_for_va and macho_find_section_for_ptr */
  function FindSection(m: Image, q: Query): Option<Section> {
    match FirstSegment(m.commands, q)
    case None => None
    case Some(segment) => FirstSection(segment.sections, q)
  }

  /** macho_va_to_ptr; None where the code dereferences a null section. */
  function VaToPtr(m: Image, buf: DWord, addr: DWord): Option<DWord> {
    match FindSection(m, ByVa(addr))
    case None => None
    case Some(section) => Some((buf + section.offset + (addr - section.addr)) % WRAP)
  }

  /** macho_ptr_to_va; None where the code dereferences a null section. */
  function PtrToVa(m: Image, buf: DWord, ptr: DWord): Option<DWord> {
    match FindSection(m, ByPtr(buf, ptr))
    case None => None
    case Some(section) => Some((section.addr + (ptr - buf - section.offset)) % WRAP)
  }

  // A well-formed image: nested and disjoint, in memory and, where it is backed by the file, there.

  /** The section types without contents in the file: zero-fill, large zero-fill, and thread-local zero-fill. */
  predicate ZeroFill(s: Section) {
    s.flags & 0xff == 0x1 || s.flags & 0xff == 0xc || s.flags & 0xff == 0x12
  }

  ghost predicate SectionNested(g: Segment, s: Section, buf: DWord) {
    && g.vmaddr <= s.addr && s.addr + s.size <= g.vmaddr + g.vmsize && buf + s.offset + s.size < WRAP
    && (!ZeroFill(s) ==> g.fileoff <= s.offset && s.offset + s.size <= g.fileoff + g.filesize)
  }

  ghost predicate SegmentOk(g: Segment, buf: DWord) {
    && g.vmaddr + g.vmsize < WRAP
    && buf + g.fileoff + g.filesize < WRAP
    && (forall i :: 0 <= i < |g.sections| ==> SectionNested(g, g.sections[i], buf))
    && (forall i, j :: 0 <= i < j < |g.sections| ==> SectionsApart(g.sections[i], g.sections[j]))
  }

  /** s is listed before t. Behind the sections that are in the file, zero-fill sections may have any offset. */
  ghost predicate SectionsApart(s: Section, t: Section) {
    Apart(s.addr, s.size, t.addr, t.size) && (!ZeroFill(t) ==> Apart(s.offset, s.size, t.offset, t.size))
  }

  ghost predicate SegmentsApart(g: Segment, h: Segment) {
    Apart(g.vmaddr, g.vmsize, h.vmaddr, h.vmsize) && Apart(g.fileoff, g.filesize, h.fileoff, h.filesize)
  }

  ghost predicate WellFormed(m: Image, buf: DWord) {
    && (forall i :: 0 <= i < |m.commands| && m.commands[i].LcSegment? ==> SegmentOk(m.commands[i].segment, buf))
    && (forall i, j :: 0 <= i < j < |m.commands| && m.commands[i].LcSegment? && m.commands[j].LcSegment? ==>
          SegmentsApart(m.commands[i].segment, m.commands[j].segment))
  }

  ghost predicate IsSection(m: Image, i: nat, j: nat) {
    i < |m.commands| && m.commands[i].LcSegment? && j < |m.commands[i].segment.sections|
  }

  /** The address is one of the section's, or the pointer points to where the section's contents would be. */
  predicate Has(q: Query, s: Section) {
    match q
    case ByVa(a) => s.addr <= a < s.addr + s.size
    case ByPtr(buf, p) => buf + s.offset <= p < buf + s.offset + s.size
  }

  /** The same for the memory and the file part of a segment. */
  predicate SegmentHas(q: Query, g: Segment) {
    match q
    case ByVa(a) => g.vmaddr <= a < g.vmaddr + g.vmsize
    case ByPtr(buf, p) => buf + g.fileoff <= p < buf + g.fileoff + g.filesize
  }

  /** Section j of the segment in command i has q; a pointer needs contents in the file. */
  ghost predicate Covers(m: Image, q: Query, i: nat, j: nat) {
    && IsSection(m, i, j) && Has(q, m.commands[i].segment.sections[j])
    && (q.ByPtr? ==> !ZeroFill(m.commands[i].segment.sections[j]))
  }

  /**
  An image of the usual kind: sections at the start and at the end of their segments, next to each other, with
  contents in the file and, behind them, without.
   */
  lemma WellFormedSample(buf: DWord)
    requires buf < 0x8000_0000_0000_0000
    ensures var text := Segment("__TEXT", 0, 0x8000, 0, 0x8000,
        [Section("__text", 0, 0x4000, 0, 0x8000_0400), Section("__cstring", 0x4000, 0x4000, 0x4000, 2)]);
      var data := Segment("__DATA", 0x8000, 0x6000, 0x8000, 0x2000,
        [Section("__data", 0x8000, 0x2000, 0x8000, 0), Section("__bss", 0xa000, 0x1000, 0, 1),
         Section("__thread_bss", 0xb000, 0x1000, 0, 0x12), Section("__large", 0xc000, 0x2000, 0, 0xc)]);
      && WellFormed(Image([LcOther, LcSegment(text), LcSegment(data)]), buf)
      && (forall i :: 0 <= i < 4 ==> (ZeroFill(data.sections[i]) <==> i > 0)) && !ZeroFill(text.sections[0])
      && !ZeroFill(text.sections[1])
  {
  }

  /** The tests that the code makes are for these intervals. */
  lemma SectionMatchesHas(q: Query, buf: DWord, g: Segment, s: Section)
    requires SegmentOk(g, buf) && SectionNested(g, s, buf) && (q.ByPtr? ==> q.buf == buf)
    ensures SectionMatches(q, s) <==> Has(q, s)
  {
    hide Inside, ZeroFill;
    match q
    case ByVa(a) => InsidePlain(s.addr, s.size, a);
    case ByPtr(_, p) => InsidePlain(buf + s.offset, s.size, p);
  }

  lemma SegmentMatchesHas(q: Query, buf: DWord, g: Segment)
    requires SegmentOk(g, buf) && (q.ByPtr? ==> q.buf == buf)
    ensures SegmentMatches(q, g) <==> SegmentHas(q, g)
  {
    hide Inside, ZeroFill;
    match q
    case ByVa(a) => InsidePlain(g.vmaddr, g.vmsize, a);
    case ByPtr(_, p) => InsidePlain(buf + g.fileoff, g.filesize, p);
  }

  lemma {:induction false} OnlySegment(cs: seq<Command>, q: Query, k: nat)
    requires k < |cs| && cs[k].LcSegment? && SegmentMatches(q, cs[k].segment)
    requires forall i :: 0 <= i < k && cs[i].LcSegment? ==> !SegmentMatches(q, cs[i].segment)
    ensures FirstSegment(cs, q) == Some(cs[k].segment)
  {
    if k > 0 {
      OnlySegment(cs[1..], q, k - 1);
    }
  }

  lemma {:induction false} OnlySection(ss: seq<Section>, q: Query, k: nat)
    requires k < |ss| && SectionMatches(q, ss[k])
    requires forall i :: 0 <= i < k ==> !SectionMatches(q, ss[i])
    ensures FirstSection(ss, q) == Some(ss[k])
  {
    if k > 0 {
      OnlySection(ss[1..], q, k - 1);
    }
  }

  lemma SegmentMiss(q: Query, buf: DWord, g: Segment, h: Segment)
    requires SegmentsApart(g, h) && SegmentHas(q, h)
    ensures !SegmentHas(q, g)
  {
  }

  lemma SectionInside(q: Query, buf: DWord, g: Segment, s: Section)
    requires SectionNested(g, s, buf) && (q.ByPtr? ==> !ZeroFill(s))
    requires Has(q, s)
    ensures SegmentHas(q, g)
  {
    hide ZeroFill;
  }

  lemma SectionMiss(q: Query, buf: DWord, s: Section, t: Section)
    requires (q.ByPtr? ==> !ZeroFill(t)) && SectionsApart(s, t) && Has(q, t)
    ensures !Has(q, s)
  {
    hide ZeroFill;
  }

  /** In a well-formed image the lookup finds the one section that covers the query. */
  lemma CoverFound(m: Image, buf: DWord, q: Query, i: nat, j: nat)
    requires WellFormed(m, buf) && Covers(m, q, i, j) && (q.ByPtr? ==> q.buf == buf)
    ensures FindSection(m, q) == Some(m.commands[i].segment.sections[j])
  {
    hide SegmentMatches, SectionMatches, SectionNested, SegmentsApart, SectionsApart, ZeroFill, Has, SegmentHas;
    var g := m.commands[i].segment;
    SectionInside(q, buf, g, g.sections[j]);
    forall k | 0 <= k < j
      ensures !Has(q, g.sections[k])
    {
      SectionMiss(q, buf, g.sections[k], g.sections[j]);
    }
    FirstMatch(m, buf, q, i, j);
  }

  /** The first section of its segment that has q, in the segment that has q. */
  lemma FirstMatch(m: Image, buf: DWord, q: Query, i: nat, j: nat)
    requires WellFormed(m, buf) && IsSection(m, i, j) && (q.ByPtr? ==> q.buf == buf)
    requires SegmentHas(q, m.commands[i].segment) && Has(q, m.commands[i].segment.sections[j])
    requires forall k :: 0 <= k < j ==> !Has(q, m.commands[i].segment.sections[k])
    ensures FindSection(m, q) == Some(m.commands[i].segment.sections[j])
  {
    hide SegmentMatches, SectionMatches, SectionNested, SegmentsApart, SectionsApart, ZeroFill, Has, SegmentHas;
    var g := m.commands[i].segment;
    SegmentMatchesHas(q, buf, g);
    forall k | 0 <= k < i && m.commands[k].LcSegment?
      ensures !SegmentMatches(q, m.commands[k].segment)
    {
      SegmentMiss(q, buf, m.commands[k].segment, g);
      SegmentMatchesHas(q, buf, m.commands[k].segment);
    }
    OnlySegment(m.commands, q, i);
    forall k | 0 <= k <= j
      ensures SectionMatches(q, g.sections[k]) <==> Has(q, g.sections[k])
    {
      SectionMatchesHas(q, buf, g, g.sections[k]);
    }
    OnlySection(g.sections, q, j);
  }

  /** Where no section has q, nothing is found. */
  lemma NothingFound(m: Image, buf: DWord, q: Query)
    requires WellFormed(m, buf) && (q.ByPtr? ==> q.buf == buf)
    requires forall i: nat, j: nat :: IsSection(m, i, j) ==> !Has(q, m.commands[i].segment.sections[j])
    ensures FindSection(m, q) == None
  {
    hide SegmentMatches, SectionMatches, SegmentsApart, SectionsApart, ZeroFill, SectionNested, Has;
    if FindSection(m, q).Some? {
      var i := SegmentFound(m.commands, q);
      var j := SectionFound(m.commands[i].segment.sections, q);
      SectionMatchesHas(q, buf, m.commands[i].segment, m.commands[i].segment.sections[j]);
    }
  }

  /** Every address in a section of the file has a pointer, and the pointer leads back to it. */
  lemma VaPtrVa(m: Image, buf: DWord, addr: DWord, i: nat, j: nat)
    requires WellFormed(m, buf) && Covers(m, ByVa(addr), i, j) && !ZeroFill(m.commands[i].segment.sections[j])
    ensures var s := m.commands[i].segment.sections[j]; VaToPtr(m, buf, addr) == Some(buf + s.offset + (addr - s.addr))
    ensures Covers(m, ByPtr(buf, VaToPtr(m, buf, addr).value), i, j)
    ensures PtrToVa(m, buf, VaToPtr(m, buf, addr).value) == Some(addr)
  {
    hide SectionsApart, SegmentsApart, FindSection, ZeroFill;
    var s := m.commands[i].segment.sections[j];
    assert SectionNested(m.commands[i].segment, s, buf);
    CoverFound(m, buf, ByVa(addr), i, j);
    CoverFound(m, buf, ByPtr(buf, buf + s.offset + (addr - s.addr)), i, j);
  }

  /** Every pointer into a section of the file has an address, and the address leads back to it. */
  lemma PtrVaPtr(m: Image, buf: DWord, ptr: DWord, i: nat, j: nat)
    requires WellFormed(m, buf) && Covers(m, ByPtr(buf, ptr), i, j)
    ensures var s := m.commands[i].segment.sections[j]; PtrToVa(m, buf, ptr) == Some(s.addr + (ptr - buf - s.offset))
    ensures Covers(m, ByVa(PtrToVa(m, buf, ptr).value), i, j)
    ensures VaToPtr(m, buf, PtrToVa(m, buf, ptr).value) == Some(ptr)
  {
    hide SectionsApart, SegmentsApart, FindSection, ZeroFill;
    var s := m.commands[i].segment.sections[j];
    assert SectionNested(m.commands[i].segment, s, buf);
    CoverFound(m, buf, ByPtr(buf, ptr), i, j);
    CoverFound(m, buf, ByVa(s.addr + (ptr - buf - s.offset)), i, j);
  }

  /** The start of a section, zero-fill or not, is where the file has its start. */
  lemma SectionStart(m: Image, buf: DWord, i: nat, j: nat)
    requires WellFormed(m, buf) && IsSection(m, i, j) && m.commands[i].segment.sections[j].size > 0
    ensures var s := m.commands[i].segment.sections[j]; VaToPtr(m, buf, s.addr) == Some(buf + s.offset)
  {
    hide SectionsApart, SegmentsApart, FindSection, ZeroFill;
    var s := m.commands[i].segment.sections[j];
    assert SectionNested(m.commands[i].segment, s, buf);
    CoverFound(m, buf, ByVa(s.addr), i, j);
  }

  // Addresses without contents in the file.

  lemma {:induction false} SegmentFound(cs: seq<Command>, q: Query) returns (k: nat)
    requires FirstSegment(cs, q).Some?
    ensures k < |cs| && cs[k].LcSegment? && FirstSegment(cs, q) == Some(cs[k].segment) && SegmentMatches(q, cs[k].segment)
  {
    if cs[0].LcSegment? && SegmentMatches(q, cs[0].segment) {
      k := 0;
    } else {
      k := SegmentFound(cs[1..], q);
      k := k + 1;
    }
  }

  lemma {:induction false} SectionFound(ss: seq<Section>, q: Query) returns (k: nat)
    requires FirstSection(ss, q).Some?
    ensures k < |ss| && FirstSection(ss, q) == Some(ss[k]) && SectionMatches(q, ss[k])
    ensures forall i :: 0 <= i < k ==> !SectionMatches(q, ss[i])
  {
    if SectionMatches(q, ss[0]) {
      k := 0;
    } else {
      k := SectionFound(ss[1..], q);
      k := k + 1;
    }
  }

  /** No address is in two sections. */
  lemma SameSection(m: Image, buf: DWord, addr: DWord, i: nat, j: nat, i': nat, j': nat)
    requires WellFormed(m, buf) && Covers(m, ByVa(addr), i, j) && Covers(m, ByVa(addr), i', j')
    ensures i == i' && j == j'
  {
    hide ZeroFill, Has, SegmentHas, SegmentsApart, SectionsApart, SectionNested;
    SectionInside(ByVa(addr), buf, m.commands[i].segment, m.commands[i].segment.sections[j]);
    SectionInside(ByVa(addr), buf, m.commands[i'].segment, m.commands[i'].segment.sections[j']);
    if i < i' {
      SegmentMiss(ByVa(addr), buf, m.commands[i].segment, m.commands[i'].segment);
    } else if i' < i {
      SegmentMiss(ByVa(addr), buf, m.commands[i'].segment, m.commands[i].segment);
    } else if j < j' {
      var g := m.commands[i].segment;
      SectionMiss(ByVa(addr), buf, g.sections[j], g.sections[j']);
    } else if j' < j {
      var g := m.commands[i].segment;
      SectionMiss(ByVa(addr), buf, g.sections[j'], g.sections[j]);
    }
  }

  /** The place of the section that a pointer lookup finds */
  lemma PtrFound(m: Image, buf: DWord, ptr: DWord) returns (i: nat, j: nat)
    requires WellFormed(m, buf) && FindSection(m, ByPtr(buf, ptr)).Some?
    ensures IsSection(m, i, j) && FindSection(m, ByPtr(buf, ptr)) == Some(m.commands[i].segment.sections[j])
    ensures ComesBack(m.commands[i].segment, j, buf, ptr) && Has(ByPtr(buf, ptr), m.commands[i].segment.sections[j])
  {
    hide SegmentMatches, SectionMatches, SegmentHas, Has, SectionNested, SectionsApart, SegmentsApart, ZeroFill;
    i := SegmentFound(m.commands, ByPtr(buf, ptr));
    var g := m.commands[i].segment;
    j := SectionFound(g.sections, ByPtr(buf, ptr));
    SegmentMatchesHas(ByPtr(buf, ptr), buf, g);
    forall k | 0 <= k <= j
      ensures SectionMatches(ByPtr(buf, ptr), g.sections[k]) <==> Has(ByPtr(buf, ptr), g.sections[k])
    {
      SectionMatchesHas(ByPtr(buf, ptr), buf, g, g.sections[k]);
    }
  }

  /** What the code makes of an address in section j of the segment in command i, contents or not */
  function Placed(m: Image, buf: DWord, addr: DWord, i: nat, j: nat): int
    requires IsSection(m, i, j)
  {
    var s := m.commands[i].segment.sections[j];
    buf + s.offset + (addr - s.addr)
  }

  /** The pointer is inside the file part of the segment, and no section in front of section j has it, too. */
  predicate ComesBack(g: Segment, j: nat, buf: DWord, ptr: DWord)
    requires j < |g.sections|
  {
    SegmentHas(ByPtr(buf, ptr), g) && forall k :: 0 <= k < j ==> !Has(ByPtr(buf, ptr), g.sections[k])
  }

  /** A section that has a pointer has its address there. */
  lemma AddressInside(m: Image, buf: DWord, ptr: DWord, i: nat, j: nat)
    requires WellFormed(m, buf) && IsSection(m, i, j) && Has(ByPtr(buf, ptr), m.commands[i].segment.sections[j])
    ensures var s := m.commands[i].segment.sections[j];
      var a := s.addr + (ptr - buf - s.offset);
      0 <= a < WRAP && Covers(m, ByVa(a), i, j)
  {
    hide ZeroFill, SegmentsApart, SectionsApart;
    assert SectionNested(m.commands[i].segment, m.commands[i].segment.sections[j], buf);
  }

  /** The pointer of an address is where the section would have it. */
  lemma PointerInside(m: Image, buf: DWord, addr: DWord, i: nat, j: nat)
    requires WellFormed(m, buf) && Covers(m, ByVa(addr), i, j)
    ensures 0 <= Placed(m, buf, addr, i, j) < WRAP
    ensures Has(ByPtr(buf, Placed(m, buf, addr, i, j)), m.commands[i].segment.sections[j])
  {
    hide ZeroFill, SegmentsApart, SectionsApart;
    assert SectionNested(m.commands[i].segment, m.commands[i].segment.sections[j], buf);
  }

  /**
  The limit of the bijection. Every address in a section, zero-fill sections included, is given a pointer, as
  if the section had contents at its offset; it comes back from there exactly when the file part of its
  segment has that place, and no section listed earlier claims it.
   */
  lemma ComesBackExact(m: Image, buf: DWord, addr: DWord, i: nat, j: nat)
    requires WellFormed(m, buf) && Covers(m, ByVa(addr), i, j)
    ensures 0 <= Placed(m, buf, addr, i, j) < WRAP && VaToPtr(m, buf, addr) == Some(Placed(m, buf, addr, i, j))
    ensures PtrToVa(m, buf, Placed(m, buf, addr, i, j)) == Some(addr)
      <==> ComesBack(m.commands[i].segment, j, buf, Placed(m, buf, addr, i, j))
  {
    hide ZeroFill, SegmentHas, SegmentsApart, SectionsApart, FindSection, WellFormed, Has;
    CoverFound(m, buf, ByVa(addr), i, j);
    PointerInside(m, buf, addr, i, j);
    var p := Placed(m, buf, addr, i, j);
    if ComesBack(m.commands[i].segment, j, buf, p) {
      FirstMatch(m, buf, ByPtr(buf, p), i, j);
    }
    if PtrToVa(m, buf, p) == Some(addr) {
      var i', j' := PtrFound(m, buf, p);
      AddressInside(m, buf, p, i', j');
      SameSection(m, buf, addr, i, j, i', j');
    }
  }

  /** So nothing in a zero-fill section at offset 0 comes back, unless its segment starts inside that many bytes of the file. */
  lemma ZeroFillLost(m: Image, buf: DWord, addr: DWord, i: nat, j: nat)
    requires WellFormed(m, buf) && Covers(m, ByVa(addr), i, j)
    requires var g := m.commands[i].segment; g.sections[j].offset == 0 && g.sections[j].size <= g.fileoff
    ensures VaToPtr(m, buf, addr) == Some(buf + (addr - m.commands[i].segment.sections[j].addr))
    ensures PtrToVa(m, buf, VaToPtr(m, buf, addr).value) != Some(addr)
  {
    hide WellFormed, ZeroFill, VaToPtr, PtrToVa;
    ComesBackExact(m, buf, addr, i, j);
  }

  // The shellcode region.

  /** macho_get_segment gives up at the first command that is not a segment. */
  function NamedSegment(cs: seq<Command>, name: string): Option<Segment> {
    if cs == [] || cs[0].LcOther? then None
    else if cs[0].segment.segname == name then Some(cs[0].segment)
    else NamedSegment(cs[1..], name)
  }

  function NamedSection(ss: seq<Section>, name: string): Option<Section> {
    if ss == [] then None
    else if ss[0].sectname == name then Some(ss[0])
    else NamedSection(ss[1..], name)
  }

  /** The first segment of that name, in front of all other commands */
  lemma {:induction false} NamedSegmentExact(cs: seq<Command>, name: string, g: Segment)
    ensures NamedSegment(cs, name) == Some(g) <==> exists k: nat :: IsNamedSegment(cs, name, g, k)
  {
    if k: nat :| IsNamedSegment(cs, name, g, k) {
      SegmentNamed(cs, name, g, k);
    }
    if NamedSegment(cs, name) == Some(g) {
      var k := WhichSegment(cs, name);
      assert IsNamedSegment(cs, name, g, k);
    }
  }

  predicate IsNamedSegment(cs: seq<Command>, name: string, g: Segment, k: nat) {
    && k < |cs| && cs[k] == LcSegment(g) && g.segname == name
    && forall i :: 0 <= i < k ==> cs[i].LcSegment? && cs[i].segment.segname != name
  }

  lemma {:induction false} SegmentNamed(cs: seq<Command>, name: string, g: Segment, k: nat)
    requires IsNamedSegment(cs, name, g, k)
    ensures NamedSegment(cs, name) == Some(g)
  {
    if k > 0 {
      SegmentNamed(cs[1..], name, g, k - 1);
    }
  }

  lemma {:induction false} WhichSegment(cs: seq<Command>, name: string) returns (k: nat)
    requires NamedSegment(cs, name).Some?
    ensures IsNamedSegment(cs, name, NamedSegment(cs, name).value, k)
  {
    if cs[0].segment.segname == name {
      k := 0;
    } else {
      k := WhichSegment(cs[1..], name);
      k := k + 1;
    }
  }

  predicate IsNamedSection(ss: seq<Section>, name: string, s: Section, k: nat) {
    k < |ss| && ss[k] == s && s.sectname == name && forall i :: 0 <= i < k ==> ss[i].sectname != name
  }

  /** The first section of that name */
  lemma NamedSectionExact(ss: seq<Section>, name: string, s: Section)
    ensures NamedSection(ss, name) == Some(s) <==> exists k: nat :: IsNamedSection(ss, name, s, k)
  {
    if k: nat :| IsNamedSection(ss, name, s, k) {
      SectionNamed(ss, name, s, k);
    }
    if NamedSection(ss, name) == Some(s) {
      var k := WhichSection(ss, name);
      assert IsNamedSection(ss, name, s, k);
    }
  }

  lemma {:induction false} SectionNamed(ss: seq<Section>, name: string, s: Section, k: nat)
    requires IsNamedSection(ss, name, s, k)
    ensures NamedSection(ss, name) == Some(s)
  {
    if k > 0 {
      SectionNamed(ss[1..], name, s, k - 1);
    }
  }

  lemma {:induction false} WhichSection(ss: seq<Section>, name: string) returns (k: nat)
    requires NamedSection(ss, name).Some?
    ensures IsNamedSection(ss, name, NamedSection(ss, name).value, k)
  {
    if ss[0].sectname == name {
      k := 0;
    } else {
      k := WhichSection(ss[1..], name);
      k := k + 1;
    }
  }

  /** get_shc_region, as an offset into the file */
  function ShcRegion(m: Image): Option<nat> {
    match NamedSegment(m.commands, "__TEXT")
    case None => None
    case Some(segment) =>
      match NamedSection(segment.sections, "__unwind_info")
      case None => None
      case Some(section) => Some(section.offset + section.size + HalfwayIn(segment.filesize, section.offset))
  }

  /** ((filesize - offset) / 2) & ~0x3 */
  function HalfwayIn(filesize: DWord, offset: DWord): nat {
    var half := (filesize - offset) % WRAP / 2;
    half - half % 4
  }

  /**
  The region, from the headers: behind __unwind_info by half of what is between its start and the end of
  the segment, rounded down to words. The subtraction is unsigned.
   */
  lemma RegionIs(m: Image, segment: Segment, section: Section, i: nat, j: nat)
    requires IsNamedSegment(m.commands, "__TEXT", segment, i)
    requires IsNamedSection(segment.sections, "__unwind_info", section, j)
    ensures var d := (segment.filesize - section.offset) % 0x1_0000_0000_0000_0000;
      && ShcRegion(m).Some?
      && var h := ShcRegion(m).value - (section.offset + section.size);
         h % 4 == 0 && 2 * h <= d < 2 * h + 8
  {
    hide NamedSegment, NamedSection;
    SegmentNamed(m.commands, "__TEXT", segment, i);
    SectionNamed(segment.sections, "__unwind_info", section, j);
    var half := (segment.filesize - section.offset) % WRAP / 2;
    assert (half - half % 4) % 4 == 0;
  }

  /** Without such a segment, or such a section in it, there is none. */
  lemma NoRegion(m: Image)
    ensures ShcRegion(m).None? <==> forall g: Segment, s: Section, i: nat, j: nat ::
      !(IsNamedSegment(m.commands, "__TEXT", g, i) && IsNamedSection(g.sections, "__unwind_info", s, j))
  {
    hide NamedSegment, NamedSection, IsNamedSegment, IsNamedSection;
    if g: Segment, s: Section, i: nat, j: nat :|
      IsNamedSegment(m.commands, "__TEXT", g, i) && IsNamedSection(g.sections, "__unwind_info", s, j)
    {
      RegionIs(m, g, s, i, j);
    }
    if ShcRegion(m).Some? {
      var i := WhichSegment(m.commands, "__TEXT");
      var g := NamedSegment(m.commands, "__TEXT").value;
      var j := WhichSection(g.sections, "__unwind_info");
    }
  }

  method GetShcRegion(m: Image) returns (r: Option<nat>)
    ensures r == ShcRegion(m)
  {
    var segment := None;
    var i := 0;
    while i < |m.commands| && m.commands[i].LcSegment?
      invariant i <= |m.commands| && segment == None
      invariant NamedSegment(m.commands, "__TEXT") == NamedSegment(m.commands[i..], "__TEXT")
    {
      if m.commands[i].segment.segname == "__TEXT" {
        segment := Some(m.commands[i].segment);
        break;
      }
      assert m.commands[i..][1..] == m.commands[i + 1..];
      i := i + 1;
    }
    if segment.None? {
      return None;
    }
    var sections := segment.value.sections;
    for j := 0 to |sections|
      invariant NamedSection(sections, "__unwind_info") == NamedSection(sections[j..], "__unwind_info")
    {
      if sections[j].sectname == "__unwind_info" {
        return Some(sections[j].offset + sections[j].size + HalfwayIn(segment.value.filesize, sections[j].offset));
      }
      assert sections[j..][1..] == sections[j + 1..];
    }
    return None;
  }

  /** n copies of eight words fit between the region and the end of __TEXT exactly when this holds. */
  predicate RoomFor(segment: Segment, section: Section, n: nat) {
    var d := segment.filesize - section.offset;
    section.size + 32 * n <= d - (d / 2 - d / 2 % 4)
  }

  lemma HalfwayPlain(filesize: DWord, offset: DWord)
    requires offset <= filesize
    ensures HalfwayIn(filesize, offset) == (filesize - offset) / 2 - (filesize - offset) / 2 % 4
    ensures HalfwayIn(filesize, offset) % 4 == 0 && 2 * HalfwayIn(filesize, offset) <= filesize - offset
  {
    assert (filesize - offset) % WRAP == filesize - offset;
    var half := (filesize - offset) / 2;
    assert (half - half % 4) % 4 == 0;
  }

  lemma RegionRoom(m: Image, segment: Segment, section: Section, n: nat)
    requires NamedSegment(m.commands, "__TEXT") == Some(segment)
    requires NamedSection(segment.sections, "__unwind_info") == Some(section)
    requires section.offset <= segment.filesize
    ensures ShcRegion(m).Some? && ShcRegion(m).value >= section.offset + section.size
    ensures ShcRegion(m).value + 32 * n <= segment.filesize <==> RoomFor(segment, section, n)
    ensures 2 * section.size + 64 * n <= segment.filesize - section.offset ==> RoomFor(segment, section, n)
    ensures (section.offset + section.size) % 4 == 0 ==> ShcRegion(m).value % 4 == 0
  {
    hide HalfwayIn, NamedSegment, NamedSection;
    HalfwayPlain(segment.filesize, section.offset);
  }
}

/**
 Giving every section and segment of an ELF file its place on saving
 (SIM/ELFIO/elfio/elfio.hpp, calc_segment_alignment, layout_segments_and_their_sections,
 layout_sections_without_segments and layout_section_table), and what the layout guarantees.

 The writer's position is 64 bits wide. Here the sum of everything added to it is kept in
 `end`, without bound, and every read of the position reads Wrap(end).
 */
module Layout {

  type Xword = x: int | 0 <= x < 0x1_0000_0000_0000_0000

  type Half = x: int | 0 <= x < 0x1_0000

  function Wrap(n: int): Xword { n % 0x1_0000_0000_0000_0000 }

  /** A header field that holds an offset, address or size: 64 bits in ELFCLASS64 and 32 in ELFCLASS32. */
  function Cut(wide: bool, n: int): Xword { if wide then n % 0x1_0000_0000_0000_0000 else n % 0x1_0000_0000 }

  function Limit(wide: bool): nat { if wide then 0x1_0000_0000_0000_0000 else 0x1_0000_0000 }

  const SHT_NULL: bv32 := 0
  const SHT_NOBITS: bv32 := 8
  const PT_LOAD: bv32 := 1
  const PT_PHDR: bv32 := 6
  const PT_TLS: bv32 := 7

  datatype Section = Section(kind: bv32, flags: bv64, size: Xword, align: Xword, address: Xword, addressSet: bool,
      offset: Xword)

  predicate Alloc(s: Section) { s.flags & 2 == 2 }

  predicate Tls(s: Section) { s.flags & 0x400 == 0x400 }

  datatype Segment = Segment(kind: bv32, sections: seq<nat>, vaddr: Xword, align: Xword, offsetSet: bool, offset: Xword,
                             fileSize: Xword, memorySize: Xword)

  datatype File = File(wide: bool, headerSize: Half, segmentEntrySize: Half,
                       sections: seq<Section>, segments: seq<Segment>, generated: seq<bool>, end: nat, ok: bool)

  ghost predicate WellFormed(f: File) {
    && |f.generated| == |f.sections|
    && forall g, j :: 0 <= g < |f.segments| && 0 <= j < |f.segments[g].sections| ==>
       f.segments[g].sections[j] < |f.sections|
  }

  function TableSize(f: File): Xword { Wrap(f.segmentEntrySize * (|f.segments| % 0x1_0000)) }

  function TableOffset(f: File): Xword { if |f.segments| > 0 then f.headerSize else 0 }

  /** The first byte after the ELF header and the segment table. */
  function AfterHeaders(f: File): nat { f.headerSize + TableSize(f) }

  // ----- one section of a segment

  datatype Gap = Backwards | Gap(size: Xword)

  /** How far the section has to move on from where the segment has got to. */
  function SectionGap(s: Section, generated: bool, vaddr: Xword, end: nat, start: Xword, fileSize: Xword): Gap {
    if !generated && s.addressSet && s.kind != SHT_NOBITS && s.kind != SHT_NULL && s.size != 0 then
      var required := Wrap(s.address - vaddr);
      var current := Wrap(Wrap(end) - start);
      if required < current then Backwards else Gap(required - current)
    else if !generated && !s.addressSet then
      Gap(ToMultiple(Wrap(end), s.align))
    else if generated then
      Gap(Wrap(Wrap(s.offset - start) - fileSize))
    else
      Gap(0)
  }

  /** The distance to the next multiple of an alignment, where alignment 0 means 1. */
  function ToMultiple(pos: Xword, align: Xword): Xword {
    var a := if align == 0 then 1 else align;
    (a - pos % a) % a
  }

  datatype Filling = Filling(file: File, fileSize: Xword, memorySize: Xword)

  function Placed(s: Section, i: nat, wide: bool, vaddr: Xword, at: Xword, start: Xword): Section {
    var s1 := if s.addressSet then s else s.(address := Cut(wide, Wrap(Wrap(vaddr + at) - start)), addressSet := true);
    if i != 0 then s1.(offset := Cut(wide, at)) else s1
  }

  predicate SameKind(s: Section, t: Section) {
    && t.kind == s.kind && t.flags == s.flags && t.size == s.size && t.align == s.align
    && (s.addressSet ==> t.addressSet && t.address == s.address)
  }

  /** What no step undoes: a section once generated stays as it is, and the position never goes back. */
  ghost predicate Extends(f: File, r: File) {
    && |f.generated| == |f.sections| == |r.sections| == |r.generated|
    && r.wide == f.wide && r.headerSize == f.headerSize && r.segmentEntrySize == f.segmentEntrySize
    && |r.segments| == |f.segments|
    && r.end >= f.end && (r.ok ==> f.ok)
    && (forall i :: 0 <= i < |f.sections| ==> SameKind(f.sections[i], r.sections[i]))
    && (forall i :: 0 <= i < |f.sections| && f.generated[i] ==> r.generated[i] && r.sections[i] == f.sections[i])
  }

  lemma ExtendsTransitive(f: File, g: File, h: File)
    requires Extends(f, g) && Extends(g, h)
    ensures Extends(f, h)
  {}

  function PlaceSection(p: Filling, g: nat, start: Xword, i: nat): (q: Filling)
    requires g < |p.file.segments| && i < |p.file.sections| == |p.file.generated|
    ensures Extends(p.file, q.file) && q.file.segments == p.file.segments
  {
    var f, s, seg := p.file, p.file.sections[i], p.file.segments[g];
    if !f.ok then p
    else if s.kind == SHT_NULL then p.(file := f.(generated := f.generated[i := true]))
    else
      match SectionGap(s, f.generated[i], seg.vaddr, f.end, start, p.fileSize)
      case Backwards => p.(file := f.(ok := false))
      case Gap(gap) =>
        var memorySize := if Alloc(s) && !(Tls(s) && seg.kind != PT_TLS && s.kind == SHT_NOBITS)
                          then Wrap(p.memorySize + Wrap(s.size + gap)) else p.memorySize;
        var fileSize := if s.kind != SHT_NOBITS then Wrap(p.fileSize + Wrap(s.size + gap)) else p.fileSize;
        if f.generated[i] then Filling(f, fileSize, memorySize)
        else
          var at := f.end + gap;
          Filling(f.(sections := f.sections[i := Placed(s, i, f.wide, seg.vaddr, Wrap(at), start)],
                     generated := f.generated[i := true],
                     end := if s.kind != SHT_NOBITS then at + s.size else at),
                  fileSize, memorySize)
  }

  /** The segment after its first n sections. */
  function Fill(p: Filling, g: nat, start: Xword, n: nat): (q: Filling)
    requires WellFormed(p.file) && g < |p.file.segments| && n <= |p.file.segments[g].sections|
    ensures Extends(p.file, q.file) && q.file.segments == p.file.segments
  {
    if n == 0 then p
    else
      var q := Fill(p, g, start, n - 1);
      var r := PlaceSection(q, g, start, q.file.segments[g].sections[n - 1]);
      ExtendsTransitive(p.file, q.file, r.file);
      r
  }

  // ----- one segment

  datatype Arm = Headers | AtZero | NewData | Nested | Plain

  /** Which case of the layout a segment falls under. */
  function ArmOf(f: File, g: nat): Arm
    requires WellFormed(f) && g < |f.segments|
  {
    var seg := f.segments[g];
    if seg.kind == PT_PHDR && |seg.sections| == 0 then Headers
    else if seg.offsetSet && seg.offset == 0 then AtZero
    else if |seg.sections| > 0 && !f.generated[seg.sections[0]] then NewData
    else if |seg.sections| > 0 then Nested
    else Plain
  }

  /** How far a segment with new data moves on so that offset and address agree modulo its alignment. */
  function SegmentGap(pos: Xword, vaddr: Xword, align: Xword): Xword {
    var a := if align > 0 then align else 1;
    Wrap(align + Wrap(vaddr % a - pos % a)) % a
  }

  function Opening(f: File, g: nat): (r: (Filling, Xword))
    requires WellFormed(f) && g < |f.segments|
    ensures Extends(f, r.0.file) && r.0.file.ok == f.ok
    ensures r.0.file.segments == f.segments && r.0.file.sections == f.sections && r.0.file.generated == f.generated
  {
    var seg := f.segments[g];
    match ArmOf(f, g)
    case Headers => (Filling(f, TableSize(f), TableSize(f)), TableOffset(f))
    case AtZero =>
      var filled: Xword := if |seg.sections| > 0 then Wrap(f.end) else 0;
      (Filling(f, filled, filled), 0)
    case NewData =>
      var f1 := f.(end := f.end + SegmentGap(Wrap(f.end), seg.vaddr, seg.align));
      (Filling(f1, 0, 0), Wrap(f1.end))
    case Nested => (Filling(f, 0, 0), f.sections[seg.sections[0]].offset)
    case Plain => (Filling(f, 0, 0), Wrap(f.end))
  }

  function Sized(seg: Segment, wide: bool, start: Xword, fileSize: Xword, memorySize: Xword): Segment {
    seg.(fileSize := Cut(wide, fileSize),
         memorySize := if seg.memorySize < memorySize then Cut(wide, memorySize) else seg.memorySize,
         offset := Cut(wide, start), offsetSet := true)
  }

  predicate SameUse(s: Segment, t: Segment) {
    t.kind == s.kind && t.sections == s.sections && t.vaddr == s.vaddr && t.align == s.align
  }

  function PlaceSegment(f: File, g: nat): (r: File)
    requires WellFormed(f) && g < |f.segments|
    ensures WellFormed(r) && Extends(f, r)
    ensures forall k :: 0 <= k < |f.segments| ==>
              SameUse(f.segments[k], r.segments[k]) && (k != g ==> r.segments[k] == f.segments[k])
  {
    if !f.ok then f
    else
      var (p, start) := Opening(f, g);
      var q := Fill(p, g, start, |f.segments[g].sections|);
      if !q.file.ok then q.file
      else q.file.(segments := f.segments[g := Sized(f.segments[g], f.wide, start, q.fileSize, q.memorySize)])
  }

  ghost predicate Within(order: seq<nat>, n: nat) { forall k :: 0 <= k < |order| ==> order[k] < n }

  /** The segments one after the other. */
  function PlaceSegments(f: File, order: seq<nat>): (r: File)
    requires WellFormed(f) && Within(order, |f.segments|)
    ensures WellFormed(r) && Extends(f, r)
    ensures forall k :: 0 <= k < |f.segments| ==>
              SameUse(f.segments[k], r.segments[k]) && (k !in order ==> r.segments[k] == f.segments[k])
  {
    if order == [] then f
    else
      var n := |order| - 1;
      assert order == order[..n] + [order[n]];
      var m := PlaceSegments(f, order[..n]);
      var r := PlaceSegment(m, order[n]);
      ExtendsTransitive(f, m, r);
      r
  }

  // ----- the rest of the file

  predicate InNoSegment(f: File, i: nat) { forall g :: 0 <= g < |f.segments| ==> i !in f.segments[g].sections }

  function LooseGap(pos: Xword, align: Xword): Xword {
    if align > 1 && pos % align != 0 then align - pos % align else 0
  }

  function PlaceLoose(f: File, i: nat): File
    requires i < |f.sections|
  {
    if !InNoSegment(f, i) then f
    else
      var s := f.sections[i];
      var at := f.end + LooseGap(Wrap(f.end), s.align);
      f.(sections := f.sections[i := if i != 0 then s.(offset := Cut(f.wide, Wrap(at))) else s],
         end := if s.kind != SHT_NOBITS && s.kind != SHT_NULL then at + s.size else at)
  }

  /** The first n sections, those of them that lie in no segment being placed. */
  function PlaceLooseUpTo(f: File, n: nat): (r: File)
    requires n <= |f.sections|
    ensures |r.sections| == |f.sections| && r.segments == f.segments && r.wide == f.wide && r.generated == f.generated
    ensures r.headerSize == f.headerSize && r.segmentEntrySize == f.segmentEntrySize
    ensures r.end >= f.end && r.ok == f.ok
    ensures forall i :: 0 <= i < |f.sections| ==> SameKind(f.sections[i], r.sections[i])
    ensures forall i :: 0 <= i < |f.sections| && (i >= n || !InNoSegment(f, i)) ==> r.sections[i] == f.sections[i]
  {
    if n == 0 then f else PlaceLoose(PlaceLooseUpTo(f, n - 1), n - 1)
  }

  /** The whole layout of a file whose segments are taken in the given order. */
  function LaidOut(f: File, order: seq<nat>): (r: File)
    requires WellFormed(f) && Within(order, |f.segments|)
    ensures |r.sections| == |f.sections|
  {
    var g := PlaceSegments(f, order);
    if !g.ok then g else PlaceLooseUpTo(g, |g.sections|)
  }

  function SectionTable(end: nat): nat { end + (4 - Wrap(end) % 4) % 4 }
}

/** The memory sizes of segments: what the layout adds up, and that it covers the sections. */
module LayoutMemory {
  import opened Layout
  import opened LayoutSafety
  import opened LayoutMeaning
  import opened LayoutSizes

  /** A section that takes room in the memory of a segment: a loaded one, but .tbss only in a PT_TLS segment. */
  predicate Counted(s: Section, seg: Segment) { Alloc(s) && !(Tls(s) && seg.kind != PT_TLS && s.kind == SHT_NOBITS) }

  /** All sections of a segment take room there, and those without contents came without an address. */
  ghost predicate Loaded(f: File, g: nat)
    requires WellFormed(f) && g < |f.segments|
  {
    forall j :: 0 <= j < |f.segments[g].sections| ==>
      var s := f.sections[f.segments[g].sections[j]];
      s.kind == SHT_NULL || (Counted(s, f.segments[g]) && (s.kind == SHT_NOBITS ==> !s.addressSet))
  }

  /** The sizes of the first n of these sections, as far as they have no contents in the file. */
  function NobitsSizes(f: File, s: seq<nat>, n: nat): nat
    requires n <= |s| && forall j :: 0 <= j < |s| ==> s[j] < |f.sections|
  {
    if n == 0 then 0
    else
      var sec := f.sections[s[n - 1]];
      NobitsSizes(f, s, n - 1) + if sec.kind == SHT_NOBITS then sec.size else 0
  }

  // ----- the size

  /** One new section: the memory size grows with the position, and by what a section without contents takes. */
  lemma StepMemory(p: Filling, g: nat, start: Xword, i: nat)
    requires g < |p.file.segments| && i < |p.file.sections| == |p.file.generated|
    requires !p.file.generated[i] && PlaceSection(p, g, start, i).file.ok
    requires p.file.sections[i].kind == SHT_NULL || Counted(p.file.sections[i], p.file.segments[g])
    ensures var r, s := PlaceSection(p, g, start, i), p.file.sections[i];
            Wrap(r.memorySize)
            == Wrap(p.memorySize + (r.file.end - p.file.end) + if s.kind == SHT_NOBITS then s.size else 0)
  {
    hide SectionGap, Alloc, Tls, Placed, Wrap, Extends;
    var f, s := p.file, p.file.sections[i];
    if f.ok && s.kind != SHT_NULL {
      var gap := SectionGap(s, false, f.segments[g].vaddr, f.end, start, p.fileSize);
      if gap.Gap? {
        WrapInside(p.memorySize, s.size + gap.size);
        WrapInside(0, p.memorySize + Wrap(s.size + gap.size));
      }
    }
  }

  lemma {:induction false} FillMemory(p: Filling, g: nat, start: Xword, n: nat)
    requires WellFormed(p.file) && g < |p.file.segments| && n <= |p.file.segments[g].sections|
    requires AllNew(p.file, g) && Loaded(p.file, g) && Fill(p, g, start, n).file.ok
    ensures var q, s := Fill(p, g, start, n), p.file.segments[g].sections;
            Wrap(q.memorySize) == Wrap(p.memorySize + (q.file.end - p.file.end) + NobitsSizes(p.file, s, n))
  {
    hide PlaceSection, Extends, Wrap, AllNew, Counted;
    if n > 0 {
      var s := p.file.segments[g].sections;
      FillStep(p, g, start, n, s[n - 1]);
      FillMemory(p, g, start, n - 1);
      TurnIsNew(p, g, start, n);
      var q, r := Fill(p, g, start, n - 1), Fill(p, g, start, n);
      StepMemory(q, g, start, s[n - 1]);
      var sec := p.file.sections[s[n - 1]];
      var d := r.file.end - q.file.end + if sec.kind == SHT_NOBITS then sec.size else 0;
      WrapAdds(q.memorySize, p.memorySize + (q.file.end - p.file.end) + NobitsSizes(p.file, s, n - 1), d);
    }
  }

  /** The larger of what a segment came with and what the layout adds up. */
  function Larger(a: nat, b: nat): nat { if a < b then b else a }

  /**
   A segment of new sections needs, in memory, the distance from its start to the position behind it and all that its
   sections without contents take.
   */
  lemma NewSegmentMemory(f: File, g: nat)
    requires WellFormed(f) && g < |f.segments| && f.ok && BringsNew(f, g) && Loaded(f, g) && PlaceSegment(f, g).ok
    requires PlaceSegment(f, g).end + NobitsSizes(f, f.segments[g].sections, |f.segments[g].sections|) < Limit(f.wide)
    ensures var s, seg := f.segments[g].sections, PlaceSegment(f, g).segments[g];
            && seg.offset <= PlaceSegment(f, g).end
            && seg.memorySize
               == Larger(f.segments[g].memorySize, PlaceSegment(f, g).end - seg.offset + NobitsSizes(f, s, |s|))
  {
    hide Opening, Extends, Fill, PlaceSegment, AllNew, Cut, Wrap, Loaded, WellFormed;
    var (p, start) := Opening(f, g);
    var s := f.segments[g].sections;
    OpensAsNew(f, g);
    OpensAsLoaded(f, g);
    PlacedAsFilled(f, g);
    PlacedAsSized(f, g);
    PlacedInMemory(f, g);
    EndsInOrder(p, g, start, 0, |s|);
    NoSections(p, g, start);
    FillMemory(p, g, start, |s|);
    CutIsExact(f.wide, p.file.end);
    CutIsExact(f.wide, 0);
    var total := Fill(p, g, start, |s|).file.end - start + NobitsSizes(f, s, |s|);
    CutIsExact(f.wide, total);
    WrapIsItself(Fill(p, g, start, |s|).memorySize);
  }

  lemma WrapIsItself(x: Xword)
    ensures Wrap(x) == x
  {}

  lemma OpensAsLoaded(f: File, g: nat)
    requires WellFormed(f) && g < |f.segments|
    ensures var p := Opening(f, g).0.file;
            && WellFormed(p) && |p.segments| == |f.segments| && (Loaded(f, g) ==> Loaded(p, g))
            && forall n :: 0 <= n <= |f.segments[g].sections| ==>
                 NobitsSizes(p, f.segments[g].sections, n) == NobitsSizes(f, f.segments[g].sections, n)
  {
    hide Opening;
    var p := Opening(f, g).0.file;
    forall n | 0 <= n <= |f.segments[g].sections|
      ensures NobitsSizes(p, f.segments[g].sections, n) == NobitsSizes(f, f.segments[g].sections, n) {
      SameSizes(f, p, f.segments[g].sections, n);
    }
  }

  lemma {:induction false} SameSizes(f: File, r: File, s: seq<nat>, n: nat)
    requires n <= |s| && (forall j :: 0 <= j < |s| ==> s[j] < |f.sections|) && |r.sections| == |f.sections|
    requires forall j :: 0 <= j < n ==> SameKind(f.sections[s[j]], r.sections[s[j]])
    ensures NobitsSizes(r, s, n) == NobitsSizes(f, s, n)
  {
    if n > 0 {
      assert SameKind(f.sections[s[n - 1]], r.sections[s[n - 1]]);
      SameSizes(f, r, s, n - 1);
    }
  }

  lemma PlacedInMemory(f: File, g: nat)
    requires WellFormed(f) && g < |f.segments| && PlaceSegment(f, g).ok && BringsNew(f, g)
    ensures var (p, start) := Opening(f, g);
            var was, mem := f.segments[g], Fill(p, g, start, |f.segments[g].sections|).memorySize;
            && PlaceSegment(f, g).segments[g].memorySize
               == (if was.memorySize < mem then Cut(f.wide, mem) else was.memorySize)
            && p.memorySize == if was.offsetSet && was.offset == 0 then Wrap(p.file.end) else 0
  {
    hide Fill, Cut, Wrap, SegmentGap, Extends;
    NewArm(f, g);
    hide ArmOf;
  }

  // ----- the sections lie inside

  /** How far behind the segment's address a section ends, in the width of the file class. */
  function ReachOf(wide: bool, s: Section, vaddr: Xword): nat { Cut(wide, s.address - vaddr) + s.size }

  /** A section with bytes. */
  predicate Occupies(s: Section) { s.kind != SHT_NULL && s.size > 0 }

  /** A new section ends, in memory, where its contents end in the file, or its size behind the position. */
  lemma PlacedReach(p: Filling, g: nat, start: Xword, i: nat)
    requires g < |p.file.segments| && i < |p.file.sections| == |p.file.generated| && !p.file.generated[i] && i != 0
    requires var s := p.file.sections[i]; s.kind != SHT_NULL && s.size > 0 && (s.kind == SHT_NOBITS ==> !s.addressSet)
    requires start <= p.file.end
    requires var r := PlaceSection(p, g, start, i).file; r.ok && r.end < Limit(r.wide)
    ensures var r, s := PlaceSection(p, g, start, i).file, p.file.sections[i];
            ReachOf(r.wide, r.sections[i], p.file.segments[g].vaddr)
            == r.end - start + if s.kind == SHT_NOBITS then s.size else 0
  {
    hide Cut, ToMultiple, Wrap, Alloc, Tls, Extends;
    var f, s, vaddr := p.file, p.file.sections[i], p.file.segments[g].vaddr;
    var gap := SectionGap(s, false, vaddr, f.end, start, p.fileSize);
    var at := f.end + gap.size;
    CutIsExact(f.wide, at);
    CutIsExact(f.wide, start);
    CutIsExact(f.wide, at - start);
    if s.addressSet {
      RequiredDistance(f.wide, f.end, start, s.address, vaddr);
    } else {
      GivenAddress(f.wide, Wrap(at), start, vaddr);
    }
  }

  lemma {:induction false} FillReach(p: Filling, g: nat, start: Xword, n: nat, j: nat)
    requires WellFormed(p.file) && NullFirst(p.file) && g < |p.file.segments| && j < n <= |p.file.segments[g].sections|
    requires AllNew(p.file, g) && Loaded(p.file, g) && start <= p.file.end
    requires p.file.segments[g].sections[j] < |p.file.sections|
    requires var s := p.file.sections[p.file.segments[g].sections[j]]; s.kind != SHT_NULL && s.size > 0
    requires var q := Fill(p, g, start, n).file; q.ok && q.end < Limit(q.wide)
    ensures var q, s := Fill(p, g, start, n).file, p.file.segments[g].sections;
            && s[j] < |q.sections|
            && ReachOf(q.wide, q.sections[s[j]], p.file.segments[g].vaddr) <= q.end - start + NobitsSizes(p.file, s, n)
  {
    hide PlaceSection, Extends, AllNew, Loaded, ReachOf, NullFirst, WellFormed, Fill, NobitsSizes;
    NobitsStep(p.file, p.file.segments[g].sections, n) by { IsLoaded(p.file, g, j); }
    var s := p.file.segments[g].sections;
    var i := s[j];
    IsLoaded(p.file, g, j);
    FillStep(p, g, start, n, i);
    SameCounts(p, g, start, n);
    NeverBefore(p, g, start, n - 1);
    if j < n - 1 {
      FillReach(p, g, start, n - 1, j);
      FillGenerates(p, g, start, n - 1, j);
    } else {
      TurnIsNew(p, g, start, n);
      PlacedReach(Fill(p, g, start, n - 1), g, start, i);
    }
  }

  lemma NobitsStep(f: File, s: seq<nat>, n: nat)
    requires 0 < n <= |s| && forall j :: 0 <= j < |s| ==> s[j] < |f.sections|
    ensures var sec := f.sections[s[n - 1]];
            NobitsSizes(f, s, n) == NobitsSizes(f, s, n - 1) + if sec.kind == SHT_NOBITS then sec.size else 0
  {}

  lemma IsLoaded(f: File, g: nat, j: nat)
    requires WellFormed(f) && NullFirst(f) && g < |f.segments| && Loaded(f, g)
    requires j < |f.segments[g].sections| && f.segments[g].sections[j] < |f.sections|
    requires f.sections[f.segments[g].sections[j]].kind != SHT_NULL
    ensures forall k :: 0 <= k < |f.segments[g].sections| ==> f.segments[g].sections[k] < |f.sections|
    ensures var i := f.segments[g].sections[j];
            i != 0 && (f.sections[i].kind == SHT_NOBITS ==> !f.sections[i].addressSet)
  {
    hide Counted;
  }

  /** Every section with bytes of a segment of new loaded sections lies in its memory, from its address on. */
  lemma NewSegmentHolds(f: File, g: nat, j: nat)
    requires WellFormed(f) && NullFirst(f) && g < |f.segments| && f.ok && BringsNew(f, g) && Loaded(f, g)
    requires PlaceSegment(f, g).ok
    requires PlaceSegment(f, g).end + NobitsSizes(f, f.segments[g].sections, |f.segments[g].sections|) < Limit(f.wide)
    requires j < |f.segments[g].sections| && f.segments[g].sections[j] < |f.sections|
    requires var s := f.sections[f.segments[g].sections[j]]; s.kind != SHT_NULL && s.size > 0
    ensures var r, i := PlaceSegment(f, g), f.segments[g].sections[j];
            i < |r.sections| && ReachOf(f.wide, r.sections[i], f.segments[g].vaddr) <= r.segments[g].memorySize
  {
    hide Opening, Extends, Fill, PlaceSegment, AllNew, Cut, Wrap, Loaded, WellFormed, ReachOf;
    var (p, start) := Opening(f, g);
    var s := f.segments[g].sections;
    OpensAsNew(f, g);
    OpensAsLoaded(f, g);
    PlacedAsFilled(f, g);
    PlacedAsSized(f, g);
    EndsInOrder(p, g, start, 0, |s|);
    NoSections(p, g, start);
    SameCounts(p, g, start, |s|);
    CutIsExact(f.wide, p.file.end);
    CutIsExact(f.wide, start);
    NewSegmentMemory(f, g);
    FillReach(p, g, start, |s|, j);
  }

  // ----- over the whole layout

  /**
   The segment that comes p-th, all of whose sections are new and loaded: its memory size is the larger of the one it
   came with and the distance from its start to the position behind it with all its sections without contents, and
   every section with bytes lies in [vaddr, vaddr + memorySize).
   */
  lemma SegmentsHold(f: File, order: seq<nat>, p: nat, before: File, r: File)
    requires Start(f) && Complete(order, |f.segments|) && p < |order| && before == PlaceSegments(f, order[..p])
    requires r == LaidOut(f, order) && r.ok && NullFirst(f)
    requires BringsNew(before, order[p]) && Loaded(before, order[p])
    requires var s := before.segments[order[p]].sections; r.end + NobitsSizes(before, s, |s|) < Limit(f.wide)
    ensures before.segments[order[p]] == f.segments[order[p]]
    ensures var was, seg := f.segments[order[p]], r.segments[order[p]];
            var behind := PlaceSegment(before, order[p]).end;
            && seg.offset <= behind <= r.end
            && seg.memorySize
               == Larger(was.memorySize, behind - seg.offset + NobitsSizes(before, was.sections, |was.sections|))
            && (forall i :: i in was.sections && i < |f.sections| && Occupies(f.sections[i]) ==>
                  ReachOf(f.wide, r.sections[i], was.vaddr) <= seg.memorySize)
  {
    hide PlaceSegment, PlaceSegments, PlaceLooseUpTo, AllNew, Loaded, NullFirst, ReachOf, Larger, NobitsSizes;
    var g := order[p];
    var m := PlaceSegments(f, order);
    var after := PlaceSegment(before, g);
    LaterSegmentsKeep(f, order, p);
    NullStays(f, before);
    assert after.ok && after.end <= m.end <= r.end;
    NewSegmentMemory(before, g);
    var s := before.segments[g].sections;
    forall i | i in s && i < |f.sections| && f.sections[i].kind != SHT_NULL && f.sections[i].size > 0
      ensures ReachOf(f.wide, r.sections[i], before.segments[g].vaddr) <= after.segments[g].memorySize {
      OneHeld(f, order, p, before, r, i);
    }
  }

  lemma OneHeld(f: File, order: seq<nat>, p: nat, before: File, r: File, i: nat)
    requires Start(f) && Complete(order, |f.segments|) && p < |order| && before == PlaceSegments(f, order[..p])
    requires r == LaidOut(f, order) && r.ok && NullFirst(before)
    requires BringsNew(before, order[p]) && Loaded(before, order[p])
    requires var s := before.segments[order[p]].sections; r.end + NobitsSizes(before, s, |s|) < Limit(f.wide)
    requires i in before.segments[order[p]].sections && i < |f.sections|
    requires f.sections[i].kind != SHT_NULL && f.sections[i].size > 0
    ensures i < |r.sections|
    ensures var g := order[p];
            ReachOf(f.wide, r.sections[i], before.segments[g].vaddr) <= PlaceSegment(before, g).segments[g].memorySize
  {
    hide PlaceSegment, PlaceSegments, PlaceLooseUpTo, AllNew, Loaded, NullFirst, ReachOf, NobitsSizes;
    var g := order[p];
    var m := PlaceSegments(f, order);
    LaterSegmentsKeep(f, order, p);
    var s := before.segments[g].sections;
    var j :| 0 <= j < |s| && s[j] == i;
    assert SameKind(f.sections[i], before.sections[i]);
    NewSegmentHolds(before, g, j);
    PlacedBySegment(before, g, i);
    SameSections(before.segments[g], m.segments[g]);
    InThatSegment(m, g, i);
  }

  // ----- other segments

  /** The first n sections have contents in the file, and are loaded. */
  ghost predicate OnlyContents(f: File, g: nat, n: nat)
    requires WellFormed(f) && g < |f.segments| && n <= |f.segments[g].sections|
  {
    forall j :: 0 <= j < n ==>
      var s := f.sections[f.segments[g].sections[j]];
      s.kind == SHT_NULL || (s.kind != SHT_NOBITS && Alloc(s))
  }

  lemma StepSame(p: Filling, g: nat, start: Xword, i: nat)
    requires g < |p.file.segments| && i < |p.file.sections| == |p.file.generated| && p.memorySize == p.fileSize
    requires p.file.sections[i].kind == SHT_NULL || (p.file.sections[i].kind != SHT_NOBITS && Alloc(p.file.sections[i]))
    ensures var q := PlaceSection(p, g, start, i); q.memorySize == q.fileSize
  {
    hide SectionGap, Alloc, Tls, Placed, Wrap, Extends;
  }

  lemma {:induction false} FillSame(p: Filling, g: nat, start: Xword, n: nat)
    requires WellFormed(p.file) && g < |p.file.segments| && n <= |p.file.segments[g].sections|
    requires OnlyContents(p.file, g, n) && p.memorySize == p.fileSize
    ensures Fill(p, g, start, n).memorySize == Fill(p, g, start, n).fileSize
  {
    hide PlaceSection, Extends, Alloc;
    if n > 0 {
      var i := p.file.segments[g].sections[n - 1];
      FillSame(p, g, start, n - 1);
      FillStep(p, g, start, n, i);
      FlagsStay(p, g, start, n - 1, i);
      StepSame(Fill(p, g, start, n - 1), g, start, i);
    }
  }

  lemma FlagsStay(p: Filling, g: nat, start: Xword, n: nat, i: nat)
    requires WellFormed(p.file) && g < |p.file.segments| && n <= |p.file.segments[g].sections| && i < |p.file.sections|
    ensures var q := Fill(p, g, start, n).file;
            i < |q.sections| && q.sections[i].kind == p.file.sections[i].kind
                && Alloc(q.sections[i]) == Alloc(p.file.sections[i])
  {
    hide Fill, Alloc;
    assert SameKind(p.file.sections[i], Fill(p, g, start, n).file.sections[i]);
    SameFlags(p.file.sections[i], Fill(p, g, start, n).file.sections[i]);
  }

  lemma SameFlags(s: Section, t: Section)
    requires s.flags == t.flags
    ensures Alloc(s) == Alloc(t)
  {}

  /**
   Over the whole layout, enclosed segments and the segment table included: a segment all of whose sections have
   contents is in memory what it is in the file.
   */
  lemma MemoryIsFile(f: File, order: seq<nat>, p: nat, before: File, r: File)
    requires WellFormed(f) && Within(order, |f.segments|) && Distinct(order) && p < |order|
    requires before == PlaceSegments(f, order[..p]) && r == PlaceSegments(f, order) && r.ok
    requires OnlyContents(f, order[p], |f.segments[order[p]].sections|) && f.segments[order[p]].memorySize == 0
    ensures r.segments[order[p]].memorySize == r.segments[order[p]].fileSize
  {
    hide PlaceSegment, PlaceSegments, OnlyContents, Extends;
    LaterSegmentsKeep(f, order, p);
    SameShape(f, order[..p]);
    OkInOrder(before, PlaceSegment(before, order[p]), r);
    OnlyContentsStays(f, order, p, |f.segments[order[p]].sections|);
    SegmentSame(before, order[p]);
  }

  lemma OnlyContentsStays(f: File, order: seq<nat>, p: nat, n: nat)
    requires WellFormed(f) && Within(order, |f.segments|) && Distinct(order) && p < |order|
    requires n <= |f.segments[order[p]].sections| && OnlyContents(f, order[p], n)
    ensures var before := PlaceSegments(f, order[..p]);
            && order[p] < |before.segments| && before.segments[order[p]] == f.segments[order[p]]
            && OnlyContents(before, order[p], n)
  {
    hide PlaceSegments, Alloc;
    var before := PlaceSegments(f, order[..p]);
    assert order[p] !in order[..p];
    StillOriginal(f, order[..p], order[p]);
    var s := f.segments[order[p]].sections;
    forall j | 0 <= j < |s| ensures before.sections[s[j]].kind == f.sections[s[j]].kind
                                  && Alloc(before.sections[s[j]]) == Alloc(f.sections[s[j]]) {
      assert SameKind(f.sections[s[j]], before.sections[s[j]]);
      SameFlags(f.sections[s[j]], before.sections[s[j]]);
    }
  }

  lemma SegmentSame(f: File, g: nat)
    requires WellFormed(f) && g < |f.segments| && f.ok && PlaceSegment(f, g).ok
    requires OnlyContents(f, g, |f.segments[g].sections|) && f.segments[g].memorySize == 0
    ensures PlaceSegment(f, g).segments[g].memorySize == PlaceSegment(f, g).segments[g].fileSize
  {
    hide Fill, OnlyContents, Extends, SegmentGap, ArmOf, Wrap;
    var (p, start) := Opening(f, g);
    OpensSame(f, g, |f.segments[g].sections|);
    FillSame(p, g, start, |f.segments[g].sections|);
  }

  lemma OpensSame(f: File, g: nat, n: nat)
    requires WellFormed(f) && g < |f.segments| && n <= |f.segments[g].sections| && OnlyContents(f, g, n)
    ensures var p := Opening(f, g).0;
            && WellFormed(p.file) && p.file.segments == f.segments && OnlyContents(p.file, g, n)
            && p.memorySize == p.fileSize
  {
    hide Alloc, SegmentGap, Extends, ArmOf;
  }

  /** Coming to a section that is already placed, the memory size too becomes the distance from the start to its end. */
  lemma PlacedSectionMemory(p: Filling, g: nat, start: Xword, i: nat)
    requires g < |p.file.segments| && i < |p.file.sections| == |p.file.generated| && p.file.ok
    requires p.file.generated[i] && p.file.sections[i].kind != SHT_NULL
             && Counted(p.file.sections[i], p.file.segments[g])
    requires p.memorySize == p.fileSize
    ensures Wrap(start + PlaceSection(p, g, start, i).memorySize) == Wrap(End(p.file.sections[i]))
  {
    hide Wrap, Alloc, Tls, Extends, Placed;
    var s := p.file.sections[i];
    SizeReaches(start, p.fileSize, s.offset, s.size, Wrap(Wrap(s.offset - start) - p.fileSize));
  }

  /**
   A segment of which an earlier one placed the last section, such as the .tbss of a PT_TLS segment, with contents in
   front of it: in memory it ends where that section does.
   */
  lemma EnclosedMemoryEnd(f: File, order: seq<nat>, p: nat, q: nat, r: File)
    requires WellFormed(f) && Within(order, |f.segments|) && Distinct(order) && q < p < |order|
    requires r == PlaceSegments(f, order) && r.ok
    requires var s := f.segments[order[p]].sections;
             && s != [] && s[|s| - 1] in f.segments[order[q]].sections && OnlyContents(f, order[p], |s| - 1)
             && f.sections[s[|s| - 1]].kind != SHT_NULL && Counted(f.sections[s[|s| - 1]], f.segments[order[p]])
    requires f.segments[order[p]].memorySize == 0
    ensures var s, seg := f.segments[order[p]].sections, r.segments[order[p]];
            && s[|s| - 1] < |r.sections|
            && Cut(r.wide, seg.offset + seg.memorySize) == Cut(r.wide, End(r.sections[s[|s| - 1]]))
  {
    hide PlaceSegment, PlaceSegments, OnlyContents, Extends, Cut, Counted;
    var g := order[p];
    var s := f.segments[g].sections;
    var before := PlaceSegments(f, order[..p]);
    LaterSegmentsKeep(f, order, p);
    SameShape(f, order);
    SameShape(f, order[..p]);
    OkInOrder(before, PlaceSegment(before, g), r);
    OnlyContentsStays(f, order, p, |s| - 1);
    PlacedBefore(f, order, p, q, s[|s| - 1]);
    CountedStays(f, order[..p], s[|s| - 1], f.segments[g]);
    SegmentMemoryEnd(before, g);
    KeepsPlaced(before, PlaceSegment(before, g), r, s[|s| - 1]);
  }

  lemma CountedStays(f: File, order: seq<nat>, i: nat, seg: Segment)
    requires WellFormed(f) && Within(order, |f.segments|) && i < |f.sections|
    ensures var m := PlaceSegments(f, order);
            i < |m.sections| && m.sections[i].kind == f.sections[i].kind
                && Counted(m.sections[i], seg) == Counted(f.sections[i], seg)
  {
    hide PlaceSegments;
    assert SameKind(f.sections[i], PlaceSegments(f, order).sections[i]);
  }

  lemma SegmentMemoryEnd(f: File, g: nat)
    requires WellFormed(f) && g < |f.segments| && f.ok && PlaceSegment(f, g).ok && f.segments[g].memorySize == 0
    requires var s := f.segments[g].sections; s != [] && OnlyContents(f, g, |s| - 1) && s[|s| - 1] < |f.sections|
    requires var s := f.segments[g].sections; f.generated[s[|s| - 1]] && f.sections[s[|s| - 1]].kind != SHT_NULL
    requires var s := f.segments[g].sections; Counted(f.sections[s[|s| - 1]], f.segments[g])
    ensures var s, seg := f.segments[g].sections, PlaceSegment(f, g).segments[g];
            Cut(f.wide, seg.offset + seg.memorySize) == Cut(f.wide, End(f.sections[s[|s| - 1]]))
  {
    hide PlaceSegment, Opening, Fill, OnlyContents, Extends, Cut, Counted, Wrap;
    var (p, start) := Opening(f, g);
    var s := f.segments[g].sections;
    var n := |s| - 1;
    OpensAsNew(f, g);
    OpensSame(f, g, n);
    PlacedAsFilled(f, g);
    MemorySized(f, g);
    FillSame(p, g, start, n);
    FillStep(p, g, start, n + 1, s[n]);
    StaysAsPlaced(p, g, start, n, s[n]);
    PlacedSectionMemory(Fill(p, g, start, n), g, start, s[n]);
    CutSum(f.wide, start, Fill(p, g, start, n + 1).memorySize, End(f.sections[s[n]]));
  }

  lemma MemorySized(f: File, g: nat)
    requires WellFormed(f) && g < |f.segments| && f.ok && PlaceSegment(f, g).ok && f.segments[g].memorySize == 0
    ensures var (p, start) := Opening(f, g);
            var seg := PlaceSegment(f, g).segments[g];
            && seg.memorySize == Cut(f.wide, Fill(p, g, start, |f.segments[g].sections|).memorySize)
            && seg.offset == Cut(f.wide, start) && |f.generated| == |f.sections|
            && p.file.generated == f.generated && p.file.ok
  {
    hide Fill, Opening, Extends;
    CutIsExact(f.wide, 0);
  }

  /** In a 64-bit file no segment ever loses memory it came with. */
  lemma {:induction false} MemoryNeverFalls(f: File, order: seq<nat>, g: nat)
    requires WellFormed(f) && Within(order, |f.segments|) && g < |f.segments| && f.wide
    ensures var r := PlaceSegments(f, order); g < |r.segments| && r.segments[g].memorySize >= f.segments[g].memorySize
  {
    hide PlaceSegment, SameUse;
    if order != [] {
      var n := |order| - 1;
      var m := PlaceSegments(f, order[..n]);
      MemoryNeverFalls(f, order[..n], g);
      LastSegment(f, order);
      if order[n] == g { NeverFallsNow(m, g); }
    }
  }

  lemma NeverFallsNow(f: File, g: nat)
    requires WellFormed(f) && g < |f.segments|
    ensures g < |PlaceSegment(f, g).segments|
    ensures f.wide ==> PlaceSegment(f, g).segments[g].memorySize >= f.segments[g].memorySize
  {
    hide Fill, Opening, Extends;
  }

  // ----- a segment with .data and .bss

  /**
   Types, flags and sizes as they stand in a file: PT_LOAD with SHT_PROGBITS of 0x10 and SHT_NOBITS of 0x100 bytes.
   */
  function BssFile(): File {
    File(true, 64, 56,
         [Section(0, 0, 0, 0, 0, false, 0), Section(1, 3, 0x10, 4, 0, false, 0), Section(8, 3, 0x100, 4, 0, false, 0)],
         [Segment(1, [1, 2], 0x2000, 4, false, 0, 0, 0)], [false, false, false], 120, true)
  }

  lemma BssFills()
    ensures var f := BssFile();
            && WellFormed(f) && Opening(f, 0) == (Filling(f, 0, 0), 120)
            && var q := Fill(Filling(f, 0, 0), 0, 120, 2); q.file.ok && q.file.end == 136
  {
    hide Fill, PlaceSection, Extends;
    var p := Filling(BssFile(), 0, 0);
    assert SegmentGap(120, 0x2000, 4) == 0;
    NoSections(p, 0, 120);
    FillStep(p, 0, 120, 1, 1);
    DataFirst(p);
    FillStep(p, 0, 120, 2, 2);
    BssSecond(PlaceSection(p, 0, 120, 1));
  }

  lemma DataFirst(p: Filling)
    requires p == Filling(BssFile(), 0, 0)
    ensures var q := PlaceSection(p, 0, 120, 1);
            q.file.ok && q.file.end == 136 && !q.file.generated[2] && q.file.sections[2] == BssFile().sections[2]
  {
    assert ToMultiple(120, 4) == 0;
  }

  lemma BssSecond(q: Filling)
    requires q.file.ok && q.file.end == 136 && |q.file.segments| == 1
    requires |q.file.generated| == |q.file.sections| == 3 && !q.file.generated[2]
    requires q.file.sections[2] == BssFile().sections[2]
    ensures var r := PlaceSection(q, 0, 120, 2); r.file.ok && r.file.end == 136
  {
    assert ToMultiple(136, 4) == 0;
  }

  /** Its memory size is the 0x10 bytes in the file and the 0x100 that are not. */
  lemma BssCounts()
    ensures PlaceSegment(BssFile(), 0).ok && PlaceSegment(BssFile(), 0).segments[0].memorySize == 0x110
  {
    hide Fill, Opening, PlaceSegment;
    var f := BssFile();
    BssFills();
    PlacedAsFilled(f, 0);
    PlaceSegmentShape(f, 0);
    BssLoaded();
    PlacedAsSized(f, 0);
    CutIsExact(true, 120);
    NewSegmentMemory(f, 0);
  }

  lemma BssLoaded()
    ensures var f := BssFile(); WellFormed(f) && BringsNew(f, 0) && Loaded(f, 0) && NobitsSizes(f, [1, 2], 2) == 0x100
  {
    var f := BssFile();
    assert Alloc(f.sections[1]) && Alloc(f.sections[2]) && !Tls(f.sections[2]);
    assert NobitsSizes(f, [1, 2], 1) == 0;
  }
}

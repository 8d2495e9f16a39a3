/**
 The writer that lays a file out in place (SIM/ELFIO/elfio/elfio.hpp, save and the layout methods
 it calls), proved to leave exactly the layout of module Layout.
 */
module LayoutWriter {
  import opened Layout
  import opened LayoutSafety
  import opened LayoutMeaning
  import opened LayoutSizes
  import SegmentOrder

  /** What the ordering of the segments looks at. */
  function View(segments: seq<Segment>, g: nat): SegmentOrder.Segment
    requires g < |segments|
  {
    SegmentOrder.Segment(g, segments[g].sections, segments[g].offsetSet, segments[g].offset)
  }

  function Views(segments: seq<Segment>): seq<SegmentOrder.Segment> {
    seq(|segments|, g requires 0 <= g < |segments| => View(segments, g))
  }

  function Indices(ordered: seq<SegmentOrder.Segment>): seq<nat> {
    seq(|ordered|, k requires 0 <= k < |ordered| => ordered[k].index)
  }

  /** A permutation of the segments names each of them once. */
  lemma OrderIsComplete(segments: seq<Segment>, ordered: seq<SegmentOrder.Segment>)
    requires multiset(ordered) == multiset(Views(segments))
    ensures Complete(Indices(ordered), |segments|)
    ensures forall k :: 0 <= k < |ordered| ==>
              ordered[k].index < |segments| && ordered[k] == View(segments, ordered[k].index)
  {
    var views, order := Views(segments), Indices(ordered);
    forall k | 0 <= k < |ordered| ensures ordered[k].index < |segments|
        && ordered[k] == View(segments, ordered[k].index) {
      assert ordered[k] in multiset(views);
    }
    forall g | 0 <= g < |segments| ensures g in order {
      assert views[g] in multiset(ordered);
      var k :| 0 <= k < |ordered| && ordered[k] == views[g];
      assert order[k] == g;
    }
    OrderNamesOnce(segments, ordered);
  }

  lemma OrderNamesOnce(segments: seq<Segment>, ordered: seq<SegmentOrder.Segment>)
    requires multiset(ordered) == multiset(Views(segments))
    requires forall k :: 0 <= k < |ordered| ==>
               ordered[k].index < |segments| && ordered[k] == View(segments, ordered[k].index)
    ensures forall i, j :: 0 <= i < j < |ordered| ==> ordered[i].index != ordered[j].index
  {
    hide View, Views;
    forall i, j | 0 <= i < j < |ordered| ensures ordered[i].index != ordered[j].index {
      if ordered[i].index == ordered[j].index {
        assert ordered == ordered[..i] + [ordered[i]] + ordered[i + 1..j] + [ordered[j]] + ordered[j + 1..];
        assert multiset(ordered)[ordered[i]] >= 2;
        OnceInViews(segments, ordered[i].index);
      }
    }
  }

  lemma OnceInViews(segments: seq<Segment>, g: nat)
    requires g < |segments|
    ensures multiset(Views(segments))[View(segments, g)] == 1
  {
    var views := Views(segments);
    assert views == views[..g] + [views[g]] + views[g + 1..];
    assert views[g] !in views[..g] && views[g] !in views[g + 1..];
    assert multiset(views) == multiset(views[..g]) + multiset{views[g]} + multiset(views[g + 1..]);
  }

  ghost predicate IsMaxAlign(align: Xword, seg: Segment, sections: seq<Section>, n: nat)
    requires n <= |seg.sections| && forall k :: 0 <= k < |seg.sections| ==> seg.sections[k] < |sections|
  {
    && seg.align <= align && (forall k :: 0 <= k < n ==> sections[seg.sections[k]].align <= align)
    && (align == seg.align || exists k :: 0 <= k < n && sections[seg.sections[k]].align == align)
  }

  /** The segments as they were, but for the largest alignment. */
  ghost predicate MaxAligned(was: seq<Segment>, now: seq<Segment>, sections: seq<Section>)
    requires forall g, j :: 0 <= g < |was| && 0 <= j < |was[g].sections| ==> was[g].sections[j] < |sections|
  {
    && |now| == |was|
    && forall g :: 0 <= g < |was| ==>
         now[g] == was[g].(align := now[g].align) && IsMaxAlign(now[g].align, was[g], sections, |was[g].sections|)
  }

  class ElfWriter {
    const wide: bool
    const headerSize: Half
    const segmentEntrySize: Half
    var sections: seq<Section>
    var segments: seq<Segment>
    var current_file_pos: Xword
    var sections_offset: Xword
    ghost var end: nat

    ghost predicate Valid()
      reads this
    {
      && current_file_pos == Wrap(end)
      && forall g, j :: 0 <= g < |segments| && 0 <= j < |segments[g].sections| ==> segments[g].sections[j] < |sections|
    }

    ghost function State(generated: seq<bool>, ok: bool): File
      reads this
    {
      File(wide, headerSize, segmentEntrySize, sections, segments, generated, end, ok)
    }

    /** Advances the position as 64-bit arithmetic does. */
    method Advance(amount: Xword)
      modifies this`current_file_pos, this`end
      requires Valid()
      ensures Valid() && end == old(end) + amount
    {
      current_file_pos := Wrap(current_file_pos + amount);
      end := end + amount;
    }

    /** Every segment takes the largest alignment among its own and its sections'. */
    method CalcSegmentAlignment()
      requires Valid()
      modifies this`segments
      ensures Valid() && |segments| == old(|segments|)
      ensures MaxAligned(old(segments), segments, sections)
    {
      ghost var was := segments;
      for g := 0 to |segments|
        invariant Valid() && |segments| == |was|
        invariant forall h :: g <= h < |was| ==> segments[h] == was[h]
        invariant forall h :: 0 <= h < g ==>
                    && segments[h] == was[h].(align := segments[h].align)
                    && IsMaxAlign(segments[h].align, was[h], sections, |was[h].sections|)
      {
        ghost var before := segments;
        for i := 0 to |segments[g].sections|
          invariant Valid() && |segments| == |was| && segments == before[g := segments[g]]
          invariant segments[g] == was[g].(align := segments[g].align)
          invariant IsMaxAlign(segments[g].align, was[g], sections, i)
        {
          var sect := sections[segments[g].sections[i]];
          if sect.align > segments[g].align {
            segments := segments[g := segments[g].(align := sect.align)];
          }
        }
      }
    }

    /** Puts a section of a segment at the position. */
    method PutHere(i: nat, vaddr: Xword, start: Xword)
      requires Valid() && i < |sections|
      modifies this`sections, this`current_file_pos, this`end
      ensures Valid()
      ensures sections == old(sections[i := Placed(sections[i], i, wide, vaddr, current_file_pos, start)])
      ensures end == old(end) + (if old(sections[i]).kind != SHT_NOBITS then old(sections[i]).size else 0)
    {
      if !sections[i].addressSet {
        var address := Cut(wide, Wrap(Wrap(vaddr + current_file_pos) - start));
        sections := sections[i := sections[i].(address := address, addressSet := true)];
      }
      if i != 0 {
        sections := sections[i := sections[i].(offset := Cut(wide, current_file_pos))];
      }
      if sections[i].kind != SHT_NOBITS {
        Advance(sections[i].size);
      }
    }

    /** One section inside a segment being laid out. */
    method LayoutSection(g: nat, start: Xword, i: nat, generated: seq<bool>, fileSize: Xword, memorySize: Xword)
      returns (generated': seq<bool>, fileSize': Xword, memorySize': Xword, ok: bool)
      requires Valid() && g < |segments| && i < |sections| == |generated|
      modifies this`sections, this`current_file_pos, this`end
      ensures Valid() && |sections| == |generated'| == |generated|
      ensures Filling(State(generated', ok), fileSize', memorySize')
           == PlaceSection(Filling(old(State(generated, true)), fileSize, memorySize), g, start, i)
    {
      hide ToMultiple, SectionGap, Alloc, Tls, Extends, Placed, SameKind;
      generated', fileSize', memorySize', ok := generated, fileSize, memorySize, true;
      var seg, sec := segments[g], sections[i];
      if sec.kind == SHT_NULL {
        generated' := generated[i := true];
        return;
      }
      var gap := SectionGap(sec, generated[i], seg.vaddr, current_file_pos, start, fileSize);
      SameGap(sec, generated[i], seg.vaddr, end, start, fileSize);
      if gap.Backwards? {
        ok := false;
        return;
      }
      if Alloc(sec) && !(Tls(sec) && seg.kind != PT_TLS && sec.kind == SHT_NOBITS) {
        memorySize' := Wrap(memorySize + Wrap(sec.size + gap.size));
      }
      if sec.kind != SHT_NOBITS {
        fileSize' := Wrap(fileSize + Wrap(sec.size + gap.size));
      }
      if generated[i] { return; }
      Advance(gap.size);
      PutHere(i, seg.vaddr, start);
      generated' := generated[i := true];
    }

    /** Where the segment starts, and the sizes it starts with. */
    method OpenSegment(g: nat, generated: seq<bool>) returns (start: Xword, fileSize: Xword, memorySize: Xword)
      requires Valid() && g < |segments| && |generated| == |sections|
      modifies this`current_file_pos, this`end
      ensures Valid() && WellFormed(old(State(generated, true)))
      ensures (Filling(State(generated, true), fileSize, memorySize), start) == Opening(old(State(generated, true)), g)
    {
      hide SegmentGap, Extends;
      ValidIsWellFormed(generated);
      var seg := segments[g];
      start, fileSize, memorySize := current_file_pos, 0, 0;
      if seg.kind == PT_PHDR && |seg.sections| == 0 {
        start := headerSize;
        fileSize := Wrap(segmentEntrySize * (|segments| % 0x1_0000));
        memorySize := fileSize;
      } else if seg.offsetSet && seg.offset == 0 {
        start := 0;
        if |seg.sections| > 0 {
          fileSize, memorySize := current_file_pos, current_file_pos;
        }
      } else if |seg.sections| > 0 && !generated[seg.sections[0]] {
        Advance(SegmentGap(current_file_pos, seg.vaddr, seg.align));
        start := current_file_pos;
      } else if |seg.sections| > 0 {
        start := sections[seg.sections[0]].offset;
      }
    }

    /** One segment with all its sections. */
    method LayoutSegment(g: nat, generated: seq<bool>) returns (generated': seq<bool>, ok: bool)
      requires Valid() && g < |segments| && |generated| == |sections|
      modifies this`sections, this`segments, this`current_file_pos, this`end
      ensures Valid() && |generated'| == |sections|
      ensures WellFormed(old(State(generated, true)))
      ensures State(generated', ok) == PlaceSegment(old(State(generated, true)), g)
    {
      hide PlaceSection, Opening, Extends, SameUse, Cut;
      ghost var f := State(generated, true);
      var seg := segments[g];
      var start, fileSize, memorySize := OpenSegment(g, generated);
      ghost var p := Filling(State(generated, true), fileSize, memorySize);
      generated', ok := generated, true;
      for j := 0 to |seg.sections|
        invariant Valid() && |generated'| == |sections| == |generated| && segments == f.segments
        invariant Filling(State(generated', ok), fileSize, memorySize) == Fill(p, g, start, j)
        invariant ok
      {
        generated', fileSize, memorySize, ok := LayoutSection(g, start, seg.sections[j], generated', fileSize,
            memorySize);
        if !ok {
          Stuck(p, g, start, j + 1, |seg.sections|);
          return;
        }
      }
      segments := segments[g := Sized(seg, wide, start, fileSize, memorySize)];
    }

    /** The segments in their order, with the sections they hold. */
    method LayoutSegmentsAndTheirSections()
      returns (ok: bool, ghost order: seq<nat>, ghost generated: seq<bool>, ghost places: seq<nat>)
      requires Valid()
      modifies this`sections, this`segments, this`current_file_pos, this`end
      ensures Valid() && Complete(order, old(|segments|)) && EnclosingFirst(old(segments), order)
      ensures ZeroFirst(old(segments), order) && TakenInRounds(old(segments), order, places)
      ensures |sections| == old(|sections|) == |generated|
      ensures WellFormed(old(State(seq(|sections|, _ => false), true)))
      ensures State(generated, ok) == PlaceSegments(old(State(seq(|sections|, _ => false), true)), order)
    {
      hide PlaceSegment, PlaceSegments, Extends, SameUse, Complete, EnclosingFirst, ZeroFirst, TakenInRounds,
           WellFormed;
      var sectionGenerated := seq(|sections|, _ => false);
      ghost var f := State(sectionGenerated, true);
      var worklist;
      worklist, places := SegmentOrder.GetOrderedSegments(Views(segments));
      order := Indices(worklist);
      generated := sectionGenerated;
      OrderIsComplete(segments, worklist);
      OrderEncloses(segments, worklist);
      OrderFromZero(segments, worklist);
      OrderInRounds(segments, worklist, places);
      ValidIsWellFormed(sectionGenerated);
      CompleteIsWithin(order, |segments|);
      NoSegmentsYet(f);
      ok := true;
      for k := 0 to |worklist|
        invariant Valid() && |sectionGenerated| == |sections| == |f.sections| && |segments| == |f.segments|
        invariant State(sectionGenerated, ok) == PlaceSegments(f, order[..k])
        invariant ok && generated == sectionGenerated
      {
        PlaceSegmentsStep(f, order, k);
        sectionGenerated, ok := LayoutSegment(worklist[k].index, sectionGenerated);
        generated := sectionGenerated;
        if !ok {
          AbortedStays(f, order, k + 1);
          return;
        }
      }
      assert order[..|order|] == order;
    }

    lemma ValidIsWellFormed(generated: seq<bool>)
      requires Valid() && |generated| == |sections|
      ensures WellFormed(State(generated, true))
    {}

    method IsSectionWithoutSegment(i: nat) returns (r: bool)
      ensures r <==> forall g :: 0 <= g < |segments| ==> i !in segments[g].sections
    {
      var found := false;
      var j := 0;
      while !found && j < |segments|
        invariant 0 <= j <= |segments|
        invariant found <==> exists g :: 0 <= g < j && i in segments[g].sections
        decreases |segments| - j
      {
        var k := 0;
        while !found && k < |segments[j].sections|
          invariant 0 <= k <= |segments[j].sections|
          invariant found <==> i in segments[j].sections[..k]
          decreases |segments[j].sections| - k
        {
          found := segments[j].sections[k] == i;
          k := k + 1;
        }
        assert segments[j].sections[..|segments[j].sections|] == segments[j].sections;
        j := j + 1;
      }
      r := !found;
    }

    /** Puts a section of no segment at the next multiple of its alignment. */
    method PutLoose(i: nat)
      requires Valid() && i < |sections|
      modifies this`sections, this`current_file_pos, this`end
      ensures Valid()
      ensures var s := old(sections[i]);
              var at := old(end) + LooseGap(old(current_file_pos), s.align);
              && sections == old(sections)[i := if i != 0 then s.(offset := Cut(wide, Wrap(at))) else s]
              && end == if s.kind != SHT_NOBITS && s.kind != SHT_NULL then at + s.size else at
    {
      hide Cut;
      var sec := sections[i];
      if sec.align > 1 && current_file_pos % sec.align != 0 {
        Advance(sec.align - current_file_pos % sec.align);
      }
      if i != 0 {
        sections := sections[i := sec.(offset := Cut(wide, current_file_pos))];
      }
      if sec.kind != SHT_NOBITS && sec.kind != SHT_NULL {
        Advance(sec.size);
      }
    }

    method LayoutLooseSection(i: nat, ghost generated: seq<bool>)
      requires Valid() && i < |sections|
      modifies this`sections, this`current_file_pos, this`end
      ensures Valid() && |sections| == old(|sections|)
      ensures State(generated, true) == PlaceLoose(old(State(generated, true)), i)
    {
      hide Cut, LooseGap;
      var loose := IsSectionWithoutSegment(i);
      if loose { PutLoose(i); }
    }

    /** The sections no segment holds, after everything else. */
    method LayoutSectionsWithoutSegments(ghost generated: seq<bool>)
      requires Valid() && |generated| == |sections|
      modifies this`sections, this`current_file_pos, this`end
      ensures Valid()
      ensures State(generated, true) == PlaceLooseUpTo(old(State(generated, true)), old(|sections|))
    {
      hide SameKind, PlaceLoose;
      ghost var f := State(generated, true);
      for i := 0 to |sections|
        invariant Valid() && |sections| == |f.sections| && segments == f.segments
        invariant State(generated, true) == PlaceLooseUpTo(f, i)
      {
        LayoutLooseSection(i, generated);
      }
    }

    /** The section table on the next multiple of 4, less than 4 bytes on. */
    method LayoutSectionTable()
      requires Valid()
      modifies this`current_file_pos, this`end, this`sections_offset
      ensures Valid() && end == SectionTable(old(end))
      ensures old(end) <= end < old(end) + 4 && sections_offset == Cut(wide, end) && sections_offset % 4 == 0
    {
      hide Wrap, Cut;
      NextWord(wide, end);
      var alignmentError := current_file_pos % 4;
      Advance((4 - alignmentError) % 4);
      sections_offset := Cut(wide, current_file_pos);
    }

    /**
     The layout part of save. When it succeeds and the file fits the offset width, the sections that fill
     bytes are apart, after the headers and before the section table.
     */
    method Save() returns (ok: bool, ghost start: File, ghost order: seq<nat>, ghost places: seq<nat>)
      requires Valid()
      modifies this
      ensures Valid() && |sections| == old(|sections|) && Start(start) && Complete(order, |start.segments|)
      ensures start.sections == old(sections) && MaxAligned(old(segments), start.segments, old(sections))
      ensures EnclosingFirst(start.segments, order) && ZeroFirst(start.segments, order)
      ensures TakenInRounds(start.segments, order, places)
      ensures ok <==> !SomeGoesBack(start, order)
      ensures var r := LaidOut(start, order);
              ok ==> sections == r.sections && segments == r.segments && end == SectionTable(r.end)
      ensures ok ==> sections_offset == Cut(wide, end) && sections_offset % 4 == 0
      ensures ok && end < Limit(wide) ==> SafelyPlaced(AfterHeaders(start), sections, sections_offset)
    {
      hide PlaceSegments, PlaceLooseUpTo, EnclosingFirst, ZeroFirst, TakenInRounds, Complete, SafelyPlaced, MaxAligned,
           Extends, SomeGoesBack;
      current_file_pos := Wrap(headerSize + Wrap(segmentEntrySize * (|segments| % 0x1_0000)));
      end := headerSize + Wrap(segmentEntrySize * (|segments| % 0x1_0000));
      CalcSegmentAlignment();
      start := State(seq(|sections|, _ => false), true);
      ghost var generated;
      ok, order, generated, places := LayoutSegmentsAndTheirSections();
      CompleteIsWithin(order, |start.segments|);
      SucceedsExactly(start, order);
      if ok {
        LayoutSectionsWithoutSegments(generated);
        assert State(generated, true) == LaidOut(start, order);
        LayoutSectionTable();
        if end < Limit(wide) {
          SectionsAreDisjoint(start, order);
          CutIsExact(wide, end);
        }
      }
    }
  }

  lemma SameGap(s: Section, generated: bool, vaddr: Xword, end: nat, start: Xword, fileSize: Xword)
    ensures SectionGap(s, generated, vaddr, end, start, fileSize)
            == SectionGap(s, generated, vaddr, Wrap(end), start, fileSize)
  {
    assert Wrap(Wrap(end)) == Wrap(end);
  }

  lemma NextWord(wide: bool, end: nat)
    ensures var t := SectionTable(end);
            end <= t < end + 4 && Cut(wide, Wrap(t)) == Cut(wide, t) && Cut(wide, t) % 4 == 0
  {
    hide Cut, Wrap;
    SectionTableOnWord(end);
    WordsStay(wide, SectionTable(end));
  }

  lemma SectionTableOnWord(end: nat)
    ensures end <= SectionTable(end) < end + 4 && SectionTable(end) % 4 == 0
  {}

  lemma WordsStay(wide: bool, t: nat)
    requires t % 4 == 0
    ensures Cut(wide, Wrap(t)) == Cut(wide, t) && Cut(wide, t) % 4 == 0
  {
    hide Cut, Wrap;
    var k := WrapQuotient(t);
    CutWhole(wide, t, k);
    CutDrops(wide, t, t / Limit(wide));
  }

  lemma CutDrops(wide: bool, t: nat, k: nat)
    requires k == t / Limit(wide)
    ensures Cut(wide, t) == if wide then t - k * 0x1_0000_0000_0000_0000 else t - k * 0x1_0000_0000
  {}

  lemma CompleteIsWithin(order: seq<nat>, n: nat)
    requires Complete(order, n)
    ensures Within(order, n) && Distinct(order)
  {}

  lemma NoSegmentsYet(f: File)
    requires WellFormed(f)
    ensures PlaceSegments(f, []) == f
  {}

  lemma PlaceSegmentsStep(f: File, order: seq<nat>, k: nat)
    requires WellFormed(f) && Within(order, |f.segments|) && k < |order|
    ensures var m, r := PlaceSegments(f, order[..k]), PlaceSegments(f, order[..k + 1]);
            && WellFormed(m) && |m.segments| == |r.segments| == |f.segments| && r == PlaceSegment(m, order[k])
            && |r.generated| == |r.sections| == |f.sections|
  {
    hide PlaceSegment;
    assert order[..k + 1][..k] == order[..k];
  }

  /** Once a section would have to go backwards, the rest of the segment changes nothing. */
  lemma {:induction false} Stuck(p: Filling, g: nat, start: Xword, n: nat, m: nat)
    requires WellFormed(p.file) && g < |p.file.segments| && n <= m <= |p.file.segments[g].sections|
    requires !Fill(p, g, start, n).file.ok
    ensures Fill(p, g, start, m) == Fill(p, g, start, n)
  {
    if n < m { Stuck(p, g, start, n, m - 1); }
  }

  lemma {:induction false} AbortedStays(f: File, order: seq<nat>, k: nat)
    requires WellFormed(f) && Within(order, |f.segments|) && k <= |order|
    requires !PlaceSegments(f, order[..k]).ok
    ensures PlaceSegments(f, order) == PlaceSegments(f, order[..k])
  {
    var n := |order| - 1;
    if k <= n {
      assert order[..n][..k] == order[..k];
      AbortedStays(f, order[..n], k);
    } else {
      assert order[..k] == order;
    }
  }

  // ----- enclosed segments

  /** A segment whose section list is found inside a longer one comes after it. */
  ghost predicate EnclosingFirst(segments: seq<Segment>, order: seq<nat>) {
    forall a, b | 0 <= a < |order| && 0 <= b < |order| && order[a] < |segments| && order[b] < |segments| ::
      SegmentOrder.Nested(View(segments, order[a]), View(segments, order[b])) ==> b < a
  }

  lemma OrderEncloses(segments: seq<Segment>, ordered: seq<SegmentOrder.Segment>)
    requires multiset(ordered) == multiset(Views(segments)) && SegmentOrder.Ordered(ordered)
    ensures EnclosingFirst(segments, Indices(ordered))
  {
    hide SegmentOrder.Nested, Complete;
    OrderIsComplete(segments, ordered);
    var order := Indices(ordered);
    forall a, b | 0 <= a < |order| && 0 <= b < |order|
      && SegmentOrder.Nested(View(segments, order[a]), View(segments, order[b]))
      ensures b < a
    {
      assert View(segments, order[a]) == ordered[a] && View(segments, order[b]) == ordered[b];
      if a == b { SegmentOrder.NotNestedInItself(ordered[a]); }
    }
  }

  /**
   In front of a segment that starts at file offset 0, and that none encloses, only segments with offset 0 are laid
   out.
   */
  ghost predicate ZeroFirst(segments: seq<Segment>, order: seq<nat>) {
    forall i, j | 0 <= i < j < |order| && order[i] < |segments| && order[j] < |segments| ::
      segments[order[j]].offsetSet && segments[order[j]].offset == 0 && Unenclosed(segments, order[j])
      ==> segments[order[i]].offset == 0
  }

  ghost predicate Unenclosed(segments: seq<Segment>, g: nat)
    requires g < |segments|
  {
    forall h :: 0 <= h < |segments| ==> !SegmentOrder.Nested(View(segments, g), View(segments, h))
  }

  /** The order is the one of the rounds: places names where each segment stands after the first loop. */
  ghost predicate TakenInRounds(segments: seq<Segment>, order: seq<nat>, places: seq<nat>) {
    var first := SegmentOrder.Fronted(Views(segments));
    && SegmentOrder.InRounds(first, places) && |places| == |order|
    && forall k :: 0 <= k < |order| ==> places[k] < |first| && first[places[k]].index == order[k]
  }

  lemma OrderFromZero(segments: seq<Segment>, ordered: seq<SegmentOrder.Segment>)
    requires multiset(ordered) == multiset(Views(segments)) && SegmentOrder.ZerosFirst(ordered)
    ensures ZeroFirst(segments, Indices(ordered))
  {
    hide SegmentOrder.Nested, Complete;
    OrderIsComplete(segments, ordered);
    var order := Indices(ordered);
    forall i, j | 0 <= i < j < |order|
      && segments[order[j]].offsetSet && segments[order[j]].offset == 0 && Unenclosed(segments, order[j])
      ensures segments[order[i]].offset == 0
    {
      forall t | t in ordered ensures !SegmentOrder.Nested(ordered[j], t) {
        var k :| 0 <= k < |ordered| && ordered[k] == t;
        assert t == View(segments, order[k]);
      }
      assert SegmentOrder.StartsAtZero(ordered[j]) && SegmentOrder.Free(ordered, ordered[j]);
    }
  }

  lemma OrderInRounds(segments: seq<Segment>, ordered: seq<SegmentOrder.Segment>, places: seq<nat>)
    requires SegmentOrder.InRounds(SegmentOrder.Fronted(Views(segments)), places)
    requires ordered == SegmentOrder.Pick(SegmentOrder.Fronted(Views(segments)), places)
    ensures TakenInRounds(segments, Indices(ordered), places)
  {
    hide SegmentOrder.Round, SegmentOrder.Fronted;
  }

  /**
   Over a whole save: an enclosed segment starts exactly where its first section was put, or at 0 if that was its
   offset.
   */
  lemma EnclosedSegmentsStartAtTheirSections(f: File, order: seq<nat>, g: nat, h: nat)
    requires Start(f) && Complete(order, |f.segments|) && EnclosingFirst(f.segments, order)
    requires g < |f.segments| && h < |f.segments| && f.segments[g].sections != []
    requires SegmentOrder.Nested(View(f.segments, g), View(f.segments, h))
    requires LaidOut(f, order).ok
    ensures var r, seg := LaidOut(f, order), f.segments[g];
            r.segments[g].offset
            == if seg.offsetSet && seg.offset == 0 then 0 else Cut(f.wide, r.sections[seg.sections[0]].offset)
  {
    hide PlaceSegments, PlaceLooseUpTo, SameKind, SegmentOrder.Nested, Cut;
    assert g in order && h in order;
    var p :| 0 <= p < |order| && order[p] == g;
    var q :| 0 <= q < |order| && order[q] == h;
    var first := f.segments[g].sections[0];
    SegmentOrder.NestedIsContained(View(f.segments, g), View(f.segments, h), first);
    EnclosedSegmentStart(f, order, p, q);
    var m := PlaceSegments(f, order);
    assert SameUse(f.segments[g], m.segments[g]);
    assert m.segments[g].sections == f.segments[g].sections;
    assert !InNoSegment(m, first);
  }
}

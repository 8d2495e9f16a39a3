/** What the layout guarantees: no overlap in the file, alignment, and addresses that agree with offsets. */
module LayoutSafety {
  import opened Layout

  // ----- disjoint ranges

  /** A section that fills bytes of the file. */
  predicate FillsBytes(sections: seq<Section>, i: nat)
    requires i < |sections|
  {
    i != 0 && sections[i].kind != SHT_NULL && sections[i].kind != SHT_NOBITS
  }

  predicate Solid(f: File, i: nat)
    requires i < |f.sections|
  {
    FillsBytes(f.sections, i)
  }

  /** Section i has its place, when the first n loose sections have theirs. */
  predicate Settled(f: File, i: nat, n: nat)
    requires i < |f.sections| == |f.generated|
  {
    f.generated[i] || (i < n && InNoSegment(f, i))
  }

  function End(s: Section): nat { s.offset + s.size }

  predicate Apart(s: Section, t: Section) { End(s) <= t.offset || End(t) <= s.offset }

  /** Every settled section lies between the headers and the position, and no two of them meet. */
  ghost predicate Sound(f: File, n: nat) {
    && |f.generated| == |f.sections| && AfterHeaders(f) <= f.end
    && (forall i :: 0 <= i < |f.sections| && Solid(f, i) && Settled(f, i, n) ==>
          AfterHeaders(f) <= f.sections[i].offset && End(f.sections[i]) <= f.end)
    && (forall i, j | 0 <= i < |f.sections| && 0 <= j < |f.sections| && i != j && Solid(f, i) && Solid(f, j) ::
          Settled(f, i, n) && Settled(f, j, n) ==> Apart(f.sections[i], f.sections[j]))
  }

  lemma CutIsExact(wide: bool, n: nat)
    requires n < Limit(wide)
    ensures Wrap(n) == n && Cut(wide, n) == n
  {}

  /** A section put at the position, with the position moved past it. */
  lemma AddedIsSound(f: File, i: nat, at: nat, r: File, n: nat, m: nat)
    requires Sound(f, n) && i < |f.sections| && f.end <= at
    requires |r.generated| == |r.sections| == |f.sections| && AfterHeaders(r) == AfterHeaders(f) && r.end >= at
    requires forall k :: 0 <= k < |f.sections| && k != i ==> r.sections[k] == f.sections[k]
    requires forall k :: 0 <= k < |f.sections| && k != i && Settled(r, k, m) ==> Settled(f, k, n)
    requires Solid(r, i) ==> r.sections[i].offset == at && End(r.sections[i]) <= r.end
    ensures Sound(r, m)
  {
    hide AfterHeaders, Settled;
    forall k | 0 <= k < |f.sections| && k != i ensures Solid(r, k) == Solid(f, k) {}
  }

  lemma PlaceSectionSound(p: Filling, g: nat, start: Xword, i: nat)
    requires g < |p.file.segments| && i < |p.file.sections| == |p.file.generated|
    requires Sound(p.file, 0)
    ensures var r := PlaceSection(p, g, start, i).file; r.end < Limit(r.wide) ==> Sound(r, 0)
  {
    hide ToMultiple, Alloc, Tls, Sound;
    var f, s, seg := p.file, p.file.sections[i], p.file.segments[g];
    var r := PlaceSection(p, g, start, i).file;
    if r.end < Limit(r.wide) {
      if f.ok && s.kind != SHT_NULL && !f.generated[i] {
        var gap := SectionGap(s, false, seg.vaddr, f.end, start, p.fileSize);
        if gap.Gap? {
          CutIsExact(f.wide, f.end + gap.size);
          AddedIsSound(f, i, f.end + gap.size, r, 0, 0);
        } else {
          SameSound(f, r);
        }
      } else if f.ok && s.kind == SHT_NULL {
        AddedIsSound(f, i, f.end, r, 0, 0);
      }
    }
  }

  lemma SameSound(f: File, r: File)
    requires Sound(f, 0) && r.sections == f.sections && r.generated == f.generated && AfterHeaders(r) == AfterHeaders(f)
    requires r.end >= f.end
    ensures Sound(r, 0)
  {
    hide AfterHeaders;
    forall i | 0 <= i < |f.sections| ensures Solid(r, i) == Solid(f, i) && Settled(r, i, 0) == Settled(f, i, 0) {}
  }

  lemma {:induction false} FillSound(p: Filling, g: nat, start: Xword, n: nat)
    requires WellFormed(p.file) && g < |p.file.segments| && n <= |p.file.segments[g].sections|
    requires Sound(p.file, 0)
    ensures var r := Fill(p, g, start, n).file; r.end < Limit(r.wide) ==> Sound(r, 0)
  {
    hide Sound, PlaceSection;
    if n > 0 {
      FillSound(p, g, start, n - 1);
      var q := Fill(p, g, start, n - 1);
      if q.file.end < Limit(q.file.wide) {
        PlaceSectionSound(q, g, start, q.file.segments[g].sections[n - 1]);
      }
    }
  }

  lemma PlaceSegmentSound(f: File, g: nat)
    requires WellFormed(f) && g < |f.segments| && Sound(f, 0)
    ensures var r := PlaceSegment(f, g); r.end < Limit(r.wide) ==> Sound(r, 0)
  {
    hide Sound, SegmentGap, Fill, Sized;
    if f.ok {
      var (p, start) := Opening(f, g);
      SameSound(f, p.file);
      FillSound(p, g, start, |f.segments[g].sections|);
      var q := Fill(p, g, start, |f.segments[g].sections|);
      if q.file.end < Limit(f.wide) { SameSound(q.file, PlaceSegment(f, g)); }
    }
  }

  lemma {:induction false} PlaceSegmentsSound(f: File, order: seq<nat>)
    requires WellFormed(f) && Within(order, |f.segments|) && Sound(f, 0)
    ensures var r := PlaceSegments(f, order); r.end < Limit(r.wide) ==> Sound(r, 0)
  {
    hide Sound, PlaceSegment;
    if order != [] {
      var n := |order| - 1;
      PlaceSegmentsSound(f, order[..n]);
      var m := PlaceSegments(f, order[..n]);
      if PlaceSegment(m, order[n]).end < Limit(f.wide) { PlaceSegmentSound(m, order[n]); }
    }
  }

  lemma PlaceLooseSound(f: File, i: nat)
    requires i < |f.sections| && Sound(f, i)
    ensures var r := PlaceLoose(f, i); r.end < Limit(r.wide) ==> Sound(r, i + 1)
  {
    hide Sound, LooseGap;
    var r := PlaceLoose(f, i);
    assert |f.generated| == |f.sections| && AfterHeaders(f) <= f.end by { SoundShape(f, i); }
    if r.end < Limit(r.wide) {
      if InNoSegment(f, i) {
        var at := f.end + LooseGap(Wrap(f.end), f.sections[i].align);
        CutIsExact(f.wide, at);
        AddedIsSound(f, i, at, r, i, i + 1);
      } else {
        MoreLoose(f, i);
      }
    }
  }

  lemma SoundShape(f: File, n: nat)
    requires Sound(f, n)
    ensures |f.generated| == |f.sections| && AfterHeaders(f) <= f.end
  {}

  lemma MoreLoose(f: File, i: nat)
    requires i < |f.sections| && Sound(f, i) && !InNoSegment(f, i)
    ensures Sound(f, i + 1)
  {
    hide AfterHeaders, InNoSegment;
    forall k | 0 <= k < |f.sections| ensures Settled(f, k, i + 1) == Settled(f, k, i) {}
  }

  lemma {:induction false} PlaceLooseUpToSound(f: File, n: nat)
    requires n <= |f.sections| && Sound(f, 0)
    ensures var r := PlaceLooseUpTo(f, n); r.end < Limit(r.wide) ==> Sound(r, n)
  {
    hide Sound, PlaceLoose;
    if n > 0 {
      PlaceLooseUpToSound(f, n - 1);
      var m := PlaceLooseUpTo(f, n - 1);
      if PlaceLooseUpTo(f, n).end < Limit(f.wide) {
        LooseForward(m, n - 1);
        PlaceLooseSound(m, n - 1);
      }
    }
  }

  lemma LooseForward(f: File, i: nat)
    requires i < |f.sections|
    ensures PlaceLoose(f, i).end >= f.end && PlaceLoose(f, i).wide == f.wide
  {}

  // ----- every section gets its place

  /** The last step of filling a segment. */
  lemma FillStep(p: Filling, g: nat, start: Xword, n: nat, i: nat)
    requires WellFormed(p.file) && g < |p.file.segments| && 0 < n <= |p.file.segments[g].sections|
             && i < |p.file.sections|
    ensures var q, r := Fill(p, g, start, n - 1), Fill(p, g, start, n);
            && |q.file.sections| == |q.file.generated| == |p.file.sections| == |r.file.sections|
               && q.file.segments == p.file.segments
            && |p.file.generated| == |p.file.sections| == |r.file.generated|
            && r == PlaceSection(q, g, start, p.file.segments[g].sections[n - 1])
            && q.file.wide == r.file.wide == p.file.wide
            && (q.file.generated[i] ==> r.file.sections[i] == q.file.sections[i])
            && (!q.file.generated[i] && r.file.generated[i] ==> p.file.segments[g].sections[n - 1] == i)
            && (q.file.generated[i] ==> r.file.generated[i])
            && (r.file.ok ==> q.file.ok) && q.file.end <= r.file.end
  {
    hide SectionGap, Alloc, Tls, SameKind;
  }

  lemma {:induction false} FillGenerates(p: Filling, g: nat, start: Xword, n: nat, j: nat)
    requires WellFormed(p.file) && g < |p.file.segments| && j < n <= |p.file.segments[g].sections|
    requires Fill(p, g, start, n).file.ok
    ensures Fill(p, g, start, n).file.generated[p.file.segments[g].sections[j]]
  {
    hide Fill, PlaceSection, WellFormed;
    var i := p.file.segments[g].sections[j];
    HeldInside(p.file, g, j);
    FillStep(p, g, start, n, i);
    if j < n - 1 {
      FillGenerates(p, g, start, n - 1, j);
    } else {
      StepGenerates(Fill(p, g, start, n - 1), g, start, i);
    }
  }

  lemma HeldInside(f: File, g: nat, j: nat)
    requires WellFormed(f) && g < |f.segments| && j < |f.segments[g].sections|
    ensures f.segments[g].sections[j] < |f.sections|
  {}

  lemma StepGenerates(p: Filling, g: nat, start: Xword, i: nat)
    requires g < |p.file.segments| && i < |p.file.sections| == |p.file.generated|
             && PlaceSection(p, g, start, i).file.ok
    ensures PlaceSection(p, g, start, i).file.generated[i]
  {
    hide SectionGap, Alloc, Tls, Extends;
  }

  lemma {:induction false} AllGenerated(f: File, order: seq<nat>, k: nat, j: nat)
    requires WellFormed(f) && Within(order, |f.segments|) && k < |order| && PlaceSegments(f, order).ok
    requires j < |f.segments[order[k]].sections|
    ensures PlaceSegments(f, order).generated[f.segments[order[k]].sections[j]]
  {
    hide PlaceSegment, SameKind, SameUse;
    var n := |order| - 1;
    var m := PlaceSegments(f, order[..n]);
    if k < n {
      AllGenerated(f, order[..n], k, j);
    } else {
      assert SameUse(f.segments[order[n]], m.segments[order[n]]);
      SameSections(f.segments[order[n]], m.segments[order[n]]);
      SegmentGenerates(m, order[n], j);
    }
  }

  lemma SegmentGenerates(f: File, g: nat, j: nat)
    requires WellFormed(f) && g < |f.segments| && j < |f.segments[g].sections| && PlaceSegment(f, g).ok
    ensures var i, r := f.segments[g].sections[j], PlaceSegment(f, g); i < |r.generated| && r.generated[i]
  {
    hide Fill, Opening, Sized, SameUse, SameKind;
    var (p, start) := Opening(f, g);
    FillGenerates(p, g, start, |f.segments[g].sections|, j);
  }

  lemma SameSections(s: Segment, t: Segment)
    requires SameUse(s, t)
    ensures s.sections == t.sections && s.vaddr == t.vaddr
  {}

  // ----- the main statements

  ghost predicate Start(f: File) {
    WellFormed(f) && f.ok && f.end == AfterHeaders(f) && forall i :: 0 <= i < |f.generated| ==> !f.generated[i]
  }

  ghost predicate Complete(order: seq<nat>, n: nat) {
    && Within(order, n) && (forall g :: 0 <= g < n ==> g in order)
    && (forall i, j :: 0 <= i < j < |order| ==> order[i] != order[j])
  }

  /** All sections that fill bytes lie between two offsets and apart from each other. */
  ghost predicate SafelyPlaced(low: nat, sections: seq<Section>, high: nat) {
    && (forall i :: 0 <= i < |sections| && FillsBytes(sections, i) ==>
          low <= sections[i].offset && End(sections[i]) <= high)
    && (forall i, j | 0 <= i < j < |sections| :: FillsBytes(sections, i) && FillsBytes(sections, j) ==>
          Apart(sections[i], sections[j]))
  }

  /**
   As long as the position never passes the offset width, all sections that fill bytes lie after the
   headers, before the section table, and apart from each other.
   */
  lemma SectionsAreDisjoint(f: File, order: seq<nat>)
    requires Start(f) && Complete(order, |f.segments|)
    requires LaidOut(f, order).ok && LaidOut(f, order).end < Limit(f.wide)
    ensures var r := LaidOut(f, order); SafelyPlaced(AfterHeaders(f), r.sections, SectionTable(r.end))
  {
    hide PlaceSegments, PlaceLooseUpTo, InNoSegment;
    var m := PlaceSegments(f, order);
    PlaceSegmentsSound(f, order);
    PlaceLooseUpToSound(m, |m.sections|);
    var r := LaidOut(f, order);
    forall i | 0 <= i < |r.sections| ensures Settled(r, i, |r.sections|) { EverySettled(f, order, i); }
  }

  lemma EverySettled(f: File, order: seq<nat>, i: nat)
    requires WellFormed(f) && Complete(order, |f.segments|) && LaidOut(f, order).ok && i < |f.sections|
    ensures var r := LaidOut(f, order); |r.generated| == |r.sections| && Settled(r, i, |r.sections|)
  {
    hide PlaceSegments, PlaceLooseUpTo;
    var r := LaidOut(f, order);
    if !InNoSegment(r, i) {
      var g :| 0 <= g < |r.segments| && i in r.segments[g].sections;
      assert g in order;
      var k :| 0 <= k < |order| && order[k] == g;
      var j :| 0 <= j < |r.segments[g].sections| && r.segments[g].sections[j] == i;
      AllGenerated(f, order, k, j);
    }
  }
}

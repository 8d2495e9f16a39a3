/** How much room the layout of a new file wastes at most. */
module LayoutTight {
  import opened Layout
  import opened LayoutSafety
  import opened LayoutMeaning
  import opened LayoutSizes

  /** The contents of a section, and less than one alignment in front of them. */
  function Cost(s: Section): nat {
    (if s.kind == SHT_NOBITS || s.kind == SHT_NULL then 0 else s.size) + (Unit(s.align) - 1)
  }

  /** The costs of those of the first n sections that still have to be placed. */
  function Open(sections: seq<Section>, generated: seq<bool>, n: nat): nat
    requires n <= |sections| == |generated|
  {
    if n == 0 then 0 else Open(sections, generated, n - 1) + if generated[n - 1] then 0 else Cost(sections[n - 1])
  }

  function OpenIn(f: File): nat
    requires |f.generated| == |f.sections|
  {
    Open(f.sections, f.generated, |f.sections|)
  }

  lemma {:induction false} OpenSame(a: seq<Section>, b: seq<Section>, generated: seq<bool>, n: nat)
    requires n <= |a| == |b| == |generated|
    requires forall i :: 0 <= i < n ==> Cost(a[i]) == Cost(b[i])
    ensures Open(a, generated, n) == Open(b, generated, n)
  {
    hide Cost;
    if n > 0 { OpenSame(a, b, generated, n - 1); }
  }

  lemma {:induction false} OpenLess(a: seq<Section>, generated: seq<bool>, i: nat, n: nat)
    requires n <= |a| == |generated| && i < |a| && !generated[i]
    ensures Open(a, generated[i := true], n) == Open(a, generated, n) - if i < n then Cost(a[i]) else 0
  {
    hide Cost;
    if n > 0 { OpenLess(a, generated, i, n - 1); }
  }

  lemma ToMultipleIsLess(pos: Xword, align: Xword)
    ensures ToMultiple(pos, align) < Unit(align)
  {}

  lemma LooseGapIsLess(pos: Xword, align: Xword)
    ensures LooseGap(pos, align) < Unit(align)
  {}

  lemma SegmentGapIsLess(pos: Xword, vaddr: Xword, align: Xword)
    ensures SegmentGap(pos, vaddr, align) < Unit(align)
  {
    hide Wrap;
  }

  /** One section moves the position by no more than it costs. */
  lemma StepTight(p: Filling, g: nat, start: Xword, i: nat)
    requires g < |p.file.segments| && i < |p.file.sections| == |p.file.generated| && AddressesAreOurs(p.file)
    ensures var r := PlaceSection(p, g, start, i).file; r.end + OpenIn(r) <= p.file.end + OpenIn(p.file)
  {
    hide ToMultiple, Cut, Wrap, Alloc, Tls, Open, Unit, Extends;
    var f, s := p.file, p.file.sections[i];
    var r := PlaceSection(p, g, start, i).file;
    OpenSame(f.sections, r.sections, r.generated, |f.sections|) by { CostsStay(p, g, start, i); }
    if f.ok && !f.generated[i] {
      ToMultipleIsLess(Wrap(f.end), s.align);
      OpenLess(f.sections, f.generated, i, |f.sections|);
    } else {
      assert f.generated[i] ==> f.generated[i := true] == f.generated;
    }
  }

  lemma CostsStay(p: Filling, g: nat, start: Xword, i: nat)
    requires g < |p.file.segments| && i < |p.file.sections| == |p.file.generated|
    ensures var r := PlaceSection(p, g, start, i).file;
            |r.sections| == |p.file.sections| == |r.generated|
            && forall k :: 0 <= k < |r.sections| ==> Cost(p.file.sections[k]) == Cost(r.sections[k])
  {
    hide PlaceSection, Cost;
    var r := PlaceSection(p, g, start, i).file;
    forall k | 0 <= k < |r.sections| ensures Cost(p.file.sections[k]) == Cost(r.sections[k]) {
      assert SameKind(p.file.sections[k], r.sections[k]);
      SameCost(p.file.sections[k], r.sections[k]);
    }
  }

  lemma SameCost(s: Section, t: Section)
    requires SameKind(s, t)
    ensures Cost(s) == Cost(t)
  {
    hide Unit;
  }

  lemma {:induction false} FillTight(p: Filling, g: nat, start: Xword, n: nat)
    requires WellFormed(p.file) && g < |p.file.segments| && n <= |p.file.segments[g].sections|
    requires p.file.ok && AddressesAreOurs(p.file)
    ensures var r := Fill(p, g, start, n).file;
            |r.generated| == |r.sections| && r.end + OpenIn(r) <= p.file.end + OpenIn(p.file)
  {
    hide PlaceSection, Extends, AddressesAreOurs, OpenIn, WellFormed;
    SameCounts(p, g, start, n);
    if n > 0 {
      var i := p.file.segments[g].sections[n - 1];
      FillTight(p, g, start, n - 1);
      FillSucceeds(p, g, start, n - 1);
      HeldInside(p.file, g, n - 1);
      FillStep(p, g, start, n, i);
      StepTight(Fill(p, g, start, n - 1), g, start, i);
    }
  }

  lemma SegmentTight(f: File, g: nat)
    requires WellFormed(f) && g < |f.segments| && f.ok && AddressesAreOurs(f)
    ensures var r := PlaceSegment(f, g);
            |r.generated| == |r.sections| && r.end + OpenIn(r) <= f.end + OpenIn(f) + (Unit(f.segments[g].align) - 1)
  {
    hide Fill, SegmentGap, Unit, Sized, OpenIn, Wrap;
    var (p, start) := Opening(f, g);
    SegmentGapIsLess(Wrap(f.end), f.segments[g].vaddr, f.segments[g].align);
    FillTight(p, g, start, |f.segments[g].sections|);
    assert OpenIn(p.file) == OpenIn(f) by { OpensAsOpen(f, g); }
    var q := Fill(p, g, start, |f.segments[g].sections|).file;
    assert OpenIn(PlaceSegment(f, g)) == OpenIn(q) by { PlacesAsOpen(f, g); }
  }

  lemma OpensAsOpen(f: File, g: nat)
    requires WellFormed(f) && g < |f.segments|
    ensures var p := Opening(f, g).0.file; |p.generated| == |p.sections| && OpenIn(p) == OpenIn(f)
  {
    hide Opening;
  }

  lemma PlacesAsOpen(f: File, g: nat)
    requires WellFormed(f) && g < |f.segments| && f.ok
    ensures var (p, start) := Opening(f, g);
            var q, r := Fill(p, g, start, |f.segments[g].sections|).file, PlaceSegment(f, g);
            |q.generated| == |q.sections| && |r.generated| == |r.sections| && OpenIn(r) == OpenIn(q)
  {
    hide Opening, Fill;
  }

  /** What aligning these segments may cost. */
  function SegmentCosts(f: File, order: seq<nat>): nat
    requires Within(order, |f.segments|)
  {
    if order == [] then 0
    else SegmentCosts(f, order[..|order| - 1]) + (Unit(f.segments[order[|order| - 1]].align) - 1)
  }

  lemma {:induction false} SegmentsTight(f: File, order: seq<nat>)
    requires WellFormed(f) && Within(order, |f.segments|) && f.ok && AddressesAreOurs(f)
    ensures var r := PlaceSegments(f, order);
            |r.generated| == |r.sections| && r.end + OpenIn(r) <= f.end + OpenIn(f) + SegmentCosts(f, order)
  {
    hide PlaceSegment, SameUse, SameKind, AddressesAreOurs, OpenIn, Unit;
    if order != [] {
      var n := |order| - 1;
      var m := PlaceSegments(f, order[..n]);
      SegmentsTight(f, order[..n]);
      SegmentsSucceed(f, order[..n]);
      LastSegment(f, order);
      assert SameUse(f.segments[order[n]], m.segments[order[n]]);
      SameAlign(f.segments[order[n]], m.segments[order[n]]);
      SegmentTight(m, order[n]);
    }
  }

  lemma SameAlign(s: Segment, t: Segment)
    requires SameUse(s, t)
    ensures s.align == t.align
  {}

  /** The sections no segment holds move the position by no more than what is still open. */
  lemma {:induction false} LooseTight(f: File, n: nat)
    requires n <= |f.sections| == |f.generated|
    requires forall i :: 0 <= i < |f.sections| && InNoSegment(f, i) ==> !f.generated[i]
    ensures PlaceLooseUpTo(f, n).end <= f.end + Open(f.sections, f.generated, n)
  {
    hide LooseGap, Unit, InNoSegment, SameKind;
    if n > 0 {
      LooseTight(f, n - 1);
      var m := PlaceLooseUpTo(f, n - 1);
      LooseGapIsLess(Wrap(m.end), f.sections[n - 1].align);
      LooseStep(m, f, n - 1);
    }
  }

  lemma LooseStep(m: File, f: File, i: nat)
    requires i < |f.sections| == |m.sections| && m.segments == f.segments && m.sections[i] == f.sections[i]
    ensures InNoSegment(m, i) == InNoSegment(f, i)
    ensures PlaceLoose(m, i).end <= m.end + if InNoSegment(f, i) then Cost(f.sections[i]) else 0
  {
    hide LooseGap, Unit;
    LooseGapIsLess(Wrap(m.end), f.sections[i].align);
  }

  lemma LooseIsOpen(f: File, order: seq<nat>, i: nat)
    requires Start(f) && Complete(order, |f.segments|) && i < |f.sections| && InNoSegment(f, i)
    ensures var m := PlaceSegments(f, order); i < |m.generated| && !m.generated[i]
  {
    hide PlaceSegments;
    UntouchedBefore(f, order, i);
  }

  /**
   Of a file none of whose sections came with an address, the layout is no longer than headers, segment table and
   contents with less than one alignment in front of every section and every segment.
   */
  lemma NewFileIsTight(f: File, order: seq<nat>)
    requires Start(f) && Complete(order, |f.segments|)
    requires forall i :: 0 <= i < |f.sections| ==> !f.sections[i].addressSet
    ensures LaidOut(f, order).end <= AfterHeaders(f) + OpenIn(f) + SegmentCosts(f, order)
  {
    hide PlaceSegments, PlaceLooseUpTo, Open, InNoSegment, SegmentCosts, SameUse;
    SegmentsTight(f, order);
    SegmentsSucceed(f, order);
    var m := PlaceSegments(f, order);
    forall i | 0 <= i < |m.sections| && InNoSegment(m, i) ensures !m.generated[i] {
      SameHolders(f, m, i);
      LooseIsOpen(f, order, i);
    }
    LooseTight(m, |m.sections|);
  }

  lemma SameHolders(f: File, m: File, i: nat)
    requires |m.segments| == |f.segments| && forall g :: 0 <= g < |f.segments| ==> SameUse(f.segments[g], m.segments[g])
    ensures InNoSegment(m, i) == InNoSegment(f, i)
  {
    forall g | 0 <= g < |f.segments| ensures m.segments[g].sections == f.segments[g].sections {
      assert SameUse(f.segments[g], m.segments[g]);
    }
  }
}

/** Alignment of segments, and offsets that agree with addresses, over a whole layout. */
module LayoutMeaning {
  import opened Words
  import opened Layout
  import opened LayoutSafety

  // ----- arithmetic of the position

  lemma CutTurns(wide: bool, x: int, k: int)
    ensures Cut(wide, x + k * Limit(wide)) == Cut(wide, x)
  {
    var m := Limit(wide);
    DivModUnique(x + k * m, m, x / m + k, x % m);
  }

  lemma CutWhole(wide: bool, x: int, k: int)
    ensures Cut(wide, x + k * 0x1_0000_0000_0000_0000) == Cut(wide, x)
  {
    CutTurns(wide, x, if wide then k else k * 0x1_0000_0000);
  }

  /** Cutting the operands of a difference first makes no difference after the cut. */
  lemma CutDifference(wide: bool, x: int, y: int)
    ensures Cut(wide, Cut(wide, x) - Cut(wide, y)) == Cut(wide, x - y)
  {
    var m := Limit(wide);
    CutTurns(wide, x - y, y / m - x / m);
    assert Cut(wide, x) - Cut(wide, y) == x - y + (y / m - x / m) * m;
  }

  lemma WrapQuotient(x: int) returns (k: int)
    ensures Layout.Wrap(x) == x + k * 0x1_0000_0000_0000_0000
  {
    k := -(x / 0x1_0000_0000_0000_0000);
  }

  /** The moved-on position has the distance from the segment's start that the addresses ask for. */
  lemma RequiredDistance(wide: bool, end: nat, start: Xword, address: Xword, vaddr: Xword)
    ensures var gap := Layout.Wrap(address - vaddr) - Layout.Wrap(Layout.Wrap(end) - start);
            Cut(wide, Cut(wide, Layout.Wrap(end + gap)) - Cut(wide, start)) == Cut(wide, address - vaddr)
  {
    hide Layout.Wrap, Cut;
    var a := WrapQuotient(address - vaddr);
    var b := WrapQuotient(end);
    var c := WrapQuotient(Layout.Wrap(end) - start);
    var at := end + (Layout.Wrap(address - vaddr) - Layout.Wrap(Layout.Wrap(end) - start));
    var d := WrapQuotient(at);
    CutDifference(wide, Layout.Wrap(at), start);
    assert Layout.Wrap(at) - start == address - vaddr + (a - b - c + d) * 0x1_0000_0000_0000_0000;
    CutWhole(wide, address - vaddr, a - b - c + d);
  }

  /** An address given to a section lies as far from the segment's address as its offset from the segment's offset. */
  lemma GivenAddress(wide: bool, at: Xword, start: Xword, vaddr: Xword)
    ensures var address := Cut(wide, Layout.Wrap(Layout.Wrap(vaddr + at) - start));
            Cut(wide, Cut(wide, at) - Cut(wide, start)) == Cut(wide, address - vaddr)
  {
    hide Layout.Wrap, Cut;
    var a := WrapQuotient(vaddr + at);
    var b := WrapQuotient(Layout.Wrap(vaddr + at) - start);
    var w := Layout.Wrap(Layout.Wrap(vaddr + at) - start);
    CutDifference(wide, at, start);
    assert w == vaddr + at - start + (a + b) * 0x1_0000_0000_0000_0000;
    CutWhole(wide, vaddr + at - start, a + b);
    CutDifference(wide, Cut(wide, w), vaddr);
    CutDifference(wide, vaddr + at - start, vaddr);
    CutDifference(wide, w, vaddr);
    CutTwice(wide, w);
  }

  lemma CutTwice(wide: bool, x: int)
    ensures Cut(wide, Cut(wide, x)) == Cut(wide, x)
  {}

  lemma ModAfter(pos: int, a: int, x: int, k: int, r: int)
    requires a > 0 && 0 <= r < a && pos % a + x == k * a + r
    ensures (pos + x) % a == r
  {
    var q, c := pos / a, pos % a;
    assert pos == q * a + c;
    assert (q + k) * a == q * a + k * a;
    DivModUnique(pos + x, a, q + k, r);
  }

  /** Whether the sum that moves a segment on stays in 64 bits; for alignments up to 2^63 it always does. */
  predicate GapFits(pos: Xword, vaddr: Xword, align: Xword) {
    align == 0 || align + vaddr % align - pos % align < 0x1_0000_0000_0000_0000
  }

  lemma SmallAlignmentsFit(pos: Xword, vaddr: Xword, align: Xword)
    requires align <= 0x8000_0000_0000_0000
    ensures GapFits(pos, vaddr, align)
  {}

  lemma WrapOnce(x: int)
    requires -0x1_0000_0000_0000_0000 <= x < 0x2_0000_0000_0000_0000
    ensures Layout.Wrap(x) == if x < 0 then x + 0x1_0000_0000_0000_0000
                              else if x < 0x1_0000_0000_0000_0000 then x else x - 0x1_0000_0000_0000_0000
  {}

  /** The distance moved on, from the two remainders. */
  lemma GapValue(a: int, required: int, current: int)
    requires 0 < a < 0x1_0000_0000_0000_0000 && 0 <= required < a && 0 <= current < a
    ensures Layout.Wrap(a + Layout.Wrap(required - current)) % a
         == if required < current then a - (current - required)
            else if a + (required - current) < 0x1_0000_0000_0000_0000 then required - current
            else a + (required - current) - 0x1_0000_0000_0000_0000
  {
    var d := required - current;
    WrapOnce(d);
    WrapOnce(a + Layout.Wrap(d));
    hide Layout.Wrap;
    if d < 0 {
      DivModUnique(a + d, a, 0, a + d);
    } else if a + d < 0x1_0000_0000_0000_0000 {
      DivModUnique(a + d, a, 1, d);
    } else {
      var v := a + d - 0x1_0000_0000_0000_0000;
      DivModUnique(v, a, 0, v);
    }
  }

  /** The new position agrees with the address modulo the alignment if and only if that sum stays in 64 bits. */
  lemma SegmentGapAligns(pos: Xword, vaddr: Xword, align: Xword)
    ensures (pos + SegmentGap(pos, vaddr, align)) % Unit(align) == vaddr % Unit(align) <==> GapFits(pos, vaddr, align)
  {
    hide SegmentGap, Unit, GapFits;
    if align == 0 { NoAlignment(pos, vaddr); } else { PositiveAlignment(pos, vaddr, align); }
  }

  lemma NoAlignment(pos: Xword, vaddr: Xword)
    ensures GapFits(pos, vaddr, 0)
    ensures (pos + SegmentGap(pos, vaddr, 0)) % Unit(0) == vaddr % Unit(0)
  {}

  lemma PositiveAlignment(pos: Xword, vaddr: Xword, align: Xword)
    requires align > 0
    ensures (pos + SegmentGap(pos, vaddr, align)) % Unit(align) == vaddr % Unit(align) <==> GapFits(pos, vaddr, align)
  {
    hide SegmentGap, Unit, GapFits, Layout.Wrap, Rest;
    var required, current := Rest(vaddr, align), Rest(pos, align);
    PositiveCase(pos, vaddr, align, required, current);
    var gap := SegmentGap(pos, vaddr, align);
    SegmentGapIs(pos, vaddr, align, required, current, gap);
    PositiveGapAligns(pos, align, current, required, gap);
  }

  function Rest(x: int, m: int): int
    requires m > 0
  {
    x % m
  }

  lemma PositiveCase(pos: Xword, vaddr: Xword, align: Xword, required: int, current: int)
    requires align > 0 && required == Rest(vaddr, align) && current == Rest(pos, align)
    ensures Unit(align) == align
    ensures GapFits(pos, vaddr, align) <==> align + required - current < 0x1_0000_0000_0000_0000
    ensures vaddr % Unit(align) == required && 0 <= required < align
  {}

  lemma SegmentGapIs(pos: Xword, vaddr: Xword, align: Xword, required: int, current: int, gap: Xword)
    requires align > 0 && required == Rest(vaddr, align) && current == Rest(pos, align)
             && gap == SegmentGap(pos, vaddr, align)
    ensures gap == Rest(Layout.Wrap(align + Layout.Wrap(required - current)), align)
  {
    hide Layout.Wrap;
  }

  lemma PositiveGapAligns(pos: Xword, align: Xword, current: int, required: int, gap: Xword)
    requires 0 < align && current == Rest(pos, align) && 0 <= required < align
    requires gap == Rest(Layout.Wrap(align + Layout.Wrap(required - current)), align)
    ensures (pos + gap) % align == required <==> align + required - current < 0x1_0000_0000_0000_0000
  {
    GapValue(align, required, current);
    hide Layout.Wrap;
    if required < current {
      AlignWith(pos, align, required, current, 1);
    } else if align + (required - current) < 0x1_0000_0000_0000_0000 {
      AlignWith(pos, align, required, current, 0);
    } else {
      var short := 0x1_0000_0000_0000_0000 - align;
      ModAfter(pos, align, required - current - short, 0, required - short);
    }
  }

  lemma AlignWith(pos: Xword, align: Xword, required: int, current: int, k: int)
    requires 0 < align && 0 <= required < align && current == pos % align
    requires k == 0 || k == 1
    ensures (pos + (required - current + k * align)) % align == required
  {
    ModAfter(pos, align, required - current + k * align, k, required);
  }

  function Unit(align: Xword): Xword { if align == 0 then 1 else align }

  lemma ToMultipleReaches(pos: Xword, align: Xword)
    ensures (pos + ToMultiple(pos, align)) % Unit(align) == 0
  {
    var a: int := Unit(align);
    var c := pos % a;
    if c == 0 {
      DivModUnique(a, a, 1, 0);
      ModAfter(pos, a, 0, 0, 0);
    } else {
      DivModUnique(a - c, a, 0, a - c);
      ModAfter(pos, a, a - c, 1, 0);
    }
  }

  // ----- sections keep their distance

  /** Offset minus segment offset is address minus segment address, in the width of the file class. */
  predicate Anchored(f: File, i: nat, g: nat)
    requires i < |f.sections| && g < |f.segments|
  {
    Cut(f.wide, f.sections[i].offset - f.segments[g].offset) == Cut(f.wide, f.sections[i].address - f.segments[g].vaddr)
  }

  predicate AnchoredAt(wide: bool, s: Section, start: Xword, vaddr: Xword) {
    Cut(wide, s.offset - Cut(wide, start)) == Cut(wide, s.address - vaddr)
  }

  predicate OnBoundary(s: Section) { s.offset % Unit(s.align) == 0 }

  predicate Filled(f: File, i: nat)
    requires i < |f.sections|
  {
    Solid(f, i) && f.sections[i].size > 0
  }

  lemma PlaceSectionAnchors(p: Filling, g: nat, start: Xword, i: nat)
    requires g < |p.file.segments| && i < |p.file.sections| == |p.file.generated|
    requires !p.file.generated[i] && Filled(p.file, i) && PlaceSection(p, g, start, i).file.ok
    ensures var q := PlaceSection(p, g, start, i).file;
            && AnchoredAt(q.wide, q.sections[i], start, p.file.segments[g].vaddr)
            && (!p.file.sections[i].addressSet && q.end < Limit(q.wide) ==> OnBoundary(q.sections[i]))
  {
    hide Cut, ToMultiple, Layout.Wrap, Alloc, Tls;
    var f, s, vaddr := p.file, p.file.sections[i], p.file.segments[g].vaddr;
    if s.addressSet {
      RequiredDistance(f.wide, f.end, start, s.address, vaddr);
    } else {
      var at := f.end + ToMultiple(Layout.Wrap(f.end), s.align);
      GivenAddress(f.wide, Layout.Wrap(at), start, vaddr);
      if at < Limit(f.wide) {
        CutIsExact(f.wide, at);
        CutIsExact(f.wide, f.end);
        ToMultipleReaches(f.end, s.align);
      }
    }
  }

  lemma {:induction false} FillAnchors(p: Filling, g: nat, start: Xword, n: nat, i: nat)
    requires WellFormed(p.file) && g < |p.file.segments| && n <= |p.file.segments[g].sections|
    requires i < |p.file.sections| && !p.file.generated[i] && Filled(p.file, i)
    requires var q := Fill(p, g, start, n); q.file.ok && q.file.generated[i]
    ensures i in p.file.segments[g].sections
    ensures var q := Fill(p, g, start, n).file;
            && AnchoredAt(q.wide, q.sections[i], start, p.file.segments[g].vaddr)
            && (!p.file.sections[i].addressSet && q.end < Limit(q.wide) ==> OnBoundary(q.sections[i]))
  {
    hide AnchoredAt, OnBoundary, Extends, PlaceSection, WellFormed;
    if n > 0 {
      var q := Fill(p, g, start, n - 1);
      FillStep(p, g, start, n, i);
      if q.file.generated[i] {
        FillAnchors(p, g, start, n - 1, i);
      } else {
        FillLeaves(p, g, start, n - 1, i);
        PlaceSectionAnchors(q, g, start, i);
      }
    }
  }

  lemma {:induction false} FillLeaves(p: Filling, g: nat, start: Xword, n: nat, i: nat)
    requires WellFormed(p.file) && g < |p.file.segments| && n <= |p.file.segments[g].sections|
    requires i < |p.file.sections| && !Fill(p, g, start, n).file.generated[i]
    ensures Fill(p, g, start, n).file.sections[i] == p.file.sections[i]
  {
    hide SectionGap, Alloc, Tls, SameKind;
    if n > 0 { FillLeaves(p, g, start, n - 1, i); }
  }

  /** The segment that gives a section its place is one that holds it, and the two keep their distance. */
  lemma PlaceSegmentAnchors(f: File, g: nat, i: nat)
    requires WellFormed(f) && g < |f.segments| && i < |f.sections| && !f.generated[i] && Filled(f, i)
    requires PlaceSegment(f, g).ok && PlaceSegment(f, g).generated[i]
    ensures i in f.segments[g].sections
    ensures var r := PlaceSegment(f, g);
            && Anchored(r, i, g)
            && (!f.sections[i].addressSet && r.end < Limit(r.wide) ==> OnBoundary(r.sections[i]))
  {
    hide Fill, SegmentGap, Cut, OnBoundary;
    var (p, start) := Opening(f, g);
    FillAnchors(p, g, start, |f.segments[g].sections|, i);
  }

  lemma {:induction false} SegmentsLeave(f: File, order: seq<nat>, i: nat)
    requires WellFormed(f) && Within(order, |f.segments|)
    requires i < |f.sections| && !PlaceSegments(f, order).generated[i]
    ensures PlaceSegments(f, order).sections[i] == f.sections[i]
  {
    hide Fill, SameUse, SameKind, Sized;
    if order != [] {
      var n := |order| - 1;
      var m := PlaceSegments(f, order[..n]);
      SegmentsLeave(f, order[..n], i);
      if m.ok {
        var (p, start) := Opening(m, order[n]);
        FillLeaves(p, order[n], start, |m.segments[order[n]].sections|, i);
      }
    }
  }

  ghost predicate Distinct(order: seq<nat>) { forall i, j :: 0 <= i < j < |order| ==> order[i] != order[j] }

  lemma {:induction false} FillTouchesOnly(p: Filling, g: nat, start: Xword, n: nat, i: nat)
    requires WellFormed(p.file) && g < |p.file.segments| && n <= |p.file.segments[g].sections|
    requires i < |p.file.sections| && i !in p.file.segments[g].sections[..n]
    ensures Fill(p, g, start, n).file.generated[i] == p.file.generated[i]
  {
    hide PlaceSection, Extends;
    if n > 0 {
      var s := p.file.segments[g].sections;
      assert s[..n] == s[..n - 1] + [s[n - 1]];
      FillTouchesOnly(p, g, start, n - 1, i);
      FillStep(p, g, start, n, i);
    }
  }

  lemma PlacedBySegment(f: File, g: nat, i: nat)
    requires WellFormed(f) && g < |f.segments| && f.ok && PlaceSegment(f, g).ok && i in f.segments[g].sections
    ensures PlaceSegment(f, g).generated[i]
  {
    hide PlaceSegment;
    var s := f.segments[g].sections;
    var j :| 0 <= j < |s| && s[j] == i;
    SegmentGenerates(f, g, j);
  }

  /** Only the segments that hold a section touch it. */
  lemma {:induction false} UntouchedBefore(f: File, order: seq<nat>, i: nat)
    requires WellFormed(f) && Within(order, |f.segments|) && i < |f.sections|
    requires forall j :: 0 <= j < |order| ==> i !in f.segments[order[j]].sections
    ensures PlaceSegments(f, order).generated[i] == f.generated[i]
  {
    hide Fill, SameKind, Sized;
    if order != [] {
      var n := |order| - 1;
      var m := PlaceSegments(f, order[..n]);
      UntouchedBefore(f, order[..n], i);
      if m.ok {
        assert SameUse(f.segments[order[n]], m.segments[order[n]]);
        var (p, start) := Opening(m, order[n]);
        var s := m.segments[order[n]].sections;
        assert s[..|s|] == s;
        FillTouchesOnly(p, order[n], start, |s|, i);
      }
    }
  }

  /** The k-th segment in the order is the first that holds section i. */
  ghost predicate FirstHolder(f: File, order: seq<nat>, i: nat, k: nat)
    requires Within(order, |f.segments|)
  {
    k < |order| && i in f.segments[order[k]].sections && forall j :: 0 <= j < k ==> i !in f.segments[order[j]].sections
  }

  /** A section keeps its distance from the first segment that holds it. */
  lemma SegmentsAnchor(f: File, order: seq<nat>, i: nat, k: nat)
    requires WellFormed(f) && Within(order, |f.segments|) && Distinct(order) && FirstHolder(f, order, i, k)
    requires i < |f.sections| && !f.generated[i] && Filled(f, i) && PlaceSegments(f, order).ok
    ensures var r := PlaceSegments(f, order);
            && Anchored(r, i, order[k])
            && (!f.sections[i].addressSet && r.end < Limit(r.wide) ==> OnBoundary(r.sections[i]))
            && (f.sections[i].addressSet ==> r.sections[i].address == f.sections[i].address)
  {
    hide PlaceSegment, PlaceSegments, Cut, OnBoundary, SameUse;
    var before, r := PlaceSegments(f, order[..k]), PlaceSegments(f, order);
    LaterSegmentsKeep(f, order, k);
    UntouchedBefore(f, order[..k], i);
    SegmentsLeave(f, order[..k], i);
    PlacedBySegment(before, order[k], i);
    PlaceSegmentAnchors(before, order[k], i);
    assert SameKind(f.sections[i], r.sections[i]);
    assert SameUse(before.segments[order[k]], r.segments[order[k]]) by { SegmentsKeepUse(f, order, k, order[k]); }
    SameSections(before.segments[order[k]], r.segments[order[k]]);
  }

  lemma SegmentsKeepUse(f: File, order: seq<nat>, k: nat, g: nat)
    requires WellFormed(f) && Within(order, |f.segments|) && k <= |order| && g < |f.segments|
    ensures SameUse(PlaceSegments(f, order[..k]).segments[g], PlaceSegments(f, order).segments[g])
  {
    assert SameUse(f.segments[g], PlaceSegments(f, order[..k]).segments[g]);
    assert SameUse(f.segments[g], PlaceSegments(f, order).segments[g]);
  }

  /**
   Over the whole layout: a section that fills bytes and lies in a segment keeps the distance between its
   address and the address of the first segment that holds it as the distance of their offsets; a preset
   address stays, and without one the section also starts on a multiple of its alignment.
   */
  lemma OffsetsFollowAddresses(f: File, order: seq<nat>, i: nat, k: nat)
    requires Start(f) && Complete(order, |f.segments|) && FirstHolder(f, order, i, k)
    requires i < |f.sections| && Filled(f, i) && LaidOut(f, order).ok
    ensures var r := LaidOut(f, order);
            && |r.segments| == |f.segments| && Anchored(r, i, order[k])
            && (f.sections[i].addressSet ==> r.sections[i].address == f.sections[i].address)
            && (!f.sections[i].addressSet && r.end < Limit(r.wide) ==> OnBoundary(r.sections[i]))
  {
    hide PlaceSegments, PlaceLooseUpTo, Cut, OnBoundary;
    var m, g := PlaceSegments(f, order), order[k];
    SegmentsAnchor(f, order, i, k);
    assert SameUse(f.segments[g], m.segments[g]);
    InThatSegment(m, g, i);
  }

  /** Every section that lies in a segment has such a first holder. */
  lemma HasFirstHolder(f: File, order: seq<nat>, i: nat) returns (k: nat)
    requires Complete(order, |f.segments|) && !InNoSegment(f, i)
    ensures FirstHolder(f, order, i, k)
  {
    var g :| 0 <= g < |f.segments| && i in f.segments[g].sections;
    assert g in order;
    var m :| 0 <= m < |order| && order[m] == g;
    k := 0;
    while i !in f.segments[order[k]].sections
      invariant 0 <= k <= m && forall j :: 0 <= j < k ==> i !in f.segments[order[j]].sections
      decreases m - k
    {
      k := k + 1;
    }
  }

  /** So it holds for every section that some segment holds, with the first of them. */
  lemma OffsetsFollowSome(f: File, order: seq<nat>, i: nat) returns (k: nat)
    requires Start(f) && Complete(order, |f.segments|) && !InNoSegment(f, i)
    requires i < |f.sections| && Filled(f, i) && LaidOut(f, order).ok
    ensures FirstHolder(f, order, i, k)
    ensures var r := LaidOut(f, order);
            && |r.segments| == |f.segments| && Anchored(r, i, order[k])
            && (f.sections[i].addressSet ==> r.sections[i].address == f.sections[i].address)
            && (!f.sections[i].addressSet && r.end < Limit(r.wide) ==> OnBoundary(r.sections[i]))
  {
    hide LaidOut, Anchored, OnBoundary, FirstHolder;
    k := HasFirstHolder(f, order, i);
    OffsetsFollowAddresses(f, order, i, k);
  }

  lemma InThatSegment(f: File, g: nat, i: nat)
    requires g < |f.segments| && i in f.segments[g].sections
    ensures !InNoSegment(f, i)
  {}

  /** A section in no segment starts on a multiple of its alignment. */
  lemma {:induction false} LooseOnBoundary(f: File, n: nat, i: nat)
    requires i < n <= |f.sections| && InNoSegment(f, i) && i != 0
    requires PlaceLooseUpTo(f, n).end < Limit(f.wide)
    ensures OnBoundary(PlaceLooseUpTo(f, n).sections[i])
  {
    hide LooseGap, SameKind;
    var m := PlaceLooseUpTo(f, n - 1);
    if i < n - 1 {
      LooseOnBoundary(f, n - 1, i);
    } else {
      var s := m.sections[i];
      assert SameKind(f.sections[i], s);
      var at := m.end + LooseGap(Layout.Wrap(m.end), s.align);
      CutIsExact(f.wide, at);
      CutIsExact(f.wide, m.end);
      LooseGapReaches(m.end, s.align);
    }
  }

  lemma LooseGapReaches(pos: Xword, align: Xword)
    ensures (pos + LooseGap(pos, align)) % Unit(align) == 0
  {
    if align > 1 {
      var c := pos % align;
      if c == 0 {
        ModAfter(pos, align, 0, 0, 0);
      } else {
        ModAfter(pos, align, align - c, 1, 0);
      }
    }
  }

  // ----- segments

  lemma LastSegment(f: File, order: seq<nat>)
    requires WellFormed(f) && Within(order, |f.segments|) && order != []
    ensures var n := |order| - 1;
            var m, r := PlaceSegments(f, order[..n]), PlaceSegments(f, order);
            && WellFormed(m) && |m.segments| == |f.segments| == |r.segments| && r == PlaceSegment(m, order[n])
               && Extends(m, r) && Extends(r, r)
            && (forall k :: 0 <= k < |f.segments| && k != order[n] ==> r.segments[k] == m.segments[k])
  {
    hide PlaceSegment, SameUse;
  }

  lemma StillOriginal(f: File, order: seq<nat>, g: nat)
    requires WellFormed(f) && Within(order, |f.segments|) && g < |f.segments| && g !in order
    ensures var m := PlaceSegments(f, order);
            WellFormed(m) && |m.segments| == |f.segments| && m.segments[g] == f.segments[g]
  {
    hide PlaceSegments, SameUse, SameKind;
  }

  lemma {:induction false} LaterSegmentsKeep(f: File, order: seq<nat>, p: nat)
    requires WellFormed(f) && Within(order, |f.segments|) && Distinct(order) && p < |order|
    ensures var before, r := PlaceSegments(f, order[..p]), PlaceSegments(f, order);
            var after := PlaceSegment(before, order[p]);
            && r.segments[order[p]] == after.segments[order[p]] && before.segments[order[p]] == f.segments[order[p]]
            && Extends(after, r) && Extends(before, after)
  {
    hide PlaceSegment, Extends, SameUse, PlaceSegments, WellFormed;
    var n := |order| - 1;
    var before := PlaceSegments(f, order[..p]);
    StillOriginal(f, order[..p], order[p]);
    LastSegment(f, order);
    if p < n {
      LaterSegmentsKeep(f, order[..n], p);
      assert order[..n][..p] == order[..p];
      ExtendsTransitive(PlaceSegment(before, order[p]), PlaceSegments(f, order[..n]), PlaceSegments(f, order));
    }
  }

  lemma PlaceSegmentAligns(f: File, g: nat)
    requires WellFormed(f) && g < |f.segments| && f.ok && ArmOf(f, g) == NewData
    requires PlaceSegment(f, g).ok && PlaceSegment(f, g).end < Limit(f.wide)
    ensures var s := PlaceSegment(f, g).segments[g];
            s.offset % Unit(s.align) == s.vaddr % Unit(s.align) <==> GapFits(Layout.Wrap(f.end), s.vaddr, s.align)
  {
    hide Fill, SegmentGap, ArmOf, GapFits;
    var seg := f.segments[g];
    var (p, start) := Opening(f, g);
    var q := Fill(p, g, start, |seg.sections|);
    CutIsExact(f.wide, f.end);
    CutIsExact(f.wide, p.file.end);
    SegmentGapAligns(f.end, seg.vaddr, seg.align);
  }

  /**
   Over the whole layout: a segment that brings new data starts at its address modulo its alignment if and only
   if the sum that moved it on fits 64 bits, which it does for every alignment up to 2^63.
   */
  lemma NewSegmentsAreAligned(f: File, order: seq<nat>, p: nat)
    requires Start(f) && Complete(order, |f.segments|) && p < |order|
    requires ArmOf(PlaceSegments(f, order[..p]), order[p]) == NewData
    requires LaidOut(f, order).ok && LaidOut(f, order).end < Limit(f.wide)
    ensures var s := LaidOut(f, order).segments[order[p]];
            && (s.offset % Unit(s.align) == s.vaddr % Unit(s.align)
                <==> GapFits(Layout.Wrap(PlaceSegments(f, order[..p]).end), s.vaddr, s.align))
            && (s.align <= 0x8000_0000_0000_0000 ==> s.offset % Unit(s.align) == s.vaddr % Unit(s.align))
  {
    hide PlaceSegment, PlaceSegments, PlaceLooseUpTo, ArmOf, GapFits;
    LaterSegmentsKeep(f, order, p);
    var before := PlaceSegments(f, order[..p]);
    PlaceSegmentAligns(before, order[p]);
    var s := LaidOut(f, order).segments[order[p]];
    if s.align <= 0x8000_0000_0000_0000 { SmallAlignmentsFit(Layout.Wrap(before.end), s.vaddr, s.align); }
  }

  /**
   A segment whose first section an earlier one placed starts where that section does, or at 0 if that was its offset.
   */
  lemma EnclosedSegmentStart(f: File, order: seq<nat>, p: nat, q: nat)
    requires WellFormed(f) && Within(order, |f.segments|) && Distinct(order) && q < p < |order|
    requires f.segments[order[p]].sections != []
    requires f.segments[order[p]].sections[0] in f.segments[order[q]].sections
    requires PlaceSegments(f, order).ok
    ensures var r, seg := PlaceSegments(f, order), f.segments[order[p]];
            r.segments[order[p]].offset
            == if seg.offsetSet && seg.offset == 0 then 0 else Cut(r.wide, r.sections[seg.sections[0]].offset)
  {
    hide PlaceSegments, PlaceSegment, Cut, ArmOf;
    var g := order[p];
    var first := f.segments[g].sections[0];
    LaterSegmentsKeep(f, order, p);
    var before := PlaceSegments(f, order[..p]);
    var j :| 0 <= j < |f.segments[order[q]].sections| && f.segments[order[q]].sections[j] == first;
    AllGenerated(f, order[..p], q, j);
    NestedSegmentStart(before, g);
    KeepsPlaced(before, PlaceSegment(before, g), PlaceSegments(f, order), first);
  }

  lemma KeepsPlaced(f: File, g: File, h: File, i: nat)
    requires Extends(f, g) && Extends(g, h) && i < |f.sections| && f.generated[i]
    ensures |h.sections| == |f.sections| && h.sections[i] == f.sections[i] && h.wide == f.wide
  {}

  lemma NestedSegmentStart(f: File, g: nat)
    requires WellFormed(f) && g < |f.segments| && f.segments[g].sections != [] && f.generated[f.segments[g].sections[0]]
    requires PlaceSegment(f, g).ok
    ensures var seg := f.segments[g];
            PlaceSegment(f, g).segments[g].offset
            == if seg.offsetSet && seg.offset == 0 then 0 else Cut(f.wide, f.sections[seg.sections[0]].offset)
  {
    hide Fill;
  }

  // ----- what a layout initialises

  /** Every segment that has been laid out has an initialised offset. */
  lemma OffsetsAreSet(f: File, order: seq<nat>, p: nat)
    requires WellFormed(f) && Within(order, |f.segments|) && Distinct(order) && p < |order|
             && PlaceSegments(f, order).ok
    ensures var r := PlaceSegments(f, order); order[p] < |r.segments| && r.segments[order[p]].offsetSet
  {
    hide PlaceSegment, PlaceSegments;
    LaterSegmentsKeep(f, order, p);
    SegmentIsSet(PlaceSegments(f, order[..p]), order[p]);
  }

  lemma SegmentIsSet(f: File, g: nat)
    requires WellFormed(f) && g < |f.segments|
    ensures PlaceSegment(f, g).ok ==> g < |PlaceSegment(f, g).segments| && PlaceSegment(f, g).segments[g].offsetSet
  {
    hide Fill, Opening, Extends;
  }

  lemma {:induction false} FillSets(p: Filling, g: nat, start: Xword, n: nat, i: nat)
    requires WellFormed(p.file) && g < |p.file.segments| && n <= |p.file.segments[g].sections|
    requires i < |p.file.sections| && !p.file.generated[i] && p.file.sections[i].kind != SHT_NULL
    requires Fill(p, g, start, n).file.generated[i]
    ensures Fill(p, g, start, n).file.sections[i].addressSet
  {
    hide PlaceSection, Extends, WellFormed;
    if n > 0 {
      var q := Fill(p, g, start, n - 1);
      FillStep(p, g, start, n, i);
      if q.file.generated[i] {
        FillSets(p, g, start, n - 1, i);
      } else {
        FillLeaves(p, g, start, n - 1, i);
        StepSets(q, g, start, i);
      }
    }
  }

  lemma StepSets(p: Filling, g: nat, start: Xword, i: nat)
    requires g < |p.file.segments| && i < |p.file.sections| == |p.file.generated|
    requires !p.file.generated[i] && p.file.sections[i].kind != SHT_NULL
    ensures var r := PlaceSection(p, g, start, i).file; r.generated[i] ==> r.sections[i].addressSet
  {
    hide SectionGap, Alloc, Tls, Extends;
  }

  /** Every section of a segment has an address afterwards, but for those of type SHT_NULL. */
  lemma {:induction false} AddressesAreSet(f: File, order: seq<nat>, i: nat)
    requires WellFormed(f) && Within(order, |f.segments|) && i < |f.sections| && !f.generated[i]
    requires f.sections[i].kind != SHT_NULL && PlaceSegments(f, order).generated[i]
    ensures PlaceSegments(f, order).sections[i].addressSet
  {
    hide PlaceSegment, SameUse;
    if order != [] {
      var n := |order| - 1;
      var m := PlaceSegments(f, order[..n]);
      LastSegment(f, order);
      assert SameKind(f.sections[i], m.sections[i]);
      if m.generated[i] {
        AddressesAreSet(f, order[..n], i);
      } else {
        SegmentSets(m, order[n], i);
      }
    }
  }

  lemma SegmentSets(f: File, g: nat, i: nat)
    requires WellFormed(f) && g < |f.segments| && i < |f.sections| && !f.generated[i] && f.sections[i].kind != SHT_NULL
    ensures i < |PlaceSegment(f, g).generated| == |PlaceSegment(f, g).sections|
    ensures PlaceSegment(f, g).generated[i] ==> PlaceSegment(f, g).sections[i].addressSet
  {
    hide Fill, SegmentGap, ArmOf, Sized, SameKind;
    if f.ok {
      var (p, start) := Opening(f, g);
      var n := |f.segments[g].sections|;
      assert Extends(p.file, Fill(p, g, start, n).file);
      if Fill(p, g, start, n).file.generated[i] { FillSets(p, g, start, n, i); }
    }
  }

  // ----- the overlap check of validate

  predicate IsOffsetInSection(offset: Xword, s: Section) { s.offset <= offset < Layout.Wrap(s.offset + s.size) }

  /** The condition under which validate reports two sections. */
  predicate Reported(a: Section, b: Section) {
    && a.kind & SHT_NOBITS == 0 && b.kind & SHT_NOBITS == 0
    && a.size > 0 && b.size > 0 && a.offset > 0 && b.offset > 0
    && (|| IsOffsetInSection(a.offset, b) || IsOffsetInSection(Layout.Wrap(a.offset + a.size - 1), b)
        || IsOffsetInSection(b.offset, a) || IsOffsetInSection(Layout.Wrap(b.offset + b.size - 1), a))
  }

  /** The overlap part of validate, giving the pairs it complains about. */
  method OverlappingSections(sections: seq<Section>) returns (errors: seq<(nat, nat)>)
    ensures forall i: nat, j: nat :: (i, j) in errors <==> i < j < |sections| && Reported(sections[i], sections[j])
  {
    hide Reported;
    errors := [];
    for i := 0 to |sections|
      invariant forall k: nat, l: nat ::
                  (k, l) in errors <==> k < l < |sections| && k < i && Reported(sections[k], sections[l])
    {
      for j := i + 1 to |sections|
        invariant forall k: nat, l: nat :: (k, l) in errors <==>
                    k < l < |sections| && (k < i || (k == i && l < j)) && Reported(sections[k], sections[l])
      {
        if Reported(sections[i], sections[j]) {
          errors := errors + [(i, j)];
        }
      }
    }
  }

  /** With ends in range, two sections are reported exactly if both pass the filters and their ranges meet. */
  lemma ReportedMeansMeeting(a: Section, b: Section)
    requires End(a) < Limit(true) && End(b) < Limit(true)
    ensures Reported(a, b)
            <==> && a.kind & SHT_NOBITS == 0 && b.kind & SHT_NOBITS == 0
                 && a.size > 0 && b.size > 0 && a.offset > 0 && b.offset > 0 && !Apart(a, b)
  {
    hide IsOffsetInSection;
    if a.size > 0 && b.size > 0 {
      InSection(a.offset, b);
      InSection(b.offset, a);
      InSection(a.offset + a.size - 1, b);
      InSection(b.offset + b.size - 1, a);
      NoWrap(a.offset + a.size - 1);
      NoWrap(b.offset + b.size - 1);
    }
  }

  lemma NoWrap(x: Xword)
    ensures Layout.Wrap(x) == x
  {}

  lemma InSection(x: Xword, s: Section)
    requires End(s) < Limit(true)
    ensures IsOffsetInSection(x, s) <==> s.offset <= x < End(s)
  {}

  /** Two relocation sections, of type SHT_REL = 9, over the same bytes: the mask lets them pass unreported. */
  lemma OverlappingRelocationsPass()
    ensures var a, b := Section(9, 0, 16, 4, 0, false, 100), Section(9, 0, 16, 4, 0, false, 108);
            !Apart(a, b) && !Reported(a, b)
  {
    assert (9 as bv32) & SHT_NOBITS == 8;
  }

  /** What the check looks at. */
  predicate Checked(s: Section) { s.kind & SHT_NOBITS == 0 && s.size > 0 && s.offset > 0 }

  /**
   After a layout, validate names a pair of sections if and only if both are checked, their ranges meet, and one of
   them is section 0 or of type SHT_NULL; two that fill bytes it never names.
   */
  lemma ReportedExactly(f: File, order: seq<nat>, i: nat, j: nat)
    requires Start(f) && Complete(order, |f.segments|)
    requires LaidOut(f, order).ok && SectionTable(LaidOut(f, order).end) < Limit(f.wide)
    requires i < j < |f.sections|
    requires var r := LaidOut(f, order); End(r.sections[i]) < Limit(true) && End(r.sections[j]) < Limit(true)
    ensures var s, t := LaidOut(f, order).sections[i], LaidOut(f, order).sections[j];
            Reported(s, t) <==>
              && (i == 0 || s.kind == SHT_NULL || t.kind == SHT_NULL)
              && Checked(s) && Checked(t) && !Apart(s, t)
  {
    hide LaidOut, IsOffsetInSection;
    var s, t := LaidOut(f, order).sections[i], LaidOut(f, order).sections[j];
    ReportedMeansMeeting(s, t);
    if Reported(s, t) { NothingReported(f, order, i, j); }
  }

  /** After a layout, validate names no pair of sections unless one of them is section 0 or of type SHT_NULL. */
  lemma NothingReported(f: File, order: seq<nat>, i: nat, j: nat)
    requires Start(f) && Complete(order, |f.segments|)
    requires LaidOut(f, order).ok && SectionTable(LaidOut(f, order).end) < Limit(f.wide)
    requires i < j < |f.sections|
    ensures var s, t := LaidOut(f, order).sections[i], LaidOut(f, order).sections[j];
            Reported(s, t) ==> i == 0 || s.kind == SHT_NULL || t.kind == SHT_NULL
  {
    hide LaidOut, IsOffsetInSection;
    var r := LaidOut(f, order);
    var s, t := r.sections[i], r.sections[j];
    if Reported(s, t) && Solid(r, i) && Solid(r, j) {
      assert r.end <= SectionTable(r.end);
      SectionsAreDisjoint(f, order);
      ReportedMeansMeeting(s, t);
    }
  }

  /** A second SHT_NULL section with a size, and a section behind it. */
  function NullFile(): File {
    File(true, 64, 56,
         [Section(SHT_NULL, 0, 0, 0, 0, false, 0), Section(SHT_NULL, 0, 8, 1, 0, false, 0),
             Section(1, 0, 4, 1, 0, false, 0)],
         [], [false, false, false], 64, true)
  }

  /** Its first two sections loose in the file: nothing moves. */
  lemma NullPlaced()
    ensures var f := NullFile();
            PlaceLooseUpTo(f, 2) == f.(sections := f.sections[1 := f.sections[1].(offset := 64)])
  {
    var f := NullFile();
    assert PlaceLooseUpTo(f, 0) == f;
    assert PlaceLooseUpTo(f, 1) == f;
    assert PlaceLooseUpTo(f, 2) == PlaceLoose(f, 1);
  }

  lemma NullStarts()
    ensures Start(NullFile()) && Complete([], 0)
  {
    assert TableSize(NullFile()) == 0;
  }

  /** The third section goes to the same place. */
  lemma BehindNull(m: File)
    requires m == NullFile().(sections := NullFile().sections[1 := NullFile().sections[1].(offset := 64)])
    ensures PlaceLoose(m, 2).sections[2] == Section(1, 0, 4, 1, 0, false, 64)
            && PlaceLoose(m, 2).sections[1] == m.sections[1]
    ensures PlaceLoose(m, 2).ok
  {
    assert LooseGap(64, 1) == 0;
  }

  /** The position does not move on past it, so both are put at 64, and validate reports the file just saved. */
  lemma NullIsReported()
    ensures var f := NullFile();
            && Start(f) && Complete([], |f.segments|)
            && var r := LaidOut(f, []); r.ok && Reported(r.sections[1], r.sections[2])
  {
    hide Reported, Start, Complete, PlaceLoose, InNoSegment, SameKind;
    NullStarts();
    NullPlaced();
    BehindNull(PlaceLooseUpTo(NullFile(), 2));
    assert PlaceLooseUpTo(NullFile(), 3) == PlaceLoose(PlaceLooseUpTo(NullFile(), 2), 2);
    MeetAt64();
  }

  lemma MeetAt64()
    ensures Reported(Section(SHT_NULL, 0, 8, 1, 0, false, 64), Section(1, 0, 4, 1, 0, false, 64))
  {
    assert (0 as bv32) & SHT_NOBITS == 0 && (1 as bv32) & SHT_NOBITS == 0;
  }
}

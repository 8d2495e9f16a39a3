/** When a layout succeeds, and whether the file size of a segment covers the sections laid out in it. */
module LayoutSizes {
  import opened Layout
  import opened LayoutSafety
  import opened LayoutMeaning
  import Words

  // ----- success

  /** The section whose turn it is has a preset address that lies before what the segment already fills. */
  predicate GoesBack(p: Filling, g: nat, start: Xword, i: nat)
    requires g < |p.file.segments| && i < |p.file.sections| == |p.file.generated|
  {
    var f, s := p.file, p.file.sections[i];
    && f.ok && !f.generated[i] && s.addressSet && s.kind != SHT_NOBITS && s.kind != SHT_NULL && s.size != 0
    && Wrap(s.address - f.segments[g].vaddr) < Wrap(Wrap(f.end) - start)
  }

  lemma StepFails(p: Filling, g: nat, start: Xword, i: nat)
    requires g < |p.file.segments| && i < |p.file.sections| == |p.file.generated|
    ensures PlaceSection(p, g, start, i).file.ok <==> p.file.ok && !GoesBack(p, g, start, i)
  {
    hide Alloc, Tls, ToMultiple, Wrap, Extends;
  }

  /** Among the first n sections of the segment one goes back. */
  ghost predicate FillGoesBack(p: Filling, g: nat, start: Xword, n: nat)
    requires WellFormed(p.file) && g < |p.file.segments| && n <= |p.file.segments[g].sections|
  {
    exists j :: 0 <= j < n && GoesBackIn(p, g, start, j)
  }

  /** The j-th section of the segment goes back. */
  ghost predicate GoesBackIn(p: Filling, g: nat, start: Xword, j: nat)
    requires WellFormed(p.file) && g < |p.file.segments| && j < |p.file.segments[g].sections|
  {
    GoesBack(Fill(p, g, start, j), g, start, p.file.segments[g].sections[j])
  }

  lemma NoSections(p: Filling, g: nat, start: Xword)
    requires WellFormed(p.file) && g < |p.file.segments|
    ensures Fill(p, g, start, 0) == p
  {}

  lemma LastSectionFails(p: Filling, g: nat, start: Xword, n: nat)
    requires WellFormed(p.file) && g < |p.file.segments| && 0 < n <= |p.file.segments[g].sections|
    ensures Fill(p, g, start, n).file.ok <==> Fill(p, g, start, n - 1).file.ok && !GoesBackIn(p, g, start, n - 1)
  {
    hide GoesBack, PlaceSection, Extends, Fill;
    var i := p.file.segments[g].sections[n - 1];
    FillStep(p, g, start, n, i);
    StepFails(Fill(p, g, start, n - 1), g, start, i);
  }

  lemma {:induction false} FillFails(p: Filling, g: nat, start: Xword, n: nat)
    requires WellFormed(p.file) && g < |p.file.segments| && n <= |p.file.segments[g].sections| && p.file.ok
    ensures Fill(p, g, start, n).file.ok <==> !FillGoesBack(p, g, start, n)
  {
    hide GoesBackIn, PlaceSection, Extends, WellFormed, Fill;
    if n == 0 {
      NoSections(p, g, start);
    } else {
      FillFails(p, g, start, n - 1);
      LastSectionFails(p, g, start, n);
    }
  }

  ghost predicate SegmentGoesBack(f: File, g: nat)
    requires WellFormed(f) && g < |f.segments|
  {
    var (p, start) := Opening(f, g);
    FillGoesBack(p, g, start, |f.segments[g].sections|)
  }

  lemma SegmentFails(f: File, g: nat)
    requires WellFormed(f) && g < |f.segments| && f.ok
    ensures PlaceSegment(f, g).ok <==> !SegmentGoesBack(f, g)
  {
    hide Fill, FillGoesBack, SegmentGap, ArmOf, Sized;
    var (p, start) := Opening(f, g);
    FillFails(p, g, start, |f.segments[g].sections|);
  }

  /** The k-th segment, when its turn comes, has a section that goes back. */
  ghost predicate GoesBackAt(f: File, order: seq<nat>, k: nat)
    requires WellFormed(f) && Within(order, |f.segments|) && k < |order|
  {
    SegmentGoesBack(PlaceSegments(f, order[..k]), order[k])
  }

  ghost predicate SomeGoesBack(f: File, order: seq<nat>)
    requires WellFormed(f) && Within(order, |f.segments|)
  {
    exists k :: 0 <= k < |order| && GoesBackAt(f, order, k)
  }

  lemma {:induction false} SegmentsFail(f: File, order: seq<nat>)
    requires WellFormed(f) && Within(order, |f.segments|) && f.ok
    ensures PlaceSegments(f, order).ok <==> !SomeGoesBack(f, order)
  {
    hide GoesBackAt, WellFormed, PlaceSegments, PlaceSegment;
    if order == [] {
      NoSegments(f);
    } else {
      var n := |order| - 1;
      SegmentsFail(f, order[..n]);
      LastFails(f, order);
      forall k | 0 <= k < n ensures GoesBackAt(f, order[..n], k)
          <==> GoesBackAt(f, order, k) { SamePrefix(f, order, n, k); }
    }
  }

  lemma NoSegments(f: File)
    requires WellFormed(f)
    ensures PlaceSegments(f, []) == f
  {}

  lemma SamePrefix(f: File, order: seq<nat>, n: nat, k: nat)
    requires WellFormed(f) && Within(order, |f.segments|) && k < n <= |order|
    ensures GoesBackAt(f, order[..n], k) <==> GoesBackAt(f, order, k)
  {
    assert order[..n][..k] == order[..k];
  }

  lemma LastFails(f: File, order: seq<nat>)
    requires WellFormed(f) && Within(order, |f.segments|) && order != []
    ensures PlaceSegments(f, order).ok
            <==> PlaceSegments(f, order[..|order| - 1]).ok && !GoesBackAt(f, order, |order| - 1)
  {
    hide PlaceSegment, PlaceSegments, SegmentGoesBack, Extends;
    var n := |order| - 1;
    LastSegment(f, order);
    var m := PlaceSegments(f, order[..n]);
    if m.ok { SegmentFails(m, order[n]); } else { AbortStays(m, order[n]); }
  }

  lemma AbortStays(f: File, g: nat)
    requires WellFormed(f) && g < |f.segments| && !f.ok
    ensures !PlaceSegment(f, g).ok
  {}

  /** A layout succeeds exactly when no section goes back. */
  lemma SucceedsExactly(f: File, order: seq<nat>)
    requires Start(f) && Complete(order, |f.segments|)
    ensures LaidOut(f, order).ok <==> !SomeGoesBack(f, order)
  {
    hide PlaceSegments, SomeGoesBack, PlaceLooseUpTo;
    SegmentsFail(f, order);
  }

  /** Only sections that are already placed have an address. */
  ghost predicate AddressesAreOurs(f: File) {
    |f.generated| == |f.sections| && forall i :: 0 <= i < |f.sections| && f.sections[i].addressSet ==> f.generated[i]
  }

  lemma {:induction false} FillSucceeds(p: Filling, g: nat, start: Xword, n: nat)
    requires WellFormed(p.file) && g < |p.file.segments| && n <= |p.file.segments[g].sections|
    requires p.file.ok && AddressesAreOurs(p.file)
    ensures Fill(p, g, start, n).file.ok && AddressesAreOurs(Fill(p, g, start, n).file)
  {
    hide PlaceSection, Extends, AddressesAreOurs, WellFormed;
    if n > 0 {
      FillSucceeds(p, g, start, n - 1);
      HeldInside(p.file, g, n - 1);
      FillStep(p, g, start, n, p.file.segments[g].sections[n - 1]);
      StepSucceeds(Fill(p, g, start, n - 1), g, start, p.file.segments[g].sections[n - 1]);
    }
  }

  lemma StepSucceeds(p: Filling, g: nat, start: Xword, i: nat)
    requires g < |p.file.segments| && i < |p.file.sections| == |p.file.generated|
    requires p.file.ok && AddressesAreOurs(p.file)
    ensures PlaceSection(p, g, start, i).file.ok && AddressesAreOurs(PlaceSection(p, g, start, i).file)
  {
    hide ToMultiple, Cut, Wrap, Alloc, Tls, Extends;
  }

  lemma SegmentSucceeds(f: File, g: nat)
    requires WellFormed(f) && g < |f.segments| && f.ok && AddressesAreOurs(f)
    ensures PlaceSegment(f, g).ok && AddressesAreOurs(PlaceSegment(f, g))
  {
    hide Fill, Sized, SegmentGap;
    var (p, start) := Opening(f, g);
    FillSucceeds(p, g, start, |f.segments[g].sections|);
  }

  lemma {:induction false} SegmentsSucceed(f: File, order: seq<nat>)
    requires WellFormed(f) && Within(order, |f.segments|) && f.ok && AddressesAreOurs(f)
    ensures PlaceSegments(f, order).ok && AddressesAreOurs(PlaceSegments(f, order))
  {
    hide PlaceSegment, SameUse, SameKind, AddressesAreOurs;
    if order != [] {
      var n := |order| - 1;
      SegmentsSucceed(f, order[..n]);
      SegmentSucceeds(PlaceSegments(f, order[..n]), order[n]);
    }
  }

  /** A file none of whose sections came with an address is always laid out. */
  lemma NewFilesAreLaidOut(f: File, order: seq<nat>)
    requires Start(f) && Complete(order, |f.segments|)
    requires forall i :: 0 <= i < |f.sections| ==> !f.sections[i].addressSet
    ensures LaidOut(f, order).ok
  {
    SegmentsSucceed(f, order);
  }

  // ----- file sizes

  /** What is added in front of sections without file contents: the code leaves it out of the file size. */
  function Skipped(p: Filling, g: nat, start: Xword, n: nat): nat
    requires WellFormed(p.file) && g < |p.file.segments| && n <= |p.file.segments[g].sections|
  {
    if n == 0 then 0
    else
      var q, r := Fill(p, g, start, n - 1), Fill(p, g, start, n);
      Skipped(p, g, start, n - 1)
      + if q.file.sections[q.file.segments[g].sections[n - 1]].kind == SHT_NOBITS then r.file.end - q.file.end else 0
  }

  ghost predicate NoRepeats(s: seq<nat>) { forall i, j :: 0 <= i < j < |s| ==> s[i] != s[j] }

  /** A segment all of whose sections are still to be placed. */
  ghost predicate AllNew(f: File, g: nat)
    requires WellFormed(f) && g < |f.segments|
  {
    NoRepeats(f.segments[g].sections)
    && forall j :: 0 <= j < |f.segments[g].sections| ==> !f.generated[f.segments[g].sections[j]]
  }

  /** A segment with sections, all of them new. Its offset is left to the layout, or was initialised to 0. */
  ghost predicate BringsNew(f: File, g: nat)
    requires WellFormed(f) && g < |f.segments|
  {
    f.segments[g].sections != [] && AllNew(f, g)
  }

  lemma WrapAdds(a: int, b: int, c: int)
    requires Wrap(a) == Wrap(b)
    ensures Wrap(a + c) == Wrap(b + c)
  {}

  lemma WrapInside(a: int, b: int)
    ensures Wrap(a + Wrap(b)) == Wrap(a + b)
  {}

  /** One new section: the file size grows with the position, except in front of and over NOBITS sections. */
  lemma StepSize(p: Filling, g: nat, start: Xword, i: nat)
    requires g < |p.file.segments| && i < |p.file.sections| == |p.file.generated|
    requires !p.file.generated[i] && PlaceSection(p, g, start, i).file.ok
    ensures var r := PlaceSection(p, g, start, i);
            if p.file.sections[i].kind == SHT_NOBITS then r.fileSize == p.fileSize
            else Wrap(r.fileSize) == Wrap(p.fileSize + (r.file.end - p.file.end))
  {
    hide SectionGap, Alloc, Tls, Placed, Wrap;
    var f, s := p.file, p.file.sections[i];
    if f.ok && s.kind != SHT_NULL && s.kind != SHT_NOBITS {
      var gap := SectionGap(s, false, f.segments[g].vaddr, f.end, start, p.fileSize);
      if gap.Gap? {
        WrapInside(p.fileSize, s.size + gap.size);
        WrapInside(0, p.fileSize + Wrap(s.size + gap.size));
      }
    }
  }

  lemma {:induction false} SizeAccounts(p: Filling, g: nat, start: Xword, n: nat)
    requires WellFormed(p.file) && g < |p.file.segments| && n <= |p.file.segments[g].sections|
    requires AllNew(p.file, g) && Fill(p, g, start, n).file.ok
    ensures var q := Fill(p, g, start, n);
            Wrap(q.fileSize + Skipped(p, g, start, n)) == Wrap(p.fileSize + (q.file.end - p.file.end))
  {
    hide PlaceSection, Extends, Wrap;
    if n > 0 {
      var s := p.file.segments[g].sections;
      FillStep(p, g, start, n, s[n - 1]);
      SizeAccounts(p, g, start, n - 1);
      FillTouchesOnly(p, g, start, n - 1, s[n - 1]);
      var q, r := Fill(p, g, start, n - 1), Fill(p, g, start, n);
      StepSize(q, g, start, s[n - 1]);
      var k := Skipped(p, g, start, n - 1);
      var d := r.file.end - q.file.end;
      WrapAdds(q.fileSize + k, p.fileSize + (q.file.end - p.file.end), d);
      if q.file.sections[s[n - 1]].kind != SHT_NOBITS {
        WrapAdds(r.fileSize, q.fileSize + d, k);
      }
    }
  }

  lemma PlacedAbove(p: Filling, g: nat, start: Xword, i: nat)
    requires g < |p.file.segments| && i < |p.file.sections| == |p.file.generated|
    requires Solid(p.file, i) && !p.file.generated[i]
    requires var r := PlaceSection(p, g, start, i).file; r.generated[i] && r.end < Limit(r.wide)
    ensures var r := PlaceSection(p, g, start, i).file;
            p.file.end <= r.sections[i].offset && End(r.sections[i]) == r.end
  {
    hide Alloc, Tls, ToMultiple, Cut, Wrap;
    var f, s := p.file, p.file.sections[i];
    var gap := SectionGap(s, false, f.segments[g].vaddr, f.end, start, p.fileSize);
    if f.ok && gap.Gap? { CutIsExact(f.wide, f.end + gap.size); }
  }

  lemma {:induction false} SkippedBound(p: Filling, g: nat, start: Xword, n: nat)
    requires WellFormed(p.file) && g < |p.file.segments| && n <= |p.file.segments[g].sections|
    ensures Skipped(p, g, start, n) <= Fill(p, g, start, n).file.end - p.file.end
  {
    hide PlaceSection, Extends;
    if n > 0 {
      SkippedBound(p, g, start, n - 1);
      FillForward(p, g, start, n);
    }
  }

  lemma FillForward(p: Filling, g: nat, start: Xword, n: nat)
    requires WellFormed(p.file) && g < |p.file.segments| && 0 < n <= |p.file.segments[g].sections|
    ensures Fill(p, g, start, n - 1).file.end <= Fill(p, g, start, n).file.end
  {
    hide SectionGap, Alloc, Tls, SameKind;
  }

  /** How many of these sections there are up to and with the last one that has contents in the file. */
  function Reach(f: File, s: seq<nat>): (n: nat)
    requires forall j :: 0 <= j < |s| ==> s[j] < |f.sections|
    ensures n <= |s| && (n > 0 ==> Solid(f, s[n - 1])) && forall k :: n <= k < |s| ==> !Solid(f, s[k])
  {
    if s == [] then 0
    else if Solid(f, s[|s| - 1]) then |s|
    else Reach(f, s[..|s| - 1])
  }

  /** The padding skipped in front of the last section with contents. */
  function SkippedIn(f: File, g: nat): nat
    requires WellFormed(f) && g < |f.segments|
  {
    var (p, start) := Opening(f, g);
    Skipped(p, g, start, Reach(f, f.segments[g].sections))
  }

  predicate Inside(seg: Segment, sec: Section) { seg.offset <= sec.offset && End(sec) <= seg.offset + seg.fileSize }

  /** Section 0 is the null section. */
  predicate NullFirst(f: File) { f.sections != [] ==> f.sections[0].kind == SHT_NULL }

  /** Steps from n to m keep what the step before n has placed. */
  lemma {:induction false} FillExtends(p: Filling, g: nat, start: Xword, n: nat, m: nat)
    requires WellFormed(p.file) && g < |p.file.segments| && n <= m <= |p.file.segments[g].sections|
    ensures Extends(Fill(p, g, start, n).file, Fill(p, g, start, m).file)
  {
    hide PlaceSection, Extends;
    if n < m {
      FillExtends(p, g, start, n, m - 1);
      LastFill(p, g, start, m);
      ExtendsTransitive(Fill(p, g, start, n).file, Fill(p, g, start, m - 1).file, Fill(p, g, start, m).file);
    } else {
      ExtendsItself(p, g, start, n);
    }
  }

  lemma LastFill(p: Filling, g: nat, start: Xword, m: nat)
    requires WellFormed(p.file) && g < |p.file.segments| && 0 < m <= |p.file.segments[g].sections|
    ensures Extends(Fill(p, g, start, m - 1).file, Fill(p, g, start, m).file)
  {
    hide SectionGap, Alloc, Tls, SameKind;
  }

  lemma ExtendsItself(p: Filling, g: nat, start: Xword, n: nat)
    requires WellFormed(p.file) && g < |p.file.segments| && n <= |p.file.segments[g].sections|
    ensures Extends(Fill(p, g, start, n).file, Fill(p, g, start, n).file)
  {
    hide PlaceSection;
  }

  /** Behind the last section with contents the file size no longer moves. */
  lemma {:induction false} TailKeepsSize(p: Filling, g: nat, start: Xword, n: nat, m: nat)
    requires WellFormed(p.file) && g < |p.file.segments| && n <= m <= |p.file.segments[g].sections|
    requires NullFirst(p.file) && forall k :: n <= k < m ==> !Solid(p.file, p.file.segments[g].sections[k])
    requires Fill(p, g, start, m).file.ok
    ensures Fill(p, g, start, m).fileSize == Fill(p, g, start, n).fileSize && Fill(p, g, start, n).file.ok
  {
    hide PlaceSection, Extends, WellFormed;
    if n < m {
      var s := p.file.segments[g].sections;
      HeldInside(p.file, g, m - 1);
      FillStep(p, g, start, m, s[m - 1]);
      TailKeepsSize(p, g, start, n, m - 1);
      KindStays(p, g, start, m - 1, s[m - 1]);
      var q := Fill(p, g, start, m - 1);
      NoContentsNoSize(q, g, start, s[m - 1]);
    }
  }

  lemma KindStays(p: Filling, g: nat, start: Xword, n: nat, i: nat)
    requires WellFormed(p.file) && g < |p.file.segments| && n <= |p.file.segments[g].sections| && i < |p.file.sections|
    ensures var q := Fill(p, g, start, n).file; i < |q.sections| && q.sections[i].kind == p.file.sections[i].kind
  {
    hide Fill;
    assert SameKind(p.file.sections[i], Fill(p, g, start, n).file.sections[i]);
  }

  /** In a segment of new sections each section is new when its turn comes, and as it was. */
  lemma TurnIsNew(p: Filling, g: nat, start: Xword, m: nat)
    requires WellFormed(p.file) && g < |p.file.segments| && 0 < m <= |p.file.segments[g].sections| && AllNew(p.file, g)
    ensures var q, i := Fill(p, g, start, m - 1).file, p.file.segments[g].sections[m - 1];
            i < |p.file.sections| == |q.sections| == |q.generated| && !q.generated[i]
                && q.sections[i] == p.file.sections[i]
  {
    hide Fill;
    var s := p.file.segments[g].sections;
    assert s[m - 1] !in s[..m - 1];
    FillTouchesOnly(p, g, start, m - 1, s[m - 1]);
    FillLeaves(p, g, start, m - 1, s[m - 1]);
  }

  lemma NoContentsNoSize(p: Filling, g: nat, start: Xword, i: nat)
    requires g < |p.file.segments| && i < |p.file.sections| == |p.file.generated|
    requires p.file.sections[i].kind == SHT_NOBITS || p.file.sections[i].kind == SHT_NULL
    ensures PlaceSection(p, g, start, i).fileSize == p.fileSize
  {
    hide SectionGap, Alloc, Tls, Extends, Placed;
  }

  /** A section placed in this segment ends at the position or before it. */
  lemma {:induction false} FillBelow(p: Filling, g: nat, start: Xword, n: nat, i: nat)
    requires WellFormed(p.file) && g < |p.file.segments| && n <= |p.file.segments[g].sections|
    requires i < |p.file.sections| && Solid(p.file, i) && !p.file.generated[i]
    requires var q := Fill(p, g, start, n).file; q.generated[i] && q.end < Limit(q.wide)
    ensures var q := Fill(p, g, start, n).file; p.file.end <= q.sections[i].offset && End(q.sections[i]) <= q.end
  {
    hide PlaceSection, Extends, WellFormed;
    if n > 0 {
      var q := Fill(p, g, start, n - 1);
      FillStep(p, g, start, n, i);
      if q.file.generated[i] {
        FillBelow(p, g, start, n - 1, i);
      } else {
        FillLeaves(p, g, start, n - 1, i);
        NeverBefore(p, g, start, n - 1);
        PlacedAbove(q, g, start, i);
      }
    }
  }

  lemma NeverBefore(p: Filling, g: nat, start: Xword, n: nat)
    requires WellFormed(p.file) && g < |p.file.segments| && n <= |p.file.segments[g].sections|
    ensures p.file.end <= Fill(p, g, start, n).file.end
  {
    hide PlaceSection;
  }

  /** Where a segment of new sections ends in the file: at the last section with contents, short of what was skipped. */
  lemma NewSegmentSize(f: File, g: nat)
    requires WellFormed(f) && NullFirst(f) && g < |f.segments| && f.ok && BringsNew(f, g)
    requires PlaceSegment(f, g).ok && PlaceSegment(f, g).end < Limit(f.wide)
    ensures var seg := PlaceSegment(f, g).segments[g];
            var (p, start) := Opening(f, g);
            && seg.offset == (if f.segments[g].offsetSet && f.segments[g].offset == 0 then 0 else p.file.end)
            && seg.offset + seg.fileSize + SkippedIn(f, g) == Fill(p, g, start, Reach(f, seg.sections)).file.end
  {
    hide Opening, Extends, Fill, PlaceSegment, Skipped, AllNew, Reach, ArmOf, WellFormed, Cut, Wrap;
    var (p, start) := Opening(f, g);
    var s := f.segments[g].sections;
    OpensAsNew(f, g);
    PlacedAsFilled(f, g);
    PlacedAsSized(f, g);
    PlaceSegmentShape(f, g);
    ReachBehind(f, p.file, s);
    EndsInOrder(p, g, start, 0, |s|);
    NoSections(p, g, start);
    CutIsExact(f.wide, p.file.end);
    CutIsExact(f.wide, 0);
    NewFillSize(p, g, start, Reach(f, s));
  }

  lemma ReachBehind(f: File, p: File, s: seq<nat>)
    requires p.sections == f.sections && forall k :: 0 <= k < |s| ==> s[k] < |f.sections|
    ensures Reach(f, s) <= |s| && forall k :: Reach(f, s) <= k < |s| ==> !Solid(p, s[k])
  {}

  /** The same for the filling itself, behind whose first n sections there are no contents. */
  lemma NewFillSize(p: Filling, g: nat, start: Xword, n: nat)
    requires WellFormed(p.file) && NullFirst(p.file) && g < |p.file.segments| && AllNew(p.file, g)
             && p.fileSize <= p.file.end
    requires n <= |p.file.segments[g].sections|
    requires forall k :: n <= k < |p.file.segments[g].sections| ==>
               p.file.segments[g].sections[k] < |p.file.sections| && !Solid(p.file, p.file.segments[g].sections[k])
    requires var q := Fill(p, g, start, |p.file.segments[g].sections|).file; q.ok && q.end < Limit(p.file.wide)
    ensures Cut(p.file.wide, Fill(p, g, start, |p.file.segments[g].sections|).fileSize) + Skipped(p, g, start, n)
         == p.fileSize + (Fill(p, g, start, n).file.end - p.file.end)
  {
    hide Fill, Extends, Skipped, AllNew, Wrap, Cut;
    var s := p.file.segments[g].sections;
    TailKeepsSize(p, g, start, n, |s|);
    SizeAccounts(p, g, start, n);
    SkippedBound(p, g, start, n);
    EndsInOrder(p, g, start, n, |s|);
    ExactSize(p.file.wide, Fill(p, g, start, n).fileSize, Skipped(p, g, start, n),
              p.fileSize + (Fill(p, g, start, n).file.end - p.file.end));
  }

  lemma PlacedAsSized(f: File, g: nat)
    requires WellFormed(f) && g < |f.segments| && PlaceSegment(f, g).ok && BringsNew(f, g)
    ensures var (p, start) := Opening(f, g);
            var seg := PlaceSegment(f, g).segments[g];
            var atZero := f.segments[g].offsetSet && f.segments[g].offset == 0;
            && seg.fileSize == Cut(f.wide, Fill(p, g, start, |f.segments[g].sections|).fileSize)
            && p.file.wide == f.wide && seg.offset == Cut(f.wide, start)
            && p.fileSize == (if atZero then Wrap(p.file.end) else 0)
               && start == (if atZero then 0 else Wrap(p.file.end))
  {
    hide Fill, Cut, Wrap, SegmentGap, Extends;
    NewArm(f, g);
    hide ArmOf;
  }

  lemma NewArm(f: File, g: nat)
    requires WellFormed(f) && g < |f.segments| && BringsNew(f, g)
    ensures ArmOf(f, g) == if f.segments[g].offsetSet && f.segments[g].offset == 0 then AtZero else NewData
  {}

  lemma EndsInOrder(p: Filling, g: nat, start: Xword, n: nat, m: nat)
    requires WellFormed(p.file) && g < |p.file.segments| && n <= m <= |p.file.segments[g].sections|
    ensures p.file.end <= Fill(p, g, start, n).file.end <= Fill(p, g, start, m).file.end
  {
    hide Fill;
    NeverBefore(p, g, start, n);
    FillExtends(p, g, start, n, m);
  }

  lemma ExactSize(wide: bool, fileSize: Xword, skipped: nat, total: nat)
    requires Wrap(fileSize + skipped) == Wrap(total) && skipped <= total < Limit(wide)
    ensures fileSize + skipped == total && Cut(wide, fileSize) == fileSize
  {}

  /** The sections with contents begin in the segment and end where Reach does or before it; the last of them there. */
  lemma FillReaches(p: Filling, g: nat, start: Xword, n: nat, j: nat)
    requires WellFormed(p.file) && g < |p.file.segments| && AllNew(p.file, g) && j < n <= |p.file.segments[g].sections|
    requires p.file.segments[g].sections[j] < |p.file.sections| && Solid(p.file, p.file.segments[g].sections[j])
    requires var q := Fill(p, g, start, |p.file.segments[g].sections|).file; q.ok && q.end < Limit(q.wide)
    ensures var i := p.file.segments[g].sections[j];
            var q, r := Fill(p, g, start, n).file, Fill(p, g, start, |p.file.segments[g].sections|).file;
            && i < |r.sections| && p.file.end <= r.sections[i].offset && End(r.sections[i]) <= q.end
            && (j == n - 1 ==> End(r.sections[i]) == q.end)
  {
    hide Fill, Extends, WellFormed;
    var s := p.file.segments[g].sections;
    var i := s[j];
    EndsInOrder(p, g, start, n, |s|);
    OkBefore(p, g, start, n, |s|);
    FillGenerates(p, g, start, n, j);
    SameCounts(p, g, start, n);
    SameCounts(p, g, start, |s|);
    assert !p.file.generated[i];
    FillBelow(p, g, start, n, i);
    StaysPlaced(p, g, start, n, i);
    if j == n - 1 { LastEndsThere(p, g, start, n); }
  }

  lemma SameCounts(p: Filling, g: nat, start: Xword, n: nat)
    requires WellFormed(p.file) && g < |p.file.segments| && n <= |p.file.segments[g].sections|
    ensures var q := Fill(p, g, start, n).file;
            |q.sections| == |p.file.sections| == |p.file.generated| == |q.generated| && q.wide == p.file.wide
                && q.segments == p.file.segments
  {
    hide Fill;
  }

  lemma StaysPlaced(p: Filling, g: nat, start: Xword, n: nat, i: nat)
    requires WellFormed(p.file) && g < |p.file.segments| && n <= |p.file.segments[g].sections| && i < |p.file.sections|
    requires i < |Fill(p, g, start, n).file.generated| && Fill(p, g, start, n).file.generated[i]
    ensures var q, r := Fill(p, g, start, n).file, Fill(p, g, start, |p.file.segments[g].sections|).file;
            i < |q.sections| == |r.sections| && r.sections[i] == q.sections[i]
  {
    hide Fill;
    FillExtends(p, g, start, n, |p.file.segments[g].sections|);
  }

  lemma ContentsReach(f: File, g: nat, j: nat)
    requires WellFormed(f) && g < |f.segments| && f.ok && AllNew(f, g)
    requires PlaceSegment(f, g).ok && PlaceSegment(f, g).end < Limit(f.wide)
    requires j < |f.segments[g].sections| && f.segments[g].sections[j] < |f.sections|
             && Solid(f, f.segments[g].sections[j])
    ensures var s := f.segments[g].sections;
            var (p, start) := Opening(f, g);
            var n, r := Reach(f, s), PlaceSegment(f, g);
            && s[j] < |r.sections| && j < n && p.file.end <= r.sections[s[j]].offset
            && End(r.sections[s[j]]) <= Fill(p, g, start, n).file.end
            && (j == n - 1 ==> End(r.sections[s[j]]) == Fill(p, g, start, n).file.end)
  {
    hide Opening, Fill, Extends, PlaceSegment, AllNew, WellFormed, Reach;
    var (p, start) := Opening(f, g);
    OpensAsNew(f, g);
    PlacedAsFilled(f, g);
    var s := f.segments[g].sections;
    ReachCovers(f, s, j);
    FillReaches(p, g, start, Reach(f, s), j);
  }

  lemma ReachCovers(f: File, s: seq<nat>, j: nat)
    requires forall k :: 0 <= k < |s| ==> s[k] < |f.sections|
    requires j < |s| && Solid(f, s[j])
    ensures j < Reach(f, s)
  {}

  lemma OpensAsNew(f: File, g: nat)
    requires WellFormed(f) && g < |f.segments|
    ensures var p := Opening(f, g).0.file;
            && WellFormed(p) && p.segments == f.segments && p.sections == f.sections && p.wide == f.wide
            && (AllNew(f, g) ==> AllNew(p, g))
            && forall k :: 0 <= k < |f.segments[g].sections| ==> f.segments[g].sections[k] < |f.sections|
  {
    hide Opening;
  }

  lemma PlacedAsFilled(f: File, g: nat)
    requires WellFormed(f) && g < |f.segments| && f.ok
    ensures var (p, start) := Opening(f, g);
            var q, r := Fill(p, g, start, |f.segments[g].sections|).file, PlaceSegment(f, g);
            r.sections == q.sections && r.ok == q.ok && r.end == q.end && r.wide == q.wide == p.file.wide
  {
    hide Opening, Fill;
  }

  lemma OkBefore(p: Filling, g: nat, start: Xword, n: nat, m: nat)
    requires WellFormed(p.file) && g < |p.file.segments| && n <= m <= |p.file.segments[g].sections|
    ensures Fill(p, g, start, m).file.ok ==> Fill(p, g, start, n).file.ok
  {
    hide Fill;
    FillExtends(p, g, start, n, m);
  }

  lemma LastEndsThere(p: Filling, g: nat, start: Xword, n: nat)
    requires WellFormed(p.file) && g < |p.file.segments| && AllNew(p.file, g) && 0 < n <= |p.file.segments[g].sections|
    requires p.file.segments[g].sections[n - 1] < |p.file.sections| && Solid(p.file, p.file.segments[g].sections[n - 1])
    requires var q := Fill(p, g, start, n).file;
             q.generated[p.file.segments[g].sections[n - 1]] && q.end < Limit(q.wide)
    ensures var q := Fill(p, g, start, n).file; End(q.sections[p.file.segments[g].sections[n - 1]]) == q.end
  {
    hide PlaceSection, Extends, AllNew, Fill;
    var i := p.file.segments[g].sections[n - 1];
    FillStep(p, g, start, n, i);
    TurnIsNew(p, g, start, n);
    PlacedAbove(Fill(p, g, start, n - 1), g, start, i);
  }

  /**
   A segment of new sections contains, in the file, all its sections with contents if and only if no padding was
   skipped in front of the last of them. They always begin inside it.
   */
  lemma NewSegmentCovers(f: File, g: nat)
    requires WellFormed(f) && NullFirst(f) && g < |f.segments| && f.ok && BringsNew(f, g)
    requires PlaceSegment(f, g).ok && PlaceSegment(f, g).end < Limit(f.wide)
    ensures |PlaceSegment(f, g).segments| == |f.segments| && |PlaceSegment(f, g).sections| == |f.sections|
    ensures CoversExactly(f, g, PlaceSegment(f, g), SkippedIn(f, g))
  {
    hide PlaceSegment, ArmOf, AllNew, SkippedIn, Solid, Inside, NullFirst, WellFormed;
    var r, s := PlaceSegment(f, g), f.segments[g].sections;
    PlaceSegmentShape(f, g);
    OpensAsNew(f, g);
    forall i | i in s && i < |f.sections| && Solid(f, i)
      ensures r.segments[g].offset <= r.sections[i].offset && (SkippedIn(f, g) == 0 ==>
              Inside(r.segments[g], r.sections[i])) {
      var j :| 0 <= j < |s| && s[j] == i;
      CoversOne(f, g, j);
    }
    var n := Reach(f, s);
    if n > 0 {
      assert s[n - 1] in s;
      CoversOne(f, g, n - 1);
    } else {
      NothingSkipped(f, g);
    }
  }

  /** One section with contents; the last of them lies inside only if nothing was skipped. */
  lemma CoversOne(f: File, g: nat, j: nat)
    requires WellFormed(f) && NullFirst(f) && g < |f.segments| && f.ok && BringsNew(f, g)
    requires PlaceSegment(f, g).ok && PlaceSegment(f, g).end < Limit(f.wide)
    requires j < |f.segments[g].sections| && f.segments[g].sections[j] < |f.sections|
             && Solid(f, f.segments[g].sections[j])
    ensures var seg, i := PlaceSegment(f, g).segments[g], f.segments[g].sections[j];
            && i < |PlaceSegment(f, g).sections|
            && var sec := PlaceSegment(f, g).sections[i];
               && seg.offset <= sec.offset && (SkippedIn(f, g) == 0 ==> Inside(seg, sec))
               && (j == Reach(f, f.segments[g].sections) - 1 && Inside(seg, sec) ==> SkippedIn(f, g) == 0)
  {
    hide PlaceSegment, Opening, ArmOf, Fill, AllNew, SkippedIn, Solid, NullFirst, Reach, WellFormed;
    PlaceSegmentShape(f, g);
    NewSegmentSize(f, g);
    ContentsReach(f, g, j);
  }

  lemma PlaceSegmentShape(f: File, g: nat)
    requires WellFormed(f) && g < |f.segments|
    ensures var r := PlaceSegment(f, g);
            && |r.segments| == |f.segments| && |r.sections| == |f.sections| && r.wide == f.wide
            && r.segments[g].sections == f.segments[g].sections
  {
    hide PlaceSegment;
    assert SameUse(f.segments[g], PlaceSegment(f, g).segments[g]);
  }

  lemma NothingSkipped(f: File, g: nat)
    requires WellFormed(f) && g < |f.segments| && Reach(f, f.segments[g].sections) == 0
    ensures SkippedIn(f, g) == 0
  {
    hide Opening;
  }

  ghost predicate CoversExactly(f: File, g: nat, r: File, skipped: nat)
    requires WellFormed(f) && g < |f.segments| == |r.segments| && |r.sections| == |f.sections|
  {
    && (forall i :: i in f.segments[g].sections && i < |f.sections| && Solid(f, i) ==>
       r.segments[g].offset <= r.sections[i].offset)
    && ((forall i :: i in f.segments[g].sections && i < |f.sections| && Solid(f, i) ==>
       Inside(r.segments[g], r.sections[i])) <==> skipped == 0)
  }

  /**
   The same over the whole layout, for the segment that comes p-th in the order: before and r are the file
   when its turn comes and at the end.
   */
  lemma SegmentsCover(f: File, order: seq<nat>, p: nat, before: File, r: File)
    requires Start(f) && Complete(order, |f.segments|) && p < |order| && before == PlaceSegments(f, order[..p])
    requires r == LaidOut(f, order) && r.ok && r.end < Limit(f.wide) && NullFirst(f)
    requires BringsNew(before, order[p])
    ensures |r.segments| == |before.segments| && |r.sections| == |before.sections|
    ensures CoversExactly(before, order[p], r, SkippedIn(before, order[p]))
  {
    hide PlaceSegment, PlaceSegments, PlaceLooseUpTo, ArmOf, AllNew, Solid, SkippedIn, Inside, NullFirst;
    var g := order[p];
    var m := PlaceSegments(f, order);
    var after := PlaceSegment(before, g);
    LaterSegmentsKeep(f, order, p);
    NullStays(f, before);
    NewSegmentCovers(before, g);
    forall i | i in before.segments[g].sections && i < |before.sections| ensures r.sections[i] == after.sections[i] {
      PlacedBySegment(before, g, i);
      SameSections(before.segments[g], after.segments[g]);
      InThatSegment(m, g, i);
    }
  }

  lemma NullStays(f: File, r: File)
    requires Extends(f, r) && NullFirst(f)
    ensures NullFirst(r)
  {
    if f.sections != [] { assert SameKind(f.sections[0], r.sections[0]); }
  }

  // ----- a file in which the file size falls short

  /**
   One segment holding an aligned .bss-like section in front of one byte of data; its offset may be initialised to 0.
   */
  function GapFile(atZero: bool): File {
    File(true, 64, 56,
         [Section(SHT_NULL, 0, 0, 0, 0, false, 0), Section(SHT_NOBITS, 0, 4, 16, 0, false, 0),
             Section(1, 0, 1, 1, 0, false, 0)],
         [Segment(PT_LOAD, [1, 2], 0, 1, atZero, 0, 0, 0)], [false, false, false], 120, true)
  }

  /** The filling opened for it, and where it starts. */
  function GapOpening(atZero: bool): (Filling, Xword) {
    (Filling(GapFile(atZero), if atZero then 120 else 0, if atZero then 120 else 0), if atZero then 0 else 120)
  }

  lemma GapFill(atZero: bool)
    ensures var f, (p, start) := GapFile(atZero), GapOpening(atZero);
            && WellFormed(f) && Opening(f, 0) == (p, start)
            && var q := Fill(p, 0, start, 2);
               q.file.ok && q.fileSize == p.fileSize + 1 && q.file.sections[2].offset == 128
                   && q.file.sections[2].size == 1
  {
    hide Fill, PlaceSection, Extends;
    var (p, start) := GapOpening(atZero);
    assert SegmentGap(120, 0, 1) == 0;
    NoSections(p, 0, start);
    FillStep(p, 0, start, 1, 1);
    GapInFront(p, start);
    FillStep(p, 0, start, 2, 2);
    DataBehind(PlaceSection(p, 0, start, 1), start);
  }

  lemma GapInFront(p: Filling, start: Xword)
    requires p.file == GapFile(true) || p.file == GapFile(false)
    ensures var q := PlaceSection(p, 0, start, 1);
            && q.file.ok && q.file.end == 128 && q.fileSize == p.fileSize && !q.file.generated[2]
            && q.file.sections[2] == GapFile(true).sections[2]
  {
    assert ToMultiple(120, 16) == 8;
  }

  lemma DataBehind(q: Filling, start: Xword)
    requires q.file.ok && q.file.end == 128 && q.fileSize <= 120 && |q.file.segments| == 1 && q.file.wide
    requires |q.file.generated| == |q.file.sections| == 3 && !q.file.generated[2]
    requires q.file.sections[2] == GapFile(true).sections[2]
    ensures var r := PlaceSection(q, 0, start, 2);
            r.file.ok && r.fileSize == q.fileSize + 1 && r.file.sections[2].offset == 128
                && r.file.sections[2].size == 1
  {
    assert ToMultiple(128, 1) == 0;
  }

  /**
   The padding in front of the NOBITS section is missing from the file size, and the data sticks out, in both cases.
   */
  lemma NobitsGapIsLost(atZero: bool)
    ensures var f := GapFile(atZero);
            && Start(f) && Complete([0], |f.segments|)
            && var r := LaidOut(f, [0]);
               r.ok && End(r.sections[2]) == 129 && r.segments[0].offset + r.segments[0].fileSize == 121
  {
    hide Fill, Opening;
    var f := GapFile(atZero);
    assert [0][0] == 0;
    GapFill(atZero);
    assert [0][..0] == [];
    var m := PlaceSegments(f, [0]);
    assert m == PlaceSegment(f, 0);
    assert 2 in m.segments[0].sections by { assert m.segments[0].sections[1] == 2; }
    InThatSegment(m, 0, 2);
  }

  // ----- enclosed segments

  /** Coming to a section that is already placed, the file size becomes the distance from the start to its end. */
  lemma PlacedSectionSize(p: Filling, g: nat, start: Xword, i: nat)
    requires g < |p.file.segments| && i < |p.file.sections| == |p.file.generated| && p.file.ok
    requires p.file.generated[i] && Solid(p.file, i)
    ensures Wrap(start + PlaceSection(p, g, start, i).fileSize) == Wrap(End(p.file.sections[i]))
  {
    hide Wrap, Alloc, Tls, Extends, Placed;
    var s := p.file.sections[i];
    SizeReaches(start, p.fileSize, s.offset, s.size, Wrap(Wrap(s.offset - start) - p.fileSize));
  }

  lemma SizeReaches(start: Xword, fileSize: Xword, offset: Xword, size: Xword, gap: Xword)
    requires gap == Wrap(Wrap(offset - start) - fileSize)
    ensures Wrap(start + Wrap(fileSize + Wrap(size + gap))) == Wrap(offset + size)
  {
    hide Wrap;
    var a := WrapQuotient(offset - start);
    var b := WrapQuotient(Wrap(offset - start) - fileSize);
    var c := WrapQuotient(size + gap);
    var d := WrapQuotient(fileSize + Wrap(size + gap));
    assert start + Wrap(fileSize + Wrap(size + gap)) == offset + size + (a + b + c + d) * 0x1_0000_0000_0000_0000;
    CutWhole(true, offset + size, a + b + c + d);
    WrapIsCut(offset + size);
    WrapIsCut(offset + size + (a + b + c + d) * 0x1_0000_0000_0000_0000);
  }

  lemma WrapIsCut(n: int)
    ensures Wrap(n) == Cut(true, n)
  {}

  /**
   A segment whose last section with contents is already placed ends, in the file, where that section does; what
   has no contents behind it makes no difference.
   */
  lemma NestedSegmentEnd(f: File, g: nat, n: nat)
    requires WellFormed(f) && NullFirst(f) && g < |f.segments| && f.ok && n == Reach(f, f.segments[g].sections) && n > 0
    requires f.generated[f.segments[g].sections[n - 1]]
    requires PlaceSegment(f, g).ok
    ensures var seg := PlaceSegment(f, g).segments[g];
            Cut(f.wide, seg.offset + seg.fileSize) == Cut(f.wide, End(f.sections[f.segments[g].sections[n - 1]]))
  {
    hide PlaceSegment, Opening, Fill, Extends, Cut, Wrap, WellFormed, Reach;
    var (p, start) := Opening(f, g);
    var s := f.segments[g].sections;
    OpensAsNew(f, g);
    PlacedAsFilled(f, g);
    SizedByFill(f, g);
    ReachBehind(f, p.file, s);
    TailKeepsSize(p, g, start, n, |s|);
    StaysAsPlaced(p, g, start, n - 1, s[n - 1]);
    FillStep(p, g, start, n, s[n - 1]);
    PlacedSectionSize(Fill(p, g, start, n - 1), g, start, s[n - 1]);
    CutSum(f.wide, start, Fill(p, g, start, n).fileSize, End(f.sections[s[n - 1]]));
  }

  /** One without contents whose first section is placed has no size in the file. */
  lemma NestedSegmentEmpty(f: File, g: nat)
    requires WellFormed(f) && NullFirst(f) && g < |f.segments| && f.ok && ArmOf(f, g) == Nested
    requires Reach(f, f.segments[g].sections) == 0 && PlaceSegment(f, g).ok
    ensures PlaceSegment(f, g).segments[g].fileSize == 0
  {
    hide PlaceSegment, Fill, Extends, Wrap, WellFormed, Reach, ArmOf;
    var (p, start) := Opening(f, g);
    var s := f.segments[g].sections;
    OpensAsNew(f, g);
    PlacedAsFilled(f, g);
    SizedByFill(f, g);
    ReachBehind(f, p.file, s);
    TailKeepsSize(p, g, start, 0, |s|);
    NoSections(p, g, start);
  }

  lemma SizedByFill(f: File, g: nat)
    requires WellFormed(f) && g < |f.segments| && f.ok && PlaceSegment(f, g).ok
    ensures var (p, start) := Opening(f, g);
            var seg := PlaceSegment(f, g).segments[g];
            && seg.fileSize == Cut(f.wide, Fill(p, g, start, |f.segments[g].sections|).fileSize)
            && seg.offset == Cut(f.wide, start)
  {
    hide Fill, Cut, Opening, Extends;
  }

  lemma StaysAsPlaced(p: Filling, g: nat, start: Xword, n: nat, i: nat)
    requires WellFormed(p.file) && g < |p.file.segments| && n < |p.file.segments[g].sections|
    requires i < |p.file.sections| && p.file.generated[i]
    ensures var q, r := Fill(p, g, start, n).file, Fill(p, g, start, n + 1).file;
            && i < |q.sections| == |q.generated| && q.generated[i] && q.sections[i] == p.file.sections[i]
            && (r.ok ==> q.ok)
  {
    hide Fill;
    assert Extends(p.file, Fill(p, g, start, n).file);
    OkBefore(p, g, start, n, n + 1);
  }

  lemma CutSum(wide: bool, start: Xword, fileSize: Xword, end: int)
    requires Wrap(start + fileSize) == Wrap(end)
    ensures Cut(wide, Cut(wide, start) + Cut(wide, fileSize)) == Cut(wide, end)
  {
    hide Cut, Wrap;
    var a := WrapQuotient(start + fileSize);
    var b := WrapQuotient(end);
    assert start + fileSize == end + (b - a) * 0x1_0000_0000_0000_0000;
    CutWhole(wide, end, b - a);
    CutOfSum(wide, start, fileSize);
  }

  lemma CutOfSum(wide: bool, x: int, y: int)
    ensures Cut(wide, Cut(wide, x) + Cut(wide, y)) == Cut(wide, x + y)
  {
    var m := Limit(wide);
    CutTurns(wide, x + y, -(x / m) - y / m);
    assert Cut(wide, x) + Cut(wide, y) == x + y + (-(x / m) - y / m) * m;
  }

  /** Kinds of sections, and with them Reach, do not change over a layout. */
  lemma {:induction false} SameReach(f: File, r: File, s: seq<nat>)
    requires Extends(f, r) && forall j :: 0 <= j < |s| ==> s[j] < |f.sections|
    ensures Reach(f, s) == Reach(r, s)
  {
    if s != [] {
      assert SameKind(f.sections[s[|s| - 1]], r.sections[s[|s| - 1]]);
      SameReach(f, r, s[..|s| - 1]);
    }
  }

  /**
   Over the whole layout: a segment whose last section with contents an earlier one placed ends where that section
   does. One without contents, such as a TLS segment of NOBITS sections, whose first section an earlier one placed,
   has no size in the file, unless its offset was initialised to 0.
   */
  lemma EnclosedSegmentEnd(f: File, order: seq<nat>, p: nat, q: nat, k: nat)
    requires WellFormed(f) && NullFirst(f) && Within(order, |f.segments|) && Distinct(order) && q < p < |order|
    requires var s := f.segments[order[p]].sections; IsLast(f, s, k) && s[k] in f.segments[order[q]].sections
    requires PlaceSegments(f, order).ok
    ensures var r := PlaceSegments(f, order);
            EndsRight(f.wide, f.segments[order[p]], r.segments[order[p]], Reach(f, f.segments[order[p]].sections),
                r.sections)
  {
    hide PlaceSegment, PlaceSegments, Reach, NullFirst, WellFormed, Extends, SameUse, EndsRight, Cut, IsLast, Distinct;
    var g := order[p];
    var before, r := PlaceSegments(f, order[..p]), PlaceSegments(f, order);
    LaterSegmentsKeep(f, order, p);
    BeforeThen(f, order, p, k);
    OkInOrder(before, PlaceSegment(before, g), r);
    SameShape(f, order);
    PlacedBefore(f, order, p, q, f.segments[g].sections[k]);
    EndKept(before, g, r, k);
  }

  /** What a segment ends with stays. */
  lemma EndKept(f: File, g: nat, r: File, k: nat)
    requires WellFormed(f) && NullFirst(f) && g < |f.segments| == |r.segments| && f.ok && PlaceSegment(f, g).ok
    requires IsLast(f, f.segments[g].sections, k) && f.segments[g].sections[k] < |f.generated|
    requires f.generated[f.segments[g].sections[k]]
    requires Extends(f, PlaceSegment(f, g)) && Extends(PlaceSegment(f, g), r)
    requires r.segments[g] == PlaceSegment(f, g).segments[g]
    ensures EndsRight(f.wide, f.segments[g], r.segments[g], Reach(f, f.segments[g].sections), r.sections)
  {
    hide PlaceSegment, Reach, NullFirst, EndsRight, SameUse;
    NestedSegmentLasts(f, g, k);
    KeepsPlaced(f, PlaceSegment(f, g), r, f.segments[g].sections[k]);
    EndsRightStill(f, f.segments[g], r.segments[g], k, f.sections, r.sections);
  }

  lemma SameShape(f: File, order: seq<nat>)
    requires WellFormed(f) && Within(order, |f.segments|)
    ensures var r := PlaceSegments(f, order);
            |r.segments| == |f.segments| && |r.sections| == |f.sections| && r.wide == f.wide
  {
    hide PlaceSegments, SameUse, SameKind;
  }

  lemma OkInOrder(f: File, g: File, h: File)
    requires Extends(f, g) && Extends(g, h) && h.ok
    ensures f.ok && g.ok
  {}

  /** What a segment earlier in the order holds is placed. */
  lemma PlacedBefore(f: File, order: seq<nat>, p: nat, q: nat, i: nat)
    requires WellFormed(f) && Within(order, |f.segments|) && q < p < |order| && i in f.segments[order[q]].sections
    requires PlaceSegments(f, order[..p]).ok
    ensures var before := PlaceSegments(f, order[..p]);
            i < |f.sections| == |before.sections| == |before.generated| && before.generated[i]
  {
    hide PlaceSegments, SameUse, SameKind;
    var t := f.segments[order[q]].sections;
    var j :| 0 <= j < |t| && t[j] == i;
    AllGenerated(f, order[..p], q, j);
  }

  lemma EndsRightStill(f: File, was: Segment, seg: Segment, k: nat, a: seq<Section>, b: seq<Section>)
    requires (forall j :: 0 <= j < |was.sections| ==> was.sections[j] < |f.sections|) && IsLast(f, was.sections, k)
    requires EndsRight(f.wide, was, seg, Reach(f, was.sections), a) && |a| == |b| == |f.sections|
    requires b[was.sections[k]] == a[was.sections[k]]
    ensures EndsRight(f.wide, was, seg, Reach(f, was.sections), b)
  {
    hide Reach, Cut;
  }

  /** The k-th of these sections is the last with contents, or the first if none has. */
  predicate IsLast(f: File, s: seq<nat>, k: nat)
    requires forall j :: 0 <= j < |s| ==> s[j] < |f.sections|
  {
    k < |s| && k == if Reach(f, s) == 0 then 0 else Reach(f, s) - 1
  }

  /** Where a segment ends that was was, and now is seg: at the last of its n sections with contents. */
  predicate EndsRight(wide: bool, was: Segment, seg: Segment, n: nat, sections: seq<Section>) {
    && (0 < n <= |was.sections| && was.sections[n - 1] < |sections| ==>
          Cut(wide, seg.offset + seg.fileSize) == Cut(wide, End(sections[was.sections[n - 1]])))
    && (n == 0 && !(was.offsetSet && was.offset == 0) ==> seg.fileSize == 0)
  }

  lemma BeforeThen(f: File, order: seq<nat>, p: nat, k: nat)
    requires WellFormed(f) && NullFirst(f) && Within(order, |f.segments|) && Distinct(order) && p < |order|
    requires IsLast(f, f.segments[order[p]].sections, k)
    ensures var before, s := PlaceSegments(f, order[..p]), f.segments[order[p]].sections;
            && WellFormed(before) && NullFirst(before) && |before.segments| == |f.segments| && Extends(f, before)
            && before.wide == f.wide
            && k < |s| && s[k] < |f.sections| && before.segments[order[p]] == f.segments[order[p]]
               && IsLast(before, s, k) && Reach(before, s) == Reach(f, s)
  {
    hide PlaceSegment, PlaceSegments, Reach, NullFirst;
    var before := PlaceSegments(f, order[..p]);
    assert order[p] !in order[..p];
    StillOriginal(f, order[..p], order[p]);
    assert Extends(f, before);
    SameReach(f, before, f.segments[order[p]].sections);
    NullStays(f, before);
  }

  lemma NestedSegmentLasts(f: File, g: nat, k: nat)
    requires WellFormed(f) && NullFirst(f) && g < |f.segments| && f.ok && PlaceSegment(f, g).ok
    requires IsLast(f, f.segments[g].sections, k) && f.generated[f.segments[g].sections[k]]
    ensures EndsRight(f.wide, f.segments[g], PlaceSegment(f, g).segments[g], Reach(f, f.segments[g].sections),
            f.sections)
  {
    hide PlaceSegment, Reach, Cut, ArmOf;
    if Reach(f, f.segments[g].sections) > 0 {
      NestedSegmentEnd(f, g, Reach(f, f.segments[g].sections));
    } else if !(f.segments[g].offsetSet && f.segments[g].offset == 0) {
      NestedArm(f, g);
      NestedSegmentEmpty(f, g);
    }
  }

  lemma NestedArm(f: File, g: nat)
    requires WellFormed(f) && g < |f.segments| && f.segments[g].sections != [] && f.generated[f.segments[g].sections[0]]
    requires !(f.segments[g].offsetSet && f.segments[g].offset == 0)
    ensures ArmOf(f, g) == Nested
  {}

  // ----- segments without sections

  /** A segment without sections adds nothing to the file; one of type PT_PHDR stands for the segment table. */
  lemma NoSectionsPlaced(f: File, g: nat)
    requires WellFormed(f) && g < |f.segments| && f.ok && f.segments[g].sections == []
    ensures var was, seg := f.segments[g], PlaceSegment(f, g).segments[g];
            var size := if was.kind == PT_PHDR then TableSize(f) else 0;
            && seg.fileSize == Cut(f.wide, size)
            && seg.memorySize == (if was.memorySize < size then Cut(f.wide, size) else was.memorySize)
            && seg.offset == Cut(f.wide, if was.kind == PT_PHDR then f.headerSize
                                         else if was.offsetSet && was.offset == 0 then 0 else Wrap(f.end))
  {
    hide Cut, Wrap, TableSize, Extends;
    NoSections(Opening(f, g).0, g, Opening(f, g).1);
  }

  /** Over the whole layout: a segment of type PT_PHDR without sections covers exactly the segment table. */
  lemma TableSegment(f: File, order: seq<nat>, g: nat)
    requires Start(f) && Complete(order, |f.segments|) && g < |f.segments| < 0x1_0000
    requires f.segments[g].kind == PT_PHDR && f.segments[g].sections == [] && f.segments[g].memorySize == 0
    requires LaidOut(f, order).ok
    ensures var r := LaidOut(f, order);
            var seg := r.segments[g];
            && seg.offset == f.headerSize
            && seg.fileSize == seg.memorySize == f.segmentEntrySize * |f.segments|
            && seg.offset + seg.fileSize == AfterHeaders(f)
  {
    hide PlaceSegment, PlaceSegments, PlaceLooseUpTo, Cut;
    assert g in order;
    var p :| 0 <= p < |order| && order[p] == g;
    var before := PlaceSegments(f, order[..p]);
    LaterSegmentsKeep(f, order, p);
    SameShape(f, order[..p]);
    OkInOrder(before, PlaceSegment(before, g), PlaceSegments(f, order));
    assert Extends(f, before);
    NoSectionsPlaced(before, g);
    TableFits(f);
    CutIsExact(f.wide, f.headerSize);
    CutIsExact(f.wide, f.segmentEntrySize * |f.segments|);
  }

  lemma TableFits(f: File)
    requires |f.segments| < 0x1_0000
    ensures TableSize(f) == f.segmentEntrySize * |f.segments| < 0x1_0000_0000
  {
    MulBound(f.segmentEntrySize, |f.segments|);
  }

  lemma MulBound(a: nat, b: nat)
    requires a < 0x1_0000 && b < 0x1_0000
    ensures a * b < 0x1_0000_0000
  {
    Words.MulGe(0xFFFF, a, b);
  }
}

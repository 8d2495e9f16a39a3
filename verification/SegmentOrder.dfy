/**
 The order in which the ELF writer lays segments out (SIM/ELFIO/elfio/elfio.hpp,
 is_subsequence_of and get_ordered_segments): a work-list that puts a segment
 back as long as another one encloses it.
 */
module SegmentOrder {

  /** What the ordering looks at. */
  datatype Segment = Segment(index: nat, sections: seq<nat>, offset_initialized: bool, offset: nat)

  /** std::includes, walking both ranges. */
  predicate Includes(big: seq<nat>, small: seq<nat>) {
    if small == [] then true
    else if big == [] then false
    else if small[0] < big[0] then false
    else if big[0] < small[0] then Includes(big[1..], small)
    else Includes(big[1..], small[1..])
  }

  ghost predicate Sorted(s: seq<nat>) { forall i, j :: 0 <= i < j < |s| ==> s[i] <= s[j] }

  /** On sorted section lists the walk decides whether one list is contained in the other. */
  lemma {:induction false} IncludesMeans(big: seq<nat>, small: seq<nat>)
    requires Sorted(big) && Sorted(small)
    ensures Includes(big, small) <==> multiset(small) <= multiset(big)
  {
    if small != [] && big != [] {
      if small[0] < big[0] {
        SmallerIsAbsent(big, small[0]);
        Absent(small, big, small[0]);
      } else if big[0] < small[0] {
        SmallerIsAbsent(small, big[0]);
        IncludesMeans(big[1..], small);
        DropAbsent(big, small);
      } else {
        IncludesMeans(big[1..], small[1..]);
        SameHead(big, small);
      }
    } else if small != [] {
      Absent(small, big, small[0]);
    }
  }

  lemma SmallerIsAbsent(s: seq<nat>, x: nat)
    requires Sorted(s) && s != [] && x < s[0]
    ensures x !in s
  {}

  lemma DropAbsent(big: seq<nat>, small: seq<nat>)
    requires big != [] && big[0] !in small
    ensures multiset(small) <= multiset(big) <==> multiset(small) <= multiset(big[1..])
  {
    assert big == [big[0]] + big[1..];
    assert big[0] !in multiset(small);
  }

  lemma Absent(small: seq<nat>, big: seq<nat>, x: nat)
    requires x in small && x !in big
    ensures !(multiset(small) <= multiset(big))
  {
    assert x in multiset(small) && x !in multiset(big);
  }

  lemma SameHead(big: seq<nat>, small: seq<nat>)
    requires big != [] && small != [] && big[0] == small[0]
    ensures multiset(small) <= multiset(big) <==> multiset(small[1..]) <= multiset(big[1..])
  {
    assert big == [big[0]] + big[1..] && small == [small[0]] + small[1..];
    var b, s, x := multiset(big[1..]), multiset(small[1..]), multiset{big[0]};
    assert multiset(big) == x + b && multiset(small) == x + s;
    if multiset(small) <= multiset(big) {
      forall n | n in s ensures s[n] <= b[n] { assert (x + s)[n] <= (x + b)[n]; }
    }
  }

  /** Sections of a are a proper sub-list of the sections of b. */
  predicate Nested(a: Segment, b: Segment) { |a.sections| < |b.sections| && Includes(b.sections, a.sections) }

  lemma NotNestedInItself(a: Segment)
    ensures !Nested(a, a)
  {}

  /** On any lists, sorted or not, what the walk finds included really is contained. */
  lemma {:induction false} IncludesContained(big: seq<nat>, small: seq<nat>, x: nat)
    requires Includes(big, small) && x in small
    ensures x in big
  {
    if big[0] == small[0] {
      if x != small[0] { IncludesContained(big[1..], small[1..], x); }
    } else {
      IncludesContained(big[1..], small, x);
    }
  }

  lemma NestedIsContained(a: Segment, b: Segment, x: nat)
    requires Nested(a, b) && x in a.sections
    ensures x in b.sections
  {
    IncludesContained(b.sections, a.sections, x);
  }

  // ----- why the work-list empties

  ghost predicate Free(all: seq<Segment>, s: Segment) { forall t :: t in all ==> !Nested(s, t) }

  /** How many elements stand before the first one that none encloses. */
  ghost function Distance(all: seq<Segment>, rest: seq<Segment>): nat {
    if rest == [] || Free(all, rest[0]) then 0 else 1 + Distance(all, rest[1..])
  }

  lemma {:induction false} SomeFree(all: seq<Segment>, i: nat) returns (k: nat)
    requires i < |all|
    ensures k < |all| && Free(all, all[k]) && |all[k].sections| >= |all[i].sections|
    decreases MaxLen(all) - |all[i].sections|
  {
    LenBound(all, i);
    if Free(all, all[i]) {
      k := i;
    } else {
      var t :| t in all && Nested(all[i], t);
      var j :| 0 <= j < |all| && all[j] == t;
      LenBound(all, j);
      k := SomeFree(all, j);
    }
  }

  ghost function MaxLen(all: seq<Segment>): nat {
    if all == [] then 0
    else if |all[0].sections| > MaxLen(all[1..]) then |all[0].sections| else MaxLen(all[1..])
  }

  lemma {:induction false} LenBound(all: seq<Segment>, i: nat)
    requires i < |all|
    ensures |all[i].sections| <= MaxLen(all)
  {
    if i > 0 { LenBound(all[1..], i - 1); }
  }

  lemma {:induction false} DistanceBefore(all: seq<Segment>, rest: seq<Segment>, back: seq<Segment>, k: nat)
    requires k < |rest| && Free(all, rest[k])
    ensures Distance(all, rest + back) == Distance(all, rest) <= k
  {
    assert (rest + back)[0] == rest[0];
    if !Free(all, rest[0]) {
      assert (rest + back)[1..] == rest[1..] + back;
      DistanceBefore(all, rest[1..], back, k - 1);
    }
  }

  lemma {:induction false} DistanceSameSet(all: seq<Segment>, all': seq<Segment>, rest: seq<Segment>)
    requires forall t :: t in all <==> t in all'
    ensures Distance(all, rest) == Distance(all', rest)
  {
    if rest != [] {
      assert Free(all, rest[0]) == Free(all', rest[0]);
      DistanceSameSet(all, all', rest[1..]);
    }
  }

  /** Moving an enclosed front element to the back brings a free element one place nearer the front. */
  lemma RequeueIsNearer(w: seq<Segment>)
    requires w != [] && !Free(w, w[0])
    ensures Distance(w[1..] + [w[0]], w[1..] + [w[0]]) < Distance(w, w)
  {
    var k := SomeFree(w, 0);
    DistanceBefore(w, w[1..], [w[0]], k - 1);
    var v := w[1..] + [w[0]];
    assert w == [w[0]] + w[1..];
    DistanceSameSet(w, v, v);
  }

  // ----- the algorithm

  function Swapped(w: seq<Segment>, i: nat, j: nat): seq<Segment>
    requires i < |w| && j < |w|
  {
    w[i := w[j]][j := w[i]]
  }

  lemma SwapPermutes(w: seq<Segment>, i: nat, j: nat)
    requires i < |w| && j < |w|
    ensures multiset(Swapped(w, i, j)) == multiset(w) && |Swapped(w, i, j)| == |w|
  {}

  /** A segment whose offset is known to be 0. */
  predicate StartsAtZero(s: Segment) { s.offset_initialized && s.offset == 0 }

  /** Before place next everything has offset 0, and between next and upTo nothing is known to. */
  ghost predicate Split(w: seq<Segment>, next: nat, upTo: nat) {
    && next <= upTo <= |w|
    && (forall k :: 0 <= k < next ==> w[k].offset == 0)
    && (forall k :: next < k < upTo ==> !StartsAtZero(w[k]))
  }

  lemma NothingSplit(w: seq<Segment>)
    ensures Split(w, 0, 0)
  {}

  lemma SplitStays(w: seq<Segment>, next: nat, i: nat)
    requires Split(w, next, i) && i < |w| && (i == next || !StartsAtZero(w[i]))
    ensures Split(w, next, i + 1)
  {}

  lemma SplitSwaps(w: seq<Segment>, next: nat, i: nat)
    requires Split(w, next, i) && next < i < |w| && StartsAtZero(w[i])
    ensures var slot := if w[next].offset == 0 then next + 1 else next; Split(Swapped(w, i, slot), slot + 1, i + 1)
  {}

  lemma SplitMeans(w: seq<Segment>, next: nat)
    requires Split(w, next, |w|)
    ensures forall i, j :: 0 <= i < j < |w| && StartsAtZero(w[j]) ==> w[i].offset == 0
  {}

  /** What the loop makes of the list from its i-th place on, with next the slot to fill. */
  function FrontedFrom(w: seq<Segment>, next: nat, i: nat): (v: seq<Segment>)
    requires next <= i <= |w|
    ensures |v| == |w|
    decreases |w| - i
  {
    if i == |w| then w
    else if i != next && StartsAtZero(w[i]) then
      var slot := if w[next].offset == 0 then next + 1 else next;
      FrontedFrom(Swapped(w, i, slot), slot + 1, i + 1)
    else FrontedFrom(w, next, i + 1)
  }

  function Fronted(w: seq<Segment>): seq<Segment> { FrontedFrom(w, 0, 0) }

  /**
   Whatever else the list holds: in front of a segment known to start at file offset 0 there are only segments with
   offset 0.
   */
  method ZeroToFront(segments: seq<Segment>) returns (worklist: seq<Segment>)
    ensures worklist == Fronted(segments) && multiset(worklist) == multiset(segments)
    ensures forall i, j :: 0 <= i < j < |worklist| && StartsAtZero(worklist[j]) ==> worklist[i].offset == 0
  {
    hide Split, Swapped;
    worklist := segments;
    var nextSlot := 0;
    assert Split(worklist, 0, 0) by { NothingSplit(worklist); }
    for i := 0 to |segments|
      invariant |worklist| == |segments| && multiset(worklist) == multiset(segments)
      invariant nextSlot <= i && Split(worklist, nextSlot, i)
      invariant FrontedFrom(worklist, nextSlot, i) == Fronted(segments)
    {
      if i != nextSlot && worklist[i].offset_initialized && worklist[i].offset == 0 {
        SplitSwaps(worklist, nextSlot, i);
        if worklist[nextSlot].offset == 0 {
          nextSlot := nextSlot + 1;
        }
        SwapPermutes(worklist, i, nextSlot);
        worklist := Swapped(worklist, i, nextSlot);
        nextSlot := nextSlot + 1;
      } else {
        SplitStays(worklist, nextSlot, i);
      }
    }
    SplitMeans(worklist, nextSlot);
  }

  /** Two segments at 0 behind three others: they come to the front in their order, and the others change places. */
  lemma FrontedFive(a: Segment, b: Segment, c: Segment, z: Segment, y: Segment)
    requires a.offset != 0 && b.offset != 0 && c.offset != 0 && StartsAtZero(z) && StartsAtZero(y)
    ensures Fronted([a, b, c, z, y]) == [z, y, c, a, b]
  {
    var w := [a, b, c, z, y];
    var v := [z, b, c, a, y];
    assert Swapped(w, 3, 0) == v && Swapped(v, 4, 1) == [z, y, c, a, b];
    assert FrontedFrom(w, 0, 0) == FrontedFrom(w, 0, 1) == FrontedFrom(w, 0, 2) == FrontedFrom(w, 0, 3);
    assert FrontedFrom(w, 0, 3) == FrontedFrom(v, 1, 4) == FrontedFrom([z, y, c, a, b], 2, 5);
  }

  /** No earlier segment is nested in a later one. */
  ghost predicate Ordered(res: seq<Segment>) { forall i, j :: 0 <= i < j < |res| ==> !Nested(res[i], res[j]) }

  ghost predicate NoneEnclosedBy(res: seq<Segment>, w: seq<Segment>) {
    forall r, t :: r in res && t in w ==> !Nested(r, t)
  }

  /** The first element that encloses a segment, or the length of the list. */
  method FirstEnclosing(seg: Segment, worklist: seq<Segment>) returns (i: nat)
    ensures i <= |worklist| && (i < |worklist| ==> Nested(seg, worklist[i]))
    ensures i == |worklist| ==> forall t :: t in worklist ==> !Nested(seg, t)
  {
    hide Nested;
    i := 0;
    while i < |worklist|
      invariant 0 <= i <= |worklist|
      invariant forall k :: 0 <= k < i ==> !Nested(seg, worklist[k])
    {
      if Nested(seg, worklist[i]) { break; }
      i := i + 1;
    }
  }

  /** What has been ordered, what is still to do, and that nothing ordered belongs behind something to do. */
  ghost predicate Sorting(segments: seq<Segment>, res: seq<Segment>, w: seq<Segment>) {
    multiset(res) + multiset(w) == multiset(segments) && Ordered(res) && NoneEnclosedBy(res, w)
  }

  lemma Requeued(segments: seq<Segment>, res: seq<Segment>, w: seq<Segment>)
    requires Sorting(segments, res, w) && w != []
    ensures Sorting(segments, res, w[1..] + [w[0]])
  {
    hide Nested, Ordered;
    assert w == [w[0]] + w[1..];
  }

  lemma Appended(segments: seq<Segment>, res: seq<Segment>, w: seq<Segment>)
    requires Sorting(segments, res, w) && w != [] && forall t :: t in w[1..] ==> !Nested(w[0], t)
    ensures Sorting(segments, res + [w[0]], w[1..])
  {
    hide Nested;
    assert w == [w[0]] + w[1..];
  }

  // ----- which comes when

  /**
   The round of the work-list in which the a-th element comes out: the latest round of an element that encloses it,
   and one more if that one stands behind it.
   */
  ghost function Round(w: seq<Segment>, a: nat): nat
    requires a < |w|
    decreases MaxLen(w) - |w[a].sections|, |w| + 1
  {
    LenBound(w, a);
    RoundUpTo(w, a, |w|)
  }

  ghost function RoundUpTo(w: seq<Segment>, a: nat, n: nat): nat
    requires a < |w| && n <= |w|
    decreases MaxLen(w) - |w[a].sections|, n
  {
    if n == 0 then 0
    else
      var m := RoundUpTo(w, a, n - 1);
      if Nested(w[a], w[n - 1]) then
        LenBound(w, n - 1);
        var late := Round(w, n - 1) + if n - 1 > a then 1 else 0;
        if late > m then late else m
      else m
  }

  /** It waits for each element that encloses it, and no longer than for one of them. */
  lemma {:induction false} RoundBound(w: seq<Segment>, a: nat, n: nat)
    requires a < |w| && n <= |w|
    ensures forall b :: 0 <= b < n && Nested(w[a], w[b]) ==>
            Round(w, b) + (if b > a then 1 else 0) <= RoundUpTo(w, a, n)
    ensures RoundUpTo(w, a, n) > 0 ==>
              exists b :: 0 <= b < n && Nested(w[a], w[b]) && Round(w, b) + (if b > a then 1 else 0)
                  == RoundUpTo(w, a, n)
  {
    hide Nested, Round;
    if n > 0 { RoundBound(w, a, n - 1); }
  }

  lemma RoundIsMax(w: seq<Segment>, a: nat)
    requires a < |w|
    ensures forall b :: 0 <= b < |w| && Nested(w[a], w[b]) ==> Round(w, b) + (if b > a then 1 else 0) <= Round(w, a)
    ensures Round(w, a) > 0 ==>
              exists b :: 0 <= b < |w| && Nested(w[a], w[b]) && Round(w, b) + (if b > a then 1 else 0) == Round(w, a)
  {
    hide Nested, RoundUpTo;
    RoundBound(w, a, |w|);
    LenBound(w, a);
  }

  /** By round, and within a round by place in the list. */
  ghost predicate Before(w: seq<Segment>, a: nat, b: nat)
    requires a < |w| && b < |w|
  {
    Round(w, a) < Round(w, b) || (Round(w, a) == Round(w, b) && a < b)
  }

  ghost predicate AllBelow(ps: seq<nat>, n: nat) { forall k :: 0 <= k < |ps| ==> ps[k] < n }

  function Pick(w: seq<Segment>, ps: seq<nat>): seq<Segment>
    requires AllBelow(ps, |w|)
  {
    seq(|ps|, k requires 0 <= k < |ps| => w[ps[k]])
  }

  /** Every place of the list once, by round and place. */
  ghost predicate InRounds(w: seq<Segment>, ps: seq<nat>) {
    && AllBelow(ps, |w|) && (forall a :: 0 <= a < |w| ==> a in ps)
    && (forall i, j :: 0 <= i < j < |ps| ==> Before(w, ps[i], ps[j]))
  }

  /** There is only one such sequence. */
  lemma OnlyOrder(w: seq<Segment>, ps: seq<nat>, qs: seq<nat>)
    requires InRounds(w, ps) && InRounds(w, qs) && |ps| <= |qs|
    ensures ps == qs
  {
    hide Round;
    SameSoFar(w, ps, qs, |ps|);
    assert ps[..|ps|] == ps;
    if |ps| < |qs| {
      NewPlace(w, qs, |ps|);
      assert false;
    }
  }

  lemma NewPlace(w: seq<Segment>, qs: seq<nat>, n: nat)
    requires InRounds(w, qs) && n < |qs|
    ensures qs[n] < |w| && qs[n] !in qs[..n]
  {
    hide Round;
  }

  lemma {:induction false} SameSoFar(w: seq<Segment>, ps: seq<nat>, qs: seq<nat>, k: nat)
    requires InRounds(w, ps) && InRounds(w, qs) && k <= |ps| && k <= |qs|
    ensures ps[..k] == qs[..k]
  {
    hide Round;
    if k > 0 {
      SameSoFar(w, ps, qs, k - 1);
      assert forall i :: 0 <= i < k - 1 ==> ps[i] == ps[..k - 1][i] == qs[..k - 1][i] == qs[i];
      assert ps[k - 1] in qs && qs[k - 1] in ps;
      var m :| 0 <= m < |qs| && qs[m] == ps[k - 1];
      var l :| 0 <= l < |ps| && ps[l] == qs[k - 1];
      assert m >= k - 1 && l >= k - 1;
    }
  }

  ghost predicate Increasing(s: seq<nat>) { forall i, j :: 0 <= i < j < |s| ==> s[i] < s[j] }

  /**
   In round r: out has come out; the places in now are still to be looked at in this round, those in later have been
   put back.
   */
  ghost predicate Going(w: seq<Segment>, r: nat, out: seq<nat>, now: seq<nat>, later: seq<nat>) {
    && AllBelow(out, |w|) && AllBelow(now, |w|) && AllBelow(later, |w|)
    && (forall a :: 0 <= a < |w| ==> a in out || a in now || a in later)
    && (forall i, j :: 0 <= i < j < |out| ==> Before(w, out[i], out[j]))
    && (forall p, x :: p in out && x in now ==> Before(w, p, x))
    && (forall p, x :: p in out && x in later ==> Before(w, p, x))
    && (forall p :: p in out ==> Round(w, p) < r || (Round(w, p) == r && forall x :: x in now ==> p < x))
    && Increasing(now) && Increasing(later) && (forall d, x :: d in later && x in now ==> d < x)
    && (forall x :: x in now ==> Round(w, x) >= r) && (forall d :: d in later ==> Round(w, d) > r)
  }

  lemma Begins(w: seq<Segment>) returns (now: seq<nat>)
    ensures Going(w, 0, [], now, []) && Picked(w, now + [], w)
  {
    hide Round;
    now := seq(|w|, k => k);
    forall a | 0 <= a < |w| ensures a in now { assert now[a] == a; }
    assert Increasing(now) && Increasing([]);
    assert now + [] == now && Pick(w, now) == w;
  }

  lemma NextRound(w: seq<Segment>, r: nat, out: seq<nat>, later: seq<nat>)
    requires Going(w, r, out, [], later)
    ensures Going(w, r + 1, out, later, [])
  {
    hide Round;
  }

  /** The next element is put back exactly if its round has not come. */
  lemma WaitsExactly(w: seq<Segment>, r: nat, out: seq<nat>, now: seq<nat>, later: seq<nat>)
    requires Going(w, r, out, now, later) && now != []
    ensures Round(w, now[0]) > r <==> exists b :: (b in now[1..] || b in later) && Nested(w[now[0]], w[b])
  {
    hide Round, Nested;
    var a := now[0];
    assert now == [a] + now[1..];
    RoundIsMax(w, a);
    if Round(w, a) > r {
      var b :| 0 <= b < |w| && Nested(w[a], w[b]) && Round(w, b) + (if b > a then 1 else 0) == Round(w, a);
      assert a != b by { NestedIsLonger(w[a], w[b]); }
      assert a in now;
      assert b !in out;
      assert b in now[1..] || b in later;
    }
    if b :| (b in now[1..] || b in later) && Nested(w[a], w[b]) {
      assert b in now || b in later;
      if b in now[1..] { LaterIsGreater(now, b); }
      assert Round(w, b) + (if b > a then 1 else 0) <= Round(w, a);
    }
  }

  lemma LaterIsGreater(s: seq<nat>, b: nat)
    requires Increasing(s) && s != [] && b in s[1..]
    ensures s[0] < b
  {
    var k :| 0 <= k < |s[1..]| && s[1..][k] == b;
    assert s[k + 1] == b;
  }

  lemma NestedIsLonger(a: Segment, b: Segment)
    requires Nested(a, b)
    ensures |a.sections| < |b.sections|
  {}

  /** The front is smaller than what is behind it, and greater than what has been put back. */
  lemma FrontBetween(w: seq<Segment>, r: nat, out: seq<nat>, now: seq<nat>, later: seq<nat>)
    requires Going(w, r, out, now, later) && now != []
    ensures now[0] in now && forall x :: x in now <==> x == now[0] || x in now[1..]
    ensures Increasing(now[1..]) && (forall x :: x in now[1..] ==> now[0] < x)
            && (forall d :: d in later ==> d < now[0])
  {
    hide Round, Before;
    assert now == [now[0]] + now[1..];
    forall x | x in now[1..] ensures now[0] < x { LaterIsGreater(now, x); }
  }

  lemma PutBack(w: seq<Segment>, r: nat, out: seq<nat>, now: seq<nat>, later: seq<nat>)
    requires Going(w, r, out, now, later) && now != [] && Round(w, now[0]) > r
    ensures Going(w, r, out, now[1..], later + [now[0]])
  {
    hide Round, Before;
    FrontBetween(w, r, out, now, later);
    var put := later + [now[0]];
    assert forall x :: x in put <==> x in later || x == now[0];
    forall i, j | 0 <= i < j < |put| ensures put[i] < put[j] {
      assert put[i] in later;
    }
  }

  lemma ComesOut(w: seq<Segment>, r: nat, out: seq<nat>, now: seq<nat>, later: seq<nat>)
    requires Going(w, r, out, now, later) && now != [] && Round(w, now[0]) == r
    ensures Going(w, r, out + [now[0]], now[1..], later)
  {
    FrontBetween(w, r, out, now, later);
    var a, more := now[0], out + [now[0]];
    forall x | x in now[1..] || x in later ensures Before(w, a, x) {
      assert x in now || x in later;
    }
    hide Before;
    assert forall x :: x in more <==> x in out || x == a;
    forall i, j | 0 <= i < j < |more| ensures Before(w, more[i], more[j]) {
      assert more[i] in out;
      assert j == |more| - 1 ==> more[j] == a && a in now;
    }
    OutSoFar(w, r, out, now);
  }

  lemma OutSoFar(w: seq<Segment>, r: nat, out: seq<nat>, now: seq<nat>)
    requires AllBelow(out, |w|) && AllBelow(now, |w|) && now != [] && Increasing(now) && Round(w, now[0]) == r
    requires forall p :: p in out ==> Round(w, p) < r || (Round(w, p) == r && forall x :: x in now ==> p < x)
    ensures forall p :: p in out + [now[0]] ==> p < |w|
    ensures forall p :: p in out + [now[0]] ==>
              Round(w, p) < r || (Round(w, p) == r && forall x :: x in now[1..] ==> p < x)
  {
    hide Round;
    forall p | p in out + [now[0]]
      ensures p < |w| && (Round(w, p) < r || (Round(w, p) == r && forall x :: x in now[1..] ==> p < x)) {
      if p in out {
        assert forall x :: x in now[1..] ==> x in now;
      } else {
        forall x | x in now[1..] ensures p < x { LaterIsGreater(now, x); }
      }
    }
  }

  /** An element that none encloses comes out in the first round. */
  lemma FreeRound(w: seq<Segment>, a: nat)
    requires a < |w| && Free(w, w[a])
    ensures Round(w, a) == 0
  {
    hide Nested, Round;
    RoundIsMax(w, a);
  }

  /** So those come out in the order of the list. */
  lemma FreeInOrder(w: seq<Segment>, ps: seq<nat>, i: nat, j: nat)
    requires InRounds(w, ps) && i < j < |ps| && Free(w, w[ps[i]]) && Free(w, w[ps[j]])
    ensures ps[i] < ps[j]
  {
    hide Round, Free;
    FreeRound(w, ps[i]);
    FreeRound(w, ps[j]);
  }

  /** And in front of one of them that starts at file offset 0 only segments with offset 0 come out. */
  lemma ZeroFirst(w: seq<Segment>, ps: seq<nat>, i: nat, j: nat)
    requires InRounds(w, ps) && i < j < |ps| && Free(w, w[ps[j]]) && StartsAtZero(w[ps[j]])
    requires forall a, b :: 0 <= a < b < |w| && StartsAtZero(w[b]) ==> w[a].offset == 0
    ensures w[ps[i]].offset == 0
  {
    hide Round, Free;
    FreeRound(w, ps[j]);
  }

  /** In the result: nothing with another offset in front of a segment that starts at 0 and that none encloses. */
  ghost predicate ZerosFirst(res: seq<Segment>) {
    forall i, j :: 0 <= i < j < |res| && StartsAtZero(res[j]) && Free(res, res[j]) ==> res[i].offset == 0
  }

  lemma ZerosComeFirst(w: seq<Segment>, ps: seq<nat>, res: seq<Segment>)
    requires InRounds(w, ps) && res == Pick(w, ps) && multiset(res) == multiset(w)
    requires forall a, b :: 0 <= a < b < |w| && StartsAtZero(w[b]) ==> w[a].offset == 0
    ensures ZerosFirst(res)
  {
    hide Before, Nested;
    forall i, j | 0 <= i < j < |res| && StartsAtZero(res[j]) && Free(res, res[j]) ensures res[i].offset == 0 {
      forall t | t in w ensures !Nested(res[j], t) { assert t in multiset(w); assert t in res; }
      ZeroFirst(w, ps, i, j);
    }
  }

  /**
   Terminates, returns a permutation with every enclosing segment before those nested in it, and takes the segments
   out round by round: places names where each stood after the first loop.
   */
  method GetOrderedSegments(segments: seq<Segment>) returns (res: seq<Segment>, ghost places: seq<nat>)
    ensures multiset(res) == multiset(segments)
    ensures Ordered(res) && ZerosFirst(res)
    ensures InRounds(Fronted(segments), places) && res == Pick(Fronted(segments), places)
  {
    hide Nested, Free, Distance, Going, ZerosFirst, InRounds, Fronted, Pick;
    res := [];
    var worklist := ZeroToFront(segments);
    ghost var first := worklist;
    ghost var now := Begins(first);
    ghost var r, later := 0, [];
    places := [];
    NothingPicked(first);
    while worklist != []
      invariant Sorting(segments, res, worklist)
      invariant Going(first, r, places, now, later) && Picked(first, places, res)
                && Picked(first, now + later, worklist)
      decreases |worklist|, Distance(worklist, worklist)
    {
      hide Sorting;
      if now == [] {
        NextRound(first, r, places, later);
        assert [] + later == later + [];
        r, now, later := r + 1, later, [];
      }
      ghost var w := worklist;
      var seg := worklist[0];
      worklist := worklist[1..];
      var i := FirstEnclosing(seg, worklist);
      Decided(first, r, places, now, later, w);
      if i < |worklist| {
        assert worklist[i] in worklist;
        EnclosedIsNotFree(w, i + 1);
        RequeueIsNearer(w);
        Requeued(segments, res, w);
        PutBack(first, r, places, now, later);
        PickedBack(first, now, later, w);
        worklist := worklist + [seg];
        now, later := now[1..], later + [now[0]];
      } else {
        Appended(segments, res, w);
        ComesOut(first, r, places, now, later);
        PickedOut(first, places, res, now, later, w);
        res := res + [seg];
        places, now := places + [now[0]], now[1..];
      }
    }
    Emptied(first, r, places, now, later, res);
    ZerosComeFirst(first, places, res);
  }

  ghost predicate Picked(w: seq<Segment>, ps: seq<nat>, s: seq<Segment>) { AllBelow(ps, |w|) && s == Pick(w, ps) }

  /** Whether something in the work-list still encloses its front decides the round of the front. */
  lemma Decided(first: seq<Segment>, r: nat, out: seq<nat>, now: seq<nat>, later: seq<nat>, w: seq<Segment>)
    requires Going(first, r, out, now, later) && now != [] && Picked(first, now + later, w)
    ensures w != [] && now[0] < |first| && Round(first, now[0]) >= r
    ensures Round(first, now[0]) > r <==> exists t :: t in w[1..] && Nested(w[0], t)
  {
    hide Round, Nested, Before, Going;
    WaitsExactly(first, r, out, now, later);
    FrontRound(first, r, out, now, later);
    RestPicked(first, now, later, w);
    if b :| (b in now[1..] || b in later) && Nested(first[now[0]], first[b]) { assert first[b] in w[1..]; }
  }

  lemma FrontRound(first: seq<Segment>, r: nat, out: seq<nat>, now: seq<nat>, later: seq<nat>)
    requires Going(first, r, out, now, later) && now != []
    ensures now[0] < |first| && Round(first, now[0]) >= r && AllBelow(now, |first|) && AllBelow(later, |first|)
  {
    hide Round, Before;
    assert now[0] in now;
  }

  lemma RestPicked(first: seq<Segment>, now: seq<nat>, later: seq<nat>, w: seq<Segment>)
    requires now != [] && Picked(first, now + later, w) && AllBelow(now, |first|) && AllBelow(later, |first|)
    ensures w != [] && w[0] == first[now[0]]
    ensures forall b :: b in now[1..] || b in later ==> b < |first| && first[b] in w[1..]
    ensures forall t :: t in w[1..] ==> exists b :: (b in now[1..] || b in later) && b < |first| && first[b] == t
  {
    var ps := now + later;
    assert ps[0] == now[0] && ps[1..] == now[1..] + later && w[1..] == Pick(first, ps[1..]);
    forall b | b in now[1..] || b in later ensures b < |first| && first[b] in w[1..] {
      assert b in ps[1..];
      var k :| 0 <= k < |ps[1..]| && ps[1..][k] == b;
      assert w[1..][k] == first[b];
    }
    forall t | t in w[1..] ensures exists b :: (b in now[1..] || b in later) && b < |first| && first[b] == t {
      var k :| 0 <= k < |w[1..]| && w[1..][k] == t;
      assert t == first[ps[1..][k]] && ps[1..][k] in ps[1..];
    }
  }

  lemma PickedBack(first: seq<Segment>, now: seq<nat>, later: seq<nat>, w: seq<Segment>)
    requires now != [] && Picked(first, now + later, w)
    ensures Picked(first, now[1..] + (later + [now[0]]), w[1..] + [w[0]])
  {
    var ps, v := now[1..] + (later + [now[0]]), w[1..] + [w[0]];
    assert |ps| == |v|;
    forall k | 0 <= k < |ps| ensures ps[k] < |first| && v[k] == first[ps[k]] {
      if k < |ps| - 1 { assert ps[k] == (now + later)[k + 1]; } else { assert ps[k] == (now + later)[0]; }
    }
  }

  lemma PickedOut(first: seq<Segment>, out: seq<nat>, res: seq<Segment>, now: seq<nat>, later: seq<nat>,
      w: seq<Segment>)
    requires now != [] && Picked(first, now + later, w) && Picked(first, out, res)
    ensures Picked(first, out + [now[0]], res + [w[0]]) && Picked(first, now[1..] + later, w[1..])
  {
    assert now[0] == (now + later)[0];
    assert now[1..] + later == (now + later)[1..];
  }

  lemma Emptied(first: seq<Segment>, r: nat, out: seq<nat>, now: seq<nat>, later: seq<nat>, res: seq<Segment>)
    requires Going(first, r, out, now, later) && Picked(first, now + later, []) && Picked(first, out, res)
    ensures InRounds(first, out) && res == Pick(first, out)
  {
    hide Round, Before;
    assert |now + later| == 0;
  }

  lemma NothingPicked(w: seq<Segment>)
    ensures Picked(w, [], [])
  {}

  lemma EnclosedIsNotFree(w: seq<Segment>, i: nat)
    requires 0 < i < |w| && Nested(w[0], w[i])
    ensures !Free(w, w[0])
  {
    hide Nested;
    assert w[i] in w;
  }

  /** In the terms of the ABI: of two segments with sorted section lists, the one containing the other comes first. */
  lemma EnclosingFirst(res: seq<Segment>, i: nat, j: nat)
    requires Ordered(res) && i < |res| && j < |res|
    requires Sorted(res[i].sections) && Sorted(res[j].sections)
    requires |res[i].sections| < |res[j].sections| && multiset(res[i].sections) <= multiset(res[j].sections)
    ensures j < i
  {
    IncludesMeans(res[j].sections, res[i].sections);
  }
}

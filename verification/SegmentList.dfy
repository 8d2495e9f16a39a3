/** The sorted list of memory segments a program is loaded into (SIM/SystemC/sysc_miniriscv/elflib.h). */
module SegmentList {
  import opened SectionData
  import opened Notes

  class Seg {
    const va: nat
    const size: nat
    const ra: array<byte>
    var next: Seg?

    constructor (va: nat, size: nat, src: Option<seq<byte>>, next: Seg?)
      requires src.Some? ==> size <= |src.value|
      ensures this.va == va && this.size == size && this.next == next && ra.Length == size && fresh(ra)
      ensures src.Some? ==> ra[..] == src.value[..size]
    {
      this.va, this.size, this.next := va, size, next;
      ra := new byte[size];
      new;
      if src.Some? { Copy(src.value[..size], ra, 0); }
      assert ra[0..size] == ra[..];
    }
  }

  function End(s: Seg): nat { s.va + s.size }

  predicate Covers(s: Seg, adr: nat) { s.va <= adr < End(s) }

  /** Each segment ends before the next begins. */
  ghost predicate Ordered(nodes: seq<Seg>) { forall i, j :: 0 <= i < j < |nodes| ==> End(nodes[i]) <= nodes[j].va }

  /** Two ranges of bytes that meet. */
  predicate Overlaps(s: Seg, adr: nat, size: nat) { adr < End(s) && s.va < adr + size }

  /** The segments a new range cannot be put beside. */
  predicate Blocks(s: Seg, adr: nat, size: nat) { Covers(s, adr) || adr < s.va < adr + size }

  ghost predicate Blocked(nodes: seq<Seg>, adr: nat, size: nat) {
    exists i :: 0 <= i < |nodes| && Blocks(nodes[i], adr, size)
  }

  /** For a range that is not empty, being blocked is overlapping. */
  lemma BlockedMeansOverlap(s: Seg, adr: nat, size: nat)
    requires size > 0
    ensures Blocks(s, adr, size) <==> Overlaps(s, adr, size)
  {}

  /** At most one segment covers an address. */
  lemma CoveringIsUnique(nodes: seq<Seg>, adr: nat, i: nat, j: nat)
    requires Ordered(nodes) && i < |nodes| && j < |nodes| && Covers(nodes[i], adr) && Covers(nodes[j], adr)
    ensures i == j
  {}

  function Inserted(nodes: seq<Seg>, p: nat, s: Seg): seq<Seg>
    requires p <= |nodes|
  {
    nodes[..p] + [s] + nodes[p..]
  }

  /** Between its neighbours a segment that is not blocked keeps the list ordered. */
  lemma InsertedIsOrdered(nodes: seq<Seg>, p: nat, s: Seg)
    requires Ordered(nodes) && p <= |nodes|
    requires p > 0 ==> End(nodes[p - 1]) <= s.va
    requires p < |nodes| ==> End(s) <= nodes[p].va
    ensures Ordered(Inserted(nodes, p, s))
  {
    var r := Inserted(nodes, p, s);
    forall i, j | 0 <= i < j < |r| ensures End(r[i]) <= r[j].va {
      if i < p && j == p {
        assert i == p - 1 || End(nodes[i]) <= nodes[p - 1].va;
      } else if i == p {
        assert j - 1 == p || End(nodes[p]) <= nodes[j - 1].va;
      }
    }
  }

  /** The place the walk stops at decides: only its two neighbours can block. */
  lemma NeighboursDecide(nodes: seq<Seg>, p: nat, adr: nat, size: nat)
    requires Ordered(nodes) && p <= |nodes|
    requires p > 0 ==> nodes[p - 1].va <= adr
    requires p < |nodes| ==> adr < nodes[p].va
    ensures Blocked(nodes, adr, size)
            <==> (p > 0 && adr < End(nodes[p - 1])) || (p < |nodes| && nodes[p].va < adr + size)
  {
    if p > 0 && adr < End(nodes[p - 1]) { assert Blocks(nodes[p - 1], adr, size); }
    if p < |nodes| && nodes[p].va < adr + size { assert Blocks(nodes[p], adr, size); }
    forall i | 0 <= i < |nodes| && Blocks(nodes[i], adr, size)
      ensures (p > 0 && adr < End(nodes[p - 1])) || (p < |nodes| && nodes[p].va < adr + size) {
      if i + 1 < p {
        assert End(nodes[i]) <= nodes[p - 1].va;
      } else if i > p {
        assert End(nodes[p]) <= nodes[i].va;
      }
    }
  }

  /** The segment after place i in a list. */
  function After(nodes: seq<Seg>, i: nat): Seg? { if i + 1 < |nodes| then nodes[i + 1] else null }

  ghost predicate Distinct(nodes: seq<Seg>) { forall i, j :: 0 <= i < j < |nodes| ==> nodes[i] != nodes[j] }

  /** Which segment follows which after an insertion. */
  lemma InsertedParts(nodes: seq<Seg>, p: nat, s: Seg)
    requires p <= |nodes| && s !in nodes && Distinct(nodes)
    ensures var r := Inserted(nodes, p, s);
            && |r| == |nodes| + 1 && r[p] == s && Distinct(r)
            && r[0] == (if p == 0 then s else nodes[0])
            && After(r, p) == (if p < |nodes| then nodes[p] else null)
            && (p > 0 ==> r[p - 1] == nodes[p - 1] && After(r, p - 1) == s && After(nodes, p - 1) == After(r, p))
            && (forall i :: 0 <= i < |r| && i != p ==> r[i] in nodes)
            && (forall i :: 0 <= i < |r| && i != p && i != p - 1 ==>
                  exists k :: 0 <= k < |nodes| && k != p - 1 && r[i] == nodes[k] && After(r, i) == After(nodes, k))
  {
    var r := Inserted(nodes, p, s);
    forall i | 0 <= i < |r| && i != p && i != p - 1
      ensures exists k :: 0 <= k < |nodes| && k != p - 1 && r[i] == nodes[k] && After(r, i) == After(nodes, k) {
      var k := if i < p then i else i - 1;
      assert r[i] == nodes[k] && After(r, i) == After(nodes, k);
    }
  }

  class SegmentMemory {
    var TabSeg: Seg?
    ghost var nodes: seq<Seg>

    ghost predicate Valid()
      reads this, nodes
    {
      && Ordered(nodes)
      && TabSeg == (if nodes == [] then null else nodes[0])
      && (forall i :: 0 <= i < |nodes| ==> nodes[i].next == After(nodes, i))
      && Distinct(nodes)
      && (forall i :: 0 <= i < |nodes| ==> nodes[i].ra.Length == nodes[i].size)
    }

    constructor ()
      ensures Valid() && nodes == []
    {
      TabSeg, nodes := null, [];
    }

    /** A segment is refused exactly when it is blocked; otherwise it is put into its place with its bytes. */
    method MemAddSeg(adr: nat, size: nat, src: Option<seq<byte>>) returns (ok: bool, ghost p: nat)
      requires Valid() && (src.Some? ==> size <= |src.value|)
      modifies this, nodes
      ensures Valid()
      ensures ok <==> !old(Blocked(nodes, adr, size))
      ensures !ok ==> nodes == old(nodes)
      ensures ok ==> exists p ::
                && 0 <= p < |nodes| && fresh(nodes[p])
                && p <= |old(nodes)| && nodes == Inserted(old(nodes), p, nodes[p])
                && nodes[p].va == adr && nodes[p].size == size && (src.Some? ==> nodes[p].ra[..] == src.value[..size])
    {
      hide Blocked, Ordered, Distinct, Inserted;
      var ps := TabSeg;
      p := 0;
      if ps == null {
        NeighboursDecide(nodes, 0, adr, size);
        InsertHere(0, adr, size, src, null);
        return true, 0;
      }
      if adr < ps.va {
        NeighboursDecide(nodes, 0, adr, size);
        if adr + size > ps.va { return false, 0; }
        InsertHere(0, adr, size, src, null);
        return true, 0;
      }
      while ps.next != null
        invariant Valid() && p < |nodes| && ps == nodes[p] && ps.va <= adr
        decreases |nodes| - p
        modifies {}
      {
        if ps.next.va > adr { break; }
        ps := ps.next;
        p := p + 1;
      }
      p := p + 1;
      NeighboursDecide(nodes, p, adr, size);
      if adr < ps.va + ps.size { return false, p; }
      if ps.next != null && adr + size > ps.next.va { return false, p; }
      InsertHere(p, adr, size, src, ps);
      ok := true;
    }

    /** Links a new segment behind another one, or at the head. */
    method InsertHere(ghost p: nat, adr: nat, size: nat, src: Option<seq<byte>>, ps: Seg?)
      requires Valid() && (src.Some? ==> size <= |src.value|)
      requires p <= |nodes| && ps == (if p == 0 then null else nodes[p - 1])
      requires p > 0 ==> End(nodes[p - 1]) <= adr
      requires p < |nodes| ==> adr + size <= nodes[p].va
      modifies this, nodes
      ensures Valid() && p < |nodes| && fresh(nodes[p]) && p <= |old(nodes)|
              && nodes == Inserted(old(nodes), p, nodes[p])
      ensures nodes[p].va == adr && nodes[p].size == size && (src.Some? ==> nodes[p].ra[..] == src.value[..size])
    {
      hide Ordered, Inserted, After;
      var next := if ps == null then TabSeg else ps.next;
      var new_seg := new Seg(adr, size, src, next);
      if ps == null {
        TabSeg := new_seg;
      } else {
        ps.next := new_seg;
      }
      InsertedIsOrdered(nodes, p, new_seg);
      InsertedParts(nodes, p, new_seg);
      nodes := Inserted(nodes, p, new_seg);
    }

    /**
     Loads a word: of the one segment that covers the address, or 0. A word that begins in a segment and ends
     behind it is reported as outside: there the original reads past the segment's block.
     */
    method MemLw(adr: nat) returns (r: Word, outside: bool)
      requires Valid()
      ensures outside <==>
                && adr % 4 == 0
                && exists i :: 0 <= i < |nodes| && Covers(nodes[i], adr) && End(nodes[i]) < adr + 4
      ensures adr % 4 != 0 || outside ==> r == 0
      ensures adr % 4 == 0 && !outside ==>
                forall i :: 0 <= i < |nodes| && Covers(nodes[i], adr) ==>
                    r == WordAt(false, nodes[i].ra[..], adr - nodes[i].va)
      ensures (forall i :: 0 <= i < |nodes| ==> !Covers(nodes[i], adr)) ==> r == 0
    {
      hide WordAt;
      r, outside := 0, false;
      if adr % 4 != 0 { return; }
      var ps := TabSeg;
      ghost var i := 0;
      while ps != null
        invariant 0 <= i <= |nodes| && ps == (if i < |nodes| then nodes[i] else null) && !outside && r == 0
        invariant forall j :: 0 <= j < i ==> !Covers(nodes[j], adr)
        decreases |nodes| - i
      {
        if ps.va <= adr < ps.va + ps.size {
          outside := ps.va + ps.size < adr + 4;
          r := if outside then 0 else WordAt(false, ps.ra[..], adr - ps.va);
          assert ps == nodes[i] && Covers(nodes[i], adr);
          forall j | 0 <= j < |nodes| && Covers(nodes[j], adr) ensures j == i { CoveringIsUnique(nodes, adr, i, j); }
          return;
        }
        if adr < ps.va { break; }
        ps := ps.next;
        i := i + 1;
      }
    }
  }
}

/**
 Moving the local symbols to the front of a symbol table while the relocations
 follow (SIM/ELFIO/elfio/elfio_symbols.hpp, arrange_local_symbols with
 relocation_section_accessor::swap_symbols as its callback).
 */
module Symbols {
  import opened Relocations

  datatype Symbol = Symbol(name: nat, value: nat, size: nat, info: nat, other: nat, shndx: nat)

  const STB_LOCAL := 0

  function Bind(s: Symbol): nat { s.info / 16 }

  predicate IsLocal(s: Symbol) { Bind(s) == STB_LOCAL }

  /** The table after exchanging two entries. */
  function Exchanged(t: seq<Symbol>, i: nat, j: nat): seq<Symbol>
    requires i < |t| && j < |t|
  {
    t[i := t[j]][j := t[i]]
  }

  /** The upper four bits of info are 0. */
  lemma LocalMeans(s: Symbol)
    ensures IsLocal(s) <==> s.info < 16
  {}

  /** Locals first: entry 0, then exactly the local symbols up to the boundary. */
  ghost predicate Arranged(t: seq<Symbol>, boundary: nat) {
    && 1 <= boundary && (|t| > 0 ==> boundary <= |t|) && (|t| == 0 ==> boundary == 1)
    && (forall k :: 1 <= k < boundary && k < |t| ==> IsLocal(t[k]))
    && (forall k :: boundary <= k < |t| ==> !IsLocal(t[k]))
  }

  /** What an entry means: where it applies, the type in full, the addend, and the symbol it names. */
  ghost predicate SameMeaning(c: Class, e: Entry, t: seq<Symbol>, e': Entry, t': seq<Symbol>) {
    && e'.r_offset == e.r_offset && e'.r_addend == e.r_addend && FullType(c, e') == FullType(c, e)
    && |t'| == |t|
    && (if GetSym(c, e) < |t| then GetSym(c, e') < |t| && t'[GetSym(c, e')] == t[GetSym(c, e)]
        else GetSym(c, e') == GetSym(c, e))
  }

  /**
   Exchanging two symbols and patching an entry with swap_symbols keeps the entry's meaning if and only if
   its type fits eight bits or it names neither of the two: a wider type is cut when the entry is patched.
   */
  lemma SwapKeepsMeaning(c: Class, e: Entry, t: seq<Symbol>, i: nat, j: nat)
    requires WellFormed(c, e) && i < |t| && j < |t| && |t| <= SymLimit(c)
    ensures var e' := Swapped(c, e, i, j);
            && WellFormed(c, e')
            && (SameMeaning(c, e, t, e', Exchanged(t, i, j)) <==>
                  FullType(c, e) < 0x100 || (GetSym(c, e) != i && GetSym(c, e) != j))
            && (FullType(c, e) < 0x100 ==> FullType(c, e') < 0x100)
  {
    hide RInfo, GetSym, FullType, WellFormed;
    Packing(c, e, i);
    Packing(c, e, j);
  }

  lemma MeaningTransitive(c: Class, e: Entry, t: seq<Symbol>, e1: Entry, t1: seq<Symbol>, e2: Entry, t2: seq<Symbol>)
    requires SameMeaning(c, e, t, e1, t1) && SameMeaning(c, e1, t1, e2, t2)
    ensures SameMeaning(c, e, t, e2, t2)
  {
  }

  lemma ExchangeKeepsMultiset(t: seq<Symbol>, i: nat, j: nat)
    requires i < |t| && j < |t|
    ensures multiset(Exchanged(t, i, j)) == multiset(t)
  {
  }

  predicate Fits(c: Class, e: Entry) { FullType(c, e) < 0x100 }

  ghost predicate AllWellFormed(c: Class, es: seq<Entry>) { forall k :: 0 <= k < |es| ==> WellFormed(c, es[k]) }

  // ----- which symbols an arrangement moves

  /** The first entry from k on that is not local, or the end of the table. */
  function FirstNotLocal(t: seq<Symbol>, k: nat): (f: nat)
    requires k <= |t|
    ensures k <= f <= |t| && (f < |t| ==> !IsLocal(t[f])) && forall i :: k <= i < f ==> IsLocal(t[i])
    decreases |t| - k
  {
    if k < |t| && IsLocal(t[k]) then FirstNotLocal(t, k + 1) else k
  }

  /** The first entry from k on that is local, or the end of the table. */
  function FirstLocal(t: seq<Symbol>, k: nat): (f: nat)
    requires k <= |t|
    ensures k <= f <= |t| && (f < |t| ==> IsLocal(t[f])) && forall i :: k <= i < f ==> !IsLocal(t[i])
    decreases |t| - k
  {
    if k < |t| && !IsLocal(t[k]) then FirstLocal(t, k + 1) else k
  }

  /** The table the loop ends with: the next local takes the place of the first symbol that is not, again and again. */
  function ArrangeFrom(t: seq<Symbol>, start: nat): seq<Symbol>
    decreases |t| - start
  {
    if start > |t| then t
    else
      var first := FirstNotLocal(t, start);
      if first == |t| then t
      else
        var current := FirstLocal(t, first + 1);
        if current == |t| then t else ArrangeFrom(Exchanged(t, first, current), first + 1)
  }

  /** The local symbols in their order. */
  function Locals(t: seq<Symbol>): seq<Symbol> {
    if t == [] then [] else Locals(t[..|t| - 1]) + if IsLocal(t[|t| - 1]) then [t[|t| - 1]] else []
  }

  lemma {:induction false} LocalsConcat(s: seq<Symbol>, t: seq<Symbol>)
    ensures Locals(s + t) == Locals(s) + Locals(t)
  {
    hide IsLocal;
    if t == [] {
      assert s + t == s;
    } else {
      assert (s + t)[..|s + t| - 1] == s + t[..|t| - 1];
      LocalsConcat(s, t[..|t| - 1]);
    }
  }

  lemma {:induction false} NoLocals(t: seq<Symbol>)
    requires forall k :: 0 <= k < |t| ==> !IsLocal(t[k])
    ensures Locals(t) == []
  {
    if t != [] { NoLocals(t[..|t| - 1]); }
  }

  lemma ExchangeKeepsLocals(t: seq<Symbol>, i: nat, j: nat)
    requires i < j < |t| && IsLocal(t[j]) && forall k :: i <= k < j ==> !IsLocal(t[k])
    ensures Locals(Exchanged(t, i, j)) == Locals(t)
  {
    hide IsLocal, Locals, Exchanged;
    var m := t[i + 1..j];
    ExchangedParts(t, i, j);
    InnerLocals(m, t[i], t[j]);
    SameMiddle(t[..i], [t[i]] + m + [t[j]], [t[j]] + m + [t[i]], t[j + 1..]);
  }

  lemma ExchangedParts(t: seq<Symbol>, i: nat, j: nat)
    requires i < j < |t|
    ensures var m := t[i + 1..j];
            && t == t[..i] + ([t[i]] + m + [t[j]]) + t[j + 1..]
            && Exchanged(t, i, j) == t[..i] + ([t[j]] + m + [t[i]]) + t[j + 1..]
  {}

  lemma SameMiddle(a: seq<Symbol>, x: seq<Symbol>, y: seq<Symbol>, b: seq<Symbol>)
    requires Locals(x) == Locals(y)
    ensures Locals(a + x + b) == Locals(a + y + b)
  {
    hide Locals;
    LocalsConcat(a + x, b);
    LocalsConcat(a, x);
    LocalsConcat(a + y, b);
    LocalsConcat(a, y);
  }

  lemma InnerLocals(m: seq<Symbol>, g: Symbol, l: Symbol)
    requires IsLocal(l) && !IsLocal(g) && forall k :: 0 <= k < |m| ==> !IsLocal(m[k])
    ensures Locals([g] + m + [l]) == [l] == Locals([l] + m + [g])
  {
    NoLocals(m);
    assert Locals([g]) == [] && Locals([l]) == [l];
    hide IsLocal, Locals;
    LocalsConcat([g] + m, [l]);
    LocalsConcat([g], m);
    LocalsConcat([l] + m, [g]);
    LocalsConcat([l], m);
  }

  /** The local symbols keep their order. */
  lemma {:induction false} LocalsStayInOrder(t: seq<Symbol>, start: nat)
    ensures Locals(ArrangeFrom(t, start)) == Locals(t)
    decreases |t| - start
  {
    hide IsLocal, Locals;
    if start <= |t| {
      var first := FirstNotLocal(t, start);
      if first < |t| {
        var current := FirstLocal(t, first + 1);
        if current < |t| {
          ExchangeKeepsLocals(t, first, current);
          LocalsStayInOrder(Exchanged(t, first, current), first + 1);
        }
      }
    }
  }

  /** Two local symbols behind two others: the others change places. */
  lemma ArrangedFour(z: Symbol, g: Symbol, h: Symbol, l: Symbol, m: Symbol)
    requires IsLocal(l) && IsLocal(m) && !IsLocal(g) && !IsLocal(h)
    ensures ArrangeFrom([z, g, l, h, m], 1) == [z, l, m, h, g]
  {
    hide IsLocal, ArrangeFrom;
    var t, u, v := [z, g, l, h, m], [z, l, g, h, m], [z, l, m, h, g];
    assert Exchanged(t, 1, 2) == u && Exchanged(u, 2, 4) == v;
    ArrangeStep(t, 1, 2);
    ArrangeStep(u, 2, 4);
    NoneLeft(v, 3);
  }

  lemma ArrangeStep(t: seq<Symbol>, first: nat, current: nat)
    requires first < current < |t| && IsLocal(t[current]) && forall k :: first <= k < current ==> !IsLocal(t[k])
    ensures ArrangeFrom(t, first) == ArrangeFrom(Exchanged(t, first, current), first + 1)
  {
    hide IsLocal, Exchanged;
    assert FirstNotLocal(t, first) == first;
    assert FirstLocal(t, first + 1) == current;
  }

  lemma NoneLeft(t: seq<Symbol>, first: nat)
    requires first < |t| && forall k :: first <= k < |t| ==> !IsLocal(t[k])
    ensures ArrangeFrom(t, first) == t
  {
    hide IsLocal;
    assert FirstNotLocal(t, first) == first;
    assert FirstLocal(t, first + 1) == |t|;
  }

  /** Entry 0 stays, and so do the locals right behind it. */
  function Head(t: seq<Symbol>): nat { if |t| <= 1 then 1 else FirstNotLocal(t, 1) }

  /** Behind the head, everything in front of the boundary and every local symbol is exchanged at some time. */
  predicate Moved(t: seq<Symbol>, boundary: nat, s: nat) {
    Head(t) <= s < |t| && (s < boundary || IsLocal(t[s]))
  }

  /** The same half-way: in front of lo everything behind the head, in front of hi every local. */
  predicate MovedSoFar(t: seq<Symbol>, lo: nat, hi: nat, s: nat) {
    Head(t) <= s < |t| && (s < lo || (s < hi && IsLocal(t[s])))
  }

  /** What an exchange so far has done to one relocation. */
  ghost predicate EntryTracks(c: Class, t0: seq<Symbol>, e0: Entry, t: seq<Symbol>, e: Entry, lo: nat, hi: nat) {
    && WellFormed(c, e)
    && (Fits(c, e0) ==> Fits(c, e) && SameMeaning(c, e0, t0, e, t))
    && (!Fits(c, e0) ==> if MovedSoFar(t0, lo, hi, GetSym(c, e0)) then Fits(c, e) else e == e0)
  }

  /** What the exchanges so far have done to the table and the relocations. */
  ghost predicate Tracks(c: Class, t0: seq<Symbol>, es0: seq<Entry>, t: seq<Symbol>, es: seq<Entry>, lo: nat, hi: nat) {
    && |t| == |t0| && |es| == |es0| && lo <= hi
    && (forall s :: 0 <= s < |t| && !MovedSoFar(t0, lo, hi, s) ==> t[s] == t0[s])
    && (forall k :: 0 <= k < |es| ==> EntryTracks(c, t0, es0[k], t, es[k], lo, hi))
  }

  /** The two symbols of an exchange, and no others, become moved. */
  lemma MovesTwo(t0: seq<Symbol>, t: seq<Symbol>, lo: nat, hi: nat, current: nat, s: nat)
    requires |t| == |t0| && Head(t0) <= lo <= hi && lo < current < |t| && hi <= current
    requires forall s :: 0 <= s < |t| && !MovedSoFar(t0, lo, hi, s) ==> t[s] == t0[s]
    requires NoneLocal(t, lo, current) && IsLocal(t[current]) && s < |t|
    ensures MovedSoFar(t0, lo + 1, current + 1, s) <==> MovedSoFar(t0, lo, hi, s) || s == lo || s == current
  {
    if s >= hi { assert !MovedSoFar(t0, lo, hi, s); }
  }

  lemma EntryStep(c: Class, t0: seq<Symbol>, e0: Entry, t: seq<Symbol>, e: Entry, lo: nat, hi: nat, current: nat)
    requires EntryTracks(c, t0, e0, t, e, lo, hi) && |t| == |t0| <= SymLimit(c) && Head(t0) <= lo <= hi
             && lo < current < |t| && hi <= current
    requires forall s :: 0 <= s < |t| && !MovedSoFar(t0, lo, hi, s) ==> t[s] == t0[s]
    requires NoneLocal(t, lo, current) && IsLocal(t[current])
    ensures EntryTracks(c, t0, e0, Exchanged(t, lo, current), Swapped(c, e, lo, current), lo + 1, current + 1)
  {
    hide WellFormed, FullType, GetSym, RInfo, MovedSoFar, IsLocal, SameMeaning, NoneLocal, Head, SymLimit, Exchanged;
    SwapKeepsMeaning(c, e, t, lo, current);
    if Fits(c, e0) {
      MeaningTransitive(c, e0, t0, e, t, Swapped(c, e, lo, current), Exchanged(t, lo, current));
    } else {
      var s := GetSym(c, e0);
      if s < |t| { MovesTwo(t0, t, lo, hi, current, s); } else { OutsideNeverMoves(t0, s); }
      if e == e0 && (s == lo || s == current) { PatchedFits(c, e, lo, current); }
    }
  }

  lemma OutsideNeverMoves(t: seq<Symbol>, s: nat)
    requires s >= |t|
    ensures forall lo, hi :: !MovedSoFar(t, lo, hi, s)
  {
  }

  /** A patched entry has an eight-bit type. */
  lemma PatchedFits(c: Class, e: Entry, i: nat, j: nat)
    requires WellFormed(c, e) && (GetSym(c, e) == i || GetSym(c, e) == j)
    ensures Fits(c, Swapped(c, e, i, j))
  {
    hide RInfo;
    Packed(c, e, i);
    Packed(c, e, j);
  }

  lemma TrackStep(c: Class, t0: seq<Symbol>, es0: seq<Entry>, t: seq<Symbol>, es: seq<Entry>, es': seq<Entry>, lo: nat,
      hi: nat, current: nat)
    requires Tracks(c, t0, es0, t, es, lo, hi) && |t| <= SymLimit(c) && Head(t0) <= lo && lo < current < |t|
             && hi <= current
    requires NoneLocal(t, lo, current) && IsLocal(t[current])
    requires |es'| == |es| && forall k :: 0 <= k < |es| ==> es'[k] == Swapped(c, es[k], lo, current)
    ensures Tracks(c, t0, es0, Exchanged(t, lo, current), es', lo + 1, current + 1)
  {
    hide EntryTracks, MovedSoFar, Head, IsLocal, NoneLocal, SymLimit, Swapped;
    forall s | 0 <= s < |t| && !MovedSoFar(t0, lo + 1, current + 1, s) ensures Exchanged(t, lo, current)[s] == t0[s] {
      MovesTwo(t0, t, lo, hi, current, s);
    }
    forall k | 0 <= k < |es| ensures EntryTracks(c, t0, es0[k], Exchanged(t, lo, current), es'[k], lo + 1,
        current + 1) {
      EntryStep(c, t0, es0[k], t, es[k], lo, hi, current);
    }
  }

  lemma NothingMoved(c: Class, es: seq<Entry>, t: seq<Symbol>)
    requires AllWellFormed(c, es)
    ensures Tracks(c, t, es, t, es, Head(t), Head(t))
  {
  }

  /** The relocations keep their meaning, entry by entry, exactly when their type fits or their symbol stays. */
  ghost predicate MeaningsKept(c: Class, es: seq<Entry>, t: seq<Symbol>, es': seq<Entry>, t': seq<Symbol>,
      boundary: nat) {
    |es'| == |es| && forall k :: 0 <= k < |es| ==>
      (SameMeaning(c, es[k], t, es'[k], t') <==> Fits(c, es[k]) || !Moved(t, boundary, GetSym(c, es[k])))
  }

  lemma TracksMeans(c: Class, t0: seq<Symbol>, es0: seq<Entry>, t: seq<Symbol>, es: seq<Entry>, lo: nat, hi: nat)
    requires Tracks(c, t0, es0, t, es, lo, hi) && NoneLocal(t, hi, |t|)
    ensures MeaningsKept(c, es0, t0, es, t, lo)
  {
    hide Head, IsLocal, GetSym, FullType;
    forall s | 0 <= s < |t| ensures MovedSoFar(t0, lo, hi, s) == Moved(t0, lo, s) {
      if s >= hi { assert !MovedSoFar(t0, lo, hi, s); assert t[s] == t0[s]; }
    }
  }

  class SymbolSection {
    const table: array<Symbol>
    var sh_info: nat

    constructor (t: seq<Symbol>)
      ensures table[..] == t && fresh(table)
    {
      table := new Symbol[|t|](i requires 0 <= i < |t| => t[i]);
      sh_info := 0;
    }

    /** The first entry from here on that is not local. */
    method NextNotLocal(start: nat) returns (first_not_local: nat)
      ensures start <= first_not_local && (start <= table.Length ==> first_not_local <= table.Length)
      ensures start > table.Length ==> first_not_local == start
      ensures AllLocal(table[..], start, first_not_local)
      ensures first_not_local < table.Length ==> !IsLocal(table[first_not_local])
    {
      first_not_local := start;
      while first_not_local < table.Length
        invariant start <= first_not_local && (start <= table.Length ==> first_not_local <= table.Length)
        invariant start > table.Length ==> first_not_local == start
        invariant AllLocal(table[..], start, first_not_local)
      {
        if Bind(table[first_not_local]) != STB_LOCAL { break; }
        first_not_local := first_not_local + 1;
      }
    }

    /** The first entry from here on that is local. */
    method NextLocal(start: nat) returns (current: nat)
      ensures start <= current
      ensures NoneLocal(table[..], start, current)
      ensures current < table.Length ==> IsLocal(table[current])
    {
      current := start;
      while current < table.Length
        invariant start <= current
        invariant NoneLocal(table[..], start, current)
      {
        if Bind(table[current]) == STB_LOCAL { break; }
        current := current + 1;
      }
    }

    /** The callback and the swap for one pair. */
    method ExchangePair(rel: RelocationSection, lo: nat, current: nat, ghost t0: seq<Symbol>, ghost es0: seq<Entry>,
        ghost hi: nat)
      requires Tracks(rel.class_, t0, es0, table[..], rel.entries[..], lo, hi) && table.Length <= SymLimit(rel.class_)
      requires Head(t0) <= lo && lo < current < table.Length && hi <= current
      requires NoneLocal(table[..], lo, current) && IsLocal(table[current])
      modifies table, rel.entries
      ensures table[..] == Exchanged(old(table[..]), lo, current)
      ensures Tracks(rel.class_, t0, es0, table[..], rel.entries[..], lo + 1, current + 1)
    {
      hide Tracks, SymLimit, Head, IsLocal, NoneLocal;
      ghost var t, es := table[..], rel.entries[..];
      rel.SwapSymbols(lo, current);
      assert table[..] == t;
      table[lo], table[current] := table[current], table[lo];
      assert table[..] == Exchanged(t, lo, current);
      hide Exchanged;
      TrackStep(rel.class_, t0, es0, t, es, rel.entries[..], lo, hi, current);
    }

    /** One round of the loop: the next pair is exchanged, or the boundary is found. */
    method Round(rel: RelocationSection, start: nat, ghost t0: seq<Symbol>, ghost es0: seq<Entry>, ghost lo: nat,
        ghost hi: nat)
      returns (first_not_local: nat, more: bool, ghost hi': nat)
      requires Going(rel.class_, t0, es0, table[..], rel.entries[..], start, lo, hi)
               && table.Length <= SymLimit(rel.class_)
      modifies table, rel.entries, `sh_info
      ensures first_not_local == lo
      ensures more ==> lo < table.Length && Going(rel.class_, t0, es0, table[..], rel.entries[..], lo, lo + 1, hi')
      ensures !more ==> sh_info == lo && Finished(rel.class_, t0, es0, table[..], rel.entries[..], lo)
    {
      hide Tracks, IsLocal, SymLimit, Progress, AllLocal, NoneLocal, Exchanged, Head, Finished, ArrangeFrom;
      InRange(t0, table[..], start, lo, hi);
      first_not_local := NextNotLocal(start);
      Found(t0, table[..], start, lo, hi, first_not_local);
      var current := NextLocal(first_not_local + 1);
      Scanned(t0, table[..], start, lo, hi, current);
      more, hi' := first_not_local < table.Length && current < table.Length, current + 1;
      if more {
        Swap(t0, table[..], start, lo, hi, current);
        ExchangePair(rel, first_not_local, current, t0, es0, hi);
      } else {
        sh_info := first_not_local;
        Done(t0, table[..], start, lo, hi, current);
        TracksMeans(rel.class_, t0, es0, table[..], rel.entries[..], lo, hi);
        Finish(rel.class_, t0, es0, table[..], rel.entries[..], lo);
      }
    }

    /**
     Terminates with the table permuted, entry 0 in place, locals first and sh_info at the boundary; a
     relocation names the same symbol with the same offset, type and addend as before if and only if its type
     fits eight bits or its symbol is not moved.
     */
    method ArrangeLocalSymbols(rel: RelocationSection) returns (first_not_local: nat)
      requires AllWellFormed(rel.class_, rel.entries[..]) && table.Length <= SymLimit(rel.class_)
      modifies table, rel.entries, `sh_info
      ensures multiset(table[..]) == multiset(old(table[..]))
      ensures table.Length > 0 ==> table[0] == old(table[0])
      ensures Arranged(table[..], first_not_local) && sh_info == first_not_local
      ensures table[..] == ArrangeFrom(old(table[..]), 1)
      ensures MeaningsKept(rel.class_, old(rel.entries[..]), old(table[..]), rel.entries[..], table[..],
              first_not_local)
    {
      hide Tracks, IsLocal, SymLimit, Progress, AllLocal, NoneLocal, Arranged, Exchanged, Head, MeaningsKept, Going;
      hide ArrangeFrom;
      first_not_local := 1;
      var more := true;
      ghost var t0, es0 := table[..], rel.entries[..];
      ghost var lo: nat, hi: nat := Head(t0), Head(t0);
      Begin(rel.class_, t0, es0);
      while more
        invariant more ==> Going(rel.class_, t0, es0, table[..], rel.entries[..], first_not_local, lo, hi)
        invariant !more ==> sh_info == first_not_local && Finished(rel.class_, t0, es0, table[..], rel.entries[..],
                  first_not_local)
        decreases table.Length - lo, more
      {
        first_not_local, more, hi := Round(rel, first_not_local, t0, es0, lo, hi);
        if more { lo := lo + 1; }
      }
    }
  }

  ghost predicate Going(c: Class, t0: seq<Symbol>, es0: seq<Entry>, t: seq<Symbol>, es: seq<Entry>, first: nat, lo: nat,
      hi: nat) {
    Progress(t0, t, first, lo, hi) && Tracks(c, t0, es0, t, es, lo, hi)
  }

  ghost predicate Finished(c: Class, t0: seq<Symbol>, es0: seq<Entry>, t: seq<Symbol>, es: seq<Entry>, boundary: nat) {
    && multiset(t) == multiset(t0) && |t| == |t0| && (|t| > 0 ==> t[0] == t0[0])
    && Arranged(t, boundary) && MeaningsKept(c, es0, t0, es, t, boundary) && t == ArrangeFrom(t0, 1)
  }

  lemma Begin(c: Class, t: seq<Symbol>, es: seq<Entry>)
    requires AllWellFormed(c, es)
    ensures Going(c, t, es, t, es, 1, Head(t), Head(t))
  {
    HeadIsLocal(t);
    NothingMoved(c, es, t);
  }

  lemma Finish(c: Class, t0: seq<Symbol>, es0: seq<Entry>, t: seq<Symbol>, es: seq<Entry>, boundary: nat)
    requires multiset(t) == multiset(t0) && |t| == |t0| && (|t| > 0 ==> t[0] == t0[0])
    requires Arranged(t, boundary) && MeaningsKept(c, es0, t0, es, t, boundary) && t == ArrangeFrom(t0, 1)
    ensures Finished(c, t0, es0, t, es, boundary)
  {
  }

  // ----- the loop's view of the table

  ghost predicate AllLocal(t: seq<Symbol>, lo: nat, hi: nat) { forall k :: lo <= k < hi && k < |t| ==> IsLocal(t[k]) }

  ghost predicate NoneLocal(t: seq<Symbol>, lo: nat, hi: nat) { forall k :: lo <= k < hi && k < |t| ==> !IsLocal(t[k]) }

  /**
   A permutation of t0 with entry 0 in place, only locals up to lo, where the first symbol that is not local
   stands, and none from there to hi.
   */
  ghost predicate Progress(t0: seq<Symbol>, t: seq<Symbol>, first: nat, lo: nat, hi: nat) {
    && |t| == |t0| && multiset(t) == multiset(t0) && (|t| > 0 ==> t[0] == t0[0])
    && 1 <= first <= lo <= hi && Head(t0) <= lo
    && (if |t| == 0 then lo == 1 else lo <= |t|)
    && AllLocal(t, 1, lo) && NoneLocal(t, lo, hi) && (lo < |t| ==> !IsLocal(t[lo]))
    && ArrangeFrom(t, lo) == ArrangeFrom(t0, 1)
  }

  lemma HeadIsLocal(t: seq<Symbol>)
    ensures Progress(t, t, 1, Head(t), Head(t))
  {
    hide IsLocal;
    if |t| >= 1 { NothingBefore(t, FirstNotLocal(t, 1), FirstNotLocal(t, 1)); }
  }

  lemma NothingBefore(t: seq<Symbol>, k: nat, first: nat)
    requires k <= |t| && first == k && (k < |t| ==> !IsLocal(t[k]))
    ensures FirstNotLocal(t, k) == k
  {
  }

  lemma InRange(t0: seq<Symbol>, t: seq<Symbol>, first: nat, lo: nat, hi: nat)
    requires Progress(t0, t, first, lo, hi)
    ensures first <= lo && (first <= |t| || (|t| == 0 && lo == 1 && first == 1)) && Head(t0) <= lo <= hi
  {
  }

  /** The scan for a symbol that is not local stops at lo. */
  lemma Found(t0: seq<Symbol>, t: seq<Symbol>, start: nat, lo: nat, hi: nat, first: nat)
    requires Progress(t0, t, start, lo, hi) && AllLocal(t, start, first) && start <= first
    requires (start <= |t| ==> first <= |t|) && (start > |t| ==> first == start)
    requires first < |t| ==> !IsLocal(t[first])
    ensures first == lo
  {
  }

  /** The scan for a local symbol stops at hi or behind it. */
  lemma Scanned(t0: seq<Symbol>, t: seq<Symbol>, start: nat, lo: nat, hi: nat, current: nat)
    requires Progress(t0, t, start, lo, hi) && NoneLocal(t, lo + 1, current) && lo + 1 <= current
    requires current < |t| ==> IsLocal(t[current])
    ensures NoneLocal(t, lo, current) && (current < |t| ==> hi <= current)
  {
  }

  lemma Swap(t0: seq<Symbol>, t: seq<Symbol>, start: nat, lo: nat, hi: nat, current: nat)
    requires Progress(t0, t, start, lo, hi) && NoneLocal(t, lo, current) && lo < current < |t| && IsLocal(t[current])
    ensures Progress(t0, Exchanged(t, lo, current), lo, lo + 1, current + 1)
  {
    ExchangeKeepsMultiset(t, lo, current);
    NothingBefore(t, lo, lo);
    NextIs(t, lo + 1, current);
  }

  lemma NextIs(t: seq<Symbol>, k: nat, current: nat)
    requires k <= current <= |t| && NoneLocal(t, k, current) && (current < |t| ==> IsLocal(t[current]))
    ensures FirstLocal(t, k) == current
  {
  }

  lemma Done(t0: seq<Symbol>, t: seq<Symbol>, start: nat, lo: nat, hi: nat, current: nat)
    requires Progress(t0, t, start, lo, hi) && NoneLocal(t, lo, current) && (lo >= |t| || current >= |t|)
    ensures multiset(t) == multiset(t0) && |t| == |t0| && (|t| > 0 ==> t[0] == t0[0]) && Arranged(t, lo)
            && NoneLocal(t, hi, |t|) && t == ArrangeFrom(t0, 1)
  {
    if lo < |t| {
      NothingBefore(t, lo, lo);
      NextIs(t, lo + 1, |t|);
    }
  }
}

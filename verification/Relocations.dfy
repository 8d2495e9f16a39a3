/** Relocation entries and the packing of symbol index and type (SIM/ELFIO/elfio/elfio_relocation.hpp). */
module Relocations {
  import opened Words

  datatype Class = ELFCLASS32 | ELFCLASS64

  /** An entry as stored. SHT_REL entries have no addend; theirs reads as zero. */
  datatype Entry = Entry(r_offset: nat, r_info: nat, r_addend: int)

  function SymWidth(c: Class): nat { if c.ELFCLASS32? then 0x100 else 0x1_0000_0000 }

  function InfoLimit(c: Class): nat { if c.ELFCLASS32? then 0x1_0000_0000 else 0x1_0000_0000_0000_0000 }

  /** How many symbols the packed field can tell apart. */
  function SymLimit(c: Class): nat { if c.ELFCLASS32? then 0x100_0000 else 0x1_0000_0000 }

  predicate WellFormed(c: Class, e: Entry) { e.r_info < InfoLimit(c) }

  function GetSym(c: Class, e: Entry): nat { e.r_info / SymWidth(c) }

  /** The type field in full, as the ABI defines it. */
  function FullType(c: Class, e: Entry): nat { e.r_info % SymWidth(c) }

  /** The type as get_entry returns it, through an unsigned char. */
  function GetType(c: Class, e: Entry): nat { FullType(c, e) % 0x100 }

  /** ELF32_R_INFO and ELF64_R_INFO, stored in a field of the class's width. */
  function RInfo(c: Class, symbol: nat, rtype: nat): nat
    requires rtype < 0x100
  {
    if c.ELFCLASS32? then (symbol * 0x100 + rtype) % 0x1_0000_0000
    else (symbol * 0x1_0000_0000 + rtype) % 0x1_0000_0000_0000_0000
  }

  /** set_entry with the values get_entry gave, except for the symbol. */
  function WithSym(c: Class, e: Entry, symbol: nat): Entry {
    e.(r_info := RInfo(c, symbol, GetType(c, e)))
  }

  function Swapped(c: Class, e: Entry, first: nat, second: nat): Entry {
    if GetSym(c, e) == first then WithSym(c, e, second)
    else if GetSym(c, e) == second then WithSym(c, e, first)
    else e
  }

  /** Cutting symbol * m + t down to k * m keeps the type and the symbol modulo k. */
  lemma Truncated(symbol: nat, t: nat, m: nat, k: nat)
    requires m > 0 && k > 0 && t < m
    ensures k * m > 0
    ensures ((symbol * m + t) % (k * m)) % m == t
    ensures ((symbol * m + t) % (k * m)) / m == symbol % k
  {
    var q, r := symbol / k, symbol % k;
    assert symbol == q * k + r by { assert symbol == k * q + r; }
    ScaleDivision(symbol, m, k, q, r);
    assert symbol * m + t == q * (k * m) + (r * m + t);
    MulGe(k, r, m);
    assert r * m + t < k * m;
    DivModUnique(symbol * m + t, k * m, q, r * m + t);
    DivModUnique(r * m + t, m, r, t);
  }

  /** What packing does to the symbol and to the type. */
  lemma Packed(c: Class, e: Entry, symbol: nat)
    requires WellFormed(c, e)
    ensures var e' := WithSym(c, e, symbol);
            WellFormed(c, e') && GetSym(c, e') == symbol % SymLimit(c) && FullType(c, e') == GetType(c, e)
  {
    if c.ELFCLASS32? {
      Truncated(symbol, GetType(c, e), 0x100, 0x100_0000);
    } else {
      Truncated(symbol, GetType(c, e), 0x1_0000_0000, 0x1_0000_0000);
    }
  }

  /** Packing and unpacking: the symbol survives exactly when it fits, the type exactly when it fits eight bits. */
  lemma Packing(c: Class, e: Entry, symbol: nat)
    requires WellFormed(c, e)
    ensures var e' := WithSym(c, e, symbol);
            && WellFormed(c, e')
            && (GetSym(c, e') == symbol <==> symbol < SymLimit(c))
            && (FullType(c, e') == FullType(c, e) <==> FullType(c, e) < 0x100)
            && e'.r_offset == e.r_offset && e'.r_addend == e.r_addend
  {
    hide RInfo, GetSym, FullType;
    Packed(c, e, symbol);
  }

  /** Storing back what was read changes an entry exactly when its type does not fit eight bits. */
  lemma GetThenSet(c: Class, e: Entry)
    requires WellFormed(c, e)
    ensures WithSym(c, e, GetSym(c, e)) == e <==> FullType(c, e) < 0x100
  {
    hide RInfo;
    Packed(c, e, GetSym(c, e));
    SymbolBound(c, e);
    Packing(c, e, GetSym(c, e));
  }

  lemma SymbolBound(c: Class, e: Entry)
    requires WellFormed(c, e)
    ensures GetSym(c, e) < SymLimit(c)
    ensures e.r_info == GetSym(c, e) * SymWidth(c) + FullType(c, e)
  {}

  /** Symbol 5 and type 1, or type 0x101, in the two classes' r_info. */
  lemma InfoWrittenOut()
    ensures RInfo(ELFCLASS32, 5, 1) == 0x0501 && RInfo(ELFCLASS64, 5, 1) == 0x5_0000_0001
    ensures GetSym(ELFCLASS32, Entry(0, 0x0501, 0)) == 5 && FullType(ELFCLASS32, Entry(0, 0x0501, 0)) == 1
    ensures var e := Entry(0, 0x5_0000_0101, 0);
            GetSym(ELFCLASS64, e) == 5 && FullType(ELFCLASS64, e) == 0x101 && GetType(ELFCLASS64, e) == 1
  {}

  class RelocationSection {
    const class_: Class
    const entries: array<Entry>

    ghost predicate Valid()
      reads entries
    {
      forall i :: 0 <= i < entries.Length ==> WellFormed(class_, entries[i])
    }

    constructor (c: Class, es: seq<Entry>)
      requires forall i :: 0 <= i < |es| ==> WellFormed(c, es[i])
      ensures Valid() && class_ == c && entries[..] == es && fresh(entries)
    {
      class_ := c;
      entries := new Entry[|es|](i requires 0 <= i < |es| => es[i]);
    }

    /** Reads an entry; setting what was read gives the entry back exactly when its type fits eight bits. */
    method GetEntry(index: nat) returns (ok: bool, offset: nat, symbol: nat, rtype: nat, addend: int)
      ensures ok == (index < entries.Length)
      ensures ok ==> var e := entries[index];
                     && offset == e.r_offset && symbol == GetSym(class_, e)
                     && rtype == GetType(class_, e) && addend == e.r_addend
      ensures ok && WellFormed(class_, entries[index]) ==>
                var e := entries[index];
                Entry(offset, RInfo(class_, symbol, rtype), addend) == e <==> FullType(class_, e) < 0x100
    {
      hide RInfo, FullType, GetSym;
      if index >= entries.Length {
        return false, 0, 0, 0, 0;
      }
      var e := entries[index];
      ok, offset, symbol, rtype, addend := true, e.r_offset, GetSym(class_, e), GetType(class_, e), e.r_addend;
      if WellFormed(class_, e) { GetThenSet(class_, e); }
    }

    method SetEntry(index: nat, offset: nat, symbol: nat, rtype: nat, addend: int) returns (ok: bool)
      requires rtype < 0x100
      modifies entries
      ensures ok == (index < entries.Length)
      ensures entries[..] == if ok then old(entries[..])[index := Entry(offset, RInfo(class_, symbol, rtype), addend)]
                             else old(entries[..])
    {
      if index >= entries.Length {
        return false;
      }
      entries[index] := Entry(offset, RInfo(class_, symbol, rtype), addend);
      ok := true;
    }

    method SwapSymbols(first: nat, second: nat)
      modifies entries
      ensures forall j :: 0 <= j < entries.Length ==> entries[j] == Swapped(class_, old(entries[j]), first, second)
    {
      var i := 0;
      while i < entries.Length
        invariant 0 <= i <= entries.Length
        invariant forall j :: 0 <= j < i ==> entries[j] == Swapped(class_, old(entries[j]), first, second)
        invariant forall j :: i <= j < entries.Length ==> entries[j] == old(entries[j])
      {
        hide RInfo, GetSym, FullType;
        var _, offset, symbol, rtype, addend := GetEntry(i);
        if symbol == first {
          var _ := SetEntry(i, offset, second, rtype, addend);
        }
        if symbol == second {
          var _ := SetEntry(i, offset, first, rtype, addend);
        }
        i := i + 1;
      }
    }
  }
}

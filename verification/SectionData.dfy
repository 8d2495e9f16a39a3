/**
 The growable data of a section and the string table kept in it
 (SIM/ELFIO/elfio/elfio_section.hpp, set_data and append_data; SIM/ELFIO/elfio/elfio_strings.hpp).
 */
module SectionData {

  type byte = x: int | 0 <= x < 0x100

  /** The capacity after a reallocation, computed in 32 bits. */
  function Grown(capacity: nat, n: nat): nat { 2 * (capacity + n) % 0x1_0000_0000 }

  function CapacityAfter(capacity: nat, size: nat, n: nat): nat {
    if size + n < capacity then capacity else Grown(capacity, n)
  }

  /** Whether the block appending n bytes ends up with holds them. */
  predicate Fits(capacity: nat, size: nat, n: nat) { size + n <= CapacityAfter(capacity, size, n) }

  /** When an append stays inside its block, from the sizes before it, over the whole 32-bit range. */
  lemma FitsExactly(capacity: nat, size: nat, n: nat)
    requires size <= capacity < 0x1_0000_0000 && n < 0x1_0000_0000
    ensures Fits(capacity, size, n)
            <==> || size + n < capacity
                 || 2 * (capacity + n) < 0x1_0000_0000
                 || (2 * (capacity + n) < 0x2_0000_0000 && 2 * capacity + n - size >= 0x1_0000_0000)
                 || (2 * (capacity + n) < 0x3_0000_0000 && 2 * capacity + n - size >= 0x2_0000_0000)
  {}

  /** In a block that is full it works exactly while the doubled sum stays in 32 bits. */
  lemma FullBlockExactly(capacity: nat, n: nat)
    requires capacity < 0x1_0000_0000 && n < 0x1_0000_0000
    ensures Fits(capacity, capacity, n) <==> 2 * (capacity + n) < 0x1_0000_0000
  {}

  /** One byte behind 2 GiB: the block for it has two bytes. */
  lemma AppendLeavesItsBlock()
    ensures !Fits(0x8000_0000, 0x8000_0000, 1) && CapacityAfter(0x8000_0000, 0x8000_0000, 1) == 2
  {}

  /** The empty string in front of a first string always fits. */
  lemma FirstByteFits(capacity: nat)
    requires capacity < 0x1_0000_0000
    ensures Fits(capacity, 0, 1)
  {}

  /** Whether a string fits into a string table, whose first string is preceded by an empty one. */
  predicate StringFits(capacity: nat, size: nat, n: nat) {
    if size == 0 then Fits(CapacityAfter(capacity, 0, 1), 1, n + 1) else Fits(capacity, size, n + 1)
  }

  lemma GrownIsWord(capacity: nat, n: nat)
    ensures Grown(capacity, n) < 0x1_0000_0000
  {}

  /**
   How appending ends: with the bytes appended, or, where the original writes outside the new block, with nothing
   done.
   */
  datatype Outcome = Done | Overrun

  method Copy(source: seq<byte>, target: array<byte>, at: nat)
    requires at + |source| <= target.Length
    modifies target
    ensures target[..at] == old(target[..at]) && target[at..at + |source|] == source
    ensures target[at + |source|..] == old(target[at + |source|..])
  {
    for i := 0 to |source|
      invariant target[..at] == old(target[..at])
      invariant target[at..at + i] == source[..i]
      invariant target[at + |source|..] == old(target[at + |source|..])
    {
      target[at + i] := source[i];
    }
  }

  class Section {
    const nobits: bool
    var data: array?<byte>
    var data_size: nat
    var size: nat

    ghost predicate Valid()
      reads this
    {
      && data_size < 0x1_0000_0000
      && (if data == null then data_size == 0 else data_size <= data.Length)
      && (nobits || size <= data_size)
    }

    /** The bytes of the section. */
    function Contents(): seq<byte>
      requires Valid()
      reads this, data
    {
      if data == null || nobits then [] else data[..size]
    }

    ghost function Footprint(): set<object>
      reads this
    {
      {this} + if data == null then {} else {data}
    }

    constructor (nobits: bool)
      ensures Valid() && Contents() == [] && size == 0 && this.nobits == nobits && data == null
    {
      this.nobits, data, data_size, size := nobits, null, 0, 0;
    }

    /** Replaces the contents. */
    method SetData(raw: seq<byte>)
      requires Valid() && |raw| < 0x1_0000_0000
      modifies this
      ensures Valid() && (nobits ==> data == old(data) && size == old(data_size) == data_size)
      ensures !nobits ==> Contents() == raw && size == data_size == |raw| && fresh(data)
    {
      if !nobits {
        var fresh_data := new byte[|raw|];
        Copy(raw, fresh_data, 0);
        data, data_size := fresh_data, |raw|;
        assert fresh_data[0..|raw|] == fresh_data[..|raw|];
      }
      size := data_size;
    }

    /** A block of a new capacity with the contents and the bytes behind them. */
    method Moved(capacity: nat, raw: seq<byte>) returns (new_data: array<byte>)
      requires Valid() && !nobits && size + |raw| <= capacity
      ensures fresh(new_data) && new_data.Length == capacity
      ensures new_data[..size + |raw|] == Contents() + raw
    {
      new_data := new byte[capacity];
      if data != null {
        Copy(data[..size], new_data, 0);
        assert new_data[0..size] == new_data[..size];
      }
      Copy(raw, new_data, size);
      assert new_data[..size + |raw|] == new_data[..size] + new_data[size..size + |raw|];
    }

    /**
     Appends to the contents, in place when there is room and in a larger block otherwise; fails exactly when
     the 32-bit capacity of that block is too small.
     */
    method AppendData(raw: seq<byte>) returns (r: Outcome)
      requires Valid() && |raw| < 0x1_0000_0000
      modifies Footprint()
      ensures Valid() && (data == old(data) || fresh(data))
      ensures r.Overrun? <==> !nobits && !old(Fits(data_size, size, |raw|))
      ensures nobits || r.Overrun? ==> size == old(size) && data_size == old(data_size) && Contents() == old(Contents())
      ensures !nobits && r.Done? ==>
                data_size == old(CapacityAfter(data_size, size, |raw|)) && size == old(size) + |raw|
      ensures !nobits && r.Done? ==> Contents() == old(Contents()) + raw
    {
      hide Grown;
      r := Done;
      if nobits { return; }
      if size + |raw| < data_size {
        Copy(raw, data, size);
        assert data[..size + |raw|] == data[..size] + data[size..size + |raw|];
      } else {
        var capacity := Grown(data_size, |raw|);
        if capacity < size + |raw| { return Overrun; }
        GrownIsWord(data_size, |raw|);
        data := Moved(capacity, raw);
        data_size := capacity;
      }
      size := size + |raw|;
    }

    /** Adds a C string, given without its terminator, and returns its offset. */
    method AddString(str: seq<byte>) returns (position: nat, r: Outcome)
      requires Valid() && !nobits && 0 !in str && |str| + 1 < 0x1_0000_0000
      modifies Footprint()
      ensures Valid() && (data == old(data) || fresh(data))
      ensures r.Overrun? <==> !old(StringFits(data_size, size, |str|))
      ensures r.Overrun? ==> Contents() == old(if size == 0 then [0] else Contents())
      ensures position == AddedAt(old(Contents()))
      ensures r.Done? ==> Contents() == Added(old(Contents()), str)
    {
      hide Grown, Fits, CapacityAfter;
      FirstByteFits(data_size);
      position := size;
      if position == 0 {
        r := AppendData([0]);
        position := position + 1;
      }
      r := AppendData(str + [0]);
    }

    /** The string at an offset; null, modelled as None, past the size or without data. */
    function GetString(index: nat): (r: Option<seq<byte>>)
      requires Valid() && !nobits
      reads this, data
      ensures r.Some? <==> index < |Contents()|
      ensures r.Some? ==> r.value == StringAt(Contents(), index)
    {
      if index < size && data != null then Some(StringAt(data[..size], index)) else None
    }
  }

  datatype Option<T> = None | Some(value: T)

  // ----- what a string table holds

  function AddedAt(c: seq<byte>): nat { if c == [] then 1 else |c| }

  function Added(c: seq<byte>, str: seq<byte>): seq<byte> { (if c == [] then [0] else c) + str + [0] }

  /** The bytes from an offset up to the terminator. */
  function StringAt(c: seq<byte>, i: nat): seq<byte>
    requires i <= |c|
    decreases |c| - i
  {
    if i == |c| || c[i] == 0 then [] else [c[i]] + StringAt(c, i + 1)
  }

  predicate Terminated(c: seq<byte>, i: nat) { exists k :: i <= k < |c| && c[k] == 0 }

  lemma {:induction false} StringReadsBack(c: seq<byte>, i: nat, str: seq<byte>)
    requires 0 !in str && i + |str| < |c| && c[i..i + |str|] == str && c[i + |str|] == 0
    ensures StringAt(c, i) == str && Terminated(c, i)
    decreases |str|
  {
    if str != [] {
      assert c[i] == str[0] && str == [str[0]] + str[1..];
      assert c[i + 1..i + 1 + |str[1..]|] == c[i..i + |str|][1..];
      StringReadsBack(c, i + 1, str[1..]);
    }
  }

  lemma {:induction false} StringStays(c: seq<byte>, more: seq<byte>, i: nat)
    requires Terminated(c, i)
    ensures Terminated(c + more, i) && StringAt(c + more, i) == StringAt(c, i)
    decreases |c| - i
  {
    var k :| i <= k < |c| && c[k] == 0;
    assert (c + more)[k] == 0 && (c + more)[i] == c[i];
    if c[i] != 0 { StringStays(c, more, i + 1); }
  }

  lemma AddedReadsBack(c: seq<byte>, str: seq<byte>)
    requires 0 !in str
    ensures StringAt(Added(c, str), AddedAt(c)) == str && Terminated(Added(c, str), AddedAt(c))
  {
    var base := if c == [] then [0] else c;
    assert Added(c, str)[|base|..|base| + |str|] == str;
    StringReadsBack(Added(c, str), |base|, str);
  }

  // ----- any run of additions

  function AddAll(c: seq<byte>, strs: seq<seq<byte>>): seq<byte> {
    if strs == [] then c else Added(AddAll(c, strs[..|strs| - 1]), strs[|strs| - 1])
  }

  /** Where the k-th added string was put. */
  function PositionOf(c: seq<byte>, strs: seq<seq<byte>>, k: nat): nat
    requires k < |strs|
  {
    AddedAt(AddAll(c, strs[..k]))
  }

  /** Whatever the table held and whatever is added, every returned offset keeps reading back its own string. */
  lemma {:induction false} EveryStringReadsBack(c: seq<byte>, strs: seq<seq<byte>>, k: nat)
    requires k < |strs| && forall j :: 0 <= j < |strs| ==> 0 !in strs[j]
    ensures var t := AddAll(c, strs);
            PositionOf(c, strs, k) <= |t| && Terminated(t, PositionOf(c, strs, k))
                && StringAt(t, PositionOf(c, strs, k)) == strs[k]
  {
    var n := |strs| - 1;
    var before := AddAll(c, strs[..n]);
    if k < n {
      assert strs[..n][..k] == strs[..k];
      EveryStringReadsBack(c, strs[..n], k);
      StringStays(before, strs[n] + [0], PositionOf(c, strs, k));
      assert before + (strs[n] + [0]) == Added(before, strs[n]);
    } else {
      AddedReadsBack(before, strs[n]);
    }
  }

  /** Strings that were there before stay as they are, and offset 0 of a table begun empty reads as the empty string. */
  lemma {:induction false} OldStringsStay(c: seq<byte>, strs: seq<seq<byte>>, i: nat)
    ensures Terminated(c, i) ==> Terminated(AddAll(c, strs), i) && StringAt(AddAll(c, strs), i) == StringAt(c, i)
    ensures c == [] && strs != [] ==> Terminated(AddAll(c, strs), 0) && StringAt(AddAll(c, strs), 0) == []
  {
    if strs != [] {
      var n := |strs| - 1;
      var before, more := AddAll(c, strs[..n]), strs[n] + [0];
      OldStringsStay(c, strs[..n], i);
      if before != [] {
        assert before + more == Added(before, strs[n]);
        if Terminated(c, i) { StringStays(before, more, i); }
        if c == [] && n > 0 { StringStays(before, more, 0); }
      } else {
        assert Added(before, strs[n])[0] == 0;
      }
      if c == [] && n == 0 { assert AddAll(c, strs)[0] == 0; }
    }
  }
}

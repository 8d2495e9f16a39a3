/**
 Finding a symbol by its name (SIM/ELFIO/elfio/elfio_symbols.hpp, get_symbol by name, hash_lookup and
 gnu_hash_lookup).
 */
module HashLookup {
  import opened Words
  import opened SectionData
  import opened Hashes

  /** A symbol table entry; its name is None when its string offset leads nowhere. */
  datatype Symbol = Symbol(name: Option<Name>)

  /** Whether looking at an entry gives this name; a name that cannot be read leaves the empty string. */
  predicate Named(s: Symbol, name: Name) { if s.name.Some? then s.name.value == name else name == [] }

  ghost predicate SomeNamed(symbols: seq<Symbol>, name: Name) {
    exists k :: 0 <= k < |symbols| && Named(symbols[k], name)
  }

  // ----- the System V hash table

  datatype SysvTable = SysvTable(buckets: seq<nat>, chains: seq<nat>)

  function SysvBucket(t: SysvTable, name: Name): nat
    requires t.buckets != []
  {
    ElfHashOf(name) % |t.buckets|
  }

  /** The chain from an index on, up to STN_UNDEF, is the given list. */
  ghost predicate Follows(chains: seq<nat>, y: nat, path: seq<nat>)
    decreases |path|
  {
    if y == 0 then path == []
    else path != [] && path[0] == y && y < |chains| && Follows(chains, chains[y], path[1..])
  }

  lemma {:induction false} FollowsInRange(chains: seq<nat>, y: nat, path: seq<nat>)
    requires Follows(chains, y, path)
    ensures forall k :: k in path ==> k < |chains|
    decreases |path|
  {
    if y != 0 {
      FollowsInRange(chains, chains[y], path[1..]);
      assert path == [path[0]] + path[1..];
    }
  }

  /** Chapter 5 of the System V gABI, Hash Table: from its bucket every symbol but the first is reached. */
  ghost predicate SysvWellFormed(t: SysvTable, symbols: seq<Symbol>, paths: seq<seq<nat>>) {
    && |t.buckets| == |paths| > 0 && |t.chains| == |symbols|
    && (forall b :: 0 <= b < |paths| ==> Follows(t.chains, t.buckets[b], paths[b]))
    && (forall k :: 1 <= k < |symbols| && symbols[k].name.Some? ==> k in paths[SysvBucket(t, symbols[k].name.value)])
  }

  /** What get_symbol by index leaves in the string and which entry the other results come from. */
  function Read(symbols: seq<Symbol>, y: nat, str: Name, last: Option<nat>): (Name, Option<nat>) {
    if y >= |symbols| then (str, last)
    else if symbols[y].name.Some? then (symbols[y].name.value, Some(y))
    else (str, Some(y))
  }

  /** Entry y is the first on a path that has the name. */
  ghost predicate FirstOn(path: seq<nat>, symbols: seq<Symbol>, name: Name, y: nat) {
    exists i :: 0 <= i < |path| && FirstAt(path, symbols, name, y, i)
  }

  ghost predicate FirstAt(path: seq<nat>, symbols: seq<Symbol>, name: Name, y: nat, i: nat)
    requires i < |path|
  {
    && path[i] == y < |symbols| && symbols[y].name == Some(name)
    && forall k :: 0 <= k < i && path[k] < |symbols| ==> symbols[path[k]].name != Some(name)
  }

  /**
   The walk ends, and what it finds has the name; a non-empty name of any symbol is found.
   For the empty name it also succeeds when the bucket names no symbol at all.
   */
  method SysvLookup(t: SysvTable, symbols: seq<Symbol>, name: Name, ghost paths: seq<seq<nat>>)
    returns (ret: bool, last: Option<nat>)
    requires SysvWellFormed(t, symbols, paths)
    ensures ret && last.Some? ==> last.value < |symbols| && Named(symbols[last.value], name)
    ensures ret && last.None? ==> name == [] && t.buckets[SysvBucket(t, name)] >= |symbols|
    ensures name == [] && t.buckets[SysvBucket(t, name)] >= |symbols| ==> ret && last.None?
    ensures (name != [] && exists k :: 0 <= k < |symbols| && symbols[k].name == Some(name)) ==> ret
    ensures ret && name != [] ==> last.Some? && FirstOn(paths[SysvBucket(t, name)] + [0], symbols, name, last.value)
  {
    hide ElfHashOf, FirstOn;
    var val := ElfHash(name);
    var bucket := val % |t.buckets|;
    var y: nat := t.buckets[bucket];
    var str := [];
    ghost var path, rest := paths[bucket], paths[bucket];
    ghost var seen := 0;
    FollowsInRange(t.chains, y, path);
    last := None;
    str, last := Read(symbols, y, str, last).0, Read(symbols, y, str, last).1;
    while str != name && y != 0 && y < |t.chains|
      invariant Follows(t.chains, y, rest)
      invariant str == name ==>
                  || (last.Some? && last.value < |symbols| && Named(symbols[last.value], name))
                  || (last.None? && name == [])
      invariant last.None? <==> t.buckets[bucket] >= |symbols|
      invariant last.None? ==> str == [] && y == t.buckets[bucket]
      invariant forall k :: k in path && k !in rest ==> symbols[k].name != Some(name)
      invariant str != name && y < |symbols| ==> symbols[y].name != Some(name)
      invariant forall k :: k in rest ==> k in path
      invariant seen <= |path| && rest == path[seen..] && (path + [0])[seen] == y
      invariant forall k :: 0 <= k < seen ==> path[k] < |symbols| && symbols[path[k]].name != Some(name)
      invariant str == name != [] ==> y < |symbols| && symbols[y].name == Some(name) && last == Some(y)
      decreases |rest|
    {
      ghost var before := rest;
      rest := rest[1..];
      seen := seen + 1;
      y := t.chains[y];
      str, last := Read(symbols, y, str, last).0, Read(symbols, y, str, last).1;
    }
    ret := str == name;
    if ret && name != [] { FoundFirst(path, symbols, name, y, seen); }
  }

  lemma FoundFirst(path: seq<nat>, symbols: seq<Symbol>, name: Name, y: nat, i: nat)
    requires i <= |path| && y == (path + [0])[i] && y < |symbols| && symbols[y].name == Some(name)
    requires forall k :: 0 <= k < i ==> path[k] < |symbols| && symbols[path[k]].name != Some(name)
    ensures FirstOn(path + [0], symbols, name, y)
  {
    assert FirstAt(path + [0], symbols, name, y, i);
  }

  // ----- the GNU hash table

  /** Bloom words have 64 bits in ELFCLASS64 and 32 in ELFCLASS32. */
  datatype GnuTable = GnuTable(symoffset: nat, shift: nat, wide: bool, bloom: seq<bv64>, buckets: seq<nat>,
      chains: seq<word>)

  function WordBits(t: GnuTable): nat { if t.wide then 64 else 32 }

  ghost predicate GnuSizes(t: GnuTable, symbols: seq<Symbol>) {
    && t.bloom != [] && t.buckets != [] && t.shift < 32
    && |t.chains| + t.symoffset == |symbols|
  }

  function GnuBucket(t: GnuTable, hash: word): (b: nat)
    requires t.buckets != []
    ensures b < |t.buckets|
  {
    hash % |t.buckets|
  }

  function BloomIndex(t: GnuTable, hash: word): (i: nat)
    requires t.bloom != []
    ensures i < |t.bloom|
  {
    hash / WordBits(t) % |t.bloom|
  }

  predicate HasBits(word: bv64, bits: bv64) { word & bits == bits }

  function Both(a: bv64, b: bv64): bv64 { a | b }

  function BloomBit(t: GnuTable, hash: word): bv64 { 1 << (hash % WordBits(t)) }

  /** h >> n */
  function Halved(h: word, n: nat): word { if n == 0 then h else Halved(h / 2, n - 1) }

  function Shifted(t: GnuTable, hash: word): word
    requires t.shift < 32
  {
    Halved(hash, t.shift)
  }

  function SameHash(a: word, b: word): bool { a / 2 == b / 2 }

  function Stop(chain: word): bool { chain % 2 == 1 }

  /** A bucket's chain: it begins in the hashed part of the symbols and a stop bit ends it. */
  ghost predicate ChainEnds(t: GnuTable, b: nat)
    requires b < |t.buckets|
  {
    t.buckets[b] >= t.symoffset ==>
      exists e :: t.buckets[b] - t.symoffset <= e < |t.chains| && Stop(t.chains[e])
  }

  /** The hash of symbol k is recorded: both filter bits, and its place in the chain of its bucket. */
  ghost predicate Recorded(t: GnuTable, symbols: seq<Symbol>, k: nat)
    requires GnuSizes(t, symbols) && t.symoffset <= k < |symbols| && symbols[k].name.Some?
  {
    var hash := GnuHashOf(symbols[k].name.value);
    var word, first := t.bloom[BloomIndex(t, hash)], t.buckets[GnuBucket(t, hash)];
    && HasBits(word, BloomBit(t, hash)) && HasBits(word, BloomBit(t, Shifted(t, hash)))
    && t.symoffset <= first <= k
    && SameHash(t.chains[k - t.symoffset], hash)
    && forall j :: first - t.symoffset <= j < k - t.symoffset ==> !Stop(t.chains[j])
  }

  ghost predicate GnuWellFormed(t: GnuTable, symbols: seq<Symbol>) {
    && GnuSizes(t, symbols)
    && (forall b :: 0 <= b < |t.buckets| ==> ChainEnds(t, b))
    && (forall k :: t.symoffset <= k < |symbols| && symbols[k].name.Some? ==> Recorded(t, symbols, k))
  }

  /** The filter word has both bits of the hash. */
  predicate Passes(t: GnuTable, hash: word)
    requires t.bloom != [] && t.shift < 32
  {
    HasBits(t.bloom[BloomIndex(t, hash)], Both(BloomBit(t, hash), BloomBit(t, Shifted(t, hash))))
  }

  lemma BothBits(word: bv64, a: bv64, b: bv64)
    requires HasBits(word, a) && HasBits(word, b)
    ensures HasBits(word, Both(a, b))
  {}

  /** Neither the filter nor the bucket turns a recorded symbol away. */
  lemma RecordedPasses(t: GnuTable, symbols: seq<Symbol>, k: nat)
    requires GnuSizes(t, symbols) && t.symoffset <= k < |symbols| && symbols[k].name.Some? && Recorded(t, symbols, k)
    ensures var hash := GnuHashOf(symbols[k].name.value);
            Passes(t, hash) && t.symoffset <= t.buckets[GnuBucket(t, hash)] <= k
  {
    hide GnuHashOf, BloomBit, SameHash, Stop, BloomIndex, GnuBucket, Shifted, HasBits, Both;
    var hash := GnuHashOf(symbols[k].name.value);
    BothBits(t.bloom[BloomIndex(t, hash)], BloomBit(t, hash), BloomBit(t, Shifted(t, hash)));
  }

  /** A chain walked up to its stop bit without a hit holds no symbol of that name. */
  lemma WalkedChain(t: GnuTable, symbols: seq<Symbol>, name: Name, index: nat, k: nat)
    requires GnuSizes(t, symbols) && t.symoffset <= k < |symbols| && symbols[k].name.Some? && Recorded(t, symbols, k)
    requires var first := t.buckets[GnuBucket(t, GnuHashOf(name))];
             && t.symoffset <= first && first - t.symoffset <= index < |t.chains| && Stop(t.chains[index])
             && forall j :: first - t.symoffset <= j <= index && symbols[j + t.symoffset].name == Some(name) ==>
                              !SameHash(t.chains[j], GnuHashOf(name))
    ensures symbols[k].name != Some(name)
  {
    hide GnuHashOf, BloomBit, SameHash, Stop, BloomIndex, GnuBucket, Shifted, HasBits;
    var j := k - t.symoffset;
    assert symbols[j + t.symoffset].name == symbols[k].name;
  }

  /** Entry y is the first from an index on that has the name. */
  ghost predicate FirstFrom(from: nat, symbols: seq<Symbol>, name: Name, y: nat) {
    && from <= y < |symbols| && symbols[y].name == Some(name)
    && forall k :: from <= k < y ==> symbols[k].name != Some(name)
  }

  /** What the walk has passed without a hit in front of index holds no symbol of that name. */
  lemma WalkedUpTo(t: GnuTable, symbols: seq<Symbol>, name: Name, index: nat, k: nat)
    requires GnuSizes(t, symbols) && t.symoffset <= k < index + t.symoffset <= |symbols|
    requires symbols[k].name.Some? && Recorded(t, symbols, k)
    requires var first := t.buckets[GnuBucket(t, GnuHashOf(name))];
             && t.symoffset <= first
             && forall j :: first - t.symoffset <= j < index && symbols[j + t.symoffset].name == Some(name) ==>
                              !SameHash(t.chains[j], GnuHashOf(name))
    ensures symbols[k].name != Some(name)
  {
    hide GnuHashOf, BloomBit, SameHash, Stop, BloomIndex, GnuBucket, Shifted, HasBits;
    var j := k - t.symoffset;
    assert symbols[j + t.symoffset].name == symbols[k].name;
  }

  /**
   The walk stays inside the table and ends; what it finds has the name; and the filter, the bucket and the
   chain never hide a symbol of the hashed part.
   */
  method GnuLookup(t: GnuTable, symbols: seq<Symbol>, name: Name) returns (ret: bool, last: Option<nat>)
    requires GnuWellFormed(t, symbols)
    ensures ret ==> last.Some? && last.value < |symbols| && Named(symbols[last.value], name)
    ensures (exists k :: t.symoffset <= k < |symbols| && symbols[k].name == Some(name)) ==> ret
    ensures ret && name != [] ==> FirstFrom(t.symoffset, symbols, name, last.value)
  {
    hide GnuHashOf, SameHash, Stop, GnuBucket, Passes, Recorded;
    ret, last := false, None;
    var hash := GnuHash(name);
    forall k | t.symoffset <= k < |symbols| && symbols[k].name == Some(name)
      ensures Passes(t, hash) && t.symoffset <= t.buckets[GnuBucket(t, hash)] {
      RecordedPasses(t, symbols, k);
    }
    if !Passes(t, hash) { return; }
    var first := t.buckets[GnuBucket(t, hash)];
    if first < t.symoffset { return; }
    assert ChainEnds(t, GnuBucket(t, hash));
    ghost var end :| first - t.symoffset <= end < |t.chains| && Stop(t.chains[end]);
    var index: nat := first - t.symoffset;
    var symname := [];
    while true
      invariant first - t.symoffset <= index <= end
      invariant forall j :: first - t.symoffset <= j < index && symbols[j + t.symoffset].name == Some(name) ==>
                  !SameHash(t.chains[j], hash)
      invariant symname == name ==> name == []
      decreases end - index
    {
      if SameHash(t.chains[index], hash) {
        symname, last := Read(symbols, index + t.symoffset, symname, last).0,
            Read(symbols, index + t.symoffset, symname, last).1;
        if name == symname {
          forall k | t.symoffset <= k < index + t.symoffset
              && symbols[k].name.Some? ensures symbols[k].name != Some(name) {
            WalkedUpTo(t, symbols, name, index, k);
          }
          return true, last;
        }
      }
      if Stop(t.chains[index]) { break; }
      index := index + 1;
    }
    forall k | t.symoffset <= k < |symbols| && symbols[k].name.Some? ensures symbols[k].name != Some(name) {
      WalkedChain(t, symbols, name, index, k);
    }
  }

  // ----- get_symbol by name

  datatype HashSection = NoHash | Sysv(sysv: SysvTable) | Gnu(gnu: GnuTable)

  ghost predicate HashWellFormed(h: HashSection, symbols: seq<Symbol>, paths: seq<seq<nat>>) {
    match h
    case NoHash => true
    case Sysv(t) => SysvWellFormed(t, symbols, paths)
    case Gnu(t) => GnuWellFormed(t, symbols)
  }

  /** The one way to succeed without a symbol: the empty name, in a bucket that names no entry of the table. */
  predicate EmptyNameSlips(h: HashSection, symbols: seq<Symbol>, name: Name)
    requires h.Sysv? ==> h.sysv.buckets != []
  {
    h.Sysv? && name == [] && h.sysv.buckets[SysvBucket(h.sysv, name)] >= |symbols|
  }

  /**
   Which of several symbols of a name is found: without a hash table the first; with a System V table the first on
   the chain of its bucket, at whose end entry 0 is looked at; with a GNU table the first of the hashed part, and
   only if none of them has the name the first of all.
   */
  ghost predicate Chosen(h: HashSection, symbols: seq<Symbol>, name: Name, paths: seq<seq<nat>>, y: nat)
    requires HashWellFormed(h, symbols, paths)
  {
    match h
    case NoHash => FirstFrom(0, symbols, name, y)
    case Sysv(t) => FirstOn(paths[SysvBucket(t, name)] + [0], symbols, name, y)
    case Gnu(t) =>
      if exists k :: t.symoffset <= k < |symbols| && symbols[k].name == Some(name)
        then FirstFrom(t.symoffset, symbols, name, y) else FirstFrom(0, symbols, name, y)
  }

  /** With a hash section of either kind or none, the lookup agrees with a scan of the whole table. */
  method GetSymbol(h: HashSection, symbols: seq<Symbol>, name: Name, ghost paths: seq<seq<nat>>)
    returns (ret: bool, last: Option<nat>)
    requires HashWellFormed(h, symbols, paths)
    ensures ret <==> SomeNamed(symbols, name) || EmptyNameSlips(h, symbols, name)
    ensures ret && !EmptyNameSlips(h, symbols, name) ==>
              last.Some? && last.value < |symbols| && Named(symbols[last.value], name)
    ensures ret && name != [] ==> Chosen(h, symbols, name, paths, last.value)
  {
    hide GnuWellFormed, SysvBucket, FirstOn;
    ret, last := false, None;
    match h {
      case NoHash =>
      case Sysv(t) => ret, last := SysvLookup(t, symbols, name, paths);
      case Gnu(t) => ret, last := GnuLookup(t, symbols, name);
    }
    if !ret {
      ret, last := Scan(symbols, name);
    }
  }

  /** Looking at every entry in turn. */
  method Scan(symbols: seq<Symbol>, name: Name) returns (ret: bool, last: Option<nat>)
    ensures ret <==> SomeNamed(symbols, name)
    ensures ret ==> last.Some? && last.value < |symbols| && Named(symbols[last.value], name)
    ensures ret ==> forall k :: 0 <= k < last.value ==> !Named(symbols[k], name)
  {
    ret, last := false, None;
    var i := 0;
    while !ret && i < |symbols|
      invariant 0 <= i <= |symbols|
      invariant ret ==> last == Some(i - 1) && i > 0 && Named(symbols[i - 1], name)
      invariant forall k :: 0 <= k < i && !(ret && k == i - 1) ==> !Named(symbols[k], name)
      decreases |symbols| - i, !ret
    {
      last := Some(i);
      ret := (if symbols[i].name.Some? then symbols[i].name.value else []) == name;
      i := i + 1;
    }
  }

  /** A table without symbols and with one empty bucket finds the empty name. */
  lemma EmptyNameInEmptyTable()
    ensures var h := Sysv(SysvTable([0], []));
            HashWellFormed(h, [], [[]]) && EmptyNameSlips(h, [], []) && !SomeNamed([], [])
  {
    hide ElfHashOf;
    assert Follows([], 0, []);
  }

  // ----- tables written out

  function TwoSymbols(): seq<Symbol> { [Symbol(Some([])), Symbol(Some(SYSCALL)), Symbol(Some(PRINTF))] }

  /** The System V hashes of syscall and printf are 0x0B09985C and 0x077905A6: buckets 0 and 2 of 3. */
  lemma SysvTableWrittenOut()
    ensures SysvWellFormed(SysvTable([1, 0, 2], [0, 0, 0]), TwoSymbols(), [[1], [], [2]])
  {
    hide SysvBucket, Follows, PRINTF, SYSCALL;
    SysvPlaces();
    OneOnChain(1);
    OneOnChain(2);
    NoneOnChain();
  }

  lemma SysvPlaces()
    ensures var t := SysvTable([1, 0, 2], [0, 0, 0]); SysvBucket(t, SYSCALL) == 0 && SysvBucket(t, PRINTF) == 2
  {
    hide ElfHashOf, PRINTF, SYSCALL;
    KnownHashes();
  }

  lemma OneOnChain(y: nat)
    requires 1 <= y <= 2
    ensures Follows([0, 0, 0], y, [y])
  {
    NoneOnChain();
    assert [y][1..] == [];
  }

  lemma NoneOnChain()
    ensures Follows([0, 0, 0], 0, [])
  {}

  /**
   Their GNU hashes are 0xBAC212A0 and 0x156B2BB8: buckets 0 and 1 of 3, words 1 and 2 of 3, bits 32 and 10, and
   bits 56 and 46, with a shift of 6.
   */
  function GnuWrittenOut(): GnuTable {
    GnuTable(1, 6, true, [0, 0x1_0000_0400, 0x0100_4000_0000_0000], [1, 2, 0], [0xBAC2_12A1, 0x156B_2BB9])
  }

  lemma GnuPlaces()
    ensures var t := GnuWrittenOut();
            && GnuBucket(t, 0xBAC2_12A0) == 0 && GnuBucket(t, 0x156B_2BB8) == 1
            && BloomIndex(t, 0xBAC2_12A0) == 1 && BloomIndex(t, 0x156B_2BB8) == 2
            && Shifted(t, 0xBAC2_12A0) == 0x2EB_084A && Shifted(t, 0x156B_2BB8) == 0x55_ACAE
  {
    Halved6(0xBAC2_12A0);
    Halved6(0x156B_2BB8);
  }

  lemma Halved6(h: word)
    ensures Halved(h, 6) == h / 64
  {
    assert Halved(h, 6) == Halved(h / 2, 5) == Halved(h / 2 / 2, 4) == Halved(h / 2 / 2 / 2, 3);
    assert Halved(h / 2 / 2 / 2, 3) == Halved(h / 2 / 2 / 2 / 2, 2) == Halved(h / 2 / 2 / 2 / 2 / 2, 1);
  }

  lemma GnuBits1()
    ensures var t := GnuWrittenOut();
            HasBits(t.bloom[1], BloomBit(t, 0xBAC2_12A0)) && HasBits(t.bloom[1], BloomBit(t, 0x2EB_084A))
  {}

  lemma GnuBits2()
    ensures var t := GnuWrittenOut();
            HasBits(t.bloom[2], BloomBit(t, 0x156B_2BB8)) && HasBits(t.bloom[2], BloomBit(t, 0x55_ACAE))
  {}

  lemma GnuTableWrittenOut()
    ensures GnuWellFormed(GnuWrittenOut(), TwoSymbols())
  {
    hide Recorded, ChainEnds, GnuHashOf;
    GnuRecorded1();
    GnuRecorded2();
    GnuChains();
  }

  lemma GnuChains()
    ensures var t := GnuWrittenOut(); ChainEnds(t, 0) && ChainEnds(t, 1) && ChainEnds(t, 2)
  {
    var t := GnuWrittenOut();
    assert Stop(t.chains[0]) && Stop(t.chains[1]);
  }

  lemma GnuRecorded1()
    ensures Recorded(GnuWrittenOut(), TwoSymbols(), 1)
  {
    hide GnuHashOf, GnuBucket, BloomIndex, Shifted, HasBits, BloomBit;
    KnownHashes();
    GnuPlaces();
    GnuBits1();
  }

  lemma GnuRecorded2()
    ensures Recorded(GnuWrittenOut(), TwoSymbols(), 2)
  {
    hide GnuHashOf, GnuBucket, BloomIndex, Shifted, HasBits, BloomBit;
    KnownHashes();
    GnuPlaces();
    GnuBits2();
  }
}

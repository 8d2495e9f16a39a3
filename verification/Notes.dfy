/**
 Note sections (SIM/ELFIO/elfio/elfio_note.hpp): notes written one after the other with every field
 padded to four bytes, and found again by walking the sizes.
 */
module Notes {
  import opened SectionData

  type Word = x: int | 0 <= x < 0x1_0000_0000

  datatype Note = Note(kind: Word, name: seq<byte>, desc: seq<byte>)

  // ----- words in the file's byte order

  function WordBytes(big: bool, w: Word): (b: seq<byte>)
    ensures |b| == 4
  {
    var q1 := w / 0x100;
    var q2 := q1 / 0x100;
    var q3 := q2 / 0x100;
    if big then [q3, q2 % 0x100, q1 % 0x100, w % 0x100] else [w % 0x100, q1 % 0x100, q2 % 0x100, q3]
  }

  function Word4(b0: int, b1: int, b2: int, b3: int): int { b0 + b1 * 0x100 + b2 * 0x1_0000 + b3 * 0x100_0000 }

  function WordAt(big: bool, c: seq<byte>, i: nat): Word
    requires i + 4 <= |c|
  {
    if big then Word4(c[i + 3], c[i + 2], c[i + 1], c[i]) else Word4(c[i], c[i + 1], c[i + 2], c[i + 3])
  }

  lemma WordReadsBack(big: bool, w: Word, c: seq<byte>, i: nat)
    requires i + 4 <= |c| && c[i..i + 4] == WordBytes(big, w)
    ensures WordAt(big, c, i) == w
  {
    var b := c[i..i + 4];
    assert b[0] == c[i] && b[1] == c[i + 1] && b[2] == c[i + 2] && b[3] == c[i + 3];
  }

  /** The sum of all c[k] * 256^k, and with the bytes the other way round. */
  function LittleEndian(c: seq<byte>): nat { if c == [] then 0 else c[0] + 256 * LittleEndian(c[1..]) }

  function BigEndian(c: seq<byte>): nat { if c == [] then 0 else 256 * BigEndian(c[..|c| - 1]) + c[|c| - 1] }

  /** Which byte order is which: the flag is for the most significant byte first. */
  lemma WordAtValue(big: bool, c: seq<byte>, i: nat)
    requires i + 4 <= |c|
    ensures WordAt(big, c, i) == if big then BigEndian(c[i..i + 4]) else LittleEndian(c[i..i + 4])
  {
    assert c[i..i + 4] == [c[i], c[i + 1], c[i + 2], c[i + 3]];
    FourBytes(c[i], c[i + 1], c[i + 2], c[i + 3]);
  }

  lemma FourBytes(b0: byte, b1: byte, b2: byte, b3: byte)
    ensures LittleEndian([b0, b1, b2, b3]) == b0 + b1 * 0x100 + b2 * 0x1_0000 + b3 * 0x100_0000
    ensures BigEndian([b0, b1, b2, b3]) == b3 + b2 * 0x100 + b1 * 0x1_0000 + b0 * 0x100_0000
  {
    var b := [b0, b1, b2, b3];
    assert b[1..] == [b1, b2, b3] && [b1, b2, b3][1..] == [b2, b3] && [b2, b3][1..] == [b3] && [b3][1..] == [];
    assert b[..3] == [b0, b1, b2] && [b0, b1, b2][..2] == [b0, b1] && [b0, b1][..1] == [b0] && [b0][..0] == [];
    assert LittleEndian([b3]) == b3 && BigEndian([b0]) == b0;
    assert LittleEndian([b2, b3]) == b2 + 256 * b3 && BigEndian([b0, b1]) == 256 * b0 + b1;
  }

  // ----- writing

  /** Zeros up to the next multiple of four. */
  function Padding(n: nat): seq<byte> { if n % 4 == 0 then [] else [0, 0, 0, 0][..4 - n % 4] }

  lemma PaddingMeans(n: nat)
    ensures |Padding(n)| < 4 && (n + |Padding(n)|) % 4 == 0 && forall k :: 0 <= k < |Padding(n)| ==> Padding(n)[k] == 0
  {}

  function Padded(s: seq<byte>): seq<byte> { s + Padding(|s|) }

  function Header(big: bool, nameSize: Word, descSize: Word, kind: Word): (h: seq<byte>)
    ensures |h| == 12
  {
    WordBytes(big, nameSize) + WordBytes(big, descSize) + WordBytes(big, kind)
  }

  /** The stored sizes are 32-bit words: what is longer is cut. */
  function Encoded(big: bool, n: Note): seq<byte> {
    Header(big, (|n.name| + 1) % 0x1_0000_0000, |n.desc| % 0x1_0000_0000, n.kind)
    + Padded(n.name + [0]) + Padded(n.desc)
  }

  /** What add_note writes: the size always, the descriptor only if there is one. */
  function Written(big: bool, kind: Word, name: seq<byte>, desc: Option<seq<byte>>, descSize: Word): seq<byte> {
    Header(big, (|name| + 1) % 0x1_0000_0000, descSize, kind)
    + Padded(name + [0]) + if desc.Some? && descSize != 0 then Padded(desc.value) else []
  }

  lemma WrittenIsEncoded(big: bool, kind: Word, name: seq<byte>, desc: Option<seq<byte>>, descSize: Word)
    requires if desc.Some? then |desc.value| == descSize else descSize == 0
    ensures Written(big, kind, name, desc, descSize) == Encoded(big,
            Note(kind, name, if desc.Some? then desc.value else []))
  {
    hide WordBytes;
  }

  /**
   A build-id of two bytes, written out: sizes of name and descriptor, type, "GNU" and its NUL, and the padded bytes.
   */
  lemma NoteWrittenOut()
    ensures var n := Note(3, [71, 78, 85], [0xAB, 0xCD]);
            && Encoded(false, n) == [4, 0, 0, 0, 2, 0, 0, 0, 3, 0, 0, 0] + [71, 78, 85, 0] + [0xAB, 0xCD, 0, 0]
            && Encoded(true, n) == [0, 0, 0, 4, 0, 0, 0, 2, 0, 0, 0, 3] + [71, 78, 85, 0] + [0xAB, 0xCD, 0, 0]
  {
    assert Padded([71, 78, 85] + [0]) == [71, 78, 85, 0];
    assert Padded([0xAB, 0xCD]) == [0xAB, 0xCD, 0, 0];
    HeaderWrittenOut();
    hide Header, Padded;
  }

  lemma HeaderWrittenOut()
    ensures Header(false, 4, 2, 3) == [4, 0, 0, 0, 2, 0, 0, 0, 3, 0, 0, 0]
    ensures Header(true, 4, 2, 3) == [0, 0, 0, 4, 0, 0, 0, 2, 0, 0, 0, 3]
  {
    hide WordBytes;
    SmallWord(4);
    SmallWord(2);
    SmallWord(3);
  }

  lemma SmallWord(w: Word)
    requires w < 0x100
    ensures WordBytes(false, w) == [w, 0, 0, 0] && WordBytes(true, w) == [0, 0, 0, w]
  {}

  // ----- reading

  /** Rounding up to a multiple of four in 32-bit arithmetic. */
  function RoundedUp(n: Word): nat { (n + 3) % 0x1_0000_0000 / 4 * 4 }

  function NextNote(big: bool, c: seq<byte>, at: nat): nat
    requires at + 12 <= |c|
  {
    at + 12 + RoundedUp(WordAt(big, c, at)) + RoundedUp(WordAt(big, c, at + 4))
  }

  /** Where notes start from an offset on. */
  function Walk(big: bool, c: seq<byte>, at: nat): seq<nat>
    decreases |c| - at
  {
    if at + 12 <= |c| then [at] + Walk(big, c, NextNote(big, c, at)) else []
  }

  /**
   What reading a note gives; Outside when the original would read outside the section's data, Unrecorded
   when it would read outside its table of positions.
   */
  datatype Reading = Refused | Outside | Unrecorded | Found(note: Note)

  function ReadNote(big: bool, c: seq<byte>, at: nat): (r: Reading)
    ensures !r.Unrecorded?
  {
    if at + 12 > |c| then Outside else ReadHere(big, c, at)
  }

  function ReadHere(big: bool, c: seq<byte>, at: nat): (r: Reading)
    requires at + 12 <= |c|
    ensures !r.Unrecorded?
  {
    var kind := WordAt(big, c, at + 8);
    var nameSize, descSize := WordAt(big, c, at), WordAt(big, c, at + 4);
    var room := |c| - at;
    if nameSize < 1 || nameSize > room || nameSize + descSize > room then Refused
    else
      var descAt := at + 12 + RoundedUp(nameSize);
      if at + 12 + nameSize - 1 > |c| || (descSize != 0 && descAt + descSize > |c|) then Outside
      else Found(Note(kind, c[at + 12..at + 12 + nameSize - 1], if descSize == 0 then []
          else c[descAt..descAt + descSize]))
  }

  // ----- one note

  lemma PaddedSize(s: seq<byte>)
    requires |s| <= 0xFFFF_FFFC
    ensures |Padded(s)| == RoundedUp(|s|)
  {}

  lemma SubSlice(c: seq<byte>, lo: nat, hi: nat, i: nat, j: nat)
    requires lo <= hi <= |c| && i <= j <= hi - lo
    ensures c[lo..hi][i..j] == c[lo + i..lo + j]
  {
    forall k | 0 <= k < j - i ensures c[lo..hi][i..j][k] == c[lo + i..lo + j][k] {}
  }

  lemma HeaderReadsBack(big: bool, nameSize: Word, descSize: Word, kind: Word, c: seq<byte>, at: nat)
    requires at + 12 <= |c| && c[at..at + 12] == Header(big, nameSize, descSize, kind)
    ensures WordAt(big, c, at) == nameSize && WordAt(big, c, at + 4) == descSize && WordAt(big, c, at + 8) == kind
  {
    hide WordBytes, WordAt;
    var h := Header(big, nameSize, descSize, kind);
    SubSlice(c, at, at + 12, 0, 4);
    SubSlice(c, at, at + 12, 4, 8);
    SubSlice(c, at, at + 12, 8, 12);
    assert c[at..at + 4] == h[..4] == WordBytes(big, nameSize);
    assert c[at + 4..at + 8] == h[4..8] == WordBytes(big, descSize);
    assert c[at + 8..at + 12] == h[8..12] == WordBytes(big, kind);
    WordReadsBack(big, nameSize, c, at);
    WordReadsBack(big, descSize, c, at + 4);
    WordReadsBack(big, kind, c, at + 8);
  }

  /** Where the parts of an encoded note lie. */
  lemma NoteParts(big: bool, before: seq<byte>, n: Note, after: seq<byte>)
    requires |Encoded(big, n)| < 0x1_0000_0000
    ensures |n.name| + 1 < 0xFFFF_FFF4 && |n.desc| < 0xFFFF_FFF4
    ensures var c, at := before + Encoded(big, n) + after, |before|;
            var nameEnd := at + 12 + RoundedUp(|n.name| + 1);
            && |Encoded(big, n)| == 12 + RoundedUp(|n.name| + 1) + RoundedUp(|n.desc|)
            && |n.name| + 1 <= RoundedUp(|n.name| + 1) && |n.desc| <= RoundedUp(|n.desc|)
            && c[at..at + 12] == Header(big, |n.name| + 1, |n.desc|, n.kind)
            && c[at + 12..at + 12 + |n.name|] == n.name
            && c[nameEnd..nameEnd + |n.desc|] == n.desc
  {
    hide WordBytes, RoundedUp, Padded, Header;
    EncodedSize(big, n);
    var h, name, desc := Header(big, |n.name| + 1, |n.desc|, n.kind), Padded(n.name + [0]), Padded(n.desc);
    PaddedSize(n.name + [0]);
    PaddedSize(n.desc);
    ThreeParts(before, h, name, desc, after);
    PaddedStart(n.name + [0], |n.name| + 1);
    PaddedStart(n.name + [0], |n.name|);
    PaddedStart(n.desc, |n.desc|);
    var at := |before|;
    var c := before + (h + name + desc) + after;
    SubSlice(c, at + 12, at + 12 + |name|, 0, |n.name|);
    SubSlice(c, at + 12 + |name|, at + 12 + |name| + |desc|, 0, |n.desc|);
    assert (n.name + [0])[..|n.name|] == n.name && n.desc[..|n.desc|] == n.desc;
  }

  lemma EncodedSize(big: bool, n: Note)
    requires |Encoded(big, n)| < 0x1_0000_0000
    ensures |n.name| + 1 < 0xFFFF_FFF4 && |n.desc| < 0xFFFF_FFF4
    ensures Encoded(big, n) == Header(big, |n.name| + 1, |n.desc|, n.kind) + Padded(n.name + [0]) + Padded(n.desc)
  {
    hide WordBytes, Padding;
  }

  lemma PaddedStart(s: seq<byte>, k: nat)
    requires k <= |s|
    ensures k <= |Padded(s)| && Padded(s)[0..k] == s[..k]
  {
    hide Padding;
  }

  lemma ThreeParts(before: seq<byte>, p: seq<byte>, q: seq<byte>, r: seq<byte>, after: seq<byte>)
    ensures var c, i := before + (p + q + r) + after, |before|;
            && c[i..i + |p|] == p && c[i + |p|..i + |p| + |q|] == q
            && c[i + |p| + |q|..i + |p| + |q| + |r|] == r
  {}

  /** A note written anywhere in the data is found there, and the walk steps exactly over it. */
  lemma NoteReadsBack(big: bool, before: seq<byte>, n: Note, after: seq<byte>)
    requires |Encoded(big, n)| < 0x1_0000_0000
    ensures var c := before + Encoded(big, n) + after;
            && |before| + 12 <= |c| && ReadNote(big, c, |before|) == Found(n)
            && NextNote(big, c, |before|) == |before| + |Encoded(big, n)|
  {
    hide Header, WordAt, RoundedUp, Encoded;
    NoteParts(big, before, n, after);
    HeaderReadsBack(big, |n.name| + 1, |n.desc|, n.kind, before + Encoded(big, n) + after, |before|);
  }

  /**
   A note written last is read back if and only if its descriptor was given or empty: a size without bytes loses it.
   */
  lemma LastReadsBackExactly(big: bool, before: seq<byte>, kind: Word, name: seq<byte>, desc: Option<seq<byte>>,
      descSize: Word)
    requires desc.Some? ==> |desc.value| == descSize
    requires |Written(big, kind, name, desc, descSize)| < 0x1_0000_0000
    ensures ReadNote(big, before + Written(big, kind, name, desc, descSize), |before|).Found?
            <==> desc.Some? || descSize == 0
  {
    hide WordBytes, WordAt, ReadHere;
    var w := Written(big, kind, name, desc, descSize);
    if desc.Some? || descSize == 0 {
      WrittenIsEncoded(big, kind, name, desc, descSize);
      var n := Note(kind, name, if desc.Some? then desc.value else []);
      NoteReadsBack(big, before, n, []);
      assert before + w + [] == before + w;
    } else {
      var c, at := before + w, |before|;
      PaddedSize(name + [0]);
      assert c[at..at + 12] == Header(big, |name| + 1, descSize, kind);
      HeaderReadsBack(big, |name| + 1, descSize, kind, c, at);
      NotFoundPast(big, c, at);
    }
  }

  lemma NotFoundPast(big: bool, c: seq<byte>, at: nat)
    requires at + 12 <= |c| && WordAt(big, c, at + 4) > 0
    requires at + 12 + RoundedUp(WordAt(big, c, at)) >= |c|
    ensures !ReadNote(big, c, at).Found?
  {
    hide WordAt;
  }

  // ----- a whole section

  function EncodedAll(big: bool, notes: seq<Note>): seq<byte> {
    if notes == [] then [] else EncodedAll(big, notes[..|notes| - 1]) + Encoded(big, notes[|notes| - 1])
  }

  /** The offset of every note, as add_note records it. */
  function Starts(big: bool, notes: seq<Note>): (s: seq<nat>)
    ensures |s| == |notes|
  {
    seq(|notes|, k requires 0 <= k < |notes| => |EncodedAll(big, notes[..k])|)
  }

  ghost predicate Storable(big: bool, notes: seq<Note>) {
    forall k :: 0 <= k < |notes| ==> |Encoded(big, notes[k])| < 0x1_0000_0000
  }

  lemma {:induction false} SplitAt(big: bool, notes: seq<Note>, k: nat) returns (after: seq<byte>)
    requires k < |notes|
    ensures EncodedAll(big, notes) == EncodedAll(big, notes[..k]) + Encoded(big, notes[k]) + after
    ensures EncodedAll(big, notes[..k + 1]) == EncodedAll(big, notes[..k]) + Encoded(big, notes[k])
  {
    hide Encoded;
    var n := |notes| - 1;
    assert notes[..k + 1][..k] == notes[..k];
    if k < n {
      var rest := SplitAt(big, notes[..n], k);
      assert notes[..n][..k] == notes[..k] && notes[..n][..k + 1] == notes[..k + 1];
      after := rest + Encoded(big, notes[n]);
    } else {
      after := [];
    }
  }

  /** Every note is read back, whatever was added before and after it. */
  lemma NotesReadBack(big: bool, notes: seq<Note>, k: nat)
    requires Storable(big, notes) && k < |notes|
    ensures var c, at := EncodedAll(big, notes), Starts(big, notes)[k];
            at + 12 <= |c| && ReadNote(big, c, at) == Found(notes[k])
  {
    hide Encoded, ReadNote;
    var after := SplitAt(big, notes, k);
    NoteReadsBack(big, EncodedAll(big, notes[..k]), notes[k], after);
  }

  lemma {:induction false} WalkFinds(big: bool, notes: seq<Note>, k: nat)
    requires Storable(big, notes) && k <= |notes|
    ensures Walk(big, EncodedAll(big, notes), |EncodedAll(big, notes[..k])|) == Starts(big, notes)[k..]
    decreases |notes| - k
  {
    hide Encoded, ReadNote, NextNote;
    var c := EncodedAll(big, notes);
    if k == |notes| {
      assert notes[..k] == notes;
    } else {
      var after := SplitAt(big, notes, k);
      NoteReadsBack(big, EncodedAll(big, notes[..k]), notes[k], after);
      WalkFinds(big, notes, k + 1);
      assert Starts(big, notes)[k..] == [Starts(big, notes)[k]] + Starts(big, notes)[k + 1..];
    }
  }

  /** Parsing a section written from empty gives the recorded start positions. */
  lemma ParsingFindsEveryNote(big: bool, notes: seq<Note>)
    requires Storable(big, notes)
    ensures Walk(big, EncodedAll(big, notes), 0) == Starts(big, notes)
  {
    WalkFinds(big, notes, 0);
  }

  // ----- whatever add_note is called with

  /** A call of add_note; no descriptor is a null pointer. */
  datatype Call = Call(kind: Word, name: seq<byte>, desc: Option<seq<byte>>, descSize: Word)

  predicate Sensible(k: Call) { k.desc.Some? ==> |k.desc.value| == k.descSize }

  function Bytes(big: bool, k: Call): seq<byte> { Written(big, k.kind, k.name, k.desc, k.descSize) }

  function BytesAll(big: bool, ks: seq<Call>): seq<byte> {
    if ks == [] then [] else BytesAll(big, ks[..|ks| - 1]) + Bytes(big, ks[|ks| - 1])
  }

  /** The offsets the calls record. */
  function CallStarts(big: bool, ks: seq<Call>): (s: seq<nat>)
    ensures |s| == |ks|
  {
    seq(|ks|, k requires 0 <= k < |ks| => |BytesAll(big, ks[..k])|)
  }

  /** The bytes announced are there, or so many are announced that their number is rounded to 0. */
  predicate Kept(k: Call) { k.desc.Some? || RoundedUp(k.descSize) == 0 }

  lemma BytesSize(big: bool, k: Call)
    requires Sensible(k) && |Bytes(big, k)| < 0x1_0000_0000
    ensures |k.name| + 1 < 0xFFFF_FFF4
    ensures |Bytes(big, k)| == 12 + RoundedUp(|k.name| + 1) + if k.desc.Some? then RoundedUp(k.descSize) else 0
    ensures Bytes(big, k)[..12] == Header(big, |k.name| + 1, k.descSize, k.kind)
  {
    hide WordBytes, Padding, RoundedUp;
    PaddedSize(k.name + [0]);
    if k.desc.Some? { PaddedSize(k.desc.value); }
    assert RoundedUp(0) == 0 by { RoundedZero(); }
  }

  lemma RoundedZero()
    ensures RoundedUp(0) == 0
  {}

  /** The walk steps exactly over what a call wrote if and only if what it announced was kept; it never falls short. */
  lemma CallSteps(big: bool, before: seq<byte>, k: Call, after: seq<byte>)
    requires Sensible(k) && |Bytes(big, k)| < 0x1_0000_0000
    ensures var c, at := before + Bytes(big, k) + after, |before|;
            && at + 12 <= |c| && NextNote(big, c, at) >= at + |Bytes(big, k)|
            && (NextNote(big, c, at) == at + |Bytes(big, k)| <==> Kept(k))
  {
    hide Bytes, WordAt, Header, RoundedUp;
    BytesSize(big, k);
    var c, at := before + Bytes(big, k) + after, |before|;
    assert c[at..at + 12] == Bytes(big, k)[..12];
    HeaderReadsBack(big, |k.name| + 1, k.descSize, k.kind, c, at);
  }

  lemma {:induction false} CallAt(big: bool, ks: seq<Call>, k: nat) returns (after: seq<byte>)
    requires k < |ks|
    ensures BytesAll(big, ks) == BytesAll(big, ks[..k]) + Bytes(big, ks[k]) + after && (k == |ks| - 1 ==> after == [])
    ensures BytesAll(big, ks[..k + 1]) == BytesAll(big, ks[..k]) + Bytes(big, ks[k])
  {
    hide Bytes;
    var n := |ks| - 1;
    assert ks[..k + 1][..k] == ks[..k];
    if k < n {
      var rest := CallAt(big, ks[..n], k);
      assert ks[..n][..k] == ks[..k] && ks[..n][..k + 1] == ks[..k + 1];
      after := rest + Bytes(big, ks[n]);
    } else {
      after := [];
    }
  }

  /** One step of the walk from the k-th recorded start. */
  lemma WalkStep(big: bool, ks: seq<Call>, k: nat)
    requires k < |ks| && Sensible(ks[k]) && |BytesAll(big, ks)| < 0x1_0000_0000
    ensures var c, at := BytesAll(big, ks), |BytesAll(big, ks[..k])|;
            && at + 12 <= |c| && Walk(big, c, at) == [at] + Walk(big, c, NextNote(big, c, at))
            && (k == |ks| - 1 ==> Walk(big, c, NextNote(big, c, at)) == [])
            && (NextNote(big, c, at) == |BytesAll(big, ks[..k + 1])| <==> Kept(ks[k]))
  {
    hide Bytes, NextNote;
    var after := CallAt(big, ks, k);
    CallSteps(big, BytesAll(big, ks[..k]), ks[k], after);
  }

  /**
   From the k-th start on, the walk finds the recorded ones exactly if no call but the last loses what it announces.
   */
  lemma {:induction false} WalkFromCall(big: bool, ks: seq<Call>, k: nat)
    requires k < |ks| && (forall m :: k <= m < |ks| ==> Sensible(ks[m])) && |BytesAll(big, ks)| < 0x1_0000_0000
    ensures Walk(big, BytesAll(big, ks), |BytesAll(big, ks[..k])|) == CallStarts(big, ks)[k..]
            <==> forall m :: k <= m < |ks| - 1 ==> Kept(ks[m])
    decreases |ks| - k
  {
    hide Bytes, NextNote, Walk, Kept;
    var c, s := BytesAll(big, ks), CallStarts(big, ks);
    WalkStep(big, ks, k);
    assert s[k..] == [s[k]] + s[k + 1..];
    var next := Walk(big, c, NextNote(big, c, s[k]));
    SameTail(s[k], next, s[k + 1..]);
    if k < |ks| - 1 {
      WalkFromCall(big, ks, k + 1);
      if next == s[k + 1..] { StartsThere(big, c, NextNote(big, c, s[k])); }
    }
  }

  lemma SameTail(a: nat, s: seq<nat>, t: seq<nat>)
    ensures [a] + s == [a] + t <==> s == t
  {
    assert ([a] + s)[1..] == s && ([a] + t)[1..] == t;
  }

  lemma StartsThere(big: bool, c: seq<byte>, at: nat)
    requires Walk(big, c, at) != []
    ensures Walk(big, c, at)[0] == at
  {}

  /**
   For any sequence of calls: parsing what they wrote gives the recorded starts if and only if none but the last
   announces bytes it does not write - or announces at least 2^32 - 3 of them, which are rounded to none.
   */
  lemma CallsParseExactly(big: bool, ks: seq<Call>)
    requires (forall k :: 0 <= k < |ks| ==> Sensible(ks[k])) && |BytesAll(big, ks)| < 0x1_0000_0000
    ensures Walk(big, BytesAll(big, ks), 0) == CallStarts(big, ks) <==> forall k :: 0 <= k < |ks| - 1 ==> Kept(ks[k])
  {
    hide Bytes, Kept;
    if ks != [] { WalkFromCall(big, ks, 0); }
  }

  // ----- the accessor

  class NoteSection {
    const big: bool
    const notes: Section
    var start_positions: seq<nat>

    ghost predicate Valid()
      reads this, notes, notes.data
    {
      notes.Valid() && !notes.nobits
    }

    /** The section holds these notes and nothing else, and knows where they start. */
    ghost predicate Holds(all: seq<Note>)
      requires Valid()
      reads this, notes, notes.data
    {
      notes.Contents() == EncodedAll(big, all) && start_positions == Starts(big, all)
    }

    /** The section holds what these calls of add_note wrote, and the starts they recorded. */
    ghost predicate Records(ks: seq<Call>)
      requires Valid()
      reads this, notes, notes.data
    {
      notes.Contents() == BytesAll(big, ks) && start_positions == CallStarts(big, ks)
    }

    constructor (big: bool, notes: Section)
      requires notes.Valid() && !notes.nobits
      ensures Valid() && this.big == big && this.notes == notes
      ensures start_positions == Walk(big, notes.Contents(), 0)
    {
      this.big, this.notes := big, notes;
      start_positions := [];
      new;
      ProcessSection();
    }

    method ProcessSection()
      requires notes.Valid() && !notes.nobits
      modifies this
      ensures Valid() && start_positions == Walk(big, notes.Contents(), 0)
    {
      hide WordAt, RoundedUp;
      start_positions := [];
      if notes.data == null || notes.size == 0 { return; }
      var data := notes.Contents();
      var current := 0;
      while current + 12 <= |data|
        invariant Walk(big, data, 0) == start_positions + Walk(big, data, current)
        decreases |data| - current
      {
        start_positions := start_positions + [current];
        var namesz, descsz := WordAt(big, data, current), WordAt(big, data, current + 4);
        current := current + 12 + RoundedUp(namesz) + RoundedUp(descsz);
      }
    }

    /** The buffer add_note builds by appending. */
    method NoteBuffer(kind: Word, name: seq<byte>, desc: Option<seq<byte>>, descSize: Word) returns (buffer: seq<byte>)
      requires desc.Some? ==> |desc.value| == descSize
      ensures buffer == Written(big, kind, name, desc, descSize)
    {
      hide WordBytes, Padding, Written;
      var nameLen := (|name| + 1) % 0x1_0000_0000;
      buffer := WordBytes(big, nameLen);
      buffer := buffer + WordBytes(big, descSize);
      buffer := buffer + WordBytes(big, kind);
      buffer := buffer + name + [0];
      buffer := buffer + Padding(nameLen);
      if desc.Some? && descSize != 0 {
        buffer := buffer + desc.value + Padding(descSize);
      }
      BufferIsWritten(big, kind, name, desc, descSize, buffer);
    }

    /** Adds a note; only with a descriptor that is given or empty does the section then hold one note more. */
    method AddNote(kind: Word, name: seq<byte>, desc: Option<seq<byte>>, descSize: Word) returns (r: Outcome)
      requires Valid() && this !in notes.Footprint() && (desc.Some? ==> |desc.value| == descSize)
      modifies this, notes.Footprint()
      ensures Valid() && (notes.data == old(notes.data) || fresh(notes.data))
      ensures start_positions == old(start_positions) + [old(notes.size)]
      ensures var w := Cut(Written(big, kind, name, desc, descSize));
              && (r.Overrun? <==> !old(Fits(notes.data_size, notes.size, |w|)))
              && notes.Contents() == old(notes.Contents()) + if r.Done? then w else []
      ensures r.Done? && (desc.Some? || descSize == 0) && |Written(big, kind, name, desc, descSize)| < 0x1_0000_0000 ==>
                forall all :: old(Holds(all)) ==> Holds(all + [Note(kind, name, if desc.Some? then desc.value else [])])
      ensures r.Done? && |Written(big, kind, name, desc, descSize)| < 0x1_0000_0000 ==>
                forall ks :: old(Records(ks)) ==> Records(ks + [Call(kind, name, desc, descSize)])
    {
      hide Fits, CapacityAfter, Encoded, EncodedAll, Starts, Written;
      var buffer := NoteBuffer(kind, name, desc, descSize);
      start_positions := start_positions + [notes.size];
      r := notes.AppendData(Cut(buffer));
      if r.Done? && (desc.Some? || descSize == 0) && |buffer| < 0x1_0000_0000 {
        var note := Note(kind, name, if desc.Some? then desc.value else []);
        WrittenIsEncoded(big, kind, name, desc, descSize);
        assert Cut(buffer) == buffer;
        forall all | old(Holds(all)) ensures Holds(all + [note]) {
          OneMore(big, all, note);
        }
      }
      if r.Done? && |buffer| < 0x1_0000_0000 {
        assert Cut(buffer) == buffer;
        forall ks | old(Records(ks)) ensures Records(ks + [Call(kind, name, desc, descSize)]) {
          OneMoreCall(big, ks, Call(kind, name, desc, descSize));
        }
      }
    }

    /**
     A note by its number. Numbers of at least the section's size are refused; a number below it that was never
     recorded gets past that test, and the original then reads outside its table.
     */
    method GetNote(index: nat) returns (r: Reading)
      requires Valid()
      ensures index >= notes.size ==> r == Refused
      ensures r == Unrecorded <==> |start_positions| <= index < notes.size
      ensures index < notes.size && index < |start_positions| ==>
              r == ReadNote(big, notes.Contents(), start_positions[index])
    {
      if index >= notes.size { return Refused; }
      if index >= |start_positions| { return Unrecorded; }
      r := ReadNote(big, notes.Contents(), start_positions[index]);
    }

    /** Every section that holds a note has a number that gets past the test: the number of its notes. */
    lemma SomeNumberIsUnrecorded(all: seq<Note>)
      requires Valid() && Holds(all) && all != []
      ensures |start_positions| <= |all| < notes.size
    {
      hide Encoded;
      LongerThanNumber(big, all);
    }

    /** Loading the file again finds the recorded starts if and only if no call but the last lost what it announced. */
    lemma ParsesAsRecorded(ks: seq<Call>)
      requires Valid() && Records(ks) && forall k :: 0 <= k < |ks| ==> Sensible(ks[k])
      ensures Walk(big, notes.Contents(), 0) == start_positions <==> forall k :: 0 <= k < |ks| - 1 ==> Kept(ks[k])
    {
      hide Kept;
      CallsParseExactly(big, ks);
    }

    /** In a section written from empty, get_note gives the note with that number. */
    lemma GetGivesWhatWasAdded(all: seq<Note>, index: nat)
      requires Valid() && Holds(all) && index < |all|
      ensures index < |start_positions| && index < notes.size
      ensures ReadNote(big, notes.Contents(), start_positions[index]) == Found(all[index])
      ensures Walk(big, notes.Contents(), 0) == start_positions
    {
      PartsFit(big, all);
      NotesReadBack(big, all, index);
      ParsingFindsEveryNote(big, all);
      LongerThanNumber(big, all);
    }
  }

  lemma BufferIsWritten(big: bool, kind: Word, name: seq<byte>, desc: Option<seq<byte>>, descSize: Word,
      buffer: seq<byte>)
    requires desc.Some? ==> |desc.value| == descSize
    requires var nameLen := (|name| + 1) % 0x1_0000_0000;
             buffer == WordBytes(big, nameLen) + WordBytes(big, descSize) + WordBytes(big,
                 kind) + name + [0] + Padding(nameLen)
                       + if desc.Some? && descSize != 0 then desc.value + Padding(descSize) else []
    ensures buffer == Written(big, kind, name, desc, descSize)
  {
    PaddingOfWord(|name| + 1);
    hide WordBytes, Padding;
  }

  lemma PaddingOfWord(n: nat)
    ensures Padding(n % 0x1_0000_0000) == Padding(n)
  {}

  /** A buffer is handed over with its length as a 32-bit word. */
  function Cut(buffer: seq<byte>): (c: seq<byte>)
    ensures |c| < 0x1_0000_0000
  {
    buffer[..|buffer| % 0x1_0000_0000]
  }

  lemma OneMore(big: bool, all: seq<Note>, note: Note)
    ensures EncodedAll(big, all + [note]) == EncodedAll(big, all) + Encoded(big, note)
    ensures Starts(big, all + [note]) == Starts(big, all) + [|EncodedAll(big, all)|]
  {
    hide Encoded;
    var more := all + [note];
    assert more[..|all|] == all;
    forall k | 0 <= k < |all| ensures Starts(big, more)[k] == Starts(big, all)[k] {
      assert more[..k] == all[..k];
    }
  }

  lemma OneMoreCall(big: bool, ks: seq<Call>, k: Call)
    ensures BytesAll(big, ks + [k]) == BytesAll(big, ks) + Bytes(big, k)
    ensures CallStarts(big, ks + [k]) == CallStarts(big, ks) + [|BytesAll(big, ks)|]
  {
    hide Bytes;
    var more := ks + [k];
    assert more[..|ks|] == ks;
    forall j | 0 <= j < |ks| ensures CallStarts(big, more)[j] == CallStarts(big, ks)[j] {
      assert more[..j] == ks[..j];
    }
  }

  lemma PartsFit(big: bool, all: seq<Note>)
    requires |EncodedAll(big, all)| < 0x1_0000_0000
    ensures Storable(big, all)
  {
    hide Encoded;
    forall k | 0 <= k < |all| ensures |Encoded(big, all[k])| < 0x1_0000_0000 {
      var after := SplitAt(big, all, k);
    }
  }

  lemma {:induction false} LongerThanNumber(big: bool, all: seq<Note>)
    ensures |EncodedAll(big, all)| >= 12 * |all|
  {
    if all != [] { LongerThanNumber(big, all[..|all| - 1]); }
  }
}

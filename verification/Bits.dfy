/** Bit vectors, least significant bit first, and carry-save addition at any width. */
module Bits {
  import opened Words

  type bits = seq<bool>

  function Bit(b: bool): nat { if b then 1 else 0 }

  function Value(v: bits): nat {
    if v == [] then 0 else Bit(v[0]) + 2 * Value(v[1..])
  }

  function Rep(b: bool, n: nat): (v: bits)
    ensures |v| == n && forall i :: 0 <= i < n ==> v[i] == b
  {
    seq(n, i => b)
  }

  /** The bitwise sum of a carry-save adder. */
  function Xor3(a: bits, b: bits, c: bits): (v: bits)
    requires |a| == |b| == |c|
    ensures |v| == |a|
  {
    seq(|a|, i requires 0 <= i < |a| => (a[i] != b[i]) != c[i])
  }

  /** The carries of a carry-save adder, before they are moved up by one. */
  function Carry3(a: bits, b: bits, c: bits): (v: bits)
    requires |a| == |b| == |c|
    ensures |v| == |a|
  {
    seq(|a|, i requires 0 <= i < |a| => (a[i] && b[i]) || ((a[i] != b[i]) && c[i]))
  }

  /** Moving up by one within the width: the top bit is lost. */
  function Up(v: bits): (u: bits)
    requires v != []
    ensures |u| == |v|
  {
    [false] + v[..|v| - 1]
  }

  lemma {:induction false} ValueConcat(a: bits, b: bits)
    ensures Value(a + b) == Value(a) + Pow2(|a|) * Value(b)
  {
    if a == [] {
      assert a + b == b;
    } else {
      assert (a + b)[1..] == a[1..] + b;
      ValueConcat(a[1..], b);
      Doubled(Pow2(|a| - 1), Value(b));
    }
  }

  lemma Doubled(p: nat, x: nat)
    ensures 2 * (p * x) == (2 * p) * x
  {}

  lemma {:induction false} ValueBound(v: bits)
    ensures Value(v) < Pow2(|v|)
  {
    if v != [] { ValueBound(v[1..]); }
  }

  lemma {:induction false} ValueRep(b: bool, n: nat)
    ensures Value(Rep(b, n)) == if b then Pow2(n) - 1 else 0
  {
    if n > 0 {
      assert Rep(b, n)[1..] == Rep(b, n - 1);
      ValueRep(b, n - 1);
    }
  }

  /** A column of three bits is its sum bit plus twice its carry, in every column. */
  lemma {:induction false} FullAdders(a: bits, b: bits, c: bits)
    requires |a| == |b| == |c|
    ensures Value(Xor3(a, b, c)) + 2 * Value(Carry3(a, b, c)) == Value(a) + Value(b) + Value(c)
  {
    if a != [] {
      FullAdders(a[1..], b[1..], c[1..]);
      assert Xor3(a, b, c)[1..] == Xor3(a[1..], b[1..], c[1..]);
      assert Carry3(a, b, c)[1..] == Carry3(a[1..], b[1..], c[1..]);
    }
  }

  lemma ValueCons(b: bool, v: bits)
    ensures Value([b] + v) == Bit(b) + 2 * Value(v)
  {
    assert ([b] + v)[1..] == v;
  }

  lemma ValueSnoc(v: bits, b: bool)
    ensures Value(v + [b]) == Value(v) + (if b then Pow2(|v|) else 0)
  {
    hide Value, Pow2;
    ValueConcat(v, [b]);
    ValueOne(b);
  }

  lemma ValueOne(b: bool)
    ensures Value([b]) == Bit(b)
  {
    assert Value([b]) == Bit(b) + 2 * Value([]);
  }

  lemma ValueUp(v: bits)
    requires v != []
    ensures 2 * Value(v) == Value(Up(v)) + (if v[|v| - 1] then Pow2(|v|) else 0)
  {
    hide Value, Pow2;
    var low, top := v[..|v| - 1], v[|v| - 1];
    assert v == low + [top];
    ValueSnoc(low, top);
    ValueCons(false, low);
    Pow2Double(|low|);
  }

  /** One carry-save adder: the two outputs add up to the three inputs, short of whole turns of the width. */
  lemma CarrySave(a: bits, b: bits, c: bits) returns (turns: nat)
    requires |a| == |b| == |c| > 0
    ensures Value(a) + Value(b) + Value(c)
         == Value(Xor3(a, b, c)) + Value(Up(Carry3(a, b, c))) + turns * Pow2(|a|)
  {
    FullAdders(a, b, c);
    ValueUp(Carry3(a, b, c));
    turns := Bit(Carry3(a, b, c)[|a| - 1]);
  }

  // ----- layers of adders

  predicate AllWide(vs: seq<bits>, n: nat) { forall i :: 0 <= i < |vs| ==> |vs[i]| == n }

  function Total(vs: seq<bits>): nat {
    if vs == [] then 0 else Value(vs[0]) + Total(vs[1..])
  }

  /** Every three vectors become two; one or two left over pass through. */
  function Layer(vs: seq<bits>, n: nat): (r: seq<bits>)
    requires n > 0 && AllWide(vs, n)
    ensures AllWide(r, n) && |r| == 2 * (|vs| / 3) + |vs| % 3
  {
    if |vs| < 3 then vs
    else [Xor3(vs[0], vs[1], vs[2]), Up(Carry3(vs[0], vs[1], vs[2]))] + Layer(vs[3..], n)
  }

  lemma {:induction false} TotalConcat(a: seq<bits>, b: seq<bits>)
    ensures Total(a + b) == Total(a) + Total(b)
  {
    if a == [] {
      assert a + b == b;
    } else {
      assert (a + b)[1..] == a[1..] + b;
      TotalConcat(a[1..], b);
    }
  }

  /** A whole layer keeps the total, short of whole turns. */
  lemma {:induction false} LayerKeeps(vs: seq<bits>, n: nat) returns (turns: nat)
    requires n > 0 && AllWide(vs, n)
    ensures Total(vs) == Total(Layer(vs, n)) + turns * Pow2(n)
  {
    if |vs| < 3 {
      turns := 0;
    } else {
      var t := CarrySave(vs[0], vs[1], vs[2]);
      var rest := LayerKeeps(vs[3..], n);
      turns := t + rest;
      ThreeOff(vs);
      TwoOn(Xor3(vs[0], vs[1], vs[2]), Up(Carry3(vs[0], vs[1], vs[2])), Layer(vs[3..], n));
      assert (t + rest) * Pow2(n) == t * Pow2(n) + rest * Pow2(n);
    }
  }

  lemma ThreeOff(vs: seq<bits>)
    requires |vs| >= 3
    ensures Total(vs) == Value(vs[0]) + Value(vs[1]) + Value(vs[2]) + Total(vs[3..])
  {
    assert vs[1..][1..] == vs[2..] && vs[2..][1..] == vs[3..];
    assert Total(vs) == Value(vs[0]) + Total(vs[1..]);
    assert Total(vs[1..]) == Value(vs[1]) + Total(vs[2..]);
    assert Total(vs[2..]) == Value(vs[2]) + Total(vs[3..]);
  }

  lemma TwoOn(a: bits, b: bits, vs: seq<bits>)
    ensures Total([a, b] + vs) == Value(a) + Value(b) + Total(vs)
  {
    assert ([a, b] + vs)[1..] == [b] + vs && ([b] + vs)[1..] == vs;
    assert Total([a, b] + vs) == Value(a) + Total([b] + vs);
  }

  /** Where each adder's outputs land. */
  lemma {:induction false} LayerAppend(vs: seq<bits>, a: bits, b: bits, c: bits, n: nat)
    requires n > 0 && AllWide(vs, n) && |a| == |b| == |c| == n && |vs| % 3 == 0
    ensures AllWide(vs + [a, b, c], n)
    ensures Layer(vs + [a, b, c], n) == Layer(vs, n) + [Xor3(a, b, c), Up(Carry3(a, b, c))]
  {
    hide Xor3, Carry3, Up;
    var all := vs + [a, b, c];
    if vs == [] {
      assert all == [a, b, c];
      assert all[3..] == [];
    } else {
      assert all[3..] == vs[3..] + [a, b, c];
      LayerAppend(vs[3..], a, b, c, n);
    }
  }
}

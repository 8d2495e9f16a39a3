/**
 The three-stage Wallace multiplier: x0 forms 32 partial products and adds them
 down to five vectors, x1 to two, x2 does the final addition and takes a half.
 (SIM/SystemC/CORE/EXE/x0_multiplier.cpp, MEM/x1_multiplier.cpp, WBK/x2_multiplier.cpp)
 */
module Multiplier {
  import opened Words
  import opened Bits

  const MULHSU := 0
  const MUL := 1
  const MULH := 2
  const MULHU := 3

  type command = c: nat | c <= 3

  // ----- section 7.1 of the RISC-V ISA Manual Volume I

  function High(x: int): word { Wrap(x / 0x1_0000_0000) }

  function MulSpec(c: command, a: word, b: word): word {
    if c == MUL then Wrap(a * b)
    else if c == MULH then High(Signed(a) * Signed(b))
    else if c == MULHU then High(a * b)
    else High(Signed(a) * b)
  }

  // ----- x0: operands and partial products

  /** The operands after negating or swapping, and whether partial products are sign-extended. */
  datatype Prepared = Prepared(op1: word, op2: word, signed_type: bool)

  function Prepare(c: command, a: word, b: word): Prepared {
    if (c == MULH || c == MUL) && Bit31(a) && Bit31(b) then Prepared(Wrap(Not(a) + 1), Wrap(Not(b) + 1), false)
    else if (c == MULH || c == MUL) && !Bit31(a) && Bit31(b) then Prepared(b, a, true)
    else Prepared(a, b, c != MULHU)
  }

  function ToBits(x: nat, n: nat): (v: bits)
    ensures |v| == n
  {
    if n == 0 then [] else [x % 2 == 1] + ToBits(x / 2, n - 1)
  }

  /** Partial product i of a w-bit operand in 2w bits. */
  function Product(a: bits, on: bool, i: nat, ext: bool): (v: bits)
    requires i < |a|
    ensures |v| == 2 * |a|
  {
    if on then Rep(false, i) + a + Rep(ext, |a| - i) else Rep(false, 2 * |a|)
  }

  function Products(a: bits, b: bits, ext: bool): (ps: seq<bits>)
    requires |a| == |b|
    ensures |ps| == |a| && AllWide(ps, 2 * |a|)
  {
    seq(|a|, i requires 0 <= i < |a| => Product(a, b[i], i, ext))
  }

  // ----- the trees

  function X0Tree(p: seq<bits>): (m: seq<bits>)
    requires |p| == 32 && AllWide(p, 64)
    ensures |m| == 5 && AllWide(m, 64)
  {
    var s1 := Layer(p[..30], 64);
    var s2 := Layer(s1 + [p[30]], 64);
    var s3 := Layer(s2 + [p[31]], 64);
    var s4 := Layer(s3[..9], 64);
    var s5 := Layer(s4, 64);
    s5 + [s3[9]]
  }

  function X1Tree(m: seq<bits>): (r: seq<bits>)
    requires |m| == 5 && AllWide(m, 64)
    ensures |r| == 2 && AllWide(r, 64)
  {
    var s6 := Layer(m[..3], 64);
    var s7 := Layer(s6 + [m[3]], 64);
    Layer(s7 + [m[4]], 64)
  }

  function X2Half(r: seq<bits>, high: bool): word
    requires |r| == 2
  {
    var add := (Value(r[0]) + Value(r[1])) % 0x1_0000_0000_0000_0000;
    if high then add / 0x1_0000_0000 else add % 0x1_0000_0000
  }

  /** The three stages composed. */
  function X0Result(c: command, a: word, b: word): (m: seq<bits>)
    ensures |m| == 5 && AllWide(m, 64)
  {
    var p := Prepare(c, a, b);
    X0Tree(Products(ToBits(p.op1, 32), ToBits(p.op2, 32), p.signed_type && Bit31(p.op1)))
  }

  function Multiply(c: command, a: word, b: word): word {
    X2Half(X1Tree(X0Result(c, a, b)), c != MUL)
  }

  // ----- partial products add up to the product

  lemma {:induction false} ValueToBits(x: nat, n: nat)
    requires x < Pow2(n)
    ensures Value(ToBits(x, n)) == x
  {
    if n > 0 {
      ValueToBits(x / 2, n - 1);
      ValueCons(x % 2 == 1, ToBits(x / 2, n - 1));
    }
  }

  lemma LessOne(a: int, b: int)
    ensures a * (b - 1) == a * b - a
  {
  }

  lemma ProductValue(a: bits, i: nat, ext: bool)
    requires i < |a|
    ensures Value(Product(a, true, i, ext))
         == Pow2(i) * Value(a) + if ext then Pow2(2 * |a|) - Pow2(i) * Pow2(|a|) else 0
  {
    hide Value, Pow2, Rep;
    var w := |a|;
    ValueConcat(Rep(false, i) + a, Rep(ext, w - i));
    ValueConcat(Rep(false, i), a);
    ValueRep(false, i);
    ValueRep(ext, w - i);
    SignBits(i, w, ext);
  }

  /** The weight of the sign-extension bits above a partial product. */
  lemma SignBits(i: nat, w: nat, ext: bool)
    requires i <= w
    ensures Pow2(i + w) * (if ext then Pow2(w - i) - 1 else 0) == if ext then Pow2(2 * w) - Pow2(i) * Pow2(w) else 0
  {
    hide Pow2;
    Pow2Add(i + w, w - i);
    Pow2Add(i, w);
    LessOne(Pow2(i + w), Pow2(w - i));
  }

  /** The weight of the multiplicand: its two's-complement value when it is sign-extended. */
  function Weight(a: bits, ext: bool): int { Value(a) - if ext then Pow2(|a|) else 0 }

  /** The first i partial products add up to the multiplicand times the low i bits, short of whole turns. */
  lemma {:induction false} ProductsTotal(a: bits, b: bits, ext: bool, i: nat) returns (turns: nat)
    requires |a| == |b| && i <= |a|
    ensures Total(Products(a, b, ext)[..i]) == Weight(a, ext) * Value(b[..i]) + turns * Pow2(2 * |a|)
  {
    if i == 0 {
      turns := 0;
    } else {
      var ps := Products(a, b, ext);
      var before := ProductsTotal(a, b, ext, i - 1);
      assert ps[..i] == ps[..i - 1] + [ps[i - 1]];
      TotalConcat(ps[..i - 1], [ps[i - 1]]);
      TotalOne(ps[i - 1]);
      assert b[..i] == b[..i - 1] + [b[i - 1]];
      ValueSnoc(b[..i - 1], b[i - 1]);
      if b[i - 1] {
        ProductValue(a, i - 1, ext);
        turns := before + if ext then 1 else 0;
        AddProduct(Value(a), Pow2(|a|), Pow2(i - 1), Value(b[..i - 1]), Pow2(2 * |a|), before, ext);
      } else {
        ValueRep(false, 2 * |a|);
        turns := before;
      }
    }
  }

  lemma TotalOne(v: bits)
    ensures Total([v]) == Value(v)
  {
    assert [v][1..] == [];
  }

  lemma AddProduct(va: int, pa: int, pi: int, vb: int, m: int, turns: int, ext: bool)
    ensures var weight := va - if ext then pa else 0;
            weight * vb + turns * m + (pi * va + if ext then m - pi * pa else 0)
            == weight * (vb + pi) + (turns + if ext then 1 else 0) * m
  {
    var weight := va - if ext then pa else 0;
    assert weight * (vb + pi) == weight * vb + weight * pi;
    assert weight * pi == pi * va - if ext then pi * pa else 0;
    assert (turns + 1) * m == turns * m + m;
  }

  // ----- the trees keep the total

  lemma X0Keeps(p: seq<bits>) returns (turns: nat)
    requires |p| == 32 && AllWide(p, 64)
    ensures Total(p) == Total(X0Tree(p)) + turns * Pow2(64)
  {
    hide Pow2, Total, Layer;
    var s1 := Layer(p[..30], 64);
    var t1 := LayerKeeps(p[..30], 64);
    TotalConcat(p[..30], p[30..]);
    assert p == p[..30] + p[30..] && p[30..] == [p[30]] + [p[31]];
    TotalConcat([p[30]], [p[31]]);
    TotalConcat(s1, [p[30]]);
    var s2 := Layer(s1 + [p[30]], 64);
    var t2 := LayerKeeps(s1 + [p[30]], 64);
    TotalConcat(s2, [p[31]]);
    var s3 := Layer(s2 + [p[31]], 64);
    var t3 := LayerKeeps(s2 + [p[31]], 64);
    TotalConcat(s3[..9], [s3[9]]);
    assert s3 == s3[..9] + [s3[9]];
    var s4 := Layer(s3[..9], 64);
    var t4 := LayerKeeps(s3[..9], 64);
    var t5 := LayerKeeps(s4, 64);
    TotalConcat(Layer(s4, 64), [s3[9]]);
    turns := t1 + t2 + t3 + t4 + t5;
    Distribute(t1, t2, t3, t4, t5, Pow2(64));
  }

  lemma Distribute(a: nat, b: nat, c: nat, d: nat, e: nat, m: nat)
    ensures (a + b + c + d + e) * m == a * m + b * m + c * m + d * m + e * m
  {
  }

  lemma X1Keeps(m: seq<bits>) returns (turns: nat)
    requires |m| == 5 && AllWide(m, 64)
    ensures Total(m) == Total(X1Tree(m)) + turns * Pow2(64)
  {
    hide Pow2, Total, Layer;
    assert m == m[..3] + m[3..] && m[3..] == [m[3]] + [m[4]];
    TotalConcat(m[..3], m[3..]);
    TotalConcat([m[3]], [m[4]]);
    var s6 := Layer(m[..3], 64);
    var t6 := LayerKeeps(m[..3], 64);
    TotalConcat(s6, [m[3]]);
    var s7 := Layer(s6 + [m[3]], 64);
    var t7 := LayerKeeps(s6 + [m[3]], 64);
    TotalConcat(s7, [m[4]]);
    var t8 := LayerKeeps(s7 + [m[4]], 64);
    turns := t6 + t7 + t8;
    Distribute(t6, t7, t8, 0, 0, Pow2(64));
  }

  // ----- the selected half is the ISA's

  const T64: int := 0x1_0000_0000_0000_0000

  /** Whole turns of a 64-bit accumulator. */
  function Turns(k: int): int { k * 0x1_0000_0000_0000_0000 }

  lemma Pow2Of64()
    ensures Pow2(64) == 0x1_0000_0000_0000_0000
  {
    Pow2Of32();
    Pow2Add(32, 32);
  }

  /** A 64-bit sum that is an exact product short of whole turns has that product's halves. */
  lemma Halves(sum: nat, exact: int, turns: int)
    requires sum == exact + Turns(turns)
    ensures (sum % T64) / 0x1_0000_0000 == High(exact)
    ensures (sum % T64) % 0x1_0000_0000 == Wrap(exact)
  {
    var q, r := exact / T64, exact % T64;
    assert exact == q * T64 + r;
    assert sum == (q + turns) * T64 + r;
    DivModUnique(sum, T64, q + turns, r);
    var h, l := r / 0x1_0000_0000, r % 0x1_0000_0000;
    assert r == h * 0x1_0000_0000 + l && 0 <= h < 0x1_0000_0000;
    assert exact == (q * W + h) * W + l;
    DivModUnique(exact, W, q * W + h, l);
    WrapTurns(h, q);
  }

  /** The product the partial products stand for. */
  function Exact(c: command, a: word, b: word): int {
    if c == MULHU then a * b
    else if c == MULHSU then Signed(a) * b
    else Signed(a) * Signed(b)
  }

  /** Negating, swapping and sign-extending change no product, 0x80000000 included. */
  lemma PrepareMeans(c: command, a: word, b: word)
    ensures var p := Prepare(c, a, b);
            (if p.signed_type && Bit31(p.op1) then p.op1 - W else p.op1) * p.op2 == Exact(c, a, b)
  {
    if (c == MULH || c == MUL) && Bit31(a) && Bit31(b) {
      assert Wrap(Not(a) + 1) == W - a && Wrap(Not(b) + 1) == W - b;
      assert (W - a) * (W - b) == (a - W) * (b - W);
    } else if (c == MULH || c == MUL) && !Bit31(a) && Bit31(b) {
      assert (b - W) * a == a * (b - W);
    }
  }

  lemma LowHalfUnsigned(a: word, b: word)
    ensures Wrap(Signed(a) * Signed(b)) == Wrap(a * b)
  {
    var x, y := if Bit31(a) then 1 else 0, if Bit31(b) then 1 else 0;
    assert Signed(a) == a - x * W && Signed(b) == b - y * W;
    var k := x * y * W - a * y - x * b;
    assert (a - x * W) * (b - y * W) == a * b + k * W by { Expand(a, b, x, y); }
    WrapTurns(a * b, k);
  }

  lemma Expand(a: int, b: int, x: int, y: int)
    requires 0 <= x <= 1 && 0 <= y <= 1
    ensures (a - x * W) * (b - y * W) == a * b + (x * y * W - a * y - x * b) * W
  {
    if x == 0 && y == 1 {
      assert a * (b - W) == a * b - a * W;
    } else if x == 1 && y == 0 {
      assert (a - W) * b == a * b - W * b;
    } else if x == 1 {
      assert (a - W) * (b - W) == a * b - a * W - W * b + W * W;
    }
  }

  /**
   Main theorem: for all operands and all four commands the three stages yield the ISA's word.
   */
  lemma MultiplierMeetsIsa(c: command, a: word, b: word)
    ensures Multiply(c, a, b) == MulSpec(c, a, b)
  {
    var sum, turns := TreeSum(c, a, b);
    hide X0Result, X1Tree, High, Wrap;
    Halves(sum, Exact(c, a, b), turns);
    LowHalfUnsigned(a, b);
  }

  /** The partial products x0 forms add up to the exact product. */
  lemma PartialProductsSum(c: command, a: word, b: word) returns (turns: nat)
    ensures var p := Prepare(c, a, b);
            Total(Products(ToBits(p.op1, 32), ToBits(p.op2, 32), p.signed_type && Bit31(p.op1)))
            == Exact(c, a, b) + Turns(turns)
  {
    var p := Prepare(c, a, b);
    var ext := p.signed_type && Bit31(p.op1);
    var x, y := ToBits(p.op1, 32), ToBits(p.op2, 32);
    hide Value, Total, Prepare, ToBits, Products, Pow2, Exact;
    Pow2Of32();
    Pow2Of64();
    ValueToBits(p.op1, 32);
    ValueToBits(p.op2, 32);
    PrepareMeans(c, a, b);
    assert Products(x, y, ext)[..32] == Products(x, y, ext) && y[..32] == y;
    assert Weight(x, ext) == if ext then p.op1 - W else p.op1;
    hide Weight;
    turns := ProductsTotal(x, y, ext, 32);
  }

  lemma TreeSum(c: command, a: word, b: word) returns (sum: nat, turns: int)
    ensures var r := X1Tree(X0Result(c, a, b));
            sum == Value(r[0]) + Value(r[1]) && sum == Exact(c, a, b) + Turns(turns)
  {
    var p := Prepare(c, a, b);
    var ps := Products(ToBits(p.op1, 32), ToBits(p.op2, 32), p.signed_type && Bit31(p.op1));
    hide Value, Total, X0Tree, X1Tree, Prepare, ToBits, Products, Pow2, Exact;
    Pow2Of64();
    var t0 := PartialProductsSum(c, a, b);
    var t1 := X0Keeps(ps);
    var t2 := X1Keeps(X0Tree(ps));
    assert t1 * Pow2(64) == Turns(t1) && t2 * Pow2(64) == Turns(t2);
    var r := X1Tree(X0Tree(ps));
    TotalTwo(r);
    sum := Value(r[0]) + Value(r[1]);
    turns := t0 - t1 - t2;
  }

  lemma TotalTwo(r: seq<bits>)
    requires |r| == 2
    ensures Total(r) == Value(r[0]) + Value(r[1])
  {
    assert r[1..] == [r[1]];
    TotalOne(r[1]);
  }
}

/** The multiplier stages in the form of their source: signal arrays filled by loops and adders. */
module MultiplierStages {
  import opened Words
  import opened Bits
  import opened Multiplier

  class X0Multiplier {
    const product: array<bits>
    const product_s1: array<bits>
    const product_s2: array<bits>
    const product_s3: array<bits>
    const product_s4: array<bits>
    const product_s5: array<bits>
    var select_higher_bits_sx0: bool

    ghost predicate Shape() {
      && product.Length == 32 && product_s1.Length == 20 && product_s2.Length == 14
      && product_s3.Length == 10 && product_s4.Length == 6 && product_s5.Length == 4
    }

    constructor ()
      ensures Shape()
      ensures fresh(product) && fresh(product_s1) && fresh(product_s2) && fresh(product_s3) && fresh(product_s4)
              && fresh(product_s5)
    {
      product, product_s1, product_s2 := new bits[32], new bits[20], new bits[14];
      product_s3, product_s4, product_s5 := new bits[10], new bits[6], new bits[4];
    }

    /** Bits i to i+31 of a partial product, and its sign extension above. */
    static method PartialProduct(op1: bits, on: bool, i: nat, ext: bool) returns (result: bits)
      requires |op1| == 32 && i < 32
      ensures result == Product(op1, on, i, ext)
    {
      var prod := new bool[64](_ => false);
      if on {
        for j := i to i + 32
          invariant forall k :: 0 <= k < 64 ==> prod[k] == (i <= k < j && op1[k - i])
        {
          prod[j] := on && op1[j - i];
        }
        if ext {
          for j := i + 32 to 64
            invariant forall k :: 0 <= k < 64 ==> prod[k] == if k < i + 32 then i <= k && op1[k - i] else k < j
          {
            prod[j] := true;
          }
        }
      }
      result := prod[..];
      assert forall k :: 0 <= k < 64 ==> result[k] == Product(op1, on, i, ext)[k];
    }

    method Operation(c: command, OP1_SE: word, OP2_SE: word)
      requires Shape()
      modifies product, `select_higher_bits_sx0
      ensures var p := Prepare(c, OP1_SE, OP2_SE);
              product[..] == Products(ToBits(p.op1, 32), ToBits(p.op2, 32), p.signed_type && Bit31(p.op1))
      ensures select_higher_bits_sx0 == (c != MUL)
    {
      var op1, op2 := OP1_SE, OP2_SE;
      var signed_type := c != 3;
      select_higher_bits_sx0 := c != 1;
      if c == 2 || c == 1 {
        if Bit31(op1) && Bit31(op2) {
          op1 := Wrap(Not(op1) + 1);
          op2 := Wrap(Not(op2) + 1);
          signed_type := false;
        } else if !Bit31(op1) && Bit31(op2) {
          var tmp := op1;
          op1 := op2;
          op2 := tmp;
        }
      }
      assert Prepared(op1, op2, signed_type) == Prepare(c, OP1_SE, OP2_SE);
      hide Prepare, ToBits, Product;
      var x, y := ToBits(op1, 32), ToBits(op2, 32);
      for i := 0 to 32
        invariant select_higher_bits_sx0 == (c != 1)
        invariant forall k :: 0 <= k < i ==> product[k] == Product(x, y[k], k, signed_type && Bit31(op1))
      {
        var prod := PartialProduct(x, y[i], i, signed_type && Bit31(op1));
        product[i] := prod;
      }
      assert product[..] == Products(x, y, signed_type && Bit31(op1));
    }

    /** The carry-save adders of one stage: adder t reads vectors 3t to 3t+2 and drives 2t and 2t+1. */
    static method Adders(src: seq<bits>, dst: array<bits>)
      requires |src| % 3 == 0 && AllWide(src, 64) && dst.Length == 2 * (|src| / 3)
      modifies dst
      ensures dst[..] == Layer(src, 64)
    {
      var n := |src| / 3;
      assert src[..3 * 0] == [] && dst[..0] == [];
      for t := 0 to n
        invariant dst[..2 * t] == Layer(src[..3 * t], 64)
      {
        var a, b, c := src[3 * t], src[3 * t + 1], src[3 * t + 2];
        LayerAppend(src[..3 * t], a, b, c, 64);
        assert src[..3 * (t + 1)] == src[..3 * t] + [a, b, c];
        dst[2 * t] := Xor3(a, b, c);
        dst[2 * t + 1] := Up(Carry3(a, b, c));
        assert dst[..2 * (t + 1)] == dst[..2 * t] + [dst[2 * t], dst[2 * t + 1]];
      }
      assert src[..3 * n] == src && dst[..2 * n] == dst[..];
    }

    /** CSA_1 to CSA_27, stage by stage. */
    method AdderTree() returns (RES_RX0: seq<bits>)
      requires Shape() && AllWide(product[..], 64)
      modifies product_s1, product_s2, product_s3, product_s4, product_s5
      ensures RES_RX0 == X0Tree(old(product[..]))
    {
      hide Layer;
      ghost var p := product[..];
      Adders(product[..30], product_s1);
      assert product[..] == p && p[..30] == product[..30];
      Adders(product_s1[..] + [product[30]], product_s2);
      Adders(product_s2[..] + [product[31]], product_s3);
      assert product_s3[..9] == product_s3[..][..9];
      Adders(product_s3[..9], product_s4);
      Adders(product_s4[..], product_s5);
      RES_RX0 := product_s5[..] + [product_s3[9]];
    }
  }

  class X1Multiplier {
    const M: array<bits>
    const product_s6: array<bits>
    const product_s7: array<bits>
    const product_s8: array<bits>

    ghost predicate Shape() {
      && M.Length == 5 && product_s6.Length == product_s7.Length == product_s8.Length == 2
      && product_s6 != product_s7 && product_s7 != product_s8
    }

    constructor ()
      ensures Shape() && fresh(M) && fresh(product_s6) && fresh(product_s7) && fresh(product_s8)
    {
      M, product_s6, product_s7, product_s8 := new bits[5], new bits[2], new bits[2], new bits[2];
    }

    /** Stages 6 to 8, after parse_data has loaded M. */
    method AdderTree() returns (RES_RX1: seq<bits>)
      requires Shape() && AllWide(M[..], 64)
      modifies product_s6, product_s7, product_s8
      ensures RES_RX1 == X1Tree(old(M[..]))
    {
      hide Layer;
      ghost var m := M[..];
      X0Multiplier.Adders(M[..3], product_s6);
      assert M[..] == m && m[..3] == M[..3];
      X0Multiplier.Adders(product_s6[..] + [M[3]], product_s7);
      X0Multiplier.Adders(product_s7[..] + [M[4]], product_s8);
      RES_RX1 := product_s8[..];
    }

    method ParseData(IN_RX0: seq<bits>)
      requires Shape() && |IN_RX0| == 5
      modifies M
      ensures M[..] == IN_RX0
    {
      M[4] := IN_RX0[4];
      M[3] := IN_RX0[3];
      M[2] := IN_RX0[2];
      M[1] := IN_RX0[1];
      M[0] := IN_RX0[0];
    }
  }

  /** x2: the half that goes to write-back, of whatever number the two vectors add up to modulo 2^64. */
  method X2Process(IN_RX1: seq<bits>, SELECT_HIGHER_BITS_RX1: bool) returns (RES_RX2: word)
    requires |IN_RX1| == 2
    ensures RES_RX2 == X2Half(IN_RX1, SELECT_HIGHER_BITS_RX1)
    ensures forall exact, turns {:trigger High(exact), Turns(turns)} ::
            Value(IN_RX1[0]) + Value(IN_RX1[1]) == exact + Turns(turns) ==>
              RES_RX2 == if SELECT_HIGHER_BITS_RX1 then High(exact) else Wrap(exact)
  {
    hide Value;
    var sum := Value(IN_RX1[0]) + Value(IN_RX1[1]);
    forall exact, turns | sum == exact + Turns(turns)
      ensures (sum % 0x1_0000_0000_0000_0000) / 0x1_0000_0000 == High(exact)
      ensures (sum % 0x1_0000_0000_0000_0000) % 0x1_0000_0000 == Wrap(exact) {
      Halves(sum, exact, turns);
    }
    var add := (Value(IN_RX1[0]) + Value(IN_RX1[1])) % 0x1_0000_0000_0000_0000;
    if SELECT_HIGHER_BITS_RX1 {
      RES_RX2 := add / 0x1_0000_0000;
    } else {
      RES_RX2 := add % 0x1_0000_0000;
    }
  }

  /** An operation taken through the three stages gives the ISA's result. */
  method MultiplyThrough(x0: X0Multiplier, x1: X1Multiplier, c: command, a: word, b: word) returns (r: word)
    requires x0.Shape() && x1.Shape()
    requires {x0.product, x0.product_s1, x0.product_s2, x0.product_s3, x0.product_s4, x0.product_s5}
          !! {x1.M, x1.product_s6, x1.product_s7, x1.product_s8}
    modifies x0, x0.product, x0.product_s1, x0.product_s2, x0.product_s3, x0.product_s4, x0.product_s5
    modifies x1.M, x1.product_s6, x1.product_s7, x1.product_s8
    ensures r == MulSpec(c, a, b)
  {
    hide Prepare, Products, ToBits, X0Tree, X1Tree, X2Half, MulSpec;
    x0.Operation(c, a, b);
    var m := x0.AdderTree();
    x1.ParseData(m);
    var s := x1.AdderTree();
    r := X2Process(s, x0.select_higher_bits_sx0);
    MultiplierMeetsIsa(c, a, b);
  }
}

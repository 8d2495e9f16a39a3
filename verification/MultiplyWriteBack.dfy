/** The multiplier beside the pipeline: what write-back stores for a multiplication. */
module MultiplyWriteBack {
  import opened Words
  import opened Bits
  import opened Multiplier
  import opened Fifo
  import E = Elastic

  /** Operands and command in EXE. */
  datatype Op = Op(cmd: command, a: word, b: word)

  /** Contents of x02x1 and x12x2: partial sums and the half to select. */
  datatype Sums = Sums(vectors: seq<bits>, high: bool)

  function X0Send(o: Op): Sums { Sums(X0Result(o.cmd, o.a, o.b), o.cmd != MUL) }

  function X1Send(s: Sums): Sums {
    Sums(if |s.vectors| == 5 && AllWide(s.vectors, 64) then X1Tree(s.vectors) else [[], []], s.high)
  }

  /** RES_RX2, which follows DOUT_R of x12x2 whether or not that FIFO is empty. */
  function X2Result(s: Sums): word { if |s.vectors| == 2 then X2Half(s.vectors, s.high) else 0 }

  const TREES: E.Trees<Op, Sums, Sums> := E.Trees(X0Send, X1Send)

  /**
   Over every run, the word write-back takes from the multiplier is the product of the operands the
   instruction in write-back had in its last EXE clock - or, if other operands entered x0 while the
   data cache held that instruction in MEM, the product of the last of those.
   */
  lemma WriteBackProduct<T>(s0: E.State<T, Op, Sums, Sums>, ns: seq<E.Input<T, Op>>)
    requires E.AllEmpty(s0)
    ensures var s := E.RunFor(TREES, s0, ns).state;
            s.mem2wbk.valid ==>
              var o := s.inWbk.Latest(); X2Result(s.x12x2.dout) == MulSpec(o.cmd, o.a, o.b)
  {
    hide E.RunFor, X0Result, X1Tree, X2Half, MulSpec;
    E.Lockstep(TREES, s0, ns);
    var s := E.RunFor(TREES, s0, ns).state;
    var o := s.inWbk.Latest();
    MultiplierMeetsIsa(o.cmd, o.a, o.b);
  }

  function Product(o: Op): word { MulSpec(o.cmd, o.a, o.b) }

  /**
   What write-back takes after clock b, from the inputs of the run. The instruction left EXE in some clock a and
   the data cache stalled in between. If decode offered another instruction before clock b - 1, the word is the
   product of EXE's operands in clock b - 1, and otherwise the own product. So it is the own product if and only
   if none was offered or the two products agree; without a stall (b == a + 1) it always is.
   */
  lemma OwnProduct<T>(s0: E.State<T, Op, Sums, Sums>, ns: seq<E.Input<T, Op>>, b: nat) returns (a: nat)
    requires E.AllEmpty(s0) && b < |ns| && E.At(TREES, s0, ns, b + 1).mem2wbk.valid
    ensures E.InMemSince(TREES, s0, ns, a, b) && !ns[b].mcacheStall
    ensures var s := E.At(TREES, s0, ns, b + 1);
            var own, late := ns[a].operands, ns[b - 1].operands;
            && s.mem2wbk.dout == E.At(TREES, s0, ns, a).dec2exe.dout
            && X2Result(s.x12x2.dout) == (if E.Offered(ns, a, b - 1) then Product(late) else Product(own))
            && (X2Result(s.x12x2.dout) == Product(own) <==> !E.Offered(ns, a, b - 1) || Product(late) == Product(own))
            && (b == a + 1 ==> X2Result(s.x12x2.dout) == Product(own))
  {
    hide E.RunFor, X2Result, MulSpec;
    a := E.Written(TREES, s0, ns, b);
    WriteBackProduct(s0, ns[..b + 1]);
  }

  function Go(token: nat, o: Op): E.Input<nat, Op> { E.Input(true, token, false, false, o) }

  function Held(token: nat, o: Op): E.Input<nat, Op> { E.Input(true, token, false, true, o) }

  /** One data-cache stall behind a 2 * 3: the 5 * 7 waiting in EXE overtakes it in x0, and 35 is written back. */
  lemma StalledProductIsLost(s0: E.State<nat, Op, Sums, Sums>)
    requires E.AllEmpty(s0)
    ensures var first, second := Op(MUL, 2, 3), Op(MUL, 5, 7);
            var s := E.RunFor(TREES, s0, [Go(1, first), Go(2, first), Held(3, second), Go(3, second)]).state;
            && s.mem2wbk == Slot(true, 1) && s.inWbk.own == first
            && X2Result(s.x12x2.dout) == 35 && MulSpec(MUL, 2, 3) == 6
  {
    hide X0Send, X1Send, X2Result;
    var first, second := Op(MUL, 2, 3), Op(MUL, 5, 7);
    var ns := [Go(1, first), Go(2, first), Held(3, second), Go(3, second)];
    assert ns[..3] == [Go(1, first), Go(2, first), Held(3, second)];
    assert ns[..3][..2] == [Go(1, first), Go(2, first)] && ns[..3][..2][..1] == [Go(1, first)];
    var s1 := E.Step(TREES, s0, ns[0]);
    var s2 := E.Step(TREES, s1, ns[1]);
    var s3 := E.Step(TREES, s2, ns[2]);
    assert s3.inMem == E.History(first, [second]);
    assert E.RunFor(TREES, s0, ns[..3][..2][..1]).state == s1;
    assert E.RunFor(TREES, s0, ns[..3][..2]).state == s2;
    assert E.RunFor(TREES, s0, ns[..3]).state == s3;
    WriteBackProduct(s0, ns);
  }
}

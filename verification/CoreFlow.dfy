/**
 The FIFO control of module Elastic is that of the core: driven by the core's own waits it fills, empties
 and orders the FIFOs behind decode exactly as the core does.
 */
module CoreFlow {
  import opened Words
  import opened Isa
  import opened Fifo
  import C = Core
  import X = Machine
  import R = Refinement
  import E = Elastic

  /** The same FIFOs are occupied. */
  predicate SameFlow<M, T, O, A, B>(c: C.State<M>, s: E.State<T, O, A, B>) {
    s.dec2exe.valid == c.dec2exe.valid && s.exe2mem.valid == c.exe2mem.valid && s.mem2wbk.valid == c.mem2wbk.valid
  }

  /** What the core's clock is for the FIFO control: the token is the PC that decode takes. */
  function Drive<M>(c: C.State<M>, n: C.Input): E.Input<word, C.Operands> {
    var waits := (!C.R1(c).valid || !C.R2(c).valid) && (C.IsJump(c.if2dec.dout.inst) || C.BlockInDec(c));
    E.Input(!waits && !c.if2dec.Empty(), c.if2dec.dout.pc, C.Blocked(c) || n.divBusy, n.mcacheStall, C.Shown(c))
  }

  function DriveNow<M>(m: X.Machine<M>, l: X.Lines): E.Input<word, C.Operands> { Drive(m.core, X.Inputs(m, l)) }

  function Drives<M>(p: Platform<M>, m0: X.Machine<M>, ls: seq<X.Lines>): (es: seq<E.Input<word, C.Operands>>)
    ensures |es| == |ls|
  {
    if ls == [] then []
    else Drives(p, m0, ls[..|ls| - 1]) + [DriveNow(R.RunFor(p, m0, ls[..|ls| - 1]).machine, ls[|ls| - 1])]
  }

  /** In every clock of the core, whatever the divider and the caches do. */
  lemma StepsAgree<M, A, B>(p: Platform<M>, f: E.Trees<C.Operands, A, B>, c: C.State<M>, n: C.Input,
                            s: E.State<word, C.Operands, A, B>)
    requires SameFlow(c, s)
    ensures var i := Drive(c, n);
            && E.WbkPop(s) == C.WbkPop(c) && E.MemPop(s, i) == C.MemPop(c, n) && E.ExePop(s, i) == C.ExePop(c, n)
            && E.DecPush(s, i) == !C.StallSd(c, n)
            && SameFlow(C.Cycle(p, c, n), E.Step(f, s, i))
  {
    hide C.R1, C.R2, C.Blocked, C.Shown, C.BlockInDec, C.IsJump, C.WritePc, C.PcNext, C.If2decPush, C.Dec2ifPop;
    hide C.DecodeNow, C.ExecuteNow, C.MemoryNow, C.ExeBypass1, C.ExeBypass2, C.ExeOp2;
  }

  /** Over every run from reset both occupy the same FIFOs, take in the same PCs and retire as many instructions. */
  lemma {:induction false} RunsAgree<M, A, B>(p: Platform<M>, f: E.Trees<C.Operands, A, B>, m0: X.Machine<M>,
                                              s0: E.State<word, C.Operands, A, B>, ls: seq<X.Lines>)
    requires X.Reset(m0) && E.AllEmpty(s0)
    ensures var r, e := R.RunFor(p, m0, ls), E.RunFor(f, s0, Drives(p, m0, ls));
            && SameFlow(r.machine.core, e.state) && e.accepted == r.trace.consumed && |e.retired| == |r.trace.retired|
  {
    hide C.Cycle, E.Step, C.StallSd, C.WbkPop, E.WbkPop, E.DecPush, C.ExePop, SameFlow, X.Inputs, X.Used, X.Begun;
    if ls == [] {
      SameAtReset(m0.core, s0);
    } else {
      var k := |ls| - 1;
      RunsAgree(p, f, m0, s0, ls[..k]);
      var m, es := R.RunFor(p, m0, ls[..k]).machine, Drives(p, m0, ls);
      assert es[..k] == Drives(p, m0, ls[..k]);
      StepsAgree(p, f, m.core, X.Inputs(m, ls[k]), E.RunFor(f, s0, es[..k]).state);
    }
  }

  lemma SameAtReset<M, A, B>(c0: C.State<M>, s0: E.State<word, C.Operands, A, B>)
    requires C.AfterReset(c0) && E.AllEmpty(s0)
    ensures SameFlow(c0, s0)
  {}

  /** So the PCs the core has taken are as many as it has retired and holds behind decode. */
  lemma CoreConserves<M>(p: Platform<M>, m0: X.Machine<M>, ls: seq<X.Lines>)
    requires X.Reset(m0)
    ensures var r := R.RunFor(p, m0, ls);
            var c := r.machine.core;
            |r.trace.consumed|
                == |r.trace.retired| + |c.mem2wbk.Contents()| + |c.exe2mem.Contents()| + |c.dec2exe.Contents()|
  {
    hide R.RunFor, E.RunFor, Drives;
    var f := E.Trees((o: C.Operands) => 0, (a: int) => 0);
    var s0: E.State<word, C.Operands, int, int> :=
      E.State(Slot(false, 0), Slot(false, 0), Slot(false, 0), Slot(false, 0), Slot(false, 0),
              E.History(C.Operands(0, 0, 0), []), E.History(C.Operands(0, 0, 0), []));
    RunsAgree(p, f, m0, s0, ls);
    E.Conservation(f, s0, Drives(p, m0, ls));
  }
}

/** The core and its divider in the form of their source, clocked together. */
module CoreAndDivider {
  import opened Words
  import opened Isa
  import opened Stages
  import opened Fifo
  import opened Pipeline
  import C = Core
  import D = Divider
  import X = Machine

  /**
   One clock of both: the bypasses drive the operands, the divider answers with BUSY and its result, and every
   register is loaded.
   */
  method ClockCycle<M>(p: Platform<M>, core: RiverCore<M>, div: D.Diviseur, l: X.Lines)
    requires div.Held()
    modifies core, div
    ensures div.Held()
    ensures X.Machine(core.State(), div.Registers()) == X.Clock(p, old(X.Machine(core.State(), div.Registers())), l)
  {
    hide C.Cycle, D.Clock, D.Settle, D.Result, D.Finished, Driven, C.Blocked, C.R1, C.R2, C.BlockInDec, Holds;
    ghost var m := X.Machine(core.State(), div.Registers());
    BypassesFirst(p, m, l);
    core.SettleBypasses();
    var d := core.dec2exe.dout;
    var r := D.Request(IsDivision(d) && !core.dec2exe.Empty(), d.cmd, core.op1_se, core.op2_se);
    assert r == X.Offer(core.State());
    var result := div.Ret(d.cmd);
    div.ClockCycle(r);
    assert div.BUSY_SE == D.Settle(m.div, r).busy by { BusyIsHeld(m.div, r); }
    core.ClockCycle(p, C.Input(l.icStall, l.mcacheStall, div.BUSY_SE, result));
  }

  lemma BusyIsHeld(s: D.State, r: D.Request)
    ensures D.Clock(s, r).busy == D.Settle(s, r).busy
  {
    hide D.Settle;
  }

  /** Driving the bypasses ahead of the clock changes nothing. */
  lemma BypassesFirst<M>(p: Platform<M>, m: X.Machine<M>, l: X.Lines)
    ensures var c := Driven(m.core);
            && X.Offer(c) == X.Offer(m.core) && c.dec2exe == m.core.dec2exe
            && C.Cycle(p, c, X.Inputs(m, l)) == C.Cycle(p, m.core, X.Inputs(m, l))
  {
    hide D.Settle, D.Result;
    DecDrivenShows(m.core);
    ExeDrivenShows(DecDriven(m.core));
    DrivenCycle(p, m.core, X.Inputs(m, l));
    hide C.Cycle;
  }
}

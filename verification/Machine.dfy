/**
 The core and its divider together: the operand signals of the execute stage drive the divider
 (SIM/SystemC/CORE/EXE/exec.cpp, manage_divider), whose BUSY and result drive the execute stage.
 */
module Machine {
  import opened Words
  import opened Isa
  import opened Stages
  import opened Fifo
  import opened Core
  import opened Forwarding
  import D = Divider

  datatype Machine<M> = Machine(core: State<M>, div: D.State)

  /** The stall lines from outside: STALL_SIC and MCACHE_STALL_SM. */
  datatype Lines = Lines(icStall: bool, mcacheStall: bool)

  /** After reset the core is empty and the divider idle. */
  ghost predicate Reset<M>(m: Machine<M>) { AfterReset(m.core) && D.Fresh(m.div) }

  /** What EXE offers the divider. It does so even while an operand is blocked. */
  function Offer<M>(c: State<M>): D.Request {
    D.Request(IsDivision(c.dec2exe.dout) && !c.dec2exe.Empty(), c.dec2exe.dout.cmd, ExeBypass1(c).value, ExeOp2(c))
  }

  /** What the core sees of the divider. */
  function Inputs<M>(m: Machine<M>, l: Lines): Input {
    Input(l.icStall, l.mcacheStall, D.Settle(m.div, Offer(m.core)).busy, D.Result(m.div, m.core.dec2exe.dout.cmd))
  }

  function Clock<M>(p: Platform<M>, m: Machine<M>, l: Lines): Machine<M> {
    Machine(Cycle(p, m.core, Inputs(m, l)), D.Clock(m.div, Offer(m.core)))
  }

  /** An instruction leaves EXE. */
  predicate Leaves<M>(m: Machine<M>, l: Lines) { ExePop(m.core, Inputs(m, l)) }

  // ----- which operands are used

  /** The operands the instruction in EXE uses: a division those of its START clock, of which b is the core. */
  function Used<M>(m: Machine<M>, b: State<M>): Operands {
    if IsDivision(m.core.dec2exe.dout) then Shown(b) else Shown(m.core)
  }

  /** The operands it should use. */
  function Owed<M>(p: Platform<M>, m: Machine<M>, b: State<M>): Operands {
    if IsDivision(m.core.dec2exe.dout) then Due(p, b) else Due(p, m.core)
  }

  // ----- the invariant

  /**
   A division at work on the operands of its START clock; while an instruction is ahead in MEM, its own are kept too.
   */
  ghost predicate InDivision<M>(p: Platform<M>, s0: Arch<M>, m: Machine<M>, b: State<M>, e: nat) {
    && m.core.dec2exe.valid && IsDivision(m.core.dec2exe.dout) && b.dec2exe == m.core.dec2exe
    && D.AtWork(m.div, Offer(b)) && Due(p, b) == SpecOperands(p, Nth(p, s0, e))
    && (m.core.exe2mem.valid ==> DecSlotOk(p, Nth(p, s0, e), m.core))
  }

  ghost predicate Agrees<M>(p: Platform<M>, s0: Arch<M>, m: Machine<M>, b: State<M>, e: nat) {
    && Loose(p, s0, m.core, e)
    && if D.Fresh(m.div) then Inv(p, s0, m.core, e) else InDivision(p, s0, m, b, e)
  }

  /** The core of the latest START clock. */
  function Begun<M>(m: Machine<M>, b: State<M>): State<M> { if D.Begins(m.div, Offer(m.core)) then m.core else b }

  /** While the divider is at work EXE waits; when it is done the result is that of the START clock's operands. */
  lemma DividerSays<M>(m: Machine<M>, b: State<M>, l: Lines)
    requires b.dec2exe == m.core.dec2exe && D.AtWork(m.div, Offer(b))
    ensures Inputs(m, l).divBusy <==> D.Calculating(m.div, Offer(b))
    ensures !Inputs(m, l).divBusy ==>
              var o := Shown(b); Inputs(m, l).divRes == DivSpec(m.core.dec2exe.dout.cmd, o.op1, o.op2)
  {
    hide D.Calculating, D.Finished, D.Settle, D.Result, DivSpec, D.Fresh, D.Start;
    if D.Calculating(m.div, Offer(b)) {
      D.CalculatingIsBusy(m.div, Offer(b));
      D.OperandsIgnored(m.div, Offer(b), Offer(m.core));
    } else {
      D.FinishedIsDone(m.div, Offer(b), Offer(m.core));
      D.FinishedMeetsIsa(m.div, Offer(b));
    }
  }

  /**
   What the operands owed and used have to do with what EXE sends: they are the architectural ones if it shows
   them, and then it sends the right result. A division may also send it from others with the same result.
   */
  lemma LeavingExact<M>(p: Platform<M>, s0: Arch<M>, m: Machine<M>, b: State<M>, l: Lines, e: nat)
    requires s0.pc % 2 == 0 && Agrees(p, s0, m, b, e) && Leaves(m, l)
    ensures Owed(p, m, b) == SpecOperands(p, Nth(p, s0, e))
    ensures Used(m, b) == Owed(p, m, b) ==> SendsRight(p, s0, m.core, Inputs(m, l), e)
    ensures IsDivision(m.core.dec2exe.dout) ==>
              var u, o, cmd := Used(m, b), Owed(p, m, b), m.core.dec2exe.dout.cmd;
              && m.core.dec2exe == b.dec2exe && Inputs(m, l).divRes == DivSpec(cmd, u.op1, u.op2)
              && (SendsRight(p, s0, m.core, Inputs(m, l), e)
                 <==> DivSpec(cmd, u.op1, u.op2) == DivSpec(cmd, o.op1, o.op2))
  {
    hide Shown, Due, SpecOperands, DivSpec, Cycle, Loose, DecSlotOk, SlotFields, SpecExe, ExecuteNow;
    var n := Inputs(m, l);
    Pops(m.core, n);
    SlotKnown(p, s0, m.core, e);
    SpecExeNow(p, Nth(p, s0, e), m.core, n);
    if D.Fresh(m.div) {
      OperandsDue(p, s0, m.core, e);
      LeavesFresh(m, l);
    } else {
      DividerSays(m, b, l);
    }
  }

  lemma SlotKnown<M>(p: Platform<M>, s0: Arch<M>, c: State<M>, e: nat)
    requires Loose(p, s0, c, e) && c.dec2exe.valid
    ensures SlotFields(p, Nth(p, s0, e), c)
  {
  }

  /** A division does not leave EXE before the divider has begun. */
  lemma LeavesFresh<M>(m: Machine<M>, l: Lines)
    requires D.Fresh(m.div) && Leaves(m, l)
    ensures !IsDivision(m.core.dec2exe.dout)
  {
    Pops(m.core, Inputs(m, l));
    if IsDivision(m.core.dec2exe.dout) { D.FreshStarts(m.div, Offer(m.core)); }
  }

  /** A clock without a division in EXE. */
  lemma PlainClock<M>(p: Platform<M>, s0: Arch<M>, m: Machine<M>, b: State<M>, l: Lines, e: nat)
    requires s0.pc % 2 == 0 && Agrees(p, s0, m, b, e) && SendsRight(p, s0, m.core, Inputs(m, l), e)
    requires !Offer(m.core).division
    ensures Agrees(p, s0, Clock(p, m, l), Begun(m, b), AfterExe(m.core, Inputs(m, l), e))
  {
    hide Cycle, Loose, DecSlotOk, SlotFields, SendsRight, D.Settle, D.Clock, D.Start, D.Fresh;
    D.IdleStays(m.div, Offer(m.core));
    CycleKeeps(p, s0, m.core, Inputs(m, l), e);
  }

  /** A clock in which the divider begins or calculates: EXE waits. */
  lemma BusyClock<M>(p: Platform<M>, s0: Arch<M>, m: Machine<M>, b: State<M>, l: Lines, e: nat)
    requires s0.pc % 2 == 0 && Agrees(p, s0, m, b, e)
    requires D.Begins(m.div, Offer(m.core)) || m.div.calculating
    ensures !Leaves(m, l) && Agrees(p, s0, Clock(p, m, l), Begun(m, b), e)
  {
    hide Shown, Due, SpecOperands, Cycle, Loose, DecSlotOk, D.Settle, D.Clock, D.Start, D.Fresh, D.Calculating,
         D.Finished;
    D.BeginsFresh(m.div, Offer(m.core));
    var r := Offer(Begun(m, b));
    if D.Begins(m.div, Offer(m.core)) { OperandsDue(p, s0, m.core, e); } else { StillCalculating(p, s0, m, b, e); }
    D.WorkGoesOn(m.div, r, Offer(m.core));
    Pops(m.core, Inputs(m, l));
    Waits(p, s0, m.core, Inputs(m, l), e);
  }

  lemma StillCalculating<M>(p: Platform<M>, s0: Arch<M>, m: Machine<M>, b: State<M>, e: nat)
    requires Agrees(p, s0, m, b, e) && m.div.calculating
    ensures InDivision(p, s0, m, b, e) && D.Calculating(m.div, Offer(b)) && !D.Begins(m.div, Offer(m.core))
  {
    D.BeginsFresh(m.div, Offer(m.core));
    hide Loose, DecSlotOk, Due, SpecOperands;
    D.AtWorkIsNotFresh(m.div, Offer(b));
  }

  /** While BUSY holds EXE up, everything else goes on. */
  lemma Waits<M>(p: Platform<M>, s0: Arch<M>, c: State<M>, n: Input, e: nat)
    requires s0.pc % 2 == 0 && Loose(p, s0, c, e) && c.dec2exe.valid && n.divBusy
    requires c.exe2mem.valid ==> DecSlotOk(p, Nth(p, s0, e), c)
    ensures var c' := Cycle(p, c, n);
            && Loose(p, s0, c', e) && c'.dec2exe == c.dec2exe && AfterExe(c, n, e) == e
            && (c'.exe2mem.valid ==> DecSlotOk(p, Nth(p, s0, e), c'))
  {
    hide Cycle, Loose, DecSlotOk, SpecExe, ExecuteNow, StallSd, MemPop;
    Pops(c, n);
    CycleDec(p, c, n);
    CycleBack(p, c, n);
    LooseKeeps(p, s0, c, n, e);
    if Cycle(p, c, n).exe2mem.valid { CycleKeeps(p, s0, c, n, e); }
  }

  /** The clock in which the divider is done: the division leaves, or waits for MEM and begins anew. */
  lemma DoneClock<M>(p: Platform<M>, s0: Arch<M>, m: Machine<M>, b: State<M>, l: Lines, e: nat)
    requires s0.pc % 2 == 0 && Agrees(p, s0, m, b, e) && SendsRight(p, s0, m.core, Inputs(m, l), e)
    requires !D.Fresh(m.div) && !m.div.calculating
    ensures Agrees(p, s0, Clock(p, m, l), Begun(m, b), AfterExe(m.core, Inputs(m, l), e))
  {
    hide Shown, Due, SpecOperands, Cycle, Loose, DecSlotOk, SendsRight, D.Settle, D.Clock, D.Start, D.Fresh,
         D.Calculating, D.Finished, ExePop;
    D.AtWorkIsNotFresh(m.div, Offer(b));
    D.FinishedIsDone(m.div, Offer(b), Offer(m.core));
    var n := Inputs(m, l);
    Pops(m.core, n);
    LooseKeeps(p, s0, m.core, n, e);
    if !ExePop(m.core, n) { CycleKeeps(p, s0, m.core, n, e); }
  }

  /** Every clock that sends right results keeps the agreement of core, divider and sequential machine. */
  lemma ClockAgrees<M>(p: Platform<M>, s0: Arch<M>, m: Machine<M>, b: State<M>, l: Lines, e: nat)
    requires s0.pc % 2 == 0 && Agrees(p, s0, m, b, e) && SendsRight(p, s0, m.core, Inputs(m, l), e)
    ensures Agrees(p, s0, Clock(p, m, l), Begun(m, b), AfterExe(m.core, Inputs(m, l), e))
  {
    D.BeginsFresh(m.div, Offer(m.core));
    hide Agrees, D.Fresh, D.Start, D.Begins, Inputs, Clock, SendsRight;
    if !D.Fresh(m.div) && !m.div.calculating {
      DoneClock(p, s0, m, b, l, e);
    } else if m.div.calculating || Offer(m.core).division {
      BusyClock(p, s0, m, b, l, e);
    } else {
      PlainClock(p, s0, m, b, l, e);
    }
  }
}

/** Whole runs of the core with its divider against whole runs of the sequential machine. */
module Refinement {
  import opened Words
  import opened Isa
  import opened Stages
  import opened Fifo
  import opened Core
  import opened Forwarding
  import opened Machine
  import D = Divider

  /**
   What an observer of the stage boundaries has seen, oldest first; a division with the operands it was started on.
   */
  datatype Trace = Trace(consumed: seq<word>, executed: seq<Operands>, retired: seq<MemOut>)

  /** A run so far; begun is the core in the latest clock that started the divider. */
  datatype Run<M> = Run(machine: Machine<M>, begun: State<M>, trace: Trace)

  /** One clock, logging the PC decode takes, the operands of what leaves EXE and what write-back retires. */
  function Advance<M>(p: Platform<M>, r: Run<M>, l: Lines): Run<M> {
    var m, t := r.machine, r.trace;
    Run(Clock(p, m, l), Begun(m, r.begun), Trace(
      t.consumed + (if StallSd(m.core, Inputs(m, l)) then [] else [m.core.if2dec.dout.pc]),
      t.executed + (if Leaves(m, l) then [Used(m, r.begun)] else []),
      t.retired + (if WbkPop(m.core) then [m.core.mem2wbk.dout] else [])))
  }

  function RunFor<M>(p: Platform<M>, m0: Machine<M>, ls: seq<Lines>): Run<M> {
    if ls == [] then Run(m0, m0.core, Trace([], [], []))
    else Advance(p, RunFor(p, m0, ls[..|ls| - 1]), ls[|ls| - 1])
  }

  /** The run after the first k clocks. */
  function At<M>(p: Platform<M>, m0: Machine<M>, ls: seq<Lines>, k: nat): Run<M>
    requires k <= |ls|
  {
    RunFor(p, m0, ls[..k])
  }

  lemma AtNext<M>(p: Platform<M>, m0: Machine<M>, ls: seq<Lines>, k: nat)
    requires k < |ls|
    ensures At(p, m0, ls, k + 1) == Advance(p, At(p, m0, ls, k), ls[k])
  {
    hide Advance;
    assert ls[..k + 1][..k] == ls[..k];
  }

  /** In this clock an instruction leaves EXE with operands other than the ones due to it. */
  predicate Misreads<M>(p: Platform<M>, r: Run<M>, l: Lines) {
    Leaves(r.machine, l) && Used(r.machine, r.begun) != Owed(p, r.machine, r.begun)
  }

  ghost predicate MisreadFree<M>(p: Platform<M>, m0: Machine<M>, ls: seq<Lines>) {
    forall k :: 0 <= k < |ls| ==> !Misreads(p, At(p, m0, ls, k), ls[k])
  }

  /** The trace of the sequential machine for its first d, e and w instructions. */
  ghost predicate TraceOk<M>(p: Platform<M>, s0: Arch<M>, t: Trace, d: nat, e: nat, w: int) {
    && |t.consumed| == d && (forall k :: 0 <= k < d ==> t.consumed[k] == Nth(p, s0, k).pc)
    && |t.executed| == e && (forall k :: 0 <= k < e ==> t.executed[k] == SpecOperands(p, Nth(p, s0, k)))
    && |t.retired| == w && (forall k :: 0 <= k < w ==> t.retired[k] == SpecMem(p, Nth(p, s0, k)))
  }

  /** The run agrees with the sequential machine, of which e instructions have left EXE. */
  ghost predicate RunOk<M>(p: Platform<M>, s0: Arch<M>, r: Run<M>, e: nat) {
    && Agrees(p, s0, r.machine, r.begun, e)
    && TraceOk(p, s0, r.trace, Decoded(r.machine.core, e), e, Written(r.machine.core, e))
  }

  /** The sequential machine starts at the word after PC_INIT, with the core's registers and memory. */
  function Start<M>(c0: State<M>): Arch<M> { Arch(Wrap(c0.pc + 4), c0.regs, c0.mem) }

  lemma ResetOk<M>(p: Platform<M>, m0: Machine<M>)
    requires Reset(m0)
    ensures Start(m0.core).pc % 2 == 0 && RunOk(p, Start(m0.core), RunFor(p, m0, []), 0)
  {
    EvenSum(m0.core.pc, 4);
    hide SpecDec, SpecExe, SpecMem;
  }

  /** What one clock lets pass at each boundary, in terms of the sequential machine. */
  lemma PassedNow<M>(p: Platform<M>, s0: Arch<M>, c: State<M>, n: Input, e: nat)
    requires s0.pc % 2 == 0 && Loose(p, s0, c, e)
    ensures !StallSd(c, n) ==> c.if2dec.dout.pc == Nth(p, s0, Decoded(c, e)).pc
    ensures 0 <= Written(c, e) && (WbkPop(c) ==> c.mem2wbk.dout == SpecMem(p, Nth(p, s0, Written(c, e))))
  {
    hide SpecDec, SpecExe, SpecMem, Cycle, SlotFields, Nth, MemPop, ExePop, StallSd;
    CycleDec(p, c, n);
    Pops(c, n);
  }

  lemma CountsNow<M>(p: Platform<M>, s0: Arch<M>, c: State<M>, n: Input, e: nat)
    ensures var c', e' := Cycle(p, c, n), AfterExe(c, n, e);
            && Decoded(c', e') == Decoded(c, e) + (if StallSd(c, n) then 0 else 1)
            && Written(c', e') == Written(c, e) + (if WbkPop(c) then 1 else 0)
  {
    hide Cycle, MemPop, ExePop, StallSd;
    CycleDec(p, c, n);
    CycleBack(p, c, n);
    Pops(c, n);
  }

  /** Without a misread EXE sends right results from right operands. */
  lemma NothingMisread<M>(p: Platform<M>, s0: Arch<M>, r: Run<M>, l: Lines, e: nat)
    requires s0.pc % 2 == 0 && Agrees(p, s0, r.machine, r.begun, e) && !Misreads(p, r, l)
    ensures SendsRight(p, s0, r.machine.core, Inputs(r.machine, l), e)
    ensures Leaves(r.machine, l) ==> Used(r.machine, r.begun) == SpecOperands(p, Nth(p, s0, e))
  {
    hide Agrees, Used, Owed, SpecOperands, Nth, Inputs, ExePop, ExecuteNow, SpecExe;
    if Leaves(r.machine, l) { LeavingExact(p, s0, r.machine, r.begun, l, e); }
  }

  /** The log of one clock: it and the counts go on together. */
  lemma LogNow<M>(p: Platform<M>, s0: Arch<M>, r: Run<M>, l: Lines, e: nat)
    requires s0.pc % 2 == 0 && Loose(p, s0, r.machine.core, e)
    requires Leaves(r.machine, l) ==> Used(r.machine, r.begun) == SpecOperands(p, Nth(p, s0, e))
    requires TraceOk(p, s0, r.trace, Decoded(r.machine.core, e), e, Written(r.machine.core, e))
    ensures var c', e' := Clock(p, r.machine, l).core, AfterExe(r.machine.core, Inputs(r.machine, l), e);
            TraceOk(p, s0, Advance(p, r, l).trace, Decoded(c', e'), e', Written(c', e'))
  {
    hide Loose, SpecOperands, SpecMem, Nth, ExePop, StallSd, WbkPop, Used, Decoded, Written, Clock, Inputs, TraceOk;
    var m, c, n := r.machine, r.machine.core, Inputs(r.machine, l);
    PassedNow(p, s0, c, n, e);
    CountsNow(p, s0, c, n, e);
    ClockCore(p, m, l);
    TraceExtends(p, s0, r.trace, Decoded(c, e), e, Written(c, e), if StallSd(c, n) then [] else [c.if2dec.dout.pc],
                 if Leaves(m, l) then [Used(m, r.begun)] else [], if WbkPop(c) then [c.mem2wbk.dout] else []);
  }

  /** A clock in which nothing is misread extends the trace by exactly the sequential machine's next entries. */
  lemma AdvanceTrace<M>(p: Platform<M>, s0: Arch<M>, r: Run<M>, l: Lines, e: nat)
    requires s0.pc % 2 == 0 && RunOk(p, s0, r, e) && !Misreads(p, r, l)
    ensures RunOk(p, s0, Advance(p, r, l), AfterExe(r.machine.core, Inputs(r.machine, l), e))
  {
    hide Agrees, SendsRight, Used, Leaves, Clock, Inputs, TraceOk, Loose, Misreads, Begun, SpecOperands, Nth, AfterExe,
         Decoded, Written;
    AgreesLoosely(p, s0, r.machine, r.begun, e);
    NothingMisread(p, s0, r, l, e);
    ClockAgrees(p, s0, r.machine, r.begun, l, e);
    LogNow(p, s0, r, l, e);
  }

  lemma TraceExtends<M>(p: Platform<M>, s0: Arch<M>, t: Trace, d: nat, e: nat, w: int,
                        pcs: seq<word>, used: seq<Operands>, outs: seq<MemOut>)
    requires TraceOk(p, s0, t, d, e, w)
    requires pcs == [] || pcs == [Nth(p, s0, d).pc]
    requires used == [] || used == [SpecOperands(p, Nth(p, s0, e))]
    requires outs == [] || (w >= 0 && outs == [SpecMem(p, Nth(p, s0, w))])
    ensures TraceOk(p, s0, Trace(t.consumed + pcs, t.executed + used, t.retired + outs), d + |pcs|, e + |used|,
            w + |outs|)
  {
    hide SpecOperands, SpecMem, Nth;
  }

  lemma AgreesLoosely<M>(p: Platform<M>, s0: Arch<M>, m: Machine<M>, b: State<M>, e: nat)
    requires Agrees(p, s0, m, b, e)
    ensures Loose(p, s0, m.core, e)
  {}

  lemma ClockCore<M>(p: Platform<M>, m: Machine<M>, l: Lines)
    ensures Clock(p, m, l).core == Cycle(p, m.core, Inputs(m, l))
  {
    hide Cycle;
  }

  /**
   Main theorem. Whatever the program and the stalls of the two caches, a run from reset in which nothing is
   misread consumes exactly the architectural PCs, executes every instruction on its architectural operands
   and store data, and retires exactly the architectural results, each in program order.
   */
  lemma {:induction false} CoreRefinesIsa<M>(p: Platform<M>, m0: Machine<M>, ls: seq<Lines>) returns (e: nat)
    requires Reset(m0) && MisreadFree(p, m0, ls)
    ensures RunOk(p, Start(m0.core), RunFor(p, m0, ls), e)
  {
    hide RunOk, Misreads, Advance;
    ResetOk(p, m0);
    if ls == [] {
      e := 0;
    } else {
      var last := |ls| - 1;
      PrefixIsFree(p, m0, ls, last);
      var e0 := CoreRefinesIsa(p, m0, ls[..last]);
      var r := At(p, m0, ls, last);
      assert !Misreads(p, r, ls[last]);
      AdvanceTrace(p, Start(m0.core), r, ls[last], e0);
      e := AfterExe(r.machine.core, Inputs(r.machine, ls[last]), e0);
    }
  }

  lemma PrefixIsFree<M>(p: Platform<M>, m0: Machine<M>, ls: seq<Lines>, n: nat)
    requires n <= |ls| && forall k :: 0 <= k < n ==> !Misreads(p, At(p, m0, ls, k), ls[k])
    ensures MisreadFree(p, m0, ls[..n])
  {
    hide Misreads;
    forall k | 0 <= k < n ensures !Misreads(p, At(p, m0, ls[..n], k), ls[..n][k]) {
      assert ls[..n][..k] == ls[..k];
      assert !Misreads(p, At(p, m0, ls, k), ls[k]);
    }
  }

  // ----- exactly

  /** All instructions that have left EXE did so with the architectural operands. */
  ghost predicate ExecutedRight<M>(p: Platform<M>, m0: Machine<M>, t: Trace) {
    forall k :: 0 <= k < |t.executed| ==> t.executed[k] == SpecOperands(p, Nth(p, Start(m0.core), k))
  }

  /** Over all runs: the executed operands are the architectural ones if and only if nothing was misread. */
  lemma RefinesExactly<M>(p: Platform<M>, m0: Machine<M>, ls: seq<Lines>)
    requires Reset(m0)
    ensures ExecutedRight(p, m0, RunFor(p, m0, ls).trace) <==> MisreadFree(p, m0, ls)
  {
    hide Misreads, RunFor, Agrees, SpecOperands, Nth, Start;
    if MisreadFree(p, m0, ls) {
      var e := CoreRefinesIsa(p, m0, ls);
    } else {
      var k := FirstMisread(p, m0, ls);
      WrongEntry(p, m0, ls, k);
      TraceGrows(p, m0, ls, k + 1);
    }
  }

  lemma {:induction false} FirstMisread<M>(p: Platform<M>, m0: Machine<M>, ls: seq<Lines>) returns (k: nat)
    requires !MisreadFree(p, m0, ls)
    ensures k < |ls| && MisreadFree(p, m0, ls[..k]) && Misreads(p, At(p, m0, ls, k), ls[k])
  {
    hide Misreads, At;
    k := 0;
    while !Misreads(p, At(p, m0, ls, k), ls[k])
      invariant k < |ls| && forall j :: 0 <= j < k ==> !Misreads(p, At(p, m0, ls, j), ls[j])
      decreases |ls| - k
    {
      k := k + 1;
    }
    PrefixIsFree(p, m0, ls, k);
  }

  /** The first misread leaves a wrong entry in the log. */
  lemma WrongEntry<M>(p: Platform<M>, m0: Machine<M>, ls: seq<Lines>, k: nat)
    requires Reset(m0) && k < |ls| && MisreadFree(p, m0, ls[..k]) && Misreads(p, At(p, m0, ls, k), ls[k])
    ensures !ExecutedRight(p, m0, At(p, m0, ls, k + 1).trace)
  {
    hide RunFor, Agrees, SpecOperands, SpecMem, Nth, Start, Used, Owed, Clock, ExePop;
    var r := At(p, m0, ls, k);
    var e := CoreRefinesIsa(p, m0, ls[..k]);
    ResetOk(p, m0);
    LeavingExact(p, Start(m0.core), r.machine, r.begun, ls[k], e);
    AtNext(p, m0, ls, k);
    assert At(p, m0, ls, k + 1).trace.executed[e] == Used(r.machine, r.begun);
  }

  /** Nothing is ever taken back from the log. */
  lemma {:induction false} TraceGrows<M>(p: Platform<M>, m0: Machine<M>, ls: seq<Lines>, k: nat)
    requires k <= |ls|
    ensures At(p, m0, ls, k).trace.executed <= RunFor(p, m0, ls).trace.executed
  {
    hide Clock, Leaves, Used, Begun;
    if k == |ls| {
      assert ls[..k] == ls;
    } else {
      var last := |ls| - 1;
      TraceGrows(p, m0, ls[..last], k);
      assert ls[..last][..k] == ls[..k];
    }
  }

  // ----- when nothing can be misread

  /** No source of the instruction in EXE waits for a load in MEM. */
  predicate Clear<M>(c: State<M>) {
    var d := c.dec2exe.dout;
    c.dec2exe.valid ==> (d.blockBp || !LoadAhead(c, d.radr1)) && (d.load || d.blockBp || !LoadAhead(c, d.radr2))
  }

  /** Then the operands shown are the ones due, and neither the wait for a load nor the hazard can fire. */
  lemma ClearIsDue<M>(p: Platform<M>, c: State<M>)
    requires Clear(c) && c.dec2exe.valid
    ensures Shown(c) == Due(p, c) && !Blocked(c) && !Hazard(c)
  {}

  /** After a clock without a data-cache stall no load is pending: block_in_dec has kept its reader back. */
  lemma ClearAfter<M>(p: Platform<M>, c: State<M>, n: Input)
    requires !n.mcacheStall
    ensures Clear(Cycle(p, c, n))
  {
    hide Cycle, StallSd, ExePop, MemPop, DecodeNow, ExecuteNow, Memory, MemoryAfter, WriteReg;
    CycleDec(p, c, n);
    CycleBack(p, c, n);
    Pops(c, n);
    NowShape(p, c, n);
  }

  lemma {:induction false} StaysClear<M>(p: Platform<M>, m0: Machine<M>, ls: seq<Lines>)
    requires Reset(m0) && forall k :: 0 <= k < |ls| ==> !ls[k].mcacheStall
    ensures var r := RunFor(p, m0, ls); Clear(r.machine.core) && Shown(r.begun) == Due(p, r.begun)
  {
    hide Cycle, Clear, Shown, Due;
    if ls == [] {
      NothingDue(p, m0.core);
    } else {
      var r := RunFor(p, m0, ls[..|ls| - 1]);
      StaysClear(p, m0, ls[..|ls| - 1]);
      ClearAfter(p, r.machine.core, Inputs(r.machine, ls[|ls| - 1]));
      if D.Begins(r.machine.div, Offer(r.machine.core)) { ClearIsDue(p, r.machine.core); }
    }
  }

  lemma NothingDue<M>(p: Platform<M>, c: State<M>)
    requires AfterReset(c)
    ensures Clear(c) && Shown(c) == Due(p, c)
  {}

  /** With the data cache never stalling, nothing is ever misread, whatever the instruction cache does. */
  lemma UnstalledIsMisreadFree<M>(p: Platform<M>, m0: Machine<M>, ls: seq<Lines>)
    requires Reset(m0)
    requires forall k :: 0 <= k < |ls| ==> !ls[k].mcacheStall
    ensures MisreadFree(p, m0, ls)
  {
    hide Clear, Shown, Due, RunFor;
    forall k | 0 <= k < |ls| ensures !Misreads(p, At(p, m0, ls, k), ls[k]) {
      StaysClear(p, m0, ls[..k]);
      var m := At(p, m0, ls, k).machine;
      Pops(m.core, Inputs(m, ls[k]));
      if m.core.dec2exe.valid { ClearIsDue(p, m.core); }
    }
  }

  /** What misreading is, in terms of the registers: the hazard with a difference, for a division in its START clock. */
  lemma MisreadGuard<M>(p: Platform<M>, r: Run<M>, l: Lines)
    requires Leaves(r.machine, l)
    ensures !IsDivision(r.machine.core.dec2exe.dout) ==> (Misreads(p, r, l) <==> Misread(p, r.machine.core))
    ensures IsDivision(r.machine.core.dec2exe.dout) && r.begun.dec2exe.valid && !Blocked(r.begun) ==>
              (Misreads(p, r, l) <==> Misread(p, r.begun))
  {
    hide Shown, Due, Blocked, Misread, Inputs;
    Pops(r.machine.core, Inputs(r.machine, l));
    ShownIsDue(p, r.machine.core);
    if r.begun.dec2exe.valid && !Blocked(r.begun) { ShownIsDue(p, r.begun); }
  }

  // ----- divisions in a run

  /** What EXE has offered the divider, clock by clock and in the clock to come. */
  function Offers<M>(p: Platform<M>, m0: Machine<M>, ls: seq<Lines>): (rs: seq<D.Request>)
    ensures |rs| == |ls| + 1 && forall k :: 0 <= k <= |ls| ==> rs[k] == Offer(At(p, m0, ls, k).machine.core)
  {
    seq(|ls| + 1, k requires 0 <= k <= |ls| => Offer(At(p, m0, ls, k).machine.core))
  }

  /** The machine's divider is the divider driven by them. */
  lemma {:induction false} SameDivider<M>(p: Platform<M>, m0: Machine<M>, ls: seq<Lines>, k: nat)
    requires k <= |ls|
    ensures D.After(m0.div, Offers(p, m0, ls), k) == At(p, m0, ls, k).machine.div
  {
    hide Cycle, D.Clock, Offer, Inputs;
    if k > 0 {
      SameDivider(p, m0, ls, k - 1);
      AtNext(p, m0, ls, k - 1);
    }
  }

  /** BUSY is up only for a division, and keeps it in EXE. */
  lemma BusyHolds<M>(p: Platform<M>, s0: Arch<M>, m: Machine<M>, b: State<M>, l: Lines, e: nat)
    requires Agrees(p, s0, m, b, e) && Inputs(m, l).divBusy
    ensures m.core.dec2exe.valid && IsDivision(m.core.dec2exe.dout) && Clock(p, m, l).core.dec2exe == m.core.dec2exe
  {
    hide Loose, Inv, Cycle, D.AtWork, Due, SpecOperands, DecSlotOk, D.Settle;
    if D.Fresh(m.div) && !Offer(m.core).division { D.IdleStays(m.div, Offer(m.core)); }
    Pops(m.core, Inputs(m, l));
    CycleDec(p, m.core, Inputs(m, l));
  }

  lemma RunHoldsWhileBusy<M>(p: Platform<M>, m0: Machine<M>, ls: seq<Lines>)
    requires Reset(m0) && MisreadFree(p, m0, ls)
    ensures D.HeldWhileBusy(m0.div, Offers(p, m0, ls))
    ensures forall k :: 0 <= k < |ls| && D.Busy(m0.div, Offers(p, m0, ls), k) ==>
              At(p, m0, ls, k + 1).machine.core.dec2exe == At(p, m0, ls, k).machine.core.dec2exe
  {
    hide Agrees, Clock, D.Settle, MisreadFree;
    var rs := Offers(p, m0, ls);
    forall k | 0 <= k < |ls| && D.Busy(m0.div, rs, k)
      ensures rs[k + 1].division && rs[k + 1].cmd == rs[k].cmd
              && At(p, m0, ls, k + 1).machine.core.dec2exe == At(p, m0, ls, k).machine.core.dec2exe
    {
      SameDivider(p, m0, ls, k);
      PrefixOfFree(p, m0, ls, k);
      var e := CoreRefinesIsa(p, m0, ls[..k]);
      var r := At(p, m0, ls, k);
      BusyHolds(p, Start(m0.core), r.machine, r.begun, ls[k], e);
      AtNext(p, m0, ls, k);
    }
  }

  lemma PrefixOfFree<M>(p: Platform<M>, m0: Machine<M>, ls: seq<Lines>, k: nat)
    requires MisreadFree(p, m0, ls) && k <= |ls|
    ensures MisreadFree(p, m0, ls[..k])
  {
    hide Misreads;
    PrefixIsFree(p, m0, ls, k);
  }

  /** begun is the core of the latest clock that began a division. */
  lemma {:induction false} BegunThen<M>(p: Platform<M>, m0: Machine<M>, ls: seq<Lines>, j: nat, k: nat)
    requires j < k <= |ls| && D.Begins(At(p, m0, ls, j).machine.div, Offer(At(p, m0, ls, j).machine.core))
    requires forall i :: j < i < k ==> !D.Begins(At(p, m0, ls, i).machine.div, Offer(At(p, m0, ls, i).machine.core))
    ensures At(p, m0, ls, k).begun == At(p, m0, ls, j).machine.core
  {
    hide At, Clock, D.Begins, Offer;
    AtNext(p, m0, ls, k - 1);
    if j < k - 1 { BegunThen(p, m0, ls, j, k - 1); }
  }

  /** A division held by BUSY stays the same instruction. */
  lemma {:induction false} SameSlot<M>(p: Platform<M>, m0: Machine<M>, ls: seq<Lines>, j: nat, k: nat)
    requires Reset(m0) && MisreadFree(p, m0, ls) && j <= k <= |ls|
    requires forall i :: j <= i < k ==> D.Busy(m0.div, Offers(p, m0, ls), i)
    ensures At(p, m0, ls, k).machine.core.dec2exe == At(p, m0, ls, j).machine.core.dec2exe
  {
    hide At, D.Busy;
    if j < k {
      SameSlot(p, m0, ls, j, k - 1);
      RunHoldsWhileBusy(p, m0, ls);
    }
  }

  /** The clock in which a division that is about to leave was started. */
  lemma StartOf<M>(p: Platform<M>, m0: Machine<M>, ls: seq<Lines>, l: Lines) returns (j: nat)
    requires Reset(m0) && MisreadFree(p, m0, ls)
    requires var m := RunFor(p, m0, ls).machine; Leaves(m, l) && IsDivision(m.core.dec2exe.dout)
    ensures j < |ls| && var r, m := RunFor(p, m0, ls), At(p, m0, ls, j).machine;
            && r.begun == m.core && m.core.dec2exe == r.machine.core.dec2exe && D.Begins(m.div, Offer(m.core))
            && |ls| == j + D.Latency(Offer(m.core))
  {
    hide Clock, Cycle, D.Settle, MisreadFree, D.HeldWhileBusy, D.Latency, D.Begins, D.Result;
    var k, rs := |ls|, Offers(p, m0, ls);
    assert ls[..k] == ls;
    RunHoldsWhileBusy(p, m0, ls);
    SameDivider(p, m0, ls, k);
    Pops(RunFor(p, m0, ls).machine.core, Inputs(RunFor(p, m0, ls).machine, l));
    j := D.LeavesWithResult(m0.div, rs, k);
    forall i | j <= i <= k ensures D.After(m0.div, rs, i) == At(p, m0, ls, i).machine.div { SameDivider(p, m0, ls, i); }
    BegunThen(p, m0, ls, j, k);
    SameSlot(p, m0, ls, j, k);
  }

  /**
   What a leaving division i brings, c being the core of its START clock and a the architectural state: the result
   of the operands c showed. They are the architectural ones if and only if they are the ones due there, which for
   a START that was not blocked means that it did not misread; so the result is right if and only if START was
   neither blocked nor in Hazard, or the words shown there give the same result.
   */
  ghost predicate DecidedBy<M>(p: Platform<M>, a: Arch<M>, i: Inst, c: State<M>, sent: word)
    requires i.Divide?
  {
    var shown, right := Shown(c), DivSpec(i.cmd, a.regs[i.rs1], a.regs[i.rs2]);
    && sent == DivSpec(i.cmd, shown.op1, shown.op2)
    && (shown.op1 == a.regs[i.rs1] && shown.op2 == a.regs[i.rs2] <==> shown == Due(p, c))
    && (!Blocked(c) ==> (shown == Due(p, c) <==> !Misread(p, c)))
    && (sent == right <==> (!Blocked(c) && !Hazard(c)) || DivSpec(i.cmd, shown.op1, shown.op2) == right)
  }

  lemma LeavesAsStarted<M>(p: Platform<M>, s0: Arch<M>, r: Run<M>, l: Lines, e: nat)
    requires s0.pc % 2 == 0 && Agrees(p, s0, r.machine, r.begun, e)
    requires Leaves(r.machine, l) && IsDivision(r.machine.core.dec2exe.dout)
    ensures var a := Nth(p, s0, e);
            && p.prog(a.pc).Divide?
            && DecidedBy(p, a, p.prog(a.pc), r.begun, ExecuteNow(r.machine.core, Inputs(r.machine, l)).res)
  {
    hide Due, DivSpec, Agrees, Blocked, Hazard, Misread, Nth, Inputs, D.Settle, D.Result, ExeBypass1, ExeOp2, ExecRes,
         SpecOperands;
    var c, b := r.machine.core, r.begun;
    LeavingExact(p, s0, r.machine, b, l, e);
    AgreesLoosely(p, s0, r.machine, b, e);
    Pops(c, Inputs(r.machine, l));
    DivisionSlot(p, s0, c, e);
    NoStoreData(p, b);
    SentByDivider(c, Inputs(r.machine, l));
    if !Blocked(b) {
      ShownIsDue(p, b);
      HazardMatters(p, b);
    }
  }

  lemma HazardMatters<M>(p: Platform<M>, c: State<M>)
    ensures Misread(p, c) ==> Hazard(c)
  {}

  lemma SentByDivider<M>(c: State<M>, n: Input)
    requires IsDivision(c.dec2exe.dout)
    ensures ExecuteNow(c, n).res == n.divRes
  {}

  lemma NoStoreData<M>(p: Platform<M>, c: State<M>)
    requires !c.dec2exe.dout.store
    ensures Shown(c).data == Due(p, c).data == c.dec2exe.dout.memData
  {}

  /**
   Divisions, exactly, over all runs: one that leaves EXE is decided by the clock it was started in, Latency before.
   */
  lemma DivisionDecides<M>(p: Platform<M>, m0: Machine<M>, ls: seq<Lines>, l: Lines) returns (j: nat, e: nat)
    requires Reset(m0) && MisreadFree(p, m0, ls)
    requires var m := RunFor(p, m0, ls).machine; Leaves(m, l) && IsDivision(m.core.dec2exe.dout)
    ensures j < |ls| && RunOk(p, Start(m0.core), RunFor(p, m0, ls), e)
    ensures var m, c := RunFor(p, m0, ls).machine, At(p, m0, ls, j).machine.core;
            var a := Nth(p, Start(m0.core), e);
            && c.dec2exe == m.core.dec2exe && |ls| == j + D.Latency(Offer(c)) && p.prog(a.pc).Divide?
            && DecidedBy(p, a, p.prog(a.pc), c, ExecuteNow(m.core, Inputs(m, l)).res)
  {
    hide RunFor, At, DecidedBy, Agrees, TraceOk, ExePop, D.Latency, D.Begins, ExecuteNow, Inputs, Start, Nth,
         MisreadFree;
    j := StartOf(p, m0, ls, l);
    e := CoreRefinesIsa(p, m0, ls);
    ResetOk(p, m0);
    LeavesAsStarted(p, Start(m0.core), RunFor(p, m0, ls), l, e);
  }

  /** A division in EXE is one of the program, with its operands; they carry no store data. */
  lemma DivisionSlot<M>(p: Platform<M>, s0: Arch<M>, c: State<M>, e: nat)
    requires Loose(p, s0, c, e) && c.dec2exe.valid && IsDivision(c.dec2exe.dout)
    ensures var a := Nth(p, s0, e);
            var i := p.prog(a.pc);
            i.Divide? && c.dec2exe.dout.cmd == i.cmd && SpecOperands(p, a) == Operands(a.regs[i.rs1], a.regs[i.rs2], 0)
            && !c.dec2exe.dout.store && c.dec2exe.dout.memData == 0
  {
    hide FrontOk, Nth;
  }
}

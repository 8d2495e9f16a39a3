/**
 When the core moves on: what holds each stage back in one clock, and how fast whole programs run as long as no
 cache stalls.
 */
module Timing {
  import opened Words
  import opened Isa
  import opened Stages
  import opened Fifo
  import opened Core
  import opened Forwarding
  import opened Machine
  import opened Refinement
  import D = Divider
  import CoreFlow

  // ----- one clock

  /** The value of register r is not there yet: its producer is in EXE, or a load of it in MEM. */
  predicate Pending<M>(c: State<M>, r: reg) {
    r != 0 && ((c.dec2exe.valid && c.dec2exe.dout.dest == r)
               || (c.exe2mem.valid && c.exe2mem.dout.load && c.exe2mem.dout.dest == r))
  }

  lemma UnreadExactly<M>(c: State<M>, r: reg, held: word)
    ensures !DecBypass(c, r, held).valid <==> Pending(c, r)
  {}

  /**
   What holds the instruction in if2dec back: EXE keeps its own; or a source is not there yet, and it is a jump or
   EXE holds a load whose destination it names.
   */
  predicate HeldBack<M>(c: State<M>, n: Input) {
    var i := c.if2dec.dout.inst;
    || (c.dec2exe.valid && !ExePop(c, n))
    || ((Pending(c, Radr1(i)) || Pending(c, Radr2(i)))
        && (IsJump(i) || (c.dec2exe.valid && c.dec2exe.dout.load
                          && (c.dec2exe.dout.dest == Radr1(i) || c.dec2exe.dout.dest == Radr2(i)))))
  }

  /** In every clock decode takes the instruction in if2dec exactly if nothing of that holds it back. */
  lemma DecodeTakes<M>(p: Platform<M>, c: State<M>, n: Input)
    requires c.if2dec.valid
    ensures If2decPop(c, n) <==> !HeldBack(c, n)
    ensures var c' := Cycle(p, c, n);
            if HeldBack(c, n) then c'.if2dec == c.if2dec && (c'.dec2exe.valid ==> c'.dec2exe == c.dec2exe)
            else c'.dec2exe == Slot(true, DecodeNow(c))
  {
    hide ExePop, DecodeNow, WritePc, PcNext, DecBypass, Pending, Jump;
    UnreadExactly(c, Radr1(c.if2dec.dout.inst), c.rdata1);
    UnreadExactly(c, Radr2(c.if2dec.dout.inst), c.rdata2);
  }

  /** A source of the instruction in EXE waits for a load in MEM, and no older value of it stands in mem2wbk. */
  predicate LoadWait<M>(c: State<M>, r: reg) { LoadAhead(c, r) && c.mem2wbk.dout.dest != r }

  /** In every clock EXE keeps its instruction exactly for the divider, for the data cache, or for such a load. */
  lemma ExeKeepsExactly<M>(c: State<M>, n: Input)
    requires c.dec2exe.valid
    ensures var d := c.dec2exe.dout;
            !ExePop(c, n) <==>
              || n.divBusy || (c.exe2mem.valid && n.mcacheStall)
              || (!d.blockBp && LoadWait(c, d.radr1)) || (!d.load && !d.blockBp && LoadWait(c, d.radr2))
  {}

  /** A jump is taken in this clock. */
  predicate Jumps<M>(c: State<M>, n: Input) { c.if2dec.valid && If2decPop(c, n) && Jump(c) }

  /**
   In every clock an instruction comes from the instruction cache exactly if that does not stall, a PC waits for it,
   there is room in if2dec, and no jump is being taken.
   */
  lemma FetchTakes<M>(p: Platform<M>, c: State<M>, n: Input)
    ensures var fetches := !n.icStall && c.dec2if.valid && (c.if2dec.valid ==> If2decPop(c, n)) && !Jumps(c, n);
            Cycle(p, c, n).if2dec
            == (if fetches then Slot(true, Fetched(p.prog(c.dec2if.dout), c.dec2if.dout))
                else if c.if2dec.valid && If2decPop(c, n) then Slot(false, c.if2dec.dout) else c.if2dec)
  {
    hide ExePop, R1, R2, BlockInDec, IsJump, Jump;
    NothingTaken(c, n);
    CycleFront(p, c, n);
  }

  lemma NothingTaken<M>(c: State<M>, n: Input)
    ensures !c.if2dec.valid ==> StallSd(c, n) && !If2decPop(c, n)
  {}

  /** A PC waits for the instruction cache after every clock, unless a jump stands in decode and none waited before. */
  lemma PcWaits<M>(p: Platform<M>, c: State<M>, n: Input)
    ensures c.dec2if.valid || !c.if2dec.valid ==> Cycle(p, c, n).dec2if.valid
  {
    hide ExePop, R1, R2, BlockInDec, IsJump, Jump, PcNext;
    NothingTaken(c, n);
    CycleFront(p, c, n);
  }

  // ----- runs in which no cache stalls

  ghost predicate NoDivisions<M>(p: Platform<M>) { forall pc :: !p.prog(pc).Divide? }

  ghost predicate DataReady(ls: seq<Lines>) { forall k :: 0 <= k < |ls| ==> !ls[k].mcacheStall }

  ghost predicate AllOpen(ls: seq<Lines>) { forall k :: 0 <= k < |ls| ==> !ls[k].mcacheStall && !ls[k].icStall }

  /** Behind decode nothing waits: in every clock every instruction there moves on. */
  lemma Flowing<M>(p: Platform<M>, m0: Machine<M>, ls: seq<Lines>) returns (e: nat)
    requires Reset(m0) && NoDivisions(p) && DataReady(ls)
    ensures var r := RunFor(p, m0, ls);
            && RunOk(p, Start(m0.core), r, e) && Inv(p, Start(m0.core), r.machine.core, e)
            && forall l: Lines :: !l.mcacheStall ==>
                 (ExePop(r.machine.core, Inputs(r.machine, l)) <==> r.machine.core.dec2exe.valid)
                 && (MemPop(r.machine.core, Inputs(r.machine, l)) <==> r.machine.core.exe2mem.valid)
  {
    hide RunOk, RunFor, Clear, Inv, ExePop, MemPop, Blocked, Misreads, MisreadFree, Inputs;
    UnstalledIsMisreadFree(p, m0, ls);
    StaysClear(p, m0, ls);
    e := CoreRefinesIsa(p, m0, ls);
    var m := RunFor(p, m0, ls).machine;
    NotDividing(p, Start(m0.core), RunFor(p, m0, ls), e);
    forall l: Lines | !l.mcacheStall
      ensures (ExePop(m.core, Inputs(m, l)) <==> m.core.dec2exe.valid)
              && (MemPop(m.core, Inputs(m, l)) <==> m.core.exe2mem.valid)
    {
      Pops(m.core, Inputs(m, l));
      NeverBusy(p, Start(m0.core), RunFor(p, m0, ls), e, l);
      if m.core.dec2exe.valid { ClearIsDue(p, m.core); }
    }
  }

  lemma NotDividing<M>(p: Platform<M>, s0: Arch<M>, r: Run<M>, e: nat)
    requires NoDivisions(p) && RunOk(p, s0, r, e)
    ensures Inv(p, s0, r.machine.core, e)
    ensures D.Fresh(r.machine.div) && !Offer(r.machine.core).division
  {
    hide Due, SpecOperands, Nth, D.AtWork, DecSlotOk, TraceOk, Inv;
    var c := r.machine.core;
    AgreesLoosely(p, s0, r.machine, r.begun, e);
    if c.dec2exe.valid && IsDivision(c.dec2exe.dout) { DivisionSlot(p, s0, c, e); }
  }

  lemma NeverBusy<M>(p: Platform<M>, s0: Arch<M>, r: Run<M>, e: nat, l: Lines)
    requires NoDivisions(p) && RunOk(p, s0, r, e)
    ensures !Inputs(r.machine, l).divBusy && Inputs(r.machine, l).mcacheStall == l.mcacheStall
    ensures Inputs(r.machine, l).icStall == l.icStall
  {
    hide RunOk, D.Fresh, D.Settle, Offer;
    NotDividing(p, s0, r, e);
    D.IdleStays(r.machine.div, Offer(r.machine.core));
  }

  /** How many PCs decode has taken after the first k clocks. */
  function Taken<M>(p: Platform<M>, m0: Machine<M>, ls: seq<Lines>, k: nat): nat
    requires k <= |ls|
  {
    |At(p, m0, ls, k).trace.consumed|
  }

  /** Where what has been taken stands: one clock later in dec2exe, then in exe2mem, then in mem2wbk. */
  lemma {:induction false} Positions<M>(p: Platform<M>, m0: Machine<M>, ls: seq<Lines>, n: nat)
    requires Reset(m0) && NoDivisions(p) && DataReady(ls) && n <= |ls|
    ensures var c := At(p, m0, ls, n).machine.core;
            && c.dec2exe.valid == (n >= 1 && Taken(p, m0, ls, n) > Taken(p, m0, ls, n - 1))
            && c.exe2mem.valid == (n >= 2 && Taken(p, m0, ls, n - 1) > Taken(p, m0, ls, n - 2))
            && c.mem2wbk.valid == (n >= 3 && Taken(p, m0, ls, n - 2) > Taken(p, m0, ls, n - 3))
  {
    hide At, Taken;
    if n == 0 {
      NothingThere(p, m0, ls);
    } else {
      Positions(p, m0, ls, n - 1);
      AllMove(p, m0, ls, n - 1);
    }
  }

  lemma NothingThere<M>(p: Platform<M>, m0: Machine<M>, ls: seq<Lines>)
    requires Reset(m0)
    ensures var c := At(p, m0, ls, 0).machine.core; !c.dec2exe.valid && !c.exe2mem.valid && !c.mem2wbk.valid
  {
    assert ls[..0] == [];
  }

  /** One clock behind decode. */
  lemma AllMove<M>(p: Platform<M>, m0: Machine<M>, ls: seq<Lines>, k: nat)
    requires Reset(m0) && NoDivisions(p) && DataReady(ls) && k < |ls|
    ensures var c, c' := At(p, m0, ls, k).machine.core, At(p, m0, ls, k + 1).machine.core;
            && c'.dec2exe.valid == (Taken(p, m0, ls, k + 1) > Taken(p, m0, ls, k))
            && c'.exe2mem.valid == c.dec2exe.valid && c'.mem2wbk.valid == c.exe2mem.valid
  {
    hide Cycle, Used, Begun, Inputs, StallSd, ExePop, MemPop, RunOk, Inv, RunFor, Leaves, DecodeNow, ExecuteNow;
    AtNext(p, m0, ls, k);
    var e := Flowing(p, m0, ls[..k]);
    var m := At(p, m0, ls, k).machine;
    ClockCore(p, m, ls[k]);
    CycleDec(p, m.core, Inputs(m, ls[k]));
    CycleBack(p, m.core, Inputs(m, ls[k]));
  }

  /** In every clock at most one PC is taken. */
  lemma OneAtATime<M>(p: Platform<M>, m0: Machine<M>, ls: seq<Lines>, n: nat)
    requires n < |ls|
    ensures Taken(p, m0, ls, n) <= Taken(p, m0, ls, n + 1) <= Taken(p, m0, ls, n) + 1
  {
    hide Clock, Leaves, Used, Begun, StallSd, WbkPop;
    AtNext(p, m0, ls, n);
  }

  /**
   Without data-cache stalls what decode takes retires exactly three clocks later, whatever the program - divisions
   excepted - and the instruction cache do.
   */
  lemma ThreeClocksLater<M>(p: Platform<M>, m0: Machine<M>, ls: seq<Lines>)
    requires Reset(m0) && NoDivisions(p) && DataReady(ls)
    ensures |RunFor(p, m0, ls).trace.retired| == if |ls| < 3 then 0 else Taken(p, m0, ls, |ls| - 3)
  {
    hide RunFor;
    var n := |ls|;
    assert ls[..n] == ls;
    CoreFlow.CoreConserves(p, m0, ls);
    Positions(p, m0, ls, n);
    assert Taken(p, m0, ls, 0) == 0 by { NoneYet(p, m0, ls); }
    if n >= 1 { OneAtATime(p, m0, ls, n - 1); }
    if n >= 2 { OneAtATime(p, m0, ls, n - 2); }
    if n >= 3 { OneAtATime(p, m0, ls, n - 3); }
  }

  lemma NoneYet<M>(p: Platform<M>, m0: Machine<M>, ls: seq<Lines>)
    ensures Taken(p, m0, ls, 0) == 0
  {
    assert ls[..0] == [];
  }

  // ----- the clock in which each instruction is taken

  ghost function InstAt<M>(p: Platform<M>, s0: Arch<M>, k: nat): Inst { p.prog(Nth(p, s0, k).pc) }

  /** The k-th instruction sends control somewhere else. */
  ghost predicate TakesJump<M>(p: Platform<M>, s0: Arch<M>, k: nat) {
    var a, i := Nth(p, s0, k), InstAt(p, s0, k);
    JumpSd(i, a.regs[Radr1(i)], a.regs[Radr2(i)])
  }

  /** One of the registers an instruction names is the destination of another. */
  predicate NamesDest(i: Inst, j: Inst) { Dest(i) == Radr1(j) || Dest(i) == Radr2(j) }

  /** And it is not x0. */
  predicate Feeds(i: Inst, j: Inst) { Dest(i) != 0 && NamesDest(i, j) }

  /** The instruction two places ahead is a load of a source, and is still in MEM. */
  ghost predicate LoadTwoAhead<M>(p: Platform<M>, s0: Arch<M>, k: nat)
    requires k >= 1
    decreases k, 0
  {
    && k >= 2 && Delay(p, s0, k - 1) == 0
    && InstAt(p, s0, k - 2).Load? && Feeds(InstAt(p, s0, k - 2), InstAt(p, s0, k))
  }

  /**
   How many clocks the k-th instruction comes later than right behind the one in front of it, from the program alone.
   Behind a taken jump: one. A jump itself waits until its sources can be read: one clock for the result of the
   instruction in front, two for what that one loads, one for what the one before that loads. Any other instruction
   waits one clock if the one in front is a load whose destination it names, and one of its sources is not there yet.
   */
  ghost function Delay<M>(p: Platform<M>, s0: Arch<M>, k: nat): nat
    decreases k, 1
  {
    if k == 0 then 0
    else
      var i, j := InstAt(p, s0, k - 1), InstAt(p, s0, k);
      if TakesJump(p, s0, k - 1) then 1
      else if IsJump(j) then
        (if Feeds(i, j) then (if i.Load? then 2 else 1) else if LoadTwoAhead(p, s0, k) then 1 else 0)
      else if i.Load? && NamesDest(i, j) && (Feeds(i, j) || LoadTwoAhead(p, s0, k)) then 1
      else 0
  }

  /** The clock in which it is taken, the first clock after reset being 0. */
  ghost function DueClock<M>(p: Platform<M>, s0: Arch<M>, k: nat): nat {
    if k == 0 then 2 else DueClock(p, s0, k - 1) + 1 + Delay(p, s0, k)
  }

  /** Where the instructions stand after n clocks, d of them taken, w clocks after the last. */
  ghost predicate Phase<M>(p: Platform<M>, s0: Arch<M>, c: State<M>, d: nat, n: nat) {
    if d == 0 then
      && n <= 2 && !c.dec2exe.valid && !c.exe2mem.valid && c.if2dec.valid == (n == 2) && c.dec2if.valid == (n >= 1)
    else
      var w := n - 1 - DueClock(p, s0, d - 1);
      && 0 <= w <= Delay(p, s0, d) && c.dec2if.valid
      && c.dec2exe.valid == (w == 0) && c.if2dec.valid == !(w == 0 && TakesJump(p, s0, d - 1))
      && c.exe2mem.valid == ((w == 0 && d >= 2 && Delay(p, s0, d - 1) == 0) || w == 1)
  }

  /** What the stages hold, by number. */
  lemma Contents<M>(p: Platform<M>, s0: Arch<M>, c: State<M>, e: nat)
    requires Inv(p, s0, c, e)
    ensures var d := Decoded(c, e);
            && (c.if2dec.valid ==> c.if2dec.dout.inst == InstAt(p, s0, d))
            && (c.dec2exe.valid ==> d >= 1 && c.dec2exe.dout.dest == Dest(InstAt(p, s0, d - 1))
                                    && c.dec2exe.dout.load == InstAt(p, s0, d - 1).Load?)
            && (c.exe2mem.valid ==>
                  var k := if c.dec2exe.valid then d - 2 else d - 1;
                  k >= 0 && c.exe2mem.dout.dest == Dest(InstAt(p, s0, k))
                      && c.exe2mem.dout.load == InstAt(p, s0, k).Load?)
  {
    hide Nth, ExecRes, DivSpec, Covered, SpecMem;
    if c.dec2exe.valid { ShapeOf(p, Nth(p, s0, e)); }
    if c.exe2mem.valid { ShapeOf(p, Nth(p, s0, e - 1)); }
    hide SpecDec;
  }

  lemma ShapeOf<M>(p: Platform<M>, a: Arch<M>)
    ensures SpecDec(p, a).dest == Dest(p.prog(a.pc)) && SpecDec(p, a).load == p.prog(a.pc).Load?
    ensures SpecExe(p, a).dest == SpecDec(p, a).dest && SpecExe(p, a).load == SpecDec(p, a).load
  {
    hide ExecRes, DivSpec;
    var i := p.prog(a.pc);
    DecodeShape(i, a.pc, Wrap(a.pc + 4), a.regs[Radr1(i)], a.regs[Radr2(i)]);
    hide Decode;
  }

  /** Decode takes the next instruction exactly when its delay is over. */
  lemma TakenWhenDue<M>(p: Platform<M>, s0: Arch<M>, c: State<M>, n: Input, e: nat, k: nat)
    requires Inv(p, s0, c, e) && Phase(p, s0, c, Decoded(c, e), k) && (ExePop(c, n) <==> c.dec2exe.valid)
    ensures c.if2dec.valid && !HeldBack(c, n) <==> k == DueClock(p, s0, Decoded(c, e))
  {
    hide ExePop, Inv, Nth, TakesJump, LoadTwoAhead;
    var d := Decoded(c, e);
    Contents(p, s0, c, e);
    JumpsAreJumps(p, s0, d);
    if d >= 1 {
      SourcesPending(p, s0, c, d, k);
      assert k - 1 - DueClock(p, s0, d - 1) <= 2;
    }
  }

  /** Whether some source of the next instruction is not there yet, by what its neighbours are. */
  lemma SourcesPending<M>(p: Platform<M>, s0: Arch<M>, c: State<M>, d: nat, k: nat)
    requires d >= 1 && Phase(p, s0, c, d, k)
    requires c.if2dec.valid ==> c.if2dec.dout.inst == InstAt(p, s0, d)
    requires c.dec2exe.valid ==> c.dec2exe.dout.dest == Dest(InstAt(p, s0, d - 1))
    requires c.exe2mem.valid ==>
               var i := if c.dec2exe.valid then d - 2 else d - 1;
               i >= 0 && c.exe2mem.dout.dest == Dest(InstAt(p, s0, i)) && c.exe2mem.dout.load == InstAt(p, s0, i).Load?
    ensures var i, j, w := InstAt(p, s0, d - 1), InstAt(p, s0, d), k - 1 - DueClock(p, s0, d - 1);
            c.if2dec.valid ==>
              (Pending(c, Radr1(j)) || Pending(c, Radr2(j)) <==>
                 if w == 0 then Feeds(i, j) || LoadTwoAhead(p, s0, d) else w == 1 && i.Load? && Feeds(i, j))
  {
    hide Nth, TakesJump, Delay, DueClock;
  }

  lemma JumpsAreJumps<M>(p: Platform<M>, s0: Arch<M>, d: nat)
    ensures d >= 1 && TakesJump(p, s0, d - 1) ==> IsJump(InstAt(p, s0, d - 1))
  {
    hide Nth;
    if d >= 1 { OnlyJumpsRead(InstAt(p, s0, d - 1)); }
  }

  /** A jump that is taken from decode is taken by the sequential machine. */
  lemma JumpsRightly<M>(p: Platform<M>, s0: Arch<M>, c: State<M>, n: Input, e: nat)
    requires Inv(p, s0, c, e) && s0.pc % 2 == 0 && c.if2dec.valid && If2decPop(c, n)
    ensures Jump(c) <==> TakesJump(p, s0, Decoded(c, e))
  {
    hide Nth, Cycle, R1, R2, StallSd, JumpSd, Covered, SpecDec, SpecExe, SpecMem;
    ReadsOfDecode(p, s0, c, n, e);
    OnlyJumpsRead(c.if2dec.dout.inst);
  }

  lemma PhaseKeeps<M>(p: Platform<M>, s0: Arch<M>, c: State<M>, n: Input, e: nat, k: nat)
    requires s0.pc % 2 == 0 && Inv(p, s0, c, e) && Phase(p, s0, c, Decoded(c, e), k) && !n.icStall
    requires (ExePop(c, n) <==> c.dec2exe.valid) && (MemPop(c, n) <==> c.exe2mem.valid)
    ensures Phase(p, s0, Cycle(p, c, n), Decoded(c, e) + (if StallSd(c, n) then 0 else 1), k + 1)
  {
    hide ExePop, MemPop, Inv, Cycle, HeldBack, Delay, TakesJump, Jump, DecodeNow, ExecuteNow, Memory, StallSd;
    TakenWhenDue(p, s0, c, n, e, k);
    NothingTaken(c, n);
    if c.if2dec.valid {
      DecodeTakes(p, c, n);
      if If2decPop(c, n) { JumpsRightly(p, s0, c, n, e); }
    }
    FetchTakes(p, c, n);
    PcWaits(p, c, n);
    CycleDec(p, c, n);
    CycleBack(p, c, n);
  }

  lemma {:induction false} InPhase<M>(p: Platform<M>, m0: Machine<M>, ls: seq<Lines>)
    requires Reset(m0) && NoDivisions(p) && AllOpen(ls)
    ensures var r := RunFor(p, m0, ls); Phase(p, Start(m0.core), r.machine.core, |r.trace.consumed|, |ls|)
  {
    hide Phase, Clock, Used, Begun, Inputs, StallSd, ExePop, MemPop, Inv, Agrees, Leaves;
    if ls == [] {
      PhaseAtReset(p, m0);
    } else {
      var k := |ls| - 1;
      InPhase(p, m0, ls[..k]);
      var e := Flowing(p, m0, ls[..k]);
      var r := RunFor(p, m0, ls[..k]);
      ResetOk(p, m0);
      ClockCore(p, r.machine, ls[k]);
      NeverBusy(p, Start(m0.core), r, e, ls[k]);
      PhaseKeeps(p, Start(m0.core), r.machine.core, Inputs(r.machine, ls[k]), e, k);
    }
  }

  lemma PhaseAtReset<M>(p: Platform<M>, m0: Machine<M>)
    requires Reset(m0)
    ensures Phase(p, Start(m0.core), m0.core, 0, 0)
  {}

  lemma {:induction false} DueLater<M>(p: Platform<M>, s0: Arch<M>, j: nat, k: nat)
    requires j <= k
    ensures DueClock(p, s0, j) + (k - j) <= DueClock(p, s0, k)
  {
    hide Delay;
    if j < k { DueLater(p, s0, j, k - 1); }
  }

  /**
   Main theorem on time. From reset, with both caches always ready, every instruction of every program without
   divisions is taken by decode in exactly the clock its delays add up to, and retires three clocks later.
   */
  lemma ScheduleExactly<M>(p: Platform<M>, m0: Machine<M>, ls: seq<Lines>, k: nat)
    requires Reset(m0) && NoDivisions(p) && AllOpen(ls)
    ensures var t, due := RunFor(p, m0, ls).trace, DueClock(p, Start(m0.core), k);
            && (k < |t.consumed| <==> due < |ls|)
            && (k < |t.retired| <==> due + 3 < |ls|)
  {
    hide RunFor, Delay, TakesJump, Start;
    TakenByNow(p, m0, ls, k);
    ThreeClocksLater(p, m0, ls);
    if |ls| >= 3 {
      assert AllOpen(ls[..|ls| - 3]);
      TakenByNow(p, m0, ls[..|ls| - 3], k);
    }
  }

  lemma PhaseBounds<M>(p: Platform<M>, s0: Arch<M>, c: State<M>, d: nat, n: nat)
    requires Phase(p, s0, c, d, n)
    ensures n <= DueClock(p, s0, d) && (d > 0 ==> DueClock(p, s0, d - 1) < n)
  {
    hide Delay;
  }

  lemma TakenByNow<M>(p: Platform<M>, m0: Machine<M>, ls: seq<Lines>, k: nat)
    requires Reset(m0) && NoDivisions(p) && AllOpen(ls)
    ensures k < |RunFor(p, m0, ls).trace.consumed| <==> DueClock(p, Start(m0.core), k) < |ls|
  {
    hide RunFor, Phase, DueClock, Start;
    InPhase(p, m0, ls);
    var d, s0 := |RunFor(p, m0, ls).trace.consumed|, Start(m0.core);
    PhaseBounds(p, s0, RunFor(p, m0, ls).machine.core, d, |ls|);
    if k < d { DueLater(p, s0, k, d - 1); } else { DueLater(p, s0, d, k); }
  }

  // ----- programs without jumps and loads

  ghost predicate Plain<M>(p: Platform<M>) {
    forall pc :: var i := p.prog(pc); i.Op? || i.OpImm? || i.Lui? || i.Auipc? || i.Fence? || i.Store?
  }

  lemma {:induction false} PlainClock<M>(p: Platform<M>, s0: Arch<M>, k: nat)
    requires Plain(p)
    ensures DueClock(p, s0, k) == k + 2
  {
    hide Nth;
    if k > 0 {
      PlainClock(p, s0, k - 1);
      OnlyJumpsRead(InstAt(p, s0, k - 1));
    }
  }

  /** One instruction in every clock: taken from the third clock on, retired from the sixth. */
  lemma PlainRate<M>(p: Platform<M>, m0: Machine<M>, ls: seq<Lines>)
    requires Reset(m0) && Plain(p) && AllOpen(ls)
    ensures var t, n := RunFor(p, m0, ls).trace, |ls|;
            && |t.consumed| == (if n < 2 then 0 else n - 2)
            && |t.retired| == (if n < 5 then 0 else n - 5)
  {
    hide RunFor, DueClock, Start;
    var t, s0 := RunFor(p, m0, ls).trace, Start(m0.core);
    PlainClock(p, s0, |t.consumed|);
    PlainClock(p, s0, |t.retired|);
    ScheduleExactly(p, m0, ls, |t.consumed|);
    ScheduleExactly(p, m0, ls, |t.retired|);
    if |t.consumed| > 0 {
      PlainClock(p, s0, |t.consumed| - 1);
      ScheduleExactly(p, m0, ls, |t.consumed| - 1);
    }
    if |t.retired| > 0 {
      PlainClock(p, s0, |t.retired| - 1);
      ScheduleExactly(p, m0, ls, |t.retired| - 1);
    }
  }
}

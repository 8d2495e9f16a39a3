/**
 The pipelined core refines the sequential machine: every register read by
 decode, every operand used by EXE and every PC consumed is the architectural
 one, over all runs and all stall patterns in which Hazard never fires.
 */
module Forwarding {
  import opened Words
  import opened Isa
  import opened Stages
  import opened Fifo
  import opened Core

  // ----- what each stage holds for the instruction executed from architectural state a

  ghost function SpecDec<M>(p: Platform<M>, a: Arch<M>): DecOut {
    var i := p.prog(a.pc);
    Decode(i, a.pc, Wrap(a.pc + 4), a.regs[Radr1(i)], a.regs[Radr2(i)])
  }

  ghost function SpecExe<M>(p: Platform<M>, a: Arch<M>): ExeOut {
    var d := SpecDec(p, a);
    Execute(d, d.op1, d.op2, d.memData, DivSpec(d.cmd, d.op1, d.op2))
  }

  ghost function SpecMem<M>(p: Platform<M>, a: Arch<M>): MemOut {
    Memory(p, SpecExe(p, a), a.mem)
  }

  lemma DecodeShape(i: Inst, pc: word, readPc: word, r1: word, r2: word)
    ensures var d := Decode(i, pc, readPc, r1, r2);
            && d.radr1 == Radr1(i) && d.radr2 == Radr2(i) && d.dest == Dest(i) && IsDivision(d) == i.Divide?
            && (IsDivision(d) ==> !d.store && !d.load && !d.blockBp)
            && d.blockBp == i.Jalr? && d.load == i.Load? && d.store == i.Store?
            && (d.load ==> d.radr2 == 0)
            && (d.dest != 0 ==> d.wb)
            && (d.radr1 != 0 && !d.blockBp ==> d.op1 == r1)
            && (d.radr2 != 0 ==> if d.store then d.memData == r2 else d.op2 == r2)
            && (d.radr2 != 0 ==> !d.blockBp)
  {
  }

  /** What decode sends depends on the register values only through the operand fields that carry them. */
  lemma DecodeDiffers(i: Inst, pc: word, readPc: word, r1: word, r2: word, s1: word, s2: word)
    requires Radr1(i) == 0 ==> r1 == s1
    requires Radr2(i) == 0 ==> r2 == s2
    ensures var d, e := Decode(i, pc, readPc, r1, r2), Decode(i, pc, readPc, s1, s2);
            && d.(op1 := e.op1, op2 := e.op2, memData := e.memData) == e
            && (r1 == s1 || d.blockBp ==> d.op1 == e.op1)
            && (r2 == s2 ==> d.op2 == e.op2 && d.memData == e.memData)
            && (if e.store then d.op2 == e.op2 else d.memData == e.memData)
  {
  }

  /** One sequential step, taken through the stages. */
  lemma StepByStages<M>(p: Platform<M>, a: Arch<M>)
    requires a.pc % 2 == 0
    ensures var i, m := p.prog(a.pc), SpecMem(p, a);
            && Step(p, a) == Arch(PcOut(i, a.pc, a.regs[Radr1(i)], a.regs[Radr2(i)]),
                                  WriteReg(a.regs, m.dest, m.res),
                                  MemoryAfter(p, SpecExe(p, a), a.mem))
            && Step(p, a).pc % 2 == 0
  {
    hide PcOut, ExecRes, Alu, Wrap, NextPc, DivSpec;
    var i := p.prog(a.pc);
    var r1, r2 := a.regs[Radr1(i)], a.regs[Radr2(i)];
    TargetMeetsIsa(i, a.pc, r1, r2);
    var d := SpecDec(p, a);
    ExecuteMeetsIsa(i, a.pc, r1, r2, DivSpec(d.cmd, d.op1, d.op2));
    NextPcPlain(i, a.pc, r1, r2);
  }

  lemma NextPcPlain(i: Inst, pc: word, r1: word, r2: word)
    ensures i.Jal? ==> NextPc(i, pc, r1, r2) == NextPc(i, pc, 0, 0)
    ensures i.Jalr? ==> NextPc(i, pc, r1, r2) == NextPc(i, pc, r1, 0)
    ensures !i.Jal? && !i.Jalr? && !i.Branch? ==> NextPc(i, pc, r1, r2) == Wrap(pc + 4)
  {
  }

  // ----- the invariant

  /** With e instructions gone from EXE: how many have been decoded, have left MEM, have been written back. */
  function Decoded<M>(c: State<M>, e: nat): nat { if c.dec2exe.valid then e + 1 else e }

  function LeftMem<M>(c: State<M>, e: nat): int { if c.exe2mem.valid then e - 1 else e }

  function Written<M>(c: State<M>, e: nat): int {
    if c.mem2wbk.valid then LeftMem(c, e) - 1 else LeftMem(c, e)
  }

  /** The instruction in EXE reads the destination of the load in (or last in) exe2mem. */
  ghost predicate LoadUse<M>(c: State<M>) {
    var d, x := c.dec2exe.dout, c.exe2mem.dout;
    x.load && x.dest != 0 && (x.dest == d.radr1 || x.dest == d.radr2)
  }

  /** A register that EXE's bypass network will supply, now or once the load ahead has left MEM. */
  ghost predicate Covered<M>(c: State<M>, r: reg) {
    r != 0 && (c.exe2mem.dout.dest == r || (c.exe2mem.valid && c.mem2wbk.dout.dest == r && !LoadUse(c)))
  }

  /** dec2exe holds the decoding of the instruction at a, but perhaps for register values. */
  ghost predicate SlotFields<M>(p: Platform<M>, a: Arch<M>, c: State<M>) {
    var d, s := c.dec2exe.dout, SpecDec(p, a);
    && d.(op1 := s.op1, op2 := s.op2, memData := s.memData) == s
    && (if d.store then d.op2 == s.op2 else d.memData == s.memData)
  }

  /** And register values only where the bypass network covers them. */
  ghost predicate DecSlotOk<M>(p: Platform<M>, a: Arch<M>, c: State<M>) {
    var d, s := c.dec2exe.dout, SpecDec(p, a);
    && SlotFields(p, a, c)
    && (d.op1 == s.op1 || (!d.blockBp && Covered(c, d.radr1)))
    && ((if d.store then d.memData == s.memData else d.op2 == s.op2) || Covered(c, d.radr2))
  }

  /** The front end holds next, the PC of the next instruction to decode, in one of three shapes. */
  ghost predicate FrontOk<M>(p: Platform<M>, next: word, c: State<M>) {
    if c.if2dec.valid then
      && c.if2dec.dout == Fetched(p.prog(next), next)
      && c.dec2if.valid && c.dec2if.dout == Wrap(next + 4) && c.pc == Wrap(next + 4)
    else if c.dec2if.valid then c.dec2if.dout == next && c.pc == next
    else Wrap(c.pc + 4) == next
  }

  /** The core agrees with the sequential machine, but perhaps for the operands of the instruction in EXE. */
  ghost predicate Loose<M>(p: Platform<M>, s0: Arch<M>, c: State<M>, e: nat) {
    var m, w := LeftMem(c, e), Written(c, e);
    && 0 <= w
    && c.regs == Nth(p, s0, w).regs
    && c.mem == Nth(p, s0, m).mem
    && (if e == 0 then c.exe2mem.dout.dest == 0 else c.exe2mem.dout == SpecExe(p, Nth(p, s0, e - 1)))
    && (if m == 0 then c.mem2wbk.dout.dest == 0 else c.mem2wbk.dout == SpecMem(p, Nth(p, s0, m - 1)))
    && (c.dec2exe.valid ==> SlotFields(p, Nth(p, s0, e), c))
    && FrontOk(p, Nth(p, s0, Decoded(c, e)).pc, c)
  }

  ghost predicate Inv<M>(p: Platform<M>, s0: Arch<M>, c: State<M>, e: nat) {
    Loose(p, s0, c, e) && (c.dec2exe.valid ==> DecSlotOk(p, Nth(p, s0, e), c))
  }

  lemma {:induction false} PcsEven<M>(p: Platform<M>, s0: Arch<M>, n: nat)
    requires s0.pc % 2 == 0
    ensures Nth(p, s0, n).pc % 2 == 0
  {
    if n > 0 {
      PcsEven(p, s0, n - 1);
      hide Step;
      StepByStages(p, Nth(p, s0, n - 1));
    }
  }

  /** How register r changes over instruction k. */
  lemma RegStep<M>(p: Platform<M>, s0: Arch<M>, k: nat, r: reg)
    requires s0.pc % 2 == 0
    ensures var a, x, m := Nth(p, s0, k), SpecExe(p, Nth(p, s0, k)), SpecMem(p, Nth(p, s0, k));
            && x.dest == m.dest && m.dest == SpecDec(p, a).dest
            && (!x.load ==> m.res == x.res)
            && (m.dest != 0 ==> m.wb)
            && Nth(p, s0, k + 1).regs[r] == (if r != 0 && m.dest == r then m.res else a.regs[r])
  {
    PcsEven(p, s0, k);
    var a := Nth(p, s0, k);
    hide Step, PcOut, Decode, ExecRes;
    StepByStages(p, a);
    var i := p.prog(a.pc);
    DecodeShape(i, a.pc, Wrap(a.pc + 4), a.regs[Radr1(i)], a.regs[Radr2(i)]);
  }

  /** Decode's bypass network, when it claims a value, reads the architectural register of the next instruction. */
  lemma DecodeReads<M>(p: Platform<M>, s0: Arch<M>, c: State<M>, e: nat, r: reg, held: word)
    requires s0.pc % 2 == 0 && Loose(p, s0, c, e)
    ensures var read := DecBypass(c, r, held);
            read.valid ==> read.data == Nth(p, s0, Decoded(c, e)).regs[r]
  {
    hide SpecDec, SpecExe, SpecMem, Nth, FrontOk, Covered, LoadUse;
    RegStep(p, s0, e, r);
    if e >= 1 { RegStep(p, s0, e - 1, r); }
    if e >= 2 { RegStep(p, s0, e - 2, r); }
  }

  /** The architectural operands of an instruction. */
  ghost function SpecOperands<M>(p: Platform<M>, a: Arch<M>): Operands {
    var d := SpecDec(p, a);
    Operands(d.op1, d.op2, d.memData)
  }

  /** The registers in front of EXE: what exe2mem and mem2wbk hold against what register r should be. */
  lemma Ahead<M>(p: Platform<M>, s0: Arch<M>, c: State<M>, e: nat, r: reg)
    requires s0.pc % 2 == 0 && Loose(p, s0, c, e)
    ensures var x, m, v := c.exe2mem.dout, c.mem2wbk.dout, Nth(p, s0, e).regs[r];
            r != 0 ==>
            && (x.dest == r && !x.load ==> x.res == v)
            && (m.dest == r && x.dest != r ==> m.res == v)
            && (m.dest == r && !c.exe2mem.valid ==> m.res == v)
            && (x.dest == r && !c.exe2mem.valid ==> m.dest == r)
            && (x.dest == r && x.load ==> e >= 1 && v == SpecMem(p, Nth(p, s0, e - 1)).res)
  {
    hide SpecDec, SpecExe, SpecMem, Nth, FrontOk, DecSlotOk;
    if e >= 1 { RegStep(p, s0, e - 1, r); }
    if e >= 2 { RegStep(p, s0, e - 2, r); }
  }

  /** The shape of the decoding that DecSlotOk pins down. */
  lemma SlotShape<M>(p: Platform<M>, a: Arch<M>, c: State<M>)
    requires DecSlotOk(p, a, c)
    ensures var d, s := c.dec2exe.dout, SpecDec(p, a);
            && d.radr1 == s.radr1 && d.radr2 == s.radr2 && d.dest == s.dest
            && d.load == s.load && d.store == s.store && d.blockBp == s.blockBp && d.sel == s.sel && d.cmd == s.cmd
            && (d.load ==> d.radr2 == 0)
            && (d.radr1 != 0 && !d.blockBp ==> s.op1 == a.regs[d.radr1])
            && (d.radr2 != 0 ==> !d.blockBp && (if d.store then s.memData else s.op2) == a.regs[d.radr2])
  {
    var i := p.prog(a.pc);
    DecodeShape(i, a.pc, Wrap(a.pc + 4), a.regs[Radr1(i)], a.regs[Radr2(i)]);
    hide Decode;
  }

  /** What the load in exe2mem is about to deliver is the architectural result. */
  lemma MemoryIsNext<M>(p: Platform<M>, s0: Arch<M>, c: State<M>, e: nat)
    requires Loose(p, s0, c, e) && c.exe2mem.valid
    ensures e >= 1 && MemoryNow(p, c) == SpecMem(p, Nth(p, s0, e - 1))
  {
    hide SpecDec, SpecExe, Nth, FrontOk, Memory, SlotFields;
  }

  /** In every clock the operands due to the instruction in EXE are the architectural ones, shown or not. */
  lemma OperandsDue<M>(p: Platform<M>, s0: Arch<M>, c: State<M>, e: nat)
    requires s0.pc % 2 == 0 && Inv(p, s0, c, e) && c.dec2exe.valid
    ensures Due(p, c) == SpecOperands(p, Nth(p, s0, e))
  {
    hide SpecDec, SpecExe, SpecMem, Nth, FrontOk, MemoryNow;
    var d := c.dec2exe.dout;
    SlotShape(p, Nth(p, s0, e), c);
    Ahead(p, s0, c, e, d.radr1);
    Ahead(p, s0, c, e, d.radr2);
    if c.exe2mem.valid { MemoryIsNext(p, s0, c, e); }
  }

  /** Every operand of an instruction that EXE lets go is the architectural one, unless Hazard fires. */
  lemma ExeReads<M>(p: Platform<M>, s0: Arch<M>, c: State<M>, e: nat)
    requires s0.pc % 2 == 0 && Inv(p, s0, c, e)
    requires c.dec2exe.valid && !Blocked(c) && !Hazard(c)
    ensures Shown(c) == SpecOperands(p, Nth(p, s0, e))
  {
    hide Inv, Due, Shown, SpecOperands, Blocked, Hazard;
    OperandsDue(p, s0, c, e);
    ShownIsDue(p, c);
  }

  /**
   The exact condition, for every state the invariant allows: an instruction leaving EXE has the
   architectural operands if and only if Hazard does not fire or the older value happens to equal
   the one the load delivers - a guard on the core's registers alone.
   */
  lemma OperandsExact<M>(p: Platform<M>, s0: Arch<M>, c: State<M>, e: nat)
    requires s0.pc % 2 == 0 && Inv(p, s0, c, e)
    requires c.dec2exe.valid && !Blocked(c)
    ensures Shown(c) == SpecOperands(p, Nth(p, s0, e)) <==> !Misread(p, c)
  {
    hide Inv, Due, Shown, SpecOperands, Blocked, Misread;
    OperandsDue(p, s0, c, e);
    ShownIsDue(p, c);
  }

  function AfterExe<M>(c: State<M>, n: Input, e: nat): nat { if ExePop(c, n) then e + 1 else e }

  /** The register file, memory and the two FIFOs behind EXE. */
  ghost predicate BackOk<M>(p: Platform<M>, s0: Arch<M>, c: State<M>, e: nat) {
    var m, w := LeftMem(c, e), Written(c, e);
    && 0 <= w
    && c.regs == Nth(p, s0, w).regs
    && c.mem == Nth(p, s0, m).mem
    && (if e == 0 then c.exe2mem.dout.dest == 0 else c.exe2mem.dout == SpecExe(p, Nth(p, s0, e - 1)))
    && (if m == 0 then c.mem2wbk.dout.dest == 0 else c.mem2wbk.dout == SpecMem(p, Nth(p, s0, m - 1)))
  }

  lemma NextState<M>(p: Platform<M>, s0: Arch<M>, k: nat)
    requires s0.pc % 2 == 0
    ensures var a, b := Nth(p, s0, k), Nth(p, s0, k + 1);
            var i, m := p.prog(a.pc), SpecMem(p, a);
            && b.pc == PcOut(i, a.pc, a.regs[Radr1(i)], a.regs[Radr2(i)])
            && b.regs == WriteReg(a.regs, m.dest, m.res)
            && (m.dest != 0 ==> m.wb)
            && b.mem == MemoryAfter(p, SpecExe(p, a), a.mem)
            && b.pc % 2 == 0 && a.pc % 2 == 0
  {
    PcsEven(p, s0, k);
    RegStep(p, s0, k, 0);
    hide Step, SpecMem, SpecExe, PcOut;
    StepByStages(p, Nth(p, s0, k));
  }

  /** EXE sends the architectural result if it shows the operands, or for a division if the divider's is right. */
  lemma SpecExeNow<M>(p: Platform<M>, a: Arch<M>, c: State<M>, n: Input)
    requires SlotFields(p, a, c)
    ensures var s := SpecOperands(p, a);
            if IsDivision(c.dec2exe.dout)
              then ExecuteNow(c, n) == SpecExe(p, a) <==> n.divRes == DivSpec(c.dec2exe.dout.cmd, s.op1, s.op2)
              else Shown(c) == s ==> ExecuteNow(c, n) == SpecExe(p, a)
  {
    hide Covered, DivSpec, AluOut, Shifter, ExeBypass1;
    var i := p.prog(a.pc);
    DecodeShape(i, a.pc, Wrap(a.pc + 4), a.regs[Radr1(i)], a.regs[Radr2(i)]);
    hide Decode;
  }

  /** What EXE lets go in this clock is what the sequential machine computes. */
  ghost predicate SendsRight<M>(p: Platform<M>, s0: Arch<M>, c: State<M>, n: Input, e: nat) {
    ExePop(c, n) ==> ExecuteNow(c, n) == SpecExe(p, Nth(p, s0, e))
  }

  /** Nothing ever fills mem2wbk for longer than a clock, so MEM waits only for the cache. */
  lemma Pops<M>(c: State<M>, n: Input)
    ensures MemPop(c, n) <==> c.exe2mem.valid && !n.mcacheStall
    ensures ExePop(c, n) <==> c.dec2exe.valid && !Blocked(c) && !n.divBusy && (c.exe2mem.valid ==> MemPop(c, n))
    ensures Blocked(c) ==> c.exe2mem.valid
  {
  }

  /** The back half of a clock edge. */
  lemma CycleBack<M>(p: Platform<M>, c: State<M>, n: Input)
    ensures var c', m := Cycle(p, c, n), c.mem2wbk.dout;
            && c'.regs == (if m.wb && c.mem2wbk.valid then WriteReg(c.regs, m.dest, m.res) else c.regs)
            && c'.mem == (if MemPop(c, n) then MemoryAfter(p, c.exe2mem.dout, c.mem) else c.mem)
            && c'.exe2mem.valid == (ExePop(c, n) || (c.exe2mem.valid && !MemPop(c, n)))
            && c'.exe2mem.dout == (if ExePop(c, n) then ExecuteNow(c, n) else c.exe2mem.dout)
            && c'.mem2wbk.valid == MemPop(c, n)
            && c'.mem2wbk.dout == (if MemPop(c, n) then Memory(p, c.exe2mem.dout, c.mem) else m)
  {
    Pops(c, n);
    hide Blocked, R1, R2, StallSd, PcNext, WritePc, Dec2ifPop, If2decPop, If2decPush, DecodeNow, ExecuteNow, Memory,
         MemoryAfter, WriteReg;
  }

  lemma RegsKeep<M>(p: Platform<M>, s0: Arch<M>, c: State<M>, n: Input, e: nat)
    requires s0.pc % 2 == 0 && Loose(p, s0, c, e)
    ensures Cycle(p, c, n).regs == Nth(p, s0, LeftMem(c, e)).regs
  {
    hide SpecDec, SpecExe, SpecMem, FrontOk, Cycle, DecSlotOk, ExecuteNow, PcOut, Nth, MemoryAfter, Memory, MemPop,
         ExePop;
    CycleBack(p, c, n);
    if c.mem2wbk.valid { NextState(p, s0, Written(c, e)); }
  }

  lemma MemKeeps<M>(p: Platform<M>, s0: Arch<M>, c: State<M>, n: Input, e: nat)
    requires s0.pc % 2 == 0 && Loose(p, s0, c, e)
    ensures var c', m := Cycle(p, c, n), LeftMem(c, e) + if MemPop(c, n) then 1 else 0;
            && c'.mem == Nth(p, s0, m).mem
            && (if m == 0 then c'.mem2wbk.dout.dest == 0 else c'.mem2wbk.dout == SpecMem(p, Nth(p, s0, m - 1)))
  {
    hide SpecDec, SpecExe, FrontOk, Cycle, DecSlotOk, ExecuteNow, PcOut, Nth, MemoryAfter, Memory, MemPop, ExePop,
         WriteReg;
    Pops(c, n);
    CycleBack(p, c, n);
    if c.exe2mem.valid { NextState(p, s0, LeftMem(c, e)); }
  }

  lemma ExeKeeps<M>(p: Platform<M>, s0: Arch<M>, c: State<M>, n: Input, e: nat)
    requires s0.pc % 2 == 0 && Loose(p, s0, c, e)
    requires SendsRight(p, s0, c, n, e)
    ensures var c', e' := Cycle(p, c, n), AfterExe(c, n, e);
            if e' == 0 then c'.exe2mem.dout.dest == 0 else c'.exe2mem.dout == SpecExe(p, Nth(p, s0, e' - 1))
  {
    hide SpecDec, SpecExe, SpecMem, FrontOk, Cycle, DecSlotOk, ExecuteNow, Nth, MemoryAfter, Memory, MemPop, ExePop,
         Hazard;
    Pops(c, n);
    CycleBack(p, c, n);
  }

  lemma BackKeeps<M>(p: Platform<M>, s0: Arch<M>, c: State<M>, n: Input, e: nat)
    requires s0.pc % 2 == 0 && Loose(p, s0, c, e)
    requires SendsRight(p, s0, c, n, e)
    ensures BackOk(p, s0, Cycle(p, c, n), AfterExe(c, n, e))
  {
    hide SpecDec, SpecExe, SpecMem, FrontOk, Cycle, DecSlotOk, ExecuteNow, Nth, MemoryAfter, Memory, MemPop, ExePop,
         Hazard, WriteReg;
    RegsKeep(p, s0, c, n, e);
    MemKeeps(p, s0, c, n, e);
    ExeKeeps(p, s0, c, n, e);
    Pops(c, n);
    CycleBack(p, c, n);
  }

  /** The decode side of a clock edge. */
  lemma CycleDec<M>(p: Platform<M>, c: State<M>, n: Input)
    ensures var c' := Cycle(p, c, n);
            && c'.dec2exe.valid == (!StallSd(c, n) || (c.dec2exe.valid && !ExePop(c, n)))
            && c'.dec2exe.dout == (if !StallSd(c, n) then DecodeNow(c) else c.dec2exe.dout)
    ensures !StallSd(c, n) ==> c.if2dec.valid && (c.dec2exe.valid ==> ExePop(c, n))
    ensures !StallSd(c, n) && (!R1(c).valid || !R2(c).valid) ==> !IsJump(c.if2dec.dout.inst) && !BlockInDec(c)
  {
    hide ExePop, MemPop, R1, R2, BlockInDec, DecodeNow, PcNext, WritePc, Dec2ifPop, If2decPop, If2decPush, ExecuteNow,
         Memory, MemoryAfter, WriteReg;
  }

  /** While EXE waits for MEM, its instruction keeps the operands it has or will be given. */
  lemma SlotWaits<M>(p: Platform<M>, s0: Arch<M>, c: State<M>, n: Input, e: nat)
    requires s0.pc % 2 == 0 && Inv(p, s0, c, e)
    requires c.dec2exe.valid && !ExePop(c, n) && StallSd(c, n) && (n.divBusy ==> c.exe2mem.valid && !MemPop(c, n))
    ensures DecSlotOk(p, Nth(p, s0, e), Cycle(p, c, n))
  {
    hide SpecDec, SpecExe, SpecMem, FrontOk, Cycle, ExecuteNow, DecodeNow, Nth, MemoryAfter, Memory, MemPop, ExePop,
         WriteReg, StallSd, Decode;
    CycleDec(p, c, n);
    CycleBack(p, c, n);
    Pops(c, n);
    SlotShape(p, Nth(p, s0, e), c);
  }

  /** A source register that decode could not read is one EXE's bypass network will supply. */
  lemma InvalidIsCovered<M>(p: Platform<M>, c: State<M>, n: Input, r: reg, held: word)
    requires !StallSd(c, n) && !DecBypass(c, r, held).valid
    requires !R1(c).valid || !R2(c).valid
    ensures Covered(Cycle(p, c, n), r)
  {
    hide Cycle, ExecuteNow, DecodeNow, MemoryAfter, Memory, MemPop, ExePop, WriteReg, StallSd, Decode, R1, R2, IsJump;
    CycleDec(p, c, n);
    CycleBack(p, c, n);
    Pops(c, n);
    NowShape(p, c, n);
  }

  lemma NowShape<M>(p: Platform<M>, c: State<M>, n: Input)
    ensures var i, d := c.if2dec.dout.inst, DecodeNow(c);
            d.radr1 == Radr1(i) && d.radr2 == Radr2(i) && d.blockBp == i.Jalr?
    ensures ExecuteNow(c, n).dest == c.dec2exe.dout.dest && ExecuteNow(c, n).load == c.dec2exe.dout.load
    ensures Memory(p, c.exe2mem.dout, c.mem).dest == c.exe2mem.dout.dest
  {
    hide ExecRes, ExeBypass1, ExeOp2, ExeData;
  }

  /** An instruction entering dec2exe brings its architectural operands or will be supplied with them. */
  lemma SlotArrives<M>(p: Platform<M>, s0: Arch<M>, c: State<M>, n: Input, e: nat)
    requires s0.pc % 2 == 0 && Loose(p, s0, c, e) && !StallSd(c, n)
    ensures AfterExe(c, n, e) == Decoded(c, e)
    ensures DecSlotOk(p, Nth(p, s0, Decoded(c, e)), Cycle(p, c, n))
  {
    hide SpecExe, SpecMem, Cycle, ExecuteNow, Nth, MemoryAfter, Memory, MemPop, ExePop, WriteReg, StallSd, Decode,
         Covered, DecSlotOk, R1, R2, DecBypass, BlockInDec, Blocked;
    CycleDec(p, c, n);
    Pops(c, n);
    ReadsOfDecode(p, s0, c, n, e);
    SlotFrom(p, Nth(p, s0, Decoded(c, e)), Cycle(p, c, n), R1(c).data, R2(c).data);
  }

  lemma ReadsOfDecode<M>(p: Platform<M>, s0: Arch<M>, c: State<M>, n: Input, e: nat)
    requires s0.pc % 2 == 0 && Loose(p, s0, c, e)
    ensures var a, i := Nth(p, s0, Decoded(c, e)), c.if2dec.dout.inst;
            && (R1(c).valid ==> R1(c).data == a.regs[Radr1(i)])
            && (R2(c).valid ==> R2(c).data == a.regs[Radr2(i)])
            && (Radr1(i) == 0 ==> R1(c).valid) && (Radr2(i) == 0 ==> R2(c).valid)
            && (!StallSd(c, n) && !R1(c).valid ==> Covered(Cycle(p, c, n), Radr1(i)))
            && (!StallSd(c, n) && !R2(c).valid ==> Covered(Cycle(p, c, n), Radr2(i)))
            && (!StallSd(c, n) && IsJump(i) ==> R1(c).valid && R2(c).valid)
  {
    hide SpecDec, SpecExe, SpecMem, FrontOk, Cycle, Nth, StallSd, Covered, DecSlotOk, Inv, BlockInDec;
    var i := c.if2dec.dout.inst;
    DecodeReads(p, s0, c, e, Radr1(i), c.rdata1);
    DecodeReads(p, s0, c, e, Radr2(i), c.rdata2);
    CycleDec(p, c, n);
    if !StallSd(c, n) && !R1(c).valid { InvalidIsCovered(p, c, n, Radr1(i), c.rdata1); }
    if !StallSd(c, n) && !R2(c).valid { InvalidIsCovered(p, c, n, Radr2(i), c.rdata2); }
  }

  lemma SlotFrom<M>(p: Platform<M>, a: Arch<M>, c': State<M>, r1: word, r2: word)
    requires var i := p.prog(a.pc);
             && c'.dec2exe.dout == Decode(i, a.pc, Wrap(a.pc + 4), r1, r2)
             && (r1 == a.regs[Radr1(i)] || (Radr1(i) != 0 && Covered(c', Radr1(i))))
             && (r2 == a.regs[Radr2(i)] || (Radr2(i) != 0 && Covered(c', Radr2(i))))
             && (i.Jalr? ==> r1 == a.regs[Radr1(i)])
    ensures DecSlotOk(p, a, c')
  {
    hide Decode, Covered, Wrap;
    var i := p.prog(a.pc);
    DecodeDiffers(i, a.pc, Wrap(a.pc + 4), r1, r2, a.regs[Radr1(i)], a.regs[Radr2(i)]);
    DecodeShape(i, a.pc, Wrap(a.pc + 4), r1, r2);
  }

  /** The front half of a clock edge. */
  lemma CycleFront<M>(p: Platform<M>, c: State<M>, n: Input)
    ensures var c' := Cycle(p, c, n);
            && c'.pc == (if WritePc(c, n) then PcNext(c) else c.pc)
            && c'.dec2if == c.dec2if.Clock(WritePc(c, n), Dec2ifPop(c, n), PcNext(c))
            && c'.if2dec == c.if2dec.Clock(If2decPush(c, n), If2decPop(c, n),
               Fetched(p.prog(c.dec2if.dout), c.dec2if.dout))
  {
    hide ExePop, MemPop, R1, R2, StallSd, DecodeNow, PcNext, WritePc, Dec2ifPop, If2decPop, If2decPush, ExecuteNow,
         Memory, MemoryAfter, WriteReg;
  }

  /**
   An instruction that waits in decode keeps the front end as it is; without one the front end runs ahead by one
   fetch.
   */
  lemma FrontWaits<M>(p: Platform<M>, next: word, c: State<M>, n: Input)
    requires FrontOk(p, next, c) && StallSd(c, n)
    ensures FrontOk(p, next, Cycle(p, c, n))
  {
    hide Cycle, StallSd, Jump, Wrap, PcNext;
    CycleFront(p, c, n);
    PcNextCases(c);
  }

  lemma PcNextCases<M>(c: State<M>)
    ensures PcNext(c) == if !AddOffset(c) then Wrap(c.pc + 4)
                         else Wrap(c.if2dec.dout.pc + OffsetSd(c.if2dec.dout.inst, c.pc, R1(c).data))
  {
  }

  /** When decode takes an instruction, the front end moves to the PC that instruction selects. */
  lemma FrontMoves<M>(p: Platform<M>, next: word, c: State<M>, n: Input)
    requires FrontOk(p, next, c) && !StallSd(c, n) && c.if2dec.valid
    ensures var i := p.prog(next);
            FrontOk(p, if Jump(c) then Wrap(next + OffsetSd(i, Wrap(next + 4), R1(c).data))
                else Wrap(next + 4), Cycle(p, c, n))
  {
    hide Cycle, StallSd, Jump, Wrap, PcNext, OffsetSd, R1;
    CycleFront(p, c, n);
    PcNextCases(c);
  }

  lemma FrontKeeps<M>(p: Platform<M>, s0: Arch<M>, c: State<M>, n: Input, e: nat)
    requires s0.pc % 2 == 0 && Loose(p, s0, c, e)
    ensures var d := Decoded(c, e);
            FrontOk(p, Nth(p, s0, if StallSd(c, n) then d else d + 1).pc, Cycle(p, c, n))
  {
    hide SpecDec, SpecExe, SpecMem, Cycle, Nth, StallSd, DecSlotOk, R1, R2, OffsetSd, JumpSd, Wrap;
    var d := Decoded(c, e);
    CycleDec(p, c, n);
    if StallSd(c, n) {
      FrontWaits(p, Nth(p, s0, d).pc, c, n);
    } else {
      FrontMoves(p, Nth(p, s0, d).pc, c, n);
      ReadsOfDecode(p, s0, c, n, e);
      NextState(p, s0, d);
      OnlyJumpsRead(c.if2dec.dout.inst);
    }
  }

  /** An instruction that is no jump ignores the register values when the PC is chosen. */
  lemma OnlyJumpsRead(i: Inst)
    ensures !IsJump(i) ==> forall r1, r2 :: !JumpSd(i, r1, r2)
  {
  }

  /** Whatever EXE waits for, the core keeps agreeing as long as it sends right results. */
  lemma LooseKeeps<M>(p: Platform<M>, s0: Arch<M>, c: State<M>, n: Input, e: nat)
    requires s0.pc % 2 == 0 && Loose(p, s0, c, e) && SendsRight(p, s0, c, n, e)
    ensures Loose(p, s0, Cycle(p, c, n), AfterExe(c, n, e))
    ensures !StallSd(c, n) ==> DecSlotOk(p, Nth(p, s0, AfterExe(c, n, e)), Cycle(p, c, n))
    ensures Cycle(p, c, n).dec2exe.valid && StallSd(c, n) ==>
              c.dec2exe.valid && !ExePop(c, n) && Cycle(p, c, n).dec2exe.dout == c.dec2exe.dout
  {
    hide SpecDec, SpecExe, SpecMem, FrontOk, Cycle, Nth, MemPop, ExePop, StallSd, DecodeNow, SendsRight;
    BackKeeps(p, s0, c, n, e);
    FrontKeeps(p, s0, c, n, e);
    CycleDec(p, c, n);
    Pops(c, n);
    if !StallSd(c, n) { SlotArrives(p, s0, c, n, e); }
  }

  /** If no division holds EXE up, so do the operands. */
  lemma CycleKeeps<M>(p: Platform<M>, s0: Arch<M>, c: State<M>, n: Input, e: nat)
    requires s0.pc % 2 == 0 && Inv(p, s0, c, e) && SendsRight(p, s0, c, n, e)
    requires n.divBusy && c.dec2exe.valid ==> c.exe2mem.valid && !MemPop(c, n)
    ensures Inv(p, s0, Cycle(p, c, n), AfterExe(c, n, e))
  {
    hide SpecDec, SpecExe, SpecMem, FrontOk, Cycle, DecSlotOk, Nth, MemPop, ExePop, StallSd, DecodeNow, Loose,
         SendsRight;
    LooseKeeps(p, s0, c, n, e);
    if StallSd(c, n) && c.dec2exe.valid && !ExePop(c, n) { SlotWaits(p, s0, c, n, e); }
  }
}

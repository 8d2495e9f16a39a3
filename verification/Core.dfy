/**
 One clock of the pipelined core: fetch, decode, execute, memory and write-back
 around the FIFOs dec2if, if2dec, dec2exe, exe2mem and mem2wbk. Combinational
 signals are functions of the registers; Cycle is the clock edge.
 RV32I code and divisions, branch prediction off, no exception; the instruction
 cache and the data cache may stall in any cycle. What the divider does is an
 input here; module Machine puts the two together.
 */
module Core {
  import opened Words
  import opened Isa
  import opened Stages
  import opened Fifo

  datatype Fetched = Fetched(inst: Inst, pc: word)

  /** The registers. rdata1, rdata2, op1 and op2 are signals that keep their value when a bypass does not drive them. */
  datatype State<M> = State(
    regs: regfile, pc: word,
    dec2if: Slot<word>, if2dec: Slot<Fetched>,
    dec2exe: Slot<DecOut>, exe2mem: Slot<ExeOut>, mem2wbk: Slot<MemOut>,
    rdata1: word, rdata2: word, op1: word, op2: word, mem: M)

  /** The two stall lines from outside, STALL_SIC and MCACHE_STALL_SM, and the divider's BUSY and result. */
  datatype Input = Input(icStall: bool, mcacheStall: bool, divBusy: bool, divRes: word)

  /** After reset all FIFOs are empty, all outputs and registers zero. */
  ghost predicate AfterReset<M>(c: State<M>) {
    && !c.dec2if.valid && !c.if2dec.valid && !c.dec2exe.valid && !c.exe2mem.valid && !c.mem2wbk.valid
    && c.exe2mem.dout.dest == 0 && c.mem2wbk.dout.dest == 0
    && c.pc % 2 == 0
  }

  // ----- write-back and memory

  function WbkPop<M>(c: State<M>): bool { !c.mem2wbk.Empty() }

  function MemPop<M>(c: State<M>, n: Input): bool {
    !(n.mcacheStall || c.mem2wbk.Full(WbkPop(c)) || c.exe2mem.Empty())
  }

  // ----- execute: bypasses and manage_fifo

  /** An operand chosen by exec::bypasses, or the wait for a load, which leaves the signal as it was. */
  datatype Operand = Operand(blocked: bool, value: word)

  function ExeBypass1<M>(c: State<M>): Operand {
    var d, x, m := c.dec2exe.dout, c.exe2mem.dout, c.mem2wbk.dout;
    if d.radr1 == 0 || d.blockBp then Operand(false, d.op1)
    else if x.dest == d.radr1 && !x.load then Operand(false, x.res)
    else if m.dest == d.radr1 then Operand(false, m.res)
    else if x.dest == d.radr1 && x.load && !c.exe2mem.Empty() then Operand(true, c.op1)
    else Operand(false, d.op1)
  }

  /** The second source as far as the bypass network supplies it; otherwise the value decode sent. */
  function ExeBypass2<M>(c: State<M>, fromDecode: word, held: word): Operand {
    var d, x, m := c.dec2exe.dout, c.exe2mem.dout, c.mem2wbk.dout;
    if d.radr2 == 0 || d.load || d.blockBp then Operand(false, fromDecode)
    else if x.dest == d.radr2 && !x.load then Operand(false, x.res)
    else if m.dest == d.radr2 then Operand(false, m.res)
    else if x.dest == d.radr2 && x.load && !c.exe2mem.Empty() then Operand(true, held)
    else Operand(false, fromDecode)
  }

  /** On stores the second source is the data, and the address offset stays. */
  function ExeOp2<M>(c: State<M>): word {
    var d := c.dec2exe.dout;
    if d.store && !Blocked2(c) then d.op2 else ExeBypass2(c, d.op2, c.op2).value
  }

  function ExeData<M>(c: State<M>): word {
    var d := c.dec2exe.dout;
    if d.store then ExeBypass2(c, d.memData, d.memData).value else d.memData
  }

  function Blocked2<M>(c: State<M>): bool { ExeBypass2(c, c.dec2exe.dout.op2, c.op2).blocked }

  function Blocked<M>(c: State<M>): bool {
    ExeBypass1(c).blocked || Blocked2(c)
  }

  function ExePop<M>(c: State<M>, n: Input): bool {
    !(c.exe2mem.Full(MemPop(c, n)) || c.dec2exe.Empty() || Blocked(c) || n.divBusy)
  }

  datatype Operands = Operands(op1: word, op2: word, data: word)

  /** op1_se, op2_se and the store data in a clock. */
  function Shown<M>(c: State<M>): Operands { Operands(ExeBypass1(c).value, ExeOp2(c), ExeData(c)) }

  // ----- decode: bypasses, stall_method

  datatype Read = Read(valid: bool, data: word)

  function DecBypass<M>(c: State<M>, radr: reg, held: word): Read {
    if radr == 0 then Read(true, c.regs[0])
    else if radr == c.dec2exe.dout.dest && !c.dec2exe.Empty() then Read(false, held)
    else if radr == c.exe2mem.dout.dest && c.exe2mem.dout.load && !c.exe2mem.Empty() then Read(false, held)
    else if radr == c.exe2mem.dout.dest && !c.exe2mem.Empty() then Read(true, c.exe2mem.dout.res)
    else if radr == c.mem2wbk.dout.dest && !c.mem2wbk.Empty() then Read(true, c.mem2wbk.dout.res)
    else Read(true, c.regs[radr])
  }

  function R1<M>(c: State<M>): Read { DecBypass(c, Radr1(c.if2dec.dout.inst), c.rdata1) }

  function R2<M>(c: State<M>): Read { DecBypass(c, Radr2(c.if2dec.dout.inst), c.rdata2) }

  function IsJump(i: Inst): bool { i.Branch? || i.Jalr? || i.Jal? }

  /** A load in EXE whose destination the instruction in decode reads. */
  function BlockInDec<M>(c: State<M>): bool {
    var d, i := c.dec2exe.dout, c.if2dec.dout.inst;
    (Radr1(i) == d.dest && d.load && !c.dec2exe.Empty()) || (Radr2(i) == d.dest && d.load && !c.dec2exe.Empty())
  }

  function StallSd<M>(c: State<M>, n: Input): bool {
    ((!R1(c).valid || !R2(c).valid) && (IsJump(c.if2dec.dout.inst) || BlockInDec(c)))
    || c.if2dec.Empty() || c.dec2exe.Full(ExePop(c, n))
  }

  // ----- fetch and pc_inc

  function Jump<M>(c: State<M>): bool { JumpSd(c.if2dec.dout.inst, R1(c).data, R2(c).data) }

  function AddOffset<M>(c: State<M>): bool { Jump(c) && !c.if2dec.Empty() }

  function Flush<M>(c: State<M>, n: Input): bool { Jump(c) && !StallSd(c, n) }

  function If2decPop<M>(c: State<M>, n: Input): bool { !StallSd(c, n) }

  function FetchStall<M>(c: State<M>, n: Input): bool {
    n.icStall || c.if2dec.Full(If2decPop(c, n)) || c.dec2if.Empty()
  }

  function If2decPush<M>(c: State<M>, n: Input): bool { !Flush(c, n) && !FetchStall(c, n) }

  function Dec2ifPop<M>(c: State<M>, n: Input): bool { Flush(c, n) || !FetchStall(c, n) }

  /** WRITE_PC_ENABLE_SD, which is also the push into dec2if. */
  function WritePc<M>(c: State<M>, n: Input): bool {
    var full := c.dec2if.Full(Dec2ifPop(c, n));
    (!AddOffset(c) && !full) || (AddOffset(c) && !full && !StallSd(c, n))
  }

  function Offset<M>(c: State<M>): word { OffsetSd(c.if2dec.dout.inst, c.pc, R1(c).data) }

  function PcNext<M>(c: State<M>): word {
    if !AddOffset(c) then Wrap(c.pc + 4)
    else Wrap(c.if2dec.dout.pc + Offset(c))
  }

  // ----- the clock edge

  function DecodeNow<M>(c: State<M>): DecOut {
    Decode(c.if2dec.dout.inst, c.if2dec.dout.pc, c.pc, R1(c).data, R2(c).data)
  }

  function ExecuteNow<M>(c: State<M>, n: Input): ExeOut {
    Execute(c.dec2exe.dout, ExeBypass1(c).value, ExeOp2(c), ExeData(c), n.divRes)
  }

  function MemoryNow<M>(p: Platform<M>, c: State<M>): MemOut { Memory(p, c.exe2mem.dout, c.mem) }

  function Cycle<M>(p: Platform<M>, c: State<M>, n: Input): State<M> {
    State(
      if c.mem2wbk.dout.wb && !c.mem2wbk.Empty() then WriteReg(c.regs, c.mem2wbk.dout.dest, c.mem2wbk.dout.res)
          else c.regs,
      if WritePc(c, n) then PcNext(c) else c.pc,
      c.dec2if.Clock(WritePc(c, n), Dec2ifPop(c, n), PcNext(c)),
      c.if2dec.Clock(If2decPush(c, n), If2decPop(c, n), Fetched(p.prog(c.dec2if.dout), c.dec2if.dout)),
      c.dec2exe.Clock(!StallSd(c, n), ExePop(c, n), DecodeNow(c)),
      c.exe2mem.Clock(ExePop(c, n), MemPop(c, n), ExecuteNow(c, n)),
      c.mem2wbk.Clock(MemPop(c, n), WbkPop(c), MemoryNow(p, c)),
      R1(c).data, R2(c).data, ExeBypass1(c).value, ExeOp2(c),
      if MemPop(c, n) then MemoryAfter(p, c.exe2mem.dout, c.mem) else c.mem)
  }

  /**
   The guard of the M-to-E arm firing for a value the load in exe2mem has not
   delivered yet: exec::bypasses tests that arm before the load-block arm.
   */
  predicate Hazard<M>(c: State<M>) {
    var d, x, m := c.dec2exe.dout, c.exe2mem.dout, c.mem2wbk.dout;
    && !c.dec2exe.Empty() && !c.exe2mem.Empty() && x.load && x.dest == m.dest
    && ((d.radr1 != 0 && !d.blockBp && d.radr1 == x.dest)
        || (d.radr2 != 0 && !d.load && !d.blockBp && d.radr2 == x.dest))
  }

  /** The load in exe2mem is to deliver register r. */
  predicate LoadAhead<M>(c: State<M>, r: reg) {
    r != 0 && !c.exe2mem.Empty() && c.exe2mem.dout.load && c.exe2mem.dout.dest == r
  }

  /** What the operands should be, from the registers: a load in exe2mem goes before everything else. */
  function Due<M>(p: Platform<M>, c: State<M>): Operands {
    var d, loaded := c.dec2exe.dout, MemoryNow(p, c).res;
    var second := !d.load && !d.blockBp && LoadAhead(c, d.radr2);
    Operands(if !d.blockBp && LoadAhead(c, d.radr1) then loaded else ExeBypass1(c).value,
             if d.store then d.op2 else if second then loaded else ExeOp2(c),
             if d.store && second then loaded else ExeData(c))
  }

  /** The hazard fires and makes a difference. */
  predicate Misread<M>(p: Platform<M>, c: State<M>) { Hazard(c) && c.mem2wbk.dout.res != MemoryNow(p, c).res }

  /** An instruction in EXE that is not blocked sees what it should exactly if it does not misread. */
  lemma ShownIsDue<M>(p: Platform<M>, c: State<M>)
    requires c.dec2exe.valid && !Blocked(c)
    ensures Shown(c) == Due(p, c) <==> !Misread(p, c)
  {
    hide Memory;
  }
}

/**
 The core in the form of its source: stage methods that drive signal fields,
 settled in dependency order, and a clock edge that loads the registers.
 ClockCycle is proved equal to Core.Cycle.
 */
module Pipeline {
  import opened Words
  import opened Isa
  import opened Stages
  import opened Fifo
  import C = Core

  class RiverCore<M> {
    // registers
    var REG_RR: regfile
    var REG_PC: word
    var dec2if: Slot<word>
    var if2dec: Slot<C.Fetched>
    var dec2exe: Slot<DecOut>
    var exe2mem: Slot<ExeOut>
    var mem2wbk: Slot<MemOut>
    var ram: M
    // signals that keep their value when not driven
    var rdata1_sd: word
    var rdata2_sd: word
    var op1_se: word
    var op2_se: word
    // decode
    var r1_valid_sd: bool
    var r2_valid_sd: bool
    var block_in_dec: bool
    var stall_sd: bool
    var jump_sd: bool
    var offset_branch_sd: word
    var dec2exe_in_sd: DecOut
    var IF2DEC_POP_SD: bool
    var IF2DEC_FLUSH_SD: bool
    var WRITE_PC_ENABLE_SD: bool
    var WRITE_PC_SD: word
    // fetch
    var if2dec_push: bool
    var DEC2IF_POP_SI: bool
    // execute
    var bp_mem_data_sd: word
    var blocked: bool
    var exe2mem_push_se: bool
    var exe2mem_din_se: ExeOut
    // memory and write-back
    var mem2wbk_push_sm: bool
    var mem2wbk_din_sm: MemOut
    var MEM2WBK_POP_SW: bool

    ghost function State(): C.State<M>
      reads `REG_RR, `REG_PC, `dec2if, `if2dec, `dec2exe, `exe2mem, `mem2wbk
      reads `rdata1_sd, `rdata2_sd, `op1_se, `op2_se, `ram
    {
      C.State(REG_RR, REG_PC, dec2if, if2dec, dec2exe, exe2mem, mem2wbk, rdata1_sd, rdata2_sd, op1_se, op2_se, ram)
    }

    constructor (c: C.State<M>)
      ensures State() == c
    {
      REG_RR, REG_PC, ram := c.regs, c.pc, c.mem;
      dec2if, if2dec, dec2exe, exe2mem, mem2wbk := c.dec2if, c.if2dec, c.dec2exe, c.exe2mem, c.mem2wbk;
      rdata1_sd, rdata2_sd, op1_se, op2_se := c.rdata1, c.rdata2, c.op1, c.op2;
      dec2exe_in_sd, exe2mem_din_se, mem2wbk_din_sm := c.dec2exe.dout, c.exe2mem.dout, c.mem2wbk.dout;
    }

    method WbkMethod()
      modifies `MEM2WBK_POP_SW
      ensures MEM2WBK_POP_SW == C.WbkPop(State())
    {
      MEM2WBK_POP_SW := !mem2wbk.Empty();
    }

    method MemStage(p: Platform<M>, n: C.Input)
      requires MEM2WBK_POP_SW == C.WbkPop(State())
      modifies `mem2wbk_push_sm, `mem2wbk_din_sm
      ensures mem2wbk_push_sm == C.MemPop(State(), n)
      ensures mem2wbk_din_sm == C.MemoryNow(p, State())
    {
      var stall := n.mcacheStall || mem2wbk.Full(MEM2WBK_POP_SW) || exe2mem.Empty();
      mem2wbk_push_sm := !stall;
      var data_sm: word;
      if exe2mem.dout.load {
        data_sm := p.load(exe2mem.dout.size, exe2mem.dout.signExt, exe2mem.dout.res, ram);
      } else {
        data_sm := exe2mem.dout.res;
      }
      mem2wbk_din_sm := MemOut(data_sm, exe2mem.dout.dest, exe2mem.dout.wb || exe2mem.dout.load);
    }

    /** The arms for the first source. */
    method ExeBypassRs1() returns (blocked_var: bool)
      modifies `op1_se
      ensures C.Operand(blocked_var, op1_se) == C.ExeBypass1(old(State()))
    {
      var d, x, m := dec2exe.dout, exe2mem.dout, mem2wbk.dout;
      blocked_var := false;
      if d.radr1 == 0 || d.blockBp {
        op1_se := d.op1;
      } else if x.dest == d.radr1 && !x.load {
        op1_se := x.res;
      } else if m.dest == d.radr1 {
        op1_se := m.res;
      } else if x.dest == d.radr1 && x.load && !exe2mem.Empty() {
        blocked_var := true;
      } else {
        op1_se := d.op1;
      }
    }

    /** The arms for the second source, which on stores is the data. */
    method ExeBypassRs2() returns (blocked_var: bool)
      modifies `op2_se, `bp_mem_data_sd
      ensures blocked_var == C.Blocked2(old(State()))
      ensures op2_se == C.ExeOp2(old(State())) && bp_mem_data_sd == C.ExeData(old(State()))
    {
      var d, x, m := dec2exe.dout, exe2mem.dout, mem2wbk.dout;
      blocked_var := false;
      var bp_mem_data_var := d.memData;
      if d.radr2 == 0 || d.load || d.blockBp {
        op2_se := d.op2;
      } else if x.dest == d.radr2 && !x.load {
        if d.store {
          bp_mem_data_var := x.res;
          op2_se := d.op2;
        } else {
          op2_se := x.res;
        }
      } else if m.dest == d.radr2 {
        if d.store {
          bp_mem_data_var := m.res;
          op2_se := d.op2;
        } else {
          op2_se := m.res;
        }
      } else if x.dest == d.radr2 && x.load && !exe2mem.Empty() {
        blocked_var := true;
      } else {
        op2_se := d.op2;
      }
      bp_mem_data_sd := bp_mem_data_var;
    }

    /** Driving op1_se and op2_se, where a blocked operand keeps its value; driving them again changes nothing. */
    method ExeBypasses()
      modifies `op1_se, `op2_se, `bp_mem_data_sd, `blocked
      ensures State() == ExeDriven(old(State())) && blocked == C.Blocked(State())
      ensures C.Operands(op1_se, op2_se, bp_mem_data_sd) == C.Shown(State())
    {
      ExeDrivenShows(State());
      hide C.ExeBypass1, C.ExeBypass2, C.ExeOp2, C.ExeData, C.Blocked2;
      ghost var c := State();
      var blocked1 := ExeBypassRs1();
      SameSecond(c, op1_se);
      var blocked2 := ExeBypassRs2();
      blocked := blocked1 || blocked2;
    }

    method ExeManageFifo(n: C.Input)
      requires mem2wbk_push_sm == C.MemPop(State(), n) && blocked == C.Blocked(State())
      modifies `exe2mem_push_se
      ensures exe2mem_push_se == C.ExePop(State(), n)
    {
      var stall := exe2mem.Full(mem2wbk_push_sm) || dec2exe.Empty() || blocked || n.divBusy;
      exe2mem_push_se := !stall;
    }

    /** The result of the arithmetic unit, or of one of the two comparisons. */
    method AluResult(alu_out: word, ghost divRes: word) returns (exe_res: word)
      requires dec2exe.dout.sel != 2 && !IsDivision(dec2exe.dout)
      requires alu_out == AluOut(dec2exe.dout.cmd, op1_se, if dec2exe.dout.negOp2 then Not(op2_se)
               else op2_se, dec2exe.dout.negOp2)
      ensures exe_res == ExecRes(dec2exe.dout, op1_se, op2_se, divRes)
    {
      hide AluOut, Shifter, Bit31, Not;
      if dec2exe.dout.slt {
        if Bit31(op1_se) && !Bit31(op2_se) {
          exe_res := 1;
        } else if !Bit31(op1_se) && Bit31(op2_se) {
          exe_res := 0;
        } else if op1_se == op2_se {
          exe_res := 0;
        } else {
          exe_res := if Bit31(alu_out) then 1 else 0;
        }
      } else if dec2exe.dout.sltu {
        if Bit31(op1_se) && !Bit31(op2_se) {
          exe_res := 0;
        } else if !Bit31(op1_se) && Bit31(op2_se) {
          exe_res := 1;
        } else if op1_se == op2_se {
          exe_res := 0;
        } else {
          exe_res := if Bit31(alu_out) then 1 else 0;
        }
      } else {
        exe_res := alu_out;
      }
    }

    method ExeResult(n: C.Input)
      modifies `exe2mem_din_se
      ensures exe2mem_din_se == Execute(State().dec2exe.dout, op1_se, op2_se, bp_mem_data_sd, n.divRes)
    {
      hide AluOut, Bit31, Not;
      var d := dec2exe.dout;
      var alu_in_op2 := if d.negOp2 then Not(op2_se) else op2_se;
      var alu_out := AluOut(d.cmd, op1_se, alu_in_op2, d.negOp2);
      var exe_res: word;
      if d.sel == 8 {
        exe_res := n.divRes;
      } else if d.sel == 2 {
        exe_res := Shifter(d.cmd, op1_se, op2_se % 32);
      } else {
        exe_res := AluResult(alu_out, n.divRes);
      }
      exe2mem_din_se := ExeOut(exe_res, bp_mem_data_sd, d.dest, d.wb, d.load, d.store, d.size, d.signExt);
    }

    method DecBypassRs1()
      modifies `rdata1_sd, `r1_valid_sd
      ensures C.Read(r1_valid_sd, rdata1_sd) == C.R1(old(State()))
    {
      var d, x, m := dec2exe.dout, exe2mem.dout, mem2wbk.dout;
      var radr1 := Radr1(if2dec.dout.inst);
      if radr1 == 0 {
        rdata1_sd := REG_RR[0];
        r1_valid_sd := true;
      } else if radr1 == d.dest && !dec2exe.Empty() {
        r1_valid_sd := false;
      } else if radr1 == x.dest && x.load && !exe2mem.Empty() {
        r1_valid_sd := false;
      } else if radr1 == x.dest && !exe2mem.Empty() {
        r1_valid_sd := true;
        rdata1_sd := x.res;
      } else if radr1 == m.dest && !mem2wbk.Empty() {
        r1_valid_sd := true;
        rdata1_sd := m.res;
      } else {
        r1_valid_sd := true;
        rdata1_sd := REG_RR[radr1];
      }
    }

    method DecBypassRs2()
      modifies `rdata2_sd, `r2_valid_sd
      ensures C.Read(r2_valid_sd, rdata2_sd) == C.R2(old(State()))
    {
      var d, x, m := dec2exe.dout, exe2mem.dout, mem2wbk.dout;
      var radr2 := Radr2(if2dec.dout.inst);
      if radr2 == 0 {
        rdata2_sd := REG_RR[0];
        r2_valid_sd := true;
      } else if radr2 == d.dest && !dec2exe.Empty() {
        r2_valid_sd := false;
      } else if radr2 == x.dest && x.load && !exe2mem.Empty() {
        r2_valid_sd := false;
      } else if radr2 == x.dest && !exe2mem.Empty() {
        r2_valid_sd := true;
        rdata2_sd := x.res;
      } else if radr2 == m.dest && !mem2wbk.Empty() {
        r2_valid_sd := true;
        rdata2_sd := m.res;
      } else {
        r2_valid_sd := true;
        rdata2_sd := REG_RR[radr2];
      }
    }

    /** Driving rdata1_sd and rdata2_sd leaves everything else as it was, and driving them again changes nothing. */
    method DecBypasses()
      modifies `rdata1_sd, `rdata2_sd, `r1_valid_sd, `r2_valid_sd, `block_in_dec
      ensures State() == DecDriven(old(State()))
      ensures C.Read(r1_valid_sd, rdata1_sd) == C.R1(State()) && C.Read(r2_valid_sd, rdata2_sd) == C.R2(State())
      ensures State().rdata1 == C.R1(State()).data && State().rdata2 == C.R2(State()).data
      ensures block_in_dec == C.BlockInDec(State())
    {
      DecDrivenReads(State());
      DecBypassRs1();
      DecBypassRs2();
      LoadInExe();
    }

    /** A load in EXE whose destination the instruction in decode reads. */
    method LoadInExe()
      modifies `block_in_dec
      ensures block_in_dec == C.BlockInDec(State())
    {
      var d := dec2exe.dout;
      var radr1, radr2 := Radr1(if2dec.dout.inst), Radr2(if2dec.dout.inst);
      block_in_dec := (radr1 == d.dest && d.load && !dec2exe.Empty())
          || (radr2 == d.dest && d.load && !dec2exe.Empty());
    }

    method PostRegReadDecoding()
      requires C.Read(r1_valid_sd, rdata1_sd) == C.R1(State()) && C.Read(r2_valid_sd, rdata2_sd) == C.R2(State())
      modifies `jump_sd, `offset_branch_sd, `dec2exe_in_sd
      ensures jump_sd == C.Jump(State())
      ensures offset_branch_sd == C.Offset(State())
      ensures dec2exe_in_sd == C.DecodeNow(State())
    {
      hide C.R1, C.R2, Wrap, ClearBit0, BranchSd;
      var i := if2dec.dout.inst;
      offset_branch_sd := 0;
      jump_sd := false;
      match i {
        case Branch(cond, _, _, offset) =>
          offset_branch_sd := offset;
          jump_sd := BranchSd(cond, rdata1_sd, rdata2_sd);
        case Jalr(_, _, imm) =>
          offset_branch_sd := ClearBit0(Wrap(imm + rdata1_sd - REG_PC + 4));
          jump_sd := true;
        case Jal(_, offset) =>
          offset_branch_sd := offset;
          jump_sd := true;
        case _ =>
      }
      dec2exe_in_sd := Decode(i, if2dec.dout.pc, REG_PC, rdata1_sd, rdata2_sd);
    }

    method StallMethod(ghost n: C.Input)
      requires r1_valid_sd == C.R1(State()).valid && r2_valid_sd == C.R2(State()).valid
      requires block_in_dec == C.BlockInDec(State()) && exe2mem_push_se == C.ExePop(State(), n)
      modifies `stall_sd
      ensures stall_sd == C.StallSd(State(), n)
    {
      hide C.R1, C.R2, C.BlockInDec, C.ExePop;
      var i := if2dec.dout.inst;
      stall_sd := ((!r1_valid_sd || !r2_valid_sd) && (i.Branch? || i.Jalr? || i.Jal? || block_in_dec))
                  || if2dec.Empty() || dec2exe.Full(exe2mem_push_se);
    }

    /** The if2dec half of pc_inc, which fetch depends on. */
    method PcIncPop(ghost n: C.Input)
      requires stall_sd == C.StallSd(State(), n) && jump_sd == C.Jump(State())
      modifies `IF2DEC_POP_SD, `IF2DEC_FLUSH_SD
      ensures IF2DEC_POP_SD == C.If2decPop(State(), n) && IF2DEC_FLUSH_SD == C.Flush(State(), n)
    {
      hide C.StallSd, C.Jump;
      if jump_sd && !stall_sd {
        IF2DEC_POP_SD := true;
        IF2DEC_FLUSH_SD := true;
      } else if !jump_sd && !stall_sd {
        IF2DEC_POP_SD := true;
        IF2DEC_FLUSH_SD := false;
      } else {
        IF2DEC_POP_SD := false;
        IF2DEC_FLUSH_SD := false;
      }
    }

    method FetchMethod(n: C.Input)
      requires IF2DEC_POP_SD == C.If2decPop(State(), n) && IF2DEC_FLUSH_SD == C.Flush(State(), n)
      modifies `if2dec_push, `DEC2IF_POP_SI
      ensures if2dec_push == C.If2decPush(State(), n) && DEC2IF_POP_SI == C.Dec2ifPop(State(), n)
    {
      hide C.If2decPop, C.Flush;
      if IF2DEC_FLUSH_SD {
        if2dec_push := false;
        DEC2IF_POP_SI := true;
      } else {
        var stall := n.icStall || if2dec.Full(IF2DEC_POP_SD) || dec2if.Empty();
        if2dec_push := !stall;
        DEC2IF_POP_SI := !stall;
      }
    }

    /** The PC half of pc_inc, once it is settled whether dec2if is full. */
    method PcIncPush(ghost n: C.Input)
      requires stall_sd == C.StallSd(State(), n) && jump_sd == C.Jump(State())
      requires offset_branch_sd == C.Offset(State())
      requires DEC2IF_POP_SI == C.Dec2ifPop(State(), n)
      modifies `WRITE_PC_ENABLE_SD, `WRITE_PC_SD
      ensures WRITE_PC_ENABLE_SD == C.WritePc(State(), n)
      ensures WRITE_PC_ENABLE_SD ==> WRITE_PC_SD == C.PcNext(State())
    {
      hide C.StallSd, C.Jump, C.Dec2ifPop, C.R1, C.Offset, Wrap;
      var pc_out := REG_PC;
      var add_offset_to_pc := jump_sd && !if2dec.Empty();
      var dec2if_full_sd := dec2if.Full(DEC2IF_POP_SI);
      if !add_offset_to_pc && !dec2if_full_sd {
        pc_out := Wrap(REG_PC + 4);
        WRITE_PC_ENABLE_SD := true;
      } else if add_offset_to_pc && !dec2if_full_sd && !stall_sd {
        pc_out := Wrap(if2dec.dout.pc + offset_branch_sd);
        WRITE_PC_ENABLE_SD := true;
      } else {
        WRITE_PC_ENABLE_SD := false;
      }
      WRITE_PC_SD := pc_out;
    }

    /** All signals driven as the combinational logic of the state asks for. */
    ghost predicate Settled(p: Platform<M>, n: C.Input)
      reads this
    {
      var c := State();
      && MEM2WBK_POP_SW == C.WbkPop(c)
      && mem2wbk_push_sm == C.MemPop(c, n) && mem2wbk_din_sm == C.MemoryNow(p, State())
      && exe2mem_push_se == C.ExePop(c, n) && exe2mem_din_se == C.ExecuteNow(c, n)
      && stall_sd == C.StallSd(c, n) && dec2exe_in_sd == C.DecodeNow(c)
      && IF2DEC_POP_SD == C.If2decPop(c, n) && if2dec_push == C.If2decPush(c, n)
      && DEC2IF_POP_SI == C.Dec2ifPop(c, n)
      && WRITE_PC_ENABLE_SD == C.WritePc(c, n) && (WRITE_PC_ENABLE_SD ==> WRITE_PC_SD == C.PcNext(c))
      && Holds(c)
    }

    /** The edge for PC, register file and memory; a store reaches the memory when it leaves MEM. */
    method EdgeRegisters(p: Platform<M>)
      modifies `REG_RR, `REG_PC, `ram
      ensures var c := old(State());
              State() == c.(
                regs := if c.mem2wbk.dout.dest != 0 && c.mem2wbk.dout.wb && !c.mem2wbk.Empty()
                        then c.regs[c.mem2wbk.dout.dest := c.mem2wbk.dout.res] else c.regs,
                pc := if WRITE_PC_ENABLE_SD then WRITE_PC_SD else c.pc,
                mem := if mem2wbk_push_sm && c.exe2mem.dout.store
                       then p.store(c.exe2mem.dout.size, c.exe2mem.dout.res, c.exe2mem.dout.data, c.mem) else c.mem)
    {
      hide Slot.Empty;
      if WRITE_PC_ENABLE_SD {
        REG_PC := WRITE_PC_SD;
      }
      if mem2wbk.dout.dest != 0 {
        if mem2wbk.dout.wb && !mem2wbk.Empty() {
          REG_RR := REG_RR[mem2wbk.dout.dest := mem2wbk.dout.res];
        }
      }
      if mem2wbk_push_sm && exe2mem.dout.store {
        ram := p.store(exe2mem.dout.size, exe2mem.dout.res, exe2mem.dout.data, ram);
      }
    }

    /** The edge for the FIFOs between fetch and decode. */
    method EdgeFront(p: Platform<M>)
      modifies `dec2if, `if2dec
      ensures var c := old(State());
              State() == c.(
                dec2if := c.dec2if.Clock(WRITE_PC_ENABLE_SD, DEC2IF_POP_SI, WRITE_PC_SD),
                if2dec := c.if2dec.Clock(if2dec_push, IF2DEC_POP_SD, C.Fetched(p.prog(c.dec2if.dout), c.dec2if.dout)))
    {
      hide Slot.Clock;
      if2dec := if2dec.Clock(if2dec_push, IF2DEC_POP_SD, C.Fetched(p.prog(dec2if.dout), dec2if.dout));
      dec2if := dec2if.Clock(WRITE_PC_ENABLE_SD, DEC2IF_POP_SI, WRITE_PC_SD);
    }

    /** The edge for the FIFOs from decode to write-back. */
    method EdgeBack()
      modifies `dec2exe, `exe2mem, `mem2wbk
      ensures var c := old(State());
              State() == c.(
                dec2exe := c.dec2exe.Clock(!stall_sd, exe2mem_push_se, dec2exe_in_sd),
                exe2mem := c.exe2mem.Clock(exe2mem_push_se, mem2wbk_push_sm, exe2mem_din_se),
                mem2wbk := c.mem2wbk.Clock(mem2wbk_push_sm, MEM2WBK_POP_SW, mem2wbk_din_sm))
    {
      hide Slot.Clock;
      dec2exe := dec2exe.Clock(!stall_sd, exe2mem_push_se, dec2exe_in_sd);
      mem2wbk := mem2wbk.Clock(mem2wbk_push_sm, MEM2WBK_POP_SW, mem2wbk_din_sm);
      exe2mem := exe2mem.Clock(exe2mem_push_se, mem2wbk_push_sm, exe2mem_din_se);
    }

    /** The cycle from the settled signals, whatever the two that are not always driven hold. */
    lemma SettledCycle(p: Platform<M>, n: C.Input)
      requires Settled(p, n)
      ensures var c := State();
              C.Cycle(p, c, n) == C.State(
                if c.mem2wbk.dout.dest != 0 && c.mem2wbk.dout.wb && !c.mem2wbk.Empty()
                  then c.regs[c.mem2wbk.dout.dest := c.mem2wbk.dout.res] else c.regs,
                if WRITE_PC_ENABLE_SD then WRITE_PC_SD else c.pc,
                c.dec2if.Clock(WRITE_PC_ENABLE_SD, DEC2IF_POP_SI, WRITE_PC_SD),
                c.if2dec.Clock(if2dec_push, IF2DEC_POP_SD, C.Fetched(p.prog(c.dec2if.dout), c.dec2if.dout)),
                c.dec2exe.Clock(!stall_sd, exe2mem_push_se, dec2exe_in_sd),
                c.exe2mem.Clock(exe2mem_push_se, mem2wbk_push_sm, exe2mem_din_se),
                c.mem2wbk.Clock(mem2wbk_push_sm, MEM2WBK_POP_SW, mem2wbk_din_sm),
                c.rdata1, c.rdata2, c.op1, c.op2,
                if mem2wbk_push_sm && c.exe2mem.dout.store
                  then p.store(c.exe2mem.dout.size, c.exe2mem.dout.res, c.exe2mem.dout.data, c.mem) else c.mem)
    {
      hide RiverCore.State, C.WbkPop, C.MemPop, C.MemoryNow, C.ExePop, C.ExecuteNow, C.StallSd, C.DecodeNow,
           C.If2decPop, C.If2decPush, C.Dec2ifPop, C.WritePc, C.PcNext, C.R1, C.R2, Slot.Empty;
    }

    method Edge(p: Platform<M>, ghost n: C.Input)
      requires Settled(p, n)
      modifies `REG_RR, `REG_PC, `dec2if, `if2dec, `dec2exe, `exe2mem, `mem2wbk, `ram
      ensures State() == C.Cycle(p, old(State()), n)
    {
      hide RiverCore.State, C.Cycle, RiverCore.Settled, Slot.Clock, Slot.Empty;
      SettledCycle(p, n);
      EdgeRegisters(p);
      EdgeFront(p);
      EdgeBack();
    }

    /** Write-back and memory. */
    method SettleMem(p: Platform<M>, n: C.Input)
      modifies `MEM2WBK_POP_SW, `mem2wbk_push_sm, `mem2wbk_din_sm
      ensures MEM2WBK_POP_SW == C.WbkPop(State())
      ensures mem2wbk_push_sm == C.MemPop(State(), n) && mem2wbk_din_sm == C.MemoryNow(p, State())
    {
      hide RiverCore.State, C.WbkPop, C.MemPop, C.MemoryNow;
      WbkMethod();
      MemStage(p, n);
    }

    /** Execute, once its operands are driven. */
    method SettleExe(n: C.Input)
      requires mem2wbk_push_sm == C.MemPop(State(), n) && blocked == C.Blocked(State())
      requires C.Operands(op1_se, op2_se, bp_mem_data_sd) == C.Shown(State())
      modifies `exe2mem_push_se, `exe2mem_din_se
      ensures exe2mem_push_se == C.ExePop(State(), n) && exe2mem_din_se == C.ExecuteNow(State(), n)
    {
      hide RiverCore.State, C.MemPop, C.ExePop, Execute, C.Blocked, C.ExeBypass1, C.ExeOp2, C.ExeData;
      ExeManageFifo(n);
      ExeResult(n);
    }

    /** Decode, pc_inc and fetch. */
    method SettleFront(n: C.Input)
      requires C.Read(r1_valid_sd, rdata1_sd) == C.R1(State()) && C.Read(r2_valid_sd, rdata2_sd) == C.R2(State())
      requires block_in_dec == C.BlockInDec(State()) && exe2mem_push_se == C.ExePop(State(), n)
      modifies `jump_sd, `offset_branch_sd, `dec2exe_in_sd, `stall_sd, `IF2DEC_POP_SD, `IF2DEC_FLUSH_SD, `if2dec_push,
               `DEC2IF_POP_SI, `WRITE_PC_ENABLE_SD, `WRITE_PC_SD
      ensures stall_sd == C.StallSd(State(), n) && dec2exe_in_sd == C.DecodeNow(State())
      ensures IF2DEC_POP_SD == C.If2decPop(State(), n) && if2dec_push == C.If2decPush(State(), n)
      ensures DEC2IF_POP_SI == C.Dec2ifPop(State(), n)
      ensures WRITE_PC_ENABLE_SD == C.WritePc(State(), n) && (WRITE_PC_ENABLE_SD ==> WRITE_PC_SD == C.PcNext(State()))
    {
      hide RiverCore.State, C.ExePop, C.StallSd, C.DecodeNow, C.If2decPop, C.If2decPush, C.Dec2ifPop, C.WritePc,
           C.PcNext, C.R1, C.R2, C.Jump, C.BlockInDec, C.Flush, C.Offset;
      PostRegReadDecoding();
      StallMethod(n);
      PcIncPop(n);
      FetchMethod(n);
      PcIncPush(n);
    }

    /** The two bypass networks. */
    method SettleBypasses()
      modifies `rdata1_sd, `rdata2_sd, `r1_valid_sd, `r2_valid_sd, `block_in_dec
      modifies `op1_se, `op2_se, `bp_mem_data_sd, `blocked
      ensures State() == Driven(old(State()))
      ensures C.Read(r1_valid_sd, rdata1_sd) == C.R1(State()) && C.Read(r2_valid_sd, rdata2_sd) == C.R2(State())
      ensures block_in_dec == C.BlockInDec(State()) && blocked == C.Blocked(State())
      ensures C.Operands(op1_se, op2_se, bp_mem_data_sd) == C.Shown(State()) && Holds(State())
    {
      hide C.R1, C.R2, C.BlockInDec, C.Blocked, C.ExeBypass1, C.ExeOp2, C.ExeData, DecDriven, ExeDriven;
      ghost var c := State();
      DecBypasses();
      ExeDrivenReads(DecDriven(c));
      ExeBypasses();
    }

    /** All combinational logic, in dependency order. */
    method Settle(p: Platform<M>, n: C.Input)
      modifies `rdata1_sd, `rdata2_sd, `r1_valid_sd, `r2_valid_sd, `block_in_dec
      modifies `MEM2WBK_POP_SW, `mem2wbk_push_sm, `mem2wbk_din_sm
      modifies `op1_se, `op2_se, `bp_mem_data_sd, `blocked, `exe2mem_push_se, `exe2mem_din_se
      modifies `jump_sd, `offset_branch_sd, `dec2exe_in_sd, `stall_sd, `IF2DEC_POP_SD, `IF2DEC_FLUSH_SD
      modifies `if2dec_push, `DEC2IF_POP_SI, `WRITE_PC_ENABLE_SD, `WRITE_PC_SD
      ensures Settled(p, n) && State() == Driven(old(State()))
    {
      hide C.WbkPop, C.MemPop, C.MemoryNow, C.ExePop, Execute, C.ExecuteNow, C.StallSd, C.DecodeNow, C.If2decPop;
      hide C.If2decPush, C.Dec2ifPop, C.WritePc, C.PcNext, C.R1, C.R2, C.BlockInDec, C.Blocked, C.Shown, Driven, Holds;
      hide RiverCore.State;
      SettleBypasses();
      SettleMem(p, n);
      SettleExe(n);
      SettleFront(n);
    }

    /** One clock of the whole core. */
    method ClockCycle(p: Platform<M>, n: C.Input)
      modifies this
      ensures State() == C.Cycle(p, old(State()), n)
    {
      hide RiverCore.State, C.Cycle, Driven;
      DrivenCycle(p, State(), n);
      Settle(p, n);
      Edge(p, n);
    }
  }

  /** The state once decode's held read-data signals, or EXE's held operand signals, have been driven. */
  function DecDriven<M>(c: C.State<M>): C.State<M> { c.(rdata1 := C.R1(c).data, rdata2 := C.R2(c).data) }

  function ExeDriven<M>(c: C.State<M>): C.State<M> { c.(op1 := C.ExeBypass1(c).value, op2 := C.ExeOp2(c)) }

  /** The held signals stand at the values the bypasses give them. */
  predicate Holds<M>(c: C.State<M>) {
    && c.rdata1 == C.R1(c).data && c.rdata2 == C.R2(c).data
    && c.op1 == C.ExeBypass1(c).value && c.op2 == C.ExeOp2(c)
  }

  function Driven<M>(c: C.State<M>): C.State<M> { ExeDriven(DecDriven(c)) }

  lemma DecDrivenReads<M>(c: C.State<M>)
    ensures C.R1(DecDriven(c)) == C.R1(c) && C.R2(DecDriven(c)) == C.R2(c)
    ensures C.BlockInDec(DecDriven(c)) == C.BlockInDec(c)
  {
  }

  lemma DecDrivenShows<M>(c: C.State<M>)
    ensures C.Shown(DecDriven(c)) == C.Shown(c) && C.Blocked(DecDriven(c)) == C.Blocked(c)
  {
  }

  lemma ExeDrivenReads<M>(c: C.State<M>)
    ensures C.R1(ExeDriven(c)) == C.R1(c) && C.R2(ExeDriven(c)) == C.R2(c)
    ensures C.BlockInDec(ExeDriven(c)) == C.BlockInDec(c)
  {
  }

  lemma ExeDrivenShows<M>(c: C.State<M>)
    ensures C.Shown(ExeDriven(c)) == C.Shown(c) && C.Blocked(ExeDriven(c)) == C.Blocked(c)
  {
  }

  lemma SameSecond<M>(c: C.State<M>, op1: word)
    ensures var c' := c.(op1 := op1);
            C.Blocked2(c') == C.Blocked2(c) && C.ExeOp2(c') == C.ExeOp2(c) && C.ExeData(c') == C.ExeData(c)
  {
  }

  lemma DrivenCycle<M>(p: Platform<M>, c: C.State<M>, n: C.Input)
    ensures C.Cycle(p, Driven(c), n) == C.Cycle(p, c, n)
  {
    DecDrivenReads(c);
    DecDrivenShows(c);
    ExeDrivenReads(DecDriven(c));
    ExeDrivenShows(DecDriven(c));
    hide Decode, Execute, C.R1, C.R2, WriteReg, Memory, MemoryAfter, C.BlockInDec, C.Blocked, C.ExeBypass1, C.ExeOp2,
         C.ExeData;
  }
}

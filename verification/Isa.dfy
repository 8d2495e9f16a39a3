/**
 The sequential machine that the pipelined core must look like: RV32I without
 CSR instructions and the divisions of RV32M, one instruction at a time, as the
 RISC-V ISA Manual Volume I (20191213), chapter 2 and section 7.2, describes
 them. Data memory is a parameter.
 */
module Isa {
  import opened Words

  type reg = x: int | 0 <= x < 32

  /** The register file; x0 always reads as zero. */
  type regfile = s: seq<word> | |s| == 32 && s[0] == 0 witness seq(32, _ => 0)

  datatype AluOp = Add | Sub | Sll | Slt | Sltu | Xor | Srl | Sra | Or | And

  /** There is no subtract-immediate instruction. */
  type ImmOp = o: AluOp | !o.Sub? witness Add

  datatype Cond = Eq | Ne | Lt | Ge | Ltu | Geu

  /** Branch and jump offsets are multiples of two. */
  type evenword = x: word | x % 2 == 0

  /** Instructions with their immediates already extended to 32 bits. */
  datatype Inst =
    | Op(op: AluOp, rd: reg, rs1: reg, rs2: reg)
    | OpImm(iop: ImmOp, rd: reg, rs1: reg, imm: word)
    | Load(size: nat, signed: bool, rd: reg, rs1: reg, imm: word)
    | Store(size: nat, rs1: reg, rs2: reg, imm: word)
    | Branch(cond: Cond, rs1: reg, rs2: reg, offset: evenword)
    | Lui(rd: reg, imm: word)
    | Auipc(rd: reg, imm: word)
    | Jal(rd: reg, offset: evenword)
    | Jalr(rd: reg, rs1: reg, imm: word)
    | Fence
    | Divide(cmd: command, rd: reg, rs1: reg, rs2: reg)

  const REMU := 0
  const DIV := 1
  const DIVU := 2
  const REM := 3

  type command = c: nat | c <= 3

  // ----- division
  /** Division that rounds toward zero. */
  function Quot(a: int, b: int): int
    requires b != 0
  {
    var q := Abs(a) / Abs(b);
    if (a < 0) != (b < 0) then -q else q
  }

  /** The remainder, with the sign of the dividend. */
  function Rem(a: int, b: int): int
    requires b != 0
  {
    var r := Abs(a) % Abs(b);
    if a < 0 then -r else r
  }

  function Abs(x: int): nat { if x < 0 then -x else x }

  function DivSpec(c: command, a: word, b: word): word {
    if c == DIV then (if b == 0 then 0xFFFF_FFFF else Wrap(Quot(Signed(a), Signed(b))))
    else if c == DIVU then (if b == 0 then 0xFFFF_FFFF else a / b)
    else if c == REM then (if b == 0 then a else Wrap(Rem(Signed(a), Signed(b))))
    else (if b == 0 then a else a % b)
  }

  // ----- one instruction

  /**
   What surrounds the core: instruction memory, and how a data memory of type M
   answers a load (size, signed, address) and takes a store (size, address, data).
   */
  datatype Platform<!M> = Platform(
    prog: word -> Inst,
    load: (nat, bool, word, M) -> word,
    store: (nat, word, word, M) -> M)

  datatype Arch<M> = Arch(pc: word, regs: regfile, mem: M)

  function Alu(op: AluOp, a: word, b: word): word {
    match op
    case Add => Wrap(a + b)
    case Sub => Wrap(a - b)
    case Sll => Wrap(a * Pow2(b % 32))
    case Slt => if Signed(a) < Signed(b) then 1 else 0
    case Sltu => if a < b then 1 else 0
    case Xor => Words.Xor(a, b)
    case Srl => Wrap(a / Pow2(b % 32))
    case Sra => Wrap(Signed(a) / Pow2(b % 32))
    case Or => Words.Or(a, b)
    case And => Words.And(a, b)
  }

  predicate Taken(c: Cond, a: word, b: word) {
    match c
    case Eq => a == b
    case Ne => a != b
    case Lt => Signed(a) < Signed(b)
    case Ge => Signed(a) >= Signed(b)
    case Ltu => a < b
    case Geu => a >= b
  }

  function WriteReg(regs: regfile, rd: reg, v: word): regfile {
    if rd == 0 then regs else regs[rd := v]
  }

  /** Where the instruction at pc sends control, given its source registers. */
  function NextPc(i: Inst, pc: word, a: word, b: word): word {
    match i
    case Branch(c, _, _, offset) => if Taken(c, a, b) then Wrap(pc + offset) else Wrap(pc + 4)
    case Jal(_, offset) => Wrap(pc + offset)
    case Jalr(_, _, imm) => var t := Wrap(a + imm); t - t % 2
    case _ => Wrap(pc + 4)
  }

  function Step<M>(p: Platform<M>, s: Arch<M>): Arch<M> {
    var i := p.prog(s.pc);
    match i
    case Op(op, rd, rs1, rs2) =>
      Arch(Wrap(s.pc + 4), WriteReg(s.regs, rd, Alu(op, s.regs[rs1], s.regs[rs2])), s.mem)
    case OpImm(op, rd, rs1, imm) =>
      Arch(Wrap(s.pc + 4), WriteReg(s.regs, rd, Alu(op, s.regs[rs1], imm)), s.mem)
    case Load(size, signed, rd, rs1, imm) =>
      Arch(Wrap(s.pc + 4), WriteReg(s.regs, rd, p.load(size, signed, Wrap(s.regs[rs1] + imm), s.mem)), s.mem)
    case Store(size, rs1, rs2, imm) =>
      Arch(Wrap(s.pc + 4), s.regs, p.store(size, Wrap(s.regs[rs1] + imm), s.regs[rs2], s.mem))
    case Branch(_, rs1, rs2, _) =>
      Arch(NextPc(i, s.pc, s.regs[rs1], s.regs[rs2]), s.regs, s.mem)
    case Lui(rd, imm) =>
      Arch(Wrap(s.pc + 4), WriteReg(s.regs, rd, imm), s.mem)
    case Auipc(rd, imm) =>
      Arch(Wrap(s.pc + 4), WriteReg(s.regs, rd, Wrap(s.pc + imm)), s.mem)
    case Jal(rd, _) =>
      Arch(NextPc(i, s.pc, 0, 0), WriteReg(s.regs, rd, Wrap(s.pc + 4)), s.mem)
    case Jalr(rd, rs1, _) =>
      Arch(NextPc(i, s.pc, s.regs[rs1], 0), WriteReg(s.regs, rd, Wrap(s.pc + 4)), s.mem)
    case Fence =>
      Arch(Wrap(s.pc + 4), s.regs, s.mem)
    case Divide(cmd, rd, rs1, rs2) =>
      Arch(Wrap(s.pc + 4), WriteReg(s.regs, rd, DivSpec(cmd, s.regs[rs1], s.regs[rs2])), s.mem)
  }

  /** The state after n instructions. */
  ghost function Nth<M>(p: Platform<M>, s: Arch<M>, n: nat): Arch<M> {
    if n == 0 then s else Step(p, Nth(p, s, n - 1))
  }
}

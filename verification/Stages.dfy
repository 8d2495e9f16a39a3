/**
 What the decode, execute and branch logic of the core computes from given
 register values (SIM/SystemC/CORE/DEC/dec.cpp, EXE/exec.cpp, EXE/alu.cpp,
 EXE/shifter.cpp), and that it is what the ISA asks for.
 */
module Stages {
  import opened Words
  import opened Isa

  /** The fields of the dec2exe FIFO that RV32I code uses. */
  datatype DecOut = DecOut(
    op1: word, op2: word, memData: word,
    radr1: reg, radr2: reg, dest: reg,
    cmd: command, negOp2: bool, sel: nat, slt: bool, sltu: bool,
    wb: bool, load: bool, store: bool, size: nat, signExt: bool, blockBp: bool)

  /** The fields of exe2mem. */
  datatype ExeOut = ExeOut(
    res: word, data: word, dest: reg,
    wb: bool, load: bool, store: bool, size: nat, signExt: bool)

  /** The fields of mem2wbk. */
  datatype MemOut = MemOut(res: word, dest: reg, wb: bool)

  // ----- pre_reg_read_decoding: which registers an instruction names

  function Radr1(i: Inst): reg {
    match i
    case Op(_, _, rs1, _) => rs1
    case OpImm(_, _, rs1, _) => rs1
    case Load(_, _, _, rs1, _) => rs1
    case Store(_, rs1, _, _) => rs1
    case Branch(_, rs1, _, _) => rs1
    case Jalr(_, rs1, _) => rs1
    case Divide(_, _, rs1, _) => rs1
    case _ => 0
  }

  function Radr2(i: Inst): reg {
    match i
    case Op(_, _, _, rs2) => rs2
    case Store(_, _, rs2, _) => rs2
    case Branch(_, _, rs2, _) => rs2
    case Divide(_, _, _, rs2) => rs2
    case _ => 0
  }

  function Dest(i: Inst): reg {
    match i
    case Op(_, rd, _, _) => rd
    case OpImm(_, rd, _, _) => rd
    case Load(_, _, rd, _, _) => rd
    case Lui(rd, _) => rd
    case Auipc(rd, _) => rd
    case Jal(rd, _) => rd
    case Jalr(rd, _, _) => rd
    case Divide(_, rd, _, _) => rd
    case _ => 0
  }

  // ----- post_reg_read_decoding: operands and EXE command

  function OpCmd(o: AluOp): command {
    match o
    case And => 1
    case Srl => 1
    case Or => 2
    case Sra => 2
    case Xor => 3
    case _ => 0
  }

  function OpSel(o: AluOp): nat {
    if o.Sll? || o.Srl? || o.Sra? then 2 else 1
  }

  function Decode(i: Inst, pc: word, readPc: word, r1: word, r2: word): DecOut {
    match i
    case Op(o, rd, rs1, rs2) =>
      DecOut(r1, r2, 0, rs1, rs2, rd, OpCmd(o), o.Sub? || o.Slt? || o.Sltu?, OpSel(o), o.Slt?, o.Sltu?,
             true, false, false, 0, false, false)
    case OpImm(o, rd, rs1, imm) =>
      DecOut(r1, imm, 0, rs1, 0, rd, OpCmd(o), o.Slt? || o.Sltu?, OpSel(o), o.Slt?, o.Sltu?,
             true, false, false, 0, false, false)
    case Load(size, signed, rd, rs1, imm) =>
      DecOut(r1, imm, 0, rs1, 0, rd, 0, false, 1, false, false, true, true, false, size, signed, false)
    case Store(size, rs1, rs2, imm) =>
      DecOut(r1, imm, r2, rs1, rs2, 0, 0, false, 1, false, false, false, false, true, size, false, false)
    case Branch(_, rs1, rs2, _) =>
      DecOut(r1, r2, 0, rs1, rs2, 0, 0, false, 1, false, false, true, false, false, 0, false, false)
    case Lui(rd, imm) =>
      DecOut(imm, r2, 0, 0, 0, rd, 0, false, 1, false, false, true, false, false, 0, false, false)
    case Auipc(rd, imm) =>
      DecOut(imm, pc, 0, 0, 0, rd, 0, false, 1, false, false, true, false, false, 0, false, false)
    case Jal(rd, _) =>
      DecOut(readPc, 0, 0, 0, 0, rd, 0, false, 1, false, false, true, false, false, 0, false, false)
    case Jalr(rd, rs1, _) =>
      DecOut(readPc, 0, 0, rs1, 0, rd, 0, false, 1, false, false, true, false, false, 0, false, true)
    case Fence =>
      DecOut(0, 0, 0, 0, 0, 0, 0, false, 1, false, false, false, false, false, 0, false, false)
    case Divide(cmd, rd, rs1, rs2) =>
      DecOut(r1, r2, 0, rs1, rs2, rd, cmd, false, 8, false, false, true, false, false, 0, false, false)
  }

  /** The branch comparator: a 33-bit difference and the two sign bits. */
  function BranchSd(c: Cond, op1: word, op2: word): bool {
    var res: int := (op1 - op2) % 0x2_0000_0000;
    var bit31 := (res / 0x8000_0000) % 2 == 1;
    var different_sign := Bit31(op1) != Bit31(op2);
    match c
    case Ne => res != 0
    case Eq => res == 0
    case Lt => if different_sign then Bit31(op1) else bit31
    case Ltu => if different_sign then Bit31(op2) else bit31
    case Ge => if different_sign then Bit31(op2) else !bit31
    case Geu => if different_sign then Bit31(op1) else !bit31
  }

  function JumpSd(i: Inst, r1: word, r2: word): bool {
    match i
    case Branch(c, _, _, _) => BranchSd(c, r1, r2)
    case Jal(_, _) => true
    case Jalr(_, _, _) => true
    case _ => false
  }

  function ClearBit0(x: word): word { x - x % 2 }

  function OffsetSd(i: Inst, readPc: word, r1: word): word {
    match i
    case Branch(_, _, _, offset) => offset
    case Jal(_, offset) => offset
    case Jalr(_, _, imm) => ClearBit0(Wrap(imm + r1 - readPc + 4))
    case _ => 0
  }

  // ----- the execute stage

  function AluOut(cmd: nat, op1: word, op2: word, cin: bool): word {
    if cmd == 0 then Wrap(op1 + op2 + if cin then 1 else 0)
    else if cmd == 1 then Words.And(op1, op2)
    else if cmd == 2 then Words.Or(op1, op2)
    else Words.Xor(op1, op2)
  }

  /** Bits 31-n..0 of the input moved up by n. */
  function ShiftUp(din: word, n: nat): nat
    requires n < 32
  {
    (din % Pow2(32 - n)) * Pow2(n)
  }

  /** Bits 31..n of the input, under n copies of the fill bit. */
  function ShiftDown(din: word, n: nat, fill: bool): int
    requires n < 32
  {
    (if fill then (Pow2(n) - 1) * Pow2(32 - n) else 0) + din / Pow2(n)
  }

  function Shifter(cmd: nat, din: word, n: nat): word
    requires n < 32
  {
    if cmd == 0 then Wrap(ShiftUp(din, n))
    else if cmd == 1 then Wrap(ShiftDown(din, n, false))
    else Wrap(ShiftDown(din, n, Bit31(din)))
  }

  predicate IsDivision(d: DecOut) { d.sel == 8 }

  /** The result chosen among the units; the divider's, on DIVIDER_RES_OUTPUT, is given. */
  function ExecRes(d: DecOut, op1: word, op2: word, divRes: word): word {
    var alu_out := AluOut(d.cmd, op1, if d.negOp2 then Not(op2) else op2, d.negOp2);
    if IsDivision(d) then divRes
    else if d.sel == 2 then Shifter(d.cmd, op1, op2 % 32)
    else if d.slt then
      (if Bit31(op1) && !Bit31(op2) then 1
       else if !Bit31(op1) && Bit31(op2) then 0
       else if op1 == op2 then 0
       else if Bit31(alu_out) then 1 else 0)
    else if d.sltu then
      (if Bit31(op1) && !Bit31(op2) then 0
       else if !Bit31(op1) && Bit31(op2) then 1
       else if op1 == op2 then 0
       else if Bit31(alu_out) then 1 else 0)
    else alu_out
  }

  function Execute(d: DecOut, op1: word, op2: word, data: word, divRes: word): ExeOut {
    ExeOut(ExecRes(d, op1, op2, divRes), data, d.dest, d.wb, d.load, d.store, d.size, d.signExt)
  }

  // ----- the memory stage

  function Memory<M>(p: Platform<M>, x: ExeOut, mem: M): MemOut {
    MemOut(if x.load then p.load(x.size, x.signExt, x.res, mem) else x.res, x.dest, x.wb || x.load)
  }

  function MemoryAfter<M>(p: Platform<M>, x: ExeOut, mem: M): M {
    if x.store then p.store(x.size, x.res, x.data, mem) else mem
  }

  // ----- what these compute, in ISA terms

  /** The comparator decides every branch as a signed or unsigned comparison. */
  lemma BranchMeetsIsa(c: Cond, a: word, b: word)
    ensures BranchSd(c, a, b) == Taken(c, a, b)
  {
    var res: int := (a - b) % 0x2_0000_0000;
    assert a >= b ==> res == a - b;
    assert a < b ==> res == a - b + 0x2_0000_0000;
    if Bit31(a) == Bit31(b) {
      if a >= b {
        assert res / SIGN == 0;
      } else {
        assert res / SIGN == 3;
      }
    }
  }

  lemma ShiftUpMeetsIsa(din: word, n: nat)
    requires n < 32
    ensures ShiftUp(din, n) == Wrap(din * Pow2(n))
  {
    Pow2Of32();
    Pow2Add(32 - n, n);
    MulMod(din, Pow2(n), Pow2(32 - n));
  }

  lemma ShiftDownMeetsIsa(din: word, n: nat)
    requires n < 32
    ensures Wrap(ShiftDown(din, n, false)) == Wrap(din / Pow2(n))
    ensures Wrap(ShiftDown(din, n, Bit31(din))) == Wrap(Signed(din) / Pow2(n))
  {
    hide Wrap;
    if Bit31(din) {
      Pow2Of32();
      Pow2Add(32 - n, n);
      FillWithSign(din, Pow2(n), Pow2(32 - n));
      WrapTurns(Signed(din) / Pow2(n), 1);
    }
  }

  lemma FillWithSign(din: word, k: nat, h: nat)
    requires k >= 1 && h * k == W
    ensures (k - 1) * h + din / k == (din - W) / k + W
  {
    var q, r := din / k, din % k;
    assert din == q * k + r by { assert din == k * q + r; }
    assert (q - h) * k == q * k - h * k;
    DivModUnique(din - W, k, q - h, r);
    assert (k - 1) * h == k * h - h;
  }

  function IsaResult(i: Inst, pc: word, r1: word, r2: word): word {
    match i
    case Op(o, _, _, _) => Alu(o, r1, r2)
    case OpImm(o, _, _, imm) => Alu(o, r1, imm)
    case Load(_, _, _, _, imm) => Wrap(r1 + imm)
    case Store(_, _, _, imm) => Wrap(r1 + imm)
    case Lui(_, imm) => imm
    case Auipc(_, imm) => Wrap(pc + imm)
    case Jal(_, _) => Wrap(pc + 4)
    case Jalr(_, _, _) => Wrap(pc + 4)
    case Branch(_, _, _, _) => Wrap(r1 + r2)
    case Fence => 0
    case Divide(cmd, _, _, _) => DivSpec(cmd, r1, r2)
  }

  lemma Subtract(a: word, b: word)
    ensures AluOut(0, a, Not(b), true) == Wrap(a - b)
    ensures Bit31(a) == Bit31(b) ==> (Bit31(Wrap(a - b)) <==> a < b)
  {
    WrapTurns(a - b, 1);
    assert a >= b ==> Wrap(a - b) == a - b;
    assert a < b ==> Wrap(a - b) == a - b + W;
  }

  lemma ShiftMeetsIsa(o: AluOp, a: word, b: word)
    requires OpSel(o) == 2
    ensures Shifter(OpCmd(o), a, b % 32) == Alu(o, a, b)
  {
    hide ShiftUp, ShiftDown, Pow2, Signed;
    if o.Sll? {
      ShiftUpMeetsIsa(a, b % 32);
    } else {
      ShiftDownMeetsIsa(a, b % 32);
    }
  }

  /** sub, slt and sltu: the difference, and the comparison read off its sign. */
  lemma CompareMeetsIsa(o: AluOp, a: word, b: word, d: DecOut, divRes: word)
    requires o.Sub? || o.Slt? || o.Sltu?
    requires d.cmd == 0 && d.negOp2 && d.sel == 1 && d.slt == o.Slt? && d.sltu == o.Sltu?
    ensures ExecRes(d, a, b, divRes) == Alu(o, a, b)
  {
    Subtract(a, b);
    hide AluOut, Wrap;
  }

  lemma AluMeetsIsa(o: AluOp, a: word, b: word, d: DecOut, divRes: word)
    requires d.cmd == OpCmd(o) && d.negOp2 == (o.Sub? || o.Slt? || o.Sltu?) && d.sel == OpSel(o)
    requires d.slt == o.Slt? && d.sltu == o.Sltu?
    ensures ExecRes(d, a, b, divRes) == Alu(o, a, b)
  {
    hide Words.And, Words.Or, Words.Xor;
    if OpSel(o) == 2 {
      ShiftMeetsIsa(o, a, b);
    } else if d.negOp2 {
      CompareMeetsIsa(o, a, b, d, divRes);
    }
  }

  /** Decode's command choice followed by EXE yields the ISA's result for every instruction, given the divider's. */
  lemma ExecuteMeetsIsa(i: Inst, pc: word, r1: word, r2: word, divRes: word)
    requires Radr2(i) == 0 ==> r2 == 0
    requires i.Divide? ==> divRes == DivSpec(i.cmd, r1, r2)
    ensures var d := Decode(i, pc, Wrap(pc + 4), r1, r2);
            ExecRes(d, d.op1, d.op2, divRes) == IsaResult(i, pc, r1, r2)
  {
    hide Words.And, Words.Or, Words.Xor;
    var d := Decode(i, pc, Wrap(pc + 4), r1, r2);
    match i
    case Op(o, _, _, _) => AluMeetsIsa(o, r1, r2, d, divRes);
    case OpImm(o, _, _, imm) => AluMeetsIsa(o, r1, imm, d, divRes);
    case _ =>
  }

  function PcOut(i: Inst, pc: word, r1: word, r2: word): word {
    if JumpSd(i, r1, r2) then Wrap(pc + OffsetSd(i, Wrap(pc + 4), r1)) else Wrap(pc + 4)
  }

  /** PC selection agrees with the ISA on every instruction at an even address, and keeps addresses even. */
  lemma TargetMeetsIsa(i: Inst, pc: word, r1: word, r2: word)
    requires pc % 2 == 0
    ensures PcOut(i, pc, r1, r2) == NextPc(i, pc, r1, r2)
    ensures NextPc(i, pc, r1, r2) % 2 == 0
  {
    hide Wrap, Taken, BranchSd;
    match i
    case Branch(c, _, _, offset) =>
      BranchMeetsIsa(c, r1, r2);
      EvenSum(pc, offset);
      EvenSum(pc, 4);
    case Jal(_, offset) => EvenSum(pc, offset);
    case Jalr(_, _, imm) =>
      JalrTarget(pc, r1, imm);
      ClearBit0Even(Wrap(r1 + imm));
    case _ => EvenSum(pc, 4);
  }

  lemma EvenSum(a: word, b: word)
    requires a % 2 == 0 && b % 2 == 0
    ensures Wrap(a + b) % 2 == 0
  {
    assert Wrap(a + b) == a + b || Wrap(a + b) == a + b - 0x1_0000_0000;
  }

  lemma ClearBit0Even(x: word)
    ensures ClearBit0(x) % 2 == 0
  {
  }

  lemma JalrTarget(pc: word, r1: word, imm: word)
    requires pc % 2 == 0
    ensures Wrap(pc + ClearBit0(Wrap(imm + r1 - Wrap(pc + 4) + 4))) == ClearBit0(Wrap(r1 + imm))
  {
    hide Wrap, ClearBit0;
    var readPc := Wrap(pc + 4);
    WrapNext(pc);
    RelativeToReadPc(pc, readPc, r1 + imm);
    assert imm + r1 - readPc + 4 == r1 + imm - readPc + 4;
    EvenPart(pc, Wrap(r1 + imm - readPc + 4));
  }

  lemma WrapNext(pc: word)
    ensures Wrap(pc + 4) == if pc + 4 >= W then pc + 4 - W else pc + 4
  {
  }

  lemma RelativeToReadPc(pc: word, readPc: word, t: int)
    requires readPc == if pc + 4 >= W then pc + 4 - W else pc + 4
    ensures Wrap(pc + Wrap(t - readPc + 4)) == Wrap(t)
  {
    WrapSum(pc, t - readPc + 4);
    WrapTurns(t, if pc + 4 >= W then 1 else 0);
  }

  lemma EvenPart(pc: word, x: word)
    requires pc % 2 == 0
    ensures Wrap(pc + ClearBit0(x)) == ClearBit0(Wrap(pc + x))
  {
    var s := if pc + x >= W then pc + x - 0x1_0000_0000 else pc + x;
    assert Wrap(pc + x) == s && Wrap(pc + (x - x % 2)) == s - x % 2;
    assert s % 2 == x % 2;
  }
}

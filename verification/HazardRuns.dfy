/** Runs with one data-cache stall in which an instruction uses a wrong operand. */
module HazardRuns {
  import opened Words
  import opened Isa
  import opened Stages
  import opened Fifo
  import opened Core
  import opened Forwarding
  import opened Machine
  import opened Refinement
  import D = Divider

  /**
   lw first, 0x100(x0); lw x1, 0x104(x0) and a third instruction from address 4, on a memory that answers with the
   address.
   */
  function Program(first: reg, third: Inst): Platform<int> {
    Platform(
      pc => if pc == 4 then Load(0, false, first, 0, 0x100)
            else if pc == 8 then Load(0, false, 1, 0, 0x104)
            else if pc == 12 then third
            else Fence,
      (size, signed, addr, mem) => addr,
      (size, addr, data, mem) => mem)
  }

  /** An instruction that reads x1 first and nothing but x0 and x1. */
  predicate ReadsX1(i: Inst) { (i.Op? || i.Divide?) && i.rd == 2 && i.rs1 == 1 && i.rs2 <= 1 }

  function ZeroDec(): DecOut {
    DecOut(0, 0, 0, 0, 0, 0, 0, false, 0, false, false, false, false, false, 0, false, false)
  }

  function Idle(): D.State { D.State(false, 0, 0, 0, 0, false, false, false, false) }

  function EmptyCore(): State<int> {
    State(seq(32, _ => 0), 0, Slot(false, 0), Slot(false, Fetched(Fence, 0)), Slot(false, ZeroDec()),
          Slot(false, ExeOut(0, 0, 0, false, false, false, 0, false)), Slot(false, MemOut(0, 0, false)), 0, 0, 0, 0, 0)
  }

  function Empty(): Machine<int> { Machine(EmptyCore(), Idle()) }

  const GO := Lines(false, false)
  const WAIT := Lines(false, true)

  /** Five clocks, a data-cache stall, and n clocks more. */
  function Stalls(n: nat): seq<Lines> { [GO, GO, GO, GO, GO, WAIT] + seq(n, _ => GO) }

  /** The decoding of a load of an address, and what EXE makes of it. */
  function LoadDec(rd: reg, addr: word): DecOut {
    DecOut(0, addr, 0, 0, 0, rd, 0, false, 1, false, false, true, true, false, 0, false, false)
  }

  function LoadSent(rd: reg, addr: word): ExeOut { ExeOut(addr, 0, rd, true, true, false, 0, false) }

  // ----- clock by clock

  lemma IdleClock(p: Platform<int>, c: State<int>, l: Lines)
    requires !(IsDivision(c.dec2exe.dout) && c.dec2exe.valid)
    ensures Inputs(Machine(c, Idle()), l) == Input(l.icStall, l.mcacheStall, false, 0)
    ensures Clock(p, Machine(c, Idle()), l) == Machine(Cycle(p, c, Input(l.icStall, l.mcacheStall, false, 0)), Idle())
    ensures !D.Begins(Idle(), Offer(c))
  {
    hide Cycle;
  }

  predicate InDecode(c: State<int>, i: Inst, pc: word) {
    && c.regs == seq(32, _ => 0) && c.pc == Wrap(pc + 4) && c.dec2if == Slot(true, Wrap(pc + 4))
    && c.if2dec == Slot(true, Fetched(i, pc)) && !c.mem2wbk.valid && c.rdata1 == 0 && c.rdata2 == 0
  }

  /** The first load has been fetched. */
  predicate Fetched1(c: State<int>, first: reg) {
    InDecode(c, Load(0, false, first, 0, 0x100), 4) && !c.dec2exe.valid && !c.exe2mem.valid
  }

  /** It is in EXE. */
  predicate Decoded1(c: State<int>, first: reg) {
    InDecode(c, Load(0, false, 1, 0, 0x104), 8) && c.dec2exe == Slot(true, LoadDec(first, 0x100)) && !c.exe2mem.valid
  }

  /** It is in MEM, the second load in EXE and the third instruction in decode. */
  predicate Midway(c: State<int>, first: reg, third: Inst) {
    && InDecode(c, third, 12)
    && c.dec2exe == Slot(true, LoadDec(1, 0x104)) && c.exe2mem == Slot(true, LoadSent(first, 0x100))
  }

  /** The third instruction is in EXE while the second load still waits in MEM. */
  predicate Behind(c: State<int>, first: reg, third: Inst) {
    && c.dec2exe == Slot(true, Decode(third, 12, 16, 0, 0)) && c.exe2mem == Slot(true, LoadSent(1, 0x104))
    && c.mem2wbk == Slot(false, MemOut(0x100, first, true)) && c.op1 == 0
  }

  function Now(l: Lines): Input { Input(l.icStall, l.mcacheStall, false, 0) }

  lemma FetchFirst(first: reg, third: Inst)
    ensures var p := Program(first, third);
            var c1 := Cycle(p, EmptyCore(), Now(GO));
            && Fetched1(Cycle(p, c1, Now(GO)), first)
            && !EmptyCore().dec2exe.valid && !c1.dec2exe.valid
  {
    var c1 := Cycle(Program(first, third), EmptyCore(), Now(GO));
    assert c1.pc == 4 && c1.dec2if == Slot(true, 4) && !c1.if2dec.valid && !c1.dec2exe.valid;
  }

  lemma DecodeFirst(c: State<int>, first: reg, third: Inst)
    requires Fetched1(c, first)
    ensures Decoded1(Cycle(Program(first, third), c, Now(GO)), first)
  {
  }

  lemma ExecuteFirst(c: State<int>, first: reg, third: Inst)
    requires Decoded1(c, first)
    ensures Midway(Cycle(Program(first, third), c, Now(GO)), first, third) && ExePop(c, Now(GO))
  {
  }

  lemma SecondWaits(c: State<int>, first: reg, third: Inst)
    requires Midway(c, first, third) && ReadsX1(third)
    ensures var c5 := Cycle(Program(first, third), c, Now(GO));
            && Behind(Cycle(Program(first, third), c5, Now(WAIT)), first, third)
            && ExePop(c, Now(GO)) && !c5.dec2exe.valid
  {
    var c5 := Cycle(Program(first, third), c, Now(GO));
    assert c5.exe2mem == Slot(true, LoadSent(1, 0x104)) && c5.mem2wbk == Slot(true, MemOut(0x100, first, true));
    assert c5.if2dec == c.if2dec && !c5.dec2exe.valid && c5.dec2exe.dout == LoadDec(1, 0x104);
    assert c5.rdata1 == 0 && c5.rdata2 == 0 && c5.pc == 16;
  }

  // ----- the runs

  lemma RunStep(p: Platform<int>, ls: seq<Lines>, l: Lines)
    ensures RunFor(p, Empty(), ls + [l]) == Advance(p, RunFor(p, Empty(), ls), l)
  {
    assert (ls + [l])[..|ls|] == ls;
    hide Advance;
  }

  lemma PlainStep(p: Platform<int>, r: Run<int>, l: Lines, c: State<int>)
    requires r.machine == Machine(c, Idle()) && !(IsDivision(c.dec2exe.dout) && c.dec2exe.valid)
    ensures var r' := Advance(p, r, l);
            && r'.machine == Machine(Cycle(p, c, Now(l)), Idle())
            && |r'.trace.executed| == |r.trace.executed| + if ExePop(c, Now(l)) then 1 else 0
  {
    hide Cycle, ExePop, Inputs;
    IdleClock(p, c, l);
  }

  lemma EmptyPops(c: State<int>, l: Lines)
    requires !c.dec2exe.valid
    ensures !ExePop(c, Now(l))
  {
  }

  /** Up to the second load. */
  lemma FirstFour(first: reg, third: Inst) returns (c: State<int>)
    ensures Midway(c, first, third)
    ensures var r := RunFor(Program(first, third), Empty(), [GO, GO, GO, GO]);
            r.machine == Machine(c, Idle()) && |r.trace.executed| == 1
  {
    hide Cycle, ExePop, Fetched1, Decoded1, Midway, Advance, RunFor;
    var p := Program(first, third);
    var c0 := EmptyCore();
    var c1 := Cycle(p, c0, Now(GO));
    var c2 := Cycle(p, c1, Now(GO));
    var c3 := Cycle(p, c2, Now(GO));
    c := Cycle(p, c3, Now(GO));
    FetchFirst(first, third);
    DecodeFirst(c2, first, third);
    ExecuteFirst(c3, first, third);
    NotYet(c2, first);
    NotYet3(c3, first);
    EmptyPops(c0, GO);
    EmptyPops(c1, GO);
    EmptyPops(c2, GO);
    var r0 := RunFor(p, Empty(), []);
    assert r0 == Run(Empty(), c0, Trace([], [], [])) by { NoClocks(p); }
    assert [] + [GO] == [GO] && [GO] + [GO] == [GO, GO] && [GO, GO] + [GO] == [GO, GO, GO]
           && [GO, GO, GO] + [GO] == [GO, GO, GO, GO];
    RunStep(p, [], GO);
    PlainStep(p, r0, GO, c0);
    RunStep(p, [GO], GO);
    PlainStep(p, RunFor(p, Empty(), [GO]), GO, c1);
    RunStep(p, [GO, GO], GO);
    PlainStep(p, RunFor(p, Empty(), [GO, GO]), GO, c2);
    RunStep(p, [GO, GO, GO], GO);
    PlainStep(p, RunFor(p, Empty(), [GO, GO, GO]), GO, c3);
  }

  lemma NoClocks(p: Platform<int>)
    ensures RunFor(p, Empty(), []) == Run(Empty(), EmptyCore(), Trace([], [], []))
  {
  }

  lemma NotYet(c: State<int>, first: reg)
    requires Fetched1(c, first)
    ensures !c.dec2exe.valid
  {
  }

  lemma NotYet3(c: State<int>, first: reg)
    requires Decoded1(c, first)
    ensures !IsDivision(c.dec2exe.dout)
  {
  }

  /** Up to the clock in which the third instruction is in EXE and the second load held in MEM. */
  lemma FirstSix(first: reg, third: Inst) returns (c: State<int>)
    requires ReadsX1(third)
    ensures Behind(c, first, third)
    ensures var r := RunFor(Program(first, third), Empty(), Stalls(0));
            r.machine == Machine(c, Idle()) && |r.trace.executed| == 2
  {
    hide Cycle, ExePop, Behind, Midway, Advance, RunFor;
    var p := Program(first, third);
    var c4 := FirstFour(first, third);
    SecondWaits(c4, first, third);
    NotMidway(c4, first, third);
    var c5 := Cycle(p, c4, Now(GO));
    c := Cycle(p, c5, Now(WAIT));
    EmptyPops(c5, WAIT);
    var four := [GO, GO, GO, GO];
    assert four + [GO] + [WAIT] == Stalls(0);
    RunStep(p, four, GO);
    PlainStep(p, RunFor(p, Empty(), four), GO, c4);
    RunStep(p, four + [GO], WAIT);
    PlainStep(p, RunFor(p, Empty(), four + [GO]), WAIT, c5);
  }

  lemma NotMidway(c: State<int>, first: reg, third: Inst)
    requires Midway(c, first, third)
    ensures !IsDivision(c.dec2exe.dout)
  {
  }

  lemma IsReset()
    ensures Reset(Empty())
  {
  }

  /** What the sequential machine gives the third instruction. */
  lemma ThirdOperands(first: reg, third: Inst)
    requires ReadsX1(third)
    ensures var p := Program(first, third);
            var a := Nth(p, Start(EmptyCore()), 2);
            && a.pc == 12 && SpecOperands(p, a) == Operands(0x104, if third.rs2 == 1 then 0x104 else 0, 0)
  {
    var p, s0 := Program(first, third), Start(EmptyCore());
    var s1 := Step(p, s0);
    assert s1.pc == 8 && s1.regs[0] == 0;
    var s2 := Step(p, s1);
    assert s2.pc == 12 && s2.regs[1] == 0x104 && s2.regs[0] == 0;
    assert Nth(p, s0, 1) == s1;
    assert Nth(p, s0, 2) == s2;
  }

  /** The run goes wrong in its third instruction: there it uses used instead of due. */
  ghost predicate GoesWrong(p: Platform<int>, ls: seq<Lines>, used: Operands, due: Operands) {
    && Reset(Empty()) && !MisreadFree(p, Empty(), ls) && used != due
    && SpecOperands(p, Nth(p, Start(EmptyCore()), 2)) == due
    && var t := RunFor(p, Empty(), ls).trace.executed; |t| == 3 && t[2] == used
  }

  lemma WrongIsMisread(p: Platform<int>, ls: seq<Lines>, used: Operands, due: Operands)
    requires SpecOperands(p, Nth(p, Start(EmptyCore()), 2)) == due && used != due
    requires var t := RunFor(p, Empty(), ls).trace.executed; |t| == 3 && t[2] == used
    ensures GoesWrong(p, ls, used, due)
  {
    hide SpecOperands, Nth, RunFor, Start, Reset;
    IsReset();
    RefinesExactly(p, Empty(), ls);
  }

  lemma AddSees(c: State<int>)
    requires Behind(c, 1, Op(Add, 2, 1, 1))
    ensures ExePop(c, Now(GO)) && !IsDivision(c.dec2exe.dout) && Hazard(c) && Shown(c) == Operands(0x100, 0x100, 0)
  {
  }

  /** add x2, x1, x1 leaves EXE with the value of the first load, where the sequential machine uses the second. */
  lemma HazardIsReal()
    ensures GoesWrong(Program(1, Op(Add, 2, 1, 1)), Stalls(1), Operands(0x100, 0x100, 0), Operands(0x104, 0x104, 0))
  {
    hide Cycle, ExePop, Behind, RunFor, Shown, Hazard;
    var third := Op(Add, 2, 1, 1);
    var p := Program(1, third);
    var c := FirstSix(1, third);
    AddSees(c);
    IdleClock(p, c, GO);
    assert Stalls(0) + [GO] == Stalls(1);
    RunStep(p, Stalls(0), GO);
    ThirdOperands(1, third);
    WrongIsMisread(p, Stalls(1), Operands(0x100, 0x100, 0), Operands(0x104, 0x104, 0));
  }

  /** remu x2, x1, x0 in its START clock, and in the next. */
  lemma RemuSees(c: State<int>, first: reg)
    requires first == 1 || first == 3
    requires Behind(c, first, Divide(REMU, 2, 1, 0))
    ensures Blocked(c) == (first == 3) && Hazard(c) == (first == 1)
    ensures Shown(c) == Operands(if first == 1 then 0x100 else 0, 0, 0)
    ensures D.Begins(Idle(), Offer(c))
  {
  }

  lemma RemuStarts(c: State<int>, first: reg, p: Platform<int>)
    requires first == 1 || first == 3
    requires Behind(c, first, Divide(REMU, 2, 1, 0))
    ensures var m := Machine(c, Idle());
            var m' := Clock(p, m, GO);
            && !Leaves(m, GO) && Leaves(m', GO) && m'.core.dec2exe == c.dec2exe
            && m'.div == D.State(false, 32, 0, 0xFFFF_FFFF, Shown(c).op1, false, false, true, false)
  {
    RemuSees(c, first);
    var m := Machine(c, Idle());
    var n := Inputs(m, GO);
    assert n.divBusy;
    var c' := Cycle(p, c, n);
    assert c'.dec2exe == c.dec2exe && !c'.exe2mem.valid;
  }

  /**
   A division that starts without being blocked, in Hazard, and one that starts blocked: both keep a stale operand.
   */
  lemma StaleDivisions()
    ensures GoesWrong(Program(1, Divide(REMU, 2, 1, 0)), Stalls(2), Operands(0x100, 0, 0), Operands(0x104, 0, 0))
    ensures GoesWrong(Program(3, Divide(REMU, 2, 1, 0)), Stalls(2), Operands(0, 0, 0), Operands(0x104, 0, 0))
  {
    StaleDivision(1);
    StaleDivision(3);
  }

  lemma StaleDivision(first: reg)
    requires first == 1 || first == 3
    ensures GoesWrong(Program(first, Divide(REMU, 2, 1, 0)), Stalls(2),
                      Operands(if first == 1 then 0x100 else 0, 0, 0), Operands(0x104, 0, 0))
  {
    hide Cycle, ExePop, Behind, RunFor, Shown, Hazard, Clock, Inputs, D.Begins;
    var third := Divide(REMU, 2, 1, 0);
    var p := Program(first, third);
    var c := FirstSix(first, third);
    RemuSees(c, first);
    RemuStarts(c, first, p);
    assert IsDivision(c.dec2exe.dout) by { ThirdDecoded(c, first); }
    assert Stalls(0) + [GO] == Stalls(1) && Stalls(1) + [GO] == Stalls(2);
    RunStep(p, Stalls(0), GO);
    RunStep(p, Stalls(1), GO);
    ThirdOperands(first, third);
    WrongIsMisread(p, Stalls(2), Operands(if first == 1 then 0x100 else 0, 0, 0), Operands(0x104, 0, 0));
  }

  lemma ThirdDecoded(c: State<int>, first: reg)
    requires Behind(c, first, Divide(REMU, 2, 1, 0))
    ensures IsDivision(c.dec2exe.dout)
  {
  }
}

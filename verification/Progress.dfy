/** The core never stops by itself: instructions retire at a guaranteed rate whenever nothing outside stalls it. */
module Progress {
  import opened Words
  import opened Isa
  import opened Stages
  import opened Fifo
  import opened Core
  import opened Forwarding
  import opened Machine
  import opened Refinement
  import D = Divider

  /** The divider counts to 32 with BUSY up. */
  predicate Regular(s: D.State) { s.calculating ==> s.shift_cpt <= 31 && s.busy }

  /** How many more clocks the divider keeps EXE waiting. */
  function DividerLeft(s: D.State, r: D.Request): nat
    requires Regular(s)
  {
    if s.calculating then 32 - s.shift_cpt else if D.Begins(s, r) then 33 else 0
  }

  /** How many clocks the instruction furthest ahead is from write-back. */
  function Rank<M>(m: Machine<M>): nat
    requires Regular(m.div)
  {
    var c := m.core;
    if c.mem2wbk.valid then 0
    else if c.exe2mem.valid then 1
    else if c.dec2exe.valid then 2 + DividerLeft(m.div, Offer(c))
    else if c.if2dec.valid then 36
    else if c.dec2if.valid then 37
    else 38
  }

  predicate Open(l: Lines) { !l.icStall && !l.mcacheStall }

  /** In every clock the divider comes nearer to its end, and BUSY is up exactly until then. */
  lemma DividerFalls(s: D.State, r: D.Request)
    requires Regular(s)
    ensures var s' := D.Clock(s, r);
            && Regular(s') && DividerLeft(s, r) <= 33 && (D.Settle(s, r).busy <==> DividerLeft(s, r) > 0)
            && (DividerLeft(s, r) > 0 ==> forall r' :: DividerLeft(s', r') < DividerLeft(s, r))
  {
    hide D.Magnitude, Bit31;
  }

  /** An instruction in front of an empty back half is decoded at once: nothing can make its registers unreadable. */
  lemma AloneIsDecoded<M>(c: State<M>, n: Input)
    requires c.if2dec.valid && !c.dec2exe.valid && !c.exe2mem.valid
    ensures !StallSd(c, n)
  {}

  /** In any state, reachable or not: no clock sets the leader back, and one without stalls moves it on. */
  lemma RankFalls<M>(p: Platform<M>, m: Machine<M>, l: Lines)
    requires Regular(m.div) && Rank(m) > 0
    ensures Regular(Clock(p, m, l).div) && Rank(Clock(p, m, l)) <= Rank(m)
    ensures Open(l) ==> Rank(Clock(p, m, l)) < Rank(m)
  {
    hide Cycle, StallSd, ExePop, MemPop, Blocked, D.Settle, D.Clock, DividerLeft, Offer, Regular;
    var c, n := m.core, Inputs(m, l);
    DividerFalls(m.div, Offer(c));
    DividerFalls(Clock(p, m, l).div, Offer(Clock(p, m, l).core));
    CycleDec(p, c, n);
    CycleBack(p, c, n);
    Pops(c, n);
    if c.if2dec.valid && !c.dec2exe.valid && !c.exe2mem.valid { AloneIsDecoded(c, n); }
    if !c.if2dec.valid { FrontFalls(p, c, n); }
  }

  /** With decode empty the front end moves towards it, unless the instruction cache stalls. */
  lemma FrontFalls<M>(p: Platform<M>, c: State<M>, n: Input)
    requires !c.if2dec.valid
    ensures var c' := Cycle(p, c, n);
            && StallSd(c, n)
            && (c.dec2if.valid ==> if n.icStall then c'.dec2if.valid || c'.if2dec.valid else c'.if2dec.valid)
            && (!c.dec2if.valid ==> c'.dec2if.valid)
  {
    hide Cycle, ExePop, R1, R2, PcNext, Jump;
    CycleFront(p, c, n);
  }

  /** The clocks in which neither stall line is up. */
  function OpenClocks(ls: seq<Lines>): nat {
    if ls == [] then 0 else OpenClocks(ls[..|ls| - 1]) + if Open(ls[|ls| - 1]) then 1 else 0
  }

  /**
   For every program, state and stall pattern, divisions and their restarts included, at least one instruction
   retires for every 39 clocks without a stall.
   */
  lemma {:induction false} InstructionsRetire<M>(p: Platform<M>, m0: Machine<M>, ls: seq<Lines>)
    requires Regular(m0.div)
    ensures var r := RunFor(p, m0, ls);
            Regular(r.machine.div) && 39 * |r.trace.retired| + 38 >= OpenClocks(ls) + Rank(r.machine)
  {
    hide Clock, Rank, StallSd, Leaves, WbkPop, Used, Begun, Open, Regular;
    if ls == [] {
      RankBound(m0);
    } else {
      var r := RunFor(p, m0, ls[..|ls| - 1]);
      var l := ls[|ls| - 1];
      InstructionsRetire(p, m0, ls[..|ls| - 1]);
      StaysRegular(p, r.machine, l);
      RankBound(Clock(p, r.machine, l));
      if Rank(r.machine) > 0 { RankFalls(p, r.machine, l); } else { LeaderRetires(r.machine); }
    }
  }

  lemma StaysRegular<M>(p: Platform<M>, m: Machine<M>, l: Lines)
    requires Regular(m.div)
    ensures Regular(Clock(p, m, l).div)
  {
    hide Cycle, D.Clock, Regular;
    DividerFalls(m.div, Offer(m.core));
  }

  lemma RankBound<M>(m: Machine<M>)
    requires Regular(m.div)
    ensures Rank(m) <= 38
  {
    hide Offer, D.Begins;
  }

  lemma LeaderRetires<M>(m: Machine<M>)
    requires Regular(m.div) && Rank(m) == 0
    ensures WbkPop(m.core)
  {}
}

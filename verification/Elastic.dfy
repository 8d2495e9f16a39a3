/**
 The FIFO control behind decode, under every pattern of stalls: dec2exe, exe2mem
 and mem2wbk carry instructions, x02x1 and x12x2 carry the multiplier's partial
 sums beside them. Instructions are opaque tokens here.
 */
module Elastic {
  import opened Fifo

  /**
   What drives one clock: decode's offer, EXE's reasons to wait (operands, divider), the data cache, and EXE's
   operands.
   */
  datatype Input<T, O> = Input(offer: bool, token: T, exeWait: bool, mcacheStall: bool, operands: O)

  /** The two multiplier stages as functions: x0 on operands, x1 on what x0 sends. */
  datatype Trees<!O, !A, !B> = Trees(x0: O -> A, x1: A -> B)

  /**
   Operands an instruction had in its last EXE clock, and those x0 took in while the
   instruction waited in MEM (history, not hardware).
   */
  datatype History<O> = History(own: O, behind: seq<O>) {
    function Latest(): O { if behind == [] then own else behind[|behind| - 1] }
  }

  datatype State<T, O, A, B> = State(
    dec2exe: Slot<T>, exe2mem: Slot<T>, mem2wbk: Slot<T>,
    x02x1: Slot<A>, x12x2: Slot<B>,
    inMem: History<O>, inWbk: History<O>)

  ghost predicate AllEmpty<T, O, A, B>(s: State<T, O, A, B>) {
    !s.dec2exe.valid && !s.exe2mem.valid && !s.mem2wbk.valid && !s.x02x1.valid && !s.x12x2.valid
  }

  // ----- push and pop of every FIFO

  function WbkPop<T, O, A, B>(s: State<T, O, A, B>): bool { !s.mem2wbk.Empty() }

  function MemPop<T, O, A, B>(s: State<T, O, A, B>, n: Input<T, O>): bool {
    !(n.mcacheStall || s.mem2wbk.Full(WbkPop(s)) || s.exe2mem.Empty())
  }

  function ExePop<T, O, A, B>(s: State<T, O, A, B>, n: Input<T, O>): bool {
    !(s.exe2mem.Full(MemPop(s, n)) || s.dec2exe.Empty() || n.exeWait)
  }

  function DecPush<T, O, A, B>(s: State<T, O, A, B>, n: Input<T, O>): bool {
    n.offer && !s.dec2exe.Full(ExePop(s, n))
  }

  function X2Pop<T, O, A, B>(s: State<T, O, A, B>): bool { !s.x12x2.Empty() }

  function X1Pop<T, O, A, B>(s: State<T, O, A, B>): bool {
    !(s.x12x2.Full(X2Pop(s)) || s.x02x1.Empty())
  }

  function X0Push<T, O, A, B>(s: State<T, O, A, B>): bool {
    !(s.x02x1.Full(X1Pop(s)) || s.dec2exe.Empty())
  }

  function Step<T, O, A, B>(f: Trees<O, A, B>, s: State<T, O, A, B>, n: Input<T, O>): State<T, O, A, B> {
    State(
      s.dec2exe.Clock(DecPush(s, n), ExePop(s, n), n.token),
      s.exe2mem.Clock(ExePop(s, n), MemPop(s, n), s.dec2exe.dout),
      s.mem2wbk.Clock(MemPop(s, n), WbkPop(s), s.exe2mem.dout),
      s.x02x1.Clock(X0Push(s), X1Pop(s), f.x0(n.operands)),
      s.x12x2.Clock(X1Pop(s), X2Pop(s), f.x1(s.x02x1.dout)),
      if ExePop(s, n) then History(n.operands, [])
      else if X0Push(s) then s.inMem.(behind := s.inMem.behind + [n.operands])
      else s.inMem,
      if MemPop(s, n) then s.inMem else s.inWbk)
  }

  // ----- conservation

  /** Instructions behind decode, oldest first. */
  function InFlight<T, O, A, B>(s: State<T, O, A, B>): seq<T> {
    s.mem2wbk.Contents() + s.exe2mem.Contents() + s.dec2exe.Contents()
  }

  datatype Run<T, O, A, B> = Run(state: State<T, O, A, B>, accepted: seq<T>, retired: seq<T>)

  function RunFor<T, O, A, B>(f: Trees<O, A, B>, s0: State<T, O, A, B>, ns: seq<Input<T, O>>): Run<T, O, A, B> {
    if ns == [] then Run(s0, [], [])
    else
      var r, n := RunFor(f, s0, ns[..|ns| - 1]), ns[|ns| - 1];
      var s := r.state;
      Run(Step(f, s, n),
          r.accepted + (if DecPush(s, n) then [n.token] else []),
          r.retired + (if WbkPop(s) then [s.mem2wbk.dout] else []))
  }

  lemma StepInOrder<T, O, A, B>(f: Trees<O, A, B>, s: State<T, O, A, B>, n: Input<T, O>)
    ensures (if WbkPop(s) then [s.mem2wbk.dout] else []) + InFlight(Step(f, s, n))
         == InFlight(s) + (if DecPush(s, n) then [n.token] else [])
  {
  }

  /**
   Conservation: whatever the stalls, the instructions taken into dec2exe are exactly those retired
   followed by those in the FIFOs, in order, each once.
   */
  lemma {:induction false} Conservation<T, O, A, B>(f: Trees<O, A, B>, s0: State<T, O, A, B>, ns: seq<Input<T, O>>)
    requires AllEmpty(s0)
    ensures var r := RunFor(f, s0, ns);
            r.accepted == r.retired + InFlight(r.state) && |InFlight(r.state)| <= 3
  {
    if ns != [] {
      var last := |ns| - 1;
      hide Step, InFlight, DecPush, WbkPop;
      Conservation(f, s0, ns[..last]);
      var r, n := RunFor(f, s0, ns[..last]), ns[last];
      StepInOrder(f, r.state, n);
      var out := if WbkPop(r.state) then [r.state.mem2wbk.dout] else [];
      var entered := if DecPush(r.state, n) then [n.token] else [];
      Regroup(r.accepted, r.retired, InFlight(r.state), entered, out, InFlight(Step(f, r.state, n)));
      AtMostThree(Step(f, r.state, n));
    }
  }

  lemma Regroup<T>(accepted: seq<T>, retired: seq<T>, before: seq<T>, entered: seq<T>, out: seq<T>, after: seq<T>)
    requires accepted == retired + before && out + after == before + entered
    ensures accepted + entered == (retired + out) + after
  {
    assert accepted + entered == retired + (before + entered);
  }

  lemma AtMostThree<T, O, A, B>(s: State<T, O, A, B>)
    ensures |InFlight(s)| <= 3
  {
  }

  /** Three clocks in which nothing waits retire everything that was in flight. */
  lemma Drains<T, O, A, B>(f: Trees<O, A, B>, s: State<T, O, A, B>, n1: Input<T, O>, n2: Input<T, O>, n3: Input<T, O>)
    requires !n1.exeWait && !n2.exeWait && !n3.exeWait && !n1.mcacheStall && !n2.mcacheStall && !n3.mcacheStall
    requires !n1.offer && !n2.offer && !n3.offer
    ensures InFlight(Step(f, Step(f, Step(f, s, n1), n2), n3)) == []
  {
  }

  // ----- lockstep of the multiplier

  /** The multiplier's own FIFOs are never full: x2 and x1 take whatever is there. */
  lemma NeverFull<T, O, A, B>(s: State<T, O, A, B>)
    ensures X2Pop(s) == s.x12x2.valid && X1Pop(s) == s.x02x1.valid && X0Push(s) == s.dec2exe.valid
  {
  }

  /** The partial sums stand where the latest operands that x0 took in have got to. */
  ghost predicate Locked<T, O, A, B>(f: Trees<O, A, B>, s: State<T, O, A, B>) {
    && (s.exe2mem.valid ==>
          if s.x02x1.valid then s.x02x1.dout == f.x0(s.inMem.Latest())
              else s.x12x2.dout == f.x1(f.x0(s.inMem.Latest())))
    && (s.mem2wbk.valid ==> s.x12x2.dout == f.x1(f.x0(s.inWbk.Latest())))
  }

  lemma StepLocked<T, O, A, B>(f: Trees<O, A, B>, s: State<T, O, A, B>, n: Input<T, O>)
    requires Locked(f, s)
    ensures Locked(f, Step(f, s, n))
  {
    NeverFull(s);
  }

  /**
   Lockstep, exactly: over every run, when an instruction is in write-back the multiplier output
   register holds the partial sums of its own last EXE operands, or of the last operands x0 took in
   while the instruction was held in MEM, if there are any.
   */
  lemma {:induction false} Lockstep<T, O, A, B>(f: Trees<O, A, B>, s0: State<T, O, A, B>, ns: seq<Input<T, O>>)
    requires AllEmpty(s0)
    ensures Locked(f, RunFor(f, s0, ns).state)
  {
    if ns != [] {
      hide Locked, Step;
      Lockstep(f, s0, ns[..|ns| - 1]);
      StepLocked(f, RunFor(f, s0, ns[..|ns| - 1]).state, ns[|ns| - 1]);
    }
  }

  /** Nothing is taken in behind an instruction that MEM passes on at once. */
  lemma UnstalledIsOwn<T, O, A, B>(f: Trees<O, A, B>, s: State<T, O, A, B>, n1: Input<T, O>, n2: Input<T, O>)
    requires ExePop(s, n1) && !n2.mcacheStall
    ensures var s1 := Step(f, s, n1); MemPop(s1, n2) && Step(f, s1, n2).inWbk == History(n1.operands, [])
    ensures var s1 := Step(f, s, n1); Step(f, s1, n2).mem2wbk == Slot(true, s.dec2exe.dout)
  {
  }

  // ----- an instruction held in MEM

  /** The state after the first k clocks. */
  function At<T, O, A, B>(f: Trees<O, A, B>, s0: State<T, O, A, B>, ns: seq<Input<T, O>>, k: nat): State<T, O, A, B>
    requires k <= |ns|
  {
    RunFor(f, s0, ns[..k]).state
  }

  lemma AtNext<T, O, A, B>(f: Trees<O, A, B>, s0: State<T, O, A, B>, ns: seq<Input<T, O>>, k: nat)
    requires k < |ns|
    ensures At(f, s0, ns, k + 1) == Step(f, At(f, s0, ns, k), ns[k])
  {
    hide Step;
    assert ns[..k + 1][..k] == ns[..k];
  }

  lemma AtReset<T, O, A, B>(f: Trees<O, A, B>, s0: State<T, O, A, B>, ns: seq<Input<T, O>>)
    ensures At(f, s0, ns, 0) == s0
  {
  }

  /** An instruction leaves EXE in clock a, and the data cache holds it in MEM in every clock from there to k. */
  ghost predicate InMemSince<T, O, A, B>(f: Trees<O, A, B>, s0: State<T, O, A, B>, ns: seq<Input<T, O>>, a: nat, k: nat)
    requires k <= |ns|
  {
    a < k && ExePop(At(f, s0, ns, a), ns[a]) && forall m :: a < m < k ==> ns[m].mcacheStall
  }

  /** Decode offers an instruction in one of the clocks a to k - 1. */
  predicate Offered<T, O>(ns: seq<Input<T, O>>, a: nat, k: int)
    requires k <= |ns|
  {
    exists m :: a <= m < k && ns[m].offer
  }

  /**
   Waiting in MEM: x0 takes in the operands seen in EXE from the moment the next instruction has come, so the
   latest are those of the clock before - if decode sent one at least a clock ago, and otherwise still the own ones.
   */
  lemma {:induction false} WaitsInMem<T, O, A, B>(f: Trees<O, A, B>, s0: State<T, O, A, B>, ns: seq<Input<T, O>>,
      a: nat, k: nat)
    requires k <= |ns| && InMemSince(f, s0, ns, a, k)
    ensures var s := At(f, s0, ns, k);
            && s.exe2mem == Slot(true, At(f, s0, ns, a).dec2exe.dout) && s.dec2exe.valid == Offered(ns, a, k)
            && s.inMem.own == ns[a].operands
            && s.inMem.Latest() == if Offered(ns, a, k - 1) then ns[k - 1].operands else ns[a].operands
  {
    hide RunFor;
    AtNext(f, s0, ns, k - 1);
    if k > a + 1 { WaitsInMem(f, s0, ns, a, k - 1); }
    assert Offered(ns, a, k) <==> Offered(ns, a, k - 1) || ns[k - 1].offer;
  }

  /** Whatever is in MEM came from EXE in some clock and has been held since. */
  lemma {:induction false} EnteredMem<T, O, A, B>(f: Trees<O, A, B>, s0: State<T, O, A, B>, ns: seq<Input<T, O>>,
      k: nat)
    returns (a: nat)
    requires AllEmpty(s0) && k <= |ns| && At(f, s0, ns, k).exe2mem.valid
    ensures InMemSince(f, s0, ns, a, k)
  {
    hide RunFor;
    if k == 0 {
      AtReset(f, s0, ns);
      assert false;
    } else {
      AtNext(f, s0, ns, k - 1);
      if ExePop(At(f, s0, ns, k - 1), ns[k - 1]) {
        a := k - 1;
      } else {
        a := EnteredMem(f, s0, ns, k - 1);
      }
    }
  }

  /**
   Whatever clock b puts into write-back left EXE in some clock a and was held in MEM in between; the multiplier
   then stands at its own operands, or at those of clock b - 1 if decode had sent another instruction by then.
   */
  lemma Written<T, O, A, B>(f: Trees<O, A, B>, s0: State<T, O, A, B>, ns: seq<Input<T, O>>, b: nat) returns (a: nat)
    requires AllEmpty(s0) && b < |ns| && At(f, s0, ns, b + 1).mem2wbk.valid
    ensures InMemSince(f, s0, ns, a, b) && !ns[b].mcacheStall
    ensures var s := At(f, s0, ns, b + 1);
            && s.mem2wbk.dout == At(f, s0, ns, a).dec2exe.dout && s.inWbk.own == ns[a].operands
            && s.inWbk.Latest() == if Offered(ns, a, b - 1) then ns[b - 1].operands else ns[a].operands
  {
    hide RunFor, At, Offered;
    AtNext(f, s0, ns, b);
    a := EnteredMem(f, s0, ns, b);
    WaitsInMem(f, s0, ns, a, b);
  }

  // ----- the source's form

  class FifoControl<T, O, A, B> {
    var dec2exe: Slot<T>
    var exe2mem: Slot<T>
    var mem2wbk: Slot<T>
    var x02x1: Slot<A>
    var x12x2: Slot<B>
    var MEM2WBK_POP_SW: bool
    var EXE2MEM_POP_SM: bool
    var DEC2EXE_POP_SE: bool
    var dec2exe_push_sd: bool
    var X12X2_POP_SX2: bool
    var X02X1_POP_SX1: bool
    var x02x1_push_sx0: bool
    ghost var inMem: History<O>
    ghost var inWbk: History<O>

    ghost function Now(): State<T, O, A, B>
      reads `dec2exe, `exe2mem, `mem2wbk, `x02x1, `x12x2, `inMem, `inWbk
    {
      State(dec2exe, exe2mem, mem2wbk, x02x1, x12x2, inMem, inWbk)
    }

    constructor (s: State<T, O, A, B>)
      ensures Now() == s
    {
      dec2exe, exe2mem, mem2wbk, x02x1, x12x2 := s.dec2exe, s.exe2mem, s.mem2wbk, s.x02x1, s.x12x2;
      inMem, inWbk := s.inMem, s.inWbk;
    }

    method WbkMethod()
      modifies `MEM2WBK_POP_SW
      ensures MEM2WBK_POP_SW == WbkPop(Now())
    {
      MEM2WBK_POP_SW := !mem2wbk.Empty();
    }

    method MemFifoGestion(n: Input<T, O>)
      requires MEM2WBK_POP_SW == WbkPop(Now())
      modifies `EXE2MEM_POP_SM
      ensures EXE2MEM_POP_SM == MemPop(Now(), n)
    {
      var stall := n.mcacheStall || mem2wbk.Full(MEM2WBK_POP_SW) || exe2mem.Empty();
      EXE2MEM_POP_SM := !stall;
    }

    method ExeManageFifo(n: Input<T, O>)
      requires EXE2MEM_POP_SM == MemPop(Now(), n)
      modifies `DEC2EXE_POP_SE
      ensures DEC2EXE_POP_SE == ExePop(Now(), n)
    {
      var stall := exe2mem.Full(EXE2MEM_POP_SM) || dec2exe.Empty() || n.exeWait;
      DEC2EXE_POP_SE := !stall;
    }

    method DecStall(n: Input<T, O>)
      requires DEC2EXE_POP_SE == ExePop(Now(), n)
      modifies `dec2exe_push_sd
      ensures dec2exe_push_sd == DecPush(Now(), n)
    {
      var stall := !n.offer || dec2exe.Full(DEC2EXE_POP_SE);
      dec2exe_push_sd := !stall;
    }

    method MultiplierManageFifos()
      modifies `X12X2_POP_SX2, `X02X1_POP_SX1, `x02x1_push_sx0
      ensures X12X2_POP_SX2 == X2Pop(Now()) && X02X1_POP_SX1 == X1Pop(Now()) && x02x1_push_sx0 == X0Push(Now())
    {
      X12X2_POP_SX2 := !x12x2.Empty();
      var stall := x12x2.Full(X12X2_POP_SX2) || x02x1.Empty();
      X02X1_POP_SX1 := !stall;
      stall := x02x1.Full(X02X1_POP_SX1) || dec2exe.Empty();
      x02x1_push_sx0 := !stall;
    }

    /** The edge of the multiplier's FIFOs. */
    method EdgeMultiplier(f: Trees<O, A, B>, n: Input<T, O>)
      modifies `x02x1, `x12x2
      ensures var s := old(Now());
              Now() == s.(x02x1 := s.x02x1.Clock(x02x1_push_sx0, X02X1_POP_SX1, f.x0(n.operands)),
                          x12x2 := s.x12x2.Clock(X02X1_POP_SX1, X12X2_POP_SX2, f.x1(s.x02x1.dout)))
    {
      hide Slot.Clock;
      x12x2 := x12x2.Clock(X02X1_POP_SX1, X12X2_POP_SX2, f.x1(x02x1.dout));
      x02x1 := x02x1.Clock(x02x1_push_sx0, X02X1_POP_SX1, f.x0(n.operands));
    }

    /** The edge of the instruction FIFOs. */
    method EdgeStages(n: Input<T, O>)
      modifies `dec2exe, `exe2mem, `mem2wbk
      ensures var s := old(Now());
              Now() == s.(dec2exe := s.dec2exe.Clock(dec2exe_push_sd, DEC2EXE_POP_SE, n.token),
                          exe2mem := s.exe2mem.Clock(DEC2EXE_POP_SE, EXE2MEM_POP_SM, s.dec2exe.dout),
                          mem2wbk := s.mem2wbk.Clock(EXE2MEM_POP_SM, MEM2WBK_POP_SW, s.exe2mem.dout))
    {
      hide Slot.Clock;
      mem2wbk := mem2wbk.Clock(EXE2MEM_POP_SM, MEM2WBK_POP_SW, exe2mem.dout);
      exe2mem := exe2mem.Clock(DEC2EXE_POP_SE, EXE2MEM_POP_SM, dec2exe.dout);
      dec2exe := dec2exe.Clock(dec2exe_push_sd, DEC2EXE_POP_SE, n.token);
    }

    ghost method EdgeHistory(n: Input<T, O>)
      modifies `inMem, `inWbk
      ensures var s := old(Now());
              Now() == s.(inMem := if DEC2EXE_POP_SE then History(n.operands, [])
                                   else if x02x1_push_sx0 then s.inMem.(behind := s.inMem.behind + [n.operands])
                                   else s.inMem,
                          inWbk := if EXE2MEM_POP_SM then s.inMem else s.inWbk)
    {
      if EXE2MEM_POP_SM {
        inWbk := inMem;
      }
      if DEC2EXE_POP_SE {
        inMem := History(n.operands, []);
      } else if x02x1_push_sx0 {
        inMem := History(inMem.own, inMem.behind + [n.operands]);
      }
    }

    method Edge(f: Trees<O, A, B>, n: Input<T, O>)
      requires MEM2WBK_POP_SW == WbkPop(Now()) && EXE2MEM_POP_SM == MemPop(Now(), n)
      requires DEC2EXE_POP_SE == ExePop(Now(), n) && dec2exe_push_sd == DecPush(Now(), n)
      requires X12X2_POP_SX2 == X2Pop(Now()) && X02X1_POP_SX1 == X1Pop(Now()) && x02x1_push_sx0 == X0Push(Now())
      modifies `dec2exe, `exe2mem, `mem2wbk, `x02x1, `x12x2, `inMem, `inWbk
      ensures Now() == Step(f, old(Now()), n)
    {
      hide FifoControl.Now, WbkPop, MemPop, ExePop, DecPush, X2Pop, X1Pop, X0Push, Slot.Clock;
      EdgeHistory(n);
      EdgeMultiplier(f, n);
      EdgeStages(n);
    }

    method ClockCycle(f: Trees<O, A, B>, n: Input<T, O>)
      modifies this
      ensures Now() == Step(f, old(Now()), n)
    {
      hide FifoControl.Now, Step, WbkPop, MemPop, ExePop, DecPush, X2Pop, X1Pop, X0Push;
      WbkMethod();
      MemFifoGestion(n);
      ExeManageFifo(n);
      DecStall(n);
      MultiplierManageFifos();
      Edge(f, n);
    }
  }
}

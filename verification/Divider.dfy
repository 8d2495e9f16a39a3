/**
 The restoring divider (SIM/SystemC/CORE/EXE/Diviseur.cpp) driven by the execute
 stage's start rule (EXE/exec.cpp, manage_divider): 32 subtract-and-shift steps,
 sign fix-up, and a path of its own for a zero divisor.
 */
module Divider {
  import opened Words
  import opened Isa

  // ----- the registers and one clock

  /** The registers, and the signals that hold their value while the state machine does not drive them. */
  datatype State = State(
    calculating: bool, shift_cpt: nat, divisor: nat, quotient: word, reminder: nat,
    quotient_sign: bool, reminder_sign: bool, busy: bool, done: bool)

  /**
   What the execute stage offers in a clock: whether dec2exe holds a division, its command, and the signals
   op1_se and op2_se.
   */
  datatype Request = Request(division: bool, cmd: command, op1: word, op2: word)

  function IsSigned(c: command): bool { c == 3 || c == 1 }

  function Magnitude(c: command, x: word): word {
    if Bit31(x) && IsSigned(c) then Wrap(Not(x) + 1) else x
  }

  /** START_SE, settled: DONE is raised exactly when the counter stands at 32 in the idle state. */
  function Start(s: State, r: Request): bool {
    r.division && !(if s.calculating then s.done else s.shift_cpt == 32)
  }

  /** The combinational outputs of mae_output and the registers' next values. */
  datatype Outputs = Outputs(
    shift_cpt_se: nat, divisor_se: nat, quotient_se: word, reminder_se: nat,
    quotient_sign: bool, reminder_sign: bool, busy: bool, done: bool, next_calculating: bool)

  function Settle(s: State, r: Request): Outputs {
    if !s.calculating then
      var done := s.shift_cpt == 32;
      if Start(s, r) then
        if r.op2 != 0 then
          Outputs(0, Magnitude(r.cmd, r.op2) * 0x8000_0000, 0, Magnitude(r.cmd, r.op1),
                  (Bit31(r.op2) != Bit31(r.op1)) && IsSigned(r.cmd), Bit31(r.op1) && IsSigned(r.cmd),
                  true, done, true)
        else
          Outputs(32, s.divisor, 0xFFFF_FFFF, r.op1, false, false, true, done, false)
      else
        Outputs(0, s.divisor, s.quotient, s.reminder, s.quotient_sign, s.reminder_sign, false, done, false)
    else if s.shift_cpt <= 31 then
      if s.divisor > s.reminder then
        Outputs(s.shift_cpt + 1, s.divisor / 2, Wrap(s.quotient * 2), s.reminder,
                s.quotient_sign, s.reminder_sign, s.busy, s.done, s.shift_cpt != 31)
      else
        Outputs(s.shift_cpt + 1, s.divisor / 2, Wrap(s.quotient * 2 + 1), s.reminder - s.divisor,
                s.quotient_sign, s.reminder_sign, s.busy, s.done, s.shift_cpt != 31)
    else
      Outputs(s.shift_cpt, s.divisor, s.quotient, s.reminder,
              s.quotient_sign, s.reminder_sign, s.busy, s.done, true)
  }

  function Clock(s: State, r: Request): State {
    var o := Settle(s, r);
    State(o.next_calculating, o.shift_cpt_se, o.divisor_se, o.quotient_se, o.reminder_se,
          o.quotient_sign, o.reminder_sign, o.busy, o.done)
  }

  /** RET: the selected register with its sign fixed up. */
  function Result(s: State, c: command): word {
    if c == 3 || c == 0 then
      var rem := Wrap(s.reminder);
      if s.reminder_sign then Wrap(Not(rem) + 1) else rem
    else if s.quotient_sign then Wrap(Not(s.quotient) + 1) else s.quotient
  }

  // ----- the invariant of the loop of clocks

  ghost predicate SignsOk(s: State, r: Request) {
    && s.quotient_sign == ((Bit31(r.op2) != Bit31(r.op1)) && IsSigned(r.cmd))
    && s.reminder_sign == (Bit31(r.op1) && IsSigned(r.cmd))
  }

  /** k quotient bits found: |op1| = quotient * |op2| * 2^(32-k) + reminder, reminder < |op2| * 2^(32-k). */
  ghost predicate Calculating(s: State, r: Request) {
    && s.calculating && s.shift_cpt <= 31 && r.op2 != 0 && r.division && s.busy && !s.done
    && s.divisor == Magnitude(r.cmd, r.op2) * Pow2(31 - s.shift_cpt)
    && Magnitude(r.cmd, r.op1) == s.quotient * (2 * s.divisor) + s.reminder
    && s.reminder < 2 * s.divisor
    && s.quotient < Pow2(s.shift_cpt)
    && SignsOk(s, r)
  }

  ghost predicate Finished(s: State, r: Request) {
    && !s.calculating && s.shift_cpt == 32 && r.division
    && (if r.op2 == 0 then s.quotient == 0xFFFF_FFFF && s.reminder == r.op1 && !s.quotient_sign && !s.reminder_sign
        else
          && SignsOk(s, r)
          && s.quotient == Magnitude(r.cmd, r.op1) / Magnitude(r.cmd, r.op2)
          && s.reminder == Magnitude(r.cmd, r.op1) % Magnitude(r.cmd, r.op2))
  }

  predicate Fresh(s: State) { !s.calculating && s.shift_cpt != 32 }

  /** The magnitude of a word is the absolute value of its reading; no operand is lost, 0x80000000 included. */
  lemma MagnitudeMeans(c: command, x: word)
    ensures Magnitude(c, x) == if IsSigned(c) then Abs(Signed(x)) else x
    ensures x != 0 ==> 0 < Magnitude(c, x)
  {
  }

  lemma StartCalculates(s: State, r: Request)
    requires Fresh(s) && r.division && r.op2 != 0
    ensures Calculating(Clock(s, r), r) && Clock(s, r).shift_cpt == 0
  {
    Pow2Of32();
    MagnitudeMeans(r.cmd, r.op2);
    hide Pow2, Magnitude, Bit31;
    assert Pow2(0) == 1 by { Pow2Zero(); }
  }

  lemma Pow2Zero()
    ensures Pow2(0) == 1
  {
  }

  /** One step adds a quotient bit. */
  lemma StepKeeps(s: State, r: Request)
    requires Calculating(s, r)
    ensures var s' := Clock(s, r);
            if s.shift_cpt < 31 then Calculating(s', r) && s'.shift_cpt == s.shift_cpt + 1 else Finished(s', r)
  {
    hide Magnitude, Bit31, Pow2;
    if s.shift_cpt < 31 {
      NextBit(s, r);
    } else {
      LastBit(s, r);
    }
  }

  /** The registers after a step, as integers: nothing wraps. */
  lemma StepValues(s: State, r: Request)
    requires Calculating(s, r)
    ensures 2 * s.quotient + 1 < W
    ensures var s' := Clock(s, r);
            && s'.shift_cpt == s.shift_cpt + 1 && s'.calculating == (s.shift_cpt != 31) && s'.busy && !s'.done
            && s'.divisor == s.divisor / 2
            && s'.quotient_sign == s.quotient_sign && s'.reminder_sign == s.reminder_sign
            && s'.quotient == 2 * s.quotient + (if s.divisor > s.reminder then 0 else 1)
            && s'.reminder == s.reminder - (if s.divisor > s.reminder then 0 else s.divisor)
  {
    QuotientRoom(s, r);
    hide Magnitude, Bit31, Pow2, SignsOk, Calculating, Wrap;
    assert Wrap(2 * s.quotient) == 2 * s.quotient && Wrap(2 * s.quotient + 1) == 2 * s.quotient + 1
           by { WrapSmall(s.quotient); }
    CalculatingSignals(s, r);
  }

  lemma WrapSmall(q: nat)
    requires 2 * q + 1 < W
    ensures Wrap(2 * q) == 2 * q && Wrap(2 * q + 1) == 2 * q + 1
  {
  }

  lemma CalculatingSignals(s: State, r: Request)
    requires Calculating(s, r)
    ensures s.calculating && s.shift_cpt <= 31 && s.busy && !s.done
  {
  }

  lemma QuotientRoom(s: State, r: Request)
    requires Calculating(s, r)
    ensures 2 * s.quotient + 1 < W
  {
    hide Magnitude, Bit31, Pow2, SignsOk;
    Pow2Small(s.shift_cpt + 1);
    Pow2Double(s.shift_cpt);
  }

  lemma NextBit(s: State, r: Request)
    requires Calculating(s, r) && s.shift_cpt < 31
    ensures Calculating(Clock(s, r), r) && Clock(s, r).shift_cpt == s.shift_cpt + 1
  {
    hide Magnitude, Bit31, Pow2, SignsOk, Clock;
    var k := s.shift_cpt;
    StepValues(s, r);
    Pow2Double(k);
    QuotientBit(s.quotient, s.divisor, s.reminder);
    Pow2Double(30 - k);
    HalfDivisor(Magnitude(r.cmd, r.op2), Pow2(30 - k));
    SignsStay(s, Clock(s, r), r);
  }

  lemma SignsStay(s: State, s': State, r: Request)
    requires SignsOk(s, r) && s'.quotient_sign == s.quotient_sign && s'.reminder_sign == s.reminder_sign
    ensures SignsOk(s', r)
  {
  }

  lemma LastBit(s: State, r: Request)
    requires Calculating(s, r) && s.shift_cpt == 31
    ensures Finished(Clock(s, r), r)
  {
    hide Magnitude, Bit31, Pow2, SignsOk, Clock;
    Pow2Zero();
    StepValues(s, r);
    QuotientBit(s.quotient, s.divisor, s.reminder);
    var s' := Clock(s, r);
    SignsStay(s, s', r);
    assert s.divisor == Magnitude(r.cmd, r.op2);
    DivModUnique(Magnitude(r.cmd, r.op1), s.divisor, s'.quotient, s'.reminder);
  }

  lemma HalfDivisor(m: nat, p: nat)
    ensures (m * (2 * p)) / 2 == m * p && m * (2 * p) == 2 * (m * p)
  {
  }

  lemma {:induction false} Pow2Small(k: nat)
    requires k <= 32
    ensures Pow2(k) <= W
  {
    Pow2Of32();
    if k < 32 {
      Pow2Add(k, 32 - k);
      MulGe(Pow2(32 - k), 1, Pow2(k));
    }
  }

  /** Splitting off a bit at the divisor's weight. */
  lemma QuotientBit(q: nat, d: nat, r: nat)
    requires r < 2 * d
    ensures q * (2 * d) + r == (2 * q) * d + r
    ensures q * (2 * d) + r == (2 * q + 1) * d + (r - d)
  {
    assert q * (2 * d) == (2 * q) * d;
    assert (2 * q + 1) * d == (2 * q) * d + d;
  }

  lemma QuotientFits(a: word, b: word)
    requires b != 0
    ensures 0 <= a / b < W && 0 <= a % b < W
  {
    var q, r := a / b, a % b;
    assert a == b * q + r;
    MulGe(b, 1, q);
    assert b * q == q * b;
  }

  /** Complement plus one negates. */
  lemma Negated(x: word)
    ensures Wrap(Not(x) + 1) == Wrap(0 - x)
  {
  }

  /** The finished registers hold the ISA's result. */
  lemma FinishedMeetsIsa(s: State, r: Request)
    requires Finished(s, r)
    ensures Result(s, r.cmd) == DivSpec(r.cmd, r.op1, r.op2)
  {
    hide Magnitude, Not;
    MagnitudeMeans(r.cmd, r.op1);
    MagnitudeMeans(r.cmd, r.op2);
    if r.op2 != 0 {
      QuotientFits(Magnitude(r.cmd, r.op1), Magnitude(r.cmd, r.op2));
      FinishedResult(s, r.cmd);
      hide Result;
      SignRule(r.op1);
      SignRule(r.op2);
      hide Signed, Bit31;
      if IsSigned(r.cmd) { SignedRounding(Signed(r.op1), Signed(r.op2)); }
    }
  }

  /** The output as the register or its negation. */
  lemma FinishedResult(s: State, c: command)
    requires s.reminder < W
    ensures Result(s, c) == if c == 3 || c == 0 then (if s.reminder_sign then Wrap(0 - s.reminder) else s.reminder)
                            else (if s.quotient_sign then Wrap(0 - s.quotient) else s.quotient)
  {
    hide Not;
    assert s.reminder == Wrap(s.reminder);
    Negated(s.reminder);
    Negated(s.quotient);
  }

  /** Rounding toward zero, from the magnitudes. */
  lemma SignedRounding(a: int, b: int)
    requires b != 0
    ensures Quot(a, b) == if (b < 0) != (a < 0) then -(Abs(a) / Abs(b)) else Abs(a) / Abs(b)
    ensures Rem(a, b) == if a < 0 then -(Abs(a) % Abs(b)) else Abs(a) % Abs(b)
  {
  }

  lemma SignRule(x: word)
    ensures Bit31(x) <==> Signed(x) < 0
    ensures !Bit31(x) ==> Signed(x) == x
  {
  }

  // ----- one clock of a division, whatever its operand signals do after START

  /** The divider is at work on a request, or done with it. */
  ghost predicate AtWork(s: State, r: Request) { Calculating(s, r) || Finished(s, r) }

  /** The clock that puts it to work. */
  predicate Begins(s: State, r: Request) { !s.calculating && Start(s, r) }

  /** Once at work it is never interrupted. */
  lemma WorkGoesOn(s: State, r: Request, now: Request)
    requires if Begins(s, now) then now == r else Calculating(s, r)
    ensures Settle(s, now).busy && AtWork(Clock(s, now), r) && !Fresh(Clock(s, now))
  {
    BeginsFresh(s, now);
    hide Clock, Settle, Magnitude, SignsOk, Fresh, Start;
    if Begins(s, now) {
      FreshStarts(s, r);
      if r.op2 != 0 { StartCalculates(s, r); } else { ZeroDivisor(s, r); }
    } else {
      CalculatingIsBusy(s, r);
      OperandsIgnored(s, now, r);
      StepKeeps(s, r);
    }
    AtWorkIsNotFresh(Clock(s, now), r);
  }

  lemma BeginsFresh(s: State, r: Request)
    ensures Begins(s, r) <==> Fresh(s) && r.division
  {
  }

  lemma AtWorkIsNotFresh(s: State, r: Request)
    requires AtWork(s, r)
    ensures !Fresh(s) && r.division && (Calculating(s, r) <==> s.calculating)
  {
  }

  // ----- runs: after START the operands are not looked at again

  function After(s0: State, rs: seq<Request>, k: nat): State
    requires k <= |rs|
  {
    if k == 0 then s0 else Clock(After(s0, rs, k - 1), rs[k - 1])
  }

  function Busy(s0: State, rs: seq<Request>, k: nat): bool
    requires k < |rs|
  {
    Settle(After(s0, rs, k), rs[k]).busy
  }

  /** BUSY keeps the instruction in EXE. Its operand signals may change: forwarding drives them anew in every clock. */
  ghost predicate HeldWhileBusy(s0: State, rs: seq<Request>) {
    forall k :: 0 <= k < |rs| - 1 && Busy(s0, rs, k) ==> rs[k + 1].division && rs[k + 1].cmd == rs[k].cmd
  }

  /** One clock to the result for a zero divisor, 33 for any other. */
  function Latency(r: Request): nat { if r.op2 == 0 then 1 else 33 }

  /** While it calculates, the divider's next state does not depend on what EXE offers. */
  lemma OperandsIgnored(s: State, r: Request, r': Request)
    requires s.calculating
    ensures Clock(s, r) == Clock(s, r') && Settle(s, r) == Settle(s, r')
  {
  }

  /** A division started at clock j is under way, or its result stands in the registers, at clock k. */
  ghost predicate Underway(s0: State, rs: seq<Request>, j: nat, k: nat)
    requires k < |rs|
  {
    && j < k && rs[j].division && Fresh(After(s0, rs, j))
    && (forall i :: j <= i <= k ==> rs[i].division && rs[i].cmd == rs[j].cmd)
    && (forall i :: j <= i < k ==> Busy(s0, rs, i)) && (forall i :: j < i <= k ==> !Fresh(After(s0, rs, i)))
    && (if k < j + Latency(rs[j]) then Calculating(After(s0, rs, k), rs[j]) && After(s0, rs, k).shift_cpt == k - j - 1
        else k == j + Latency(rs[j]) && Finished(After(s0, rs, k), rs[j]))
  }

  /** The clock after START. */
  lemma Started(s0: State, rs: seq<Request>, j: nat)
    requires j + 1 < |rs| && Fresh(After(s0, rs, j)) && rs[j].division && HeldWhileBusy(s0, rs)
    ensures Underway(s0, rs, j, j + 1)
  {
    hide Calculating, Finished, Clock, Settle, Fresh, After;
    FreshStarts(After(s0, rs, j), rs[j]);
    AfterStep(s0, rs, j);
    assert Busy(s0, rs, j);
    if rs[j].op2 != 0 {
      StartCalculates(After(s0, rs, j), rs[j]);
    } else {
      ZeroDivisor(After(s0, rs, j), rs[j]);
    }
    AtWorkIsNotFresh(After(s0, rs, j + 1), rs[j]);
  }

  lemma KeepsUnderway(s0: State, rs: seq<Request>, j: nat, k: nat)
    requires k + 1 < |rs| && Underway(s0, rs, j, k) && k < j + Latency(rs[j]) && HeldWhileBusy(s0, rs)
    ensures Underway(s0, rs, j, k + 1)
  {
    hide Calculating, Finished, Clock, Settle, Fresh, After;
    var s := After(s0, rs, k);
    AfterStep(s0, rs, k);
    CalculatingIsBusy(s, rs[j]);
    OperandsIgnored(s, rs[k], rs[j]);
    StepKeeps(s, rs[j]);
    AtWorkIsNotFresh(After(s0, rs, k + 1), rs[j]);
    assert Busy(s0, rs, k);
  }

  lemma CalculatingIsBusy(s: State, r: Request)
    requires Calculating(s, r)
    ensures s.calculating && s.shift_cpt <= 31 && Settle(s, r).busy && !Settle(s, r).done
  {
  }

  lemma FinishedIsDone(s: State, r: Request, now: Request)
    requires Finished(s, r)
    ensures Settle(s, now).done && !Settle(s, now).busy && Fresh(Clock(s, now)) && s.shift_cpt == 32
  {
  }

  /** In every clock of every run the divider is idle, or a division started earlier is under way or finished. */
  lemma {:induction false} Origin(s0: State, rs: seq<Request>, k: nat) returns (j: nat)
    requires Fresh(s0) && HeldWhileBusy(s0, rs) && k < |rs|
    ensures Fresh(After(s0, rs, k)) || Underway(s0, rs, j, k)
  {
    hide Clock, Settle, Calculating, Finished, Fresh, HeldWhileBusy;
    j := 0;
    if k > 0 {
      var i := Origin(s0, rs, k - 1);
      if Fresh(After(s0, rs, k - 1)) {
        if rs[k - 1].division {
          j := k - 1;
          Started(s0, rs, j);
        } else {
          IdleStays(After(s0, rs, k - 1), rs[k - 1]);
        }
      } else if k - 1 < i + Latency(rs[i]) {
        j := i;
        KeepsUnderway(s0, rs, i, k - 1);
      } else {
        FinishedIsDone(After(s0, rs, k - 1), rs[i], rs[k - 1]);
      }
    }
  }

  lemma FreshStarts(s: State, r: Request)
    requires r.division
    ensures Fresh(s) ==> Settle(s, r).busy && !Settle(s, r).done && Start(s, r)
  {
  }

  lemma AfterStep(s0: State, rs: seq<Request>, k: nat)
    requires k < |rs|
    ensures After(s0, rs, k + 1) == Clock(After(s0, rs, k), rs[k])
  {
  }

  lemma ZeroDivisor(s: State, r: Request)
    requires Fresh(s) && r.division && r.op2 == 0
    ensures Finished(Clock(s, r), r)
  {
  }

  lemma IdleStays(s: State, r: Request)
    requires Fresh(s) && !r.division
    ensures Fresh(Clock(s, r)) && !Settle(s, r).busy
  {
  }

  /**
   Main theorem. Over every run, back-to-back divisions and restarts included, and whatever the operand
   signals do after START: a division that EXE may let go (BUSY is down) was started exactly Latency clocks
   before, was busy ever since, and leaves with the ISA's result of the operands of its START clock.
   */
  lemma LeavesWithResult(s0: State, rs: seq<Request>, k: nat) returns (j: nat)
    requires Fresh(s0) && HeldWhileBusy(s0, rs) && k < |rs| && rs[k].division && !Busy(s0, rs, k)
    ensures j < k && k == j + Latency(rs[j]) && Begins(After(s0, rs, j), rs[j])
    ensures forall i :: j <= i < k ==> rs[i].division && rs[i].cmd == rs[k].cmd && Busy(s0, rs, i)
    ensures forall i :: j < i <= k ==> !Begins(After(s0, rs, i), rs[i])
    ensures Result(After(s0, rs, k), rs[k].cmd) == DivSpec(rs[k].cmd, rs[j].op1, rs[j].op2)
  {
    j := Origin(s0, rs, k);
    var s := After(s0, rs, k);
    FreshStarts(s, rs[k]);
    BeginsFresh(After(s0, rs, j), rs[j]);
    hide Clock, Settle, Calculating, Finished, Fresh, After, Result, DivSpec, Start, Begins;
    forall i | j < i <= k ensures !Begins(After(s0, rs, i), rs[i]) { BeginsFresh(After(s0, rs, i), rs[i]); }
    if k < j + Latency(rs[j]) {
      CalculatingIsBusy(s, rs[j]);
      OperandsIgnored(s, rs[k], rs[j]);
    } else {
      FinishedMeetsIsa(s, rs[j]);
    }
  }

  /**
   Main theorem on time. From an idle divider, with a division staying in EXE and any operand signals
   after its first clock: BUSY is up and DONE down for exactly Latency clocks; then DONE is up, BUSY down,
   and the output is the ISA's result of the first clock's operands.
   */
  lemma DividerTiming(s0: State, rs: seq<Request>)
    requires Fresh(s0) && rs != [] && |rs| == Latency(rs[0]) + 1
    requires forall k :: 0 <= k < |rs| ==> rs[k].division && rs[k].cmd == rs[0].cmd
    ensures forall k :: 0 <= k < Latency(rs[0]) ==> Busy(s0, rs, k) && !Settle(After(s0, rs, k), rs[k]).done
    ensures var n := Latency(rs[0]);
            && Settle(After(s0, rs, n), rs[n]).done && !Busy(s0, rs, n)
            && Result(After(s0, rs, n), rs[0].cmd) == DivSpec(rs[0].cmd, rs[0].op1, rs[0].op2)
  {
    var n := Latency(rs[0]);
    forall k | 0 <= k < n ensures Busy(s0, rs, k) && !Settle(After(s0, rs, k), rs[k]).done {
      assert Fresh(After(s0, rs, 0));
      if k > 0 {
        ReachesClock(s0, rs, k);
        CalculatingIsBusy(After(s0, rs, k), rs[0]);
        OperandsIgnored(After(s0, rs, k), rs[k], rs[0]);
      }
    }
    ReachesClock(s0, rs, n);
    FinishedIsDone(After(s0, rs, n), rs[0], rs[n]);
    FinishedMeetsIsa(After(s0, rs, n), rs[0]);
  }

  lemma {:induction false} ReachesClock(s0: State, rs: seq<Request>, k: nat)
    requires Fresh(s0) && 1 <= k < |rs| && k <= Latency(rs[0])
    requires forall i :: 0 <= i < |rs| ==> rs[i].division && rs[i].cmd == rs[0].cmd
    ensures Underway(s0, rs, 0, k)
  {
    hide Clock, Settle, Calculating, Finished;
    assert HeldWhileBusy(s0, rs);
    if k == 1 { Started(s0, rs, 0); } else {
      ReachesClock(s0, rs, k - 1);
      KeepsUnderway(s0, rs, 0, k - 1);
    }
  }

  // ----- the source's form

  class Diviseur {
    var current_state: nat
    var next_state: nat
    var shift_cpt_re: nat
    var shift_cpt_se: nat
    var divisor_re: nat
    var divisor_se: nat
    var quotient_re: word
    var quotient_se: word
    var reminder_re: nat
    var reminder_se: nat
    var quotient_sign_se: bool
    var reminder_sign_se: bool
    var BUSY_SE: bool
    var DONE_SE: bool

    ghost function Registers(): State
      reads this
    {
      State(current_state == 1, shift_cpt_re, divisor_re, quotient_re, reminder_re,
            quotient_sign_se, reminder_sign_se, BUSY_SE, DONE_SE)
    }

    /** The driven signals hold what the registers hold until they are driven again. */
    ghost predicate Held()
      reads this
    {
      current_state <= 1 && divisor_se == divisor_re && quotient_se == quotient_re && reminder_se == reminder_re
    }

    constructor ()
      ensures Held() && Fresh(Registers())
    {
      current_state, next_state, shift_cpt_re, shift_cpt_se := 0, 0, 0, 0;
      divisor_re, divisor_se, quotient_re, quotient_se, reminder_re, reminder_se := 0, 0, 0, 0, 0, 0;
      quotient_sign_se, reminder_sign_se, BUSY_SE, DONE_SE := false, false, false, false;
    }

    /**
     The execute stage raises START while a division waits and DONE is down; in the idle state DONE shows the counter.
     */
    method ManageDivider(r: Request) returns (START_SE: bool)
      requires current_state <= 1
      ensures START_SE == Start(Registers(), r)
    {
      var done := if current_state == 0 then shift_cpt_re == 32 else DONE_SE;
      if r.division && !done {
        START_SE := true;
      } else {
        START_SE := false;
      }
    }

    method StateTransition(START_SE: bool, OP2_SE: word)
      requires current_state <= 1
      modifies `next_state
      ensures next_state == if current_state == 0 then (if START_SE && OP2_SE != 0 then 1 else 0)
                            else if shift_cpt_re == 31 then 0 else 1
    {
      if current_state == 0 {
        if START_SE && OP2_SE != 0 {
          next_state := 1;
        } else {
          next_state := 0;
        }
      } else {
        if shift_cpt_re == 31 {
          next_state := 0;
        } else {
          next_state := 1;
        }
      }
    }

    /** mae_output in the idle state. */
    method MaeIdle(r: Request)
      requires Held() && current_state == 0
      modifies `shift_cpt_se, `divisor_se, `quotient_se, `reminder_se, `quotient_sign_se, `reminder_sign_se, `BUSY_SE,
               `DONE_SE
      ensures Driven(Settle(old(Registers()), r))
    {
      hide Bit31, Wrap, Not;
      if r.division && shift_cpt_re != 32 {
        if r.op2 != 0 {
          var op2, op1 := r.op2, r.op1;
          var signed_inst := r.cmd == 3 || r.cmd == 1;
          quotient_sign_se := (Bit31(op2) != Bit31(op1)) && signed_inst;
          reminder_sign_se := Bit31(op1) && signed_inst;
          if Bit31(op1) && signed_inst {
            op1 := Wrap(Not(op1) + 1);
          }
          if Bit31(op2) && signed_inst {
            op2 := Wrap(Not(op2) + 1);
          }
          divisor_se := (op2 as int) * 0x8000_0000;
          quotient_se := 0;
          reminder_se := op1;
          BUSY_SE := true;
          shift_cpt_se := 0;
        } else {
          quotient_sign_se := false;
          reminder_sign_se := false;
          reminder_se := r.op1;
          quotient_se := 0xFFFF_FFFF;
          BUSY_SE := true;
          shift_cpt_se := 32;
        }
      } else {
        BUSY_SE := false;
        shift_cpt_se := 0;
      }
      DONE_SE := shift_cpt_re == 32;
    }

    /** mae_output in the calculating state. */
    method MaeCalculating(ghost r: Request)
      requires Held() && current_state == 1
      modifies `shift_cpt_se, `divisor_se, `quotient_se, `reminder_se
      ensures Driven(Settle(old(Registers()), r))
    {
      hide Wrap;
      if shift_cpt_re <= 31 {
        if divisor_re > reminder_re {
          divisor_se := divisor_re / 2;
          quotient_se := Wrap(quotient_re * 2);
        } else {
          reminder_se := reminder_re - divisor_re;
          quotient_se := Wrap(quotient_re * 2 + 1);
          divisor_se := divisor_re / 2;
        }
        shift_cpt_se := shift_cpt_re + 1;
      } else {
        shift_cpt_se := shift_cpt_re;
      }
    }

    /** The outputs as signals. */
    ghost predicate Driven(o: Outputs)
      reads this
    {
      && shift_cpt_se == o.shift_cpt_se && divisor_se == o.divisor_se && quotient_se == o.quotient_se
      && reminder_se == o.reminder_se && quotient_sign_se == o.quotient_sign && reminder_sign_se == o.reminder_sign
      && BUSY_SE == o.busy && DONE_SE == o.done
    }

    method MaeOutput(r: Request)
      requires Held()
      modifies `shift_cpt_se, `divisor_se, `quotient_se, `reminder_se, `quotient_sign_se, `reminder_sign_se, `BUSY_SE,
               `DONE_SE
      ensures Driven(Settle(old(Registers()), r))
    {
      hide Settle;
      if current_state == 0 {
        MaeIdle(r);
      } else {
        MaeCalculating(r);
      }
    }

    method NewState()
      modifies `current_state, `shift_cpt_re, `divisor_re, `quotient_re, `reminder_re
      ensures current_state == next_state && shift_cpt_re == shift_cpt_se
      ensures divisor_re == divisor_se && quotient_re == quotient_se && reminder_re == reminder_se
    {
      current_state := next_state;
      shift_cpt_re := shift_cpt_se;
      divisor_re := divisor_se;
      quotient_re := quotient_se;
      reminder_re := reminder_se;
    }

    /** One clock under a request. */
    method ClockCycle(r: Request)
      requires Held()
      modifies this
      ensures Held() && Registers() == Clock(old(Registers()), r)
    {
      hide Magnitude;
      var START_SE := ManageDivider(r);
      StateTransition(START_SE, r.op2);
      MaeOutput(r);
      NewState();
    }

    /** The output; when the registers are finished for a request, the ISA's result of that request. */
    method Ret(c: command) returns (DIVIDER_RES_OUTPUT: word)
      ensures DIVIDER_RES_OUTPUT == Result(Registers(), c)
      ensures forall r :: Finished(Registers(), r) && r.cmd == c ==> DIVIDER_RES_OUTPUT == DivSpec(c, r.op1, r.op2)
    {
      forall r | Finished(Registers(), r) && r.cmd == c ensures Result(Registers(), c) == DivSpec(c, r.op1, r.op2) {
        FinishedMeetsIsa(Registers(), r);
      }
      hide Finished, DivSpec;
      if c == 3 || c == 0 {
        var rem := Wrap(reminder_re);
        if reminder_sign_se {
          rem := Wrap(Not(rem) + 1);
        }
        DIVIDER_RES_OUTPUT := rem;
      } else {
        var quo := quotient_re;
        if quotient_sign_se {
          quo := Wrap(Not(quo) + 1);
        }
        DIVIDER_RES_OUTPUT := quo;
      }
    }
  }
}

/**
 The timer and its acknowledge (SIM/SystemC/CORE/TIMER/timer.cpp, CSR/csr.cpp):
 two clocked processes that read each other's registers from before the edge.
 */
module Timer {
  import opened Words

  /** Timer registers counter, divider, config bits 0 (enable) and 1 (reload), the line, and CSR's ACK and mip. */
  datatype State = State(
    counter: word, divider: word, enable: bool, reload: bool, intr: bool, ack: bool, mip: bv32)

  const MTIP: bv32 := 0x80

  /** One clock edge of both processes, with no CSR write and no exception. */
  function Step(s: State): State {
    var expired := s.enable && s.counter == s.divider;
    State(
      if s.enable then (if s.counter == s.divider then (if s.ack then 0 else s.counter) else Wrap(s.counter + 1))
          else s.counter,
      s.divider,
      if expired && s.ack then s.enable && s.reload else s.enable,
      s.reload,
      expired && !s.ack,
      s.intr,
      if s.intr then s.mip | MTIP else s.mip)
  }

  function After(s: State, n: nat): State {
    if n == 0 then s else Step(After(s, n - 1))
  }

  /** Enabled, at the limit, and nothing pending: the line goes up at the next edge. */
  predicate AtLimit(s: State) { s.enable && s.counter == s.divider && !s.intr && !s.ack }

  /** Enabled with nothing pending; the counter may stand anywhere. */
  predicate Armed(s: State) { s.enable && !s.intr && !s.ack }

  /** How many clocks the counter takes to the limit; above it, it goes around. */
  function ToGo(s: State): nat { Wrap(s.divider - s.counter) }

  function Period(divider: word): nat { (if divider > 1 then divider else 1) + 3 }

  lemma {:induction false} AfterAdd(s: State, m: nat, n: nat)
    ensures After(s, m + n) == After(After(s, m), n)
  {
    if n > 0 {
      AfterAdd(s, m, n - 1);
      assert m + n - 1 == m + (n - 1);
    }
  }

  /** From anywhere the counter goes to the limit one step a clock, the line down all the way. */
  lemma {:induction false} CountsUp(s: State, n: nat)
    requires Armed(s) && n <= ToGo(s)
    ensures After(s, n) == s.(counter := Wrap(s.counter + n))
  {
    hide Wrap;
    if n == 0 {
      SameWord(s.counter);
    } else {
      CountsUp(s, n - 1);
      NotYetThere(s.counter, s.divider, n - 1);
      WrapSum(1, s.counter + (n - 1));
    }
  }

  lemma SameWord(x: word)
    ensures Wrap(x) == x
  {
  }

  lemma NotYetThere(counter: word, divider: word, m: nat)
    ensures m < Wrap(divider - counter) ==> Wrap(counter + m) != divider
    ensures m == Wrap(divider - counter) ==> Wrap(counter + m) == divider
  {
  }

  /** So the first expiry comes exactly then: the line is down up to the limit and goes up behind it. */
  lemma FirstExpiry(s: State)
    requires Armed(s)
    ensures AtLimit(After(s, ToGo(s))) && After(s, ToGo(s) + 1).intr
    ensures forall n :: 0 <= n <= ToGo(s) ==> !After(s, n).intr
  {
    hide Wrap, Step;
    CountsUp(s, ToGo(s));
    NotYetThere(s.counter, s.divider, ToGo(s));
    Raise(After(s, ToGo(s)));
    forall n | 0 <= n <= ToGo(s) ensures !After(s, n).intr { CountsUp(s, n); }
  }

  lemma FourSteps(s: State)
    ensures After(s, 1) == Step(s) && After(s, 2) == Step(Step(s))
    ensures After(s, 3) == Step(Step(Step(s))) && After(s, 4) == Step(Step(Step(Step(s))))
  {
    hide Step;
    assert After(s, 0) == s;
    assert After(s, 1) == Step(s);
    assert After(s, 2) == Step(After(s, 1));
    assert After(s, 3) == Step(After(s, 2));
  }

  /** The first two edges of an expiry raise the line and get it acknowledged. */
  lemma Raise(s: State)
    requires AtLimit(s)
    ensures Step(s) == s.(intr := true)
    ensures Step(Step(s)) == s.(intr := true, ack := true, mip := s.mip | MTIP)
  {
  }

  /** The next two drop the line and the acknowledge, and restart or stop the timer. */
  lemma Drop(s: State, m: bv32)
    requires s.enable && s.counter == s.divider && s.intr && s.ack && s.mip == m | MTIP
    ensures var s3 := s.(counter := 0, enable := s.reload, intr := false);
            && Step(s) == s3
            && Step(s3) == s3.(counter := if s.reload && s.divider != 0 then 1 else 0, ack := false)
  {
    SetTwice(m);
  }

  /** The four edges of an expiry. */
  lemma Expiry(s: State)
    requires AtLimit(s)
    ensures After(s, 1).intr && After(s, 2).intr && !After(s, 3).intr && !After(s, 4).intr
    ensures After(s, 2).mip == s.mip | MTIP
    ensures s.reload ==>
      After(s, 4) == s.(counter := if s.divider == 0 then 0 else 1, mip := s.mip | MTIP)
    ensures !s.reload ==> !After(s, 3).enable && !After(s, 4).enable && !After(s, 4).ack
  {
    hide Step;
    FourSteps(s);
    Raise(s);
    Drop(Step(Step(s)), s.mip);
  }

  lemma SetTwice(m: bv32)
    ensures (m | MTIP) | MTIP == m | MTIP && (m | MTIP) & MTIP == MTIP
  {
  }

  /** With reload, one period after the limit the timer is back at the limit, bit 7 of mip set. */
  lemma OnePeriod(s: State)
    requires AtLimit(s) && s.reload
    ensures After(s, Period(s.divider)) == s.(mip := s.mip | MTIP)
    ensures forall j :: 0 <= j < Period(s.divider) ==> (After(s, j).intr <==> j == 1 || j == 2)
  {
    hide After, Step;
    Expiry(s);
    AfterZero(s);
    var s4 := After(s, 4);
    if s.divider >= 1 {
      CountsUp(s4, s.divider - 1);
      AfterAdd(s, 4, s.divider - 1);
    }
    forall j | 4 <= j < Period(s.divider) ensures !After(s, j).intr {
      CountsUp(s4, j - 4);
      AfterAdd(s, 4, j - 4);
    }
  }

  lemma AfterZero(s: State)
    ensures After(s, 0) == s
  {
  }

  /**
   Main theorem, auto-reload: for every divider the line is up for exactly the first two clocks of
   every period of max(divider, 1) + 3 clocks, and bit 7 of mip is set from the first expiry on.
   */
  lemma {:induction false} ReloadRecurs(s: State, n: nat, j: nat)
    requires AtLimit(s) && s.reload && j < Period(s.divider)
    ensures AtLimit(After(s, n * Period(s.divider)))
    ensures After(s, n * Period(s.divider) + j).intr <==> j == 1 || j == 2
    ensures n >= 1 ==> After(s, n * Period(s.divider)).mip & 0x80 == 0x80
  {
    hide After, Step, Period;
    var p := Period(s.divider);
    if n == 0 {
      AfterZero(s);
      OnePeriod(s);
    } else {
      PeriodsFromStart(s, n);
      var t := After(s, n * p);
      OnePeriod(t);
      AfterAdd(s, n * p, j);
      SetTwice(s.mip);
    }
  }

  lemma {:induction false} PeriodsFromStart(s: State, n: nat)
    requires AtLimit(s) && s.reload && n >= 1
    ensures After(s, n * Period(s.divider)) == s.(mip := s.mip | MTIP)
  {
    hide After, Step, Period;
    var p := Period(s.divider);
    if n == 1 {
      OnePeriod(s);
    } else {
      PeriodsFromStart(s, n - 1);
      var t := After(s, (n - 1) * p);
      OnePeriod(t);
      AfterAdd(s, (n - 1) * p, p);
      assert (n - 1) * p + p == n * p;
      SetTwice(s.mip);
    }
  }

  /** Main theorem, one-shot: the line is up at exactly two clocks, ever. */
  lemma {:induction false} OneShot(s: State, n: nat)
    requires AtLimit(s) && !s.reload
    ensures After(s, n).intr <==> n == 1 || n == 2
    ensures n >= 4 ==> !After(s, n).enable && !After(s, n).ack
  {
    hide Step;
    Expiry(s);
    if n >= 5 {
      OneShot(s, n - 1);
      StaysOff(After(s, n - 1));
    } else {
      AfterZero(s);
    }
  }

  lemma StaysOff(s: State)
    requires !s.enable && !s.intr
    ensures !Step(s).enable && !Step(s).intr && !Step(s).ack
  {
  }

  // ----- the source's form

  class TimerAndCsr {
    var counter_rt: word
    var divider_rt: word
    var config_rt: bv2
    var TIMER_INT_ST: bool
    var ACK_SP: bool
    var mip: bv32

    ghost function Now(): State
      reads this
    {
      State(counter_rt, divider_rt, config_rt & 1 == 1, config_rt & 2 == 2, TIMER_INT_ST, ACK_SP, mip)
    }

    /** One edge: both processes read the values from before it. */
    method Edge()
      modifies this
      ensures Now() == Step(old(Now()))
    {
      var intr, ack, config := TIMER_INT_ST, ACK_SP, config_rt;
      // timer::thread
      TIMER_INT_ST := false;
      if config & 1 == 1 {
        if counter_rt == divider_rt {
          if ack {
            counter_rt := 0;
            if config & 2 != 2 {
              config_rt := 0;
            }
          } else {
            TIMER_INT_ST := true;
          }
        } else {
          counter_rt := Wrap(counter_rt + 1);
        }
      }
      // csr::writing_csr
      if intr {
        ACK_SP := true;
        mip := mip | MTIP;
      } else {
        ACK_SP := false;
      }
    }
  }
}

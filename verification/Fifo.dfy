/** The one-place FIFO that separates all stages of the core (SIM/SystemC/UTIL/fifo.h). */
module Fifo {

  /** The two registers of a FIFO: fifo_v and DOUT_R. DOUT_R keeps its value when emptied. */
  datatype Slot<T> = Slot(valid: bool, dout: T) {

    predicate Empty() { !valid }

    /** A valid FIFO that is being popped is not full. */
    predicate Full(pop: bool) { valid && !pop }

    /** The clock edge. */
    function Clock(push: bool, pop: bool, din: T): Slot<T> {
      if valid && !push && pop then Slot(false, dout)
      else if push && (pop || !valid) then Slot(true, din)
      else this
    }

    function Contents(): seq<T> { if valid then [dout] else [] }
  }

  /** For every combination of inputs, a cycle takes the old token out first and then lets the new one in. */
  lemma FifoOrder<T>(s: Slot<T>, push: bool, pop: bool, din: T)
    ensures var accepted := push && !s.Full(pop);
            var released := pop && !s.Empty();
            s.Clock(push, pop, din).Contents()
            == (if released then [] else s.Contents()) + (if accepted then [din] else [])
    ensures |s.Clock(push, pop, din).Contents()| <= 1
    ensures !(push && !s.Full(pop)) ==> s.Clock(push, pop, din).dout == s.dout
  {
  }

  class FifoReg<T(0)> {
    var fifo_v: bool
    var DOUT_R: T
    var FULL_S: bool
    var EMPTY_S: bool

    ghost function State(): Slot<T>
      reads this
    {
      Slot(fifo_v, DOUT_R)
    }

    constructor (zero: T)
      ensures State() == Slot(false, zero)
    {
      fifo_v := false;
      DOUT_R := zero;
      FULL_S := false;
      EMPTY_S := true;
    }

    method FlagsUpdate(push: bool, pop: bool)
      modifies this`FULL_S, this`EMPTY_S
      ensures FULL_S == State().Full(pop)
      ensures EMPTY_S == State().Empty()
    {
      if fifo_v {
        if pop {
          FULL_S := false;
          EMPTY_S := false;
        } else {
          FULL_S := true;
          EMPTY_S := false;
        }
      } else {
        FULL_S := false;
        EMPTY_S := true;
      }
    }

    method Function(push: bool, pop: bool, din: T)
      modifies this`fifo_v, this`DOUT_R
      ensures State() == old(State()).Clock(push, pop, din)
    {
      if fifo_v && !push && pop {
        fifo_v := false;
      } else if push && (pop || !fifo_v) {
        DOUT_R := din;
        fifo_v := true;
      }
    }
  }
}

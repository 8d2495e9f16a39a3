/**
 Replacement state of the branch cache (SIM/SystemC/CORE/PRED_BRANCH_CACHE/
 pred_branch_cache.cpp, pred_write): four slots, a priority bit each whose sense
 inverse_lru flips, and a two-bit counter.
 */
module Predictor {

  type bit = x: int | 0 <= x <= 1

  datatype Entry = Entry(present: bool, instAdr: int, targetAdr: int, counter: int)

  datatype Cache = Cache(entries: seq<Entry>, lru: seq<bit>, inverse_lru: bit, p_nb: int)

  datatype Command = Skip | Write(slot: nat, adr: int, target: int, cpt: int) | Update(slot: nat, cpt: int)

  predicate Shape(c: Cache) { |c.entries| == 4 && |c.lru| == 4 && 0 <= c.p_nb < 4 }

  predicate Low(c: Cache, i: nat)
    requires Shape(c) && i < 4
  {
    c.lru[i] == c.inverse_lru
  }

  function HighBit(c: Cache, i: nat): nat
    requires Shape(c) && i < 4
  {
    if Low(c, i) then 0 else 1
  }

  /** How many slots have high priority. */
  function High(c: Cache): nat
    requires Shape(c)
  {
    HighBit(c, 0) + HighBit(c, 1) + HighBit(c, 2) + HighBit(c, 3)
  }

  predicate LastLow(c: Cache) { (c.p_nb == 3 && c.inverse_lru == 0) || (c.p_nb == 1 && c.inverse_lru == 1) }

  /** Giving a slot high priority, or flipping the sense when it is the last low one. */
  function Promote(c: Cache, slot: nat): Cache
    requires Shape(c) && slot < 4
  {
    if LastLow(c) then c.(inverse_lru := 1 - c.inverse_lru)
    else c.(p_nb := (c.p_nb + 1) % 4, lru := c.lru[slot := 1 - c.inverse_lru])
  }

  function Step(c: Cache, m: Command): Cache
    requires Shape(c) && (!m.Skip? ==> m.slot < 4)
  {
    match m
    case Skip => c
    case Write(slot, adr, target, cpt) =>
      Promote(c.(entries := c.entries[slot := Entry(true, adr, target, cpt)]), slot)
    case Update(slot, cpt) =>
      var d := c.(entries := c.entries[slot := c.entries[slot].(present := true, counter := cpt)]);
      if Low(c, slot) then Promote(d, slot) else d
  }

  /** Commands name slots; a write names one of low priority, an update any. */
  predicate Allowed(c: Cache, m: Command)
    requires Shape(c)
  {
    match m
    case Skip => true
    case Write(slot, _, _, _) => slot < 4 && Low(c, slot)
    case Update(slot, _) => slot < 4
  }

  /** p_nb counts the high-priority slots modulo 4, offset by two while the sense is flipped; one slot is always low. */
  predicate Counted(c: Cache) {
    Shape(c) && c.p_nb == (High(c) + 2 * c.inverse_lru) % 4 && High(c) <= 3
  }

  /** Flipping the sense swaps low and high. */
  lemma FlipHigh(c: Cache)
    requires Shape(c)
    ensures High(c.(inverse_lru := 1 - c.inverse_lru)) == 4 - High(c)
  {
  }

  lemma RaiseHigh(c: Cache, slot: nat, p: int)
    requires Shape(c) && slot < 4 && Low(c, slot) && 0 <= p < 4
    ensures High(c.(p_nb := p, lru := c.lru[slot := 1 - c.inverse_lru])) == High(c) + 1
  {
    assert slot == 0 || slot == 1 || slot == 2 || slot == 3;
  }

  lemma PromoteKeeps(c: Cache, slot: nat)
    requires Counted(c) && slot < 4 && Low(c, slot)
    ensures Counted(Promote(c, slot)) && !Low(Promote(c, slot), slot)
  {
    hide High;
    FlipHigh(c);
    RaiseHigh(c, slot, (c.p_nb + 1) % 4);
    SomeLow(c, slot);
  }

  lemma SomeLow(c: Cache, slot: nat)
    requires Shape(c) && slot < 4 && Low(c, slot)
    ensures High(c) <= 3
    ensures High(c.(p_nb := (c.p_nb + 1) % 4, lru := c.lru[slot := 1 - c.inverse_lru])) == 4 ==> High(c) == 3
  {
    RaiseHigh(c, slot, (c.p_nb + 1) % 4);
  }

  lemma StepKeeps(c: Cache, m: Command)
    requires Counted(c) && Allowed(c, m)
    ensures Counted(Step(c, m))
    ensures !m.Skip? ==> !Low(Step(c, m), m.slot)
  {
    hide Promote;
    match m
    case Skip =>
    case Write(slot, adr, target, cpt) =>
      PromoteKeeps(c.(entries := c.entries[slot := Entry(true, adr, target, cpt)]), slot);
    case Update(slot, cpt) =>
      if Low(c, slot) {
        PromoteKeeps(c.(entries := c.entries[slot := c.entries[slot].(present := true, counter := cpt)]), slot);
      }
  }

  predicate AfterReset(c: Cache) {
    Shape(c) && c.lru == [0, 0, 0, 0] && c.inverse_lru == 0 && c.p_nb == 0
  }

  /** A run: the cache after each command. */
  ghost predicate Run(cs: seq<Cache>, ms: seq<Command>) {
    && |cs| == |ms| + 1 && AfterReset(cs[0])
    && forall k :: 0 <= k < |ms| ==> Shape(cs[k]) && Allowed(cs[k], ms[k]) && cs[k + 1] == Step(cs[k], ms[k])
  }

  /**
   Main theorem: in every reachable state the counter is right, some slot has low priority, and the
   slot written or updated last is not one of them.
   */
  lemma {:induction false} ReplacementSound(cs: seq<Cache>, ms: seq<Command>, k: nat)
    requires Run(cs, ms) && k <= |ms|
    ensures Counted(cs[k])
    ensures exists i :: 0 <= i < 4 && Low(cs[k], i)
    ensures forall j :: 0 <= j < k && !ms[j].Skip? && (forall i :: j < i < k ==> ms[i].Skip?) ==>
              ms[j].slot < 4 && !Low(cs[k], ms[j].slot)
  {
    if k > 0 {
      ReplacementSound(cs, ms, k - 1);
      StepKeeps(cs[k - 1], ms[k - 1]);
      forall j | 0 <= j < k && !ms[j].Skip? && (forall i :: j < i < k ==> ms[i].Skip?)
        ensures ms[j].slot < 4 && !Low(cs[k], ms[j].slot)
      {
        if j < k - 1 {
          assert ms[k - 1].Skip?;
        }
      }
    }
    LowExists(cs[k]);
  }

  lemma LowExists(c: Cache)
    requires Counted(c)
    ensures exists i :: 0 <= i < 4 && Low(c, i)
  {
    if !Low(c, 0) && !Low(c, 1) && !Low(c, 2) {
      assert Low(c, 3);
    }
  }

  /**
   The condition on writes is exact: after a write the count is right and the slot is high if and only if
   the slot was low before.
   */
  lemma WriteConditionExact(c: Cache, slot: nat, adr: int, target: int, cpt: int)
    requires Counted(c) && slot < 4
    ensures var c' := Step(c, Write(slot, adr, target, cpt));
            Counted(c') && !Low(c', slot) <==> Low(c, slot)
  {
    if Low(c, slot) {
      StepKeeps(c, Write(slot, adr, target, cpt));
    } else {
      assert slot == 0 || slot == 1 || slot == 2 || slot == 3;
    }
  }

  // ----- what the slots hold

  predicate Names(m: Command, slot: nat) { !m.Skip? && m.slot == slot }

  predicate Writes(m: Command, slot: nat) { m.Write? && m.slot == slot }

  /** The j-th command is the last in front of the k-th that names, or that writes, a slot. */
  ghost predicate LastNaming(ms: seq<Command>, slot: nat, j: nat, k: nat)
    requires k <= |ms|
  {
    j < k && Names(ms[j], slot) && forall i :: j < i < k ==> !Names(ms[i], slot)
  }

  ghost predicate LastWriting(ms: seq<Command>, slot: nat, j: nat, k: nat)
    requires k <= |ms|
  {
    j < k && Writes(ms[j], slot) && forall i :: j < i < k ==> !Writes(ms[i], slot)
  }

  lemma RunStep(cs: seq<Cache>, ms: seq<Command>, k: nat)
    requires Run(cs, ms) && k < |ms|
    ensures Shape(cs[k]) && Shape(cs[k + 1]) && (!ms[k].Skip? ==> ms[k].slot < 4) && cs[k + 1] == Step(cs[k], ms[k])
  {
    hide Step;
    ReplacementSound(cs, ms, k + 1);
  }

  /** Over every run a slot holds the addresses of the last write to it. */
  lemma {:induction false} WritesRemembered(cs: seq<Cache>, ms: seq<Command>, slot: nat, j: nat, k: nat)
    requires Run(cs, ms) && k <= |ms| && slot < 4 && LastWriting(ms, slot, j, k)
    ensures Shape(cs[k]) && cs[k].entries[slot].instAdr == ms[j].adr && cs[k].entries[slot].targetAdr == ms[j].target
  {
    hide Step;
    RunStep(cs, ms, k - 1);
    SlotAfter(cs[k - 1], ms[k - 1], slot);
    if j < k - 1 { WritesRemembered(cs, ms, slot, j, k - 1); }
  }

  /** It is present and holds the counter of the last write or update. */
  lemma {:induction false} CountersRemembered(cs: seq<Cache>, ms: seq<Command>, slot: nat, j: nat, k: nat)
    requires Run(cs, ms) && k <= |ms| && slot < 4 && LastNaming(ms, slot, j, k)
    ensures Shape(cs[k]) && cs[k].entries[slot].present && cs[k].entries[slot].counter == ms[j].cpt
  {
    hide Step;
    RunStep(cs, ms, k - 1);
    SlotAfter(cs[k - 1], ms[k - 1], slot);
    if j < k - 1 { CountersRemembered(cs, ms, slot, j, k - 1); }
  }

  /** And what no command between j and k names is as it was. */
  lemma {:induction false} SlotsKept(cs: seq<Cache>, ms: seq<Command>, slot: nat, j: nat, k: nat)
    requires Run(cs, ms) && j <= k <= |ms| && slot < 4 && forall i :: j <= i < k ==> !Names(ms[i], slot)
    ensures Shape(cs[j]) && Shape(cs[k]) && cs[k].entries[slot] == cs[j].entries[slot]
  {
    hide Step;
    if j < k {
      RunStep(cs, ms, k - 1);
      SlotAfter(cs[k - 1], ms[k - 1], slot);
      SlotsKept(cs, ms, slot, j, k - 1);
    } else {
      ReplacementSound(cs, ms, k);
    }
  }

  /** One command and one slot. */
  lemma SlotAfter(c: Cache, m: Command, slot: nat)
    requires Shape(c) && slot < 4 && (!m.Skip? ==> m.slot < 4)
    ensures |Step(c, m).entries| == 4
    ensures var e, e' := c.entries[slot], Step(c, m).entries[slot];
            if Writes(m, slot) then e' == Entry(true, m.adr, m.target, m.cpt)
            else if Names(m, slot) then e' == Entry(true, e.instAdr, e.targetAdr, m.cpt)
            else e' == e
  {}

  // ----- the source's form

  class PredBranchCache {
    const present: array<bool>
    const branch_inst_adr: array<int>
    const branch_target_adr: array<int>
    const branch_counter: array<int>
    const lru: array<bit>
    var inverse_lru: bit
    var p_nb: int

    ghost predicate Valid()
      reads this
    {
      && present.Length == 4 && branch_inst_adr.Length == 4 && branch_target_adr.Length == 4
      && branch_counter.Length == 4 && lru.Length == 4 && 0 <= p_nb < 4
      && branch_inst_adr != branch_target_adr && branch_inst_adr != branch_counter
         && branch_target_adr != branch_counter
    }

    ghost function Now(): Cache
      requires Valid()
      reads this, present, branch_inst_adr, branch_target_adr, branch_counter, lru
    {
      Cache(seq(4, i requires 0 <= i < 4 reads this, present, branch_inst_adr, branch_target_adr, branch_counter
                     requires Valid() =>
                  Entry(present[i], branch_inst_adr[i], branch_target_adr[i], branch_counter[i])),
            lru[..], inverse_lru, p_nb)
    }

    constructor ()
      ensures Valid() && AfterReset(Now())
      ensures fresh(present) && fresh(branch_inst_adr) && fresh(branch_target_adr) && fresh(branch_counter)
              && fresh(lru)
    {
      present, lru := new bool[4](_ => false), new bit[4](_ => 0);
      branch_inst_adr, branch_target_adr, branch_counter := new int[4], new int[4], new int[4];
      inverse_lru, p_nb := 0, 0;
      new;
      assert lru[..] == [0, 0, 0, 0];
    }

    /** What both write commands do with the priority bits. */
    method RaisePriority(slot: nat)
      requires Valid() && slot < 4
      modifies `inverse_lru, `p_nb, lru
      ensures Valid() && Now() == Promote(old(Now()), slot)
    {
      if (p_nb == 3 && inverse_lru == 0) || (p_nb == 1 && inverse_lru == 1) {
        inverse_lru := 1 - inverse_lru;
      } else {
        p_nb := (p_nb + 1) % 4;
        lru[slot] := 1 - inverse_lru;
      }
    }

    /** One wake of pred_write after reset. */
    method PredWrite(m: Command)
      requires Valid() && (!m.Skip? ==> m.slot < 4)
      modifies `inverse_lru, `p_nb, present, branch_inst_adr, branch_target_adr, branch_counter, lru
      ensures Valid() && Now() == Step(old(Now()), m)
    {
      match m {
        case Skip =>
        case Write(slot, adr, target, cpt) =>
          present[slot] := true;
          branch_inst_adr[slot] := adr;
          branch_target_adr[slot] := target;
          branch_counter[slot] := cpt;
          RaisePriority(slot);
        case Update(slot, cpt) =>
          present[slot] := true;
          branch_counter[slot] := cpt;
          if lru[slot] == inverse_lru {
            RaisePriority(slot);
          }
      }
    }
  }
}

/**
 The direct-mapped instruction cache and its refill state machine
 (SIM/SystemC/CORE/CACHES/icache.cpp): 256 lines of four words.
 */
module Icache {
  import opened Words

  datatype Fsm = IDLE | WAIT_MEM | UPDT

  // ----- parse_adr

  function Tag(pc: word): nat { pc / 4096 }

  function Index(pc: word): (i: nat)
    ensures i < 256
  {
    (pc / 16) % 256
  }

  function Offset(pc: word): (o: nat)
    ensures o < 4
  {
    (pc % 16) / 4
  }

  /** Address of word j of the line with a tag at an index. */
  function LineWord(tag: nat, index: nat, j: nat): nat { tag * 4096 + index * 16 + j * 4 }

  lemma ParseAdr(pc: word)
    ensures LineWord(Tag(pc), Index(pc), 0) == pc - pc % 16
    ensures LineWord(Tag(pc), Index(pc), Offset(pc)) == pc - pc % 4
  {
    var q, r := pc / 16, pc % 16;
    var t, i, o := q / 256, q % 256, r / 4;
    DivModUnique(pc, 4096, t, 16 * i + r);
    DivModUnique(pc, 4, 4 * q + o, r % 4);
  }

  // ----- one wake of the state machine

  /** The words of all lines one after another, their tags and valid bits, and the state machine's variables. */
  datatype Cache = Cache(
    data: seq<word>, tag: seq<nat>, valid: seq<bool>,
    fsm: Fsm, cpt: nat, index: nat, ctag: nat, A: nat)
  {
    predicate Shape() {
      |data| == 1024 && |tag| == 256 && |valid| == 256 && index < 256 && (fsm.WAIT_MEM? ==> cpt == 0)
    }
  }

  datatype Input = Input(pc: word, pcValid: bool, reset_n: bool, ack: bool, dt: word)

  predicate Hit(c: Cache, pc: word)
    requires c.Shape()
  {
    Tag(pc) == c.tag[Index(pc)] && c.valid[Index(pc)]
  }

  function Read(c: Cache, pc: word): word
    requires c.Shape()
  {
    c.data[4 * Index(pc) + Offset(pc)]
  }

  /**
   The bus puts the words of the requested line on DT in order, one per wake with ACK up, and drops ACK after the
   fourth.
   */
  ghost predicate BusOk(mem: nat -> word, c: Cache, n: Input) {
    match c.fsm
    case IDLE => true
    case WAIT_MEM => n.ack ==> n.dt == mem(c.A)
    case UPDT => if n.ack then c.cpt < 4 && n.dt == mem(c.A + 4 * c.cpt) else c.cpt == 4
  }

  function Wake(c: Cache, n: Input): Cache
    requires c.Shape() && (c.fsm.UPDT? && n.ack ==> c.cpt < 4)
  {
    match c.fsm
    case IDLE =>
      if n.pcValid && n.reset_n && !Hit(c, n.pc) then
        c.(fsm := WAIT_MEM, A := n.pc - n.pc % 16, index := Index(n.pc), ctag := Tag(n.pc), cpt := 0)
      else c
    case WAIT_MEM =>
      if n.ack then
        c.(fsm := UPDT, data := c.data[4 * c.index + c.cpt := n.dt], cpt := c.cpt + 1,
           tag := c.tag[c.index := c.ctag], valid := c.valid[c.index := false])
      else c
    case UPDT =>
      if !n.ack then c.(fsm := IDLE, valid := c.valid[c.index := true])
      else c.(data := c.data[4 * c.index + c.cpt := n.dt], cpt := c.cpt + 1)
  }

  // ----- agreement with memory

  ghost predicate WordsAgree(mem: nat -> word, c: Cache, i: nat, n: nat)
    requires c.Shape() && i < 256 && n <= 4
  {
    forall j :: 0 <= j < n ==> c.data[4 * i + j] == mem(LineWord(c.tag[i], i, j))
  }

  ghost predicate Agrees(mem: nat -> word, c: Cache) {
    && c.Shape()
    && (forall i :: 0 <= i < 256 && c.valid[i] ==> WordsAgree(mem, c, i, 4))
    && (c.fsm.WAIT_MEM? ==> c.A == LineWord(c.ctag, c.index, 0))
    && (c.fsm.UPDT? ==>
          && 1 <= c.cpt <= 4 && c.A == LineWord(c.ctag, c.index, 0)
          && c.tag[c.index] == c.ctag && !c.valid[c.index] && WordsAgree(mem, c, c.index, c.cpt))
  }

  /** Every wake under the bus contract keeps the cache in agreement with a constant memory. */
  lemma WakeKeeps(mem: nat -> word, c: Cache, n: Input)
    requires Agrees(mem, c) && BusOk(mem, c, n)
    ensures Agrees(mem, Wake(c, n))
  {
    var c' := Wake(c, n);
    ParseAdr(n.pc);
    hide Tag, Index;
    forall i | 0 <= i < 256 && c'.valid[i] ensures WordsAgree(mem, c', i, 4) {
      if i == c.index && c.fsm.UPDT? {
        assert WordsAgree(mem, c, i, 4);
      } else {
        assert WordsAgree(mem, c, i, 4);
      }
    }
  }

  ghost predicate AfterReset(c: Cache) {
    c.Shape() && c.fsm.IDLE? && forall i :: 0 <= i < 256 ==> !c.valid[i]
  }

  /** A run: the cache after each wake, the bus keeping its contract at every one. */
  ghost predicate Run(mem: nat -> word, cs: seq<Cache>, ns: seq<Input>) {
    && |cs| == |ns| + 1 && AfterReset(cs[0])
    && forall k :: 0 <= k < |ns| ==>
         cs[k].Shape() && BusOk(mem, cs[k], ns[k]) && cs[k + 1] == Wake(cs[k], ns[k])
  }

  lemma {:induction false} RunAgrees(mem: nat -> word, cs: seq<Cache>, ns: seq<Input>, k: nat)
    requires Run(mem, cs, ns) && k <= |ns|
    ensures Agrees(mem, cs[k])
  {
    if k > 0 {
      RunAgrees(mem, cs, ns, k - 1);
      WakeKeeps(mem, cs[k - 1], ns[k - 1]);
    }
  }

  lemma HitReadsMemory(mem: nat -> word, c: Cache, pc: word)
    requires Agrees(mem, c) && Hit(c, pc)
    ensures Read(c, pc) == mem(pc - pc % 4)
  {
    hide Tag, Index, Offset;
    ParseAdr(pc);
    assert WordsAgree(mem, c, Index(pc), 4);
    assert c.data[4 * Index(pc) + Offset(pc)] == mem(LineWord(c.tag[Index(pc)], Index(pc), Offset(pc)));
  }

  /**
   Main theorem: in every reachable state a hit reads the memory word at the requested address, and
   the line under refill never hits.
   */
  lemma HitsAreRight(mem: nat -> word, cs: seq<Cache>, ns: seq<Input>, k: nat, pc: word)
    requires Run(mem, cs, ns) && k <= |ns|
    ensures cs[k].Shape()
    ensures Hit(cs[k], pc) ==> Read(cs[k], pc) == mem(pc - pc % 4)
    ensures cs[k].fsm.UPDT? && Index(pc) == cs[k].index ==> !Hit(cs[k], pc)
  {
    hide Tag, Index, Offset, Wake;
    RunAgrees(mem, cs, ns, k);
    if Hit(cs[k], pc) { HitReadsMemory(mem, cs[k], pc); }
  }

  /** A miss in wake k, and ACK up for the first time after it in wake a. */
  ghost predicate MissUntil(cs: seq<Cache>, ns: seq<Input>, k: nat, a: nat)
    requires |cs| == |ns| + 1
  {
    && k < a < |ns| && cs[k].Shape() && cs[k].fsm.IDLE? && ns[k].pcValid && ns[k].reset_n && !Hit(cs[k], ns[k].pc)
    && ns[a].ack && forall m :: k < m < a ==> !ns[m].ack
  }

  /**
   In every run a miss is served five wakes after the bus first answers, however long that takes: the line is
   valid for the address, and reads as memory.
   */
  lemma MissIsServed(mem: nat -> word, cs: seq<Cache>, ns: seq<Input>, k: nat, a: nat)
    requires Run(mem, cs, ns) && MissUntil(cs, ns, k, a) && a + 5 <= |ns|
    ensures var c, pc := cs[a + 5], ns[k].pc;
            c.Shape() && c.fsm.IDLE? && Hit(c, pc) && Read(c, pc) == mem(pc - pc % 4)
  {
    hide Tag, Index, Offset, Wake, Agrees, LineWord;
    RunAgrees(mem, cs, ns, k);
    Requested(mem, cs[k], ns[k]);
    Waits(mem, cs, ns, k, a, a);
    for j := 0 to 4
      invariant var c := cs[a + j];
                && Agrees(mem, c) && c.Shape() && !c.fsm.IDLE? && c.cpt == j && (j > 0 ==> c.fsm.UPDT?)
                && c.index == Index(ns[k].pc) && c.ctag == Tag(ns[k].pc)
    {
      Fetched(mem, cs[a + j], ns[a + j]);
    }
    Finished(mem, cs[a + 4], ns[a + 4]);
    HitReadsMemory(mem, cs[a + 5], ns[k].pc);
  }

  /** Until the bus answers, the request stands. */
  lemma {:induction false} Waits(mem: nat -> word, cs: seq<Cache>, ns: seq<Input>, k: nat, a: nat, m: nat)
    requires Run(mem, cs, ns) && MissUntil(cs, ns, k, a) && k < m <= a && cs[k + 1].fsm.WAIT_MEM?
    ensures cs[m] == cs[k + 1]
  {
    if m > k + 1 { Waits(mem, cs, ns, k, a, m - 1); }
  }

  // ----- how long a line stays

  /** The refill of the line a pc falls into begins to overwrite it. */
  predicate Loses(c: Cache, n: Input, pc: word) { c.fsm.WAIT_MEM? && n.ack && c.index == Index(pc) }

  /** One wake of a run takes a hit away if and only if it begins a refill of that very line. */
  lemma LostExactly(mem: nat -> word, cs: seq<Cache>, ns: seq<Input>, k: nat, pc: word)
    requires Run(mem, cs, ns) && k < |ns| && cs[k].Shape() && Hit(cs[k], pc)
    ensures cs[k + 1].Shape() && (Hit(cs[k + 1], pc) <==> !Loses(cs[k], ns[k], pc))
  {
    hide Tag, Index;
    RunAgrees(mem, cs, ns, k);
    RunAgrees(mem, cs, ns, k + 1);
  }

  /** A miss of an address that falls into the same line. */
  predicate Evicts(c: Cache, n: Input, pc: word)
    requires c.Shape()
  {
    c.fsm.IDLE? && n.pcValid && n.reset_n && !Hit(c, n.pc) && Index(n.pc) == Index(pc)
  }

  /**
   Over every run: what hits goes on hitting as long as nothing else of the same index misses, whatever is
   refilled elsewhere; a refill of that index must not be under way at the beginning.
   */
  lemma {:induction false} HitStays(mem: nat -> word, cs: seq<Cache>, ns: seq<Input>, j: nat, m: nat, pc: word)
    requires Run(mem, cs, ns) && j <= m <= |ns| && cs[j].Shape() && Hit(cs[j], pc)
    requires cs[j].fsm.WAIT_MEM? ==> cs[j].index != Index(pc)
    requires forall k :: j <= k < m ==> cs[k].Shape() && !Evicts(cs[k], ns[k], pc)
    ensures cs[m].Shape() && Hit(cs[m], pc) && (cs[m].fsm.WAIT_MEM? ==> cs[m].index != Index(pc))
  {
    if j < m {
      HitStays(mem, cs, ns, j, m - 1, pc);
      hide Tag, Index;
      LostExactly(mem, cs, ns, m - 1, pc);
    }
  }

  /** After a served miss the line hits for exactly the addresses with its tag. */
  lemma RefilledExactly(mem: nat -> word, cs: seq<Cache>, ns: seq<Input>, k: nat, a: nat, pc: word)
    requires Run(mem, cs, ns) && MissUntil(cs, ns, k, a) && a + 5 <= |ns| && Index(pc) == Index(ns[k].pc)
    ensures cs[a + 5].Shape() && (Hit(cs[a + 5], pc) <==> Tag(pc) == Tag(ns[k].pc))
  {
    hide Tag, Index, Run;
    MissIsServed(mem, cs, ns, k, a);
  }

  lemma Requested(mem: nat -> word, c: Cache, n: Input)
    requires Agrees(mem, c) && c.fsm.IDLE? && n.pcValid && n.reset_n && !Hit(c, n.pc)
    ensures c.Shape()
    ensures var c' := Wake(c, n);
            && Agrees(mem, c') && c'.Shape() && c'.fsm.WAIT_MEM? && c'.cpt == 0
            && c'.index == Index(n.pc) && c'.ctag == Tag(n.pc) && c'.A == n.pc - n.pc % 16
  {
    WakeKeeps(mem, c, n);
  }

  lemma Fetched(mem: nat -> word, c: Cache, n: Input)
    requires Agrees(mem, c) && c.Shape() && !c.fsm.IDLE? && c.cpt < 4 && n.ack && n.dt == mem(c.A + 4 * c.cpt)
    ensures var c' := Wake(c, n);
            && Agrees(mem, c') && c'.Shape() && c'.fsm.UPDT? && c'.cpt == c.cpt + 1
            && c'.index == c.index && c'.ctag == c.ctag && c'.A == c.A
  {
    hide Tag, Index, Offset, LineWord;
    WakeKeeps(mem, c, n);
  }

  lemma Finished(mem: nat -> word, c: Cache, n: Input)
    requires Agrees(mem, c) && c.Shape() && c.fsm.UPDT? && c.cpt == 4 && !n.ack
    ensures var c' := Wake(c, n);
            && Agrees(mem, c') && c'.Shape() && c'.fsm.IDLE?
            && c'.valid[c.index] && c'.tag[c.index] == c.ctag
  {
    hide Tag, Index, Offset, LineWord;
    WakeKeeps(mem, c, n);
  }

  // ----- the source's form

  class InstructionCache {
    const data: array<word>
    const tag: array<nat>
    const data_validate: array<bool>
    var fsm_current_state: Fsm
    var cpt: nat
    var current_address_index: nat
    var current_address_tag: nat
    var A: nat
    var address_tag: nat
    var address_index: nat
    var address_offset: nat
    var hit: bool
    var IC_STALL_SI: bool
    var IC_INST_SI: word

    ghost predicate Valid()
      reads this
    {
      && data.Length == 1024 && tag.Length == 256 && data_validate.Length == 256
      && current_address_index < 256 && (fsm_current_state.WAIT_MEM? ==> cpt == 0)
    }

    ghost function Now(): Cache
      reads this, data, tag, data_validate
    {
      Cache(data[..], tag[..], data_validate[..], fsm_current_state, cpt, current_address_index, current_address_tag, A)
    }

    constructor ()
      ensures Valid() && AfterReset(Now()) && fresh(data) && fresh(tag) && fresh(data_validate)
    {
      data, tag, data_validate := new word[1024], new nat[256], new bool[256](_ => false);
      fsm_current_state, cpt, current_address_index, current_address_tag, A := IDLE, 0, 0, 0, 0;
    }

    method ParseAddress(PC_SI: word)
      modifies `address_tag, `address_index, `address_offset
      ensures address_tag == Tag(PC_SI) && address_index == Index(PC_SI) && address_offset == PC_SI % 16
      ensures address_index < 256 && LineWord(address_tag, address_index, address_offset / 4) == PC_SI - PC_SI % 4
    {
      ParseAdr(PC_SI);
      address_tag := PC_SI / 4096;
      address_index := (PC_SI / 16) % 256;
      address_offset := PC_SI % 16;
    }

    method MissDetection(ghost pc: word)
      requires Valid()
      requires address_tag == Tag(pc) && address_index == Index(pc) && address_offset == pc % 16
      modifies `hit, `IC_STALL_SI, `IC_INST_SI
      ensures hit == Hit(Now(), pc) && IC_STALL_SI == !hit
      ensures hit ==> IC_INST_SI == Read(Now(), pc)
    {
      if address_tag == tag[address_index] && data_validate[address_index] {
        hit := true;
        IC_STALL_SI := false;
        IC_INST_SI := data[4 * address_index + address_offset / 4];
      } else {
        hit := false;
        IC_STALL_SI := true;
      }
    }

    /** One wake of the refill thread. */
    method Transition(n: Input)
      requires Valid() && (fsm_current_state.UPDT? && n.ack ==> cpt < 4)
      requires address_tag == Tag(n.pc) && address_index == Index(n.pc) && hit == Hit(Now(), n.pc)
      modifies `fsm_current_state, `cpt, `current_address_index, `current_address_tag, `A, data, tag, data_validate
      ensures Valid() && Now() == Wake(old(Now()), n)
    {
      hide Tag, Index;
      match fsm_current_state {
        case IDLE =>
          if n.pcValid && n.reset_n {
            if !hit {
              fsm_current_state := WAIT_MEM;
              A := n.pc - n.pc % 16;
              current_address_index := address_index;
              current_address_tag := address_tag;
              cpt := 0;
            }
          }
        case WAIT_MEM =>
          if n.ack {
            fsm_current_state := UPDT;
            data[4 * current_address_index + cpt] := n.dt;
            cpt := cpt + 1;
            tag[current_address_index] := current_address_tag;
            data_validate[current_address_index] := false;
          }
        case UPDT =>
          if !n.ack {
            fsm_current_state := IDLE;
            data_validate[current_address_index] := true;
          } else {
            data[4 * current_address_index + cpt] := n.dt;
            cpt := cpt + 1;
          }
      }
    }
  }
}

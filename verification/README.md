# RiVer core and ELFIO: a verified model

This project models two parts of the repository and proves properties of them.

* **The SystemC RV32IM core** (`SIM/SystemC/CORE`). Every clocked process is a step over registers, with the
  combinational logic settled before the edge. `Core` is one clock of the five-stage pipeline as a function, the
  divider's BUSY and result among its inputs; `Divider` is the divider, and `Machine` the two together. `Pipeline` and
  `CoreAndDivider` are the same clocks as methods over signal fields, proved equal. `Isa` is the sequential machine of
  RV32I and the divisions of RV32M (chapter 2 and section 7.2 of the RISC-V ISA Manual Volume I, 20191213).
  `Forwarding`, `Machine` and `Refinement` prove that core and divider refine it over whole runs, `HazardRuns` shows
  runs in which they do not, `Progress` that instructions keep retiring, and `Timing` in which clock each one does. The multiplier (`Bits`, `Multiplier`,
  `MultiplierStages`, `MultiplyWriteBack`), the flow of tokens through the FIFOs (`Fifo`, `Elastic`, tied to the core
  by `CoreFlow`), the instruction cache (`Icache`), the branch cache's replacement state (`Predictor`) and the timer
  with its CSR handshake (`Timer`) are machines of their own.
* **The ELF library** (`SIM/ELFIO/elfio`): segment ordering (`SegmentOrder`), file layout (`Layout`, `LayoutSafety`,
  `LayoutMeaning`, `LayoutSizes`, `LayoutMemory`, `LayoutTight`, `LayoutWriter`), symbol reordering with relocation fix-up (`Symbols`,
  `Relocations`), lookup by name (`Hashes`, `HashLookup`), growable section data with string tables (`SectionData`) and notes
  (`Notes`). The linked list of memory segments of the C loader is `SegmentList`.

Code that changes state in the source is a class or a loop here, proved against a specification function; the lemmas
about those functions are the results. Machine words are integers with the wrap-around written out.

## Where the code does not do what it seems meant to do

* `exec::bypasses` tests the M-to-E arm before the load-block arm. After a data-cache stall an instruction can take
  the value of an older load: `HazardRuns.HazardIsReal` is a run. The condition is a guard over the registers,
  `Core.Misread`, exact in every clock (`Forwarding.OperandsExact`) and over whole runs (`Refinement.RefinesExactly`);
  `Refinement.UnstalledIsMisreadFree` shows that it never fires while the data cache does not stall.
* The multiplier's FIFOs move on while MEM is stalled, so a multiplication waiting in MEM can be written back with the
  product of the operands behind it: `MultiplyWriteBack.StalledProductIsLost`. `MultiplyWriteBack.OwnProduct` has the
  exact condition, from decode's offers and the data-cache stalls.
* `exec::manage_divider` raises START without looking at `blocked`, and the M-to-E arm can supply an older value, so a
  division behind a stalled load can start on an operand that is not there yet and keep it: `HazardRuns.StaleDivisions`
  has a run for either case, `Refinement.DivisionDecides` the exact condition. Operand signals that change after START
  do no harm (`Divider.LeavesWithResult`), and a division that has to start again does so on right operands
  (`Machine.ClockAgrees`).
* The branch cache's counter is right only if writes name a low-priority slot: `Predictor.WriteConditionExact`.
* Patching a 64-bit relocation goes through an `unsigned char` and cuts types above 255; `Symbols.SwapKeepsMeaning` has
  the exact condition for one exchange, `Symbols.SymbolSection.ArrangeLocalSymbols` for the whole arrangement.
* The alignment term of a new segment wraps for some alignments above 2^63: `LayoutMeaning.SegmentGapAligns`.
* The comment above the first loop of `get_ordered_segments` speaks of segments at address 0; the loop looks at file
  offsets, and may leave a segment whose offset 0 is not initialised in front (`SegmentOrder.ZeroToFront`). The
  comment in `layout_segments_and_their_sections` puts segments that contain others at the end; the order of the code,
  which is the one proved, has them first.
* The padding in front of a NOBITS section moves the position but is left out of the segment's file size, so data
  behind it can stick out of its segment: `LayoutSizes.SegmentsCover` has the exact condition, which only looks at
  padding in front of the last section with contents; `LayoutSizes.NobitsGapIsLost` is a file.
* `validate` masks section types with SHT_NOBITS instead of comparing, so it also skips every other type with bit 3 set,
  SHT_REL among them: `LayoutMeaning.OverlappingRelocationsPass`, with the exact condition in
  `LayoutMeaning.ReportedMeansMeeting`. Of what a save lays out it only ever reports pairs with section 0 or
  with a SHT_NULL section, past which the position does not move: `LayoutMeaning.ReportedExactly`, with a file in
  `LayoutMeaning.NullIsReported`.
* `hash_lookup` starts with an empty string and so finds the empty name when its bucket names no symbol:
  `HashLookup.GetSymbol` has the exact condition, `HashLookup.EmptyNameInEmptyTable` a table.
* `append_data` doubles a 32-bit capacity, which can wrap, and then writes behind its new block:
  `SectionData.AppendLeavesItsBlock`, with the exact condition in `SectionData.FitsExactly`. The model reports
  `Overrun` there and leaves the contents.
* `get_note` compares the index with the section's size in bytes, not with the number of notes; from there on it reads
  outside its table. `Notes.NoteSection.GetNote` reports exactly those indexes as `Unrecorded`, and every section with
  notes has one (`Notes.NoteSection.SomeNumberIsUnrecorded`).
* `add_note` with a null descriptor and a size writes the size without bytes; the note is lost
  (`Notes.LastReadsBackExactly`), and unless it is the last one, so is the place of those behind it
  (`Notes.CallsParseExactly`).
* `mem_lw` reads past the block of a segment that ends inside the word: `SegmentList.SegmentMemory.MemLw` reports it.

## Model

| member | source | states |
|---|---|---|
| `Fifo.FifoOrder` | SIM/SystemC/UTIL/fifo.h:39-80 | for every push, pop and content, an edge releases the old token before it takes the new one, holds at most one, and keeps the old output when it takes nothing |
| `Fifo.FifoReg.FlagsUpdate` | SIM/SystemC/UTIL/fifo.h:39-56 | full and empty as settled signals: a full FIFO that is being popped accepts a push in the same cycle |
| `Fifo.FifoReg.Function` | SIM/SystemC/UTIL/fifo.h:58-80 | the clocked process performs exactly the specified edge |
| `Stages.BranchMeetsIsa` | SIM/SystemC/CORE/DEC/dec.cpp:747-781 | the 33-bit difference and the two sign bits decide all six branches as the ISA's signed and unsigned comparisons, for all operands |
| `Stages.ShiftUpMeetsIsa` | SIM/SystemC/CORE/EXE/shifter.cpp:23-157 | the left shifter is multiplication by a power of two modulo 2^32 |
| `Stages.ShiftDownMeetsIsa` | SIM/SystemC/CORE/EXE/shifter.cpp:158-316 | the right shifter divides, and with the sign filled in it divides the signed reading rounding down |
| `Stages.AluMeetsIsa` | SIM/SystemC/CORE/EXE/exec.cpp:5-104 | decode's command, operand inversion, unit select and slt flags make EXE compute each register-register and register-immediate operation of RV32I |
| `Stages.ExecuteMeetsIsa` | SIM/SystemC/CORE/DEC/dec.cpp:599-825 | decode's operand and command choice followed by EXE gives the ISA result of every modelled instruction, link values and, given the divider's word, divisions included |
| `Stages.TargetMeetsIsa` | SIM/SystemC/CORE/DEC/dec.cpp:784-825 | the selected PC is the ISA's next PC for branch, jal and jalr at every even address, although jalr is computed relative to READ_PC_SR, and stays even |
| `Forwarding.StepByStages` | SIM/SystemC/CORE/DEC/dec.cpp:599-825 | one step of the sequential machine equals the composition of what decode, EXE, MEM and write-back each do |
| `Forwarding.DecodeReads` | SIM/SystemC/CORE/DEC/dec.cpp:1144-1231 | whenever decode's bypass network calls a source valid, its value is the architectural register of the next instruction, in every state the invariant allows |
| `Forwarding.ExeReads` | SIM/SystemC/CORE/EXE/exec.cpp:224-328 | without a hazard, both operands and the store data of an instruction EXE lets go are the architectural ones, although they may come from held outputs of emptied FIFOs |
| `Forwarding.OperandsExact` | SIM/SystemC/CORE/EXE/exec.cpp:258-270 | the exact condition, a guard on the core's registers alone: the operands are right if and only if the M-to-E arm does not pre-empt the load-block arm, or the older value equals the one the load delivers |
| `Forwarding.OperandsDue` | SIM/SystemC/CORE/EXE/exec.cpp:224-328 | in every clock, blocked or not, the operands due - those of the bypass network, but a load in MEM before everything else - are the architectural ones |
| `Forwarding.InvalidIsCovered` | SIM/SystemC/CORE/DEC/dec.cpp:1232-1251 | a source that decode sends on unread will be supplied by EXE's network: this is what stall_method and block_in_dec achieve |
| `Forwarding.BackKeeps` | SIM/SystemC/CORE/MEM/mem.cpp:67-71 | register file, memory, exe2mem and mem2wbk keep agreeing with the sequential machine at every clock edge |
| `Forwarding.SlotArrives` | SIM/SystemC/CORE/DEC/dec.cpp:1245-1251 | an instruction entering dec2exe carries its architectural operands or ones the bypass network is bound to replace |
| `Forwarding.SlotWaits` | SIM/SystemC/CORE/EXE/exec.cpp:203-222 | an instruction held in EXE behind one in MEM does not lose an operand while it waits |
| `Forwarding.FrontKeeps` | SIM/SystemC/CORE/DEC/dec.cpp:975-1140 | when if2dec holds an instruction, dec2if and READ_PC_SR hold its PC plus 4; jumps, flushes and stalls of either side keep the next PC right |
| `Forwarding.CycleKeeps` | SIM/SystemC/CORE/DEC/dec.cpp:1144-1251 | every clock that sends right results and in which no division holds EXE alone preserves the whole refinement invariant, for any stall inputs |
| `Forwarding.LooseKeeps` | SIM/SystemC/CORE/EXE/exec.cpp:203-222 | whatever holds EXE up, BUSY included, a clock that sends right results keeps everything agreeing but the operands of the instruction waiting in EXE |
| `Machine.LeavingExact` | SIM/SystemC/CORE/EXE/exec.cpp:352-360 | what leaves EXE is right if it used the operands due, a division those due in its START clock; a division is right if and only if the ones used give the same result |
| `Machine.ClockAgrees` | SIM/SystemC/CORE/EXE/exec.cpp:203-222 | every clock that sends right results keeps core, divider and sequential machine in agreement: a division at work has its START operands, and keeps them in the FIFO as long as something ahead could make it start again |
| `CoreAndDivider.ClockCycle` | SIM/SystemC/CORE/EXE/exec.cpp:352-360 | the class of the core and the class of the divider, clocked together, are exactly one clock of the machine |
| `Refinement.ResetOk` | SIM/SystemC/CORE/IFETCH/ifetch.cpp:3-83 | the state after reset satisfies the invariant, the sequential machine starting at PC_INIT plus 4 |
| `Refinement.AdvanceTrace` | SIM/SystemC/CORE/REG/reg.cpp:24-44 | each clock without a misread lets exactly the sequential machine's next entries pass decode, EXE and write-back |
| `Refinement.CoreRefinesIsa` | SIM/SystemC/CORE/DEC/dec.cpp:975-1251 | for every program of RV32I and the four divisions, every memory and pattern of instruction- and data-cache stalls in which nothing is misread, a run from reset consumes exactly the architectural PCs, executes on exactly the architectural operands and store data, and retires exactly the architectural results, in order |
| `Refinement.RefinesExactly` | SIM/SystemC/CORE/EXE/exec.cpp:258-270 | over all runs from reset: everything that left EXE used the architectural operands if and only if nothing was misread |
| `Refinement.MisreadGuard` | SIM/SystemC/CORE/EXE/exec.cpp:258-270 | a misread is, in terms of the registers, the hazard firing with another value than the one the load delivers, for a division in its START clock, unless that was blocked |
| `Refinement.ClearAfter` | SIM/SystemC/CORE/DEC/dec.cpp:1232-1251 | after any clock in which the data cache does not stall, no source of the instruction in EXE waits for a load: neither the block nor the hazard can fire |
| `Refinement.UnstalledIsMisreadFree` | SIM/SystemC/CORE/EXE/exec.cpp:224-328 | with MCACHE_STALL_SM never raised nothing is ever misread, so the main theorem holds for every program without further condition |
| `HazardRuns.HazardIsReal` | SIM/SystemC/CORE/EXE/exec.cpp:258-270 | a seven-clock run of two loads and an add with one data-cache stall in which the add uses the older value |
| `Refinement.DivisionDecides` | SIM/SystemC/CORE/EXE/exec.cpp:352-360 | over all runs: a division leaves with the result of the operands its START clock showed, 33 clocks (1 for a zero divisor) before; it is right if and only if START was neither blocked nor in the hazard, or the words shown there give the same result. A multiplication ahead, whose unfinished result EXE forwards (exec.cpp:243-250), is not among the modelled instructions |
| `HazardRuns.StaleDivisions` | SIM/SystemC/CORE/EXE/exec.cpp:352-360 | two runs in which a division starts on a stale operand: one not blocked but in the hazard, one blocked |
| `Progress.RankFalls` | SIM/SystemC/CORE/DEC/dec.cpp:1245-1251 | from any state no clock sets the instruction furthest ahead back, and a clock without stalls moves it, or the division it waits for, on |
| `Progress.InstructionsRetire` | SIM/SystemC/CORE/EXE/exec.cpp:203-222 | for every program, state and stall pattern at least one instruction retires for every 39 clocks without a stall, divisions and their restarts included: the core never stops by itself |
| `Timing.UnreadExactly` | SIM/SystemC/CORE/DEC/dec.cpp:1144-1231 | decode's network has no value for a register exactly while its producer is in EXE or a load of it is in MEM |
| `Timing.DecodeTakes` | SIM/SystemC/CORE/DEC/dec.cpp:1232-1251 | in every clock an instruction waits in if2dec exactly when EXE keeps its own, or a source is not there yet and it is a jump or EXE holds a load whose destination it names; otherwise it moves into dec2exe |
| `Timing.ExeKeepsExactly` | SIM/SystemC/CORE/EXE/exec.cpp:203-222 | in every clock EXE keeps its instruction exactly for a busy divider, for one the data cache holds in MEM, or for a source a load in MEM still owes and mem2wbk has no older value of |
| `Timing.FetchTakes` | SIM/SystemC/CORE/IFETCH/ifetch.cpp:34-51 | in every clock an instruction comes from the instruction cache exactly when that does not stall, a PC waits for it, if2dec has room and no jump is being taken |
| `Timing.PcWaits` | SIM/SystemC/CORE/DEC/dec.cpp:1029-1083 | after every clock a PC waits for the instruction cache, unless none did and an instruction stands in decode |
| `Timing.ThreeClocksLater` | SIM/SystemC/CORE/MEM/mem.cpp:67-71 | over all runs from reset without data-cache stalls: what decode takes retires exactly three clocks later, for every program without divisions and every pattern of instruction-cache stalls |
| `Timing.ScheduleExactly` | SIM/SystemC/CORE/DEC/dec.cpp:1144-1251 | over all runs from reset with both caches ready: the clock in which decode takes the k-th instruction of any program without divisions, and the one in which it retires, both exact, from the delays of taken jumps, of jumps on fresh results and of loads in front of their readers |
| `Timing.PlainRate` | SIM/SystemC/CORE/DEC/dec.cpp:1245-1251 | so a program of register, immediate, store and fence instructions takes one instruction a clock from the third clock on and retires one from the sixth, however they depend on each other |
| `Pipeline.RiverCore.ExeBypasses` | SIM/SystemC/CORE/EXE/exec.cpp:224-328 | drives the store data, blocked, op1_se and op2_se, where a blocked operand keeps its value; driving them again changes nothing |
| `Pipeline.RiverCore.DecBypasses` | SIM/SystemC/CORE/DEC/dec.cpp:1144-1235 | drives the valid flags, the held read data and block_in_dec; driving them again changes nothing |
| `Pipeline.RiverCore.PcIncPop` | SIM/SystemC/CORE/DEC/dec.cpp:1100-1132 | drives the pop and flush of if2dec |
| `Pipeline.RiverCore.PcIncPush` | SIM/SystemC/CORE/DEC/dec.cpp:1029-1083 | drives WRITE_PC_ENABLE_SD and the next PC |
| `Pipeline.RiverCore.FetchMethod` | SIM/SystemC/CORE/IFETCH/ifetch.cpp:34-51 | drives the push into if2dec and the pop of dec2if under flush and stalls |
| `Pipeline.RiverCore.ClockCycle` | SIM/SystemC/CORE/DEC/dec.cpp:975-1251 | the stage methods settled in dependency order and the clock edge together are exactly one cycle of the specification, for every state and input |
| `Bits.CarrySave` | SIM/SystemC/CORE/EXE/x0_multiplier.cpp:65-73 | one carry-save adder preserves the sum of its inputs up to a carry out of the width, at any width |
| `Bits.LayerKeeps` | SIM/SystemC/CORE/EXE/x0_multiplier.cpp:65-165 | a whole layer of carry-save adders preserves the total up to whole turns, for any number of vectors |
| `Multiplier.ProductsTotal` | SIM/SystemC/CORE/EXE/x0_multiplier.cpp:45-61 | the first i partial products add up to the multiplicand, signed when it is sign-extended, times the low i bits of the multiplier, at any width |
| `Multiplier.PrepareMeans` | SIM/SystemC/CORE/EXE/x0_multiplier.cpp:24-43 | negating both, swapping, or sign-extending changes none of the four products, 0x80000000 included |
| `Multiplier.X0Keeps` | SIM/SystemC/CORE/EXE/x0_multiplier.cpp:63-325 | the 27 adders of x0 turn 32 vectors into 5 with the same total modulo 2^64 |
| `Multiplier.X1Keeps` | SIM/SystemC/CORE/MEM/x1_multiplier.cpp:4-55 | the 3 adders of x1 turn 5 vectors into 2 with the same total modulo 2^64 |
| `Multiplier.Halves` | SIM/SystemC/CORE/WBK/x2_multiplier.cpp:3-19 | the final 64-bit addition and half selection give the high and low words of the exact signed product |
| `Multiplier.MultiplierMeetsIsa` | SIM/SystemC/CORE/EXE/x0_multiplier.cpp:3-325 | x0, x1 and x2 composed give MUL, MULH, MULHU and MULHSU of section 7.1 of the RISC-V ISA Manual Volume I for all operands |
| `MultiplierStages.X0Multiplier.Operation` | SIM/SystemC/CORE/EXE/x0_multiplier.cpp:3-62 | the bit loops fill the product array with the specified partial products |
| `MultiplierStages.X0Multiplier.AdderTree` | SIM/SystemC/CORE/EXE/x0_multiplier.cpp:63-337 | the arrays product_s1 to product_s5 end up holding the specified tree |
| `MultiplierStages.X1Multiplier.ParseData` | SIM/SystemC/CORE/MEM/x1_multiplier.cpp:4-12 | the five vectors of x02x1 are loaded into M |
| `MultiplierStages.X1Multiplier.AdderTree` | SIM/SystemC/CORE/MEM/x1_multiplier.cpp:14-55 | stages 6 to 8 on arrays give the specified two vectors |
| `MultiplierStages.X2Process` | SIM/SystemC/CORE/WBK/x2_multiplier.cpp:3-19 | the word is the high or the low half of every number the two vectors add up to modulo 2^64 |
| `MultiplierStages.MultiplyThrough` | SIM/SystemC/CORE/EXE/x0_multiplier.cpp:3-325 | an operation taken through the three stage objects returns the ISA's word |
| `Divider.StepKeeps` | SIM/SystemC/CORE/EXE/Diviseur.cpp:87-112 | one calculating clock keeps |op1| = quotient * |op2| * 2^(32-k) + remainder with the remainder below |op2| * 2^(32-k), and the last one finishes |
| `Divider.FinishedMeetsIsa` | SIM/SystemC/CORE/EXE/Diviseur.cpp:115-133 | finished registers with the sign fix-up read as DIV, DIVU, REM and REMU of section 7.2 of the RISC-V ISA Manual Volume I, division by zero and overflow included |
| `Divider.DividerTiming` | SIM/SystemC/CORE/EXE/exec.cpp:352-360 | from any idle state a division that stays in EXE is busy for exactly 33 clocks, 1 for a zero divisor, and then DONE, not busy, with the ISA's result of the operands of its first clock, whatever the operand signals do afterwards |
| `Divider.LeavesWithResult` | SIM/SystemC/CORE/EXE/exec.cpp:352-360 | over every run in which BUSY holds the instruction, a division leaves with the ISA's result of the operands its START clock showed, exactly 33 clocks (1 for a zero divisor) later, however forwarding changes the operand signals in between |
| `Divider.Diviseur.MaeIdle` | SIM/SystemC/CORE/EXE/Diviseur.cpp:39-86 | outputs and next registers in the idle state, the early DONE write overridden at its end |
| `Divider.Diviseur.MaeCalculating` | SIM/SystemC/CORE/EXE/Diviseur.cpp:87-112 | outputs and next registers while calculating |
| `Divider.Diviseur.ClockCycle` | SIM/SystemC/CORE/EXE/Diviseur.cpp:3-114 | a clock of the divider is the specified step, undriven signals holding their value |
| `Divider.Diviseur.Ret` | SIM/SystemC/CORE/EXE/Diviseur.cpp:115-133 | for registers finished with a request the output is the ISA's result of that request |
| `Elastic.StepInOrder` | SIM/SystemC/CORE/MEM/mem.cpp:67-71 | a clock moves tokens from decode to write-back without loss, duplication or overtaking, whatever waits |
| `Elastic.Conservation` | SIM/SystemC/CORE/EXE/exec.cpp:203-222 | over every run with arbitrary operand, divider and cache waits, accepted tokens are the retired ones followed by those in flight, at most one per FIFO |
| `Elastic.Drains` | SIM/SystemC/CORE/WBK/wbk.cpp:5-6 | three clocks without waits retire everything in flight |
| `Elastic.NeverFull` | SIM/SystemC/CORE/EXE/x0_multiplier.cpp:345-349 | x0 pushes in every clock dec2exe is not empty, and x1 and x2 pop whatever is there |
| `Elastic.Lockstep` | SIM/SystemC/CORE/MEM/x1_multiplier.cpp:72-77 | in every reachable state x02x1 and x12x2 hold the partial sums of the latest operands x0 took in while the instruction was in MEM or write-back |
| `Elastic.UnstalledIsOwn` | SIM/SystemC/CORE/WBK/x2_multiplier.cpp:20-23 | when MEM passes an instruction on at once, nothing enters the multiplier behind it |
| `Elastic.WaitsInMem` | SIM/SystemC/CORE/EXE/x0_multiplier.cpp:345-349 | while the data cache holds an instruction in MEM, the latest operands in the multiplier are those EXE showed in the clock before if decode had offered an instruction until then, and otherwise its own |
| `Elastic.Written` | SIM/SystemC/CORE/MEM/mem.cpp:67-71 | over every run, whatever clock b puts into write-back left EXE in some clock a, was held in between by the data cache alone, and comes with the operands just said |
| `Elastic.FifoControl.ClockCycle` | SIM/SystemC/CORE/EXE/exec.cpp:203-222 | the push and pop processes of all stages and the FIFO edges are exactly one specified step |
| `CoreFlow.StepsAgree` | SIM/SystemC/CORE/EXE/exec.cpp:203-222 | driven by the core's own waits the FIFO control pops and pushes exactly when the core does, behind decode |
| `CoreFlow.RunsAgree` | SIM/SystemC/CORE/DEC/dec.cpp:1245-1251 | over every run from reset it occupies the same FIFOs as the core, takes in the same PCs and retires as many instructions |
| `CoreFlow.CoreConserves` | SIM/SystemC/CORE/MEM/mem.cpp:67-71 | at every clock of the core the PCs taken are as many as the instructions retired and held behind decode |
| `MultiplyWriteBack.WriteBackProduct` | SIM/SystemC/CORE/WBK/wbk.cpp:9-14 | in every reachable state with an instruction in mem2wbk, RES_RX2 is the ISA product of the latest operands x0 took in for or behind it |
| `MultiplyWriteBack.OwnProduct` | SIM/SystemC/CORE/EXE/x0_multiplier.cpp:345-349 | in terms of the inputs of the run: an instruction that left EXE in clock a and MEM in clock b gets its own product if and only if decode offered no other one before clock b - 1 or the product of EXE's operands in clock b - 1 is the same; without a stall it always does |
| `MultiplyWriteBack.StalledProductIsLost` | SIM/SystemC/CORE/EXE/x0_multiplier.cpp:345-349 | a run with one data-cache stall behind a multiplication in which the next product is written back instead |
| `Icache.ParseAdr` | SIM/SystemC/CORE/CACHES/icache.cpp:4-10 | tag, index and offset put together again are the word address |
| `Icache.WakeKeeps` | SIM/SystemC/CORE/CACHES/icache.cpp:30-97 | under the bus contract every wake keeps each validated line, and the words refilled so far, equal to memory |
| `Icache.HitsAreRight` | SIM/SystemC/CORE/CACHES/icache.cpp:12-28 | in every reachable state a hit returns the memory word at the address, and the line under refill never hits |
| `Icache.MissIsServed` | SIM/SystemC/CORE/CACHES/icache.cpp:49-95 | in every run a miss is served five wakes after the bus first answers, however long that takes: the address hits and reads as memory |
| `Icache.LostExactly` | SIM/SystemC/CORE/CACHES/icache.cpp:65-79 | in every run a wake takes a hit away if and only if it begins to refill that address's own line |
| `Icache.HitStays` | SIM/SystemC/CORE/CACHES/icache.cpp:49-95 | over every run an address that hits goes on hitting as long as no other tag of its index misses, whatever is refilled elsewhere |
| `Icache.RefilledExactly` | SIM/SystemC/CORE/CACHES/icache.cpp:81-95 | after a served miss the line hits for exactly the addresses with the tag requested |
| `Icache.InstructionCache.ParseAddress` | SIM/SystemC/CORE/CACHES/icache.cpp:4-10 | the address fields driven are in range and put together again are the word address |
| `Icache.InstructionCache.MissDetection` | SIM/SystemC/CORE/CACHES/icache.cpp:12-28 | hit, stall and instruction word as driven |
| `Icache.InstructionCache.Transition` | SIM/SystemC/CORE/CACHES/icache.cpp:49-95 | one wake of the refill thread on the arrays is the specified step |
| `Predictor.PromoteKeeps` | SIM/SystemC/CORE/PRED_BRANCH_CACHE/pred_branch_cache.cpp:62-70 | raising a low slot, or flipping the sense at the last one, keeps the count right and leaves that slot high |
| `Predictor.StepKeeps` | SIM/SystemC/CORE/PRED_BRANCH_CACHE/pred_branch_cache.cpp:48-96 | every command that names a low slot to write keeps p_nb = high slots + 2 * inverse_lru modulo 4 with a low slot left |
| `Predictor.ReplacementSound` | SIM/SystemC/CORE/PRED_BRANCH_CACHE/pred_branch_cache.cpp:34-97 | in every reachable state the counter is right, some slot has low priority, and the slot written or updated last has not |
| `Predictor.WritesRemembered` | SIM/SystemC/CORE/PRED_BRANCH_CACHE/pred_branch_cache.cpp:48-96 | over every run a slot holds the address and target of the last write to it |
| `Predictor.CountersRemembered` | SIM/SystemC/CORE/PRED_BRANCH_CACHE/pred_branch_cache.cpp:48-96 | over every run it is present with the counter of the last write or update that named it |
| `Predictor.SlotsKept` | SIM/SystemC/CORE/PRED_BRANCH_CACHE/pred_branch_cache.cpp:48-96 | over every run a slot that no command names stays as it is |
| `Predictor.WriteConditionExact` | SIM/SystemC/CORE/PRED_BRANCH_CACHE/pred_branch_cache.cpp:54-71 | the condition on writes is exact: after a write the count is right and the slot high if and only if the slot was low |
| `Predictor.PredBranchCache.PredWrite` | SIM/SystemC/CORE/PRED_BRANCH_CACHE/pred_branch_cache.cpp:48-96 | one command on the arrays and counters is the specified step |
| `Timer.CountsUp` | SIM/SystemC/CORE/TIMER/timer.cpp:14-25 | armed with the counter anywhere, it goes to the limit one step a clock, around the end of 32 bits if it stands above it, with the line down |
| `Timer.FirstExpiry` | SIM/SystemC/CORE/TIMER/timer.cpp:14-25 | the first expiry comes exactly (divider - counter) modulo 2^32 clocks after arming |
| `Timer.Expiry` | SIM/SystemC/CORE/CSR/csr.cpp:42-47 | at the limit the line is up for exactly two clocks, mip bit 7 gets set, and the timer restarts or stops |
| `Timer.OnePeriod` | SIM/SystemC/CORE/TIMER/timer.cpp:9-27 | with reload the timer is back at the limit max(divider, 1) + 3 clocks later, the line up at exactly two of them |
| `Timer.ReloadRecurs` | SIM/SystemC/CORE/TIMER/timer.cpp:9-27 | over any number of periods and every divider, the line is up exactly at clocks 1 and 2 of each period and mip bit 7 stays set |
| `Timer.OneShot` | SIM/SystemC/CORE/TIMER/timer.cpp:17-19 | without reload the line is up at exactly two clocks ever, and the timer ends disabled |
| `Timer.TimerAndCsr.Edge` | SIM/SystemC/CORE/TIMER/timer.cpp:10-26 | the two clocked processes reading each other's old values are the specified step |
| `SegmentOrder.IncludesMeans` | SIM/ELFIO/elfio/elfio.hpp:631-644 | on sorted section lists the walk decides exactly multiset containment |
| `SegmentOrder.IncludesContained` | SIM/ELFIO/elfio/elfio.hpp:631-644 | on any lists what the walk accepts is contained |
| `SegmentOrder.RequeueIsNearer` | SIM/ELFIO/elfio/elfio.hpp:669-687 | putting an enclosed segment back brings one that nothing encloses strictly nearer the front: the re-queueing work-list terminates |
| `SegmentOrder.FrontedFive` | SIM/ELFIO/elfio/elfio.hpp:656-668 | two segments at offset 0 behind three others come to the front in their order, the others exchanged with them one by one |
| `SegmentOrder.ZeroToFront` | SIM/ELFIO/elfio/elfio.hpp:656-668 | permutes the work-list as specified; in front of a segment initialised to file offset 0 there are then only segments with offset 0 |
| `SegmentOrder.GetOrderedSegments` | SIM/ELFIO/elfio/elfio.hpp:647-689 | terminates with a permutation in which no segment is nested in a later one and nothing with another offset precedes a segment at offset 0 that none encloses; it takes the list, as the first loop leaves it, round by round: an element's round is the latest of those enclosing it, one later if that one stands behind it |
| `SegmentOrder.OnlyOrder` | SIM/ELFIO/elfio/elfio.hpp:669-687 | there is only one order by rounds, so that fixes the result, ties included |
| `SegmentOrder.FreeInOrder` | SIM/ELFIO/elfio/elfio.hpp:669-687 | segments that nothing encloses come out in the order the first loop leaves them in |
| `SegmentOrder.ZerosComeFirst` | SIM/ELFIO/elfio/elfio.hpp:656-687 | in every order by rounds of a list with offset 0 in front, nothing with another offset precedes a segment at offset 0 that none encloses |
| `SegmentOrder.EnclosingFirst` | SIM/ELFIO/elfio/elfio.hpp:647-689 | of two segments with sorted section lists, the one strictly containing the other comes first |
| `LayoutSafety.PlaceSectionSound` | SIM/ELFIO/elfio/elfio.hpp:780-861 | placing one section keeps all placed ranges disjoint, after the headers and before the position |
| `LayoutSafety.SectionsAreDisjoint` | SIM/ELFIO/elfio/elfio.hpp:692-887 | after the whole layout, if the position stays within the offset width, all sections that fill bytes lie after the headers, before the section table, and pairwise apart |
| `LayoutMeaning.RequiredDistance` | SIM/ELFIO/elfio/elfio.hpp:793-808 | moving on by required minus current offset gives the distance the addresses ask for, in 32- and 64-bit wrap-around arithmetic |
| `LayoutMeaning.SegmentGapAligns` | SIM/ELFIO/elfio/elfio.hpp:763-773 | the unsigned error term makes the new position agree with the address modulo the alignment if and only if its 64-bit sum does not wrap, which it never does for alignments up to 2^63 |
| `LayoutMeaning.OffsetsFollowAddresses` | SIM/ELFIO/elfio/elfio.hpp:780-861 | after the whole layout every non-empty section of a segment has offset - segment offset = address - segment address for the first segment of the order that holds it, keeps a preset address, and without one starts on its alignment |
| `LayoutMeaning.OffsetsFollowSome` | SIM/ELFIO/elfio/elfio.hpp:780-861 | so for every non-empty section that lies in some segment at all |
| `LayoutMeaning.LooseOnBoundary` | SIM/ELFIO/elfio/elfio.hpp:692-717 | a section of no segment starts on a multiple of its alignment |
| `LayoutMeaning.OffsetsAreSet` | SIM/ELFIO/elfio/elfio.hpp:872-874 | after a layout every segment's offset counts as initialised |
| `LayoutMeaning.AddressesAreSet` | SIM/ELFIO/elfio/elfio.hpp:845-856 | and every section placed in a segment has an address, unless of type SHT_NULL |
| `LayoutMeaning.NewSegmentsAreAligned` | SIM/ELFIO/elfio/elfio.hpp:763-773 | over the whole layout a segment laid out by the alignment arm ends with offset congruent to virtual address modulo alignment if and only if the sum did not wrap; up to 2^63 always |
| `LayoutMeaning.EnclosedSegmentStart` | SIM/ELFIO/elfio/elfio.hpp:774-777 | a segment whose first section an earlier segment placed starts at that section's offset, or at 0 if it was initialised to 0 |
| `LayoutMeaning.OverlappingSections` | SIM/ELFIO/elfio/elfio.hpp:299-317 | the overlap part of validate returns exactly the pairs its condition reports |
| `LayoutMeaning.ReportedMeansMeeting` | SIM/ELFIO/elfio/elfio.hpp:303-314 | validate reports two sections if and only if both pass its type mask, are not empty, are not at offset 0, and their ranges meet |
| `LayoutMeaning.OverlappingRelocationsPass` | SIM/ELFIO/elfio/elfio.hpp:303-306 | two overlapping SHT_REL sections that are not reported |
| `LayoutMeaning.NothingReported` | SIM/ELFIO/elfio/elfio.hpp:292-317 | after a layout that fits, validate reports no pair unless one is of type SHT_NULL or is section 0 |
| `LayoutMeaning.ReportedExactly` | SIM/ELFIO/elfio/elfio.hpp:292-317 | after a layout that fits, a pair is reported if and only if one is section 0 or of type SHT_NULL, both are checked, and their ranges meet |
| `LayoutMeaning.NullIsReported` | SIM/ELFIO/elfio/elfio.hpp:692-717 | a file with a second SHT_NULL section whose save validate reports |
| `LayoutSizes.SucceedsExactly` | SIM/ELFIO/elfio/elfio.hpp:793-807 | a layout is refused if and only if, in some segment when its turn comes, a section with a preset address lies before what the segment already fills |
| `LayoutSizes.NewFilesAreLaidOut` | SIM/ELFIO/elfio/elfio.hpp:733-877 | a file none of whose sections came with an address is never refused |
| `LayoutSizes.NewSegmentSize` | SIM/ELFIO/elfio/elfio.hpp:809-838 | a segment of new sections, its offset initialised to 0 or not, ends in the file at its last section with contents, short by exactly the padding skipped in front of NOBITS sections before that |
| `LayoutSizes.SegmentsCover` | SIM/ELFIO/elfio/elfio.hpp:733-877 | over the whole layout a segment of new sections, its offset initialised to 0 or not, contains all its sections with contents if and only if no padding was skipped in front of a NOBITS section that precedes the last of them; they always begin inside it |
| `LayoutSizes.NobitsGapIsLost` | SIM/ELFIO/elfio/elfio.hpp:809-838 | files, one for each way a segment of new sections is opened, whose data sticks out of its segment because of such padding |
| `LayoutSizes.EnclosedSegmentEnd` | SIM/ELFIO/elfio/elfio.hpp:820-838 | over the whole layout a segment whose last section with contents an earlier segment placed ends exactly where that section does; one without contents, such as a TLS segment of NOBITS sections, has no size in the file |
| `LayoutSizes.NoSectionsPlaced` | SIM/ELFIO/elfio/elfio.hpp:747-752 | a segment without sections adds nothing to the file and has no size in it, but a PT_PHDR one has the size and place of the segment table |
| `LayoutSizes.TableSegment` | SIM/ELFIO/elfio/elfio.hpp:747-752 | over the whole layout a PT_PHDR segment without sections covers exactly the segment table, in file and memory |
| `LayoutMemory.NewSegmentMemory` | SIM/ELFIO/elfio/elfio.hpp:826-833 | a segment of new loaded sections needs in memory the distance it moved the position and all its NOBITS sizes, or what it came with if that is more |
| `LayoutMemory.SegmentsHold` | SIM/ELFIO/elfio/elfio.hpp:863-871 | over the whole layout its memory size is exactly that, and every section with bytes lies in [vaddr, vaddr + memory size), NOBITS ones and the padding in front of them included |
| `LayoutMemory.MemoryIsFile` | SIM/ELFIO/elfio/elfio.hpp:820-833 | over the whole layout a segment all of whose loaded sections have contents is as large in memory as in the file, new and enclosed ones alike |
| `LayoutMemory.EnclosedMemoryEnd` | SIM/ELFIO/elfio/elfio.hpp:826-833 | over the whole layout a segment whose last section an earlier one placed ends in memory where that section does, .tbss in a PT_TLS segment included |
| `LayoutMemory.MemoryNeverFalls` | SIM/ELFIO/elfio/elfio.hpp:867-871 | in a 64-bit file no segment loses memory it came with |
| `LayoutMemory.BssCounts` | SIM/ELFIO/elfio/elfio.hpp:826-833 | a segment of 0x10 bytes of .data and 0x100 of .bss gets memory size 0x110 |
| `LayoutTight.NewFileIsTight` | SIM/ELFIO/elfio/elfio.hpp:692-877 | a layout of new sections is no longer than headers, segment table and contents, with less than one alignment in front of every section and segment |
| `LayoutWriter.EnclosedSegmentsStartAtTheirSections` | SIM/ELFIO/elfio/elfio.hpp:647-689 | ordering and layout together: after a save every nested segment starts exactly at its first section, or at 0 if it was initialised to 0 |
| `LayoutWriter.ElfWriter.CalcSegmentAlignment` | SIM/ELFIO/elfio/elfio.hpp:720-730 | each segment's alignment becomes the maximum of its own and its sections' |
| `LayoutWriter.ElfWriter.LayoutSection` | SIM/ELFIO/elfio/elfio.hpp:780-861 | the in-place treatment of one section equals the specified step, the abort included |
| `LayoutWriter.ElfWriter.LayoutSegment` | SIM/ELFIO/elfio/elfio.hpp:742-874 | one segment in place, the abort part-way included, equals the specification |
| `LayoutWriter.ElfWriter.LayoutSegmentsAndTheirSections` | SIM/ELFIO/elfio/elfio.hpp:733-877 | the whole loop equals the specification for the one order by rounds: complete, enclosing segments first, segments at offset 0 that none encloses behind nothing else |
| `LayoutWriter.ElfWriter.IsSectionWithoutSegment` | SIM/ELFIO/elfio/elfio.hpp:616-628 | true exactly when no segment lists the section |
| `LayoutWriter.ElfWriter.LayoutSectionsWithoutSegments` | SIM/ELFIO/elfio/elfio.hpp:692-717 | the loose sections in place equal the specification |
| `LayoutWriter.ElfWriter.LayoutSectionTable` | SIM/ELFIO/elfio/elfio.hpp:880-887 | the table goes to the next multiple of 4, less than 4 bytes on |
| `LayoutWriter.ElfWriter.Save` | SIM/ELFIO/elfio/elfio.hpp:193-226 | with every segment at the largest alignment among its sections and in the order just said, segments at offset 0 that none encloses first, succeeds exactly when no section has to go backwards; the sections are then safely placed between the headers and the section table, whose offset is a multiple of 4 |
| `Relocations.Packing` | SIM/ELFIO/elfio/elfio_relocation.hpp:361-409 | re-packing an entry keeps the symbol exactly when it fits the field and the type exactly when it fits eight bits, in both classes |
| `Relocations.InfoWrittenOut` | SIM/ELFIO/elfio/elfio_relocation.hpp:383-402 | two r_info words and what they mean in either class |
| `Relocations.RelocationSection.GetEntry` | SIM/ELFIO/elfio/elfio_relocation.hpp:321-357 | what is read, set again, gives the entry back if and only if its type fits the unsigned char |
| `Relocations.RelocationSection.SetEntry` | SIM/ELFIO/elfio/elfio_relocation.hpp:361-409 | what set_entry stores, leaving all other entries |
| `Relocations.RelocationSection.SwapSymbols` | SIM/ELFIO/elfio/elfio_relocation.hpp:294-309 | every entry naming one of two symbols names the other afterwards, the rest unchanged |
| `Symbols.SwapKeepsMeaning` | SIM/ELFIO/elfio/elfio_relocation.hpp:294-309 | exchanging two symbols and patching a relocation leaves it with the same offset, type, addend and named symbol if and only if its type fits eight bits or it names neither symbol |
| `Symbols.LocalsStayInOrder` | SIM/ELFIO/elfio/elfio_symbols.hpp:496-533 | that permutation leaves the local symbols in the order they had |
| `Symbols.ArrangedFour` | SIM/ELFIO/elfio/elfio_symbols.hpp:496-533 | two local symbols behind two others come in front of them, and the others change places |
| `Symbols.SymbolSection.ArrangeLocalSymbols` | SIM/ELFIO/elfio/elfio_symbols.hpp:488-534 | terminates with the table permuted as specified, entry 0 in place, locals first, sh_info at the first non-local index; each relocation means what it meant if and only if its type fits eight bits or its symbol was never exchanged, which is decided by the original table |
| `Hashes.ElfHashIs28Bits` | SIM/ELFIO/elfio/elfio_utils.hpp:212-223 | the System V hash keeps its top nibble clear over any string |
| `Hashes.ElfHashIsSum` | SIM/ELFIO/elfio/elfio_utils.hpp:212-223 | with n bytes in front of the first NUL it is the sum of s[i] * 16^(n-1-i) if and only if that sum is below 2^28 |
| `Hashes.GnuHashIsSum` | SIM/ELFIO/elfio/elfio_utils.hpp:226-232 | the GNU hash of every name is (5381 * 33^n + the sum of s[i] * 33^(n-1-i)) modulo 2^32 |
| `Hashes.KnownHashes` | SIM/ELFIO/elfio/elfio_utils.hpp:212-232 | both hashes of the empty name, printf and syscall have their published values |
| `Hashes.ElfHash` | SIM/ELFIO/elfio/elfio_utils.hpp:212-223 | the loop computes the specified hash of a NUL-terminated string |
| `Hashes.GnuHash` | SIM/ELFIO/elfio/elfio_utils.hpp:226-232 | the loop computes the specified GNU hash |
| `HashLookup.SysvLookup` | SIM/ELFIO/elfio/elfio_symbols.hpp:278-313 | on a well-formed table (System V gABI chapter 5, Hash Table) the chain walk terminates, finds a symbol of every non-empty name that has one, the first on its chain, and finds nothing else |
| `HashLookup.RecordedPasses` | SIM/ELFIO/elfio/elfio_symbols.hpp:340-358 | neither the bloom word nor the bucket turns away a recorded symbol |
| `HashLookup.GnuLookup` | SIM/ELFIO/elfio/elfio_symbols.hpp:317-378 | on a well-formed GNU table the walk stays in range, terminates, finds for every name of a hashed symbol the first of them, and finds nothing else |
| `HashLookup.GetSymbol` | SIM/ELFIO/elfio/elfio_symbols.hpp:79-120 | with either kind of hash section or none, lookup succeeds if and only if some symbol has the name, or the name is empty and its bucket names no symbol; for a non-empty name it finds the first on the chain, among the hashed ones, or in the whole table |
| `HashLookup.EmptyNameInEmptyTable` | SIM/ELFIO/elfio/elfio_symbols.hpp:298-310 | a table without symbols in which the empty name is found |
| `HashLookup.SysvTableWrittenOut` | SIM/ELFIO/elfio/elfio_symbols.hpp:289-303 | the words of a table of printf and syscall, in buckets 2 and 0 of 3 |
| `HashLookup.GnuTableWrittenOut` | SIM/ELFIO/elfio/elfio_symbols.hpp:328-366 | the words of a GNU table of the same two symbols, bloom filter and chain ends included |
| `SectionData.FitsExactly` | SIM/ELFIO/elfio/elfio_section.hpp:158-163 | over the whole 32-bit range, the sizes for which the new block holds the result, in terms of capacity, size and bytes appended |
| `SectionData.FullBlockExactly` | SIM/ELFIO/elfio/elfio_section.hpp:162-163 | a full block can be appended to if and only if twice the sum stays below 2^32 |
| `SectionData.AppendLeavesItsBlock` | SIM/ELFIO/elfio/elfio_section.hpp:162-163 | one byte behind 2 GiB is written into a block of two |
| `SectionData.Section.SetData` | SIM/ELFIO/elfio/elfio_section.hpp:128-146 | the contents become the given bytes, in a block of exactly that capacity |
| `SectionData.Section.AppendData` | SIM/ELFIO/elfio/elfio_section.hpp:155-181 | for all sizes: the contents become the old ones followed by the given bytes, in place or in a larger block, or, exactly when the block would be too small, the overrun is reported |
| `SectionData.Section.AddString` | SIM/ELFIO/elfio/elfio_strings.hpp:58-77 | returns the end of the table, 1 in an empty one, and appends the terminated string there, or reports the overrun exactly when a block would be too small |
| `SectionData.Section.GetString` | SIM/ELFIO/elfio/elfio_strings.hpp:43-55 | the string at an offset, null exactly past the contents |
| `SectionData.EveryStringReadsBack` | SIM/ELFIO/elfio/elfio_strings.hpp:43-77 | after any run of additions to any table every returned offset reads back its own string |
| `SectionData.OldStringsStay` | SIM/ELFIO/elfio/elfio_strings.hpp:43-77 | strings already in the table stay readable, and offset 0 of one begun empty is the empty string |
| `Notes.WordReadsBack` | SIM/ELFIO/elfio/elfio_utils.hpp:70-108 | a word stored in the file's byte order reads back, in both orders |
| `Notes.WordAtValue` | SIM/ELFIO/elfio/elfio_utils.hpp:70-108 | and its value is that of the four bytes, most significant last, or first when the flag says so |
| `Notes.NoteWrittenOut` | SIM/ELFIO/elfio/elfio_note.hpp:97-128 | the bytes of one note in both orders, paddings included |
| `Notes.NoteReadsBack` | SIM/ELFIO/elfio/elfio_note.hpp:97-157 | a note written anywhere in the data is read back whole, and the parsing step lands exactly after its padding |
| `Notes.LastReadsBackExactly` | SIM/ELFIO/elfio/elfio_note.hpp:97-128 | a note written last reads back if and only if its descriptor was given or its size is 0: a size without bytes loses it |
| `Notes.CallsParseExactly` | SIM/ELFIO/elfio/elfio_note.hpp:97-157 | for any sequence of add_note calls, parsing what they wrote gives the recorded starts if and only if none but the last announces bytes it does not write, or announces at least 2^32 - 3 of them, which 32-bit rounding makes none |
| `Notes.NotesReadBack` | SIM/ELFIO/elfio/elfio_note.hpp:59-94 | for every sequence of notes each is read back at its recorded start |
| `Notes.ParsingFindsEveryNote` | SIM/ELFIO/elfio/elfio_note.hpp:132-157 | parsing a section written from empty gives exactly the recorded start positions |
| `Notes.NoteSection.ProcessSection` | SIM/ELFIO/elfio/elfio_note.hpp:132-157 | the parsing loop terminates and fills the table with the specified walk |
| `Notes.NoteSection.AddNote` | SIM/ELFIO/elfio/elfio_note.hpp:97-128 | for every call, a null descriptor included: appends the bytes and records the start, or reports the overrun exactly when the block is too small; with a descriptor given or empty the section holds one note more |
| `Notes.NoteSection.ParsesAsRecorded` | SIM/ELFIO/elfio/elfio_note.hpp:132-157 | the same for a section filled by those calls, when its file is loaded again |
| `Notes.NoteSection.GetNote` | SIM/ELFIO/elfio/elfio_note.hpp:59-94 | for every index: refused from the section size on, outside the table exactly from the number of notes to the section size, and otherwise what is read at the recorded start |
| `Notes.NoteSection.SomeNumberIsUnrecorded` | SIM/ELFIO/elfio/elfio_note.hpp:65-69 | every section with notes has such an index: the number of its notes |
| `Notes.NoteSection.GetGivesWhatWasAdded` | SIM/ELFIO/elfio/elfio_note.hpp:59-157 | in a section written from empty, get_note(i) gives the i-th type, name and descriptor and re-parsing changes nothing |
| `SegmentList.BlockedMeansOverlap` | SIM/SystemC/sysc_miniriscv/elflib.h:91-110 | for a range that is not empty, being refused by a segment is overlapping it |
| `SegmentList.CoveringIsUnique` | SIM/SystemC/sysc_miniriscv/elflib.h:127-133 | in an ordered list at most one segment covers an address |
| `SegmentList.NeighboursDecide` | SIM/SystemC/sysc_miniriscv/elflib.h:91-110 | in an ordered list only the two neighbours of the place the walk stops at can block a range |
| `SegmentList.SegmentMemory.MemAddSeg` | SIM/SystemC/sysc_miniriscv/elflib.h:69-117 | any call keeps the linked list sorted and disjoint; a range is refused exactly when some segment blocks it; otherwise one node with its bytes is added and nothing else changes |
| `SegmentList.SegmentMemory.MemLw` | SIM/SystemC/sysc_miniriscv/elflib.h:119-136 | returns the word of the one covering segment in spite of the early exit, 0 for an unaligned or uncovered address, and reports exactly the words that end behind their segment |

## Left out

The core:
- Exceptions, privilege modes, CSR instructions and the forwarding of CSR values; `mem::csr_exception` and `KERNEL_ADR_SC` checks.
- Branch prediction in fetch and decode, the return address stack, and the choice of victim in `pred_check`, which does not establish the condition on writes that `Predictor` states.
- Extraction of fields from 32-bit instruction words and the packing of FIFO contents into bit vectors: instructions are values of `Isa.Inst` with immediates already extended.
- Timing.ScheduleExactly: divisions and cache stalls are left to the one-clock conditions (`DecodeTakes`, `ExeKeepsExactly`, `FetchTakes`), `Divider.DividerTiming` and the bound of `Progress`.
- Multiplications inside the refinement of `Core`: the unit, its timing and its way through the FIFOs are proved in their own modules. What an instruction behind a multiplication reads (`MULT_INST_RE`, `MULT_INST_RM`, `r1_valid_se` and `dependence_on_mult`) is not modelled; EXE takes EXE_RES_RE of an emptied exe2mem for it.
- Delta cycles: combinational logic is settled in dependency order, then the clock edge happens. Signals that a process does not always drive are modelled as holding their value where that matters.
- Sub-word access and the data cache: data memory is a parameter of `Isa.Platform`, and a store reaches it when it leaves MEM. `dcache` and `buffercache` are not part of this model.
- `Stages.ShiftUp` and `Stages.ShiftDown` describe what the shifter's bit ranges select, not its 31 cases one by one.
- The adder processes CSA_1 to CSA_27 are one loop per stage over adder numbers instead of 27 methods; the signals `signed_res_sx0` and its copies, which nothing reads, are omitted.
- The three-cycle wait of the instruction cache at reset, and the counter TIME_RT, which nothing in the handshake reads.

The ELF library:
- Streams, dumping, address translation, stream sizes, allocation failure, and null sections behind accessors.
- LayoutWriter.ElfWriter.Save: covers the layout, not the writing of headers and data; the part of `validate` that compares segments with sections is not modelled.
- LayoutSafety.SectionsAreDisjoint: when the sum of all sizes and gaps exceeds the offset width, offsets wrap in the code and nothing is claimed.
- LayoutMemory.SegmentsHold: not about segments with NOBITS sections that came with addresses or with .tbss outside PT_TLS, which the code leaves out of the memory size, nor about segments that mix new and placed sections.
- LayoutMemory.MemoryNeverFalls: in a 32-bit file a memory size above 2^32 is cut, and nothing is claimed.
- LayoutSizes.SegmentsCover: about segments all of whose sections are new, in files whose section 0 is of type SHT_NULL; for a segment that mixes new and placed sections the code's running size is modelled but no statement is made.
- HashLookup.SysvLookup: the table words are a sequence, not decoded from the section's bytes; the well-formedness it requires is the one the gABI defines, and the code checks none of it.
- HashLookup.GnuLookup: as for the System V table; the GNU format is described by `HashLookup.Recorded` and `HashLookup.ChainEnds`.
- Arrays and relocation entries are values of the class's field widths; the byte layout of symbol and relocation records is not modelled.

The segment list:
- SegmentList.SegmentMemory.MemAddSeg: allocation always succeeds, and address plus size does not wrap in 64 bits.
- The ELF file reader around the list.

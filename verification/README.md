# Single-cycle MIPS simulator: a verified model of the execution engine

This project models the execution core of a single-cycle MIPS simulator
(`IoanTsiak.cpp`). The simulator runs a small MIPS subset one instruction per
clock cycle over 32 registers, a program counter and a sparse word memory:

- R-type: `add addu sub subu and or nor slt sltu`;
- shifts: `sll srl`;
- I-type: `addi addiu andi ori slti sltiu`;
- memory: `lw sw`;
- control flow: `beq bne j`.

`sll $zero, $zero, 0` is the halt instruction.

The model is functional:

- `Words`: 32-bit words, kept as integers in [0, 2^32). It defines wrap-around, the two's-complement reading, bitwise operations, shifts and 16-bit extension.
- `Isa`: the opcode enumeration, the classification of opcode text, the decoded instruction and its immediate extension.
- `Control`: the control-signal table (`GenerateControl`).
- `Alu`: the ALU (`DoALU`).
- `Machine`: the architectural state and one clock cycle, `Step` (`ExecuteInstruction`).
- `Simulator`: the fetch loop of `RunSimulation`, as a fuel-bounded function `Loop`/`Run` and as the imperative loop `Simulate`.
- `ExampleRun`: a six-instruction program run end to end.

Registers hold `int32_t`, memory holds `int32_t` and the PC is a `uint32_t`. All three are modelled by the same 32-bit pattern, and `Signed` gives the two's-complement value where the source compares signed.

## Model

| member | source | states |
|---|---|---|
| Words.AddWrap | IoanTsiak.cpp:605-606 | the 32-bit sum is congruent to `a + b` modulo 2^32 and equals the signed sum whenever that fits in 32 bits |
| Words.SubWrap | IoanTsiak.cpp:607 | the 32-bit difference is congruent to `a - b` modulo 2^32 and equals the signed difference whenever that fits |
| Words.ShiftAmountIsMask | IoanTsiak.cpp:615-616 | the shift amount `b & 31` is `b` modulo 32 |
| Words.ZeroExtend16 | IoanTsiak.cpp:384-386 | zero extension lies in [0, 0xFFFF] and keeps the low 16 bits |
| Words.ZeroExtendIsMask | IoanTsiak.cpp:384-386 | zero extension is exactly the mask `x & 0xffff` |
| Words.SignExtend16 | IoanTsiak.cpp:388-391 | sign extension lies in the signed range [-32768, 32767] and keeps the low 16 bits |
| Words.ExtendIdempotent | IoanTsiak.cpp:380-392 | applying either extension twice equals applying it once |
| Words.BitwiseBit | IoanTsiak.cpp:608-610 | bit by bit, `BitAnd` is AND, `BitOr` is OR and `BitNor` is NOR of the two 32-bit patterns |
| Words.NotBit | IoanTsiak.cpp:610 | the complement `~` flips every one of the 32 bits |
| Words.WordsByBits | IoanTsiak.cpp:608-610 | two words with the same 32 bits are equal, so the bit-by-bit facts determine each bitwise result |
| Words.ShiftRoundTrip | IoanTsiak.cpp:615-616 | a right shift by `k` undoes a left shift by `k` for values that fit in `32 - k` bits |
| Isa.OpcodeOf | IoanTsiak.cpp:546-553 | a recognised opcode text is exactly that opcode's mnemonic; every other text is `Unknown` |
| Isa.OpcodeOfMnemonic | IoanTsiak.cpp:546-599 | every opcode is recognised from its own mnemonic (`Unknown` from the empty text) |
| Isa.ExtendImmediate | IoanTsiak.cpp:380-392 | `andi`/`ori` get an immediate in [0, 0xFFFF]; other I-type opcodes get one in [-32768, 32767]; the low 16 bits are kept; non-I-type instructions are untouched; nothing else changes, and the halt test is unaffected |
| Isa.IsHalt | IoanTsiak.cpp:790-795 | `sll` with `rs`, `rt`, `rd` and the immediate all 0 is the halt instruction; what halting does is stated by `Machine.HaltStep` and `Simulator.HaltEndsRun` |
| Isa.ExtendImmediateIdempotent | IoanTsiak.cpp:380-392 | extending an already extended instruction changes nothing |
| Control.Generate | IoanTsiak.cpp:546-599 | column by column: RegDst exactly for R-type; Jump exactly for `j`; Branch exactly for `beq`/`bne`; MemRead and MemToReg exactly for `lw`; MemWrite exactly for `sw`; ALUSrc exactly for shifts, I-type, `lw`, `sw`; RegWrite exactly for R-type, shifts, I-type, `lw`; ALUOp 2 exactly for R-type and shifts, 1 exactly for branches, never above 2; an unknown opcode gets the all-false default |
| Alu.Execute | IoanTsiak.cpp:611-614 | every set-on-less-than variant yields 0 or 1 |
| Alu.Addition | IoanTsiak.cpp:605-618 | `add`, `addi`, `addiu`, `addu` and the fallback for every other opcode give the same wrapped 32-bit sum, which is the signed sum when that fits |
| Alu.Subtraction | IoanTsiak.cpp:607 | `sub` and `subu` give the wrapped 32-bit difference |
| Alu.SubUndoesAdd | IoanTsiak.cpp:605-607 | subtracting `b` from the ALU sum `a + b` gives back `a` despite wrap-around |
| Alu.SetOnLess | IoanTsiak.cpp:611-614 | `slt` equals `slti` and is 1 iff `a < b` as signed; `sltu` equals `sltiu` and is 1 iff `a < b` as unsigned |
| Alu.SltMatchesDifferenceSign | IoanTsiak.cpp:611 | without overflow, `slt` is 1 iff the difference is negative |
| Alu.SltuIsBorrow | IoanTsiak.cpp:612 | `sltu` is 1 iff the difference `a - b` wraps to a value above `a` |
| Alu.BitwiseAnd | IoanTsiak.cpp:608 | `and` equals `andi`, and each of the 32 result bits is set exactly when it is set in both operands; the result never exceeds either operand |
| Alu.BitwiseOr | IoanTsiak.cpp:609-610 | `or` equals `ori`, and each of its 32 bits is set exactly when it is set in either operand; each bit of `nor` is set exactly when it is clear in both; `nor` is the complement of `or` |
| Alu.NorZeroIsNot | IoanTsiak.cpp:610 | `nor` with 0 is bitwise complement |
| Alu.Shifts | IoanTsiak.cpp:615-616 | with `k` = `b` modulo 32 (the low five bits), `sll` is the unsigned `a * 2^k` modulo 2^32 and `srl` is the floor of the unsigned `a / 2^k`; a right shift never grows the value; a zero amount is the identity |
| Alu.ShiftRightUndoesShiftLeft | IoanTsiak.cpp:615-616 | `srl` by `k` undoes `sll` by `k` on values that fit in `32 - k` bits |
| Machine.Init | IoanTsiak.cpp:294-299 | the initial state: every register 0 except `$gp` = 0x10008000 and `$sp` = 0x7ffffffc, PC 0, and empty memory, since `mem` starts default-constructed (IoanTsiak.cpp:155) |
| Machine.TargetPc | IoanTsiak.cpp:404 | a label's PC is word aligned and equals four times its index when that fits in 32 bits |
| Machine.NextPc | IoanTsiak.cpp:540 | the next PC is the PC plus 4 modulo 2^32 (0xFFFFFFFC wraps to 0) and stays word aligned |
| Machine.Load | IoanTsiak.cpp:489-493 | the sparse-memory read, 0 for an address never written; its contract is stated by `Machine.LoadWord` and `Machine.StoreThenLoad` |
| Machine.Datapath | IoanTsiak.cpp:474-510 | the ALU, memory access and halt check of a non-control-flow instruction; stated by `Machine.AluWriteback`, `Machine.StoreWord`, `Machine.LoadWord`, `Machine.HaltStep` and `Machine.UnknownOpcode` |
| Machine.Writeback | IoanTsiak.cpp:511-537 | the register write-back; stated by `Machine.AluWriteback`, `Machine.SetOnLessWriteback`, `Machine.LoadWord` and `Machine.RegisterFrame` |
| Machine.Redirect | IoanTsiak.cpp:402-412 | a jump target changes no register or memory; a mapped, non-empty label sets the PC to its instruction's address; an empty label changes nothing; it is unresolved exactly when the label is non-empty and unmapped, and then nothing changes |
| Machine.Step | IoanTsiak.cpp:371-541 | a cycle halts exactly for the halt instruction; an unresolved label happens only for control flow and leaves the state unchanged; control flow changes no register or memory; every other instruction advances the PC by 4; memory changes only by the `sw` store it reports |
| Machine.ControlTransfer | IoanTsiak.cpp:395-472 | `j`, or a branch whose condition holds: a mapped label moves the PC to four times its index, an unmapped label stops with the state unchanged, an empty label changes nothing; registers and memory are never touched |
| Machine.BranchNotTaken | IoanTsiak.cpp:437-442 | a branch whose condition fails only advances the PC by 4 |
| Machine.AluWriteback | IoanTsiak.cpp:475-540 | R-type writes `rd` with the ALU on `rs`, `rt`; shifts write `rd` with `rt` shifted by the immediate; I-type writes `rt` with the ALU on `rs` and the extended immediate; memory untouched, PC + 4 |
| Machine.SetOnLessWriteback | IoanTsiak.cpp:513-522 | `slt`/`sltu` write the 0/1 comparison (signed / unsigned) to `rd` while the reported ALU output is the wrapped `rs - rt` |
| Machine.StoreWord | IoanTsiak.cpp:495-502 | `sw` stores `rt` at `rs + offset` and changes no other address or register |
| Machine.LoadWord | IoanTsiak.cpp:484-494 | `lw` writes the word at `rs + offset` to `rt`, and 0 for an address never written |
| Machine.StoreThenLoad | IoanTsiak.cpp:484-502 | a load from the address a store just wrote reads back the stored word |
| Machine.HaltStep | IoanTsiak.cpp:506-510 | the halt instruction stops the run, writes back nothing and advances the PC by 4 |
| Machine.UnknownOpcode | IoanTsiak.cpp:475-540 | an unknown opcode adds `rs` and `rt` in the ALU, writes nothing and advances the PC |
| Machine.StepSeesExtendedImmediate | IoanTsiak.cpp:380-392 | executing the stored, already extended instruction is the same as executing the instruction as loaded |
| Machine.RegisterFrame | IoanTsiak.cpp:513-537 | a cycle changes no register other than its destination (`rd` for R-type and shifts, `rt` otherwise) |
| Machine.ControlPredictsEffects | IoanTsiak.cpp:546-599 | without RegWrite no register changes; without MemWrite memory is unchanged; a load happens exactly with MemRead, a store exactly with MemWrite; without Jump or Branch the PC advances by 4 |
| Machine.StepKeepsAlignment | IoanTsiak.cpp:371-541 | a word-aligned PC stays word aligned after a cycle |
| Simulator.Loop | IoanTsiak.cpp:303-332 | the fetch loop over a cycle function; stated by `Simulator.LoopBounds`, `Simulator.FetchPastEndStops`, `Simulator.LoopCompose` and `Simulator.LoopMoreFuel` |
| Simulator.Run | IoanTsiak.cpp:303-332 | the fetch loop over the simulator's own cycle; stated by `Simulator.RunKeepsAlignment`, `Simulator.HaltEndsRun` and `Simulator.WriteBackIsInvisible` |
| Simulator.LoopBounds | IoanTsiak.cpp:303-332 | the cycle count grows by at most the fuel, and by exactly the fuel when the fuel stopped the run; the program keeps its length; an exhausted run has its fetch index past the end; a halted or unresolved run counted its last cycle |
| Simulator.FetchPastEndStops | IoanTsiak.cpp:307-311 | a fetch index at or past the end of the program ends the run before any cycle, with nothing changed |
| Simulator.LoopCompose | IoanTsiak.cpp:303-316 | a run of `a` cycles that all continue, resumed for `b` more, equals one run of `a + b` cycles, and those `a` cycles added exactly `a` to the count |
| Simulator.Simulate | IoanTsiak.cpp:294-332 | the imperative fetch loop computes exactly the bounded run from the initial state |
| Simulator.LoopMoreFuel | IoanTsiak.cpp:304-316 | more fuel does not change a run that the fuel did not cut short |
| Simulator.RunKeepsAlignment | IoanTsiak.cpp:304-332 | the PC stays word aligned for the whole run |
| Simulator.HaltEndsRun | IoanTsiak.cpp:506-510 | fetching the halt instruction at index `k` ends the run in that cycle with the PC advanced by 4 (to `4k + 4` unless that wraps), nothing else changed |
| Simulator.ExtendInPlace | IoanTsiak.cpp:313 | writing an extended immediate back into the stored program leaves its extended form unchanged |
| Simulator.LoopRespectsExtension | IoanTsiak.cpp:313-332 | programs that agree once extended give the same final state, cycle count and stop reason |
| Simulator.WriteBackIsInvisible | IoanTsiak.cpp:313-332 | running a program or its fully extended form gives the same final state, cycle count and stop reason |
| Simulator.ExtendedProgramIsStable | IoanTsiak.cpp:313-332 | once every immediate is extended, the stored program never changes again |
| ExampleRun.ExampleProgramRun | IoanTsiak.cpp:294-332 | the example program halts after 6 cycles with `$t0` = 5, `$t1` = 3, `$t2` = `$t3` = 8, memory {0x10008000: 8} and PC 0x18 |

## Behaviour worth knowing

- Final PC of the example. The halt of the six-instruction example sits at index 5, and a halt still advances the PC by 4 (IoanTsiak.cpp:508). So the run ends with PC 0x18 (`ExampleRun.ExampleProgramRun`).
- Immediate write-back. The fetch loop takes a reference to the stored instruction (IoanTsiak.cpp:313), and the extension at IoanTsiak.cpp:380-392 writes the extended immediate back through it. The model writes it back too, and proves the write-back invisible (`Simulator.WriteBackIsInvisible`, `Simulator.ExtendedProgramIsStable`).
- Unknown opcodes. An unknown opcode still runs the ALU fallback, an addition (IoanTsiak.cpp:618), and advances the PC by 4 (IoanTsiak.cpp:540) (`Machine.UnknownOpcode`).
- Register 0. Writes to register 0 are not guarded (IoanTsiak.cpp:526, 532), so the model claims no "register 0 reads 0" invariant.

## Left out

- Loading and parsing: `LoadAssembly`, `ParseLine`, `ParseInstruction`, `ParseRegister`, `Trim`, and `stoi` immediates. The model takes decoded instructions and a label map as inputs.
- `ParseRegister`'s `-1` sentinel: register fields are `RegIndex` (0..31), so an unknown register name cannot be represented.
- Printing and tracing: the `[DEBUG]` output, `PrintCycleInformation`, `PrintFinalState` (including its re-zeroing of register 0 for display), `ToBinaryString`, `GetAlu2Bits`, `DecodeMonitorRegisters` and `main`'s cycle selection.
- Per-cycle monitor bookkeeping (`didLoad`, `storeValue`, `changedAddrs`, `branchLabelMonitor`). A cycle reports only its ALU output and its memory access.
- The `originalLine` text. A line's own label (kept in `lbl`, never in the instruction) reaches the model only through the label map.
- `Simulator.LoopBounds`: the simulator's loop has no bound. A `j`, or a taken branch, to an empty label leaves the PC unchanged and repeats forever. `Loop`, `Run` and `Simulate` take a fuel bound and stop with `OutOfFuel` when it runs out.
- Undefined behaviour: C++ signed overflow in `a + b` and `a - b` on `int32_t` is modelled as two's-complement wrap-around. So is the `int` product `labelMap[label] * 4` for label indices of 2^29 or more.
- `Simulator.LoopBounds`, `Simulator.LoopCompose`: `cycleCount` is an `int` (IoanTsiak.cpp:164, incremented at 316). The model's count is unbounded, and the source's overflow past 2^31 - 1 cycles is not modelled.
- `lw`/`sw` offsets are not extended by the code, which uses them as parsed. The model uses the 32-bit pattern as given.
- `Simulator.Simulate` takes the cycle function as a parameter. The simulator's own cycle is `CycleOf(labels)`, and `Run` is the loop over it.

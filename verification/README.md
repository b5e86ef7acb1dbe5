# A verified model of the rve RISC-V emulator

rve interprets RV32IM with Zicsr and machine-mode traps: a decoder, one hart, a bus with RAM, a UART and a TOHOST device,
and an emulator loop that handles system calls, halting and the step limit. This project models all of these and proves what
they promise.

The model has two layers. The upper one is a specification in integer arithmetic: words are integers below 2^32, fields are
cut out by division and remainder, a step of the hart is a function on machine states (`Isa.Step`), a step of the emulator a
function on emulator states (`Emulation.EmuStep`). The lower one has the shape of the C code: methods with shifts, masks and
sign extension, classes whose fields are updated in place (`Memory`, `UartDevice`, `Bus`, `Hart`, `Soc`, `Emulator`), the loops
of the bus lookup, the write system call and the run. Every lower-layer method ensures that it computes exactly what the upper
layer says, so that what is proved about `Isa.Step`, about runs of it and about the emulator holds of the C-shaped code.

| modules | what they hold |
|---|---|
| Words, Bits | machine words, bitwise operators by recursion on bits, and their laws |
| Instructions, Decoder, Encoding | the decoder as a specification and as the code computes it; encoding, and both round trips |
| Platform, Devices, SystemBus | RAM, UART, TOHOST and the bus, as values and as classes |
| Isa, Execute, Harts | one step of the hart, as a function and as the code computes it |
| Emulation, Emulators | the emulator, as a function and as the code computes it |
| RegisterLaws, MulDivLaws, BranchLaws, AccessLaws, CsrLaws, IllegalWords | laws of single instructions, in terms of the registers, bytes and bits before and after a step |
| Traps, TrapEntry | laws of traps, interrupts and MRET |
| Replay, Interrupts, RunInvariant | runs of the hart: retirement records, transparent interrupts, invariants |
| RamHistory, BusOrder, UartHistory, ResetMap | histories of the devices, and the bus that the emulator builds |
| EmulatorRuns, Syscalls, EmulatorReplay | runs of the emulator: step limit, halting, the write system call, returned records |
| Examples | one-word programs on which the code departs from the standard or its own comments |
| Disassembly | the disassembler, and that its text determines the word |

## Where the code departs from its documentation or the standard

The model follows the code. For each departure a lemma says from the state before the step, and for all states, when it
happens; where a lemma of `Examples` is named, it runs one program on which it does.

- A refused store has code 7, which is also the timer interrupt's: mcause gets bit 31 and a vectored mtvec applies
  (`Traps.McauseDeparture`, `Examples.RefusedStore`).
- Against its comments (src/hart.c:31-44), a load or store that the bus refuses leaves 0 in mtval instead of the address
  (`Traps.MtvalDeparture`, `Examples.RefusedStore`).
- CSRRW and CSRRWI with an rs1 field of 0 leave the CSR alone instead of clearing it (`CsrLaws.ZeroSourceDeparture`,
  `Examples.UnclearedCsr`).
- A write to the read-only identity registers at 0xF11 to 0xF14 is ignored instead of trapping (`CsrLaws.ReadOnlyDeparture`,
  `Examples.IgnoredWrite`).
- A CSR write stores every bit: mepc can become unaligned (`CsrLaws.MepcDeparture`, `Examples.UnalignedMepc`), and an MRET
  then makes the pc unaligned for one step (`RunInvariant.RunInvariant`, `RunInvariant.UnalignedPcTraps`).
- EBREAK is an illegal instruction (`IllegalWords.IllegalExactly`).
- ECALL takes no trap in the hart: it steps over itself and leaves the call to the emulator (`Traps.PreciseTraps`).
- Bad funct3 fields under BRANCH, STORE and SYSTEM, and unknown PRIV words, are decoded as valid with an unknown operation; the
  step still ends in an illegal-instruction trap (`Decoder.RveDecodeInstruction`, `IllegalWords.IllegalExactly`).
- Registering a peripheral that overlaps another succeeds (`SystemBus.Bus.AddPeripheral`).
- A program that halts exactly on the step limit gets exit code 1 (`EmulatorRuns.ExitCodeAtLimit`, `Examples.LostExitCode`),
  and a cycle count that wraps around in the first step allows one step more than the limit (`EmulatorRuns.RunWithLimit`).
- The record that the emulator returns for a write call does not say that a0 changed (`EmulatorReplay.EmuStepReplays`,
  `Examples.UnrecordedResult`).

## Model

| member | source | states |
|---|---|---|
| `Decoder.GetOpcode` | src/decoder.c:14-18 | the mask yields the opcode field, as a remainder |
| `Decoder.GetFunct7` | src/decoder.c:50-54 | the shift and mask yield the funct7 field, as a quotient |
| `Decoder.GetImmI` | src/decoder.c:56-61 | the sign-extended I immediate of section 2.3 of the Unprivileged ISA |
| `Decoder.GetImmS` | src/decoder.c:63-70 | the two fields of an S immediate joined and sign-extended |
| `Decoder.GetImmU` | src/decoder.c:72-76 | the upper 20 bits of the word |
| `Decoder.GetImmJ` | src/decoder.c:78-87 | the four scattered fields of a J immediate joined and sign-extended |
| `Decoder.GetImmB` | src/decoder.c:89-97 | the four scattered fields of a B immediate joined and sign-extended |
| `Decoder.DecodeInstructionI` | src/decoder.c:139-306 | the whole record of I-format words, shifts, fences and SYSTEM included, valid or not |
| `Decoder.DecodePriv` | src/decoder.c:240-266 | of the PRIV words exactly ECALL, EBREAK and MRET are known |
| `Decoder.DecodeInstructionB` | src/decoder.c:308-334 | B-format words get the listed operation, or an unknown one marked valid |
| `Decoder.DecodeInstructionS` | src/decoder.c:336-362 | S-format words get the listed operation, or an unknown one marked valid |
| `Decoder.DecodeInstructionR` | src/decoder.c:364-429 | the whole record of R-format words, with the listed operation or marked invalid |
| `Decoder.RveDecodeInstruction` | src/decoder.c:431-471 | for every word, valid or not, each field of the record filled step by step is the specification's |
| `Encoding.EncodeThenDecode` | src/decoder.c:431-471 | for every operation and all in-range operands, the encoding is a known word and decoding it gives them back |
| `Encoding.DecodeThenEncode` | src/decoder.c:431-471 | every known non-fence word is the encoding of what was decoded from it, and its operands are in range |
| `Encoding.DecodingIsInjective` | src/decoder.c:431-471 | two such words with the same reading are the same word |
| `Words.WordBits` | src/hart.c:470-472 | the bitwise operators that the hart uses act on each of the 32 bits by itself |
| `Words.SextMeaning` | src/hart.c:26-29 | shifting left and arithmetically right again is two's complement sign extension |
| `Execute.SecondSextIsIdentity` | src/hart.c:26-29 | sign-extending again, as the hart does, changes no immediate that the decoder produces |
| `Execute.CDivIsQuot` | src/hart.c:507-524 | truncating C division and remainder are the quotient and remainder that round towards zero |
| `Execute.UpperAndImmediate` | src/hart.c:374-382 | LUI, AUIPC and the immediate operations compute their integer meaning |
| `Execute.RegisterRegister` | src/hart.c:479-488 | the base register operations compute their integer meaning through 64-bit intermediates and masked shift amounts |
| `Execute.Multiply` | src/hart.c:492-505 | the four products compute their integer meaning through 64-bit products |
| `Execute.Divide` | src/hart.c:507-528 | the four divisions compute their integer meaning through guarded C division |
| `RegisterLaws.Addition` | src/hart.c:479-479 | ADD writes the number that gives x[rs1] back when x[rs2] is subtracted, and changes nothing else but the pc |
| `RegisterLaws.Subtraction` | src/hart.c:480-480 | SUB writes the number that gives x[rs1] back when x[rs2] is added |
| `RegisterLaws.SubAfterAdd` | src/hart.c:479-480 | an ADD followed by a SUB of the same register from the sum restores the first operand |
| `RegisterLaws.LogicBits` | src/hart.c:484-488 | AND, OR and XOR, bit by bit |
| `RegisterLaws.ImmediateLogicBits` | src/hart.c:470-472 | ANDI, ORI and XORI, bit by bit |
| `RegisterLaws.LeftShift` | src/hart.c:481-481 | SLL moves every bit up by the low five bits of x[rs2] |
| `RegisterLaws.RightShift` | src/hart.c:485-486 | SRL and SRA move every bit down by the low five bits of x[rs2] and fill with 0 and with the sign bit |
| `RegisterLaws.UnsignedCompare` | src/hart.c:483-483 | SLTU writes 1 exactly when x[rs1] is the smaller word, else 0 |
| `RegisterLaws.SignedCompare` | src/hart.c:482-482 | SLT writes what SLTU writes for the operands with both sign bits flipped |
| `RegisterLaws.Trichotomy` | src/hart.c:482-483 | of SLT or SLTU with exchanged operands at most one writes 1, and none exactly on equal operands |
| `RegisterLaws.ImmediateForm` | src/hart.c:467-475 | each immediate operation writes what its register form writes on the sign-extended immediate or shift amount |
| `RegisterLaws.UpperStep` | src/hart.c:374-380 | LUI writes the upper 20 bits of its word, AUIPC those plus the pc |
| `RegisterLaws.MulDivStep` | src/hart.c:492-528 | multiplications and divisions write the result that the following laws are about, for x[rs1] and x[rs2] in this order |
| `MulDivLaws.ProductsAreExact` | src/hart.c:492-505 | MULH:MUL, MULHU:MUL and MULHSU:MUL are the exact signed, unsigned and mixed 64-bit products, for all operands |
| `MulDivLaws.DivRemReconstruct` | src/hart.c:507-528 | rs1 is DIV * rs2 + REM, and DIVU * rs2 + REMU, modulo 2^32 in every case, zero divisors and overflow included |
| `MulDivLaws.SignedDivision` | src/hart.c:507-524 | DIV and REM are the quotient and remainder, with a remainder smaller than the divisor and the dividend's sign, exactly when the divisor is not 0 and the division does not overflow |
| `MulDivLaws.UnsignedDivision` | src/hart.c:514-528 | DIVU and REMU are the quotient and remainder exactly when the divisor is not 0 |
| `MulDivLaws.DivisionIsUnique` | src/hart.c:507-524 | no other pair of numbers has that property |
| `BranchLaws.BranchBySub` | src/hart.c:402-408 | BEQ goes to pc + offset exactly when SUB of its operands writes 0, BNE exactly when it does not, and to pc + 4 otherwise |
| `BranchLaws.BranchBySlt` | src/hart.c:410-416 | BLT goes to pc + offset exactly when SLT of its operands writes 1, BGE exactly when it writes 0, and to pc + 4 otherwise |
| `BranchLaws.BranchBySltu` | src/hart.c:418-424 | the same for BLTU and BGEU with SLTU |
| `BranchLaws.BranchTaken` | src/hart.c:402-424 | the relation of the operands on which each of the six branches is taken |
| `BranchLaws.JalStep` | src/hart.c:384-390 | JAL goes to pc + offset and links to pc + 4, or traps with the unaligned target in mtval |
| `BranchLaws.JalrStep` | src/hart.c:392-398 | JALR goes to x[rs1] + offset, x[rs1] taken before the link is written, with the lowest bit cleared |
| `BranchLaws.CallAndReturn` | src/hart.c:384-398 | JALR x0, 0(rd) returns to the instruction after the JAL that linked rd |
| `BranchLaws.FenceStep` | src/hart.c:532-534 | fences change nothing but the pc |
| `AccessLaws.StoreStep` | src/hart.c:452-463 | SB, SH and SW to RAM change exactly 1, 2 or 4 bytes at x[rs1] + offset, to the low bytes of x[rs2], least significant first, as the record says, and fault exactly when those do not fit |
| `AccessLaws.LoadStep` | src/hart.c:429-448 | LB, LBU, LH, LHU and LW from RAM read exactly 1, 1, 2, 2 or 4 bytes and put their number, sign- or zero-extended, into rd and the record |
| `AccessLaws.StoreThenLoad` | src/hart.c:429-463 | a load right after a store of the same width and address gives the low bytes of the stored register, extended |
| `AccessLaws.RecordedRegister` | src/hart.c:597-605 | the record names rd and its new value exactly when the step retires, rd is not x0 and the word is not a branch or store |
| `AccessLaws.RecordHeader` | include/rve/hart.h:78-99 | every record names the pc, the fetched word and the next pc, and an access only at a load or store that retires |
| `Harts.StatusOnTrap` | src/hart.c:84-86 | the masks and shifts on mstatus at trap entry move MIE to MPIE, clear MIE and set MPP, and change nothing else |
| `Harts.StatusOnMret` | src/hart.c:555-563 | those at MRET move MPIE to MIE and set MPIE, and change nothing else |
| `Harts.Hart.constructor` | src/hart.c:300-305 | zero registers and CSRs, the reset pc |
| `Harts.Hart.CommitTrap` | src/hart.c:74-93 | the CSRs of trap entry, and the trap vector |
| `Harts.Hart.TakeTrap` | src/hart.c:97-100 | an asynchronous trap: the CSRs of trap entry and the pc at the vector, nothing else |
| `Harts.Hart.ExecBranchOn` | src/hart.c:214-224 | a branch goes to its target or the next instruction, and faults exactly when taken to an unaligned target |
| `Harts.Hart.ExecLoadOf` | src/hart.c:244-259 | a load extends what the bus reads, or faults with nothing changed but device state |
| `Harts.Hart.ExecStoreOf` | src/hart.c:278-292 | a store sends the masked register to the bus, or faults with nothing changed |
| `Harts.Hart.CsrAccess` | src/hart.c:124-139 | read-modify-write of one CSR: old value to rd, new value computed from the source read before rd is written |
| `Harts.Hart.CsrDispatch` | src/hart.c:154-190 | exactly the addressed CSR takes part; unimplemented addresses fault and read-only ones ignore writes |
| `Harts.Hart.Execute` | src/hart.c:372-573 | for every decoded word the execute switch has the effect the specification gives |
| `Harts.Hart.Step` | src/hart.c:318-612 | for every state, one step of the code-shaped hart gives the state and the retirement record of the integer specification |
| `Traps.PreciseTraps` | src/hart.c:585-611 | a step that traps changes no register, RAM byte or halt flag; all but ECALL save the pc, mask interrupts and go to an aligned vector; ECALL changes no CSR and advances the pc by 4 |
| `Traps.TrapThenMret` | src/hart.c:74-93 | interrupt entry followed by MRET restores pc, MIE and all of mstatus except MPIE = 1 and MPP = 3 |
| `Traps.StatusRoundTrip` | src/hart.c:555-563 | further trap and MRET pairs leave mstatus fixed |
| `Traps.MretStep` | src/hart.c:555-563 | the whole state after a step that executes MRET |
| `TrapEntry.StatusOfSteps` | src/hart.c:82-86 | bit by bit, what an exception and an MRET leave in mstatus |
| `TrapEntry.RaisedInterrupt` | src/soc.c:69-77 | mepc, mtval, mcause, every bit of mstatus and the pc after a raised interrupt, in direct and vectored mode; other causes change nothing |
| `TrapEntry.FetchFault` | src/hart.c:343-347 | an aligned fetch faults exactly where the bus refuses a word, with the pc in mtval |
| `Traps.CausesExactly` | src/hart.c:244-292 | told from the state before the step, it reports a load or store access fault exactly when the fetched load or store is aimed where no device answers, past the end of a RAM or, for loads, at TOHOST; and ECALL exactly at an ECALL |
| `Traps.McauseDeparture` | include/rve/hart.h:50-66 | exceptions have their own code in mcause exactly when the step is not a refused store, and go to the base of mtvec exactly when it is not one in vectored mode |
| `Traps.MtvalDeparture` | src/hart.c:250-257 | a refused load or store leaves its address in mtval exactly when that address is 0 |
| `Examples.RefusedStore` | src/hart.c:74-93 | sw to 0x100, where nothing answers, with mtvec 0x41: mcause 0x80000007, mtval 0, pc 0x5C |
| `IllegalWords.KnownIffImplemented` | src/decoder.c:99-429 | the decoder knows a word exactly when it is in the implemented set, listed independently of the decoder |
| `IllegalWords.IllegalExactly` | src/hart.c:356-359 | a fetched word traps with cause 2 and mtval the word exactly when it is unimplemented, EBREAK, or accesses a missing CSR |
| `IllegalWords.ExecIllegal` | src/hart.c:538-573 | among known operations only EBREAK and accesses to missing CSRs execute to an illegal-instruction fault |
| `Replay.StepReplays` | src/hart.c:585-611 | the retirement record of any step, applied to registers, pc and RAM, gives the registers, pc and RAM after it |
| `Replay.RunReplays` | include/rve/hart.h:68-99 | replaying the records of a run of any length gives its final registers, pc and RAM, with any devices on the bus |
| `EmulatorReplay.EmuStepReplays` | src/emulator.c:141-179 | the record that a live emulator step returns reproduces registers, pc and RAM exactly when the step is not a write call that changes a0 |
| `EmulatorReplay.EmuRunReplays` | src/emulator.c:141-179 | with the results of write calls added, replaying the returned records reproduces every emulator run, up to its halt |
| `Examples.UnrecordedResult` | src/emulator.c:156-165 | write(1, 0, 0) changes a0 from 1 to 0 without a record of it |
| `EmulatorReplay.ReturnedRecord` | src/emulator.c:141-179 | the returned record is the hart's, a write call without its trap; a halted emulator returns a dummy and changes nothing |
| `Interrupts.StepAlike` | src/hart.c:318-612 | states that agree on registers, pc and everything readable on the bus step to such states with equal records, until an MRET or an access to a live CSR other than mtvec |
| `Interrupts.InterruptIsTransparent` | src/soc.c:69-77 | an interrupt whose handler restores and returns is invisible to every later run, step for step, until an MRET or an access to a live CSR other than mtvec |
| `Interrupts.InterruptRestoresStatus` | src/hart.c:97-100 | such a handler that leaves the entry mstatus alone also gives MIE and the other mstatus bits back |
| `Interrupts.LoneMretRestores` | src/soc.c:69-77 | the handler that is a single MRET qualifies |
| `RunInvariant.StepBoundary` | src/hart.c:607-608 | after every step x0 is 0, and the pc is unaligned exactly after an MRET to an unaligned mepc |
| `RunInvariant.TickBoundary` | src/emulator.c:141-179 | the same for emulator steps, whatever the system call does |
| `RunInvariant.RunInvariant` | src/emulator.c:141-179 | the same at every boundary of any sequence of emulator steps, system calls and interrupts from an aligned start |
| `RunInvariant.UnalignedPcTraps` | src/hart.c:337-341 | from an unaligned pc a step is a misaligned-fetch trap to an aligned vector, so no two consecutive boundaries are unaligned |
| `Platform.LookupIsSelection` | src/bus.c:71-87 | the lookup returns slot k exactly when k covers the address with the smallest range, first on ties; none exactly when nothing covers it |
| `Platform.BytesRoundTrip` | src/memory.c:84-87 | assembling the n little-endian bytes of a number gives the number modulo 2^(8n) |
| `Platform.NumberRoundTrip` | src/memory.c:84-87 | splitting the number assembled from bytes gives the bytes back |
| `Devices.Memory.Read` | src/memory.c:74-88 | the little-endian bytes at the address, or failure when they are not all inside the region |
| `Devices.Memory.Write` | src/memory.c:90-102 | exactly the bytes at the address change, or nothing when they are not all inside the region |
| `Devices.Memory.LoadFile` | src/memory.c:55-63 | the image lands whole at its offset, or nothing changes |
| `Devices.UartDevice.constructor` | src/uart.c:122-135 | reset registers and the first input byte prefetched |
| `Devices.UartDevice.Read` | src/uart.c:37-81 | the register read, with the receive buffer refilled after delivery |
| `Devices.UartDevice.Write` | src/uart.c:83-112 | the register written or byte sent, by offset and divisor latch |
| `SystemBus.Bus.constructor` | src/bus.c:13-20 | an empty bus |
| `SystemBus.Bus.FindSlot` | src/bus.c:32-39 | the first inactive slot is number count, because active slots form a prefix |
| `SystemBus.Bus.AddPeripheral` | src/bus.c:41-63 | the next slot is filled, overlaps accepted, and only a full bus is refused |
| `SystemBus.Bus.GetPeripheral` | src/bus.c:71-87 | the loop over the slots finds the slot of the specification, or none |
| `SystemBus.Bus.Read` | src/bus.c:89-108 | the device of the first byte answers; nothing else on the bus changes |
| `SystemBus.Bus.Write` | src/bus.c:110-129 | the device of the first byte takes the data; a failed write changes nothing |
| `SystemBus.Bus.TohostWrite` | src/tohost.c:13-29 | halts with code 0 for 1 and with half the data otherwise |
| `RamHistory.ApplyByte` | src/memory.c:90-102 | a store or image load changes exactly the RAM bytes it covers, a load none |
| `RamHistory.RamIsAFlatMap` | src/bus.c:89-129 | after any sequence of bus reads, writes and image loads every RAM byte holds what was written to it last |
| `RamHistory.ReadsReturnLastWrites` | src/memory.c:74-88 | after any such sequence a read at any alignment returns the little-endian assembly of the bytes written last, and fails exactly past the region's end |
| `RamHistory.LoadAfterStore` | src/bus.c:89-129 | a load returns the data of a store to the same address and width |
| `BusOrder.OrderDoesNotMatter` | src/bus.c:71-87 | permuting the registrations does not change which registration answers when the covering ranges have distinct sizes |
| `BusOrder.TiesGoToTheFirst` | src/bus.c:80-83 | with equal ranges the first registration answers, so there the order matters |
| `UartHistory.UartConservation` | src/uart.c:37-135 | over any register accesses, with the latch told from the bytes stored to offset 3: delivered bytes are a prefix of the input and what is pending is the rest, each read with the latch off gives the next input byte, the output is what was stored to offset 0 with the latch off, and LSR shows whether input remains |
| `UartHistory.RegistersReadBack` | src/uart.c:44-109 | every other register read returns the byte stored there last, under the same latch for offsets 0 and 1, or its reset value |
| `UartHistory.RunConserves` | src/uart.c:37-112 | the same from any prefetched state, and that state is kept |
| `ResetMap.UartOnBus` | src/bus.c:89-129 | an access of any width at a UART's address is the access to that register, and changes no other device |
| `RamHistory.ImageRefused` | src/memory.c:55-63 | an image is refused exactly when nothing answers at its address or it does not fit |
| `Emulators.Soc.constructor` | src/soc.c:15-20 | a zeroed hart at the reset pc on an empty bus |
| `Emulators.Soc.AddMemory` | src/soc.c:30-50 | a zeroed RAM registered at its range, unless the bus is full |
| `Emulators.Soc.LoadBinary` | src/soc.c:52-62 | the image goes to the RAM selected at the load address, whole or not at all |
| `Emulators.Soc.RaiseInterrupt` | src/soc.c:69-77 | trap entry for interrupt causes; other causes are ignored |
| `Emulators.Emulator.constructor` | src/emulator.c:64-89 | the reset state: TOHOST inside the second RAM, low RAM, UART, all counters zero |
| `ResetMap.AddressMap` | src/emulator.c:64-89 | which device answers at each address after reset, and what it holds |
| `ResetMap.ResetValues` | src/emulator.c:64-89 | all registers, CSRs and counters are zero after reset, and the pc is the given one |
| `Emulators.Emulator.DefaultSyscallHandler` | src/emulator.c:28-62 | exit, write and unknown calls as the specification gives them, loop over the buffer included |
| `Emulators.Emulator.Step` | src/emulator.c:141-179 | for every state, one emulator step gives the specification's state and record; a halted emulator does nothing |
| `Emulators.Emulator.Run` | src/emulator.c:181-194 | the loop ends in the state, and with the exit code, that the specification of limited and unlimited runs gives |
| `EmulatorRuns.HaltedIsSticky` | src/emulator.c:141-147 | once halted, further steps change nothing |
| `EmulatorRuns.EachStepCounts` | src/emulator.c:149-150 | n steps before halting add n to the cycle count, modulo 2^64 |
| `EmulatorRuns.RunWithLimit` | src/emulator.c:181-194 | a limited run takes min(k, b) steps, k being the first halt and b = max(1, limit - count), or limit + 1 when the count wraps in the first step; it returns the program's exit code exactly when k < b, else 1 |
| `EmulatorRuns.RunToLimit` | src/emulator.c:181-194 | the same for a program that does not halt within the limit |
| `EmulatorRuns.RunWithoutLimit` | src/emulator.c:181-194 | an unlimited run of a program that halts ends in the first halted state |
| `EmulatorRuns.ExitCodeAtLimit` | src/emulator.c:185-190 | a program that halts on its last allowed step returns 1; its own exit code survives exactly when that step stores 2 or 3 to TOHOST or is an exiting ECALL with a0 = 1 |
| `Examples.LostExitCode` | src/emulator.c:185-190 | exit(0) as the only step of a run with limit 1 is reported as 1 |
| `EmulatorRuns.WhyAStepHalts` | src/emulator.c:156-165 | a step halts exactly when it stores to TOHOST or makes a call that is not handled, with the exit code either of them determines |
| `Syscalls.WriteCall` | src/emulator.c:43-55 | write to descriptor 1 or 2 emits exactly the longest readable prefix of the buffer, RAM bytes as RAM holds them, puts its length in a0, changes no other register, CSR or RAM byte, and resumes after the ECALL |
| `Syscalls.EmitsLongestPrefix` | src/emulator.c:47-52 | the loop's bytes are the longest prefix readable at consecutive addresses modulo 2^32, read in order, UART registers included |
| `Syscalls.PrefixIsUnique` | src/emulator.c:47-52 | there is only one longest readable prefix |
| `Syscalls.WriteRefused` | src/emulator.c:44-45 | any other descriptor yields -1 and no output |
| `CsrLaws.CsrStep` | src/hart.c:124-139 | a step on a live CSR puts its old value into rd; with rs1 field not 0 it leaves the operand (CSRRW), or sets or clears exactly the bits that are 1 in the operand (CSRRS, CSRRC), the operand being x[rs1] or, in the I forms, the field itself; no other CSR changes |
| `CsrLaws.CsrInstruction` | src/hart.c:124-190 | a CSR instruction reads one entry of an address-to-word map into one register and rewrites at most that entry, or faults |
| `CsrLaws.CsrFileIsAMap` | src/hart.c:538-543 | over any sequence of CSR instructions the six live CSRs are such a map |
| `CsrLaws.SwapTwice` | src/hart.c:124-139 | a CSRRW swap of a register with a live CSR, done twice, is the identity |
| `CsrLaws.ZeroSourceDeparture` | src/hart.c:137-138 | on when a live CSR is written, the code agrees with section 9.1 of the Unprivileged ISA exactly unless CSRRW or CSRRWI has an rs1 field of 0 and the CSR is not 0 |
| `CsrLaws.ReadOnlyDeparture` | src/hart.c:160-162 | on which CSR instructions trap, the code agrees with the standard exactly unless one writes to 0xF11 to 0xF14 |
| `CsrLaws.MepcDeparture` | src/hart.c:124-139 | from an aligned mepc, a CSR instruction on mepc leaves it aligned exactly unless it writes an unaligned operand by anything but CSRRC or CSRRCI |
| `Examples.UnclearedCsr` | src/hart.c:137-138 | csrrw x0, mscratch, x0 leaves mscratch, which the standard clears |
| `Examples.IgnoredWrite` | src/hart.c:160-162 | csrrw x1, mvendorid, x1 retires, where the standard traps |
| `Examples.UnalignedMepc` | src/hart.c:124-139 | csrrw x0, mepc, x1 with x1 = 2 leaves 2 in mepc |
| `Disassembly.NumberInverse` | src/decoder.c:598-606 | decimal and hexadecimal digits determine the number |
| `Disassembly.AbiInverse` | src/decoder.c:563-577 | ABI names determine the register |
| `Disassembly.MnemonicInverse` | src/decoder.c:594-716 | padded mnemonics determine the operation |
| `Disassembly.DisassemblyIsInjective` | src/decoder.c:579-724 | two words printed by mnemonic with the same text are the same word |
| `Disassembly.TextSpellsOperands` | src/decoder.c:594-716 | the printed text is the mnemonic and the word's own registers and immediate, in assembly order |
| `Disassembly.InvalidText` | src/decoder.c:589-592 | an invalid word is printed as the eight hexadecimal digits that spell it |
| `Disassembly.NumberedByEnumeration` | include/rve/decoder.h:33-117 | the number printed for a multiplication or division is its place in the enumeration |
| `Disassembly.UnprintedCollide` | src/decoder.c:689-724 | two words of the same other known operation always print the same text |
| `Disassembly.FormatToBuffer` | src/decoder.c:579-724 | the buffer gets as much of the text as fits and a NUL; the result is the length of the whole text, or -1 for an empty buffer |

## Left out

- Reading files, command lines, `emulator_load_binary`, `src/main.c`, `src/main2.c`, `hart_print`, the name tables and all diagnostics on stderr: host input and output.
- `malloc` and `calloc` failures, `memory_deinit`, `memory_flush`, `memory_load_instruction` and the debug helpers of peripherals.
- Function-pointer tables: devices are a closed choice of RAM, UART and TOHOST, each with the read and write it has; a TOHOST device always points at the emulator's own two halt fields.
- User-supplied system-call handlers and trace callbacks: only the default handler, without a trace.
- `Emulators.Soc.LoadBinary`: requires that a load address which some device answers is answered by RAM, because the code casts whatever context it finds to a RAM.
- `SystemBus.Bus.TohostWrite`: does not model the verdict that the device prints on stdout (src/tohost.c:19-23); only the exit code and the halt flag.
- `CsrLaws.ZeroSourceDeparture`: looks at when a CSR is written, not at fields that the standard restricts; except for the alignment of mepc the model does not say where storing every bit departs from them.
- Transfer sizes other than 8, 16 and 32 bits, which the hart never uses.
- The order in which UART output and output of the write system call interleave on a shared stdout: the two are separate sequences.
- UART input is a finite sequence that is given from the start; a stream that reports end of file and later delivers more is not modelled.
- `Emulators.Emulator.Run`: an unlimited run requires, as a ghost parameter, a number of steps that halts the program, which is when the C loop terminates; of a program that never halts the model says only, by `EmulatorRuns.EachStepCounts`, what each number of steps leads to.
- `Harts.Hart.Step`: the retirement record's copy of the decoded instruction is a second result, and each flag of the record with the fields it guards is one option value.
- `Harts.Hart.Execute`: the switch is split into one method per class of operations, each with the cases of that class.
- `Disassembly.FormatToBuffer`: null pointers are not modelled; a buffer of length 0 is.
- `include/rve/cosim.h`: declarations only; `Replay.RunReplays` states what it needs of the retirement records.

# CSPIM: the interpreter, its encrypted memory and its loader

CSPIM interprets little-endian MIPS I programs. Its memory can be kept encrypted for good, word by word,
with RC5 on 32-bit blocks; programs are encrypted beforehand by a separate tool and loaded verbatim. This
project models the interpreter, the memory hooks, the cipher, the loader and the encryption tool, and
proves that they fit together: for every key, an encrypted program behaves as the plain one does.

`dafny verify dfyconfig.toml` checks everything.

## How it is arranged

Machine words are bounded integers. C's wrap-around, truncation, signed reading and shifts are written out,
and `&`, `|` and `^` are defined on binary digits.

| file | part |
|---|---|
| Bits | words, conversions, shifts, bitwise operators, bytes and digits of a word |
| Opcodes | opcode numbers, instruction fields, the decoder and its bitmap |
| Memory | word hooks (a *codec*), checked accesses, the flat byte-addressed view |
| Machine | every handler, the step, runs, trap reports, as functions on values |
| Cpu | the CPU object: the same handlers updating registers and memory in place, each proved equal to its function |
| StepProperties | precise exceptions, register 0, control block, delay slot |
| TwoPc | the architectural machine with PC and next PC, and the refinement |
| Isa, IsaMemory, IsaControl | the whole instruction set in numbers: what a step does on each instruction word, given by its fields |
| Arithmetic, AluLaws, MemoryInstructions, Unaligned | what the instructions mean over integers, bits and bytes |
| BulkCopy | block transfers between host and guest |
| Simulation, Footprint | lock step of two memories: equal in every guest word, or in the bytes a run reads |
| Session | the execution loop: traps, host services, resumption; lock step through whole sessions |
| Rc5, KeySchedule, Rc5Engine | the cipher, the key expansion, the loops over buffers |
| Rc5Laws | cipher and key expansion as recurrences over half-words, in numbers and bits |
| Elf, ElfLoader, ElfCrypt | segments, symbols, start state, encryption of files |
| Host | preparing a CPU and driving a session |
| EndToEnd, Sample | the whole chain, and a file that meets what it asks for |

A handler's outcome carries the state it leaves together with its exception, so that "a failing
instruction changes nothing" is a theorem and not part of the model. Memory is an array of raw words. It
includes the words below 0x1000, where the CPU object itself is kept, so that isolation is a theorem too.
`UNDEFINED` marks the one instruction whose C code has no defined behaviour, DIV of the least integer by -1;
nothing is claimed of what follows it. In the same way the loader, the symbol searches and the encryption
program have an outcome of their own for leaving their buffers or dividing by zero, so that none of them
asks anything of the file it is given.

A host service is a state machine: it sees its own state and the registers, and answers with a checked access to
one byte of guest memory or with its result. Files, pending input and the program break are part of its state.

Names used in the table: a codec is *sound* when decoding undoes encoding; two machines are *related* when
their registers are equal and every word in [0x1000, memsz) reads the same through its own hooks.

## Model

| member | source | states |
|---|---|---|
| EndToEnd.EncryptedRunFromAnyMemory | hostapps/elfcrypt.c:72-113 | for every key and step count: the encrypted run ends with the same exception and the same registers as the plain one, whatever the two memories held before, provided the plain run is determined by its file |
| EndToEnd.FileDeterminedIff | hostapps/elfcrypt.c:72-113 | that proviso is exact: the two runs agree over all pairs of memories if and only if the plain run is determined by its file |
| EndToEnd.EncryptedRunIsPlainRun | hostapps/util.c:93-163 | for every key, every suitable file and every step count: encrypting the file, loading it under the RC5 hooks and running it gives the exceptions, registers and guest words of loading and running the plain file, from related memories; and every session does too, with any services that keep host state and access guest memory |
| EndToEnd.CleanEncryptedRun | hostapps/util.c:93-163 | the same with nothing assumed of what the two memories held before, for a plain run that reads only bytes loaded from the file or stored earlier in the run: same exception, same registers, same known bytes |
| EndToEnd.CleanEncryptedSession | hostapps/util.c:93-163 | the same for whole sessions, with any services, when program, services and trap reports read only such bytes: same ending, host state, registers and known bytes |
| EndToEnd.CleanIsFileDetermined | vm/elfload.c:72-118 | such a run does not depend on what memory held before loading |
| EndToEnd.StartsSame | vm/elfload.c:72-118 | the loader starts, refuses or runs into undefined behaviour on the encrypted file exactly as on the plain one, and the two start states are related, including break, $gp and $sp |
| EndToEnd.LoadsSameWords | vm/elfload.c:217-278 | loading encrypted segments verbatim and zeroing their tails through the hook ends as the plain load does and shows the guest its words |
| EndToEnd.CryptFileResult | hostapps/elfcrypt.c:72-113 | an encrypted file has every word of every segment encrypted exactly once; its symbol and string tables and everything its headers were read from are untouched |
| EndToEnd.LoadedProgramIsSafe | vm/cpuemu.c:91-164 | from any image the loader starts on a reset CPU, under any hooks, no run ends in the internal-error exception, writes $0, holds a stray delay slot or changes a word below 0x1000 |
| EndToEnd.EncryptedCounterpart | hostapps/util.c:152-163 | every plain machine has a related encrypted one, so the relation asked for above can always be met |
| Simulation.LockStep | vm/cpuemu.c:495-571 | for any two sound codecs, related machines end runs of every length with the same exception and stay related |
| Simulation.StepSame | vm/cpuemu.c:126-164 | one step of lock step, over every opcode and every exception |
| Simulation.ControlBlockUnread | vm/cpuemu.c:611-616 | changing the words below 0x1000 at will changes nothing a run does to registers, exceptions or guest words |
| Sample.SampleRuns | vm/elfload.c:72-118 | there is a file that passes the header tests of both programs, is suitable, is encrypted under every key, starts, and runs cleanly to the BREAK it holds, whatever memory held before |
| Sample.SampleHeader | vm/elfload.c:190-215 | its first 52 bytes are an ELF header that passes these tests |
| Sample.SampleParsed | vm/elfload.c:364-384 | the headers it is parsed to are the ones its bytes hold |
| Footprint.CleanRunsSame | vm/cpuemu.c:126-164 | a run that reads only bytes known at its start or written by it ends the same way, with the same registers and known bytes, on any memory that agrees on the bytes known at the start, through any two sound codecs |
| Footprint.CleanSessionsSame | hostapps/util.c:114-150 | the same for sessions through traps, services and resumptions |
| Footprint.StepSame | vm/cpuemu.c:372-430 | one such step: a load depends on exactly the bytes it names and a store makes exactly the bytes it names known, for unaligned loads and stores too, although every access goes through whole words |
| Footprint.NamedIff | vm/cpuemu.c:372-430 | the bytes a load or store names, in numbers |
| Session.SessionsSame | hostapps/util.c:114-150 | lock step through traps, services with host state and checked accesses to guest memory, and resumptions |
| Session.ServingTick | vm/hosted/syscalls.c:149-235 | what a service leaves: a read is answered with the byte or the fault, a write changes that byte only, and a result puts its registers and host state in place and moves PC over the trap, or ends the session with its code |
| Session.ServedCall | hostapps/util.c:131-137 | a system call from start to end: the program goes on at PC + 4 with the registers the service has left |
| Session.SessionRuns | hostapps/util.c:122-124 | as long as a run goes well the session is that run and nothing else changes |
| Session.ReportExact | vm/cpuemu.c:172-186 | for every failing step: the report names the trap that was raised, with its code, and no trap for any other exception, if and only if no slot is pending or the words at PC and in the slot hold the same trap |
| Session.OpcodeExact | vm/cpuemu.c:172-186 | the promise of vm/cpu.h: the report names the opcode of the instruction that was fetched if and only if no slot is pending or the word at PC can be read and has the same opcode; opcode and code are both right iff, besides, the two hold the same trap |
| Session.ResumeExact | vm/cpuemu.c:188-200 | after a trap, resuming moves on by one instruction and changes nothing else, as the machine with two PCs counts instructions, if and only if no slot is pending or the slot is the word at PC |
| Session.RestartExact | vm/cpuemu.c:188-200 | after any other exception resuming changes nothing, so that the instruction is tried again, if and only if no slot is pending or the word at PC is no trap |
| Session.TrapAndResume | vm/cpuemu.c:172-200 | so outside a delay slot SYSCALL and BREAK are reported with their 20-bit and 10-bit code from an unchanged state, resuming only advances PC by 4, and any other exception is reported as no trap and not resumed |
| Session.SlotFaultReportedAsSyscall | vm/cpuemu.c:172-200 | a reachable state with an invalid instruction in a delay slot that is reported as a system call and resumed, because only PC is looked at |
| Session.SlotFaultReportedAsAdd | vm/cpuemu.c:172-186 | a state one branch from a start state where an invalid word in the slot is reported with the opcode ADD |
| Session.SlotTrapRepeats | vm/cpuemu.c:188-200 | a state one branch from a start state where a system call in the slot, resumed, is raised a second time |
| Session.VerdictExact | hostapps/util.c:114-150 | after a failing step the execution loop serves the system call, or ends by the trap and code or by the exception that was raised, if and only if the word at PC can be read and no slot is pending or it holds the slot's trap |
| Session.UnreadablePcUsesOldOpcode | hostapps/util.c:119-149 | with an unreadable PC the loop decides by the opcode of an earlier iteration: the end is a bad system call with code -1 after a served one, and an unset variable is read if there was none |
| Session.StaleOpcodeReached | hostapps/util.c:119-149 | a program that ends so: its last word of memory is a system call |
| Session.UnsetOpcodeReached | hostapps/util.c:119-149 | a program that ends by the unset variable: a NOP in the last word of memory |
| Session.CarriedOpcode | hostapps/util.c:119-149 | the opcode carried between iterations is unset or SYSCALL |
| StepProperties.ExceptionAtomicity | vm/cpu.h:221-228 | a step that ends in any exception leaves registers, HI, LO, PC, delay slot and all memory as they were, and taking it again gives the same exception |
| StepProperties.OnlyDivIsUndefined | vm/cpuemu.c:460-478 | the undefined case is reached exactly by DIV with operands -2^31 and -1 |
| StepProperties.AbortIffCorruptZero | vm/cpuemu.c:142-148 | the internal-error exception occurs exactly when a valid instruction is fetched while register 0 is not zero; so every decodable opcode is dispatched and handled |
| StepProperties.NoAbort | vm/cpuemu.c:126-164 | no run from a state with register 0 clear ends in the internal-error exception, and register 0 stays clear |
| StepProperties.RunComposes | hostapps/util.c:122-124 | a run cut anywhere goes on exactly when its first part ended in OK, from the state that part left |
| StepProperties.ControlBlockIsolated | vm/cpuemu.c:545-616 | no run changes a word below 0x1000 |
| StepProperties.SlotInvariant | vm/cpuemu.c:120-164 | in every reachable state a pending delay slot is the word after a jump or branch inside guest memory |
| StepProperties.SlotIsNextWord | vm/cpuemu.c:120-125 | why 0 can mark that no slot is pending: an armed slot is PC + 4 without wrap-around, and a transfer not taken moves on to PC + 4 |
| StepProperties.DispatchPrecise | vm/cpuemu.c:203-258 | every decodable opcode is handled, no handler writes register 0, and a handler that throws leaves the machine as it was |
| StepProperties.SlotRunsOnce | vm/cpuemu.c:154-162 | a step from a pending slot clears it and keeps PC; a control transfer there is an invalid instruction |
| TwoPc.StepRefines | vm/cpuemu.c:126-164 | a successful step is one step of the machine with PC and next PC, in which J and JAL follow the 256 MB region rule, the delayed target becomes the next PC and links are the fetch address plus 8, if and only if the instruction is not a J or JAL or bit 27 of its slot's address is clear or set by it |
| TwoPc.RunRefines | vm/cpuemu.c:261-353 | successful runs of every length whose jumps all meet that condition are runs of that machine |
| TwoPc.SmallRunRefines | vm/cpuemu.c:261-353 | in a memory below 128 MB every successful run is |
| TwoPc.JumpLeavesRegion | vm/cpuemu.c:270-274 | above 128 MB one need not be: J 0 at 0x8001000 goes to 0x8000000 and not to 0 |
| TwoPc.JumpRefines | vm/cpuemu.c:261-295 | an accepted jump arms the slot behind it and links; it goes to the architecture's destination if and only if the region condition holds |
| TwoPc.BranchRefines | vm/cpuemu.c:298-353 | an accepted branch goes to its target exactly when the architectural condition holds, else nowhere, and links regardless |
| TwoPc.LinkBeforeRead | vm/cpuemu.c:276-335 | reading the operands after the link is written gives the same destination as reading them before if and only if nothing is linked, or another register is, or the return address equals a JALR's target or has the sign a branch and link tests |
| TwoPc.LinkedRegisterTested | vm/cpuemu.c:323-335 | a BGEZAL on a negative $31 that branches |
| TwoPc.RegionRule | vm/cpuemu.c:270-274 | J and JAL follow the 256 MB region rule if and only if bit 27 of the slot address is clear or set by the instruction |
| Isa.AluStep | vm/cpuemu.c:444-453 | ADD, ADDU, SUB, SUBU, SLT and SLTU as instruction words: the step's whole result in numbers, trap or wrapped value |
| Isa.LogicStep | vm/cpuemu.c:448-451 | AND, OR, XOR and NOR as instruction words, digit by digit |
| Isa.ShiftStep | vm/cpuemu.c:438-440 | SLL, SRL and SRA as instruction words: product with or quotient by a power of two |
| Isa.VariableShiftStep | vm/cpuemu.c:441-443 | SLLV, SRLV and SRAV, by the low five bits of a register |
| Isa.ReservedField | vm/cpuemu.c:432-458 | a register instruction with its unused field set is invalid and changes nothing |
| Isa.MultiplyStep | vm/cpuemu.c:460-478 | MULT and MULTU as instruction words: the halves of the exact product |
| Isa.DivideStep | vm/cpuemu.c:460-478 | DIVU as an instruction word: quotient and remainder, all ones for a zero divisor |
| Isa.SignedDivideStep | vm/cpuemu.c:460-478 | DIV as an instruction word: truncated quotient and remainder, all ones for a zero divisor, undefined for -2^31 by -1 only |
| Isa.MoveFromStep | vm/cpuemu.c:460-478 | MFHI and MFLO as instruction words |
| Isa.MoveToStep | vm/cpuemu.c:460-478 | MTHI and MTLO as instruction words |
| Isa.ReservedHiLo | vm/cpuemu.c:460-478 | these instructions with an unused field set are invalid |
| Isa.SignedImmediate | vm/cpuemu.c:76-78 | the low half of an instruction word is the two's complement of its immediate |
| Isa.ImmediateStep | vm/cpuemu.c:359-362 | ADDI, ADDIU, SLTI and SLTIU as instruction words with any immediate from -2^15 to 2^15 - 1 |
| Isa.LogicImmediateStep | vm/cpuemu.c:363-365 | ANDI, ORI and XORI as instruction words, digit by digit, with the low half zero-extended |
| IsaMemory.LuiStep | vm/cpuemu.c:386-389 | LUI as an instruction word |
| IsaMemory.LoadStep | vm/cpuemu.c:376-381 | LB, LH, LW, LBU and LHU as instruction words: the number of the bytes at register plus signed offset, or the fault |
| IsaMemory.StoreStep | vm/cpuemu.c:382-384 | SB, SH and SW as instruction words: exactly these bytes change, to the digits of the register, or the fault |
| IsaMemory.UnalignedLoadStep | vm/cpuemu.c:395-409 | LWL and LWR as instruction words, byte by byte |
| IsaMemory.UnalignedStoreStep | vm/cpuemu.c:411-425 | SWL and SWR as instruction words, byte by byte |
| IsaControl.EqualBranchStep | vm/cpuemu.c:298-353 | BEQ and BNE as instruction words: PC + 4 + 4 * offset and the slot, or the next word; invalid in a slot |
| IsaControl.ZeroBranchStep | vm/cpuemu.c:298-353 | the same for BLEZ and BGTZ, which are invalid with an RT field |
| IsaControl.SignBranchStep | vm/cpuemu.c:298-353 | the same for BLTZ, BGEZ, BLTZAL and BGEZAL; every other word with opcode 1 is invalid |
| IsaControl.JumpStep | vm/cpuemu.c:261-295 | J and JAL as instruction words, with the target in numbers |
| IsaControl.JumpRegisterStep | vm/cpuemu.c:261-295 | JR as an instruction word |
| IsaControl.JumpLinkRegisterStep | vm/cpuemu.c:261-295 | JALR as an instruction word, reading its register after the link is written |
| IsaControl.ReservedJump | vm/cpuemu.c:261-295 | JR and JALR with an unused field set are invalid |
| IsaControl.TrapStep | vm/cpuemu.c:172-186 | SYSCALL and BREAK as instruction words: the exception from an unchanged state and, with no slot pending, the report with the code field |
| IsaControl.InvalidOpcodeStep | vm/cpuemu.c:134-141 | every word whose opcode is not in MIPS I is invalid |
| IsaControl.InvalidFunctionStep | vm/cpuemu.c:134-141 | the same for function numbers |
| Arithmetic.AddTraps | vm/cpuemu.c:444-445 | ADD traps iff its destination is not $0 and the exact sum does not fit; otherwise it is ADDU and the result reads as the exact sum |
| Arithmetic.AddImmediateTraps | vm/cpuemu.c:359-360 | the same for ADDI and ADDIU |
| Arithmetic.SubTraps | vm/cpuemu.c:446-447 | the same for SUB and SUBU |
| Arithmetic.ProductExact | vm/cpuemu.c:641-656 | MULT and MULTU leave the exact signed and unsigned 64-bit product in HI:LO |
| Arithmetic.DivideLaw | vm/cpuemu.c:460-478 | DIV and DIVU leave quotient and remainder with lo * rt + hi = rs, the remainder smaller than the divisor and of the dividend's sign; all ones for a zero divisor |
| Arithmetic.TruncatedUnique | vm/cpuemu.c:463-463 | those conditions determine quotient and remainder |
| AluLaws.LogicBits | vm/cpuemu.c:448-451 | AND, OR, XOR, NOR bit by bit |
| AluLaws.LogicImmediateBits | vm/cpuemu.c:363-365 | ANDI, ORI, XORI bit by bit, with a zero-extended immediate |
| AluLaws.ShiftBits | vm/cpuemu.c:438-442 | logical shifts move every bit by the field or by five bits of a register and fill with zeros |
| AluLaws.ShiftArithmetic | vm/cpuemu.c:440-443 | SRA and SRAV divide the signed operand by a power of two, rounding down |
| AluLaws.Comparisons | vm/cpuemu.c:452-453 | of a pair of operands and the swapped pair SLT and SLTU find exactly one less unless the operands are equal; they agree iff the sign bits do or the operands are equal; SLT is the sign bit that SUBU leaves iff the difference does not overflow |
| AluLaws.CarryChain | vm/cpuemu.c:445-453 | ADDU then SLTU of the sum and an operand is the carry, so that two more ADDU add 64-bit numbers |
| AluLaws.ImmediateComparisons | vm/cpuemu.c:360-362 | SLTI and SLTIU are SLT and SLTU against a register that ADDIU loaded with the same immediate |
| AluLaws.AluWritesDestination | vm/cpuemu.c:356-458 | a successful ALU instruction changes its destination at most, and never $0 |
| AluLaws.LoadConstant | vm/cpuemu.c:386-389 | LUI followed by ORI loads any 32-bit constant |
| AluLaws.HiLoRoundTrip | vm/cpuemu.c:463-472 | what MTHI and MTLO store, MFHI and MFLO read back, without disturbing the other half |
| MemoryInstructions.LoadsReadBytes | vm/cpuemu.c:376-381 | LB, LBU, LH, LHU, LW deliver the little-endian number of their bytes, signed where they should be; they fault exactly on inaccessible addresses, and never into $0 |
| MemoryInstructions.StoresWriteBytes | vm/cpuemu.c:382-384 | SB, SH, SW write exactly the low bytes of their register, or fault and change nothing |
| Memory.PeekUbReadsByte | vm/cpuemu.c:519-527 | byte reads agree with the flat byte memory, and fault exactly outside it |
| Memory.PeekUhReadsBytes | vm/cpuemu.c:529-537 | half-word reads agree with the flat byte memory |
| Memory.PeekUwReadsBytes | vm/cpuemu.c:539-543 | word reads agree with the flat byte memory |
| Memory.SignedPeeks | vm/cpuemu.c:499-517 | the signed reads are the two's complement readings of the unsigned ones |
| Memory.PokeUbWritesByte | vm/cpuemu.c:545-554 | under any sound codec a byte write changes that byte of the flat memory and no other |
| Memory.PokeUhWritesBytes | vm/cpuemu.c:556-565 | the same for half-words |
| Memory.PokeUwWritesBytes | vm/cpuemu.c:567-571 | the same for words |
| Unaligned.UnalignedLoad | vm/cpuemu.c:395-409 | LWR at a and LWL at a + 3, in either order, load the word of bytes a..a+3 at every alignment, unless the second one's base was overwritten |
| Unaligned.UnalignedStore | vm/cpuemu.c:411-425 | SWR at a and SWL at a + 3, in either order, write exactly those four bytes, and the word reads back |
| Unaligned.LoadPair | vm/cpuemu.c:395-409 | the byte-level core of the load pair |
| Unaligned.StorePair | vm/cpuemu.c:411-425 | the byte-level core of the store pair |
| BulkCopy.CopyOutResults | vm/cpuemu.c:573-587 | a copy to the guest writes exactly its block, or is refused; it escapes with an address exception if and only if the wrapping bound check passes and the block starts below 0x1000 or wraps, and then it has written exactly the part up to the end of memory, or nothing if it starts outside |
| BulkCopy.CopyInResults | vm/cpuemu.c:589-603 | a copy from the guest returns exactly its bytes, with the same three cases; an escaping one has read exactly the bytes up to the end of memory |
| BulkCopy.PromiseIff | vm/cpu.h:277-292 | blocks inside guest memory are copied and all others refused, as promised, exactly where the wrapping bound check agrees with the block being inside, in both directions of transfer |
| BulkCopy.CopyRoundTrip | vm/cpu.h:277-292 | what is copied out is copied back in, under any sound codec |
| BulkCopy.WrapEscapes | vm/cpu.h:277-292 | the promise that a failed copy changes nothing fails for a length that wraps |
| BulkCopy.LastByteRefused | vm/cpuemu.c:577-578 | a block ending at the very end of memory is refused although it would fit |
| Opcodes.Decoder.MipsInit | vm/opcodes.c:105-113 | the initialised bitmap holds exactly the MIPS I opcode numbers |
| Opcodes.Decoder.MipsDecode | vm/opcodes.c:119-137 | table look-up computes the decoding function, for every word |
| Opcodes.Decode | vm/opcodes.c:119-137 | decoding yields a listed opcode or -1, never SPECIAL or REGIMM |
| Opcodes.ListIsOpcodes | vm/opcodes.c:39-100 | the table of opcodes is the set of MIPS I numbers, given by ranges |
| Opcodes.DecodeMain | vm/opcodes.h:38-118 | every valid number of the opcode field decodes to itself |
| Opcodes.DecodeSpecial | vm/opcodes.h:38-118 | every valid function number decodes to itself plus 0x40 |
| Opcodes.DecodeRegimm | vm/opcodes.h:38-118 | every valid RT number of REGIMM decodes to itself plus 0x80 |
| Rc5.CipherInverse | hostapps/rc5-16.c:110-154 | for every key table, decryption undoes encryption and encryption undoes decryption, through all rounds |
| Rc5.WordsPermuted | hostapps/util.c:152-163 | so both are permutations of the 2^32 words |
| Rc5.Rc5CodecSound | hostapps/util.c:152-163 | the RC5 hooks are a sound codec |
| Rc5.RolRor | hostapps/rc5-16.c:60-72 | rotations by any data-dependent amount undo each other |
| Rc5Laws.BlockRecurrence | hostapps/rc5-16.c:110-130 | what encryption computes: from the little-endian halves of the source bytes a trail of 26 half-words, in which each one less its subkey is the exclusive or of the two before it, rotated left by the later, stated bit by bit; the last two are the bytes written |
| Rc5Laws.WordRecurrence | hostapps/util.c:152-163 | the same for a word in memory, and decryption leads back |
| Rc5Laws.TrailUnique | hostapps/rc5-16.c:110-130 | there is one such trail only, so it determines the cipher |
| Rc5Laws.RolRotates | hostapps/rc5-16.c:60-65 | bit k of a rotated half-word is bit k less the amount, modulo 16 |
| Rc5Laws.MagicConstants | hostapps/rc5-16.c:51-54 | P and Q are the odd integers below (e - 2) * 2^16 and (phi - 1) * 2^16, and S is filled from P by adding Q |
| Rc5Laws.ExpansionRecurrence | hostapps/rc5-16.c:74-108 | what the key expansion computes: 78 pairs of half-words, each the rotated sum of what its slot held 26 or 8 steps before, or was filled with, and of the two stored last; the key table is the last 26 |
| Rc5Laws.FirstMix | hostapps/rc5-16.c:98-104 | the first mixing step stores 0xBF0D for every key |
| Rc5Engine.BufferRoundTrip | hostapps/rc5-16.h:53-57 | with source and destination the same, a block encrypted and decrypted restores the buffer |
| Rc5Engine.EcbEncrypt | hostapps/rc5-16.c:110-130 | the loop replaces one block of the destination by the encrypted source block, even in place |
| Rc5Engine.EcbDecrypt | hostapps/rc5-16.c:132-154 | the same for decryption |
| Rc5Engine.TransformIn | hostapps/util.c:152-157 | decrypting a word through its own bytes is the word function of the hook |
| Rc5Engine.TransformOut | hostapps/util.c:159-163 | the same for encryption |
| KeySchedule.KeysStayDistinct | hostapps/rc5-16.c:74-108 | distinct 128-bit keys end the expansion in distinct S and L together |
| KeySchedule.MixInjective | hostapps/rc5-16.c:90-105 | the mixing loop is injective on S and L, for any number of steps |
| KeySchedule.MixTrail | hostapps/rc5-16.c:90-105 | indices are the step number modulo 26 and 8, and the previous A and B are still stored in the preceding slots |
| KeySchedule.MixTouches | hostapps/rc5-16.c:98-104 | a step writes one slot of S and one of L |
| KeySchedule.EachSlotThrice | hostapps/rc5-16.c:90-105 | the loop writes each slot of S in exactly three steps, each of which finds what the previous one stored, and the last of which stores what remains |
| KeySchedule.Setup | hostapps/rc5-16.c:74-108 | the loops compute the expansion |
| Elf.SegmentImage | vm/elfload.c:217-278 | after a load each raw word is what the last segment covering it puts there, and uncovered words are unchanged |
| Elf.SegmentBytes | vm/elfload.c:265-275 | after a successful load byte i of a segment's data is raw byte vaddr + i of memory, and the bytes behind the data read as zero through the hooks, for the last PT_LOAD header over the byte |
| Elf.LoadsIff | vm/elfload.c:217-278 | loading succeeds if and only if every header is PT_NULL, or PT_LOAD and passes the tests and is well placed |
| Elf.LoadsInNumbers | vm/elfload.c:217-263 | the same in numbers |
| Elf.LoadStaysInside | vm/elfload.c:248-263 | loading, successful or refused, writes neither below 0x1000 nor in the stack area |
| Elf.TailReadsZero | vm/elfload.c:273-275 | the tail of a segment reads as zero through the hooks |
| Elf.PlacedIff | vm/elfload.c:256-263 | a header that passes the tests is copied inside file and memory at aligned addresses if and only if its sums do not wrap and its address is a multiple of 4, or it is empty |
| Elf.WrappingHeaderPasses | vm/elfload.c:256-263 | a header outside memory that passes them |
| Elf.EntryPresent | vm/elfload.c:353-362 | in a symbol table inside the file with entries of full size, entry i is the record at its place |
| Elf.StringFoundIff | vm/elfload.c:332-351 | a string is found exactly when its bytes and a zero stand at its place inside section and file; the search leaves the file exactly when the section does and no zero comes first |
| Elf.FindSymbolFirst | vm/elfload.c:120-146 | symbol search returns the first global symbol of that name if every entry before it is readable, with a readable name if global; it leads out of the file iff the first entry that stops it does; otherwise it returns nothing |
| Elf.StartsIff | vm/elfload.c:72-118 | a program starts if and only if header, segments and tables are accepted, the entry point lies in the program area, and _gp and _end are found as absolute symbols there |
| Elf.StartsClean | vm/elfload.c:72-118 | the start state: PC, $28, $29, $31 and break, everything else as it was |
| ElfLoader.FindAddress | vm/elfload.c:148-181 | for every table: address search returns the nearest global symbol of kind 0, 1 or 2 at or below the address, the first of those; nothing iff there is none or an unreadable entry comes before an exact match; undefined iff an entry that reaches past the file does, or the entry size is 0 |
| ElfLoader.FindSymbol | vm/elfload.c:120-146 | the search loop computes the specified result, for every table |
| ElfLoader.FindString | vm/elfload.c:332-351 | a string is found exactly when it ends inside its section and file; the scan leaves the file exactly when the section does and no zero comes first |
| ElfLoader.Sequal | vm/elfload.c:386-394 | equal exactly when the zero-terminated strings are |
| ElfLoader.LoadSegment | vm/elfload.c:248-278 | the two loops write exactly the segment's overlay, or nothing when a test fails; undefined exactly for a header that passes the tests and is not well placed |
| ElfLoader.LoadAll | vm/elfload.c:217-241 | the loop over headers, with the memory each defined way of ending leaves |
| ElfLoader.Load | vm/elfload.c:72-118 | the start state, or unchanged registers, for every file |
| ElfCrypt.CryptSegmentsWords | hostapps/elfcrypt.c:106-113 | with disjoint ranges every block of every header is the encryption of the original one |
| ElfCrypt.CryptSegmentsOutside | hostapps/elfcrypt.c:72-113 | bytes no segment holds are untouched |
| ElfCrypt.RejectedIff | hostapps/elfcrypt.c:72-93 | when a file is rejected, in numbers, and when the buffer is left |
| ElfCrypt.IntendedAny | hostapps/elfcrypt.c:72-93 | for any headers, beyond refusals and bounds it comes down to whether encrypting all ranges is encrypting the loadable ones |
| ElfCrypt.IntendedIff | hostapps/elfcrypt.c:72-93 | the exact condition under which the program does what its description asks for, encrypting each loadable segment after testing it and nothing else, for headers whose ranges overlap in whole blocks or not at all: it rejects what should be rejected, or every loadable header passes its own test, every header's blocks lie in the file, and every word returns to itself after as many encryptions as headers of other types hold it |
| ElfCrypt.OthersMatter | hostapps/elfcrypt.c:72-93 | encrypting every header's range is encrypting the loadable ones if and only if every word returns after the encryptions of the other headers that hold it |
| ElfCrypt.OneOtherMatters | hostapps/elfcrypt.c:72-93 | with one header of another type and any overlap at all, if and only if its blocks, as the headers before it have left them, are fixed points of the cipher |
| ElfCrypt.EncryptedPerCover | hostapps/elfcrypt.c:106-113 | a word is encrypted once for every header whose range holds it |
| ElfCrypt.SegmentsInjective | hostapps/elfcrypt.c:72-113 | different files stay different whatever ranges are encrypted |
| ElfCrypt.OtherTypeEncrypted | hostapps/elfcrypt.c:74-87 | for every file that is encrypted and has a block under exactly one header of another type, there is a key table under which the output is wrong |
| ElfCrypt.NullHeaderEncrypted | hostapps/elfcrypt.c:74-87 | so for every file of 125 bytes with a PT_LOAD and a PT_NULL header whose ranges lie behind the ELF header and the program headers |
| ElfCrypt.OverlapEncryptedTwice | hostapps/elfcrypt.c:74-87 | and for one where both headers have the same range |
| ElfCrypt.SecondHeaderUnchecked | hostapps/elfcrypt.c:78-81 | two headers with which every file of 125 bytes is not rejected under any key, although the second, behind the headers too, reaches past its end |
| ElfCrypt.LaterTypesIgnored | hostapps/elfcrypt.c:74-87 | only the first header's type matters: any later header's range is encrypted whatever its type |
| ElfCrypt.CryptInPlace | hostapps/elfcrypt.c:72-93 | for every header list the loop encrypts the buffer in place, rejects the file untouched, or is about to leave the buffer |
| Cpu.Cpu.Execute | vm/cpuemu.c:126-164 | one step in place, equal to the step function on the whole state |
| Cpu.Cpu.ExecuteFor | hostapps/util.c:122-124 | the loop of steps until an exception, equal to the run function |
| Cpu.Cpu.DoDispatch | vm/cpuemu.c:203-258 | the dispatch in place |
| Cpu.Cpu.DoJump | vm/cpuemu.c:261-295 | the jump handler in place |
| Cpu.Cpu.DoBranch | vm/cpuemu.c:298-353 | the branch handler in place |
| Cpu.Cpu.DoAlui | vm/cpuemu.c:356-369 | the immediate handler in place |
| Cpu.Cpu.DoAlu3 | vm/cpuemu.c:432-458 | the three-register handler in place |
| Cpu.Cpu.DoDivMult | vm/cpuemu.c:460-478 | the HI/LO handler in place |
| Cpu.Cpu.DoLoadStore | vm/cpuemu.c:372-430 | the load/store handler in place, with the memory each fault leaves |
| Cpu.Cpu.HookPeek | vm/cpuemu.c:484-487 | called only with aligned addresses of words inside [0x1000, memsz) |
| Cpu.Cpu.HookPoke | vm/cpuemu.c:490-493 | the same; writes that one word |
| Cpu.Cpu.CopyOut | vm/cpuemu.c:573-587 | the byte loop, with its three ways to end |
| Cpu.Cpu.CopyIn | vm/cpuemu.c:589-603 | the byte loop, with its three ways to end and the buffer each of them leaves |
| Cpu.Cpu.BreakCode | vm/cpuemu.c:172-186 | the trap report; its opcode stays unset when the word at PC cannot be read |
| Cpu.Cpu.Resume | vm/cpuemu.c:188-200 | the resumption, changing PC only |
| Cpu.Cpu.constructor | vm/cpuemu.c:91-118 | a reset CPU with identity hooks; the words of the CPU structure are zeroed and the rest of memory is unchanged |
| Host.PrepareCpu | hostapps/util.c:93-112 | with a key the hooks are the cipher under its expansion, without one they stay, and they are installed before loading, so the start state is that of a load under them |
| Host.ExecuteLoop | hostapps/util.c:114-150 | the execution loop is a session, with the opcode it carries from one iteration to the next |

## Where the code and its documentation part

- `vm/cpu.h` promises the opcode of the faulting instruction, but `mips_break_code` looks at PC only. The opcode is
  right exactly when no slot is pending or the word at PC can be read and has the opcode of the one in the slot
  (`OpcodeExact`; `SlotFaultReportedAsAdd` is an input where it is not). Whether a trap was raised, and which, is
  reported right exactly when no slot is pending or slot and PC hold the same trap (`ReportExact`;
  `SlotFaultReportedAsSyscall`).
- `mips_resume` looks at PC only, too, and leaves DELAY_SLOT alone. After a trap it moves on exactly when no slot is
  pending or the slot is PC itself (`ResumeExact`); otherwise the trap in the slot is executed again
  (`SlotTrapRepeats`). After any other exception it changes nothing exactly when no slot is pending or PC holds no trap
  (`RestartExact`), and then it returns -1.
- `execute_loop` keeps `opcode` from one iteration to the next, and `mips_break_code` does not set it when PC is
  unreadable: a program that runs off the end of memory is reported as an invalid system call, or by an unset variable
  (`UnreadablePcUsesOldOpcode`, `StaleOpcodeReached`, `UnsetOpcodeReached`). The loop's verdict on a failing step is
  right exactly when PC is readable and no slot is pending or PC holds the slot's trap (`VerdictExact`).
- `vm/cpu.h` promises that a failed `mips_copyout` changes nothing and that -1 means a transfer outside memory. This
  holds exactly where the wrapping bound check is right (`PromiseIff`). A block that passes it and is not `Contained`
  ends in an address exception instead (`CopyOutResults`), possibly after part of it was written (`WrapEscapes`); one
  that ends with memory is refused (`LastByteRefused`).
- J and JAL keep five high bits of PC where the architecture keeps four: they agree exactly when bit 27 of the slot's
  address is clear or the instruction sets it (`RegionRule`, `StepRefines`), always below 128 MB
  (`SmallRunRefines`), and not always above (`JumpLeavesRegion`).
- The link register is written before the operands are read, where the architecture reads them first. `LinkBeforeRead`
  says exactly when the destination is the same; `LinkedRegisterTested` is a branch that is taken and should not be.
- `elfcrypt` tests the first program header over and over and encrypts the range of every other one, whatever its
  type (`LaterTypesIgnored`) and without a bound. `IntendedIff` says exactly when it still does what it is for;
  `NullHeaderEncrypted`, `OverlapEncryptedTwice` and `SecondHeaderUnchecked` are files with which it does not.
- The loader's bounds are 32-bit sums and it does not test alignment: a header that passes its tests is copied safely
  exactly when `PlacedIff` says (`WrappingHeaderPasses` is one that is not).

## Left out

- EncryptedRunIsPlainRun: relates the memories word by word from the start, uninitialised words included; CleanEncryptedRun drops that.
- CleanEncryptedRun: asks that the plain run read no byte before it is written, since a program that does sees different garbage under the cipher.
- CleanEncryptedSession: asks the same of a session.
- EncryptedRunFromAnyMemory: asks that the plain run be determined by its file, which FileDeterminedIff shows to be necessary; it speaks of registers and exceptions.
- CryptFile: the headers are read once, where the source reads them from the buffer it is encrypting; for files whose header table lies outside the encrypted ranges, as Suitable asks, this is the same.
- IntendedIff: asks that ranges which overlap share their block boundaries; for other overlaps OneOtherMatters covers a single header of another type, and IntendedAny leaves the comparison of the two encryptions as it is.
- OthersMatter: asks the same.
- OtherTypeEncrypted: asks the same, and a block under one header of another type; that some key also spoils blocks under several is not claimed.
- Suitable: that the headers, tables and symbols read alike before and after encryption is proved from their bytes being untouched, which asks for ranges apart from them; the list of those bytes comes with the parsed file.
- KeysStayDistinct: speaks of S and L together; that S alone differs is not claimed.
- Session: the individual services of `mips_spim_syscall` are not modelled; any service is covered that acts on registers and, byte by byte through the checked accesses, on guest memory.
- UnsetOpcode: what a read of the unset variable `opcode` does is not defined; the session ends there.
- Codec: a hook transforms one word, depending on its address at most; hooks that touch other words or keep state are not modelled.
- DoBranch: the test for an undecided branch, which no path reaches, is not modelled.
- Parsing of ELF bytes into program and section headers, the header checks and the choice of the symbol table: the model starts from parsed headers and the file bytes. Symbol records and names are read from the bytes.
- File descriptors, reading and writing files, key parsing, printing and the other fields of the CPU structure.
- setjmp and longjmp as mechanisms: a throw is an early return of an exception code. An exception escaping from a copy function is a result of its own.
- memsz is taken to be a multiple of 4 above 0x1000 and below 2^32, and the CPU structure to fit below 0x1000; the model keeps its fields as an object and treats the raw words there, once zeroed at reset, as opaque. size_t is taken to be wider than 32 bits.
- Big-endian hosts, the self-hosted build and the benchmark and test drivers.

# Blink, verified

Blink is an x86-64 emulator. This project models the parts of it whose correctness is hard to see from the code, and proves
them: the flag-liveness walk and the compiler rewrites that rest on it, the sub-page allocator behind mmap on wasm32, 128-bit
multiplication and division from 64-bit halves, locked read-modify-write loops, the circular lists under the file descriptor
table, the untagged instruction cache, and the arithmetic of the ALU. `dafny verify dfyconfig.toml` checks everything.

| file | what it is about |
|---|---|
| `Bits.dfy` | bits of natural numbers: and, or, xor, shifts, masks |
| `Flags.dfy`, `Alu.dfy`, `AluLaws.dfy`, `MultiLimb.dfy` | the flags word, every ALU operation and what it means in integers, multi-word chains |
| `Deps.dfy`, `DepsTables.dfy`, `Liveness.dfy`, `Rows.dfy` | the flag walk and its tables, why dead flags do not matter, which table rows are honest |
| `Specialise.dfy`, `Fusion.dfy`, `Programs.dfy` | choosing flagless and fast forms, fusing compare or test and jump, each applied to one place of a program |
| `Jit.dfy` | the wholly compiled program against the plain one |
| `LockedRmw.dfy`, `LockedTotals.dfy` | compare-exchange loops of any number of threads, and what they leave in memory |
| `MmanSpec.dfy`, `MmanSteps.dfy`, `Mman.dfy`, `MmanRuns.dfy` | allocator invariant, its steps, the code, whole runs |
| `Dubble.dfy` | 128 by 64 bit arithmetic |
| `Dll.dfy`, `Fds.dfy` | rings of nodes in the heap, the descriptor table and the close calls |
| `ICache.dfy`, `Bitscan.dfy` | the instruction cache and the bit scans |
| `Shifts.dfy`, `Rotate.dfy`, `Crc32.dfy`, `Bmi2.dfy`, `Clmul.dfy` | bit algorithms |

Machine words are natural numbers with every wrap-around written out; the flags word itself is a 32-bit vector. Host calls,
memory.grow, spurious failures of a weak compare-exchange and the bytes other code writes are parameters or nondeterministic
steps. The instruction decoder is abstract; the cache needs of it only that a successful decode depends on no byte past the
instruction. The guest step function is abstract in `Liveness.dfy`, and concrete for ALU, Jcc, SETcc, CMOVcc and JMP in
`Rows.dfy`.

## Where the code does not do what one would expect

The model follows the code. Each item names the members that state it: the exact condition under which the code is right, and
for the surprising ones a concrete input.

- Fast ADD and ADC compare a result cut to the operand size with an uncut 64-bit operand, so a sign-extended negative
  immediate always reads as a carry (`FastAddImmediate`, `FastExact`). It does harm only where CF is needed (`EmittedAgrees`).
- Fusing TEST looks only at register numbers and also accepts a memory operand, which it then never loads
  (`FusedTestMemory`, `FusedTestExact`).
- A locked ADC or SBB that retries reads the carry its failed attempt wrote (`AdcBreaks`, `RetryExact`, `LinearizableExact`).
- AF after INC and NEG is not always the half carry (`AuxCarryDefects`).
- The clobber rows of shifts, multiplies and divides claim too much, and the row of FCMOVBE reads too little
  (`ShiftRowExact`, `MulRowExact`, `DivRowExact`, `FcmovbeRowExact`). A conditional jump after a shift by CL can therefore go
  the wrong way when CL is zero (`ShiftFoolsTheWalk`). Rows of calls, returns and system calls claim all flags by calling
  convention; the results about runs stop there.
- mmap of more than 0xFFFF0000 bytes wraps its page or slot count: nothing is reserved and MAP_FAILED need not be returned
  (`Mmap`, `WrappedRequest`, `TrappedRequest`).
- The comment at blink-wasm-mman-impl.c:40-41 says emptied slabs may go to the big free list; the code retires their pages.

## Model

| member | source | states |
|---|---|---|
| `Deps.CrawlFlags` | blink/deps.c:36-73 | the loop with its recursion at conditional jumps computes `Crawl`, and ends on its fuel for every program, cyclic ones included |
| `Deps.CrawlExact` | blink/deps.c:36-73 | an answer other than -1 is exactly the set of asked-for flags that some static path from pc reads before overwriting them |
| `Deps.CrawlSound` | blink/deps.c:36-73 | for every flag in an answer there is a static path that reads it first |
| `Deps.CrawlComplete` | blink/deps.c:36-73 | every flag that any static path reads first is in the answer, however long the path |
| `Deps.CrawlMonotone` | blink/deps.c:36-73 | more fuel never changes an answer other than -1 |
| `Deps.CrawlGivesUp` | blink/deps.c:46-71 | -1 is returned exactly when some path keeps an asked-for flag live until the walk meets undecodable code, an abnormal instruction or the end of its fuel |
| `DepsTables.FullRows` | blink/deps.c:95-174 | exactly the opcodes of the switch overwrite all six flags whatever their fields, and opcodes it does not name overwrite none |
| `DepsTables.GroupRows` | blink/deps.c:175-233 | the rows that depend on the register field |
| `DepsTables.SingleRows` | blink/deps.c:86-266 | the remaining rows, by opcode, prefix and operand size |
| `DepsTables.BoundaryRows` | blink/deps.c:86-233 | -1 is returned for near calls and returns without a prefix, SYSCALL and indirect calls, and nothing else |
| `DepsTables.ReadRows` | blink/deps.c:274-362 | the flags read by ADC, SBB, every Jcc, CMOVcc and SETcc, LOOPcc, INTO, SALC and CMC, opcode by opcode |
| `DepsTables.OtherReadRows` | blink/deps.c:363-409 | the flags the remaining opcodes read, and that no others read any |
| `DepsTables.NormalOps` | blink/deps.c:411-485 | exactly the instructions ClassifyOp calls normal |
| `DepsTables.JumpOps` | blink/deps.c:23-34 | which opcodes the walk follows as jumps and as conditional jumps |
| `Liveness.Advance` | blink/deps.c:50-70 | one executed instruction shrinks the difference between two runs by what it clobbers, and the walk's answer carries over to the next instruction |
| `Liveness.DeadFlagsOnRuns` | blink/deps.c:36-80 | two states differing only in flags found dead give runs that agree on pc, registers, memory and every branch for any number of steps, and are equal once the fuel's worth of steps has run, with the rows honest only in the states these two runs go through |
| `Liveness.DeadFlags` | blink/deps.c:36-80 | for every program meeting the table contract in all states the same holds with nothing asked of the runs |
| `Liveness.DeadFlagsAtBoundary` | blink/deps.c:82-97 | up to and including the first call, return or system call, whose rows claim all flags by calling convention, only dead flags differ |
| `Rows.EncodedRow` | blink/deps.c:82-409 | which flags the table says each ALU encoding reads (CF for ADC and SBB, nothing otherwise) and clobbers |
| `Rows.Opcodes` | blink/alu.c:26-39 | which operation every ALU opcode and group member stands for, in both directions |
| `Rows.AluUsesCarry` | blink/alu.c:175-247 | of the old flags an ALU operation can see only CF, and only ADC and SBB do; INC, DEC hand CF through and NOT hands all flags through |
| `Rows.AluRowHolds` | blink/deps.c:110-262 | the rows of all ALU encodings are honest: values do not depend on unlisted flags and every listed flag is overwritten |
| `Rows.CondRowHolds` | blink/deps.c:270-345 | a condition depends on no flag outside its row, for all sixteen conditions |
| `Rows.CondRowExact` | blink/deps.c:270-345 | no row lists a flag in vain: a flag is listed if and only if turning it over can change the condition |
| `Rows.FlagMoves` | blink/machine.c:65-111 | what CMC, CLC, STC, SAHF and POPF do to each flag, and what LAHF, PUSHF and SALC show of it |
| `Rows.FlagRowExact` | blink/machine.c:65-111 | the rows of CMC, CLC, STC, SAHF, LAHF, PUSHF, POPF and SALC are exact: they read the flags that matter and no others, and exactly the listed flags are overwritten |
| `Rows.ProgramsMeetContract` | blink/deps.c:82-409 | every program of ALU, Jcc, SETcc, CMOVcc and JMP instructions meets the table contract, so `DeadFlags` needs no hypothesis for it |
| `Rows.ShiftRowExact` | blink/deps.c:175-191 | the rows of SHL, SHR and SAR, which claim all six flags, are honest exactly when the masked count is not zero |
| `Rows.ShiftFoolsTheWalk` | blink/deps.c:175-191 | counterexample with its exact condition: before shl ecx, cl and jz the walk finds no flag needed, yet where the jump goes depends on the ZF left before if and only if the count is 0 modulo 32 |
| `Rows.MulRowExact` | blink/divmul.c:315-322 | of the six flags the multiply row claims, exactly CF and OF are overwritten |
| `Rows.DivRowExact` | blink/deps.c:218-231 | DIV and IDIV touch no flag though their rows claim all six; leaving the flags alone honours the row exactly for two registers that were equal before |
| `Rows.FcmovbeRowExact` | blink/fpu.c:367-371 | FCMOVBE also reads CF, which its row omits; the row is enough exactly when ZF is set or CF agrees |
| `Specialise.JustStoresSame` | blink/uop.c:872-902 | the flagless form stores the value of the full operation, at every width and for all 64-bit operands |
| `Specialise.FastExact` | blink/uop.c:1124-1302 | the fast form stores the right value and ZF, leaves the flags it does not own alone, and gets CF right exactly when the operand fits the width or the addition really carries |
| `Specialise.FastAddImmediate` | blink/uop.c:1187-1192 | counterexample: add eax, -1 on eax = 0 sets CF in the fast form, because the sign-extended immediate is compared unshortened |
| `Specialise.EmittedAgrees` | blink/alu2.c:173-219 | whichever form is picked, the stored value is right; every needed flag is right if and only if CF is not needed from the fast form or the fast carry is the carry |
| `Specialise.ChosenForm` | blink/alu2.c:191-218 | the flagless form is picked exactly when no flag is needed, the fast one exactly when CF or ZF is and no other |
| `Specialise.SpecialisedRuns` | blink/alui.c:57-94 | storing the value of the chosen form of one instruction and running on gives the same run as the full operation for any number of steps, and equal states after 32 instructions, for every program meeting the contract, under that same condition |
| `Specialise.SpecialisedAtBoundary` | blink/alu2.c:173-219 | the same up to and including the first call, return or system call |
| `Specialise.AddMinusOneJz` | blink/alui.c:66-84 | add eax, -1 before jz: the fast form is picked, gets CF wrong, and may stand in all the same because only ZF is needed |
| `Specialise.FormRuns` | blink/deps.c:75-80 | any outcome with the right value whose wrong flags the walk did not find needed can be run on from |
| `Specialise.EmittedDecAgrees` | blink/alu1.c:177-211 | each form of DEC stores the same value, gets the needed flags right and never touches CF |
| `Specialise.DecRuns` | blink/alu1.c:177-212 | whichever form of DEC is emitted, the program runs on as after the full one |
| `Specialise.NegRuns` | blink/alu1.c:142-162 | whichever form of NEG is emitted, the program runs on as after the full one |
| `Specialise.ZeroIsXor` | blink/uop.c:607-611 | ZeroRegFlags writes the value and every flag XOR of a register with itself would |
| `Specialise.ZeroRuns` | blink/alu2.c:176-191 | clearing a register in place of XOR, with or without its flags, runs on as after XOR |
| `Fusion.GuestMeaning` | blink/flags.h:72-94 | after a compare each condition says what its name says about the operands as signed or unsigned integers |
| `Fusion.RemapPreserves` | blink/fusion.c:245-322 | the native compare and branch, on x86-64 by the host's own flags and on aarch64 through the remapping switch where carry means no borrow, is taken exactly when the guest's jump would be, for all operands, widths and accepted conditions |
| `Fusion.Path.FuseBranchCmp` | blink/fusion.c:146-342 | fuses exactly when allowed, leaves no trace when it refuses, and otherwise emits code that for all operands ends at the ip and the path the guest would reach; a fault in loading a memory operand is reported at the compare |
| `Fusion.Path.FuseBranchTest` | blink/fusion.c:32-144 | fuses exactly when its checks pass; the code lands where the guest's test and jump would, for all operands, if and only if rm is the register, or the jump is on a flag TEST clears, or its displacement is 0 |
| `Fusion.ReadBack` | blink/fusion.c:162-170 | a conditional jump read from its encoding, a signed byte or four bytes low byte first, is that jump: condition, length and displacement, forward or backward |
| `Fusion.ReadsOnlyJumps` | blink/fusion.c:52-63 | a jump is read exactly where the bytes begin with 70 to 7F, or 0F and 80 to 8F |
| `Fusion.TextLength` | blink/fusion.c:52-60 | every conditional jump has an encoding of two or six bytes |
| `Fusion.EmissionLands` | blink/fusion.c:226-334 | following the emitted code from the lagging ip lands at the target or behind the jump, as the native branch decides |
| `Fusion.FusedRuns` | blink/fusion.c:205-212 | from where the fused compare lands, with stale flags, the program runs on as after the real compare and jump and is in the same state 32 instructions later |
| `Fusion.StaleAtBoundary` | blink/fusion.c:205-212 | after a fused jump the same holds up to and including the first call, return or system call |
| `Fusion.FusedTestRuns` | blink/fusion.c:75-82 | from where the fused test lands the program runs on as after the real test and jump, under the condition of `FusedTestExact` |
| `Fusion.CompareThenJump` | blink/fusion.c:146-342 | the state `FusedRuns` starts from is what executing CMP and then Jcc gives |
| `Fusion.CompareThenBranch` | blink/flags.h:72-94 | executing CMP and Jcc goes to the target exactly when the operands as integers compare as the condition says |
| `Fusion.CompareThenSet` | blink/machine.c:971-1000 | SETcc and CMOVcc after CMP are given the truth of that comparison, and keep the flags |
| `Fusion.FusedTestExact` | blink/fusion.c:44-47 | the fused branch is the guest's for all values of register and operand if and only if the operand is the register (the test the code omits) or the jump is jo, jno, jb or jae; all sixteen jumps on x86-64, jz and jnz on aarch64 |
| `Fusion.FusedTestMemory` | blink/fusion.c:44-47 | counterexample: test [rax], eax; jz passes every check on both hosts, and with 1 and 2 as operands the fused branch goes to another address than the guest |
| `Programs.ProgramsIgnoreDeadFlags` | blink/deps.c:36-80 | dead flags never matter, with nothing assumed of a program but the encoding of its instructions |
| `Programs.JumpThere` | blink/fusion.c:162-170 | where the fusion code reads a jump from the bytes, a program decoded from those bytes has that very jump |
| `Programs.SpecialisedPrograms` | blink/alu2.c:173-219 | emitting the chosen form of any one ALU instruction of any such program leaves its run as it was, and the states are equal 32 instructions later; `Jit.CompiledRuns` is the law for all of them at once |
| `Programs.FusedPrograms` | blink/fusion.c:146-342 | fusing any compare of any such program with the jump behind it leaves its run as it was, the jump being read from the program's own bytes |
| `Programs.FusedTestPrograms` | blink/fusion.c:32-144 | fusing a test of a register with itself does too, and one of a memory operand when the jump is jo, jno, jb or jae |
| `Jit.CompiledRuns` | blink/alu2.c:173-219 | a program wholly compiled, every ALU instruction in its chosen form, DEC, NEG and cleared registers in theirs, compares and tests fused with their jumps, runs for any number of steps as the plain program: same pc, registers, memory and branches |
| `Jit.JitRuns` | blink/fusion.c:32-342 | the same from any two states that differ only in dead flags, and after any number of steps again only dead flags differ, however many stale ones the rewrites have left |
| `Jit.StepSimulates` | blink/alui.c:57-94 | one step of the compiled program, whichever rewrite it is, matches one or two guest instructions and leaves only dead flags different |
| `Jit.FormStandsIn` | blink/alu1.c:142-212 | each emitted form, run on the flags the compiled program really has, stores the full value and gets wrong only flags its walk found unneeded |
| `Jit.DeadStep` | blink/deps.c:50-70 | a flag some walk finds dead is not read by the next instruction, and is dead at every successor unless overwritten |
| `Jit.CrawlOne` | blink/deps.c:36-73 | a walk that answers for a set of flags answers for each of them asked alone |
| `Mman.Allocator.Mmap` | blink-wasm-mman-impl.c:260-319 | fails exactly when no slab has the run (or no freed block the size) and nothing can be grown; otherwise adds one new mapping of exactly the length asked for (one byte for 0) at the returned address, all zero even if the memory was used before; changes no byte of any other mapping; grows slab memory only when no slab has the run; keeps the invariant. Requests above 0xFFFF0000 bytes reserve nothing: they trap exactly when the page count wraps and memory is not full, and above 0xFFFFF000 bytes get the address of a slab in use, or of a new one, instead of MAP_FAILED |
| `Mman.Allocator.Munmap` | blink-wasm-mman-impl.c:324-358 | removes exactly the named mapping, changes no byte of the others and keeps the invariant; NULL and MAP_FAILED change nothing |
| `Mman.Allocator.AllocSlots` | blink-wasm-mman-impl.c:180-213 | first fit: the first run in the first listed slab that has one; grows only when no slab anywhere has the run; ends because the list is acyclic; for 0 slots, which address comes back and when none does |
| `Mman.Allocator.FindRun` | blink-wasm-mman-impl.c:188-196 | the lowest run of n free slots in a mask, or none when there is none |
| `Mman.Allocator.Alloc4k` | blink-wasm-mman-impl.c:147-175 | the lowest free slot of the first listed slab, growing only when every slab is full |
| `Mman.Allocator.FindRoom` | blink-wasm-mman-impl.c:149-161 | the walk along the partial list ends and finds the first listed slab with a free slot and its lowest one, or no slab anywhere has one |
| `Mman.Allocator.FindSlab` | blink-wasm-mman-impl.c:183-199 | the walk for a run of n slots ends and finds the first listed slab with such a run and its first run, or no slab anywhere has one; for n = 0 the head of the list |
| `Mman.Allocator.AllocBig` | blink-wasm-mman-impl.c:218-231 | walking the headers read from memory, reuses the first freed block of exactly the size, grows only when there is none, and unlinks it without touching a mapping |
| `Mman.Allocator.GrowSlab` | blink-wasm-mman-impl.c:162-174 | opens a slab on a fresh page, fails exactly when memory or the metadata table is exhausted, and marks the page retired in the latter case |
| `Mman.Allocator.PartialAdd` | blink-wasm-mman-impl.c:126-131 | the linked list stays acyclic and gains exactly this slab |
| `Mman.Allocator.PartialRemove` | blink-wasm-mman-impl.c:133-142 | the walk ends, the list stays linked up and loses exactly this slab |
| `Mman.Allocator.ClearSlots` | blink-wasm-mman-impl.c:332-339 | clearing a mapping's bits gives back exactly its slots and relists a slab that was full |
| `Mman.Allocator.DropSlab` | blink-wasm-mman-impl.c:340-343 | an emptied slab leaves the list and its page is retired, not reused |
| `Mman.Allocator.FreeBig` | blink-wasm-mman-impl.c:346-355 | a freed big mapping becomes the head of the free list, its header stored as bytes inside the block, and no other mapping changes |
| `Mman.Allocator.UserWrite` | blink-wasm-mman-impl.c:348-354 | whatever bytes the owner stores inside its mapping, the headers of freed blocks survive and no other mapping changes |
| `MmanSpec.LiveDisjoint` | blink-wasm-mman-impl.c:260-358 | no two live mappings share a byte |
| `MmanSpec.ReservedDisjoint` | blink-wasm-mman-impl.c:279-291 | not even the slots set aside for two mappings overlap |
| `MmanSpec.LiveSafe` | blink-wasm-mman-impl.c:260-358 | everything set aside for a mapping is inside grown memory, above page 0, and clear of every freed block |
| `MmanSpec.WritesAreHarmless` | blink-wasm-mman-impl.c:346-355 | storing any bytes inside a mapping leaves the bytes of every header on the free list as they were |
| `MmanSpec.HeaderClear` | blink-wasm-mman-impl.c:346-355 | the headers of freed blocks lie clear of every live mapping, so linking and unlinking corrupts none |
| `MmanSpec.LoadBack` | blink-wasm-mman-impl.c:89-93 | reading a stored header from its twelve bytes gives it back |
| `MmanSteps.TakeSlots` | blink-wasm-mman-impl.c:186-196 | taking a free run keeps masks, ownership and placement consistent and collides with no mapping |
| `MmanSteps.DropSlots` | blink-wasm-mman-impl.c:335-339 | giving the run back keeps them consistent |
| `MmanSteps.PopBlock` | blink-wasm-mman-impl.c:222-228 | unlinking any position of the free list leaves a well-formed list of the others |
| `Mman.HeadersUnlink` | blink-wasm-mman-impl.c:224-224 | overwriting one link word leaves every remaining header in memory as the shortened list wants it |
| `MmanRuns.MasksAreLive` | blink-wasm-mman-impl.c:73-84 | a mask bit is set exactly when a live mapping covers the slot; the partial list is acyclic and holds exactly the slabs with a page and a free slot |
| `MmanRuns.Conservation` | blink-wasm-mman-impl.c:101-105 | pages of memory equal foreign pages plus slab pages plus pages of live big mappings plus pages on the free list plus retired pages |
| `MmanRuns.Session` | blink-wasm-mman-impl.c:260-358 | over every sequence of requests and writes, at every moment all held mappings have the length asked for and are disjoint, 4096-aligned, nonempty and inside memory; every byte of them is the one the caller stored there last since mapping it, or zero; a request is refused only if it is above 0xFFFF0000 bytes, memory may not grow by its whole pages, or all 4096 metadata entries have been used |
| `MmanRuns.Serve` | blink-wasm-mman-impl.c:260-358 | one request: the caller's and the allocator's view stay equal, a new mapping is all zero, and of the bytes held before and after exactly those the request writes change |
| `MmanRuns.StoredBytesStay` | blink-wasm-mman-impl.c:260-358 | over any history whose steps keep the bytes they should, what is held at any moment is what the requests stored last |
| `MmanRuns.WrappedRequest` | blink-wasm-mman-impl.c:279-286 | counterexample: a request for 0xFFFFFFFF bytes gets an address and no mapping |
| `MmanRuns.TrappedRequest` | blink-wasm-mman-impl.c:288-298 | counterexample: a request for 0xFFFFF000 bytes runs off the end of memory |
| `Dubble.DubbleDiv` | blink/divmul.c:89-112 | exact quotient and remainder whenever the quotient fits 64 bits; otherwise the high half is nonzero, even when the shifted divisor wraps past 2^128 |
| `Dubble.ScaleDivisor` | blink/divmul.c:93-97 | the divisor wraps only for dividends of 2^127 or more whose quotient needs more than 64 bits |
| `Dubble.DubbleIdiv` | blink/divmul.c:114-123 | truncated signed quotient and remainder for every dividend but -2^127, which IDIV rejects first |
| `Dubble.TruncLaws` | blink/divmul.c:114-123 | what makes it truncated division: the identity, the size of the remainder, and its sign |
| `Dubble.DubbleMul` | blink/divmul.c:60-78 | the exact 128-bit product; no 64-bit step overflows |
| `Dubble.DubbleImul` | blink/divmul.c:80-87 | the exact signed product, the minimum value included |
| `Dubble.Cpu.DivUnsigned64` | blink/divmul.c:250-261 | faults exactly on a zero divisor or a quotient of more than 64 bits, changing nothing; otherwise exact; the flags are left alone either way |
| `Dubble.Cpu.DivSigned64` | blink/divmul.c:168-181 | faults exactly on a zero divisor or a quotient outside the signed 64-bit range, the early rejection of -2^127 included; the flags are left alone either way |
| `Dubble.Cpu.MulUnsigned64` | blink/divmul.c:354-368 | exact product; CF and OF exactly when the high half is needed, other flags left alone |
| `Dubble.Cpu.MulSigned64` | blink/divmul.c:309-323 | exact signed product; the hi + (lo >> 63) test is nonzero exactly when it leaves the signed 64-bit range, CF and OF say so and other flags are left alone |
| `LockedRmw.Linearizable` | blink/alu2.c:99-143 | without ADC and SBB, in every state of every run, for any number of threads, interleaving and spurious failures: memory is the fold of the finished operations in completion order and each finished thread holds the value it replaced and its operation's result and flags on it (INC and DEC with their original CF) |
| `LockedRmw.LinearizableExact` | blink/alu2.c:99-143 | with all operations, in every state of every run that law holds if and only if the last attempt of each finished ADC and SBB saw the CF it started with |
| `LockedRmw.RunsFold` | blink/alu2.c:99-143 | in every run of any operations memory is the fold of the finished ones in completion order, each on the flags its last attempt saw |
| `LockedRmw.AllDone` | blink/alui.c:96-157 | when all threads are done and every ADC and SBB saw its carry, some order of all the operations, each once, explains the word |
| `LockedTotals.CountersCount` | blink/alu2.c:99-143 | locked ADD, SUB, INC and DEC, mixed and interleaved in any way: at every moment the word is its first value plus what the finished operations add, in the end plus the sum of all, modulo 2^n |
| `LockedTotals.OrsGather` | blink/alui.c:96-157 | after any run of locked ORs a bit is set if and only if it was set or some operation sets it |
| `LockedTotals.AndsClear` | blink/alui.c:96-157 | after any run of locked ANDs a bit is set if and only if it was set and every operation leaves it |
| `LockedTotals.XorsToggle` | blink/alui.c:96-157 | after any run of locked XORs a bit has been turned over once per operation that names it |
| `LockedRmw.IntactApply` | blink/alu.c:279-281 | an attempt computes what a first attempt would if and only if it saw the right CF or does not read CF, and leaves what other operations see of the flags intact for the next attempt |
| `LockedRmw.RetryExact` | blink/alu.c:201-210 | a retry computes what a first attempt would if and only if the operation ignores CF or the carry out of the failed attempt's operands equals the carry in |
| `LockedRmw.AdcBreaks` | blink/alu2.c:105-109 | counterexample run: one spurious failure makes a lone locked ADC lose its carry |
| `Alu.Machine.Dispatch` | blink/alu.c:52-343 | every row and width of the ALU table yields the mathematical result and flags: the wrap-around comparisons are the carries, the sign tricks the overflows, the nibble tricks the half carries |
| `AluLaws.SumMeans` | blink/alu.c:75-247 | ADD, ADC, SUB, SBB and CMP in plain integers at every width: the result modulo 2^n, CF, signed overflow and half carry |
| `AluLaws.UnaryMeans` | blink/alu.c:249-343 | INC is x + 1 and DEC is x - 1 modulo 2^n with CF kept and OF exactly at the signed boundary; NEG is 0 - x with CF for x other than 0; NOT complements and keeps the flags |
| `AluLaws.LogicMeans` | blink/alu.c:63-73 | AND, OR and XOR bit by bit within the width, with CF, OF and AF clear |
| `AluLaws.ResultFlags` | blink/alu.c:52-61 | ZF, SF and PF say whether the result is zero, negative, of even parity in its low byte |
| `Alu.Machine.DoAdc` | blink/alu.c:175-210 | sum with carry in; CF, OF, AF from the two-step carry trick are those of the true sum |
| `Alu.Machine.DoSbb` | blink/alu.c:212-247 | difference with borrow; CF, OF, AF are those of the true difference |
| `Alu.AdcCarry` | blink/alu.c:201-210 | the two-step comparison is exactly the carry out of x + y + c |
| `Alu.OverflowSub` | blink/alu.c:155-163 | the sign trick is exactly signed overflow of x - y - c |
| `Alu.AuxCarryDefects` | blink/alu.c:249-331 | AF of INC is the half carry exactly when the low nibble is not 15, AF of NEG exactly when the operand is zero or not a multiple of 16 |
| `MultiLimb.AddChainIsSum` | blink/alu.c:165-210 | ADD/ADC over any number of limbs is the big-integer sum and the last CF its carry |
| `MultiLimb.SubChainIsDifference` | blink/alu.c:155-247 | SUB/SBB over any number of limbs is the difference and the last CF its borrow |
| `MultiLimb.ChainCompares` | blink/flags.h:80-86 | after a SUB/SBB chain the bit tricks on the last limb's flags decide the signed comparison of the whole numbers, CF the unsigned one |
| `Shifts.Machine.DoShl` | blink/alu.c:379-411 | the masking of counts, the cut to the operand size and the carry expression come to shifting left by one place as often as the masked count says, CF the bit last pushed out; a zero count leaves every flag alone |
| `Shifts.Machine.DoShr` | blink/alu.c:345-377 | the same to the right; OF is set exactly for a count of one that drops the sign |
| `Shifts.Machine.DoSar` | blink/alu.c:413-445 | the same with the sign bit kept: shifting the sign-extended word by the count is keeping the sign place by place |
| `Flags.SetGet` | blink/flags.h:50-66 | on the record of flags, a written flag reads back and no other changes, the lazily kept parity included |
| `Flags.SetFlagRefines` | blink/flags.h:59-66 | the shift and mask on the flags word set the one flag and keep every bit outside its field |
| `Flags.GetFlagRefines` | blink/flags.h:50-57 | the shift and mask on the flags word read the flag |
| `Flags.SetGetWord` | blink/flags.h:50-66 | on any flags word a written flag reads back and no other changes |
| `Flags.ParityIsEven` | blink/flags.c:29-34 | the folded parity is evenness of the number of ones in the low byte |
| `Flags.AluFlagsRefines` | blink/alu.c:52-57 | the masking and shifting of the flags word stores exactly the six flags and keeps every other bit |
| `Flags.PredicateTricks` | blink/flags.h:72-94 | each shift-and-xor trick decides the condition it is named for, whatever the other bits |
| `Dlls.SpliceAfter` | blink/dll.c:26-34 | two rings become one: concatenation |
| `Dlls.Rotate` | blink/dll.c:26-34 | a ring can be read from any element, so the splice may happen anywhere |
| `Dlls.Dll.Remove` | blink/dll.c:41-53 | removal of one position; the element becomes a ring of its own, and the head is right also for the last and the only element |
| `Dlls.Dll.MakeFirst` | blink/dll.c:64-72 | the ring of elem, then the old list; null is a no-op |
| `Dlls.Dll.MakeLast` | blink/dll.c:83-88 | the old list, then the ring that ends with elem |
| `Dlls.Dll.Next` | blink/dll.h:31-35 | the next position, or null at the end |
| `Dlls.Dll.Prev` | blink/dll.h:37-41 | the previous position, or null at the beginning |
| `Fds.MoveToFront` | blink/fds.c:80-85 | moving the first entry for a descriptor to the front changes no lookup of any descriptor, with or without duplicates |
| `Fds.System.GetFd` | blink/fds.c:75-93 | returns the first entry for the number and moves it to the front; all lookups afterwards answer as before |
| `Fds.System.AddFd` | blink/fds.c:44-60 | a new entry in front, unless the number is negative or memory is short |
| `Fds.System.CountFds` | blink/fds.c:103-110 | the number of entries |
| `Fds.System.DestroyFds` | blink/fds.c:120-129 | every entry is freed exactly once and the list is empty |
| `Fds.System.CloseFds` | blink/close.c:48-57 | every entry of a detached list is closed and freed exactly once, in order; the result is the last failure, if any |
| `Fds.CombinedDone` | blink/close.c:49-54 | that result is success exactly when every close succeeded |
| `Fds.System.SysClose` | blink/close.c:64-73 | closes and frees the first entry for the number; the others keep their order; EBADF changes nothing; an interrupted close is an error only if a signal is pending |
| `Fds.System.SysCloseExec` | blink/close.c:75-89 | exactly the entries with O_CLOEXEC leave the table and are closed and freed, once each in order; the rest stay in order |
| `Fds.System.SysCloseRange` | blink/close.c:111-138 | refuses flags other than 4 and an empty range; otherwise the entries whose number is from first to last, both included, and no others leave the table and are closed and freed once each in order, or are marked close-on-exec; the result combines the host's answers; aborts exactly on EINTR |
| `Fds.System.CloseRangeCloexec` | blink/close.c:93-109 | exactly the entries numbered first to last, both included, get O_CLOEXEC, and the host is told of those that did not have it |
| `Fds.System.Detach` | blink/close.c:79-86 | one round of the unlinking loops: the successor is read before the entry is unlinked, so the loop neither skips nor repeats |
| `Fds.PickOrigins` | blink/close.c:79-86 | what is kept or closed is exactly the entries with that mark, in increasing old position |
| `ICache.LowestDifference` | blink/instruction.c:35-38 | the xor-and-scan test is equality of the first n bytes |
| `ICache.IsOpcodeEqual` | blink/instruction.c:30-44 | true exactly when the line is occupied and its first `length` bytes are those at pc |
| `ICache.HitAgrees` | blink/instruction.c:96-98 | a hit by bytes alone equals a fresh decode, though lines carry no pc |
| `ICache.Machine.ReadInstruction` | blink/instruction.c:46-55 | a successful decode fills the line; a failed one leaves every line as it was |
| `ICache.Machine.LoadInstructionSlow` | blink/instruction.c:57-74 | an instruction near the end of a page is decoded from both pages, or from what there is if the next is missing |
| `ICache.FetchBytes` | blink/instruction.c:57-74 | byte i of the text an instruction is decoded from is the byte at address pc + i modulo 2^64, for fifteen bytes or up to the first unmapped page |
| `ICache.Machine.LoadInstruction2` | blink/instruction.c:76-105 | whatever is cached, success, decode error and segmentation fault happen exactly when a fresh fetch and decode would give them, and on success the selected line equals it |
| `ICache.Machine.ChangeMachineMode` | blink/metal.c:58-68 | no line decoded in another mode survives |
| `ICache.Run` | blink/instruction.c:76-105 | over every run of loads, code writes, remappings, mode changes and TLB losses, each load gives what a machine without a cache gives |
| `Bitscan.Bsf` | blink/bitscan.c:38-49 | the mask ladder finds the lowest set bit |
| `Bitscan.Bsr` | blink/bitscan.c:28-36 | smearing and the table find the highest set bit |
| `Bitscan.SmearIs` | blink/bitscan.c:29-34 | six shift-or steps fill in every bit below the highest |
| `Bitscan.TableRight` | blink/bitscan.c:21-26 | every entry of the de Bruijn table is right |
| `Crc32.Crc.Castagnoli` | blink/crc32.c:47-59 | on the first and every later call, n bytes give what feeding their 8n bits one at a time gives |
| `Crc32.Crc.Initialize` | blink/crc32.c:28-37 | entry d of the table is eight one-bit steps of d |
| `Crc32.EightSteps` | blink/crc32.c:55-56 | eight steps are one lookup and one shift |
| `Crc32.FeedAtOnce` | blink/crc32.c:54-57 | feeding up to 32 bits one at a time equals flipping them in at once and stepping |
| `Crc32.FeedSplit` | blink/crc32.c:47-59 | splitting the input anywhere gives the same result |
| `Crc32.ReverseBit` | blink/crc32.c:39-45 | the byte swap and three mask exchanges reverse the 32 bits |
| `Crc32.ReverseTwice` | blink/crc32.c:39-45 | reversing twice changes nothing |
| `Crc32.Reflected` | blink/crc32.c:28-45 | the shift register steps reversed words with the polynomial as published |
| `Crc32.PolynomialTerms` | blink/crc32.c:51-51 | the constant has exactly the terms of the Castagnoli polynomial |
| `Rotate.Machine.Rcl` | blink/alu.c:545-577 | value and CF turn left by as many one-bit rotates of the (k+1)-bit ring as the masked count says, at all four widths; only CF and OF change |
| `Rotate.Machine.Rcr` | blink/alu.c:511-543 | the same to the right |
| `Rotate.RclTurns` | blink/alu.c:545-561 | the shift-and-or expression is y one-bit rotates |
| `Rotate.RcrTurns` | blink/alu.c:511-527 | the shift-and-or expression is y one-bit rotates to the right |
| `Rotate.RightUndoesLeft` | blink/alu.c:511-561 | rotating right undoes rotating left |
| `Rotate.ReducedTurns` | blink/alu.c:529-569 | reducing the count modulo 9 or 17 does not change the result |
| `Bmi2.Pdep` | blink/bmi2.c:39-48 | the loop computes the deposit, without overflow |
| `Bmi2.Pext` | blink/bmi2.c:50-59 | the loop computes the extract, without overflow |
| `Bmi2.DepositBit` | blink/bmi2.c:39-48 | bit i is set exactly when i is in the mask and the bit of x with its rank is set |
| `Bmi2.ExtractBit` | blink/bmi2.c:50-59 | the bit at the rank of position i is bit i of x |
| `Bmi2.ExtractDeposit` | blink/bmi2.c:39-59 | extracting a deposit gives x cut to popcount(mask) bits |
| `Bmi2.DepositExtract` | blink/bmi2.c:39-59 | depositing an extract gives x & mask |
| `Clmul.Multiply` | blink/clmul.c:29-39 | both halves of the schoolbook product over GF(2), the swap by leading bits included |
| `Clmul.ProductCommutes` | blink/clmul.c:32-32 | the schoolbook product is commutative, so the swap never matters |
| `Clmul.ProductBit` | blink/clmul.c:29-39 | coefficient k of the product is the parity of the number of pairs of coefficients i and k - i that are both set |

## Left out

- Mman.Allocator.Mmap: file contents, protection and flags arguments, statistics and the mutex are left out; pointers inside headers are kept as page numbers times 65536.
- Mman.Allocator.Munmap: part of a mapping, a wrong length or length 0 is outside its contract.
- Specialise.SpecialisedRuns: specialises one instruction, see `Jit.CompiledRuns` for all of them; needs the fast carry to be right where CF is needed from the fast form; `EmittedAgrees` shows this is needed. Hosts with x86 intrinsics use other fast forms.
- Programs.SpecialisedPrograms: likewise.
- Jit.CompiledRuns: about programs of ALU, Jcc, SETcc, CMOVcc and JMP instructions; the same condition on the fast carry, and that of `FusedTestExact` on a fused test, at each instruction run.
- Fusion.FusedRuns: stops being a claim about later states at a call, return or system call; `StaleAtBoundary` covers that instruction.
- Liveness.DeadFlags: likewise; table rows for instructions other than ALU, Jcc, SETcc, CMOVcc and JMP are a hypothesis, on the runs compared only in `DeadFlagsOnRuns`.
- LockedRmw.Linearizable: excludes ADC and SBB, see `AdcBreaks`, and `LinearizableExact` for runs with them; misaligned words under the bus lock and overlapping words of different widths are not modelled.
- Fusion.FusedTestExact: about where control goes; that the fused test of a memory operand does not load it, so that a fault is missed, is not modelled.
- ICache.Machine.LoadInstruction2: InvalidateSystem is modelled as setting the flag before the next load; races on that flag are not modelled.
- Crc32.Crc.Castagnoli: the race between two threads both initialising the table is not modelled.
- Fds.System.SysClose: directory streams and per-descriptor callbacks are one abstract close; signal masks are left out.
- DIV, IDIV, MUL and IMUL at 8, 16 and 32 bits, which use the host's wider arithmetic.
- ROL, ROR, double shifts, BZHI, MULX and the other BMI2 instructions: short expressions.
- The JIT's code emission beyond the micro-operations of a fused branch, and its hook table and edge map.
- The x87 unit, SSE, floating point conversions: host floating point.
- The disassembler, the ELF loader, cpuid, the terminal interface, the BIOS, file systems and ioctl wrappers.

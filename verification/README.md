# A verified model of the BrcdChain interpreter and its surroundings

This project models, in Dafny 4.11, the parts of BrcdChain whose correctness rests on invariants
rather than on one function: the bytecode interpreter with its in-place optimiser, the modular
exponentiation precompile and its price, the production of block gas limits against their
verification, the serialisation of transactions, and the storage and vote history of accounts.
`dafny verify dfyconfig.toml` checks all of it.

## How it is built

The interpreter is modelled twice.

* `Machine`, `Interpreter` and `Execution` specify it on values: a stack that is a sequence with its
  top first, unbounded integers for gas and sizes, one function per instruction, and `Run`, which is
  total, so every run and every tree of nested calls terminates. `Runs`, `Calls`, `Casts`,
  `Optimizer`, `Pool` and `Detour` prove what holds over whole runs and call trees. `Effects`,
  `Arithmetic`, `Fees` and `Outcomes` say of one instruction, by its opcode and by positions on the
  stack, what it sends, writes, pushes and costs and exactly when it goes through, in laws that use none
  of the functions that compute it.
* `VirtualMachine` has the object of the sources: a stack growing downwards in an array behind two
  pointers, registers for gas and memory size with 64-bit wrap-around written out, handlers that
  update fields one by one, arithmetic by masks and shifts where the specification has two's
  complement, loops that rewrite the code in place (`Loops`). `Interpreted` proves that
  the object computes `Execute`. Since nothing wraps in the specification, no 64-bit sum wraps in the
  object; since the object's array accesses are checked, no stack or code access is out of bounds.

The optimiser is a parameter (`pooled`), as `EVM_OPTIMIZE` is in the sources. Its correctness is
stated for all codes whose long constants the 16-bit pool offsets recover, a condition on the code
alone. `Pool` shows that it is the exact condition for the constants and that 458752 bytes of code imply
it and 458753 do not; `Detour` has a code of 458766 bytes whose execution the optimiser changes.

The world outside the interpreter is a `Host`: arbitrary functions of the trace of all state-changing
requests made so far, so any deterministic stateful client is covered. The one assumption on it,
`Honest`, is that it never hands back more gas than it was given; with the optimiser on, `Compact`
asks that the long constants of the codes it runs are recoverable. The transaction context is constant during
an execution. Keccak and the other hashes are uninterpreted functions. The metrics tables of all
revisions are written out in `Instructions`.

`Words` and `Alu` hold the arithmetic; `Modexp`, `GasLimit`, `Rlp`, `RlpStreams`, `Transactions`,
`Storage` and `Snapshots` the other components, each in the form of its source: classes where objects
are updated, functions where values are computed. Integer widths are explicit: `Wrap32`, `Wrap64`,
`Wrap256` and `Int32`.

## Findings

Where a promise of the sources fails, the code is modelled as it is and the exact condition is proved.

* Pool offsets are cut to 16 bits: the constants are kept if and only if each offset leads to an equal
  constant (`Pool.RecoverableExact`), which one byte above 458752 can fail (`Pool.LimitTight`); a run from
  the initial state that ends differently has 458766 bytes (`Detour.OptimizerChangesRun`).
* MLOAD, MSTORE and MSTORE8 address memory through a 32-bit cast: some run of a message loses bits if and
  only if its gas reaches the price of 2^32 + 32 bytes of memory and five units (`Casts.CastsExact`).
* The comment that too long operands of the modular exponentiation are too expensive holds for gas
  below 922337203685477568 (`Modexp.PaidIsRepresentable`, `Modexp.PaidLimitTight`).
* A produced gas limit is accepted only if the parent's limit is at least the divisor
  (`GasLimit.ProducedAccepted`, `GasLimit.RejectedChild`), and the floor is not reached from every accepted
  limit (`GasLimit.ReachesFloor`, `GasLimit.NeverReached`); with the default parameters both always hold.
* A transaction whose receiver is written as an empty list is read as a creation and re-encodes
  differently (`Transactions.Canonical`, `Transactions.NotCanonical`); all chain ids up to 0 share one
  signing payload (`Transactions.SigningInjective`).
* Taking back a wipe of storage restores the trie but not the pending writes that were there
  (`Storage.RollbackExact`, `Storage.PendingWriteLost`), and a wipe at the empty root wipes nothing
  (`Storage.WipeExact`, `Storage.WriteSurvivesWipe`).
* Assigning a vote snapshot to itself empties it (`Snapshots.VoteSnapshot.Assign`).
* The counter of the snapshot loop is a 256-bit word: up to the round 2^256 - 1 the loop never ends, and from
  that latest round it starts again at 0 (`Snapshots.CounterExact`, `Snapshots.WrapRecordsZero`); the callers
  pass rounds of 32 bits, for which neither happens.

## Model

| member | source | states |
|---|---|---|
| `Alu.SDivCorrect` | libbrcd-interpreter/VM.cpp:595-603 | SDIV as coded (two's complement through 512-bit division) is division rounding towards zero on signed values, 0 for divisor 0, and wraps for -2^255 / -1 |
| `Alu.SModCorrect` | libbrcd-interpreter/VM.cpp:614-621 | SMOD as coded is the remainder with the sign of the dividend, 0 for divisor 0 |
| `Alu.SignedCompareCorrect` | libbrcd-interpreter/VM.cpp:650-670 | SLT and SGT by sign bits and unsigned comparison are the signed comparisons |
| `Alu.SarCorrect` | libbrcd-interpreter/VM.cpp:758-787 | SAR by shift and mask is the floor of the signed value divided by 2^shift, for every shift including 0 and 256 and above (EIP-145) |
| `Alu.SignExtendCorrect` | libbrcd-interpreter/VM.cpp:807-823 | SIGNEXTEND by bit test and masks keeps the signed value of the low bytes; positions of 31 and above change nothing |
| `Alu.ByteOfCorrect` | libbrcd-interpreter/VM.cpp:717-724 | BYTE selects the i-th byte of the big-endian form |
| `Alu.Exp256` | libbrcd-interpreter/VMOpt.cpp:168-180 | square-and-multiply with wrap-around returns base^exponent mod 2^256 and terminates |
| `Alu.OrHighMask` | libbrcd-interpreter/VM.cpp:807-823 | or-ing the complement of a mask sets exactly the bits above it, which SAR and SIGNEXTEND rely on |
| `Alu.AndLowMask` | libbrcd-interpreter/VM.cpp:807-823 | and-ing a mask of t ones is the remainder modulo 2^t |
| `Machine.GasForMemMonotone` | libbrcd-interpreter/VM.cpp:184-190 | the memory price never falls with size |
| `Machine.GasForMemExact` | libbrcd-interpreter/VM.cpp:184-190 | the price of w words of memory is three units a word and the whole 512th parts of w * w, stated without the quotient |
| `Interpreter.ExpandOk` | libbrcd-interpreter/VM.cpp:199-214 | growing memory: paid memory gas rises by the difference of gasForMem, the access lies inside afterwards, old contents stay, no gas is lost |
| `Interpreter.StepCallOk` | libbrcd-interpreter/VMCalls.cpp:158-285 | a call keeps metering; the 2300 stipend is covered by the 9000 charged, so caller plus callee gas falls |
| `Interpreter.SendCallOk` | libbrcd-interpreter/VMCalls.cpp:238-285 | from the call gas on: gas of caller and message together falls, depth rises by one and stays within 1024, a static frame sends only static messages |
| `Interpreter.StepCreateOk` | libbrcd-interpreter/VMCalls.cpp:96-156 | CREATE and CREATE2 keep metering, and never send anything in a static frame |
| `Interpreter.StepAlwaysOk` | libbrcd-interpreter/VM.cpp:274-1446 | every instruction on any program and host: memory grows by whole paid words, gas is conserved and strictly falls unless the frame stops, depth of stack and nesting stay bounded, in static mode only harmless events |
| `Effects.CallSends` | libbrcd-interpreter/VMCalls.cpp:189-286 | CALL, CALLCODE, DELEGATECALL and STATICCALL on `Step`: destination from the second word; input window from words 3 and 4 (2 and 3 without a value), read from the grown memory; output window from the two words behind; kind, sender, value, mode and gas of the message by opcode; made exactly when value is covered and depth allows |
| `Effects.CreateSends` | libbrcd-interpreter/VMCalls.cpp:96-156 | CREATE and CREATE2: endowment, window of the code and salt by stack position, and the sender keeps a 64th |
| `Effects.AnswerTaken` | libbrcd-interpreter/VMCalls.cpp:158-187 | after a nested execution: 1 or 0, or the address made, on the stack; the output is kept; the output window holds it as far as both reach and every other byte of memory stays; the gas comes back |
| `Effects.CalleeExecutes` | libbvm/ExtVMFace.cpp:193-216 | a nested execution is `Execute` of the code found, with the gas, depth, mode, sender, value and input of the message |
| `Effects.JumpGoes` | libbrcd-interpreter/VM.cpp:1250-1280 | JUMP of the original code, optimised or not, goes to the top word if that is a destination and at most 2^63 - 1, and faults otherwise |
| `Effects.JumpiGoes` | libbrcd-interpreter/VM.cpp:1258-1296 | JUMPI of the original code: on 0 the run goes on behind it whatever the destination, otherwise it jumps like JUMP |
| `Effects.PushPushes` | libbrcd-interpreter/VM.cpp:1174-1248 | PUSHn of the original code, optimised or not, pushes its n bytes as a big-endian number, zeros beyond the end, and goes on behind them |
| `Effects.StackMoves` | libbrcd-interpreter/VM.cpp:1165-1351 | POP, DUPn and SWAPn, position by position |
| `Effects.StoreWrites` | libbrcd-interpreter/VM.cpp:409-428 | MSTORE and MSTORE8: the 32 bytes, or the one byte, at the offset are the number of the second word; every other byte is as before or 0 |
| `Effects.Sha3Hashes` | libbrcd-interpreter/VM.cpp:430-444 | SHA3 pushes the hash of the window given by its two words |
| `Effects.ReturnGives` | libbrcd-interpreter/VM.cpp:323-353 | RETURN and REVERT hand out the window given by their two words, with their own status |
| `Effects.LogLogs` | libbrcd-interpreter/VM.cpp:446-538 | LOGn records the account, the window and the next n words as topics, in order, and nothing else |
| `Effects.StoreChanges` | libbrcd-interpreter/VM.cpp:1365-1398 | SSTORE asks for the second word under the key of the first, in the account that runs, and faults in static mode |
| `Effects.DestructChanges` | libbrcd-interpreter/VM.cpp:355-384 | SELFDESTRUCT names the running account and the one of the top word, and faults in static mode |
| `Effects.CopyCopies` | libbrcd-interpreter/VM.cpp:990-1065 | the copy instructions: byte by byte the source from the index on, zeros behind its end, in the window; memory outside it as before or 0 |
| `Effects.QueryAsks` | libbrcd-interpreter/VM.cpp:896-988 | the instructions that ask the state push the host's answer about the account or key of the top word |
| `Effects.ArithmeticPushes` | libbrcd-interpreter/VM.cpp:540-823 | an arithmetic instruction replaces its operands by one word and touches nothing else |
| `Effects.EnvironmentPushed` | libbrcd-interpreter/VM.cpp:878-1163 | the instructions without operands push the field of the message or context they are named for |
| `Arithmetic.SumLaws` | libbrcd-interpreter/VM.cpp:557-584 | ADD, MUL and SUB are the sum, product and difference modulo 2^256 |
| `Arithmetic.QuotientLaws` | libbrcd-interpreter/VM.cpp:586-612 | DIV and MOD: dividend = quotient * divisor + remainder with the remainder below the divisor, both 0 for divisor 0 |
| `Arithmetic.ModularLaws` | libbrcd-interpreter/VM.cpp:789-805 | ADDMOD and MULMOD: the result is below the modulus and differs from the unbounded sum or product by a multiple of it; 0 for modulus 0 |
| `Arithmetic.SignedLaws` | libbrcd-interpreter/VM.cpp:595-621 | SDIV and SMOD together: a = q * b + r with |r| < |b| and the sign of a; the smallest word over -1 is itself |
| `Arithmetic.ShiftRightLaw` | libbrcd-interpreter/VM.cpp:758-787 | SAR gives the largest integer that times 2^shift does not exceed the signed word |
| `Arithmetic.ShiftLaws` | libbrcd-interpreter/VM.cpp:726-756 | SHL is the product modulo 2^256 and SHR the floor, 0 from shift 256 on |
| `Arithmetic.CompareLaws` | libbrcd-interpreter/VM.cpp:632-688 | the six comparisons, signed and unsigned |
| `Arithmetic.BitLaws` | libbrcd-interpreter/VM.cpp:690-715 | AND, OR and XOR bit by bit |
| `Arithmetic.ExtensionLaw` | libbrcd-interpreter/VM.cpp:807-823 | SIGNEXTEND: the signed value has the width of the chosen bytes and is congruent to the word modulo it |
| `Arithmetic.OtherLaws` | libbrcd-interpreter/VM.cpp:540-555 | BYTE counts from the most significant byte, EXP is the power modulo 2^256, SIGNEXTEND from byte 31 on changes nothing |
| `Fees.TierTaken` | bvmc/lib/instructions/instruction_metrics.c:29-306 | every instruction with a fixed price costs that of its tier and the memory it adds |
| `Fees.AskTaken` | bvmc/lib/instructions/instruction_metrics.c:29-306 | BALANCE, EXTCODESIZE, EXTCODEHASH and SLOAD by revision |
| `Fees.ExpTaken` | libbrcd-interpreter/VM.cpp:540-555 | EXP costs 10 and 10, from Spurious Dragon on 50, for each byte of the exponent |
| `Fees.Sha3Taken` | libbrcd-interpreter/VM.cpp:430-444 | SHA3 costs 30 and 6 for each word hashed |
| `Fees.LogTaken` | libbrcd-interpreter/VM.cpp:446-538 | LOGn costs 375, 375 for each topic and 8 for each byte |
| `Fees.CopyTaken` | libbrcd-interpreter/VM.cpp:990-1065 | the copies cost their base and 3 for each word |
| `Fees.SstoreTaken` | libbrcd-interpreter/VM.cpp:1365-1398 | SSTORE by status and revision, with the 2300 minimum from Istanbul on |
| `Fees.DestructTaken` | libbrcd-interpreter/VM.cpp:355-384 | SELFDESTRUCT costs 5000, and 25000 more when it makes an account |
| `Fees.ControlTaken` | libbrcd-interpreter/VM.cpp:1195-1267 | pushes cost 3, JUMP 8 and JUMPI 10 |
| `Fees.CallTaken` | libbrcd-interpreter/VMCalls.cpp:189-249 | a call costs 700 or 40, 25000 for a new account, 9000 for a transfer, the memory it adds and the gas of the message without the stipend; a refused one gets that gas back with the stipend and leaves 0 on the stack |
| `Fees.CreateFeeTaken` | libbrcd-interpreter/VMCalls.cpp:96-112 | a creation costs 32000, and CREATE2 six for each word of the code besides |
| `Outcomes.SucceedsExactly` | libbrcd-interpreter/VM.cpp:171-235 | every instruction of every code, optimised or not: it goes through if and only if the revision has it, the stack holds its words and has room, static mode and destination allow it, and its fee and the memory it reaches can be paid; so the 63-bit overflow guards refuse nothing that could be paid; memory then has just the words it reaches, and the error of a failure is the one of its cause |
| `Outcomes.PaddingStops` | libbrcd-interpreter/VMOpt.cpp:31-40 | behind the code an execution stops, without a charge |
| `Code.DestsFromExact` | libbrcd-interpreter/VMOpt.cpp:51-80 | from any boundary on, the table is strictly increasing and holds exactly the JUMPDEST bytes at instruction boundaries |
| `Code.DestsExact` | libbrcd-interpreter/VMOpt.cpp:51-80 | the table of the whole code holds exactly the valid destinations of section 9.4.3 of the Yellow Paper, never push data |
| `Code.BoundaryLimit` | libbrcd-interpreter/VMOpt.cpp:31-44 | no instruction boundary lies more than 32 bytes behind the code |
| `Loops.BuildTable` | libbrcd-interpreter/VMOpt.cpp:42-80 | the first loop leaves the padded code with synthetic opcodes disabled and returns the table |
| `Loops.FirstPass` | libbrcd-interpreter/VMOpt.cpp:82-155 | the second loop, in place, leaves the rewritten code and the constant pool of the specification |
| `Loops.DecodePush` | libbrcd-interpreter/VMOpt.cpp:95-98 | the decoding loop yields the big-endian constant |
| `Loops.BinarySearch` | libbrcd-interpreter/VMCalls.cpp:80-84 | binary search finds a position exactly when it is in the table |
| `Loops.VerifyJumpDest` | libbrcd-interpreter/VMCalls.cpp:75-89 | the destination if it is at most 2^63 - 1 and in the table, else -1 |
| `Loops.CheckJump` | libbrcd-interpreter/VMCalls.cpp:75-89 | with the table of a code, a 256-bit destination is accepted iff it is a JUMPDEST at an instruction boundary |
| `Optimizer.PassFrame` | libbrcd-interpreter/VMOpt.cpp:85-153 | the pass never changes what lies behind it, and never a byte at an instruction that is no push |
| `Optimizer.PassShaped` | libbrcd-interpreter/VMOpt.cpp:85-153 | for every code: all instructions but long pushes stay or become direct jumps, a long push becomes PUSHC with the right remainder, and a direct jump follows a verified constant |
| `Optimizer.PoolExact` | libbrcd-interpreter/VMOpt.cpp:105-118 | the pool is the list of the constants of more than five bytes, in code order, read off the original code |
| `Optimizer.Stashed` | libbrcd-interpreter/VMOpt.cpp:105-118 | every long push has a pool entry with its constant, and the low 16 bits of that entry's position in its code |
| `Optimizer.KeptAt` | libbrcd-interpreter/VMOpt.cpp:85-153 | if the offsets recover the constants, every instruction survives unchanged, as a PUSHC that finds its constant, or as a direct jump whose predecessor pushes a verified destination |
| `Optimizer.OptimizedLoaded` | libbrcd-interpreter/VMOpt.cpp:42-155 | the finished program is then faithful to the code at every boundary |
| `Optimizer.PoolBound` | libbrcd-interpreter/VMOpt.cpp:105-118 | seven bytes of code for each long constant |
| `Optimizer.PoolFits` | libbrcd-interpreter/VMOpt.cpp:105-118 | up to 458752 bytes of code the offsets recover the constants |
| `Optimizer.TrackFetchable` | libbrcd-interpreter/VMOpt.cpp:31-44 | every code byte and pool entry a tracked state reads exists; 33 bytes of padding suffice |
| `Optimizer.StepOnTrack` | libbrcd-interpreter/VM.cpp:1174-1296 | after any step the program counter is again on a boundary of the original code, and a direct jump is reached only with its verified destination on top |
| `Optimizer.StepAgrees` | libbrcd-interpreter/VM.cpp:1174-1296 | from every tracked state the optimised program takes exactly the step of the plain one: same counter, stack, memory, gas and outcome |
| `Pool.RecoverableExact` | libbrcd-interpreter/VMOpt.cpp:105-118 | the optimiser keeps every constant if and only if each long constant of the code equals the one whose position among them is its own position modulo 65536 |
| `Pool.CollisionShows` | libbrcd-interpreter/VM.cpp:1174-1193 | where an offset leads to another constant, some PUSH of the code pushes a wrong word from every state that can execute it |
| `Pool.LimitTight` | libbrcd-interpreter/VMOpt.cpp:105-118 | the offsets of a code of 458753 bytes need not recover its constants: 65536 PUSH6 and one more |
| `Pool.LongCodeExists` | libbrcd-interpreter/VMOpt.cpp:105-118 | that code exists |
| `Detour.OptimizerChangesRun` | libbrcd-interpreter/VMOpt.cpp:105-118 | a code of 458766 bytes whose run from the initial state the optimiser changes, on every honest host: as it is it destroys the contract in favour of account 0, optimised in favour of another account |
| `Detour.DetourExists` | libbrcd-interpreter/VMOpt.cpp:105-118 | the code of that run exists |
| `Detour.HaltEndsRun` | libbrcd-interpreter/VM.cpp:262-266 | a state from which iterated instructions halt has that end as its run |
| `Execution.Advance` | libbrcd-interpreter/VM.cpp:274-1446 | one instruction with the nested execution it causes: never leaves a message open, and strictly lowers the gas unless the frame stops |
| `Execution.Run` | libbrcd-interpreter/VM.cpp:262-266 | every run on every code terminates (by gas, and by depth for nested runs) and leaves no more gas than it had |
| `Execution.Nested` | libbvm/ExtVMFace.cpp:193-225 | a nested execution terminates and returns no more gas than it was given, on a host that never returns more than it received |
| `Execution.Execute` | libbrcd-interpreter/VM.cpp:24-98 | never more gas comes back than the message had, and none and no output unless it ended in success or REVERT |
| `Execution.NextReady` | libbrcd-interpreter/VM.cpp:225-235 | a step from a ready state keeps metering and leads to a ready state |
| `Execution.ResumeReady` | libbrcd-interpreter/VMCalls.cpp:158-187 | coming back from a nested execution leads to a ready state with less gas than before the message |
| `Runs.ReachableStates` | libbrcd-interpreter/VM.cpp:184-235 | at every reachable state: boundary program counter, reads within the padding, at most 1024 words of stack, memory of whole words with memory gas equal to gasForMem of its size, all gas accounted for, at least one unit paid per instruction |
| `Runs.RunMetered` | libbrcd-interpreter/VM.cpp:184-214 | over a whole run memory never shrinks and its gas telescopes; gas in hand plus gas accounted is constant |
| `Runs.AdvanceStatic` | libbrcd-interpreter/VM.cpp:283-384 | one instruction below a static message, nested executions included, causes harmless events only |
| `Runs.RunStatic` | libbrcd-interpreter/VM.cpp:446-538 | over every run and its whole call tree a static frame causes no storage write, log, self-destruct, creation or CALL with value, and sends only static messages (EIP-214) |
| `Runs.NestedStatic` | libbrcd-interpreter/VMCalls.cpp:212-213 | the static flag is inherited by the callee and everything below it |
| `Runs.TreeBound` | libbrcd-interpreter/VMCalls.cpp:96-187 | all host interactions of the whole call tree, bar one, are paid with at least a unit of the outermost gas each |
| `Runs.RunAgrees` | libbrcd-interpreter/VMOpt.cpp:82-153 | a run of the optimised program ends exactly as the run of the plain one |
| `Runs.OptimizerPreservesExecution` | libbrcd-interpreter/VMOpt.cpp:82-153 | status, gas, output and history of host interactions are the same with and without the optimiser, through every nested call |
| `Runs.ShortCodePreserved` | libbrcd-interpreter/VMOpt.cpp:82-153 | in particular when all codes have at most 458752 bytes |
| `Calls.OfferedKeeps` | libbrcd-interpreter/VMCalls.cpp:239-245 | from Tangerine Whistle on at least a 64th is kept, and exactly that when the request was cut |
| `Calls.SenderKeeps64th` | libbrcd-interpreter/VMCalls.cpp:238-249 | whoever sends a message keeps a 64th of the gas left after the fixed charges (EIP-150), for CALL and CREATE alike |
| `Calls.SenderOf` | libbrcd-interpreter/VM.cpp:283-321 | only the call and create instructions send messages |
| `Calls.CallConserves` | libbrcd-interpreter/VMCalls.cpp:158-285 | gas before the message equals gas after the answer plus the charges of the instruction (base, new account and value transfer; creation and hashing) plus the price of the memory added plus what the callee used minus the stipend, whatever the answer, for calls and creations |
| `Calls.RefusedConserves` | libbrcd-interpreter/VMCalls.cpp:180-186 | a call refused for want of balance or depth pushes 0, costs those charges and that memory, and leaves the stipend with the caller |
| `Casts.LossyCosts` | libbrcd-interpreter/VM.cpp:399-428 | a run in which MLOAD, MSTORE or MSTORE8 succeeds with an offset that its 32-bit cast changes had at least the price of 2^32 + 32 bytes of memory and five units: two for the word on the stack and three for the access |
| `Casts.CastsExact` | libbrcd-interpreter/VM.cpp:399-428 | on every honest host some run of a message with that gas uses a lossy cast if and only if the gas reaches that sum |
| `Calls.LoadAfterStore` | libbrcd-interpreter/VM.cpp:399-418 | MLOAD returns what MSTORE wrote at the same offset and pays for no more memory |
| `Calls.AlreadyPaid` | libbrcd-interpreter/VM.cpp:199-214 | memory that has been paid for is not paid for again |
| `VirtualMachine.VM.UpdateGas` | libbrcd-interpreter/VM.cpp:199-206 | 64-bit sums equal the unbounded ones |
| `VirtualMachine.VM.UpdateMem` | libbrcd-interpreter/VM.cpp:208-214 | memory grows as the specification says, rounded up to whole words in 64 bits |
| `VirtualMachine.NothingWraps` | libbrcd-interpreter/VM.cpp:199-214 | the sums of the run gas stay below 2^64 |
| `VirtualMachine.SliceCast` | libbrcd-interpreter/VM.h:145-152 | offset and size of a paid access survive their 64-bit casts |
| `VirtualMachine.CreateBaseBounded` | libbrcd-interpreter/VMCalls.cpp:107-115 | the charge of CREATE2 leaves room in 64 bits for any memory price because its size fits 63 bits |
| `VirtualMachine.HeightsSuffice` | bvmc/lib/instructions/instruction_metrics.c:29-306 | the metrics table demands the operands each handler takes and records its change of height |
| `VirtualMachine.VM.AdjustStack` | libbrcd-interpreter/VM.cpp:172-182 | the two pointers move to operands and results; underflow and overflow are told apart |
| `VirtualMachine.VM.FetchInstruction` | libbrcd-interpreter/VM.cpp:225-235 | the fetch resets both pointers from the result pointer alone, so a stray decrement of the other has no effect, and sets the fees |
| `VirtualMachine.VM.CaseAlu` | libbrcd-interpreter/VM.cpp:540-823 | arithmetic handlers on the array stack do the abstract step, SDIV's stray decrement included |
| `VirtualMachine.VM.AluOf` | libbrcd-interpreter/VM.cpp:540-823 | each arithmetic instruction as coded yields its value by the Yellow Paper's definition |
| `VirtualMachine.VM.SignedOrBitwise` | libbrcd-interpreter/VM.cpp:595-823 | the signed instructions as coded, with masks, shifts and wide intermediates, yield the two's-complement values |
| `VirtualMachine.VM.ExpGas` | libbrcd-interpreter/VM.cpp:540-546 | EXP pays per byte of its exponent |
| `Alu.FirstBitSet` | libdevcore/FixedHash.h:185-197 | the nested loops find the index of the first bit set, or the number of bits if none is; over 8 it is the number of leading zero bytes |
| `Alu.LengthByZeros` | libbrcd-interpreter/VM.cpp:540-546 | 32 less the leading zero bytes is the byte length of the number |
| `VirtualMachine.VM.CallDataLoad` | libbrcd-interpreter/VM.cpp:926-946 | the three branches all give the 32 bytes at the offset of the input followed by zeros |
| `VirtualMachine.VM.CasePop` | libbrcd-interpreter/VM.cpp:1165-1172 | POP drops the top whatever becomes of the operand pointer |
| `VirtualMachine.VM.CopyDataToMemory` | libbrcd-interpreter/VMCalls.cpp:7-20 | memory receives the data there is and then zeros, and nothing else changes |
| `VirtualMachine.VM.CasePushc` | libbrcd-interpreter/VM.cpp:1174-1193 | PUSHC reads pool offset and remainder |
| `VirtualMachine.VM.CaseJump` | libbrcd-interpreter/VM.cpp:1250-1280 | JUMP and JUMPC |
| `VirtualMachine.VM.CaseJumpi` | libbrcd-interpreter/VM.cpp:1258-1296 | JUMPI and JUMPCI |
| `VirtualMachine.VM.CaseCreate` | libbrcd-interpreter/VMCalls.cpp:96-156 | CREATE and CREATE2, the nested execution included |
| `VirtualMachine.VM.CaseCall` | libbrcd-interpreter/VMCalls.cpp:158-285 | the four call instructions, the nested execution included |
| `VirtualMachine.VM.InterpretOne` | libbrcd-interpreter/VM.cpp:274-1446 | one fetch and one pass through the switch do exactly one abstract step, answers of nested executions included |
| `VirtualMachine.VM.constructor` | libbrcd-interpreter/VM.cpp:249-267 | the entry of `exec` with `initEntry` leaves the loaded program and the initial state |
| `VirtualMachine.VM.Interpret` | libbrcd-interpreter/VM.cpp:262-268 | the loop ends the frame as the specification of whole runs says |
| `VirtualMachine.Interpreted` | libbrcd-interpreter/VM.cpp:24-98 | the interpreter with its array stack, two pointers and 64-bit registers computes the specification of whole executions, for every code, message and suitable host, with and without the optimiser |
| `Modexp.ParseBigEndianRightPadded` | libbrccore/Precompiled.cpp:83-101 | crop and shift give the number in the window of the input continued with zeros, for windows inside, across and behind the end |
| `Modexp.FromBigEndian` | libdevcore/CommonData.h:114-121 | the loop gives the big-endian number |
| `Modexp.ToBigEndian` | libdevcore/CommonData.h:100-109 | the loop fills the buffer with the big-endian form |
| `Modexp.MsbBounds` | libbrccore/Precompiled.cpp:133-139 | the top bit index k of x has 2^k <= x < 2^(k+1) |
| `Modexp.ExpLengthCovers` | libbrccore/Precompiled.cpp:129-142 | the adjusted exponent length is at least the top bit of the full exponent, with equality if and only if the length is at most 32 or the first word is not zero |
| `Modexp.ComplexityMonotone` | libbrccore/Precompiled.cpp:144-152 | the piecewise complexity never falls, across both breakpoints |
| `Modexp.PriceCovers` | libbrccore/Precompiled.cpp:155-165 | the price is at least complexity times the true top bit (or 1) over 20, for every length up to the longer operand |
| `Modexp.PaidIsRepresentable` | libbrccore/Precompiled.cpp:108-112 | whoever pays less than 922337203685477568 passes lengths that satisfy the executor's assertions |
| `Modexp.PaidLimitTight` | libbrccore/Precompiled.cpp:108-112 | at exactly that price there is an input whose exponent length does not |
| `Modexp.Execute` | libbrccore/Precompiled.cpp:103-127 | the output has exactly the length of the modulus and holds base^exponent mod modulus, 0 for modulus 0 |
| `Modexp.Layout` | libbrccore/Precompiled.cpp:105-119 | on three length words and then base, exponent and modulus, the executor reads exactly these |
| `Modexp.ExecuteOn` | libbrccore/Precompiled.cpp:103-126 | for all byte strings B, E, M of representable length, the precompile on their EIP-198 layout returns |M| bytes that are B^E mod M, 0 for M = 0 |
| `Modexp.PriceOn` | libbrccore/Precompiled.cpp:130-165 | the price of that layout by |B|, |M| and the first word of E |
| `Modexp.ComplexityExact` | libbrccore/Precompiled.cpp:145-153 | the three pieces of the complexity without their quotients |
| `GasLimit.QuotientIsDivision` | libbrccore/SealEngine.cpp:240-251 | the quotient used is integer division |
| `GasLimit.BlockHeader.PopulateFromParent` | libbrccore/SealEngine.cpp:16-21 | the header inherits, uses nothing yet, and from limits in range passes the limit test if and only if the parent's limit is at least the divisor |
| `GasLimit.RejectedChild` | libbrccore/SealEngine.cpp:97-112 | a valid limit below the divisor whose child is rejected |
| `GasLimit.NeverReached` | libbrccore/SealEngine.cpp:240-251 | a limit from which every block is accepted and none has the floor |
| `GasLimit.ProducedValue` | libbrccore/SealEngine.cpp:240-251 | on limits in range the 256-bit arithmetic is exact, but for the limit 0, which jumps to the floor |
| `GasLimit.BoundsExact` | libbrccore/SealEngine.cpp:97-112 | on limits in range the test of `verify` is the open interval of one bound around the parent's limit |
| `GasLimit.ProducedAccepted` | libbrccore/SealEngine.cpp:240-251 | for every floor in range: accepted if and only if the parent's limit is at least the divisor |
| `GasLimit.RisesWhenFull` | libbrccore/SealEngine.cpp:240-252 | at or above the floor the limit rises exactly when six fifths of the gas used come to as many whole divisors as the limit |
| `GasLimit.ChainAccepted` | libbrccore/SealEngine.cpp:97-112 | every block of a whole chain is accepted on top of its parent |
| `GasLimit.Closer` | libbrccore/SealEngine.cpp:240-251 | a converging limit gets strictly closer to the floor; the floor stays |
| `GasLimit.Stuck` | libbrccore/SealEngine.cpp:240-251 | a limit that is not converging stays so |
| `GasLimit.ReachesFloor` | libbrccore/SealEngine.cpp:240-251 | the floor is reached if and only if the limit is the floor, or below it and at least twice the divisor, or above it with the floor at least twice the divisor less one; within as many blocks as the limits differ, and for good |
| `GasLimit.DefaultsConverge` | libbrccore/ChainOperationParams.cpp:25-35 | with the default parameters the limit reaches 3141562 from every valid limit, stays there, and every block on the way is accepted |
| `Rlp.HeaderParses` | libdevcore/RLP.cpp:134-190 | the reader reads back every prefix the stream writes |
| `Rlp.EncodedWhole` | libdevcore/RLP.cpp:271-290 | encoded data is one item holding the data |
| `Rlp.DataForm` | libdevcore/RLP.cpp:271-290 | data in the form of the Yellow Paper: a byte below 0x80 for itself, up to 55 bytes behind 0x80 + length, more behind 0xb7 + the number of length bytes and the length without leading zero |
| `Rlp.ListForm` | libdevcore/RLP.cpp:261-269 | a list likewise behind 0xc0 + length or 0xf7 + the number of length bytes and the length |
| `Rlp.ToIntOfEncoded` | libdevcore/RLP.h:247-268 | a number comes back from its compact form |
| `Rlp.DataCanonical` | libdevcore/RLP.cpp:94-105 | data has one accepted encoding only |
| `Rlp.IntCanonical` | libdevcore/RLP.cpp:107-132 | a number has one accepted encoding only |
| `Rlp.ListCanonical` | libdevcore/RLP.cpp:134-190 | a list prefix has one accepted form only |
| `Rlp.ReadEncoded` | libdevcore/RLP.cpp:66-81 | a flat list is read back item by item |
| `Rlp.SplitJoins` | libdevcore/RLP.cpp:192-203 | the items of a list are its payload, cut |
| `Rlp.ListInjective` | libdevcore/RLP.cpp:212-249 | different flat lists have different encodings |
| `RlpStreams.RLPStream.NoteAppended` | libdevcore/RLP.cpp:212-249 | an item counts for the innermost open list; each list that becomes complete gets its header before its first byte and is itself an item of the next |
| `RlpStreams.RLPStream.AppendRaw` | libdevcore/RLP.cpp:205-249 | bytes that make up several items are counted against the innermost list, and refused when it lacks fewer |
| `RlpStreams.RLPStream.AppendList` | libdevcore/RLP.cpp:251-259 | a list is announced by its item count, an empty one is written at once |
| `RlpStreams.RLPStream.AppendInt` | libdevcore/RLP.cpp:292-315 | a number of any size is appended in its compact encoding |
| `RlpStreams.RLPStream.AppendData` | libdevcore/RLP.cpp:271-290 | data is appended in its encoding |
| `RlpStreams.PushInt` | libdevcore/RLP.h:430-437 | digits from the last to the first give the big-endian form |
| `Transactions.StreamRLP` | libbrccore/TransactionBase.cpp:158-192 | the stream gains one item: the list of six or nine fields in order; a missing signature throws |
| `Transactions.Serialize` | libbrccore/TransactionBase.h:101-101 | `rlp()` yields the encoding of the signed fields |
| `Transactions.SigningBytes` | libbrccore/TransactionBase.cpp:228-238 | what is hashed for signing: nine items for chain ids above 0, else six |
| `Transactions.RoundTrip` | libbrccore/TransactionBase.cpp:33-98 | decoding an encoded transaction whose v fits an int gives it back if and only if kind and address match and, for a real signature, the chain id is not negative, the recovery id is 0 or 1 and it passes the check asked for; for the zero signature, if its v is 0 |
| `Transactions.SignatureReadBack` | libbrccore/TransactionBase.cpp:59-84 | chain id and signature survive the v encoding and the 32-bit conversions in exactly those cases |
| `Transactions.ToReadBack` | libbrccore/TransactionBase.cpp:43-51 | kind and address come back if and only if they match |
| `Transactions.Canonical` | libbrccore/TransactionBase.cpp:33-98 | re-encoding a decoded transaction gives the same bytes if and only if its receiver item is not the empty list |
| `Transactions.NotCanonical` | libbrccore/TransactionBase.cpp:43-51 | ten bytes that are read as a creation and written back differently |
| `Transactions.SigningInjective` | libbrccore/TransactionBase.cpp:228-238 | two transactions have the same bytes to sign if and only if they have the same content and the same chain id, or both chain ids are at most 0 |
| `Transactions.SigningPayloadSays` | libbrccore/TransactionBase.cpp:158-192 | the bytes to sign read back as nonce, gas price, gas, receiver, value and data, and for a chain id above 0 behind them as the chain id, 0 and 0; six items otherwise |
| `Transactions.EncodingSays` | libbrccore/TransactionBase.cpp:158-192 | the signed form reads back with item 6 as 35 + 2 * chain id + v in 32 bits, or the chain id for the zero signature, then r and s |
| `Storage.Account.OriginalStorageValue` | libbrcdchain/Account.cpp:24-36 | the value of the trie at the current root, and every memoised value stays one |
| `Storage.Account.StorageValue` | libbrcdchain/Account.h:860-867 | the overlay's value if present, else the trie's |
| `Storage.Account.PerformAll` | libbrcdchain/Account.cpp:24-36 | under any sequence of writes, clears, root changes, kills and reads the account answers like one without memo, and the memo agrees with the trie throughout |
| `Storage.ReadsAfter` | libbrcdchain/Account.h:730-752 | after a kill, a clear or a new root every read answers like that trie, after a write the key reads as written and every other as before |
| `Storage.State.SetStorage` | libbrcdchain/State.cpp:2459-2463 | a write is logged with the value before it |
| `Storage.State.ClearStorage` | libbrcdchain/State.cpp:2473-2480 | a wipe is logged with the root before it, and does nothing at the empty root |
| `Storage.WipeExact` | libbrcdchain/State.cpp:2473-2480 | after a wipe the storage reads like the empty trie unless the root was empty already and a pending write differs from it |
| `Storage.WriteSurvivesWipe` | libbrcdchain/State.cpp:2473-2480 | a pending write that a wipe leaves |
| `Storage.State.RollbackTo` | libbrcdchain/State.cpp:2593-2684 | changes are undone from the last to the first after the savepoint |
| `Storage.RollbackExact` | libbrcdchain/State.cpp:2593-2684 | a rollback restores log, root and every value if and only if no wipe took effect or every pending write that differs from the trie was overwritten before the first wipe, with changes elsewhere in between |
| `Storage.PendingWriteLost` | libbrcdchain/State.cpp:2593-2684 | one pending write, one wipe, one rollback, and the write is gone |
| `Snapshots.VoteSnapshot.Assign` | libbrcdchain/Account.h:183-194 | the target becomes a copy of the source, but is emptied when it is the source |
| `Snapshots.Account.TryNewSnapshot` | libbrcdchain/Account.cpp:172-192 | the loop over rounds, with its 256-bit counter, computes the specification wherever it ends |
| `Snapshots.CounterExact` | libbrcdchain/Account.cpp:174-174 | the loop ends and runs for exactly the rounds after the latest up to the given one if and only if neither is 2^256 - 1 |
| `Snapshots.WrapRecordsZero` | libbrcdchain/Account.cpp:174-174 | from the latest round 2^256 - 1 it records round 0 |
| `Snapshots.Account.TryNewTempSnapshot` | libbrcdchain/Account.cpp:194-200 | returns what the real call would write and leaves the stored snapshot as it was |
| `Snapshots.Account.GetNoRecordSnapshot` | libbrcdchain/Account.cpp:202-209 | the last finished round, if it is above 0 and not recorded yet |
| `Snapshots.Account.Record` | libbrcdchain/State.cpp:3286-3293 | recording a block is the guarded snapshot |
| `Snapshots.SnapshotExtends` | libbrcdchain/Account.cpp:172-192 | a guarded snapshot keeps the three histories at exactly the rounds 1 to latest, changes no written round, and writes the batch: votes and polls of the moment, the income for the first new round |
| `Snapshots.ContiguousExactly` | libbrcdchain/Account.cpp:172-192 | a snapshot keeps the histories contiguous if and only if it does not go back |
| `Snapshots.HistoryStands` | libbrcdchain/Account.cpp:172-192 | over every run the histories stay contiguous and written rounds never change |
| `Snapshots.BatchTotal` | libbrcdchain/Account.cpp:173-190 | the block summaries of a batch add up to the income at its time |
| `Snapshots.IncomeConserved` | libbrcdchain/Account.cpp:173-190 | over every run the block summaries grow by exactly the incomes recorded |

## Left out

- The legacy interpreter in `libbvm`, the SIMD and subroutine opcodes (they only throw), tracing and console output.
- The inside of the host: state database, precompiles other than modular exponentiation, transfer of value, the account a creation makes; they are behind `Host.dispatch` and `Host.settle`.
- Cryptography: hashing, signing and recovery of the sender, so also `CheckTransaction::Everything` and the hash memos.
- Execution.Run: assumes with the optimiser on that the pool offsets of every code run recover its constants; without that a direct jump could follow a wrong constant.
- VirtualMachine.VM.CopyDataToMemory: the source index is not cast to 64 bits, because it is used only inside data whose size is a 64-bit number.
- VirtualMachine.VM.constructor: the code buffer is an array while the two loops rewrite it and a value afterwards; the instruction stream never changes once the loop of `exec` runs.
- VirtualMachine.VM.InterpretOne: the revision guards at the head of the handlers are tested once before the switch; both orders raise the same exception before anything is charged.
- Modexp.Execute: the library's modular power is the mathematical one; the operand lengths must satisfy the assertions of the source.
- Transactions.RoundTrip: a `v` outside the range of `int` is excluded, since the addition that makes it is then undefined.
- Transactions.StreamRLP: data of more than 2^63 - 1 bytes is excluded.
- Rlp.ReadEncoded: the index cache of the RLP reader is not modelled; items are found by position.
- GasLimit.ReachesFloor: the parameters must leave room for the sum of a limit and its bound in 256 bits. Difficulty is not modelled.
- GasLimit.RisesWhenFull: is stated for limits below 2^253 with no more gas used than the limit, where six times the gas used fits a word.
- Storage.State.RollbackTo: undoes the changes of one account, and of the kinds outside its storage only that they leave the storage alone.
- Storage.Account.PerformAll: a kill clears balances, votes and orders as well, which are not part of this account.
- Storage.RollbackExact: the two kinds of change that replace the whole account, its creation and the change of a miner, are left out; every other kind is covered, those outside the storage as one.
- Snapshots.Account.TryNewSnapshot: is stated for the rounds below 2^256 - 1; at that round the loop does not end (`Snapshots.CounterExact`).
- Snapshots.Account.Record: the error stage of the voting cycle and the creation of a missing account come before it, and the clearing of genesis votes after the first snapshot is a change of the account's contribution, which runs take as input.
- Block headers beyond the gas limit, poll ordering, miner replacement, exchange orders, networking, tools and JSON.

# Verified models of a processor teaching kit

The repository holds a cycle-accurate processor simulator (`core-project`), the cache exercise that
precedes it (`warmup-project`) and a program the simulator runs, which computes digits of pi
(`core-project/prog2`). This project models five of its parts in Dafny and proves what each is for. Classes
and methods follow the C and C++ code statement by statement; functions and datatypes beside them say what
the code means, and lemmas prove things about whole runs.

1. **Pi.** `arctan` runs long divisions and ripple additions over arrays of base-100 digits. It is proved to
   add exactly the floors of the terms of the arctangent series, modulo the array's range; the Machin run is
   proved never to lose a carry, to leave 3 in the first cell, and to stay within 2*size+2 units in the last
   place of every longer exact sum. The printers, in C and in hand-edited assembly, and the argument parser
   are proved to be inverse to each other, so the whole program is specified from argument text to output.
   Files: `Arithmetic`, `Digits`, `Ripple`, `LongDivision`, `Series`, `Arctan`, `Truncation`, `Machin`,
   `Printing`, `MagicDivision`, `Libc`, `PiMain`.
2. **Cache.** The clocked controller, with its delayed memories and its mirrored ways, is proved to refine an
   atomic direct-mapped store in every run and for every memory delay, to answer on time and with the right
   token, and never to trip the wrapper's data assertion for exactly those sets of addresses whose lines the
   wrapper's book-keeping can tell apart (the null address, which the wrapper answers itself, aside). Files: `Sram`, `CacheSpec`, `CacheMachine`, `CacheRefinement`,
   `CacheController`, `CacheSystem`, `CacheRuns`, `CacheLines`, `CacheOracle`, `OracleExactness`.
3. **Memory.** Merged requests, delayed replies, recency sets and a byte store: every accepted request is
   answered, as often as it was made, with a bound on the wait; over a whole run the requests accepted are
   those answered and those outstanding; no reply goes out before its latency has passed, unless another
   one for its address is due as early; every data reply
   carries the last word written in an earlier cycle. Files: `LruSet`, `DirtyMarks`, `Channel`, `Waiting`,
   `ReplyTimes`, `ReplySide`, `WordStore`, `MemoryResponder`.
4. **Micro-ops.** The translation of instructions into micro-ops is proved to preserve their meaning, for
   exactly the forms for which it does. Files: `MachineWords`, `SignExtend`, `Uops`, `Instructions`,
   `OperationLaws`, `Cracking`, `Multiplication`, `Decoder`, `BitwiseFacts`, `Exactness`.
5. **Pipeline queues.** The stages run in any order within a clock; what the queues keep is proved for every
   order and every run. Files: `PipelineSteps`, `PipelineQueues`, `PipelineRuns`,
   `StageFrames`, `PipelineClocks`, `Pipeline`.

`dafny verify dfyconfig.toml` checks everything.

## Where the code and what is said about it differ

- `core-project/README:4` says that all micro-ops of an instruction are pushed into the execute buffer at
  once. `dispatch.cc:65` compares a growing count with a shrinking queue, so at most half of the queue,
  rounded up, moves at a time. `PipelineRuns.MovedTogether` gives the exact condition and
  `PipelineRuns.MovedInTwoSteps` the smallest exception.
- The comment at `decoder.cc:379` has `base == index` multiply the base by `scale + 1`. The scale is encoded
  as 0 when it is 1, and then nothing is multiplied: the register is added once, not twice. A comparison of a
  memory word with a register is made the wrong way round (`decoder.cc:332-334`), and an instruction that
  updates memory never loads the word (`decoder.cc:350-358`). An address without base and index, and an
  immediate stored without an index, take an operand that nothing set. `Exactness.TranslationRight` shows these
  to be the only wrong forms of the modelled ones.
- The oracle of `warmup-project/wrapper.cpp:45` divides a signed address by the block size, which rounds
  towards zero, while the cache masks address bits. Below zero the two group addresses differently, so the
  assertion can fail although the cache is right. `OracleExactness.OracleSound` gives the exact condition on
  the addresses in use, other than the null address, which never reaches the cache; addresses that are not
  negative meet it (`CacheRuns.NonNegativeTells`). `OracleExactness.AlarmRun` constructs a run that fails for any
  two addresses that violate it and any two distinct non-zero values the wrapper may make up.
- A merged request may be answered before the request it is merged behind: a delivery releases whatever is
  merged for its address (`memory.cc:131-134`), also when it belongs to an earlier request. `ReplyTimes.MergedOvertakes`
  is such a run; `ReplyTimes.LeadsExactly` and `ReplyTimes.UnopposedExactly` give the exact condition.
- `execute.cc:475-476` computes the carry of a two-operand multiplication from the result that has replaced the
  first operand, so CF is set for 2 times 2; section "IMUL" of the Intel manual, volume 2, sets it when the product
  does not fit (`Multiplication.CarryOfTwo`, `Multiplication.CarryOfThree`).
- The comment at `cache.h:124` numbers updates 3 and write probes 4; the code has it the other way round.
- The comparator of `delaybucket.h:13-15` is not a strict order, so which of several entries with the least
  time comes out is left open here as well.

## Model

| member | source | states |
|---|---|---|
| ArctanProgram.PiProgram.Arctan | core-project/prog2/prog2.c:126-213 | a call makes one pass more than the first exhausted round, and leaves in pi the start value plus the signed floors of the series terms, wrapped as the array wraps; every digit stays in 0..99, every intermediate dividend below 100*denom^2 or 100*divisor; it terminates |
| ArctanProgram.PiProgram.Round | core-project/prog2/prog2.c:141-212 | one pass turns the k-th power into the next, adds or subtracts the k-th term, and finds cells before adv zero in powers and term |
| ArctanProgram.PiProgram.DividePowers | core-project/prog2/prog2.c:143-148 | dividing in place from adv on gives the quotient that dividing from cell 0 would give |
| ArctanProgram.PiProgram.DivideTerm | core-project/prog2/prog2.c:150-156 | the cells of term before adv, which are not written, are right all the same |
| ArctanProgram.PiProgram.AddTerm | core-project/prog2/prog2.c:159-175 | the ripple loop leaves digits whose value plus the dropped carry is the sum |
| ArctanProgram.PiProgram.SubtractTerm | core-project/prog2/prog2.c:176-192 | the ripple loop leaves digits whose value minus the dropped borrow is the difference |
| ArctanProgram.PiProgram.SkipLeadingZeros | core-project/prog2/prog2.c:196-210 | NotZero tells whether powers denotes zero; the inner loop stops inside the array, at the first non-zero cell |
| LongDivision.DivisionValue | core-project/prog2/prog2.c:143-148 | the digits of the cell-by-cell quotient denote the floor of the whole dividend by the divisor |
| LongDivision.DivisionBounds | core-project/prog2/prog2.c:145-154 | no intermediate dividend reaches 100 times the divisor, and every quotient cell is a digit |
| LongDivision.ZerosStay | core-project/prog2/prog2.c:206-211 | leading zero cells divide to zero cells with nothing carried on, so they may be skipped |
| Ripple.CarryOut | core-project/prog2/prog2.c:164-174 | a carry leaves cell 0 exactly when the sum does not fit the array |
| Ripple.BorrowOut | core-project/prog2/prog2.c:181-191 | a borrow leaves cell 0 exactly when the difference is negative |
| ArctanSeries.Series.FirstPower | core-project/prog2/prog2.c:140-148 | starting from multiplier*denom and dividing by denom^2 gives multiplier/denom, rounded down |
| ArctanSeries.Series.NextPower | core-project/prog2/prog2.c:143-148 | dividing the rounded power by denom^2 once more is rounding multiplier/denom^(2k+3) down once |
| ArctanSeries.Series.TermClosedForm | core-project/prog2/prog2.c:150-156 | two rounded divisions give the floor of multiplier/(denom^(2k+1)*(2k+1)) |
| ArctanSeries.Series.PowersShrink | core-project/prog2/prog2.c:141-212 | the value of powers falls every round until it is zero |
| ArctanSeries.Series.RoundsBound | core-project/prog2/prog2.c:141-212 | denom^(2K-1) is at most multiplier*100^(size-1) for the number K of productive rounds |
| ArctanSeries.Series.TermsDecrease | core-project/prog2/prog2.c:150-156 | the rounded terms never increase |
| ArctanSeries.Series.AccumulatorModulo | core-project/prog2/prog2.c:159-192 | the accumulator is the start value plus the signed sum, modulo 100^size |
| ArctanSeries.Series.AccumulatorExact | core-project/prog2/prog2.c:159-192 | no carry or borrow is lost exactly when all exact partial sums fit, and then the sum is exact |
| Truncation.TruncationBound | core-project/prog2/prog2.c:140-211 | the rounds made are within K+1 units in the last place of every longer partial sum of the exact rational series |
| Machin.NothingDropped | core-project/prog2/prog2.c:268-269 | both Machin calls keep all partial sums inside the array, for every size, and end between 3 and 4 |
| Machin.FirstRounds | core-project/prog2/prog2.c:268 | the first call needs fewer than 1.5*size productive rounds |
| Machin.SecondRounds | core-project/prog2/prog2.c:269 | the second call needs at most (size+1)/2 productive rounds |
| Machin.MachinAccuracy | core-project/prog2/prog2.c:268-269 | the first cell is 3 and the value is within 2*size+2 units in the last place of every longer exact Machin sum |
| Machin.RunMachin | core-project/prog2/prog2.c:246-269 | the two calls on zeroed cells leave the Machin sum, lose no carry or borrow, put 3 in the first cell, and keep dividends below 5712100 or 300*size |
| Printing.PrintVal | core-project/prog2/prog2.c:95-98 | emits the decimal text of the value |
| Printing.PrintShort | core-project/prog2/prog2.c:101-113 | emits the two digits of a cell through a buffer filled backwards |
| Printing.Print | core-project/prog2/prog2.c:115-124 | emits "3.", the pairs of all cells after the first, and a newline |
| Printing.ValTextDenotes | core-project/prog2/prog2.c:95-98 | the text is digits without leading zeros that denote the value |
| Printing.PairsTextDenotes | core-project/prog2/prog2.c:101-122 | the digits after the point denote exactly the value of the cells |
| Printing.PrintDenotes | core-project/prog2/prog2.c:115-124 | the printed line denotes the value of all cells if and only if the first cell is the 3 that is printed anyway |
| MagicDivision.MagicIsDivision | core-project/prog2/prog2.S:28-34 | multiply, shift and correct is division by ten truncated toward zero for every signed 64-bit value |
| MagicDivision.AsmPrintVal | core-project/prog2/prog2.S:16-49 | the assembly emits what the C function emits |
| MagicDivision.AsmPrintShort | core-project/prog2/prog2.S:56-101 | the assembly, without a buffer, emits the same two digits |
| MagicDivision.AsmPrint | core-project/prog2/prog2.S:108-183 | the assembly loop with its test at the bottom emits the same line, also for one cell |
| Libc.LLStrLen | core-project/prog2/libc.c:10-36 | from every alignment, finds the first NUL, reading no word before that of s or after that of the NUL |
| Libc.LLReadChar | core-project/prog2/libc.c:67-83 | extracts the byte at any address from its aligned word |
| Libc.SkipBlanks | core-project/prog2/libc.c:89 | leaves the text without its leading space |
| Libc.AccumulateDigits | core-project/prog2/libc.c:95-96 | accumulates the negated magnitude of the digits, modulo 2^64 |
| Libc.Atol | core-project/prog2/libc.c:85-99 | returns the number the text means, or that number modulo 2^64 when it does not fit |
| Libc.SignedTextMeans | core-project/prog2/libc.c:88-98 | digits mean their decimal value, negated behind a minus sign and not behind a plus sign, whatever follows them |
| Libc.SpaceInFront | core-project/prog2/libc.c:89 | a space, tab or line break in front of a text does not change what it means |
| Libc.NegatedNeverOverflows | core-project/prog2/libc.c:94-97 | accumulating negated overflows at no prefix of a number down to -2^63, while 2^63 itself does not fit |
| Libc.PrintedTextMeans | core-project/prog2/libc.c:85-99 | the text that PrintVal emits means, to the parser, the number printed |
| PiMain.PiMain | core-project/prog2/prog2.c:215-283 | the four outcomes of the program, and what each prints: usage, complaint, failed allocation, or the text of the Machin sum for the requested digits followed by the calculation time |
| PiMain.PrintedPi | core-project/prog2/prog2.c:234-274 | the line has at least the requested digits after "3." and, read as a number, is within 2*size+2 last places of every longer exact sum |
| SramModel.Sram.Work | warmup-project/sram.h:22-32 | the ring buffer with its moving pointer is a delay line: the oldest slot is overwritten and the next one shown |
| SramModel.State.LineHistory | warmup-project/sram.h:22-32 | every slot holds what its latest enabled step captured, or what it held at first |
| SramModel.State.DelayedOutput | warmup-project/sram.h:22-32 | after step n the output is the row captured at the latest enabled step j at most n-(D-1) and equal to it modulo D, for every delay D |
| CacheControllerModel.Controller.Work | warmup-project/cache.h:129-428 | the branches of the machine, with two mirrored ways, do what the one-way transition function says, independently of set |
| CacheSystemModel.CacheProject.Edge | warmup-project/cache.h:431-483 | one clock edge of the wired-up cache: signals written take effect at the next edge, and the two ways stay equal |
| CacheRefinement.EdgeRefines | warmup-project/cache.h:129-428 | every edge of the clocked machine is a step of the atomic direct-mapped store |
| CacheRuns.RunRefines | warmup-project/cache.h:129-428 | every run of the clocked machine is a run of the atomic store, for every delay |
| CacheRuns.RepliesOnTime | warmup-project/cache.h:131-426 | a request that asks for data or brings a state is answered once, for one cycle, with its own token, D+1 edges later, or 2(D+1) when it changes a held line without inserting or asking for data; the reply shows the new state, that of the held line, or 0xff, and for reads the data of the line; until then the port is closed |
| CacheRuns.NothingAsked | warmup-project/cache.h:342-426 | a request that neither asks for data nor brings a state is not noticed |
| CacheLines.RepliesShowLine | warmup-project/cache.h:142-425 | in every run: a reply reports the state last submitted for its line that took effect, or 0xff when the line is not held, the tag of the line, and for reads the data last submitted that took effect |
| CacheLines.MissIsTold | warmup-project/cache.h:189-199 | unless 0xff is submitted as a state, a reply reports 0xff exactly when the line is not held |
| CacheOracle.OracleStep | warmup-project/wrapper.cpp:99-103 | one request keeps store and oracle in agreement, also a write that misses |
| CacheOracle.OracleFollows | warmup-project/wrapper.cpp:99-103 | store and oracle agree after every run that keeps the protocol, over addresses whose keys tell lines apart |
| CacheOracle.RepliesCarryLastValue | warmup-project/wrapper.cpp:41-49 | a reply with a hit carries the value last submitted for the block |
| CacheRuns.NonNegativeTells | warmup-project/wrapper.cpp:45 | for addresses that are not negative the oracle's keys tell exactly the cache lines apart |
| OracleExactness.OracleSound | warmup-project/wrapper.cpp:41-93 | the data assertion fails in no run over a set of addresses, for any memory delay, if and only if the oracle's keys tell exactly the lines of its non-null addresses apart |
| OracleExactness.AlarmRun | warmup-project/wrapper.cpp:45-93 | for any two non-null addresses that share a key or a line but not both, and any two distinct non-zero values: a run that keeps the protocol and in which the assertion fails |
| CacheOracle.KeysOfOneLine | warmup-project/wrapper.cpp:45 | exactly when two addresses of one cache line share an oracle key |
| CacheOracle.Wrapper.RequestSubmit | warmup-project/wrapper.cpp:80-114 | a submission puts the whole request on the inputs and in the books, and its data in the oracle; a null address is answered at once and changes nothing |
| CacheOracle.Wrapper.Clock | warmup-project/wrapper.cpp:20-54 | after any history of submissions and clocks, over addresses whose keys tell lines apart, neither assertion on a reply fails |
| LruSetModel.LruSet.Get | core-project/lruset.h:17-24 | finds exactly the held keys and returns the value stored; promotion makes the key the most recent and keeps the other entries in order |
| LruSetModel.LruSet.Assign | core-project/lruset.h:17-24 | assigning through the reference that get returns changes the value of that key and nothing else |
| LruSetModel.LruSet.Put | core-project/lruset.h:26-34 | evicts the least recent entry when full, then appends the entry unless its key is still held |
| LruSetModel.LruSet.PutAbsent | core-project/lruset.h:26-34 | under a key that is not held, the only use the memory makes of it, an insertion makes the key the most recent and loses nothing but the victim |
| LruSetModel.RecencyOrder | core-project/lruset.h:17-34 | the recency list is in the order of last use |
| LruSetModel.HoldsMostRecent | core-project/lruset.h:17-34 | after any trace the set holds exactly the capacity most recently used distinct keys, in recency order |
| LruSetModel.StackProperty | core-project/lruset.h:17-34 | the contents at one capacity are the newest part of those at the next |
| ReplySideModel.DelayBucket.Get | core-project/delaybucket.h:24-33 | delivers some entry with the least due time once that has come, and nothing before |
| ReplySideModel.ReplySide.Deliver | core-project/memory.cc:107-121 | a delivery releases the merged requests for its address, due at once |
| Channels.CycleKeepsCovered | core-project/memory.cc:106-199 | every address with merged requests has a reply on its way, after every cycle |
| Channels.CycleConserves | core-project/memory.cc:106-199 | over one cycle, for every tag and address: outstanding before plus accepted = outstanding after plus delivered, counted with multiplicity |
| Waiting.Run.DeliveredWithinRank | core-project/memory.cc:106-136 | once time has passed its due time, an entry is delivered within as many cycles as there are entries due no later |
| Waiting.Run.EveryRequestAnswered | core-project/memory.cc:106-199 | in every run, for every request on its way or merged a reply with its tag and address goes out |
| Waiting.Run.AcceptedIsAnswered | core-project/memory.cc:138-199 | in every run, for every accepted request a reply with its tag and address goes out in a later cycle |
| Waiting.Run.TotalsBalance | core-project/memory.cc:106-199 | over every run, for every tag and address: outstanding at the start plus accepted = outstanding plus delivered, so nothing is lost or answered twice |
| Waiting.Run.AllAnswered | core-project/memory.cc:106-199 | in every run, for every tag and address: some later cycle has delivered as many replies with them as were outstanding at the start or accepted up to now, so requests are answered as often as made |
| ReplyTimes.NotBeforeLatency | core-project/memory.cc:106-199 | when no other reply for its address is due as early, no reply for the address of a request that is sent, its own or that of a merged one, goes out before its latency has passed since it was accepted, and its own is the first |
| ReplyTimes.AnsweredAfterLatency | core-project/memory.cc:106-199 | once its latency has passed, a request that was sent is answered within as many cycles as there are replies due no later |
| ReplyTimes.MergedInTime | core-project/memory.cc:106-199 | once some reply for its address is due, a merged request becomes due within as many cycles as there are replies due no later, and the same bound then holds for its own reply |
| ReplyTimes.LeadsExactly | core-project/memory.cc:107-136 | merged requests are released by the reply of the request they are merged behind, in every case, if and only if every other reply for its address is due later |
| ReplyTimes.UnopposedExactly | core-project/memory.cc:139-197 | for a request that is sent, that condition can be told when it is sent |
| ReplyTimes.MergedOvertakes | core-project/memory.cc:106-199 | a run of four cycles in which a merged request is answered while the request it is merged behind still waits |
| WordStore.StoreRefines | core-project/memory.cc:88-98 | storing eight bytes changes one word of the word map and no other |
| WordStore.MemDWrite | core-project/memory.cc:88-98 | a write updates the word map at its address |
| WordStore.MemDRead | core-project/memory.cc:75-86 | a read returns what the word map holds: the round trip |
| WordStore.MemIRead | core-project/memory.cc:63-73 | an instruction read returns the sixteen bytes, the first on top |
| WordStore.WordOfBytes | core-project/memory.cc:75-86 | a data word has its first byte lowest: the sum of its eight bytes at their weights |
| WordStore.InstructionBytes | core-project/memory.cc:70-71 | each byte of an instruction word is the byte of memory in that place |
| WordStore.LastWriteWins | core-project/memory.cc:162-198 | a word holds what the last write to it stored |
| WordStore.NeverWritten | core-project/memory.cc:162-198 | a word that no request wrote holds what it held at first |
| MemoryModel.Memory.LookupInst | core-project/memory.cc:145-155 | a fetch takes 2, 11 or 111 ns, by where it is found, and uses the key in each level asked; each put is proved to meet an absent key |
| MemoryModel.Memory.LookupData | core-project/memory.cc:175-194 | a data request takes 3, 12 or 112 ns, 12 also when the victim of the first level is dirty, and uses the key in each level asked; each put is proved to meet an absent key; a write marks its first-level entry dirty, a read leaves the mark it finds or starts clean, and other entries keep theirs |
| DirtyMarks.MarkedOnceMore | core-project/memory.cc:175-195 | so after every trace of accesses exactly those first-level entries are dirty that were written since they entered |
| MemoryModel.Memory.AcceptInst | core-project/memory.cc:138-160 | a fetch is merged behind one for its address, or sent with its latency |
| MemoryModel.Memory.AcceptData | core-project/memory.cc:164-198 | a data request is merged or sent, and a write is stored at once in either case |
| MemoryModel.Memory.Work | core-project/memory.cc:101-200 | a cycle delivers and accepts on both sides as the channel transition says, keeps the tag sets as their traces say, and every data reply carries the last word written in earlier cycles |
| SignExtension.SignExtend | core-project/decoder.cc:65-93 | extending by way of hexadecimal text adds 2^64-2^size exactly to the values in the upper half of `size` bits |
| SignExtension.ExtendsBothEncodings | core-project/decoder.cc:65-93 | for 8, 16 and 32 bits, the zero-extended and the sign-extended encoding of a number both become its 64-bit encoding |
| SignExtension.OnlyTheseEncodings | core-project/decoder.cc:65-93 | no other input becomes the 64-bit encoding of a number of that size |
| SignExtension.ParseOfHex | core-project/decoder.cc:80-85 | reading the hexadecimal text of a value gives the value back |
| OperationLaws.AddAndSubtract | core-project/execute.cc:377-399 | add is addition modulo 2^64, and sub what undoes it |
| OperationLaws.EachBit | core-project/execute.cc:502-516 | and, or and xor work on each of the 64 bits by itself |
| OperationLaws.CompareMeans | core-project/execute.cc:649-679 | a comparison sets ZF exactly when the difference is zero and CF exactly when the destination is below the source, and changes nothing else |
| OperationLaws.TestMeans | core-project/execute.cc:632-648 | a test sets ZF exactly when the values have no bit in common, and clears CF |
| OperationLaws.AddressArithmetic | core-project/decoder.cc:305-461 | an effective address is base + index * scale + displacement modulo 2^64 |
| OperationLaws.StoredIsLoaded | core-project/execute.cc:591-617 | a load from the address of a store gets what was stored, and no other word changes |
| Instructions.ProgramPreserved | core-project/decoder.cc:124-507 | micro-op lists that implement their instructions, one after the other, implement the program |
| Cracking.AddressMeans | core-project/decoder.cc:305-461 | the address micro-ops of an operand with base or index leave base + index*scale + displacement modulo 2^64 in the load/store register and change nothing else, a register added to itself unscaled being added once |
| Cracking.EffectMeans | core-project/decoder.cc:322-500 | from that address on, the remaining micro-ops complete lea, loads, stores, arithmetic, cmp and test |
| Cracking.CrackMeans | core-project/decoder.cc:199-506 | run in order, the micro-ops of an instruction do what the instruction is taken for, from every state |
| Multiplication.ImulMeans | core-project/decoder.cc:155-197 | imul of registers and immediates, broken up and executed, leaves the product modulo 2^64 in its destination and changes no other register, memory or ZF |
| Multiplication.CarryOfThree | core-project/execute.cc:486-497 | with three operands CF tells exactly whether the signed product does not fit 64 bits |
| Multiplication.CarryOfTwo | core-project/execute.cc:474-485 | with two operands CF is clear exactly when the result is 0 or the source is 1 |
| Exactness.TranslationRight | core-project/decoder.cc:199-506 | for every well-formed instruction: the micro-ops do what it does, from every state, if and only if it does not add a register to itself unscaled or use an address without base and index (unless it tests against zero), does not compare memory with a register, does not update memory (unless it ands with 0 or ors with -1), and does not store an immediate without an index |
| Exactness.StoreTaken | core-project/decoder.cc:350-495 | what every instruction that writes memory is translated to: the stale scratch value, combined with the source, or with an operand nothing set, is stored |
| Exactness.ProgramTranslated | core-project/decoder.cc:116-508 | a straight-line program of exact instructions, broken up, does what the program does |
| DecoderModel.Decoder.Push2q | core-project/decoder.cc:95-111 | pushes one micro-op with the length and address of the instruction in front |
| DecoderModel.Decoder.PushAddress | core-project/decoder.cc:312-461 | pushes the address micro-ops of all three addressing branches |
| DecoderModel.Decoder.CrackOne | core-project/decoder.cc:144-506 | each branch pushes its micro-ops behind what is queued, and tells whether a branch took the instruction |
| DecoderModel.Decoder.CrackOpcodes | core-project/decoder.cc:116-508 | the queue grows by one list per instruction, in order; when every instruction is taken by a branch, each list is the translation of its instruction at its own address and length, and does what the instruction is taken for |
| PipelineModel.Pipeline.Fill | core-project/dispatch.cc:62-294 | the loop moves the smaller of the first instruction's micro-ops and half the queue, rounded up |
| PipelineModel.Pipeline.Dispatch | core-project/dispatch.cc:35-298 | flushes, waits, or fills an empty execute queue |
| PipelineModel.Pipeline.Execute | core-project/execute.cc:201-805 | waits for memory, drops an unexpected micro-op, flushes, or moves the head on; no pop meets an empty queue |
| PipelineModel.Pipeline.Writeback | core-project/writeback.cc:42-137 | retires one micro-op of a non-empty queue |
| PipelineModel.Pipeline.Tick | core-project/execute.cc:201-805 | a clock in which the stages run in any order keeps the invariant |
| PipelineQueues.ExecuteKeeps | core-project/execute.cc:201-805 | execute keeps the invariant: one instruction in its queue, at most two micro-ops behind it, a waited-for micro-op at the head with no flush pending, order and conservation |
| PipelineQueues.DispatchKeeps | core-project/dispatch.cc:35-298 | dispatch keeps the invariant |
| PipelineQueues.DecodeKeeps | core-project/decoder.cc:657-673 | decode keeps the invariant |
| PipelineQueues.WritebackKeeps | core-project/writeback.cc:42-137 | write-back keeps the invariant |
| PipelineRuns.Run.InvariantThroughout | core-project/execute.cc:201-805 | in every run the invariant holds at every clock and after every stage within a clock, whatever the order of the stages |
| PipelineRuns.Run.RetiredInOrder | core-project/writeback.cc:42-137 | what has retired is an in-order subsequence of what was cracked |
| PipelineRuns.FlushEmpties | core-project/execute.cc:210-213 | a clock with clear up empties both queues, lets nothing through, and takes clear down, in every order of the stages |
| PipelineRuns.JumpRaisesFlush | core-project/execute.cc:213-552 | a flush that comes up after a clock was raised by a return or a taken jump, which is past execution, and nothing younger is |
| PipelineRuns.Run.FlushedNeverRetires | core-project/dispatch.cc:43-47 | in every run: no micro-op cracked behind the return or taken jump that raises a flush, by the time it comes up, ever retires |
| PipelineClocks.FlushExactly | core-project/execute.cc:201-805 | in every order of the stages, a flush comes up after a clock without one if and only if a return or a taken jump got past execution in it |
| PipelineClocks.PastExecution | core-project/execute.cc:214-300 | at most one micro-op gets past execution in a clock; one that needs memory only if it was waited for and its answer is there, any other one only if none is waited for, it was handed over, and its address is the expected one |
| PipelineClocks.HeadExecutes | core-project/execute.cc:201-805 | what becomes of the head of the execute queue in a clock without a flush: executed, waited for, or dropped |
| PipelineClocks.WritebackIsTold | core-project/execute.cc:203-300 | write-back is told when a micro-op got past execution or two are waiting, and only then |
| PipelineClocks.WrongPathNeverRetires | core-project/execute.cc:534-552 | in every run: no micro-op cracked behind a return or taken jump, by the time this got past execution, ever retires |
| PipelineClocks.RetiresOldest | core-project/writeback.cc:42-137 | told so, write-back retires the oldest executed micro-op in this clock, in every order of the stages; untold, nothing |
| PipelineClocks.FrontSupplies | core-project/dispatch.cc:35-298 | what was fetched is cracked unless a flush is up; execute is told of work exactly when dispatch was told of some and finds some |
| PipelineRuns.MovedTogether | core-project/dispatch.cc:65-66 | the micro-ops of an instruction move together if and only if twice their number is at most the queue length plus one; otherwise the rest stays in front |
| PipelineRuns.MovedInTwoSteps | core-project/dispatch.cc:65-66 | two micro-ops of one instruction alone in the queue are handed over one by one, the second only once execute has emptied its queue |

## Left out

- The SystemC kernel, tracing, logging, ELF loading, mmap and system calls: of the kernel only "written
  signals are visible at the next edge" and "the stages of a clock run in any order" are kept.
- The `reset` inputs: a stage that sees reset does nothing, or empties its queue.
- Memory written by the loader or by system calls: the initial words are a parameter, and the last-write
  results speak of data requests only.
- The disassembler, `input_hook`, `bin2hex` and the stitching of bytes in `decode_opcodes`: they rest on a
  library that is not part of this model. Operands are taken as it reports them.
- ArctanProgram.PiProgram.Arctan: requires denom at least 2 and a non-negative multiplier below 100*denom, which all calls in the
  program meet; machine integers are unbounded here, with the bound on every intermediate dividend proved.
- The other Machin-like formulas and the floating-point build of `prog2.c`.
- PiMain.PiMain: whether memory can be had, and by how much two readings of the clock differ, are parameters.
- Caches with more than one port, and the output `out_addr` of an insert, which is a tag read out by an earlier
  request.
- CacheOracle.Wrapper.RequestSubmit: takes the value that `hashme` makes up as a parameter, and requests are recorded by
  physical address, which is what the cache returns as token; the addresses in use are a parameter, see above.
- The cache masks of `cache.h` are arithmetic on address numbers (low ten bits, bits six to nine).
- MemoryModel.Memory.LookupData: states the latency in terms of the dirty mark of the first-level victim; which second-level
  entries are dirty is not specified, since nothing observable depends on it.
- Which of several replies with the least due time is delivered first is left open, as in the code.
- Exactness.TranslationRight: covers 64-bit registers, and immediates and displacements of 8, 16 or 32 bits.
- Cracking.CrackMeans: speaks of the instructions that do not update memory, do not store an immediate without an index,
  and whose address has a base or an index;
  `Exactness.StoreTaken` and `Exactness.TranslationRight` speak of the others as well.
- SignExtension.SignExtend: excludes a value whose text has as many bits as a size above 32, where the C shift is undefined.
- Multiplication.ImulMeans: speaks of register destinations and sources and of three-operand immediates, one micro-op at a
  time; imul with one operand or a memory operand is not part of the model.
- Of the execute arms, one-operand multiplication, division, shifts, stack and jump instructions and the flags other than
  ZF and CF are not part of the micro-op semantics; add and the other operations set no flags, as in the simulator.
- Operand forwarding in `execute.cc:309-366`: micro-ops are given their in-order meaning, and no claim is made
  that forwarding provides it.
- PipelineModel.Pipeline.Execute: whether an address was the expected one, whether a jump is taken and whether a tag matches are
  inputs, since they depend on register values, which the queues do not carry here.
- Fetch, and the instruction bytes it hands to decode: what is cracked each clock is an input of the pipeline.
- `HW/`, the kernel module, build scripts and system call tables.

# Two Brainfuck implementations, proved to agree

The repository holds a compiler and interpreter in C (`csrc/`) and a tree-walking interpreter with
peephole passes in OCaml (`lib/`, `bin/`). This project models both and proves that every stage keeps
the meaning of the program, from the characters of the source to the bytes of an ELF executable.

How the pieces fit together:

- **Meaning.** `Store` is what a program acts on (tape, pointer, unread input, output so far).
  `Source` executes the text one character at a time and counts brackets to find partners; it is the
  reference for everything else. A `[` without a partner is passed over there, as the C interpreter does.
  `Runs` has the simulation argument shared by all stages: two machines
  keep meeting in related states, so they agree on halting, on divergence and on every prefix.
- **C front end.** `FrontEnd` is `ir_ctx_parse`, a class with the operations and the patch stack, proved
  against a character fold. `Brackets` is its invariant, `OpenBrackets` the bracket structure it leaves behind, `Coverage` ties every operation to a piece of the
  text, `SourceSimulation` runs one against the other, `Chunks` is the read loop of `main`, `Regrouping`
  proves that how a text is cut makes no difference to its runs, `Dump` is the
  printer, `TapeSafety` leads back from operations to text, `FlatIr` and `Interpret` are the interpreter as a step
  function and as the loop over an array, `CircularTape` and `BelowTape` say what a
  pointer past either end of the tape leads to.
- **C code generator.** `X86` has encodings, a decoder and a machine for the emitted fragment of IA-32
  (Intel 64 and IA-32 SDM volume 2A, sections 2.1.3 and 2.1.5 and the entries of the instructions).
  `CodeGen` is the emitters on a growing byte buffer, with a fresh buffer for each loop body. `CodeLayout`
  says where code lies and jumps land, `CodeSimulation` is compiler correctness, `EndToEnd` composes it
  with the front end. `MachineCode` gives the emitted bytes as numbers. `PendingLoops` is what becomes of a `[` that is never closed, whose rest is compiled
  twice, and `SingleReads` what the single read makes of a program: together they state the correctness of
  the compiler for every text it accepts.
- **OCaml side.** `TreeIr` is the interpreter, with big-step semantics and with a mutable tape; `Passes`,
  `PassProofs`, `Pipeline`, `ClearingLoops` and `ExactPipeline` are the optimizer; `TreeParser` is parser and printer;
  `Agreement` proves that the C and OCaml implementations behave alike.
- **Hash map and ELF.** `Bits`, `Buckets` and `Chains` support `HashMap`, linked nodes in a bucket array
  that refine a finite map. `ElfLayout` and `ElfFile` are offsets and bytes, `ElfWriter` is the context of
  `elf_gen.c` over two of those maps, `ElfCorrect` says what the file contains, `Executable` is
  `write_elf_file` and a loader, `Translator` is the whole way from text to a running process.

Where the code departs from its evident intent, the project says exactly when, and shows an input:

| departure | exact statement | an input |
|---|---|---|
| one emitted read whatever the count | `CodeSimulation.ReadOnceOnly`, `SingleReads.CompilerMeaning` | `SingleReads.DoubleReadDiffers` |
| a cut inside a run of reads or writes | `Chunks.CutChangesNothing` | `Chunks.SplitRun` |
| the interpreter wraps once at the top: up to a tape length too far the tape is circular; everywhere else the wrap leads away, and the program ends there. Compiled code adds to edi and does not wrap; its theorems, and those of the other implementation, speak of runs on the tape | `FlatIr.MoveLands`, `CircularTape.FrontEndAround`, `CircularTape.OtherwiseTheEnd`, `CodeSimulation.EdiMoves` | `BelowTape.LeftOfTheTape` |
| at the end of the input the C program keeps the cell and goes on, the OCaml program raises | `Agreement.TreeStopsLikeSource`, `Agreement.StarvingTreeDiffers` | `Agreement.ReadPastEndDiffers` |
| a `[` that is never closed is accepted and passed over, and what follows is compiled as its body and once more; the OCaml parser closes it at the end of the text | `EndToEnd.FrontEndCorrect`, `PendingLoops.OpenLays` | `Agreement.PendingStartsDiffer` |
| the top level reaches every second pass backwards | `PassProofs.RunOrder`, `Pipeline.PipelineMeaning` | `Pipeline.TwoPassesSwap`, `Pipeline.AdjacentLoopsLoseOutput` |
| section headers are not counted before the first page | `ElfCorrect.HeadersClearOfData` | `ElfCorrect.HundredSections` |
| the offset is advanced before a section takes it | `ElfLayout.OwnBytesApart`, `ElfCorrect.DataApartExactly` | `ElfLayout.SecondSectionOverwrites` |
| a section with the name of a segment is written where the segment is | `ElfLayout.SharedBytesTouch` | `ElfLayout.SharedSectionOverwrites` |
| `count` also grows when a value is replaced | `HashMap.HashTable.MapSet` | every such call |

Where comments and code disagree the model follows the code: `,` reads and `.` writes although the comments of
`csrc/include/ir_gen.h` have them the other way round, and the length of a system call goes into edx although the
comments of `csrc/src/ir_compile.c` say esi.

## Model

| member | source | states |
|---|---|---|
| Runs.SimulationGivesSameRuns | csrc/src/ir_compile.c:328-361 | a step-by-step simulation with a falling rank makes two machines meet for ever, in both directions: no stage adds or loses a halt or a divergence |
| Runs.FollowersMeet | csrc/src/main.c:134-163 | two machines that follow a common one keep meeting each other, which is how the stages compose |
| FrontEnd.CountChar | csrc/src/ir_gen.c:18-23 | the maximal run of equal characters from a position |
| FrontEnd.IrCtx.Parse | csrc/src/ir_gen.c:25-103 | the loop over runs, with last operations edited in place and starts back-patched, gives the operations, patch stack and verdict of a fold over single characters, including a failing `]` |
| FrontEnd.RunIsCoalesced | csrc/src/ir_gen.c:31-73 | reading a run character by character is reading it at once with its count |
| FrontEnd.FailureStaysChunks | csrc/src/ir_gen.c:83-98 | after an unmatched `]` nothing that follows changes the context |
| Brackets.ParserTracksBrackets | csrc/src/ir_gen.c:75-98 | for any chunks: the patch stack holds the indices of the unmatched starts, innermost first, and these are the unmatched `[` of the text; all other brackets face each other at opposite distances and nest; the parser fails iff some prefix has an unmatched `]`; balanced text gives balanced operations |
| Coverage.ParserCovers | csrc/src/ir_gen.c:25-103 | every operation stands for a contiguous piece of the text with the net effect of that piece, and the pieces and comments make up the whole text in order |
| SourceSimulation.PartnersAgree | csrc/src/ir_gen.c:83-93 | for every `[` that is closed, the bracket found by counting in the text is the one the back-patched distance leads to, forwards and backwards |
| SourceSimulation.PendingHasNoPartner | csrc/src/ir_gen.c:75-82 | a `[` left with distance 0 is one for which counting in the text finds no partner |
| SourceSimulation.RepresentsSameRuns | csrc/src/ir_interpret.c:36-74 | operations that cover a text run like the text on every run that stays on the tape, and then no move wraps |
| EndToEnd.FrontEndCorrect | csrc/src/ir_gen.c:25-103 | front-end correctness: for every text without an unmatched `]`, pending `[` included, cut into any chunks, the interpreted operations and the characters keep meeting with the same tape, pointer, input and output on runs on the tape |
| Regrouping.ChunksBehaveAlike | csrc/src/main.c:134-141 | however any text is cut, from every store: the same ends, crashes and wrapped pointers included, with the same stores, and each run prints what the other prints |
| Regrouping.ChunksTwins | csrc/src/ir_gen.c:25-103 | every cut parses to the operations of one parse that groups nothing, with runs of reads and writes put together and every bracket leading to the same partner, or to none |
| Regrouping.ChunksFollowSingly | csrc/src/ir_interpret.c:36-74 | the interpreter on any cut keeps meeting the one on that parse, with the same store or at the same end |
| Chunks.SeenIsEverything | csrc/src/main.c:134-141 | the parser sees the whole file iff no chunk holds a NUL |
| Chunks.ChunkInvariance | csrc/src/main.c:134-141 | two cuts of a text give the same verdict, the same pending `[` of the text, and the same operations up to how runs of reads and writes are grouped |
| Chunks.CutChangesNothing | csrc/src/main.c:134-141 | parsing two pieces in two calls gives the same context as one call iff no run of reads or writes is split or an unmatched `]` came first |
| Chunks.DirtyCut | csrc/src/ir_gen.c:34-37 | a split run leaves exactly one operation too many, whatever follows |
| Chunks.SplitRun | csrc/src/ir_gen.c:34-37 | `,,` in one piece is one operation and in two pieces two |
| Chunks.InterruptedRuns | csrc/src/ir_gen.c:31-73 | `, ,` is two reads, `+ -` one addition of 0 and `> >` one move by 2 |
| Chunks.ReadProgram | csrc/src/main.c:134-141 | the read loop leaves the context of parsing the blocks of the file one after the other, and stops at the first failure |
| Chunks.BlockIs | csrc/src/main.c:134-141 | block k has the 1024 characters from 1024 k on, or those that are left, and the last block is empty |
| FlatIr.WrapsOnlyAtTheTop | csrc/src/ir_interpret.c:36-43 | the wrap of a move gives a pointer on the tape iff the move did not end below the tape and at most one tape length too far; from below it leads further down |
| FlatIr.MoveLands | csrc/src/ir_interpret.c:36-43 | a move of a pointer on the tape lands on the sum modulo the capacity, if the sum is from 0 to below twice the capacity, and on the sum minus the capacity otherwise |
| FlatIr.SetStores | csrc/src/ir_interpret.c:70 | a Set leaves its argument modulo 256 in the cell and changes nothing else |
| CircularTape.FrontEndAround | csrc/src/ir_interpret.c:36-74 | for every accepted text in any chunks, as long as no move goes below the tape or a tape length too far: the interpreter and the text on a circular tape keep meeting with the same tape, pointer, input and output |
| CircularTape.OtherwiseTheEnd | csrc/src/ir_interpret.c:36-43 | the first move of a run that does leaves the tape, and the operation behind it is the last |
| FlatIr.RunsBelow | csrc/src/ir_interpret.c:36-43 | for hand-made operations, most of which no text is parsed to: a run that is below the tape stays there iff no single move makes up for the whole distance |
| FlatIr.StepFromBelow | csrc/src/ir_interpret.c:36-43 | for hand-made operations likewise: a step from below reaches the tape iff it is a move by at least the distance that does not overshoot |
| FlatIr.BelowAndBack | csrc/src/ir_interpret.c:36-43 | two neighbouring moves, which no text is parsed to: below the tape after the first, back after the second |
| BelowTape.BehindAMove | csrc/src/ir_gen.c:56-73 | in the operations of every accepted text, in any chunks, a move is followed by an operation that touches its cell or by the halt |
| BelowTape.BelowIsTheEnd | csrc/src/ir_interpret.c:36-43 | in every run of every accepted text, a pointer below the tape is seen by one more operation only: it halts, or cannot reach its cell |
| BelowTape.OffTapeIsTheEnd | csrc/src/ir_interpret.c:36-43 | the same for a pointer off the tape at either end, on runs that begin on it |
| BelowTape.LeftOfTheTape | csrc/src/ir_interpret.c:36-43 | `<` halts with the pointer one tape length further down than asked for, and `<+` is left with a cell outside the tape |
| Interpret.Interpreter.Run | csrc/src/ir_interpret.c:5-75 | the dispatch loop over a mutable tape ends in the state that many steps of the machine reach, for every number of steps |
| Behaviour.SameSourceSameBehaviour | csrc/src/ir_interpret.c:36-74 | two flat programs for one text come to the same ends with the same stores and print the same prefixes |
| Dump.PrintBf | csrc/src/ir_gen.c:109-146 | the printing loops emit each operation as its run of characters |
| Dump.PrintedExample | csrc/src/ir_gen.c:109-146 | one operation of each kind in print, newline included |
| Dump.ParsedIsPrintable | csrc/src/ir_gen.c:109-146 | a parsed program has only what the printer can show; a balanced text gives balanced operations |
| TapeSafety.TextStaysOnTape | csrc/src/ir_interpret.c:36-43 | a text whose moves do not go back and forth within one operation stays on the tape iff the interpreter does |
| Dump.ReparseAccepted | csrc/src/ir_gen.c:109-146 | the printed form of every program with paired or pending brackets is accepted, and with nothing left pending when the program is balanced |
| Dump.ReparseBehaves | csrc/src/ir_gen.c:109-146 | if the program runs on the tape, so do its printed form and the reparsed operations, and they behave alike |
| Dump.DumpRoundTrip | csrc/src/ir_gen.c:109-146 | the same for every accepted text whose run stays on the tape: parse, print, parse again |
| Dump.ReparseIdentical | csrc/src/ir_gen.c:109-146 | it gives back the very same operations iff none has a zero argument and no two neighbours are of the same non-bracket kind |
| X86.DecodeEncode | csrc/src/ir_compile.c:30-122 | decoding inverts encoding for every emitted form, wherever the bytes stand |
| X86.DecodeAllEncodeAll | csrc/src/ir_compile.c:30-122 | linear disassembly recovers an emitted sequence |
| X86.RunBlock | csrc/src/ir_compile.c:30-122 | fetching and decoding the bytes of a block step by step is executing its instructions in order |
| CodeGen.CodeBuffer.EmitAddSub | csrc/src/ir_compile.c:30-145 | the bytes pushed for moves and additions encode the chosen imm8 or imm32 form; operands outside int32 are refused |
| CodeGen.CodeBuffer.EmitLoopStart | csrc/src/ir_compile.c:161-180 | compare and je in the width that fits the body |
| CodeGen.CodeBuffer.EmitLoopEnd | csrc/src/ir_compile.c:182-209 | compare and jne back over the body, in the width that fits |
| CodeGen.CodeBuffer.EmitWrite | csrc/src/ir_compile.c:224-256 | one write system call per count |
| CodeGen.CodeBuffer.EmitRead | csrc/src/ir_compile.c:258-280 | one read system call whatever the count |
| CodeGen.CodeBuffer.EmitExit | csrc/src/ir_compile.c:290-310 | the exit system call with the operand as status |
| CodeGen.CodeBuffer.Compile | csrc/src/ir_compile.c:328-361 | the loop with its recursion into fresh buffers appends exactly the specified bytes or reports the same error |
| CodeGen.CodeBuffer.CompileProgram | csrc/src/ir_compile.c:417-433 | push edi, the operations, a halt; true iff everything was compiled |
| MachineCode.OpEmitted | csrc/src/ir_compile.c:30-310 | the bytes of every operation as numbers: inc, dec, add and sub of edi and of [edi] in their forms, one write(1, edi, 1) per count, one read(0, edi, 1), the trap, exit |
| MachineCode.StartEmitted | csrc/src/ir_compile.c:161-180 | 80 3F 00 and 74 with a byte up to 125, or 0F 84 with four bytes |
| MachineCode.EndEmitted | csrc/src/ir_compile.c:182-209 | 80 3F 00 and 75 back over up to 123 bytes, or 0F 85 with four bytes |
| MachineCode.OperandBytes | csrc/include/rxi/vec.h:151 | four-byte operands have their lowest byte first |
| MachineCode.ProgramBytes | csrc/src/ir_compile.c:417-433 | the code of every accepted program begins with BF, the address of .bss, FF F7, and ends with B8 01 00 00 00 BB 00 00 00 00 CD 80 |
| CodeLayout.CompileLays | csrc/src/ir_compile.c:328-361 | every operation of a closed range whose brackets are paired is compiled once and in order, loop bodies included, and the recursion stops at the matching end |
| CodeLayout.CompileFails | csrc/src/ir_compile.c:346-354 | an operand outside int32 anywhere, however deep, makes the whole compilation fail |
| CodeLayout.ProgramLaid | csrc/src/ir_compile.c:417-433 | the compiler succeeds iff every operand fits, and then has laid out the whole program |
| CodeLayout.LaidShifts | csrc/src/ir_compile.c:334-345 | splicing a compiled body behind its jump moves all its code and keeps all its jumps |
| CodeLayout.JumpLands | csrc/src/ir_compile.c:161-209 | any bracket that points in its direction, paired or not: at either width its jump lands on the first byte of the operation meant |
| CodeLayout.StartLands | csrc/src/ir_compile.c:161-180 | at every depth and either width the je of a loop lands just behind its jne |
| CodeLayout.EndLands | csrc/src/ir_compile.c:182-209 | the jne lands on the first byte of the body |
| CodeLayout.DecodingRecoversOperations | csrc/src/ir_compile.c:328-361 | disassembling the code of any range of operations gives exactly their instructions, so all jump targets are instruction boundaries; with pending brackets too |
| CodeSimulation.StepSimulates | csrc/src/ir_compile.c:211-280 | one interpreted operation is a number of processor steps to the related state |
| CodeSimulation.EdiMoves | csrc/src/ir_compile.c:96-121 | the instruction for a move adds its argument to edi modulo 2^32, wherever the tape ends |
| CodeSimulation.CompilerCorrect | csrc/src/ir_compile.c:417-433 | compiler correctness: on every run on the tape the bytes on the processor and the interpreter keep meeting with the same tape, pointer, input and output, and halt together |
| CodeSimulation.EveryReadIsOne | csrc/src/ir_compile.c:258-280 | for every accepted count the emitted instructions read one byte |
| CodeSimulation.ReadOnceOnly | csrc/src/ir_compile.c:258-280 | the instructions emitted for a read do what the interpreter does, from every state of the processor, iff the count is 1 |
| OpenBrackets.ParsedIsOpen | csrc/src/ir_gen.c:75-98 | in the operations of any chunks every bracket is paired or a `[` with distance 0, and no pair encloses one of these |
| PendingLoops.OpenLays | csrc/src/ir_compile.c:328-361 | the recursion over a program with pending `[` lays out its expansion, in which everything behind each of them stands twice |
| PendingLoops.ExpansionRuns | csrc/src/ir_interpret.c:36-74 | the interpreter goes through the same stores on the program and on its expansion, step by step, also where it leaves the tape |
| SingleReads.SameCode | csrc/src/ir_compile.c:258-280 | the counts of reads leave no trace in the code of a program |
| SingleReads.CompilerMeaning | csrc/src/ir_compile.c:417-433 | compiler correctness for everything that is accepted, with any counts of reads and any pending `[`: the processor and the interpreter with all reads single keep meeting with the same tape, pointer, input and output |
| SingleReads.ExitsLikeSingleReads | csrc/src/ir_compile.c:417-433 | the process exits with a store iff that interpreter halts with it |
| SingleReads.ParsedIsAccepted | csrc/src/ir_compile.c:328-361 | every text below 2 GiB without an unmatched `]` meets the conditions of that theorem |
| SingleReads.DoubleReadDiffers | csrc/src/ir_compile.c:258-280 | on input 1, 2 the text `,,` halts with 2 in the cell, and its executable exits with 1 and the 2 unread |
| EndToEnd.ParsedIsCompilable | csrc/src/ir_compile.c:328-361 | a balanced program below 2 GiB without `,,` inside a chunk meets the conditions of the compiler theorem |
| EndToEnd.SourceMeetsProcessor | csrc/src/main.c:134-163 | for every accepted text without `,,` inside a chunk, pending `[` included: the characters of the source and the processor keep meeting with the same store on runs on the tape |
| EndToEnd.SourceAndProcessHaltTogether | csrc/src/main.c:134-163 | and then the process exits with a store iff the source halts with it |
| TreeIr.AddToCellWraps | bin/interpreter.ml:3-20 | both branches of the addition are addition modulo 256 |
| TreeIr.LoopLeavesZero | bin/interpreter.ml:22-27 | a loop that ends leaves the pointer in range on a zero cell |
| TreeIr.TreeMachine.Run | bin/interpreter.ml:7-36 | the recursion over a mutable tape has the outcome of the big-step semantics, exceptions included |
| TreeIr.Exceptions | bin/interpreter.ml:14-32 | which exception an instruction raises: a character out of range first, then the end of the input, then a cell outside the tape, by then with the byte that was read gone |
| Passes.FoldPreserves | lib/ir.ml:32-41 | folding a sound pass over nested loops preserves the program, whatever was accumulated |
| Passes.FoldBackwardsPreserves | lib/ir.ml:32-41 | the same for a list that arrives back to front |
| PassProofs.ContractionSound | lib/ir.ml:23-30 | merging neighbours keeps every outcome at every amount of fuel |
| PassProofs.DeadCodeSound | lib/ir.ml:18-21 | dropping a loop behind a loop keeps every outcome at every amount of fuel |
| PassProofs.ZeroLoopSound | lib/ir.ml:14-16 | replacing a clearing loop by Set 0 keeps every run that ends |
| PassProofs.RunOrder | lib/ir.ml:32-41 | an odd number of passes gives the top level back in order, an even number back to front, nested bodies always in order |
| Pipeline.SinglePassExact | lib/ir.ml:18-41 | contraction or dead_code alone keeps all behaviour, divergence and exceptions included |
| Pipeline.OddPassesPreserve | lib/ir.ml:32-41 | every odd-length list of contraction and zero_loop keeps order and ending runs |
| Pipeline.EvenPassesReverse | lib/ir.ml:32-41 | with an even number of them the result has to be turned around to keep the ending runs |
| Pipeline.TwoPassesSwap | lib/ir.ml:32-41 | a program that prints something else after two contractions |
| Pipeline.ContractsNeighbours | lib/ir.ml:23-30 | two moves or two additions become one, whatever their signs; a move and an addition are left alone |
| Pipeline.PipelineMeaning | bin/main.ml:28-31 | for every program: the three passes keep the ending runs of the contracted program without the top-level loops that another loop follows |
| Pipeline.PipelineCorrect | bin/main.ml:28-31 | without adjacent top-level loops every ending run ends in the same way after the pipeline |
| Pipeline.KeepLastOfNoAdjacent | lib/ir.ml:18-21 | that step changes nothing iff no two loops are adjacent |
| Pipeline.AdjacentLoopsLoseOutput | bin/main.ml:28-31 | a program with adjacent loops whose output the pipeline loses |
| ClearingLoops.ClearingLoopEnds | lib/ir.ml:14-16 | a loop that adds k ends iff gcd(k, 256) divides the cell, and then within 255 iterations |
| ClearingLoops.ClearingIsExactWhenOdd | lib/ir.ml:14-16 | it ends on every store iff k is odd |
| ClearingLoops.OddZeroLoopExact | lib/ir.ml:14-16 | zero_loop never stops short of an end or of anything printed; when all clearing steps are odd, the program itself gets as far as the rewritten one within 255 more iterations, so ends, divergence and all output are the same |
| ClearingLoops.SameEnds | lib/ir.ml:14-16 | programs that keep up with each other come to the same ends, exceptions included |
| ClearingLoops.ZeroLoopPreserves | lib/ir.ml:14-16 | zero_loop alone keeps every ending run of every program |
| ClearingLoops.ClearingReplaced | lib/ir.ml:14-16 | a loop becomes Set 0 iff its body is one addition, whatever the step; every other loop stays a loop |
| ExactPipeline.PipelineExact | bin/main.ml:28-31 | for every program the pipeline keeps all ends and all output of the contracted program without the followed top-level loops; when the contracted program clears by odd steps only, it adds none either |
| ExactPipeline.PipelineKeepsUp | bin/main.ml:28-31 | the same of the program itself when it has no adjacent top-level loops |
| ExactPipeline.DeadCodeKeepsOdd | lib/ir.ml:18-21 | dead_code makes no clearing loop, so odd steps stay odd |
| TreeParser.CharStream.ParseStream | lib/parser.ml:3-28 | the recursion over a consumed stream gives the block from the current position in reverse and stops behind its `]` |
| TreeParser.ParseString | lib/parser.ml:30 | the parsed program is in order |
| TreeParser.ShowOfParse | bin/main.ml:16-22 | printing the parse of any string gives its comment-free text up to the first unmatched `]`, with every open `[` closed |
| TreeParser.ShownExample | bin/main.ml:16-22 | one instruction of each kind in print |
| TreeParser.ParseOfShow | bin/main.ml:16-22 | parsing a printed program gives one instruction per printed character |
| TreeParser.RoundTrip | lib/ir.ml:23-41 | printing, parsing and contracting returns every canonical program without Set unchanged |
| Agreement.BlockFollows | lib/parser.ml:3-30 | tree runs are followed by the characters of the block they were parsed from, for every input and wherever the pointer goes, also when fuel runs out; an exception is the first thing that stops the text |
| Agreement.TreeStopsLikeSource | bin/interpreter.ml:7-36 | for every balanced text and every store: the tree comes to its end, to End_of_file or to an access outside the tape iff that is the first thing that stops it along the text, with the same store |
| Agreement.TreeHaltsLikeSource | bin/interpreter.ml:7-36 | on runs on the tape with enough input the parsed tree ends with a store iff the text does |
| Agreement.FlatAndTreeHaltTogether | csrc/src/ir_interpret.c:36-74 | the C interpreter halts with a store iff the OCaml one does |
| Agreement.FlatAndTreePrintTogether | bin/interpreter.ml:29-35 | at any time each has printed a prefix of what the other will print |
| Agreement.OptimizedTreeEndsToo | bin/main.ml:28-31 | without adjacent top-level loops: when the C interpreter halts, the optimized OCaml tree ends with the same store, and conversely when its contracted program clears by odd steps only |
| Agreement.OptimizedTreePrintsToo | bin/main.ml:28-31 | without adjacent top-level loops: what the C interpreter has printed at any time is a prefix of what the optimized tree will have printed, and conversely when its contracted program clears by odd steps only |
| Agreement.OptimizedTreeStopsToo | bin/main.ml:28-31 | without adjacent top-level loops the optimized tree comes to all these ends and exceptions, and to no others when its contracted program clears by odd steps only |
| Agreement.StarvingTreeDiffers | bin/interpreter.ml:29 | on runs on the tape that the C program ends, the tree ends likewise iff no `,` is reached without input |
| Agreement.ReadPastEndDiffers | bin/interpreter.ml:29 | on `,` without input the C program halts and the tree raises |
| Agreement.PendingStartsDiffer | lib/parser.ml:3-30 | on `+[` the C program halts, and the OCaml tree, closed at the end of the text, never ends |
| Bits.MaskIsMod | csrc/include/rxi/map.h:115-119 | masking with 2^n - 1 is the remainder modulo 2^n |
| Chains.MapHash | csrc/include/rxi/map.h:93-99 | the loop computes the folded hash |
| Chains.HashIsWord | csrc/include/rxi/map.h:93-99 | the hash stays a 64-bit number |
| Chains.MixIsTimes33 | csrc/include/rxi/map.h:93-99 | a round multiplies by 33 modulo 2^64 and adds the byte without carry to the lowest eight bits |
| Chains.HashOfShortKeys | csrc/include/rxi/map.h:93-99 | the hashes of the empty key and of `a` as numbers |
| Buckets.RehashKeeps | csrc/include/rxi/map.h:127-161 | gathering all nodes and inserting them again loses and duplicates nothing |
| Chains.PushChain | csrc/include/rxi/map.h:135-140 | relinking a chain onto a list in place |
| Chains.AddNode | csrc/include/rxi/map.h:121-125 | a node in front of its chain keeps all links and places |
| HashMap.HashTable.Resize | csrc/include/rxi/map.h:127-161 | the very same node objects in new buckets; when the allocation fails, gathered and put back into the old ones |
| HashMap.HashTable.GetRef | csrc/include/rxi/map.h:163-176 | finds the slot that points at the node of a key, or none if the key is absent |
| HashMap.HashTable.Find | csrc/include/rxi/map.h:193-196 | the address of the value of a key, null iff the key is absent |
| HashMap.HashTable.Get | csrc/include/rxi/map.h:193-196 | lookup in the abstract map |
| HashMap.HashTable.Set | csrc/include/rxi/map.h:198-225 | updates the abstract map, or leaves it alone when an allocation fails; says exactly when that is, and where a new node goes: to the head of its chain, after doubling the buckets when there are as many nodes; never moves a value |
| HashMap.HashTable.Remove | csrc/include/rxi/map.h:227-236 | removes exactly one key and leaves every other node in its place |
| HashMap.HashTable.MapSet | csrc/include/rxi/map.h:54-56 | `count` drifts from nnodes exactly when a value is replaced or the call fails |
| HashMap.HashTable.MapRemove | csrc/include/rxi/map.h:63-64 | `count` drifts when nothing is removed |
| HashMap.HashTable.KeyIsInItsBucket | csrc/include/rxi/map.h:115-119 | a key lies in the bucket given by its hash modulo the number of buckets |
| HashMap.HashTable.OrderListsTheKeys | csrc/include/rxi/map.h:245-260 | the order of iteration has every key exactly once, and nnodes is the size of the map |
| HashMap.MapIterator.Next | csrc/include/rxi/map.h:245-260 | returns the keys of that order one after the other, then nothing, however often it is called |
| ElfLayout.AlignsUp | csrc/include/elf_gen.h:7 | align_to is the least multiple from a value on |
| ElfLayout.SegmentRanges | csrc/src/elf_gen.c:106-120 | stored segments get page-aligned ranges, each behind the ones before |
| ElfLayout.NamesAreFound | csrc/src/elf_gen.c:128-136 | the bytes of each name stand in .shstrtab at the offset recorded for it, NUL included |
| ElfLayout.FileTypes | csrc/src/elf_gen.c:137 | a section advances the offset unless its type is SHT_NULL or SHT_NOBITS |
| ElfLayout.OwnBytesApart | csrc/src/elf_gen.c:137-150 | a section's own bytes stay clear of those of a later section iff the offset is advanced by at least its size up to and including that one |
| ElfLayout.OwnBytesClearOfNames | csrc/src/elf_gen.c:137-154 | they stay clear of .shstrtab iff all sections behind it advance the offset by at least its size |
| ElfLayout.AllBytesSafe | csrc/src/elf_gen.c:137-154 | when no written section has the name of a segment: all written sections keep their bytes iff each leaves room up to every later written one, and to the end |
| ElfLayout.SharedBytesTouch | csrc/src/elf_gen.c:141-145 | a written section with the name of a segment goes to the offset of the segment, and over its bytes if these are in the file |
| ElfLayout.SharedSectionOverwrites | csrc/src/elf_gen.c:137-150 | a list with room for all, whose second section has the name of a segment and is written over the first |
| ElfLayout.SecondSectionOverwrites | csrc/src/elf_gen.c:137-150 | three sections of which the first is clear of .shstrtab and yet overlaps the second |
| ElfFile.DecodeEncodePhdr | csrc/src/elf_gen.c:187-192 | a program header read back from the file is the one written |
| ElfFile.EhdrFields | csrc/src/elf_gen.c:183-184 | the fields a loader needs, read back from the ELF header |
| ElfFile.EhdrIdent | csrc/src/elf_gen.c:20-46 | the file begins as a 32-bit little-endian x86 executable: 7F 45 4C 46 01 01 01, type 2, machine 3, version 1, header size 52, flags 0, in bytes |
| ElfFile.StringFound | csrc/src/elf_gen.c:128-136 | a reader that collects characters up to the first zero finds a name of 8-bit characters where its bytes stand |
| ElfFile.AllWritten | csrc/src/elf_gen.c:204-222 | pieces that do not touch are all in the file, whatever the order of the writes |
| ElfFile.WriteReads | csrc/src/elf_gen.c:204-222 | after a write the bytes stand at their offset, the others are kept, and a gap reads as zeros |
| ElfWriter.PlaceSegments | csrc/src/elf_gen.c:101-120 | the loop over the map, updating headers through pointers, places all segments |
| ElfWriter.PlaceSections | csrc/src/elf_gen.c:131-151 | the loop over the sections, with the growing name table |
| ElfWriter.IndexOfSection | csrc/src/elf_gen.c:82-96 | the position of a key in the order of iteration, counted from 1, or -1 |
| ElfWriter.ElfContext.FixHeaderOffsets | csrc/src/elf_gen.c:99-161 | everything placed, .shstrtab added to the map, and e_shstrndx its position in the new order |
| ElfWriter.ElfContext.Finalize | csrc/src/elf_gen.c:163-177 | the counts and offsets of the ELF header |
| ElfWriter.ElfContext.GenElfFile | csrc/src/elf_gen.c:179-223 | the file is the sum of the writes in their order, for the finished layout, whose segments are those of the map |
| ElfCorrect.FileApart | csrc/src/elf_gen.c:99-161 | when no written section has the name of a segment, sections have room and the header tables end before the first data, headers, segments, sections and names have disjoint ranges |
| ElfCorrect.DataApartExactly | csrc/src/elf_gen.c:137-154 | unless a written section has the name of a segment, nothing that is written touches anything else iff every written section has room |
| ElfCorrect.FileApartExactly | csrc/src/elf_gen.c:99-161 | unless a written section has the name of a segment, nothing in the file touches anything else, headers included, iff every written section has room and the header tables end before the first data |
| ElfCorrect.HeadersClearOfData | csrc/src/elf_gen.c:103-105 | unless a written section has the name of a segment: the header tables stay clear of all data iff they end before the first data, which is the first page if a segment is in the file or no section has bytes, and else the offset of the first written section or of .shstrtab |
| ElfCorrect.HundredSections | csrc/src/elf_gen.c:103-105 | 99 sections fit in front of the data, the hundredth header does not |
| ElfCorrect.SegmentFound | csrc/src/elf_gen.c:204-212 | the bytes of a stored segment are at p_offset, on a page boundary |
| ElfCorrect.SectionInFile | csrc/src/elf_gen.c:137-222 | for every written section, under the conditions of FileApart: following e_shoff in the bytes of the file there is a header that leads to its name, its size and all its bytes |
| ElfCorrect.NamesFound | csrc/src/elf_gen.c:131-159 | the header at the position of .shstrtab in the order is that of .shstrtab, and every sh_name finds its own name there |
| ElfCorrect.NamesInFile | csrc/src/elf_gen.c:158-202 | in the bytes of the file: the identification of an executable; following e_shoff a null section; and e_shstrndx leads to .shstrtab, which begins on a page, where a reader up to the first zero finds exactly the names of the order, each at its sh_name |
| Executable.FrontIsFree | csrc/src/main.c:90-92 | what is compiled depends on the number of bytes in front of it, not on the bytes |
| Executable.PatchGivesImage | csrc/src/main.c:105 | after the patch the first instruction loads edi with the address of .bss and all else is as if compiled for it |
| Executable.LoadsImage | csrc/src/elf_gen.c:186-212 | a loader that checks the identification, and sizes and types by number, finds executable code at the entry point and, disjoint from it, zeroed writable memory; it takes the file for the image |
| Executable.WriteElfFile | csrc/src/main.c:69-108 | the written file loads as the image the compiler theorem speaks of; a reader of its section headers finds exactly .text, .bss and .shstrtab; and all fields of its program and section headers have the numbers of the System V ABI |
| Executable.FileDescribed | csrc/src/main.c:69-108 | the fields by number: load address 0x8048000, access rights 5 and 6, memory of 30000 bytes, alignment 4096, section types 1, 8 and 3 with their flags, addresses, offsets and sizes |
| Executable.ImageHoldsProgram | csrc/src/main.c:83-98 | that image meets the conditions of the compiler theorem for a tape of 30000 cells |
| Translator.Translate | csrc/src/main.c:134-163 | a text is refused iff it has an unmatched `]`, with nothing written; otherwise the file loads, and starts, as the image of the text, has the three sections, and all fields of its headers have the right numbers |
| Translator.ExecutableMeansSource | csrc/src/main.c:69-163 | for every accepted text without NUL and without `,,` inside a block, on runs on the tape: a process booted from any file that starts as the image of the text keeps meeting the characters of the text, and exits with a store iff the text halts with it |
| Translator.ExecutableMakesSingleReads | csrc/src/main.c:69-163 | for every accepted text, with `,,` and pending `[`: the process keeps meeting the interpreter with single reads, and exits with a store iff that one halts with it |

## Left out

- Vectors (`csrc/include/rxi/vec.h`): growable sequences; reallocation and insertion are not modelled.
- `csrc/include/rxi/dmt.h`, `csrc/include/defer.h`, `csrc/src/impl.c`: allocation tracing and cleanup.
- Options, opening files, permissions, error messages and flushing; input, output and files are byte sequences.
- `ir_fmt_op`, `ir_ctx_dump_ir`, `ir_compile_dump_asm`: debug output.
- Code disabled with `#if 0`, the SIB modes of `emit_add_sub` and the results malformed-loop and illegal-state, which are never produced.
- `lib/codegen.ml`, `lib/bytebuffer.ml`, `lib/elf.ml`, `bin/compiler.ml`: stubs without meaning to preserve.
- `lib/bytetype.ml`: depends on an integer library that is not part of this model.
- `lib/combinators.ml`: one-line combinators; `string_of_in_channel`: input plumbing.
- The process stack, flags other than ZF, faults, and the kernel beyond one-byte read and write and exit; a system call clobbers only eax.
- 64-bit overflow of counts, operation arguments and vector lengths: they are unbounded here; 32-bit and 8-bit truncation is written out. OCaml's 63-bit integers are unbounded likewise.
- Dump.PrintBf: its `int j` counter is unbounded here; the original counts to 2^31 - 1.
- Interpret.Interpreter.Run, TreeIr.TreeMachine.Run: a fuel argument makes them end; the statements hold for every amount of fuel. A cell access outside the array, undefined in C, stops the model.
- FrontEnd.IrCtx.Parse: the linked patch stack is a sequence field, the innermost start first.
- Texts with an unmatched `[`: the C side covers them; the two implementations are compared on balanced texts, since they differ on others.
- HashMap.HashTable.Set: whether an allocation succeeds is an argument; node memory and keys and values stored inline are objects; strings are compared as sequences, which for keys without NUL is what strcmp does. Overflow of the number of buckets is not modelled, and `map_deinit` and the variants with explicit key sizes are not either.
- ElfWriter.ElfContext.GenProgramHeader, ElfWriter.ElfContext.GenSectionHeader: allocations succeed; the original does not check them.
- ElfCorrect.FileApart: what a file contains whose sections do touch each other, or whose headers reach into the data, is not said beyond the examples.
- Executable.WriteElfFile: the code buffer is separate from the segment until compiled; in the original they are one vector. Code of 2 GiB and more is excluded.

# Verified models of the compiler toolchain, the boot loader and the device drivers

Each part of the repository whose correctness rests on more than one function is modelled here in
Dafny, in the form its own code has: objects with changing fields are classes, loops are loops with
invariants, concurrent code is a state machine with a program counter for each process. The methods
are proved against functions, and what the code promises is proved about those functions, for all
inputs and all runs.

## The parts

**The ComPiler toolchain** (`compiler/src`).
`Machine.dfy` is the virtual machine with 32-bit arithmetic. `Source.dfy` gives statements and
conditions two readings: the intended one, and the one the compiler implements; `Readings.dfy` proves
exactly when the two agree. `CodeGenerator.dfy` and `Parser.dfy` are the one-pass compiler with its
fix-up lists, placeholders -100 and -1000 and back-patching; they emit what `CodeShape.dfy` describes,
and `Simulation.dfy`, `StmtSimulation.dfy` and `Correctness.dfy` prove what that code does when it runs.
`CallFrame.dfy`, `NestedCalls.dfy` and `SymbolTable.dfy` cover method calls and frame offsets, `Encoding.dfy` the
instruction words and `CompiledWords.dfy` which programs fit them; `Compilation.dfy` joins the parser with
the machine. `ObjectFile.dfy` and `FixupPath.dfy` are the object file, `Linker.dfy` the linker.

**MINIX booting** (`minix/src/boot`).
`RawFs.dfy` maps file blocks to disk blocks with its two kept indirect blocks, `TrackBuffer.dfy` is the
loader's track buffer above it. `ImageFormat.dfy` and `InstallBoot.dfy` write a boot image and take it
apart; `BootLoad.dfy` loads a process and `BootRun.dfy` a whole image; `BootInstalled.dfy` joins writer
and loader, `BootFile.dfy` the loader and the file it loads. `BootTokens.dfy`, `BootMonitor.dfy`,
`BootInterpreter.dfy` and `BootRestore.dfy` are the monitor's command language and its saved environment.

**Drivers** (`kMod01/examples`).
`Scull.dfy` is the sparse memory device, `ScullPipe.dfy` the blocking ring buffer, `ShortPrint.dfy` the
printer's output ring, `Snull.dfy` the packet pools of the two network devices.

**The Coco scanner's input** (`compiler/coco`): `ScannerBuffer.dfy`.

## Where the code does not do what it is meant to

Each of these is stated as an exact condition, or with a run that shows it.

- `a && b || c` without parentheses is compiled as `a && (b || c)`. A condition is compiled right,
  whatever it compares, exactly if every `&&` group left of a later `||` is parenthesised
  (`Readings.GroupedExactly`).
- A variable minus a register, and an immediate divided by or modulo anything but an immediate, have
  their operands swapped (`Readings.SwapsExactly`). An ordering comparison is wrong exactly when the
  difference overflows (`Readings.ComparesExactly`).
- Printing takes a register and never gives it back: the register counter is back where it was exactly
  after statements without a print (`CodeShape.Balanced`).
- An instruction survives its encoding exactly if its operands fit the fields (`Encoding.EncodesExactly`),
  and a program of less than 2^15 words exactly if the constants and offsets that it uses do
  (`CompiledWords.StmtEncodes`). A fix-up table is refused exactly if a name in it is empty
  (`FixupPath.FixUpsComeBack`).
- In a file system with several blocks to a zone a hole gets block 0 only where it begins a zone or lacks
  an indirect block; elsewhere it gets a small block number that is not 0 (`RawFs.AnswersExactly`).
- The boot loader passes over a process with another label without looking whether the image goes on.
  Loading gets to its end exactly if each chosen process is admitted and, when the last is passed over, the
  search comes upon another behind the image, in the rest of the file's last block
  (`BootInstalled.RunExactly`); if there is none, the last has to be chosen (`BootInstalled.LastIsNeeded`).
- A header's total may be less than its segments. The loader does not look, and takes clicks back for the next
  process that it has just loaded: exactly when, is `BootRun.TakesBackExactly`, and what comes of it
  `BootRun.RunInOrder`.
- The check for room in front of each piece of a segment asks for a whole click. A segment whose last click
  takes more than one sector is refused although it fits, for just the limits that `BootLoad.FitsExactly`
  gives; `BootLoad.RefusedThoughItFits` is one.
- A saved device mark is lost on a special entry whose default has none, and on a function that was a
  device variable before (`BootRestore.DeviceMarkRestored`).
- The printer driver counts an empty ring as having no free space when it decides to wake its writer.
  A writer is forgotten asleep exactly if the two reads of the tail in its last test straddle the wrap to 0
  and the ring is empty by then (`ShortPrint.ForgottenExactly`, `ShortPrint.NeverForgotten`); on a page of
  any size this can happen (`ShortPrint.ForgottenRun`), and then it sleeps for good
  (`ShortPrint.ForgottenForGood`).
- A packet is tested for waking the queue after the lock is released. If it has been sent again by then and
  the pool is empty, the queue is woken with nothing to take, and the next transmission takes a null pointer
  (`Snull.NullAfterwards`). Running queues have packets throughout a run exactly if no test of the run does
  this (`Snull.RunsExactly`). With two packets or more one poll is enough for it to happen (`Snull.LateTest`);
  with one it never does (`Snull.OneIsSafe`).
- Packets that wait at a device are received in the order opposite to that of their arrival
  (`Snull.LastArrivedFirst`).
- The UTF-8 decoder returns its end-of-file value for the code point U+10000, and for no other
  (`ScannerBuffer.TakenForEnd`).

## Model

| member | source | states |
|---|---|---|
| Parsing.Parser.DelayedCodeGen | compiler/src/compiler/Parser.java:1100-1198 | for each pair of operand modes the code emitted is the joining code of the two items, and the item returned tells where the result is |
| Parsing.Parser.Term | compiler/src/compiler/Parser.java:1016-1066 | an arithmetic term leaves exactly the code that is proved to evaluate it, and takes a register exactly if its result is in one |
| Parsing.Parser.Relation | compiler/src/compiler/Parser.java:1285-1347 | a comparison or parenthesised condition emits its code and records just its own jumps, below the level of the operators around it |
| Parsing.Parser.AndExpression | compiler/src/compiler/Parser.java:973-999 | a run of operators settles the jumps of its level and no others |
| Parsing.Parser.Expression | compiler/src/compiler/Parser.java:941-971 | a whole condition emits the code that is proved to decide it, and records the positions of all its branches for the statement around it |
| Parsing.Parser.ConditionAndBody | compiler/src/compiler/Parser.java:884-897 | condition and body are emitted one after the other and only this condition's jumps are on top of the fix-up stack |
| Parsing.Parser.IfStatement | compiler/src/compiler/Parser.java:884-912 | the branches of the condition, and no outer jump, are patched to the body and to the end |
| Parsing.Parser.IfElseStatement | compiler/src/compiler/Parser.java:884-912 | likewise with the jump over the else branch; fix-up stack and level are as before |
| Parsing.Parser.WhileStatement | compiler/src/compiler/Parser.java:863-882 | likewise with the jump back to the condition |
| Parsing.Parser.BodyBlock | compiler/src/compiler/Parser.java:796-830 | any nesting of statements appends exactly its code and disturbs nothing recorded or emitted before |
| CodeGeneration.CodeGenerator.FixOrJumps | compiler/src/compiler/CodeGenerator.java:509-543 | one recorded jump is pointed at the next operand, inverted or not, and everything else stays |
| CodeGeneration.CodeGenerator.FixConditionJumps | compiler/src/compiler/CodeGenerator.java:366-386 | of the listed jumps those with a placeholder get their targets; all other code stays |
| CodeGeneration.FixEachIsLocal | compiler/src/compiler/CodeGenerator.java:366-386 | patching the branches of a fragment by position is the same as patching that fragment alone, wherever it lies |
| CodeShape.PatchedJumpsAreTargets | compiler/src/compiler/CodeGenerator.java:352-386 | patching the placeholders of a condition's code gives the code whose every jump goes straight to its true target |
| CodeShape.NoPlaceholderLeft | compiler/src/compiler/CodeGenerator.java:366-386 | no -100 or -1000 survives patching |
| Simulation.JoinRuns | compiler/src/compiler/CodeGenerator.java:143-209 | for all operand modes the joining code leaves the combined value in one register and keeps all lower ones |
| Simulation.PendingRuns | compiler/src/compiler/Parser.java:1100-1198 | evaluating an expression leaves its value, a cell or a folded constant as its item says |
| Simulation.LoadRuns | compiler/src/compiler/Parser.java:1450-1464 | loading any expression puts its value in exactly one register |
| Simulation.CondRuns | compiler/src/compiler/VM.java:1217-1306 | the machine reaches the true or the false target of a condition as its verdict says, making the same comparisons in the same order |
| StmtSimulation.StmtRuns | compiler/src/compiler/VM.java:265-452 | running a statement's code leaves the variables and output of the statement, writes only its variables, and ends at the next word |
| Machine.DivisionLaw | compiler/src/compiler/VM.java:786-854 | division truncates: quotient and remainder make up the dividend, the remainder is smaller than the divisor and has the dividend's sign; the one quotient too large for 32 bits wraps around |
| Machine.DivisionIsUnique | compiler/src/compiler/VM.java:786-854 | no other quotient and remainder have these properties |
| Machine.WrapLaw | compiler/src/compiler/VM.java:714-784 | sums, differences and products are right but for a multiple of 2^32 |
| Machine.OrderLaw | compiler/src/compiler/VM.java:1217-1306 | how each of the six relations decides between a number and a greater one, itself and a smaller one; the inverted relation decides the other way |
| Machine.PushAndPop | compiler/src/compiler/VM.java:1066-1107 | what is pushed is popped again and the pointer is back where it was, also when the pointer itself is pushed or popped |
| Machine.StopsOrReturns | compiler/src/compiler/VM.java:1177-1214 | a jump to -1 stops the machine for good; after any other a return over register 31 goes on behind the jump |
| Readings.SwapsExactly | compiler/src/compiler/Parser.java:1100-1198 | operands keep their order exactly if the modes are not one of the swapped ones |
| Readings.ComparesExactly | compiler/src/compiler/VM.java:856-867 | a comparison is right if and only if it is for equality or its difference fits in 32 bits |
| Readings.CondAgrees | compiler/src/compiler/Parser.java:941-999 | on grouped conditions the compiled reading is the intended one, with the same comparisons in short-circuit order, if in either of them no comparison overflows |
| Readings.GroupedExactly | compiler/src/compiler/Parser.java:973-999 | a shape of operators and parentheses is compiled right for all comparisons if and only if it is grouped |
| Readings.ExecAgrees | compiler/src/compiler/Parser.java:863-912 | a reliable statement that ends in either reading with no comparison overflowing ends in the other, with the same variables, output and comparisons |
| Correctness.CompiledRight | compiler/src/compiler/Parser.java:863-912 | a reliable program leaves the variables and output that its source prescribes |
| Correctness.StopsTogether | compiler/src/compiler/VM.java:265-452 | for a reliable program, the source ends with no comparison overflowing if and only if the machine stops so; a program that never ends is not compiled to code that does |
| Correctness.StopsAsRead | compiler/src/compiler/VM.java:265-452 | for any program, the code stops if and only if the program, read as the compiler reads it, ends |
| Compilation.Compile | compiler/src/compiler/Parser.java:796-830 | what the parser emits for a reliable program computes on the machine what the program says, and its words are unpacked to the same code if and only if the numbers in it are small |
| CompiledWords.StmtEncodes | compiler/src/compiler/CodeGenerator.java:468-506 | all instructions of a statement fit their words if and only if every constant left after folding and every offset has at most 15 bits |
| CompiledWords.UnpacksExactly | compiler/src/compiler/VM.java:283-356 | a program comes back out of its words if and only if all its operands fit |
| CodeShape.Balanced | compiler/src/compiler/CodeGenerator.java:334-343 | the register counter is back where it was if and only if nothing was printed, and never lower |
| CallFrame.CallReturns | compiler/src/compiler/CodeGenerator.java:286-319 | a call comes back behind the BSR with frame and stack pointers restored although taken branches overwrite register 31; only the saved words and the body's own slots change |
| CallFrame.PrologueRuns | compiler/src/compiler/CodeGenerator.java:295-305 | the prologue saves link and frame pointer on top of the stack and leaves the stack pointer below the room for the locals |
| CallFrame.EpilogueRuns | compiler/src/compiler/CodeGenerator.java:311-319 | the epilogue undoes it from wherever the frame pointer is |
| SymbolTable.SymbolTableList.DeclareMethod | compiler/src/compiler/Parser.java:480-518 | parameters and locals get consecutive falling offsets, parameters from their number plus one, locals from -1 |
| SymbolTable.FrameIsDisjoint | compiler/src/compiler/SymbolTableList.java:37-81 | all cells of a frame have different addresses, and none is a saved word |
| SymbolTable.PushMissesFrame | compiler/src/compiler/CodeGenerator.java:295-305 | what is pushed from below the locals changes no declared cell and no saved word, and the next push is below again |
| SymbolTable.FramesApart | compiler/src/compiler/CodeGenerator.java:286-319 | the frame of a method called from there shares no word with the caller's |
| NestedCalls.CallRuns | compiler/src/compiler/CodeGenerator.java:286-319 | a call returns whatever its method calls in turn, with frame and stack pointers restored and every word from the caller's stack pointer up unchanged |
| NestedCalls.BodyRuns | compiler/src/compiler/VM.java:265-452 | statements with calls between them, nested to any depth, do to memory and output what their frames laid one below the other prescribe |
| NestedCalls.KeepsAbove | compiler/src/compiler/CodeGenerator.java:295-319 | a body with all its calls changes only globals and words below its frame pointer |
| SymbolTable.DeclaredInFrame | compiler/src/compiler/SymbolTableList.java:261-263 | what is declared lies in the frame and no two symbols share a cell |
| Encoding.EncodesExactly | compiler/src/compiler/VM.java:283-356 | decoding an encoded instruction gives it back if and only if its fields fit |
| Encoding.DecodedIsEncodable | compiler/src/compiler/VM.java:283-356 | every word that decodes at all decodes to an instruction whose fields fit |
| Encoding.FieldsStand | compiler/src/compiler/CodeGenerator.java:468-506 | where operation, registers, sign and magnitude of an instruction that fits stand in its word |
| ObjectFiles.WordRoundTrip | compiler/src/linker/ObjectFile.java:431-450 | writing and reading a word gives it back |
| ObjectFiles.HighestFirst | compiler/src/compiler/CodeGenerator.java:388-429 | a written word is the two's complement of its number, highest byte first |
| ObjectFiles.FileLayout | compiler/src/compiler/CodeGenerator.java:388-429 | at which bytes the zero, the call of the main method, the two tables behind their lengths, and the code stand |
| ObjectFiles.RowLayout | compiler/src/linker/ObjectFile.java:103-148 | a row is the name, an equals sign, as many characters 0 as fill the word, and the value |
| ObjectFiles.RowsComeBack | compiler/src/linker/ObjectFile.java:248-310 | rows of module, dot and name with an offset come back as fix-ups, or the table is refused for an empty name |
| ObjectFiles.TableLength | compiler/src/compiler/SymbolTableList.java:214-233 | the length computed before a table is written is the number of words that are then written |
| ObjectFiles.ObjectFile.WriteObjectFile | compiler/src/compiler/CodeGenerator.java:388-429 | the file holds header, offset table, fix-up table and code at the places the header names |
| ObjectFiles.ObjectFile.ReadStringFromFile | compiler/src/linker/ObjectFile.java:392-424 | a name is read up to its delimiter, and reading goes on at the next whole word |
| ObjectFiles.ObjectFile.ScanFile | compiler/src/linker/ObjectFile.java:152-220 | scanning a written file gives the same symbols, the fix-ups with their paths taken apart, and the code, unless a path is refused |
| ObjectFiles.ObjectFile.ReadFixupTable | compiler/src/linker/ObjectFile.java:248-310 | reading the words of a written fix-up table gives its rows with module and name apart, or nothing if one path has not two pieces |
| ObjectFiles.ObjectFile.GetOpCode | compiler/src/linker/ObjectFile.java:359-384 | the code words up to the end of the file come back in order |
| FixupPath.PathComesBack | compiler/src/linker/ObjectFile.java:274-284 | a module and a name joined by a dot come back if and only if the name is not empty |
| FixupPath.FixUpsComeBack | compiler/src/linker/ObjectFile.java:248-310 | a table of modules and names without dots comes back if and only if no name is empty, and is refused otherwise |
| FixupPath.ThirdPieceRefused | compiler/src/linker/ObjectFile.java:276-281 | a path of three pieces is refused |
| Linking.BinaryFile.AddCode | compiler/src/linker/BinaryFile.java:170-209 | a module's code is appended once, behind everything placed before, and its position remembered |
| Linking.BinaryFile.FixOneEntry | compiler/src/linker/BinaryFile.java:53-120 | one fix-up entry is applied, after everything it imports is loaded and fixed, and no other module is disturbed |
| Linking.Link | compiler/src/linker/BinaryFile.java:122-145 | linking ends for cyclic imports too, places every module once and contiguously, and every module holds its fixed code |
| Linking.CallsPointHome | compiler/src/linker/BinaryFile.java:53-120 | every listed call site holds the final address of the symbol it names, with its operation kept |
| Linking.OthersUnchanged | compiler/src/linker/BinaryFile.java:154-163 | every word that no fix-up entry lists is as it was compiled |
| RawFs.Reader.Vir2Abs | minix/src/boot/rawfs.c:218-285 | over any sequence of calls the answer with kept indirect blocks is that of one table of all zones |
| RawFs.Reader.Stat | minix/src/boot/rawfs.c:107-175 | another file becomes the current one and both kept blocks are dropped |
| RawFs.DirectBlock | minix/src/boot/rawfs.c:240-285 | the block answered for a direct zone is in that zone, at the place that the file's block has in its zone |
| RawFs.IndirectBlock | minix/src/boot/rawfs.c:240-285 | past the direct zones it is in the zone that the indirect block's entry names, and 0 without an indirect block |
| RawFs.DoubleBlock | minix/src/boot/rawfs.c:240-285 | past those it is in the zone reached through two entries, and 0 if one of the two blocks is missing |
| RawFs.TableLookup | minix/src/boot/rawfs.c:240-285 | where in that table the direct, the single and the double indirect zones are |
| RawFs.AnswersExactly | minix/src/boot/rawfs.c:218-285 | -1 exactly past the end of the file, and 0 exactly for which holes |
| RawFs.OneBlockZones | minix/src/boot/rawfs.c:218-285 | with one block to a zone, 0 exactly for holes |
| TrackBuffer.FileVir2Sec | minix/src/boot/bootimage.c:249-261 | a sector of a file is nowhere, in a hole, or where its block is |
| TrackBuffer.SectorInBlock | minix/src/boot/bootimage.c:249-261 | every byte of the sector is in the block, and at the place in it, that is picked |
| TrackBuffer.TrackBuffer.GetSector | minix/src/boot/bootimage.c:269-319 | the disk's bytes or zeros for a hole; the buffer always mirrors at most 16 consecutive sectors |
| TrackBuffer.TrackBuffer.Track | minix/src/boot/bootimage.c:302-309 | how far reading ahead goes: up to 16, a boundary, or the first sector that does not follow |
| TrackBuffer.GetSectors | minix/src/boot/bootimage.c:269-319 | over any sequence of requests on a readable disk each gets its own sector |
| BootFile.Volume.ImageIsFile | minix/src/boot/bootimage.c:249-261 | the sectors that the loader reads of an image file begin with the file's bytes and go on to the end of its last block |
| BootFile.GetImageSectors | minix/src/boot/bootimage.c:249-319 | through file, block map and track buffer the loader gets just those sectors, in any order of requests |
| ImageFormat.StripKeeps | minix/src/boot/installboot.c:227-229 | stripping changes the symbol table's size and flag and nothing else |
| ImageFormat.FieldsAreRead | minix/src/include/a.out.h:6-51 | from a header written field by field each field and each flag is read as it was written |
| ImageFormat.LongLaw | minix/src/include/a.out.h:13-18 | a 32-bit number is read from its four bytes, lowest first |
| ImageFormat.SectorsForIs | minix/src/boot/bootimage.c:234-244 | as many sectors as are enough for the bytes, and no more |
| ImageFormat.HeaderReads | minix/src/boot/installboot.c:231-234 | a header sector holds the name from byte 0, the stripped header from byte 64, and zeros, and gives both back |
| ImageFormat.SegmentsFillSectors | minix/src/boot/bootimage.c:234-244 | the segments of a program take as many sectors as the loader computes when it passes over them |
| InstallBoot.MakeImage | minix/src/boot/installboot.c:195-257 | the image of all programs is written, or the first that is incomplete is refused |
| InstallBoot.Sink.CopyExec | minix/src/boot/installboot.c:174-193 | a segment is copied and padded to whole sectors; a premature end is refused |
| InstallBoot.Sink.ExtractExec | minix/src/boot/installboot.c:268-282 | as many bytes as the header says are copied, and whole sectors are passed |
| InstallBoot.ExtractImage | minix/src/boot/installboot.c:284-334 | the programs that an image is read as |
| InstallBoot.ProgramsOfImage | minix/src/boot/installboot.c:284-334 | taking apart the image of any executables gives back each of them, in order |
| InstallBoot.WhatIsExtracted | minix/src/boot/installboot.c:284-334 | whatever an image holds, a program is taken from it if and only if there is a good header with all its sectors behind it; the file has the length that its header says and can be put into an image again |
| InstallBoot.OnlySymbolsStripped | minix/src/boot/installboot.c:227-229 | an extracted file differs from the original only in the symbol table's size and flag, and in what follows its data |
| InstallBoot.Remade | minix/src/boot/installboot.c:195-257 | what comes out of an image makes the same image again |
| BootLoad.RawClear | minix/src/boot/bootimage.c:98-117 | the doubling loop clears exactly the bytes asked for, and never copies onto its own source |
| BootLoad.AlignIsCeil | minix/src/boot/bootimage.c:119-120 | rounding with unsigned 32-bit numbers is right also for what is left of a size, down to minus a click |
| BootLoad.Loader.GetSegment | minix/src/boot/bootimage.c:349-377 | address plus size stays the same, the segment and zeros to the next click are written and nothing else, nothing at or above the limit; a negative size loads nothing; exactly when it is refused |
| BootLoad.Loader.LoadProcess | minix/src/boot/bootimage.c:466-541 | the rounding slack of text and data goes to bss and stack: the process ends at the click that all of them laid end to end reach, also when the stack is negative; memory and process are those that BootInstalled.ProcessInPlace describes; as many sectors are passed as when it is skipped |
| BootInstalled.ProcessInPlace | minix/src/boot/bootimage.c:477-541 | where the program's memory stands its text is at cs, its data and zeros at data, and ds points to the data of a separate program and equals cs otherwise, all but for a click if page zero is unmapped; the entry is the header's |
| BootRun.PlacedEnds | minix/src/boot/bootimage.c:506-541 | where what is written ends, and where the process ends, which is a click |
| BootRun.ExecImage | minix/src/boot/bootimage.c:403-548 | memory after loading an image is what the run of the processes writes, one over the other |
| BootRun.StepPlaces | minix/src/boot/bootimage.c:447-547 | each process starts at a click at or above free memory, is written below the limit, and ends at or above everything written if and only if its total takes no click back |
| BootRun.StepMakes | minix/src/boot/bootimage.c:447-547 | what the kernel's flags, read bit by bit, and the processor mean for bss, stack, start and limit of a process and for the next one, and that it ends within a click of its data, bss and stack |
| BootRun.RunMakesAll | minix/src/boot/bootimage.c:414-548 | over a whole run every process is made so, under the click size and flags of the kernel that the run began with |
| BootRun.TakesBackExactly | minix/src/boot/bootimage.c:470-537 | clicks are taken back if and only if the kernel listens to totals, the process gets its own memory, and the total takes fewer clicks than what it should cover |
| BootRun.RunInOrder | minix/src/boot/bootimage.c:414-548 | each process begins where the one before ends, or in extended memory behind the kernel, and they lie one behind the other if and only if none begins in clicks that were taken back |
| BootRun.CoveredKeepApart | minix/src/boot/bootimage.c:470-475 | if every total covers what its header describes, none does |
| BootRun.AllIntact | minix/src/boot/bootimage.c:414-548 | when all are loaded, each process's memory is as if it alone had been loaded |
| BootInstalled.LoadsTheProgram | minix/src/boot/bootimage.c:487-530 | what is loaded from an image that was made from an executable is that executable's text and data, and zeros |
| BootInstalled.RunPlacesChosen | minix/src/boot/bootimage.c:414-437 | a run over such an image loads exactly the programs that BootInstalled.ChosenExactly describes, in order, and if no header follows the image, is abandoned when the last is not chosen |
| BootRun.SelectedExactly | minix/src/boot/bootimage.c:219-232 | a program is selected if and only if its name has no colon, or no label is asked for, or the name begins with the label and a colon |
| BootRun.SelectedByLabel | minix/src/boot/bootimage.c:219-232 | a name made of a label, a colon and anything else is selected by that label and by no other |
| BootInstalled.ChosenExactly | minix/src/boot/bootimage.c:414-437 | the chosen programs are those, each by its own name and in order |
| BootInstalled.KernelWords | minix/src/boot/bootimage.c:321-347 | click shift and flags are the words at 2 and 4 behind the header of the kernel's file; which values are refused |
| BootRun.WordLaw | minix/src/boot/bootimage.c:328-330 | a 16-bit number is read from its two bytes, lowest first |
| BootInstalled.RunExactly | minix/src/boot/bootimage.c:414-547 | whatever follows the image, a run over it gets to its end if and only if every program to load is for the processor and has room where those before it end, and, when the last is passed over, a process found behind the image is loaded in its place |
| BootInstalled.LastIsNeeded | minix/src/boot/bootimage.c:424-437 | if no header follows the image and the last program is not one to load, the run is abandoned |
| BootRun.StepExactly | minix/src/boot/bootimage.c:439-547 | a process is loaded if and only if it is for the processor, the kernel says what a click is, its segments can be read and there is room; nothing else is tested |
| BootRun.AdmittedExactly | minix/src/boot/bootimage.c:439-530 | who is admitted in terms of the processor, the kernel's words and sums of sizes: all clicks of text, data and zeros below the limit, the segments with their excess |
| BootInstalled.ImageIsSound | minix/src/boot/bootimage.c:466-541 | if no segment reaches 2^31 and all programs fit in 32 bits above the start of either memory, no process that a run reaches makes an address wrap |
| BootInstalled.LoadPrograms | minix/src/boot/bootimage.c:414-548 | loading an image of executables gets to its end if and only if all to load are admitted; then each is a process under the click size and flags that the first one's file says, in the memory that header and flags prescribe, and its text, data and zeros stand where that process looks for them, unless clicks were taken back |
| BootTokens.TokenComesOff | minix/src/boot/boot.c:340-379 | a well-formed token comes off the front of a line whole |
| BootTokens.NewlineIsSeparator | minix/src/boot/boot.c:347-375 | of a run of newlines the last one is a token, and it is a semicolon |
| BootTokens.EndsAtControl | minix/src/boot/boot.c:352-353 | a line ends at any other control character |
| BootTokens.ParenTakes | minix/src/boot/boot.c:355-362 | a parenthesized token ends where it closes, or takes all of the line if it does not close |
| BootTokens.PrintedComesApart | minix/src/boot/boot.c:1656-1662 | taking a printed function body apart gives the tokens it was printed from |
| BootInterpreter.Monitor.OneToken | minix/src/boot/boot.c:340-379 | the first token of a line and the rest of it |
| BootInterpreter.Monitor.Tokenize | minix/src/boot/boot.c:388-407 | all tokens of a line, in order |
| BootInterpreter.Monitor.BSetEnv | minix/src/boot/boot.c:716-751 | an entry is added or changed, its default kept aside and its lasting flags kept, or the change is refused |
| BootInterpreter.Monitor.BUnset | minix/src/boot/boot.c:765-789 | an entry is removed, or reset if it is special, as BootMonitor.UnsetLookup describes |
| BootInterpreter.Monitor.ExecuteOne | minix/src/boot/boot.c:1596-1678 | a null command, an assignment or a function definition is executed |
| BootInterpreter.Monitor.SaveParameters | minix/src/boot/boot.c:928-967 | the sector with a line for every entry that is not as it was at first, or nothing if they do not fit |
| BootInterpreter.Monitor.GetParameters | minix/src/boot/boot.c:903-909 | a sector is taken apart and executed |
| BootMonitor.SetEnvLookup | minix/src/boot/boot.c:716-751 | setting is refused just for a reserved word without an entry and for a special entry of the other kind; otherwise it changes what one name means, to what is given, and no other |
| BootMonitor.UnsetLookup | minix/src/boot/boot.c:765-789 | after unsetting, the name of an entry that is not special means nothing, a special one has its default back without argument, and every other name means what it did |
| BootMonitor.FindsFirst | minix/src/boot/boot.c:686-695 | no entry before the one that is found has its name |
| BootMonitor.SavedExactly | minix/src/boot/boot.c:928-967 | the sector saved is the one that the lines begin and newlines fill; there is none if and only if the lines are longer |
| BootRestore.ExecuteKeeps | minix/src/boot/boot.c:1610-1678 | commands made of closed tokens keep an environment that can be restored |
| BootRestore.UnsetKeeps | minix/src/boot/boot.c:765-789 | so does unsetting |
| BootRestore.LinesComeApart | minix/src/boot/boot.c:928-967 | a saved sector comes apart into the commands of its entries |
| BootRestore.SavedIsRestored | minix/src/boot/boot.c:928-967 | executing a saved sector from the defaults restores every value, argument and body |
| BootRestore.SessionIsRestored | minix/src/boot/boot.c:903-967 | whatever commands and removals are typed from the defaults on, the environment they end in is restored from its saved sector |
| BootRestore.DeviceMarkRestored | minix/src/boot/boot.c:943-954 | an entry comes back whole if and only if its device mark is not of the two kinds that are lost |
| ScullPipe.SpaceIsExact | kMod01/examples/scull/pipe.c:181-186 | full and empty are never confused: the free space is what is not queued, less one cell |
| ScullPipe.ReadTakesOldest | kMod01/examples/scull/pipe.c:138-149 | a read takes the oldest bytes, at least one if any are asked for |
| ScullPipe.WriteAppends | kMod01/examples/scull/pipe.c:202-215 | a write appends the first of its bytes, at least one if it has any |
| ScullPipe.ReadEnds | kMod01/examples/scull/pipe.c:138-149 | a read ends where its count, what is queued or the buffer does, and no sooner |
| ScullPipe.WriteEnds | kMod01/examples/scull/pipe.c:202-215 | a write ends where its data, the free space or the buffer does, and no sooner |
| ScullPipe.Pipe.TakeOut | kMod01/examples/scull/pipe.c:138-149 | the locked part of a read, in place |
| ScullPipe.Pipe.PutIn | kMod01/examples/scull/pipe.c:202-215 | the locked part of a write, in place |
| ScullPipe.EveryStepKeeps | kMod01/examples/scull/pipe.c:118-226 | every step of any process keeps the order of the bytes and owes a wake-up to whoever sleeps needlessly |
| ScullPipe.LockTransfers | kMod01/examples/scull/pipe.c:118-226 | who gets the lock transfers bytes, at least one of those it asks for, if and only if the ring lets it, and otherwise queues itself |
| ScullPipe.StaysInCall | kMod01/examples/scull/pipe.c:118-226 | a process is in its call from entering to giving up or waking the others; no other process ends it and no other step transfers anything |
| ScullPipe.EveryRun | kMod01/examples/scull/pipe.c:118-226 | in every interleaving the bytes delivered are an in-order prefix of those accepted |
| ScullPipe.SleepForAReason | kMod01/examples/scull/pipe.c:118-226 | when nothing moves, sleeping readers face an empty pipe and sleeping writers a full one, never both |
| ShortPrint.SpaceIsFree | kMod01/examples/shortprint/shortprint.c:119-126 | the space computed from two reads of a moving tail is free and does not wrap |
| ShortPrint.WritesAll | kMod01/examples/shortprint/shortprint.c:119-126 | a writer that reads the tail twice alike writes up to the end of its data, of the page or of the free space, and waits only for a full ring |
| ShortPrint.EveryStepKeeps | kMod01/examples/shortprint/shortprint.c:231-349 | no unsent byte is overwritten, output is in order, and output is active, or about to be made so, while there is something to print |
| ShortPrint.StepKeepsData | kMod01/examples/shortprint/shortprint.c:231-305 | accepted data and the data that the writer still holds stay the same at every step, but that a call adds its own and a signal or fault gives up what is held; the call ends on its own if and only if nothing is |
| ShortPrint.EveryRun | kMod01/examples/shortprint/shortprint.c:231-349 | the same over every run from the start, and what is printed is a prefix of what is accepted; ShortPrint.NothingLost says what is accepted |
| ShortPrint.NothingLost | kMod01/examples/shortprint/shortprint.c:231-305 | over every run what is accepted is what callers gave, in order and once, less what was given up and what is still held |
| ShortPrint.NeverStalls | kMod01/examples/shortprint/shortprint.c:255-268 | in every run, while output is active, the handler is queued or at work or the printer owes the interrupt for a byte |
| ShortPrint.QuietMeansDone | kMod01/examples/shortprint/shortprint.c:306-349 | when nothing is pending everything accepted is printed, and a writer still asleep is a forgotten one |
| ShortPrint.ForgottenForGood | kMod01/examples/shortprint/shortprint.c:345-348 | a forgotten writer stays asleep whatever the handler does |
| ShortPrint.ForgottenExactly | kMod01/examples/shortprint/shortprint.c:119-126 | a step forgets a writer if and only if it is the second read of its last test, on an empty ring at 0 whose tail was elsewhere at the first |
| ShortPrint.NeverForgotten | kMod01/examples/shortprint/shortprint.c:231-349 | a run with no such read forgets no writer |
| ShortPrint.ForgottenRun | kMod01/examples/shortprint/shortprint.c:119-126 | for every page of at least four cells, a run that forgets its writer |
| Scull.PlaceOfPos | kMod01/examples/scull/main.c:310-312 | item, array index and offset determine the position |
| Scull.PosOfPlace | kMod01/examples/scull/main.c:310-312 | and the position determines them |
| Scull.Device.RoomIsGreatest | kMod01/examples/scull/main.c:320-322 | a position is in the quantum of an earlier one if and only if it is nearer than the most that a read or write there may transfer |
| Scull.SlotReplaced | kMod01/examples/scull/main.c:355-373 | replacing one quantum changes the bytes at its positions and no others |
| Scull.Device.Follow | kMod01/examples/scull/main.c:262-286 | following the list may make it longer and changes no byte |
| Scull.Device.Read | kMod01/examples/scull/main.c:292-334 | a read returns the bytes last written, up to the end of the quantum, and nothing from a hole or past the end |
| Scull.Device.Write | kMod01/examples/scull/main.c:336-387 | a write changes the positions it writes and no byte that existed elsewhere; it fails only when memory runs out |
| Scull.Device.Trim | kMod01/examples/scull/main.c:63-84 | every block in use is freed, none twice, nothing is left, and the current geometry is taken on, whatever it is |
| Scull.Params.Ioctl | kMod01/examples/scull/main.c:421-494 | only the module's parameters change: back to the first values for anyone, to other values, even useless ones, for an administrator |
| Snull.StepConserves | kMod01/examples/snull/snull.c:98-186 | no step loses or doubles a packet |
| Snull.LastArrivedFirst | kMod01/examples/snull/snull.c:163-186 | over every run, of the packets that wait at a device the one that arrived last is received first |
| Snull.GoesAcross | kMod01/examples/snull/snull.c:483-486 | a packet that is transmitted and queued waits at the other device |
| Snull.ComesBack | kMod01/examples/snull/snull.c:132-161 | a packet that is put back is the next one that its device transmits |
| Snull.RunningExactly | kMod01/examples/snull/snull.c:132-161 | while every running queue has a packet no null pointer is taken, and a step spoils that if and only if it wakes a queue whose pool is empty |
| Snull.NullAfterwards | kMod01/examples/snull/snull.c:132-161 | after such a step the next transmission takes a null pointer |
| Snull.StepWaking | kMod01/examples/snull/snull.c:132-161 | no step leaves a queue stopped with packets in its pool and nobody about to wake it; pools and receive queues are linked lists |
| Snull.EveryRun | kMod01/examples/snull/snull.c:287-504 | in every run each packet is in one place, and a queue that is stopped with packets is about to be woken |
| Snull.RunsExactly | kMod01/examples/snull/snull.c:287-504 | running queues have packets in every state of a run if and only if no test of the run wakes an empty one |
| Snull.LateTest | kMod01/examples/snull/snull.c:150-161 | for every pool of at least two packets, a run with a single poll after which a null pointer is taken |
| Snull.OneIsSafe | kMod01/examples/snull/snull.c:132-161 | with one packet in each pool no run wakes an empty queue |
| ScannerBuffer.Buffer.Read | compiler/coco/Scanner.java:80-89 | the next byte of the file, wherever the window is, or EOF |
| ScannerBuffer.Buffer.Peek | compiler/coco/Scanner.java:91-96 | the same without moving |
| ScannerBuffer.Buffer.SetPos | compiler/coco/Scanner.java:112-128 | the position is set within the file, backwards from its end too |
| ScannerBuffer.ClampIsNearest | compiler/coco/Scanner.java:112-115 | the position set is the one in the file that is nearest to the one asked for |
| ScannerBuffer.Buffer.GetString | compiler/coco/Scanner.java:98-106 | the bytes of a stretch of the file, and the position kept |
| ScannerBuffer.UTF8Buffer.Read | compiler/coco/Scanner.java:137-166 | one character of one to four bytes is decoded |
| ScannerBuffer.DecodeAllEncoded | compiler/coco/Scanner.java:137-166 | decoding undoes the encoding of section 3 of RFC 3629 for every sequence of code points |
| ScannerBuffer.Resumes | compiler/coco/Scanner.java:137-143 | from anywhere inside a character reading goes on with the one that follows |
| ScannerBuffer.TakenForEnd | compiler/coco/Scanner.java:137-166 | a character is taken for the end of the file if and only if it is U+10000 |
| Parsing.Parser.PutValue2Reg | compiler/src/compiler/Parser.java:1450-1464 | an item that is not in a register is fetched into the next one |
| Parsing.Parser.Value2Reg | compiler/src/compiler/Parser.java:1290-1321 | after any term exactly one more register is taken, and the code is the loading code |
| Parsing.Parser.MeetOperator | compiler/src/compiler/Parser.java:948-968 | when an operator is met the jumps recorded since its level are settled and handed on |
| CodeGeneration.CodeGenerator.LoadWordType | compiler/src/compiler/CodeGenerator.java:143-160 | a cell is loaded into the next register |
| CodeGeneration.CodeGenerator.StoreWordCell | compiler/src/compiler/CodeGenerator.java:218-228 | the last register is stored in a cell and given back |
| CodeGeneration.CodeGenerator.PutOperation2Reg | compiler/src/compiler/CodeGenerator.java:174-194 | two registers are joined in the lower one |
| CodeGeneration.CodeGenerator.PutImOp2Reg | compiler/src/compiler/CodeGenerator.java:196-216 | an immediate is joined to the last register |
| CodeGeneration.CodeGenerator.Relation | compiler/src/compiler/CodeGenerator.java:352-359 | a compare and a branch on the inverted relation with a placeholder are emitted, and the branch's position returned |
| CodeGeneration.CodeGenerator.FixConditionJump | compiler/src/compiler/CodeGenerator.java:379-386 | one jump with a placeholder gets its target |
| CodeGeneration.CodeGenerator.ElseAndLoopJump | compiler/src/compiler/CodeGenerator.java:361-364 | an unconditional jump is emitted and its position returned |
| SymbolTable.SymbolTableList.AddLocal | compiler/src/compiler/SymbolTableList.java:37-81 | a new name gets the next offset down in its method, a known one changes nothing |
| SymbolTable.SymbolTableList.FixLocalOffset | compiler/src/compiler/SymbolTableList.java:261-263 | the offset of the method's next symbol is moved and nothing else |
| Linking.BinaryFile.FixAddressing | compiler/src/linker/BinaryFile.java:122-138 | all fix-ups of a module are applied, and all modules loaded on the way are fixed |
| Linking.BinaryFile.Load | compiler/src/linker/BinaryFile.java:53-120 | an import not yet loaded is placed and fixed |
| Linking.BinaryFile.PatchCall | compiler/src/linker/BinaryFile.java:53-120 | one word is patched with the address of the symbol it names |
| Linking.PatchPoints | compiler/src/linker/BinaryFile.java:154-163 | a patched word keeps its operation and holds the symbol's address |
| ObjectFiles.ObjectFile.WriteTable | compiler/src/linker/ObjectFile.java:103-134 | the rows of a table are appended in order |
| ObjectFiles.ObjectFile.WriteOpCode | compiler/src/compiler/CodeGenerator.java:468-506 | the code words are appended in order |
| ObjectFiles.ObjectFile.ReadTable | compiler/src/linker/ObjectFile.java:314-350 | reading the words of a written table gives its rows, and reading goes on behind it |
| RawFs.ListedAllAt | minix/src/boot/rawfs.c:257-285 | zone k of a double indirect block is zone k modulo the block's length of its indirect block number k divided by it |
| InstallBoot.ReadHeader | minix/src/boot/installboot.c:96-128 | the header of an executable is read, the parts it lacks being zero, or the file is refused |
| InstallBoot.AddProgram | minix/src/boot/installboot.c:211-257 | header sector and padded segments of one program are appended |
| InstallBoot.ExtractProgram | minix/src/boot/installboot.c:301-333 | the first program of what is left of an image, and where the next one begins |
| BootLoad.FitsExactly | minix/src/boot/bootimage.c:354-379 | a readable segment is loaded if and only if the limit leaves its clicks and the excess asked for, which is nothing if and only if its last click takes no more than one sector |
| BootLoad.RefusedThoughItFits | minix/src/boot/bootimage.c:354-379 | 600 bytes are refused a click of 4096 that they would fit in |
| BootLoad.Loader.CopyChunks | minix/src/boot/bootimage.c:354-370 | pieces of a click or a sector are copied until the size is reached; exactly why it stops early |
| BootRun.FindHeader | minix/src/boot/bootimage.c:424-437 | the next header whose name is selected, as BootRun.SelectedExactly describes, if the search finds one |
| BootRun.LoadOne | minix/src/boot/bootimage.c:439-547 | one process is loaded, and where the run goes on |
| BootRun.ShiftIsClick | minix/src/boot/bootimage.c:321-347 | every click shift that is accepted gives a click size the loader can work with |
| BootTokens.KeptApart | minix/src/boot/boot.c:1658-1660 | where no space is printed between two tokens they still come apart |
| BootInterpreter.Monitor.SearchEnv | minix/src/boot/boot.c:686-695 | the first entry of a name, or the end of the list |
| BootInterpreter.Monitor.FindExtent | minix/src/boot/boot.c:1642-1651 | where a function's body ends, and how deep in braces |
| BootInterpreter.Monitor.PrintBody | minix/src/boot/boot.c:1656-1662 | the text of a body |
| BootInterpreter.Monitor.AddParm | minix/src/boot/boot.c:923-926 | text is appended as far as there is room |
| BootRestore.LineComesApart | minix/src/boot/boot.c:942-960 | a saved line comes apart into the entry's commands |
| BootRestore.CommandsSet | minix/src/boot/boot.c:1606-1678 | executing an entry's commands sets it |
| ScullPipe.OneMoves | kMod01/examples/scull/pipe.c:159-178 | a process without a wake-up to give may go anywhere but to sleep on something it could have |
| ShortPrint.MeasureKeeps | kMod01/examples/shortprint/shortprint.c:119-126 | what is known of a tail read twice |
| Scull.Device.GetQuantum | kMod01/examples/scull/main.c:354-368 | there is memory for a position afterwards, and every byte that existed is as it was |
| Scull.Device.FreeItem | kMod01/examples/scull/main.c:69-78 | the blocks of an item, its array and its quanta are freed, none twice and no other |
| TrackBuffer.TrackBuffer.ReadSectors | minix/src/boot/bootimage.c:311-317 | the sectors are in the buffer, or one of them cannot be read |
| ScannerBuffer.ReadChars | compiler/coco/Scanner.java:137-166 | reading character by character gives what is decoded from the position on |
| ScannerBuffer.DecodeEncoded | compiler/coco/Scanner.java:145-166 | one character comes back wherever it is in the file |

## Left out

- Parsing.Parser.Term: arithmetic terms are trees; chains of three or more operators, whose tail the
  parser reads as another expression, are not built.
- Parsing.Parser.Relation: boolean variables and literals as operands are not modelled.
- Parsing.Parser.Expression: the same; neither are method calls as operands. Errors and their recovery, the
  token list, and type checks are left out.
- Parsing.Parser.BodyBlock: statements are assignments to scalar variables, print, if, if/else and while;
  calls, returns and array elements are left out. Constant division by zero, which makes the compiler
  stop with an exception, is excluded (`CodeShape.Foldable`). A print takes any term, where the parser takes
  an identifier or a literal.
- Compilation.Compile: the program is a body of statements; the call of main in front of it is not emitted.
- StmtSimulation.StmtRuns: registers are counted below the frame pointer (`CodeShape.StmtFits`); a
  program that needs more overwrites it. Memory that was never written is a number, not Java's null.
- CallFrame.CallReturns: parameters and results are not passed; a caller that pushes parameters does not
  pop them, so its stack pointer does not come back.
- NestedCalls.BodyRuns: the same; calls stand between statements, not inside them, and a nest of calls is finite.
- SymbolTable.SymbolTableList.DeclareMethod: symbol files, arrays and names declared twice are left out.
- Linking.Link: branches other than listed call sites are not relocated by the linker, and no claim is made
  that code with such branches runs. The exit symbol and the exported file are left out.
- ObjectFiles.ObjectFile.ScanFile: ghost arguments name the written contents; files that no compiler wrote
  are not covered. Names are ASCII without '='.
- RawFs.Reader.Stat: the inode is handed in, not read from the list of inodes.
- RawFs.Reader.Vir2Abs: the product of block number and block size is not taken modulo 32 bits; directories
  and the superblock are left out.
- TrackBuffer.TrackBuffer.GetSector: the disk does not change, and the sectors of an image have numbers
  from 1 to below 2 to the power 32, less 1.
- InstallBoot.ReadHeader: the same exclusion as for InstallBoot.MakeImage.
- InstallBoot.AddProgram: the same exclusion as for InstallBoot.MakeImage.
- InstallBoot.MakeImage: a header length above the 48 bytes of a header structure, for which the program
  writes past it, is excluded, and refused when extracting. Sizes are unsigned; the name is taken as it
  goes into the header. Boot blocks, devices and messages are left out.
- BootLoad.Loader.LoadProcess: addresses that wrap beyond 32 bits are excluded (`BootLoad.NoWrap`), and so are
  segments of 2^31 bytes or more, whose sizes are negative numbers to the loader.
- BootRun.LoadOne: the same, as `BootRun.StepSound`.
- BootRun.ExecImage: the same, as `BootRun.Sound`. Extended memory begins at a multiple of 64 KB. The headers
  kept for the kernel, the test of its magic number, the patching of sizes and starting it are left out, so
  that it gets to the end for an image without programs too. Room for stacks is not compared with the limit by
  the loader; the claims are about bytes written.
- BootInstalled.LoadPrograms: the same; and a process found behind the image, of which nothing is known, is
  excluded (`BootInstalled.StaysInside`).
- BootInterpreter.Monitor.ExecuteOne: all other commands, timers and interrupts are left out. A definition
  at the very end of the commands, where the monitor would look behind the last one, prints no space there.
- BootRestore.ExecuteKeeps: parentheses match in every token; a token with an open one runs to the end of its
  line when it is read back.
- ScullPipe.EveryStepKeeps: starts after all opens; an open resets the positions even while bytes are queued.
  Locked sections are atomic, the tests of a sleeper are not. Select and asynchronous notices are left out.
- ShortPrint.EveryStepKeeps: one writer, as its semaphore ensures. Copying into the ring is one step, apart
  from moving the head. Delays, the timer's bookkeeping and the read side are left out; a page has at least
  four cells.
- Scull.Device.Write: the list is a sequence. A fault in copying to
  or from the user changes nothing and is left out, and so are writing with a geometry of zero or less, for
  which the driver divides by zero or asks for no memory, two openers with the size read before the lock, and
  seeking.
- Scull.Params.Ioctl: the argument is taken as the number that it is stored as; the commands that pass it by
  address and those for the size of the pipe's buffer are left out.
- Snull.EveryRun: lock-ups, time-outs, statistics and the contents of packets are left out. Taking a packet
  off a receive queue stands for both interrupt handlers and for polling.
- ScannerBuffer.Buffer.GetString: called on a UTF-8 buffer it reads characters where bytes are counted; the
  claim is about the plain buffer.
- The Swing debugger, XML symbol files, the compiler's scanner and parser tables, partition booting, menus,
  BIOS calls, and the drivers that only move registers would add easy members or need hardware.

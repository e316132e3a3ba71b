# Katabasis: a verified model of its address, table, layout and stream algorithms

Katabasis recompiles arm64 Mach-O programs for armv7. Most of it stands on LLVM, clang and libobjc; the parts modelled here
stand on their own, and each decides something the translated program depends on: which code may touch the thread register,
whether every guest byte lands at its guest address, how classes are laid out and which class stands for which, what a
variadic call hands to the host, and a few arithmetic and in-place algorithms. Each module takes the shape of the code it
models: classes, arrays and loops where the source updates state, functions and datatypes where it computes. A method is proved
against a specification that does not mention its loop; the lemmas beside it say what that specification means.

| module | what it models |
|---|---|
| `TsdRanges`, `TsdInstructions`, `TsdGraph`, `TsdBlocks`, `TsdMeaning`, `TsdBuild`, `TsdAnalysis`, `TsdSeeds` | the scan for uses of TPIDRRO_EL0: function ranges, blocks, worklist in two merge directions, report, seeds handed between functions; `TsdMeaning` says what its terms come to, opcode by opcode |
| `GuestData`, `GuestLayout`, `GuestEmission` | the cutting of guest segments into globals, the merging of an image's data segments, the addresses given to the linker |
| `JumpTables`, `LiftLoop` | the scan of a jump table and the closure of the functions to lift |
| `Exports` | two-level name resolution over a possibly cyclic re-export graph |
| `ClassSplit` | which Swift classes keep the guest's class layout |
| `FixLayout` | the memoised slide of instance variables over a class hierarchy |
| `SwiftClasses` | the two-way tables of guest classes and their host shadows |
| `FormatMarshal` | the rewriting of printf formats and the packing of their arguments |
| `ScalarBridge`, `RecordMirror`, `MirrorTrip` | the conversion of scalars and of whole records between the two layouts |
| `SortLongs`, `Crc32`, `Int128`, `BindStream` | in-place quicksort, table CRC, 128-bit division, in-place rewriting of a bind opcode stream |
| `Wrappers`, `Ordering`, `Sets`, `Arithmetic` | shared helpers |

## Reading the model

* **The scan.** A function is its words and the graph `BuildBlocks` makes of them: `br`, `blr` and exception-raising
  instructions end a path, and a `bl` whose target lies in its own range also has an edge to it. `Reaches` says that some path
  of that graph brings the register base to an instruction with nothing on the way killing it. The may pass is exactly
  `Reaches`. The must pass starts every block but the first with nothing, in both directions, so its solution is not the
  textbook one: it is what the seed brings to the entry and every edge back to it keeps (`MustEntry`), and nothing at other
  blocks; that is what `Certain` says, and it is sound for every path.
  The comment at xlate/src/tsd_scan.cpp:423-425 takes calls to be recorded at the fixpoint of the must pass. The code records
  one on every visit of a block, before the fixpoint too, and the comment is false: `RecordedBeforeTheFixpoint` is a function of
  four instructions whose call is recorded with a register nothing is certain of in the end. The blocks are first run last to
  first, so what the entry block is first run with is decided by the last block that cuts the seed (`FirstEntry`). Every call
  is recorded with exactly what the must solution is certain of if and only if the function is `Steady`: a callee-saved
  register that its first run carries to a call of the entry block, where nothing makes it anew, is one that every edge back to
  the entry hands on. A function that nothing branches back to the start of is, and so is one whose first block makes no call.
* **Seeds.** What a call was ever recorded with is handed on, so the final seeds may hold more than the must solution's. They are
  pinned down: the least family closed under what callers have at their calls when they first run the calls' blocks
  (`Foremost`, `LeastSeeds`; `SeedsAreHanded` says so over the words themselves), so they, the lines and the verdict do not
  depend on the order in which functions are visited. Every seeded register came over a chain of such calls that starts at an
  mrs; an image without an mrs is accepted.
* **Function ranges.** The loop at xlate/src/tsd_scan.cpp:561-567 leaves out the greatest start, and the loop after it, which is
  to close each section, takes its starts from the ranges there are. So the function at the end of an image has no range and
  is never analysed by itself, whatever calls hand it (`LastFunctionUnscanned`). The one before it, if it is in the same section,
  has two ranges of one start, of which the second goes on over that function's code. Which of the two is analysed is left to
  an unstable sort; `ScanImage` takes one range for each start.
* **Guest data.** A linked byte is a byte of the image, or a part of a slot's or an override's constant. A segment is laid out
  right exactly when its overrides and slots are `Sound`; `StraddlingSlotShifts` is a segment that is not, in which a slot
  begins four bytes before an override and every later byte moves up. The entries of a run are those of the input, image by
  image and segment by segment (`AllEntries`). A host segment is laid right when its own members are sound and adjoin
  (`SoundHost`), whatever the others are; those of a merged one adjoin always, and so does a member that has its host segment
  to itself. `GuestEmission` says all this over the overrides, segments and names as they are given (`ClearHost`, `InPlace`).
* **Layouts and tables.** Guest superclass chains are taken to end (`Acyclic`, by a rank). Every quantity of the slide is taken
  to be below 2^31 (`Fits`), where the 32-bit casts of the code are exact. A run that the process ends (`abort`,
  `xl_unsupported`) is a result `ok == false`; its condition is stated both ways.
* **Classes.** `AncestorsMove` takes the superclass that an address is known by to be the class's own or an import
  (`Consistent`): ResolveGuestImports (xlate/src/objc.cpp:498-520) resolves what the class lists name and not what
  `__objc_clsrolist` does.
* **Records.** A union inside a record passes `Leaves` as a record whose fields lie one over the other. The mirror then
  misplaces it: `Mirror` puts every leaf where the guest has it exactly when the leaves are in order and apart, and
  `UnionIsNotMirrored` is a record with a union that no structure with its leaves mirrors, whatever the padding. `Leaves` walks
  an array to the guest's length whatever the host's (`ShorterHostArray`). Its leaves are scalars of both types exactly where no
  array of the guest's that holds a scalar is longer than the host's, and every scalar of the host's type has a leaf exactly
  where none of the host's is longer than the guest's (`NoLonger`). The host's and the guest's integer round-trip exactly when the
  host's is no wider and, unless they are equally wide, of the same sign.
* **Exports.** A query that no image answers may be answered by a bridge in the middle of the search, before a later whole
  re-export; the theorem therefore says that an answer comes from an image within eight steps or from a bridge, and that
  there is one exactly when one of those offers it, not that guest images win.
* **Messages.** What is printed when something is refused is not modelled, only whether the process or the tool goes on.

## Model

| member | source | states |
|---|---|---|
| TsdInstructions.StepMeaning | xlate/src/tsd_scan.cpp:408-447 | the transfer of one instruction is gen and kill, register by register, so it distributes over union |
| TsdGraph.FlowPointwise | xlate/src/tsd_scan.cpp:408-447 | registers do not influence each other through a run of instructions |
| TsdGraph.ReachStep | xlate/src/tsd_scan.cpp:408-447 | what paths carry to an instruction, it carries over every edge out of it unless it kills it |
| TsdGraph.MustIsSound | xlate/src/tsd_scan.cpp:321-341 | whatever the must pass is certain of just before an instruction holds on every path from the entry |
| TsdGraph.CertainIsTracked | xlate/src/tsd_scan.cpp:449-506 | at every instruction the certain set is contained in the tracked set |
| TsdGraph.ReachesMonotone | xlate/src/tsd_scan.cpp:583-628 | a larger seed loses no tracked register |
| TsdGraph.CertainMonotone | xlate/src/tsd_scan.cpp:583-628 | a larger seed loses no certain register |
| TsdGraph.ForemostMonotone | xlate/src/tsd_scan.cpp:321-341 | nor any that the first run of a block has, although a larger seed may be cut elsewhere |
| TsdGraph.ForemostIsCertain | xlate/src/tsd_scan.cpp:321-341 | the first run of a block has at least what the must solution ends with, and outside the entry block just that |
| TsdBlocks.GraphIsValid | xlate/src/tsd_scan.cpp:349-405 | a word that starts no block is entered exactly from the word before it, which goes nowhere else |
| TsdBlocks.StraightInside | xlate/src/tsd_scan.cpp:349-371 | branches only end blocks |
| TsdBlocks.EdgeOut | xlate/src/tsd_scan.cpp:372-405 | every instruction edge between blocks is an edge of the block graph |
| TsdBlocks.ClosedHoldsPaths | xlate/src/tsd_scan.cpp:321-341 | a may solution closed under block edges holds whatever any path carries |
| TsdBlocks.MayIsExact | xlate/src/tsd_scan.cpp:321-341 | closed and justified by paths, a may solution is the all-paths one |
| TsdBlocks.MustIsExact | xlate/src/tsd_scan.cpp:321-341 | from the initial value of the code, a closed must solution is what the seed brings and every edge back to the entry keeps, and nothing elsewhere |
| TsdBlocks.MayInside | xlate/src/tsd_scan.cpp:449-506 | inside a block, too, a register is tracked exactly when some path brings the base in it |
| TsdBlocks.MustInside | xlate/src/tsd_scan.cpp:449-506 | inside a block the must state is the certain set |
| TsdBlocks.FirstAtBlock | xlate/src/tsd_scan.cpp:321-341 | a block changes what the entry is first run with exactly when it has an edge to it and hands on less than the seed |
| TsdBlocks.SteadyIsExact | xlate/src/tsd_scan.cpp:421-434 | in a steady function the first run of a call's block is certain of no more callee-saved registers there than the must solution |
| TsdBlocks.NoWayBackIsSteady | xlate/src/tsd_scan.cpp:421-434 | a function is steady under every seed if nothing branches back to its start, or if its first block makes no call |
| TsdBlocks.RecordedBeforeTheFixpoint | xlate/src/tsd_scan.cpp:423-434 | a function and a seed for which a call is recorded with a register the must solution is not certain of |
| TsdBlocks.OffListExact | xlate/src/tsd_scan.cpp:474-487 | an off-list line for a fixed-offset load or store is called for exactly when a path brings the base to it and the offset is not allowed |
| TsdBlocks.ReportedMonotone | xlate/src/tsd_scan.cpp:606-608 | lines found under a smaller seed are found under a larger one |
| TsdMeaning.WordsAre | xlate/src/tsd_scan.cpp:343-347 | word k of a function is the instruction the code has at its address, unless data is declared there or it does not decode |
| TsdMeaning.EdgesAre | xlate/src/tsd_scan.cpp:376-403 | the edges out of a word, by opcode: to the next word unless it does not come back or always branches, and to the word a direct branch names |
| TsdMeaning.LeadersAre | xlate/src/tsd_scan.cpp:350-362 | a block starts at the first word, after a branch or an instruction that does not come back, and at the target of a branch |
| TsdMeaning.StepIs | xlate/src/tsd_scan.cpp:408-447 | which opcodes make the base in a register, and which keep it there |
| TsdMeaning.TrackedIsHeld | xlate/src/tsd_scan.cpp:321-341 | a register is tracked at a word exactly when some way through the function, from its seeded entry or from an mrs, brings the base there with every word on the way keeping it |
| TsdMeaning.CertainIs | xlate/src/tsd_scan.cpp:321-341 | certain at a word is what comes straight from an mrs of its own block, or in the first block from a seed that every edge back to the entry passes on |
| TsdMeaning.ForemostIs | xlate/src/tsd_scan.cpp:321-341 | and the first run of the block has the same, but that only the last word that cuts the seed has been run before the entry |
| TsdMeaning.LinesAre | xlate/src/tsd_scan.cpp:464-499 | the lines in those terms: an access at a fixed offset other than 0x358 where the base is held, and any other use as an address where it is certain |
| TsdMeaning.CallsAre | xlate/src/tsd_scan.cpp:414-419 | the calls that lead to a function of the image are the bl to its start |
| TsdBuild.Leaders | xlate/src/tsd_scan.cpp:349-363 | the leaders are exactly the words the graph starts blocks at |
| TsdBuild.CutBlocks | xlate/src/tsd_scan.cpp:364-371 | the blocks tile the function and break at leaders and nowhere else |
| TsdBuild.BuildBlocks | xlate/src/tsd_scan.cpp:349-405 | tiled blocks whose edges are exactly the instruction edges, with preds the inverse of succs |
| TsdAnalysis.FunctionAnalysis.Transfer | xlate/src/tsd_scan.cpp:408-447 | one block run gives its flow and, in the must direction, records exactly its calls at their states |
| TsdAnalysis.FunctionAnalysis.Solve | xlate/src/tsd_scan.cpp:321-341 | the worklist ends in both directions; under OR with exactly what paths bring, under AND with the must solution, every call recorded at its block's first and final state, and every call recorded exactly if and only if the function is steady |
| TsdAnalysis.StageStep | xlate/src/tsd_scan.cpp:321-341 | under AND the blocks are taken last to first, and the entry block is first run with what the last cut leaves of the seed |
| TsdAnalysis.FunctionAnalysis.ExactWhereSteady | xlate/src/tsd_scan.cpp:421-434 | every call is recorded with exactly what the must solution is certain of if and only if the function is steady |
| TsdAnalysis.FunctionAnalysis.Spread | xlate/src/tsd_scan.cpp:251-264 | merging one block's output into its successors keeps the state justified and settled; bits only rise under OR and fall under AND |
| TsdAnalysis.FunctionAnalysis.Report | xlate/src/tsd_scan.cpp:449-506 | the lines of a block are exactly those its states call for |
| TsdAnalysis.FunctionAnalysis.Run | xlate/src/tsd_scan.cpp:302-314 | under a seed, the violations are exactly the lines the path definitions call for; recorded calls hand on at least what is certain and only what a path and the first run bring, and exactly what is certain if and only if the function is steady |
| TsdSeeds.HasMRS | xlate/src/tsd_scan.cpp:519-527 | a function has an mrs of the base exactly when some word reads so |
| TsdSeeds.NothingFromNothing | xlate/src/tsd_scan.cpp:514-527 | without an mrs and without a seed no path brings the base anywhere |
| TsdSeeds.TargetsBound | xlate/src/tsd_scan.cpp:583-592 | the bits handed on are at most ten for each function that some call leads to |
| TsdSeeds.ChainMore | xlate/src/tsd_scan.cpp:609-624 | a register that a caller has at a call when it first runs the call's block comes over a chain of such calls: from an mrs of the caller, or over the chain that brought it to the caller |
| TsdSeeds.HandingOnIsSound | xlate/src/tsd_scan.cpp:609-624 | handing on what was recorded keeps the seeds sound, and inside every family closed under the calls |
| TsdSeeds.SettledIsClosed | xlate/src/tsd_scan.cpp:583-628 | when nothing waits, the seeds are closed under what callers have at their calls when they first run the calls' blocks |
| TsdSeeds.SettledIsHanded | xlate/src/tsd_scan.cpp:583-628 | once settled, a function is seeded with r exactly if some function hands it r: r is one of x19 to x28, a bl there goes to its start, and the first run of that block has r there; and no smaller seeds hold what is handed so |
| TsdSeeds.LeastIsOne | xlate/src/tsd_scan.cpp:595-627 | there is one least closed family, so the seeds and the lines do not depend on the order of the visits |
| TsdSeeds.VerdictIsOne | xlate/src/tsd_scan.cpp:595-633 | nor does the verdict |
| TsdSeeds.ChainStartsAtMRS | xlate/src/tsd_scan.cpp:583-588 | every such chain starts in a function with an mrs |
| TsdSeeds.NoMRSNoLine | xlate/src/tsd_scan.cpp:514-527 | in an image without an mrs nothing is seeded and no line is called for |
| TsdSeeds.HandOn | xlate/src/tsd_scan.cpp:609-624 | the seeds become those before and what the recorded calls carry to their callees, no more, and a target is queued exactly when its seed grew |
| TsdSeeds.Analyse | xlate/src/tsd_scan.cpp:595-625 | one analysis keeps the invariant of the rounds, and queues something only when the seeds grow |
| TsdSeeds.Round | xlate/src/tsd_scan.cpp:591-627 | one round, in any order, keeps the invariant; if something is pending after it the seeds grew |
| TsdSeeds.ScanTSDOffsets | xlate/src/tsd_scan.cpp:531-633 | settles within 10 x call targets + 1 rounds, the cap of 4096 aside; at the end every register a caller's bl carries to a function's start is in that function's seed and nothing else is, the seeds are the least such, every function with an mrs or a seed was last analysed with its final seed, the lines are exactly those of every function under its final seed, opcode by opcode, and the image is accepted exactly when there are none |
| TsdSeeds.ScanImage | xlate/src/tsd_scan.cpp:531-633 | from the image's words and function ranges, within the same rounds and with the same seeds: accepted exactly when it settles and no line is called for; then no way through a function brings the base to a fixed-offset load or store with an offset other than 0x358; refused after settling, some function has an mrs |
| TsdRanges.FunctionRanges | xlate/src/tsd_scan.cpp:552-576 | the ranges are those from each start with code to the next start, and one from the last of these in each section to the section's end |
| TsdRanges.ScannedExactly | xlate/src/tsd_scan.cpp:561-576 | a function has a range exactly where it has code and another function comes after it, so an image's last function has none |
| TsdRanges.LastFunctionUnscanned | xlate/src/tsd_scan.cpp:561-576 | two functions in one section: the first has two ranges and the second none |
| GuestData.BuildPieces | xlate/src/xlate.cpp:932-946 | an override takes the place of every slot that starts inside it; the other slots stay |
| GuestData.LengthExact | xlate/src/xlate.cpp:970-996 | the length of what is emitted, piece by piece |
| GuestData.SizeExact | xlate/src/xlate.cpp:947-996 | the emitted bytes have the segment's size exactly when the pieces are apart and inside it |
| GuestData.EmittedAt | xlate/src/xlate.cpp:947-996 | each emitted byte is the one its address calls for |
| GuestData.SoundIsDisjoint | xlate/src/xlate.cpp:932-946 | slots and overrides give pieces that are apart and inside exactly when they are sound |
| GuestData.AtMeaning | xlate/src/xlate.cpp:932-996 | an address holds the override's field, else the slot's constant, else the original byte |
| GuestData.SegmentExact | xlate/src/xlate.cpp:932-996 | from slots and overrides to bytes: the right size exactly when they are sound, and then every byte at its address |
| GuestData.StraddlingSlotShifts | xlate/src/xlate.cpp:932-946 | a segment with a slot that straddles an override's start, which comes out too long |
| GuestData.EmitSegment | xlate/src/xlate.cpp:947-996 | the globals placed in order are the emitted bytes; each unnamed chunk is named by its image and its own start address, and every override that is a global of its own is there under its name, with its fields, at its address |
| GuestLayout.MergeData | xlate/src/xlate.cpp:863-877 | segments are merged exactly when the image's data segments are contiguous in address order |
| GuestLayout.SectionExact | xlate/src/xlate.cpp:861-862 | a merged section has the bytes of its segments end to end |
| GuestLayout.SegmentInSection | xlate/src/xlate.cpp:861-862 | each segment's bytes stand in its section at its distance from the first |
| GuestLayout.SymbolInSection | xlate/src/xlate.cpp:979-988 | and each named override of it under its name, at its distance from the first |
| GuestLayout.LowestIsFirst | xlate/src/xlate.cpp:1113-1127 | the lowest address of a contiguous host segment is that of its first member |
| GuestLayout.WriteLayout | xlate/src/xlate.cpp:1103-1134 | one address and one protection for each host segment in order of appearance: the lowest of its members' addresses, writable if any member is |
| GuestEmission.EmitGuestData | xlate/src/xlate.cpp:857-998 | the entries are those of the input, once and in order; laid from the least address its segments have in the host, every host segment whose segments adjoin and are clear holds, at each guest address, the field of the override there, else the slot's constant, else the original byte, and every override that is a global of its own under its name at its host address |
| GuestLayout.MergedAdjoin | xlate/src/xlate.cpp:861-886 | the members of a merged host segment adjoin in every image |
| GuestLayout.SingleAdjoins | xlate/src/xlate.cpp:882-886 | a segment that has its host segment to itself adjoins nothing |
| GuestLayout.HostChained | xlate/src/xlate.cpp:857-998 | over all images the members of a host segment follow each other where in their own image they adjoin |
| GuestLayout.EntryPlace | xlate/src/xlate.cpp:878-880 | every emitted segment of the input is among the entries |
| GuestEmission.ClearIs | xlate/src/xlate.cpp:932-946 | slots and overrides are sound exactly when the overrides that start in the segment, and the slots none of them covers, lie apart and inside it |
| GuestEmission.MeantIs | xlate/src/xlate.cpp:932-996 | what an address has to hold, said over all overrides by host address: that of the one override there, else the slot's constant, else the original byte |
| GuestEmission.GoesIntoIs | xlate/src/xlate.cpp:863-887 | the host segment of a segment: its image's data segment if it is not __TEXT and each data segment starts where the one before ends, else one with up to twelve characters of its name |
| GuestEmission.AdjoinIs | xlate/src/xlate.cpp:863-886 | the members of a host segment adjoin exactly when each starts where the member before it ends |
| GuestEmission.EmittedInPlace | xlate/src/xlate.cpp:857-998 | every address of every segment laid into a clear host segment holds what it has to, at its distance from the least address |
| GuestEmission.NamedInPlace | xlate/src/xlate.cpp:979-988 | and every override that is a global of its own stands at its host address, under its name and with its fields |
| GuestEmission.LinesAre | xlate/src/xlate.cpp:1103-1134 | a line's address is the least its segments have in the host, and it is writable if one of them is |
| GuestEmission.AppearanceIs | xlate/src/xlate.cpp:1103-1134 | the lines come in the order of their first segments |
| JumpTables.Resolve | xlate/src/xlate.cpp:644-716 | adds exactly the targets of the admitted entries before the first index at which the scan must stop |
| JumpTables.HitsAre | xlate/src/xlate.cpp:670-714 | a target is collected exactly when an admitted, readable entry below the end of the scan gives it |
| JumpTables.ResolvedIs | xlate/src/xlate.cpp:656-714 | a target is found exactly when some index below 4096 and within the known range gives it, the guards let it through, and every index before it is one the scan goes past |
| JumpTables.TargetsInside | xlate/src/xlate.cpp:707-713 | every target is 4-aligned and inside [start, end) |
| JumpTables.EarlyStopIsFullScan | xlate/src/xlate.cpp:671-714 | with guards that admit one interval, a readable table and a bound, stopping early finds what a full scan would |
| JumpTables.NextFunction | xlate/src/xlate.cpp:407-410 | the least start above, or the span when there is none |
| JumpTables.Owner | xlate/src/xlate.cpp:723-726 | the greatest start not above, or the address itself |
| JumpTables.TargetKeepsOwner | xlate/src/xlate.cpp:707-726 | a target inside the owner's range has the same owner |
| LiftLoop.Targets | xlate/src/xlate.cpp:335-404 | the targets of a lifted function are those of every program counter its tail jumps store |
| LiftLoop.ClosedHoldsRoutes | xlate/src/xlate.cpp:1351-1371 | every closed set that holds the original starts holds whatever is reached: the lifted set is least |
| LiftLoop.TargetInside | xlate/src/xlate.cpp:1358-1362 | a jump table leads to a word of the function it is read in, which keeps its owner |
| LiftLoop.RouteKeepsOwner | xlate/src/xlate.cpp:1358-1362 | whatever is reached lies in the range of the function it is reached from and has it as owner |
| LiftLoop.Lifter.Round | xlate/src/xlate.cpp:1352-1364 | one round tries each pending address once and discovers exactly what their tables lead to outside the known functions |
| LiftLoop.Lifter.LiftAll | xlate/src/xlate.cpp:1349-1371 | the loop ends with exactly the reachable addresses, each tried once; the lifted ones, the failures and the table targets are counted right |
| Exports.GuestExports.Add | xlate/src/exports.cpp:22-52 | refuses a second image of an install name and changes nothing; otherwise the book with the image added |
| Exports.GuestExports.Replace | xlate/src/exports.cpp:54-65 | refuses a library that is an image or already replaced; otherwise the book with the replacement |
| Exports.GuestExports.Find | xlate/src/exports.cpp:77-129 | gives the specified answer, ends on any re-export graph, and reports only libraries that are no image |
| Exports.AnsweredByRoute | xlate/src/exports.cpp:81-129 | an answer to a named bind is the export of an image within eight re-export steps, or a bridge's |
| Exports.RouteIsAnswered | xlate/src/exports.cpp:81-129 | a named bind that such an image or bridge offers is answered |
| Exports.AnsweredExactly | xlate/src/exports.cpp:81-129 | answered if and only if offered, and by one that offers it |
| Exports.GivenObeys | xlate/src/exports.cpp:77-129 | of several answers: the image's own export, then what it sends elsewhere, then the first library it re-exports whole that answers, then the first bridge; without a library the first image |
| Exports.AnswersAreOne | xlate/src/exports.cpp:77-129 | and no other answers keep that order |
| Exports.AddedExactly | xlate/src/exports.cpp:22-52 | all images can be added exactly when no two share an install name, and each name is then its own image's |
| Exports.BridgesAre | xlate/src/exports.cpp:46-49 | the bridges are the images given as such, in their order |
| Exports.ReplacedExactly | xlate/src/exports.cpp:54-65 | all replacements are taken exactly when each library is free and claimed once, and then each holds |
| Exports.OrderIrrelevant | xlate/src/exports.cpp:22-129 | adding the images in another order changes neither success nor any named answer, the bridges' order kept |
| Exports.OneImageEach | xlate/src/exports.cpp:54-75 | after all additions and then all replacements no library is in both tables |
| ClassSplit.CollectSuperclasses | xlate/src/objc.cpp:421-429 | the table of superclasses, a later listing over an earlier one |
| ClassSplit.SuperclassIsLast | xlate/src/objc.cpp:421-429 | a class has the superclass of the last entry for it: in the last image that has one, in its second table if it is there, and there the last |
| ClassSplit.IsGuestOnly | xlate/src/objc.cpp:434-451 | a chain is the guest's own exactly when it comes to null through known classes within 256 steps |
| ClassSplit.CycleNeverEnds | xlate/src/objc.cpp:434-451 | a chain that returns to where it was never moves |
| ClassSplit.BoundIsAmple | xlate/src/objc.cpp:436 | with fewer than 256 known classes the depth bound changes nothing |
| ClassSplit.SplitGuestLayoutClasses | xlate/src/objc.cpp:415-487 | fails exactly when a category or a class that stays names one that would move, and then touches nothing; otherwise divides every image by the moved set |
| ClassSplit.DivisionPartitions | xlate/src/objc.cpp:473-484 | the class list is an interleaving, in order, of the classes kept and the classes moved |
| ClassSplit.DivisionLists | xlate/src/objc.cpp:473-484 | what moves is listed in order after what was there: address and metaclass in the static list, the address alone in the other; categories and the second table stay |
| ClassSplit.AncestorsMove | xlate/src/objc.cpp:434-459 | every Swift class listed above one that moves, moves, where the superclass an address is known by is the class's own or an import |
| ClassSplit.NothingPointsAtMoved | xlate/src/objc.cpp:460-472 | after a split no kept class's superclass and no category's class is moved |
| FixLayout.Table.StartsPastSuper | runtime/objc_bridge.m:1521-1563 | an instance starts at its superclass's final size or later |
| FixLayout.Table.StartsWhereFurther | runtime/objc_bridge.m:1519-1563 | a class starts at the further of its own start and what ends above it: the guest superclass's final size, nothing if that is not in the table, the host's size, or its own start where the host does not know it; the size and every ivar move by as much |
| FixLayout.Table.StartsPastAncestors | runtime/objc_bridge.m:1521-1563 | and at any ancestor's final size or later |
| FixLayout.Table.IvarsKeepApart | xlate/src/xlgen.cpp:2259-2270 | with ivars from the instance start up and inside the instance, no ivar overlaps an ancestor's or leaves the instance, to its last byte; a class moves as one block, and never down |
| FixLayout.OrderIrrelevant | runtime/objc_bridge.m:1567-1572 | the slide does not depend on the order of the table |
| FixLayout.Runtime.FixLayout | runtime/objc_bridge.m:1511-1565 | the memoised recursion gives the recursive definition's size, leaves every begun class final, and stops only where an offset that must move cannot be written |
| FixLayout.Runtime.StoreOffsets | runtime/objc_bridge.m:1546-1561 | every offset variable of the class gets its slid value, those that have it already are not written |
| FixLayout.Runtime.FixLayouts | runtime/objc_bridge.m:1567-1572 | in memory, every class of the table starts at the further of its own start and its superclass's end there, with its size and ivars moved as much, and nothing outside the table changes; it stops exactly where an offset that must move is read-only |
| SwiftClasses.OwnersPair | runtime/swift_classes.m:113-123 | set-up maps each static class and its metaclass to the class of the pair |
| SwiftClasses.OwnersAre | runtime/swift_classes.m:113-123 | set-up enters the listed classes that are no metaclasses, and their metaclasses, and no others |
| SwiftClasses.EnteringIsValid | runtime/swift_classes.m:264-275 | entering a new pair keeps the two tables inverse, every class built once and every static class waiting or built |
| SwiftClasses.Tables.StartsValid | runtime/swift_classes.m:103-126 | before set-up every invariant of the tables holds |
| SwiftClasses.Tables.Init | runtime/swift_classes.m:103-131 | reads the static list once and is idle after that; then the unbuilt are exactly the listed classes that are no metaclasses, and their metaclasses, that have no shadow |
| SwiftClasses.Tables.BuildShadow | runtime/swift_classes.m:201-286 | returns the shadow there is, or builds exactly the unbuilt static classes above and then the class, each once; stops exactly where one of them is no class, has no name or has one that is taken; the shadow's superclass is what stands for the superclass |
| SwiftClasses.Scene.ToBuildClimbs | runtime/swift_classes.m:201-286 | what is to be built ends with the class; each comes after the class its superclass waits with, and nothing waits above the first |
| SwiftClasses.Tables.CanBuildIs | runtime/swift_classes.m:210-258 | a list can be built exactly where each of it is a class with a name, its own or the namer's, that the host does not have and none before it in the list has |
| SwiftClasses.Tables.ClassFromGuest | runtime/swift_classes.m:290-302 | a guest class becomes its shadow, built now if it is an unbuilt static one; any other value is itself |
| SwiftClasses.Tables.MakePair | runtime/swift_classes.m:237-275 | refused exactly where the host has a class of that name; otherwise a new host pair under the given superclass, entered for the class |
| SwiftClasses.Tables.Register | runtime/swift_classes.m:264-275 | enters a class and its metaclass in both tables and takes them from the unbuilt one |
| SwiftClasses.Tables.ClassIn | runtime/swift_classes.m:316-322 | a listed class or metaclass becomes its shadow, which is no address of the guest's and comes out as the class again; whatever else goes in comes out again, unless it is a stub or itself a shadow |
| SwiftClasses.Tables.ClassOut | runtime/swift_classes.m:324-330 | a shadow becomes the one built class or metaclass that has it for a shadow; any other value is itself, and no class has it for a shadow |
| SwiftClasses.Tables.ReadClassPair | runtime/swift_classes.m:380-386 | the class handed over and what it needs above it are built, or the process stops where they cannot be |
| SwiftClasses.Tables.Realize | runtime/swift_classes.m:391-406 | registers the class; a stub it replaces answers for it from then on |
| SwiftClasses.Tables.SetLazyNamer | runtime/swift_classes.m:416-423 | the new namer is in force, the hook so far is handed out, or the given default if there was none; the tables are only set up |
| SwiftClasses.Tables.RegisterListed | runtime/swift_classes.m:306-314 | every listed static class has its shadow, what they need is built in that order and nothing else, or the process stops, exactly where one of those cannot be built |
| SwiftClasses.Tables.StaticInOne | runtime/swift_classes.m:103-123 | each static class or metaclass is in exactly one of the unbuilt and the built table |
| FormatMarshal.CopyFlags | runtime/bridge.m:927-928 | copies exactly the run of flags |
| FormatMarshal.CopyNum | runtime/bridge.m:935-942 | copies a width or precision; a star takes the next slot as four bytes |
| FormatMarshal.MarshalLetter | runtime/bridge.m:963-1031 | accepts exactly the letters of the dialect with a pointer that fits, and gives the letter its one modifier and its argument |
| FormatMarshal.MarshalSpec | runtime/bridge.m:927-1031 | one conversion: accepted exactly when the grammar has it and its pointer fits, then printed and fed in order |
| FormatMarshal.TextReads | runtime/bridge.m:927-1031 | flags, width, precision, modifiers and a letter of the dialect, written one after the other, are read as what they mean: wide if a modifier is l, j, t, q or z |
| FormatMarshal.ReadIsWritten | runtime/bridge.m:927-1031 | and whatever conversion is read was written so |
| FormatMarshal.Marshal | runtime/bridge.m:903-1046 | accepts exactly the formats of the grammar whose pointers fit; the text is their printing; the k-th argument holds all of the k-th slot where it is eight bytes and its low half where it is four, but for a null s or S, where it holds the text that stands for it |
| FormatMarshal.Call.FedIsPacked | runtime/bridge.m:963-1031 | what is fed is that, value by value, and nothing else would do |
| FormatMarshal.TokensWellFormed | runtime/bridge.m:912-1031 | what a parsed conversion is like |
| FormatMarshal.SpecReadsBack | runtime/bridge.m:949-1031 | a printed conversion parses to itself with its one modifier |
| FormatMarshal.HostReadsSpec | runtime/bridge.m:949-1031 | the host's reading of a printed conversion takes exactly its arguments' bytes |
| FormatMarshal.RewriteIsIdempotent | runtime/bridge.m:903-1046 | rewriting the rewritten text changes nothing |
| FormatMarshal.HostReadsArguments | runtime/bridge.m:903-1046 | the host's left-to-right reading of the rewritten text consumes exactly the packed arguments, in order |
| FormatMarshal.PackedAsRead | runtime/bridge.m:963-1031 | each argument is packed in the four or eight bytes its conversion takes |
| ScalarBridge.ScalarRoundTrip | xlate/src/xlgen.cpp:535-582 | a host integer or pointer comes back from the guest's form of it, for every value, exactly when the host's type is no wider and of the same sign or width |
| ScalarBridge.GuestRoundTrip | runtime/xl_bridge.h:64-118 | the other way: a guest value the host takes comes back unless it is the host's own extreme, or a pointer among the top 256 of four bytes |
| ScalarBridge.PointerThere | runtime/xl_bridge.h:90-104 | narrowing undoes widening for every host pointer, sentinels too |
| ScalarBridge.GuestSees | runtime/xl_bridge.h:90-118 | the guest reads a host integer as the number it is, but the host's extremes as its own, and a pointer as it is, but the top 256 of four bytes as those of eight |
| ScalarBridge.HostTakes | runtime/xl_bridge.h:64-104 | the host takes a guest integer exactly where it has the number or it is one of the guest's extremes, and a pointer of four bytes or among the top 256 |
| ScalarBridge.CastAgain | xlate/src/xlgen.cpp:548-555 | converting to a wider integer type and then to a narrower is converting to the narrower |
| RecordMirror.Leaves | xlate/src/xlgen.cpp:486-533 | appends the leaves of a type left to right, and fails exactly where a field cannot be converted or the declarations differ |
| RecordMirror.LeavesWhereTaken | xlate/src/xlgen.cpp:486-533 | there are leaves exactly where nothing reached is in the way: no unknown scalar, no bit-field, no record against something else or with a field over |
| RecordMirror.LeavesDescribeExactly | xlate/src/xlgen.cpp:486-533 | every leaf is a scalar of both types, at its guest offset, if and only if no guest array that holds a scalar is longer than the host's |
| RecordMirror.LeavesDescribe | xlate/src/xlgen.cpp:486-533 | so it is where none is longer |
| RecordMirror.ShorterHostArray | xlate/src/xlgen.cpp:513-524 | a host array shorter than the guest's gets a leaf past its end |
| RecordMirror.LeavesCover | xlate/src/xlgen.cpp:486-533 | every scalar of the guest's type has a leaf, whatever the host's lengths |
| RecordMirror.HostCoveredExactly | xlate/src/xlgen.cpp:486-533 | every scalar of the host's type has a leaf if and only if no host array that holds a scalar is longer than the guest's |
| RecordMirror.WithinIsNoLonger | xlate/src/xlgen.cpp:513-524 | of two declarations taken apart alike, the scalars of one are among the other's if and only if no array of it is longer |
| RecordMirror.LeavesOrdered | xlate/src/xlgen.cpp:486-533 | without unions the leaves' offsets increase without overlap, inside the type |
| MirrorTrip.Mirror | xlate/src/xlgen.cpp:439-470 | the padding puts every leaf at its offset in a structure of the guest's size exactly when the leaves are in order and apart and each is spelled at its width |
| MirrorTrip.OverlapIsNotMirrored | xlate/src/xlgen.cpp:439-470 | leaves that lie one over the other are mirrored by no structure that holds them, whatever its padding |
| MirrorTrip.UnionIsNotMirrored | xlate/src/xlgen.cpp:490-511 | a record with a union of two integers, which passes and which no structure with its leaves mirrors |
| MirrorTrip.ToGuestKeeps | xlate/src/xlgen.cpp:476-480 | bytes no leaf covers stay |
| MirrorTrip.ToGuestHolds | xlate/src/xlgen.cpp:476-480 | every leaf's field holds its word after all assignments |
| MirrorTrip.RecordRoundTrip | xlate/src/xlgen.cpp:439-483 | host record to guest bytes to host record is the identity for nested records, arrays, integers and pointers that are no objects, with arrays as long on both sides, and padding is untouched |
| SortLongs.Partition | perf/kernels.c:67-79 | never reads outside the range, and leaves it in two parts bounded by the pivot, both shorter |
| SortLongs.StillSettled | perf/kernels.c:65-88 | rearranging what is not settled leaves the rest in place |
| SortLongs.SettledMore | perf/kernels.c:80-86 | sorting one part settles it |
| SortLongs.Sort | perf/kernels.c:65-88 | the range is sorted, a permutation, nothing else moves, and 2 to the depth of recursion is at most its length |
| Crc32.ShiftsAreLinear | perf/kernels.c:14-16 | steps of the register are linear |
| Crc32.StepTakesByte | perf/kernels.c:19-20 | one table step takes a byte as eight bit steps do |
| Crc32.Table | perf/kernels.c:11-18 | each entry is its index stepped eight times |
| Crc32.KCrc32 | perf/kernels.c:9-22 | the table-driven CRC is the bit-at-a-time one |
| Int128.UDivMod | runtime/int128.c:7-20 | traps exactly on zero; otherwise n = q*d + r with r < d, the carry out of bit 127 included |
| Int128.UDiv | runtime/int128.c:22 | the quotient |
| Int128.UMod | runtime/int128.c:24-28 | the remainder |
| Int128.Div | runtime/int128.c:30-34 | truncates toward zero for all operands but the least number by minus one, which gives the least number |
| Int128.Mod | runtime/int128.c:36-40 | the remainder with the dividend's sign, for all operands |
| Int128.TruncatedIsOne | runtime/int128.c:30-40 | quotient and remainder are the only pair of those signs and sizes |
| BindStream.Weaken | scripts/weaken_classrefs.py:56-82 | the walk over the array it changes gives the specified bytes, and fails exactly where the file ends inside the stream |
| BindStream.RewriteCommutes | scripts/weaken_classrefs.py:56-82 | the result decodes to the same opcodes with the weak flag set on exactly the wanted symbols, and fails only where decoding does |
| BindStream.RewriteGives | scripts/weaken_classrefs.py:76-80 | only first bytes of opcodes change, each to its mark |
| BindStream.NextIs | scripts/weaken_classrefs.py:56-75 | what an opcode trails, by its high four bits: one number, two, a name up to its zero, or nothing |
| BindStream.RewriteTwice | scripts/weaken_classrefs.py:56-82 | a second run changes nothing |

## Left out

- JumpTables.EarlyStopIsFullScan: takes the guards' interval, the table's readability and a bound as conditions; nothing is claimed for guards that admit several intervals.
- SortLongs.Sort: takes `(low + high) / 2` over unbounded integers, because ranges near the end of a 32-bit `long` cannot be allocated.
- MirrorTrip.RecordRoundTrip: floating-point leaves and object pointers are not part of the round trip, and bit-fields are only refused.
- Int128.UDivMod: the words are numbers below 2^128, with shifts, carries and wrap-around written out.
- Which mrs a line of the scan names (`mrs_at`), and the text of the lines. The scan takes ranges that are aligned, not empty and end before the last 64-bit word, one for each start; code sections are apart.
- The 26 vector opcodes of the scan are one opcode; decoding is a given map from addresses to instructions.
- The resolution of rebases and binds into slots, the host segment's name when two images' names collide, and address wrap-around of an image's slide.
- Everything behind LLVM: lifting, guards, ranges, evaluation and entry reads are given functions; an owner's range with no next function is its start plus a fixed span, without 64-bit wrap-around.
- The messages of the export lookup, and binds that name no library beyond the first image that exports the symbol.
- How images are read, laid out and linked; the slide of an image, which depends on its place in the order.
- Names in error messages of the class split; the analysis of class lists.
- Method lists, instance sizes, registration with the host runtime, locks, the guard that makes a second start-up registration do nothing, logging, and guest code that runs inside the class namer or a class message.
- The growth of the format buffers; objects as formats beyond the letters they allow; printf's own semantics of values and floating conversions.
- Conversion of text in xlgen other than `Leaves`, `Mirror` and the scalar conversions; a record whose two declarations do not compare (an array against something else).
- The symbol table half of the weakening script, ULEB values, and the three streams of a file as one run.
- Host libobjc, Foundation, UIKit, pthread, zlib, SQLite itself, signals, tracing, concurrency, shell and Lua pipelines, demo apps and timing.

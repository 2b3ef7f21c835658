# Verification of the execution, history and seed logic

The program runs a short piece of x86-64 machine code one instruction at a time in a sandbox, records the registers after
each instruction, and shows the run as a history of disassembled rows for several disassemblers. This project models the
logic between the text the user types and the rows the user sees, and proves it for every input, every disassembler and
every behaviour of the processor and the operating system:

- **History.** `build_history` interleaves the recorded events, which may loop, jump back or overlap, with a linear sweep
  over the bytes no event reached. The disassembler is an arbitrary function of address and bytes. `HistorySpec` is the
  specification, `HistoryBuilder` the loops with their bitmap, `HistoryProofs` what every history guarantees.
- **Running.** `Driver` defines a run over an arbitrary stream of processor stops, and characterizes it independently as
  the unique trail of that stream. `LinuxDriver` is the ptrace loop and `WindowsDriver` the exception handler with its
  engine object; both refine the one run, and what their results mean is also stated directly on the child's signals and the
  thread's exceptions, with signal numbers, exception codes and error bits as literals. `WindowsProofs` includes early exits
  of the thread. `RunEngine` records the result of either platform.
- **Timeline.** `Timeline` is the mutable view (step, back, shown state, selection across tabs). `TimelineProofs` composes
  run, recording, history and navigation: what is shown after `k` steps is what the processor delivered at stop `k`.
- **Text to state.** `CodeGrammar`, `CodeText`, `CodeTextProofs`, `CodeErrors` and `CodeParser` cover the three code
  notations, which texts are accepted and which mistake each rejected text is reported for. `Hex` and `SeedText` cover the
  register texts and the exporter's printers, `Bits` and `ComposeSeed` the overlay of register slices, `CliSeed` and
  `CliEntries` the strict `--seed` parser and what each name stands for, `SeedReadback` the register blocks written to the
  child before the run.
- **Smaller cores.** `AddressLabels` (normalized addresses against the allocated regions), `TraceExport` (offsets in the
  exported trace), `CpuId` (CPUID enumeration), `Base64` (clipboard encoding, section 4 of RFC 4648), `ProcessWalk`
  (query buffer growth and the walk over process records).

Where the source works by changing things in place, the model does too: the loops are loops with invariants, the Windows
engine and the history view are classes, the bitmap and the fixed-size texts are arrays. Each such method is proved against
a specification function or relation, and the properties are proved about that.

## Where a property holds only under a condition

These are exact conditions, proved in both directions, and each has an instance: a lemma or method at a concrete input where
the property fails.

- The rows partition the input into distinct byte ranges exactly when no event starts strictly inside the row of another
  (`HistoryProofs.ExactPartition`, instance `NestedInstance`). Coverage needs no such condition.
- An input whose end address wraps around gets no rows at all (`HistoryProofs.CoverageIff`), although the exporter still
  gives offsets to its events (`TraceExport.OffsetsAgree`, instance `WrapInstance`).
- A Windows run that is reported as finished has left the input exactly when its thread did not exit at the stop the run had
  reached (`WindowsProofs.FinishedMeansLeft`, `RunEngine.WindowsStopReasons`). When the thread exits in the middle of a run,
  the report says that execution left the input range although the next instruction is inside it
  (`RunEngine.EarlyExitInstance`); Linux reports an error. Every other outcome and stop reason means the same on both
  platforms, and counts, recorded events and the timeline are right for early exits too.
- The two drivers record the same trace exactly when, at the stops that the run reaches, the thread does not exit and no
  fault is reported away from its RIP (`RunEngine.DriversAgree`, instances `EarlyExitInstance` and
  `FaultAddressInstance`).
- `back` undoes `step` exactly from the seed, or from an event row that has a later event
  (`TimelineProofs.BackUndoesStep`, instance `BackInstance`). From a static row, and after the last event, the way back
  leads elsewhere.
- The recorded seed is what the first instruction sees exactly when the stack-top field of the initial status word is zero
  (`SeedReadback.Prepare`, instance `StackTopInstance`): the field is cleared in the block that is written but not in the
  seed that is recorded. It is zero after `fninit`, which the child executes.
- On Linux the no-access pages around the signal stack are not labelled as guard pages
  (`AddressLabels.SignalStackUnlabelled`, instance `SignalStackInstance`). Outside them a label says guard exactly on the
  no-access pages.
- Parsing a printed byte string gives it back exactly when it is not empty (`CodeParser.ParseInvertsPrinters`, instance
  `NoCodeInstance`).
- The query buffer stops growing exactly at the limit, or when the system asks for more than the limit
  (`ProcessWalk.GrowsIff`, instance `LimitInstance`).

## Model

| member | source | states |
|---|---|---|
| `HistoryBuilder.MarkEvents` | src/bme_core.cpp:1376-1383 | The bitmap marks exactly the offsets at which some in-range event starts, whenever it runs; every index is in bounds even when the end address wraps. |
| `HistoryBuilder.DisasmAt` | src/bme_core.cpp:1385-1406 | A decode that is empty or longer than what is left becomes a one-byte "(bad)" row. |
| `HistoryBuilder.SplitBoundary` | src/bme_core.cpp:1413-1425 | The scan finds the first event start strictly inside the static decode, although it is clamped to the end of the gap. |
| `HistoryBuilder.StaticRowAt` | src/bme_core.cpp:1412-1434 | A static row is the decode, or a data row cut before the first later event start, and the sweep continues at its end. |
| `HistoryBuilder.FillGap` | src/bme_core.cpp:1408-1443 | Filling a gap appends the specified static rows, skips positions where an event starts, and terminates. |
| `HistoryBuilder.VisitEvent` | src/bme_core.cpp:1456-1467 | One event inside the input appends the gap before it and its own row, and never moves the sweep back. |
| `HistoryBuilder.BuildHistory` | src/bme_core.cpp:1366-1473 | The whole loop computes the specified history for every trace and decoder, out-of-range events and wrap-around included; which rows that are, and in which order, is stated by the lemmas of `HistoryProofs`. |
| `HistoryProofs.RowsInBounds` | src/bme_core.cpp:1385-1472 | Every row has at least one byte, lies inside the input, and sits at the address of its offset, so later sub-ranges are valid. |
| `HistoryProofs.Coverage` | src/bme_core.cpp:1408-1470 | Every input byte lies in some row, including bytes that the gap skips because an event row has them. |
| `HistoryProofs.CoverageIff` | src/bme_core.cpp:1368-1383 | All bytes are covered when the history can be built; otherwise (empty, refused, or wrapping input) there are no rows. |
| `HistoryProofs.EventRowCovers` | src/bme_core.cpp:1436-1439 | A byte inside the decode of an in-range event is covered by an event row. |
| `HistoryProofs.ExactPartition` | src/bme_core.cpp:1408-1470 | The distinct row ranges contain every byte exactly once if and only if no in-range event starts strictly inside the row of another. |
| `HistoryProofs.SharedByte` | src/bme_core.cpp:1408-1470 | When no start is nested, two rows that share a byte are the same range. |
| `HistoryProofs.NestedInstance` | src/bme_core.cpp:1445-1468 | Two overlapping instructions that both ran: the shared byte is in two different ranges. |
| `HistoryProofs.StaticRowsAvoidStarts` | src/bme_core.cpp:1376-1443 | A static row never contains the start of an in-range event, whether it ran before or after the gap was filled. |
| `HistoryProofs.StaticRowsAscend` | src/bme_core.cpp:1408-1470 | Across the whole history the static rows are disjoint and ascend strictly. |
| `HistoryProofs.StaticRowKind` | src/bme_core.cpp:1413-1434 | A static row is a whole decode exactly when no event starts inside that decode; otherwise it is data and ends at the first such start. |
| `HistoryProofs.StaticRowsPlaced` | src/bme_core.cpp:1456-1467 | A static row stands where the sweep passed it: every event row above it ends at or below its offset, and the first event row below it starts at or above its end. |
| `HistoryProofs.EventRowsReplay` | src/bme_core.cpp:1445-1468 | Rows with an event index list every in-range event exactly once, in execution order, with the right kind, for every decoder. |
| `HistoryProofs.EventRowFields` | src/bme_core.cpp:1385-1406 | An event row shows the address of its event, whether it completed or faulted, and its decode, or one "(bad)" byte when the decode is empty or does not fit. |
| `HistoryProofs.EventHasRow` | src/bme_core.cpp:1461-1467 | Every in-range event has its row. |
| `HistoryProofs.HistorySize` | src/bme_core.cpp:1408-1472 | There are at most as many rows as input bytes and events together, so a 32-bit cursor cannot overflow within the program's limits. |
| `TraceExport.OffsetsAgree` | src/trace_json.cpp:236-251 | Export and history agree on which addresses lie in the input if and only if the end of the input does not wrap. |
| `TraceExport.WrapInstance` | src/bme_core.cpp:1374-1383 | One byte at the top of the address space: its event has an exported offset and no history row. |
| `TraceExport.ExportedOffset` | src/trace_json.cpp:236-251 | Every event row stands at the offset that the export gives to its event. |
| `Driver.Clamp` | src/os.linux.cpp:765 | A requested cap between one and a million steps is kept; anything else becomes the nearer bound. |
| `Driver.RunExplained` | src/os.linux.cpp:753-907 | Every run is the trail of its stream: each completed step starts where the one before it led, and the first stop that ends the run decides the outcome. |
| `Driver.ExplanationUnique` | src/os.linux.cpp:753-907 | No other result, in steps, outcome, stop address, target flag or fault details, fits the same stream. |
| `Driver.RunIff` | src/os.linux.cpp:753-907 | A result is the run of its stream if and only if the stream explains it. |
| `Driver.ErrorIff` | src/os.linux.cpp:774-801 | A run fails if and only if it is still going at a stop that ends or loses the process, right after its steps. |
| `Driver.BreakIff` | src/os.linux.cpp:820-829 | A run stops at a breakpoint if and only if it is still going at one, right after its steps, and then at the address where it continues. |
| `Driver.FaultIff` | src/os.linux.cpp:839-866 | A run faults if and only if it is still going at a fault, which is its last step. |
| `Driver.StepIff` | src/os.linux.cpp:811-837 | Stop n is the n-th completed step exactly when the run is still going at it and it retires an instruction, and the step then holds the registers of that stop. |
| `Driver.WholeRunSafety` | src/os.linux.cpp:765-906 | Completed steps chain from the code base, start inside the code and never at the run-to-row target; only the last step can be a fault; all steps together stay within the cap. |
| `Driver.OutcomeCharacterized` | src/os.linux.cpp:874-904 | On Linux: step-cap, finished, faulted and target outcomes, each if and only if what the steps show; the target takes precedence over the cap; offset zero gives an empty run. |
| `Driver.RunFlags` | src/os.linux.cpp:820-893 | The target flag and fault details are only set with the outcome they belong to. |
| `LinuxDriver.RunSteps` | src/os.linux.cpp:753-907 | The ptrace loop terminates with the run of its signal stream, and its result tells that stream, as the two rows below say. |
| `LinuxDriver.RunTellsSteps` | src/os.linux.cpp:808-837 | On the child's own signals: turn n is a completed step exactly when the run is still going at it and it is signal 5 with code 2, or a signal 5 with code 1 or 0x80 that has moved on and stands at no int3 of the code; the step starts where the turn before it led and holds the child's registers. |
| `LinuxDriver.RunTellsEnd` | src/os.linux.cpp:128-141 | The run faults exactly at a reached signal that is neither of these; there is an address exactly for signals 7 and 11, and the access is execute, write or read by bits 4 and 1 of a page fault report for that address, else unknown. It breaks exactly at a reached int3 of the code and fails exactly at a reached exit or loss. |
| `WindowsDriver.Engine.constructor` | src/os.windows.cpp:594-601 | A new engine is set up for the run, with the clamped cap as its reserve, and is running. |
| `WindowsDriver.Engine.RecordStep` | src/os.windows.cpp:454-494 | A single-step exception records one step within the reserve, and either resumes with the run unchanged or has captured it. |
| `WindowsDriver.Engine.HandleException` | src/os.windows.cpp:445-528 | Every exception keeps the engine's invariant; when it ends the run, what was captured is the run, but for the reported address of a fault. |
| `WindowsDriver.EndedByThread` | src/os.windows.cpp:747-756 | A thread that exits early leaves the outcome at finished with the steps so far; a failed wait reports an error without steps. |
| `WindowsDriver.Assemble` | src/os.windows.cpp:760-781 | The result holds the raw steps in order, then the fault if there was one. |
| `WindowsDriver.RunSteps` | src/os.windows.cpp:716-792 | Handler and assembly together compute the run of the thread's stops, with the three stated differences at its end. |
| `WindowsProofs.WindowsRunSafety` | src/os.windows.cpp:454-494 | On Windows too, completed steps chain from the code base inside the code and never at the target, only the last step can be a fault, and all steps together stay within the cap. |
| `WindowsProofs.WindowsOutcomes` | src/os.windows.cpp:466-508 | On Windows each outcome, if and only if what the steps show, where finished also stands for a thread that exited early and an error only for a failed wait. |
| `WindowsProofs.FinishedMeansLeft` | src/os.windows.cpp:747-777 | A finished Windows run has left the code if and only if its thread did not exit at the stop the run had reached. |
| `WindowsProofs.EarlyExitIsInside` | src/os.windows.cpp:747-777 | After an early exit the next instruction is inside the code, not at the target, and the cap is not used up. |
| `WindowsProofs.ErrorStops` | src/os.windows.cpp:747-756 | The thread exited early, or the wait failed, exactly when the run ended at that stop without an exception. |
| `WindowsProofs.ResultTellsSteps` | src/os.windows.cpp:454-494 | On the thread's own exceptions: stop n is a completed step exactly when the run is still going at it and it is a single step, with its registers and the address the stop before it led to. |
| `WindowsProofs.ResultTellsEnd` | src/os.windows.cpp:505-521 | The result is a fault exactly when the run reaches an exception of no other kind; the address is the second parameter exactly for codes 0xC0000005 and 0xC0000006 with two parameters, and the access is read, write or execute exactly for a first parameter of 0, 1 or 8, else unknown; otherwise neither is given. Breakpoint, early exit and lost wait likewise. |
| `WindowsProofs.FaultedResult` | src/os.windows.cpp:769-778 | The last step of a faulted result is the exception that ended the run: its address, its registers and its details. |
| `RunEngine.Prepare` | src/os.cpp:22-53 | A run proceeds if and only if there is code, the stop offset lies inside it and no instrumentation is present; a refusal has the requested seed, no steps and no stop address, is idle exactly without code, and is marked as instrumented exactly when that is what it was refused for. |
| `RunEngine.BuildTrace` | src/bme_core.cpp:1510-1605 | The recorded trace, stop reason and count follow from the platform result: one event a step, with its address, registers and kind, none for errors, refusals and idle runs; code, seed, outcome, cap, stop address and fault details are those of the run. |
| `RunEngine.ReportedCount` | src/bme_core.cpp:1496-1592 | For a Linux run the reported "executed" number is the number of completed events, also where the message prints the step cap instead, despite two independent clamps. |
| `RunEngine.WindowsReportedCount` | src/bme_core.cpp:1496-1592 | The same for a Windows run, whose thread may exit early. |
| `RunEngine.StopReasons` | src/bme_core.cpp:1546-1600 | For a Linux run each stop reason holds if and only if the run ended that way: at the first byte after the input, elsewhere outside it, at a fault, at the selected row, at a breakpoint that the run reached, or at the cap. |
| `RunEngine.WindowsStopReasons` | src/bme_core.cpp:1546-1600 | For a Windows run the same, breakpoints included, but that "left the input" is also reported for a thread that exited early; it is then false of the run, and true otherwise. |
| `RunEngine.TargetIsSelected` | src/bme_core.cpp:2079-2082 | After a run to a row the recorded stop address is that of the row exactly when the run stopped there, or faulted with the instruction pointer at it. |
| `RunEngine.EarlyExitInstance` | src/bme_core.cpp:1593-1600 | A thread that exits before its first instruction retires: Windows reports that execution left the input while the next instruction is inside it, and Linux reports an error. |
| `TimelineProofs.FailureShowsSeed` | src/bme_core.cpp:1516-1528 | After a refused request or a failed run every history has only static rows, every position shows the seed, and a run refused for instrumentation has no rows. |
| `RunEngine.DriversAgree` | src/os.windows.cpp:445-528 | For the same processor stream both platforms record the same trace if and only if no thread exit and no fault away from its RIP comes at a stop that the run reaches. |
| `RunEngine.FaultsAgree` | src/os.windows.cpp:769-778 | A fault is recorded alike if and only if the exception address is the faulting RIP. |
| `RunEngine.FaultAddressInstance` | src/os.windows.cpp:505-508 | A fault that is reported away from the RIP: the two recorded traces differ. |
| `Timeline.View.Step` | src/bme_core.cpp:2095-2108 | Step moves to the next event row, or stays when there is none, and keeps the cursor within the rows. |
| `Timeline.View.constructor` | src/bme_core.cpp:2070 | A new view stands at the seed of the first tab. |
| `Timeline.View.Back` | src/bme_core.cpp:2111-2126 | Back moves to the last event row before the cursor, or to the seed, and keeps the cursor within the rows. |
| `Timeline.View.State` | src/bme_core.cpp:1873-1888 | The state shown is that of the last row above the position whose event index lies in the trace, and the seed when there is no such row. |
| `Timeline.View.Restore` | src/bme_core.cpp:1913-1945 | Restoring selects the first matching row, else keeps the cursor, and brings it back within the rows. |
| `Timeline.View.SwitchTab` | src/bme_core.cpp:2482-2488 | A change of tab carries the selection of the old tab's rows over to the new tab's rows. |
| `TimelineProofs.MovesUnique` | src/bme_core.cpp:2095-2126 | The specifications of step and back leave no choice. |
| `TimelineProofs.BackUndoesStep` | src/bme_core.cpp:2095-2126 | Back undoes a step if and only if it started at the seed, or at an event row with a later event. |
| `TimelineProofs.BackInstance` | src/bme_core.cpp:2095-2126 | With a single event step stays at it and back leads to the seed. |
| `TimelineProofs.StateAtEvent` | src/bme_core.cpp:1873-1888 | The state at an event row is the one recorded for the event of the same rank, for every decoder. |
| `TimelineProofs.StateAtAnyRow` | src/bme_core.cpp:1873-1888 | At any row of a history, static rows included, the state shown is that of the last in-range event whose row stands at or above it, and the seed when there is none. |
| `TimelineProofs.StepsReachRank` | src/bme_core.cpp:2095-2108 | k steps from the seed lead to the k-th event row. |
| `TimelineProofs.ReplayIsDecoderIndependent` | src/bme_core.cpp:1873-1888 | After k steps the state shown is that of the k-th in-range event, whatever the decoder. |
| `TimelineProofs.SelectionSurvives` | src/bme_core.cpp:1897-1945 | An event selection survives the change to another tab and back, whatever the two decoders. |
| `TimelineProofs.StaticSelectionSurvives` | src/bme_core.cpp:1897-1945 | A static selection comes back to its row when the other tab shows the same rows. |
| `TimelineProofs.SelectedRow` | src/bme_core.cpp:1897-1911 | A selection remembers the address and the event of the row it was made at, and the seed has neither. |
| `TimelineProofs.RecordedEvents` | src/bme_core.cpp:1530-1541 | On either platform a run that did not fail, early thread exits included, gives a trace that can be shown, whose completed events all lie in the input and hold what the processor delivered. |
| `TimelineProofs.TimelineShowsProcessor` | src/bme_core.cpp:1481-1605 | For every stream and decoder, k steps from the seed of a Linux run show the registers that stop k delivered. |
| `TimelineProofs.TimelineShowsThread` | src/bme_core.cpp:1481-1605 | For every thread and decoder, k steps from the seed of a Windows run show the registers of its k-th single-step exception, early exits included. |
| `TimelineProofs.RunToRowSelection` | src/bme_core.cpp:2079-2082 | After a run to a row, a static row that holds the address is selected whenever no executed row covers it; when no start is nested, some static row holds the address if and only if no executed row covers it. |
| `CodeParser.ParseCodeText` | src/bme_core.cpp:360-532 | The position-based parser agrees with the specified one, including each error and its position. |
| `CodeParser.ParseBracedLoop` | src/bme_core.cpp:399-474 | The braced-list loop agrees with the specified one on every text. |
| `CodeParser.ParseEscapedLoop` | src/bme_core.cpp:476-504 | The escape loop agrees with the specified one on every text. |
| `CodeParser.ParsePlainLoop` | src/bme_core.cpp:506-531 | The plain-pair loop agrees with the specified one on every text. |
| `CodeParser.ParseElement` | src/bme_core.cpp:426-472 | One braced byte is taken with its comma, or rejected with the position of the mistake. |
| `CodeTextProofs.ParseIff` | src/bme_core.cpp:360-532 | A text is accepted, with these bytes, if and only if the grammar of the three notations derives it with these bytes. |
| `CodeErrors.RejectedIff` | src/bme_core.cpp:360-532 | A text is rejected with an error, at a position, if and only if a well-formed front of the text in its notation is followed by that mistake at that position; each of the ten mistakes is defined on the characters there. |
| `CodeGrammar.SpaceCharacters` | src/bme_core.cpp:362-368 | Space is the six characters that the C locale calls space, and no other. |
| `CodeTextProofs.ResultSize` | src/bme_core.cpp:396-397 | An accepted text has at least one byte and at most half as many as characters after its leading space, so the reserved size suffices. |
| `CodeParser.FormatBytes` | src/trace_json.cpp:94-104 | The exporter's in-place loop prints two digits for every byte, in order. |
| `CodeParser.PrintedBytes` | src/bme_core.cpp:587 | The two printers put the two upper-case digits of byte k at its place, the editor with one space between bytes and the exporter with none. |
| `CodeParser.ParseInvertsPrinters` | src/bme_core.cpp:587 | Parsing inverts the editor's and the exporter's printers if and only if there is at least one byte. |
| `CodeParser.NoCodeInstance` | src/bme_core.cpp:391-394 | The empty byte string prints as the empty text, which is refused as no code. |
| `SeedText.EnvironmentDenotes` | src/bme_core.cpp:614-634 | A MXCSR or control word text is accepted if and only if it is a number of at most 16 bits, and then with its positional value. |
| `Hex.DigitsInOrder` | src/trace_json.cpp:69-74 | The digits of either case have the values 0 to 15 in order, and the printer's digit of a value is the one at its place. |
| `Hex.OnlyDigits` | src/bme_core.cpp:431-434 | The 22 hexadecimal digits are the only ones. |
| `Hex.DigitAt` | src/trace_json.cpp:85-89 | Digit i from the right of a printed value is that of the value divided by 16 to the i. |
| `SeedText.PrefixIsOptional` | src/bme_core.cpp:600-601 | Hexadecimal digits mean the same with the prefix in either case and without it. |
| `SeedText.DecimalMarks` | src/bme_core.cpp:714-718 | A text is decimal exactly when it holds a point or a letter of `iInN`. |
| `SeedText.DecimalTexts` | src/bme_core.cpp:730-802 | A decimal XMM text puts a single into the low 32 bits or a double into the low 64 and leaves the rest zero; a decimal x87 text is its number in 80 bits. |
| `SeedText.LeadingZeros` | src/bme_core.cpp:593-634 | Leading zeros, however many, change neither verdict nor value. |
| `SeedText.XmmDenotes` | src/bme_core.cpp:753-778 | A hexadecimal XMM text is accepted exactly with 1 to 32 digits, and the two halves denote the positional value. |
| `SeedText.StDenotes` | src/bme_core.cpp:805-826 | A hexadecimal x87 text is accepted exactly with 1 to 20 digits, and the reversed bytes denote the positional value. |
| `SeedText.FormatHex` | src/trace_json.cpp:76-92 | The in-place loop prints the low digits of the value behind a prefix. |
| `SeedText.FormatXmm` | src/trace_json.cpp:106-120 | The two interleaved halves print high part first. |
| `SeedText.FormatSt` | src/trace_json.cpp:122-136 | The bytes are printed most significant first. |
| `SeedText.RegisterTexts` | src/trace_json.cpp:76-136 | Printed registers have their fixed length, the prefix `0x` and upper-case digits. |
| `SeedText.SeedRoundTrip` | src/bme_core.cpp:593-609 | Parsing a printed register gives the register, for every width that holds the value. |
| `SeedText.XmmRoundTrip` | src/bme_core.cpp:722-779 | Composing a printed XMM register gives the register. |
| `SeedText.StRoundTrip` | src/bme_core.cpp:782-827 | Composing a printed x87 register gives the register. |
| `ComposeSeed.ComposeGprSeed` | src/bme_core.cpp:1746-1774 | The five overlays and their errors are the specified ones, in order. |
| `ComposeSeed.NarrowestSliceWins` | src/bme_core.cpp:1767-1771 | Every one of the 64 bits comes from the narrowest well-formed, non-empty slice that covers it, else it is zero. |
| `ComposeSeed.ByteOverlaysCommute` | src/bme_core.cpp:1770-1771 | The order of the two byte overlays does not matter. |
| `ComposeSeed.ErrorsCountMalformed` | src/bme_core.cpp:1757-1764 | There is one error for each malformed slice, and none exactly when all are well-formed. |
| `ComposeSeed.SlicesWidestFirst` | src/bme_core.cpp:1767-1771 | Within a register malformed slices are reported from the widest to the narrowest. |
| `ComposeSeed.Compose` | src/bme_core.cpp:1778-1851 | The composed registers and the reported errors are the specified ones; a malformed field keeps its default. |
| `ComposeSeed.ComposedFields` | src/bme_core.cpp:1787-1848 | Every field comes from its own text, by register number, with the defaults of a reset unit where the text is missing or malformed. |
| `ComposeSeed.ComposedEnvironment` | src/bme_core.cpp:1789-1813 | A well-formed environment text gives its own value to its own field. |
| `ComposeSeed.ErrorsAreMistakes` | src/bme_core.cpp:1778-1851 | An error is reported if and only if the named field holds a text that cannot be read, in the order environment, general, vector and x87 registers by number. |
| `ComposeSeed.NoErrorsIffGood` | src/bme_core.cpp:1778-1851 | Composition reports no error if and only if every field is empty or well-formed. |
| `ComposeSeed.TagsMark` | src/bme_core.cpp:1834-1848 | An x87 register is tagged if and only if its text is well-formed and not blank. |
| `CliSeed.ParseSeedArgument` | src/bme_core.cpp:877-1018 | The argument loop agrees with the specified parser, including which error it stops at. |
| `CliSeed.AssignEntry` | src/bme_core.cpp:881-1014 | One entry is assigned to what its name stands for, or rejected for the first reason that applies. |
| `CliSeed.LookUpGpr` | src/bme_core.cpp:948-976 | The lookup finds a slice if and only if the name is the table's name for that register and width, in any case, and it refuses exactly RSP, ESP, SP and SPL. |
| `CliSeed.NameDetermines` | src/bme_core.cpp:949-970 | A name determines its register and width: no name stands for two slices. |
| `CliSeedProofs.StrictParsingComposes` | src/bme_core.cpp:3555-3568 | When the argument parses, composition reports no error, the stack pointer stays untouched and only the seven status flags can be set, as the comment there relies on. |
| `CliSeedProofs.SplitIff` | src/bme_core.cpp:879-881 | Splitting gives the only list of parts without commas that joins to the argument. |
| `CliSeedProofs.ArgumentAcceptedIff` | src/bme_core.cpp:877-1018 | The argument is accepted if and only if each part between its commas is acceptable on its own, independent of the others. |
| `CliSeedProofs.EngineControlledIff` | src/bme_core.cpp:887-976 | A complete entry is refused as engine-controlled if and only if it names the stack pointer in one of its four widths. |
| `CliSeedProofs.LastAssignmentWins` | src/bme_core.cpp:907-986 | Every text field holds the value of the last entry that named it. |
| `CliSeedProofs.LastFlagWins` | src/bme_core.cpp:1002 | Every flag is what the last entry that named it says. |
| `CliEntries.SingleEntry` | src/bme_core.cpp:879-904 | An argument without a comma is one entry, split at its first equals sign. |
| `CliEntries.FlagEntry` | src/bme_core.cpp:991-1007 | Each of the seven flag names, in any case, sets exactly its own bit (CF 0, PF 2, AF 4, ZF 6, SF 7, DF 10, OF 11) for a nonzero value and no bit for zero, and nothing else. |
| `CliEntries.EnvironmentEntry` | src/bme_core.cpp:900-922 | `mxcsr` and `control_word`, in any case, write their own field and nothing else, exactly when the value is one for that field. |
| `CliEntries.XmmEntry` | src/bme_core.cpp:843-934 | `xmm` with a decimal number n below 16 writes vector register n and nothing else. |
| `CliEntries.StEntry` | src/bme_core.cpp:860-946 | `st` with a digit n below 8 writes x87 register n and nothing else. |
| `CliEntries.DecimalDigits` | src/bme_core.cpp:850-851 | One or two decimal digits have their usual value. |
| `CliEntries.GprEntry` | src/bme_core.cpp:948-989 | A register name writes the slice of its width in its register and nothing else, and is refused for register 7 in every width. |
| `CliEntries.RegisterNumbers` | src/bme_core.cpp:78-97 | The register numbers in the order of the seed: RAX 0, RBX 1, RCX 2, RDX 3, RSI 4, RDI 5, RBP 6, RSP 7, R8 8 to R15 15. |
| `CliEntries.CaseIsIgnored` | src/bme_core.cpp:900-912 | Two names are the same exactly when their characters are, but for the case of the 26 letters. |
| `SeedReadback.SnapshotFpu` | src/os.linux.cpp:375-391 | A snapshot shows the register in each 16-byte slot of the block. |
| `SeedReadback.Prepare` | src/os.linux.cpp:686-746 | Unsupported MXCSR bits are refused; otherwise the recorded seed has data-pointer defaults, masked flags, tags and untagged slots as stated, each register and block slot that is written holds its own value, and reading the written blocks back gives exactly that seed if and only if the initial stack-top field is zero. |
| `SeedReadback.StackTopInstance` | src/os.linux.cpp:695-716 | With a stack-top field of seven the recorded seed keeps the field and what runs has it cleared. |
| `SeedReadback.WriteSts` | src/os.linux.cpp:704-714 | Only tagged registers are written, into seed and block alike, and the others keep what they held. |
| `SeedReadback.SeedFlagsMeaning` | src/os.linux.cpp:727-746 | The run starts with the requested status flags, the reserved bit and the interrupt flag, and no other flag. |
| `SeedReadback.RecordedGprs` | src/os.linux.cpp:720-727 | Only RSP, RIP, flags and, when zero and so asked, RDI and RSI are replaced in the recorded seed; a pointer that was typed is kept. |
| `SeedReadback.SnapshotGprs` | src/os.linux.cpp:402-418 | A snapshot shows each general register under its own number. |
| `SeedReadback.SnapshotFlags` | src/os.linux.cpp:419 | A snapshot shows the flags without the trap flag. |
| `SeedReadback.TagBitsInOrder` | src/os.linux.cpp:704-714 | Bit i of the abridged tag word stands for x87 register i. |
| `SeedReadback.SupportedBits` | src/os.linux.cpp:686 | The supported MXCSR bits are those the processor reports, and 0xFFBF if it reports none. |
| `SeedReadback.TypedRegistersRun` | src/os.linux.cpp:704-718 | What was typed for an x87 register is what the run starts with, tag included; an untyped register keeps what initialization left. |
| `AddressLabels.LabelsInjective` | src/bme_core.cpp:1273-1361 | For a fixed trace no two addresses share a label text, even when regions overlap. |
| `AddressLabels.TextInjective` | src/bme_core.cpp:1285-1355 | Region, offset and note can be read off a label. |
| `AddressLabels.LabelsMatchLayout` | src/os.linux.cpp:281-297 | Over disjoint regions a label says guard exactly on the no-access pages, and names code, stack or data exactly on the usable bytes. |
| `AddressLabels.EndLabels` | src/bme_core.cpp:1288-1347 | "End" marks exactly the first byte after each region. |
| `AddressLabels.UsableTexts` | src/bme_core.cpp:1279-1342 | The text for a usable byte names its region and its hexadecimal distance from the code base, the initial stack pointer or the data base. |
| `AddressLabels.GuardTexts` | src/bme_core.cpp:1288-1357 | The text for a guard byte does the same with the guard note, and the first byte behind a region also says end. |
| `AddressLabels.AbsoluteTexts` | src/bme_core.cpp:1360 | Any other address is shown as sixteen digits that denote it. |
| `AddressLabels.AlignedRsp` | src/os.linux.cpp:356 | Aligning the initial stack pointer to 16 bytes changes nothing. |
| `AddressLabels.SignalStackUnlabelled` | src/os.linux.cpp:285-298 | The signal stack and its guard pages get plain addresses; elsewhere guard labels are exact. |
| `AddressLabels.LayoutInstance` | src/os.linux.cpp:281-297 | A two-byte input in ordinary places has a valid layout, with its code ending where the guard page begins. |
| `AddressLabels.SignalStackInstance` | src/os.linux.cpp:285-298 | An address in the first guard page of a signal stack has a plain label. |
| `CpuId.QueryFingerprint` | src/cpu.cpp:385-511 | The records ascend strictly by leaf and subleaf, number at most 203, and hold exactly the keys that the answers ask for; the log of extended control register reads is one read of XCR0 under XSAVE and OSXSAVE, and empty otherwise. |
| `CpuId.KeysAreAsked` | src/cpu.cpp:398-505 | A key is recorded if and only if the recorded answers ask for it, with every leaf, bit and limit written as a number. |
| `CpuId.QueryState` | src/cpu.cpp:431-453 | The subleaves of the state leaf are those selected by the two masks, and the masks are those of the records. |
| `CpuId.FindSound` | src/cpu.cpp:328-339 | The search returns a record with the key, and nothing exactly if there is none. |
| `CpuId.FindFirst` | src/cpu.cpp:328-339 | What it returns is the first record with the key. |
| `CpuId.FindIsMapLookup` | src/cpu.cpp:328-339 | On the enumerated records the linear search is a map lookup. |
| `CpuId.DecodeFeatures` | src/cpu.cpp:354-364 | The listed names are the table, in its order, filtered by whether the leaf was queried and its bit is set. |
| `CpuId.AdvertisedByRegister` | src/cpu.cpp:341-352 | A feature is advertised exactly by its bit of the register that its table entry names, in the record of its leaf. |
| `CpuId.BitIsDigit` | src/cpu.cpp:359 | Bit n of a word is its binary digit of weight two to the n. |
| `CpuId.Pow2Literals` | src/cpu.cpp:412-418 | The weights of the bits that are tested, as numbers. |
| `CpuId.DecodeEnabledState` | src/cpu.cpp:366-381 | The listed names are the table, in its order, filtered by the bits set in both masks, and none without the masks. |
| `CpuId.ReadFingerprint` | src/cpu.cpp:385-511 | For any source, a key is recorded if and only if the answers ask for it; the state components listed are those in the queried mask and in the one read of the enabled mask if the processor has the state leaf, XSAVE and OSXSAVE, and none otherwise; the features are those whose bit was answered. |
| `Base64.Encode` | src/os.linux.cpp:525-536 | The encoder emits four characters for every three bytes begun. |
| `Base64.RoundTrip` | src/os.linux.cpp:525-536 | Decoding per section 4 of RFC 4648 gives the text, for every length and padding case. |
| `Base64.DecodeIff` | src/os.linux.cpp:525-536 | A text decodes to these bytes if and only if it is what the encoder writes for them. |
| `Base64.CopyToClipboard` | src/os.linux.cpp:505-544 | Success exactly when the text is not empty, the output is a terminal and every stream call succeeds; what is written is always a prefix of the control sequence, also when the failing call writes a part, and all of it on success. |
| `Base64.SequenceCharacters` | src/os.linux.cpp:521-543 | The control sequence is ESC `]52;c;`, the encoded text and the bell, character by character. |
| `Base64.ReceiverRecovers` | src/os.linux.cpp:520-543 | A terminal that reads up to the first bell and decodes has the text. |
| `ProcessWalk.GrowsIff` | src/os.windows.cpp:282-300 | The buffer can grow if and only if it is below the limit and the system asks for no more than the limit. |
| `ProcessWalk.NextSizes` | src/os.windows.cpp:282-300 | Below the limit the next size is what the system asks for, if that is more, and else the double, but never beyond 64 MiB. |
| `ProcessWalk.LimitInstance` | src/os.windows.cpp:282-300 | No growth at the limit or beyond it; otherwise doubling, or what the system asks for. |
| `ProcessWalk.SizesGrow` | src/os.windows.cpp:262-303 | The sizes that are tried increase strictly. |
| `ProcessWalk.QueryProcesses` | src/os.windows.cpp:262-303 | The loop terminates, tries the specified sizes, and accepts only an answer that fits its buffer. |
| `ProcessWalk.LastAnswer` | src/os.windows.cpp:282-300 | When the last answer is still "too short", the buffer is at the limit or the system asks for more than the limit. |
| `ProcessWalk.TruthfulAnswerIsUsed` | src/os.windows.cpp:262-303 | A system that answers truthfully and within the limit is always heard, whatever hints it gives. |
| `ProcessWalk.FindProcess` | src/os.windows.cpp:306-333 | Every read is in bounds, the walk terminates, and it finds the first record of the process in the chain, or nothing exactly if no chain reaches one. |
| `ProcessWalk.RecordsDoNotOverlap` | src/os.windows.cpp:325-331 | Offsets in a chain grow by at least a whole record header. |
| `ProcessWalk.ChainIsShort` | src/os.windows.cpp:314-331 | A walk visits no more records than fit in the buffer. |
| `ProcessWalk.FindParent` | src/os.windows.cpp:335-349 | The parent found is the first record of the process that the first own record names, and nothing exactly if either is missing. |
| `ProcessWalk.FieldBytes` | src/os.windows.cpp:319-325 | The four bytes of a field are its digits to base 256, least significant first. |
| `ProcessWalk.RecordFields` | src/os.windows.cpp:23-26 | A record has its link at 0, its process at 80, the parent at 88 and at least 96 bytes. |
| `ProcessWalk.NameRange` | src/os.windows.cpp:346-370 | The image name is used exactly if its pointer is set, its size even, and the whole of it inside the buffer. |

## Left out

- Terminal user interface, message and mnemonic texts, fault names: display only.
- Disassemblers: any function from address and bytes to text and length, and any predicate for "is a software breakpoint".
- ptrace, fork, signals, exception handler installation, threads and memory allocation: arbitrary streams of stops and given
  region addresses. Setup failures before the first step are not modelled beyond the MXCSR refusal.
- Floating-point text parsing and the conversions to single and 80-bit precision: arbitrary functions, shared by the strict
  parser and by composition as in the source.
- JSON documents, option parsing, file input, environment queries: thin wrappers around libraries.
- Decoded CPU signature, vendor and brand texts, address widths: finite decoding of fields that the enumeration order does
  not depend on.
- Name comparison at the end of the parent check: a plain comparison of the bytes whose range is modelled.
- Windows register block: the seed read-back is proved for the Linux blocks only; the Windows handler's registers are taken
  as recorded, and its trap flag and saved context are not modelled.
- The command-line settings are a value that the argument loop replaces, not an object with other fields beside it.
- `RunEngine.BuildTrace`: the mutex around a run and the wording of messages are not modelled.
- `TimelineProofs.SelectionSurvives`: says nothing about static rows. `StaticSelectionSurvives` covers tabs with the same
  rows; otherwise a static selection need not survive, because another decoder may cover the address with an event row or cut
  it differently.
- `ProcessWalk.FindProcess`: works on the bytes that the system reports as written, without the rest of the buffer.

/** The engine around a platform run: refusal before it, the recorded trace and the report after it. */
module RunEngine {
  import opened Common
  import opened MachineState
  import opened TraceModel
  import opened Driver
  import LinuxDriver
  import WindowsDriver
  import opened WindowsProofs

  datatype StopReason = NoReason | SelectedRow | Int3 | FaultedHere | CapReached | EndOfInput | LeftInput

  /** `executed` is the number of instructions that the message reports. */
  datatype EngineTrace = EngineTrace(
    trace: Trace, outcome: Outcome, stopAddress: u64, stopReason: StopReason, executed: nat,
    memory: Option<u64>, access: FaultAccess, effectiveMaxSteps: nat)

  /** Checks made before any platform work: None lets the run proceed. */
  function Prepare(code: seq<u8>, seed: Registers, stopOffset: Option<nat>, instrumented: bool): (refusal: Option<RunResult>)
    ensures refusal == None <==>
      |code| > 0 && (stopOffset.Some? ==> stopOffset.value < |code|) && !instrumented
    ensures refusal.Some? ==> refusal.value.steps == [] && (refusal.value.outcome == Error || refusal.value.outcome == Idle)
    ensures refusal.Some? ==> (refusal.value.outcome == Idle <==> code == [])
    ensures refusal.Some? ==> refusal.value.seed == seed && refusal.value.stopAddress == 0 && !refusal.value.stoppedAtTarget
    ensures refusal.Some? ==> (refusal.value.instrumentationDetected <==>
      |code| > 0 && (stopOffset.Some? ==> stopOffset.value < |code|) && instrumented)
  {
    var nothing := RunResult(seed, [], Error, false, 0, None, NoAccess, false);
    if |code| == 0 then Some(nothing.(outcome := Idle))
    else if stopOffset.Some? && stopOffset.value >= |code| then Some(nothing)
    else if instrumented then Some(nothing.(instrumentationDetected := true))
    else None
  }

  function EventOf(step: Step): ExecutionEvent {
    ExecutionEvent(step.rip, step.registers, if step.faulted then FaultedEvent else CompletedEvent)
  }

  /** The events that a result records: none when the run was refused or failed. */
  function EventsOf(r: RunResult): seq<ExecutionEvent> {
    if r.outcome == Error || r.outcome == Idle then []
      else seq(|r.steps|, k requires 0 <= k < |r.steps| => EventOf(r.steps[k]))
  }

  function CompletedEvents(events: seq<ExecutionEvent>): nat {
    if events == [] then 0
    else CompletedEvents(events[..|events| - 1]) + (if events[|events| - 1].kind == CompletedEvent then 1 else 0)
  }

  function ReasonOf(r: RunResult, code: seq<u8>): StopReason {
    match r.outcome
    case Stopped => if r.stoppedAtTarget then SelectedRow else Int3
    case Faulted => FaultedHere
    case AbortedCap => CapReached
    case Finished => if NextRip(r) == (r.seed.rip + |code|) % TWO_64 then EndOfInput else LeftInput
    case _ => NoReason
  }

  /** What the engine records for a platform result. */
  function Record(code: seq<u8>, effectiveMaxSteps: nat, r: RunResult): EngineTrace {
    var trace := Trace(code, r.seed, EventsOf(r), r.instrumentationDetected);
    var stopAddress := if r.outcome == Stopped || r.outcome == Faulted then r.stopAddress else 0;
    var executed := if r.outcome == AbortedCap then effectiveMaxSteps else CompletedEvents(EventsOf(r));
    EngineTrace(trace, r.outcome, stopAddress, ReasonOf(r, code), executed, r.memory, r.access, effectiveMaxSteps)
  }

  method CopyEvents(steps: seq<Step>) returns (events: seq<ExecutionEvent>)
    ensures |events| == |steps| && forall j :: 0 <= j < |steps| ==> events[j] == EventOf(steps[j])
  {
    events := [];
    for k := 0 to |steps|
      invariant |events| == k && forall j :: 0 <= j < k ==> events[j] == EventOf(steps[j])
    {
      events := events + [ExecutionEvent(steps[k].rip, steps[k].registers,
        if steps[k].faulted then FaultedEvent else CompletedEvent)];
    }
  }

  method CountCompletedEvents(events: seq<ExecutionEvent>) returns (executed: nat)
    ensures executed == CompletedEvents(events)
  {
    executed := 0;
    for k := 0 to |events|
      invariant executed == CompletedEvents(events[..k])
    {
      assert events[..k + 1][..k] == events[..k];
      if events[k].kind == CompletedEvent {
        executed := executed + 1;
      }
    }
    assert events[..|events|] == events;
  }

  method BuildTrace(code: seq<u8>, effectiveMaxSteps: nat, r: RunResult) returns (result: EngineTrace)
    requires r.instrumentationDetected ==> r.outcome == Error
    ensures result == Record(code, effectiveMaxSteps, r)
    ensures result.trace.code == code && result.trace.seed == r.seed && result.outcome == r.outcome
    ensures result.trace.instrumentationDetected == r.instrumentationDetected
    ensures result.memory == r.memory && result.access == r.access && result.effectiveMaxSteps == effectiveMaxSteps
    ensures r.outcome == Stopped || r.outcome == Faulted ==> result.stopAddress == r.stopAddress
    ensures r.outcome != Stopped && r.outcome != Faulted ==> result.stopAddress == 0
    ensures r.outcome == Error || r.outcome == Idle ==> result.trace.events == [] && result.executed == 0
    ensures r.outcome != Error && r.outcome != Idle ==>
      |result.trace.events| == |r.steps| && forall k :: 0 <= k < |r.steps| ==>
        && result.trace.events[k].rip == r.steps[k].rip && result.trace.events[k].registers == r.steps[k].registers
        && (result.trace.events[k].kind == FaultedEvent <==> r.steps[k].faulted)
  {
    result := EngineTrace(Trace(code, r.seed, [], r.instrumentationDetected), r.outcome, 0, NoReason, 0, r.memory,
      r.access, effectiveMaxSteps);
    if r.instrumentationDetected || r.outcome == Error || r.outcome == Idle {
      return;
    }
    var events := CopyEvents(r.steps);
    assert events == EventsOf(r);
    var executed := CountCompletedEvents(events);
    result := result.(trace := result.trace.(events := events), executed := executed);
    match r.outcome {
      case Stopped =>
        result := result.(stopReason := if r.stoppedAtTarget then SelectedRow else Int3, stopAddress := r.stopAddress);
      case Faulted =>
        result := result.(stopReason := FaultedHere, stopAddress := r.stopAddress);
      case AbortedCap =>
        result := result.(stopReason := CapReached, executed := effectiveMaxSteps);
      case Finished =>
        var nextRip := if events == [] then r.seed.rip else events[|events| - 1].registers.rip;
        var codeEnd := (r.seed.rip + |code|) % TWO_64;
        result := result.(stopReason := if nextRip == codeEnd then EndOfInput else LeftInput);
    }
  }

  /** Clamping in the engine and again in the platform changes nothing: the request is always clamped. */
  lemma ClampTwice(n: nat)
    ensures Clamp(Clamp(n)) == Clamp(n)
  {
  }

  lemma {:induction false} CountCompleted(events: seq<ExecutionEvent>, n: nat)
    requires n <= |events|
    requires forall k :: 0 <= k < |events| ==> (events[k].kind == CompletedEvent <==> k < n)
    ensures CompletedEvents(events) == n
    decreases |events|
  {
    if events != [] { CountCompleted(events[..|events| - 1], if n == |events| then n - 1 else n); }
  }

  /** The cap that a message prints instead of a count is the count, when a run ends at the cap without a fault. */
  lemma CountAtCap(c: Config, cpu: Cpu, r: RunResult)
    requires r.outcome == AbortedCap ==> |r.steps| == Clamp(c.maxSteps) && !EndsInFault(r)
    requires forall k :: 0 <= k < |r.steps| ==> SafeStep(c, cpu, r.steps, k)
    ensures var e := Record(c.code, Clamp(c.maxSteps), r); e.executed == CompletedEvents(e.trace.events)
  {
    hide SafeStart;
    if r.outcome == AbortedCap {
      forall k | 0 <= k < |r.steps| ensures EventsOf(r)[k].kind == CompletedEvent {
        assert SafeStep(c, cpu, r.steps, k) && EventsOf(r)[k] == EventOf(r.steps[k]);
      }
      CountCompleted(EventsOf(r), |r.steps|);
    }
  }

  /**
   * The executed count in the message is the number of completed events, also where the message prints the step cap
   * instead: the engine clamps the request and passes the clamped cap on, and the platform clamps it again.
   */
  lemma ReportedCount(request: Config, cpu: Cpu)
    requires Ready(request)
    ensures var cap := Clamp(request.maxSteps);
      var e := Record(request.code, cap, Run(request.(maxSteps := cap), cpu));
      e.executed == CompletedEvents(e.trace.events)
  {
    hide RunFrom, Run, Inside, AtTarget, Record, SafeStep;
    ClampTwice(request.maxSteps);
    var c := request.(maxSteps := Clamp(request.maxSteps));
    WholeRunSafety(c, cpu);
    OutcomeCharacterized(c, cpu);
    CountAtCap(c, cpu, Run(c, cpu));
  }

  /** The same on Windows, for a thread that exits early too. */
  lemma WindowsReportedCount(request: Config, thread: WindowsDriver.Thread)
    requires Ready(request)
    ensures var cap := Clamp(request.maxSteps);
      var e := Record(request.code, cap, WindowsDriver.WindowsRun(request.(maxSteps := cap), thread));
      e.executed == CompletedEvents(e.trace.events)
  {
    hide WindowsDriver.WindowsRun, Inside, AtTarget, Record, SafeStep;
    ClampTwice(request.maxSteps);
    var c := request.(maxSteps := Clamp(request.maxSteps));
    WindowsRunSafety(c, thread);
    WindowsOutcomes(c, thread);
    CountAtCap(c, WindowsDriver.View(thread), WindowsDriver.WindowsRun(c, thread));
  }

  /** The stop reasons that say where a result ended, save for the one that two ends share on Windows. */
  ghost predicate ReasonsFit(c: Config, cpu: Cpu, r: RunResult, reason: StopReason) {
    && (reason == EndOfInput <==> r.steps != [] && !EndsInFault(r) && NextRip(r) == c.seed.rip + |c.code|)
    && (reason == FaultedHere <==> EndsInFault(r))
    && (reason == SelectedRow <==> !EndsInFault(r) && AtTarget(c, NextRip(r)))
    && (reason == Int3 <==> GoesOnTo(c, cpu, |r.steps|) && cpu(|r.steps|).Breakpoint?)
    && (reason == Int3 ==> r.stopAddress == NextRip(r))
    && (reason == CapReached <==>
          |r.steps| == Clamp(c.maxSteps) && !EndsInFault(r) && Inside(c, NextRip(r)) && !AtTarget(c, NextRip(r)))
  }

  predicate LeftSideways(c: Config, r: RunResult) {
    r.steps != [] && !EndsInFault(r) && !Inside(c, NextRip(r)) && NextRip(r) != c.seed.rip + |c.code|
  }

  lemma ReasonByOutcome(code: seq<u8>, cap: nat, r: RunResult)
    ensures var reason := Record(code, cap, r).stopReason;
      && (reason == SelectedRow <==> r.outcome == Stopped && r.stoppedAtTarget)
      && (reason == Int3 <==> r.outcome == Stopped && !r.stoppedAtTarget)
      && (reason == FaultedHere <==> r.outcome == Faulted)
      && (reason == CapReached <==> r.outcome == AbortedCap)
      && (reason == EndOfInput <==> r.outcome == Finished && NextRip(r) == (r.seed.rip + |code|) % TWO_64)
      && (reason == LeftInput <==> r.outcome == Finished && NextRip(r) != (r.seed.rip + |code|) % TWO_64)
  {
  }

  /** What each stop reason says about a Linux run: where it ended, and why there. */
  lemma StopReasons(c: Config, cpu: Cpu)
    requires Ready(c)
    ensures var r := Run(c, cpu); var reason := Record(c.code, c.maxSteps, r).stopReason;
      ReasonsFit(c, cpu, r, reason) && (reason == LeftInput <==> LeftSideways(c, r))
  {
    hide Run, RunFrom, GoesOnTo, Inside, AtTarget, Ready, Record, NextRip, EndsInFault;
    var r := Run(c, cpu);
    ReasonByOutcome(c.code, c.maxSteps, r);
    OutcomeCharacterized(c, cpu);
    BreakIff(c, cpu, |r.steps|);
    RunSeed(c, cpu);
    NoWrap(c);
  }

  /**
   * What each stop reason says about a Windows run. "Left the input" is also given to a thread that exited early, and it
   * is true of the run if and only if the thread did not.
   */
  lemma WindowsStopReasons(c: Config, thread: WindowsDriver.Thread)
    requires Ready(c)
    ensures var w := WindowsDriver.WindowsRun(c, thread); var reason := Record(c.code, c.maxSteps, w).stopReason;
      && ReasonsFit(c, WindowsDriver.View(thread), w, reason)
      && (reason == LeftInput <==> LeftSideways(c, w) || ExitsEarly(c, thread))
      && (reason == LeftInput ==> (LeftSideways(c, w) <==> !ExitsEarly(c, thread)))
  {
    hide Run, WindowsDriver.WindowsRun, WindowsDriver.View, ExitsEarly, WaitLost, Ready, GoesOnTo, Inside, AtTarget, Record,
      NextRip, EndsInFault;
    var w := WindowsDriver.WindowsRun(c, thread);
    ReasonByOutcome(c.code, c.maxSteps, w);
    WindowsOutcomes(c, thread);
    BreakIff(c, WindowsDriver.View(thread), |w.steps|);
    BreakIff(c, WindowsDriver.View(thread), |Run(c, WindowsDriver.View(thread)).steps|);
    ResultByEnd(c, thread);
    if ExitsEarly(c, thread) {
      EarlyExitIsInside(c, thread);
    }
    NoWrap(c);
  }

  lemma RunSeed(c: Config, cpu: Cpu)
    ensures Run(c, cpu).seed == c.seed
  {
    if c.stopOffset != Some(0) {
      RunFlags(c, cpu, c.seed.rip, []);
    }
  }

  /**
   * After a run to a row, the recorded stop address is the address of that row, which is what selects it, exactly if the
   * run stopped there, or faulted with the instruction pointer at it.
   */
  lemma TargetIsSelected(c: Config, cpu: Cpu)
    requires Ready(c) && c.stopOffset.Some?
    ensures var r := Run(c, cpu);
      Record(c.code, c.maxSteps, r).stopAddress == c.seed.rip + c.stopOffset.value <==>
        r.stoppedAtTarget || (EndsInFault(r) && NextRip(r) == c.seed.rip + c.stopOffset.value)
  {
    var r := Run(c, cpu);
    if c.stopOffset != Some(0) {
      OutcomeCharacterized(c, cpu);
      RunExplained(c, cpu);
      BreakIff(c, cpu, |r.steps|);
      hide RunFrom, Trail;
    }
  }

  lemma NoWrap(c: Config)
    requires Ready(c)
    ensures (c.seed.rip + |c.code|) % TWO_64 == c.seed.rip + |c.code| && !Inside(c, c.seed.rip + |c.code|)
  {
  }

  // ---------------------------------------------------------------- the two platforms

  /** Both platforms observe the same processor. */
  ghost predicate SameProcessor(c: Config, int3: LinuxDriver.BreakpointOracle, child: LinuxDriver.Child,
    thread: WindowsDriver.Thread) {
    forall k: nat :: LinuxDriver.View(c, int3, child)(k) == WindowsDriver.View(thread)(k)
  }

  /** No thread exit and no fault reported away from its RIP comes at a stop that the run reaches. */
  ghost predicate OrdinaryEnd(c: Config, thread: WindowsDriver.Thread) {
    && !ExitsEarly(c, thread)
    && forall n: nat :: GoesOnTo(c, WindowsDriver.View(thread), n) && thread(n).OtherException? ==>
         thread(n).address == thread(n).registers.rip
  }

  /**
   * For the same processor stream the two drivers record the same trace exactly when the run has an ordinary end.
   * With an exit, Linux reports an error and Windows a finished run.
   */
  lemma DriversAgree(c: Config, int3: LinuxDriver.BreakpointOracle, child: LinuxDriver.Child, thread: WindowsDriver.Thread)
    requires Ready(c) && SameProcessor(c, int3, child, thread)
    ensures OrdinaryEnd(c, thread) <==>
      Record(c.code, c.maxSteps, Run(c, LinuxDriver.View(c, int3, child)))
      == Record(c.code, c.maxSteps, WindowsDriver.WindowsRun(c, thread))
  {
    var cpu := WindowsDriver.View(thread);
    RunFromSame(c, LinuxDriver.View(c, int3, child), cpu, c.seed.rip, []);
    if c.stopOffset != Some(0) {
      RunExplained(c, cpu);
    }
    EndsAgree(c, thread);
    OrdinaryIff(c, thread);
  }

  /** The same in terms of the run: where it ended, and how. */
  ghost predicate EndsOrdinarily(c: Config, thread: WindowsDriver.Thread, r: RunResult) {
    && !ExitsEarly(c, thread)
    && (r.outcome == Faulted && r.steps != [] && thread(|r.steps| - 1).OtherException? ==>
          thread(|r.steps| - 1).address == thread(|r.steps| - 1).registers.rip)
  }

  lemma OrdinaryIff(c: Config, thread: WindowsDriver.Thread)
    requires Ready(c)
    ensures OrdinaryEnd(c, thread) <==> EndsOrdinarily(c, thread, Run(c, WindowsDriver.View(thread)))
  {
    hide Run, Ready, GoesOnTo, ExitsEarly, WindowsDriver.View;
    var cpu := WindowsDriver.View(thread);
    var r := Run(c, cpu);
    forall n: nat
      ensures GoesOnTo(c, cpu, n) && thread(n).OtherException? <==> r.outcome == Faulted && |r.steps| == n + 1
    {
      WindowsDriver.ViewAt(thread, n);
      FaultIff(c, cpu, n);
    }
    if r.outcome == Faulted && r.steps != [] {
      var n: nat := |r.steps| - 1;
      assert GoesOnTo(c, cpu, n) && thread(n).OtherException?;
    }
  }

  lemma EndsAgree(c: Config, thread: WindowsDriver.Thread)
    requires Ready(c)
    requires var cpu := WindowsDriver.View(thread); c.stopOffset == Some(0) || Explained(c, cpu, Run(c, cpu))
    ensures EndsOrdinarily(c, thread, Run(c, WindowsDriver.View(thread))) <==>
      Record(c.code, c.maxSteps, Run(c, WindowsDriver.View(thread)))
        == Record(c.code, c.maxSteps, WindowsDriver.WindowsRun(c, thread))
  {
    var r, w := Run(c, WindowsDriver.View(thread)), WindowsDriver.WindowsRun(c, thread);
    ErrorStops(c, thread);
    if r.outcome == Faulted {
      FaultStop(c, thread, r);
      hide Run, Record, WindowsDriver.View, WindowsDriver.AtEnd, ExitsEarly;
      FaultsAgree(c.code, c.maxSteps, r, thread(|r.steps| - 1));
    } else {
      hide Run, ExitsEarly;
    }
  }

  lemma FaultStop(c: Config, thread: WindowsDriver.Thread, r: RunResult)
    requires r.outcome == Faulted && r == Run(c, WindowsDriver.View(thread))
    requires c.stopOffset == Some(0) || Explained(c, WindowsDriver.View(thread), r)
    ensures r.steps != [] && thread(|r.steps| - 1).OtherException?
    ensures var stop := thread(|r.steps| - 1);
      r.steps[|r.steps| - 1] == Step(stop.registers.rip, stop.registers, true) && r.stopAddress == stop.registers.rip
  {
    hide RunFrom, Trail;
  }

  lemma FaultsAgree(code: seq<u8>, cap: nat, r: RunResult, stop: WindowsDriver.ThreadStop)
    requires r.outcome == Faulted && r.steps != [] && stop.OtherException?
    requires r.steps[|r.steps| - 1] == Step(stop.registers.rip, stop.registers, true) && r.stopAddress == stop.registers.rip
    ensures stop.address == stop.registers.rip <==> Record(code, cap, r) == Record(code, cap, WindowsDriver.AtEnd(r, stop))
  {
    var w := WindowsDriver.AtEnd(r, stop);
    if stop.address == stop.registers.rip {
      assert w.steps == r.steps;
    } else {
      assert EventsOf(r)[|r.steps| - 1].rip != EventsOf(w)[|r.steps| - 1].rip;
    }
  }

  // ---------------------------------------------------------------- instances

  const TWO_NOPS: seq<u8> := [0x90, 0x90]
  const NOPS_AT_1000: Config := Config(TWO_NOPS, ZERO_REGISTERS.(rip := 0x1000), 10, None)

  lemma Observed(c: Config, int3: LinuxDriver.BreakpointOracle, child: LinuxDriver.Child, thread: WindowsDriver.Thread)
    requires forall k: nat ::
      LinuxDriver.Meaning(c, int3, LinuxDriver.Previous(c, child, k), child(k)) == WindowsDriver.Meaning(thread(k))
    ensures SameProcessor(c, int3, child, thread)
  {
  }

  /**
   * A thread that exits before its first instruction retires: Windows reports a finished run that left the input, with
   * the next instruction still inside it, and Linux reports an error for the same processor.
   */
  lemma EarlyExitInstance(int3: LinuxDriver.BreakpointOracle)
    ensures var c := NOPS_AT_1000;
      var thread := (k: nat) => WindowsDriver.ThreadExited;
      var child := (k: nat) => LinuxDriver.ChildExited;
      && Ready(c) && SameProcessor(c, int3, child, thread) && ExitsEarly(c, thread)
      && var w := WindowsDriver.WindowsRun(c, thread);
         w.outcome == Finished && Inside(c, NextRip(w)) && Record(c.code, c.maxSteps, w).stopReason == LeftInput
         && Run(c, LinuxDriver.View(c, int3, child)).outcome == Error
  {
    var c := NOPS_AT_1000;
    var thread := (k: nat) => WindowsDriver.ThreadExited;
    var child := (k: nat) => LinuxDriver.ChildExited;
    assert GoesOnTo(c, WindowsDriver.View(thread), 0);
    WindowsDriver.EndedByThread(c, thread, c.seed.rip, []);
    Observed(c, int3, child, thread);
    NoWrap(c);
  }

  /** A fault that is reported away from the RIP: the recorded traces differ. */
  lemma FaultAddressInstance(int3: LinuxDriver.BreakpointOracle)
    ensures var c := NOPS_AT_1000;
      var thread := (k: nat) => WindowsDriver.OtherException(0xC000_001D, 0x2000, c.seed, []);
      var child := (k: nat) => LinuxDriver.Signalled(4, 0, c.seed, 0, None);
      && Ready(c) && SameProcessor(c, int3, child, thread) && !ExitsEarly(c, thread) && !OrdinaryEnd(c, thread)
      && Record(c.code, c.maxSteps, Run(c, LinuxDriver.View(c, int3, child)))
         != Record(c.code, c.maxSteps, WindowsDriver.WindowsRun(c, thread))
  {
    var c := NOPS_AT_1000;
    var thread := (k: nat) => WindowsDriver.OtherException(0xC000_001D, 0x2000, c.seed, []);
    var child := (k: nat) => LinuxDriver.Signalled(4, 0, c.seed, 0, None);
    Observed(c, int3, child, thread);
    WindowsDriver.ViewAt(thread, 0);
    Unfold(c, WindowsDriver.View(thread), c.seed.rip, []);
    assert Run(c, WindowsDriver.View(thread)).outcome == Faulted;
    ErrorStops(c, thread);
    DriversAgree(c, int3, child, thread);
  }
}

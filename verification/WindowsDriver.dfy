/** The Windows exception handler: a global engine object records one exception after another. */
module WindowsDriver {
  import opened Common
  import opened MachineState
  import opened Driver

  const EXCEPTION_ACCESS_VIOLATION: u32 := 0xC000_0005
  const EXCEPTION_IN_PAGE_ERROR: u32 := 0xC000_0006

  /** What the sandbox thread does next. `ThreadExited` ends it without an exception, `WaitFailed` loses it. */
  datatype ThreadStop =
    | SingleStep(registers: Registers)
    | BreakpointException
    | OtherException(code: u32, address: u64, registers: Registers, parameters: seq<u64>)
    | ThreadExited
    | WaitFailed

  type Thread = nat -> ThreadStop

  predicate IsMemoryFault(code: u32, parameters: seq<u64>) {
    (code == EXCEPTION_ACCESS_VIOLATION || code == EXCEPTION_IN_PAGE_ERROR) && |parameters| >= 2
  }

  function AccessOf(kind: u64): FaultAccess {
    if kind == 0 then Read else if kind == 1 then Write else if kind == 8 then Execute else Unknown
  }

  /** The processor stop that a thread stop stands for. */
  function Meaning(stop: ThreadStop): Stop {
    match stop
    case SingleStep(registers) => Retired(registers)
    case BreakpointException => Breakpoint
    case OtherException(code, _, registers, parameters) =>
      if IsMemoryFault(code, parameters) then Fault(registers, Some(parameters[1]), AccessOf(parameters[0]))
      else Fault(registers, None, NoAccess)
    case ThreadExited => Exited
    case WaitFailed => Lost
  }

  function View(thread: Thread): Cpu {
    (k: nat) => Meaning(thread(k))
  }

  lemma ViewAt(thread: Thread, k: nat)
    ensures View(thread)(k) == Meaning(thread(k))
  {
  }

  datatype RawStep = RawStep(rip: u64, registers: Registers)

  function StepsOf(raw: seq<RawStep>): (steps: seq<Step>)
    ensures |steps| == |raw|
    ensures forall k :: 0 <= k < |raw| ==> steps[k] == Step(raw[k].rip, raw[k].registers, false)
  {
    if raw == [] then []
    else StepsOf(raw[..|raw| - 1]) + [Step(raw[|raw| - 1].rip, raw[|raw| - 1].registers, false)]
  }

  lemma StepsOfAppend(raw: seq<RawStep>, step: RawStep)
    ensures StepsOf(raw + [step]) == StepsOf(raw) + [Step(step.rip, step.registers, false)]
  {
    assert (raw + [step])[..|raw|] == raw;
  }

  /**
   * The result of a Windows run. It is the run of the processor stream but for three ends: a fault is recorded at the
   * address that the exception record reports, a thread that exits leaves the outcome at Finished, and a lost wait
   * discards the steps.
   */
  function WindowsRun(c: Config, thread: Thread): RunResult {
    var r := Run(c, View(thread));
    AtEnd(r, if r.outcome == Faulted && |r.steps| > 0 then thread(|r.steps| - 1) else thread(|r.steps|))
  }

  function AtEnd(r: RunResult, stop: ThreadStop): RunResult {
    if r.outcome == Faulted && |r.steps| > 0 && stop.OtherException? then
      r.(steps := r.steps[..|r.steps| - 1] + [r.steps[|r.steps| - 1].(rip := stop.address)], stopAddress := stop.address)
    else if r.outcome == Error && stop.ThreadExited? then r.(outcome := Finished, stopAddress := 0)
    else if r.outcome == Error then r.(steps := [])
    else r
  }

  class Engine {
    // Where the code lies, and when to stop.
    var base: u64
    var codeLength: nat
    var maxSteps: nat
    var targetAddress: int
    var hasTarget: bool

    // Where the next exception is expected to come from.
    var previousRip: u64

    // What the handler has seen.
    var rawSteps: seq<RawStep>
    var outcome: Outcome
    var faultAddress: u64
    var memory: Option<u64>
    var access: FaultAccess
    var faultRegisters: Registers
    var stoppedAtTarget: bool

    constructor (c: Config)
      ensures For(c) && Running() && rawSteps == [] && previousRip == c.seed.rip
    {
      base := c.seed.rip;
      codeLength := |c.code|;
      maxSteps := Clamp(c.maxSteps);
      targetAddress := if c.stopOffset.Some? then c.seed.rip + c.stopOffset.value else 0;
      hasTarget := c.stopOffset.Some?;
      previousRip := c.seed.rip;
      rawSteps := [];
      outcome := Finished;
      faultAddress := 0;
      memory := None;
      access := NoAccess;
      faultRegisters := ZERO_REGISTERS;
      stoppedAtTarget := false;
    }

    /** The engine is set up for this run. */
    ghost predicate For(c: Config)
      reads this
    {
      && base == c.seed.rip && codeLength == |c.code| && maxSteps == Clamp(c.maxSteps)
      && hasTarget == c.stopOffset.Some?
      && (hasTarget ==> targetAddress == c.seed.rip + c.stopOffset.value)
    }

    /** No exception has ended the run, and the reserved steps have room for one more. */
    ghost predicate Running()
      reads this
    {
      && |rawSteps| < maxSteps
      && outcome == Finished && faultAddress == 0 && memory == None && access == NoAccess && !stoppedAtTarget
    }

    /** What the engine has captured, as a result. */
    ghost function Captured(c: Config): RunResult
      reads this
    {
      RunResult(
        c.seed,
        StepsOf(rawSteps) + if outcome == Faulted then [Step(faultAddress, faultRegisters, true)] else [],
        outcome, false, faultAddress, memory, access, stoppedAtTarget)
    }

    /** A completed instruction: it is recorded, and ends the run at the target, outside the code, or at the cap. */
    method RecordStep(context: Registers, ghost c: Config, ghost cpu: Cpu, ghost run: RunResult) returns (resumed: bool)
      requires For(c) && Ready(c) && Running() && cpu(|rawSteps|) == Retired(context)
      requires run == RunFrom(c, cpu, previousRip, StepsOf(rawSteps))
      modifies this
      ensures For(c) && |rawSteps| == old(|rawSteps|) + 1 <= maxSteps
      ensures resumed ==> Running() && run == RunFrom(c, cpu, previousRip, StepsOf(rawSteps))
      ensures !resumed ==> outcome != Error && outcome != Faulted && run == Captured(c)
    {
      hide RunFrom, StepsOf, Ready, Clamp;
      UnfoldRetired(c, cpu, previousRip, StepsOf(rawSteps), context);
      StepsOfAppend(rawSteps, RawStep(previousRip, context));
      rawSteps := rawSteps + [RawStep(previousRip, context)];
      if hasTarget && context.rip == targetAddress {
        outcome, faultAddress, stoppedAtTarget := Stopped, context.rip, true;
        return false;
      }
      if context.rip < base || context.rip >= base + codeLength {
        outcome := Finished;
        return false;
      }
      if |rawSteps| >= maxSteps {
        outcome := AbortedCap;
        return false;
      }
      previousRip := context.rip;
      return true;
    }

    /**
     * The vectored handler. It resumes the sandbox with the trap flag set, or restores the saved context and ends the run.
     * The reserved steps are never outgrown.
     */
    method HandleException(stop: ThreadStop, ghost c: Config, ghost cpu: Cpu, ghost run: RunResult) returns (resumed: bool)
      requires For(c) && Ready(c) && Running()
      requires cpu(|rawSteps|) == Meaning(stop) && !stop.ThreadExited? && !stop.WaitFailed?
      requires run == RunFrom(c, cpu, previousRip, StepsOf(rawSteps))
      modifies this
      ensures For(c) && |rawSteps| <= maxSteps
      ensures resumed ==> Running() && |rawSteps| == old(|rawSteps|) + 1
      ensures resumed ==> run == RunFrom(c, cpu, previousRip, StepsOf(rawSteps))
      ensures !resumed ==> outcome != Error
      ensures !resumed && outcome != Faulted ==> run == Captured(c)
      ensures !resumed && outcome == Faulted ==>
        && rawSteps == old(rawSteps) && stop.OtherException? && !stoppedAtTarget
        && faultAddress == stop.address && faultRegisters == stop.registers
        && run == Ended(c, StepsOf(rawSteps) + [Step(faultRegisters.rip, faultRegisters, true)], Faulted, faultRegisters.rip)
                    .(memory := memory, access := access)
    {
      hide RunFrom, StepsOf, Ready, Clamp, AccessOf, AtTarget, Inside;
      match stop {
        case SingleStep(context) =>
          resumed := RecordStep(context, c, cpu, run);
        case BreakpointException =>
          Unfold(c, cpu, previousRip, StepsOf(rawSteps));
          outcome, faultAddress := Stopped, previousRip;
          resumed := false;
        case OtherException(code, address, context, parameters) =>
          Unfold(c, cpu, previousRip, StepsOf(rawSteps));
          outcome, faultAddress := Faulted, address;
          if IsMemoryFault(code, parameters) {
            memory, access := Some(parameters[1]), AccessOf(parameters[0]);
          }
          faultRegisters := context;
          resumed := false;
      }
    }
  }

  /** What was captured is the run of the processor stream, but for the address of a final fault. */
  ghost predicate Corrected(c: Config, thread: Thread, captured: RunResult) {
    var run := Run(c, View(thread));
    if captured.outcome != Faulted then captured == run
    else
      captured.steps != []
      && var last := captured.steps[|captured.steps| - 1];
         thread(|captured.steps| - 1).OtherException?
         && last.rip == thread(|captured.steps| - 1).address == captured.stopAddress
         && run == captured.(steps := captured.steps[..|captured.steps| - 1] + [last.(rip := last.registers.rip)],
                             stopAddress := last.registers.rip)
  }

  lemma CapturedIsCorrected(c: Config, thread: Thread, captured: RunResult, stop: ThreadStop)
    requires captured.outcome != Faulted ==> captured == Run(c, View(thread))
    requires captured.outcome == Faulted ==>
      && captured.steps != [] && stop == thread(|captured.steps| - 1) && stop.OtherException?
      && captured == Ended(c, captured.steps[..|captured.steps| - 1]
        + [Step(stop.address, stop.registers, true)], Faulted, stop.address)
                       .(memory := captured.memory, access := captured.access)
      && Run(c, View(thread))
         == Ended(c, captured.steps[..|captured.steps| - 1]
           + [Step(stop.registers.rip, stop.registers, true)], Faulted, stop.registers.rip)
              .(memory := captured.memory, access := captured.access)
    ensures Corrected(c, thread, captured)
  {
    hide Run, View;
  }

  /** An exception ended the run. */
  lemma EndedByException(c: Config, thread: Thread, captured: RunResult)
    requires captured.outcome != Error && Corrected(c, thread, captured)
    ensures WindowsRun(c, thread) == captured
  {
    hide Run, View;
  }

  /** The thread exited, or the wait for it failed, with the run still going. */
  lemma EndedByThread(c: Config, thread: Thread, previous: u64, steps: seq<Step>)
    requires |steps| < Clamp(c.maxSteps) && Run(c, View(thread)) == RunFrom(c, View(thread), previous, steps)
    ensures thread(|steps|).ThreadExited? ==> WindowsRun(c, thread) == Ended(c, steps, Finished, 0)
    ensures thread(|steps|).WaitFailed? ==> WindowsRun(c, thread) == Ended(c, [], Error, 0)
  {
    Unfold(c, View(thread), previous, steps);
    hide Run, RunFrom;
  }

  /** Copies the raw steps and the fault, if any, into the result. */
  method Assemble(engine: Engine, c: Config) returns (result: RunResult)
    ensures result == engine.Captured(c)
  {
    var steps := [];
    var i := 0;
    while i < |engine.rawSteps|
      invariant 0 <= i <= |engine.rawSteps|
      invariant steps == StepsOf(engine.rawSteps[..i])
    {
      assert engine.rawSteps[..i + 1][..i] == engine.rawSteps[..i];
      steps := steps + [Step(engine.rawSteps[i].rip, engine.rawSteps[i].registers, false)];
      i := i + 1;
    }
    assert engine.rawSteps[..i] == engine.rawSteps;
    if engine.outcome == Faulted {
      steps := steps + [Step(engine.faultAddress, engine.faultRegisters, true)];
    }
    result := RunResult(c.seed, steps, engine.outcome, false, engine.faultAddress,
      engine.memory, engine.access, engine.stoppedAtTarget);
  }

  /** Runs the sandbox thread under the handler, then assembles the result from what the engine captured. */
  method RunSteps(c: Config, thread: Thread) returns (result: RunResult)
    requires Ready(c)
    ensures result == WindowsRun(c, thread)
  {
    hide RunFrom, AtEnd, WindowsRun, View, Corrected;
    if c.stopOffset.Some? && c.stopOffset.value == 0 {
      result := RunResult(c.seed, [], Stopped, false, c.seed.rip, None, NoAccess, true);
      EmptyRun(c, thread);
      return;
    }
    var engine := new Engine(c);
    var resumed := true;
    var k := 0;
    while resumed
      invariant engine.For(c)
      invariant resumed ==> engine.Running() && k == |engine.rawSteps|
      invariant resumed ==> Run(c, View(thread)) == RunFrom(c, View(thread), engine.previousRip, StepsOf(engine.rawSteps))
      invariant !resumed ==> engine.outcome != Error && Corrected(c, thread, engine.Captured(c))
      decreases if resumed then 1 else 0, engine.maxSteps - |engine.rawSteps|
    {
      var stop := thread(k);
      ViewAt(thread, k);
      if stop.WaitFailed? {
        EndedByThread(c, thread, engine.previousRip, StepsOf(engine.rawSteps));
        result := RunResult(c.seed, [], Error, false, 0, None, NoAccess, false);
        return;
      }
      if stop.ThreadExited? {
        EndedByThread(c, thread, engine.previousRip, StepsOf(engine.rawSteps));
        break;
      }
      resumed := engine.HandleException(stop, c, View(thread), Run(c, View(thread)));
      k := k + 1;
      if !resumed {
        ghost var captured := engine.Captured(c);
        assert engine.outcome == Faulted ==> captured.steps[..|captured.steps| - 1] == StepsOf(engine.rawSteps);
        CapturedIsCorrected(c, thread, engine.Captured(c), stop);
      }
    }
    if !resumed {
      EndedByException(c, thread, engine.Captured(c));
    }
    result := Assemble(engine, c);
  }

  lemma EmptyRun(c: Config, thread: Thread)
    requires c.stopOffset == Some(0)
    ensures WindowsRun(c, thread) == Ended(c, [], Stopped, c.seed.rip).(stoppedAtTarget := true)
  {
  }
}

/**
 * The Linux ptrace loop: it classifies a signal stop by its code, the resulting RIP and the instruction that was
 * stepped.
 */
module LinuxDriver {
  import opened Common
  import opened MachineState
  import opened Driver

  const SIGBUS: int := 7
  const SIGSEGV: int := 11
  const SIGTRAP: int := 5
  const TRAP_BRKPT: int := 1
  const TRAP_TRACE: int := 2
  const SI_KERNEL: int := 0x80

  const PAGE_FAULT_TRAP: int := 14

  /** What the signal handler in the child reports about a page fault. */
  datatype FaultReport = FaultReport(address: u64, errorCode: bv64, trapNumber: int)

  /** One turn of the wait loop. `Failed` is a ptrace or wait call that reports an error. */
  datatype SignalStop =
    | Failed
    | ChildExited
    | Signalled(signal: int, code: int, registers: Registers, address: u64, report: Option<FaultReport>)

  type Child = nat -> SignalStop

  /** Whether the instruction at an offset of the code is a software breakpoint, as the decoder sees it. */
  type BreakpointOracle = nat -> bool

  predicate IsSoftwareBreakpoint(c: Config, int3: BreakpointOracle, rip: u64) {
    rip >= c.seed.rip && rip - c.seed.rip < |c.code| && int3(rip - c.seed.rip)
  }

  function ClassifyFaultAccess(report: FaultReport, expected: u64): FaultAccess {
    if report.address != expected || report.trapNumber != PAGE_FAULT_TRAP then Unknown
    else if report.errorCode & 0x10 != 0 then Execute
    else if report.errorCode & 0x2 != 0 then Write
    else Read
  }

  /** The processor stop that a signal stop stands for, given the instruction that was stepped. */
  function Meaning(c: Config, int3: BreakpointOracle, previous: u64, stop: SignalStop): Stop {
    match stop
    case Failed => Lost
    case ChildExited => Exited
    case Signalled(signal, code, registers, address, report) =>
      if signal == SIGTRAP && code == TRAP_TRACE then Retired(registers)
      else if signal == SIGTRAP && (code == TRAP_BRKPT || code == SI_KERNEL) then
        if IsSoftwareBreakpoint(c, int3, previous) then Breakpoint
        else if registers.rip != previous then Retired(registers)
        else Fault(registers, None, NoAccess)
      else if signal == SIGSEGV || signal == SIGBUS then
        Fault(registers, Some(address), if report.Some? then ClassifyFaultAccess(report.value, address) else Unknown)
      else Fault(registers, None, NoAccess)
  }

  /** The RIP that turn `k` steps from, when the turns before it all stopped with a signal. */
  function Previous(c: Config, child: Child, k: nat): u64 {
    if k > 0 && child(k - 1).Signalled? then child(k - 1).registers.rip else c.seed.rip
  }

  /** The processor stream that a stream of signal stops stands for. */
  function View(c: Config, int3: BreakpointOracle, child: Child): Cpu {
    (k: nat) => Meaning(c, int3, Previous(c, child, k), child(k))
  }

  lemma ViewAt(c: Config, int3: BreakpointOracle, child: Child, k: nat)
    ensures View(c, int3, child)(k) == Meaning(c, int3, Previous(c, child, k), child(k))
    ensures Previous(c, child, 0) == c.seed.rip
    ensures child(k).Signalled? ==> Previous(c, child, k + 1) == child(k).registers.rip
  {
  }

  // ---------------------------------------------------------------- results, on the child's own stream

  // Everything below speaks of signal numbers, codes and registers as the kernel delivers them: signal 5 is the trap
  // signal, 7 and 11 are the two memory signals, code 2 is a single step, and codes 1 and 0x80 are breakpoint-class.

  predicate InCode(c: Config, rip: u64) {
    c.seed.rip <= rip < c.seed.rip + |c.code|
  }

  predicate IsTarget(c: Config, rip: u64) {
    c.stopOffset.Some? && rip == c.seed.rip + c.stopOffset.value
  }

  /** A breakpoint-class trap at an instruction of the code that is an int3. */
  predicate StopsAtInt3(c: Config, int3: BreakpointOracle, child: Child, k: nat) {
    && child(k).Signalled? && child(k).signal == 5 && (child(k).code == 1 || child(k).code == 0x80)
    && InCode(c, Previous(c, child, k)) && int3(Previous(c, child, k) - c.seed.rip)
  }

  /** A single-step trap, or a breakpoint-class trap elsewhere that has moved on, as a completed system call reports it. */
  predicate Completes(c: Config, int3: BreakpointOracle, child: Child, k: nat) {
    && child(k).Signalled? && child(k).signal == 5
    && (child(k).code == 2
        || ((child(k).code == 1 || child(k).code == 0x80)
            && !StopsAtInt3(c, int3, child, k) && child(k).registers.rip != Previous(c, child, k)))
  }

  predicate Faults(c: Config, int3: BreakpointOracle, child: Child, k: nat) {
    child(k).Signalled? && !Completes(c, int3, child, k) && !StopsAtInt3(c, int3, child, k)
  }

  /** The turn completes a step that stays in the code, short of the target. */
  predicate Stays(c: Config, int3: BreakpointOracle, child: Child, k: nat) {
    Completes(c, int3, child, k) && InCode(c, child(k).registers.rip) && !IsTarget(c, child(k).registers.rip)
  }

  /** The run still goes on at turn `n`: every turn before it completed a step that stayed in the code, before the target. */
  ghost predicate StillGoing(c: Config, int3: BreakpointOracle, child: Child, n: nat) {
    c.stopOffset != Some(0) && n < Clamp(c.maxSteps) && forall k :: 0 <= k < n ==> Stays(c, int3, child, k)
  }

  predicate CodeBit(errorCode: bv64, n: bv64)
    requires n < 64
  {
    (errorCode >> n) & 1 == 1
  }

  /** The handler in the child reported a page fault (trap 14) at this very address. */
  predicate Reported(stop: SignalStop)
    requires stop.Signalled?
  {
    stop.report.Some? && stop.report.value.address == stop.address && stop.report.value.trapNumber == 14
  }

  /** The address is given for the memory signals, and the access follows from bits 4 (fetch) and 1 (write) of the report. */
  predicate FaultDetails(stop: SignalStop, memory: Option<u64>, access: FaultAccess)
    requires stop.Signalled?
  {
    if stop.signal == 7 || stop.signal == 11 then
      && memory == Some(stop.address)
      && (access == Unknown <==> !Reported(stop))
      && (access == Execute <==> Reported(stop) && CodeBit(stop.report.value.errorCode, 4))
      && (access == Write <==>
            Reported(stop) && !CodeBit(stop.report.value.errorCode, 4) && CodeBit(stop.report.value.errorCode, 1))
      && access != NoAccess
    else memory == None && access == NoAccess
  }

  /** The completed steps of a result are the turns that it was still going at and that complete, with their registers. */
  ghost predicate TellsSteps(c: Config, int3: BreakpointOracle, child: Child, r: RunResult) {
    && CompletedCount(r) <= |r.steps|
    && (forall n: nat :: StillGoing(c, int3, child, n) && Completes(c, int3, child, n) <==> n < CompletedCount(r))
    && (forall n: nat :: n < CompletedCount(r) ==>
          child(n).Signalled? && r.steps[n] == Step(Previous(c, child, n), child(n).registers, false))
  }

  /** The result ends with a fault, at an int3 or in an error exactly when it was still going at such a turn. */
  ghost predicate TellsEnd(c: Config, int3: BreakpointOracle, child: Child, r: RunResult) {
    && (forall n: nat :: StillGoing(c, int3, child, n) && Faults(c, int3, child, n) <==>
          r.outcome == Faulted && |r.steps| == n + 1)
    && (r.outcome == Faulted ==>
          && r.steps != [] && child(|r.steps| - 1).Signalled?
          && var stop := child(|r.steps| - 1);
             && r.steps[|r.steps| - 1] == Step(stop.registers.rip, stop.registers, true)
             && r.stopAddress == stop.registers.rip && FaultDetails(stop, r.memory, r.access))
    && (r.outcome != Faulted ==> r.memory == None && r.access == NoAccess)
    && (forall n: nat :: StillGoing(c, int3, child, n) && StopsAtInt3(c, int3, child, n) <==>
          r.outcome == Stopped && !r.stoppedAtTarget && |r.steps| == n)
    && (r.outcome == Stopped && !r.stoppedAtTarget ==> r.stopAddress == Previous(c, child, |r.steps|))
    && (forall n: nat :: StillGoing(c, int3, child, n) && !child(n).Signalled? <==> r.outcome == Error && |r.steps| == n)
  }

  lemma BitsOfReport(errorCode: bv64)
    ensures CodeBit(errorCode, 4) <==> errorCode & 0x10 != 0
    ensures CodeBit(errorCode, 1) <==> errorCode & 0x2 != 0
  {
  }

  lemma DetailsOfFault(c: Config, int3: BreakpointOracle, previous: u64, stop: SignalStop)
    requires stop.Signalled? && Meaning(c, int3, previous, stop).Fault?
    ensures var fault := Meaning(c, int3, previous, stop);
      fault.registers == stop.registers && FaultDetails(stop, fault.memory, fault.access)
  {
    hide CodeBit;
    if stop.report.Some? { BitsOfReport(stop.report.value.errorCode); }
  }

  /** The processor stop that a turn stands for, by what the turn is. */
  lemma ViewByKind(c: Config, int3: BreakpointOracle, child: Child, k: nat)
    ensures var stop := View(c, int3, child)(k);
      && (Completes(c, int3, child, k) <==> stop.Retired?)
      && (Completes(c, int3, child, k) ==> stop == Retired(child(k).registers))
      && (StopsAtInt3(c, int3, child, k) <==> stop == Breakpoint)
      && (Faults(c, int3, child, k) <==> stop.Fault?)
      && (!child(k).Signalled? <==> stop == Exited || stop == Lost)
      && (stop.Fault? ==> stop.registers == child(k).registers && FaultDetails(child(k), stop.memory, stop.access))
  {
    hide FaultDetails, ClassifyFaultAccess;
    if Faults(c, int3, child, k) {
      DetailsOfFault(c, int3, Previous(c, child, k), child(k));
    }
  }

  lemma StaysIff(c: Config, int3: BreakpointOracle, child: Child, k: nat)
    ensures GoesOn(c, View(c, int3, child), k) <==> Stays(c, int3, child, k)
    ensures Stays(c, int3, child, k) ==>
      child(k).Signalled? && View(c, int3, child)(k) == Retired(child(k).registers)
  {
    hide Completes, View, Faults, StopsAtInt3, FaultDetails;
    CompletesSignalled(c, int3, child, k);
    ViewByKind(c, int3, child, k);
  }

  lemma GoingIff(c: Config, int3: BreakpointOracle, child: Child, n: nat)
    ensures StillGoing(c, int3, child, n) <==> GoesOnTo(c, View(c, int3, child), n)
    ensures GoesOnTo(c, View(c, int3, child), n) ==> StartOf(c, View(c, int3, child), n) == Previous(c, child, n)
  {
    hide Stays, View, GoesOn;
    forall k: nat
      ensures GoesOn(c, View(c, int3, child), k) <==> Stays(c, int3, child, k)
    {
      StaysIff(c, int3, child, k);
    }
    if GoesOnTo(c, View(c, int3, child), n) && n > 0 {
      assert GoesOn(c, View(c, int3, child), n - 1);
      StaysIff(c, int3, child, n - 1);
    }
  }

  lemma CompletesSignalled(c: Config, int3: BreakpointOracle, child: Child, k: nat)
    ensures Completes(c, int3, child, k) || Faults(c, int3, child, k) || StopsAtInt3(c, int3, child, k) ==>
      child(k).Signalled?
  {
  }

  lemma RunTellsSteps(c: Config, int3: BreakpointOracle, child: Child)
    requires Ready(c)
    ensures TellsSteps(c, int3, child, Run(c, View(c, int3, child)))
  {
    hide Completes, View, Faults, StopsAtInt3, StillGoing, GoesOnTo, Run, StartOf, Previous;
    var cpu := View(c, int3, child);
    var r := Run(c, cpu);
    forall n: nat
      ensures CompletedCount(r) <= |r.steps|
      ensures StillGoing(c, int3, child, n) && Completes(c, int3, child, n) <==> n < CompletedCount(r)
      ensures n < CompletedCount(r) ==>
        child(n).Signalled? && r.steps[n] == Step(Previous(c, child, n), child(n).registers, false)
    {
      StepIff(c, cpu, n);
      GoingIff(c, int3, child, n);
      ViewByKind(c, int3, child, n);
      CompletesSignalled(c, int3, child, n);
    }
    StepIff(c, cpu, 0);
  }

  lemma RunTellsEnd(c: Config, int3: BreakpointOracle, child: Child)
    requires Ready(c)
    ensures TellsEnd(c, int3, child, Run(c, View(c, int3, child)))
  {
    hide Completes, View, Faults, StopsAtInt3, StillGoing, GoesOnTo, Run, StartOf, Previous, FaultDetails;
    var cpu := View(c, int3, child);
    var r := Run(c, cpu);
    forall n: nat
      ensures StillGoing(c, int3, child, n) && Faults(c, int3, child, n) <==> r.outcome == Faulted && |r.steps| == n + 1
      ensures StillGoing(c, int3, child, n) && StopsAtInt3(c, int3, child, n) <==>
        r.outcome == Stopped && !r.stoppedAtTarget && |r.steps| == n
      ensures StillGoing(c, int3, child, n) && !child(n).Signalled? <==> r.outcome == Error && |r.steps| == n
    {
      FaultIff(c, cpu, n);
      BreakIff(c, cpu, n);
      ErrorIff(c, cpu, n);
      GoingIff(c, int3, child, n);
      ViewByKind(c, int3, child, n);
    }
    EndDetails(c, int3, child);
  }

  lemma EndDetails(c: Config, int3: BreakpointOracle, child: Child)
    requires Ready(c)
    ensures var r := Run(c, View(c, int3, child));
      && (r.outcome == Faulted ==>
            && r.steps != [] && child(|r.steps| - 1).Signalled?
            && var stop := child(|r.steps| - 1);
               && r.steps[|r.steps| - 1] == Step(stop.registers.rip, stop.registers, true)
               && r.stopAddress == stop.registers.rip && FaultDetails(stop, r.memory, r.access))
      && (r.outcome != Faulted ==> r.memory == None && r.access == NoAccess)
      && (r.outcome == Stopped && !r.stoppedAtTarget ==> r.stopAddress == Previous(c, child, |r.steps|))
  {
    hide Completes, View, Faults, StopsAtInt3, StillGoing, GoesOnTo, RunFrom, StartOf, Previous, FaultDetails, Trail;
    var cpu := View(c, int3, child);
    var r := Run(c, cpu);
    if c.stopOffset != Some(0) {
      RunExplained(c, cpu);
      var n := CompletedCount(r);
      FaultIff(c, cpu, n);
      BreakIff(c, cpu, |r.steps|);
      GoingIff(c, int3, child, |r.steps|);
      ViewByKind(c, int3, child, n);
      CompletesSignalled(c, int3, child, n);
    }
  }

  method RunSteps(c: Config, int3: BreakpointOracle, child: Child) returns (result: RunResult)
    requires Ready(c)
    ensures result == Run(c, View(c, int3, child))
    ensures TellsSteps(c, int3, child, result) && TellsEnd(c, int3, child, result)
  {
    hide RunFrom, View, Previous, TellsSteps, TellsEnd;
    RunTellsSteps(c, int3, child);
    RunTellsEnd(c, int3, child);
    ViewAt(c, int3, child, 0);
    result := RunResult(c.seed, [], Finished, false, 0, None, NoAccess, false);
    if c.stopOffset.Some? && c.stopOffset.value == 0 {
      result := result.(outcome := Stopped, stopAddress := c.seed.rip, stoppedAtTarget := true);
      return;
    }
    var maxSteps := Clamp(c.maxSteps);
    var previous := c.seed.rip;
    var codeEnd := c.seed.rip + |c.code|;
    var target := if c.stopOffset.Some? then c.seed.rip + c.stopOffset.value else 0;
    ghost var cpu := View(c, int3, child);
    while true
      invariant |result.steps| < maxSteps
      invariant result == RunResult(c.seed, result.steps, Finished, false, 0, None, NoAccess, false)
      invariant previous == Previous(c, child, |result.steps|)
      invariant Run(c, cpu) == RunFrom(c, cpu, previous, result.steps)
      decreases maxSteps - |result.steps|
    {
      var stop := child(|result.steps|);
      ViewAt(c, int3, child, |result.steps|);
      Unfold(c, cpu, previous, result.steps);
      if stop.Failed? {
        result := result.(outcome := Error);
        return;
      }
      if stop.ChildExited? {
        result := result.(outcome := Error, stopAddress := previous);
        return;
      }
      var singleStepTrap, breakpointSignal, breakpointTrap := false, false, false;
      if stop.signal == SIGTRAP {
        breakpointSignal := stop.code == TRAP_BRKPT || stop.code == SI_KERNEL;
        breakpointTrap := breakpointSignal && IsSoftwareBreakpoint(c, int3, previous);
        singleStepTrap := stop.code == TRAP_TRACE;
      }
      var snapshot := stop.registers;
      if breakpointTrap {
        result := result.(outcome := Stopped, stopAddress := previous);
        return;
      }
      var completedTrap := singleStepTrap;
      if breakpointSignal && snapshot.rip != previous {
        completedTrap := true;
      }
      if stop.signal != SIGTRAP || !completedTrap {
        result := result.(steps := result.steps + [Step(snapshot.rip, snapshot, true)], outcome := Faulted,
          stopAddress := snapshot.rip);
        if stop.signal == SIGSEGV || stop.signal == SIGBUS {
          result := result.(memory := Some(stop.address), access := Unknown);
          if stop.report.Some? {
            result := result.(access := ClassifyFaultAccess(stop.report.value, stop.address));
          }
        }
        return;
      }
      result := result.(steps := result.steps + [Step(previous, snapshot, false)]);
      if c.stopOffset.Some? && snapshot.rip == target {
        result := result.(outcome := Stopped, stopAddress := snapshot.rip, stoppedAtTarget := true);
        return;
      }
      if snapshot.rip < c.seed.rip || snapshot.rip >= codeEnd {
        result := result.(outcome := Finished);
        return;
      }
      if |result.steps| >= maxSteps {
        result := result.(outcome := AbortedCap);
        return;
      }
      previous := snapshot.rip;
    }
  }
}

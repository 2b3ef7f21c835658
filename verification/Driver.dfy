/** The single-step protocol, independent of the platform: a processor offers one stop after another. */
module Driver {
  import opened Common
  import opened MachineState

  const MAX_STEPS_LIMIT := 1_000_000

  datatype FaultAccess = NoAccess | Read | Write | Execute | Unknown

  /** One stop of the processor. A retired instruction carries the state after it, a fault the state at it. */
  datatype Stop =
    | Retired(registers: Registers)
    | Breakpoint
    | Fault(registers: Registers, memory: Option<u64>, access: FaultAccess)
    | Exited
    | Lost

  type Cpu = nat -> Stop

  /** A run whose regions are set up: `seed` is the register state that the first instruction sees. */
  datatype Config = Config(code: seq<u8>, seed: Registers, maxSteps: nat, stopOffset: Option<nat>)

  datatype Step = Step(rip: u64, registers: Registers, faulted: bool)

  datatype Outcome = Idle | Error | Finished | Faulted | AbortedCap | Stopped

  datatype RunResult = RunResult(
    seed: Registers, steps: seq<Step>, outcome: Outcome, instrumentationDetected: bool, stopAddress: u64,
    memory: Option<u64>, access: FaultAccess, stoppedAtTarget: bool)

  /** The nearest cap that is allowed: a request in range is kept. */
  function Clamp(maxSteps: nat): (cap: nat)
    ensures 1 <= cap <= 1_000_000
    ensures 1 <= maxSteps <= 1_000_000 ==> cap == maxSteps
    ensures maxSteps < 1 ==> cap == 1
    ensures maxSteps > 1_000_000 ==> cap == 1_000_000
  {
    Min(if maxSteps != 0 then maxSteps else 1, MAX_STEPS_LIMIT)
  }

  predicate Ready(c: Config) {
    && |c.code| > 0
    && c.seed.rip + |c.code| < TWO_64
    && (c.stopOffset.Some? ==> c.stopOffset.value < |c.code|)
  }

  predicate Inside(c: Config, rip: u64) {
    c.seed.rip <= rip < c.seed.rip + |c.code|
  }

  predicate AtTarget(c: Config, rip: u64) {
    c.stopOffset.Some? && rip == c.seed.rip + c.stopOffset.value
  }

  function Ended(c: Config, steps: seq<Step>, outcome: Outcome, stopAddress: u64): RunResult {
    RunResult(c.seed, steps, outcome, false, stopAddress, None, NoAccess, false)
  }

  /** The run from its stop number |steps| on, when every earlier stop retired an instruction and the run went on. */
  function RunFrom(c: Config, cpu: Cpu, previous: u64, steps: seq<Step>): RunResult
    requires |steps| < Clamp(c.maxSteps)
    decreases Clamp(c.maxSteps) - |steps|
  {
    match cpu(|steps|)
    case Exited => Ended(c, steps, Error, previous)
    case Lost => Ended(c, steps, Error, 0)
    case Breakpoint => Ended(c, steps, Stopped, previous)
    case Fault(registers, memory, access) =>
      Ended(c, steps + [Step(registers.rip, registers, true)], Faulted, registers.rip).(memory := memory, access := access)
    case Retired(registers) =>
      var longer := steps + [Step(previous, registers, false)];
      if AtTarget(c, registers.rip) then Ended(c, longer, Stopped, registers.rip).(stoppedAtTarget := true)
      else if !Inside(c, registers.rip) then Ended(c, longer, Finished, 0)
      else if |longer| >= Clamp(c.maxSteps) then Ended(c, longer, AbortedCap, 0)
      else RunFrom(c, cpu, registers.rip, longer)
  }

  function Run(c: Config, cpu: Cpu): RunResult {
    if c.stopOffset == Some(0) then Ended(c, [], Stopped, c.seed.rip).(stoppedAtTarget := true)
    else RunFrom(c, cpu, c.seed.rip, [])
  }

  /** The definition of `RunFrom`, one stop at a time. */
  lemma Unfold(c: Config, cpu: Cpu, previous: u64, steps: seq<Step>)
    requires |steps| < Clamp(c.maxSteps)
    ensures var stop := cpu(|steps|); var r := RunFrom(c, cpu, previous, steps);
      && (stop == Exited ==> r == Ended(c, steps, Error, previous))
      && (stop == Lost ==> r == Ended(c, steps, Error, 0))
      && (stop == Breakpoint ==> r == Ended(c, steps, Stopped, previous))
      && (stop.Fault? ==> r == Ended(c, steps + [Step(stop.registers.rip, stop.registers, true)], Faulted,
        stop.registers.rip)
                                 .(memory := stop.memory, access := stop.access))
      && (stop.Retired? ==>
            var longer := steps + [Step(previous, stop.registers, false)];
            r == if AtTarget(c, stop.registers.rip)
                 then Ended(c, longer, Stopped, stop.registers.rip).(stoppedAtTarget := true)
                 else if !Inside(c, stop.registers.rip) then Ended(c, longer, Finished, 0)
                 else if |longer| >= Clamp(c.maxSteps) then Ended(c, longer, AbortedCap, 0)
                 else RunFrom(c, cpu, stop.registers.rip, longer))
  {
  }

  lemma UnfoldRetired(c: Config, cpu: Cpu, previous: u64, steps: seq<Step>, registers: Registers)
    requires |steps| < Clamp(c.maxSteps) && cpu(|steps|) == Retired(registers)
    ensures var longer := steps + [Step(previous, registers, false)];
      RunFrom(c, cpu, previous, steps) ==
        if AtTarget(c, registers.rip) then Ended(c, longer, Stopped, registers.rip).(stoppedAtTarget := true)
        else if !Inside(c, registers.rip) then Ended(c, longer, Finished, 0)
        else if |longer| >= Clamp(c.maxSteps) then Ended(c, longer, AbortedCap, 0)
        else RunFrom(c, cpu, registers.rip, longer)
  {
  }

  // ---------------------------------------------------------------- what a run is, read off the stream

  /** The address of the instruction that stop `k` is about, when stop `k - 1` retired one. */
  function StartOf(c: Config, cpu: Cpu, k: nat): u64 {
    if k == 0 then c.seed.rip else if cpu(k - 1).Retired? then cpu(k - 1).registers.rip else 0
  }

  /** Stop `k` retires an instruction after which the run goes on, the step cap aside. */
  predicate GoesOn(c: Config, cpu: Cpu, k: nat) {
    cpu(k).Retired? && Inside(c, cpu(k).registers.rip) && !AtTarget(c, cpu(k).registers.rip)
  }

  /** The step that stop `k` completes. */
  predicate IsStep(c: Config, cpu: Cpu, step: Step, k: nat) {
    cpu(k).Retired? && step == Step(StartOf(c, cpu, k), cpu(k).registers, false)
  }

  /**
   * Stops 0 .. n - 1 retired instructions, each where the one before it led, and none but perhaps the last ended the
   * run.
   */
  ghost predicate Trail(c: Config, cpu: Cpu, steps: seq<Step>, n: nat) {
    && n <= |steps| <= n + 1
    && (forall k :: 0 <= k < n ==> IsStep(c, cpu, steps[k], k))
    && (forall k :: 0 <= k < n - 1 ==> GoesOn(c, cpu, k))
  }

  /** How many instructions a result completed: all its steps, but for a final fault. */
  function CompletedCount(r: RunResult): nat {
    if r.outcome == Faulted && |r.steps| > 0 then |r.steps| - 1 else |r.steps|
  }

  /** The run is still going when stop `n` arrives. */
  ghost predicate Reaches(c: Config, cpu: Cpu, n: nat) {
    n < Clamp(c.maxSteps) && (n > 0 ==> GoesOn(c, cpu, n - 1))
  }

  /** The stop that ends a run: the outcome follows from it and from the last completed instruction. */
  ghost predicate EndsWell(c: Config, cpu: Cpu, r: RunResult) {
    var n := CompletedCount(r);
    match r.outcome
    case Faulted =>
      Reaches(c, cpu, n) && cpu(n).Fault?
      && |r.steps| == n + 1 && r.steps[n] == Step(cpu(n).registers.rip, cpu(n).registers, true)
      && r.stopAddress == cpu(n).registers.rip && r.memory == cpu(n).memory && r.access == cpu(n).access
    case Stopped =>
      if r.stoppedAtTarget then n > 0 && AtTarget(c, StartOf(c, cpu, n)) && r.stopAddress == StartOf(c, cpu, n)
      else Reaches(c, cpu, n) && cpu(n).Breakpoint? && r.stopAddress == StartOf(c, cpu, n)
    case Finished => n > 0 && !Inside(c, StartOf(c, cpu, n)) && r.stopAddress == 0
    case AbortedCap => n == Clamp(c.maxSteps) && GoesOn(c, cpu, n - 1) && r.stopAddress == 0
    case Error =>
      Reaches(c, cpu, n)
      && ((cpu(n) == Lost && r.stopAddress == 0) || (cpu(n) == Exited && r.stopAddress == StartOf(c, cpu, n)))
    case Idle => false
  }

  /** The seed is the run's own, and details are only set with the outcome they belong to. */
  predicate WellFlagged(c: Config, r: RunResult) {
    && r.seed == c.seed && !r.instrumentationDetected
    && (r.stoppedAtTarget ==> r.outcome == Stopped)
    && (r.outcome != Faulted ==> r.memory == None && r.access == NoAccess)
  }

  ghost predicate Explained(c: Config, cpu: Cpu, r: RunResult) {
    && Trail(c, cpu, r.steps, CompletedCount(r)) && CompletedCount(r) <= Clamp(c.maxSteps)
    && EndsWell(c, cpu, r) && WellFlagged(c, r)
  }

  /** One more retired instruction extends a trail. */
  lemma TrailStep(c: Config, cpu: Cpu, steps: seq<Step>, step: Step)
    requires Trail(c, cpu, steps, |steps|) && IsStep(c, cpu, step, |steps|)
    requires |steps| > 0 ==> GoesOn(c, cpu, |steps| - 1)
    ensures Trail(c, cpu, steps + [step], |steps| + 1)
  {
    hide GoesOn, IsStep;
  }

  lemma TrailFault(c: Config, cpu: Cpu, steps: seq<Step>, step: Step)
    requires Trail(c, cpu, steps, |steps|)
    ensures Trail(c, cpu, steps + [step], |steps|)
  {
    hide GoesOn, IsStep;
  }

  lemma {:induction false} RunFromTrail(c: Config, cpu: Cpu, previous: u64, steps: seq<Step>)
    requires Reaches(c, cpu, |steps|)
    requires Trail(c, cpu, steps, |steps|) && previous == StartOf(c, cpu, |steps|)
    ensures Explained(c, cpu, RunFrom(c, cpu, previous, steps))
    decreases Clamp(c.maxSteps) - |steps|
  {
    hide Trail;
    var n := |steps|;
    match cpu(n)
    case Fault(registers, _, _) => TrailFault(c, cpu, steps, Step(registers.rip, registers, true));
    case Retired(registers) =>
      var longer := steps + [Step(previous, registers, false)];
      TrailStep(c, cpu, steps, Step(previous, registers, false));
      if GoesOn(c, cpu, n) && |longer| < Clamp(c.maxSteps) {
        RunFromTrail(c, cpu, registers.rip, longer);
      }
    case _ =>
  }

  /** Every run is the trail of its stream, ended by the first stop that ends it. */
  lemma RunExplained(c: Config, cpu: Cpu)
    requires c.stopOffset != Some(0)
    ensures Explained(c, cpu, Run(c, cpu))
  {
    RunFromTrail(c, cpu, c.seed.rip, []);
  }

  /** The explanation of a run is unique: no other result fits the stream. */
  lemma ExplanationUnique(c: Config, cpu: Cpu, r: RunResult, s: RunResult)
    requires Ready(c) && Explained(c, cpu, r) && Explained(c, cpu, s)
    ensures r == s
  {
    hide EndsWell, GoesOn, StartOf;
    SameLength(c, cpu, r, s);
    SameLength(c, cpu, s, r);
    var n := CompletedCount(r);
    assert r.steps[..n] == s.steps[..n];
    assert r.steps == r.steps[..n] + r.steps[n..] && s.steps == s.steps[..n] + s.steps[n..];
    SameEnd(c, cpu, r, s);
  }

  lemma SameEnd(c: Config, cpu: Cpu, r: RunResult, s: RunResult)
    requires Ready(c) && EndsWell(c, cpu, r) && EndsWell(c, cpu, s) && WellFlagged(c, r) && WellFlagged(c, s)
    requires CompletedCount(r) == CompletedCount(s) <= |r.steps|
    ensures r.steps[CompletedCount(r)..] == s.steps[CompletedCount(r)..]
    ensures r.(steps := s.steps) == s
  {
  }

  /** A result is the run of its stream if and only if the stream explains it. */
  lemma RunIff(c: Config, cpu: Cpu, r: RunResult)
    requires Ready(c) && c.stopOffset != Some(0)
    ensures r == Run(c, cpu) <==> Explained(c, cpu, r)
  {
    hide Run, Explained;
    RunExplained(c, cpu);
    if Explained(c, cpu, r) {
      ExplanationUnique(c, cpu, r, Run(c, cpu));
    }
  }

  lemma SameLength(c: Config, cpu: Cpu, r: RunResult, s: RunResult)
    requires Ready(c) && Explained(c, cpu, r) && Explained(c, cpu, s)
    ensures CompletedCount(s) <= CompletedCount(r)
  {
    hide Trail;
    var n := CompletedCount(r);
    if n < CompletedCount(s) {
      TrailGoesOn(c, cpu, s.steps, CompletedCount(s), n);
    }
  }

  lemma TrailGoesOn(c: Config, cpu: Cpu, steps: seq<Step>, m: nat, n: nat)
    requires Trail(c, cpu, steps, m) && n < m
    ensures cpu(n).Retired? && (n > 0 ==> GoesOn(c, cpu, n - 1))
  {
    assert steps[n] == steps[n];
  }

  /** The run is still going when stop `n` arrives, read off the whole stream. */
  ghost predicate GoesOnTo(c: Config, cpu: Cpu, n: nat) {
    c.stopOffset != Some(0) && n < Clamp(c.maxSteps) && forall k :: 0 <= k < n ==> GoesOn(c, cpu, k)
  }

  /**
   * A run fails exactly when it is still going at a stop that ends the process or loses it; that stop comes after its
   * steps.
   */
  lemma ErrorIff(c: Config, cpu: Cpu, n: nat)
    requires Ready(c)
    ensures GoesOnTo(c, cpu, n) && (cpu(n) == Exited || cpu(n) == Lost) <==>
      Run(c, cpu).outcome == Error && |Run(c, cpu).steps| == n
  {
    hide RunFrom, GoesOn, StartOf, Ready, IsStep;
    if c.stopOffset != Some(0) {
      RunExplained(c, cpu);
      if GoesOnTo(c, cpu, n) && (cpu(n) == Exited || cpu(n) == Lost) {
        var steps := StepsTo(c, cpu, n);
        var r := Ended(c, steps, Error, if cpu(n) == Exited then StartOf(c, cpu, n) else 0);
        RunIff(c, cpu, r);
      }
    }
  }

  /**
   * A run stops at a breakpoint exactly when it is still going at one, right after its steps, and then at the address
   * where it continues.
   */
  lemma BreakIff(c: Config, cpu: Cpu, n: nat)
    requires Ready(c)
    ensures var r := Run(c, cpu);
      && (GoesOnTo(c, cpu, n) && cpu(n) == Breakpoint <==> r.outcome == Stopped && !r.stoppedAtTarget && |r.steps| == n)
      && (r.outcome == Stopped && !r.stoppedAtTarget ==> r.stopAddress == NextRip(r))
  {
    hide RunFrom, GoesOn, StartOf, Ready, IsStep, NextRip;
    if c.stopOffset != Some(0) {
      RunExplained(c, cpu);
      NextIsStart(c, cpu, Run(c, cpu));
      if GoesOnTo(c, cpu, n) && cpu(n) == Breakpoint {
        var steps := StepsTo(c, cpu, n);
        var r := Ended(c, steps, Stopped, StartOf(c, cpu, n));
        RunIff(c, cpu, r);
      }
    }
  }

  /** A run faults exactly when it is still going at a fault, which is its last step. */
  lemma FaultIff(c: Config, cpu: Cpu, n: nat)
    requires Ready(c)
    ensures GoesOnTo(c, cpu, n) && cpu(n).Fault? <==>
      Run(c, cpu).outcome == Faulted && |Run(c, cpu).steps| == n + 1
  {
    hide RunFrom, GoesOn, StartOf, Ready, IsStep;
    if c.stopOffset != Some(0) {
      RunExplained(c, cpu);
      if GoesOnTo(c, cpu, n) && cpu(n).Fault? {
        var steps := StepsTo(c, cpu, n);
        var registers := cpu(n).registers;
        var r := Ended(c, steps + [Step(registers.rip, registers, true)], Faulted, registers.rip)
          .(memory := cpu(n).memory, access := cpu(n).access);
        TrailFault(c, cpu, steps, Step(registers.rip, registers, true));
        RunIff(c, cpu, r);
      }
    }
  }

  /** Stop `n` is a completed step exactly when the run is still going at it and it retires an instruction. */
  lemma StepIff(c: Config, cpu: Cpu, n: nat)
    requires Ready(c)
    ensures var r := Run(c, cpu);
      && CompletedCount(r) <= |r.steps|
      && (GoesOnTo(c, cpu, n) && cpu(n).Retired? <==> n < CompletedCount(r))
      && (n < CompletedCount(r) ==> r.steps[n] == Step(StartOf(c, cpu, n), cpu(n).registers, false))
  {
    hide RunFrom, AtTarget, Inside;
    if c.stopOffset != Some(0) {
      RunExplained(c, cpu);
      StepWhenExplained(c, cpu, Run(c, cpu), n);
    }
  }

  lemma StepWhenExplained(c: Config, cpu: Cpu, r: RunResult, n: nat)
    requires Ready(c) && c.stopOffset != Some(0) && Explained(c, cpu, r)
    ensures GoesOnTo(c, cpu, n) && cpu(n).Retired? <==> n < CompletedCount(r)
    ensures n < CompletedCount(r) ==> r.steps[n] == Step(StartOf(c, cpu, n), cpu(n).registers, false)
  {
    var m := CompletedCount(r);
    if n < m {
      assert IsStep(c, cpu, r.steps[n], n);
    } else if GoesOnTo(c, cpu, n) && cpu(n).Retired? {
      StillGoingAt(c, cpu, n, m);
      assert false;
    }
  }

  /** No run ends before a stop that it is still going at. */
  lemma StillGoingAt(c: Config, cpu: Cpu, n: nat, m: nat)
    requires GoesOnTo(c, cpu, n) && m <= n
    ensures m < n ==> GoesOn(c, cpu, m)
    ensures m > 0 ==> GoesOn(c, cpu, m - 1)
  {
  }

  /** The steps of the first `n` stops. */
  lemma {:induction false} StepsTo(c: Config, cpu: Cpu, n: nat) returns (steps: seq<Step>)
    requires forall k :: 0 <= k < n ==> GoesOn(c, cpu, k)
    ensures |steps| == n && forall k :: 0 <= k < n ==> IsStep(c, cpu, steps[k], k)
  {
    steps := [];
    if n > 0 {
      steps := StepsTo(c, cpu, n - 1);
      assert GoesOn(c, cpu, n - 1);
      steps := steps + [Step(StartOf(c, cpu, n - 1), cpu(n - 1).registers, false)];
    }
  }

  // ---------------------------------------------------------------- safety of whole runs

  /** The address that execution would continue at. */
  function NextRip(r: RunResult): u64 {
    if r.steps == [] then r.seed.rip else r.steps[|r.steps| - 1].registers.rip
  }

  predicate EndsInFault(r: RunResult) {
    r.steps != [] && r.steps[|r.steps| - 1].faulted
  }

  predicate SafeStart(c: Config, steps: seq<Step>, k: nat)
    requires k < |steps|
  {
    && steps[k].rip == (if k == 0 then c.seed.rip else steps[k - 1].registers.rip)
    && Inside(c, steps[k].rip) && !AtTarget(c, steps[k].rip)
  }

  lemma TrailIsSafe(c: Config, cpu: Cpu, steps: seq<Step>, n: nat, k: nat)
    requires Ready(c) && c.stopOffset != Some(0)
    requires Trail(c, cpu, steps, n) && k < n
    ensures !steps[k].faulted && SafeStart(c, steps, k) && cpu(k) == Retired(steps[k].registers)
  {
    if k > 0 { assert GoesOn(c, cpu, k - 1); }
  }

  /** A step is either the final fault or a safe start that completed with the state of its stop. */
  ghost predicate SafeStep(c: Config, cpu: Cpu, steps: seq<Step>, k: nat)
    requires k < |steps|
  {
    if steps[k].faulted then k + 1 == |steps|
    else SafeStart(c, steps, k) && cpu(k) == Retired(steps[k].registers)
  }

  /**
   * Completed steps form a chain from the code base, each inside the code and none at the run-to-row target,
   * and they are the first stops of the stream. Only the last step can be a fault, and the cap bounds all steps together.
   */
  lemma WholeRunSafety(c: Config, cpu: Cpu)
    requires Ready(c)
    ensures var steps := Run(c, cpu).steps;
      |steps| <= Clamp(c.maxSteps) && forall k :: 0 <= k < |steps| ==> SafeStep(c, cpu, steps, k)
  {
    hide RunFrom, Explained, SafeStep, Ready;
    if c.stopOffset != Some(0) {
      RunExplained(c, cpu);
      forall k | 0 <= k < |Run(c, cpu).steps| ensures SafeStep(c, cpu, Run(c, cpu).steps, k) {
        ExplainedIsSafe(c, cpu, Run(c, cpu), k);
      }
      StepsAfterTrail(c, cpu, Run(c, cpu));
    }
  }

  lemma ExplainedIsSafe(c: Config, cpu: Cpu, r: RunResult, k: nat)
    requires Ready(c) && c.stopOffset != Some(0) && Explained(c, cpu, r) && k < |r.steps|
    ensures SafeStep(c, cpu, r.steps, k)
  {
    StepsAfterTrail(c, cpu, r);
    if k < CompletedCount(r) {
      TrailIsSafe(c, cpu, r.steps, CompletedCount(r), k);
    }
  }

  lemma StepsAfterTrail(c: Config, cpu: Cpu, r: RunResult)
    requires Explained(c, cpu, r)
    ensures |r.steps| <= Clamp(c.maxSteps)
    ensures CompletedCount(r) <= |r.steps| <= CompletedCount(r) + 1
    ensures |r.steps| > CompletedCount(r) ==> r.steps[CompletedCount(r)].faulted
  {
  }

  /** Each outcome, read off the steps: which ends of a run it stands for, in both directions. */
  lemma OutcomeCharacterized(c: Config, cpu: Cpu)
    requires Ready(c)
    ensures var r := Run(c, cpu);
      && (r.outcome == AbortedCap <==>
            |r.steps| == Clamp(c.maxSteps) && !EndsInFault(r) && Inside(c, NextRip(r)) && !AtTarget(c, NextRip(r)))
      && (r.outcome == Finished <==> r.steps != [] && !EndsInFault(r) && !Inside(c, NextRip(r)))
      && (r.outcome == Faulted <==> EndsInFault(r))
      && (r.stoppedAtTarget <==> !EndsInFault(r) && AtTarget(c, NextRip(r)))
      && (r.stoppedAtTarget ==> r.outcome == Stopped && r.stopAddress == NextRip(r))
      && (c.stopOffset == Some(0) ==> r.steps == [])
  {
    hide RunFrom, Explained, Inside, AtTarget;
    if c.stopOffset != Some(0) {
      RunExplained(c, cpu);
      RunFlags(c, cpu, c.seed.rip, []);
      ExplainedOutcome(c, cpu, Run(c, cpu));
    } else {
      OffsetZero(c);
    }
  }

  lemma OffsetZero(c: Config)
    requires Ready(c) && c.stopOffset == Some(0)
    ensures AtTarget(c, c.seed.rip) && Inside(c, c.seed.rip)
  {
  }

  lemma ExplainedOutcome(c: Config, cpu: Cpu, r: RunResult)
    requires Ready(c) && c.stopOffset != Some(0) && Explained(c, cpu, r) && r.seed == c.seed
    requires r.stoppedAtTarget ==> r.outcome == Stopped
    ensures r.outcome == AbortedCap <==>
      |r.steps| == Clamp(c.maxSteps) && !EndsInFault(r) && Inside(c, NextRip(r)) && !AtTarget(c, NextRip(r))
    ensures r.outcome == Finished <==> r.steps != [] && !EndsInFault(r) && !Inside(c, NextRip(r))
    ensures r.outcome == Faulted <==> EndsInFault(r)
    ensures r.stoppedAtTarget <==> !EndsInFault(r) && AtTarget(c, NextRip(r))
    ensures r.stoppedAtTarget ==> r.stopAddress == NextRip(r)
  {
    NextIsStart(c, cpu, r);
    hide Trail;
  }

  lemma NextIsStart(c: Config, cpu: Cpu, r: RunResult)
    requires Explained(c, cpu, r) && r.seed == c.seed
    ensures EndsInFault(r) <==> r.outcome == Faulted
    ensures !EndsInFault(r) ==> NextRip(r) == StartOf(c, cpu, CompletedCount(r)) && CompletedCount(r) == |r.steps|
  {
    hide GoesOn;
  }

  /** The target flag and the fault details are only ever set with the outcome they belong to. */
  lemma {:induction false} RunFlags(c: Config, cpu: Cpu, previous: u64, steps: seq<Step>)
    requires |steps| < Clamp(c.maxSteps)
    ensures var r := RunFrom(c, cpu, previous, steps);
      && r.seed == c.seed && !r.instrumentationDetected
      && (r.stoppedAtTarget ==> r.outcome == Stopped)
      && (r.outcome != Faulted ==> r.memory == None && r.access == NoAccess)
      && (r.outcome == Finished || r.outcome == AbortedCap ==> r.stopAddress == 0)
    decreases Clamp(c.maxSteps) - |steps|
  {
    if cpu(|steps|).Retired? && GoesOn(c, cpu, |steps|) && |steps| + 1 < Clamp(c.maxSteps) {
      RunFlags(c, cpu, cpu(|steps|).registers.rip, steps + [Step(previous, cpu(|steps|).registers, false)]);
    }
  }

  /** Streams that agree stop by stop give the same run. */
  lemma {:induction false} RunFromSame(c: Config, cpu: Cpu, other: Cpu, previous: u64, steps: seq<Step>)
    requires |steps| < Clamp(c.maxSteps) && forall k: nat :: cpu(k) == other(k)
    ensures RunFrom(c, cpu, previous, steps) == RunFrom(c, other, previous, steps)
    decreases Clamp(c.maxSteps) - |steps|
  {
    if cpu(|steps|).Retired? && |steps| + 1 < Clamp(c.maxSteps) {
      var registers := cpu(|steps|).registers;
      RunFromSame(c, cpu, other, registers.rip, steps + [Step(previous, registers, false)]);
    }
  }
}

/**
 * What a Windows result says about its run. A sandbox thread that exits before any exception ends the run leaves the
 * engine's outcome at its initial value, so a finished run is one that left the code, or one whose thread exited early.
 */
module WindowsProofs {
  import opened Common
  import opened Driver
  import opened WindowsDriver

  /** The thread exits at the stop that the run had reached. */
  ghost predicate ExitsEarly(c: Config, thread: Thread) {
    exists n: nat :: GoesOnTo(c, View(thread), n) && thread(n).ThreadExited?
  }

  /** The wait for the thread fails at the stop that the run had reached. */
  ghost predicate WaitLost(c: Config, thread: Thread) {
    exists n: nat :: GoesOnTo(c, View(thread), n) && thread(n).WaitFailed?
  }

  lemma ErrorStops(c: Config, thread: Thread)
    requires Ready(c)
    ensures var r := Run(c, View(thread));
      && (ExitsEarly(c, thread) <==> r.outcome == Error && thread(|r.steps|).ThreadExited?)
      && (WaitLost(c, thread) <==> r.outcome == Error && thread(|r.steps|).WaitFailed?)
      && (r.outcome == Error ==> ExitsEarly(c, thread) || WaitLost(c, thread))
  {
    hide Run, View, GoesOnTo, Ready;
    var cpu := View(thread);
    var r := Run(c, cpu);
    forall n: nat
      ensures GoesOnTo(c, cpu, n) && (cpu(n) == Exited || cpu(n) == Lost) <==> r.outcome == Error && |r.steps| == n
    {
      ErrorIff(c, cpu, n);
    }
    forall n: nat ensures cpu(n) == WindowsDriver.Meaning(thread(n)) {
      ViewAt(thread, n);
    }
  }

  /** A run that is still going is inside the code and not at the target. */
  lemma StillInside(c: Config, cpu: Cpu)
    requires Ready(c) && Run(c, cpu).outcome == Error
    ensures !EndsInFault(Run(c, cpu))
    ensures Inside(c, NextRip(Run(c, cpu))) && !AtTarget(c, NextRip(Run(c, cpu)))
    ensures |Run(c, cpu).steps| < Clamp(c.maxSteps)
  {
    hide RunFrom;
    RunExplained(c, cpu);
    ErrorIff(c, cpu, |Run(c, cpu).steps|);
    NextIsStart(c, cpu, Run(c, cpu));
  }

  /** The Windows result in terms of the run, end by end. */
  lemma ResultByEnd(c: Config, thread: Thread)
    requires Ready(c)
    ensures var r, w := Run(c, View(thread)), WindowsRun(c, thread);
      && w.seed == c.seed == r.seed && !w.instrumentationDetected
      && (ExitsEarly(c, thread) ==> r.outcome == Error && w == r.(outcome := Finished, stopAddress := 0))
      && (WaitLost(c, thread) ==> r.outcome == Error && w == r.(steps := []))
      && (!ExitsEarly(c, thread) && !WaitLost(c, thread) ==> r.outcome != Error && w.outcome == r.outcome)
      && (r.outcome != Error && r.outcome != Faulted ==> w == r)
      && (r.outcome == Faulted ==>
            r.steps != [] && SameButLastRip(r.steps, w.steps) && w.outcome == Faulted && !w.stoppedAtTarget)
  {
    hide GoesOnTo;
    var cpu := View(thread);
    ErrorStops(c, thread);
    if c.stopOffset != Some(0) {
      RunFlags(c, cpu, c.seed.rip, []);
      RunExplained(c, cpu);
    }
    EndCases(c, thread, Run(c, cpu));
  }

  /** Two lists of steps that differ at most in the address of the last one. */
  predicate SameButLastRip(a: seq<Step>, b: seq<Step>) {
    |a| == |b| && |a| > 0 && a[..|a| - 1] == b[..|b| - 1] && b[|b| - 1] == a[|a| - 1].(rip := b[|b| - 1].rip)
  }

  lemma EndCases(c: Config, thread: Thread, r: RunResult)
    requires r == Run(c, View(thread)) && (c.stopOffset == Some(0) || Explained(c, View(thread), r))
    ensures var w := WindowsRun(c, thread);
      && w.seed == r.seed && w.instrumentationDetected == r.instrumentationDetected
      && (r.outcome == Error && thread(|r.steps|).ThreadExited? ==> w == r.(outcome := Finished, stopAddress := 0))
      && (r.outcome == Error && !thread(|r.steps|).ThreadExited? ==> w == r.(steps := []))
      && (r.outcome != Error && r.outcome != Faulted ==> w == r)
      && (r.outcome == Faulted ==>
            && r.steps != [] && SameButLastRip(r.steps, w.steps)
            && w.outcome == Faulted && w.stoppedAtTarget == r.stoppedAtTarget)
  {
    hide RunFrom, Trail;
  }

  /** Completed steps, the cap and the final fault, as on any platform. */
  lemma WindowsRunSafety(c: Config, thread: Thread)
    requires Ready(c)
    ensures var steps := WindowsRun(c, thread).steps;
      |steps| <= Clamp(c.maxSteps) && forall k :: 0 <= k < |steps| ==> SafeStep(c, View(thread), steps, k)
  {
    hide Run, WindowsRun, View, SafeStep, Ready, ExitsEarly, WaitLost;
    var r, w := Run(c, View(thread)), WindowsRun(c, thread);
    WholeRunSafety(c, View(thread));
    OutcomeCharacterized(c, View(thread));
    ResultByEnd(c, thread);
    if r.outcome == Faulted {
      LastRipIsFree(c, View(thread), r.steps, w.steps);
    }
  }

  lemma LastRipIsFree(c: Config, cpu: Cpu, a: seq<Step>, b: seq<Step>)
    requires SameButLastRip(a, b) && a[|a| - 1].faulted && forall k :: 0 <= k < |a| ==> SafeStep(c, cpu, a, k)
    ensures forall k :: 0 <= k < |b| ==> SafeStep(c, cpu, b, k)
  {
    hide Inside, AtTarget;
    forall k | 0 <= k < |b| ensures SafeStep(c, cpu, b, k) {
      assert SafeStep(c, cpu, a, k);
      if k < |a| - 1 {
        assert a[k] == a[..|a| - 1][k] && b[k] == b[..|b| - 1][k];
        assert k > 0 ==> a[k - 1] == a[..|a| - 1][k - 1] && b[k - 1] == b[..|b| - 1][k - 1];
      }
    }
  }

  /**
   * Each outcome of a Windows result, read off its steps. Only the finished outcome differs from the other platform: it
   * also stands for a thread that exited early.
   */
  lemma WindowsOutcomes(c: Config, thread: Thread)
    requires Ready(c)
    ensures var w := WindowsRun(c, thread);
      && (w.outcome == AbortedCap <==>
            |w.steps| == Clamp(c.maxSteps) && !EndsInFault(w) && Inside(c, NextRip(w)) && !AtTarget(c, NextRip(w)))
      && (w.outcome == Finished <==>
            ExitsEarly(c, thread) || (w.steps != [] && !EndsInFault(w) && !Inside(c, NextRip(w))))
      && (w.outcome == Faulted <==> EndsInFault(w))
      && (w.outcome == Error <==> WaitLost(c, thread))
      && (w.stoppedAtTarget <==> !EndsInFault(w) && AtTarget(c, NextRip(w)))
      && (w.stoppedAtTarget ==> w.outcome == Stopped && w.stopAddress == NextRip(w))
  {
    hide Run, WindowsRun, View, Ready, ExitsEarly, WaitLost, Inside, AtTarget;
    var r, w := Run(c, View(thread)), WindowsRun(c, thread);
    OutcomeCharacterized(c, View(thread));
    ResultByEnd(c, thread);
    if r.outcome == Error {
      StillInside(c, View(thread));
      SeedIsInside(c);
      ErrorIsNotStart(c, View(thread));
    }
    ErrorStops(c, thread);
  }

  lemma SeedIsInside(c: Config)
    requires Ready(c)
    ensures Inside(c, c.seed.rip) && (AtTarget(c, c.seed.rip) <==> c.stopOffset == Some(0))
  {
  }

  lemma ErrorIsNotStart(c: Config, cpu: Cpu)
    requires Run(c, cpu).outcome == Error
    ensures c.stopOffset != Some(0)
  {
  }

  /** An early exit leaves the run inside the code, short of the cap and of the target. */
  lemma EarlyExitIsInside(c: Config, thread: Thread)
    requires Ready(c) && ExitsEarly(c, thread)
    ensures var w := WindowsRun(c, thread);
      && w.outcome == Finished && !EndsInFault(w) && |w.steps| < Clamp(c.maxSteps)
      && Inside(c, NextRip(w)) && !AtTarget(c, NextRip(w))
  {
    hide Run, WindowsRun, View, Ready, ExitsEarly, WaitLost;
    ResultByEnd(c, thread);
    StillInside(c, View(thread));
  }

  /** A finished Windows run has left the code if and only if its thread did not exit at the stop the run had reached. */
  lemma FinishedMeansLeft(c: Config, thread: Thread)
    requires Ready(c) && WindowsRun(c, thread).outcome == Finished
    ensures !Inside(c, NextRip(WindowsRun(c, thread))) <==> !ExitsEarly(c, thread)
  {
    hide Run, WindowsRun, View, Ready, ExitsEarly;
    WindowsOutcomes(c, thread);
    if ExitsEarly(c, thread) {
      EarlyExitIsInside(c, thread);
    }
  }

  // ---------------------------------------------------------------- results, on the thread's own stream

  // Everything below speaks of exceptions, codes and parameters as the system delivers them.

  predicate InCode(c: Config, rip: u64) {
    c.seed.rip <= rip < c.seed.rip + |c.code|
  }

  predicate IsTarget(c: Config, rip: u64) {
    c.stopOffset.Some? && rip == c.seed.rip + c.stopOffset.value
  }

  /** The run still goes on at stop `n`: each stop before it was a single step that stayed in the code, before the target. */
  ghost predicate StillGoing(c: Config, thread: Thread, n: nat) {
    && c.stopOffset != Some(0) && n < Clamp(c.maxSteps)
    && forall k :: 0 <= k < n ==>
         thread(k).SingleStep? && InCode(c, thread(k).registers.rip) && !IsTarget(c, thread(k).registers.rip)
  }

  /** Where the stop `k` steps from, when the one before it was a single step. */
  function Previous(c: Config, thread: Thread, k: nat): u64 {
    if k > 0 && thread(k - 1).SingleStep? then thread(k - 1).registers.rip else c.seed.rip
  }

  /**
   * An access violation (0xC0000005) or in-page error (0xC0000006) with two parameters gives the address, which is the
   * second one, and the access: 0 is a read, 1 a write, 8 an execution. Nothing else gives either.
   */
  predicate FaultDetails(stop: ThreadStop, memory: Option<u64>, access: FaultAccess)
    requires stop.OtherException?
  {
    if (stop.code == 0xC000_0005 || stop.code == 0xC000_0006) && |stop.parameters| >= 2 then
      && memory == Some(stop.parameters[1])
      && (access == Read <==> stop.parameters[0] == 0)
      && (access == Write <==> stop.parameters[0] == 1)
      && (access == Execute <==> stop.parameters[0] == 8)
      && access != NoAccess
    else memory == None && access == NoAccess
  }

  ghost predicate TellsSteps(c: Config, thread: Thread, w: RunResult) {
    && CompletedCount(w) <= |w.steps|
    && (w.outcome != Error ==>
          forall n: nat :: StillGoing(c, thread, n) && thread(n).SingleStep? <==> n < CompletedCount(w))
    && (forall n: nat :: n < CompletedCount(w) ==>
          thread(n).SingleStep? && w.steps[n] == Step(Previous(c, thread, n), thread(n).registers, false))
  }

  ghost predicate TellsEnd(c: Config, thread: Thread, w: RunResult) {
    && (forall n: nat :: StillGoing(c, thread, n) && thread(n).OtherException? <==>
          w.outcome == Faulted && |w.steps| == n + 1)
    && (w.outcome == Faulted ==>
          && w.steps != [] && thread(|w.steps| - 1).OtherException?
          && var stop := thread(|w.steps| - 1);
             && w.steps[|w.steps| - 1] == Step(stop.address, stop.registers, true)
             && w.stopAddress == stop.address && FaultDetails(stop, w.memory, w.access))
    && (w.outcome != Faulted ==> w.memory == None && w.access == NoAccess)
    && (forall n: nat :: StillGoing(c, thread, n) && thread(n).BreakpointException? <==>
          w.outcome == Stopped && !w.stoppedAtTarget && |w.steps| == n)
    && (w.outcome == Stopped && !w.stoppedAtTarget ==> w.stopAddress == Previous(c, thread, |w.steps|))
    && (forall n: nat :: StillGoing(c, thread, n) && thread(n).ThreadExited? ==> w.outcome == Finished && |w.steps| == n)
    && ((exists n: nat :: StillGoing(c, thread, n) && thread(n).WaitFailed?) <==> w.outcome == Error)
    && (w.outcome == Error ==> w.steps == [])
  }

  /** The processor stop that a thread stop stands for, by what the thread stop is. */
  lemma ViewByKind(thread: Thread, k: nat)
    ensures var stop := View(thread)(k);
      && (thread(k).SingleStep? <==> stop.Retired?)
      && (thread(k).SingleStep? ==> stop == Retired(thread(k).registers))
      && (thread(k).BreakpointException? <==> stop == Breakpoint)
      && (thread(k).OtherException? <==> stop.Fault?)
      && (thread(k).ThreadExited? <==> stop == Exited)
      && (thread(k).WaitFailed? <==> stop == Lost)
      && (stop.Fault? ==> stop.registers == thread(k).registers && FaultDetails(thread(k), stop.memory, stop.access))
  {
  }

  lemma GoingIff(c: Config, thread: Thread, n: nat)
    ensures StillGoing(c, thread, n) <==> GoesOnTo(c, View(thread), n)
    ensures GoesOnTo(c, View(thread), n) ==> StartOf(c, View(thread), n) == Previous(c, thread, n)
  {
    hide View, FaultDetails;
    forall k: nat
      ensures GoesOn(c, View(thread), k) <==>
        thread(k).SingleStep? && InCode(c, thread(k).registers.rip) && !IsTarget(c, thread(k).registers.rip)
      ensures GoesOn(c, View(thread), k) ==> thread(k).SingleStep? && View(thread)(k) == Retired(thread(k).registers)
    {
      ViewByKind(thread, k);
    }
    if GoesOnTo(c, View(thread), n) && n > 0 {
      assert GoesOn(c, View(thread), n - 1);
    }
  }

  lemma ResultTellsSteps(c: Config, thread: Thread)
    requires Ready(c)
    ensures TellsSteps(c, thread, WindowsRun(c, thread))
  {
    hide Run, WindowsRun, View, StillGoing, GoesOnTo, StartOf, Previous, ExitsEarly, WaitLost, FaultDetails, Ready;
    var cpu := View(thread);
    var r, w := Run(c, cpu), WindowsRun(c, thread);
    ResultByEnd(c, thread);
    StepIff(c, cpu, 0);
    forall n: nat
      ensures StillGoing(c, thread, n) && thread(n).SingleStep? <==> n < CompletedCount(r)
      ensures n < CompletedCount(r) ==>
        thread(n).SingleStep? && r.steps[n] == Step(Previous(c, thread, n), thread(n).registers, false)
    {
      StepIff(c, cpu, n);
      GoingIff(c, thread, n);
      ViewByKind(thread, n);
    }
    if r.outcome == Faulted {
      assert forall n :: 0 <= n < |r.steps| - 1 ==> r.steps[n] == r.steps[..|r.steps| - 1][n];
      assert forall n :: 0 <= n < |w.steps| - 1 ==> w.steps[n] == w.steps[..|w.steps| - 1][n];
    }
  }

  lemma FaultedResult(c: Config, thread: Thread)
    requires Ready(c) && WindowsRun(c, thread).outcome == Faulted
    ensures var w := WindowsRun(c, thread);
      && w.steps != [] && thread(|w.steps| - 1).OtherException?
      && var stop := thread(|w.steps| - 1);
         && w.steps[|w.steps| - 1] == Step(stop.address, stop.registers, true)
         && w.stopAddress == stop.address && FaultDetails(stop, w.memory, w.access)
  {
    hide RunFrom, FaultDetails, Trail, View, ExitsEarly, WaitLost;
    var cpu := View(thread);
    ResultByEnd(c, thread);
    if c.stopOffset != Some(0) {
      RunExplained(c, cpu);
      ViewByKind(thread, CompletedCount(Run(c, cpu)));
    }
  }

  /** Every end of a Windows result, on the exceptions that the thread raised. */
  lemma ResultTellsEnd(c: Config, thread: Thread)
    requires Ready(c)
    ensures TellsEnd(c, thread, WindowsRun(c, thread))
  {
    hide Run, WindowsRun, View, StillGoing, GoesOnTo, StartOf, Previous, ExitsEarly, WaitLost, FaultDetails, Ready, NextRip;
    var cpu := View(thread);
    var r, w := Run(c, cpu), WindowsRun(c, thread);
    ResultByEnd(c, thread);
    ErrorStops(c, thread);
    WindowsDetails(c, thread);
    if w.outcome == Faulted { FaultedResult(c, thread); }
    forall n: nat
      ensures StillGoing(c, thread, n) && thread(n).OtherException? <==> r.outcome == Faulted && |r.steps| == n + 1
      ensures StillGoing(c, thread, n) && thread(n).BreakpointException? <==>
        r.outcome == Stopped && !r.stoppedAtTarget && |r.steps| == n
      ensures StillGoing(c, thread, n) && (thread(n).ThreadExited? || thread(n).WaitFailed?) <==>
        r.outcome == Error && |r.steps| == n
    {
      FaultIff(c, cpu, n);
      BreakIff(c, cpu, n);
      ErrorIff(c, cpu, n);
      GoingIff(c, thread, n);
      ViewByKind(thread, n);
    }
    EndsAt(c, thread);
  }

  lemma EndsAt(c: Config, thread: Thread)
    requires Ready(c)
    ensures WaitLost(c, thread) <==> exists n: nat :: StillGoing(c, thread, n) && thread(n).WaitFailed?
    ensures var r := Run(c, View(thread));
      r.outcome == Stopped && !r.stoppedAtTarget ==> r.stopAddress == Previous(c, thread, |r.steps|)
  {
    hide RunFrom, View, StillGoing, GoesOnTo, StartOf, Previous, FaultDetails, Trail;
    forall n: nat ensures StillGoing(c, thread, n) == GoesOnTo(c, View(thread), n) {
      GoingIff(c, thread, n);
    }
    var r := Run(c, View(thread));
    if c.stopOffset != Some(0) {
      RunExplained(c, View(thread));
      BreakIff(c, View(thread), |r.steps|);
      GoingIff(c, thread, |r.steps|);
    }
  }

  lemma WindowsDetails(c: Config, thread: Thread)
    requires Ready(c)
    ensures var w := WindowsRun(c, thread); w.outcome != Faulted ==> w.memory == None && w.access == NoAccess
  {
    hide RunFrom, View;
    if c.stopOffset != Some(0) {
      RunFlags(c, View(thread), c.seed.rip, []);
    }
  }
}

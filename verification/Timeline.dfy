/**
 * Moving through a history: single steps, the state shown at a position, and selections that survive a change of
 * decoder.
 */
module Timeline {
  import opened Common
  import opened MachineState
  import opened TraceModel

  predicate IsEvent(row: Row) {
    row.kind == Reached || row.kind == FaultedRow
  }

  /** Position `i` shows an event. Position 0 is the seed, position i the row before it in the list. */
  predicate EventAt(rows: seq<Row>, i: int) {
    0 < i <= |rows| && IsEvent(rows[i - 1])
  }

  /** The next position after `cursor` that shows an event, or `cursor` itself. */
  ghost predicate IsNext(rows: seq<Row>, cursor: int, next: int) {
    if exists i :: cursor < i && EventAt(rows, i) then
      cursor < next && EventAt(rows, next) && forall i :: cursor < i < next ==> !EventAt(rows, i)
    else next == cursor
  }

  /** The last position before `cursor` that shows an event, or the seed. */
  ghost predicate IsPrevious(rows: seq<Row>, cursor: int, previous: int) {
    (previous == 0 || (previous < cursor && EventAt(rows, previous)))
    && forall i :: previous < i < cursor ==> !EventAt(rows, i)
  }

  datatype Selection = Selection(rip: int, event: Option<nat>, hasRow: bool)

  function Selected(rows: seq<Row>, cursor: int): Selection {
    if 0 < cursor <= |rows| then Selection(rows[cursor - 1].rip, rows[cursor - 1].event, true)
    else Selection(0, None, false)
  }

  predicate Matches(row: Row, selection: Selection) {
    if selection.event.Some? then row.event == selection.event
    else row.event == None && row.rip <= selection.rip && selection.rip - row.rip < row.length
  }

  /** The first matching row, or the old cursor cut to the number of rows. */
  ghost predicate IsRestored(rows: seq<Row>, selection: Selection, cursor: int, restored: int) {
    if !selection.hasRow then restored == 0
    else if exists i :: 0 <= i < |rows| && Matches(rows[i], selection) then
      0 < restored <= |rows| && Matches(rows[restored - 1], selection)
      && forall i :: 0 <= i < restored - 1 ==> !Matches(rows[i], selection)
    else restored == Min(cursor, |rows|)
  }

  /** The registers shown at a position: those of the last event at or above it, else the seed. */
  function StateAt(t: Trace, rows: seq<Row>, position: nat): Registers
    decreases position
  {
    if position > |rows| then StateAt(t, rows, |rows|)
    else if position == 0 then t.seed
    else
      var row := rows[position - 1];
      if row.event.Some? && row.event.value < |t.events| then t.events[row.event.value].registers
      else StateAt(t, rows, position - 1)
  }

  /** The row shows an event of the trace. */
  predicate HoldsEvent(t: Trace, row: Row) {
    row.event.Some? && row.event.value < |t.events|
  }

  /** Row `m` is the last above the position that shows an event. */
  ghost predicate LastEventAbove(t: Trace, rows: seq<Row>, position: nat, m: int) {
    0 <= m < Min(position, |rows|) && HoldsEvent(t, rows[m])
    && forall k :: m < k < Min(position, |rows|) ==> !HoldsEvent(t, rows[k])
  }

  ghost predicate NoEventAbove(t: Trace, rows: seq<Row>, position: nat) {
    forall k :: 0 <= k < Min(position, |rows|) ==> !HoldsEvent(t, rows[k])
  }

  /** The state at a position is that of the last event above it, and the seed when there is none. */
  lemma {:induction false} StateIsLastEvent(t: Trace, rows: seq<Row>, position: nat, m: int)
    ensures LastEventAbove(t, rows, position, m) ==> StateAt(t, rows, position) == t.events[rows[m].event.value].registers
    ensures NoEventAbove(t, rows, position) ==> StateAt(t, rows, position) == t.seed
    decreases position
  {
    if position > |rows| {
      StateIsLastEvent(t, rows, |rows|, m);
    } else if position > 0 && !HoldsEvent(t, rows[position - 1]) {
      StateIsLastEvent(t, rows, position - 1, m);
    }
  }

  lemma StateIsLast(t: Trace, rows: seq<Row>, position: nat)
    ensures forall m :: LastEventAbove(t, rows, position, m) ==>
      StateAt(t, rows, position) == t.events[rows[m].event.value].registers
    ensures NoEventAbove(t, rows, position) ==> StateAt(t, rows, position) == t.seed
  {
    hide StateAt;
    StateIsLastEvent(t, rows, position, 0);
    forall m | LastEventAbove(t, rows, position, m)
      ensures StateAt(t, rows, position) == t.events[rows[m].event.value].registers
    {
      StateIsLastEvent(t, rows, position, m);
    }
  }

  class View {
    var tabs: seq<seq<Row>>
    var tab: nat
    var cursor: int

    constructor (tabs: seq<seq<Row>>)
      requires |tabs| > 0
      ensures Valid() && this.tabs == tabs && tab == 0 && cursor == 0
    {
      this.tabs, tab, cursor := tabs, 0, 0;
    }

    /** The cursor is the seed or a row of the tab that is shown. */
    predicate Valid()
      reads this
    {
      tab < |tabs| && 0 <= cursor <= |tabs[tab]|
    }

    function Rows(): seq<Row>
      reads this
      requires tab < |tabs|
    {
      tabs[tab]
    }

    method Step()
      requires Valid()
      modifies this`cursor
      ensures Valid() && IsNext(Rows(), old(cursor), cursor)
    {
      var rows := Rows();
      var i := cursor + 1;
      while i <= |rows|
        invariant cursor < i && cursor == old(cursor)
        invariant forall k :: cursor < k < i ==> !EventAt(rows, k)
        decreases |rows| - i
      {
        if IsEvent(rows[i - 1]) {
          assert EventAt(rows, i);
          cursor := i;
          return;
        }
        i := i + 1;
      }
    }

    method Back()
      requires Valid()
      modifies this`cursor
      ensures Valid() && IsPrevious(Rows(), old(cursor), cursor)
    {
      var rows := Rows();
      var i := cursor - 1;
      while i >= 1
        invariant i < cursor == old(cursor)
        invariant forall k :: i < k < cursor ==> !EventAt(rows, k)
      {
        if IsEvent(rows[i - 1]) {
          assert EventAt(rows, i);
          cursor := i;
          return;
        }
        i := i - 1;
      }
      cursor := 0;
    }

    method State(t: Trace, position: nat) returns (registers: Registers)
      requires Valid()
      ensures registers == StateAt(t, Rows(), position)
      ensures forall m :: LastEventAbove(t, Rows(), position, m) ==>
        registers == t.events[Rows()[m].event.value].registers
      ensures NoEventAbove(t, Rows(), position) ==> registers == t.seed
    {
      hide LastEventAbove, NoEventAbove;
      StateIsLast(t, Rows(), position);
      var rows := Rows();
      var p: nat := Min(position, |rows|);
      while p > 0
        invariant 0 <= p <= |rows|
        invariant StateAt(t, rows, position) == StateAt(t, rows, p)
      {
        p := p - 1;
        var row := rows[p];
        if row.event.Some? && row.event.value < |t.events| {
          return t.events[row.event.value].registers;
        }
      }
      return t.seed;
    }

    /** The rows may have changed, so the old cursor may lie beyond them. */
    method Restore(selection: Selection)
      requires tab < |tabs| && 0 <= cursor
      modifies this`cursor
      ensures Valid() && IsRestored(Rows(), selection, old(cursor), cursor)
    {
      if !selection.hasRow {
        cursor := 0;
        return;
      }
      var rows := Rows();
      var i := 0;
      while i < |rows|
        invariant 0 <= i <= |rows| && cursor == old(cursor)
        invariant forall k :: 0 <= k < i ==> !Matches(rows[k], selection)
      {
        if Matches(rows[i], selection) {
          cursor := i + 1;
          return;
        }
        i := i + 1;
      }
      cursor := Min(cursor, |rows|);
    }

    /** Shows another decoder's rows, with the selection carried over. */
    method SwitchTab(next: nat)
      requires Valid() && next < |tabs|
      modifies this`tab, this`cursor
      ensures Valid() && tab == next
      ensures IsRestored(Rows(), old(Selected(Rows(), cursor)), old(cursor), cursor)
    {
      var selection := Selected(Rows(), cursor);
      tab := next;
      Restore(selection);
    }
  }
}

/** Replaying a history shows what was recorded, for every decoder. */
module TimelineProofs {
  import opened Common
  import opened TraceModel
  import opened HistorySpec
  import opened HistoryProofs
  import opened Timeline
  import opened Driver
  import RunEngine
  import WindowsDriver
  import opened WindowsProofs

  // ---------------------------------------------------------------- step and back

  /** `Step` and `Back` are determined by their specifications. */
  lemma MovesUnique(rows: seq<Row>, cursor: int, a: int, b: int)
    requires 0 <= cursor
    ensures IsNext(rows, cursor, a) && IsNext(rows, cursor, b) ==> a == b
    ensures IsPrevious(rows, cursor, a) && IsPrevious(rows, cursor, b) ==> a == b
  {
  }

  /**
   * Back undoes a step exactly from the seed, or from an event row that has a later event.
   * From any other row the way back leads elsewhere.
   */
  lemma BackUndoesStep(rows: seq<Row>, cursor: int, stepped: int, back: int)
    requires 0 <= cursor <= |rows| && IsNext(rows, cursor, stepped) && IsPrevious(rows, stepped, back)
    ensures back == cursor <==>
      cursor == 0 || (EventAt(rows, cursor) && exists i :: cursor < i && EventAt(rows, i))
  {
  }

  /** With a single event, back leads from it to the seed although step had stayed at it. */
  lemma BackInstance()
    ensures var rows := [Row(0x1000, "nop", 0, 1, Reached, Some(0))];
      IsNext(rows, 1, 1) && IsPrevious(rows, 1, 0) && forall back :: IsPrevious(rows, 1, back) ==> back != 1
  {
    var rows := [Row(0x1000, "nop", 0, 1, Reached, Some(0))];
    assert forall i :: EventAt(rows, i) <==> i == 1;
  }

  // ---------------------------------------------------------------- event rows keep their order

  lemma {:induction false} EventRowsPrefix(rows: seq<Row>, n: nat)
    requires n <= |rows|
    ensures EventRows(rows[..n]) <= EventRows(rows)
    ensures n < |rows| && rows[n].event.Some? ==>
      |EventRows(rows[..n])| < |EventRows(rows)| && EventRows(rows)[|EventRows(rows[..n])|] == rows[n]
  {
    EventRowsAppend(rows[..n], rows[n..]);
    assert rows == rows[..n] + rows[n..];
  }

  /** How many event rows stand before a row: the number of steps that lead to it. */
  function Rank(rows: seq<Row>, n: nat): nat
    requires n <= |rows|
  {
    |EventRows(rows[..n])|
  }

  lemma RankStep(rows: seq<Row>, n: nat)
    requires n < |rows|
    ensures Rank(rows, n + 1) == Rank(rows, n) + if rows[n].event.Some? then 1 else 0
  {
    EventRowsAppend(rows[..n], [rows[n]]);
    assert rows[..n + 1] == rows[..n] + [rows[n]];
    assert [rows[n]][1..] == [];
  }

  lemma {:induction false} RankMonotone(rows: seq<Row>, m: nat, n: nat)
    requires m <= n <= |rows|
    ensures Rank(rows, m) <= Rank(rows, n)
    ensures (forall i :: m <= i < n ==> rows[i].event == None) ==> Rank(rows, m) == Rank(rows, n)
    ensures (exists i :: m <= i < n && rows[i].event.Some?) ==> Rank(rows, m) < Rank(rows, n)
    decreases n - m
  {
    if m < n {
      RankStep(rows, n - 1);
      RankMonotone(rows, m, n - 1);
    }
  }

  /** Rows of a history carry an event index exactly when they show an event. */
  lemma EventKinds(t: Trace, d: Decoder)
    ensures forall row :: row in History(t, d) ==> (IsEvent(row) <==> row.event.Some?)
  {
    if Buildable(t) { BuildShape(t, d, 0, 0); }
  }

  /** The state shown at an event row is the state recorded for the event with the rank of that row. */
  lemma StateAtEvent(t: Trace, d: Decoder, n: nat)
    requires Buildable(t) && n < |History(t, d)| && History(t, d)[n].event.Some?
    ensures var rows, indices := History(t, d), InRangeFrom(t, 0);
      Rank(rows, n) < |indices| && rows[n].event == Some(indices[Rank(rows, n)]) && indices[Rank(rows, n)] < |t.events|
      && StateAt(t, rows, n + 1) == t.events[indices[Rank(rows, n)]].registers
  {
    EventRowsPrefix(History(t, d), n);
    EventRowsReplay(t, d);
  }

  /**
   * At any row, static rows included, the state shown is that of the last in-range event whose row stands at or above it,
   * and the seed when there is none.
   */
  lemma {:induction false} StateAtAnyRow(t: Trace, d: Decoder, n: nat)
    requires Buildable(t) && n < |History(t, d)|
    ensures var rows, indices := History(t, d), InRangeFrom(t, 0);
      var above := Rank(rows, n + 1);
      && above <= |indices|
      && (above == 0 ==> StateAt(t, rows, n + 1) == t.seed)
      && (above > 0 ==> indices[above - 1] < |t.events| && StateAt(t, rows, n + 1) == t.events[indices[above - 1]].registers)
  {
    var rows := History(t, d);
    RankStep(rows, n);
    if rows[n].event.Some? {
      StateAtEvent(t, d, n);
    } else if n > 0 {
      StateAtAnyRow(t, d, n - 1);
    } else {
      NoneAbove(rows);
    }
  }

  lemma NoneAbove(rows: seq<Row>)
    ensures Rank(rows, 0) == 0
  {
  }

  // ---------------------------------------------------------------- k steps from the seed

  /** `cursor` is where `k` steps from the seed lead. */
  ghost predicate AfterSteps(rows: seq<Row>, k: nat, cursor: int)
    decreases k
  {
    if k == 0 then cursor == 0 else exists before :: AfterSteps(rows, k - 1, before) && IsNext(rows, before, cursor)
  }

  lemma {:induction false} StepsReachRank(t: Trace, d: Decoder, k: nat, cursor: int)
    requires Buildable(t) && k <= |InRangeFrom(t, 0)| && AfterSteps(History(t, d), k, cursor)
    ensures 0 <= cursor <= |History(t, d)| && Rank(History(t, d), cursor) == k
    ensures k > 0 ==> cursor > 0 && History(t, d)[cursor - 1].event.Some?
    decreases k
  {
    var rows := History(t, d);
    if k > 0 {
      var before :| AfterSteps(rows, k - 1, before) && IsNext(rows, before, cursor);
      StepsReachRank(t, d, k - 1, before);
      EventKinds(t, d);
      EventRowsReplay(t, d);
      assert rows[..|rows|] == rows;
      NextRaisesRank(rows, before, cursor);
    }
  }

  /** While events remain, one step raises the rank by one. */
  lemma NextRaisesRank(rows: seq<Row>, before: nat, cursor: int)
    requires forall row :: row in rows ==> (IsEvent(row) <==> row.event.Some?)
    requires before <= |rows| && Rank(rows, before) < Rank(rows, |rows|) && IsNext(rows, before, cursor)
    ensures before < cursor <= |rows| && rows[cursor - 1].event.Some? && Rank(rows, cursor) == Rank(rows, before) + 1
  {
    hide Rank;
    RankMonotone(rows, before, |rows|);
    var i :| before <= i < |rows| && rows[i].event.Some?;
    assert EventAt(rows, i + 1);
    forall k | before <= k < cursor - 1 ensures rows[k].event == None {
      assert !EventAt(rows, k + 1);
    }
    RankMonotone(rows, before, cursor - 1);
    RankStep(rows, cursor - 1);
  }

  /** After k steps from the seed, the state shown is that of the k-th event inside the input, whatever the decoder. */
  lemma ReplayIsDecoderIndependent(t: Trace, d: Decoder, k: nat, cursor: int)
    requires Buildable(t) && k <= |InRangeFrom(t, 0)| && AfterSteps(History(t, d), k, cursor)
    ensures cursor >= 0 && (k == 0 ==> StateAt(t, History(t, d), cursor) == t.seed)
    ensures k > 0 ==> var e := InRangeFrom(t, 0)[k - 1];
      e < |t.events| && StateAt(t, History(t, d), cursor) == t.events[e].registers
  {
    StepsReachRank(t, d, k, cursor);
    if k > 0 {
      RankStep(History(t, d), cursor - 1);
      StateAtEvent(t, d, cursor - 1);
    }
  }

  // ---------------------------------------------------------------- selections

  lemma EventRowUnique(t: Trace, d: Decoder, m: nat, n: nat)
    requires Buildable(t) && m < |History(t, d)| && n < |History(t, d)|
    requires History(t, d)[m].event.Some? && History(t, d)[m].event == History(t, d)[n].event
    ensures m == n
  {
    var rows := History(t, d);
    StateAtEvent(t, d, m);
    StateAtEvent(t, d, n);
    InRangeFromBounded(t, 0);
    RankStep(rows, m);
    RankStep(rows, n);
    if m < n { RankMonotone(rows, m + 1, n); }
    if n < m { RankMonotone(rows, n + 1, m); }
  }

  /** An event selection survives a change of decoder and back. */
  lemma SelectionSurvives(t: Trace, a: Decoder, b: Decoder, cursor: int, there: int, back: int)
    requires Buildable(t) && 0 <= cursor <= |History(t, a)|
    requires cursor > 0 ==> History(t, a)[cursor - 1].event.Some?
    requires IsRestored(History(t, b), Selected(History(t, a), cursor), cursor, there)
    requires IsRestored(History(t, a), Selected(History(t, b), there), there, back)
    ensures back == cursor
    ensures there > 0 ==> there <= |History(t, b)| && History(t, b)[there - 1].event == History(t, a)[cursor - 1].event
  {
    if cursor > 0 {
      var e := History(t, a)[cursor - 1].event.value;
      BuildShape(t, a, 0, 0);
      assert History(t, a)[cursor - 1] in History(t, a);
      EventHasRow(t, b, e);
      var n :| 0 <= n < |History(t, b)| && History(t, b)[n] == EventRow(t, b, e);
      assert Matches(History(t, b)[n], Selected(History(t, a), cursor));
      assert Matches(History(t, a)[cursor - 1], Selected(History(t, b), there));
      EventRowUnique(t, a, cursor - 1, back - 1);
    }
  }

  /** A selection remembers the address and the event of its row; the seed has no row. */
  lemma SelectedRow(rows: seq<Row>, cursor: int)
    requires 0 <= cursor <= |rows|
    ensures Selected(rows, cursor).hasRow <==> cursor > 0
    ensures cursor > 0 ==>
      Selected(rows, cursor).rip == rows[cursor - 1].rip && Selected(rows, cursor).event == rows[cursor - 1].event
  {
  }

  /** A static selection comes back where it was, when the other tab shows the same rows. */
  lemma StaticSelectionSurvives(t: Trace, d: Decoder, cursor: int, before: int, restored: int)
    requires 0 < cursor <= |History(t, d)| && History(t, d)[cursor - 1].event == None
    requires IsRestored(History(t, d), Selected(History(t, d), cursor), before, restored)
    ensures restored == cursor
  {
    var rows := History(t, d);
    var row := rows[cursor - 1];
    hide History;
    assert row in rows;
    RowsInBounds(t, d);
    StaticRowsAscend(t, d);
    EventKinds(t, d);
    assert Matches(row, Selected(rows, cursor));
    assert rows[restored - 1] in rows;
    OneStaticRow(rows, restored - 1, cursor - 1);
  }

  /** Of the ascending static rows only one holds the address of a row. */
  lemma OneStaticRow(rows: seq<Row>, i: int, j: int)
    requires StaticAscending(rows) && 0 <= i < |rows| && 0 <= j < |rows| && IsStatic(rows[i]) && IsStatic(rows[j])
    requires rows[i].length >= 1 && rows[j].length >= 1 && rows[j].rip - rows[j].offset == rows[i].rip - rows[i].offset
    requires rows[i].rip <= rows[j].rip && rows[j].rip - rows[i].rip < rows[i].length
    ensures i == j
  {
  }

  // ---------------------------------------------------------------- from the processor to the screen

  /**
   * A result that is recorded with its steps: it did not fail, and its completed steps are the first stops of the
   * stream.
   */
  ghost predicate Recordable(c: Config, cpu: Cpu, r: RunResult) {
    && r.seed == c.seed && r.outcome != Error && r.outcome != Idle && !r.instrumentationDetected
    && (forall k :: 0 <= k < |r.steps| ==> SafeStep(c, cpu, r.steps, k))
    && CompletedCount(r) <= |r.steps| && (r.steps != [] && r.outcome != Faulted ==> !EndsInFault(r))
  }

  lemma LinuxRecordable(c: Config, cpu: Cpu)
    requires Ready(c) && Run(c, cpu).outcome != Error
    ensures Recordable(c, cpu, Run(c, cpu))
  {
    WholeRunSafety(c, cpu);
    OutcomeCharacterized(c, cpu);
    if c.stopOffset != Some(0) {
      RunExplained(c, cpu);
      RunFlags(c, cpu, c.seed.rip, []);
    }
    hide Run, SafeStep;
  }

  /** Early exits included: they are not errors on Windows. */
  lemma WindowsRecordable(c: Config, thread: WindowsDriver.Thread)
    requires Ready(c) && WindowsDriver.WindowsRun(c, thread).outcome != Error
    ensures Recordable(c, WindowsDriver.View(thread), WindowsDriver.WindowsRun(c, thread))
  {
    hide Run, WindowsDriver.WindowsRun, SafeStep, ExitsEarly, WaitLost;
    LinuxNeverIdle(c, WindowsDriver.View(thread));
    ResultByEnd(c, thread);
    WindowsRunSafety(c, thread);
    WindowsOutcomes(c, thread);
  }

  lemma LinuxNeverIdle(c: Config, cpu: Cpu)
    requires Ready(c)
    ensures Run(c, cpu).outcome != Idle
  {
    hide RunFrom;
    if c.stopOffset != Some(0) {
      RunExplained(c, cpu);
    }
  }

  /** The trace of a run that did not fail, and one of its events. */
  lemma EventInRange(c: Config, r: RunResult, k: nat)
    requires Ready(c) && r.seed == c.seed && r.outcome != Error && r.outcome != Idle && !r.instrumentationDetected
    ensures var t := RunEngine.Record(c.code, c.maxSteps, r).trace;
      && Buildable(t) && t.seed == c.seed && |t.events| == |r.steps|
      && (k < |r.steps| ==> t.events[k].registers == r.steps[k].registers)
      && (k < |r.steps| && SafeStart(c, r.steps, k) ==> InRange(t, t.events[k].rip))
  {
    assert (c.seed.rip + |c.code|) % TWO_64 == c.seed.rip + |c.code|;
  }

  /** A recorded run that did not fail can be shown, and every completed event lies inside the input. */
  lemma EventsInRange(c: Config, cpu: Cpu, r: RunResult)
    requires Ready(c) && Recordable(c, cpu, r)
    ensures Shown(c, cpu, r)
  {
    var t := RunEngine.Record(c.code, c.maxSteps, r).trace;
    hide RunEngine.Record, InRange, SafeStart, Buildable;
    EventInRange(c, r, 0);
    forall k | 0 <= k < CompletedCount(r)
      ensures InRange(t, t.events[k].rip) && cpu(k) == Retired(t.events[k].registers)
    {
      assert SafeStep(c, cpu, r.steps, k);
      EventInRange(c, r, k);
    }
  }

  /** The recorded trace can be shown, and each completed event lies inside the input and holds what its stop delivered. */
  ghost predicate Shown(c: Config, cpu: Cpu, r: RunResult) {
    var t := RunEngine.Record(c.code, c.maxSteps, r).trace;
    && Buildable(t) && t.seed == c.seed && |t.events| == |r.steps| && CompletedCount(r) <= |t.events|
    && (forall k :: 0 <= k < CompletedCount(r) ==>
          InRange(t, t.events[k].rip) && cpu(k) == Retired(t.events[k].registers))
  }

  /** On either platform a run that did not fail is shown, a Windows run whose thread exited early included. */
  lemma RecordedEvents(c: Config, cpu: Cpu, thread: WindowsDriver.Thread)
    requires Ready(c)
    ensures Run(c, cpu).outcome != Error ==> Shown(c, cpu, Run(c, cpu))
    ensures WindowsDriver.WindowsRun(c, thread).outcome != Error ==>
      Shown(c, WindowsDriver.View(thread), WindowsDriver.WindowsRun(c, thread))
  {
    hide Run, WindowsDriver.WindowsRun, Recordable, Shown, Ready;
    if Run(c, cpu).outcome != Error {
      LinuxRecordable(c, cpu);
      EventsInRange(c, cpu, Run(c, cpu));
    }
    if WindowsDriver.WindowsRun(c, thread).outcome != Error {
      WindowsRecordable(c, thread);
      EventsInRange(c, WindowsDriver.View(thread), WindowsDriver.WindowsRun(c, thread));
    }
  }

  /**
   * A request that was refused, or a run that failed, leaves only static rows behind, and every position shows the seed.
   * When tracing was refused there are no rows at all.
   */
  lemma FailureShowsSeed(code: seq<u8>, cap: nat, r: RunResult, d: Decoder, position: nat)
    requires r.outcome == Error || r.outcome == Idle
    ensures var t := RunEngine.Record(code, cap, r).trace;
      && (forall row :: row in History(t, d) ==> IsStatic(row))
      && StateAt(t, History(t, d), position) == r.seed
      && (r.instrumentationDetected ==> History(t, d) == [])
  {
    var t := RunEngine.Record(code, cap, r).trace;
    var rows := History(t, d);
    if Buildable(t) { BuildShape(t, d, 0, 0); }
    forall i | 0 <= i < |rows| ensures rows[i].event == None {
      assert rows[i] in rows;
    }
    hide History, RunEngine.Record;
    StaticRowsShowSeed(t, rows, position);
  }

  lemma {:induction false} StaticRowsShowSeed(t: Trace, rows: seq<Row>, position: nat)
    requires forall i :: 0 <= i < |rows| ==> rows[i].event == None
    ensures StateAt(t, rows, position) == t.seed
    decreases position
  {
    if position > |rows| {
      StaticRowsShowSeed(t, rows, |rows|);
    } else if position > 0 {
      StaticRowsShowSeed(t, rows, position - 1);
    }
  }

  lemma {:induction false} InRangePrefix(t: Trace, i: nat, n: nat)
    requires i <= n <= |t.events| && forall k :: i <= k < n ==> InRange(t, t.events[k].rip)
    ensures |InRangeFrom(t, i)| >= n - i
    ensures forall k :: 0 <= k < n - i ==> InRangeFrom(t, i)[k] == i + k
    decreases n - i
  {
    if i < n { InRangePrefix(t, i + 1, n); }
  }

  /** The trace that is shown after a run. */
  function TraceOf(c: Config, r: RunResult): Trace {
    RunEngine.Record(c.code, c.maxSteps, r).trace
  }

  lemma ShownReplays(c: Config, cpu: Cpu, r: RunResult, d: Decoder, k: nat, cursor: int)
    requires Shown(c, cpu, r) && k <= CompletedCount(r) && AfterSteps(History(TraceOf(c, r), d), k, cursor)
    ensures cursor >= 0 && (k > 0 ==> cpu(k - 1).Retired?)
    ensures StateAt(TraceOf(c, r), History(TraceOf(c, r), d), cursor) == if k == 0 then c.seed else cpu(k - 1).registers
  {
    hide TraceOf, Shown, CompletedCount, HistorySpec.History, InRange, Buildable, AfterSteps, StateAt, InRangeFrom;
    var t := TraceOf(c, r);
    CompletedComeFirst(c, cpu, r);
    ReplayIsDecoderIndependent(t, d, k, cursor);
  }

  /** The events inside the input begin with the completed ones, and these hold what their stops delivered. */
  lemma CompletedComeFirst(c: Config, cpu: Cpu, r: RunResult)
    requires Shown(c, cpu, r)
    ensures var t, n := TraceOf(c, r), CompletedCount(r);
      && Buildable(t) && t.seed == c.seed && n <= |t.events| && n <= |InRangeFrom(t, 0)|
      && forall k :: 0 <= k < n ==> InRangeFrom(t, 0)[k] == k && cpu(k) == Retired(t.events[k].registers)
  {
    InRangePrefix(TraceOf(c, r), 0, CompletedCount(r));
  }

  /**
   * The timeline replays the processor: for every stream, every decoder and every k up to the number of completed
   * instructions, k steps from the seed show the registers that the k-th stop delivered.
   */
  lemma TimelineShowsProcessor(c: Config, cpu: Cpu, d: Decoder, k: nat, cursor: int)
    requires Ready(c) && Run(c, cpu).outcome != Error && k <= CompletedCount(Run(c, cpu))
    requires AfterSteps(History(TraceOf(c, Run(c, cpu)), d), k, cursor)
    ensures cursor >= 0 && (k > 0 ==> cpu(k - 1).Retired?)
    ensures var t := TraceOf(c, Run(c, cpu));
      StateAt(t, History(t, d), cursor) == if k == 0 then c.seed else cpu(k - 1).registers
  {
    hide Run, TraceOf, Recordable, Shown, HistorySpec.History;
    LinuxRecordable(c, cpu);
    EventsInRange(c, cpu, Run(c, cpu));
    ShownReplays(c, cpu, Run(c, cpu), d, k, cursor);
  }

  /** The same on Windows, for a thread that exits early too: what is shown is what its exceptions delivered. */
  lemma TimelineShowsThread(c: Config, thread: WindowsDriver.Thread, d: Decoder, k: nat, cursor: int)
    requires Ready(c) && WindowsDriver.WindowsRun(c, thread).outcome != Error
    requires k <= CompletedCount(WindowsDriver.WindowsRun(c, thread))
    requires AfterSteps(History(TraceOf(c, WindowsDriver.WindowsRun(c, thread)), d), k, cursor)
    ensures cursor >= 0 && (k > 0 ==> thread(k - 1).SingleStep?)
    ensures var t := TraceOf(c, WindowsDriver.WindowsRun(c, thread));
      StateAt(t, History(t, d), cursor) == if k == 0 then c.seed else thread(k - 1).registers
  {
    hide WindowsDriver.WindowsRun, TraceOf, Recordable, Shown, HistorySpec.History;
    var w := WindowsDriver.WindowsRun(c, thread);
    WindowsRecordable(c, thread);
    EventsInRange(c, WindowsDriver.View(thread), w);
    ShownReplays(c, WindowsDriver.View(thread), w, d, k, cursor);
    if k > 0 {
      WindowsDriver.ViewAt(thread, k - 1);
    }
  }

  /**
   * After a run to a row, restoring its address selects a static row that holds it whenever no executed row covers it.
   * When no execution starts inside another's row, there is such a row only then.
   */
  lemma RunToRowSelection(t: Trace, d: Decoder, offset: nat, cursor: int, restored: int)
    requires Buildable(t) && offset < |t.code|
    requires IsRestored(History(t, d), Selection(t.seed.rip + offset, None, true), cursor, restored)
    ensures NoNestedStart(t, d, Starts(t)) ==>
      (!InEventRow(t, d, Starts(t), offset) <==>
       exists n :: 0 <= n < |History(t, d)| && IsStatic(History(t, d)[n]) && Covers(History(t, d)[n], offset))
    ensures !InEventRow(t, d, Starts(t), offset) ==>
      0 < restored <= |History(t, d)| && IsStatic(History(t, d)[restored - 1]) && Covers(History(t, d)[restored - 1], offset)
  {
    hide History, InEventRow, NoNestedStart;
    if InEventRow(t, d, Starts(t), offset) {
      if NoNestedStart(t, d, Starts(t)) { NoStaticRowAt(t, d, offset); }
    } else {
      var n := StaticRowAt(t, d, offset);
      RowsInBounds(t, d);
      EventKinds(t, d);
      assert Matches(History(t, d)[n], Selection(t.seed.rip + offset, None, true));
      assert History(t, d)[restored - 1] in History(t, d);
    }
  }

  lemma NoStaticRowAt(t: Trace, d: Decoder, offset: nat)
    requires Buildable(t) && NoNestedStart(t, d, Starts(t)) && InEventRow(t, d, Starts(t), offset)
    ensures forall n :: 0 <= n < |History(t, d)| && IsStatic(History(t, d)[n]) ==> !Covers(History(t, d)[n], offset)
  {
    EventRowCovers(t, d, offset);
    EventKinds(t, d);
    var rows := History(t, d);
    hide History;
    var row :| row in rows && Covers(row, offset) && row.event.Some?;
    forall n | 0 <= n < |rows| && IsStatic(rows[n]) ensures !Covers(rows[n], offset) {
      if Covers(rows[n], offset) {
        SharedRange(t, d, row, rows[n], offset);
      }
    }
  }

  /** A static row and an event row of a partitioned history share no byte. */
  lemma SharedRange(t: Trace, d: Decoder, row: Row, other: Row, b: int)
    requires Buildable(t) && NoNestedStart(t, d, Starts(t))
    requires row in History(t, d) && other in History(t, d) && Covers(row, b) && Covers(other, b)
    requires row.event.Some?
    ensures other.event.Some?
  {
    SharedByte(t, d, row, other, b);
    BuildShape(t, d, 0, 0);
  }

  lemma StaticRowAt(t: Trace, d: Decoder, offset: nat) returns (n: nat)
    requires Buildable(t) && offset < |t.code| && !InEventRow(t, d, Starts(t), offset)
    ensures n < |History(t, d)| && IsStatic(History(t, d)[n]) && Covers(History(t, d)[n], offset)
    ensures History(t, d)[n].event == None
  {
    BuildCovers(t, d, 0, 0, offset);
    BuildShape(t, d, 0, 0);
    var row :| row in History(t, d) && Covers(row, offset);
    n :| 0 <= n < |History(t, d)| && History(t, d)[n] == row;
  }
}

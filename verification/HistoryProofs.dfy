/** What every history guarantees, for any trace and any decoder. */
module HistoryProofs {
  import opened Common
  import opened MachineState
  import opened TraceModel
  import opened HistorySpec

  // ---------------------------------------------------------------- row shape

  /** Every row is either the event row of its event or the static row of its offset. */
  predicate WellShaped(t: Trace, d: Decoder, starts: set<int>, row: Row) {
    && row.offset < |t.code|
    && match row.event
       case None => row == StaticRow(t, d, starts, row.offset)
       case Some(i) => Buildable(t) && i < |t.events| && InRange(t, t.events[i].rip) && row == EventRow(t, d, i)
  }

  lemma {:induction false} FillShape(t: Trace, d: Decoder, starts: set<int>, from: nat, to: int)
    requires from < to ==> GapEnd(t, starts, to)
    ensures forall row :: row in FillRows(t, d, starts, from, to) ==> row.event == None && WellShaped(t, d, starts, row)
    ensures forall row :: row in FillRows(t, d, starts, from, to) ==> from <= row.offset && row.offset + row.length <= to
    ensures forall row :: row in FillRows(t, d, starts, from, to) ==> row.offset !in starts
    decreases if from < to then to - from else 0
  {
    if from < to {
      FillShape(t, d, starts, StaticEnd(t, d, starts, from), to);
      StaticEndStaysBelow(t, d, starts, from, to);
    }
  }

  lemma StaticEndStaysBelow(t: Trace, d: Decoder, starts: set<int>, from: nat, to: int)
    requires GapEnd(t, starts, to) && from < to
    ensures StaticEnd(t, d, starts, from) <= to
  {
  }

  lemma {:induction false} BuildShape(t: Trace, d: Decoder, i: nat, linear: nat)
    requires Buildable(t) && i <= |t.events|
    ensures forall row :: row in BuildFrom(t, d, i, linear) ==> WellShaped(t, d, Starts(t), row)
    ensures forall row :: row in BuildFrom(t, d, i, linear) && row.event == None ==>
      linear <= row.offset && row.offset !in Starts(t)
    decreases |t.events| - i
  {
    hide FillRows, EventRow, WellShaped;
    if i == |t.events| {
      FillShape(t, d, Starts(t), linear, |t.code|);
    } else if !InRange(t, t.events[i].rip) {
      BuildShape(t, d, i + 1, linear);
    } else {
      var o := EventOffset(t, i);
      FillShape(t, d, Starts(t), linear, o);
      EventRowShape(t, d, i);
      BuildShape(t, d, i + 1, Max(linear, o + DecodeLength(t, d, o)));
    }
  }

  lemma EventRowShape(t: Trace, d: Decoder, i: nat)
    requires Buildable(t) && i < |t.events| && InRange(t, t.events[i].rip)
    ensures EventRow(t, d, i).event.Some? && WellShaped(t, d, Starts(t), EventRow(t, d, i))
  {
  }

  /** Rows stay inside the input, are never empty, and sit at the address of their offset. */
  lemma RowsInBounds(t: Trace, d: Decoder)
    ensures forall row :: row in History(t, d) ==>
      && row.length >= 1 && row.offset + row.length <= |t.code|
      && row.rip == t.seed.rip + row.offset && row.rip < TWO_64
  {
    if Buildable(t) { BuildShape(t, d, 0, 0); }
  }

  /** A static row never contains the start of an in-range event, whether it ran before or after the gap was filled. */
  lemma StaticRowsAvoidStarts(t: Trace, d: Decoder)
    ensures forall row, x :: row in History(t, d) && IsStatic(row) && x in Starts(t) ==> !Covers(row, x)
  {
    if Buildable(t) { BuildShape(t, d, 0, 0); }
  }

  /**
   * A static row is a whole decode exactly when no event starts strictly inside that decode.
   * Otherwise it is a data row that ends at the first such start.
   */
  lemma StaticRowKind(t: Trace, d: Decoder, row: Row)
    requires row in History(t, d) && row.event == None && row.offset < |t.code|
    ensures row.kind == NotReached <==>
      (forall x :: row.offset < x < row.offset + DecodeLength(t, d, row.offset) ==> x !in Starts(t))
    ensures row.kind == NotReached ==>
      row.length == DecodeLength(t, d, row.offset) && row.text == DecodeText(t, d, row.offset)
    ensures row.kind != NotReached ==>
      && row.kind == Data && row.text == "(data)"
      && row.length < DecodeLength(t, d, row.offset) && row.offset + row.length in Starts(t)
      && (forall x :: row.offset < x < row.offset + row.length ==> x !in Starts(t))
  {
    BuildShape(t, d, 0, 0);
  }

  // ---------------------------------------------------------------- static rows ascend

  predicate StaticAscending(rows: seq<Row>) {
    forall i, j :: 0 <= i < j < |rows| && IsStatic(rows[i]) && IsStatic(rows[j]) ==>
      rows[i].offset + rows[i].length <= rows[j].offset
  }

  lemma AscendingAppend(a: seq<Row>, b: seq<Row>, middle: int)
    requires StaticAscending(a) && StaticAscending(b)
    requires forall row :: row in a && IsStatic(row) ==> row.offset + row.length <= middle
    requires forall row :: row in b && IsStatic(row) ==> middle <= row.offset
    ensures StaticAscending(a + b)
  {
    forall i, j | 0 <= i < j < |a + b| && IsStatic((a + b)[i]) && IsStatic((a + b)[j])
      ensures (a + b)[i].offset + (a + b)[i].length <= (a + b)[j].offset
    {
      if i < |a| <= j {
        assert (a + b)[i] in a && (a + b)[j] in b;
      }
    }
  }

  lemma {:induction false} FillAscending(t: Trace, d: Decoder, starts: set<int>, from: nat, to: int)
    requires from < to ==> GapEnd(t, starts, to)
    ensures StaticAscending(FillRows(t, d, starts, from, to))
    decreases if from < to then to - from else 0
  {
    if from < to {
      var e := StaticEnd(t, d, starts, from);
      FillAscending(t, d, starts, e, to);
      FillShape(t, d, starts, e, to);
      AscendingAppend(if from in starts then [] else [StaticRow(t, d, starts, from)], FillRows(t, d, starts, e, to), e);
    }
  }

  lemma BuildStatics(t: Trace, d: Decoder, i: nat, linear: nat)
    requires Buildable(t) && i <= |t.events|
    ensures forall row :: row in BuildFrom(t, d, i, linear) && IsStatic(row) ==> linear <= row.offset
  {
    BuildShape(t, d, i, linear);
  }

  /** The rows of one turn: a gap below `o`, an event row, and the rest, whose static rows lie at or above `o`. */
  lemma StepAscending(fill: seq<Row>, row: Row, rest: seq<Row>, o: int)
    requires StaticAscending(fill) && StaticAscending(rest) && !IsStatic(row)
    requires forall r :: r in fill ==> r.offset + r.length <= o
    requires forall r :: r in rest && IsStatic(r) ==> o <= r.offset
    ensures StaticAscending(fill + [row] + rest)
  {
    AscendingAppend(fill, [row], o);
    AscendingAppend(fill + [row], rest, o);
  }

  lemma {:induction false} BuildAscending(t: Trace, d: Decoder, i: nat, linear: nat)
    requires Buildable(t) && i <= |t.events|
    ensures StaticAscending(BuildFrom(t, d, i, linear))
    decreases |t.events| - i
  {
    hide StaticAscending, FillRows, WellShaped;
    if i == |t.events| {
      FillAscending(t, d, Starts(t), linear, |t.code|);
    } else if !InRange(t, t.events[i].rip) {
      BuildAscending(t, d, i + 1, linear);
    } else {
      var o := EventOffset(t, i);
      var next := Max(linear, o + DecodeLength(t, d, o));
      FillAscending(t, d, Starts(t), linear, o);
      FillShape(t, d, Starts(t), linear, o);
      BuildAscending(t, d, i + 1, next);
      BuildStatics(t, d, i + 1, next);
      StepAscending(FillRows(t, d, Starts(t), linear, o), EventRow(t, d, i), BuildFrom(t, d, i + 1, next), o);
    }
  }

  /** Across the whole history the static rows are pairwise disjoint and in ascending order. */
  lemma StaticRowsAscend(t: Trace, d: Decoder)
    ensures StaticAscending(History(t, d))
  {
    if Buildable(t) { BuildAscending(t, d, 0, 0); }
  }

  // ---------------------------------------------------------------- static rows stand where the sweep was

  predicate EndsBefore(a: Row, b: Row) {
    a.offset + a.length <= b.offset
  }

  predicate NoEventBetween(rows: seq<Row>, j: int, k: int)
    requires 0 <= j <= k <= |rows|
  {
    forall m :: j < m < k ==> rows[m].event == None
  }

  /** Every event row above a static row ends at or below its offset. */
  predicate AfterEvents(rows: seq<Row>) {
    forall i, j :: 0 <= i < j < |rows| && rows[i].event.Some? && rows[j].event == None ==> EndsBefore(rows[i], rows[j])
  }

  /** The first event row below a static row, if any, starts at or above its end. */
  predicate BeforeNextEvent(rows: seq<Row>) {
    forall j, k :: 0 <= j < k < |rows| && rows[j].event == None && rows[k].event.Some? && NoEventBetween(rows, j, k) ==>
      EndsBefore(rows[j], rows[k])
  }

  /** One turn: static rows that end at or below an event row, that row, and the rest, with static rows behind it only. */
  lemma AfterEventsStep(fill: seq<Row>, row: Row, rest: seq<Row>)
    requires forall r :: r in fill ==> r.event == None
    requires AfterEvents(rest) && forall r :: r in rest && r.event == None ==> EndsBefore(row, r)
    ensures AfterEvents(fill + [row] + rest)
  {
    hide EndsBefore;
    var rows, n := fill + [row] + rest, |fill| + 1;
    forall i, j | 0 <= i < j < |rows| && rows[i].event.Some? && rows[j].event == None ensures EndsBefore(rows[i], rows[j]) {
      FillIn(fill, [row] + rest, rows);
      assert rows[j] == rest[j - n];
      if i >= n { assert rows[i] == rest[i - n]; }
    }
  }

  lemma BeforeNextEventStep(fill: seq<Row>, row: Row, rest: seq<Row>)
    requires forall r :: r in fill ==> r.event == None && EndsBefore(r, row)
    requires row.event.Some? && BeforeNextEvent(rest)
    ensures BeforeNextEvent(fill + [row] + rest)
  {
    hide EndsBefore, NoEventBetween;
    var rows, n := fill + [row] + rest, |fill| + 1;
    forall j, k | 0 <= j < k < |rows| && rows[j].event == None && rows[k].event.Some? && NoEventBetween(rows, j, k)
      ensures EndsBefore(rows[j], rows[k])
    {
      if j < n {
        FillIn(fill, [row] + rest, rows);
        assert rows[|fill|] == row;
        EventStopsGap(rows, j, k, |fill|);
      } else {
        assert rows[j] == rest[j - n] && rows[k] == rest[k - n];
        GapInRest(fill + [row], rest, j, k);
      }
    }
  }

  lemma FillIn(fill: seq<Row>, more: seq<Row>, rows: seq<Row>)
    requires rows == fill + more
    ensures forall i :: 0 <= i < |fill| ==> rows[i] in fill
  {
  }

  lemma EventStopsGap(rows: seq<Row>, j: int, k: int, m: int)
    requires 0 <= j <= k <= |rows| && NoEventBetween(rows, j, k) && 0 <= m < |rows| && rows[m].event.Some?
    ensures !(j < m < k)
  {
  }

  lemma GapInRest(front: seq<Row>, rest: seq<Row>, j: int, k: int)
    requires |front| <= j <= k <= |front| + |rest| && NoEventBetween(front + rest, j, k)
    ensures NoEventBetween(rest, j - |front|, k - |front|)
  {
    forall m | j - |front| < m < k - |front| ensures rest[m].event == None {
      assert rest[m] == (front + rest)[m + |front|];
    }
  }

  lemma {:induction false} BuildPlaced(t: Trace, d: Decoder, i: nat, linear: nat)
    requires Buildable(t) && i <= |t.events|
    ensures AfterEvents(BuildFrom(t, d, i, linear)) && BeforeNextEvent(BuildFrom(t, d, i, linear))
    decreases |t.events| - i
  {
    hide AfterEvents, BeforeNextEvent, FillRows, WellShaped;
    if i == |t.events| {
      FillShape(t, d, Starts(t), linear, |t.code|);
      StaticOnly(FillRows(t, d, Starts(t), linear, |t.code|));
    } else if !InRange(t, t.events[i].rip) {
      BuildPlaced(t, d, i + 1, linear);
    } else {
      var o := EventOffset(t, i);
      var next := Max(linear, o + DecodeLength(t, d, o));
      var fill, row, rest := FillRows(t, d, Starts(t), linear, o), EventRow(t, d, i), BuildFrom(t, d, i + 1, next);
      FillShape(t, d, Starts(t), linear, o);
      BuildPlaced(t, d, i + 1, next);
      BuildShape(t, d, i + 1, next);
      AfterEventsStep(fill, row, rest);
      BeforeNextEventStep(fill, row, rest);
    }
  }

  lemma StaticOnly(rows: seq<Row>)
    requires forall r :: r in rows ==> r.event == None
    ensures AfterEvents(rows) && BeforeNextEvent(rows)
  {
  }

  /**
   * A static row stands where the sweep passed it: every event row above it ends at or below its offset, and the first
   * event row below it starts at or above its end.
   */
  lemma StaticRowsPlaced(t: Trace, d: Decoder, i: nat, j: nat, k: nat)
    requires j < |History(t, d)| && History(t, d)[j].event == None
    ensures i < j && History(t, d)[i].event.Some? ==>
      History(t, d)[i].offset + History(t, d)[i].length <= History(t, d)[j].offset
    ensures (j < k < |History(t, d)| && History(t, d)[k].event.Some?
             && forall m :: j < m < k ==> History(t, d)[m].event == None) ==>
      History(t, d)[j].offset + History(t, d)[j].length <= History(t, d)[k].offset
  {
    BuildPlaced(t, d, 0, 0);
    var rows := History(t, d);
    if j < k < |rows| && rows[k].event.Some? && forall m :: j < m < k ==> rows[m].event == None {
      assert NoEventBetween(rows, j, k);
    }
  }

  // ---------------------------------------------------------------- event rows replay the events

  function EventPart(row: Row): seq<Row> {
    if row.event.Some? then [row] else []
  }

  function EventRows(rows: seq<Row>): seq<Row> {
    if rows == [] then [] else EventPart(rows[0]) + EventRows(rows[1..])
  }

  lemma EventRowsHead(rows: seq<Row>)
    requires rows != []
    ensures EventRows(rows) == EventPart(rows[0]) + EventRows(rows[1..])
  {
  }

  lemma NoRows()
    ensures EventRows([]) == []
  {
  }

  lemma {:induction false} EventRowsAppend(a: seq<Row>, b: seq<Row>)
    ensures EventRows(a + b) == EventRows(a) + EventRows(b)
  {
    hide EventPart, EventRows;
    if a == [] {
      assert a + b == b;
      NoRows();
    } else {
      EventRowsAppend(a[1..], b);
      assert (a + b)[1..] == a[1..] + b;
      EventRowsHead(a);
      EventRowsHead(a + b);
    }
  }

  lemma {:induction false} NoEventRows(rows: seq<Row>)
    requires forall row :: row in rows ==> row.event == None
    ensures EventRows(rows) == []
  {
    if rows != [] { NoEventRows(rows[1..]); }
  }

  /** The indices, from `i` on, of the events that lie in the input. */
  function InRangeFrom(t: Trace, i: nat): seq<nat>
    requires i <= |t.events|
    decreases |t.events| - i
  {
    if i == |t.events| then [] else (if InRange(t, t.events[i].rip) then [i] else []) + InRangeFrom(t, i + 1)
  }

  /** The event rows of the in-range events from `i` on, in execution order. */
  function ReplayFrom(t: Trace, d: Decoder, i: nat): seq<Row>
    requires Buildable(t) && i <= |t.events|
    decreases |t.events| - i
  {
    if i == |t.events| then []
    else (if InRange(t, t.events[i].rip) then [EventRow(t, d, i)] else []) + ReplayFrom(t, d, i + 1)
  }

  lemma {:induction false} BuildEventRows(t: Trace, d: Decoder, i: nat, linear: nat)
    requires Buildable(t) && i <= |t.events|
    ensures EventRows(BuildFrom(t, d, i, linear)) == ReplayFrom(t, d, i)
    decreases |t.events| - i
  {
    hide FillRows, EventRows, WellShaped;
    if i == |t.events| {
      FillShape(t, d, Starts(t), linear, |t.code|);
      NoEventRows(FillRows(t, d, Starts(t), linear, |t.code|));
    } else if !InRange(t, t.events[i].rip) {
      BuildEventRows(t, d, i + 1, linear);
    } else {
      var o := EventOffset(t, i);
      var next := Max(linear, o + DecodeLength(t, d, o));
      FillShape(t, d, Starts(t), linear, o);
      NoEventRows(FillRows(t, d, Starts(t), linear, o));
      BuildEventRows(t, d, i + 1, next);
      EventRowsOfStep(FillRows(t, d, Starts(t), linear, o), EventRow(t, d, i), BuildFrom(t, d, i + 1, next));
    }
  }

  lemma EventRowsOfStep(fill: seq<Row>, row: Row, rest: seq<Row>)
    requires EventRows(fill) == [] && row.event.Some?
    ensures EventRows(fill + [row] + rest) == [row] + EventRows(rest)
  {
    EventRowsAppend(fill + [row], rest);
    EventRowsAppend(fill, [row]);
  }

  lemma {:induction false} ReplayPointwise(t: Trace, d: Decoder, i: nat)
    requires Buildable(t) && i <= |t.events|
    ensures |ReplayFrom(t, d, i)| == |InRangeFrom(t, i)|
    ensures forall k :: 0 <= k < |InRangeFrom(t, i)| ==>
      var e := InRangeFrom(t, i)[k];
      e < |t.events| && InRange(t, t.events[e].rip) && ReplayFrom(t, d, i)[k] == EventRow(t, d, e)
    decreases |t.events| - i
  {
    if i < |t.events| { ReplayPointwise(t, d, i + 1); }
  }

  /** Rows with an event index list every in-range event exactly once, in execution order, for every decoder. */
  lemma EventRowsReplay(t: Trace, d: Decoder)
    requires Buildable(t)
    ensures |EventRows(History(t, d))| == |InRangeFrom(t, 0)|
    ensures forall k :: 0 <= k < |InRangeFrom(t, 0)| ==>
      var e := InRangeFrom(t, 0)[k];
      e < |t.events| && InRange(t, t.events[e].rip) && EventRows(History(t, d))[k] == EventRow(t, d, e)
  {
    BuildEventRows(t, d, 0, 0);
    ReplayPointwise(t, d, 0);
  }

  lemma {:induction false} InRangeFromContains(t: Trace, i: nat, e: nat)
    requires i <= e < |t.events|
    ensures e in InRangeFrom(t, i) <==> InRange(t, t.events[e].rip)
    decreases e - i
  {
    InRangeFromBounded(t, i + 1);
    if i < e { InRangeFromContains(t, i + 1, e); }
  }

  lemma {:induction false} InRangeFromBounded(t: Trace, i: nat)
    requires i <= |t.events|
    ensures forall k :: 0 <= k < |InRangeFrom(t, i)| ==>
      i <= InRangeFrom(t, i)[k] < |t.events| && InRange(t, t.events[InRangeFrom(t, i)[k]].rip)
    ensures forall j, k :: 0 <= j < k < |InRangeFrom(t, i)| ==> InRangeFrom(t, i)[j] < InRangeFrom(t, i)[k]
    decreases |t.events| - i
  {
    if i < |t.events| { InRangeFromBounded(t, i + 1); }
  }

  lemma {:induction false} EventRowsMembers(rows: seq<Row>, row: Row)
    ensures row in EventRows(rows) <==> row in rows && row.event.Some?
  {
    if rows != [] { EventRowsMembers(rows[1..], row); }
  }

  /**
   * A row with an event index shows that event: its address, its decode, and whether it completed. A decode that is empty
   * or does not fit shows as one "(bad)" byte.
   */
  lemma EventRowFields(t: Trace, d: Decoder, row: Row)
    requires row in History(t, d) && row.event.Some?
    ensures row.event.value < |t.events| && row.offset < |t.code|
    ensures var event := t.events[row.event.value];
      && row.rip == event.rip == t.seed.rip + row.offset
      && (row.kind == Reached <==> event.kind == CompletedEvent)
      && (row.kind == FaultedRow <==> event.kind == FaultedEvent)
    ensures var decoded := d(row.rip, t.code[row.offset..]);
      if decoded.text != "" && 0 < decoded.length <= |t.code| - row.offset
      then row.text == decoded.text && row.length == decoded.length
      else row.text == "(bad)" && row.length == 1
  {
    BuildShape(t, d, 0, 0);
  }

  /** Every in-range event has its row. */
  lemma EventHasRow(t: Trace, d: Decoder, i: nat)
    requires Buildable(t) && i < |t.events| && InRange(t, t.events[i].rip)
    ensures EventRow(t, d, i) in History(t, d)
  {
    EventRowsReplay(t, d);
    InRangeFromContains(t, 0, i);
    EventRowsMembers(History(t, d), EventRow(t, d, i));
    var k :| 0 <= k < |InRangeFrom(t, 0)| && InRangeFrom(t, 0)[k] == i;
    assert EventRows(History(t, d))[k] == EventRow(t, d, i);
  }

  // ---------------------------------------------------------------- coverage

  /** Byte `b` lies in a row that the decoder gives some in-range event. */
  ghost predicate InEventRow(t: Trace, d: Decoder, starts: set<int>, b: int) {
    exists s :: s in starts && 0 <= s < |t.code| && s <= b < s + DecodeLength(t, d, s)
  }

  ghost predicate CoveredBy(rows: seq<Row>, b: int) {
    exists row :: row in rows && Covers(row, b)
  }

  lemma {:induction false} FillCovers(t: Trace, d: Decoder, starts: set<int>, from: nat, to: int, b: int)
    requires GapEnd(t, starts, to) && from <= b < to
    ensures CoveredBy(FillRows(t, d, starts, from, to), b) || InEventRow(t, d, starts, b)
    decreases if from < to then to - from else 0
  {
    var e := StaticEnd(t, d, starts, from);
    if b < e {
      if from in starts {
        assert from <= b < from + DecodeLength(t, d, from);
      } else {
        assert StaticRow(t, d, starts, from) in FillRows(t, d, starts, from, to) && Covers(StaticRow(t, d, starts, from), b);
      }
    } else {
      FillCovers(t, d, starts, e, to, b);
      if CoveredBy(FillRows(t, d, starts, e, to), b) {
        var row :| row in FillRows(t, d, starts, e, to) && Covers(row, b);
        assert row in FillRows(t, d, starts, from, to);
      }
    }
  }

  lemma {:induction false} BuildCovers(t: Trace, d: Decoder, i: nat, linear: nat, b: int)
    requires Buildable(t) && i <= |t.events| && linear <= b < |t.code|
    ensures CoveredBy(BuildFrom(t, d, i, linear), b) || InEventRow(t, d, Starts(t), b)
    decreases |t.events| - i
  {
    if i == |t.events| {
      FillCovers(t, d, Starts(t), linear, |t.code|, b);
    } else if !InRange(t, t.events[i].rip) {
      BuildCovers(t, d, i + 1, linear, b);
    } else {
      var o := EventOffset(t, i);
      var next := Max(linear, o + DecodeLength(t, d, o));
      if b < o {
        FillCovers(t, d, Starts(t), linear, o, b);
        CoveredInStep(FillRows(t, d, Starts(t), linear, o), EventRow(t, d, i), BuildFrom(t, d, i + 1, next), b);
      } else if b < next {
        assert o <= b < o + DecodeLength(t, d, o);
      } else {
        BuildCovers(t, d, i + 1, next, b);
        CoveredInStep(FillRows(t, d, Starts(t), linear, o), EventRow(t, d, i), BuildFrom(t, d, i + 1, next), b);
      }
    }
  }

  lemma CoveredInStep(fill: seq<Row>, row: Row, rest: seq<Row>, b: int)
    ensures CoveredBy(fill, b) || CoveredBy(rest, b) ==> CoveredBy(fill + [row] + rest, b)
  {
    if CoveredBy(fill, b) {
      var r :| r in fill && Covers(r, b);
      assert r in fill + [row] + rest;
    } else if CoveredBy(rest, b) {
      var r :| r in rest && Covers(r, b);
      assert r in fill + [row] + rest;
    }
  }

  /** Every input byte lies in some row, including the bytes that a gap skips because an event row has them. */
  lemma Coverage(t: Trace, d: Decoder, b: int)
    requires Buildable(t) && 0 <= b < |t.code|
    ensures CoveredBy(History(t, d), b)
  {
    BuildCovers(t, d, 0, 0, b);
    if InEventRow(t, d, Starts(t), b) {
      EventRowCovers(t, d, b);
    }
  }

  lemma EventRowCovers(t: Trace, d: Decoder, b: int)
    requires Buildable(t) && InEventRow(t, d, Starts(t), b)
    ensures exists row :: row in History(t, d) && Covers(row, b) && row.event.Some?
  {
    var s :| s in Starts(t) && 0 <= s < |t.code| && s <= b < s + DecodeLength(t, d, s);
    var i :| 0 <= i < |t.events| && InRange(t, t.events[i].rip) && t.events[i].rip - t.seed.rip == s;
    EventHasRow(t, d, i);
    assert Covers(EventRow(t, d, i), b);
  }

  /**
   * The history covers the input exactly when it can be built: an input that reaches the top of the address space
   * gets no rows.
   */
  lemma CoverageIff(t: Trace, d: Decoder)
    ensures Buildable(t) ==> forall b :: 0 <= b < |t.code| ==> CoveredBy(History(t, d), b)
    ensures !Buildable(t) ==> History(t, d) == []
  {
    if Buildable(t) {
      forall b | 0 <= b < |t.code| ensures CoveredBy(History(t, d), b) { Coverage(t, d, b); }
    }
  }

  // ---------------------------------------------------------------- exact partition

  /** No in-range event starts strictly inside the row of another. */
  ghost predicate NoNestedStart(t: Trace, d: Decoder, starts: set<int>) {
    forall a, s :: a in starts && s in starts && 0 <= a < |t.code| ==> !(a < s < a + DecodeLength(t, d, a))
  }

  /** Offset `x` is not strictly inside the row of any in-range event. */
  ghost predicate Free(t: Trace, d: Decoder, starts: set<int>, x: int) {
    forall a :: a in starts && 0 <= a < |t.code| ==> !(a < x < a + DecodeLength(t, d, a))
  }

  lemma StaticEndFree(t: Trace, d: Decoder, starts: set<int>, from: nat)
    requires NoNestedStart(t, d, starts) && from < |t.code| && Free(t, d, starts, from)
    ensures Free(t, d, starts, StaticEnd(t, d, starts, from))
  {
  }

  lemma {:induction false} FillStaticFree(t: Trace, d: Decoder, starts: set<int>, from: nat, to: int)
    requires (from < to ==> GapEnd(t, starts, to)) && NoNestedStart(t, d, starts) && Free(t, d, starts, from)
    ensures forall row :: row in FillRows(t, d, starts, from, to) ==> Free(t, d, starts, row.offset)
    decreases if from < to then to - from else 0
  {
    if from < to {
      StaticEndFree(t, d, starts, from);
      FillStaticFree(t, d, starts, StaticEnd(t, d, starts, from), to);
    }
  }

  lemma EventEndFree(t: Trace, d: Decoder, starts: set<int>, o: nat)
    requires NoNestedStart(t, d, starts) && o in starts && o < |t.code|
    ensures Free(t, d, starts, o + DecodeLength(t, d, o))
  {
  }

  lemma {:induction false} BuildStaticFree(t: Trace, d: Decoder, i: nat, linear: nat)
    requires Buildable(t) && i <= |t.events| && NoNestedStart(t, d, Starts(t)) && Free(t, d, Starts(t), linear)
    ensures forall row :: row in BuildFrom(t, d, i, linear) && row.event == None ==> Free(t, d, Starts(t), row.offset)
    decreases |t.events| - i
  {
    if i == |t.events| {
      FillStaticFree(t, d, Starts(t), linear, |t.code|);
    } else if !InRange(t, t.events[i].rip) {
      BuildStaticFree(t, d, i + 1, linear);
    } else {
      var o := EventOffset(t, i);
      FillStaticFree(t, d, Starts(t), linear, o);
      EventEndFree(t, d, Starts(t), o);
      BuildStaticFree(t, d, i + 1, Max(linear, o + DecodeLength(t, d, o)));
    }
  }

  /** The distinct byte ranges of the rows: repeated executions of one instruction share a range. */
  function Cells(rows: seq<Row>): set<(nat, nat)> {
    set row | row in rows :: (row.offset, row.length)
  }

  predicate Holds(cell: (nat, nat), b: int) {
    cell.0 <= b < cell.0 + cell.1
  }

  ghost predicate ExactlyOnce(rows: seq<Row>, b: int) {
    exists cell :: cell in Cells(rows) && Holds(cell, b) &&
      forall other :: other in Cells(rows) && Holds(other, b) ==> other == cell
  }

  /** Two rows that share a byte are the same range when no start is nested. */
  lemma SharedByte(t: Trace, d: Decoder, r: Row, s: Row, b: int)
    requires Buildable(t) && NoNestedStart(t, d, Starts(t))
    requires r in History(t, d) && s in History(t, d) && Covers(r, b) && Covers(s, b)
    ensures r.offset == s.offset && r.length == s.length
  {
    BuildShape(t, d, 0, 0);
    BuildAscending(t, d, 0, 0);
    BuildStaticFree(t, d, 0, 0);
    if r.event == None && s.event == None {
      var i :| 0 <= i < |History(t, d)| && History(t, d)[i] == r;
      var j :| 0 <= j < |History(t, d)| && History(t, d)[j] == s;
    } else if r.event.Some? && s.event.Some? {
      assert r.offset in Starts(t) && s.offset in Starts(t);
    }
  }

  /** The rows partition the input exactly when no in-range event starts strictly inside the row of another. */
  lemma ExactPartition(t: Trace, d: Decoder)
    requires Buildable(t)
    ensures NoNestedStart(t, d, Starts(t)) <==> forall b :: 0 <= b < |t.code| ==> ExactlyOnce(History(t, d), b)
  {
    if NoNestedStart(t, d, Starts(t)) {
      forall b | 0 <= b < |t.code| ensures ExactlyOnce(History(t, d), b) {
        OnceWhenNotNested(t, d, b);
      }
    } else {
      var a, s :| a in Starts(t) && s in Starts(t) && 0 <= a < |t.code| && a < s < a + DecodeLength(t, d, a);
      NestedTwice(t, d, a, s);
    }
  }

  lemma OnceWhenNotNested(t: Trace, d: Decoder, b: int)
    requires Buildable(t) && NoNestedStart(t, d, Starts(t)) && 0 <= b < |t.code|
    ensures ExactlyOnce(History(t, d), b)
  {
    Coverage(t, d, b);
    var row :| row in History(t, d) && Covers(row, b);
    var cell := (row.offset, row.length);
    assert cell in Cells(History(t, d)) && Holds(cell, b);
    forall other | other in Cells(History(t, d)) && Holds(other, b) ensures other == cell {
      var r :| r in History(t, d) && (r.offset, r.length) == other;
      SharedByte(t, d, row, r, b);
    }
  }

  lemma NestedTwice(t: Trace, d: Decoder, a: int, s: int)
    requires Buildable(t) && a in Starts(t) && s in Starts(t) && 0 <= a < |t.code| && a < s < a + DecodeLength(t, d, a)
    ensures 0 <= s < |t.code| && !ExactlyOnce(History(t, d), s)
  {
    var i :| 0 <= i < |t.events| && InRange(t, t.events[i].rip) && t.events[i].rip - t.seed.rip == a;
    var j :| 0 <= j < |t.events| && InRange(t, t.events[j].rip) && t.events[j].rip - t.seed.rip == s;
    EventHasRow(t, d, i);
    EventHasRow(t, d, j);
    var r, q := EventRow(t, d, i), EventRow(t, d, j);
    assert (r.offset, r.length) in Cells(History(t, d)) && Holds((r.offset, r.length), s);
    assert (q.offset, q.length) in Cells(History(t, d)) && Holds((q.offset, q.length), s);
  }

  // ---------------------------------------------------------------- size

  lemma {:induction false} FillSize(t: Trace, d: Decoder, starts: set<int>, from: nat, to: int)
    requires from < to ==> GapEnd(t, starts, to)
    ensures |FillRows(t, d, starts, from, to)| <= if from < to then to - from else 0
    decreases if from < to then to - from else 0
  {
    if from < to {
      FillSize(t, d, starts, StaticEnd(t, d, starts, from), to);
      StaticEndStaysBelow(t, d, starts, from, to);
    }
  }

  lemma {:induction false} BuildSize(t: Trace, d: Decoder, i: nat, linear: nat)
    requires Buildable(t) && i <= |t.events| && linear <= |t.code|
    ensures |BuildFrom(t, d, i, linear)| <= |t.code| - linear + |t.events| - i
    decreases |t.events| - i
  {
    if i == |t.events| {
      FillSize(t, d, Starts(t), linear, |t.code|);
    } else if !InRange(t, t.events[i].rip) {
      BuildSize(t, d, i + 1, linear);
    } else {
      var o := EventOffset(t, i);
      FillSize(t, d, Starts(t), linear, o);
      BuildSize(t, d, i + 1, Max(linear, o + DecodeLength(t, d, o)));
    }
  }

  /** A history has at most one row for each byte and each event, so 32-bit cursors hold every position of a bounded run. */
  lemma HistorySize(t: Trace, d: Decoder)
    ensures |History(t, d)| <= |t.code| + |t.events|
  {
    if Buildable(t) { BuildSize(t, d, 0, 0); }
  }

  // ---------------------------------------------------------------- instances

  const SEED_AT_1000: Registers := ZERO_REGISTERS.(rip := 0x1000)

  /** Two bytes that were run as one instruction and, from the second byte on, as another: the second byte is shown twice. */
  lemma NestedInstance()
    ensures var t := Trace([0xEB, 0xFF, 0xC0], SEED_AT_1000,
        [ExecutionEvent(0x1000, SEED_AT_1000, CompletedEvent), ExecutionEvent(0x1001, SEED_AT_1000, CompletedEvent)], false);
      var d: Decoder := (address, bytes) => Decoded("instruction", 2);
      Buildable(t) && !NoNestedStart(t, d, Starts(t)) && !ExactlyOnce(History(t, d), 1)
  {
    var t := Trace([0xEB, 0xFF, 0xC0], SEED_AT_1000,
      [ExecutionEvent(0x1000, SEED_AT_1000, CompletedEvent), ExecutionEvent(0x1001, SEED_AT_1000, CompletedEvent)], false);
    var d: Decoder := (address, bytes) => Decoded("instruction", 2);
    assert EventOffset(t, 0) == 0 && EventOffset(t, 1) == 1;
    assert DecodeLength(t, d, 0) == 2;
    NestedTwice(t, d, 0, 1);
  }
}

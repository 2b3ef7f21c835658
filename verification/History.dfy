/** Recorded executions and the rows that a decoder makes of them. */
module TraceModel {
  import opened Common
  import opened MachineState

  datatype EventKind = CompletedEvent | FaultedEvent

  datatype ExecutionEvent = ExecutionEvent(rip: u64, registers: Registers, kind: EventKind)

  datatype Trace = Trace(code: seq<u8>, seed: Registers, events: seq<ExecutionEvent>, instrumentationDetected: bool)

  /** What a decoder says about the bytes at an address. Any function of this type is allowed. */
  datatype Decoded = Decoded(text: string, length: nat)

  type Decoder = (int, seq<u8>) -> Decoded

  datatype RowKind = Reached | FaultedRow | NotReached | Data

  datatype Row = Row(rip: int, text: string, offset: nat, length: nat, kind: RowKind, event: Option<nat>)

  predicate IsStatic(row: Row) {
    row.kind == NotReached || row.kind == Data
  }

  predicate Covers(row: Row, b: int) {
    row.offset <= b < row.offset + row.length
  }

  /** The end address as the source computes it: unsigned 64-bit arithmetic wraps. */
  function CodeEnd(t: Trace): u64 {
    (t.seed.rip + |t.code|) % TWO_64
  }

  predicate InRange(t: Trace, rip: u64) {
    t.seed.rip <= rip < CodeEnd(t)
  }

  /** The input does not reach the top of the address space, and tracing was not refused. */
  predicate Buildable(t: Trace) {
    |t.code| > 0 && !t.instrumentationDetected && t.seed.rip + |t.code| < TWO_64
  }

  /** Offsets at which some in-range execution event starts, whenever it ran. */
  function Starts(t: Trace): set<int> {
    set i | 0 <= i < |t.events| && InRange(t, t.events[i].rip) :: t.events[i].rip - t.seed.rip
  }

  function EventOffset(t: Trace, i: nat): (o: nat)
    requires i < |t.events| && InRange(t, t.events[i].rip)
    ensures o in Starts(t)
  {
    t.events[i].rip - t.seed.rip
  }

  function Decode(t: Trace, d: Decoder, o: nat): Decoded
    requires o <= |t.code|
  {
    d(t.seed.rip + o, t.code[o..])
  }

  predicate Usable(t: Trace, d: Decoder, o: nat)
    requires o <= |t.code|
  {
    var decoded := Decode(t, d, o);
    decoded.text != "" && decoded.length != 0 && decoded.length <= |t.code| - o
  }

  /** A decode that is empty or too long becomes a one-byte "(bad)" row. */
  function DecodeLength(t: Trace, d: Decoder, o: nat): (n: nat)
    requires o < |t.code|
    ensures 1 <= n <= |t.code| - o
  {
    if Usable(t, d, o) then Decode(t, d, o).length else 1
  }

  function DecodeText(t: Trace, d: Decoder, o: nat): string
    requires o <= |t.code|
  {
    if Usable(t, d, o) then Decode(t, d, o).text else "(bad)"
  }
}

/** The rows of one decoder: recorded executions in order, with a linear sweep filling what was not reached. */
module HistorySpec {
  import opened Common
  import opened TraceModel

  /** The first event start in [a, boundary), or the boundary. */
  function FirstStart(starts: set<int>, a: int, boundary: int): (b: int)
    requires a <= boundary
    ensures a <= b <= boundary
    ensures b == boundary || b in starts
    ensures forall x :: a <= x < b ==> x !in starts
    decreases boundary - a
  {
    if a == boundary || a in starts then a else FirstStart(starts, a + 1, boundary)
  }

  /** Where a static decode that begins at `o` ends: at its own end, or before an event that starts inside it. */
  function StaticEnd(t: Trace, d: Decoder, starts: set<int>, o: nat): (e: nat)
    requires o < |t.code|
    ensures o < e <= |t.code|
  {
    FirstStart(starts, o + 1, o + DecodeLength(t, d, o))
  }

  function StaticRow(t: Trace, d: Decoder, starts: set<int>, o: nat): Row
    requires o < |t.code|
  {
    var length := StaticEnd(t, d, starts, o) - o;
    if length == DecodeLength(t, d, o)
    then Row(t.seed.rip + o, DecodeText(t, d, o), o, length, NotReached, None)
    else Row(t.seed.rip + o, "(data)", o, length, Data, None)
  }

  function EventRow(t: Trace, d: Decoder, i: nat): Row
    requires Buildable(t) && i < |t.events| && InRange(t, t.events[i].rip)
  {
    var o := EventOffset(t, i);
    var kind := if t.events[i].kind == CompletedEvent then Reached else FaultedRow;
    Row(t.events[i].rip, DecodeText(t, d, o), o, DecodeLength(t, d, o), kind, Some(i))
  }

  /** A gap is filled up to an event start or up to the end of the input. */
  predicate GapEnd(t: Trace, starts: set<int>, to: int) {
    to == |t.code| || (0 <= to < |t.code| && to in starts)
  }

  function FillRows(t: Trace, d: Decoder, starts: set<int>, from: nat, to: int): seq<Row>
    requires from < to ==> GapEnd(t, starts, to)
    decreases if from < to then to - from else 0
  {
    if from >= to then []
    else
      (if from in starts then [] else [StaticRow(t, d, starts, from)])
      + FillRows(t, d, starts, StaticEnd(t, d, starts, from), to)
  }

  /** The rows for events i, i + 1, ... when everything below `linear` has been visited. */
  function BuildFrom(t: Trace, d: Decoder, i: nat, linear: nat): seq<Row>
    requires Buildable(t) && i <= |t.events|
    decreases |t.events| - i
  {
    if i == |t.events| then FillRows(t, d, Starts(t), linear, |t.code|)
    else if !InRange(t, t.events[i].rip) then BuildFrom(t, d, i + 1, linear)
    else
      var o := EventOffset(t, i);
      FillRows(t, d, Starts(t), linear, o) + [EventRow(t, d, i)] + BuildFrom(t, d, i + 1, Max(linear, o
        + DecodeLength(t, d, o)))
  }

  function History(t: Trace, d: Decoder): seq<Row> {
    if Buildable(t) then BuildFrom(t, d, 0, 0) else []
  }
}

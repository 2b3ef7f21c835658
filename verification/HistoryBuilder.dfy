/** The loops that build a history, on absolute addresses and a visited bitmap as the program has them. */
module HistoryBuilder {
  import opened Common
  import opened TraceModel
  import opened HistorySpec

  /** The bitmap marks exactly the event starts. */
  ghost predicate Marks(t: Trace, eventAt: array<bool>, starts: set<int>)
    reads eventAt
  {
    eventAt.Length == |t.code| && forall o :: 0 <= o < |t.code| ==> (eventAt[o] <==> o in starts)
  }

  /** Unsigned wrap-around of the end address leaves no address in range. */
  lemma InRangeWithoutWrap(t: Trace, rip: u64)
    requires |t.code| < TWO_64
    ensures InRange(t, rip) ==> t.seed.rip + |t.code| < TWO_64 && CodeEnd(t) == t.seed.rip + |t.code|
    ensures t.seed.rip + |t.code| >= TWO_64 ==> CodeEnd(t) < t.seed.rip
  {
    if t.seed.rip + |t.code| >= TWO_64 {
      assert CodeEnd(t) == t.seed.rip + |t.code| - TWO_64;
    }
  }

  method MarkEvents(t: Trace) returns (eventAt: array<bool>)
    requires |t.code| < TWO_64
    ensures fresh(eventAt) && Marks(t, eventAt, Starts(t))
  {
    eventAt := new bool[|t.code|](_ => false);
    var i := 0;
    while i < |t.events|
      invariant 0 <= i <= |t.events|
      invariant forall o :: 0 <= o < |t.code| ==>
        (eventAt[o] <==> exists k :: 0 <= k < i && InRange(t, t.events[k].rip) && t.events[k].rip - t.seed.rip == o)
    {
      var rip := t.events[i].rip;
      InRangeWithoutWrap(t, rip);
      if InRange(t, rip) {
        eventAt[rip - t.seed.rip] := true;
      }
      i := i + 1;
    }
  }

  method DisasmAt(t: Trace, d: Decoder, rip: int) returns (row: Row)
    requires t.seed.rip <= rip < t.seed.rip + |t.code|
    ensures var o := rip - t.seed.rip;
      row == Row(rip, DecodeText(t, d, o), o, DecodeLength(t, d, o), NotReached, None)
  {
    var offset := rip - t.seed.rip;
    var available := |t.code| - offset;
    var decoded := d(rip, t.code[offset..]);
    if decoded.text != "" && decoded.length != 0 && decoded.length <= available {
      row := Row(rip, decoded.text, offset, decoded.length, NotReached, None);
    } else {
      row := Row(rip, "(bad)", offset, 1, NotReached, None);
    }
  }

  /**
   * Clamping the scan to the end of the gap changes nothing, because a gap ends at an event start or at the end of
   * the input.
   */
  lemma ScanClamped(starts: set<int>, a: int, boundary: int, to: int)
    requires a <= boundary && a <= to
    requires boundary <= to || to in starts
    ensures FirstStart(starts, a, boundary) == FirstStart(starts, a, Min(boundary, to))
  {
  }

  /** The scan for a later execution event that starts inside a static decode. */
  method SplitBoundary(t: Trace, eventAt: array<bool>, ghost starts: set<int>, from: int, next: int,
    to: int) returns (boundary: int)
    requires Marks(t, eventAt, starts) && GapEnd(t, starts, to - t.seed.rip)
    requires t.seed.rip <= from < next <= t.seed.rip + |t.code| && from < to
    ensures boundary - t.seed.rip == FirstStart(starts, from + 1 - t.seed.rip, next - t.seed.rip)
  {
    var base := t.seed.rip;
    boundary := Min(next, to);
    var address := from + 1;
    while address < boundary
      invariant from + 1 <= address <= boundary <= Min(next, to)
      invariant FirstStart(starts, from + 1 - base, Min(next, to) - base)
        == FirstStart(starts, address - base, boundary - base)
    {
      if eventAt[address - base] {
        boundary := address;
        break;
      }
      address := address + 1;
    }
    ScanClamped(starts, from + 1 - base, next - base, to - base);
  }

  lemma FillStep(t: Trace, d: Decoder, starts: set<int>, from: nat, to: int, rows: seq<Row>, longer: seq<Row>)
    requires from < to && GapEnd(t, starts, to)
    requires longer == if from in starts then rows else rows + [StaticRow(t, d, starts, from)]
    ensures rows + FillRows(t, d, starts, from, to) == longer + FillRows(t, d, starts, StaticEnd(t, d, starts, from), to)
  {
    hide StaticRow;
    var rest := FillRows(t, d, starts, StaticEnd(t, d, starts, from), to);
    var here := if from in starts then [] else [StaticRow(t, d, starts, from)];
    assert FillRows(t, d, starts, from, to) == here + rest;
    assert longer == rows + here;
  }

  /** The static row at `from`, cut before the first later event start. */
  method StaticRowAt(t: Trace, d: Decoder, eventAt: array<bool>, ghost starts: set<int>, from: int, to: int)
    returns (row: Row, next: int)
    requires Marks(t, eventAt, starts) && GapEnd(t, starts, to - t.seed.rip)
    requires t.seed.rip <= from < to
    ensures row == StaticRow(t, d, starts, from - t.seed.rip)
    ensures next == t.seed.rip + StaticEnd(t, d, starts, from - t.seed.rip)
    ensures from < next
  {
    row := DisasmAt(t, d, from);
    next := from + row.length;
    var boundary := SplitBoundary(t, eventAt, starts, from, next, to);
    if boundary != next {
      row := row.(text := "(data)", kind := Data, length := boundary - from);
      next := boundary;
    }
  }

  method FillGap(t: Trace, d: Decoder, eventAt: array<bool>, ghost starts: set<int>, first: int, to: int, rows: seq<Row>)
    returns (result: seq<Row>)
    requires Marks(t, eventAt, starts) && t.seed.rip <= first
    requires first < to ==> GapEnd(t, starts, to - t.seed.rip)
    ensures result == rows + FillRows(t, d, starts, first - t.seed.rip, to - t.seed.rip)
  {
    hide StaticRow, StaticEnd, GapEnd;
    var base := t.seed.rip;
    var from := first;
    ghost var goal := rows + FillRows(t, d, starts, first - base, to - base);
    result := rows;
    while from < to
      invariant base <= from
      invariant from < to ==> first < to
      invariant goal == result + FillRows(t, d, starts, from - base, to - base)
      decreases if from < to then to - from else 0
    {
      ghost var before := result;
      var row, next := StaticRowAt(t, d, eventAt, starts, from, to);
      if !eventAt[from - base] {
        result := result + [row];
      }
      FillStep(t, d, starts, from - base, to - base, before, result);
      from := next;
    }
  }

  /** One turn of the main loop appends the part of the specified history that belongs to event `i`. */
  lemma BuildStep(t: Trace, d: Decoder, i: nat, linear: nat, rows: seq<Row>, longer: seq<Row>)
    requires Buildable(t) && i < |t.events| && InRange(t, t.events[i].rip)
    requires var o := EventOffset(t, i);
      longer == rows + FillRows(t, d, Starts(t), linear, o) + [EventRow(t, d, i)]
    ensures var o := EventOffset(t, i);
      rows + BuildFrom(t, d, i, linear) == longer + BuildFrom(t, d, i + 1, Max(linear, o + DecodeLength(t, d, o)))
  {
    hide FillRows, EventRow;
  }

  lemma FillNothing(t: Trace, d: Decoder, starts: set<int>, from: nat, to: int)
    requires from >= to
    ensures FillRows(t, d, starts, from, to) == []
  {
  }

  /** The body of the main loop for an event inside the input. */
  method VisitEvent(t: Trace, d: Decoder, eventAt: array<bool>, i: nat, linear: int, rows: seq<Row>)
    returns (result: seq<Row>, next: int)
    requires Buildable(t) && Marks(t, eventAt, Starts(t)) && t.seed.rip <= linear
    requires i < |t.events| && InRange(t, t.events[i].rip)
    ensures t.seed.rip <= next
    ensures rows + BuildFrom(t, d, i, linear - t.seed.rip) == result + BuildFrom(t, d, i + 1, next - t.seed.rip)
  {
    hide FillRows, BuildFrom;
    var event := t.events[i];
    result := rows;
    if event.rip > linear {
      result := FillGap(t, d, eventAt, Starts(t), linear, event.rip, result);
    } else {
      FillNothing(t, d, Starts(t), linear - t.seed.rip, EventOffset(t, i));
    }
    assert result == rows + FillRows(t, d, Starts(t), linear - t.seed.rip, EventOffset(t, i));
    var row := DisasmAt(t, d, event.rip);
    row := row.(kind := if event.kind == CompletedEvent then Reached else FaultedRow, event := Some(i));
    next := Max(linear, event.rip + row.length);
    result := result + [row];
    assert row == EventRow(t, d, i);
    BuildStep(t, d, i, linear - t.seed.rip, rows, result);
  }

  lemma BuildSkip(t: Trace, d: Decoder, i: nat, linear: nat)
    requires Buildable(t) && i < |t.events| && !InRange(t, t.events[i].rip)
    ensures BuildFrom(t, d, i, linear) == BuildFrom(t, d, i + 1, linear)
  {
  }

  lemma BuildEnd(t: Trace, d: Decoder, linear: nat)
    requires Buildable(t)
    ensures BuildFrom(t, d, |t.events|, linear) == FillRows(t, d, Starts(t), linear, |t.code|)
  {
  }

  /** The rows that the program computes for one decoder are the specified history, wrap-around included. */
  method BuildHistory(t: Trace, d: Decoder) returns (result: seq<Row>)
    requires |t.code| < TWO_64
    ensures result == History(t, d)
  {
    result := [];
    if |t.code| == 0 || t.instrumentationDetected {
      return;
    }
    hide BuildFrom, FillRows, Marks;
    var base := t.seed.rip;
    var codeEnd := CodeEnd(t);
    var eventAt := MarkEvents(t);
    var linear: int := base;
    var i := 0;
    InRangeWithoutWrap(t, 0);
    while i < |t.events|
      invariant 0 <= i <= |t.events|
      invariant base <= linear
      invariant Marks(t, eventAt, Starts(t))
      invariant Buildable(t) ==> History(t, d) == result + BuildFrom(t, d, i, linear - base)
      invariant !Buildable(t) ==> result == [] && linear == base
    {
      InRangeWithoutWrap(t, t.events[i].rip);
      if InRange(t, t.events[i].rip) {
        result, linear := VisitEvent(t, d, eventAt, i, linear, result);
      } else if Buildable(t) {
        BuildSkip(t, d, i, linear - base);
      }
      i := i + 1;
    }
    if Buildable(t) {
      BuildEnd(t, d, linear - base);
    } else {
      FillNothing(t, d, Starts(t), linear - base, codeEnd - base);
    }
    result := FillGap(t, d, eventAt, Starts(t), linear, codeEnd, result);
  }
}

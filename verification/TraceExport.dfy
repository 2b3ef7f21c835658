/** The offsets that the trace export gives to events, against the offsets of the rows that a history shows. */
module TraceExport {
  import opened Common
  import opened MachineState
  import opened TraceModel
  import opened HistorySpec
  import opened HistoryProofs
  import opened HistoryBuilder

  function RelativeOffset(t: Trace, rip: u64): Option<nat> {
    if rip < t.seed.rip || rip - t.seed.rip >= |t.code| then None else Some(rip - t.seed.rip)
  }

  /**
   * The export and the histories agree on which addresses lie in the input exactly when the end of the input does not
   * wrap: the export compares offsets, a history compares with an end address that wraps around.
   */
  lemma OffsetsAgree(t: Trace)
    requires |t.code| < TWO_64
    ensures (forall rip: u64 :: RelativeOffset(t, rip).Some? <==> InRange(t, rip)) <==> t.seed.rip + |t.code| < TWO_64
  {
    if t.seed.rip + |t.code| >= TWO_64 {
      InRangeWithoutWrap(t, t.seed.rip);
      assert RelativeOffset(t, t.seed.rip).Some? && !InRange(t, t.seed.rip);
    }
  }

  /** Every event row of every decoder stands at the offset that the export gives to its event. */
  lemma ExportedOffset(t: Trace, d: Decoder, row: Row)
    requires row in History(t, d) && row.event.Some?
    ensures row.event.value < |t.events| && RelativeOffset(t, t.events[row.event.value].rip) == Some(row.offset)
  {
    BuildShape(t, d, 0, 0);
  }

  /**
   * A one-byte input at the very top of the address space: its event is exported with an offset, and no history shows
   * it.
   */
  lemma WrapInstance(d: Decoder)
    ensures var seed := ZERO_REGISTERS.(rip := TWO_64 - 1);
      var t := Trace([0x90], seed, [ExecutionEvent(TWO_64 - 1, seed, CompletedEvent)], false);
      RelativeOffset(t, t.events[0].rip) == Some(0) && History(t, d) == []
  {
    CoverageIff(Trace([0x90], ZERO_REGISTERS.(rip := TWO_64 - 1),
      [ExecutionEvent(TWO_64 - 1, ZERO_REGISTERS.(rip := TWO_64 - 1), CompletedEvent)], false), d);
  }
}

/**
  The bounded Netlink response buffer. Every session view has the same size,
  so the capacity is counted in records: the negotiated maximum response size
  divided by the size of one view.
 */
module NlBuffer {
  import opened SessionTypes

  /** The positive code a write returns when the record does not fit. */
  const WRITE_FULL: int := 1

  datatype Buffer = Buffer(capacity: nat, records: seq<SessionView>, pending: bool) {
    predicate Valid() {
      |records| <= capacity
    }
  }

  datatype WriteOutcome = WriteOutcome(code: int, buffer: Buffer)

  /** A freshly initialised response buffer. */
  function EmptyBuffer(capacity: nat): (b: Buffer)
    ensures b.Valid() && b.records == [] && !b.pending && b.capacity == capacity
  {
    Buffer(capacity, [], false)
  }

  /**
    Appends one view when it fits; otherwise reports "full" and leaves the
    buffer exactly as it was (no partial write).
   */
  function Write(b: Buffer, v: SessionView): (w: WriteOutcome)
    requires b.Valid()
    ensures w.buffer.Valid()
    ensures w.code == 0 <==> |b.records| < b.capacity
    ensures w.code == 0 ==> w.buffer == b.(records := b.records + [v])
    ensures w.code != 0 ==> w.code > 0 && w.buffer == b
  {
    if |b.records| + 1 > b.capacity then WriteOutcome(WRITE_FULL, b)
    else WriteOutcome(0, b.(records := b.records + [v]))
  }

  function SetPendingData(b: Buffer, pending: bool): (r: Buffer)
    ensures r.records == b.records && r.capacity == b.capacity && r.pending == pending
  {
    b.(pending := pending)
  }
}

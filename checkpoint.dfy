/**
 * The checkpoint cell: the object at pubky://<pk>/pub/pubky.app/last_read,
 * holding a `LastRead { timestamp }` record as JSON. The cell is modelled by
 * its decoded value: `Some(t)` when it holds a LastRead record with timestamp
 * `t`, `None` when the object is absent or holds anything else.
 */
module Checkpoint {
  import opened Prelude
  import opened Faults

  /**
   * How one GET of the cell turns out: it sees the current value, it sees
   * some other value (the store lags behind a write), or the request fails.
   */
  datatype ReadIo = Consistent | Stale(seen: Option<I64>) | Unreachable

  /** `get_last_read`: the timestamp of the record read, or why there is none. */
  function ReadLastRead(cell: Option<I64>, io: ReadIo): (r: Result<I64, Fault>)
    ensures io.Unreachable? ==> r == Err(Error(CheckpointUnreachable))
    ensures io.Consistent? ==> (r.Ok? <==> cell.Some?) && (r.Ok? ==> r.value == cell.value)
    ensures io.Stale? ==> (r.Ok? <==> io.seen.Some?) && (r.Ok? ==> r.value == io.seen.value)
    ensures r.Err? ==> r.error.Error? && r.error.failure in {CheckpointUnreachable, CheckpointUnreadable}
  {
    match io
    case Unreachable => Err(Error(CheckpointUnreachable))
    case Consistent => if cell.Some? then Ok(cell.value) else Err(Error(CheckpointUnreadable))
    case Stale(seen) => if seen.Some? then Ok(seen.value) else Err(Error(CheckpointUnreadable))
  }

  /** `update_last_read`: the cell after a PUT of `LastRead { timestamp: t }` that did or did not go through. */
  function WriteLastRead(cell: Option<I64>, t: I64, putOk: bool): (c: Option<I64>)
    ensures putOk ==> ReadLastRead(c, Consistent) == Ok(t)
    ensures !putOk ==> c == cell
  {
    if putOk then Some(t) else cell
  }
}

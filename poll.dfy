/**
 * The polling loop of `main`: run a tick, log an `Err` and go on, sleep,
 * repeat. The loop never ends by itself; the model follows it through any
 * finite number of ticks. A panic is not an `Err` and is not caught: it ends
 * the process, and with it the loop.
 */
module Polling {
  import opened Prelude
  import opened Faults
  import opened Checkpoint
  import opened Ticks

  /** The store and the loop after some ticks: the checkpoint cell, every reply written, the ticks run, and the panic that ended the loop, if any. */
  datatype PollState = PollState(cell: Option<I64>, writes: seq<PostWrite>, ticks: nat, panic: Option<PanicKind>)

  /** The checkpoint cell after a tick: the checkpoint PUT, when the tick made one that went through. */
  function CellAfter(cell: Option<I64>, t: TickResult): (c: Option<I64>)
    ensures t.checkpoint.Some? ==> ReadLastRead(c, Consistent) == Ok(t.checkpoint.value)
    ensures t.checkpoint.None? ==> c == cell
  {
    if t.checkpoint.Some? then WriteLastRead(cell, t.checkpoint.value, true) else cell
  }

  /**
   * One turn of the loop: a tick whose `Err`, if any, is only logged. The
   * tick's replies are added to the log, and the loop records a panic
   * exactly when the tick panics.
   */
  function PollStep(pk: string, s: PollState, io: TickIo): (r: PollState)
    ensures var t := Tick(pk, s.cell, io);
      && r.writes == s.writes + t.writes && r.ticks == s.ticks + 1
      && (t.checkpoint.Some? ==> ReadLastRead(r.cell, Consistent) == Ok(t.checkpoint.value))
      && (t.checkpoint.None? ==> r.cell == s.cell)
      && (r.panic.Some? <==> t.outcome.Aborted? && t.outcome.fault.Panic?)
      && (r.panic.Some? ==> r.panic == Some(t.outcome.fault.kind))
  {
    var t := Tick(pk, s.cell, io);
    PollState(CellAfter(s.cell, t), s.writes + t.writes, s.ticks + 1,
      if t.outcome.Aborted? && t.outcome.fault.Panic? then Some(t.outcome.fault.kind) else None)
  }

  /**
   * The loop from state `s` through the ticks whose calls turn out as
   * `ticks` says, until a panic ends it. Replies once written stay written,
   * and every tick runs unless a panic ends the loop.
   */
  function PollFrom(pk: string, s: PollState, ticks: seq<TickIo>): (r: PollState)
    ensures s.writes <= r.writes
    ensures s.ticks <= r.ticks && (s.panic.None? ==> r.ticks <= s.ticks + |ticks|)
    ensures r.panic.None? ==> r.ticks == s.ticks + |ticks|
    decreases |ticks|
  {
    if ticks == [] || s.panic.Some? then s
    else PollFrom(pk, PollStep(pk, s, ticks[0]), ticks[1..])
  }

  /**
   * The loop as `main` starts it, on a store whose checkpoint cell is
   * `cell`: it runs every tick, unless a panic ends it after the tick that
   * panicked.
   */
  function Poll(pk: string, cell: Option<I64>, ticks: seq<TickIo>): (r: PollState)
    ensures r.ticks <= |ticks|
    ensures r.panic.None? ==> r.ticks == |ticks|
    ensures r.panic.Some? ==> 0 < r.ticks
  {
    PollFrom(pk, PollState(cell, [], 0, None), ticks)
  }

  /** Running the loop through `a` and then through `b` is running it through `a + b`. */
  lemma {:induction false} PollSplit(pk: string, s: PollState, a: seq<TickIo>, b: seq<TickIo>)
    ensures PollFrom(pk, s, a + b) == PollFrom(pk, PollFrom(pk, s, a), b)
    decreases |a|
  {
    if a == [] {
      assert a + b == b;
    } else if s.panic.None? {
      assert (a + b)[1..] == a[1..] + b;
      PollSplit(pk, PollStep(pk, s, a[0]), a[1..], b);
    }
  }

  /** After a panic, later ticks never run. */
  lemma PanicEndsPolling(pk: string, cell: Option<I64>, ticks: seq<TickIo>, i: nat)
    requires i <= |ticks| && Poll(pk, cell, ticks[..i]).panic.Some?
    ensures Poll(pk, cell, ticks) == Poll(pk, cell, ticks[..i])
  {
    assert ticks == ticks[..i] + ticks[i..];
    PollSplit(pk, PollState(cell, [], 0, None), ticks[..i], ticks[i..]);
  }

  /**
   * A tick that panics ends the loop: the loop records its panic, and no
   * later tick runs.
   */
  lemma TickPanicEndsPolling(pk: string, cell: Option<I64>, ticks: seq<TickIo>, io: TickIo, rest: seq<TickIo>)
    requires Poll(pk, cell, ticks).panic.None?
    requires Tick(pk, Poll(pk, cell, ticks).cell, io).outcome.Aborted?
    requires Tick(pk, Poll(pk, cell, ticks).cell, io).outcome.fault.Panic?
    ensures Poll(pk, cell, ticks + [io]).panic == Some(Tick(pk, Poll(pk, cell, ticks).cell, io).outcome.fault.kind)
    ensures Poll(pk, cell, ticks + [io] + rest) == Poll(pk, cell, ticks + [io])
  {
    PollSplit(pk, PollState(cell, [], 0, None), ticks, [io]);
    PollSplit(pk, PollState(cell, [], 0, None), ticks + [io], rest);
  }

  /**
   * A tick that returns an `Err` is contained: the loop goes on to the next
   * tick, and the replies it wrote before the error stay written. The cell
   * keeps its value unless the error is a failed re-read of a checkpoint the
   * tick had already written.
   */
  lemma ErrorIsContained(pk: string, cell: Option<I64>, ticks: seq<TickIo>, io: TickIo)
    requires Poll(pk, cell, ticks).panic.None?
    requires Tick(pk, Poll(pk, cell, ticks).cell, io).outcome.Aborted?
    requires Tick(pk, Poll(pk, cell, ticks).cell, io).outcome.fault.Error?
    ensures var s, t := Poll(pk, cell, ticks), Tick(pk, Poll(pk, cell, ticks).cell, io);
      && Poll(pk, cell, ticks + [io]) == PollState(CellAfter(s.cell, t), s.writes + t.writes, |ticks| + 1, None)
      && (Poll(pk, cell, ticks + [io]).cell != s.cell ==> t.checkpoint.Some? && ReadLastRead(t.checkpoint, io.reread).Err?)
  {
    PollSplit(pk, PollState(cell, [], 0, None), ticks, [io]);
    TickGuarantees(pk, Poll(pk, cell, ticks).cell, io);
  }

  /**
   * While every tick's first read sees the cell's current value, the
   * checkpoint never moves back.
   */
  lemma {:induction false} ConsistentPollNeverRewinds(pk: string, s: PollState, ticks: seq<TickIo>)
    requires forall k | 0 <= k < |ticks| :: ticks[k].firstRead.Consistent?
    requires s.cell.Some?
    ensures PollFrom(pk, s, ticks).cell.Some? && PollFrom(pk, s, ticks).cell.value >= s.cell.value
    decreases |ticks|
  {
    if ticks != [] && s.panic.None? {
      if Tick(pk, s.cell, ticks[0]).checkpoint.Some? {
        ConsistentTickAdvances(pk, s.cell, ticks[0]);
      }
      var rest := ticks[1..];
      assert forall k | 0 <= k < |rest| :: rest[k] == ticks[k + 1];
      ConsistentPollNeverRewinds(pk, PollStep(pk, s, ticks[0]), rest);
    }
  }

  /**
   * When last_read holds no LastRead record (as before the first checkpoint
   * is ever written) and reads see the store as it is, every tick fails on
   * reading it: the bot answers nothing and the cell stays empty.
   */
  lemma {:induction false} MissingCheckpointStalls(pk: string, writes: seq<PostWrite>, n: nat, ticks: seq<TickIo>)
    requires forall k | 0 <= k < |ticks| :: ticks[k].firstRead.Consistent?
    ensures PollFrom(pk, PollState(None, writes, n, None), ticks) == PollState(None, writes, n + |ticks|, None)
    decreases |ticks|
  {
    if ticks != [] {
      var rest := ticks[1..];
      assert forall k | 0 <= k < |rest| :: rest[k] == ticks[k + 1];
      assert writes + [] == writes;
      MissingCheckpointStalls(pk, writes, n + 1, rest);
    }
  }
}

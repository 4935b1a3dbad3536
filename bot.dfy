/**
 * The bot's side of the store, written the way `check_notifications` and the
 * polling loop of `main` work: a `for` loop over the fetched records with a
 * mutable `last_timestamp`, early returns where the source uses `?`, and PUTs
 * that change the store as they go. Each method is proved to do what the
 * functions of modules Checkpoint, Ticks and Polling say.
 */
module Bot {
  import opened Prelude
  import opened Faults
  import opened Generation
  import opened Notifications
  import opened Checkpoint
  import opened Ticks
  import opened Polling

  /** The objects under pubky://<pk>/pub/pubky.app/ that the core reads and writes. */
  class Store {
    /** The last_read object, decoded: `None` when absent or not a LastRead record. */
    var lastRead: Option<I64>
    /** The replies PUT under posts/, in the order they were written. */
    var posts: seq<PostWrite>

    constructor (cell: Option<I64>)
      ensures lastRead == cell && posts == []
    {
      lastRead := cell;
      posts := [];
    }

    /** `get_last_read`: GET the object (the response is what `io` says the store shows), then decode it. */
    method GetLastRead(io: ReadIo) returns (r: Result<I64, Fault>)
      ensures r == ReadLastRead(lastRead, io)
    {
      if io.Unreachable? {
        return Err(Error(CheckpointUnreachable));
      }
      var body := if io.Consistent? then lastRead else io.seen;
      if body.None? {
        return Err(Error(CheckpointUnreadable));
      }
      r := Ok(body.value);
    }

    /** `update_last_read`: PUT `LastRead { timestamp: t }`; `putOk` says whether the PUT goes through. */
    method UpdateLastRead(t: I64, putOk: bool) returns (ok: bool)
      modifies this`lastRead
      ensures ok == putOk
      ensures lastRead == WriteLastRead(old(lastRead), t, putOk)
    {
      if putOk {
        lastRead := Some(t);
      }
      ok := putOk;
    }

    /**
     * The mention branch of the dispatch: fetch the post, generate the reply,
     * PUT it under posts/ with the mentioning post as parent.
     */
    method ReplyToMention(pk: string, parent: string, io: MentionIo) returns (r: Result<PostWrite, Fault>)
      modifies this`posts
      ensures r == Reply(pk, parent, io)
      ensures posts == old(posts) + if r.Ok? then [r.value] else []
    {
      if io.post.None? {
        return Err(Error(PostUnavailable));
      }
      var response := GenerateResponse(io.completion);
      if response.Err? {
        return Err(response.error);
      }
      var w := PostWrite(PostPath(pk, io.postId), Post(response.value, Short, Some(parent)));
      if !io.publishOk {
        return Err(Error(PublishFailed));
      }
      posts := posts + [w];
      r := Ok(w);
    }

    /** `check_notifications`: one tick. */
    method CheckNotifications(pk: string, io: TickIo) returns (outcome: Outcome)
      modifies this
      ensures var t := Tick(pk, old(lastRead), io);
        && posts == old(posts) + t.writes
        && lastRead == CellAfter(old(lastRead), t)
        && outcome == t.outcome
    {
      var read := GetLastRead(io.firstRead);
      if read.Err? {
        return Aborted(read.error);
      }
      var lastReadValue := read.value;
      if io.feed.None? {
        return Aborted(Error(FeedUnavailable));
      }
      var batch := io.feed.value;
      var lastTimestamp := lastReadValue;
      ghost var start := posts;
      for i := 0 to |batch|
        invariant lastRead == old(lastRead)
        invariant Run(pk, lastReadValue, batch[..i]).halt.None?
        invariant posts == start + Run(pk, lastReadValue, batch[..i]).writes
        invariant lastTimestamp == Run(pk, lastReadValue, batch[..i]).last
      {
        assert batch[..i + 1][..i] == batch[..i];
        var halt;
        lastTimestamp, halt := HandleNotification(pk, lastReadValue, batch[i], lastTimestamp, start, Run(pk, lastReadValue, batch[..i]));
        if halt.Some? {
          HaltIsFinal(pk, lastReadValue, batch, i + 1);
          return Aborted(halt.value);
        }
      }
      assert batch[..|batch|] == batch;
      outcome := Settle(lastReadValue, lastTimestamp, io);
    }

    /**
     * The body of the `for` loop of `check_notifications`: skip a record not
     * newer than the checkpoint, route the others by type (answering the
     * answerable mentions), and raise `last_timestamp` to the record's.
     * `p` is the loop's progress so far and `start` the posts before the loop.
     */
    method HandleNotification(pk: string, lastReadValue: I64, d: Delivery, lastTimestamp: I64,
                              ghost start: seq<PostWrite>, ghost p: Progress)
      returns (last: I64, halt: Option<Fault>)
      requires p.halt.None? && p.last == lastTimestamp && posts == start + p.writes
      modifies this`posts
      ensures var q := Step(pk, lastReadValue, p, d);
        posts == start + q.writes && last == q.last && halt == q.halt
    {
      last, halt := lastTimestamp, None;
      if d.note.timestamp > lastReadValue {
        var body := d.note.body;
        if body.kind == "mention" {
          if body.mentionedBy.Some? && body.postUri.Some? {
            var r := ReplyToMention(pk, body.postUri.value, d.io);
            if r.Err? {
              return last, Some(r.error);
            }
          }
        } else if body.kind == "follow" {
          // only logged
        } else {
          // only logged
        }
        if d.note.timestamp > last {
          last := d.note.timestamp;
        }
      }
    }

    /** The end of `check_notifications`: advance last_read past the newest record seen, then re-read it. */
    method Settle(lastReadValue: I64, lastTimestamp: I64, io: TickIo) returns (outcome: Outcome)
      modifies this`lastRead
      ensures var t := Ticks.Settle(lastReadValue, Progress(posts, lastTimestamp, None), io);
        && lastRead == CellAfter(old(lastRead), t)
        && outcome == t.outcome
    {
      if lastTimestamp > lastReadValue {
        if lastTimestamp == I64Max {
          return Aborted(Panic(CheckpointOverflow));
        }
        var written := UpdateLastRead(lastTimestamp + 1, io.writeOk);
        if !written {
          return Aborted(Error(CheckpointWriteFailed));
        }
        var reread := GetLastRead(io.reread);
        if reread.Err? {
          return Aborted(reread.error);
        }
        outcome := Completed(reread.value != lastTimestamp + 1);
      } else {
        outcome := Completed(false);
      }
    }

    /**
     * The polling loop, through the ticks whose calls turn out as `ticks`
     * says: an `Err` is logged and the next tick runs; a panic ends the loop.
     * `ran` counts the ticks that ran.
     */
    method PollNotifications(pk: string, ticks: seq<TickIo>) returns (ran: nat, panic: Option<PanicKind>)
      modifies this
      ensures var s := Poll(pk, old(lastRead), ticks);
        && lastRead == s.cell
        && posts == old(posts) + s.writes
        && ran == s.ticks
        && panic == s.panic
    {
      ran, panic := 0, None;
      ghost var start := posts;
      ghost var goal := Poll(pk, lastRead, ticks);
      while ran < |ticks| && panic.None?
        invariant ran <= |ticks| && |start| <= |posts| && posts[..|start|] == start
        invariant goal == PollFrom(pk, PollState(lastRead, posts[|start|..], ran, panic), ticks[ran..])
      {
        ghost var mid := posts;
        var outcome := CheckNotifications(pk, ticks[ran]);
        assert posts[|start|..] == mid[|start|..] + posts[|mid|..];
        assert ticks[ran..][1..] == ticks[ran + 1..];
        if outcome.Aborted? && outcome.fault.Panic? {
          panic := Some(outcome.fault.kind);
        }
        ran := ran + 1;
      }
      assert posts == start + posts[|start|..];
    }
  }
}

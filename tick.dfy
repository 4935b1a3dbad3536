/**
 * One tick of `check_notifications`, as a function of the checkpoint cell and
 * of how every call the tick makes turns out. The imperative loop in module
 * Bot is proved to do exactly this; the properties of a tick are proved here.
 */
module Ticks {
  import opened Prelude
  import opened Faults
  import opened Utf8
  import opened Generation
  import opened Notifications
  import opened Checkpoint

  datatype PostKind = Short

  /** A PubkyAppPost as the bot writes it (no embed, no attachments). */
  datatype Post = Post(content: seq<byte>, kind: PostKind, parent: Option<string>)

  /** A PUT of a post: where it goes and what it holds. */
  datatype PostWrite = PostWrite(path: string, post: Post)

  /** Where a reply is stored; `id` is the text of `Timestamp::now()`. */
  function PostPath(pk: string, id: string): string {
    "pubky://" + pk + "/pub/pubky.app/posts/" + id
  }

  /**
   * How the calls made to answer one mention turn out: the post's content
   * (None: the GET failed or the object is not a post), the completion
   * service's answer, the creation timestamp of the reply, and whether the
   * PUT of the reply goes through.
   */
  datatype MentionIo = MentionIo(post: Option<seq<byte>>, completion: Completion, postId: string, publishOk: bool)

  /** A fetched record together with how the calls made on its behalf turn out. */
  datatype Delivery = Delivery(note: Notification, io: MentionIo)

  /**
   * How the calls of one tick turn out: the first GET of last_read, the feed
   * request (None: the nexus URL is unset, the request failed or the JSON did
   * not decode), the PUT of the new checkpoint, and the GET that re-reads it.
   */
  datatype TickIo = TickIo(firstRead: ReadIo, feed: Option<seq<Delivery>>, writeOk: bool, reread: ReadIo)

  /**
   * Answering one mention: fetch the post, generate a reply and PUT it as a
   * post whose parent is the mentioning post. The first call that fails
   * ends the tick.
   */
  function Reply(pk: string, parent: string, io: MentionIo): (r: Result<PostWrite, Fault>)
    ensures io.post.None? ==> r == Err(Error(PostUnavailable))
    ensures r.Ok? <==> io.post.Some? && GenerateResponse(io.completion).Ok? && io.publishOk
    ensures r.Ok? ==> r.value.path == PostPath(pk, io.postId)
    ensures r.Ok? ==> r.value.post.parent == Some(parent) && r.value.post.kind == Short
    ensures io.post.Some? && GenerateResponse(io.completion).Err? ==> r == Err(GenerateResponse(io.completion).error)
    ensures io.post.Some? && GenerateResponse(io.completion).Ok? && !io.publishOk ==> r == Err(Error(PublishFailed))
    ensures r.Ok? ==> r.value.post.content == GenerateResponse(io.completion).value
    ensures r.Ok? ==> |r.value.post.content| <= MaxReplyBytes
    ensures r.Ok? ==> io.completion.Choices? && r.value.post.content <= io.completion.contents[0]
  {
    if io.post.None? then Err(Error(PostUnavailable))
    else
      match GenerateResponse(io.completion)
      case Err(f) => Err(f)
      case Ok(text) =>
        if io.publishOk then Ok(PostWrite(PostPath(pk, io.postId), Post(text, Short, Some(parent))))
        else Err(Error(PublishFailed))
  }

  /**
   * The loop's state after a prefix of the batch: the replies written so far,
   * the local `last_timestamp`, and the fault that ended the loop, if any.
   */
  datatype Progress = Progress(writes: seq<PostWrite>, last: I64, halt: Option<Fault>)

  /**
   * One iteration of the `for` loop. A record not newer than the checkpoint,
   * or any record after a fault, changes nothing. Only an answerable mention
   * writes a reply or ends the loop; every other newer record only raises
   * `last_timestamp`.
   */
  function Step(pk: string, lastRead: I64, p: Progress, d: Delivery): (q: Progress)
    ensures p.halt.Some? || !IsNewer(lastRead, d) ==> q == p
    ensures p.halt.None? && IsNewer(lastRead, d) && !IsAnswerable(d.note.body) ==>
      q == Progress(p.writes, Max(p.last, d.note.timestamp), None)
    ensures p.halt.None? && IsNewer(lastRead, d) && IsAnswerable(d.note.body) ==>
      var r := Reply(pk, d.note.body.postUri.value, d.io);
      && (r.Ok? ==> q == Progress(p.writes + [r.value], Max(p.last, d.note.timestamp), None))
      && (r.Err? ==> q == p.(halt := Some(r.error)))
  {
    var ts := d.note.timestamp;
    if p.halt.Some? || ts <= lastRead then p
    else
      match Classify(d.note.body)
      case ReplyTo(parent) =>
        (match Reply(pk, parent, d.io)
         case Err(f) => p.(halt := Some(f))
         case Ok(w) => Progress(p.writes + [w], Max(p.last, ts), None))
      case _ => p.(last := Max(p.last, ts))
  }

  /**
   * The loop over the batch, in the order received. `last_timestamp` never
   * drops below the checkpoint, and each record writes at most one reply.
   */
  function Run(pk: string, lastRead: I64, batch: seq<Delivery>): (r: Progress)
    ensures lastRead <= r.last && |r.writes| <= |batch|
    decreases |batch|
  {
    if batch == [] then Progress([], lastRead, None)
    else Step(pk, lastRead, Run(pk, lastRead, batch[..|batch| - 1]), batch[|batch| - 1])
  }

  // ---------------------------------------------------------------------------
  // Reference definitions: what the loop is meant to compute, stated directly
  // on the records.

  predicate IsNewer(lastRead: I64, d: Delivery) {
    d.note.timestamp > lastRead
  }

  /** The records newer than the checkpoint, in the order received. */
  function Newer(lastRead: I64, batch: seq<Delivery>): (r: seq<Delivery>)
    ensures |r| <= |batch|
    ensures forall k | 0 <= k < |r| :: IsNewer(lastRead, r[k]) && r[k] in batch
    decreases |batch|
  {
    if batch == [] then []
    else
      var d := batch[|batch| - 1];
      Newer(lastRead, batch[..|batch| - 1]) + if IsNewer(lastRead, d) then [d] else []
  }

  /** The records the tick should answer: every newer answerable mention, in the order received. */
  function ReplyTargets(lastRead: I64, batch: seq<Delivery>): (r: seq<Delivery>)
    ensures forall k | 0 <= k < |r| :: IsNewer(lastRead, r[k]) && IsAnswerable(r[k].note.body) && r[k] in batch
    decreases |batch|
  {
    if batch == [] then []
    else
      var d := batch[|batch| - 1];
      ReplyTargets(lastRead, batch[..|batch| - 1]) +
        if IsNewer(lastRead, d) && IsAnswerable(d.note.body) then [d] else []
  }

  // ---------------------------------------------------------------------------
  // Properties of the loop.

  /** Once a fault ends the loop, the rest of the batch changes nothing. */
  lemma {:induction false} HaltIsFinal(pk: string, lastRead: I64, batch: seq<Delivery>, i: nat)
    requires i <= |batch| && Run(pk, lastRead, batch[..i]).halt.Some?
    ensures Run(pk, lastRead, batch) == Run(pk, lastRead, batch[..i])
    decreases |batch|
  {
    if i < |batch| {
      var init := batch[..|batch| - 1];
      assert init[..i] == batch[..i];
      HaltIsFinal(pk, lastRead, init, i);
    } else {
      assert batch[..i] == batch;
    }
  }

  /** Records not newer than the checkpoint have no effect: the loop over the batch equals the loop over its newer records. */
  lemma {:induction false} OlderRecordsIgnored(pk: string, lastRead: I64, batch: seq<Delivery>)
    ensures Run(pk, lastRead, batch) == Run(pk, lastRead, Newer(lastRead, batch))
    decreases |batch|
  {
    if batch != [] {
      var init, d := batch[..|batch| - 1], batch[|batch| - 1];
      OlderRecordsIgnored(pk, lastRead, init);
      var n := Newer(lastRead, init);
      if IsNewer(lastRead, d) {
        assert (n + [d])[..|n + [d]| - 1] == n;
      } else {
        assert n + [] == n;
      }
    }
  }

  /**
   * Unless a fault ends it, the loop leaves in `last_timestamp` the largest
   * timestamp among the newer records, or the checkpoint when there is none.
   */
  lemma {:induction false} RunTracksNewest(pk: string, lastRead: I64, batch: seq<Delivery>)
    requires Run(pk, lastRead, batch).halt.None?
    ensures var last := Run(pk, lastRead, batch).last;
      && last >= lastRead
      && (forall k | 0 <= k < |batch| && IsNewer(lastRead, batch[k]) :: batch[k].note.timestamp <= last)
      && (last == lastRead <==> forall k | 0 <= k < |batch| :: !IsNewer(lastRead, batch[k]))
      && (last > lastRead ==> exists k | 0 <= k < |batch| :: batch[k].note.timestamp == last)
    decreases |batch|
  {
    if batch != [] {
      var init, d := batch[..|batch| - 1], batch[|batch| - 1];
      var p := Run(pk, lastRead, init);
      RunTracksNewest(pk, lastRead, init);
      var last := Run(pk, lastRead, batch).last;
      assert forall k | 0 <= k < |init| :: init[k] == batch[k];
      if last > lastRead && last != p.last {
        assert batch[|batch| - 1].note.timestamp == last;
      }
    }
  }

  /**
   * The replies written are the answers to the newer answerable mentions,
   * one each and in the order received: all of them unless a fault ended the
   * loop. Each is exactly what `Reply` makes of its mention.
   */
  lemma {:induction false} RepliesFollowTargets(pk: string, lastRead: I64, batch: seq<Delivery>)
    ensures var p, targets := Run(pk, lastRead, batch), ReplyTargets(lastRead, batch);
      && |p.writes| <= |targets|
      && (p.halt.None? ==> |p.writes| == |targets|)
      && (forall k | 0 <= k < |p.writes| ::
            Reply(pk, targets[k].note.body.postUri.value, targets[k].io) == Ok(p.writes[k]))
    decreases |batch|
  {
    if batch != [] {
      var init, d := batch[..|batch| - 1], batch[|batch| - 1];
      RepliesFollowTargets(pk, lastRead, init);
      var p := Run(pk, lastRead, init);
      if p.halt.None? && IsNewer(lastRead, d) && IsAnswerable(d.note.body) {
        var q := Run(pk, lastRead, batch);
        var targets := ReplyTargets(lastRead, batch);
        if q.halt.None? {
          assert targets[|targets| - 1] == d;
          assert Reply(pk, d.note.body.postUri.value, d.io) == Ok(q.writes[|q.writes| - 1]);
        }
      }
    }
  }

  /**
   * Record `j` is where the loop stops with fault `f`: the records before it
   * meet no fault, and it is a newer answerable mention whose answer fails.
   */
  predicate StopsAt(pk: string, lastRead: I64, batch: seq<Delivery>, j: nat, f: Fault)
    requires j < |batch|
  {
    && Run(pk, lastRead, batch[..j]).halt.None?
    && IsNewer(lastRead, batch[j]) && IsAnswerable(batch[j].note.body)
    && Reply(pk, batch[j].note.body.postUri.value, batch[j].io) == Err(f)
  }

  /**
   * A fault ends the loop only at a newer answerable mention whose answer
   * fails, and the replies written are then exactly the answers to the
   * newer answerable mentions before it.
   */
  lemma {:induction false} FaultAtFailingMention(pk: string, lastRead: I64, batch: seq<Delivery>)
    requires Run(pk, lastRead, batch).halt.Some?
    ensures var p := Run(pk, lastRead, batch);
      exists j | 0 <= j < |batch| ::
        && StopsAt(pk, lastRead, batch, j, p.halt.value)
        && p.writes == Run(pk, lastRead, batch[..j]).writes
        && |p.writes| == |ReplyTargets(lastRead, batch[..j])|
    decreases |batch|
  {
    var p := Run(pk, lastRead, batch);
    var init, d := batch[..|batch| - 1], batch[|batch| - 1];
    if Run(pk, lastRead, init).halt.Some? {
      FaultAtFailingMention(pk, lastRead, init);
      var j :| 0 <= j < |init| && StopsAt(pk, lastRead, init, j, p.halt.value)
        && p.writes == Run(pk, lastRead, init[..j]).writes
        && |p.writes| == |ReplyTargets(lastRead, init[..j])|;
      assert init[..j] == batch[..j];
      assert StopsAt(pk, lastRead, batch, j, p.halt.value);
    } else {
      var j := |init|;
      assert batch[..j] == init;
      RepliesFollowTargets(pk, lastRead, init);
      assert StopsAt(pk, lastRead, batch, j, p.halt.value);
    }
  }

  /**
   * Only a newer answerable mention can end the loop: a batch without one
   * (mentions missing a field, follows, unknown types, older records) runs
   * to its end and writes no reply.
   */
  lemma OnlyAnswerableMentionsHalt(pk: string, lastRead: I64, batch: seq<Delivery>)
    requires forall k | 0 <= k < |batch| :: !(IsNewer(lastRead, batch[k]) && IsAnswerable(batch[k].note.body))
    ensures Run(pk, lastRead, batch).halt.None? && Run(pk, lastRead, batch).writes == []
  {
    if Run(pk, lastRead, batch).halt.Some? {
      FaultAtFailingMention(pk, lastRead, batch);
    }
    RepliesFollowTargets(pk, lastRead, batch);
  }

  // ---------------------------------------------------------------------------
  // A whole tick.

  /** How a tick ends: `Ok(())`, with or without the re-read warning, or early. */
  datatype Outcome = Completed(warned: bool) | Aborted(fault: Fault)

  /** What a tick does to the store, in order: the replies PUT, then the checkpoint PUT (if any). */
  datatype TickResult = TickResult(writes: seq<PostWrite>, checkpoint: Option<I64>, outcome: Outcome)

  /** `check_notifications` for the bot with public key `pk`, on a store whose checkpoint cell is `cell`. */
  function Tick(pk: string, cell: Option<I64>, io: TickIo): TickResult
  {
    match ReadLastRead(cell, io.firstRead)
    case Err(f) => TickResult([], None, Aborted(f))
    case Ok(lastRead) =>
      if io.feed.None? then TickResult([], None, Aborted(Error(FeedUnavailable)))
      else Settle(lastRead, Run(pk, lastRead, io.feed.value), io)
  }

  /**
   * The end of a tick, after the loop: pass on the loop's fault, or write
   * `last_timestamp + 1` when the loop saw a newer record, then re-read it.
   */
  function Settle(lastRead: I64, p: Progress, io: TickIo): (t: TickResult)
    ensures t.writes == p.writes
    ensures p.halt.Some? ==> t.checkpoint.None? && t.outcome == Aborted(p.halt.value)
    ensures p.halt.None? && p.last <= lastRead ==> t.checkpoint.None? && t.outcome == Completed(false)
    ensures p.halt.None? && p.last > lastRead ==>
      && (t.outcome == Aborted(Panic(CheckpointOverflow)) <==> p.last == I64Max)
      && (p.last < I64Max && !io.writeOk ==> t.checkpoint.None? && t.outcome == Aborted(Error(CheckpointWriteFailed)))
      && (t.checkpoint.Some? <==> p.last < I64Max && io.writeOk)
      && (t.checkpoint.Some? ==> t.checkpoint.value == p.last + 1)
    ensures t.checkpoint.Some? ==>
      t.outcome == match ReadLastRead(t.checkpoint, io.reread)
        case Err(f) => Aborted(f)
        case Ok(seen) => Completed(seen != t.checkpoint.value)
  {
    if p.halt.Some? then TickResult(p.writes, None, Aborted(p.halt.value))
    else if p.last <= lastRead then TickResult(p.writes, None, Completed(false))
    else if p.last == I64Max then TickResult(p.writes, None, Aborted(Panic(CheckpointOverflow)))
    else if !io.writeOk then TickResult(p.writes, None, Aborted(Error(CheckpointWriteFailed)))
    else
      var next := p.last + 1;
      // The PUT went through, so the cell holds `next` whatever it held before.
      match ReadLastRead(WriteLastRead(None, next, true), io.reread)
      case Err(f) => TickResult(p.writes, Some(next), Aborted(f))
      case Ok(seen) => TickResult(p.writes, Some(next), Completed(seen != next))
  }

  /**
   * What every tick guarantees: a failed first read or feed ends the tick
   * in that `Err` before anything is written; the replies come from the loop over the
   * fetched batch and stay written whatever happens after them; a fault in
   * the loop is the tick's outcome and no checkpoint is written; a new
   * checkpoint lies above the one read; once the checkpoint is written only a
   * failed re-read aborts the tick, in that read's `Err`; `last_timestamp + 1` panics exactly when
   * `last_timestamp` is `i64::MAX`, and a failed checkpoint PUT is an `Err`; and a re-read that sees another value
   * than the one written is a warning on a tick that still completes.
   */
  lemma TickGuarantees(pk: string, cell: Option<I64>, io: TickIo)
    ensures var t, rd := Tick(pk, cell, io), ReadLastRead(cell, io.firstRead);
      && (rd.Err? ==> t == TickResult([], None, Aborted(rd.error)))
      && (rd.Ok? && io.feed.None? ==> t == TickResult([], None, Aborted(Error(FeedUnavailable))))
      && t.writes == (if rd.Ok? && io.feed.Some? then Run(pk, rd.value, io.feed.value).writes else [])
      && (t.checkpoint.Some? ==> rd.Ok? && io.feed.Some? && io.writeOk && t.checkpoint.value > rd.value)
      && (rd.Ok? && io.feed.Some? && Run(pk, rd.value, io.feed.value).halt.Some? ==>
            t.checkpoint.None? && t.outcome == Aborted(Run(pk, rd.value, io.feed.value).halt.value))
      && (rd.Ok? && io.feed.Some? && Run(pk, rd.value, io.feed.value).halt.None? && Run(pk, rd.value, io.feed.value).last > rd.value ==>
            && (t.outcome == Aborted(Panic(CheckpointOverflow)) <==> Run(pk, rd.value, io.feed.value).last == I64Max)
            && (Run(pk, rd.value, io.feed.value).last < I64Max && !io.writeOk ==>
                  t.checkpoint.None? && t.outcome == Aborted(Error(CheckpointWriteFailed))))
      && (t.outcome.Aborted? && t.checkpoint.Some? ==> ReadLastRead(t.checkpoint, io.reread).Err?)
      && (t.checkpoint.Some? && ReadLastRead(t.checkpoint, io.reread).Err? ==>
            t.outcome == Aborted(ReadLastRead(t.checkpoint, io.reread).error))
      && (t.outcome.Completed? ==>
            (t.outcome.warned <==> t.checkpoint.Some? && ReadLastRead(t.checkpoint, io.reread) != Ok(t.checkpoint.value)))
  {
  }

  /** Without a newer record the loop does nothing: no reply, and `last_timestamp` stays at the checkpoint. */
  lemma {:induction false} RunWithoutNewer(pk: string, lastRead: I64, batch: seq<Delivery>)
    requires forall k | 0 <= k < |batch| :: !IsNewer(lastRead, batch[k])
    ensures Run(pk, lastRead, batch) == Progress([], lastRead, None)
    decreases |batch|
  {
    if batch != [] {
      var init := batch[..|batch| - 1];
      assert forall k | 0 <= k < |init| :: init[k] == batch[k];
      RunWithoutNewer(pk, lastRead, init);
    }
  }

  /** A tick that finds no record newer than its checkpoint writes nothing, neither a reply nor a checkpoint. */
  lemma NothingNewerWritesNothing(pk: string, cell: Option<I64>, io: TickIo)
    requires ReadLastRead(cell, io.firstRead).Ok? && io.feed.Some?
    requires forall k | 0 <= k < |io.feed.value| :: !IsNewer(ReadLastRead(cell, io.firstRead).value, io.feed.value[k])
    ensures Tick(pk, cell, io) == TickResult([], None, Completed(false))
  {
    RunWithoutNewer(pk, ReadLastRead(cell, io.firstRead).value, io.feed.value);
  }

  /**
   * The checkpoint a tick writes is exactly one past the newest record newer
   * than the checkpoint it read.
   */
  lemma CheckpointIsNewestPlusOne(pk: string, cell: Option<I64>, io: TickIo)
    requires Tick(pk, cell, io).checkpoint.Some?
    ensures var rd, batch, c := ReadLastRead(cell, io.firstRead), io.feed.value, Tick(pk, cell, io).checkpoint.value;
      && (forall k | 0 <= k < |batch| && IsNewer(rd.value, batch[k]) :: batch[k].note.timestamp < c)
      && (exists k | 0 <= k < |batch| :: IsNewer(rd.value, batch[k]) && batch[k].note.timestamp == c - 1)
  {
    var rd := ReadLastRead(cell, io.firstRead);
    RunTracksNewest(pk, rd.value, io.feed.value);
  }

  /**
   * Conversely, a tick that reads its checkpoint and the feed, meets no fault
   * in the loop, and sees a newer record below `i64::MAX` with a PUT that
   * goes through, does write a checkpoint.
   */
  lemma NewerRecordAdvancesCheckpoint(pk: string, cell: Option<I64>, io: TickIo, k: nat)
    requires ReadLastRead(cell, io.firstRead).Ok? && io.feed.Some? && io.writeOk
    requires Run(pk, ReadLastRead(cell, io.firstRead).value, io.feed.value).halt.None?
    requires k < |io.feed.value| && IsNewer(ReadLastRead(cell, io.firstRead).value, io.feed.value[k])
    requires forall j | 0 <= j < |io.feed.value| :: io.feed.value[j].note.timestamp < I64Max
    ensures Tick(pk, cell, io).checkpoint.Some?
  {
    RunTracksNewest(pk, ReadLastRead(cell, io.firstRead).value, io.feed.value);
  }

  /**
   * When the tick's first read sees the cell's current value, a written
   * checkpoint is strictly above the one the cell held.
   */
  lemma ConsistentTickAdvances(pk: string, cell: Option<I64>, io: TickIo)
    requires io.firstRead.Consistent? && Tick(pk, cell, io).checkpoint.Some?
    ensures cell.Some? && Tick(pk, cell, io).checkpoint.value > cell.value
  {
  }

  /** A re-read that sees the value just written raises no warning: the checkpoint round-trips. */
  lemma ConsistentRereadDoesNotWarn(pk: string, cell: Option<I64>, io: TickIo)
    requires io.reread.Consistent? && Tick(pk, cell, io).checkpoint.Some?
    ensures Tick(pk, cell, io).outcome == Completed(false)
  {
  }

  /**
   * A lagging first read can move the checkpoint back: the cell holds 200,
   * the read sees 100, a follow at 150 is newer than that, and 151 is written.
   */
  lemma StaleReadCanRewind(pk: string, follow: Delivery)
    requires follow.note == Notification(150, NotificationBody("follow", None, None, Some("B")))
    ensures var io := TickIo(Stale(Some(100)), Some([follow]), true, Consistent);
      Tick(pk, Some(200), io) == TickResult([], Some(151), Completed(false))
  {
    assert [follow][..0] == [];
    assert Classify(follow.note.body) == LogFollow(Some("B"));
    assert Run(pk, 100, [follow]) == Progress([], 150, None);
  }

  /**
   * The example run: the checkpoint is 100; a mention from A of post u1 at
   * 105 and a follow from B at 103 arrive; one reply to u1 is written and
   * the checkpoint becomes 106.
   */
  lemma MentionAndFollowExample(pk: string, mention: Delivery, follow: Delivery, text: seq<byte>)
    requires |text| <= MaxReplyBytes
    requires mention.note == Notification(105, NotificationBody("mention", Some("A"), Some("u1"), None))
    requires mention.io.post.Some? && mention.io.completion == Choices([text]) && mention.io.publishOk
    requires follow.note == Notification(103, NotificationBody("follow", None, None, Some("B")))
    ensures var io := TickIo(Consistent, Some([mention, follow]), true, Consistent);
      Tick(pk, Some(100), io) ==
        TickResult([PostWrite(PostPath(pk, mention.io.postId), Post(text, Short, Some("u1")))], Some(106), Completed(false))
  {
    var batch := [mention, follow];
    assert batch[..1] == [mention] && batch[..1][..0] == [];
    var w := PostWrite(PostPath(pk, mention.io.postId), Post(text, Short, Some("u1")));
    assert Classify(mention.note.body) == ReplyTo("u1");
    assert Reply(pk, "u1", mention.io) == Ok(w);
    assert Run(pk, 100, [mention]) == Progress([w], 105, None);
    assert Classify(follow.note.body) == LogFollow(Some("B"));
    assert Run(pk, 100, batch) == Progress([w], 105, None);
  }
}

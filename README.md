# ai-rand notification bot: a verified model of its polling core

The bot watches the Pubky notification feed of its own key. Every five seconds
it runs one *tick* (`check_notifications`):

1. It reads the checkpoint `last_read` from its store.
2. It fetches one page of notifications.
3. It answers each new mention that names both its author and its post,
   until a call fails. The reply text comes from a chat-completion service
   and is capped at 1000 bytes.
4. It writes one past the newest timestamp it saw as the new checkpoint.

An `Err` anywhere in a tick is logged by the polling loop, and the next tick
starts afresh. This project models that core in Dafny and proves what it
guarantees.

Layout, one module per file:

- `prelude.dfy` (`Prelude`): `Option`, `Result`, Rust's `i64` as `I64`.
- `faults.dfy` (`Faults`): the `Err`s a tick can return, one per failing call, and the panics it can hit.
- `utf8.dfy` (`Utf8`): bytes of a Rust `String`. It holds the byte shape of UTF-8 (RFC 3629, section 3) and the character-boundary rule that byte slicing enforces.
- `generation.dfy` (`Generation`): `generate_response`. The service's answer is an input; the model covers picking `choices[0]` and the 1000-byte cap.
- `notifications.dfy` (`Notifications`): the notification records and routing by `type`.
- `checkpoint.dfy` (`Checkpoint`): the last_read cell, modelled by its decoded value. It also covers `get_last_read` and `update_last_read`.
- `tick.dfy` (`Ticks`): one tick as a function of the checkpoint cell and of how each call turns out, plus the properties of a tick.
- `poll.dfy` (`Polling`): the polling loop over any finite number of ticks, plus its properties.
- `bot.dfy` (`Bot`): class `Store` with the last_read cell and the log of reply PUTs as fields. Its methods are the source's loops written imperatively: a `for` loop with a mutable `last_timestamp`, early returns for `?`, and PUTs that update the fields. Each method is proved equal to the functions of `Checkpoint`, `Ticks` and `Polling`.

How the I/O is modelled: every fetched record comes paired with how the calls
made for it turn out (`Delivery`). That means the post's content or a failure,
the service's answer, the reply's creation timestamp, and whether the PUT
goes through. A tick also takes how its own calls turn out (`TickIo`): the first
read of last_read, the feed, the checkpoint PUT and the re-read. A read can see
the cell as it is (`Consistent`), see another value (`Stale`, the store lagging
behind), or fail (`Unreachable`).

What the code does where a reader might expect otherwise (the model follows the code):

- A missing last_read object is not read as 0. `get_last_read` fails to decode it, so every tick ends in an `Err` and the bot never answers anything (`Polling.MissingCheckpointStalls`).
- A failure while answering a mention ends the whole tick, not only that mention. Later records wait for the next tick.
- The cap counts bytes, not characters. Cutting at byte 1000 panics when that byte is inside a character.
- The post's content is decoded as a post record only. When that fails, the tick fails; there is no fallback to raw text.
- A follow is routed as a follow whether or not `followed_by` is present. Like every newer record, it moves the checkpoint.
- The checkpoint never moves back only when the tick's first read sees the cell as it is. A lagging read can rewind it (`Ticks.StaleReadCanRewind`).

## Model

| member | source | states |
|---|---|---|
| `Generation.Truncate` | src/main.rs:101-105 | Content of at most 1000 bytes is kept whole. Longer content becomes exactly its first 1000 bytes, which is a prefix of the input. The result never exceeds 1000 bytes. It panics exactly when the input is longer and byte 1000 continues a character. |
| `Generation.GenerateResponse` | src/main.rs:98-105 | A failed service call is an `Err`. An answer without choices panics. Otherwise the reply is the first choice, capped, and a prefix of that choice of at most 1000 bytes. |
| `Generation.TruncateKeepsWellFormed` | src/main.rs:101-102 | When the cap does not panic, well-formed UTF-8 input yields well-formed UTF-8. |
| `Generation.TruncateIdempotent` | src/main.rs:101-105 | Capping an already capped reply changes nothing. |
| `Generation.AsciiNeverPanics` | src/main.rs:101-102 | ASCII content never panics, whatever its length. |
| `Generation.WellFormedReplyCanPanic` | src/main.rs:101-102 | Well-formed text does panic: 999 letters followed by "é" (1001 bytes). |
| `Generation.LongAnswerIsCut` | src/main.rs:99-102 | A 5000-byte ASCII answer becomes exactly its first 1000 bytes. |
| `Utf8.PrefixAtBoundary` | src/main.rs:102 | Well-formed UTF-8 cut at a character boundary stays well-formed. |
| `Notifications.Classify` | src/main.rs:233-270 | A record leads to a reply if and only if its type is "mention" and it has both `mentioned_by` and `post_uri`. The reply goes to that `post_uri`. A mention missing either field is skipped. Any type other than mention or follow is only logged. |
| `Checkpoint.ReadLastRead` | src/main.rs:192-197 | A consistent read returns the stored timestamp, and fails when there is no LastRead record. A stale read returns what it sees. A failed request is an `Err`. Reading never panics. |
| `Checkpoint.WriteLastRead` | src/main.rs:200-212 | After a PUT that goes through, a consistent read returns the written timestamp. A failed PUT leaves the cell unchanged. |
| `Ticks.Reply` | src/main.rs:235-259 | The reply is written if and only if the post resolves, generation succeeds and the PUT goes through. It is stored at `pubky://<pk>/pub/pubky.app/posts/<timestamp>` as a short post. Its parent is the mention's `post_uri`. Its content is exactly the generated response: a prefix of the first choice, at most 1000 bytes long. A failed post fetch is `PostUnavailable`, a failed generation passes its own fault on unchanged (an `Err` or a panic), and a failed PUT is `PublishFailed`. |
| `Ticks.Step` | src/main.rs:231-275 | A record not newer than the checkpoint, or any record after a fault, changes nothing. A newer record that is not an answerable mention only raises `last_timestamp` to its timestamp. A newer answerable mention appends `Reply`'s post and raises `last_timestamp`, or ends the loop with `Reply`'s fault. |
| `Ticks.Run` | src/main.rs:229-276 | `last_timestamp` never drops below the checkpoint and each record writes at most one reply. Its other properties are `HaltIsFinal`, `OlderRecordsIgnored`, `RunTracksNewest`, `RepliesFollowTargets`, `FaultAtFailingMention` and `OnlyAnswerableMentionsHalt`. |
| `Ticks.Settle` | src/main.rs:278-289 | The loop's replies are kept. A fault in the loop is the outcome and nothing is written. With no newer record the tick completes without a checkpoint. Otherwise it panics exactly when `last_timestamp` is `i64::MAX`, a failed checkpoint PUT is an `Err`, and the checkpoint written is exactly `last_timestamp + 1`. After that write, a failed re-read ends the tick in that read's `Err`, and a successful one completes it, warning exactly when the value read differs. |
| `Ticks.HaltIsFinal` | src/main.rs:238-259 | Once a `?` ends the loop, the rest of the batch has no effect. |
| `Ticks.OlderRecordsIgnored` | src/main.rs:231-232 | Records whose timestamp is not above the checkpoint have no effect: the loop over the batch equals the loop over its newer records. |
| `Ticks.RunTracksNewest` | src/main.rs:229-274 | If nothing fails, `last_timestamp` ends at the checkpoint when no record is newer. Otherwise it ends at the largest timestamp among the newer records, which is one of their timestamps. |
| `Ticks.RepliesFollowTargets` | src/main.rs:231-262 | Replies are written in the order received, one per newer answerable mention. The k-th reply is exactly what `Reply` makes of the k-th such mention: its content, its path and its parent. If nothing fails, there is a reply for every such mention. |
| `Ticks.FaultAtFailingMention` | src/main.rs:235-259 | A fault ends the loop only at a newer answerable mention whose answer fails, with that failure as the fault. The replies written are then exactly the answers to the newer answerable mentions before it. |
| `Ticks.OnlyAnswerableMentionsHalt` | src/main.rs:233-270 | A batch with no newer answerable mention never ends the loop early and writes no reply. Mentions missing a field, follows and unknown types are only logged. |
| `Ticks.RunWithoutNewer` | src/main.rs:229-232 | With no newer record, the loop writes nothing and leaves `last_timestamp` at the checkpoint. |
| `Ticks.TickGuarantees` | src/main.rs:214-290 | This is the contract of `Tick`, which carries none itself. A failed first read or feed ends the tick in that `Err`, with nothing written. A tick's replies are those of its loop, and they stay written whatever happens after them. A fault in the loop is the tick's outcome, and no checkpoint is written. When the loop saw a newer record and met no fault, the tick panics exactly when `last_timestamp` is `i64::MAX`, and a failed checkpoint PUT is an `Err`. A written checkpoint is above the one read. Once the checkpoint is written, only a failed re-read aborts the tick, and it does so with that read's `Err`. A completed tick warns if and only if the re-read sees another value than the one written. |
| `Ticks.NothingNewerWritesNothing` | src/main.rs:229-287 | A tick that finds no newer record writes no reply and no checkpoint, and completes without a warning. |
| `Ticks.CheckpointIsNewestPlusOne` | src/main.rs:272-279 | A written checkpoint is exactly one past the newest record newer than the checkpoint read. |
| `Ticks.NewerRecordAdvancesCheckpoint` | src/main.rs:272-279 | Suppose the checkpoint read and the feed succeed, the loop meets no fault, a record is newer, every timestamp is below `i64::MAX` and the PUT goes through. Then a checkpoint is written. |
| `Ticks.ConsistentTickAdvances` | src/main.rs:215-279 | If the first read sees the cell as it is, a written checkpoint is strictly above the value the cell held. |
| `Ticks.ConsistentRereadDoesNotWarn` | src/main.rs:281-286 | A re-read that sees the written value gives no warning: the checkpoint round-trips. |
| `Ticks.StaleReadCanRewind` | src/main.rs:215-279 | A lagging first read can move the checkpoint back: the cell holds 200, the read sees 100, and 151 is written. |
| `Ticks.MentionAndFollowExample` | src/main.rs:229-279 | Take checkpoint 100, a mention of u1 at 105 and a follow at 103. One reply, to u1, is written, and the checkpoint becomes 106. |
| `Polling.CellAfter` | src/main.rs:278-279 | After a tick that wrote a checkpoint, a consistent read of the cell returns it. Otherwise the cell is unchanged. |
| `Polling.PollStep` | src/main.rs:299-303 | One turn adds the tick's replies to the log, leaves the cell holding the checkpoint the tick wrote (or unchanged), and records a panic exactly when the tick panics, an `Err` being only logged. |
| `Polling.Poll` | src/main.rs:299-304 | Starting from an empty log, every tick runs unless a panic ends the loop, and a panic is recorded only after at least one tick ran. |
| `Polling.PollFrom` | src/main.rs:299-304 | Every tick runs unless a panic ends the loop. Replies once written stay written. |
| `Polling.PollSplit` | src/main.rs:299-304 | Running the loop through one list of ticks and then through another equals running it through both lists together. |
| `Polling.PanicEndsPolling` | src/main.rs:299-304 | Once the loop has recorded a panic, no later tick runs. |
| `Polling.TickPanicEndsPolling` | src/main.rs:299-304 | A tick that panics makes the loop record that panic, and no later tick runs. |
| `Polling.ErrorIsContained` | src/main.rs:300-302 | A tick that returns an `Err` does not stop the loop. Its replies stay written, and the cell is what the tick left. The cell changes only when the `Err` is a failed re-read of a checkpoint the tick had already written. |
| `Polling.ConsistentPollNeverRewinds` | src/main.rs:214-304 | While every tick's first read is consistent, the checkpoint never decreases. |
| `Polling.MissingCheckpointStalls` | src/main.rs:192-302 | With no LastRead record and consistent reads, every tick fails. Nothing is ever written. |
| `Bot.Store.GetLastRead` | src/main.rs:192-198 | The GET followed by the decode returns what `ReadLastRead` gives for the current cell. |
| `Bot.Store.UpdateLastRead` | src/main.rs:200-212 | The cell becomes the timestamp when the PUT goes through, and is unchanged otherwise. |
| `Bot.Store.ReplyToMention` | src/main.rs:235-261 | Returns `Reply`'s result. The reply is appended to the posts exactly when it is `Ok`. |
| `Bot.Store.HandleNotification` | src/main.rs:232-275 | One loop iteration does exactly one `Step`: the posts, `last_timestamp` and the fault become what `Step` says. |
| `Bot.Store.Settle` | src/main.rs:278-287 | The cell and the outcome after the loop are what `Ticks.Settle` says. |
| `Bot.Store.CheckNotifications` | src/main.rs:214-290 | The tick appends exactly `Tick`'s replies to the posts, in order. It leaves the cell as `Tick` says and returns `Tick`'s outcome. |
| `Bot.Store.PollNotifications` | src/main.rs:292-304 | After the given ticks, the cell, the posts, the ticks run and the panic are exactly what `Poll` says. |

## Left out

- Network and store clients (`pubky::Client`, `reqwest`), URLs and serde (de)serialisation are not modelled. Each call's result is an input.
- A PubkyAppPost and a LastRead record always serialise, so the `?` after `serde_json::to_string` in `check_notifications` and in `update_last_read` is not modelled.
- The prompt text, the model name, `temperature` and `max_tokens` of the chat request are not modelled. They do not influence what the core does with the answer.
- The post's content reaches the service, but the service's answer is an input, so the model does not relate the two.
- `Timestamp::now()` is an opaque id supplied per mention, and the model does not assume ids are unique. Two replies given the same id would share a path. The model keeps both in the order written, as a log of PUTs rather than a map of paths.
- Keypair derivation, the public-key check, signin and client setup are left out: cryptography and environment reads.
- Profile creation and the commented-out hello-world post are left out: one-shot startup I/O.
- The five-second sleep and the async runtime are left out. The endless loop is modelled over any finite list of ticks.
- Log output (`println!`) is not modelled, beyond the re-read warning flag of a completed tick.
- The feed's page bounds (`skip=0&limit=30&since=`) are not modelled. Records are taken as the feed returns them, and the tick re-checks each against the checkpoint.
- `last_timestamp + 1` on `i64::MAX` is modelled as a panic (`CheckpointOverflow`), which is the overflow check of a debug build. A release build would wrap to `i64::MIN` instead; that is not modelled.
- `Utf8.WellFormed` checks the byte shape of UTF-8 only. It does not reject overlong forms, surrogates or code points above U+10FFFF. The boundary rule it is used for does not depend on them.
- A PUT that fails in transport is taken as not stored. A PUT that reaches the store but reports failure is not modelled.

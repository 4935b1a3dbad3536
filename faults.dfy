/** Why a tick of the notification loop stopped early. */
module Faults {

  /**
   * The `Err` values a tick can return through `?`. Each names the call that
   * failed; the polling loop logs them and carries on with the next tick.
   */
  datatype Failure =
    | CheckpointUnreachable   // GET of last_read failed in transport
    | CheckpointUnreadable    // last_read is absent or is not a LastRead record
    | FeedUnavailable         // nexus URL missing, GET of the feed failed, or its JSON did not decode
    | PostUnavailable         // GET of the mentioning post failed or it is not a post record
    | GenerationUnavailable   // API key missing, chat request failed, or its JSON did not decode
    | PublishFailed           // PUT of the reply failed
    | CheckpointWriteFailed   // PUT of last_read failed

  /** Panics: they are not `Err`s, so nothing in the program catches them. */
  datatype PanicKind =
    | NoChoices               // `choices[0]` on an empty completion
    | SplitCharacter          // `content[..1000]` where byte 1000 is inside a UTF-8 character
    | CheckpointOverflow      // `last_timestamp + 1` on `i64::MAX` (overflow check of a debug build)

  datatype Fault = Error(failure: Failure) | Panic(kind: PanicKind)
}

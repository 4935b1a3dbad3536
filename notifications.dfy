/** The notification records the feed returns, and how each is routed. */
module Notifications {
  import opened Prelude

  /**
   * A record's `body`: its `type` string and the optional fields the bot
   * looks at. Any field may be missing, whatever the type says.
   */
  datatype NotificationBody = NotificationBody(
    kind: string,
    mentionedBy: Option<string>,
    postUri: Option<string>,
    followedBy: Option<string>)

  datatype Notification = Notification(timestamp: I64, body: NotificationBody)

  /** What the dispatch `match` does with one record. */
  datatype Action =
    | ReplyTo(parent: string)            // a mention with both fields: answer the post
    | SkipMention                        // a mention missing `mentioned_by` or `post_uri`: nothing
    | LogFollow(follower: Option<string>) // a follow: logged when `followed_by` is present
    | LogUnknown(kind: string)           // anything else: logged

  /** A mention the bot can answer: it names both who mentioned it and the post to answer. */
  predicate IsAnswerable(body: NotificationBody) {
    body.kind == "mention" && body.mentionedBy.Some? && body.postUri.Some?
  }

  /**
   * Routing by the `type` string. Only an answerable mention leads to a
   * reply, addressed to its `post_uri`; every other record is at most logged.
   */
  function Classify(body: NotificationBody): (a: Action)
    ensures a.ReplyTo? <==> IsAnswerable(body)
    ensures a.ReplyTo? ==> a.parent == body.postUri.value
    ensures a.SkipMention? <==> body.kind == "mention" && !IsAnswerable(body)
    ensures a.LogUnknown? <==> body.kind != "mention" && body.kind != "follow"
  {
    if body.kind == "mention" then
      if body.mentionedBy.Some? && body.postUri.Some? then ReplyTo(body.postUri.value) else SkipMention
    else if body.kind == "follow" then
      LogFollow(body.followedBy)
    else
      LogUnknown(body.kind)
  }
}

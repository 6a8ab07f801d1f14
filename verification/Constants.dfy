/** Literals and record shapes shared by the bot's modules. */
module Constants {
  import opened JsValue

  /** The one registered slash command. */
  const Greet := "/greet"

  /** What the HTTP entry point and the acknowledgment callback return. The
      declared type of `body` is string, but at run time it carries whatever
      JavaScript value was put there. */
  datatype HandlerResponse = HandlerResponse(statusCode: int, body: Value)

  /** Request packet for a threaded reply. Fields hold run-time values: the
      token is a string or `undefined`; channel and timestamp come from the
      inbound event. The `app` reference is the client argument of the reply
      functions. */
  datatype SlackReply = SlackReply(botToken: Value, channelId: Value, threadTimestamp: Value, message: Value)

  /** Request packet for adding a reaction to a message. */
  datatype SlackReactionReply = SlackReactionReply(botToken: Value, channelId: Value, threadTimestamp: Value, reaction: Value)

  /** Request packet for an ephemeral message: addressed to a user, no thread. */
  datatype SlackPrivateReply = SlackPrivateReply(botToken: Value, channelId: Value, userId: Value, message: Value)
}

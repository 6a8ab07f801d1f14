/** The HTTP entry point of the bot and its two listener bindings. Every
    interaction with the messaging platform is recorded as a step of a trace. */
module Slackbot {
  import opened Wrappers
  import opened JsValue
  import opened Constants
  import opened SlackClient
  import opened StringSplit
  import opened Utils

  /** Process-wide configuration read from the environment at start-up:
      `SLACK_BOT_TOKEN`, a string, or `undefined` when it is unset. */
  datatype Config = Config(botToken: Value)

  /** The part of an API-gateway event the handler reads. */
  datatype Request = Request(body: Option<string>, headers: map<string, string>)

  /** One interaction of a listener with the outside: an acknowledgment
      (with the response the callback produced) or a client call. */
  datatype Step = Acked(response: HandlerResponse) | Called(record: CallRecord)

  /** What one invocation of the handler returns, and what it did. */
  datatype HandlerResult = HandlerResult(response: HandlerResponse, trace: seq<Step>)

  const ReactionName := "robot_face"
  const AutoReplyText := "Hello :wave:"
  const GreetReplyText := "Greetings, user!"

  /** Client calls as steps of a trace. */
  function AsSteps(records: seq<CallRecord>): (steps: seq<Step>)
    ensures |steps| == |records|
    ensures forall i :: 0 <= i < |records| ==> steps[i] == Called(records[i])
  {
    seq(|records|, i requires 0 <= i < |records| => Called(records[i]))
  }

  /** The calls a trace makes, in order, without their outcomes. */
  function CallsOfTrace(trace: seq<Step>): seq<ClientCall>
    decreases |trace|
  {
    if |trace| == 0 then []
    else (if trace[0].Called? then [trace[0].record.call] else []) + CallsOfTrace(trace[1..])
  }

  /** The `app.message` listener: a `robot_face` reaction on the message,
      then the threaded reply "Hello :wave:", both addressed to the
      message's channel and timestamp. */
  function OnMessage(message: Value, config: Config, client: Client): (steps: seq<Step>)
    requires !Nullish(message)
    ensures |steps| == 2 && steps[0].Called? && steps[1].Called?
    ensures steps[0].record.call.api == ReactionsAdd && steps[1].record.call.api == ChatPostMessage
    ensures steps[0].record.call.args.Keys == {"token", "name", "channel", "timestamp"}
    ensures steps[1].record.call.args.Keys == {"token", "channel", "thread_ts", "text"}
    ensures steps[0].record.call.args["name"] == Str(ReactionName)
    ensures steps[1].record.call.args["text"] == Str(AutoReplyText)
    ensures steps[0].record.call.args["channel"] == steps[1].record.call.args["channel"] == Get(message, "channel")
    ensures steps[0].record.call.args["timestamp"] == steps[1].record.call.args["thread_ts"] == Get(message, "ts")
    ensures steps[0].record.call.args["token"] == steps[1].record.call.args["token"] == config.botToken
  {
    var reaction := SlackReactionReply(config.botToken, Get(message, "channel"), Get(message, "ts"), Str(ReactionName));
    var reply := SlackReply(config.botToken, Get(message, "channel"), Get(message, "ts"), Str(AutoReplyText));
    AsSteps(ReplyReaction(reaction, client) + ReplyMessage(reply, client))
  }

  /** The `app.command("/greet")` listener: acknowledge with no argument,
      then the ephemeral "Greetings, user!" to the invoking user in the
      invoking channel. */
  function OnGreet(body: Value, ack: Value -> HandlerResponse, config: Config, client: Client): (steps: seq<Step>)
    requires !Nullish(body)
    ensures |steps| == 2 && steps[0] == Acked(ack(Undefined)) && steps[1].Called?
    ensures steps[1].record.call.api == ChatPostEphemeral
    ensures steps[1].record.call.args.Keys == {"token", "channel", "text", "user"}
    ensures steps[1].record.call.args["channel"] == Get(body, "channel_id")
    ensures steps[1].record.call.args["user"] == Get(body, "user_id")
    ensures steps[1].record.call.args["text"] == Str(GreetReplyText)
    ensures steps[1].record.call.args["token"] == config.botToken
  {
    var reply := SlackPrivateReply(config.botToken, Get(body, "channel_id"), Get(body, "user_id"), Str(GreetReplyText));
    [Acked(ack(Undefined))] + AsSteps(ReplyPrivateMessage(reply, client))
  }

  /** Which registered listener an event body reaches. */
  datatype Listener = MessageListener | GreetListener | NoListener

  /** A body carrying an `event` object whose `type` is "message". */
  predicate IsMessageEventBody(body: Value) {
    body.Obj? && Get(body, "event").Obj? && Get(Get(body, "event"), "type") == Str("message")
  }

  /** A body with no `event` whose `command` is "/greet". */
  predicate IsGreetCommandBody(body: Value) {
    body.Obj? && Get(body, "event") == Undefined && Get(body, "command") == Str(Greet)
  }

  /** The routing the processing engine applies, as far as the two bindings
      see it: a body carrying an `event` is an event, and reaches the message
      listener when that event is a message; otherwise a body whose `command`
      is "/greet" reaches the greet listener. Anything else reaches none. */
  function Route(body: Value): (l: Listener)
    ensures l == MessageListener <==> IsMessageEventBody(body)
    ensures l == GreetListener <==> IsGreetCommandBody(body)
  {
    if !body.Obj? then NoListener
    else if Get(body, "event") != Undefined then
      var event := Get(body, "event");
      if event.Obj? && Get(event, "type") == Str("message") then MessageListener else NoListener
    else if Get(body, "command") == Str(Greet) then GreetListener
    else NoListener
  }

  /** `app.processEvent(event)`: the matching listener runs; an event no
      listener matches does nothing. */
  function ProcessEvent(event: ReceiverEvent, config: Config, client: Client): seq<Step> {
    match Route(event.body)
    case MessageListener => OnMessage(Get(event.body, "event"), config, client)
    case GreetListener => OnGreet(event.body, event.ack, config, client)
    case NoListener => []
  }

  /** What dispatching an event does, stated on the event's body: a message
      event gets the `robot_face` reaction and then the threaded reply, both
      on the message's channel and timestamp; a `/greet` command is
      acknowledged with no argument and then gets the ephemeral greeting to
      its `channel_id` and `user_id`; every other body gets nothing. */
  lemma Dispatch(event: ReceiverEvent, config: Config, client: Client)
    ensures IsMessageEventBody(event.body) ==>
      var m := Get(event.body, "event");
      CallsOfTrace(ProcessEvent(event, config, client)) == [
        ClientCall(ReactionsAdd, map["token" := config.botToken, "name" := Str(ReactionName),
                                     "channel" := Get(m, "channel"), "timestamp" := Get(m, "ts")]),
        ClientCall(ChatPostMessage, map["token" := config.botToken, "channel" := Get(m, "channel"),
                                        "thread_ts" := Get(m, "ts"), "text" := Str(AutoReplyText)])]
    ensures IsGreetCommandBody(event.body) ==>
      var steps := ProcessEvent(event, config, client);
      && |steps| == 2
      && steps[0] == Acked(event.ack(Undefined))
      && CallsOfTrace(steps) == [
           ClientCall(ChatPostEphemeral, map["token" := config.botToken, "channel" := Get(event.body, "channel_id"),
                                             "text" := Str(GreetReplyText), "user" := Get(event.body, "user_id")])]
    ensures !IsMessageEventBody(event.body) && !IsGreetCommandBody(event.body) ==>
      ProcessEvent(event, config, client) == []
  {
    var steps := ProcessEvent(event, config, client);
    if IsMessageEventBody(event.body) {
      assert steps[1..][1..] == [];
      assert CallsOfTrace(steps[1..]) == [steps[1].record.call];
    } else if IsGreetCommandBody(event.body) {
      assert steps[1..][1..] == [];
      assert CallsOfTrace(steps[1..]) == [steps[1].record.call];
    }
  }

  /** The content type, read from the lower-case header key only. */
  function ContentType(request: Request): Option<string> {
    if "content-type" in request.headers then Some(request.headers["content-type"]) else None
  }

  /** The payload the handler works on. */
  function RequestPayload(request: Request, decodeJson: string -> Option<Value>): Value {
    PayloadValue(ParseRequestBody(request.body, ContentType(request), decodeJson))
  }

  /** `handler(event, context)`. A handshake is answered with its challenge
      and nothing is dispatched; anything else is dispatched, then answered
      with "". The status is 200 on every path. */
  function Handler(request: Request, config: Config, decodeJson: string -> Option<Value>, client: Client): (r: HandlerResult)
    ensures r.response.statusCode == 200
    ensures IsUrlVerificationRequest(RequestPayload(request, decodeJson)) ==>
      r.trace == [] && r.response.body == Get(RequestPayload(request, decodeJson), "challenge")
    ensures !IsUrlVerificationRequest(RequestPayload(request, decodeJson)) ==>
      r.response.body == Str("") &&
      r.trace == ProcessEvent(GenerateReceiverEvent(RequestPayload(request, decodeJson)), config, client)
  {
    var payload := RequestPayload(request, decodeJson);
    if IsUrlVerificationRequest(payload) then
      HandlerResult(HandlerResponse(200, Get(payload, "challenge")), [])
    else
      var slackEvent := GenerateReceiverEvent(payload);
      var trace := ProcessEvent(slackEvent, config, client);
      HandlerResult(HandlerResponse(200, Str("")), trace)
  }

  // ---- properties of the entry point ----

  /** Swallowed failures: the response does not depend on which client calls
      reject, nor on the configured token. (For the calls themselves, see
      `CallsIgnoreRejections`.) */
  lemma ResponseIgnoresClient(request: Request, decodeJson: string -> Option<Value>,
                              config1: Config, client1: Client, config2: Config, client2: Client)
    ensures Handler(request, config1, decodeJson, client1).response == Handler(request, config2, decodeJson, client2).response
  {
  }

  lemma {:induction false} CallsOfAsSteps(records: seq<CallRecord>)
    ensures CallsOfTrace(AsSteps(records)) == CallsOf(records)
    decreases |records|
  {
    if |records| > 0 {
      assert AsSteps(records)[1..] == AsSteps(records[1..]);
      CallsOfAsSteps(records[1..]);
      assert CallsOf(records) == [records[0].call] + CallsOf(records[1..]);
    }
  }

  /** The calls a request causes are the same whichever calls reject: a
      rejected reaction does not stop the reply that follows it. */
  lemma CallsIgnoreRejections(request: Request, config: Config, decodeJson: string -> Option<Value>,
                              client1: Client, client2: Client)
    ensures CallsOfTrace(Handler(request, config, decodeJson, client1).trace)
         == CallsOfTrace(Handler(request, config, decodeJson, client2).trace)
  {
    var payload := RequestPayload(request, decodeJson);
    if !IsUrlVerificationRequest(payload) {
      var e := GenerateReceiverEvent(payload);
      match Route(payload)
      case NoListener =>
      case MessageListener =>
        OnMessageIgnoresRejections(Get(payload, "event"), config, client1, client2);
      case GreetListener =>
        OnGreetIgnoresRejections(payload, e.ack, config, client1, client2);
    }
  }

  lemma OnMessageIgnoresRejections(message: Value, config: Config, client1: Client, client2: Client)
    requires !Nullish(message)
    ensures CallsOfTrace(OnMessage(message, config, client1)) == CallsOfTrace(OnMessage(message, config, client2))
  {
    var reaction := SlackReactionReply(config.botToken, Get(message, "channel"), Get(message, "ts"), Str(ReactionName));
    var reply := SlackReply(config.botToken, Get(message, "channel"), Get(message, "ts"), Str(AutoReplyText));
    CallsOfAsSteps(ReplyReaction(reaction, client1) + ReplyMessage(reply, client1));
    CallsOfAsSteps(ReplyReaction(reaction, client2) + ReplyMessage(reply, client2));
  }

  lemma OnGreetIgnoresRejections(body: Value, ack: Value -> HandlerResponse, config: Config,
                                 client1: Client, client2: Client)
    requires !Nullish(body)
    ensures CallsOfTrace(OnGreet(body, ack, config, client1)) == CallsOfTrace(OnGreet(body, ack, config, client2))
  {
    var reply := SlackPrivateReply(config.botToken, Get(body, "channel_id"), Get(body, "user_id"), Str(GreetReplyText));
    var t1 := OnGreet(body, ack, config, client1);
    var t2 := OnGreet(body, ack, config, client2);
    assert t1[1..] == AsSteps(ReplyPrivateMessage(reply, client1));
    assert t2[1..] == AsSteps(ReplyPrivateMessage(reply, client2));
    CallsOfAsSteps(ReplyPrivateMessage(reply, client1));
    CallsOfAsSteps(ReplyPrivateMessage(reply, client2));
  }

  /** Only the lower-case `content-type` header is consulted: any other
      header, including a differently cased `Content-Type`, changes nothing. */
  lemma OnlyLowercaseContentType(request: Request, config: Config, decodeJson: string -> Option<Value>,
                                 client: Client, name: string, value: string)
    requires name != "content-type"
    ensures Handler(Request(request.body, request.headers[name := value]), config, decodeJson, client)
         == Handler(request, config, decodeJson, client)
  {
    assert ContentType(Request(request.body, request.headers[name := value])) == ContentType(request);
  }

  /** A form-encoded body is classified like any other payload: the fields
      `type=url_verification` and a plain `challenge` make it a handshake,
      answered with the challenge and dispatching nothing. */
  lemma FormHandshake(request: Request, config: Config, decodeJson: string -> Option<Value>, client: Client,
                      challenge: string)
    requires ContentType(request) != Some(JsonContentType)
    requires PlainText(challenge)
    requires request.body == Some(Join(PlainPairs([("type", UrlVerification), ("challenge", challenge)]), '&'))
    ensures Handler(request, config, decodeJson, client) == HandlerResult(HandlerResponse(200, Str(challenge)), [])
  {
    var body := request.body.value;
    HandshakeFormFields(body, challenge);
    var m := ParseForm(body).value;
    assert ParseRequestBody(request.body, ContentType(request), decodeJson) == Form(m);
    var payload := RequestPayload(request, decodeJson);
    assert payload == StringObject(m);
    assert Get(payload, "type") == Str(UrlVerification);
    assert Get(payload, "challenge") == Str(challenge);
  }

  lemma HandshakeFormFields(body: string, challenge: string)
    requires PlainText(challenge)
    requires body == Join(PlainPairs([("type", UrlVerification), ("challenge", challenge)]), '&')
    ensures body != "" && ParseForm(body).Some?
    ensures "type" in ParseForm(body).value && ParseForm(body).value["type"] == UrlVerification
    ensures "challenge" in ParseForm(body).value && ParseForm(body).value["challenge"] == challenge
  {
    var entries := [("type", UrlVerification), ("challenge", challenge)];
    assert WellFormedKeys(entries);
    assert PlainText(entries[0].1);
    ParsePlainForm(entries);
    assert |body| >= |PlainPairs(entries)[0]|;
    assert entries[0].0 == "type" && entries[1].0 == "challenge";
  }

  /** The handshake from the platform: its challenge is echoed back. */
  lemma HandshakeScenario(body: string, decodeJson: string -> Option<Value>, config: Config, client: Client)
    requires body == "{\"type\":\"url_verification\",\"challenge\":\"TEAM123\"}"
    requires decodeJson(body) == Some(Obj(map["type" := Str("url_verification"), "challenge" := Str("TEAM123")]))
    ensures Handler(Request(Some(body), map["content-type" := "application/json"]), config, decodeJson, client)
         == HandlerResult(HandlerResponse(200, Str("TEAM123")), [])
  {
  }

  /** An event callback that no listener matches is answered with "" and
      makes no calls. */
  lemma UnmatchedEventScenario(body: string, decodeJson: string -> Option<Value>, config: Config, client: Client)
    requires body != ""
    requires decodeJson(body) == Some(Obj(map[
      "token" := Str("TOKEN123"), "team_id" := Str("TEAM123"), "api_app_id" := Str("APPID123"),
      "event" := Obj(map["bot_id" := Str("BOTID"), "bot_profile" := Obj(map["id" := Str("BOTPROFLEID")])])]))
    ensures Handler(Request(Some(body), map["content-type" := "application/json"]), config, decodeJson, client)
         == HandlerResult(HandlerResponse(200, Str("")), [])
  {
    var payload := RequestPayload(Request(Some(body), map["content-type" := "application/json"]), decodeJson);
    assert payload == decodeJson(body).value;
    assert !IsUrlVerificationRequest(payload);
    assert Route(payload) == NoListener;
  }

  /** A message event: the reply is "" with status 200, and the trace is the
      reaction followed by the threaded reply, on the event's channel and
      timestamp, whether or not the calls reject. */
  lemma MessageScenario(body: string, decodeJson: string -> Option<Value>, config: Config, client: Client,
                        channel: string, ts: string)
    requires body != ""
    requires decodeJson(body) == Some(Obj(map[
      "type" := Str("event_callback"),
      "event" := Obj(map["type" := Str("message"), "channel" := Str(channel), "ts" := Str(ts)])]))
    ensures var r := Handler(Request(Some(body), map["content-type" := "application/json"]), config, decodeJson, client);
      && r.response == HandlerResponse(200, Str(""))
      && CallsOfTrace(r.trace) == [
           ClientCall(ReactionsAdd, map["token" := config.botToken, "name" := Str("robot_face"),
                                        "channel" := Str(channel), "timestamp" := Str(ts)]),
           ClientCall(ChatPostMessage, map["token" := config.botToken, "channel" := Str(channel),
                                           "thread_ts" := Str(ts), "text" := Str("Hello :wave:")])]
  {
    var r := Handler(Request(Some(body), map["content-type" := "application/json"]), config, decodeJson, client);
    assert r.trace[1..][1..] == [];
    assert CallsOfTrace(r.trace[1..]) == [r.trace[1].record.call];
    assert CallsOfTrace(r.trace) == [r.trace[0].record.call, r.trace[1].record.call];
  }

  /** The `/greet` command, whatever body encoding produced its payload: an
      empty acknowledgment, then the ephemeral greeting to the invoking user
      in the invoking channel; the reply to the platform is "". */
  lemma GreetScenario(request: Request, decodeJson: string -> Option<Value>, config: Config, client: Client,
                      fields: map<string, string>)
    requires ParseRequestBody(request.body, ContentType(request), decodeJson) == Form(fields)
    requires "command" in fields && fields["command"] == Greet && "event" !in fields && "type" !in fields
    requires "channel_id" in fields && "user_id" in fields
    ensures var r := Handler(request, config, decodeJson, client);
      && r.response == HandlerResponse(200, Str(""))
      && |r.trace| == 2
      && r.trace[0] == Acked(HandlerResponse(200, Str("")))
      && r.trace[1].record.call == ClientCall(ChatPostEphemeral, map[
           "token" := config.botToken, "channel" := Str(fields["channel_id"]),
           "text" := Str("Greetings, user!"), "user" := Str(fields["user_id"])])
  {
    var payload := RequestPayload(request, decodeJson);
    assert payload == StringObject(fields);
    assert Get(payload, "command") == Str(Greet);
    assert Get(payload, "event") == Undefined;
    assert Route(payload) == GreetListener;
  }
}

# Webhook chat bot: request normalisation and dispatch, in Dafny

This project models the request pipeline of a serverless Slack bot. An HTTP
event arrives with a raw body and a `content-type` header. The body is parsed
into a payload: JSON for `application/json`, URL-encoded form pairs for
anything else, and the empty-string payload `""` for an absent body and for
every failure. The payload is checked for the platform's `url_verification`
handshake, whose challenge is echoed back. Anything else is wrapped into a
receiver event, with an acknowledgment callback, and dispatched to two listener
bindings:

- a message listener that adds a `robot_face` reaction and posts the threaded
  reply "Hello :wave:";
- a `/greet` command listener that acknowledges, then posts the ephemeral
  "Greetings, user!".

Whenever the handler answers, it answers with status 200. The dispatch to the
listeners is assumed to resolve (see `Slackbot.Handler` under "Left out").

Modules, one per source file or runtime facility:

- `Wrappers`: `Option`.
- `JsValue`: JavaScript values, truthiness, `??` and property reads.
- `StringSplit`: `String.prototype.split` with one separator character, and `join`.
- `UriComponent`: `decodeURIComponent`, following the Decode operation of section
  19.2.6.5 of ECMA-262. This includes UTF-8 validation (overlong forms,
  surrogates, values beyond U+10FFFF). `encodeURIComponent` is modelled too, as
  its inverse.
- `Constants` (src/constants.ts): the `/greet` literal, the reply packets and the
  handler response.
- `SlackClient`: the external web client, seen only as a record of calls and,
  for each call, whether it rejected.
- `Utils` (src/utils.ts): the body parser, the classifier, the receiver-event
  adapter and the three reply actions.
- `Slackbot` (src/functions/slackbot.ts): the listener bindings, the routing to
  them, and `handler`.

How the outside world appears in the model:

- `JSON.parse` is a parameter `decodeJson: string -> Option<Value>`. `None`
  stands for a thrown `SyntaxError`.
- The environment's `SLACK_BOT_TOKEN` is a `Config` value.
- The Slack client is a `Client` whose `rejects` function says which calls fail.
  Every listener returns the trace of `Step`s it caused: acknowledgments and
  calls.
- Each `await` is one step in sequence.

## Model

| member | source | states |
|---|---|---|
| `Utils.ParseRequestBody` | src/utils.ts:4-26 | An absent or empty body gives the empty payload, whatever the content type. A JSON payload arises only when the content type is exactly `application/json`, and it is what `JSON.parse` returned. A form payload arises only for any other content type, and it is the result of the form path. |
| `Utils.JsonBodyEmptyIff` | src/utils.ts:12-14 | On the JSON path, a non-empty body gives the decoded value, or the empty payload exactly when `JSON.parse` throws. |
| `Utils.PlainStringTaggedJson` | src/utils.ts:5-25 | A bare string tagged as JSON, which `JSON.parse` rejects, gives the empty payload and does not throw. |
| `Utils.FormBodyEmptyIff` | src/utils.ts:16-25 | On the form path, a non-empty body gives the empty payload exactly when some `&`-separated pair has a value that `decodeURIComponent` rejects. |
| `Utils.AssignPairsFailsIff` | src/utils.ts:16-25 | The pair loop fails exactly when some pair's value fails to decode. One bad value voids the whole result, not just its own pair. |
| `Utils.BadEscapeEmptiesBody` | src/utils.ts:16-25 | A `%` that does not start a well-formed escape, anywhere in any pair's value, makes the whole body parse to `""`. |
| `Utils.MalformedEscapeEmptiesBody` | src/utils.ts:16-25 | Instance: `a=1&b=%zz` parses to the empty payload even though `a=1` is well formed. |
| `Utils.AssignPairsKeys` | src/utils.ts:17-20 | The form result has exactly the distinct keys of the pairs, except `__proto__`. |
| `Utils.AssignPairsLastWins` | src/utils.ts:17-20 | A key maps to the decoded value of the last pair that names it (a later duplicate overwrites an earlier one). |
| `Utils.AssignPairsKeepsOthers` | src/utils.ts:17-20 | A key that no pair names keeps the value it had before the loop. |
| `Utils.PairSegments` | src/utils.ts:18-19 | The key is the text before the first `=`. The value is the text between the first and the second `=`. A pair with no `=` has value `""`. So `k=v=w` gives `k` the value `v`. |
| `Utils.ValueStopsAtSecondEquals` | src/utils.ts:16-20 | Instance: `a=b=c` parses to `{a: "b"}`. |
| `Utils.SinglePairForm` | src/utils.ts:16-20 | A one-pair body stores its key as written (keys are never decoded) and its value decoded. A value that fails to decode leaves no result. |
| `Utils.ParsePlainForm` | src/utils.ts:16-21 | A body of distinct plain keys and plain values, such as `token=AbCD123&team_id=T1234ABCD&team_domain=demoapp`, parses to exactly those keys with those values. |
| `Utils.ParseEncodedForm` | src/utils.ts:16-21 | A body built from distinct keys and `encodeURIComponent`-encoded values parses to exactly those keys with the original values. |
| `Utils.IsUrlVerificationRequest` | src/utils.ts:40-45 | True exactly for an object whose own `type` property is the string `url_verification`. False for null, undefined, a missing `type` and any other value. |
| `Utils.ClassifierScenarios` | src/utils.ts:40-45 | The classifier gives true for `{type: "url_verification"}`. It gives false for another type, for a missing type, for null, for undefined and for a bare string. |
| `Utils.GenerateReceiverEvent` | src/utils.ts:28-38 | The event's body is the payload. `ack(r)` answers status 200 with `r` when `r` is present, and with `""` when `r` is undefined or null. |
| `Utils.AckScenarios` | src/utils.ts:28-38 | `ack()` with no argument answers `{200, ""}`; `ack("mock response")` answers `{200, "mock response"}`. |
| `Utils.ReplyMessage` | src/utils.ts:47-58 | Exactly one `chat.postMessage` call, whose arguments are exactly `token`, `channel`, `thread_ts` and `text`, taken from the packet's token, channel, thread timestamp and message. The reply returns normally whether or not the call rejects. |
| `Utils.ReplyReaction` | src/utils.ts:60-71 | Exactly one `reactions.add` call, whose arguments are exactly `token`, `name`, `channel` and `timestamp`, taken from the packet. The reply returns normally either way. |
| `Utils.ReplyPrivateMessage` | src/utils.ts:73-84 | Exactly one `chat.postEphemeral` call, whose arguments are exactly `token`, `channel`, `text` and `user`. There is no thread field. The reply returns normally either way. |
| `Utils.RepliesIgnoreRejections` | src/utils.ts:47-84 | What each reply action asks of the client does not depend on which calls reject. |
| `UriComponent.DecodeUriComponent` | src/utils.ts:19 | A string without `%` decodes to itself. Decoding never lengthens a string. |
| `UriComponent.MalformedEscapeFails` | src/utils.ts:19 | One `%` that is not followed by two hexadecimal digits makes the whole decoding throw, wherever it stands. |
| `UriComponent.DecodeEncode` | src/utils.ts:19 | `decodeURIComponent(encodeURIComponent(s)) == s` for every string. |
| `UriComponent.EncodeUriComponent` | src/utils.ts:19 | The encoding holds only unreserved characters, `%` and hexadecimal digits. In particular it contains no `&` and no `=`. |
| `StringSplit.Split` | src/utils.ts:16-18 | `split` yields at least one piece, and no piece contains the separator. |
| `StringSplit.JoinSplit` | src/utils.ts:16-18 | Joining the pieces of a split with the separator gives back the original string. |
| `StringSplit.SplitJoin` | src/utils.ts:16-18 | Splitting a join of separator-free pieces gives back exactly those pieces. |
| `Slackbot.OnMessage` | src/functions/slackbot.ts:26-44 | Exactly two calls, in order: first a reaction named `robot_face`, then a threaded reply "Hello :wave:". Both carry the configured token and the message's channel, and the reaction's `timestamp` equals the reply's `thread_ts`, both being the message's `ts`. |
| `Slackbot.OnGreet` | src/functions/slackbot.ts:46-57 | First `ack()` with no argument. Then exactly one ephemeral call with "Greetings, user!", addressed to the body's `channel_id` and `user_id`, with the configured token. |
| `Slackbot.Route` | src/functions/slackbot.ts:26-57 | The message listener is reached exactly by an object body whose `event` is an object with `type` "message". The greet listener is reached exactly by an object body with no `event` whose `command` is `/greet`. |
| `Slackbot.Dispatch` | src/functions/slackbot.ts:26-70 | For a message event, the calls are the `robot_face` reaction and then the threaded "Hello :wave:", both with the configured token, on the event's `channel`, with the event's `ts` as `timestamp` and `thread_ts`. For a `/greet` command with no `event`, `ack()` with no argument comes first, then the only call: the ephemeral "Greetings, user!" to the body's `channel_id` and `user_id`. Any other body causes no step at all. |
| `Slackbot.Handler` | src/functions/slackbot.ts:59-76 | The status is 200 on both paths, with dispatch assumed to resolve. A handshake is answered with `payload.challenge` and its trace is empty. Anything else is answered with `""`, and its trace is that of dispatching the receiver event built from the payload. |
| `Slackbot.ResponseIgnoresClient` | src/functions/slackbot.ts:69-75 | The response does not depend on which client calls reject, nor on the configured token. |
| `Slackbot.CallsIgnoreRejections` | src/functions/slackbot.ts:26-57 | The calls a request causes are the same whichever calls reject. A rejected reaction does not stop the reply after it. |
| `Slackbot.OnlyLowercaseContentType` | src/functions/slackbot.ts:60 | Only the header key `content-type` is read. Changing any other header, including `Content-Type`, changes nothing. |
| `Slackbot.FormHandshake` | src/functions/slackbot.ts:60-67 | A form body `type=url_verification&challenge=c` is also a handshake. It is answered with `c`, and nothing is dispatched. |
| `Slackbot.HandshakeScenario` | src/functions/slackbot.ts:62-67 | The JSON handshake `{"type":"url_verification","challenge":"TEAM123"}` is answered with `{200, "TEAM123"}` and makes no calls. |
| `Slackbot.UnmatchedEventScenario` | src/functions/slackbot.ts:69-75 | An event callback whose event is not a message is answered with `{200, ""}` and makes no calls. |
| `Slackbot.MessageScenario` | src/functions/slackbot.ts:26-76 | A message event is answered with `{200, ""}`. Its calls are the reaction and then the threaded reply, on the event's channel and `ts`. |
| `Slackbot.GreetScenario` | src/functions/slackbot.ts:46-76 | A form payload whose `command` is `/greet` gets the empty acknowledgment `{200, ""}`, then the ephemeral greeting to its `channel_id` and `user_id`. The platform is answered with `""`. |

## Left out

- `JSON.parse` itself: the JSON grammar is not modelled. The decoder is a parameter, so every property holds for any decoder.
- `JsValue.Value`: numbers are finite reals. The `NaN` and `Infinity` that `JSON.parse` can produce (for `1e400`, say) are not representable, so the decoder parameter cannot return them, for instance as a `challenge`.
- The `JSON.parse(JSON.stringify(result))` round trip of the form result: for a flat map of strings it is the identity, so the model returns the map directly.
- JavaScript strings are UTF-16; the model's strings are sequences of Unicode scalar values. A lone surrogate cannot be represented, so neither can the errors `encodeURIComponent` raises for one. A decoded supplementary character is one model character rather than a surrogate pair.
- Property reads model only an object's own properties. Inherited properties, string `length` and array indices are not modelled, because the core reads none of them.
- The messaging engine's internals (`App`, `ExpressReceiver`, `processEvent`, request signature checks, the middleware that ignores the bot's own messages, and the automatic acknowledgment of Events API requests) are library code. `Slackbot.Route` keeps only the rule that decides which of the two bindings runs. A body that is not an object matches no listener; the library's behaviour on such a body is not modelled.
- Slackbot.Handler: `app.processEvent` (src/functions/slackbot.ts:70) is awaited with no `try`/`catch`. The model treats dispatch as total, so it assumes that call resolves. If it rejected, `handler` would reject instead of answering 200, and that path is not modelled.
- Logging (`console.error`), `dotenv` and `process.env` loading are I/O. The token is a `Config` parameter.
- Promise mechanics: each `await` is one sequential step. The un-awaited `ack()` in the `/greet` listener is recorded before the reply call, which is where it starts.
- `DefaultBotSettings` (src/constants.ts:7-10) is never used by the bindings, and the hello-world handler in src/slackbot.ts has no logic.
- The `app` field of the reply packets is replaced by the explicit `Client` argument.

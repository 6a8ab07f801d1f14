/** The request-normalisation helpers of the bot: body parsing, handshake
    classification, the receiver-event adapter and the three reply actions. */
module Utils {
  import opened Wrappers
  import opened JsValue
  import opened StringSplit
  import opened UriComponent
  import opened Constants
  import opened SlackClient

  /** The only content type that selects JSON decoding. */
  const JsonContentType := "application/json"

  /** The handshake marker in a payload's `type` field. */
  const UrlVerification := "url_verification"

  /** The one key that a plain-object assignment `obj[key] = value` with a
      string value leaves without effect: the `__proto__` setter ignores
      anything that is not an object. */
  const ProtoKey := "__proto__"

  /** A parsed request body: the empty-string payload `""` that every
      failure collapses to, a flat form map, or a decoded JSON value. */
  datatype Payload = Empty | Form(fields: map<string, string>) | Json(value: Value)

  /** The JavaScript value a payload is. */
  function PayloadValue(p: Payload): Value {
    match p
    case Empty => Str("")
    case Form(m) => StringObject(m)
    case Json(v) => v
  }

  // ---- the form path of parseRequestBody ----

  /** `pair.split("=")[0]`: the key, kept as written (never decoded). */
  function PairKey(pair: string): string {
    Split(pair, '=')[0]
  }

  /** `pair.split("=")[1] || ""`: the text between the first and the second
      `=`, or the empty string when the pair has no `=`. */
  function PairRawValue(pair: string): string {
    var parts := Split(pair, '=');
    if |parts| > 1 then parts[1] else ""
  }

  /** The decoded value of a pair, None where `decodeURIComponent` throws. */
  function PairValue(pair: string): Option<string> {
    DecodeUriComponent(PairRawValue(pair))
  }

  /** `obj[key] = value` on a plain object. */
  function SetProperty(obj: map<string, string>, key: string, value: string): (r: map<string, string>)
    ensures key != ProtoKey ==> r == obj[key := value]
    ensures key == ProtoKey ==> r == obj
  {
    if key == ProtoKey then obj else obj[key := value]
  }

  /** The `forEach` over the pairs, in order, into `obj`; None as soon as a
      value fails to decode, since the exception leaves the loop. */
  function AssignPairs(obj: map<string, string>, pairs: seq<string>): (r: Option<map<string, string>>)
    ensures r.Some? ==> obj.Keys <= r.value.Keys
    decreases |pairs|
  {
    if |pairs| == 0 then Some(obj)
    else
      match PairValue(pairs[0])
      case None => None
      case Some(v) => AssignPairs(SetProperty(obj, PairKey(pairs[0]), v), pairs[1..])
  }

  /** The keys the pairs name. */
  function PairKeys(pairs: seq<string>): set<string> {
    set i | 0 <= i < |pairs| :: PairKey(pairs[i])
  }

  /** The form path: split on `&`, assign each pair. `JSON.parse(JSON.stringify(m))`
      of a flat string map is the map itself, so it does not appear. */
  function ParseForm(body: string): Option<map<string, string>> {
    AssignPairs(map[], Split(body, '&'))
  }

  /** `parseRequestBody(stringBody, contentType)`. It never throws: an absent
      or empty body, a JSON decoding failure and a URI decoding failure all
      give the empty payload. `decodeJson` is `JSON.parse`, None where it
      throws. */
  function ParseRequestBody(body: Option<string>, contentType: Option<string>,
                            decodeJson: string -> Option<Value>): (p: Payload)
    ensures body.None? || body.value == "" ==> p == Empty
    ensures p.Json? ==> contentType == Some(JsonContentType) && decodeJson(body.value) == Some(p.value)
    ensures p.Form? ==> contentType != Some(JsonContentType) && ParseForm(body.value) == Some(p.fields)
  {
    if body.None? || body.value == "" then Empty
    // `contentType && contentType === ...`: the truthiness test is implied by the equality
    else if contentType == Some(JsonContentType) then
      match decodeJson(body.value)
      case Some(v) => Json(v)
      case None => Empty
    else
      match ParseForm(body.value)
      case Some(m) => Form(m)
      case None => Empty
  }

  // ---- properties of the form path ----

  /** Some pair has a value that `decodeURIComponent` rejects. */
  predicate HasUndecodableValue(pairs: seq<string>) {
    exists i :: 0 <= i < |pairs| && PairValue(pairs[i]).None?
  }

  /** The form assignment fails exactly when some pair's value fails to
      decode: one bad escape empties the whole result. */
  lemma {:induction false} AssignPairsFailsIff(obj: map<string, string>, pairs: seq<string>)
    ensures AssignPairs(obj, pairs).None? <==> HasUndecodableValue(pairs)
    decreases |pairs|
  {
    if |pairs| > 0 {
      match PairValue(pairs[0])
      case None =>
      case Some(v) =>
        var obj' := SetProperty(obj, PairKey(pairs[0]), v);
        AssignPairsFailsIff(obj', pairs[1..]);
        if exists i :: 0 <= i < |pairs| && PairValue(pairs[i]).None? {
          var i :| 0 <= i < |pairs| && PairValue(pairs[i]).None?;
          assert pairs[1..][i - 1] == pairs[i];
        }
        if exists i :: 0 <= i < |pairs[1..]| && PairValue(pairs[1..][i]).None? {
          var i :| 0 <= i < |pairs[1..]| && PairValue(pairs[1..][i]).None?;
          assert pairs[i + 1] == pairs[1..][i];
        }
    }
  }

  /** The form result holds exactly the keys of the pairs added to the
      object it started from, except `__proto__`. */
  lemma {:induction false} AssignPairsKeys(obj: map<string, string>, pairs: seq<string>)
    requires ProtoKey !in obj
    requires AssignPairs(obj, pairs).Some?
    ensures AssignPairs(obj, pairs).value.Keys == obj.Keys + PairKeys(pairs) - {ProtoKey}
    decreases |pairs|
  {
    if |pairs| > 0 {
      var v := PairValue(pairs[0]).value;
      var obj' := SetProperty(obj, PairKey(pairs[0]), v);
      AssignPairsKeys(obj', pairs[1..]);
      assert PairKeys(pairs) == {PairKey(pairs[0])} + PairKeys(pairs[1..]) by {
        forall k | k in PairKeys(pairs) ensures k in {PairKey(pairs[0])} + PairKeys(pairs[1..]) {
          var i :| 0 <= i < |pairs| && PairKey(pairs[i]) == k;
          if i > 0 {
            assert pairs[1..][i - 1] == pairs[i];
          }
        }
        forall k | k in PairKeys(pairs[1..]) ensures k in PairKeys(pairs) {
          var i :| 0 <= i < |pairs[1..]| && PairKey(pairs[1..][i]) == k;
          assert pairs[i + 1] == pairs[1..][i];
        }
      }
    }
  }

  /** A key that no pair names keeps the value it had in the starting object. */
  lemma {:induction false} AssignPairsKeepsOthers(obj: map<string, string>, pairs: seq<string>, k: string)
    requires AssignPairs(obj, pairs).Some?
    requires k in obj && k !in PairKeys(pairs)
    ensures AssignPairs(obj, pairs).value[k] == obj[k]
    decreases |pairs|
  {
    if |pairs| > 0 {
      var v := PairValue(pairs[0]).value;
      assert PairKey(pairs[0]) in PairKeys(pairs);
      assert PairKeys(pairs[1..]) <= PairKeys(pairs) by {
        forall k' | k' in PairKeys(pairs[1..]) ensures k' in PairKeys(pairs) {
          var i :| 0 <= i < |pairs[1..]| && PairKey(pairs[1..][i]) == k';
          assert pairs[i + 1] == pairs[1..][i];
        }
      }
      AssignPairsKeepsOthers(SetProperty(obj, PairKey(pairs[0]), v), pairs[1..], k);
    }
  }

  /** Last duplicate wins: a key maps to the decoded value of the last pair
      that names it. */
  lemma {:induction false} AssignPairsLastWins(obj: map<string, string>, pairs: seq<string>, i: nat)
    requires AssignPairs(obj, pairs).Some?
    requires i < |pairs| && PairKey(pairs[i]) != ProtoKey
    requires forall j :: i < j < |pairs| ==> PairKey(pairs[j]) != PairKey(pairs[i])
    ensures PairValue(pairs[i]).Some?
    ensures PairKey(pairs[i]) in AssignPairs(obj, pairs).value
    ensures AssignPairs(obj, pairs).value[PairKey(pairs[i])] == PairValue(pairs[i]).value
    decreases |pairs|
  {
    var v := PairValue(pairs[0]).value;
    var obj' := SetProperty(obj, PairKey(pairs[0]), v);
    if i == 0 {
      var k := PairKey(pairs[0]);
      assert k !in PairKeys(pairs[1..]);
      AssignPairsKeepsOthers(obj', pairs[1..], k);
    } else {
      forall j | i - 1 < j < |pairs[1..]| ensures PairKey(pairs[1..][j]) != PairKey(pairs[1..][i - 1]) {
        assert pairs[1..][j] == pairs[j + 1];
      }
      AssignPairsLastWins(obj', pairs[1..], i - 1);
      assert pairs[1..][i - 1] == pairs[i];
    }
  }

  /** On the form path a non-empty body parses to the empty payload exactly
      when some `&`-separated pair has a value `decodeURIComponent` rejects. */
  lemma FormBodyEmptyIff(body: string, contentType: Option<string>, decodeJson: string -> Option<Value>)
    requires body != "" && contentType != Some(JsonContentType)
    ensures ParseRequestBody(Some(body), contentType, decodeJson) == Empty <==>
      HasUndecodableValue(Split(body, '&'))
  {
    AssignPairsFailsIff(map[], Split(body, '&'));
  }

  /** On the JSON path a non-empty body parses to the empty payload exactly
      when `JSON.parse` throws; otherwise the payload is the decoded value. */
  lemma JsonBodyEmptyIff(body: string, decodeJson: string -> Option<Value>)
    requires body != ""
    ensures ParseRequestBody(Some(body), Some(JsonContentType), decodeJson) ==
      (if decodeJson(body).Some? then Json(decodeJson(body).value) else Empty)
  {
  }

  /** The pair `k=<encodeURIComponent(v)>` has key `k` and value `v`. */
  lemma EncodedPairParts(k: string, v: string)
    requires '=' !in k
    ensures PairKey(k + "=" + EncodeUriComponent(v)) == k
    ensures PairValue(k + "=" + EncodeUriComponent(v)) == Some(v)
  {
    var e := EncodeUriComponent(v);
    assert Join([k, e], '=') == k + "=" + e;
    SplitJoin([k, e], '=');
    DecodeEncode(v);
  }

  /** A form body written from entries: `k1=<enc v1>&k2=<enc v2>&...`. */
  function FormBody(entries: seq<(string, string)>): string
    requires |entries| >= 1
  {
    Join(EncodedPairs(entries), '&')
  }

  function EncodedPairs(entries: seq<(string, string)>): (pairs: seq<string>)
    ensures |pairs| == |entries|
  {
    seq(|entries|, i requires 0 <= i < |entries| => entries[i].0 + "=" + EncodeUriComponent(entries[i].1))
  }

  /** Keys of a form body that the parser reproduces: no `&` or `=`, not
      `__proto__`, no key twice. */
  predicate WellFormedKeys(entries: seq<(string, string)>) {
    && (forall i :: 0 <= i < |entries| ==> '&' !in entries[i].0 && '=' !in entries[i].0 && entries[i].0 != ProtoKey)
    && (forall i, j :: 0 <= i < j < |entries| ==> entries[i].0 != entries[j].0)
  }

  /** The pairs of a form body written from entries are the encoded pairs. */
  lemma FormBodyPairs(entries: seq<(string, string)>)
    requires |entries| >= 1 && WellFormedKeys(entries)
    ensures Split(FormBody(entries), '&') == EncodedPairs(entries)
  {
    var pairs := EncodedPairs(entries);
    forall i | 0 <= i < |pairs| ensures '&' !in pairs[i] {
      assert pairs[i] == entries[i].0 + "=" + EncodeUriComponent(entries[i].1);
    }
    SplitJoin(pairs, '&');
  }

  /** Assigning pairs with distinct keys other than `__proto__` and
      decodable values yields exactly those keys with those values. */
  lemma AssignDistinctPairs(pairs: seq<string>, entries: seq<(string, string)>)
    requires |pairs| == |entries| && WellFormedKeys(entries)
    requires forall i :: 0 <= i < |pairs| ==> PairKey(pairs[i]) == entries[i].0 && PairValue(pairs[i]) == Some(entries[i].1)
    ensures AssignPairs(map[], pairs).Some?
    ensures AssignPairs(map[], pairs).value.Keys == set i | 0 <= i < |entries| :: entries[i].0
    ensures forall i :: 0 <= i < |entries| ==> AssignPairs(map[], pairs).value[entries[i].0] == entries[i].1
  {
    assert !HasUndecodableValue(pairs);
    AssignPairsFailsIff(map[], pairs);
    AssignPairsKeys(map[], pairs);
    PairKeysOfEntries(pairs, entries);
    forall i | 0 <= i < |entries| ensures AssignPairs(map[], pairs).value[entries[i].0] == entries[i].1 {
      AssignPairsLastWins(map[], pairs, i);
    }
  }

  lemma PairKeysOfEntries(pairs: seq<string>, entries: seq<(string, string)>)
    requires |pairs| == |entries|
    requires forall i :: 0 <= i < |pairs| ==> PairKey(pairs[i]) == entries[i].0
    ensures PairKeys(pairs) == set i | 0 <= i < |entries| :: entries[i].0
  {
    forall k | k in PairKeys(pairs) ensures k in set i | 0 <= i < |entries| :: entries[i].0 {
      var i :| 0 <= i < |pairs| && PairKey(pairs[i]) == k;
      assert entries[i].0 == k;
    }
    forall k | k in set i | 0 <= i < |entries| :: entries[i].0 ensures k in PairKeys(pairs) {
      var i :| 0 <= i < |entries| && entries[i].0 == k;
      assert PairKey(pairs[i]) == k;
    }
  }

  /** A form body of distinct plain keys with encoded values parses to exactly
      those keys, each with its value decoded. */
  lemma ParseEncodedForm(entries: seq<(string, string)>)
    requires |entries| >= 1 && WellFormedKeys(entries)
    ensures ParseForm(FormBody(entries)).Some?
    ensures ParseForm(FormBody(entries)).value.Keys == set i | 0 <= i < |entries| :: entries[i].0
    ensures forall i :: 0 <= i < |entries| ==> ParseForm(FormBody(entries)).value[entries[i].0] == entries[i].1
  {
    var pairs := EncodedPairs(entries);
    FormBodyPairs(entries);
    forall i | 0 <= i < |pairs| ensures PairKey(pairs[i]) == entries[i].0 && PairValue(pairs[i]) == Some(entries[i].1) {
      EncodedPairParts(entries[i].0, entries[i].1);
    }
    AssignDistinctPairs(pairs, entries);
  }

  /** `a=b=c` gives `a` the text between the first and second `=`. */
  lemma ValueStopsAtSecondEquals()
    ensures ParseForm("a=b=c") == Some(map["a" := "b"])
  {
    SplitWithoutSeparator("a=b=c", '&');
    assert Join(["a", "b", "c"], '=') == "a=b=c";
    SplitJoin(["a", "b", "c"], '=');
  }

  /** The segments of a pair: the key is the text before the first `=`,
      the raw value the text between the first and the second `=`. */
  lemma PairSegments(k: string, v: string, w: string)
    requires '=' !in k && '=' !in v
    ensures PairKey(k) == k && PairRawValue(k) == ""
    ensures PairKey(k + "=" + v) == k && PairRawValue(k + "=" + v) == v
    ensures PairKey(k + "=" + v + "=" + w) == k && PairRawValue(k + "=" + v + "=" + w) == v
  {
    SplitWithoutSeparator(k, '=');
    SplitWithoutSeparator(v, '=');
    SplitAfterPiece(k, '=', v);
    SplitAfterPiece(k, '=', v + "=" + w);
    SplitAfterPiece(v, '=', w);
    assert k + "=" + v + "=" + w == k + ['='] + (v + ['='] + w);
  }

  /** A body that is one pair stores its key as written, undecoded, and its
      value decoded; a value that fails to decode leaves no result. */
  lemma SinglePairForm(k: string, v: string)
    requires '&' !in k && '&' !in v && '=' !in k && '=' !in v && k != ProtoKey
    ensures DecodeUriComponent(v).Some? ==> ParseForm(k + "=" + v) == Some(map[k := DecodeUriComponent(v).value])
    ensures DecodeUriComponent(v).None? ==> ParseForm(k + "=" + v) == None
  {
    var pair := k + "=" + v;
    assert '&' !in pair;
    SplitWithoutSeparator(pair, '&');
    PairSegments(k, v, "");
    assert PairValue(pair) == DecodeUriComponent(v);
    assert ParseForm(pair) == AssignPairs(map[], [pair]);
    if DecodeUriComponent(v).Some? {
      var d := DecodeUriComponent(v).value;
      assert [pair][1..] == [];
      assert AssignPairs(map[], [pair]) == AssignPairs(map[k := d], []);
    }
  }

  /** One malformed escape in any value empties the whole form result. */
  lemma MalformedEscapeEmptiesBody(decodeJson: string -> Option<Value>)
    ensures ParseRequestBody(Some("a=1&b=%zz"), Some("application/x-www-form-urlencoded"), decodeJson) == Empty
  {
    assert Join(["a=1", "b=%zz"], '&') == "a=1&b=%zz";
    SplitJoin(["a=1", "b=%zz"], '&');
    assert Join(["b", "%zz"], '=') == "b=%zz";
    SplitJoin(["b", "%zz"], '=');
    MalformedEscapeFails("%zz", 0);
    assert PairValue(["a=1", "b=%zz"][1]).None?;
    AssignPairsFailsIff(map[], ["a=1", "b=%zz"]);
  }

  /** Text with no `%`, `&` or `=`: it stands in a form body as written. */
  predicate PlainText(s: string) {
    '%' !in s && '&' !in s && '=' !in s
  }

  /** The pairs `k=v` of entries written as they are. */
  function PlainPairs(entries: seq<(string, string)>): (pairs: seq<string>)
    ensures |pairs| == |entries|
  {
    seq(|entries|, i requires 0 <= i < |entries| => entries[i].0 + "=" + entries[i].1)
  }

  /** A form body of distinct plain keys and plain values, such as
      `token=AbCD123&team_id=T1234ABCD&team_domain=demoapp`, parses to exactly
      those keys with those values. */
  lemma ParsePlainForm(entries: seq<(string, string)>)
    requires |entries| >= 1 && WellFormedKeys(entries)
    requires forall i :: 0 <= i < |entries| ==> PlainText(entries[i].1)
    ensures ParseForm(Join(PlainPairs(entries), '&')).Some?
    ensures ParseForm(Join(PlainPairs(entries), '&')).value.Keys == set i | 0 <= i < |entries| :: entries[i].0
    ensures forall i :: 0 <= i < |entries| ==> ParseForm(Join(PlainPairs(entries), '&')).value[entries[i].0] == entries[i].1
  {
    var pairs := PlainPairs(entries);
    forall i | 0 <= i < |pairs| ensures '&' !in pairs[i] && PairKey(pairs[i]) == entries[i].0 && PairValue(pairs[i]) == Some(entries[i].1) {
      assert pairs[i] == entries[i].0 + "=" + entries[i].1;
      PairSegments(entries[i].0, entries[i].1, "");
    }
    SplitJoin(pairs, '&');
    AssignDistinctPairs(pairs, entries);
  }

  /** A `%` that does not start a well-formed escape, in the value of any
      pair of a form body, makes the whole body parse to the empty payload. */
  lemma BadEscapeEmptiesBody(body: string, contentType: Option<string>, decodeJson: string -> Option<Value>,
                             i: nat, j: nat)
    requires body != "" && contentType != Some(JsonContentType)
    requires i < |Split(body, '&')|
    requires j < |PairRawValue(Split(body, '&')[i])|
    requires PairRawValue(Split(body, '&')[i])[j] == '%' && !EscapeAt(PairRawValue(Split(body, '&')[i]), j)
    ensures ParseRequestBody(Some(body), contentType, decodeJson) == Empty
  {
    MalformedEscapeFails(PairRawValue(Split(body, '&')[i]), j);
    FormBodyEmptyIff(body, contentType, decodeJson);
  }

  /** A bare string tagged as JSON, which `JSON.parse` rejects, gives the
      empty payload. */
  lemma PlainStringTaggedJson(decodeJson: string -> Option<Value>)
    requires decodeJson("abc123") == None
    ensures ParseRequestBody(Some("abc123"), Some(JsonContentType), decodeJson) == Empty
  {
  }

  // ---- handshake classification and the receiver event ----

  /** `isUrlVerificationRequest(payload)`: true exactly for an object whose
      own `type` property is the string "url_verification"; false for null,
      undefined, a missing `type` and every other value. */
  predicate IsUrlVerificationRequest(payload: Value)
    ensures IsUrlVerificationRequest(payload) <==>
      payload.Obj? && "type" in payload.fields && payload.fields["type"] == Str(UrlVerification)
  {
    Truthy(payload) && Truthy(Get(payload, "type")) && Get(payload, "type") == Str(UrlVerification)
  }

  /** The canonical event handed to the dispatcher: the payload and the
      acknowledgment callback. */
  datatype ReceiverEvent = ReceiverEvent(body: Value, ack: Value -> HandlerResponse)

  /** `generateReceiverEvent(payload)`. Its `ack(response)` answers 200 with
      `response`, or with "" when `response` is undefined or null. */
  function GenerateReceiverEvent(payload: Value): (e: ReceiverEvent)
    ensures e.body == payload
    ensures forall response :: e.ack(response).statusCode == 200
    ensures forall response :: !Nullish(response) ==> e.ack(response).body == response
    ensures forall response :: Nullish(response) ==> e.ack(response).body == Str("")
  {
    ReceiverEvent(payload, (response: Value) => HandlerResponse(200, Coalesce(response, Str(""))))
  }

  /** The classifier on the payload shapes used by the repository's own unit tests. */
  lemma ClassifierScenarios()
    ensures IsUrlVerificationRequest(Obj(map["type" := Str("url_verification")]))
    ensures !IsUrlVerificationRequest(Obj(map["type" := Str("some_other_event")]))
    ensures !IsUrlVerificationRequest(Obj(map["body" := Str("demo"), "header" := Str("slack")]))
    ensures !IsUrlVerificationRequest(Null) && !IsUrlVerificationRequest(Undefined)
    ensures !IsUrlVerificationRequest(Str(UrlVerification))
  {
  }

  /** The acknowledgment callback answers "" when called with no response
      and echoes a response it is given. */
  lemma AckScenarios(payload: Value)
    ensures GenerateReceiverEvent(payload).body == payload
    ensures GenerateReceiverEvent(payload).ack(Undefined) == HandlerResponse(200, Str(""))
    ensures GenerateReceiverEvent(payload).ack(Str("mock response")) == HandlerResponse(200, Str("mock response"))
  {
  }

  // ---- reply actions ----
  // Each issues one client call and returns normally whether or not the call
  // rejected: the rejection is caught and only logged.

  /** `replyMessage(packet)`: one `chat.postMessage` with the packet's fields
      renamed to `token`, `channel`, `thread_ts`, `text`. */
  function ReplyMessage(packet: SlackReply, client: Client): (trace: seq<CallRecord>)
    ensures |trace| == 1 && trace[0].call.api == ChatPostMessage
    ensures trace[0].call.args.Keys == {"token", "channel", "thread_ts", "text"}
    ensures trace[0].call.args["token"] == packet.botToken
    ensures trace[0].call.args["channel"] == packet.channelId
    ensures trace[0].call.args["thread_ts"] == packet.threadTimestamp
    ensures trace[0].call.args["text"] == packet.message
    ensures trace[0].rejected == client.rejects(trace[0].call)
  {
    [Invoke(client, ClientCall(ChatPostMessage, map[
      "token" := packet.botToken,
      "channel" := packet.channelId,
      "thread_ts" := packet.threadTimestamp,
      "text" := packet.message]))]
  }

  /** `replyReaction(packet)`: one `reactions.add` with fields `token`,
      `name`, `channel`, `timestamp`. */
  function ReplyReaction(packet: SlackReactionReply, client: Client): (trace: seq<CallRecord>)
    ensures |trace| == 1 && trace[0].call.api == ReactionsAdd
    ensures trace[0].call.args.Keys == {"token", "name", "channel", "timestamp"}
    ensures trace[0].call.args["token"] == packet.botToken
    ensures trace[0].call.args["name"] == packet.reaction
    ensures trace[0].call.args["channel"] == packet.channelId
    ensures trace[0].call.args["timestamp"] == packet.threadTimestamp
    ensures trace[0].rejected == client.rejects(trace[0].call)
  {
    [Invoke(client, ClientCall(ReactionsAdd, map[
      "token" := packet.botToken,
      "name" := packet.reaction,
      "channel" := packet.channelId,
      "timestamp" := packet.threadTimestamp]))]
  }

  /** `replyPrivateMessage(packet)`: one `chat.postEphemeral` with fields
      `token`, `channel`, `text`, `user`, and no thread field. */
  function ReplyPrivateMessage(packet: SlackPrivateReply, client: Client): (trace: seq<CallRecord>)
    ensures |trace| == 1 && trace[0].call.api == ChatPostEphemeral
    ensures trace[0].call.args.Keys == {"token", "channel", "text", "user"}
    ensures "thread_ts" !in trace[0].call.args
    ensures trace[0].call.args["token"] == packet.botToken
    ensures trace[0].call.args["channel"] == packet.channelId
    ensures trace[0].call.args["text"] == packet.message
    ensures trace[0].call.args["user"] == packet.userId
    ensures trace[0].rejected == client.rejects(trace[0].call)
  {
    [Invoke(client, ClientCall(ChatPostEphemeral, map[
      "token" := packet.botToken,
      "channel" := packet.channelId,
      "text" := packet.message,
      "user" := packet.userId]))]
  }

  /** What a reply action asks of the client does not depend on whether the
      client rejects: failures change only the recorded outcome. */
  lemma RepliesIgnoreRejections(c1: Client, c2: Client, m: SlackReply, r: SlackReactionReply, p: SlackPrivateReply)
    ensures CallsOf(ReplyMessage(m, c1)) == CallsOf(ReplyMessage(m, c2))
    ensures CallsOf(ReplyReaction(r, c1)) == CallsOf(ReplyReaction(r, c2))
    ensures CallsOf(ReplyPrivateMessage(p, c1)) == CallsOf(ReplyPrivateMessage(p, c2))
  {
  }
}

/** The messaging platform's web client, seen from outside: the calls made to
    it, and whether each one rejected. */
module SlackClient {
  import opened JsValue

  /** The client methods the bot uses. */
  datatype Api = ChatPostMessage | ReactionsAdd | ChatPostEphemeral

  /** One call: the method and the object literal passed to it. */
  datatype ClientCall = ClientCall(api: Api, args: map<string, Value>)

  /** The client's behaviour that matters to the bot: which calls reject. */
  datatype Client = Client(rejects: ClientCall -> bool)

  /** A call as it happened. */
  datatype CallRecord = CallRecord(call: ClientCall, rejected: bool)

  /** Awaiting `call` on `client`. */
  function Invoke(client: Client, call: ClientCall): (r: CallRecord)
    ensures r.call == call
    ensures r.rejected <==> client.rejects(call)
  {
    CallRecord(call, client.rejects(call))
  }

  /** The calls of a trace, without their outcomes. */
  function CallsOf(records: seq<CallRecord>): (calls: seq<ClientCall>)
    ensures |calls| == |records|
    ensures forall i :: 0 <= i < |records| ==> calls[i] == records[i].call
  {
    seq(|records|, i requires 0 <= i < |records| => records[i].call)
  }
}

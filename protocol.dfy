/** src/protocol.rs: the non-generic message of the first echo server.
    A `Message` has `src`, `dest` and a body holding the message type,
    `msg_id` and `in_reply_to`; `reply` builds the answer to a request. */
module Protocol {
  import Envelope

  datatype MessageType =
    | Init(nodeId: string, nodeIds: seq<string>)
    | InitOk
    | Echo(echo: string)
    | EchoOk(echo: string)
  {
    /** The types `reply_type` answers; on the others it is `unreachable!()`. */
    predicate IsRequest()
    {
      Init? || Echo?
    }

    /** `reply_type`: the answer type of a request type. */
    function ReplyType(): (r: MessageType)
      requires IsRequest()
      ensures !r.IsRequest()
      ensures Echo? <==> r.EchoOk?
      ensures Init? <==> r.InitOk?
      ensures r.EchoOk? ==> r.echo == echo
    {
      match this
      case Echo(text) => EchoOk(text)
      case Init(_, _) => InitOk
    }
  }

  datatype MessageBody = MessageBody(msgType: MessageType, msgId: Envelope.Option<Envelope.U32>, inReplyTo: Envelope.Option<Envelope.U32>)

  datatype Message = Message(src: string, dest: string, body: MessageBody)
  {
    /** `r#type()`. */
    function Type(): MessageType
    {
      body.msgType
    }

    /** `id()`. */
    function Id(): Envelope.Option<Envelope.U32>
    {
      body.msgId
    }

    /** A message `reply` can answer: its type is a request type. */
    predicate IsReplyable()
    {
      Type().IsRequest()
    }

    /** `reply()`: the endpoints are swapped, `in_reply_to` is this message's
        `msg_id`, and so is the reply's own `msg_id` (no counter is used).
        The reply is never itself replyable. */
    function Reply(): (r: Message)
      requires IsReplyable()
      ensures r.src == dest && r.dest == src
      ensures r.body.inReplyTo == Id()
      ensures r.Id() == Id()
      ensures !r.IsReplyable()
      ensures Type().Echo? ==> r.Type() == EchoOk(Type().echo)
      ensures Type().Init? ==> r.Type() == InitOk
    {
      Message(dest, src, MessageBody(body.msgType.ReplyType(), body.msgId, body.msgId))
    }
  }

  /** `rep` answers `req` under the correlation rule: endpoints swapped and
      `in_reply_to` equal to the request's `msg_id`. */
  predicate Correlates(req: Message, rep: Message)
  {
    rep.src == req.dest && rep.dest == req.src && rep.body.inReplyTo == req.Id()
  }

  /** Every reply correlates with its request, and carries the reply type. */
  lemma ReplyCorrelates(m: Message)
    requires m.IsReplyable()
    ensures Correlates(m, m.Reply())
    ensures m.Reply().Type() == m.Type().ReplyType()
  {
  }
}

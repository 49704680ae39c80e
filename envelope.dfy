/** The envelope every bin node reads and writes: a generic `Message<Payload>`
    with `src`, `dst` and a body carrying `id`, `in_reply_to` and the payload,
    the reply builder `into_reply_with_payload`, the `Init` handed to
    `from_init`, and the output that `send` writes to.

    The library that defines these is not part of this model. What the nodes
    rely on is stated here as the labelled assumption REPLY-BUILDER:
      - the reply goes from the input's `dst` back to the input's `src`;
      - its `in_reply_to` is the input's `id`;
      - when a counter is supplied, the reply's `id` is the counter's current
        value and the counter is then advanced by one, wrapping at 2^32
        (a `u32` incremented with `+=` in a release build);
      - when no counter is supplied, the reply carries no `id`. */
module Envelope {

  const U32_LIMIT: int := 0x1_0000_0000

  /** Rust's `u32`. */
  type U32 = x: int | 0 <= x < U32_LIMIT

  datatype Option<+T> = None | Some(value: T)

  /** `rustrom::protocol::Init`: the node's own id and the roster. */
  datatype Init = Init(nodeId: string, nodeIds: seq<string>)

  datatype Body<P> = Body(id: Option<U32>, inReplyTo: Option<U32>, payload: P)

  datatype Message<P> = Message(src: string, dst: string, body: Body<P>)

  /** The counter step of REPLY-BUILDER: `u32` addition that wraps. */
  function Advance(c: U32): (r: U32)
    ensures c + 1 < U32_LIMIT ==> r == c + 1
    ensures c + 1 == U32_LIMIT ==> r == 0
  {
    (c + 1) % U32_LIMIT
  }

  /** `reply` answers `request`: the endpoints are swapped and `in_reply_to`
      is the request's `id`. The correlation rule every reply obeys. */
  predicate Answers<P>(request: Message<P>, reply: Message<P>)
  {
    && reply.src == request.dst
    && reply.dst == request.src
    && reply.body.inReplyTo == request.body.id
  }

  /** What `into_reply_with_payload` returns: the reply, and the counter
      after the call (`None` when the caller passed no counter). */
  datatype Built<P> = Built(reply: Message<P>, counter: Option<U32>)

  /** `input.into_reply_with_payload(counter, payload)` under REPLY-BUILDER. */
  function IntoReplyWithPayload<P>(input: Message<P>, counter: Option<U32>, payload: P): (b: Built<P>)
    ensures Answers(input, b.reply)
    ensures b.reply.body.payload == payload
    ensures b.reply.body.id == counter
    ensures counter.Some? <==> b.counter.Some?
    ensures counter.Some? ==> b.counter.value == Advance(counter.value)
  {
    var id := counter;
    var next := if counter.Some? then Some(Advance(counter.value)) else None;
    Built(Message(input.dst, input.src, Body(id, input.body.id, payload)), next)
  }

  /** The stream `send` writes to, as the log of messages written so far. */
  class Output<P> {
    var log: seq<Message<P>>

    constructor ()
      ensures log == []
    {
      log := [];
    }

    /** `message.send(output)`: one more line, the message, at the end. */
    method Send(message: Message<P>)
      modifies this
      ensures log == old(log) + [message]
    {
      log := log + [message];
    }
  }
}

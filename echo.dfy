/** src/bin/echo.rs: the echo node. Every `Echo` request is answered with an
    `EchoOk` carrying the same text, built with the node's counter. */
module EchoBin {
  import opened Envelope

  datatype Payload = Echo(echo: string) | EchoOk(echo: string)

  type Msg = Message<Payload>

  /** The fields of an `EchoNode`. */
  datatype NodeState = NodeState(id: string, msgId: U32)

  /** One step: the state afterwards and the one reply written. */
  datatype Effect = Effect(state: NodeState, reply: Msg)

  /** What `step` does with an `Echo` request (`EchoOk` is `unreachable!()`). */
  function StepEffect(s: NodeState, input: Msg): Effect
    requires input.body.payload.Echo?
  {
    var built := IntoReplyWithPayload(input, Some(s.msgId), EchoOk(input.body.payload.echo));
    Effect(s.(msgId := built.counter.value), built.reply)
  }

  /** The reply echoes the request's text back to its sender, correlated
      with the request and numbered by the counter, which then advances; the
      node's id is never changed. */
  lemma EchoAnswer(s: NodeState, input: Msg)
    requires input.body.payload.Echo?
    ensures var e := StepEffect(s, input);
      && e.reply.body.payload.EchoOk?
      && e.reply.body.payload.echo == input.body.payload.echo
      && Answers(input, e.reply)
      && e.reply.body.id == Some(s.msgId)
      && e.state.id == s.id
      && e.state.msgId == Advance(s.msgId)
  {
  }

  class EchoNode {
    var id: string
    var msgId: U32

    function State(): NodeState
      reads this
    {
      NodeState(id, msgId)
    }

    /** `from_init`. */
    constructor FromInit(init: Init)
      ensures id == init.nodeId && msgId == 0
    {
      id := init.nodeId;
      msgId := 0;
    }

    /** `step`: write exactly one reply. */
    method Step(input: Msg, output: Output<Payload>)
      requires input.body.payload.Echo?
      modifies this, output
      ensures State() == StepEffect(old(State()), input).state
      ensures output.log == old(output.log) + [StepEffect(old(State()), input).reply]
    {
      var payload := EchoOk(input.body.payload.echo);
      var built := IntoReplyWithPayload(input, Some(msgId), payload);
      msgId := built.counter.value;
      output.Send(built.reply);
    }
  }
}

/** src/bin/broadcast.rs: the broadcast node. It keeps the values it has seen
    in arrival order without duplicates, floods a value to its neighbors the
    first time it sees it, answers reads with its values, and takes its
    neighbor list from a topology message.

    `StepEffect` states what one `step` does, as the new node state and the
    messages written, in order; `BroadcastNode.Step` is proved to do exactly
    that, and the lemmas below state what the source promises of it. */
module BroadcastBin {
  import opened Envelope

  datatype Payload =
    | Broadcast(message: U32)
    | BroadcastOk
    | Read
    | ReadOk(messages: seq<U32>)
    | Topology(topology: map<string, seq<string>>)
    | TopologyOk
  {
    /** The payloads `step` handles; the `*Ok` ones are `unreachable!()`. */
    predicate IsRequest()
    {
      Broadcast? || Read? || Topology?
    }
  }

  type Msg = Message<Payload>

  /** The fields of a `BroadcastNode`. */
  datatype NodeState = NodeState(id: string, msgId: U32, messages: seq<U32>, neighbors: seq<string>)

  /** One step: the state afterwards and the messages sent, in order. */
  datatype Effect = Effect(state: NodeState, sent: seq<Msg>)

  predicate NoDuplicates<T(==)>(s: seq<T>)
  {
    forall i, j :: 0 <= i < j < |s| ==> s[i] != s[j]
  }

  predicate IsPrefix<T(==)>(a: seq<T>, b: seq<T>)
  {
    |a| <= |b| && a == b[..|a|]
  }

  /** The copy of `input` sent on to `neighbor`: same payload, from this node,
      with neither `id` nor `in_reply_to`. */
  function ForwardTo(input: Msg, self: string, neighbor: string): Msg
  {
    input.(src := self, dst := neighbor, body := input.body.(id := None, inReplyTo := None))
  }

  /** The neighbors a new value is flooded to: the neighbor list in order,
      without the node the broadcast came from. */
  function Recipients(neighbors: seq<string>, sender: string): seq<string>
  {
    if neighbors == [] then []
    else
      var rest := Recipients(neighbors[..|neighbors| - 1], sender);
      var last := neighbors[|neighbors| - 1];
      if last == sender then rest else rest + [last]
  }

  /** The forwards the flooding loop writes after visiting `neighbors`. */
  function Forwards(input: Msg, self: string, neighbors: seq<string>): seq<Msg>
  {
    if neighbors == [] then []
    else
      var rest := Forwards(input, self, neighbors[..|neighbors| - 1]);
      var last := neighbors[|neighbors| - 1];
      if input.src == last then rest else rest + [ForwardTo(input, self, last)]
  }

  /** The reply `payload` to `input`, built with the node's counter and
      written after `before`. */
  function Answer(s: NodeState, input: Msg, payload: Payload, before: seq<Msg>): Effect
  {
    var built := IntoReplyWithPayload(input, Some(s.msgId), payload);
    Effect(s.(msgId := built.counter.value), before + [built.reply])
  }

  /** What `step` does with a request. */
  function StepEffect(s: NodeState, input: Msg): Effect
    requires input.body.payload.IsRequest()
  {
    var p := input.body.payload;
    if p.Broadcast? then
      var isNew := p.message !in s.messages;
      var s' := if isNew then s.(messages := s.messages + [p.message]) else s;
      var forwards := if isNew then Forwards(input, s.id, s.neighbors) else [];
      if input.body.id.Some? then Answer(s', input, BroadcastOk, forwards) else Effect(s', forwards)
    else if p.Read? then
      Answer(s, input, ReadOk(s.messages), [])
    else
      var s' := if s.id in p.topology then s.(neighbors := p.topology[s.id]) else s;
      Answer(s', input, TopologyOk, [])
  }

  // ---------------------------------------------------------------------------
  // Flooding: who gets a forward, and what it holds

  /** Each neighbor other than the sender gets as many forwards as it occurs
      in the neighbor list (exactly one in a list without repeats); the
      sender gets none. */
  lemma {:induction false} RecipientsCount(neighbors: seq<string>, sender: string)
    ensures forall n :: multiset(Recipients(neighbors, sender))[n] == if n == sender then 0 else multiset(neighbors)[n]
    ensures forall n :: n in Recipients(neighbors, sender) <==> n in neighbors && n != sender
  {
    if neighbors != [] {
      var init, last := neighbors[..|neighbors| - 1], neighbors[|neighbors| - 1];
      RecipientsCount(init, sender);
      assert neighbors == init + [last];
    }
    forall n ensures n in Recipients(neighbors, sender) <==> n in neighbors && n != sender {
      assert n in Recipients(neighbors, sender) <==> multiset(Recipients(neighbors, sender))[n] > 0;
      assert n in neighbors <==> multiset(neighbors)[n] > 0;
    }
  }

  /** When the sender is not a neighbor, every neighbor gets a forward, in
      neighbor-list order. */
  lemma {:induction false} RecipientsWithoutSender(neighbors: seq<string>, sender: string)
    requires sender !in neighbors
    ensures Recipients(neighbors, sender) == neighbors
  {
    if neighbors != [] {
      var init := neighbors[..|neighbors| - 1];
      RecipientsWithoutSender(init, sender);
      assert neighbors == init + [neighbors[|neighbors| - 1]];
    }
  }

  /** The k-th forward goes to the k-th recipient and carries the broadcast
      payload from this node with neither `id` nor `in_reply_to`. */
  lemma {:induction false} ForwardsAt(input: Msg, self: string, neighbors: seq<string>)
    ensures |Forwards(input, self, neighbors)| == |Recipients(neighbors, input.src)|
    ensures forall k :: 0 <= k < |Forwards(input, self, neighbors)| ==>
      var f := Forwards(input, self, neighbors)[k];
      && f.src == self
      && f.dst == Recipients(neighbors, input.src)[k]
      && f.body == Body(None, None, input.body.payload)
  {
    if neighbors != [] {
      ForwardsAt(input, self, neighbors[..|neighbors| - 1]);
    }
  }

  // ---------------------------------------------------------------------------
  // One step

  /** A value already seen changes neither `messages` nor `neighbors` and is
      not forwarded: at most the `BroadcastOk` reply is written. */
  lemma BroadcastSeen(s: NodeState, input: Msg)
    requires input.body.payload.Broadcast? && input.body.payload.message in s.messages
    ensures var e := StepEffect(s, input);
      && e.state.messages == s.messages && e.state.neighbors == s.neighbors && e.state.id == s.id
      && |e.sent| == (if input.body.id.Some? then 1 else 0)
      && forall m :: m in e.sent ==> m.body.payload == BroadcastOk
  {
  }

  /** A new value is appended once at the end of `messages`, and one forward
      per recipient is written, in neighbor-list order, before any reply. */
  lemma BroadcastNew(s: NodeState, input: Msg)
    requires input.body.payload.Broadcast? && input.body.payload.message !in s.messages
    ensures var e := StepEffect(s, input);
      var r := Recipients(s.neighbors, input.src);
      && e.state.messages == s.messages + [input.body.payload.message]
      && e.state.neighbors == s.neighbors && e.state.id == s.id
      && |e.sent| == |r| + (if input.body.id.Some? then 1 else 0)
      && forall k :: 0 <= k < |r| ==>
           e.sent[k].src == s.id && e.sent[k].dst == r[k]
           && e.sent[k].body == Body(None, None, input.body.payload)
  {
    ForwardsAt(input, s.id, s.neighbors);
  }

  /** A broadcast is answered with `BroadcastOk` exactly when it carried an
      `id`; the answer is the last message written, correlated with the
      request, and uses the counter. Without an `id` the counter is untouched
      and nothing but forwards is written. */
  lemma BroadcastReply(s: NodeState, input: Msg)
    requires input.body.payload.Broadcast?
    ensures var e := StepEffect(s, input);
      && (input.body.id.Some? <==> BroadcastOk in Payloads(e.sent))
      && (input.body.id.Some? ==>
            var last := e.sent[|e.sent| - 1];
            && last.body.payload == BroadcastOk
            && Answers(input, last)
            && last.body.id == Some(s.msgId)
            && e.state.msgId == Advance(s.msgId))
      && (input.body.id.None? ==> e.state.msgId == s.msgId)
  {
    var e := StepEffect(s, input);
    var forwards := if input.body.payload.message !in s.messages then Forwards(input, s.id, s.neighbors) else [];
    ForwardsAt(input, s.id, s.neighbors);
    assert forall m :: m in forwards ==> m.body.payload == input.body.payload;
    if input.body.id.Some? {
      assert e.sent == forwards + [e.sent[|e.sent| - 1]];
      assert Payloads(e.sent)[|e.sent| - 1] == BroadcastOk;
    } else {
      assert e.sent == forwards;
    }
  }

  /** The payloads of a list of messages. */
  function Payloads(ms: seq<Msg>): (ps: seq<Payload>)
    ensures |ps| == |ms|
    ensures forall k :: 0 <= k < |ms| ==> ps[k] == ms[k].body.payload
  {
    if ms == [] then [] else [ms[0].body.payload] + Payloads(ms[1..])
  }

  /** A read is answered with exactly the current values; the only field
      that changes is the counter the reply uses. */
  lemma ReadAnswer(s: NodeState, input: Msg)
    requires input.body.payload.Read?
    ensures var e := StepEffect(s, input);
      && e.state == s.(msgId := Advance(s.msgId))
      && |e.sent| == 1
      && e.sent[0].body.payload == ReadOk(s.messages)
      && Answers(input, e.sent[0])
  {
  }

  /** A topology replaces the neighbor list wholesale with this node's entry
      when there is one and keeps it otherwise; `messages` is untouched and
      `TopologyOk` is always the one reply. */
  lemma TopologyAnswer(s: NodeState, input: Msg)
    requires input.body.payload.Topology?
    ensures var e := StepEffect(s, input);
      var t := input.body.payload.topology;
      && e.state.neighbors == (if s.id in t then t[s.id] else s.neighbors)
      && e.state.messages == s.messages && e.state.id == s.id
      && e.state.msgId == Advance(s.msgId)
      && |e.sent| == 1
      && e.sent[0].body.payload == TopologyOk
      && Answers(input, e.sent[0])
  {
  }

  /** Every step keeps the node's id, never loses or reorders a value, and
      keeps `messages` free of duplicates. */
  lemma StepKeepsMessages(s: NodeState, input: Msg)
    requires input.body.payload.IsRequest()
    ensures StepEffect(s, input).state.id == s.id
    ensures IsPrefix(s.messages, StepEffect(s, input).state.messages)
    ensures NoDuplicates(s.messages) ==> NoDuplicates(StepEffect(s, input).state.messages)
  {
  }

  /** Every message a step writes is either a forward (no `in_reply_to`,
      the request's payload, from this node) or a reply to the request. */
  lemma StepSendsForwardsOrReplies(s: NodeState, input: Msg)
    requires input.body.payload.IsRequest()
    ensures forall m :: m in StepEffect(s, input).sent ==>
      (m.src == s.id && m.body == Body(None, None, input.body.payload)) || Answers(input, m)
  {
    ForwardsAt(input, s.id, s.neighbors);
    var p := input.body.payload;
    if p.Broadcast? {
      var forwards := if p.message !in s.messages then Forwards(input, s.id, s.neighbors) else [];
      var e := StepEffect(s, input);
      assert forall m :: m in forwards ==> m.src == s.id && m.body == Body(None, None, p);
      assert e.sent == forwards || e.sent == forwards + [e.sent[|e.sent| - 1]];
    }
  }

  // ---------------------------------------------------------------------------
  // Several steps

  predicate AllRequests(inputs: seq<Msg>)
  {
    forall k :: 0 <= k < |inputs| ==> inputs[k].body.payload.IsRequest()
  }

  /** The state after handling `inputs` in order. */
  function Run(s: NodeState, inputs: seq<Msg>): NodeState
    requires AllRequests(inputs)
    decreases |inputs|
  {
    if inputs == [] then s else Run(StepEffect(s, inputs[0]).state, inputs[1..])
  }

  /** Across any sequence of requests the node keeps its id, `messages` only
      grows (what was there stays, in place) and stays free of duplicates. */
  lemma {:induction false} RunKeepsMessages(s: NodeState, inputs: seq<Msg>)
    requires AllRequests(inputs)
    ensures Run(s, inputs).id == s.id
    ensures IsPrefix(s.messages, Run(s, inputs).messages)
    ensures NoDuplicates(s.messages) ==> NoDuplicates(Run(s, inputs).messages)
    decreases |inputs|
  {
    if inputs != [] {
      var s1 := StepEffect(s, inputs[0]).state;
      StepKeepsMessages(s, inputs[0]);
      RunKeepsMessages(s1, inputs[1..]);
    }
  }

  /** Broadcasting a value a second time leaves `messages` as the first
      broadcast left it. */
  lemma BroadcastIdempotent(s: NodeState, first: Msg, second: Msg)
    requires first.body.payload.Broadcast? && second.body.payload.Broadcast?
    requires first.body.payload.message == second.body.payload.message
    ensures var once := StepEffect(s, first).state;
      StepEffect(once, second).state.messages == once.messages
  {
  }

  /** A second topology that names this node discards the first one's
      neighbors entirely. */
  lemma TopologyReplaces(s: NodeState, t1: Msg, t2: Msg)
    requires t1.body.payload.Topology? && t2.body.payload.Topology?
    requires s.id in t2.body.payload.topology
    ensures StepEffect(StepEffect(s, t1).state, t2).state.neighbors == t2.body.payload.topology[s.id]
  {
  }

  /** Two reads in a row return the same values. */
  lemma ReadTwice(s: NodeState, r1: Msg, r2: Msg)
    requires r1.body.payload.Read? && r2.body.payload.Read?
    ensures var e1 := StepEffect(s, r1);
      var e2 := StepEffect(e1.state, r2);
      e1.sent[0].body.payload == e2.sent[0].body.payload == ReadOk(s.messages)
  {
  }

  // ---------------------------------------------------------------------------
  // The node

  class BroadcastNode {
    var id: string
    var msgId: U32
    var messages: seq<U32>
    var neighbors: seq<string>

    function State(): NodeState
      reads this
    {
      NodeState(id, msgId, messages, neighbors)
    }

    /** `messages` holds each value once. */
    predicate Valid()
      reads this
    {
      NoDuplicates(messages)
    }

    /** `from_init`. */
    constructor FromInit(init: Init)
      ensures Valid()
      ensures id == init.nodeId && msgId == 1 && messages == [] && neighbors == []
    {
      id := init.nodeId;
      msgId := 1;
      messages := [];
      neighbors := [];
    }

    /** `step`: handle one request, writing forwards and then the reply. */
    method Step(input: Msg, output: Output<Payload>)
      requires Valid() && input.body.payload.IsRequest()
      modifies this, output
      ensures Valid()
      ensures State() == StepEffect(old(State()), input).state
      ensures output.log == old(output.log) + StepEffect(old(State()), input).sent
    {
      ghost var s := State();
      StepKeepsMessages(s, input);
      var payload: Payload;
      var p := input.body.payload;
      if p.Broadcast? {
        if p.message !in messages {
          messages := messages + [p.message];
          for i := 0 to |neighbors|
            modifies output
            invariant output.log == old(output.log) + Forwards(input, id, neighbors[..i])
          {
            var neighbor := neighbors[i];
            assert neighbors[..i + 1] == neighbors[..i] + [neighbor];
            // the broadcast is not sent back to the node it came from
            if input.src == neighbor {
              continue;
            }
            var forward := input.(src := id, dst := neighbor, body := input.body.(id := None, inReplyTo := None));
            output.Send(forward);
          }
          assert neighbors[..|neighbors|] == neighbors;
        }
        if input.body.id.Some? {
          payload := BroadcastOk;
        } else {
          return;
        }
      } else if p.Read? {
        payload := ReadOk(messages);
      } else {
        if id in p.topology {
          neighbors := p.topology[id];
        }
        payload := TopologyOk;
      }
      var built := IntoReplyWithPayload(input, Some(msgId), payload);
      msgId := built.counter.value;
      output.Send(built.reply);
    }
  }
}

# Maelstrom challenge nodes, modelled in Dafny

This project models the request handlers of a set of nodes written for the
Maelstrom distributed-systems workbench. Each node reads messages of the form
`{src, dst, body: {id, in_reply_to, payload}}` one at a time and answers by
writing messages to its output:

- the **broadcast node** (`src/bin/broadcast.rs`) keeps the values it has
  seen, floods a value to its neighbors the first time it sees it, answers
  `read` with its values, and takes its neighbor list from `topology`;
- the **echo node** (`src/bin/echo.rs`) answers `echo` with `echo_ok`
  carrying the same text;
- the **unique-id node** (`src/bin/uniqe-ids.rs`) answers `generate` with
  `generate_ok` whose id is `<node id>-<counter>`;
- the **envelope protocol** of the first echo server (`src/protocol.rs`): a
  non-generic message with `src`, `dest`, `msg_id`, `in_reply_to`, and the
  `reply` function that answers it.

Files:

- `envelope.dfy` (module `Envelope`): the generic `Message<P>` the bin nodes
  use, the `u32` type, `Init`, the reply builder `IntoReplyWithPayload`, and
  `Output`, the log that `send` appends to.
- `protocol.dfy` (module `Protocol`): `MessageType`, `MessageBody`, `Message`,
  `reply_type`, `r#type`, `id`, `reply`.
- `broadcast.dfy` (module `BroadcastBin`), `echo.dfy` (module `EchoBin`),
  `unique_ids.dfy` (module `UniqueIdsBin`): one node each.

Each node is a class with the source's fields (`id`, `msgId`, and for the
broadcast node `messages` and `neighbors`) whose `FromInit` constructor is
`from_init` and whose `Step` method is `step`, writing to an `Output`. Beside
each class, a pure function `StepEffect(state, input)` gives the state after
one step and the messages written, in order. `Step` is proved to do exactly
what `StepEffect` says, and the lemmas state what the source promises about
`StepEffect`.

**The reply builder is an assumption.** The bin nodes call
`into_reply_with_payload`, `send` and `Init` from a library whose code is not
part of this model. `IntoReplyWithPayload` states what the nodes rely on, and
every property of a reply rests on it:

- the reply goes from the input's `dst` to the input's `src`;
- its `in_reply_to` is the input's `id`;
- when a counter is passed, the reply's `id` is the counter's value, and the
  counter then goes up by one. It wraps from 2^32 - 1 to 0, as a `u32` `+=`
  does in a release build;
- with no counter, the reply has no `id`.

`send` is an append to the output log.

Where the code and the design description of the repository differ, the model
follows the code:

- The design keeps `messages` as a set and spreads values by periodic gossip
  with a per-neighbor `known` map. The code keeps a `Vec<u32>`, checks it with
  `contains` and pushes new values at the end. It floods a value to every
  neighbor except the sender on first receipt, and has no gossip, timer or
  `known` map. The model has a duplicate-free `seq` and flooding.
- The design says a request with no `msg_id` never gets a reply. In the code
  that holds only for `broadcast`. `read` and `topology` are always answered,
  and without a `msg_id` the answer has no `in_reply_to`.
- `protocol.rs`'s `reply` copies the request's `msg_id` into both the reply's
  `msg_id` and `in_reply_to`. It uses no counter.

## Model

| member | source | states |
|---|---|---|
| Envelope.Advance | src/bin/echo.rs:35 | the counter passed to the reply builder goes up by one, wrapping to 0 after 2^32 - 1 |
| Envelope.IntoReplyWithPayload | src/bin/broadcast.rs:82 | the reply answers the input (endpoints swapped, `in_reply_to` = input `id`), carries the given payload, takes its `id` from the counter, and hands back the counter advanced by one; with no counter, no `id` |
| Envelope.Output.Send | src/bin/broadcast.rs:83 | `send` appends exactly the message to the output log |
| Protocol.MessageType.ReplyType | src/protocol.rs:20-31 | `Echo` maps to `EchoOk` with the same text and `Init` maps to `InitOk`; the result is never a request type; only request types are accepted |
| Protocol.Message.Reply | src/protocol.rs:58-68 | the reply swaps `src` and `dest`, sets `in_reply_to` to the request's `msg_id`, keeps that `msg_id` unchanged, and is not itself replyable, so a reply of a reply is undefined |
| Protocol.ReplyCorrelates | src/protocol.rs:50-68 | the reply correlates with its request, and its `r#type()` is the request type's `reply_type()` |
| BroadcastBin.BroadcastNode.FromInit | src/bin/broadcast.rs:36-43 | `id` is the init's `node_id`, `msg_id` is 1, `messages` and `neighbors` are empty |
| BroadcastBin.BroadcastNode.Step | src/bin/broadcast.rs:45-84 | the new fields and the messages written are exactly those `StepEffect` gives, including the forwards written by the loop over the neighbors; `messages` stays duplicate-free |
| BroadcastBin.RecipientsCount | src/bin/broadcast.rs:50-54 | a neighbor other than the sender gets as many forwards as it occurs in the neighbor list, so exactly one when the list has no repeats; the sender gets none |
| BroadcastBin.RecipientsWithoutSender | src/bin/broadcast.rs:50-61 | when the sender is not a neighbor, forwards go to the whole neighbor list in its order |
| BroadcastBin.ForwardsAt | src/bin/broadcast.rs:50-61 | the k-th forward goes to the k-th recipient, from this node, with the broadcast payload and neither `id` nor `in_reply_to` |
| BroadcastBin.BroadcastSeen | src/bin/broadcast.rs:47-67 | a value already held leaves `messages` and `neighbors` unchanged and is not forwarded; at most one `BroadcastOk` is written |
| BroadcastBin.BroadcastNew | src/bin/broadcast.rs:47-61 | a new value is appended once at the end of `messages`, and one forward per recipient is written first, in neighbor-list order, with the forward's exact content |
| BroadcastBin.BroadcastReply | src/bin/broadcast.rs:63-67 | `BroadcastOk` is written iff the request carried an `id`; it is then the last message, answers the request and uses the counter; with no `id` the counter is untouched |
| BroadcastBin.ReadAnswer | src/bin/broadcast.rs:70-72 | `read` is answered with one `ReadOk` holding exactly the current `messages`; only the counter changes |
| BroadcastBin.TopologyAnswer | src/bin/broadcast.rs:74-79 | `neighbors` becomes this node's entry in the map if there is one, else stays; `messages` is untouched; one `TopologyOk` answers the request |
| BroadcastBin.StepKeepsMessages | src/bin/broadcast.rs:45-84 | a step keeps the node id, keeps `messages` as a prefix of the new list, and keeps it duplicate-free |
| BroadcastBin.StepSendsForwardsOrReplies | src/bin/broadcast.rs:50-83 | every message a step writes is either a forward from this node with the request's payload and no ids, or an answer to the request |
| BroadcastBin.RunKeepsMessages | src/bin/broadcast.rs:45-84 | over any sequence of requests the node id is kept and `messages` only grows and stays duplicate-free |
| BroadcastBin.BroadcastIdempotent | src/bin/broadcast.rs:47-49 | broadcasting a value a second time leaves `messages` as the first broadcast left it |
| BroadcastBin.TopologyReplaces | src/bin/broadcast.rs:74-77 | a second topology naming this node leaves exactly its entry as the neighbor list, with nothing from the first |
| BroadcastBin.ReadTwice | src/bin/broadcast.rs:70-72 | two reads in a row return the same values |
| EchoBin.EchoNode.FromInit | src/bin/echo.rs:23-28 | `id` is the init's `node_id` and `msg_id` is 0 |
| EchoBin.EchoNode.Step | src/bin/echo.rs:30-37 | exactly one message, the reply `StepEffect` gives, is written, and the counter is the only field that changes |
| EchoBin.EchoAnswer | src/bin/echo.rs:30-37 | the reply is `EchoOk` with the request's text, answers the request, takes its `id` from the counter, which advances, and the node id is unchanged |
| UniqueIdsBin.Decimal | src/bin/uniqe-ids.rs:32 | the counter in decimal is non-empty, all digits, and starts with `0` only for zero |
| UniqueIdsBin.DecimalRoundTrip | src/bin/uniqe-ids.rs:32 | reading the decimal back gives the counter |
| UniqueIdsBin.DecimalInjective | src/bin/uniqe-ids.rs:32 | different counters are written differently |
| UniqueIdsBin.GeneratedIdInjective | src/bin/uniqe-ids.rs:31-33 | an id `<node>-<counter>` determines both the node id and the counter |
| UniqueIdsBin.GenerateAnswer | src/bin/uniqe-ids.rs:29-40 | the reply is `GenerateOk` with `<node id>-<counter>`, read before the reply is built, so the suffix equals the reply's own `id`; the counter then advances |
| UniqueIdsBin.IdsAt | src/bin/uniqe-ids.rs:32-37 | the k-th id a node hands out uses its starting counter plus k, modulo 2^32 |
| UniqueIdsBin.IdsDistinct | src/bin/uniqe-ids.rs:30-39 | up to 2^32 successive ids from one node are pairwise distinct |
| UniqueIdsBin.UniqueIdNode.FromInit | src/bin/uniqe-ids.rs:22-27 | `id` is the init's `node_id` and `msg_id` is 0 |
| UniqueIdsBin.UniqueIdNode.Step | src/bin/uniqe-ids.rs:29-40 | exactly one message, the reply `StepEffect` gives, is written, and the counter is the only field that changes |

## Left out

- `src/main.rs`: the asynchronous stdin reader, the channel and `println!` output. This is I/O and concurrency, and it belongs to an earlier crate.
- JSON encoding and decoding with serde. Payloads are Dafny datatypes.
- `main_loop`, the init handshake and the write to standard output inside `send`. The code is not part of this model. `send` is an append that cannot fail, so the early return on a write error (`?` in the flooding loop) is not modelled.
- The bodies of `into_reply_with_payload` and `Init` are not part of this model. `Envelope.IntoReplyWithPayload` states the assumed behaviour. Whether the counter wraps or panics at 2^32 is not visible; the model wraps.
- `src/node.rs` only declares the `from_init`/`step` signature. Each class has those two members; there is no shared interface type.
- `src/lib.rs` only holds a type alias and module declarations.
- `Protocol.Message.Type` and `Protocol.Message.Id` are plain field reads with no contract of their own. `Protocol.Message.Reply` and `Protocol.ReplyCorrelates` state them.
- Periodic gossip, the per-neighbor `known` map, timers, retries and convergence across nodes. None of these exist in the code.
- `Vec::contains` is modelled as sequence membership. The linear scan is not modelled.
- `unreachable!()` on `*Ok` payloads becomes a precondition of `step` and `reply_type`. The panic is not modelled.

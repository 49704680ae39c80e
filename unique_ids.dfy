/** src/bin/uniqe-ids.rs: the unique-id node. A `Generate` request is
    answered with `GenerateOk` whose id is the node id, a `-`, and the
    counter in decimal, read before the reply builder advances it. */
module UniqueIdsBin {
  import opened Envelope

  datatype Payload = Generate | GenerateOk(id: string)

  type Msg = Message<Payload>

  // ---------------------------------------------------------------------------
  // Decimal rendering, as `format!("{}", n)` writes an unsigned integer

  predicate IsDigit(c: char)
  {
    '0' <= c <= '9'
  }

  predicate AllDigits(s: string)
  {
    forall k :: 0 <= k < |s| ==> IsDigit(s[k])
  }

  function DigitChar(d: nat): (c: char)
    requires d < 10
    ensures IsDigit(c) && c as int - '0' as int == d
  {
    ('0' as int + d) as char
  }

  /** `n` in decimal: digits only, never empty, no leading zero. */
  function Decimal(n: nat): (r: string)
    ensures |r| > 0 && AllDigits(r)
    ensures r[0] == '0' <==> n == 0
    decreases n
  {
    if n < 10 then [DigitChar(n)] else Decimal(n / 10) + [DigitChar(n % 10)]
  }

  /** The number a string of digits denotes. */
  function DecimalValue(s: string): nat
    requires AllDigits(s)
  {
    if s == [] then 0 else 10 * DecimalValue(s[..|s| - 1]) + (s[|s| - 1] as int - '0' as int)
  }

  /** Reading back what `Decimal` writes gives the number again. */
  lemma {:induction false} DecimalRoundTrip(n: nat)
    ensures DecimalValue(Decimal(n)) == n
    decreases n
  {
    if n >= 10 {
      DecimalRoundTrip(n / 10);
      var r := Decimal(n);
      assert r[..|r| - 1] == Decimal(n / 10);
    }
  }

  /** Different numbers are written differently. */
  lemma DecimalInjective(a: nat, b: nat)
    requires Decimal(a) == Decimal(b)
    ensures a == b
  {
    DecimalRoundTrip(a);
    DecimalRoundTrip(b);
  }

  /** The id `format!("{}-{}", node, counter)`. */
  function GeneratedId(node: string, counter: U32): string
  {
    node + "-" + Decimal(counter)
  }

  /** How many digits `s` ends with. */
  function TrailingDigits(s: string): (n: nat)
    ensures n <= |s|
  {
    if s == [] || !IsDigit(s[|s| - 1]) then 0 else 1 + TrailingDigits(s[..|s| - 1])
  }

  /** The digits an id ends with are exactly the counter's: the `-` before
      them is not a digit. */
  lemma {:induction false} TrailingDigitsOfId(node: string, digits: string)
    requires AllDigits(digits)
    ensures TrailingDigits(node + "-" + digits) == |digits|
  {
    if digits != [] {
      var init := digits[..|digits| - 1];
      TrailingDigitsOfId(node, init);
      var s := node + "-" + digits;
      assert s[..|s| - 1] == node + "-" + init;
    }
  }

  /** An id determines the node and the counter that produced it: the part
      after the last `-` is the counter, since a decimal has no `-`. So ids
      from different nodes, or from different counter values, differ. */
  lemma GeneratedIdInjective(a: string, ca: U32, b: string, cb: U32)
    requires GeneratedId(a, ca) == GeneratedId(b, cb)
    ensures a == b && ca == cb
  {
    var s := GeneratedId(a, ca);
    var da, db := Decimal(ca), Decimal(cb);
    TrailingDigitsOfId(a, da);
    TrailingDigitsOfId(b, db);
    assert da == s[|s| - |da|..] == db;
    assert a == s[..|s| - |da| - 1] == b;
    DecimalInjective(ca, cb);
  }

  // ---------------------------------------------------------------------------
  // The node

  /** The fields of a `UniqeIdNode`. */
  datatype NodeState = NodeState(id: string, msgId: U32)

  /** One step: the state afterwards and the one reply written. */
  datatype Effect = Effect(state: NodeState, reply: Msg)

  /** What `step` does with a `Generate` request (`GenerateOk` is
      `unreachable!()`). */
  function StepEffect(s: NodeState, input: Msg): Effect
    requires input.body.payload.Generate?
  {
    var payload := GenerateOk(GeneratedId(s.id, s.msgId));
    var built := IntoReplyWithPayload(input, Some(s.msgId), payload);
    Effect(s.(msgId := built.counter.value), built.reply)
  }

  /** The reply carries the id made from the counter before the reply was
      built, which is also the reply's own `id`; the counter then advances
      and the node id stays. */
  lemma GenerateAnswer(s: NodeState, input: Msg)
    requires input.body.payload.Generate?
    ensures var e := StepEffect(s, input);
      && e.reply.body.payload == GenerateOk(s.id + "-" + Decimal(s.msgId))
      && e.reply.body.id == Some(s.msgId)
      && Answers(input, e.reply)
      && e.state == s.(msgId := Advance(s.msgId))
  {
  }

  predicate AllGenerate(inputs: seq<Msg>)
  {
    forall k :: 0 <= k < |inputs| ==> inputs[k].body.payload.Generate?
  }

  /** The ids handed out while handling `inputs` in order. */
  function Ids(s: NodeState, inputs: seq<Msg>): (ids: seq<string>)
    requires AllGenerate(inputs)
    ensures |ids| == |inputs|
    decreases |inputs|
  {
    if inputs == [] then []
    else
      var e := StepEffect(s, inputs[0]);
      [e.reply.body.payload.id] + Ids(e.state, inputs[1..])
  }

  /** The k-th id handed out uses the counter advanced k times (mod 2^32). */
  lemma {:induction false} IdsAt(s: NodeState, inputs: seq<Msg>, k: nat)
    requires AllGenerate(inputs) && k < |inputs|
    ensures Ids(s, inputs)[k] == GeneratedId(s.id, (s.msgId + k) % U32_LIMIT)
    decreases k
  {
    if k > 0 {
      var next := StepEffect(s, inputs[0]).state;
      IdsAt(next, inputs[1..], k - 1);
      assert (next.msgId + (k - 1)) % U32_LIMIT == (s.msgId + k) % U32_LIMIT;
    }
  }

  /** Up to 2^32 successive ids from one node are pairwise distinct. Beyond
      that the `u32` counter has wrapped and ids repeat. */
  lemma IdsDistinct(s: NodeState, inputs: seq<Msg>)
    requires AllGenerate(inputs) && |inputs| <= U32_LIMIT
    ensures forall i, j :: 0 <= i < j < |inputs| ==> Ids(s, inputs)[i] != Ids(s, inputs)[j]
  {
    forall i, j | 0 <= i < j < |inputs|
      ensures Ids(s, inputs)[i] != Ids(s, inputs)[j]
    {
      IdsAt(s, inputs, i);
      IdsAt(s, inputs, j);
      var ci, cj := (s.msgId + i) % U32_LIMIT, (s.msgId + j) % U32_LIMIT;
      if GeneratedId(s.id, ci) == GeneratedId(s.id, cj) {
        GeneratedIdInjective(s.id, ci, s.id, cj);
        assert false;
      }
    }
  }

  class UniqueIdNode {
    var id: string
    var msgId: U32

    function State(): NodeState
      reads this
    {
      NodeState(id, msgId)
    }

    /** `from_init`. */
    constructor FromInit(init: Init)
      ensures id == init.nodeId && msgId == 0
    {
      id := init.nodeId;
      msgId := 0;
    }

    /** `step`: write exactly one reply. */
    method Step(input: Msg, output: Output<Payload>)
      requires input.body.payload.Generate?
      modifies this, output
      ensures State() == StepEffect(old(State()), input).state
      ensures output.log == old(output.log) + [StepEffect(old(State()), input).reply]
    {
      var payload := GenerateOk(id + "-" + Decimal(msgId));
      var built := IntoReplyWithPayload(input, Some(msgId), payload);
      msgId := built.counter.value;
      output.Send(built.reply);
    }
  }
}

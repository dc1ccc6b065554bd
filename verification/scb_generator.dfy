/**
 * The generator of the synthetic count benchmark (SCB).  Every second it
 * makes `PER_SEC_MSG_COUNT` messages of 100 random events, holds some of
 * them back for a random number of seconds, and sends the others together
 * with those whose delay ran out.  The random draws are parameters.
 */
module ScbGenerator {
  import opened Bytes
  import opened Faults
  import opened Serialization
  import opened Codec
  import opened Records
  import opened Topology

  /** `output_data`: a message and the ranks it goes to. */
  datatype OutputData = OutputData(msg: Message, dest: seq<int>)

  const EVENTS_PER_MESSAGE: nat := 100

  /** The header the count variant reserves in `createMessage`: the baseline `char` and the message id. */
  const SCB_HEADER_SIZE: nat := CHAR_SIZE + INT_SIZE

  // ---------------------------------------------------------------------
  // Message ids and windows

  /** `(i + iteration * quantity) * worldSize + rank`, before any reduction. */
  function IdValue(d: Deployment, iteration: nat, quantity: nat, i: nat): int {
    (i + iteration * quantity) * d.worldSize + d.rank
  }

  /** The id, computed in `unsigned int` and wrapped as an `int`. */
  function MessageId(d: Deployment, iteration: nat, quantity: nat, i: nat): int32 {
    ToInt32(IdValue(d, iteration, quantity, i) % TWO32)
  }

  /**
   * While the id fits an `int`, it is congruent to the rank modulo the
   * world size, and the quotient counts the messages the rank made before.
   */
  lemma MessageIdResidue(d: Deployment, iteration: nat, quantity: nat, i: nat)
    requires d.Valid() && IsInt32(IdValue(d, iteration, quantity, i))
    ensures MessageId(d, iteration, quantity, i) == IdValue(d, iteration, quantity, i)
    ensures MessageId(d, iteration, quantity, i) % d.worldSize == d.rank
    ensures MessageId(d, iteration, quantity, i) / d.worldSize == i + iteration * quantity
  {
    var v := IdValue(d, iteration, quantity, i);
    assert 0 <= v by {
      MulMono(d.worldSize, 0, i + iteration * quantity);
    }
    assert v % TWO32 == v;
    DivUnique(v, d.worldSize, i + iteration * quantity, d.rank);
  }

  /**
   * Generators of one deployment never hand out the same id twice: two
   * ids that fit an `int` are equal exactly when they come from the same
   * rank, iteration and position.
   */
  lemma MessageIdsDistinct(d1: Deployment, d2: Deployment, quantity: nat,
                           it1: nat, i1: nat, it2: nat, i2: nat)
    requires d1.Valid() && d2.Valid() && d1.worldSize == d2.worldSize
    requires i1 < quantity && i2 < quantity
    requires IsInt32(IdValue(d1, it1, quantity, i1)) && IsInt32(IdValue(d2, it2, quantity, i2))
    ensures MessageId(d1, it1, quantity, i1) == MessageId(d2, it2, quantity, i2)
            <==> d1.rank == d2.rank && it1 == it2 && i1 == i2
  {
    MessageIdResidue(d1, it1, quantity, i1);
    MessageIdResidue(d2, it2, quantity, i2);
    if MessageId(d1, it1, quantity, i1) == MessageId(d2, it2, quantity, i2) {
      var serial := i1 + it1 * quantity;
      assert serial == i2 + it2 * quantity;
      DivUnique(serial, quantity, it1, i1);
      DivUnique(serial, quantity, it2, i2);
    }
  }

  /** `iteration / window_duration` in `unsigned int`, stored in the `int` window field of an event. */
  function WindowId(iteration: nat): int32 {
    ToInt32(iteration / SCB_WINDOW_DURATION)
  }

  // ---------------------------------------------------------------------
  // Messages

  /** The 100 events of message `i`: the window id and the `i`-th message's value draws. */
  function Events(window: int32, draw: (nat, nat) -> int32, i: nat): (es: seq<ScbEvent>)
    ensures |es| == EVENTS_PER_MESSAGE
    ensures forall j :: 0 <= j < |es| ==> es[j] == ScbEvent(window, draw(i, j))
  {
    seq(EVENTS_PER_MESSAGE, j requires 0 <= j => ScbEvent(window, draw(i, j)))
  }

  /**
   * `createMessage(100 * sizeof(Event))`, the events wrapped in order, then
   * the baseline and the message id.  `createMessage` (not part of this
   * model) is taken to add the generator's header size to the capacity.
   */
  function BuildMessage(headerSize: nat, baseline: uint8, id: int32, events: seq<ScbEvent>): Result<Message> {
    var m :- WrapArray(EncodeScbEvent, events, NewMessage(EVENTS_PER_MESSAGE * SCB_EVENT_SIZE + headerSize));
    var m1 :- WrapChar(baseline, m);
    WrapInt(id, m1)
  }

  /** The hundred events fill the first `100 * sizeof(Event)` bytes of the buffer. */
  lemma WrapEventsFits(capacity: nat, events: seq<ScbEvent>)
    requires |events| == EVENTS_PER_MESSAGE && EVENTS_PER_MESSAGE * SCB_EVENT_SIZE <= capacity
    ensures |Concat(EncodeScbEvent, events)| == EVENTS_PER_MESSAGE * SCB_EVENT_SIZE
    ensures WrapArray(EncodeScbEvent, events, NewMessage(capacity))
            == Ok(Message(capacity, Concat(EncodeScbEvent, events)))
  {
    var body := Concat(EncodeScbEvent, events);
    ScbEventCodec();
    ConcatLength(EncodeScbEvent, DecodeScbEvent, SCB_EVENT_SIZE, events);
    WrapArraySpec(EncodeScbEvent, events, NewMessage(capacity));
    assert NewMessage(capacity).bytes + body == body;
  }

  /** Once the events are in, the baseline and the id fit on top of them. */
  lemma WrapHeaderFits(headerSize: nat, baseline: uint8, id: int32, events: seq<ScbEvent>, body: seq<uint8>)
    requires |body| + SCB_HEADER_SIZE <= EVENTS_PER_MESSAGE * SCB_EVENT_SIZE + headerSize
    requires WrapArray(EncodeScbEvent, events, NewMessage(EVENTS_PER_MESSAGE * SCB_EVENT_SIZE + headerSize))
             == Ok(Message(EVENTS_PER_MESSAGE * SCB_EVENT_SIZE + headerSize, body))
    ensures BuildMessage(headerSize, baseline, id, events)
            == Ok(Message(EVENTS_PER_MESSAGE * SCB_EVENT_SIZE + headerSize, body + [baseline] + IntField(id)))
  {
    var capacity := EVENTS_PER_MESSAGE * SCB_EVENT_SIZE + headerSize;
    assert WrapChar(baseline, Message(capacity, body)) == Ok(Message(capacity, body + [baseline]));
  }

  lemma BuildMessageFits(headerSize: nat, baseline: uint8, id: int32, events: seq<ScbEvent>)
    requires |events| == EVENTS_PER_MESSAGE && SCB_HEADER_SIZE <= headerSize
    ensures BuildMessage(headerSize, baseline, id, events)
            == Ok(Message(EVENTS_PER_MESSAGE * SCB_EVENT_SIZE + headerSize,
                          Concat(EncodeScbEvent, events) + [baseline] + IntField(id)))
  {
    WrapEventsFits(EVENTS_PER_MESSAGE * SCB_EVENT_SIZE + headerSize, events);
    WrapHeaderFits(headerSize, baseline, id, events, Concat(EncodeScbEvent, events));
  }

  /** The message `BuildMessage` always succeeds in making. */
  function ScbMessage(headerSize: nat, baseline: uint8, id: int32, events: seq<ScbEvent>): (m: Message)
    requires |events| == EVENTS_PER_MESSAGE && SCB_HEADER_SIZE <= headerSize
    ensures BuildMessage(headerSize, baseline, id, events) == Ok(m)
    ensures m.Wf() && m.capacity == EVENTS_PER_MESSAGE * SCB_EVENT_SIZE + headerSize
    ensures m.Size() == EVENTS_PER_MESSAGE * SCB_EVENT_SIZE + SCB_HEADER_SIZE
  {
    BuildMessageFits(headerSize, baseline, id, events);
    ScbEventCodec();
    ConcatLength(EncodeScbEvent, DecodeScbEvent, SCB_EVENT_SIZE, events);
    BuildMessage(headerSize, baseline, id, events).value
  }

  /**
   * `generateMessages(quantity)`: message `i` holds 100 events of the
   * current window and the id `(i + iteration * quantity) * worldSize + rank`,
   * and goes to the aggregator only.
   */
  function GenerateMessages(d: Deployment, headerSize: nat, baseline: uint8, iteration: nat,
                            quantity: nat, draw: (nat, nat) -> int32): (out: seq<OutputData>)
    requires SCB_HEADER_SIZE <= headerSize
    ensures |out| == quantity
    ensures forall i :: 0 <= i < quantity ==> out[i].dest == [SCB_AGGREGATOR_RANK]
    ensures forall i :: 0 <= i < quantity ==>
              && out[i].msg.Wf() && out[i].msg.capacity == EVENTS_PER_MESSAGE * SCB_EVENT_SIZE + headerSize
              && out[i].msg.Size() == EVENTS_PER_MESSAGE * SCB_EVENT_SIZE + SCB_HEADER_SIZE
  {
    seq(quantity, i requires 0 <= i < quantity =>
      OutputData(ScbMessage(headerSize, baseline, MessageId(d, iteration, quantity, i),
                            Events(WindowId(iteration), draw, i)),
                 [SCB_AGGREGATOR_RANK]))
  }

  /** How a reader takes an SCB message apart: the id, the baseline, then the events. */
  function ParseScbMessage(m: Message): (r: Result<(int32, uint8, seq<ScbEvent>)>)
    ensures r.Err? <==> m.Size() < INT_SIZE + CHAR_SIZE
  {
    var (id, m1) :- UnwrapInt(m);
    var (b, m2) :- Unwrap(CHAR_SIZE, m1);
    Ok((id, b[0], DecodeArray(DecodeScbEvent, SCB_EVENT_SIZE, m2.bytes)))
  }

  /** A wrapped baseline `char` is what the next one-byte `unwrap` returns. */
  lemma UnwrapCharAfterWrap(b: uint8, m: Message)
    requires m.Size() + CHAR_SIZE <= m.capacity
    ensures WrapChar(b, m).Ok?
    ensures Unwrap(CHAR_SIZE, WrapChar(b, m).value) == Ok(([b], m))
  {
    UnwrapAfterWrap([b], m);
  }

  /**
   * Every generated message reads back as its id, the baseline, and 100
   * events of the iteration's window carrying that message's draws.
   */
  lemma GeneratedMessageParses(d: Deployment, headerSize: nat, baseline: uint8, iteration: nat,
                               quantity: nat, draw: (nat, nat) -> int32, i: nat)
    requires SCB_HEADER_SIZE <= headerSize && i < quantity
    ensures var m := GenerateMessages(d, headerSize, baseline, iteration, quantity, draw)[i].msg;
      && ParseScbMessage(m).Ok?
      && var (id, b, events) := ParseScbMessage(m).value;
      && id == MessageId(d, iteration, quantity, i)
      && b == baseline
      && |events| == EVENTS_PER_MESSAGE
      && forall j :: 0 <= j < EVENTS_PER_MESSAGE ==> events[j] == ScbEvent(WindowId(iteration), draw(i, j))
  {
    var id := MessageId(d, iteration, quantity, i);
    var events := Events(WindowId(iteration), draw, i);
    var m0 := NewMessage(EVENTS_PER_MESSAGE * SCB_EVENT_SIZE + headerSize);
    ScbEventCodec();
    ConcatLength(EncodeScbEvent, DecodeScbEvent, SCB_EVENT_SIZE, events);
    WrapArraySpec(EncodeScbEvent, events, m0);
    var m1 := WrapArray(EncodeScbEvent, events, m0).value;
    assert m1.bytes == Concat(EncodeScbEvent, events);
    UnwrapCharAfterWrap(baseline, m1);
    var m2 := WrapChar(baseline, m1).value;
    UnwrapIntAfterWrapInt(id, m2);
    DecodeConcat(EncodeScbEvent, DecodeScbEvent, SCB_EVENT_SIZE, events);
  }

  // ---------------------------------------------------------------------
  // Delays

  /**
   * The positions, in increasing order, whose lottery draw keeps the
   * message (`keep`, a draw above `delay_probability`) or delays it.
   */
  function Indexes(lottery: seq<int>, keep: bool): (ix: seq<nat>)
    ensures forall k :: 0 <= k < |ix| ==> ix[k] < |lottery|
    ensures forall k, l :: 0 <= k < l < |ix| ==> ix[k] < ix[l]
    ensures forall i :: 0 <= i < |lottery| ==> (i in ix <==> (SCB_DELAY_PROBABILITY < lottery[i]) == keep)
    decreases |lottery|
  {
    if lottery == [] then []
    else
      var n := |lottery| - 1;
      var ix := Indexes(lottery[..n], keep);
      ix + (if (SCB_DELAY_PROBABILITY < lottery[n]) == keep then [n] else [])
  }

  /** The elements at the given positions, in that order. */
  function Pick<T>(xs: seq<T>, ix: seq<nat>): (ys: seq<T>)
    requires forall k :: 0 <= k < |ix| ==> ix[k] < |xs|
    ensures |ys| == |ix| && forall k :: 0 <= k < |ix| ==> ys[k] == xs[ix[k]]
  {
    seq(|ix|, k requires 0 <= k < |ix| => xs[ix[k]])
  }

  lemma PickSnoc<T>(xs: seq<T>, x: T, ix: seq<nat>)
    requires forall k :: 0 <= k < |ix| ==> ix[k] < |xs|
    ensures Pick(xs + [x], ix) == Pick(xs, ix)
    ensures Pick(xs + [x], ix + [|xs|]) == Pick(xs, ix) + [x]
  {
  }

  /** Appending one input to a partition, on the side its draw chooses. */
  lemma PartitionSnoc<T>(input: seq<T>, keep: seq<nat>, late: seq<nat>, keep': seq<nat>, late': seq<nat>)
    requires input != []
    requires forall k :: 0 <= k < |keep| ==> keep[k] < |input| - 1
    requires forall k :: 0 <= k < |late| ==> late[k] < |input| - 1
    requires multiset(Pick(input[..|input| - 1], keep)) + multiset(Pick(input[..|input| - 1], late))
             == multiset(input[..|input| - 1])
    requires (keep' == keep + [|input| - 1] && late' == late) || (keep' == keep && late' == late + [|input| - 1])
    ensures forall k :: 0 <= k < |keep'| ==> keep'[k] < |input|
    ensures forall k :: 0 <= k < |late'| ==> late'[k] < |input|
    ensures multiset(Pick(input, keep')) + multiset(Pick(input, late')) == multiset(input)
  {
    var n := |input| - 1;
    SnocSplit(input);
    PickSnoc(input[..n], input[n], keep);
    PickSnoc(input[..n], input[n], late);
  }

  /** Each message is either kept or delayed, never both, never neither. */
  lemma {:induction false} LotteryPartition<T>(input: seq<T>, lottery: seq<int>)
    requires |lottery| == |input|
    ensures multiset(Pick(input, Indexes(lottery, true))) + multiset(Pick(input, Indexes(lottery, false)))
            == multiset(input)
    decreases |input|
  {
    if input != [] {
      var n := |input| - 1;
      LotteryPartition(input[..n], lottery[..n]);
      PartitionStep(input, lottery);
    }
  }

  lemma SnocSplit<T>(s: seq<T>)
    requires s != []
    ensures s == s[..|s| - 1] + [s[|s| - 1]]
  {
  }

  lemma PartitionStep<T>(input: seq<T>, lottery: seq<int>)
    requires |lottery| == |input| > 0
    requires var n := |input| - 1;
      multiset(Pick(input[..n], Indexes(lottery[..n], true))) + multiset(Pick(input[..n], Indexes(lottery[..n], false)))
      == multiset(input[..n])
    ensures multiset(Pick(input, Indexes(lottery, true))) + multiset(Pick(input, Indexes(lottery, false)))
            == multiset(input)
  {
    var n := |input| - 1;
    var draws := lottery[..n];
    var kept := SCB_DELAY_PROBABILITY < lottery[n];
    assert lottery[..|lottery| - 1] == draws;
    assert Indexes(lottery, true) == Indexes(draws, true) + (if kept then [n] else []);
    assert Indexes(lottery, false) == Indexes(draws, false) + (if kept then [] else [n]);
    PartitionSnoc(input, Indexes(draws, true), Indexes(draws, false), Indexes(lottery, true), Indexes(lottery, false));
  }

  /** The messages waiting in `messages_with_delays`. */
  function Held<T>(queue: seq<seq<T>>): multiset<T>
    decreases |queue|
  {
    if queue == [] then multiset{} else multiset(queue[0]) + Held(queue[1..])
  }

  lemma {:induction false} HeldAppend<T>(a: seq<seq<T>>, b: seq<seq<T>>)
    ensures Held(a + b) == Held(a) + Held(b)
    decreases |a|
  {
    if a == [] {
      assert a + b == b;
    } else {
      assert (a + b)[1..] == a[1..] + b;
      HeldAppend(a[1..], b);
      assert Held(a + b) == multiset(a[0]) + Held(a[1..] + b);
    }
  }

  /** `n` empty slots. */
  function Empties<T>(n: nat): (e: seq<seq<T>>)
    ensures |e| == n && forall k :: 0 <= k < n ==> e[k] == []
  {
    seq(n, _ => [])
  }

  lemma {:induction false} HeldEmpties<T>(n: nat)
    ensures Held(Empties<T>(n)) == multiset{}
  {
    if n > 0 {
      assert Empties<T>(n)[1..] == Empties<T>(n - 1);
      HeldEmpties<T>(n - 1);
    }
  }

  lemma {:induction false} HeldUpdate<T>(q: seq<seq<T>>, j: nat, ys: seq<T>)
    requires j < |q|
    ensures Held(q[j := q[j] + ys]) == Held(q) + multiset(ys)
    decreases j
  {
    if j > 0 {
      assert q[j := q[j] + ys][1..] == q[1..][j - 1 := q[1..][j - 1] + ys];
      HeldUpdate(q[1..], j - 1, ys);
    }
  }

  /**
   * Delaying one message by `delay` seconds: the queue grows with empty
   * slots to at least `delay` slots, and the message joins slot `delay - 1`.
   */
  function Push<T>(queue: seq<seq<T>>, x: T, delay: int): (q: seq<seq<T>>)
    requires 1 <= delay
    ensures |q| == if |queue| < delay then delay else |queue|
    ensures forall k :: 0 <= k < |q| ==>
              q[k] == (if k < |queue| then queue[k] else []) + (if k == delay - 1 then [x] else [])
    ensures Held(q) == Held(queue) + multiset{x}
  {
    var grown := Padded(queue, delay);
    HeldUpdate(grown, delay - 1, [x]);
    grown[delay - 1 := grown[delay - 1] + [x]]
  }

  /** The queue with empty slots added up to `delay` slots. */
  function Padded<T>(queue: seq<seq<T>>, delay: int): (g: seq<seq<T>>)
    ensures |g| == if |queue| < delay then delay else |queue|
    ensures forall k :: 0 <= k < |g| ==> g[k] == if k < |queue| then queue[k] else []
    ensures Held(g) == Held(queue)
  {
    var extra := if |queue| < delay then delay - |queue| else 0;
    HeldAppend(queue, Empties<T>(extra));
    HeldEmpties<T>(extra);
    queue + Empties(extra)
  }

  predicate DelaysInRange(delays: seq<int>) {
    forall k :: 0 <= k < |delays| ==> SCB_DELAY_MIN_DURATION <= delays[k] <= SCB_DELAY_MAX_DURATION
  }

  /** The delayed messages pushed one by one, in input order. */
  function PushAll<T>(queue: seq<seq<T>>, xs: seq<T>, delays: seq<int>): (q: seq<seq<T>>)
    requires |delays| == |xs| && DelaysInRange(delays)
    ensures Held(q) == Held(queue) + multiset(xs)
    decreases |xs|
  {
    if xs == [] then queue
    else
      assert xs == [xs[0]] + xs[1..];
      PushAll(Push(queue, xs[0], delays[0]), xs[1..], delays[1..])
  }

  /**
   * `q` is `queue` after the pushes of `xs`: no slot is lost or shortened
   * at its front, the queue stays within the longest delay, and every
   * message sits in the slot of its delay.
   */
  ghost predicate Grown<T>(queue: seq<seq<T>>, xs: seq<T>, delays: seq<int>, q: seq<seq<T>>)
    requires |delays| == |xs|
  {
    && |queue| <= |q|
    && (|queue| <= SCB_DELAY_MAX_DURATION ==> |q| <= SCB_DELAY_MAX_DURATION)
    && (forall k :: 0 <= k < |queue| ==> queue[k] <= q[k])
    && (forall j :: 0 <= j < |xs| ==> 1 <= delays[j] <= |q| && xs[j] in q[delays[j] - 1])
  }

  /** A slot only ever grows at its end, and a pushed message stays where it was put. */
  lemma {:induction false} PushAllGrows<T>(queue: seq<seq<T>>, xs: seq<T>, delays: seq<int>)
    requires |delays| == |xs| && DelaysInRange(delays)
    ensures Grown(queue, xs, delays, PushAll(queue, xs, delays))
    decreases |xs|
  {
    if xs != [] {
      var q1 := Push(queue, xs[0], delays[0]);
      PushAllGrows(q1, xs[1..], delays[1..]);
      assert PushAll(queue, xs, delays) == PushAll(q1, xs[1..], delays[1..]);
      GrownCons(queue, xs, delays, q1, PushAll(q1, xs[1..], delays[1..]));
    }
  }

  /** One push in front of pushes that grew the queue grows it too. */
  lemma GrownCons<T>(queue: seq<seq<T>>, xs: seq<T>, delays: seq<int>, q1: seq<seq<T>>, q: seq<seq<T>>)
    requires |delays| == |xs| && xs != [] && DelaysInRange(delays)
    requires q1 == Push(queue, xs[0], delays[0])
    requires Grown(q1, xs[1..], delays[1..], q)
    ensures Grown(queue, xs, delays, q)
  {
    forall k | 0 <= k < |queue| ensures queue[k] <= q[k] {
      assert queue[k] <= q1[k];
    }
    forall j | 0 <= j < |xs| ensures 1 <= delays[j] <= |q| && xs[j] in q[delays[j] - 1] {
      if j == 0 {
        var s := delays[0] - 1;
        assert xs[0] in q1[s];
        assert q1[s] <= q[s];
      } else {
        assert xs[j] == xs[1..][j - 1] && delays[j] == delays[1..][j - 1];
      }
    }
  }

  /** The messages to send now, and the queue left for the next seconds. */
  datatype Delayed<T> = Delayed(out: seq<T>, queue: seq<seq<T>>)

  /**
   * `delay`: the front slot of the queue is popped, each input whose draw
   * exceeds `delay_probability` is kept, each other is pushed with its own
   * delay draw; the kept inputs go out in input order, followed by the
   * popped slot.
   */
  function Delay<T>(queue: seq<seq<T>>, input: seq<T>, lottery: seq<int>, delays: seq<int>): (r: Delayed<T>)
    requires |lottery| == |input|
    requires |delays| == |Indexes(lottery, false)| && DelaysInRange(delays)
  {
    var finished := if queue == [] then [] else queue[0];
    var rest := if queue == [] then [] else queue[1..];
    var kept := Pick(input, Indexes(lottery, true));
    var late := Pick(input, Indexes(lottery, false));
    Delayed(kept + finished, PushAll(rest, late, delays))
  }

  /** No message is lost or duplicated. */
  lemma DelayConserves<T>(queue: seq<seq<T>>, input: seq<T>, lottery: seq<int>, delays: seq<int>)
    requires |lottery| == |input|
    requires |delays| == |Indexes(lottery, false)| && DelaysInRange(delays)
    ensures var r := Delay(queue, input, lottery, delays);
      multiset(r.out) + Held(r.queue) == multiset(input) + Held(queue)
  {
    LotteryPartition(input, lottery);
    if queue != [] {
      assert Held(queue) == multiset(queue[0]) + Held(queue[1..]);
    }
  }

  /**
   * The output starts with the inputs whose draw exceeds
   * `delay_probability`, in input order, and ends with the popped slot.
   */
  lemma DelayOutput<T>(queue: seq<seq<T>>, input: seq<T>, lottery: seq<int>, delays: seq<int>)
    requires |lottery| == |input|
    requires |delays| == |Indexes(lottery, false)| && DelaysInRange(delays)
    ensures var r := Delay(queue, input, lottery, delays);
      var keep := Indexes(lottery, true);
      && |keep| <= |r.out|
      && (forall k :: 0 <= k < |keep| ==> SCB_DELAY_PROBABILITY < lottery[keep[k]] && r.out[k] == input[keep[k]])
      && (forall i :: 0 <= i < |input| && SCB_DELAY_PROBABILITY < lottery[i] ==> i in keep)
      && r.out[|keep|..] == (if queue == [] then [] else queue[0])
  {
  }

  /**
   * A delayed input sits in the slot of its delay; every waiting message
   * moves one slot closer to the front; and a queue of at most
   * `delay_max_duration` slots stays so.
   */
  lemma DelayQueue<T>(queue: seq<seq<T>>, input: seq<T>, lottery: seq<int>, delays: seq<int>)
    requires |lottery| == |input|
    requires |delays| == |Indexes(lottery, false)| && DelaysInRange(delays)
    ensures var r := Delay(queue, input, lottery, delays);
      var late := Indexes(lottery, false);
      && (forall j :: 0 <= j < |late| ==>
            SCB_DELAY_PROBABILITY >= lottery[late[j]]
            && delays[j] - 1 < |r.queue| && input[late[j]] in r.queue[delays[j] - 1])
      && |queue| <= |r.queue| + 1
      && (forall k :: 0 < k < |queue| ==> queue[k] <= r.queue[k - 1])
      && (|queue| <= SCB_DELAY_MAX_DURATION ==> |r.queue| <= SCB_DELAY_MAX_DURATION)
  {
    var rest := if queue == [] then [] else queue[1..];
    PushAllGrows(rest, Pick(input, Indexes(lottery, false)), delays);
  }

  // ---------------------------------------------------------------------
  // One second of the generator

  /** What the generator keeps from one second to the next. */
  datatype GeneratorState = GeneratorState(iteration: nat, delayed: seq<seq<OutputData>>)

  /** `send` hands the messages over (not modelled) and moves to the next iteration. */
  function Send(g: GeneratorState): (g': GeneratorState)
    ensures g'.iteration == g.iteration + 1 && g'.delayed == g.delayed
  {
    g.(iteration := g.iteration + 1)
  }

  /**
   * Ids keep increasing from one second to the next, by `quantity * worldSize`,
   * and two sends move to the next window.
   */
  lemma SendAdvances(d: Deployment, g: GeneratorState, quantity: nat, i: nat)
    ensures IdValue(d, Send(g).iteration, quantity, i) == IdValue(d, g.iteration, quantity, i) + quantity * d.worldSize
    ensures Send(Send(g)).iteration / SCB_WINDOW_DURATION == g.iteration / SCB_WINDOW_DURATION + 1
  {
    assert (i + (g.iteration + 1) * quantity) * d.worldSize
        == (i + g.iteration * quantity) * d.worldSize + quantity * d.worldSize;
  }

  /** The draws of one second: the event values, the lottery, the delays. */
  datatype Draws = Draws(values: (nat, nat) -> int32, lottery: seq<int>, delays: seq<int>)

  predicate DrawsFit(quantity: nat, draws: Draws) {
    && |draws.lottery| == quantity
    && |draws.delays| == |Indexes(draws.lottery, false)|
    && DelaysInRange(draws.delays)
  }

  /**
   * One turn of `streamProcess`: generate `PER_SEC_MSG_COUNT` messages,
   * delay some, send the rest.
   */
  function Tick(d: Deployment, headerSize: nat, baseline: uint8, g: GeneratorState, draws: Draws)
    : (r: (seq<OutputData>, GeneratorState))
    requires SCB_HEADER_SIZE <= headerSize && 0 <= d.perSecMsgCount
    requires DrawsFit(d.perSecMsgCount, draws)
    ensures r.1.iteration == g.iteration + 1
  {
    var made := GenerateMessages(d, headerSize, baseline, g.iteration, d.perSecMsgCount, draws.values);
    var delayed := Delay(g.delayed, made, draws.lottery, draws.delays);
    (delayed.out, Send(GeneratorState(g.iteration, delayed.queue)))
  }

  /** Over one second, every fresh message is either sent or waiting, and so is every old one. */
  lemma TickConserves(d: Deployment, headerSize: nat, baseline: uint8, g: GeneratorState, draws: Draws)
    requires SCB_HEADER_SIZE <= headerSize && 0 <= d.perSecMsgCount
    requires DrawsFit(d.perSecMsgCount, draws)
    ensures var (sent, g') := Tick(d, headerSize, baseline, g, draws);
      multiset(sent) + Held(g'.delayed)
      == multiset(GenerateMessages(d, headerSize, baseline, g.iteration, d.perSecMsgCount, draws.values))
         + Held(g.delayed)
  {
    var made := GenerateMessages(d, headerSize, baseline, g.iteration, d.perSecMsgCount, draws.values);
    DelayConserves(g.delayed, made, draws.lottery, draws.delays);
  }
}

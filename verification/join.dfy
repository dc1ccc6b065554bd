/**
 * The tumbling-window join of the new-sellers use case in its three
 * completeness variants: counting messages per window, consuming messages
 * in message-id order, and adding up wrapper-unit numerators.  Auctions
 * and persons selected on every rank are buffered per window and joined
 * on `seller_id == person.id` when the lowest window is complete.
 */
module Join {
  import opened Bytes
  import opened Faults
  import opened Serialization
  import opened Codec
  import opened Payloads
  import opened Records
  import opened Topology
  import opened OrderedMaps
  import opened Sorting
  import opened Selectors
  import GroupbyWs

  // ---------------------------------------------------------------------
  // Window state

  /**
   * `WindowInformation` between two messages.  Its `aggregates` vector is
   * filled only on the way out, right before the window is erased; see
   * `Aggregates`.
   */
  datatype Window = Window(auctions: seq<AuctionSelection>, persons: map<int32, PersonSelection>,
                           completeness: int, timestamp_end: int32)

  /** A window as `windows[window_id]` default-constructs it. */
  const EMPTY_WINDOW: Window := Window([], map[], 0, 0)

  type Windows = map<int32, Window>

  function WindowAt(windows: Windows, w: int32): Window {
    if w in windows then windows[w] else EMPTY_WINDOW
  }

  function Max32(a: int32, b: int32): (r: int32)
    ensures a <= r && b <= r && (r == a || r == b)
  {
    if a < b then b else a
  }

  /** Message ids per window and dataflow instance: `window_duration * PER_SEC_MSG_COUNT * worldSize`. */
  function IdsPerWindow(d: Deployment, duration: nat): (n: nat)
    requires d.Valid() && duration > 0
    ensures n > 0
  {
    MulMono(duration, 1, d.perSecMsgCount);
    MulMono(duration * d.perSecMsgCount, 1, d.worldSize);
    duration * d.perSecMsgCount * d.worldSize
  }

  /** A window is complete after this many messages: as many auction messages as person messages. */
  function MessagesPerWindow(d: Deployment, duration: nat): nat
    requires d.Valid() && duration > 0
  {
    2 * IdsPerWindow(d, duration)
  }

  lemma {:induction false} QuotAtMost(a: nat, b: nat)
    requires b > 0
    ensures Quot(a, b) <= a
    decreases a
  {
    if a >= b {
      QuotAtMost(a - b, b);
    }
  }

  /**
   * `message_id / (window_duration * PER_SEC_MSG_COUNT * worldSize)`, with
   * C's truncating division: a non-negative id falls in the window whose
   * id range holds it.
   */
  function JoinWindowId(d: Deployment, duration: nat, msgid: int32): (w: int32)
    requires d.Valid() && duration > 0
    ensures 0 <= msgid ==> 0 <= w && w * IdsPerWindow(d, duration) <= msgid < (w + 1) * IdsPerWindow(d, duration)
  {
    var n := IdsPerWindow(d, duration);
    TruncDivInt32(msgid, n);
    WindowRange(msgid, n);
    TruncDiv(msgid, n)
  }

  /** Truncating division by a positive divisor moves toward zero, so it stays an `int`. */
  lemma TruncDivInt32(a: int32, n: nat)
    requires n > 0
    ensures IsInt32(TruncDiv(a, n))
  {
    QuotAtMost(if a >= 0 then a as nat else -(a as int), n);
  }

  lemma WindowRange(a: int, n: nat)
    requires n > 0
    ensures 0 <= a ==> TruncDiv(a, n) == a / n && a / n * n <= a < (a / n + 1) * n
  {
    if 0 <= a {
      TruncDivMod(a, n);
      assert a == n * (a / n) + a % n;
      assert (a / n + 1) * n == a / n * n + n;
    }
  }

  // ---------------------------------------------------------------------
  // Reading the records

  lemma DivFloor(S: nat, n: nat)
    requires S > 0
    ensures S * (n / S) <= n
  {
    assert n == S * (n / S) + n % S;
  }

  /** `unwrap<T>` called `k` times on `bs`: the records from the last one backwards. */
  function TailRecords<T>(dec: seq<uint8> -> T, S: nat, k: nat, bs: seq<uint8>): (r: seq<T>)
    requires S > 0 && S * k <= |bs|
    ensures |r| == k
  {
    if k == 0 then []
    else
      assert S * k == S * (k - 1) + S;
      [dec(bs[|bs| - S..])] + TailRecords(dec, S, k - 1, bs[..|bs| - S])
  }

  /** `processAuctionMessage` and `processPersonMessage`: `size / sizeof(T)` unwraps from the tail. */
  function ReadRecords<T>(dec: seq<uint8> -> T, S: nat, payload: Message): seq<T>
    requires S > 0
  {
    DivFloor(S, |payload.bytes|);
    TailRecords(dec, S, |payload.bytes| / S, payload.bytes)
  }

  lemma ConcatSnoc<T(!new)>(enc: T -> seq<uint8>, dec: seq<uint8> -> T, S: nat, xs: seq<T>)
    requires IsCodec(enc, dec, S) && xs != []
    ensures var n := |xs| - 1;
      && |Concat(enc, xs)| == S * |xs|
      && Concat(enc, xs)[..S * n] == Concat(enc, xs[..n])
      && Concat(enc, xs)[S * n..] == enc(xs[n])
  {
    var n := |xs| - 1;
    assert xs == xs[..n] + [xs[n]];
    ConcatAppend(enc, xs[..n], [xs[n]]);
    assert [xs[n]][1..] == [];
    ConcatLength(enc, dec, S, xs[..n]);
    ConcatLength(enc, dec, S, xs);
  }

  /** Reading a run of records back from its tail yields them in reverse order. */
  lemma {:induction false} TailRecordsConcat<T(!new)>(enc: T -> seq<uint8>, dec: seq<uint8> -> T, S: nat, xs: seq<T>)
    requires IsCodec(enc, dec, S)
    ensures S * |xs| <= |Concat(enc, xs)|
    ensures TailRecords(dec, S, |xs|, Concat(enc, xs)) == Reverse(xs)
  {
    ConcatLength(enc, dec, S, xs);
    if xs != [] {
      var n := |xs| - 1;
      var bs := Concat(enc, xs);
      ConcatSnoc(enc, dec, S, xs);
      assert S * |xs| == S * n + S;
      assert bs[|bs| - S..] == enc(xs[n]);
      assert bs[..|bs| - S] == Concat(enc, xs[..n]);
      TailRecordsConcat(enc, dec, S, xs[..n]);
      var r := TailRecords(dec, S, |xs|, bs);
      assert r == [xs[n]] + Reverse(xs[..n]);
      forall i | 0 <= i < |xs| ensures r[i] == Reverse(xs)[i] {
        if i > 0 {
          assert r[i] == Reverse(xs[..n])[i - 1] == xs[..n][n - i];
        }
      }
    }
  }

  /** The records of a selector's payload, as the join stores them: last one first. */
  lemma RecordsOfPayload<T(!new)>(enc: T -> seq<uint8>, dec: seq<uint8> -> T, S: nat, xs: seq<T>, capacity: nat)
    requires IsCodec(enc, dec, S)
    ensures ReadRecords(dec, S, Message(capacity, Concat(enc, xs))) == Reverse(xs)
  {
    TailRecordsConcat(enc, dec, S, xs);
    ConcatLength(enc, dec, S, xs);
    DivExact(S, |xs|);
    var payload := Message(capacity, Concat(enc, xs));
    assert |payload.bytes| / S == |xs|;
  }

  // ---------------------------------------------------------------------
  // Persons: `emplace` keeps the first person stored under an id

  function Emplace(persons: map<int32, PersonSelection>, ps: seq<PersonSelection>): map<int32, PersonSelection>
    decreases |ps|
  {
    if ps == [] then persons
    else Emplace(if ps[0].id in persons then persons else persons[ps[0].id := ps[0]], ps[1..])
  }

  /** The first person of `ps` with this id. */
  function FirstWithId(ps: seq<PersonSelection>, id: int32): (r: Option<PersonSelection>)
    ensures r.Some? ==> r.value in ps && r.value.id == id
    ensures r.None? ==> forall i :: 0 <= i < |ps| ==> ps[i].id != id
  {
    if ps == [] then None
    else if ps[0].id == id then Some(ps[0])
    else FirstWithId(ps[1..], id)
  }

  /**
   * After the emplaces, an id maps to the person stored before if there
   * was one, and otherwise to the first person of the message with that id.
   */
  lemma {:induction false} EmplaceAt(persons: map<int32, PersonSelection>, ps: seq<PersonSelection>, id: int32)
    decreases |ps|
    ensures id in Emplace(persons, ps) <==> id in persons || FirstWithId(ps, id).Some?
    ensures id in persons ==> Emplace(persons, ps)[id] == persons[id]
    ensures id !in persons && FirstWithId(ps, id).Some? ==> Emplace(persons, ps)[id] == FirstWithId(ps, id).value
  {
    if ps != [] {
      var next := if ps[0].id in persons then persons else persons[ps[0].id := ps[0]];
      EmplaceAt(next, ps[1..], id);
    }
  }

  // ---------------------------------------------------------------------
  // Absorbing one message

  /** The window's record buffers after the records of one message. */
  function Store(w: Window, kind: int32, payload: Message): Result<Window> {
    if kind == AUCTION_SELECTION_TYPE then
      Ok(w.(auctions := w.auctions + ReadRecords(DecodeAuctionSelection, AUCTION_SELECTION_SIZE, payload)))
    else if kind == PERSON_SELECTION_TYPE then
      Ok(w.(persons := Emplace(w.persons, ReadRecords(DecodePersonSelection, PERSON_SELECTION_SIZE, payload))))
    else
      Err(UnrecognizedMessageType(kind))
  }

  /**
   * `processInputMessage` up to the completeness test: read the header,
   * store the records in the message's window, count the message and
   * move the window's end time.  Returns the window id and the windows.
   */
  function Absorb(d: Deployment, duration: nat, windows: Windows, m: Message): (r: Result<(int32, Windows)>)
    requires d.Valid() && duration > 0
    ensures r.Ok? ==> r.value.1.Keys == windows.Keys + {r.value.0}
  {
    var j :- ParseJoinHeader(m);
    var wid := JoinWindowId(d, duration, j.msgid);
    var w :- Store(WindowAt(windows, wid), j.kind, j.payload);
    Ok((wid, windows[wid := w.(completeness := w.completeness + 1,
                               timestamp_end := Max32(w.timestamp_end, j.timestamp))]))
  }

  /**
   * A message whose header is readable is rejected iff its type is
   * neither auction nor person.  Otherwise only its window changes: it
   * counts one more message, its end time is at least the message's
   * timestamp, and it gains the message's records.
   */
  lemma AbsorbSpec(d: Deployment, duration: nat, windows: Windows, m: Message)
    requires d.Valid() && duration > 0
    ensures ParseJoinHeader(m).Err? ==> Absorb(d, duration, windows, m).Err?
    ensures ParseJoinHeader(m).Ok? ==>
              var j := ParseJoinHeader(m).value;
              && (Absorb(d, duration, windows, m).Err? <==> j.kind != AUCTION_SELECTION_TYPE && j.kind != PERSON_SELECTION_TYPE)
              && (Absorb(d, duration, windows, m).Err? ==> Absorb(d, duration, windows, m).fault == UnrecognizedMessageType(j.kind))
              && (Absorb(d, duration, windows, m).Ok? ==>
                    var (wid, windows') := Absorb(d, duration, windows, m).value;
                    var before := WindowAt(windows, wid);
                    && wid == JoinWindowId(d, duration, j.msgid)
                    && windows'.Keys == windows.Keys + {wid}
                    && (forall w :: w in windows && w != wid ==> windows'[w] == windows[w])
                    && windows'[wid].completeness == before.completeness + 1
                    && windows'[wid].timestamp_end == Max32(before.timestamp_end, j.timestamp)
                    && (j.kind == AUCTION_SELECTION_TYPE ==>
                          windows'[wid].auctions == before.auctions + ReadRecords(DecodeAuctionSelection, AUCTION_SELECTION_SIZE, j.payload)
                          && windows'[wid].persons == before.persons)
                    && (j.kind == PERSON_SELECTION_TYPE ==>
                          windows'[wid].auctions == before.auctions
                          && windows'[wid].persons == Emplace(before.persons, ReadRecords(DecodePersonSelection, PERSON_SELECTION_SIZE, j.payload))))
  {
  }

  /**
   * End to end with the auction selector's message layout: the window of
   * the message id gains the selections, last one first.
   */
  lemma AbsorbAuctionSelections(d: Deployment, duration: nat, windows: Windows, sel: seq<AuctionSelection>,
                                timestamp: int32, msgid: int32)
    requires d.Valid() && duration > 0
    ensures var m := EmitSelection(EncodeAuctionSelection, AUCTION_SELECTION_SIZE, sel, AUCTION_SELECTION_TYPE, timestamp, msgid);
      && m.Ok?
      && var wid := JoinWindowId(d, duration, msgid);
      && Absorb(d, duration, windows, m.value).Ok?
      && var windows' := Absorb(d, duration, windows, m.value).value.1;
      && wid in windows'
      && windows'[wid].auctions == WindowAt(windows, wid).auctions + Reverse(sel)
      && windows'[wid].completeness == WindowAt(windows, wid).completeness + 1
  {
    AuctionSelectionCodec();
    ParseEmitSelection(EncodeAuctionSelection, DecodeAuctionSelection, AUCTION_SELECTION_SIZE, sel,
                       AUCTION_SELECTION_TYPE, timestamp, msgid);
    var m := EmitSelection(EncodeAuctionSelection, AUCTION_SELECTION_SIZE, sel, AUCTION_SELECTION_TYPE, timestamp, msgid).value;
    RecordsOfPayload(EncodeAuctionSelection, DecodeAuctionSelection, AUCTION_SELECTION_SIZE, sel, m.capacity);
  }

  /**
   * End to end with the person selector's message layout: the window of
   * the message id gains the persons not already stored, each id keeping
   * its first person in the order the join reads them (last one first).
   */
  lemma AbsorbPersonSelections(d: Deployment, duration: nat, windows: Windows, sel: seq<PersonSelection>,
                               timestamp: int32, msgid: int32)
    requires d.Valid() && duration > 0
    ensures var m := EmitSelection(EncodePersonSelection, PERSON_SELECTION_SIZE, sel, PERSON_SELECTION_TYPE, timestamp, msgid);
      && m.Ok?
      && var wid := JoinWindowId(d, duration, msgid);
      && Absorb(d, duration, windows, m.value).Ok?
      && var windows' := Absorb(d, duration, windows, m.value).value.1;
      && wid in windows'
      && windows'[wid].persons == Emplace(WindowAt(windows, wid).persons, Reverse(sel))
      && windows'[wid].completeness == WindowAt(windows, wid).completeness + 1
  {
    PersonSelectionCodec();
    ParseEmitSelection(EncodePersonSelection, DecodePersonSelection, PERSON_SELECTION_SIZE, sel,
                       PERSON_SELECTION_TYPE, timestamp, msgid);
    var m := EmitSelection(EncodePersonSelection, PERSON_SELECTION_SIZE, sel, PERSON_SELECTION_TYPE, timestamp, msgid).value;
    RecordsOfPayload(EncodePersonSelection, DecodePersonSelection, PERSON_SELECTION_SIZE, sel, m.capacity);
  }

  // ---------------------------------------------------------------------
  // Joining a complete window

  /** The buffered auctions whose seller has a person in the window, in buffer order. */
  function Matches(auctions: seq<AuctionSelection>, persons: map<int32, PersonSelection>): (r: seq<AuctionSelection>)
    ensures forall i :: 0 <= i < |r| ==> r[i].seller_id in persons
  {
    if auctions == [] then []
    else (if auctions[0].seller_id in persons then [auctions[0]] else []) + Matches(auctions[1..], persons)
  }

  /** Every auction whose seller is present is kept, as often as it was buffered; the others are dropped. */
  lemma {:induction false} MatchesCount(auctions: seq<AuctionSelection>, persons: map<int32, PersonSelection>, a: AuctionSelection)
    ensures multiset(Matches(auctions, persons))[a] == if a.seller_id in persons then multiset(auctions)[a] else 0
  {
    if auctions != [] {
      MatchesCount(auctions[1..], persons, a);
      assert auctions == [auctions[0]] + auctions[1..];
    }
  }

  /** `combine`: the auction's fields and the person's name, copied with `strcpy` over `stale`. */
  function Combine(a: AuctionSelection, p: PersonSelection, stale: Name): JoinOutput {
    JoinOutput(a.seller_id, a.reserve_price, a.id, StrCpy(p.name, stale))
  }

  /** `computeAggregates`; `stale(i)` is what the `i`-th combination's name buffer held. */
  function Aggregates(w: Window, stale: nat -> Name): seq<JoinOutput> {
    var ms := Matches(w.auctions, w.persons);
    seq(|ms|, i requires 0 <= i < |ms| => Combine(ms[i], w.persons[ms[i].seller_id], stale(i)))
  }

  /**
   * One output per matching auction, in buffer order, carrying the
   * auction's seller, reserve price and id and its seller's name string.
   */
  lemma AggregatesSpec(w: Window, stale: nat -> Name)
    ensures var ms := Matches(w.auctions, w.persons);
      var out := Aggregates(w, stale);
      && |out| == |ms|
      && forall i :: 0 <= i < |out| ==>
           && out[i].seller_id == ms[i].seller_id
           && out[i].reserve_price == ms[i].reserve_price
           && out[i].auction_id == ms[i].id
           && CString(out[i].seller_name) == CString(w.persons[ms[i].seller_id].name)
  {
    var ms := Matches(w.auctions, w.persons);
    var out := Aggregates(w, stale);
    forall i | 0 <= i < |out|
      ensures out[i].seller_id == ms[i].seller_id && out[i].reserve_price == ms[i].reserve_price
      ensures out[i].auction_id == ms[i].id
      ensures CString(out[i].seller_name) == CString(w.persons[ms[i].seller_id].name)
    {
      StrCpySameString(w.persons[ms[i].seller_id].name, stale(i));
    }
  }

  /**
   * `buildOutputMessage` for window `wid`: the combinations, the window's
   * end time and its id, in a message with `extra` spare bytes for the
   * variant that appends more.
   */
  function BuildOutput(wid: int32, w: Window, stale: nat -> Name, extra: nat): (r: Result<Message>)
    ensures r.Ok? && r.value.Wf() && r.value.capacity == r.value.Size() + extra
    ensures r.Ok? ==> r.value.bytes == Concat(EncodeJoinOutput, Aggregates(w, stale))
                                      + Flatten([IntField(w.timestamp_end), IntField(wid)])
  {
    var aggregates := Aggregates(w, stale);
    var fields := [IntField(w.timestamp_end), IntField(wid)];
    JoinOutputCodec();
    FlattenTwo(IntField(w.timestamp_end), IntField(wid));
    ConcatLength(EncodeJoinOutput, DecodeJoinOutput, JOIN_OUTPUT_SIZE, aggregates);
    EmitRecordsFits(EncodeJoinOutput, DecodeJoinOutput, JOIN_OUTPUT_SIZE, aggregates, fields,
                    JOIN_OUTPUT_SIZE * |aggregates| + 2 * INT_SIZE + extra);
    EmitRecords(EncodeJoinOutput, aggregates, fields, JOIN_OUTPUT_SIZE * |aggregates| + 2 * INT_SIZE + extra)
  }

  /** The join's output, read as a run of records under the end time and the window id. */
  lemma BuildOutputParses(wid: int32, w: Window, stale: nat -> Name, extra: nat)
    ensures ParseStamped(DecodeJoinOutput, JOIN_OUTPUT_SIZE, BuildOutput(wid, w, stale, extra).value)
            == Ok((wid, w.timestamp_end, Aggregates(w, stale)))
  {
    JoinOutputCodec();
    var m := BuildOutput(wid, w, stale, extra).value;
    ParseStampedBytes(EncodeJoinOutput, DecodeJoinOutput, JOIN_OUTPUT_SIZE, Aggregates(w, stale),
                      w.timestamp_end, wid, m.capacity);
  }

  // ---------------------------------------------------------------------
  // Count join

  /** What one call of `processInputMessage` leaves: the windows, the messages sent and the exception thrown. */
  datatype JoinOutcome = JoinOutcome(windows: Windows, out: seq<Outgoing>, fault: Option<Fault>)

  /**
   * `buildOutputMessage` and `send` on the lowest window: the window is
   * erased first, then `send` throws unless exactly one collector follows.
   */
  function EmitLowest(d: Deployment, windows: Windows, stale: nat -> Name): JoinOutcome
    requires windows != map[]
  {
    var lo := Least(windows.Keys);
    var msg := BuildOutput(lo, windows[lo], stale, 0).value;
    if d.nextCount != 1 then JoinOutcome(windows - {lo}, [], Some(IncorrectCollectorCount(d.nextCount)))
    else JoinOutcome(windows - {lo}, [Outgoing(0, msg)], None)
  }

  /**
   * `processInputMessage` of the count join: absorb the message, then
   * emit the lowest window if it has received all its messages.
   */
  function JoinStep(d: Deployment, duration: nat, windows: Windows, m: Message, stale: nat -> Name): JoinOutcome
    requires d.Valid() && duration > 0
  {
    match Absorb(d, duration, windows, m)
    case Err(f) => JoinOutcome(windows, [], Some(f))
    case Ok((_, windows1)) => EmitIfComplete(d, duration, windows1, stale)
  }

  /** The completeness check on the lowest window after a message was absorbed. */
  function EmitIfComplete(d: Deployment, duration: nat, windows1: Windows, stale: nat -> Name): JoinOutcome
    requires d.Valid() && duration > 0 && windows1 != map[]
  {
    var lo := Least(windows1.Keys);
    if windows1[lo].completeness == MessagesPerWindow(d, duration) then EmitLowest(d, windows1, stale)
    else JoinOutcome(windows1, [], None)
  }

  /**
   * Only the lowest window is emitted, exactly when it is complete; it is
   * erased whether or not the send succeeds.
   */
  lemma EmitIfCompleteSpec(d: Deployment, duration: nat, windows1: Windows, stale: nat -> Name)
    requires d.Valid() && duration > 0 && windows1 != map[]
    ensures var o := EmitIfComplete(d, duration, windows1, stale);
      && var lo := Least(windows1.Keys);
      && (forall w :: w in windows1 ==> lo <= w)
      && var complete := windows1[lo].completeness == MessagesPerWindow(d, duration);
      && o.windows == (if complete then windows1 - {lo} else windows1)
      && (o.fault.Some? <==> complete && d.nextCount != 1)
      && (o.out != [] <==> complete && d.nextCount == 1)
      && (o.out != [] ==>
            && |o.out| == 1 && o.out[0].channel == 0
            && ParseStamped(DecodeJoinOutput, JOIN_OUTPUT_SIZE, o.out[0].msg)
               == Ok((lo, windows1[lo].timestamp_end, Aggregates(windows1[lo], stale))))
  {
    var lo := Least(windows1.Keys);
    BuildOutputParses(lo, windows1[lo], stale, 0);
  }

  /**
   * A rejected message leaves the windows alone.  Otherwise only the
   * lowest window is ever emitted, exactly when it has received
   * `2 * window_duration * PER_SEC_MSG_COUNT * worldSize` messages; it is
   * then erased whether or not the send succeeds, and the message sent on
   * channel 0 holds its window id, end time and join result.
   */
  lemma JoinStepSpec(d: Deployment, duration: nat, windows: Windows, m: Message, stale: nat -> Name)
    requires d.Valid() && duration > 0
    ensures var o := JoinStep(d, duration, windows, m, stale);
      && (Absorb(d, duration, windows, m).Err? ==> o == JoinOutcome(windows, [], Some(Absorb(d, duration, windows, m).fault)))
      && (Absorb(d, duration, windows, m).Ok? ==>
            var windows1 := Absorb(d, duration, windows, m).value.1;
            && windows1 != map[]
            && var lo := Least(windows1.Keys);
            && (forall w :: w in windows1 ==> lo <= w)
            && var complete := windows1[lo].completeness == MessagesPerWindow(d, duration);
            && o.windows == (if complete then windows1 - {lo} else windows1)
            && (o.fault.Some? <==> complete && d.nextCount != 1)
            && (o.out != [] <==> complete && d.nextCount == 1)
            && (o.out != [] ==>
                  && |o.out| == 1 && o.out[0].channel == 0
                  && ParseStamped(DecodeJoinOutput, JOIN_OUTPUT_SIZE, o.out[0].msg)
                     == Ok((lo, windows1[lo].timestamp_end, Aggregates(windows1[lo], stale)))))
  {
    if Absorb(d, duration, windows, m).Ok? {
      AbsorbSpec(d, duration, windows, m);
      var windows1 := Absorb(d, duration, windows, m).value.1;
      assert JoinStep(d, duration, windows, m, stale) == EmitIfComplete(d, duration, windows1, stale);
      EmitIfCompleteSpec(d, duration, windows1, stale);
    }
  }

  // ---------------------------------------------------------------------
  // Sort join (`_ws`): messages consumed in message-id order

  /** Each processing thread starts expecting message id `channel % worldSize`. */
  function WsInitialExpected(d: Deployment, channel: nat): (e: int)
    requires d.Valid()
    ensures 0 <= e < d.worldSize
    ensures channel == d.worldSize * (channel / d.worldSize) + e
  {
    channel % d.worldSize
  }

  /** The comparator `read_back<int>(a) < read_back<int>(b)`. */
  function MsgIdKey(m: Message): Key {
    Key(GroupbyWs.BackInt(m, 0), 0)
  }

  /** `read_back<int>`: the message id on top of a message. */
  function MessageId(m: Message): Result<int32> {
    ReadBackInt(m, 0)
  }

  /** The base join's `processInputMessage`, as the sort join calls it. */
  type JoinStepFn = (Windows, Message) -> JoinOutcome

  function BaseStep(d: Deployment, duration: nat, stale: nat -> Name): JoinStepFn
    requires d.Valid() && duration > 0
  {
    (windows: Windows, m: Message) => JoinStep(d, duration, windows, m, stale)
  }

  /** A join step folded over messages, every exception it throws kept. */
  datatype JoinRun = JoinRun(windows: Windows, out: seq<Outgoing>, caught: seq<Fault>)

  function Caught(f: Option<Fault>): seq<Fault> {
    if f.Some? then [f.value] else []
  }

  function RunJoin(step: JoinStepFn, windows: Windows, ms: seq<Message>): JoinRun
    decreases |ms|
  {
    if ms == [] then JoinRun(windows, [], [])
    else
      var o := step(windows, ms[0]);
      var q := RunJoin(step, o.windows, ms[1..]);
      JoinRun(q.windows, o.out + q.out, Caught(o.fault) + q.caught)
  }

  /**
   * The sort join's loop catches `const char*` only.  Inside the join
   * step `unwrap` and `wrap` throw a `std::string`, which escapes the loop
   * and ends the program; the type check and `send` throw string
   * literals, which the loop catches.
   */
  predicate EscapesCatch(f: Fault) {
    f.Underflow? || f.CapacityExceeded?
  }

  /**
   * Whether a call got as far as `pthread_mutex_lock(&mtx)`: every call
   * not rejected while its header was read and its records stored.
   */
  predicate ReachesLock(o: JoinOutcome) {
    o.fault.None? || o.fault.value.IncorrectCollectorCount?
  }

  /** `send` threw between `pthread_mutex_lock(&mtx)` and the unlock, so `mtx` stays locked. */
  predicate LeavesLocked(o: JoinOutcome) {
    o.fault.Some? && o.fault.value.IncorrectCollectorCount?
  }

  /** Some call of the run left `mtx` locked. */
  predicate SendFailed(caught: seq<Fault>) {
    exists f :: f in caught && f.IncorrectCollectorCount?
  }

  /** For the base join, a call reaches the lock iff it absorbs the message. */
  lemma BaseStepReachesLock(d: Deployment, duration: nat, windows: Windows, m: Message, stale: nat -> Name)
    requires d.Valid() && duration > 0
    ensures ReachesLock(JoinStep(d, duration, windows, m, stale)) <==> Absorb(d, duration, windows, m).Ok?
    ensures LeavesLocked(JoinStep(d, duration, windows, m, stale))
            <==> Absorb(d, duration, windows, m).Ok? && JoinStep(d, duration, windows, m, stale).fault.Some?
  {
    AbsorbSpec(d, duration, windows, m);
    JoinStepSpec(d, duration, windows, m, stale);
    if Absorb(d, duration, windows, m).Err? {
      var f := Absorb(d, duration, windows, m).fault;
      assert f.Underflow? || f.UnrecognizedMessageType?;
    } else {
      var windows1 := Absorb(d, duration, windows, m).value.1;
      assert JoinStep(d, duration, windows, m, stale) == EmitIfComplete(d, duration, windows1, stale);
    }
  }

  /**
   * What one pass of the loop left: the run over the messages it joined,
   * the expected id, whether `mtx` is still locked, whether the thread is
   * blocked on it, the messages joined and the messages left.
   */
  datatype WsConsumed = WsConsumed(run: JoinRun, expected: int, held: bool, blocked: bool,
                                   consumed: seq<Message>, rest: seq<Message>)

  /**
   * The inner loop of `streamProcess`: while the front message has the
   * expected id, process it, drop it, and expect the id `worldSize`
   * further.  An exception that escapes `catch(const char*)` ends the
   * program (`Err`).  Once `send` has thrown with `mtx` locked, the next
   * message that gets as far as the lock blocks the thread for good; it
   * stays at the front of the list.  `idOf` reads a message's id; the sort
   * join passes `MessageId`.
   */
  function WsConsume(step: JoinStepFn, idOf: Message -> Result<int32>, worldSize: int, windows: Windows,
                     held: bool, expected: int, ms: seq<Message>)
    : Result<WsConsumed>
    decreases |ms|
  {
    if ms == [] then Ok(WsConsumed(JoinRun(windows, [], []), expected, held, false, [], []))
    else
      var msgid :- idOf(ms[0]);
      if msgid != expected then Ok(WsConsumed(JoinRun(windows, [], []), expected, held, false, [], ms))
      else
        var o := step(windows, ms[0]);
        if o.fault.Some? && EscapesCatch(o.fault.value) then Err(o.fault.value)
        else if held && ReachesLock(o) then Ok(WsConsumed(JoinRun(windows, [], []), expected, held, true, [], ms))
        else
          var q :- WsConsume(step, idOf, worldSize, o.windows, held || LeavesLocked(o), expected + worldSize, ms[1..]);
          Ok(q.(run := JoinRun(q.run.windows, o.out + q.run.out, Caught(o.fault) + q.run.caught),
                consumed := [ms[0]] + q.consumed))
  }

  /**
   * What one pass of the loop did: it joined a prefix of `ms` whose
   * message ids are the expected id and its successors `worldSize` apart,
   * through the join step and without an exception escaping; it stopped
   * either at the first message with another id or, with `mtx` still
   * locked, at an expected message that reaches the lock; and `mtx` is
   * locked afterwards iff it was before or a `send` of the pass failed.
   */
  ghost predicate ConsumedPrefix(step: JoinStepFn, idOf: Message -> Result<int32>, worldSize: int,
                                 windows: Windows, held: bool, expected: int, ms: seq<Message>, c: WsConsumed)
  {
    && c.consumed + c.rest == ms
    && (forall i :: 0 <= i < |c.consumed| ==> idOf(c.consumed[i]) == Ok(IdAfter(expected, i, worldSize)))
    && c.expected == IdAfter(expected, |c.consumed|, worldSize)
    && c.run == RunJoin(step, windows, c.consumed)
    && (forall i :: 0 <= i < |c.run.caught| ==> !EscapesCatch(c.run.caught[i]))
    && c.held == (held || SendFailed(c.run.caught))
    && (c.rest != [] && !c.blocked ==> idOf(c.rest[0]) != Ok(c.expected))
    && (c.blocked ==> c.rest != [] && idOf(c.rest[0]) == Ok(c.expected)
                      && c.held && ReachesLock(step(c.run.windows, c.rest[0])))
  }

  /**
   * The loop joins a prefix whose message ids are the expected id and its
   * successors `worldSize` apart, and stops at the first other id, or at
   * the first expected message that would take the lock `mtx` while a
   * failed `send` still holds it.
   */
  lemma {:induction false} WsConsumeSpec(step: JoinStepFn, idOf: Message -> Result<int32>, worldSize: int,
                                         windows: Windows, held: bool, expected: int, ms: seq<Message>)
    decreases |ms|
    ensures var r := WsConsume(step, idOf, worldSize, windows, held, expected, ms);
      r.Ok? ==> ConsumedPrefix(step, idOf, worldSize, windows, held, expected, ms, r.value)
  {
    if ms != [] && idOf(ms[0]) == Ok(expected) {
      var o := step(windows, ms[0]);
      if !(o.fault.Some? && EscapesCatch(o.fault.value)) && !(held && ReachesLock(o))
         && WsConsume(step, idOf, worldSize, o.windows, held || LeavesLocked(o), expected + worldSize, ms[1..]).Ok? {
        WsConsumeSpec(step, idOf, worldSize, o.windows, held || LeavesLocked(o), expected + worldSize, ms[1..]);
        WsConsumeStep(step, idOf, worldSize, windows, held, expected, ms);
        return;
      }
    }
    WsConsumeStops(step, idOf, worldSize, windows, held, expected, ms);
  }

  /** The loop stops before the first message, or blocks on it. */
  lemma WsConsumeStops(step: JoinStepFn, idOf: Message -> Result<int32>, worldSize: int,
                       windows: Windows, held: bool, expected: int, ms: seq<Message>)
    requires ms != [] && idOf(ms[0]) == Ok(expected) ==>
      var o := step(windows, ms[0]);
      || (o.fault.Some? && EscapesCatch(o.fault.value)) || (held && ReachesLock(o))
      || WsConsume(step, idOf, worldSize, o.windows, held || LeavesLocked(o), expected + worldSize, ms[1..]).Err?
    ensures var r := WsConsume(step, idOf, worldSize, windows, held, expected, ms);
      r.Ok? ==> ConsumedPrefix(step, idOf, worldSize, windows, held, expected, ms, r.value)
  {
    assert !SendFailed([]);
    if ms != [] && idOf(ms[0]).Ok? {
      var c := WsConsumed(JoinRun(windows, [], []), expected, held, idOf(ms[0]).value == expected, [], ms);
      if idOf(ms[0]).value != expected {
        assert WsConsume(step, idOf, worldSize, windows, held, expected, ms) == Ok(c);
        assert idOf(ms[0]) != Ok(expected);
      } else if held && ReachesLock(step(windows, ms[0])) {
        assert WsConsume(step, idOf, worldSize, windows, held, expected, ms) == Ok(c);
      }
    }
  }

  lemma WsConsumeStep(step: JoinStepFn, idOf: Message -> Result<int32>, worldSize: int, windows: Windows,
                      held: bool, expected: int, ms: seq<Message>)
    requires ms != [] && idOf(ms[0]) == Ok(expected)
    requires var o := step(windows, ms[0]);
      && !(o.fault.Some? && EscapesCatch(o.fault.value))
      && !(held && ReachesLock(o))
      && WsConsume(step, idOf, worldSize, o.windows, held || LeavesLocked(o), expected + worldSize, ms[1..]).Ok?
      && ConsumedPrefix(step, idOf, worldSize, o.windows, held || LeavesLocked(o), expected + worldSize, ms[1..],
                        WsConsume(step, idOf, worldSize, o.windows, held || LeavesLocked(o), expected + worldSize, ms[1..]).value)
    ensures WsConsume(step, idOf, worldSize, windows, held, expected, ms).Ok?
    ensures ConsumedPrefix(step, idOf, worldSize, windows, held, expected, ms,
                           WsConsume(step, idOf, worldSize, windows, held, expected, ms).value)
  {
    var o := step(windows, ms[0]);
    var q := WsConsume(step, idOf, worldSize, o.windows, held || LeavesLocked(o), expected + worldSize, ms[1..]).value;
    var c := q.(run := JoinRun(q.run.windows, o.out + q.run.out, Caught(o.fault) + q.run.caught),
                consumed := [ms[0]] + q.consumed);
    assert WsConsume(step, idOf, worldSize, windows, held, expected, ms) == Ok(c);
    ConsumedPrefixCons(step, idOf, worldSize, windows, held, expected, ms, o, q, c);
  }

  /** Putting the expected message in front of a consumed prefix of the rest. */
  lemma ConsumedPrefixCons(step: JoinStepFn, idOf: Message -> Result<int32>, worldSize: int, windows: Windows,
                           held: bool, expected: int, ms: seq<Message>, o: JoinOutcome, q: WsConsumed, c: WsConsumed)
    requires ms != [] && idOf(ms[0]) == Ok(expected) && o == step(windows, ms[0])
    requires !(o.fault.Some? && EscapesCatch(o.fault.value))
    requires ConsumedPrefix(step, idOf, worldSize, o.windows, held || LeavesLocked(o), expected + worldSize, ms[1..], q)
    requires c == q.(run := JoinRun(q.run.windows, o.out + q.run.out, Caught(o.fault) + q.run.caught),
                     consumed := [ms[0]] + q.consumed)
    ensures ConsumedPrefix(step, idOf, worldSize, windows, held, expected, ms, c)
  {
    assert c.consumed + c.rest == ms by {
      assert ms == [ms[0]] + ms[1..];
    }
    assert c.run == RunJoin(step, windows, c.consumed) by {
      assert c.consumed[0] == ms[0] && c.consumed[1..] == q.consumed;
    }
    IdsShift(idOf, ms[0], q.consumed, expected, worldSize);
    CaughtCons(o, q.run.caught);
  }

  /** The faults of a call in front of a run's: none escapes, and a failed send shows. */
  lemma CaughtCons(o: JoinOutcome, caught: seq<Fault>)
    requires !(o.fault.Some? && EscapesCatch(o.fault.value))
    requires forall i :: 0 <= i < |caught| ==> !EscapesCatch(caught[i])
    ensures forall i :: 0 <= i < |Caught(o.fault) + caught| ==> !EscapesCatch((Caught(o.fault) + caught)[i])
    ensures SendFailed(Caught(o.fault) + caught) == (LeavesLocked(o) || SendFailed(caught))
  {
    var all := Caught(o.fault) + caught;
    forall i | 0 <= i < |all| ensures !EscapesCatch(all[i]) {
      if i >= |Caught(o.fault)| {
        assert all[i] == caught[i - |Caught(o.fault)|];
      }
    }
    if LeavesLocked(o) {
      assert o.fault.value in all;
    }
    if SendFailed(caught) {
      var f :| f in caught && f.IncorrectCollectorCount?;
      assert f in all;
    }
  }

  /** The id expected after `i` messages, `step` apart. */
  function IdAfter(expected: int, i: int, step: int): int {
    expected + i * step
  }

  /** Prefixing the message with the expected id shifts the expected ids by one step. */
  lemma IdsShift(idOf: Message -> Result<int32>, m: Message, ms: seq<Message>, expected: int, step: int)
    requires idOf(m) == Ok(expected)
    requires forall i :: 0 <= i < |ms| ==> idOf(ms[i]) == Ok(IdAfter(expected + step, i, step))
    ensures forall i :: 0 <= i < |[m] + ms| ==> idOf(([m] + ms)[i]) == Ok(IdAfter(expected, i, step))
    ensures IdAfter(expected + step, |ms|, step) == IdAfter(expected, |[m] + ms|, step)
  {
    forall i | 0 <= i < |[m] + ms|
      ensures idOf(([m] + ms)[i]) == Ok(IdAfter(expected, i, step))
    {
      if i > 0 {
        assert ([m] + ms)[i] == ms[i - 1];
        assert IdAfter(expected + step, i - 1, step) == IdAfter(expected, i, step);
      }
    }
    assert |[m] + ms| * step == |ms| * step + step;
  }

  /**
   * An expected message shorter than the join header, but long enough to
   * carry its id, makes the header's `unwrap` throw a `std::string`: the
   * loop does not catch it and the program ends.
   */
  lemma WsShortHeaderEnds(d: Deployment, duration: nat, stale: nat -> Name, windows: Windows, held: bool,
                          m: Message, rest: seq<Message>)
    requires d.Valid() && duration > 0
    requires m.Size() < 3 * INT_SIZE && MessageId(m).Ok?
    ensures var r := WsConsume(BaseStep(d, duration, stale), MessageId, d.worldSize, windows, held,
                               MessageId(m).value, [m] + rest);
      r.Err? && r.fault.Underflow?
  {
    var step := BaseStep(d, duration, stale);
    assert ([m] + rest)[0] == m;
    assert ParseJoinHeader(m).Err?;
    assert Absorb(d, duration, windows, m).Err?;
    assert step(windows, m) == JoinOutcome(windows, [], Some(Absorb(d, duration, windows, m).fault));
  }

  /**
   * After a call that left `mtx` locked, the next expected message that
   * reaches the lock ends the pass, blocked, with that message still at
   * the front.
   */
  lemma BlockAfterFailedSend(step: JoinStepFn, idOf: Message -> Result<int32>, worldSize: int, windows: Windows,
                             expected: int, m1: Message, m2: Message, rest: seq<Message>, o: JoinOutcome)
    requires idOf(m1) == Ok(expected) && idOf(m2) == Ok(expected + worldSize)
    requires step(windows, m1) == o && LeavesLocked(o)
    requires ReachesLock(step(o.windows, m2))
    ensures var r := WsConsume(step, idOf, worldSize, windows, false, expected, [m1, m2] + rest);
      && r.Ok? && r.value.blocked && r.value.held
      && r.value.consumed == [m1] && r.value.rest == [m2] + rest
  {
    var ms := [m1, m2] + rest;
    assert ms[0] == m1 && ms[1..] == [m2] + rest;
    assert ([m2] + rest)[0] == m2;
    var q := WsConsumed(JoinRun(o.windows, [], []), expected + worldSize, true, true, [], [m2] + rest);
    assert WsConsume(step, idOf, worldSize, o.windows, true, expected + worldSize, [m2] + rest) == Ok(q);
    var c := q.(run := JoinRun(q.run.windows, o.out + q.run.out, Caught(o.fault) + q.run.caught),
                consumed := [m1] + q.consumed);
    assert WsConsume(step, idOf, worldSize, windows, false, expected, ms) == Ok(c);
  }

  /**
   * Once a `send` of the base join has failed, the next expected message
   * it would absorb blocks the thread on `mtx`: the pass ends there, that
   * message still at the front, and every later pass does nothing.
   */
  lemma WsSendFailureBlocks(d: Deployment, duration: nat, stale: nat -> Name, windows: Windows, expected: int,
                            m1: Message, m2: Message, rest: seq<Message>)
    requires d.Valid() && duration > 0
    requires MessageId(m1) == Ok(expected) && MessageId(m2) == Ok(expected + d.worldSize)
    requires LeavesLocked(JoinStep(d, duration, windows, m1, stale))
    requires Absorb(d, duration, JoinStep(d, duration, windows, m1, stale).windows, m2).Ok?
    ensures var r := WsConsume(BaseStep(d, duration, stale), MessageId, d.worldSize, windows, false, expected,
                               [m1, m2] + rest);
      && r.Ok? && r.value.blocked && r.value.held
      && r.value.consumed == [m1] && r.value.rest == [m2] + rest
  {
    var step := BaseStep(d, duration, stale);
    var o := JoinStep(d, duration, windows, m1, stale);
    BaseStepApplies(d, duration, stale, windows, m1, o.windows, m2);
    assert ReachesLock(step(o.windows, m2)) by {
      BaseStepReachesLock(d, duration, o.windows, m2, stale);
    }
    BlockAfterFailedSend(step, MessageId, d.worldSize, windows, expected, m1, m2, rest, o);
  }

  lemma BaseStepApplies(d: Deployment, duration: nat, stale: nat -> Name, windows: Windows, m1: Message,
                        windows1: Windows, m2: Message)
    requires d.Valid() && duration > 0
    ensures BaseStep(d, duration, stale)(windows, m1) == JoinStep(d, duration, windows, m1, stale)
    ensures BaseStep(d, duration, stale)(windows1, m2) == JoinStep(d, duration, windows1, m2, stale)
  {
  }

  /**
   * A processing thread of the sort join: the windows, the expected id,
   * the messages waiting, whether `mtx` is left locked, and whether the
   * thread is blocked on it for good.
   */
  datatype WsJoinState = WsJoinState(windows: Windows, expected: int, pending: seq<Message>,
                                     held: bool, blocked: bool)

  function WsJoinInit(d: Deployment, channel: nat): WsJoinState
    requires d.Valid()
  {
    WsJoinState(map[], WsInitialExpected(d, channel), [], false, false)
  }

  /**
   * One turn of `streamProcess`: the fetched messages join the waiting
   * ones, the list is sorted by message id and its expected prefix is
   * consumed.  Only rank 0 runs the join, and a blocked thread never
   * returns from the lock; otherwise nothing happens.
   */
  function WsJoinPass(d: Deployment, duration: nat, st: WsJoinState, fetched: seq<Message>, stale: nat -> Name)
    : Result<(WsJoinState, JoinRun)>
    requires d.Valid() && duration > 0
  {
    if d.rank != 0 || st.blocked then Ok((st, JoinRun(st.windows, [], [])))
    else
      var sorted :- SortMessages(MsgIdKey, INT_SIZE, st.pending + fetched);
      var c :- WsConsume(BaseStep(d, duration, stale), MessageId, d.worldSize, st.windows, st.held, st.expected, sorted);
      Ok((WsJoinState(c.run.windows, c.expected, c.rest, c.held, c.blocked), c.run))
  }

  /**
   * On rank 0 a pass of a running thread loses and invents no message,
   * keeps the waiting messages in message-id order, advances the expected
   * id by `worldSize` per message it processed through the base join, lets
   * no exception escape, keeps `mtx` locked once a `send` failed, and
   * stops at an unexpected id or, blocked, at an expected message that
   * needs the lock; elsewhere, or once blocked, it changes nothing.
   */
  lemma WsJoinPassSpec(d: Deployment, duration: nat, st: WsJoinState, fetched: seq<Message>, stale: nat -> Name)
    requires d.Valid() && duration > 0
    ensures var r := WsJoinPass(d, duration, st, fetched, stale);
      && (d.rank != 0 || st.blocked ==> r == Ok((st, JoinRun(st.windows, [], []))))
      && (d.rank == 0 && !st.blocked && r.Ok? ==>
            var (st', run) := r.value;
            && (forall i :: 0 <= i < |run.caught| ==> !EscapesCatch(run.caught[i]))
            && st'.held == (st.held || SendFailed(run.caught))
            && (st'.pending != [] && !st'.blocked ==> MessageId(st'.pending[0]) != Ok(st'.expected))
            && (st'.blocked ==> st'.held && st'.pending != [] && MessageId(st'.pending[0]) == Ok(st'.expected))
            && exists consumed: seq<Message> ::
                 && multiset(consumed) + multiset(st'.pending) == multiset(st.pending + fetched)
                 && SortedBy(MsgIdKey, consumed + st'.pending)
                 && st'.expected == st.expected + |consumed| * d.worldSize
                 && run == RunJoin(BaseStep(d, duration, stale), st.windows, consumed)
                 && st'.windows == run.windows)
  {
    var r := WsJoinPass(d, duration, st, fetched, stale);
    if d.rank == 0 && !st.blocked && r.Ok? {
      var sorted := SortMessages(MsgIdKey, INT_SIZE, st.pending + fetched).value;
      WsConsumeSpec(BaseStep(d, duration, stale), MessageId, d.worldSize, st.windows, st.held, st.expected, sorted);
      var c := WsConsume(BaseStep(d, duration, stale), MessageId, d.worldSize, st.windows, st.held, st.expected, sorted).value;
      MultisetSplit(c.consumed, c.rest, sorted);
      assert WsJoinPass(d, duration, st, fetched, stale)
          == Ok((WsJoinState(c.run.windows, c.expected, c.rest, c.held, c.blocked), c.run));
    }
  }

  lemma MultisetSplit<T>(a: seq<T>, b: seq<T>, s: seq<T>)
    requires a + b == s
    ensures multiset(a) + multiset(b) == multiset(s)
  {
  }

  // ---------------------------------------------------------------------
  // Flow-wrapping join (`_fw`)

  /** The count join's windows and the numerators received per unit window id. */
  datatype FwJoinState = FwJoinState(windows: Windows, completeness: map<int32, int>)

  datatype FwJoinOutcome = FwJoinOutcome(state: FwJoinState, out: seq<Outgoing>, fault: Option<Fault>)

  function Numerators(c: map<int32, int>, w: int32): int {
    if w in c then c[w] else 0
  }

  /** `completeness.emplace(wid, 0)` then `completeness[wid] += numerator`. */
  function AddNumerator(c: map<int32, int>, u: WrapperUnit): (c': map<int32, int>)
    ensures c'.Keys == c.Keys + {u.window_start_time}
    ensures c'[u.window_start_time] == Numerators(c, u.window_start_time) + u.completeness_tag_numerator
    ensures forall w :: w in c && w != u.window_start_time ==> c'[w] == c[w]
  {
    c[u.window_start_time := Numerators(c, u.window_start_time) + u.completeness_tag_numerator]
  }

  /**
   * `processInputMessage` of the flow-wrapping join: strip the unit and
   * add its numerator to its window (before the base processing, so even
   * a message of unknown type is counted), then run the base processing
   * with the lowest unit window's numerator sum as the completeness test.
   * The output is built in a message twelve bytes larger; if it is sent,
   * the unit (lowest unit window, 1, 1) is appended and that window's
   * numerator sum erased.
   */
  function FwJoinStep(d: Deployment, duration: nat, st: FwJoinState, m: Message, stale: nat -> Name): FwJoinOutcome
    requires d.Valid() && duration > 0
  {
    match Unwrap(WRAPPER_UNIT_SIZE, m)
    case Err(f) => FwJoinOutcome(st, [], Some(f))
    case Ok((ub, rest)) =>
      var c := AddNumerator(st.completeness, DecodeWrapperUnit(ub));
      match Absorb(d, duration, st.windows, rest)
      case Err(f) => FwJoinOutcome(FwJoinState(st.windows, c), [], Some(f))
      case Ok((_, windows1)) =>
        var lo := Least(c.Keys);
        if c[lo] != MessagesPerWindow(d, duration) then FwJoinOutcome(FwJoinState(windows1, c), [], None)
        else FwEmit(d, windows1, c, stale)
  }

  /**
   * `buildOutputMessage` of the base join in a larger message, then the
   * base `send`, which throws unless one collector follows, then the
   * overriding `send(message, channel)`, which appends the unit of the
   * lowest unit window and erases that window's sum.
   */
  function FwEmit(d: Deployment, windows: Windows, c: map<int32, int>, stale: nat -> Name): FwJoinOutcome
    requires windows != map[] && c != map[]
  {
    var wlo := Least(windows.Keys);
    var lo := Least(c.Keys);
    var built := BuildOutput(wlo, windows[wlo], stale, WRAPPER_UNIT_SIZE).value;
    if d.nextCount != 1 then
      FwJoinOutcome(FwJoinState(windows - {wlo}, c), [], Some(IncorrectCollectorCount(d.nextCount)))
    else
      var msg := Wrap(EncodeWrapperUnit(WrapperUnit(lo, 1, 1)), built).value;
      FwJoinOutcome(FwJoinState(windows - {wlo}, c - {lo}), [Outgoing(0, msg)], None)
  }

  /**
   * The unit's numerator is counted even when the base processing then
   * rejects the message; the lowest join window is emitted exactly when
   * the lowest unit window's sum reaches
   * `2 * window_duration * worldSize * PER_SEC_MSG_COUNT`.
   */
  lemma FwJoinStepSpec(d: Deployment, duration: nat, st: FwJoinState, m: Message, stale: nat -> Name)
    requires d.Valid() && duration > 0
    ensures var o := FwJoinStep(d, duration, st, m, stale);
      && (m.Size() < WRAPPER_UNIT_SIZE ==> o == FwJoinOutcome(st, [], Some(Underflow(m.Size(), WRAPPER_UNIT_SIZE))))
      && (WRAPPER_UNIT_SIZE <= m.Size() ==>
            var (ub, rest) := Unwrap(WRAPPER_UNIT_SIZE, m).value;
            var c := AddNumerator(st.completeness, DecodeWrapperUnit(ub));
            && (Absorb(d, duration, st.windows, rest).Err? ==>
                  o == FwJoinOutcome(FwJoinState(st.windows, c), [], Some(Absorb(d, duration, st.windows, rest).fault)))
            && (Absorb(d, duration, st.windows, rest).Ok? ==>
                  var windows1 := Absorb(d, duration, st.windows, rest).value.1;
                  && c != map[] && windows1 != map[]
                  && var lo := Least(c.Keys);
                  && (forall w :: w in c ==> lo <= w)
                  && o == (if c[lo] == MessagesPerWindow(d, duration) then FwEmit(d, windows1, c, stale)
                           else FwJoinOutcome(FwJoinState(windows1, c), [], None))))
  {
  }

  /**
   * Emitting erases the lowest join window; the message, sent on channel
   * 0 only when one collector follows, carries the unit (lowest unit
   * window, 1, 1) over the base join's output of that join window, and
   * only a sent message clears its unit window's sum.
   */
  lemma FwEmitSpec(d: Deployment, windows: Windows, c: map<int32, int>, stale: nat -> Name)
    requires windows != map[] && c != map[]
    ensures var o := FwEmit(d, windows, c, stale);
      var wlo := Least(windows.Keys);
      var lo := Least(c.Keys);
      && (forall w :: w in windows ==> wlo <= w)
      && o.state.windows == windows - {wlo}
      && o.state.completeness == (if d.nextCount == 1 then c - {lo} else c)
      && (o.fault.Some? <==> d.nextCount != 1)
      && (o.out != [] <==> d.nextCount == 1)
      && (o.out != [] ==>
            && |o.out| == 1 && o.out[0].channel == 0
            && var base := BuildOutput(wlo, windows[wlo], stale, WRAPPER_UNIT_SIZE).value;
            && Unwrap(WRAPPER_UNIT_SIZE, o.out[0].msg) == Ok((EncodeWrapperUnit(WrapperUnit(lo, 1, 1)), base))
            && ParseStamped(DecodeJoinOutput, JOIN_OUTPUT_SIZE, base)
               == Ok((wlo, windows[wlo].timestamp_end, Aggregates(windows[wlo], stale))))
  {
    var wlo := Least(windows.Keys);
    var base := BuildOutput(wlo, windows[wlo], stale, WRAPPER_UNIT_SIZE).value;
    BuildOutputParses(wlo, windows[wlo], stale, WRAPPER_UNIT_SIZE);
    UnwrapAfterWrap(EncodeWrapperUnit(WrapperUnit(Least(c.Keys), 1, 1)), base);
  }
}

/**
 * The attribute selectors of the new-sellers use case: they project the
 * filtered auctions and persons onto the fields the join needs and tag
 * the message with its join input type.  The flow-wrapping person
 * selector carries its input's wrapper unit over to its output.
 */
module Selectors {
  import opened Bytes
  import opened Faults
  import opened Serialization
  import opened Codec
  import opened Payloads
  import opened Records
  import opened Topology

  // ---------------------------------------------------------------------
  // C strings

  /** Index of the first NUL byte, or the length when there is none. */
  function NulIndex(s: seq<uint8>): (n: nat)
    ensures n <= |s|
    ensures n < |s| ==> s[n] == 0
    ensures forall i :: 0 <= i < n ==> s[i] != 0
  {
    if s == [] then 0
    else if s[0] == 0 then 0
    else 1 + NulIndex(s[1..])
  }

  /** The characters of a C string held in `s`. */
  function CString(s: seq<uint8>): seq<uint8> {
    s[..NulIndex(s)]
  }

  /**
   * `strcpy(dst, src)` into a 35-byte buffer whose previous contents are
   * `stale`: the bytes up to and including the terminator are copied, the
   * rest of the buffer keeps its contents.  A name without a terminator
   * would make `strcpy` run past the buffer; here its 35 bytes are copied.
   */
  function StrCpy(src: Name, stale: Name): Name {
    var n := NulIndex(src);
    if n < NAME_SIZE then src[..n + 1] + stale[n + 1..] else src
  }

  /** The copy holds the same string as the source, whatever the buffer held. */
  lemma StrCpySameString(src: Name, stale: Name)
    ensures CString(StrCpy(src, stale)) == CString(src)
  {
    var n := NulIndex(src);
    var r := StrCpy(src, stale);
    if n < NAME_SIZE {
      assert r[..n] == src[..n];
      assert r[n] == 0;
      NulIndexAt(r, n);
    }
  }

  /** The first NUL byte is the one `NulIndex` finds. */
  lemma {:induction false} NulIndexAt(s: seq<uint8>, n: nat)
    requires n < |s| && s[n] == 0 && forall i :: 0 <= i < n ==> s[i] != 0
    ensures NulIndex(s) == n
  {
    if n > 0 {
      assert s[1..][n - 1] == s[n];
      NulIndexAt(s[1..], n - 1);
    }
  }

  // ---------------------------------------------------------------------
  // The join's input header

  /** A join input once its header is removed: message id, timestamp, type and the records. */
  datatype JoinInput = JoinInput(msgid: int32, timestamp: int32, kind: int32, payload: Message)

  /** The join's reading of an input: message id, timestamp, then the `JoinInputType`. */
  function ParseJoinHeader(m: Message): (r: Result<JoinInput>)
    ensures r.Err? <==> m.Size() < 3 * INT_SIZE
    ensures r.Err? ==> r.fault.Underflow?
  {
    var (msgid, m1) :- UnwrapInt(m);
    var (timestamp, m2) :- UnwrapInt(m1);
    var (kind, m3) :- UnwrapInt(m2);
    Ok(JoinInput(msgid, timestamp, kind, m3))
  }

  /** A selector's output: the records, the type, the timestamp and the message id. */
  function EmitSelection<T>(enc: T -> seq<uint8>, S: nat, xs: seq<T>, kind: int32, timestamp: int32, msgid: int32)
    : Result<Message>
  {
    EmitRecords(enc, xs, [IntField(kind), IntField(timestamp), IntField(msgid)], S * |xs| + 3 * INT_SIZE)
  }

  lemma FlattenThree(a: seq<uint8>, b: seq<uint8>, c: seq<uint8>)
    ensures Flatten([a, b, c]) == a + (b + c)
  {
    assert [a, b, c][1..] == [b, c];
    FlattenTwo(b, c);
  }

  /** The join reads back the header a selector wrote and exactly the records' images. */
  lemma ParseEmitSelection<T(!new)>(enc: T -> seq<uint8>, dec: seq<uint8> -> T, S: nat, xs: seq<T>,
                                    kind: int32, timestamp: int32, msgid: int32)
    requires IsCodec(enc, dec, S)
    ensures EmitSelection(enc, S, xs, kind, timestamp, msgid).Ok?
    ensures var out := EmitSelection(enc, S, xs, kind, timestamp, msgid).value;
      && out.Wf() && out.Size() == out.capacity
      && ParseJoinHeader(out) == Ok(JoinInput(msgid, timestamp, kind, Message(out.capacity, Concat(enc, xs))))
  {
    var fields := [IntField(kind), IntField(timestamp), IntField(msgid)];
    FlattenThree(IntField(kind), IntField(timestamp), IntField(msgid));
    ConcatLength(enc, dec, S, xs);
    EmitRecordsFits(enc, dec, S, xs, fields, S * |xs| + 3 * INT_SIZE);
    var out := EmitSelection(enc, S, xs, kind, timestamp, msgid).value;
    var body := Concat(enc, xs);
    assert out.bytes == ((body + IntField(kind)) + IntField(timestamp)) + IntField(msgid);
    JoinHeaderFields(out.capacity, body, kind, timestamp, msgid);
  }

  /** The three header fields on top of a payload read back as written. */
  lemma JoinHeaderFields(capacity: nat, body: seq<uint8>, kind: int32, timestamp: int32, msgid: int32)
    ensures var m := Message(capacity, ((body + IntField(kind)) + IntField(timestamp)) + IntField(msgid));
      ParseJoinHeader(m) == Ok(JoinInput(msgid, timestamp, kind, Message(capacity, body)))
  {
    UnwrapIntField(capacity, (body + IntField(kind)) + IntField(timestamp), msgid);
    UnwrapIntField(capacity, body + IntField(kind), timestamp);
    UnwrapIntField(capacity, body, kind);
  }

  /** The records the join decodes from a selector's output are the ones it sent. */
  lemma ParseEmitSelectionRecords<T(!new)>(enc: T -> seq<uint8>, dec: seq<uint8> -> T, S: nat, xs: seq<T>,
                                           kind: int32, timestamp: int32, msgid: int32)
    requires IsCodec(enc, dec, S)
    ensures EmitSelection(enc, S, xs, kind, timestamp, msgid).Ok?
    ensures var j := ParseJoinHeader(EmitSelection(enc, S, xs, kind, timestamp, msgid).value);
      && j.Ok? && j.value.msgid == msgid && j.value.timestamp == timestamp && j.value.kind == kind
      && DecodeArray(dec, S, j.value.payload.bytes) == xs
  {
    ParseEmitSelection(enc, dec, S, xs, kind, timestamp, msgid);
    DecodeConcat(enc, dec, S, xs);
  }

  // ---------------------------------------------------------------------
  // Auction selector

  /** `selectAttributes` on one auction: a null reserve price becomes 0. */
  function SelectAuction(a: Auction): AuctionSelection {
    AuctionSelection(a.seller_id, a.id, if a.reserve_price_is_null then 0 else a.reserve_price)
  }

  function SelectAuctions(auctions: seq<Auction>): (sel: seq<AuctionSelection>)
    ensures |sel| == |auctions|
  {
    seq(|auctions|, i requires 0 <= i < |auctions| => SelectAuction(auctions[i]))
  }

  /**
   * `processInputMessage`: unwrap the message id and timestamp, project
   * the `size / sizeof(Auction)` auctions, and send the selections tagged
   * `AuctionSelectionType` to the join on channel 0.
   */
  function AuctionSelectorStep(m: Message): Result<Outgoing> {
    var (msgid, timestamp, auctions) :- ParseStamped(DecodeAuction, AUCTION_SIZE, m);
    var out :- EmitSelection(EncodeAuctionSelection, AUCTION_SELECTION_SIZE, SelectAuctions(auctions),
                             AUCTION_SELECTION_TYPE, timestamp, msgid);
    Ok(Outgoing(0, out))
  }

  /**
   * The join receives, on channel 0, the input's message id and timestamp
   * and one selection per auction, in order: same seller, same id, and the
   * reserve price, or 0 where the auction has none.
   */
  lemma AuctionSelectorSpec(m: Message)
    ensures AuctionSelectorStep(m).Err? <==> m.Size() < 2 * INT_SIZE
    ensures AuctionSelectorStep(m).Ok? ==>
              var (msgid, timestamp, auctions) := ParseStamped(DecodeAuction, AUCTION_SIZE, m).value;
              var o := AuctionSelectorStep(m).value;
              && o.channel == 0
              && ParseJoinHeader(o.msg).Ok?
              && var j := ParseJoinHeader(o.msg).value;
              && j.msgid == msgid && j.timestamp == timestamp && j.kind == AUCTION_SELECTION_TYPE
              && var sel := DecodeArray(DecodeAuctionSelection, AUCTION_SELECTION_SIZE, j.payload.bytes);
              && |sel| == |auctions|
              && forall i :: 0 <= i < |sel| ==>
                   && sel[i].seller_id == auctions[i].seller_id
                   && sel[i].id == auctions[i].id
                   && sel[i].reserve_price == (if auctions[i].reserve_price_is_null then 0 else auctions[i].reserve_price)
  {
    if 2 * INT_SIZE <= m.Size() {
      var (msgid, timestamp, auctions) := ParseStamped(DecodeAuction, AUCTION_SIZE, m).value;
      var sel := SelectAuctions(auctions);
      AuctionSelectionCodec();
      ParseEmitSelectionRecords(EncodeAuctionSelection, DecodeAuctionSelection, AUCTION_SELECTION_SIZE, sel,
                                AUCTION_SELECTION_TYPE, timestamp, msgid);
    }
  }

  // ---------------------------------------------------------------------
  // Person selector

  /**
   * `selectAttributes` on one person: the id, and the name copied with
   * `strcpy` into a selection whose buffer held `stale`.
   */
  function SelectPerson(p: Person, stale: Name): PersonSelection {
    PersonSelection(p.id, StrCpy(p.name, stale))
  }

  function SelectPersons(persons: seq<Person>, stale: nat -> Name): (sel: seq<PersonSelection>)
    ensures |sel| == |persons|
  {
    seq(|persons|, i requires 0 <= i < |persons| => SelectPerson(persons[i], stale(i)))
  }

  /** Every selection keeps its person's id and name string. */
  lemma SelectPersonsSameStrings(persons: seq<Person>, stale: nat -> Name)
    ensures var sel := SelectPersons(persons, stale);
      forall i :: 0 <= i < |sel| ==> sel[i].id == persons[i].id && CString(sel[i].name) == CString(persons[i].name)
  {
    var sel := SelectPersons(persons, stale);
    forall i | 0 <= i < |sel| ensures sel[i].id == persons[i].id && CString(sel[i].name) == CString(persons[i].name) {
      StrCpySameString(persons[i].name, stale(i));
    }
  }

  /**
   * `processInputMessage`: unwrap the message id and timestamp, project
   * the `size / sizeof(Person)` persons, and send the selections tagged
   * `PersonSelectionType` to the join on channel 0.  `stale(i)` is what
   * the `i`-th selection's name buffer held before the copy.
   */
  function PersonSelectorStep(m: Message, stale: nat -> Name): Result<Outgoing> {
    var (msgid, timestamp, persons) :- ParseStamped(DecodePerson, PERSON_SIZE, m);
    var out :- EmitSelection(EncodePersonSelection, PERSON_SELECTION_SIZE, SelectPersons(persons, stale),
                             PERSON_SELECTION_TYPE, timestamp, msgid);
    Ok(Outgoing(0, out))
  }

  /**
   * The join receives, on channel 0, the input's message id and timestamp
   * and one selection per person, in order, with the same id and the same
   * name string.
   */
  lemma PersonSelectorSpec(m: Message, stale: nat -> Name)
    ensures PersonSelectorStep(m, stale).Err? <==> m.Size() < 2 * INT_SIZE
    ensures PersonSelectorStep(m, stale).Ok? ==>
              var (msgid, timestamp, persons) := ParseStamped(DecodePerson, PERSON_SIZE, m).value;
              var o := PersonSelectorStep(m, stale).value;
              && o.channel == 0
              && ParseJoinHeader(o.msg).Ok?
              && var j := ParseJoinHeader(o.msg).value;
              && j.msgid == msgid && j.timestamp == timestamp && j.kind == PERSON_SELECTION_TYPE
              && var sel := DecodeArray(DecodePersonSelection, PERSON_SELECTION_SIZE, j.payload.bytes);
              && |sel| == |persons|
              && forall i :: 0 <= i < |sel| ==>
                   sel[i].id == persons[i].id && CString(sel[i].name) == CString(persons[i].name)
  {
    if 2 * INT_SIZE <= m.Size() {
      var (msgid, timestamp, persons) := ParseStamped(DecodePerson, PERSON_SIZE, m).value;
      var sel := SelectPersons(persons, stale);
      PersonSelectionCodec();
      ParseEmitSelectionRecords(EncodePersonSelection, DecodePersonSelection, PERSON_SELECTION_SIZE, sel,
                                PERSON_SELECTION_TYPE, timestamp, msgid);
      SelectPersonsSameStrings(persons, stale);
    }
  }

  // ---------------------------------------------------------------------
  // Person selector, flow-wrapping variant

  /**
   * Unwrap the wrapper unit first, run the person selector on the rest in
   * a message twelve bytes larger, and wrap the same unit last before
   * sending.
   */
  function FwPersonSelectorStep(m: Message, stale: nat -> Name): Result<Outgoing> {
    var (unit, rest) :- Unwrap(WRAPPER_UNIT_SIZE, m);
    var (msgid, timestamp, persons) :- ParseStamped(DecodePerson, PERSON_SIZE, rest);
    var sel := SelectPersons(persons, stale);
    var out :- EmitRecords(EncodePersonSelection, sel,
                           [IntField(PERSON_SELECTION_TYPE), IntField(timestamp), IntField(msgid), unit],
                           PERSON_SELECTION_SIZE * |sel| + 3 * INT_SIZE + WRAPPER_UNIT_SIZE);
    Ok(Outgoing(0, out))
  }

  /**
   * The flow-wrapping selector adds nothing but the unit: unwrapping the
   * unit from its output gives back the input's unit and exactly what the
   * base selector sends for the rest of the input.
   */
  lemma FwPersonSelectorSpec(m: Message, stale: nat -> Name)
    ensures FwPersonSelectorStep(m, stale).Err? <==> m.Size() < WRAPPER_UNIT_SIZE + 2 * INT_SIZE
    ensures FwPersonSelectorStep(m, stale).Ok? ==>
              var (unit, rest) := Unwrap(WRAPPER_UNIT_SIZE, m).value;
              var o := FwPersonSelectorStep(m, stale).value;
              && PersonSelectorStep(rest, stale).Ok?
              && var base := PersonSelectorStep(rest, stale).value;
              && o.channel == base.channel
              && o.msg.capacity == base.msg.capacity + WRAPPER_UNIT_SIZE
              && Unwrap(WRAPPER_UNIT_SIZE, o.msg) == Ok((unit, base.msg.(capacity := o.msg.capacity)))
  {
    if WRAPPER_UNIT_SIZE + 2 * INT_SIZE <= m.Size() {
      var split := Unwrap(WRAPPER_UNIT_SIZE, m).value;
      var parsed := ParseStamped(DecodePerson, PERSON_SIZE, split.1).value;
      var sel := SelectPersons(parsed.2, stale);
      EmitSelectionUnit(sel, split.0, parsed.1, parsed.0);
      var fields := [IntField(PERSON_SELECTION_TYPE), IntField(parsed.1), IntField(parsed.0), split.0];
      var fw := EmitRecords(EncodePersonSelection, sel, fields,
                            PERSON_SELECTION_SIZE * |sel| + 3 * INT_SIZE + WRAPPER_UNIT_SIZE).value;
      var base := EmitSelection(EncodePersonSelection, PERSON_SELECTION_SIZE, sel,
                                PERSON_SELECTION_TYPE, parsed.1, parsed.0).value;
      assert FwPersonSelectorStep(m, stale) == Ok(Outgoing(0, fw));
      assert PersonSelectorStep(split.1, stale) == Ok(Outgoing(0, base));
    }
  }

  /**
   * Emitting the selections with a wrapper unit after the header gives the
   * base emission, twelve bytes larger, with the unit on top.
   */
  lemma EmitSelectionUnit(sel: seq<PersonSelection>, unit: seq<uint8>, timestamp: int32, msgid: int32)
    requires |unit| == WRAPPER_UNIT_SIZE
    ensures var base := EmitSelection(EncodePersonSelection, PERSON_SELECTION_SIZE, sel,
                                      PERSON_SELECTION_TYPE, timestamp, msgid);
      var fw := EmitRecords(EncodePersonSelection, sel,
                            [IntField(PERSON_SELECTION_TYPE), IntField(timestamp), IntField(msgid), unit],
                            PERSON_SELECTION_SIZE * |sel| + 3 * INT_SIZE + WRAPPER_UNIT_SIZE);
      && base.Ok? && fw.Ok?
      && fw.value.capacity == base.value.capacity + WRAPPER_UNIT_SIZE
      && Unwrap(WRAPPER_UNIT_SIZE, fw.value) == Ok((unit, base.value.(capacity := fw.value.capacity)))
  {
    var f3 := [IntField(PERSON_SELECTION_TYPE), IntField(timestamp), IntField(msgid)];
    PersonSelectionCodec();
    FlattenThree(f3[0], f3[1], f3[2]);
    assert f3 + [unit] == [IntField(PERSON_SELECTION_TYPE), IntField(timestamp), IntField(msgid), unit];
    FlattenSnoc(f3, unit);
    ConcatLength(EncodePersonSelection, DecodePersonSelection, PERSON_SELECTION_SIZE, sel);
    EmitRecordsFits(EncodePersonSelection, DecodePersonSelection, PERSON_SELECTION_SIZE, sel, f3 + [unit],
                     PERSON_SELECTION_SIZE * |sel| + 3 * INT_SIZE + WRAPPER_UNIT_SIZE);
    EmitRecordsFits(EncodePersonSelection, DecodePersonSelection, PERSON_SELECTION_SIZE, sel, f3,
                     PERSON_SELECTION_SIZE * |sel| + 3 * INT_SIZE);
    var body := Concat(EncodePersonSelection, sel);
    assert body + (Flatten(f3) + unit) == (body + Flatten(f3)) + unit;
  }
}

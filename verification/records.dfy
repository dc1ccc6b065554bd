/**
 * The plain-old-data records the NEXMark and SCB operators exchange, and
 * their byte images.
 *
 * The generator's records (`Bid`, `Person`, `Auction`, `Event`) are laid
 * out as packed C structs whose fields are the ones the operators use:
 * every `int` takes four bytes, a `size_t` eight, a `bool` one, and a name
 * `NAME_SIZE` bytes.  The `Event` union is laid out with a separate area
 * per variant; only the area its `event_type` selects is ever read.  The
 * join's selections and output follow their C declarations, including the
 * padding byte that rounds `sizeof` up to the `int` alignment.
 */
module Records {
  import opened Bytes
  import opened Codec

  /** `NAME_SIZE` of the join's selections: 17 + 1 + 16 + 1 characters. */
  const NAME_SIZE: nat := 35

  type Name = s: seq<uint8> | |s| == NAME_SIZE witness seq(35, _ => 0)

  function NameAt(bs: seq<uint8>, off: nat): Name {
    if off + NAME_SIZE <= |bs| then bs[off..off + NAME_SIZE] else seq(35, _ => 0)
  }

  // ---------------------------------------------------------------------
  // Bid

  datatype Bid = Bid(auction_id: int32, bidder: int32, price: int32, event_time: int32)

  const BID_SIZE: nat := 16

  function EncodeBid(b: Bid): (bs: seq<uint8>)
    ensures |bs| == BID_SIZE
  {
    IntField(b.auction_id) + IntField(b.bidder) + IntField(b.price) + IntField(b.event_time)
  }

  function DecodeBid(bs: seq<uint8>): Bid {
    Bid(IntAt(bs, 0), IntAt(bs, 4), IntAt(bs, 8), IntAt(bs, 12))
  }

  lemma BidCodec()
    ensures IsCodec(EncodeBid, DecodeBid, BID_SIZE)
  {
    forall b: Bid ensures DecodeBid(EncodeBid(b)) == b {
      var bs := EncodeBid(b);
      IntAtField(bs, 0, b.auction_id);
      IntAtField(bs, 4, b.bidder);
      IntAtField(bs, 8, b.price);
      IntAtField(bs, 12, b.event_time);
    }
  }

  // ---------------------------------------------------------------------
  // Person and Auction, as generated

  datatype Person = Person(id: int32, name: Name)

  const PERSON_SIZE: nat := 39

  function EncodePerson(p: Person): (bs: seq<uint8>)
    ensures |bs| == PERSON_SIZE
  {
    IntField(p.id) + p.name
  }

  function DecodePerson(bs: seq<uint8>): Person {
    Person(IntAt(bs, 0), NameAt(bs, 4))
  }

  lemma PersonCodec()
    ensures IsCodec(EncodePerson, DecodePerson, PERSON_SIZE)
  {
    forall p: Person ensures DecodePerson(EncodePerson(p)) == p {
      var bs := EncodePerson(p);
      IntAtField(bs, 0, p.id);
      assert bs[4..4 + NAME_SIZE] == p.name;
    }
  }

  datatype Auction = Auction(id: int32, seller_id: int32, reserve_price: int32, reserve_price_is_null: bool)

  const AUCTION_SIZE: nat := 13

  function EncodeAuction(a: Auction): (bs: seq<uint8>)
    ensures |bs| == AUCTION_SIZE
  {
    IntField(a.id) + IntField(a.seller_id) + IntField(a.reserve_price)
      + [if a.reserve_price_is_null then 1 else 0]
  }

  function DecodeAuction(bs: seq<uint8>): Auction {
    Auction(IntAt(bs, 0), IntAt(bs, 4), IntAt(bs, 8), 12 < |bs| && bs[12] != 0)
  }

  lemma AuctionCodec()
    ensures IsCodec(EncodeAuction, DecodeAuction, AUCTION_SIZE)
  {
    forall a: Auction ensures DecodeAuction(EncodeAuction(a)) == a {
      var bs := EncodeAuction(a);
      IntAtField(bs, 0, a.id);
      IntAtField(bs, 4, a.seller_id);
      IntAtField(bs, 8, a.reserve_price);
    }
  }

  // ---------------------------------------------------------------------
  // Event: the generator's tagged union

  /** The values of `EventType`. */
  const PERSON_TYPE: int32 := 0
  const AUCTION_TYPE: int32 := 1
  const BID_TYPE: int32 := 2

  datatype Event = Event(event_type: int32, person: Person, auction: Auction, bid: Bid)

  const EVENT_SIZE: nat := 4 + PERSON_SIZE + AUCTION_SIZE + BID_SIZE

  function EncodeEvent(e: Event): (bs: seq<uint8>)
    ensures |bs| == EVENT_SIZE
  {
    IntField(e.event_type) + EncodePerson(e.person) + EncodeAuction(e.auction) + EncodeBid(e.bid)
  }

  /** The `n` bytes at `off`; outside the buffer the value is irrelevant. */
  function Sub(bs: seq<uint8>, off: nat, n: nat): (r: seq<uint8>)
    ensures |r| == n
  {
    if off + n <= |bs| then bs[off..off + n] else seq(n, _ => 0)
  }

  function DecodeEvent(bs: seq<uint8>): Event {
    Event(IntAt(bs, 0),
          DecodePerson(Sub(bs, 4, PERSON_SIZE)),
          DecodeAuction(Sub(bs, 4 + PERSON_SIZE, AUCTION_SIZE)),
          DecodeBid(Sub(bs, 4 + PERSON_SIZE + AUCTION_SIZE, BID_SIZE)))
  }

  lemma EventCodec()
    ensures IsCodec(EncodeEvent, DecodeEvent, EVENT_SIZE)
  {
    PersonCodec();
    AuctionCodec();
    BidCodec();
    forall e: Event ensures DecodeEvent(EncodeEvent(e)) == e {
      var bs := EncodeEvent(e);
      IntAtField(bs, 0, e.event_type);
      assert Sub(bs, 4, PERSON_SIZE) == EncodePerson(e.person);
      assert Sub(bs, 4 + PERSON_SIZE, AUCTION_SIZE) == EncodeAuction(e.auction);
      assert Sub(bs, 4 + PERSON_SIZE + AUCTION_SIZE, BID_SIZE) == EncodeBid(e.bid);
    }
  }

  // ---------------------------------------------------------------------
  // The join's inputs and output

  datatype AuctionSelection = AuctionSelection(seller_id: int32, id: int32, reserve_price: int32)

  const AUCTION_SELECTION_SIZE: nat := 12

  function EncodeAuctionSelection(a: AuctionSelection): (bs: seq<uint8>)
    ensures |bs| == AUCTION_SELECTION_SIZE
  {
    IntField(a.seller_id) + IntField(a.id) + IntField(a.reserve_price)
  }

  function DecodeAuctionSelection(bs: seq<uint8>): AuctionSelection {
    AuctionSelection(IntAt(bs, 0), IntAt(bs, 4), IntAt(bs, 8))
  }

  lemma AuctionSelectionCodec()
    ensures IsCodec(EncodeAuctionSelection, DecodeAuctionSelection, AUCTION_SELECTION_SIZE)
  {
    forall a: AuctionSelection ensures DecodeAuctionSelection(EncodeAuctionSelection(a)) == a {
      var bs := EncodeAuctionSelection(a);
      IntAtField(bs, 0, a.seller_id);
      IntAtField(bs, 4, a.id);
      IntAtField(bs, 8, a.reserve_price);
    }
  }

  /**
   * The trailing padding byte of a struct that ends in a 35-byte name
   * after `int` fields.  C leaves its value indeterminate and nothing
   * reads it; the model writes zero.
   */
  const PADDING: seq<uint8> := [0]

  datatype PersonSelection = PersonSelection(id: int32, name: Name)

  /** `sizeof(PersonSelection)`: 4 + 35 bytes, padded to a multiple of the `int` alignment. */
  const PERSON_SELECTION_SIZE: nat := 40

  function EncodePersonSelection(p: PersonSelection): (bs: seq<uint8>)
    ensures |bs| == PERSON_SELECTION_SIZE
  {
    IntField(p.id) + p.name + PADDING
  }

  function DecodePersonSelection(bs: seq<uint8>): PersonSelection {
    PersonSelection(IntAt(bs, 0), NameAt(bs, 4))
  }

  lemma PersonSelectionCodec()
    ensures IsCodec(EncodePersonSelection, DecodePersonSelection, PERSON_SELECTION_SIZE)
  {
    forall p: PersonSelection ensures DecodePersonSelection(EncodePersonSelection(p)) == p {
      var bs := EncodePersonSelection(p);
      IntAtField(bs, 0, p.id);
      assert bs[4..4 + NAME_SIZE] == p.name;
    }
  }

  /** The values of `JoinInputType`. */
  const AUCTION_SELECTION_TYPE: int32 := 0
  const PERSON_SELECTION_TYPE: int32 := 1

  datatype JoinOutput = JoinOutput(seller_id: int32, reserve_price: int32, auction_id: int32, seller_name: Name)

  /** `sizeof(JoinOutput)`: 12 + 35 bytes, padded to a multiple of the `int` alignment. */
  const JOIN_OUTPUT_SIZE: nat := 48

  function EncodeJoinOutput(j: JoinOutput): (bs: seq<uint8>)
    ensures |bs| == JOIN_OUTPUT_SIZE
  {
    IntField(j.seller_id) + IntField(j.reserve_price) + IntField(j.auction_id) + j.seller_name + PADDING
  }

  function DecodeJoinOutput(bs: seq<uint8>): JoinOutput {
    JoinOutput(IntAt(bs, 0), IntAt(bs, 4), IntAt(bs, 8), NameAt(bs, 12))
  }

  lemma JoinOutputCodec()
    ensures IsCodec(EncodeJoinOutput, DecodeJoinOutput, JOIN_OUTPUT_SIZE)
  {
    forall j: JoinOutput ensures DecodeJoinOutput(EncodeJoinOutput(j)) == j {
      var bs := EncodeJoinOutput(j);
      IntAtField(bs, 0, j.seller_id);
      IntAtField(bs, 4, j.reserve_price);
      IntAtField(bs, 8, j.auction_id);
      assert bs[12..12 + NAME_SIZE] == j.seller_name;
    }
  }

  // ---------------------------------------------------------------------
  // Flow-wrapping completeness tag

  datatype WrapperUnit = WrapperUnit(window_start_time: int32,
                                     completeness_tag_numerator: int32,
                                     completeness_tag_denominator: int32)

  const WRAPPER_UNIT_SIZE: nat := 12

  function EncodeWrapperUnit(u: WrapperUnit): (bs: seq<uint8>)
    ensures |bs| == WRAPPER_UNIT_SIZE
  {
    IntField(u.window_start_time) + IntField(u.completeness_tag_numerator)
      + IntField(u.completeness_tag_denominator)
  }

  function DecodeWrapperUnit(bs: seq<uint8>): WrapperUnit {
    WrapperUnit(IntAt(bs, 0), IntAt(bs, 4), IntAt(bs, 8))
  }

  lemma WrapperUnitCodec()
    ensures IsCodec(EncodeWrapperUnit, DecodeWrapperUnit, WRAPPER_UNIT_SIZE)
  {
    forall u: WrapperUnit ensures DecodeWrapperUnit(EncodeWrapperUnit(u)) == u {
      var bs := EncodeWrapperUnit(u);
      IntAtField(bs, 0, u.window_start_time);
      IntAtField(bs, 4, u.completeness_tag_numerator);
      IntAtField(bs, 8, u.completeness_tag_denominator);
    }
  }

  // ---------------------------------------------------------------------
  // Per-window auction counts: an `int` auction id and a `size_t` count

  datatype AuctionCount = AuctionCount(auction_id: int32, count: uint64)

  const AUCTION_COUNT_SIZE: nat := 12

  function EncodeAuctionCount(c: AuctionCount): (bs: seq<uint8>)
    ensures |bs| == AUCTION_COUNT_SIZE
  {
    IntField(c.auction_id) + SizeField(c.count)
  }

  function DecodeAuctionCount(bs: seq<uint8>): AuctionCount {
    AuctionCount(IntAt(bs, 0), SizeAt(bs, 4))
  }

  lemma AuctionCountCodec()
    ensures IsCodec(EncodeAuctionCount, DecodeAuctionCount, AUCTION_COUNT_SIZE)
  {
    forall c: AuctionCount ensures DecodeAuctionCount(EncodeAuctionCount(c)) == c {
      var bs := EncodeAuctionCount(c);
      IntAtField(bs, 0, c.auction_id);
      SizeAtField(bs, 4, c.count);
    }
  }

  // ---------------------------------------------------------------------
  // SCB event: a pair of `int`s (window id, value)

  datatype ScbEvent = ScbEvent(window_id: int32, value: int32)

  const SCB_EVENT_SIZE: nat := 8

  function EncodeScbEvent(e: ScbEvent): (bs: seq<uint8>)
    ensures |bs| == SCB_EVENT_SIZE
  {
    IntField(e.window_id) + IntField(e.value)
  }

  function DecodeScbEvent(bs: seq<uint8>): ScbEvent {
    ScbEvent(IntAt(bs, 0), IntAt(bs, 4))
  }

  lemma ScbEventCodec()
    ensures IsCodec(EncodeScbEvent, DecodeScbEvent, SCB_EVENT_SIZE)
  {
    forall e: ScbEvent ensures DecodeScbEvent(EncodeScbEvent(e)) == e {
      var bs := EncodeScbEvent(e);
      IntAtField(bs, 0, e.window_id);
      IntAtField(bs, 4, e.value);
    }
  }
}

# AIR NEXMark operators — a Dafny model

AIR is a distributed stream-processing engine. Every operator instance runs on one MPI rank and exchanges byte buffers (`Message`) with the instances before and after it. This project models the operators of three benchmarks that AIR runs, each under its completeness protocols:

* **NEXMark Q5, hot items.**
  - A bid filter, an event sharder that replicates bids into sliding windows, a per-rank aggregator that counts bids per auction, and a collector that keeps the auctions with the most bids.
  - Three completeness protocols:
    - *count*: a window closes after a fixed number of messages;
    - *sort* (`_ws`): messages are processed in message-id order;
    - *flow wrapping* (`_fw`): every message carries a wrapper unit whose numerators add up to a window's denominator.
* **NEXMark Q8, new sellers.**
  - A persons filter and two attribute selectors feed a tumbling-window join on `seller_id == person.id`, and a collector reads the join.
  - The join comes in count, sort and flow-wrapping variants.
  - The per-second watermark managers of persons and auctions are modelled too.
* **SCB, the synthetic count benchmark.**
  - A generator makes 100-event messages.
  - It delays a random share of them for a random number of seconds.
  - Under flow wrapping it deals each second's output into `PER_SEC_MSG_COUNT` buckets and concatenates each bucket.

The model works at the byte level:

* **Messages.** A `Message` is a capacity and a sequence of valid bytes. `Serialization::wrap` pushes a value's image onto the tail, `unwrap` pops it, and `read_back`/`read_front` read at an offset. Each of them fails with a `Fault` where the C++ code would throw or overrun.
* **Integers.** Scalars are little-endian two's complement: `int` is 4 bytes, `size_t` is 8 bytes, `char` is 1 byte.
* **Arithmetic.** C++ integer division truncates toward zero (`TruncDiv`). Conversions to `int` reduce modulo 2^32 (`ToInt32`). Bid counts are `size_t` and wrap modulo 2^64.
* **Records.** The layouts of `Bid`, `Person`, `Auction` and the `Event` union are packed structs holding the fields the operators use. `nexmark_gen/PODTypes.hpp` is not part of this model, so these layouts are a modelling choice. The selections, `JoinOutput` and the 35-byte name follow their declarations in `src/nexmark_new_sellers/PODTypesExtension.hpp`, which are not packed: `PersonSelection` takes 40 bytes and `JoinOutput` 48, the last byte of each being `int` alignment padding.
* **Time and randomness.** Clocks, random draws and the message slots the C++ code leaves uninitialised are parameters.

Every operator step is a pure function of its state and its input message. Its result holds the new state, the messages sent (`Outgoing(channel, msg)`) and, where the source throws, the fault.

## Model

| member | source | states |
|---|---|---|
| Serialization.NewMessage | src/serialization/Serialization.hpp:190-206 | a new buffer is empty, well formed and has the requested capacity |
| Serialization.Wrap | src/serialization/Serialization.hpp:190-206 | `wrap` fails exactly when the image does not fit the remaining capacity; otherwise the image is appended at the tail and the capacity is kept |
| Serialization.Unwrap | src/serialization/Serialization.hpp:171-188 | `unwrap` fails exactly when fewer bytes are held than asked for; otherwise it returns the last `n` bytes and the message shortened by them |
| Serialization.ReadBack | src/serialization/Serialization.hpp:218-226 | `read_back` returns the `n` bytes ending `offset` bytes before the tail, and fails exactly when they are not all inside the message |
| Serialization.ReadFront | src/serialization/Serialization.hpp:228-237 | `read_front` returns the `n` bytes starting `offset` bytes into the buffer, and fails exactly when they run past the size |
| Serialization.UnwrapAfterWrap | src/serialization/Serialization.hpp:171-206 | `unwrap` undoes `wrap`: it returns the wrapped image and restores the message |
| Serialization.UnwrapIntAfterWrapInt | src/serialization/Serialization.hpp:171-206 | an `int` wrapped and then unwrapped is the same `int` (reduced to 32 bits), and the message is restored |
| Serialization.WrapAllSpec | src/serialization/Serialization.hpp:190-206 | a sequence of wraps succeeds exactly when all the images fit, and appends them in order |
| Serialization.UnwrapAllFlatten | src/serialization/Serialization.hpp:171-188 | `k` unwraps off a stack of `k` images return them in reverse order and expose what lay below |
| Serialization.WrapThenUnwrapAll | src/serialization/Serialization.hpp:171-206 | LIFO round trip: wrapping v1..vk and then unwrapping k times yields vk..v1 and gives back the original message |
| Bytes.DecodeEncodeNat | src/serialization/Serialization.hpp:190-206 | the little-endian image of a number below 256^w decodes back to that number |
| Bytes.EncodeDecodeNat | src/serialization/Serialization.hpp:171-188 | decoding and re-encoding a byte string gives it back |
| Bytes.Int32RoundTrip | src/serialization/Serialization.hpp:190-206 | the 4-byte image of an `int` decodes to the value reduced modulo 2^32 into the signed range |
| Bytes.SizeRoundTrip | src/nexmark_hot_items/GroupbyAuction.cpp:131-134 | the 8-byte image of a `size_t` count decodes to the count modulo 2^64 |
| Bytes.TruncDivMod | src/nexmark_hot_items/EventSharder.cpp:108-109 | C++ division and remainder satisfy `a == (a / b) * b + a % b`, and the remainder takes the sign of `a` |
| Codec.DecodeConcat | src/nexmark_hot_items/EventCollector.cpp:129-143 | reading a run of wrapped records back with `read_front` at offsets `sizeof(T) * i` yields exactly the records written, in order |
| Codec.DecodePrefix | src/nexmark_hot_items/GroupbyAuction.cpp:84-93 | the first records of a run are recovered even when header fields follow it |
| Codec.WrapArraySpec | src/nexmark_hot_items/BidFilter.cpp:99-105 | wrapping each record of a run succeeds exactly when the run fits, and appends exactly its image |
| Codec.ReadArray | src/nexmark_hot_items/BidFilter.cpp:107-126 | the `read_front` loop is non-destructive, every read is in bounds, and it returns the decoded first `n` slots of the message |
| Codec.ReadAll | src/nexmark_hot_items/EventCollector.cpp:129-143 | reading every whole slot returns one record per `size / sizeof(T)` slot; trailing bytes are ignored |
| Payloads.EmitRecordsFits | src/nexmark_hot_items/BidFilter.cpp:68-78 | a message sized for its records and header fields holds exactly the records' image followed by the fields |
| Payloads.ParseTaggedEmit | src/nexmark_hot_items/BidFilter.cpp:68-78 | the records and the message id an operator wraps are what the next operator reads back |
| Payloads.ParseStampedEmit | src/nexmark_new_sellers/PersonsFilter.cpp:68-80 | records under a timestamp and a message id read back as written |
| Records.AuctionSelectionCodec | src/nexmark_new_sellers/PODTypesExtension.hpp:56-61 | the 12-byte image of an `AuctionSelection` decodes back to it |
| Records.PersonSelectionCodec | src/nexmark_new_sellers/PODTypesExtension.hpp:44-48 | the 40-byte image of a `PersonSelection` (id, 35-byte name, one padding byte) decodes back to it |
| Records.JoinOutputCodec | src/nexmark_new_sellers/PODTypesExtension.hpp:75-81 | the 48-byte image of a `JoinOutput` (three `int`s, 35-byte name, one padding byte) decodes back to it |
| Records.WrapperUnitCodec | src/nexmark_hot_items_fw/EventSharder.cpp:153-157 | the 12-byte image of a wrapper unit (window, numerator, denominator) decodes back to it |
| Records.AuctionCountCodec | src/nexmark_hot_items/EventCollector.cpp:131-139 | an (auction id, `size_t` count) pair decodes back from its 12-byte image |
| Records.ScbEventCodec | src/scb/EventGenerator.cpp:92-94 | an SCB event (window id, value) decodes back from its 8-byte image |
| OrderedMaps.Least | src/nexmark_new_sellers/TumblingWindowJoin.cpp:157-172 | `begin()` of a non-empty `std::map`: a key of the map no greater than any other |
| OrderedMaps.SortedKeys | src/nexmark_hot_items/EventSharder.cpp:123-133 | a `std::map` iterates its keys in strictly ascending order, each key exactly once |
| Filters.SelectBidsSpec | src/nexmark_hot_items/BidFilter.cpp:107-126 | the forwarded bids are read off, one each and in ascending order, at exactly the positions of the `BidType` events; hence a bid is forwarded iff some event of that type carries it |
| Filters.SelectPersonsSpec | src/nexmark_new_sellers/PersonsFilter.cpp:112-132 | the forwarded persons are read off, one each and in ascending order, at exactly the positions of the `PersonType` events; hence a person is forwarded iff some event of that type carries it |
| Filters.ForwardBidsSpec | src/nexmark_hot_items/BidFilter.cpp:99-105 | forwarding never overflows its `sizeof(Bid) * n + sizeof(int)` message, goes to every next operator on this rank, and the sharder reads back the bids and the message id |
| Filters.BidFilterSpec | src/nexmark_hot_items/BidFilter.cpp:68-78 | the filter fails only on a message without a message id, sends one copy per next operator on channel `operatorIndex * worldSize + rank`, and the bids and message id read from it are the input's bid events and message id |
| Filters.SameRankSent | src/nexmark_hot_items/BidFilter.cpp:128-136 | `send` produces one output per next operator, each on that operator's channel for this rank and carrying the message |
| Filters.SharderReadsBids | src/nexmark_hot_items_ws/BidFilter.cpp:105-134 | the message the filter builds parses, in the sharder's layout, to the message id on top of the bids |
| Filters.FwForwardBidsSpec | src/nexmark_hot_items_fw/BidFilter.cpp:42-55 | the flow-wrapping filter's message never overflows and keeps the wrapper unit and the message id on top of the bids |
| Filters.FwBidFilterSpec | src/nexmark_hot_items_fw/BidFilter.cpp:46-55 | the flow-wrapping filter forwards the bid events with the input's own unit and message id; it fails only when the message holds neither |
| Filters.FwSharderReadsBids | src/nexmark_hot_items_fw/EventSharder.cpp:86-91 | the flow-wrapping sharder reads the filter's message id, unit and bids back as written |
| Filters.ReadUnitTaggedBids | src/nexmark_hot_items_fw/BidFilter.cpp:51-55 | a run of bids under a unit and a message id reads back as written, whatever the spare capacity |
| Filters.ForwardPersonsSpec | src/nexmark_new_sellers/PersonsFilter.cpp:100-110 | forwarding never overflows its `sizeof(Person) * n + 2 * sizeof(int)` message and keeps the timestamp and message id on top of the persons |
| Filters.PersonsFilterSpec | src/nexmark_new_sellers/PersonsFilter.cpp:68-80 | the persons filter fails only below two header `int`s, forwards the person events with the input's timestamp and message id, and sends to every next operator on this rank |
| Selectors.NulIndex | src/nexmark_new_sellers/PersonAttributesSelector.cpp:126 | the index of the first NUL byte of a name, or its length when it has none |
| Selectors.StrCpySameString | src/nexmark_new_sellers/PersonAttributesSelector.cpp:126 | `strcpy` into a buffer with stale contents yields the same C string as the source |
| Selectors.ParseEmitSelection | src/nexmark_new_sellers/AuctionAttributesSelector.cpp:106-116 | the join reads back the message id, timestamp and join input type a selector wrote, and exactly the records' image |
| Selectors.ParseEmitSelectionRecords | src/nexmark_new_sellers/TumblingWindowJoin.cpp:174-196 | the records the join decodes from a selector's output are the ones the selector sent |
| Selectors.AuctionSelectorSpec | src/nexmark_new_sellers/AuctionAttributesSelector.cpp:72-86 | the selector fails only below two header `int`s; the join receives on channel 0 the input's id and timestamp, the type `AuctionSelectionType` and one selection per auction of the input |
| Selectors.SelectPersonsSameStrings | src/nexmark_new_sellers/PersonAttributesSelector.cpp:115-135 | every person selection keeps its person's id and name string, in order |
| Selectors.PersonSelectorSpec | src/nexmark_new_sellers/PersonAttributesSelector.cpp:69-83 | the join receives on channel 0 the input's id and timestamp, the type `PersonSelectionType` and one selection per person with the same id and name string |
| Selectors.FwPersonSelectorSpec | src/nexmark_new_sellers_fw/PersonAttributesSelector.cpp:49-68 | the flow-wrapping selector adds only the unit: unwrapping it from the output gives back the input's unit and exactly what the base selector sends for the rest |
| Selectors.EmitSelectionUnit | src/nexmark_new_sellers_fw/PersonAttributesSelector.cpp:59-68 | the selection message with a unit wrapped last is the base message, 12 bytes larger, with the unit on top |
| Sharding.WindowRange | src/nexmark_hot_items/EventSharder.cpp:108-109 | the window ids of a non-negative event time form a non-empty range from window 0 on, at most `duration / shift` long |
| Sharding.WindowMembership | src/nexmark_hot_items/EventSharder.cpp:108-109 | window `w` is assigned the bid exactly when the event time lies in `[w * shift, (w + duration / shift) * shift)` |
| Sharding.NegativeTimes | src/nexmark_hot_items/EventSharder.cpp:108-117 | a negative event time above `-window_shift` truncates to window 0 alone; at or below it `max_wid` is negative while `min_wid` is 0, so the `size_t` loop never ends |
| Sharding.CoveredWindowIsInt | src/nexmark_hot_items_ws/EventSharder.cpp:113-121 | every window id that holds an event time is a non-negative `int` |
| Sharding.ShardOfNonEmpty | src/nexmark_hot_items/EventSharder.cpp:114-117 | a window's shard is non-empty iff some bid of the message falls in the window |
| Sharding.ShardOfMembers | src/nexmark_hot_items/EventSharder.cpp:114-117 | every bid of a shard is a bid of the message that belongs to the window |
| Sharding.ShardsOfSpec | src/nexmark_hot_items/EventSharder.cpp:99-119 | the shards built from a message are exactly its non-empty per-window shards, each holding its window's bids in input order |
| Sharding.RunMinSpec | src/nexmark_hot_items/EventSharder.cpp:111-112 | the running minimum is the least of its start and the bids' first window ids |
| Sharding.RunMaxSpec | src/nexmark_hot_items/EventSharder.cpp:111-112 | the running maximum is the greatest of its start and the bids' last window ids |
| Sharding.AddToWindows | src/nexmark_hot_items/EventSharder.cpp:114-117 | the inner loop appends the bid to the shard of every window id of the range and leaves every other shard alone |
| Sharding.ShardEvents | src/nexmark_hot_items/EventSharder.cpp:99-119 | `shardEvents` builds exactly the non-empty per-window shards of the message's bids and the running min/max window ids over them |
| Sharding.ShardMessage | src/nexmark_hot_items/EventSharder.cpp:142-156 | a shard message is full: `send` sizes it exactly for the bids and the four header `int`s |
| Sharding.WrapShardExact | src/nexmark_hot_items_ws/EventSharder.cpp:147-158 | the wraps of `send` never overflow and produce exactly that layout |
| Sharding.ParseShardMessage | src/nexmark_hot_items/EventSharder.cpp:142-156 | the aggregator reads back the message id, window id, min/max window ids and the bids of a shard message |
| Sharding.TargetRankIsRank | src/nexmark_hot_items/EventSharder.cpp:129 | `wid % worldSize` of a window id is a rank of the deployment |
| Sharding.SendShards | src/nexmark_hot_items/EventSharder.cpp:123-139 | one message per shard, in ascending window order, sent to the window's rank |
| Sharding.ShardsSentHolds | src/nexmark_hot_items/EventSharder.cpp:123-139 | each sent message is a well-formed shard of its window, on channel `wid % worldSize`, carrying the bids of that window, the message id and the message's min/max window ids |
| Sharding.ShardsCoverHolds | src/nexmark_hot_items/EventSharder.cpp:123-133 | the sent shards' windows strictly ascend and every window holding a bid has a shard |
| Sharding.ProcessInputMessage | src/nexmark_hot_items/EventSharder.cpp:76-82 | the sharder fails only on a message without a message id; otherwise it sends exactly the shards above and resets the running min/max |
| Sharding.FwShardMessageBytes | src/nexmark_hot_items_fw/EventSharder.cpp:165-172 | the flow-wrapping shard message fills its buffer exactly: the bids, then the unit |
| Sharding.ParseFwShardMessage | src/nexmark_hot_items_fw/EventSharder.cpp:149-172 | the flow-wrapping aggregator reads the unit and the bids back as written |
| Sharding.FwBatch | src/nexmark_hot_items_fw/EventSharder.cpp:141-144 | one copy of a window's shard per next operator, the `i`-th on channel `i * worldSize + wid % worldSize` |
| Sharding.FwBatchParses | src/nexmark_hot_items_fw/EventSharder.cpp:149-163 | every copy carries the window's bids and the unit (wid, 1, `window_duration * PER_SEC_MSG_COUNT * worldSize`) |
| Sharding.FwSendShards | src/nexmark_hot_items_fw/EventSharder.cpp:126-146 | one batch per shard, in ascending window order |
| Sharding.FwShardsSentHolds | src/nexmark_hot_items_fw/EventSharder.cpp:126-146 | every batch holds one well-formed copy of one window's shard per next operator |
| Sharding.FwCoverHolds | src/nexmark_hot_items_fw/EventSharder.cpp:126-146 | with at least one next operator, the batches' windows strictly ascend and every window holding a bid has its batch |
| Sharding.FwProcessInputMessage | src/nexmark_hot_items_fw/EventSharder.cpp:80-97 | the flow-wrapping sharder fails only below the message id and unit; otherwise it sends exactly those batches |
| Groupby.TallySpec | src/nexmark_hot_items/GroupbyAuction.cpp:87-93 | counting adds to every auction exactly its number of bids, and an auction has an entry iff it had one or received a bid |
| Groupby.ReportReports | src/nexmark_hot_items/GroupbyAuction.cpp:126-134 | the report has one pair per auction of the window, in strictly ascending auction id, each with its count modulo 2^64 |
| Groupby.WrapReportExact | src/nexmark_hot_items/GroupbyAuction.cpp:126-137 | the report always fits its `sizeof(int) + n * (sizeof(int) + sizeof(size_t))` buffer, and fills it with the pairs and then the tail |
| Groupby.ParseCountsMessage | src/nexmark_hot_items/GroupbyAuction.cpp:126-140 | the collector reads back the window id and exactly the window's pairs |
| Groupby.CountStep | src/nexmark_hot_items/GroupbyAuction.cpp:80-109 | the step fails exactly on a message shorter than the four-`int` shard header; otherwise its bids are counted and its window's completeness grows by one, and the window is reported to channel 0 and forgotten exactly when it reaches `PER_SEC_MSG_COUNT * window_duration * worldSize` |
| Groupby.CountStepKeepsInv | src/nexmark_hot_items/GroupbyAuction.cpp:96-108 | between messages every open window has received at least one message and fewer than all |
| Groupby.CountRunCons | src/nexmark_hot_items/GroupbyAuction.cpp:80-109 | processing a list of messages is processing its head, then the rest, with the reports concatenated |
| Groupby.CountFill | src/nexmark_hot_items/GroupbyAuction.cpp:96-108 | starting with nothing counted for a window, its first `n` shards produce no report before the last one, and the `n`-th produces one exactly when `n` is the total, after which the window is forgotten |
| Groupby.LatestTimeSpec | src/nexmark_hot_items_fw/GroupbyAuction.cpp:115-124 | a window's end time becomes the greatest of its previous value and the bids' event times |
| Groupby.FwUpdate | src/nexmark_hot_items_fw/GroupbyAuction.cpp:115-124 | `update` counts every bid for its auction in the window, raises the end time, and touches no other window |
| Groupby.ParseFwCountsMessage | src/nexmark_hot_items_fw/GroupbyAuction.cpp:127-145 | a consumer reads back the unit naming the window and exactly the window's pairs |
| Groupby.FwGroupStep | src/nexmark_hot_items_fw/GroupbyAuction.cpp:86-103 | the step fails exactly on a message shorter than a unit; otherwise the unit's numerator is added to its window's tag; the window is reported and forgotten exactly when the tag equals the unit's denominator, and otherwise nothing is sent |
| GroupbyWs.FirstOwnedWidOwned | src/nexmark_hot_items_ws/GroupbyAuction.cpp:254-280 | the first expected window id of a message is one this rank owns, within one round of `min_wid` |
| GroupbyWs.FirstOwnedWidLeast | src/nexmark_hot_items_ws/GroupbyAuction.cpp:265-270 | it is the smallest window id not below `min_wid` that the sharder routes to this rank |
| GroupbyWs.NextWidOwned | src/nexmark_hot_items_ws/GroupbyAuction.cpp:125 | stepping the expected window id by `worldSize` keeps it with its owner |
| GroupbyWs.UpdateSameSharder | src/nexmark_hot_items_ws/GroupbyAuction.cpp:118-206 | `updateExpectedValues` only ever moves the expected message id forward by `worldSize`, so the thread follows one sharder |
| GroupbyWs.UpdateOwns | src/nexmark_hot_items_ws/GroupbyAuction.cpp:129-181 | after an update the expected window id is still one this rank owns |
| GroupbyWs.InitWidOwns | src/nexmark_hot_items_ws/GroupbyAuction.cpp:254-280 | `initExpectedWID` sets a window id this rank owns |
| GroupbyWs.PrepareOwns | src/nexmark_hot_items_ws/GroupbyAuction.cpp:238-280 | after the first batch the thread follows the sharder whose message it saw first and expects a window it owns |
| GroupbyWs.ConsumeSpec | src/nexmark_hot_items_ws/GroupbyAuction.cpp:88-111 | the inner loop aggregates a prefix of the sorted buffer through the count aggregator, stops at the first message it does not expect, and never leaves its sharder |
| GroupbyWs.ConsumeOwned | src/nexmark_hot_items_ws/GroupbyAuction.cpp:88-111 | every message the inner loop aggregates carries a window id this rank owns |
| GroupbyWs.StreamPassSpec | src/nexmark_hot_items_ws/GroupbyAuction.cpp:54-116 | a pass aggregates, in (message id, window id) order, part of the buffered messages and keeps the rest, losing and duplicating none; its reports are the count aggregator's on that part |
| GroupbyWs.StreamPassOwned | src/nexmark_hot_items_ws/GroupbyAuction.cpp:73-111 | every shard a pass aggregates belongs to a window this rank owns, and the thread keeps to the sharder it saw first |
| Sorting.SortBySpec | src/nexmark_hot_items_ws/GroupbyAuction.cpp:209-236 | sorting yields a permutation of the list in non-decreasing (message id, window id) order |
| Sorting.SortMessages | src/nexmark_new_sellers_ws/TumblingWindowJoin.cpp:86-96 | the list sort fails iff some message of two or more is too short for the comparator's `read_back`; otherwise it returns the sorted permutation |
| HotItemsCollector.MaxCountSpec | src/nexmark_hot_items/EventCollector.cpp:114-120 | the largest count is at least every count of the pairs and is one of them when there are pairs |
| HotItemsCollector.AtLeastCount | src/nexmark_hot_items/EventCollector.cpp:114-120 | `remove_if` keeps every copy of a pair whose count reaches the threshold and drops every other |
| HotItemsCollector.SortedHeadIsMax | src/nexmark_hot_items/EventCollector.cpp:122-127 | after sorting by decreasing count, the first pair carries the largest count |
| HotItemsCollector.HotItemsSpec | src/nexmark_hot_items/EventCollector.cpp:89-97 | the collector reads the window id and keeps exactly the pairs of the report that have the largest count, each as often as it occurs |
| HotItemsCollector.KeptIff | src/nexmark_hot_items_ws/EventCollector.cpp:97-101 | a pair is kept iff it is in the report and has the largest count |
| HotItemsCollector.ReportMax | src/nexmark_hot_items/GroupbyAuction.cpp:131-134 | on a window's report, the largest count is the window's largest count modulo 2^64 |
| HotItemsCollector.CollectCountsMessage | src/nexmark_hot_items/EventCollector.cpp:129-143 | end to end: on a window's report the collector returns the window id and the window's auctions with the largest count, each once, and no other |
| Join.IdsPerWindow | src/nexmark_new_sellers/TumblingWindowJoin.cpp:107 | the message ids per window and dataflow instance are positive |
| Join.JoinWindowId | src/nexmark_new_sellers/TumblingWindowJoin.cpp:107 | with truncating division, a non-negative message id falls in the window whose id range holds it |
| Join.TailRecordsConcat | src/nexmark_new_sellers/TumblingWindowJoin.cpp:174-196 | unwrapping a run of records from its tail yields them in reverse order |
| Join.RecordsOfPayload | src/nexmark_new_sellers/TumblingWindowJoin.cpp:178-183 | the join stores a selector payload's records last one first |
| Join.FirstWithId | src/nexmark_new_sellers/TumblingWindowJoin.cpp:204-209 | the first person with an id, if any: it is in the list and has the id; none means no person has it |
| Join.EmplaceAt | src/nexmark_new_sellers/TumblingWindowJoin.cpp:204-209 | after `emplace`, an id maps to the person stored before if there was one, otherwise to the first person of the message with that id |
| Join.Absorb | src/nexmark_new_sellers/TumblingWindowJoin.cpp:97-132 | a processed message adds its own window to the window set and no other |
| Join.AbsorbSpec | src/nexmark_new_sellers/TumblingWindowJoin.cpp:97-132 | a message is rejected iff its header is unreadable or its type is neither auction nor person; otherwise only its window changes: one more message, end time raised to the timestamp, records added |
| Join.AbsorbAuctionSelections | src/nexmark_new_sellers/TumblingWindowJoin.cpp:174-202 | end to end with the auction selector: the message id's window gains the selections, last one first |
| Join.AbsorbPersonSelections | src/nexmark_new_sellers/TumblingWindowJoin.cpp:186-209 | end to end with the person selector: the window gains the persons not already stored, each id keeping its first person in reading order |
| Join.MatchesCount | src/nexmark_new_sellers/TumblingWindowJoin.cpp:144-155 | every auction whose seller is present is joined as often as it was buffered, and no other |
| Join.AggregatesSpec | src/nexmark_new_sellers/TumblingWindowJoin.cpp:144-155 | one output per matching auction, in buffer order, with the auction's seller, reserve price and id and its seller's name string |
| Join.BuildOutput | src/nexmark_new_sellers/TumblingWindowJoin.cpp:211-240 | `buildOutputMessage` always fits: the outputs' image, then the end time and the window id, with exactly the requested spare room |
| Join.BuildOutputParses | src/nexmark_new_sellers/TumblingWindowJoin.cpp:211-236 | the output reads back as the window id, its end time and its join outputs |
| Join.EmitIfCompleteSpec | src/nexmark_new_sellers/TumblingWindowJoin.cpp:157-172 | only the lowest window is emitted, exactly when complete, and it is erased whether or not `send` then throws |
| Join.JoinStepSpec | src/nexmark_new_sellers/TumblingWindowJoin.cpp:97-142 | a rejected message leaves the windows alone; otherwise the lowest window is emitted exactly when it has `2 * window_duration * PER_SEC_MSG_COUNT * worldSize` messages, is erased, and only with one collector is its result sent on channel 0 |
| Join.WsInitialExpected | src/nexmark_new_sellers_ws/TumblingWindowJoin.cpp:52 | each thread starts expecting the message id `channel % worldSize`, a residue in `[0, worldSize)` |
| Join.BaseStepReachesLock | src/nexmark_new_sellers/TumblingWindowJoin.cpp:97-142 | the base join takes `mtx` exactly when the message's header and type are readable, and returns with `mtx` still locked exactly when it took it and `send` then threw |
| Join.WsConsumeSpec | src/nexmark_new_sellers_ws/TumblingWindowJoin.cpp:62-79 | the loop consumes a prefix whose ids are the expected id and its successors `worldSize` apart and runs the join on exactly those messages; only `const char*` exceptions are caught, so a fault that escapes ends the pass instead; `mtx` stays locked once a `send` has failed; the loop stops at the first other id, or blocked at an expected message that needs the lock |
| Join.WsShortHeaderEnds | src/serialization/Serialization.hpp:171-188 | an expected message too short for the join's header makes `unwrap` throw a `std::string`, which the loop does not catch: the pass ends with `Underflow` |
| Join.WsSendFailureBlocks | src/nexmark_new_sellers/TumblingWindowJoin.cpp:130-140 | after a `send` that threw with `mtx` locked, the next expected message the join would absorb blocks the thread: it is not consumed and the thread stays blocked |
| Join.WsJoinPassSpec | src/nexmark_new_sellers_ws/TumblingWindowJoin.cpp:46-84 | on rank 0 a running thread's pass loses and invents no message, keeps the buffer in message-id order, moves the expected id by `worldSize` per message it joined, lets no exception escape, keeps `mtx` locked after a failed `send`, and stops at an unexpected id or blocked; on other ranks, or once blocked, it does nothing |
| Join.AddNumerator | src/nexmark_new_sellers_fw/TumblingWindowJoin.cpp:54-55 | the unit's window gains the unit's numerator, created at 0; every other window's sum is unchanged |
| Join.FwJoinStepSpec | src/nexmark_new_sellers_fw/TumblingWindowJoin.cpp:49-58 | the numerator is counted even when the base processing then rejects the message; the lowest join window is emitted exactly when the lowest unit window's sum reaches `2 * window_duration * worldSize * PER_SEC_MSG_COUNT` |
| Join.FwEmitSpec | src/nexmark_new_sellers_fw/TumblingWindowJoin.cpp:60-93 | emitting erases the lowest join window; the message, sent on channel 0 only with one collector, carries the unit (lowest unit window, 1, 1) over the base output, and only a sent message clears that unit window's sum |
| PersonsManagement.NewPersonsManager | src/nexmark_new_sellers/PersonsManager.cpp:45-50 | a new manager has no second complete (watermark -1) and no window |
| PersonsManagement.AdvanceSpec | src/nexmark_new_sellers/PersonsManager.cpp:62-74 | the watermark never moves back; it moves only when it was one second behind, then over exactly the run of full seconds from there |
| PersonsManagement.UpdateCompletenessSpec | src/nexmark_new_sellers/PersonsManager.cpp:56-75 | the message's second counts one more message and no other second changes; the watermark advances only if it stood just before that second, up to the end of the run of full seconds |
| PersonsManagement.UpToDateStays | src/nexmark_new_sellers/PersonsManager.cpp:77-91 | once up to date with a message id the manager stays so; it becomes so only for ids of full seconds |
| PersonsManagement.GetSeller | src/nexmark_new_sellers/PersonsManager.cpp:93-104 | `getSeller` throws iff `hasSeller` is false, and otherwise returns the stored person |
| PersonsManagement.StoreThenGet | src/nexmark_new_sellers/PersonsManager.cpp:106-113 | a stored person is the one found afterwards under its id and window, even over an earlier one; every other lookup and the watermark are unchanged |
| PersonsManagement.ClearThenGet | src/nexmark_new_sellers/PersonsManager.cpp:115-121 | after `clearWindow` the window holds nobody and counts nothing; other windows are untouched |
| AuctionsManagement.NewAuctionsManager | src/nexmark_new_sellers/AuctionsManager.cpp:46-51 | a new manager has watermark -1, no counts and no waiting auctions |
| AuctionsManagement.SetCompletenessTime | src/nexmark_new_sellers/AuctionsManager.cpp:54-56 | the watermark takes the given second and nothing else changes |
| AuctionsManagement.UpdateCompletenessSpec | src/nexmark_new_sellers/AuctionsManager.cpp:62-73 | the watermark moves by exactly one second iff the message completes the second right after it, and that count is then dropped; otherwise the second counts one more; no other count or waiting list changes |
| AuctionsManagement.AddThenGet | src/nexmark_new_sellers/AuctionsManager.cpp:75-82 | adding appends (auction, message id) to its second's queue only; the watermark and counts are untouched |
| AuctionsManagement.RemoveThenGet | src/nexmark_new_sellers/AuctionsManager.cpp:84-86 | removing empties that second's queue only |
| NewSellersCollector.Collect | src/nexmark_new_sellers/EventCollector.cpp:88-92 | reading a join result fails iff it holds fewer than two `int`s, and otherwise yields `(size - 8) / sizeof(JoinOutput)` outputs |
| NewSellersCollector.GetAggregates | src/nexmark_new_sellers/EventCollector.cpp:136-147 | `getAggregates` returns, for every `i < size / sizeof(JoinOutput)`, the output decoded at offset `sizeof(JoinOutput) * i`, in bounds |
| NewSellersCollector.CollectJoinResult | src/nexmark_new_sellers/EventCollector.cpp:88-92 | the collector reads back what the count join sends: the window id, its end time and its joined pairs |
| NewSellersCollector.CollectFwJoinResult | src/nexmark_new_sellers_fw/TumblingWindowJoin.cpp:60-72 | under flow wrapping, once the unit is removed the join result reads as in the count variant |
| NewSellersGenerator.FwInitMessage | src/nexmark_new_sellers_fw/EventGenerator.cpp:45-49 | the flow-wrapping generator's buffer has room for the payload, the send time, the message id and one unit |
| NewSellersGenerator.FwUnit | src/nexmark_new_sellers_fw/EventGenerator.cpp:51-66 | the unit of a message id has numerator 1, the ids per window as denominator, and for a non-negative id the window whose id range holds it |
| NewSellersGenerator.FwUnitMatchesJoin | src/nexmark_new_sellers_fw/EventGenerator.cpp:56-61 | the unit's window is the join's window of the same message id |
| NewSellersGenerator.ParseFwHeader | src/nexmark_new_sellers/EventGenerator.hpp:55-56 | reading the header fails iff the message is shorter than a unit and two `int`s, and otherwise leaves the untouched front of the bytes |
| NewSellersGenerator.FwHeaderRoundTrip | src/nexmark_new_sellers_fw/EventGenerator.cpp:45-66 | a message filled within its capacity always has room for the header, and the unit, id and send time read back as written over the untouched payload |
| ScbGenerator.MessageIdResidue | src/scb/EventGenerator.cpp:65 | while it fits an `int`, a message id is congruent to the rank modulo the world size, and the quotient counts the messages the rank made before |
| ScbGenerator.MessageIdsDistinct | src/scb/EventGenerator.cpp:63-66 | two ids that fit an `int` are equal exactly when they come from the same rank, iteration and position |
| ScbGenerator.Events | src/scb/EventGenerator.cpp:71-73 | a message holds 100 events of the iteration's window carrying that message's value draws |
| ScbGenerator.ScbMessage | src/scb/EventGenerator.cpp:68-77 | building a message always succeeds and fills exactly the events and the header |
| ScbGenerator.GenerateMessages | src/scb/EventGenerator.cpp:57-85 | `generateMessages(quantity)` makes `quantity` messages, each for the aggregator only, holding 100 events and the header within its capacity |
| ScbGenerator.GeneratedMessageParses | src/scb/EventGenerator.cpp:57-85 | every generated message reads back as its id, the baseline and its 100 events |
| ScbGenerator.Indexes | src/scb/EventGenerator.cpp:111-121 | the kept (or delayed) positions, strictly increasing, are exactly those whose lottery draw is above (or not above) `delay_probability` |
| ScbGenerator.LotteryPartition | src/scb/EventGenerator.cpp:111-121 | each message is kept or delayed, never both and never neither |
| ScbGenerator.Push | src/scb/EventGenerator.cpp:124-135 | delaying one message grows the queue to at least `delay` slots and puts the message in slot `delay - 1` |
| ScbGenerator.PushAllGrows | src/scb/EventGenerator.cpp:124-135 | a slot only grows at its end, and every pushed message stays in the slot of its delay |
| ScbGenerator.DelayConserves | src/scb/EventGenerator.cpp:99-166 | `delay` loses and duplicates no message: what goes out plus what waits is what came in plus what waited |
| ScbGenerator.DelayOutput | src/scb/EventGenerator.cpp:156-165 | the output is the kept inputs in input order, followed by the popped slot |
| ScbGenerator.DelayQueue | src/scb/EventGenerator.cpp:104-135 | a delayed input sits in the slot of its delay, every waiting message moves one slot closer, and a queue of at most `delay_max_duration` slots stays so |
| ScbGenerator.Send | src/scb/EventGenerator.cpp:197-200 | `send` moves to the next iteration and keeps the delayed messages |
| ScbGenerator.SendAdvances | src/scb/EventGenerator.cpp:197-200 | ids advance by `quantity * worldSize` per second, and two sends move to the next window |
| ScbGenerator.Tick | src/scb/EventGenerator.cpp:32-50 | one turn of `streamProcess` advances the iteration by one |
| ScbGenerator.TickConserves | src/scb/EventGenerator.cpp:32-50 | over one second every fresh message and every old one is either sent or waiting |
| ScbFwGenerator.WithUnit | src/scb_fw/EventGenerator.cpp:30-32 | wrapping the unit appends its image and keeps the capacity |
| ScbFwGenerator.FwGenerateMessages | src/scb_fw/EventGenerator.cpp:22-35 | the flow-wrapping messages go to the aggregator only and fill their enlarged buffers exactly: 100 events, baseline, id and one unit |
| ScbFwGenerator.FwGeneratedMessageParses | src/scb_fw/EventGenerator.cpp:22-35 | a generated message gives back the iteration's unit first, then reads as a count-variant message with the `'w'` baseline |
| ScbFwGenerator.SplitSpec | src/scb_fw/EventGenerator.cpp:46-51 | bucket `k` holds, in order, exactly the elements at positions `k, k + buckets, k + 2 * buckets, ...` |
| ScbFwGenerator.BucketNonEmpty | src/scb_fw/EventGenerator.cpp:53-60 | a bucket is non-empty exactly when its index is below the number of messages |
| ScbFwGenerator.ConcatenateSpec | src/scb_fw/EventGenerator.cpp:71-107 | `concatenate` throws exactly on an empty input; otherwise it fills its buffer with the contents in order, the first input's baseline and id, every input's unit, and the unit count |
| ScbFwGenerator.ConcatenateParses | src/scb_fw/EventGenerator.cpp:96-104 | a concatenation reads back every input's unit in input order, the first input's id and baseline, and the inputs' contents in order |
| ScbFwGenerator.DelayedHaveHeaders | src/scb_fw/EventGenerator.cpp:41-44 | what the count variant's `delay` lets through still carries its headers |
| ScbFwGenerator.FwDelaySpec | src/scb_fw/EventGenerator.cpp:41-62 | at most `PER_SEC_MSG_COUNT` messages leave per second, one per non-empty bucket, each the concatenation of its bucket; the queue is the count variant's |

## Left out

- Threads, mutexes, condition variables and the mailboxes between operators are not modelled. The one exception is the sort join's `mtx`: a thread's own blocking on it after a failed `send` is modelled (`blocked`), but the other threads of that rank, which would block on the same lock, are modelled each on its own. Each operator step is one atomic function, and `fetchInputMessages`/`updateInputMessages` are taken to hand over the messages in order.
- `MPI_Wtime`, `wait`, latency averages, `display`/`debug` printing, `S_CHECK` data files and `cerr` messages are not modelled.
- Random draws are parameters: the event values, the delay lottery, the delay durations, and the name bytes a `strcpy` leaves behind.
- The uninitialised numerator and denominator of the flow-wrapping aggregator's report unit are a parameter (`unset`). The source never sets them.
- `BasicVertex::createMessage`, `readMessageID`, `readBaseline`, `setBaseline` and `increaseHeaderSize` are not part of this model. `createMessage(c)` is taken to reserve `c` bytes plus the generator's header size.
- `Serialization::append` and `copy` (in `Serialization.cpp`) are not part of this model. `append(dest, src, offset)` is taken to copy the bytes of `src` below its top `offset` bytes.
- `nexmark_gen/PODTypes.hpp`, the common NEXMark generator and `WrapperUnit.hpp` are not part of this model. The generator's record layouts and the unit are packed structs holding the fields the operators use.
- PersonSelectionCodec and JoinOutputCodec write the padding byte as 0. C leaves it indeterminate and nothing reads it.
- `PER_SEC_MSG_COUNT` (defined in `communication/Window.hpp`, which is not part of this model) is a deployment parameter.
- The `aggregation_range` and `aggregation_shift` of the sort sharder (in `NQ5WS.hpp`, which is not part of this model) are the parameters of `WindowSpec`.
- The sharder's unit denominator and the new-sellers generator's unit exclude a `window_duration * PER_SEC_MSG_COUNT * worldSize` product beyond `int` by precondition. Conversions to `int` that the source makes on purpose are modelled with `ToInt32`.
- Groupby.CountStep compares the completeness count with `PER_SEC_MSG_COUNT * window_duration * worldSize` computed as an unbounded integer. The source computes it in signed `int` (`nexmark_hot_items/GroupbyAuction.cpp`, line 101), whose overflow C++ leaves undefined, so the model promises nothing the source does for deployments where the product exceeds 2^31 - 1. The same holds for CountStepKeepsInv, CountFill and the sort aggregator built on CountStep (GroupbyWs.ConsumeSpec, GroupbyWs.StreamPassSpec).
- Join.IdsPerWindow and Join.MessagesPerWindow are unbounded products; the source computes them in signed `int` (`nexmark_new_sellers/TumblingWindowJoin.cpp`, lines 107 and 162; `nexmark_new_sellers_fw/TumblingWindowJoin.cpp`, line 80). Join.JoinWindowId, Join.Absorb, Join.AbsorbSpec, Join.EmitIfCompleteSpec, Join.JoinStepSpec, Join.WsConsumeSpec, Join.WsJoinPassSpec and Join.FwJoinStepSpec divide and compare with these unbounded values, so they say nothing about what the source does when the product overflows.
- Filters.SameRankSent: the source pushes the same `Message*` onto every next operator's channel, so the copies alias one buffer; the model hands each channel an independent value. This is indistinguishable in the hot-items and new-sellers dataflows, where each filter has one next operator.
- Sharding.ShardEvents requires event times above `-window_shift`. Those between `-window_shift` and 0 truncate to window 0 and are modelled. At or below `-window_shift`, `max_wid` is negative and the source's `size_t` loop never ends (Sharding.NegativeTimes).
- Sharding.ProcessInputMessage and Sharding.FwProcessInputMessage carry the same requirement on event times.
- ScbFwGenerator.ConcatenateSpec requires every input to still carry its header. The source subtracts the header size without checking, so a shorter message makes its `size_t` wrap.
- `std::sort` in the hot-items collector is not stable, and `std::list::sort` is. The model uses a stable insertion sort, and the contracts claim only sortedness and permutation, so they hold for any sort.
- A `std::map` entry that `operator[]` default-constructs (count 0, no persons) behaves exactly like a missing entry under every modelled operation, so the model leaves missing entries missing.
- The join's `isCurrentWindowComplete` on an empty window map dereferences `begin()` of an empty map. The model only tests it after a message has created a window, which is the only way the source reaches it.
- The `_ws` aggregators' outer `while (ALIVE)` loop is modelled as one pass (`StreamPass`, `WsJoinPass`) over the messages fetched so far. Repeated passes compose, but the model states no lemma about infinitely many passes.

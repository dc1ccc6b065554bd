/**
 * The per-second watermark of the person stream: messages are counted per
 * second of message ids, and the completeness time moves forward over
 * every consecutive second whose messages have all arrived.  The manager
 * also keeps the persons of each window.
 *
 * `windows[k]` default-constructs missing entries; an entry made that way
 * (no person, count 0) behaves under every operation exactly like a
 * missing one, so the model leaves missing entries missing.
 */
module PersonsManagement {
  import opened Bytes
  import opened Faults
  import opened Records

  /** The count of messages received for a second, and the persons of a window. */
  datatype Slot = Slot(completeness: int, persons: map<int32, PersonSelection>)

  const EMPTY_SLOT: Slot := Slot(0, map[])

  datatype PersonsManager = PersonsManager(worldSize: int, msgFrequency: int, completenessTime: int,
                                           windows: map<int, Slot>) {
    predicate Valid() {
      worldSize > 0 && msgFrequency > 0
    }

    /** Messages every second brings: one per rank and message slot. */
    function PerSecond(): nat
      requires Valid()
    {
      MulMono(worldSize, 1, msgFrequency);
      worldSize * msgFrequency
    }

    function At(k: int): Slot {
      if k in windows then windows[k] else EMPTY_SLOT
    }
  }

  /** The constructor: no second is complete yet. */
  function NewPersonsManager(worldSize: int, msgFrequency: int): (pm: PersonsManager)
    requires worldSize > 0 && msgFrequency > 0
    ensures pm.Valid() && pm.completenessTime == -1 && pm.windows == map[]
  {
    PersonsManager(worldSize, msgFrequency, -1, map[])
  }

  /** `getSecond`: `message_id / (world_size * msg_frequency)`, truncating. */
  function GetSecond(pm: PersonsManager, msgid: int32): int
    requires pm.Valid()
  {
    TruncDiv(msgid, pm.PerSecond())
  }

  /** The seconds at or after `second` that have an entry. */
  function From(windows: map<int, Slot>, second: int): set<int> {
    set k | k in windows && second <= k
  }

  lemma FromShrinks(windows: map<int, Slot>, second: int)
    requires second in windows
    ensures |From(windows, second + 1)| < |From(windows, second)|
  {
    assert From(windows, second) == From(windows, second + 1) + {second};
  }

  /**
   * The watermark loop of `updateCompleteness`: while the watermark is one
   * second behind and that second has all its messages, step both forward.
   */
  function Advance(target: nat, time: int, second: int, windows: map<int, Slot>): int
    requires target > 0
    decreases |From(windows, second)|
  {
    var count := if second in windows then windows[second].completeness else 0;
    if time == second - 1 && count == target then
      FromShrinks(windows, second);
      Advance(target, time + 1, second + 1, windows)
    else time
  }

  /** Every second of `[lo, hi]` has received all its messages. */
  ghost predicate AllFull(windows: map<int, Slot>, target: int, lo: int, hi: int) {
    forall k :: lo <= k <= hi ==> k in windows && windows[k].completeness == target
  }

  /**
   * The watermark never moves back; it moves only when it was one second
   * behind, and then over exactly the run of full seconds that starts
   * there, stopping before the first second that is not full.
   */
  lemma {:induction false} AdvanceSpec(target: nat, time: int, second: int, windows: map<int, Slot>)
    requires target > 0
    decreases |From(windows, second)|
    ensures var t := Advance(target, time, second, windows);
      && time <= t
      && (time != second - 1 ==> t == time)
      && AllFull(windows, target, time + 1, t)
      && (time == second - 1 ==> !(t + 1 in windows && windows[t + 1].completeness == target))
  {
    var count := if second in windows then windows[second].completeness else 0;
    if time == second - 1 && count == target {
      FromShrinks(windows, second);
      AdvanceSpec(target, time + 1, second + 1, windows);
    }
  }

  /** `updateCompleteness`: count the message in its second, then advance the watermark. */
  function UpdateCompleteness(pm: PersonsManager, msgid: int32): (pm': PersonsManager)
    requires pm.Valid()
    ensures pm'.Valid() && pm'.worldSize == pm.worldSize && pm'.msgFrequency == pm.msgFrequency
  {
    var second := GetSecond(pm, msgid);
    var slot := pm.At(second);
    var windows := pm.windows[second := slot.(completeness := slot.completeness + 1)];
    pm.(completenessTime := Advance(pm.PerSecond(), pm.completenessTime, second, windows), windows := windows)
  }

  /**
   * The message's second counts one more message and nothing else does;
   * the watermark moves forward, only if it stood just before that second,
   * over consecutive full seconds up to the last one of the run.
   */
  lemma UpdateCompletenessSpec(pm: PersonsManager, msgid: int32)
    requires pm.Valid()
    ensures var pm' := UpdateCompleteness(pm, msgid);
      var second := GetSecond(pm, msgid);
      && pm'.At(second).completeness == pm.At(second).completeness + 1
      && pm'.At(second).persons == pm.At(second).persons
      && (forall k :: k != second ==> pm'.At(k) == pm.At(k))
      && pm.completenessTime <= pm'.completenessTime
      && (pm.completenessTime != second - 1 ==> pm'.completenessTime == pm.completenessTime)
      && AllFull(pm'.windows, pm.PerSecond(), pm.completenessTime + 1, pm'.completenessTime)
      && (pm.completenessTime == second - 1 ==>
            !(pm'.completenessTime + 1 in pm'.windows && pm'.windows[pm'.completenessTime + 1].completeness == pm.PerSecond()))
  {
    var second := GetSecond(pm, msgid);
    var slot := pm.At(second);
    var windows := pm.windows[second := slot.(completeness := slot.completeness + 1)];
    AdvanceSpec(pm.PerSecond(), pm.completenessTime, second, windows);
  }

  /** `isUpToDateWith`: every message of the id's second has arrived. */
  predicate IsUpToDateWith(pm: PersonsManager, msgid: int32)
    requires pm.Valid()
  {
    pm.completenessTime >= GetSecond(pm, msgid)
  }

  /**
   * Once up to date with a message id, the manager stays so after any
   * further message; it becomes so only for ids of seconds that are full.
   */
  lemma UpToDateStays(pm: PersonsManager, msgid: int32, next: int32)
    requires pm.Valid()
    ensures var pm' := UpdateCompleteness(pm, next);
      && (IsUpToDateWith(pm, msgid) ==> IsUpToDateWith(pm', msgid))
      && (IsUpToDateWith(pm', msgid) && !IsUpToDateWith(pm, msgid) ==>
            GetSecond(pm, msgid) in pm'.windows && pm'.windows[GetSecond(pm, msgid)].completeness == pm.PerSecond())
  {
    UpdateCompletenessSpec(pm, next);
  }

  /** `hasSeller`. */
  predicate HasSeller(pm: PersonsManager, sellerId: int32, window: int) {
    sellerId in pm.At(window).persons
  }

  /** `getSeller`: the stored person, or an exception when there is none. */
  function GetSeller(pm: PersonsManager, sellerId: int32, window: int): (r: Result<PersonSelection>)
    ensures r.Err? <==> !HasSeller(pm, sellerId, window)
    ensures r.Err? ==> r.fault == PersonNotFound(sellerId)
    ensures r.Ok? ==> r.value == pm.At(window).persons[sellerId]
  {
    var persons := pm.At(window).persons;
    if sellerId in persons then Ok(persons[sellerId]) else Err(PersonNotFound(sellerId))
  }

  /** `store`: `persons[person.id] = person`, overwriting. */
  function Store(pm: PersonsManager, person: PersonSelection, window: int): PersonsManager {
    var slot := pm.At(window);
    pm.(windows := pm.windows[window := slot.(persons := slot.persons[person.id := person])])
  }

  /** `clearWindow`: erase the window. */
  function ClearWindow(pm: PersonsManager, window: int): PersonsManager {
    pm.(windows := pm.windows - {window})
  }

  /**
   * A stored person is the one found afterwards under its id in its
   * window, even over an earlier one; every other lookup is unchanged,
   * and so is the watermark.
   */
  lemma StoreThenGet(pm: PersonsManager, person: PersonSelection, window: int, sellerId: int32, w: int)
    ensures var pm' := Store(pm, person, window);
      && GetSeller(pm', person.id, window) == Ok(person)
      && ((sellerId, w) != (person.id, window) ==> GetSeller(pm', sellerId, w) == GetSeller(pm, sellerId, w))
      && pm'.completenessTime == pm.completenessTime
      && pm'.At(window).completeness == pm.At(window).completeness
  {
  }

  /** After `clearWindow` the window holds nobody and counts nothing; other windows are untouched. */
  lemma ClearThenGet(pm: PersonsManager, window: int, sellerId: int32, w: int)
    ensures var pm' := ClearWindow(pm, window);
      && !HasSeller(pm', sellerId, window)
      && pm'.At(window) == EMPTY_SLOT
      && (w != window ==> pm'.At(w) == pm.At(w))
      && pm'.completenessTime == pm.completenessTime
  {
  }
}

/**
 * The per-second watermark of the auction stream.  Unlike the person
 * stream's, it steps at most one second per message, and the count of a
 * second is dropped once that second completes.  Auctions waiting for
 * their sellers are queued per second.
 */
module AuctionsManagement {
  import opened Bytes
  import opened Records

  datatype AuctionsManager = AuctionsManager(worldSize: int, msgFrequency: int, completenessTime: int,
                                             completeness: map<int, nat>,
                                             waitingList: map<int, seq<(AuctionSelection, int32)>>) {
    predicate Valid() {
      worldSize > 0 && msgFrequency > 0
    }

    function PerSecond(): nat
      requires Valid()
    {
      MulMono(msgFrequency, 1, worldSize);
      msgFrequency * worldSize
    }

    function Count(second: int): nat {
      if second in completeness then completeness[second] else 0
    }
  }

  function NewAuctionsManager(worldSize: int, msgFrequency: int): (am: AuctionsManager)
    requires worldSize > 0 && msgFrequency > 0
    ensures am.Valid() && am.completenessTime == -1 && am.completeness == map[] && am.waitingList == map[]
  {
    AuctionsManager(worldSize, msgFrequency, -1, map[], map[])
  }

  /** `message_id / (msg_frequency * world_size)`, truncating. */
  function SecondOf(am: AuctionsManager, msgid: int32): int
    requires am.Valid()
  {
    TruncDiv(msgid, am.PerSecond())
  }

  /** `setCompletenessTime`. */
  function SetCompletenessTime(am: AuctionsManager, second: int): (am': AuctionsManager)
    ensures am'.completenessTime == second
    ensures am' == am.(completenessTime := am'.completenessTime)
  {
    am.(completenessTime := second)
  }

  /** `updateCompleteness`: count the message; a second that fills up right after the watermark advances it by one. */
  function UpdateCompleteness(am: AuctionsManager, msgid: int32): AuctionsManager
    requires am.Valid()
  {
    var second := SecondOf(am, msgid);
    var count := am.Count(second) + 1;
    if count == am.PerSecond() && am.completenessTime == second - 1 then
      am.(completenessTime := am.completenessTime + 1, completeness := am.completeness - {second})
    else
      am.(completeness := am.completeness[second := count])
  }

  /**
   * The watermark moves by exactly one second, iff the message completes
   * the second right after it, and that second's count is then dropped;
   * otherwise the message's second counts one more.  No other second's
   * count and no waiting list changes.
   */
  lemma UpdateCompletenessSpec(am: AuctionsManager, msgid: int32)
    requires am.Valid()
    ensures var am' := UpdateCompleteness(am, msgid);
      var second := SecondOf(am, msgid);
      var completes := am.Count(second) + 1 == am.PerSecond() && am.completenessTime == second - 1;
      && am'.completenessTime == (if completes then am.completenessTime + 1 else am.completenessTime)
      && am'.Count(second) == (if completes then 0 else am.Count(second) + 1)
      && (completes ==> second !in am'.completeness)
      && (forall k :: k != second ==> am'.Count(k) == am.Count(k))
      && am'.waitingList == am.waitingList
  {
  }

  /** `getWaitingList`: the second's queue, empty when there is none. */
  function GetWaitingList(am: AuctionsManager, second: int): seq<(AuctionSelection, int32)> {
    if second in am.waitingList then am.waitingList[second] else []
  }

  /** `addToWaitingList`: append `(auction, message_id)` to the queue of the message's second. */
  function AddToWaitingList(am: AuctionsManager, auction: AuctionSelection, msgid: int32): AuctionsManager
    requires am.Valid()
  {
    var second := SecondOf(am, msgid);
    am.(waitingList := am.waitingList[second := GetWaitingList(am, second) + [(auction, msgid)]])
  }

  /** `removeWaitingList`. */
  function RemoveWaitingList(am: AuctionsManager, second: int): AuctionsManager {
    am.(waitingList := am.waitingList - {second})
  }

  /** Adding appends to the message's second's queue only; the watermark and counts are untouched. */
  lemma AddThenGet(am: AuctionsManager, auction: AuctionSelection, msgid: int32, second: int)
    requires am.Valid()
    ensures var am' := AddToWaitingList(am, auction, msgid);
      && GetWaitingList(am', second)
         == GetWaitingList(am, second) + (if second == SecondOf(am, msgid) then [(auction, msgid)] else [])
      && am'.completenessTime == am.completenessTime && am'.completeness == am.completeness
  {
  }

  /** Removing empties that second's queue only. */
  lemma RemoveThenGet(am: AuctionsManager, second: int, other: int)
    ensures GetWaitingList(RemoveWaitingList(am, second), second) == []
    ensures other != second ==> GetWaitingList(RemoveWaitingList(am, second), other) == GetWaitingList(am, other)
  {
  }
}

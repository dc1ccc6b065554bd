/**
 * The hot-items collector (count and sort variants alike): it reads a
 * window report, sorts its (auction id, count) pairs by decreasing count
 * and keeps the auctions that received the most bids.
 */
module HotItemsCollector {
  import opened Bytes
  import opened Faults
  import opened Serialization
  import opened Codec
  import opened Records
  import opened Groupby
  import opened Sorting

  /** The sort comparator `a.second > b.second` as a key order. */
  function ByCountDesc(c: AuctionCount): Key {
    Key(-(c.count as int), 0)
  }

  /** The pairs whose count is at least `top`, in order (`remove_if` keeps the order of the rest). */
  function AtLeast(pairs: seq<AuctionCount>, top: int): seq<AuctionCount> {
    if pairs == [] then []
    else (if top <= pairs[0].count then [pairs[0]] else []) + AtLeast(pairs[1..], top)
  }

  /**
   * `filterAuctionsWithMaxCount` on a list sorted by decreasing count:
   * the predicate compares with `auctions[0]`, which `remove_if` never
   * moves since that element is always kept.
   */
  function KeepMax(sorted: seq<AuctionCount>): seq<AuctionCount> {
    if sorted == [] then [] else AtLeast(sorted, sorted[0].count)
  }

  /** `processInputMessage`: the window id, then the auctions with the largest count. */
  function HotItems(m: Message): Result<(int32, seq<AuctionCount>)> {
    var (wid, pairs) :- ParseReport(m);
    Ok((wid, KeepMax(SortBy(ByCountDesc, pairs))))
  }

  // ---------------------------------------------------------------------
  // Reference definitions

  /** The largest count of a list of pairs, 0 for none. */
  function MaxCount(pairs: seq<AuctionCount>): nat {
    if pairs == [] then 0
    else
      var m := MaxCount(pairs[..|pairs| - 1]);
      var c := pairs[|pairs| - 1].count;
      if m < c then c else m
  }

  lemma {:induction false} MaxCountSpec(pairs: seq<AuctionCount>)
    ensures forall i :: 0 <= i < |pairs| ==> pairs[i].count <= MaxCount(pairs)
    ensures pairs != [] ==> exists i :: 0 <= i < |pairs| && pairs[i].count == MaxCount(pairs)
  {
    if pairs != [] {
      var init := pairs[..|pairs| - 1];
      MaxCountSpec(init);
      forall i | 0 <= i < |init| ensures pairs[i].count == init[i].count {
      }
      var last := |pairs| - 1;
      if init != [] && pairs[last].count <= MaxCount(init) {
        var i :| 0 <= i < |init| && init[i].count == MaxCount(init);
        assert pairs[i] == init[i];
      } else {
        assert pairs[last].count == MaxCount(pairs);
      }
    }
  }

  /** `AtLeast` keeps every copy of a large enough pair and drops every other. */
  lemma {:induction false} AtLeastCount(pairs: seq<AuctionCount>, top: int, x: AuctionCount)
    ensures multiset(AtLeast(pairs, top))[x] == if top <= x.count then multiset(pairs)[x] else 0
  {
    if pairs != [] {
      AtLeastCount(pairs[1..], top, x);
      assert pairs == [pairs[0]] + pairs[1..];
    }
  }

  /** Filtering commutes with permutation. */
  lemma AtLeastPerm(a: seq<AuctionCount>, b: seq<AuctionCount>, top: int)
    requires multiset(a) == multiset(b)
    ensures multiset(AtLeast(a, top)) == multiset(AtLeast(b, top))
  {
    forall x ensures multiset(AtLeast(a, top))[x] == multiset(AtLeast(b, top))[x] {
      AtLeastCount(a, top, x);
      AtLeastCount(b, top, x);
    }
  }

  /** The first pair of a list sorted by decreasing count carries the largest count. */
  lemma SortedHeadIsMax(sorted: seq<AuctionCount>, pairs: seq<AuctionCount>)
    requires sorted != [] && SortedBy(ByCountDesc, sorted) && multiset(sorted) == multiset(pairs)
    ensures sorted[0].count == MaxCount(pairs)
  {
    MaxCountSpec(pairs);
    assert sorted[0] in multiset(pairs);
    var i :| 0 <= i < |pairs| && pairs[i].count == MaxCount(pairs);
    assert pairs[i] in multiset(sorted);
    var j :| 0 <= j < |sorted| && sorted[j] == pairs[i];
    if j > 0 {
      assert KeyLe(ByCountDesc(sorted[0]), ByCountDesc(sorted[j]));
    }
  }

  /**
   * The collector reads the window id and keeps exactly the pairs of the
   * report that have the largest count, each as often as it occurs.
   */
  lemma HotItemsSpec(m: Message)
    ensures HotItems(m).Err? <==> m.Size() < INT_SIZE
    ensures HotItems(m).Ok? ==>
              var (wid, pairs) := ParseReport(m).value;
              && HotItems(m).value.0 == wid
              && multiset(HotItems(m).value.1) == multiset(AtLeast(pairs, MaxCount(pairs)))
  {
    if HotItems(m).Ok? {
      var (wid, pairs) := ParseReport(m).value;
      var sorted := SortBy(ByCountDesc, pairs);
      SortBySpec(ByCountDesc, pairs);
      if sorted != [] {
        SortedHeadIsMax(sorted, pairs);
      } else {
        assert |pairs| == |multiset(pairs)| == 0;
      }
      AtLeastPerm(sorted, pairs, MaxCount(pairs));
    }
  }

  /** A pair is kept iff it is in the report with the largest count. */
  lemma KeptIff(pairs: seq<AuctionCount>, top: seq<AuctionCount>, c: AuctionCount)
    requires multiset(top) == multiset(AtLeast(pairs, MaxCount(pairs)))
    ensures c in top <==> c in pairs && c.count == MaxCount(pairs)
  {
    AtLeastCount(pairs, MaxCount(pairs), c);
    assert c in top <==> c in multiset(top);
    MaxCountSpec(pairs);
    if c in pairs {
      var i :| 0 <= i < |pairs| && pairs[i] == c;
    }
  }

  /** `v` is at least every count of window `t`, modulo 2^64. */
  ghost predicate Dominates(t: AuctionBids, v: int) {
    forall id :: id in t ==> t[id] % TWO64 <= v
  }

  /** On a report, the largest count is the window's largest count. */
  lemma ReportMax(t: AuctionBids)
    ensures Dominates(t, MaxCount(Report(t)))
    ensures forall id :: id in t ==> (t[id] % TWO64 == MaxCount(Report(t)) <==> Dominates(t, t[id] % TWO64))
  {
    ReportReports(t);
    ReportsMax(Report(t), t);
  }

  /** The largest count of any pairs reporting `t`. */
  lemma ReportsMax(pairs: seq<AuctionCount>, t: AuctionBids)
    requires Reports(pairs, t)
    ensures Dominates(t, MaxCount(pairs))
    ensures forall id :: id in t ==> (t[id] % TWO64 == MaxCount(pairs) <==> Dominates(t, t[id] % TWO64))
  {
    MaxCountSpec(pairs);
    forall id | id in t ensures t[id] % TWO64 <= MaxCount(pairs) {
      var k :| 0 <= k < |pairs| && pairs[k].auction_id == id;
    }
    if t != map[] {
      var i :| 0 <= i < |pairs| && pairs[i].count == MaxCount(pairs);
      assert pairs[i].auction_id in t;
    }
  }

  /**
   * End to end: on the report of a window, the collector returns the
   * window id and the auctions of the window whose count (modulo 2^64) is
   * the largest, each once, and no other.
   */
  lemma CollectCountsMessage(wid: int32, t: AuctionBids)
    ensures HotItems(CountsMessage(wid, t)).Ok?
    ensures HotItems(CountsMessage(wid, t)).value.0 == wid
    ensures forall c :: c in HotItems(CountsMessage(wid, t)).value.1 <==>
              c.auction_id in t && c.count == t[c.auction_id] % TWO64 && Dominates(t, c.count)
  {
    ParseCountsMessage(wid, t);
    var m := CountsMessage(wid, t);
    HotItemsSpec(m);
    var pairs := Report(t);
    var top := HotItems(m).value.1;
    ReportMax(t);
    forall c
      ensures c in top <==> c.auction_id in t && c.count == t[c.auction_id] % TWO64 && Dominates(t, c.count)
    {
      KeptIff(pairs, top, c);
      if c.auction_id in t && c.count == t[c.auction_id] % TWO64 {
        var k :| 0 <= k < |pairs| && pairs[k].auction_id == c.auction_id;
        assert pairs[k] == c;
      }
    }
  }
}

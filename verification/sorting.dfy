/**
 * `std::list::sort` with the comparators of the sort (`_ws`) operators:
 * messages ordered by a key read from their header tail.  The list sort
 * is stable; the model is an insertion sort that puts each message after
 * the ones with an equal key.
 */
module Sorting {
  import opened Faults
  import opened Serialization

  /** A sort key: primary then secondary criterion. */
  datatype Key = Key(major: int, minor: int)

  /** The comparators' `a < b`: lexicographic on (major, minor). */
  predicate KeyLt(a: Key, b: Key) {
    a.major < b.major || (a.major == b.major && a.minor < b.minor)
  }

  predicate KeyLe(a: Key, b: Key) {
    !KeyLt(b, a)
  }

  /** Keys never decrease along `xs`. */
  ghost predicate SortedBy<T>(key: T -> Key, xs: seq<T>) {
    forall i, j :: 0 <= i < j < |xs| ==> KeyLe(key(xs[i]), key(xs[j]))
  }

  /** Put `x` before the first element with a greater key. */
  function Insert<T>(key: T -> Key, x: T, ys: seq<T>): seq<T> {
    if ys == [] then [x]
    else if KeyLt(key(x), key(ys[0])) then [x] + ys
    else [ys[0]] + Insert(key, x, ys[1..])
  }

  function SortBy<T>(key: T -> Key, xs: seq<T>): seq<T> {
    if xs == [] then []
    else Insert(key, xs[|xs| - 1], SortBy(key, xs[..|xs| - 1]))
  }

  lemma {:induction false} InsertSpec<T>(key: T -> Key, x: T, ys: seq<T>)
    requires SortedBy(key, ys)
    ensures SortedBy(key, Insert(key, x, ys))
    ensures multiset(Insert(key, x, ys)) == multiset(ys) + multiset{x}
  {
    if ys == [] {
    } else if KeyLt(key(x), key(ys[0])) {
      forall k | 0 <= k < |ys| ensures KeyLe(key(x), key(ys[k])) {
      }
      SortedCons(key, x, ys);
    } else {
      var tail := ys[1..];
      SortedTail(key, ys);
      InsertSpec(key, x, tail);
      var r := Insert(key, x, tail);
      assert ys == [ys[0]] + tail;
      HeadBelowInsert(key, x, ys, r);
      SortedCons(key, ys[0], r);
    }
  }

  lemma SortedTail<T>(key: T -> Key, ys: seq<T>)
    requires SortedBy(key, ys) && ys != []
    ensures SortedBy(key, ys[1..])
  {
    var tail := ys[1..];
    forall i, j | 0 <= i < j < |tail| ensures KeyLe(key(tail[i]), key(tail[j])) {
      assert tail[i] == ys[i + 1] && tail[j] == ys[j + 1];
    }
  }

  /** Whatever was inserted behind the head of a sorted list does not go below it. */
  lemma HeadBelowInsert<T>(key: T -> Key, x: T, ys: seq<T>, r: seq<T>)
    requires SortedBy(key, ys) && ys != [] && !KeyLt(key(x), key(ys[0]))
    requires multiset(r) == multiset(ys[1..]) + multiset{x}
    ensures forall k :: 0 <= k < |r| ==> KeyLe(key(ys[0]), key(r[k]))
  {
    var tail := ys[1..];
    forall k | 0 <= k < |r|
      ensures KeyLe(key(ys[0]), key(r[k]))
    {
      assert r[k] in multiset(r);
      if r[k] != x {
        assert r[k] in multiset(tail);
        var j :| 0 <= j < |tail| && tail[j] == r[k];
        assert tail[j] == ys[j + 1];
      }
    }
  }

  /** A sorted list stays sorted behind an element no greater than any of it. */
  lemma SortedCons<T>(key: T -> Key, a: T, r: seq<T>)
    requires SortedBy(key, r) && forall k :: 0 <= k < |r| ==> KeyLe(key(a), key(r[k]))
    ensures SortedBy(key, [a] + r)
  {
    var res := [a] + r;
    forall i, j | 0 <= i < j < |res|
      ensures KeyLe(key(res[i]), key(res[j]))
    {
      if i > 0 {
        assert res[i] == r[i - 1] && res[j] == r[j - 1];
      } else {
        assert res[j] == r[j - 1];
      }
    }
  }

  /** Sorting yields a permutation of the list in non-decreasing key order. */
  lemma {:induction false} SortBySpec<T>(key: T -> Key, xs: seq<T>)
    ensures SortedBy(key, SortBy(key, xs))
    ensures multiset(SortBy(key, xs)) == multiset(xs)
  {
    if xs != [] {
      var init := xs[..|xs| - 1];
      SortBySpec(key, init);
      InsertSpec(key, xs[|xs| - 1], SortBy(key, init));
      assert xs == init + [xs[|xs| - 1]];
    }
  }

  /** Every message holds the `need` bytes its comparator reads. */
  predicate AllHold(ms: seq<Message>, need: nat) {
    forall i :: 0 <= i < |ms| ==> need <= ms[i].Size()
  }

  /** The first message too short for the comparator. */
  function FirstShort(ms: seq<Message>, need: nat): (i: nat)
    requires !AllHold(ms, need)
    ensures i < |ms| && ms[i].Size() < need
  {
    if ms[0].Size() < need then 0
    else
      assert !AllHold(ms[1..], need) by {
        var j :| 0 <= j < |ms| && ms[j].Size() < need;
        assert ms[1..][j - 1] == ms[j];
      }
      1 + FirstShort(ms[1..], need)
  }

  /**
   * Sorting a list whose comparator reads the last `need` bytes of each
   * message.  With two messages or more every one is compared at least
   * once, so a message too short for the comparator makes the sort throw.
   */
  function SortMessages(key: Message -> Key, need: nat, ms: seq<Message>): (r: Result<seq<Message>>)
    ensures r.Err? <==> 2 <= |ms| && !AllHold(ms, need)
    ensures r.Ok? ==> SortedBy(key, r.value) && multiset(r.value) == multiset(ms)
  {
    if 2 <= |ms| && !AllHold(ms, need) then
      var i := FirstShort(ms, need);
      Err(Underflow(ms[i].Size(), need))
    else
      SortBySpec(key, ms);
      Ok(SortBy(key, ms))
  }
}

/**
 * The weighted LFU cache `CLFU<KEY, VALUE>` of lfu.h as an immutable state
 * record with pure operations. The wall clock is an explicit `now` argument.
 */
module Lfu {
  import opened Wrappers
  import opened FreqList

  /**
   * The cache state. `vals` is the frequency-ordered value list, `index` the
   * key set of the key-to-node map (a node is found by its key, see
   * `IndexOf`), `timeOut` and `timeStamp` the decay interval and the time of
   * the last decay, in seconds.
   */
  datatype Cache<K, V> = Cache(
    timeOut: int,
    timeStamp: int,
    maxWeight: nat,
    curWeight: nat,
    index: set<K>,
    vals: seq<Entry<K, V>>)

  /** List and index agree: sorted list, unique keys, index keys == list keys. */
  ghost predicate WellFormed<K, V>(c: Cache<K, V>) {
    && Sorted(c.vals)
    && UniqueKeys(c.vals)
    && c.index == Keys(c.vals)
  }

  /** The object invariant between public calls. */
  ghost predicate Valid<K, V>(c: Cache<K, V>) {
    && c.timeOut > 0
    && WellFormed(c)
    && c.curWeight == TotalWeight(c.vals)
    && c.curWeight <= c.maxWeight
  }

  /** The constructor; the current weight starts at zero. */
  function New<K, V>(maxWeight: nat, now: int, timeOut: int := 30): (c: Cache<K, V>)
    requires timeOut > 0
    ensures c.vals == [] && c.curWeight == 0 && c.maxWeight == maxWeight
    ensures c.timeOut == timeOut && c.timeStamp == now
    ensures Valid(c)
  {
    Cache(timeOut, now, maxWeight, 0, {}, [])
  }

  // ---------------------------------------------------------------------
  // Eviction and insertion
  // ---------------------------------------------------------------------

  /**
   * `pop`: drop the list head, which in a sorted list has the lowest
   * frequency, subtract its weight and erase its key from the index.
   */
  function Pop<K(==), V>(c: Cache<K, V>): (r: Cache<K, V>)
    requires |c.vals| > 0 && c.vals[0].weight <= c.curWeight
    ensures r.vals == c.vals[1..] && r.index == c.index - {c.vals[0].key}
    ensures r.curWeight == c.curWeight - c.vals[0].weight
    ensures r.curWeight + TotalWeight(c.vals) == c.curWeight + TotalWeight(r.vals)
    ensures WellFormed(c) ==> WellFormed(r) && c.vals[0].key !in r.index
    ensures Sorted(c.vals) ==> forall a :: 0 <= a < |r.vals| ==> c.vals[0].freq <= r.vals[a].freq
    ensures r.maxWeight == c.maxWeight && r.timeOut == c.timeOut && r.timeStamp == c.timeStamp
  {
    var head := c.vals[0];
    assert Without(c.vals, 0) == c.vals[1..];
    WithoutKeys(c.vals, 0);
    WithoutUnique(c.vals, 0);
    WithoutWeight(c.vals, 0);
    SortedWithout(c.vals, 0);
    c.(curWeight := c.curWeight - head.weight, index := c.index - {head.key}, vals := c.vals[1..])
  }

  /**
   * `r` is what is left of `s` after dropping the shortest prefix that brings
   * the total weight plus `pending` within `maxWeight`.
   */
  ghost predicate ShortestRoomMaking<K, V>(s: seq<Entry<K, V>>, r: seq<Entry<K, V>>, pending: nat, maxWeight: nat) {
    && |r| <= |s|
    && r == s[|s| - |r|..]
    && TotalWeight(r) + pending <= maxWeight
    && (|r| < |s| ==> TotalWeight(s[|s| - |r| - 1..]) + pending > maxWeight)
  }

  /**
   * The eviction loop of `put`: while the current weight, which already
   * includes the `pending` weight of the entry about to be inserted, exceeds
   * the maximum, pop the head. It stops after dropping the shortest prefix
   * that makes room, and never needs to pop an empty list.
   */
  function Evict<K(==), V>(c: Cache<K, V>, pending: nat): (r: Cache<K, V>)
    requires WellFormed(c)
    requires c.curWeight == TotalWeight(c.vals) + pending
    requires pending <= c.maxWeight
    ensures WellFormed(r)
    ensures r.curWeight == TotalWeight(r.vals) + pending <= r.maxWeight
    ensures ShortestRoomMaking(c.vals, r.vals, pending, c.maxWeight)
    ensures r.index <= c.index
    ensures r.maxWeight == c.maxWeight && r.timeOut == c.timeOut && r.timeStamp == c.timeStamp
    decreases |c.vals|
  {
    if c.curWeight > c.maxWeight then
      var r := Evict(Pop(c), pending);
      ShortestRoomMakingStep(c.vals, r.vals, pending, c.maxWeight);
      r
    else
      ShortestRoomMakingNone(c.vals, pending, c.maxWeight);
      c
  }

  /** Nothing needs evicting when the pending weight already fits. */
  lemma ShortestRoomMakingNone<K, V>(s: seq<Entry<K, V>>, pending: nat, maxWeight: nat)
    requires TotalWeight(s) + pending <= maxWeight
    ensures ShortestRoomMaking(s, s, pending, maxWeight)
  {
    assert s[0..] == s;
  }

  /** Popping a head that does not yet make room extends the shortest dropped prefix by one. */
  lemma ShortestRoomMakingStep<K, V>(s: seq<Entry<K, V>>, r: seq<Entry<K, V>>, pending: nat, maxWeight: nat)
    requires |s| > 0
    requires TotalWeight(s) + pending > maxWeight
    requires ShortestRoomMaking(s[1..], r, pending, maxWeight)
    ensures ShortestRoomMaking(s, r, pending, maxWeight)
  {
    assert s[1..][|s| - 1 - |r|..] == s[|s| - |r|..];
    if |r| < |s| - 1 {
      assert s[1..][|s| - 1 - |r| - 1..] == s[|s| - |r| - 1..];
    } else {
      assert s[0..] == s;
    }
  }

  /**
   * `push`: insert `e` immediately before the first entry of strictly greater
   * frequency (at the end if there is none) and register its key.
   */
  function Push<K(==), V>(c: Cache<K, V>, e: Entry<K, V>): (r: Cache<K, V>)
    ensures r.index == c.index + {e.key}
    ensures |r.vals| == |c.vals| + 1
    ensures r.curWeight == c.curWeight && r.maxWeight == c.maxWeight
    ensures r.timeOut == c.timeOut && r.timeStamp == c.timeStamp
    ensures WellFormed(c) && e.key !in c.index ==>
              && WellFormed(r)
              && TotalWeight(r.vals) == TotalWeight(c.vals) + e.weight
              && var p := IndexOf(r.vals, e.key);
                 && r.vals[p] == e
                 && Without(r.vals, p) == c.vals
                 && PlacedAfterPeers(r.vals, p)
  {
    var p := Find(c.vals, 0, e.freq);
    var u := Insert(c.vals, p, e);
    WithoutKeys(u, p);
    WithoutUnique(u, p);
    WithoutWeight(u, p);
    InsertPlaces(c.vals, e);
    IndexOfUnique(u, p);
    c.(index := c.index + {e.key}, vals := u)
  }

  /**
   * `put`: a key already present leaves the cache untouched; otherwise the
   * weight is added, heads are evicted until it fits and the new entry is
   * pushed. An entry heavier than the whole cache is refused by the
   * precondition: the source would pop an empty list.
   */
  function Put<K(==), V>(c: Cache<K, V>, key: K, value: V, weight: nat := 1, freq: nat := 1): (r: Cache<K, V>)
    requires Valid(c)
    requires key in c.index || weight <= c.maxWeight
    ensures Valid(r)
    ensures key in c.index ==> r == c
    ensures key in r.index
    ensures r.maxWeight == c.maxWeight && r.timeOut == c.timeOut && r.timeStamp == c.timeStamp
  {
    if key in c.index then c
    else Push(Evict(Charge(c, weight), weight), Entry(freq, weight, key, value))
  }

  /** The state once `put` has added the weight of the entry it is about to insert. */
  function Charge<K, V>(c: Cache<K, V>, weight: nat): Cache<K, V> {
    c.(curWeight := c.curWeight + weight)
  }

  /** The fresh-key branch of `put`: evict to make room, then push. */
  lemma PutFresh<K, V>(c: Cache<K, V>, key: K, value: V, weight: nat, freq: nat)
    requires Valid(c) && key !in c.index && weight <= c.maxWeight
    ensures Put(c, key, value, weight, freq) == Push(Evict(Charge(c, weight), weight), Entry(freq, weight, key, value))
  {
  }

  /**
   * `put` of a fresh key: the new entry lands after all its peers, and
   * removing it leaves the old list minus the shortest prefix whose eviction
   * makes room for the new weight.
   */
  lemma PutInserts<K, V>(c: Cache<K, V>, key: K, value: V, weight: nat, freq: nat)
    requires Valid(c) && key !in c.index && weight <= c.maxWeight
    ensures var r := Put(c, key, value, weight, freq);
            && 0 < |r.vals| <= |c.vals| + 1
            && var d := |c.vals| + 1 - |r.vals|;
               var p := IndexOf(r.vals, key);
               && r.vals[p] == Entry(freq, weight, key, value)
               && Without(r.vals, p) == c.vals[d..]
               && PlacedAfterPeers(r.vals, p)
               && TotalWeight(c.vals[d..]) + weight <= c.maxWeight
               && (d > 0 ==> TotalWeight(c.vals[d - 1..]) + weight > c.maxWeight)
  {
    var c1 := Evict(Charge(c, weight), weight);
    SuffixKeys(c.vals, |c.vals| - |c1.vals|);
    PushAfterEvict(c1, Entry(freq, weight, key, value), c.vals, |c.vals| - |c1.vals|, c.maxWeight);
  }

  /**
   * A `put` that fits without eviction, of an entry at least as frequent as
   * every stored one, appends the entry at the tail: FIFO within its bucket.
   */
  lemma PutAppends<K, V>(c: Cache<K, V>, key: K, value: V, weight: nat, freq: nat)
    requires Valid(c) && key !in c.index
    requires c.curWeight + weight <= c.maxWeight
    requires forall a :: 0 <= a < |c.vals| ==> c.vals[a].freq <= freq
    ensures var r := Put(c, key, value, weight, freq);
            && r.vals == c.vals + [Entry(freq, weight, key, value)]
            && r.index == c.index + {key}
            && r.curWeight == c.curWeight + weight
  {
    var c1 := Charge(c, weight);
    var e := Entry(freq, weight, key, value);
    assert Evict(c1, weight) == c1;
    var p := Find(c.vals, 0, freq);
    assert p == |c.vals|;
    assert Insert(c.vals, p, e) == c.vals + [e];
  }

  // ---------------------------------------------------------------------
  // Decay
  // ---------------------------------------------------------------------

  /**
   * `timeout`: the shift owed for the time elapsed since the last decay, and
   * the new decay timestamp. Fewer than `timeOut` seconds owe nothing and
   * keep the timestamp; otherwise the shift is the number of whole intervals
   * elapsed, capped at 31, and the timestamp becomes `now`.
   */
  function Timeout(timeStamp: int, timeOut: int, now: int): (r: (nat, int))
    requires timeOut > 0
    ensures r.0 <= 31
    ensures r.0 == 0 <==> now - timeStamp < timeOut
    ensures r.0 == 0 ==> r.1 == timeStamp
    ensures r.0 > 0 ==> r.1 == now
    ensures 0 < r.0 < 31 ==> r.0 * timeOut <= now - timeStamp < (r.0 + 1) * timeOut
    ensures r.0 == 31 ==> 31 * timeOut <= now - timeStamp
  {
    var interval := now - timeStamp;
    if interval < timeOut then (0, timeStamp)
    else
      var move := interval / timeOut;
      (if move >= 32 then 31 else move, now)
  }

  /** `decreaseFreq`: apply the shift `timeout` returns to every frequency. */
  function DecreaseFreq<K, V>(c: Cache<K, V>, now: int): (r: Cache<K, V>)
    requires c.timeOut > 0
    ensures r.vals == ShiftAll(c.vals, Timeout(c.timeStamp, c.timeOut, now).0)
    ensures r.timeStamp == Timeout(c.timeStamp, c.timeOut, now).1
    ensures r.index == c.index && r.curWeight == c.curWeight
    ensures r.maxWeight == c.maxWeight && r.timeOut == c.timeOut
  {
    var (shift, stamp) := Timeout(c.timeStamp, c.timeOut, now);
    var c1 := c.(timeStamp := stamp);
    if shift == 0 then
      ShiftAllZero(c.vals);
      c1
    else
      c1.(vals := ShiftAll(c1.vals, shift))
  }

  // ---------------------------------------------------------------------
  // Lookup
  // ---------------------------------------------------------------------

  /**
   * `sort`: decay, then splice the entry at `i` before the first later entry
   * whose frequency is strictly greater than its own (to the end if none).
   */
  function Sort<K, V>(c: Cache<K, V>, i: nat, now: int): (r: Cache<K, V>)
    requires i < |c.vals| && c.timeOut > 0
    ensures |r.vals| == |c.vals|
    ensures Keys(r.vals) == Keys(c.vals)
    ensures UniqueKeys(r.vals) <==> UniqueKeys(c.vals)
    ensures TotalWeight(r.vals) == TotalWeight(c.vals)
    ensures r.timeStamp == Timeout(c.timeStamp, c.timeOut, now).1
    ensures r.index == c.index && r.curWeight == c.curWeight
    ensures r.maxWeight == c.maxWeight && r.timeOut == c.timeOut
  {
    var c1 := DecreaseFreq(c, now);
    var j := Find(c1.vals, i, c1.vals[i].freq);
    ShiftAllContents(c.vals, Timeout(c.timeStamp, c.timeOut, now).0);
    SameContents(Move(c1.vals, i, j), j - 1, c1.vals, i);
    c1.(vals := Move(c1.vals, i, j))
  }

  /** `mFreq += _freq` on the node at position `i`. */
  function Bump<K, V>(c: Cache<K, V>, i: nat, inc: nat): (r: Cache<K, V>)
    requires i < |c.vals|
    ensures |r.vals| == |c.vals|
    ensures r.vals[i].freq == c.vals[i].freq + inc
    ensures r.vals[i].key == c.vals[i].key
    ensures r.vals[i].weight == c.vals[i].weight && r.vals[i].value == c.vals[i].value
    ensures Without(r.vals, i) == Without(c.vals, i)
    ensures r.index == c.index && r.curWeight == c.curWeight && r.maxWeight == c.maxWeight
    ensures r.timeOut == c.timeOut && r.timeStamp == c.timeStamp
  {
    c.(vals := c.vals[i := c.vals[i].(freq := c.vals[i].freq + inc)])
  }

  /**
   * `get`: a missing key gives `None` and changes nothing. Otherwise the
   * entry's frequency is raised by `inc`, then `sort` decays and repositions
   * it, and its value is returned.
   */
  function Get<K(==), V>(c: Cache<K, V>, key: K, now: int, inc: nat := 1): (r: (Option<V>, Cache<K, V>))
    requires Valid(c)
    ensures Valid(r.1)
    ensures key !in c.index ==> r == (None, c)
    ensures key in c.index ==>
              exists a :: 0 <= a < |c.vals| && c.vals[a].key == key && r.0 == Some(c.vals[a].value)
    ensures r.1.index == c.index && r.1.curWeight == c.curWeight
    ensures r.1.maxWeight == c.maxWeight && r.1.timeOut == c.timeOut
  {
    if key !in c.index then (None, c)
    else
      var i := IndexOf(c.vals, key);
      var e := c.vals[i];
      BumpThenSortValid(c, i, inc, now);
      (Some(e.value), Sort(Bump(c, i, inc), i, now))
  }

  // ---------------------------------------------------------------------
  // Diagnostics
  // ---------------------------------------------------------------------

  /**
   * The ordering check `print` asserts while it walks the list: each
   * frequency is at least the previous one, starting from 0. It fails
   * exactly on unsorted lists.
   */
  method CheckOrder<K, V>(c: Cache<K, V>) returns (ok: bool)
    ensures ok <==> Sorted(c.vals)
  {
    var lastFreq := 0;
    var k := 0;
    while k < |c.vals|
      invariant k <= |c.vals|
      invariant Sorted(c.vals[..k])
      invariant lastFreq == if k == 0 then 0 else c.vals[k - 1].freq
    {
      if lastFreq > c.vals[k].freq {
        return false;
      }
      lastFreq := c.vals[k].freq;
      k := k + 1;
    }
    assert c.vals[..k] == c.vals;
    return true;
  }

  // ---------------------------------------------------------------------
  // Lemmas
  // ---------------------------------------------------------------------

  /**
   * Raising one entry's frequency in a sorted list keeps the rest sorted and
   * keeps every earlier entry at or below it, and changes no key or weight.
   */
  lemma BumpKeepsOrder<K, V>(c: Cache<K, V>, i: nat, inc: nat)
    requires i < |c.vals| && Sorted(c.vals)
    ensures var t := Bump(c, i, inc).vals;
            && Sorted(Without(t, i))
            && (forall a :: 0 <= a < i ==> t[a].freq <= t[i].freq)
            && Keys(t) == Keys(c.vals)
            && (UniqueKeys(t) <==> UniqueKeys(c.vals))
            && TotalWeight(t) == TotalWeight(c.vals)
  {
    var t := Bump(c, i, inc).vals;
    SortedWithout(c.vals, i);
    SameContents(t, i, c.vals, i);
  }

  /** Raising entry `i` and then running `sort` on it keeps the cache valid. */
  lemma BumpThenSortValid<K, V>(c: Cache<K, V>, i: nat, inc: nat, now: int)
    requires Valid(c) && i < |c.vals|
    ensures Valid(Sort(Bump(c, i, inc), i, now))
  {
    BumpKeepsOrder(c, i, inc);
    SortPlaces(Bump(c, i, inc), i, now);
  }

  /**
   * The repositioning property of `sort`: if the entry at `i` is at or above
   * every earlier entry and the rest of the list is sorted, then after decay
   * and splice the list is sorted, the entry sits after all its peers, and
   * the other entries keep their relative order.
   */
  lemma SortPlaces<K, V>(c: Cache<K, V>, i: nat, now: int)
    requires i < |c.vals| && c.timeOut > 0
    requires Sorted(Without(c.vals, i))
    requires forall a :: 0 <= a < i ==> c.vals[a].freq <= c.vals[i].freq
    ensures var n := Timeout(c.timeStamp, c.timeOut, now).0;
            var r := Sort(c, i, now);
            && Sorted(r.vals)
            && exists q :: i <= q < |r.vals|
                 && r.vals[q].key == c.vals[i].key
                 && r.vals[q].freq == Shr(c.vals[i].freq, n)
                 && r.vals[q].weight == c.vals[i].weight && r.vals[q].value == c.vals[i].value
                 && PlacedAfterPeers(r.vals, q)
                 && Without(r.vals, q) == ShiftAll(Without(c.vals, i), n)
  {
    var n := Timeout(c.timeStamp, c.timeOut, now).0;
    var t := ShiftAll(c.vals, n);
    ShiftAllWithout(c.vals, i, n);
    ShiftAllContents(Without(c.vals, i), n);
    forall a | 0 <= a < i ensures t[a].freq <= t[i].freq {
      ShrMonotone(c.vals[a].freq, c.vals[i].freq, n);
    }
    MovePlaces(t, i);
    var j := Find(t, i, t[i].freq);
    assert Sort(c, i, now).vals == Move(t, i, j);
  }

  /**
   * `get` on a present key returns the key's value; the stored entry keeps
   * its weight and value, and its frequency is raised by `inc` before the
   * decay shift is applied; the timestamp follows `timeout`.
   */
  lemma GetFound<K, V>(c: Cache<K, V>, key: K, inc: nat, now: int)
    requires Valid(c) && key in c.index
    ensures var r := Get(c, key, now, inc);
            var i := IndexOf(c.vals, key);
            var q := IndexOf(r.1.vals, key);
            && r.0 == Some(c.vals[i].value)
            && r.1.timeStamp == Timeout(c.timeStamp, c.timeOut, now).1
            && r.1.vals[q].freq == Shr(c.vals[i].freq + inc, Timeout(c.timeStamp, c.timeOut, now).0)
            && r.1.vals[q].weight == c.vals[i].weight && r.1.vals[q].value == c.vals[i].value
  {
    GetPresent(c, key, inc, now);
    BumpSortEntry(c, IndexOf(c.vals, key), inc, now);
  }

  /**
   * `get` on a present key: the entry ends up after all its peers, and every
   * other entry keeps its relative order and only has its frequency shifted.
   */
  lemma GetReorders<K, V>(c: Cache<K, V>, key: K, inc: nat, now: int)
    requires Valid(c) && key in c.index
    ensures var r := Get(c, key, now, inc);
            var i := IndexOf(c.vals, key);
            var q := IndexOf(r.1.vals, key);
            && PlacedAfterPeers(r.1.vals, q)
            && Without(r.1.vals, q) == ShiftAll(Without(c.vals, i), Timeout(c.timeStamp, c.timeOut, now).0)
  {
    GetPresent(c, key, inc, now);
    BumpSortPlaces(c, IndexOf(c.vals, key), inc, now);
  }

  /** The present-key branch of `get`: raise the entry, then `sort` it. */
  lemma GetPresent<K, V>(c: Cache<K, V>, key: K, inc: nat, now: int)
    requires Valid(c) && key in c.index
    ensures var i := IndexOf(c.vals, key);
            Get(c, key, now, inc) == (Some(c.vals[i].value), Sort(Bump(c, i, inc), i, now))
  {
  }

  /**
   * Raising entry `i` and running `sort` on it: the entry, found again by its
   * key, keeps its weight and value and has frequency `(freq + inc) >> n`.
   */
  lemma BumpSortEntry<K, V>(c: Cache<K, V>, i: nat, inc: nat, now: int)
    requires Valid(c) && i < |c.vals|
    ensures var r := Sort(Bump(c, i, inc), i, now);
            var q := IndexOf(r.vals, c.vals[i].key);
            && r.vals[q].freq == Shr(c.vals[i].freq + inc, Timeout(c.timeStamp, c.timeOut, now).0)
            && r.vals[q].weight == c.vals[i].weight && r.vals[q].value == c.vals[i].value
  {
    var n := Timeout(c.timeStamp, c.timeOut, now).0;
    var c1 := Bump(c, i, inc);
    var r := Sort(c1, i, now);
    BumpThenSortValid(c, i, inc, now);
    BumpKeepsOrder(c, i, inc);
    SortPlaces(c1, i, now);
    var q :| i <= q < |r.vals|
               && r.vals[q].key == c1.vals[i].key
               && r.vals[q].freq == Shr(c1.vals[i].freq, n)
               && r.vals[q].weight == c1.vals[i].weight && r.vals[q].value == c1.vals[i].value
               && PlacedAfterPeers(r.vals, q)
               && Without(r.vals, q) == ShiftAll(Without(c1.vals, i), n);
    IndexOfUnique(r.vals, q);
    assert c1.vals[i].freq == c.vals[i].freq + inc;
  }

  /**
   * Raising entry `i` and running `sort` on it: the entry, found again by its
   * key, sits after its peers, and the other entries keep their order with
   * decayed frequencies.
   */
  lemma BumpSortPlaces<K, V>(c: Cache<K, V>, i: nat, inc: nat, now: int)
    requires Valid(c) && i < |c.vals|
    ensures var r := Sort(Bump(c, i, inc), i, now);
            var q := IndexOf(r.vals, c.vals[i].key);
            && PlacedAfterPeers(r.vals, q)
            && Without(r.vals, q) == ShiftAll(Without(c.vals, i), Timeout(c.timeStamp, c.timeOut, now).0)
  {
    var n := Timeout(c.timeStamp, c.timeOut, now).0;
    var c1 := Bump(c, i, inc);
    var r := Sort(c1, i, now);
    BumpThenSortValid(c, i, inc, now);
    BumpKeepsOrder(c, i, inc);
    SortPlaces(c1, i, now);
    var q :| i <= q < |r.vals|
               && r.vals[q].key == c1.vals[i].key
               && r.vals[q].freq == Shr(c1.vals[i].freq, n)
               && r.vals[q].weight == c1.vals[i].weight && r.vals[q].value == c1.vals[i].value
               && PlacedAfterPeers(r.vals, q)
               && Without(r.vals, q) == ShiftAll(Without(c1.vals, i), n);
    IndexOfUnique(r.vals, q);
  }

  /** The insertion step of `put`, stated on the state after eviction. */
  lemma PushAfterEvict<K, V>(c1: Cache<K, V>, e: Entry<K, V>, s: seq<Entry<K, V>>, d: nat, maxWeight: nat)
    requires WellFormed(c1) && e.key !in c1.index
    requires d <= |s| && c1.vals == s[d..]
    requires TotalWeight(s[d..]) + e.weight <= maxWeight
    requires d > 0 ==> TotalWeight(s[d - 1..]) + e.weight > maxWeight
    ensures var r := Push(c1, e);
            && |r.vals| == |s| - d + 1
            && var p := IndexOf(r.vals, e.key);
               && r.vals[p] == e
               && Without(r.vals, p) == s[d..]
               && PlacedAfterPeers(r.vals, p)
               && TotalWeight(s[d..]) + e.weight <= maxWeight
               && (d > 0 ==> TotalWeight(s[d - 1..]) + e.weight > maxWeight)
  {
  }

  /** Decay alone keeps the cache valid: shifting is monotone and touches no key or weight. */
  lemma DecayKeepsValid<K, V>(c: Cache<K, V>, now: int)
    requires Valid(c)
    ensures Valid(DecreaseFreq(c, now))
  {
    ShiftAllContents(c.vals, Timeout(c.timeStamp, c.timeOut, now).0);
  }
}

/** Concrete traces of the cache: decay arithmetic and an eviction scenario. */
module LfuScenarios {
  import opened Wrappers
  import opened FreqList
  import opened Lfu

  /**
   * With the default 30-second interval: 65 seconds owe a shift of 2, 10
   * seconds owe nothing, and 40 intervals are capped at a shift of 31.
   */
  lemma AgingExamples()
    ensures Timeout(0, 30, 65) == (2, 65)
    ensures Timeout(0, 30, 10) == (0, 0)
    ensures Timeout(100, 30, 1300) == (31, 1300)
    ensures Shr(5, 2) == 1 && Shr(7, 31) == 0
  {
  }

  /** A unit-weight entry for key `k` holding the value `10 * k`. */
  function U(freq: nat, k: int): Entry<int, int> { Entry(freq, 1, k, 10 * k) }

  function S1(): Cache<int, int> { Cache(30, 0, 3, 1, {1}, [U(1, 1)]) }
  function S2(): Cache<int, int> { Cache(30, 0, 3, 2, {1, 2}, [U(1, 1), U(1, 2)]) }
  function S3(): Cache<int, int> { Cache(30, 0, 3, 3, {1, 2, 3}, [U(1, 1), U(1, 2), U(1, 3)]) }
  function G(): Cache<int, int> { Cache(30, 0, 3, 3, {1, 2, 3}, [U(1, 2), U(1, 3), U(2, 1)]) }
  function S4(): Cache<int, int> { Cache(30, 0, 3, 3, {1, 3, 4}, [U(1, 3), U(1, 4), U(2, 1)]) }

  lemma ValidS1()
    ensures Valid(S1())
  {
    assert Keys(S1().vals) == {1} by { assert S1().vals[0].key == 1; }
  }

  lemma ValidS2()
    ensures Valid(S2())
  {
    var s := S2().vals;
    assert Keys(s) == {1, 2} by { assert s[0].key == 1 && s[1].key == 2; }
    assert s[1..] == [U(1, 2)];
  }

  lemma ValidS3()
    ensures Valid(S3())
  {
    var s := S3().vals;
    assert Keys(s) == {1, 2, 3} by { assert s[0].key == 1 && s[1].key == 2 && s[2].key == 3; }
    assert s[1..] == [U(1, 2), U(1, 3)] && s[2..] == [U(1, 3)];
  }

  lemma ValidG()
    ensures Valid(G())
  {
    var s := G().vals;
    assert Keys(s) == {1, 2, 3} by { assert s[0].key == 2 && s[1].key == 3 && s[2].key == 1; }
    assert s[1..] == [U(1, 3), U(2, 1)] && s[2..] == [U(2, 1)];
  }

  /** Appending an entry for key `k` to `c`, as a `put` with room does. */
  function Appended(c: Cache<int, int>, k: int): Cache<int, int> {
    c.(curWeight := c.curWeight + 1, index := c.index + {k}, vals := c.vals + [U(1, k)])
  }

  lemma AppendedStates()
    ensures Appended(New<int, int>(3, 0), 1) == S1()
    ensures Appended(S1(), 2) == S2()
    ensures Appended(S2(), 3) == S3()
  {
    assert [] + [U(1, 1)] == S1().vals;
    assert S1().vals + [U(1, 2)] == S2().vals;
    assert S2().vals + [U(1, 3)] == S3().vals;
  }

  lemma PutFirst()
    ensures Put(New<int, int>(3, 0), 1, 10) == S1()
  {
    PutAppends(New<int, int>(3, 0), 1, 10, 1, 1);
    AppendedStates();
  }

  lemma PutSecond()
    ensures Valid(S1())
    ensures Put(S1(), 2, 20) == S2()
  {
    ValidS1();
    PutAppends(S1(), 2, 20, 1, 1);
    AppendedStates();
  }

  lemma PutThird()
    ensures Valid(S2())
    ensures Put(S2(), 3, 30) == S3()
  {
    ValidS2();
    PutAppends(S2(), 3, 30, 1, 1);
    AppendedStates();
  }

  lemma GetFirst()
    ensures Valid(S3())
    ensures Get(S3(), 1, 0) == (Some(10), G())
  {
    ValidS3();
    var c := S3();
    var t := [U(2, 1), U(1, 2), U(1, 3)];
    assert IndexOf(c.vals, 1) == 0;
    assert Timeout(0, 30, 0) == (0, 0);
    assert Bump(c, 0, 1).vals == t;
    assert DecreaseFreq(Bump(c, 0, 1), 0).vals == t;
    assert Find(t, 2, 2) == 3;
    assert Find(t, 1, 2) == 3;
    assert Find(t, 0, 2) == 3;
    assert Move(t, 0, 3) == G().vals;
  }

  /** The state after the eviction of the fourth `put`: key 2 is gone. */
  function Rest(): Cache<int, int> { Cache(30, 0, 3, 3, {1, 3}, [U(1, 3), U(2, 1)]) }

  lemma EvictFourth()
    ensures Valid(G())
    ensures Evict(Charge(G(), 1), 1) == Rest()
  {
    ValidG();
    var c := Charge(G(), 1);
    assert Pop(c) == Rest() by {
      assert G().vals[1..] == Rest().vals;
    }
    assert TotalWeight(Rest().vals) == 2 by { assert Rest().vals[1..] == [U(2, 1)]; }
    assert Evict(Rest(), 1) == Rest();
  }

  lemma PushFourth()
    ensures Push(Rest(), U(1, 4)) == S4()
  {
    var s := [U(1, 3), U(2, 1)];
    assert Find(s, 0, 1) == 1 by { assert Find(s, 1, 1) == 1; }
    var r := Insert(s, 1, U(1, 4));
    assert r == [r[0], r[1], r[2]];
  }

  lemma PutFourth()
    ensures Valid(G())
    ensures Put(G(), 4, 40) == S4()
  {
    EvictFourth();
    PutFresh(G(), 4, 40, 1, 1);
    PushFourth();
  }

  /**
   * Capacity 3, three unit-weight puts, one get of key 1, then a fourth put:
   * the entry evicted is key 2, the oldest of the lowest-frequency bucket.
   */
  lemma EvictsOldestOfLowestBucket()
    ensures Put(New<int, int>(3, 0), 1, 10) == S1()
    ensures Put(S1(), 2, 20) == S2()
    ensures Put(S2(), 3, 30) == S3()
    ensures Get(S3(), 1, 0) == (Some(10), G())
    ensures Put(G(), 4, 40) == S4()
    ensures S4().vals == [Entry(1, 1, 3, 30), Entry(1, 1, 4, 40), Entry(2, 1, 1, 10)]
  {
    PutFirst();
    PutSecond();
    PutThird();
    GetFirst();
    PutFourth();
  }
}

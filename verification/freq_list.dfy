/**
 * The cache's value list (`mVals` in lfu.h) as an immutable sequence of
 * entries, with the pure list operations the cache is built from: the
 * forward scan `find`, insertion before a position, the one-element
 * `splice`, and the frequency right-shift applied by decay.
 */
module FreqList {

  /** One list node: access frequency, caller-assigned weight, key and value. */
  datatype Entry<K, V> = Entry(freq: nat, weight: nat, key: K, value: V)

  // ---------------------------------------------------------------------
  // Views of a list
  // ---------------------------------------------------------------------

  /** Frequencies never decrease from head to tail. */
  ghost predicate Sorted<K, V>(s: seq<Entry<K, V>>) {
    forall i, j :: 0 <= i < j < |s| ==> s[i].freq <= s[j].freq
  }

  /** The set of keys stored in the list. */
  ghost function Keys<K, V>(s: seq<Entry<K, V>>): set<K> {
    set i | 0 <= i < |s| :: s[i].key
  }

  /** No key occurs twice. */
  ghost predicate UniqueKeys<K, V>(s: seq<Entry<K, V>>) {
    forall i, j :: 0 <= i < j < |s| ==> s[i].key != s[j].key
  }

  /** Sum of the weights of all entries. */
  ghost function TotalWeight<K, V>(s: seq<Entry<K, V>>): nat {
    if |s| == 0 then 0 else s[0].weight + TotalWeight(s[1..])
  }

  /**
   * The entry at `q` sits after every other entry whose frequency is at most
   * its own and before every entry whose frequency is strictly greater: it is
   * the newest member of its frequency bucket.
   */
  ghost predicate PlacedAfterPeers<K, V>(s: seq<Entry<K, V>>, q: nat)
    requires q < |s|
  {
    && (forall a :: 0 <= a < q ==> s[a].freq <= s[q].freq)
    && (forall b :: q < b < |s| ==> s[q].freq < s[b].freq)
  }

  // ---------------------------------------------------------------------
  // Positional edits
  // ---------------------------------------------------------------------

  /** The list with position `i` removed. */
  function Without<K, V>(s: seq<Entry<K, V>>, i: nat): (w: seq<Entry<K, V>>)
    requires i < |s|
    ensures |w| == |s| - 1
    ensures forall a :: 0 <= a < i ==> w[a] == s[a]
    ensures forall a :: i <= a < |w| ==> w[a] == s[a + 1]
  {
    seq(|s| - 1, a requires 0 <= a < |s| - 1 => if a < i then s[a] else s[a + 1])
  }

  /** `std::list::insert(pos, e)`: `e` placed immediately before position `p`. */
  function Insert<K, V>(s: seq<Entry<K, V>>, p: nat, e: Entry<K, V>): (r: seq<Entry<K, V>>)
    requires p <= |s|
    ensures |r| == |s| + 1 && r[p] == e
    ensures Without(r, p) == s
  {
    seq(|s| + 1, a requires 0 <= a < |s| + 1 => if a < p then s[a] else if a == p then e else s[a - 1])
  }

  /**
   * `std::list::splice(pos, list, it)` within one list: the element at `i` is
   * unlinked and relinked immediately before the element that was at `j`
   * (`j == |s|` is the end of the list), for a `j` after `i`.
   */
  function Move<K, V>(s: seq<Entry<K, V>>, i: nat, j: nat): (r: seq<Entry<K, V>>)
    requires i < j <= |s|
    ensures |r| == |s| && r[j - 1] == s[i]
    ensures Without(r, j - 1) == Without(s, i)
  {
    seq(|s|, a requires 0 <= a < |s| =>
      if a < i || j <= a then s[a] else if a < j - 1 then s[a + 1] else s[i])
  }

  // ---------------------------------------------------------------------
  // Scans
  // ---------------------------------------------------------------------

  /**
   * `find(from, freq)`: scanning forward from `from`, the position of the
   * first entry whose frequency is strictly greater than `f`, or `|s|` (the
   * list end) when there is none.
   */
  function Find<K, V>(s: seq<Entry<K, V>>, from: nat, f: nat): (r: nat)
    requires from <= |s|
    ensures from <= r <= |s|
    ensures forall k :: from <= k < r ==> s[k].freq <= f
    ensures r < |s| ==> f < s[r].freq
    decreases |s| - from
  {
    if from == |s| then |s|
    else if s[from].freq > f then from
    else Find(s, from + 1, f)
  }

  /** The node the key index points at: the first position holding key `k`. */
  function IndexOf<K(==), V>(s: seq<Entry<K, V>>, k: K): (i: nat)
    requires k in Keys(s)
    ensures i < |s| && s[i].key == k
    ensures forall a :: 0 <= a < i ==> s[a].key != k
  {
    if s[0].key == k then 0
    else
      assert k in Keys(s[1..]) by {
        var w :| 0 <= w < |s| && s[w].key == k;
        assert s[1..][w - 1].key == k;
      }
      1 + IndexOf(s[1..], k)
  }

  /** With unique keys, the node the index points at for `s[q].key` is `q` itself. */
  lemma IndexOfUnique<K, V>(s: seq<Entry<K, V>>, q: nat)
    requires q < |s|
    ensures s[q].key in Keys(s)
    ensures UniqueKeys(s) ==> IndexOf(s, s[q].key) == q
  {
  }

  // ---------------------------------------------------------------------
  // Decay
  // ---------------------------------------------------------------------

  /** Unsigned right shift `x >> n`: `n` floor-halvings. */
  function Shr(x: nat, n: nat): (r: nat)
    ensures r <= x
    ensures n > 0 && x > 0 ==> r < x
  {
    if n == 0 then x else Shr(x / 2, n - 1)
  }

  /** Every entry's frequency shifted right by `n`; nothing else changes. */
  function ShiftAll<K, V>(s: seq<Entry<K, V>>, n: nat): (r: seq<Entry<K, V>>)
    ensures |r| == |s|
    ensures forall a :: 0 <= a < |s| ==> r[a].freq == Shr(s[a].freq, n)
    ensures forall a :: 0 <= a < |s| ==>
              r[a].key == s[a].key && r[a].weight == s[a].weight && r[a].value == s[a].value
  {
    seq(|s|, a requires 0 <= a < |s| => s[a].(freq := Shr(s[a].freq, n)))
  }

  // ---------------------------------------------------------------------
  // Lemmas
  // ---------------------------------------------------------------------

  /** Right shift is monotone, so shifting every frequency keeps a list sorted. */
  lemma {:induction false} ShrMonotone(x: nat, y: nat, n: nat)
    requires x <= y
    ensures Shr(x, n) <= Shr(y, n)
  {
    if n > 0 {
      ShrMonotone(x / 2, y / 2, n - 1);
    }
  }

  /** Removing one entry removes exactly its key (and, with unique keys, only it). */
  lemma WithoutKeys<K, V>(s: seq<Entry<K, V>>, i: nat)
    requires i < |s|
    ensures Keys(s) == Keys(Without(s, i)) + {s[i].key}
  {
    var w := Without(s, i);
    forall k | k in Keys(s) ensures k in Keys(w) + {s[i].key} {
      var a :| 0 <= a < |s| && s[a].key == k;
      if a < i {
        assert w[a].key == k;
      } else if a > i {
        assert w[a - 1].key == k;
      }
    }
    forall k | k in Keys(w) ensures k in Keys(s) {
      var a :| 0 <= a < |w| && w[a].key == k;
      if a < i {
        assert s[a].key == k;
      } else {
        assert s[a + 1].key == k;
      }
    }
  }

  lemma WithoutUnique<K, V>(s: seq<Entry<K, V>>, i: nat)
    requires i < |s|
    ensures UniqueKeys(s) <==> UniqueKeys(Without(s, i)) && s[i].key !in Keys(Without(s, i))
  {
    var w := Without(s, i);
    if UniqueKeys(s) {
      forall a, b | 0 <= a < b < |w| ensures w[a].key != w[b].key {
        var a' := if a < i then a else a + 1;
        var b' := if b < i then b else b + 1;
        assert w[a] == s[a'] && w[b] == s[b'];
      }
      forall a | 0 <= a < |w| ensures w[a].key != s[i].key {
        var a' := if a < i then a else a + 1;
        assert w[a] == s[a'];
      }
    }
    if UniqueKeys(w) && s[i].key !in Keys(w) {
      forall a, b | 0 <= a < b < |s| ensures s[a].key != s[b].key {
        if a == i {
          assert s[b] == w[b - 1];
        } else if b == i {
          assert s[a] == w[a];
        } else {
          var a' := if a < i then a else a - 1;
          var b' := if b < i then b else b - 1;
          assert s[a] == w[a'] && s[b] == w[b'];
        }
      }
    }
  }

  lemma {:induction false} WithoutWeight<K, V>(s: seq<Entry<K, V>>, i: nat)
    requires i < |s|
    ensures TotalWeight(s) == TotalWeight(Without(s, i)) + s[i].weight
  {
    if i == 0 {
      assert Without(s, 0) == s[1..];
    } else {
      assert Without(s, i)[1..] == Without(s[1..], i - 1);
      WithoutWeight(s[1..], i - 1);
    }
  }

  /** A suffix holds no key the whole list does not hold. */
  lemma SuffixKeys<K, V>(s: seq<Entry<K, V>>, d: nat)
    requires d <= |s|
    ensures Keys(s[d..]) <= Keys(s)
  {
    forall k | k in Keys(s[d..]) ensures k in Keys(s) {
      var a :| 0 <= a < |s[d..]| && s[d..][a].key == k;
      assert s[d + a].key == k;
    }
  }

  /**
   * Two lists that differ only in one entry each, where the two entries share
   * key and weight, hold the same keys, the same uniqueness and the same total
   * weight.
   */
  lemma SameContents<K, V>(u: seq<Entry<K, V>>, q: nat, t: seq<Entry<K, V>>, i: nat)
    requires q < |u| && i < |t|
    requires Without(u, q) == Without(t, i)
    requires u[q].key == t[i].key && u[q].weight == t[i].weight
    ensures Keys(u) == Keys(t)
    ensures UniqueKeys(u) <==> UniqueKeys(t)
    ensures TotalWeight(u) == TotalWeight(t)
  {
    WithoutKeys(u, q);
    WithoutKeys(t, i);
    WithoutUnique(u, q);
    WithoutUnique(t, i);
    WithoutWeight(u, q);
    WithoutWeight(t, i);
  }

  lemma SortedWithout<K, V>(s: seq<Entry<K, V>>, i: nat)
    requires i < |s|
    ensures Sorted(s) ==> Sorted(Without(s, i))
  {
    var w := Without(s, i);
    if Sorted(s) {
      forall a, b | 0 <= a < b < |w| ensures w[a].freq <= w[b].freq {
        var a' := if a < i then a else a + 1;
        var b' := if b < i then b else b + 1;
        assert w[a] == s[a'] && w[b] == s[b'];
      }
    }
  }

  /** A list whose one entry at `q` is placed after its peers is sorted if the rest is. */
  lemma PlacedSorted<K, V>(u: seq<Entry<K, V>>, q: nat)
    requires q < |u|
    requires Sorted(Without(u, q))
    requires PlacedAfterPeers(u, q)
    ensures Sorted(u)
  {
    var w := Without(u, q);
    forall a, b | 0 <= a < b < |u| ensures u[a].freq <= u[b].freq {
      if a != q && b != q {
        var a' := if a < q then a else a - 1;
        var b' := if b < q then b else b - 1;
        assert u[a] == w[a'] && u[b] == w[b'];
      }
    }
  }

  /** Shifting keeps keys, weights, uniqueness and sortedness. */
  lemma ShiftAllContents<K, V>(s: seq<Entry<K, V>>, n: nat)
    ensures Keys(ShiftAll(s, n)) == Keys(s)
    ensures UniqueKeys(ShiftAll(s, n)) <==> UniqueKeys(s)
    ensures TotalWeight(ShiftAll(s, n)) == TotalWeight(s)
    ensures Sorted(s) ==> Sorted(ShiftAll(s, n))
  {
    var r := ShiftAll(s, n);
    forall k | k in Keys(s) ensures k in Keys(r) {
      var a :| 0 <= a < |s| && s[a].key == k;
      assert r[a].key == k;
    }
    forall k | k in Keys(r) ensures k in Keys(s) {
      var a :| 0 <= a < |r| && r[a].key == k;
      assert s[a].key == k;
    }
    ShiftAllWeight(s, n);
    if Sorted(s) {
      forall a, b | 0 <= a < b < |r| ensures r[a].freq <= r[b].freq {
        ShrMonotone(s[a].freq, s[b].freq, n);
      }
    }
  }

  lemma {:induction false} ShiftAllWeight<K, V>(s: seq<Entry<K, V>>, n: nat)
    ensures TotalWeight(ShiftAll(s, n)) == TotalWeight(s)
  {
    if |s| > 0 {
      assert ShiftAll(s, n)[1..] == ShiftAll(s[1..], n);
      ShiftAllWeight(s[1..], n);
    }
  }

  /** A shift by zero leaves the list as it is. */
  lemma ShiftAllZero<K, V>(s: seq<Entry<K, V>>)
    ensures ShiftAll(s, 0) == s
  {
  }

  lemma ShiftAllWithout<K, V>(s: seq<Entry<K, V>>, i: nat, n: nat)
    requires i < |s|
    ensures Without(ShiftAll(s, n), i) == ShiftAll(Without(s, i), n)
  {
  }

  /**
   * `find` never returns the node it starts from when asked for that node's own
   * frequency: no frequency is strictly greater than itself.
   */
  lemma FindSkipsStart<K, V>(s: seq<Entry<K, V>>, i: nat)
    requires i < |s|
    ensures Find(s, i, s[i].freq) > i
  {
  }

  /**
   * Insertion before the first strictly greater frequency: in a sorted list the
   * new entry lands after every entry of frequency at most its own and before
   * every greater one, and the list stays sorted.
   */
  lemma InsertPlaces<K, V>(s: seq<Entry<K, V>>, e: Entry<K, V>)
    ensures var p := Find(s, 0, e.freq);
            Sorted(s) ==> PlacedAfterPeers(Insert(s, p, e), p) && Sorted(Insert(s, p, e))
  {
    var p := Find(s, 0, e.freq);
    if Sorted(s) {
      InsertBetween(s, p, e);
    }
  }

  /** Inserting between the frequencies at most `e.freq` and the greater ones. */
  lemma InsertBetween<K, V>(s: seq<Entry<K, V>>, p: nat, e: Entry<K, V>)
    requires p <= |s| && Sorted(s)
    requires forall a :: 0 <= a < p ==> s[a].freq <= e.freq
    requires p < |s| ==> e.freq < s[p].freq
    ensures PlacedAfterPeers(Insert(s, p, e), p) && Sorted(Insert(s, p, e))
  {
    var u := Insert(s, p, e);
    var w := Without(u, p);
    assert w == s;
    forall b | p < b < |u| ensures u[p].freq < u[b].freq {
      assert u[b] == w[b - 1];
    }
    forall a | 0 <= a < p ensures u[a].freq <= u[p].freq {
      assert u[a] == w[a];
    }
    PlacedSorted(u, p);
  }

  /**
   * The repositioning done by `sort`: when every entry before `i` has a
   * frequency at most that of entry `i` and the other entries are sorted, the
   * splice before the first later entry of strictly greater frequency leaves
   * entry `i` after its peers and the whole list sorted.
   */
  lemma MovePlaces<K, V>(t: seq<Entry<K, V>>, i: nat)
    requires i < |t|
    requires Sorted(Without(t, i))
    requires forall a :: 0 <= a < i ==> t[a].freq <= t[i].freq
    ensures var j := Find(t, i, t[i].freq);
            j > i && PlacedAfterPeers(Move(t, i, j), j - 1) && Sorted(Move(t, i, j))
  {
    var j := Find(t, i, t[i].freq);
    MovePlacedAfterPeers(t, i, j);
  }

  lemma MovePlacedAfterPeers<K, V>(t: seq<Entry<K, V>>, i: nat, j: nat)
    requires i < j <= |t|
    requires Sorted(Without(t, i))
    requires forall a :: 0 <= a < i ==> t[a].freq <= t[i].freq
    requires forall k :: i <= k < j ==> t[k].freq <= t[i].freq
    requires j < |t| ==> t[i].freq < t[j].freq
    ensures PlacedAfterPeers(Move(t, i, j), j - 1)
    ensures Sorted(Move(t, i, j))
  {
    var u := Move(t, i, j);
    var w := Without(t, i);
    var q := j - 1;
    forall a | 0 <= a < q ensures u[a].freq <= u[q].freq {
      if a >= i {
        assert u[a] == t[a + 1];
      }
    }
    forall b | q < b < |u| ensures u[q].freq < u[b].freq {
      if b > j {
        assert w[j - 1] == t[j] && w[b - 1] == t[b];
      }
    }
    PlacedSorted(u, q);
  }
}

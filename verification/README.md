# Weighted LFU cache with frequency decay — a Dafny model

This project models `CLFU<KEY, VALUE>` from `lfu.h`. It is a cache with a weight
budget. It evicts the least-frequently-used entries first, and it ages every
frequency over time.

The cache keeps two structures in step:

- a value list (`mVals`) of entries `(freq, weight, key, value)`, ordered by
  non-decreasing frequency;
- a key index (`mIndex`) that maps each key to its list node.

It also tracks the current and maximum total weight, the decay interval, and the
time of the last decay.

The model is functional. A `Cache` record holds the list as a `seq<Entry>` and the
index as the set of its keys. A node is found by its key (`IndexOf`): with unique
keys that is the node the index points at. Every operation is a pure function of
the state, and the wall clock is an explicit `now` argument. The source's
default arguments are kept: a 30-second decay interval for `New`, weight 1
and frequency 1 for `Put`, and an increment of 1 for `Get`. The ghost predicate
`Lfu.Valid` is the object invariant:

- the list is sorted;
- keys are unique;
- the index's keys are exactly the list's keys;
- `curWeight` is the sum of the entry weights and does not exceed `maxWeight`;
- the decay interval is positive.

Files:

- `wrappers.dfy`: `Option`, used for the "not found" result of `get`.
- `freq_list.dfy` (module `FreqList`): entries and the list operations.
  - `Find` is the forward scan `find`.
  - `Insert` is `std::list::insert`.
  - `Move` is the one-element `splice`.
  - `ShiftAll` and `Shr` are the decay right-shift.
  - The lemmas state what these operations preserve.
- `lfu.dfy` (module `Lfu`): the cache state and `New`, `Pop`, `Evict` (the
  eviction loop of `put`), `Push`, `Put`, `Timeout`, `DecreaseFreq`, `Sort`,
  `Get` and `CheckOrder` (the ordering check in `print`).
- `lfu_scenarios.dfy`: concrete traces, including decay arithmetic and an eviction
  scenario.

Points where the model follows the code closely, including where the code and
its comments disagree:

- `get` raises the frequency (lfu.h:54) before the decay shift is applied inside
  `sort` (lfu.h:120).
- The comment at lfu.h:123 gives an example in descending order. The comment at
  lfu.h:133 says "backward". The code keeps the list ascending and scans forward.
- The early return at lfu.h:125-127 can never fire. `find`, called with a node's
  own frequency, never returns that node (`FindSkipsStart`). So the splice at
  lfu.h:130 is always performed, and it may leave the entry where it was.
  `Sort` therefore has no such branch.
- The comment at lfu.h:104 says that among equal frequencies `find` locates the
  frontmost one. The code returns the first entry of strictly greater
  frequency, so `push` places the new entry after all its peers (FIFO within a
  bucket, `InsertPlaces`).
- The comment at lfu.h:162 says every frequency shifts right by one bit. The
  code shifts by the amount `timeout` returns, up to 31 bits (`DecreaseFreq`).

## Model

| member | source | states |
|---|---|---|
| Lfu.New | lfu.h:27-31 | A new cache satisfies the object invariant. It is empty, its weight is 0 and its decay timestamp is the construction time. |
| Lfu.CheckOrder | lfu.h:34-43 | On unbounded frequencies, the assertion in `print` passes exactly when the list is sorted by frequency. That assertion requires each frequency to be at least the previous one, starting from 0. |
| Lfu.Get | lfu.h:45-60 | A missing key gives `None` and leaves the whole cache unchanged: no decay, no timestamp update, no reordering. A present key gives `Some` of that key's value. In both cases the cache stays valid, and the key set, current weight and maximum weight are unchanged. |
| Lfu.GetFound | lfu.h:45-60 | For a present key, `get` returns that key's value. The stored entry keeps its weight and value, and its new frequency is (old frequency + increment) shifted right by the decay amount. The timestamp follows `timeout`. |
| Lfu.GetReorders | lfu.h:45-60 | For a present key, the entry ends after every entry of frequency at most its own and before every greater one. Every other entry keeps its relative order and only has its frequency shifted. |
| Lfu.Bump | lfu.h:54 | Only entry `i`'s frequency grows, by `inc`. Its key, weight and value stay, removing it gives the same list as before, and the index and weights are unchanged. |
| Lfu.BumpThenSortValid | lfu.h:53-57 | Raising one entry's frequency and then running `sort` on it keeps the cache valid. |
| Lfu.BumpSortEntry | lfu.h:53-57 | After raising entry `i` and running `sort`, the entry found by its key has frequency (old + increment) shifted by the decay amount, and the same weight and value. |
| Lfu.BumpSortPlaces | lfu.h:53-57 | After raising entry `i` and running `sort`, that entry sits after all its peers, and removing it gives the other entries in their old order with decayed frequencies. |
| Lfu.Put | lfu.h:62-87 | A key already present makes `put` a no-op: the result equals the input. In every case the result satisfies the object invariant (list sorted, keys unique, index matching the list, weight within the maximum) and holds the key. |
| Lfu.PutInserts | lfu.h:62-87 | For a fresh key, the result holds the new entry after all its peers. Removing the new entry leaves a suffix of the old list. The dropped prefix is the shortest one that brings the total weight within the maximum. |
| Lfu.PutAppends | lfu.h:62-112 | A fresh key that fits without eviction, with a frequency at least every stored one, is appended at the tail. The index gains the key, and the weight grows by the entry's weight. |
| Lfu.Evict | lfu.h:71-76 | The eviction loop never pops an empty list when the pending weight fits the cache. It ends with the current weight equal to the remaining weights plus the pending weight, within the maximum. It has dropped the shortest prefix that makes room. The index only loses keys, and list and index stay consistent. |
| Lfu.Pop | lfu.h:91-97 | `pop` removes exactly the head, which in a sorted list has the lowest frequency. It subtracts the head's weight from the current weight. The index becomes the old index minus the head's key. The remaining entries keep their order, and list and index stay consistent. |
| Lfu.Push | lfu.h:102-112 | The index gains exactly the new key, and the weight is unchanged. On a consistent state with a fresh key, the list stays sorted with unique keys. The new entry then lands after every entry of frequency at most its own and before every greater one, and removing it gives back the old list. |
| Lfu.Sort | lfu.h:117-131 | Decay followed by the splice changes no key, no weight and no key uniqueness. The timestamp follows `timeout`. |
| Lfu.SortPlaces | lfu.h:117-131 | Suppose the repositioned entry is at or above every earlier entry and the rest is sorted. Then after decay and splice the list is sorted, the entry sits after all its peers, and the others keep their order with shifted frequencies. |
| FreqList.Find | lfu.h:136-146 | `find` returns the first position at or after the start whose frequency is strictly greater than the given one, or the list end. Every entry it skips has frequency at most the given one. |
| FreqList.FindSkipsStart | lfu.h:124-127 | Asked for a node's own frequency, `find` returns a position strictly after that node, so the early return in `sort` is dead. |
| FreqList.Insert | lfu.h:108 | The new entry sits at the insertion position, and removing it gives back the old list. |
| FreqList.InsertPlaces | lfu.h:105-108 | Inserting before the first strictly greater frequency keeps a sorted list sorted. The new entry comes after every entry with frequency at most its own (FIFO within a frequency bucket). |
| FreqList.MovePlaces | lfu.h:124-130 | The one-element splice before the first later strictly greater frequency puts the entry after all its peers and leaves the list sorted. |
| FreqList.Move | lfu.h:130 | The splice relinks entry `i` just before the entry that was at `j`: the moved entry ends at `j - 1`, and unlinking it there leaves exactly the list that unlinking it at `i` leaves, so every other entry keeps its relative order. |
| FreqList.IndexOf | lfu.h:48-53 | The lookup finds a position holding the key, and no earlier position holds it. |
| Lfu.Timeout | lfu.h:149-160 | Less than one interval elapsed gives shift 0 and keeps the timestamp. Otherwise the timestamp becomes `now` and the shift is the number of whole intervals elapsed, capped at 31. The shift is 0 exactly when less than one interval has passed. |
| Lfu.DecreaseFreq | lfu.h:163-177 | Every frequency is shifted right by the amount `timeout` returns; a zero shift changes nothing. Keys, weights, index and order are untouched. |
| Lfu.DecayKeepsValid | lfu.h:163-177 | Decay preserves the object invariant, in particular sortedness. |
| FreqList.ShrMonotone | lfu.h:175 | Right shift is monotone, which is why decay keeps the list sorted. |
| FreqList.Shr | lfu.h:175 | Shifting never increases a frequency, and a non-zero shift strictly decreases a non-zero one. |
| FreqList.ShiftAll | lfu.h:174-176 | Each entry's frequency becomes its right shift by `n`. Key, weight, value and position of every entry are unchanged. |
| FreqList.ShiftAllContents | lfu.h:174-176 | Shifting all frequencies keeps keys, key uniqueness and total weight, and keeps a sorted list sorted. |
| LfuScenarios.AgingExamples | lfu.h:149-160 | With a 30-second interval: 65 seconds give shift 2, 10 seconds give no shift and keep the timestamp, and 40 intervals are capped at 31. |
| LfuScenarios.EvictsOldestOfLowestBucket | lfu.h:62-97 | Capacity 3 with unit-weight puts of keys 1, 2 and 3, then a get of key 1, then a put of key 4. The put evicts key 2, the oldest entry of the lowest bucket. The list ends as 3, 4, 1 with frequencies 1, 1, 2 and weight 3. |

## Left out

- Console output in `print` and `decreaseFreq` (lfu.h:38, lfu.h:42, lfu.h:171) is I/O and is not modelled. Only the ordering assertion of `print` is kept, as `CheckOrder`, which returns a verdict instead of aborting.
- `std::time(0)` (lfu.h:29, lfu.h:151) is replaced by a `now` argument, so the wall clock is not modelled.
- `size_t` wrap-around is not modelled. This covers `mFreq += _freq` (lfu.h:54), `mCurWeight += _weight` (lfu.h:71) and the subtraction in `pop`. Frequencies and weights are unbounded naturals.
- The narrowing of `interval_t / mTimeOut` to `int` (lfu.h:158) is not modelled. The quotient is unbounded before the cap at 31.
- `std::list` iterators and `std::map` internals are not modelled. The index is represented by its key set, and nodes are located by key. Iterator identity and aliasing are not part of the behaviour.
- `mCurWeight` is never initialised by the constructor (lfu.h:27-31). The model starts it at 0.
- A missing key makes `get` return `0` (lfu.h:50). The model returns `None`.
- Lfu.Put: a fresh key whose weight exceeds `maxWeight` is excluded by the precondition. In the source, the eviction loop would empty the list and then `pop` an empty list (lfu.h:74-76, lfu.h:93-96), which is undefined behaviour.
- Lfu.Timeout: requires a positive interval, because the source divides by it (lfu.h:158).
- Lfu.New: requires a positive interval, and so does every operation through the object invariant. The source's constructor and `put` accept any interval; only `timeout` (lfu.h:158) divides by it, so a zero interval would divide by zero at the first `get` of a present key.
- Lfu.CheckOrder: does not model that `last_freq` is an `int` (lfu.h:36) assigned from a `size_t` frequency (lfu.h:40), so `ok` is exactly sortedness only on unbounded frequencies. With a 64-bit `size_t` and a 32-bit `int`, a frequency whose value modulo 2^32 is at least 2^31 narrows to a negative `last_freq`, which becomes a huge unsigned value in the comparison at lfu.h:39, so the sorted list [2^31, 2^31] fails the assertion. A frequency of 2^32 narrows to 0, so the unsorted list [2^32, 5] passes it. The model compares unbounded naturals.
- Lfu.Get: requires the object invariant. The source's lookup depends on index and list agreeing.
- FIFO order within a frequency bucket is stated per operation (`Push`, `Get`: the touched entry goes after its peers), not as a whole-lifetime invariant about insertion order. That is because a decay shift can merge buckets and a `get` moves an entry to the back of its new bucket, so insertion order is not what the code preserves.

/**
 * DEDISbench's duplicate-degree tracker (dedisbench-private/benchcore/faults/dedupDegree.c).
 *
 * A sorted counter array counts how often each key was seen. It keeps an array of
 * (counter, element) slots ordered by non-increasing counter, a key -> slot map, and one bucket
 * per counter value c >= 1 recording where the slots with counter c start and how many there
 * are. Seeing a new key appends a slot with counter 1 at the end; seeing a known key bumps its
 * counter and swaps its slot to the front of its old bucket, so the order is kept with one swap.
 * The tracker keeps four such arrays (duplicated blocks and offsets, for writes and for reads)
 * and two plain lists of unique blocks, and the fault planner picks the n-th most or least
 * duplicated block from them.
 */
module DedupDegree {
  import opened CTypes
  import opened Wrappers

  // ---------------------------------------------------------------------------------------------
  // Slots, buckets and the invariant

  /** The fields of `struct block_info` the tracker reads: the content id and the owning process. */
  datatype BlockInfo = BlockInfo(contId: u64, procid: int)

  /** What a slot counts: a block (keyed by its content id) or an offset (keyed by itself). */
  datatype Element = Block(info: BlockInfo) | Offset(offset: u64)

  /** `getKey_block_info` and `getKey_offset`. */
  function Key(e: Element): u64
  {
    match e
    case Block(bi) => bi.contId
    case Offset(o) => o
  }

  datatype CounterElement = CounterElement(counter: nat, element: Element)

  /** `struct counter_by_index_length`: bucket c-1 describes the slots whose counter is c. */
  datatype Bucket = Bucket(index: nat, size: nat)

  /** The three parts of `struct sorted_counter_array` as values. */
  datatype Counters = Counters(arr: seq<CounterElement>, buckets: seq<Bucket>, index: map<u64, nat>)

  /**
   * Bucket b is right for counter value `level`: the slots before b.index are exactly those with
   * a larger counter, and the b.size slots from b.index on are exactly those with this counter.
   */
  ghost predicate BucketHolds(arr: seq<CounterElement>, b: Bucket, level: nat)
  {
    b.index + b.size <= |arr| &&
    forall i | 0 <= i < |arr| ::
      (arr[i].counter > level <==> i < b.index) &&
      (arr[i].counter == level <==> b.index <= i < b.index + b.size)
  }

  /** Every counter is at least 1 and has a bucket. */
  ghost predicate CountersInRange(arr: seq<CounterElement>, bucketCount: nat)
  {
    forall i | 0 <= i < |arr| :: 1 <= arr[i].counter <= bucketCount
  }

  /** The key -> slot map points at the slot holding that key, and every slot's key is mapped. */
  ghost predicate IndexAgrees(arr: seq<CounterElement>, index: map<u64, nat>)
  {
    (forall k | k in index :: index[k] < |arr| && Key(arr[index[k]].element) == k) &&
    (forall i | 0 <= i < |arr| :: Key(arr[i].element) in index && index[Key(arr[i].element)] == i)
  }

  ghost predicate Inv(s: Counters)
  {
    |s.buckets| >= 1 &&
    CountersInRange(s.arr, |s.buckets|) &&
    (forall d | 0 <= d < |s.buckets| :: BucketHolds(s.arr, s.buckets[d], d + 1)) &&
    IndexAgrees(s.arr, s.index)
  }

  /** How often each key has been seen. */
  ghost function Counts(s: Counters): map<u64, nat>
    requires IndexAgrees(s.arr, s.index)
  {
    map k | k in s.index :: s.arr[s.index[k]].counter
  }

  /** The count of a key after one more sighting. */
  ghost function Bumped(counts: map<u64, nat>, k: u64): map<u64, nat>
  {
    counts[k := if k in counts then counts[k] + 1 else 1]
  }

  ghost predicate Sorted(arr: seq<CounterElement>)
  {
    forall i, j | 0 <= i < j < |arr| :: arr[i].counter >= arr[j].counter
  }

  /** The ordering the buckets describe: counters never increase along the array. */
  lemma InvSorted(s: Counters)
    requires Inv(s)
    ensures Sorted(s.arr)
  {
    forall i, j | 0 <= i < j < |s.arr|
      ensures s.arr[i].counter >= s.arr[j].counter
    {
      var c := s.arr[i].counter;
      assert BucketHolds(s.arr, s.buckets[c - 1], c);
    }
  }

  /** Facts about the bucket of slot p: it is non-empty, starts at or before p, and its first slot is mapped. */
  lemma OwnBucket(s: Counters, p: nat)
    requires Inv(s) && p < |s.arr|
    ensures 1 <= s.arr[p].counter <= |s.buckets|
    ensures var b := s.buckets[s.arr[p].counter - 1];
      b.index <= p < b.index + b.size &&
      s.arr[b.index].counter == s.arr[p].counter &&
      Key(s.arr[b.index].element) in s.index && s.index[Key(s.arr[b.index].element)] == b.index
    ensures Key(s.arr[p].element) in s.index && s.index[Key(s.arr[p].element)] == p
  {
    var c := s.arr[p].counter;
    assert BucketHolds(s.arr, s.buckets[c - 1], c);
  }

  /** The bucket one level up ends exactly where the bucket of slot p starts. */
  lemma NextBucketMeetsOwn(s: Counters, p: nat)
    requires Inv(s) && p < |s.arr| && s.arr[p].counter < |s.buckets|
    ensures var c := s.arr[p].counter;
      s.buckets[c].index + s.buckets[c].size == s.buckets[c - 1].index
  {
    var c := s.arr[p].counter;
    var own, up := s.buckets[c - 1], s.buckets[c];
    assert BucketHolds(s.arr, own, c);
    assert BucketHolds(s.arr, up, c + 1);
    assert s.arr[own.index].counter == c;
    if own.index > 0 {
      assert s.arr[own.index - 1].counter > c;
    }
  }

  /** With no bucket above it, the bucket of slot p starts at slot 0. */
  lemma TopBucketStartsAtZero(s: Counters, p: nat)
    requires Inv(s) && p < |s.arr| && s.arr[p].counter == |s.buckets|
    ensures s.buckets[s.arr[p].counter - 1].index == 0
  {
    var c := s.arr[p].counter;
    assert BucketHolds(s.arr, s.buckets[c - 1], c);
    assert s.arr[0].counter <= c;
  }

  // ---------------------------------------------------------------------------------------------
  // The operations as functions of the state

  /** `sorted_counter_array_add_element`: a slot with counter 1 at the end, bucket 0 one larger. */
  function Added(s: Counters, e: Element): (t: Counters)
    requires |s.buckets| >= 1
  {
    Counters(s.arr + [CounterElement(1, e)],
             s.buckets[0 := Bucket(s.buckets[0].index, s.buckets[0].size + 1)],
             s.index[Key(e) := |s.arr|])
  }

  /** The bucket for counter c+1 after slot q joined it from below. */
  function Grown(b: Bucket, q: nat): Bucket
  {
    if b.size == 0 then Bucket(q, 1) else Bucket(b.index, b.size + 1)
  }

  /** The array after the slots p and q, both with counter c, are swapped and the moved one bumped. */
  function Raised(arr: seq<CounterElement>, p: nat, q: nat): seq<CounterElement>
    requires p < |arr| && q < |arr|
  {
    arr[p := arr[q]][q := CounterElement(arr[p].counter + 1, arr[p].element)]
  }

  /**
   * `sorted_counter_array_incr_element` for slot p with counter c: swap it with the first slot q of
   * bucket c-1, shrink that bucket from the front, bump the counter, and grow bucket c, or open it
   * with this one slot when c was the largest counter.
   */
  function Promoted(s: Counters, p: nat): (t: Counters)
    requires Inv(s) && p < |s.arr|
  {
    OwnBucket(s, p);
    var c := s.arr[p].counter;
    var own := s.buckets[c - 1];
    var q := own.index;
    var lower := s.buckets[c - 1 := Bucket(q + 1, own.size - 1)];
    Counters(Raised(s.arr, p, q),
             if c == |s.buckets| then lower + [Bucket(0, 1)] else lower[c := Grown(lower[c], q)],
             s.index[Key(s.arr[p].element) := q][Key(s.arr[q].element) := p])
  }

  /** Promoted spelled out with the first slot q of the bumped slot's bucket. */
  lemma PromotedParts(s: Counters, p: nat)
    requires Inv(s) && p < |s.arr|
    ensures 1 <= s.arr[p].counter <= |s.buckets|
    ensures s.buckets[s.arr[p].counter - 1].index < |s.arr|
    ensures var c := s.arr[p].counter; var q := s.buckets[c - 1].index;
      var lower := s.buckets[c - 1 := Bucket(q + 1, s.buckets[c - 1].size - 1)];
      Promoted(s, p).arr == Raised(s.arr, p, q) &&
      Promoted(s, p).index == s.index[Key(s.arr[p].element) := q][Key(s.arr[q].element) := p] &&
      Promoted(s, p).buckets == if c == |s.buckets| then lower + [Bucket(0, 1)] else lower[c := Grown(lower[c], q)]
  {
    OwnBucket(s, p);
  }

  /**
   * The same step as written: the new top bucket is appended as (0, 1) and the `size++` that
   * follows applies to it too, so it records two slots where there is one.
   */
  function PromotedAsWritten(s: Counters, p: nat): (t: Counters)
    requires Inv(s) && p < |s.arr|
  {
    var t := Promoted(s, p);
    var c := s.arr[p].counter;
    if c == |s.buckets| then t.(buckets := t.buckets[c := Bucket(0, 2)]) else t
  }

  // ---------------------------------------------------------------------------------------------
  // The invariant is kept and the counts move by one

  /** Bumping slot p in place and then swapping it with slot q gives Raised. */
  lemma SwapOfBumped(arr: seq<CounterElement>, p: nat, q: nat)
    requires p < |arr| && q < |arr|
    ensures var bumped := arr[p := arr[p].(counter := arr[p].counter + 1)];
      bumped[p := bumped[q]][q := bumped[p]] == Raised(arr, p, q)
  {
  }

  /** A slot appended at the end with counter 1 leaves every bucket of a higher level right. */
  lemma AppendKeepsHigherBucket(arr: seq<CounterElement>, e: Element, b: Bucket, level: nat)
    requires BucketHolds(arr, b, level) && level >= 2
    ensures BucketHolds(arr + [CounterElement(1, e)], b, level)
  {
  }

  /** Bucket 0 ends at the end of the array, so the appended slot extends it. */
  lemma AppendExtendsFirstBucket(arr: seq<CounterElement>, e: Element, b: Bucket)
    requires BucketHolds(arr, b, 1) && forall i | 0 <= i < |arr| :: arr[i].counter >= 1
    ensures BucketHolds(arr + [CounterElement(1, e)], Bucket(b.index, b.size + 1), 1)
  {
    if |arr| > 0 {
      assert arr[|arr| - 1].counter >= 1;
    }
  }

  lemma AddedKeepsInv(s: Counters, e: Element)
    requires Inv(s) && Key(e) !in s.index
    ensures Inv(Added(s, e))
  {
    var t := Added(s, e);
    forall d | 0 <= d < |t.buckets| ensures BucketHolds(t.arr, t.buckets[d], d + 1) {
      assert BucketHolds(s.arr, s.buckets[d], d + 1);
      if d == 0 {
        AppendExtendsFirstBucket(s.arr, e, s.buckets[0]);
      } else {
        AppendKeepsHigherBucket(s.arr, e, s.buckets[d], d + 1);
      }
    }
    assert IndexAgrees(t.arr, t.index) by {
      forall k | k in t.index ensures t.index[k] < |t.arr| && Key(t.arr[t.index[k]].element) == k {
        if k != Key(e) {
          assert t.arr[s.index[k]] == s.arr[s.index[k]];
        }
      }
      forall i | 0 <= i < |t.arr|
        ensures Key(t.arr[i].element) in t.index && t.index[Key(t.arr[i].element)] == i
      {
        if i < |s.arr| {
          assert t.arr[i] == s.arr[i];
        }
      }
    }
  }

  /** A new key is counted once and every other count stays. */
  lemma AddedCounts(s: Counters, e: Element)
    requires Inv(s) && Key(e) !in s.index
    ensures Inv(Added(s, e))
    ensures Counts(Added(s, e)) == Bumped(Counts(s), Key(e))
  {
    AddedKeepsInv(s, e);
    var t := Added(s, e);
    forall k | k in s.index ensures t.arr[t.index[k]] == s.arr[s.index[k]] {
    }
  }

  /** The counters of Raised: unchanged except slot q, which goes up by one. */
  lemma RaisedCounters(arr: seq<CounterElement>, p: nat, q: nat)
    requires p < |arr| && q < |arr| && arr[p].counter == arr[q].counter
    ensures |Raised(arr, p, q)| == |arr|
    ensures Raised(arr, p, q)[q].counter == arr[q].counter + 1
    ensures forall i | 0 <= i < |arr| && i != q :: Raised(arr, p, q)[i].counter == arr[i].counter
  {
  }

  /** A bucket of any level other than c and c+1 does not notice slot q going from c to c+1. */
  lemma OtherBucketAfterRaise(arr: seq<CounterElement>, arr2: seq<CounterElement>, q: nat, b: Bucket, level: nat)
    requires |arr2| == |arr| && q < |arr| && arr2[q].counter == arr[q].counter + 1
    requires forall i | 0 <= i < |arr| && i != q :: arr2[i].counter == arr[i].counter
    requires BucketHolds(arr, b, level) && level != arr[q].counter && level != arr[q].counter + 1
    ensures BucketHolds(arr2, b, level)
  {
  }

  /** The bucket slot q leaves loses its first slot. */
  lemma LowerBucketAfterRaise(arr: seq<CounterElement>, arr2: seq<CounterElement>, q: nat, b: Bucket)
    requires |arr2| == |arr| && q < |arr| && arr2[q].counter == arr[q].counter + 1
    requires forall i | 0 <= i < |arr| && i != q :: arr2[i].counter == arr[i].counter
    requires BucketHolds(arr, b, arr[q].counter) && b.index == q
    ensures BucketHolds(arr2, Bucket(q + 1, b.size - 1), arr[q].counter)
  {
  }

  /** The bucket slot q joins, which ends at q, gains it as its last slot. */
  lemma UpperBucketAfterRaise(arr: seq<CounterElement>, arr2: seq<CounterElement>, q: nat, b: Bucket)
    requires |arr2| == |arr| && q < |arr| && arr2[q].counter == arr[q].counter + 1
    requires forall i | 0 <= i < |arr| && i != q :: arr2[i].counter == arr[i].counter
    requires BucketHolds(arr, b, arr[q].counter + 1) && b.index + b.size == q
    ensures BucketHolds(arr2, Grown(b, q), arr[q].counter + 1)
  {
  }

  /** When no counter exceeded c, slot 0 alone now holds c+1. */
  lemma NewTopBucketAfterRaise(arr: seq<CounterElement>, arr2: seq<CounterElement>, c: nat)
    requires |arr2| == |arr| && 0 < |arr| && arr[0].counter == c && arr2[0].counter == c + 1
    requires forall i | 0 <= i < |arr| && i != 0 :: arr2[i].counter == arr[i].counter
    requires forall i | 0 <= i < |arr| :: arr[i].counter <= c
    ensures BucketHolds(arr2, Bucket(0, 1), c + 1)
  {
  }

  /** After swapping slots p and q and their map entries, the map still points at each key's slot. */
  lemma SwapKeepsIndex(arr: seq<CounterElement>, index: map<u64, nat>, p: nat, q: nat, arr2: seq<CounterElement>)
    requires IndexAgrees(arr, index) && p < |arr| && q < |arr|
    requires |arr2| == |arr| && arr2[p].element == arr[q].element && arr2[q].element == arr[p].element
    requires forall i | 0 <= i < |arr| && i != p && i != q :: arr2[i].element == arr[i].element
    ensures IndexAgrees(arr2, index[Key(arr[p].element) := q][Key(arr[q].element) := p])
  {
    var index2 := index[Key(arr[p].element) := q][Key(arr[q].element) := p];
    forall k | k in index2 ensures index2[k] < |arr2| && Key(arr2[index2[k]].element) == k {
      if k != Key(arr[p].element) && k != Key(arr[q].element) {
        assert index[k] != p && index[k] != q;
      }
    }
  }

  lemma PromotedKeepsInv(s: Counters, p: nat)
    requires Inv(s) && p < |s.arr|
    ensures Inv(Promoted(s, p))
  {
    OwnBucket(s, p);
    var t := Promoted(s, p);
    var c := s.arr[p].counter;
    var own := s.buckets[c - 1];
    var q := own.index;
    RaisedCounters(s.arr, p, q);
    assert |t.arr| == |s.arr|;
    forall d | 0 <= d < |t.buckets| ensures BucketHolds(t.arr, t.buckets[d], d + 1) {
      if d == c - 1 {
        LowerBucketAfterRaise(s.arr, t.arr, q, own);
      } else if d == c {
        if c == |s.buckets| {
          TopBucketStartsAtZero(s, p);
          forall i | 0 <= i < |s.arr| ensures s.arr[i].counter <= c {
          }
          NewTopBucketAfterRaise(s.arr, t.arr, c);
        } else {
          NextBucketMeetsOwn(s, p);
          UpperBucketAfterRaise(s.arr, t.arr, q, s.buckets[c]);
        }
      } else {
        assert t.buckets[d] == s.buckets[d];
        OtherBucketAfterRaise(s.arr, t.arr, q, s.buckets[d], d + 1);
      }
    }
    assert CountersInRange(t.arr, |t.buckets|) by {
      if c == |s.buckets| {
        assert |t.buckets| == c + 1;
      }
    }
    SwapKeepsIndex(s.arr, s.index, p, q, t.arr);
  }

  /** Bumping slot p adds one to its key's count and to no other. */
  lemma PromotedCounts(s: Counters, p: nat)
    requires Inv(s) && p < |s.arr|
    ensures Inv(Promoted(s, p))
    ensures Counts(Promoted(s, p)) == Bumped(Counts(s), Key(s.arr[p].element))
  {
    PromotedKeepsInv(s, p);
    OwnBucket(s, p);
    SwapCounts(s, Promoted(s, p), p, s.buckets[s.arr[p].counter - 1].index);
  }

  /** Counts after slot p is swapped with slot q of the same counter and bumped. */
  lemma SwapCounts(s: Counters, t: Counters, p: nat, q: nat)
    requires IndexAgrees(s.arr, s.index) && IndexAgrees(t.arr, t.index)
    requires p < |s.arr| && q < |s.arr| && s.arr[p].counter == s.arr[q].counter
    requires t.arr == Raised(s.arr, p, q)
    requires t.index == s.index[Key(s.arr[p].element) := q][Key(s.arr[q].element) := p]
    ensures Counts(t) == Bumped(Counts(s), Key(s.arr[p].element))
  {
    var k := Key(s.arr[p].element);
    var before, after := Counts(s), Counts(t);
    assert after.Keys == before.Keys;
    forall j | j in before ensures after[j] == Bumped(before, k)[j] {
      if j != k && j != Key(s.arr[q].element) {
        assert s.index[j] != p && s.index[j] != q;
      }
    }
  }

  // ---------------------------------------------------------------------------------------------
  // The array in place

  class SortedCounterArray {
    var arr: seq<CounterElement>
    var buckets: seq<Bucket>
    var index: map<u64, nat>

    function State(): Counters
      reads this
    {
      Counters(arr, buckets, index)
    }

    ghost predicate Valid()
      reads this
    {
      Inv(State())
    }

    /** `new_sorted_counter_array`: no slots, and one empty bucket for counter 1 at slot 0. */
    constructor ()
      ensures Valid()
      ensures arr == [] && buckets == [Bucket(0, 0)] && index == map[]
    {
      arr := [];
      buckets := [Bucket(0, 0)];
      index := map[];
    }

    /**
     * `sorted_counter_array_swap2`: the slots p and q exchange their (counter, element) pairs, and
     * the map entries k1 and k2 exchange their slot numbers.
     */
    method Swap2(p: nat, q: nat, k1: u64, k2: u64)
      requires p < |arr| && q < |arr| && k1 in index && k2 in index
      modifies this
      ensures arr == old(arr)[p := old(arr)[q]][q := old(arr)[p]]
      ensures index == old(index)[k1 := old(index)[k2]][k2 := old(index)[k1]]
      ensures buckets == old(buckets)
    {
      var saved := arr[p];
      var savedIndex := index[k1];
      index := index[k1 := index[k2]];
      index := index[k2 := savedIndex];
      arr := arr[p := arr[q]];
      arr := arr[q := saved];
    }

    /** `sorted_counter_array_add_element` for a key not seen before. */
    method AddElement(e: Element)
      requires Valid() && Key(e) !in index
      modifies this
      ensures State() == Added(old(State()), e)
      ensures Valid()
      ensures Counts(State()) == Bumped(Counts(old(State())), Key(e))
    {
      AddedCounts(State(), e);
      arr := arr + [CounterElement(1, e)];
      buckets := buckets[0 := Bucket(buckets[0].index, buckets[0].size + 1)];
      index := index[Key(e) := |arr| - 1];
    }

    /**
     * The scan of `sorted_counter_array_incr_element`: from bucket c-1 (the bumped slot's old
     * counter) up, find the first non-empty bucket, swap slot p with its first slot q, and move
     * that bucket's start past q.
     */
    method SwapToBucketFront(p: nat, k: u64, c: nat) returns (q: nat)
      requires p < |arr| && k in index && index[k] == p
      requires 1 <= c <= |buckets| && buckets[c - 1].size > 0 && buckets[c - 1].index < |arr|
      requires Key(arr[buckets[c - 1].index].element) in index
      requires index[Key(arr[buckets[c - 1].index].element)] == buckets[c - 1].index
      modifies this
      ensures q == old(buckets)[c - 1].index
      ensures arr == old(arr)[p := old(arr)[q]][q := old(arr)[p]]
      ensures index == old(index)[k := q][Key(old(arr)[q].element) := p]
      ensures buckets == old(buckets)[c - 1 := Bucket(q + 1, old(buckets)[c - 1].size - 1)]
    {
      var counter := c - 1;
      var added := false;
      q := 0;
      while counter < |buckets| && !added
        invariant c - 1 <= counter <= |buckets|
        invariant !added ==> arr == old(arr) && buckets == old(buckets) && index == old(index)
        invariant !added ==> forall d | c - 1 <= d < counter :: old(buckets)[d].size == 0
        invariant added ==> counter == c && q == old(buckets)[c - 1].index
        invariant added ==> arr == old(arr)[p := old(arr)[q]][q := old(arr)[p]]
        invariant added ==> index == old(index)[k := q][Key(old(arr)[q].element) := p]
        invariant added ==> buckets == old(buckets)[c - 1 := Bucket(q + 1, old(buckets)[c - 1].size - 1)]
        decreases |buckets| - counter
      {
        if buckets[counter].size > 0 {
          q := buckets[counter].index;
          var k2 := Key(arr[q].element);
          Swap2(p, q, k, k2);
          buckets := buckets[counter := Bucket(buckets[counter].index + 1, buckets[counter].size - 1)];
          added := true;
        }
        counter := counter + 1;
      }
      assert added;
    }

    /**
     * The end of `sorted_counter_array_incr_element`, with the promoted slot at q holding counter
     * c+1: open a bucket for c+1 when c was the largest counter, otherwise grow that bucket by q.
     */
    method GrowBucketAbove(q: nat, c: nat)
      requires q < |arr| && arr[q].counter == c + 1 && c <= |buckets|
      modifies this
      ensures arr == old(arr) && index == old(index)
      ensures buckets == if c == |old(buckets)| then old(buckets) + [Bucket(0, 1)]
                         else old(buckets)[c := Grown(old(buckets)[c], q)]
    {
      var top := arr[q].counter;
      if top - 1 == |buckets| {
        buckets := buckets + [Bucket(0, 1)];
      } else if buckets[top - 1].size == 0 {
        buckets := buckets[top - 1 := Bucket(q, 1)];
      } else {
        buckets := buckets[top - 1 := Bucket(buckets[top - 1].index, buckets[top - 1].size + 1)];
      }
    }

    /**
     * `sorted_counter_array_incr_element` for the element in slot p: bump its counter, swap it to
     * the front of its old bucket, and grow the bucket above.
     */
    method IncrElement(p: nat)
      requires Valid() && p < |arr|
      modifies this
      ensures State() == Promoted(old(State()), p)
    {
      ghost var s := State();
      OwnBucket(s, p);
      var k := Key(arr[p].element);
      var c := arr[p].counter;
      arr := arr[p := arr[p].(counter := c + 1)];
      var q := SwapToBucketFront(p, k, c);
      SwapOfBumped(s.arr, p, q);
      GrowBucketAbove(q, c);
      PromotedParts(s, p);
      assert arr == Promoted(s, p).arr && index == Promoted(s, p).index;
    }

    /** `sorted_counter_array_incr`: count one more sighting of the element's key. */
    method Incr(e: Element)
      requires Valid()
      modifies this
      ensures Valid()
      ensures Counts(State()) == Bumped(Counts(old(State())), Key(e))
      ensures Key(e) !in old(index) ==> arr == old(arr) + [CounterElement(1, e)]
    {
      var k := Key(e);
      if k in index {
        ghost var s := State();
        OwnBucket(s, index[k]);
        IncrElement(index[k]);
        PromotedCounts(s, s.index[k]);
      } else {
        AddElement(e);
      }
    }
  }

  /** The bucket over-count: two keys seen once, then the second seen again. */
  lemma NewTopBucketOverCounted()
    ensures var a := Block(BlockInfo(7, -1));
      var b := Block(BlockInfo(9, -1));
      var s := Added(Added(Counters([], [Bucket(0, 0)], map[]), a), b);
      Inv(s) &&
      PromotedAsWritten(s, 1).buckets == [Bucket(1, 1), Bucket(0, 2)] &&
      !Inv(PromotedAsWritten(s, 1)) &&
      Promoted(s, 1).buckets == [Bucket(1, 1), Bucket(0, 1)]
  {
    var a := Block(BlockInfo(7, -1));
    var b := Block(BlockInfo(9, -1));
    var s0 := Counters([], [Bucket(0, 0)], map[]);
    assert Inv(s0);
    AddedKeepsInv(s0, a);
    var s1 := Added(s0, a);
    AddedKeepsInv(s1, b);
    var s := Added(s1, b);
    assert s.arr == [CounterElement(1, a), CounterElement(1, b)];
    assert s.buckets == [Bucket(0, 2)];
    OwnBucket(s, 1);
    var w := PromotedAsWritten(s, 1);
    assert w.arr[1].counter == 1;
    assert !BucketHolds(w.arr, w.buckets[1], 2);
  }

  // ---------------------------------------------------------------------------------------------
  // Selecting the n-th most or least duplicated block

  /** The slot a position in a non-empty array reads once it is clamped to the last slot. */
  function Clamp(nth: nat, len: nat): nat
    requires len > 0
  {
    if nth < len then nth else len - 1
  }

  /**
   * `get_nth_more_duplicate` as written: only nth > len is clamped to len-1 (in 32-bit
   * arithmetic), so nth == len, or any nth on an empty array, reads past the end (None).
   */
  function NthMoreAsWritten(arr: seq<CounterElement>, nth: u32): (r: Option<Element>)
    ensures r.Some? ==> r.value in set i | 0 <= i < |arr| :: arr[i].element
  {
    var n := if nth > |arr| then ToU32(|arr| - 1) else nth;
    if n < |arr| then Some(arr[n].element) else None
  }

  /** The selector with nth >= len clamped to the last slot. */
  function NthMore(arr: seq<CounterElement>, nth: u32): (r: Option<Element>)
    ensures r.Some? <==> |arr| > 0
    ensures r.Some? ==> r.value == arr[Clamp(nth, |arr|)].element
  {
    if |arr| == 0 then None else Some(arr[Clamp(nth, |arr|)].element)
  }

  /**
   * `get_nth_less_duplicate` as written: nth > len becomes 0 and the slot is len-1-nth in 32-bit
   * arithmetic, so nth == len, or an empty array, wraps to 2^32-1 and reads past the end.
   */
  function NthLessAsWritten(arr: seq<CounterElement>, nth: u32): (r: Option<Element>)
    ensures r.Some? ==> r.value in set i | 0 <= i < |arr| :: arr[i].element
  {
    var n := if nth > |arr| then 0 else nth;
    var slot := ToU32(|arr| - 1 - n);
    if slot < |arr| then Some(arr[slot].element) else None
  }

  /** The selector with nth >= len treated as 0, the least duplicated slot. */
  function NthLess(arr: seq<CounterElement>, nth: u32): (r: Option<Element>)
    ensures r.Some? <==> |arr| > 0
    ensures r.Some? ==> r.value == arr[|arr| - 1 - (if nth < |arr| then nth else 0)].element
  {
    if |arr| == 0 then None
    else Some(arr[|arr| - 1 - (if nth < |arr| then nth else 0)].element)
  }

  /** Within range the two selectors agree with their as-written forms. */
  lemma SelectorsAgreeInRange(arr: seq<CounterElement>, nth: u32)
    requires nth < |arr| < 0x1_0000_0000
    ensures NthMoreAsWritten(arr, nth) == NthMore(arr, nth)
    ensures NthLessAsWritten(arr, nth) == NthLess(arr, nth)
  {
    FitsUnchanged(|arr| - 1 - nth);
  }

  /** One slot and nth == 1: both selectors as written read past the end. */
  lemma SelectorsReadPastEnd(e: Element)
    ensures NthMoreAsWritten([CounterElement(1, e)], 1) == None
    ensures NthLessAsWritten([CounterElement(1, e)], 1) == None
    ensures NthMore([CounterElement(1, e)], 1) == Some(e)
    ensures NthLess([CounterElement(1, e)], 1) == Some(e)
  {
    assert ToU32(1 - 1 - 1) == 0xFFFF_FFFF;
  }

  /**
   * `get_nth_most_duplicate`: the element NthMore picks at 0 has the largest count of all keys,
   * and NthLess at 0 the smallest.
   */
  lemma MostAndLeastDuplicated(s: Counters)
    requires Inv(s) && |s.arr| > 0
    ensures Key(NthMore(s.arr, 0).value) in Counts(s) && Key(NthLess(s.arr, 0).value) in Counts(s)
    ensures forall k | k in Counts(s) ::
      Counts(s)[Key(NthLess(s.arr, 0).value)] <= Counts(s)[k] <= Counts(s)[Key(NthMore(s.arr, 0).value)]
  {
    InvSorted(s);
    var last := |s.arr| - 1;
    assert s.index[Key(s.arr[0].element)] == 0;
    assert s.index[Key(s.arr[last].element)] == last;
  }

  /** The n-th most duplicated element: no slot after it has a larger count, none before a smaller. */
  lemma NthMoreRank(s: Counters, nth: u32)
    requires Inv(s) && |s.arr| > 0
    ensures var i := Clamp(nth, |s.arr|);
      NthMore(s.arr, nth) == Some(s.arr[i].element) &&
      (forall j | i < j < |s.arr| :: s.arr[j].counter <= s.arr[i].counter) &&
      (forall j | 0 <= j < i :: s.arr[j].counter >= s.arr[i].counter)
  {
    InvSorted(s);
  }

  /** `get_nth_unique`: the nth unique block written, None past the end (unchecked in the source). */
  function NthUnique(unique: seq<BlockInfo>, nth: u32): (r: Option<BlockInfo>)
    ensures r.Some? <==> nth < |unique|
    ensures r.Some? ==> r.value in unique
  {
    if nth < |unique| then Some(unique[nth]) else None
  }

  // ---------------------------------------------------------------------------------------------
  // The tracker

  class DedupTracker {
    var dedupWrites: SortedCounterArray
    var dedupReads: SortedCounterArray
    var offsetWrites: SortedCounterArray
    var offsetReads: SortedCounterArray
    var uniqueWrites: seq<BlockInfo>
    var uniqueReads: seq<BlockInfo>

    ghost predicate Valid()
      reads this, dedupWrites, dedupReads, offsetWrites, offsetReads
    {
      dedupWrites != dedupReads && dedupWrites != offsetWrites && dedupWrites != offsetReads &&
      dedupReads != offsetWrites && dedupReads != offsetReads && offsetWrites != offsetReads &&
      dedupWrites.Valid() && dedupReads.Valid() && offsetWrites.Valid() && offsetReads.Valid()
    }

    /** `new_dedup_degree`: four empty counter arrays and two empty unique lists. */
    constructor ()
      ensures Valid()
      ensures fresh(dedupWrites) && fresh(dedupReads) && fresh(offsetWrites) && fresh(offsetReads)
      ensures dedupWrites.arr == [] && dedupReads.arr == [] && offsetWrites.arr == [] && offsetReads.arr == []
      ensures uniqueWrites == [] && uniqueReads == []
    {
      dedupWrites := new SortedCounterArray();
      dedupReads := new SortedCounterArray();
      offsetReads := new SortedCounterArray();
      offsetWrites := new SortedCounterArray();
      uniqueReads := [];
      uniqueWrites := [];
    }

    /** `dedup_degree_add_offset_write`: one more write at this offset. */
    method AddOffsetWrite(offset: u64)
      requires Valid()
      modifies offsetWrites
      ensures Valid()
      ensures Counts(offsetWrites.State()) == Bumped(Counts(old(offsetWrites.State())), offset)
    {
      offsetWrites.Incr(Offset(offset));
    }

    /** `dedup_degree_add_offset_read`: one more read at this offset. */
    method AddOffsetRead(offset: u64)
      requires Valid()
      modifies offsetReads
      ensures Valid()
      ensures Counts(offsetReads.State()) == Bumped(Counts(old(offsetReads.State())), offset)
    {
      offsetReads.Incr(Offset(offset));
    }

    /**
     * `dedup_degree_add_block_info_write`: a block owned by a process (procid >= 0) is unique and
     * listed; any other is counted by content id.
     */
    method AddBlockInfoWrite(bi: BlockInfo)
      requires Valid()
      modifies this, dedupWrites
      ensures Valid()
      ensures dedupWrites == old(dedupWrites) && dedupReads == old(dedupReads)
      ensures offsetWrites == old(offsetWrites) && offsetReads == old(offsetReads)
      ensures uniqueReads == old(uniqueReads)
      ensures bi.procid >= 0 ==> uniqueWrites == old(uniqueWrites) + [bi] && dedupWrites.State() == old(dedupWrites.State())
      ensures bi.procid < 0 ==>
        (uniqueWrites == old(uniqueWrites) &&
         Counts(dedupWrites.State()) == Bumped(Counts(old(dedupWrites.State())), bi.contId))
    {
      if bi.procid >= 0 {
        uniqueWrites := uniqueWrites + [bi];
      } else {
        dedupWrites.Incr(Block(bi));
      }
    }

    /** `dedup_degree_add_block_info_read`: the same split for reads. */
    method AddBlockInfoRead(bi: BlockInfo)
      requires Valid()
      modifies this, dedupReads
      ensures Valid()
      ensures dedupWrites == old(dedupWrites) && dedupReads == old(dedupReads)
      ensures offsetWrites == old(offsetWrites) && offsetReads == old(offsetReads)
      ensures uniqueWrites == old(uniqueWrites)
      ensures bi.procid >= 0 ==> uniqueReads == old(uniqueReads) + [bi] && dedupReads.State() == old(dedupReads.State())
      ensures bi.procid < 0 ==>
        (uniqueReads == old(uniqueReads) &&
         Counts(dedupReads.State()) == Bumped(Counts(old(dedupReads.State())), bi.contId))
    {
      if bi.procid >= 0 {
        uniqueReads := uniqueReads + [bi];
        return;
      }
      dedupReads.Incr(Block(bi));
    }
  }
}

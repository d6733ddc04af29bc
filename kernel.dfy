/** The kernel of linear::unordered_set and linear::unordered_map
    (linear.hpp, class kernel): a hash table with open addressing and
    linear probing over a power-of-two number of buckets, a load band
    [0.3, 0.7] that triggers doubling on insert and halving on erase, and
    backward-shift deletion instead of tombstones. */
module Linear {
  import opened Index
  import opened PowerOfTwo
  import opened Slots

  /** min_size_ = size_t(bucket_count_ * 0.3), in exact arithmetic: the
      largest count whose tenfold is at most three times n. The band it
      opens with the maximum load is never empty. */
  function MinSize(n: nat): (r: nat)
    ensures r * 10 <= n * 3 < r * 10 + 10
    ensures r <= MaxSize(n)
  {
    n * 3 / 10
  }

  /** max_size_ = size_t(bucket_count_ * 0.7), in exact arithmetic: the
      largest count whose tenfold is at most seven times n. */
  function MaxSize(n: nat): (r: nat)
    ensures r * 10 <= n * 7 < r * 10 + 10
    ensures r <= n
  {
    n * 7 / 10
  }

  /** The largest bucket count whose double still fits in size_t. */
  const MaxBucketCount: nat := SizeModulus / 2

  /** The maximum load leaves at least one bucket empty, so every probe
      ends. */
  lemma MaxSizeBelow(n: nat)
    requires n >= 1
    ensures MaxSize(n) < n
  {
  }

  /** Doubling the buckets raises the maximum load, so the insert that
      triggered the growth has room. */
  lemma MaxSizeGrows(n: nat)
    requires n >= 1
    ensures MaxSize(n) < MaxSize(2 * n)
  {
  }

  /** The shrink in erase fires only on a table of at least 64 buckets,
      and the values left fit under the maximum load of half as many. */
  lemma ShrinkFits(n: nat, size: nat)
    requires IsPow2(n) && size < MinSize(n) && size > 16
    ensures n >= 64 && IsPow2(n / 2) && size <= MaxSize(n / 2)
  {
    var w := Pow2Exponent(n);
    assert Pow2(6) == 64;
    if w < 6 {
      if w < 5 {
        Pow2Monotone(w, 5);
      }
      assert false;
    } else if w > 6 {
      Pow2Monotone(6, w);
    }
  }

  /** The hash table. V is the stored value type, K the key type; key
      extracts a value's key (identity for the set, first for the map) and
      hash is the hash functor. */
  class Kernel<V, K(==)> {
    const hash: K -> nat
    const key: V -> K
    var buckets: array<Option<V>>
    var bucketCount: nat
    var size: nat
    var minSize: nat
    var maxSize: nat

    /** The kernel's invariant: a power-of-two bucket vector whose thresholds
        follow its length, a size that counts the used buckets and stays
        under the maximum load, unique keys, and every value reachable by
        probing from its home bucket. */
    ghost predicate Valid()
      reads this, buckets
    {
      buckets.Length == bucketCount && IsPow2(bucketCount) && bucketCount <= MaxBucketCount
      && minSize == MinSize(bucketCount) && maxSize == MaxSize(bucketCount)
      && size <= maxSize && size == |Used(buckets[..])|
      && UniqueKeys(buckets[..], key) && ProbeRuns(buckets[..], hash, key)
    }

    /** The stored values. */
    ghost function Contents(): set<V>
      reads this, buckets
    {
      Values(buckets[..])
    }

    /** The keys of the stored values. */
    ghost function Keys(): set<K>
      reads this, buckets
    {
      KeysOf(buckets[..], key)
    }

    /** kernel(bucket_count, hash): bucket_count is rounded up to a power
        of two and every bucket starts empty. */
    constructor (requested: bv64, hash: K -> nat, key: V -> K)
      requires 1 <= requested <= 0x8000_0000_0000_0000
      ensures Valid() && Contents() == {} && Keys() == {}
      ensures bucketCount == ToNat(UpperPowerOfTwo(requested)) && size == 0
      ensures this.hash == hash && this.key == key && fresh(buckets)
    {
      UpperPowerOfTwoIsPow2(requested);
      ToNatPow2(UpperPowerOfTwo(requested));
      var n := ToNat(UpperPowerOfTwo(requested));
      this.hash := hash;
      this.key := key;
      bucketCount := n;
      buckets := new Option<V>[n](_ => None);
      size := 0;
      minSize := MinSize(n);
      maxSize := MaxSize(n);
      new;
      assert Used(buckets[..]) == {};
    }

    /** empty(). */
    function Empty(): (r: bool)
      reads this, buckets
      requires Valid()
      ensures r <==> Contents() == {}
    {
      Sizes(buckets[..], key);
      size == 0
    }

    /** size(): the number of stored values. */
    function Size(): (r: nat)
      reads this, buckets
      requires Valid()
      ensures r == |Contents()| && r == |Keys()|
    {
      Sizes(buckets[..], key);
      size
    }

    /** bucket_count(). */
    function BucketCount(): (r: nat)
      reads this, buckets
      requires Valid()
      ensures r == buckets.Length && IsPow2(r) && Size() <= MaxSize(r) < r
    {
      MaxSizeBelow(bucketCount);
      bucketCount
    }

    /** find(key, virtual_index): probe from the home bucket until the key
        or an empty bucket is met; bucket_count_ stands for "not found". */
    method FindFrom(k: K, start: nat) returns (r: nat)
      requires Valid() && start == hash(k) % bucketCount
      ensures r <= bucketCount
      ensures r < bucketCount ==> buckets[r].Some? && key(buckets[r].value) == k
      ensures r == bucketCount <==> k !in Keys()
    {
      var n := bucketCount;
      ghost var s := buckets[..];
      MaxSizeBelow(n);
      ghost var e := EmptySlot(s);
      var index := start;
      while buckets[index].Some?
        invariant index < n
        invariant Misses(s, key, k, start, index)
        decreases Dist(index, e, n)
      {
        if key(buckets[index].value) == k {
          return index;
        }
        StepArc(s, key, k, start, index, e);
        NextIsMod(index, n);
        index := IndexAdd(index, 1, n);
      }
      MissMeansAbsent(s, hash, key, k, index);
      return n;
    }

    /** find(key): the position of the value with key k, or the end
        position bucket_count() when there is none. */
    method Find(k: K) returns (r: nat)
      requires Valid()
      ensures r <= bucketCount
      ensures r < bucketCount ==> buckets[r].Some? && key(buckets[r].value) == k
      ensures r == bucketCount <==> k !in Keys()
    {
      r := FindFrom(k, IndexFromKey(hash(k), bucketCount));
    }

    /** count(key): 1 when a value with key k is stored, else 0. The whole
        probe run is scanned; unique keys keep the count at most 1. */
    method Count(k: K) returns (r: nat)
      requires Valid()
      ensures r == if k in Keys() then 1 else 0
    {
      var n := bucketCount;
      ghost var s := buckets[..];
      MaxSizeBelow(n);
      ghost var e := EmptySlot(s);
      ghost var p := 0;
      var start := IndexFromKey(hash(k), n);
      var index := start;
      r := 0;
      while buckets[index].Some?
        invariant index < n && r <= 1
        invariant forall m :: 0 <= m < n && InArc(start, index, m) ==> s[m].Some?
        invariant r == 0 ==> Misses(s, key, k, start, index)
        invariant r == 1 ==> 0 <= p < n && InArc(start, index, p) && s[p].Some? && key(s[p].value) == k
        decreases Dist(index, e, n)
      {
        if key(buckets[index].value) == k {
          r := r + 1;
          p := index;
        } else if r == 0 {
          StepArc(s, key, k, start, index, e);
        }
        StepRun(s, start, index, e);
        NextIsMod(index, n);
        index := IndexAdd(index, 1, n);
      }
      if r == 0 {
        MissMeansAbsent(s, hash, key, k, index);
      }
    }

    /** insert(value, virtual_index): grow first if the table is at its
        maximum load, then place the value in the first empty bucket of its
        probe. The key must be absent. */
    method InsertAt(v: V, start: nat) returns (r: nat)
      requires Valid() && key(v) !in Keys() && start == hash(key(v)) % bucketCount
      requires size < maxSize || 2 * bucketCount <= MaxBucketCount
      modifies this, buckets
      ensures Valid()
      ensures Contents() == old(Contents()) + {v} && Keys() == old(Keys()) + {key(v)}
      ensures size == old(size) + 1
      ensures r < bucketCount && buckets[r] == Some(v)
      ensures bucketCount == if old(size) == old(maxSize) then 2 * old(bucketCount) else old(bucketCount)
      ensures old(size) < old(maxSize) ==> buckets == old(buckets)
      ensures old(size) < old(maxSize) ==> old(buckets[r]).None? && buckets[..] == old(buckets[..])[r := Some(v)]
      ensures old(size) < old(maxSize) ==>
        forall m :: 0 <= m < bucketCount && InArc(start, r, m) ==> old(buckets[m]).Some?
      ensures old(size) == old(maxSize) ==> fresh(buckets)
      decreases if size == maxSize then 4 else 0
    {
      if size == maxSize {
        MaxSizeGrows(bucketCount);
        Pow2Doubles(bucketCount);
        Rehash(bucketCount * 2);
        r := InsertAt(v, IndexFromKey(hash(key(v)), bucketCount));
        return;
      }
      r := PlaceFree(v, start);
    }

    /** The body of insert(value, virtual_index) below the maximum load:
        walk from the home bucket to the nearest free bucket, wrapping past
        the end, and put the value there. */
    method PlaceFree(v: V, start: nat) returns (r: nat)
      requires Valid() && key(v) !in Keys() && start == hash(key(v)) % bucketCount
      requires size < maxSize
      modifies this, buckets
      ensures Valid() && buckets == old(buckets) && bucketCount == old(bucketCount)
      ensures Contents() == old(Contents()) + {v} && Keys() == old(Keys()) + {key(v)}
      ensures size == old(size) + 1
      ensures r < bucketCount && buckets[r] == Some(v) && old(buckets[r]).None?
      ensures buckets[..] == old(buckets[..])[r := Some(v)]
      ensures forall m :: 0 <= m < bucketCount && InArc(start, r, m) ==> old(buckets[m]).Some?
    {
      var n := bucketCount;
      ghost var s := buckets[..];
      MaxSizeBelow(n);
      ghost var e := EmptySlot(s);
      var freeDist := 0;
      var freeIndex := start;
      while buckets[freeIndex].Some?
        modifies {}
        invariant freeIndex < n && freeDist == Dist(start, freeIndex, n)
        invariant forall m :: 0 <= m < n && InArc(start, freeIndex, m) ==> s[m].Some?
        decreases Dist(freeIndex, e, n)
      {
        StepRun(s, start, freeIndex, e);
        NextIsMod(freeIndex, n);
        freeDist := freeDist + 1;
        freeIndex := IndexAdd(freeIndex, 1, n);
      }
      Place(s, hash, key, v, freeIndex);
      buckets[freeIndex] := Some(v);
      assert buckets[..] == s[freeIndex := Some(v)];
      size := size + 1;
      r := freeIndex;
    }

    /** insert(value): does nothing but report the position of the stored
        value when its key is present; otherwise inserts. The flag says
        whether the value was inserted. The doubling must fit in size_t. */
    method Insert(v: V) returns (r: nat, inserted: bool)
      requires Valid()
      requires size < maxSize || 2 * bucketCount <= MaxBucketCount
      modifies this, buckets
      ensures Valid()
      ensures inserted <==> key(v) !in old(Keys())
      ensures Contents() == if inserted then old(Contents()) + {v} else old(Contents())
      ensures Keys() == old(Keys()) + {key(v)}
      ensures r < bucketCount && buckets[r].Some? && key(buckets[r].value) == key(v)
      ensures inserted ==> buckets[r] == Some(v)
      ensures !inserted ==> buckets == old(buckets) && buckets[..] == old(buckets[..])
      ensures !inserted ==> size == old(size) && bucketCount == old(bucketCount)
      ensures size == old(size) + (if inserted then 1 else 0)
      ensures inserted ==> bucketCount == if old(size) == old(maxSize) then 2 * old(bucketCount) else old(bucketCount)
      ensures buckets == old(buckets) || fresh(buckets)
    {
      var index := IndexFromKey(hash(key(v)), bucketCount);
      var res := FindFrom(key(v), index);
      if res == buckets.Length {
        r := InsertAt(v, index);
        inserted := true;
      } else {
        r := res;
        inserted := false;
      }
    }

    /** insert(hint, value): the hint is ignored. */
    method InsertWithHint(hint: nat, v: V) returns (r: nat)
      requires Valid()
      requires size < maxSize || 2 * bucketCount <= MaxBucketCount
      modifies this, buckets
      ensures Valid()
      ensures Contents() == if key(v) in old(Keys()) then old(Contents()) else old(Contents()) + {v}
      ensures Keys() == old(Keys()) + {key(v)}
      ensures r < bucketCount && buckets[r].Some? && key(buckets[r].value) == key(v)
      ensures size == old(size) + (if key(v) in old(Keys()) then 0 else 1)
      ensures bucketCount == if key(v) !in old(Keys()) && old(size) == old(maxSize) then 2 * old(bucketCount) else old(bucketCount)
      ensures buckets == old(buckets) || fresh(buckets)
    {
      var inserted;
      r, inserted := Insert(v);
    }

    /** rehash(count) for a power-of-two count that holds every value:
        a fresh bucket vector of count buckets, thresholds for it, and every
        old value inserted again. The source stores upper_power_of_two(count)
        in bucket_count_; for a power of two that is count itself
        (UpperPowerOfTwoFixesPowers), so the model stores count directly. */
    method Rehash(count: nat)
      requires Valid() && IsPow2(count) && count <= MaxBucketCount && size <= MaxSize(count)
      modifies this
      ensures Valid() && bucketCount == count && fresh(buckets)
      ensures Contents() == old(Contents()) && Keys() == old(Keys()) && size == old(size)
      decreases 3
    {
      var oldBuckets := buckets;
      ghost var s := buckets[..];
      bucketCount := count;
      buckets := new Option<V>[count](_ => None);
      size := 0;
      minSize := MinSize(count);
      maxSize := MaxSize(count);
      assert Used(buckets[..]) == {};
      assert Contents() == {} && Keys() == {};
      ReinsertAll(oldBuckets);
    }

    /** The loop of rehash(count): insert every value of the old bucket
        vector, in bucket order, into the empty new one. */
    method ReinsertAll(oldBuckets: array<Option<V>>)
      requires Valid() && oldBuckets != buckets && Contents() == {} && Keys() == {} && size == 0
      requires UniqueKeys(oldBuckets[..], key) && |Used(oldBuckets[..])| <= maxSize
      modifies this, buckets
      ensures Valid() && bucketCount == old(bucketCount) && buckets == old(buckets)
      ensures Contents() == Values(oldBuckets[..]) && Keys() == KeysOf(oldBuckets[..], key)
      ensures size == |Used(oldBuckets[..])|
      decreases 2
    {
      ghost var s := oldBuckets[..];
      for index := 0 to oldBuckets.Length
        invariant Valid() && bucketCount == old(bucketCount) && buckets == old(buckets)
        invariant oldBuckets[..] == s
        invariant Contents() == Values(s[..index]) && Keys() == KeysOf(s[..index], key)
        invariant size == |Used(s[..index])|
      {
        PrefixStep(s, key, index);
        if oldBuckets[index].Some? {
          var v := oldBuckets[index].value;
          PrefixFresh(s, key, index);
          PrefixFewer(s, index);
          Reinsert(v);
        }
      }
      PrefixAll(s);
    }

    /** One step of the rehash loop: insert(value, index_from_value(value))
        into a table below its maximum load, which therefore never grows. */
    method Reinsert(v: V)
      requires Valid() && key(v) !in Keys() && size < maxSize
      modifies this, buckets
      ensures Valid() && bucketCount == old(bucketCount) && buckets == old(buckets)
      ensures Contents() == old(Contents()) + {v} && Keys() == old(Keys()) + {key(v)}
      ensures size == old(size) + 1
      decreases 1
    {
      var _ := InsertAt(v, IndexFromKey(hash(key(v)), bucketCount));
    }

    /** rehash(count) as written, for a count in 1 .. 2^63 whose rounded
        bucket count holds every value. The loop re-inserts the old values
        and stops after the first one as soon as the rounded bucket count
        differs from count, so for any count that is not a power of two at
        most one value survives. */
    method RehashAsWritten(count: bv64)
      requires Valid() && 1 <= count <= 0x8000_0000_0000_0000
      requires size <= MaxSize(ToNat(UpperPowerOfTwo(count)))
      modifies this
      ensures Valid() && bucketCount == ToNat(UpperPowerOfTwo(count)) && fresh(buckets)
      ensures UpperPowerOfTwo(count) == count ==> Contents() == old(Contents()) && size == old(size)
      ensures UpperPowerOfTwo(count) == count ==> Keys() == old(Keys())
      ensures UpperPowerOfTwo(count) != count ==> Contents() <= old(Contents())
      ensures UpperPowerOfTwo(count) != count ==> size == if old(size) == 0 then 0 else 1
    {
      var oldBuckets := buckets;
      ghost var s := buckets[..];
      var c := UpperPowerOfTwo(count);
      UpperPowerOfTwoIsPow2(count);
      ToNatPow2(c);
      bucketCount := ToNat(c);
      buckets := new Option<V>[bucketCount](_ => None);
      size := 0;
      minSize := MinSize(bucketCount);
      maxSize := MaxSize(bucketCount);
      assert Used(buckets[..]) == {};
      assert Contents() == {} && Keys() == {};
      ReinsertAsWritten(oldBuckets, c, count);
    }

    /** The loop of rehash(count) as written; c is the rounded count that
        bucket_count_ holds throughout, since no insert here grows. */
    method ReinsertAsWritten(oldBuckets: array<Option<V>>, c: bv64, count: bv64)
      requires Valid() && oldBuckets != buckets && Contents() == {} && Keys() == {} && size == 0
      requires ToNat(c) == bucketCount
      requires UniqueKeys(oldBuckets[..], key) && |Used(oldBuckets[..])| <= maxSize
      modifies this, buckets
      ensures Valid() && bucketCount == old(bucketCount) && buckets == old(buckets)
      ensures c == count ==> Contents() == Values(oldBuckets[..]) && size == |Used(oldBuckets[..])|
      ensures c == count ==> Keys() == KeysOf(oldBuckets[..], key)
      ensures c != count ==> Contents() <= Values(oldBuckets[..])
      ensures c != count ==> size == if |Used(oldBuckets[..])| == 0 then 0 else 1
    {
      ghost var s := oldBuckets[..];
      for index := 0 to oldBuckets.Length
        invariant Valid() && bucketCount == old(bucketCount) && buckets == old(buckets)
        invariant oldBuckets[..] == s
        invariant Contents() == Values(s[..index]) && Keys() == KeysOf(s[..index], key)
        invariant size == |Used(s[..index])| && (c != count ==> size == 0)
      {
        PrefixStep(s, key, index);
        if oldBuckets[index].Some? {
          var v := oldBuckets[index].value;
          PrefixFresh(s, key, index);
          PrefixFewer(s, index);
          Reinsert(v);
          if c != count {
            PrefixValues(s, index + 1);
            break;
          }
        }
      }
      PrefixAll(s);
    }

    /** rehash(count) with the evident intent: compare against the rounded
        count, so every value is re-inserted for any count whose rounded
        bucket count holds them all. */
    method RehashRounded(count: bv64)
      requires Valid() && 1 <= count <= 0x8000_0000_0000_0000
      requires size <= MaxSize(ToNat(UpperPowerOfTwo(count)))
      modifies this
      ensures Valid() && bucketCount == ToNat(UpperPowerOfTwo(count)) && fresh(buckets)
      ensures Contents() == old(Contents()) && Keys() == old(Keys()) && size == old(size)
    {
      UpperPowerOfTwoIsPow2(count);
      ToNatPow2(UpperPowerOfTwo(count));
      Rehash(ToNat(UpperPowerOfTwo(count)));
    }

    /** erase(key): find the key's bucket and empty it, then close the gap
        by moving back each later value of the run whose home bucket does
        not lie between the gap and its own bucket; finally halve the table
        if it fell below the minimum load. Returns how many values were
        erased. */
    method Erase(k: K) returns (r: nat)
      requires Valid()
      modifies this, buckets
      ensures Valid()
      ensures r == if k in old(Keys()) then 1 else 0
      ensures Keys() == old(Keys()) - {k}
      ensures Contents() == set v | v in old(Contents()) && key(v) != k
      ensures size == old(size) - r
      ensures bucketCount == if size < MinSize(old(bucketCount)) && size > 16 then old(bucketCount) / 2 else old(bucketCount)
      ensures bucketCount == old(bucketCount) ==> buckets == old(buckets)
      ensures r == 0 && bucketCount == old(bucketCount) ==> buckets[..] == old(buckets[..])
      ensures buckets == old(buckets) || fresh(buckets)
    {
      ghost var s0 := buckets[..];
      MaxSizeBelow(bucketCount);
      ghost var e := EmptySlot(s0);
      var index, erasedIndex, erasedCount := EraseProbe(k);
      if erasedCount == 1 {
        EmptyBucket(s0, key, erasedIndex);
        Remove(s0, hash, key, erasedIndex, e);
        // The probe stops on an empty bucket when nothing was erased, so
        // the shifting loop only runs after an erasure.
        ShiftBack(index, erasedIndex, erasedIndex, e);
      } else {
        AbsentKeepsAll(s0, key, k);
      }
      if size < minSize && size > 16 {
        ShrinkFits(bucketCount, size);
        Rehash(bucketCount / 2);
      }
      return erasedCount;
    }

    /** The second loop of erase(key): walk on from the bucket after the
        gap; a value whose home bucket does not lie cyclically in
        (gap, index] moves back into the gap, and its bucket becomes the new
        gap. Stops at the first empty bucket. */
    method ShiftBack(index0: nat, erased0: nat, ghost g0: nat, ghost e: nat)
      requires buckets.Length == bucketCount && IsPow2(bucketCount) && bucketCount <= MaxBucketCount
      requires GapInv(buckets[..], hash, key, g0, erased0, index0) && UniqueKeys(buckets[..], key)
      requires e < bucketCount && buckets[e].None? && e != erased0 && !InArc(g0, index0, e)
      modifies buckets
      ensures ProbeRuns(buckets[..], hash, key) && UniqueKeys(buckets[..], key)
      ensures Values(buckets[..]) == old(Values(buckets[..]))
      ensures KeysOf(buckets[..], key) == old(KeysOf(buckets[..], key))
      ensures |Used(buckets[..])| == old(|Used(buckets[..])|)
    {
      var n := bucketCount;
      ghost var s := buckets[..];
      var index := index0;
      var erasedIndex := erased0;
      while buckets[index].Some?
        invariant index < n && erasedIndex < n
        invariant GapInv(buckets[..], hash, key, g0, erasedIndex, index)
        invariant buckets[e].None? && e != erasedIndex && !InArc(g0, index, e)
        invariant Values(buckets[..]) == Values(s) && KeysOf(buckets[..], key) == KeysOf(s, key)
        invariant UniqueKeys(buckets[..], key) && |Used(buckets[..])| == |Used(s)|
        decreases Dist(index, e, n)
      {
        var h := IndexFromKey(hash(key(buckets[index].value)), n);
        if (erasedIndex < index && (h <= erasedIndex || h > index))
          || (erasedIndex > index && (h <= erasedIndex && h > index))
        {
          ghost var t := buckets[..];
          MoveKeeps(t, key, erasedIndex, index);
          StepGap(t, hash, key, g0, erasedIndex, index, e);
          buckets[erasedIndex] := buckets[index];
          buckets[index] := None;
          assert buckets[..] == t[erasedIndex := t[index]][index := None];
          erasedIndex := index;
        } else {
          StepKeep(buckets[..], hash, key, g0, erasedIndex, index, e);
        }
        NextIsMod(index, n);
        index := IndexAdd(index, 1, n);
      }
      ShiftDone(buckets[..], hash, key, g0, erasedIndex, index);
    }

    /** The first loop of erase(key): probe from the key's home bucket;
        on the key, empty its bucket and stop one past it. */
    method EraseProbe(k: K) returns (index: nat, erasedIndex: nat, erasedCount: nat)
      requires Valid()
      modifies this, buckets
      ensures buckets == old(buckets) && bucketCount == old(bucketCount)
      ensures minSize == old(minSize) && maxSize == old(maxSize)
      ensures index < bucketCount && erasedIndex < bucketCount
      ensures erasedCount == if k in old(Keys()) then 1 else 0
      ensures erasedCount == 0 ==> buckets[..] == old(buckets[..]) && size == old(size)
      ensures erasedCount == 0 ==> buckets[index].None?
      ensures erasedCount == 1 ==> old(buckets[erasedIndex]).Some? && key(old(buckets[erasedIndex]).value) == k
      ensures erasedCount == 1 ==> buckets[..] == old(buckets[..])[erasedIndex := None]
      ensures erasedCount == 1 ==> size == old(size) - 1 && index == Next(erasedIndex, bucketCount)
    {
      var n := bucketCount;
      ghost var s0 := buckets[..];
      MaxSizeBelow(n);
      ghost var e := EmptySlot(s0);
      var start := IndexFromKey(hash(k), n);
      index := start;
      erasedIndex := 0;
      erasedCount := 0;
      while buckets[index].Some?
        invariant index < n && buckets == old(buckets) && buckets[..] == s0
        invariant bucketCount == n && minSize == old(minSize) && maxSize == old(maxSize)
        invariant size == old(size) == |Used(s0)|
        invariant Misses(s0, key, k, start, index)
        decreases Dist(index, e, n)
      {
        if key(buckets[index].value) == k {
          assert index in Used(s0);
          buckets[index] := None;
          assert buckets[..] == s0[index := None];
          erasedIndex := index;
          erasedCount := 1;
          size := size - 1;
          NextIsMod(index, n);
          index := IndexAdd(index, 1, n);
          return;
        }
        StepArc(s0, key, k, start, index, e);
        NextIsMod(index, n);
        index := IndexAdd(index, 1, n);
      }
      MissMeansAbsent(s0, hash, key, k, index);
    }

    /** buckets_begin(): the end position for an empty table, otherwise the
        first occupied bucket, found by a scan that relies on one existing. */
    method BucketsBegin() returns (r: nat)
      requires Valid()
      ensures r == NextUsed(buckets[..], 0)
      ensures r <= bucketCount && (r == bucketCount <==> Contents() == {})
      ensures r < bucketCount ==> buckets[r].Some? && forall j :: 0 <= j < r ==> buckets[j].None?
    {
      ghost var s := buckets[..];
      NextUsedAtEnd(s, 0);
      UsedFromStart(s);
      Sizes(s, key);
      if size == 0 {
        return buckets.Length;
      }
      r := 0;
      while buckets[r].None?
        invariant r <= NextUsed(s, 0) < buckets.Length
        invariant NextUsed(s, r) == NextUsed(s, 0)
        decreases buckets.Length - r
      {
        r := r + 1;
      }
    }

    /** begin(): an iterator at the first occupied bucket. */
    method Begin() returns (it: Iterator<V>)
      requires Valid()
      ensures fresh(it) && it.slots == buckets && it.index == NextUsed(buckets[..], 0)
    {
      var index := BucketsBegin();
      it := new Iterator(index, buckets);
    }

    /** end(): an iterator one past the last bucket. */
    method End() returns (it: Iterator<V>)
      requires Valid()
      ensures fresh(it) && it.slots == buckets && it.index == bucketCount
    {
      it := new Iterator(buckets.Length, buckets);
    }

    /** A full traversal from begin() visits the occupied buckets in
        increasing order, each once, and takes size() steps. */
    lemma Traversal()
      requires Valid()
      ensures forall a, b :: 0 <= a < b < |Walk(buckets[..], 0)| ==> Walk(buckets[..], 0)[a] < Walk(buckets[..], 0)[b]
      ensures forall j :: j in Walk(buckets[..], 0) <==> j in Used(buckets[..])
      ensures |Walk(buckets[..], 0)| == size
    {
      var s := buckets[..];
      WalkSorted(s, 0);
      WalkCovers(s, 0);
      WalkLength(s, 0);
      UsedFromStart(s);
    }

    /** clear(), corrected: every bucket emptied, the bucket count and the
        thresholds kept, so the table stays usable. */
    method Clear()
      requires Valid()
      modifies this, buckets
      ensures Valid() && Contents() == {} && Keys() == {} && size == 0
      ensures bucketCount == old(bucketCount) && buckets == old(buckets)
    {
      for index := 0 to buckets.Length
        modifies buckets
        invariant forall j :: 0 <= j < index ==> buckets[j].None?
      {
        buckets[index] := None;
      }
      size := 0;
      assert Used(buckets[..]) == {};
      assert Contents() == {} && Keys() == {};
    }

    /** clear() as written: the bucket vector is emptied, so it has no
        buckets at all, while bucket_count_ keeps its old value. */
    method ClearAsWritten()
      requires Valid()
      modifies this
      ensures buckets.Length == 0 && bucketCount == old(bucketCount) && size == 0
      ensures !Valid()
    {
      buckets := new Option<V>[0];
      size := 0;
    }
  }

  /** An iterator: a position in one bucket vector; the end iterator sits
      at the vector's length. */
  class Iterator<V> {
    const slots: array<Option<V>>
    var index: nat

    constructor (index: nat, slots: array<Option<V>>)
      ensures this.index == index && this.slots == slots
    {
      this.index := index;
      this.slots := slots;
    }

    /** operator++: step at least once, then on over empty buckets until
        one is occupied or the end is reached; it never wraps. */
    method Increment()
      requires index < slots.Length
      modifies this
      ensures index == NextUsed(slots[..], old(index) + 1)
      ensures old(index) < index <= slots.Length
      ensures index < slots.Length ==> slots[index].Some?
      ensures forall j :: old(index) < j < index ==> slots[j].None?
    {
      index := index + 1;
      while index != slots.Length && slots[index].None?
        invariant old(index) < index <= slots.Length
        invariant NextUsed(slots[..], index) == NextUsed(slots[..], old(index) + 1)
        decreases slots.Length - index
      {
        index := index + 1;
      }
    }

    /** operator*: the value in the bucket the iterator points at, which is
        one of the stored values. */
    function Get(): (r: V)
      reads this, slots
      requires index < slots.Length && slots[index].Some?
      ensures r in Values(slots[..])
    {
      slots[index].value
    }
  }
}

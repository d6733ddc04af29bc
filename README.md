# Linear-probing hash table kernel, modelled in Dafny

This project models `linear::detail::kernel`, the class template in
`linear.hpp`. Both `linear::unordered_set` and `linear::unordered_map` are
built on it. The kernel is a hash table with open addressing and linear
probing:

- Its bucket vector always has a power-of-two number of buckets, so the
  index arithmetic uses the mask `& (bucket_count_ - 1)` instead of a modulo.
- A value goes into the first empty bucket at or after its home bucket,
  wrapping past the end.
- The table doubles when an insert finds it at its maximum load,
  `size_t(0.7 * bucket_count_)`.
- The table halves when an erase leaves fewer than
  `size_t(0.3 * bucket_count_)` values and more than 16.
- Erase uses backward-shift deletion, with no tombstones. After emptying
  the key's bucket, each later value of the run moves back into the gap
  when its home bucket does not lie cyclically in (gap, position].

The model has four modules:

- `Index` (`index.dfy`). The mask helpers on `size_t`, with the 64-bit
  wrap-around written out. It proves that masking with `n - 1` is the
  remainder modulo a power of two `n`.
- `PowerOfTwo` (`power_of_two.dfy`). `upper_power_of_two` on `bv64`,
  exactly as the bit trick computes it, plus a bridge from `bv64` to `nat`.
- `Slots` (`slots.dfy`). The bucket vector as a value: a `seq<Option<V>>`.
  It holds a slot-level specification of linear probing:
  - `ProbeRuns`: every stored value is reachable from its home bucket
    through occupied buckets.
  - `UniqueKeys`.
  - The gap invariant of the shift loop.
  - Lemmas for each loop step, and the traversal order of the iterator.
- `Linear` (`kernel.dfy`). The kernel itself as a class:
  - `Kernel` has the fields `buckets` (an array of `Option` slots),
    `bucketCount`, `size`, `minSize` and `maxSize`. Its methods update the
    fields in place and carry the source's loops with their invariants.
  - `Iterator` is a position in one bucket vector.

`Valid()` is the kernel's representation invariant:

- the bucket count is a power of two that equals the array length;
- the thresholds are recomputed from it;
- `size` counts the occupied buckets and is at most `maxSize`, which is
  below the bucket count;
- keys are unique;
- `ProbeRuns` holds.

Every public operation keeps `Valid()`, except `ClearAsWritten`, which
shows that `clear()` as written breaks it (see Findings). Each operation's
contract states its effect on the set of stored values `Contents()` and on
`Keys()`.

The stored value type `V` and the key type `K` are type parameters:

- `key: V -> K` plays the role of the key extractor. It is the identity
  for the set; for the map it is `first`.
- `hash: K -> nat` is the hash functor.
- Key equality is Dafny's `==`.

## Model

| member | source | states |
|---|---|---|
| Index.IndexFromKey | linear.hpp:537-541 | `hash & (bucket_count_ - 1)` is the hash modulo the power-of-two bucket count, so it is always below the bucket count |
| Index.IndexAdd | linear.hpp:543-547 | `(index + x) & (bucket_count_ - 1)`, computed on size_t with wrap-around, is `(index + x)` modulo the bucket count and lies below it |
| Index.IndexSub | linear.hpp:549-553 | `(index - x) & (bucket_count_ - 1)` on size_t is the non-negative remainder of `index - x` modulo the bucket count, as the source comment says |
| Index.MaskIsMod | linear.hpp:538-540 | for a power of two n, the bitwise and with n - 1 equals the remainder modulo n, the fact the mask helpers rely on |
| Index.Wrap | linear.hpp:546 | unsigned size_t arithmetic reduces modulo 2^64 and leaves in-range values unchanged |
| PowerOfTwo.SmearFillsBelow | linear.hpp:521-526 | the shift-or cascade (`Smear`) keeps every bit of its input, yields a block of low ones, and sets no bit above the highest bit of a non-zero input |
| PowerOfTwo.UpperPowerOfTwoIsPow2OrZero | linear.hpp:516-529 | for every size_t input `upper_power_of_two` returns a power of two or, when the increment wraps, zero |
| PowerOfTwo.UpperPowerOfTwoIsPow2 | linear.hpp:516-529 | for 1 <= x <= 2^63 the bit trick yields a power of two |
| PowerOfTwo.UpperPowerOfTwoIsAtLeast | linear.hpp:516-529 | for 1 <= x <= 2^63 the result is at least x |
| PowerOfTwo.UpperPowerOfTwoIsLeast | linear.hpp:516-529 | for 2 <= x <= 2^63 half the result is below x, so no smaller power of two is at least x: the result is the least power of two that is at least x |
| PowerOfTwo.UpperPowerOfTwoFixesPowers | linear.hpp:516-529 | a power of two is returned unchanged |
| PowerOfTwo.UpperPowerOfTwoMovesNonPowers | linear.hpp:516-529 | in range, the result equals x exactly when x is a power of two; 3 is rounded to 4 |
| PowerOfTwo.UpperPowerOfTwoWraps | linear.hpp:520-527 | x = 0 and every x above 2^63 wrap around to 0 |
| PowerOfTwo.ToNatPow2 | linear.hpp:77 | a bv64 power of two is a power of two as a natural number, at most 2^63 |
| Linear.MinSize | linear.hpp:80 | the minimum load (also recomputed at linear.hpp:353) is the truncation of 0.3 times the bucket count, never above the maximum load |
| Linear.MaxSize | linear.hpp:81 | the maximum load (also recomputed at linear.hpp:354) is the truncation of 0.7 times the bucket count, never above the bucket count |
| Linear.MaxSizeBelow | linear.hpp:80-81 | the maximum load of a non-empty table is below its bucket count, so an empty bucket always exists and every probe ends |
| Linear.MaxSizeGrows | linear.hpp:611-614 | doubling the bucket count raises the maximum load, so the insert retried after growth finds room |
| Linear.ShrinkFits | linear.hpp:252-254 | when erase shrinks, the table has at least 64 buckets, half as many is still a power of two, and the values left fit under half the maximum load |
| Linear.Kernel.constructor | linear.hpp:62-85 | the bucket count is `upper_power_of_two(bucket_count)`, the bucket vector is newly allocated, every bucket is empty, the size is 0 and the invariant holds |
| Linear.Kernel.Empty | linear.hpp:184-186 | true exactly when no value is stored |
| Linear.Kernel.Size | linear.hpp:188-190 | equals the number of stored values and the number of stored keys |
| Linear.Kernel.BucketCount | linear.hpp:303-305 | the length of the bucket vector, a power of two, with the size at most the maximum load and the maximum load below it |
| Linear.Kernel.FindFrom | linear.hpp:637-651 | returns either a bucket holding the key or bucket_count_; bucket_count_ is returned exactly when the key is absent |
| Linear.Kernel.Find | linear.hpp:293-299 | probing from the key's home bucket, the same two outcomes as the private find |
| Linear.Kernel.Count | linear.hpp:261-277 | 1 when the key is stored and 0 otherwise, scanning the whole probe run |
| Linear.Kernel.InsertAt | linear.hpp:608-633 | at maximum load the table first doubles; afterwards the value is stored, the size grows by one, and the value is the only new one. Without growth the value lands in the first empty bucket reached from the home bucket, and no other bucket changes |
| Linear.Kernel.PlaceFree | linear.hpp:616-632 | the value is stored in the first empty bucket on the circular walk from its home bucket; every bucket passed over was occupied; only that bucket changes; the size grows by one |
| Linear.Kernel.Insert | linear.hpp:583-594 | on a present key: returns that key's bucket and false, with buckets, size and bucket count unchanged. On an absent key: returns true and the value's bucket, the value is added and the size grows by one, and the bucket count doubles exactly when the table was at its maximum load. Either way the key is afterwards stored, and the bucket vector is the old one or a newly allocated one |
| Linear.Kernel.InsertWithHint | linear.hpp:596-603 | the hint is ignored: the values, keys, size and bucket count change as for insert(value), the bucket vector is the old one or a newly allocated one, and the result is the bucket that holds the value's key |
| Linear.Kernel.Rehash | linear.hpp:343-368 | for a power-of-two count that holds every value: the bucket count becomes count, the thresholds are recomputed, the bucket vector is fresh, and the stored values, keys and size are unchanged |
| Linear.Kernel.ReinsertAll | linear.hpp:356-367 | re-inserting every occupied old bucket, in bucket order, into the empty new table stores exactly the old values and keys, with the size equal to the number of old occupied buckets |
| Linear.Kernel.Reinsert | linear.hpp:362-363 | one re-insert below the maximum load adds the value and its key, grows the size by one, and never grows the table |
| Linear.Kernel.RehashAsWritten | linear.hpp:343-368 | the bucket count becomes `upper_power_of_two(count)`. When that equals count, every value and key is kept; otherwise the loop stops after the first re-insert and at most one value survives |
| Linear.Kernel.ReinsertAsWritten | linear.hpp:357-367 | the as-written loop keeps every old value and key when the rounded count equals count, and otherwise keeps a subset of size min(1, old size) |
| Linear.Kernel.RehashRounded | linear.hpp:343-368 | rehash compared against the rounded count keeps every value, key and the size for any count in 1 .. 2^63 whose rounded count holds them |
| Linear.Kernel.Erase | linear.hpp:207-257 | returns 1 when the key was stored and 0 otherwise. The key is removed and every other value is kept; the size drops by the result; the invariant, including reachability after the shift pass, holds. The bucket count halves exactly when size < min_size_ and size > 16. An absent key without shrinking leaves every bucket unchanged. The bucket vector is the old one, or a newly allocated one after a shrink |
| Linear.Kernel.EraseProbe | linear.hpp:209-227 | the first loop empties the key's bucket when the key is present (size drops by one, scan continues after it); when it is absent nothing changes and the probe stops on an empty bucket |
| Linear.Kernel.ShiftBack | linear.hpp:229-250 | starting from the gap state after emptying a bucket, the shift loop restores reachability of every value while keeping the values, keys, unique keys and occupied count |
| Linear.Kernel.BucketsBegin | linear.hpp:557-566 | returns the first occupied bucket, or the vector's size exactly when the table is empty |
| Linear.Kernel.Begin | linear.hpp:158-160 | an iterator on the bucket vector at the first occupied bucket |
| Linear.Kernel.End | linear.hpp:170-172 | an iterator on the bucket vector at its size |
| Linear.Kernel.Traversal | linear.hpp:458-466 | a full traversal from begin visits the occupied buckets in strictly increasing order, each exactly once, in size() steps |
| Linear.Kernel.Clear | linear.hpp:194-203 | corrected clear: every bucket is emptied, the bucket count is kept, size is 0 and the invariant holds |
| Linear.Kernel.ClearAsWritten | linear.hpp:194-203 | clear as written leaves a bucket vector with no buckets while bucket_count_ keeps its old value, which breaks the invariant |
| Linear.Iterator.constructor | linear.hpp:484-489 | an iterator records a position and a bucket vector |
| Linear.Iterator.Increment | linear.hpp:458-466 | operator++ moves to the next occupied bucket strictly after the current one, or to the end; it never wraps and skips only empty buckets |
| Linear.Iterator.Get | linear.hpp:442-448 | dereferencing an iterator at an occupied bucket yields one of the stored values |
| Slots.MissMeansAbsent | linear.hpp:641-650 | under the probing invariant, a probe that meets an empty bucket without the key proves the key absent |
| Slots.Place | linear.hpp:619-630 | storing a new key in the first empty bucket of its probe keeps reachability and unique keys, and adds exactly that value, key and bucket |
| Slots.EmptyBucket | linear.hpp:216-221 | emptying the bucket of a key removes exactly that key and its value |
| Slots.Remove | linear.hpp:216-229 | after emptying a bucket, the state at the start of the shift loop satisfies the gap invariant |
| Slots.StepGap | linear.hpp:231-247 | a move under the source's condition keeps the gap invariant with the moved-from bucket as the new gap |
| Slots.StepKeep | linear.hpp:231-236 | a value whose home bucket lies in (gap, position] stays, and the gap invariant still holds one step on |
| Slots.MoveKeeps | linear.hpp:238-245 | a move keeps the values, keys, unique keys and the number of occupied buckets |
| Slots.ShiftDone | linear.hpp:229 | when the shift loop meets an empty bucket, every value is reachable again |
| Slots.AbsentKeepsAll | linear.hpp:213-227 | erasing an absent key removes nothing |
| Slots.Sizes | linear.hpp:188-190 | with unique keys, the number of values and of keys equals the number of occupied buckets |
| Slots.NextUsed | linear.hpp:460-464 | the stop position of the skip loop: the first occupied bucket at or after i, or the end, with only empty buckets in between |
| Slots.NextUsedAtEnd | linear.hpp:559-560 | from i, the skip stops at the end exactly when nothing at or after i is occupied |
| Slots.WalkSorted | linear.hpp:458-466 | successive iterator positions increase strictly and stay in range |
| Slots.WalkCovers | linear.hpp:458-466 | the positions visited are exactly the occupied ones |
| Slots.WalkLength | linear.hpp:458-466 | the number of positions visited is the number of occupied buckets |

## Left out

- Floating-point load factors. `load_factor`, the `min_load_factor`/`max_load_factor` getters and setters and `reserve` (linear.hpp:309-341, 370-373) are not modelled. The thresholds are the fixed 0.3 and 0.7, written as the integers `n * 3 / 10` and `n * 7 / 10`. For power-of-two bucket counts up to 2^23 these agree with `size_t(n * 0.3f)` and `size_t(n * 0.7f)`. From 2^24 buckets on, the float error can move the truncated product past an integer, so the two can differ.
- `operator[]` (linear.hpp:281-289) is not modelled. It does not insert on a missing key; instead it reads bucket `bucket_count_`, one past the end.
- Copy and move constructors, swap, assignment, the allocator and the observers (linear.hpp:87-154, 377-387) are not modelled. They are ownership plumbing. Raw-storage placement new and destructor calls become `Option` slots.
- The `unordered_set` and `unordered_map` wrappers (linear.hpp:656-695) are not modelled. They only pick the key extractor, which here is the parameter `key`.
- The const `begin`/`end` overloads, `cbegin`/`cend`, iterator copy and assignment, `operator->`, post-increment and `operator==`/`operator!=` (linear.hpp:162-168, 174-180, 427-440, 450-456, 468-481) are not modelled. They only copy or compare the position and the vector pointer.
- Hash values are `nat`. A `size_t` hash is one of those, so masking it produces the same bucket.
- Linear.Kernel.constructor: requires 1 <= bucket_count <= 2^63. The source accepts 0 or larger counts, but `upper_power_of_two` then wraps to 0 (proved in `PowerOfTwo.UpperPowerOfTwoWraps`), and a table with no buckets is unusable.
- Linear.Kernel.Insert: requires that a doubling would still fit in size_t, so `size < maxSize || 2 * bucketCount <= 2^63`. The source would overflow `bucket_count_*2` to 0.
- Linear.Kernel.InsertAt: the same size_t precondition as Insert.
- Linear.Kernel.InsertWithHint: the same size_t precondition as Insert.
- Linear.Kernel.Reinsert: takes the hash from the intact old value. At linear.hpp:362-363 the value is moved into a by-value parameter and the hash is taken from the same value in one call. C++ leaves the order of the two argument initializations unspecified, so the hash may be computed from a moved-from key. The model does not capture that order.
- Linear.Kernel.Rehash: only power-of-two counts that hold every value, as at linear.hpp:253 and 612. For the recursive rehash that a too-small count triggers, see the next line.
- Linear.Kernel.RehashAsWritten: requires 1 <= count <= 2^63 and that the rounded count holds every value. Outside that range `upper_power_of_two` wraps to 0 (linear.hpp:520-527), so max_size_ becomes 0. `rehash(0)`, reachable through `reserve(0)` (linear.hpp:370-373), then leaves a table with no buckets. On a non-empty table the re-insert meets size_ == max_size_ == 0 and calls `rehash(0)` again without end (linear.hpp:611-613). The recursive growth that the second requirement excludes would also end the loop through the break at linear.hpp:365 and drop the remaining values; that path is not modelled.
- Linear.Kernel.RehashRounded: the same two requirements as RehashAsWritten, for the same reasons.
- Linear.Kernel.Count: models the evident intent of `count`, whose body does not compile. It increments a `const` local and returns the function's own name.
- Linear.Kernel.Find: returns the bucket position rather than an iterator object.
- Linear.Kernel.Erase: the shrink check also runs when the key was absent, as in the source. The contract states that case instead of excluding it.

## Findings

| source | as written | input that shows it | evidently intended | confidence | as-written member | corrected member |
|---|---|---|---|---|---|---|
| linear.hpp:365 | the loop breaks when `bucket_count_ != count`, comparing the rounded bucket count with the unrounded argument | `rehash(3)` on a table holding 2 values: the count becomes 4, and the loop stops after re-inserting the first value, so 1 value is lost | compare with the rounded count, so that only a recursive rehash ends the loop | not executed | Linear.Kernel.RehashAsWritten | Linear.Kernel.RehashRounded |
| linear.hpp:194-203 | every bucket's value is destroyed whether or not it holds one, then `buckets_.clear()` leaves a vector of 0 buckets while `bucket_count_` keeps its old value | `clear()` on any table, then `insert(v)`: `index_from_key` yields an index below the old bucket count, which indexes an empty vector | empty each occupied bucket, keeping the bucket count | not executed | Linear.Kernel.ClearAsWritten | Linear.Kernel.Clear |

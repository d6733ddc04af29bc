/** The bucket vector of the kernel as a value: a sequence of slots, each
    empty or holding one value, and the facts about linear probing that
    the kernel's loops rely on (linear.hpp, FIND/INSERT/ERASE). Positions
    are walked forward with wrap-around, so "between" is circular. */
module Slots {

  datatype Option<T> = None | Some(value: T)

  /** m lies on the circular half-open arc [a, b): walking forward from a,
      m is met before b. The arc [a, a) is empty. */
  predicate InArc(a: int, b: int, m: int) {
    if a <= b then a <= m < b else a <= m || m < b
  }

  /** The position after i in a table of n buckets. */
  function Next(i: nat, n: nat): nat {
    if i + 1 >= n then 0 else i + 1
  }

  /** Number of forward steps from a to b in a table of n buckets. */
  function Dist(a: int, b: int, n: int): int {
    if a <= b then b - a else b + n - a
  }

  /** The bucket the kernel's hash policy assigns to value v. */
  function Home<V, K>(hash: K -> nat, key: V -> K, v: V, n: nat): nat
    requires n > 0
  {
    hash(key(v)) % n
  }

  /** The positions that hold a value. */
  function Used<V>(s: seq<Option<V>>): set<int> {
    set j | 0 <= j < |s| && s[j].Some?
  }

  /** The values stored in the slots. */
  function Values<V>(s: seq<Option<V>>): set<V> {
    set j | 0 <= j < |s| && s[j].Some? :: s[j].value
  }

  /** The keys of the stored values. */
  function KeysOf<V, K>(s: seq<Option<V>>, key: V -> K): set<K> {
    set j | 0 <= j < |s| && s[j].Some? :: key(s[j].value)
  }

  /** No two slots hold values with equal keys. */
  predicate UniqueKeys<V, K(==)>(s: seq<Option<V>>, key: V -> K) {
    forall i, j :: 0 <= i < |s| && 0 <= j < |s| && s[i].Some? && s[j].Some? && key(s[i].value) == key(s[j].value) ==> i == j
  }

  /** The value in slot j is reachable by probing: every slot from its home
      bucket up to j is occupied. */
  predicate Reachable<V, K>(s: seq<Option<V>>, hash: K -> nat, key: V -> K, j: int)
    requires 0 <= j < |s| && s[j].Some?
  {
    forall m :: 0 <= m < |s| && InArc(Home(hash, key, s[j].value, |s|), j, m) ==> s[m].Some?
  }

  /** The linear-probing invariant: every stored value is reachable. */
  predicate ProbeRuns<V, K>(s: seq<Option<V>>, hash: K -> nat, key: V -> K) {
    forall j :: 0 <= j < |s| && s[j].Some? ==> Reachable(s, hash, key, j)
  }

  /** Every slot on the arc [a, b) holds a value whose key is not k. */
  predicate Misses<V, K(==)>(s: seq<Option<V>>, key: V -> K, k: K, a: int, b: int) {
    forall m :: 0 <= m < |s| && InArc(a, b, m) ==> s[m].Some? && key(s[m].value) != k
  }

  // ---------------------------------------------------------------------
  // Counting

  /** A table whose every slot holds a value uses all its slots. */
  lemma {:induction false} FullUsed<V>(s: seq<Option<V>>)
    requires forall j :: 0 <= j < |s| ==> s[j].Some?
    ensures |Used(s)| == |s|
  {
    if |s| > 0 {
      var s' := s[..|s| - 1];
      FullUsed(s');
      assert Used(s) == Used(s') + {|s| - 1};
    }
  }

  /** A table with fewer values than buckets has an empty bucket. */
  lemma EmptySlot<V>(s: seq<Option<V>>) returns (e: int)
    requires |Used(s)| < |s|
    ensures 0 <= e < |s| && s[e].None?
  {
    if forall j :: 0 <= j < |s| ==> s[j].Some? {
      FullUsed(s);
      assert false;
    }
    e :| 0 <= e < |s| && s[e].None?;
  }

  /** With unique keys the number of values, and of keys, is the number of
      used slots: no two slots hold the same value or the same key. */
  lemma Sizes<V, K>(s: seq<Option<V>>, key: V -> K)
    requires UniqueKeys(s, key)
    ensures |Values(s)| == |Used(s)| && |KeysOf(s, key)| == |Used(s)|
  {
    SizesUpTo(s, key, |s|);
    PrefixAll(s);
  }

  /** A stored value's key is a stored key. */
  lemma KeyOfValue<V, K>(s: seq<Option<V>>, key: V -> K, v: V)
    ensures v in Values(s) ==> key(v) in KeysOf(s, key)
  {
  }

  lemma {:induction false} SizesUpTo<V, K>(s: seq<Option<V>>, key: V -> K, i: nat)
    requires UniqueKeys(s, key) && i <= |s|
    ensures |Values(s[..i])| == |Used(s[..i])| && |KeysOf(s[..i], key)| == |Used(s[..i])|
    decreases i
  {
    if i == 0 {
      assert Values(s[..0]) == {} && KeysOf(s[..0], key) == {} && Used(s[..0]) == {};
    } else {
      SizesUpTo(s, key, i - 1);
      SizesStep(s, key, i - 1);
    }
  }

  lemma SizesStep<V, K>(s: seq<Option<V>>, key: V -> K, i: nat)
    requires UniqueKeys(s, key) && i < |s|
    requires |Values(s[..i])| == |Used(s[..i])| && |KeysOf(s[..i], key)| == |Used(s[..i])|
    ensures |Values(s[..i + 1])| == |Used(s[..i + 1])| && |KeysOf(s[..i + 1], key)| == |Used(s[..i + 1])|
  {
    PrefixStep(s, key, i);
    if s[i].Some? {
      var p := s[..i];
      PrefixFresh(s, key, i);
      KeyOfValue(p, key, s[i].value);
      assert |Values(p) + {s[i].value}| == |Values(p)| + 1;
      assert |KeysOf(p, key) + {key(s[i].value)}| == |KeysOf(p, key)| + 1;
      assert |Used(p) + {i}| == |Used(p)| + 1;
    }
  }

  // ---------------------------------------------------------------------
  // Circular arcs

  /** Stepping the end of an arc forward adds exactly the old end, unless
      the arc would close into the full circle. */
  lemma ArcNext(a: nat, b: nat, n: nat, m: int)
    requires a < n && b < n && Next(b, n) != a && 0 <= m < n
    ensures InArc(a, Next(b, n), m) <==> InArc(a, b, m) || m == b
  {
  }

  /** index_add(i, 1) on a power-of-two table is the step to Next. */
  lemma NextIsMod(i: nat, n: nat)
    requires i < n
    ensures (i + 1) % n == Next(i, n)
  {
    if i + 1 == n {
      assert (i + 1) % n == 0;
    }
  }

  /** When the end is just before the start, the arc and its end cover
      every position. */
  lemma FullCircle(a: nat, b: nat, n: nat, m: int)
    requires a < n && b < n && Next(b, n) == a && 0 <= m < n
    ensures InArc(a, b, m) || m == b
  {
  }

  // ---------------------------------------------------------------------
  // Find

  /** A probe that runs from a key's home bucket through slots with other
      keys into an empty slot proves that the key is absent. */
  lemma MissMeansAbsent<V, K>(s: seq<Option<V>>, hash: K -> nat, key: V -> K, k: K, e: int)
    requires ProbeRuns(s, hash, key) && 0 <= e < |s| && s[e].None?
    requires Misses(s, key, k, hash(k) % |s|, e)
    ensures k !in KeysOf(s, key)
  {
    if k in KeysOf(s, key) {
      var j :| 0 <= j < |s| && s[j].Some? && key(s[j].value) == k;
      assert Reachable(s, hash, key, j);
      assert InArc(hash(k) % |s|, j, e);
      assert false;
    }
  }

  // ---------------------------------------------------------------------
  // Insert

  /** Placing a new value in the first empty slot of its probe keeps the
      probing invariant and unique keys, and adds exactly that value. */
  lemma Place<V, K>(s: seq<Option<V>>, hash: K -> nat, key: V -> K, v: V, f: int)
    requires ProbeRuns(s, hash, key) && UniqueKeys(s, key)
    requires 0 <= f < |s| && s[f].None? && key(v) !in KeysOf(s, key)
    requires forall m :: 0 <= m < |s| && InArc(Home(hash, key, v, |s|), f, m) ==> s[m].Some?
    ensures ProbeRuns(s[f := Some(v)], hash, key) && UniqueKeys(s[f := Some(v)], key)
    ensures Values(s[f := Some(v)]) == Values(s) + {v}
    ensures Used(s[f := Some(v)]) == Used(s) + {f} && f !in Used(s)
    ensures KeysOf(s[f := Some(v)], key) == KeysOf(s, key) + {key(v)}
  {
    var t := s[f := Some(v)];
    forall j | 0 <= j < |t| && t[j].Some?
      ensures Reachable(t, hash, key, j)
    {
      if j != f {
        assert Reachable(s, hash, key, j);
      }
    }
    assert Values(t) == Values(s) + {v} by {
      forall x | x in Values(s) + {v}
        ensures x in Values(t)
      {
        if x != v {
          var j :| 0 <= j < |s| && s[j].Some? && s[j].value == x;
          assert t[j] == s[j];
        } else {
          assert t[f].value == v;
        }
      }
    }
    assert KeysOf(t, key) == KeysOf(s, key) + {key(v)} by {
      forall x | x in KeysOf(s, key) + {key(v)}
        ensures x in KeysOf(t, key)
      {
        if x != key(v) {
          var j :| 0 <= j < |s| && s[j].Some? && key(s[j].value) == x;
          assert t[j] == s[j];
        } else {
          assert key(t[f].value) == x;
        }
      }
    }
  }

  // ---------------------------------------------------------------------
  // Erase: backward-shift deletion

  /** The kernel's test for moving the value at position i, whose home
      bucket is h, back into the gap g: h does not lie on the circular arc
      (g, i]. */
  predicate MustMove(g: int, i: int, h: int) {
    (g < i && (h <= g || h > i)) || (g > i && h <= g && h > i)
  }

  /** The state while the shift loop runs. The scan began just after g0,
      the gap is g, and idx is the next position to examine; positions on
      [g0, idx) are the examined ones. Every examined slot but the gap is
      full; a value is reachable, except that a not-yet-examined value may
      have the gap on its probe. */
  predicate GapInv<V, K>(s: seq<Option<V>>, hash: K -> nat, key: V -> K, g0: int, g: int, idx: int) {
    0 <= g0 < |s| && 0 <= g < |s| && 0 <= idx < |s| && idx != g0 && InArc(g0, idx, g) && s[g].None?
    && (forall m :: 0 <= m < |s| && InArc(g0, idx, m) && m != g ==> s[m].Some?)
    && (forall j :: 0 <= j < |s| && s[j].Some? ==> ReachableBut(s, hash, key, j, g, InArc(g0, idx, j)))
  }

  /** The value in slot j is reachable, except that the gap g may be on its
      probe when it is not yet examined. */
  predicate ReachableBut<V, K>(s: seq<Option<V>>, hash: K -> nat, key: V -> K, j: int, g: int, examined: bool)
    requires 0 <= j < |s| && s[j].Some?
  {
    forall m :: 0 <= m < |s| && InArc(Home(hash, key, s[j].value, |s|), j, m) ==> s[m].Some? || (m == g && !examined)
  }

  /** Emptying the slot of a value removes that value and its key, and
      nothing else. */
  lemma EmptyBucket<V, K>(s: seq<Option<V>>, key: V -> K, g0: int)
    requires UniqueKeys(s, key) && 0 <= g0 < |s| && s[g0].Some?
    ensures UniqueKeys(s[g0 := None], key)
    ensures Values(s[g0 := None]) == set v | v in Values(s) && key(v) != key(s[g0].value)
    ensures KeysOf(s[g0 := None], key) == KeysOf(s, key) - {key(s[g0].value)}
    ensures Used(s[g0 := None]) == Used(s) - {g0} && g0 in Used(s)
  {
    var t := s[g0 := None];
    var n := |s|;
    var k := key(s[g0].value);
    assert Values(t) == set v | v in Values(s) && key(v) != k by {
      forall x | x in Values(t)
        ensures x in Values(s) && key(x) != k
      {
        var j :| 0 <= j < n && t[j].Some? && t[j].value == x;
        assert j != g0 && t[j] == s[j];
      }
      forall x | x in Values(s) && key(x) != k
        ensures x in Values(t)
      {
        var j :| 0 <= j < n && s[j].Some? && s[j].value == x;
        assert j != g0 && t[j] == s[j];
      }
    }
    assert KeysOf(t, key) == KeysOf(s, key) - {key(s[g0].value)} by {
      forall x | x in KeysOf(t, key)
        ensures x in KeysOf(s, key) && x != key(s[g0].value)
      {
        var j :| 0 <= j < n && t[j].Some? && key(t[j].value) == x;
        assert j != g0 && t[j] == s[j];
      }
      forall x | x in KeysOf(s, key) - {key(s[g0].value)}
        ensures x in KeysOf(t, key)
      {
        var j :| 0 <= j < n && s[j].Some? && key(s[j].value) == x;
        assert j != g0 && t[j] == s[j];
      }
    }
  }

  /** Emptying the slot of a value starts the shift loop: the gap is that
      slot and nothing is examined yet. */
  lemma Remove<V, K>(s: seq<Option<V>>, hash: K -> nat, key: V -> K, g0: int, e: int)
    requires ProbeRuns(s, hash, key)
    requires 0 <= g0 < |s| && s[g0].Some? && 0 <= e < |s| && s[e].None?
    ensures Next(g0, |s|) != g0 && !InArc(g0, Next(g0, |s|), e)
    ensures GapInv(s[g0 := None], hash, key, g0, g0, Next(g0, |s|))
  {
    var t := s[g0 := None];
    var n := |s|;
    ArcNext(g0, g0, n, e);
    forall j | 0 <= j < n && t[j].Some?
      ensures ReachableBut(t, hash, key, j, g0, InArc(g0, Next(g0, n), j))
    {
      assert Reachable(s, hash, key, j);
    }
  }

  /** One step of the shift loop that leaves the value at idx in place: its
      home bucket lies on (g, idx], so its probe does not cross the gap. */
  lemma Keep<V, K>(s: seq<Option<V>>, hash: K -> nat, key: V -> K, g0: int, g: int, idx: int)
    requires GapInv(s, hash, key, g0, g, idx) && s[idx].Some?
    requires !MustMove(g, idx, Home(hash, key, s[idx].value, |s|))
    requires Next(idx, |s|) != g0
    ensures GapInv(s, hash, key, g0, g, Next(idx, |s|))
  {
    var n := |s|;
    var i' := Next(idx, n);
    forall m | 0 <= m < n
      ensures InArc(g0, i', m) <==> InArc(g0, idx, m) || m == idx
    {
      ArcNext(g0, idx, n, m);
    }
    assert ReachableBut(s, hash, key, idx, g, false);
    forall j | 0 <= j < n && s[j].Some?
      ensures ReachableBut(s, hash, key, j, g, InArc(g0, i', j))
    {
      assert ReachableBut(s, hash, key, j, g, InArc(g0, idx, j));
    }
  }

  /** One step of the shift loop that moves the value at idx into the gap:
      the moved value's home bucket lies outside (g, idx], so its probe
      already covered g, and idx becomes the new gap. The empty slot e,
      not yet reached, keeps every examined probe off idx. */
  lemma Move<V, K>(s: seq<Option<V>>, hash: K -> nat, key: V -> K, g0: int, g: int, idx: int, e: int)
    requires GapInv(s, hash, key, g0, g, idx) && s[idx].Some?
    requires MustMove(g, idx, Home(hash, key, s[idx].value, |s|))
    requires 0 <= e < |s| && s[e].None? && e != g && e != idx && !InArc(g0, idx, e)
    requires Next(idx, |s|) != g0
    ensures GapInv(s[g := s[idx]][idx := None], hash, key, g0, idx, Next(idx, |s|))
  {
    var n := |s|;
    var t := s[g := s[idx]][idx := None];
    var i' := Next(idx, n);
    forall m | 0 <= m < n
      ensures InArc(g0, i', m) <==> InArc(g0, idx, m) || m == idx
    {
      ArcNext(g0, idx, n, m);
    }
    forall j | 0 <= j < n && t[j].Some?
      ensures ReachableBut(t, hash, key, j, idx, InArc(g0, i', j))
    {
      if j == g {
        assert ReachableBut(s, hash, key, idx, g, InArc(g0, idx, idx));
      } else {
        assert ReachableBut(s, hash, key, j, g, InArc(g0, idx, j));
      }
    }
  }

  /** The moves of the shift loop keep the stored values, their keys and
      how many slots are used. */
  lemma MoveKeeps<V, K>(s: seq<Option<V>>, key: V -> K, g: int, idx: int)
    requires 0 <= g < |s| && 0 <= idx < |s| && g != idx && s[g].None? && s[idx].Some?
    requires UniqueKeys(s, key)
    ensures UniqueKeys(s[g := s[idx]][idx := None], key)
    ensures Values(s[g := s[idx]][idx := None]) == Values(s)
    ensures KeysOf(s[g := s[idx]][idx := None], key) == KeysOf(s, key)
    ensures |Used(s[g := s[idx]][idx := None])| == |Used(s)|
  {
    var t := s[g := s[idx]][idx := None];
    assert Used(t) == Used(s) - {idx} + {g};
    assert Values(t) == Values(s) by {
      forall x | x in Values(s)
        ensures x in Values(t)
      {
        var j :| 0 <= j < |s| && s[j].Some? && s[j].value == x;
        if j == idx {
          assert t[g] == s[idx];
        } else {
          assert t[j] == s[j];
        }
      }
    }
    assert KeysOf(t, key) == KeysOf(s, key) by {
      forall x | x in KeysOf(s, key)
        ensures x in KeysOf(t, key)
      {
        var j :| 0 <= j < |s| && s[j].Some? && key(s[j].value) == x;
        if j == idx {
          assert t[g] == s[idx];
        } else {
          assert t[j] == s[j];
        }
      }
    }
  }

  /** A probe step over a used slot, with an empty slot e still ahead:
      the arc grows by that slot without closing the circle, and the
      distance to e shrinks. */
  lemma StepRun<V>(s: seq<Option<V>>, start: nat, index: nat, e: nat)
    requires start < |s| && index < |s| && e < |s| && s[index].Some? && s[e].None?
    requires forall m :: 0 <= m < |s| && InArc(start, index, m) ==> s[m].Some?
    ensures forall m :: 0 <= m < |s| ==> (InArc(start, Next(index, |s|), m) <==> InArc(start, index, m) || m == index)
    ensures forall m :: 0 <= m < |s| && InArc(start, Next(index, |s|), m) ==> s[m].Some?
    ensures Next(index, |s|) < |s| && Dist(Next(index, |s|), e, |s|) < Dist(index, e, |s|)
  {
    var n := |s|;
    if Next(index, n) == start {
      FullCircle(start, index, n, e);
      assert false;
    }
    forall m | 0 <= m < n
      ensures InArc(start, Next(index, n), m) <==> InArc(start, index, m) || m == index
    {
      ArcNext(start, index, n, m);
    }
  }

  /** A probe step over a slot with a different key keeps the probe a
      miss. */
  lemma StepArc<V, K>(s: seq<Option<V>>, key: V -> K, k: K, start: nat, index: nat, e: nat)
    requires start < |s| && index < |s| && e < |s| && s[index].Some? && s[e].None?
    requires Misses(s, key, k, start, index) && key(s[index].value) != k
    ensures Misses(s, key, k, start, Next(index, |s|))
    ensures Next(index, |s|) < |s| && Dist(Next(index, |s|), e, |s|) < Dist(index, e, |s|)
  {
    StepRun(s, start, index, e);
  }

  /** An iteration of the shift loop that moves the value at idx into the
      gap, with the empty slot e still ahead. */
  lemma StepGap<V, K>(s: seq<Option<V>>, hash: K -> nat, key: V -> K, g0: int, g: int, idx: int, e: int)
    requires GapInv(s, hash, key, g0, g, idx) && s[idx].Some?
    requires MustMove(g, idx, Home(hash, key, s[idx].value, |s|))
    requires 0 <= e < |s| && s[e].None? && e != g && !InArc(g0, idx, e)
    ensures GapInv(s[g := s[idx]][idx := None], hash, key, g0, idx, Next(idx, |s|))
    ensures s[g := s[idx]][idx := None][e].None? && e != idx && !InArc(g0, Next(idx, |s|), e)
    ensures Dist(Next(idx, |s|), e, |s|) < Dist(idx, e, |s|)
  {
    var n := |s|;
    if Next(idx, n) == g0 {
      FullCircle(g0, idx, n, e);
      assert false;
    }
    ArcNext(g0, idx, n, e);
    Move(s, hash, key, g0, g, idx, e);
  }

  /** An iteration of the shift loop that leaves the value at idx where it
      is, with the empty slot e still ahead. */
  lemma StepKeep<V, K>(s: seq<Option<V>>, hash: K -> nat, key: V -> K, g0: int, g: int, idx: int, e: int)
    requires GapInv(s, hash, key, g0, g, idx) && s[idx].Some?
    requires !MustMove(g, idx, Home(hash, key, s[idx].value, |s|))
    requires 0 <= e < |s| && s[e].None? && e != g && !InArc(g0, idx, e)
    ensures GapInv(s, hash, key, g0, g, Next(idx, |s|))
    ensures !InArc(g0, Next(idx, |s|), e)
    ensures Dist(Next(idx, |s|), e, |s|) < Dist(idx, e, |s|)
  {
    var n := |s|;
    if Next(idx, n) == g0 {
      FullCircle(g0, idx, n, e);
      assert false;
    }
    ArcNext(g0, idx, n, e);
    Keep(s, hash, key, g0, g, idx);
  }

  /** Erasing an absent key leaves the values as they are. */
  lemma AbsentKeepsAll<V, K>(s: seq<Option<V>>, key: V -> K, k: K)
    requires k !in KeysOf(s, key)
    ensures (set v | v in Values(s) && key(v) != k) == Values(s)
    ensures KeysOf(s, key) - {k} == KeysOf(s, key)
  {
    forall v | v in Values(s)
      ensures key(v) != k
    {
      var j :| 0 <= j < |s| && s[j].Some? && s[j].value == v;
    }
  }

  /** When the scan reaches an empty slot, no value has the gap on its
      probe any more: the probing invariant holds again. */
  lemma ShiftDone<V, K>(s: seq<Option<V>>, hash: K -> nat, key: V -> K, g0: int, g: int, idx: int)
    requires GapInv(s, hash, key, g0, g, idx) && s[idx].None?
    ensures ProbeRuns(s, hash, key)
  {
    forall j | 0 <= j < |s| && s[j].Some?
      ensures Reachable(s, hash, key, j)
    {
      assert ReachableBut(s, hash, key, j, g, InArc(g0, idx, j));
      if !InArc(g0, idx, j) {
        var h := Home(hash, key, s[j].value, |s|);
        assert !InArc(h, j, idx);
        assert !InArc(h, j, g);
      }
    }
  }

  // ---------------------------------------------------------------------
  // Prefixes, as swept by rehash

  /** Extending a prefix by one slot adds that slot's value, key and
      position, if it holds one. */
  lemma PrefixStep<V, K>(s: seq<Option<V>>, key: V -> K, i: int)
    requires 0 <= i < |s|
    ensures Values(s[..i + 1]) == Values(s[..i]) + (if s[i].Some? then {s[i].value} else {})
    ensures KeysOf(s[..i + 1], key) == KeysOf(s[..i], key) + (if s[i].Some? then {key(s[i].value)} else {})
    ensures Used(s[..i + 1]) == Used(s[..i]) + (if s[i].Some? then {i} else {})
    ensures i !in Used(s[..i])
  {
    var p, q := s[..i], s[..i + 1];
    assert forall j :: 0 <= j < i ==> q[j] == p[j] && p[j] == s[j];
    assert q[i] == s[i];
    forall x | x in Values(q)
      ensures x in Values(p) + (if s[i].Some? then {s[i].value} else {})
    {
      var j :| 0 <= j < |q| && q[j].Some? && q[j].value == x;
      if j < i {
        assert x in Values(p);
      }
    }
    forall x | x in KeysOf(q, key)
      ensures x in KeysOf(p, key) + (if s[i].Some? then {key(s[i].value)} else {})
    {
      var j :| 0 <= j < |q| && q[j].Some? && key(q[j].value) == x;
      if j < i {
        assert x in KeysOf(p, key);
      }
    }
  }

  /** The whole sequence is its longest prefix. */
  lemma PrefixAll<V>(s: seq<Option<V>>)
    ensures s[..|s|] == s
  {
  }

  /** With unique keys, the key of slot i does not occur before i. */
  lemma PrefixFresh<V, K>(s: seq<Option<V>>, key: V -> K, i: int)
    requires UniqueKeys(s, key) && 0 <= i < |s| && s[i].Some?
    ensures key(s[i].value) !in KeysOf(s[..i], key)
  {
  }

  /** A prefix that stops before a used slot uses fewer slots than the
      whole sequence. */
  lemma PrefixFewer<V>(s: seq<Option<V>>, i: int)
    requires 0 <= i < |s| && s[i].Some?
    ensures |Used(s[..i])| < |Used(s)|
  {
    var p := s[..i];
    assert Used(p) + {i} <= Used(s) by {
      forall j | j in Used(p)
        ensures j in Used(s)
      {
        assert p[j] == s[j];
      }
    }
    SubsetSize(Used(p) + {i}, Used(s));
  }

  lemma SubsetSize(a: set<int>, b: set<int>)
    requires a <= b
    ensures |a| <= |b|
  {
    assert b == a + (b - a);
  }

  // ---------------------------------------------------------------------
  // Iteration

  /** The first used position at or after i, or |s| when there is none:
      where an iterator stops. */
  function NextUsed<V>(s: seq<Option<V>>, i: nat): (r: nat)
    requires i <= |s|
    ensures i <= r <= |s|
    ensures r < |s| ==> s[r].Some?
    ensures forall j :: i <= j < r ==> s[j].None?
    decreases |s| - i
  {
    if i == |s| then |s| else if s[i].Some? then i else NextUsed(s, i + 1)
  }

  /** The positions a full traversal visits, in order, starting at i. */
  function Walk<V>(s: seq<Option<V>>, i: nat): seq<nat>
    requires i <= |s|
    decreases |s| - i
  {
    var j := NextUsed(s, i);
    if j == |s| then [] else [j] + Walk(s, j + 1)
  }

  /** The used positions at or after i. */
  function UsedFrom<V>(s: seq<Option<V>>, i: nat): set<int> {
    set j | i <= j < |s| && s[j].Some?
  }

  /** A traversal starting at i stays at or after i and visits positions
      in increasing order, so none twice. */
  lemma {:induction false} WalkSorted<V>(s: seq<Option<V>>, i: nat)
    requires i <= |s|
    ensures forall a :: 0 <= a < |Walk(s, i)| ==> i <= Walk(s, i)[a] < |s|
    ensures forall a, b :: 0 <= a < b < |Walk(s, i)| ==> Walk(s, i)[a] < Walk(s, i)[b]
    decreases |s| - i
  {
    var j := NextUsed(s, i);
    if j < |s| {
      var w' := Walk(s, j + 1);
      WalkSorted(s, j + 1);
      assert Walk(s, i) == [j] + w';
    }
  }

  /** A traversal starting at i visits exactly the used positions at or
      after i. */
  lemma {:induction false} WalkCovers<V>(s: seq<Option<V>>, i: nat)
    requires i <= |s|
    ensures forall j :: j in Walk(s, i) <==> j in UsedFrom(s, i)
    decreases |s| - i
  {
    var j := NextUsed(s, i);
    if j == |s| {
      assert UsedFrom(s, i) == {};
    } else {
      WalkCovers(s, j + 1);
      assert Walk(s, i) == [j] + Walk(s, j + 1);
      assert UsedFrom(s, i) == UsedFrom(s, j + 1) + {j};
    }
  }

  /** A traversal starting at i takes as many steps as there are used
      positions at or after i. */
  lemma {:induction false} WalkLength<V>(s: seq<Option<V>>, i: nat)
    requires i <= |s|
    ensures |Walk(s, i)| == |UsedFrom(s, i)|
    decreases |s| - i
  {
    var j := NextUsed(s, i);
    if j == |s| {
      assert UsedFrom(s, i) == {};
    } else {
      WalkLength(s, j + 1);
      assert Walk(s, i) == [j] + Walk(s, j + 1);
      assert UsedFrom(s, i) == UsedFrom(s, j + 1) + {j};
      assert j !in UsedFrom(s, j + 1);
    }
  }

  /** The used positions are the used positions from 0. */
  lemma UsedFromStart<V>(s: seq<Option<V>>)
    ensures UsedFrom(s, 0) == Used(s)
  {
  }

  /** From i, a traversal stops at the end exactly when no position at or
      after i is used. */
  lemma NextUsedAtEnd<V>(s: seq<Option<V>>, i: nat)
    requires i <= |s|
    ensures NextUsed(s, i) == |s| <==> UsedFrom(s, i) == {}
  {
    if NextUsed(s, i) < |s| {
      assert NextUsed(s, i) in UsedFrom(s, i);
    }
  }

  /** A prefix holds no value the whole sequence does not. */
  lemma PrefixValues<V>(s: seq<Option<V>>, i: int)
    requires 0 <= i <= |s|
    ensures Values(s[..i]) <= Values(s)
  {
    forall v | v in Values(s[..i])
      ensures v in Values(s)
    {
      var j :| 0 <= j < i && s[..i][j].Some? && s[..i][j].value == v;
      assert s[j] == s[..i][j];
    }
  }
}

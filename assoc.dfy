/** Python dictionaries as association lists in first-insertion order, the
    order `dict.items()` and `defaultdict.items()` iterate in. */
module Assoc {
  import Text

  datatype Entry<K, V> = Entry(key: K, val: V)

  function Keys<K, V>(m: seq<Entry<K, V>>): (ks: seq<K>)
    ensures |ks| == |m|
    ensures forall i | 0 <= i < |m| :: ks[i] == m[i].key
  {
    if m == [] then [] else [m[0].key] + Keys(m[1..])
  }

  predicate DistinctKeys<K(==), V>(m: seq<Entry<K, V>>)
  {
    forall i, j | 0 <= i < j < |m| :: m[i].key != m[j].key
  }

  /** `m.get(k, d)`. */
  function Get<K(==), V>(m: seq<Entry<K, V>>, k: K, d: V): V
  {
    if m == [] then d else if m[0].key == k then m[0].val else Get(m[1..], k, d)
  }

  /** A missing key gives the default. */
  lemma {:induction false} GetMissing<K, V>(m: seq<Entry<K, V>>, k: K, d: V)
    requires forall i | 0 <= i < |m| :: m[i].key != k
    ensures Get(m, k, d) == d
  {
    if m != [] {
      GetMissing(m[1..], k, d);
    }
  }

  /** A present key gives the value of its first entry. */
  lemma {:induction false} GetFirst<K, V>(m: seq<Entry<K, V>>, k: K, d: V, i: nat)
    requires i < |m| && m[i].key == k
    requires forall j | 0 <= j < i :: m[j].key != k
    ensures Get(m, k, d) == m[i].val
  {
    if i > 0 {
      GetFirst(m[1..], k, d, i - 1);
    }
  }

  /** With distinct keys, a key gives the value of its entry. */
  lemma GetDistinct<K, V>(m: seq<Entry<K, V>>, k: K, d: V, i: nat)
    requires DistinctKeys(m) && i < |m| && m[i].key == k
    ensures Get(m, k, d) == m[i].val
  {
    GetFirst(m, k, d, i);
  }

  /** `m[k] = v`: an existing key keeps its position, a new key goes last. */
  function Put<K(==), V>(m: seq<Entry<K, V>>, k: K, v: V): seq<Entry<K, V>>
  {
    if m == [] then [Entry(k, v)]
    else if m[0].key == k then [Entry(k, v)] + m[1..]
    else [m[0]] + Put(m[1..], k, v)
  }

  /** `m[k] = v`: an existing key keeps its position, a new key goes last. */
  lemma {:induction false} PutKeys<K, V>(m: seq<Entry<K, V>>, k: K, v: V)
    ensures Keys(Put(m, k, v)) == if k in Keys(m) then Keys(m) else Keys(m) + [k]
  {
    if m != [] && m[0].key != k {
      PutKeys(m[1..], k, v);
      assert Keys(m) == [m[0].key] + Keys(m[1..]);
    }
  }

  /** After `m[k] = v`, `k` maps to `v` and every other key to what it did. */
  lemma {:induction false} PutGet<K, V>(m: seq<Entry<K, V>>, k: K, v: V, k2: K, d: V)
    ensures Get(Put(m, k, v), k2, d) == if k2 == k then v else Get(m, k2, d)
  {
    if m != [] && m[0].key != k {
      PutGet(m[1..], k, v, k2, d);
    }
  }

  lemma {:induction false} PutDistinct<K, V>(m: seq<Entry<K, V>>, k: K, v: V)
    requires DistinctKeys(m)
    ensures DistinctKeys(Put(m, k, v))
  {
    var r := Put(m, k, v);
    PutKeys(m, k, v);
    assert Keys(r) == if k in Keys(m) then Keys(m) else Keys(m) + [k];
    forall i, j | 0 <= i < j < |r| ensures r[i].key != r[j].key {
      if k !in Keys(m) && j == |m| {
        assert Keys(r)[i] == Keys(m)[i];
      } else {
        assert Keys(r)[i] == Keys(m)[i] && Keys(r)[j] == Keys(m)[j];
      }
    }
  }

  /** Distinct elements of `s` in order of first occurrence. */
  function Dedup<K(==)>(s: seq<K>): (r: seq<K>)
    ensures forall i | 0 <= i < |s| :: s[i] in r
    ensures forall i | 0 <= i < |r| :: r[i] in s
    ensures forall i, j | 0 <= i < j < |r| :: r[i] != r[j]
  {
    if s == [] then []
    else
      var rest := Dedup(s[..|s| - 1]);
      var x := s[|s| - 1];
      assert s == s[..|s| - 1] + [x];
      if x in rest then rest else rest + [x]
  }

  /** `collections.Counter`-style tally: `m[k] = m.get(k, 0) + 1` per key. */
  function Tally<K(==)>(ks: seq<K>): seq<Entry<K, int>>
  {
    if ks == [] then []
    else
      var m := Tally(ks[..|ks| - 1]);
      var k := ks[|ks| - 1];
      Put(m, k, Get(m, k, 0) + 1)
  }

  /** Occurrences of `k` in `ks`. */
  function Count<K(==)>(ks: seq<K>, k: K): nat
  {
    if ks == [] then 0 else Count(ks[..|ks| - 1], k) + (if ks[|ks| - 1] == k then 1 else 0)
  }

  /** The sum of `f` over the values, as `sum(...)` over `m.values()`. */
  function SumOf<K, V>(m: seq<Entry<K, V>>, f: V -> int): int
  {
    if m == [] then 0 else f(m[0].val) + SumOf(m[1..], f)
  }

  function Id(x: int): int
  {
    x
  }

  /** Replacing one value changes the sum by the difference; a new key adds
      its value (the default counts as zero). */
  lemma {:induction false} SumPut<K, V>(m: seq<Entry<K, V>>, k: K, v: V, f: V -> int, d: V)
    requires f(d) == 0
    ensures SumOf(Put(m, k, v), f) == SumOf(m, f) - f(Get(m, k, d)) + f(v)
  {
    if m != [] && m[0].key != k {
      SumPut(m[1..], k, v, f, d);
    }
  }

  /** The tally lists each key once, in first-occurrence order. */
  lemma {:induction false} TallyKeys<K>(ks: seq<K>)
    ensures Keys(Tally(ks)) == Dedup(ks)
    ensures DistinctKeys(Tally(ks))
  {
    if ks != [] {
      var init := ks[..|ks| - 1];
      var m := Tally(init);
      var k := ks[|ks| - 1];
      var v := Get(m, k, 0) + 1;
      assert Tally(ks) == Put(m, k, v);
      assert Dedup(ks) == if k in Dedup(init) then Dedup(init) else Dedup(init) + [k];
      TallyKeys(init);
      PutKeys(m, k, v);
      PutDistinct(m, k, v);
    }
  }

  /** Each key is tallied with its number of occurrences. */
  lemma {:induction false} TallyCounts<K>(ks: seq<K>, k: K)
    ensures Get(Tally(ks), k, 0) == Count(ks, k)
  {
    if ks != [] {
      var init := ks[..|ks| - 1];
      var m := Tally(init);
      var last := ks[|ks| - 1];
      TallyCounts(init, k);
      TallyStep(m, last, k);
    }
  }

  /** One `m[k] = m.get(k, 0) + 1` step adds one to `k`'s count only. */
  lemma TallyStep<K>(m: seq<Entry<K, int>>, last: K, k: K)
    ensures Get(Put(m, last, Get(m, last, 0) + 1), k, 0) == Get(m, k, 0) + (if last == k then 1 else 0)
  {
    PutGet(m, last, Get(m, last, 0) + 1, k, 0);
  }

  /** The counts add up to the number of keys tallied. */
  lemma {:induction false} TallySum<K>(ks: seq<K>)
    ensures SumOf(Tally(ks), Id) == |ks|
  {
    if ks != [] {
      var init := ks[..|ks| - 1];
      var m := Tally(init);
      var k := ks[|ks| - 1];
      TallySum(init);
      SumPut(m, k, Get(m, k, 0) + 1, Id, 0);
    }
  }

  /** `sorted(m.items())` for string keys: ascending by key. */
  predicate KeysAscending<V>(m: seq<Entry<string, V>>)
  {
    forall i, j | 0 <= i < j < |m| :: Text.Less(m[i].key, m[j].key)
  }

  function InsertByKey<V>(e: Entry<string, V>, m: seq<Entry<string, V>>): (r: seq<Entry<string, V>>)
    requires KeysAscending(m)
    requires forall i | 0 <= i < |m| :: m[i].key != e.key
    ensures multiset(r) == multiset(m) + multiset{e}
    ensures KeysAscending(r)
  {
    if m == [] then [e]
    else if Text.Less(e.key, m[0].key) then
      BelowHead(e.key, m);
      ConsAscending(e, m);
      [e] + m
    else
      Text.LessTotal(e.key, m[0].key);
      var rest := InsertByKey(e, m[1..]);
      assert m == [m[0]] + m[1..];
      HeadBelowRest(m, e, rest);
      ConsAscending(m[0], rest);
      [m[0]] + rest
  }

  /** An entry below every key of an ascending list may go in front. */
  lemma ConsAscending<V>(h: Entry<string, V>, m: seq<Entry<string, V>>)
    requires KeysAscending(m)
    requires forall j | 0 <= j < |m| :: Text.Less(h.key, m[j].key)
    ensures KeysAscending([h] + m)
  {
    var r := [h] + m;
    forall i, j | 0 <= i < j < |r| ensures Text.Less(r[i].key, r[j].key) {
      assert r[j] == m[j - 1];
      if i > 0 { assert r[i] == m[i - 1]; }
    }
  }

  /** A key below the first of an ascending list is below all of them. */
  lemma BelowHead<V>(k: string, m: seq<Entry<string, V>>)
    requires KeysAscending(m) && m != [] && Text.Less(k, m[0].key)
    ensures forall j | 0 <= j < |m| :: Text.Less(k, m[j].key)
  {
    forall j | 0 <= j < |m| ensures Text.Less(k, m[j].key) {
      if j > 0 { Text.LessTransitive(k, m[0].key, m[j].key); }
    }
  }

  /** The head of an ascending list is below every entry of the tail with
      one entry above it inserted. */
  lemma HeadBelowRest<V>(m: seq<Entry<string, V>>, e: Entry<string, V>, rest: seq<Entry<string, V>>)
    requires KeysAscending(m) && m != [] && Text.Less(m[0].key, e.key)
    requires multiset(rest) == multiset(m[1..]) + multiset{e}
    ensures forall k | 0 <= k < |rest| :: Text.Less(m[0].key, rest[k].key)
  {
    forall k | 0 <= k < |rest| ensures Text.Less(m[0].key, rest[k].key) {
      assert rest[k] in multiset(rest);
      if rest[k] != e {
        assert rest[k] in multiset(m[1..]);
        var j :| 0 <= j < |m[1..]| && m[1..][j] == rest[k];
        assert m[j + 1] == rest[k];
      }
    }
  }

  function SortByKey<V>(m: seq<Entry<string, V>>): (r: seq<Entry<string, V>>)
    requires DistinctKeys(m)
    ensures multiset(r) == multiset(m)
    ensures KeysAscending(r)
  {
    if m == [] then []
    else
      var rest := SortByKey(m[1..]);
      HeadNotInRest(m, rest);
      InsertByKey(m[0], rest)
  }

  /** With distinct keys, the head's key is not among any permutation of
      the tail. */
  lemma HeadNotInRest<V>(m: seq<Entry<string, V>>, rest: seq<Entry<string, V>>)
    requires DistinctKeys(m) && m != [] && multiset(rest) == multiset(m[1..])
    ensures forall i | 0 <= i < |rest| :: rest[i].key != m[0].key
    ensures multiset(m) == multiset(rest) + multiset{m[0]}
  {
    assert m == [m[0]] + m[1..];
    forall i | 0 <= i < |rest| ensures rest[i].key != m[0].key {
      assert rest[i] in multiset(m[1..]);
    }
  }

  lemma {:induction false} SumInsertByKey<V>(e: Entry<string, V>, m: seq<Entry<string, V>>, f: V -> int)
    requires KeysAscending(m)
    requires forall i | 0 <= i < |m| :: m[i].key != e.key
    ensures SumOf(InsertByKey(e, m), f) == f(e.val) + SumOf(m, f)
  {
    if m != [] && !Text.Less(e.key, m[0].key) {
      SumInsertByKey(e, m[1..], f);
    }
  }

  /** Sorting by key keeps every sum over the values. */
  lemma {:induction false} SumSortByKey<V>(m: seq<Entry<string, V>>, f: V -> int)
    requires DistinctKeys(m)
    ensures SumOf(SortByKey(m), f) == SumOf(m, f)
  {
    if m != [] {
      var rest := SortByKey(m[1..]);
      SumSortByKey(m[1..], f);
      HeadNotInRest(m, rest);
      SumInsertByKey(m[0], rest, f);
    }
  }
}

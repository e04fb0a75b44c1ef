/**
 Java's `LinkedHashMap<String, V>` as a sequence of entries in insertion order.
 `put` of a new key appends an entry; `put` of a present key replaces its value in place.
 */
module LinkedMaps {
  import opened Wrappers
  import opened Sequences

  type LinkedMap<V> = seq<(string, V)>

  /** `keySet()`, in iteration order. */
  function Keys<V>(m: LinkedMap<V>): (ks: seq<string>)
    ensures |ks| == |m|
    ensures forall i :: 0 <= i < |m| ==> ks[i] == m[i].0
  {
    if m == [] then [] else [m[0].0] + Keys(m[1..])
  }

  /** Every key occurs once, as in any map built by `put`. */
  predicate WellFormed<V>(m: LinkedMap<V>) {
    Distinct(Keys(m))
  }

  /** `get(k)`: the value of the entry for `k`, or `None` (Java's `null`) when there is none. */
  function Get<V>(m: LinkedMap<V>, k: string): (r: Option<V>)
    ensures r.Some? <==> k in Keys(m)
    ensures r.Some? ==> (k, r.value) in m
  {
    if m == [] then None
    else if m[0].0 == k then Some(m[0].1)
    else Get(m[1..], k)
  }

  /** In a well-formed map, each entry is what `get` returns for its key. */
  lemma {:induction false} GetEntry<V>(m: LinkedMap<V>, i: nat)
    requires WellFormed(m) && i < |m|
    ensures Get(m, m[i].0) == Some(m[i].1)
    decreases i
  {
    if i > 0 {
      assert Keys(m)[0] != Keys(m)[i];
      assert Keys(m[1..]) == Keys(m)[1..];
      GetEntry(m[1..], i - 1);
    }
  }

  /** `put(k, v)`. */
  function Put<V>(m: LinkedMap<V>, k: string, v: V): LinkedMap<V> {
    if m == [] then [(k, v)]
    else if m[0].0 == k then [(k, v)] + m[1..]
    else [m[0]] + Put(m[1..], k, v)
  }

  /** After `put(k, v)`, `get(k)` returns `v`. */
  lemma {:induction false} PutGet<V>(m: LinkedMap<V>, k: string, v: V)
    ensures Get(Put(m, k, v), k) == Some(v)
    decreases |m|
  {
    if m != [] && m[0].0 != k {
      PutGet(m[1..], k, v);
      assert Put(m, k, v)[1..] == Put(m[1..], k, v);
    }
  }

  /** `put(k, v)` leaves what every other key maps to unchanged. */
  lemma {:induction false} PutGetOther<V>(m: LinkedMap<V>, k: string, v: V, other: string)
    requires other != k
    ensures Get(Put(m, k, v), other) == Get(m, other)
    decreases |m|
  {
    if m != [] {
      var r := Put(m, k, v);
      if m[0].0 == k {
        assert r[1..] == m[1..];
      } else {
        PutGetOther(m[1..], k, v, other);
        assert r[1..] == Put(m[1..], k, v);
      }
    }
  }

  /** `putAll(entries)`: the entries put one after another, in their order. */
  function PutAll<V>(m: LinkedMap<V>, entries: LinkedMap<V>): LinkedMap<V>
    decreases |entries|
  {
    if entries == [] then m
    else
      var last := entries[|entries| - 1];
      Put(PutAll(m, entries[..|entries| - 1]), last.0, last.1)
  }

  /** No key of `entries` is a key of `m`. */
  predicate KeysFresh<V>(m: LinkedMap<V>, entries: LinkedMap<V>) {
    forall k :: k in Keys(entries) ==> k !in Keys(m)
  }

  /** Putting fresh, distinct keys appends their entries unchanged. */
  lemma {:induction false} PutAllFresh<V>(m: LinkedMap<V>, entries: LinkedMap<V>)
    requires WellFormed(entries)
    requires KeysFresh(m, entries)
    ensures PutAll(m, entries) == m + entries
    decreases |entries|
  {
    if entries != [] {
      FreshInit(m, entries);
      PutAllFresh(m, entries[..|entries| - 1]);
      PutAllFreshStep(m, entries);
    }
  }

  lemma PutAllFreshStep<V>(m: LinkedMap<V>, entries: LinkedMap<V>)
    requires entries != []
    requires PutAll(m, entries[..|entries| - 1]) == m + entries[..|entries| - 1]
    requires entries[|entries| - 1].0 !in Keys(m) + Keys(entries[..|entries| - 1])
    ensures PutAll(m, entries) == m + entries
  {
    var init, last := entries[..|entries| - 1], entries[|entries| - 1];
    SplitLast(entries);
    AppendAssoc(m, init, [last]);
    KeysAppendAll(m, init);
    PutFresh(m + init, last.0, last.1);
  }

  lemma FreshInit<V>(m: LinkedMap<V>, entries: LinkedMap<V>)
    requires WellFormed(entries) && entries != []
    requires KeysFresh(m, entries)
    ensures WellFormed(entries[..|entries| - 1])
    ensures KeysFresh(m, entries[..|entries| - 1])
    ensures entries[|entries| - 1].0 !in Keys(m) + Keys(entries[..|entries| - 1])
  {
    var init := entries[..|entries| - 1];
    assert forall i :: 0 <= i < |init| ==> Keys(init)[i] == Keys(entries)[i];
    assert Keys(entries)[|entries| - 1] == entries[|entries| - 1].0;
  }

  lemma KeysAppendAll<V>(m: LinkedMap<V>, n: LinkedMap<V>)
    ensures Keys(m + n) == Keys(m) + Keys(n)
  {
    assert forall i :: 0 <= i < |m + n| ==> Keys(m + n)[i] == (Keys(m) + Keys(n))[i];
  }

  /** A fresh key is appended at the end. */
  lemma {:induction false} PutFresh<V>(m: LinkedMap<V>, k: string, v: V)
    requires k !in Keys(m)
    ensures Put(m, k, v) == m + [(k, v)]
    decreases |m|
  {
    if m != [] {
      assert Keys(m) == [m[0].0] + Keys(m[1..]);
      assert m[0].0 != k && k !in Keys(m[1..]);
      PutFresh(m[1..], k, v);
      assert Put(m, k, v) == [m[0]] + (m[1..] + [(k, v)]);
      assert m == [m[0]] + m[1..];
    }
  }
}

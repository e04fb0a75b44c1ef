/**
 The path-depth columns of one file (`ImportAnalysis.getJavaFileDepths`): the file's path
 relative to the parent of the analysis root, one entry per segment, keyed `"depth 1"`,
 `"depth 2"`, ... from the outermost directory down to the file name.
 */
module PathDepths {
  import opened Text
  import opened Sequences
  import opened Wrappers
  import opened LinkedMaps

  /** The column name of the `i`-th segment, counting from 1. */
  function DepthKey(i: nat): string {
    "depth " + NatToString(i)
  }

  /** The first `n` depth column names, in order. */
  function DepthKeys(n: nat): (ks: seq<string>)
    ensures |ks| == n
    ensures forall i :: 0 <= i < n ==> ks[i] == DepthKey(i + 1)
  {
    seq(n, i requires 0 <= i < n => DepthKey(i + 1))
  }

  /**
   The depth map of a relative path given as its segments. The source collects the indices
   `0 .. n-1` into a `LinkedHashMap` whose merge function keeps the later value, which is a
   `put` per index in increasing order.
   */
  function DepthMap(segments: seq<string>): LinkedMap<string> {
    DepthEntries(segments, |segments|)
  }

  /** The map after the first `n` segments have been put. */
  function DepthEntries(segments: seq<string>, n: nat): LinkedMap<string>
    requires n <= |segments|
    decreases n
  {
    if n == 0 then [] else Put(DepthEntries(segments, n - 1), DepthKey(n), segments[n - 1])
  }

  /** Different depths have different column names. */
  lemma DepthKeyInjective(i: nat, j: nat)
    requires DepthKey(i) == DepthKey(j)
    ensures i == j
  {
    assert NatToString(i) == DepthKey(i)[6..];
    assert NatToString(j) == DepthKey(j)[6..];
    NatToStringInjective(i, j);
  }

  lemma DepthKeysDiffer(i: nat, j: nat)
    requires i != j
    ensures DepthKey(i) != DepthKey(j)
  {
    if DepthKey(i) == DepthKey(j) {
      DepthKeyInjective(i, j);
    }
  }

  /** The first `n` depth column names do not include a deeper one. */
  lemma DepthKeyBeyond(n: nat, d: nat)
    requires n < d
    ensures DepthKey(d) !in DepthKeys(n)
  {
    forall t | 0 <= t < n ensures DepthKeys(n)[t] != DepthKey(d) {
      DepthKeysDiffer(t + 1, d);
    }
  }

  /** Every depth column name starts with `d`. */
  lemma DepthKeyInitial(i: nat)
    ensures DepthKey(i) != [] && DepthKey(i)[0] == 'd'
  {
  }

  lemma DepthKeysDistinct(n: nat)
    ensures Distinct(DepthKeys(n))
  {
    forall i, j | 0 <= i < j < n ensures DepthKeys(n)[i] != DepthKeys(n)[j] {
      if DepthKeys(n)[i] == DepthKeys(n)[j] {
        DepthKeyInjective(i + 1, j + 1);
      }
    }
  }

  /**
   A path of `n` segments yields exactly `n` entries, the `i`-th keyed `"depth i"` and
   holding segment `i`; no key repeats, so the merge function never has to choose.
   */
  lemma DepthMapEntries(segments: seq<string>, n: nat)
    requires n <= |segments|
    ensures |DepthEntries(segments, n)| == n
    ensures forall i :: 0 <= i < n ==> DepthEntries(segments, n)[i] == (DepthKey(i + 1), segments[i])
    ensures Keys(DepthEntries(segments, n)) == DepthKeys(n)
  {
    DepthEntriesAppend(segments, n);
    var m := DepthEntries(segments, n);
    assert forall i :: 0 <= i < n ==> Keys(m)[i] == DepthKeys(n)[i];
  }

  /** Each step of the fold appends one entry, because each depth key is new. */
  lemma {:induction false} DepthEntriesAppend(segments: seq<string>, n: nat)
    requires n <= |segments|
    ensures |DepthEntries(segments, n)| == n
    ensures forall i :: 0 <= i < n ==> DepthEntries(segments, n)[i] == (DepthKey(i + 1), segments[i])
    decreases n
  {
    if n > 0 {
      var prev := DepthEntries(segments, n - 1);
      DepthEntriesAppend(segments, n - 1);
      FreshDepthKey(prev, n);
      PutFresh(prev, DepthKey(n), segments[n - 1]);
      SnocEntry(prev, segments, n);
    }
  }

  lemma FreshDepthKey(prev: LinkedMap<string>, n: nat)
    requires |prev| + 1 == n
    requires forall i :: 0 <= i < |prev| ==> prev[i].0 == DepthKey(i + 1)
    ensures DepthKey(n) !in Keys(prev)
  {
    forall i | 0 <= i < |prev| ensures Keys(prev)[i] != DepthKey(n) {
      DepthKeysDiffer(i + 1, n);
    }
  }

  lemma SnocEntry(prev: LinkedMap<string>, segments: seq<string>, n: nat)
    requires 1 <= n <= |segments| && |prev| + 1 == n
    requires forall i :: 0 <= i < |prev| ==> prev[i] == (DepthKey(i + 1), segments[i])
    ensures var m := prev + [(DepthKey(n), segments[n - 1])];
            forall i :: 0 <= i < n ==> m[i] == (DepthKey(i + 1), segments[i])
  {
  }

  /**
   Looking a key up in the depth map of a path with `n` segments: `"depth i"` for
   `1 <= i <= n` gives segment `i`, and every other key is absent.
   */
  lemma DepthMapLookup(segments: seq<string>, k: string)
    ensures Get(DepthMap(segments), k).Some? <==> k in DepthKeys(|segments|)
    ensures forall i :: 1 <= i <= |segments| && k == DepthKey(i) ==>
              Get(DepthMap(segments), k) == Some(segments[i - 1])
  {
    var m := DepthMap(segments);
    DepthMapEntries(segments, |segments|);
    DepthKeysDistinct(|segments|);
    forall i | 1 <= i <= |segments| && k == DepthKey(i)
      ensures Get(m, k) == Some(segments[i - 1])
    {
      GetEntry(m, i - 1);
    }
  }
}

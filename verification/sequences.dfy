/**
 Sequence vocabulary used throughout the model: duplicate-freedom, order-preserving
 subsequences, first occurrences, filtering, and the insertion-ordered set that Java's
 `LinkedHashSet` provides (`add` keeps the first insertion and ignores repeats).
 */
module Sequences {

  /** No element occurs twice. */
  predicate Distinct<T(==,!new)>(xs: seq<T>) {
    forall i, j :: 0 <= i < j < |xs| ==> xs[i] != xs[j]
  }

  /** `xs` can be obtained from `ys` by deleting elements, keeping the order of the rest. */
  predicate IsSubsequence<T(==,!new)>(xs: seq<T>, ys: seq<T>)
    decreases |ys|
  {
    || xs == []
    || (&& ys != []
        && ((xs[0] == ys[0] && IsSubsequence(xs[1..], ys[1..])) || IsSubsequence(xs, ys[1..])))
  }

  /** Two duplicate-free sequences with no common element concatenate to a duplicate-free one. */
  lemma DistinctConcat<T(!new)>(xs: seq<T>, ys: seq<T>)
    requires Distinct(xs) && Distinct(ys)
    requires forall y :: y in ys ==> y !in xs
    ensures Distinct(xs + ys)
  {
    forall i, j | 0 <= i < j < |xs + ys| ensures (xs + ys)[i] != (xs + ys)[j] {
      if j < |xs| {
        assert (xs + ys)[i] == xs[i] && (xs + ys)[j] == xs[j];
      } else if i < |xs| {
        assert (xs + ys)[i] == xs[i] && (xs + ys)[j] == ys[j - |xs|];
        assert ys[j - |xs|] in ys;
      } else {
        assert (xs + ys)[i] == ys[i - |xs|] && (xs + ys)[j] == ys[j - |xs|];
      }
    }
  }

  lemma SubsequenceCons<T(!new)>(x: T, xs: seq<T>, ys: seq<T>)
    requires IsSubsequence(xs, ys)
    ensures IsSubsequence([x] + xs, [x] + ys)
  {
    assert ([x] + xs)[1..] == xs && ([x] + ys)[1..] == ys;
  }

  lemma SubsequenceSkip<T(!new)>(x: T, xs: seq<T>, ys: seq<T>)
    requires IsSubsequence(xs, ys)
    ensures IsSubsequence(xs, [x] + ys)
  {
    assert ([x] + ys)[1..] == ys;
  }

  /** Two sequences that together hold the elements of `zs` hold exactly its members. */
  lemma MultisetSumMembers<T(!new)>(xs: seq<T>, ys: seq<T>, zs: seq<T>)
    requires multiset(xs) + multiset(ys) == multiset(zs)
    ensures forall z :: z in xs + ys <==> z in zs
  {
    forall z ensures z in xs + ys <==> z in zs {
      assert z in xs + ys <==> z in multiset(xs) + multiset(ys);
    }
  }

  /** The position of the first occurrence of `x` in `xs`. */
  function FirstIndex<T(==,!new)>(xs: seq<T>, x: T): (i: nat)
    requires x in xs
    ensures i < |xs| && xs[i] == x
    ensures forall j :: 0 <= j < i ==> xs[j] != x
  {
    if xs[0] == x then 0 else 1 + FirstIndex(xs[1..], x)
  }

  /** The elements of `xs` that satisfy `p`, in their original order. */
  function Filter<T(!new)>(xs: seq<T>, p: T -> bool): (r: seq<T>)
    ensures |r| <= |xs|
    ensures forall x :: x in r <==> x in xs && p(x)
  {
    if xs == [] then []
    else (if p(xs[0]) then [xs[0]] else []) + Filter(xs[1..], p)
  }

  lemma {:induction false} FilterIsSubsequence<T(!new)>(xs: seq<T>, p: T -> bool)
    ensures IsSubsequence(Filter(xs, p), xs)
  {
    if xs != [] {
      FilterIsSubsequence(xs[1..], p);
      var r := Filter(xs, p);
      if p(xs[0]) {
        assert r[0] == xs[0] && r[1..] == Filter(xs[1..], p);
      } else {
        assert r == Filter(xs[1..], p);
      }
    }
  }

  /** A non-empty sequence is its prefix followed by its last element. */
  lemma SplitLast<T>(s: seq<T>)
    requires s != []
    ensures s[..|s| - 1] + [s[|s| - 1]] == s
  {
  }

  lemma AppendAssoc<T>(a: seq<T>, b: seq<T>, c: seq<T>)
    ensures (a + b) + c == a + (b + c)
  {
  }

  /** Filtering keeps every occurrence of an element that passes and none of one that fails. */
  lemma {:induction false} FilterCount<T(!new)>(xs: seq<T>, p: T -> bool)
    ensures forall x :: multiset(Filter(xs, p))[x] == if p(x) then multiset(xs)[x] else 0
  {
    if xs != [] {
      FilterCount(xs[1..], p);
      assert xs == [xs[0]] + xs[1..];
      assert multiset(xs) == multiset([xs[0]]) + multiset(xs[1..]);
      var r := Filter(xs, p);
      assert multiset(r) == multiset(if p(xs[0]) then [xs[0]] else []) + multiset(Filter(xs[1..], p));
    }
  }

  // ---------------------------------------------------------------------------
  // Insertion-ordered sets (LinkedHashSet)
  // ---------------------------------------------------------------------------

  /** `LinkedHashSet.add`: appends `x` unless it is already present. */
  function Insert<T(==,!new)>(acc: seq<T>, x: T): (r: seq<T>)
    ensures x in r
    ensures forall y :: y in r <==> y in acc || y == x
    ensures Distinct(acc) ==> Distinct(r)
  {
    if x in acc then acc else acc + [x]
  }

  /** `LinkedHashSet.addAll`: inserts the elements of `xs` one after another. */
  function InsertAll<T(==,!new)>(acc: seq<T>, xs: seq<T>): (r: seq<T>)
    ensures forall y :: y in r <==> y in acc || y in xs
    ensures Distinct(acc) ==> Distinct(r)
    decreases |xs|
  {
    if xs == [] then acc else InsertAll(Insert(acc, xs[0]), xs[1..])
  }

  /** The insertion-ordered set of the elements of `xs`. */
  function Dedup<T(==,!new)>(xs: seq<T>): seq<T> {
    InsertAll([], xs)
  }

  lemma {:induction false} InsertAllConcat<T(!new)>(acc: seq<T>, xs: seq<T>, ys: seq<T>)
    ensures InsertAll(acc, xs + ys) == InsertAll(InsertAll(acc, xs), ys)
    decreases |xs|
  {
    if xs == [] {
      assert xs + ys == ys;
    } else {
      assert (xs + ys)[0] == xs[0] && (xs + ys)[1..] == xs[1..] + ys;
      InsertAllConcat(Insert(acc, xs[0]), xs[1..], ys);
    }
  }

  /** Adding one more element to the input adds it to the deduplication unless present. */
  lemma DedupSnoc<T(!new)>(xs: seq<T>, x: T)
    ensures Dedup(xs + [x]) == Insert(Dedup(xs), x)
  {
    InsertAllConcat([], xs, [x]);
    assert InsertAll(Dedup(xs), [x]) == InsertAll(Insert(Dedup(xs), x), []);
  }

  /** Inserting elements that are all present already changes nothing. */
  lemma {:induction false} InsertAllPresent<T(!new)>(acc: seq<T>, xs: seq<T>)
    requires forall x :: x in xs ==> x in acc
    ensures InsertAll(acc, xs) == acc
    decreases |xs|
  {
    if xs != [] {
      InsertAllPresent(acc, xs[1..]);
    }
  }

  /** Inserting elements that are fresh and distinct appends them unchanged. */
  lemma {:induction false} InsertAllFresh<T(!new)>(acc: seq<T>, xs: seq<T>)
    requires Distinct(xs)
    requires forall x :: x in xs ==> x !in acc
    ensures InsertAll(acc, xs) == acc + xs
    decreases |xs|
  {
    if xs != [] {
      var x0, rest := xs[0], xs[1..];
      DistinctTail(xs);
      assert Insert(acc, x0) == acc + [x0];
      assert InsertAll(acc, xs) == InsertAll(acc + [x0], rest);
      InsertAllFresh(acc + [x0], rest);
      assert acc + [x0] + rest == acc + xs;
    }
  }

  /** The tail of a duplicate-free sequence is duplicate-free and lacks the head. */
  lemma DistinctTail<T(!new)>(xs: seq<T>)
    requires xs != [] && Distinct(xs)
    ensures Distinct(xs[1..])
    ensures forall y :: y in xs[1..] ==> y != xs[0] && y in xs
  {
    var rest := xs[1..];
    forall i, j | 0 <= i < j < |rest| ensures rest[i] != rest[j] {
      assert rest[i] == xs[i + 1] && rest[j] == xs[j + 1];
    }
    forall y | y in rest ensures y != xs[0] && y in xs {
      var k :| 0 <= k < |rest| && rest[k] == y;
      assert xs[k + 1] == y;
    }
  }

  /**
   Characterisation of `Dedup` independent of how it is computed: it holds each element of
   the input exactly once, ordered by where each element first occurs in the input.
   */
  lemma {:induction false} DedupFirstSeen<T(!new)>(xs: seq<T>)
    ensures Distinct(Dedup(xs))
    ensures forall x :: x in Dedup(xs) <==> x in xs
    ensures forall i, j :: 0 <= i < j < |Dedup(xs)| ==>
                            FirstIndex(xs, Dedup(xs)[i]) < FirstIndex(xs, Dedup(xs)[j])
    decreases |xs|
  {
    if xs != [] {
      var init, x := xs[..|xs| - 1], xs[|xs| - 1];
      assert xs == init + [x];
      DedupFirstSeen(init);
      DedupSnoc(init, x);
      FirstSeenSnoc(init, x, Dedup(init));
    }
  }

  /** The ordering part of `DedupFirstSeen`, for one more input element. */
  lemma FirstSeenSnoc<T(!new)>(init: seq<T>, x: T, d: seq<T>)
    requires forall y :: y in d <==> y in init
    requires forall i, j :: 0 <= i < j < |d| ==> FirstIndex(init, d[i]) < FirstIndex(init, d[j])
    ensures forall i, j :: 0 <= i < j < |Insert(d, x)| ==>
              FirstIndex(init + [x], Insert(d, x)[i]) < FirstIndex(init + [x], Insert(d, x)[j])
  {
    FirstIndexSnocAll(init, x);
    if x !in d {
      FirstSeenAppend(init, x, d);
    } else {
      FirstSeenKeep(init, x, d);
    }
  }

  lemma FirstIndexSnocAll<T(!new)>(init: seq<T>, x: T)
    ensures forall y :: y in init ==> FirstIndex(init + [x], y) == FirstIndex(init, y)
  {
    forall y | y in init
      ensures FirstIndex(init + [x], y) == FirstIndex(init, y)
    {
      FirstIndexSnoc(init, x, y);
    }
  }

  lemma FirstSeenAppend<T(!new)>(init: seq<T>, x: T, d: seq<T>)
    requires x !in init
    requires forall y :: y in d ==> y in init
    requires forall y :: y in init ==> FirstIndex(init + [x], y) == FirstIndex(init, y)
    requires forall i, j :: 0 <= i < j < |d| ==> FirstIndex(init, d[i]) < FirstIndex(init, d[j])
    ensures forall i, j :: 0 <= i < j < |d + [x]| ==>
              FirstIndex(init + [x], (d + [x])[i]) < FirstIndex(init + [x], (d + [x])[j])
  {
    var xs, e := init + [x], d + [x];
    FirstIndexFresh(init, x);
    forall i, j | 0 <= i < j < |e|
      ensures FirstIndex(xs, e[i]) < FirstIndex(xs, e[j])
    {
      assert e[i] == d[i] && d[i] in init;
      if j < |d| {
        assert e[j] == d[j] && d[j] in init;
      }
    }
  }

  lemma FirstSeenKeep<T(!new)>(init: seq<T>, x: T, d: seq<T>)
    requires forall y :: y in d ==> y in init
    requires forall y :: y in init ==> FirstIndex(init + [x], y) == FirstIndex(init, y)
    requires forall i, j :: 0 <= i < j < |d| ==> FirstIndex(init, d[i]) < FirstIndex(init, d[j])
    ensures forall i, j :: 0 <= i < j < |d| ==> FirstIndex(init + [x], d[i]) < FirstIndex(init + [x], d[j])
  {
    forall i, j | 0 <= i < j < |d|
      ensures FirstIndex(init + [x], d[i]) < FirstIndex(init + [x], d[j])
    {
      assert d[i] in init && d[j] in init;
    }
  }

  lemma {:induction false} FirstIndexSnoc<T(!new)>(ys: seq<T>, x: T, y: T)
    requires y in ys
    ensures FirstIndex(ys + [x], y) == FirstIndex(ys, y)
    decreases |ys|
  {
    if ys[0] != y {
      assert (ys + [x])[1..] == ys[1..] + [x];
      FirstIndexSnoc(ys[1..], x, y);
    }
  }

  lemma {:induction false} FirstIndexFresh<T(!new)>(ys: seq<T>, x: T)
    requires x !in ys
    ensures FirstIndex(ys + [x], x) == |ys|
    decreases |ys|
  {
    if ys != [] {
      assert (ys + [x])[1..] == ys[1..] + [x];
      FirstIndexFresh(ys[1..], x);
    }
  }

  /** A duplicate-free input is its own deduplication. */
  lemma DedupOfDistinct<T(!new)>(xs: seq<T>)
    requires Distinct(xs)
    ensures Dedup(xs) == xs
  {
    InsertAllFresh([], xs);
  }
}

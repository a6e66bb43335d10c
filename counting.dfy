/**
 * collections.Counter as bot.py uses it: counting keys in a loop, the
 * insertion order in which a Counter (like any dict) lists its keys, the
 * list of its values, and most_common(n).
 */
module Counting {
  import opened Seqs

  predicate NoDup<K(==)>(d: seq<K>) {
    forall i, j :: 0 <= i < j < |d| ==> d[i] != d[j]
  }

  /** The keys in order of first appearance. */
  function Distinct<K(==,!new)>(keys: seq<K>): (d: seq<K>)
    ensures NoDup(d)
    ensures forall k :: k in d <==> k in keys
  {
    if |keys| == 0 then []
    else
      var init := keys[..|keys| - 1];
      var x := keys[|keys| - 1];
      var d := Distinct(init);
      assert keys == init + [x];
      if x in d then d else d + [x]
  }

  /** Position of the first occurrence of k, as list.index(k). */
  function IndexOf<K(==)>(s: seq<K>, k: K): (i: nat)
    requires k in s
    ensures i < |s| && s[i] == k
    ensures forall j :: 0 <= j < i ==> s[j] != k
  {
    if s[0] == k then 0 else 1 + IndexOf(s[1..], k)
  }

  /** Appending an element leaves the first occurrence of an earlier key where it was. */
  lemma IndexOfAppend<K>(s: seq<K>, x: K, k: K)
    requires k in s
    ensures IndexOf(s + [x], k) == IndexOf(s, k)
  {
    var i, i' := IndexOf(s + [x], k), IndexOf(s, k);
    assert (s + [x])[i'] == k;
    assert s[i] == (s + [x])[i];
  }

  /**
   * Distinct lists the keys in the order in which they first occur, as a
   * Counter lists its keys in insertion order.
   */
  lemma {:induction false} DistinctFirstSeen<K(!new)>(keys: seq<K>)
    ensures forall i, j :: 0 <= i < j < |Distinct(keys)| ==>
      IndexOf(keys, Distinct(keys)[i]) < IndexOf(keys, Distinct(keys)[j])
  {
    if |keys| > 0 {
      var init, x := keys[..|keys| - 1], keys[|keys| - 1];
      assert keys == init + [x];
      var d0 := Distinct(init);
      DistinctFirstSeen(init);
      var d := Distinct(keys);
      assert d == if x in d0 then d0 else d0 + [x];
      forall i, j | 0 <= i < j < |d|
        ensures IndexOf(keys, d[i]) < IndexOf(keys, d[j])
      {
        assert d[i] == d0[i] && d[i] in init;
        IndexOfAppend(init, x, d[i]);
        if j < |d0| {
          assert d[j] == d0[j] && d[j] in init;
          IndexOfAppend(init, x, d[j]);
        } else {
          assert d[j] == x && x !in init;
          assert IndexOf(keys, x) == |init|;
        }
      }
    }
  }

  /** The multiplicities in ms of the keys listed in d, added up. */
  function SumCounts<K>(d: seq<K>, ms: multiset<K>): nat {
    if |d| == 0 then 0 else ms[d[0]] + SumCounts(d[1..], ms)
  }

  lemma {:induction false} SumCountsAdd<K>(d: seq<K>, a: multiset<K>, b: multiset<K>)
    ensures SumCounts(d, a + b) == SumCounts(d, a) + SumCounts(d, b)
  {
    if |d| > 0 {
      SumCountsAdd(d[1..], a, b);
    }
  }

  lemma {:induction false} SumCountsSingle<K>(d: seq<K>, x: K)
    requires NoDup(d)
    ensures SumCounts(d, multiset{x}) == if x in d then 1 else 0
  {
    if |d| > 0 {
      SumCountsSingle(d[1..], x);
      if d[0] == x {
        assert x !in d[1..] by {
          forall j | 0 <= j < |d[1..]|
            ensures d[1..][j] != x
          {
            assert d[1..][j] == d[j + 1];
          }
        }
      } else {
        assert x in d <==> x in d[1..] by {
          assert d == [d[0]] + d[1..];
        }
      }
    }
  }

  /** Counting every element of ms against a duplicate-free list that names them all gives |ms|. */
  lemma {:induction false} SumCountsCovers<K(!new)>(d: seq<K>, ms: multiset<K>)
    requires NoDup(d)
    requires forall x :: x in ms ==> x in d
    ensures SumCounts(d, ms) == |ms|
    decreases |ms|
  {
    if |ms| == 0 {
      SumCountsEmpty(d, ms);
    } else {
      var x :| x in ms;
      var rest := ms - multiset{x};
      assert ms == rest + multiset{x};
      SumCountsCovers(d, rest);
      SumCountsAdd(d, rest, multiset{x});
      SumCountsSingle(d, x);
    }
  }

  lemma {:induction false} SumCountsEmpty<K>(d: seq<K>, ms: multiset<K>)
    requires |ms| == 0
    ensures SumCounts(d, ms) == 0
  {
    if |d| > 0 {
      SumCountsEmpty(d[1..], ms);
    }
  }

  /**
   * The loop that fills a Counter: counts[k] += 1 for every key, a key
   * entering the dictionary the first time it is seen.
   */
  method CountKeys<K(==,!new)>(keys: seq<K>) returns (order: seq<K>, counts: map<K, nat>)
    ensures order == Distinct(keys)
    ensures forall k :: k in counts <==> k in keys
    ensures forall k :: k in counts ==> counts[k] == multiset(keys)[k]
  {
    order := [];
    counts := map[];
    for i := 0 to |keys|
      invariant order == Distinct(keys[..i])
      invariant forall k :: k in counts <==> k in keys[..i]
      invariant forall k :: k in counts ==> counts[k] == multiset(keys[..i])[k]
    {
      var k := keys[i];
      assert keys[..i + 1] == keys[..i] + [k];
      assert keys[..i + 1][..i] == keys[..i];
      if k in counts {
        counts := counts[k := counts[k] + 1];
      } else {
        order := order + [k];
        counts := counts[k := 1];
      }
    }
    assert keys[..|keys|] == keys;
  }

  /** list(counter.values()): the counts in key order. */
  function Values<K(!new)>(order: seq<K>, counts: map<K, nat>): (r: seq<int>)
    requires forall k :: k in order ==> k in counts
    ensures |r| == |order|
    ensures forall i :: 0 <= i < |r| ==> r[i] == counts[order[i]]
  {
    if |order| == 0 then [] else [counts[order[0]]] + Values(order[1..], counts)
  }

  /** The number of occurrences in ms of each key of order, in order. */
  function Multiplicities<K(!new)>(order: seq<K>, ms: multiset<K>): (r: seq<int>)
    ensures |r| == |order|
    ensures forall i :: 0 <= i < |r| ==> r[i] == ms[order[i]]
  {
    if |order| == 0 then [] else [ms[order[0]]] + Multiplicities(order[1..], ms)
  }

  lemma {:induction false} SumOfValues<K(!new)>(order: seq<K>, counts: map<K, nat>, ms: multiset<K>)
    requires forall k :: k in order ==> k in counts && counts[k] == ms[k]
    ensures Sum(Values(order, counts)) == SumCounts(order, ms)
  {
    if |order| > 0 {
      SumOfValues(order[1..], counts, ms);
    }
  }

  /** The per-key counts of a Counter add up to the number of keys counted. */
  lemma CountsAddUp<K(!new)>(keys: seq<K>, order: seq<K>, counts: map<K, nat>)
    requires order == Distinct(keys)
    requires forall k :: k in counts <==> k in keys
    requires forall k :: k in counts ==> counts[k] == multiset(keys)[k]
    ensures Sum(Values(order, counts)) == |keys|
  {
    SumOfValues(order, counts, multiset(keys));
    SumCountsCovers(order, multiset(keys));
  }

  /** counter.items(): (key, count) pairs in key order. */
  function Items<K(!new)>(order: seq<K>, counts: map<K, nat>): (r: seq<(K, int)>)
    requires forall k :: k in order ==> k in counts
    ensures |r| == |order|
    ensures forall i :: 0 <= i < |r| ==> r[i] == (order[i], counts[order[i]])
  {
    if |order| == 0 then [] else [(order[0], counts[order[0]])] + Items(order[1..], counts)
  }

  function ByCountDescending<K>(p: (K, int)): Key {
    (-p.1, 0)
  }

  /** The first k of a list sorted by count come from the list and dominate the rest. */
  lemma PrefixOfSortedByCount<K(!new)>(items: seq<(K, int)>, sorted: seq<(K, int)>, k: nat, top: seq<(K, int)>)
    requires SortedBy(sorted, ByCountDescending) && k <= |sorted|
    requires multiset(sorted) == multiset(items)
    requires top == sorted[..k]
    ensures multiset(top) <= multiset(items)
    ensures forall p :: p in top ==> p in items
    ensures |top| > 0 ==> forall p :: p in items && p !in top ==> p.1 <= top[|top| - 1].1
  {
    assert forall i :: 0 <= i < k ==> top[i] == sorted[i];
    assert sorted == top + sorted[k..];
    assert multiset(sorted) == multiset(top) + multiset(sorted[k..]);
    SortedByCountDescends(sorted);
    forall p | p in top
      ensures p in items
    {
      assert p in multiset(sorted);
    }
    forall p | k > 0 && p in items && p !in top
      ensures p.1 <= sorted[k - 1].1
    {
      assert p in multiset(sorted);
      var j :| 0 <= j < |sorted| && sorted[j] == p;
    }
  }

  lemma SameElements<T>(a: seq<T>, b: seq<T>)
    requires multiset(a) == multiset(b)
    ensures forall x :: x in a <==> x in b
  {
    forall x
      ensures x in a <==> x in b
    {
      assert x in a <==> x in multiset(a);
      assert x in b <==> x in multiset(b);
    }
  }

  /** Sorting by descending count leaves the counts descending. */
  lemma SortedByCountDescends<K>(sorted: seq<(K, int)>)
    requires SortedBy(sorted, ByCountDescending)
    ensures forall i, j :: 0 <= i < j < |sorted| ==> sorted[i].1 >= sorted[j].1
  {
    forall i, j | 0 <= i < j < |sorted|
      ensures sorted[i].1 >= sorted[j].1
    {
      assert KeyLe(ByCountDescending(sorted[i]), ByCountDescending(sorted[j]));
    }
  }

  /**
   * counter.most_common(n): the n pairs with the largest counts, largest
   * first, ties kept in key order.
   */
  function MostCommon<K(==,!new)>(items: seq<(K, int)>, n: nat): (top: seq<(K, int)>)
    ensures |top| == if n <= |items| then n else |items|
    ensures forall i, j :: 0 <= i < j < |top| ==> top[i].1 >= top[j].1
  {
    var sorted := SortBy(items, ByCountDescending);
    SortedByCountDescends(sorted);
    sorted[..if n <= |sorted| then n else |sorted|]
  }

  /** most_common(n) takes its pairs from the counter, each at most as often as it occurs there, and no pair left out has a larger count than the last one taken. */
  lemma MostCommonSelects<K(!new)>(items: seq<(K, int)>, n: nat, top: seq<(K, int)>)
    requires top == MostCommon(items, n)
    ensures multiset(top) <= multiset(items)
    ensures forall p :: p in top ==> p in items
    ensures |top| > 0 ==> forall p :: p in items && p !in top ==> p.1 <= top[|top| - 1].1
  {
    var sorted := SortBy(items, ByCountDescending);
    var k := if n <= |sorted| then n else |sorted|;
    PrefixOfSortedByCount(items, sorted, k, top);
  }

  /** most_common(n) of a counter, whose keys are distinct, takes no key twice. */
  lemma MostCommonKeysDistinct<K(!new)>(items: seq<(K, int)>, order: seq<K>, n: nat, top: seq<(K, int)>)
    requires |items| == |order| && NoDup(order)
    requires forall i :: 0 <= i < |items| ==> items[i].0 == order[i]
    requires top == MostCommon(items, n)
    ensures forall i, j :: 0 <= i < j < |top| ==> top[i].0 != top[j].0
  {
    var sorted := SortBy(items, ByCountDescending);
    var k := if n <= |sorted| then n else |sorted|;
    assert top == sorted[..k];
    assert DistinctKeys(items);
    PermutationKeepsKeysDistinct(items, sorted);
    forall i, j | 0 <= i < j < |top|
      ensures top[i].0 != top[j].0
    {
      assert top[i] == sorted[i] && top[j] == sorted[j];
    }
  }

  /** No key appears in two pairs: the items of a dictionary. */
  predicate DistinctKeys<K(==), V>(s: seq<(K, V)>) {
    forall i, j :: 0 <= i < j < |s| ==> s[i].0 != s[j].0
  }

  lemma MultiplicityTwo<T>(s: seq<T>, i: int, j: int)
    requires 0 <= i < j < |s|
    ensures s[i] == s[j] ==> multiset(s)[s[i]] >= 2
  {
    assert s == s[..i] + [s[i]] + s[i + 1..j] + [s[j]] + s[j + 1..];
  }

  /** In a list with distinct keys every pair occurs at most once. */
  lemma {:induction false} OccursOnce<K, V>(s: seq<(K, V)>, x: (K, V))
    requires DistinctKeys(s)
    ensures multiset(s)[x] <= 1
  {
    if |s| > 0 {
      var rest := s[1..];
      assert s == [s[0]] + rest;
      assert DistinctKeys(rest) by {
        forall i, j | 0 <= i < j < |rest|
          ensures rest[i].0 != rest[j].0
        {
          assert rest[i] == s[i + 1] && rest[j] == s[j + 1];
        }
      }
      OccursOnce(rest, x);
      if x == s[0] {
        assert x !in rest by {
          forall i | 0 <= i < |rest|
            ensures rest[i] != x
          {
            assert rest[i] == s[i + 1];
          }
        }
      }
    }
  }

  /** Reordering a list with distinct keys keeps the keys distinct. */
  lemma PermutationKeepsKeysDistinct<K, V>(a: seq<(K, V)>, b: seq<(K, V)>)
    requires DistinctKeys(a) && multiset(a) == multiset(b)
    ensures DistinctKeys(b)
  {
    forall i, j | 0 <= i < j < |b|
      ensures b[i].0 != b[j].0
    {
      assert b[i] in multiset(a) && b[j] in multiset(a);
      var x :| 0 <= x < |a| && a[x] == b[i];
      var y :| 0 <= y < |a| && a[y] == b[j];
      if b[i].0 == b[j].0 {
        assert x == y;
        MultiplicityTwo(b, i, j);
        OccursOnce(a, b[i]);
      }
    }
  }
}

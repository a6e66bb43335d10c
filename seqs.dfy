/**
 * Sequence helpers shared by the model: a stable insertion sort on a
 * lexicographic pair key (Python compares sort keys that are tuples the same
 * way), a filter, and minimum, maximum and sum of integer sequences.
 */
module Seqs {

  /** A sort key, compared lexicographically like a Python tuple. */
  type Key = (int, int)

  predicate KeyLe(a: Key, b: Key) {
    a.0 < b.0 || (a.0 == b.0 && a.1 <= b.1)
  }

  ghost predicate SortedBy<T>(s: seq<T>, key: T -> Key) {
    forall i, j :: 0 <= i < j < |s| ==> KeyLe(key(s[i]), key(s[j]))
  }

  /** Inserts x before the first element whose key is not smaller, which keeps the sort stable. */
  function InsertBy<T>(x: T, s: seq<T>, key: T -> Key): (r: seq<T>)
    requires SortedBy(s, key)
    ensures |r| == |s| + 1
    ensures multiset(r) == multiset(s) + multiset{x}
    ensures SortedBy(r, key)
  {
    if |s| == 0 then [x]
    else if KeyLe(key(x), key(s[0])) then
      PrependSorted(x, s, key);
      [x] + s
    else
      var t := InsertBy(x, s[1..], key);
      assert s == [s[0]] + s[1..];
      forall k | 0 <= k < |t|
        ensures KeyLe(key(s[0]), key(t[k]))
      {
        assert t[k] in multiset(t);
        if t[k] != x {
          assert t[k] in multiset(s[1..]);
          var j :| 0 <= j < |s[1..]| && s[1..][j] == t[k];
          assert s[j + 1] == t[k];
        }
      }
      PrependSorted(s[0], t, key);
      [s[0]] + t
  }

  /** A head whose key is at most every key of a sorted tail keeps the sequence sorted. */
  lemma PrependSorted<T>(h: T, t: seq<T>, key: T -> Key)
    requires SortedBy(t, key)
    requires forall k :: 0 <= k < |t| ==> KeyLe(key(h), key(t[k]))
    ensures SortedBy([h] + t, key)
  {
    forall i, j | 0 <= i < j < |[h] + t|
      ensures KeyLe(key(([h] + t)[i]), key(([h] + t)[j]))
    {
      assert ([h] + t)[j] == t[j - 1];
      if i > 0 {
        assert ([h] + t)[i] == t[i - 1];
      }
    }
  }

  /** Python's sorted(s, key=key): an ordered permutation of s. */
  function SortBy<T>(s: seq<T>, key: T -> Key): (r: seq<T>)
    ensures |r| == |s|
    ensures multiset(r) == multiset(s)
    ensures SortedBy(r, key)
  {
    if |s| == 0 then []
    else
      assert s == [s[0]] + s[1..];
      InsertBy(s[0], SortBy(s[1..], key), key)
  }

  lemma HeadIsLeast<T>(a: seq<T>, y: T, key: T -> Key)
    requires SortedBy(a, key) && y in multiset(a)
    ensures |a| > 0 && KeyLe(key(a[0]), key(y))
  {
    var k :| 0 <= k < |a| && a[k] == y;
    if k > 0 {
      assert KeyLe(key(a[0]), key(a[k]));
    }
  }

  /**
   * Two ordered permutations of the same multiset are equal when the key
   * tells elements apart.
   */
  lemma {:induction false} SortedUnique<T>(a: seq<T>, b: seq<T>, key: T -> Key)
    requires forall x, y :: key(x) == key(y) ==> x == y
    requires SortedBy(a, key) && SortedBy(b, key)
    requires multiset(a) == multiset(b)
    ensures a == b
  {
    if |a| == 0 {
      assert |multiset(b)| == 0;
    } else {
      assert a[0] in multiset(b);
      HeadIsLeast(b, a[0], key);
      assert b[0] in multiset(a);
      HeadIsLeast(a, b[0], key);
      assert key(a[0]) == key(b[0]);
      assert a[0] == b[0];
      assert a == [a[0]] + a[1..];
      assert b == [b[0]] + b[1..];
      assert multiset(a[1..]) == multiset(b[1..]) by {
        assert multiset(a) == multiset{a[0]} + multiset(a[1..]);
        assert multiset(b) == multiset{b[0]} + multiset(b[1..]);
        assert multiset(a[1..]) == multiset(a) - multiset{a[0]};
        assert multiset(b[1..]) == multiset(b) - multiset{b[0]};
      }
      SortedUnique(a[1..], b[1..], key);
    }
  }

  /** The elements of s that satisfy keep, in their original order. */
  function Filter<T(!new)>(s: seq<T>, keep: T -> bool): (r: seq<T>)
    ensures |r| <= |s|
    ensures forall i :: 0 <= i < |r| ==> keep(r[i])
    ensures multiset(r) <= multiset(s)
    ensures forall x :: multiset(r)[x] == if keep(x) then multiset(s)[x] else 0
  {
    if |s| == 0 then []
    else
      var head := if keep(s[0]) then [s[0]] else [];
      var t := Filter(s[1..], keep);
      assert multiset(s) == multiset{s[0]} + multiset(s[1..]) by {
        assert s == [s[0]] + s[1..];
      }
      assert multiset(head + t) == multiset(head) + multiset(t);
      head + t
  }

  lemma FilterCons<T(!new)>(s: seq<T>, keep: T -> bool)
    requires |s| > 0
    ensures keep(s[0]) ==> Filter(s, keep) == [s[0]] + Filter(s[1..], keep)
    ensures !keep(s[0]) ==> Filter(s, keep) == Filter(s[1..], keep)
  {
  }

  /** Membership in a filtered sequence, one element at a time. */
  lemma {:induction false} FilterMember<T(!new)>(s: seq<T>, keep: T -> bool, x: T)
    ensures x in Filter(s, keep) <==> x in s && keep(x)
  {
    if |s| > 0 {
      FilterMember(s[1..], keep, x);
      assert s == [s[0]] + s[1..];
      assert Filter(s, keep) == (if keep(s[0]) then [s[0]] else []) + Filter(s[1..], keep);
    }
  }

  /**
   * Filtering distributes over concatenation. Together with the one-element
   * case, this pins the order: the kept elements stay in their input order.
   */
  lemma {:induction false} FilterAppend<T(!new)>(a: seq<T>, b: seq<T>, keep: T -> bool)
    ensures Filter(a + b, keep) == Filter(a, keep) + Filter(b, keep)
  {
    if |a| == 0 {
      assert a + b == b;
      assert Filter(a, keep) == [];
    } else {
      assert (a + b)[0] == a[0];
      assert (a + b)[1..] == a[1..] + b;
      FilterAppend(a[1..], b, keep);
      FilterCons(a + b, keep);
      FilterCons(a, keep);
      if keep(a[0]) {
        AppendAssociative([a[0]], Filter(a[1..], keep), Filter(b, keep));
      }
    }
  }

  lemma AppendAssociative<T>(x: seq<T>, y: seq<T>, z: seq<T>)
    ensures x + (y + z) == (x + y) + z
  {
  }

  /** A one-element list is kept exactly when its element satisfies the condition. */
  lemma FilterSingle<T(!new)>(x: T, keep: T -> bool)
    ensures Filter([x], keep) == if keep(x) then [x] else []
  {
    assert [x][1..] == [];
  }

  function Sum(s: seq<int>): int {
    if |s| == 0 then 0 else s[0] + Sum(s[1..])
  }

  /** Python's min() of a non-empty list. */
  function SeqMin(s: seq<int>): (m: int)
    requires |s| > 0
    ensures m in s
    ensures forall i :: 0 <= i < |s| ==> m <= s[i]
  {
    if |s| == 1 then s[0]
    else
      var t := SeqMin(s[1..]);
      if s[0] <= t then s[0] else t
  }

  /** Python's max() of a non-empty list. */
  function SeqMax(s: seq<int>): (m: int)
    requires |s| > 0
    ensures m in s
    ensures forall i :: 0 <= i < |s| ==> s[i] <= m
  {
    if |s| == 1 then s[0]
    else
      var t := SeqMax(s[1..]);
      if s[0] >= t then s[0] else t
  }

  /** The smallest of a non-empty set of integers. */
  ghost function Smallest(xs: set<int>): (m: int)
    requires xs != {}
    ensures m in xs && forall d :: d in xs ==> m <= d
    decreases |xs|
  {
    assert (forall d :: d !in xs) ==> xs == {};
    var x :| x in xs;
    var rest := xs - {x};
    if rest == {} then
      assert forall d :: d in xs ==> d == x by {
        forall d | d in xs ensures d == x {
          assert d !in rest;
        }
      }
      x
    else
      var m := Smallest(rest);
      assert forall d :: d in xs ==> d == x || d in rest;
      if x < m then x else m
  }

  /** sorted(xs) for a set of integers: its elements in ascending order. */
  function SortedSet(xs: set<int>): (s: seq<int>)
    ensures forall i, j :: 0 <= i < j < |s| ==> s[i] < s[j]
    ensures forall d :: d in s <==> d in xs
    decreases |xs|
  {
    if xs == {} then []
    else
      var m := Least(xs);
      var rest := SortedSet(xs - {m});
      LeastBeforeRest(m, rest);
      [m] + rest
  }

  predicate IsLeast(m: int, xs: set<int>) {
    m in xs && forall d :: d in xs ==> m <= d
  }

  /** min(xs), as a value the program can compute: the least element is unique. */
  function Least(xs: set<int>): (m: int)
    requires xs != {}
    ensures IsLeast(m, xs)
  {
    assert IsLeast(Smallest(xs), xs);
    var m :| IsLeast(m, xs);
    m
  }

  lemma LeastBeforeRest(m: int, rest: seq<int>)
    requires forall d :: d in rest ==> m < d
    ensures forall i :: 0 <= i < |rest| ==> m < rest[i]
  {
    forall i | 0 <= i < |rest|
      ensures m < rest[i]
    {
      assert rest[i] in rest;
    }
  }
}

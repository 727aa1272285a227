/**
 * `Array.prototype.filter` and `filter(...).length`, the two list
 * operations the dashboard components are built from, with the facts
 * about them that the components' properties rest on.
 */
module Seqs {

  /** `s.filter(p).length`. */
  function Count<T>(s: seq<T>, p: T -> bool): (n: nat)
    ensures n <= |s|
  {
    if s == [] then 0 else Count(s[..|s| - 1], p) + (if p(s[|s| - 1]) then 1 else 0)
  }

  /** `s.filter(p)`: the elements satisfying p, in their original order. */
  function Filter<T(!new)>(s: seq<T>, p: T -> bool): (r: seq<T>)
    ensures |r| == Count(s, p)
    ensures forall x :: x in r <==> x in s && p(x)
  {
    if s == [] then [] else Filter(s[..|s| - 1], p) + (if p(s[|s| - 1]) then [s[|s| - 1]] else [])
  }

  lemma {:induction false} CountAppend<T>(a: seq<T>, b: seq<T>, p: T -> bool)
    ensures Count(a + b, p) == Count(a, p) + Count(b, p)
    decreases |b|
  {
    if b == [] {
      assert a + b == a;
    } else {
      assert (a + b)[..|a + b| - 1] == a + b[..|b| - 1];
      CountAppend(a, b[..|b| - 1], p);
    }
  }

  lemma {:induction false} FilterAppend<T(!new)>(a: seq<T>, b: seq<T>, p: T -> bool)
    ensures Filter(a + b, p) == Filter(a, p) + Filter(b, p)
    decreases |b|
  {
    if b == [] {
      assert a + b == a;
    } else {
      assert (a + b)[..|a + b| - 1] == a + b[..|b| - 1];
      FilterAppend(a, b[..|b| - 1], p);
    }
  }

  /** Filtering with a predicate that holds everywhere changes nothing. */
  lemma {:induction false} FilterAll<T(!new)>(s: seq<T>, p: T -> bool)
    requires forall i :: 0 <= i < |s| ==> p(s[i])
    ensures Filter(s, p) == s
  {
    if s != [] {
      FilterAll(s[..|s| - 1], p);
    }
  }

  /** Two predicates that agree on the elements of s count the same. */
  lemma {:induction false} CountCongruent<T>(s: seq<T>, p: T -> bool, q: T -> bool)
    requires forall i :: 0 <= i < |s| ==> p(s[i]) == q(s[i])
    ensures Count(s, p) == Count(s, q)
  {
    if s != [] {
      CountCongruent(s[..|s| - 1], p, q);
    }
  }

  /** Filtering with equivalent predicates gives the same list. */
  lemma {:induction false} FilterCongruent<T(!new)>(s: seq<T>, p: T -> bool, q: T -> bool)
    requires forall i :: 0 <= i < |s| ==> p(s[i]) == q(s[i])
    ensures Filter(s, p) == Filter(s, q)
  {
    if s != [] {
      FilterCongruent(s[..|s| - 1], p, q);
    }
  }

  /** A count is additive over predicates that never hold together. */
  lemma {:induction false} CountSplit<T>(s: seq<T>, r: T -> bool, p: T -> bool, q: T -> bool)
    requires forall i :: 0 <= i < |s| ==> (r(s[i]) <==> p(s[i]) || q(s[i]))
    requires forall i :: 0 <= i < |s| ==> !(p(s[i]) && q(s[i]))
    ensures Count(s, r) == Count(s, p) + Count(s, q)
  {
    if s != [] {
      CountSplit(s[..|s| - 1], r, p, q);
    }
  }

  lemma {:induction false} CountMonotone<T>(s: seq<T>, p: T -> bool, q: T -> bool)
    requires forall i :: 0 <= i < |s| ==> p(s[i]) ==> q(s[i])
    ensures Count(s, p) <= Count(s, q)
  {
    if s != [] {
      CountMonotone(s[..|s| - 1], p, q);
    }
  }

  lemma {:induction false} CountNone<T>(s: seq<T>, p: T -> bool)
    requires forall i :: 0 <= i < |s| ==> !p(s[i])
    ensures Count(s, p) == 0
  {
    if s != [] {
      CountNone(s[..|s| - 1], p);
    }
  }

  /** One element that fails p keeps the count below the length. */
  lemma {:induction false} CountBelowLength<T>(s: seq<T>, p: T -> bool, k: nat)
    requires k < |s| && !p(s[k])
    ensures Count(s, p) < |s|
  {
    if k < |s| - 1 {
      CountBelowLength(s[..|s| - 1], p, k);
    }
  }

  /** A predicate that holds everywhere counts every element. */
  lemma {:induction false} CountAll<T>(s: seq<T>, p: T -> bool)
    requires forall i :: 0 <= i < |s| ==> p(s[i])
    ensures Count(s, p) == |s|
  {
    if s != [] {
      CountAll(s[..|s| - 1], p);
    }
  }

  /** One element satisfying p makes the count positive. */
  lemma {:induction false} CountPositive<T>(s: seq<T>, p: T -> bool, k: nat)
    requires k < |s| && p(s[k])
    ensures Count(s, p) > 0
    decreases |s|
  {
    if k < |s| - 1 {
      CountPositive(s[..|s| - 1], p, k);
    }
  }

  /** The count depends only on the multiset of elements, not on their order. */
  lemma {:induction false} CountPermutation<T>(a: seq<T>, b: seq<T>, p: T -> bool)
    requires multiset(a) == multiset(b)
    ensures Count(a, p) == Count(b, p)
    decreases |a|
  {
    if a != [] {
      var x := a[|a| - 1];
      assert x in multiset(b);
      var j :| 0 <= j < |b| && b[j] == x;
      var rest := b[..j] + b[j + 1..];
      assert b == b[..j] + [x] + b[j + 1..];
      assert a == a[..|a| - 1] + [x];
      assert multiset(b) == multiset(b[..j]) + multiset{x} + multiset(b[j + 1..]);
      assert multiset(a) == multiset(a[..|a| - 1]) + multiset{x};
      assert multiset(rest) == multiset(b[..j]) + multiset(b[j + 1..]);
      assert multiset(a[..|a| - 1]) == multiset(a) - multiset{x};
      assert multiset(rest) == multiset(b) - multiset{x};
      CountPermutation(a[..|a| - 1], rest, p);
      CountAppend(b[..j] + [x], b[j + 1..], p);
      CountAppend(b[..j], [x], p);
      CountAppend(b[..j], b[j + 1..], p);
      assert Count([x], p) == if p(x) then 1 else 0 by {
        assert [x][..0] == [];
      }
    }
  }

  /** The keys of the elements satisfying p: `Object.keys` of a reduce that files each such element under key(x). */
  function KeysOf<T, K>(s: seq<T>, p: T -> bool, key: T -> K): set<K> {
    if s == [] then {}
    else KeysOf(s[..|s| - 1], p, key) + (if p(s[|s| - 1]) then {key(s[|s| - 1])} else {})
  }

  lemma {:induction false} KeysOfMembership<T, K>(s: seq<T>, p: T -> bool, key: T -> K, k: K)
    ensures k in KeysOf(s, p, key) <==> exists i :: 0 <= i < |s| && p(s[i]) && key(s[i]) == k
  {
    if s != [] {
      var prefix := s[..|s| - 1];
      KeysOfMembership(prefix, p, key, k);
      if exists i :: 0 <= i < |prefix| && p(prefix[i]) && key(prefix[i]) == k {
        var i :| 0 <= i < |prefix| && p(prefix[i]) && key(prefix[i]) == k;
        assert s[i] == prefix[i];
      }
      if exists i :: 0 <= i < |s| && p(s[i]) && key(s[i]) == k {
        var i :| 0 <= i < |s| && p(s[i]) && key(s[i]) == k;
        if i < |prefix| {
          assert prefix[i] == s[i];
        }
      }
    }
  }

  /** There are no more keys than elements filed. */
  lemma {:induction false} KeysOfBound<T, K>(s: seq<T>, p: T -> bool, key: T -> K)
    ensures |KeysOf(s, p, key)| <= Count(s, p)
  {
    if s != [] {
      KeysOfBound(s[..|s| - 1], p, key);
    }
  }

  /** r is s with some elements dropped: idx maps each position of r, strictly increasingly, to its position in s. */
  ghost predicate IndexMap<T>(r: seq<T>, s: seq<T>, idx: seq<int>) {
    && |idx| == |r|
    && (forall j :: 0 <= j < |idx| ==> 0 <= idx[j] < |s| && r[j] == s[idx[j]])
    && (forall j, j' :: 0 <= j < j' < |idx| ==> idx[j] < idx[j'])
  }

  /** The positions `s.filter(p)` takes its elements from, which increase. */
  lemma {:induction false} FilterIndices<T(!new)>(s: seq<T>, p: T -> bool) returns (idx: seq<int>)
    ensures IndexMap(Filter(s, p), s, idx)
  {
    if s == [] {
      idx := [];
    } else {
      var prefix := s[..|s| - 1];
      var last := s[|s| - 1];
      var idx' := FilterIndices(prefix, p);
      assert s == prefix + [last];
      IndexMapExtend(Filter(prefix, p), prefix, last, idx');
      if p(last) {
        idx := idx' + [|prefix|];
        assert Filter(s, p) == Filter(prefix, p) + [last];
      } else {
        idx := idx';
        assert Filter(s, p) == Filter(prefix, p);
      }
    }
  }

  /** Appending to s keeps an index map, and appending the same element to both extends it. */
  lemma IndexMapExtend<T>(r: seq<T>, prefix: seq<T>, x: T, idx: seq<int>)
    requires IndexMap(r, prefix, idx)
    ensures IndexMap(r, prefix + [x], idx)
    ensures IndexMap(r + [x], prefix + [x], idx + [|prefix|])
  {
    var s := prefix + [x];
    forall j | 0 <= j < |idx|
      ensures s[idx[j]] == prefix[idx[j]]
    {
    }
  }

  /** `filter` keeps the order of the elements it keeps. */
  lemma FilterIsSubsequence<T(!new)>(s: seq<T>, p: T -> bool)
    ensures exists idx :: IndexMap(Filter(s, p), s, idx)
  {
    var idx := FilterIndices(s, p);
  }

  /** A subsequence of a sorted list is sorted. */
  lemma SubsequenceKeepsSorted<T>(r: seq<T>, s: seq<T>, idx: seq<int>, le: (T, T) -> bool)
    requires IndexMap(r, s, idx)
    requires forall i, j :: 0 <= i < j < |s| ==> le(s[i], s[j])
    ensures forall i, j :: 0 <= i < j < |r| ==> le(r[i], r[j])
  {
    forall i, j | 0 <= i < j < |r|
      ensures le(r[i], r[j])
    {
      assert idx[i] < idx[j];
    }
  }

  /** Filtering a list ordered by le leaves it ordered by le. */
  lemma FilterKeepsOrder<T(!new)>(s: seq<T>, p: T -> bool, le: (T, T) -> bool)
    ensures (forall i, j :: 0 <= i < j < |s| ==> le(s[i], s[j])) ==>
      forall i, j :: 0 <= i < j < |Filter(s, p)| ==> le(Filter(s, p)[i], Filter(s, p)[j])
  {
    if forall i, j :: 0 <= i < j < |s| ==> le(s[i], s[j]) {
      var idx := FilterIndices(s, p);
      SubsequenceKeepsSorted(Filter(s, p), s, idx, le);
    }
  }

  /**
   * The keys of the elements satisfying p, each once, in the order of
   * their first occurrence: the insertion order of an object filled by a
   * reduce, which `Object.keys`, `Object.values` and `Object.entries` follow.
   */
  function FirstKeys<T, K(==)>(s: seq<T>, p: T -> bool, key: T -> K): seq<K> {
    if s == [] then []
    else
      var prev := FirstKeys(s[..|s| - 1], p, key);
      if p(s[|s| - 1]) && key(s[|s| - 1]) !in prev then prev + [key(s[|s| - 1])] else prev
  }

  /** A key is listed exactly when some element satisfying p has it. */
  lemma {:induction false} FirstKeysMembers<T, K>(s: seq<T>, p: T -> bool, key: T -> K, k: K)
    ensures k in FirstKeys(s, p, key) <==> k in KeysOf(s, p, key)
  {
    if s != [] {
      FirstKeysMembers(s[..|s| - 1], p, key, k);
    }
  }

  /** No key is listed twice. */
  lemma {:induction false} FirstKeysDistinct<T, K>(s: seq<T>, p: T -> bool, key: T -> K)
    ensures forall a, b :: 0 <= a < b < |FirstKeys(s, p, key)| ==> FirstKeys(s, p, key)[a] != FirstKeys(s, p, key)[b]
  {
    if s != [] {
      FirstKeysDistinct(s[..|s| - 1], p, key);
    }
  }

  /** The next step of the reduce: a key not seen before is appended. */
  lemma FirstKeysStep<T, K>(s: seq<T>, i: nat, p: T -> bool, key: T -> K)
    requires i < |s|
    ensures FirstKeys(s[..i + 1], p, key) ==
      FirstKeys(s[..i], p, key) + (if p(s[i]) && key(s[i]) !in KeysOf(s[..i], p, key) then [key(s[i])] else [])
  {
    assert s[..i + 1][..i] == s[..i];
    FirstKeysMembers(s[..i], p, key, key(s[i]));
  }

  /** Position i is the first element satisfying p with its key. */
  predicate FirstWithKey<T, K(==)>(s: seq<T>, p: T -> bool, key: T -> K, i: int) {
    0 <= i < |s| && p(s[i]) && forall j :: 0 <= j < i ==> !(p(s[j]) && key(s[j]) == key(s[i]))
  }

  /** Keys are listed in the order in which they first occur. */
  lemma {:induction false} FirstKeysOrdered<T, K>(s: seq<T>, p: T -> bool, key: T -> K, i: int, j: int)
    requires FirstWithKey(s, p, key, i) && FirstWithKey(s, p, key, j) && i < j
    ensures exists a, b ::
      0 <= a < b < |FirstKeys(s, p, key)| && FirstKeys(s, p, key)[a] == key(s[i]) && FirstKeys(s, p, key)[b] == key(s[j])
  {
    var prefix := s[..|s| - 1];
    var prev := FirstKeys(prefix, p, key);
    if j == |s| - 1 {
      assert prefix[i] == s[i];
      assert p(prefix[i]) && key(prefix[i]) == key(s[i]);
      KeysOfMembership(prefix, p, key, key(s[i]));
      assert key(s[i]) in KeysOf(prefix, p, key);
      FirstKeysMembers(prefix, p, key, key(s[i]));
      assert key(s[i]) in prev;
      var a :| 0 <= a < |prev| && prev[a] == key(s[i]);
      KeysOfMembership(prefix, p, key, key(s[j]));
      FirstKeysMembers(prefix, p, key, key(s[j]));
      assert key(s[j]) !in KeysOf(prefix, p, key) by {
        forall m | 0 <= m < |prefix| && p(prefix[m])
          ensures key(prefix[m]) != key(s[j])
        {
          assert prefix[m] == s[m];
        }
      }
      assert FirstKeys(s, p, key) == prev + [key(s[j])];
      assert FirstKeys(s, p, key)[a] == key(s[i]);
      assert FirstKeys(s, p, key)[|prev|] == key(s[j]);
    } else {
      assert FirstWithKey(prefix, p, key, i) by {
        assert forall m :: 0 <= m <= i ==> prefix[m] == s[m];
      }
      assert FirstWithKey(prefix, p, key, j) by {
        assert forall m :: 0 <= m <= j ==> prefix[m] == s[m];
      }
      FirstKeysOrdered(prefix, p, key, i, j);
      var a, b :| 0 <= a < b < |prev| && prev[a] == key(prefix[i]) && prev[b] == key(prefix[j]);
      assert FirstKeys(s, p, key)[..|prev|] == prev;
      assert FirstKeys(s, p, key)[a] == key(s[i]) && FirstKeys(s, p, key)[b] == key(s[j]);
    }
  }
}

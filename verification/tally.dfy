/**
 * Sequence building blocks shared by the dashboards: the order-preserving
 * `Array.prototype.filter`, counting, first-appearance de-duplication (the key
 * order of a JavaScript `Map` or `Set` filled in one pass), and the stable
 * descending sort that `sort((a, b) => key(b) - key(a))` performs.
 */
module Tally {

  /** `a` is `b` with some elements deleted, the rest kept in order. */
  predicate IsSubsequence<T(==)>(a: seq<T>, b: seq<T>)
    decreases |b|
  {
    if |a| == 0 then true
    else if |b| == 0 then false
    else if a[|a| - 1] == b[|b| - 1] then IsSubsequence(a[..|a| - 1], b[..|b| - 1])
    else IsSubsequence(a, b[..|b| - 1])
  }

  /** `s.filter(p)`. */
  function Keep<T(!new)>(s: seq<T>, p: T -> bool): (r: seq<T>)
    ensures |r| <= |s|
    ensures forall x :: x in r <==> x in s && p(x)
  {
    if |s| == 0 then []
    else
      var init := Keep(s[..|s| - 1], p);
      assert forall x :: x in s <==> x in s[..|s| - 1] || x == s[|s| - 1] by {
        assert s == s[..|s| - 1] + [s[|s| - 1]];
      }
      if p(s[|s| - 1]) then init + [s[|s| - 1]] else init
  }

  /** Filtering keeps every occurrence of a passing element and none of the
      others. */
  lemma {:induction false} KeepCount<T(!new)>(s: seq<T>, p: T -> bool, x: T)
    ensures multiset(Keep(s, p))[x] == if p(x) then multiset(s)[x] else 0
  {
    if |s| > 0 {
      var init := s[..|s| - 1];
      KeepCount(init, p, x);
      assert s == init + [s[|s| - 1]];
      assert multiset(s) == multiset(init) + multiset{s[|s| - 1]};
    }
  }

  /** The kept elements keep their relative order. */
  lemma {:induction false} KeepIsSubsequence<T(!new)>(s: seq<T>, p: T -> bool)
    ensures IsSubsequence(Keep(s, p), s)
  {
    if |s| > 0 {
      var init := s[..|s| - 1];
      KeepIsSubsequence(init, p);
      var r := Keep(s, p);
      if p(s[|s| - 1]) {
        assert r[..|r| - 1] == Keep(init, p);
      } else {
        SubsequenceOfPrefix(Keep(init, p), init, s[|s| - 1]);
      }
    }
  }

  lemma {:induction false} SubsequenceOfSelf<T>(s: seq<T>)
    ensures IsSubsequence(s, s)
  {
    if |s| > 0 {
      SubsequenceOfSelf(s[..|s| - 1]);
    }
  }

  lemma {:induction false} SubsequenceOfPrefix<T>(a: seq<T>, b: seq<T>, x: T)
    requires IsSubsequence(a, b)
    ensures IsSubsequence(a, b + [x])
    decreases |b|, 1
  {
    var bx := b + [x];
    assert bx[..|bx| - 1] == b;
    if |a| > 0 && a[|a| - 1] == x {
      // the last element of `a` is matched in `b`; match it against `x` instead
      SubsequenceDropLast(a, b);
    }
  }

  lemma {:induction false} SubsequenceDropLast<T>(a: seq<T>, b: seq<T>)
    requires |a| > 0 && IsSubsequence(a, b)
    ensures IsSubsequence(a[..|a| - 1], b)
    decreases |b|, 0
  {
    var a' := a[..|a| - 1];
    if |a'| > 0 {
      var b' := b[..|b| - 1];
      if a[|a| - 1] == b[|b| - 1] {
        SubsequenceOfPrefix(a', b', b[|b| - 1]);
      } else {
        SubsequenceDropLast(a, b');
        SubsequenceOfPrefix(a', b', b[|b| - 1]);
      }
    }
  }

  /** Two tests that agree on every element keep the same elements. */
  lemma {:induction false} KeepSame<T(!new)>(s: seq<T>, p: T -> bool, q: T -> bool)
    requires forall x :: x in s ==> p(x) == q(x)
    ensures Keep(s, p) == Keep(s, q)
  {
    if |s| > 0 {
      KeepSame(s[..|s| - 1], p, q);
    }
  }

  /** Filtering twice is filtering once by both tests. */
  lemma {:induction false} KeepKeep<T(!new)>(s: seq<T>, p: T -> bool, q: T -> bool, pq: T -> bool)
    requires forall x :: pq(x) == (p(x) && q(x))
    ensures Keep(Keep(s, p), q) == Keep(s, pq)
  {
    if |s| > 0 {
      var init := s[..|s| - 1];
      KeepKeep(init, p, q, pq);
      var k := Keep(s, p);
      if p(s[|s| - 1]) {
        assert k[..|k| - 1] == Keep(init, p);
      }
    }
  }

  /** Filtering only ever drops elements. */
  lemma {:induction false} KeepSubMultiset<T(!new)>(s: seq<T>, p: T -> bool)
    ensures multiset(Keep(s, p)) <= multiset(s)
  {
    if |s| > 0 {
      var init := s[..|s| - 1];
      KeepSubMultiset(init, p);
      assert s == init + [s[|s| - 1]];
    }
  }

  /** A test every element passes keeps the whole sequence. */
  lemma {:induction false} KeepAll<T(!new)>(s: seq<T>, p: T -> bool)
    requires forall x :: x in s ==> p(x)
    ensures Keep(s, p) == s
  {
    if |s| > 0 {
      KeepAll(s[..|s| - 1], p);
    }
  }

  /** A test no element passes keeps nothing. */
  lemma {:induction false} KeepNone<T(!new)>(s: seq<T>, p: T -> bool)
    requires forall x :: x in s ==> !p(x)
    ensures Keep(s, p) == []
  {
    if |s| > 0 {
      KeepNone(s[..|s| - 1], p);
    }
  }

  lemma OnlyLastKept<T(!new)>(s: seq<T>, x: T, p: T -> bool)
    requires forall y :: y in s ==> !p(y)
    requires p(x)
    ensures Keep(s + [x], p) == [x]
  {
    KeepNone(s, p);
    assert (s + [x])[..|s|] == s;
  }

  /** A test and its negation split a sequence into two parts whose sizes and
      elements add up to the whole. */
  lemma {:induction false} KeepPartition<T(!new)>(s: seq<T>, p: T -> bool, q: T -> bool)
    requires forall x :: q(x) == !p(x)
    ensures |Keep(s, p)| + |Keep(s, q)| == |s|
    ensures multiset(Keep(s, p)) + multiset(Keep(s, q)) == multiset(s)
  {
    if |s| > 0 {
      var init := s[..|s| - 1];
      KeepPartition(init, p, q);
      assert s == init + [s[|s| - 1]];
    }
  }

  /** Number of occurrences of `x` in `s`. */
  function Count<T(==)>(s: seq<T>, x: T): nat
  {
    if |s| == 0 then 0
    else Count(s[..|s| - 1], x) + (if s[|s| - 1] == x then 1 else 0)
  }

  lemma {:induction false} CountPositive<T>(s: seq<T>, x: T)
    ensures Count(s, x) > 0 <==> x in s
  {
    if |s| > 0 {
      CountPositive(s[..|s| - 1], x);
      assert s == s[..|s| - 1] + [s[|s| - 1]];
    }
  }

  /** Occurrences in a concatenation add up. */
  lemma {:induction false} CountAppend<T>(a: seq<T>, b: seq<T>, x: T)
    ensures Count(a + b, x) == Count(a, x) + Count(b, x)
  {
    if |b| > 0 {
      CountAppend(a, b[..|b| - 1], x);
      assert (a + b)[..|a + b| - 1] == a + b[..|b| - 1];
    } else {
      assert a + b == a;
    }
  }

  predicate NoDuplicates<T(==)>(s: seq<T>) {
    forall i, j :: 0 <= i < j < |s| ==> s[i] != s[j]
  }

  /** The distinct elements of `s` in order of first appearance: the key
      order of a `Map` or `Set` filled by one pass over `s`. */
  function Distinct<T(==,!new)>(s: seq<T>): (d: seq<T>)
    ensures forall x :: x in d <==> x in s
    ensures NoDuplicates(d)
  {
    if |s| == 0 then []
    else
      var init := Distinct(s[..|s| - 1]);
      assert forall x :: x in s <==> x in s[..|s| - 1] || x == s[|s| - 1] by {
        assert s == s[..|s| - 1] + [s[|s| - 1]];
      }
      if s[|s| - 1] in s[..|s| - 1] then init else init + [s[|s| - 1]]
  }

  /** The index of the first occurrence of `x` in `s`. */
  function FirstIndex<T(==)>(s: seq<T>, x: T): (i: nat)
    requires x in s
    ensures i < |s| && s[i] == x
    ensures forall j :: 0 <= j < i ==> s[j] != x
  {
    if s[0] == x then 0 else 1 + FirstIndex(s[1..], x)
  }

  /** An index holding `x` with no `x` before it is the first index. */
  lemma FirstIndexAt<T>(s: seq<T>, x: T, i: nat)
    requires i < |s| && s[i] == x
    requires forall j :: 0 <= j < i ==> s[j] != x
    ensures FirstIndex(s, x) == i
  {
    var k := FirstIndex(s, x);
    assert !(k < i);
    assert !(i < k);
  }

  /** Appending elements does not move a first occurrence. */
  lemma FirstIndexPrefix<T>(s: seq<T>, t: seq<T>, x: T)
    requires x in s
    ensures FirstIndex(s + t, x) == FirstIndex(s, x)
  {
    var k := FirstIndex(s, x);
    FirstIndexAt(s + t, x, k);
  }

  /** `Distinct` lists the values in the order in which they first appear. */
  lemma {:induction false} DistinctInOrder<T(!new)>(s: seq<T>)
    ensures forall i, j :: 0 <= i < j < |Distinct(s)| ==>
      FirstIndex(s, Distinct(s)[i]) < FirstIndex(s, Distinct(s)[j])
  {
    if |s| > 0 {
      var init := s[..|s| - 1];
      var last := s[|s| - 1];
      var d0 := Distinct(init);
      var d := Distinct(s);
      DistinctInOrder(init);
      assert s == init + [last];
      forall x | x in init
        ensures FirstIndex(s, x) == FirstIndex(init, x) < |init|
      {
        FirstIndexPrefix(init, [last], x);
      }
      if last !in init {
        FirstIndexAt(s, last, |init|);
      }
      forall i, j | 0 <= i < j < |d|
        ensures FirstIndex(s, d[i]) < FirstIndex(s, d[j])
      {
        assert d[i] == d0[i] && d0[i] in d0;
        if j < |d0| {
          assert d[j] == d0[j] && d0[j] in d0;
        }
      }
    }
  }

  /** Sum, over `keys`, of the number of occurrences of each key in `s`. */
  function SumCounts<T(==)>(s: seq<T>, keys: seq<T>): nat
  {
    if |keys| == 0 then 0
    else SumCounts(s, keys[..|keys| - 1]) + Count(s, keys[|keys| - 1])
  }

  lemma {:induction false} SumCountsSnoc<T>(s: seq<T>, x: T, keys: seq<T>)
    ensures SumCounts(s + [x], keys) == SumCounts(s, keys) + Count(keys, x)
  {
    var sx := s + [x];
    assert sx[..|sx| - 1] == s;
    if |keys| > 0 {
      SumCountsSnoc(s, x, keys[..|keys| - 1]);
    }
  }

  lemma {:induction false} CountInDistinct<T>(d: seq<T>, x: T)
    requires NoDuplicates(d)
    ensures Count(d, x) == if x in d then 1 else 0
  {
    if |d| > 0 {
      var init := d[..|d| - 1];
      CountInDistinct(init, x);
      assert d == init + [d[|d| - 1]];
      assert d[|d| - 1] !in init;
    }
  }

  /** Counting every distinct value once accounts for every element exactly
      once: the group sizes of a one-pass grouping add up to the input size. */
  lemma {:induction false} CountsCoverAll<T(!new)>(s: seq<T>)
    ensures SumCounts(s, Distinct(s)) == |s|
  {
    if |s| > 0 {
      var init := s[..|s| - 1];
      var x := s[|s| - 1];
      assert s == init + [x];
      CountsCoverAll(init);
      var d := Distinct(init);
      SumCountsSnoc(init, x, d);
      CountInDistinct(d, x);
      if x !in init {
        assert Distinct(s) == d + [x];
        assert (d + [x])[..|d|] == d;
        CountPositive(init, x);
      }
    }
  }

  /** Each key with its number of occurrences in `s`. */
  function Groups<T(==)>(s: seq<T>, keys: seq<T>): (r: seq<(T, nat)>)
    ensures |r| == |keys| && forall i :: 0 <= i < |r| ==> r[i] == (keys[i], Count(s, keys[i]))
  {
    seq(|keys|, i requires 0 <= i < |keys| => (keys[i], Count(s, keys[i])))
  }

  /** `d3.rollup(s, v => v.length, x => x)` read back as an array: every
      distinct value once, in order of first appearance, with the size of
      its group. */
  function Rollup<T(==,!new)>(s: seq<T>): (r: seq<(T, nat)>)
    ensures forall i :: 0 <= i < |r| ==> r[i].1 == Count(s, r[i].0) && r[i].1 > 0
    ensures forall x :: x in s <==> exists i :: 0 <= i < |r| && r[i].0 == x
    ensures forall i, j :: 0 <= i < j < |r| ==> r[i].0 != r[j].0
  {
    var d := Distinct(s);
    var r := Groups(s, d);
    forall i | 0 <= i < |r| ensures r[i].1 > 0 {
      CountPositive(s, d[i]);
    }
    assert forall x :: x in d ==> exists i :: 0 <= i < |r| && r[i].0 == x by {
      forall x | x in d ensures exists i :: 0 <= i < |r| && r[i].0 == x {
        var i :| 0 <= i < |d| && d[i] == x;
        assert r[i].0 == x;
      }
    }
    r
  }

  /** The sum of the group sizes. */
  function GroupSizes<T>(r: seq<(T, nat)>): nat {
    if |r| == 0 then 0 else GroupSizes(r[..|r| - 1]) + r[|r| - 1].1
  }

  lemma {:induction false} GroupSizesOfGroups<T>(s: seq<T>, keys: seq<T>)
    ensures GroupSizes(Groups(s, keys)) == SumCounts(s, keys)
  {
    if |keys| > 0 {
      GroupSizesOfGroups(s, keys[..|keys| - 1]);
      assert Groups(s, keys)[..|keys| - 1] == Groups(s, keys[..|keys| - 1]);
    }
  }

  /** The groups of a rollup account for every element exactly once. */
  lemma RollupCoversAll<T(!new)>(s: seq<T>)
    ensures GroupSizes(Rollup(s)) == |s|
  {
    GroupSizesOfGroups(s, Distinct(s));
    CountsCoverAll(s);
  }

  /** Every element before every later one, by `key`, largest first. */
  predicate SortedDesc<T>(s: seq<T>, key: T -> real) {
    forall i, j :: 0 <= i < j < |s| ==> key(s[i]) >= key(s[j])
  }

  /** Places `x` after every element whose key is at least its own. */
  function InsertDesc<T>(x: T, s: seq<T>, key: T -> real): seq<T>
  {
    if |s| == 0 then [x]
    else if key(s[0]) >= key(x) then [s[0]] + InsertDesc(x, s[1..], key)
    else [x] + s
  }

  lemma {:induction false} InsertDescMultiset<T>(x: T, s: seq<T>, key: T -> real)
    ensures multiset(InsertDesc(x, s, key)) == multiset(s) + multiset{x}
    ensures |InsertDesc(x, s, key)| == |s| + 1
  {
    if |s| > 0 && key(s[0]) >= key(x) {
      InsertDescMultiset(x, s[1..], key);
      assert s == [s[0]] + s[1..];
    }
  }

  lemma {:induction false} InsertDescSpec<T>(x: T, s: seq<T>, key: T -> real)
    requires SortedDesc(s, key)
    ensures multiset(InsertDesc(x, s, key)) == multiset(s) + multiset{x}
    ensures SortedDesc(InsertDesc(x, s, key), key)
  {
    InsertDescMultiset(x, s, key);
    if |s| > 0 && key(s[0]) >= key(x) {
      var tail := InsertDesc(x, s[1..], key);
      InsertDescSpec(x, s[1..], key);
      var r := [s[0]] + tail;
      forall j | 0 <= j < |tail|
        ensures key(s[0]) >= key(tail[j])
      {
        var y := tail[j];
        assert y in multiset(tail);
        if y != x {
          assert y in multiset(s[1..]);
          var k :| 0 <= k < |s[1..]| && s[1..][k] == y;
          assert s[k + 1] == y;
        }
      }
      forall i, j | 0 <= i < j < |r|
        ensures key(r[i]) >= key(r[j])
      {
        assert r[j] == tail[j - 1];
        if i > 0 {
          assert r[i] == tail[i - 1];
        }
      }
    }
  }

  /** `s.slice().sort((a, b) => key(b) - key(a))`: a permutation of `s`
      with the largest key first, built by insertion. */
  function SortDesc<T>(s: seq<T>, key: T -> real): (r: seq<T>)
    ensures multiset(r) == multiset(s) && |r| == |s|
    ensures SortedDesc(r, key)
  {
    if |s| == 0 then []
    else
      var sorted := SortDesc(s[..|s| - 1], key);
      InsertDescSpec(s[|s| - 1], sorted, key);
      InsertDescMultiset(s[|s| - 1], sorted, key);
      assert s == s[..|s| - 1] + [s[|s| - 1]];
      InsertDesc(s[|s| - 1], sorted, key)
  }

  /** Whatever belongs to a sub-multiset of `b` belongs to `b`. */
  lemma SubMultisetMember<T>(a: seq<T>, b: seq<T>, x: T)
    requires multiset(a) <= multiset(b) && x in a
    ensures x in b
  {
    assert x in multiset(a);
    assert x in multiset(b);
  }

  /** Sum of the keys of a sequence. */
  function SumOf<T>(s: seq<T>, key: T -> real): real
  {
    if |s| == 0 then 0.0 else SumOf(s[..|s| - 1], key) + key(s[|s| - 1])
  }

  /** A sum of positive keys over a non-empty sequence is positive. */
  lemma {:induction false} SumOfPositive<T>(s: seq<T>, key: T -> real)
    requires |s| > 0
    requires forall x :: x in s ==> key(x) > 0.0
    ensures SumOf(s, key) > 0.0
  {
    if |s| > 1 {
      SumOfPositive(s[..|s| - 1], key);
    }
  }

  /** `s.slice().sort((a, b) => key(b) - key(a)).slice(0, k)`: the `k` best
      by `key`, best first; an element is left out only when `k` are kept,
      none of them below it. */
  function TopK<T>(s: seq<T>, k: nat, key: T -> real): (r: seq<T>)
    ensures |r| == if |s| < k then |s| else k
    ensures multiset(r) <= multiset(s) && SortedDesc(r, key)
    ensures |s| <= k ==> multiset(r) == multiset(s)
    ensures forall x :: x in s && x !in r ==> |r| == k
    ensures forall x, y :: x in s && x !in r && y in r ==> key(y) >= key(x)
  {
    var sorted := SortDesc(s, key);
    var n := if |sorted| < k then |sorted| else k;
    assert multiset(sorted[..n]) <= multiset(s) && SortedDesc(sorted[..n], key) by {
      SortedPrefix(sorted, n, key);
    }
    assert |s| <= k ==> sorted[..n] == sorted;
    assert forall x :: x in s ==> x in sorted by {
      forall x | x in s
        ensures x in sorted
      {
        assert x in multiset(s);
      }
    }
    assert forall x, y :: x in s && x !in sorted[..n] && y in sorted[..n] ==> key(y) >= key(x) by {
      SortedPrefix(sorted, n, key);
    }
    sorted[..n]
  }

  /** `s.filter(p).sort(by key, descending).slice(0, k)`: the `k` largest
      elements that pass `p`, largest first. */
  function TopKept<T(!new)>(s: seq<T>, p: T -> bool, k: nat, key: T -> real): (r: seq<T>)
    ensures |r| == if |Keep(s, p)| < k then |Keep(s, p)| else k
    ensures multiset(r) <= multiset(s) && SortedDesc(r, key)
    ensures forall x :: x in r ==> p(x)
    ensures forall x, y :: x in s && p(x) && x !in r && y in r ==> key(y) >= key(x)
    ensures forall x :: x in s && p(x) && x !in r ==> |r| == k
  {
    var kept := Keep(s, p);
    var r := TopK(kept, k, key);
    KeepSubMultiset(s, p);
    assert forall x :: x in r ==> x in kept by {
      forall x | x in r
        ensures x in kept
      {
        SubMultisetMember(r, kept, x);
      }
    }
    r
  }

  /** A prefix of a sorted sequence is sorted, is part of it, and no later
      element scores above an element of the prefix. */
  lemma SortedPrefix<T>(sorted: seq<T>, n: nat, key: T -> real)
    requires SortedDesc(sorted, key) && n <= |sorted|
    ensures SortedDesc(sorted[..n], key)
    ensures multiset(sorted[..n]) <= multiset(sorted)
    ensures forall x, y :: x in sorted && x !in sorted[..n] && y in sorted[..n] ==> key(y) >= key(x)
  {
    assert sorted == sorted[..n] + sorted[n..];
    forall x, y | x in sorted && x !in sorted[..n] && y in sorted[..n]
      ensures key(y) >= key(x)
    {
      var j :| 0 <= j < |sorted| && sorted[j] == x;
      var i :| 0 <= i < n && sorted[..n][i] == y;
      forall k | 0 <= k < n
        ensures sorted[k] != x
      {
        assert sorted[..n][k] == sorted[k];
      }
      assert sorted[i] == y;
    }
  }
}

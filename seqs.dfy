/**
 * Sequence helpers shared by the model: `Array.prototype.filter`, a stable
 * sort standing for `Array.prototype.sort` with a numeric comparator, and the
 * duplicate removal that `new Set(array)` performs.
 */
module Seqs {

  /** `s.filter(p)`: the elements satisfying `p`, in their original order. */
  function Filter<T>(s: seq<T>, p: T -> bool): (r: seq<T>)
    ensures |r| <= |s|
    ensures forall i :: 0 <= i < |r| ==> p(r[i])
  {
    if |s| == 0 then [] else (if p(s[0]) then [s[0]] else []) + Filter(s[1..], p)
  }

  /** Concatenation is associative. */
  lemma AppendAssoc<T>(a: seq<T>, b: seq<T>, c: seq<T>)
    ensures (a + b) + c == a + (b + c)
  {
  }

  /** The parts of a sequence with one more element at the end. */
  lemma SnocParts<T>(a: seq<T>, x: T)
    ensures (a + [x])[..|a|] == a && (a + [x])[|a|] == x
  {
  }

  /** Every element has a property when the head and every element of the tail have it. */
  lemma AllHead<T>(s: seq<T>, p: T -> bool)
    requires |s| > 0
    ensures (forall x :: x in s ==> p(x)) <==> p(s[0]) && forall x :: x in s[1..] ==> p(x)
  {
    assert s == [s[0]] + s[1..];
  }

  /** `a` can be obtained from `b` by deleting elements: order is kept. */
  ghost predicate IsSubsequence<T>(a: seq<T>, b: seq<T>)
    decreases |b|
  {
    if |b| == 0 then |a| == 0
    else (|a| > 0 && a[0] == b[0] && IsSubsequence(a[1..], b[1..])) || IsSubsequence(a, b[1..])
  }

  lemma {:induction false} FilterIsSubsequence<T>(s: seq<T>, p: T -> bool)
    ensures IsSubsequence(Filter(s, p), s)
  {
    if |s| > 0 {
      FilterIsSubsequence(s[1..], p);
      var f := Filter(s, p);
      if p(s[0]) {
        assert f == [s[0]] + Filter(s[1..], p);
        assert f[0] == s[0] && f[1..] == Filter(s[1..], p);
      } else {
        assert f == Filter(s[1..], p);
      }
    }
  }

  lemma {:induction false} FilterMembership<T>(s: seq<T>, p: T -> bool, x: T)
    ensures x in Filter(s, p) <==> x in s && p(x)
  {
    if |s| > 0 {
      FilterMembership(s[1..], p, x);
      assert s == [s[0]] + s[1..];
    }
  }

  lemma {:induction false} FilterAll<T>(s: seq<T>, p: T -> bool)
    requires forall i :: 0 <= i < |s| ==> p(s[i])
    ensures Filter(s, p) == s
  {
    if |s| > 0 {
      FilterAll(s[1..], p);
      assert [s[0]] + s[1..] == s;
    }
  }

  lemma {:induction false} FilterNone<T>(s: seq<T>, p: T -> bool)
    requires forall i :: 0 <= i < |s| ==> !p(s[i])
    ensures Filter(s, p) == []
  {
    if |s| > 0 {
      FilterNone(s[1..], p);
    }
  }

  /** Filtering a concatenation filters each part. */
  lemma {:induction false} FilterAppend<T>(a: seq<T>, b: seq<T>, p: T -> bool)
    ensures Filter(a + b, p) == Filter(a, p) + Filter(b, p)
  {
    if |a| > 0 {
      FilterAppend(a[1..], b, p);
      assert (a + b)[0] == a[0] && (a + b)[1..] == a[1..] + b;
    } else {
      assert a + b == b;
    }
  }

  /** Filtering twice is filtering once by both conditions. */
  lemma {:induction false} FilterFilter<T>(s: seq<T>, p: T -> bool, q: T -> bool, pq: T -> bool)
    requires forall x :: pq(x) == (p(x) && q(x))
    ensures Filter(Filter(s, p), q) == Filter(s, pq)
  {
    if |s| > 0 {
      FilterFilter(s[1..], p, q, pq);
      assert pq(s[0]) == (p(s[0]) && q(s[0]));
      var f := Filter(s, p);
      if p(s[0]) {
        assert f == [s[0]] + Filter(s[1..], p);
        assert f[0] == s[0] && f[1..] == Filter(s[1..], p);
        assert Filter(f, q) == (if q(s[0]) then [s[0]] else []) + Filter(Filter(s[1..], p), q);
      } else {
        assert f == Filter(s[1..], p);
      }
    }
  }

  predicate SortedBy<T>(s: seq<T>, key: T -> int) {
    forall i, j :: 0 <= i < j < |s| ==> key(s[i]) <= key(s[j])
  }

  /** Inserts `x` before the first element whose key is not smaller. */
  function InsertBy<T(==)>(x: T, s: seq<T>, key: T -> int): (r: seq<T>)
    requires SortedBy(s, key)
    ensures SortedBy(r, key)
    ensures multiset(r) == multiset(s) + multiset{x}
  {
    if |s| == 0 then [x]
    else if key(x) <= key(s[0]) then [x] + s
    else
      var rest := InsertBy(x, s[1..], key);
      InsertBehind(x, s, key, rest);
      [s[0]] + rest
  }

  /** Putting the head back in front of the insertion into the tail keeps the order. */
  lemma InsertBehind<T>(x: T, s: seq<T>, key: T -> int, rest: seq<T>)
    requires |s| > 0 && SortedBy(s, key) && key(s[0]) < key(x)
    requires SortedBy(rest, key) && multiset(rest) == multiset(s[1..]) + multiset{x}
    ensures SortedBy([s[0]] + rest, key)
    ensures multiset([s[0]] + rest) == multiset(s) + multiset{x}
  {
    assert s == [s[0]] + s[1..];
    forall i | 0 <= i < |rest|
      ensures key(s[0]) <= key(rest[i])
    {
      assert rest[i] in multiset(rest);
      if rest[i] != x {
        assert rest[i] in s[1..];
        var j :| 0 <= j < |s[1..]| && s[1..][j] == rest[i];
        assert s[j + 1] == rest[i];
      }
    }
    var r := [s[0]] + rest;
    forall i, j | 0 <= i < j < |r|
      ensures key(r[i]) <= key(r[j])
    {
      if i > 0 {
        assert r[i] == rest[i - 1] && r[j] == rest[j - 1];
      } else {
        assert r[j] == rest[j - 1];
      }
    }
  }

  /**
   * The stable sort `s.sort((a, b) => key(a) - key(b))`: the result is ordered
   * by key and is a permutation of the input.
   */
  function SortBy<T(==)>(s: seq<T>, key: T -> int): (r: seq<T>)
    ensures SortedBy(r, key)
    ensures multiset(r) == multiset(s)
    ensures |r| == |s|
  {
    if |s| == 0 then []
    else
      assert s == [s[0]] + s[1..];
      InsertBy(s[0], SortBy(s[1..], key), key)
  }

  predicate Sorted(s: seq<int>) {
    forall i, j :: 0 <= i < j < |s| ==> s[i] <= s[j]
  }

  function Identity(x: int): int { x }

  /** `s.sort((a, b) => a - b)` on numbers. */
  function Sort(s: seq<int>): (r: seq<int>)
    ensures Sorted(r)
    ensures multiset(r) == multiset(s)
    ensures |r| == |s|
  {
    var r := SortBy(s, Identity);
    assert forall i, j :: 0 <= i < j < |r| ==> Identity(r[i]) <= Identity(r[j]);
    r
  }

  lemma SortedHeadIsLeast(a: seq<int>, x: int)
    requires Sorted(a) && x in a
    ensures a[0] <= x
  {
  }

  /** A sorted permutation is unique: any two sorted orderings of one multiset coincide. */
  lemma {:induction false} SortedUnique(a: seq<int>, b: seq<int>)
    requires Sorted(a) && Sorted(b) && multiset(a) == multiset(b)
    ensures a == b
    decreases |a|
  {
    assert |a| == |multiset(a)| == |b|;
    if |a| > 0 {
      SortedHeads(a, b);
      SortedTail(a);
      SortedTail(b);
      SortedUnique(a[1..], b[1..]);
      assert a == [a[0]] + a[1..] && b == [b[0]] + b[1..];
    }
  }

  /** Two sorted orderings of one multiset start with the same (least) value. */
  lemma SortedHeads(a: seq<int>, b: seq<int>)
    requires Sorted(a) && Sorted(b) && multiset(a) == multiset(b) && |a| > 0 && |b| > 0
    ensures a[0] == b[0]
  {
    assert a[0] in b by {
      assert a[0] in multiset(b);
    }
    assert b[0] in a by {
      assert b[0] in multiset(a);
    }
    SortedHeadIsLeast(b, a[0]);
    SortedHeadIsLeast(a, b[0]);
  }

  lemma SortedTail(a: seq<int>)
    requires Sorted(a) && |a| > 0
    ensures Sorted(a[1..]) && multiset(a[1..]) == multiset(a) - multiset{a[0]}
  {
    assert a == [a[0]] + a[1..];
  }

  lemma SortMembership(s: seq<int>, x: int)
    ensures x in Sort(s) <==> x in s
  {
    assert x in multiset(Sort(s)) <==> x in multiset(s);
  }

  /** `s.indexOf(x)` for a value that occurs: the position of its first occurrence. */
  function FirstIndex<T(==)>(s: seq<T>, x: T): (r: nat)
    requires x in s
    ensures r < |s| && s[r] == x
    ensures forall k :: 0 <= k < r ==> s[k] != x
  {
    if s[0] == x then 0 else 1 + FirstIndex(s[1..], x)
  }

  /** Appending a value leaves earlier first occurrences where they were. */
  lemma FirstIndexSnoc<T>(p: seq<T>, y: T, x: T)
    requires x in p + [y]
    ensures FirstIndex(p + [y], x) == if x in p then FirstIndex(p, x) else |p|
  {
    var a := FirstIndex(p + [y], x);
    if x in p {
      var b := FirstIndex(p, x);
      assert (p + [y])[b] == x;
    } else {
      assert (p + [y])[|p|] == x;
    }
  }

  /** Appending to the list keeps the first-occurrence order of `r`, and a new value comes after all of it. */
  lemma FirstOrderSnoc<T>(p: seq<T>, y: T, r: seq<T>)
    requires forall i :: 0 <= i < |r| ==> r[i] in p
    requires forall i, j :: 0 <= i < j < |r| ==> FirstIndex(p, r[i]) < FirstIndex(p, r[j])
    ensures forall i, j :: 0 <= i < j < |r| ==> FirstIndex(p + [y], r[i]) < FirstIndex(p + [y], r[j])
    ensures y !in p ==> forall i :: 0 <= i < |r| ==> FirstIndex(p + [y], r[i]) < FirstIndex(p + [y], y)
  {
    forall i | 0 <= i < |r|
      ensures FirstIndex(p + [y], r[i]) == FirstIndex(p, r[i])
    {
      FirstIndexSnoc(p, y, r[i]);
    }
    if y !in p {
      FirstIndexSnoc(p, y, y);
    }
  }

  /**
   * `Array.from(new Set(s))`: every value once, kept where it first occurs
   * (`DedupOrder`).
   */
  function Dedup<T(==)>(s: seq<T>): (r: seq<T>)
    ensures forall i, j :: 0 <= i < j < |r| ==> r[i] != r[j]
    ensures forall i :: 0 <= i < |s| ==> s[i] in r
    ensures forall i :: 0 <= i < |r| ==> r[i] in s
  {
    if |s| == 0 then []
    else
      var r := Dedup(s[..|s| - 1]);
      assert s == s[..|s| - 1] + [s[|s| - 1]];
      if s[|s| - 1] in r then r else r + [s[|s| - 1]]
  }

  /** The values of `new Set(s)` come in the order of their first occurrences in `s`. */
  lemma {:induction false} DedupOrder<T>(s: seq<T>)
    ensures forall i, j :: 0 <= i < j < |Dedup(s)| ==> FirstIndex(s, Dedup(s)[i]) < FirstIndex(s, Dedup(s)[j])
  {
    if |s| > 0 {
      var p := s[..|s| - 1];
      var y := s[|s| - 1];
      DedupOrder(p);
      assert s == p + [y];
      FirstOrderSnoc(p, y, Dedup(p));
    }
  }

  predicate NoDuplicates<T(==)>(s: seq<T>) {
    forall i, j :: 0 <= i < j < |s| ==> s[i] != s[j]
  }

  /** A list without repeats holds each value at most once. */
  lemma {:induction false} NoDuplicatesCount(s: seq<int>, x: int)
    requires NoDuplicates(s)
    ensures multiset(s)[x] <= 1
  {
    if |s| > 0 {
      var p := s[..|s| - 1];
      var y := s[|s| - 1];
      assert forall i :: 0 <= i < |p| ==> p[i] == s[i];
      NoDuplicatesCount(p, x);
      assert s == p + [y];
      assert y !in p;
    }
  }

  /** Two equal entries make their value's count at least two. */
  lemma RepeatCount(s: seq<int>, i: nat, j: nat)
    requires i < j < |s| && s[i] == s[j]
    ensures multiset(s)[s[i]] >= 2
  {
    var a, b := s[..j], s[j + 1..];
    assert s == a + [s[j]] + b;
    assert a[i] == s[i];
  }

  /** Sorting a list without repeats gives a strictly increasing list. */
  lemma SortDistinct(s: seq<int>)
    requires NoDuplicates(s)
    ensures forall i, j :: 0 <= i < j < |Sort(s)| ==> Sort(s)[i] < Sort(s)[j]
  {
    var t := Sort(s);
    forall i, j | 0 <= i < j < |t|
      ensures t[i] < t[j]
    {
      if t[i] == t[j] {
        RepeatCount(t, i, j);
        NoDuplicatesCount(s, t[i]);
        assert false;
      }
    }
  }
}

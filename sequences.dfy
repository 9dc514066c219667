/** `Array.prototype.filter` on sequences, and the order-preserving
    subsequence relation it is specified against. */
module Sequences {
  /** The elements of `s` that satisfy `p`, in their order in `s`. */
  function Keep<T(!new)>(s: seq<T>, p: T -> bool): (r: seq<T>)
    ensures |r| <= |s|
    ensures forall x :: x in r <==> x in s && p(x)
  {
    if s == [] then []
    else (if p(s[0]) then [s[0]] else []) + Keep(s[1..], p)
  }

  /** `a` can be obtained from `b` by deleting elements, without reordering. */
  ghost predicate IsSubsequence<T>(a: seq<T>, b: seq<T>)
    decreases |b|
  {
    if a == [] then true
    else if b == [] then false
    else (a[0] == b[0] && IsSubsequence(a[1..], b[1..])) || IsSubsequence(a, b[1..])
  }

  /** Filtering distributes over concatenation: it never reorders. */
  lemma {:induction false} KeepAppend<T(!new)>(a: seq<T>, b: seq<T>, p: T -> bool)
    ensures Keep(a + b, p) == Keep(a, p) + Keep(b, p)
  {
    if a == [] {
      assert a + b == b;
    } else {
      assert (a + b)[1..] == a[1..] + b;
      KeepAppend(a[1..], b, p);
    }
  }

  /** The filtered sequence is a subsequence of the original one. */
  lemma {:induction false} KeepIsSubsequence<T(!new)>(s: seq<T>, p: T -> bool)
    ensures IsSubsequence(Keep(s, p), s)
  {
    if s != [] {
      KeepIsSubsequence(s[1..], p);
      var rest := Keep(s[1..], p);
      if p(s[0]) {
        assert Keep(s, p)[1..] == rest;
      } else {
        assert Keep(s, p) == rest;
      }
    }
  }

  /** Filtering leaves a sequence whose every element passes unchanged. */
  lemma {:induction false} KeepAll<T(!new)>(s: seq<T>, p: T -> bool)
    requires forall x :: x in s ==> p(x)
    ensures Keep(s, p) == s
  {
    if s != [] {
      KeepAll(s[1..], p);
      assert [s[0]] + s[1..] == s;
    }
  }

  /** Filtering out every element leaves nothing. */
  lemma {:induction false} KeepNone<T(!new)>(s: seq<T>, p: T -> bool)
    requires forall x :: x in s ==> !p(x)
    ensures Keep(s, p) == []
  {
    if s != [] {
      KeepNone(s[1..], p);
    }
  }

  /** Splitting by a predicate and its negation loses and duplicates nothing:
      the two parts together are a permutation of the whole. */
  lemma KeepPartition<T(!new)>(s: seq<T>, p: T -> bool, q: T -> bool)
    requires forall x :: q(x) == !p(x)
    ensures multiset(Keep(s, p) + Keep(s, q)) == multiset(s)
    ensures |Keep(s, p)| + |Keep(s, q)| == |s|
  {
    KeepSplit(s, p, q);
    assert |multiset(Keep(s, p) + Keep(s, q))| == |Keep(s, p) + Keep(s, q)|;
  }

  lemma {:induction false} KeepSplit<T(!new)>(s: seq<T>, p: T -> bool, q: T -> bool)
    requires forall x :: q(x) == !p(x)
    ensures multiset(Keep(s, p)) + multiset(Keep(s, q)) == multiset(s)
  {
    if s != [] {
      var x, rest := s[0], s[1..];
      KeepSplit(rest, p, q);
      var head := if p(x) then [x] else [];
      var other := if q(x) then [x] else [];
      assert Keep(s, p) == head + Keep(rest, p);
      assert Keep(s, q) == other + Keep(rest, q);
      assert multiset(head) + multiset(other) == multiset{x};
      assert s == [x] + rest;
    }
  }
}

/** Vocabulary shared by the compression pipeline, the trie and the graph search:
    bytes, optional values, results with an error, and permutations of 0..n-1. */
module Common {

  /** An 8-bit value, as read from or written to a binary stream. */
  type byte = b: int | 0 <= b < 256

  datatype Option<+T> = None | Some(value: T)

  /** The outcome of an operation whose source throws on bad input. */
  datatype Result<+T, +E> = Success(value: T) | Failure(error: E)

  /** The exceptions the source raises; all of them end the operation. */
  datatype Error = IllegalArgument | IndexOutOfBounds | NoSuchElement

  /** The sequence 0, 1, ..., n-1. */
  function Iota(n: nat): (r: seq<int>)
    ensures |r| == n && forall k :: 0 <= k < n ==> r[k] == k
  {
    seq(n, k => k)
  }

  /** p lists every offset 0..n-1 exactly once. */
  ghost predicate IsPermutation(p: seq<int>, n: nat)
  {
    multiset(p) == multiset(Iota(n))
  }

  ghost predicate Distinct(s: seq<int>)
  {
    forall j, k :: 0 <= j < k < |s| ==> s[j] != s[k]
  }

  /** Applies f to every element. */
  function MapSeq<T>(f: int -> T, x: seq<int>): (r: seq<T>)
    ensures |r| == |x| && forall k :: 0 <= k < |x| ==> r[k] == f(x[k])
  {
    seq(|x|, k requires 0 <= k < |x| => f(x[k]))
  }

  /** In a sequence without repetitions every value occurs at most once. */
  lemma {:induction false} DistinctCount(s: seq<int>, x: int)
    requires Distinct(s)
    ensures multiset(s)[x] == if x in s then 1 else 0
  {
    if s != [] {
      assert s == [s[0]] + s[1..];
      assert Distinct(s[1..]);
      DistinctCount(s[1..], x);
      assert s[0] !in s[1..];
    }
  }

  /** A value at two distinct positions occurs at least twice. */
  lemma RepeatedCount(s: seq<int>, j: int, k: int)
    requires 0 <= j < k < |s| && s[j] == s[k]
    ensures multiset(s)[s[j]] >= 2
  {
    assert s == s[..j] + s[j..k] + s[k..];
    assert s[j..k][0] == s[j] && s[k..][0] == s[j];
    assert multiset(s[j..k])[s[j]] >= 1;
    assert multiset(s[k..])[s[j]] >= 1;
  }

  /** A permutation of 0..n-1 has length n, holds only values in range, holds
      every value in range, and holds no value twice. */
  lemma PermutationFacts(p: seq<int>, n: nat)
    requires IsPermutation(p, n)
    ensures |p| == n
    ensures forall k :: 0 <= k < n ==> 0 <= p[k] < n
    ensures forall x :: 0 <= x < n ==> x in p
    ensures Distinct(p)
  {
    assert |p| == |multiset(p)| == |multiset(Iota(n))| == n;
    forall k | 0 <= k < n
      ensures 0 <= p[k] < n
    {
      assert p[k] in multiset(Iota(n));
    }
    forall x | 0 <= x < n
      ensures x in p
    {
      assert Iota(n)[x] == x;
      assert x in multiset(p);
    }
    forall j, k | 0 <= j < k < n
      ensures p[j] != p[k]
    {
      if p[j] == p[k] {
        RepeatedCount(p, j, k);
        assert Distinct(Iota(n));
        DistinctCount(Iota(n), p[j]);
        assert false;
      }
    }
  }

  /** Conversely, n distinct values in 0..n-1 that hit every value form a permutation. */
  lemma PermutationIntro(p: seq<int>, n: nat)
    requires |p| == n && Distinct(p)
    requires forall k :: 0 <= k < n ==> 0 <= p[k] < n
    requires forall x :: 0 <= x < n ==> x in p
    ensures IsPermutation(p, n)
  {
    forall x
      ensures multiset(p)[x] == multiset(Iota(n))[x]
    {
      DistinctCount(p, x);
      assert Distinct(Iota(n));
      DistinctCount(Iota(n), x);
      if 0 <= x < n {
        assert Iota(n)[x] == x;
      }
    }
    assert multiset(p) == multiset(Iota(n));
  }

  /** Taking out the element at j takes one copy of it out of the multiset. */
  lemma RemoveAt<T>(y: seq<T>, j: int)
    requires 0 <= j < |y|
    ensures multiset(y) == multiset(y[..j] + y[j + 1..]) + multiset{y[j]}
  {
    assert y == y[..j] + [y[j]] + y[j + 1..];
  }

  lemma MapSeqRemoveAt<T>(f: int -> T, y: seq<int>, j: int, rest: seq<int>)
    requires 0 <= j < |y| && rest == y[..j] + y[j + 1..]
    ensures multiset(MapSeq(f, y)) == multiset(MapSeq(f, rest)) + multiset{f(y[j])}
  {
    var m := MapSeq(f, y);
    RemoveAt(m, j);
    assert m[..j] + m[j + 1..] == MapSeq(f, rest);
  }

  lemma MultisetCancel<T>(a: multiset<T>, b: multiset<T>, v: T)
    requires a + multiset{v} == b + multiset{v}
    ensures a == b
  {
    assert a == (a + multiset{v}) - multiset{v};
  }

  /** Mapping a function over two rearrangements of the same values gives two
      rearrangements of the same results. */
  lemma {:induction false} MapSeqMultiset<T>(f: int -> T, x: seq<int>, y: seq<int>)
    requires multiset(x) == multiset(y)
    ensures multiset(MapSeq(f, x)) == multiset(MapSeq(f, y))
  {
    if x == [] {
      assert |y| == |multiset(y)| == 0;
    } else {
      var v := x[0];
      assert v in multiset(y);
      var j :| 0 <= j < |y| && y[j] == v;
      var rest := y[..j] + y[j + 1..];
      var tail := x[1..];
      RemoveAt(y, j);
      RemoveAt(x, 0);
      assert x[..0] + x[1..] == tail;
      MultisetCancel(multiset(tail), multiset(rest), v);
      MapSeqMultiset(f, tail, rest);
      MapSeqRemoveAt(f, y, j, rest);
      MapSeqRemoveAt(f, x, 0, tail);
    }
  }
}

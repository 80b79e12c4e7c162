/** The circular suffix array of a text (week5/CircularSuffixArray.java): the offsets
    0..n-1 ordered so that the rotations starting at them are in lexicographic order,
    computed in place by a 3-way radix quicksort. */
module SuffixArrays {
  import opened Common
  import opened Rotations

  /** The state of the 3-way partition of ix[lo..hi] by character d against v: the
      offsets stay in range, entries lo..lt-1 are below v, lt..i-1 equal to v and
      gt+1..hi above v, and every rotation in lo..hi still starts with p. */
  ghost predicate Banded(s: seq<byte>, ix: seq<int>, lo: int, lt: int, i: int, gt: int, hi: int,
                         d: nat, v: byte, p: seq<byte>)
  {
    0 <= lo <= lt < i <= gt + 1 <= hi + 1 <= |ix| && d < |s| &&
    (forall k :: 0 <= k < |ix| ==> 0 <= ix[k] < |s|) &&
    (forall k :: lo <= k < lt ==> Rot(s, ix[k])[d] < v) &&
    (forall k :: lt <= k < i ==> Rot(s, ix[k])[d] == v) &&
    (forall k :: gt < k <= hi ==> Rot(s, ix[k])[d] > v) &&
    (forall k :: lo <= k <= hi ==> HasPrefix(s, ix[k], p))
  }

  /** ix with entries i and j exchanged. */
  function Swapped(ix: seq<int>, i: int, j: int): (r: seq<int>)
    requires 0 <= i < |ix| && 0 <= j < |ix|
    ensures |r| == |ix| && r[i] == ix[j] && r[j] == ix[i]
    ensures forall k :: 0 <= k < |ix| && k != i && k != j ==> r[k] == ix[k]
  {
    ix[i := ix[j]][j := ix[i]]
  }

  /** ix is a rearrangement of ix0 that leaves every entry outside lo..hi in place. */
  ghost predicate Framed(ix: seq<int>, ix0: seq<int>, lo: int, hi: int)
  {
    |ix| == |ix0| && multiset(ix) == multiset(ix0) &&
    forall k :: 0 <= k < |ix| && !(lo <= k <= hi) ==> ix[k] == ix0[k]
  }

  /** Exchanging two entries inside lo..hi keeps the rearrangement framed. */
  lemma SwapFramed(ix: seq<int>, ix0: seq<int>, lo: int, hi: int, i: int, j: int)
    requires Framed(ix, ix0, lo, hi) && 0 <= lo <= i <= hi < |ix| && lo <= j <= hi
    ensures Framed(Swapped(ix, i, j), ix0, lo, hi)
  {
    var r := Swapped(ix, i, j);
    assert r == ix[i := ix[j]][j := ix[i]];
  }

  /** A rotation below v at i joins the lower band: exchanged with the first entry
      equal to v. */
  lemma PartitionBelow(s: seq<byte>, ix: seq<int>, lo: int, lt: int, i: int, gt: int, hi: int,
                       d: nat, v: byte, p: seq<byte>)
    requires Banded(s, ix, lo, lt, i, gt, hi, d, v, p) && i <= gt && Rot(s, ix[i])[d] < v
    ensures Banded(s, Swapped(ix, lt, i), lo, lt + 1, i + 1, gt, hi, d, v, p)
  {
    var r := Swapped(ix, lt, i);
    forall k | lt + 1 <= k < i + 1
      ensures Rot(s, r[k])[d] == v
    {
      if k == i && lt < i {
        assert r[k] == ix[lt];
      }
    }
  }

  /** A rotation equal to v at i joins the middle band where it is. */
  lemma PartitionEqual(s: seq<byte>, ix: seq<int>, lo: int, lt: int, i: int, gt: int, hi: int,
                       d: nat, v: byte, p: seq<byte>)
    requires Banded(s, ix, lo, lt, i, gt, hi, d, v, p) && i <= gt && Rot(s, ix[i])[d] == v
    ensures Banded(s, ix, lo, lt, i + 1, gt, hi, d, v, p)
  {
  }

  /** A rotation above v at i joins the upper band: exchanged with the last entry not
      yet looked at. */
  lemma PartitionAbove(s: seq<byte>, ix: seq<int>, lo: int, lt: int, i: int, gt: int, hi: int,
                       d: nat, v: byte, p: seq<byte>)
    requires Banded(s, ix, lo, lt, i, gt, hi, d, v, p) && i <= gt && Rot(s, ix[i])[d] > v
    ensures Banded(s, Swapped(ix, i, gt), lo, lt, i, gt - 1, hi, d, v, p)
  {
  }

  class CircularSuffixArray {
    /** The length of the text. */
    const length: nat
    /** index[k] is the offset of the k-th smallest rotation. */
    const index: array<int>
    /** The text the array was built from. */
    ghost const text: seq<byte>

    /** The frame every step of the sort keeps: the array holds offsets into the text. */
    ghost predicate Offsets()
      reads this, index
    {
      |text| == length == index.Length &&
      forall k :: 0 <= k < index.Length ==> 0 <= index[k] < length
    }

    /** The finished object: the offsets are a permutation of 0..n-1 listing the
        rotations in order. */
    ghost predicate Valid()
      reads this, index
    {
      Offsets() && IsPermutation(index[..], length) && SortedRotations(text, index[..])
    }

    /** Builds the suffix array of s: the identity order, then the sort. */
    constructor (s: seq<byte>)
      ensures Valid() && text == s && length == |s| && fresh(index)
    {
      length := |s|;
      text := s;
      index := new int[|s|];
      new;
      for i := 0 to length
        invariant forall k :: 0 <= k < i ==> index[k] == k
      {
        index[i] := i;
      }
      assert index[..] == Iota(length);
      Sort(0, length - 1, 0, s, []);
    }

    /** Character d of the rotation that starts at offset i. */
    function CharAt(i: int, d: nat, input: seq<byte>): (c: byte)
      requires |input| == length > 0 && 0 <= i
      ensures d < length ==> c == Rot(input, i)[d]
    {
      input[(i + d) % length]
    }

    /** Swaps two entries of the index array. */
    method Exch(i: int, j: int)
      requires 0 <= i < index.Length && 0 <= j < index.Length
      modifies index
      ensures index[..] == Swapped(old(index[..]), i, j)
      ensures multiset(index[..]) == old(multiset(index[..]))
    {
      var temp := index[i];
      index[i] := index[j];
      index[j] := temp;
    }

    /** The 3-way partition of index[lo..hi] by character d against the character v of
        the rotation at index[lo]: below v, then equal to v, then above v. */
    method Partition(lo: int, hi: int, d: nat, input: seq<byte>, ghost p: seq<byte>)
      returns (lt: int, gt: int, v: byte)
      requires Offsets() && input == text
      requires 0 <= lo < hi < length && d == |p| < length
      requires forall k :: lo <= k <= hi ==> HasPrefix(input, index[k], p)
      modifies index
      ensures Offsets()
      ensures v == CharAt(old(index[lo]), d, input)
      ensures Banded(input, index[..], lo, lt, gt + 1, gt, hi, d, v, p)
      ensures Framed(index[..], old(index[..]), lo, hi)
    {
      lt, gt := lo, hi;
      v := CharAt(index[lo], d, input);
      var i := lo + 1;
      ghost var ix0 := index[..];
      while i <= gt
        invariant Banded(input, index[..], lo, lt, i, gt, hi, d, v, p)
        invariant Framed(index[..], ix0, lo, hi)
        decreases gt - i
      {
        ghost var ix := index[..];
        var t := CharAt(index[i], d, input);
        if t < v {
          PartitionBelow(input, ix, lo, lt, i, gt, hi, d, v, p);
          SwapFramed(ix, ix0, lo, hi, lt, i);
          Exch(lt, i);
          lt, i := lt + 1, i + 1;
        } else if t > v {
          PartitionAbove(input, ix, lo, lt, i, gt, hi, d, v, p);
          SwapFramed(ix, ix0, lo, hi, i, gt);
          Exch(i, gt);
          gt := gt - 1;
        } else {
          PartitionEqual(input, ix, lo, lt, i, gt, hi, d, v, p);
          i := i + 1;
        }
      }
    }

    /** Sorts the rotations at index[lo..hi], which all start with p, by the
        characters from depth d = |p| on. */
    method Sort(lo: int, hi: int, d: nat, input: seq<byte>, ghost p: seq<byte>)
      requires Offsets() && input == text
      requires 0 <= lo <= hi + 1 <= length && d == |p| <= length
      requires lo < hi ==> d < length
      requires forall k :: lo <= k <= hi ==> HasPrefix(input, index[k], p)
      modifies index
      ensures Offsets()
      ensures Framed(index[..], old(index[..]), lo, hi)
      ensures SortedRange(input, index[..], lo, hi)
      decreases length - d, hi - lo + 1
    {
      if hi <= lo {
        return;
      }
      var lt, gt, v := Partition(lo, hi, d, input, p);
      ghost var parted := index[..];
      BandPrefixes(input, parted, lo, lt, gt, hi, p, v);
      Sort(lo, lt - 1, d, input, p);
      ghost var first := index[..];
      if d + 1 < length {
        Sort(lt, gt, d + 1, input, p + [v]);
      }
      ghost var middle := index[..];
      Sort(gt + 1, hi, d, input, p);
      ghost var last := index[..];
      Combine(input, parted, first, middle, last, lo, lt, gt, hi, p, v);
    }

    /** The offset the k-th smallest rotation starts at; an index outside 0..n-1 is
        an illegal argument. */
    method Index(i: int) returns (r: Result<int, Error>)
      requires index.Length == length
      ensures 0 <= i < length ==> r == Success(index[i])
      ensures !(0 <= i < length) ==> r == Failure(IllegalArgument)
    {
      if i < 0 || i > length - 1 {
        return Failure(IllegalArgument);
      }
      return Success(index[i]);
    }

    /** The length of the text. */
    method Length() returns (n: nat)
      requires Valid()
      ensures n == |text|
    {
      return length;
    }
  }

  /** Builds the suffix array of a text that may be absent; an absent text is an
      illegal argument. */
  method NewCircularSuffixArray(s: Option<seq<byte>>) returns (r: Result<CircularSuffixArray, Error>)
    ensures s.None? ==> r == Failure(IllegalArgument)
    ensures s.Some? ==> r.Success? && fresh(r.value) && r.value.Valid() && r.value.text == s.value
  {
    if s.None? {
      return Failure(IllegalArgument);
    }
    var csa := new CircularSuffixArray(s.value);
    return Success(csa);
  }

  /** A rotation that starts with p and has v at depth |p| starts with p + [v]. */
  lemma PrefixExtend(s: seq<byte>, x: int, p: seq<byte>)
    requires HasPrefix(s, x, p) && |p| < |s|
    ensures HasPrefix(s, x, p + [Rot(s, x)[|p|]])
  {
    var r := Rot(s, x);
    assert r[..|p| + 1] == r[..|p|] + [r[|p|]];
  }

  /** A rearrangement that leaves everything outside lo..hi-1 in place rearranges that slice. */
  lemma RangeMultiset(a: seq<int>, b: seq<int>, lo: int, hi: int)
    requires 0 <= lo <= hi <= |a| == |b|
    requires multiset(a) == multiset(b)
    requires forall k :: 0 <= k < |a| && !(lo <= k < hi) ==> a[k] == b[k]
    ensures multiset(a[lo..hi]) == multiset(b[lo..hi])
  {
    SliceSplit(a, lo, hi);
    SliceSplit(b, lo, hi);
    assert a[..lo] == b[..lo] && a[hi..] == b[hi..];
    var A, B := multiset(a[lo..hi]), multiset(b[lo..hi]);
    var F, K := multiset(a[..lo]), multiset(a[hi..]);
    forall x
      ensures A[x] == B[x]
    {
      assert (F + A + K)[x] == (F + B + K)[x];
    }
  }

  /** A sequence holds the elements before lo, those of lo..hi-1 and those from hi on. */
  lemma SliceSplit(a: seq<int>, lo: int, hi: int)
    requires 0 <= lo <= hi <= |a|
    ensures multiset(a) == multiset(a[..lo]) + multiset(a[lo..hi]) + multiset(a[hi..])
  {
    assert a == a[..lo] + a[lo..hi] + a[hi..];
  }

  /** After the partition at depth |p| and the three recursive sorts, the whole range
      is sorted: each band kept its members, and the bands are ordered by character |p|. */
  lemma Combine(s: seq<byte>, parted: seq<int>, first: seq<int>, middle: seq<int>, last: seq<int>,
                lo: int, lt: int, gt: int, hi: int, p: seq<byte>, v: byte)
    requires |parted| == |first| == |middle| == |last| == |s|
    requires 0 <= lo <= lt <= gt <= hi < |s| && |p| < |s|
    requires forall k :: lo <= k < lt ==> HasPrefix(s, parted[k], p) && Rot(s, parted[k])[|p|] < v
    requires forall k :: lt <= k <= gt ==> HasPrefix(s, parted[k], p + [v])
    requires forall k :: gt < k <= hi ==> HasPrefix(s, parted[k], p) && Rot(s, parted[k])[|p|] > v
    requires Framed(first, parted, lo, lt - 1) && Framed(middle, first, lt, gt) && Framed(last, middle, gt + 1, hi)
    requires SortedRange(s, first, lo, lt - 1) && SortedRange(s, last, gt + 1, hi)
    requires |p| + 1 < |s| ==> SortedRange(s, middle, lt, gt)
    ensures SortedRange(s, last, lo, hi)
  {
    SliceMultisets(parted, first, middle, last, lo, lt, gt, hi);
    Bands(s, parted, last, lo, lt, gt, hi, p, v);
    SortedAgree(s, last, first, lo, lt - 1);
    if |p| + 1 < |s| {
      SortedAgree(s, last, middle, lt, gt);
    }
    JoinSorted(s, last, lo, lt, gt, hi, p, v);
  }

  /** After the partition, the rotations of the lower and upper bands start with p
      and are below and above v at depth |p|, and those of the middle band start with
      p + [v]. */
  lemma BandPrefixes(s: seq<byte>, parted: seq<int>, lo: int, lt: int, gt: int, hi: int, p: seq<byte>, v: byte)
    requires Banded(s, parted, lo, lt, gt + 1, gt, hi, |p|, v, p)
    ensures forall k :: lo <= k < lt ==> HasPrefix(s, parted[k], p) && Rot(s, parted[k])[|p|] < v
    ensures forall k :: lt <= k <= gt ==> HasPrefix(s, parted[k], p + [v])
    ensures forall k :: gt < k <= hi ==> HasPrefix(s, parted[k], p) && Rot(s, parted[k])[|p|] > v
  {
    forall k | lt <= k <= gt
      ensures HasPrefix(s, parted[k], p + [v])
    {
      PrefixExtend(s, parted[k], p);
    }
  }

  /** Rearranging each band of the partition keeps every member in its band. */
  lemma Bands(s: seq<byte>, parted: seq<int>, last: seq<int>,
              lo: int, lt: int, gt: int, hi: int, p: seq<byte>, v: byte)
    requires |parted| == |last| == |s|
    requires 0 <= lo <= lt <= gt <= hi < |s| && |p| < |s|
    requires forall k :: lo <= k < lt ==> HasPrefix(s, parted[k], p) && Rot(s, parted[k])[|p|] < v
    requires forall k :: lt <= k <= gt ==> HasPrefix(s, parted[k], p + [v])
    requires forall k :: gt < k <= hi ==> HasPrefix(s, parted[k], p) && Rot(s, parted[k])[|p|] > v
    requires multiset(last[lo..lt]) == multiset(parted[lo..lt])
    requires multiset(last[lt..gt + 1]) == multiset(parted[lt..gt + 1])
    requires multiset(last[gt + 1..hi + 1]) == multiset(parted[gt + 1..hi + 1])
    ensures forall k :: lo <= k < lt ==> HasPrefix(s, last[k], p) && Rot(s, last[k])[|p|] < v
    ensures forall k :: lt <= k <= gt ==> HasPrefix(s, last[k], p + [v])
    ensures forall k :: gt < k <= hi ==> HasPrefix(s, last[k], p) && Rot(s, last[k])[|p|] > v
  {
    KeepBand(last, parted, lo, lt);
    KeepBand(last, parted, lt, gt + 1);
    KeepBand(last, parted, gt + 1, hi + 1);
    forall k | lo <= k < lt
      ensures HasPrefix(s, last[k], p) && Rot(s, last[k])[|p|] < v
    {
      var j :| lo <= j < lt && 0 <= j < |parted| && parted[j] == last[k];
    }
    forall k | lt <= k <= gt
      ensures HasPrefix(s, last[k], p + [v])
    {
      var j :| lt <= j < gt + 1 && 0 <= j < |parted| && parted[j] == last[k];
    }
    forall k | gt < k <= hi
      ensures HasPrefix(s, last[k], p) && Rot(s, last[k])[|p|] > v
    {
      var j :| gt + 1 <= j < hi + 1 && 0 <= j < |parted| && parted[j] == last[k];
    }
  }

  /** Three rearrangements of three adjacent slices, one after the other, rearrange
      each slice. */
  lemma SliceMultisets(parted: seq<int>, first: seq<int>, middle: seq<int>, last: seq<int>,
                       lo: int, lt: int, gt: int, hi: int)
    requires |parted| == |first| == |middle| == |last|
    requires 0 <= lo <= lt <= gt <= hi < |parted|
    requires multiset(first) == multiset(parted)
    requires forall k :: 0 <= k < |parted| && !(lo <= k <= lt - 1) ==> first[k] == parted[k]
    requires multiset(middle) == multiset(first)
    requires forall k :: 0 <= k < |parted| && !(lt <= k <= gt) ==> middle[k] == first[k]
    requires multiset(last) == multiset(middle)
    requires forall k :: 0 <= k < |parted| && !(gt + 1 <= k <= hi) ==> last[k] == middle[k]
    ensures multiset(last[lo..lt]) == multiset(parted[lo..lt])
    ensures multiset(last[lt..gt + 1]) == multiset(parted[lt..gt + 1])
    ensures multiset(last[gt + 1..hi + 1]) == multiset(parted[gt + 1..hi + 1])
  {
    RangeMultiset(first, parted, lo, lt);
    RangeMultiset(middle, first, lt, gt + 1);
    RangeMultiset(last, middle, gt + 1, hi + 1);
    assert last[lo..lt] == first[lo..lt];
    assert first[lt..gt + 1] == parted[lt..gt + 1] && last[lt..gt + 1] == middle[lt..gt + 1];
    assert middle[gt + 1..hi + 1] == parted[gt + 1..hi + 1];
  }

  /** x is one of b[lo], ..., b[hi - 1]. */
  ghost predicate InSlice(b: seq<int>, lo: int, hi: int, x: int)
  {
    exists j :: lo <= j < hi && 0 <= j < |b| && b[j] == x
  }

  /** Every entry of a rearrangement of a slice is an entry of the slice. */
  lemma KeepBand(a: seq<int>, b: seq<int>, lo: int, hi: int)
    requires 0 <= lo <= hi <= |a| == |b|
    requires multiset(a[lo..hi]) == multiset(b[lo..hi])
    ensures forall k :: lo <= k < hi ==> InSlice(b, lo, hi, a[k])
  {
    forall k | lo <= k < hi
      ensures InSlice(b, lo, hi, a[k])
    {
      assert a[k] == a[lo..hi][k - lo];
      assert a[k] in multiset(b[lo..hi]);
      var j :| 0 <= j < hi - lo && b[lo..hi][j] == a[k];
      assert b[lo + j] == a[k];
    }
  }

  /** Sortedness of a range depends only on the entries in it. */
  lemma SortedAgree(s: seq<byte>, a: seq<int>, b: seq<int>, lo: int, hi: int)
    requires |a| == |b| && SortedRange(s, b, lo, hi)
    requires forall k :: 0 <= k < |a| && lo <= k <= hi ==> a[k] == b[k]
    ensures SortedRange(s, a, lo, hi)
  {
  }

  /** The three sorted bands of a partition at depth |p| form one sorted range. */
  lemma JoinSorted(s: seq<byte>, a: seq<int>, lo: int, lt: int, gt: int, hi: int, p: seq<byte>, v: byte)
    requires 0 <= lo <= lt <= gt <= hi < |a| && |p| < |s|
    requires forall k :: lo <= k < lt ==> HasPrefix(s, a[k], p) && Rot(s, a[k])[|p|] < v
    requires forall k :: lt <= k <= gt ==> HasPrefix(s, a[k], p + [v])
    requires forall k :: gt < k <= hi ==> HasPrefix(s, a[k], p) && Rot(s, a[k])[|p|] > v
    requires SortedRange(s, a, lo, lt - 1) && SortedRange(s, a, gt + 1, hi)
    requires |p| + 1 < |s| ==> SortedRange(s, a, lt, gt)
    ensures SortedRange(s, a, lo, hi)
  {
    var d := |p|;
    forall k | lo <= k < hi
      ensures LexLeq(Rot(s, a[k]), Rot(s, a[k + 1]))
    {
      var x, y := Rot(s, a[k]), Rot(s, a[k + 1]);
      if k == lt - 1 || k == gt {
        assert x[..d] == p == y[..d];
        assert (p + [v])[d] == v;
        if k == lt - 1 {
          assert y[..d + 1][d] == v;
        } else {
          assert x[..d + 1][d] == v;
        }
        LexLeqFirstDifference(x, y, d);
      } else if lt <= k < gt && d + 1 == |s| {
        assert x == x[..|s|] == y[..|s|] == y;
        LexLeqReflexive(x);
      }
    }
  }

  /** The middle recursive call of sort as written: it is made whenever the pivot
      character is not negative, and charAt, which wraps around the text, never yields
      a negative one. */
  function AsWrittenMiddleCall(v: byte, lt: int, gt: int, d: int): (r: Option<(int, int, int)>)
    ensures r.Some? && r.value == (lt, gt, d + 1)
  {
    if v as int >= 0 then Some((lt, gt, d + 1)) else None
  }

  /** On the text "AA", whatever the depth d, the 3-way partition of its two rotations
      leaves both in the middle band, and the sort as written then calls itself on that
      same band one character deeper: the recursion never reaches a depth where it stops. */
  lemma AsWrittenNeverStops(s: seq<byte>, a: seq<int>, d: nat, lt: int, gt: int, v: byte)
    requires s == [65, 65] && (a == [0, 1] || a == [1, 0])
    requires 0 <= lt <= gt <= 1
    requires forall k :: 0 <= k < lt ==> s[(a[k] + d) % |s|] < v
    requires forall k :: lt <= k <= gt ==> s[(a[k] + d) % |s|] == v
    requires forall k :: gt < k <= 1 ==> s[(a[k] + d) % |s|] > v
    ensures lt == 0 && gt == 1
    ensures AsWrittenMiddleCall(v, lt, gt, d) == Some((0, 1, d + 1))
  {
    forall k | 0 <= k <= 1
      ensures s[(a[k] + d) % |s|] == 65
    {
      var j := (a[k] + d) % |s|;
      assert j == 0 || j == 1;
    }
    assert v == s[(a[lt] + d) % |s|] == 65;
    assert s[(a[0] + d) % |s|] == 65 && s[(a[1] + d) % |s|] == 65;
    assert !(0 < lt);
    assert !(gt < 1);
  }
}

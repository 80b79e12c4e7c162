/** The Burrows-Wheeler transform (week5/BurrowsWheeler.java): the last column of the
    sorted matrix of rotations together with the row the text itself sits in, and the
    inverse that rebuilds the text from the last column by key-indexed counting. */
module BurrowsWheeler {
  import opened Common
  import opened Rotations
  import opened SuffixArrays

  /** The alphabet size: one symbol per byte value. */
  const R: nat := 256

  // ---------------------------------------------------------------------------
  // Specification of the transform

  /** a is a circular suffix array of s: a permutation of the offsets listing the
      rotations in order. */
  ghost predicate IsSuffixArray(s: seq<byte>, a: seq<int>)
  {
    IsPermutation(a, |s|) && SortedRotations(s, a)
  }

  /** The rows of the sorted rotation matrix, listed by the suffix array a. */
  function Rows(s: seq<byte>, a: seq<int>): (M: seq<seq<byte>>)
    ensures |M| == |a| && forall k :: 0 <= k < |a| ==> M[k] == Rot(s, a[k])
  {
    MapSeq(x => Rot(s, x), a)
  }

  /** With the sorted rows given by a, t is the last column and row first is s itself. */
  ghost predicate BwtRows(s: seq<byte>, a: seq<int>, first: int, t: seq<byte>)
  {
    |a| == |s| == |t| && IsSuffixArray(s, a) && 0 <= first < |s| && a[first] == 0 &&
    forall k :: 0 <= k < |s| ==> t[k] == Rot(s, a[k])[|s| - 1]
  }

  /** (first, t) is a Burrows-Wheeler transform of s. */
  ghost predicate IsBwtOf(first: int, t: seq<byte>, s: seq<byte>)
  {
    exists a :: BwtRows(s, a, first, t)
  }

  // ---------------------------------------------------------------------------
  // Key-indexed counting

  /** The number of symbols of t smaller than c. */
  function Below(t: seq<byte>, c: int): (r: nat)
    ensures r <= |t|
  {
    if t == [] then 0 else Below(t[..|t| - 1], c) + (if t[|t| - 1] < c then 1 else 0)
  }

  /** The position the stable counting sort gives to position k of t: the symbols
      smaller than t[k], then the copies of t[k] that come before k. */
  ghost function Rank(t: seq<byte>, k: int): int
    requires 0 <= k < |t|
  {
    Below(t, t[k]) + multiset(t[..k])[t[k]]
  }

  lemma {:induction false} BelowZero(t: seq<byte>)
    ensures Below(t, 0) == 0
  {
    if t != [] {
      BelowZero(t[..|t| - 1]);
    }
  }

  lemma {:induction false} BelowAll(t: seq<byte>)
    ensures Below(t, R) == |t|
  {
    if t != [] {
      BelowAll(t[..|t| - 1]);
    }
  }

  /** The symbols below c + 1 are those below c and the copies of c. */
  lemma {:induction false} BelowSucc(t: seq<byte>, c: int)
    ensures Below(t, c + 1) == Below(t, c) + multiset(t)[c]
  {
    if t != [] {
      var u := t[..|t| - 1];
      BelowSucc(u, c);
      assert t == u + [t[|t| - 1]];
      assert multiset(t) == multiset(u) + multiset{t[|t| - 1]};
    }
  }

  lemma {:induction false} BelowMonotone(t: seq<byte>, c: int, e: int)
    requires c <= e
    ensures Below(t, c) <= Below(t, e)
  {
    if t != [] {
      BelowMonotone(t[..|t| - 1], c, e);
    }
  }

  /** A longer prefix holds at least as many copies of every symbol. */
  lemma PrefixCount(t: seq<byte>, i: int, j: int, c: int)
    requires 0 <= i <= j <= |t|
    ensures multiset(t[..i])[c] <= multiset(t[..j])[c]
  {
    assert t[..j] == t[..i] + t[i..j];
  }

  /** Position k of t adds one copy of t[k] to the prefix before it. */
  lemma PrefixStep(t: seq<byte>, k: int)
    requires 0 <= k < |t|
    ensures multiset(t[..k + 1]) == multiset(t[..k]) + multiset{t[k]}
  {
    assert t[..k + 1] == t[..k] + [t[k]];
  }

  /** The rank of k lies in the block of t[k]. */
  lemma RankBounds(t: seq<byte>, k: int)
    requires 0 <= k < |t|
    ensures Below(t, t[k]) <= Rank(t, k) < Below(t, t[k] as int + 1) <= |t|
  {
    PrefixStep(t, k);
    PrefixCount(t, k + 1, |t|, t[k]);
    assert t[..|t|] == t;
    BelowSucc(t, t[k]);
  }

  /** Smaller ranks go to smaller symbols, and to earlier positions among equal symbols. */
  lemma RankOrder(t: seq<byte>, x: int, y: int)
    requires 0 <= x < |t| && 0 <= y < |t| && Rank(t, x) < Rank(t, y)
    ensures t[x] <= t[y] && (t[x] == t[y] ==> x < y)
  {
    RankBounds(t, x);
    RankBounds(t, y);
    if t[x] > t[y] {
      BelowMonotone(t, t[y] + 1, t[x]);
    } else if t[x] == t[y] && y <= x {
      PrefixCount(t, y, x, t[x]);
    }
  }

  /** No two positions share a rank. */
  lemma RankInjective(t: seq<byte>, x: int, y: int)
    requires 0 <= x < |t| && 0 <= y < |t| && x != y
    ensures Rank(t, x) != Rank(t, y)
  {
    RankBounds(t, x);
    RankBounds(t, y);
    if t[x] < t[y] {
      BelowMonotone(t, t[x] + 1, t[y]);
    } else if t[y] < t[x] {
      BelowMonotone(t, t[y] + 1, t[x]);
    } else if x < y {
      PrefixStep(t, x);
      PrefixCount(t, x + 1, y, t[x]);
    } else {
      PrefixStep(t, y);
      PrefixCount(t, y + 1, x, t[y]);
    }
  }

  /** The block of every slot below |t|: some symbol c with Below(t, c) <= j < Below(t, c + 1). */
  lemma {:induction false} FindBlock(t: seq<byte>, j: int, c: int) returns (e: int)
    requires 0 <= c < R && Below(t, c) <= j < |t|
    ensures c <= e < R && Below(t, e) <= j < Below(t, e + 1)
    decreases R - c
  {
    if j < Below(t, c + 1) {
      e := c;
    } else if c + 1 == R {
      BelowAll(t);
      assert false;
    } else {
      e := FindBlock(t, j, c + 1);
    }
  }

  /** The position of the (m+1)-th copy of c in t. */
  lemma {:induction false} FindCopy(t: seq<byte>, c: int, m: nat) returns (k: int)
    requires m < multiset(t)[c]
    ensures 0 <= k < |t| && t[k] == c && multiset(t[..k])[c] == m
  {
    var u := t[..|t| - 1];
    assert t == u + [t[|t| - 1]];
    assert multiset(t) == multiset(u) + multiset{t[|t| - 1]};
    if m < multiset(u)[c] {
      k := FindCopy(u, c, m);
      assert t[..k] == u[..k];
    } else {
      k := |t| - 1;
      assert t[..k] == u;
    }
  }

  /** Every slot is the rank of some position. */
  lemma RankOnto(t: seq<byte>, j: int) returns (k: int)
    requires 0 <= j < |t|
    ensures 0 <= k < |t| && Rank(t, k) == j
  {
    BelowZero(t);
    var c := FindBlock(t, j, 0);
    BelowSucc(t, c);
    k := FindCopy(t, c, j - Below(t, c));
  }

  /** next inverts the rank: next[Rank(t, k)] == k for every position k. */
  ghost predicate IsNextOf(t: seq<byte>, next: seq<int>)
  {
    |next| == |t| &&
    forall k :: 0 <= k < |t| ==> 0 <= Rank(t, k) < |t| && next[Rank(t, k)] == k
  }

  /** The inverse of the rank is a permutation that lists the positions of t in
      stable order of their symbols. */
  lemma NextFacts(t: seq<byte>, next: seq<int>)
    requires IsNextOf(t, next)
    ensures IsPermutation(next, |t|)
    ensures forall j :: 0 <= j < |t| ==> 0 <= next[j] < |t| && Rank(t, next[j]) == j
    ensures forall j :: 0 <= j && j + 1 < |t| ==>
      t[next[j]] <= t[next[j + 1]] && (t[next[j]] == t[next[j + 1]] ==> next[j] < next[j + 1])
  {
    forall j | 0 <= j < |t|
      ensures 0 <= next[j] < |t| && Rank(t, next[j]) == j
    {
      var k := RankOnto(t, j);
    }
    forall i, j | 0 <= i < j < |t|
      ensures next[i] != next[j]
    {
    }
    forall x | 0 <= x < |t|
      ensures x in next
    {
      assert next[Rank(t, x)] == x;
    }
    PermutationIntro(next, |t|);
    forall j | 0 <= j && j + 1 < |t|
      ensures t[next[j]] <= t[next[j + 1]] && (t[next[j]] == t[next[j + 1]] ==> next[j] < next[j + 1])
    {
      RankOrder(t, next[j], next[j + 1]);
    }
  }

  // ---------------------------------------------------------------------------
  // Why the inverse works: following next from a row gives the row rotated by one

  /** The rotation starting one offset before x, for an offset x of s. */
  function PrevRot(s: seq<byte>, x: int): (r: seq<byte>)
    ensures 0 <= x < |s| ==> r == Rot(s, Pred(|s|, x))
  {
    if 0 <= x < |s| then Rot(s, Pred(|s|, x)) else []
  }

  /** The rows rotated one step back, taken in the order next lists them. */
  ghost function Shifted(s: seq<byte>, a: seq<int>, next: seq<int>): (Q: seq<seq<byte>>)
    ensures |Q| == |next|
    ensures forall j :: 0 <= j < |next| && 0 <= next[j] < |a| ==> Q[j] == PrevRot(s, a[next[j]])
  {
    seq(|next|, j requires 0 <= j < |next| => if 0 <= next[j] < |a| then PrevRot(s, a[next[j]]) else [])
  }

  /** Rotating every rotation one step back gives the same rotations. */
  lemma PrevRotations(s: seq<byte>)
    requires |s| > 0
    ensures multiset(MapSeq(x => PrevRot(s, x), Iota(|s|))) == multiset(Rows(s, Iota(|s|)))
  {
    var n := |s|;
    var P := MapSeq(x => PrevRot(s, x), Iota(n));
    var Q := Rows(s, Iota(n));
    var mid := Q[..n - 1];
    forall k | 0 <= k < n
      ensures P[k] == ([Rot(s, n - 1)] + mid)[k]
    {
      assert P[k] == Rot(s, Pred(n, k));
      if k > 0 {
        assert mid[k - 1] == Rot(s, k - 1);
      }
    }
    assert P == [Rot(s, n - 1)] + mid;
    assert Q == mid + [Rot(s, n - 1)];
  }

  /** The rows listed by a sorted suffix array are sorted. */
  lemma RowsSorted(s: seq<byte>, a: seq<int>)
    requires SortedRotations(s, a)
    ensures Sorted(Rows(s, a))
  {
  }

  /** The shifted rows hold the same rotations as the rows. */
  lemma ShiftedMultiset(s: seq<byte>, a: seq<int>, next: seq<int>)
    requires |s| > 0 && |a| == |s| && IsPermutation(a, |s|) && IsPermutation(next, |s|)
    ensures multiset(Shifted(s, a, next)) == multiset(Rows(s, a))
  {
    var n := |s|;
    PermutationFacts(next, n);
    var f := k => if 0 <= k < |a| then PrevRot(s, a[k]) else [];
    var g := x => PrevRot(s, x);
    var h := x => Rot(s, x);
    assert Shifted(s, a, next) == MapSeq(f, next);
    MapSeqMultiset(f, next, Iota(n));
    assert MapSeq(f, Iota(n)) == MapSeq(g, a);
    MapSeqMultiset(g, a, Iota(n));
    assert MapSeq(g, Iota(n)) == MapSeq(x => PrevRot(s, x), Iota(n));
    PrevRotations(s);
    assert Rows(s, Iota(n)) == MapSeq(h, Iota(n)) && Rows(s, a) == MapSeq(h, a);
    MapSeqMultiset(h, a, Iota(n));
  }

  /** A row rotated one step back is its last character followed by the rest. */
  lemma PrevRow(s: seq<byte>, a: seq<int>, first: int, t: seq<byte>, k: int)
    requires BwtRows(s, a, first, t) && 0 <= k < |s|
    ensures 0 <= a[k] < |s|
    ensures PrevRot(s, a[k]) == [t[k]] + Rot(s, a[k])[..|s| - 1]
  {
    PermutationFacts(a, |s|);
    RotPred(s, a[k]);
    RotLast(s, a[k]);
  }

  /** The shifted rows are sorted: next orders them by their first character, and
      stably, so rows with equal first characters keep the order of the rows. */
  lemma ShiftedSorted(s: seq<byte>, a: seq<int>, first: int, t: seq<byte>, next: seq<int>)
    requires BwtRows(s, a, first, t) && IsNextOf(t, next)
    ensures Sorted(Shifted(s, a, next))
  {
    var n := |s|;
    NextFacts(t, next);
    RowsSorted(s, a);
    var Q := Shifted(s, a, next);
    var M := Rows(s, a);
    forall j | 0 <= j && j + 1 < n
      ensures LexLeq(Q[j], Q[j + 1])
    {
      var x, y := next[j], next[j + 1];
      PrevRow(s, a, first, t, x);
      PrevRow(s, a, first, t, y);
      if t[x] == t[y] {
        SortedPairwise(M, x, y);
      }
      ShiftedPair(M[x], M[y], t[x], t[y], Q[j], Q[j + 1]);
    }
  }

  /** Two rows rotated one step back, each bringing its last byte to the front, stay
      in order when the bytes are ordered, or equal and the rows ordered. */
  lemma ShiftedPair(x: seq<byte>, y: seq<byte>, cx: byte, cy: byte, px: seq<byte>, py: seq<byte>)
    requires |x| == |y| > 0 && px == [cx] + x[..|x| - 1] && py == [cy] + y[..|y| - 1]
    requires cx < cy || (cx == cy && LexLeq(x, y))
    ensures LexLeq(px, py)
  {
    if cx < cy {
      LexLeqHead(px, py);
    } else {
      LexLeqPrefix(x, y, |x| - 1);
      LexLeqCons(cx, x[..|x| - 1], y[..|y| - 1]);
    }
  }

  /** Taking the rows in next's order, each rotated one step back, gives the rows again. */
  lemma ShiftedIsRows(s: seq<byte>, a: seq<int>, first: int, t: seq<byte>, next: seq<int>)
    requires BwtRows(s, a, first, t) && IsNextOf(t, next)
    ensures Shifted(s, a, next) == Rows(s, a)
  {
    if |s| > 0 {
      NextFacts(t, next);
      ShiftedMultiset(s, a, next);
      ShiftedSorted(s, a, first, t, next);
      RowsSorted(s, a);
      SortedUnique(Shifted(s, a, next), Rows(s, a));
    }
  }

  /** Following next from row j leads to the row that is row j rotated left by one,
      and the last column holds the last character of every row. */
  lemma NextRows(s: seq<byte>, a: seq<int>, first: int, t: seq<byte>, next: seq<int>)
    requires BwtRows(s, a, first, t) && IsNextOf(t, next)
    ensures forall j :: 0 <= j < |s| ==> 0 <= next[j] < |s|
    ensures forall j :: 0 <= j < |s| ==>
      Rows(s, a)[next[j]] == Rows(s, a)[j][1..] + [Rows(s, a)[j][0]]
  {
    NextFacts(t, next);
    ShiftedIsRows(s, a, first, t, next);
    PermutationFacts(a, |s|);
    forall j | 0 <= j < |s|
      ensures Rows(s, a)[next[j]] == Rows(s, a)[j][1..] + [Rows(s, a)[j][0]]
    {
      assert Rows(s, a)[j] == Shifted(s, a, next)[j];
      NextRow(s, a, j, next[j]);
    }
  }

  /** The step of NextRows for one row j: when row j is row x rotated one step back,
      row x is row j rotated one step forward. */
  lemma NextRow(s: seq<byte>, a: seq<int>, j: int, x: int)
    requires |a| == |s| && 0 <= j < |s| && 0 <= x < |s| && 0 <= a[x] < |s|
    requires Rows(s, a)[j] == PrevRot(s, a[x])
    ensures Rows(s, a)[x] == Rows(s, a)[j][1..] + [Rows(s, a)[j][0]]
  {
    var y := Rot(s, a[x]);
    RotPred(s, a[x]);
    RotLast(s, a[x]);
    RowStep(Rows(s, a)[j], y, y[|s| - 1]);
  }

  /** A row that is c followed by all but the last character of y, where y ends in c,
      is y rotated right by one. */
  lemma RowStep(row: seq<byte>, y: seq<byte>, c: byte)
    requires |y| > 0 && y[|y| - 1] == c && row == [c] + y[..|y| - 1]
    ensures y == row[1..] + [row[0]]
  {
    assert y == y[..|y| - 1] + [c];
  }

  /** The bytes emitted by k steps of the walk from row cur. */
  ghost function Walk(t: seq<byte>, next: seq<int>, cur: int, k: nat): (r: seq<byte>)
    requires |next| == |t| && 0 <= cur < |t|
    requires forall j :: 0 <= j < |t| ==> 0 <= next[j] < |t|
    ensures |r| == k
    decreases k
  {
    if k == 0 then [] else [t[next[cur]]] + Walk(t, next, next[cur], k - 1)
  }

  /** Walking from the row that holds the rotation at i spells s from position i on,
      when next moves every row to its left rotation and t is the last column. */
  lemma {:induction false} WalkSpells(s: seq<byte>, M: seq<seq<byte>>, t: seq<byte>, next: seq<int>,
                                      cur: int, i: int)
    requires |M| == |t| == |next| == |s|
    requires forall j :: 0 <= j < |t| ==> 0 <= next[j] < |t|
    requires forall j :: 0 <= j < |s| ==> |M[j]| == |s| && t[j] == M[j][|s| - 1]
    requires forall j :: 0 <= j < |s| ==> M[next[j]] == M[j][1..] + [M[j][0]]
    requires 0 <= cur < |s| && 0 <= i <= |s| && M[cur] == Rot(s, i)
    ensures Walk(t, next, cur, |s| - i) == s[i..]
    decreases |s| - i
  {
    if i < |s| {
      var x := next[cur];
      WalkStep(s, M[cur], M[x], t[x], i);
      WalkSpells(s, M, t, next, x, i + 1);
      assert s[i..] == [s[i]] + s[i + 1..];
    }
  }

  /** One step of the walk: the row after the rotation at i is the rotation at i + 1,
      and its last byte is s[i]. */
  lemma WalkStep(s: seq<byte>, row: seq<byte>, nrow: seq<byte>, c: byte, i: int)
    requires 0 <= i < |s| && row == Rot(s, i) && nrow == row[1..] + [row[0]] && c == nrow[|s| - 1]
    ensures nrow == Rot(s, i + 1) && c == s[i]
  {
    RotNext(s, i);
    DivModUnique(i + 0, |s|, 0, i);
  }

  /** The walk from row first spells the text whose transform (first, t) is. */
  lemma WalkIsText(s: seq<byte>, a: seq<int>, first: int, t: seq<byte>, next: seq<int>)
    requires BwtRows(s, a, first, t) && IsNextOf(t, next)
    ensures forall j :: 0 <= j < |t| ==> 0 <= next[j] < |t|
    ensures Walk(t, next, first, |t|) == s
  {
    NextRows(s, a, first, t, next);
    var M := Rows(s, a);
    forall j | 0 <= j < |s|
      ensures |M[j]| == |s| && t[j] == M[j][|s| - 1]
    {
    }
    RotZero(s);
    WalkSpells(s, M, t, next, first, 0);
  }

  /** The last column holds the same bytes as the text. */
  lemma TransformKeepsBytes(first: int, t: seq<byte>, s: seq<byte>)
    requires IsBwtOf(first, t, s)
    ensures multiset(t) == multiset(s)
  {
    var a :| BwtRows(s, a, first, t);
    var n := |s|;
    PermutationFacts(a, n);
    var g := x => if 0 <= x < n then s[Pred(n, x)] else 0;
    forall k | 0 <= k < n
      ensures t[k] == g(a[k])
    {
      RotLast(s, a[k]);
    }
    assert t == MapSeq(g, a);
    MapSeqMultiset(g, a, Iota(n));
    var m := MapSeq(g, Iota(n));
    assert m == [s[n - 1]] + s[..n - 1];
    assert s == s[..n - 1] + [s[n - 1]];
  }

  // ---------------------------------------------------------------------------
  // The operations

  /** The first loop of transform: the first row whose offset is 0, none when no
      offset is 0. */
  method FindFirst(suffixArray: CircularSuffixArray) returns (first: Option<int>)
    requires suffixArray.index.Length == suffixArray.length
    ensures first == None <==> 0 !in suffixArray.index[..]
    ensures first.Some? ==> 0 <= first.value < suffixArray.length && suffixArray.index[first.value] == 0
    ensures first.Some? ==> forall k :: 0 <= k < first.value ==> suffixArray.index[k] != 0
  {
    first := None;
    var i := 0;
    while i < suffixArray.length
      invariant 0 <= i <= suffixArray.length && first == None
      invariant forall k :: 0 <= k < i ==> suffixArray.index[k] != 0
    {
      var x := suffixArray.Index(i);
      if x.value == 0 {
        first := Some(i);
        return;
      }
      i := i + 1;
    }
  }

  /** The second loop of transform: for every row, the byte just before its offset,
      which is the last byte of that row. */
  method LastColumn(s: seq<byte>, suffixArray: CircularSuffixArray) returns (last: seq<byte>)
    requires suffixArray.index.Length == suffixArray.length == |s|
    requires forall k :: 0 <= k < |s| ==> 0 <= suffixArray.index[k] < |s|
    ensures |last| == |s|
    ensures forall k :: 0 <= k < |s| ==> last[k] == Rot(s, suffixArray.index[k])[|s| - 1]
  {
    last := [];
    for j := 0 to |s|
      invariant |last| == j
      invariant forall k :: 0 <= k < j ==> last[k] == Rot(s, suffixArray.index[k])[|s| - 1]
    {
      var x := suffixArray.Index(j);
      var index := x.value - 1;
      if index < 0 {
        index := index + |s|;
      }
      RotLast(s, x.value);
      last := last + [s[index]];
    }
  }

  /** The transform of s: the row of the sorted rotation matrix that holds s itself
      and the last column of the matrix. An empty input stream has no string to read,
      so the transform fails with NoSuchElement before it writes anything. */
  method Transform(s: seq<byte>) returns (r: Result<(int, seq<byte>), Error>)
    ensures s == [] <==> r == Failure(NoSuchElement)
    ensures s != [] ==> r.Success? && IsBwtOf(r.value.0, r.value.1, s) && |r.value.1| == |s|
  {
    if s == [] {
      return Failure(NoSuchElement);
    }
    var suffixArray := new CircularSuffixArray(s);
    ghost var a := suffixArray.index[..];
    assert IsSuffixArray(s, a);
    PermutationFacts(a, |s|);
    var first := FindFirst(suffixArray);
    var last := LastColumn(s, suffixArray);
    assert 0 in a;
    assert BwtRows(s, a, first.value, last);
    return Success((first.value, last));
  }

  /** count[c] is the number of symbols of t smaller than c: the occurrence counts of
      each symbol, shifted up by one, then summed. */
  method Counts(t: seq<byte>) returns (count: array<int>)
    ensures fresh(count) && count.Length == R + 1
    ensures forall c :: 0 <= c <= R ==> count[c] == Below(t, c)
  {
    count := new int[R + 1](_ => 0);
    for i := 0 to |t|
      invariant count[0] == 0
      invariant forall c :: 0 <= c < R ==> count[c + 1] == multiset(t[..i])[c]
    {
      PrefixStep(t, i);
      count[t[i] + 1] := count[t[i] + 1] + 1;
    }
    assert t[..|t|] == t;
    BelowZero(t);
    for i := 0 to R
      invariant forall c :: 0 <= c <= i ==> count[c] == Below(t, c)
      invariant forall c :: i < c <= R ==> count[c] == multiset(t)[c - 1]
    {
      BelowSucc(t, i);
      count[i + 1] := count[i + 1] + count[i];
    }
  }

  /** The stable counting sort of the positions of t: position i goes to the next free
      slot of the block of t[i]. */
  method NextArray(t: seq<byte>, count: array<int>) returns (next: array<int>)
    requires count.Length == R + 1
    requires forall c :: 0 <= c <= R ==> count[c] == Below(t, c)
    modifies count
    ensures fresh(next) && IsNextOf(t, next[..])
    ensures forall c :: 0 <= c <= R ==> count[c] == Below(t, c + 1)
  {
    next := new int[|t|];
    for i := 0 to |t|
      invariant forall c :: 0 <= c <= R ==> count[c] == Below(t, c) + multiset(t[..i])[c]
      invariant forall k :: 0 <= k < i ==> 0 <= Rank(t, k) < |t| && next[Rank(t, k)] == k
    {
      PrefixStep(t, i);
      RankBounds(t, i);
      assert count[t[i]] == Rank(t, i);
      ghost var before := next[..];
      next[count[t[i]]] := i;
      count[t[i]] := count[t[i]] + 1;
      forall k | 0 <= k < i + 1
        ensures 0 <= Rank(t, k) < |t| && next[Rank(t, k)] == k
      {
        if k < i {
          RankInjective(t, k, i);
          assert next[Rank(t, k)] == before[Rank(t, k)];
        }
      }
    }
    assert t[..|t|] == t;
    forall c | 0 <= c <= R
      ensures count[c] == Below(t, c + 1)
    {
      BelowSucc(t, c);
    }
  }

  /** The output loop of inverseTransform: |t| steps along next from row first, each
      writing the last-column byte of the row it moves to. A first outside the rows
      fails at the first step. */
  method FollowNext(t: seq<byte>, next: array<int>, first: int) returns (r: Result<seq<byte>, Error>)
    requires next.Length == |t| && forall j :: 0 <= j < |t| ==> 0 <= next[j] < |t|
    ensures |t| == 0 ==> r == Success([])
    ensures |t| > 0 && !(0 <= first < |t|) ==> r == Failure(IndexOutOfBounds)
    ensures 0 <= first < |t| ==> r == Success(Walk(t, next[..], first, |t|))
  {
    ghost var nx := next[..];
    var cur := first;
    var output := [];
    for i := 0 to next.Length
      invariant !(0 <= first < |t|) ==> i == 0 && cur == first && output == []
      invariant 0 <= first < |t| ==>
        0 <= cur < |t| && output + Walk(t, nx, cur, |t| - i) == Walk(t, nx, first, |t|)
    {
      if !(0 <= cur < next.Length) {
        return Failure(IndexOutOfBounds);
      }
      ghost var w := Walk(t, nx, nx[cur], |t| - i - 1);
      assert (output + [t[nx[cur]]]) + w == output + Walk(t, nx, cur, |t| - i) by {
        assert Walk(t, nx, cur, |t| - i) == [t[nx[cur]]] + w;
      }
      output := output + [t[next[cur]]];
      cur := next[cur];
    }
    if 0 <= first < |t| {
      assert Walk(t, nx, cur, 0) == [] && output + [] == output;
      assert next[..] == nx;
    }
    return Success(output);
  }

  /** Rebuilds the text from the row n it sits in and the last column t. A missing n
      (fewer than four bytes to read it from), an empty column (no string left to read)
      and a row outside t are errors; otherwise the walk along next from row n yields
      |t| bytes, which are s whenever (n, t) is a transform of s. */
  method InverseTransform(n: Option<int>, t: seq<byte>) returns (r: Result<seq<byte>, Error>)
    ensures (n.None? || t == []) <==> r == Failure(NoSuchElement)
    ensures n.Some? && |t| > 0 && !(0 <= n.value < |t|) ==> r == Failure(IndexOutOfBounds)
    ensures n.Some? && 0 <= n.value < |t| ==> r.Success? && |r.value| == |t|
    ensures n.Some? && 0 <= n.value < |t| ==>
      exists next :: IsNextOf(t, next) && (forall j :: 0 <= j < |t| ==> 0 <= next[j] < |t|) &&
        r == Success(Walk(t, next, n.value, |t|))
    ensures forall s :: n.Some? && IsBwtOf(n.value, t, s) ==> r == Success(s)
  {
    if n.None? || t == [] {
      return Failure(NoSuchElement);
    }
    var count := Counts(t);
    var next := NextArray(t, count);
    NextFacts(t, next[..]);
    r := FollowNext(t, next, n.value);
    assert 0 <= n.value < |t| ==> IsNextOf(t, next[..]) && r.value == Walk(t, next[..], n.value, |t|);
    forall s | IsBwtOf(n.value, t, s)
      ensures r == Success(s)
    {
      var a :| BwtRows(s, a, n.value, t);
      WalkIsText(s, a, n.value, t, next[..]);
    }
  }

  /** The inverse transform undoes the transform of every non-empty text; the empty
      text has nothing to read, so the transform already fails. */
  method RoundTrip(s: seq<byte>) returns (r: Result<seq<byte>, Error>)
    ensures s == [] ==> r == Failure(NoSuchElement)
    ensures s != [] ==> r == Success(s)
  {
    var bwt := Transform(s);
    if bwt.Failure? {
      return Failure(bwt.error);
    }
    r := InverseTransform(Some(bwt.value.0), bwt.value.1);
  }
}

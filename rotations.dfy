/** Circular rotations of a text and their lexicographic order: the vocabulary in
    which the suffix sort and the Burrows-Wheeler transform are specified. */
module Rotations {
  import opened Common

  /** The rotation of s that starts at offset i: its character d is s[(i + d) mod n]. */
  function Rot(s: seq<byte>, i: int): (r: seq<byte>)
    ensures |r| == |s|
  {
    seq(|s|, d requires 0 <= d < |s| => s[(i + d) % |s|])
  }

  /** The offset circularly before i. */
  function Pred(n: nat, i: int): (r: int)
    requires 0 <= i < n
    ensures 0 <= r < n && (r + 1) % n == i
  {
    if i == 0 then DivModUnique(n, n, 1, 0); n - 1
    else DivModUnique(i, n, 0, i); i - 1
  }

  /** Lexicographic order: x is at most y. */
  predicate LexLeq(x: seq<byte>, y: seq<byte>)
  {
    |x| == 0 || (|y| > 0 && (x[0] < y[0] || (x[0] == y[0] && LexLeq(x[1..], y[1..]))))
  }

  lemma {:induction false} LexLeqReflexive(x: seq<byte>)
    ensures LexLeq(x, x)
  {
    if |x| > 0 {
      LexLeqReflexive(x[1..]);
    }
  }

  lemma {:induction false} LexLeqAntisymmetric(x: seq<byte>, y: seq<byte>)
    requires LexLeq(x, y) && LexLeq(y, x)
    ensures x == y
  {
    if |x| > 0 && |y| > 0 {
      LexLeqAntisymmetric(x[1..], y[1..]);
      assert x == [x[0]] + x[1..] && y == [y[0]] + y[1..];
    }
  }

  lemma {:induction false} LexLeqTransitive(x: seq<byte>, y: seq<byte>, z: seq<byte>)
    requires LexLeq(x, y) && LexLeq(y, z)
    ensures LexLeq(x, z)
  {
    if |x| > 0 && x[0] == y[0] && y[0] == z[0] {
      LexLeqTransitive(x[1..], y[1..], z[1..]);
    }
  }

  lemma {:induction false} LexLeqTotal(x: seq<byte>, y: seq<byte>)
    ensures LexLeq(x, y) || LexLeq(y, x)
  {
    if |x| > 0 && |y| > 0 && x[0] == y[0] {
      LexLeqTotal(x[1..], y[1..]);
    }
  }

  /** Cutting two ordered sequences of the same length at the same place keeps them ordered. */
  lemma {:induction false} LexLeqPrefix(x: seq<byte>, y: seq<byte>, m: nat)
    requires |x| == |y| && m <= |x| && LexLeq(x, y)
    ensures LexLeq(x[..m], y[..m])
  {
    if m > 0 && x[0] == y[0] {
      LexLeqPrefix(x[1..], y[1..], m - 1);
      assert x[..m][1..] == x[1..][..m - 1] && y[..m][1..] == y[1..][..m - 1];
    }
  }

  /** Two sequences that agree before position d and differ at d are ordered by that character. */
  lemma {:induction false} LexLeqFirstDifference(x: seq<byte>, y: seq<byte>, d: nat)
    requires |x| == |y| && d < |x|
    requires x[..d] == y[..d] && x[d] < y[d]
    ensures LexLeq(x, y)
  {
    if d > 0 {
      assert x[0] == x[..d][0] == y[..d][0] == y[0];
      assert x[1..][..d - 1] == x[..d][1..] == y[..d][1..] == y[1..][..d - 1];
      LexLeqFirstDifference(x[1..], y[1..], d - 1);
    }
  }

  /** Putting the same character in front of two sequences keeps their order. */
  lemma LexLeqCons(c: byte, x: seq<byte>, y: seq<byte>)
    requires LexLeq(x, y)
    ensures LexLeq([c] + x, [c] + y)
  {
    assert ([c] + x)[1..] == x && ([c] + y)[1..] == y;
  }

  /** Sequences headed by smaller characters come first. */
  lemma LexLeqHead(x: seq<byte>, y: seq<byte>)
    requires |x| > 0 && |y| > 0 && x[0] < y[0]
    ensures LexLeq(x, y)
  {
  }

  /** The rotation at offset 0 is the text itself. */
  lemma RotZero(s: seq<byte>)
    ensures Rot(s, 0) == s
  {
    forall d | 0 <= d < |s|
      ensures Rot(s, 0)[d] == s[d]
    {
      assert (0 + d) % |s| == d;
    }
  }

  /** Rotating by one more moves the first character to the end. */
  lemma RotNext(s: seq<byte>, i: int)
    requires |s| > 0
    ensures Rot(s, i + 1) == Rot(s, i)[1..] + [Rot(s, i)[0]]
  {
    var n := |s|;
    var r, r' := Rot(s, i), Rot(s, i + 1);
    forall d | 0 <= d < n
      ensures r'[d] == (r[1..] + [r[0]])[d]
    {
      if d == n - 1 {
        ModShift(i, n);
      } else {
        assert r'[d] == s[(i + 1 + d) % n] == r[d + 1];
      }
    }
  }

  /** (i + n) mod n == i mod n */
  lemma ModShift(i: int, n: int)
    requires n > 0
    ensures (i + 1 + (n - 1)) % n == (i + 0) % n
  {
    var q := (i + n) / n;
    var m := (i + n) % n;
    assert i + n == q * n + m;
    assert i == (q - 1) * n + m;
    assert 0 <= m < n;
    DivModUnique(i, n, q - 1, m);
  }

  /** Division with remainder is unique. */
  lemma DivModUnique(x: int, n: int, q: int, m: int)
    requires n > 0 && 0 <= m < n && x == q * n + m
    ensures x % n == m
  {
    var q0, m0 := x / n, x % n;
    assert x == q0 * n + m0 && 0 <= m0 < n;
    assert (q - q0) * n == m0 - m;
    if q > q0 {
      MulAtLeast(q - q0, n);
    } else if q < q0 {
      MulAtLeast(q0 - q, n);
    }
  }

  lemma {:induction false} MulAtLeast(a: int, n: int)
    requires a >= 1 && n > 0
    ensures a * n >= n
    decreases a
  {
    if a > 1 {
      MulAtLeast(a - 1, n);
      assert a * n == (a - 1) * n + n;
    }
  }

  /** The rotation that starts one offset earlier is the character there followed by
      all but the last character of the rotation at i. */
  lemma RotPred(s: seq<byte>, i: int)
    requires 0 <= i < |s|
    ensures Rot(s, Pred(|s|, i)) == [s[Pred(|s|, i)]] + Rot(s, i)[..|s| - 1]
  {
    var n := |s|;
    var j := Pred(n, i);
    var r := Rot(s, i);
    var rj := Rot(s, j);
    forall d | 0 <= d < n
      ensures rj[d] == ([s[j]] + r[..n - 1])[d]
    {
      if d == 0 {
        DivModUnique(j + 0, n, 0, j);
      } else if i == 0 {
        DivModUnique(j + d, n, 1, d - 1);
        DivModUnique(i + (d - 1), n, 0, d - 1);
      } else {
        assert j + d == i + (d - 1);
      }
    }
  }

  /** The last character of the rotation at i is the character circularly before i. */
  lemma RotLast(s: seq<byte>, i: int)
    requires 0 <= i < |s|
    ensures Rot(s, i)[|s| - 1] == s[Pred(|s|, i)]
  {
    var n := |s|;
    if i == 0 {
      DivModUnique(i + (n - 1), n, 0, n - 1);
    } else {
      DivModUnique(i + (n - 1), n, 1, i - 1);
    }
  }

  /** The rotation at x starts with p. */
  ghost predicate HasPrefix(s: seq<byte>, x: int, p: seq<byte>)
  {
    |p| <= |s| && Rot(s, x)[..|p|] == p
  }

  /** Entries lo..hi of a list the rotations at a[lo], ..., a[hi] in order. */
  ghost predicate SortedRange(s: seq<byte>, a: seq<int>, lo: int, hi: int)
  {
    forall k :: lo <= k < hi && 0 <= k && k + 1 < |a| ==> LexLeq(Rot(s, a[k]), Rot(s, a[k + 1]))
  }

  /** a lists the rotations of s in order. */
  ghost predicate SortedRotations(s: seq<byte>, a: seq<int>)
  {
    SortedRange(s, a, 0, |a| - 1)
  }

  /** Every row of X is at most the row after it. */
  ghost predicate Sorted(X: seq<seq<byte>>)
  {
    forall k :: 0 <= k && k + 1 < |X| ==> LexLeq(X[k], X[k + 1])
  }

  /** In a sorted list every row is at most every later row. */
  lemma {:induction false} SortedPairwise(X: seq<seq<byte>>, i: int, j: int)
    requires Sorted(X) && 0 <= i <= j < |X|
    ensures LexLeq(X[i], X[j])
    decreases j - i
  {
    if i == j {
      LexLeqReflexive(X[i]);
    } else {
      SortedPairwise(X, i + 1, j);
      LexLeqTransitive(X[i], X[i + 1], X[j]);
    }
  }

  /** Two sorted lists of the same rows are the same list. */
  lemma {:induction false} SortedUnique(X: seq<seq<byte>>, Y: seq<seq<byte>>)
    requires Sorted(X) && Sorted(Y) && multiset(X) == multiset(Y)
    ensures X == Y
    decreases |X|
  {
    assert |X| == |multiset(X)| == |multiset(Y)| == |Y|;
    if |X| > 0 {
      assert X[0] in multiset(Y);
      var j :| 0 <= j < |Y| && Y[j] == X[0];
      SortedPairwise(Y, 0, j);
      assert Y[0] in multiset(X);
      var i :| 0 <= i < |X| && X[i] == Y[0];
      SortedPairwise(X, 0, i);
      LexLeqAntisymmetric(X[0], Y[0]);
      assert X == [X[0]] + X[1..] && Y == [Y[0]] + Y[1..];
      assert multiset(X) == multiset(X[1..]) + multiset{X[0]};
      assert multiset(Y) == multiset(Y[1..]) + multiset{X[0]};
      MultisetCancel(multiset(X[1..]), multiset(Y[1..]), X[0]);
      assert Sorted(X[1..]) by {
        forall k | 0 <= k && k + 1 < |X[1..]|
          ensures LexLeq(X[1..][k], X[1..][k + 1])
        {
          assert X[1..][k] == X[k + 1] && X[1..][k + 1] == X[k + 2];
        }
      }
      assert Sorted(Y[1..]) by {
        forall k | 0 <= k && k + 1 < |Y[1..]|
          ensures LexLeq(Y[1..][k], Y[1..][k + 1])
        {
          assert Y[1..][k] == Y[k + 1] && Y[1..][k + 1] == Y[k + 2];
        }
      }
      SortedUnique(X[1..], Y[1..]);
    }
  }
}

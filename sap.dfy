/** Shortest ancestral paths in a digraph (week1/SAP.java): a breadth-first search
    from each side, then the common vertex with the smallest sum of distances. */
module ShortestAncestralPath {
  import opened Common

  /** A digraph as adjacency lists: G[u] lists the heads of the edges leaving u. */
  type Graph = seq<seq<int>>

  /** Every edge ends at a vertex of the graph. */
  ghost predicate IsDigraph(G: Graph)
  {
    forall u, i :: 0 <= u < |G| && 0 <= i < |G[u]| ==> 0 <= G[u][i] < |G|
  }

  /** v can be reached from a vertex of S along at most k edges. */
  ghost predicate Reach(G: Graph, S: seq<int>, v: int, k: nat)
    decreases k
  {
    if k == 0 then v in S
    else Reach(G, S, v, k - 1) || exists u :: 0 <= u < |G| && v in G[u] && Reach(G, S, u, k - 1)
  }

  /** v can be reached from a vertex of S. */
  ghost predicate Reachable(G: Graph, S: seq<int>, v: int)
  {
    exists k: nat :: Reach(G, S, v, k)
  }

  /** d is the length of a shortest path from S to v. */
  ghost predicate DistIs(G: Graph, S: seq<int>, v: int, d: int)
  {
    d >= 0 && Reach(G, S, v, d) && forall k: nat :: Reach(G, S, v, k) ==> d <= k
  }

  /** m marks exactly the vertices reachable from S, and d holds their distances. */
  ghost predicate Searched(G: Graph, S: seq<int>, m: seq<bool>, d: seq<int>)
  {
    |m| == |G| && |d| == |G| &&
    forall v :: 0 <= v < |G| ==> (m[v] ==> DistIs(G, S, v, d[v])) && (!m[v] ==> !Reachable(G, S, v))
  }

  /** The queue holds marked vertices in order of distance, each at level lvl or lvl + 1. */
  ghost predicate QueueOk(G: Graph, m: seq<bool>, d: seq<int>, Q: seq<int>, lvl: int)
  {
    |m| == |G| && |d| == |G| &&
    (forall i :: 0 <= i < |Q| ==> 0 <= Q[i] < |G| && m[Q[i]] && lvl <= d[Q[i]] <= lvl + 1) &&
    (forall i, j :: 0 <= i < j < |Q| ==> d[Q[i]] <= d[Q[j]])
  }

  /** Every source is marked at distance 0. */
  ghost predicate SourcesOk(G: Graph, S: seq<int>, m: seq<bool>, d: seq<int>)
  {
    |m| == |G| && |d| == |G| &&
    forall s :: s in S ==> 0 <= s < |G| && m[s] && d[s] == 0
  }

  /** Every marked vertex is reached within its recorded distance, at most lvl + 1. */
  ghost predicate MarkedOk(G: Graph, S: seq<int>, m: seq<bool>, d: seq<int>, lvl: int)
  {
    |m| == |G| && |d| == |G| &&
    forall v :: 0 <= v < |G| && m[v] ==> 0 <= d[v] <= lvl + 1 && Reach(G, S, v, d[v])
  }

  /** Every marked vertex that has left the queue, other than the one in hand (except),
      has all its successors marked at most one further away. */
  ghost predicate ClosedExcept(G: Graph, m: seq<bool>, d: seq<int>, Q: seq<int>, except: int)
  {
    |m| == |G| && |d| == |G| &&
    forall u, i :: 0 <= u < |G| && m[u] && u !in Q && u != except && 0 <= i < |G[u]| ==>
      0 <= G[u][i] < |G| && m[G[u][i]] && d[G[u][i]] <= d[u] + 1
  }

  /** The state of the breadth-first search. */
  ghost predicate Inv(G: Graph, S: seq<int>, m: seq<bool>, d: seq<int>, Q: seq<int>, lvl: int, except: int)
  {
    QueueOk(G, m, d, Q, lvl) && SourcesOk(G, S, m, d) && MarkedOk(G, S, m, d, lvl) &&
    ClosedExcept(G, m, d, Q, except)
  }

  /** i is reachable from both S and T. */
  ghost predicate Shared(G: Graph, S: seq<int>, T: seq<int>, i: int)
  {
    0 <= i < |G| && Reachable(G, S, i) && Reachable(G, T, i)
  }

  /** len and anc are a shortest ancestral path between S and T: (-1, -1) when no
      vertex is reachable from both, otherwise the smallest sum of the two distances
      and the largest vertex attaining it. */
  ghost predicate IsSap(G: Graph, S: seq<int>, T: seq<int>, len: int, anc: int)
  {
    if forall i :: 0 <= i < |G| ==> !Shared(G, S, T, i) then len == -1 && anc == -1
    else
      Shared(G, S, T, anc) &&
      (exists dv, dw :: DistIs(G, S, anc, dv) && DistIs(G, T, anc, dw) && len == dv + dw) &&
      forall i, dv, dw :: 0 <= i < |G| && DistIs(G, S, i, dv) && DistIs(G, T, i, dw) ==>
        len <= dv + dw && (dv + dw == len ==> i <= anc)
  }

  /** Every successor of a marked vertex is marked, at most one further away. */
  ghost predicate Closed(G: Graph, m: seq<bool>, d: seq<int>)
  {
    |m| == |G| && |d| == |G| &&
    forall u, i :: 0 <= u < |G| && m[u] && 0 <= i < |G[u]| ==>
      0 <= G[u][i] < |G| && m[G[u][i]] && d[G[u][i]] <= d[u] + 1
  }

  /** An edge extends a path by one. */
  lemma ReachStep(G: Graph, S: seq<int>, u: int, w: int, k: nat)
    requires 0 <= u < |G| && w in G[u] && Reach(G, S, u, k)
    ensures Reach(G, S, w, k + 1)
  {
  }

  /** Once every marked vertex has its successors marked at most one further away and
      every source is marked at distance 0, every path ends at a marked vertex whose
      recorded distance is at most the path's length. */
  lemma {:induction false} ReachMarked(G: Graph, S: seq<int>, m: seq<bool>, d: seq<int>, v: int, k: nat)
    requires Closed(G, m, d)
    requires forall s :: s in S ==> 0 <= s < |G| && m[s] && d[s] == 0
    requires Reach(G, S, v, k)
    ensures 0 <= v < |G| && m[v] && d[v] <= k
    decreases k
  {
    if k > 0 {
      if Reach(G, S, v, k - 1) {
        ReachMarked(G, S, m, d, v, k - 1);
      } else {
        var u :| 0 <= u < |G| && v in G[u] && Reach(G, S, u, k - 1);
        ReachMarked(G, S, m, d, u, k - 1);
        var i :| 0 <= i < |G[u]| && G[u][i] == v;
      }
    }
  }

  /** A finished search, with the queue empty, has found exactly the reachable vertices
      and their distances. */
  lemma SearchDone(G: Graph, S: seq<int>, m: seq<bool>, d: seq<int>, lvl: int)
    requires IsDigraph(G) && Inv(G, S, m, d, [], lvl, -1)
    ensures Searched(G, S, m, d)
  {
    assert Closed(G, m, d);
    forall v | 0 <= v < |G|
      ensures (m[v] ==> DistIs(G, S, v, d[v])) && (!m[v] ==> !Reachable(G, S, v))
    {
      forall k: nat | Reach(G, S, v, k)
        ensures m[v] && d[v] <= k
      {
        ReachMarked(G, S, m, d, v, k);
      }
    }
  }

  /** Taking the head of the queue in hand: the level rises to its distance. */
  lemma PopHead(G: Graph, S: seq<int>, m: seq<bool>, d: seq<int>, Q: seq<int>, lvl: int)
    requires Inv(G, S, m, d, Q, lvl, -1) && |Q| > 0
    ensures 0 <= Q[0] < |G| && m[Q[0]]
    ensures Inv(G, S, m, d, Q[1..], d[Q[0]], Q[0])
  {
    var Q' := Q[1..];
    forall i | 0 <= i < |Q'|
      ensures d[Q[0]] <= d[Q'[i]]
    {
      assert Q'[i] == Q[i + 1];
    }
    forall u | 0 <= u < |G| && m[u] && u !in Q' && u != Q[0]
      ensures u !in Q
    {
    }
  }

  /** Marking an unmarked successor w of the vertex in hand one level further and
      appending it to the queue keeps the search state. */
  lemma Visit(G: Graph, S: seq<int>, m: seq<bool>, d: seq<int>, Q: seq<int>, lvl: int, elem: int, w: int)
    requires Inv(G, S, m, d, Q, lvl, elem)
    requires 0 <= elem < |G| && m[elem] && d[elem] == lvl && w in G[elem]
    requires 0 <= w < |G| && !m[w]
    ensures Inv(G, S, m[w := true], d[w := lvl + 1], Q + [w], lvl, elem)
  {
    ReachStep(G, S, elem, w, lvl);
    var m', d', Q' := m[w := true], d[w := lvl + 1], Q + [w];
    forall v | 0 <= v < |G| && m'[v]
      ensures 0 <= d'[v] <= lvl + 1 && Reach(G, S, v, d'[v])
    {
      if v != w {
        assert m[v] && d'[v] == d[v];
      }
    }
    forall u, i | 0 <= u < |G| && m'[u] && u !in Q' && u != elem && 0 <= i < |G[u]|
      ensures 0 <= G[u][i] < |G| && m'[G[u][i]] && d'[G[u][i]] <= d'[u] + 1
    {
      assert u != w && u !in Q;
    }
  }

  /** The first j successors of the vertex in hand elem are marked, at most one
      level further than lvl. */
  ghost predicate Covered(G: Graph, m: seq<bool>, d: seq<int>, elem: int, j: int, lvl: int)
  {
    0 <= elem < |G| && |m| == |G| && |d| == |G| && 0 <= j <= |G[elem]| &&
    forall i :: 0 <= i < j ==> 0 <= G[elem][i] < |G| && m[G[elem][i]] && d[G[elem][i]] <= lvl + 1
  }

  /** One step of the inner loop of bfs: looking at successor j of the vertex in hand
      and, when it is unmarked, marking it one level further and appending it to the
      queue keeps the search state and covers one successor more. */
  lemma ExpandStep(G: Graph, S: seq<int>, m: seq<bool>, d: seq<int>, Q: seq<int>, Q0: seq<int>,
                   lvl: int, elem: int, j: int, u0: int)
    requires IsDigraph(G) && Inv(G, S, m, d, Q, lvl, elem)
    requires 0 <= elem < |G| && m[elem] && d[elem] == lvl && Covered(G, m, d, elem, j, lvl) && j < |G[elem]|
    requires |Unmarked(m)| <= u0 && (|Unmarked(m)| < u0 || Q == Q0)
    ensures var w := G[elem][j];
      0 <= w < |G| &&
      (m[w] ==> Covered(G, m, d, elem, j + 1, lvl)) &&
      (!m[w] ==>
        var m', d', Q' := m[w := true], d[w := lvl + 1], Q + [w];
        Inv(G, S, m', d', Q', lvl, elem) && m'[elem] && d'[elem] == lvl &&
        Covered(G, m', d', elem, j + 1, lvl) && |Unmarked(m')| < u0)
  {
    var w := G[elem][j];
    if !m[w] {
      assert w in G[elem];
      Visit(G, S, m, d, Q, lvl, elem, w);
      UnmarkedShrinks(m, w);
      assert w != elem;
    }
  }

  /** Once every successor of the vertex in hand is marked, it needs no exception. */
  lemma Expanded(G: Graph, S: seq<int>, m: seq<bool>, d: seq<int>, Q: seq<int>, lvl: int, elem: int, n: int)
    requires IsDigraph(G) && Inv(G, S, m, d, Q, lvl, elem) && 0 <= elem < |G|
    requires d[elem] == lvl && n == |G[elem]| && Covered(G, m, d, elem, n, lvl)
    ensures Inv(G, S, m, d, Q, lvl, -1)
  {
    forall u, i | 0 <= u < |G| && m[u] && u !in Q && 0 <= i < |G[u]|
      ensures 0 <= G[u][i] < |G| && m[G[u][i]] && d[G[u][i]] <= d[u] + 1
    {
    }
  }

  /** The marks after the inner loop of bfs has looked at the successors ws: a vertex
      is marked when it was already or when it is one of ws. */
  ghost function MarkedAfter(ws: seq<int>, m: seq<bool>): (r: seq<bool>)
    ensures |r| == |m|
  {
    seq(|m|, v requires 0 <= v < |m| => m[v] || v in ws)
  }

  /** The distances after the inner loop of bfs has looked at the successors ws: a
      vertex that was unmarked and is one of ws is at distance x, every other keeps
      its distance. */
  ghost function DistAfter(ws: seq<int>, m: seq<bool>, d: seq<int>, x: int): (r: seq<int>)
    requires |m| == |d|
    ensures |r| == |d|
  {
    seq(|d|, v requires 0 <= v < |d| => if !m[v] && v in ws then x else d[v])
  }

  /** The vertices the inner loop of bfs appends to the queue while it looks at the
      successors ws in order: each one that is neither marked nor seen earlier in ws. */
  ghost function Fresh(ws: seq<int>, m: seq<bool>): (r: seq<int>)
    ensures |r| <= |ws|
  {
    if ws == [] then []
    else
      var p, w := ws[..|ws| - 1], ws[|ws| - 1];
      Fresh(p, m) + (if w in p || (0 <= w < |m| && m[w]) then [] else [w])
  }

  /** The appended vertices are exactly the successors that were unmarked, each once. */
  lemma {:induction false} FreshMembers(ws: seq<int>, m: seq<bool>)
    ensures forall x :: x in Fresh(ws, m) <==> x in ws && !(0 <= x < |m| && m[x])
    ensures forall i, j :: 0 <= i < j < |Fresh(ws, m)| ==> Fresh(ws, m)[i] != Fresh(ws, m)[j]
  {
    if ws != [] {
      var p, w := ws[..|ws| - 1], ws[|ws| - 1];
      FreshMembers(p, m);
      assert ws == p + [w];
    }
  }

  /** Looking at one more successor w: when it is marked or already seen nothing
      changes; otherwise it is marked at distance x and appended. */
  lemma ScanStep(p: seq<int>, w: int, m: seq<bool>, d: seq<int>, x: int)
    requires |m| == |d| && 0 <= w < |m|
    ensures MarkedAfter(p, m)[w] == (m[w] || w in p)
    ensures var q := p + [w];
      if m[w] || w in p then
        MarkedAfter(q, m) == MarkedAfter(p, m) && DistAfter(q, m, d, x) == DistAfter(p, m, d, x) &&
        Fresh(q, m) == Fresh(p, m)
      else
        MarkedAfter(q, m) == MarkedAfter(p, m)[w := true] && DistAfter(q, m, d, x) == DistAfter(p, m, d, x)[w := x] &&
        Fresh(q, m) == Fresh(p, m) + [w]
  {
    var q := p + [w];
    assert q[..|q| - 1] == p;
    assert forall v :: v in q <==> v in p || v == w;
  }

  /** The state of the inner loop of bfs after it has looked at the first j successors
      of the vertex in hand elem, starting from marks m0, distances d0 and queue Q0. */
  ghost predicate Scanned(G: Graph, S: seq<int>, m: seq<bool>, d: seq<int>, Q: seq<int>,
                          m0: seq<bool>, d0: seq<int>, Q0: seq<int>, lvl: int, elem: int, j: int, u0: int)
  {
    Inv(G, S, m, d, Q, lvl, elem) && 0 <= elem < |G| && m[elem] && d[elem] == lvl &&
    Covered(G, m, d, elem, j, lvl) && |Unmarked(m)| <= u0 && (|Unmarked(m)| < u0 || Q == Q0) &&
    |m0| == |d0| == |G| && m == MarkedAfter(G[elem][..j], m0) &&
    d == DistAfter(G[elem][..j], m0, d0, lvl + 1) && Q == Q0 + Fresh(G[elem][..j], m0)
  }

  /** Before the inner loop of bfs has looked at any successor. */
  lemma ScanStart(G: Graph, S: seq<int>, m: seq<bool>, d: seq<int>, Q: seq<int>, lvl: int, elem: int)
    requires Inv(G, S, m, d, Q, lvl, elem) && 0 <= elem < |G| && m[elem] && d[elem] == lvl
    ensures Scanned(G, S, m, d, Q, m, d, Q, lvl, elem, 0, |Unmarked(m)|)
  {
    assert G[elem][..0] == [];
    assert MarkedAfter([], m) == m;
    assert DistAfter([], m, d, lvl + 1) == d;
  }

  /** One step of the inner loop of bfs, on values: successor j is skipped when it is
      marked, and otherwise marked one level further and appended. */
  lemma ScanNext(G: Graph, S: seq<int>, m: seq<bool>, d: seq<int>, Q: seq<int>,
                 m0: seq<bool>, d0: seq<int>, Q0: seq<int>, lvl: int, elem: int, j: int, u0: int)
    requires IsDigraph(G) && Scanned(G, S, m, d, Q, m0, d0, Q0, lvl, elem, j, u0) && j < |G[elem]|
    ensures var w := G[elem][j];
      0 <= w < |G| &&
      (m[w] ==> Scanned(G, S, m, d, Q, m0, d0, Q0, lvl, elem, j + 1, u0)) &&
      (!m[w] ==> Scanned(G, S, m[w := true], d[w := lvl + 1], Q + [w], m0, d0, Q0, lvl, elem, j + 1, u0))
  {
    var w := G[elem][j];
    ExpandStep(G, S, m, d, Q, Q0, lvl, elem, j, u0);
    ScanStep(G[elem][..j], w, m0, d0, lvl + 1);
    assert G[elem][..j + 1] == G[elem][..j] + [w];
  }

  /** After the last successor: the vertex in hand needs no exception, and the marks,
      distances and queue are those of the whole adjacency list. */
  lemma ScanDone(G: Graph, S: seq<int>, m: seq<bool>, d: seq<int>, Q: seq<int>,
                 m0: seq<bool>, d0: seq<int>, Q0: seq<int>, lvl: int, elem: int, u0: int)
    requires IsDigraph(G) && 0 <= elem < |G| && Scanned(G, S, m, d, Q, m0, d0, Q0, lvl, elem, |G[elem]|, u0)
    ensures Inv(G, S, m, d, Q, lvl, -1)
    ensures m == MarkedAfter(G[elem], m0) && d == DistAfter(G[elem], m0, d0, lvl + 1)
    ensures Q == Q0 + Fresh(G[elem], m0)
    ensures |Unmarked(m)| <= u0 && (|Unmarked(m)| < u0 || Q == Q0)
  {
    assert G[elem][..|G[elem]|] == G[elem];
    Expanded(G, S, m, d, Q, lvl, elem, |G[elem]|);
  }

  /** The vertices still unmarked keep the distances of d0. */
  ghost predicate KeepsUnmarked(m: seq<bool>, d: seq<int>, d0: seq<int>)
  {
    |m| == |d| == |d0| && forall u :: 0 <= u < |m| && !m[u] ==> d[u] == d0[u]
  }

  /** The inner loop of bfs writes the distances of the vertices it marks and of no other. */
  lemma ExpandKeeps(ws: seq<int>, m: seq<bool>, d: seq<int>, d0: seq<int>, x: int)
    requires KeepsUnmarked(m, d, d0)
    ensures KeepsUnmarked(MarkedAfter(ws, m), DistAfter(ws, m, d, x), d0)
  {
  }

  /** The vertices not yet marked. */
  ghost function Unmarked(m: seq<bool>): set<int>
  {
    set v | 0 <= v < |m| && !m[v]
  }

  /** Marking an unmarked vertex leaves one vertex fewer unmarked. */
  lemma UnmarkedShrinks(m: seq<bool>, w: int)
    requires 0 <= w < |m| && !m[w]
    ensures |Unmarked(m[w := true])| == |Unmarked(m)| - 1
  {
    assert Unmarked(m[w := true]) == Unmarked(m) - {w};
  }

  /** The scan of vertices 0..n-1 for a vertex marked from both sides with the smallest
      sum of distances, the largest such vertex winning ties: (-1, -1) when there is none. */
  ghost predicate BestUpTo(vm: seq<bool>, vd: seq<int>, wm: seq<bool>, wd: seq<int>, n: int, len: int, anc: int)
  {
    0 <= n <= |vm| && n <= |vd| && n <= |wm| && n <= |wd| &&
    if forall i :: 0 <= i < n ==> !(vm[i] && wm[i]) then len == -1 && anc == -1
    else
      0 <= anc < n && vm[anc] && wm[anc] && len == vd[anc] + wd[anc] &&
      forall i :: 0 <= i < n && vm[i] && wm[i] ==> len <= vd[i] + wd[i] && (vd[i] + wd[i] == len ==> i <= anc)
  }

  /** A vertex is marked by a finished search exactly when it is reachable, and then
      every shortest distance to it is the recorded one. */
  lemma SearchedFacts(G: Graph, S: seq<int>, m: seq<bool>, d: seq<int>, i: int)
    requires Searched(G, S, m, d) && 0 <= i < |G|
    ensures m[i] <==> Reachable(G, S, i)
    ensures forall dv :: DistIs(G, S, i, dv) ==> m[i] && dv == d[i]
  {
    if m[i] {
      assert Reach(G, S, i, d[i]);
    }
    forall dv | DistIs(G, S, i, dv)
      ensures m[i] && dv == d[i]
    {
      assert Reach(G, S, i, dv);
      DistUnique(G, S, i, dv, d[i]);
    }
  }

  /** The scan over two finished searches finds the shortest ancestral path. */
  lemma ClosestIsSap(G: Graph, S: seq<int>, T: seq<int>, vm: seq<bool>, vd: seq<int>, wm: seq<bool>, wd: seq<int>, len: int, anc: int)
    requires Searched(G, S, vm, vd) && Searched(G, T, wm, wd)
    requires BestUpTo(vm, vd, wm, wd, |G|, len, anc)
    ensures IsSap(G, S, T, len, anc)
  {
    forall i | 0 <= i < |G|
      ensures Shared(G, S, T, i) <==> vm[i] && wm[i]
      ensures forall dv, dw :: DistIs(G, S, i, dv) && DistIs(G, T, i, dw) ==> vm[i] && wm[i] && dv == vd[i] && dw == wd[i]
    {
      SearchedFacts(G, S, vm, vd, i);
      SearchedFacts(G, T, wm, wd, i);
    }
    if exists i :: 0 <= i < |G| && vm[i] && wm[i] {
      assert DistIs(G, S, anc, vd[anc]) && DistIs(G, T, anc, wd[anc]);
      forall i, dv, dw | 0 <= i < |G| && DistIs(G, S, i, dv) && DistIs(G, T, i, dw)
        ensures len <= dv + dw && (dv + dw == len ==> i <= anc)
      {
        SearchedFacts(G, S, vm, vd, i);
        SearchedFacts(G, T, wm, wd, i);
      }
    }
  }

  /** Between a vertex and itself the shortest ancestral path has length 0 and ends at
      that vertex. */
  lemma SameVertexSap(G: Graph, v: int)
    requires 0 <= v < |G|
    ensures IsSap(G, [v], [v], 0, v)
  {
    assert Reach(G, [v], v, 0);
    assert DistIs(G, [v], v, 0);
    assert Shared(G, [v], [v], v);
    forall i, dv, dw | 0 <= i < |G| && DistIs(G, [v], i, dv) && DistIs(G, [v], i, dw) && dv + dw == 0
      ensures i <= v
    {
      assert Reach(G, [v], i, 0);
    }
  }

  /** The shortest ancestral path does not depend on which side is named first. */
  lemma SapSymmetric(G: Graph, S: seq<int>, T: seq<int>, len: int, anc: int)
    requires IsSap(G, S, T, len, anc)
    ensures IsSap(G, T, S, len, anc)
  {
    forall i | 0 <= i < |G|
      ensures Shared(G, S, T, i) <==> Shared(G, T, S, i)
    {
    }
    if exists i :: 0 <= i < |G| && Shared(G, S, T, i) {
      var dv, dw :| DistIs(G, S, anc, dv) && DistIs(G, T, anc, dw) && len == dv + dw;
      assert DistIs(G, T, anc, dw) && DistIs(G, S, anc, dv) && len == dw + dv;
    }
  }

  /** The shortest ancestral path is determined by the graph and the two sides. */
  lemma SapUnique(G: Graph, S: seq<int>, T: seq<int>, len1: int, anc1: int, len2: int, anc2: int)
    requires IsSap(G, S, T, len1, anc1) && IsSap(G, S, T, len2, anc2)
    ensures len1 == len2 && anc1 == anc2
  {
    if exists i :: 0 <= i < |G| && Shared(G, S, T, i) {
      var dv1, dw1 :| DistIs(G, S, anc1, dv1) && DistIs(G, T, anc1, dw1) && len1 == dv1 + dw1;
      var dv2, dw2 :| DistIs(G, S, anc2, dv2) && DistIs(G, T, anc2, dw2) && len2 == dv2 + dw2;
      assert len2 <= len1 && len1 <= len2;
      assert anc1 <= anc2 && anc2 <= anc1;
    }
  }

  /** Every element of a collection is present (not null). */
  predicate AllPresent(s: seq<Option<int>>)
  {
    forall i :: 0 <= i < |s| ==> s[i].Some?
  }

  /** The elements of a collection without nulls. */
  function Present(s: seq<Option<int>>): (r: seq<int>)
    requires AllPresent(s)
    ensures |r| == |s| && forall i :: 0 <= i < |s| ==> s[i] == Some(r[i])
  {
    seq(|s|, i requires 0 <= i < |s| => s[i].value)
  }

  /** Shortest distances are unique. */
  lemma DistUnique(G: Graph, S: seq<int>, v: int, d1: int, d2: int)
    requires DistIs(G, S, v, d1) && DistIs(G, S, v, d2)
    ensures d1 == d2
  {
    assert d1 <= d2 && d2 <= d1;
  }

  class SAP {
    /** The graph, copied on construction. */
    const G: Graph

    ghost predicate Valid()
    {
      IsDigraph(G)
    }

    constructor (g: Graph)
      requires IsDigraph(g)
      ensures Valid() && G == g
    {
      G := g;
    }

    /** The breadth-first search loop shared by both overloads of bfs: takes the
        vertex at the head of the queue and marks each unmarked successor one further
        away, appending it to the queue. */
    method Search(queue0: seq<int>, marked: array<bool>, distTo: array<int>, ghost S: seq<int>)
      requires Valid() && marked.Length == |G| && distTo.Length == |G|
      requires Inv(G, S, marked[..], distTo[..], queue0, 0, -1)
      modifies marked, distTo
      ensures Searched(G, S, marked[..], distTo[..])
      ensures KeepsUnmarked(marked[..], distTo[..], old(distTo[..]))
    {
      var queue := queue0;
      ghost var lvl := 0;
      while |queue| > 0
        invariant Inv(G, S, marked[..], distTo[..], queue, lvl, -1)
        invariant KeepsUnmarked(marked[..], distTo[..], old(distTo[..]))
        decreases |Unmarked(marked[..])|, |queue|
      {
        PopHead(G, S, marked[..], distTo[..], queue, lvl);
        var elem := queue[0];
        queue := queue[1..];
        lvl := distTo[elem];
        ghost var m, d := marked[..], distTo[..];
        queue := Expand(elem, queue, marked, distTo, S, lvl);
        ExpandKeeps(G[elem], m, d, old(distTo[..]), lvl + 1);
      }
      SearchDone(G, S, marked[..], distTo[..], lvl);
    }

    /** The inner loop of bfs: marks every unmarked successor of elem one further away
        and appends it to the queue. */
    method Expand(elem: int, queue0: seq<int>, marked: array<bool>, distTo: array<int>, ghost S: seq<int>, ghost lvl: int)
      returns (queue: seq<int>)
      requires Valid() && marked.Length == |G| && distTo.Length == |G|
      requires Inv(G, S, marked[..], distTo[..], queue0, lvl, elem)
      requires 0 <= elem < |G| && marked[elem] && distTo[elem] == lvl
      modifies marked, distTo
      ensures Inv(G, S, marked[..], distTo[..], queue, lvl, -1)
      ensures marked[..] == MarkedAfter(G[elem], old(marked[..]))
      ensures distTo[..] == DistAfter(G[elem], old(marked[..]), old(distTo[..]), lvl + 1)
      ensures queue == queue0 + Fresh(G[elem], old(marked[..]))
      ensures |Unmarked(marked[..])| <= old(|Unmarked(marked[..])|)
      ensures |Unmarked(marked[..])| < old(|Unmarked(marked[..])|) || queue == queue0
    {
      queue := queue0;
      ghost var u0 := |Unmarked(marked[..])|;
      ghost var m0, d0 := marked[..], distTo[..];
      ScanStart(G, S, m0, d0, queue0, lvl, elem);
      for j := 0 to |G[elem]|
        invariant Scanned(G, S, marked[..], distTo[..], queue, m0, d0, queue0, lvl, elem, j, u0)
      {
        var w := G[elem][j];
        ghost var m, d := marked[..], distTo[..];
        ScanNext(G, S, m, d, queue, m0, d0, queue0, lvl, elem, j, u0);
        if !marked[w] {
          queue := queue + [w];
          distTo[w] := distTo[elem] + 1;
          marked[w] := true;
          assert marked[..] == m[w := true] && distTo[..] == d[w := lvl + 1];
        }
      }
      ScanDone(G, S, marked[..], distTo[..], queue, m0, d0, queue0, lvl, elem, u0);
    }

    /** The scan of findAncestralPath: among the vertices marked from both sides, the
        smallest sum of distances and the last vertex attaining it. */
    method Closest(vMarked: array<bool>, vDistTo: array<int>, wMarked: array<bool>, wDistTo: array<int>)
      returns (minDistance: int, commonAncestor: int)
      requires Valid()
      requires vMarked.Length == |G| && vDistTo.Length == |G| && wMarked.Length == |G| && wDistTo.Length == |G|
      requires forall i :: 0 <= i < |G| && vMarked[i] ==> vDistTo[i] >= 0
      requires forall i :: 0 <= i < |G| && wMarked[i] ==> wDistTo[i] >= 0
      ensures BestUpTo(vMarked[..], vDistTo[..], wMarked[..], wDistTo[..], |G|, minDistance, commonAncestor)
    {
      commonAncestor, minDistance := -1, -1;
      for i := 0 to |G|
        invariant BestUpTo(vMarked[..], vDistTo[..], wMarked[..], wDistTo[..], i, minDistance, commonAncestor)
      {
        if vMarked[i] && wMarked[i] {
          var distance := vDistTo[i] + wDistTo[i];
          if minDistance == -1 {
            minDistance := distance;
          }
          if distance <= minDistance {
            commonAncestor := i;
            minDistance := distance;
          }
        }
      }
    }

    /** findAncestralPath for two vertices: the length and the ancestor of a shortest
        ancestral path, or (-1, -1) when no vertex is reachable from both. */
    method FindAncestralPath(v: int, w: int) returns (minDistance: int, commonAncestor: int)
      requires Valid() && 0 <= v < |G| && 0 <= w < |G|
      ensures IsSap(G, [v], [w], minDistance, commonAncestor)
    {
      var vMarked := new bool[|G|](_ => false);
      var wMarked := new bool[|G|](_ => false);
      var vDistTo := new int[|G|](_ => 0);
      var wDistTo := new int[|G|](_ => 0);
      BfsFrom(v, vMarked, vDistTo);
      BfsFrom(w, wMarked, wDistTo);
      minDistance, commonAncestor := Closest(vMarked, vDistTo, wMarked, wDistTo);
      ClosestIsSap(G, [v], [w], vMarked[..], vDistTo[..], wMarked[..], wDistTo[..], minDistance, commonAncestor);
    }

    /** findAncestralPath for two collections of vertices; a vertex outside the graph
        is an illegal argument. */
    method FindAncestralPathOfSets(v: seq<int>, w: seq<int>) returns (r: Result<(int, int), Error>)
      requires Valid()
      ensures r.Success? <==> InGraph(v) && InGraph(w)
      ensures r.Failure? ==> r.error == IllegalArgument
      ensures r.Success? ==> IsSap(G, v, w, r.value.0, r.value.1)
    {
      var vMarked := new bool[|G|](_ => false);
      var wMarked := new bool[|G|](_ => false);
      var vDistTo := new int[|G|](_ => 0);
      var wDistTo := new int[|G|](_ => 0);
      var rv := BfsFromAll(v, vMarked, vDistTo);
      if rv.Failure? {
        return Failure(rv.error);
      }
      var rw := BfsFromAll(w, wMarked, wDistTo);
      if rw.Failure? {
        return Failure(rw.error);
      }
      var minDistance, commonAncestor := Closest(vMarked, vDistTo, wMarked, wDistTo);
      ClosestIsSap(G, v, w, vMarked[..], vDistTo[..], wMarked[..], wDistTo[..], minDistance, commonAncestor);
      return Success((minDistance, commonAncestor));
    }

    /** Every vertex of the collection is a vertex of the graph. */
    predicate InGraph(s: seq<int>)
    {
      forall i :: 0 <= i < |s| ==> 0 <= s[i] < |G|
    }

    /** length(v, w): the length of a shortest ancestral path between two vertices,
        0 between a vertex and itself, -1 when there is none. */
    method Length(v: int, w: int) returns (r: Result<int, Error>)
      requires Valid()
      ensures r.Success? <==> 0 <= v < |G| && 0 <= w < |G|
      ensures r.Failure? ==> r.error == IllegalArgument
      ensures r.Success? ==> exists anc :: IsSap(G, [v], [w], r.value, anc)
    {
      if v < 0 || w < 0 || v >= |G| || w >= |G| {
        return Failure(IllegalArgument);
      }
      if v == w {
        SameVertexSap(G, v);
        return Success(0);
      }
      var minDistance, commonAncestor := FindAncestralPath(v, w);
      return Success(minDistance);
    }

    /** ancestor(v, w): the common ancestor on a shortest ancestral path between two
        vertices, -1 when there is none. */
    method Ancestor(v: int, w: int) returns (r: Result<int, Error>)
      requires Valid()
      ensures r.Success? <==> 0 <= v < |G| && 0 <= w < |G|
      ensures r.Failure? ==> r.error == IllegalArgument
      ensures r.Success? ==> exists len :: IsSap(G, [v], [w], len, r.value)
    {
      if v < 0 || w < 0 || v >= |G| || w >= |G| {
        return Failure(IllegalArgument);
      }
      var minDistance, commonAncestor := FindAncestralPath(v, w);
      return Success(commonAncestor);
    }

    /** length(v, w) for collections: a null collection, a null element or a vertex
        outside the graph is an illegal argument. */
    method LengthOfSets(v: Option<seq<Option<int>>>, w: Option<seq<Option<int>>>) returns (r: Result<int, Error>)
      requires Valid()
      ensures r.Success? <==> v.Some? && w.Some? && AllPresent(v.value) && AllPresent(w.value) &&
                              InGraph(Present(v.value)) && InGraph(Present(w.value))
      ensures r.Failure? ==> r.error == IllegalArgument
      ensures r.Success? ==> exists anc :: IsSap(G, Present(v.value), Present(w.value), r.value, anc)
    {
      if v.None? || w.None? || !AllPresent(v.value) || !AllPresent(w.value) {
        return Failure(IllegalArgument);
      }
      var p := FindAncestralPathOfSets(Present(v.value), Present(w.value));
      if p.Failure? {
        return Failure(p.error);
      }
      return Success(p.value.0);
    }

    /** ancestor(v, w) for collections, with the same argument checks as LengthOfSets. */
    method AncestorOfSets(v: Option<seq<Option<int>>>, w: Option<seq<Option<int>>>) returns (r: Result<int, Error>)
      requires Valid()
      ensures r.Success? <==> v.Some? && w.Some? && AllPresent(v.value) && AllPresent(w.value) &&
                              InGraph(Present(v.value)) && InGraph(Present(w.value))
      ensures r.Failure? ==> r.error == IllegalArgument
      ensures r.Success? ==> exists len :: IsSap(G, Present(v.value), Present(w.value), len, r.value)
    {
      if v.None? || w.None? || !AllPresent(v.value) || !AllPresent(w.value) {
        return Failure(IllegalArgument);
      }
      var p := FindAncestralPathOfSets(Present(v.value), Present(w.value));
      if p.Failure? {
        return Failure(p.error);
      }
      return Success(p.value.1);
    }

    /** bfs from one vertex. */
    method BfsFrom(v: int, marked: array<bool>, distTo: array<int>)
      requires Valid() && 0 <= v < |G| && marked.Length == |G| && distTo.Length == |G|
      requires forall u :: 0 <= u < |G| ==> !marked[u]
      modifies marked, distTo
      ensures Searched(G, [v], marked[..], distTo[..])
      ensures KeepsUnmarked(marked[..], distTo[..], old(distTo[..]))
    {
      var queue := [v];
      marked[v] := true;
      distTo[v] := 0;
      Search(queue, marked, distTo, [v]);
    }

    /** bfs from a set of vertices; a vertex outside the graph is an illegal argument. */
    method BfsFromAll(sources: seq<int>, marked: array<bool>, distTo: array<int>) returns (r: Result<(), Error>)
      requires Valid() && marked.Length == |G| && distTo.Length == |G|
      requires forall u :: 0 <= u < |G| ==> !marked[u]
      modifies marked, distTo
      ensures r.Success? <==> forall i :: 0 <= i < |sources| ==> 0 <= sources[i] < |G|
      ensures r.Failure? ==> r.error == IllegalArgument
      ensures r.Success? ==> Searched(G, sources, marked[..], distTo[..])
      ensures KeepsUnmarked(marked[..], distTo[..], old(distTo[..]))
    {
      var queue := [];
      for i := 0 to |sources|
        invariant queue == sources[..i]
        invariant forall k :: 0 <= k < i ==> 0 <= sources[k] < |G|
        invariant forall u :: 0 <= u < |G| ==> (marked[u] <==> u in queue) && (marked[u] ==> distTo[u] == 0)
        invariant KeepsUnmarked(marked[..], distTo[..], old(distTo[..]))
      {
        var v := sources[i];
        if v < 0 || v >= |G| {
          return Failure(IllegalArgument);
        }
        queue := queue + [v];
        marked[v] := true;
        distTo[v] := 0;
      }
      assert sources[..|sources|] == sources;
      ghost var m1, d1 := marked[..], distTo[..];
      Search(queue, marked, distTo, sources);
      forall u | 0 <= u < |G| && u in sources
        ensures marked[u]
      {
        assert Reach(G, sources, u, 0);
      }
      assert forall u :: 0 <= u < |G| && !marked[u] ==> !m1[u] && distTo[u] == d1[u];
      return Success(());
    }
  }

  /** new SAP(G): a null graph is an illegal argument. */
  method NewSAP(g: Option<Graph>) returns (r: Result<SAP, Error>)
    requires g.Some? ==> IsDigraph(g.value)
    ensures g.None? <==> r.Failure?
    ensures r.Failure? ==> r.error == IllegalArgument
    ensures r.Success? ==> r.value.Valid() && r.value.G == g.value
  {
    if g.None? {
      return Failure(IllegalArgument);
    }
    var sap := new SAP(g.value);
    return Success(sap);
  }
}

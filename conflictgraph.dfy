// ConflictGraph.cs: the cardinal-conflict graph of CBS as a symmetric
// boolean matrix with an edge counter, its 2-approximate vertex cover, and
// the exact k-vertex-cover decision of Downey and Fellows.

module ConflictGraphs {
  import opened BoolMatrix
  import Sets

  /** A copy of a graph: the matrix G and the two counters. */
  datatype Graph = Graph(adj: seq<seq<bool>>, numOfNodes: int, numOfEdges: int)

  /** C holds an endpoint of every edge. */
  ghost predicate IsCover(m: seq<seq<bool>>, c: set<int>)
  {
    forall i, j :: 0 <= i < |m| && 0 <= j < |m[i]| && m[i][j] ==> i in c || j in c
  }

  /** Every member of c is a vertex of m. */
  ghost predicate InRange(m: seq<seq<bool>>, c: set<int>)
  {
    forall v :: v in c ==> 0 <= v < |m|
  }

  /** Some set of at most k vertices covers every edge. */
  ghost predicate Coverable(m: seq<seq<bool>>, k: int)
  {
    exists c: set<int> :: InRange(m, c) && IsCover(m, c) && |c| <= k
  }

  function Max0(k: int): nat
  {
    if k < 0 then 0 else k
  }

  /** The counters agree with the matrix: every undirected edge is counted
      once, and numOfNodes is at least the number of vertices with an edge. */
  ghost predicate WellFormed(g: Graph)
  {
    Square(g.adj) && Symmetric(g.adj) && Loopless(g.adj)
    && 2 * g.numOfEdges == Total(g.adj)
    && NumTouched(g.adj) <= g.numOfNodes
  }

  /** WellFormed, and no edge starts in a row before `lastEdgeX`. */
  ghost predicate Consistent(g: Graph, lastEdgeX: int)
  {
    WellFormed(g) && 0 <= lastEdgeX
    && (forall i, j :: 0 <= i < j < |g.adj| && g.adj[i][j] ==> lastEdgeX <= i)
  }

  /** The graph with vertex w and its edges taken out. */
  ghost function Without(g: Graph, w: nat): Graph
    requires Square(g.adj) && w < |g.adj|
  {
    Graph(Removed(g.adj, w), g.numOfNodes - 1, g.numOfEdges - Count(g.adj[w]))
  }

  lemma WithoutWellFormed(g: Graph, w: nat)
    requires WellFormed(g) && w < |g.adj| && HasEdge(g.adj[w])
    ensures WellFormed(Without(g, w))
    ensures Without(g, w).numOfEdges < g.numOfEdges
  {
    TotalRemoved(g.adj, w);
    RemovedShape(g.adj, w);
    TouchedRemoved(g.adj, w);
    var j :| 0 <= j < |g.adj[w]| && g.adj[w][j];
    if Count(g.adj[w]) == 0 {
      CountZero(g.adj[w], |g.adj[w]|);
    }
  }

  /** A graph with an edge has two vertices with an edge. */
  lemma TwoTouched(m: seq<seq<bool>>)
    requires Square(m) && Symmetric(m) && Loopless(m) && Total(m) > 0
    ensures NumTouched(m) >= 2
  {
    var i, j := TotalPositive(m, |m|);
    if Count(m[i]) == 0 {
      CountZero(m[i], |m[i]|);
    }
    DegreeBound(m, i);
  }

  lemma NoEdgesCovered(m: seq<seq<bool>>, k: int)
    requires Total(m) == 0 && 0 <= k
    ensures Coverable(m, k)
  {
    TotalZero(m, |m|);
    assert IsCover(m, {});
  }

  lemma EdgeNotCoveredByNone(m: seq<seq<bool>>)
    requires Total(m) > 0
    ensures !Coverable(m, 0)
  {
    var i, j := TotalPositive(m, |m|);
    forall c | InRange(m, c) && IsCover(m, c) ensures |c| > 0 {
      assert i in c || j in c;
    }
  }

  /** A cover of the graph without w, plus w, covers the graph. */
  lemma CoverAdd(m: seq<seq<bool>>, w: nat, c: set<int>)
    requires Square(m) && w < |m| && IsCover(Removed(m, w), c)
    ensures IsCover(m, c + {w})
  {
    var r := Removed(m, w);
    forall i, j | 0 <= i < |m| && 0 <= j < |m[i]| && m[i][j] ensures i in c + {w} || j in c + {w} {
      if i != w && j != w {
        assert r[i][j];
      }
    }
  }

  /** A cover of the graph, less w, covers the graph without w. */
  lemma CoverLess(m: seq<seq<bool>>, w: nat, c: set<int>)
    requires Square(m) && w < |m| && IsCover(m, c)
    ensures IsCover(Removed(m, w), c - {w})
  {
  }

  lemma CoverWith(m: seq<seq<bool>>, w: nat, k: int)
    requires Square(m) && w < |m| && Coverable(Removed(m, w), k - 1)
    ensures Coverable(m, k)
  {
    var c :| InRange(Removed(m, w), c) && IsCover(Removed(m, w), c) && |c| <= k - 1;
    CoverAdd(m, w, c);
    assert InRange(m, c + {w});
  }

  /** A cover of at most k vertices holds an endpoint of edge (u, v), and
      without that endpoint it covers the graph without it. */
  lemma CoverSplits(m: seq<seq<bool>>, u: nat, v: nat, k: int)
    requires Square(m) && u < |m| && v < |m| && m[u][v] && Coverable(m, k)
    ensures Coverable(Removed(m, u), k - 1) || Coverable(Removed(m, v), k - 1)
  {
    var c :| InRange(m, c) && IsCover(m, c) && |c| <= k;
    var w := if u in c then u else v;
    CoverLess(m, w, c);
    assert InRange(Removed(m, w), c - {w});
  }

  lemma BoundStep(a: int, n: int, e: int, d: int)
    requires a >= 1 && e <= (a - 1) * (n - 2) && d <= n - 1
    ensures e + d <= a * (n - 1)
  {
    assert (a - 1) * (n - 2) == a * (n - 1) - a - n + 2;
  }

  lemma BoundFirst(a: int, n: int, d: int)
    requires a >= 1 && 0 <= d <= n - 1
    ensures d <= a * (n - 1)
  {
    assert a * (n - 1) == (a - 1) * (n - 1) + (n - 1);
    assert (a - 1) * (n - 1) >= 0;
  }

  /** Every edge needs a vertex of C, and each vertex of C covers fewer
      edges than there are vertices with an edge: |E| <= |C| * (|V| - 1). */
  lemma {:induction false} CoverBound(g: Graph, c: set<int>)
    requires WellFormed(g) && g.numOfEdges > 0
    requires InRange(g.adj, c) && IsCover(g.adj, c)
    ensures g.numOfEdges <= |c| * (g.numOfNodes - 1)
    decreases |c|, 1
  {
    TwoTouched(g.adj);
    var i, j := TotalPositive(g.adj, |g.adj|);
    var w := if i in c then i else j;
    assert g.adj[j][i];
    CoverBoundAt(g, c, w);
  }

  /** CoverBound, taking out a cover vertex w that has an edge. */
  lemma {:induction false} CoverBoundAt(g: Graph, c: set<int>, w: nat)
    requires WellFormed(g) && InRange(g.adj, c) && IsCover(g.adj, c)
    requires w in c && w < |g.adj| && HasEdge(g.adj[w])
    ensures g.numOfEdges <= |c| * (g.numOfNodes - 1)
    decreases |c|, 0
  {
    DegreeBound(g.adj, w);
    var g2 := Without(g, w);
    WithoutWellFormed(g, w);
    CoverLess(g.adj, w, c);
    if g2.numOfEdges > 0 {
      CoverBound(g2, c - {w});
      BoundStep(|c|, g.numOfNodes, g2.numOfEdges, Count(g.adj[w]));
    } else {
      BoundFirst(|c|, g.numOfNodes, Count(g.adj[w]));
    }
  }

  lemma BoundMono(a: int, b: int, n: int)
    requires 0 <= a <= b && n >= 1
    ensures a * (n - 1) <= b * (n - 1)
  {
    assert b * (n - 1) == a * (n - 1) + (b - a) * (n - 1);
    assert (b - a) * (n - 1) >= 0;
  }

  /** The pruning test of KVertexCover: more edges than k vertices can
      cover means there is no cover of size k. */
  lemma PruneSound(g: Graph, k: int)
    requires WellFormed(g) && g.numOfEdges > 0
    requires g.numOfEdges > k * g.numOfNodes - k
    ensures !Coverable(g.adj, Max0(k))
  {
    TwoTouched(g.adj);
    forall c | InRange(g.adj, c) && IsCover(g.adj, c) ensures |c| > Max0(k) {
      CoverBound(g, c);
      PruneArith(|c|, k, g.numOfNodes, g.numOfEdges);
    }
  }

  lemma PruneArith(a: int, k: int, n: int, e: int)
    requires 0 <= a && n >= 2 && 0 < e <= a * (n - 1) && e > k * n - k
    ensures a > Max0(k)
  {
    if k >= 0 {
      assert k * n - k == k * (n - 1);
      assert (a - k) * (n - 1) == a * (n - 1) - k * (n - 1);
      PositiveFactor(a - k, n - 1);
    }
  }

  lemma PositiveFactor(x: int, y: int)
    requires y > 0 && x * y > 0
    ensures x > 0
  {
  }

  /** Past the pruning test, a graph with an edge has k >= 1. */
  lemma PassedPrune(g: Graph, k: int)
    requires WellFormed(g) && g.numOfEdges > 0
    requires g.numOfEdges <= k * g.numOfNodes - k
    ensures k >= 1
  {
    TwoTouched(g.adj);
    NonPositiveProduct(k, g.numOfNodes);
  }

  lemma NonPositiveProduct(k: int, n: int)
    requires n >= 1
    ensures k <= 0 ==> k * n - k <= 0
  {
    assert k * n - k == k * (n - 1);
    if k <= 0 {
      assert (-k) * (n - 1) >= 0;
    }
  }

  /** All vertices with an edge but one cover the graph. */
  lemma AllButOne(m: seq<seq<bool>>)
    requires Square(m) && Symmetric(m) && Loopless(m) && NumTouched(m) >= 1
    ensures Coverable(m, NumTouched(m) - 1)
  {
    var t := Touched(m);
    var ts := set i | 0 <= i < |t| && t[i];
    CountCard(t, |t|);
    var w :| w in ts;
    var c := ts - {w};
    forall i, j | 0 <= i < |m| && 0 <= j < |m[i]| && m[i][j] ensures i in c || j in c {
      assert t[i];
      assert m[j][i];
      assert t[j];
    }
    assert InRange(m, c) && IsCover(m, c) && |c| <= NumTouched(m) - 1;
  }

  /** A consistent graph with an edge has one at or after row lastEdgeX. */
  lemma SomeEdge(g: Graph, lastEdgeX: int) returns (i: nat, j: nat)
    requires Consistent(g, lastEdgeX) && g.numOfEdges > 0
    ensures lastEdgeX <= i < j < |g.adj| && g.adj[i][j]
  {
    var x, y := TotalPositive(g.adj, |g.adj|);
    assert g.adj[y][x];
    if x < y {
      i, j := x, y;
    } else {
      i, j := y, x;
    }
  }

  /** The edge search of KVertexCover: the first edge (u, v), u < v, in row
      order from row `lastEdgeX`. */
  method ChooseEdge(m: seq<seq<bool>>, lastEdgeX: nat) returns (found: bool, u: nat, v: nat)
    requires Square(m)
    ensures found ==> lastEdgeX <= u < v < |m| && m[u][v]
    ensures found ==> forall i, j :: lastEdgeX <= i < u && i < j < |m| ==> !m[i][j]
    ensures !found ==> forall i, j :: lastEdgeX <= i < j < |m| ==> !m[i][j]
  {
    found, u, v := false, 0, 0;
    var i := lastEdgeX;
    while i < |m| - 1 && !found
      invariant lastEdgeX <= i
      invariant found ==> lastEdgeX <= u < v < |m| && m[u][v] && u < i
      invariant forall x, y :: lastEdgeX <= x < i && x < y < |m| && (!found || x < u) ==> !m[x][y]
    {
      var j := i + 1;
      while j < |m| && !found
        invariant i + 1 <= j <= |m|
        invariant found ==> u == i && i < v < |m| && m[u][v]
        invariant !found ==> forall y :: i < y < j ==> !m[i][y]
      {
        if m[i][j] {
          u, v := i, j;
          found := true;
        }
        j := j + 1;
      }
      i := i + 1;
    }
  }

  /** The copy of CG with vertex w's edges cleared one by one, as in the
      branch loop of KVertexCover. */
  method RemoveVertex(g: Graph, w: nat) returns (c: Graph)
    requires Square(g.adj) && Loopless(g.adj) && Symmetric(g.adj) && w < |g.adj|
    ensures c == Without(g, w)
  {
    var n := |g.adj|;
    var a, e := g.adj, g.numOfEdges;
    var j := 0;
    while j < n
      invariant 0 <= j <= n && |a| == n && Square(a)
      invariant forall x, y :: 0 <= x < n && 0 <= y < n ==>
        a[x][y] == (g.adj[x][y] && !((x == w && y < j) || (y == w && x < j)))
      invariant e == g.numOfEdges - CountUpTo(g.adj[w], j)
    {
      if a[w][j] {
        a := a[w := a[w][j := false]];
        a := a[j := a[j][w := false]];
        e := e - 1;
      }
      j := j + 1;
    }
    forall x | 0 <= x < n ensures a[x] == Removed(g.adj, w)[x] {
    }
    c := Graph(a, g.numOfNodes - 1, e);
  }

  /** KVertexCover: whether some k vertices (none, for k < 0) cover every
      edge. Recurses on the copies without each endpoint of one edge. */
  method KVertexCover(g: Graph, k: int, lastEdgeX: int) returns (r: bool)
    requires Consistent(g, lastEdgeX)
    ensures r <==> Coverable(g.adj, Max0(k))
    decreases g.numOfEdges, 1
  {
    if g.numOfEdges == 0 {
      NoEdgesCovered(g.adj, Max0(k));
      return true;
    } else if g.numOfEdges > k * g.numOfNodes - k {
      PruneSound(g, k);
      return false;
    }
    PassedPrune(g, k);
    ghost var x, y := SomeEdge(g, lastEdgeX);
    var found, u, v := ChooseEdge(g.adj, lastEdgeX);
    r := TryEndpoints(g, k, u, v);
  }

  /** The branch loop of KVertexCover over the two endpoints of the chosen
      edge (u, v), each tried on a copy without it. */
  method TryEndpoints(g: Graph, k: int, u: nat, v: nat) returns (r: bool)
    requires WellFormed(g) && k >= 1 && u < v < |g.adj| && g.adj[u][v]
    requires forall i, j :: 0 <= i < j < |g.adj| && g.adj[i][j] ==> u <= i
    ensures r <==> Coverable(g.adj, k)
    decreases g.numOfEdges, 0
  {
    var ends := [u, v];
    var t := 0;
    while t < 2
      invariant 0 <= t <= 2
      invariant t >= 1 ==> !Coverable(Removed(g.adj, u), k - 1)
      invariant t >= 2 ==> !Coverable(Removed(g.adj, v), k - 1)
    {
      var w := ends[t];
      assert HasEdge(g.adj[w]) by { assert g.adj[u][v] && g.adj[v][u]; }
      var copy := RemoveVertex(g, w);
      WithoutWellFormed(g, w);
      var sub := KVertexCover(copy, k - 1, u);
      if sub {
        CoverWith(g.adj, w, k);
        return true;
      }
      t := t + 1;
    }
    if Coverable(g.adj, k) {
      CoverSplits(g.adj, u, v, k);
    }
    return false;
  }

  /** The endpoints of a list of edges. */
  function Ends(ms: seq<(nat, nat)>): set<int>
  {
    if ms == [] then {} else Ends(ms[..|ms| - 1]) + {ms[|ms| - 1].0, ms[|ms| - 1].1}
  }

  /** No two of the edges share an endpoint. */
  predicate Matching(ms: seq<(nat, nat)>)
  {
    ms == [] ||
    (var e := ms[|ms| - 1];
     Matching(ms[..|ms| - 1]) && e.0 != e.1 && e.0 !in Ends(ms[..|ms| - 1]) && e.1 !in Ends(ms[..|ms| - 1]))
  }

  ghost predicate EdgesOf(m: seq<seq<bool>>, ms: seq<(nat, nat)>)
  {
    forall t :: 0 <= t < |ms| ==> ms[t].0 < |m| && ms[t].1 < |m[ms[t].0]| && m[ms[t].0][ms[t].1]
  }

  /** A cover holds an endpoint of each of the disjoint edges, so it has at
      least as many vertices as there are edges in the matching. */
  lemma {:induction false} MatchingBound(m: seq<seq<bool>>, ms: seq<(nat, nat)>, c: set<int>)
    requires Matching(ms) && EdgesOf(m, ms) && IsCover(m, c)
    ensures |c * Ends(ms)| >= |ms|
  {
    if ms != [] {
      var front := ms[..|ms| - 1];
      var e := ms[|ms| - 1];
      assert EdgesOf(m, front) by {
        forall t | 0 <= t < |front| ensures front[t] == ms[t] { }
      }
      MatchingBound(m, front, c);
      assert m[e.0][e.1];
      var pair := {e.0, e.1};
      assert Ends(ms) == Ends(front) + pair;
      assert c * Ends(ms) == (c * Ends(front)) + (c * pair);
      assert (c * Ends(front)) * (c * pair) == {};
      assert |c * pair| >= 1 by {
        assert e.0 in c * pair || e.1 in c * pair;
      }
    }
  }

  lemma CoverAtLeastMatching(m: seq<seq<bool>>, ms: seq<(nat, nat)>, c: set<int>)
    requires Matching(ms) && EdgesOf(m, ms) && IsCover(m, c)
    ensures |c| >= |ms|
  {
    MatchingBound(m, ms, c);
    assert c * Ends(ms) <= c;
    Sets.SubsetCard(c * Ends(ms), c);
  }

  lemma {:induction false} MatchingSize(ms: seq<(nat, nat)>)
    requires Matching(ms)
    ensures |Ends(ms)| == 2 * |ms|
  {
    if ms != [] {
      MatchingSize(ms[..|ms| - 1]);
    }
  }

  class ConflictGraph {
    /** G: G[i][j] holds when agents i and j have a cardinal conflict. */
    var adj: seq<seq<bool>>
    var numOfNodes: int
    var numOfEdges: int

    /** G is square and symmetric, and every undirected edge (a self-loop
        included) is counted once. */
    ghost predicate Valid()
      reads this
    {
      Square(adj) && Symmetric(adj) && 2 * numOfEdges == Total(adj) + Count(Diagonal(adj))
    }

    function Value(): Graph
      reads this
    {
      Graph(adj, numOfNodes, numOfEdges)
    }

    constructor(numOfAgents: nat)
      ensures Valid() && |adj| == numOfAgents
      ensures forall i, j :: 0 <= i < numOfAgents && 0 <= j < numOfAgents ==> !adj[i][j]
      ensures numOfNodes == 0 && numOfEdges == 0
    {
      adj := seq(numOfAgents, i => seq(numOfAgents, j => false));
      numOfNodes, numOfEdges := 0, 0;
      new;
      TotalNone(adj, |adj|);
      CountNone(Diagonal(adj), |adj|);
    }

    /** Add: the edge goes in both directions, counted once. */
    method Add(a: nat, b: nat)
      requires Valid() && a < |adj| && b < |adj|
      modifies this`adj, this`numOfEdges
      ensures Valid() && |adj| == old(|adj|)
      ensures forall i, j :: 0 <= i < |adj| && 0 <= j < |adj| ==>
        adj[i][j] == (old(adj[i][j]) || (i == a && j == b) || (i == b && j == a))
      ensures numOfEdges == old(numOfEdges) + (if old(adj[a][b]) then 0 else 1)
    {
      if !adj[a][b] {
        var m0 := adj;
        var m1 := m0[a := m0[a][b := true]];
        var m2 := m1[b := m1[b][a := true]];
        TotalUpdate(m0, a, m1[a], |m0|);
        CountUpdate(m0[a], b, true, |m0|);
        TotalUpdate(m1, b, m2[b], |m1|);
        CountUpdate(m1[b], a, true, |m1|);
        DiagonalAdd(m0, a, b);
        adj := m2;
        numOfEdges := numOfEdges + 1;
      }
    }

    /** ApproximateMinimumVertexCover: both endpoints of a greedy maximal
        matching, scanned row by row. */
    method ApproximateMinimumVertexCover() returns (r: int)
      requires Valid() && Loopless(adj)
      ensures numOfEdges < 2 ==> r == numOfEdges
      ensures numOfEdges >= 2 ==> Coverable(adj, r) && r % 2 == 0
      ensures numOfEdges >= 2 ==> forall k :: Coverable(adj, k) ==> r <= 2 * k
    {
      if numOfEdges < 2 {
        return numOfEdges;
      }
      var cover := GreedyMatching(adj);
      r := |cover|;
    }

    /** MinimumVertexCover: the size of a minimum cover, counting the
        vertices with an edge first; from a previous size p only p - 1, p
        and p + 1 are tried. */
    method MinimumVertexCover(prevMVC: int) returns (r: int)
      requires Valid() && Loopless(adj)
      modifies this`numOfNodes
      ensures Valid()
      ensures numOfEdges < 2 ==> r == numOfEdges && numOfNodes == old(numOfNodes)
      ensures numOfEdges >= 2 ==> numOfNodes == NumTouched(adj)
      ensures numOfEdges >= 2 && prevMVC == -1 ==> Coverable(adj, r) && !Coverable(adj, r - 1)
      ensures numOfEdges >= 2 && prevMVC != -1 ==> prevMVC - 1 <= r <= prevMVC + 1
      ensures numOfEdges >= 2 && prevMVC != -1 ==> (r == prevMVC - 1 <==> Coverable(adj, Max0(prevMVC - 1)))
      ensures numOfEdges >= 2 && prevMVC != -1 && r == prevMVC ==> Coverable(adj, Max0(prevMVC))
      ensures numOfEdges >= 2 && prevMVC != -1 && r == prevMVC + 1 ==> !Coverable(adj, Max0(prevMVC))
    {
      if numOfEdges < 2 {
        return numOfEdges;
      }
      CountNone(Diagonal(adj), |adj|);
      TwoTouched(adj);
      AllButOne(adj);
      EdgeNotCoveredByNone(adj);
      assert 2 * numOfEdges == Total(adj);
      var nodes := CountNodes();
      numOfNodes := nodes;
      if prevMVC == -1 {
        var i := 1;
        while i < numOfNodes
          invariant 1 <= i <= numOfNodes == NumTouched(adj)
          invariant forall t :: 0 <= t < i ==> !Coverable(adj, t)
        {
          var yes := KVertexCover(Value(), i, 0);
          if yes {
            return i;
          }
          i := i + 1;
        }
      }
      var below := KVertexCover(Value(), prevMVC - 1, 0);
      if below {
        return prevMVC - 1;
      }
      var same := KVertexCover(Value(), prevMVC, 0);
      if same {
        return prevMVC;
      }
      return prevMVC + 1;
    }

    /** The loop of MinimumVertexCover that counts the vertices with an edge. */
    method CountNodes() returns (nodes: nat)
      requires Valid()
      ensures nodes == NumTouched(adj)
    {
      var m := adj;
      var t := Touched(m);
      nodes := 0;
      var i := 0;
      while i < |m|
        invariant 0 <= i <= |m| && nodes == CountUpTo(t, i)
      {
        var j := 0;
        while j < |m|
          invariant 0 <= j <= |m| && forall y :: 0 <= y < j ==> !m[i][y]
        {
          if m[i][j] {
            nodes := nodes + 1;
            break;
          }
          j := j + 1;
        }
        i := i + 1;
      }
    }
  }

  lemma DiagonalAdd(m: seq<seq<bool>>, a: nat, b: nat)
    requires Square(m) && Symmetric(m) && a < |m| && b < |m| && !m[a][b]
    ensures var m1 := m[a := m[a][b := true]];
            var m2 := m1[b := m1[b][a := true]];
            Square(m2) && Symmetric(m2)
            && Count(Diagonal(m2)) == Count(Diagonal(m)) + (if a == b then 1 else 0)
  {
    var m1 := m[a := m[a][b := true]];
    var m2 := m1[b := m1[b][a := true]];
    if a == b {
      assert Diagonal(m2) == Diagonal(m)[a := true];
      CountUpdate(Diagonal(m), a, true, |m|);
    } else {
      assert Diagonal(m2) == Diagonal(m);
    }
  }

  /** The loop of ApproximateMinimumVertexCover: rows 0..|m|-2 in order,
      skipping rows already covered. */
  method GreedyMatching(m: seq<seq<bool>>) returns (cover: set<int>)
    requires Square(m) && Symmetric(m) && Loopless(m)
    ensures Coverable(m, |cover|) && |cover| % 2 == 0
    ensures forall k :: Coverable(m, k) ==> |cover| <= 2 * k
  {
    cover := {};
    ghost var ms: seq<(nat, nat)> := [];
    var i := 0;
    while i < |m| - 1
      invariant 0 <= i <= |m|
      invariant cover == Ends(ms) && Matching(ms) && EdgesOf(m, ms) && InRange(m, cover)
      invariant forall x :: 0 <= x < i ==> RowCovered(m, x, cover)
    {
      if i !in cover {
        ghost var before := cover;
        cover, ms := MatchRow(m, i, cover, ms);
        assert forall x :: 0 <= x < i && RowCovered(m, x, before) ==> RowCovered(m, x, cover);
      }
      i := i + 1;
    }
    GreedyCoverResult(m, i, cover, ms);
    GreedyBoundResult(m, cover, ms);
  }

  /** After the scan: a cover of even size... */
  lemma GreedyCoverResult(m: seq<seq<bool>>, i: nat, cover: set<int>, ms: seq<(nat, nat)>)
    requires Square(m) && Symmetric(m) && Loopless(m) && i + 1 >= |m|
    requires cover == Ends(ms) && Matching(ms) && InRange(m, cover)
    requires forall x :: 0 <= x < i && x < |m| ==> RowCovered(m, x, cover)
    ensures Coverable(m, |cover|) && |cover| % 2 == 0
  {
    GreedyCovers(m, i, cover);
    CoverIsCoverable(m, cover);
    MatchingSize(ms);
    Twice(|ms|);
  }

  lemma Twice(n: nat)
    ensures (2 * n) % 2 == 0
  {
  }

  /** ... and at most twice the size of any cover. */
  lemma GreedyBoundResult(m: seq<seq<bool>>, cover: set<int>, ms: seq<(nat, nat)>)
    requires cover == Ends(ms) && Matching(ms) && EdgesOf(m, ms)
    ensures forall k :: Coverable(m, k) ==> |cover| <= 2 * k
  {
    MatchingSize(ms);
    ApproximationBound(m, ms, cover);
  }

  lemma CoverIsCoverable(m: seq<seq<bool>>, c: set<int>)
    requires InRange(m, c) && IsCover(m, c)
    ensures Coverable(m, |c|)
  {
  }

  /** One row of the greedy scan: the first edge (i, j) of row i whose other
      endpoint is not yet covered joins the matching. */
  method MatchRow(m: seq<seq<bool>>, i: nat, cover: set<int>, ghost ms: seq<(nat, nat)>)
    returns (cover2: set<int>, ghost ms2: seq<(nat, nat)>)
    requires Square(m) && i < |m| && i !in cover
    requires cover == Ends(ms) && Matching(ms) && EdgesOf(m, ms) && InRange(m, cover)
    ensures cover2 == Ends(ms2) && Matching(ms2) && EdgesOf(m, ms2) && InRange(m, cover2)
    ensures cover <= cover2 && RowCovered(m, i, cover2)
  {
    cover2, ms2 := cover, ms;
    var j := i + 1;
    while j < |m|
      invariant i + 1 <= j <= |m|
      invariant forall y :: i < y < j && m[i][y] ==> y in cover
    {
      if m[i][j] && j !in cover {
        ms2 := ms + [(i, j)];
        assert ms2[..|ms2| - 1] == ms;
        cover2 := cover + {i, j};
        return;
      }
      j := j + 1;
    }
  }

  /** Each edge (x, y) leaving x upwards has an endpoint in the cover. */
  ghost predicate RowCovered(m: seq<seq<bool>>, x: nat, cover: set<int>)
    requires Square(m) && x < |m|
  {
    forall y :: x < y < |m| && m[x][y] ==> x in cover || y in cover
  }

  /** Covering every row's upward edges covers the whole symmetric matrix. */
  lemma GreedyCovers(m: seq<seq<bool>>, i: nat, cover: set<int>)
    requires Square(m) && Symmetric(m) && Loopless(m) && i + 1 >= |m|
    requires forall x :: 0 <= x < i && x < |m| ==> RowCovered(m, x, cover)
    ensures IsCover(m, cover)
  {
    forall x, y | 0 <= x < |m| && 0 <= y < |m[x]| && m[x][y] ensures x in cover || y in cover {
      assert m[y][x];
      if x < y {
        assert RowCovered(m, x, cover);
      } else {
        assert RowCovered(m, y, cover);
      }
    }
  }

  /** The greedy cover is at most twice any cover. */
  lemma ApproximationBound(m: seq<seq<bool>>, ms: seq<(nat, nat)>, cover: set<int>)
    requires Matching(ms) && EdgesOf(m, ms) && cover == Ends(ms) && |cover| == 2 * |ms|
    ensures forall k :: Coverable(m, k) ==> |cover| <= 2 * k
  {
    forall k | Coverable(m, k) ensures |cover| <= 2 * k {
      var c :| InRange(m, c) && IsCover(m, c) && |c| <= k;
      CoverAtLeastMatching(m, ms, c);
    }
  }
}

// Counting over the boolean adjacency matrix of ConflictGraph.cs: rows,
// columns, the whole matrix, and the matrix with one vertex's edges cleared.

module BoolMatrix {
  /** The number of true entries among s[0..k). */
  function CountUpTo(s: seq<bool>, k: nat): (r: nat)
    requires k <= |s|
    ensures r <= k
  {
    if k == 0 then 0 else CountUpTo(s, k - 1) + (if s[k - 1] then 1 else 0)
  }

  function Count(s: seq<bool>): nat
  {
    CountUpTo(s, |s|)
  }

  lemma {:induction false} CountSame(a: seq<bool>, b: seq<bool>, k: nat)
    requires k <= |a| && k <= |b|
    requires forall i :: 0 <= i < k ==> a[i] == b[i]
    ensures CountUpTo(a, k) == CountUpTo(b, k)
  {
    if k > 0 {
      CountSame(a, b, k - 1);
    }
  }

  lemma {:induction false} CountMono(a: seq<bool>, b: seq<bool>, k: nat)
    requires k <= |a| && k <= |b|
    requires forall i :: 0 <= i < k && a[i] ==> b[i]
    ensures CountUpTo(a, k) <= CountUpTo(b, k)
  {
    if k > 0 {
      CountMono(a, b, k - 1);
    }
  }

  /** Pointwise below, and strictly below at w: one fewer at least. */
  lemma {:induction false} CountStrict(a: seq<bool>, b: seq<bool>, k: nat, w: nat)
    requires k <= |a| && k <= |b| && w < k
    requires forall i :: 0 <= i < k && a[i] ==> b[i]
    requires b[w] && !a[w]
    ensures CountUpTo(a, k) < CountUpTo(b, k)
  {
    if w == k - 1 {
      CountMono(a, b, k - 1);
    } else {
      CountStrict(a, b, k - 1, w);
    }
  }

  lemma {:induction false} CountZero(s: seq<bool>, k: nat)
    requires k <= |s| && CountUpTo(s, k) == 0
    ensures forall i :: 0 <= i < k ==> !s[i]
  {
    if k > 0 {
      CountZero(s, k - 1);
    }
  }

  lemma {:induction false} CountNone(s: seq<bool>, k: nat)
    requires k <= |s| && forall i :: 0 <= i < k ==> !s[i]
    ensures CountUpTo(s, k) == 0
  {
    if k > 0 {
      CountNone(s, k - 1);
    }
  }

  /** Overwriting one entry changes the count by its old and new value. */
  lemma {:induction false} CountUpdate(s: seq<bool>, j: nat, v: bool, k: nat)
    requires j < |s| && k <= |s|
    ensures CountUpTo(s[j := v], k)
         == CountUpTo(s, k) - (if j < k && s[j] then 1 else 0) + (if j < k && v then 1 else 0)
  {
    if k > 0 {
      CountUpdate(s, j, v, k - 1);
    }
  }

  /** The count is the size of the set of true positions. */
  lemma {:induction false} CountCard(s: seq<bool>, k: nat)
    requires k <= |s|
    ensures CountUpTo(s, k) == |set i | 0 <= i < k && s[i]|
  {
    if k > 0 {
      CountCard(s, k - 1);
      var prev := set i | 0 <= i < k - 1 && s[i];
      var cur := set i | 0 <= i < k && s[i];
      if s[k - 1] {
        assert cur == prev + {k - 1};
      } else {
        assert cur == prev;
      }
    }
  }

  ghost predicate Square(m: seq<seq<bool>>)
  {
    forall i :: 0 <= i < |m| ==> |m[i]| == |m|
  }

  /** G[i, j] == G[j, i] for every pair. */
  ghost predicate Symmetric(m: seq<seq<bool>>)
    requires Square(m)
  {
    forall i, j :: 0 <= i < |m| && 0 <= j < |m| ==> m[i][j] == m[j][i]
  }

  ghost predicate Loopless(m: seq<seq<bool>>)
    requires Square(m)
  {
    forall i :: 0 <= i < |m| ==> !m[i][i]
  }

  /** The number of true entries in rows 0..k-1. */
  function TotalUpTo(m: seq<seq<bool>>, k: nat): nat
    requires k <= |m|
  {
    if k == 0 then 0 else TotalUpTo(m, k - 1) + Count(m[k - 1])
  }

  function Total(m: seq<seq<bool>>): nat
  {
    TotalUpTo(m, |m|)
  }

  /** The number of true entries on the diagonal. */
  function Diagonal(m: seq<seq<bool>>): (r: seq<bool>)
    requires Square(m)
    ensures |r| == |m| && forall i :: 0 <= i < |m| ==> r[i] == m[i][i]
  {
    seq(|m|, i requires 0 <= i < |m| => m[i][i])
  }

  lemma {:induction false} TotalUpdate(m: seq<seq<bool>>, i: nat, row: seq<bool>, k: nat)
    requires i < |m| && k <= |m|
    ensures TotalUpTo(m[i := row], k) == TotalUpTo(m, k) - (if i < k then Count(m[i]) else 0) + (if i < k then Count(row) else 0)
  {
    if k > 0 {
      TotalUpdate(m, i, row, k - 1);
    }
  }

  lemma {:induction false} TotalNone(m: seq<seq<bool>>, k: nat)
    requires k <= |m| && forall i, j :: 0 <= i < k && 0 <= j < |m[i]| ==> !m[i][j]
    ensures TotalUpTo(m, k) == 0
  {
    if k > 0 {
      TotalNone(m, k - 1);
      CountNone(m[k - 1], |m[k - 1]|);
    }
  }

  lemma {:induction false} TotalZero(m: seq<seq<bool>>, k: nat)
    requires k <= |m| && TotalUpTo(m, k) == 0
    ensures forall i, j :: 0 <= i < k && 0 <= j < |m[i]| ==> !m[i][j]
  {
    if k > 0 {
      TotalZero(m, k - 1);
      CountZero(m[k - 1], |m[k - 1]|);
    }
  }

  lemma {:induction false} TotalPositive(m: seq<seq<bool>>, k: nat) returns (i: nat, j: nat)
    requires k <= |m| && TotalUpTo(m, k) > 0
    ensures i < k && j < |m[i]| && m[i][j]
  {
    if Count(m[k - 1]) > 0 {
      i := k - 1;
      if forall jj :: 0 <= jj < |m[i]| ==> !m[i][jj] {
        CountNone(m[i], |m[i]|);
      }
      var jj :| 0 <= jj < |m[i]| && m[i][jj];
      j := jj;
    } else {
      i, j := TotalPositive(m, k - 1);
    }
  }

  /** The column of vertex u. */
  function Column(m: seq<seq<bool>>, u: nat): (r: seq<bool>)
    requires Square(m) && u < |m|
    ensures |r| == |m| && forall i :: 0 <= i < |m| ==> r[i] == m[i][u]
  {
    seq(|m|, i requires 0 <= i < |m| => m[i][u])
  }

  /** The matrix with every edge of vertex u removed. */
  function Removed(m: seq<seq<bool>>, u: nat): (r: seq<seq<bool>>)
    requires Square(m)
    ensures |r| == |m| && Square(r)
    ensures forall i, j :: 0 <= i < |m| && 0 <= j < |m| ==> r[i][j] == (m[i][j] && i != u && j != u)
  {
    seq(|m|, i requires 0 <= i < |m| => seq(|m|, j requires 0 <= j < |m| => m[i][j] && i != u && j != u))
  }

  lemma {:induction false} TotalRemovedUpTo(m: seq<seq<bool>>, u: nat, k: nat)
    requires Square(m) && u < |m| && !m[u][u] && k <= |m|
    ensures TotalUpTo(Removed(m, u), k) + (if u < k then Count(m[u]) else 0) + CountUpTo(Column(m, u), k)
         == TotalUpTo(m, k)
  {
    if k > 0 {
      TotalRemovedUpTo(m, u, k - 1);
      var r := Removed(m, u);
      var i := k - 1;
      if i == u {
        CountNone(r[i], |r[i]|);
      } else {
        assert r[i] == m[i][u := false];
        CountUpdate(m[i], u, false, |m[i]|);
      }
    }
  }

  /** Clearing vertex u removes its row's edges twice over: once from its
      row and once from its column. */
  lemma TotalRemoved(m: seq<seq<bool>>, u: nat)
    requires Square(m) && Symmetric(m) && Loopless(m) && u < |m|
    ensures Total(Removed(m, u)) + 2 * Count(m[u]) == Total(m)
  {
    TotalRemovedUpTo(m, u, |m|);
    CountSame(Column(m, u), m[u], |m|);
  }

  lemma RemovedShape(m: seq<seq<bool>>, u: nat)
    requires Square(m) && Symmetric(m) && Loopless(m) && u < |m|
    ensures Symmetric(Removed(m, u)) && Loopless(Removed(m, u))
  {
  }

  /** Row i has an edge. */
  ghost predicate HasEdge(row: seq<bool>)
  {
    exists j :: 0 <= j < |row| && row[j]
  }

  /** For each vertex, whether it has an edge. */
  ghost function Touched(m: seq<seq<bool>>): (r: seq<bool>)
    ensures |r| == |m| && forall i :: 0 <= i < |m| ==> r[i] == HasEdge(m[i])
  {
    seq(|m|, i requires 0 <= i < |m| => HasEdge(m[i]))
  }

  /** The number of vertices with an edge. */
  ghost function NumTouched(m: seq<seq<bool>>): nat
  {
    Count(Touched(m))
  }

  /** A vertex's degree is below the number of other touched vertices. */
  lemma DegreeBound(m: seq<seq<bool>>, u: nat)
    requires Square(m) && Symmetric(m) && Loopless(m) && u < |m| && HasEdge(m[u])
    ensures Count(m[u]) < NumTouched(m)
  {
    var t := Touched(m);
    forall j | 0 <= j < |m| && m[u][j] ensures t[j] {
      assert m[j][u];
    }
    CountStrict(m[u], t, |m|, u);
  }

  /** Clearing a touched vertex leaves at least one fewer touched vertex. */
  lemma TouchedRemoved(m: seq<seq<bool>>, u: nat)
    requires Square(m) && u < |m| && HasEdge(m[u])
    ensures NumTouched(Removed(m, u)) < NumTouched(m)
  {
    var r := Removed(m, u);
    var t, t2 := Touched(m), Touched(r);
    forall i | 0 <= i < |m| && t2[i] ensures t[i] {
      var j :| 0 <= j < |r[i]| && r[i][j];
    }
    assert forall j :: 0 <= j < |r[u]| ==> !r[u][j];
    CountStrict(t2, t, |m|, u);
  }
}

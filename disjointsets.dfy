// DisjointSets.cs: union by rank with path compression. The
// DisjointSetItem objects are numbered in the order they are created; an
// item's `parent` field becomes `parent[i]` and its `rank` field `rank[i]`.

module UnionFind {
  import opened Wrappers

  /** Every parent link is in range and, off a representative, climbs to a
      strictly higher rank; no rank exceeds `bound`. */
  ghost predicate Ranked(p: seq<nat>, rk: seq<nat>, bound: nat)
  {
    |p| == |rk|
    && (forall i {:trigger p[i]} :: 0 <= i < |p| ==> p[i] < |p|)
    && (forall i {:trigger rk[i]} :: 0 <= i < |p| ==> rk[i] <= bound)
    && (forall i {:trigger p[i]} :: 0 <= i < |p| && p[i] != i ==> rk[i] < rk[p[i]])
  }

  /** The representative of item i: the end of its parent chain. */
  ghost function RepOf(p: seq<nat>, rk: seq<nat>, bound: nat, i: nat): (r: nat)
    requires Ranked(p, rk, bound) && i < |p|
    ensures r < |p| && p[r] == r
    ensures r != i ==> rk[i] < rk[r]
    ensures p[i] == i ==> r == i
    decreases bound - rk[i]
  {
    if p[i] == i then i else RepOf(p, rk, bound, p[i])
  }

  /** Pointing x straight at its representative changes no representative. */
  lemma {:induction false} CompressKeepsRep(p: seq<nat>, rk: seq<nat>, bound: nat, x: nat, i: nat)
    requires Ranked(p, rk, bound) && x < |p| && i < |p|
    requires Ranked(p[x := RepOf(p, rk, bound, x)], rk, bound)
    ensures RepOf(p[x := RepOf(p, rk, bound, x)], rk, bound, i) == RepOf(p, rk, bound, i)
    decreases bound - rk[i]
  {
    var q := p[x := RepOf(p, rk, bound, x)];
    if q[i] != i {
      CompressKeepsRep(p, rk, bound, x, q[i]);
    }
  }

  lemma CompressRanked(p: seq<nat>, rk: seq<nat>, bound: nat, x: nat)
    requires Ranked(p, rk, bound) && x < |p|
    ensures Ranked(p[x := RepOf(p, rk, bound, x)], rk, bound)
  {
  }

  /** Linking root `child` under root `top`: the items of child's set now
      have top as representative, all others keep theirs. */
  lemma {:induction false} LinkRep(p: seq<nat>, rk: seq<nat>, bound: nat, child: nat, top: nat,
                                   rk2: seq<nat>, bound2: nat, i: nat)
    requires Ranked(p, rk, bound) && child < |p| && top < |p| && i < |p|
    requires p[child] == child && p[top] == top && child != top
    requires Ranked(p[child := top], rk2, bound2)
    ensures RepOf(p[child := top], rk2, bound2, i)
         == if RepOf(p, rk, bound, i) == child then top else RepOf(p, rk, bound, i)
    decreases bound2 - rk2[i]
  {
    var q := p[child := top];
    if i != child && q[i] != i {
      LinkRep(p, rk, bound, child, top, rk2, bound2, q[i]);
    }
  }

  /** A new item, its own parent with rank 0, changes no representative. */
  lemma {:induction false} AppendKeepsRep(p: seq<nat>, rk: seq<nat>, bound: nat, i: nat)
    requires Ranked(p, rk, bound) && i < |p|
    ensures Ranked(p + [|p|], rk + [0], bound)
    ensures RepOf(p + [|p|], rk + [0], bound, i) == RepOf(p, rk, bound, i)
    decreases bound - rk[i]
  {
    var p2, rk2 := p + [|p|], rk + [0];
    assert forall j :: 0 <= j < |p| ==> p2[j] == p[j] && rk2[j] == rk[j];
    if p[i] != i {
      AppendKeepsRep(p, rk, bound, p[i]);
    }
  }

  lemma AppendRanked(p: seq<nat>, rk: seq<nat>, bound: nat)
    requires Ranked(p, rk, bound)
    ensures Ranked(p + [|p|], rk + [0], bound)
  {
    var p2, rk2 := p + [|p|], rk + [0];
    assert forall j :: 0 <= j < |p| ==> p2[j] == p[j] && rk2[j] == rk[j];
  }

  /** The number of representatives among items 0..k-1. */
  function NumRoots(p: seq<nat>, k: nat): (r: nat)
    requires k <= |p|
    ensures r <= k
  {
    if k == 0 then 0 else NumRoots(p, k - 1) + (if p[k - 1] == k - 1 then 1 else 0)
  }

  lemma {:induction false} NumRootsSame(p: seq<nat>, q: seq<nat>, k: nat)
    requires k <= |p| && k <= |q|
    requires forall i :: 0 <= i < k ==> (p[i] == i <==> q[i] == i)
    ensures NumRoots(p, k) == NumRoots(q, k)
  {
    if k > 0 {
      NumRootsSame(p, q, k - 1);
    }
  }

  /** Making one representative a non-representative lowers the count by one. */
  lemma {:induction false} NumRootsLink(p: seq<nat>, child: nat, top: nat, k: nat)
    requires k <= |p| && child < |p| && p[child] == child && top != child
    ensures NumRoots(p[child := top], k) == NumRoots(p, k) - (if child < k then 1 else 0)
  {
    if k > 0 {
      NumRootsLink(p, child, top, k - 1);
    }
  }

  lemma NumRootsAppend(p: seq<nat>)
    ensures NumRoots(p + [|p|], |p| + 1) == NumRoots(p, |p|) + 1
  {
    NumRootsSame(p, p + [|p|], |p|);
  }

  /** Every item's representative, by item number. */
  ghost function Reps(p: seq<nat>, rk: seq<nat>, bound: nat): (r: seq<nat>)
    requires Ranked(p, rk, bound)
    ensures |r| == |p|
    ensures forall i :: 0 <= i < |p| ==> r[i] == RepOf(p, rk, bound, i)
  {
    seq(|p|, i requires 0 <= i < |p| => RepOf(p, rk, bound, i))
  }

  /** A new item, its own parent with rank 0, is its own representative
      and changes no other. */
  lemma AppendReps(p: seq<nat>, rk: seq<nat>, bound: nat)
    requires Ranked(p, rk, bound)
    ensures Ranked(p + [|p|], rk + [0], bound)
    ensures Reps(p + [|p|], rk + [0], bound) == Reps(p, rk, bound) + [|p|]
  {
    AppendRanked(p, rk, bound);
    forall i | 0 <= i < |p| ensures RepOf(p + [|p|], rk + [0], bound, i) == RepOf(p, rk, bound, i) {
      AppendKeepsRep(p, rk, bound, i);
    }
  }

  /** A representative above rank 0 has an item right under it, named by
      `w`: a rank grows only when a set of equal rank goes under it, and
      path compression only ever moves items under a representative. */
  ghost predicate RanksShared(p: seq<nat>, rk: seq<nat>, w: seq<nat>)
    requires |rk| == |p|
  {
    |w| == |p|
    && forall i {:trigger w[i]} :: 0 <= i < |p| && p[i] == i && rk[i] > 0 ==> w[i] < |p| && w[i] != i && p[w[i]] == i
  }

  lemma EmptyRanked()
    ensures Ranked([], [], 0) && RanksShared([], [], []) && NumRoots([], 0) == 0
  {
  }

  /** A new item of rank 0 keeps every representative's company. */
  lemma AppendShared(p: seq<nat>, rk: seq<nat>, w: seq<nat>)
    requires |rk| == |p| && RanksShared(p, rk, w)
    ensures RanksShared(p + [|p|], rk + [0], w + [|p|])
  {
    var p2, rk2, w2 := p + [|p|], rk + [0], w + [|p|];
    forall i | 0 <= i < |p2| && p2[i] == i && rk2[i] > 0
      ensures w2[i] < |p2| && w2[i] != i && p2[w2[i]] == i
    {
      assert i < |p| && p[i] == i && rk[i] > 0;
      assert p2[w[i]] == p[w[i]];
    }
  }

  /** Pointing an item straight at its representative keeps every
      representative's company. */
  lemma CompressShared(p: seq<nat>, rk: seq<nat>, bound: nat, w: seq<nat>, x: nat)
    requires Ranked(p, rk, bound) && RanksShared(p, rk, w) && x < |p|
    ensures RanksShared(p[x := RepOf(p, rk, bound, x)], rk, w)
  {
    var root := RepOf(p, rk, bound, x);
    var q := p[x := root];
    forall i | 0 <= i < |q| && q[i] == i && rk[i] > 0
      ensures w[i] < |q| && w[i] != i && q[w[i]] == i
    {
      assert p[i] == i;
      if w[i] == x {
        assert root == RepOf(p, rk, bound, p[x]) == i;
      }
    }
  }

  /** After one root goes under another, the upper root has the lower one
      under it and every other root keeps its company. */
  lemma LinkShared(p: seq<nat>, rk: seq<nat>, w: seq<nat>, child: nat, top: nat, rk2: seq<nat>)
    requires |rk| == |p| && RanksShared(p, rk, w) && child < |p| && top < |p|
    requires p[child] == child && p[top] == top && child != top
    requires rk2 == rk || rk2 == rk[top := rk[top] + 1]
    ensures RanksShared(p[child := top], rk2, w[top := child])
  {
    var q, w2 := p[child := top], w[top := child];
    forall i | 0 <= i < |q| && q[i] == i && rk2[i] > 0
      ensures w2[i] < |q| && w2[i] != i && q[w2[i]] == i
    {
      if i != top {
        assert i != child && p[i] == i && rk[i] > 0;
        assert w2[i] == w[i] && w[i] != child;
      }
    }
  }

  /** Entries a and b are present and their items share a representative. */
  ghost predicate Together(m: map<int, nat>, r: seq<nat>, a: int, b: int)
  {
    a in m && b in m && m[a] < |r| && m[b] < |r| && r[m[a]] == r[m[b]]
  }

  ghost predicate SameIn(m: map<int, nat>, r: seq<nat>, a: int, b: int)
  {
    a == b || Together(m, r, a, b)
  }

  /** c and d are in one set once the sets of a and b are merged. */
  ghost predicate JoinedIn(m: map<int, nat>, r: seq<nat>, c: int, d: int, a: int, b: int)
  {
    SameIn(m, r, c, d) || (SameIn(m, r, c, a) && SameIn(m, r, d, b)) || (SameIn(m, r, c, b) && SameIn(m, r, d, a))
  }

  /** The representatives once representative `child` is put under `top`. */
  ghost function Relinked(r: seq<nat>, child: nat, top: nat): (r2: seq<nat>)
    ensures |r2| == |r|
    ensures forall i :: 0 <= i < |r| ==> r2[i] == if r[i] == child then top else r[i]
  {
    seq(|r|, i requires 0 <= i < |r| => if r[i] == child then top else r[i])
  }

  /** Relinking one of the two representatives of a and b into the other
      unites exactly the pairs that the merge of their sets unites. */
  lemma RelinkJoins(m: map<int, nat>, r: seq<nat>, a: int, b: int, child: nat, top: nat)
    requires a in m && b in m && m[a] < |r| && m[b] < |r|
    requires forall e :: e in m ==> m[e] < |r|
    requires r[m[a]] != r[m[b]]
    requires (child == r[m[a]] && top == r[m[b]]) || (child == r[m[b]] && top == r[m[a]])
    ensures forall c, d :: c in m && d in m ==> (Together(m, Relinked(r, child, top), c, d) <==> JoinedIn(m, r, c, d, a, b))
  {
    var r2 := Relinked(r, child, top);
    forall c, d | c in m && d in m
      ensures Together(m, r2, c, d) <==> JoinedIn(m, r, c, d, a, b)
    {
      MergePair(r[m[c]], r[m[d]], r[m[a]], r[m[b]], child, top);
    }
  }

  /** Once a and b are together, merging their sets changes nothing. */
  lemma JoinedWhenTogether(m: map<int, nat>, r: seq<nat>, a: int, b: int)
    requires forall e :: e in m ==> m[e] < |r|
    requires Together(m, r, a, b)
    ensures forall c, d :: c in m && d in m ==> (Together(m, r, c, d) <==> JoinedIn(m, r, c, d, a, b))
  {
    forall c, d | c in m && d in m
      ensures Together(m, r, c, d) <==> JoinedIn(m, r, c, d, a, b)
    {
      assert SameIn(m, r, c, a) <==> r[m[c]] == r[m[a]];
      assert SameIn(m, r, d, a) <==> r[m[d]] == r[m[a]];
    }
  }

  /** Merging the sets of a and b depends only on which entries are the same. */
  lemma JoinedTransfer(m0: map<int, nat>, r0: seq<nat>, m1: map<int, nat>, r1: seq<nat>, a: int, b: int)
    requires forall c, d :: SameIn(m1, r1, c, d) <==> SameIn(m0, r0, c, d)
    ensures forall c, d :: JoinedIn(m1, r1, c, d, a, b) <==> JoinedIn(m0, r0, c, d, a, b)
  {
  }

  /** Sending child's set to top merges exactly the sets of ra and rb. */
  lemma MergePair(rc: nat, rd: nat, ra: nat, rb: nat, child: nat, top: nat)
    requires ra != rb && ((child == ra && top == rb) || (child == rb && top == ra))
    ensures ((if rc == child then top else rc) == (if rd == child then top else rd))
        <==> (rc == rd || (rc == ra && rd == rb) || (rc == rb && rd == ra))
  {
  }

  /** A new entry with a new item that is its own representative is the same
      only as itself, and no other pair changes. */
  lemma AppendSame(m: map<int, nat>, r: seq<nat>, e: int)
    requires e !in m
    requires forall x :: x in m ==> m[x] < |r| && r[m[x]] < |r|
    ensures forall c, d :: SameIn(m[e := |r|], r + [|r|], c, d) <==> SameIn(m, r, c, d)
  {
    var m2, r2 := m[e := |r|], r + [|r|];
    forall c, d ensures SameIn(m2, r2, c, d) <==> SameIn(m, r, c, d) {
      if c != e && c in m {
        assert r2[m2[c]] == r[m[c]];
      }
      if d != e && d in m {
        assert r2[m2[d]] == r[m[d]];
      }
    }
  }

  /** LinkRep for every item, with the count of representatives. */
  lemma LinkAll(p: seq<nat>, rk: seq<nat>, bound: nat, child: nat, top: nat, rk2: seq<nat>, bound2: nat)
    requires Ranked(p, rk, bound) && child < |p| && top < |p|
    requires p[child] == child && p[top] == top && child != top
    requires Ranked(p[child := top], rk2, bound2)
    ensures Reps(p[child := top], rk2, bound2) == Relinked(Reps(p, rk, bound), child, top)
    ensures NumRoots(p[child := top], |p|) == NumRoots(p, |p|) - 1
  {
    forall i | 0 <= i < |p| ensures RepOf(p[child := top], rk2, bound2, i)
         == if RepOf(p, rk, bound, i) == child then top else RepOf(p, rk, bound, i) {
      LinkRep(p, rk, bound, child, top, rk2, bound2, i);
    }
    NumRootsLink(p, child, top, |p|);
  }

  /** The ranks after a link keep the ordering along every parent link. */
  lemma LinkRanked(p: seq<nat>, rk: seq<nat>, bound: nat, child: nat, top: nat, grow: bool,
                   rk2: seq<nat>, bound2: nat)
    requires Ranked(p, rk, bound) && child < |p| && top < |p| && child != top
    requires p[child] == child && p[top] == top
    requires if grow then rk[child] == rk[top] else rk[child] < rk[top]
    requires rk2 == if grow then rk[top := rk[top] + 1] else rk
    requires bound2 == if grow && rk[top] + 1 > bound then bound + 1 else bound
    ensures Ranked(p[child := top], rk2, bound2)
  {
    var q := p[child := top];
    forall i | 0 <= i < |q| && q[i] != i ensures rk2[i] < rk2[q[i]] {
      if i != child {
        assert q[i] == p[i];
        assert rk[i] < rk[p[i]];
      }
    }
  }

  class DisjointSets {
    /** The dictionary's keys, in the order the entries were added. */
    var entries: seq<int>
    /** entriesToItems: the entry's item number. */
    var itemOf: map<int, nat>
    var parent: seq<nat>
    var rank: seq<nat>
    var maxRank: nat
    /** For a representative above rank 0, an item right under it. */
    ghost var under: seq<nat>

    ghost predicate Valid()
      reads this
    {
      |entries| == |parent|
      && Ranked(parent, rank, maxRank)
      && RanksShared(parent, rank, under)
      && (forall k :: 0 <= k < |entries| ==> entries[k] in itemOf && itemOf[entries[k]] == k)
      && (forall e :: e in itemOf ==> itemOf[e] < |entries| && entries[itemOf[e]] == e)
    }

    /** The representative of every item. */
    ghost function Classes(): seq<nat>
      reads this
      requires Valid()
    {
      Reps(parent, rank, maxRank)
    }

    /** Both entries are present and in the same set. */
    ghost predicate United(a: int, b: int)
      reads this
      requires Valid()
    {
      Together(itemOf, Classes(), a, b)
    }

    ghost predicate Same(a: int, b: int)
      reads this
      requires Valid()
    {
      SameIn(itemOf, Classes(), a, b)
    }

    ghost predicate Joined(c: int, d: int, a: int, b: int)
      reads this
      requires Valid()
    {
      JoinedIn(itemOf, Classes(), c, d, a, b)
    }

    ghost function NumSets(): nat
      reads this
      requires Valid()
    {
      NumRoots(parent, |parent|)
    }

    constructor()
      ensures Valid()
      ensures itemOf == map[] && maxRank == 0 && NumSets() == 0
    {
      entries, itemOf, parent, rank, maxRank, under := [], map[], [], [], 0, [];
      new;
      EmptyValid();
    }

    lemma EmptyValid()
      requires entries == [] && itemOf == map[] && parent == [] && rank == [] && maxRank == 0 && under == []
      ensures Valid() && NumSets() == 0
    {
      EmptyRanked();
    }

    function Contains(e: int): (r: bool)
      reads this
      ensures r <==> e in itemOf
    {
      e in itemOf
    }

    /** AddSet: a new entry becomes a set of its own; a present entry is
        left as it is. No two entries change whether they share a set. */
    method AddSet(e: int) returns (added: bool)
      requires Valid()
      modifies this`entries, this`itemOf, this`parent, this`rank, this`under
      ensures Valid() && maxRank == old(maxRank)
      ensures added <==> e !in old(itemOf)
      ensures itemOf.Keys == old(itemOf.Keys) + {e}
      ensures !added ==> entries == old(entries) && itemOf == old(itemOf) && parent == old(parent) && rank == old(rank)
      ensures forall c, d :: SameIn(itemOf, Classes(), c, d) <==> SameIn(old(itemOf), old(Classes()), c, d)
      ensures NumSets() == old(NumSets()) + (if added then 1 else 0)
    {
      if e in itemOf {
        return false;
      }
      ghost var p0, r0 := parent, rank;
      var n := |parent|;
      AppendReps(p0, r0, maxRank);
      AppendShared(p0, r0, under);
      NumRootsAppend(p0);
      AppendSame(itemOf, Classes(), e);
      entries := entries + [e];
      itemOf := itemOf[e := n];
      parent := parent + [n];
      rank := rank + [0];
      under := under + [n];
      added := true;
      assert parent == p0 + [n] && NumSets() == NumRoots(p0 + [n], n + 1);
    }

    /** IsSingle: the entry's item is its own parent with rank 0; a missing
        entry fails the dictionary lookup. */
    function IsSingle(e: int): (r: Result<bool>)
      reads this
      requires Valid()
      ensures r.Err? <==> e !in itemOf
      ensures r.Err? ==> r.error == KeyNotFound
      ensures r.Ok? ==> r.value == (parent[itemOf[e]] == itemOf[e] && rank[itemOf[e]] == 0)
      ensures r.Ok? ==> (r.value <==> forall c :: United(c, e) ==> c == e)
    {
      if e !in itemOf then Err(KeyNotFound)
      else
        var i := itemOf[e];
        SingleIffAlone(e);
        var single := parent[i] == i && rank[i] == 0;
        if single then Ok(true) else Ok(false)
    }

    /** An entry's item is a rank-0 representative exactly when no other
        entry shares its set. */
    lemma SingleIffAlone(e: int)
      requires Valid() && e in itemOf
      ensures var i := itemOf[e];
        (parent[i] == i && rank[i] == 0) <==> forall c :: United(c, e) ==> c == e
    {
      var i := itemOf[e];
      var r := Classes();
      if parent[i] == i && rank[i] == 0 {
        forall c | United(c, e) ensures c == e {
          assert r[itemOf[c]] == i;
        }
      } else if parent[i] != i {
        var j := r[i];
        assert parent[j] == j && j != i;
        assert r[j] == j;
        assert United(entries[j], e) && entries[j] != e;
      } else {
        var k := under[i];
        assert r[k] == RepOf(parent, rank, maxRank, i) == i;
        assert United(entries[k], e) && entries[k] != e;
      }
    }

    /** GetNumOfSets: the number of entries whose item is its own parent. */
    method GetNumOfSets() returns (count: nat)
      requires Valid()
      ensures count == NumSets()
    {
      count := 0;
      var k := 0;
      while k < |entries|
        invariant 0 <= k <= |entries|
        invariant count == NumRoots(parent, k)
      {
        var item := itemOf[entries[k]];
        if parent[item] == item {
          count := count + 1;
        }
        k := k + 1;
      }
    }

    /** AreUnited: whether the two entries' items have one representative;
        a missing entry fails the dictionary lookup. */
    method AreUnited(a: int, b: int) returns (r: Result<bool>)
      requires Valid()
      modifies this`parent
      ensures Valid()
      ensures r.Err? <==> a !in itemOf || b !in itemOf
      ensures r.Err? ==> r.error == KeyNotFound
      ensures r.Ok? ==> r.value == old(United(a, b))
      ensures Classes() == old(Classes()) && NumSets() == old(NumSets())
    {
      if a !in itemOf || b !in itemOf {
        return Err(KeyNotFound);
      }
      ghost var p0 := parent;
      var xRoot := Find(itemOf[a]);
      var yRoot := Find(itemOf[b]);
      NumRootsSame(p0, parent, |parent|);
      r := Ok(xRoot == yRoot);
    }

    /** Find with path compression: the item then points straight at its
        representative, and no item changes set. */
    method Find(x: nat) returns (r: nat)
      requires Valid() && x < |parent|
      modifies this`parent
      ensures Valid() && |parent| == old(|parent|)
      ensures r == old(Classes())[x] && parent[x] == r
      ensures Classes() == old(Classes())
      ensures forall i :: 0 <= i < |parent| ==> (parent[i] == i <==> old(parent[i]) == i)
      ensures forall i :: 0 <= i < |parent| && rank[i] < rank[x] ==> parent[i] == old(parent[i])
      decreases maxRank - rank[x]
    {
      if parent[x] != x {
        ghost var px := parent[x];
        var root := Find(parent[x]);
        ghost var p1 := parent;
        assert p1[x] == px;
        assert root == RepOf(p1, rank, maxRank, x);
        CompressRanked(p1, rank, maxRank, x);
        forall i | 0 <= i < |p1| ensures RepOf(p1[x := root], rank, maxRank, i) == RepOf(p1, rank, maxRank, i) {
          CompressKeepsRep(p1, rank, maxRank, x, i);
        }
        CompressShared(p1, rank, maxRank, under, x);
        parent := parent[x := root];
      }
      r := parent[x];
    }

    /** Union: both entries are added if missing, then the lower-ranked
        representative goes under the other; on equal ranks b's goes under
        a's, whose rank grows. False when they were already in one set. */
    method Union(a: int, b: int) returns (united: bool)
      requires Valid()
      modifies this`entries, this`itemOf, this`parent, this`rank, this`maxRank, this`under
      ensures Valid()
      ensures itemOf.Keys == old(itemOf.Keys) + {a, b}
      ensures !united <==> old(Same(a, b))
      ensures United(a, b)
      ensures forall c, d :: c in itemOf && d in itemOf ==> (United(c, d) <==> old(Joined(c, d, a, b)))
      ensures NumSets() == old(NumSets()) + (if a in old(itemOf) then 0 else 1)
                         + (if b in old(itemOf) || b == a then 0 else 1) - (if united then 1 else 0)
      ensures maxRank == old(maxRank) || maxRank == old(maxRank) + 1
    {
      ghost var m0, r0 := itemOf, Classes();
      AddBoth(a, b);
      JoinedTransfer(m0, r0, itemOf, Classes(), a, b);
      united := Link(a, b);
    }

    /** The two AddSet calls at the start of Union. */
    method AddBoth(a: int, b: int)
      requires Valid()
      modifies this`entries, this`itemOf, this`parent, this`rank, this`under
      ensures Valid() && maxRank == old(maxRank)
      ensures itemOf.Keys == old(itemOf.Keys) + {a, b}
      ensures forall c, d :: SameIn(itemOf, Classes(), c, d) <==> SameIn(old(itemOf), old(Classes()), c, d)
      ensures NumSets() == old(NumSets()) + (if a in old(itemOf) then 0 else 1)
                         + (if b in old(itemOf) || b == a then 0 else 1)
    {
      ghost var m0, r0 := itemOf, Classes();
      var addedA := AddSet(a);
      ghost var m1, r1 := itemOf, Classes();
      var addedB := AddSet(b);
      assert forall c, d :: SameIn(itemOf, Classes(), c, d) <==> SameIn(m1, r1, c, d);
    }

    /** The body of Union once both entries are present. */
    method Link(a: int, b: int) returns (united: bool)
      requires Valid() && a in itemOf && b in itemOf
      modifies this`parent, this`rank, this`maxRank, this`under
      ensures Valid()
      ensures !united <==> old(United(a, b))
      ensures United(a, b)
      ensures forall c, d :: c in itemOf && d in itemOf ==> (United(c, d) <==> old(Joined(c, d, a, b)))
      ensures NumSets() == old(NumSets()) - (if united then 1 else 0)
      ensures maxRank == old(maxRank) || maxRank == old(maxRank) + 1
    {
      ghost var p0 := parent;
      var xRoot := Find(itemOf[a]);
      var yRoot := Find(itemOf[b]);
      NumRootsSame(p0, parent, |parent|);
      united := LinkRoots(a, b, xRoot, yRoot);
    }

    /** Link, given the representatives of a and b. */
    method LinkRoots(a: int, b: int, xRoot: nat, yRoot: nat) returns (united: bool)
      requires Valid() && a in itemOf && b in itemOf
      requires xRoot == Classes()[itemOf[a]] && yRoot == Classes()[itemOf[b]]
      modifies this`parent, this`rank, this`maxRank, this`under
      ensures Valid()
      ensures !united <==> old(United(a, b))
      ensures United(a, b)
      ensures forall c, d :: c in itemOf && d in itemOf ==> (United(c, d) <==> old(Joined(c, d, a, b)))
      ensures NumSets() == old(NumSets()) - (if united then 1 else 0)
      ensures maxRank == old(maxRank) || maxRank == old(maxRank) + 1
    {
      if xRoot == yRoot {
        JoinedWhenTogether(itemOf, Classes(), a, b);
        return false;
      }
      ghost var r0 := Classes();
      if rank[xRoot] < rank[yRoot] {
        Attach(xRoot, yRoot, false);
        RelinkJoins(itemOf, r0, a, b, xRoot, yRoot);
      } else {
        Attach(yRoot, xRoot, rank[xRoot] == rank[yRoot]);
        RelinkJoins(itemOf, r0, a, b, yRoot, xRoot);
      }
      united := true;
    }

    /** Puts representative `child` under representative `top`; `grow`
        (equal ranks) raises top's rank by one. */
    method Attach(child: nat, top: nat, grow: bool)
      requires Valid() && child < |parent| && top < |parent| && child != top
      requires parent[child] == child && parent[top] == top
      requires if grow then rank[child] == rank[top] else rank[child] < rank[top]
      modifies this`parent, this`rank, this`maxRank, this`under
      ensures Valid()
      ensures parent == old(parent)[child := top]
      ensures rank == if grow then old(rank)[top := old(rank)[top] + 1] else old(rank)
      ensures maxRank == if grow && old(rank)[top] + 1 > old(maxRank) then old(maxRank) + 1 else old(maxRank)
      ensures Classes() == Relinked(old(Classes()), child, top)
      ensures NumSets() == old(NumSets()) - 1
    {
      var rk, bound := rank, maxRank;
      if grow {
        rk := rank[top := rank[top] + 1];
        if rk[top] > bound {
          bound := rk[top];
        }
      }
      LinkRanked(parent, rank, maxRank, child, top, grow, rk, bound);
      LinkAll(parent, rank, maxRank, child, top, rk, bound);
      LinkShared(parent, rank, under, child, top, rk);
      parent, rank, maxRank := parent[child := top], rk, bound;
      under := under[top := child];
    }
  }
}

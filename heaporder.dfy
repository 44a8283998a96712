// Heap order and index bookkeeping of the binary heap (BinaryHeap.cs),
// stated on sequences: the occupied slots as a seq<Item> and the items'
// IndexInHeap fields as a map from item id to index.

module HeapOrder {
  const REMOVED_FROM_HEAP: int := -1

  /** A heap item: `id` stands for the object's identity, `key` for what its
      CompareTo compares. */
  datatype Item = Item(id: int, key: int)

  function CompareTo(a: Item, b: Item): int
  {
    if a.key < b.key then -1 else if a.key == b.key then 0 else 1
  }

  predicate Le(a: Item, b: Item) { CompareTo(a, b) <= 0 }

  /** `(i - 1) >> 1`. */
  function Parent(i: int): (r: int)
    ensures i > 0 ==> 0 <= r < i
    ensures i == 0 ==> r == -1
  {
    if i <= 0 then -1 else (i - 1) / 2
  }

  /** `(i << 1) + 1` and `(i << 1) + 2`. */
  function Child1(i: nat): nat { 2 * i + 1 }
  function Child2(i: nat): nat { 2 * i + 2 }

  /** GetFatherIndex agrees with Parent on every slot below the root. */
  function GetFatherIndex(childIndex: int): (r: int)
    ensures childIndex > 0 ==> r == Parent(childIndex)
  {
    if childIndex % 2 == 0 then (childIndex - 2) / 2 else (childIndex - 1) / 2
  }

  /** The children of p are exactly the slots whose parent is p. */
  lemma ChildrenOf(p: nat)
    ensures forall i: int :: (0 < i && Parent(i) == p) <==> (i == Child1(p) || i == Child2(p))
  {
    forall i: int ensures (0 < i && Parent(i) == p) <==> (i == Child1(p) || i == Child2(p)) {
      if 0 < i {
        var q := (i - 1) / 2;
        assert i - 1 == 2 * q + (i - 1) % 2;
      }
    }
  }

  /** The heap order: no item is smaller than its parent. */
  ghost predicate HeapOrdered(s: seq<Item>)
  {
    forall i {:trigger s[Parent(i)]} :: 0 < i < |s| ==> Le(s[Parent(i)], s[i])
  }

  /** During up-heap bubbling: ordered except between p and its parent, and
      p's parent is no larger than p's children. */
  ghost predicate UpInv(s: seq<Item>, p: int)
  {
    (forall i {:trigger s[Parent(i)]} :: 0 < i < |s| && i != p ==> Le(s[Parent(i)], s[i]))
    && (p > 0 ==> forall i :: 0 < i < |s| && Parent(i) == p ==> Le(s[Parent(p)], s[i]))
  }

  /** During down-heap bubbling: ordered except between p and its children,
      and p's parent is no larger than p's children. */
  ghost predicate DownInv(s: seq<Item>, p: int)
  {
    (forall i {:trigger s[Parent(i)]} :: 0 < i < |s| && Parent(i) != p ==> Le(s[Parent(i)], s[i]))
    && (p > 0 ==> forall i :: 0 < i < |s| && Parent(i) == p ==> Le(s[Parent(p)], s[i]))
  }

  /** While Remove(item) shifts ancestors down: ordered except on the edges at
      c, and c's parent is no larger than c's children. */
  ghost predicate ShiftInv(s: seq<Item>, c: int)
  {
    (forall i {:trigger s[Parent(i)]} :: 0 < i < |s| && i != c && Parent(i) != c ==> Le(s[Parent(i)], s[i]))
    && (c > 0 ==> forall i :: 0 < i < |s| && Parent(i) == c ==> Le(s[Parent(c)], s[i]))
  }

  /** The item at the root of a heap is no larger than any other. */
  lemma {:induction false} RootIsMinimum(s: seq<Item>, k: nat)
    requires HeapOrdered(s) && k < |s|
    ensures Le(s[0], s[k])
    decreases k
  {
    if k > 0 {
      RootIsMinimum(s, Parent(k));
    }
  }

  function Swap(s: seq<Item>, i: nat, j: nat): (r: seq<Item>)
    requires i < |s| && j < |s|
    ensures |r| == |s| && r[i] == s[j] && r[j] == s[i]
    ensures forall k :: 0 <= k < |s| && k != i && k != j ==> r[k] == s[k]
    ensures multiset(r) == multiset(s)
  {
    s[i := s[j]][j := s[i]]
  }

  // ----- index bookkeeping -----

  /** No two slots hold items with the same id. */
  ghost predicate DistinctIds(s: seq<Item>)
  {
    forall a, b :: 0 <= a < |s| && 0 <= b < |s| && a != b ==> s[a].id != s[b].id
  }

  /** Every slot's item records that slot. */
  ghost predicate IndexedSeq(s: seq<Item>, m: map<int, int>)
  {
    forall k :: 0 <= k < |s| ==> s[k].id in m && m[s[k].id] == k
  }

  ghost function IdsOf(s: seq<Item>): set<int>
  {
    set k | 0 <= k < |s| :: s[k].id
  }

  /** The index map of the slots: each item's id to its slot. */
  ghost function Positions(s: seq<Item>): map<int, int>
  {
    if |s| == 0 then map[] else Positions(s[..|s| - 1])[s[|s| - 1].id := |s| - 1]
  }

  function Lookup(m: map<int, int>, id: int): int
  {
    if id in m then m[id] else 0
  }

  lemma IndexedIsDistinct(s: seq<Item>, m: map<int, int>)
    requires IndexedSeq(s, m)
    ensures DistinctIds(s)
  {
  }

  /** Positions records each slot of a sequence whose ids are distinct, and
      nothing else. */
  lemma {:induction false} PositionsSpec(s: seq<Item>)
    requires DistinctIds(s)
    ensures Positions(s).Keys == IdsOf(s)
    ensures IndexedSeq(s, Positions(s))
    decreases |s|
  {
    if |s| > 0 {
      var t := s[..|s| - 1];
      assert DistinctIds(t) by {
        forall a, b | 0 <= a < |t| && 0 <= b < |t| && a != b ensures t[a].id != t[b].id {
          assert t[a] == s[a] && t[b] == s[b];
        }
      }
      PositionsSpec(t);
      assert IdsOf(s) == IdsOf(t) + {s[|s| - 1].id} by {
        forall id | id in IdsOf(s) ensures id in IdsOf(t) + {s[|s| - 1].id} {
          var k :| 0 <= k < |s| && s[k].id == id;
          if k < |s| - 1 { assert t[k] == s[k]; }
        }
        forall id | id in IdsOf(t) ensures id in IdsOf(s) {
          var k :| 0 <= k < |t| && t[k].id == id;
          assert s[k] == t[k];
        }
      }
      forall k | 0 <= k < |s| ensures s[k].id in Positions(s) && Positions(s)[s[k].id] == k {
        if k < |s| - 1 {
          assert t[k] == s[k];
        }
      }
    }
  }

  /** An index map that already records every slot is left as it is by
      overriding it with the slots' positions. */
  lemma IndexedOverride(s: seq<Item>, m: map<int, int>)
    requires IndexedSeq(s, m)
    ensures m + Positions(s) == m
  {
    IndexedIsDistinct(s, m);
    PositionsSpec(s);
    forall id | id in Positions(s) ensures Positions(s)[id] == m[id] {
      var k :| 0 <= k < |s| && s[k].id == id;
    }
  }

  /** A permutation has the same ids. */
  lemma PermutationIds(s: seq<Item>, t: seq<Item>)
    requires multiset(s) == multiset(t)
    ensures IdsOf(s) == IdsOf(t)
  {
    forall id | id in IdsOf(s) ensures id in IdsOf(t) {
      var k :| 0 <= k < |s| && s[k].id == id;
      assert s[k] in multiset(t);
      var j :| 0 <= j < |t| && t[j] == s[k];
    }
    forall id | id in IdsOf(t) ensures id in IdsOf(s) {
      var k :| 0 <= k < |t| && t[k].id == id;
      assert t[k] in multiset(s);
      var j :| 0 <= j < |s| && s[j] == t[k];
    }
  }

  /** The position recorded for the id in slot k is k. */
  lemma PositionsAt(s: seq<Item>, k: nat)
    requires DistinctIds(s) && k < |s|
    ensures s[k].id in Positions(s) && Positions(s)[s[k].id] == k
  {
    PositionsSpec(s);
  }

  lemma SwapDistinct(s: seq<Item>, i: nat, j: nat)
    requires i < |s| && j < |s| && DistinctIds(s)
    ensures DistinctIds(Swap(s, i, j))
  {
    var t := Swap(s, i, j);
    forall a, b | 0 <= a < |t| && 0 <= b < |t| && a != b ensures t[a].id != t[b].id {
      var a' := if a == i then j else if a == j then i else a;
      var b' := if b == i then j else if b == j then i else b;
      assert t[a] == s[a'] && t[b] == s[b'];
    }
  }

  /** A map keyed by exactly the ids of the slots, recording each slot, is
      the positions map. */
  lemma PositionsUnique(s: seq<Item>, m: map<int, int>)
    requires DistinctIds(s) && m.Keys == IdsOf(s) && IndexedSeq(s, m)
    ensures m == Positions(s)
  {
    PositionsSpec(s);
    forall id | id in m ensures m[id] == Positions(s)[id] {
      var k :| 0 <= k < |s| && s[k].id == id;
    }
  }

  lemma SwapIds(s: seq<Item>, i: nat, j: nat)
    requires i < |s| && j < |s|
    ensures IdsOf(Swap(s, i, j)) == IdsOf(s)
    ensures s[i].id in IdsOf(s) && s[j].id in IdsOf(s)
  {
    PermutationIds(s, Swap(s, i, j));
  }

  /** The positions with the two exchanged entries record the exchanged
      slots. */
  lemma SwapIndexed(s: seq<Item>, m: map<int, int>, i: nat, j: nat)
    requires i < |s| && j < |s| && IndexedSeq(s, m)
    ensures IndexedSeq(Swap(s, i, j), m[s[j].id := i][s[i].id := j])
  {
    var t := Swap(s, i, j);
    forall k | 0 <= k < |t| ensures t[k].id in m[s[j].id := i][s[i].id := j] && m[s[j].id := i][s[i].id := j][t[k].id] == k {
      if k != i && k != j {
        assert t[k] == s[k];
      }
    }
  }

  lemma SwapKeys(s: seq<Item>, m: map<int, int>, i: nat, j: nat)
    requires i < |s| && j < |s| && m.Keys == IdsOf(s)
    ensures m[s[j].id := i][s[i].id := j].Keys == IdsOf(Swap(s, i, j))
  {
    SwapIds(s, i, j);
  }

  /** Exchanging two slots keeps the ids distinct and exchanges their
      recorded positions. */
  lemma PositionsSwap(s: seq<Item>, i: nat, j: nat)
    requires i < |s| && j < |s| && DistinctIds(s)
    ensures DistinctIds(Swap(s, i, j))
    ensures Positions(Swap(s, i, j)) == Positions(s)[s[j].id := i][s[i].id := j]
  {
    SwapDistinct(s, i, j);
    PositionsSpec(s);
    SwapIndexed(s, Positions(s), i, j);
    SwapKeys(s, Positions(s), i, j);
    PositionsUnique(Swap(s, i, j), Positions(s)[s[j].id := i][s[i].id := j]);
  }

  /** Updating the positions and then overriding is overriding and then
      updating. */
  lemma MergeUpdate(m: map<int, int>, p: map<int, int>, a: int, x: int, b: int, y: int)
    ensures m + p[a := x][b := y] == (m + p)[a := x][b := y]
  {
  }

  /** Overriding an entry that the positions override again changes nothing,
      and neither does overriding the entry that is then set to -1. */
  lemma OverrideShadowed(m: map<int, int>, k: int, a: int, s: seq<Item>, v: int)
    requires DistinctIds(s) && (k in IdsOf(s) || k == v)
    ensures (m[k := a] + Positions(s))[v := REMOVED_FROM_HEAP] == (m + Positions(s))[v := REMOVED_FROM_HEAP]
  {
    PositionsSpec(s);
  }

  lemma OverrideAbsorbed(m: map<int, int>, k: int, a: int, s: seq<Item>)
    requires DistinctIds(s) && k in IdsOf(s)
    ensures m[k := a] + Positions(s) == m + Positions(s)
  {
    PositionsSpec(s);
  }

  // ----- up-heap -----

  lemma UpStart(h: seq<Item>, m: map<int, int>)
    requires |h| > 0 && HeapOrdered(h[..|h| - 1]) && IndexedSeq(h, m)
    ensures UpInv(h, |h| - 1) && DistinctIds(h)
    ensures m == m + Positions(h)
  {
    var n := |h| - 1;
    ChildrenOf(n);
    forall i | 0 < i < |h| && i != n ensures Le(h[Parent(i)], h[i]) {
      assert h[..n][Parent(i)] == h[Parent(i)] && h[..n][i] == h[i];
    }
    IndexedIsDistinct(h, m);
    IndexedOverride(h, m);
  }

  lemma UpLoopStep(h: seq<Item>, m0: map<int, int>, p: nat)
    requires 0 < p < |h| && UpInv(h, p) && DistinctIds(h)
    requires CompareTo(h[p], h[Parent(p)]) < 0
    ensures UpInv(Swap(h, p, Parent(p)), Parent(p)) && DistinctIds(Swap(h, p, Parent(p)))
    ensures m0 + Positions(Swap(h, p, Parent(p)))
         == (m0 + Positions(h))[h[Parent(p)].id := p][h[p].id := Parent(p)]
  {
    UpStep(h, p);
    PositionsSwap(h, p, Parent(p));
    MergeUpdate(m0, Positions(h), h[Parent(p)].id, p, h[p].id, Parent(p));
  }

  lemma UpStep(h: seq<Item>, p: nat)
    requires 0 < p < |h| && UpInv(h, p) && CompareTo(h[p], h[Parent(p)]) < 0
    ensures UpInv(Swap(h, p, Parent(p)), Parent(p))
  {
  }

  lemma UpEnd(h: seq<Item>, m0: map<int, int>, p: nat)
    requires p < |h| && UpInv(h, p) && DistinctIds(h)
    requires p == 0 || CompareTo(h[p], h[Parent(p)]) >= 0
    ensures HeapOrdered(h)
    ensures IndexedSeq(h, m0 + Positions(h))
  {
    PositionsSpec(h);
  }

  // ----- down-heap -----

  lemma DownStart(h: seq<Item>, m: map<int, int>)
    requires IndexedSeq(h, m)
    ensures DistinctIds(h) && m == m + Positions(h)
  {
    IndexedIsDistinct(h, m);
    IndexedOverride(h, m);
  }

  /** n is the child of p that down-heap bubbling picks: the first child
      when it is the only one, else one no larger than the other. */
  ghost predicate SmallestChild(h: seq<Item>, p: nat, n: nat)
  {
    Child1(p) < |h|
    && (Child2(p) < |h| ==> (n == Child1(p) || n == Child2(p)) && Le(h[n], h[Child1(p)]) && Le(h[n], h[Child2(p)]))
    && (Child2(p) >= |h| ==> n == Child1(p))
  }

  lemma SmallestChildOf(h: seq<Item>, p: nat, n: nat)
    requires SmallestChild(h, p, n)
    ensures p < n < |h| && Parent(n) == p
    ensures forall i :: 0 < i < |h| && Parent(i) == p ==> Le(h[n], h[i])
  {
    ChildrenOf(p);
  }

  lemma DownLoopStep(h: seq<Item>, m0: map<int, int>, p: nat, n: nat)
    requires SmallestChild(h, p, n) && DownInv(h, p) && DistinctIds(h)
    requires CompareTo(h[p], h[n]) > 0
    ensures n < |h|
    ensures DownInv(Swap(h, p, n), n) && DistinctIds(Swap(h, p, n))
    ensures m0 + Positions(Swap(h, p, n)) == (m0 + Positions(h))[h[n].id := p][h[p].id := n]
  {
    SmallestChildOf(h, p, n);
    DownStep(h, p, n);
    PositionsSwap(h, p, n);
    MergeUpdate(m0, Positions(h), h[n].id, p, h[p].id, n);
  }

  lemma DownStep(h: seq<Item>, p: nat, c: nat)
    requires p < c < |h| && Parent(c) == p && DownInv(h, p)
    requires forall i :: 0 < i < |h| && Parent(i) == p ==> Le(h[c], h[i])
    requires CompareTo(h[p], h[c]) > 0
    ensures DownInv(Swap(h, p, c), c)
  {
  }

  /** Down-heap bubbling stops at a slot without children... */
  lemma DownEndLeaf(h: seq<Item>, m0: map<int, int>, p: nat)
    requires DownInv(h, p) && DistinctIds(h) && Child1(p) >= |h|
    ensures HeapOrdered(h)
    ensures IndexedSeq(h, m0 + Positions(h))
  {
    ChildrenOf(p);
    PositionsSpec(h);
  }

  /** ... or at one no larger than its smallest child. */
  lemma DownEndStop(h: seq<Item>, m0: map<int, int>, p: nat, n: nat)
    requires DownInv(h, p) && DistinctIds(h) && SmallestChild(h, p, n)
    requires CompareTo(h[p], h[n]) <= 0
    ensures HeapOrdered(h)
    ensures IndexedSeq(h, m0 + Positions(h))
  {
    SmallestChildOf(h, p, n);
    PositionsSpec(h);
  }

  // ----- removal of the root -----

  /** A heap except, possibly, between the root and its children, whose
      slots other than the root record their index. */
  ghost predicate RootRemovable(h: seq<Item>, m: map<int, int>)
  {
    |h| > 0 && DownInv(h, 0) && DistinctIds(h)
    && forall k :: 0 < k < |h| ==> h[k].id in m && m[h[k].id] == k
  }

  lemma ValidRootRemovable(h: seq<Item>, m: map<int, int>)
    requires |h| > 0 && HeapOrdered(h) && IndexedSeq(h, m)
    ensures RootRemovable(h, m)
    ensures forall k :: 0 <= k < |h| ==> Le(h[0], h[k])
  {
    IndexedIsDistinct(h, m);
    forall k | 0 <= k < |h| ensures Le(h[0], h[k]) {
      RootIsMinimum(h, k);
    }
  }

  /** The last item moved to the root: the slots before the last are ready
      for down-heap bubbling. */
  lemma RemoveSetup(b: seq<Item>, m: map<int, int>)
    requires RootRemovable(b, m)
    ensures DownInv(b[0 := b[|b| - 1]][..|b| - 1], 0)
    ensures IndexedSeq(b[0 := b[|b| - 1]][..|b| - 1], m[b[|b| - 1].id := 0])
  {
    var n := |b| - 1;
    var t := b[0 := b[n]][..n];
    forall i | 0 < i < n && Parent(i) != 0 ensures Le(t[Parent(i)], t[i]) {
      assert t[Parent(i)] == b[Parent(i)] && t[i] == b[i];
    }
    forall k | 0 <= k < n ensures t[k].id in m[b[n].id := 0] && m[b[n].id := 0][t[k].id] == k {
      if k > 0 { assert t[k] == b[k]; }
    }
  }

  /** Moving the last item to the root and dropping the last slot removes
      exactly the old root, and only the old root's id. */
  lemma LastToRoot(b: seq<Item>)
    requires |b| >= 1 && DistinctIds(b)
    ensures multiset(b[0 := b[|b| - 1]][..|b| - 1]) == multiset(b) - multiset{b[0]}
    ensures b[0].id !in IdsOf(b[0 := b[|b| - 1]][..|b| - 1])
    ensures |b| > 1 ==> b[|b| - 1].id in IdsOf(b[0 := b[|b| - 1]][..|b| - 1])
  {
    var n := |b| - 1;
    var t := b[0 := b[n]][..n];
    if |b| >= 2 {
      var mid := b[1..n];
      assert b == [b[0]] + mid + [b[n]];
      assert t == [b[n]] + mid;
      assert t[0] == b[n];
    }
    forall k | 0 <= k < n ensures t[k].id != b[0].id {
      if k == 0 { assert t[0] == b[n]; } else { assert t[k] == b[k]; }
    }
  }

  /** After down-heap bubbling of the moved item: the index map is the
      starting one overridden by the new positions, with the old root
      marked removed. */
  lemma RemoveEnd(b: seq<Item>, m: map<int, int>, t: seq<Item>)
    requires RootRemovable(b, m)
    requires multiset(t) == multiset(b[0 := b[|b| - 1]][..|b| - 1]) && DistinctIds(t)
    requires IndexedSeq(t, m[b[|b| - 1].id := 0] + Positions(t))
    ensures multiset(t) == multiset(b) - multiset{b[0]}
    ensures (m[b[|b| - 1].id := 0] + Positions(t))[b[0].id := REMOVED_FROM_HEAP]
         == (m + Positions(t))[b[0].id := REMOVED_FROM_HEAP]
    ensures IndexedSeq(t, (m + Positions(t))[b[0].id := REMOVED_FROM_HEAP])
  {
    var n := |b| - 1;
    LastToRoot(b);
    PermutationIds(t, b[0 := b[n]][..n]);
    OverrideShadowed(m, b[n].id, 0, t, b[0].id);
    PositionsSpec(t);
  }

  // ----- the ancestor shift of Remove(item) -----

  lemma ShiftSetup(h: seq<Item>, m: map<int, int>, c: nat)
    requires c < |h| && HeapOrdered(h) && IndexedSeq(h, m)
    ensures ShiftInv(h, c) && DistinctIds(h)
    ensures m[h[c].id := REMOVED_FROM_HEAP] == (m + Positions(h))[h[c].id := REMOVED_FROM_HEAP]
  {
    IndexedIsDistinct(h, m);
    IndexedOverride(h, m);
  }

  /** One ancestor moves down into c and the removed item x moves up into
      c's parent. */
  lemma ShiftLoopStep(h: seq<Item>, m0: map<int, int>, c: nat, x: Item)
    requires 0 < c < |h| && h[c] == x && ShiftInv(h, c) && DistinctIds(h)
    ensures Swap(h, c, Parent(c))[Parent(c)] == x
    ensures ShiftInv(Swap(h, c, Parent(c)), Parent(c)) && DistinctIds(Swap(h, c, Parent(c)))
    ensures (m0 + Positions(Swap(h, c, Parent(c))))[x.id := REMOVED_FROM_HEAP]
         == (m0 + Positions(h))[x.id := REMOVED_FROM_HEAP][h[Parent(c)].id := c]
  {
    ShiftStep(h, c, x);
    PositionsSwap(h, c, Parent(c));
    assert h[Parent(c)].id != x.id;
    MergeUpdate(m0, Positions(h), h[Parent(c)].id, c, x.id, Parent(c));
    UpdateCommute(m0 + Positions(h), h[Parent(c)].id, c, x.id, Parent(c), REMOVED_FROM_HEAP);
  }

  lemma ShiftStep(h: seq<Item>, c: nat, x: Item)
    requires 0 < c < |h| && h[c] == x && ShiftInv(h, c)
    ensures ShiftInv(Swap(h, c, Parent(c)), Parent(c))
  {
  }

  lemma UpdateCommute(m: map<int, int>, a: int, u: int, b: int, v: int, w: int)
    requires a != b
    ensures m[a := u][b := v][b := w] == m[b := w][a := u]
  {
  }

  /** With the removed item at the root the heap is ready for RemoveRoot. */
  lemma ShiftEnd(h: seq<Item>, m0: map<int, int>)
    requires |h| > 0 && ShiftInv(h, 0) && DistinctIds(h)
    ensures RootRemovable(h, (m0 + Positions(h))[h[0].id := REMOVED_FROM_HEAP])
  {
    PositionsSpec(h);
  }

  /** The index map after the removal: the positions override the starting
      map, and the removed item is marked removed, whatever the entries of
      the intermediate positions were. */
  lemma ShiftRemoveEnd(m0: map<int, int>, h: seq<Item>, t: seq<Item>, x: Item)
    requires |h| > 0 && h[0] == x && DistinctIds(h) && DistinctIds(t)
    requires multiset(t) == multiset(h) - multiset{x}
    ensures ((m0 + Positions(h))[x.id := REMOVED_FROM_HEAP] + Positions(t))[x.id := REMOVED_FROM_HEAP]
         == (m0 + Positions(t))[x.id := REMOVED_FROM_HEAP]
  {
    RemainingIds(h, t, x);
    PositionsSpec(h);
    PositionsSpec(t);
    MergeCovered(m0, Positions(h), Positions(t), x.id, REMOVED_FROM_HEAP);
  }

  /** Every id but the removed item's is still there. */
  lemma RemainingIds(h: seq<Item>, t: seq<Item>, x: Item)
    requires |h| > 0 && h[0] == x && DistinctIds(h)
    requires multiset(t) == multiset(h) - multiset{x}
    ensures IdsOf(h) - {x.id} <= IdsOf(t)
  {
    forall id | id in IdsOf(h) && id != x.id ensures id in IdsOf(t) {
      var k :| 0 <= k < |h| && h[k].id == id;
      assert h[k] != x;
      assert h[k] in multiset(t);
      var j :| 0 <= j < |t| && t[j] == h[k];
    }
  }

  lemma MergeCovered(m0: map<int, int>, ph: map<int, int>, pt: map<int, int>, x: int, w: int)
    requires ph.Keys - {x} <= pt.Keys
    ensures ((m0 + ph)[x := w] + pt)[x := w] == (m0 + pt)[x := w]
  {
  }

  /** The hole moves from c to f: slot c receives f's item, and the slots
      with the removed item written at f are the exchanged slots. */
  lemma ShiftHole(h: seq<Item>, a: seq<Item>, c: nat, f: nat, x: Item)
    requires c < |h| && f < |h| && c != f && |a| == |h| && h == a[c := x]
    ensures a[f] == h[f]
    ensures Swap(h, c, f) == a[c := a[f]][f := x]
  {
  }

  // ----- adding an item -----

  /** The item added at the end of the slots. */
  lemma AddSetup(b: seq<Item>, m: map<int, int>, item: Item)
    requires IndexedSeq(b, m) && forall k :: 0 <= k < |b| ==> b[k].id != item.id
    ensures IndexedSeq(b + [item], m[item.id := |b|])
  {
    var s := b + [item];
    forall k | 0 <= k < |s| ensures s[k].id in m[item.id := |b|] && m[item.id := |b|][s[k].id] == k {
      if k < |b| { assert s[k] == b[k]; }
    }
  }

  /** After up-heap bubbling of the added item: it is among the slots, so its
      entry set before the bubbling is overridden by its position. */
  lemma AddEnd(b: seq<Item>, m: map<int, int>, item: Item, t: seq<Item>)
    requires multiset(t) == multiset(b + [item]) && DistinctIds(t)
    ensures multiset(t) == multiset(b) + multiset{item}
    ensures m[item.id := |b|] + Positions(t) == m + Positions(t)
  {
    PermutationIds(t, b + [item]);
    assert (b + [item])[|b|] == item;
    OverrideAbsorbed(m, item.id, |b|, t);
  }

  /** Ids outside the slots keep the entry of the map that the positions
      override. */
  lemma OverrideOutside(m: map<int, int>, s: seq<Item>, id: int)
    requires DistinctIds(s) && id !in IdsOf(s)
    ensures Lookup(m + Positions(s), id) == Lookup(m, id)
  {
    PositionsSpec(s);
  }

  /** The ids of a multiset of items. */
  ghost function IdsIn(ms: multiset<Item>): set<int>
  {
    set x | x in ms :: x.id
  }

  lemma IdsInAdd(ms: multiset<Item>, x: Item)
    ensures IdsIn(ms + multiset{x}) == IdsIn(ms) + {x.id}
  {
    assert x in ms + multiset{x};
  }

  lemma IdsInSub(ms: multiset<Item>, x: Item)
    ensures IdsIn(ms - multiset{x}) <= IdsIn(ms)
  {
  }

  lemma IdsInUnion(ms: multiset<Item>, q: seq<Item>)
    ensures IdsIn(ms + multiset(q)) == IdsIn(ms) + (set k | 0 <= k < |q| :: q[k].id)
  {
    forall id | id in IdsIn(ms + multiset(q)) ensures id in IdsIn(ms) || exists k :: 0 <= k < |q| && q[k].id == id {
      var x :| x in ms + multiset(q) && x.id == id;
      if x !in ms {
        assert x in q;
        var k :| 0 <= k < |q| && q[k] == x;
      }
    }
    forall k | 0 <= k < |q| ensures q[k].id in IdsIn(ms + multiset(q)) {
      assert q[k] in multiset(q);
    }
  }

  /** An id outside IdsIn(multiset(s)) is on no slot of s. */
  lemma NotInIdsIn(s: seq<Item>, id: int)
    requires id !in IdsIn(multiset(s))
    ensures forall k :: 0 <= k < |s| ==> s[k].id != id
  {
    forall k | 0 <= k < |s| ensures s[k].id != id {
      assert s[k] in multiset(s);
    }
  }
}

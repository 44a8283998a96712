// The binary min-heap of the search open lists (BinaryHeap.cs). Every item
// records its own slot in the heap, or -1 once it has been removed.

module BinaryHeaps {
  import opened Wrappers
  import opened HeapOrder

  const DEFAULT_SIZE: nat := 4

  /** Stands for the null held by a slot that is fresh or was cleared. */
  const VACANT: Item := Item(0, 0)

  /** Capacity *= 2 on a full heap, passed through the Capacity setter: as
      written a heap of capacity 0 stays at capacity 0. */
  function GrowAsWritten(count: nat, capacity: nat): nat
  {
    if 2 * capacity > count then 2 * capacity else count
  }

  /** An empty heap whose capacity was set to 0 is still full after growing,
      so Add writes to slot 0 of an empty array. */
  lemma GrowFromZeroLeavesNoRoom()
    ensures GrowAsWritten(0, 0) == 0
  {
  }

  /** Growth that always makes room: doubling, but at least one slot. */
  function Grow(count: nat, capacity: nat): (r: nat)
    requires count <= capacity
    ensures r > count && r >= 2 * capacity
  {
    if capacity == 0 then 1 else 2 * capacity
  }

  class BinaryHeap {
    /** The backing array, as a sequence of length Capacity; the slots from
        `count` on are not part of the heap. */
    var data: seq<Item>
    var count: nat
    var capacity: nat
    /** The IndexInHeap field of every item this heap has touched, by id. */
    var indexInHeap: map<int, int>

    ghost predicate Valid()
      reads this
    {
      |data| == capacity && count <= capacity
      && HeapOrdered(data[..count])
      && IndexedSeq(data[..count], indexInHeap)
    }

    ghost function Contents(): multiset<Item>
      reads this
      requires count <= |data|
    {
      multiset(data[..count])
    }

    /** getIndexInHeap; an item the heap never touched keeps the default 0. */
    function IndexOf(id: int): int
      reads this
    {
      Lookup(indexInHeap, id)
    }

    /** The item's recorded index is -1 or the slot that holds it. */
    ghost predicate Locates(item: Item)
      reads this
    {
      IndexOf(item.id) == REMOVED_FROM_HEAP
      || (0 <= IndexOf(item.id) < count && IndexOf(item.id) < |data| && data[IndexOf(item.id)] == item)
    }

    constructor()
      ensures Valid()
      ensures count == 0 && capacity == DEFAULT_SIZE && indexInHeap == map[]
    {
      data := seq(DEFAULT_SIZE, _ => VACANT);
      count := 0;
      capacity := DEFAULT_SIZE;
      indexInHeap := map[];
    }

    function Count(): (r: nat)
      reads this
      requires Valid()
      ensures r == |Contents()|
    {
      count
    }

    /** Peek: the smallest stored item, None when the heap is empty. */
    function Peek(): (r: Option<Item>)
      reads this
      requires Valid()
      ensures r.None? <==> count == 0
      ensures r.Some? ==> r.value in Contents() && forall x :: x in Contents() ==> Le(r.value, x)
    {
      if count == 0 then None
      else
        assert forall k :: 0 <= k < count ==> Le(data[0], data[k]) by {
          forall k | 0 <= k < count ensures Le(data[0], data[k]) {
            RootIsMinimum(data[..count], k);
          }
        }
        Some(data[0])
    }

    /** The Capacity setter: never below Count, keeps the stored items. */
    method SetCapacity(value: int)
      requires Valid()
      modifies this
      ensures Valid()
      ensures capacity == if value > old(count) then value else old(count)
      ensures count == old(count) && data[..count] == old(data[..count])
      ensures indexInHeap == old(indexInHeap)
      ensures capacity == old(capacity) ==> data == old(data)
      ensures capacity != old(capacity) ==> forall k :: count <= k < capacity ==> data[k] == VACANT
    {
      var previousCapacity := capacity;
      capacity := if value > count then value else count;
      if capacity != previousCapacity {
        data := data[..count] + seq(capacity - count, _ => VACANT);
      }
    }

    method Clear()
      requires Valid()
      modifies this
      ensures Valid() && forall k :: 0 <= k < capacity ==> data[k] == VACANT
      ensures count == 0 && capacity == old(capacity) && indexInHeap == old(indexInHeap)
    {
      count := 0;
      data := seq(capacity, _ => VACANT);
    }

    /** Up-heap bubbling of the item in slot `count`. The loop works on the
        occupied slots `a` and the index map `idx` and stores both back at
        the end; the source moves a hole upward and writes the item once,
        while swapping the item along gives the same slots and indices. */
    method UpHeap()
      requires count < |data|
      requires HeapOrdered(data[..count]) && IndexedSeq(data[..count + 1], indexInHeap)
      modifies this`data, this`indexInHeap
      ensures |data| == old(|data|) && data[count + 1..] == old(data[count + 1..])
      ensures multiset(data[..count + 1]) == multiset(old(data[..count + 1]))
      ensures HeapOrdered(data[..count + 1])
      ensures IndexedSeq(data[..count + 1], indexInHeap)
      ensures indexInHeap == old(indexInHeap) + Positions(data[..count + 1])
    {
      var a, idx := data[..count + 1], indexInHeap;
      ghost var a0 := a;
      assert a[..count] == data[..count];
      UpStart(a, idx);
      var p := count;
      var par := Parent(p);
      while par > -1 && CompareTo(a[p], a[par]) < 0
        invariant data == old(data) && 0 <= p <= count && par == Parent(p) && |a| == count + 1
        invariant UpInv(a, p) && DistinctIds(a) && multiset(a) == multiset(a0)
        invariant idx == old(indexInHeap) + Positions(a)
        decreases p
      {
        UpLoopStep(a, old(indexInHeap), p);
        idx := idx[a[par].id := p][a[p].id := par];
        a := Swap(a, p, par);
        p := par;
        par := Parent(p);
      }
      UpEnd(a, old(indexInHeap), p);
      ghost var tail := data[count + 1..];
      data := a + data[count + 1..];
      indexInHeap := idx;
      assert data[..count + 1] == a && data[count + 1..] == tail;
    }

    /** Down-heap bubbling of the item at the root, on the occupied slots
        `a` and the index map `idx` as in UpHeap. */
    method DownHeap()
      requires count <= |data|
      requires DownInv(data[..count], 0) && IndexedSeq(data[..count], indexInHeap)
      modifies this`data, this`indexInHeap
      ensures |data| == old(|data|) && data[count..] == old(data[count..])
      ensures multiset(data[..count]) == multiset(old(data[..count]))
      ensures HeapOrdered(data[..count])
      ensures IndexedSeq(data[..count], indexInHeap)
      ensures indexInHeap == old(indexInHeap) + Positions(data[..count])
    {
      var a, idx := data[..count], indexInHeap;
      ghost var a0 := a;
      DownStart(a, idx);
      var p := 0;
      while true
        invariant data == old(data) && (p == 0 || p < count)
        invariant |a| == count && DownInv(a, p) && DistinctIds(a) && multiset(a) == multiset(a0)
        invariant idx == old(indexInHeap) + Positions(a)
        decreases count - p
      {
        var ch1 := Child1(p);
        if ch1 >= count {
          DownEndLeaf(a, old(indexInHeap), p);
          break;
        }
        var ch2 := Child2(p);
        var n;
        if ch2 >= count {
          n := ch1;
        } else {
          n := if CompareTo(a[ch1], a[ch2]) < 0 then ch1 else ch2;
        }
        assert SmallestChild(a, p, n);
        if CompareTo(a[p], a[n]) > 0 {
          DownLoopStep(a, old(indexInHeap), p, n);
          idx := idx[a[n].id := p][a[p].id := n];
          a := Swap(a, p, n);
          p := n;
        } else {
          DownEndStop(a, old(indexInHeap), p, n);
          break;
        }
      }
      ghost var tail := data[count..];
      data := a + data[count..];
      indexInHeap := idx;
      assert data[..count] == a && data[count..] == tail;
    }

    /** Takes out the root when the slots are a heap except, possibly,
        between the root and its children; the last item moves to the root,
        its old slot is cleared, and it sinks. */
    method RemoveRoot() returns (v: Item)
      requires |data| == capacity && 0 < count <= capacity
      requires RootRemovable(data[..count], indexInHeap)
      modifies this`data, this`count, this`indexInHeap
      ensures Valid()
      ensures v == old(data[0]) && count == old(count) - 1 && data[count] == VACANT
      ensures Contents() == old(Contents()) - multiset{v}
      ensures indexInHeap == (old(indexInHeap) + Positions(data[..count]))[v.id := REMOVED_FROM_HEAP]
    {
      ghost var b, mb := data[..count], indexInHeap;
      v := data[0];
      count := count - 1;
      data := data[0 := data[count]];
      indexInHeap := indexInHeap[data[0].id := 0];
      data := data[count := VACANT];
      assert data[..count] == b[0 := b[count]][..count];
      RemoveSetup(b, mb);
      ghost var sunk := data;
      assert |sunk| == capacity && sunk[count..][0] == VACANT;
      DownHeap();
      assert data[count] == data[count..][0] == VACANT;
      ghost var t := data[..count];
      IndexedIsDistinct(t, indexInHeap);
      RemoveEnd(b, mb, t);
      indexInHeap := indexInHeap[v.id := REMOVED_FROM_HEAP];
      assert HeapOrdered(t) && IndexedSeq(t, indexInHeap) && |data| == capacity;
    }

    /** Remove(): the smallest item, or InvalidOperation on an empty heap. */
    method Remove() returns (r: Result<Item>)
      requires Valid()
      modifies this`data, this`count, this`indexInHeap
      ensures Valid()
      ensures old(count) == 0 <==> r.Err?
      ensures r.Err? ==> r.error == InvalidOperation && count == 0 && data == old(data) && indexInHeap == old(indexInHeap)
      ensures r.Ok? ==> r.value == old(data[0]) && count == old(count) - 1
      ensures r.Ok? ==> forall x :: x in old(Contents()) ==> Le(r.value, x)
      ensures r.Ok? ==> Contents() == old(Contents()) - multiset{r.value}
      ensures r.Ok? ==> indexInHeap == (old(indexInHeap) + Positions(data[..count]))[r.value.id := REMOVED_FROM_HEAP]
    {
      if count == 0 {
        return Err(InvalidOperation);
      }
      ValidRootRemovable(data[..count], indexInHeap);
      var v := RemoveRoot();
      r := Ok(v);
    }

    /** Add: grows a full array, stores the item in the next slot and lets it
        rise. The item must not be in the heap already. */
    method Add(item: Item)
      requires Valid()
      requires item.id !in IdsIn(Contents())
      modifies this
      ensures Valid()
      ensures count == old(count) + 1
      ensures Contents() == old(Contents()) + multiset{item}
      ensures indexInHeap == old(indexInHeap) + Positions(data[..count])
      ensures old(count) < old(capacity) ==> capacity == old(capacity)
      ensures old(count) == old(capacity) ==> capacity == Grow(old(count), old(capacity))
    {
      if count == capacity {
        SetCapacity(Grow(count, capacity));
      }
      Append(item);
    }

    /** The part of Add after growing: the item goes into slot `count`, rises,
        and the count goes up. */
    method Append(item: Item)
      requires Valid() && count < capacity
      requires item.id !in IdsIn(Contents())
      modifies this`data, this`count, this`indexInHeap
      ensures Valid()
      ensures count == old(count) + 1
      ensures Contents() == old(Contents()) + multiset{item}
      ensures indexInHeap == old(indexInHeap) + Positions(data[..count])
    {
      NotInIdsIn(data[..count], item.id);
      ghost var b, mb := data[..count], indexInHeap;
      data := data[count := item];
      indexInHeap := indexInHeap[item.id := count];
      assert data[..count + 1] == b + [item] && data[..count] == b;
      AddSetup(b, mb, item);
      UpHeap();
      ghost var t := data[..count + 1];
      IndexedIsDistinct(t, indexInHeap);
      AddEnd(b, mb, item, t);
      count := count + 1;
      assert data[..count] == t;
    }

    /** The ancestor shift of Remove(item): every ancestor of slot c moves
        one level down and the item in slot c, being removed, ends up at the
        root. The loop works on the occupied slots `a` and the index map
        `idx`; `h` is `a` with the removed item written where the hole is. */
    method ShiftToRoot(c: nat, ghost m0: map<int, int>)
      requires 0 < c < count <= |data|
      requires HeapOrdered(data[..count]) && IndexedSeq(data[..count], m0)
      requires indexInHeap == m0[data[c].id := REMOVED_FROM_HEAP]
      modifies this`data, this`indexInHeap
      ensures |data| == old(|data|) && data[count..] == old(data[count..])
      ensures data[0] == old(data[c])
      ensures multiset(data[..count]) == multiset(old(data[..count]))
      ensures RootRemovable(data[..count], indexInHeap)
      ensures indexInHeap == (m0 + Positions(data[..count]))[old(data[c]).id := REMOVED_FROM_HEAP]
    {
      var a, idx := data[..count], indexInHeap;
      ghost var h0 := a;
      var child := c;
      var father := GetFatherIndex(child);
      var toRemove := a[child];
      ShiftSetup(a, m0, c);
      ghost var h := a;
      while child != 0
        invariant data == old(data) && 0 <= child < count && |a| == count && |h| == count
        invariant h == a[child := toRemove]
        invariant ShiftInv(h, child) && DistinctIds(h) && multiset(h) == multiset(h0)
        invariant idx == (m0 + Positions(h))[toRemove.id := REMOVED_FROM_HEAP]
        invariant child > 0 ==> father == Parent(child)
        decreases child
      {
        ShiftLoopStep(h, m0, child, toRemove);
        ShiftHole(h, a, child, father, toRemove);
        a := a[child := a[father]];
        idx := idx[a[child].id := child];
        h := Swap(h, child, father);
        child := father;
        father := GetFatherIndex(child);
      }
      a := a[0 := toRemove];
      ShiftEnd(a, m0);
      ghost var tail := data[count..];
      data := a + data[count..];
      indexInHeap := idx;
      assert data[..count] == a && data[count..] == tail;
    }

    /** SetIndexInHeap on an item that is not in the heap, as the open list
        does for the items it keeps outside the heap. */
    method SetIndexInHeap(id: int, index: int)
      requires Valid()
      requires id !in IdsIn(Contents())
      modifies this`indexInHeap
      ensures Valid() && indexInHeap == old(indexInHeap)[id := index]
      ensures forall other :: other != id ==> IndexOf(other) == old(IndexOf(other))
    {
      NotInIdsIn(data[..count], id);
      indexInHeap := indexInHeap[id := index];
    }

    /** Remove(item): false for None and for an item whose index is -1;
        otherwise the item's ancestors shift down one level, the item goes to
        the root and the root is removed. */
    method RemoveItem(item: Option<Item>) returns (removed: bool)
      requires Valid()
      requires item.Some? ==> Locates(item.value)
      modifies this`data, this`count, this`indexInHeap
      ensures Valid()
      ensures removed <==> item.Some? && old(IndexOf(item.value.id)) != REMOVED_FROM_HEAP
      ensures !removed ==> count == old(count) && data == old(data) && indexInHeap == old(indexInHeap)
      ensures removed ==> count == old(count) - 1 && Contents() == old(Contents()) - multiset{item.value}
      ensures removed ==> indexInHeap == (old(indexInHeap) + Positions(data[..count]))[item.value.id := REMOVED_FROM_HEAP]
    {
      if item.None? {
        return false;
      }
      var c := IndexOf(item.value.id);
      if c == REMOVED_FROM_HEAP {
        return false;
      }
      ghost var h0, m0 := data[..count], indexInHeap;
      indexInHeap := indexInHeap[data[c].id := REMOVED_FROM_HEAP];
      if c == 0 {
        ShiftSetup(h0, m0, 0);
        ShiftEnd(h0, m0);
        var v := RemoveRoot();
        IndexedIsDistinct(data[..count], indexInHeap);
        ShiftRemoveEnd(m0, h0, data[..count], v);
        return true;
      }
      ShiftToRoot(c, m0);
      ghost var h1 := data[..count];
      var v := RemoveRoot();
      IndexedIsDistinct(data[..count], indexInHeap);
      ShiftRemoveEnd(m0, h1, data[..count], v);
      return true;
    }
  }
}

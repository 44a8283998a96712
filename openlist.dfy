// OpenList.cs: a binary heap plus a FIFO fast lane. Items that are smaller
// than everything in the heap and tie with each other wait in the queue,
// where adding and removing them costs O(1).

module OpenLists {
  import opened Wrappers
  import opened HeapOrder
  import opened BinaryHeaps

  /** The queue with `x` taken out and every other item kept in its order. */
  function Without(q: seq<Item>, x: Item): (r: seq<Item>)
    ensures |r| <= |q|
    ensures forall y :: y in r <==> y in q && y != x
  {
    if |q| == 0 then []
    else if q[0] == x then Without(q[1..], x)
    else [q[0]] + Without(q[1..], x)
  }

  lemma {:induction false} WithoutSnoc(p: seq<Item>, y: Item, x: Item)
    ensures Without(p + [y], x) == Without(p, x) + (if y == x then [] else [y])
  {
    if |p| == 0 {
      assert p + [y] == [y];
    } else {
      assert (p + [y])[1..] == p[1..] + [y];
      WithoutSnoc(p[1..], y, x);
    }
  }

  lemma {:induction false} WithoutAbsent(q: seq<Item>, x: Item)
    requires x !in q
    ensures Without(q, x) == q
  {
    if |q| > 0 {
      WithoutAbsent(q[1..], x);
    }
  }

  /** Taking out an item that occurs once leaves the items before it and
      the items after it, in their order. */
  lemma {:induction false} WithoutSplice(p: seq<Item>, x: Item, r: seq<Item>)
    requires x !in p && x !in r
    ensures Without(p + [x] + r, x) == p + r
  {
    if |p| == 0 {
      assert p + [x] + r == [x] + r;
      assert ([x] + r)[1..] == r;
      WithoutAbsent(r, x);
    } else {
      assert (p + [x] + r)[1..] == p[1..] + [x] + r;
      WithoutSplice(p[1..], x, r);
      assert p == [p[0]] + p[1..];
    }
  }

  /** With distinct ids, taking out a queued item removes exactly one copy. */
  lemma WithoutOnce(q: seq<Item>, x: Item)
    requires DistinctIds(q) && x in q
    ensures multiset(Without(q, x)) == multiset(q) - multiset{x}
  {
    var k :| 0 <= k < |q| && q[k] == x;
    var p, r := q[..k], q[k + 1..];
    assert q == p + [x] + r;
    assert x !in p by {
      forall j | 0 <= j < |p| ensures p[j] != x {
        assert q[j] == p[j] && q[j].id != q[k].id;
      }
    }
    assert x !in r by {
      forall j | 0 <= j < |r| ensures r[j] != x {
        assert q[k + 1 + j] == r[j] && q[k + 1 + j].id != q[k].id;
      }
    }
    WithoutSplice(p, x, r);
    calc {
      multiset(q) - multiset{x};
      multiset(p) + multiset{x} + multiset(r) - multiset{x};
      multiset(p) + multiset(r);
      multiset(p + r);
    }
  }

  /** The queue loop of Remove(item) as written: it runs while `i` is below
      the current queue length, which shrinks once the item is dequeued. */
  function QueueRemoveAsWritten(q: seq<Item>, x: Item, i: nat): seq<Item>
    decreases |q| - i
  {
    if i < |q| then
      if q[0] == x then QueueRemoveAsWritten(q[1..], x, i + 1)
      else QueueRemoveAsWritten(q[1..] + [q[0]], x, i + 1)
    else q
  }

  /** Removing the front of a three-item queue leaves the other two
      swapped, so the loop as written does not keep the queue's order. */
  lemma QueueRemoveAsWrittenReorders()
    ensures QueueRemoveAsWritten([Item(1, 0), Item(2, 0), Item(3, 0)], Item(1, 0), 0)
         == [Item(3, 0), Item(2, 0)]
    ensures Without([Item(1, 0), Item(2, 0), Item(3, 0)], Item(1, 0)) == [Item(2, 0), Item(3, 0)]
  {
    var a, b, c := Item(1, 0), Item(2, 0), Item(3, 0);
    assert [a, b, c][1..] == [b, c];
    assert [b, c][1..] + [b] == [c, b];
    assert [b, c][1..] == [c];
    assert [c][1..] == [];
  }

  /** The queued items have distinct ids, none of which is in the heap;
      they tie with each other and are all smaller than every heap item. */
  ghost predicate LaneInv(q: seq<Item>, h: multiset<Item>)
  {
    DistinctIds(q)
    && (forall k :: 0 <= k < |q| ==> q[k].id !in IdsIn(h))
    && (forall k :: 0 <= k < |q| ==> q[k].key == q[0].key)
    && (forall k, x :: 0 <= k < |q| && x in h ==> q[k].key < x.key)
  }

  lemma LaneTail(q: seq<Item>, h: multiset<Item>)
    requires LaneInv(q, h) && q != []
    ensures LaneInv(q[1..], h)
  {
    assert forall a :: 0 <= a < |q| - 1 ==> q[1..][a] == q[a + 1];
  }

  lemma LaneEmpty(h: multiset<Item>)
    ensures LaneInv([], h)
  {
  }

  /** A tie with the queue's front joins the back. */
  lemma LaneSnoc(q: seq<Item>, h: multiset<Item>, item: Item)
    requires LaneInv(q, h) && q != [] && item.key == q[0].key
    requires item.id !in IdsIn(h) && forall k :: 0 <= k < |q| ==> q[k].id != item.id
    requires forall x :: x in h ==> item.key < x.key
    ensures LaneInv(q + [item], h)
  {
    assert forall a :: 0 <= a < |q| ==> (q + [item])[a] == q[a];
  }

  lemma LaneSingle(h: multiset<Item>, item: Item)
    requires item.id !in IdsIn(h) && forall x :: x in h ==> item.key < x.key
    ensures LaneInv([item], h)
  {
  }

  /** An item above the queue may join the heap. */
  lemma LaneHeapAdd(q: seq<Item>, h: multiset<Item>, item: Item)
    requires LaneInv(q, h)
    requires forall k :: 0 <= k < |q| ==> q[k].id != item.id && q[k].key < item.key
    ensures LaneInv(q, h + multiset{item})
  {
    IdsInAdd(h, item);
  }

  /** Taking items out of the heap keeps the queue below it. */
  lemma LaneHeapSub(q: seq<Item>, h: multiset<Item>, x: Item)
    requires LaneInv(q, h)
    ensures LaneInv(q, h - multiset{x})
  {
    IdsInSub(h, x);
  }

  /** What the flush loop keeps: the rest of the queue has distinct ids
      outside the heap and lies above `item`, as does the heap, which does
      not hold `item`'s id either. */
  ghost predicate FlushInv(q: seq<Item>, h: multiset<Item>, item: Item)
  {
    DistinctIds(q)
    && (forall k :: 0 <= k < |q| ==> q[k].id !in IdsIn(h) && q[k].id != item.id && item.key < q[k].key)
    && item.id !in IdsIn(h)
    && (forall x :: x in h ==> item.key < x.key)
  }

  lemma FlushStart(q: seq<Item>, h: multiset<Item>, item: Item)
    requires LaneInv(q, h) && q != [] && item.key < q[0].key
    requires item.id !in IdsIn(h) && forall k :: 0 <= k < |q| ==> q[k].id != item.id
    ensures FlushInv(q, h, item)
  {
  }

  lemma FlushStep(q: seq<Item>, h: multiset<Item>, item: Item)
    requires FlushInv(q, h, item) && q != []
    ensures FlushInv(q[1..], h + multiset{q[0]}, item)
    ensures q[0].id !in IdsIn(h)
    ensures multiset(q) == multiset{q[0]} + multiset(q[1..])
  {
    assert q == [q[0]] + q[1..];
    IdsInAdd(h, q[0]);
    assert forall a :: 0 <= a < |q| - 1 ==> q[1..][a] == q[a + 1];
  }

  /** Taking an item out of the queue keeps the lane invariant. */
  lemma {:induction false} LaneWithout(q: seq<Item>, h: multiset<Item>, x: Item)
    requires LaneInv(q, h)
    ensures LaneInv(Without(q, x), h)
    ensures forall y :: y in Without(q, x) ==> y.key == q[0].key
  {
    if |q| > 0 {
      LaneTail(q, h);
      LaneWithout(q[1..], h, x);
      var w := Without(q[1..], x);
      if q[0] != x {
        forall y | y in w ensures y.id != q[0].id && y.key == q[0].key {
          var j :| 0 <= j < |q| - 1 && q[1..][j] == y;
          assert q[j + 1] == y;
        }
        LaneCons(q[0], w, h);
      }
    }
  }

  /** An item with the lane's key and a fresh id may go in front. */
  lemma LaneCons(y: Item, w: seq<Item>, h: multiset<Item>)
    requires LaneInv(w, h)
    requires y.id !in IdsIn(h) && forall x :: x in h ==> y.key < x.key
    requires forall z :: z in w ==> z.id != y.id && z.key == y.key
    ensures LaneInv([y] + w, h)
  {
    var r := [y] + w;
    assert forall a :: 0 < a < |r| ==> r[a] == w[a - 1];
    assert forall a :: 0 <= a < |w| ==> w[a] in w;
  }

  /** One turn of the queue loop of Remove(item), on queue `q0[i..]`
      followed by what was kept of `q0[..i]`. */
  lemma QueueTurn(q0: seq<Item>, i: nat, x: Item)
    requires i < |q0|
    ensures (q0[i..] + Without(q0[..i], x))[0] == q0[i]
    ensures (q0[i..] + Without(q0[..i], x))[1..] == q0[i + 1..] + Without(q0[..i], x)
    ensures Without(q0[..i + 1], x) == Without(q0[..i], x) + (if q0[i] == x then [] else [q0[i]])
    ensures x in q0[..i + 1] <==> x in q0[..i] || q0[i] == x
  {
    assert q0[..i + 1] == q0[..i] + [q0[i]];
    WithoutSnoc(q0[..i], q0[i], x);
    assert q0[i..] == [q0[i]] + q0[i + 1..];
  }

  /** The dequeue/enqueue loop of Remove(item), run for the queue's length
      at the start: every item but `x` goes round to the back. */
  method TurnQueue(q0: seq<Item>, x: Item) returns (q: seq<Item>, found: bool)
    ensures q == Without(q0, x)
    ensures found <==> x in q0
  {
    q := q0;
    var n := |q|;
    var i := 0;
    found := false;
    while i < n
      invariant 0 <= i <= n == |q0|
      invariant q == q0[i..] + Without(q0[..i], x)
      invariant found <==> x in q0[..i]
    {
      QueueTurn(q0, i, x);
      var temp := q[0];
      q := q[1..];
      if temp == x {
        found := true;
      } else {
        q := q + [temp];
      }
      i := i + 1;
    }
    assert q0[..n] == q0 && q0[n..] == [];
  }

  lemma TakeFromQueue(h: multiset<Item>, m: multiset<Item>, x: Item)
    requires x in m
    ensures h + (m - multiset{x}) == (h + m) - multiset{x}
    ensures x in h + m
  {
  }

  class OpenList {
    var queue: seq<Item>
    const heap: BinaryHeap

    /** The heap is valid and the queue keeps the lane invariant against
        the heap's items. */
    ghost predicate Valid()
      reads this, heap
    {
      heap.Valid() && LaneInv(queue, heap.Contents())
    }

    ghost function Items(): multiset<Item>
      reads this, heap
      requires Valid()
    {
      heap.Contents() + multiset(queue)
    }

    constructor()
      ensures Valid() && fresh(heap)
      ensures queue == [] && Items() == multiset{}
    {
      heap := new BinaryHeap();
      queue := [];
    }

    function Count(): (r: nat)
      reads this, heap
      requires Valid()
      ensures r == |Items()|
    {
      heap.Count() + |queue|
    }

    /** The front of the queue when there is one, the heap's top otherwise. */
    function Peek(): (r: Option<Item>)
      reads this, heap
      requires Valid()
      ensures r.None? <==> |Items()| == 0
      ensures r.Some? ==> r.value in Items() && forall x :: x in Items() ==> Le(r.value, x)
      ensures queue != [] ==> r == Some(queue[0])
    {
      if |queue| != 0 then
        assert forall x :: x in multiset(queue) ==> Le(queue[0], x) by {
          forall x | x in multiset(queue) ensures Le(queue[0], x) {
            assert x in queue;
          }
        }
        assert queue[0] in multiset(queue);
        Some(queue[0])
      else
        heap.Peek()
    }

    method Clear()
      requires Valid()
      modifies this, heap
      ensures Valid() && Items() == multiset{} && queue == []
    {
      queue := [];
      heap.Clear();
    }

    /** Add: into the heap unless the item is smaller than the heap's top
        (or ties with the queue), in which case it joins the queue; an item
        smaller than the queue's front first sends the whole queue into the
        heap. */
    method Add(item: Item)
      requires Valid()
      requires item.id !in IdsIn(heap.Contents())
      requires forall k :: 0 <= k < |queue| ==> queue[k].id != item.id
      modifies this, heap
      ensures Valid()
      ensures Items() == old(Items()) + multiset{item}
      ensures old(queue) == [] && old(heap.count) > 0 && (forall x :: x in old(heap.Contents()) ==> item.key < x.key)
        ==> queue == [item] && heap.Contents() == old(heap.Contents())
      ensures old(queue) == [] && !(old(heap.count) > 0 && forall x :: x in old(heap.Contents()) ==> item.key < x.key)
        ==> queue == [] && heap.Contents() == old(heap.Contents()) + multiset{item}
      ensures old(queue) != [] && item.key > old(queue[0].key)
        ==> queue == old(queue) && heap.Contents() == old(heap.Contents()) + multiset{item}
      ensures old(queue) != [] && item.key == old(queue[0].key)
        ==> queue == old(queue) + [item] && heap.Contents() == old(heap.Contents())
      ensures old(queue) != [] && item.key < old(queue[0].key)
        ==> queue == [item] && heap.Contents() == old(heap.Contents()) + multiset(old(queue))
    {
      if |queue| == 0 {
        AddBesideEmptyQueue(item);
      } else {
        AddBesideQueue(item);
      }
    }

    /** Add with an empty queue: the item goes into the heap unless it is
        below the heap's top. */
    method AddBesideEmptyQueue(item: Item)
      requires Valid() && queue == []
      requires item.id !in IdsIn(heap.Contents())
      modifies this, heap
      ensures Valid()
      ensures Items() == old(Items()) + multiset{item}
      ensures old(heap.count) > 0 && (forall x :: x in old(heap.Contents()) ==> item.key < x.key)
        ==> queue == [item] && heap.Contents() == old(heap.Contents())
      ensures !(old(heap.count) > 0 && forall x :: x in old(heap.Contents()) ==> item.key < x.key)
        ==> queue == [] && heap.Contents() == old(heap.Contents()) + multiset{item}
    {
      if heap.Count() == 0 {
        HeapAdd(item);
      } else {
        var top := heap.Peek();
        if CompareTo(item, top.value) != -1 {
          HeapAdd(item);
        } else {
          LaneSingle(heap.Contents(), item);
          queue := [item];
        }
      }
    }

    /** Add with a non-empty queue: above the queue's front into the heap,
        a tie to the back of the queue, below it flush and start a new
        queue. */
    method AddBesideQueue(item: Item)
      requires Valid() && queue != []
      requires item.id !in IdsIn(heap.Contents())
      requires forall k :: 0 <= k < |queue| ==> queue[k].id != item.id
      modifies this, heap
      ensures Valid()
      ensures Items() == old(Items()) + multiset{item}
      ensures item.key > old(queue[0].key)
        ==> queue == old(queue) && heap.Contents() == old(heap.Contents()) + multiset{item}
      ensures item.key == old(queue[0].key)
        ==> queue == old(queue) + [item] && heap.Contents() == old(heap.Contents())
      ensures item.key < old(queue[0].key)
        ==> queue == [item] && heap.Contents() == old(heap.Contents()) + multiset(old(queue))
    {
      var compareRes := CompareTo(item, queue[0]);
      if compareRes == 1 {
        HeapAdd(item);
      } else if compareRes == -1 {
        Flush(item);
      } else {
        Enqueue(item);
      }
    }

    /** A tie with the queue's front joins the back of the queue. */
    method Enqueue(item: Item)
      requires Valid() && queue != [] && item.key == queue[0].key
      requires item.id !in IdsIn(heap.Contents())
      requires forall k :: 0 <= k < |queue| ==> queue[k].id != item.id
      modifies this`queue
      ensures Valid() && queue == old(queue) + [item]
      ensures Items() == old(Items()) + multiset{item}
    {
      LaneSnoc(queue, heap.Contents(), item);
      queue := queue + [item];
    }

    /** heap.Add of an item that is not below the queue. */
    method HeapAdd(item: Item)
      requires Valid()
      requires item.id !in IdsIn(heap.Contents())
      requires forall k :: 0 <= k < |queue| ==> queue[k].id != item.id && queue[k].key < item.key
      modifies heap
      ensures Valid()
      ensures heap.Contents() == old(heap.Contents()) + multiset{item}
      ensures Items() == old(Items()) + multiset{item}
    {
      LaneHeapAdd(queue, heap.Contents(), item);
      heap.Add(item);
    }

    /** The flush loop: the queue, front first, goes into the heap, and
        `item` becomes the queue. The loop dequeues from a local copy. */
    method Flush(item: Item)
      requires Valid() && queue != [] && item.key < queue[0].key
      requires item.id !in IdsIn(heap.Contents())
      requires forall k :: 0 <= k < |queue| ==> queue[k].id != item.id
      modifies this, heap
      ensures Valid() && queue == [item]
      ensures heap.Contents() == old(heap.Contents()) + multiset(old(queue))
      ensures Items() == old(Items()) + multiset{item}
    {
      var q := queue;
      ghost var q0, h0 := queue, heap.Contents();
      FlushStart(q, h0, item);
      while |q| != 0
        modifies heap
        invariant heap.Valid() && heap.Contents() + multiset(q) == h0 + multiset(q0)
        invariant FlushInv(q, heap.Contents(), item)
        decreases |q|
      {
        var fromQueue := q[0];
        FlushStep(q, heap.Contents(), item);
        q := q[1..];
        heap.Add(fromQueue);
      }
      LaneSingle(heap.Contents(), item);
      queue := [item];
    }

    /** Remove(): the queue's front when there is one, marked as not in the
        heap; otherwise heap.Remove(), which fails on an empty heap. */
    method Remove() returns (r: Result<Item>)
      requires Valid()
      modifies this, heap
      ensures Valid()
      ensures r.Err? <==> old(|Items()|) == 0
      ensures r.Err? ==> r.error == InvalidOperation && Items() == old(Items())
      ensures r.Ok? ==> r.value in old(Items()) && forall x :: x in old(Items()) ==> Le(r.value, x)
      ensures r.Ok? ==> Items() == old(Items()) - multiset{r.value}
      ensures r.Ok? ==> heap.IndexOf(r.value.id) == REMOVED_FROM_HEAP
      ensures old(queue) != [] ==> r == Ok(old(queue[0])) && queue == old(queue[1..])
    {
      if |queue| != 0 {
        ghost var p := Peek();
        var item := Dequeue();
        r := Ok(item);
      } else {
        r := heap.Remove();
        LaneEmpty(heap.Contents());
      }
    }

    /** The queue branch of Remove(). */
    method Dequeue() returns (item: Item)
      requires Valid() && queue != []
      modifies this`queue, heap`indexInHeap
      ensures Valid()
      ensures item == old(queue[0]) && queue == old(queue[1..])
      ensures Items() == old(Items()) - multiset{item}
      ensures heap.IndexOf(item.id) == REMOVED_FROM_HEAP
    {
      item := queue[0];
      LaneTail(queue, heap.Contents());
      queue := queue[1..];
      heap.SetIndexInHeap(item.id, REMOVED_FROM_HEAP);
      assert old(queue) == [item] + queue;
    }

    /** Remove(item): false when the item's index is -1; otherwise the
        item is taken out of the queue, keeping the order of the others,
        or failing that out of the heap. */
    method RemoveItem(item: Item) returns (removed: bool)
      requires Valid()
      requires item !in queue ==> heap.Locates(item)
      modifies this, heap
      ensures Valid()
      ensures removed <==> old(heap.IndexOf(item.id)) != REMOVED_FROM_HEAP && item in old(Items())
      ensures !removed ==> queue == old(queue) && heap.Contents() == old(heap.Contents()) && heap.indexInHeap == old(heap.indexInHeap)
      ensures removed ==> Items() == old(Items()) - multiset{item} && heap.IndexOf(item.id) == REMOVED_FROM_HEAP
      ensures removed ==> queue == Without(old(queue), item)
      ensures removed && item in old(queue) ==> heap.Contents() == old(heap.Contents())
    {
      if heap.IndexOf(item.id) == REMOVED_FROM_HEAP {
        return false;
      }
      var found := RemoveFromQueue(item);
      if found {
        return true;
      }
      removed := RemoveFromHeap(item);
    }

    /** heap.Remove(item) for an item the queue does not hold. */
    method RemoveFromHeap(item: Item) returns (removed: bool)
      requires Valid() && item !in queue
      requires heap.Locates(item) && heap.IndexOf(item.id) != REMOVED_FROM_HEAP
      modifies heap
      ensures Valid() && removed && item in old(Items())
      ensures Items() == old(Items()) - multiset{item} && heap.IndexOf(item.id) == REMOVED_FROM_HEAP
      ensures queue == Without(queue, item)
    {
      WithoutAbsent(queue, item);
      ghost var c := heap.IndexOf(item.id);
      assert heap.data[..heap.count][c] == item;
      removed := heap.RemoveItem(Some(item));
      LaneHeapSub(queue, old(heap.Contents()), item);
    }

    /** The queue loop of Remove(item), run for the queue's length at the
        start; the loop turns a local copy of the queue. */
    method RemoveFromQueue(item: Item) returns (found: bool)
      requires Valid()
      modifies this`queue, heap`indexInHeap
      ensures Valid()
      ensures found <==> item in old(queue)
      ensures queue == Without(old(queue), item)
      ensures found ==> Items() == old(Items()) - multiset{item} && heap.IndexOf(item.id) == REMOVED_FROM_HEAP
      ensures !found ==> queue == old(queue) && heap.indexInHeap == old(heap.indexInHeap)
      ensures found ==> item in old(Items())
    {
      ghost var q0 := queue;
      var q;
      q, found := TurnQueue(queue, item);
      LaneWithout(q0, heap.Contents(), item);
      queue := q;
      if !found {
        WithoutAbsent(q0, item);
      } else {
        WithoutOnce(q0, item);
        ghost var k :| 0 <= k < |q0| && q0[k] == item;
        assert item in multiset(q0);
        TakeFromQueue(heap.Contents(), multiset(q0), item);
        heap.SetIndexInHeap(item.id, REMOVED_FROM_HEAP);
      }
    }
  }
}

// DynamicArray.cs: an array of references that grows on writes past its
// end, reads null past its end, and counts the slots that were null when
// written. A null reference is None.

module DynamicArrays {
  import opened Wrappers

  /** The buffer before a write at index: grown to index + 5 slots when the
      index is past the end. */
  function Grow<V>(s: seq<Option<V>>, index: nat): (g: seq<Option<V>>)
    ensures |g| > index && |g| >= |s| && g[..|s|] == s
  {
    if index >= |s| then s + seq(index + 5 - |s|, _ => None) else s
  }

  /** What the getter returns for a buffer. */
  function ReadAt<V>(s: seq<Option<V>>, index: nat): Option<V>
  {
    if index < |s| then s[index] else None
  }

  /** The number of non-null slots. */
  function Occupied<V>(s: seq<Option<V>>): nat
  {
    if |s| == 0 then 0 else Occupied(s[..|s| - 1]) + (if s[|s| - 1].Some? then 1 else 0)
  }

  /** Growing changes no reading, and written values read back while every
      other index keeps its reading. */
  lemma ReadAfterWrite<V>(s: seq<Option<V>>, index: nat, value: Option<V>, j: nat)
    ensures ReadAt(Grow(s, index), j) == ReadAt(s, j)
    ensures ReadAt(Grow(s, index)[index := value], j) == if j == index then value else ReadAt(s, j)
  {
    var g := Grow(s, index);
    if j < |s| {
      assert g[j] == g[..|s|][j];
    }
  }

  lemma {:induction false} OccupiedAppendNone<V>(s: seq<Option<V>>, n: nat)
    ensures Occupied(s + seq(n, _ => None)) == Occupied(s)
  {
    if n > 0 {
      var t := s + seq(n, _ => None);
      assert t[..|t| - 1] == s + seq(n - 1, _ => None) && t[|t| - 1] == None;
      OccupiedAppendNone(s, n - 1);
      assert Occupied(t) == Occupied(t[..|t| - 1]);
    } else {
      assert s + seq(n, _ => None) == s;
    }
  }

  /** One write changes the non-null count by the slot's change. */
  lemma {:induction false} OccupiedUpdate<V>(s: seq<Option<V>>, i: nat, value: Option<V>)
    requires i < |s|
    ensures Occupied(s[i := value]) == Occupied(s) - (if s[i].Some? then 1 else 0) + (if value.Some? then 1 else 0)
  {
    var t := s[i := value];
    if i < |s| - 1 {
      assert t[..|t| - 1] == s[..|s| - 1][i := value];
      OccupiedUpdate(s[..|s| - 1], i, value);
    } else {
      assert t[..|t| - 1] == s[..|s| - 1];
    }
  }

  /** Without null writes, count is the number of non-null slots. */
  lemma CountTracksOccupied<V>(s: seq<Option<V>>, index: nat, value: V, count: nat)
    requires count == Occupied(s)
    ensures var g := Grow(s, index);
      count + (if g[index].None? then 1 else 0) == Occupied(g[index := Some(value)])
  {
    if index >= |s| {
      OccupiedAppendNone(s, index + 5 - |s|);
    }
    OccupiedUpdate(Grow(s, index), index, Some(value));
  }

  class DynamicArray<V> {
    var buffer: array<Option<V>>
    /** getCount and getLength read count and buffer.Length. */
    var count: nat

    constructor ()
      ensures fresh(buffer) && buffer[..] == [None] && count == 0
    {
      buffer := new Option<V>[1](_ => None);
      count := 0;
    }

    /** The getter: the slot, or null past the end. */
    function Get(index: nat): (r: Option<V>)
      reads this, buffer
      ensures r == ReadAt(buffer[..], index)
    {
      if index < buffer.Length then buffer[index] else None
    }

    /** The setter: grows past the end, counts a write into a null slot. */
    method Set(index: nat, value: Option<V>)
      modifies this, buffer
      ensures buffer[..] == Grow(old(buffer[..]), index)[index := value]
      ensures count == old(count) + if Grow(old(buffer[..]), index)[index].None? then 1 else 0
      ensures old(buffer.Length) <= index ==> fresh(buffer)
    {
      if index >= buffer.Length {
        var bigger := Enlarge(buffer, index + 5);
        buffer := bigger;
      }
      if buffer[index].None? {
        count := count + 1;
      }
      buffer[index] := value;
    }
  }

  /** The copy loop into the bigger array. */
  method Enlarge<V>(a: array<Option<V>>, n: nat) returns (b: array<Option<V>>)
    requires a.Length < n
    ensures fresh(b) && b[..] == a[..] + seq(n - a.Length, _ => None)
  {
    b := new Option<V>[n](_ => None);
    var i := 0;
    while i < a.Length
      invariant 0 <= i <= a.Length
      invariant forall k :: 0 <= k < i ==> b[k] == a[k]
      invariant forall k :: i <= k < n ==> b[k] == None
    {
      b[i] := a[i];
      i := i + 1;
    }
  }
}

// Dictionary_U.cs: a read-only union of dictionaries from keys to lists of
// values. A lookup concatenates the lists of every joined dictionary in join
// order. Each joined dictionary is a map; joining appends it to the member
// list and separating removes its first occurrence.

module UnionDictionaries {
  import opened Wrappers

  /** The concatenated value lists of key over the members, in join order. */
  function Combined<K, V>(data: seq<map<K, seq<V>>>, key: K): seq<V>
  {
    if |data| == 0 then []
    else
      var last := data[|data| - 1];
      Combined(data[..|data| - 1], key) + (if key in last then last[key] else [])
  }

  /** Some member has the key. */
  predicate Has<K, V>(data: seq<map<K, seq<V>>>, key: K)
  {
    exists i :: 0 <= i < |data| && key in data[i]
  }

  /** Count: the sum of the members' key counts. */
  function TotalCount<K, V>(data: seq<map<K, seq<V>>>): nat
  {
    if |data| == 0 then 0 else TotalCount(data[..|data| - 1]) + |data[|data| - 1]|
  }

  /** List.Remove: the first occurrence of d taken out, if any. */
  function RemoveFirst<T(==)>(data: seq<T>, d: T): (r: seq<T>)
    ensures d in data ==> |r| == |data| - 1
    ensures d !in data ==> r == data
  {
    if |data| == 0 then []
    else if data[0] == d then data[1..]
    else [data[0]] + RemoveFirst(data[1..], d)
  }

  /** A non-empty lookup means some member has the key; the converse holds
      when the members store no empty lists. */
  lemma {:induction false} CombinedHas<K, V>(data: seq<map<K, seq<V>>>, key: K)
    ensures Combined(data, key) != [] ==> Has(data, key)
    ensures Has(data, key) && (forall i :: 0 <= i < |data| && key in data[i] ==> data[i][key] != [])
      ==> Combined(data, key) != []
  {
    if |data| > 0 {
      var n := |data|;
      var p := data[..n - 1];
      CombinedHas(p, key);
      assert forall i :: 0 <= i < n - 1 ==> p[i] == data[i];
      if key !in data[n - 1] && Has(data, key) {
        var i :| 0 <= i < n && key in data[i];
        assert key in p[i];
      }
    }
  }

  /** Joining appends the new member's list for the key and adds its keys
      to the count. */
  lemma JoinEffect<K, V>(data: seq<map<K, seq<V>>>, d: map<K, seq<V>>, key: K)
    ensures Combined(data + [d], key) == Combined(data, key) + (if key in d then d[key] else [])
    ensures Has(data + [d], key) <==> Has(data, key) || key in d
    ensures TotalCount(data + [d]) == TotalCount(data) + |d|
  {
    var e := data + [d];
    assert e[..|e| - 1] == data;
    if Has(e, key) && !(key in d) {
      var i :| 0 <= i < |e| && key in e[i];
      assert i < |data| && key in data[i];
    }
    if Has(data, key) {
      var i :| 0 <= i < |data| && key in data[i];
      assert key in e[i];
    }
  }

  /** The count splits over a concatenation of member lists. */
  lemma {:induction false} TotalCountAppend<K, V>(a: seq<map<K, seq<V>>>, b: seq<map<K, seq<V>>>)
    ensures TotalCount(a + b) == TotalCount(a) + TotalCount(b)
    decreases |b|
  {
    if |b| > 0 {
      var ab := a + b;
      assert ab[..|ab| - 1] == a + b[..|b| - 1];
      TotalCountAppend(a, b[..|b| - 1]);
    } else {
      assert a + b == a;
    }
  }

  /** Separating a member takes its keys off the count. */
  lemma {:induction false} SeparateCount<K, V>(data: seq<map<K, seq<V>>>, d: map<K, seq<V>>)
    requires d in data
    ensures TotalCount(RemoveFirst(data, d)) + |d| == TotalCount(data)
  {
    var rest := data[1..];
    assert data == [data[0]] + rest;
    TotalCountAppend([data[0]], rest);
    assert [data[0]][..0] == [];
    if data[0] != d {
      SeparateCount(rest, d);
      TotalCountAppend([data[0]], RemoveFirst(rest, d));
    }
  }

  /** Separating takes out one copy of the member and no other. */
  lemma {:induction false} SeparateMembers<T>(data: seq<T>, d: T)
    ensures multiset(RemoveFirst(data, d)) == multiset(data) - multiset{d}
  {
    if |data| > 0 {
      var rest := data[1..];
      assert data == [data[0]] + rest;
      SeparateMembers(rest, d);
    }
  }

  /** Separating a member just joined, and not joined before, restores the
      member list. */
  lemma {:induction false} JoinThenSeparate<T>(data: seq<T>, d: T)
    requires d !in data
    ensures RemoveFirst(data + [d], d) == data
  {
    if |data| > 0 {
      assert (data + [d])[1..] == data[1..] + [d];
      JoinThenSeparate(data[1..], d);
      assert [data[0]] + data[1..] == data;
    }
  }

  class DictionaryU<K(==), V(==)> {
    var data: seq<map<K, seq<V>>>

    constructor ()
      ensures data == []
    {
      data := [];
    }

    /** The indexer's loop: the lists of the members that have the key,
        concatenated in join order. */
    method Collect(key: K) returns (ret: seq<V>)
      ensures ret == Combined(data, key)
    {
      var members := data;
      ret := [];
      var i := 0;
      while i < |members|
        invariant 0 <= i <= |members| && ret == Combined(members[..i], key)
      {
        assert members[..i + 1][..i] == members[..i];
        if key in members[i] {
          ret := ret + members[i][key];
        }
        i := i + 1;
      }
      assert members[..|members|] == members;
    }

    /** The indexer: the concatenated lists, or KeyNotFoundException when
        they are empty. */
    method Get(key: K) returns (r: Result<seq<V>>)
      ensures r == if Combined(data, key) == [] then Err(KeyNotFound) else Ok(Combined(data, key))
    {
      var ret := Collect(key);
      if |ret| == 0 {
        return Err(KeyNotFound);
      }
      return Ok(ret);
    }

    /** ContainsKey: whether some member has the key. */
    method ContainsKey(key: K) returns (b: bool)
      ensures b <==> Has(data, key)
    {
      var members := data;
      var i := 0;
      while i < |members|
        invariant 0 <= i <= |members|
        invariant forall k :: 0 <= k < i ==> key !in members[k]
      {
        if key in members[i] {
          return true;
        }
        i := i + 1;
      }
      return false;
    }

    /** TryGetValue as written: after ContainsKey it reads the indexer,
        which throws when every list stored for the key is empty. */
    method TryGetValueAsWritten(key: K) returns (r: Result<Option<seq<V>>>)
      ensures r.Err? <==> Has(data, key) && Combined(data, key) == []
      ensures r.Ok? ==> r.value == if Has(data, key) then Some(Combined(data, key)) else None
    {
      var present := ContainsKey(key);
      if present {
        var got := Get(key);
        if got.Err? {
          return Err(got.error);
        }
        return Ok(Some(got.value));
      }
      return Ok(None);
    }

    /** TryGetValue: the combined lists when some member has the key, null
        otherwise; it never throws. */
    method TryGetValue(key: K) returns (r: Option<seq<V>>)
      ensures r == if Has(data, key) then Some(Combined(data, key)) else None
    {
      var present := ContainsKey(key);
      if present {
        var ret := Collect(key);
        return Some(ret);
      }
      return None;
    }

    function Count(): (r: nat)
      reads this
      ensures data == [] ==> r == 0
      ensures forall i :: 0 <= i < |data| ==> |data[i]| <= r
    {
      CountBoundsMembers(data);
      TotalCount(data)
    }

    method Join(other: map<K, seq<V>>)
      modifies this
      ensures data == old(data) + [other]
    {
      data := data + [other];
    }

    method Separate(other: map<K, seq<V>>)
      modifies this
      ensures data == RemoveFirst(old(data), other)
    {
      data := RemoveFirst(data, other);
    }

    method Clear()
      modifies this
      ensures data == []
    {
      data := [];
    }
  }

  /** Every member's key count is part of the total. */
  lemma {:induction false} CountBoundsMembers<K, V>(data: seq<map<K, seq<V>>>)
    ensures forall i :: 0 <= i < |data| ==> |data[i]| <= TotalCount(data)
  {
    if |data| > 0 {
      var p := data[..|data| - 1];
      CountBoundsMembers(p);
      assert forall i :: 0 <= i < |data| - 1 ==> p[i] == data[i];
    }
  }

  /** One member mapping a key to an empty list: ContainsKey holds, yet the
      indexer finds no value and throws, so TryGetValue as written throws. */
  lemma EmptyListThrows()
    ensures var data := [map[0 := []]];
      Has(data, 0) && Combined<int, int>(data, 0) == []
  {
    var data: seq<map<int, seq<int>>> := [map[0 := []]];
    assert 0 in data[0];
    assert data[..0] == [];
  }
}

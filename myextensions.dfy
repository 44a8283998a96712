// The arg-max helpers of MyExtensions.cs. Every overload compares keys with
// int CompareTo and starts its running maximum at default(int) == 0; the
// overloads without a mapping are the ones whose key is the identity.

module MyExtensions {
  import opened Wrappers

  /** The largest key in s. */
  function MaxKey<T>(s: seq<T>, key: T -> int): int
    requires |s| > 0
  {
    if |s| == 1 then key(s[0])
    else
      var m := MaxKey(s[..|s| - 1], key);
      if key(s[|s| - 1]) > m then key(s[|s| - 1]) else m
  }

  lemma {:induction false} MaxKeyUpper<T>(s: seq<T>, key: T -> int)
    requires |s| > 0
    ensures forall k :: 0 <= k < |s| ==> key(s[k]) <= MaxKey(s, key)
  {
    if |s| > 1 {
      var p := s[..|s| - 1];
      MaxKeyUpper(p, key);
      assert forall k :: 0 <= k < |p| ==> s[k] == p[k];
    }
  }

  lemma {:induction false} MaxKeyAttained<T>(s: seq<T>, key: T -> int) returns (k: nat)
    requires |s| > 0
    ensures k < |s| && key(s[k]) == MaxKey(s, key)
  {
    if |s| == 1 || key(s[|s| - 1]) > MaxKey(s[..|s| - 1], key) {
      k := |s| - 1;
    } else {
      k := MaxKeyAttained(s[..|s| - 1], key);
    }
  }

  /** The elements of s whose key is m, in their order in s. */
  function Keep<T>(s: seq<T>, key: T -> int, m: int): seq<T>
  {
    if |s| == 0 then []
    else Keep(s[..|s| - 1], key, m) + (if key(s[|s| - 1]) == m then [s[|s| - 1]] else [])
  }

  lemma {:induction false} KeepMembers<T>(s: seq<T>, key: T -> int, m: int)
    ensures forall x :: x in Keep(s, key, m) <==> x in s && key(x) == m
  {
    if |s| > 0 {
      var p := s[..|s| - 1];
      KeepMembers(p, key, m);
      assert s == p + [s[|s| - 1]];
    }
  }

  /** Nothing is kept when every key is below m. */
  lemma {:induction false} KeepNone<T>(s: seq<T>, key: T -> int, m: int)
    requires forall k :: 0 <= k < |s| ==> key(s[k]) < m
    ensures Keep(s, key, m) == []
  {
    if |s| > 0 {
      var p := s[..|s| - 1];
      assert forall k :: 0 <= k < |p| ==> p[k] == s[k];
      KeepNone(p, key, m);
    }
  }

  /** Keeping preserves an increasing order. */
  lemma {:induction false} KeepIncreasing(s: seq<int>, key: int -> int, m: int)
    requires forall a, b :: 0 <= a < b < |s| ==> s[a] < s[b]
    ensures forall a, b :: 0 <= a < b < |Keep(s, key, m)| ==> Keep(s, key, m)[a] < Keep(s, key, m)[b]
    ensures forall x :: x in Keep(s, key, m) ==> x in s
  {
    if |s| > 0 {
      var p := s[..|s| - 1];
      assert forall a, b :: 0 <= a < b < |p| ==> p[a] < p[b] by {
        assert forall a :: 0 <= a < |p| ==> p[a] == s[a];
      }
      KeepIncreasing(p, key, m);
      var r := Keep(p, key, m);
      forall x | x in r ensures x in s && x < s[|s| - 1] {
        var a :| 0 <= a < |p| && p[a] == x;
        assert p[a] == s[a] && a < |s| - 1;
      }
      var t := Keep(s, key, m);
      if key(s[|s| - 1]) == m {
        assert t == r + [s[|s| - 1]];
        forall a, b | 0 <= a < b < |t| ensures t[a] < t[b] {
          assert t[a] == r[a] && r[a] in r;
          if b < |r| {
            assert t[b] == r[b];
          }
        }
      } else {
        assert t == r;
      }
    }
  }

  /** The indices 0..n-1 in order. */
  function Iota(n: nat): (r: seq<int>)
    ensures |r| == n && forall i :: 0 <= i < n ==> r[i] == i
  {
    seq(n, i requires 0 <= i < n => i)
  }

  /** The loop shared by IndicesOfMax, AllMax and KeysOfMaxValue as
      written: the answer list restarts when a larger key arrives or the
      list is empty, and then, as a separate test against the old maximum,
      grows when the key equals it. */
  function AllMaxAsWritten<T>(s: seq<T>, key: T -> int, ans: seq<T>, maxValue: int): seq<T>
  {
    if |s| == 0 then ans
    else
      var c := key(s[0]);
      var (ans1, max1) := if c > maxValue || |ans| == 0 then ([s[0]], c) else (ans, maxValue);
      var ans2 := if c == maxValue then ans1 + [s[0]] else ans1;
      AllMaxAsWritten(s[1..], key, ans2, max1)
  }

  /** A first element equal to default(int) is reported twice: both tests
      fire for it. */
  lemma AllMaxAsWrittenRepeatsFirst()
    ensures AllMaxAsWritten([0], (v: int) => v, [], 0) == [0, 0]
    ensures AllMaxAsWritten(Iota(2), (i: int) => if i == 0 then 0 else -1, [], 0) == [0, 0]
    ensures Keep([0], (v: int) => v, 0) == [0]
  {
    assert Iota(2) == [0, 1];
    assert [0, 1][1..] == [1];
    assert Keep([0], (v: int) => v, 0) == Keep([], (v: int) => v, 0) + [0];
  }

  /** The answer loop with the second test made an `else if`: every element
      whose key is the maximum, in order. */
  method AllMaxBy<T>(s: seq<T>, key: T -> int) returns (ans: seq<T>)
    ensures |s| == 0 ==> ans == []
    ensures |s| > 0 ==> ans == Keep(s, key, MaxKey(s, key)) && |ans| > 0
  {
    ans := [];
    var maxValue := 0;
    var i := 0;
    while i < |s|
      invariant 0 <= i <= |s|
      invariant i == 0 ==> ans == []
      invariant i > 0 ==> maxValue == MaxKey(s[..i], key) && ans == Keep(s[..i], key, maxValue) && |ans| > 0
    {
      var p, q := s[..i], s[..i + 1];
      assert q[..i] == p;
      var c := key(s[i]);
      if c > maxValue || |ans| == 0 {
        if i > 0 {
          MaxKeyUpper(p, key);
          KeepNone(p, key, c);
        } else {
          assert Keep(q, key, c) == Keep(q[..0], key, c) + [s[0]];
        }
        ans := [s[i]];
        maxValue := c;
      } else if c == maxValue {
        ans := ans + [s[i]];
      }
      i := i + 1;
    }
    assert s[..|s|] == s;
  }

  /** AllMax and its mapping overload: every element whose key is the
      maximum, in order; nothing for an empty sequence. */
  method AllMax<T>(s: seq<T>, key: T -> int) returns (ans: seq<T>)
    ensures |s| == 0 <==> |ans| == 0
    ensures |s| > 0 ==> ans == Keep(s, key, MaxKey(s, key))
    ensures forall x :: x in ans <==> x in s && forall y :: y in s ==> key(y) <= key(x)
  {
    ans := AllMaxBy(s, key);
    if |s| > 0 {
      var m := MaxKey(s, key);
      KeepMembers(s, key, m);
      MaxKeyUpper(s, key);
      var w := MaxKeyAttained(s, key);
      forall x | x in s && forall y :: y in s ==> key(y) <= key(x) ensures key(x) == m {
        assert key(s[w]) <= key(x);
      }
    }
  }

  /** IndicesOfMax and its mapping overload: the indices of the maximal
      keys, increasing; nothing for an empty sequence. */
  method IndicesOfMax<T>(s: seq<T>, key: T -> int) returns (ans: seq<int>)
    ensures |s| == 0 <==> |ans| == 0
    ensures forall a, b :: 0 <= a < b < |ans| ==> ans[a] < ans[b]
    ensures forall k :: k in ans <==> 0 <= k < |s| && forall j :: 0 <= j < |s| ==> key(s[j]) <= key(s[k])
  {
    var at := (i: int) => if 0 <= i < |s| then key(s[i]) else 0;
    var idx := Iota(|s|);
    ans := AllMaxBy(idx, at);
    if |s| > 0 {
      var m := MaxKey(idx, at);
      KeepIncreasing(idx, at, m);
      KeepMembers(idx, at, m);
      MaxKeyUpper(idx, at);
      var w := MaxKeyAttained(idx, at);
      forall k | 0 <= k < |s| ensures at(k) <= m {
        assert idx[k] == k;
      }
      forall k ensures k in ans <==> 0 <= k < |s| && forall j :: 0 <= j < |s| ==> key(s[j]) <= key(s[k]) {
        if k in ans {
          assert k in idx && at(k) == m;
          var i :| 0 <= i < |idx| && idx[i] == k;
          forall j | 0 <= j < |s| ensures key(s[j]) <= key(s[k]) {
            assert at(j) <= m;
          }
        }
        if 0 <= k < |s| && forall j :: 0 <= j < |s| ==> key(s[j]) <= key(s[k]) {
          assert idx[k] == k && at(w) <= at(k);
        }
      }
    }
  }

  /** The value of a dictionary pair. */
  function PairValue<K>(p: (K, int)): int { p.1 }

  /** KeysOfMaxValue: the keys of the pairs with the largest value, in
      enumeration order; nothing for an empty dictionary. */
  method KeysOfMaxValue<K>(pairs: seq<(K, int)>) returns (ans: seq<K>)
    ensures |pairs| == 0 <==> |ans| == 0
    ensures |pairs| > 0 ==> var top := Keep(pairs, PairValue, MaxKey(pairs, PairValue));
      |ans| == |top| && forall i :: 0 <= i < |ans| ==> ans[i] == top[i].0
    ensures forall k :: k in ans <==> exists p :: p in pairs && p.0 == k && forall q :: q in pairs ==> q.1 <= p.1
  {
    var top := AllMax(pairs, PairValue);
    ans := seq(|top|, i requires 0 <= i < |top| => top[i].0);
    forall k ensures k in ans <==> exists p :: p in pairs && p.0 == k && forall q :: q in pairs ==> q.1 <= p.1 {
      if k in ans {
        var i :| 0 <= i < |ans| && ans[i] == k;
        assert top[i] in top;
      }
      if exists p :: p in pairs && p.0 == k && forall q :: q in pairs ==> q.1 <= p.1 {
        var p :| p in pairs && p.0 == k && forall q :: q in pairs ==> q.1 <= p.1;
        assert p in top;
        var i :| 0 <= i < |top| && top[i] == p;
        assert ans[i] == k;
      }
    }
  }

  /** IndexOfMax and its mapping overload: the first index holding the
      largest key, 0 for an empty sequence. */
  method IndexOfMax<T>(s: seq<T>, key: T -> int) returns (ans: nat)
    ensures |s| == 0 ==> ans == 0
    ensures |s| > 0 ==> ans < |s| && forall k :: 0 <= k < |s| ==> key(s[k]) <= key(s[ans])
    ensures |s| > 0 ==> forall k :: 0 <= k < ans ==> key(s[k]) < key(s[ans])
  {
    var maxValue := 0;
    ans := 0;
    var index := 0;
    while index < |s|
      invariant 0 <= index <= |s|
      invariant index == 0 ==> ans == 0
      invariant index > 0 ==> ans < index && maxValue == key(s[ans])
      invariant forall k :: 0 <= k < index ==> key(s[k]) <= maxValue
      invariant forall k :: 0 <= k < ans ==> key(s[k]) < maxValue
    {
      var c := key(s[index]);
      if c > maxValue || index == 0 {
        ans := index;
        maxValue := c;
      }
      index := index + 1;
    }
  }

  /** MaxByKeyFunc: like Python's max(x, key=f), the first element with the
      largest key; None stands for the default(T) of an empty sequence. */
  method MaxByKeyFunc<T>(s: seq<T>, key: T -> int) returns (ans: Option<T>)
    ensures ans.None? <==> |s| == 0
    ensures ans.Some? ==> exists i :: (0 <= i < |s| && s[i] == ans.value
      && (forall k :: 0 <= k < |s| ==> key(s[k]) <= key(s[i]))
      && (forall k :: 0 <= k < i ==> key(s[k]) < key(s[i])))
  {
    var maxValue := 0;
    var index := 0;
    ghost var at: nat := 0;
    ans := None;
    while index < |s|
      invariant 0 <= at <= index <= |s| && (index == 0 <==> ans.None?)
      invariant index > 0 ==> at < index && ans == Some(s[at]) && maxValue == key(s[at])
      invariant forall k :: 0 <= k < index ==> key(s[k]) <= maxValue
      invariant forall k :: 0 <= k < at ==> key(s[k]) < maxValue
    {
      var c := key(s[index]);
      if c > maxValue || index == 0 {
        ans := Some(s[index]);
        at := index;
        maxValue := c;
      }
      index := index + 1;
    }
  }
}

// The perfect hash of EnumeratedPDB.cs and the permutation counts it and
// ProblemInstance.cs precompute. Agent i's free-cell number, relabelled
// among the cells that agents 0..i-1 leave free, is digit i of a
// mixed-radix number whose place values are the permutation counts.

module Enumeration {
  import opened FixedWidth
  import opened Wrappers
  import Sets

  /** The number of ways to place agents i+1..n-1 on distinct cells once
      agents 0..i hold i+1 of the L free cells. */
  function Arrangements(L: int, i: nat, n: nat): int
    requires i < n
    decreases n - i
  {
    if i == n - 1 then 1 else Arrangements(L, i + 1, n) * (L - (i + 1))
  }

  lemma MulAtLeast(a: int, b: int)
    requires a >= 1 && b >= 1
    ensures a * b >= a
  {
    assert a * b == a * (b - 1) + a;
    assert a * (b - 1) >= 0;
  }

  lemma MulLe(a: int, b: int, c: int)
    requires 0 <= a <= b && c >= 0
    ensures 0 <= a * c <= b * c
  {
    assert b * c == a * c + (b - a) * c;
    assert (b - a) * c >= 0;
  }

  lemma {:induction false} ArrangementsAtLeastOne(L: int, i: nat, n: nat)
    requires i < n <= L
    ensures Arrangements(L, i, n) >= 1
    decreases n - i
  {
    if i < n - 1 {
      ArrangementsAtLeastOne(L, i + 1, n);
      MulAtLeast(Arrangements(L, i + 1, n), L - (i + 1));
    }
  }

  /** The place values fall from agent 0 to agent n-1. */
  lemma {:induction false} ArrangementsBelowFirst(L: int, i: nat, n: nat)
    requires i < n <= L
    ensures Arrangements(L, i, n) <= Arrangements(L, 0, n)
    decreases i
  {
    if i > 0 {
      ArrangementsBelowFirst(L, i - 1, n);
      ArrangementsAtLeastOne(L, i, n);
      MulAtLeast(Arrangements(L, i, n), L - i);
    }
  }

  /** One step of computePermutations: the next entry times the cell count
      left, both as unchecked `ulong`. */
  function NextPermutation(next: int, L: int, i: int): int
  {
    ToULong(next * ToULong(L - (i + 1)))
  }

  /** Without wrap-around, a step yields the next arrangement count. */
  lemma NextPermutationExact(L: int, i: nat, n: nat)
    requires i + 1 < n <= L && Arrangements(L, 0, n) < ULONG_RANGE
    ensures NextPermutation(Arrangements(L, i + 1, n), L, i) == Arrangements(L, i, n)
  {
    var a, f := Arrangements(L, i + 1, n), L - (i + 1);
    assert Arrangements(L, i, n) == a * f;
    ArrangementsBelowFirst(L, i, n);
    ArrangementsAtLeastOne(L, i + 1, n);
    MulAtLeast(f, a);
    assert f * a == a * f;
    assert ToULong(f) == f;
  }

  /** computePermutations (and ProblemInstance.precomputePermutations): the
      last entry is 1 and each entry is the next one times the number of
      cells left, in unchecked `ulong` arithmetic; without wrap-around every
      entry is the number of arrangements of the agents after it. */
  method Permutations(n: nat, L: int) returns (perms: array<int>)
    requires n >= 1
    ensures fresh(perms) && perms.Length == n
    ensures perms[n - 1] == 1
    ensures forall i :: 0 <= i < n - 1 ==> perms[i] == NextPermutation(perms[i + 1], L, i)
    ensures n <= L && Arrangements(L, 0, n) < ULONG_RANGE ==>
      forall i :: 0 <= i < n ==> perms[i] == Arrangements(L, i, n)
  {
    perms := new int[n];
    perms[n - 1] := 1;
    ghost var exact := n <= L && Arrangements(L, 0, n) < ULONG_RANGE;
    var i := n - 2;
    while i >= 0
      invariant -1 <= i <= n - 2
      invariant perms[n - 1] == 1
      invariant forall k :: i < k < n - 1 ==> perms[k] == NextPermutation(perms[k + 1], L, k)
      invariant exact ==> forall k :: i < k < n ==> perms[k] == Arrangements(L, k, n)
    {
      if exact {
        NextPermutationExact(L, i, n);
      }
      perms[i] := NextPermutation(perms[i + 1], L, i);
      i := i - 1;
    }
  }

  /** How many entries of s are below x. */
  function CountBelow(s: seq<int>, x: int): (r: nat)
    ensures r <= |s|
  {
    if s == [] then 0 else CountBelow(s[..|s| - 1], x) + (if s[|s| - 1] < x then 1 else 0)
  }

  /** How many entries of s lie in lo..hi-1. */
  function CountIn(s: seq<int>, lo: int, hi: int): (r: nat)
    ensures r <= |s|
  {
    if s == [] then 0 else CountIn(s[..|s| - 1], lo, hi) + (if lo <= s[|s| - 1] < hi then 1 else 0)
  }

  /** The entries of s in lo..hi-1, as a set. */
  function ValuesIn(s: seq<int>, lo: int, hi: int): (r: set<int>)
    ensures forall v :: v in r ==> v in s && lo <= v < hi
  {
    if s == [] then {}
    else ValuesIn(s[..|s| - 1], lo, hi) + (if lo <= s[|s| - 1] < hi then {s[|s| - 1]} else {})
  }

  predicate Distinct(s: seq<int>)
  {
    forall i, j :: 0 <= i < j < |s| ==> s[i] != s[j]
  }

  /** The agents stand on distinct free cells, numbered 0..L-1. */
  predicate Placement(cards: seq<int>, L: int)
  {
    Distinct(cards) && forall i :: 0 <= i < |cards| ==> 0 <= cards[i] < L
  }

  lemma {:induction false} CountInSplit(s: seq<int>, lo: int, m: int, hi: int)
    requires lo <= m <= hi
    ensures CountIn(s, lo, hi) == CountIn(s, lo, m) + CountIn(s, m, hi)
  {
    if s != [] {
      CountInSplit(s[..|s| - 1], lo, m, hi);
    }
  }

  lemma {:induction false} CountBelowDiff(s: seq<int>, x: int, y: int)
    requires x <= y
    ensures CountBelow(s, y) - CountBelow(s, x) == CountIn(s, x, y)
  {
    if s != [] {
      CountBelowDiff(s[..|s| - 1], x, y);
    }
  }

  lemma {:induction false} CountBelowNone(s: seq<int>, x: int)
    requires forall i :: 0 <= i < |s| ==> s[i] >= x
    ensures CountBelow(s, x) == 0
  {
    if s != [] {
      CountBelowNone(s[..|s| - 1], x);
    }
  }

  lemma {:induction false} CountInAll(s: seq<int>, lo: int, hi: int)
    requires forall i :: 0 <= i < |s| ==> lo <= s[i] < hi
    ensures CountIn(s, lo, hi) == |s|
  {
    if s != [] {
      CountInAll(s[..|s| - 1], lo, hi);
    }
  }

  lemma {:induction false} CountInMissing(s: seq<int>, x: int)
    requires x !in s
    ensures CountIn(s, x, x + 1) == 0
  {
    if s != [] {
      assert s[|s| - 1] != x;
      CountInMissing(s[..|s| - 1], x);
    }
  }

  lemma {:induction false} ValuesInCard(s: seq<int>, lo: int, hi: int)
    requires Distinct(s)
    ensures |ValuesIn(s, lo, hi)| == CountIn(s, lo, hi)
  {
    if s != [] {
      var front := s[..|s| - 1];
      ValuesInCard(front, lo, hi);
      assert s[|s| - 1] !in front;
    }
  }

  /** Distinct entries in lo..hi-1 number at most hi - lo. */
  lemma DistinctCountIn(s: seq<int>, lo: int, hi: int)
    requires Distinct(s) && lo <= hi
    ensures CountIn(s, lo, hi) <= hi - lo
  {
    ValuesInCard(s, lo, hi);
    Sets.SubsetCard(ValuesIn(s, lo, hi), Sets.Range(lo, hi));
  }

  /** n agents on distinct cells among L need n <= L. */
  lemma PlacementFits(cards: seq<int>, L: int)
    requires Placement(cards, L) && |cards| >= 1
    ensures |cards| <= L
  {
    assert 0 <= cards[0] < L;
    CountInAll(cards, 0, L);
    DistinctCountIn(cards, 0, L);
  }

  /** Agent i's cell number among the cells agents 0..i-1 leave free. */
  function Relabel(cards: seq<int>, i: nat): int
    requires i < |cards|
  {
    cards[i] - CountBelow(cards[..i], cards[i])
  }

  /** The digits i..n-1 weighted by their place values. */
  function HashFrom(cards: seq<int>, perms: seq<int>, i: nat): int
    requires i <= |cards| == |perms|
    decreases |cards| - i
  {
    if i == |cards| then 0 else Relabel(cards, i) * perms[i] + HashFrom(cards, perms, i + 1)
  }

  /** One more digit of the unchecked `uint` hash. */
  lemma HashStep(cards: seq<int>, perms: seq<int>, i: nat, h: int)
    requires i < |cards| == |perms| && h == ToUInt(HashFrom(cards, perms, 0) - HashFrom(cards, perms, i))
    ensures ToUInt(h + ToUInt(ToUInt(Relabel(cards, i)) * ToUInt(perms[i])))
      == ToUInt(HashFrom(cards, perms, 0) - HashFrom(cards, perms, i + 1))
  {
    var done := HashFrom(cards, perms, 0) - HashFrom(cards, perms, i);
    ToUIntAdd(done, ToUInt(ToUInt(Relabel(cards, i)) * ToUInt(perms[i])));
    ToUIntAddMul(done, Relabel(cards, i), perms[i]);
  }

  lemma SubPlacement(cards: seq<int>, L: int, i: nat)
    requires Placement(cards, L) && i < |cards|
    ensures Placement(cards[..i], L) && cards[i] !in cards[..i]
  {
    forall k | 0 <= k < i ensures cards[..i][k] != cards[i] {
      assert cards[..i][k] == cards[k];
    }
  }

  /** Each relabelled cardinality lies in 0..L-1-i. */
  lemma RelabelBounds(cards: seq<int>, L: int, i: nat)
    requires Placement(cards, L) && i < |cards|
    ensures 0 <= Relabel(cards, i) <= L - 1 - i
  {
    var s, x := cards[..i], cards[i];
    SubPlacement(cards, L, i);
    CountBelowNone(s, 0);
    CountBelowDiff(s, 0, x);
    DistinctCountIn(s, 0, x);
    CountInAll(s, 0, L);
    CountInSplit(s, 0, x, L);
    CountInSplit(s, x, x + 1, L);
    CountInMissing(s, x);
    DistinctCountIn(s, x + 1, L);
  }

  /** The place values of a placement of n agents on L cells. */
  predicate ExactPermutations(perms: seq<int>, L: int)
    requires |perms| >= 1
  {
    forall i :: 0 <= i < |perms| ==> perms[i] == Arrangements(L, i, |perms|)
  }

  /** Place value i is place value i+1 times the cells left after agent i. */
  lemma PlaceValueStep(perms: seq<int>, L: int, i: nat)
    requires |perms| >= 1 && ExactPermutations(perms, L) && i + 1 < |perms|
    ensures perms[i] == (L - (i + 1)) * perms[i + 1]
  {
    assert perms[i] == Arrangements(L, i, |perms|) && perms[i + 1] == Arrangements(L, i + 1, |perms|);
  }

  lemma DigitStep(d: int, p: int, rest: int, bound: int)
    requires 0 <= d <= bound && p >= 1 && 0 <= rest < p
    ensures 0 <= d * p + rest < (bound + 1) * p
  {
    MulLe(d, bound, p);
    assert (bound + 1) * p == bound * p + p;
  }

  /** Digits i..n-1 stay below the place value of digit i-1. */
  lemma {:induction false} SuffixBound(cards: seq<int>, perms: seq<int>, L: int, i: nat)
    requires |cards| == |perms| >= 1 && Placement(cards, L) && ExactPermutations(perms, L) && i < |cards|
    ensures 0 <= HashFrom(cards, perms, i) < (L - i) * perms[i]
    decreases |cards| - i
  {
    var n := |cards|;
    PlacementFits(cards, L);
    ArrangementsAtLeastOne(L, i, n);
    assert perms[i] >= 1;
    RelabelBounds(cards, L, i);
    var d, rest := Relabel(cards, i), HashFrom(cards, perms, i + 1);
    assert HashFrom(cards, perms, i) == d * perms[i] + rest;
    if i == n - 1 {
      DigitStep(d, perms[i], 0, L - 1 - i);
    } else {
      SuffixBound(cards, perms, L, i + 1);
      PlaceValueStep(perms, L, i);
      DigitStep(d, perms[i], rest, L - 1 - i);
    }
  }

  /** The table that build allocates: one byte per hash value. */
  function TableSize(L: int, n: nat): int
    requires n >= 1
  {
    Arrangements(L, 0, n) * (L + 1)
  }

  /** Every hash of a placement indexes inside the table. */
  lemma HashInTable(cards: seq<int>, perms: seq<int>, L: int)
    requires |cards| == |perms| >= 1 && Placement(cards, L) && ExactPermutations(perms, L)
    ensures 0 <= HashFrom(cards, perms, 0) < TableSize(L, |cards|)
  {
    SuffixBound(cards, perms, L, 0);
    PlacementFits(cards, L);
    ArrangementsAtLeastOne(L, 0, |cards|);
    MulLe(L, L + 1, perms[0]);
  }

  lemma DivUnique(d1: int, r1: int, d2: int, r2: int, p: int)
    requires p >= 1 && 0 <= r1 < p && 0 <= r2 < p && d1 * p + r1 == d2 * p + r2
    ensures d1 == d2 && r1 == r2
  {
    if d1 > d2 {
      assert d1 * p - d2 * p == p * (d1 - d2);
      MulAtLeast(p, d1 - d2);
    } else if d2 > d1 {
      assert d2 * p - d1 * p == p * (d2 - d1);
      MulAtLeast(p, d2 - d1);
    }
  }

  /** Equal hashes from digit i on mean equal digits from i on. */
  lemma {:induction false} DigitsFromHash(a: seq<int>, b: seq<int>, perms: seq<int>, L: int, i: nat)
    requires |a| == |b| == |perms| >= 1 && Placement(a, L) && Placement(b, L) && ExactPermutations(perms, L)
    requires i < |a| && HashFrom(a, perms, i) == HashFrom(b, perms, i)
    ensures forall k :: i <= k < |a| ==> Relabel(a, k) == Relabel(b, k)
    decreases |a| - i
  {
    var n := |a|;
    PlacementFits(a, L);
    ArrangementsAtLeastOne(L, i, n);
    if i == n - 1 {
      DivUnique(Relabel(a, i), 0, Relabel(b, i), 0, perms[i]);
    } else {
      SuffixBound(a, perms, L, i + 1);
      SuffixBound(b, perms, L, i + 1);
      PlaceValueStep(perms, L, i);
      DivUnique(Relabel(a, i), HashFrom(a, perms, i + 1), Relabel(b, i), HashFrom(b, perms, i + 1), perms[i]);
      DigitsFromHash(a, b, perms, L, i + 1);
    }
  }

  /** Relabelling against a fixed set of taken cells is strictly increasing
      on the free ones, so it is injective. */
  lemma RelabelInjective(s: seq<int>, x: int, y: int)
    requires Distinct(s) && x !in s && y !in s
    requires x - CountBelow(s, x) == y - CountBelow(s, y)
    ensures x == y
  {
    if x < y {
      CountBelowDiff(s, x, y);
      CountInSplit(s, x, x + 1, y);
      CountInMissing(s, x);
      DistinctCountIn(s, x + 1, y);
    } else if y < x {
      CountBelowDiff(s, y, x);
      CountInSplit(s, y, y + 1, x);
      CountInMissing(s, y);
      DistinctCountIn(s, y + 1, x);
    }
  }

  /** Equal digits mean equal placements. */
  lemma {:induction false} PlacementFromDigits(a: seq<int>, b: seq<int>, L: int, k: nat)
    requires |a| == |b| && Placement(a, L) && Placement(b, L) && k <= |a|
    requires forall i :: 0 <= i < |a| ==> Relabel(a, i) == Relabel(b, i)
    ensures a[..k] == b[..k]
  {
    if k > 0 {
      PlacementFromDigits(a, b, L, k - 1);
      var i := k - 1;
      SubPlacement(a, L, i);
      SubPlacement(b, L, i);
      assert Relabel(a, i) == Relabel(b, i);
      RelabelInjective(a[..i], a[i], b[i]);
      assert a[..k] == a[..i] + [a[i]] && b[..k] == b[..i] + [b[i]];
    }
  }

  /** The hash is injective over placements of agents on distinct free cells. */
  lemma HashInjective(a: seq<int>, b: seq<int>, perms: seq<int>, L: int)
    requires |a| == |b| == |perms| >= 1 && Placement(a, L) && Placement(b, L) && ExactPermutations(perms, L)
    requires HashFrom(a, perms, 0) == HashFrom(b, perms, 0)
    ensures a == b
  {
    DigitsFromHash(a, b, perms, L, 0);
    PlacementFromDigits(a, b, L, |a|);
    assert a == a[..|a|] && b == b[..|b|];
  }

  /** The cardinalities of the pattern's agents, in pattern order. */
  function Pattern(allCards: seq<int>, agents: seq<nat>): (r: seq<int>)
    requires forall i :: 0 <= i < |agents| ==> agents[i] < |allCards|
    ensures |r| == |agents| && forall i :: 0 <= i < |agents| ==> r[i] == allCards[agents[i]]
  {
    seq(|agents|, i requires 0 <= i < |agents| => allCards[agents[i]])
  }

  /** The inner loop of hash: how many of the first i agents of the pattern
      have a cardinality below card1. */
  method CountPreceding(allCards: seq<int>, agents: seq<nat>, i: nat, card1: int) returns (preceding: nat)
    requires i <= |agents| && forall k :: 0 <= k < |agents| ==> agents[k] < |allCards|
    ensures preceding == CountBelow(Pattern(allCards, agents)[..i], card1)
  {
    ghost var cards := Pattern(allCards, agents);
    preceding := 0;
    var j := 0;
    while j < i
      invariant 0 <= j <= i
      invariant preceding == CountBelow(cards[..j], card1)
    {
      var card2 := allCards[agents[j]];
      assert cards[..j + 1][..j] == cards[..j];
      if card2 < card1 {
        preceding := preceding + 1;
      }
      j := j + 1;
    }
  }

  /** The pattern database's hashing part: the free-cell count of the grid,
      the agents it is built for, and their place values. */
  class EnumeratedPdb {
    var nLocations: int
    var agents: seq<nat>
    var permutations: array<int>

    /** computePermutations. With no agents the source allocates an empty
        array and then writes its index -1, which throws. */
    method ComputePermutations() returns (r: Result<()>)
      modifies this`permutations
      ensures fresh(permutations) && permutations.Length == |agents|
      ensures r.Err? <==> |agents| == 0
      ensures r.Err? ==> r.error == IndexOutOfRange
      ensures r.Ok? ==> permutations[|agents| - 1] == 1
      ensures forall i :: 0 <= i < |agents| - 1 ==>
        permutations[i] == NextPermutation(permutations[i + 1], nLocations, i)
      ensures r.Ok? && |agents| <= nLocations && Arrangements(nLocations, 0, |agents|) < ULONG_RANGE ==>
        ExactPermutations(permutations[..], nLocations)
    {
      if |agents| == 0 {
        permutations := new int[0];
        return Err(IndexOutOfRange);
      }
      permutations := Permutations(|agents|, nLocations);
      r := Ok(());
    }

    /** hash: the mixed-radix number of the pattern's relabelled
        cardinalities, in unchecked `uint` arithmetic. `allCards[a]` is the
        cardinality of agent a's cell (ProblemInstance.getCardinality). */
    method Hash(allCards: seq<int>) returns (h: int)
      requires permutations.Length == |agents|
      requires forall i :: 0 <= i < |agents| ==> agents[i] < |allCards|
      ensures 0 <= h < UINT_RANGE
      ensures h == ToUInt(HashFrom(Pattern(allCards, agents), permutations[..], 0))
    {
      ghost var cards := Pattern(allCards, agents);
      ghost var perms := permutations[..];
      h := 0;
      var i := 0;
      while i < |agents|
        invariant 0 <= i <= |agents|
        invariant h == ToUInt(HashFrom(cards, perms, 0) - HashFrom(cards, perms, i))
      {
        var card1 := allCards[agents[i]];
        var preceding := CountPreceding(allCards, agents, i, card1);
        assert card1 - preceding == Relabel(cards, i) && permutations[i] == perms[i];
        HashStep(cards, perms, i, h);
        h := ToUInt(h + ToUInt(ToUInt(card1 - preceding) * ToUInt(permutations[i])));
        i := i + 1;
      }
    }

    /** estimateSize: the table's bytes (one per cell count per place value
        of agent 0) plus the place values themselves, in unchecked `ulong`. */
    function EstimateSize(): (r: int)
      reads this, permutations
      requires permutations.Length >= 1
      ensures 0 <= r < ULONG_RANGE
      ensures permutations.Length == |agents| && ExactPermutations(permutations[..], nLocations)
              && 0 <= nLocations && 0 <= Arrangements(nLocations, 0, |agents|) * nLocations + 8 * |agents| < ULONG_RANGE
              ==> r == Arrangements(nLocations, 0, |agents|) * nLocations + 8 * |agents|
    {
      ToULong(ToULong(permutations[0] * nLocations) + 8 * permutations.Length)
    }
  }

  /** When the table fits in a `uint` index, the wrapped hash is the exact
      one, so it still indexes the table and is still injective. */
  lemma WrappedHash(a: seq<int>, b: seq<int>, perms: seq<int>, L: int)
    requires |a| == |b| == |perms| >= 1 && Placement(a, L) && Placement(b, L) && ExactPermutations(perms, L)
    requires TableSize(L, |a|) <= UINT_RANGE
    ensures ToUInt(HashFrom(a, perms, 0)) == HashFrom(a, perms, 0) < TableSize(L, |a|)
    ensures ToUInt(HashFrom(a, perms, 0)) == ToUInt(HashFrom(b, perms, 0)) ==> a == b
  {
    HashInTable(a, perms, L);
    HashInTable(b, perms, L);
    if ToUInt(HashFrom(a, perms, 0)) == ToUInt(HashFrom(b, perms, 0)) {
      HashInjective(a, b, perms, L);
    }
  }
}

// The conflict-count bookkeeping of A_Star_MDDs.cs: per-agent child deltas,
// the memoised "can the remaining delta be met exactly" test, the remaining
// budget update, the node order, and the odometer that enumerates child
// combinations.

module AStarMdds {
  import opened FixedWidth

  const BYTE_MAX: int := 0xFF

  /** Every delta is a byte. */
  predicate Bytes(deltas: seq<seq<int>>)
  {
    forall i, j :: 0 <= i < |deltas| && 0 <= j < |deltas[i]| ==> 0 <= deltas[i][j] < BYTE_RANGE
  }

  // ---------------------------------------------------------------------
  // What existsChildForConflictCount decides

  /** Agents i.. can each pick a child so that the deltas add up to r. */
  ghost predicate Exists(deltas: seq<seq<int>>, i: nat, r: int)
    requires i <= |deltas|
    decreases |deltas| - i
  {
    if i == |deltas| then r == 0
    else exists j :: 0 <= j < |deltas[i]| && deltas[i][j] <= r && Exists(deltas, i + 1, r - deltas[i][j])
  }

  /** c picks one child for each of agents i..|deltas|-1. */
  predicate IsChoice(deltas: seq<seq<int>>, i: nat, c: seq<int>)
    requires i <= |deltas|
  {
    |c| == |deltas| - i && forall k :: 0 <= k < |c| ==> 0 <= c[k] < |deltas[i + k]|
  }

  /** The total delta of a choice. */
  function ChoiceSum(deltas: seq<seq<int>>, i: nat, c: seq<int>): int
    requires i <= |deltas| && IsChoice(deltas, i, c)
    decreases |c|
  {
    if |c| == 0 then 0 else deltas[i][c[0]] + ChoiceSum(deltas, i + 1, c[1..])
  }

  lemma {:induction false} ChoiceSumNonNegative(deltas: seq<seq<int>>, i: nat, c: seq<int>)
    requires i <= |deltas| && IsChoice(deltas, i, c) && Bytes(deltas)
    ensures ChoiceSum(deltas, i, c) >= 0
    decreases |c|
  {
    if |c| > 0 {
      ChoiceSumNonNegative(deltas, i + 1, c[1..]);
    }
  }

  /** Exists is exactly the existence of a choice of children, one per
      agent from i on, whose deltas sum to r. */
  lemma {:induction false} ExistsIffChoice(deltas: seq<seq<int>>, i: nat, r: int)
    requires i <= |deltas| && Bytes(deltas)
    ensures Exists(deltas, i, r) <==> exists c :: IsChoice(deltas, i, c) && ChoiceSum(deltas, i, c) == r
    decreases |deltas| - i
  {
    if i == |deltas| {
      if r == 0 {
        assert IsChoice(deltas, i, []) && ChoiceSum(deltas, i, []) == 0;
      }
    } else {
      if Exists(deltas, i, r) {
        var j :| 0 <= j < |deltas[i]| && deltas[i][j] <= r && Exists(deltas, i + 1, r - deltas[i][j]);
        ExistsIffChoice(deltas, i + 1, r - deltas[i][j]);
        var c :| IsChoice(deltas, i + 1, c) && ChoiceSum(deltas, i + 1, c) == r - deltas[i][j];
        var c2 := [j] + c;
        assert c2[1..] == c;
        assert IsChoice(deltas, i, c2);
      }
      if exists c :: IsChoice(deltas, i, c) && ChoiceSum(deltas, i, c) == r {
        var c :| IsChoice(deltas, i, c) && ChoiceSum(deltas, i, c) == r;
        var j := c[0];
        ChoiceSumNonNegative(deltas, i + 1, c[1..]);
        ExistsIffChoice(deltas, i + 1, r - deltas[i][j]);
        assert IsChoice(deltas, i + 1, c[1..]);
      }
    }
  }

  /** No choice reaches beyond the sum of the per-agent maxima. */
  lemma {:induction false} ExistsBounded(deltas: seq<seq<int>>, i: nat, r: int)
    requires i <= |deltas| && Bytes(deltas) && Exists(deltas, i, r)
    ensures 0 <= r <= MaxSum(deltas, i)
    decreases |deltas| - i
  {
    if i < |deltas| {
      var j :| 0 <= j < |deltas[i]| && deltas[i][j] <= r && Exists(deltas, i + 1, r - deltas[i][j]);
      ExistsBounded(deltas, i + 1, r - deltas[i][j]);
      RowMaxIsMax(deltas[i], |deltas[i]|);
    }
  }

  // ---------------------------------------------------------------------
  // The delta table and its maximum

  /** The largest of row[0..k), or -1 for none. */
  function RowMax(row: seq<int>, k: nat): int
    requires k <= |row|
  {
    if k == 0 then -1
    else
      var m := RowMax(row, k - 1);
      if row[k - 1] > m then row[k - 1] else m
  }

  lemma {:induction false} RowMaxIsMax(row: seq<int>, k: nat)
    requires k <= |row|
    ensures forall j :: 0 <= j < k ==> row[j] <= RowMax(row, k)
    ensures RowMax(row, k) == -1 || exists j :: 0 <= j < k && row[j] == RowMax(row, k)
  {
    if k > 0 {
      RowMaxIsMax(row, k - 1);
    }
  }

  /** The sum of the per-agent maximum deltas of agents i.. (an agent with
      no children adds nothing). */
  function MaxSum(deltas: seq<seq<int>>, i: nat): int
    requires i <= |deltas|
    decreases |deltas| - i
  {
    if i == |deltas| then 0
    else (if |deltas[i]| == 0 then 0 else RowMax(deltas[i], |deltas[i]|)) + MaxSum(deltas, i + 1)
  }

  /** The part of the sum that agents 0..k-1 contribute, in ushort
      arithmetic, or 0 once an agent without children was met. */
  function MaxDeltaUpTo(deltas: seq<seq<int>>, k: nat): int
    requires k <= |deltas|
  {
    if k == 0 then 0
    else if |deltas[k - 1]| == 0 then 0
    else if exists a :: 0 <= a < k - 1 && |deltas[a]| == 0 then 0
    else ToUShort(MaxDeltaUpTo(deltas, k - 1) + RowMax(deltas[k - 1], |deltas[k - 1]|))
  }

  /** The byte cast of the conflict counts. */
  function ToDeltas(counts: seq<seq<int>>): (d: seq<seq<int>>)
    ensures |d| == |counts| && Bytes(d)
    ensures forall i :: 0 <= i < |d| ==> |d[i]| == |counts[i]|
    ensures forall i, j :: 0 <= i < |d| && 0 <= j < |d[i]| ==> d[i][j] == ToByte(counts[i][j])
  {
    seq(|counts|, i requires 0 <= i < |counts| => seq(|counts[i]|, j requires 0 <= j < |counts[i]| => ToByte(counts[i][j])))
  }

  /** Without a childless agent and without ushort overflow, the maximum
      is the sum of the per-agent maxima, so every reachable delta is at
      most maxDeltaConflictCount and has its row in the lookup table. */
  lemma {:induction false} MaxDeltaIsSum(deltas: seq<seq<int>>, k: nat)
    requires k <= |deltas| && Bytes(deltas)
    requires forall a :: 0 <= a < k ==> |deltas[a]| > 0
    requires MaxSum(deltas[..k], 0) < USHORT_RANGE
    ensures MaxDeltaUpTo(deltas, k) == MaxSum(deltas[..k], 0)
  {
    if k > 0 {
      var p, q := deltas[..k - 1], deltas[..k];
      assert q[..k - 1] == p;
      MaxSumSnoc(q);
      RowMaxIsMax(deltas[k - 1], |deltas[k - 1]|);
      MaxSumNonNegative(p, 0);
      MaxDeltaIsSum(deltas, k - 1);
    }
  }

  lemma {:induction false} MaxSumNonNegative(deltas: seq<seq<int>>, i: nat)
    requires i <= |deltas| && Bytes(deltas)
    ensures MaxSum(deltas, i) >= 0
    decreases |deltas| - i
  {
    if i < |deltas| {
      MaxSumNonNegative(deltas, i + 1);
      if |deltas[i]| > 0 {
        RowMaxIsMax(deltas[i], |deltas[i]|);
      }
    }
  }

  /** The sum over a list splits off its last row. */
  lemma MaxSumSnoc(q: seq<seq<int>>)
    requires |q| > 0
    ensures MaxSum(q, 0) == MaxSum(q[..|q| - 1], 0)
      + (if |q[|q| - 1]| == 0 then 0 else RowMax(q[|q| - 1], |q[|q| - 1]|))
  {
    MaxSumShift(q, |q| - 1, 0);
  }

  lemma {:induction false} MaxSumShift(q: seq<seq<int>>, m: nat, i: nat)
    requires i <= m < |q|
    ensures MaxSum(q, i) == MaxSum(q[..m], i)
      + (if |q[m]| == 0 then 0 else RowMax(q[m], |q[m]|)) + MaxSum(q, m + 1)
    decreases m - i
  {
    if i < m {
      MaxSumShift(q, m, i + 1);
    }
  }

  // ---------------------------------------------------------------------
  // existsChildForConflictCount as written

  /** The recursion as written: the remaining target passed down is cast to
      a byte. */
  ghost predicate ExistsAsWritten(deltas: seq<seq<int>>, i: nat, r: int)
    requires i <= |deltas|
    decreases |deltas| - i
  {
    if i == |deltas| then r == 0
    else exists j :: 0 <= j < |deltas[i]| && deltas[i][j] <= r && ExistsAsWritten(deltas, i + 1, ToByte(r - deltas[i][j]))
  }

  /** Below 256 the cast changes nothing: the recursion as written is right
      for every target that fits in a byte. */
  lemma {:induction false} AsWrittenAgreesBelowByte(deltas: seq<seq<int>>, i: nat, r: int)
    requires i <= |deltas| && Bytes(deltas) && 0 <= r < BYTE_RANGE
    ensures ExistsAsWritten(deltas, i, r) == Exists(deltas, i, r)
    decreases |deltas| - i
  {
    if i < |deltas| {
      forall j | 0 <= j < |deltas[i]| && deltas[i][j] <= r
        ensures ExistsAsWritten(deltas, i + 1, ToByte(r - deltas[i][j])) == Exists(deltas, i + 1, r - deltas[i][j])
      {
        AsWrittenAgreesBelowByte(deltas, i + 1, r - deltas[i][j]);
      }
    }
  }

  /** Four agents whose child deltas sum to 10, 210 or 410. */
  const EXAMPLE: seq<seq<int>> := [[0], [10], [0, 200], [0, 200]]

  /** In EXAMPLE a target of 266 is within the lookup table
      (maxDeltaConflictCount is 410) and cannot be met, but the byte cast
      turns 266 into 10 and the recursion as written reports a child. */
  lemma ByteCastFalsePositive()
    ensures ExistsAsWritten(EXAMPLE, 0, 266) && !Exists(EXAMPLE, 0, 266) && MaxSum(EXAMPLE, 0) == 410
  {
    AsWrittenReaches(EXAMPLE);
    ExampleUnreachable(EXAMPLE);
    ExampleMax(EXAMPLE);
  }

  lemma AsWrittenReaches(d: seq<seq<int>>)
    requires |d| == 4 && d[0] == [0] && d[1] == [10]
    requires |d[2]| > 0 && d[2][0] == 0 && |d[3]| > 0 && d[3][0] == 0
    ensures ExistsAsWritten(d, 0, 266)
  {
    ZeroTail(d, 2);
    assert ToByte(10 - d[1][0]) == 0;
    assert ExistsAsWritten(d, 1, 10);
    assert ToByte(266 - d[0][0]) == 10;
  }

  /** Agents i.. that all have a zero-delta first child meet a target of 0. */
  lemma {:induction false} ZeroTail(d: seq<seq<int>>, i: nat)
    requires i <= |d| && forall k :: i <= k < |d| ==> |d[k]| > 0 && d[k][0] == 0
    ensures ExistsAsWritten(d, i, 0)
    decreases |d| - i
  {
    if i < |d| {
      ZeroTail(d, i + 1);
      assert ToByte(0 - d[i][0]) == 0;
    }
  }

  lemma ExampleUnreachable(d: seq<seq<int>>)
    requires d == EXAMPLE
    ensures !Exists(d, 0, 266)
  {
    TwoLevels(d, 2, 256);
    SingleChild(d, 1, 266, 10);
    SingleChild(d, 0, 266, 0);
  }

  /** An agent with one child passes the target on, less that child's delta. */
  lemma SingleChild(d: seq<seq<int>>, i: nat, r: int, x: int)
    requires i < |d| && d[i] == [x] && !Exists(d, i + 1, r - x)
    ensures !Exists(d, i, r)
  {
  }

  lemma ExampleMax(d: seq<seq<int>>)
    requires d == EXAMPLE
    ensures MaxSum(d, 0) == 410
  {
    assert RowMax(d[2], 2) == 200 && RowMax(d[3], 2) == 200 && RowMax(d[1], 1) == 10 && RowMax(d[0], 1) == 0;
  }

  /** The last two agents of the example, each choosing delta 0 or 200. */
  lemma TwoLevels(d: seq<seq<int>>, i: nat, s: int)
    requires i + 2 == |d| && d[i] == [0, 200] && d[i + 1] == [0, 200]
    requires s != 0 && s != 200 && s != 400
    ensures !Exists(d, i, s)
  {
    OneLevel(d, i + 1, s);
    OneLevel(d, i + 1, s - 200);
  }

  lemma OneLevel(d: seq<seq<int>>, i: nat, s: int)
    requires i + 1 == |d| && d[i] == [0, 200] && s != 0 && s != 200
    ensures !Exists(d, i, s)
  {
  }

  // ---------------------------------------------------------------------
  // The node

  class MddsNode {
    /** singleAgentDeltaConflictCounts: per agent, per child, the byte
        delta of the conflict count. */
    var deltas: seq<seq<int>>
    var maxDeltaConflictCount: int
    /** conflictCountLookup, one row per agent: 1 known reachable, -1 known
        unreachable, 0 unknown. */
    var lookup: seq<seq<int>>
    var targetDeltaConflictCount: int
    var remainingDeltaConflictCount: int
    var conflictCount: int
    /** GetDepth: the time of the agents' current step. */
    var depth: int

    /** Every known answer agrees with Exists. */
    ghost predicate MemoSound()
      reads this
    {
      |lookup| == |deltas|
      && forall a, v :: 0 <= a < |lookup| && 0 <= v < |lookup[a]| ==>
           -1 <= lookup[a][v] <= 1 && (lookup[a][v] == 1 ==> Exists(deltas, a, v)) && (lookup[a][v] == -1 ==> !Exists(deltas, a, v))
    }

    /** calcSingleAgentDeltaConflictCounts: `counts[i][j]` is the number of
        conflict table entries at agent i's child j (0 without a table). */
    method CalcSingleAgentDeltaConflictCounts(counts: seq<seq<int>>)
      modifies this`deltas, this`maxDeltaConflictCount, this`lookup
      ensures deltas == ToDeltas(counts)
      ensures maxDeltaConflictCount == MaxDeltaUpTo(deltas, |deltas|)
      ensures |lookup| == |deltas| && forall a :: 0 <= a < |lookup| ==> lookup[a] == seq(maxDeltaConflictCount + 1, _ => 0)
      ensures MemoSound()
    {
      var d := ToDeltas(counts);
      var maxDelta := MaxDelta(d);
      var row := seq(maxDelta + 1, _ => 0);
      deltas, maxDeltaConflictCount, lookup := d, maxDelta, seq(|d|, _ => row);
    }

    /** UpdateRemainingDeltaConflictCount: spends the chosen child's delta,
        or marks the budget ushort.MaxValue when the move is illegal (delta
        byte.MaxValue) or over budget. The source asserts that the budget
        is not already the marker. */
    method UpdateRemainingDeltaConflictCount(mddIndex: nat, childIndex: nat)
      requires mddIndex < |deltas| && childIndex < |deltas[mddIndex]|
      requires remainingDeltaConflictCount != USHORT_MAX
      modifies this`remainingDeltaConflictCount
      ensures var d := deltas[mddIndex][childIndex];
        remainingDeltaConflictCount ==
          if d != BYTE_MAX && old(remainingDeltaConflictCount) >= d then old(remainingDeltaConflictCount) - d
          else USHORT_MAX
    {
      var d := deltas[mddIndex][childIndex];
      if d != BYTE_MAX && remainingDeltaConflictCount >= d {
        remainingDeltaConflictCount := remainingDeltaConflictCount - d;
      } else {
        remainingDeltaConflictCount := USHORT_MAX;
      }
    }

    /** existsChildForConflictCount with the byte cast dropped: whether
        agents mddIndex.. can pick children whose deltas sum to the
        remaining target, answering from and filling the lookup table. */
    method ExistsChildForConflictCount(mddIndex: nat, remaining: int) returns (b: bool)
      requires mddIndex <= |deltas| && Bytes(deltas) && MemoSound()
      requires 0 <= remaining && forall a :: 0 <= a < |lookup| ==> remaining < |lookup[a]|
      modifies this`lookup
      ensures b == Exists(deltas, mddIndex, remaining)
      ensures MemoSound() && |lookup| == old(|lookup|)
      ensures forall a :: 0 <= a < |lookup| ==> |lookup[a]| == old(|lookup[a]|)
      decreases |deltas| - mddIndex
    {
      if mddIndex == |deltas| {
        return remaining == 0;
      }
      var known := lookup[mddIndex][remaining];
      if known != 0 {
        return known == 1;
      }
      var row := deltas[mddIndex];
      var i := 0;
      while i < |row|
        invariant 0 <= i <= |row| && MemoSound() && |lookup| == old(|lookup|)
        invariant forall a :: 0 <= a < |lookup| ==> |lookup[a]| == old(|lookup[a]|)
        invariant forall k :: 0 <= k < i ==> !(row[k] <= remaining && Exists(deltas, mddIndex + 1, remaining - row[k]))
      {
        if row[i] <= remaining {
          var found := ExistsChildForConflictCount(mddIndex + 1, remaining - row[i]);
          if found {
            Remember(mddIndex, remaining, 1);
            return true;
          }
        }
        i := i + 1;
      }
      Remember(mddIndex, remaining, -1);
      return false;
    }

    /** One lookup table write. */
    method Remember(a: nat, v: nat, answer: int)
      requires MemoSound() && a < |lookup| && v < |lookup[a]|
      requires answer == 1 || answer == -1
      requires answer == 1 ==> Exists(deltas, a, v)
      requires answer == -1 ==> !Exists(deltas, a, v)
      modifies this`lookup
      ensures lookup == old(lookup[a := lookup[a][v := answer]]) && MemoSound()
    {
      lookup := lookup[a := lookup[a][v := answer]];
    }

    /** CompareTo: fewer conflicts (counted with the target delta) first,
        then the deeper node. */
    function CompareTo(that: MddsNode): (r: int)
      reads this, that
      ensures r == -1 <==> (conflictCount + targetDeltaConflictCount < that.conflictCount + that.targetDeltaConflictCount
        || (conflictCount + targetDeltaConflictCount == that.conflictCount + that.targetDeltaConflictCount && depth > that.depth))
      ensures r == 0 <==> conflictCount + targetDeltaConflictCount == that.conflictCount + that.targetDeltaConflictCount && depth == that.depth
      ensures r == 0 || r == -1 || r == 1
    {
      var mine, theirs := conflictCount + targetDeltaConflictCount, that.conflictCount + that.targetDeltaConflictCount;
      if mine < theirs then -1
      else if mine > theirs then 1
      else if depth > that.depth then -1
      else if depth < that.depth then 1
      else 0
    }
  }

  /** The node order is antisymmetric and transitive. */
  lemma CompareToOrder(a: MddsNode, b: MddsNode, c: MddsNode)
    ensures a.CompareTo(b) == -b.CompareTo(a)
    ensures a.CompareTo(b) == -1 && b.CompareTo(c) == -1 ==> a.CompareTo(c) == -1
  {
  }

  /** The outer loop of calcSingleAgentDeltaConflictCounts: the ushort sum
      of the agents' largest deltas, reset to 0 at the first agent without
      children. */
  method MaxDelta(d: seq<seq<int>>) returns (maxDelta: int)
    requires Bytes(d)
    ensures maxDelta == MaxDeltaUpTo(d, |d|)
  {
    maxDelta := 0;
    var i := 0;
    while i < |d|
      invariant 0 <= i <= |d|
      invariant forall a :: 0 <= a < i ==> |d[a]| > 0
      invariant maxDelta == MaxDeltaUpTo(d, i)
    {
      var best := AgentMax(d[i]);
      if best == -1 {
        maxDelta := 0;
        assert |d[i]| == 0;
        FirstEmptyStops(d, i);
        break;
      }
      maxDelta := ToUShort(maxDelta + best);
      i := i + 1;
    }
  }

  /** The inner loop of calcSingleAgentDeltaConflictCounts: the largest
      delta of one agent's children, -1 for none. */
  method AgentMax(row: seq<int>) returns (m: int)
    ensures m == RowMax(row, |row|)
    ensures forall j :: 0 <= j < |row| ==> row[j] <= m
    ensures m == -1 || exists j :: 0 <= j < |row| && row[j] == m
  {
    m := -1;
    var j := 0;
    while j < |row|
      invariant 0 <= j <= |row| && m == RowMax(row, j)
    {
      m := if row[j] > m then row[j] else m;
      j := j + 1;
    }
    RowMaxIsMax(row, |row|);
  }

  /** After the first childless agent the maximum stays 0. */
  lemma {:induction false} FirstEmptyStops(d: seq<seq<int>>, i: nat)
    requires i < |d| && |d[i]| == 0
    ensures MaxDeltaUpTo(d, |d|) == 0
  {
    var k := |d|;
    if k - 1 > i {
      assert 0 <= i < k - 1 && |d[i]| == 0;
    }
  }

  // ---------------------------------------------------------------------
  // The child enumerator

  /** The mixed-radix value of digits c[0..k) with radices counts[0..k),
      most significant first. */
  function Value(c: seq<int>, counts: seq<int>, k: nat): int
    requires k <= |c| && k <= |counts|
  {
    if k == 0 then 0 else Value(c, counts, k - 1) * counts[k - 1] + c[k - 1]
  }

  /** The number of combinations of digits 0..k-1. */
  function Combinations(counts: seq<int>, k: nat): int
    requires k <= |counts|
  {
    if k == 0 then 1 else Combinations(counts, k - 1) * counts[k - 1]
  }

  /** Digits 0..k-1 are valid child indices. */
  predicate Digits(c: seq<int>, counts: seq<int>, k: nat)
    requires k <= |c| && k <= |counts|
  {
    forall i :: 0 <= i < k ==> 0 <= c[i] < counts[i]
  }

  lemma {:induction false} ValueBelowCombinations(c: seq<int>, counts: seq<int>, k: nat)
    requires k <= |c| && k <= |counts| && Digits(c, counts, k)
    ensures 0 <= Value(c, counts, k) < Combinations(counts, k)
  {
    if k > 0 {
      ValueBelowCombinations(c, counts, k - 1);
      var v, n, d := Value(c, counts, k - 1), Combinations(counts, k - 1), counts[k - 1];
      assert v * d + c[k - 1] < n * d by {
        assert (v + 1) * d <= n * d by { MulMono(v + 1, n, d); }
      }
      assert v * d >= 0 by { MulMono(0, v, d); }
    }
  }

  lemma MulMono(a: int, b: int, d: int)
    requires a <= b && d >= 0
    ensures a * d <= b * d
  {
  }

  /** A_Star_MDDs_Expander: `counts[i]` is the number of children of agent
      i's MDD node, `chosenChild` the next combination to produce. */
  class Expander {
    var counts: seq<int>
    var chosenChild: array<int>

    /** The constructor and Setup: all first children, or the end marker -1
        at index 0 when some agent has no child. */
    constructor (counts: seq<int>)
      requires forall i :: 0 <= i < |counts| ==> counts[i] >= 0
      ensures this.counts == counts && fresh(chosenChild) && chosenChild.Length == |counts|
      ensures (exists i :: 0 <= i < |counts| && counts[i] == 0) ==> chosenChild[0] == -1
      ensures (forall i :: 0 <= i < |counts| ==> counts[i] > 0) ==> forall i :: 0 <= i < |counts| ==> chosenChild[i] == 0
    {
      this.counts := counts;
      var c := new int[|counts|](_ => 0);
      var i := 0;
      while i < |counts|
        invariant 0 <= i <= |counts|
        invariant forall k :: 0 <= k < i ==> counts[k] > 0
        invariant forall k :: 0 <= k < |counts| ==> c[k] == 0
      {
        if counts[i] == 0 {
          c[0] := -1;
          break;
        }
        i := i + 1;
      }
      chosenChild := c;
    }

    /** SetNextChildIndices(agentNum): one odometer step on digits
        0..agentNum. */
    method SetNextChildIndices(agentNum: int)
      requires -1 <= agentNum < chosenChild.Length == |counts| && chosenChild.Length >= 1
      modifies chosenChild
      ensures chosenChild[..] == Next(old(chosenChild[..]), counts, agentNum)
      decreases agentNum + 1
    {
      if agentNum == -1 {
        chosenChild[0] := -1;
      } else if chosenChild[agentNum] < counts[agentNum] - 1 {
        chosenChild[agentNum] := chosenChild[agentNum] + 1;
      } else {
        chosenChild[agentNum] := 0;
        SetNextChildIndices(agentNum - 1);
      }
    }
  }

  /** The odometer step on digits 0..a: the last digit that is not at its
      maximum goes up by one and the digits after it return to 0; when
      every digit is at its maximum, all of them return to 0 and digit 0
      becomes the end marker -1. */
  function Next(c: seq<int>, counts: seq<int>, a: int): (n: seq<int>)
    requires -1 <= a < |c| == |counts| && |c| >= 1
    ensures |n| == |c| && forall i :: a < i < |c| && 0 < i ==> n[i] == c[i]
    decreases a + 1
  {
    if a == -1 then c[0 := -1]
    else if c[a] < counts[a] - 1 then c[a := c[a] + 1]
    else Next(c[a := 0], counts, a - 1)
  }

  /** The step adds one to the value of digits 0..a, unless that passes the
      last combination, in which case the digits are 0 and index 0 is -1. */
  lemma {:induction false} NextIsSuccessor(c: seq<int>, counts: seq<int>, a: int)
    requires -1 <= a < |c| == |counts| && |c| >= 1 && Digits(c, counts, a + 1)
    ensures var v, n := Value(c, counts, a + 1), Next(c, counts, a);
      if v + 1 < Combinations(counts, a + 1) then
        Digits(n, counts, a + 1) && Value(n, counts, a + 1) == v + 1
      else
        n[0] == -1 && forall i :: 1 <= i <= a ==> n[i] == 0
    decreases a + 1
  {
    if a >= 0 {
      ValueBelowCombinations(c, counts, a + 1);
      var d := counts[a];
      if c[a] < d - 1 {
        var n := c[a := c[a] + 1];
        ValuePrefix(c, n, counts, a);
        ValueBelowCombinations(n, counts, a + 1);
      } else {
        var z := c[a := 0];
        ValuePrefix(c, z, counts, a);
        NextIsSuccessor(z, counts, a - 1);
        var n := Next(z, counts, a - 1);
        var v, C := Value(c, counts, a), Combinations(counts, a);
        assert Value(c, counts, a + 1) == v * d + (d - 1);
        ValueBelowCombinations(c, counts, a);
        if v + 1 < C {
          assert Value(n, counts, a + 1) == (v + 1) * d + n[a];
          CarryArith(v, d, C);
        } else {
          CarryEnd(v, d, C);
        }
      }
    }
  }

  /** The carry adds one, and stays below the combinations when the prefix
      does. */
  lemma CarryArith(v: int, d: int, C: int)
    requires 0 <= v && v + 1 < C && d >= 1
    ensures v * d + (d - 1) + 1 == (v + 1) * d + 0 && (v + 1) * d < C * d
  {
    MulMono(v + 1, C - 1, d);
  }

  /** The carry out of the last prefix reaches the combination count. */
  lemma CarryEnd(v: int, d: int, C: int)
    requires v < C <= v + 1
    ensures v * d + (d - 1) + 1 >= C * d
  {
  }

  /** Digits before k decide the value of a k-digit prefix. */
  lemma {:induction false} ValuePrefix(a: seq<int>, b: seq<int>, counts: seq<int>, k: nat)
    requires k <= |a| && k <= |b| && k <= |counts|
    requires forall i :: 0 <= i < k ==> a[i] == b[i]
    ensures Value(a, counts, k) == Value(b, counts, k)
  {
    if k > 0 {
      ValuePrefix(a, b, counts, k - 1);
    }
  }
}

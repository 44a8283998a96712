// Increasing-cost-tree nodes (CostTreeNodeSolver.cs): a node is a tuple of
// per-agent costs; expanding it raises one agent's cost by one.

module CostTree {
  import opened Wrappers
  import opened FixedWidth

  datatype CostTreeNode = CostTreeNode(costs: seq<int>)

  /** The child that raises agent j's cost (an unchecked `int` increment). */
  function Child(node: CostTreeNode, j: nat): (child: CostTreeNode)
    requires j < |node.costs|
    ensures |child.costs| == |node.costs|
    ensures forall i :: 0 <= i < |node.costs| && i != j ==> child.costs[i] == node.costs[i]
    ensures child.costs[j] == ToInt(node.costs[j] + 1)
  {
    CostTreeNode(node.costs[j := ToInt(node.costs[j] + 1)])
  }

  /** Children for different agents differ (on int32 costs the increment
      never wraps back to the same value). */
  lemma ChildrenDistinct(node: CostTreeNode, j: nat, k: nat)
    requires j < |node.costs| && k < |node.costs| && j != k && IsInt(node.costs[j])
    ensures Child(node, j) != Child(node, k)
  {
    assert Child(node, j).costs[j] != Child(node, k).costs[j];
  }

  /** The children among 0..k-1 that are not in `closed`, in index order. */
  function NewChildren(node: CostTreeNode, closed: set<CostTreeNode>, k: nat): (r: seq<CostTreeNode>)
    requires k <= |node.costs|
    ensures |r| <= k
    ensures forall c :: c in r ==> c !in closed
    ensures forall c :: c in r ==> exists j :: 0 <= j < k && c == Child(node, j)
    ensures forall j :: 0 <= j < k && Child(node, j) !in closed ==> Child(node, j) in r
  {
    if k == 0 then []
    else
      var c := Child(node, k - 1);
      NewChildren(node, closed, k - 1) + (if c in closed then [] else [c])
  }

  /** The children for agents 0..k-1. */
  ghost function ChildSet(node: CostTreeNode, k: nat): set<CostTreeNode>
    requires k <= |node.costs|
  {
    if k == 0 then {} else ChildSet(node, k - 1) + {Child(node, k - 1)}
  }

  lemma {:induction false} ChildSetMembers(node: CostTreeNode, k: nat, c: CostTreeNode)
    requires k <= |node.costs|
    ensures c in ChildSet(node, k) <==> exists j :: 0 <= j < k && c == Child(node, j)
  {
    if k > 0 {
      ChildSetMembers(node, k - 1, c);
    }
  }

  /** Child j is not among the children of the earlier agents. */
  lemma {:induction false} ChildNotYet(node: CostTreeNode, j: nat, k: nat)
    requires k <= j < |node.costs| && IsInt(node.costs[j])
    ensures Child(node, j) !in ChildSet(node, k)
  {
    if k > 0 {
      ChildNotYet(node, j, k - 1);
      ChildrenDistinct(node, j, k - 1);
    }
  }

  /** All int32 costs. */
  ghost predicate IntCosts(node: CostTreeNode)
  {
    forall i :: 0 <= i < |node.costs| ==> IsInt(node.costs[i])
  }

  /** No child is listed twice. */
  lemma {:induction false} NewChildrenUnique(node: CostTreeNode, closed: set<CostTreeNode>, k: nat)
    requires k <= |node.costs| && IntCosts(node)
    ensures forall a, b :: 0 <= a < b < |NewChildren(node, closed, k)| ==>
      NewChildren(node, closed, k)[a] != NewChildren(node, closed, k)[b]
  {
    if k > 0 {
      NewChildrenUnique(node, closed, k - 1);
      var front := NewChildren(node, closed, k - 1);
      var c := Child(node, k - 1);
      forall x | x in front ensures x != c {
        var j :| 0 <= j < k - 1 && x == Child(node, j);
        ChildrenDistinct(node, k - 1, j);
      }
      var r := NewChildren(node, closed, k);
      forall a, b | 0 <= a < b < |r| ensures r[a] != r[b] {
        if b < |front| {
          assert r[a] == front[a] && r[b] == front[b];
        } else {
          assert r[b] == c && r[a] == front[a] && front[a] in front;
        }
      }
    }
  }

  /** Expand: every child goes into the closed list; the ones not already
      there are also enqueued, in agent order. */
  method Expand(node: CostTreeNode, openList: seq<CostTreeNode>, closedList: set<CostTreeNode>)
    returns (open2: seq<CostTreeNode>, closed2: set<CostTreeNode>)
    requires IntCosts(node)
    ensures closed2 == closedList + ChildSet(node, |node.costs|)
    ensures open2 == openList + NewChildren(node, closedList, |node.costs|)
  {
    open2, closed2 := openList, closedList;
    var j := 0;
    while j < |node.costs|
      invariant 0 <= j <= |node.costs|
      invariant closed2 == closedList + ChildSet(node, j)
      invariant open2 == openList + NewChildren(node, closedList, j)
    {
      open2, closed2 := ExpandChild(node, openList, closedList, open2, closed2, j);
      j := j + 1;
    }
  }

  /** The body of Expand's loop for child j: closed and, when new, enqueued. */
  method ExpandChild(node: CostTreeNode, openList: seq<CostTreeNode>, closedList: set<CostTreeNode>,
                     open1: seq<CostTreeNode>, closed1: set<CostTreeNode>, j: nat)
    returns (open2: seq<CostTreeNode>, closed2: set<CostTreeNode>)
    requires j < |node.costs| && IntCosts(node)
    requires closed1 == closedList + ChildSet(node, j) && open1 == openList + NewChildren(node, closedList, j)
    ensures closed2 == closedList + ChildSet(node, j + 1)
    ensures open2 == openList + NewChildren(node, closedList, j + 1)
  {
    var child := Child(node, j);
    ExpandStep(node, closedList, closed1, j);
    open2, closed2 := open1, closed1;
    if child !in closed2 {
      closed2 := closed2 + {child};
      open2 := open2 + [child];
    }
  }

  /** One iteration of Expand's loop: child j is in the closed list so far
      exactly when it was there before the expansion. */
  lemma ExpandStep(node: CostTreeNode, closedList: set<CostTreeNode>, closed2: set<CostTreeNode>, j: nat)
    requires j < |node.costs| && IntCosts(node) && closed2 == closedList + ChildSet(node, j)
    ensures var c := Child(node, j);
      && (c in closed2 <==> c in closedList)
      && closedList + ChildSet(node, j + 1) == closed2 + {c}
      && (c in closed2 ==> closed2 + {c} == closed2)
      && NewChildren(node, closedList, j + 1) == NewChildren(node, closedList, j) + (if c in closedList then [] else [c])
  {
    ChildNotYet(node, j, j);
  }

  /** costs[lo] + ... + costs[hi - 1] (0 when lo >= hi). */
  function SumRange(costs: seq<int>, lo: int, hi: int): int
    requires lo >= hi || (0 <= lo && hi <= |costs|)
    decreases hi - lo
  {
    if lo >= hi then 0 else SumRange(costs, lo, hi - 1) + costs[hi - 1]
  }

  /** Sums over adjacent ranges add up. */
  lemma {:induction false} SumSplit(costs: seq<int>, a: int, b: int, c: int)
    requires 0 <= a <= b <= c <= |costs|
    ensures SumRange(costs, a, b) + SumRange(costs, b, c) == SumRange(costs, a, c)
    decreases c - b
  {
    if b < c {
      SumSplit(costs, a, b, c - 1);
    }
  }

  /** Sum: the costs of agents from..to-1 in unchecked 32-bit arithmetic;
      the first index outside the array throws. */
  method Sum(node: CostTreeNode, from: int, to: int) returns (r: Result<int>)
    ensures r.Err? <==> from < to && (from < 0 || to > |node.costs|)
    ensures r.Err? ==> r.error == IndexOutOfRange
    ensures r.Ok? ==> IsInt(r.value) && r.value == ToInt(SumRange(node.costs, from, to))
  {
    var ans := 0;
    var i := from;
    while i < to
      invariant from <= i && (i <= to || i == from)
      invariant i > from ==> 0 <= from && i <= |node.costs|
      invariant ans == if i > from then ToInt(SumRange(node.costs, from, i)) else 0
    {
      if i < 0 || i >= |node.costs| {
        return Err(IndexOutOfRange);
      }
      ToIntAdd(SumRange(node.costs, from, i), node.costs[i]);
      ans := ToInt(ans + node.costs[i]);
      i := i + 1;
    }
    return Ok(ans);
  }

  /** Constants.PRIMES_FOR_HASHING (22 numbers, the first of them 1). */
  const PRIMES_FOR_HASHING: seq<int> :=
    [1, 2, 3, 5, 7, 11, 13, 17, 19, 23, 29, 31, 37, 41, 43, 47, 53, 59, 61, 71, 73, 79]

  function Prime(i: nat): int
  {
    PRIMES_FOR_HASHING[i % |PRIMES_FOR_HASHING|]
  }

  /** The exact weighted sum of costs[0..k) that GetHashCode wraps. */
  function WeightedSum(costs: seq<int>, k: nat): int
    requires k <= |costs|
  {
    if k == 0 then 0 else WeightedSum(costs, k - 1) + costs[k - 1] * Prime(k - 1)
  }

  /** GetHashCode: the weighted sum of the costs with the primes in turn,
      in unchecked 32-bit arithmetic. */
  method GetHashCode(node: CostTreeNode) returns (ans: int)
    ensures IsInt(ans) && ans == ToInt(WeightedSum(node.costs, |node.costs|))
  {
    ans := 0;
    var i := 0;
    while i < |node.costs|
      invariant 0 <= i <= |node.costs|
      invariant ans == ToInt(WeightedSum(node.costs, i))
    {
      ToIntAdd(WeightedSum(node.costs, i), node.costs[i] * Prime(i));
      ans := ToInt(ans + node.costs[i] * Prime(i));
      i := i + 1;
    }
  }

  lemma {:induction false} WeightedSumBump(costs: seq<int>, j: nat, k: nat)
    requires j < |costs| && k <= |costs|
    ensures WeightedSum(costs[j := costs[j] + 1], k) == WeightedSum(costs, k) + (if j < k then Prime(j) else 0)
  {
    if k > 0 {
      WeightedSumBump(costs, j, k - 1);
      var c, p := costs[k - 1], Prime(k - 1);
      if k - 1 == j {
        assert (c + 1) * p == c * p + p;
      }
    }
  }

  /** Raising agent j's cost by one (without wrap) adds that agent's prime
      to the hash: every child hash follows from its parent's. */
  lemma WeightedSumChild(node: CostTreeNode, j: nat)
    requires j < |node.costs| && -0x8000_0000 <= node.costs[j] < 0x7FFF_FFFF
    ensures WeightedSum(Child(node, j).costs, |node.costs|) == WeightedSum(node.costs, |node.costs|) + Prime(j)
  {
    assert Child(node, j).costs == node.costs[j := node.costs[j] + 1];
    WeightedSumBump(node.costs, j, |node.costs|);
  }

  /** Equals: SequenceEqual of the cost arrays. It is the node's identity,
      so equal nodes hash equally and the closed list, a set of nodes, holds
      each cost tuple once. */
  function Equals(a: CostTreeNode, b: CostTreeNode): (r: bool)
    ensures r <==> a == b
  {
    var same := |a.costs| == |b.costs| && forall i :: 0 <= i < |a.costs| ==> a.costs[i] == b.costs[i];
    assert same ==> a.costs == b.costs;
    same
  }

  /** The running sum of LINQ's Sum, which checks every partial sum for
      32-bit overflow. */
  function CheckedSum(costs: seq<int>, k: nat): (r: Result<int>)
    requires k <= |costs|
    ensures r.Ok? ==> r.value == SumRange(costs, 0, k) && IsInt(r.value)
    ensures r.Err? ==> r.error == Overflow
  {
    if k == 0 then Ok(0)
    else
      match CheckedSum(costs, k - 1)
      case Err(e) => Err(e)
      case Ok(s) => if IsInt(s + costs[k - 1]) then Ok(s + costs[k - 1]) else Err(Overflow)
  }

  /** LINQ's Max: InvalidOperation on an empty array. */
  function MaxOf(costs: seq<int>): (r: Result<int>)
    ensures r.Err? <==> |costs| == 0
    ensures r.Err? ==> r.error == InvalidOperation
    ensures r.Ok? ==> r.value in costs && forall c :: c in costs ==> c <= r.value
  {
    if |costs| == 0 then Err(InvalidOperation)
    else if |costs| == 1 then Ok(costs[0])
    else
      var rest := MaxOf(costs[1..]);
      assert forall c :: c in costs ==> c == costs[0] || c in costs[1..];
      if costs[0] >= rest.value then Ok(costs[0]) else rest
  }

  /** The part of Setup this model covers: totalCost is the sum of the costs
      and maxCost their maximum; the sum is computed (and may overflow)
      before the maximum is taken. */
  function SetupTotals(node: CostTreeNode): (r: Result<(int, int)>)
    ensures r.Ok? ==> r.value.0 == SumRange(node.costs, 0, |node.costs|)
    ensures r.Ok? ==> r.value.1 in node.costs && forall c :: c in node.costs ==> c <= r.value.1
    ensures |node.costs| == 0 ==> r == Err(InvalidOperation)
    ensures r.Err? && |node.costs| > 0 ==> r.error == Overflow
  {
    match CheckedSum(node.costs, |node.costs|)
    case Err(e) => Err(e)
    case Ok(total) =>
      match MaxOf(node.costs)
      case Err(e) => Err(e)
      case Ok(max) => Ok((total, max))
  }

  /** Small costs never overflow the checked sum. */
  lemma {:induction false} CheckedSumSmall(costs: seq<int>, k: nat)
    requires k <= |costs| && forall i :: 0 <= i < |costs| ==> 0 <= costs[i] <= 10000
    requires |costs| <= 10000
    ensures CheckedSum(costs, k) == Ok(SumRange(costs, 0, k))
    ensures 0 <= SumRange(costs, 0, k) <= 10000 * k
  {
    if k > 0 {
      CheckedSumSmall(costs, k - 1);
    }
  }
}

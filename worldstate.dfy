// The A* search node of WorldState.cs: the goal test, the open-list order,
// the g computation and the successor validity check.

module WorldStates {
  import opened FixedWidth

  /** An agent's position, whether its last move is its goal, and the time
      it arrived there. */
  datatype AgentState = AgentState(x: int, y: int, atGoal: bool, arrivalTime: int)

  predicate SameCell(a: AgentState, b: AgentState)
  {
    a.x == b.x && a.y == b.y
  }

  /** The exact sum CalculateG computes: the arrival time of every agent at
      its goal, the makespan for every other agent. */
  function GSum(agents: seq<AgentState>, makespan: int): int
  {
    if |agents| == 0 then 0
    else GSum(agents[..|agents| - 1], makespan) + Cost(agents[|agents| - 1], makespan)
  }

  function Cost(a: AgentState, makespan: int): int
  {
    if a.atGoal then a.arrivalTime else makespan
  }

  /** With arrival times between 0 and the makespan, g lies between 0 and
      makespan per agent, and reaches the top exactly when every agent at its
      goal arrived at the last step. */
  lemma {:induction false} GSumBounds(agents: seq<AgentState>, makespan: int)
    requires forall k :: 0 <= k < |agents| && agents[k].atGoal ==> 0 <= agents[k].arrivalTime <= makespan
    requires makespan >= 0
    ensures 0 <= GSum(agents, makespan) <= |agents| * makespan
    ensures GSum(agents, makespan) == |agents| * makespan <==>
      forall k :: 0 <= k < |agents| && agents[k].atGoal ==> agents[k].arrivalTime == makespan
  {
    if |agents| > 0 {
      var n := |agents|;
      var p := agents[..n - 1];
      GSumBounds(p, makespan);
      assert n * makespan == (n - 1) * makespan + makespan;
      assert forall k :: 0 <= k < n - 1 ==> p[k] == agents[k];
    }
  }

  /** The next state is reachable in one step: no two agents in one cell and
      no two agents swapping cells, checked for i < j. */
  predicate ValidStep(cur: seq<AgentState>, next: seq<AgentState>)
    requires |cur| == |next|
  {
    forall i, j :: 0 <= i < j < |next| ==>
      !SameCell(next[i], next[j]) && !(SameCell(cur[i], next[j]) && SameCell(cur[j], next[i]))
  }

  /** Checking the pairs i < j is checking every pair of distinct agents. */
  lemma ValidStepAllPairs(cur: seq<AgentState>, next: seq<AgentState>)
    requires |cur| == |next|
    ensures ValidStep(cur, next) <==>
      forall i, j :: 0 <= i < |next| && 0 <= j < |next| && i != j ==>
        !SameCell(next[i], next[j]) && !(SameCell(cur[i], next[j]) && SameCell(cur[j], next[i]))
  {
    if ValidStep(cur, next) {
      forall i, j | 0 <= i < |next| && 0 <= j < |next| && i != j
        ensures !SameCell(next[i], next[j]) && !(SameCell(cur[i], next[j]) && SameCell(cur[j], next[i]))
      {
        if j < i {
          assert !SameCell(next[j], next[i]) && !(SameCell(cur[j], next[i]) && SameCell(cur[i], next[j]));
        }
      }
    }
  }

  /** The open-list key: f, potential conflicts, internal conflicts, then the
      larger g first. */
  predicate KeyLess(a: (int, int, int, int), b: (int, int, int, int))
  {
    a.0 < b.0 || (a.0 == b.0 && (a.1 < b.1 || (a.1 == b.1 && (a.2 < b.2 || (a.2 == b.2 && a.3 > b.3)))))
  }

  class WorldState {
    var makespan: int
    var g: int
    var h: int
    var potentialConflictsCount: int
    var dncInternalConflictsCount: int
    var agents: seq<AgentState>

    function Key(): (int, int, int, int)
      reads this
    {
      (h + g, potentialConflictsCount, dncInternalConflictsCount, g)
    }

    /** GoalTest: at least minDepth steps taken and no heuristic distance
        left. */
    function GoalTest(minDepth: int): (r: bool)
      reads this
      ensures r <==> makespan >= minDepth && h == 0
    {
      if makespan >= minDepth then h == 0 else false
    }

    /** CompareTo: -1 exactly when this key comes first, 0 exactly on equal
        keys. */
    function CompareTo(that: WorldState): (r: int)
      reads this, that
      ensures r == -1 <==> KeyLess(Key(), that.Key())
      ensures r == 1 <==> KeyLess(that.Key(), Key())
      ensures r == 0 <==> Key() == that.Key()
    {
      if h + g < that.h + that.g then -1
      else if h + g > that.h + that.g then 1
      else if potentialConflictsCount < that.potentialConflictsCount then -1
      else if potentialConflictsCount > that.potentialConflictsCount then 1
      else if dncInternalConflictsCount < that.dncInternalConflictsCount then -1
      else if dncInternalConflictsCount > that.dncInternalConflictsCount then 1
      else if g < that.g then 1
      else if g > that.g then -1
      else 0
    }

    /** CalculateG: the sum of the agents' costs, in 32-bit arithmetic. */
    method CalculateG()
      modifies this`g
      ensures g == ToInt(GSum(agents, makespan))
    {
      var sum := 0;
      var i := 0;
      while i < |agents|
        invariant 0 <= i <= |agents| && sum == ToInt(GSum(agents[..i], makespan))
      {
        assert agents[..i + 1][..i] == agents[..i];
        var cost := if agents[i].atGoal then agents[i].arrivalTime else makespan;
        ToIntAdd(GSum(agents[..i], makespan), cost);
        sum := ToInt(sum + cost);
        i := i + 1;
      }
      assert agents[..|agents|] == agents;
      g := sum;
    }

    /** isValidSuccessor: false for no state, else whether the step is
        collision and swap free. */
    method IsValidSuccessor(nextStep: WorldState?) returns (r: bool)
      requires nextStep != null ==> |nextStep.agents| == |agents|
      ensures r <==> nextStep != null && ValidStep(agents, nextStep.agents)
    {
      if nextStep == null {
        return false;
      }
      var cur, next := agents, nextStep.agents;
      var i := 0;
      while i < |cur|
        invariant 0 <= i <= |cur|
        invariant forall a, b :: 0 <= a < i && a < b < |next| ==>
          !SameCell(next[a], next[b]) && !(SameCell(cur[a], next[b]) && SameCell(cur[b], next[a]))
      {
        var j := i + 1;
        while j < |next|
          invariant i + 1 <= j <= |next|
          invariant forall b :: i < b < j ==>
            !SameCell(next[i], next[b]) && !(SameCell(cur[i], next[b]) && SameCell(cur[b], next[i]))
        {
          if next[i].x == next[j].x && next[i].y == next[j].y {
            return false;
          }
          if cur[i].x == next[j].x && cur[i].y == next[j].y {
            if cur[j].x == next[i].x && cur[j].y == next[i].y {
              return false;
            }
          }
          j := j + 1;
        }
        i := i + 1;
      }
      return true;
    }
  }

  /** The order is antisymmetric and transitive, and a goal test passes for
      every smaller depth bound. */
  lemma WorldStateOrder(a: WorldState, b: WorldState, c: WorldState, minDepth: int, smaller: int)
    ensures a.CompareTo(b) == -b.CompareTo(a)
    ensures a.CompareTo(b) == -1 && b.CompareTo(c) == -1 ==> a.CompareTo(c) == -1
    ensures a.GoalTest(minDepth) && smaller <= minDepth ==> a.GoalTest(smaller)
  {
  }
}

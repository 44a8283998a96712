// Single-agent and joint plans (Plan.cs).

module Plans {
  import opened Moves
  import TimedMoves
  import opened Wrappers

  predicate SameCell(a: Move, b: Move) { a.x == b.x && a.y == b.y }

  /** What GetSize computes: starting from the full length, drop every
      trailing step whose predecessor already stands on the goal cell. */
  function CountDown(locations: seq<Move>, ans: nat): (r: nat)
    requires 1 <= ans <= |locations|
    ensures 1 <= r <= ans
    decreases ans
  {
    if ans >= 2 && SameCell(locations[|locations| - 1], locations[ans - 2]) then CountDown(locations, ans - 1)
    else ans
  }

  function Size(locations: seq<Move>): (r: nat)
    requires |locations| >= 1
    ensures 1 <= r <= |locations|
  {
    CountDown(locations, |locations|)
  }

  /** Size is at least 1 and at most the length; every step from Size-1 on
      stands on the goal cell, and the step before that does not. */
  lemma {:induction false} SizeCharacterization(locations: seq<Move>, ans: nat)
    requires 1 <= ans <= |locations|
    requires forall k :: ans - 1 <= k < |locations| ==> SameCell(locations[k], locations[|locations| - 1])
    ensures var r := CountDown(locations, ans);
      1 <= r <= ans
      && (forall k :: r - 1 <= k < |locations| ==> SameCell(locations[k], locations[|locations| - 1]))
      && (r >= 2 ==> !SameCell(locations[r - 2], locations[|locations| - 1]))
    decreases ans
  {
    if ans >= 2 && SameCell(locations[|locations| - 1], locations[ans - 2]) {
      SizeCharacterization(locations, ans - 1);
    }
  }

  class SinglePlan {
    var locationAtTimes: seq<Move>
    var agentIndex: int

    ghost predicate Valid()
      reads this
    {
      |locationAtTimes| >= 1
    }

    constructor (route: seq<Move>, agentIndex: int)
      ensures locationAtTimes == route && this.agentIndex == agentIndex
    {
      locationAtTimes := route;
      this.agentIndex := agentIndex;
    }

    /** The location at `time`; past the end of the plan the agent stays at
        its last location. */
    function GetLocationAt(time: nat): (m: Move)
      reads this
      requires Valid()
      ensures m in locationAtTimes
      ensures time < |locationAtTimes| ==> m == locationAtTimes[time]
      ensures time >= |locationAtTimes| ==> m == locationAtTimes[|locationAtTimes| - 1]
    {
      if time < |locationAtTimes| then locationAtTimes[time] else locationAtTimes[|locationAtTimes| - 1]
    }

    /** Equal plans belong to the same agent and their moves are pairwise
        Moves.Equals (SequenceEqual compares with the moves' own Equals, so
        a directionless move matches any direction to its cell). */
    function Equals(other: SinglePlan): (r: bool)
      reads this, other
      ensures r ==> agentIndex == other.agentIndex && |locationAtTimes| == |other.locationAtTimes|
      ensures agentIndex == other.agentIndex && locationAtTimes == other.locationAtTimes ==> r
      ensures (forall i :: 0 <= i < |locationAtTimes| ==> locationAtTimes[i].direction != NO_DIRECTION)
           && (forall i :: 0 <= i < |other.locationAtTimes| ==> other.locationAtTimes[i].direction != NO_DIRECTION)
           ==> (r <==> agentIndex == other.agentIndex && locationAtTimes == other.locationAtTimes)
    {
      agentIndex == other.agentIndex && |locationAtTimes| == |other.locationAtTimes|
      && forall i :: 0 <= i < |locationAtTimes| ==> Moves.Equals(locationAtTimes[i], other.locationAtTimes[i])
    }

    /** The length of the plan without the waits at the goal that end it. */
    method GetSize() returns (ans: nat)
      requires Valid()
      ensures ans == Size(locationAtTimes)
      ensures 1 <= ans <= |locationAtTimes|
      ensures forall k :: ans - 1 <= k < |locationAtTimes| ==> SameCell(locationAtTimes[k], locationAtTimes[|locationAtTimes| - 1])
      ensures ans >= 2 ==> !SameCell(locationAtTimes[ans - 2], locationAtTimes[|locationAtTimes| - 1])
    {
      ans := |locationAtTimes|;
      var goal := locationAtTimes[ans - 1];
      while ans >= 2 && goal.x == locationAtTimes[ans - 2].x && goal.y == locationAtTimes[ans - 2].y
        invariant 1 <= ans <= |locationAtTimes|
        invariant CountDown(locationAtTimes, ans) == Size(locationAtTimes)
        invariant forall k :: ans - 1 <= k < |locationAtTimes| ==> SameCell(locationAtTimes[k], goal)
      {
        ans := ans - 1;
      }
    }

    /** Appends the other plan's moves, skipping its first move when it
        equals (Moves.Equals) this plan's last move. Continuing a plan with
        itself enumerates the list it grows: the first append makes the
        enumerator's next step throw, so a plan of two or more moves gains
        exactly one move and the call fails; a one-move plan skips its only
        move and is left as it was. */
    method ContinueWith(other: SinglePlan) returns (r: Result<()>)
      requires Valid()
      modifies this`locationAtTimes
      ensures Valid()
      ensures other != this ==> r == Ok(())
      ensures other != this && other.locationAtTimes == [] ==> locationAtTimes == old(locationAtTimes)
      ensures other != this && other.locationAtTimes != [] ==>
        locationAtTimes == old(locationAtTimes) +
          (if Moves.Equals(old(locationAtTimes)[|old(locationAtTimes)| - 1], other.locationAtTimes[0])
           then other.locationAtTimes[1..] else other.locationAtTimes)
      ensures other == this && |old(locationAtTimes)| == 1 ==> r == Ok(()) && locationAtTimes == old(locationAtTimes)
      ensures other == this && |old(locationAtTimes)| >= 2 ==>
        r == Err(InvalidOperation)
        && locationAtTimes == old(locationAtTimes) +
          [if Moves.Equals(old(locationAtTimes)[|old(locationAtTimes)| - 1], old(locationAtTimes)[0])
           then old(locationAtTimes)[1] else old(locationAtTimes)[0]]
    {
      var first := true;
      var skip := 0;
      var i := 0;
      var moves := other.locationAtTimes;
      if other == this {
        Moves.EqualsProperties(moves[0], moves[0]);
      }
      while i < |moves|
        invariant 0 <= i <= |moves| && 0 <= skip <= 1
        invariant first <==> i == 0
        invariant skip == 1 ==> |moves| > 0 && Moves.Equals(old(locationAtTimes)[|old(locationAtTimes)| - 1], moves[0])
        invariant i > 0 && Moves.Equals(old(locationAtTimes)[|old(locationAtTimes)| - 1], moves[0]) ==> skip == 1
        invariant skip <= i || i == 0
        invariant locationAtTimes == old(locationAtTimes) + moves[skip..if i < skip then skip else i]
        invariant other == this ==> moves == old(locationAtTimes) && locationAtTimes == old(locationAtTimes)
      {
        var newLocationAtTime := moves[i];
        if first {
          first := false;
          if Moves.Equals(locationAtTimes[|locationAtTimes| - 1], newLocationAtTime) {
            skip := 1;
            i := i + 1;
            continue;
          }
        }
        locationAtTimes := locationAtTimes + [newLocationAtTime];
        if other == this {
          // The list changed under its own enumerator.
          return Err(InvalidOperation);
        }
        i := i + 1;
      }
      r := Ok(());
    }

    /** Adds the timed location of every step 0..until to the hash set
        `addTo`: afterwards the set contains each of them (up to
        TimedMoves.Equals), it gained nothing else, and it gained no element
        Equals to another member. */
    method AddPlanToHashSet(addTo: set<TimedMoves.TimedMove>, until: int) returns (r: set<TimedMoves.TimedMove>)
      requires Valid()
      ensures addTo <= r <= addTo + set i: nat | i <= until :: TimedMoves.TimedMove(GetLocationAt(i), i)
      ensures forall i: nat :: i <= until ==> TimedMoves.Contains(r, TimedMoves.TimedMove(GetLocationAt(i), i))
      ensures forall a, b :: a in r && b in r - addTo && a != b ==> !TimedMoves.Equals(a, b)
    {
      r := addTo;
      var i := 0;
      while i <= until
        invariant 0 <= i && (until >= 0 ==> i <= until + 1) && (until < 0 ==> i == 0)
        invariant addTo <= r <= addTo + set k: nat | k < i :: TimedMoves.TimedMove(GetLocationAt(k), k)
        invariant forall k: nat :: k < i ==> TimedMoves.Contains(r, TimedMoves.TimedMove(GetLocationAt(k), k))
        invariant forall a, b :: a in r && b in r - addTo && a != b ==> !TimedMoves.Equals(a, b)
      {
        var step := TimedMoves.TimedMove(GetLocationAt(i), i);
        AddKeepsApart(addTo, r, step);
        r := TimedMoves.HashSetAdd(r, step);
        i := i + 1;
      }
      assert (set k: nat | k < i :: TimedMoves.TimedMove(GetLocationAt(k), k))
          == (set k: nat | k <= until :: TimedMoves.TimedMove(GetLocationAt(k), k));
    }
  }

  /** HashSetAdd keeps the members it adds to a set apart from every other
      member under TimedMoves.Equals. */
  lemma AddKeepsApart(addTo: set<TimedMoves.TimedMove>, s: set<TimedMoves.TimedMove>, x: TimedMoves.TimedMove)
    requires addTo <= s
    requires forall a, b :: a in s && b in s - addTo && a != b ==> !TimedMoves.Equals(a, b)
    ensures var r := TimedMoves.HashSetAdd(s, x);
      forall a, b :: a in r && b in r - addTo && a != b ==> !TimedMoves.Equals(a, b)
  {
    var r := TimedMoves.HashSetAdd(s, x);
    forall a, b | a in r && b in r - addTo && a != b
      ensures !TimedMoves.Equals(a, b)
    {
      Moves.EqualsProperties(a.move, b.move);
    }
  }

  /** Past GetSize - 1, the plan stays on the goal cell. */
  lemma StaysAtGoal(p: SinglePlan, t: nat)
    requires p.Valid() && t + 1 >= Size(p.locationAtTimes)
    ensures SameCell(p.GetLocationAt(t), p.locationAtTimes[|p.locationAtTimes| - 1])
  {
    SizeCharacterization(p.locationAtTimes, |p.locationAtTimes|);
  }

  /** The constructor's first loop: the largest GetSize among the plans. */
  method LongestSize(subplans: seq<SinglePlan>) returns (maxSize: nat)
    requires |subplans| >= 1
    requires forall a :: 0 <= a < |subplans| ==> |subplans[a].locationAtTimes| >= 1
    ensures exists a :: 0 <= a < |subplans| && maxSize == Size(subplans[a].locationAtTimes)
    ensures forall a :: 0 <= a < |subplans| ==> Size(subplans[a].locationAtTimes) <= maxSize
  {
    maxSize := subplans[0].GetSize();
    var j := 1;
    while j < |subplans|
      invariant 1 <= j <= |subplans|
      invariant exists a :: 0 <= a < j && maxSize == Size(subplans[a].locationAtTimes)
      invariant forall a :: 0 <= a < j ==> Size(subplans[a].locationAtTimes) <= maxSize
    {
      var size := subplans[j].GetSize();
      if size > maxSize { maxSize := size; }
      j := j + 1;
    }
  }

  /** The constructor's inner loop: every agent's move at `time`, in agent order. */
  method MovesAt(subplans: seq<SinglePlan>, time: nat) returns (allMoves: seq<Move>)
    requires forall a :: 0 <= a < |subplans| ==> |subplans[a].locationAtTimes| >= 1
    ensures |allMoves| == |subplans|
    ensures forall a :: 0 <= a < |subplans| ==> allMoves[a] == subplans[a].GetLocationAt(time)
  {
    allMoves := [];
    var k := 0;
    while k < |subplans|
      invariant 0 <= k <= |subplans| && |allMoves| == k
      invariant forall a :: 0 <= a < k ==> allMoves[a] == subplans[a].GetLocationAt(time)
    {
      allMoves := allMoves + [subplans[k].GetLocationAt(time)];
      k := k + 1;
    }
  }

  /** The joint plan of several agents: one list of moves per time step. */
  class Plan {
    var locationsAtTimes: seq<seq<Move>>

    ghost predicate Valid()
      reads this
    {
      |locationsAtTimes| >= 1
    }

    /** Builds the joint plan of `subplans`, as long as the longest of them
        (by GetSize), with agent a's move at time t in position a of step t. */
    constructor (subplans: seq<SinglePlan>)
      requires |subplans| >= 1
      requires forall a :: 0 <= a < |subplans| ==> |subplans[a].locationAtTimes| >= 1
      ensures Valid()
      ensures forall a :: 0 <= a < |subplans| ==> |subplans[a].locationAtTimes| >= 1
      ensures (exists a :: 0 <= a < |subplans| && |locationsAtTimes| == Size(subplans[a].locationAtTimes))
      ensures forall a :: 0 <= a < |subplans| ==> Size(subplans[a].locationAtTimes) <= |locationsAtTimes|
      ensures forall t :: 0 <= t < |locationsAtTimes| ==> |locationsAtTimes[t]| == |subplans|
      ensures forall t, a :: 0 <= t < |locationsAtTimes| && 0 <= a < |subplans| ==>
        locationsAtTimes[t][a] == subplans[a].GetLocationAt(t)
    {
      var maxSize := LongestSize(subplans);
      var steps: seq<seq<Move>> := [];
      var time := 0;
      while time < maxSize
        invariant 0 <= time <= maxSize && |steps| == time
        invariant forall t :: 0 <= t < time ==> |steps[t]| == |subplans|
        invariant forall t, a :: 0 <= t < time && 0 <= a < |subplans| ==> steps[t][a] == subplans[a].GetLocationAt(t)
      {
        var allMoves := MovesAt(subplans, time);
        steps := steps + [allMoves];
        time := time + 1;
      }
      SizeCharacterization(subplans[0].locationAtTimes, |subplans[0].locationAtTimes|);
      locationsAtTimes := steps;
    }

    /** The agents' locations at `time`, clamped to the last step. */
    function GetLocationsAt(time: nat): (r: seq<Move>)
      reads this
      requires Valid()
      ensures r in locationsAtTimes
      ensures time < |locationsAtTimes| ==> r == locationsAtTimes[time]
      ensures time >= |locationsAtTimes| ==> r == locationsAtTimes[|locationsAtTimes| - 1]
    {
      locationsAtTimes[if time < |locationsAtTimes| - 1 then time else |locationsAtTimes| - 1]
    }
  }

  /** At every time, even past its end, a joint plan built from single plans
      puts each agent on the cell its own plan gives for that time. */
  lemma {:induction false} JointPlanAgreesWithSinglePlans(plan: Plan, subplans: seq<SinglePlan>, t: nat, a: nat)
    requires plan.Valid() && a < |subplans|
    requires forall a' :: 0 <= a' < |subplans| ==> |subplans[a'].locationAtTimes| >= 1
    requires Size(subplans[a].locationAtTimes) <= |plan.locationsAtTimes|
    requires forall t', a' :: 0 <= t' < |plan.locationsAtTimes| && 0 <= a' < |subplans| ==>
      |plan.locationsAtTimes[t']| == |subplans| && plan.locationsAtTimes[t'][a'] == subplans[a'].GetLocationAt(t')
    ensures a < |plan.GetLocationsAt(t)|
    ensures SameCell(plan.GetLocationsAt(t)[a], subplans[a].GetLocationAt(t))
  {
    var n := |plan.locationsAtTimes|;
    if t >= n {
      StaysAtGoal(subplans[a], n - 1);
      StaysAtGoal(subplans[a], t);
    }
  }
}

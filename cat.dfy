// The conflict avoidance table (ConflictAvoidanceTable.cs): which agents' plans
// occupy each timed move, and from which time each agent waits at its goal.

module ConflictAvoidance {
  import opened Wrappers
  import opened Moves
  import opened TimedMoves
  import opened Plans

  /** `s` without the first occurrence of `x` (List.Remove). */
  function RemoveFirst(s: seq<int>, x: int): (r: seq<int>)
    ensures x in s ==> |r| == |s| - 1 && multiset(r) == multiset(s) - multiset{x}
    ensures x !in s ==> r == s
  {
    if s == [] then []
    else if s[0] == x then (assert s == [s[0]] + s[1..]; s[1..])
    else (assert s == [s[0]] + s[1..]; [s[0]] + RemoveFirst(s[1..], x))
  }

  /** The timed moves of the first `n` steps of a plan whose steps are plain moves. */
  function Steps(locations: seq<Move>, n: nat): (r: seq<TimedMove>)
    requires n <= |locations|
    ensures |r| == n && forall i :: 0 <= i < n ==> r[i] == TimedMove(locations[i], i)
  {
    seq(n, i requires 0 <= i < n => TimedMove(locations[i], i))
  }

  lemma StepsSnoc(locations: seq<Move>, n: nat)
    requires n < |locations|
    ensures Steps(locations, n + 1) == Steps(locations, n) + [TimedMove(locations[n], n)]
  {
  }

  /** One entry of the timed-move dictionary: the key as first inserted, and
      its list of agents. The dictionary never removes a key, so the table is
      its entries in insertion order. */
  type Entry = (TimedMove, seq<int>)

  /** The entry a dictionary lookup of `key` finds. Keys that are
      TimedMoves.Equals hash alike (the hash ignores the direction) and a
      bucket is searched from its newest entry, so the lookup finds the most
      recently inserted key that is Equals to the query, a directionless key
      or query matching every direction. */
  function Find(table: seq<Entry>, key: TimedMove): (r: Option<nat>)
    ensures r.Some? ==>
      && r.value < |table| && TimedMoves.Equals(table[r.value].0, key)
      && forall j :: r.value < j < |table| ==> !TimedMoves.Equals(table[j].0, key)
    ensures r.None? ==> forall j :: 0 <= j < |table| ==> !TimedMoves.Equals(table[j].0, key)
  {
    if table == [] then None
    else if TimedMoves.Equals(table[|table| - 1].0, key) then Some(|table| - 1)
    else Find(table[..|table| - 1], key)
  }

  /** The agent list the lookup of `key` finds, if any entry matches. */
  function Lookup(table: seq<Entry>, key: TimedMove): Option<seq<int>>
  {
    match Find(table, key)
    case None => None
    case Some(j) => Some(table[j].1)
  }

  /** The found list, or the empty list when no entry matches. */
  function ListOrEmpty(found: Option<seq<int>>): seq<int>
  {
    if found.Some? then found.value else []
  }

  /** A lookup depends on the keys alone. */
  lemma FindSameKeys(t: seq<Entry>, t': seq<Entry>, key: TimedMove)
    requires |t| == |t'| && forall j :: 0 <= j < |t| ==> t[j].0 == t'[j].0
    ensures Find(t, key) == Find(t', key)
  {
    var r, r' := Find(t, key), Find(t', key);
    if r.Some? && r'.Some? {
      assert !(r.value < r'.value) && !(r'.value < r.value);
    }
  }

  /** Appending an entry whose key does not match leaves a lookup where it was;
      one whose key matches is what the lookup finds. */
  lemma FindSnoc(t: seq<Entry>, e: Entry, key: TimedMove)
    ensures Find(t + [e], key) == if TimedMoves.Equals(e.0, key) then Some(|t|) else Find(t, key)
  {
    assert (t + [e])[..|t|] == t;
  }

  /** AddPlan's update for one step: the agent appended to the list the
      lookup finds, or a new entry holding just the agent. */
  function AddStep(table: seq<Entry>, step: TimedMove, agent: int): (r: seq<Entry>)
    ensures |r| == |table| + (if Find(table, step).None? then 1 else 0)
    ensures forall j :: 0 <= j < |table| ==> r[j].0 == table[j].0
  {
    match Find(table, step)
    case None => table + [(step, [agent])]
    case Some(j) => table[j := (table[j].0, table[j].1 + [agent])]
  }

  /** RemovePlan's update for one step: the agent removed once from the list
      the lookup finds. */
  function RemoveStep(table: seq<Entry>, step: TimedMove, agent: int): (r: seq<Entry>)
    ensures |r| == |table| && forall j :: 0 <= j < |table| ==> r[j].0 == table[j].0
  {
    match Find(table, step)
    case None => table
    case Some(j) => table[j := (table[j].0, RemoveFirst(table[j].1, agent))]
  }

  /** What any query reads after one AddStep: the list the step found gains
      the agent for every query that finds that same entry; a new entry
      answers the queries Equals to the step; every other query reads as
      before. */
  lemma AddStepLookup(t: seq<Entry>, step: TimedMove, agent: int, q: TimedMove)
    ensures Lookup(AddStep(t, step, agent), q) ==
      if Find(t, step).Some? then
        (if Find(t, q) == Find(t, step) then Some(t[Find(t, step).value].1 + [agent]) else Lookup(t, q))
      else if TimedMoves.Equals(step, q) then Some([agent])
      else Lookup(t, q)
  {
    var r := AddStep(t, step, agent);
    if Find(t, step).Some? {
      FindSameKeys(t, r, q);
    } else {
      FindSnoc(t, (step, [agent]), q);
    }
  }

  /** What any query reads after one RemoveStep: the list the step found
      loses one occurrence of the agent for the queries that find that same
      entry; every other query reads as before. */
  lemma RemoveStepLookup(t: seq<Entry>, step: TimedMove, agent: int, q: TimedMove)
    ensures Lookup(RemoveStep(t, step, agent), q) ==
      if Find(t, step).Some? && Find(t, q) == Find(t, step) then Some(RemoveFirst(t[Find(t, step).value].1, agent))
      else Lookup(t, q)
  {
    FindSameKeys(t, RemoveStep(t, step, agent), q);
  }

  /** A step's own lookup after AddStep: its earlier list, if any, followed
      by the agent. */
  lemma AddStepFindsAgent(t: seq<Entry>, step: TimedMove, agent: int)
    ensures Lookup(AddStep(t, step, agent), step) == Some(ListOrEmpty(Lookup(t, step)) + [agent])
  {
    AddStepLookup(t, step, agent, step);
    if Find(t, step).None? {
      Moves.EqualsProperties(step.move, step.move);
      assert TimedMoves.Equals(step, step);
      assert ListOrEmpty(Lookup(t, step)) + [agent] == [agent];
    }
  }

  /** `t'` agrees with `t` on time step `time`: it has the same keys, the same
      lists under the keys of that time, and any further entries are at other
      times. */
  ghost predicate AgreesAt(t: seq<Entry>, t': seq<Entry>, time: int)
  {
    |t| <= |t'|
    && (forall j :: 0 <= j < |t| ==> t'[j].0 == t[j].0 && (t[j].0.time == time ==> t'[j].1 == t[j].1))
    && (forall j :: |t| <= j < |t'| ==> t'[j].0.time != time)
  }

  /** Tables that agree on a time answer its queries alike. */
  lemma AgreesAtFind(t: seq<Entry>, t': seq<Entry>, q: TimedMove)
    requires AgreesAt(t, t', q.time)
    ensures Find(t', q) == Find(t, q)
    ensures Find(t, q).Some? ==> t'[Find(t, q).value].1 == t[Find(t, q).value].1
  {
    var r, r' := Find(t, q), Find(t', q);
    if r'.Some? {
      assert r'.value < |t|;
      if r.Some? {
        assert !(r.value < r'.value) && !(r'.value < r.value);
      }
    }
  }

  /** A step at another time keeps the agreement on `time`. */
  lemma AddStepKeepsAgreement(t: seq<Entry>, t': seq<Entry>, time: int, step: TimedMove, agent: int)
    requires AgreesAt(t, t', time) && step.time != time
    ensures AgreesAt(t, AddStep(t', step, agent), time)
  {
  }

  lemma RemoveStepKeepsAgreement(t: seq<Entry>, t': seq<Entry>, time: int, step: TimedMove, agent: int)
    requires AgreesAt(t, t', time) && step.time != time
    ensures AgreesAt(t, RemoveStep(t', step, agent), time)
  {
  }

  /** A step at another time leaves every query of `q`'s time as it was. */
  lemma OtherTimeLookup(t: seq<Entry>, step: TimedMove, agent: int, q: TimedMove)
    requires step.time != q.time
    ensures Lookup(AddStep(t, step, agent), q) == Lookup(t, q)
    ensures Lookup(RemoveStep(t, step, agent), q) == Lookup(t, q)
  {
    assert AgreesAt(t, t, q.time);
    AddStepKeepsAgreement(t, t, q.time, step, agent);
    AgreesAtFind(t, AddStep(t, step, agent), q);
    RemoveStepKeepsAgreement(t, t, q.time, step, agent);
    AgreesAtFind(t, RemoveStep(t, step, agent), q);
  }

  /** The same step applied to tables that agree on its time is read alike
      by every query of that time. */
  lemma SameTimeLookup(t: seq<Entry>, t': seq<Entry>, step: TimedMove, agent: int, q: TimedMove)
    requires AgreesAt(t, t', q.time) && step.time == q.time
    ensures Lookup(AddStep(t', step, agent), q) == Lookup(AddStep(t, step, agent), q)
    ensures Lookup(RemoveStep(t', step, agent), q) == Lookup(RemoveStep(t, step, agent), q)
  {
    AgreesAtFind(t, t', q);
    AgreesAtFind(t, t', step);
    AddStepLookup(t, step, agent, q);
    AddStepLookup(t', step, agent, q);
    RemoveStepLookup(t, step, agent, q);
    RemoveStepLookup(t', step, agent, q);
  }

  /** The table after AddStep for each key in turn. */
  function AppendAgent(t: seq<Entry>, keys: seq<TimedMove>, agent: int): (r: seq<Entry>)
    ensures |t| <= |r| && forall j :: 0 <= j < |t| ==> r[j].0 == t[j].0
  {
    if keys == [] then t
    else AddStep(AppendAgent(t, keys[..|keys| - 1], agent), keys[|keys| - 1], agent)
  }

  /** The table after RemoveStep for each key in turn; it keeps its keys. */
  function RemoveAgent(t: seq<Entry>, keys: seq<TimedMove>, agent: int): (r: seq<Entry>)
    ensures |r| == |t| && forall j :: 0 <= j < |t| ==> r[j].0 == t[j].0
  {
    if keys == [] then t
    else RemoveStep(RemoveAgent(t, keys[..|keys| - 1], agent), keys[|keys| - 1], agent)
  }

  lemma AppendAgentSnoc(t: seq<Entry>, keys: seq<TimedMove>, key: TimedMove, agent: int)
    ensures AppendAgent(t, keys + [key], agent) == AddStep(AppendAgent(t, keys, agent), key, agent)
  {
    assert (keys + [key])[..|keys|] == keys;
  }

  lemma RemoveAgentSnoc(t: seq<Entry>, keys: seq<TimedMove>, key: TimedMove, agent: int)
    ensures RemoveAgent(t, keys + [key], agent) == RemoveStep(RemoveAgent(t, keys, agent), key, agent)
  {
    assert (keys + [key])[..|keys|] == keys;
  }

  /** Keys whose i-th element is at time step i, as a plan's steps are. */
  predicate Timed(keys: seq<TimedMove>)
  {
    forall i :: 0 <= i < |keys| ==> keys[i].time == i
  }

  lemma TimedInit(keys: seq<TimedMove>)
    requires Timed(keys) && keys != []
    ensures Timed(keys[..|keys| - 1]) && keys == keys[..|keys| - 1] + [keys[|keys| - 1]]
  {
  }

  lemma StepsTimed(locations: seq<Move>, n: nat)
    requires n <= |locations|
    ensures Timed(Steps(locations, n))
  {
  }

  /** Before any step of time `time` is applied, the folded table agrees
      with the original one on that time. */
  lemma {:induction false} AppendAgrees(t: seq<Entry>, keys: seq<TimedMove>, agent: int, time: int)
    requires Timed(keys) && !(0 <= time < |keys|)
    ensures AgreesAt(t, AppendAgent(t, keys, agent), time)
  {
    if keys != [] {
      var init := keys[..|keys| - 1];
      TimedInit(keys);
      AppendAgrees(t, init, agent, time);
      AddStepKeepsAgreement(t, AppendAgent(t, init, agent), time, keys[|keys| - 1], agent);
    }
  }

  lemma {:induction false} RemoveAgrees(t: seq<Entry>, keys: seq<TimedMove>, agent: int, time: int)
    requires Timed(keys) && !(0 <= time < |keys|)
    ensures AgreesAt(t, RemoveAgent(t, keys, agent), time)
  {
    if keys != [] {
      var init := keys[..|keys| - 1];
      TimedInit(keys);
      RemoveAgrees(t, init, agent, time);
      RemoveStepKeepsAgreement(t, RemoveAgent(t, init, agent), time, keys[|keys| - 1], agent);
    }
  }

  /** After AddPlan's loop, a query at the time of one of the plan's steps
      reads as if that step alone had been added, and a query at any other
      time reads as before. */
  lemma {:induction false} AppendLookup(t: seq<Entry>, keys: seq<TimedMove>, agent: int, q: TimedMove)
    requires Timed(keys)
    ensures Lookup(AppendAgent(t, keys, agent), q) ==
      if 0 <= q.time < |keys| then Lookup(AddStep(t, keys[q.time], agent), q) else Lookup(t, q)
  {
    if keys != [] {
      var init := keys[..|keys| - 1];
      var step := keys[|keys| - 1];
      TimedInit(keys);
      var added := AppendAgent(t, init, agent);
      if q.time == |init| {
        AppendAgrees(t, init, agent, q.time);
        SameTimeLookup(t, added, step, agent, q);
      } else {
        OtherTimeLookup(added, step, agent, q);
        AppendLookup(t, init, agent, q);
      }
    }
  }

  /** After RemovePlan's loop, a query at the time of one of the plan's
      steps reads as if that step alone had been removed, and a query at any
      other time reads as before. */
  lemma {:induction false} RemoveLookup(t: seq<Entry>, keys: seq<TimedMove>, agent: int, q: TimedMove)
    requires Timed(keys)
    ensures Lookup(RemoveAgent(t, keys, agent), q) ==
      if 0 <= q.time < |keys| then Lookup(RemoveStep(t, keys[q.time], agent), q) else Lookup(t, q)
  {
    if keys != [] {
      var init := keys[..|keys| - 1];
      var step := keys[|keys| - 1];
      TimedInit(keys);
      var removed := RemoveAgent(t, init, agent);
      if q.time == |init| {
        RemoveAgrees(t, init, agent, q.time);
        SameTimeLookup(t, removed, step, agent, q);
      } else {
        OtherTimeLookup(removed, step, agent, q);
        RemoveLookup(t, init, agent, q);
      }
    }
  }

  /** After AddPlan's loop, every step reads its earlier list followed by
      the agent. */
  lemma AgentListedAtEveryStep(t: seq<Entry>, locations: seq<Move>, n: nat, agent: int, i: nat)
    requires i < n <= |locations|
    ensures var step := TimedMove(locations[i], i);
      Lookup(AppendAgent(t, Steps(locations, n), agent), step) == Some(ListOrEmpty(Lookup(t, step)) + [agent])
  {
    var step := TimedMove(locations[i], i);
    StepsTimed(locations, n);
    AppendLookup(t, Steps(locations, n), agent, step);
    AddStepFindsAgent(t, step, agent);
  }

  /** Removing a plan right after adding it gives every step back its
      agents, up to order; a step that was new stays in the table with an
      empty list. */
  lemma AddThenRemoveRestoresAgents(t: seq<Entry>, locations: seq<Move>, n: nat, agent: int, i: nat)
    requires i < n <= |locations|
    ensures var step := TimedMove(locations[i], i);
      var back := RemoveAgent(AppendAgent(t, Steps(locations, n), agent), Steps(locations, n), agent);
      Lookup(back, step).Some? && multiset(Lookup(back, step).value) == multiset(ListOrEmpty(Lookup(t, step)))
  {
    var step := TimedMove(locations[i], i);
    var added := AppendAgent(t, Steps(locations, n), agent);
    var before := ListOrEmpty(Lookup(t, step));
    AgentListedAtEveryStep(t, locations, n, agent, i);
    RemoveLookup(added, Steps(locations, n), agent, step);
    RemoveStepLookup(added, step, agent, step);
    assert added[Find(added, step).value].1 == before + [agent];
    assert multiset(before + [agent]) - multiset{agent} == multiset(before);
  }

  /** A directionless query finds a stored move of any direction; and of
      several matching keys the newest one answers: a stored directionless
      key answers every direction no newer key matches. */
  lemma LookupFindsNewestEqualKey()
    ensures Lookup([(TimedMove(Move(1, 1, 3), 0), [0])], TimedMove(Move(1, 1, NO_DIRECTION), 0)) == Some([0])
    ensures var t := [(TimedMove(Move(1, 1, NO_DIRECTION), 0), [0]), (TimedMove(Move(1, 1, 3), 0), [1])];
      Lookup(t, TimedMove(Move(1, 1, 3), 0)) == Some([1])
      && Lookup(t, TimedMove(Move(1, 1, 2), 0)) == Some([0])
      && Lookup(t, TimedMove(Move(1, 1, NO_DIRECTION), 0)) == Some([1])
      && Lookup(t, TimedMove(Move(1, 1, 3), 1)) == None
  {
    var t := [(TimedMove(Move(1, 1, NO_DIRECTION), 0), [0]), (TimedMove(Move(1, 1, 3), 0), [1])];
    assert t[..1] == [t[0]];
  }

  function Cell(m: Move): (int, int) { (m.x, m.y) }

  /** One step of AddPlan's loop: when no key matches the step, a new entry
      holding just the agent; otherwise the agent appended to the list found. */
  method AppendToStep(table: seq<Entry>, step: TimedMove, agent: int) returns (r: seq<Entry>)
    ensures r == AddStep(table, step, agent)
  {
    var found := Find(table, step);
    if found.None? {
      r := table + [(step, [agent])];
    } else {
      r := table[found.value := (table[found.value].0, table[found.value].1 + [agent])];
    }
  }

  /** One step of RemovePlan's loop: the agent removed once from the list
      found; the source's indexer throws when no key matches. */
  method RemoveFromStep(table: seq<Entry>, step: TimedMove, agent: int) returns (r: seq<Entry>)
    requires Find(table, step).Some?
    ensures r == RemoveStep(table, step, agent)
  {
    var found := Find(table, step);
    r := table[found.value := (table[found.value].0, RemoveFirst(table[found.value].1, agent))];
  }

  /** The loop of RemovePlan: the agent taken once off the list each of the
      plan's steps finds, up to its size. */
  method RemoveSteps(table0: seq<Entry>, plan: SinglePlan, planSize: nat)
    returns (table: seq<Entry>)
    requires plan.Valid() && planSize <= |plan.locationAtTimes|
    requires forall k :: k in Steps(plan.locationAtTimes, planSize) ==> Find(table0, k).Some?
    ensures table == RemoveAgent(table0, Steps(plan.locationAtTimes, planSize), plan.agentIndex)
  {
    ghost var steps := Steps(plan.locationAtTimes, planSize);
    table := table0;
    var i := 0;
    while i < planSize
      invariant 0 <= i <= planSize
      invariant table == RemoveAgent(table0, steps[..i], plan.agentIndex)
    {
      var step := TimedMove(plan.GetLocationAt(i), i);
      assert steps[i] == step && steps[..i + 1] == steps[..i] + [step];
      RemoveAgentSnoc(table0, steps[..i], step, plan.agentIndex);
      FindSameKeys(table0, table, step);
      table := RemoveFromStep(table, step, plan.agentIndex);
      i := i + 1;
    }
    assert steps[..planSize] == steps;
  }

  /** The loop of AddPlan: the agent appended to the list each of the plan's
      steps finds, up to its size, a step no key matches starting a new entry. */
  method AppendSteps(table0: seq<Entry>, plan: SinglePlan, planSize: nat)
    returns (table: seq<Entry>)
    requires plan.Valid() && planSize <= |plan.locationAtTimes|
    ensures table == AppendAgent(table0, Steps(plan.locationAtTimes, planSize), plan.agentIndex)
  {
    ghost var steps := Steps(plan.locationAtTimes, planSize);
    table := table0;
    var i := 0;
    while i < planSize
      invariant 0 <= i <= planSize
      invariant table == AppendAgent(table0, steps[..i], plan.agentIndex)
    {
      var step := TimedMove(plan.GetLocationAt(i), i);
      assert steps[..i + 1] == steps[..i] + [step];
      AppendAgentSnoc(table0, steps[..i], step, plan.agentIndex);
      table := AppendToStep(table, step, plan.agentIndex);
      i := i + 1;
    }
    assert steps[..planSize] == steps;
  }

  class ConflictAvoidanceTable {
    /** The timed-move dictionary, as its entries in insertion order. */
    var timedMovesToAgentNumList: seq<Entry>
    /** Keyed by the goal cell: every key the source stores there is
        Move(x, y, Wait). The value is (arrival time, agent). */
    var atGoalWaitsToTimeAndAgentNum: map<(int, int), (int, int)>
    var NumPlans: int

    constructor ()
      ensures timedMovesToAgentNumList == [] && atGoalWaitsToTimeAndAgentNum == map[] && NumPlans == 0
    {
      timedMovesToAgentNumList, atGoalWaitsToTimeAndAgentNum, NumPlans := [], map[], 0;
    }

    method Clear()
      modifies this
      ensures timedMovesToAgentNumList == [] && atGoalWaitsToTimeAndAgentNum == map[] && NumPlans == 0
    {
      timedMovesToAgentNumList, atGoalWaitsToTimeAndAgentNum, NumPlans := [], map[], 0;
    }

    /** The goal lookup: the source looks up Move(key.x, key.y, key.direction)
        among the stored Move(x, y, Wait) keys with Moves.Equals. */
    predicate AtGoalMatches(key: TimedMove)
      reads this
    {
      Cell(key.move) in atGoalWaitsToTimeAndAgentNum
      && Moves.Equals(Move(key.x(), key.y(), WAIT), key.move)
      && key.time >= atGoalWaitsToTimeAndAgentNum[Cell(key.move)].0
    }

    /** The agents whose plans use the entry `key` finds, then the agent
        waiting at its goal there from an earlier time. */
    function Get(key: TimedMove): (r: seq<int>)
      reads this
      ensures var found := Lookup(timedMovesToAgentNumList, key);
        |r| == |ListOrEmpty(found)| + (if AtGoalMatches(key) then 1 else 0)
        && r[..|ListOrEmpty(found)|] == ListOrEmpty(found)
        && (AtGoalMatches(key) ==> r[|r| - 1] == atGoalWaitsToTimeAndAgentNum[Cell(key.move)].1)
    {
      ListOrEmpty(Lookup(timedMovesToAgentNumList, key))
      + (if AtGoalMatches(key) then [atGoalWaitsToTimeAndAgentNum[Cell(key.move)].1] else [])
    }

    /** Whether some stored key is Equals to `key`, or the goal lookup matches. */
    function ContainsKey(key: TimedMove): (r: bool)
      reads this
      ensures r <==> (exists j :: 0 <= j < |timedMovesToAgentNumList| && TimedMoves.Equals(timedMovesToAgentNumList[j].0, key))
                     || AtGoalMatches(key)
    {
      Find(timedMovesToAgentNumList, key).Some? || AtGoalMatches(key)
    }

    function TryGetValue(key: TimedMove): (r: Option<seq<int>>)
      reads this
      ensures r.Some? <==> ContainsKey(key)
      ensures r.Some? ==> r.value == Get(key)
    {
      if ContainsKey(key) then Some(Get(key)) else None
    }

    /** One less than the latest goal arrival time, or 0 for an empty table. */
    method GetMaxPlanSize() returns (r: int)
      ensures atGoalWaitsToTimeAndAgentNum == map[] ==> r == 0
      ensures atGoalWaitsToTimeAndAgentNum != map[] ==>
        (exists c :: c in atGoalWaitsToTimeAndAgentNum && r == atGoalWaitsToTimeAndAgentNum[c].0 - 1)
        && (forall c :: c in atGoalWaitsToTimeAndAgentNum ==> atGoalWaitsToTimeAndAgentNum[c].0 - 1 <= r)
    {
      var goals := atGoalWaitsToTimeAndAgentNum;
      if |goals| == 0 { return 0; }
      var left := goals.Keys;
      var c0 :| c0 in left;
      var best := goals[c0].0;
      left := left - {c0};
      while left != {}
        invariant left <= goals.Keys && c0 in goals
        invariant exists c :: c in goals && best == goals[c].0
        invariant forall c :: c in goals && c !in left ==> goals[c].0 <= best
        decreases |left|
      {
        var c :| c in left;
        if goals[c].0 > best { best := goals[c].0; }
        left := left - {c};
      }
      r := best - 1;
    }

    /** Records every step of the plan up to its size, and the agent's
        arrival at its goal cell. */
    method AddPlan(plan: SinglePlan)
      requires plan.Valid()
      modifies this
      ensures var n := Size(plan.locationAtTimes);
        && timedMovesToAgentNumList == AppendAgent(old(timedMovesToAgentNumList), Steps(plan.locationAtTimes, n), plan.agentIndex)
        && atGoalWaitsToTimeAndAgentNum ==
             old(atGoalWaitsToTimeAndAgentNum)[Cell(plan.locationAtTimes[n - 1]) := (n, plan.agentIndex)]
      ensures NumPlans == old(NumPlans) + 1
      ensures forall i :: 0 <= i < Size(plan.locationAtTimes) ==>
        ContainsKey(TimedMove(plan.GetLocationAt(i), i)) && plan.agentIndex in Get(TimedMove(plan.GetLocationAt(i), i))
    {
      var planSize := plan.GetSize();
      timedMovesToAgentNumList := AppendSteps(timedMovesToAgentNumList, plan, planSize);
      var lastMove := plan.GetLocationAt(planSize - 1);
      atGoalWaitsToTimeAndAgentNum := atGoalWaitsToTimeAndAgentNum[(lastMove.x, lastMove.y) := (planSize, plan.agentIndex)];
      NumPlans := NumPlans + 1;
      forall k | 0 <= k < planSize
        ensures ContainsKey(TimedMove(plan.GetLocationAt(k), k)) && plan.agentIndex in Get(TimedMove(plan.GetLocationAt(k), k))
      {
        Listed(old(timedMovesToAgentNumList), plan, planSize, k);
      }
    }

    /** One step of AddPlan's closing forall. */
    lemma Listed(t: seq<Entry>, plan: SinglePlan, n: nat, k: nat)
      requires plan.Valid() && k < n <= |plan.locationAtTimes|
      requires timedMovesToAgentNumList == AppendAgent(t, Steps(plan.locationAtTimes, n), plan.agentIndex)
      ensures ContainsKey(TimedMove(plan.GetLocationAt(k), k)) && plan.agentIndex in Get(TimedMove(plan.GetLocationAt(k), k))
    {
      var step := TimedMove(plan.GetLocationAt(k), k);
      AgentListedAtEveryStep(t, plan.locationAtTimes, n, plan.agentIndex, k);
      var l := ListOrEmpty(Lookup(t, step)) + [plan.agentIndex];
      assert Get(step)[..|l|] == l && l[|l| - 1] == plan.agentIndex;
    }

    /** Removes the agent once from the list every step of the plan finds,
        and the goal entry of the plan's last cell. The source assumes the
        plan was added before: every step must find a key. */
    method RemovePlan(plan: SinglePlan)
      requires plan.Valid()
      requires forall k :: k in Steps(plan.locationAtTimes, Size(plan.locationAtTimes)) ==> Find(timedMovesToAgentNumList, k).Some?
      modifies this
      ensures var n := Size(plan.locationAtTimes);
        && timedMovesToAgentNumList == RemoveAgent(old(timedMovesToAgentNumList), Steps(plan.locationAtTimes, n), plan.agentIndex)
        && atGoalWaitsToTimeAndAgentNum == old(atGoalWaitsToTimeAndAgentNum) - {Cell(plan.locationAtTimes[n - 1])}
      ensures NumPlans == old(NumPlans) - 1
    {
      var planSize := plan.GetSize();
      timedMovesToAgentNumList := RemoveSteps(timedMovesToAgentNumList, plan, planSize);
      var lastMove := plan.GetLocationAt(planSize - 1);
      assert Cell(plan.locationAtTimes[planSize - 1]) == (lastMove.x, lastMove.y);
      atGoalWaitsToTimeAndAgentNum := atGoalWaitsToTimeAndAgentNum - {(lastMove.x, lastMove.y)};
      NumPlans := NumPlans - 1;
    }
  }

  /** After AddPlan the goal cell is reported occupied at every time from the
      plan size on, for the waits and directionless queries that Moves.Equals
      lets match the stored Wait key. */
  lemma {:induction false} GoalOccupiedAfterArrival(cat: ConflictAvoidanceTable, plan: SinglePlan, t: int, direction: int)
    requires plan.Valid()
    requires var n := Size(plan.locationAtTimes);
      Cell(plan.locationAtTimes[n - 1]) in cat.atGoalWaitsToTimeAndAgentNum &&
      cat.atGoalWaitsToTimeAndAgentNum[Cell(plan.locationAtTimes[n - 1])] == (n, plan.agentIndex)
    requires t >= Size(plan.locationAtTimes) && direction in {WAIT, NO_DIRECTION}
    ensures var g := plan.locationAtTimes[Size(plan.locationAtTimes) - 1];
      var key := TimedMove(Move(g.x, g.y, direction), t);
      cat.ContainsKey(key) && plan.agentIndex in cat.Get(key)
  {
    var g := plan.locationAtTimes[Size(plan.locationAtTimes) - 1];
    var key := TimedMove(Move(g.x, g.y, direction), t);
    assert cat.AtGoalMatches(key);
  }

  /** A query that moves into the goal cell from a direction (not a wait)
      does not match the stored goal entry. */
  lemma MovingIntoGoalIsNotMatched(cat: ConflictAvoidanceTable, key: TimedMove)
    requires key.direction() != WAIT && key.direction() != NO_DIRECTION
    ensures !cat.AtGoalMatches(key)
  {
  }

  /** An absent key reads as the empty list, and a present one never
      reads as empty through the goal part. */
  lemma AbsentKeyReadsEmpty(cat: ConflictAvoidanceTable, key: TimedMove)
    ensures !cat.ContainsKey(key) ==> cat.Get(key) == [] && cat.TryGetValue(key).None?
    ensures cat.AtGoalMatches(key) ==> cat.Get(key) != []
  {
  }
}

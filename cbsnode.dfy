// The conflict-based-search node of CbsNode.cs: the agents' group
// assignment and how it is merged and renumbered, the node order used by the
// open list, the path length of one agent's plan and the constraints
// collected along the chain of ancestors.

module CbsNodes {
  import opened Wrappers
  import opened FixedWidth
  import Moves
  import Plans
  import CbsConstraints

  // ---------------------------------------------------------------------
  // Group assignments as values

  /** Agent x belongs to group v. */
  predicate InGroup(g: seq<int>, x: int, v: int)
  {
    0 <= x < |g| && g[x] == v
  }

  /** The agents of group v in increasing order: the list the merge tests
      build. */
  function Members(g: seq<int>, v: int): seq<int>
  {
    if |g| == 0 then []
    else Members(g[..|g| - 1], v) + (if g[|g| - 1] == v then [|g| - 1] else [])
  }

  lemma {:induction false} MembersAre(g: seq<int>, v: int)
    ensures forall x :: x in Members(g, v) <==> InGroup(g, x, v)
    ensures forall a, b :: 0 <= a < b < |Members(g, v)| ==> Members(g, v)[a] < Members(g, v)[b]
    ensures forall x :: x in Members(g, v) ==> 0 <= x < |g|
  {
    if |g| > 0 {
      var p := g[..|g| - 1];
      MembersAre(p, v);
      var r, t := Members(p, v), Members(g, v);
      assert forall x :: InGroup(p, x, v) <==> InGroup(g, x, v) && x < |g| - 1;
      if g[|g| - 1] == v {
        assert t == r + [|g| - 1];
        forall a, b | 0 <= a < b < |t| ensures t[a] < t[b] {
          assert t[a] == r[a] && r[a] in r;
          if b < |r| {
            assert t[b] == r[b];
          }
        }
      }
    }
  }

  /** MergeGroups(a, b): the larger group number is replaced by the smaller. */
  function Merged(g: seq<int>, a: int, b: int): (r: seq<int>)
    ensures |r| == |g|
  {
    var lo, hi := if b < a then b else a, if b < a then a else b;
    seq(|g|, i requires 0 <= i < |g| => if g[i] == hi then lo else g[i])
  }

  /** After the merge the members of both groups share a group, every agent
      of any other group keeps its number, agents grouped together stay
      together, and merging again changes nothing. */
  lemma MergedProperties(g: seq<int>, a: int, b: int)
    ensures forall x, y :: InGroup(g, x, a) && InGroup(g, y, b) ==> Merged(g, a, b)[x] == Merged(g, a, b)[y]
    ensures forall x :: 0 <= x < |g| && g[x] != a && g[x] != b ==> Merged(g, a, b)[x] == g[x]
    ensures forall x :: 0 <= x < |g| && (g[x] == a || g[x] == b) ==> Merged(g, a, b)[x] == (if b < a then b else a)
    ensures forall x, y :: 0 <= x < |g| && 0 <= y < |g| && g[x] == g[y] ==> Merged(g, a, b)[x] == Merged(g, a, b)[y]
    ensures Merged(Merged(g, a, b), a, b) == Merged(g, a, b)
  {
  }

  /** A conflict between agents a and b runs between group f and group s
      (in either order). */
  predicate Crosses(g: seq<int>, c: (int, int), f: int, s: int)
  {
    (InGroup(g, c.0, f) && InGroup(g, c.1, s)) || (InGroup(g, c.1, f) && InGroup(g, c.0, s))
  }

  /** How many of the conflicts run between group f and group s. */
  function CrossCount(g: seq<int>, cs: seq<(int, int)>, f: int, s: int): (r: nat)
    ensures r <= |cs|
  {
    if |cs| == 0 then 0
    else CrossCount(g, cs[..|cs| - 1], f, s) + (if Crosses(g, cs[|cs| - 1], f, s) then 1 else 0)
  }

  /** Every listed conflict between the groups adds one: none gives 0, all
      gives the length. */
  lemma {:induction false} CrossCountBounds(g: seq<int>, cs: seq<(int, int)>, f: int, s: int)
    ensures (forall k :: 0 <= k < |cs| ==> !Crosses(g, cs[k], f, s)) ==> CrossCount(g, cs, f, s) == 0
    ensures (forall k :: 0 <= k < |cs| ==> Crosses(g, cs[k], f, s)) ==> CrossCount(g, cs, f, s) == |cs|
    ensures (exists k :: 0 <= k < |cs| && Crosses(g, cs[k], f, s)) ==> CrossCount(g, cs, f, s) >= 1
  {
    if |cs| > 0 {
      var p := cs[..|cs| - 1];
      assert forall k :: 0 <= k < |p| ==> p[k] == cs[k];
      CrossCountBounds(g, p, f, s);
      if exists k :: 0 <= k < |cs| && Crosses(g, cs[k], f, s) {
        var k :| 0 <= k < |cs| && Crosses(g, cs[k], f, s);
        if k < |p| {
          assert Crosses(g, p[k], f, s);
        }
      }
    }
  }

  /** The lower-triangular counter table `counter[i]` of length i. */
  predicate Triangular(counter: seq<seq<int>>, n: nat)
  {
    n <= |counter| && forall i :: 0 <= i < n ==> |counter[i]| >= i
  }

  /** The counter entry of the pair a, b: row max(a, b), column min(a, b). */
  function Entry(counter: seq<seq<int>>, n: nat, a: int, b: int): int
    requires Triangular(counter, n) && 0 <= a < n && 0 <= b < n && a != b
  {
    if a > b then counter[a][b] else counter[b][a]
  }

  /** Agents below n, none of them a. */
  predicate Avoids(sg: seq<int>, n: nat, a: int)
  {
    forall k :: 0 <= k < |sg| ==> 0 <= sg[k] < n && sg[k] != a
  }

  /** Two disjoint lists of agents below n. */
  predicate Apart(fg: seq<int>, sg: seq<int>, n: nat)
  {
    forall k :: 0 <= k < |fg| ==> 0 <= fg[k] < n && Avoids(sg, n, fg[k])
  }

  /** The sum of the counter entries of a against every b in sg. */
  function RowSum(counter: seq<seq<int>>, n: nat, a: int, sg: seq<int>): int
    requires Triangular(counter, n) && 0 <= a < n && Avoids(sg, n, a)
  {
    if |sg| == 0 then 0
    else RowSum(counter, n, a, sg[..|sg| - 1]) + Entry(counter, n, a, sg[|sg| - 1])
  }

  /** The sum of the counter entries over every pair of fg by sg. */
  function PairSum(counter: seq<seq<int>>, n: nat, fg: seq<int>, sg: seq<int>): int
    requires Triangular(counter, n) && Apart(fg, sg, n)
  {
    if |fg| == 0 then 0
    else PairSum(counter, n, fg[..|fg| - 1], sg) + RowSum(counter, n, fg[|fg| - 1], sg)
  }

  lemma {:induction false} RowSumAtLeast(counter: seq<seq<int>>, n: nat, a: int, sg: seq<int>, b: int)
    requires Triangular(counter, n) && 0 <= a < n && Avoids(sg, n, a)
    requires forall k :: 0 <= k < |sg| ==> Entry(counter, n, a, sg[k]) >= 0
    ensures RowSum(counter, n, a, sg) >= 0
    ensures b in sg ==> RowSum(counter, n, a, sg) >= Entry(counter, n, a, b)
  {
    if |sg| > 0 {
      var p := sg[..|sg| - 1];
      RowSumAtLeast(counter, n, a, p, b);
      assert sg == p + [sg[|sg| - 1]];
    }
  }

  /** With non-negative counters, the sum is at least any single cross
      pair's count: one pair over the threshold forces a merge (when the
      sum does not wrap). */
  lemma {:induction false} PairSumAtLeast(counter: seq<seq<int>>, n: nat, fg: seq<int>, sg: seq<int>, a: int, b: int)
    requires Triangular(counter, n) && Apart(fg, sg, n)
    requires forall i, k :: 0 <= i < |fg| && 0 <= k < |sg| ==> Entry(counter, n, fg[i], sg[k]) >= 0
    ensures PairSum(counter, n, fg, sg) >= 0
    ensures a in fg && b in sg ==> PairSum(counter, n, fg, sg) >= Entry(counter, n, a, b)
  {
    if |fg| > 0 {
      var p, x := fg[..|fg| - 1], fg[|fg| - 1];
      PairSumAtLeast(counter, n, p, sg, a, b);
      RowSumAtLeast(counter, n, x, sg, b);
      assert fg == p + [x];
    }
  }

  /** The summing loops of the global MergeIf, in unchecked int
      arithmetic. */
  method CrossSum(counter: seq<seq<int>>, n: nat, fg: seq<int>, sg: seq<int>) returns (r: int)
    requires Triangular(counter, n) && Apart(fg, sg, n)
    ensures r == ToInt(PairSum(counter, n, fg, sg))
  {
    r := 0;
    var i := 0;
    while i < |fg|
      invariant 0 <= i <= |fg|
      invariant r == ToInt(PairSum(counter, n, fg[..i], sg))
    {
      assert fg[..i + 1][..i] == fg[..i];
      r := AddRow(counter, n, fg[i], sg, r, PairSum(counter, n, fg[..i], sg));
      i := i + 1;
    }
    assert fg[..|fg|] == fg;
  }

  method AddRow(counter: seq<seq<int>>, n: nat, a: int, sg: seq<int>, acc: int, ghost base: int) returns (r: int)
    requires Triangular(counter, n) && 0 <= a < n && Avoids(sg, n, a)
    requires acc == ToInt(base)
    ensures r == ToInt(base + RowSum(counter, n, a, sg))
  {
    r := acc;
    var j := 0;
    while j < |sg|
      invariant 0 <= j <= |sg|
      invariant r == ToInt(base + RowSum(counter, n, a, sg[..j]))
    {
      var b := sg[j];
      assert sg[..j + 1][..j] == sg[..j];
      var hi, lo := if a > b then a else b, if a > b then b else a;
      ToIntAdd(base + RowSum(counter, n, a, sg[..j]), counter[hi][lo]);
      r := ToInt(r + counter[hi][lo]);
      j := j + 1;
    }
    assert sg[..|sg|] == sg;
  }

  // ---------------------------------------------------------------------
  // NormalizeGroups as values

  /** The group numbers of g in order of first appearance. */
  function Seen(g: seq<int>): seq<int>
  {
    if |g| == 0 then []
    else
      var p := Seen(g[..|g| - 1]);
      if g[|g| - 1] in p then p else p + [g[|g| - 1]]
  }

  predicate NoDuplicates(s: seq<int>)
  {
    forall a, b :: 0 <= a < b < |s| ==> s[a] != s[b]
  }

  lemma {:induction false} SeenProperties(g: seq<int>)
    ensures NoDuplicates(Seen(g))
    ensures forall v :: v in Seen(g) <==> v in g
    ensures |Seen(g)| <= |g|
  {
    if |g| > 0 {
      var p := g[..|g| - 1];
      SeenProperties(p);
      assert g == p + [g[|g| - 1]];
    }
  }

  /** Seen of a prefix is a prefix of Seen. */
  lemma {:induction false} SeenPrefix(g: seq<int>, i: nat)
    requires i <= |g|
    ensures |Seen(g[..i])| <= |Seen(g)| && Seen(g[..i]) == Seen(g)[..|Seen(g[..i])|]
    decreases |g| - i
  {
    if i < |g| {
      var h := g[..|g| - 1];
      assert h[..i] == g[..i];
      SeenPrefix(h, i);
      assert g[..|g|] == g;
    } else {
      assert g[..i] == g;
    }
  }

  /** The position of v in a list that holds it. */
  function IndexOf(s: seq<int>, v: int): (r: nat)
    requires v in s
    ensures r < |s| && s[r] == v && v !in s[..r]
  {
    if s[0] == v then 0 else 1 + IndexOf(s[1..], v)
  }

  lemma IndexOfUnique(s: seq<int>, k: nat)
    requires NoDuplicates(s) && k < |s|
    ensures IndexOf(s, s[k]) == k
  {
  }

  /** What NormalizeGroups leaves in the assignment: every group number
      replaced by its position in order of first appearance. */
  function Normalized(g: seq<int>): (r: seq<int>)
    ensures |r| == |g|
  {
    SeenProperties(g);
    seq(|g|, i requires 0 <= i < |g| => IndexOf(Seen(g), g[i]))
  }

  /** The new numbers are 0..k-1 for k groups, agents share a new number
      exactly when they shared an old one, and the first agent of each
      group gets the number of groups seen before it. */
  lemma NormalizedProperties(g: seq<int>)
    ensures forall i :: 0 <= i < |g| ==> 0 <= Normalized(g)[i] < |Seen(g)|
    ensures forall i, j :: 0 <= i < |g| && 0 <= j < |g| ==> (Normalized(g)[i] == Normalized(g)[j] <==> g[i] == g[j])
    ensures forall i :: 0 <= i < |g| && g[i] !in g[..i] ==> Normalized(g)[i] == |Seen(g[..i])|
  {
    SeenProperties(g);
    forall i | 0 <= i < |g| && g[i] !in g[..i] ensures Normalized(g)[i] == |Seen(g[..i])| {
      NormalizedFirst(g, i);
    }
  }

  /** The first agent of a group gets the number of groups seen before it. */
  lemma NormalizedFirst(g: seq<int>, i: nat)
    requires i < |g| && g[i] !in g[..i]
    ensures Normalized(g)[i] == |Seen(g[..i])|
  {
    SeenProperties(g);
    SeenPrefix(g, i);
    SeenPrefix(g, i + 1);
    SeenProperties(g[..i]);
    var h := g[..i + 1];
    assert h[..i] == g[..i] && h[i] == g[i];
    assert Seen(h) == Seen(g[..i]) + [g[i]];
    assert Seen(g)[|Seen(g[..i])|] == g[i];
    IndexOfUnique(Seen(g), |Seen(g[..i])|);
  }

  /** The renumbering table of NormalizeGroups after the agents of g:
      entry v is the position of group v in order of first appearance, or
      -1 for a number not used yet. */
  function Table(g: seq<int>, n: nat): (t: seq<int>)
    ensures |t| == n
  {
    SeenProperties(g);
    seq(n, v requires 0 <= v < n => if v in g then IndexOf(Seen(g), v) else -1)
  }

  /** One more agent: a group already seen keeps its entry, and a new group
      gets the next number. */
  lemma TableStep(g: seq<int>, i: nat, n: nat)
    requires i < |g| && 0 <= g[i] < n
    ensures Table(g[..i], n)[g[i]] == -1 <==> g[i] !in g[..i]
    ensures g[i] in g[..i] ==> Seen(g[..i + 1]) == Seen(g[..i]) && Table(g[..i + 1], n) == Table(g[..i], n)
    ensures g[i] !in g[..i] ==> |Seen(g[..i + 1])| == |Seen(g[..i])| + 1
    ensures g[i] !in g[..i] ==> Table(g[..i + 1], n) == Table(g[..i], n)[g[i] := |Seen(g[..i])|]
  {
    var h, p := g[..i + 1], g[..i];
    assert h[..i] == p && h[i] == g[i];
    SeenProperties(p);
    SeenProperties(h);
    assert forall v :: v in h <==> v in p || v == g[i];
    if g[i] in p {
      assert Seen(h) == Seen(p);
    } else {
      var q := Seen(p);
      assert Seen(h) == q + [g[i]];
      forall v | 0 <= v < n ensures Table(h, n)[v] == Table(p, n)[g[i] := |q|][v] {
        if v in p {
          var r := IndexOf(q, v);
          assert Seen(h)[r] == v;
          IndexOfUnique(Seen(h), r);
        } else if v == g[i] {
          IndexOfUnique(Seen(h), |q|);
        }
      }
    }
  }

  /** Normalizing looks each group number up in the final table, and every
      new number is below the number of agents. */
  lemma NormalizedIsTable(g: seq<int>, n: nat)
    requires |g| <= n && forall i :: 0 <= i < |g| ==> 0 <= g[i] < n
    ensures forall k :: 0 <= k < |g| ==> Normalized(g)[k] == Table(g, n)[g[k]] && 0 <= Normalized(g)[k] < n
  {
    SeenProperties(g);
    forall k | 0 <= k < |g| ensures Normalized(g)[k] == Table(g, n)[g[k]] {
      assert g[k] in g;
    }
  }

  /** The renumbering table of NormalizeGroups. */
  method Renumbering(g: seq<int>, n: nat) returns (newGroups: array<int>)
    requires forall i :: 0 <= i < |g| ==> 0 <= g[i] < n
    ensures fresh(newGroups) && newGroups[..] == Table(g, n)
  {
    newGroups := new int[n];
    var i := 0;
    while i < n
      invariant 0 <= i <= n
      invariant forall v :: 0 <= v < i ==> newGroups[v] == -1
    {
      newGroups[i] := -1;
      i := i + 1;
    }
    assert newGroups[..] == Table(g[..0], n);
    var groupCount := 0;
    i := 0;
    while i < |g|
      invariant 0 <= i <= |g|
      invariant groupCount == |Seen(g[..i])|
      invariant newGroups[..] == Table(g[..i], n)
    {
      TableStep(g, i, n);
      if newGroups[g[i]] == -1 {
        newGroups[g[i]] := groupCount;
        groupCount := groupCount + 1;
      }
      i := i + 1;
    }
    assert g[..|g|] == g;
  }

  // ---------------------------------------------------------------------
  // Path length

  /** What PathLength returns for a non-empty move list: the index after the
      last move that differs (by Move.Equals) from the final one, 0 if none
      does. */
  ghost predicate IsPathLength(moves: seq<Moves.Move>, r: nat)
    requires |moves| >= 1
  {
    r <= |moves| - 1
    && (forall k :: r <= k < |moves| - 1 ==> Moves.Equals(moves[k], moves[|moves| - 1]))
    && (r > 0 ==> !Moves.Equals(moves[r - 1], moves[|moves| - 1]))
  }

  /** PathLength may pass a step that stays on the goal cell with another
      direction, so it is never below the plan's solution depth
      GetSize() - 1. */
  lemma PathLengthAtLeastDepth(moves: seq<Moves.Move>, r: nat)
    requires |moves| >= 1 && IsPathLength(moves, r)
    ensures Plans.Size(moves) - 1 <= r
  {
    Plans.SizeCharacterization(moves, |moves|);
  }

  // ---------------------------------------------------------------------
  // The node

  /** The conflict a node found, reduced to its two agents. */
  datatype Conflict = Conflict(agentA: int, agentB: int)

  class CbsNode {
    var totalCost: int
    var externalConflictsCount: int
    var depth: int
    var conflict: Option<Conflict>
    var agentsGroupAssignment: array<int>
    /** The route of each agent's plan. */
    var plans: seq<seq<Moves.Move>>
    /** The constraints of this node and of its ancestors down to depth 1. */
    var constraints: seq<CbsConstraints.CbsConstraint>
    /** The conflicts of this node's ancestors, its parent first. */
    var ancestorConflicts: seq<Conflict>

    ghost predicate Valid()
      reads this
    {
      0 <= depth && |constraints| == depth && |ancestorConflicts| == depth
    }

    /** The root: no cost, no conflicts, every agent in its own group
        numbered by itself. The loop counter is a ushort, so the agents
        are fewer than 65536. */
    constructor (numberOfAgents: nat)
      requires numberOfAgents < USHORT_RANGE
      ensures Valid() && fresh(agentsGroupAssignment)
      ensures agentsGroupAssignment.Length == numberOfAgents
      ensures forall i :: 0 <= i < numberOfAgents ==> agentsGroupAssignment[i] == i
      ensures totalCost == 0 && externalConflictsCount == 0 && depth == 0 && conflict.None?
      ensures |plans| == numberOfAgents && constraints == [] && ancestorConflicts == []
    {
      totalCost, externalConflictsCount, depth, conflict := 0, 0, 0, None;
      plans := seq(numberOfAgents, _ => []);
      constraints, ancestorConflicts := [], [];
      var ga := new int[numberOfAgents];
      var i := 0;
      while i < numberOfAgents
        invariant 0 <= i <= numberOfAgents
        invariant forall k :: 0 <= k < i ==> ga[k] == k
      {
        ga[i] := i;
        i := i + 1;
      }
      agentsGroupAssignment := ga;
    }

    /** MergeGroups: relabels the larger group number to the smaller. */
    method MergeGroups(a: int, b: int)
      requires 0 <= a < USHORT_RANGE && 0 <= b < USHORT_RANGE
      modifies agentsGroupAssignment
      ensures agentsGroupAssignment[..] == Merged(old(agentsGroupAssignment[..]), a, b)
    {
      var lo, hi := a, b;
      if hi < lo {
        lo, hi := b, a;
      }
      var g := agentsGroupAssignment;
      ghost var g0 := g[..];
      var i := 0;
      while i < g.Length
        invariant 0 <= i <= g.Length
        invariant forall k :: 0 <= k < i ==> g[k] == (if g0[k] == hi then lo else g0[k])
        invariant forall k :: i <= k < g.Length ==> g[k] == g0[k]
      {
        if g[i] == hi {
          g[i] := ToUShort(lo);
        }
        i := i + 1;
      }
      assert g[..] == Merged(g0, a, b);
    }

    /** The two lists of agents both MergeIf overloads build. */
    method GroupsOf(first: int, second: int) returns (firstGroup: seq<int>, secondGroup: seq<int>)
      ensures firstGroup == Members(agentsGroupAssignment[..], first)
      ensures secondGroup == Members(agentsGroupAssignment[..], second)
    {
      var g := agentsGroupAssignment;
      firstGroup, secondGroup := [], [];
      var i := 0;
      while i < g.Length
        invariant 0 <= i <= g.Length
        invariant firstGroup == Members(g[..i], first) && secondGroup == Members(g[..i], second)
      {
        assert g[..i + 1][..i] == g[..i];
        if g[i] == first {
          firstGroup := firstGroup + [i];
        }
        if g[i] == second {
          secondGroup := secondGroup + [i];
        }
        i := i + 1;
      }
      assert g[..g.Length] == g[..];
    }

    /** MergeIf(mergeThreshold): counts this node's conflict and every
        ancestor conflict between the two conflicting agents' groups, and
        merges the groups when the count exceeds the threshold. */
    method MergeIf(mergeThreshold: int) returns (merged: bool)
      requires conflict.Some?
      requires 0 <= conflict.value.agentA < agentsGroupAssignment.Length
      requires 0 <= conflict.value.agentB < agentsGroupAssignment.Length
      requires forall i :: 0 <= i < agentsGroupAssignment.Length ==> 0 <= agentsGroupAssignment[i] < USHORT_RANGE
      modifies agentsGroupAssignment
      ensures var g := old(agentsGroupAssignment[..]);
        var f, s := g[conflict.value.agentA], g[conflict.value.agentB];
        (merged <==> 1 + CrossCount(g, ancestorConflictPairs(), f, s) > mergeThreshold)
        && agentsGroupAssignment[..] == (if merged then Merged(g, f, s) else g)
    {
      var first := agentsGroupAssignment[conflict.value.agentA];
      var second := agentsGroupAssignment[conflict.value.agentB];
      var firstGroup, secondGroup := GroupsOf(first, second);
      ghost var g := agentsGroupAssignment[..];
      MembersAre(g, first);
      MembersAre(g, second);
      var cs := ancestorConflictPairs();
      var countConflicts := 1;
      var k := 0;
      while k < |cs|
        invariant 0 <= k <= |cs| && countConflicts == 1 + CrossCount(g, cs[..k], first, second)
      {
        assert cs[..k + 1][..k] == cs[..k];
        var a, b := cs[k].0, cs[k].1;
        if (a in firstGroup && b in secondGroup) || (b in firstGroup && a in secondGroup) {
          countConflicts := countConflicts + 1;
        }
        k := k + 1;
      }
      assert cs[..|cs|] == cs;
      if countConflicts > mergeThreshold {
        MergeGroups(first, second);
        merged := true;
      } else {
        merged := false;
      }
    }

    /** The ancestors' conflicts as agent pairs. */
    function ancestorConflictPairs(): (r: seq<(int, int)>)
      reads this
      ensures |r| == |ancestorConflicts|
      ensures forall k :: 0 <= k < |r| ==> r[k] == (ancestorConflicts[k].agentA, ancestorConflicts[k].agentB)
    {
      var cs := ancestorConflicts;
      seq(|cs|, k requires 0 <= k < |cs| => (cs[k].agentA, cs[k].agentB))
    }

    /** MergeIf(mergeThreshold, globalConflictCounter): sums, in unchecked
        int arithmetic, the global counter over every pair of an agent of
        the first group and an agent of the second, and merges the groups
        when the sum exceeds the threshold. The conflicting agents are in
        different groups, so every pair indexes below the diagonal. */
    method MergeIfGlobal(mergeThreshold: int, globalConflictCounter: seq<seq<int>>) returns (merged: bool)
      requires conflict.Some?
      requires 0 <= conflict.value.agentA < agentsGroupAssignment.Length
      requires 0 <= conflict.value.agentB < agentsGroupAssignment.Length
      requires agentsGroupAssignment[conflict.value.agentA] != agentsGroupAssignment[conflict.value.agentB]
      requires forall i :: 0 <= i < agentsGroupAssignment.Length ==> 0 <= agentsGroupAssignment[i] < USHORT_RANGE
      requires Triangular(globalConflictCounter, agentsGroupAssignment.Length)
      modifies agentsGroupAssignment
      ensures var g := old(agentsGroupAssignment[..]);
        var f, s := g[conflict.value.agentA], g[conflict.value.agentB];
        var n := |g|;
        Apart(Members(g, f), Members(g, s), n)
        && (merged <==> ToInt(PairSum(globalConflictCounter, n, Members(g, f), Members(g, s))) > mergeThreshold)
        && agentsGroupAssignment[..] == (if merged then Merged(g, f, s) else g)
    {
      var n := agentsGroupAssignment.Length;
      var first := agentsGroupAssignment[conflict.value.agentA];
      var second := agentsGroupAssignment[conflict.value.agentB];
      var firstGroup, secondGroup := GroupsOf(first, second);
      ghost var g := agentsGroupAssignment[..];
      MembersAre(g, first);
      MembersAre(g, second);
      forall k | 0 <= k < |firstGroup| ensures 0 <= firstGroup[k] < n && Avoids(secondGroup, n, firstGroup[k]) {
        assert firstGroup[k] in firstGroup;
        forall j | 0 <= j < |secondGroup| ensures 0 <= secondGroup[j] < n && secondGroup[j] != firstGroup[k] {
          assert secondGroup[j] in secondGroup;
        }
      }
      var conflictCounter := CrossSum(globalConflictCounter, n, firstGroup, secondGroup);
      if conflictCounter > mergeThreshold {
        MergeGroups(first, second);
        merged := true;
      } else {
        merged := false;
      }
    }

    /** NormalizeGroups: renumbers the groups 0, 1, ... in order of first
        appearance. Group numbers are agent numbers, which index the
        renumbering table; the short counter does not wrap for fewer than
        32768 agents. */
    method NormalizeGroups()
      requires agentsGroupAssignment.Length < 0x8000
      requires forall i :: 0 <= i < agentsGroupAssignment.Length ==> 0 <= agentsGroupAssignment[i] < agentsGroupAssignment.Length
      modifies agentsGroupAssignment
      ensures agentsGroupAssignment[..] == Normalized(old(agentsGroupAssignment[..]))
    {
      var g := agentsGroupAssignment;
      ghost var g0 := g[..];
      var newGroups := Renumbering(g[..], g.Length);
      var table := newGroups[..];
      NormalizedIsTable(g0, g.Length);
      var i := 0;
      while i < g.Length
        invariant 0 <= i <= g.Length
        invariant forall k :: 0 <= k < i ==> g[k] == Normalized(g0)[k]
        invariant forall k :: i <= k < g.Length ==> g[k] == g0[k]
      {
        g[i] := ToUShort(table[g[i]]);
        i := i + 1;
      }
      assert g[..] == Normalized(g0);
    }

    /** CompareTo: lower total cost first, then fewer external conflicts,
        then a node without a conflict (a goal), then the deeper node. */
    function CompareTo(other: CbsNode): (r: int)
      reads this, other
      ensures r == -1 <==> (totalCost < other.totalCost
        || (totalCost == other.totalCost && externalConflictsCount < other.externalConflictsCount)
        || (totalCost == other.totalCost && externalConflictsCount == other.externalConflictsCount
            && (conflict.None? || (other.conflict.Some? && depth > other.depth))))
      ensures r == 1 <==> (totalCost > other.totalCost
        || (totalCost == other.totalCost && externalConflictsCount > other.externalConflictsCount)
        || (totalCost == other.totalCost && externalConflictsCount == other.externalConflictsCount
            && conflict.Some? && (other.conflict.None? || depth < other.depth)))
      ensures r == 0 || r == -1 || r == 1
    {
      if totalCost < other.totalCost then -1
      else if totalCost > other.totalCost then 1
      else if externalConflictsCount < other.externalConflictsCount then -1
      else if externalConflictsCount > other.externalConflictsCount then 1
      else if conflict.None? then -1
      else if other.conflict.None? then 1
      else if depth > other.depth then -1
      else if depth < other.depth then 1
      else 0
    }

    /** PathLength(agent): scans back from the step before the goal for the
        last move that differs from the goal move. */
    method PathLength(agent: nat) returns (r: nat)
      requires agent < |plans| && |plans[agent]| >= 1
      ensures IsPathLength(plans[agent], r)
    {
      var moves := plans[agent];
      var goal := moves[|moves| - 1];
      var i := |moves| - 2;
      while i >= 0
        invariant -1 <= i <= |moves| - 2
        invariant forall k :: i < k < |moves| - 1 ==> Moves.Equals(moves[k], goal)
      {
        if !Moves.Equals(moves[i], goal) {
          return i + 1;
        }
        i := i - 1;
      }
      return 0;
    }

    /** GetConstraints: the constraints along the chain of ancestors, as a
        set (ordinary constraints are equal exactly when identical). */
    method GetConstraints() returns (r: set<CbsConstraints.CbsConstraint>)
      requires Valid()
      ensures forall c :: c in r <==> c in constraints
      ensures |r| <= depth
    {
      r := {};
      var i := 0;
      while i < depth
        invariant 0 <= i <= depth
        invariant forall c :: c in r <==> c in constraints[..i]
        invariant |r| <= i
      {
        assert constraints[..i + 1] == constraints[..i] + [constraints[i]];
        r := r + {constraints[i]};
        i := i + 1;
      }
      assert constraints[..depth] == constraints;
    }
  }

  /** Node order: with both conflicts present CompareTo is antisymmetric,
      but a goal node compares below every node with the same cost and
      external conflicts, even another goal node and itself. */
  lemma CompareToShape(a: CbsNode, b: CbsNode)
    ensures a.conflict.Some? && b.conflict.Some? ==> a.CompareTo(b) == -b.CompareTo(a)
    ensures a.conflict.None? && a.totalCost == b.totalCost && a.externalConflictsCount == b.externalConflictsCount
      ==> a.CompareTo(b) == -1
    ensures a.conflict.None? ==> a.CompareTo(a) == -1
  {
  }
}

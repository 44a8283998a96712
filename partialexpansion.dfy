// existingChildForF of AStarWithPartialExpansion.cs: whether the agents from
// a given one on can pick operators whose f changes add up to a target,
// memoised in a lookup table that is created on first use and whose rows
// grow on demand.

module PartialExpansion {
  import opened Wrappers
  import opened AStarMdds

  /** allMoves: per agent, per operator, the change in f it causes. A
      negative target can never be met. */
  lemma NegativeUnreachable(allMoves: seq<seq<int>>, agent: nat, target: int)
    requires agent <= |allMoves| && Bytes(allMoves) && target < 0
    ensures !Exists(allMoves, agent, target)
  {
  }

  /** A later table keeps every size and every known answer of an earlier
      one. */
  ghost predicate Keeps(before: Option<seq<seq<int>>>, after: Option<seq<seq<int>>>)
  {
    before.None? || (after.Some? && |after.value| == |before.value|
      && forall a :: 0 <= a < |before.value| ==>
           |after.value[a]| >= |before.value[a]|
           && forall v :: 0 <= v < |before.value[a]| && before.value[a][v] != 0 ==> after.value[a][v] == before.value[a][v])
  }

  lemma KeepsTransitive(t1: Option<seq<seq<int>>>, t2: Option<seq<seq<int>>>, t3: Option<seq<seq<int>>>)
    requires Keeps(t1, t2) && Keeps(t2, t3)
    ensures Keeps(t1, t3)
  {
  }

  /** The copy loop of a grown row: the old entries, then zeros. */
  method Widen(row: seq<int>, n: nat) returns (wide: seq<int>)
    requires |row| <= n
    ensures |wide| == n && wide[..|row|] == row
    ensures forall k :: |row| <= k < n ==> wide[k] == 0
  {
    wide := seq(n, _ => 0);
    var i := 0;
    while i < |row|
      invariant 0 <= i <= |row| && |wide| == n
      invariant forall k :: 0 <= k < i ==> wide[k] == row[k]
      invariant forall k :: i <= k < n ==> wide[k] == 0
    {
      wide := wide[i := row[i]];
      i := i + 1;
    }
  }

  class PeaSolver {
    /** fLookup: null until the first query of an expansion, then one row
        per agent; 1 known reachable, -1 known unreachable, 0 unknown. */
    var fLookup: Option<seq<seq<int>>>

    /** Every known answer agrees with Exists for these moves. */
    ghost predicate Sound(allMoves: seq<seq<int>>)
      reads this
    {
      fLookup.None? || (|fLookup.value| == |allMoves|
        && forall a, v :: 0 <= a < |allMoves| && 0 <= v < |fLookup.value[a]| ==>
             -1 <= fLookup.value[a][v] <= 1
             && (fLookup.value[a][v] == 1 ==> Exists(allMoves, a, v))
             && (fLookup.value[a][v] == -1 ==> !Exists(allMoves, a, v)))
    }

    /** Expand starts each node with no table. */
    method ResetLookup()
      modifies this`fLookup
      ensures fLookup.None?
    {
      fLookup := None;
    }

    /** existingChildForF: the answer is Exists, the table stays sound and
        keeps what it knew. */
    method ExistingChildForF(allMoves: seq<seq<int>>, agent: nat, target: int) returns (b: bool)
      requires agent <= |allMoves| && Bytes(allMoves) && Sound(allMoves)
      modifies this`fLookup
      ensures b == Exists(allMoves, agent, target)
      ensures Sound(allMoves) && Keeps(old(fLookup), fLookup)
      decreases |allMoves| - agent, 1
    {
      if target < 0 {
        NegativeUnreachable(allMoves, agent, target);
        return false;
      }
      if agent == |allMoves| {
        return target == 0;
      }
      Prepare(allMoves, agent, target);
      var known := fLookup.value[agent][target];
      if known != 0 {
        return known == 1;
      }
      ghost var ready := fLookup;
      b := SearchChildren(allMoves, agent, target);
      KeepsTransitive(old(fLookup), ready, fLookup);
    }

    /** The table set-up: created with rows of 1 + 2 * (number of agents)
        unknowns when missing, and the agent's row grown to hold the
        target, old entries kept. */
    method Prepare(allMoves: seq<seq<int>>, agent: nat, target: nat)
      requires agent < |allMoves| && Sound(allMoves)
      modifies this`fLookup
      ensures fLookup.Some? && |fLookup.value| == |allMoves| && target < |fLookup.value[agent]|
      ensures old(fLookup).None? ==> forall a :: 0 <= a < |allMoves| && a != agent ==>
        fLookup.value[a] == seq(1 + 2 * |allMoves|, _ => 0)
      ensures Sound(allMoves) && Keeps(old(fLookup), fLookup)
    {
      var table: seq<seq<int>>;
      if fLookup.None? {
        var n := |allMoves|;
        table := seq(n, _ => seq(1 + 2 * n, _ => 0));
      } else {
        table := fLookup.value;
      }
      if target + 1 > |table[agent]| {
        var row := Widen(table[agent], target + 1);
        table := table[agent := row];
      }
      fLookup := Some(table);
    }

    /** The loop over the agent's operators, for a target not yet in the
        table. */
    method SearchChildren(allMoves: seq<seq<int>>, agent: nat, target: nat) returns (b: bool)
      requires agent < |allMoves| && Bytes(allMoves) && Sound(allMoves)
      requires fLookup.Some? && |fLookup.value| == |allMoves| && target < |fLookup.value[agent]|
      modifies this`fLookup
      ensures b == Exists(allMoves, agent, target)
      ensures Sound(allMoves) && Keeps(old(fLookup), fLookup)
      decreases |allMoves| - agent, 0
    {
      var moves := allMoves[agent];
      var i := 0;
      while i < |moves|
        invariant 0 <= i <= |moves| && Sound(allMoves) && Keeps(old(fLookup), fLookup)
        invariant forall k :: 0 <= k < i ==> !(moves[k] <= target && Exists(allMoves, agent + 1, target - moves[k]))
      {
        if moves[i] <= target {
          ghost var before := fLookup;
          var found := ExistingChildForF(allMoves, agent + 1, target - moves[i]);
          KeepsTransitive(old(fLookup), before, fLookup);
          if found {
            ghost var found_at := fLookup;
            Remember(allMoves, agent, target, 1);
            KeepsTransitive(old(fLookup), found_at, fLookup);
            return true;
          }
        }
        i := i + 1;
      }
      ghost var before := fLookup;
      Remember(allMoves, agent, target, -1);
      KeepsTransitive(old(fLookup), before, fLookup);
      return false;
    }

    /** One table write of an answer just computed. */
    method Remember(allMoves: seq<seq<int>>, agent: nat, target: nat, answer: int)
      requires Sound(allMoves) && fLookup.Some? && agent < |allMoves| && target < |fLookup.value[agent]|
      requires answer == 1 || answer == -1
      requires answer == 1 <==> Exists(allMoves, agent, target)
      modifies this`fLookup
      ensures fLookup == Some(old(fLookup.value[agent := fLookup.value[agent][target := answer]]))
      ensures Sound(allMoves) && Keeps(old(fLookup), fLookup)
    {
      var table := fLookup.value;
      fLookup := Some(table[agent := table[agent][target := answer]]);
    }
  }
}

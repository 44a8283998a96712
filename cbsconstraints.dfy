// CBS constraints (CbsConstraint.cs): an agent may not make a given timed move.

module CbsConstraints {
  import opened FixedWidth
  import opened Wrappers
  import Moves
  import TimedMoves

  /** `agentNum` is a byte; `queryInstance` marks a probe built only to look a
      move up in a set of constraints. */
  datatype CbsConstraint = CbsConstraint(agentNum: int, move: TimedMoves.TimedMove, queryInstance: bool)
  {
    function time(): int { move.time }
  }

  /** Init: the agent number is cast to a byte. */
  function NewConstraint(agentNum: int, move: TimedMoves.TimedMove): (c: CbsConstraint)
    ensures 0 <= c.agentNum < BYTE_RANGE && (c.agentNum - agentNum) % BYTE_RANGE == 0
    ensures c.move == move && !c.queryInstance
  {
    CbsConstraint(ToByte(agentNum), move, false)
  }

  /** Equality: the agents must agree; a query matches by TimedMove equality
      (so a vertex constraint matches a query from any direction); two
      ordinary constraints also need identical directions. */
  function Equals(c: CbsConstraint, other: Option<CbsConstraint>): (r: bool)
    ensures other.None? ==> !r
    ensures other.Some? && c.agentNum != other.value.agentNum ==> !r
    ensures other.Some? && !c.queryInstance && !other.value.queryInstance ==>
      (r <==> c.agentNum == other.value.agentNum && c.move == other.value.move)
    ensures other.Some? && (c.queryInstance || other.value.queryInstance) ==>
      (r <==> c.agentNum == other.value.agentNum && TimedMoves.Equals(c.move, other.value.move))
  {
    match other
    case None => false
    case Some(o) =>
      if c.agentNum != o.agentNum then false
      else if c.queryInstance || o.queryInstance then TimedMoves.Equals(c.move, o.move)
      else TimedMoves.Equals(c.move, o.move) && c.move.direction() == o.move.direction()
  }

  /** Constraints for different agents are never equal. */
  lemma DifferentAgentsNeverEqual(c: CbsConstraint, o: CbsConstraint)
    requires c.agentNum != o.agentNum
    ensures !Equals(c, Some(o)) && !Equals(o, Some(c))
  {
  }

  /** `unchecked(move hash * 3 + agentNum * 5)`: equal ordinary constraints hash equally. */
  function GetHashCode(c: CbsConstraint): (h: int)
    ensures -0x8000_0000 <= h < 0x8000_0000
  {
    ToInt(TimedMoves.GetHashCode(c.move) * 3 + c.agentNum * 5)
  }

  lemma EqualConstraintsHashEqually(c: CbsConstraint, o: CbsConstraint)
    requires Equals(c, Some(o))
    ensures GetHashCode(c) == GetHashCode(o)
  {
    TimedMoves.EqualTimedMovesHashEqually(c.move, o.move);
  }

  /** `c` allows `other` unless both speak of equal moves of the same agent. */
  function Allows(c: CbsConstraint, other: CbsConstraint): (r: bool)
    ensures !r <==> TimedMoves.Equals(c.move, other.move) && c.agentNum == other.agentNum
  {
    if !TimedMoves.Equals(c.move, other.move) then true
    else if c.agentNum == other.agentNum then false
    else true
  }

  /** Orders constraints by time step only: -1, 0 or 1. */
  function CompareTo(c: CbsConstraint, other: CbsConstraint): (r: int)
    ensures r == -1 <==> c.time() < other.time()
    ensures r == 0 <==> c.time() == other.time()
    ensures r == 1 <==> c.time() > other.time()
  {
    if c.time() < other.time() then -1 else if c.time() == other.time() then 0 else 1
  }

  /** A must-constraint of `c.agentNum` is violated by `agent` making any move
      other than `c.move`; other agents never violate it. */
  function ViolatesMustConstraint(c: CbsConstraint, agent: int, move: TimedMoves.TimedMove): (r: bool)
    ensures c.agentNum != agent ==> !r
    ensures c.agentNum == agent ==> (r <==> !TimedMoves.Equals(c.move, move))
  {
    if c.agentNum != agent then false else !TimedMoves.Equals(c.move, move)
  }
}

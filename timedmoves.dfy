// Moves at a given time step (TimedMove.cs).

module TimedMoves {
  import opened FixedWidth
  import Moves

  datatype TimedMove = TimedMove(move: Moves.Move, time: int)
  {
    function x(): int { move.x }
    function y(): int { move.y }
    function direction(): int { move.direction }
  }

  /** Timed moves are equal when their times agree and the moves are equal
      (Moves.Equals, direction wildcard included). */
  function Equals(a: TimedMove, b: TimedMove): (r: bool)
    ensures a.time != b.time ==> !r
    ensures a.time == b.time ==> (r <==> Moves.Equals(a.move, b.move))
  {
    if a.time != b.time then false else Moves.Equals(a.move, b.move)
  }

  /** `unchecked(base hash * 3 + time)`. */
  function GetHashCode(t: TimedMove): (h: int)
    ensures -0x8000_0000 <= h < 0x8000_0000
  {
    ToInt(Moves.GetHashCode(t.move) * 3 + t.time)
  }

  /** HashSet<TimedMove>.Contains: some member is Equals to `x`. */
  predicate Contains(s: set<TimedMove>, x: TimedMove)
  {
    exists k :: k in s && Equals(k, x)
  }

  /** HashSet<TimedMove>.Add: `x` joins the set only when no member is
      Equals to it; afterwards the set contains it either way. */
  function HashSetAdd(s: set<TimedMove>, x: TimedMove): (r: set<TimedMove>)
    ensures s <= r <= s + {x}
    ensures Contains(r, x)
    ensures Contains(s, x) ==> r == s
    ensures !Contains(s, x) ==> x in r
  {
    if Contains(s, x) then s
    else
      assert Equals(x, x);
      s + {x}
  }

  /** A directionless member already answers for a move in any direction,
      so adding that move leaves the set as it was. */
  lemma DirectionlessMemberAbsorbsAdd()
    ensures var s := {TimedMove(Moves.Move(0, 0, Moves.NO_DIRECTION), 0)};
      HashSetAdd(s, TimedMove(Moves.Move(0, 0, 3), 0)) == s
  {
    var s := {TimedMove(Moves.Move(0, 0, Moves.NO_DIRECTION), 0)};
    assert Equals(TimedMove(Moves.Move(0, 0, Moves.NO_DIRECTION), 0), TimedMove(Moves.Move(0, 0, 3), 0));
  }

  lemma EqualTimedMovesHashEqually(a: TimedMove, b: TimedMove)
    requires Equals(a, b)
    ensures GetHashCode(a) == GetHashCode(b)
  {
  }

  /** Timed moves collide only at the same time step, and then exactly when
      their moves are equal. */
  function IsColliding(a: TimedMove, other: TimedMove): (r: bool)
    ensures a.time != other.time ==> !r
    ensures a.time == other.time ==> (r <==> Moves.Equals(a.move, other.move))
  {
    if a.time != other.time then false else Moves.Equals(a.move, other.move)
  }

  /** The opposite move at the same time step. */
  function GetOppositeMove(t: TimedMove): (r: TimedMove)
    ensures r.time == t.time
    ensures r.move == Moves.GetOppositeMove(t.move)
  {
    var opposite := Moves.GetOppositeMove(t.move);
    TimedMove(Moves.Move(opposite.x, opposite.y, opposite.direction), t.time)
  }

  /** The opposite of the opposite is the timed move itself. */
  lemma TimedOppositeInvolution(t: TimedMove)
    ensures GetOppositeMove(GetOppositeMove(t)) == t
  {
    Moves.OppositeInvolution(t.move);
  }

  /** A collision as the comment on isColliding describes it: at the same
      time step, both moves target one cell or they swap cells head on. */
  function IsCollidingAsDocumented(a: TimedMove, other: TimedMove): (r: bool)
    ensures r <==> (a.time == other.time
      && ((a.x() == other.x() && a.y() == other.y()) || other.move == Moves.GetOppositeMove(a.move)))
  {
    a.time == other.time && Moves.IsColliding(a.move, other.move)
  }

  /** Every collision isColliding reports is a documented one. */
  lemma AsWrittenCollisionsDocumented(a: TimedMove, other: TimedMove)
    requires IsColliding(a, other)
    ensures IsCollidingAsDocumented(a, other)
  {
  }

  /** isColliding misses the head-on swap of two neighbouring cells and two
      moves into one cell from different directions. */
  lemma TimedHeadOnMissed()
    ensures var a := TimedMove(Moves.Move(1, 0, 3), 1);
      var b := TimedMove(Moves.Move(0, 0, 1), 1);
      IsCollidingAsDocumented(a, b) && !IsColliding(a, b)
    ensures var a := TimedMove(Moves.Move(0, 0, 1), 1);
      var b := TimedMove(Moves.Move(0, 0, 2), 1);
      IsCollidingAsDocumented(a, b) && !IsColliding(a, b)
  {
  }
}

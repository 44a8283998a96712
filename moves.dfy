// Grid moves (Move.cs): a target cell plus the direction the agent moved in.
// Directions 1..4 are north, east, south, west; 5..8 are the diagonals;
// 0 is a wait and -1 (NO_DIRECTION) marks a move that carries no direction.

module Moves {
  import opened FixedWidth

  const NO_DIRECTION: int := -1
  const WAIT: int := 0

  datatype Move = Move(x: int, y: int, direction: int)

  /** The displacement (target - source) of each direction; (0, 0) for a wait
      and for the codes that are not directions. */
  function Delta(direction: int): (int, int)
  {
    match direction
    case 1 => (-1, 0)
    case 2 => (0, 1)
    case 3 => (1, 0)
    case 4 => (0, -1)
    case 5 => (-1, 1)
    case 6 => (1, 1)
    case 7 => (1, -1)
    case 8 => (-1, -1)
    case _ => (0, 0)
  }

  predicate IsStep(direction: int) { 1 <= direction <= 8 }

  /** The move an agent makes when it travels `m` backwards: it ends in the
      cell `m` started from and moves in the reverse direction. Moves of any
      other direction are their own opposite. */
  function GetOppositeMove(m: Move): (r: Move)
    ensures IsStep(m.direction) ==>
      IsStep(r.direction)
      && (r.x, r.y) == (m.x - Delta(m.direction).0, m.y - Delta(m.direction).1)
      && Delta(r.direction) == (-Delta(m.direction).0, -Delta(m.direction).1)
    ensures !IsStep(m.direction) ==> r == m
  {
    match m.direction
    case 1 => Move(m.x + 1, m.y, 3)
    case 2 => Move(m.x, m.y - 1, 4)
    case 3 => Move(m.x - 1, m.y, 1)
    case 4 => Move(m.x, m.y + 1, 2)
    case 5 => Move(m.x + 1, m.y - 1, 7)
    case 6 => Move(m.x - 1, m.y - 1, 8)
    case 7 => Move(m.x - 1, m.y + 1, 5)
    case 8 => Move(m.x + 1, m.y + 1, 6)
    case _ => m
  }

  /** Taking the opposite twice gives the move back. */
  lemma OppositeInvolution(m: Move)
    ensures GetOppositeMove(GetOppositeMove(m)) == m
  {
  }

  /** A Move object whose fields `setOppositeMove` rewrites in place. */
  class MutableMove {
    var x: int
    var y: int
    var direction: int

    function Value(): Move
      reads this
    {
      Move(x, y, direction)
    }

    constructor (x: int, y: int, direction: int)
      ensures Value() == Move(x, y, direction)
    {
      this.x, this.y, this.direction := x, y, direction;
    }

    /** Turns this move into its opposite. */
    method SetOppositeMove()
      modifies this
      ensures Value() == GetOppositeMove(old(Value()))
    {
      match direction {
        case 1 => x := x + 1; direction := 3;
        case 2 => y := y - 1; direction := 4;
        case 3 => x := x - 1; direction := 1;
        case 4 => y := y + 1; direction := 2;
        case 5 => x := x + 1; y := y - 1; direction := 7;
        case 6 => x := x - 1; y := y - 1; direction := 8;
        case 7 => x := x - 1; y := y + 1; direction := 5;
        case 8 => x := x + 1; y := y + 1; direction := 6;
        case _ =>
      }
    }
  }

  /** `other` collides with `m` when both target the same cell, or head on:
      `other` is exactly the reverse of `m`. */
  function IsColliding(m: Move, other: Move): (r: bool)
    ensures r <==> (m.x == other.x && m.y == other.y) || other == GetOppositeMove(m)
  {
    if m.x == other.x && m.y == other.y then true
    else match m.direction
      case 0 => false
      case 1 => other.x == m.x + 1 && other.y == m.y && other.direction == 3
      case 2 => other.x == m.x && other.y == m.y - 1 && other.direction == 4
      case 3 => other.x == m.x - 1 && other.y == m.y && other.direction == 1
      case 4 => other.x == m.x && other.y == m.y + 1 && other.direction == 2
      case 5 => other.x == m.x + 1 && other.y == m.y - 1 && other.direction == 7
      case 6 => other.x == m.x - 1 && other.y == m.y - 1 && other.direction == 8
      case 7 => other.x == m.x - 1 && other.y == m.y + 1 && other.direction == 5
      case 8 => other.x == m.x + 1 && other.y == m.y + 1 && other.direction == 6
      case _ => false
  }

  /** The overload that takes the other agent's move as three numbers. */
  function IsCollidingWith(m: Move, x: int, y: int, direction: int): (r: bool)
    ensures r == IsColliding(m, Move(x, y, direction))
  {
    if m.x == x && m.y == y then true
    else match m.direction
      case 0 => false
      case 1 => x == m.x + 1 && y == m.y && direction == 3
      case 2 => x == m.x && y == m.y - 1 && direction == 4
      case 3 => x == m.x - 1 && y == m.y && direction == 1
      case 4 => x == m.x && y == m.y + 1 && direction == 2
      case 5 => x == m.x + 1 && y == m.y - 1 && direction == 7
      case 6 => x == m.x - 1 && y == m.y - 1 && direction == 8
      case 7 => x == m.x - 1 && y == m.y + 1 && direction == 5
      case 8 => x == m.x + 1 && y == m.y + 1 && direction == 6
      case _ => false
  }

  /** A head-on collision (different cells) needs `other` to sit in the
      neighbouring cell `m` came from, moving in the opposite direction. */
  lemma HeadOnCollision(m: Move, other: Move)
    requires IsColliding(m, other) && (m.x != other.x || m.y != other.y)
    ensures IsStep(m.direction) && IsStep(other.direction)
    ensures other.x == m.x - Delta(m.direction).0 && other.y == m.y - Delta(m.direction).1
    ensures Delta(other.direction) == (-Delta(m.direction).0, -Delta(m.direction).1)
  {
  }

  /** Collision is symmetric. */
  lemma {:induction false} CollisionSymmetric(m: Move, other: Move)
    ensures IsColliding(m, other) == IsColliding(other, m)
  {
    if other == GetOppositeMove(m) { OppositeInvolution(m); }
    if m == GetOppositeMove(other) { OppositeInvolution(other); }
  }

  /** The direction code of a step from (fromX, fromY) to (toX, toY), read
      off `dx + 2 * dy`; a wait, and anything unrecognised, gives 0. */
  function GetDirection(toX: int, toY: int, fromX: int, fromY: int): (r: int)
    ensures 0 <= r <= 4
    ensures var d := (toX - fromX, toY - fromY);
      d in {(0, 0), (-1, 0), (0, 1), (1, 0), (0, -1)} ==> Delta(r) == d
  {
    var temp := (toX - fromX) + (toY - fromY) * 2;
    match temp
    case 0 => 0
    case -1 => 1
    case 2 => 2
    case 1 => 3
    case -2 => 4
    case _ => 0
  }

  /** GetDirection inverts Delta on the four unit steps and the wait. */
  lemma GetDirectionInvertsDelta(x: int, y: int, d: int)
    requires 0 <= d <= 4
    ensures GetDirection(x + Delta(d).0, y + Delta(d).1, x, y) == d
  {
  }

  /** Two moves are equal when they target the same cell and their directions
      agree, a missing direction (NO_DIRECTION) matching any direction. */
  function Equals(m: Move, that: Move): (r: bool)
    ensures m.direction == NO_DIRECTION || that.direction == NO_DIRECTION ==> (r <==> m.x == that.x && m.y == that.y)
    ensures m.direction != NO_DIRECTION && that.direction != NO_DIRECTION ==> (r <==> m == that)
  {
    m.x == that.x && m.y == that.y
    && (m.direction == NO_DIRECTION || that.direction == NO_DIRECTION || m.direction == that.direction)
  }

  /** Equals is reflexive and symmetric. */
  lemma EqualsProperties(a: Move, b: Move)
    ensures Equals(a, a)
    ensures Equals(a, b) == Equals(b, a)
  {
  }

  /** Because of that wildcard, Equals is not transitive. */
  lemma EqualsNotTransitive()
    ensures Equals(Move(0, 0, 1), Move(0, 0, NO_DIRECTION))
    ensures Equals(Move(0, 0, NO_DIRECTION), Move(0, 0, 2))
    ensures !Equals(Move(0, 0, 1), Move(0, 0, 2))
  {
  }

  /** The hash `x + y * 10000` in 32-bit arithmetic; it ignores the
      direction, so equal moves hash equally. */
  function GetHashCode(m: Move): (h: int)
    ensures -0x8000_0000 <= h < 0x8000_0000
    ensures -0x8000_0000 <= m.x + m.y * 10000 < 0x8000_0000 ==> h == m.x + m.y * 10000
  {
    ToInt(m.x + m.y * 10000)
  }

  lemma EqualMovesHashEqually(a: Move, b: Move)
    requires Equals(a, b)
    ensures GetHashCode(a) == GetHashCode(b)
  {
  }
}

/** The Snake game's head component (Games/Snake/Components/SnakeHead.h):
    the direction it moves in, the direction it turns to next, and the
    rule that it never turns straight back. */
module SnakeHeadComponent {

  datatype Direction = Up | Down | Left | Right

  function Opposite(d: Direction): (r: Direction)
    ensures r != d
  {
    match d
    case Up => Down
    case Down => Up
    case Left => Right
    case Right => Left
  }

  /** Turning back twice faces the original way. */
  lemma OppositeIsInvolution(d: Direction)
    ensures Opposite(Opposite(d)) == d
  {
  }

  /** The unit step on the screen grid, y growing downwards. */
  function Vector(d: Direction): (v: (int, int))
    ensures (v.0 == 0) != (v.1 == 0) && v.0 * v.0 + v.1 * v.1 == 1
    ensures d == Up || d == Down <==> v.0 == 0
  {
    match d
    case Up => (0, -1)
    case Down => (0, 1)
    case Left => (-1, 0)
    case Right => (1, 0)
  }

  /** Opposite directions step in opposite ways, and distinct directions in
      distinct ways. */
  lemma VectorsOfOpposites(d: Direction, e: Direction)
    ensures Vector(Opposite(d)) == (-Vector(d).0, -Vector(d).1)
    ensures d != e ==> Vector(d) != Vector(e)
  {
  }

  class SnakeHead {
    var currentDirection: Direction
    var nextDirection: Direction
    /** Seconds since the last move and between moves: stored, not computed. */
    var moveTimer: real
    var moveInterval: real
    var segmentsToAdd: int

    /** The next direction never reverses the current one. */
    ghost predicate Valid()
      reads this
    {
      nextDirection != Opposite(currentDirection)
    }

    /** Defaults in the source: `Right` and 0.2 seconds. */
    constructor (direction: Direction, interval: real)
      ensures Valid()
      ensures currentDirection == direction && nextDirection == direction
      ensures moveTimer == 0.0 && moveInterval == interval && segmentsToAdd == 0
    {
      currentDirection, nextDirection := direction, direction;
      moveTimer, moveInterval := 0.0, interval;
      segmentsToAdd := 0;
    }

    /** A fresh head with the same current direction and interval; the next
        direction, timer and pending segments start over. */
    method Clone() returns (c: SnakeHead)
      ensures fresh(c) && c.Valid()
      ensures c.currentDirection == currentDirection && c.nextDirection == currentDirection
      ensures c.moveInterval == moveInterval && c.moveTimer == 0.0 && c.segmentsToAdd == 0
    {
      c := new SnakeHead(currentDirection, moveInterval);
    }

    /** Reversal is ignored; any other direction becomes the next one. The
        current direction does not change here. */
    method SetDirection(direction: Direction)
      modifies this
      ensures old(Valid()) ==> Valid()
      ensures currentDirection == old(currentDirection)
      ensures direction == Opposite(currentDirection) ==> nextDirection == old(nextDirection)
      ensures direction != Opposite(currentDirection) ==> nextDirection == direction
      ensures moveTimer == old(moveTimer) && moveInterval == old(moveInterval)
      ensures segmentsToAdd == old(segmentsToAdd)
    {
      if (currentDirection == Up && direction == Down) ||
         (currentDirection == Down && direction == Up) ||
         (currentDirection == Left && direction == Right) ||
         (currentDirection == Right && direction == Left) {
        return;
      }
      nextDirection := direction;
    }

    /** `GetDirectionVector`, with the float out-parameters as integers. */
    function GetDirectionVector(): (v: (int, int))
      reads this
      ensures (v.0 == 0) != (v.1 == 0) && v.0 * v.0 + v.1 * v.1 == 1
      ensures currentDirection == Up || currentDirection == Down <==> v.0 == 0
    {
      Vector(currentDirection)
    }
  }
}

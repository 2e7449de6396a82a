/**
 * Positions on a square board and the four-connected moves between them.
 * Both the tower-defense board and the genetic optimiser's grid step only
 * left, right, up or down, never diagonally.
 */
module Geometry {

  /** A board position (x, y). */
  type Coord = (int, int)

  function Abs(z: int): nat
  {
    if z < 0 then -z else z
  }

  /** Number of orthogonal unit steps between a and b on an open board. */
  function Manhattan(a: Coord, b: Coord): nat
  {
    Abs(a.0 - b.0) + Abs(a.1 - b.1)
  }

  /** b is the left, right, upper or lower neighbour of a (never a diagonal one). */
  predicate Adjacent(a: Coord, b: Coord)
  {
    || b == (a.0 - 1, a.1)
    || b == (a.0 + 1, a.1)
    || b == (a.0, a.1 - 1)
    || b == (a.0, a.1 + 1)
  }

  /** Every step of the walk goes to an orthogonal neighbour. */
  ghost predicate UnitSteps(p: seq<Coord>)
  {
    forall i :: 0 < i < |p| ==> Adjacent(p[i - 1], p[i])
  }

  /** A walk of unit steps has at least one node more than the Manhattan distance it covers. */
  lemma {:induction false} WalkAtLeastManhattan(p: seq<Coord>)
    requires |p| > 0 && UnitSteps(p)
    ensures |p| >= Manhattan(p[0], p[|p| - 1]) + 1
  {
    if |p| > 1 {
      var q := p[..|p| - 1];
      assert UnitSteps(q) by {
        forall i | 0 < i < |q| ensures Adjacent(q[i - 1], q[i]) {
          assert q[i - 1] == p[i - 1] && q[i] == p[i];
        }
      }
      WalkAtLeastManhattan(q);
      assert Adjacent(p[|p| - 2], p[|p| - 1]);
    }
  }
}

/** Grid positions and the Manhattan heuristic `h` used by the A* search. */
module Heuristic {

  /** A cell position `(row, col)`, as returned by `Node.getPos`. */
  type Pos = (int, int)

  function Abs(x: int): nat
  {
    if x < 0 then -x else x
  }

  /** Manhattan distance `|x1 - x2| + |y1 - y2|`; it is zero exactly on equal positions. */
  function H(p1: Pos, p2: Pos): (d: nat)
    ensures d == 0 <==> p1 == p2
  {
    Abs(p1.0 - p2.0) + Abs(p1.1 - p2.1)
  }

  /** Two positions are 4-adjacent when they differ by exactly one in row or in column. */
  predicate Adjacent(p: Pos, q: Pos)
  {
    H(p, q) == 1
  }

  lemma HSymmetric(p1: Pos, p2: Pos)
    ensures H(p1, p2) == H(p2, p1)
  {
  }

  /** The triangle inequality. */
  lemma HTriangle(p: Pos, q: Pos, t: Pos)
    ensures H(p, t) <= H(p, q) + H(q, t)
  {
  }

  /** Consistency: one step between adjacent cells changes the heuristic by at most one. */
  lemma HConsistent(p: Pos, q: Pos, t: Pos)
    requires Adjacent(p, q)
    ensures H(q, t) <= H(p, t) + 1 && H(p, t) <= H(q, t) + 1
  {
    HTriangle(q, p, t);
    HTriangle(p, q, t);
    HSymmetric(p, q);
  }
}

/** One cell of the grid (`Node`) with its colour tag and its cached neighbour list. */
module Cell {
  import opened Heuristic

  /** The colour tag of a cell: WHITE, BLACK, ORANGE, TURQUOISE, GREEN, RED and PURPLE. */
  datatype Colour = Empty | Barrier | Start | End | Open | Closed | Path

  /** A cell. Its position, pixel geometry and the grid size never change after
      construction; its colour and its neighbour list do. */
  class Node {
    const row: int
    const col: int
    const x: int
    const y: int
    const width: int
    const totalRows: int
    var colour: Colour
    var neighbours: seq<Node>

    /** A cell at `(row, col)` drawn as a `width`-pixel square whose corner is at
        `(row * width, col * width)`. */
    constructor (row: int, col: int, width: int, totalRows: int, colour: Colour)
      ensures this.row == row && this.col == col && this.totalRows == totalRows
      ensures x == row * width && y == col * width && this.width == width
      ensures this.colour == colour && neighbours == []
    {
      this.row := row;
      this.col := col;
      x := row * width;
      y := col * width;
      this.width := width;
      this.totalRows := totalRows;
      this.colour := colour;
      neighbours := [];
    }

    function GetPos(): Pos
    {
      (row, col)
    }

    predicate IsClosed() reads this { colour == Closed }
    predicate IsOpen() reads this { colour == Open }
    predicate IsBarrier() reads this { colour == Barrier }
    predicate IsStart() reads this { colour == Start }
    predicate IsPath() reads this { colour == Path }
    predicate IsEnd() reads this { colour == End }

    // Each setter overwrites the tag whatever it was.

    method Reset()
      modifies this`colour
      ensures colour == Empty
    {
      colour := Empty;
    }

    method SetClosed()
      modifies this`colour
      ensures colour == Closed
    {
      colour := Closed;
    }

    method SetOpen()
      modifies this`colour
      ensures colour == Open
    {
      colour := Open;
    }

    method SetBarrier()
      modifies this`colour
      ensures colour == Barrier
    {
      colour := Barrier;
    }

    method SetStart()
      modifies this`colour
      ensures colour == Start
    {
      colour := Start;
    }

    method SetEnd()
      modifies this`colour
      ensures colour == End
    {
      colour := End;
    }

    method SetPath()
      modifies this`colour
      ensures colour == Path
    {
      colour := Path;
    }

    /** Rebuilds the neighbour list from the 4-adjacent cells (down, up, right, left)
        that lie inside the grid and are not barriers. */
    method UpdateNeighbour(grid: seq<seq<Node>>)
      requires WellFormed(grid) && totalRows == |grid|
      requires 0 <= row < |grid| && 0 <= col < |grid|
      modifies this`neighbours
      ensures NeighboursValid(this, grid)
    {
      var found: seq<Node> := [];
      ghost var down, up, right, left: seq<Node> := [], [], [], [];
      if row < totalRows - 1 && !grid[row + 1][col].IsBarrier() {  // down
        found := found + [grid[row + 1][col]];
        down := [grid[row + 1][col]];
      }
      if row > 0 && !grid[row - 1][col].IsBarrier() {  // up
        found := found + [grid[row - 1][col]];
        up := [grid[row - 1][col]];
      }
      assert found == down + up;
      if col < totalRows - 1 && !grid[row][col + 1].IsBarrier() {  // right
        found := found + [grid[row][col + 1]];
        right := [grid[row][col + 1]];
      }
      assert found == down + up + right;
      if col > 0 && !grid[row][col - 1].IsBarrier() {  // left
        found := found + [grid[row][col - 1]];
        left := [grid[row][col - 1]];
      }
      assert found == down + up + right + left;
      neighbours := found;
      Candidates(this, grid);
    }
  }

  /** All cells of a grid. */
  function Cells(grid: seq<seq<Node>>): set<Node>
  {
    set i, j | 0 <= i < |grid| && 0 <= j < |grid[i]| :: grid[i][j]
  }

  /** The grid is square and every cell knows its own position and the grid size. */
  ghost predicate WellFormed(grid: seq<seq<Node>>)
  {
    && (forall i :: 0 <= i < |grid| ==> |grid[i]| == |grid|)
    && (forall i, j :: 0 <= i < |grid| && 0 <= j < |grid[i]| ==>
          grid[i][j].row == i && grid[i][j].col == j && grid[i][j].totalRows == |grid|)
  }

  /** Enumeration rank of the step from `p` to `q`: down, up, right, left. */
  function Direction(p: Pos, q: Pos): nat
  {
    if q == (p.0 + 1, p.1) then 0
    else if q == (p.0 - 1, p.1) then 1
    else if q == (p.0, p.1 + 1) then 2
    else if q == (p.0, p.1 - 1) then 3
    else 4
  }

  /** The position one step from `p` in direction rank `dir`. */
  function Step(p: Pos, dir: nat): Pos
  {
    if dir == 0 then (p.0 + 1, p.1) else if dir == 1 then (p.0 - 1, p.1)
    else if dir == 2 then (p.0, p.1 + 1) else (p.0, p.1 - 1)
  }

  /** The cell one step from `n` in direction rank `dir`, as a list of zero or one cells:
      empty when that position is outside the grid or holds a barrier. */
  ghost function Candidate(n: Node, grid: seq<seq<Node>>, dir: nat): seq<Node>
    requires WellFormed(grid) && dir < 4
    reads Cells(grid)`colour
  {
    var (i, j) := Step(n.GetPos(), dir);
    if 0 <= i < |grid| && 0 <= j < |grid| && grid[i][j].colour != Barrier then [grid[i][j]] else []
  }

  /** The candidates in the fixed enumeration order down, up, right, left. */
  ghost function Scan(n: Node, grid: seq<seq<Node>>): seq<Node>
    requires WellFormed(grid)
    reads Cells(grid)`colour
  {
    Candidate(n, grid, 0) + Candidate(n, grid, 1) + Candidate(n, grid, 2) + Candidate(n, grid, 3)
  }

  /** What `updateNeighbour` leaves behind: the neighbour list is the scan of the four
      candidates in the order down, up, right, left. */
  ghost predicate NeighboursValid(n: Node, grid: seq<seq<Node>>)
    requires WellFormed(grid)
    reads n`neighbours, Cells(grid)`colour
  {
    n.neighbours == Scan(n, grid)
  }

  /** The four candidates of `n` spelled out cell by cell. */
  lemma Candidates(n: Node, grid: seq<seq<Node>>)
    requires WellFormed(grid) && 0 <= n.row < |grid| && 0 <= n.col < |grid|
    ensures |grid[n.row]| == |grid|
    ensures n.row < |grid| - 1 ==> |grid[n.row + 1]| == |grid|
    ensures n.row > 0 ==> |grid[n.row - 1]| == |grid|
    ensures Candidate(n, grid, 0) ==
      if n.row < |grid| - 1 && grid[n.row + 1][n.col].colour != Barrier then [grid[n.row + 1][n.col]] else []
    ensures Candidate(n, grid, 1) ==
      if n.row > 0 && grid[n.row - 1][n.col].colour != Barrier then [grid[n.row - 1][n.col]] else []
    ensures Candidate(n, grid, 2) ==
      if n.col < |grid| - 1 && grid[n.row][n.col + 1].colour != Barrier then [grid[n.row][n.col + 1]] else []
    ensures Candidate(n, grid, 3) ==
      if n.col > 0 && grid[n.row][n.col - 1].colour != Barrier then [grid[n.row][n.col - 1]] else []
  {
  }

  lemma StepDirection(p: Pos, dir: nat)
    requires dir < 4
    ensures Adjacent(p, Step(p, dir)) && Direction(p, Step(p, dir)) == dir
  {
  }

  /** Every 4-adjacent position is one step away in the direction `Direction` names. */
  lemma AdjacentStep(p: Pos, q: Pos)
    requires Adjacent(p, q)
    ensures Direction(p, q) < 4 && Step(p, Direction(p, q)) == q
  {
  }

  lemma CandidateSound(n: Node, grid: seq<seq<Node>>, dir: nat)
    requires WellFormed(grid) && dir < 4
    ensures |Candidate(n, grid, dir)| <= 1
    ensures forall m :: m in Candidate(n, grid, dir) ==>
      m in Cells(grid) && m.GetPos() == Step(n.GetPos(), dir) && m.colour != Barrier
  {
    var (i, j) := Step(n.GetPos(), dir);
    if 0 <= i < |grid| && 0 <= j < |grid| && grid[i][j].colour != Barrier {
      assert grid[i][j] in Cells(grid);
    }
  }

  /** Soundness of `updateNeighbour`: at most four entries, each a grid cell that is
      4-adjacent to `n` and not a barrier. */
  lemma ScanSound(n: Node, grid: seq<seq<Node>>)
    requires WellFormed(grid)
    ensures |Scan(n, grid)| <= 4
    ensures forall m :: m in Scan(n, grid) ==>
      m in Cells(grid) && Adjacent(n.GetPos(), m.GetPos()) && m.colour != Barrier
  {
    forall dir | 0 <= dir < 4
      ensures forall m :: m in Candidate(n, grid, dir) ==>
        m in Cells(grid) && Adjacent(n.GetPos(), m.GetPos()) && m.colour != Barrier
    {
      CandidateSound(n, grid, dir);
      StepDirection(n.GetPos(), dir);
    }
    CandidateSound(n, grid, 0);
    CandidateSound(n, grid, 1);
    CandidateSound(n, grid, 2);
    CandidateSound(n, grid, 3);
  }

  /** Completeness of `updateNeighbour`: every grid cell that is 4-adjacent to `n` and
      not a barrier is listed. */
  lemma ScanComplete(n: Node, grid: seq<seq<Node>>, m: Node)
    requires WellFormed(grid)
    requires m in Cells(grid) && Adjacent(n.GetPos(), m.GetPos()) && m.colour != Barrier
    ensures m in Scan(n, grid)
  {
    var i, j :| 0 <= i < |grid| && 0 <= j < |grid[i]| && grid[i][j] == m;
    AdjacentStep(n.GetPos(), m.GetPos());
    var dir := Direction(n.GetPos(), m.GetPos());
    assert Candidate(n, grid, dir) == [m];
  }

  /** The directions of `list`, seen from `p`, strictly increase. */
  ghost predicate InDirectionOrder(p: Pos, list: seq<Node>)
  {
    forall k, l :: 0 <= k < l < |list| ==> Direction(p, list[k].GetPos()) < Direction(p, list[l].GetPos())
  }

  lemma OrderConcat(p: Pos, a: seq<Node>, b: seq<Node>, d: nat)
    requires InDirectionOrder(p, a) && InDirectionOrder(p, b)
    requires forall m :: m in a ==> Direction(p, m.GetPos()) < d
    requires forall m :: m in b ==> Direction(p, m.GetPos()) == d
    ensures InDirectionOrder(p, a + b)
  {
    forall k, l | 0 <= k < l < |a + b|
      ensures Direction(p, (a + b)[k].GetPos()) < Direction(p, (a + b)[l].GetPos())
    {
      if l < |a| {
      } else if k < |a| {
        assert (a + b)[k] in a && (a + b)[l] in b;
      } else {
        assert (a + b)[k] == b[k - |a|] && (a + b)[l] == b[l - |a|];
      }
    }
  }

  /** The list follows the enumeration order down, up, right, left; in particular no
      cell is listed twice. */
  lemma ScanOrdered(n: Node, grid: seq<seq<Node>>)
    requires WellFormed(grid)
    ensures InDirectionOrder(n.GetPos(), Scan(n, grid))
  {
    var p := n.GetPos();
    forall dir | 0 <= dir < 4
      ensures forall m :: m in Candidate(n, grid, dir) ==> Direction(p, m.GetPos()) == dir
    {
      CandidateSound(n, grid, dir);
      StepDirection(p, dir);
    }
    var c0, c1, c2, c3 := Candidate(n, grid, 0), Candidate(n, grid, 1), Candidate(n, grid, 2), Candidate(n, grid, 3);
    CandidateSound(n, grid, 0);
    CandidateSound(n, grid, 1);
    CandidateSound(n, grid, 2);
    CandidateSound(n, grid, 3);
    OrderConcat(p, c0, c1, 1);
    OrderConcat(p, c0 + c1, c2, 2);
    OrderConcat(p, c0 + c1 + c2, c3, 3);
  }

  /** The six colour tests and the empty colour cover every cell, and exactly one of
      them holds at a time. */
  lemma TestsPartition(n: Node)
    ensures (if n.IsClosed() then 1 else 0) + (if n.IsOpen() then 1 else 0) + (if n.IsBarrier() then 1 else 0)
      + (if n.IsStart() then 1 else 0) + (if n.IsPath() then 1 else 0) + (if n.IsEnd() then 1 else 0)
      + (if n.colour == Empty then 1 else 0) == 1
  {
  }

  /** In a well-formed grid the position identifies the cell: it indexes the grid at
      that cell, and two cells share a position only when they are the same cell. */
  lemma PositionIdentifies(grid: seq<seq<Node>>, m: Node, n: Node)
    requires WellFormed(grid) && m in Cells(grid) && n in Cells(grid)
    ensures 0 <= m.GetPos().0 < |grid| && 0 <= m.GetPos().1 < |grid| && grid[m.GetPos().0][m.GetPos().1] == m
    ensures m.GetPos() == n.GetPos() <==> m == n
  {
    CellIndex(grid, m);
    CellIndex(grid, n);
  }

  /** A cell belongs to a well-formed grid exactly when it sits at its own position. */
  lemma CellIndex(grid: seq<seq<Node>>, m: Node)
    requires WellFormed(grid)
    ensures m in Cells(grid) <==> 0 <= m.row < |grid| && 0 <= m.col < |grid| && grid[m.row][m.col] == m
  {
    if m in Cells(grid) {
      var i, j :| 0 <= i < |grid| && 0 <= j < |grid[i]| && grid[i][j] == m;
    }
  }
}

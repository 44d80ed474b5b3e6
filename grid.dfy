/** The square grid of cells: building it, refreshing every adjacency list, clearing the
    colours a search leaves behind, and mapping a mouse position to a cell. */
module Grid {
  import opened Wrappers
  import opened Heuristic
  import opened Cell

  /** Integer division rounding down, as the `//` operator does. */
  function FloorDiv(a: int, b: int): (q: int)
    requires b != 0
    ensures b > 0 ==> b * q <= a < b * q + b
    ensures b < 0 ==> b * q + b < a <= b * q
  {
    if b > 0 then a / b else (-a) / (-b)
  }

  /** A cell as `makeGrid` creates it: at `(i, j)` in a grid of `rows` rows, drawn as a
      `gap`-pixel square, blank and without neighbours. */
  ghost predicate NewCell(n: Node, i: int, j: int, rows: int, gap: int)
    reads n
  {
    && n.row == i && n.col == j && n.totalRows == rows
    && n.width == gap && n.x == i * gap && n.y == j * gap
    && n.colour == Empty && n.neighbours == []
  }

  /** Builds a `rows` x `rows` grid of fresh blank cells, each `width // rows` pixels wide.
      A negative `rows` gives an empty grid; zero rows is a division by zero. */
  method MakeGrid(rows: int, width: int) returns (grid: seq<seq<Node>>)
    requires rows != 0
    ensures |grid| == if rows < 0 then 0 else rows
    ensures WellFormed(grid)
    ensures forall i, j :: 0 <= i < |grid| && 0 <= j < |grid[i]| ==>
      fresh(grid[i][j]) && NewCell(grid[i][j], i, j, rows, FloorDiv(width, rows))
  {
    grid := [];
    var gap := FloorDiv(width, rows);
    var i := 0;
    while i < rows
      invariant 0 <= i && |grid| == i && (i == 0 || i <= rows)
      invariant forall a :: 0 <= a < i ==> |grid[a]| == rows
      invariant forall a, b :: 0 <= a < i && 0 <= b < |grid[a]| ==>
        fresh(grid[a][b]) && NewCell(grid[a][b], a, b, rows, gap)
    {
      var line: seq<Node> := [];
      var j := 0;
      while j < rows
        invariant 0 <= j <= rows && |line| == j
        invariant forall b :: 0 <= b < j ==> fresh(line[b]) && NewCell(line[b], i, b, rows, gap)
        invariant forall a, b :: 0 <= a < i && 0 <= b < |grid[a]| ==>
          fresh(grid[a][b]) && NewCell(grid[a][b], a, b, rows, gap)
      {
        var node := new Node(i, j, gap, rows, Empty);
        line := line + [node];
        j := j + 1;
      }
      grid := grid + [line];
      i := i + 1;
    }
  }

  /** Recomputes the neighbour list of every cell, row by row, before a search. */
  method RefreshAdjacency(grid: seq<seq<Node>>)
    requires WellFormed(grid)
    modifies Cells(grid)`neighbours
    ensures forall i, j :: 0 <= i < |grid| && 0 <= j < |grid[i]| ==> NeighboursValid(grid[i][j], grid)
  {
    for i := 0 to |grid|
      invariant forall a, b :: 0 <= a < i && 0 <= b < |grid[a]| ==> NeighboursValid(grid[a][b], grid)
    {
      for j := 0 to |grid[i]|
        invariant forall a, b :: 0 <= a < i && 0 <= b < |grid[a]| ==> NeighboursValid(grid[a][b], grid)
        invariant forall b :: 0 <= b < j ==> NeighboursValid(grid[i][b], grid)
      {
        assert grid[i][j] in Cells(grid);
        CellsDistinct(grid, i, j);
        grid[i][j].UpdateNeighbour(grid);
      }
      assert forall a, b :: 0 <= a < i + 1 && 0 <= b < |grid[a]| ==> NeighboursValid(grid[a][b], grid) by {
        forall a, b | 0 <= a < i + 1 && 0 <= b < |grid[a]|
          ensures NeighboursValid(grid[a][b], grid)
        {
          if a < i {
          } else {
            assert a == i;
          }
        }
      }
    }
  }

  /** Cells at different positions of a well-formed grid are different objects. */
  lemma CellsDistinct(grid: seq<seq<Node>>, i: int, j: int)
    requires WellFormed(grid) && 0 <= i < |grid| && 0 <= j < |grid[i]|
    ensures forall a, b :: 0 <= a < |grid| && 0 <= b < |grid[a]| && (a != i || b != j) ==> grid[a][b] != grid[i][j]
  {
  }

  /** After the refresh, every neighbour list holds exactly the non-barrier grid cells
      4-adjacent to its owner, so a search never leaves the grid. */
  lemma RefreshedNeighbours(grid: seq<seq<Node>>, n: Node, m: Node)
    requires WellFormed(grid)
    requires forall i, j :: 0 <= i < |grid| && 0 <= j < |grid[i]| ==> NeighboursValid(grid[i][j], grid)
    requires n in Cells(grid)
    ensures m in n.neighbours <==> m in Cells(grid) && Adjacent(n.GetPos(), m.GetPos()) && m.colour != Barrier
  {
    CellIndex(grid, n);
    assert NeighboursValid(grid[n.row][n.col], grid);
    ScanSound(n, grid);
    if m in Cells(grid) && Adjacent(n.GetPos(), m.GetPos()) && m.colour != Barrier {
      ScanComplete(n, grid, m);
    }
  }

  /** The colour a cell keeps when the search colours are cleared: open, closed and path
      cells become blank, every other colour stays. */
  function ResetColour(c: Colour): (r: Colour)
    ensures r != Open && r != Closed && r != Path
    ensures c != Open && c != Closed && c != Path ==> r == c
    ensures c != r ==> r == Empty
  {
    if c == Open || c == Closed || c == Path then Empty else c
  }

  /** Clears the colours of the last search, keeping barriers, start and end. */
  method ResetSearchColours(grid: seq<seq<Node>>)
    requires WellFormed(grid)
    modifies Cells(grid)`colour
    ensures forall i, j :: 0 <= i < |grid| && 0 <= j < |grid[i]| ==>
      grid[i][j].colour == ResetColour(old(grid[i][j].colour))
  {
    for i := 0 to |grid|
      invariant forall a, b :: 0 <= a < |grid| && 0 <= b < |grid[a]| ==>
        grid[a][b].colour == if a < i then ResetColour(old(grid[a][b].colour)) else old(grid[a][b].colour)
    {
      for j := 0 to |grid[i]|
        invariant forall a, b :: 0 <= a < |grid| && 0 <= b < |grid[a]| ==>
          grid[a][b].colour ==
            if a < i || (a == i && b < j) then ResetColour(old(grid[a][b].colour)) else old(grid[a][b].colour)
      {
        var node := grid[i][j];
        assert node in Cells(grid);
        if node.IsOpen() || node.IsClosed() || node.IsPath() {
          node.Reset();
        }
      }
    }
  }

  /** Clearing twice clears no more than clearing once. */
  lemma ResetIdempotent(c: Colour)
    ensures ResetColour(ResetColour(c)) == ResetColour(c)
  {
  }

  /** The cell `(row, col)` under the mouse position `pos`, whose first coordinate selects
      the row; `None` where a division by zero would occur (no rows, or cells narrower
      than a pixel). */
  function GetClickedPos(pos: Pos, rows: int, width: int): (r: Option<Pos>)
    ensures r.None? <==> rows == 0 || FloorDiv(width, rows) == 0
    ensures r.Some? && FloorDiv(width, rows) > 0 ==>
      var gap := FloorDiv(width, rows);
      gap * r.value.0 <= pos.0 < gap * r.value.0 + gap && gap * r.value.1 <= pos.1 < gap * r.value.1 + gap
    ensures r.Some? && FloorDiv(width, rows) < 0 ==>
      var gap := FloorDiv(width, rows);
      gap * r.value.0 + gap < pos.0 <= gap * r.value.0 && gap * r.value.1 + gap < pos.1 <= gap * r.value.1
  {
    if rows == 0 then None
    else
      var gap := FloorDiv(width, rows);
      if gap == 0 then None else Some((FloorDiv(pos.0, gap), FloorDiv(pos.1, gap)))
  }

  /** Every pixel of a cell's square maps back to that cell. */
  lemma ClickInsideCell(n: Node, rows: int, width: int, dx: int, dy: int)
    requires rows > 0 && FloorDiv(width, rows) > 0
    requires n.width == FloorDiv(width, rows) && n.x == n.row * n.width && n.y == n.col * n.width
    requires 0 <= dx < n.width && 0 <= dy < n.width
    ensures GetClickedPos((n.x + dx, n.y + dy), rows, width) == Some(n.GetPos())
  {
    var gap := n.width;
    var r := GetClickedPos((n.x + dx, n.y + dy), rows, width);
    FloorUnique(n.x + dx, gap, r.value.0, n.row);
    FloorUnique(n.y + dy, gap, r.value.1, n.col);
  }

  lemma FloorUnique(a: int, gap: int, q1: int, q2: int)
    requires gap > 0
    requires gap * q1 <= a < gap * q1 + gap && gap * q2 <= a < gap * q2 + gap
    ensures q1 == q2
  {
    if q1 < q2 {
      MulStep(gap, q1, q2);
    } else if q2 < q1 {
      MulStep(gap, q2, q1);
    }
  }

  /** Multiplying by a positive `gap` keeps a strict order at least `gap` apart. */
  lemma {:induction false} MulStep(gap: int, p: int, q: int)
    requires gap > 0 && p < q
    ensures gap * p + gap <= gap * q
    decreases q - p
  {
    if p + 1 < q {
      MulStep(gap, p + 1, q);
      assert gap * (p + 1) == gap * p + gap;
    } else {
      assert gap * q == gap * p + gap;
    }
  }

  /** When the window width is a multiple of the row count, every pixel of the window
      maps to a cell inside the grid. */
  lemma ClickInGrid(pos: Pos, rows: int, width: int)
    requires rows > 0 && width >= rows && width % rows == 0
    requires 0 <= pos.0 < width && 0 <= pos.1 < width
    ensures GetClickedPos(pos, rows, width).Some?
    ensures var p := GetClickedPos(pos, rows, width).value; 0 <= p.0 < rows && 0 <= p.1 < rows
  {
    var gap := FloorDiv(width, rows);
    assert width == gap * rows by {
      assert width == rows * (width / rows) + width % rows;
    }
    var p := GetClickedPos(pos, rows, width).value;
    if rows <= p.0 {
      MulAtLeast(gap, rows, p.0);
    }
    if rows <= p.1 {
      MulAtLeast(gap, rows, p.1);
    }
    if p.0 < 0 {
      MulStep(gap, p.0, 0);
    }
    if p.1 < 0 {
      MulStep(gap, p.1, 0);
    }
  }

  lemma MulAtLeast(gap: int, p: int, q: int)
    requires gap > 0 && p <= q
    ensures gap * p <= gap * q
  {
    if p < q {
      MulStep(gap, p, q);
    }
  }
}

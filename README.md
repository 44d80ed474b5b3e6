# Grid path-finding visualiser, modelled in Dafny

The program is an interactive grid editor. The user places a start cell, an end cell and
barrier cells. Then either an A* search or a Dijkstra search runs from the start towards
the end and colours every cell it touches. This project models the engine underneath the
graphics:

- the cell (`Node`): its colour tag, its setters and predicates, its position, and its
  cached list of neighbours;
- the Manhattan heuristic `h`;
- the two searches of class `Algorithm` and the `reconstruct` walk that marks the path;
- building the grid (`makeGrid`), mapping a mouse position to a cell (`getClickedPos`),
  and three pieces of the main loop:
  - the neighbour refresh that runs before each search;
  - the mouse rule that paints start, end and barriers;
  - the "r" key that clears the colours of the last search.

Modules follow the program's structure:

| module | file | what it holds |
|---|---|---|
| `Heuristic` | heuristic.dfy | positions, `h`, 4-adjacency |
| `Cell` | cell.dfy | `Colour`; class `Node` with its setters, predicates and `UpdateNeighbour`; the specification of a neighbour list (`Scan`) |
| `Grid` | grid.dfy | `MakeGrid`, the refresh loop, the reset loop, `GetClickedPos` |
| `Editor` | editor.dfy | the left-click and right-click rules of the main loop |
| `OpenSet` | queue.dfy | entries `(priority, count, cell)`, their order, the pop of the least entry |
| `Bookkeeping` | bookkeeping.dfy | the search state as a value (`Book`); the transitions (push start, pop, relax); the invariants and the predecessor chain |
| `Search` | algorithm.dfy | class `Algorithm`: `Reconstruct`, the inner loop `Expand`, the outer loop `Explore`, and `AStarAlgorithm` and `Dijkstra` |

The two searches share one loop, `Search.Algorithm.Search(kind)`. They differ only in the
priority a push carries (`Bookkeeping.PushPriority`). Both run over the real `Node` objects
and recolour them in place, so the loops are methods with `modifies Cells(grid)`colour`. The
bookkeeping the loops thread through (queue, membership set, `cameFrom`, score maps and
counter) is modelled as a datatype value. Each method is proved to compute exactly the
functions `Bookkeeping.Pop`, `Bookkeeping.Relax` and `Bookkeeping.RelaxAll`. The invariants
are proved about those functions.

How the code is modelled, where it matters:

- **Infinity.** `float("inf")` in the score maps is modelled as a key missing from the map.
- **Dijkstra's queue is first in, first out.** Its pushes put the score dictionary itself
  in the priority slot. Every such entry therefore holds the same object, so tuple
  comparison falls through to the counter. The model records this as `Priority.Shared`,
  and `Bookkeeping.PopInv` proves the queue behaves as first in, first out. The search is
  thus breadth first and the scores are exact: the chain found has exactly `g[end]` cells,
  and no way back from the end to the start is shorter.
  The textbook form would push the numeric distance. The model follows the code.
- **A\*'s start priority.** The start is pushed with priority 0, not `h(start, end)`.
- **No decrease-key.** A queued cell whose score improves keeps its old entry and priority.
- **Tie-breaks.** `Node.__lt__` is never consulted: counts are distinct, so `(priority, count)`
  orders the entries totally. An integer priority and the shared one never meet in the same
  queue, so the `TypeError` such a comparison would raise is never reached.
- **Drawing.** The `draw` callback is a no-op.
- **Division by zero.** `makeGrid` divides by `rows`, so `rows == 0` raises
  `ZeroDivisionError`. `MakeGrid` therefore requires `rows != 0`. `GetClickedPos` returns
  `None` where the program would divide by zero.

## Model

| member | source | states |
|---|---|---|
| `Heuristic.H` | pathFindingVisualiser.py:97-100 | the Manhattan distance is a natural number, zero exactly when the two positions are equal |
| `Heuristic.HSymmetric` | pathFindingVisualiser.py:97-100 | `h(p, q) == h(q, p)` |
| `Heuristic.HTriangle` | pathFindingVisualiser.py:97-100 | triangle inequality of `h` |
| `Heuristic.HConsistent` | pathFindingVisualiser.py:97-100 | between 4-adjacent cells `h` to any target changes by at most one (consistency) |
| `Cell.Node.constructor` | pathFindingVisualiser.py:21-29 | a new cell has the given position, size and colour, corner `(row*width, col*width)` and no neighbours |
| `Cell.Node.Reset` | pathFindingVisualiser.py:52-53 | the tag becomes Empty whatever it was |
| `Cell.Node.SetClosed` | pathFindingVisualiser.py:55-56 | the tag becomes Closed |
| `Cell.Node.SetOpen` | pathFindingVisualiser.py:58-59 | the tag becomes Open |
| `Cell.Node.SetBarrier` | pathFindingVisualiser.py:61-62 | the tag becomes Barrier |
| `Cell.Node.SetStart` | pathFindingVisualiser.py:64-65 | the tag becomes Start |
| `Cell.Node.SetEnd` | pathFindingVisualiser.py:67-68 | the tag becomes End |
| `Cell.Node.SetPath` | pathFindingVisualiser.py:70-71 | the tag becomes Path |
| `Cell.PositionIdentifies` | pathFindingVisualiser.py:31-32 | in a well-formed grid `getPos` indexes the grid at the cell itself, and two cells share a position only when they are the same cell |
| `Cell.TestsPartition` | pathFindingVisualiser.py:34-50 | of the six colour tests and the blank colour, exactly one holds for any cell |
| `Cell.Node.UpdateNeighbour` | pathFindingVisualiser.py:77-90 | the new neighbour list is exactly the non-barrier in-grid cells one step down, up, right and left, in that order (`NeighboursValid`), and only the list changes |
| `Cell.ScanSound` | pathFindingVisualiser.py:77-90 | such a list has at most four entries, each a grid cell 4-adjacent to the owner and not a barrier |
| `Cell.ScanComplete` | pathFindingVisualiser.py:77-90 | every grid cell 4-adjacent to the owner that is not a barrier is on the list |
| `Cell.ScanOrdered` | pathFindingVisualiser.py:77-90 | the list follows the order down, up, right, left, so no cell appears twice |
| `Grid.FloorDiv` | pathFindingVisualiser.py:226-227 | `//` rounds towards minus infinity: `b*q <= a < b*q + b` for positive `b`, and the mirror image for negative `b` |
| `Grid.MakeGrid` | pathFindingVisualiser.py:195-203 | `rows` rows of `rows` fresh cells (none for negative `rows`); cell `[i][j]` is at `(i, j)`, Empty, has no neighbours and is `width // rows` pixels wide |
| `Grid.RefreshAdjacency` | pathFindingVisualiser.py:271-273 | afterwards every cell's neighbour list is valid for the current colours |
| `Grid.RefreshedNeighbours` | pathFindingVisualiser.py:271-273 | after the refresh, `m` is a neighbour of `n` exactly when `m` is a grid cell 4-adjacent to `n` and not a barrier |
| `Grid.ResetColour` | pathFindingVisualiser.py:294-295 | the result is never Open, Closed or Path; any other colour is kept; a changed colour becomes Empty |
| `Grid.ResetSearchColours` | pathFindingVisualiser.py:291-295 | every cell of the grid ends with `ResetColour` of its old colour |
| `Grid.ResetIdempotent` | pathFindingVisualiser.py:291-295 | clearing twice equals clearing once |
| `Grid.GetClickedPos` | pathFindingVisualiser.py:222-228 | `None` exactly when a division by zero would occur; otherwise, for a positive cell size the position lies inside the returned cell's square, and for a negative one in its mirror image (`gap*q + gap < pos <= gap*q`) |
| `Grid.ClickInsideCell` | pathFindingVisualiser.py:222-228 | every pixel of a cell's square maps back to that cell |
| `Grid.ClickInGrid` | pathFindingVisualiser.py:222-228 | when `rows` divides the width, every pixel of the window maps to a cell index in `[0, rows)` |
| `Editor.LeftClickAsWritten` | pathFindingVisualiser.py:249-256 | the rule as written: the start is painted exactly when the start slot is empty, the end exactly when only the end slot is empty and the cell is not the start, a barrier exactly when both are set and the cell is neither; otherwise nothing changes |
| `Editor.LeftClickAsWrittenMergesEnds` | pathFindingVisualiser.py:249-251 | a concrete selection with start cleared and end set, where clicking the end makes start and end the same cell |
| `Editor.LeftClick` | pathFindingVisualiser.py:249-256 | each branch happens exactly under its condition: start when the start slot is empty and the cell is not the end, end when only the end slot is empty and the cell is not the start, barrier when both are set and the cell is neither, nothing exactly when the cell is the start or the end; only those four outcomes exist and only the start and end branches change the selection |
| `Editor.LeftClickKeepsDistinct` | pathFindingVisualiser.py:249-256 | the corrected rule keeps start and end different |
| `Editor.RightClick` | pathFindingVisualiser.py:262-265 | the clicked cell is no longer the start (nor the end, when they differed); the start slot is emptied only if it held the cell, and the end slot only if it held the cell and the start did not |
| `Editor.RightClickKeepsDistinct` | pathFindingVisualiser.py:262-265 | erasing keeps start and end different |
| `Editor.OnLeftClick` | pathFindingVisualiser.py:245-256 | applies `LeftClick` to the selection and paints the clicked cell with its outcome; distinct start and end stay distinct, and painted ones stay painted |
| `Editor.OnRightClick` | pathFindingVisualiser.py:258-266 | applies `RightClick` and erases the clicked cell; distinct start and end stay distinct, and if they were painted they stay painted |
| `OpenSet.BeforeTotal` | pathFindingVisualiser.py:147-148 | two comparable entries with different counts are ordered one way or the other |
| `OpenSet.MinIndex` | pathFindingVisualiser.py:132 | the popped entry compares below every other entry of the queue |
| `OpenSet.Remove` | pathFindingVisualiser.py:132 | the queue minus one entry, others in order; the multiset loses exactly that entry |
| `OpenSet.RemoveKeeps` | pathFindingVisualiser.py:132 | removing keeps comparability, increasing counts and one entry per cell |
| `OpenSet.RemoveItems` | pathFindingVisualiser.py:132-133 | with one entry per cell, the pop takes exactly the popped cell out of the item set |
| `OpenSet.PushKeeps` | pathFindingVisualiser.py:146-149 | a push adds exactly its cell to the items and keeps counts increasing and cells distinct |
| `OpenSet.FifoPop` | pathFindingVisualiser.py:185-186 | with only shared priorities the least entry is the first one: first in, first out |
| `Bookkeeping.Init` | pathFindingVisualiser.py:117-126 | the queue is the single entry `(0, 0, start)` with counter 0; the start alone is a member, with score 0 and no predecessors; `f` is `{start: h(start, end)}` in A* and empty in Dijkstra |
| `Bookkeeping.PushPriority` | pathFindingVisualiser.py:146-148 | A* pushes the new `f` score as an integer priority; Dijkstra pushes the shared score map |
| `Bookkeeping.PushOrder` | pathFindingVisualiser.py:185-186 | Dijkstra's pushes compare by count alone whatever their scores; A*'s with different scores compare by score |
| `Bookkeeping.Relax` | pathFindingVisualiser.py:140-151 | the scores change exactly when going through `current` improves on `n`; afterwards `n` is scored at most `g[current] + 1`; scores only fall; only `n` changes; an improvement records `cameFrom[n] = current` with `g[n] = g[current] + 1` and marks `n` queued; a push appends one entry with the next count, and only for a cell not yet queued |
| `Bookkeeping.RelaxScoreMap` | pathFindingVisualiser.py:141-144 | an improving relaxation sets `g[n]` to `g[current] + 1`; any other leaves the bookkeeping unchanged |
| `Bookkeeping.RelaxAll` | pathFindingVisualiser.py:140-151 | over a neighbour list, scored cells stay scored, `current` keeps its score and members stay members |
| `Bookkeeping.Pop` | pathFindingVisualiser.py:132-133 | returns the cell of the least entry: that entry compares below every entry left, the queue loses exactly that entry (as a multiset), the cell leaves the membership set, and the scores, predecessors and counter are unchanged |
| `Bookkeeping.InitInv` | pathFindingVisualiser.py:117-126 | the initial state satisfies the loop invariant |
| `Bookkeeping.InvComparable` | pathFindingVisualiser.py:184-187 | every queue reached can be popped: all priorities compare and counts differ |
| `Bookkeeping.PopInv` | pathFindingVisualiser.py:171-172 | the pop keeps the invariant, and in Dijkstra it always takes the front entry |
| `Bookkeeping.PopQueue` | pathFindingVisualiser.py:132-133 | after a pop the membership set still mirrors the queue and the popped cell is scored and not a member |
| `Bookkeeping.PopFront` | pathFindingVisualiser.py:171-172 | Dijkstra pops the front, and the rest of the queue lies in the popped layer or the next |
| `Bookkeeping.FrontLeast` | pathFindingVisualiser.py:171-172 | with scores nondecreasing along the queue, no queued cell scores below the front |
| `Bookkeeping.PopShared` | pathFindingVisualiser.py:171-172 | after a front pop of shared priorities every queued cell is scored between the popped score and one more |
| `Bookkeeping.PopScores` | pathFindingVisualiser.py:132-133 | A*'s `f` invariant survives a pop |
| `Bookkeeping.RelaxInv` | pathFindingVisualiser.py:140-151 | one relaxation keeps the inner-loop invariant (queue/set sync, scores and predecessors, the `f` scores or the BFS layers) |
| `Bookkeeping.RelaxQueue` | pathFindingVisualiser.py:146-149 | a relaxation keeps the queue and the membership set in sync, with one entry per cell |
| `Bookkeeping.RelaxScores` | pathFindingVisualiser.py:141-144 | a relaxation keeps the start at score 0 without predecessor, and every predecessor scored strictly lower |
| `Bookkeeping.RelaxFScores` | pathFindingVisualiser.py:145-148 | A*: `f = g + h` is kept, and a queued entry's priority stays at least its cell's `f` |
| `Bookkeeping.RelaxLayered` | pathFindingVisualiser.py:179-189 | Dijkstra: the queue keeps nondecreasing scores within two layers, and predecessors stay exactly one lower |
| `Bookkeeping.ExpandedInv` | pathFindingVisualiser.py:153-155 | after the last neighbour the outer-loop invariant holds again |
| `Bookkeeping.PotDecreases` | pathFindingVisualiser.py:142-144 | lowering one score lowers the sum of scores (part of the termination measure) |
| `Bookkeeping.RelaxProgress` | pathFindingVisualiser.py:140-151 | a relaxation inside the grid changes nothing, or scores a new cell, or lowers the score sum |
| `Bookkeeping.ChainLinks` | pathFindingVisualiser.py:110-111 | consecutive cells of the walk from `n` are `cameFrom` links; the walk stops at a cell without predecessor |
| `Bookkeeping.ChainScores` | pathFindingVisualiser.py:110-111 | scores fall strictly along the walk, so it visits no cell twice |
| `Bookkeeping.ChainLength` | pathFindingVisualiser.py:109-114 | from a scored cell the chain ends at the start (empty exactly for the start) and has at most `g[n]` cells, exactly `g[n]` with exact predecessors |
| `Bookkeeping.RelaxAllMembers` | pathFindingVisualiser.py:140-151 | an expansion only adds members; every newly scored cell is a member; neither the start nor the expanded cell joins; the start keeps score 0 |
| `Search.Algorithm.constructor` | pathFindingVisualiser.py:103-107 | the search keeps the grid, the start and the end it is given |
| `Search.Algorithm.RefreshLinks` | pathFindingVisualiser.py:271-273 | after the refresh every neighbour list stays inside the grid, so a search may begin |
| `Search.Algorithm.Reconstruct` | pathFindingVisualiser.py:109-114 | every cell of the predecessor chain is Path, the start is Start, every other cell keeps its colour |
| `Search.Algorithm.RelaxStep` | pathFindingVisualiser.py:140-151 | computes `Relax` and marks the neighbour Open exactly when it was newly queued |
| `Search.Algorithm.ExpandStep` | pathFindingVisualiser.py:140-151 | one relaxation keeps the expansion invariant, including progress towards termination |
| `Search.Algorithm.ExpandKeeps` | pathFindingVisualiser.py:140-151 | the whole inner loop keeps the invariant and scores every neighbour it visited |
| `Search.Algorithm.Expand` | pathFindingVisualiser.py:140-151 | the inner loop computes `RelaxAll` over the neighbour list; exactly the newly queued cells turn Open |
| `Search.Algorithm.Search` | pathFindingVisualiser.py:116-156 | success exactly when a way back from end to start exists along the neighbour lists; on success the trail is one, with at most `g[end]` chain cells (for Dijkstra exactly `g[end]`, and no way back is shorter); on failure the queue is empty; the final colours are `Final` or `Shade` of the old ones |
| `Search.Algorithm.Explore` | pathFindingVisualiser.py:128-156 | the outer loop ends with the outcome, the bookkeeping and the colours that `Search` promises |
| `Search.Algorithm.Begin` | pathFindingVisualiser.py:117-126 | the starting state satisfies the outer-loop invariant |
| `Search.Algorithm.BeginShade` | pathFindingVisualiser.py:117-126 | before the first pop the search has recoloured nothing |
| `Search.Algorithm.Exhausted` | pathFindingVisualiser.py:128-156 | when the queue runs dry nothing is queued and no way back exists |
| `Search.Algorithm.Turn` | pathFindingVisualiser.py:132-155 | one turn of the outer loop: popping the end yields a way back (in Dijkstra with every cell below the end settled); popping another cell keeps the invariant and lowers the measure |
| `Search.Algorithm.Round` | pathFindingVisualiser.py:132-155 | one turn on the grid: success with the path coloured, or a new state with open/closed shading |
| `Search.Algorithm.Conclude` | pathFindingVisualiser.py:135-138 | marking the chain and then the end gives the final colouring |
| `Search.Algorithm.Advance` | pathFindingVisualiser.py:140-154 | expanding the popped cell and closing it (unless it is the start) keeps every colour equal to its shade |
| `Search.Algorithm.StepKeeps` | pathFindingVisualiser.py:132-155 | after pop and expansion the outer-loop invariant holds and the termination measure has fallen |
| `Search.Algorithm.SettledStep` | pathFindingVisualiser.py:140-154 | every scored cell no longer queued has all its neighbours scored, none more than one above it |
| `Search.Algorithm.MeasureStep` | pathFindingVisualiser.py:132-155 | a pop followed by an expansion that changes nothing or makes progress lowers the termination measure |
| `Search.Algorithm.RelaxBound` | pathFindingVisualiser.py:140-144 | after relaxing a neighbour, every neighbour relaxed so far scores at most one above the expanded cell |
| `Search.Algorithm.ShadeStep` | pathFindingVisualiser.py:150-154 | newly queued cells are Open, the expanded cell is Closed unless it is the start, the rest keep their shade |
| `Search.Algorithm.FoundWayBack` | pathFindingVisualiser.py:135-138 | when the end is scored, the walk from it along `cameFrom` is a way back to the start |
| `Search.Algorithm.NoWayBack` | pathFindingVisualiser.py:156 | with nothing queued and the end unscored, no way back from the end to the start exists |
| `Search.Algorithm.WayBackScored` | pathFindingVisualiser.py:156 | with nothing queued, every cell of a way back to the start is scored |
| `Search.Algorithm.FrontSettled` | pathFindingVisualiser.py:171-177 | when Dijkstra pops its front, every cell scored below the front is settled |
| `Search.Algorithm.Shortest` | pathFindingVisualiser.py:174-177 | once every cell scored below the end is settled, no way back has fewer than `g[end]` steps |
| `Search.Algorithm.WayBackBound` | pathFindingVisualiser.py:179-183 | along a way back, a cell `i` steps from the start scores at most `i`, unless `i` has reached the settled bound |
| `Search.Algorithm.AStarAlgorithm` | pathFindingVisualiser.py:116-156 | A*: returns whether a way back exists, marks it, and bounds the chain by `g[end]` |
| `Search.Algorithm.Dijkstra` | pathFindingVisualiser.py:158-192 | Dijkstra: returns whether a way back exists and marks it; the chain has exactly `g[end]` cells, and the trail it marks is no longer than any way back (a shortest path) |

## Left out

- Rendering: `Node.draw`, `drawGrid`, `draw`, the window, the caption and the RGB values. Colours are an enumeration and the `draw` callback does nothing. `BLUE` is never used.
- Event polling and quitting inside the search loops: these are external input, and the loops are modelled without cancellation.
- The interactive main loop: mouse polling, key dispatch, the "c" key and the final `pygame.quit`. Only the refresh, the paint rule and the reset are modelled. `Editor.OnLeftClick` and `Editor.OnRightClick` take the clicked cell as a parameter.
- The thread safety of `queue.PriorityQueue`: the queue is a sequence with a pop of the least entry. That pop is proved to return what a binary heap returns, because counts make the order total.
- Search.Algorithm.AStarAlgorithm: proves the chain has at most `g[end]` cells, not exactly `g[end]`. Without decrease-key a cell can be expanded again after its score fell, which can leave a recorded predecessor more than one step below its successor.
- Search.Algorithm.AStarAlgorithm: is not proved to find a shortest path. Optimality is proved for Dijkstra only; for A* it would need the heuristic argument over stale queue entries, which the model does not make.
- Search.Algorithm.Search: for kind `AStar` proves only that the chain has at most `g[end]` cells, not exactly `g[end]`, and states no optimality; the reason is the one given for `AStarAlgorithm` above. For kind `Dijkstra` both are proved.
- Editor.OnLeftClick: applies the corrected rule `LeftClick`, not the rule as written at lines 249-251. The rule as written is `LeftClickAsWritten`, and the discrepancy is listed under Findings.
- Search.Algorithm.Reconstruct: requires that predecessors carry strictly smaller scores. Every search state satisfies this, and it is what makes the walk end.
- Grid.MakeGrid: requires `rows != 0`, because the program raises `ZeroDivisionError` there.

## Findings

| source | as written | input that shows it | evidently intended | confidence | as-written member | corrected member |
|---|---|---|---|---|---|---|
| pathFindingVisualiser.py:249-251 | a left click fills an empty start slot with whatever cell was clicked | after a right click clears the start while the end is still set, left-click the end cell: start and end become the same cell | the start slot should refuse the end cell, as the end slot already refuses the start cell (line 252) | medium, not executed | `Editor.LeftClickAsWrittenMergesEnds` | `Editor.LeftClickKeepsDistinct` |

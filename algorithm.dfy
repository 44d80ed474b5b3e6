/** The two searches of class `Algorithm`: A* and Dijkstra share one loop that differs
    only in the priority of a push, and `reconstruct` marks the path found. */
module Search {
  import opened Heuristic
  import opened Cell
  import opened OpenSet
  import opened Bookkeeping
  import Grid

  /** The cells of a grid, row by row. */
  ghost function Flatten(grid: seq<seq<Node>>): seq<Node>
  {
    if grid == [] then [] else grid[0] + Flatten(grid[1..])
  }

  lemma {:induction false} FlattenHas(grid: seq<seq<Node>>, m: Node)
    requires m in Cells(grid)
    ensures m in Flatten(grid)
    decreases |grid|
  {
    var i, j :| 0 <= i < |grid| && 0 <= j < |grid[i]| && grid[i][j] == m;
    if i == 0 {
      assert grid[0][j] == m;
    } else {
      assert grid[1..][i - 1][j] == m;
      FlattenHas(grid[1..], m);
    }
  }

  class Algorithm {
    const grid: seq<seq<Node>>
    const start: Node
    const end: Node

    constructor (grid: seq<seq<Node>>, start: Node, end: Node)
      ensures this.grid == grid && this.start == start && this.end == end
    {
      this.grid := grid;
      this.start := start;
      this.end := end;
    }

    /** The neighbour lists of the grid's cells, as a map. */
    ghost function Adjacency(): map<Node, seq<Node>>
      reads Cells(grid)`neighbours
    {
      map m | m in Cells(grid) :: m.neighbours
    }

    /** Every listed neighbour is a grid cell. */
    ghost predicate Contained(adj: map<Node, seq<Node>>)
    {
      && Cells(grid) <= adj.Keys
      && forall m, k :: m in Cells(grid) && k in adj[m] ==> k in Cells(grid)
    }

    /** A search may begin: the grid is well formed, start and end are cells of it and
        every neighbour list stays inside it. */
    ghost predicate Linked()
      reads Cells(grid)`neighbours
    {
      WellFormed(grid) && start in Cells(grid) && end in Cells(grid) && Contained(Adjacency())
    }

    /** The adjacency refresh that precedes every search links the grid. */
    lemma RefreshLinks()
      requires WellFormed(grid) && start in Cells(grid) && end in Cells(grid)
      requires forall i, j :: 0 <= i < |grid| && 0 <= j < |grid[i]| ==> NeighboursValid(grid[i][j], grid)
      ensures Linked()
    {
      forall m, k | m in Cells(grid) && k in m.neighbours
        ensures k in Cells(grid)
      {
        Grid.RefreshedNeighbours(grid, m, k);
      }
    }

    /** Every recorded predecessor is a grid cell that lists its successor as a neighbour. */
    ghost predicate Edges(adj: map<Node, seq<Node>>, b: Book)
    {
      forall n :: n in b.cameFrom ==> b.cameFrom[n] in Cells(grid) && b.cameFrom[n] in adj && n in adj[b.cameFrom[n]]
    }

    /** Every scored cell that is no longer queued has all its neighbours scored, none of
        them more than one step above it. */
    ghost predicate Settled(adj: map<Node, seq<Node>>, b: Book)
    {
      forall m, k :: m in Cells(grid) && m in adj && m in b.g && m !in b.members && k in adj[m] ==>
        k in b.g && b.g[k] <= b.g[m] + 1
    }

    /** A sequence of grid cells from `end` back to `start`, each one a neighbour of the
        next in `adj`: read backwards, a walk the search could take. */
    ghost predicate WayBackIn(adj: map<Node, seq<Node>>, w: seq<Node>)
    {
      && |w| > 0 && w[0] == end && w[|w| - 1] == start
      && (forall i :: 0 <= i < |w| ==> w[i] in Cells(grid) && w[i] in adj)
      && (forall i :: 0 <= i < |w| - 1 ==> w[i] in adj[w[i + 1]])
    }

    /** The same along the grid's neighbour lists. */
    ghost predicate WayBack(w: seq<Node>)
      reads Cells(grid)`neighbours
    {
      WayBackIn(Adjacency(), w)
    }

    /** The colour of cell `m` between two pops, when it had colour `c` before the search:
        the start keeps its colour, queued cells are open, scored cells already popped are
        closed and all other cells keep their colour. */
    function Shade(b: Book, c: Colour, m: Node): Colour
    {
      if m == start then c else if m in b.members then Open else if m in b.g then Closed else c
    }

    /** The colour of cell `m` after a successful search: the end and the start get their
        own colours back, the cells on the chain are path cells, the rest are shaded. */
    ghost function Final(b: Book, c: Colour, m: Node): Colour
      requires ChainOk(b.cameFrom, b.g)
    {
      if m == end then End
      else if m == start then Start
      else if m in Chain(b.cameFrom, b.g, end) then Path
      else Shade(b, c, m)
    }

    /** Walks the predecessors of `curr`, marking each one as a path cell, then marks the
        start again. The score map `g` only bounds the walk. */
    method Reconstruct(cameFrom: map<Node, Node>, ghost g: map<Node, nat>, curr: Node)
      requires ChainOk(cameFrom, g) && g.Keys <= Cells(grid) && start in Cells(grid)
      modifies Cells(grid)`colour
      ensures forall m :: m in Cells(grid) ==>
        m.colour == if m == start then Start else if m in Chain(cameFrom, g, curr) then Path else old(m.colour)
    {
      var c := curr;
      ghost var done: seq<Node> := [];
      while c in cameFrom
        invariant Chain(cameFrom, g, curr) == done + Chain(cameFrom, g, c)
        invariant forall m :: m in Cells(grid) ==> m.colour == if m in done then Path else old(m.colour)
        decreases if c in cameFrom then g[c] + 1 else 0
      {
        c := cameFrom[c];
        c.SetPath();
        done := done + [c];
      }
      start.SetStart();
    }

    /** One turn of the inner loop: relax the edge from `current` to `n`, and mark `n`
        open when the relaxation pushed it. */
    method RelaxStep(kind: Kind, b: Book, current: Node, n: Node) returns (r: Book)
      requires current in b.g
      modifies n`colour
      ensures r == Relax(kind, b, end, current, n)
      ensures n.colour == if n in r.members - b.members then Open else old(n.colour)
    {
      r := Relax(kind, b, end, current, n);
      if n !in b.members && n in r.members {
        n.SetOpen();
      }
    }

    /** What the inner loop keeps while it expands `current`, started from `b0`. */
    ghost predicate Expansion(kind: Kind, adj: map<Node, seq<Node>>, b0: Book, b: Book, current: Node, order: seq<Node>)
    {
      && Contained(adj) && current in Cells(grid) && (forall c :: c in Cells(grid) ==> c in order)
      && Expanding(kind, b, start, end, current) && b.g.Keys <= Cells(grid) && Edges(adj, b)
      && b0.members <= b.members && b0.g.Keys <= b.g.Keys && b.g.Keys - b0.g.Keys <= b.members
      && (forall m :: m in b0.g ==> b.g[m] <= b0.g[m])
      && (forall m :: m in b0.g && b.g[m] != b0.g[m] ==> m in b.members)
      && start !in b.members - b0.members
      && (b == b0 || Progress(Cells(grid), order, b0, b))
    }

    lemma ExpandStep(kind: Kind, adj: map<Node, seq<Node>>, b0: Book, b: Book, current: Node, order: seq<Node>, n: Node)
      requires Expansion(kind, adj, b0, b, current, order) && n in adj[current]
      ensures Expansion(kind, adj, b0, Relax(kind, b, end, current, n), current, order)
    {
      var r := Relax(kind, b, end, current, n);
      RelaxInv(kind, b, start, end, current, n);
      RelaxProgress(kind, b, end, current, n, Cells(grid), order);
      ProgressTrans(Cells(grid), order, b0, b, r);
      RelaxEdges(kind, adj, b, current, n);
      assert b0.members <= r.members;
      assert r.g.Keys - b0.g.Keys <= r.members;
      assert start !in r.members - b0.members;
    }

    lemma RelaxEdges(kind: Kind, adj: map<Node, seq<Node>>, b: Book, current: Node, n: Node)
      requires Edges(adj, b) && current in b.g && current in Cells(grid) && current in adj && n in adj[current]
      ensures Edges(adj, Relax(kind, b, end, current, n))
    {
    }

    /** The inner loop keeps `Expansion` and scores every neighbour it has visited. */
    lemma {:induction false} ExpandKeeps(kind: Kind, adj: map<Node, seq<Node>>, b0: Book, current: Node, order: seq<Node>, ns: seq<Node>)
      requires Expansion(kind, adj, b0, b0, current, order)
      requires forall k :: k in ns ==> k in adj[current]
      ensures Expansion(kind, adj, b0, RelaxAll(kind, b0, end, current, ns), current, order)
      ensures forall k :: k in ns ==>
        k in RelaxAll(kind, b0, end, current, ns).g && RelaxAll(kind, b0, end, current, ns).g[k] <= b0.g[current] + 1
    {
      if ns != [] {
        var init := ns[..|ns| - 1];
        assert ns == init + [ns[|ns| - 1]];
        ExpandKeeps(kind, adj, b0, current, order, init);
        var b := RelaxAll(kind, b0, end, current, init);
        ExpandStep(kind, adj, b0, b, current, order, ns[|ns| - 1]);
        RelaxBound(kind, b, current, ns[|ns| - 1], init, b0.g[current]);
      }
    }

    /** Relaxing one more neighbour keeps every relaxed neighbour within one step of the
        expanded cell. */
    lemma RelaxBound(kind: Kind, b: Book, current: Node, n: Node, ns: seq<Node>, d: nat)
      requires current in b.g && b.g[current] == d
      requires forall k :: k in ns ==> k in b.g && b.g[k] <= d + 1
      ensures forall k :: k in ns + [n] ==>
        k in Relax(kind, b, end, current, n).g && Relax(kind, b, end, current, n).g[k] <= d + 1
    {
    }

    /** Expands `current`: relaxes the edge to each neighbour in list order; a neighbour
        whose score improves while it is not queued is pushed and marked open. `adj` holds
        the neighbour lists, which the search does not change. */
    method Expand(kind: Kind, b0: Book, current: Node, ghost adj: map<Node, seq<Node>>) returns (b: Book)
      requires Contained(adj) && current in Cells(grid) && adj[current] == current.neighbours && current in b0.g
      modifies Cells(grid)`colour
      ensures b == RelaxAll(kind, b0, end, current, adj[current])
      ensures forall m :: m in Cells(grid) ==> m.colour == if m in b.members - b0.members then Open else old(m.colour)
    {
      var ns := current.neighbours;
      b := b0;
      for i := 0 to |ns|
        invariant b == RelaxAll(kind, b0, end, current, ns[..i])
        invariant forall m :: m in Cells(grid) ==> m.colour == if m in b.members - b0.members then Open else old(m.colour)
      {
        var n := ns[i];
        assert n in adj[current];
        RelaxAllNext(kind, b0, current, ns, i);
        ghost var bi := b;
        b := RelaxStep(kind, b, current, n);
        OthersKeep(b0, bi, b, n);
      }
      assert ns[..|ns|] == ns;
    }

    /** Relaxing one more neighbour extends the relaxation of the ones before it. */
    lemma RelaxAllNext(kind: Kind, b0: Book, current: Node, ns: seq<Node>, i: int)
      requires current in b0.g && 0 <= i < |ns|
      ensures RelaxAll(kind, b0, end, current, ns[..i + 1])
        == Relax(kind, RelaxAll(kind, b0, end, current, ns[..i]), end, current, ns[i])
    {
      assert ns[..i + 1][..i] == ns[..i];
    }

    /** A relaxation of `n` leaves whether any other cell was queued since `b0` as it was. */
    lemma OthersKeep(b0: Book, b: Book, r: Book, n: Node)
      requires b.members <= r.members <= b.members + {n}
      ensures forall m :: m != n ==> (m in r.members - b0.members <==> m in b.members - b0.members)
    {
    }

    /** The search loop of both algorithms; `kind` selects the priority of a push. It
        succeeds exactly when a way back from the end to the start exists, and the final
        colours are determined by the outcome and the final bookkeeping `b`. */
    method Search(kind: Kind) returns (found: bool, b: Book)
      requires Linked()
      modifies Cells(grid)`colour
      ensures ScoresOk(b, start) && b.g.Keys <= Cells(grid)
      ensures found ==> WayBack(Trail(b.cameFrom, b.g, end))
      ensures !found ==> forall w :: !WayBack(w)
      ensures found ==> end in b.g && |Chain(b.cameFrom, b.g, end)| <= b.g[end]
      ensures found && kind.Dijkstra? ==> |Chain(b.cameFrom, b.g, end)| == b.g[end]
      ensures found && kind.Dijkstra? ==> forall w :: WayBack(w) ==> b.g[end] <= |w| - 1
      ensures !found ==> b.queue == [] && b.members == {}
      ensures forall m :: m in Cells(grid) ==>
        m.colour == if found then Final(b, old(m.colour), m) else Shade(b, old(m.colour), m)
    {
      b := Init(kind, start, end);
      ghost var adj := Adjacency();
      assert adj.Keys == Cells(grid);
      Begin(kind, adj);
      ghost var base := map m | m in Cells(grid) :: m.colour;
      forall m | m in Cells(grid)
        ensures m.colour == Shade(b, base[m], m)
      {
        BeginShade(kind, base[m], m);
      }
      ghost var order := Flatten(grid);
      forall c | c in Cells(grid)
        ensures c in order
      {
        FlattenHas(grid, c);
      }
      found, b := Explore(kind, b, adj, base, order);
      SameAdjacency(adj);
      if found && kind == Kind.Dijkstra {
        forall w | WayBackIn(adj, w)
          ensures b.g[end] <= |w| - 1
        {
          Shortest(adj, b, w);
        }
      }
      assert forall m :: m in Cells(grid) ==> base[m] == old(m.colour);
    }

    /** The loop of the search from the bookkeeping `b0` over the neighbour lists `adj`,
        with the colours `base` it began from. */
    method Explore(kind: Kind, b0: Book, ghost adj: map<Node, seq<Node>>, ghost base: map<Node, Colour>,
                   ghost order: seq<Node>) returns (found: bool, b: Book)
      requires Running(kind, adj, b0) && Contained(adj) && forall c :: c in Cells(grid) ==> c in order
      requires adj.Keys == Cells(grid) && forall m :: m in Cells(grid) ==> m.neighbours == adj[m]
      requires forall m :: m in Cells(grid) ==> m in base && m.colour == Shade(b0, base[m], m)
      modifies Cells(grid)`colour
      ensures forall m :: m in Cells(grid) ==> m.neighbours == adj[m]
      ensures ScoresOk(b, start) && b.g.Keys <= Cells(grid)
      ensures found ==> Reached(kind, adj, b)
      ensures !found ==> forall w :: !WayBackIn(adj, w)
      ensures !found ==> b.queue == [] && b.members == {}
      ensures forall m :: m in Cells(grid) ==>
        m.colour == if found then Final(b, base[m], m) else Shade(b, base[m], m)
    {
      b := b0;
      while |b.queue| > 0
        invariant Running(kind, adj, b)
        invariant forall m :: m in Cells(grid) ==> m.neighbours == adj[m]
        invariant forall m :: m in Cells(grid) ==> m.colour == Shade(b, base[m], m)
        decreases Unseen(Cells(grid), b.g), Pot(order, b.g), |b.queue|
      {
        var done, b2 := Round(kind, adj, b, base, order);
        if done {
          return true, b2;
        }
        assert Decreases(order, b, b2);
        b := b2;
      }
      Exhausted(kind, adj, b);
      return false, b;
    }

    /** The bookkeeping of a new search satisfies the loop invariant. */
    lemma Begin(kind: Kind, adj: map<Node, seq<Node>>)
      requires start in Cells(grid)
      ensures Running(kind, adj, Init(kind, start, end))
    {
      InitInv(kind, start, end);
    }

    /** A new search shows every colour as it was. */
    lemma BeginShade(kind: Kind, c: Colour, m: Node)
      ensures Shade(Init(kind, start, end), c, m) == c
    {
    }

    /** The queue has run dry: nothing is queued and no way back exists. */
    lemma Exhausted(kind: Kind, adj: map<Node, seq<Node>>, b: Book)
      requires Running(kind, adj, b) && b.queue == []
      ensures b.members == {} && forall w :: !WayBackIn(adj, w)
    {
      NoWayBack(adj, b);
    }

    /** The search has popped the end: the trail from the end is a way back with at most
        `g[end]` chain cells; in Dijkstra exactly `g[end]`, and every cell scored below
        the end is settled. */
    ghost predicate Reached(kind: Kind, adj: map<Node, seq<Node>>, b: Book)
    {
      && ScoresOk(b, start) && b.g.Keys <= Cells(grid) && end in b.g
      && WayBackIn(adj, Trail(b.cameFrom, b.g, end))
      && |Chain(b.cameFrom, b.g, end)| <= b.g[end]
      && (kind.Dijkstra? ==> |Chain(b.cameFrom, b.g, end)| == b.g[end])
      && (kind.Dijkstra? ==> SettledBelow(adj, b, b.g[end]))
    }

    /** The invariant of the outer loop over the bookkeeping alone. */
    ghost predicate Running(kind: Kind, adj: map<Node, seq<Node>>, b: Book)
    {
      && Inv(kind, b, start, end) && b.g.Keys <= Cells(grid)
      && Edges(adj, b) && Settled(adj, b)
      && (end in b.g ==> end in b.members)
    }

    /** The termination measure of the outer loop falls from `b` to `b2`. */
    ghost predicate Decreases(order: seq<Node>, b: Book, b2: Book)
    {
      || Unseen(Cells(grid), b2.g) < Unseen(Cells(grid), b.g)
      || (Unseen(Cells(grid), b2.g) == Unseen(Cells(grid), b.g)
          && (Pot(order, b2.g) < Pot(order, b.g) || (Pot(order, b2.g) == Pot(order, b.g) && |b2.queue| < |b.queue|)))
    }

    /** One turn of the outer loop on the bookkeeping: popping the end concludes the search
        with a way back, popping any other cell and expanding it keeps the invariant and
        decreases the measure. */
    lemma Turn(kind: Kind, adj: map<Node, seq<Node>>, b: Book, order: seq<Node>)
      requires Running(kind, adj, b) && Contained(adj) && |b.queue| > 0
      requires forall c :: c in Cells(grid) ==> c in order
      ensures Comparable(b.queue) && DistinctCounts(b.queue)
      ensures Pop(b).0 in Cells(grid) && Pop(b).0 in b.g && Pop(b).0 !in Pop(b).1.members
      ensures Pop(b).1.g == b.g && Pop(b).1.members == b.members - {Pop(b).0} && b.members <= b.g.Keys
      ensures start in b.g && b.g[start] == 0 && ScoresOk(Pop(b).1, start)
      ensures Pop(b).0 == end ==> WayBackIn(adj, Trail(b.cameFrom, b.g, end))
      ensures Pop(b).0 == end ==> |Chain(b.cameFrom, b.g, end)| <= b.g[end]
      ensures Pop(b).0 == end && kind.Dijkstra? ==> |Chain(b.cameFrom, b.g, end)| == b.g[end]
      ensures Pop(b).0 == end && kind.Dijkstra? ==> SettledBelow(adj, Pop(b).1, b.g[end])
      ensures Pop(b).0 != end ==> Running(kind, adj, RelaxAll(kind, Pop(b).1, end, Pop(b).0, adj[Pop(b).0]))
      ensures Pop(b).0 != end ==> Decreases(order, b, RelaxAll(kind, Pop(b).1, end, Pop(b).0, adj[Pop(b).0]))
    {
      PopInv(kind, b, start, end);
      var current := Pop(b).0;
      var b1 := Pop(b).1;
      assert b.queue[MinIndex(b.queue)] in b.queue;
      if current == end {
        FoundWayBack(adj, b1);
        ChainLength(b1, start, end);
        if kind == Kind.Dijkstra {
          FrontSettled(adj, b);
        }
      } else {
        assert Expansion(kind, adj, b1, b1, current, order);
        ExpandKeeps(kind, adj, b1, current, order, adj[current]);
        StepKeeps(kind, adj, b, b1, RelaxAll(kind, b1, end, current, adj[current]), current, order);
      }
    }

    /** One turn of the outer loop: pop the most urgent entry; the end concludes the search,
        any other cell is expanded. */
    method Round(kind: Kind, ghost adj: map<Node, seq<Node>>, b: Book, ghost base: map<Node, Colour>,
                 ghost order: seq<Node>) returns (done: bool, b2: Book)
      requires Running(kind, adj, b) && Contained(adj) && |b.queue| > 0
      requires forall c :: c in Cells(grid) ==> c in order
      requires adj.Keys == Cells(grid) && forall m :: m in Cells(grid) ==> m.neighbours == adj[m]
      requires forall m :: m in Cells(grid) ==> m in base && m.colour == Shade(b, base[m], m)
      modifies Cells(grid)`colour
      ensures forall m :: m in Cells(grid) ==> m.neighbours == adj[m]
      ensures done ==> Reached(kind, adj, b2)
      ensures done ==> forall m :: m in Cells(grid) ==> m.colour == Final(b2, base[m], m)
      ensures !done ==> Running(kind, adj, b2) && Decreases(order, b, b2)
      ensures !done ==> forall m :: m in Cells(grid) ==> m.colour == Shade(b2, base[m], m)
    {
      Turn(kind, adj, b, order);
      var popped := Pop(b);
      var current := popped.0;
      b2 := popped.1;
      if current == end {
        Conclude(b, b2, base, adj);
        return true, b2;
      }
      b2 := Advance(kind, b, b2, current, base, adj);
      done := false;
    }

    /** The end has been popped: mark the chain, then the end. */
    method Conclude(ghost b: Book, b1: Book, ghost base: map<Node, Colour>, ghost adj: map<Node, seq<Node>>)
      requires ScoresOk(b1, start) && b1.g.Keys <= Cells(grid) && start in Cells(grid) && end in Cells(grid)
      requires b1.g == b.g && b1.members == b.members - {end}
      requires forall m :: m in Cells(grid) ==> m in base && m.colour == Shade(b, base[m], m)
      requires forall m :: m in Cells(grid) ==> m in adj && m.neighbours == adj[m]
      modifies Cells(grid)`colour
      ensures forall m :: m in Cells(grid) ==> m.colour == Final(b1, base[m], m)
      ensures forall m :: m in Cells(grid) ==> m.neighbours == adj[m]
    {
      Reconstruct(b1.cameFrom, b1.g, end);
      end.SetEnd();
    }

    /** Expands the popped cell `current` and closes it unless it is the start. */
    method Advance(kind: Kind, ghost b: Book, b1: Book, current: Node, ghost base: map<Node, Colour>,
                   ghost adj: map<Node, seq<Node>>) returns (b2: Book)
      requires Contained(adj) && current in Cells(grid)
      requires current in b1.g && current !in b1.members && start in b1.g && b1.g[start] == 0
      requires b1.g == b.g && b1.members == b.members - {current} && b.members <= b.g.Keys
      requires forall m :: m in Cells(grid) ==> m in base && m.colour == Shade(b, base[m], m)
      requires forall m :: m in Cells(grid) ==> m.neighbours == adj[m]
      modifies Cells(grid)`colour
      ensures b2 == RelaxAll(kind, b1, end, current, adj[current])
      ensures forall m :: m in Cells(grid) ==> m.colour == Shade(b2, base[m], m)
      ensures forall m :: m in Cells(grid) ==> m.neighbours == adj[m]
    {
      b2 := Expand(kind, b1, current, adj);
      if current != start {
        current.SetClosed();
      }
      RelaxAllMembers(kind, b1, end, current, adj[current], start);
      forall m | m in Cells(grid)
        ensures m.colour == Shade(b2, base[m], m)
      {
        ShadeStep(b, b1, b2, current, base[m], m);
      }
    }

    /** One turn of the outer loop, from `b` through the pop (`b1`) and the expansion of
        `current` (`b2`), keeps the invariants and decreases the termination measure. */
    lemma StepKeeps(kind: Kind, adj: map<Node, seq<Node>>, b: Book, b1: Book, b2: Book, current: Node, order: seq<Node>)
      requires b1.g == b.g && b1.members == b.members - {current} && |b1.queue| < |b.queue|
      requires Expansion(kind, adj, b1, b2, current, order)
      requires forall k :: k in adj[current] ==> k in b2.g && b2.g[k] <= b1.g[current] + 1
      requires Settled(adj, b) && (end in b.g ==> end in b.members) && current != end
      ensures Running(kind, adj, b2) && Decreases(order, b, b2)
    {
      ExpandedInv(kind, b2, start, end, current);
      SettledStep(adj, b, b1, b2, current);
      MeasureStep(order, b, b1, b2);
    }

    /** The pop shortens the queue and leaves the scores alone, so an expansion that
        changes nothing or makes progress lowers the measure of the turn. */
    lemma MeasureStep(order: seq<Node>, b: Book, b1: Book, b2: Book)
      requires b1.g == b.g && |b1.queue| < |b.queue|
      requires b2 == b1 || Progress(Cells(grid), order, b1, b2)
      ensures Decreases(order, b, b2)
    {
    }

    lemma SettledStep(adj: map<Node, seq<Node>>, b: Book, b1: Book, b2: Book, current: Node)
      requires Settled(adj, b) && b1.g == b.g && b1.members == b.members - {current}
      requires b1.members <= b2.members && b.g.Keys <= b2.g.Keys && b2.g.Keys - b1.g.Keys <= b2.members
      requires forall m :: m in b1.g ==> b2.g[m] <= b1.g[m]
      requires forall m :: m in b1.g && b2.g[m] != b1.g[m] ==> m in b2.members
      requires current in adj && current in b1.g && current !in b2.members
      requires forall k :: k in adj[current] ==> k in b2.g && b2.g[k] <= b1.g[current] + 1
      ensures Settled(adj, b2)
    {
      forall m, k | m in Cells(grid) && m in adj && m in b2.g && m !in b2.members && k in adj[m]
        ensures k in b2.g && b2.g[k] <= b2.g[m] + 1
      {
        if m != current {
          assert m in b.g && m !in b.members;
        }
      }
    }

    /** The colour a cell has after one turn of the outer loop is its shade in the new
        bookkeeping. */
    lemma ShadeStep(b: Book, b1: Book, b2: Book, current: Node, c: Colour, m: Node)
      requires b1.g == b.g && b1.members == b.members - {current}
      requires b1.members <= b2.members && b.g.Keys <= b2.g.Keys && b2.g.Keys - b1.g.Keys <= b2.members
      requires b.members <= b.g.Keys
      requires current in b.g && current !in b2.members && start !in b2.members - b1.members
      ensures m != current && m in b2.members - b1.members ==> Shade(b2, c, m) == Open
      ensures m != current && m !in b2.members - b1.members ==> Shade(b2, c, m) == Shade(b, c, m)
      ensures m == current && current != start ==> Shade(b2, c, m) == Closed
      ensures m == current && current == start ==> Shade(b2, c, m) == Shade(b, c, m)
    {
    }

    /** A map that agrees with every neighbour list is the adjacency. */
    lemma SameAdjacency(adj: map<Node, seq<Node>>)
      requires adj.Keys == Cells(grid)
      requires forall m :: m in Cells(grid) ==> m.neighbours == adj[m]
      ensures Adjacency() == adj
    {
    }

    /** On success the trail from the end is a way back to the start. */
    lemma FoundWayBack(adj: map<Node, seq<Node>>, b: Book)
      requires Contained(adj) && ScoresOk(b, start) && b.g.Keys <= Cells(grid) && Edges(adj, b) && end in b.g
      ensures WayBackIn(adj, Trail(b.cameFrom, b.g, end))
    {
      var w := Trail(b.cameFrom, b.g, end);
      ChainLinks(b.cameFrom, b.g, end);
      ChainScores(b.cameFrom, b.g, end);
      ChainLength(b, start, end);
      forall i | 0 <= i < |w| - 1
        ensures w[i] in adj[w[i + 1]]
      {
        assert w[i] in b.cameFrom;
      }
    }

    /** When the queue runs dry without the end having been scored, there is no way back. */
    lemma NoWayBack(adj: map<Node, seq<Node>>, b: Book)
      requires Settled(adj, b) && b.members == {} && start in b.g && end !in b.g
      ensures forall w :: !WayBackIn(adj, w)
    {
      forall w | WayBackIn(adj, w)
        ensures false
      {
        WayBackScored(adj, b, w, 0);
      }
    }

    lemma {:induction false} WayBackScored(adj: map<Node, seq<Node>>, b: Book, w: seq<Node>, i: int)
      requires Settled(adj, b) && b.members == {} && start in b.g
      requires WayBackIn(adj, w) && 0 <= i < |w|
      ensures w[i] in b.g
      decreases |w| - i
    {
      if i < |w| - 1 {
        WayBackScored(adj, b, w, i + 1);
        assert w[i] in adj[w[i + 1]];
      }
    }

    /** Every cell scored below `d` has all its neighbours scored, none of them more than
        one step above it. */
    ghost predicate SettledBelow(adj: map<Node, seq<Node>>, b: Book, d: nat)
    {
      forall m, k :: m in Cells(grid) && m in adj && m in b.g && b.g[m] < d && k in adj[m] ==>
        k in b.g && b.g[k] <= b.g[m] + 1
    }

    /** Dijkstra pops its front, and nothing queued has a smaller score than the front:
        every cell scored below the front is settled. */
    lemma FrontSettled(adj: map<Node, seq<Node>>, b: Book)
      requires Settled(adj, b) && QueueOk(b) && Nondecreasing(b) && |b.queue| > 0
      ensures b.queue[0].item in b.g && SettledBelow(adj, b, b.g[b.queue[0].item])
    {
      FrontLeast(b);
    }

    /** Once every cell scored below the end is settled, no way back has fewer than
        `g[end]` steps. */
    lemma Shortest(adj: map<Node, seq<Node>>, b: Book, w: seq<Node>)
      requires ScoresOk(b, start) && end in b.g && SettledBelow(adj, b, b.g[end])
      requires WayBackIn(adj, w)
      ensures b.g[end] <= |w| - 1
    {
      WayBackBound(adj, b, w, 0, b.g[end]);
    }

    /** The cell `i` places before the start on a way back has a score of at most `i`
        (its distance along the way back), unless `i` has reached `d`: a cell scored
        below `d` has its neighbours at most one above it. */
    lemma {:induction false} WayBackBound(adj: map<Node, seq<Node>>, b: Book, w: seq<Node>, i: int, d: nat)
      requires SettledBelow(adj, b, d) && start in b.g && b.g[start] == 0
      requires WayBackIn(adj, w) && 0 <= i < |w|
      ensures d <= |w| - 1 - i || (w[i] in b.g && b.g[w[i]] <= |w| - 1 - i)
      decreases |w| - i
    {
      if i < |w| - 1 {
        WayBackBound(adj, b, w, i + 1, d);
        assert w[i] in adj[w[i + 1]];
      }
    }

    /** A*: pushes carry `g + h` as priority. */
    method AStarAlgorithm() returns (found: bool, ghost b: Book)
      requires Linked()
      modifies Cells(grid)`colour
      ensures ScoresOk(b, start)
      ensures found ==> WayBack(Trail(b.cameFrom, b.g, end))
      ensures !found ==> forall w :: !WayBack(w)
      ensures found ==> end in b.g && |Chain(b.cameFrom, b.g, end)| <= b.g[end]
      ensures forall m :: m in Cells(grid) ==>
        m.colour == if found then Final(b, old(m.colour), m) else Shade(b, old(m.colour), m)
    {
      found, b := Search(AStar);
    }

    /** Dijkstra: every push carries the same shared priority, so the queue is first in,
        first out and the search is breadth first; the chain then has exactly as many
        cells as the end's score, and no way back is shorter than the path it marks. */
    method Dijkstra() returns (found: bool, ghost b: Book)
      requires Linked()
      modifies Cells(grid)`colour
      ensures ScoresOk(b, start)
      ensures found ==> WayBack(Trail(b.cameFrom, b.g, end))
      ensures !found ==> forall w :: !WayBack(w)
      ensures found ==> end in b.g && |Chain(b.cameFrom, b.g, end)| == b.g[end]
      ensures found ==> forall w :: WayBack(w) ==> |Trail(b.cameFrom, b.g, end)| <= |w|
      ensures forall m :: m in Cells(grid) ==>
        m.colour == if found then Final(b, old(m.colour), m) else Shade(b, old(m.colour), m)
    {
      found, b := Search(Kind.Dijkstra);
    }
  }
}

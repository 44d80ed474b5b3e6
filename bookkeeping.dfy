/** The bookkeeping of the two searches as values: the open set and its membership set,
    the predecessor map and the score maps, with the transitions the search loops make
    (push the start, pop the least entry, relax one neighbour) and the invariants they keep. */
module Bookkeeping {
  import opened Heuristic
  import opened Cell
  import opened OpenSet

  datatype Kind = AStar | Dijkstra

  /** `g` is `gScore` in A* and the single score map `fScore` in Dijkstra; `f` is A*'s
      `fScore` and stays empty in Dijkstra. A cell without a score has score infinity. */
  datatype Book = Book(
    queue: seq<Entry<Node>>,
    members: set<Node>,
    cameFrom: map<Node, Node>,
    g: map<Node, nat>,
    f: map<Node, int>,
    count: nat)

  /** The state before the first pop: the start is queued with priority 0 and count 0. */
  function Init(kind: Kind, start: Node, end: Node): (b: Book)
    ensures b.queue == [Entry(Score(0), 0, start)] && b.count == 0
    ensures b.members == Items(b.queue) == {start}
    ensures b.g == map[start := 0] && b.cameFrom == map[]
    ensures kind == AStar ==> b.f == map[start := H(start.GetPos(), end.GetPos())]
    ensures kind == Dijkstra ==> b.f == map[]
  {
    var b := Book([Entry(Score(0), 0, start)], {start}, map[], map[start := 0],
                  if kind == AStar then map[start := H(start.GetPos(), end.GetPos())] else map[], 0);
    assert Entry(Score(0), 0, start) in b.queue;
    b
  }

  /** The priority a push uses: the new `f` score in A*, the score map itself in Dijkstra. */
  function PushPriority(kind: Kind, score: int): (p: Priority)
    ensures p.Score? <==> kind == AStar
    ensures p.Score? ==> p.value == score
  {
    if kind == AStar then Score(score) else Shared
  }

  /** Dijkstra's pushes compare by count alone, whatever their scores: the queue is first
      in, first out. A*'s compare by score first. */
  lemma PushOrder(kind: Kind, s1: int, s2: int, c1: nat, c2: nat, x: Node, y: Node)
    ensures kind == Dijkstra ==>
      (Before(Entry(PushPriority(kind, s1), c1, x), Entry(PushPriority(kind, s2), c2, y)) <==> c1 < c2)
    ensures kind == AStar && s1 != s2 ==>
      (Before(Entry(PushPriority(kind, s1), c1, x), Entry(PushPriority(kind, s2), c2, y)) <==> s1 < s2)
  {
  }

  /** Going through `current` gives `n` a strictly smaller score than it has. */
  predicate Improves(b: Book, current: Node, n: Node)
    requires current in b.g
  {
    n !in b.g || b.g[current] + 1 < b.g[n]
  }

  /** One turn of the inner loop: relax the edge from `current` to `n` with unit cost. An
      improvement records the predecessor and the new scores, and pushes `n` unless it is
      already queued; a queued cell keeps its entry and the entry keeps its old priority. */
  function Relax(kind: Kind, b: Book, end: Node, current: Node, n: Node): (r: Book)
    requires current in b.g
    ensures Improves(b, current, n) <==> r.g != b.g
    ensures b.g.Keys <= r.g.Keys && n in r.g && current in r.g && r.g[current] == b.g[current]
    ensures n in r.g && r.g[n] <= r.g[current] + 1
    ensures forall m :: m in b.g ==> r.g[m] <= b.g[m]
    ensures forall m :: m in r.g && m != n ==> m in b.g && r.g[m] == b.g[m]
    ensures r.g != b.g ==> n in r.g && r.g[n] == r.g[current] + 1 && r.cameFrom == b.cameFrom[n := current]
    ensures r.g == b.g ==> r == b
    ensures r.g != b.g ==> n in r.members
    ensures b.members <= r.members <= b.members + {n}
    ensures n in r.members - b.members ==>
      r.queue == b.queue + [Entry(PushPriority(kind, r.g[n] + H(n.GetPos(), end.GetPos())), r.count, n)]
    ensures n in r.members - b.members ==> r.count == b.count + 1
    ensures r.members == b.members ==> r.queue == b.queue && r.count == b.count
  {
    if !Improves(b, current, n) then b
    else
      var temp := b.g[current] + 1;
      var b1 := b.(cameFrom := b.cameFrom[n := current], g := b.g[n := temp],
                   f := if kind == AStar then b.f[n := temp + H(n.GetPos(), end.GetPos())] else b.f);
      if n in b.members then b1
      else b1.(count := b.count + 1,
               queue := b.queue + [Entry(PushPriority(kind, temp + H(n.GetPos(), end.GetPos())), b.count + 1, n)],
               members := b.members + {n})
  }

  /** The inner loop over a neighbour list, one relaxation per entry, in list order. */
  function RelaxAll(kind: Kind, b: Book, end: Node, current: Node, ns: seq<Node>): (r: Book)
    requires current in b.g
    ensures b.g.Keys <= r.g.Keys && current in r.g && r.g[current] == b.g[current]
    ensures b.members <= r.members
    decreases |ns|
  {
    if ns == [] then b
    else Relax(kind, RelaxAll(kind, b, end, current, ns[..|ns| - 1]), end, current, ns[|ns| - 1])
  }

  /** The pop at the head of the outer loop: the least entry leaves the queue and its
      cell leaves the membership set. */
  function Pop(b: Book): (r: (Node, Book))
    requires |b.queue| > 0 && Comparable(b.queue) && DistinctCounts(b.queue)
    ensures r.0 == b.queue[MinIndex(b.queue)].item
    ensures forall i :: 0 <= i < |r.1.queue| ==> Before(b.queue[MinIndex(b.queue)], r.1.queue[i])
    ensures multiset(r.1.queue) + multiset{b.queue[MinIndex(b.queue)]} == multiset(b.queue)
    ensures r.1.members == b.members - {r.0}
    ensures r.1.g == b.g && r.1.cameFrom == b.cameFrom && r.1.f == b.f && r.1.count == b.count
  {
    var k := MinIndex(b.queue);
    (b.queue[k].item, b.(queue := Remove(b.queue, k), members := b.members - {b.queue[k].item}))
  }

  // ---------------------------------------------------------------------------
  // Invariants

  /** The queue and the membership set agree: a cell is a member exactly when it has an
      entry, no cell has two entries, counts grow along the queue and never pass `count`,
      and every queued cell has a score. */
  ghost predicate QueueOk(b: Book)
  {
    && IncreasingCounts(b.queue)
    && (forall i :: 0 <= i < |b.queue| ==> b.queue[i].count <= b.count)
    && DistinctItems(b.queue)
    && b.members == Items(b.queue)
    && b.members <= b.g.Keys
  }

  /** Predecessors and scores agree: the start has score 0 and no predecessor, every other
      scored cell has a scored predecessor with a smaller score. */
  ghost predicate ScoresOk(b: Book, start: Node)
  {
    && start in b.g && b.g[start] == 0 && start !in b.cameFrom
    && (forall n :: n in b.g && n != start ==> n in b.cameFrom)
    && ChainOk(b.cameFrom, b.g)
  }

  /** Every predecessor link goes to a scored cell with a strictly smaller score. */
  ghost predicate ChainOk(cameFrom: map<Node, Node>, g: map<Node, nat>)
  {
    forall n :: n in cameFrom ==> n in g && cameFrom[n] in g && g[cameFrom[n]] < g[n]
  }

  /** A*: all priorities are scores; `f` is `g` plus the heuristic; an entry pushed after
      the start has a priority no smaller than its cell's current `f` (scores only fall,
      and a queued cell's entry is not updated). */
  ghost predicate FScoresOk(b: Book, end: Node)
  {
    && (forall i :: 0 <= i < |b.queue| ==> b.queue[i].priority.Score?)
    && b.f.Keys == b.g.Keys
    && (forall n :: n in b.g ==> b.f[n] == b.g[n] + H(n.GetPos(), end.GetPos()))
    && (forall i :: 0 <= i < |b.queue| && b.queue[i].count > 0 ==>
          b.queue[i].item in b.f && b.queue[i].priority.value >= b.f[b.queue[i].item])
  }

  /** Every recorded predecessor is exactly one step closer. */
  ghost predicate Exact(b: Book)
  {
    forall n :: n in b.cameFrom ==> b.cameFrom[n] in b.g && n in b.g && b.g[n] == b.g[b.cameFrom[n]] + 1
  }

  /** Scores along the queue never fall. */
  ghost predicate Nondecreasing(b: Book)
  {
    forall i, j :: 0 <= i < j < |b.queue| ==>
      b.queue[i].item in b.g && b.queue[j].item in b.g && b.g[b.queue[i].item] <= b.g[b.queue[j].item]
  }

  /** Dijkstra between pops: only shared priorities (or just the start's entry), the queue
      in breadth-first layers, no score above the front's plus one, exact predecessors. */
  ghost predicate Bfs(b: Book, start: Node)
  {
    && ((forall i :: 0 <= i < |b.queue| ==> b.queue[i].priority.Shared?) || b.queue == [Entry(Score(0), 0, start)])
    && Nondecreasing(b)
    && (|b.queue| > 0 ==> b.queue[0].item in b.g && forall n :: n in b.g ==> b.g[n] <= b.g[b.queue[0].item] + 1)
    && Exact(b)
  }

  /** With scores nondecreasing along the queue, no queued cell has a smaller score than
      the front's. */
  lemma FrontLeast(b: Book)
    requires QueueOk(b) && Nondecreasing(b) && |b.queue| > 0
    ensures b.queue[0].item in b.g
    ensures forall m :: m in b.members ==> m in b.g && b.g[b.queue[0].item] <= b.g[m]
  {
    assert b.queue[0] in b.queue;
    forall m | m in b.members
      ensures m in b.g && b.g[b.queue[0].item] <= b.g[m]
    {
      var e :| e in b.queue && e.item == m;
      var j :| 0 <= j < |b.queue| && b.queue[j] == e;
    }
  }

  /** Dijkstra while the cell with score `d` is expanded. */
  ghost predicate Layered(b: Book, d: nat)
  {
    && (forall i :: 0 <= i < |b.queue| ==> b.queue[i].priority.Shared?)
    && Nondecreasing(b)
    && (forall i :: 0 <= i < |b.queue| ==> b.queue[i].item in b.g && d <= b.g[b.queue[i].item])
    && (forall n :: n in b.g ==> b.g[n] <= d + 1)
    && Exact(b)
  }

  /** The invariant of the outer loop. */
  ghost predicate Inv(kind: Kind, b: Book, start: Node, end: Node)
  {
    && QueueOk(b) && ScoresOk(b, start)
    && (kind == AStar ==> FScoresOk(b, end))
    && (kind == Dijkstra ==> Bfs(b, start))
  }

  /** The invariant of the inner loop, while `current` is expanded. */
  ghost predicate Expanding(kind: Kind, b: Book, start: Node, end: Node, current: Node)
  {
    && current in b.g && current !in b.members
    && QueueOk(b) && ScoresOk(b, start)
    && (kind == AStar ==> FScoresOk(b, end))
    && (kind == Dijkstra ==> Layered(b, b.g[current]))
  }

  // ---------------------------------------------------------------------------
  // The transitions keep the invariants

  lemma InitInv(kind: Kind, start: Node, end: Node)
    ensures Inv(kind, Init(kind, start, end), start, end)
  {
  }

  /** Every reachable queue can be popped: its entries compare and have distinct counts. */
  lemma InvComparable(kind: Kind, b: Book, start: Node, end: Node)
    requires Inv(kind, b, start, end)
    ensures Comparable(b.queue) && DistinctCounts(b.queue)
  {
    if kind == Dijkstra && b.queue == [Entry(Score(0), 0, start)] {
      assert forall i :: 0 <= i < |b.queue| ==> b.queue[i].priority.Score?;
    }
  }

  /** Popping hands the least entry to the inner loop, and in Dijkstra that entry
      is always the front of the queue: the open set behaves as a FIFO. */
  lemma PopInv(kind: Kind, b: Book, start: Node, end: Node)
    requires Inv(kind, b, start, end) && |b.queue| > 0
    ensures Comparable(b.queue) && DistinctCounts(b.queue)
    ensures kind == Dijkstra ==> MinIndex(b.queue) == 0
    ensures Expanding(kind, Pop(b).1, start, end, Pop(b).0)
  {
    InvComparable(kind, b, start, end);
    PopQueue(b, start);
    if kind == Dijkstra {
      PopFront(b, start);
    } else {
      PopScores(b, end);
    }
  }

  lemma PopQueue(b: Book, start: Node)
    requires QueueOk(b) && ScoresOk(b, start)
    requires |b.queue| > 0 && Comparable(b.queue) && DistinctCounts(b.queue)
    ensures Pop(b).0 in Pop(b).1.g && Pop(b).0 !in Pop(b).1.members
    ensures QueueOk(Pop(b).1) && ScoresOk(Pop(b).1, start)
  {
    var k := MinIndex(b.queue);
    RemoveKeeps(b.queue, k);
    RemoveItems(b.queue, k);
    assert b.queue[k] in b.queue;
    var r := Pop(b).1;
    forall i | 0 <= i < |r.queue|
      ensures r.queue[i].count <= r.count
    {
      assert r.queue[i] == b.queue[if i < k then i else i + 1];
    }
  }

  lemma PopFront(b: Book, start: Node)
    requires Bfs(b, start) && IncreasingCounts(b.queue) && |b.queue| > 0
    ensures Comparable(b.queue) && DistinctCounts(b.queue) && MinIndex(b.queue) == 0
    ensures Pop(b).0 in b.g && Layered(Pop(b).1, b.g[Pop(b).0])
  {
    if forall i :: 0 <= i < |b.queue| ==> b.queue[i].priority.Shared? {
      FifoPop(b.queue);
      PopShared(b);
    } else {
      assert b.queue == [Entry(Score(0), 0, start)];
      assert |Pop(b).1.queue| == 0;
    }
  }

  /** Popping the front of a queue of shared priorities leaves a queue whose scores all
      lie between the popped score and one more. */
  lemma PopShared(b: Book)
    requires |b.queue| > 0 && (forall i :: 0 <= i < |b.queue| ==> b.queue[i].priority.Shared?)
    requires Nondecreasing(b) && Exact(b)
    requires b.queue[0].item in b.g && forall n :: n in b.g ==> b.g[n] <= b.g[b.queue[0].item] + 1
    requires Comparable(b.queue) && DistinctCounts(b.queue) && MinIndex(b.queue) == 0
    ensures Layered(Pop(b).1, b.g[b.queue[0].item])
  {
    var q := Remove(b.queue, 0);
    assert Pop(b).1.queue == q;
    var d := b.g[b.queue[0].item];
    forall i | 0 <= i < |q|
      ensures q[i].item in b.g && d <= b.g[q[i].item] && q[i].priority.Shared?
    {
      assert q[i] == b.queue[i + 1];
    }
    forall i, j | 0 <= i < j < |q|
      ensures q[i].item in b.g && q[j].item in b.g && b.g[q[i].item] <= b.g[q[j].item]
    {
      assert q[i] == b.queue[i + 1];
      assert q[j] == b.queue[j + 1];
    }
  }

  lemma PopScores(b: Book, end: Node)
    requires FScoresOk(b, end) && |b.queue| > 0 && Comparable(b.queue) && DistinctCounts(b.queue)
    ensures FScoresOk(Pop(b).1, end)
  {
    var k := MinIndex(b.queue);
    var r := Pop(b).1;
    forall i | 0 <= i < |r.queue|
      ensures r.queue[i] == b.queue[if i < k then i else i + 1]
    {
    }
  }

  /** Relaxing an edge out of the cell being expanded keeps the inner-loop invariant. */
  lemma RelaxInv(kind: Kind, b: Book, start: Node, end: Node, current: Node, n: Node)
    requires Expanding(kind, b, start, end, current)
    ensures Expanding(kind, Relax(kind, b, end, current, n), start, end, current)
  {
    if Improves(b, current, n) {
      RelaxQueue(kind, b, end, current, n);
      RelaxScores(kind, b, start, end, current, n);
      if kind == AStar {
        RelaxFScores(b, end, current, n);
      } else {
        RelaxLayered(b, end, current, n);
      }
    }
  }

  lemma RelaxQueue(kind: Kind, b: Book, end: Node, current: Node, n: Node)
    requires QueueOk(b) && current in b.g
    ensures QueueOk(Relax(kind, b, end, current, n))
  {
    var r := Relax(kind, b, end, current, n);
    if n in r.members - b.members {
      var e := r.queue[|b.queue|];
      PushKeeps(b.queue, e);
    }
  }

  lemma RelaxScores(kind: Kind, b: Book, start: Node, end: Node, current: Node, n: Node)
    requires ScoresOk(b, start) && current in b.g
    ensures ScoresOk(Relax(kind, b, end, current, n), start)
  {
    var r := Relax(kind, b, end, current, n);
    if r.g != b.g {
      assert n != start;
      forall m | m in r.cameFrom
        ensures m in r.g && r.cameFrom[m] in r.g && r.g[r.cameFrom[m]] < r.g[m]
      {
        if m != n {
          assert m in b.cameFrom;
        }
      }
    }
  }

  lemma RelaxFScores(b: Book, end: Node, current: Node, n: Node)
    requires FScoresOk(b, end) && current in b.g
    ensures FScoresOk(Relax(AStar, b, end, current, n), end)
  {
    var r := Relax(AStar, b, end, current, n);
    if r.g != b.g {
      forall i | 0 <= i < |r.queue| && r.queue[i].count > 0
        ensures r.queue[i].item in r.f && r.queue[i].priority.value >= r.f[r.queue[i].item]
      {
        if i < |b.queue| {
          assert r.queue[i] == b.queue[i];
        }
      }
    }
  }

  lemma RelaxLayered(b: Book, end: Node, current: Node, n: Node)
    requires QueueOk(b) && current in b.g && Layered(b, b.g[current])
    ensures Layered(Relax(Dijkstra, b, end, current, n), b.g[current])
  {
    var r := Relax(Dijkstra, b, end, current, n);
    if n !in b.g {
      assert n !in b.members;
      var d := b.g[current];
      forall i | 0 <= i < |r.queue|
        ensures r.queue[i].item in r.g && d <= r.g[r.queue[i].item] && r.queue[i].priority.Shared?
      {
        if i < |b.queue| {
          assert r.queue[i] == b.queue[i];
        }
      }
      forall i, j | 0 <= i < j < |r.queue|
        ensures r.queue[i].item in r.g && r.queue[j].item in r.g && r.g[r.queue[i].item] <= r.g[r.queue[j].item]
      {
        assert r.queue[i] == b.queue[i];
        if j < |b.queue| {
          assert r.queue[j] == b.queue[j];
        }
      }
    }
  }

  /** After the last neighbour the outer-loop invariant holds again. */
  lemma ExpandedInv(kind: Kind, b: Book, start: Node, end: Node, current: Node)
    requires Expanding(kind, b, start, end, current)
    ensures Inv(kind, b, start, end)
  {
  }

  // ---------------------------------------------------------------------------
  // Termination

  /** Cells of `cells` not scored yet. */
  function Unseen(cells: set<Node>, g: map<Node, nat>): nat
  {
    |cells - g.Keys|
  }

  /** The sum of the scores of the cells listed in `order`. */
  ghost function Pot(order: seq<Node>, g: map<Node, nat>): nat
  {
    if order == [] then 0 else (if order[0] in g then g[order[0]] else 0) + Pot(order[1..], g)
  }

  /** Lowering the score of a listed cell lowers the sum. */
  lemma {:induction false} PotDecreases(order: seq<Node>, g: map<Node, nat>, n: Node, v: nat)
    requires n in order && n in g && v < g[n]
    ensures Pot(order, g[n := v]) < Pot(order, g)
  {
    if order[0] != n {
      PotDecreases(order[1..], g, n, v);
    } else if n in order[1..] {
      PotDecreases(order[1..], g, n, v);
    } else {
      PotSame(order[1..], g, n, v);
    }
  }

  lemma {:induction false} PotSame(order: seq<Node>, g: map<Node, nat>, n: Node, v: nat)
    requires n !in order && n in g
    ensures Pot(order, g[n := v]) == Pot(order, g)
  {
    if order != [] {
      PotSame(order[1..], g, n, v);
    }
  }

  /** Strict progress towards termination: a newly scored cell, or else a lower sum. */
  ghost predicate Progress(cells: set<Node>, order: seq<Node>, b0: Book, b1: Book)
  {
    || Unseen(cells, b1.g) < Unseen(cells, b0.g)
    || (Unseen(cells, b1.g) == Unseen(cells, b0.g) && Pot(order, b1.g) < Pot(order, b0.g))
  }

  /** A relaxation inside the grid either changes nothing or makes progress. */
  lemma RelaxProgress(kind: Kind, b: Book, end: Node, current: Node, n: Node, cells: set<Node>, order: seq<Node>)
    requires current in b.g && b.g.Keys <= cells && n in cells
    requires forall c :: c in cells ==> c in order
    ensures Relax(kind, b, end, current, n).g.Keys <= cells
    ensures Relax(kind, b, end, current, n) == b || Progress(cells, order, b, Relax(kind, b, end, current, n))
  {
    RelaxScoreMap(kind, b, end, current, n);
    if Improves(b, current, n) {
      if n in b.g {
        PotDecreases(order, b.g, n, b.g[current] + 1);
      } else {
        assert cells - b.g[n := b.g[current] + 1].Keys == (cells - b.g.Keys) - {n};
      }
    }
  }

  /** An improving relaxation gives `n` the score through `current`; any other leaves the
      bookkeeping as it was. */
  lemma RelaxScoreMap(kind: Kind, b: Book, end: Node, current: Node, n: Node)
    requires current in b.g
    ensures Improves(b, current, n) ==> Relax(kind, b, end, current, n).g == b.g[n := b.g[current] + 1]
    ensures !Improves(b, current, n) ==> Relax(kind, b, end, current, n) == b
  {
  }

  // ---------------------------------------------------------------------------
  // The predecessor chain walked by `reconstruct`

  /** The cells reached by following `cameFrom` from `n`, nearest first; `n` itself is not
      on it. Scores fall strictly along the links, so the walk ends. */
  ghost function Chain(cameFrom: map<Node, Node>, g: map<Node, nat>, n: Node): seq<Node>
    requires ChainOk(cameFrom, g)
    decreases if n in cameFrom then g[n] + 1 else 0
  {
    if n in cameFrom then [cameFrom[n]] + Chain(cameFrom, g, cameFrom[n]) else []
  }

  /** `n` followed by its chain: the walk `reconstruct` takes. */
  ghost function Trail(cameFrom: map<Node, Node>, g: map<Node, nat>, n: Node): seq<Node>
    requires ChainOk(cameFrom, g)
  {
    [n] + Chain(cameFrom, g, n)
  }

  /** Consecutive cells of the trail are linked by `cameFrom`, and the last one has no
      predecessor. */
  lemma {:induction false} ChainLinks(cameFrom: map<Node, Node>, g: map<Node, nat>, n: Node)
    requires ChainOk(cameFrom, g)
    ensures forall i :: 0 <= i < |Trail(cameFrom, g, n)| - 1 ==>
      Trail(cameFrom, g, n)[i] in cameFrom && cameFrom[Trail(cameFrom, g, n)[i]] == Trail(cameFrom, g, n)[i + 1]
    ensures Trail(cameFrom, g, n)[|Trail(cameFrom, g, n)| - 1] !in cameFrom
    decreases if n in cameFrom then g[n] + 1 else 0
  {
    if n in cameFrom {
      var p := cameFrom[n];
      ChainLinks(cameFrom, g, p);
      var w := Trail(cameFrom, g, n);
      var v := Trail(cameFrom, g, p);
      assert w == [n] + v;
      forall i | 0 <= i < |w| - 1
        ensures w[i] in cameFrom && cameFrom[w[i]] == w[i + 1]
      {
        if i > 0 {
          assert w[i] == v[i - 1] && w[i + 1] == v[i];
        }
      }
    }
  }

  /** Scores fall strictly along the trail, so no cell appears on it twice. */
  lemma {:induction false} ChainScores(cameFrom: map<Node, Node>, g: map<Node, nat>, n: Node)
    requires ChainOk(cameFrom, g) && n in g
    ensures forall i :: 0 <= i < |Trail(cameFrom, g, n)| ==> Trail(cameFrom, g, n)[i] in g
    ensures forall i, j :: 0 <= i < j < |Trail(cameFrom, g, n)| ==>
      g[Trail(cameFrom, g, n)[j]] < g[Trail(cameFrom, g, n)[i]]
    ensures forall i, j :: 0 <= i < j < |Trail(cameFrom, g, n)| ==>
      Trail(cameFrom, g, n)[i] != Trail(cameFrom, g, n)[j]
    decreases if n in cameFrom then g[n] + 1 else 0
  {
    var w := Trail(cameFrom, g, n);
    if n in cameFrom {
      var p := cameFrom[n];
      ChainScores(cameFrom, g, p);
      var v := Trail(cameFrom, g, p);
      assert w == [n] + v;
      forall i, j | 0 <= i < j < |w|
        ensures g[w[j]] < g[w[i]]
      {
        assert w[j] == v[j - 1];
        if i > 0 {
          assert w[i] == v[i - 1];
        } else if j > 1 {
          assert g[v[j - 1]] < g[v[0]];
        }
      }
    }
  }

  /** From a scored cell the chain runs back to the start (it is empty for the start itself)
      and holds at most as many cells as the score; with exact predecessors, exactly as many. */
  lemma {:induction false} ChainLength(b: Book, start: Node, n: Node)
    requires ScoresOk(b, start) && n in b.g
    ensures n == start <==> Chain(b.cameFrom, b.g, n) == []
    ensures n != start ==> Chain(b.cameFrom, b.g, n)[|Chain(b.cameFrom, b.g, n)| - 1] == start
    ensures |Chain(b.cameFrom, b.g, n)| <= b.g[n]
    ensures Exact(b) ==> |Chain(b.cameFrom, b.g, n)| == b.g[n]
    decreases b.g[n]
  {
    if n in b.cameFrom {
      var p := b.cameFrom[n];
      ChainLength(b, start, p);
      assert Chain(b.cameFrom, b.g, n) == [p] + Chain(b.cameFrom, b.g, p);
    }
  }

  lemma ProgressTrans(cells: set<Node>, order: seq<Node>, b0: Book, b1: Book, b2: Book)
    requires b1 == b0 || Progress(cells, order, b0, b1)
    requires b2 == b1 || Progress(cells, order, b1, b2)
    ensures b2 == b0 || Progress(cells, order, b0, b2)
  {
  }

  /** What an expansion does to membership: cells only join the queue, a cell that gains a
      score joins it, and neither the start nor the expanded cell joins it. */
  lemma {:induction false} RelaxAllMembers(kind: Kind, b: Book, end: Node, current: Node, ns: seq<Node>, start: Node)
    requires current in b.g && start in b.g && b.g[start] == 0
    ensures b.members <= RelaxAll(kind, b, end, current, ns).members
    ensures b.g.Keys <= RelaxAll(kind, b, end, current, ns).g.Keys
    ensures RelaxAll(kind, b, end, current, ns).g.Keys - b.g.Keys <= RelaxAll(kind, b, end, current, ns).members
    ensures start !in RelaxAll(kind, b, end, current, ns).members - b.members
    ensures current !in b.members ==> current !in RelaxAll(kind, b, end, current, ns).members
    ensures start in RelaxAll(kind, b, end, current, ns).g && RelaxAll(kind, b, end, current, ns).g[start] == 0
    decreases |ns|
  {
    if ns != [] {
      var init := ns[..|ns| - 1];
      RelaxAllMembers(kind, b, end, current, init, start);
    }
  }
}

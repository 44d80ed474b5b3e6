/** The open set of the searches: a priority queue of `(priority, count, cell)` entries.
    Entries are kept in insertion order; a pop removes the entry that compares least,
    as the binary heap behind the queue would return it. */
module OpenSet {

  /** The first component of an entry. A* pushes integer scores. Dijkstra pushes its
      own score dictionary, the same object every time: two such priorities compare
      equal, and comparing one with an integer would raise an error. */
  datatype Priority = Score(value: int) | Shared

  datatype Entry<T> = Entry(priority: Priority, count: nat, item: T)

  /** Tuple order on `(priority, count)`: `a` compares strictly below `b`. The cell is
      never consulted (its `<` always answers false), and mixed priorities do not
      compare at all. */
  predicate Before<T>(a: Entry<T>, b: Entry<T>)
  {
    match (a.priority, b.priority)
    case (Score(x), Score(y)) => x < y || (x == y && a.count < b.count)
    case (Shared, Shared) => a.count < b.count
    case _ => false
  }

  /** Every pair of entries can be compared: all scores, or all shared. */
  predicate Comparable<T>(q: seq<Entry<T>>)
  {
    (forall i :: 0 <= i < |q| ==> q[i].priority.Score?) || (forall i :: 0 <= i < |q| ==> q[i].priority.Shared?)
  }

  predicate DistinctCounts<T>(q: seq<Entry<T>>)
  {
    forall i, j :: 0 <= i < j < |q| ==> q[i].count != q[j].count
  }

  /** Counts grow along the queue, as they do when each push takes a fresh, larger count. */
  predicate IncreasingCounts<T>(q: seq<Entry<T>>)
  {
    forall i, j :: 0 <= i < j < |q| ==> q[i].count < q[j].count
  }

  /** No cell has two entries. */
  ghost predicate DistinctItems<T>(q: seq<Entry<T>>)
  {
    forall i, j :: 0 <= i < j < |q| ==> q[i].item != q[j].item
  }

  /** The cells that have an entry. */
  function Items<T>(q: seq<Entry<T>>): set<T>
  {
    set e | e in q :: e.item
  }

  /** On comparable entries with different counts the order is total. */
  lemma BeforeTotal<T>(a: Entry<T>, b: Entry<T>)
    requires a.priority.Score? == b.priority.Score? && a.count != b.count
    ensures Before(a, b) || Before(b, a)
  {
  }

  lemma BeforeTransitive<T>(a: Entry<T>, b: Entry<T>, c: Entry<T>)
    requires Before(a, b) && Before(b, c)
    ensures Before(a, c)
  {
  }

  /** The position of the entry that compares below every other one. */
  function MinIndex<T>(q: seq<Entry<T>>): (k: nat)
    requires |q| > 0 && Comparable(q) && DistinctCounts(q)
    ensures k < |q|
    ensures forall j :: 0 <= j < |q| && j != k ==> Before(q[k], q[j])
    decreases |q|
  {
    if |q| == 1 then 0
    else
      assert Comparable(q[1..]) by {
        if forall i :: 0 <= i < |q| ==> q[i].priority.Score? {
          assert forall i :: 0 <= i < |q[1..]| ==> q[1..][i] == q[i + 1];
        } else {
          assert forall i :: 0 <= i < |q[1..]| ==> q[1..][i] == q[i + 1];
        }
      }
      var k := MinIndex(q[1..]) + 1;
      assert Before(q[k], q[0]) || Before(q[0], q[k]) by {
        BeforeTotal(q[0], q[k]);
      }
      if Before(q[0], q[k]) then
        assert forall j :: 1 <= j < |q| && j != k ==> Before(q[0], q[j]) by {
          forall j | 1 <= j < |q| && j != k
            ensures Before(q[0], q[j])
          {
            assert q[1..][j - 1] == q[j] && q[1..][k - 1] == q[k];
            BeforeTransitive(q[0], q[k], q[j]);
          }
        }
        0
      else
        assert forall j :: 1 <= j < |q| && j != k ==> Before(q[k], q[j]) by {
          forall j | 1 <= j < |q| && j != k
            ensures Before(q[k], q[j])
          {
            assert q[1..][j - 1] == q[j] && q[1..][k - 1] == q[k];
          }
        }
        k
  }

  /** The queue without its `k`-th entry. */
  function Remove<T>(q: seq<Entry<T>>, k: nat): (r: seq<Entry<T>>)
    requires k < |q|
    ensures |r| == |q| - 1
    ensures forall i :: 0 <= i < |r| ==> r[i] == if i < k then q[i] else q[i + 1]
    ensures multiset(r) + multiset{q[k]} == multiset(q)
  {
    assert q == q[..k] + [q[k]] + q[k + 1..];
    q[..k] + q[k + 1..]
  }

  /** Removing an entry keeps the ordering and distinctness properties. */
  lemma RemoveKeeps<T>(q: seq<Entry<T>>, k: nat)
    requires k < |q|
    ensures Comparable(q) ==> Comparable(Remove(q, k))
    ensures IncreasingCounts(q) ==> IncreasingCounts(Remove(q, k))
    ensures DistinctItems(q) ==> DistinctItems(Remove(q, k))
  {
  }

  /** Removing an entry takes exactly its cell out of the item set when no cell has
      two entries. */
  lemma RemoveItems<T>(q: seq<Entry<T>>, k: nat)
    requires k < |q| && DistinctItems(q)
    ensures Items(Remove(q, k)) == Items(q) - {q[k].item}
  {
    forall x | x in Items(q) - {q[k].item}
      ensures x in Items(Remove(q, k))
    {
      RemoveLeaves(q, k, x);
    }
    forall x | x in Items(Remove(q, k))
      ensures x in Items(q) - {q[k].item}
    {
      RemoveTakes(q, k, x);
    }
  }

  /** A cell other than the removed one keeps its entry. */
  lemma RemoveLeaves<T>(q: seq<Entry<T>>, k: nat, x: T)
    requires k < |q| && x in Items(q) && x != q[k].item
    ensures x in Items(Remove(q, k))
  {
    var r := Remove(q, k);
    var e :| e in q && e.item == x;
    var i :| 0 <= i < |q| && q[i] == e;
    var j := if i < k then i else i - 1;
    assert r[j] == e;
  }

  /** A cell left with an entry had one before, and it is not the removed cell. */
  lemma RemoveTakes<T>(q: seq<Entry<T>>, k: nat, x: T)
    requires k < |q| && DistinctItems(q) && x in Items(Remove(q, k))
    ensures x in Items(q) - {q[k].item}
  {
    var r := Remove(q, k);
    var e :| e in r && e.item == x;
    var i :| 0 <= i < |r| && r[i] == e;
    var j := if i < k then i else i + 1;
    assert e == q[j] && j != k;
  }

  /** Appending an entry for a new cell with a larger count keeps the invariants and adds
      exactly that cell. */
  lemma PushKeeps<T>(q: seq<Entry<T>>, e: Entry<T>)
    ensures Items(q + [e]) == Items(q) + {e.item}
    ensures IncreasingCounts(q) && (forall i :: 0 <= i < |q| ==> q[i].count < e.count) ==> IncreasingCounts(q + [e])
    ensures DistinctItems(q) && e.item !in Items(q) ==> DistinctItems(q + [e])
  {
    var r := q + [e];
    forall x | x in Items(r)
      ensures x in Items(q) + {e.item}
    {
      var f :| f in r && f.item == x;
      if f != e {
        assert f in q;
      }
    }
    assert e in r;
    forall x | x in Items(q)
      ensures x in Items(r)
    {
      var f :| f in q && f.item == x;
      assert f in r;
    }
    if DistinctItems(q) && e.item !in Items(q) {
      forall i, j | 0 <= i < j < |r|
        ensures r[i].item != r[j].item
      {
        if j == |q| {
          assert r[i] in q;
        }
      }
    }
  }

  /** With shared priorities, pops follow insertion order: the first entry is the least. */
  lemma FifoPop<T>(q: seq<Entry<T>>)
    requires |q| > 0 && IncreasingCounts(q)
    requires forall i :: 0 <= i < |q| ==> q[i].priority.Shared?
    ensures Comparable(q) && DistinctCounts(q) && MinIndex(q) == 0
  {
  }
}

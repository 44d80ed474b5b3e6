/** The mouse rules of the main loop that place the start, the end and the barriers.
    A selection slot holds the chosen cell or nothing. */
module Editor {
  import opened Wrappers
  import opened Cell

  /** The start and end cells chosen so far. */
  datatype Selection<T(==)> = Selection(start: Option<T>, end: Option<T>)

  /** Start and end, when both are chosen, are different cells. */
  predicate Distinct<T(==)>(sel: Selection<T>)
  {
    sel.start.Some? && sel.end.Some? ==> sel.start.value != sel.end.value
  }

  /** The left-click rule exactly as the main loop states it: the first click picks the
      start, the next click elsewhere picks the end, later clicks elsewhere draw barriers.
      The result pairs the new selection with the colour painted on the clicked cell. */
  function LeftClickAsWritten<T(==)>(sel: Selection<T>, node: T): (r: (Selection<T>, Option<Colour>))
    ensures r.1 == Some(Start) <==> sel.start.None?
    ensures r.1 == Some(End) <==> sel.start.Some? && sel.end.None? && Some(node) != sel.start
    ensures r.1 == Some(Barrier) <==> sel.start.Some? && sel.end.Some? && Some(node) != sel.start && Some(node) != sel.end
    ensures r.1.None? <==> sel.start.Some? && (Some(node) == sel.start || Some(node) == sel.end)
    ensures r.1 == Some(Start) ==> r.0 == sel.(start := Some(node))
    ensures r.1 == Some(End) ==> r.0 == sel.(end := Some(node))
    ensures r.1 != Some(Start) && r.1 != Some(End) ==> r.0 == sel
  {
    if sel.start.None? then (sel.(start := Some(node)), Some(Start))
    else if sel.end.None? && Some(node) != sel.start then (sel.(end := Some(node)), Some(End))
    else if Some(node) != sel.start && Some(node) != sel.end then (sel, Some(Barrier))
    else (sel, None)
  }

  /** When the start has been cleared but the end is still set, clicking the end cell
      makes it the start as well. */
  lemma LeftClickAsWrittenMergesEnds()
    ensures var sel := Selection(None, Some(7));
      Distinct(sel) && !Distinct(LeftClickAsWritten(sel, 7).0)
  {
  }

  /** The left-click rule with the start slot guarded against the end cell, as the
      guard on the end slot already is against the start cell. */
  function LeftClick<T(==)>(sel: Selection<T>, node: T): (r: (Selection<T>, Option<Colour>))
    ensures r.1 == Some(Start) <==> sel.start.None? && Some(node) != sel.end
    ensures r.1 == Some(Start) ==> r.0 == sel.(start := Some(node))
    ensures r.1 == Some(End) <==> sel.start.Some? && sel.end.None? && Some(node) != sel.start
    ensures r.1 == Some(End) ==> r.0 == sel.(end := Some(node))
    ensures r.1 == Some(Barrier) <==> sel.start.Some? && sel.end.Some? && Some(node) != sel.start && Some(node) != sel.end
    ensures r.1.None? <==> Some(node) == sel.start || Some(node) == sel.end
    ensures r.1 == None || r.1 == Some(Start) || r.1 == Some(End) || r.1 == Some(Barrier)
    ensures r.1 != Some(Start) && r.1 != Some(End) ==> r.0 == sel
  {
    if sel.start.None? && Some(node) != sel.end then (sel.(start := Some(node)), Some(Start))
    else if sel.end.None? && Some(node) != sel.start then (sel.(end := Some(node)), Some(End))
    else if Some(node) != sel.start && Some(node) != sel.end then (sel, Some(Barrier))
    else (sel, None)
  }

  /** The corrected rule never lets start and end coincide. */
  lemma LeftClickKeepsDistinct<T>(sel: Selection<T>, node: T)
    requires Distinct(sel)
    ensures Distinct(LeftClick(sel, node).0)
  {
  }

  /** The right-click rule: the clicked cell is erased, and if it was the start (or else
      the end) that slot is emptied. */
  function RightClick<T(==)>(sel: Selection<T>, node: T): (r: Selection<T>)
    ensures Some(node) != r.start
    ensures sel.start != sel.end ==> Some(node) != r.end
    ensures r.start.Some? ==> r.start == sel.start
    ensures r.end.Some? ==> r.end == sel.end
    ensures Some(node) != sel.start ==> r.start == sel.start
    ensures Some(node) == sel.start || Some(node) != sel.end ==> r.end == sel.end
  {
    if Some(node) == sel.start then sel.(start := None)
    else if Some(node) == sel.end then sel.(end := None)
    else sel
  }

  lemma RightClickKeepsDistinct<T>(sel: Selection<T>, node: T)
    requires Distinct(sel)
    ensures Distinct(RightClick(sel, node))
  {
  }

  /** The chosen start shows the start colour and the chosen end the end colour. */
  ghost predicate Painted(sel: Selection<Node>)
    reads (if sel.start.Some? then {sel.start.value} else {}), (if sel.end.Some? then {sel.end.value} else {})
  {
    && (sel.start.Some? ==> sel.start.value.colour == Start)
    && (sel.end.Some? ==> sel.end.value.colour == End)
  }

  /** Applies a left click to the clicked cell. */
  method OnLeftClick(sel: Selection<Node>, node: Node) returns (next: Selection<Node>)
    modifies node`colour
    ensures next == LeftClick(sel, node).0
    ensures LeftClick(sel, node).1.Some? ==> node.colour == LeftClick(sel, node).1.value
    ensures LeftClick(sel, node).1.None? ==> node.colour == old(node.colour)
    ensures Distinct(sel) ==> Distinct(next)
    ensures old(Painted(sel)) ==> Painted(next)
  {
    next := sel;
    if sel.start.None? && Some(node) != sel.end {
      next := sel.(start := Some(node));
      node.SetStart();
    } else if sel.end.None? && Some(node) != sel.start {
      next := sel.(end := Some(node));
      node.SetEnd();
    } else if Some(node) != sel.start && Some(node) != sel.end {
      node.SetBarrier();
    }
    if Distinct(sel) {
      LeftClickKeepsDistinct(sel, node);
    }
  }

  /** Applies a right click to the clicked cell. */
  method OnRightClick(sel: Selection<Node>, node: Node) returns (next: Selection<Node>)
    modifies node`colour
    ensures next == RightClick(sel, node)
    ensures node.colour == Empty
    ensures Distinct(sel) ==> Distinct(next)
    ensures Distinct(sel) && old(Painted(sel)) ==> Painted(next)
  {
    next := sel;
    if Some(node) == sel.start {
      next := sel.(start := None);
    } else if Some(node) == sel.end {
      next := sel.(end := None);
    }
    node.Reset();
    if Distinct(sel) {
      RightClickKeepsDistinct(sel, node);
    }
  }
}

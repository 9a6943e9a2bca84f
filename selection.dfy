/**
 * A selection of the editor: two ordered end points, a flag telling which
 * of them is the head (the end the motions move), the sticky goal column
 * and the identity that survives edits. `set_head` and `collapse_to`
 * belong to the editor and are written here after its definitions.
 */
module Selections {
  import opened DisplayMap

  /** The horizontal column a vertical motion tries to return to. */
  datatype Goal = NoGoal | Column(column: nat) | ColumnRange(first: nat, last: nat)

  datatype Selection = Selection(id: nat, start: Point, end: Point, reversed: bool, goal: Goal)

  /** The end the cursor sits on. */
  function Head(s: Selection): Point
  {
    if s.reversed then s.start else s.end
  }

  /** The end that stays put while the head moves. */
  function Tail(s: Selection): Point
  {
    if s.reversed then s.end else s.start
  }

  predicate Ordered(s: Selection)
  {
    LessEq(s.start, s.end)
  }

  predicate SelectionInBounds(lines: Lines, s: Selection)
  {
    InBounds(lines, s.start) && InBounds(lines, s.end)
  }

  /**
   * `set_head(head, goal)`: the tail stays where it is, the head moves to
   * `head`, and the selection is reversed exactly when the head now lies
   * before the tail.
   */
  function SetHead(s: Selection, head: Point, goal: Goal): (r: Selection)
    ensures Head(r) == head && Tail(r) == Tail(s)
    ensures r.reversed <==> Less(head, Tail(s))
    ensures Ordered(r)
    ensures r.id == s.id && r.goal == goal
  {
    if Less(head, Tail(s)) then
      var flipped := if !s.reversed then s.(end := s.start, reversed := true) else s;
      flipped.(start := head, goal := goal)
    else
      var flipped := if s.reversed then s.(start := s.end, reversed := false) else s;
      flipped.(end := head, goal := goal)
  }

  /** `collapse_to(p, goal)`: an empty, forward selection at `p`. */
  function CollapseTo(s: Selection, p: Point, goal: Goal): (r: Selection)
    ensures r.start == r.end == Head(r) == Tail(r) == p
    ensures !r.reversed && Ordered(r)
    ensures r.id == s.id && r.goal == goal
  {
    s.(start := p, end := p, reversed := false, goal := goal)
  }
}

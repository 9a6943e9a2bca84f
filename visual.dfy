/**
 * Visual (characterwise) and visual-line modes of the vim layer: extending
 * the selections with a motion, and turning them into the ranges that the
 * delete and change commands remove, with the cursor fix-up afterwards.
 *
 * Each `move_with` closure of crates/vim/src/visual.rs is specified by a
 * function on one selection; the `Editor` methods run the closures over
 * all selections in place, as the editor does.
 */
module Visual {
  import opened DisplayMap
  import opened Selections

  // ----- Column nudges used by the boundary repairs -----

  /** One column back, saturating at column 0, then clipped Left (visual.rs:38-39). */
  function ColumnBefore(lines: Lines, p: Point, clipAtLineEnds: bool): (r: Point)
    requires p.row < |lines|
    ensures r.row == p.row && r.column <= p.column && IsClipped(lines, r, clipAtLineEnds)
    ensures p.column == 0 ==> r.column == 0
    ensures 0 < p.column <= MaxColumn(lines, p.row, clipAtLineEnds) + 1 ==> r.column == p.column - 1
    ensures p.column > MaxColumn(lines, p.row, clipAtLineEnds) + 1 ==>
      r.column == MaxColumn(lines, p.row, clipAtLineEnds)
  {
    ClipPoint(lines, Point(p.row, if p.column > 0 then p.column - 1 else 0), Left, clipAtLineEnds)
  }

  /** One column forward, then clipped with `bias` (visual.rs:43-44, 61-62, 99-100). */
  function ColumnAfter(lines: Lines, p: Point, bias: Bias, clipAtLineEnds: bool): (r: Point)
    requires p.row < |lines|
    ensures r.row == p.row && IsClipped(lines, r, clipAtLineEnds)
    ensures p.column < MaxColumn(lines, p.row, clipAtLineEnds) ==> r.column == p.column + 1
    ensures p.column >= MaxColumn(lines, p.row, clipAtLineEnds) ==>
      r.column == MaxColumn(lines, p.row, clipAtLineEnds)
  {
    ClipPoint(lines, Point(p.row, p.column + 1), bias, clipAtLineEnds)
  }

  // ----- visual_motion -----

  /**
   * One selection after a motion that produced `target` and `goal`
   * (visual.rs:30-45): the head becomes the target clipped to the line end,
   * the tail stays, and when the direction flips the old tail is nudged so
   * that the character under it stays selected.
   */
  function MotionStep(lines: Lines, clipAtLineEnds: bool, s: Selection, target: Point, goal: Goal): (r: Selection)
    requires SelectionInBounds(lines, s)
    ensures Head(r) == ClipAtLineEnd(lines, target) && IsClipped(lines, Head(r), true)
    ensures r.id == s.id && r.goal == goal
    ensures r.reversed <==> Less(Head(r), Tail(s))
    ensures r.reversed == s.reversed ==> Tail(r) == Tail(s)
    ensures s.reversed && !r.reversed ==> r.start == ColumnBefore(lines, Tail(s), clipAtLineEnds)
    ensures !s.reversed && r.reversed ==> r.end == ColumnAfter(lines, Tail(s), Right, clipAtLineEnds)
    ensures SelectionInBounds(lines, r) && Ordered(r)
  {
    var head := ClipAtLineEnd(lines, target);
    var moved := SetHead(s, head, goal);
    if s.reversed && !moved.reversed then
      moved.(start := ColumnBefore(lines, moved.start, clipAtLineEnds))
    else if !s.reversed && moved.reversed then
      moved.(end := ColumnAfter(lines, moved.end, Right, clipAtLineEnds))
    else
      moved
  }

  /** The selection after the opaque motion `motion` moved its head (visual.rs:30). */
  function ApplyMotion(lines: Lines, clipAtLineEnds: bool, s: Selection, motion: (Point, Goal) -> (Point, Goal)): (r: Selection)
    requires SelectionInBounds(lines, s)
    ensures var moved := motion(Head(s), s.goal);
            Head(r) == ClipAtLineEnd(lines, moved.0) && r.goal == moved.1
    ensures r.id == s.id && (r.reversed <==> Less(Head(r), Tail(s)))
    ensures SelectionInBounds(lines, r) && Ordered(r)
  {
    var moved := motion(Head(s), s.goal);
    MotionStep(lines, clipAtLineEnds, s, moved.0, moved.1)
  }

  /**
   * The "character under the cursor is included" reading of a visual
   * selection that was entered on the character `anchor`: a forward
   * selection starts at the anchor; a reversed one ends just after it.
   */
  predicate AnchoredAt(lines: Lines, s: Selection, anchor: Point)
  {
    IsClipped(lines, anchor, true) && SelectionInBounds(lines, s) && Ordered(s) &&
    if s.reversed then
      Less(s.start, s.end) && s.end == ColumnAfter(lines, anchor, Right, false)
    else
      s.start == anchor
  }

  /**
   * With line-end clipping off, as in visual mode, the boundary repair keeps
   * the character the selection was entered on selected through any motion,
   * in whichever direction the head crosses it.
   */
  lemma MotionKeepsAnchor(lines: Lines, s: Selection, anchor: Point, target: Point, goal: Goal)
    requires AnchoredAt(lines, s, anchor)
    ensures AnchoredAt(lines, MotionStep(lines, false, s, target, goal), anchor)
  {
    var r := MotionStep(lines, false, s, target, goal);
    if s.reversed && !r.reversed {
      assert r.start == ColumnBefore(lines, s.end, false);
    } else if !s.reversed && r.reversed {
      assert Less(r.start, s.start);
    }
  }

  // ----- change / delete: the characterwise range -----

  /**
   * The range a characterwise delete (bias Right, visual.rs:96-101) or
   * change (bias Left, visual.rs:58-63) removes: a forward selection is
   * extended over the character under its head; a reversed one is left as
   * it is.
   */
  function ExtendEnd(lines: Lines, clipAtLineEnds: bool, s: Selection, bias: Bias): (r: Selection)
    requires SelectionInBounds(lines, s)
    ensures s.reversed ==> r == s
    ensures !s.reversed ==> r.start == s.start && r.end == ColumnAfter(lines, Head(s), bias, clipAtLineEnds)
    ensures r.id == s.id && r.reversed == s.reversed && r.goal == s.goal
    ensures SelectionInBounds(lines, r)
    ensures !clipAtLineEnds && Ordered(s) ==> Ordered(r)
  {
    if !s.reversed then s.(end := ColumnAfter(lines, s.end, bias, clipAtLineEnds)) else s
  }

  /**
   * The range a visual delete or change removes is exactly the characters
   * from the earlier to the later of the anchor and the head, both included.
   */
  lemma ExtendEndCoversSelection(lines: Lines, s: Selection, anchor: Point, bias: Bias)
    requires AnchoredAt(lines, s, anchor)
    ensures ExtendEnd(lines, false, s, bias).start == MinPoint(anchor, Head(s))
    ensures ExtendEnd(lines, false, s, bias).end == ColumnAfter(lines, MaxPoint(anchor, Head(s)), bias, false)
  {
    if s.reversed {
      assert LessEq(s.start, anchor);
    }
  }

  /**
   * The delete fix-up (visual.rs:111-113): a cursor at the head clipped
   * Left, keeping the goal.
   */
  function CollapseAtHead(lines: Lines, clipAtLineEnds: bool, s: Selection): (r: Selection)
    ensures r.start == r.end && !r.reversed && r.id == s.id && r.goal == s.goal
    ensures IsClipped(lines, r.start, clipAtLineEnds)
    ensures IsClipped(lines, Head(s), clipAtLineEnds) ==> r.start == Head(s)
    ensures Head(s).row < |lines| ==>
      r.start.row == Head(s).row && r.start.column <= Head(s).column
    ensures Head(s).row < |lines| ==>
      r.start.column == if Head(s).column <= MaxColumn(lines, Head(s).row, clipAtLineEnds)
                        then Head(s).column else MaxColumn(lines, Head(s).row, clipAtLineEnds)
  {
    var cursor := ClipPoint(lines, Head(s), Left, clipAtLineEnds);
    CollapseTo(s, cursor, s.goal)
  }

  // ----- change_line / delete_line: the linewise range -----

  /** `change_line` (visual.rs:79-80): from the start of the first line to the end of the last. */
  function ExpandToLines(lines: Lines, s: Selection): (r: Selection)
    requires SelectionInBounds(lines, s)
    ensures r.start.row == s.start.row && r.end.row == s.end.row
    ensures r.start.column == 0 && r.end.column == LineLen(lines, s.end.row)
    ensures r.id == s.id && r.reversed == s.reversed && r.goal == s.goal
    ensures SelectionInBounds(lines, r) && (Ordered(s) ==> Ordered(r))
  {
    s.(start := PrevLineBoundary(lines, s.start), end := NextLineBoundary(lines, s.end))
  }

  /**
   * `delete_line`'s range (visual.rs:129-141): whole lines. Above the last
   * row the range runs to the start of the next row, taking the lines'
   * own terminators; ending on the last row it starts at the end of the
   * line before instead, taking the terminator above.
   */
  function ExpandToWholeLines(lines: Lines, s: Selection): (r: Selection)
    requires SelectionInBounds(lines, s)
    ensures r.id == s.id && r.reversed == s.reversed && r.goal == s.goal
    ensures s.end.row < MaxRow(lines) ==>
      r.start == Point(s.start.row, 0) && r.end == Point(s.end.row + 1, 0)
    ensures s.end.row == MaxRow(lines) && s.start.row > 0 ==>
      r.start == Point(s.start.row - 1, LineLen(lines, s.start.row - 1)) &&
      r.end == Point(s.end.row, LineLen(lines, s.end.row))
    ensures s.end.row == MaxRow(lines) && s.start.row == 0 ==>
      r.start == Point(0, 0) && r.end == Point(s.end.row, LineLen(lines, s.end.row))
    ensures SelectionInBounds(lines, r) && (Ordered(s) ==> Ordered(r))
  {
    var s1 := s.(start := PrevLineBoundary(lines, s.start));
    if s1.end.row < MaxRow(lines) then
      s1.(end := Point(s1.end.row + 1, 0))
    else
      var s2 := if s1.start.row > 0 then
        s1.(start := Point(s1.start.row - 1, LineLen(lines, s1.start.row - 1)))
      else s1;
      s2.(end := NextLineBoundary(lines, s2.end))
  }

  /**
   * The `original_columns` side table after recording every selection of
   * `sels` in order (visual.rs:125-128); a later selection with the same id
   * overwrites an earlier one, as `HashMap::insert` does.
   */
  function RecordColumns(sels: seq<Selection>): (columns: map<nat, nat>)
    ensures forall id | id in columns ::
      exists k :: 0 <= k < |sels| && sels[k].id == id && Head(sels[k]).column == columns[id]
  {
    if sels == [] then map[]
    else RecordColumns(sels[..|sels| - 1])[sels[|sels| - 1].id := Head(sels[|sels| - 1]).column]
  }

  predicate UniqueIds(sels: seq<Selection>)
  {
    forall i, j :: 0 <= i < j < |sels| ==> sels[i].id != sels[j].id
  }

  /** The side table holds exactly the recorded ids. */
  lemma {:induction false} RecordColumnsKeys(sels: seq<Selection>)
    ensures RecordColumns(sels).Keys == set s | s in sels :: s.id
  {
    if sels != [] {
      var init := sels[..|sels| - 1];
      RecordColumnsKeys(init);
      assert sels == init + [sels[|sels| - 1]];
    }
  }

  /** The last selection recorded under an id decides its column. */
  lemma {:induction false} RecordColumnsLastWins(sels: seq<Selection>, k: nat)
    requires k < |sels|
    requires forall j :: k < j < |sels| ==> sels[j].id != sels[k].id
    ensures sels[k].id in RecordColumns(sels)
    ensures RecordColumns(sels)[sels[k].id] == Head(sels[k]).column
  {
    var last := |sels| - 1;
    if k < last {
      var init := sels[..last];
      assert forall j :: k < j < |init| ==> init[j] == sels[j];
      RecordColumnsLastWins(init, k);
    }
  }

  /** With distinct ids, each selection's head column is found under its id. */
  lemma RecordColumnsFind(sels: seq<Selection>, k: nat)
    requires UniqueIds(sels) && k < |sels|
    ensures sels[k].id in RecordColumns(sels)
    ensures RecordColumns(sels)[sels[k].id] == Head(sels[k]).column
  {
    RecordColumnsLastWins(sels, k);
  }

  /**
   * The `delete_line` fix-up (visual.rs:151-156): a cursor at the head whose
   * column is replaced by the recorded one when there is a record, clipped
   * Left.
   */
  function RestoreColumn(lines: Lines, clipAtLineEnds: bool, s: Selection, columns: map<nat, nat>): (r: Selection)
    ensures r.start == r.end && !r.reversed && r.id == s.id && r.goal == s.goal
    ensures IsClipped(lines, r.start, clipAtLineEnds)
    ensures Head(s).row < |lines| ==> r.start.row == Head(s).row
    ensures Head(s).row < |lines| && s.id in columns ==>
      r.start.column == if columns[s.id] <= MaxColumn(lines, Head(s).row, clipAtLineEnds)
                        then columns[s.id] else MaxColumn(lines, Head(s).row, clipAtLineEnds)
    ensures s.id !in columns ==> r == CollapseAtHead(lines, clipAtLineEnds, s)
  {
    var cursor := Head(s);
    var cursor' := if s.id in columns then cursor.(column := columns[s.id]) else cursor;
    var clipped := ClipPoint(lines, cursor', Left, clipAtLineEnds);
    CollapseTo(s, clipped, s.goal)
  }

  // ----- The editor state the commands change -----

  /** Selections as the editor keeps them: on the snapshot, start not after end. */
  predicate WellFormed(lines: Lines, sels: seq<Selection>)
  {
    forall i :: 0 <= i < |sels| ==> SelectionInBounds(lines, sels[i]) && Ordered(sels[i])
  }

  /**
   * The part of the editor the visual-mode commands act on: the display
   * snapshot, its line-end clipping switch and the selections.
   */
  class Editor {
    var lines: Lines
    var clipAtLineEnds: bool
    var selections: seq<Selection>

    /** Every selection lies on the snapshot, its start not after its end. */
    ghost predicate Valid()
      reads this
    {
      WellFormed(lines, selections)
    }

    constructor (lines: Lines, clipAtLineEnds: bool, selections: seq<Selection>)
      requires WellFormed(lines, selections)
      ensures Valid()
      ensures this.lines == lines && this.clipAtLineEnds == clipAtLineEnds && this.selections == selections
    {
      this.lines := lines;
      this.clipAtLineEnds := clipAtLineEnds;
      this.selections := selections;
    }

    /** `set_clip_at_line_ends`. */
    method SetClipAtLineEnds(clip: bool)
      modifies this`clipAtLineEnds
      ensures clipAtLineEnds == clip
    {
      clipAtLineEnds := clip;
    }

    /** `visual_motion` (visual.rs:25-50): every selection follows the motion. */
    method VisualMotion(motion: (Point, Goal) -> (Point, Goal))
      requires Valid()
      modifies this`selections
      ensures Valid() && |selections| == |old(selections)|
      ensures forall i :: 0 <= i < |selections| ==>
        selections[i] == ApplyMotion(lines, clipAtLineEnds, old(selections)[i], motion)
    {
      var i := 0;
      while i < |selections|
        invariant 0 <= i <= |selections| == |old(selections)|
        invariant forall k :: 0 <= k < i ==>
          selections[k] == ApplyMotion(lines, clipAtLineEnds, old(selections)[k], motion)
        invariant forall k :: i <= k < |selections| ==> selections[k] == old(selections)[k]
        invariant Valid()
      {
        var selection := selections[i];
        var moved := motion(Head(selection), selection.goal);
        var newHead := ClipAtLineEnd(lines, moved.0);
        var wasReversed := selection.reversed;
        selection := SetHead(selection, newHead, moved.1);
        if wasReversed && !selection.reversed {
          selection := selection.(start := selection.start.(column := if selection.start.column > 0 then selection.start.column - 1 else 0));
          selection := selection.(start := ClipPoint(lines, selection.start, Left, clipAtLineEnds));
        } else if !wasReversed && selection.reversed {
          selection := selection.(end := selection.end.(column := selection.end.column + 1));
          selection := selection.(end := ClipPoint(lines, selection.end, Right, clipAtLineEnds));
        }
        selections := selections[i := selection];
        i := i + 1;
      }
    }

    /** The adjusting pass of `change` and `delete` (visual.rs:57-63, 95-101). */
    method ExtendEnds(bias: Bias)
      requires Valid() && !clipAtLineEnds
      modifies this`selections
      ensures Valid() && |selections| == |old(selections)|
      ensures forall i :: 0 <= i < |selections| ==>
        selections[i] == ExtendEnd(lines, clipAtLineEnds, old(selections)[i], bias)
    {
      var i := 0;
      while i < |selections|
        invariant 0 <= i <= |selections| == |old(selections)|
        invariant forall k :: 0 <= k < i ==>
          selections[k] == ExtendEnd(lines, clipAtLineEnds, old(selections)[k], bias)
        invariant forall k :: i <= k < |selections| ==> selections[k] == old(selections)[k]
        invariant Valid()
      {
        var selection := selections[i];
        if !selection.reversed {
          selection := selection.(end := selection.end.(column := selection.end.column + 1));
          selection := selection.(end := ClipPoint(lines, selection.end, bias, clipAtLineEnds));
        }
        selections := selections[i := selection];
        i := i + 1;
      }
    }

    /** The adjusting pass of `change_line` (visual.rs:78-81). */
    method ExpandSelectionsToLines()
      requires Valid()
      modifies this`selections
      ensures Valid() && |selections| == |old(selections)|
      ensures forall i :: 0 <= i < |selections| ==>
        selections[i] == ExpandToLines(lines, old(selections)[i])
    {
      var i := 0;
      while i < |selections|
        invariant 0 <= i <= |selections| == |old(selections)|
        invariant forall k :: 0 <= k < i ==> selections[k] == ExpandToLines(lines, old(selections)[k])
        invariant forall k :: i <= k < |selections| ==> selections[k] == old(selections)[k]
        invariant Valid()
      {
        var selection := selections[i];
        selection := selection.(start := PrevLineBoundary(lines, selection.start));
        selection := selection.(end := NextLineBoundary(lines, selection.end));
        selections := selections[i := selection];
        i := i + 1;
      }
    }

    /**
     * The adjusting pass of `delete_line` (visual.rs:125-142): records each
     * head column under the selection's id before expanding it to whole lines.
     */
    method ExpandSelectionsToWholeLines() returns (originalColumns: map<nat, nat>)
      requires Valid()
      modifies this`selections
      ensures Valid() && |selections| == |old(selections)|
      ensures forall i :: 0 <= i < |selections| ==>
        selections[i] == ExpandToWholeLines(lines, old(selections)[i])
      ensures originalColumns == RecordColumns(old(selections))
    {
      originalColumns := map[];
      var i := 0;
      while i < |selections|
        invariant 0 <= i <= |selections| == |old(selections)|
        invariant forall k :: 0 <= k < i ==> selections[k] == ExpandToWholeLines(lines, old(selections)[k])
        invariant forall k :: i <= k < |selections| ==> selections[k] == old(selections)[k]
        invariant originalColumns == RecordColumns(old(selections)[..i])
        invariant Valid()
      {
        var selection := selections[i];
        ghost var before := old(selections)[..i + 1];
        assert before[..i] == old(selections)[..i] && before[i] == selection;
        assert RecordColumns(before) == originalColumns[selection.id := Head(selection).column];
        originalColumns := originalColumns[selection.id := Head(selection).column];
        selection := selection.(start := PrevLineBoundary(lines, selection.start));
        if selection.end.row < MaxRow(lines) {
          selection := selection.(end := selection.end.(row := selection.end.row + 1));
          selection := selection.(end := selection.end.(column := 0));
        } else {
          if selection.start.row > 0 {
            selection := selection.(start := selection.start.(row := selection.start.row - 1));
            selection := selection.(start := selection.start.(column := LineLen(lines, selection.start.row)));
          }
          selection := selection.(end := NextLineBoundary(lines, selection.end));
        }
        assert selection == ExpandToWholeLines(lines, old(selections)[i]);
        assert SelectionInBounds(lines, selection);
        selections := selections[i := selection];
        i := i + 1;
      }
      assert old(selections)[..i] == old(selections);
    }

    /**
     * `editor.insert("")`: the buffer edit belongs to the editor. Its outcome
     * is given: the new snapshot and the selections the edit leaves.
     */
    method InsertEmpty(newLines: Lines, after: seq<Selection>)
      requires WellFormed(newLines, after)
      modifies this`lines, this`selections
      ensures Valid() && lines == newLines && selections == after
    {
      lines := newLines;
      selections := after;
    }

    /** The fix-up pass of `delete` (visual.rs:109-115). */
    method CollapseSelectionsAtHeads()
      requires Valid()
      modifies this`selections
      ensures Valid() && |selections| == |old(selections)|
      ensures forall i :: 0 <= i < |selections| ==>
        selections[i] == CollapseAtHead(lines, clipAtLineEnds, old(selections)[i])
    {
      var i := 0;
      while i < |selections|
        invariant 0 <= i <= |selections| == |old(selections)|
        invariant forall k :: 0 <= k < i ==>
          selections[k] == CollapseAtHead(lines, clipAtLineEnds, old(selections)[k])
        invariant forall k :: i <= k < |selections| ==> selections[k] == old(selections)[k]
        invariant Valid()
      {
        var selection := selections[i];
        var cursor := Head(selection);
        cursor := ClipPoint(lines, cursor, Left, clipAtLineEnds);
        selection := CollapseTo(selection, cursor, selection.goal);
        selections := selections[i := selection];
        i := i + 1;
      }
    }

    /** The fix-up pass of `delete_line` (visual.rs:149-158). */
    method RestoreColumns(originalColumns: map<nat, nat>)
      requires Valid()
      modifies this`selections
      ensures Valid() && |selections| == |old(selections)|
      ensures forall i :: 0 <= i < |selections| ==>
        selections[i] == RestoreColumn(lines, clipAtLineEnds, old(selections)[i], originalColumns)
    {
      var i := 0;
      while i < |selections|
        invariant 0 <= i <= |selections| == |old(selections)|
        invariant forall k :: 0 <= k < i ==>
          selections[k] == RestoreColumn(lines, clipAtLineEnds, old(selections)[k], originalColumns)
        invariant forall k :: i <= k < |selections| ==> selections[k] == old(selections)[k]
        invariant Valid()
      {
        var selection := selections[i];
        var cursor := Head(selection);
        if selection.id in originalColumns {
          cursor := cursor.(column := originalColumns[selection.id]);
        }
        cursor := ClipPoint(lines, cursor, Left, clipAtLineEnds);
        selection := CollapseTo(selection, cursor, selection.goal);
        selections := selections[i := selection];
        i := i + 1;
      }
    }

    /**
     * `change` (visual.rs:52-71): returns the ranges handed to the clipboard
     * and removed; line-end clipping stays off for insert mode.
     */
    method Change(newLines: Lines, after: seq<Selection>) returns (ranges: seq<Selection>)
      requires Valid()
      requires WellFormed(newLines, after)
      modifies this
      ensures Valid() && lines == newLines && !clipAtLineEnds && selections == after
      ensures |ranges| == |old(selections)|
      ensures forall i :: 0 <= i < |ranges| ==>
        ranges[i] == ExtendEnd(old(lines), false, old(selections)[i], Left)
    {
      SetClipAtLineEnds(false);
      ExtendEnds(Left);
      ranges := selections;
      InsertEmpty(newLines, after);
    }

    /** `change_line` (visual.rs:73-88). */
    method ChangeLine(newLines: Lines, after: seq<Selection>) returns (ranges: seq<Selection>)
      requires Valid()
      requires WellFormed(newLines, after)
      modifies this
      ensures Valid() && lines == newLines && !clipAtLineEnds && selections == after
      ensures |ranges| == |old(selections)|
      ensures forall i :: 0 <= i < |ranges| ==> ranges[i] == ExpandToLines(old(lines), old(selections)[i])
    {
      SetClipAtLineEnds(false);
      ExpandSelectionsToLines();
      ranges := selections;
      InsertEmpty(newLines, after);
    }

    /**
     * `delete` (visual.rs:90-119): the removed ranges, then every selection
     * left by the edit becomes a cursor at its head, with clipping back on.
     */
    method Delete(newLines: Lines, after: seq<Selection>) returns (ranges: seq<Selection>)
      requires Valid()
      requires WellFormed(newLines, after)
      modifies this
      ensures Valid() && lines == newLines && clipAtLineEnds
      ensures |ranges| == |old(selections)|
      ensures forall i :: 0 <= i < |ranges| ==>
        ranges[i] == ExtendEnd(old(lines), false, old(selections)[i], Right)
      ensures |selections| == |after|
      ensures forall i :: 0 <= i < |selections| ==>
        selections[i] == CollapseAtHead(newLines, true, after[i]) &&
        selections[i].start.row == Head(after[i]).row
    {
      SetClipAtLineEnds(false);
      ExtendEnds(Right);
      ranges := selections;
      InsertEmpty(newLines, after);
      SetClipAtLineEnds(true);
      CollapseSelectionsAtHeads();
    }

    /**
     * `delete_line` (visual.rs:121-162): whole lines are removed; every
     * cursor the edit leaves gets back the head column its selection had
     * before, clipped to its new line.
     */
    method DeleteLine(newLines: Lines, after: seq<Selection>) returns (ranges: seq<Selection>)
      requires Valid()
      requires WellFormed(newLines, after)
      modifies this
      ensures Valid() && lines == newLines && clipAtLineEnds
      ensures |ranges| == |old(selections)|
      ensures forall i :: 0 <= i < |ranges| ==> ranges[i] == ExpandToWholeLines(old(lines), old(selections)[i])
      ensures |selections| == |after|
      ensures forall i :: 0 <= i < |selections| ==>
        selections[i] == RestoreColumn(newLines, true, after[i], RecordColumns(old(selections)))
      ensures UniqueIds(old(selections)) ==>
        forall i, k :: 0 <= i < |selections| && 0 <= k < |old(selections)| && after[i].id == old(selections)[k].id ==>
          selections[i].start == ClipPoint(newLines, Point(Head(after[i]).row, Head(old(selections)[k]).column), Left, true)
    {
      SetClipAtLineEnds(false);
      var originalColumns := ExpandSelectionsToWholeLines();
      ranges := selections;
      InsertEmpty(newLines, after);
      SetClipAtLineEnds(true);
      RestoreColumns(originalColumns);
      if UniqueIds(old(selections)) {
        forall i, k | 0 <= i < |selections| && 0 <= k < |old(selections)| && after[i].id == old(selections)[k].id
          ensures selections[i].start == ClipPoint(newLines, Point(Head(after[i]).row, Head(old(selections)[k]).column), Left, true)
        {
          RecordColumnsFind(old(selections), k);
        }
      }
    }
  }
}
